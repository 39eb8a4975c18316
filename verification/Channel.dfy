// Host and keyboard joined by two lossy first-in first-out queues.  The host
// only appends requests and removes replies; everything else that can happen
// is an `Event`, and a run is any finite sequence of events.
module Channel {
  import opened Bytes
  import opened Via

  type Request = r: Report | Command(r) witness [ID_GET_PROTOCOL_VERSION] + Zeros(31)

  datatype Net = Net(toDevice: seq<Request>, toHost: seq<Report>, device: Device)

  datatype Event =
    | Serve                                // the keyboard handles its oldest request
    | LoseRequest(i: nat)
    | LoseReply(i: nat)
    | LayerChanged(report: Report)         // an unsolicited layer report

  function RemoveAt<T>(s: seq<T>, i: nat): (t: seq<T>)
    requires i < |s|
    ensures |t| == |s| - 1
  {
    s[..i] + s[i + 1..]
  }

  predicate Possible(net: Net, e: Event)
  {
    match e
    case Serve => net.toDevice != []
    case LoseRequest(i) => i < |net.toDevice|
    case LoseReply(i) => i < |net.toHost|
    case LayerChanged(report) => LayerReport(report)
  }

  function Step(net: Net, e: Event): Net
    requires Possible(net, e)
  {
    match e
    case Serve =>
      var r := net.toDevice[0];
      Net(net.toDevice[1..], net.toHost + [Reply(net.device, r)], Exec(net.device, r))
    case LoseRequest(i) => net.(toDevice := RemoveAt(net.toDevice, i))
    case LoseReply(i) => net.(toHost := RemoveAt(net.toHost, i))
    case LayerChanged(report) => net.(toHost := net.toHost + [report])
  }

  // An event that is not possible does not happen.
  function Run(net: Net, events: seq<Event>): Net
    decreases |events|
  {
    if events == [] then net
    else
      var before := Run(net, events[..|events| - 1]);
      var e := events[|events| - 1];
      if Possible(before, e) then Step(before, e) else before
  }

  // `after` is reached from `before` when the keyboard handles some of
  // `requests`, in order, and the others are lost.
  ghost predicate Applied(before: Device, requests: seq<Request>, after: Device)
    decreases |requests|
  {
    if requests == [] then before == after
    else Applied(Exec(before, requests[0]), requests[1..], after) || Applied(before, requests[1..], after)
  }

  lemma {:induction false} AppliedNone(d: Device, requests: seq<Request>)
    ensures Applied(d, requests, d)
    decreases |requests|
  {
    if requests != [] { AppliedNone(d, requests[1..]); }
  }

  // Losing a request only removes outcomes.
  lemma {:induction false} AppliedWithoutOne(before: Device, requests: seq<Request>, i: nat, after: Device)
    requires i < |requests| && Applied(before, RemoveAt(requests, i), after)
    ensures Applied(before, requests, after)
    decreases |requests|
  {
    if i == 0 {
      assert RemoveAt(requests, 0) == requests[1..];
    } else {
      var fewer := RemoveAt(requests, i);
      assert fewer[0] == requests[0] && fewer[1..] == RemoveAt(requests[1..], i - 1);
      if Applied(before, fewer[1..], after) {
        AppliedWithoutOne(before, requests[1..], i - 1, after);
      } else {
        AppliedWithoutOne(Exec(before, requests[0]), requests[1..], i - 1, after);
      }
    }
  }

  // Requests that have taken effect already cannot change the device again.
  lemma {:induction false} AppliedSettled(d: Device, requests: seq<Request>, after: Device)
    requires Applied(d, requests, after)
    requires forall q :: q in requests ==> Exec(d, q) == d
    ensures after == d
    decreases |requests|
  {
    if requests != [] {
      assert requests[0] in requests;
      AppliedSettled(d, requests[1..], after);
    }
  }

  // ----- one transaction -----

  // How far the current request has got.  `Waiting(k)`: the first k queued
  // requests are older ones and no reply to the current one exists yet.
  // `Served(base, k)`: the keyboard first handled the current request in state
  // `base`; only the first k queued replies are older.
  datatype Progress = Waiting(older: nat) | Served(base: Device, stale: nat)

  ghost predicate Own(base: Device, current: Request, r: Report)
  {
    r == Reply(base, current) || LayerReport(r)
  }

  ghost predicate Tracks(start: Net, current: Request, net: Net, p: Progress)
  {
    match p
    case Waiting(k) =>
      && k <= |net.toDevice|
      && (forall after ::
        Applied(net.device, net.toDevice[..k], after) ==> Applied(start.device, start.toDevice, after))
      && (forall i :: 0 <= i < k ==> Distinct(current, net.toDevice[i]))
      && (forall i :: k <= i < |net.toDevice| ==> net.toDevice[i] == current)
      && (forall i :: 0 <= i < |net.toHost| ==> !ResponseMatchesRequest(current, net.toHost[i]))
    case Served(base, k) =>
      && Applied(start.device, start.toDevice, base)
      && net.device == Exec(base, current)
      && (forall i :: 0 <= i < |net.toDevice| ==> net.toDevice[i] == current)
      && k <= |net.toHost|
      && (forall i :: 0 <= i < k ==> !ResponseMatchesRequest(current, net.toHost[i]))
      && (forall i :: k <= i < |net.toHost| ==> Own(base, current, net.toHost[i]))
  }

  // Nothing in flight can be taken for the answer to `current`.
  ghost predicate Ready(net: Net, current: Request)
  {
    && (forall i :: 0 <= i < |net.toDevice| ==> Distinct(current, net.toDevice[i]))
    && (forall i :: 0 <= i < |net.toHost| ==> !ResponseMatchesRequest(current, net.toHost[i]))
  }

  lemma TracksInitially(net: Net, current: Request)
    requires Ready(net, current)
    ensures Tracks(net, current, net, Waiting(|net.toDevice|))
  {
    assert net.toDevice[..|net.toDevice|] == net.toDevice;
  }

  lemma LayerReportNeverMatches(current: Request, r: Report)
    requires LayerReport(r)
    ensures !ResponseMatchesRequest(current, r)
  {
    assert r[0] == r[..6][0];
  }

  lemma TracksServe(start: Net, current: Request, net: Net, p: Progress) returns (next: Progress)
    requires Tracks(start, current, net, p) && net.toDevice != []
    ensures Tracks(start, current, Step(net, Serve), next)
  {
    var r, after := net.toDevice[0], Step(net, Serve);
    match p
    case Waiting(k) =>
      if k == 0 {
        assert net.toDevice[..0] == [];
        next := Served(net.device, |net.toHost|);
        assert Applied(net.device, net.toDevice[..0], net.device);
      } else {
        next := Waiting(k - 1);
        DistinctNeverMatches(current, r, net.device);
        assert net.toDevice[..k][1..] == after.toDevice[..k - 1];
        assert net.toDevice[..k][0] == r;
        forall d | Applied(after.device, after.toDevice[..k - 1], d) ensures Applied(start.device, start.toDevice, d) {
          assert Applied(net.device, net.toDevice[..k], d);
        }
      }
    case Served(base, k) =>
      ExecIdempotent(base, current);
      next := p;
  }

  lemma TracksLoseRequest(start: Net, current: Request, net: Net, p: Progress, i: nat) returns (next: Progress)
    requires Tracks(start, current, net, p) && i < |net.toDevice|
    ensures Tracks(start, current, Step(net, LoseRequest(i)), next)
  {
    var after := Step(net, LoseRequest(i));
    match p
    case Waiting(k) =>
      if k <= i {
        next := p;
        assert after.toDevice[..k] == net.toDevice[..k];
      } else {
        next := Waiting(k - 1);
        assert after.toDevice[..k - 1] == RemoveAt(net.toDevice[..k], i);
        forall d | Applied(after.device, after.toDevice[..k - 1], d) ensures Applied(start.device, start.toDevice, d) {
          AppliedWithoutOne(net.device, net.toDevice[..k], i, d);
        }
      }
    case Served(base, k) =>
      next := p;
  }

  lemma TracksEvent(start: Net, current: Request, net: Net, p: Progress, e: Event) returns (next: Progress)
    requires Tracks(start, current, net, p) && Possible(net, e)
    ensures Tracks(start, current, Step(net, e), next)
  {
    match e
    case Serve => next := TracksServe(start, current, net, p);
    case LoseRequest(i) => next := TracksLoseRequest(start, current, net, p, i);
    case LoseReply(i) =>
      next := if p.Served? && i < p.stale then p.(stale := p.stale - 1) else p;
    case LayerChanged(report) =>
      LayerReportNeverMatches(current, report);
      next := p;
  }

  // Whatever happens on the wire, the transaction stays on track.
  lemma {:induction false} TracksRun(start: Net, current: Request, net: Net, p: Progress, events: seq<Event>)
    returns (next: Progress)
    requires Tracks(start, current, net, p)
    ensures Tracks(start, current, Run(net, events), next)
    decreases |events|
  {
    if events == [] {
      next := p;
    } else {
      var before, e := events[..|events| - 1], events[|events| - 1];
      next := TracksRun(start, current, net, p, before);
      if Possible(Run(net, before), e) {
        next := TracksEvent(start, current, Run(net, before), next, e);
      }
    }
  }

  lemma TracksWrite(start: Net, current: Request, net: Net, p: Progress)
    requires Tracks(start, current, net, p)
    ensures Tracks(start, current, net.(toDevice := net.toDevice + [current]), p)
  {
    if p.Waiting? {
      assert (net.toDevice + [current])[..p.older] == net.toDevice[..p.older];
    }
  }

  // Removing the oldest reply: if it matches, it is the keyboard's answer to
  // the current request and everything still in flight belongs to it.
  lemma TracksRead(start: Net, current: Request, net: Net, p: Progress) returns (next: Progress)
    requires Tracks(start, current, net, p) && net.toHost != []
    ensures Tracks(start, current, net.(toHost := net.toHost[1..]), next)
    ensures ResponseMatchesRequest(current, net.toHost[0]) ==>
      && p.Served? && net.toHost[0] == Reply(p.base, current)
      && Transacted(start, current, net.toHost[0], net.(toHost := net.toHost[1..]))
  {
    var r := net.toHost[0];
    next := if p.Served? && 0 < p.stale then p.(stale := p.stale - 1) else p;
    if ResponseMatchesRequest(current, r) {
      assert p.Served? && p.stale == 0;
      assert Own(p.base, current, r);
      if LayerReport(r) { LayerReportNeverMatches(current, r); }
      assert TransactedFrom(start, current, r, net.(toHost := net.toHost[1..]), p.base);
    }
  }

  // ----- what a completed or abandoned transaction leaves behind -----

  // `reply` is the answer computed for `current` after the older requests, as
  // far as they were not lost, took effect.
  ghost predicate TransactedFrom(start: Net, current: Request, reply: Report, net: Net, base: Device)
  {
    && Applied(start.device, start.toDevice, base)
    && net.device == Exec(base, current)
    && reply == Reply(base, current)
    && (forall i :: 0 <= i < |net.toDevice| ==> net.toDevice[i] == current)
    && (forall i :: 0 <= i < |net.toHost| ==> Own(base, current, net.toHost[i]))
  }

  ghost predicate Transacted(start: Net, current: Request, reply: Report, net: Net)
  {
    exists base :: TransactedFrom(start, current, reply, net, base)
  }

  // `current` took effect after the older requests, or not at all.
  ghost predicate AtMostOnce(start: Net, current: Request, d: Device)
  {
    exists base :: Applied(start.device, start.toDevice, base) && (d == base || d == Exec(base, current))
  }

  // An abandoned request takes effect once or not at all, now and later: copies
  // of it may still be queued.
  ghost predicate Abandoned(start: Net, current: Request, net: Net)
  {
    forall events :: AtMostOnce(start, current, Run(net, events).device)
  }

  lemma TracksAbandoned(start: Net, current: Request, net: Net, p: Progress)
    requires Tracks(start, current, net, p)
    ensures Abandoned(start, current, net)
  {
    forall events ensures AtMostOnce(start, current, Run(net, events).device) {
      var later := Run(net, events);
      var q := TracksRun(start, current, net, p, events);
      if q.Waiting? {
        AppliedNone(later.device, later.toDevice[..q.older]);
      }
    }
  }

  // The device is one of the two, now and whatever happens on the wire later.
  ghost predicate EndsIn(net: Net, a: Device, b: Device)
  {
    forall events :: Run(net, events).device == a || Run(net, events).device == b
  }

  lemma EndsNow(net: Net, a: Device, b: Device)
    requires EndsIn(net, a, b)
    ensures net.device == a || net.device == b
  {
    assert Run(net, []) == net;
  }

  // ----- between transactions -----

  // Only duplicates of `last`, which has taken effect, and its replies remain.
  ghost predicate Quiet(net: Net, last: Request)
  {
    && Exec(net.device, last) == net.device
    && (forall i :: 0 <= i < |net.toDevice| ==> net.toDevice[i] == last)
    && (forall i :: 0 <= i < |net.toHost| ==> Own(net.device, last, net.toHost[i]))
  }

  lemma {:induction false} QuietRun(net: Net, last: Request, events: seq<Event>)
    requires Quiet(net, last)
    ensures Quiet(Run(net, events), last) && Run(net, events).device == net.device
    decreases |events|
  {
    if events != [] { QuietRun(net, last, events[..|events| - 1]); }
  }

  lemma QuietStays(net: Net, last: Request)
    requires Quiet(net, last)
    ensures EndsIn(net, net.device, net.device)
  {
    forall events ensures Run(net, events).device == net.device {
      QuietRun(net, last, events);
    }
  }

  lemma TransactedIsQuiet(start: Net, current: Request, reply: Report, net: Net)
    requires Transacted(start, current, reply, net)
    ensures Quiet(net, current) && reply == Reply(net.device, current)
  {
    var base :| TransactedFrom(start, current, reply, net, base);
    ExecIdempotent(base, current);
  }

  lemma QuietIsReady(net: Net, last: Request, current: Request)
    requires Quiet(net, last) && Distinct(current, last)
    ensures Ready(net, current)
  {
    forall i | 0 <= i < |net.toHost| ensures !ResponseMatchesRequest(current, net.toHost[i]) {
      var r := net.toHost[i];
      if LayerReport(r) {
        LayerReportNeverMatches(current, r);
      } else {
        DistinctNeverMatches(current, last, net.device);
      }
    }
  }

  // At-least-once delivery of a chain of distinct requests has exactly-once
  // effect, and each reply describes the device at that point of the chain.
  lemma QuietTransacted(start: Net, last: Request, current: Request, reply: Report, net: Net)
    requires Quiet(start, last) && Transacted(start, current, reply, net)
    ensures Quiet(net, current)
    ensures net.device == Exec(start.device, current) && reply == Reply(start.device, current)
  {
    var base :| TransactedFrom(start, current, reply, net, base);
    AppliedSettled(start.device, start.toDevice, base);
    TransactedIsQuiet(start, current, reply, net);
  }

  lemma QuietAbandoned(start: Net, last: Request, current: Request, net: Net)
    requires Quiet(start, last) && Abandoned(start, current, net)
    ensures EndsIn(net, start.device, Exec(start.device, current))
  {
    forall events
      ensures Run(net, events).device == start.device || Run(net, events).device == Exec(start.device, current)
    {
      var d := Run(net, events).device;
      assert AtMostOnce(start, current, d);
      var base :| Applied(start.device, start.toDevice, base) && (d == base || d == Exec(base, current));
      AppliedSettled(start.device, start.toDevice, base);
    }
  }

  lemma TransactedIsAbandoned(start: Net, current: Request, reply: Report, net: Net)
    requires Transacted(start, current, reply, net)
    ensures Abandoned(start, current, net)
  {
    var base :| TransactedFrom(start, current, reply, net, base);
    TransactedIsQuiet(start, current, reply, net);
    forall events ensures AtMostOnce(start, current, Run(net, events).device) {
      QuietRun(net, current, events);
    }
  }

  // What a reader leaves behind is the effect of the older requests alone.
  ghost predicate AppliedLater(start: Net, net: Net)
  {
    forall events :: Applied(start.device, start.toDevice, Run(net, events).device)
  }

  lemma ReadAbandoned(start: Net, current: Request, net: Net)
    requires Abandoned(start, current, net) && !IsWrite(current)
    ensures AppliedLater(start, net) && Applied(start.device, start.toDevice, net.device)
  {
    forall events ensures Applied(start.device, start.toDevice, Run(net, events).device) {
      var d := Run(net, events).device;
      assert AtMostOnce(start, current, d);
      var base :| Applied(start.device, start.toDevice, base) && (d == base || d == Exec(base, current));
    }
    assert Run(net, []) == net;
  }

  lemma ReadTransacted(start: Net, current: Request, reply: Report, net: Net)
    requires Transacted(start, current, reply, net) && !IsWrite(current)
    ensures AppliedLater(start, net) && Applied(start.device, start.toDevice, net.device)
  {
    TransactedIsAbandoned(start, current, reply, net);
    ReadAbandoned(start, current, net);
  }

  // Why distinct keys are asked for: a duplicate reply to an earlier command
  // that took effect is accepted although `current` was never delivered,
  // whenever the key of `current` is a prefix of the earlier one.
  lemma PrefixKeyAcceptsStaleReply(before: Device, last: Request, current: Request)
    requires Key(current) <= Key(last)
    ensures var d := Exec(before, last);
      Reply(d, last)[0] != ID_UNHANDLED ==>
        && Quiet(Net([], [Reply(d, last)], d), last)
        && !Ready(Net([], [Reply(d, last)], d), current)
        && ResponseMatchesRequest(current, Reply(d, last))
  {
    var d := Exec(before, last);
    if Reply(d, last)[0] != ID_UNHANDLED {
      var s, n := Reply(d, last), KeyLength(current);
      ExecIdempotent(before, last);
      ReplyEchoesKey(d, last);
      assert s[..n] == s[..KeyLength(last)][..n] == Key(current);
      MatchIsKeyPrefix(current, s);
      assert Net([], [s], d).toHost[0] == s;
    }
  }

  // Two requests are distinct exactly if neither key is a prefix of the other.
  lemma DistinctExactly(a: Request, b: Request)
    ensures Distinct(a, b) <==> !(Key(a) <= Key(b)) && !(Key(b) <= Key(a))
  {
    if Distinct(a, b) {
      var i :| 0 <= i < KeyLength(a) && i < KeyLength(b) && a[i] != b[i];
      assert Key(a)[i] != Key(b)[i];
    } else {
      forall i | 0 <= i < KeyLength(a) && i < KeyLength(b) ensures Key(a)[i] == Key(b)[i] {
      }
      if KeyLength(a) <= KeyLength(b) {
        assert Key(a) <= Key(b);
      } else {
        assert Key(b) <= Key(a);
      }
    }
  }
}

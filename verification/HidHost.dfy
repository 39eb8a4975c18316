// The host side of one raw HID connection.  The connection, the keyboard and
// the clock are fields; between any two actions of the host an arbitrary run
// of events happens and the clock moves on.
module HidHost {
  import opened Wrappers
  import opened Bytes
  import opened Via
  import opened Channel

  // Nanoseconds.
  const RETRY_INTERVAL: nat := 10_000_000
  const SECOND: nat := 1_000_000_000

  datatype TransactionError = WriteFailed | ReadFailed | TimedOut

  function NormalizeReport(raw: seq<u8>): seq<u8>
  {
    if |raw| > REPORT_LEN && raw[0] == 0 then raw[1..] else raw
  }

  // A report as the platform hands it over: with or without the report id.
  function Raw(report: Report, withId: bool): (raw: seq<u8>)
    ensures REPORT_LEN <= |raw| <= REPORT_LEN + 1
    ensures NormalizeReport(raw) == report
  {
    if withId then [0] + report else report
  }

  // The only request written since `before` is `report`.
  ghost predicate OnlyAdds(before: seq<Request>, after: seq<Request>, report: Request)
  {
    before <= after && forall i :: |before| <= i < |after| ==> after[i] == report
  }

  // ----- what the host did, step by step -----

  // A read that brought nothing has an empty report.
  datatype Action = Wrote(at: nat) | WriteError | Read(at: nat, raw: seq<u8>) | ReadError

  // The report answers the request.
  ghost predicate Accepted(raw: seq<u8>, request: Request, expected: u8)
  {
    var response := NormalizeReport(raw);
    |response| == REPORT_LEN && response[0] == expected && ResponseMatchesRequest(request, response)
  }

  ghost predicate NoneAccepted(log: seq<Action>, request: Request, expected: u8)
  {
    forall i :: 0 <= i < |log| && log[i].Read? ==> !Accepted(log[i].raw, request, expected)
  }

  // Whenever the host listens, it has written less than RETRY_INTERVAL ago.
  ghost predicate OnTime(log: seq<Action>)
  {
    forall i :: 0 <= i < |log| && log[i].Read? ==> WroteBefore(log, i, log[i].at)
  }

  ghost predicate WroteBefore(log: seq<Action>, i: nat, at: nat)
  {
    exists j :: 0 <= j < i && j < |log| && log[j].Wrote? && at < log[j].at + RETRY_INTERVAL
  }

  // And it writes no more often than that.
  ghost predicate Spaced(log: seq<Action>)
  {
    forall i, j :: 0 <= i < j < |log| && log[i].Wrote? && log[j].Wrote? ==> log[i].at + RETRY_INTERVAL <= log[j].at
  }

  // The next write is due RETRY_INTERVAL after the last one.
  ghost predicate Latest(log: seq<Action>, nextWrite: nat)
  {
    forall i :: 0 <= i < |log| && log[i].Wrote? ==> log[i].at + RETRY_INTERVAL <= nextWrite
  }

  ghost predicate Orderly(log: seq<Action>, nextWrite: nat)
  {
    OnTime(log) && Spaced(log) && Latest(log, nextWrite)
  }

  // The last write is the one that nextWrite counts from.
  ghost predicate Armed(log: seq<Action>, nextWrite: nat)
  {
    exists j :: 0 <= j < |log| && log[j].Wrote? && log[j].at + RETRY_INTERVAL == nextWrite
  }

  lemma WroteOrderly(log: seq<Action>, nextWrite: nat, t: nat)
    requires Orderly(log, nextWrite) && nextWrite <= t
    ensures Orderly(log + [Wrote(t)], t + RETRY_INTERVAL) && Armed(log + [Wrote(t)], t + RETRY_INTERVAL)
  {
    OnTimeKept(log, Wrote(t));
    assert (log + [Wrote(t)])[|log|] == Wrote(t);
  }

  lemma ReadOrderly(log: seq<Action>, nextWrite: nat, t: nat, raw: seq<u8>)
    requires Orderly(log, nextWrite) && Armed(log, nextWrite) && t < nextWrite
    ensures Orderly(log + [Read(t, raw)], nextWrite) && Armed(log + [Read(t, raw)], nextWrite)
  {
    var longer := log + [Read(t, raw)];
    var j :| 0 <= j < |log| && log[j].Wrote? && log[j].at + RETRY_INTERVAL == nextWrite;
    assert longer[j] == log[j];
    OnTimeKept(log, Read(t, raw));
  }

  lemma ErrorOrderly(log: seq<Action>, nextWrite: nat, a: Action)
    requires Orderly(log, nextWrite) && (a == WriteError || a == ReadError)
    ensures Orderly(log + [a], nextWrite)
  {
    OnTimeKept(log, a);
  }

  lemma OnTimeKept(log: seq<Action>, a: Action)
    requires OnTime(log) && (a.Read? ==> WroteBefore(log, |log|, a.at))
    ensures OnTime(log + [a])
  {
    var longer := log + [a];
    forall i | 0 <= i < |longer| && longer[i].Read? ensures WroteBefore(longer, i, longer[i].at) {
      assert WroteBefore(log, i, longer[i].at);
      var j :| 0 <= j < i && j < |log| && log[j].Wrote? && longer[i].at < log[j].at + RETRY_INTERVAL;
      assert longer[j] == log[j];
    }
  }

  // What one transaction did, from its first write to its result.
  ghost predicate Transaction(
    log: seq<Action>, request: Request, expected: u8, result: Result<Report, TransactionError>)
  {
    && OnTime(log) && Spaced(log)
    && match result {
      case Ok(response) =>
        && log != [] && NoneAccepted(log[..|log| - 1], request, expected)
        && log[|log| - 1].Read? && Accepted(log[|log| - 1].raw, request, expected)
        && response == NormalizeReport(log[|log| - 1].raw)
      case Err(WriteFailed) => NoneAccepted(log, request, expected) && log != [] && log[|log| - 1] == WriteError
      case Err(ReadFailed) => NoneAccepted(log, request, expected) && log != [] && log[|log| - 1] == ReadError
      case Err(TimedOut) => NoneAccepted(log, request, expected)
    }
  }

  lemma Failed(
    log: seq<Action>, nextWrite: nat, a: Action, request: Request, expected: u8,
    result: Result<Report, TransactionError>)
    requires Orderly(log, nextWrite) && NoneAccepted(log, request, expected)
    requires (a == WriteError && result == Err(WriteFailed)) || (a == ReadError && result == Err(ReadFailed))
    ensures Transaction(log + [a], request, expected, result)
  {
    ErrorOrderly(log, nextWrite, a);
  }

  lemma Answered(log: seq<Action>, nextWrite: nat, t: nat, raw: seq<u8>, request: Request, expected: u8)
    requires Orderly(log, nextWrite) && Armed(log, nextWrite) && t < nextWrite && NoneAccepted(log, request, expected)
    requires Accepted(raw, request, expected)
    ensures Transaction(log + [Read(t, raw)], request, expected, Ok(NormalizeReport(raw)))
  {
    ReadOrderly(log, nextWrite, t, raw);
    assert (log + [Read(t, raw)])[..|log|] == log;
  }

  lemma NotAnswered(log: seq<Action>, nextWrite: nat, t: nat, raw: seq<u8>, request: Request, expected: u8)
    requires Orderly(log, nextWrite) && Armed(log, nextWrite) && t < nextWrite && NoneAccepted(log, request, expected)
    requires !Accepted(raw, request, expected)
    ensures var more := log + [Read(t, raw)];
      NoneAccepted(more, request, expected) && Orderly(more, nextWrite) && Armed(more, nextWrite)
  {
    ReadOrderly(log, nextWrite, t, raw);
  }

  class Connection {
    var net: Net
    var now: nat
    ghost var sent: seq<Request>
    ghost var log: seq<Action>

    constructor (net: Net)
      ensures this.net == net && sent == [] && log == []
    {
      this.net := net;
      now := 0;
      sent, log := [], [];
    }

    method Clock() returns (t: nat)
      modifies this`now
      ensures t == now >= old(now)
    {
      var elapsed :| elapsed >= 0;
      now := now + elapsed;
      t := now;
    }

    // Anything may happen on the wire while the host is not looking.
    method Interleave() returns (ghost events: seq<Event>)
      modifies this`net
      ensures net == Run(old(net), events)
    {
      events := [];
      var count: nat := *;
      while count > 0
        invariant net == Run(old(net), events)
      {
        var e: Event := *;
        var more := events + [e];
        assert more[..|more| - 1] == events;
        if Possible(net, e) {
          net := Step(net, e);
        }
        events, count := more, count - 1;
      }
    }

    method Write(report: Request) returns (ok: bool)
      modifies this`net, this`sent, this`log
      ensures ok ==> net == old(net).(toDevice := old(net).toDevice + [report]) && sent == old(sent) + [report]
      ensures !ok ==> net == old(net) && sent == old(sent)
      ensures log == old(log) + [if ok then Wrote(now) else WriteError]
    {
      ok := *;
      log := log + [if ok then Wrote(now) else WriteError];
      if ok {
        net := net.(toDevice := net.toDevice + [report]);
        sent := sent + [report];
      }
    }

    // Waits until a report arrives or the time is up; either takes time.
    method ReadTimeout() returns (ok: bool, raw: seq<u8>)
      modifies this`net, this`now, this`log
      ensures now > old(now) && log == old(log) + [if ok then Read(old(now), raw) else ReadError]
      ensures !ok || raw == [] ==> net == old(net)
      ensures ok && raw != [] ==>
        && old(net).toHost != []
        && NormalizeReport(raw) == old(net).toHost[0]
        && net == old(net).(toHost := old(net).toHost[1..])
    {
      var elapsed :| elapsed >= 0;
      ghost var began := now;
      now := now + 1 + elapsed;
      ok, raw := *, [];
      var arrived: bool := *;
      if ok && arrived && net.toHost != [] {
        var withId: bool := *;
        raw := Raw(net.toHost[0], withId);
        net := net.(toHost := net.toHost[1..]);
      }
      log := log + [if ok then Read(began, raw) else ReadError];
    }

    // One wait of a transaction: events, then at most one report.
    method Exchange(ghost start: Net, report: Request, ghost progress: Progress)
      returns (ok: bool, raw: seq<u8>, ghost next: Progress)
      requires Tracks(start, report, net, progress)
      modifies this`net, this`now, this`log
      ensures now > old(now) && log == old(log) + [if ok then Read(old(now), raw) else ReadError]
      ensures Tracks(start, report, net, next)
      ensures ok && raw != [] ==>
        var response := NormalizeReport(raw);
        && |response| == REPORT_LEN
        && (ResponseMatchesRequest(report, response) ==> Transacted(start, report, response, net))
    {
      ghost var before := net;
      ghost var events := Interleave();
      next := TracksRun(start, report, before, progress, events);
      before := net;
      ok, raw := ReadTimeout();
      if ok && raw != [] {
        next := TracksRead(start, report, before, next);
      }
    }

    // Sends `report` if its time has come. The transaction began when the log
    // was `before` and has added `mine`.
    method WriteIfDue(
      ghost start: Net, report: Request, ghost progress: Progress, t: nat, nextWrite: nat,
      ghost before: seq<Action>, ghost mine: seq<Action>)
      returns (ok: bool, next: nat, ghost after: seq<Action>)
      requires Tracks(start, report, net, progress) && t == now && log == before + mine
      requires Orderly(mine, nextWrite) && (nextWrite <= t || Armed(mine, nextWrite))
      modifies this`net, this`sent, this`log
      ensures Tracks(start, report, net, progress) && (!ok ==> net == old(net))
      ensures sent == if ok && t >= nextWrite then old(sent) + [report] else old(sent)
      ensures log == before + after && Orderly(after, next)
      ensures ok ==> t < next && Armed(after, next)
      ensures forall expected :: NoneAccepted(mine, report, expected) ==> NoneAccepted(after, report, expected)
      ensures !ok ==> after == mine + [WriteError]
    {
      ok, next, after := true, nextWrite, mine;
      if t >= nextWrite {
        TracksWrite(start, report, net, progress);
        ok := Write(report);
        after := mine + [if ok then Wrote(t) else WriteError];
        if ok {
          next := t + RETRY_INTERVAL;
          WroteOrderly(mine, nextWrite, t);
        } else {
          ErrorOrderly(mine, nextWrite, WriteError);
        }
      }
    }

    // One turn of the loop: write if it is time, then listen once.
    method Attempt(
      ghost start: Net, report: Request, expected: u8, nextWrite: nat, ghost progress: Progress,
      ghost before: seq<Action>, ghost mine: seq<Action>)
      returns (
        done: bool, result: Result<Report, TransactionError>, next: nat,
        ghost onward: Progress, ghost after: seq<Action>)
      requires Tracks(start, report, net, progress) && log == before + mine && NoneAccepted(mine, report, expected)
      requires Orderly(mine, nextWrite) && (nextWrite <= now || Armed(mine, nextWrite))
      modifies this
      ensures now >= old(now) && (!done ==> now > old(now))
      ensures log == before + after && OnlyAdds(old(sent), sent, report)
      ensures nextWrite <= old(now) && (result.Ok? || !done) ==> |sent| > |old(sent)|
      ensures !done ==>
        && Tracks(start, report, net, onward) && NoneAccepted(after, report, expected)
        && Orderly(after, next) && Armed(after, next)
      ensures done ==> Transaction(after, report, expected, result) && result != Err(TimedOut)
      ensures done && result.Ok? ==> Transacted(start, report, result.value, net) && result.value[0] == expected
      ensures done && result.Err? ==> Abandoned(start, report, net)
    {
      result := Err(TimedOut);
      var t := Clock();
      var written: bool;
      written, next, after := WriteIfDue(start, report, progress, t, nextWrite, before, mine);
      onward := progress;
      if !written {
        TracksAbandoned(start, report, net, progress);
        Failed(mine, nextWrite, WriteError, report, expected, Err(WriteFailed));
        return true, Err(WriteFailed), next, onward, after;
      }
      var ok, raw;
      ok, raw, onward := Exchange(start, report, onward);
      if !ok {
        TracksAbandoned(start, report, net, onward);
        Failed(after, next, ReadError, report, expected, Err(ReadFailed));
        return true, Err(ReadFailed), next, onward, after + [ReadError];
      }
      if raw != [] {
        var response := NormalizeReport(raw);
        if response[0] == expected && ResponseMatchesRequest(report, response) {
          Answered(after, next, t, raw, report, expected);
          return true, Ok(response), next, onward, after + [Read(t, raw)];
        }
      }
      NotAnswered(after, next, t, raw, report, expected);
      done, after := false, after + [Read(t, raw)];
    }

    // Sends `report`, again every RETRY_INTERVAL, until a matching reply
    // arrives or `timeout` has passed.
    method RawTransaction(report: Request, expected: u8, timeout: nat)
      returns (result: Result<Report, TransactionError>)
      requires Ready(net, report)
      modifies this
      ensures now >= old(now)
      ensures result.Ok? ==> Transacted(old(net), report, result.value, net) && result.value[0] == expected
      ensures result.Err? ==> Abandoned(old(net), report, net)
      ensures OnlyAdds(old(sent), sent, report) && (result.Ok? ==> |sent| > |old(sent)|)
      // The first matching report is the answer, and it does not give up early.
      ensures old(log) <= log && Transaction(log[|old(log)|..], report, expected, result)
      ensures result == Err(TimedOut) ==> now >= old(now) + timeout
    {
      ghost var start, before, mine := net, log, [];
      ghost var progress := Waiting(|net.toDevice|);
      TracksInitially(net, report);
      var t := Clock();
      var deadline := t + timeout;
      var nextWrite: nat := Clock();
      t := Clock();
      assert log == before + mine;
      while t < deadline
        invariant old(now) <= t <= now && old(now) + timeout <= deadline
        invariant Tracks(start, report, net, progress)
        invariant OnlyAdds(old(sent), sent, report) && (nextWrite <= now || |sent| > |old(sent)|)
        invariant log == before + mine && Orderly(mine, nextWrite) && (nextWrite <= now || Armed(mine, nextWrite))
        invariant NoneAccepted(mine, report, expected)
        decreases deadline - t
      {
        var done: bool;
        done, result, nextWrite, progress, mine :=
          Attempt(start, report, expected, nextWrite, progress, before, mine);
        if done {
          return;
        }
        t := Clock();
      }
      TracksAbandoned(start, report, net, progress);
      return Err(TimedOut);
    }
  }
}

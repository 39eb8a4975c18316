// The hourly limit on sent messages: a sliding window over reservations.
module SendLimiter {
  const HOUR: real := 3600.0

  // ----- specification -----

  // How many of the oldest reservations are out of the window.
  function Expired(times: seq<real>, now: real): (n: nat)
    ensures n <= |times|
    ensures forall i :: 0 <= i < n ==> times[i] <= now - HOUR
    ensures n < |times| ==> times[n] > now - HOUR
  {
    if times != [] && times[0] <= now - HOUR then 1 + Expired(times[1..], now) else 0
  }

  function IndexOf(times: seq<real>, t: real): (i: nat)
    ensures i <= |times|
    ensures i < |times| ==> times[i] == t
  {
    if times == [] || times[0] == t then 0 else 1 + IndexOf(times[1..], t)
  }

  // Without the first entry that equals t, if there is one.
  function Without(times: seq<real>, t: real): seq<real>
  {
    var i := IndexOf(times, t);
    if i == |times| then times else times[..i] + times[i + 1..]
  }

  // The reservations held, and those evicted before that were not released.
  datatype State = State(evicted: seq<real>, times: seq<real>)

  // Every accepted send that was not released.
  function Sent(s: State): seq<real> { s.evicted + s.times }

  function ReserveStep(s: State, now: real, limit: nat): (State, bool)
  {
    var n := Expired(s.times, now);
    var evicted, kept := s.evicted + s.times[..n], s.times[n..];
    if |kept| >= limit then (State(evicted, kept), false) else (State(evicted, kept + [now]), true)
  }

  function ReleaseStep(s: State, t: real): State
  {
    if IndexOf(s.times, t) < |s.times| then s.(times := Without(s.times, t)) else s.(evicted := Without(s.evicted, t))
  }

  class Limiter {
    const limit: nat
    var sendTimes: seq<real>
    ghost var evicted: seq<real>

    ghost function Now(): State
      reads this
    {
      State(evicted, sendTimes)
    }

    constructor (limit: nat)
      ensures this.limit == limit && Now() == State([], [])
    {
      this.limit := limit;
      sendTimes, evicted := [], [];
    }

    method Reserve(now: real) returns (accepted: bool)
      modifies this
      ensures (Now(), accepted) == ReserveStep(old(Now()), now, limit)
    {
      ghost var n: nat := 0;
      while sendTimes != [] && sendTimes[0] <= now - HOUR
        invariant evicted == old(evicted) && n <= |old(sendTimes)| && sendTimes == old(sendTimes)[n..]
        invariant n + Expired(sendTimes, now) == Expired(old(sendTimes), now)
        decreases |sendTimes|
      {
        sendTimes, n := sendTimes[1..], n + 1;
      }
      assert n == Expired(old(sendTimes), now);
      evicted := evicted + old(sendTimes)[..n];
      if |sendTimes| >= limit {
        return false;
      }
      sendTimes := sendTimes + [now];
      return true;
    }

    method Release(reservation: real)
      modifies this
      ensures Now() == ReleaseStep(old(Now()), reservation)
    {
      for i := 0 to |sendTimes|
        invariant sendTimes == old(sendTimes) && evicted == old(evicted)
        invariant i <= IndexOf(sendTimes, reservation)
        invariant i + IndexOf(sendTimes[i..], reservation) == IndexOf(sendTimes, reservation)
      {
        if sendTimes[i] == reservation {
          sendTimes := sendTimes[..i] + sendTimes[i + 1..];
          return;
        }
        assert sendTimes[i..][1..] == sendTimes[i + 1..];
      }
      evicted := Without(evicted, reservation);
    }
  }

  // ----- the window -----

  // Sends in the hour after `start`, its end included.
  function Count(times: seq<real>, start: real): (n: nat)
    ensures n <= |times|
  {
    if times == [] then 0
    else (if start < times[|times| - 1] <= start + HOUR then 1 else 0) + Count(times[..|times| - 1], start)
  }

  lemma {:induction false} CountConcat(a: seq<real>, b: seq<real>, start: real)
    ensures Count(a + b, start) == Count(a, start) + Count(b, start)
    decreases |b|
  {
    if b == [] {
      assert a + b == a;
    } else {
      assert (a + b)[..|a + b| - 1] == a + b[..|b| - 1];
      CountConcat(a, b[..|b| - 1], start);
    }
  }

  lemma {:induction false} CountOld(times: seq<real>, start: real)
    requires forall i :: 0 <= i < |times| ==> times[i] <= start
    ensures Count(times, start) == 0
    decreases |times|
  {
    if times != [] { CountOld(times[..|times| - 1], start); }
  }

  lemma {:induction false} CountAll(times: seq<real>, start: real)
    requires forall i :: 0 <= i < |times| ==> start < times[i] <= start + HOUR
    ensures Count(times, start) == |times|
    decreases |times|
  {
    if times != [] { CountAll(times[..|times| - 1], start); }
  }

  lemma {:induction false} IndexExactly(times: seq<real>, t: real)
    ensures t in times <==> IndexOf(times, t) < |times|
  {
    if times != [] {
      assert times == [times[0]] + times[1..];
      IndexExactly(times[1..], t);
    }
  }

  lemma TakesOne(times: seq<real>, t: real)
    requires t in times
    ensures multiset(Without(times, t)) + multiset{t} == multiset(times)
  {
    IndexExactly(times, t);
    var i := IndexOf(times, t);
    assert times == times[..i] + [times[i]] + times[i + 1..];
  }

  lemma CountOneLess(times: seq<real>, t: real, start: real)
    ensures Count(Without(times, t), start)
      == Count(times, start) - if t in times && start < t <= start + HOUR then 1 else 0
  {
    IndexExactly(times, t);
    var i := IndexOf(times, t);
    if i < |times| {
      assert times == times[..i] + [t] + times[i + 1..];
      CountAround(times[..i], t, times[i + 1..], start);
    }
  }

  lemma CountAround(a: seq<real>, t: real, b: seq<real>, start: real)
    ensures Count(a + [t] + b, start) == Count(a + b, start) + if start < t <= start + HOUR then 1 else 0
  {
    CountConcat(a + [t], b, start);
    CountConcat(a, b, start);
  }

  // A release takes back one reservation, from those held if it is among them.
  lemma ReleaseTakesOne(s: State, t: real)
    requires t in Sent(s)
    ensures var next := ReleaseStep(s, t);
      && multiset(Sent(next)) + multiset{t} == multiset(Sent(s))
      && if t in s.times then next.evicted == s.evicted && |next.times| == |s.times| - 1 else next.times == s.times
  {
    IndexExactly(s.times, t);
    if t in s.times { TakesOne(s.times, t); } else { TakesOne(s.evicted, t); }
  }

  lemma NothingToRelease(s: State, t: real)
    requires t !in Sent(s)
    ensures ReleaseStep(s, t) == s
  {
    IndexExactly(s.times, t);
    IndexExactly(s.evicted, t);
  }

  // So every hour that it falls into has one place more.
  lemma ReleaseFrees(s: State, t: real, start: real)
    ensures Count(Sent(ReleaseStep(s, t)), start)
      == Count(Sent(s), start) - if t in Sent(s) && start < t <= start + HOUR then 1 else 0
  {
    var next := ReleaseStep(s, t);
    IndexExactly(s.times, t);
    CountConcat(s.evicted, s.times, start);
    CountConcat(next.evicted, next.times, start);
    if t in s.times { CountOneLess(s.times, t, start); } else { CountOneLess(s.evicted, t, start); }
  }

  // ----- when the limit is kept -----

  // No hour ever holds more accepted and unreleased sends than allowed.
  ghost predicate Limited(s: State, limit: nat)
  {
    forall start: real :: Count(Sent(s), start) <= limit
  }

  // Every hour that `now` falls into has room for one more.
  ghost predicate Room(s: State, now: real, limit: nat)
  {
    forall start: real :: start < now <= start + HOUR ==> Count(Sent(s), start) < limit
  }

  lemma Regroup(s: State, n: nat)
    requires n <= |s.times|
    ensures s.evicted + s.times[..n] + s.times[n..] == Sent(s)
  {
    assert s.times == s.times[..n] + s.times[n..];
  }

  // A reservation adds itself to what was sent, if it is accepted.
  lemma ReserveSends(s: State, now: real, limit: nat)
    ensures var (next, accepted) := ReserveStep(s, now, limit);
      Sent(next) == if accepted then Sent(s) + [now] else Sent(s)
  {
    var n := Expired(s.times, now);
    Regroup(s, n);
  }

  // A reservation keeps the limit exactly if it is refused or has room,
  // whatever the clock said before.
  lemma ReserveExactly(s: State, now: real, limit: nat)
    requires Limited(s, limit)
    ensures var (next, accepted) := ReserveStep(s, now, limit);
      Limited(next, limit) <==> (accepted ==> Room(s, now, limit))
  {
    var (next, accepted) := ReserveStep(s, now, limit);
    ReserveSends(s, now, limit);
    if accepted {
      forall start: real
        ensures Count(Sent(next), start) == Count(Sent(s), start) + if start < now <= start + HOUR then 1 else 0
      {
      }
    }
  }

  // A guard: while nothing was evicted that `now` still sees, an accepted
  // reservation has room.
  ghost predicate Unseen(s: State, now: real)
  {
    forall i :: 0 <= i < |s.evicted| ==> s.evicted[i] <= now - HOUR
  }

  lemma UnseenHasRoom(s: State, now: real, limit: nat)
    requires Unseen(s, now) && ReserveStep(s, now, limit).1
    ensures Room(s, now, limit)
  {
    var n := Expired(s.times, now);
    var gone, kept := s.evicted + s.times[..n], s.times[n..];
    Regroup(s, n);
    forall start: real | start < now <= start + HOUR ensures Count(Sent(s), start) < limit {
      CountConcat(gone, kept, start);
      CountOld(gone, start);
    }
  }

  lemma ReleaseKeeps(s: State, t: real, limit: nat)
    requires Limited(s, limit)
    ensures Limited(ReleaseStep(s, t), limit)
  {
    forall start: real ensures Count(Sent(ReleaseStep(s, t)), start) <= limit {
      ReleaseFrees(s, t, start);
      assert Count(Sent(s), start) <= limit;
    }
  }

  // ----- runs -----

  datatype Call = Reserve(now: real) | Release(reservation: real)

  function Step(s: State, c: Call, limit: nat): State
  {
    match c
    case Reserve(now) => ReserveStep(s, now, limit).0
    case Release(t) => ReleaseStep(s, t)
  }

  function Run(calls: seq<Call>, limit: nat): State
    decreases |calls|
  {
    if calls == [] then State([], []) else Step(Run(calls[..|calls| - 1], limit), calls[|calls| - 1], limit)
  }

  // The call is no accepted reservation without room.
  ghost predicate HasRoom(s: State, c: Call, limit: nat)
  {
    c.Reserve? && ReserveStep(s, c.now, limit).1 ==> Room(s, c.now, limit)
  }

  ghost predicate AlwaysRoom(calls: seq<Call>, limit: nat)
    decreases |calls|
  {
    calls != [] ==>
      var front, last := calls[..|calls| - 1], calls[|calls| - 1];
      AlwaysRoom(front, limit) && HasRoom(Run(front, limit), last, limit)
  }

  // The limit is kept now and was kept after every call before.
  ghost predicate AlwaysLimited(calls: seq<Call>, limit: nat)
    decreases |calls|
  {
    Limited(Run(calls, limit), limit) && (calls != [] ==> AlwaysLimited(calls[..|calls| - 1], limit))
  }

  lemma CallExactly(s: State, c: Call, limit: nat)
    requires Limited(s, limit)
    ensures Limited(Step(s, c, limit), limit) <==> HasRoom(s, c, limit)
  {
    match c
    case Reserve(now) => ReserveExactly(s, now, limit);
    case Release(t) => ReleaseKeeps(s, t, limit);
  }

  // In every sequence of calls, whatever the order of the clock readings: the
  // limit is kept all along exactly if every accepted reservation had room.
  lemma {:induction false} LimitExactly(calls: seq<Call>, limit: nat)
    ensures AlwaysLimited(calls, limit) <==> AlwaysRoom(calls, limit)
    decreases |calls|
  {
    if calls == [] {
      assert Sent(State([], [])) == [];
    } else {
      var front, last := calls[..|calls| - 1], calls[|calls| - 1];
      LimitExactly(front, limit);
      if Limited(Run(front, limit), limit) { CallExactly(Run(front, limit), last, limit); }
    }
  }

  // Reservations never look back behind what was evicted.
  ghost predicate NeverBehind(calls: seq<Call>, limit: nat)
    decreases |calls|
  {
    calls != [] ==>
      var front, last := calls[..|calls| - 1], calls[|calls| - 1];
      NeverBehind(front, limit) && (last.Reserve? ==> Unseen(Run(front, limit), last.now))
  }

  lemma {:induction false} BehindHasRoom(calls: seq<Call>, limit: nat)
    requires NeverBehind(calls, limit)
    ensures AlwaysRoom(calls, limit)
    decreases |calls|
  {
    if calls != [] {
      var front, last := calls[..|calls| - 1], calls[|calls| - 1];
      BehindHasRoom(front, limit);
      if last.Reserve? && ReserveStep(Run(front, limit), last.now, limit).1 {
        UnseenHasRoom(Run(front, limit), last.now, limit);
      }
    }
  }

  // The guard keeps the limit.
  lemma GuardedNeverOver(calls: seq<Call>, limit: nat)
    requires NeverBehind(calls, limit)
    ensures AlwaysLimited(calls, limit)
  {
    BehindHasRoom(calls, limit);
    LimitExactly(calls, limit);
  }

  // ----- a clock that does not fall -----

  ghost predicate Ordered(times: seq<real>)
  {
    forall i, j :: 0 <= i < j < |times| ==> times[i] <= times[j]
  }

  // `clock` is the time of the last reservation.
  ghost predicate Valid(s: State, clock: real, limit: nat)
  {
    && Ordered(s.times)
    && (forall i :: 0 <= i < |s.times| ==> s.times[i] <= clock)
    && (forall i :: 0 <= i < |s.evicted| ==> s.evicted[i] <= clock - HOUR)
    && |s.times| <= limit
  }

  lemma ReserveValid(s: State, clock: real, now: real, limit: nat)
    requires Valid(s, clock, limit) && clock <= now
    ensures Valid(ReserveStep(s, now, limit).0, now, limit)
  {
  }

  lemma ReleaseValid(s: State, clock: real, t: real, limit: nat)
    requires Valid(s, clock, limit)
    ensures Valid(ReleaseStep(s, t), clock, limit)
  {
  }

  // A reservation is refused exactly when the hour up to now is full.
  lemma RefusedExactlyWhenFull(s: State, clock: real, now: real, limit: nat)
    requires Valid(s, clock, limit) && clock <= now
    ensures !ReserveStep(s, now, limit).1 <==> Count(Sent(s), now - HOUR) == limit
  {
    HourCount(s, clock, now, limit);
  }

  // What was sent in the hour up to now is what eviction keeps.
  lemma HourCount(s: State, clock: real, now: real, limit: nat)
    requires Valid(s, clock, limit) && clock <= now
    ensures Count(Sent(s), now - HOUR) == |s.times| - Expired(s.times, now)
  {
    var n := Expired(s.times, now);
    var gone, kept := s.evicted + s.times[..n], s.times[n..];
    Regroup(s, n);
    CountSplit(gone, kept, now - HOUR);
  }

  lemma CountSplit(gone: seq<real>, kept: seq<real>, start: real)
    requires forall i :: 0 <= i < |gone| ==> gone[i] <= start
    requires forall i :: 0 <= i < |kept| ==> start < kept[i] <= start + HOUR
    ensures Count(gone + kept, start) == |kept|
  {
    CountOld(gone, start);
    CountAll(kept, start);
    CountConcat(gone, kept, start);
  }

  function Clock(calls: seq<Call>, start: real): real
    decreases |calls|
  {
    if calls == [] then start
    else
      var last := calls[|calls| - 1];
      if last.Reserve? then last.now else Clock(calls[..|calls| - 1], start)
  }

  // Reservations take the lock in the order of their clock readings.
  ghost predicate InOrder(calls: seq<Call>, start: real)
    decreases |calls|
  {
    calls != [] ==>
      var front, last := calls[..|calls| - 1], calls[|calls| - 1];
      InOrder(front, start) && (last.Reserve? ==> Clock(front, start) <= last.now)
  }

  lemma {:induction false} RunValid(calls: seq<Call>, limit: nat, start: real)
    requires InOrder(calls, start)
    ensures Valid(Run(calls, limit), Clock(calls, start), limit) && NeverBehind(calls, limit)
    decreases |calls|
  {
    if calls != [] {
      var front, last := calls[..|calls| - 1], calls[|calls| - 1];
      RunValid(front, limit, start);
      match last
      case Reserve(now) => ReserveValid(Run(front, limit), Clock(front, start), now, limit);
      case Release(t) => ReleaseValid(Run(front, limit), Clock(front, start), t, limit);
    }
  }

  // Then no hour is ever over the limit.
  lemma NeverOverLimit(calls: seq<Call>, limit: nat, start: real)
    requires InOrder(calls, start)
    ensures NeverBehind(calls, limit) && AlwaysLimited(calls, limit)
  {
    RunValid(calls, limit, start);
    GuardedNeverOver(calls, limit);
  }

  // ----- a clock that falls -----

  // `later` is the first to see that all sends held are over an hour old;
  // `earlier` still sees them all.
  ghost predicate Overlooked(s: State, later: real, earlier: real, limit: nat)
  {
    && limit >= 2 && Unseen(s, later) && |s.times| == limit && later - HOUR <= earlier < later
    && (forall i :: 0 <= i < limit ==> earlier - HOUR < s.times[i] <= later - HOUR)
  }

  // The clock is read before the lock is taken. When a reservation evicts a
  // full hour of sends and one with an earlier reading comes after it, which
  // still sees them all, that one is accepted without room.
  lemma OutOfOrderExceeds(s: State, later: real, earlier: real, limit: nat)
    requires Limited(s, limit) && Overlooked(s, later, earlier, limit)
    ensures var t := ReserveStep(s, later, limit).0;
      && Limited(t, limit) && ReserveStep(t, earlier, limit).1
      && !Room(t, earlier, limit) && !Limited(ReserveStep(t, earlier, limit).0, limit)
  {
    var t := ReserveStep(s, later, limit).0;
    AllExpire(s.times, later);
    assert t == State(s.evicted + s.times, [later]);
    UnseenHasRoom(s, later, limit);
    ReserveExactly(s, later, limit);
    var start := earlier - HOUR;
    CountConcat(s.evicted + s.times, [later], start);
    CountConcat(s.evicted, s.times, start);
    CountAll(s.times, start);
    assert Count(Sent(t), start) >= limit;
    ReserveExactly(t, earlier, limit);
  }

  lemma {:induction false} AllExpire(times: seq<real>, now: real)
    requires forall i :: 0 <= i < |times| ==> times[i] <= now - HOUR
    ensures Expired(times, now) == |times|
    decreases |times|
  {
    if times != [] { AllExpire(times[1..], now); }
  }

  lemma OutOfOrderRun(calls: seq<Call>, later: real, earlier: real, limit: nat)
    requires Overlooked(Run(calls, limit), later, earlier, limit)
    ensures !AlwaysLimited(calls + [Reserve(later)] + [Reserve(earlier)], limit)
  {
    var third := calls + [Reserve(later)];
    var fourth := third + [Reserve(earlier)];
    assert third[..|calls|] == calls && fourth[..|third|] == third;
    if AlwaysLimited(fourth, limit) {
      assert AlwaysLimited(third, limit) && AlwaysLimited(calls, limit);
      OutOfOrderExceeds(Run(calls, limit), later, earlier, limit);
    }
  }

  // From the start: two sends, both evicted by a third, and a fourth that
  // took the clock before the third but the lock after it.
  lemma FourSendsExceed(calls: seq<Call>)
    requires calls == [Reserve(1.0), Reserve(2.0)]
    ensures !AlwaysLimited(calls + [Reserve(3602.0)] + [Reserve(3600.5)], 2)
  {
    TwoSends(calls);
    OutOfOrderRun(calls, 3602.0, 3600.5, 2);
  }

  lemma TwoSends(calls: seq<Call>)
    requires calls == [Reserve(1.0), Reserve(2.0)]
    ensures Run(calls, 2) == State([], [1.0, 2.0])
  {
    assert calls[..1] == [Reserve(1.0)] && calls[..1][..0] == [];
    assert Run(calls[..1], 2) == State([], [1.0]);
  }
}

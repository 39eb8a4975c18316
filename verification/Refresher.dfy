// Keeping a cached catalog fresh: at most one attempt in five minutes and one
// success a day, and a cache that is always acceptable.
module Refresher {
  import opened Wrappers
  import opened ModelCatalog

  const MAX_AGE: real := 86400.0
  const RETRY_DELAY: real := 300.0

  // The readable contents of the state file.
  datatype Times = Times(lastSuccess: Option<real>, lastAttempt: Option<real>)

  // The two files, and the time of every download so far.
  datatype State = State(cache: Catalog, times: Times, downloads: seq<real>)

  // One run of the refresher. `fetched` is what the download gives, if it
  // succeeds at all.
  datatype Call = Call(now: real, fetched: Option<Catalog>, force: bool, seedOnly: bool)

  predicate Recent(timestamp: Option<real>, now: real, age: real)
  {
    timestamp.Some? && 0.0 <= now - timestamp.value < age
  }

  // How a catalog is normalised, and the bundled one.
  datatype RuleSet = RuleSet(normalize: Catalog -> Option<seq<Model>>, bundled: seq<Model>)

  // The bundled catalog is acceptable itself.
  predicate Usable(r: RuleSet) { r.normalize(Written(r.bundled)).Some? }

  type Rules = r: RuleSet | Usable(r) witness RuleSet(_ => Some([]), [])

  function RulesOf(p: Policy): RuleSet { RuleSet(data => Normalize(data, p), p.templates) }

  // The cache if it is acceptable, and else the bundled catalog.
  function Current(s: State, r: Rules): seq<Model>
  {
    if r.normalize(s.cache).Some? then r.normalize(s.cache).value else r.normalize(Written(r.bundled)).value
  }

  predicate Recovered(s: State, r: Rules) { r.normalize(s.cache).None? }

  predicate Fetches(s: State, c: Call, r: Rules)
  {
    && !c.seedOnly
    && (c.force || Recovered(s, r)
        || !(Recent(s.times.lastSuccess, c.now, MAX_AGE) || Recent(s.times.lastAttempt, c.now, RETRY_DELAY)))
  }

  predicate Succeeds(s: State, c: Call, r: Rules)
  {
    Fetches(s, c, r) && c.fetched.Some? && r.normalize(c.fetched.value).Some?
  }

  function Refreshed(s: State, c: Call, r: Rules): State
  {
    if !Fetches(s, c, r) then s.(cache := Written(Current(s, r)))
    else if Succeeds(s, c, r) then
      State(Written(r.normalize(c.fetched.value).value), Times(Some(c.now), Some(c.now)), s.downloads + [c.now])
    else
      State(Written(Current(s, r)), s.times.(lastAttempt := Some(c.now)), s.downloads + [c.now])
  }

  class Files {
    var cache: Catalog
    var times: Times
    ghost var downloads: seq<real>

    ghost function Now(): State
      reads this
    {
      State(cache, times, downloads)
    }

    method Refresh(c: Call, r: Rules) returns (ok: bool)
      modifies this
      ensures Now() == Refreshed(old(Now()), c, r)
      ensures ok <==> downloads == old(downloads) || (c.fetched.Some? && r.normalize(c.fetched.value).Some?)
    {
      var existing := cache;
      var current := r.normalize(existing);
      var recovered := current.None?;
      if recovered {
        current := r.normalize(Written(r.bundled));
      }
      if Written(current.value) != existing {
        cache := Written(current.value);
      }
      if c.seedOnly {
        return true;
      }
      var recent := Recent(times.lastSuccess, c.now, MAX_AGE) || Recent(times.lastAttempt, c.now, RETRY_DELAY);
      if !c.force && !recovered && recent {
        return true;
      }
      downloads := downloads + [c.now];
      var updated := if c.fetched.None? then None else r.normalize(c.fetched.value);
      if updated.None? {
        times := times.(lastAttempt := Some(c.now));
        return false;
      }
      cache := Written(updated.value);
      times := Times(Some(c.now), Some(c.now));
      return true;
    }
  }

  // ----- the cache -----

  // However the cache looked before, and whatever the download gave, the cache
  // is now one that normalising leaves alone.
  lemma CacheIsFixedPoint(s: State, c: Call, p: Policy)
    requires Bundled(p)
    ensures Usable(RulesOf(p))
    ensures var cache := Refreshed(s, c, RulesOf(p)).cache;
      Normalize(cache, p).Some? && Written(Normalize(cache, p).value) == cache
  {
    if Succeeds(s, c, RulesOf(p)) {
      NormalizeIdempotent(c.fetched.value, p);
    } else if Recovered(s, RulesOf(p)) {
      NormalizeIdempotent(Written(p.templates), p);
    } else {
      NormalizeIdempotent(s.cache, p);
    }
  }

  // So it is with the repository's own checks.
  lemma ShippedCacheIsFixedPoint(
    s: State, c: Call, p: Policy, templates: seq<Model>, instructions: string, client: Version, host: Host)
    requires p == Shipped(templates, instructions, client, host) && Normalize(Written(templates), p).Some?
    ensures Usable(RulesOf(p))
    ensures var cache := Refreshed(s, c, RulesOf(p)).cache;
      Normalize(cache, p).Some? && Written(Normalize(cache, p).value) == cache
  {
    ShippedBundled(p, templates, instructions, client, host);
    CacheIsFixedPoint(s, c, p);
  }

  // ----- runs -----

  // Calls, and between them anybody may damage the cache.
  datatype Event = Refresh(call: Call) | Damage(cache: Catalog)

  function Run(s: State, events: seq<Event>, r: Rules): State
    decreases |events|
  {
    if events == [] then s
    else
      var before := Run(s, events[..|events| - 1], r);
      match events[|events| - 1]
      case Refresh(c) => Refreshed(before, c, r)
      case Damage(cache) => before.(cache := cache)
  }

  // The call at `i` downloaded something.
  ghost predicate FetchAt(s: State, events: seq<Event>, r: Rules, i: nat)
  {
    && i < |events| && events[i].Refresh?
    && Run(s, events[..i + 1], r).downloads == Run(s, events[..i], r).downloads + [events[i].call.now]
  }

  // It downloaded a catalog that is acceptable.
  ghost predicate SuccessAt(s: State, events: seq<Event>, r: Rules, i: nat)
  {
    && FetchAt(s, events, r, i)
    && events[i].call.fetched.Some? && r.normalize(events[i].call.fetched.value).Some?
  }

  lemma FetchIs(s: State, events: seq<Event>, r: Rules, i: nat)
    ensures FetchAt(s, events, r, i)
      <==> i < |events| && events[i].Refresh? && Fetches(Run(s, events[..i], r), events[i].call, r)
    ensures SuccessAt(s, events, r, i)
      <==> i < |events| && events[i].Refresh? && Succeeds(Run(s, events[..i], r), events[i].call, r)
  {
    if i < |events| {
      assert events[..i + 1][..i] == events[..i];
    }
  }

  // What happened at `i` does not depend on what comes later.
  lemma SameAt(s: State, events: seq<Event>, r: Rules, n: nat, i: nat)
    requires i < n <= |events|
    ensures FetchAt(s, events[..n], r, i) == FetchAt(s, events, r, i)
    ensures SuccessAt(s, events[..n], r, i) == SuccessAt(s, events, r, i)
  {
    assert events[..n][..i] == events[..i] && events[..n][..i + 1] == events[..i + 1];
  }

  // ----- what the cache holds -----

  // From `i` on there were calls only, and no acceptable download.
  ghost predicate Quiet(s: State, events: seq<Event>, r: Rules, i: nat)
  {
    forall k: nat :: i <= k < |events| ==> events[k].Refresh? && !SuccessAt(s, events, r, k)
  }

  // Normalising twice is normalising once.
  ghost predicate Stable(r: Rules)
  {
    forall data :: r.normalize(data).Some? ==> r.normalize(Written(r.normalize(data).value)) == r.normalize(data)
  }

  // As it is with every bundled catalog that passes its own checks.
  lemma StableRules(p: Policy)
    requires Bundled(p)
    ensures Usable(RulesOf(p)) && Stable(RulesOf(p))
  {
    forall data | Normalize(data, p).Some?
      ensures Normalize(Written(Normalize(data, p).value), p) == Normalize(data, p)
    {
      NormalizeIdempotent(data, p);
    }
  }

  // The normal form of a catalog, or of the bundled one if it has none.
  function Settled(cache: Catalog, r: Rules): Catalog
  {
    Written(if r.normalize(cache).Some? then r.normalize(cache).value else r.normalize(Written(r.bundled)).value)
  }

  lemma QuietFront(s: State, events: seq<Event>, r: Rules, i: nat)
    requires i < |events| && Quiet(s, events, r, i)
    ensures Quiet(s, events[..|events| - 1], r, i)
  {
    var n := |events| - 1;
    forall k: nat | i <= k < n ensures events[..n][k].Refresh? && !SuccessAt(s, events[..n], r, k) {
      SameAt(s, events, r, n, k);
    }
  }

  // Calls without an acceptable download leave the normal form of what they
  // found, or of the bundled catalog.
  lemma {:induction false} CacheStays(s: State, events: seq<Event>, r: Rules, i: nat)
    requires Stable(r) && i < |events| && Quiet(s, events, r, i)
    ensures Run(s, events, r).cache == Settled(Run(s, events[..i], r).cache, r)
    decreases |events|
  {
    var n := |events| - 1;
    QuietLast(s, events, r, i);
    if i < n {
      QuietFront(s, events, r, i);
      assert events[..n][..i] == events[..i];
      CacheStays(s, events[..n], r, i);
    }
  }

  lemma QuietLast(s: State, events: seq<Event>, r: Rules, i: nat)
    requires i < |events| && Quiet(s, events, r, i)
    ensures Run(s, events, r).cache == Settled(Run(s, events[..|events| - 1], r).cache, r)
  {
    var n := |events| - 1;
    FetchIs(s, events, r, n);
    assert !SuccessAt(s, events, r, n);
  }

  // After an acceptable download the cache is the normal form of just that, for
  // as long as nobody damages it and no other one comes.
  lemma LastDownloadStays(s: State, events: seq<Event>, r: Rules, i: nat)
    requires Stable(r) && SuccessAt(s, events, r, i) && Quiet(s, events, r, i + 1)
    ensures Run(s, events, r).cache == Written(r.normalize(events[i].call.fetched.value).value)
  {
    FetchIs(s, events, r, i);
    assert events[..i + 1][..i] == events[..i];
    if i + 1 < |events| {
      CacheStays(s, events, r, i + 1);
    } else {
      assert events[..i + 1] == events;
    }
  }

  // ----- when there is a download -----

  ghost predicate ClockRises(events: seq<Event>)
  {
    forall i, j :: 0 <= i < j < |events| && events[i].Refresh? && events[j].Refresh? ==>
      events[i].call.now <= events[j].call.now
  }

  // An attempt, or a success.
  ghost predicate At(s: State, events: seq<Event>, r: Rules, i: nat, success: bool)
  {
    if success then SuccessAt(s, events, r, i) else FetchAt(s, events, r, i)
  }

  function TimeOf(s: State, success: bool): Option<real>
  {
    if success then s.times.lastSuccess else s.times.lastAttempt
  }

  ghost predicate LastDated(s: State, events: seq<Event>, r: Rules, i: nat, success: bool)
  {
    && At(s, events, r, i, success) && (forall k: nat :: i < k ==> !At(s, events, r, k, success))
    && TimeOf(Run(s, events, r), success) == Some(events[i].call.now)
  }

  // The state file dates the last one, or what it dated at the start.
  ghost predicate Dated(s: State, events: seq<Event>, r: Rules, success: bool)
  {
    || (TimeOf(Run(s, events, r), success) == TimeOf(s, success) && forall k: nat :: !At(s, events, r, k, success))
    || exists i: nat :: LastDated(s, events, r, i, success)
  }

  lemma {:induction false} AlwaysDated(s: State, events: seq<Event>, r: Rules, success: bool)
    ensures Dated(s, events, r, success)
    decreases |events|
  {
    if events != [] {
      var n := |events| - 1;
      AlwaysDated(s, events[..n], r, success);
      DatedStep(s, events, r, success);
    }
  }

  lemma DatedStep(s: State, events: seq<Event>, r: Rules, success: bool)
    requires events != [] && Dated(s, events[..|events| - 1], r, success)
    ensures Dated(s, events, r, success)
  {
    var n := |events| - 1;
    var front := events[..n];
    TimeStep(s, events, r, success);
    forall k: nat | k < n ensures At(s, front, r, k, success) == At(s, events, r, k, success) {
      SameAt(s, events, r, n, k);
    }
    if At(s, events, r, n, success) {
      assert LastDated(s, events, r, n, success);
    } else if exists i: nat :: LastDated(s, front, r, i, success) {
      var i: nat :| LastDated(s, front, r, i, success);
      assert LastDated(s, events, r, i, success);
    }
  }

  // One more event: dated now, or as before.
  lemma TimeStep(s: State, events: seq<Event>, r: Rules, success: bool)
    requires events != []
    ensures var n := |events| - 1;
      TimeOf(Run(s, events, r), success)
      == if At(s, events, r, n, success) then Some(events[n].call.now) else TimeOf(Run(s, events[..n], r), success)
  {
    FetchIs(s, events, r, |events| - 1);
  }

  // Every one before `k` was at least `age` ago; if there was none, the time
  // dated at the start is not recent.
  ghost predicate Apart(s: State, events: seq<Event>, r: Rules, k: nat, success: bool, age: real)
    requires k < |events| && events[k].Refresh?
  {
    && (forall i: nat :: i < k && At(s, events, r, i, success) ==> events[k].call.now - events[i].call.now >= age)
    && ((forall i: nat :: i < k ==> !At(s, events, r, i, success)) ==>
          !Recent(TimeOf(s, success), events[k].call.now, age))
  }

  lemma ApartExactly(s: State, events: seq<Event>, r: Rules, k: nat, success: bool, age: real)
    requires ClockRises(events) && k < |events| && events[k].Refresh?
    ensures Apart(s, events, r, k, success, age)
      <==> !Recent(TimeOf(Run(s, events[..k], r), success), events[k].call.now, age)
  {
    AlwaysDated(s, events[..k], r, success);
    forall i: nat | i < k ensures At(s, events[..k], r, i, success) == At(s, events, r, i, success) {
      SameAt(s, events, r, k, i);
    }
    if j: nat :| LastDated(s, events[..k], r, j, success) {
      LastDecides(s, events, r, k, success, age, j);
    }
  }

  lemma LastDecides(s: State, events: seq<Event>, r: Rules, k: nat, success: bool, age: real, j: nat)
    requires ClockRises(events) && j < k < |events| && events[k].Refresh?
    requires At(s, events, r, j, success) && forall i: nat :: j < i < k ==> !At(s, events, r, i, success)
    ensures Apart(s, events, r, k, success, age) <==> !Recent(Some(events[j].call.now), events[k].call.now, age)
  {
    forall i: nat | i < k && At(s, events, r, i, success) ensures events[i].call.now <= events[j].call.now {
      assert i <= j;
    }
  }

  // With a clock that never goes back, a call downloads exactly if it is not
  // meant to seed only, and is forced, finds an unacceptable cache, or comes
  // 300 seconds after every earlier attempt and a day after every success.
  lemma FetchesExactly(s: State, events: seq<Event>, r: Rules, k: nat)
    requires ClockRises(events) && k < |events| && events[k].Refresh?
    ensures FetchAt(s, events, r, k) <==>
      && !events[k].call.seedOnly
      && (|| events[k].call.force
          || r.normalize(Run(s, events[..k], r).cache).None?
          || (Apart(s, events, r, k, true, MAX_AGE) && Apart(s, events, r, k, false, RETRY_DELAY)))
  {
    FetchIs(s, events, r, k);
    ApartExactly(s, events, r, k, true, MAX_AGE);
    ApartExactly(s, events, r, k, false, RETRY_DELAY);
  }

  // So an unforced call that finds an acceptable cache downloads only then.
  lemma FetchesAreApart(s: State, events: seq<Event>, r: Rules, i: nat, k: nat)
    requires ClockRises(events) && i < k && FetchAt(s, events, r, i) && FetchAt(s, events, r, k)
    requires !events[k].call.force && r.normalize(Run(s, events[..k], r).cache).Some?
    ensures events[k].call.now - events[i].call.now >= RETRY_DELAY
    ensures SuccessAt(s, events, r, i) ==> events[k].call.now - events[i].call.now >= MAX_AGE
  {
    FetchesExactly(s, events, r, k);
    assert At(s, events, r, i, false);
    assert SuccessAt(s, events, r, i) ==> At(s, events, r, i, true);
  }
}

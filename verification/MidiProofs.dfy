// The link recovers by itself: after one snapshot sweep without losses the
// sound engine shows the keyboard's state, however much was lost before.
module MidiProofs {
  import opened Bytes
  import opened Midi

  // `layer` is the highest active layer of the keyboard.
  datatype World = World(sender: Sender, layer: u8, link: seq<Raw>, receiver: Receiver)

  datatype Event =
    | Key(k: nat, pressed: bool)
    | Housekeeping(mods: bv8, now: u32)
    | LayerChange(layer: u8)
    | Deliver(count: nat, frames: nat)      // one audio cycle takes the oldest messages
    | Lose(i: nat)

  predicate Possible(w: World, e: Event)
  {
    match e
    case Key(k, _) => k < 6
    case Housekeeping(_, _) => true
    case LayerChange(_) => true
    case Deliver(count, _) => count <= |w.link|
    case Lose(i) => i < |w.link|
  }

  function Step(w: World, e: Event, rate: nat): World
    requires Possible(w, e)
  {
    match e
    case Key(k, pressed) =>
      var (s, out) := KeyStep(w.sender, k, pressed);
      w.(sender := s, link := w.link + out)
    case Housekeeping(mods, now) =>
      var (s, out) := HousekeepingStep(w.sender, mods, now, w.layer);
      w.(sender := s, link := w.link + out)
    case LayerChange(layer) =>
      var (s, out) := LayerStep(w.sender, layer);
      w.(sender := s, layer := layer, link := w.link + out)
    case Deliver(count, frames) =>
      w.(link := w.link[count..], receiver := ProcessStep(w.receiver, w.link[..count], frames, rate))
    case Lose(i) => w.(link := w.link[..i] + w.link[i + 1..])
  }

  function Run(w: World, events: seq<Event>, rate: nat): World
    decreases |events|
  {
    if events == [] then w
    else
      var before := Run(w, events[..|events| - 1], rate);
      var e := events[|events| - 1];
      if Possible(before, e) then Step(before, e, rate) else before
  }

  // ----- what the keyboard sends -----

  // Whether candidate k is down, by the last event of that key.
  function Down(initial: bool, events: seq<Event>, k: nat): bool
    decreases |events|
  {
    if events == [] then initial
    else
      var e := events[|events| - 1];
      if e.Key? && e.k == k then e.pressed else Down(initial, events[..|events| - 1], k)
  }

  function ModsNow(initial: bv8, events: seq<Event>): bv8
    decreases |events|
  {
    if events == [] then initial
    else
      var e := events[|events| - 1];
      if e.Housekeeping? then e.mods else ModsNow(initial, events[..|events| - 1])
  }

  function LayerNow(initial: u8, events: seq<Event>): u8
    decreases |events|
  {
    if events == [] then initial
    else
      var e := events[|events| - 1];
      if e.LayerChange? then e.layer else LayerNow(initial, events[..|events| - 1])
  }

  // The state that is mirrored is the one of the keys, modifiers and layers.
  lemma {:induction false} SenderFollows(w: World, events: seq<Event>, rate: nat)
    ensures var end := Run(w, events, rate);
      && (forall k :: 0 <= k < 6 ==> end.sender.candidates[k] == Down(w.sender.candidates[k], events, k))
      && end.sender.lastMods == ModsNow(w.sender.lastMods, events)
      && end.layer == LayerNow(w.layer, events)
    decreases |events|
  {
    if events != [] {
      var front, e := events[..|events| - 1], events[|events| - 1];
      SenderFollows(w, front, rate);
      if Possible(Run(w, front, rate), e) { SenderStep(Run(w, front, rate), e, rate); }
    }
  }

  lemma SenderStep(w: World, e: Event, rate: nat)
    requires Possible(w, e)
    ensures var after := Step(w, e, rate);
      && after.sender.candidates == (if e.Key? then w.sender.candidates[e.k := e.pressed] else w.sender.candidates)
      && after.sender.lastMods == (if e.Housekeeping? then e.mods else w.sender.lastMods)
      && after.layer == (if e.LayerChange? then e.layer else w.layer)
  {
  }

  // ----- what is mirrored -----

  // Flag k of the keyboard: six candidates, then four modifiers.
  function Flag(s: Sender, k: nat): bool
    requires k < 10
  {
    if k < 6 then s.candidates[k] else ModOn(s.lastMods, k - 6)
  }

  // What the engine will show once everything on the link has arrived.
  function Future(w: World): Receiver { HandleAll(w.receiver, w.link, 0) }

  ghost predicate Shows(r: Receiver, s: Sender, layer: u8, item: nat)
    requires item < SNAPSHOT_COUNT
  {
    if item < 10 then r.controls[item] == Flag(s, item) else r.layer == layer
  }

  ghost predicate InSync(w: World, item: nat)
    requires item < SNAPSHOT_COUNT
  {
    Shows(Future(w), w.sender, w.layer, item)
  }

  ghost predicate AllInSync(w: World)
  {
    forall item :: 0 <= item < SNAPSHOT_COUNT ==> InSync(w, item)
  }

  // The engine shows the keyboard's state.
  ghost predicate Mirrors(r: Receiver, s: Sender, layer: u8)
  {
    (forall k :: 0 <= k < 10 ==> r.controls[k] == Flag(s, k)) && r.layer == layer
  }

  // The firmware reports each layer change, so it knows the last one reported.
  ghost predicate LayerReported(w: World) { w.sender.reportedLayer == w.layer }

  // Two engines that show the same; their tails may differ.
  ghost predicate Alike(a: Receiver, b: Receiver) { a.controls == b.controls && a.layer == b.layer }

  lemma {:induction false} HandleAllAlike(a: Receiver, b: Receiver, raws: seq<Raw>, m: nat, n: nat)
    requires Alike(a, b)
    ensures Alike(HandleAll(a, raws, m), HandleAll(b, raws, n))
    decreases |raws|
  {
    if raws != [] { HandleAllAlike(a, b, raws[..|raws| - 1], m, n); }
  }

  lemma {:induction false} HandleAllConcat(r: Receiver, a: seq<Raw>, b: seq<Raw>, rate: nat)
    ensures HandleAll(r, a + b, rate) == HandleAll(HandleAll(r, a, rate), b, rate)
    decreases |b|
  {
    if b == [] {
      assert a + b == a;
    } else {
      var front := b[..|b| - 1];
      assert (a + b)[..|a + b| - 1] == a + front;
      HandleAllConcat(r, a, front, rate);
    }
  }

  lemma CcSets(r: Receiver, control: u8, on: bool)
    requires ControlIndex(control) >= 0
    ensures Handle(r, Cc(control, on), 0).controls == r.controls[ControlIndex(control) := on]
    ensures Handle(r, Cc(control, on), 0).layer == r.layer
  {
  }

  lemma ProgramSets(r: Receiver, layer: u8)
    ensures Handle(r, ProgramChange(layer), 0).layer == layer
    ensures Handle(r, ProgramChange(layer), 0).controls == r.controls
  {
  }

  // ----- lossless steps keep items in sync -----

  lemma LayerKeeps(w: World, layer: u8, item: nat, rate: nat)
    requires item < SNAPSHOT_COUNT && InSync(w, item) && LayerReported(w)
    ensures InSync(Step(w, LayerChange(layer), rate), item)
  {
    if layer != w.sender.reportedLayer {
      ProgramSets(Future(w), layer);
    } else {
      assert w.link + [] == w.link;
    }
  }

  lemma DeliverKeeps(w: World, count: nat, frames: nat, item: nat, rate: nat)
    requires count <= |w.link| && item < SNAPSHOT_COUNT && InSync(w, item)
    ensures InSync(Step(w, Deliver(count, frames), rate), item)
  {
    var now, later := w.link[..count], w.link[count..];
    assert w.link == now + later;
    HandleAllConcat(w.receiver, now, later, 0);
    HandleAllAlike(w.receiver, w.receiver, now, 0, rate);
    HandleAllAlike(HandleAll(w.receiver, now, 0), ProcessStep(w.receiver, now, frames, rate), later, 0, 0);
  }

  // The engine's modifier flags follow the deltas up to modifier k.
  ghost predicate Follows(r: Receiver, next: Receiver, before: bv8, after: bv8, k: nat)
    requires k <= 4
  {
    && next.layer == r.layer
    && (forall i :: 0 <= i < 6 || 6 + k <= i < 10 ==> next.controls[i] == r.controls[i])
    && (forall i :: 0 <= i < k && r.controls[6 + i] == ModOn(before, i) ==> next.controls[6 + i] == ModOn(after, i))
  }

  lemma DeltaFollows(w: World, link: seq<Raw>, before: bv8, after: bv8, k: nat)
    requires k < 4 && Follows(Future(w), Future(w.(link := link)), before, after, k)
    ensures Follows(Future(w), Future(w.(link := link + Delta(before, after, k))), before, after, k + 1)
  {
    if ModOn(before, k) != ModOn(after, k) {
      CcSets(Future(w.(link := link)), 30 + k, ModOn(after, k));
    } else {
      assert link + [] == link;
    }
  }

  lemma DeltasFollow(w: World, before: bv8, after: bv8)
    ensures Follows(Future(w), Future(w.(link := w.link + Deltas(before, after))), before, after, 4)
  {
    var d0, d1 := Delta(before, after, 0), Delta(before, after, 1);
    var d2, d3 := Delta(before, after, 2), Delta(before, after, 3);
    DeltaFollows(w, w.link, before, after, 0);
    DeltaFollows(w, w.link + d0, before, after, 1);
    DeltaFollows(w, w.link + d0 + d1, before, after, 2);
    DeltaFollows(w, w.link + d0 + d1 + d2, before, after, 3);
    ConcatAssociative(w.link, d0, d1);
    ConcatAssociative(w.link, d0 + d1, d2);
    ConcatAssociative(w.link, d0 + d1 + d2, d3);
  }

  // A snapshot item brings its own item into sync and leaves the others alone.
  lemma SnapshotSyncs(w: World, turn: nat, item: nat)
    requires turn < SNAPSHOT_COUNT && item < SNAPSHOT_COUNT && (item == turn || InSync(w, item))
    ensures InSync(w.(link := w.link + [SnapshotItem(w.sender, w.layer, turn)]), item)
  {
    if turn < 6 {
      CcSets(Future(w), 20 + turn, w.sender.candidates[turn]);
    } else if turn < LAYER_ITEM {
      CcSets(Future(w), 30 + (turn - 6), ModOn(w.sender.lastMods, turn - 6));
    } else {
      ProgramSets(Future(w), w.layer);
    }
  }

  // The keyboard after a housekeeping call but before its snapshot item.
  function BeforeItem(w: World, mods: bv8, now: u32): World
  {
    w.(sender := Restarted(w.sender.(lastMods := mods), now), link := w.link + Deltas(w.sender.lastMods, mods))
  }

  lemma HousekeepingShape(w: World, mods: bv8, now: u32, rate: nat)
    ensures var middle := BeforeItem(w, mods, now);
      var turn := middle.sender.snapshotIndex;
      Step(w, Housekeeping(mods, now), rate) ==
      if turn >= SNAPSHOT_COUNT then middle
      else middle.(sender := middle.sender.(snapshotIndex := turn + 1),
                   link := middle.link + [SnapshotItem(middle.sender, w.layer, turn)])
  {
    var middle := BeforeItem(w, mods, now);
    if middle.sender.snapshotIndex < SNAPSHOT_COUNT {
      ConcatAssociative(w.link, Deltas(w.sender.lastMods, mods),
        [SnapshotItem(middle.sender, w.layer, middle.sender.snapshotIndex)]);
    }
  }

  lemma BeforeItemKeeps(w: World, mods: bv8, now: u32, item: nat)
    requires item < SNAPSHOT_COUNT && InSync(w, item)
    ensures InSync(BeforeItem(w, mods, now), item)
  {
    var middle := BeforeItem(w, mods, now);
    DeltasFollow(w, w.sender.lastMods, mods);
    assert Future(middle) == Future(w.(link := middle.link));
  }

  // The snapshot item of a housekeeping call.
  lemma ItemKeeps(middle: World, item: nat)
    requires middle.sender.snapshotIndex < SNAPSHOT_COUNT && item < SNAPSHOT_COUNT
    requires InSync(middle, item) || item == middle.sender.snapshotIndex
    ensures var turn := middle.sender.snapshotIndex;
      InSync(middle.(sender := middle.sender.(snapshotIndex := turn + 1),
                     link := middle.link + [SnapshotItem(middle.sender, middle.layer, turn)]), item)
  {
    var turn := middle.sender.snapshotIndex;
    SnapshotSyncs(middle, turn, item);
    IndexIrrelevant(middle.(link := middle.link + [SnapshotItem(middle.sender, middle.layer, turn)]), turn + 1, item);
  }

  // The item whose turn it is in a housekeeping call.
  function Turn(w: World, mods: bv8, now: u32): nat { BeforeItem(w, mods, now).sender.snapshotIndex }

  lemma MiddleKeeps(w: World, mods: bv8, now: u32, item: nat)
    requires item < SNAPSHOT_COUNT && (InSync(w, item) || item == Turn(w, mods, now))
    ensures InSync(BeforeItem(w, mods, now), item) || item == Turn(w, mods, now)
  {
    if InSync(w, item) { BeforeItemKeeps(w, mods, now, item); }
  }

  lemma HousekeepingKeeps(w: World, mods: bv8, now: u32, item: nat, rate: nat)
    requires item < SNAPSHOT_COUNT && (InSync(w, item) || item == Turn(w, mods, now))
    ensures InSync(Step(w, Housekeeping(mods, now), rate), item)
  {
    HousekeepingShape(w, mods, now, rate);
    MiddleKeeps(w, mods, now, item);
    if Turn(w, mods, now) < SNAPSHOT_COUNT { ItemKeeps(BeforeItem(w, mods, now), item); }
  }

  lemma IndexIrrelevant(w: World, index: nat, item: nat)
    requires item < SNAPSHOT_COUNT && InSync(w, item)
    ensures InSync(w.(sender := w.sender.(snapshotIndex := index)), item)
  {
  }

  lemma StepKeeps(w: World, e: Event, item: nat, rate: nat)
    requires Possible(w, e) && !e.Lose? && item < SNAPSHOT_COUNT && InSync(w, item) && LayerReported(w)
    ensures InSync(Step(w, e, rate), item)
  {
    match e
    case Key(k, pressed) =>
    case Housekeeping(mods, now) => HousekeepingKeeps(w, mods, now, item, rate);
    case LayerChange(layer) => LayerKeeps(w, layer, item, rate);
    case Deliver(count, frames) => DeliverKeeps(w, count, frames, item, rate);
  }

  // ----- runs -----

  ghost predicate Lossless(events: seq<Event>)
  {
    forall i :: 0 <= i < |events| ==> !events[i].Lose?
  }

  lemma {:induction false} LayerAlwaysReported(w: World, events: seq<Event>, rate: nat)
    requires LayerReported(w)
    ensures LayerReported(Run(w, events, rate))
    decreases |events|
  {
    if events != [] { LayerAlwaysReported(w, events[..|events| - 1], rate); }
  }

  // Every item the current sweep has passed is in sync.
  ghost predicate SweptInSync(w: World)
  {
    forall item :: 0 <= item < SNAPSHOT_COUNT && item < w.sender.snapshotIndex ==> InSync(w, item)
  }

  lemma StepSweeps(w: World, e: Event, rate: nat)
    requires Possible(w, e) && !e.Lose? && LayerReported(w)
    requires SweptInSync(w) || (e.Housekeeping? && Due(w.sender, e.now))
    ensures SweptInSync(Step(w, e, rate))
  {
    var after := Step(w, e, rate);
    forall item | 0 <= item < SNAPSHOT_COUNT && item < after.sender.snapshotIndex ensures InSync(after, item) {
      if e.Housekeeping? && item == Turn(w, e.mods, e.now) {
        HousekeepingKeeps(w, e.mods, e.now, item, rate);
      } else {
        StepKeeps(w, e, item, rate);
      }
    }
  }

  lemma {:induction false} RunSweeps(w: World, events: seq<Event>, rate: nat)
    requires LayerReported(w) && Lossless(events) && SweptInSync(w)
    ensures SweptInSync(Run(w, events, rate))
    decreases |events|
  {
    if events != [] {
      var front, e := events[..|events| - 1], events[|events| - 1];
      RunSweeps(w, front, rate);
      LayerAlwaysReported(w, front, rate);
      if Possible(Run(w, front, rate), e) { StepSweeps(Run(w, front, rate), e, rate); }
    }
  }

  lemma MirrorsWhenEmpty(w: World)
    requires AllInSync(w) && w.link == []
    ensures Mirrors(w.receiver, w.sender, w.layer)
  {
    forall k | 0 <= k < 10 ensures w.receiver.controls[k] == Flag(w.sender, k) { assert InSync(w, k); }
    assert InSync(w, LAYER_ITEM);
  }

  // From any state whatever, once a sweep that began with a due housekeeping
  // call has run to its end without a loss, every item is in sync; keys,
  // modifiers and layers may change anywhere in between.
  lemma SweepRecovers(w: World, mods: bv8, now: u32, events: seq<Event>, rate: nat)
    requires LayerReported(w) && Due(w.sender, now) && Lossless(events)
    requires Run(Step(w, Housekeeping(mods, now), rate), events, rate).sender.snapshotIndex >= SNAPSHOT_COUNT
    ensures var end := Run(Step(w, Housekeeping(mods, now), rate), events, rate);
      AllInSync(end) && (end.link == [] ==> Mirrors(end.receiver, end.sender, end.layer))
  {
    var first := Step(w, Housekeeping(mods, now), rate);
    StepSweeps(w, Housekeeping(mods, now), rate);
    RunSweeps(first, events, rate);
    var end := Run(first, events, rate);
    if end.link == [] { MirrorsWhenEmpty(end); }
  }

  // ----- how long a sweep takes -----

  function Calls(events: seq<Event>): nat
    decreases |events|
  {
    if events == [] then 0
    else Calls(events[..|events| - 1]) + if events[|events| - 1].Housekeeping? then 1 else 0
  }

  // All housekeeping calls come within a second of `began`.
  ghost predicate WithinPeriod(events: seq<Event>, began: u32)
  {
    forall i :: 0 <= i < |events| && events[i].Housekeeping? ==> (events[i].now - began) % UINT32 < SNAPSHOT_PERIOD
  }

  function Least(a: nat, b: nat): nat { if a < b then a else b }

  // Every housekeeping call moves the sweep on by one item, whatever happens
  // in between.
  lemma {:induction false} SweepMoves(w: World, events: seq<Event>, rate: nat)
    requires WithinPeriod(events, w.sender.snapshotTimer) && w.sender.snapshotIndex <= SNAPSHOT_COUNT
    ensures var s := Run(w, events, rate).sender;
      && s.snapshotTimer == w.sender.snapshotTimer
      && s.snapshotIndex == Least(w.sender.snapshotIndex + Calls(events), SNAPSHOT_COUNT)
    decreases |events|
  {
    if events != [] {
      SweepMoves(w, events[..|events| - 1], rate);
    }
  }

  // A due housekeeping call and ten more within the second make a full sweep:
  // if nothing is lost meanwhile, the engine has recovered.
  lemma RecoversInElevenCalls(w: World, mods: bv8, now: u32, events: seq<Event>, rate: nat)
    requires LayerReported(w) && Due(w.sender, now) && Lossless(events)
    requires WithinPeriod(events, now) && Calls(events) >= 10
    ensures var end := Run(Step(w, Housekeeping(mods, now), rate), events, rate);
      AllInSync(end) && (end.link == [] ==> Mirrors(end.receiver, end.sender, end.layer))
  {
    SweepMoves(Step(w, Housekeeping(mods, now), rate), events, rate);
    SweepRecovers(w, mods, now, events, rate);
  }

  // ----- in sync for good -----

  // And it stays so for as long as nothing is lost.
  lemma {:induction false} SyncPersists(w: World, events: seq<Event>, rate: nat)
    requires LayerReported(w) && AllInSync(w) && Lossless(events)
    ensures var end := Run(w, events, rate);
      AllInSync(end) && (end.link == [] ==> Mirrors(end.receiver, end.sender, end.layer))
    decreases |events|
  {
    var end := Run(w, events, rate);
    if events != [] {
      var front, e := events[..|events| - 1], events[|events| - 1];
      SyncPersists(w, front, rate);
      LayerAlwaysReported(w, front, rate);
      var before := Run(w, front, rate);
      if Possible(before, e) {
        forall item | 0 <= item < SNAPSHOT_COUNT ensures InSync(end, item) { StepKeeps(before, e, item, rate); }
      }
    }
    if end.link == [] { MirrorsWhenEmpty(end); }
  }

  // ----- an idle keyboard falls silent -----

  ghost predicate Idle(events: seq<Event>, mods: bv8)
  {
    forall i :: 0 <= i < |events| ==> events[i].Deliver? || (events[i].Housekeeping? && events[i].mods == mods)
  }

  // Audio frames processed by the deliveries that took place.
  function Frames(w: World, events: seq<Event>, rate: nat): nat
    decreases |events|
  {
    if events == [] then 0
    else
      var front, e := events[..|events| - 1], events[|events| - 1];
      Frames(w, front, rate) + if e.Deliver? && Possible(Run(w, front, rate), e) then e.frames else 0
  }

  // Every message on the link tells the engine what it shows already.
  ghost predicate Echoes(w: World)
  {
    forall i :: 0 <= i < |w.link| ==> Alike(Handle(w.receiver, w.link[i], 0), w.receiver)
  }

  lemma {:induction false} EchoesUnchanged(r: Receiver, raws: seq<Raw>, rate: nat)
    requires forall i :: 0 <= i < |raws| ==> Alike(Handle(r, raws[i], 0), r)
    ensures HandleAll(r, raws, rate) == r
    decreases |raws|
  {
    if raws != [] {
      EchoesUnchanged(r, raws[..|raws| - 1], rate);
    }
  }

  lemma SnapshotEchoes(r: Receiver, s: Sender, layer: u8, item: nat)
    requires Mirrors(r, s, layer) && item < SNAPSHOT_COUNT
    ensures Handle(r, SnapshotItem(s, layer, item), 0) == r
  {
    if item < 10 { assert r.controls[item] == Flag(s, item); }
  }

  ghost predicate Resting(w: World, mods: bv8)
  {
    w.sender.lastMods == mods && Mirrors(w.receiver, w.sender, w.layer) && Echoes(w)
  }

  function Drained(tail: nat, frames: nat): nat { if tail > frames then tail - frames else 0 }

  lemma RestingStep(w: World, e: Event, mods: bv8, rate: nat)
    requires Possible(w, e) && Resting(w, mods) && (e.Deliver? || (e.Housekeeping? && e.mods == mods))
    ensures var after := Step(w, e, rate);
      && Resting(after, mods) && after.layer == w.layer
      && after.receiver ==
         w.receiver.(tail := if e.Deliver? then Drained(w.receiver.tail, e.frames) else w.receiver.tail)
  {
    if e.Deliver? {
      EchoesUnchanged(w.receiver, w.link[..e.count], rate);
    } else {
      assert Deltas(mods, mods) == [];
      var s := Restarted(w.sender.(lastMods := mods), e.now);
      if s.snapshotIndex < SNAPSHOT_COUNT {
        assert Mirrors(w.receiver, s, w.layer);
        SnapshotEchoes(w.receiver, s, w.layer, s.snapshotIndex);
      }
    }
  }

  // While nobody touches the keyboard the snapshots change nothing and never
  // restart the tail: it runs out with the frames that are played.
  lemma {:induction false} SnapshotsNeverRestartTail(w: World, events: seq<Event>, rate: nat)
    requires Resting(w, w.sender.lastMods) && Idle(events, w.sender.lastMods)
    ensures var end := Run(w, events, rate);
      && Resting(end, w.sender.lastMods) && end.layer == w.layer
      && end.receiver == w.receiver.(tail := Drained(w.receiver.tail, Frames(w, events, rate)))
    decreases |events|
  {
    if events != [] {
      var front, e := events[..|events| - 1], events[|events| - 1];
      SnapshotsNeverRestartTail(w, front, rate);
      var before := Run(w, front, rate);
      if Possible(before, e) { RestingStep(before, e, w.sender.lastMods, rate); }
    }
  }
}

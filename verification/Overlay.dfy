// The keyboard overlay: shown on input, hidden three seconds after the last
// key is released on the base layer.
module Overlay {
  import opened Wrappers

  const AUTO_HIDE: real := 3.0

  // `visibleLayers` restricts the layers the overlay is shown for.
  datatype Profile = Profile(layers: nat, currentLayer: nat, visibleLayers: Option<set<nat>>)

  datatype HeldKey = HeldKey(device: nat, code: nat)

  datatype Action = Unchanged | Clear | Schedule

  function AutoHideAction(enabled: bool, visible: bool, held: bool): Action
  {
    if held then Clear else if !enabled then Unchanged else if visible then Schedule else Unchanged
  }

  function ClampLayer(layer: nat, layers: nat): nat { if layer < layers then layer else 0 }

  predicate EnabledFor(p: Profile)
  {
    match p.visibleLayers
    case Some(layers) => p.currentLayer in layers
    case None => true
  }

  datatype State = State(
    profiles: seq<Profile>, active: nat, visible: bool, autoHide: bool, hideAfter: Option<real>,
    held: set<HeldKey>, suppressed: bool)

  // Every index can be used.
  predicate InRange(s: State)
  {
    && s.active < |s.profiles|
    && (forall i :: 0 <= i < |s.profiles| ==> s.profiles[i].currentLayer < s.profiles[i].layers)
  }

  predicate InputHeld(s: State)
    requires InRange(s)
  {
    s.held != {} || s.profiles[s.active].currentLayer != 0
  }

  predicate Invariant(s: State)
  {
    && InRange(s)
    && (s.visible ==> !s.suppressed && EnabledFor(s.profiles[s.active]))
    && (s.visible <==> s.autoHide)
    && (s.hideAfter.Some? <==> s.visible && !InputHeld(s))
  }

  // `submap` is what the compositor reports when it is asked, if it answers:
  // whether the current submap suppresses the overlay.
  datatype Event =
    | Layer(profile: nat, layer: nat, submap: Option<bool>)
    | Press(profile: nat, key: HeldKey, submap: Option<bool>)
    | Release(key: HeldKey)
    | Disconnected(device: nat)
    | Activity(submap: Option<bool>)
    | Hide
    | Submap(suppresses: bool)
    | Poll                                  // the timer that looks at the deadline

  class Viewer {
    var profiles: seq<Profile>
    var active: nat
    var visible: bool
    var autoHide: bool
    var hideAfter: Option<real>
    var held: set<HeldKey>
    var suppressed: bool

    function Now(): State
      reads this
    {
      State(profiles, active, visible, autoHide, hideAfter, held, suppressed)
    }

    // Handling one event at the given time.
    method Handle(e: Event, time: real)
      requires Invariant(Now())
      modifies this
      ensures Now() == Step(old(Now()), e, time)
    {
      match e
      case Layer(profile, layer, submap) => SetLayer(profile, layer, submap, time);
      case Press(profile, key, submap) =>
        if profile < |profiles| {
          held := held + {key};
          TouchProfile(profile, submap, time);
        }
      case Release(key) =>
        held := held - {key};
        UpdateDeadline(time);
      case Disconnected(device) =>
        var before := |held|;
        var kept := set key | key in held && key.device != device;
        KeptKeys(held, kept);
        held := kept;
        if |held| != before {
          UpdateDeadline(time);
        }
      case Activity(submap) =>
        Refresh(submap);
        if suppressed || !EnabledFor(profiles[active]) {
          HideState();
          return;
        }
        visible := true;
        autoHide := true;
        UpdateDeadline(time);
      case Hide => HideState();
      case Submap(suppresses) =>
        suppressed := suppresses;
        if suppressed {
          HideState();
        }
      case Poll =>
        if hideAfter.Some? && time >= hideAfter.value {
          HideState();
        }
    }

    method Refresh(submap: Option<bool>)
      modifies this`suppressed
      ensures suppressed == if submap.Some? then submap.value else old(suppressed)
    {
      if submap.Some? {
        suppressed := submap.value;
      }
    }

    method HideState()
      modifies this`hideAfter, this`autoHide, this`visible
      ensures Now() == Hidden(old(Now()))
    {
      hideAfter := None;
      autoHide := false;
      visible := false;
    }

    method UpdateDeadline(time: real)
      requires InRange(Now())
      modifies this`hideAfter
      ensures Now() == WithDeadline(old(Now()), time)
    {
      match AutoHideAction(autoHide, visible, held != {} || profiles[active].currentLayer != 0)
      case Unchanged =>
      case Clear => hideAfter := None;
      case Schedule => hideAfter := Some(time + AUTO_HIDE);
    }

    method SetLayer(profile: nat, layer: nat, submap: Option<bool>, time: real)
      requires InRange(Now())
      modifies this
      ensures Now() == LayerStep(old(Now()), profile, layer, submap, time)
    {
      if profile >= |profiles| {
        return;
      }
      var clamped := ClampLayer(layer, profiles[profile].layers);
      var changed := active != profile || profiles[profile].currentLayer != clamped;
      active := profile;
      profiles := profiles[profile := profiles[profile].(currentLayer := clamped)];
      if changed {
        Refresh(submap);
        if suppressed || !EnabledFor(profiles[active]) {
          HideState();
        } else {
          visible := true;
          autoHide := true;
          UpdateDeadline(time);
        }
      }
    }

    method TouchProfile(profile: nat, submap: Option<bool>, time: real)
      requires InRange(Now()) && profile < |profiles|
      modifies this
      ensures Now() == TouchStep(old(Now()), profile, submap, time)
    {
      active := profile;
      Refresh(submap);
      if suppressed || !EnabledFor(profiles[active]) {
        HideState();
      } else {
        visible := true;
        autoHide := true;
      }
      UpdateDeadline(time);
    }
  }

  lemma KeptKeys(held: set<HeldKey>, kept: set<HeldKey>)
    requires kept <= held
    ensures |kept| == |held| <==> kept == held
  {
    if kept != held {
      var key :| key in held && key !in kept;
      assert kept <= held - {key};
      SmallerSet(kept, held - {key});
    }
  }

  lemma {:induction false} SmallerSet<T>(a: set<T>, b: set<T>)
    requires a <= b
    ensures |a| <= |b|
    decreases |a|
  {
    if a != {} {
      var x :| x in a;
      SmallerSet(a - {x}, b - {x});
    }
  }

  // ----- the same, as functions -----

  function Hidden(s: State): State { s.(hideAfter := None, autoHide := false, visible := false) }

  function Asked(s: State, submap: Option<bool>): State
  {
    if submap.Some? then s.(suppressed := submap.value) else s
  }

  function WithDeadline(s: State, time: real): State
    requires InRange(s)
  {
    match AutoHideAction(s.autoHide, s.visible, InputHeld(s))
    case Unchanged => s
    case Clear => s.(hideAfter := None)
    case Schedule => s.(hideAfter := Some(time + AUTO_HIDE))
  }

  // Shown, unless suppressed or not wanted for the active layer.
  function ShownOrHidden(s: State, time: real): State
    requires InRange(s)
  {
    if s.suppressed || !EnabledFor(s.profiles[s.active]) then Hidden(s)
    else WithDeadline(s.(visible := true, autoHide := true), time)
  }

  function LayerStep(s: State, profile: nat, layer: nat, submap: Option<bool>, time: real): State
    requires InRange(s)
  {
    if profile >= |s.profiles| then s
    else
      var p := s.profiles[profile];
      var clamped := ClampLayer(layer, p.layers);
      var t := s.(active := profile, profiles := s.profiles[profile := p.(currentLayer := clamped)]);
      if s.active == profile && p.currentLayer == clamped then t else ShownOrHidden(Asked(t, submap), time)
  }

  function TouchStep(s: State, profile: nat, submap: Option<bool>, time: real): State
    requires InRange(s) && profile < |s.profiles|
  {
    var t := Asked(s.(active := profile), submap);
    if t.suppressed || !EnabledFor(t.profiles[t.active]) then WithDeadline(Hidden(t), time) else ShownOrHidden(t, time)
  }

  function Step(s: State, e: Event, time: real): State
    requires InRange(s)
  {
    match e
    case Layer(profile, layer, submap) => LayerStep(s, profile, layer, submap, time)
    case Press(profile, key, submap) =>
      if profile < |s.profiles| then TouchStep(s.(held := s.held + {key}), profile, submap, time) else s
    case Release(key) => WithDeadline(s.(held := s.held - {key}), time)
    case Disconnected(device) =>
      var kept := set key | key in s.held && key.device != device;
      if kept == s.held then s else WithDeadline(s.(held := kept), time)
    case Activity(submap) => ShownOrHidden(Asked(s, submap), time)
    case Hide => Hidden(s)
    case Submap(suppresses) => if suppresses then Hidden(s.(suppressed := true)) else s.(suppressed := false)
    case Poll => if s.hideAfter.Some? && time >= s.hideAfter.value then Hidden(s) else s
  }

  // ----- every reachable state -----

  lemma TouchKeeps(s: State, profile: nat, submap: Option<bool>, time: real)
    requires InRange(s) && profile < |s.profiles|
    ensures Invariant(TouchStep(s, profile, submap, time))
  {
  }

  lemma LayerKeeps(s: State, profile: nat, layer: nat, submap: Option<bool>, time: real)
    requires Invariant(s)
    ensures Invariant(LayerStep(s, profile, layer, submap, time))
  {
  }

  lemma ReleaseKeeps(s: State, held: set<HeldKey>, time: real)
    requires Invariant(s)
    ensures Invariant(WithDeadline(s.(held := held), time))
  {
  }

  lemma StepKeeps(s: State, e: Event, time: real)
    requires Invariant(s)
    ensures Invariant(Step(s, e, time))
  {
    match e
    case Layer(profile, layer, submap) => LayerKeeps(s, profile, layer, submap, time);
    case Press(profile, key, submap) =>
      if profile < |s.profiles| { TouchKeeps(s.(held := s.held + {key}), profile, submap, time); }
    case Release(key) => ReleaseKeeps(s, s.held - {key}, time);
    case Disconnected(device) => ReleaseKeeps(s, (set key | key in s.held && key.device != device), time);
    case Activity(submap) =>
    case Hide =>
    case Submap(_) =>
    case Poll =>
  }

  datatype Timed = Timed(event: Event, time: real)

  // A run stops where an event would find an unusable index; from a hidden
  // start, `EveryReachableState` shows that none does.
  function Run(start: State, events: seq<Timed>): Option<State>
    decreases |events|
  {
    if events == [] then Some(start)
    else
      var before := Run(start, events[..|events| - 1]);
      var e := events[|events| - 1];
      if before.None? || !InRange(before.value) then None else Some(Step(before.value, e.event, e.time))
  }

  predicate HiddenStart(s: State)
  {
    InRange(s) && !s.visible && !s.autoHide && s.hideAfter.None?
  }

  type Start = s: State | HiddenStart(s) witness State([Profile(1, 0, None)], 0, false, false, None, {}, false)

  lemma {:induction false} EveryReachableState(start: Start, events: seq<Timed>)
    ensures Run(start, events).Some? && Invariant(Run(start, events).value)
    decreases |events|
  {
    if events != [] {
      EveryReachableState(start, events[..|events| - 1]);
      var e := events[|events| - 1];
      StepKeeps(Run(start, events[..|events| - 1]).value, e.event, e.time);
    }
  }

  // ----- when it is shown -----

  // The base layer, if the profile has no such layer.
  function LayerOf(s: State, profile: nat, layer: nat): nat
    requires profile < |s.profiles|
  {
    if layer >= s.profiles[profile].layers then 0 else layer
  }

  // A key of a known profile, any activity, or a report of another layer.
  predicate Touches(s: State, e: Event)
  {
    match e
    case Layer(profile, layer, _) =>
      && profile < |s.profiles|
      && (s.active != profile || s.profiles[profile].currentLayer != LayerOf(s, profile, layer))
    case Press(profile, _, _) => profile < |s.profiles|
    case Activity(_) => true
    case _ => false
  }

  // What an event tells of the profile in use, its layer, the keys held and
  // the submap.
  function Heard(s: State, e: Event): State
  {
    match e
    case Layer(profile, layer, submap) =>
      if profile >= |s.profiles| then s
      else
        var p := s.profiles[profile].(currentLayer := LayerOf(s, profile, layer));
        var t := s.(active := profile, profiles := s.profiles[profile := p]);
        if Touches(s, e) then Asked(t, submap) else t
    case Press(profile, key, submap) =>
      if profile >= |s.profiles| then s else Asked(s.(active := profile, held := s.held + {key}), submap)
    case Release(key) => s.(held := s.held - {key})
    case Disconnected(device) => s.(held := set key | key in s.held && key.device != device)
    case Activity(submap) => Asked(s, submap)
    case Submap(suppresses) => s.(suppressed := suppresses)
    case Hide => s
    case Poll => s
  }

  // Not suppressed, and meant to be shown on the layer in use.
  predicate Wanted(s: State)
    requires s.active < |s.profiles|
  {
    var p := s.profiles[s.active];
    !s.suppressed && (p.visibleLayers.Some? ==> p.currentLayer in p.visibleLayers.value)
  }

  // Hidden by request, by a submap, or because the time is over.
  predicate Hides(s: State, e: Event, time: real)
  {
    || e.Hide?
    || e == Submap(true)
    || (e.Poll? && s.hideAfter.Some? && time >= s.hideAfter.value)
  }

  // From here on the time is counted anew.
  predicate Renews(s: State, e: Event)
  {
    || Touches(s, e)
    || e.Release?
    || (e.Disconnected? && exists key :: key in s.held && key.device == e.device)
  }

  // The state after an event is what the event told, shown or hidden.
  predicate Becomes(s: State, e: Event, time: real, t: State)
    requires InRange(s) && InRange(Heard(s, e))
  {
    var h := Heard(s, e);
    && t == h.(visible := t.visible, autoHide := t.visible, hideAfter := t.hideAfter)
    && t.visible == (if Touches(s, e) then Wanted(h) else s.visible && !Hides(s, e, time))
    && t.hideAfter == (
         if !t.visible || InputHeld(h) then None
         else if Renews(s, e) then Some(time + AUTO_HIDE)
         else s.hideAfter)
  }

  lemma ShownBecomes(s: State, time: real)
    requires InRange(s)
    ensures ShownOrHidden(s, time) == s.(
      visible := Wanted(s), autoHide := Wanted(s),
      hideAfter := if Wanted(s) && !InputHeld(s) then Some(time + AUTO_HIDE) else None)
  {
  }

  lemma LayerBecomes(s: State, profile: nat, layer: nat, submap: Option<bool>, time: real)
    requires Invariant(s)
    ensures var e := Layer(profile, layer, submap);
      InRange(Heard(s, e)) && Becomes(s, e, time, LayerStep(s, profile, layer, submap, time))
  {
    if profile < |s.profiles| {
      ShownBecomes(Heard(s, Layer(profile, layer, submap)), time);
    }
  }

  lemma ReleaseBecomes(s: State, e: Event, time: real)
    requires Invariant(s) && (e.Release? || e.Disconnected?)
    ensures InRange(Heard(s, e)) && Becomes(s, e, time, Step(s, e, time))
  {
    if e.Disconnected? {
      var kept := set key | key in s.held && key.device != e.device;
      assert kept == s.held <==> !Renews(s, e);
    }
  }

  lemma StepBecomes(s: State, e: Event, time: real)
    requires Invariant(s)
    ensures InRange(Heard(s, e)) && Becomes(s, e, time, Step(s, e, time))
  {
    match e
    case Layer(profile, layer, submap) => LayerBecomes(s, profile, layer, submap, time);
    case Press(profile, key, submap) =>
    case Release(_) => ReleaseBecomes(s, e, time);
    case Disconnected(_) => ReleaseBecomes(s, e, time);
    case Activity(submap) =>
    case Hide =>
    case Submap(_) =>
    case Poll =>
  }

  ghost function Reached(start: Start, events: seq<Timed>): (s: State)
    ensures Invariant(s)
  {
    EveryReachableState(start, events);
    Run(start, events).value
  }

  // The event at `i` is the last that touched, it found the overlay wanted, and
  // nothing has hidden it since.
  ghost predicate ShownSince(start: Start, events: seq<Timed>, i: nat)
  {
    FoundAt(start, events, i) && LeftSince(start, events, i)
  }

  ghost predicate LeftSince(start: Start, events: seq<Timed>, i: nat)
  {
    forall k: nat :: i < k < |events| ==> LeavesAt(start, events, k)
  }

  ghost predicate FoundAt(start: Start, events: seq<Timed>, i: nat)
  {
    i < |events| && Touches(Reached(start, events[..i]), events[i].event) && Wanted(Reached(start, events[..i + 1]))
  }

  ghost predicate LeavesAt(start: Start, events: seq<Timed>, k: nat)
  {
    k < |events| && Leaves(Reached(start, events[..k]), events[k])
  }

  ghost predicate Leaves(s: State, e: Timed)
  {
    !Touches(s, e.event) && !Hides(s, e.event, e.time)
  }

  // It is visible exactly if it has been shown since some event.
  lemma VisibleExactly(start: Start, events: seq<Timed>)
    ensures Reached(start, events).visible <==> exists i: nat :: ShownSince(start, events, i)
  {
    if Reached(start, events).visible {
      var i := LastShown(start, events);
    }
    forall i: nat | ShownSince(start, events, i) ensures Reached(start, events).visible {
      ShownIsVisible(start, events, i);
    }
  }

  lemma {:induction false} LastShown(start: Start, events: seq<Timed>) returns (i: nat)
    requires Reached(start, events).visible
    ensures ShownSince(start, events, i)
    decreases |events|
  {
    i := |events| - 1;
    LastVisible(start, events);
    if Touches(Reached(start, events[..i]), events[i].event) {
      ShownAtLast(start, events);
    } else {
      i := LastShown(start, events[..i]);
      ShownLonger(start, events, i);
    }
  }

  lemma {:induction false} ShownIsVisible(start: Start, events: seq<Timed>, i: nat)
    requires ShownSince(start, events, i)
    ensures Reached(start, events).visible
    decreases |events|
  {
    LastVisible(start, events);
    if i == |events| - 1 {
      ShownAtLast(start, events);
    } else {
      ShownLonger(start, events, i);
      ShownIsVisible(start, events[..|events| - 1], i);
    }
  }

  lemma ShownAtLast(start: Start, events: seq<Timed>)
    requires events != []
    ensures var n := |events| - 1;
      ShownSince(start, events, n)
      <==> Touches(Reached(start, events[..n]), events[n].event) && Wanted(Reached(start, events))
  {
    assert events[..|events|] == events;
  }

  lemma LastVisible(start: Start, events: seq<Timed>)
    requires events != []
    ensures var s, e := Reached(start, events[..|events| - 1]), events[|events| - 1];
      Reached(start, events).visible
      == if Touches(s, e.event) then Wanted(Reached(start, events))
         else s.visible && LeavesAt(start, events, |events| - 1)
  {
    var s, e := Reached(start, events[..|events| - 1]), events[|events| - 1];
    LastStep(start, events);
    StepBecomes(s, e.event, e.time);
  }

  lemma LastStep(start: Start, events: seq<Timed>)
    requires events != []
    ensures var e := events[|events| - 1];
      Reached(start, events) == Step(Reached(start, events[..|events| - 1]), e.event, e.time)
  {
    EveryReachableState(start, events);
  }

  lemma ShownLonger(start: Start, events: seq<Timed>, i: nat)
    requires i < |events| - 1
    ensures var front := events[..|events| - 1];
      ShownSince(start, events, i)
      <==> ShownSince(start, front, i) && LeavesAt(start, events, |events| - 1)
  {
    FoundFront(start, events, i);
    LeftLonger(start, events, i);
  }

  lemma FoundFront(start: Start, events: seq<Timed>, i: nat)
    requires i < |events| - 1
    ensures FoundAt(start, events[..|events| - 1], i) == FoundAt(start, events, i)
  {
    var front := events[..|events| - 1];
    assert front[..i] == events[..i] && front[..i + 1] == events[..i + 1];
  }

  lemma LeavesFront(start: Start, events: seq<Timed>, k: nat)
    requires k < |events| - 1
    ensures LeavesAt(start, events[..|events| - 1], k) == LeavesAt(start, events, k)
  {
    assert events[..|events| - 1][..k] == events[..k];
  }

  lemma LeftLonger(start: Start, events: seq<Timed>, i: nat)
    requires i < |events| - 1
    ensures LeftSince(start, events, i)
      <==> LeftSince(start, events[..|events| - 1], i) && LeavesAt(start, events, |events| - 1)
  {
    var n := |events| - 1;
    var front := events[..n];
    if LeftSince(start, events, i) {
      forall k: nat | i < k < n ensures LeavesAt(start, front, k) { LeavesFront(start, events, k); }
    }
    if LeftSince(start, front, i) && LeavesAt(start, events, n) {
      forall k: nat | i < k <= n ensures LeavesAt(start, events, k) {
        if k < n { LeavesFront(start, events, k); }
      }
    }
  }

  // The event at `i` is the last from which the time is counted.
  ghost predicate CountedFrom(start: Start, events: seq<Timed>, i: nat)
  {
    && RenewsAt(start, events, i)
    && forall k: nat :: i < k < |events| ==> !RenewsAt(start, events, k)
  }

  ghost predicate RenewsAt(start: Start, events: seq<Timed>, k: nat)
  {
    k < |events| && Renews(Reached(start, events[..k]), events[k].event)
  }

  // While it is visible and nothing is held, the time is over three seconds
  // after the last event that touched or let go.
  lemma {:induction false} DeadlineExactly(start: Start, events: seq<Timed>) returns (i: nat)
    requires Reached(start, events).visible && !InputHeld(Reached(start, events))
    ensures CountedFrom(start, events, i)
    ensures Reached(start, events).hideAfter == Some(events[i].time + AUTO_HIDE)
    decreases |events|
  {
    i := |events| - 1;
    LastDeadline(start, events);
    if !Renews(Reached(start, events[..i]), events[i].event) {
      i := DeadlineExactly(start, events[..i]);
      CountedLonger(start, events, i);
    }
  }

  lemma LastDeadline(start: Start, events: seq<Timed>)
    requires events != []
    requires Reached(start, events).visible && !InputHeld(Reached(start, events))
    ensures var s, e := Reached(start, events[..|events| - 1]), events[|events| - 1];
      if Renews(s, e.event) then Reached(start, events).hideAfter == Some(e.time + AUTO_HIDE)
      else s.visible && !InputHeld(s) && Reached(start, events).hideAfter == s.hideAfter
  {
    var s, e := Reached(start, events[..|events| - 1]), events[|events| - 1];
    LastStep(start, events);
    StepBecomes(s, e.event, e.time);
  }

  lemma CountedLonger(start: Start, events: seq<Timed>, i: nat)
    requires i < |events| - 1
    ensures var front := events[..|events| - 1];
      CountedFrom(start, events, i) <==>
        CountedFrom(start, front, i) && !Renews(Reached(start, front), events[|events| - 1].event)
  {
    var n := |events| - 1;
    forall k: nat | k < n ensures RenewsAt(start, events[..n], k) == RenewsAt(start, events, k) {
      assert events[..n][..k] == events[..k];
    }
    assert events[..n][..i] == events[..i];
    assert RenewsAt(start, events, n) == Renews(Reached(start, events[..n]), events[n].event);
  }

  // ----- it does hide -----

  ghost predicate ClockRises(events: seq<Timed>)
  {
    forall i, j :: 0 <= i < j < |events| ==> events[i].time <= events[j].time
  }

  predicate IsInput(e: Event) { !e.Poll? && !e.Hide? && !e.Submap? }

  // When the last input took place.
  function LastInput(events: seq<Timed>): Option<real>
    decreases |events|
  {
    if events == [] then None
    else
      var e := events[|events| - 1];
      if IsInput(e.event) then Some(e.time) else LastInput(events[..|events| - 1])
  }

  ghost predicate DeadlineWithin(s: State, last: Option<real>)
  {
    s.hideAfter.Some? ==> last.Some? && s.hideAfter.value <= last.value + AUTO_HIDE
  }

  ghost predicate Near(s: State, time: real) { s.hideAfter.Some? ==> s.hideAfter.value <= time + AUTO_HIDE }

  lemma DeadlineNear(s: State, time: real)
    requires InRange(s) && Near(s, time)
    ensures Near(WithDeadline(s, time), time) && Near(ShownOrHidden(s, time), time)
  {
  }

  lemma InputDeadline(s: State, e: Event, time: real)
    requires InRange(s) && Near(s, time)
    ensures Near(Step(s, e, time), time)
  {
    match e
    case Layer(profile, layer, submap) =>
      if profile < |s.profiles| {
        var p := s.profiles[profile].(currentLayer := ClampLayer(layer, s.profiles[profile].layers));
        DeadlineNear(Asked(s.(active := profile, profiles := s.profiles[profile := p]), submap), time);
      }
    case Press(profile, key, submap) =>
      if profile < |s.profiles| {
        DeadlineNear(Asked(s.(held := s.held + {key}, active := profile), submap), time);
      }
    case Release(key) => DeadlineNear(s.(held := s.held - {key}), time);
    case Disconnected(device) => DeadlineNear(s.(held := set key | key in s.held && key.device != device), time);
    case Activity(submap) => DeadlineNear(Asked(s, submap), time);
    case Hide =>
    case Submap(_) =>
    case Poll =>
  }

  lemma NoInputDeadline(s: State, e: Event, time: real)
    requires InRange(s) && !IsInput(e)
    ensures Step(s, e, time).hideAfter == s.hideAfter || Step(s, e, time).hideAfter.None?
  {
  }

  lemma {:induction false} LastInputBefore(events: seq<Timed>, time: real)
    requires ClockRises(events) && (events != [] ==> events[|events| - 1].time <= time)
    ensures LastInput(events).Some? ==> LastInput(events).value <= time
    decreases |events|
  {
    if events != [] { LastInputBefore(events[..|events| - 1], time); }
  }

  lemma {:induction false} DeadlineIsNear(start: Start, events: seq<Timed>)
    requires ClockRises(events)
    ensures Run(start, events).Some? && DeadlineWithin(Run(start, events).value, LastInput(events))
    decreases |events|
  {
    if events != [] {
      var front, e := events[..|events| - 1], events[|events| - 1];
      EveryReachableState(start, front);
      DeadlineIsNear(start, front);
      LastInputBefore(front, e.time);
      InputOrNot(Run(start, front).value, e, LastInput(front));
    }
  }

  lemma InputOrNot(s: State, e: Timed, last: Option<real>)
    requires InRange(s) && DeadlineWithin(s, last) && (last.Some? ==> last.value <= e.time)
    ensures DeadlineWithin(Step(s, e.event, e.time), if IsInput(e.event) then Some(e.time) else last)
  {
    if IsInput(e.event) { InputDeadline(s, e.event, e.time); } else { NoInputDeadline(s, e.event, e.time); }
  }

  // With no key held on the base layer, a poll three seconds after the last
  // input, or later, finds the overlay hidden or hides it.
  lemma IdleHides(start: Start, events: seq<Timed>, time: real)
    requires ClockRises(events)
    requires LastInput(events).Some? ==> time >= LastInput(events).value + AUTO_HIDE
    ensures Run(start, events).Some? && InRange(Run(start, events).value)
    ensures var s := Run(start, events).value; !InputHeld(s) ==> !Step(s, Poll, time).visible
  {
    EveryReachableState(start, events);
    DeadlineIsNear(start, events);
  }

  // While a key is held or another layer is active, no poll hides it.
  lemma HeldStays(start: Start, events: seq<Timed>, time: real)
    ensures Run(start, events).Some? && InRange(Run(start, events).value)
    ensures var s := Run(start, events).value; InputHeld(s) ==> Step(s, Poll, time) == s
  {
    EveryReachableState(start, events);
  }
}

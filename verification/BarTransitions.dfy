// Hiding and showing the menu bar: both fade, both finish in a delayed
// callback, and a newer call cancels the callbacks of the older ones.
module BarTransitions {
  import opened Wrappers

  // An alpha value and where the current animation takes it.
  datatype Level = Level(value: nat, goal: nat)

  function Still(v: nat): Level { Level(v, v) }

  // The bar's alpha in thousandths.
  const VISIBLE: nat := 500
  const CLEAR: nat := 0

  // Alphas by colour property of an item, from 0 to 255.
  type Targets = map<nat, nat>

  datatype Bar = Bar(hidden: bool, alpha: Level, items: seq<Level>)

  datatype Callback = HideDone(id: nat, targets: Targets) | ShowDone(id: nat)

  // The state of the serial queue's closures and of the bar they control.
  datatype State = State(transition: nat, restore: Targets, bar: Bar, pending: seq<Callback>)

  // ----- commands to the bar -----

  function SetItems(items: seq<Level>, targets: Targets, fixed: Option<nat>, animated: bool): (r: seq<Level>)
    ensures |r| == |items|
  {
    seq(|items|, i requires 0 <= i < |items| =>
      if i !in targets then items[i]
      else
        var v := if fixed.Some? then fixed.value else targets[i];
        Level(if animated then items[i].value else v, v))
  }

  function Immediate(bar: Bar, hidden: bool, alpha: nat, targets: Targets, fixed: Option<nat>): Bar
  {
    Bar(hidden, Still(alpha), SetItems(bar.items, targets, fixed, false))
  }

  function Animated(bar: Bar, alpha: nat, targets: Targets, fixed: Option<nat>): Bar
  {
    bar.(alpha := Level(bar.alpha.value, alpha), items := SetItems(bar.items, targets, fixed, true))
  }

  // A faded text colour is not taken for its visible one.
  function Restored(text: bool, alpha: nat): nat { if text && alpha < 128 then 255 else alpha }

  // What a query reads: the items that are not clear. It may also fail.
  // `text` tells which items are text colours.
  function Query(items: seq<Level>, text: set<nat>, answered: bool): Targets
  {
    map i: nat | answered && i < |items| && items[i].value != 0 :: Restored(i in text, items[i].value)
  }

  // ----- steps -----

  // `seen` is what the query returned.
  function HideStep(s: State, seen: Targets): State
  {
    var id := s.transition + 1;
    State(id, seen, Animated(s.bar, CLEAR, seen, Some(CLEAR)), s.pending + [HideDone(id, seen)])
  }

  function ShowStep(s: State, seen: Targets): State
  {
    var id := s.transition + 1;
    var targets := if s.restore == map[] then seen else s.restore;
    var bar := Immediate(s.bar, false, CLEAR, targets, Some(CLEAR));
    s.(transition := id, bar := Animated(bar, VISIBLE, targets, None), pending := s.pending + [ShowDone(id)])
  }

  function FireStep(s: State, k: nat): State
    requires k < |s.pending|
  {
    var callback := s.pending[k];
    var rest := s.pending[..k] + s.pending[k + 1..];
    if callback.HideDone? && callback.id == s.transition then
      s.(pending := rest, bar := Immediate(s.bar, true, VISIBLE, callback.targets, None))
    else s.(pending := rest)
  }

  class Controller {
    var transitionID: nat
    var restoreTargets: Targets
    var bar: Bar
    var pending: seq<Callback>

    ghost function Now(): State
      reads this
    {
      State(transitionID, restoreTargets, bar, pending)
    }

    method Hide(seen: Targets)
      modifies this
      ensures Now() == HideStep(old(Now()), seen)
    {
      transitionID := transitionID + 1;
      var currentTransition := transitionID;
      restoreTargets := seen;
      bar := Animated(bar, CLEAR, seen, Some(CLEAR));
      pending := pending + [HideDone(currentTransition, seen)];
    }

    method Show(seen: Targets)
      modifies this
      ensures Now() == ShowStep(old(Now()), seen)
    {
      transitionID := transitionID + 1;
      var targets := if restoreTargets == map[] then seen else restoreTargets;
      var shown := Immediate(bar, false, CLEAR, targets, Some(CLEAR));
      bar := Animated(shown, VISIBLE, targets, None);
      pending := pending + [ShowDone(transitionID)];
    }

    // One delayed closure runs; after a show only a bar event is triggered.
    method Fire(k: nat)
      requires k < |pending|
      modifies this
      ensures Now() == FireStep(old(Now()), k)
    {
      var callback := pending[k];
      pending := pending[..k] + pending[k + 1..];
      if callback.id != transitionID {
        return;
      }
      if callback.HideDone? {
        bar := Immediate(bar, true, VISIBLE, callback.targets, None);
      }
    }
  }

  // ----- runs -----

  datatype Event =
    | Hide(answered: bool)                   // whether the query succeeds
    | Show(answered: bool)
    | Fire(k: nat)
    | Fade(alpha: nat, values: seq<nat>)     // an animation goes on

  predicate Between(l: Level, v: nat) { l.value <= v <= l.goal || l.goal <= v <= l.value }

  predicate FadesTo(bar: Bar, alpha: nat, values: seq<nat>)
  {
    && |values| == |bar.items| && Between(bar.alpha, alpha)
    && (forall i :: 0 <= i < |values| ==> Between(bar.items[i], values[i]))
  }

  function Faded(bar: Bar, alpha: nat, values: seq<nat>): Bar
    requires |values| == |bar.items|
  {
    bar.(alpha := Level(alpha, bar.alpha.goal),
         items := seq(|values|, i requires 0 <= i < |values| => Level(values[i], bar.items[i].goal)))
  }

  function Step(s: State, e: Event, text: set<nat>): State
  {
    match e
    case Hide(answered) => HideStep(s, Query(s.bar.items, text, answered))
    case Show(answered) => ShowStep(s, Query(s.bar.items, text, answered))
    case Fire(k) => if k < |s.pending| then FireStep(s, k) else s
    case Fade(alpha, values) => if FadesTo(s.bar, alpha, values) then s.(bar := Faded(s.bar, alpha, values)) else s
  }

  function Run(s: State, events: seq<Event>, text: set<nat>): State
    decreases |events|
  {
    if events == [] then s
    else Step(Run(s, events[..|events| - 1], text), events[|events| - 1], text)
  }

  predicate IsCall(e: Event) { e.Hide? || e.Show? }

  // The last call of a run.
  function LastCall(events: seq<Event>): (last: Option<Event>)
    ensures last.Some? ==> last.value.Hide? || last.value.Show?
    decreases |events|
  {
    if events == [] then None
    else
      var e := events[|events| - 1];
      if IsCall(e) then Some(e) else LastCall(events[..|events| - 1])
  }

  // ----- the last call wins -----

  ghost predicate Waits(s: State, k: nat)
  {
    k < |s.pending| && s.pending[k].HideDone? && s.pending[k].id == s.transition
  }

  ghost predicate Decided(s: State, last: Option<Event>)
  {
    && (forall k: nat :: k < |s.pending| ==> s.pending[k].id <= s.transition)
    && (last.Some? && last.value.Hide? ==>
      (exists k: nat :: Waits(s, k)) || (s.bar.hidden && s.bar.alpha.goal == VISIBLE))
    && (last.Some? && last.value.Show? ==>
      && (forall k: nat :: !Waits(s, k))
      && !s.bar.hidden && s.bar.alpha.goal == VISIBLE)
  }

  // Where a remaining callback was before callback k ran, and where it is now.
  function Was(k: nat, j: nat): nat { if j < k then j else j + 1 }

  function Is(k: nat, j: nat): nat { if j <= k || j == 0 then j else j - 1 }

  lemma FireWaits(s: State, k: nat)
    requires k < |s.pending|
    ensures var next := FireStep(s, k);
      && (forall j: nat :: j < |next.pending| ==> next.pending[j] == s.pending[Was(k, j)])
      && (forall j: nat :: Waits(next, j) ==> Waits(s, Was(k, j)) && next.pending[j] == s.pending[Was(k, j)])
      && (forall j: nat :: Waits(s, j) && j != k ==> Waits(next, Is(k, j)) && next.pending[Is(k, j)] == s.pending[j])
  {
  }

  lemma FireDecided(s: State, k: nat, last: Option<Event>)
    requires k < |s.pending| && Decided(s, last)
    ensures Decided(FireStep(s, k), last)
  {
    var next := FireStep(s, k);
    FireWaits(s, k);
    if last.Some? && last.value.Hide? && !Waits(s, k) && exists j: nat :: Waits(s, j) {
      var j: nat :| Waits(s, j);
      assert Waits(next, Is(k, j));
    }
    if last.Some? && last.value.Show? {
      assert !Waits(s, k);
      forall j: nat ensures !Waits(next, j) {
      }
    }
  }

  lemma StepDecided(s: State, e: Event, last: Option<Event>, text: set<nat>)
    requires Decided(s, last)
    ensures Decided(Step(s, e, text), if IsCall(e) then Some(e) else last)
  {
    var next := Step(s, e, text);
    match e
    case Hide(_) =>
      assert Waits(next, |s.pending|);
    case Show(_) =>
      forall k: nat ensures !Waits(next, k) {
      }
    case Fire(k) =>
      if k < |s.pending| { FireDecided(s, k, last); }
    case Fade(_, _) =>
      if last.Some? {
        forall k: nat ensures Waits(next, k) <==> Waits(s, k) {
        }
      }
  }

  lemma {:induction false} RunDecided(s: State, events: seq<Event>, text: set<nat>)
    requires s.pending == []
    ensures Decided(Run(s, events, text), LastCall(events))
    decreases |events|
  {
    if events != [] {
      var front := events[..|events| - 1];
      RunDecided(s, front, text);
      StepDecided(Run(s, front, text), events[|events| - 1], LastCall(front), text);
    }
  }

  // In every schedule, once all callbacks have run, the bar is hidden exactly
  // if the last call was a hide, and its alpha comes back to the visible one.
  lemma LastCallWins(s: State, events: seq<Event>, text: set<nat>)
    requires s.pending == [] && LastCall(events).Some? && Run(s, events, text).pending == []
    ensures var bar := Run(s, events, text).bar;
      bar.hidden == LastCall(events).value.Hide? && bar.alpha.goal == VISIBLE
  {
    RunDecided(s, events, text);
    var end := Run(s, events, text);
    forall k: nat ensures !Waits(end, k) {
    }
  }

  // ----- what becomes of an item -----

  // The alphas that a call sets: what it reads, or what a hide saved before.
  function Named(s: State, e: Event, text: set<nat>): Targets
  {
    match e
    case Hide(answered) => Query(s.bar.items, text, answered)
    case Show(answered) => if s.restore == map[] then Query(s.bar.items, text, answered) else s.restore
    case Fire(_) => map[]
    case Fade(_, _) => map[]
  }

  // The alpha that the last call naming item i promises it.
  function Promised(s: State, events: seq<Event>, text: set<nat>, i: nat): Option<nat>
    decreases |events|
  {
    if events == [] then None
    else
      var front, e := events[..|events| - 1], events[|events| - 1];
      var named := Named(Run(s, front, text), e, text);
      if i in named then Some(named[i]) else Promised(s, front, text, i)
  }

  // A callback that will set item i again is waiting.
  ghost predicate Returning(s: State, i: nat)
  {
    exists k: nat :: Waits(s, k) && i in s.pending[k].targets
  }

  // The last call naming item i was a hide, and another call came before its
  // callback had run.
  ghost predicate Cancelled(s: State, events: seq<Event>, text: set<nat>, i: nat)
    decreases |events|
  {
    events != [] &&
    var front, e := events[..|events| - 1], events[|events| - 1];
    var before := Run(s, front, text);
    i !in Named(before, e, text) && (Cancelled(s, front, text, i) || (IsCall(e) && Returning(before, i)))
  }

  ghost predicate Numbered(s: State)
  {
    && (forall j: nat, k: nat :: j < k < |s.pending| ==> s.pending[j].id < s.pending[k].id)
    && (forall k: nat :: k < |s.pending| ==> s.pending[k].id <= s.transition)
  }

  lemma StepNumbered(s: State, e: Event, text: set<nat>)
    requires Numbered(s)
    ensures Numbered(Step(s, e, text))
  {
    if e.Fire? && e.k < |s.pending| { FireWaits(s, e.k); }
  }

  // Where item i is headed, in terms of the calls made so far.
  ghost predicate Follows(s: State, i: nat, start: nat, promised: Option<nat>, cancelled: bool)
    requires i < |s.bar.items|
  {
    && Numbered(s)
    && (cancelled ==> promised.Some? && !Returning(s, i))
    && (forall k: nat :: Waits(s, k) && i in s.pending[k].targets ==> promised == Some(s.pending[k].targets[i]))
    && s.bar.items[i].goal ==
       if cancelled || Returning(s, i) then CLEAR else if promised.Some? then promised.value else start
  }

  lemma CallFollows(s: State, e: Event, text: set<nat>, i: nat, start: nat, promised: Option<nat>, cancelled: bool)
    requires IsCall(e) && i < |s.bar.items| && Follows(s, i, start, promised, cancelled)
    ensures var named, next := Named(s, e, text), Step(s, e, text);
      if i in named then Follows(next, i, start, Some(named[i]), false)
      else Follows(next, i, start, promised, cancelled || Returning(s, i))
  {
    var named, next := Named(s, e, text), Step(s, e, text);
    StepNumbered(s, e, text);
    forall k: nat ensures Waits(next, k) <==> e.Hide? && k == |s.pending| {
    }
    if e.Hide? && i in named { assert Waits(next, |s.pending|); }
  }

  // Running the waiting callback leaves none; running another changes nothing.
  lemma FireReturning(s: State, k: nat, i: nat)
    requires k < |s.pending| && Numbered(s)
    ensures Numbered(FireStep(s, k))
    ensures Waits(s, k) ==> forall j: nat :: !Waits(FireStep(s, k), j)
    ensures !Waits(s, k) ==> (Returning(FireStep(s, k), i) <==> Returning(s, i))
  {
    StepNumbered(s, Fire(k), {});
    FireWaits(s, k);
    if !Waits(s, k) { StillReturning(s, k, i); }
  }

  lemma StillReturning(s: State, k: nat, i: nat)
    requires k < |s.pending| && Numbered(s) && !Waits(s, k)
    ensures Returning(FireStep(s, k), i) <==> Returning(s, i)
  {
    FireWaits(s, k);
    if Returning(s, i) {
      var j: nat :| Waits(s, j) && i in s.pending[j].targets;
      assert Waits(FireStep(s, k), Is(k, j));
    }
  }

  lemma FireFollows(s: State, k: nat, i: nat, start: nat, promised: Option<nat>, cancelled: bool)
    requires k < |s.pending| && i < |s.bar.items| && Follows(s, i, start, promised, cancelled)
    ensures Follows(FireStep(s, k), i, start, promised, cancelled)
  {
    FireReturning(s, k, i);
    if !Waits(s, k) { FireWaits(s, k); }
  }

  lemma {:induction false} RunFollows(s: State, events: seq<Event>, text: set<nat>, i: nat)
    requires s.pending == [] && i < |s.bar.items|
    ensures |Run(s, events, text).bar.items| == |s.bar.items|
    ensures var promised, cancelled := Promised(s, events, text, i), Cancelled(s, events, text, i);
      Follows(Run(s, events, text), i, s.bar.items[i].goal, promised, cancelled)
    decreases |events|
  {
    if events != [] {
      var front, e := events[..|events| - 1], events[|events| - 1];
      RunFollows(s, front, text, i);
      var before, start := Run(s, front, text), s.bar.items[i].goal;
      var promised, cancelled := Promised(s, front, text, i), Cancelled(s, front, text, i);
      match e
      case Hide(_) => CallFollows(before, e, text, i, start, promised, cancelled);
      case Show(_) => CallFollows(before, e, text, i, start, promised, cancelled);
      case Fire(k) => if k < |before.pending| { FireFollows(before, k, i, start, promised, cancelled); }
      case Fade(_, _) =>
    }
  }

  // What the calls made of item i, once all callbacks have run.
  ghost function Outcome(s: State, events: seq<Event>, text: set<nat>, i: nat): nat
    requires i < |s.bar.items|
  {
    if Cancelled(s, events, text, i) then CLEAR
    else if Promised(s, events, text, i).Some? then Promised(s, events, text, i).value
    else s.bar.items[i].goal
  }

  // In every schedule, once all callbacks have run, an item is headed for what
  // the last call naming it read; for nothing, if that call was a hide and
  // another call came before its callback.
  lemma ItemOutcome(s: State, events: seq<Event>, text: set<nat>, i: nat)
    requires s.pending == [] && i < |s.bar.items| && Run(s, events, text).pending == []
    ensures i < |Run(s, events, text).bar.items|
    ensures Run(s, events, text).bar.items[i].goal == Outcome(s, events, text, i)
  {
    RunFollows(s, events, text, i);
    assert !Returning(Run(s, events, text), i);
  }

  // ----- the items come back -----

  // Nothing moves and no callback is due: the items show `alphas`, nothing is
  // saved, and no visible text is fainter than a query believes.
  ghost predicate AtRest(s: State, alphas: seq<nat>, text: set<nat>)
  {
    && s.pending == [] && |alphas| == |s.bar.items|
    && (forall i :: 0 <= i < |alphas| ==> s.bar.items[i] == Still(alphas[i]))
    && (forall i: nat :: i < |alphas| && alphas[i] != 0 ==> alphas[i] == Restored(i in text, alphas[i]))
  }

  // An item that is clear, not saved, and set again by no waiting callback.
  ghost predicate Gone(s: State, i: nat)
  {
    i < |s.bar.items| && s.bar.items[i] == Still(CLEAR) && i !in s.restore && !Returning(s, i) && Numbered(s)
  }

  lemma StepGone(s: State, e: Event, text: set<nat>, i: nat)
    requires Gone(s, i)
    ensures Gone(Step(s, e, text), i)
  {
    var next := Step(s, e, text);
    StepNumbered(s, e, text);
    if e.Fire? && e.k < |s.pending| {
      FireWaits(s, e.k);
    } else if IsCall(e) {
      forall k: nat ensures Waits(next, k) <==> e.Hide? && k == |s.pending| {
      }
    } else {
      forall k: nat ensures Waits(next, k) <==> Waits(s, k) {
      }
      if next != s { assert Between(s.bar.items[i], e.values[i]); }
    }
  }

  // Such an item stays clear, whatever is called later.
  lemma {:induction false} GoneForGood(s: State, events: seq<Event>, text: set<nat>, i: nat)
    requires Gone(s, i)
    ensures Gone(Run(s, events, text), i)
    decreases |events|
  {
    if events != [] {
      var front := events[..|events| - 1];
      GoneForGood(s, front, text, i);
      StepGone(Run(s, front, text), events[|events| - 1], text, i);
    }
  }

  // From rest an item comes back to its alpha exactly if the last call naming
  // it read that alpha and was no hide overtaken by another call.
  lemma ItemComesBack(s: State, events: seq<Event>, text: set<nat>, alphas: seq<nat>, i: nat)
    requires AtRest(s, alphas, text) && s.restore == map[] && i < |alphas|
    requires Run(s, events, text).pending == []
    ensures i < |Run(s, events, text).bar.items|
    ensures Run(s, events, text).bar.items[i].goal == alphas[i] <==>
      var promised := Promised(s, events, text, i);
      alphas[i] == 0 || promised.None? || (promised.value == alphas[i] && !Cancelled(s, events, text, i))
  {
    ItemOutcome(s, events, text, i);
    RunFollows(s, events, text, i);
    if alphas[i] == 0 { GoneForGood(s, events, text, i); }
  }

  // A guard for callers: hide only at rest, and show only at rest unless a
  // hide has saved what to show.
  ghost predicate Calm(s: State, e: Event, alphas: seq<nat>, text: set<nat>)
  {
    (e.Hide? || (e.Show? && s.restore == map[])) ==> AtRest(s, alphas, text)
  }

  ghost predicate CalmRun(s: State, events: seq<Event>, alphas: seq<nat>, text: set<nat>)
  {
    forall n: nat :: n < |events| ==> Calm(Run(s, events[..n], text), events[n], alphas, text)
  }

  // Only right alphas are saved, and no hide that named an item was overtaken.
  ghost predicate Faithful(s: State, alphas: seq<nat>)
  {
    && (forall i :: i in s.restore ==> i < |alphas| && s.restore[i] == alphas[i])
    && (forall k: nat :: Waits(s, k) ==> s.pending[k].targets == s.restore)
  }

  lemma CallFaithful(s: State, e: Event, text: set<nat>, alphas: seq<nat>)
    requires Faithful(s, alphas) && Calm(s, e, alphas, text) && IsCall(e) && Numbered(s)
    ensures Faithful(Step(s, e, text), alphas)
    ensures forall i :: i in Named(s, e, text) ==> i < |alphas| && Named(s, e, text)[i] == alphas[i]
    ensures forall i: nat :: Returning(s, i) ==> i in Named(s, e, text)
  {
    var next := Step(s, e, text);
    forall k: nat ensures Waits(next, k) <==> e.Hide? && k == |s.pending| {
    }
  }

  lemma OtherFaithful(s: State, e: Event, text: set<nat>, alphas: seq<nat>)
    requires Faithful(s, alphas) && !IsCall(e)
    ensures Faithful(Step(s, e, text), alphas)
  {
    var next := Step(s, e, text);
    if e.Fire? && e.k < |s.pending| {
      FireWaits(s, e.k);
    } else {
      forall k: nat ensures Waits(next, k) <==> Waits(s, k) {
      }
    }
  }

  lemma {:induction false} RunFaithful(s: State, events: seq<Event>, text: set<nat>, alphas: seq<nat>, i: nat)
    requires AtRest(s, alphas, text) && s.restore == map[] && CalmRun(s, events, alphas, text)
    ensures Numbered(Run(s, events, text)) && Faithful(Run(s, events, text), alphas) && !Cancelled(s, events, text, i)
    ensures Promised(s, events, text, i).Some? ==> i < |alphas| && Promised(s, events, text, i).value == alphas[i]
    decreases |events|
  {
    if events != [] {
      var front, e := events[..|events| - 1], events[|events| - 1];
      assert forall n: nat :: n < |front| ==> front[..n] == events[..n];
      RunFaithful(s, front, text, alphas, i);
      var before := Run(s, front, text);
      StepNumbered(before, e, text);
      if IsCall(e) {
        assert events[..|front|] == front;
        CallFaithful(before, e, text, alphas);
      } else {
        OtherFaithful(before, e, text, alphas);
      }
    }
  }

  // Under the guard every item comes back.
  lemma CalmItemsComeBack(s: State, events: seq<Event>, text: set<nat>, alphas: seq<nat>, i: nat)
    requires AtRest(s, alphas, text) && s.restore == map[] && CalmRun(s, events, alphas, text) && i < |alphas|
    requires Run(s, events, text).pending == []
    ensures i < |Run(s, events, text).bar.items| && Run(s, events, text).bar.items[i].goal == alphas[i]
  {
    RunFaithful(s, events, text, alphas, i);
    ItemComesBack(s, events, text, alphas, i);
  }

  // ----- text stays readable -----

  // No alpha that is kept for a text colour is fainter than half.
  ghost predicate Readable(targets: Targets, text: set<nat>)
  {
    forall i: nat :: i in targets && i in text ==> targets[i] >= 128
  }

  // Whatever a fade is interrupted at, no text colour is ever promised less.
  lemma {:induction false} TextReadable(s: State, events: seq<Event>, text: set<nat>, i: nat)
    requires Readable(s.restore, text)
    ensures Readable(Run(s, events, text).restore, text)
    ensures i in text && Promised(s, events, text, i).Some? ==> Promised(s, events, text, i).value >= 128
    decreases |events|
  {
    if events != [] {
      var front := events[..|events| - 1];
      TextReadable(s, front, text, i);
    }
  }

  function Goals(items: seq<Level>): (goals: seq<nat>)
    ensures |goals| == |items|
  {
    seq(|items|, j requires 0 <= j < |items| => items[j].goal)
  }

  // The state when the fade of a hide has come to its end.
  function FadedOut(s: State, text: set<nat>): State
  {
    var hiding := Step(s, Hide(true), text);
    Step(hiding, Fade(CLEAR, Goals(hiding.bar.items)), text)
  }

  // From rest a hide fades every visible item out and its callback sets it
  // again. A second hide in between loses the item for good: no later calls,
  // whether they show or hide, bring it back.
  lemma SecondHideLosesItem(s: State, alphas: seq<nat>, text: set<nat>, i: nat, answered: bool, later: seq<Event>)
    requires AtRest(s, alphas, text) && i < |alphas| && alphas[i] != 0
    ensures var faded := FadedOut(s, text);
      && |faded.pending| == 1 && FireStep(faded, 0).bar.items[i] == Still(alphas[i])
      && i < |Run(Step(faded, Hide(answered), text), later, text).bar.items|
      && Run(Step(faded, Hide(answered), text), later, text).bar.items[i] == Still(CLEAR)
  {
    var hiding, faded := Step(s, Hide(true), text), FadedOut(s, text);
    FadeEnds(hiding, text);
    assert faded.bar.items[i] == Still(CLEAR);
    SecondHide(faded, answered, text, i);
    GoneForGood(Step(faded, Hide(answered), text), later, text, i);
  }

  lemma FadeEnds(s: State, text: set<nat>)
    requires s.bar.alpha.goal == CLEAR
    ensures Step(s, Fade(CLEAR, Goals(s.bar.items)), text) == s.(bar := Faded(s.bar, CLEAR, Goals(s.bar.items)))
  {
  }

  lemma SecondHide(s: State, answered: bool, text: set<nat>, i: nat)
    requires Numbered(s) && i < |s.bar.items| && s.bar.items[i] == Still(CLEAR)
    ensures Gone(Step(s, Hide(answered), text), i)
  {
    var next := Step(s, Hide(answered), text);
    StepNumbered(s, Hide(answered), text);
    forall k: nat ensures Waits(next, k) <==> k == |s.pending| {
    }
  }
}

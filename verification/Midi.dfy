// MIDI mirroring of the keyboard state: deltas when something changes and a
// rotating snapshot of eleven items, one item per housekeeping call.
module Midi {
  import opened Bytes

  const CHANNEL: u8 := 15
  const SNAPSHOT_COUNT: nat := 11
  const LAYER_ITEM: nat := 10
  const SNAPSHOT_PERIOD: nat := 1000
  const UINT32: nat := 0x1_0000_0000

  type Raw = seq<u8>

  function Cc(control: u8, on: bool): Raw { [0xb0 + CHANNEL, control, if on then 127 else 0] }

  function ProgramChange(layer: u8): Raw { [0xc0 + CHANNEL, layer] }

  // ----- the keyboard -----

  type Candidates = c: seq<bool> | |c| == 6 witness seq(6, i => false)

  datatype Sender = Sender(
    candidates: Candidates, lastMods: bv8, snapshotIndex: nat, snapshotTimer: u32, reportedLayer: u8)

  // Left and right control, alt, gui and shift.
  function Mask(k: nat): bv8
  {
    if k == 0 then 0x11 else if k == 1 then 0x44 else if k == 2 then 0x88 else 0x22
  }

  predicate ModOn(mods: bv8, k: nat) { mods & Mask(k) != 0 }

  // Either key of a pair turns its control on; left keys are the low four bits.
  lemma EitherKey(mods: bv8)
    ensures ModOn(mods, 0) <==> mods & 0x01 != 0 || mods & 0x10 != 0   // control
    ensures ModOn(mods, 1) <==> mods & 0x04 != 0 || mods & 0x40 != 0   // alt
    ensures ModOn(mods, 2) <==> mods & 0x08 != 0 || mods & 0x80 != 0   // gui
    ensures ModOn(mods, 3) <==> mods & 0x02 != 0 || mods & 0x20 != 0   // shift
  {
  }

  function Delta(before: bv8, after: bv8, k: nat): seq<Raw>
    requires k < 4
  {
    if ModOn(before, k) != ModOn(after, k) then [Cc(30 + k, ModOn(after, k))] else []
  }

  function Deltas(before: bv8, after: bv8): seq<Raw>
  {
    Delta(before, after, 0) + Delta(before, after, 1) + Delta(before, after, 2) + Delta(before, after, 3)
  }

  predicate Due(s: Sender, now: u32) { (now - s.snapshotTimer) % UINT32 >= SNAPSHOT_PERIOD }

  function SnapshotItem(s: Sender, layer: u8, item: nat): Raw
    requires item < SNAPSHOT_COUNT
  {
    if item < 6 then Cc(20 + item, s.candidates[item])
    else if item < LAYER_ITEM then Cc(30 + (item - 6), ModOn(s.lastMods, item - 6))
    else ProgramChange(layer)
  }

  function KeyStep(s: Sender, k: nat, pressed: bool): (Sender, seq<Raw>)
    requires k < 6
  {
    (s.(candidates := s.candidates[k := pressed]), [Cc(20 + k, pressed)])
  }

  function Restarted(s: Sender, now: u32): Sender
  {
    if Due(s, now) then s.(snapshotTimer := now, snapshotIndex := 0) else s
  }

  function HousekeepingStep(s: Sender, mods: bv8, now: u32, layer: u8): (Sender, seq<Raw>)
  {
    var t := Restarted(s.(lastMods := mods), now);
    if t.snapshotIndex >= SNAPSHOT_COUNT then (t, Deltas(s.lastMods, mods))
    else
      var item := SnapshotItem(t, layer, t.snapshotIndex);
      (t.(snapshotIndex := t.snapshotIndex + 1), Deltas(s.lastMods, mods) + [item])
  }

  function LayerStep(s: Sender, layer: u8): (Sender, seq<Raw>)
  {
    if layer != s.reportedLayer then (s.(reportedLayer := layer), [ProgramChange(layer)]) else (s, [])
  }

  // ----- the sound engine -----

  type Controls = c: seq<bool> | |c| == 10 witness seq(10, i => false)

  datatype Receiver = Receiver(controls: Controls, layer: u8, tail: nat)

  function ControlIndex(control: u8): (k: int)
    ensures -1 <= k < 10
  {
    if 20 <= control <= 25 then control - 20
    else if 30 <= control <= 33 then 6 + control - 30
    else -1
  }

  function Handle(r: Receiver, raw: Raw, rate: nat): Receiver
  {
    if |raw| < 2 || raw[0] % 16 != CHANNEL then r
    else if raw[0] / 16 == 0xb && |raw| >= 3 then
      var k, on := ControlIndex(raw[1]), raw[2] >= 64;
      if k >= 0 && r.controls[k] != on then r.(controls := r.controls[k := on], tail := rate) else r
    else if raw[0] / 16 == 0xc && raw[1] != r.layer then
      r.(layer := raw[1], tail := rate)
    else r
  }

  // The control that shows flag k.
  function ControlOf(k: nat): nat { if k < 6 then 20 + k else 24 + k }

  // A message changes just the control or the layer it names, and that only on
  // its own channel; the tail starts again exactly if something changed.
  lemma HandleExactly(r: Receiver, raw: Raw, rate: nat)
    ensures forall k :: 0 <= k < 10 ==>
      var named := |raw| >= 3 && raw[0] == 0xb0 + CHANNEL && raw[1] == ControlOf(k);
      Handle(r, raw, rate).controls[k] == if named then raw[2] >= 64 else r.controls[k]
    ensures var t := Handle(r, raw, rate);
      && t.layer == (if |raw| >= 2 && raw[0] == 0xc0 + CHANNEL then raw[1] else r.layer)
      && t.tail == (if t.controls != r.controls || t.layer != r.layer then rate else r.tail)
  {
  }

  function HandleAll(r: Receiver, raws: seq<Raw>, rate: nat): Receiver
    decreases |raws|
  {
    if raws == [] then r
    else Handle(HandleAll(r, raws[..|raws| - 1], rate), raws[|raws| - 1], rate)
  }

  predicate Held(r: Receiver) { true in r.controls }

  predicate Silent(r: Receiver) { !Held(r) && r.tail == 0 }

  function Decay(r: Receiver, frames: nat): Receiver
  {
    if Silent(r) then r else r.(tail := if r.tail > frames then r.tail - frames else 0)
  }

  function ProcessStep(r: Receiver, raws: seq<Raw>, frames: nat, rate: nat): Receiver
  {
    Decay(HandleAll(r, raws, rate), frames)
  }

  lemma ConcatAssociative<T>(a: seq<T>, b: seq<T>, c: seq<T>)
    ensures a + (b + c) == a + b + c
  {
  }

  // ----- the same, in place -----

  class Keyboard {
    var candidates: array<bool>
    var lastMods: bv8
    var snapshotIndex: nat
    var snapshotTimer: u32
    var reportedLayer: u8
    var sent: seq<Raw>

    ghost predicate Valid()
      reads this
    {
      candidates.Length == 6
    }

    ghost function State(): Sender
      reads this, candidates
      requires Valid()
    {
      Sender(candidates[..], lastMods, snapshotIndex, snapshotTimer, reportedLayer)
    }

    constructor (layer: u8, mods: bv8, now: u32)
      ensures Valid() && fresh(candidates) && sent == []
      ensures State() == Sender(seq(6, i => false), mods, 0, now, layer)
    {
      candidates := new bool[6](_ => false);
      lastMods, snapshotIndex, snapshotTimer, reportedLayer, sent := mods, 0, now, layer, [];
      new;
      assert candidates[..] == seq(6, i => false);
    }

    method PreProcessRecord(k: nat, pressed: bool)
      requires Valid() && k < 6
      modifies this`sent, candidates
      ensures Valid() && candidates == old(candidates)
      ensures State() == KeyStep(old(State()), k, pressed).0
      ensures sent == old(sent) + KeyStep(old(State()), k, pressed).1
    {
      candidates[k] := pressed;
      sent := sent + [Cc(20 + k, pressed)];
    }

    method UpdateModifier(k: nat, mods: bv8)
      requires k < 4
      modifies this`sent
      ensures sent == old(sent) + Delta(lastMods, mods, k)
    {
      var previous, current := ModOn(lastMods, k), ModOn(mods, k);
      if previous != current {
        sent := sent + [Cc(30 + k, current)];
      }
    }

    method UpdateModifiers(mods: bv8)
      modifies this`sent
      ensures sent == old(sent) + Deltas(lastMods, mods)
    {
      UpdateModifier(0, mods);
      UpdateModifier(1, mods);
      UpdateModifier(2, mods);
      UpdateModifier(3, mods);
      ghost var first, second := Delta(lastMods, mods, 0), Delta(lastMods, mods, 1);
      ghost var third, fourth := Delta(lastMods, mods, 2), Delta(lastMods, mods, 3);
      ConcatAssociative(old(sent), first, second);
      ConcatAssociative(old(sent), first + second, third);
      ConcatAssociative(old(sent), first + second + third, fourth);
    }

    // Sends the snapshot item whose turn it is.
    method SendSnapshot(layer: u8)
      requires Valid() && snapshotIndex < SNAPSHOT_COUNT
      modifies this`sent
      ensures sent == old(sent) + [SnapshotItem(State(), layer, snapshotIndex)]
    {
      var item :=
        if snapshotIndex < 6 then Cc(20 + snapshotIndex, candidates[snapshotIndex])
        else if snapshotIndex < 10 then Cc(30 + (snapshotIndex - 6), ModOn(lastMods, snapshotIndex - 6))
        else ProgramChange(layer);
      sent := sent + [item];
    }

    method HousekeepingTask(mods: bv8, now: u32, layer: u8)
      requires Valid()
      modifies this
      ensures Valid() && candidates == old(candidates)
      ensures State() == HousekeepingStep(old(State()), mods, now, layer).0
      ensures sent == old(sent) + HousekeepingStep(old(State()), mods, now, layer).1
    {
      UpdateModifiers(mods);
      lastMods := mods;
      if (now - snapshotTimer) % UINT32 >= SNAPSHOT_PERIOD {
        snapshotTimer := now;
        snapshotIndex := 0;
      }
      if snapshotIndex >= SNAPSHOT_COUNT {
        return;
      }
      SendSnapshot(layer);
      ConcatAssociative(old(sent), Deltas(old(lastMods), mods), [SnapshotItem(State(), layer, snapshotIndex)]);
      snapshotIndex := snapshotIndex + 1;
    }

    method LayerStateSet(layer: u8)
      requires Valid()
      modifies this`reportedLayer, this`sent
      ensures Valid()
      ensures State() == LayerStep(old(State()), layer).0
      ensures sent == old(sent) + LayerStep(old(State()), layer).1
    {
      if layer != reportedLayer {
        reportedLayer := layer;
        sent := sent + [ProgramChange(layer)];
      } else {
        assert sent == sent + [];
      }
    }
  }

  class SoundEngine {
    const sampleRate: nat
    var controlState: array<bool>
    var layerValue: u8
    var tailFrames: nat

    ghost predicate Valid()
      reads this
    {
      controlState.Length == 10
    }

    ghost function State(): Receiver
      reads this, controlState
      requires Valid()
    {
      Receiver(controlState[..], layerValue, tailFrames)
    }

    constructor (sampleRate: nat)
      ensures Valid() && fresh(controlState) && this.sampleRate == sampleRate
      ensures State() == Receiver(seq(10, i => false), 0, 0)
    {
      this.sampleRate := sampleRate;
      controlState := new bool[10](_ => false);
      layerValue, tailFrames := 0, 0;
      new;
      assert controlState[..] == seq(10, i => false);
    }

    // One audio cycle; tells whether its output is silence.
    method Process(events: seq<Raw>, frames: nat) returns (silence: bool)
      requires Valid()
      modifies this, controlState
      ensures Valid() && controlState == old(controlState)
      ensures State() == ProcessStep(old(State()), events, frames, sampleRate)
      ensures silence == Silent(HandleAll(old(State()), events, sampleRate))
    {
      for index := 0 to |events|
        invariant Valid() && controlState == old(controlState)
        invariant State() == HandleAll(old(State()), events[..index], sampleRate)
      {
        assert events[..index + 1][..index] == events[..index];
        HandleEvent(events[index]);
      }
      assert events[..|events|] == events;
      var held := false;
      for k := 0 to 10
        invariant held == (true in controlState[..k])
      {
        held := held || controlState[k];
        assert controlState[..k + 1] == controlState[..k] + [controlState[k]];
      }
      assert controlState[..10] == controlState[..];
      silence := !held && tailFrames == 0;
      if !silence {
        tailFrames := if tailFrames > frames then tailFrames - frames else 0;
      }
    }

    method HandleEvent(event: Raw)
      requires Valid()
      modifies this`layerValue, this`tailFrames, controlState
      ensures Valid() && State() == Handle(old(State()), event, sampleRate)
    {
      if |event| < 2 {
        return;
      }
      var status := event[0];
      if status % 16 != CHANNEL {
        return;
      }
      if status / 16 == 0xb && |event| >= 3 {
        var on, index := event[2] >= 64, ControlIndex(event[1]);
        if index >= 0 && controlState[index] != on {
          controlState[index] := on;
          tailFrames := sampleRate;
        }
      } else if status / 16 == 0xc {
        if event[1] != layerValue {
          layerValue := event[1];
          tailFrames := sampleRate;
        }
      }
    }
  }
}

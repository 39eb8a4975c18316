// When the physical output of the supply follows its settings. The supply
// prepares a change on the report after it and applies it on the one after
// that, unless that one comes too soon.
module Dp100Activation {
  import opened Wrappers
  import opened Dp100Frame
  import opened Dp100

  // Half a unit of time, 0.05 s.
  const LAG: real := 0.5

  datatype Due = Due(time: real, enabled: bool)

  datatype Output = Output(physical: bool, due: Option<Due>, queued: Option<bool>)

  // What a report asks the output to be.
  function Wanted(c: Command): Option<bool>
  {
    if c.opcode == BASICSET && |c.payload| == 10 then Some(c.payload[1] != 0) else None
  }

  function WriteStep(o: Output, time: real, wanted: Option<bool>): Output
  {
    Output(
      if o.due.Some? && time >= o.due.value.time then o.due.value.enabled else o.physical,
      if o.queued.Some? then Some(Due(time + LAG, o.queued.value)) else None,
      wanted)
  }

  function Run(o: Output, commands: seq<Command>, times: seq<nat>): Output
    requires |commands| == |times|
    decreases |commands|
  {
    if commands == [] then o
    else
      var n := |commands| - 1;
      WriteStep(Run(o, commands[..n], times[..n]), times[n] as real, Wanted(commands[n]))
  }

  // The setting after the commands.
  function Setting(enabled: bool, commands: seq<Command>): bool
    decreases |commands|
  {
    if commands == [] then enabled
    else
      var n := |commands| - 1;
      if Wanted(commands[n]).Some? then Wanted(commands[n]).value else Setting(enabled, commands[..n])
  }

  // What the output is headed for.
  function Headed(o: Output): bool
  {
    if o.queued.Some? then o.queued.value else if o.due.Some? then o.due.value.enabled else o.physical
  }

  // A change that is due is lost exactly if the next report comes too soon and
  // no newer change is queued.
  lemma LostExactly(o: Output, time: real)
    ensures Headed(WriteStep(o, time, None)) == Headed(o) <==>
      !(o.queued.None? && o.due.Some? && time < o.due.value.time && o.due.value.enabled != o.physical)
  {
  }

  // A changed setting followed by two other reports takes effect exactly if
  // the second one comes at least LAG after the first.
  lemma ChangeTakesEffect(o: Output, enabled: bool, t0: real, t1: real, t2: real)
    requires o.due.None? && o.queued.None? && o.physical != enabled
    ensures var end := WriteStep(WriteStep(WriteStep(o, t0, Some(enabled)), t1, None), t2, None);
      end.physical == enabled <==> t2 >= t1 + LAG
  {
  }

  ghost predicate Ready(o: Output, time: real)
  {
    o.due.Some? ==> o.due.value.time <= time
  }

  // At the driver's pace nothing is ever lost.
  lemma {:induction false} PacedHeads(o: Output, enabled: bool, commands: seq<Command>, times: seq<nat>, now: nat)
    requires |commands| == |times| && Paced(times, now) && o == Output(enabled, None, None)
    ensures Headed(Run(o, commands, times)) == Setting(enabled, commands)
    ensures Ready(Run(o, commands, times), now as real)
    decreases |commands|
  {
    if commands != [] {
      var n := |commands| - 1;
      var front := times[..n];
      assert Paced(front, times[n]) by {
        assert n > 0 ==> front[n - 1] == times[n - 1];
      }
      PacedHeads(o, enabled, commands[..n], front, times[n]);
    }
  }

  // After any history of the driver that ends in two reports that change
  // nothing, the physical output is what the settings say.
  lemma OutputFollows(o: Output, enabled: bool, commands: seq<Command>, times: seq<nat>, now: nat)
    requires |commands| == |times| && Paced(times, now) && o == Output(enabled, None, None)
    requires |commands| >= 2 && Wanted(commands[|commands| - 1]).None? && Wanted(commands[|commands| - 2]).None?
    ensures Run(o, commands, times).physical == Setting(enabled, commands)
  {
    var n := |commands| - 1;
    var front := times[..n];
    assert Paced(front, times[n]) by {
      assert front[n - 1] == times[n - 1];
    }
    PacedHeads(o, enabled, commands[..n], front, times[n]);
    assert Run(o, commands[..n], front).queued.None?;
  }

  // So it is for everything a driver has written to its port.
  lemma PortFollows(port: Port, o: Output, enabled: bool)
    requires port.Valid() && o == Output(enabled, None, None) && |port.written| >= 2
    requires Wanted(port.written[|port.written| - 1]).None? && Wanted(port.written[|port.written| - 2]).None?
    ensures Run(o, port.written, port.writtenAt).physical == Setting(enabled, port.written)
  {
    OutputFollows(o, enabled, port.written, port.writtenAt, port.now);
  }
}

// Switching the output: read, check the limits, write once, verify.
module Dp100Output {
  import opened Wrappers
  import opened Dp100Frame
  import opened Dp100
  import opened Dp100Driver

  function Mutations(commands: seq<Command>): nat
    decreases |commands|
  {
    if commands == [] then 0
    else
      var last := commands[|commands| - 1];
      Mutations(commands[..|commands| - 1]) + if Mutating(last.opcode, last.payload) then 1 else 0
  }

  lemma {:induction false} MarkersDoNotMutate(before: seq<Command>, after: seq<Command>, marker: byte)
    requires OnlyMarkers(before, after, marker) && marker != BASICSET
    ensures Mutations(after) == Mutations(before)
    decreases |after|
  {
    if |before| < |after| {
      MarkersDoNotMutate(before, after[..|after| - 1], marker);
    } else {
      assert after == before;
    }
  }

  lemma {:induction false} OneCommandMutates(before: seq<Command>, after: seq<Command>, marker: byte, command: Command)
    requires OneCommand(before, after, marker, command) && marker != BASICSET
    ensures Mutations(after) == Mutations(before) + if Mutating(command.opcode, command.payload) then 1 else 0
    decreases |after|
  {
    var i :| |before| <= i < |after| && after[i] == command && before <= after
      && forall j :: |before| <= j < |after| && j != i ==> after[j] == Command(marker, []);
    var rest := after[..|after| - 1];
    if i == |rest| {
      MarkersDoNotMutate(before, rest, marker);
    } else {
      assert rest[i] == command;
      OneCommandMutates(before, rest, marker, command);
    }
  }

  function Distance(a: int, b: int): int { if a < b then b - a else a - b }

  predicate InTolerance(enabled: bool, voltage: int, measured: nat)
  {
    if enabled then
      var limit := if voltage as real * 0.05 > 100.0 then voltage as real * 0.05 else 100.0;
      Distance(measured, voltage) as real <= limit
    else
      measured <= 500
  }

  // Within five hundredths of the voltage asked for or 100 mV, whichever is
  // more; an output that is off shows at most 500 mV.
  predicate Near(enabled: bool, voltage: int, measured: nat)
  {
    if enabled then
      || voltage - 100 <= measured <= voltage + 100
      || 95 * voltage <= 100 * measured <= 105 * voltage
    else measured <= 500
  }

  lemma ToleranceInWholeNumbers(enabled: bool, voltage: int, measured: nat)
    ensures InTolerance(enabled, voltage, measured) <==> Near(enabled, voltage, measured)
  {
    if enabled {
      var d := Distance(measured, voltage);
      assert d as real <= voltage as real * 0.05 <==> 20 * d <= voltage;
    }
  }

  ghost predicate Readings(log: seq<Exchange>)
  {
    forall i :: 0 <= i < |log| ==> log[i].command == Command(BASICINFO, []) && |log[i].data| == 16
  }

  ghost predicate Good(reading: Exchange, enabled: bool, voltage: int)
  {
    |reading.data| == 16 && Near(enabled, voltage, UnpackStatus(reading.data).voltage)
  }

  // Which readings are in tolerance.
  ghost function Marks(log: seq<Exchange>, enabled: bool, voltage: int): (marks: seq<bool>)
    ensures |marks| == |log|
  {
    seq(|log|, i requires 0 <= i < |log| => Good(log[i], enabled, voltage))
  }

  ghost predicate Pair(marks: seq<bool>, i: int) { 0 < i < |marks| && marks[i - 1] && marks[i] }

  ghost predicate TwoInARow(marks: seq<bool>) { exists i :: Pair(marks, i) }

  // The last two, and no two before them.
  ghost predicate Settles(marks: seq<bool>)
  {
    Pair(marks, |marks| - 1) && !TwoInARow(marks[..|marks| - 1])
  }

  // Status readings only, the last two in tolerance and no two before them.
  ghost predicate Steady(log: seq<Exchange>, enabled: bool, voltage: int, last: Status)
  {
    && log != [] && Readings(log) && Settles(Marks(log, enabled, voltage))
    && last == UnpackStatus(log[|log| - 1].data)
  }

  // The settings byte for byte but for the profile index.
  predicate SameOutput(a: Settings, b: Settings)
  {
    a.(index := 0) == b.(index := 0)
  }

  function OrElse(o: Option<int>, default: int): int
  {
    if o.Some? then o.value else default
  }

  function FirstByte(s: Settings): byte
  {
    0x20 | ((s.index as byte) & 0x0f)
  }

  // Marked as a write, with the low four bits of the profile index.
  lemma FirstByteParts(s: Settings)
    ensures FirstByte(s) >> 4 == 2 && FirstByte(s) << 4 == (s.index as byte) << 4
  {
  }

  // Why the settings `s` and the maximum rule a request out.
  function LimitRefusal(s: Settings, maximum: nat, enabled: bool, voltage: Option<int>, current: Option<int>)
    : Option<Error>
  {
    var v, c := OrElse(voltage, s.voltage), OrElse(current, s.current);
    if enabled && (v <= 0 || v > maximum || v > s.ovp) then Some(VoltageLimit)
    else if enabled && (c <= 0 || c > s.ocp) then Some(CurrentLimit)
    else if v < 0 || v >= 0x1_0000 || c < 0 || c >= 0x1_0000 then Some(NotEncodable)
    else None
  }

  // The settings were read and, to enable the output, the maximum.
  ghost predicate Planned(log: seq<Exchange>, enabled: bool, first: Settings, maximum: nat)
  {
    exists data, rest :: |data| == 10 && first == UnpackSettings(data)
      && log == [Exchange(Command(BASICSET, [0x80]), data)] + rest && MaximumTaken(rest, enabled, maximum)
  }

  ghost predicate MaximumTaken(log: seq<Exchange>, enabled: bool, maximum: nat)
  {
    if enabled then exists data ::
      |data| == 16 && log == [Exchange(Command(BASICINFO, []), data)] && UnpackStatus(data).maxVoltage == maximum
    else log == []
  }

  // The settings asked for; the profile and the protection limits stay.
  predicate Asked(
    desired: Settings, first: Settings, enabled: bool, voltage: Option<int>, current: Option<int>)
  {
    && desired.index == first.index && desired.enabled == (if enabled then 1 else 0)
    && desired.voltage == OrElse(voltage, first.voltage) && desired.current == OrElse(current, first.current)
    && desired.ovp == first.ovp && desired.ocp == first.ocp
  }

  // One write, acknowledged with 01, and the same settings read back.
  ghost predicate Committed(log: seq<Exchange>, desired: Settings, actual: Settings)
  {
    && actual == desired.(index := actual.index)
    && exists data ::
      && |data| == 10 && actual == UnpackSettings(data)
      && log == [
           Exchange(Command(BASICSET, PackSettings(FirstByte(desired), desired)), [1]),
           Exchange(Command(BASICSET, [0x80]), data)]
  }

  // The device answered, if only to have the request fail.
  predicate Answered<T>(result: Result<T, Error>)
  {
    result.Err? ==> !LinkError(result.error)
  }

  function Verdict<T>(result: Result<T, Error>): Option<Error>
  {
    if result.Ok? then None else Some(result.error)
  }

  method GetSettings(d: Driver) returns (result: Result<Settings, Error>)
    requires d.port.Valid()
    modifies d, d.port
    ensures d.port.Valid() && d.port.now >= old(d.port.now)
    ensures Mutations(d.port.written) == Mutations(old(d.port.written))
    ensures result.Err? ==> LinkError(result.error)
    ensures result.Err? ==> d.accepted == old(d.accepted)
    ensures old(Prompt(d.port)) ==> result.Ok?
    ensures result.Ok? ==> exists data ::
      && |data| == 10 && result.value == UnpackSettings(data)
      && d.accepted == old(d.accepted) + [Exchange(Command(BASICSET, [0x80]), data)]
    ensures d.port.obedient && result.Ok? ==>
      result.value == old(d.port.supply.settings) && Undisturbed(old(d.port.Now()), d.port.Now())
  {
    ghost var before := d.port.written;
    var data := d.Request(BASICSET, [0x80], 10, REQUEST_TIMEOUT);
    ReadsDoNotMutate(before, d.port.written, BASICSET, [0x80]);
    if data.Err? {
      return Err(data.error);
    }
    if d.port.obedient {
      LengthByte(d.port.supply.settings.index);
      SettingsRoundTrip(d.port.supply.settings.index as byte, d.port.supply.settings);
    }
    return Ok(UnpackSettings(data.value));
  }

  // The firmware took this measurement between the two histories.
  ghost predicate MeasuredSince(before: seq<Handled>, after: seq<Handled>, status: Status)
  {
    && before <= after
    && exists i ::
      |before| <= i < |after| && after[i].command == Command(BASICINFO, []) && after[i].measured == status
  }

  lemma TookMeasurement(before: seq<Handled>, after: seq<Handled>, supply: Supply, data: seq<byte>)
    requires |data| == 16
    requires exists m: Status ::
      && data == Answer(supply.(measured := m), BASICINFO, [])
      && HandledOnce(before, after, Marker(BASICINFO), Handled(Command(BASICINFO, []), data, m))
    ensures MeasuredSince(before, after, UnpackStatus(data))
  {
    var m: Status :| data == Answer(supply.(measured := m), BASICINFO, [])
      && HandledOnce(before, after, Marker(BASICINFO), Handled(Command(BASICINFO, []), data, m));
    StatusRoundTrip(m);
  }

  // The delayed firmware, with a queue the driver can empty and reads and
  // writes quick enough for a request.
  ghost predicate Prompt(port: Port)
    reads port
  {
    port.obedient && |port.reports| < 64 && REQUEST_TIMEOUT > 2 * port.lag + PACE
  }

  method GetStatus(d: Driver) returns (result: Result<Status, Error>)
    requires d.port.Valid()
    modifies d, d.port
    ensures d.port.Valid() && d.port.now >= old(d.port.now)
    ensures Mutations(d.port.written) == Mutations(old(d.port.written))
    ensures result.Err? ==> LinkError(result.error)
    ensures result.Err? ==> d.accepted == old(d.accepted)
    ensures old(Prompt(d.port)) ==> result.Ok?
    ensures result.Ok? ==> exists data ::
      && |data| == 16 && result.value == UnpackStatus(data)
      && d.accepted == old(d.accepted) + [Exchange(Command(BASICINFO, []), data)]
    ensures d.port.obedient && result.Ok? ==>
      && Undisturbed(old(d.port.Now()), d.port.Now())
      && MeasuredSince(old(d.port.handled), d.port.handled, result.value)
  {
    ghost var before, handled := d.port.written, d.port.handled;
    var data := d.Request(BASICINFO, [], 16, REQUEST_TIMEOUT);
    ReadsDoNotMutate(before, d.port.written, BASICINFO, []);
    if data.Err? {
      return Err(data.error);
    }
    if d.port.obedient {
      TookMeasurement(handled, d.port.handled, old(d.port.supply), data.value);
    }
    return Ok(UnpackStatus(data.value));
  }

  // The firmware is as before but for its measurements and nothing is queued.
  ghost predicate Undisturbed(before: Wire, after: Wire)
  {
    && after.reports == [] && before.handled <= after.handled
    && after.supply == before.supply.(measured := after.supply.measured)
  }

  lemma ReadsDoNotMutate(before: seq<Command>, after: seq<Command>, opcode: byte, payload: seq<byte>)
    requires !Mutating(opcode, payload)
    requires OneCommand(before, after, Marker(opcode), Command(opcode, payload))
      || OnlyMarkers(before, after, Marker(opcode))
    ensures Mutations(after) == Mutations(before)
  {
    if OnlyMarkers(before, after, Marker(opcode)) {
      MarkersDoNotMutate(before, after, Marker(opcode));
    } else {
      OneCommandMutates(before, after, Marker(opcode), Command(opcode, payload));
    }
  }

  // The last `consecutive` are marked and the one before is not; nowhere are
  // there two in a row yet.
  ghost predicate Counting(marks: seq<bool>, consecutive: nat)
  {
    && consecutive <= 1 && consecutive <= |marks|
    && (marks != [] ==> marks[|marks| - 1] == (consecutive == 1))
    && !TwoInARow(marks)
  }

  ghost predicate Unfinished(log: seq<Exchange>, consecutive: nat, enabled: bool, voltage: int)
  {
    Readings(log) && Counting(Marks(log, enabled, voltage), consecutive)
  }

  // Readings without two in tolerance one after the other.
  ghost predicate Unsteady(log: seq<Exchange>, enabled: bool, voltage: int)
  {
    log != [] && Readings(log) && !TwoInARow(Marks(log, enabled, voltage))
  }

  method VerifyVoltage(d: Driver, enabled: bool, voltage: int, timeout: nat)
    returns (result: Result<Status, Error>, ghost readings: seq<Exchange>)
    requires d.port.Valid()
    modifies d, d.port
    ensures d.port.Valid()
    ensures Mutations(d.port.written) == Mutations(old(d.port.written))
    ensures result.Ok? ==> d.accepted == old(d.accepted) + readings && Steady(readings, enabled, voltage, result.value)
    ensures result.Err? ==> LinkError(result.error) || result.error == VoltageUnverified
    ensures result == Err(VoltageUnverified) ==>
      && d.port.now >= old(d.port.now) + timeout
      && d.accepted == old(d.accepted) + readings && Unsteady(readings, enabled, voltage)
    ensures old(Prompt(d.port)) ==> Answered(result)
    ensures d.port.obedient && Answered(result) ==>
      Undisturbed(old(d.port.Now()), d.port.Now())
    ensures d.port.obedient && result.Ok? ==> MeasuredSince(old(d.port.handled), d.port.handled, result.value)
  {
    var deadline := d.port.now + timeout;
    var consecutive: nat := 0;
    ghost var log, start := d.accepted, d.port.Now();
    readings := [];
    while true
      invariant d.port.Valid() && d.accepted == log + readings
      invariant Mutations(d.port.written) == Mutations(start.written)
      invariant Unfinished(readings, consecutive, enabled, voltage)
      invariant d.port.obedient ==>
        if readings == [] then d.port.Now() == start else Undisturbed(start, d.port.Now())
      decreases deadline - d.port.now
    {
      var status;
      status, readings := TakeReading(d, enabled, voltage, consecutive, log, readings);
      if status.Err? {
        return Err(status.error), readings;
      }
      ToleranceInWholeNumbers(enabled, voltage, status.value.voltage);
      consecutive := if InTolerance(enabled, voltage, status.value.voltage) then consecutive + 1 else 0;
      if consecutive >= 2 {
        return Ok(status.value), readings;
      }
      if d.port.now >= deadline {
        return Err(VoltageUnverified), readings;
      }
      d.port.Sleep(PACE);
    }
  }

  // One status request of the loop above, added to the readings.
  method TakeReading(
    d: Driver, enabled: bool, voltage: int, consecutive: nat, ghost log: seq<Exchange>, ghost readings: seq<Exchange>)
    returns (result: Result<Status, Error>, ghost more: seq<Exchange>)
    requires d.port.Valid() && d.accepted == log + readings && Unfinished(readings, consecutive, enabled, voltage)
    modifies d, d.port
    ensures d.port.Valid() && d.port.now >= old(d.port.now)
    ensures Mutations(d.port.written) == Mutations(old(d.port.written))
    ensures result.Err? ==> LinkError(result.error)
    ensures old(Prompt(d.port)) ==> result.Ok?
    ensures result.Ok? ==>
      && d.accepted == log + more
      && var next := NextStreak(consecutive, enabled, voltage, result.value);
      if next <= 1 then Unfinished(more, next, enabled, voltage) && Unsteady(more, enabled, voltage)
      else Steady(more, enabled, voltage, result.value)
    ensures d.port.obedient && result.Ok? ==>
      && Undisturbed(old(d.port.Now()), d.port.Now())
      && MeasuredSince(old(d.port.handled), d.port.handled, result.value)
  {
    result := GetStatus(d);
    more := readings;
    if result.Ok? {
      ghost var data :| |data| == 16
        && d.accepted == log + readings + [Exchange(Command(BASICINFO, []), data)]
        && result.value == UnpackStatus(data);
      AddReading(readings, consecutive, enabled, voltage, data);
      more := readings + [Exchange(Command(BASICINFO, []), data)];
    }
  }

  function NextStreak(consecutive: nat, enabled: bool, voltage: int, status: Status): nat
  {
    if Near(enabled, voltage, status.voltage) then consecutive + 1 else 0
  }

  lemma AddReading(readings: seq<Exchange>, consecutive: nat, enabled: bool, voltage: int, data: seq<byte>)
    requires Unfinished(readings, consecutive, enabled, voltage) && |data| == 16
    ensures var more, status := readings + [Exchange(Command(BASICINFO, []), data)], UnpackStatus(data);
      var next := NextStreak(consecutive, enabled, voltage, status);
      if next <= 1 then Unfinished(more, next, enabled, voltage) && Unsteady(more, enabled, voltage)
      else Steady(more, enabled, voltage, status)
  {
    var reading := Exchange(Command(BASICINFO, []), data);
    AddMark(Marks(readings, enabled, voltage), consecutive, Good(reading, enabled, voltage));
    MarksAppend(readings, reading, enabled, voltage);
  }

  lemma MarksAppend(log: seq<Exchange>, reading: Exchange, enabled: bool, voltage: int)
    ensures Marks(log + [reading], enabled, voltage) == Marks(log, enabled, voltage) + [Good(reading, enabled, voltage)]
  {
  }

  lemma AddMark(marks: seq<bool>, consecutive: nat, good: bool)
    requires Counting(marks, consecutive)
    ensures var next := if good then consecutive + 1 else 0;
      if next <= 1 then Counting(marks + [good], next) else Settles(marks + [good])
  {
    var more := marks + [good];
    assert more[..|more| - 1] == marks;
    if i :| Pair(more, i) {
      if i < |marks| { assert Pair(marks, i); }
    }
  }

  // ----- what becomes of a request -----

  // What the supply makes of settings written to it.
  function CommitRefusal(supply: Supply, desired: Settings): Option<Error>
  {
    if supply.reject then Some(Rejected)
    else if supply.ignoreWrite && desired.(index := supply.settings.index) != supply.settings then
      Some(SettingsMismatch)
    else None
  }

  // The maximum that the supply measured since, if it was asked for.
  ghost predicate MaximumRead(before: seq<Handled>, after: seq<Handled>, enabled: bool, maximum: nat)
  {
    enabled ==> exists m: Status :: MeasuredSince(before, after, m) && m.maxVoltage == maximum
  }

  // What a run of the whole operation read and wrote.
  datatype Trace = Trace(
    first: Settings, maximum: nat, desired: Settings,
    planned: seq<Exchange>, committed: seq<Exchange>, readings: seq<Exchange>)

  method PlanOutput(d: Driver, enabled: bool, voltage: Option<int>, current: Option<int>)
    returns (result: Result<Settings, Error>, ghost trace: Trace)
    requires d.port.Valid()
    modifies d, d.port
    ensures d.port.Valid() && d.accepted == old(d.accepted) + trace.planned
    ensures Mutations(d.port.written) == Mutations(old(d.port.written))
    ensures result.Err? ==> LinkError(result.error) || LimitError(result.error)
    ensures Answered(result) ==>
      && Planned(trace.planned, enabled, trace.first, trace.maximum)
      && LimitRefusal(trace.first, trace.maximum, enabled, voltage, current) == Verdict(result)
    ensures result.Ok? ==>
      result.value == trace.desired && Asked(trace.desired, trace.first, enabled, voltage, current)
    ensures old(Prompt(d.port)) ==> Answered(result)
    ensures d.port.obedient && Answered(result) ==>
      && trace.first == old(d.port.supply.settings)
      && MaximumRead(old(d.port.handled), d.port.handled, enabled, trace.maximum)
      && Undisturbed(old(d.port.Now()), d.port.Now())
  {
    ghost var start := d.port.Now();
    var settings := GetSettings(d);
    if settings.Err? {
      return Err(settings.error), Trace(start.supply.settings, 0, start.supply.settings, [], [], []);
    }
    var s := settings.value;
    ghost var data :| |data| == 10 && s == UnpackSettings(data)
      && d.accepted == old(d.accepted) + [Exchange(Command(BASICSET, [0x80]), data)];
    ghost var ready := d.port.Now();
    ghost var maximum, rest;
    result, maximum, rest := CheckLimits(d, s, enabled, voltage, current);
    trace := Trace(s, maximum, if result.Ok? then result.value else s,
      [Exchange(Command(BASICSET, [0x80]), data)] + rest, [], []);
    if d.port.obedient && Answered(result) {
      MaximumReadEarlier(start.handled, ready.handled, d.port.handled, enabled, maximum);
    }
  }

  lemma MaximumReadEarlier(
    start: seq<Handled>, before: seq<Handled>, after: seq<Handled>, enabled: bool, maximum: nat)
    requires start <= before && MaximumRead(before, after, enabled, maximum)
    ensures MaximumRead(start, after, enabled, maximum)
  {
    if enabled {
      var m: Status :| MeasuredSince(before, after, m) && m.maxVoltage == maximum;
      assert MeasuredSince(start, after, m);
    }
  }

  // The voltage and the current against the limits and the width of a word:
  // the settings to write.
  method CheckLimits(d: Driver, s: Settings, enabled: bool, voltage: Option<int>, current: Option<int>)
    returns (result: Result<Settings, Error>, ghost maximum: nat, ghost log: seq<Exchange>)
    requires d.port.Valid() && (d.port.obedient ==> d.port.reports == [])
    modifies d, d.port
    ensures d.port.Valid()
    ensures Mutations(d.port.written) == Mutations(old(d.port.written))
    ensures result.Err? ==> LinkError(result.error) || LimitError(result.error)
    ensures d.accepted == old(d.accepted) + log
    ensures old(Prompt(d.port)) ==> Answered(result)
    ensures Answered(result) ==>
      && MaximumTaken(log, enabled, maximum)
      && LimitRefusal(s, maximum, enabled, voltage, current) == Verdict(result)
      && (result.Ok? ==> Asked(result.value, s, enabled, voltage, current))
      && (d.port.obedient ==>
            && Undisturbed(old(d.port.Now()), d.port.Now())
            && MaximumRead(old(d.port.handled), d.port.handled, enabled, maximum))
  {
    var top: nat := 0;
    maximum, log := 0, [];
    if enabled {
      var status := GetStatus(d);
      if status.Err? {
        return Err(status.error), maximum, log;
      }
      top := status.value.maxVoltage;
      ghost var data :| |data| == 16 && status.value == UnpackStatus(data)
        && d.accepted == old(d.accepted) + [Exchange(Command(BASICINFO, []), data)];
      log := [Exchange(Command(BASICINFO, []), data)];
    }
    maximum := top;
    result := CheckRequest(s, top, enabled, voltage, current);
  }

  function CheckRequest(s: Settings, maximum: nat, enabled: bool, voltage: Option<int>, current: Option<int>)
    : (result: Result<Settings, Error>)
    ensures Verdict(result) == LimitRefusal(s, maximum, enabled, voltage, current)
    ensures result.Ok? ==> Asked(result.value, s, enabled, voltage, current)
    ensures result.Err? ==> LimitError(result.error)
  {
    var v, c := OrElse(voltage, s.voltage), OrElse(current, s.current);
    if enabled && !(0 < v <= if maximum < s.ovp then maximum else s.ovp) then Err(VoltageLimit)
    else if enabled && !(0 < c <= s.ocp) then Err(CurrentLimit)
    else if !(0 <= v < 0x1_0000 && 0 <= c < 0x1_0000) then Err(NotEncodable)
    else Ok(s.(enabled := if enabled then 1 else 0, voltage := v, current := c))
  }

  method CommitOutput(d: Driver, desired: Settings)
    returns (result: Result<Settings, Error>, ghost log: seq<Exchange>)
    requires d.port.Valid()
    modifies d, d.port
    ensures d.port.Valid()
    ensures Mutations(d.port.written) <= Mutations(old(d.port.written)) + 1
    ensures result.Err? ==> LinkError(result.error) || CommitError(result.error)
    ensures result.Ok? ==> d.accepted == old(d.accepted) + log && Committed(log, desired, result.value)
    ensures old(Prompt(d.port)) ==> Answered(result)
    ensures d.port.obedient && Answered(result) ==>
      && d.port.reports == [] && old(d.port.handled) <= d.port.handled
      && CommitRefusal(old(d.port.supply), desired) == Verdict(result)
    ensures d.port.obedient && result.Ok? ==>
      d.port.supply.settings == desired.(index := d.port.supply.settings.index)
  {
    log := [];
    var written := WriteSettings(d, desired);
    if written.Err? {
      return Err(written.error), log;
    }
    var actual := GetSettings(d);
    if actual.Err? {
      return Err(actual.error), log;
    }
    ghost var data :| |data| == 10 && actual.value == UnpackSettings(data)
      && d.accepted == old(d.accepted)
        + [Exchange(Command(BASICSET, PackSettings(FirstByte(desired), desired)), [1])]
        + [Exchange(Command(BASICSET, [0x80]), data)];
    log := [Exchange(Command(BASICSET, PackSettings(FirstByte(desired), desired)), [1]),
      Exchange(Command(BASICSET, [0x80]), data)];
    if !SameOutput(actual.value, desired) {
      return Err(SettingsMismatch), log;
    }
    return Ok(actual.value), log;
  }

  // The write of the settings, sent once and acknowledged with 01.
  method WriteSettings(d: Driver, desired: Settings) returns (result: Result<(), Error>)
    requires d.port.Valid()
    modifies d, d.port
    ensures d.port.Valid()
    ensures Mutations(d.port.written) <= Mutations(old(d.port.written)) + 1
    ensures result.Err? ==> LinkError(result.error) || result.error == Rejected
    ensures result.Ok? ==>
      d.accepted == old(d.accepted) + [Exchange(Command(BASICSET, PackSettings(FirstByte(desired), desired)), [1])]
    ensures old(Prompt(d.port)) ==> Answered(result)
    ensures d.port.obedient && Answered(result) ==>
      && d.port.reports == [] && old(d.port.handled) <= d.port.handled
      && (result.Ok? <==> !old(d.port.supply.reject))
      && d.port.supply.settings == Written(old(d.port.supply), desired)
  {
    var payload := PackSettings(FirstByte(desired), desired);
    ghost var before, supply := d.port.written, d.port.supply;
    var ack := d.Request(BASICSET, payload, 1, REQUEST_TIMEOUT);
    WriteMutatesOnce(before, d.port.written, payload);
    if ack.Err? {
      return Err(ack.error);
    }
    if d.port.obedient {
      WriteApplied(supply, FirstByte(desired), desired);
    }
    if ack.value != [1] {
      return Err(Rejected);
    }
    return Ok(());
  }

  // The supply's settings after a write.
  ghost function Written(supply: Supply, desired: Settings): Settings
  {
    if supply.reject || supply.ignoreWrite then supply.settings else desired.(index := 0)
  }

  lemma WriteApplied(supply: Supply, first: byte, desired: Settings)
    ensures var payload := PackSettings(first, desired);
      && Apply(supply, BASICSET, payload).settings == Written(supply, desired)
      && forall m: Status ::
        Answer(supply.(measured := m), BASICSET, payload) == [if supply.reject then 0 else 1]
  {
    SettingsRoundTrip(first, desired);
  }

  method SetOutput(d: Driver, enabled: bool, voltage: Option<int>, current: Option<int>)
    returns (result: Result<(Settings, Status), Error>, ghost trace: Trace)
    requires d.port.Valid()
    modifies d, d.port
    // Whatever the device does: at most one mutation, and none if the settings
    // and the maximum that were read rule the request out, which they alone do.
    ensures Mutations(d.port.written)
      <= Mutations(old(d.port.written)) + if result.Err? && LimitError(result.error) then 0 else 1
    ensures Answered(result) ==>
      && Planned(trace.planned, enabled, trace.first, trace.maximum)
      && LimitRefusal(trace.first, trace.maximum, enabled, voltage, current)
         == if result.Err? && LimitError(result.error) then Some(result.error) else None
    ensures result.Ok? ==>
      && d.accepted == old(d.accepted) + trace.planned + trace.committed + trace.readings
      && Asked(trace.desired, trace.first, enabled, voltage, current)
      && Committed(trace.committed, trace.desired, result.value.0)
      && Steady(trace.readings, enabled, trace.desired.voltage, result.value.1)
    // On the delayed firmware these are the supply's own settings and a maximum
    // it measured, and all but an unsteady voltage is decided by what it is.
    ensures old(Prompt(d.port)) ==> Answered(result)
    ensures d.port.obedient && Answered(result) ==>
      && trace.first == old(d.port.supply.settings)
      && MaximumRead(old(d.port.handled), d.port.handled, enabled, trace.maximum)
    ensures d.port.obedient && Answered(result) && (result.Err? ==> !LimitError(result.error)) ==>
      && Asked(trace.desired, trace.first, enabled, voltage, current)
      && CommitRefusal(old(d.port.supply), trace.desired)
         == if result == Err(VoltageUnverified) then None else Verdict(result)
    // It then ends with the settings asked for, and the status is its own.
    ensures d.port.obedient && result.Ok? ==>
      && d.port.supply.settings == trace.desired.(index := d.port.supply.settings.index)
      && MeasuredSince(old(d.port.handled), d.port.handled, result.value.1)
  {
    ghost var start := d.port.Now();
    var plan;
    ghost var committed, readings;
    plan, trace := PlanOutput(d, enabled, voltage, current);
    if plan.Err? {
      return Err(plan.error), trace;
    }
    ghost var ready := d.port.Now();
    result, committed, readings := SwitchOutput(d, plan.value, enabled);
    trace := trace.(committed := committed, readings := readings);
    if d.port.obedient && Answered(result) {
      MaximumStays(start.handled, ready.handled, d.port.handled, enabled, trace.maximum);
    }
  }

  // Everything after the plan.
  method SwitchOutput(d: Driver, desired: Settings, enabled: bool)
    returns (result: Result<(Settings, Status), Error>, ghost committed: seq<Exchange>, ghost readings: seq<Exchange>)
    requires d.port.Valid()
    modifies d, d.port
    ensures d.port.Valid()
    ensures Mutations(d.port.written) <= Mutations(old(d.port.written)) + 1
    ensures result.Err? ==> !LimitError(result.error)
    ensures result.Ok? ==>
      && d.accepted == old(d.accepted) + committed + readings
      && Committed(committed, desired, result.value.0)
      && Steady(readings, enabled, desired.voltage, result.value.1)
    ensures old(Prompt(d.port)) ==> Answered(result)
    ensures d.port.obedient && Answered(result) ==>
      && old(d.port.handled) <= d.port.handled
      && CommitRefusal(old(d.port.supply), desired)
         == if result == Err(VoltageUnverified) then None else Verdict(result)
    ensures d.port.obedient && result.Ok? ==>
      && d.port.supply.settings == desired.(index := d.port.supply.settings.index)
      && MeasuredSince(old(d.port.handled), d.port.handled, result.value.1)
  {
    readings := [];
    var actual, status;
    actual, committed := CommitOutput(d, desired);
    if actual.Err? {
      return Err(actual.error), committed, readings;
    }
    status, readings := VerifyVoltage(d, enabled, desired.voltage, VERIFY_TIMEOUT);
    if status.Err? {
      return Err(status.error), committed, readings;
    }
    return Ok((actual.value, status.value)), committed, readings;
  }

  lemma MaximumStays(
    before: seq<Handled>, ready: seq<Handled>, after: seq<Handled>, enabled: bool, maximum: nat)
    requires MaximumRead(before, ready, enabled, maximum) && ready <= after
    ensures MaximumRead(before, after, enabled, maximum)
  {
    if enabled {
      var m: Status :| MeasuredSince(before, ready, m) && m.maxVoltage == maximum;
      assert MeasuredSince(before, after, m);
    }
  }

  lemma WriteMutatesOnce(before: seq<Command>, after: seq<Command>, payload: seq<byte>)
    requires Marker(BASICSET) != BASICSET
    requires OneCommand(before, after, Marker(BASICSET), Command(BASICSET, payload))
      || OnlyMarkers(before, after, Marker(BASICSET))
    ensures Mutations(after) <= Mutations(before) + 1
  {
    if OnlyMarkers(before, after, Marker(BASICSET)) {
      MarkersDoNotMutate(before, after, Marker(BASICSET));
    } else {
      OneCommandMutates(before, after, Marker(BASICSET), Command(BASICSET, payload));
    }
  }
}

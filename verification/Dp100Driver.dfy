// The driver proper: bounded, correlated transactions over one port.
module Dp100Driver {
  import opened Wrappers
  import opened Dp100Frame
  import opened Dp100

  // The time one write sleeps, and the default timeouts, in the same unit.
  const PACE: nat := 1
  const REQUEST_TIMEOUT: nat := 10
  const VERIFY_TIMEOUT: nat := 50

  // A command and the reply the driver accepted for it.
  datatype Exchange = Exchange(command: Command, data: seq<byte>)

  ghost predicate Matches(report: seq<byte>, opcode: byte, sequence: byte, size: nat)
  {
    var m := Decode(report);
    m.Some? && m.value.opcode == opcode && m.value.sequence == sequence && |m.value.data| == size
  }

  function Marker(opcode: byte): byte { if opcode == DEVICEINFO then BASICINFO else DEVICEINFO }

  // Nothing but the read-only marker was written.
  ghost predicate OnlyMarkers(before: seq<Command>, after: seq<Command>, marker: byte)
  {
    before <= after && forall i :: |before| <= i < |after| ==> after[i] == Command(marker, [])
  }

  // One command among markers.
  ghost predicate OneCommand(before: seq<Command>, after: seq<Command>, marker: byte, command: Command)
  {
    exists i :: |before| <= i < |after| && after[i] == command && before <= after
      && forall j :: |before| <= j < |after| && j != i ==> after[j] == Command(marker, [])
  }

  // The firmware handled `h` once, and markers besides.
  ghost predicate HandledOnce(before: seq<Handled>, after: seq<Handled>, marker: byte, h: Handled)
  {
    exists i :: |before| <= i < |after| && after[i] == h && before <= after
      && forall j :: |before| <= j < |after| && j != i ==> after[j].command == Command(marker, [])
  }

  // The firmware's own reply decodes to the data it computed.
  lemma AnswerMatches(opcode: byte, data: seq<byte>, sequence: byte)
    requires |data| < 0x100
    ensures Decode(Frame(opcode, data, RESPONSE, sequence)) == Some(Message(opcode, sequence, data))
    ensures Matches(Frame(opcode, data, RESPONSE, sequence), opcode, sequence, |data|)
  {
    DecodeFrame(opcode, data, sequence, []);
    assert Frame(opcode, data, RESPONSE, sequence) + [] == Frame(opcode, data, RESPONSE, sequence);
  }

  // One report is queued and the answer is the one behind it.
  ghost predicate InLine(w: Wire, opcode: byte, expected: byte, size: nat)
  {
    |w.reports| == 1 && Matches(w.pending, opcode, expected, size)
  }

  // The answer was taken: at once, if the queued report already matched, or
  // after one marker write.
  ghost predicate Taken(
    before: Wire, after: Wire, opcode: byte, expected: byte, size: nat, marker: byte, sequence: byte,
    data: seq<byte>)
    requires InLine(before, opcode, expected, size)
  {
    if Matches(before.reports[0], opcode, expected, size) then
      data == Decode(before.reports[0]).value.data && after == before.(reports := [])
    else
      && data == Decode(before.pending).value.data
      && after == Released(before.(reports := []), Command(marker, []), sequence, after.supply.measured).(reports := [])
  }

  // Before the first turn of the waiting loop, or after the only turn that did
  // not end it.
  ghost predicate Waiting(
    start: Wire, w: Wire, turns: nat, opcode: byte, expected: byte, size: nat, marker: byte, sequence: byte,
    elapsed: nat, lag: nat)
    requires InLine(start, opcode, expected, size)
  {
    if turns == 0 then
      elapsed == 0 && w == start
    else
      && turns == 1 && elapsed <= 2 * lag + PACE
      && !Matches(start.reports[0], opcode, expected, size)
      && w == Released(start.(reports := []), Command(marker, []), sequence, w.supply.measured)
  }

  // Only the marker was written, at most twice, and the only reply still to
  // come is one to the marker.
  ghost predicate Boundary(before: Wire, after: Wire, marker: byte)
  {
    && after.reports == []
    && IsMarkerReply(after.pending, marker)
    && after.supply == before.supply.(measured := after.supply.measured)
    && |after.written| <= |before.written| + 2
    && before.handled <= after.handled
    && (forall i :: |before.handled| <= i < |after.handled| ==> after.handled[i].command == Command(marker, []))
  }

  class Driver {
    const port: Port
    var sequence: byte
    ghost var accepted: seq<Exchange>

    constructor (port: Port, seed: byte)
      ensures this.port == port
    {
      this.port, sequence, accepted := port, seed, [];
    }

    method WriteCommand(opcode: byte, payload: seq<byte>) returns (result: Result<byte, Error>)
      requires port.Valid() && |payload| <= 58
      modifies this`sequence, port
      ensures port.Valid() && port.now > old(port.now)
      ensures sequence == old(sequence) + 1
      ensures port.written == old(port.written) + [Command(opcode, payload)]
      ensures result.Ok? ==> result.value == sequence
      ensures result.Err? ==> result.error == IncompleteWrite && !port.obedient
      ensures port.obedient ==> port.now <= old(port.now) + port.lag + PACE
      ensures port.obedient ==>
        port.Now() == Released(old(port.Now()), Command(opcode, payload), sequence, port.supply.measured)
    {
      sequence := sequence + 1;
      PacketParses(opcode, payload, sequence);
      var packet := Packet(opcode, payload, sequence);
      var count := port.Write(packet);
      if count != |packet| {
        return Err(IncompleteWrite);
      }
      return Ok(sequence);
    }

    // Empties the input queue, giving up after 64 reports.
    method Drain() returns (result: Result<(), Error>)
      requires port.Valid()
      modifies port`reports, port`now
      ensures port.Valid() && port.now >= old(port.now)
      ensures result.Err? ==> result.error == QueueNotIdle
      ensures port.obedient ==> (result.Ok? <==> |old(port.reports)| < 64)
      ensures port.obedient && result.Ok? ==> port.reports == []
    {
      for i := 0 to 64
        invariant port.Valid() && port.now >= old(port.now)
        invariant port.obedient ==> i <= |old(port.reports)| && port.reports == old(port.reports)[i..]
      {
        var report := port.Read();
        if report == [] {
          return Ok(());
        }
      }
      return Err(QueueNotIdle);
    }

    // Reads until the answer to `sequence` arrives; after every report that is
    // not that answer the read-only marker is written to clock out the next.
    method Receive(opcode: byte, size: nat, marker: byte, timeout: nat, expected: byte)
      returns (result: Result<seq<byte>, Error>)
      requires port.Valid()
      modifies this`sequence, port
      ensures port.Valid() && port.now >= old(port.now)
      ensures OnlyMarkers(old(port.written), port.written, marker)
      ensures result.Ok? ==> |result.value| == size
      ensures result.Err? ==> result.error in {TimedOut, IncompleteWrite}
      ensures result == Err(TimedOut) ==> port.now >= old(port.now) + timeout
      ensures result == Err(IncompleteWrite) ==> !port.obedient
      // On the delayed firmware, with the answer next in line.
      ensures port.obedient && InLine(old(port.Now()), opcode, expected, size) ==>
        && (timeout > 2 * port.lag + PACE ==> result.Ok?)
        && (result.Ok? ==> Taken(old(port.Now()), port.Now(), opcode, expected, size, marker, sequence, result.value))
    {
      var deadline := port.now + timeout;
      ghost var turns := 0;
      ghost var start, began := port.Now(), port.now;
      ghost var lined := port.obedient && InLine(start, opcode, expected, size);
      while port.now < deadline
        invariant port.Valid() && port.now >= began
        invariant OnlyMarkers(old(port.written), port.written, marker)
        invariant lined ==>
          Waiting(start, port.Now(), turns, opcode, expected, size, marker, sequence, port.now - began, port.lag)
        decreases deadline - port.now
      {
        var data := Poll(opcode, size, expected);
        if data.Some? {
          return Ok(data.value);
        }
        var written := WriteCommand(marker, []);
        if written.Err? {
          return Err(written.error);
        }
        turns := turns + 1;
      }
      return Err(TimedOut);
    }

    // Reads one report and tells whether it is the answer.
    method Poll(opcode: byte, size: nat, expected: byte) returns (data: Option<seq<byte>>)
      requires port.Valid()
      modifies port`reports, port`now
      ensures port.Valid() && port.now >= old(port.now)
      ensures data.Some? ==> |data.value| == size
      ensures port.obedient ==> port.now <= old(port.now) + port.lag
      ensures port.obedient && |old(port.reports)| == 1 ==>
        && port.reports == []
        && (data.Some? <==> Matches(old(port.reports)[0], opcode, expected, size))
        && (data.Some? ==> data.value == Decode(old(port.reports)[0]).value.data)
    {
      var report := port.Read();
      var parsed := Decode(report);
      if parsed.Some? {
        var m := parsed.value;
        if m.opcode == opcode && m.sequence == expected && |m.data| == size {
          return Some(m.data);
        }
      }
      return None;
    }

    // Establishes a boundary with the marker: afterwards the only reply still
    // to come is one to the marker.
    method Synchronise(marker: byte, timeout: nat) returns (result: Result<(), Error>)
      requires port.Valid() && (marker == BASICINFO || marker == DEVICEINFO)
      modifies this`sequence, port
      ensures port.Valid() && port.now >= old(port.now)
      ensures OnlyMarkers(old(port.written), port.written, marker)
      ensures result.Err? ==> LinkError(result.error)
      ensures result == Err(TimedOut) ==> port.now >= old(port.now) + timeout
      ensures result == Err(IncompleteWrite) ==> !port.obedient
      ensures port.obedient ==> (result == Err(QueueNotIdle) <==> |old(port.reports)| >= 64)
      ensures port.obedient && |old(port.reports)| < 64 && timeout > 2 * port.lag + PACE ==> result.Ok?
      ensures port.obedient && result.Ok? ==> Boundary(old(port.Now()), port.Now(), marker)
    {
      var written := Mark(marker);
      if written.Err? {
        return Err(written.error);
      }
      ghost var lined := port.Now();
      var received := Receive(marker, AnswerSize(marker, []), marker, timeout, written.value);
      if received.Err? {
        return Err(received.error);
      }
      if port.obedient {
        Synchronised(old(port.Now()), lined, port.Now(), AnswerSize(marker, []), marker, written.value, sequence,
          received.value);
      }
      return Ok(());
    }

    // Empties the queue and writes the marker, whose reply is then next in line.
    method Mark(marker: byte) returns (result: Result<byte, Error>)
      requires port.Valid() && (marker == BASICINFO || marker == DEVICEINFO)
      modifies this`sequence, port
      ensures port.Valid() && port.now >= old(port.now)
      ensures OnlyMarkers(old(port.written), port.written, marker)
      ensures result.Err? ==> result.error == QueueNotIdle || (result.error == IncompleteWrite && !port.obedient)
      ensures port.obedient ==> (result.Ok? <==> |old(port.reports)| < 64)
      ensures port.obedient && result.Ok? ==>
        && port.Now()
           == Released(old(port.Now()).(reports := []), Command(marker, []), result.value, port.supply.measured)
        && InLine(port.Now(), marker, result.value, AnswerSize(marker, []))
    {
      var drained := Drain();
      if drained.Err? {
        return Err(drained.error);
      }
      ghost var data := Answer(port.supply, marker, []);
      result := WriteCommand(marker, []);
      if port.obedient {
        AnswerMatches(marker, data, sequence);
      }
    }

    method Request(opcode: byte, payload: seq<byte>, responseSize: nat, timeout: nat)
      returns (result: Result<seq<byte>, Error>)
      requires port.Valid() && Known(opcode, payload) && responseSize == AnswerSize(opcode, payload)
      modifies this, port
      ensures port.Valid() && port.now >= old(port.now)
      ensures result.Ok? ==>
        |result.value| == responseSize && accepted == old(accepted) + [Exchange(Command(opcode, payload), result.value)]
      ensures result.Err? ==> accepted == old(accepted)
      ensures result.Err? ==> LinkError(result.error)
      ensures result == Err(TimedOut) ==> port.now >= old(port.now) + timeout
      ensures result == Err(IncompleteWrite) ==> !port.obedient
      ensures OneCommand(old(port.written), port.written, Marker(opcode), Command(opcode, payload))
        || (result.Err? && OnlyMarkers(old(port.written), port.written, Marker(opcode)))
      // On the delayed firmware, whatever reply was left over.
      ensures port.obedient ==> (result == Err(QueueNotIdle) <==> |old(port.reports)| >= 64)
      ensures port.obedient && |old(port.reports)| < 64 && timeout > 2 * port.lag + PACE ==> result.Ok?
      ensures port.obedient && result.Ok? ==>
        && (exists m: Status :: result.value == Answer(old(port.supply).(measured := m), opcode, payload)
              && HandledOnce(
                   old(port.handled), port.handled, Marker(opcode), Handled(Command(opcode, payload), result.value, m)))
        && port.supply == Apply(old(port.supply), opcode, payload).(measured := port.supply.measured)
        && port.reports == []
        && |port.written| <= |old(port.written)| + 4
    {
      var marker := Marker(opcode);
      var ready := Synchronise(marker, timeout);
      if ready.Err? {
        return Err(ready.error);
      }
      ghost var ready' := port.Now();
      result := Transfer(opcode, payload, responseSize, timeout);
      ghost var written := port.written;
      OneMore(old(port.written), ready'.written, written, marker, Command(opcode, payload));
      if result.Ok? {
        accepted := accepted + [Exchange(Command(opcode, payload), result.value)];
      }
      if port.obedient && result.Ok? {
        var m := ready'.supply.measured;
        assert result.value == Answer(old(port.supply).(measured := m), opcode, payload);
        assert port.handled[|ready'.handled|] == Handled(Command(opcode, payload), result.value, m);
        assert HandledOnce(
          old(port.handled), port.handled, Marker(opcode), Handled(Command(opcode, payload), result.value, m));
      }
    }

    // Writes the command itself, once, and takes its answer.
    method Transfer(opcode: byte, payload: seq<byte>, responseSize: nat, timeout: nat)
      returns (result: Result<seq<byte>, Error>)
      requires port.Valid() && Known(opcode, payload) && responseSize == AnswerSize(opcode, payload)
      requires port.obedient ==> port.reports == [] && IsMarkerReply(port.pending, Marker(opcode))
      modifies this`sequence, port
      ensures port.Valid() && port.now >= old(port.now)
      ensures result.Ok? ==> |result.value| == responseSize
      ensures result.Err? ==> result.error in {TimedOut, IncompleteWrite}
      ensures result == Err(TimedOut) ==> port.now >= old(port.now) + timeout
      ensures result == Err(IncompleteWrite) ==> !port.obedient
      ensures OnlyMarkers(old(port.written) + [Command(opcode, payload)], port.written, Marker(opcode))
      ensures port.obedient && timeout > 2 * port.lag + PACE ==> result.Ok?
      ensures port.obedient && result.Ok? ==>
        Transferred(old(port.Now()), port.Now(), opcode, payload, result.value)
    {
      var marker := Marker(opcode);
      ghost var data := Answer(port.supply, opcode, payload);
      var written := WriteCommand(opcode, payload);
      if written.Err? {
        return Err(written.error);
      }
      ghost var lined := port.Now();
      if port.obedient {
        NotTheMarker(port.reports[0], marker, opcode, written.value, responseSize);
        AnswerMatches(opcode, data, written.value);
        assert InLine(lined, opcode, written.value, responseSize);
      }
      result := Receive(opcode, responseSize, marker, timeout, written.value);
      if port.obedient && result.Ok? {
        TakenTransfers(
          old(port.Now()), lined, port.Now(), opcode, payload, responseSize, written.value, sequence, result.value);
      }
    }
  }

  // The command was handled, and one marker after it.
  ghost predicate Transferred(before: Wire, after: Wire, opcode: byte, payload: seq<byte>, data: seq<byte>)
  {
    && data == Answer(before.supply, opcode, payload)
    && after.supply == Apply(before.supply, opcode, payload).(measured := after.supply.measured)
    && after.reports == [] && |after.written| == |before.written| + 2
    && |after.handled| == |before.handled| + 2 && before.handled <= after.handled
    && after.handled[|before.handled|] == Handled(Command(opcode, payload), data, before.supply.measured)
    && after.handled[|before.handled| + 1].command == Command(Marker(opcode), [])
  }

  lemma TakenTransfers(
    before: Wire, lined: Wire, after: Wire, opcode: byte, payload: seq<byte>, size: nat, expected: byte,
    sequence: byte, data: seq<byte>)
    requires before.reports == []
    requires lined == Released(before, Command(opcode, payload), expected, lined.supply.measured)
    requires InLine(lined, opcode, expected, size)
    requires !Matches(before.pending, opcode, expected, size)
    requires Taken(lined, after, opcode, expected, size, Marker(opcode), sequence, data)
    ensures Transferred(before, after, opcode, payload, data)
  {
    AnswerMatches(opcode, Answer(before.supply, opcode, payload), expected);
  }

  ghost predicate IsMarkerReply(report: seq<byte>, marker: byte)
  {
    exists s, data :: |data| <= 40 && report == Frame(marker, data, RESPONSE, s)
  }

  lemma Synchronised(
    start: Wire, before: Wire, after: Wire, size: nat, marker: byte, expected: byte, sequence: byte,
    data: seq<byte>)
    requires (marker == BASICINFO || marker == DEVICEINFO)
    requires before == Released(start.(reports := []), Command(marker, []), expected, before.supply.measured)
    requires InLine(before, marker, expected, size)
    requires Taken(before, after, marker, expected, size, marker, sequence, data)
    ensures Boundary(start, after, marker)
  {
  }

  lemma NotTheMarker(report: seq<byte>, marker: byte, opcode: byte, sequence: byte, size: nat)
    requires marker != opcode
    requires IsMarkerReply(report, marker)
    ensures !Matches(report, opcode, sequence, size)
  {
    var s, data :| |data| <= 40 && report == Frame(marker, data, RESPONSE, s);
    AnswerMatches(marker, data, s);
  }

  lemma OneMore(before: seq<Command>, writes: seq<Command>, after: seq<Command>, marker: byte, command: Command)
    requires OnlyMarkers(before, writes, marker) && OnlyMarkers(writes + [command], after, marker)
    ensures OneCommand(before, after, marker, command)
  {
    assert after[|writes|] == (writes + [command])[|writes|];
  }
}

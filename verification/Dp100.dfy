// The DP100 driver.  Its port is either the delayed firmware, which releases
// each reply only on the next write, or an arbitrary device whose reads may
// return anything at all.
module Dp100 {
  import opened Dp100Frame

  datatype Error =
    | QueueNotIdle | IncompleteWrite | TimedOut
    | VoltageLimit | CurrentLimit | NotEncodable
    | Rejected | SettingsMismatch | VoltageUnverified

  // No answer came.
  predicate LinkError(e: Error) { e.QueueNotIdle? || e.IncompleteWrite? || e.TimedOut? }

  // The request was ruled out before anything was written.
  predicate LimitError(e: Error) { e.VoltageLimit? || e.CurrentLimit? || e.NotEncodable? }

  // The write did not do what it should.
  predicate CommitError(e: Error) { e.Rejected? || e.SettingsMismatch? }

  const DEVICEINFO: byte := 0x10
  const BASICINFO: byte := 0x30
  const BASICSET: byte := 0x35
  const REPORT_LEN: nat := 64

  // ----- payloads -----

  type Word = x: int | 0 <= x < 0x1_0000
  type Octet = x: int | 0 <= x < 0x100

  // Voltages in mV, currents in mA.
  datatype Settings = Settings(index: Octet, enabled: Octet, voltage: Word, current: Word, ovp: Word, ocp: Word)

  // Statuss in mV, mA and tenths of a degree Celsius.
  datatype Status = Status(
    inputVoltage: Word, voltage: Word, current: Word, maxVoltage: Word, temperature: Word, externalTemperature: Word,
    supply5V: Word, outputMode: Octet, workState: Octet)

  function Pack16(n: Word): (b: seq<byte>)
    ensures |b| == 2
  {
    [(n % 0x100) as byte, (n / 0x100) as byte]
  }

  function Unpack16(lo: byte, hi: byte): Word
  {
    lo as int + 0x100 * hi as int
  }

  function PackSettings(first: byte, s: Settings): (b: seq<byte>)
    ensures |b| == 10 && b[0] == first
  {
    [first, s.enabled as byte] + Pack16(s.voltage) + Pack16(s.current) + Pack16(s.ovp) + Pack16(s.ocp)
  }

  function UnpackSettings(b: seq<byte>): Settings
    requires |b| == 10
  {
    Settings(b[0] as int, b[1] as int,
      Unpack16(b[2], b[3]), Unpack16(b[4], b[5]), Unpack16(b[6], b[7]), Unpack16(b[8], b[9]))
  }

  // What the supply sends: seven words and two bytes, in the order of the
  // fields.
  function PackStatus(s: Status): (b: seq<byte>)
    ensures |b| == 16
  {
    Pack16(s.inputVoltage) + Pack16(s.voltage) + Pack16(s.current) + Pack16(s.maxVoltage)
    + Pack16(s.temperature) + Pack16(s.externalTemperature) + Pack16(s.supply5V)
    + [s.outputMode as byte, s.workState as byte]
  }

  function UnpackStatus(b: seq<byte>): Status
    requires |b| == 16
  {
    Status(
      Unpack16(b[0], b[1]), Unpack16(b[2], b[3]), Unpack16(b[4], b[5]), Unpack16(b[6], b[7]),
      Unpack16(b[8], b[9]), Unpack16(b[10], b[11]), Unpack16(b[12], b[13]), b[14] as int, b[15] as int)
  }

  lemma Pack16RoundTrip(n: Word)
    ensures Unpack16(Pack16(n)[0], Pack16(n)[1]) == n
  {
    LengthByte(n % 0x100);
    LengthByte(n / 0x100);
  }

  // What the supply reads from a settings payload is what was packed.
  lemma SettingsRoundTrip(first: byte, s: Settings)
    ensures UnpackSettings(PackSettings(first, s)) == s.(index := first as int)
  {
    LengthByte(s.enabled);
    Pack16RoundTrip(s.voltage);
    Pack16RoundTrip(s.current);
    Pack16RoundTrip(s.ovp);
    Pack16RoundTrip(s.ocp);
  }

  // What the driver reads from a measurement is what the supply measured.
  lemma StatusRoundTrip(s: Status)
    ensures UnpackStatus(PackStatus(s)) == s
  {
    Pack16RoundTrip(s.inputVoltage);
    Pack16RoundTrip(s.voltage);
    Pack16RoundTrip(s.current);
    Pack16RoundTrip(s.maxVoltage);
    Pack16RoundTrip(s.temperature);
    Pack16RoundTrip(s.externalTemperature);
    Pack16RoundTrip(s.supply5V);
    LengthByte(s.outputMode);
    LengthByte(s.workState);
  }

  // ----- the supply -----

  type Info = b: seq<byte> | |b| == 40 witness seq(40, i => 0)

  datatype Supply = Supply(settings: Settings, info: Info, measured: Status, reject: bool, ignoreWrite: bool)

  // The commands the driver sends.
  predicate Known(opcode: byte, payload: seq<byte>)
  {
    || ((opcode == DEVICEINFO || opcode == BASICINFO) && payload == [])
    || (opcode == BASICSET && (payload == [0x80] || |payload| == 10))
  }

  predicate Mutating(opcode: byte, payload: seq<byte>)
  {
    opcode == BASICSET && payload != [0x80]
  }

  function Answer(s: Supply, opcode: byte, payload: seq<byte>): (data: seq<byte>)
    ensures |data| <= 40
  {
    if opcode == DEVICEINFO then s.info
    else if opcode == BASICINFO then PackStatus(s.measured)
    else if opcode == BASICSET && payload == [0x80] then PackSettings(s.settings.index as byte, s.settings)
    else if opcode == BASICSET && |payload| == 10 then [if s.reject then 0 else 1]
    else []
  }

  function Apply(s: Supply, opcode: byte, payload: seq<byte>): Supply
  {
    if opcode == BASICSET && payload != [0x80] && |payload| == 10 && !s.reject && !s.ignoreWrite then
      s.(settings := UnpackSettings(payload).(index := 0))
    else s
  }

  function AnswerSize(opcode: byte, payload: seq<byte>): nat
  {
    if opcode == DEVICEINFO then 40 else if opcode == BASICINFO then 16 else if payload == [0x80] then 10 else 1
  }

  // ----- the port -----

  datatype Command = Command(opcode: byte, payload: seq<byte>)

  // A command the firmware handled, the data it computed for it and what it
  // measured at the time.
  datatype Handled = Handled(command: Command, data: seq<byte>, measured: Status)

  // The 65 bytes handed to the HID layer.
  function Packet(opcode: byte, payload: seq<byte>, sequence: byte): (p: seq<byte>)
    requires |payload| <= 58
    ensures |p| == 1 + REPORT_LEN
  {
    [0] + Frame(opcode, payload, REQUEST, sequence) + seq(58 - |payload|, i => 0)
  }

  function PacketCommand(packet: seq<byte>): Command
    requires |packet| == 1 + REPORT_LEN && packet[4] as int <= 58
  {
    Command(packet[2], packet[5..5 + packet[4] as int])
  }

  lemma PacketParses(opcode: byte, payload: seq<byte>, sequence: byte)
    requires |payload| <= 58
    ensures var p := Packet(opcode, payload, sequence);
      p[3] == sequence && p[4] as int == |payload| && PacketCommand(p) == Command(opcode, payload)
  {
    LengthByte(|payload|);
    var p := Packet(opcode, payload, sequence);
    assert p[4] == |payload| as byte;
    assert p[5..5 + |payload|] == payload;
  }

  // Everything on the far side of the port, with the history of both sides.
  datatype Wire = Wire(
    pending: seq<byte>, reports: seq<seq<byte>>, supply: Supply, written: seq<Command>, handled: seq<Handled>)

  // The delayed firmware takes one packet: it releases the reply it had
  // pending and keeps the new one back.
  ghost function Released(w: Wire, c: Command, sequence: byte, measured: Status): Wire
  {
    var data := Answer(w.supply, c.opcode, c.payload);
    Wire(
      Frame(c.opcode, data, RESPONSE, sequence),
      w.reports + [w.pending],
      Apply(w.supply, c.opcode, c.payload).(measured := measured),
      w.written + [c],
      w.handled + [Handled(c, data, w.supply.measured)])
  }

  // Two writes in a row are at least one unit of time apart, and so is now.
  ghost predicate Paced(times: seq<nat>, now: nat)
  {
    && (forall i :: 0 < i < |times| ==> times[i - 1] + 1 <= times[i])
    && (times != [] ==> times[|times| - 1] + 1 <= now)
  }

  class Port {
    const obedient: bool    // true: the delayed firmware
    const lag: nat          // the longest a read or a write of that firmware takes
    var pending: seq<byte>  // the reply released by the next write
    var reports: seq<seq<byte>>
    var supply: Supply
    var now: nat
    ghost var written: seq<Command>
    ghost var writtenAt: seq<nat>
    ghost var handled: seq<Handled>

    ghost predicate Valid()
      reads this
    {
      && pending != [] && |pending| <= REPORT_LEN
      && (forall i :: 0 <= i < |reports| ==> reports[i] != [])
      && |writtenAt| == |written| && Paced(writtenAt, now)
    }

    ghost function Now(): Wire
      reads this
    {
      Wire(pending, reports, supply, written, handled)
    }

    constructor (obedient: bool, lag: nat, pending: seq<byte>, reports: seq<seq<byte>>, supply: Supply)
      requires pending != [] && |pending| <= REPORT_LEN
      requires forall i :: 0 <= i < |reports| ==> reports[i] != []
      ensures Valid() && this.obedient == obedient && this.reports == reports && this.supply == supply
    {
      this.obedient, this.lag, this.pending, this.reports, this.supply := obedient, lag, pending, reports, supply;
      now, written, writtenAt, handled := 0, [], [], [];
    }

    method Sleep(ticks: nat)
      requires Valid()
      modifies this`now
      ensures Valid() && now == old(now) + ticks
    {
      now := now + ticks;
    }

    // An empty report means that nothing arrived in time.
    method Read() returns (report: seq<byte>)
      requires Valid()
      modifies this`reports, this`now
      ensures Valid() && now >= old(now)
      ensures obedient ==> now <= old(now) + lag
      ensures obedient && old(reports) == [] ==> report == [] && reports == []
      ensures obedient && old(reports) != [] ==> report == old(reports)[0] && reports == old(reports)[1..]
    {
      var elapsed :| 0 <= elapsed <= lag;
      now := now + elapsed;
      if obedient {
        report := [];
        if reports != [] {
          report := reports[0];
          reports := reports[1..];
        }
      } else {
        report := *;
      }
    }

    // Writes one packet and sleeps; tells how many bytes were taken.
    method Write(packet: seq<byte>) returns (count: nat)
      requires Valid() && |packet| == 1 + REPORT_LEN && packet[4] as int <= 58
      modifies this`pending, this`reports, this`supply, this`now, this`written, this`writtenAt, this`handled
      ensures Valid() && now > old(now)
      ensures written == old(written) + [PacketCommand(packet)]
      ensures obedient ==> count == |packet| && now <= old(now) + lag + 1
      ensures obedient ==> Now() == Released(old(Now()), PacketCommand(packet), packet[3], supply.measured)
    {
      var elapsed :| 0 <= elapsed <= lag;
      writtenAt := writtenAt + [now + elapsed];
      now := now + elapsed + 1;
      var command := PacketCommand(packet);
      written := written + [command];
      if obedient {
        count := |packet|;
        var data := Answer(supply, command.opcode, command.payload);
        reports := reports + [pending];
        pending := Frame(command.opcode, data, RESPONSE, packet[3]);
        handled := handled + [Handled(command, data, supply.measured)];
        // Statuss may change between any two reports.
        var measured: Status := *;
        supply := Apply(supply, command.opcode, command.payload).(measured := measured);
      } else {
        count :| 0 <= count;
      }
    }
  }
}

// Frames of the DP100 link: header, payload and the CRC-16 of MODBUS over
// serial line (section 6.2.2 of its specification, V1.02).
module Dp100Frame {
  import opened Wrappers

  type byte = bv8

  const REQUEST: byte := 0xfb
  const RESPONSE: byte := 0xfa

  // ----- CRC -----

  function Round(c: bv16): bv16
  {
    if c & 1 == 1 then (c >> 1) ^ 0xa001 else c >> 1
  }

  function Rounds(c: bv16): bv16
  {
    Round(Round(Round(Round(Round(Round(Round(Round(c))))))))
  }

  function Feed(c: bv16, b: byte): bv16 { Rounds(c ^ (b as bv16)) }

  function FeedAll(c: bv16, data: seq<byte>): bv16
    decreases |data|
  {
    if data == [] then c else FeedAll(Feed(c, data[0]), data[1..])
  }

  function Crc16(data: seq<byte>): bv16 { FeedAll(0xffff, data) }

  function LittleEndian(c: bv16): seq<byte>
  {
    [(c & 0xff) as byte, (c >> 8) as byte]
  }

  // ----- frames -----

  function Header(opcode: byte, payload: seq<byte>, direction: byte, sequence: byte): seq<byte>
    requires |payload| < 0x100
  {
    [direction, opcode, sequence, |payload| as byte] + payload
  }

  function Frame(opcode: byte, payload: seq<byte>, direction: byte, sequence: byte): (f: seq<byte>)
    requires |payload| < 0x100
    ensures |f| == 6 + |payload|
  {
    var packet := Header(opcode, payload, direction, sequence);
    packet + LittleEndian(Crc16(packet))
  }

  datatype Message = Message(opcode: byte, sequence: byte, data: seq<byte>)

  function Decode(report: seq<byte>): Option<Message>
  {
    if |report| < 6 || report[0] != RESPONSE then None
    else
      var end := 6 + report[3] as int;
      if end > |report| || Crc16(report[..end]) != 0 then None
      else Some(Message(report[1], report[2], report[4..end - 2]))
  }

  // ----- CRC facts -----

  lemma LengthByte(n: nat)
    requires n < 0x100
    ensures (n as byte) as int == n
  {
    assert n % 0x100 == n;
  }

  lemma RoundInjective(a: bv16, b: bv16)
    ensures Round(a) == Round(b) ==> a == b
  {
  }

  lemma RoundsInjective(a: bv16, b: bv16)
    requires Rounds(a) == Rounds(b)
    ensures a == b
  {
    var a1, b1 := Round(a), Round(b);
    var a2, b2 := Round(a1), Round(b1);
    var a3, b3 := Round(a2), Round(b2);
    var a4, b4 := Round(a3), Round(b3);
    var a5, b5 := Round(a4), Round(b4);
    var a6, b6 := Round(a5), Round(b5);
    var a7, b7 := Round(a6), Round(b6);
    RoundInjective(a7, b7);
    RoundInjective(a6, b6);
    RoundInjective(a5, b5);
    RoundInjective(a4, b4);
    RoundInjective(a3, b3);
    RoundInjective(a2, b2);
    RoundInjective(a1, b1);
    RoundInjective(a, b);
  }

  // Each step is a bijection of the register.
  lemma FeedInjective(a: bv16, b: bv16, x: byte)
    requires Feed(a, x) == Feed(b, x)
    ensures a == b
  {
    RoundsInjective(a ^ (x as bv16), b ^ (x as bv16));
  }

  lemma {:induction false} FeedAllInjective(a: bv16, b: bv16, data: seq<byte>)
    requires FeedAll(a, data) == FeedAll(b, data)
    ensures a == b
    decreases |data|
  {
    if data != [] {
      FeedAllInjective(Feed(a, data[0]), Feed(b, data[0]), data[1..]);
      FeedInjective(a, b, data[0]);
    }
  }

  lemma {:induction false} FeedAllConcat(c: bv16, a: seq<byte>, b: seq<byte>)
    ensures FeedAll(c, a + b) == FeedAll(FeedAll(c, a), b)
    decreases |a|
  {
    if a == [] {
      assert a + b == b;
    } else {
      assert (a + b)[1..] == a[1..] + b;
      FeedAllConcat(Feed(c, a[0]), a[1..], b);
    }
  }

  // The low byte of the register alone decides the high byte that eight
  // rounds mix in.
  lemma RoundsMixLowByte(a: bv16, b: bv16)
    requires (a ^ b) & 0xff00 == 0
    requires (Rounds(a) ^ Rounds(b)) & 0xff00 == 0
    ensures a == b
  {
  }

  // Two bytes fed to the same register can be told apart.
  lemma FeedTwoInjective(c: bv16, x: byte, y: byte, x': byte, y': byte)
    requires Feed(Feed(c, x), y) == Feed(Feed(c, x'), y')
    ensures x == x' && y == y'
  {
    var a, b := c ^ (x as bv16), c ^ (x' as bv16);
    RoundsInjective(Rounds(a) ^ (y as bv16), Rounds(b) ^ (y' as bv16));
    RoundsMixLowByte(a, b);
  }

  // A packet followed by its own CRC leaves the register at zero.
  lemma Residue(c: bv16)
    ensures FeedAll(c, LittleEndian(c)) == 0
  {
    var lo, hi := (c & 0xff) as byte, (c >> 8) as byte;
    assert Feed(c, lo) == c >> 8;
    assert Feed(c >> 8, hi) == 0;
    assert FeedAll(c, [lo, hi]) == FeedAll(Feed(c, lo), [hi]) by { assert [lo, hi][1..] == [hi]; }
    assert FeedAll(Feed(c, lo), [hi]) == FeedAll(Feed(Feed(c, lo), hi), []) by { assert [hi][1..] == []; }
  }

  // The example of the specification: the message 02 07 has the CRC 0x1241.
  lemma ExampleCrc()
    ensures Crc16([0x02, 0x07]) == 0x1241
  {
    FeedTwo(0xffff, 0x02, 0x07);
    assert Feed(0xffff, 0x02) == 0x813e;
  }

  // ----- frame facts -----

  lemma FrameChecks(opcode: byte, payload: seq<byte>, direction: byte, sequence: byte)
    requires |payload| < 0x100
    ensures Crc16(Frame(opcode, payload, direction, sequence)) == 0
  {
    var packet := Header(opcode, payload, direction, sequence);
    FeedAllConcat(0xffff, packet, LittleEndian(Crc16(packet)));
    Residue(Crc16(packet));
  }

  // A response decodes to what was framed, whatever padding follows.
  lemma DecodeFrame(opcode: byte, payload: seq<byte>, sequence: byte, padding: seq<byte>)
    requires |payload| < 0x100
    ensures Decode(Frame(opcode, payload, RESPONSE, sequence) + padding) == Some(Message(opcode, sequence, payload))
  {
    var frame := Frame(opcode, payload, RESPONSE, sequence);
    var report := frame + padding;
    LengthByte(|payload|);
    assert report[3] as int == |payload|;
    assert report[..6 + |payload|] == frame;
    FrameChecks(opcode, payload, RESPONSE, sequence);
    assert report[4..4 + |payload|] == payload;
  }

  // Only the CRC itself leaves the register at zero.
  lemma OnlyResidue(c: bv16, x: byte, y: byte)
    requires FeedAll(c, [x, y]) == 0
    ensures [x, y] == LittleEndian(c)
  {
    Residue(c);
    FeedTwo(c, x, y);
    FeedTwo(c, LittleEndian(c)[0], LittleEndian(c)[1]);
    FeedTwoInjective(c, x, y, LittleEndian(c)[0], LittleEndian(c)[1]);
  }

  lemma FeedTwo(c: bv16, x: byte, y: byte)
    ensures FeedAll(c, [x, y]) == Feed(Feed(c, x), y)
  {
    assert [x, y][1..] == [y] && [y][1..] == [];
    assert FeedAll(Feed(c, x), [y]) == FeedAll(Feed(Feed(c, x), y), []);
  }

  // A report decodes to a message exactly if it begins with the response frame
  // of that message.
  lemma DecodeExactly(report: seq<byte>, m: Message)
    ensures Decode(report) == Some(m)
      <==> |m.data| < 0x100 && Frame(m.opcode, m.data, RESPONSE, m.sequence) <= report
  {
    if |m.data| < 0x100 && Frame(m.opcode, m.data, RESPONSE, m.sequence) <= report {
      var frame := Frame(m.opcode, m.data, RESPONSE, m.sequence);
      DecodeFrame(m.opcode, m.data, m.sequence, report[|frame|..]);
      assert report == frame + report[|frame|..];
    }
    if Decode(report) == Some(m) { DecodedIsFrame(report); }
  }

  lemma DecodedIsFrame(report: seq<byte>)
    requires Decode(report).Some?
    ensures var m := Decode(report).value;
      |m.data| < 0x100 && Frame(m.opcode, m.data, RESPONSE, m.sequence) <= report
  {
    var m, end := Decode(report).value, 6 + report[3] as int;
    OpensWithHeader(report, m.data);
    assert report[..end] == report[..end - 2] + [report[end - 2], report[end - 1]];
    Checked(report[..end - 2], report[end - 2], report[end - 1]);
  }

  lemma OpensWithHeader(report: seq<byte>, data: seq<byte>)
    requires |report| >= 6 + |data| && report[0] == RESPONSE && report[3] as int == |data|
    requires report[4..4 + |data|] == data
    ensures |data| < 0x100 && report[..4 + |data|] == Header(report[1], data, RESPONSE, report[2])
  {
    LengthByte(|data|);
  }

  lemma Checked(packet: seq<byte>, x: byte, y: byte)
    requires Crc16(packet + [x, y]) == 0
    ensures [x, y] == LittleEndian(Crc16(packet))
  {
    FeedAllConcat(0xffff, packet, [x, y]);
    OnlyResidue(Crc16(packet), x, y);
  }

  // Changing one byte, or two neighbouring bytes, of checked data is noticed.
  lemma ChangedPairFails(data: seq<byte>, i: nat, x: byte, y: byte)
    requires i + 1 < |data| && Crc16(data) == 0
    requires x != data[i] || y != data[i + 1]
    ensures Crc16(data[i := x][i + 1 := y]) != 0
  {
    var before, after := data[..i], data[i + 2..];
    var c := Crc16(before);
    SplitPair(data, i);
    SplitPair(data[i := x][i + 1 := y], i);
    assert data[i := x][i + 1 := y][..i] == before && data[i := x][i + 1 := y][i + 2..] == after;
    PairCrc(before, data[i], data[i + 1], after);
    PairCrc(before, x, y, after);
    var good, bad := Feed(Feed(c, data[i]), data[i + 1]), Feed(Feed(c, x), y);
    if good == bad {
      FeedTwoInjective(c, data[i], data[i + 1], x, y);
    } else if FeedAll(good, after) == FeedAll(bad, after) {
      FeedAllInjective(good, bad, after);
    }
  }

  lemma SplitPair(data: seq<byte>, i: nat)
    requires i + 1 < |data|
    ensures data == data[..i] + [data[i], data[i + 1]] + data[i + 2..]
  {
  }

  lemma PairCrc(before: seq<byte>, x: byte, y: byte, after: seq<byte>)
    ensures Crc16(before + [x, y] + after) == FeedAll(Feed(Feed(Crc16(before), x), y), after)
  {
    FeedAllConcat(0xffff, before + [x, y], after);
    FeedAllConcat(0xffff, before, [x, y]);
    FeedTwo(Crc16(before), x, y);
  }

  // No damage confined to one byte or two neighbouring bytes, other than the
  // length byte, gets past the decoder.
  lemma DamageDetected(opcode: byte, payload: seq<byte>, sequence: byte, padding: seq<byte>, i: nat, x: byte, y: byte)
    requires |payload| < 0x100 && i + 1 < 6 + |payload| && i != 3 && i + 1 != 3
    requires var frame := Frame(opcode, payload, RESPONSE, sequence); x != frame[i] || y != frame[i + 1]
    ensures Decode((Frame(opcode, payload, RESPONSE, sequence) + padding)[i := x][i + 1 := y]) == None
  {
    var frame := Frame(opcode, payload, RESPONSE, sequence);
    var report := (frame + padding)[i := x][i + 1 := y];
    LengthByte(|payload|);
    assert report[3] as int == |payload|;
    FrameChecks(opcode, payload, RESPONSE, sequence);
    ChangedPairFails(frame, i, x, y);
    assert report[..6 + |payload|] == frame[i := x][i + 1 := y];
  }
}

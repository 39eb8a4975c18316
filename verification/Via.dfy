// The keyboard as the host sees it: VIA commands plus the commands that the
// generated firmware answers itself.  A request changes the device through
// `Exec` and is answered by `Reply`; both are total on `Request`.
module Via {
  import opened Bytes

  const ID_GET_PROTOCOL_VERSION: u8 := 0x01
  const ID_GET_KEYBOARD_VALUE: u8 := 0x02
  const ID_SET_KEYBOARD_VALUE: u8 := 0x03
  const ID_GET_KEYCODE: u8 := 0x04
  const ID_SET_KEYCODE: u8 := 0x05
  const ID_MACRO_GET_COUNT: u8 := 0x0c
  const ID_MACRO_GET_BUFFER_SIZE: u8 := 0x0d
  const ID_MACRO_GET_BUFFER: u8 := 0x0e
  const ID_MACRO_SET_BUFFER: u8 := 0x0f
  const ID_UNHANDLED: u8 := 0xff
  const ID_LAYOUT_OPTIONS: u8 := 0x02
  const SYNC_LAYER: u8 := 0x4c
  const SYNC_QUERY: u8 := 0x54
  const SYNC_VERSION: u8 := 2
  const LEGACY_SYNC_VERSION: u8 := 1
  const SYNC_MAGIC: seq<u8> := [0x53, 0x4c, 0x35, 0x34, 0x53, 0x59, 0x4e]  // SL54SYN
  const LAYER_MAGIC: seq<u8> := [0x4b, 0x42, 0x4c, 0x41, 0x59, 0x52]       // KBLAYR
  const CHUNK: nat := 28

  type Hash = s: seq<u8> | |s| == 8 witness Zeros(8)

  type MacroBytes = s: seq<u8> | |s| < 0x1_0000 witness []

  datatype Cell = Cell(layer: u8, row: u8, col: u8)

  // What is fixed when the firmware is built.
  datatype Firmware = Firmware(
    abi: Hash, runtime: Hash, keymapHash: Hash,
    layerCount: u8, macroCount: u8, rows: u8, cols: u8, half: u8, protocol: u16)

  // A cell outside the keymap reads as zero and ignores writes.
  datatype Device = Device(
    firmware: Firmware, keymap: map<Cell, u16>, layout: u32, macros: MacroBytes, layer: u8)

  // The commands of silakka54-sync that leave the keyboard running.
  predicate Command(r: Report)
  {
    || r[0] in {ID_GET_PROTOCOL_VERSION, ID_GET_KEYCODE, ID_SET_KEYCODE, ID_MACRO_GET_COUNT, ID_MACRO_GET_BUFFER_SIZE}
    || (r[0] == ID_GET_KEYBOARD_VALUE && r[1] in {ID_LAYOUT_OPTIONS, SYNC_QUERY, SYNC_LAYER})
    || (r[0] == ID_SET_KEYBOARD_VALUE && r[1] == ID_LAYOUT_OPTIONS)
    || (r[0] in {ID_MACRO_GET_BUFFER, ID_MACRO_SET_BUFFER} && r[3] <= CHUNK)
  }

  predicate IsWrite(r: Report)
  {
    || r[0] in {ID_SET_KEYBOARD_VALUE, ID_SET_KEYCODE, ID_MACRO_SET_BUFFER}
    || (r[0] == ID_GET_KEYBOARD_VALUE && r[1] == SYNC_LAYER)
  }

  function Lookup(keymap: map<Cell, u16>, c: Cell): u16
  {
    if c in keymap then keymap[c] else 0
  }

  function Store(keymap: map<Cell, u16>, c: Cell, code: u16): map<Cell, u16>
  {
    if c in keymap then keymap[c := code] else keymap
  }

  function MacroAt(macros: MacroBytes, i: nat): u8
  {
    if i < |macros| then macros[i] else 0
  }

  // Bytes written past the end of the buffer are dropped.
  function Splice(macros: MacroBytes, offset: nat, data: seq<u8>): (m: MacroBytes)
    ensures |m| == |macros|
    ensures forall i :: 0 <= i < |m| ==> m[i] == if offset <= i < offset + |data| then data[i - offset] else macros[i]
  {
    seq(|macros|, i requires 0 <= i < |macros| => if offset <= i < offset + |data| then data[i - offset] else macros[i])
  }

  function CellOf(r: Report): Cell { Cell(r[1], r[2], r[3]) }

  function LayerTarget(r: Report): u8 { r[3] }

  predicate AnswersSync(r: Report)
  {
    r[0] == ID_GET_KEYBOARD_VALUE && r[2] == SYNC_VERSION
  }

  function Exec(d: Device, r: Report): Device
  {
    if r[0] == ID_SET_KEYBOARD_VALUE && r[1] == ID_LAYOUT_OPTIONS then
      d.(layout := BigEndian32(r[2], r[3], r[4], r[5]))
    else if r[0] == ID_SET_KEYCODE then
      d.(keymap := Store(d.keymap, CellOf(r), BigEndian16(r[4], r[5])))
    else if r[0] == ID_MACRO_SET_BUFFER && r[3] <= CHUNK then
      d.(macros := Splice(d.macros, BigEndian16(r[1], r[2]), r[4..4 + r[3]]))
    else if AnswersSync(r) && r[1] == SYNC_LAYER && LayerTarget(r) < d.firmware.layerCount then
      d.(layer := LayerTarget(r))
    else
      d
  }

  // The body of a version 2 status page, from byte 11 on.
  function Page(f: Firmware, page: u8): (s: seq<u8>)
    ensures |s| == 21
  {
    if page == 0 then [f.layerCount, f.macroCount, f.rows, f.cols, f.half] + Zeros(16)
    else if page == 1 then f.abi + f.runtime + Zeros(5)
    else if page == 2 then f.keymapHash + Zeros(13)
    else Zeros(21)
  }

  function MacroReplyByte(macros: MacroBytes, r: Report, i: nat): u8
    requires i < REPORT_LEN
  {
    if 4 <= i && i - 4 < r[3] then MacroAt(macros, BigEndian16(r[1], r[2]) + (i - 4)) else r[i]
  }

  function MacroReply(macros: MacroBytes, r: Report): (s: Report)
    ensures s[..4] == r[..4]
    ensures forall i :: 4 <= i < REPORT_LEN && i - 4 < r[3] ==>
      s[i] == MacroAt(macros, BigEndian16(r[1], r[2]) + (i - 4))
  {
    seq(REPORT_LEN, i requires 0 <= i < REPORT_LEN => MacroReplyByte(macros, r, i))
  }

  function Reply(d: Device, r: Report): Report
  {
    if r[0] == ID_GET_PROTOCOL_VERSION then
      r[1 := High(d.firmware.protocol)][2 := Low(d.firmware.protocol)]
    else if AnswersSync(r) && r[1] == SYNC_QUERY then
      [r[0], SYNC_QUERY, SYNC_VERSION, r[3]] + SYNC_MAGIC + Page(d.firmware, r[3])
    else if AnswersSync(r) && r[1] == SYNC_LAYER then
      var valid := LayerTarget(r) < d.firmware.layerCount;
      [r[0], SYNC_LAYER, SYNC_VERSION, r[3]] + SYNC_MAGIC
      + [if valid then 0 else 1, if valid then LayerTarget(r) else d.layer] + Zeros(19)
    else if r[0] == ID_GET_KEYBOARD_VALUE && r[1] == ID_LAYOUT_OPTIONS then
      r[..2] + Bytes32(d.layout) + r[6..]
    else if r[0] == ID_GET_KEYCODE then
      r[4 := High(Lookup(d.keymap, CellOf(r)))][5 := Low(Lookup(d.keymap, CellOf(r)))]
    else if r[0] == ID_MACRO_GET_COUNT then
      r[1 := d.firmware.macroCount]
    else if r[0] == ID_MACRO_GET_BUFFER_SIZE then
      r[1 := High(|d.macros|)][2 := Low(|d.macros|)]
    else if r[0] == ID_MACRO_GET_BUFFER && r[3] <= CHUNK then
      MacroReply(d.macros, r)
    else if IsWrite(r) && r[0] != ID_GET_KEYBOARD_VALUE then
      r
    else
      r[0 := ID_UNHANDLED]
  }

  function ResponseMatchesRequest(request: Report, response: Report): bool
  {
    response[0] == request[0] &&
    if request[0] == ID_GET_KEYBOARD_VALUE && (request[1] == SYNC_QUERY || request[1] == SYNC_LAYER) then
      && response[1] == request[1]
      && response[2] == request[2]
      && (request[2] == LEGACY_SYNC_VERSION || response[3] == request[3])
    else if request[0] == ID_GET_KEYBOARD_VALUE then
      response[1] == request[1]
    else if request[0] == ID_SET_KEYBOARD_VALUE then
      response[1..6] == request[1..6]
    else if request[0] == ID_GET_KEYCODE then
      response[1..4] == request[1..4]
    else if request[0] == ID_SET_KEYCODE then
      response[1..6] == request[1..6]
    else if request[0] == ID_MACRO_GET_BUFFER || request[0] == ID_MACRO_SET_BUFFER then
      response[1..4] == request[1..4]
    else
      true
  }

  // The leading bytes by which a reply is recognised.
  ghost function KeyLength(r: Report): (n: nat)
    ensures 1 <= n <= 6
  {
    if r[0] == ID_GET_KEYBOARD_VALUE && (r[1] == SYNC_QUERY || r[1] == SYNC_LAYER) then
      if r[2] == LEGACY_SYNC_VERSION then 3 else 4
    else if r[0] == ID_GET_KEYBOARD_VALUE then 2
    else if r[0] == ID_SET_KEYBOARD_VALUE || r[0] == ID_SET_KEYCODE then 6
    else if r[0] in {ID_GET_KEYCODE, ID_MACRO_GET_BUFFER, ID_MACRO_SET_BUFFER} then 4
    else 1
  }

  ghost function Key(r: Report): seq<u8> { r[..KeyLength(r)] }

  // Two requests that cannot be mistaken for each other: their keys differ
  // somewhere inside both.
  ghost predicate Distinct(a: Report, b: Report)
  {
    exists i :: 0 <= i < KeyLength(a) && i < KeyLength(b) && a[i] != b[i]
  }

  // A report the keyboard sends of its own accord when its layer changes.
  predicate LayerReport(r: Report) { r[..6] == LAYER_MAGIC }

  lemma MatchIsKeyPrefix(request: Report, response: Report)
    ensures ResponseMatchesRequest(request, response) <==> response[..KeyLength(request)] == Key(request)
  {
    var n := KeyLength(request);
    if response[..n] == Key(request) {
      forall i | 0 <= i < n ensures response[i] == request[i] {
        assert response[i] == response[..n][i];
      }
    }
    if ResponseMatchesRequest(request, response) {
      if n == 6 {
        forall i | 1 <= i < 6 ensures response[i] == request[i] {
          assert response[1..6][i - 1] == request[1..6][i - 1];
        }
      } else if n == 4 && request[0] != ID_GET_KEYBOARD_VALUE {
        forall i | 1 <= i < 4 ensures response[i] == request[i] {
          assert response[1..4][i - 1] == request[1..4][i - 1];
        }
      }
      forall i | 0 <= i < n ensures response[i] == request[i] {}
    }
  }

  // Every command echoes its key or is refused outright.
  lemma ReplyEchoesKey(d: Device, r: Report)
    ensures Reply(d, r)[..KeyLength(r)] == Key(r) || Reply(d, r)[0] == ID_UNHANDLED
  {
    var s := Reply(d, r);
    if s[0] != ID_UNHANDLED {
      forall i | 0 <= i < KeyLength(r) ensures s[i] == r[i] {}
    }
  }

  // A handled command is answered by a reply its own request accepts.
  lemma OwnReplyMatches(d: Device, r: Report)
    requires Reply(d, r)[0] != ID_UNHANDLED
    ensures ResponseMatchesRequest(r, Reply(d, r))
  {
    ReplyEchoesKey(d, r);
    MatchIsKeyPrefix(r, Reply(d, r));
  }

  lemma DistinctKeysClash(a: Report, b: Report, s: Report)
    requires Distinct(a, b) && s[..KeyLength(b)] == Key(b)
    ensures s[..KeyLength(a)] != Key(a)
  {
    var i :| 0 <= i < KeyLength(a) && i < KeyLength(b) && a[i] != b[i];
    assert s[i] == s[..KeyLength(b)][i] == b[i];
    assert s[..KeyLength(a)][i] != Key(a)[i];
  }

  // The reply to a distinct request is never accepted.
  lemma DistinctNeverMatches(request: Report, other: Report, d: Device)
    requires Command(request) && Distinct(request, other)
    ensures !ResponseMatchesRequest(request, Reply(d, other))
  {
    var s := Reply(d, other);
    MatchIsKeyPrefix(request, s);
    ReplyEchoesKey(d, other);
    if s[0] == ID_UNHANDLED {
      assert s[..KeyLength(request)][0] != Key(request)[0];
    } else {
      DistinctKeysClash(request, other, s);
    }
  }

  // Sending the same command again changes nothing and is answered alike.
  lemma ExecIdempotent(d: Device, r: Report)
    ensures Exec(Exec(d, r), r) == Exec(d, r)
    ensures Reply(Exec(d, r), r) == Reply(d, r)
  {
    if r[0] == ID_MACRO_SET_BUFFER && r[3] <= CHUNK {
      var once, twice := Exec(d, r), Exec(Exec(d, r), r);
      assert twice.macros == once.macros;
    }
  }
}

// Layout options and the macro buffer, moved in chunks of 28 bytes.
module ViaSync {
  import opened Wrappers
  import opened Bytes
  import opened Via
  import opened Channel
  import opened HidHost
  import opened KeymapSync
  import MacroCodec

  function LayoutRequest(): Request
  {
    [ID_GET_KEYBOARD_VALUE, ID_LAYOUT_OPTIONS] + Zeros(30)
  }

  function SetLayoutRequest(value: u32): Request
  {
    [ID_SET_KEYBOARD_VALUE, ID_LAYOUT_OPTIONS] + Bytes32(value) + Zeros(26)
  }

  function CountRequest(): Request { [ID_MACRO_GET_COUNT] + Zeros(31) }

  function SizeRequest(): Request { [ID_MACRO_GET_BUFFER_SIZE] + Zeros(31) }

  function ReadChunkRequest(offset: u16, size: nat): Request
    requires size <= CHUNK
  {
    [ID_MACRO_GET_BUFFER, High(offset), Low(offset), size] + Zeros(28)
  }

  function WriteChunkRequest(offset: u16, data: seq<u8>): Request
    requires |data| <= CHUNK
  {
    [ID_MACRO_SET_BUFFER, High(offset), Low(offset), |data|] + data + Zeros(28 - |data|)
  }

  function Min(a: nat, b: nat): nat { if a < b then a else b }

  // One command after another: its effect happens once, its reply is current.
  method Transact(host: Connection, report: Request, ghost last: Request) returns (result: Result<Report, SyncError>)
    requires Quiet(host.net, last) && Distinct(report, last)
    modifies host
    ensures result.Ok? ==>
      && Quiet(host.net, report)
      && host.net.device == Exec(old(host.net.device), report)
      && result.value == Reply(old(host.net.device), report)
    ensures OnlyAdds(old(host.sent), host.sent, report)
    ensures result.Err? ==>
      result.error.Transport? && EndsIn(host.net, old(host.net.device), Exec(old(host.net.device), report))
  {
    ghost var start := host.net;
    QuietIsReady(start, last, report);
    var outcome := host.RawTransaction(report, report[0], SECOND);
    if outcome.Err? {
      QuietAbandoned(start, last, report, host.net);
      return Err(Transport(outcome.error));
    }
    QuietTransacted(start, last, report, outcome.value, host.net);
    return Ok(outcome.value);
  }

  // A command that only reads.
  method Query(host: Connection, report: Request, ghost last: Request) returns (result: Result<Report, SyncError>)
    requires Quiet(host.net, last) && Distinct(report, last) && !IsWrite(report)
    modifies host
    ensures NoWriteSince(old(host.sent), host.sent)
    ensures host.net.device == old(host.net.device)
    ensures result.Ok? ==> Quiet(host.net, report) && result.value == Reply(host.net.device, report)
    ensures result.Err? ==> result.error.Transport? && EndsIn(host.net, host.net.device, host.net.device)
  {
    ghost var device := host.net.device;
    result := Transact(host, report, last);
    if result.Err? { EndsNow(host.net, device, device); }
  }

  method GetLayoutOptions(host: Connection, ghost last: Request) returns (result: Result<u32, SyncError>)
    requires Quiet(host.net, last) && Distinct(LayoutRequest(), last)
    modifies host
    ensures NoWriteSince(old(host.sent), host.sent)
    ensures host.net.device == old(host.net.device)
    ensures result.Ok? ==> Quiet(host.net, LayoutRequest()) && result.value == host.net.device.layout
    ensures result.Err? ==> result.error.Transport? && EndsIn(host.net, host.net.device, host.net.device)
  {
    var outcome := Query(host, LayoutRequest(), last);
    if outcome.Err? {
      return Err(outcome.error);
    }
    var r := outcome.value;
    return Ok(BigEndian32(r[2], r[3], r[4], r[5]));
  }

  method SetLayoutOptions(host: Connection, value: u32, ghost last: Request) returns (result: Result<(), SyncError>)
    requires Quiet(host.net, last) && Distinct(SetLayoutRequest(value), last)
    modifies host
    ensures result.Ok? ==> Quiet(host.net, SetLayoutRequest(value))
    ensures result.Ok? ==> host.net.device == old(host.net.device).(layout := value)
    ensures result.Err? ==>
      && result.error.Transport?
      && EndsIn(host.net, old(host.net.device), old(host.net.device).(layout := value))
  {
    var outcome := Transact(host, SetLayoutRequest(value), last);
    if outcome.Err? {
      return Err(outcome.error);
    }
    return Ok(());
  }

  method MacroCapacity(host: Connection, ghost last: Request) returns (result: Result<u8, SyncError>)
    requires Quiet(host.net, last) && Distinct(CountRequest(), last)
    modifies host
    ensures NoWriteSince(old(host.sent), host.sent)
    ensures host.net.device == old(host.net.device)
    ensures result.Ok? ==> Quiet(host.net, CountRequest()) && result.value == host.net.device.firmware.macroCount
    ensures result.Err? ==> result.error.Transport? && EndsIn(host.net, host.net.device, host.net.device)
  {
    var outcome := Query(host, CountRequest(), last);
    if outcome.Err? {
      return Err(outcome.error);
    }
    return Ok(outcome.value[1]);
  }

  method MacroBufferSize(host: Connection, ghost last: Request) returns (result: Result<nat, SyncError>)
    requires Quiet(host.net, last) && Distinct(SizeRequest(), last)
    modifies host
    ensures NoWriteSince(old(host.sent), host.sent)
    ensures host.net.device == old(host.net.device)
    ensures result.Ok? ==> Quiet(host.net, SizeRequest()) && result.value == |host.net.device.macros|
    ensures result.Err? ==> result.error.Transport? && EndsIn(host.net, host.net.device, host.net.device)
  {
    var outcome := Query(host, SizeRequest(), last);
    if outcome.Err? {
      return Err(outcome.error);
    }
    return Ok(BigEndian16(outcome.value[1], outcome.value[2]));
  }

  // The macro bytes as the keyboard returns them, zero past its buffer.
  function Window(macros: MacroBytes, offset: nat, size: nat): (w: seq<u8>)
    ensures |w| == size
  {
    seq<u8>(size, i requires 0 <= i < size => MacroAt(macros, offset + i))
  }

  lemma ChunkReply(d: Device, offset: u16, size: nat)
    requires size <= CHUNK
    ensures Reply(d, ReadChunkRequest(offset, size))[4..4 + size] == Window(d.macros, offset, size)
  {
    var r := ReadChunkRequest(offset, size);
    assert BigEndian16(r[1], r[2]) == offset && r[3] == size;
    MacroReplyBytes(d.macros, r, offset, size);
    assert Reply(d, r) == MacroReply(d.macros, r);
  }

  lemma MacroReplyAt(macros: MacroBytes, r: Request, i: nat)
    requires i < r[3] <= CHUNK
    ensures MacroReply(macros, r)[4 + i] == MacroAt(macros, BigEndian16(r[1], r[2]) + i)
  {
    var at := 4 + i;
    assert MacroReply(macros, r)[at] == MacroAt(macros, BigEndian16(r[1], r[2]) + (at - 4));
  }

  lemma MacroReplyBytes(macros: MacroBytes, r: Request, offset: u16, size: nat)
    requires size <= CHUNK && BigEndian16(r[1], r[2]) == offset && r[3] == size
    ensures MacroReply(macros, r)[4..4 + size] == Window(macros, offset, size)
  {
    var window := Window(macros, offset, size);
    WindowBytes(macros, offset, size);
    forall i | 0 <= i < size ensures window[i] == MacroReply(macros, r)[4 + i] {
      MacroReplyAt(macros, r, i);
    }
    SliceEqual(MacroReply(macros, r), 4, window);
  }

  lemma SliceEqual(s: seq<u8>, start: nat, t: seq<u8>)
    requires start + |t| <= |s| && forall i :: 0 <= i < |t| ==> t[i] == s[start + i]
    ensures s[start..start + |t|] == t
  {
  }

  // `last` is the transfer of the chunk before `offset`, or what came before
  // the first chunk.
  ghost predicate ChunkBefore(id: u8, first: Request, last: Request, offset: nat)
  {
    if offset == 0 then
      last == first
    else
      CHUNK <= offset && offset - CHUNK < 0x1_0000
      && last[0] == id && last[1] == High(offset - CHUNK) && last[2] == Low(offset - CHUNK)
  }

  lemma NextChunkDistinct(r: Request, first: Request, last: Request, offset: u16)
    requires r[0] in {ID_MACRO_GET_BUFFER, ID_MACRO_SET_BUFFER} && r[1] == High(offset) && r[2] == Low(offset)
    requires first[0] != r[0] && ChunkBefore(r[0], first, last, offset)
    ensures Distinct(r, last)
  {
    DistinctAt(r, last, if offset == 0 then 0 else 2);
  }

  method ReadChunk(host: Connection, offset: u16, size: nat, ghost last: Request)
    returns (result: Result<seq<u8>, SyncError>)
    requires size <= CHUNK
    requires Quiet(host.net, last) && Distinct(ReadChunkRequest(offset, size), last)
    modifies host
    ensures NoWriteSince(old(host.sent), host.sent)
    ensures host.net.device == old(host.net.device)
    ensures result.Ok? ==>
      Quiet(host.net, ReadChunkRequest(offset, size)) && result.value == Window(host.net.device.macros, offset, size)
    ensures result.Err? ==> result.error.Transport? && EndsIn(host.net, host.net.device, host.net.device)
  {
    var outcome := Query(host, ReadChunkRequest(offset, size), last);
    if outcome.Err? {
      return Err(outcome.error);
    }
    ChunkReply(host.net.device, offset, size);
    return Ok(outcome.value[4..4 + size]);
  }

  method GetMacroBuffer(host: Connection, size: nat, ghost first: Request)
    returns (result: Result<seq<u8>, SyncError>, ghost last: Request)
    requires Quiet(host.net, first) && first[0] != ID_MACRO_GET_BUFFER
    modifies host
    ensures NoWriteSince(old(host.sent), host.sent)
    ensures host.net.device == old(host.net.device)
    ensures result.Ok? ==> Quiet(host.net, last) && (last == first || last[0] == ID_MACRO_GET_BUFFER)
    ensures result.Ok? ==> result.value == Window(host.net.device.macros, 0, size)
    ensures result.Err? ==> EndsIn(host.net, host.net.device, host.net.device)
    ensures size < 0x1_0000 && result.Err? ==> result.error.Transport?
  {
    var buffer := new u8[size](_ => 0);
    var offset: nat := 0;
    last := first;
    while offset < size
      invariant host.net.device == old(host.net.device)
      invariant Quiet(host.net, last) && NoWriteSince(old(host.sent), host.sent)
      invariant ChunkBefore(ID_MACRO_GET_BUFFER, first, last, offset)
      invariant buffer[..Min(offset, size)] == Window(host.net.device.macros, 0, Min(offset, size))
    {
      var chunkSize := Min(size - offset, CHUNK);
      if offset >= 0x1_0000 {
        QuietStays(host.net, last);
        return Err(BufferTooLarge), last;
      }
      NextChunkDistinct(ReadChunkRequest(offset, chunkSize), first, last, offset);
      var chunk := ReadChunk(host, offset, chunkSize, last);
      if chunk.Err? {
        return Err(chunk.error), last;
      }
      last := ReadChunkRequest(offset, chunkSize);
      CopyInto(buffer, offset, chunk.value);
      WindowAppend(host.net.device.macros, offset, chunkSize);
      offset := offset + CHUNK;
    }
    assert buffer[..] == buffer[..Min(offset, size)];
    return Ok(buffer[..]), last;
  }

  method CopyInto(buffer: array<u8>, offset: nat, data: seq<u8>)
    requires offset + |data| <= buffer.Length
    modifies buffer
    ensures buffer[..] == old(buffer[..offset]) + data + old(buffer[offset + |data|..])
    ensures buffer[..offset + |data|] == old(buffer[..offset]) + data
  {
    forall i | 0 <= i < |data| {
      buffer[offset + i] := data[i];
    }
  }

  lemma WindowBytes(macros: MacroBytes, offset: nat, size: nat)
    ensures forall i :: 0 <= i < size ==> Window(macros, offset, size)[i] == MacroAt(macros, offset + i)
  {
  }

  lemma WindowAppend(macros: MacroBytes, offset: nat, size: nat)
    ensures Window(macros, 0, offset + size) == Window(macros, 0, offset) + Window(macros, offset, size)
  {
  }

  lemma WindowIsBuffer(macros: MacroBytes)
    ensures Window(macros, 0, |macros|) == macros
  {
    WindowBytes(macros, 0, |macros|);
    forall i | 0 <= i < |macros| ensures Window(macros, 0, |macros|)[i] == macros[i] {
      assert MacroAt(macros, 0 + i) == macros[i];
    }
  }

  // ----- writing -----

  function Spliced(d: Device, offset: nat, data: seq<u8>): Device
  {
    d.(macros := Splice(d.macros, offset, data))
  }

  method WriteChunk(host: Connection, offset: u16, data: seq<u8>, ghost last: Request)
    returns (result: Result<(), SyncError>)
    requires |data| <= CHUNK
    requires Quiet(host.net, last) && Distinct(WriteChunkRequest(offset, data), last)
    modifies host
    ensures result.Ok? ==> Quiet(host.net, WriteChunkRequest(offset, data))
    ensures result.Ok? ==> host.net.device == Spliced(old(host.net.device), offset, data)
    ensures result.Err? ==>
      result.error.Transport? && EndsIn(host.net, old(host.net.device), Spliced(old(host.net.device), offset, data))
  {
    var r := WriteChunkRequest(offset, data);
    assert BigEndian16(r[1], r[2]) == offset && r[4..4 + r[3]] == data;
    var outcome := Transact(host, r, last);
    if outcome.Err? {
      return Err(outcome.error);
    }
    return Ok(());
  }

  lemma SpliceNext(before: MacroBytes, buffer: seq<u8>, offset: nat, size: nat)
    requires offset + size <= |buffer|
    ensures Splice(Splice(before, 0, buffer[..offset]), offset, buffer[offset..offset + size])
         == Splice(before, 0, buffer[..offset + size])
  {
  }

  // The first k bytes of the buffer have been written.
  ghost predicate PrefixWritten(before: Device, buffer: seq<u8>, k: nat, after: Device)
  {
    k <= |buffer| && after == before.(macros := Splice(before.macros, 0, buffer[..k]))
  }

  ghost predicate SomePrefixWritten(before: Device, buffer: seq<u8>, after: Device)
  {
    exists k: nat :: PrefixWritten(before, buffer, k, after)
  }

  lemma NextPrefix(before: Device, buffer: seq<u8>, offset: nat, size: nat, middle: Device, after: Device)
    requires offset + size <= |buffer| && PrefixWritten(before, buffer, offset, middle)
    requires after == Spliced(middle, offset, buffer[offset..offset + size])
    ensures PrefixWritten(before, buffer, offset + size, after)
  {
    SpliceNext(before.macros, buffer, offset, size);
  }

  // Some leading part has been written, now and when the last requests are
  // delivered later.
  ghost predicate PrefixWrittenLater(before: Device, buffer: seq<u8>, net: Net)
  {
    forall events :: SomePrefixWritten(before, buffer, Run(net, events).device)
  }

  lemma PrefixStays(before: Device, buffer: seq<u8>, k: nat, net: Net)
    requires PrefixWritten(before, buffer, k, net.device) && EndsIn(net, net.device, net.device)
    ensures PrefixWrittenLater(before, buffer, net)
  {
    forall events ensures SomePrefixWritten(before, buffer, Run(net, events).device) {
      assert Run(net, events).device == net.device;
    }
  }

  lemma ChunkAbandoned(before: Device, buffer: seq<u8>, offset: nat, size: nat, middle: Device, net: Net)
    requires offset + size <= |buffer| && PrefixWritten(before, buffer, offset, middle)
    requires EndsIn(net, middle, Spliced(middle, offset, buffer[offset..offset + size]))
    ensures PrefixWrittenLater(before, buffer, net)
  {
    var after := Spliced(middle, offset, buffer[offset..offset + size]);
    NextPrefix(before, buffer, offset, size, middle, after);
    forall events ensures SomePrefixWritten(before, buffer, Run(net, events).device) {
      var d := Run(net, events).device;
      assert PrefixWritten(before, buffer, offset, d) || PrefixWritten(before, buffer, offset + size, d);
    }
  }

  // On failure the chunks before some point have been written.
  method SetMacroBuffer(host: Connection, buffer: seq<u8>, ghost first: Request)
    returns (result: Result<(), SyncError>, ghost last: Request)
    requires Quiet(host.net, first) && first[0] != ID_MACRO_SET_BUFFER
    modifies host
    ensures result.Ok? ==>
      Quiet(host.net, last) && (if buffer == [] then last == first else last[0] == ID_MACRO_SET_BUFFER)
    ensures result.Err? ==> PrefixWrittenLater(old(host.net.device), buffer, host.net)
    ensures result.Ok? ==> PrefixWritten(old(host.net.device), buffer, |buffer|, host.net.device)
    ensures |buffer| < 0x1_0000 && result.Err? ==> result.error.Transport?
  {
    ghost var device := host.net.device;
    var offset: nat := 0;
    last := first;
    while offset < |buffer|
      invariant Quiet(host.net, last)
      invariant ChunkBefore(ID_MACRO_SET_BUFFER, first, last, offset)
      invariant buffer == [] ==> offset == 0
      invariant PrefixWritten(device, buffer, Min(offset, |buffer|), host.net.device)
    {
      var chunkSize := Min(|buffer| - offset, CHUNK);
      if offset >= 0x1_0000 {
        QuietStays(host.net, last);
        PrefixStays(device, buffer, offset, host.net);
        return Err(BufferTooLarge), last;
      }
      var data := buffer[offset..offset + chunkSize];
      NextChunkDistinct(WriteChunkRequest(offset, data), first, last, offset);
      ghost var middle := host.net.device;
      var written := WriteChunk(host, offset, data, last);
      if written.Err? {
        ChunkAbandoned(device, buffer, offset, chunkSize, middle, host.net);
        return Err(written.error), last;
      }
      NextPrefix(device, buffer, offset, chunkSize, middle, host.net.device);
      last := WriteChunkRequest(offset, data);
      offset := offset + CHUNK;
    }
    return Ok(()), last;
  }

  // ----- the whole synchronisation -----

  datatype Changes = Changes(layout: bool, macros: bool)

  ghost predicate LastIs(last: Request, id: u8) { last[0] == id }

  // The first command after the connection was opened.
  method FirstLayoutOptions(host: Connection) returns (result: Result<u32, SyncError>)
    requires Ready(host.net, LayoutRequest())
    modifies host
    ensures NoWriteSince(old(host.sent), host.sent)
    ensures Applied(old(host.net).device, old(host.net).toDevice, host.net.device)
    ensures AppliedLater(old(host.net), host.net)
    ensures result.Ok? ==> Quiet(host.net, LayoutRequest()) && result.value == host.net.device.layout
    ensures result.Err? ==> result.error.Transport?
  {
    ghost var start := host.net;
    var outcome := host.RawTransaction(LayoutRequest(), ID_GET_KEYBOARD_VALUE, SECOND);
    if outcome.Err? {
      ReadAbandoned(start, LayoutRequest(), host.net);
      return Err(Transport(outcome.error));
    }
    var r := outcome.value;
    ReadTransacted(start, LayoutRequest(), r, host.net);
    TransactedIsQuiet(start, LayoutRequest(), r, host.net);
    return Ok(BigEndian32(r[2], r[3], r[4], r[5]));
  }

  // The options are the old or the desired ones.
  ghost predicate LayoutOrNot(start: Net, desired: u32, d: Device)
  {
    exists base :: Applied(start.device, start.toDevice, base) && (d == base || d == base.(layout := desired))
  }

  ghost predicate LayoutOrNotLater(start: Net, desired: u32, net: Net)
  {
    forall events :: LayoutOrNot(start, desired, Run(net, events).device)
  }

  // `base` is the device once the requests left over from before took effect.
  method SyncLayout(host: Connection, desired: u32) returns (result: Result<bool, SyncError>, ghost base: Device)
    requires Ready(host.net, LayoutRequest())
    modifies host
    ensures Applied(old(host.net).device, old(host.net).toDevice, base)
    ensures result.Ok? ==>
      && Quiet(host.net, LayoutRequest()) && result.value == (base.layout != desired)
      && host.net.device == base.(layout := desired)
    ensures result == Ok(false) ==> NoWriteSince(old(host.sent), host.sent)
    ensures result.Err? ==> result.error.Transport? && LayoutOrNotLater(old(host.net), desired, host.net)
  {
    var current := FirstLayoutOptions(host);
    base := host.net.device;
    if current.Err? {
      return Err(current.error), base;
    }
    if current.value != desired {
      DistinctAt(SetLayoutRequest(desired), LayoutRequest(), 0);
      var written := SetLayoutOptions(host, desired, LayoutRequest());
      if written.Err? {
        return Err(written.error), base;
      }
      DistinctAt(LayoutRequest(), SetLayoutRequest(desired), 0);
      current := GetLayoutOptions(host, SetLayoutRequest(desired));
      if current.Err? {
        return Err(current.error), base;
      }
      if current.value != desired {
        return Err(NotVerified), base;
      }
      return Ok(true), base;
    }
    return Ok(false), base;
  }

  method SyncMacros(host: Connection, expected: seq<u8>, ghost first: Request) returns (result: Result<bool, SyncError>)
    requires Quiet(host.net, first) && LastIs(first, ID_MACRO_GET_BUFFER_SIZE)
    requires |expected| == |host.net.device.macros|
    modifies host
    ensures result.Ok? ==>
      && host.net.device == old(host.net.device).(macros := expected)
      && result.value == (old(host.net.device.macros) != expected)
    ensures result == Ok(false) ==> NoWriteSince(old(host.sent), host.sent)
    ensures result.Err? ==> result.error.Transport? && PrefixWrittenLater(old(host.net.device), expected, host.net)
  {
    ghost var device := host.net.device;
    var size := |expected|;
    WindowIsBuffer(device.macros);
    assert device.macros == Splice(device.macros, 0, expected[..0]);
    assert PrefixWritten(device, expected, 0, device);
    var current, last := GetMacroBuffer(host, size, first);
    if current.Err? {
      PrefixStays(device, expected, 0, host.net);
      return Err(current.error);
    }
    if current.value == expected {
      return Ok(false);
    }
    var written;
    written, last := SetMacroBuffer(host, expected, last);
    if written.Err? {
      return Err(written.error);
    }
    assert expected[..|expected|] == expected;
    assert host.net.device.macros == expected;
    current, last := GetMacroBuffer(host, size, last);
    if current.Err? {
      PrefixStays(device, expected, |expected|, host.net);
      return Err(current.error);
    }
    WindowIsBuffer(host.net.device.macros);
    if current.value != expected {
      return Err(NotVerified);
    }
    return Ok(true);
  }

  // What the encoder said.
  function Encoding(e: SyncError): Option<MacroCodec.CodecError>
  {
    match e
    case TooManyMacros => Some(MacroCodec.TooManyMacros)
    case MacroTooLong(index) => Some(MacroCodec.MacroTooLong(index))
    case _ => None
  }

  method SyncViaState(host: Connection, layout: u32, macros: seq<MacroCodec.Text>)
    returns (result: Result<Changes, SyncError>, ghost base: Device)
    requires Ready(host.net, LayoutRequest())
    modifies host
    ensures Applied(old(host.net).device, old(host.net).toDevice, base)
    ensures result.Ok? ==>
      && host.net.device == base.(layout := layout, macros := host.net.device.macros)
      && MacroCodec.Encodes(macros, base.firmware.macroCount, |base.macros|, Ok(host.net.device.macros))
      && result.value == Changes(base.layout != layout, base.macros != host.net.device.macros)
    ensures result == Ok(Changes(false, false)) ==> NoWriteSince(old(host.sent), host.sent)
    ensures result.Err? && !result.error.Transport? ==>
      && host.net.device == base.(layout := layout)
      && (forall buffer :: !MacroCodec.Encodes(macros, base.firmware.macroCount, |base.macros|, Ok(buffer)))
      && Encoding(result.error).Some?
      && MacroCodec.Encodes(macros, base.firmware.macroCount, |base.macros|, Err(Encoding(result.error).value))
    ensures result.Err? ==> PartlySyncedLater(old(host.net), layout, macros, host.net)
  {
    ghost var start := host.net;
    var layoutChanged;
    layoutChanged, base := SyncLayout(host, layout);
    if layoutChanged.Err? {
      return Err(layoutChanged.error), base;
    }
    DistinctAt(CountRequest(), LayoutRequest(), 0);
    var capacity := MacroCapacity(host, LayoutRequest());
    if capacity.Err? {
      return Err(capacity.error), base;
    }
    DistinctAt(SizeRequest(), CountRequest(), 0);
    var size := MacroBufferSize(host, CountRequest());
    if size.Err? {
      return Err(size.error), base;
    }
    var expected := MacroCodec.DesiredMacroBuffer(macros, capacity.value, size.value);
    if expected.Err? {
      QuietStays(host.net, SizeRequest());
      return Err(if expected.error.MacroTooLong? then MacroTooLong(expected.error.index) else TooManyMacros), base;
    }
    var macrosChanged := SyncMacros(host, expected.value, SizeRequest());
    if macrosChanged.Err? {
      MacrosAbandoned(start, base, layout, macros, expected.value, host.net);
      return Err(macrosChanged.error), base;
    }
    return Ok(Changes(layoutChanged.value, macrosChanged.value)), base;
  }

  // Only the layout options and the macro buffer may differ from `base`; the
  // options are the old or the desired ones, and the buffer is the old one with
  // some leading part of the desired one copied over it.
  ghost predicate PartlySynced(base: Device, layout: u32, macros: seq<MacroCodec.Text>, now: Device)
  {
    && now == base.(layout := now.layout, macros := now.macros)
    && (now.layout == layout || now.layout == base.layout)
    && (now.macros != base.macros ==> exists buffer, k ::
        && MacroCodec.Encodes(macros, base.firmware.macroCount, |base.macros|, Ok(buffer))
        && 0 <= k <= |buffer| && now.macros == Splice(base.macros, 0, buffer[..k]))
  }

  ghost predicate PartlySyncedFrom(start: Net, layout: u32, macros: seq<MacroCodec.Text>, now: Device)
  {
    exists base :: Applied(start.device, start.toDevice, base) && PartlySynced(base, layout, macros, now)
  }

  // So it is at every failure, also when the last requests are delivered later.
  ghost predicate PartlySyncedLater(start: Net, layout: u32, macros: seq<MacroCodec.Text>, net: Net)
  {
    forall events :: PartlySyncedFrom(start, layout, macros, Run(net, events).device)
  }

  lemma MacrosAbandoned(
    start: Net, base: Device, layout: u32, macros: seq<MacroCodec.Text>, buffer: seq<u8>, net: Net)
    requires Applied(start.device, start.toDevice, base)
    requires MacroCodec.Encodes(macros, base.firmware.macroCount, |base.macros|, Ok(buffer))
    requires PrefixWrittenLater(base.(layout := layout), buffer, net)
    ensures PartlySyncedLater(start, layout, macros, net)
  {
    forall events ensures PartlySyncedFrom(start, layout, macros, Run(net, events).device) {
      var d := Run(net, events).device;
      assert SomePrefixWritten(base.(layout := layout), buffer, d);
      var k: nat :| PrefixWritten(base.(layout := layout), buffer, k, d);
      assert d.macros == Splice(base.macros, 0, buffer[..k]);
      assert PartlySynced(base, layout, macros, d);
    }
  }
}

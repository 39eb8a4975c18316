// Keymap synchronisation over an established connection.
module KeymapSync {
  import opened Wrappers
  import opened Bytes
  import opened Via
  import opened Channel
  import opened HidHost

  datatype SyncError =
    | Transport(cause: TransactionError)
    | NoSyncAnswer
    | MagicMismatch
    | AbiMismatch
    | NotVerified
    | TooManyMacros
    | MacroTooLong(index: nat)
    | BufferTooLarge

  datatype KeyEntry = KeyEntry(cell: Cell, keycode: u16)

  datatype Status = Status(
    abi: Hash, runtime: Hash, keymapHash: Hash, layerCount: u8, macroCount: u8, rows: u8, cols: u8, half: u8)

  function StatusOf(f: Firmware): Status
  {
    Status(f.abi, f.runtime, f.keymapHash, f.layerCount, f.macroCount, f.rows, f.cols, f.half)
  }

  function StatusRequest(page: u8): Request
  {
    [ID_GET_KEYBOARD_VALUE, SYNC_QUERY, SYNC_VERSION, page] + Zeros(28)
  }

  function GetKeycodeRequest(c: Cell): Request
  {
    [ID_GET_KEYCODE, c.layer, c.row, c.col] + Zeros(28)
  }

  function SetKeycodeRequest(e: KeyEntry): Request
  {
    [ID_SET_KEYCODE, e.cell.layer, e.cell.row, e.cell.col, High(e.keycode), Low(e.keycode)] + Zeros(26)
  }

  // ----- what a synchronisation means -----

  function StoreAll(keymap: map<Cell, u16>, entries: seq<KeyEntry>): map<Cell, u16>
    decreases |entries|
  {
    if entries == [] then keymap
    else
      var e := entries[|entries| - 1];
      Store(StoreAll(keymap, entries[..|entries| - 1]), e.cell, e.keycode)
  }

  function Drift(keymap: map<Cell, u16>, entries: seq<KeyEntry>): nat
    decreases |entries|
  {
    if entries == [] then 0
    else
      var e := entries[|entries| - 1];
      Drift(keymap, entries[..|entries| - 1]) + if Lookup(keymap, e.cell) != e.keycode then 1 else 0
  }

  ghost predicate DistinctCells(entries: seq<KeyEntry>)
  {
    forall i, j :: 0 <= i < j < |entries| ==> entries[i].cell != entries[j].cell
  }

  ghost predicate Mentions(entries: seq<KeyEntry>, c: Cell)
  {
    exists i :: 0 <= i < |entries| && entries[i].cell == c
  }

  // The older requests took effect, then every entry was stored once.
  ghost predicate SyncedFrom(start: Net, entries: seq<KeyEntry>, changed: nat, net: Net, base: Device)
  {
    && Applied(start.device, start.toDevice, base)
    && net.device == base.(keymap := StoreAll(base.keymap, entries))
    && changed == Drift(base.keymap, entries)
  }

  ghost predicate Synced(start: Net, entries: seq<KeyEntry>, changed: nat, net: Net)
  {
    exists base :: SyncedFrom(start, entries, changed, net, base)
  }

  // The first k entries are stored and no others.
  ghost predicate PrefixStored(base: Device, entries: seq<KeyEntry>, k: nat, d: Device)
  {
    k <= |entries| && d == base.(keymap := StoreAll(base.keymap, entries[..k]))
  }

  ghost predicate SomePrefixStored(start: Net, entries: seq<KeyEntry>, d: Device)
  {
    exists base, k: nat :: Applied(start.device, start.toDevice, base) && PrefixStored(base, entries, k, d)
  }

  // A synchronisation that failed stored the first k entries and no others,
  // also when its last requests are delivered later.
  ghost predicate PrefixSynced(start: Net, entries: seq<KeyEntry>, net: Net)
  {
    forall events :: SomePrefixStored(start, entries, Run(net, events).device)
  }

  ghost predicate Settled(net: Net)
  {
    forall i :: 0 <= i < |net.toDevice| ==> Exec(net.device, net.toDevice[i]) == net.device
  }

  ghost predicate NoWriteSince(before: seq<Request>, after: seq<Request>)
  {
    before <= after && forall i :: |before| <= i < |after| ==> !IsWrite(after[i])
  }

  lemma {:induction false} UnmentionedCellsKeep(keymap: map<Cell, u16>, entries: seq<KeyEntry>, c: Cell)
    requires !Mentions(entries, c)
    ensures Lookup(StoreAll(keymap, entries), c) == Lookup(keymap, c)
    ensures StoreAll(keymap, entries).Keys == keymap.Keys
    decreases |entries|
  {
    if entries != [] {
      var rest := entries[..|entries| - 1];
      assert forall i :: 0 <= i < |rest| ==> rest[i] == entries[i];
      UnmentionedCellsKeep(keymap, rest, c);
      assert entries[|entries| - 1].cell != c;
    }
  }

  lemma {:induction false} StoreAllKeepsKeys(keymap: map<Cell, u16>, entries: seq<KeyEntry>)
    ensures StoreAll(keymap, entries).Keys == keymap.Keys
    decreases |entries|
  {
    if entries != [] { StoreAllKeepsKeys(keymap, entries[..|entries| - 1]); }
  }

  // An entry ends at its desired code exactly when the keyboard has such a
  // cell (a missing cell reads as zero).
  lemma {:induction false} EntriesStored(keymap: map<Cell, u16>, entries: seq<KeyEntry>, i: nat)
    requires DistinctCells(entries) && i < |entries|
    ensures Lookup(StoreAll(keymap, entries), entries[i].cell) == entries[i].keycode
       <==> entries[i].cell in keymap || entries[i].keycode == 0
    decreases |entries|
  {
    var rest := entries[..|entries| - 1];
    StoreAllKeepsKeys(keymap, rest);
    if i < |rest| {
      EntriesStored(keymap, rest, i);
      assert entries[i] == rest[i];
    }
  }

  // Entries already stored do not disturb the reading of a later one.
  lemma LaterEntryUndisturbed(keymap: map<Cell, u16>, entries: seq<KeyEntry>, i: nat)
    requires DistinctCells(entries) && i < |entries|
    ensures Lookup(StoreAll(keymap, entries[..i]), entries[i].cell) == Lookup(keymap, entries[i].cell)
  {
    UnmentionedCellsKeep(keymap, entries[..i], entries[i].cell);
  }

  // Entries that no synchronisation can store: their cell is missing and their
  // code is not zero.
  function Missing(keymap: map<Cell, u16>, entries: seq<KeyEntry>): nat
    decreases |entries|
  {
    if entries == [] then 0
    else
      var e := entries[|entries| - 1];
      Missing(keymap, entries[..|entries| - 1]) + if e.cell !in keymap && e.keycode != 0 then 1 else 0
  }

  // After a synchronisation just these are left to change.
  lemma {:induction false} DriftAfterSync(keymap: map<Cell, u16>, entries: seq<KeyEntry>, k: nat)
    requires DistinctCells(entries) && k <= |entries|
    ensures Drift(StoreAll(keymap, entries), entries[..k]) == Missing(keymap, entries[..k])
    decreases k
  {
    if k > 0 {
      DriftAfterSync(keymap, entries, k - 1);
      EntriesStored(keymap, entries, k - 1);
      assert entries[..k][..k - 1] == entries[..k - 1];
    }
  }

  lemma {:induction false} MissingByKeys(a: map<Cell, u16>, b: map<Cell, u16>, entries: seq<KeyEntry>)
    requires a.Keys == b.Keys
    ensures Missing(a, entries) == Missing(b, entries)
    decreases |entries|
  {
    if entries != [] { MissingByKeys(a, b, entries[..|entries| - 1]); }
  }

  lemma SettledKeepsBase(net: Net, base: Device)
    requires Settled(net) && Applied(net.device, net.toDevice, base)
    ensures base == net.device
  {
    forall q | q in net.toDevice ensures Exec(net.device, q) == net.device {}
    AppliedSettled(net.device, net.toDevice, base);
  }

  lemma DistinctAt(a: Report, b: Report, i: nat)
    requires i < KeyLength(a) && i < KeyLength(b) && a[i] != b[i]
    ensures Distinct(a, b)
  {
  }

  // ----- the commands -----

  method FirmwareStatusPage(host: Connection, page: u8) returns (result: Result<Report, SyncError>)
    requires Ready(host.net, StatusRequest(page))
    modifies host
    ensures result.Ok? ==> Transacted(old(host.net), StatusRequest(page), result.value, host.net)
    ensures result.Err? ==> result.error.Transport? && Abandoned(old(host.net), StatusRequest(page), host.net)
    ensures OnlyAdds(old(host.sent), host.sent, StatusRequest(page))
  {
    var outcome := host.RawTransaction(StatusRequest(page), ID_GET_KEYBOARD_VALUE, SECOND);
    if outcome.Err? {
      return Err(Transport(outcome.error));
    }
    var response := outcome.value;
    TransactedIsQuiet(old(host.net), StatusRequest(page), response, host.net);
    if response[1] != SYNC_QUERY || response[2] != SYNC_VERSION || response[3] != page {
      return Err(NoSyncAnswer);
    }
    if response[4..11] != SYNC_MAGIC {
      return Err(MagicMismatch);
    }
    return Ok(response);
  }

  // The status is read from the pages at fixed places.
  function ParseStatus(capabilities: Report, hashes: Report, defaults: Report): Status
  {
    Status(hashes[11..19], hashes[19..27], defaults[11..19],
      capabilities[11], capabilities[12], capabilities[13], capabilities[14], capabilities[15])
  }

  lemma StatusPages(d: Device)
    ensures ParseStatus(Reply(d, StatusRequest(0)), Reply(d, StatusRequest(1)), Reply(d, StatusRequest(2)))
         == StatusOf(d.firmware)
  {
    var hashes, defaults := Reply(d, StatusRequest(1)), Reply(d, StatusRequest(2));
    assert hashes[11..19] == d.firmware.abi && hashes[19..27] == d.firmware.runtime;
    assert defaults[11..19] == d.firmware.keymapHash;
  }

  method GetKeycode(host: Connection, c: Cell, ghost last: Request) returns (result: Result<u16, SyncError>)
    requires Quiet(host.net, last) && Distinct(GetKeycodeRequest(c), last)
    modifies host
    ensures host.net.device == old(host.net.device)
    ensures result.Ok? ==>
      Quiet(host.net, GetKeycodeRequest(c)) && result.value == Lookup(old(host.net.device.keymap), c)
    ensures result.Err? ==> result.error.Transport? && EndsIn(host.net, old(host.net.device), old(host.net.device))
    ensures OnlyAdds(old(host.sent), host.sent, GetKeycodeRequest(c))
  {
    ghost var start := host.net;
    QuietIsReady(start, last, GetKeycodeRequest(c));
    var outcome := host.RawTransaction(GetKeycodeRequest(c), ID_GET_KEYCODE, SECOND);
    if outcome.Err? {
      QuietAbandoned(start, last, GetKeycodeRequest(c), host.net);
      EndsNow(host.net, start.device, start.device);
      return Err(Transport(outcome.error));
    }
    QuietTransacted(start, last, GetKeycodeRequest(c), outcome.value, host.net);
    assert CellOf(GetKeycodeRequest(c)) == c;
    return Ok(BigEndian16(outcome.value[4], outcome.value[5]));
  }

  function Stored(d: Device, e: KeyEntry): Device { d.(keymap := Store(d.keymap, e.cell, e.keycode)) }

  method SetKeycode(host: Connection, e: KeyEntry, ghost last: Request) returns (result: Result<(), SyncError>)
    requires Quiet(host.net, last) && Distinct(SetKeycodeRequest(e), last)
    modifies host
    ensures result.Ok? ==> Quiet(host.net, SetKeycodeRequest(e))
    ensures result.Ok? ==> host.net.device == Stored(old(host.net.device), e)
    ensures result.Err? ==>
      result.error.Transport? && EndsIn(host.net, old(host.net.device), Stored(old(host.net.device), e))
    ensures OnlyAdds(old(host.sent), host.sent, SetKeycodeRequest(e)) && (result.Ok? ==> |host.sent| > |old(host.sent)|)
  {
    ghost var start := host.net;
    QuietIsReady(start, last, SetKeycodeRequest(e));
    var outcome := host.RawTransaction(SetKeycodeRequest(e), ID_SET_KEYCODE, SECOND);
    if outcome.Err? {
      QuietAbandoned(start, last, SetKeycodeRequest(e), host.net);
      return Err(Transport(outcome.error));
    }
    QuietTransacted(start, last, SetKeycodeRequest(e), outcome.value, host.net);
    return Ok(());
  }

  method NextStatusPage(host: Connection, page: u8, ghost last: Request) returns (result: Result<Report, SyncError>)
    requires Quiet(host.net, last) && Distinct(StatusRequest(page), last)
    modifies host
    ensures host.net.device == old(host.net.device)
    ensures result.Ok? ==>
      Quiet(host.net, StatusRequest(page)) && result.value == Reply(host.net.device, StatusRequest(page))
    ensures result.Err? ==> result.error.Transport? && EndsIn(host.net, old(host.net.device), old(host.net.device))
    ensures OnlyAdds(old(host.sent), host.sent, StatusRequest(page))
  {
    ghost var start := host.net;
    QuietIsReady(start, last, StatusRequest(page));
    result := FirmwareStatusPage(host, page);
    if result.Err? {
      QuietAbandoned(start, last, StatusRequest(page), host.net);
      EndsNow(host.net, start.device, start.device);
    } else {
      QuietTransacted(start, last, StatusRequest(page), result.value, host.net);
    }
  }

  method FirmwareStatus(host: Connection) returns (result: Result<Status, SyncError>)
    requires Ready(host.net, StatusRequest(0))
    modifies host
    ensures Applied(old(host.net).device, old(host.net).toDevice, host.net.device)
    ensures AppliedLater(old(host.net), host.net)
    ensures result.Ok? ==> Quiet(host.net, StatusRequest(2)) && result.value == StatusOf(host.net.device.firmware)
    ensures result.Err? ==> result.error.Transport?
    ensures NoWriteSince(old(host.sent), host.sent)
  {
    ghost var start := host.net;
    var outcome := FirmwareStatusPage(host, 0);
    if outcome.Err? {
      ReadAbandoned(start, StatusRequest(0), host.net);
      return Err(outcome.error);
    }
    var capabilities := outcome.value;
    ReadTransacted(start, StatusRequest(0), capabilities, host.net);
    TransactedIsQuiet(start, StatusRequest(0), capabilities, host.net);
    DistinctAt(StatusRequest(1), StatusRequest(0), 3);
    outcome := NextStatusPage(host, 1, StatusRequest(0));
    if outcome.Err? {
      return Err(outcome.error);
    }
    var hashes := outcome.value;
    DistinctAt(StatusRequest(2), StatusRequest(1), 3);
    outcome := NextStatusPage(host, 2, StatusRequest(1));
    if outcome.Err? {
      return Err(outcome.error);
    }
    var defaults := outcome.value;
    QuietStays(host.net, StatusRequest(2));
    StatusPages(host.net.device);
    return Ok(ParseStatus(capabilities, hashes, defaults));
  }

  // One turn of the loop: read the cell, write it only if it differs.
  method SyncEntry(host: Connection, e: KeyEntry, ghost last: Request)
    returns (result: Result<bool, SyncError>, ghost next: Request)
    requires Quiet(host.net, last) && Distinct(GetKeycodeRequest(e.cell), last)
    modifies host
    ensures result.Ok? ==> Quiet(host.net, next) && next in {GetKeycodeRequest(e.cell), SetKeycodeRequest(e)}
    ensures result.Ok? ==> result.value == (Lookup(old(host.net.device.keymap), e.cell) != e.keycode)
    ensures result.Ok? ==> host.net.device == Stored(old(host.net.device), e)
    ensures result.Err? ==>
      result.error.Transport? && EndsIn(host.net, old(host.net.device), Stored(old(host.net.device), e))
    ensures old(host.sent) <= host.sent && (result.Ok? ==> (NoWriteSince(old(host.sent), host.sent) <==> !result.value))
  {
    var current := GetKeycode(host, e.cell, last);
    next := GetKeycodeRequest(e.cell);
    if current.Err? {
      return Err(current.error), next;
    }
    if current.value == e.keycode {
      StoringSameChangesNothing(host.net.device.keymap, e);
      return Ok(false), next;
    }
    DistinctAt(SetKeycodeRequest(e), next, 0);
    ghost var middle := host.sent;
    var stored := SetKeycode(host, e, next);
    next := SetKeycodeRequest(e);
    if stored.Err? {
      return Err(stored.error), next;
    }
    assert IsWrite(host.sent[|middle|]);
    return Ok(true), next;
  }

  method SyncKeymap(host: Connection, entries: seq<KeyEntry>, expectedAbi: Hash)
    returns (result: Result<nat, SyncError>)
    requires DistinctCells(entries)
    requires Ready(host.net, StatusRequest(0))
    modifies host
    ensures result.Ok? ==>
      && Synced(old(host.net), entries, result.value, host.net)
      && host.net.device.firmware.abi == expectedAbi
      && Settled(host.net) && Ready(host.net, StatusRequest(0))
    ensures result.Err? ==> PrefixSynced(old(host.net), entries, host.net)
    ensures result.Ok? ==> (NoWriteSince(old(host.sent), host.sent) <==> result.value == 0)
    // The firmware is refused exactly if its ABI differs; then nothing is written.
    ensures result.Err? ==> result.error.Transport? || result.error == AbiMismatch
    ensures result == Err(AbiMismatch) ==>
      old(host.net.device.firmware.abi) != expectedAbi && NoWriteSince(old(host.sent), host.sent)
    ensures result.Ok? ==> old(host.net.device.firmware.abi) == expectedAbi
  {
    ghost var start := host.net;
    var firmware := FirmwareStatus(host);
    ghost var base := host.net.device;
    AppliedKeepsFirmware(start.device, start.toDevice, base);
    if firmware.Err? {
      NothingStored(start, entries, host.net);
      return Err(firmware.error);
    }
    if firmware.value.abi != expectedAbi {
      NothingStored(start, entries, host.net);
      return Err(AbiMismatch);
    }
    var changed := 0;
    ghost var last := StatusRequest(2);
    assert entries[..0] == [];
    for i := 0 to |entries|
      invariant Quiet(host.net, last)
      invariant PrefixStored(base, entries, i, host.net.device)
      invariant changed == Drift(base.keymap, entries[..i])
      invariant last == StatusRequest(2)
        || (i > 0 && last in {GetKeycodeRequest(entries[i - 1].cell), SetKeycodeRequest(entries[i - 1])})
      invariant old(host.sent) <= host.sent && (changed == 0 <==> NoWriteSince(old(host.sent), host.sent))
    {
      var e := entries[i];
      assert entries[..i + 1][..i] == entries[..i];
      LaterEntryUndisturbed(base.keymap, entries, i);
      FollowsPrevious(entries, i, last);
      ghost var before, sent := host.net.device, host.sent;
      var stored;
      stored, last := SyncEntry(host, e, last);
      if stored.Err? {
        EntryAbandoned(start, base, entries, i, before, host.net);
        return Err(stored.error);
      }
      WritesAdd(old(host.sent), sent, host.sent);
      if stored.value {
        changed := changed + 1;
      }
    }
    assert entries[..|entries|] == entries;
    assert SyncedFrom(start, entries, changed, host.net, base);
    DistinctAt(StatusRequest(0), last, if last == StatusRequest(2) then 3 else 0);
    QuietIsReady(host.net, last, StatusRequest(0));
    return Ok(changed);
  }

  lemma WritesAdd(a: seq<Request>, b: seq<Request>, c: seq<Request>)
    requires a <= b <= c
    ensures NoWriteSince(a, c) <==> NoWriteSince(a, b) && NoWriteSince(b, c)
  {
    forall i | 0 <= i < |b| ensures b[i] == c[i] {
    }
  }

  lemma NothingStored(start: Net, entries: seq<KeyEntry>, net: Net)
    requires AppliedLater(start, net)
    ensures PrefixSynced(start, entries, net)
  {
    forall events ensures SomePrefixStored(start, entries, Run(net, events).device) {
      var d := Run(net, events).device;
      assert entries[..0] == [] && Applied(start.device, start.toDevice, d);
      assert PrefixStored(d, entries, 0, d);
    }
  }

  lemma EntryAbandoned(start: Net, base: Device, entries: seq<KeyEntry>, i: nat, before: Device, net: Net)
    requires Applied(start.device, start.toDevice, base) && i < |entries| && PrefixStored(base, entries, i, before)
    requires EndsIn(net, before, Stored(before, entries[i]))
    ensures PrefixSynced(start, entries, net)
  {
    assert entries[..i + 1][..i] == entries[..i];
    assert PrefixStored(base, entries, i + 1, Stored(before, entries[i]));
    forall events ensures SomePrefixStored(start, entries, Run(net, events).device) {
      var d := Run(net, events).device;
      assert PrefixStored(base, entries, i, d) || PrefixStored(base, entries, i + 1, d);
    }
  }

  lemma StoringSameChangesNothing(keymap: map<Cell, u16>, e: KeyEntry)
    requires Lookup(keymap, e.cell) == e.keycode
    ensures Store(keymap, e.cell, e.keycode) == keymap
  {
  }

  // The read of entry i cannot be confused with what was sent before it.
  lemma FollowsPrevious(entries: seq<KeyEntry>, i: nat, last: Request)
    requires DistinctCells(entries) && i < |entries|
    requires last == StatusRequest(2)
      || (i > 0 && last in {GetKeycodeRequest(entries[i - 1].cell), SetKeycodeRequest(entries[i - 1])})
    ensures Distinct(GetKeycodeRequest(entries[i].cell), last)
  {
    var r := GetKeycodeRequest(entries[i].cell);
    if r[0] != last[0] {
      DistinctAt(r, last, 0);
    } else {
      var a, b := entries[i].cell, entries[i - 1].cell;
      assert a != b;
      DistinctAt(r, last, if a.layer != b.layer then 1 else if a.row != b.row then 2 else 3);
    }
  }

  // A second run changes nothing, and writes nothing exactly if the keyboard
  // has every cell that is to hold a code. `between` is what was sent before.
  method SyncKeymapTwice(host: Connection, entries: seq<KeyEntry>, expectedAbi: Hash)
    returns (first: Result<nat, SyncError>, second: Result<nat, SyncError>, ghost between: seq<Request>)
    requires DistinctCells(entries) && Ready(host.net, StatusRequest(0))
    modifies host
    ensures first.Ok? && second.Ok? ==>
      && second.value == Missing(old(host.net.device.keymap), entries)
      && (NoWriteSince(between, host.sent) <==> Missing(old(host.net.device.keymap), entries) == 0)
      && Synced(old(host.net), entries, first.value, host.net)
  {
    ghost var start := host.net;
    first := SyncKeymap(host, entries, expectedAbi);
    between := host.sent;
    second := Err(NotVerified);
    if first.Ok? {
      ghost var middle := host.net;
      second := SyncKeymap(host, entries, expectedAbi);
      if second.Ok? {
        SecondRun(start, entries, first.value, middle, second.value, host.net);
      }
    }
  }

  lemma {:induction false} AppliedKeepsFirmware(before: Device, requests: seq<Request>, after: Device)
    requires Applied(before, requests, after)
    ensures after.firmware == before.firmware
    decreases |requests|
  {
    if requests != [] {
      if Applied(before, requests[1..], after) {
        AppliedKeepsFirmware(before, requests[1..], after);
      } else {
        AppliedKeepsFirmware(Exec(before, requests[0]), requests[1..], after);
      }
    }
  }

  lemma {:induction false} AppliedKeepsCells(before: Device, requests: seq<Request>, after: Device)
    requires Applied(before, requests, after)
    ensures after.keymap.Keys == before.keymap.Keys
    decreases |requests|
  {
    if requests != [] {
      if Applied(before, requests[1..], after) {
        AppliedKeepsCells(before, requests[1..], after);
      } else {
        AppliedKeepsCells(Exec(before, requests[0]), requests[1..], after);
      }
    }
  }

  lemma SecondRun(start: Net, entries: seq<KeyEntry>, n: nat, middle: Net, m: nat, end: Net)
    requires DistinctCells(entries)
    requires Synced(start, entries, n, middle) && Settled(middle) && Synced(middle, entries, m, end)
    ensures m == Missing(start.device.keymap, entries)
    ensures end.device == middle.device && Synced(start, entries, n, end)
  {
    var base :| SyncedFrom(start, entries, n, middle, base);
    var again :| SyncedFrom(middle, entries, m, end, again);
    SettledKeepsBase(middle, again);
    AppliedKeepsCells(start.device, start.toDevice, base);
    MissingByKeys(start.device.keymap, base.keymap, entries);
    assert entries[..|entries|] == entries;
    DriftAfterSync(base.keymap, entries, |entries|);
    StoredTwice(base.keymap, entries, |entries|);
    assert SyncedFrom(start, entries, n, end, base);
  }

  // Storing the entries again changes nothing, missing cells or not.
  lemma {:induction false} StoredTwice(keymap: map<Cell, u16>, entries: seq<KeyEntry>, k: nat)
    requires DistinctCells(entries) && k <= |entries|
    ensures StoreAll(StoreAll(keymap, entries), entries[..k]) == StoreAll(keymap, entries)
    decreases k
  {
    if k > 0 {
      StoredTwice(keymap, entries, k - 1);
      assert entries[..k][..k - 1] == entries[..k - 1];
      EntriesStored(keymap, entries, k - 1);
      StoreAllKeepsKeys(keymap, entries);
      var all, e := StoreAll(keymap, entries), entries[k - 1];
      if e.cell in all { StoringSameChangesNothing(all, e); }
    }
  }
}

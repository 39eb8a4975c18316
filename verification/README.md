# Protocols, codecs and state machines of this configuration

A Dafny model of the parts of the repository that have invariants of their own,
with proofs. One file per component:

- `Wrappers`: optional values and results.
- `Bytes`, `Utf8`, `Via`, `Channel`, `HidHost`, `KeymapSync`, `MacroCodec`, `ViaSync`: the Silakka54 live sync. Requests without numbers are sent again every 10 ms over a raw HID link that may lose anything; replies are recognised by the bytes they echo. `Channel` is the link as a state machine over all interleavings, `HidHost` the loop of the host, and keymap and macro synchronisation run on top of it.
- `Text`, `Keycode`, `KeycodeProofs`: describing a live 16-bit keycode as a QMK expression and resolving it again, on strings.
- `Encoder`, `EncoderProofs`, `EncoderAgreement`: the keymap generator's own encoder, in its language's string functions, and its agreement with the live tool.
- `KeycodeActions`, `GeneratorKeys`: which codes have a description and which texts either tool accepts, stated on what a key does.
- `Dp100Frame`, `Dp100`, `Dp100Activation`, `Dp100Driver`, `Dp100Output`: a power supply whose firmware releases each reply on the next write. The checksum is CRC-16 with the MODBUS parameters (section 6.2.2 of the MODBUS over Serial Line Specification V1.02).
- `Midi`, `MidiProofs`: the keyboard mirrors its state to a sound engine by deltas and a rotating snapshot over a lossy link.
- `Epaper`: rotation and three-colour quantisation into two bit planes, against the preview's rule.
- `JsonSplit`, `JsonGrammar`, `BarTransitions`: the menu bar controller's object splitter (sections 2 to 7 of RFC 8259) and its cancelled transitions.
- `Settings`: merging managed settings into a file and taking them out.
- `SendLimiter`: the hourly limit on sent mail.
- `ModelCatalog`, `Refresher`: normalising a downloaded model catalog and refreshing its cache.
- `Overlay`: when the keyboard overlay shows and hides.

Code that works step by step is a class with methods; each method is proved
against a function of the old state, and the theorems about runs are about these
functions. `dafny verify dfyconfig.toml` checks everything.

Where the code does less than one would expect, a lemma gives the exact
condition, or concrete runs stand beside it: a mod-tap without a modifier bit
prints as text that does not resolve; `KC_REDO` in the catalog would get two
codes; an entry for a cell the keyboard lacks is written again by every
synchronisation; a second hide that finds items faded out loses them; and two threads that read the clock in one order and
take the lock in the other can exceed the mail limit.

## Model

| member | source | states |
|---|---|---|
| Via.MatchIsKeyPrefix | packages/silakka54/sync/src/main.rs:2051-2073 | a response is accepted exactly if its first bytes equal the request's correlation key, whose length depends on the command |
| Via.ReplyEchoesKey | packages/silakka54/generate-keymap.py:729-803 | the keyboard answers every command with the command's own key, or refuses it with the unhandled id |
| Via.OwnReplyMatches | packages/silakka54/sync/src/main.rs:2051-2073 | the reply to a handled command is always accepted by its own request |
| Via.DistinctNeverMatches | packages/silakka54/sync/src/main.rs:2051-2073 | the reply to a request with a distinct key is never accepted, from any device state |
| Via.ExecIdempotent | packages/silakka54/sync/src/main.rs:1984-1998 | a command delivered again changes nothing more and gets the same reply; the retransmission rests on this |
| Channel.TracksServe | packages/silakka54/sync/src/main.rs:2006-2049 | one step of the keyboard keeps the invariant: the older requests are still ahead of the current one, or all of them took effect and everything left belongs to it |
| Channel.TracksRun | packages/silakka54/sync/src/main.rs:2006-2049 | the invariant holds after any sequence of deliveries, losses of requests or replies and unsolicited layer reports |
| Channel.TracksRead | packages/silakka54/sync/src/main.rs:2029-2041 | a report that is taken from the queue and matches was computed for the current request after the older ones took effect; then every message in flight belongs to this request |
| Channel.QuietTransacted | packages/silakka54/sync/src/main.rs:2006-2049 | at-least-once delivery has exactly-once effect: after a completed transaction in a chain of distinct requests the device is the old one with the request applied once, and the reply describes it |
| Channel.QuietAbandoned | packages/silakka54/sync/src/main.rs:2046-2048 | a transaction that failed takes effect once or not at all, at return and whatever happens on the wire later, with copies of it still queued |
| Channel.QuietIsReady | packages/silakka54/sync/src/main.rs:2051-2073 | after a completed transaction the next request may follow at once if its key is distinct |
| Channel.PrefixKeyAcceptsStaleReply | packages/silakka54/sync/src/main.rs:2051-2073 | why distinct keys are needed: if the key is a prefix of the earlier one, a leftover reply is accepted although the new request was never delivered |
| Channel.DistinctExactly | packages/silakka54/sync/src/main.rs:2051-2073 | two requests are distinct exactly if neither key is a prefix of the other |
| HidHost.Connection.RawTransaction | packages/silakka54/sync/src/main.rs:2006-2049 | for every interleaving: the answer is the first report read that matches, it was produced for this request after every earlier request took effect or was lost, and only this request was written, at once and again every 10 ms; after a failure the request takes effect once or not at all, now and later; a timeout comes only when the time is over without a match, any other failure only from a read or a write that failed |
| HidHost.Connection.Attempt | packages/silakka54/sync/src/main.rs:2017-2045 | one turn of the loop: a write exactly if one is due, then one read |
| HidHost.Raw | packages/silakka54/sync/src/main.rs:2075-2081 | with or without a leading report id, normalising gives the 32-byte report |
| KeymapSync.GetKeycode | packages/silakka54/sync/src/main.rs:1970-1982 | returns the code the keyboard holds in the cell and changes nothing |
| KeymapSync.SetKeycode | packages/silakka54/sync/src/main.rs:1984-1998 | stores the code in that cell only; after a failure the device is the old or the new one, also when copies of the write arrive later |
| KeymapSync.FirmwareStatus | packages/silakka54/sync/src/main.rs:1689-1707 | the three status pages are read back as the keyboard's own capabilities and hashes; only the link can make it fail |
| KeymapSync.EntriesStored | packages/silakka54/sync/src/main.rs:2154-2171 | storing the entries one after another leaves a cell at the code of its entry, for distinct cells |
| KeymapSync.UnmentionedCellsKeep | packages/silakka54/sync/src/main.rs:2154-2171 | a cell that no entry mentions keeps its code |
| KeymapSync.DriftAfterSync | packages/silakka54/sync/src/main.rs:2127-2138 | after a synchronisation the drift is the number of entries with a nonzero code for a cell the keyboard lacks |
| KeymapSync.SyncEntry | packages/silakka54/sync/src/main.rs:2154-2171 | one turn of the loop writes exactly if the cell differs |
| KeymapSync.SyncKeymap | packages/silakka54/sync/src/main.rs:2140-2173 | Ok(n): every entry is stored, no other state changed, n is the initial drift and nothing was written exactly if n = 0; an ABI mismatch comes exactly from a keyboard whose ABI hash is another one, and writes nothing; every other failure is one of the link, and after it the entries before some point are stored, also when the last requests arrive later |
| KeymapSync.SyncKeymapTwice | packages/silakka54/sync/src/main.rs:2140-2173 | a second run changes nothing, and writes nothing exactly if the keyboard has every cell that is to hold a nonzero code |
| KeymapSync.SecondRun | packages/silakka54/sync/src/main.rs:2140-2173 | the count of any second completed synchronisation, and that it leaves the device as it was |
| MacroCodec.DesiredMacroBuffer | packages/silakka54/sync/src/main.rs:1897-1921 | the buffer is the macros, each ended by NUL, padded with zeros; it fails for too many macros and at the first macro that does not fit |
| MacroCodec.EncodingFailsExactly | packages/silakka54/sync/src/main.rs:1897-1921 | encoding fails exactly if the count or the sum of the lengths plus one exceeds its limit |
| MacroCodec.DecodeEncoded | packages/silakka54/sync/src/main.rs:548-562 | decoding an encoded buffer gives the macros without trailing empty ones, exactly if no macro holds a NUL |
| MacroCodec.DecodeExactly | packages/silakka54/sync/src/main.rs:548-562 | a buffer decodes exactly if each of its first pieces, up to the capacity, is UTF-8, and then to these pieces without trailing empty ones |
| Utf8.ValidExactly | packages/silakka54/sync/src/main.rs:552-558 | the byte texts accepted as UTF-8 are the encodings of character sequences (section 3 of RFC 3629) and no others |
| MacroCodec.EncodeDecoded | packages/silakka54/sync/src/main.rs:548-562 | encoding a decoded buffer gives the buffer back exactly if it is empty or ends in NUL and is zero after the capacity-th NUL |
| ViaSync.GetLayoutOptions | packages/silakka54/sync/src/main.rs:1808-1823 | reads the layout options the keyboard holds |
| ViaSync.SetLayoutOptions | packages/silakka54/sync/src/main.rs:1825-1836 | stores the layout options and nothing else |
| ViaSync.GetMacroBuffer | packages/silakka54/sync/src/main.rs:1858-1876 | the 28-byte chunks put together are the keyboard's macro buffer; adjacent chunks cannot be confused |
| ViaSync.SetMacroBuffer | packages/silakka54/sync/src/main.rs:1878-1895 | Ok: the whole buffer is written; after a failure some leading part of it is, now and later |
| ViaSync.SyncViaState | packages/silakka54/sync/src/main.rs:1944-1968 | Ok: layout options and the whole macro buffer are as desired, nothing else changed, the report says what differed, and nothing is written if nothing differed; a failure is one of the link, or exactly what the encoder says of the macros, and after every failure, now and later, the options are old or desired and a leading part of the macros is written |
| KeycodeProofs.PreferredIsLeast | packages/silakka54/sync/src/main.rs:624-641 | the preferred name precedes every other name of the code in the order non-KC, RIGHT, length, text |
| KeycodeProofs.PreferredIsNamed | packages/silakka54/sync/src/main.rs:624-641 | the preferred name is a name of that code |
| KeycodeProofs.OrDisjoint | packages/silakka54/sync/src/main.rs:980-1010 | or-ing into clear low bits is addition, for every width |
| KeycodeProofs.ModifiersRoundTrip | packages/silakka54/sync/src/main.rs:592-619 | the printed modifier names or together to the modifier bits, on either side |
| KeycodeProofs.DescriptionRoundTrip | packages/silakka54/sync/src/main.rs:564-641 | whenever describing a code succeeds, resolving the text gives the code back, except that a mod-tap without a modifier bit is described by a text that does not resolve; for every layer table and catalog within the syntax limits |
| KeycodeActions.DescribedExactly | packages/silakka54/sync/src/main.rs:564-622 | the code of every tap, mod-tap, layer-tap, move and momentary layer is described exactly if its layer has an identifier and its tap a name, and by which text |
| KeycodeActions.OtherDescribedExactly | packages/silakka54/sync/src/main.rs:621-641 | any other code is described exactly if the catalog has a name for just that code |
| KeycodeActions.LiveReads | packages/silakka54/sync/src/main.rs:925-1011 | the code of every action is read back from its spelling, with any name of its tap and any identifier of its layer |
| KeycodeActions.LiveReadsMacro | packages/silakka54/sync/src/main.rs:967-981 | the same for the eight one-modifier macros |
| KeycodeActions.LiveReadsLayerName | packages/silakka54/sync/src/main.rs:933-937 | a layer identifier alone means its momentary key |
| KeycodeActions.LiveReadsNumber | packages/silakka54/sync/src/main.rs:943-949 | a layer may be given by its number |
| KeycodeActions.LiveMeans | packages/silakka54/sync/src/main.rs:950-1011 | a call expression gives no code but that of an action of its kind |
| Text.SplitJoin | packages/silakka54/sync/src/main.rs:993-993 | splitting joined pieces at the separator gives the pieces |
| Encoder.EncodeKey | packages/silakka54/generate-keymap.py:222-245 | the loop that replaces layer identifiers by indices, and the code of the result |
| EncoderProofs.SameStrip | packages/silakka54/generate-keymap.py:153-176 | the two languages' trims agree on every text that one of them leaves without spaces |
| EncoderProofs.ModifiersAgree | packages/silakka54/generate-keymap.py:179-189 | modifiers that the live tool accepts mean the same to the generator, wherever spaces stand |
| EncoderProofs.DecimalValue | packages/silakka54/generate-keymap.py:228-231 | an index printed in decimal is read back as that index |
| EncoderProofs.LayersReplaced | packages/silakka54/generate-keymap.py:228-231 | replacing all layer names changes just the layer argument of a TO, MO or LT call, for any list of names |
| EncoderProofs.NamedIsFirst | packages/silakka54/generate-keymap.py:228-231 | it becomes the index of the first name with that identifier, if there is one |
| EncoderProofs.OtherCallUnchanged | packages/silakka54/generate-keymap.py:228-231 | and leaves every other call alone |
| EncoderAgreement.CallAgrees | packages/silakka54/sync/src/main.rs:934-982 | the two encoders agree on every call expression both accept |
| EncoderAgreement.EncodersAgree | packages/silakka54/generate-keymap.py:131-198 | whenever the generator and the live tool both accept a key, they give the same code, exactly if the label is not one that the generator rewrites and the catalog names with another code |
| GeneratorKeys.TakenExactly | packages/silakka54/generate-keymap.py:131-198 | of the keys the live tool accepts, the generator accepts just those whose layers it finds as digits, with 15 as the last one in a layer-tap, and whose names carry a prefix it knows |
| GeneratorKeys.BareKeyCode | packages/silakka54/generate-keymap.py:139-144 | a letter, a digit or F1 to F24 has the code that the catalog gives KC_ and the whole label |
| GeneratorKeys.AliasCode | packages/silakka54/generate-keymap.py:135-138 | an alias has the code of what it stands for |
| EncoderAgreement.RedoDisagrees | packages/silakka54/generate-keymap.py:98-100 | the concrete exception: a catalog that names KC_REDO with a code of its own |
| EncoderAgreement.LowCodeIsNamed | packages/silakka54/sync/src/main.rs:925-983 | a code up to 0xff can only come from the catalog, so taps are never calls |
| KeycodeActions.CodesDistinct | packages/silakka54/sync/src/main.rs:925-1011 | distinct taps, mod-taps, layer-taps, moves and momentary layers have distinct codes |
| Dp100Frame.DecodeFrame | pkgs/pydp100/dp100.py:53-64 | decoding a response frame followed by any padding gives opcode, sequence and payload, for every payload up to 255 bytes |
| Dp100Frame.DecodeExactly | pkgs/pydp100/dp100.py:53-64 | a report decodes to a message exactly if it begins with the response frame of that message |
| Dp100Frame.ExampleCrc | pkgs/pydp100/dp100.py:25-25 | the checksum is the one of the MODBUS specification, by its example |
| Dp100Frame.Residue | pkgs/pydp100/dp100.py:25-25 | a packet with its own checksum leaves residue zero |
| Dp100Frame.FeedAllInjective | pkgs/pydp100/dp100.py:25-25 | the checksum never forgets a difference in its state |
| Dp100Frame.FeedTwoInjective | pkgs/pydp100/dp100.py:25-25 | two bytes in a row change the checksum in 65536 different ways |
| Dp100Frame.DamageDetected | pkgs/pydp100/dp100.py:58-64 | changing any one byte, or two neighbouring bytes, other than the length byte makes decoding fail |
| Dp100.SettingsRoundTrip | pkgs/pydp100/dp100.py:163-163 | what the supply reads from a settings payload is what was packed |
| Dp100.StatusRoundTrip | pkgs/pydp100/dp100.py:38-49 | which bytes of a measurement are which of its nine fields: what the driver reads is what the supply measured |
| Dp100.PacketParses | pkgs/pydp100/test_dp100.py:42-45 | the supply reads opcode, sequence and payload from the 65-byte report |
| Dp100.Port.Write | pkgs/pydp100/test_dp100.py:31-73 | the delayed firmware: each write releases the reply of the write before; writes are at least one pause apart |
| Dp100Activation.LostExactly | pkgs/pydp100/test_dp100.py:31-41 | a due change of the physical output is lost exactly if the next report comes too soon and no newer change is queued |
| Dp100Activation.ChangeTakesEffect | pkgs/pydp100/test_dp100.py:31-41 | a change followed by two other reports takes effect exactly if the second comes at least 0.05 s after the first |
| Dp100Activation.OutputFollows | pkgs/pydp100/dp100.py:113-116 | at the driver's pace, after any history that ends in two reports which change nothing, the physical output is what the settings say |
| Dp100Activation.PortFollows | pkgs/pydp100/dp100.py:113-116 | so it is for everything written to the driver's port |
| Dp100Driver.Driver.Drain | pkgs/pydp100/dp100.py:84-90 | gives up exactly if 64 or more reports are queued, and else empties the queue |
| Dp100Driver.Driver.WriteCommand | pkgs/pydp100/dp100.py:104-117 | the next sequence number, one report, and a pause after it |
| Dp100Driver.Driver.Receive | pkgs/pydp100/dp100.py:119-136 | writes nothing but the read-only marker; with the answer next in line it takes just that answer; it times out only when the time is over |
| Dp100Driver.Driver.Synchronise | pkgs/pydp100/dp100.py:93-100 | after the marker exchange the only reply still to come is one to the marker, whatever was left over before |
| Dp100Driver.Driver.Request | pkgs/pydp100/dp100.py:92-102 | on the delayed firmware, from any leftover reply and fewer than 64 queued reports, the payload the device computed for this request, handled once, in at most four writes; on any device at all, the command is written at most once, among markers |
| Dp100Driver.NotTheMarker | pkgs/pydp100/dp100.py:94-102 | a late marker reply is never taken for the answer, because the opcodes differ |
| Dp100Output.GetSettings | pkgs/pydp100/dp100.py:138-140 | reads the settings and mutates nothing; on the delayed firmware they are the supply's own |
| Dp100Output.GetStatus | pkgs/pydp100/dp100.py:142-144 | reads a status and mutates nothing; on the delayed firmware it is what the supply measured when it handled this very request |
| Dp100Output.ToleranceInWholeNumbers | pkgs/pydp100/dp100.py:187-191 | in tolerance: within 100 mV or 95 to 105 hundredths of the voltage asked for; at most 500 mV if the output is to be off |
| Dp100Output.VerifyVoltage | pkgs/pydp100/dp100.py:175-201 | normal return: the last two readings in a row are within tolerance and no two before them were; it gives up only when the time is over, without two such readings; on the delayed firmware with quick reads nothing else can happen, and the status returned is the supply's own |
| Dp100Output.PlanOutput | pkgs/pydp100/dp100.py:146-162 | the limit checks: what was read decides, and nothing is mutated before; on the delayed firmware the supply's own settings and a maximum it measured decide |
| Dp100Output.CheckRequest | pkgs/pydp100/dp100.py:150-163 | the refusal is the voltage, the current or the width of a word, in this order; the settings to write keep the profile and the protection limits |
| Dp100Output.CommitOutput | pkgs/pydp100/dp100.py:163-172 | one mutating report; normal return means ACK 01 and a re-read equal to the request; on the delayed firmware it is rejected exactly by a supply that rejects, and mismatches exactly if the supply ignores writes and held other settings |
| Dp100Output.FirstByteParts | pkgs/pydp100/dp100.py:163-163 | the first byte of the payload marks the write and keeps the low four bits of the profile index |
| Dp100Output.SetOutput | pkgs/pydp100/dp100.py:146-173 | against an arbitrary device at most one mutating report is written, none if a limit check fails, and one fails exactly if the settings and the maximum that were read rule the request out; normal return means ACK 01, settings as requested with the protection limits kept, and two readings in tolerance. On the delayed firmware these are the supply's own settings and a maximum it measured, the supply decides every other failure but an unsteady voltage, and the status returned is its own |
| Midi.Keyboard.PreProcessRecord | packages/silakka54/generate-keymap.py:407-417 | the candidate's state is set and its message sent |
| Midi.Keyboard.HousekeepingTask | packages/silakka54/generate-keymap.py:428-446 | modifier changes, then the snapshot item whose turn it is, restarting the sweep when a second has passed on the wrapping timer |
| Midi.Keyboard.LayerStateSet | packages/silakka54/generate-keymap.py:717-727 | a layer is reported exactly when the highest layer changes |
| Midi.SoundEngine.Process | pkgs/silakka54-sound/main.cpp:48-99 | all events of a cycle in order, then the tail; silence exactly if no control is held and the tail has run out |
| Midi.HandleExactly | pkgs/silakka54-sound/main.cpp:52-82 | a message changes just the control or the layer it names, on its own channel only; on is 64 or more; the tail starts again exactly if something changed |
| Midi.EitherKey | packages/silakka54/generate-keymap.py:356-359 | which modifier keys turn a modifier's control on |
| MidiProofs.SenderFollows | packages/silakka54/generate-keymap.py:407-446 | the state that is mirrored is that of the last key events, the last modifiers and the last layer |
| MidiProofs.StepKeeps | packages/silakka54/generate-keymap.py:376-447 | every step but a loss keeps an item in sync, counting what is still on the link |
| MidiProofs.StepSweeps | packages/silakka54/generate-keymap.py:437-446 | the items that the current sweep has passed are in sync, also across restarts of the sweep |
| MidiProofs.SweepRecovers | packages/silakka54/generate-keymap.py:376-447 | from any state at all, once a sweep has run without a loss, all ten flags and the layer are mirrored whenever the link is empty, with key, modifier and layer changes anywhere in between |
| MidiProofs.RecoversInElevenCalls | packages/silakka54/generate-keymap.py:433-445 | a due housekeeping call and ten more within the second are enough for that, whatever else happens in between |
| MidiProofs.SyncPersists | pkgs/silakka54-sound/main.cpp:48-99 | and they stay mirrored as long as nothing is lost |
| MidiProofs.SnapshotsNeverRestartTail | pkgs/silakka54-sound/main.cpp:73-98 | while the keyboard rests, snapshots change nothing and the tail runs down with the frames played |
| Epaper.MapPixelInBounds | modules/nixos/orangepi-zero2w/ssd16xx/panel-ssd16xx.c:200-224 | every physical pixel shows a pixel inside the logical frame, in all four rotations |
| Epaper.MapPixelBijective | modules/nixos/orangepi-zero2w/ssd16xx/panel-ssd16xx.c:200-224 | every pixel of the logical frame is shown at exactly one place |
| Epaper.OppositeRotation | modules/nixos/orangepi-zero2w/ssd16xx/panel-ssd16xx.c:200-224 | opposite rotations show the frame upside down |
| Epaper.RenderPreview | pkgs/shrimpus-dashboard/src/preview.rs:95-109 | the preview's picture: a header and three bytes for each pixel's colour |
| Epaper.ClassifyExactly | modules/nixos/orangepi-zero2w/ssd16xx/panel-ssd16xx.c:277-290 | the thresholds: red is a clear lead of the red channel, greys are divided in the middle, and no pixel gets darker by raising a channel |
| Epaper.Convert | modules/nixos/orangepi-zero2w/ssd16xx/panel-ssd16xx.c:262-292 | the packed black and red bits of every pixel are the classification of the source pixel it shows, whatever the planes held before |
| Epaper.PutSetsOne | modules/nixos/orangepi-zero2w/ssd16xx/panel-ssd16xx.c:273-274 | setting a pixel's bit changes that pixel only |
| Epaper.PlanesDetermined | modules/nixos/orangepi-zero2w/ssd16xx/panel-ssd16xx.c:269-292 | the frame determines both planes byte for byte: there are no padding bits |
| Epaper.RedWithinBlack | modules/nixos/orangepi-zero2w/ssd16xx/panel-ssd16xx.c:284-288 | red bits are a subset of black bits in every byte |
| Epaper.PanelMatchesPreview | pkgs/shrimpus-dashboard/src/preview.rs:95-109 | the panel shows each pixel of an XRGB8888 frame in the colour the preview paints for it |
| Epaper.OneBitFrameCopied | modules/nixos/orangepi-zero2w/ssd16xx/panel-ssd16xx.c:249-257 | an unrotated one-bit frame is copied into the black plane, and nothing is red |
| Epaper.Xrgb8888Channels | modules/nixos/orangepi-zero2w/ssd16xx/panel-ssd16xx.c:235-241 | which byte of a pixel is which channel |
| Epaper.Rgb565Recoverable | modules/nixos/orangepi-zero2w/ssd16xx/panel-ssd16xx.c:242-248 | scaling 5 and 6 bit channels to 8 bits loses nothing |
| JsonSplit.ParseObjects | pkgs/sketchybar-toggle/SketchyBarController.swift:421-472 | the loop returns the decoded object texts in order and ends on every input |
| JsonSplit.SkipObject | pkgs/sketchybar-toggle/SketchyBarController.swift:434-468 | the inner loop stops behind the brace that closes the object, or at the end of the input |
| JsonSplit.FoundExactly | pkgs/sketchybar-toggle/SketchyBarController.swift:434-468 | the scanner takes a prefix exactly if it is an object text, with nested braces and strings with escapes |
| JsonSplit.RowSplit | pkgs/sketchybar-toggle/SketchyBarController.swift:421-472 | object texts separated by any whitespace are all found, in order, whatever follows them |
| JsonGrammar.ObjectsAreTexts | pkgs/sketchybar-toggle/SketchyBarController.swift:434-468 | every object of the grammar of RFC 8259, sections 2 to 7, however spaced and nested, is such a text |
| JsonGrammar.JsonRowSplit | pkgs/sketchybar-toggle/SketchyBarController.swift:421-472 | a row of JSON objects is split into just their texts, in order |
| JsonSplit.SplitSound | pkgs/sketchybar-toggle/SketchyBarController.swift:421-472 | on arbitrary bytes the results are disjoint object texts in increasing order with only whitespace between them, and no object follows |
| JsonSplit.SplitExactly | pkgs/sketchybar-toggle/SketchyBarController.swift:421-472 | the result is the only way to cut the bytes like that |
| JsonSplit.DecodedAll | pkgs/sketchybar-toggle/SketchyBarController.swift:457-461 | when the library decodes every text nothing is lost or reordered |
| JsonSplit.DecodedExactly | pkgs/sketchybar-toggle/SketchyBarController.swift:457-461 | a text that the library rejects is left out and nothing else changes |
| BarTransitions.Controller.Hide | pkgs/sketchybar-toggle/SketchyBarController.swift:25-51 | a new transition, the saved targets, the fade and the delayed callback |
| BarTransitions.Controller.Show | pkgs/sketchybar-toggle/SketchyBarController.swift:53-80 | shows at once, fades in, with the saved targets if there are any |
| BarTransitions.Controller.Fire | pkgs/sketchybar-toggle/SketchyBarController.swift:39-49 | a callback of an older transition does nothing |
| BarTransitions.LastCallWins | pkgs/sketchybar-toggle/SketchyBarController.swift:25-80 | in every schedule, once all callbacks have run, the bar is hidden exactly if the last call was a hide, and its alpha is the visible one |
| BarTransitions.ItemOutcome | pkgs/sketchybar-toggle/SketchyBarController.swift:25-80 | in every schedule, with queries reading what is on the screen, each item ends at the alpha that the last call naming it read, or clear, exactly if that call was a hide and another call came before its callback |
| BarTransitions.TextReadable | pkgs/sketchybar-toggle/SketchyBarController.swift:371-385 | whatever a fade is interrupted at, no text colour is ever promised less than half |
| BarTransitions.ItemComesBack | pkgs/sketchybar-toggle/SketchyBarController.swift:25-80 | from rest an item comes back to its alpha exactly if the last call naming it read that alpha and was no hide overtaken by another call |
| BarTransitions.CalmItemsComeBack | pkgs/sketchybar-toggle/SketchyBarController.swift:25-80 | a guard for callers that is enough: hide only at rest, and show only at rest unless a hide has saved something |
| BarTransitions.GoneForGood | pkgs/sketchybar-toggle/SketchyBarController.swift:53-56 | an item that is clear, not saved and set by no waiting callback stays clear in every later run |
| BarTransitions.SecondHideLosesItem | pkgs/sketchybar-toggle/SketchyBarController.swift:29-30 | without it, from any state at rest: a second hide when the first has faded out loses every visible item for good, whatever is called later |
| Settings.Merge | modules/home-manager/claude/merge-settings.py:32-37 | the loop computes the merged tree |
| Settings.RemoveObsolete | modules/home-manager/claude/merge-settings.py:22-29 | the loop computes the tree without obsolete values |
| Settings.MergedAt | modules/home-manager/claude/merge-settings.py:32-37 | every desired leaf is installed, every path outside the desired tree keeps its value, inner nodes are objects |
| Settings.MergedBeyond | modules/home-manager/claude/merge-settings.py:32-37 | nothing is left below an installed leaf |
| Settings.PathKinds | modules/home-manager/claude/merge-settings.py:32-37 | those cases cover every path |
| Settings.MergeIdempotent | modules/home-manager/claude/merge-settings.py:32-37 | merging twice is merging once |
| Settings.RemovedAt | modules/home-manager/claude/merge-settings.py:22-29 | an obsolete leaf goes exactly if the file holds an equal value there, and paths outside stay |
| Settings.RemoveAfterMerge | modules/home-manager/claude/merge-settings.py:22-37 | installing and removing leaves no managed leaf, except values not equal to themselves, and restores all other paths |
| Settings.Upgrade | modules/home-manager/claude/merge-settings.py:47-55 | an upgrade leaves no trace of old leaves that the new version lacks |
| SendLimiter.Limiter.Reserve | pkgs/icloud-mail-mcp-gateway/gateway.py:637-647 | evicts what is an hour old, refuses at the limit, records the reservation |
| SendLimiter.Limiter.Release | pkgs/icloud-mail-mcp-gateway/gateway.py:649-654 | removes one equal reservation, if it is still held |
| SendLimiter.ReserveSends | pkgs/icloud-mail-mcp-gateway/gateway.py:637-647 | an accepted reservation adds itself to what was sent, a refused one nothing |
| SendLimiter.ReleaseTakesOne | pkgs/icloud-mail-mcp-gateway/gateway.py:649-654 | a release takes back one reservation, from those held if it is among them |
| SendLimiter.NothingToRelease | pkgs/icloud-mail-mcp-gateway/gateway.py:649-654 | a release of anything else changes nothing |
| SendLimiter.ReleaseFrees | pkgs/icloud-mail-mcp-gateway/gateway.py:649-654 | and every hour that it falls into has one place more |
| SendLimiter.ReserveExactly | pkgs/icloud-mail-mcp-gateway/gateway.py:637-647 | a reservation keeps the limit exactly if it is refused or every hour it falls into has room, whatever the clock said before |
| SendLimiter.LimitExactly | pkgs/icloud-mail-mcp-gateway/gateway.py:637-654 | in every sequence of calls, in any order of the clock readings, the limit is kept all along exactly if every accepted reservation had room |
| SendLimiter.GuardedNeverOver | pkgs/icloud-mail-mcp-gateway/gateway.py:637-654 | a guard that is enough: no reservation is dated within an hour of what was evicted before it |
| SendLimiter.NeverOverLimit | pkgs/icloud-mail-mcp-gateway/gateway.py:637-654 | with a clock that does not fall the guard holds, so no hour ever holds more unreleased accepted sends than the limit, evicted ones counted |
| SendLimiter.RefusedExactlyWhenFull | pkgs/icloud-mail-mcp-gateway/gateway.py:641-645 | a reservation is refused exactly if the hour up to now holds the limit |
| SendLimiter.OutOfOrderExceeds | pkgs/icloud-mail-mcp-gateway/gateway.py:638-639 | the clock is read before the lock is taken: a reservation that takes the lock after one that evicted a full hour, with a reading that still sees it, always exceeds the limit |
| SendLimiter.FourSendsExceed | pkgs/icloud-mail-mcp-gateway/gateway.py:638-639 | four calls from the start that do so |
| ModelCatalog.NormalizeCatalog | modules/home-manager/corncheese-development/codex-deepseek-refresh.py:95-135 | the loop over the models with the set of names seen, for any field checks |
| ModelCatalog.OnlyCapabilities | modules/home-manager/corncheese-development/codex-deepseek-refresh.py:116-130 | nothing but capability fields comes from outside; instructions are always the local ones |
| ModelCatalog.AllCapabilities | modules/home-manager/corncheese-development/codex-deepseek-refresh.py:115-116 | every capability of the download is taken, and the others come from the template |
| ModelCatalog.AcceptedExactly | modules/home-manager/corncheese-development/codex-deepseek-refresh.py:95-135 | a catalog is accepted exactly if it has 1 to 100 models, each acceptable, with different names, and a usable default model among them; the result is each model's normal form, in order |
| ModelCatalog.OverlayTwice | modules/home-manager/corncheese-development/codex-deepseek-refresh.py:115-116 | overlaying a model on its template again changes nothing |
| ModelCatalog.NormalizeIdempotent | modules/home-manager/corncheese-development/codex-deepseek-refresh.py:95-135 | if the bundled catalog normalises, every accepted catalog is normalised to a fixed point |
| ModelCatalog.ShippedIdempotent | modules/home-manager/corncheese-development/codex-deepseek-refresh.py:57-135 | so it is with the repository's own field checks, and every field of the result passes them |
| Refresher.Files.Refresh | modules/home-manager/corncheese-development/codex-deepseek-refresh.py:178-219 | the whole of one refresh, forced or not, seed only or not, with a damaged cache or a failed download; false exactly if a download was tried and was no acceptable catalog |
| Refresher.CacheIsFixedPoint | modules/home-manager/corncheese-development/codex-deepseek-refresh.py:178-219 | after every refresh the cache is a fixed point of normalising, whatever it was and whatever was fetched |
| Refresher.ShippedCacheIsFixedPoint | modules/home-manager/corncheese-development/codex-deepseek-refresh.py:57-219 | the same with the repository's own field checks |
| Refresher.LastDownloadStays | modules/home-manager/corncheese-development/codex-deepseek-refresh.py:207-219 | over runs: after an acceptable download the cache is the normal form of just that, for as long as nobody damages it and no other one comes |
| Refresher.StableRules | modules/home-manager/corncheese-development/codex-deepseek-refresh.py:95-135 | what these two rest on holds for every bundled catalog that passes its own checks |
| Refresher.CacheStays | modules/home-manager/corncheese-development/codex-deepseek-refresh.py:185-194 | over runs: calls without an acceptable download leave the normal form of the cache they found, or of the bundled catalog if it has none |
| Refresher.FetchesExactly | modules/home-manager/corncheese-development/codex-deepseek-refresh.py:195-207 | over runs with a clock that does not fall, a call downloads exactly if it is not to seed only, and is forced, finds an unacceptable cache, or comes 300 s after every earlier attempt and 24 h after every earlier success |
| Refresher.FetchesAreApart | modules/home-manager/corncheese-development/codex-deepseek-refresh.py:195-207 | unforced fetches from an acceptable cache come 300 s after any earlier attempt and 24 h after any earlier success |
| Overlay.Viewer.Handle | pkgs/keyboard-layer-viewer/source/src/main.rs:815-856 | one event, as the step function says |
| Overlay.Viewer.SetLayer | pkgs/keyboard-layer-viewer/source/src/main.rs:885-905 | a layer report: clamped, and shown or hidden if anything changed |
| Overlay.EveryReachableState | pkgs/keyboard-layer-viewer/source/src/main.rs:794-1032 | from a hidden start, in every reachable state: indices in range, visible only if enabled and not suppressed, visible exactly if auto-hide is on, a deadline exactly if visible with no input held |
| Overlay.StepBecomes | pkgs/keyboard-layer-viewer/source/src/main.rs:815-1012 | every event: after a key of a known profile, an activity or a report of another layer the overlay is visible exactly if it is not suppressed and meant for the layer then in use; else it stays unless a hide, a suppression or the deadline ends it; and which deadline is set |
| Overlay.VisibleExactly | pkgs/keyboard-layer-viewer/source/src/main.rs:815-1012 | over runs: it is visible exactly if the last such event found it so and no hide, suppression or elapsed deadline came after |
| Overlay.DeadlineExactly | pkgs/keyboard-layer-viewer/source/src/main.rs:997-1012 | over runs: while it is visible and nothing is held, the deadline is three seconds after the last event that touched or let go |
| Overlay.IdleHides | pkgs/keyboard-layer-viewer/source/src/main.rs:793-808 | with no input held, the timer finds the overlay hidden, or hides it, three seconds after the last input |
| Overlay.HeldStays | pkgs/keyboard-layer-viewer/source/src/main.rs:1014-1032 | while a key or another layer is held, the timer does not hide it |

## Left out

- The bootloader jump and flashing, key presses that change the layer of the keyboard, and the error texts of the tool: the keyboard's memory and its raw HID commands are modelled, not its matrix.
- QMK's own VIA handler is not part of this repository; its commands are modelled as the VIA protocol defines them, with the repository's own query and layer commands from the generator.
- HID, USB, SPI, JACK, GTK and file calls are queues, memories, clocks and parameters. Time is a number that does not fall; a wait may take any time.
- HidHost.Connection.RawTransaction: promises safety, not that a reply arrives in time, because the link may lose everything.
- Via.Exec: a macro write past the end of the buffer is cut off there, as in QMK; 28 bytes is the largest transfer.
- Hashes are byte strings; printing them in hexadecimal, display names and the log lines are left out.
- KeymapSync.SyncKeymap: entries name distinct cells, which the reader of the keymap file enforces.
- KeycodeProofs.DescriptionRoundTrip: layer identifiers and names in the catalog hold no parentheses, commas or outer spaces, and each identifier means its own index; MO above layer 15 is never printed.
- EncoderAgreement.EncodersAgree: the alias table and the value of non-ASCII decimal digits are parameters, so it holds for every such table.
- Dp100.Port.Write: the physical output is not part of the port but of Dp100Activation, which runs over what the port recorded.
- Dp100: the supply of the tests is extended by arbitrary measurements and an arbitrary delay per read; the file lock, the configuration file and the command line are left out. Padding of replies is covered by the frame theorem. The unit of time is a tenth of a second.
- Dp100Frame.DamageDetected: one byte or two neighbouring ones; the length byte is excluded because it moves the checksum.
- Dp100Output.SetOutput: what the voltage does after the second good reading is not known.
- Midi: the keyboard is the half that sends; the timer is read once per call; the DSP behind the sound engine's zones is left out.
- Epaper: planes are arrays, the four rotations are those the probe accepts; transfer of the planes, waveforms and the theme are left out. Words in the framebuffer are little-endian.
- JsonSplit: decoding an object text is a parameter. Bytes above 0x7f in strings are not checked for UTF-8.
- BarTransitions: which colour properties are queried and how colours are printed is left out; a query and the command after it are one step.
- Settings.Merge, Settings.RemoveObsolete: trees are values, so sharing of subtrees between the two files is not modelled; order of keys is not either. The profile list and atomic replacement of the file are left out.
- SendLimiter.NeverOverLimit: times are exact numbers.
- ModelCatalog: a template with ill-typed fields counts as refused; field names are an enumeration. Version texts and blank characters are parameters. Writing the files always succeeds.
- Overlay: window placement, drawing, titles and the status text.
- Firmware flashing, mount detection, mail contents and attachments, widgets, themes and geometry of the dashboards, the disk image personaliser: input and output, or settled by enumeration.

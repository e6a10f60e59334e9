# VE.Direct text-protocol decoder

This project is a Dafny model of `VEDirectInput`, the SensESP sensor that passively
reads a Victron BMV, MPPT or Phoenix device over VE.Direct. The model proves
properties of that model.

The VE.Direct text protocol is a stream of `label TAB value LF` records. A block of
records is closed by a record labelled `Checksum`. The block is valid when all of its
bytes, the checksum record included, sum to 0 modulo 256.

The decoder has four parts:

- a receive state machine (UNKNOWN, LABEL, VALUE, RECORDCOMPLETE) that fills a
  9-byte label buffer and a 33-byte value buffer;
- a running 8-bit checksum;
- `processField`, which marks the matching entry of a 51-entry field registry
  DIRTY with its raw value;
- `commit`, which publishes every DIRTY entry through its unit-transform policy
  once a block's checksum is 0.

The model is layered:

- `types.dfy` (module `VEDirectTypes`) holds the constants of `vedirect.h`, the
  receive and entry states, the `VEDirectFieldEntry` record (`FieldEntry`) and the
  C-string helpers. `CStr` is the text before the first NUL.
- `registry.dfy` (module `Registry`) holds the 51 descriptors the constructor
  installs and the label lookup `getVEDirectIndex`.
- `receiver.dfy` (module `Receiver`) holds the receive state machine as a pure
  step function `Step` on a value `Rx`, and the receive loop `Drain`. It carries
  the lemmas about transitions, the checksum, record decoding and
  resynchronisation.
- `commit.dfy` (module `Commit`) holds the per-entry policies and the whole commit.
- `decoder.dfy` (module `Decoder`) holds `processField` and one `onAvailable`
  callback as functions of the decoder's state, with the end-to-end lemmas.
- `vedirect.dfy` (module `VEDirect`) holds the class `VEDirectInput`. It has the
  same fields as the C++ object: two byte arrays, the index, the checksum, the
  state, the registry array and the mode. Each method updates those fields in
  place and is proved to agree with the functions above. Every method keeps the
  object invariant `Valid()`: buffer sizes, index bounds, NUL-terminated buffers,
  and registry texts that fit their buffers (the formatted numbers `Scaled` and
  `Kelvin` excepted, see "## Left out").

Two behaviours of the code are kept as written, although a decoder might be
expected to do otherwise:

- A bad checksum does not discard the block's pending values. They stay DIRTY,
  and the next block that passes its checksum publishes them
  (`Decoder.FailedBlockPublishedByNextBlock`).
- A carriage return is stored in the value. A device that sends CR LF therefore
  sends "no data" as `---\r`, which the `"---"` test does not recognise
  (`Commit.CarriageReturnDefeatsNoData`). No factor -2 "integer passthrough"
  policy exists in the code either: an unlisted factor falls through to the
  literal copy, and no registry entry uses -2.

The model corrects the defects listed under "## Findings". The rest of the
model is built on the corrected definitions:

- The label lookup returns `Option`.
- The receive machine bounds its stores. A byte that would fill the last cell of
  a buffer drops the record: the machine goes to UNKNOWN and resynchronises at
  the next LF. Dropping the record is this model's choice; truncating the
  over-long token would be another.
- The check byte, the first value byte of a `Checksum` record, is stored
  whatever it is, LF included. Only the LF after it ends the record. The
  source's LF test is kept as the flag `asWritten` of `Step` and `Drain`; the
  stores stay bounded under it.
- The diagnostic text is cut to the size of its buffer.

## Model

| member | source | states |
|---|---|---|
| VEDirectTypes.CStr | src/sensors/vedirect.cpp:159 | the C string in a buffer is the prefix before the first NUL, holds no NUL, and is followed by a NUL when shorter than the buffer (what strcmp and strncpy read) |
| VEDirectTypes.PaddedCStr | src/sensors/vedirect.cpp:235 | a NUL-free text stored in a zeroed buffer with room left reads back as exactly that text |
| Registry.Table | src/sensors/vedirect.cpp:19-123 | the constructor installs exactly 51 entries, each UNDEFINED with empty pending and confirmed values and timestamp 0 |
| Registry.IndexOf | src/sensors/vedirect.cpp:149-155 | the lookup gives the position of the first entry whose label equals the key, and gives None exactly when no entry has that label |
| Registry.IndexOfInRegistry | src/sensors/vedirect.h:65-67 | on the installed registry a found index is below 51, and "not found" happens exactly for labels absent from all 51 entries |
| Registry.UnknownLabelPassesGuardAsWritten | src/sensors/vedirect.cpp:149-171 | as written, an unknown label yields index 255, which passes `index >= 0` and lies past the 51-entry array |
| Receiver.Step | src/sensors/vedirect.cpp:229-258 | one byte keeps the buffers at 9 and 33 bytes and the index inside the buffer being filled, with the check byte stored or, as written, ending the value when it is LF |
| Receiver.Drain | src/sensors/vedirect.cpp:228 | the receive loop stays within the input, and it stops before the end of the input only on RECORDCOMPLETE |
| Receiver.UnknownAwaitsNewline | src/sensors/vedirect.cpp:250-257 | in UNKNOWN, a byte other than LF changes only the checksum; LF moves to LABEL with a zeroed label buffer and index 0 |
| Receiver.LabelAppendsUntilTab | src/sensors/vedirect.cpp:233-241 | in LABEL, TAB switches to VALUE with a zeroed value buffer and index 0, and keeps the label; any other byte is stored at the index, which grows by one |
| Receiver.ValueAppendsUntilNewline | src/sensors/vedirect.cpp:242-249 | in VALUE, LF completes the record without being stored, unless it is the check byte of a "Checksum" record; any other byte, CR included, and the check byte are stored at the index, which grows by one |
| Receiver.FullBufferDropsRecord | src/sensors/vedirect.cpp:233-249 | a byte that would fill a buffer's last cell is not stored; the machine goes to UNKNOWN with the buffers unchanged |
| Receiver.StepKeepsTerminators | src/sensors/vedirect.cpp:233-249 | with bounded stores, each byte keeps both buffers NUL-terminated |
| Receiver.DrainKeepsTerminators | src/sensors/vedirect.cpp:228-259 | the whole receive loop keeps both buffers NUL-terminated |
| Receiver.TextsFit | src/sensors/vedirect.h:20-21 | in terminated buffers the label text is at most 8 bytes and the value text at most 32 |
| Receiver.AddSumAppend | src/sensors/vedirect.cpp:230 | the checksum of a run of bytes is the checksum of its parts taken one after the other |
| Receiver.DrainChecksum | src/sensors/vedirect.cpp:229-230 | after the receive loop, the checksum is the old checksum plus the sum of exactly the bytes read, modulo 256 |
| Receiver.DrainStopsAtFirstRecord | src/sensors/vedirect.cpp:228 | on every prefix shorter than what the loop read, the loop reads the whole prefix without completing a record: it stops at the first record |
| Receiver.DrainLabelBytes | src/sensors/vedirect.cpp:233-235 | a run of non-TAB bytes that fits is stored in order into the label buffer, the index counting them and the checksum adding them |
| Receiver.DrainValueBytes | src/sensors/vedirect.cpp:242-244 | a run of non-LF bytes that fits is stored in order into the value buffer, the index counting them and the checksum adding them |
| Receiver.RecordDecodes | src/sensors/vedirect.cpp:228-249 | from the start of a record, an input beginning with `name TAB value LF` that fits is read up to its LF, with the name (and a NUL-free value) in the buffers, RECORDCOMPLETE, and the record's bytes added to the checksum; a "Checksum" record's check byte may be any byte |
| Receiver.UnknownSkipsLine | src/sensors/vedirect.cpp:250-257 | in UNKNOWN, everything up to and including the next LF is skipped into the checksum, and the machine lands at the start of a record |
| Receiver.DrainShift | src/sensors/vedirect.cpp:228-259 | the loop run on a + b from the position i bytes into b does what it does on b alone from i, counting the bytes of a as read |
| Receiver.DrainSplit | src/sensors/vedirect.cpp:228-259 | when the bytes a complete no record, the loop reads all of them, and the loop over a + b is the loop over b started where a left the machine: a token cut between two deliveries decodes as if uncut |
| Receiver.OverlongValueAt | src/sensors/vedirect.cpp:242-257 | a value of 33 bytes or more, after a label that fits, is dropped: at its LF the machine is at the start of a record with the label buffer zeroed, the first 32 value bytes kept in the value buffer, and the record's bytes in the checksum |
| Receiver.OverlongValueSkipsRecord | src/sensors/vedirect.cpp:242-257 | a record whose value is 33 bytes or longer is dropped whole: the machine resynchronises at its LF, at the start of the next record, with its bytes in the checksum |
| Receiver.OverlongLabelSkipsRecord | src/sensors/vedirect.cpp:233-257 | a record whose label is 9 bytes or longer is dropped whole: the machine resynchronises at its LF, at the start of the next record, with its bytes in the checksum |
| Receiver.StorePositionsWrap | src/sensors/vedirect.h:87 | as written, the byte-wide index makes the k-th store land at (index + k) mod 256 |
| Receiver.LabelOverrunAsWritten | src/sensors/vedirect.cpp:235 | as written, a 9-byte label already stores its last byte in the terminator's cell, and every label byte after the ninth lands at its own position, past the 9-byte buffer |
| Receiver.ValueOverrunAsWritten | src/sensors/vedirect.cpp:244 | as written, a 33-byte value stores its last byte in the terminator's cell, and every value byte after that lands past the 33-byte buffer |
| Receiver.CheckByteNewlineCutsRecordAsWritten | src/sensors/vedirect.cpp:242-247 | as written, a "Checksum" record whose check byte is LF completes at the check byte, one byte early: the block's closing LF is left unread and the checksum lacks it |
| Receiver.CheckByteNewlineFailsBlockAsWritten | src/sensors/vedirect.cpp:159-168 | with checksum 176 before it, the block ending `Checksum TAB LF LF` sums to 0 modulo 256, yet as written processField sees 246 |
| Commit.InvalidMarkerOverflowsAsWritten | src/sensors/vedirect.cpp:209 | as written, the diagnostic text for a pending value of 22 to 32 bytes needs more than the 33 bytes of valueConfirmed, overrunning by length − 21 |
| Commit.InvalidMarker | src/sensors/vedirect.cpp:209 | the corrected diagnostic text fits the buffer, is a prefix of the text as written, equals it when it fits, and is cut to 32 bytes otherwise |
| Commit.Convert | src/sensors/vedirect.cpp:194-218 | a positive factor scales the raw value; -273 converts to Kelvin; -1 gives "1", "0" or the diagnostic text; 0 and every other factor copy the raw text |
| Commit.CommitEntry | src/sensors/vedirect.cpp:184-219 | an entry that is not DIRTY is untouched; a DIRTY one becomes VALID; only status and confirmed value change |
| Commit.CommitAll | src/sensors/vedirect.cpp:182-222 | after commit no entry is DIRTY; non-DIRTY entries are unchanged; DIRTY ones are VALID; only statuses and confirmed values change |
| Commit.LiteralModeCopiesPending | src/sensors/vedirect.cpp:186-188 | in mode 0 every DIRTY entry publishes its pending text literally, "---" included |
| Commit.NoDataKeepsConfirmed | src/sensors/vedirect.cpp:190-192 | in transform mode a DIRTY entry holding "---" becomes VALID and keeps its confirmed value |
| Commit.TransformModeConverts | src/sensors/vedirect.cpp:194-218 | in transform mode every other pending value goes through the entry's policy |
| Commit.BinaryStatePolicy | src/sensors/vedirect.cpp:202-210 | under factor -1 a value beginning with "ON" gives "1"; else one beginning with "OFF" gives "0"; any other gives the diagnostic text, which is neither |
| Commit.ConfirmedTextFits | src/sensors/vedirect.cpp:186-218 | every text a commit publishes fits valueConfirmed with its NUL, given a pending value that fits |
| Commit.CarriageReturnDefeatsNoData | src/sensors/vedirect.cpp:190-192 | a pending "---" followed by CR is not treated as no data; a scaled entry publishes it as a reading |
| Commit.CommitIdempotent | src/sensors/vedirect.cpp:182-184 | a second commit right after the first changes nothing |
| Commit.CommitKeepsRegistry | src/sensors/vedirect.cpp:182-222 | a commit keeps every label, factor, unit, pending value and timestamp |
| Decoder.ProcessField | src/sensors/vedirect.cpp:158-179 | processField keeps the registry size; a "Checksum" record resets the checksum to 0; any other record keeps the checksum and every confirmed value |
| Decoder.ChecksumRecordGatesCommit | src/sensors/vedirect.cpp:159-168 | a "Checksum" record commits exactly when the checksum is 0, otherwise leaves every entry unchanged, and resets the checksum either way |
| Decoder.RecognisedLabelMarksItsEntry | src/sensors/vedirect.cpp:170-175 | a record whose label first matches entry i makes that entry DIRTY with the time and the value; all other entries and the checksum are unchanged |
| Decoder.UnknownLabelIgnored | src/sensors/vedirect.cpp:170-178 | a label found in no entry leaves the registry and the checksum unchanged |
| Decoder.FailedBlockPublishedByNextBlock | src/sensors/vedirect.cpp:159-168 | a failed checksum leaves a DIRTY entry as it was, and the next passing checksum publishes it |
| Decoder.OnAvailable | src/sensors/vedirect.cpp:227-265 | after a callback the machine is well formed and never in RECORDCOMPLETE, at most the available bytes are read, and the mode and registry size are unchanged; whenever a record completes, even on the last byte available, the machine waits in LABEL at index 0 with a zeroed label buffer; a callback that completes no record reads every available byte, leaves the registry unchanged and keeps the machine, checksum and partial token included, where its loop ended |
| Decoder.ProcessIfComplete | src/sensors/vedirect.cpp:261-265 | after the loop a completed record is processed and the machine waits at the start of the next record; without one the state is exactly what the loop left |
| Decoder.OneRecordPerCallback | src/sensors/vedirect.cpp:228-265 | a callback leaves bytes unread only after completing a record, then waits in LABEL with a zeroed label buffer; no shorter prefix of what it read completes a record (the record-start state after any completed record is part of `Decoder.OnAvailable`'s contract) |
| Decoder.JoinedCallbackState | src/sensors/vedirect.cpp:228-265 | when the bytes a complete no record, one callback on a + b processes what the loop over b, started where a left the machine, stops on |
| Decoder.JoinedCallbackCount | src/sensors/vedirect.cpp:228-265 | in that case one callback on a + b reads all of a and then as many bytes as the loop over b, started where a left the machine |
| Decoder.SplitCallbackSameState | src/sensors/vedirect.cpp:228-265 | bytes a that complete no record, delivered in one callback and followed by a callback on b, leave the same decoder state as one callback on a + b |
| Decoder.SplitCallbackSameCount | src/sensors/vedirect.cpp:228-265 | in that case the two callbacks read as many bytes between them as the single callback on a + b |
| Decoder.RecordSplitAnywhere | src/sensors/vedirect.cpp:228-265 | cutting what a callback reads at any point before its last byte and delivering the parts in two callbacks reads the first part whole and reaches the same state after the same number of bytes: records split across callbacks decode as if delivered whole |
| Decoder.DataRecordUpdatesEntry | src/sensors/vedirect.cpp:228-265 | from the start of a record, a callback reads exactly one `name TAB value LF`, marks the label's entry DIRTY with the value and the time, changes no other entry, and adds the record's bytes to the checksum |
| Decoder.ChecksumRecordCommitsValidBlock | src/sensors/vedirect.cpp:159-168 | a callback on the "Checksum" record, whatever its check byte, commits the registry exactly when the block's bytes sum to 0 modulo 256, else leaves it, and restarts the checksum |
| Decoder.BlockCommitsOnlyWhenChecksumValid | src/sensors/vedirect.cpp:158-222 | a block of one record plus its checksum record, read in two callbacks, publishes the record through its policy when the block sums to 0; otherwise the entry stays DIRTY with its old confirmed value |
| Decoder.DataRecordCallback | src/sensors/vedirect.cpp:228-265 | a callback on exactly the bytes of a data record reads them all, applies processField to it and waits at the next record start, the bytes added to the checksum |
| Decoder.DataRecordEffect | src/sensors/vedirect.cpp:170-175 | processField on a data record marks the label's first entry DIRTY with the value, changes nothing of any entry but its status, time and pending value, and leaves every entry other than the one the label finds unchanged |
| Decoder.MarkedStep | src/sensors/vedirect.cpp:170-175 | one more data record extends what the run before it left: labels, factors and confirmed values are kept, entries named by the run are DIRTY holding the last value given to them, and entries no record's label finds are unchanged |
| Decoder.DataRecordsMarkEntries | src/sensors/vedirect.cpp:158-179 | any run of data records, one callback each, ends at a record start with their bytes in the checksum, every named entry DIRTY with the value of the last record naming it, entries no record's label finds unchanged, and no label, factor or confirmed value changed |
| Decoder.BlockCommitsEveryField | src/sensors/vedirect.cpp:158-222 | a block of any number of data records and its "Checksum" record commits when all its bytes sum to 0 modulo 256, making every entry the block named VALID; otherwise no confirmed value changes |
| Decoder.RecommitEntry | src/sensors/vedirect.cpp:185-216 | an entry DIRTY again with the pending value and factor of its last commit, on top of what that commit confirmed, commits to the same confirmed value and VALID |
| Decoder.RecommitSameConfirmed | src/sensors/vedirect.cpp:170-222 | marking the same data records again on a committed registry and committing again leaves every confirmed value and status as the first commit left it |
| Decoder.SameBlockTwiceSameConfirmed | src/sensors/vedirect.cpp:158-222 | from a record start with checksum 0, feeding the same valid block a second time leaves every entry's confirmed value and status as the first pass left them: publishing a block is idempotent |
| Decoder.CallbackKeepsTextsBounded | src/sensors/vedirect.cpp:175-209 | a callback keeps both buffers terminated and every pending and confirmed text within its 33-byte buffer |
| Decoder.CommitKeepsTextsBounded | src/sensors/vedirect.cpp:182-222 | a commit keeps every pending and confirmed text within its buffer |
| VEDirect.VEDirectInput.constructor | src/sensors/vedirect.cpp:9-123 | the object starts in UNKNOWN with index and checksum 0, a zeroed label buffer, the 51 installed entries and the given mode (default 1) |
| VEDirect.VEDirectInput.SetSignalKUnitTransform | src/sensors/vedirect.cpp:129-131 | only the mode changes |
| VEDirect.VEDirectInput.ClearLabelBuffer | src/sensors/vedirect.cpp:135-139 | the label buffer is all NUL and the index 0; nothing else changes |
| VEDirect.VEDirectInput.ClearValueBuffer | src/sensors/vedirect.cpp:142-146 | the value buffer is all NUL and the index 0; nothing else changes |
| VEDirect.VEDirectInput.GetVEDirectIndex | src/sensors/vedirect.cpp:149-155 | the scan returns the first matching position, or None exactly when no entry matches (the result of `IndexOf`) |
| VEDirect.VEDirectInput.Commit | src/sensors/vedirect.cpp:182-222 | the registry array afterwards is `CommitAll` of the old one under the current mode |
| VEDirect.VEDirectInput.ProcessField | src/sensors/vedirect.cpp:158-179 | registry and checksum afterwards are `Decoder.ProcessField` of the old ones on the buffers' label and value texts; the buffers, state and index are unchanged |
| VEDirect.VEDirectInput.ReceiveByte | src/sensors/vedirect.cpp:229-258 | one pass of the loop moves the object's receive state to `Step` of the old one, the check byte stored, and keeps the invariant |
| VEDirect.VEDirectInput.OnAvailable | src/sensors/vedirect.cpp:227-265 | state, registry and bytes read are those of `Decoder.OnAvailable` on the old state and the available bytes |

## Left out

- Reading from the `Stream` and registering the callback with `app.onAvailable` (src/sensors/vedirect.cpp:227-229): I/O. The callback instead takes the bytes available to it as a sequence.
- The periodic debug dump (src/sensors/vedirect.cpp:269-279): logging only.
- `load_configuration()` and the `Sensor` base class: external code; this model has neither.
- `millis()` is passed in as the parameter `now` (a `uint32`).
- The floating-point conversions `atof × factor / 1000` printed with "%.3f" and `atof + 273.15` printed with "%.2f" are kept symbolic as `Scaled(raw, factor)` and `Kelvin(raw)`: floating-point numbers and formatting are not modelled.
- The value buffer is not initialised by the C++ constructor. The model starts it zeroed; the constructor's contract states only that its last byte is NUL (part of `Valid()`), not its other contents.
- Decoder.CallbackKeepsTextsBounded: bounds only the `Text` results. The numbers `Scaled` and `Kelvin` are not formatted, so the model does not show whether the "%.3f" or "%.2f" text fits the 33-byte `valueConfirmed`; a 32-digit reading under factor 36000 evidently would not.
- Decoder.CommitKeepsTextsBounded: the same gap; the formatted `Scaled` and `Kelvin` texts are not bounded.
- Commit.ConfirmedTextFits: the same gap; only `Text` results are bounded.
- examples/vedirect_device/vedirect_device.cpp: only hardware and serial-port set-up.
- Decoder.DataRecordsMarkEntries, Decoder.BlockCommitsEveryField, Decoder.SameBlockTwiceSameConfirmed: these block lemmas deliver one whole record per callback (`Decoder.Feed`). `Decoder.RecordSplitAnywhere` shows that cutting a callback's bytes in two reaches the same state, but no lemma restates the block results for an arbitrary chunking of the stream.
- Registry.Table: the contract states the size and initial state of all 51 entries, but not each descriptor's label, factor and unit one by one. Those are the literal table `Registry.DESCRIPTORS`.

## Findings

| source | as written | input that shows it | evidently intended | confidence | as-written member | corrected member |
|---|---|---|---|---|---|---|
| src/sensors/vedirect.cpp:149-171 | `getVEDirectIndex` returns `-1` through a `byte` return type, giving 255, and `index >= 0` on a `byte` is always true | any label not in the registry, e.g. `MON` | unknown labels are ignored | high (not executed) | Registry.UnknownLabelPassesGuardAsWritten | Registry.IndexOf |
| src/sensors/vedirect.cpp:233-241 | `fieldLabel[rxBufIndex++] = c` stores without a bound | a 9-byte label such as `ABCDEFGHI` overwrites the terminator; a 10-byte one writes position 9 of a 9-byte buffer | stores stay inside the buffer, which stays NUL-terminated | high (not executed) | Receiver.LabelOverrunAsWritten | Receiver.StepKeepsTerminators |
| src/sensors/vedirect.cpp:242-249 | `fieldValue[rxBufIndex++] = c` stores without a bound | a 33-byte value overwrites the terminator; a 34-byte one writes position 33 of a 33-byte buffer | stores stay inside the buffer, which stays NUL-terminated | high (not executed) | Receiver.ValueOverrunAsWritten | Receiver.DrainKeepsTerminators |
| src/sensors/vedirect.cpp:242-247 | the value of a `Checksum` record ends at the first LF, which may be the check byte itself | checksum 176 before `Checksum TAB LF LF`: the block sums to 0 modulo 256, but the record ends after 10 bytes with checksum 246, so nothing is committed | the check byte is read as the value whatever it is, and the LF after it ends the record | high (not executed) | Receiver.CheckByteNewlineFailsBlockAsWritten | Decoder.ChecksumRecordCommitsValidBlock |
| src/sensors/vedirect.cpp:209 | `sprintf(valueConfirmed, "invalid: -%s-", valuePending)` into a 33-byte buffer | a factor -1 entry with a 22-byte pending value that starts with neither "ON" nor "OFF" | the diagnostic text fits valueConfirmed | high (not executed) | Commit.InvalidMarkerOverflowsAsWritten | Commit.InvalidMarker |

# BLE-MIDI to Standard MIDI File recording pipeline, in Dafny

This project models the recording pipeline of tr-MidiJS. The pipeline turns
BLE-MIDI notification packets into a byte-exact Standard MIDI File. It has
four stages, each a small state machine over byte sequences and integer
delta times. The model has one module per stage.

- `BleMidiDecoder` (`Midi.dfy` holds the shared types). It decodes one
  BLE-MIDI packet. The packet has a `10hhhhhh` header and `1lllllll`
  timestamp bytes, and it uses running status and sysex continuation. The
  decoder turns the wrapping 13-bit device clock into non-negative delta
  times. Once per packet it reconciles that clock with the host arrival
  time. Until the two clocks agree, it discards what it decodes.
- `BleMidiReassembler`. It joins sysex fragments cut at packet boundaries
  into one `F0 ... F7` message. Realtime messages that arrive mid-sysex are
  held back and delivered after it.
- `MidiFilter`. It drops configured status bytes and folds their delta into
  the next message that passes.
- `GapDetector`. It counts held notes per channel and note, and keeps the
  damper and sostenuto pedal levels. It reports a gap in two ways:
  - at once, when a long delta arrives while nothing sounds;
  - or when an idle timer fires.
- `SmfEncoder` (with `Vlq`). It appends events and meta events to a track
  and builds a format-0 file with one track.

Every stage is a pure function `(state, input) -> (state', events)`. An
event is `Event(delta, msg)`. Timers, handlers and console output become
explicit steps and returned sequences.

Each operation has a partner property:
- The reassembler and the filter each conserve elapsed time. Every input
  delta is either emitted or still held in the state. The decoder's
  deltas add up exactly to the owed offset plus the clock advance for a
  packet decoded to its end once stable. When decoding stops early, that
  sum is an upper bound.
- The decoder has a reference packet layout: a packet that gives every
  channel message its own timestamp and status byte decodes to exactly
  those messages, in order.
- The gap detector keeps its `noNotes` and `noPedals` flags equal to a scan
  of its counters.
- Each SMF writer has a reader that returns what was written:
  - a VLQ parser;
  - a single-event decoder;
  - a file reader.

## Model

| member | source | states |
|---|---|---|
| BleMidiDecoder.NewDecoder | js/BleMidiPacket.js:17-48 | The constructor leaves the decoder as `InitializeDecoder` does, with the default 100 ms error threshold. |
| BleMidiDecoder.InitializeDecoder | js/BleMidiPacket.js:54-60 | After `initializeDecoder`, the decoder waits for stability, owes no offset and has no previous device or host timestamp. |
| BleMidiDecoder.StabilizationTimeout | js/BleMidiPacket.js:61-67 | The stabilisation timer clears the wait flag and changes nothing else. |
| BleMidiDecoder.UnwrappedOffset | js/BleMidiPacket.js:214-215 | `8192·round((hostDelta−bleDelta)/8192) + bleDelta`, with half-up rounding, is congruent to bleDelta mod 8192. It lies in the half-open window of width 8192 centred on hostDelta. |
| BleMidiDecoder.UnwrappedOffsetIsUnique | js/BleMidiPacket.js:214-215 | Any value congruent to bleDelta mod 8192 that lies in that window is the unwrapped offset. The window picks the wrap count closest to the host clock. |
| BleMidiDecoder.LiftNegative | js/BleMidiPacket.js:222-226 | Adding the smallest sufficient multiple of 8192 to a negative offset lands in [0, 8192) and keeps the offset mod 8192. |
| BleMidiDecoder.SetHeaderTimestamp | js/BleMidiPacket.js:197-244 | The packet header sets tsHigh. It sets tsLow only when a low byte is present, and records the host time. The owed offset is never negative. It is 0 when the header stabilises the clocks. Otherwise it is congruent to bleDelta mod 8192: it equals the unwrapped offset when that is non-negative, and is below 8192 when lifted. The wait flag stays set exactly when it was set and this header does not stabilise. |
| BleMidiDecoder.CalcDelta | js/BleMidiPacket.js:252-268 | The reconstructed clock never goes back. A timestamp byte below the previous tsLow increments tsHigh. The returned delta is the owed offset plus the clock advance, and the owed offset drops to 0. |
| BleMidiDecoder.DataRunEnd | js/BleMidiPacket.js:165-170 | The inner sysex loop stops at the first byte with bit 7 set, or at the end of the packet. Every byte it passes has bit 7 clear. |
| BleMidiDecoder.ReadLead | js/BleMidiPacket.js:119-134 | These are the four loop-head cases. A timestamp byte sets timestampLow to its low seven bits. If the next byte also has bit 7 set, that byte is the status and the cursor moves past both. A timestamp byte alone gives the running status and moves past one byte. A data byte keeps the previous timestampLow and does not move. It gives F0 inside a continuing sysex and otherwise the running status. The status is absent only when no running status was ever set. |
| BleMidiDecoder.CutRun | js/BleMidiPacket.js:160-179 | A sysex or system-common fragment is the status byte followed by exactly the packet's data bytes up to the next byte with bit 7 set, and the cursor stops at that byte. An F0, forced or explicit, while the continuation flag is set leaves the status byte out. F0 sets the continuation flag, other common statuses clear it, and the running status is kept. |
| BleMidiDecoder.CutFragment | js/BleMidiPacket.js:137-181 | For 8n, 9n, An, Bn and En the fragment is the status and the next two packet bytes, and the cursor moves two bytes. For Cn and Dn it is the status and the next byte, and the cursor moves one byte. For F8-FF it is the status alone and the cursor stays. Otherwise it is the status plus its data run. Only channel statuses set the running status. Realtime leaves the continuation flag unchanged. |
| BleMidiDecoder.Step | js/BleMidiPacket.js:119-186 | One loop iteration either emits a fragment and moves forward, or stops. It stops exactly when no status can be determined. The emitted fragment is what the loop-head status cuts right after the loop head, and decoding continues at the end of that cut. The clock is advanced by the loop head's timestampLow, as `_calcDelta` does. The emitted delta is the owed offset plus the clock advance. A data byte in a continuing sysex yields a data-only fragment. |
| BleMidiDecoder.Body | js/BleMidiPacket.js:116-187 | The loop over a packet never reports a malformed packet. It emits nothing while the decoder waits for stability. Every delta it emits is non-negative and every fragment is well shaped. The clock never goes back. |
| BleMidiDecoder.HeaderLow | js/BleMidiPacket.js:105-113 | There is a first timestampLow exactly when the second byte has bit 7 set, and it is that byte's low seven bits. Otherwise the packet continues a sysex and there is no low byte. |
| BleMidiDecoder.HeaderState | js/BleMidiPacket.js:103-114 | After the header the clock state is consistent and the owed offset is non-negative. |
| BleMidiDecoder.Decode | js/BleMidiPacket.js:88-188 | A packet is rejected exactly when it is shorter than 3 bytes or its first byte is not `10xxxxxx`. A rejected packet emits nothing and leaves the state unchanged. Decoding never sets the wait flag. While the flag holds, nothing is emitted. Emitted deltas are non-negative and fragments are well shaped. |
| BleMidiDecoder.BodyConservesTime | js/BleMidiPacket.js:119-187 | The deltas emitted for a packet add up to the owed offset plus the device-clock advance over the packet. That is exact when the packet is decoded to its end, and an upper bound when decoding stops early. |
| BleMidiDecoder.DecodeConservesTime | js/BleMidiPacket.js:88-188 | Once the decoder is stable, a packet's deltas add up to the header's offset plus the clock advance. |
| BleMidiDecoder.StabilityGate | js/BleMidiPacket.js:217-242 | While waiting, a packet clears the wait flag if and only if its header stabilises the clocks. That means a non-initial header, a non-negative offset and a differential error within the threshold of a wrap. The offset of that header is zeroed. |
| BleMidiDecoder.FirstPacketIsDiscarded | js/BleMidiPacket.js:204-220 | The first packet after `initializeDecoder` is an initial packet. It owes no offset, cannot stabilise the clocks, and emits nothing. |
| BleMidiDecoder.BodyFirstFragment | js/BleMidiPacket.js:116-187 | The loop over a packet ends cleanly at the end of the packet. A loop head without a status ends it with nothing more and status `MissingStatus`. Otherwise, while stable, the first fragment delivered is the one the first iteration cuts. |
| BleMidiDecoder.StepFollowsTimestamp | js/BleMidiPacket.js:119-134 | A fragment behind a timestamp byte is timed by that byte. timestampLow becomes its seven bits, and tsHigh goes up by one exactly when they are below the previous timestampLow. The fragment's delta is the owed offset plus the distance between the two low parts, modulo 128. |
| BleMidiDecoder.ChannelStep | js/BleMidiPacket.js:119-154 | In a packet that gives each channel message its own timestamp and status byte, the iteration over the k-th message emits exactly that message and moves to the next timestamp byte. Its delta is the owed offset plus the distance, modulo 128, from the previous timestampLow to that message's timestamp byte. |
| BleMidiDecoder.ChannelRunDecodes | js/BleMidiPacket.js:116-187 | From the k-th message of such a packet on, the loop completes and, while stable, delivers exactly the remaining messages in order. |
| BleMidiDecoder.ChannelPacketDecodes | js/BleMidiPacket.js:88-188 | Decoding such a packet completes and, once stable, delivers exactly its messages in packet order. |
| BleMidiDecoder.TimestampExample | js/BleMidiPacket.js:119-154 | At clock 0, the packet `80 80 90 3C 40 8A 80 3C 00` decodes to `[90 3C 40]` with delta 0, then `[80 3C 00]` with delta 10, the distance between its two timestamp bytes. |
| BleMidiDecoder.RunningStatusExample | js/BleMidiPacket.js:119-154 | The packet `80 80 90 3C 40 3E 50` decodes to `[90 3C 40]` then `[90 3E 50]`, both with delta 0. The second uses running status. |
| BleMidiReassembler.InitializeReassembler | js/BleMidiPacket.js:74-80 | After `initializeReassembler`, no sysex is open and no time is held. |
| BleMidiReassembler.Flush | js/BleMidiPacket.js:355-369 | A flush delivers the sysex buffer with its start delta, then the queued realtime messages in arrival order. The after-counter becomes the carry and everything else is cleared. |
| BleMidiReassembler.FlushConservesTime | js/BleMidiPacket.js:355-369 | After a flush no sysex is open and the invariant holds. All held time except the overwritten carry is either emitted or carried. The carry is 0 whenever a sysex is open. |
| BleMidiReassembler.Reassemble | js/BleMidiPacket.js:297-349 | After one fragment, a sysex is open exactly when the fragment starts one, or continues or interleaves with one already open. The cases are those of `ReassembleIdle` and `ReassembleInSysex`, and the time balance is `ReassembleConservesTime`. |
| BleMidiReassembler.ReassembleIdle | js/BleMidiPacket.js:298-315 | With no sysex open, three cases apply. A message that is neither F0 nor F7 passes with carry + delta. F0 opens a sysex whose start delta takes the carry. A stray F7 is dropped and its delta carried. |
| BleMidiReassembler.ReassembleInSysex | js/BleMidiPacket.js:316-348 | With a sysex open, there are five cases: 1. Data extends the buffer. 2. Realtime is queued with the time since the previous queued item. 3. F7 completes and delivers the sysex before the queue. 4. F0 delivers the open sysex and opens a new one. 5. Anything else delivers the open sysex, then the queue, then itself. |
| BleMidiReassembler.IdleConservesTime | js/BleMidiPacket.js:298-315 | With no sysex open, emitted time plus held time grows by exactly the input delta, and the state invariant is kept. |
| BleMidiReassembler.InSysexConservesTime | js/BleMidiPacket.js:316-369 | With a sysex open, the same balance and invariant hold in all five cases. |
| BleMidiReassembler.ReassembleConservesTime | js/BleMidiPacket.js:297-349 | One step keeps emitted + held = held before + delta. Held time is the carry, plus the start delta, queued deltas and after-counter while a sysex is open. |
| BleMidiReassembler.RunConservesTime | js/BleMidiPacket.js:297-369 | Over any input sequence, emitted deltas + held time = initial held time + input deltas. |
| BleMidiReassembler.RunAppend | js/BleMidiPacket.js:297-349 | Reassembling `a + b` is reassembling `a`, then `b` from the resulting state, with the outputs concatenated. |
| BleMidiReassembler.RunSingle | js/BleMidiPacket.js:297-349 | Running over a single event is one `reassemble` step. |
| BleMidiReassembler.OpenSysexAccumulates | js/BleMidiPacket.js:318-326 | While a sysex is open, data and realtime fragments emit nothing. Data bytes accumulate in the buffer in order, and realtime messages queue in order. |
| BleMidiReassembler.OpenSysexStep | js/BleMidiPacket.js:318-326 | One data or realtime fragment inside an open sysex emits nothing. It appends to the buffer or to the queue, and keeps the start delta. |
| BleMidiReassembler.SysexReassembly | js/BleMidiPacket.js:297-369 | F0, then data and realtime fragments, then F7 gives one message. That message is the F0 fragment, the data bytes and the F7 fragment, with delta carry + first delta. It is followed by the realtime messages in arrival order. |
| BleMidiReassembler.SysexExample | js/BleMidiPacket.js:297-369 | `F0 01 02`, `03 04`, `05`, `F7` reassemble to `F0 01 02 03 04 05 F7`. The delta of the middle fragments is carried to the next message. |
| BleMidiReassembler.TrailingEoxInDataFragment | js/BleMidiPacket.js:318-321 | A fragment `05 F7` starts with a data byte. It is appended as a continuation and does not complete the sysex. |
| BleMidiReassembler.RealtimeDuringSysexExample | js/BleMidiPacket.js:322-362 | A realtime F8 in mid-sysex is delivered right after the completed sysex, with its queued delta. |
| MidiFilter.DefaultStatusBytesExactly | js/MidiFilter.js:18-20 | The default drop list is exactly F1-F6 and F8-FF. F0, F7 and every status below F0 pass. |
| MidiFilter.NewFilter | js/MidiFilter.js:18-33 | A new filter has the given drop list and no carry. |
| MidiFilter.Initialize | js/MidiFilter.js:40-42 | `initialize` zeroes the carry and keeps the drop list. |
| MidiFilter.Filter | js/MidiFilter.js:49-67 | A listed first byte drops the message and adds its delta to the carry. Any other message is emitted unchanged with carry + delta, and the carry resets. |
| MidiFilter.RunFilterPassesUnlisted | js/MidiFilter.js:49-67 | The output messages are the input messages without the dropped ones, in order. |
| MidiFilter.RunFilterConservesTime | js/MidiFilter.js:49-67 | Emitted deltas + carry = initial carry + input deltas. |
| MidiFilter.DropCarriesTimeExample | js/MidiFilter.js:50-66 | A dropped F8 with delta 4, then a note-on with delta 6, gives the note-on with delta 10. |
| GapDetector.Initialize | js/GapDetector.js:38-55 | After `initialize`, every counter and pedal level is 0 and the flags agree with them. The detector is in a gap, so no immediate gap follows. `initialize` forgets the timer's id without clearing it, so a timer that was armed is not disarmed. It becomes a stray and the stray count goes up by one. |
| GapDetector.NewDetector | js/GapDetector.js:17-33 | A new detector is consistent and in a gap, with a 1000 ms period. |
| GapDetector.Field | js/GapDetector.js:86-103 | A byte read past the end of a message is `undefined`. It is modelled as a value that is not 0. |
| GapDetector.Channel | js/GapDetector.js:86-103 | `message[0] & 0xf` is a channel in 0..15. |
| GapDetector.NoteOn | js/GapDetector.js:139-142 | Note-on increments exactly its own counter and clears noNotes. Nothing else changes. |
| GapDetector.NoteOff | js/GapDetector.js:150-158 | Note-off decrements exactly its own counter, floored at 0. noNotes becomes true when no counter is left non-zero. Nothing else changes. |
| GapDetector.Pedal | js/GapDetector.js:166-194 | Damper or sostenuto stores the level for its channel. A non-zero level clears noPedals. A zero level sets noPedals when no pedal is left on. |
| GapDetector.IsNoteOn | js/GapDetector.js:209-218 | The scan is true if and only if some counter is non-zero. |
| GapDetector.ScanNotes | js/GapDetector.js:209-218 | The scan from (i, j) is true if and only if a counter at or after (i, j), in row order, is non-zero. |
| GapDetector.IsPedalOn | js/GapDetector.js:225-232 | The scan is true if and only if some damper or sostenuto level is non-zero. |
| GapDetector.ScanPedals | js/GapDetector.js:225-232 | The scan from channel i is true if and only if some channel at or after i has a pedal on. |
| GapDetector.Dispatch | js/GapDetector.js:84-122 | A note-on with non-zero velocity counts its note once more. A note-off, or a note-on with velocity 0, counts it once less, floored at 0. Controllers 0x40 and 0x42 store the damper or sostenuto level of the channel. Every other status or controller leaves the detector unchanged. The gap flag, timer and period are never touched. |
| GapDetector.Detect | js/GapDetector.js:70-131 | An immediate gap is reported exactly when the detector was not in a gap, nothing was held and delta ≥ the period. The detector is out of a gap afterwards. A channel-mode message throws, leaving the timer disarmed and the counters unchanged. Otherwise the note counters, pedal levels and both flags are exactly those `Dispatch` computes, and the timer is armed exactly when no note and no pedal is on. |
| GapDetector.DetectIntended | js/GapDetector.js:70-131 | This is `detect` with the channel-mode handler it evidently meant to call. A channel-mode message re-initialises and arms the timer. Every other message behaves as in `detect`. Nothing throws. |
| GapDetector.Timeout | js/GapDetector.js:124-130 | A firing timer enters the gap and reports exactly one gap. Without an armed timer nothing happens. |
| GapDetector.StrayTimeout | js/GapDetector.js:124-130 | A timer orphaned by `initialize` still fires. It enters the gap and reports one gap, whatever is held by then. The stray count goes down by one. With no stray timer nothing happens. |
| GapDetector.StrayTimerReportsHeldNote | js/GapDetector.js:38-130 | Note-on, note-off (which arms the timer), `initialize`, then note-on again: the note is held and no timer is armed, yet the stray timer reports a gap. |
| GapDetector.NoteOffOnlyReleases | js/GapDetector.js:150-158 | Note-off keeps every counter non-negative. It never turns a note on. |
| GapDetector.PedalOffOnlyReleases | js/GapDetector.js:166-194 | A zero pedal level never turns a pedal on. |
| GapDetector.DispatchKeepsFlags | js/GapDetector.js:84-194 | After any message, noNotes holds if and only if every counter is 0, and noPedals if and only if every pedal level is 0. |
| GapDetector.DetectKeepsConsistent | js/GapDetector.js:70-131 | `detect` keeps the counters and flags consistent. When it does not throw, the timer is armed if and only if nothing is held. |
| GapDetector.DetectIntendedKeepsConsistent | js/GapDetector.js:70-131 | The corrected `detect` keeps consistency. The timer is armed if and only if nothing is held. |
| GapDetector.TimeoutKeepsConsistent | js/GapDetector.js:124-130 | The timer callback keeps consistency and leaves no timer armed. |
| GapDetector.OneReportPerSilence | js/GapDetector.js:70-131 | After a message that arms the timer, the timer reports a gap. The next message then reports no immediate gap. Without the timer, the next message reports one exactly when its delta reaches the period. |
| GapDetector.HeldNoteSuppressesGap | js/GapDetector.js:76-130 | While a note is held, neither an immediate gap nor the armed timer's gap is reported. A stray timer still can report one (`StrayTimerReportsHeldNote`). |
| GapDetector.NoteOnOffExample | js/GapDetector.js:84-130 | Note-on holds the note and disarms the timer. The matching note-off releases it and arms the timer. |
| GapDetector.ChannelModeLeavesNotesHeld | js/GapDetector.js:105-114 | As written, `B0 7B 00` after a held note throws and leaves the note counted. No timer is armed, so no gap is reported until that note is released again. |
| GapDetector.ChannelModeReleasesAll | js/GapDetector.js:105-115 | With the intended call, a channel-mode message releases every note and pedal, arms the timer, and the timer reports a gap. |
| Vlq.Encode | js/SmfEncoder.js:152-167 | A variable-length quantity is 1 to 4 bytes long. |
| Vlq.EncodeShape | js/SmfEncoder.js:155-164 | Every byte but the last has bit 7 set and the last has it clear. The length is 1, 2, 3 or 4 exactly when d is at most 0x7F, 0x3FFF or 0x1FFFFF, or above that. |
| Vlq.EncodeValue | js/SmfEncoder.js:152-167 | The base-128 digits encode d mod 2^28 for d ≥ 0, and d mod 128 for negative d. |
| Vlq.Parse | js/SmfEncoder.js:152-167 | A reader takes at most 4 bytes and stays inside the input. |
| Vlq.ParseValue | js/SmfEncoder.js:152-167 | The reader returns the base-128 value of the bytes it took, which is at most 0x0FFFFFFF. |
| Vlq.ParseEncode | js/SmfEncoder.js:152-167 | Round trip: for 0 ≤ d ≤ 0x0FFFFFFF, reading the encoding of d at any offset gives d and its length. |
| Vlq.ParseTerminated | js/SmfEncoder.js:152-167 | Bytes with bit 7 set, ended by one with bit 7 clear, within 4 bytes, read as their base-128 value. |
| Vlq.EncodeBoundaries | js/SmfEncoder.js:155-164 | These are the exact bytes at each length boundary: 0x7F/0x80, 0x3FFF/0x4000, 0x1FFFFF/0x200000, 0x0FFFFFFF. The value 0x10000000 encodes to `80 80 80 00`. |
| SmfEncoder.Initialize | js/SmfEncoder.js:34-36 | `initialize` empties the track. |
| SmfEncoder.Encode | js/SmfEncoder.js:43-64 | `encode` only appends to the track, and what it appends is the event's bytes. For a delta and lengths that fit in a VLQ, those bytes decode back to the same delta and message. That holds for a channel message, a sysex written as F0 with length − 1, and any other system message (or an empty one) escaped with F7. |
| SmfEncoder.NonAscii | js/SmfEncoder.js:79-85 | The scan is true if and only if some UTF-8 byte exceeds 127. |
| SmfEncoder.TextMarker | js/SmfEncoder.js:79-89 | The text payload gets the `{@UTF-8}` prefix if and only if some byte exceeds 127. Otherwise it is the bytes unchanged. |
| SmfEncoder.MetaText | js/SmfEncoder.js:74-96 | `meta_text` only appends. What it appends decodes back to a meta event of the given delta, whose data is the text payload. The type is any number and is kept modulo 256, as the file's byte array stores it. |
| SmfEncoder.MetaBinary | js/SmfEncoder.js:106-115 | `meta_binary` only appends. What it appends decodes back to a meta event of the given delta, whose data is the binary payload. The type is kept modulo 256. |
| SmfEncoder.DecodeVerbatim | js/SmfEncoder.js:47-49 | A channel event decodes back to its delta and message. |
| SmfEncoder.DecodeFramed | js/SmfEncoder.js:50-63 | A framed event decodes back to its delta, kind and data. The event is VLQ delta, then F0, F7 or FF type, then VLQ length and data. |
| SmfEncoder.DecodeMeta | js/SmfEncoder.js:106-115 | A meta event decodes back to itself. |
| SmfEncoder.DecodeSysex | js/SmfEncoder.js:50-56 | A sysex event decodes back to the full message, F0 included. |
| SmfEncoder.DecodeEscaped | js/SmfEncoder.js:57-63 | An F7-escaped system message, including an empty one, decodes back to itself. |
| SmfEncoder.DecodeEventBytes | js/SmfEncoder.js:43-115 | Every event whose delta and lengths fit in a VLQ decodes back to itself. |
| SmfEncoder.Build | js/SmfEncoder.js:121-144 | The file is the MThd chunk (format 0, one track, division 480), then `MTrk`, then be32(|track| + 11), then the tempo event, the track, and end-of-track. Its length is |track| + 33. |
| SmfEncoder.Be32 | js/SmfEncoder.js:175-180 | `_convertLength4` gives four bytes. |
| SmfEncoder.Be32RoundTrip | js/SmfEncoder.js:175-180 | The four bytes read back as the length mod 2^32, and as the length itself below 2^32. |
| SmfEncoder.ReadFile | js/SmfEncoder.js:121-144 | A file reader that accepts only the fixed layout returns the track, which is 33 bytes shorter than the file. |
| SmfEncoder.ReadBuild | js/SmfEncoder.js:121-144 | Round trip: reading a built file gives back exactly the track. |
| SmfEncoder.EventsBytes | js/SmfEncoder.js:43-64 | These are the bytes of each message event in order, one part per event. |
| SmfEncoder.EncodeAllTrack | js/SmfEncoder.js:43-64 | Encoding a sequence of events appends the concatenation of their bytes to the track. |
| SmfEncoder.EncodeAllSegments | js/SmfEncoder.js:43-64 | Each event's segment of that track decodes back to the event. |

## Left out

- Timers. The stabilisation timeout (js/BleMidiPacket.js:61-67) and the gap detector's idle timer (js/GapDetector.js:125-130) are explicit steps: `StabilizationTimeout`, `Timeout` and `StrayTimeout`. The gap detector's timer is an `armed` flag, and timers orphaned by `initialize` are a count. The relative order in which stray timers fire is not modelled. The model does not cover a timer from an earlier `initializeDecoder` that fires after a later one.
- Host timestamps are integer milliseconds. Floating-point arrival times are not modelled.
- `console.log` and the handler callbacks are left out. Each stage returns the events it would hand on, and the gap detector returns a `gap` flag.
- `TextEncoder` and `Blob` are left out. `meta_text` takes the UTF-8 bytes of the text, and the re-encoded `"{@UTF-8}" + text` is those bytes after the ASCII bytes of `{@UTF-8}`. `build` returns the byte sequence.
- The `midiFilter` member of the SMF encoder (js/SmfEncoder.js:26) is never used and is not modelled.
- The decoder's default switch branch (js/BleMidiPacket.js:182-185) is reachable only with a running status that was never set. There `statusByte.toString(16)` throws on `null`. The model ends the packet with status `MissingStatus`, which has the same effect on output and state.
- BleMidiReassembler: a fragment `05 F7` starts with a data byte, so it is appended as a continuation and the sysex stays open (`TrailingEoxInDataFragment`). The decoder never emits such a fragment: it cuts those bytes into `[05]` and `[F7]`, which do complete the sysex (`SysexExample`).
- `_deltaSysexAfter` (js/BleMidiPacket.js:310, 340) is written and never read. The after-counter is already 0 on those paths, so the model has a single after-counter.
- Vlq.Encode: values above 0x0FFFFFFF lose their high bits and negative values keep only the low seven bits. The round trip `ParseEncode` is stated for 0..0x0FFFFFFF only. Fractional deltas are not modelled.
- SmfEncoder.DecodeEvent: this reads back exactly one event's bytes. A reader for a whole track is not modelled, because a channel message in a track is delimited only by the data length its status implies. `EncodeAllTrack` and `EncodeAllSegments` state the track as the concatenation of the events' bytes.
- SmfEncoder.ReadBuild: stated for tracks shorter than 2^32 − 11 bytes. Above that, the length field wraps mod 2^32 (`Be32RoundTrip`).
- GapDetector.DetectKeepsConsistent: requires the message not to be a note-on whose note number is missing or ≥ 128. The source then increments a counter outside the 128-note grid and clears `noNotes`, which breaks the flag invariant.
- GapDetector.DispatchKeepsFlags: requires the same, for the same reason.
- GapDetector.DetectIntendedKeepsConsistent: requires the same, for the same reason.
- GapDetector.OneReportPerSilence: requires the same, for the same reason.
- BLE and Web MIDI device access, the sample pages and the upload server are outside the pipeline and are not part of this model.

## Findings

| source | as written | input that shows it | evidently intended | confidence | as-written member | corrected member |
|---|---|---|---|---|---|---|
| js/GapDetector.js:105-115 | The channel-mode case calls `_channnel_mode_message`, but the method is named `_channel_mode_message`. The call throws a TypeError after the immediate-gap decision and before any counter or timer change. | `90 3C 40` then `B0 7B 00` (All Notes Off): the note stays counted and no timer is armed, so no gap is reported until that note is released again. | The detector re-initialises: all notes and pedals are released, and the idle timer is armed. | not executed | GapDetector.ChannelModeLeavesNotesHeld | GapDetector.ChannelModeReleasesAll |

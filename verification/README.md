# Verification of the sensor protocol core

A Dafny model of the parts of this gateway driver that decode, reassemble and build sensor frames, and of
the stores they write to, with proofs of what they guarantee and, where they fall short, of exactly when.
Check it with `dafny verify dfyconfig.toml`.

| file | models |
|---|---|
| `Bytes.dfy` | bytes as numbers 0..255, and the fixed-width integers built from them |
| `Crc16.dfy`, `CrcFrames.dfy`, `CrcBursts.dfy` | the table-driven CRC, its error detection, what the CRC gate lets through, and exactly which bursts it finds |
| `Reassembly.dfy` | fragment reassembly as a state machine on values: one locked stretch of `ProcessFrame` or one timer event is one step |
| `Reassembler.dfy` | the same as classes whose fields are updated in place, proved against the state machine |
| `ReassemblyInvariant.dfy`, `ReassemblyRuns.dfy` | invariants, and guarantees over all runs and interleavings |
| `ReassemblyTimers.dfy` | which timers are stopped, and when one is left without its cache |
| `ReassemblyCompletion.dfy` | completion: an account of a transfer that every run follows |
| `ReassemblySender.dfy`, `SduReadBack.dfy` | a sender in order, what comes out, and when its parameter list is read back |
| `ReassemblyWire.dfy` | the source's own end marker, and the stale timer |
| `Tlv.dfy`, `TlvTheorems.dfy` | the parameter encoder, one specification decoder for the three hand-copied loops, and their theorems |
| `Parameters.dfy` | the parameter table and what the loops store |
| `Frames.dfy`, `Receiver.dfy` | the frame around every message, and `StartParser` on one frame |
| `ShardingParser.dfy`, `ControlResponse.dfy` | the second and the third decoding loop, the latter with its shared result and its dispatch |
| `Builders.dfy` | the builders of control frames, specified by what a receiver reads from them |
| `Topology.dfy` | the topology parser |
| `DeviceIndex.dfy` | the value store and the index from sensor ids to devices |

How the model stands to the source:

- Shifts and masks are divisions and remainders; bit-vectors occur only in the CRC. Integer widths are
  written out: `expected` is taken modulo 256, counts modulo 16, lengths modulo their fields.
- An index out of range or a slice beyond its capacity is the result `Panic` (`Fault` in the reassembler).
  A slice is an array with its spare capacity and a length, since Go checks an element against the length
  and a sub-slice against the capacity.
- The methods compute what the source computes, with its own shifts, comparisons and constants, and are proved
  against the specification functions; each of these is fixed a second time by a lemma that reads its result.
- The reassembler's end marker is a parameter. `WireIsEnd` is the source's own.
- A timer is armed, fired and waiting for the lock, between its deletion and its acknowledgement, done, or
  stopped. Steps of frames and of timers interleave in any order; a restart is two steps.
- The log of confirmed fragments and the set of half-done removals are history that only the specifications
  look at; `ConfirmedIsLogged` ties the log to the acknowledgements sent.
- Parsers of single values are functions in the parameter table; they either give a value or nothing.

What the proofs found where the code and the intent differ:

- Reassembly never completes on the wire: PSEQ is cut to 7 bits and the end test looks at the eighth, so the
  fragments that the parser hands over never put anything into `SDUCh` (`WireNeverCompletes`,
  `CompletesIffMarked`). For the same reason no fragment that fits is ever refused (`SectionAnswers`).
- The comment on `finalize` speaks of a complete SDU. Even with a working marker the emitted payload keeps the
  length of the completing fragment (`EmittedWholeIff`); a sender in order loses data unless all fragments
  before the last carry at most four bytes (`InOrderWholeIff`, `DataLost`), and a parameter list comes back
  only in as small a case, and only if its flag-2 lengths have equal bytes (`TransferReadBackIff`).
- Fragments below the first number to arrive are acknowledged and dropped (`BelowFirstIsAcknowledgedAndLost`).
- A retransmitted last fragment is emitted again, alone (`EmittedAgainIff`).
- A timer that has fired before a restart deletes the restarted transfer (`RestartRace`, `RestartLost`). Only
  such a callback leaves a timer armed without its cache (`StraysIff`, `ArmedIsLive`).
- The comments call length flag 2 consistent between encoder and decoder. The encoder and the first loop
  are little-endian, the other two loops big-endian (`BigEndianRoundTripIff`, `ThreeLoopsAgreeIff`).
- The control path cuts the CRC off and the loop behind it keeps two bytes back for one. A response with an
  encoded list loses its last parameter (`LastParameterNotReported`); one with a flag-2 length of unequal
  bytes may lose more, and no list is read whole (`NeverReadWhole`).
- `StartParser` checks no value against the frame; only Go's own check against the array behind the slice
  remains (`StartPanicIff`). A frame with one bare head of length flag 3 panics it (`BareHeadPanics`), and a
  parameter response of five bytes with such a head the guarded loops (`GuardedPanicIff`, `ShortLengthPanics`).
- The high byte of the CRC is sent first. So the CRC finds every burst of up to eight bits wherever it is, and
  no longer ones: nine bits over the end of the payload can pass (`RejectsBurstsIff`, `BurstMissed`).
  Up to sixteen bits are found if the first wrong one is at least seven bits before the end of the payload
  (`EarlyBurstRejected`), and in general not from a later start (`RejectsFromIff`).
- `maxParams` is 16 and the count field holds 4 bits; "Humidity" is sent with a length flag of 1 and no
  length byte (`GeneralParamsReadBackIff`). `BuildGeneralParamQueryFrame` names parameter 8 whatever it is
  asked for.
- Responses to parameter settings (control type 3, flag 1) go to the timestamp handler, and those to sensor-id
  requests (control type 5) to none. The timestamp handler stores one byte of the four.
- The topology lookahead requires 16 bytes where a node has 17; the comment says 16 (`CutShort`,
  `ParseFailsIff`).
- The index is rebuilt only at start, and `DeviceInit` does not touch it, so a device added or re-identified
  later is not found (`WritingEidIff`), nor is one whose eid is in lower case (`FrameCarriesIff`).

## Model

| member | source | states |
|---|---|---|
| ReassemblerClass.SDUCache.Absorb | internal/frameparser/sharding.go:112-141 | a fragment of the cache's own SSEQ, absorbed in place, gives the cache of the specification: repeats change nothing, early ones wait, the next one is appended and the gap behind it drained |
| ReassemblerClass.SDUCache.DrainBuffer | internal/frameparser/sharding.go:131-141 | the drain loop, in place, equals the recursive drain and ends because the map shrinks |
| ReassemblerClass.ReadHeader | internal/frameparser/sharding.go:42-69 | the shifts of the big-endian header word and the two length checks, with their early returns, read the header of the specification |
| ReassemblerClass.Copy | internal/frameparser/sharding.go:154-154 | the bytes of the buffer replace those of the payload as far as both go |
| ReassemblerClass.Reassembler.Stop | internal/frameparser/sharding.go:102-102 | an armed timer becomes stopped, one that has fired stays as it is |
| ReassemblerClass.Reassembler.FinalizeCache | internal/frameparser/sharding.go:150-156 | drops the cache, stops its timer if it is still armed, emits the frame with the buffer laid over its payload |
| ReassemblerClass.Reassembler.Begin | internal/frameparser/sharding.go:73-90 | the first fragment makes one cache with a timer of its own, is acknowledged, and completes at once if it is the end |
| ReassemblerClass.Reassembler.Continue | internal/frameparser/sharding.go:111-146 | a later fragment changes its own cache and no other object, and finalizes only on the in-order path |
| ReassemblerClass.Reassembler.LockedSection | internal/frameparser/sharding.go:42-147 | header checks and dispatch, in place, are one step of the state machine |
| ReassemblerClass.Reassembler.ProcessFrame | internal/frameparser/sharding.go:42-147 | the restart by self-call is a second step and never a third |
| ReassemblerClass.Reassembler.TimerExpires | internal/frameparser/sharding.go:77-80 | a callback that gets the lock deletes whatever cache its sensor has |
| ReassemblerClass.Reassembler.TimerFires | internal/frameparser/sharding.go:77-78 | an armed timer starts its callback, which has changed nothing yet and waits for the lock |
| ReassemblerClass.Reassembler.TimerAcknowledges | internal/frameparser/sharding.go:81-83 | it then reports failure for the SSEQ and PSEQ it was made with |
| ReassemblyInvariant.DrainRefines | internal/frameparser/sharding.go:131-141 | from any point below the gap the drain stops at the least number not received, with the buffer joining all below it and the map holding exactly what is above |
| ReassemblyInvariant.AbsorbOk | internal/frameparser/sharding.go:111-145 | every fragment keeps `expected` least missing, `buffer` joined and `outOfOrder` exact, and leaves the cache short of its end or completes it |
| ReassemblyInvariant.StepKeepsInv | internal/frameparser/sharding.go:42-156 | every step of every frame and timer keeps the invariant of all caches |
| ReassemblyRuns.RunKeepsInv | internal/frameparser/sharding.go:42-156 | the invariant holds after every run from the empty state |
| ReassemblyRuns.CounterNeverWraps | internal/frameparser/sharding.go:61-75 | on the wire the first number is below `expected`, which is at most 128, so the uint8 counter never wraps; no two caches share a timer |
| ReassemblyRuns.NoCacheOutlivesItsTimer | internal/frameparser/sharding.go:77-84 | in every reachable state a cache's own timer is armed or waiting for the lock; once it has had the lock the cache is gone, and one negative acknowledgement with the cache's SSEQ and first PSEQ follows |
| ReassemblyRuns.SectionAnswers | internal/frameparser/sharding.go:48-67 | a frame gets exactly one acknowledgement, with its own SSEQ and PSEQ (0 if it has none), positive for a whole frame and for every fragment that fits, unless it restarts, and then none yet |
| ReassemblyRuns.AcksConserved | internal/frameparser/sharding.go:42-147 | at every point of every run: acknowledgements sent = frames received + timers reported, less a restart still to run |
| ReassemblyRuns.OtherSensorsUntouched | internal/frameparser/sharding.go:70-97 | a frame changes no other sensor's cache and emits nothing for it |
| ReassemblyRuns.CachesLeaveOnlyBy | internal/frameparser/sharding.go:99-156 | a cache leaves the map only by the expiry of a timer of its sensor, a fragment of another SSEQ or its own completion |
| ReassemblyTimers.FrameStopsTimers | internal/frameparser/sharding.go:73-152 | a frame stops exactly the armed timer of the cache that it drops, by restart or completion, and touches no other; the timer of a first fragment is armed if its cache stays and stopped if it completes at once |
| ReassemblyTimers.LeavingStopsTimer | internal/frameparser/sharding.go:99-152 | a cache that leaves other than by an expiry leaves no timer that can still fire |
| ReassemblyTimers.StoppedStays | internal/frameparser/sharding.go:77-84 | in every run a stopped timer never fires, never deletes a cache and never reports |
| ReassemblyTimers.EachOnce | internal/frameparser/sharding.go:77-84 | in every run a timer fires, deletes and reports at most once each |
| ReassemblyTimers.StraysIff | internal/frameparser/sharding.go:77-80 | a step leaves a sensor an armed timer without its live cache iff it is a callback of the sensor that deletes another cache than its own, whose timer is armed |
| ReassemblyTimers.ArmedIsLive | internal/frameparser/sharding.go:73-156 | in every run, until such a callback comes, each armed timer of a sensor is that of its live cache |
| ReassemblyRuns.ConfirmedIsLogged | internal/frameparser/sharding.go:73-139 | a step that sends a positive acknowledgement for a fragment and leaves the sensor a cache adds exactly that fragment to what the cache has confirmed |
| ReassemblyRuns.PositiveConfirms | internal/frameparser/sharding.go:48-139 | every positive acknowledgement is for a whole frame or for the fragment of that SSEQ and PSEQ that the step processes |
| ReassemblyRuns.AcknowledgedIsHeld | internal/frameparser/sharding.go:84-139 | in every run, a fragment for which a positive acknowledgement was sent is in the buffer at its place or waits in the map as long as the sensor has had a cache since, unless its number is below the cache's first |
| ReassemblyRuns.BelowFirstIsAcknowledgedAndLost | internal/frameparser/sharding.go:113-115 | below the first number every fragment is acknowledged positively and leaves no trace |
| ReassemblyRuns.Confluence | internal/frameparser/sharding.go:111-145 | a cache is a function of its first number and the set of acknowledged fragments, if a number never has two contents |
| ReassemblyRuns.ConfluenceNeedsOneData | internal/frameparser/sharding.go:116-130 | for every two contents of one number the two orders end differently |
| ReassemblyCompletion.RunFollows | internal/frameparser/sharding.go:73-156 | every run of a transfer, from an idle sensor, one whose old transfer it replaces, or the middle of the transfer, with its own and stale timers expiring at any point, emits exactly what an account of the arrived numbers says, which an emission and a time-out reset; also after completion |
| ReassemblyCompletion.Completion | internal/frameparser/sharding.go:73-156 | after every such run the next step finalizes iff it hands over the last number missing between the first and the last since the last time-out; it then emits once the contents of first..last laid over that step's frame |
| ReassemblyCompletion.Incomplete | internal/frameparser/sharding.go:73-146 | as long as no stretch between two time-outs brings every number from the first to the last, nothing is emitted and only time-outs forget, in any order, with repetitions, among other sensors' traffic and timers |
| ReassemblyCompletion.RunsConverge | internal/frameparser/sharding.go:111-145 | two runs that stand at the same numbers and the same first one have equal `expected`, `buffer` and `outOfOrder` |
| ReassemblyCompletion.NothingUntilEnd | internal/frameparser/sharding.go:142-156 | after completion, or from any idle sensor, nothing is emitted as long as no fragment has the last number, whatever times out |
| ReassemblyCompletion.EmittedAgainIff | internal/frameparser/sharding.go:73-90 | the first fragment after completion is emitted at once, alone, iff it has the last number |
| ReassemblySender.SendableIff | internal/frameparser/sharding.go:44-69 | the fragments of an SDU, with their PDU headers, all decode again exactly if the SSEQ has 6 bits, the last number 7, and every content 16 bits of length |
| ReassemblySender.InOrderEmits | internal/frameparser/sharding.go:42-156 | frames that bring the numbers of an SDU in order, with any header bits besides, to a sensor with no cache or one of another transfer, come out as exactly one frame |
| ReassemblySender.InOrderCompletes | internal/frameparser/sharding.go:42-156 | so do the fragments of a sender that builds the PDU headers |
| ReassemblySender.EmittedWholeIff | internal/frameparser/sharding.go:150-156 | at every completion of every run the SDU lies over the completing frame's payload byte by byte, what is longer is cut off, and what is shorter leaves the rest; so the SDU is whole iff it is no longer than that payload |
| ReassemblySender.InOrderWholeIff | internal/frameparser/sharding.go:154-154 | for a sender in order that means iff the contents before the last fragment total at most four bytes |
| ReassemblySender.DataLost | internal/frameparser/sharding.go:154-154 | a run of two fragments in which the last byte is lost |
| SduReadBack.TransferReadBackIff | internal/frameparser/sharding.go:187-223 | an encoded list with a tail, cut into fragments and sent in order, is read back by the second loop iff it is empty, or every flag-2 length has two equal bytes and the fragments before the last carry at most two bytes more than the tail |
| ReassemblyWire.WireNeverCompletes | internal/frameparser/sharding.go:184-185 | with the source's end test no run ever emits a fragmented frame and `finalPSEQ` stays 0; with fragments only, as the parser hands over, nothing is emitted at all |
| ReassemblyWire.CompletesIffMarked | internal/frameparser/sharding.go:61-61 | some run emits a fragmented frame iff some 7-bit number satisfies the end test |
| ReassemblyWire.RestartRace | internal/frameparser/sharding.go:99-106 | after a restart the old callback still runs, and deletes the new cache, iff its timer had fired before |
| ReassemblyWire.RestartLost | internal/frameparser/sharding.go:77-106 | a run from the start in which that happens |
| Tlv.EncodeParamEntry | internal/frameparser/topo_data_ctl.go:123-161 | the appends build the header, the length field of the flag and the data |
| TlvTheorems.FitsIff | internal/frameparser/topo_data_ctl.go:123-161 | the encoding of an entry shows its type, flag, length and data exactly if the type has 14 bits, the flag two, and the length fits the field of the flag, four bytes for flag 0 |
| Tlv.StartParserRound | internal/frameparser/parser.go:116-144 | one round of the first loop is one round of the specification decoder, little-endian and without a bounds check |
| Tlv.PayloadRound | internal/frameparser/sharding.go:191-222 | one round of the guarded loops is one round of the same decoder, big-endian for flag 2 and with the value ending two bytes early |
| TlvTheorems.RoundTrip | internal/frameparser/topo_data_ctl.go:123-161 | wherever the encoding of a fitting list stands in a slice with two more bytes behind it, the little-endian decoder returns exactly that list |
| TlvTheorems.UniquelyDecodable | internal/frameparser/topo_data_ctl.go:123-161 | one concatenated encoding comes from one list |
| TlvTheorems.ListReadIff | internal/frameparser/sharding.go:191-223 | an encoded list, whole or cut off at any byte by the end of the slice, is returned by a guarded loop iff it is empty, or all its lengths read right and two more bytes fit behind it |
| TlvTheorems.BigEndianRoundTripIff | internal/frameparser/sharding.go:209-223 | the big-endian decoders return an encoded list iff every flag-2 length has two equal bytes |
| TlvTheorems.WithoutTrailerTheLastIsLost | internal/frameparser/sharding.go:216-223 | without two bytes behind the list the guarded loops lose its last entry, always and only that one |
| TlvTheorems.NeverWholeWithoutTrailer | internal/frameparser/sharding.go:216-223 | whatever its lengths and the byte order, a list with fewer than two bytes behind it is never returned whole, also as a part of what is returned |
| TlvTheorems.UnknownSensorYieldsNothing | internal/frameparser/sharding.go:224-228 | for an unknown sensor, where the counter is skipped, the loop still ends on every payload, with no item |
| TlvTheorems.GuardedPanicIff | internal/frameparser/sharding.go:191-223 | the guarded loops panic iff they come to a header with flag 3 four bytes before the end |
| TlvTheorems.StartPanicIff | internal/frameparser/parser.go:115-144 | the unguarded loop panics iff it comes to a header whose length field or value ends behind the array |
| TlvTheorems.ThreeLoopsAgreeIff | internal/config/param_table_parser_response.go:79-114 | the little-endian and the big-endian loops give the same items, stop and ending iff every entry on the way ends early enough and has no flag-2 length with unequal bytes |
| Parameters.LastReadingWins | internal/config/param_table_parser_response.go:121-137 | the values read are, for each name, that of the last item that reads as it |
| Parameters.ItemReadsRow | internal/config/param_table_parser_data.go:309-317 | an item of type 0x800 times feature plus code is looked up under that feature and code, and reads as what the row found there makes of its value |
| Parameters.StoreReading | internal/config/param_table_parser_response.go:121-135 | an item the table knows and can parse is written to the device under the table's name, any other changes nothing |
| Crc16.CRC16 | internal/frameparser/crc.go:44-53 | the two-table loop computes the bitwise reflected CRC of section 6.2.2 of the MODBUS over Serial Line guide |
| Crc16.TableIsHalf8 | internal/frameparser/crc.go:3-42 | all 256 words of the two tables are their index halved eight times |
| Crc16.FoldIsRun | internal/frameparser/crc.go:44-53 | byte-wise folding is the bit-serial register, low bit first |
| Crc16.GuideExample | internal/frameparser/crc.go:44-53 | the worked example of the guide, 0x02 0x07, has the CRC 0x1241 |
| Crc16.BurstDetected | internal/frameparser/crc.go:44-53 | every change within 16 consecutive bits changes the CRC, for messages of every length |
| Crc16.OddErrorsDetected | internal/frameparser/crc.go:44-53 | every odd number of bit errors changes the CRC |
| Crc16.BurstOf17Missed | internal/frameparser/crc.go:44-53 | 16 is the most: a 17-bit burst that does not |
| CrcFrames.AcceptsIffSealed | internal/frameparser/parser.go:39-63 | the gate lets a frame through iff it is a message followed by its CRC, high byte first |
| CrcFrames.BurstRejected | internal/frameparser/parser.go:39-78 | a burst of up to 16 bits in the payload, or any error in the CRC alone, is rejected |
| CrcFrames.OddErrorsRejected | internal/frameparser/parser.go:39-78 | an odd number of bit errors anywhere in a frame, CRC included, is rejected |
| CrcBursts.DamagedAcceptedIff | internal/frameparser/parser.go:39-63 | a damaged frame is accepted iff the error in its check field is what a register at 0 makes of the error in its payload |
| CrcBursts.EarlyBurstRejected | internal/frameparser/parser.go:39-78 | up to 16 bits are found, also over the end of the payload, if the first wrong one is seven or more bits before it |
| CrcBursts.BurstMissed | internal/frameparser/parser.go:41-41 | every non-empty payload has, for each start one to six bits before its end, an accepted burst of nine bits, or of ten from the last bit |
| CrcBursts.RejectsFromIff | internal/frameparser/parser.go:39-63 | of the bursts of w bits, up to 16, that begin k bits before the end of the payload all are rejected iff w is at most 8, or k at least 7, or k is 1 and w is 9 |
| CrcBursts.RejectsBurstsIff | internal/frameparser/parser.go:39-63 | every burst of w bits, anywhere in any frame, is rejected iff w is at most 8 |
| Frames.SealedSplits | internal/frameparser/parser.go:40-60 | a frame built from id, count, fragment flag, type and body and sealed with its CRC passes the gate and splits into the same parts, modulo the widths of the head byte's fields |
| Receiver.Parser.Receive | internal/frameparser/parser.go:32-172 | what one frame does: its route, the status sent, the timestamp, the frame handed on, and for data, alarms and fragments the values stored, the report and the panic of the loop; a rejected frame stores nothing but the timestamp |
| Receiver.ReadParts | internal/frameparser/parser.go:52-60 | the shifts and masks of the head byte give the parts of the frame |
| Receiver.SealedRoute | internal/frameparser/parser.go:78-110 | a sealed frame of a known sensor goes to reassembly iff its fragment flag is set, else to the loop for types 0 and 2, to the control handler for 4 and 5, and nowhere otherwise; what is handed on has its fields |
| Receiver.FragmentArrives | internal/frameparser/parser.go:78-110 | a fragment with its PDU header, sealed in a frame with the flag set, reaches reassembly as the same SSEQ, PSEQ and data |
| Receiver.AnswerTellsIntact | internal/frameparser/parser.go:63-96 | every data or alarm frame of a known sensor is answered once, to that sensor, with its count, the type one above, and 0xFF iff the CRC is right, else 0x00 |
| Receiver.Parser.ParseParameters | internal/frameparser/parser.go:112-162 | the first loop stores and collects exactly the readings of the decoder's items, also if it panics on the way |
| Receiver.DataFrameRoundTripIff | internal/frameparser/parser.go:112-162 | an intact data frame around an encoded list is decoded, and gives back exactly the list iff it has at most 15 entries |
| Receiver.BareHeadPanics | internal/frameparser/parser.go:136-138 | every intact frame of eleven bytes from a known sensor, plain or a fragment, with a count above zero and a head of length flag 3 panics the loop, whatever the array behind it holds |
| Receiver.AnswersAreNotAnswered | internal/frameparser/parser.go:63-107 | a frame causes at most one status frame, and no receiver answers a status frame |
| Receiver.DamagedIsRejected | internal/frameparser/parser.go:63-78 | a frame with an odd number of wrong bits, a burst of eight, an early burst of sixteen, or an error in its CRC alone is not stored, reassembled or handed on |
| Receiver.FramesKeepIndex | internal/frameparser/parser.go:153-219 | neither the timestamp nor the values of a frame change which device an id finds: a sound index stays sound on every store, an exact one exact |
| ShardingParser.ParseSdu | internal/frameparser/sharding.go:187-247 | the second loop stores exactly the readings of the decoder's items, and nothing for an unknown sensor |
| ControlResponse.Control.CommonParaResponse | internal/config/param_table_parser_response.go:73-141 | the third loop leaves exactly the readings in the shared result and the store, and raises the flag unless it panics |
| ControlResponse.Control.HandleFrameCtl | internal/frameparser/parser_response.go:10-27 | dispatch by the head byte; a parameter response is reported once and the flag is down again |
| ControlResponse.LastParameterNotReported | internal/frameparser/parser.go:61-98 | a response with a whole encoded list, whose flag-2 lengths have equal bytes, reports all its parameters but the last |
| ControlResponse.NeverReadWhole | internal/config/param_table_parser_response.go:79-114 | no encoded list, whatever its lengths, is read whole |
| ControlResponse.ShortLengthPanics | internal/config/param_table_parser_response.go:101-103 | a parameter response with four bytes of list that begin with a head of length flag 3 panics the loop for every sensor and every count above zero |
| Builders.BuildTimeParamFrame | internal/frameparser/time_ctl.go:20-45 | fails iff the flag is above 1; else the receiver reads id, count 0, type 4, control type 4 with the flag, and the four little-endian bytes of the timestamp |
| Builders.BuildSensorIDFrame | internal/frameparser/sensorid_ctl.go:15-41 | fails iff the flag is above 1; else the receiver reads id, count 0, type 4, control type 5 with the flag, and the new id |
| Builders.BuildParameterQueryFrame | internal/frameparser/usual_param_ctl.go:93-120 | the receiver reads id, count 15, type 4, control type 1, no content |
| Builders.BuildGeneralParamQueryFrame | internal/frameparser/topo_data_ctl.go:84-115 | the receiver reads id, count 1, type 4, control type 2, and a fixed list that does not depend on the type asked for |
| Builders.BuildParameterList | internal/frameparser/usual_param_ctl.go:41-65 | fails with the error of the first bad name, unknown, without value or of wrong length in this order; else the parts in order |
| Builders.ErrorDetermined | internal/frameparser/usual_param_ctl.go:43-57 | a list has an error exactly if some name does not fit, and only one |
| Builders.BuildGeneralParamFrame | internal/frameparser/usual_param_ctl.go:27-86 | when it fails and with what, and what the receiver reads for flag 0, 1 and above |
| Builders.GeneralParamsReadBackIff | internal/frameparser/usual_param_ctl.go:39-79 | the guarded decoder, in either byte order, reads back exactly the types and values given iff they are at most 15 and none is "Humidity" |
| Topology.TopoStore.ParseTopo | internal/config/param_table_parser_data.go:392-498 | replaces the shared list by the result, and leaves it alone on failure |
| Topology.ParseNodes | internal/config/param_table_parser_data.go:407-490 | the two index loops, with the hexadecimal and decimal strings built as in the source, compute the recursive parser |
| Topology.ToHex12 | internal/config/param_table_parser_data.go:417-427 | the twelve characters, written in place, are the bytes' hexadecimal digits |
| Topology.RenderIff | internal/config/param_table_parser_data.go:418-475 | the strings of a node are exactly the well-formed ones that read back as its bytes: EIDs as 12 upper-case hexadecimal digits, state and type each as a decimal number without leading zeros |
| Topology.RoundTripIff | internal/config/param_table_parser_data.go:430-490 | from a printed list with any choice of separators the parser makes strings that read back as the list iff no EID right behind an unseparated node starts with 0x24 |
| Topology.ParsedFromWindows | internal/config/param_table_parser_data.go:397-490 | every node reads back as the fields of a 17-byte window of its own, the first at the earliest match, the windows in order and disjoint |
| Topology.ParseFailsIff | internal/config/param_table_parser_data.go:407-466 | parsing fails iff nothing matches or the scan comes to a match with exactly 16 bytes left |
| Topology.CutShort | internal/config/param_table_parser_data.go:397-466 | a separated list whose last node is cut short keeps the others unless exactly one byte is missing |
| DeviceIndex.Devices.DeviceInit | internal/config/config.go:181-192 | the same write for a default value, without any change of the index |
| DeviceIndex.Devices.DeleteSensorIDMappingsByDevice | internal/config/config.go:208-221 | removes exactly the ids that lead to the device |
| DeviceIndex.Devices.RemoveDevice | internal/driver/wiresinkdriver.go:261-276 | removes the values and all ids of the device, or, if it has no values, nothing at all |
| DeviceIndex.Devices.UpdateSensorMapping | internal/config/idToDevice.go:57-83 | in every order of devices the rebuilt index leads from an id only to a device that stores it, has every stored id, leads to the device if no other stores it, and finds every device iff no two have the same id |
| DeviceIndex.Shown | internal/config/idToDevice.go:72-79 | the string taken for a value is what is stored: the text itself, the bytes as characters, or what it is shown as |
| DeviceIndex.IdIsStored | internal/config/idToDevice.go:66-82 | a device's id is the string that it stores under "eid", and none if that is empty |
| DeviceIndex.LookupSound | internal/config/idToDevice.go:49-83 | on every store and over every run of value writes, two-step removals and rebuilds, interleaved in any way, an id that leads to a device is stored by that device, but for devices half removed |
| DeviceIndex.LookupExact | internal/config/idToDevice.go:49-83 | if at the start every device with an eid is found, an id leads to a device iff the device stores it, over the same runs |
| DeviceIndex.LookupFromStart | internal/config/idToDevice.go:11-83 | from the driver's start, whatever entry the index begins with, the first rebuild makes both hold over every run: soundness always, exactness if no two devices have one id |
| DeviceIndex.RemovalLeavesNoId | internal/config/config.go:195-221 | on every store a half removed device has no id whatever is written meanwhile, and none leads to it once the removal is done |
| DeviceIndex.WritingEidIff | internal/config/config.go:181-192 | a write of "eid" leaves the index exact iff the device stores the same ids as before |
| DeviceIndex.DroppingValuesIff | internal/config/config.go:195-205 | deleting the values alone leaves the index exact iff no id leads to the device |
| DeviceIndex.FrameCarriesIff | internal/frameparser/parser.go:42-45 | a frame can carry an id iff it is 12 upper-case hexadecimal digits |

## Left out

- `SDUCh` holds 100 frames and `ProcessFrame` sends to it under the lock; here emitting never blocks.
- `Frame.Bytes` and the control field of an acknowledgement on the wire; an acknowledgement is its sensor, outcome, SSEQ and PSEQ.
- Wall-clock time and the 20 seconds of the reassembly timeout; only the order of timer events matters.
- `resetCommands`, which sends a reset frame, changes no store here; the alarm, monitoring and reset builders and `internal/config/tool.go` repeat the shapes that are modelled.
- The rows of the parameter table and the parsers of single values (floats, integers, arrays of them) are parameters; only the names, the key split and success or failure matter.
- In the device store, values that are neither strings nor byte slices are kept as what `fmt.Sprint` shows of them, and `parseDefaultValue` is left to the caller of `DeviceInit`.
- `AddMapping`, `DeleteMapping` and `UpdateMapping` change one index entry by hand; no code calls them.
- `UpdateSensorMapping` reads the values without their lock, and `DeleteSensorIDMappingsByDevice` the index without its lock; each is one step here, and each write to a map is atomic.
- Builders.ControlFrame: takes the id, head, control byte and CRC steps that each builder of the source repeats, so the builders differ only in what they pass to it.
- Topology.ParseNodes: the comma and length checks that the lookahead has already made are not repeated; none of them can fail.
- ReassemblerClass.Reassembler.ProcessFrame: covers the self-call with no timer callback between the two stretches; the interleaved case is in the runs of `ReassemblyInvariant.dfy`, where the restarted call is a step of its own.
- MQTT, `relay.SendFrame`, the EdgeX callbacks, YAML loading, the polling listener, `internal/driver/command.go` and `coerceTo`: input, output and plumbing. What is sent is appended to a sequence.

# GNSS base station: verified model

A Dafny model of the parts of the station software where a mistake loses data or lies about it: the
hub that cuts the receiver's byte stream into frames and fans them out, the RTCM 3 transport and its
CRC, the ephemeris assembly from broadcast navigation data, the archive writer that feeds a network
share through faults and restarts, the receiver configuration transaction with its automatic revert,
and a few smaller state machines (rate limiter, output filters, progress bar, mount unit names).

Code that changes state step by step is modelled by classes and loops proved against specification
functions; what the code is for is then proved of those functions, or kept as a class invariant over
every run. Integers are unbounded and bit strings are sequences of booleans, so machine widths are
written out (`% 256`, `% 2^64`, two's complement). Times are integers (nanoseconds, seconds for the
progress bar) except in the rate limiter, where they are reals, as `float64` values are. What the
network, the disks, the share and the receiver do is arbitrary unless stated: it comes in as
parameters, nondeterministic choice, or functions a class is given.

## The modules

| module | content |
|---|---|
| `BitSeq`, `Streams`, `Outcomes`, `SortedSets` | bits and bytes; cutting a stream with a recogniser; options; sorted listings |
| `Crc24`, `CrcTable` | CRC-24Q as division, and the table-driven loop |
| `Framing`, `Scanning` | the hub's recognisers, and the buffered scanner that refines a one-shot parse |
| `BitPacking`, `Rtcm`, `Sniffing` | bit writer and reader, transport frames, the epoch-end bit, the second framer |
| `Navigation`, `Gps`, `Galileo`, `Beidou`, `EphemerisStore`, `Broadcasts` | broadcast words to data sets to messages 1019, 1046 and 1042; receiver frames that carry given subframes and pages |
| `SwapTimes`, `ArchiveDisk`, `Archive` | file periods, what the disk and share owe each other, the writer |
| `Ubx`, `CfgData`, `Device`, `Replies`, `Links`, `Sessions`, `Txns` | UBX messages, key/value data, the receiver, polling and paging, what a read leaves unread, the transaction |
| `Counterexamples` | runs in which a promise about configuration fails |
| `Limiter`, `Filtering`, `FanOut`, `Progress`, `UnitNames` | token buckets, filters, fan-out, progress, unit names |

## What the proofs turned up

- `Archive.Writer.FlushToDest`: the sweep takes a failing `Stat` of the destination for "the name is
  free" whatever the error was. A file that exists is then overwritten if the copy goes through,
  although the comment promises otherwise. The contract says exactly when. `ForeignFileLost` and
  `FinishedFileLost` are concrete runs that lose somebody else's file and a finished file of the
  writer's own. Nothing excludes such sweeps: `Archive.Step` and `Archive.Run` cover them and say
  which files they can cost, and even then a spool file vanishes only for an equal share file.
- `Txns.PermanentAsBefore`: a commit that fails part way and is then reverted leaves the part that
  landed in BBR and Flash, although until a commit succeeds Flash is meant to hold the known-good
  values. The lemma gives the exact condition, `Counterexamples.HalfCommitted` a run: the
  acknowledgement of a commit is lost, the transaction is reverted, and the new value stays.
- `Txns.CommitAgrees`: a commit has no read-back. A key the receiver acknowledges but ignores leaves
  RAM and the permanent layers apart unless they already agreed; the lemma gives the condition,
  `Counterexamples.IgnoredKeySplits` a run.
- `Links.PagesExactly`, `Replies.AckHidesSilence`: an unanswered page request is reported as a
  timeout only when nothing else the poll collects was waiting. If the acknowledgement of the page
  before is still unread, the poll returns it instead, and the read ends with a part of the
  selection and no error. What it holds is still true of the receiver. The lemma says exactly when
  that happens, `Counterexamples.SilentTruncation` is a run: 64 of 65 keys and no error.
- `Beidou.ServedFromLatest`, `Beidou.ToeMixed`: the BeiDou data set is complete as soon as the three
  subframes have been seen, without any comparison of their issue of data although the comment above
  the check speaks of one, and its time of ephemeris can mix two broadcasts although the comment on
  `toeHi` says it cannot; `ToeMixed` says exactly when, and `Broadcasts.MixedServed` consumes seven
  frames in broadcast order and is served such a message.
- `Archive.EmptyFileStays`: a spool file that was opened but never written, and whose share file does
  not exist, is never finished, however often it is swept and though nothing fails: nothing is
  appended for it, so the share file is never created and asking for its length fails for ever.
  `Archive.Writer.FinishOnShare` and `FlushPending` say exactly which files are finished.
- `Counterexamples.KeyTwice`: the read-back after a write counts the keys it found against the keys
  asked for. A request that names a key twice can never satisfy it, so the first two read-backs are
  thrown away however complete they are, and a silent third one undoes a change that was in place.
  `Txns.ReadBack` says exactly when a read-back is whole.
- `SwapTimes.StableIffDividesDay`: a restart resumes the same file for every instant exactly when
  the swap period divides 24 hours.
- `Sniffing.ReservedBitsDisagree`: the classifier of raw files accepts RTCM frames with reserved
  header bits set, which the hub rejects.
- `Scanning.Scanner.Grow`: the branch that discards a full buffer as garbage cannot be reached.

## Model

| member | source | states |
|---|---|---|
| Crc24.CrcIsRemainder | internal/hub/framing.go:248-269 | the checksum of a message is the remainder of the message times x^24 by schoolbook long division by 0x1864CFB |
| Crc24.CrcLinear | internal/hub/framing.go:248-269 | the checksum of the bitwise sum of two equally long messages is the sum of their checksums |
| Crc24.CrcResidue | internal/hub/framing.go:190-196 | a message followed by three bytes has checksum zero exactly when those bytes are the message's own checksum |
| Crc24.BurstChangesCrc | internal/hub/framing.go:248-269 | changing any nonempty set of bits within a window of 24 bits changes the checksum |
| CrcTable.BuildTable | internal/hub/framing.go:248-262 | entry i of the table the initialiser builds is the register after clocking byte i through from the top |
| CrcTable.ByteStep | internal/hub/framing.go:263-269 | one table step on the integer register is clocking eight message bits through the polynomial register |
| CrcTable.Crc24q | internal/hub/framing.go:263-269 | the table-driven loop on integers computes the bitwise checksum of every byte string |
| CrcTable.CheckBytes | internal/hub/framing.go:190-196 | comparing the checksum as a number with three received bytes is comparing it bit by bit |
| Framing.TryStable | internal/hub/framing.go:139-245 | for every window and every continuation, once a recogniser accepts or rejects it does so with the same frame whatever follows |
| Framing.RtcmAcceptsResidueZero | internal/hub/framing.go:179-204 | a window of exactly its announced length is accepted if and only if the checksum over all of it is zero |
| Framing.BurstRejected | internal/hub/framing.go:179-204 | an accepted RTCM frame altered by any nonempty burst of at most 24 bits inside payload and checksum is rejected |
| Framing.ChecksumLoop | internal/hub/framing.go:214-222 | the first byte is the sum of the bytes modulo 256, the second the sum of the bytes each counted as often as bytes remain from it on |
| Framing.FletcherSums | internal/hub/framing.go:214-222 | the running checksum in closed form, for every byte string |
| Framing.UbxAcceptedSums | internal/hub/framing.go:205-230 | a UBX window is accepted if and only if it is complete and its last two bytes are these two sums of what lies between the sync bytes and them |
| Framing.NmeaFrames | internal/hub/framing.go:231-245 | a line is a frame if and only if it ends, within 128 bytes, before another dollar sign, and waits for more only while shorter and neither has come |
| Streams.ParseSplit | internal/hub/framing.go:88-176 | cutting a stream anywhere and carrying the residue over gives the same frames and drops as parsing it whole, for every stable recogniser |
| Streams.ParseSpellsStream | internal/hub/framing.go:139-176 | frames, dropped bytes and residue, joined in order, are the stream |
| Streams.NoFrameMissed | internal/hub/framing.go:139-176 | every offset of the parsed part where a recogniser accepts lies in an emitted frame, and if at its start, that frame is the accepted one |
| Scanning.Scanner.ScanRtcm3 | internal/hub/framing.go:179-204 | the imperative recogniser over the buffer gives the specified verdict on the window |
| Scanning.Scanner.ScanUbx | internal/hub/framing.go:205-230 | the imperative recogniser over the buffer gives the specified verdict on the window |
| Scanning.Scanner.ScanNmea | internal/hub/framing.go:231-245 | the imperative line search over the buffer gives the specified verdict on the window |
| Scanning.Scanner.Scan | internal/hub/framing.go:139-176 | extracts the next complete frame, keeping the whole-stream outcome and BytesRead = BytesFramed + BytesDropped + (end - start) |
| Scanning.Scanner.Grow | internal/hub/framing.go:107-126 | makes room without losing a byte; the discard branch of a full maximal buffer is dead because a waiting window is shorter than any frame |
| Scanning.Scanner.Fill | internal/hub/framing.go:107-136 | compacting, growing and reading change neither the undecided bytes nor anything already decided |
| Scanning.Scanner.Next | internal/hub/framing.go:88-104 | returns the frames of the one-shot parse in order, and the reader's error only when no complete frame is left |
| Scanning.Pump | internal/hub/framing.go:88-245 | for every stream, every way reads cut it, and the error with or after the last bytes, the frames returned are those of a one-shot parse of the whole stream |
| Scanning.TallyAccounts | internal/hub/framing.go:139-176 | the counters account for every decided byte, and resyncs count only dropped bytes |
| BitPacking.BitWriter.PutBit | internal/rtcm/encode.go:21-31 | one turn of the write loop appends exactly one bit, growing the buffer when a byte begins |
| BitPacking.BitWriter.Put | internal/rtcm/encode.go:21-31 | appends the low bits of the value, most significant first, whatever was written before |
| BitPacking.BitWriter.PutSigned | internal/rtcm/encode.go:33-33 | appends the two's complement of the value cut to the width, for every width |
| BitPacking.BitWriter.Pad | internal/rtcm/encode.go:43-47 | adds fewer than eight zero bits and ends on a byte boundary |
| BitPacking.ReadU | internal/ephemeris/bits.go:26-35 | the loop reads the unsigned number in any window of a byte string, bits beyond the end being zero, modulo 2^64 |
| BitPacking.ReadS | internal/ephemeris/bits.go:38-44 | reads the two's-complement number of any window of at most 64 bits |
| BitPacking.ReadBack | internal/rtcm/encode.go:316-331 | for any list of fields, the reader at the cumulative offset returns each value modulo 2^width, or the signed value when it fits |
| Rtcm.Wrap | internal/rtcm/encode.go:73-82 | refuses exactly payloads over 1023 bytes and otherwise builds header, payload and checksum |
| Rtcm.FrameAccepted | internal/rtcm/encode.go:49-82 | what the wrapper writes, the hub's scanner accepts as exactly one frame with those bytes, typed by the first 12 payload bits |
| Rtcm.AcceptedIsFrameOf | internal/hub/framing.go:179-204 | conversely, a frame the scanner accepts whole is the transport frame of its own payload |
| Rtcm.BuildMessage | internal/rtcm/encode.go:316-331 | any list of fields becomes a transport frame around those fields and fewer than eight zero bits, unless it is too long |
| Rtcm.MsmTypes | internal/rtcm/encode.go:235-245 | the MSM types are exactly the seven of each of the seven systems |
| Rtcm.EpochTerminator | internal/rtcm/encode.go:303-311 | returns a selected MSM type that no other selected one exceeds, and 0 exactly when there is none |
| Rtcm.ClearMultipleMessageBit | internal/rtcm/encode.go:268-295 | leaves its input untouched, reports a change exactly for a complete MSM frame holding the bit set, and then returns a fresh copy with that bit cleared and a valid checksum |
| Rtcm.PatchedAccepted | internal/rtcm/encode.go:268-295 | the patched copy of an accepted frame is accepted with the same type and length, differs in payload bit 54 alone, and is not changed by a second application |
| Sniffing.Classify | internal/rinex/sniff.go:114-155 | the counters are those of a one-shot parse with the classifier's own recogniser, and they add up to the length of the buffer |
| Sniffing.LooseVersusTry | internal/rinex/sniff.go:114-155 | offset by offset, the classifier accepts what the hub accepts except NMEA, and beyond that exactly RTCM frames with reserved bits set |
| Sniffing.ClassifierAgrees | internal/rinex/sniff.go:114-155 | on a stream the hub frames completely without NMEA, the classifier sees the same frames, so nothing is counted as other |
| Sniffing.ReservedBitsDisagree | internal/rinex/sniff.go:114-155 | any payload framed with a reserved bit set is a frame to the classifier and a dropped byte to the hub |
| Navigation.FieldsAreReads | internal/ephemeris/bits.go:26-44 | the fields the assemblies are specified with are what the bit reader returns for the bytes, unsigned and signed |
| Gps.PackWords | internal/ephemeris/gps.go:57-75 | the 30-byte buffer holds the low 24 bits of each of the ten words, in order |
| Gps.Assembly.AddSubframe | internal/ephemeris/gps.go:57-117 | folds the subframe its handover word names into the assembly and leaves it alone otherwise; fails exactly on fewer than ten words |
| Gps.Tracks | internal/ephemeris/gps.go:57-117 | in every run the assembly holds the fields of the latest subframe of each number |
| Gps.MessageIsBroadcast | internal/ephemeris/gps.go:127-159 | every orbit and clock field of message 1019 is the broadcast bit slice unchanged |
| Gps.ServedFromLatest | internal/ephemeris/gps.go:46-159 | in every run the data set is complete exactly when the latest subframes 1, 2 and 3 agree on IODE and low IODC, and message 1019 is then cut from those three |
| Gps.MessageLength | internal/ephemeris/gps.go:127-159 | message 1019 is 488 bits |
| Galileo.InavWord | internal/ephemeris/galileo.go:71-98 | joins the two halves of an I/NAV page, exactly for eight words whose even/odd and alert flags are as they must be |
| Galileo.Assembly.AddPage | internal/ephemeris/galileo.go:113-172 | folds the word of an intact page into the assembly; anything else changes nothing |
| Galileo.Tracks | internal/ephemeris/galileo.go:113-172 | in every run the assembly holds the fields and the issue of data of the latest word of each type, and the last nonzero satellite number of a word 4 |
| Galileo.MessageIsBroadcast | internal/ephemeris/galileo.go:176-207 | every field of message 1046 is the broadcast bit slice unchanged |
| Galileo.ServedFromLatest | internal/ephemeris/galileo.go:52-207 | in every run the data set is complete exactly when the latest words 1 to 5 have arrived and the first four share one IODnav, and message 1046 is then cut from those five |
| Galileo.MessageLength | internal/ephemeris/galileo.go:176-207 | message 1046 as the code writes it is 492 bits |
| Beidou.WordBits | internal/ephemeris/beidou.go:77-94 | keeps the 26 information bits of the first word and 22 of each other one |
| Beidou.Assembly.AddSubframe | internal/ephemeris/beidou.go:100-155 | folds a subframe with the right preamble into the assembly; anything else changes nothing |
| Beidou.MessageIsBroadcast | internal/ephemeris/beidou.go:159-189 | every field of message 1042 is the broadcast bit slice unchanged, the time of ephemeris joined from two given leading bits and subframe 3 |
| Beidou.ServedFromLatest | internal/ephemeris/beidou.go:66-189 | in every run the data set is complete exactly when subframes 1, 2 and 3 have arrived; the leading time-of-ephemeris bits are those in force when the latest subframe 3 was folded |
| Beidou.ToeTopAt | internal/ephemeris/beidou.go:125-150 | in every run the leading bits used are those of the latest subframe 2 before the latest subframe 3, whatever came after |
| Beidou.ToeInOrder | internal/ephemeris/beidou.go:125-150 | they are the current ones whenever no subframe 2 came since, subframes of other numbers notwithstanding |
| Beidou.ToeMixed | internal/ephemeris/beidou.go:125-189 | in every run, message 1042 is the one of the latest subframes 1, 2 and 3, time of ephemeris included, if and only if the leading bits have not changed since the latest subframe 3 |
| Beidou.MixedBroadcast | internal/ephemeris/beidou.go:98-189 | for every satellite, subframes 1 to 5, 1 and 2, all with the preamble, after which the message joins the times of ephemeris of two broadcasts |
| EphemerisStore.Store.Consume | internal/ephemeris/store.go:102-165 | every assembly is what its own satellite's frames make of it in the whole run; other, malformed and refused frames change no data set, and only the last two are counted bad |
| EphemerisStore.Store.GpsKept | internal/ephemeris/store.go:102-165 | a frame that is no GPS L1 C/A subframe leaves the GPS side as it was |
| EphemerisStore.Store.GalileoKept | internal/ephemeris/store.go:102-165 | a frame that is no Galileo I/NAV word leaves the Galileo side as it was |
| EphemerisStore.Store.BeidouKept | internal/ephemeris/store.go:102-165 | a frame that is no BeiDou D1 subframe leaves the BeiDou side as it was |
| EphemerisStore.Store.Messages | internal/ephemeris/store.go:180-213 | one message for exactly the satellites whose latest broadcasts form one complete data set heard within two hours, each cut from those broadcasts |
| EphemerisStore.GpsAccepted | internal/ephemeris/store.go:180-213 | the hub's scanner accepts a served message as exactly one frame of type 1019 |
| EphemerisStore.GalileoAccepted | internal/ephemeris/store.go:180-213 | the hub's scanner accepts a served message as exactly one frame of type 1046 |
| EphemerisStore.BeidouAccepted | internal/ephemeris/store.go:180-213 | the hub's scanner accepts a served message as exactly one frame of type 1042 |
| EphemerisStore.TooOld | internal/ephemeris/store.go:180-213 | of the readiness of a data set nothing depends on the time but that its last subframe is at most two hours old |
| Broadcasts.GpsCarried | internal/ephemeris/store.go:102-140 | every GPS subframe, laid out as ten 30-bit words with any parity in little-endian double words under system 0 and signal 0, is accepted by the hub and folded as exactly that subframe |
| Broadcasts.GalileoCarried | internal/ephemeris/store.go:141-150 | every page under system 2 and signal 1 is folded as the word of its two halves if it is an even and an odd one and neither an alert, and refused otherwise |
| Broadcasts.BeidouCarried | internal/ephemeris/store.go:151-175 | every D1 subframe of a satellite that is not geostationary, with any parity, is folded as exactly that subframe if it begins with the preamble, and refused otherwise |
| Broadcasts.OthersIgnored | internal/ephemeris/store.go:102-175 | frames of any other system, signal or number of words, or of old receivers, contribute nothing |
| Broadcasts.Heard | internal/ephemeris/store.go:102-165 | every run of D1 subframes with a preamble is what the collector makes of some history of frames |
| Broadcasts.ServedMixed | internal/ephemeris/store.go:180-213 | in every history, a served message 1042 is the one of the satellite's latest subframes, time of ephemeris included, if and only if the leading bits have not changed since the latest subframe 3 |
| Broadcasts.MixedServed | internal/ephemeris/store.go:102-213 | a collector that consumes seven accepted frames in broadcast order and serves a message that is not that of the latest subframes |
| SwapTimes.SwapBoundary | internal/archive/writer.go:97-105 | terminates with the first instant after t that is a whole number of periods after midnight |
| SwapTimes.BoundaryUnique | internal/archive/writer.go:97-105 | there is only one such instant |
| SwapTimes.LeastAligned | internal/archive/writer.go:97-105 | for a period dividing the day it is the least multiple of the period after t |
| SwapTimes.StableIffDividesDay | internal/archive/writer.go:97-142 | all instants of one period are given the same start, across restarts, if and only if the period divides 24 hours |
| Archive.TopUpKeepsPrefix | internal/archive/writer.go:275-334 | whatever part of an append lands, the share copy stays a prefix of the spool copy and all other promises hold |
| Archive.TopUpHeals | internal/archive/writer.go:275-303 | one fault-free top-up makes share and spool copies equal after any earlier fault |
| Archive.Writer.TopUp | internal/archive/writer.go:275-303 | starts from the share's true length, not the recorded one, and returns the true length unless it fails |
| Archive.Writer.AppendRange | internal/archive/writer.go:310-334 | appends the missing range, or the part that landed, and reports the bytes appended |
| Archive.Writer.FinishOnShare | internal/archive/writer.go:386-414 | succeeds if and only if the top-up worked, both lengths could be asked for and there is a share file; the sidecar then goes, and unless removing fails the spool file with it, entered as finished with exactly its bytes; it is removed only then, and no other share file is touched |
| Archive.Writer.FreeName | internal/archive/writer.go:221-236 | chooses the first name that is known to be free, and none only if all hundred are in use or could not be asked for |
| Archive.Writer.FlushToDest | internal/archive/writer.go:418-468 | the file leaves the spool exactly when nothing fails on the way to the plain name, or to the first free one, and is then complete there; all share files are as before if and only if it is not so that asking for the plain name failed, it existed with other bytes, and the copy landed; the books lose exactly a finished file struck that way |
| Archive.ForeignFileLost | internal/archive/writer.go:418-468 | a concrete run in which a file somebody else owns is overwritten |
| Archive.FinishedFileLost | internal/archive/writer.go:418-468 | a concrete run in which a finished file of the writer's own is overwritten when its name comes up again |
| Archive.EmptyFileStays | internal/archive/writer.go:386-414 | a run in which an empty spool file with a sidecar stays for any number of sweeps without a fault |
| Archive.Writer.FlushPending | internal/archive/writer.go:482-515 | for every pattern of faults, every spool file is gone exactly when the faults of its own entry let it go, and is then complete where it went and without a sidecar; one with a usable sidecar is topped up where it points, and only while another file is open; every share file is left alone but those it owns and exactly computed overwritten ones, and exactly the finished files among the latter are lost |
| Archive.Writer.Open | internal/archive/writer.go:126-177 | a restart with a usable sidecar resumes the same share file, otherwise the first free one is chosen, if any, inside the configured directory, and recorded; the spool file is appended to, never truncated |
| Archive.Resumed | internal/archive/writer.go:126-177 | a file closed in the middle of its period, or interrupted, resumes the same share file when it is opened again in that period, if its sidecar was written, and loses nothing that was in the spool |
| Archive.Writer.SyncToDest | internal/archive/writer.go:242-265 | flushes the buffer to the spool and tops the share copy up as the faults allow, completely and with a new sidecar when there are none |
| Archive.Writer.CloseCurrent | internal/archive/writer.go:350-381 | loses no accepted byte; a complete file whose finishing meets no fault is finished, and a suspended one keeps its sidecar; the spool file is removed only when complete and equal to the share file, and foreign share files are left alone |
| Archive.Writer.Rotate | internal/archive/writer.go:336-381 | everything accepted for the old file is flushed, and the file finished unless finishing meets a fault, before a new one is opened for the period of now; no spool file is removed without an equal share file; foreign share files stay |
| Archive.Writer.Write | internal/archive/writer.go:107-124 | the frame is appended to what was accepted for its file and to nothing else, its arrival lies in the file's period plus the margin, and when it rotates the old file is finished unless that meets a fault, no foreign share file is touched and no spool file removed without an equal share file |
| Archive.Step | internal/archive/writer.go:107-515 | at every event: a spool file vanishes only when a share file holds exactly its bytes; a share file that is not growing changes only if the event is one that touches it; the books lose exactly what an overwriting sweep struck; the accepted bytes change by exactly the frame, or at a restart by exactly the open file's write buffer |
| Archive.Run | internal/archive/writer.go:107-515 | over every run of writes, syncs, faults, share truncations, rotations, restarts, sweeps and foreign writes: every byte flushed for a name stays accounted for, in its parts or the spool, in order; every part is intact on the share unless a sweep overwrote it; all share files present before, not growing and not touched by such a sweep or somebody else are unchanged; growing ones are prefixes of the spool; what was accepted is exactly what arrived, in files whose period covers it, but for drops at restarts of no more than what arrived for the name since the buffer was last flushed and the writes did not spill |
| Ubx.BuildFrame | internal/receiver/ubx.go:71-81 | builds sync bytes, class, id, 16-bit length, payload, and the two checksum bytes as closed sums |
| Ubx.AckInBytes | internal/receiver/ubx.go:71-81 | an acknowledgement frame byte for byte, checksum included |
| Ubx.BuiltIsDrained | internal/receiver/ubx.go:71-176 | a built frame is drained as exactly that one message with nothing left over |
| Ubx.Drain | internal/receiver/ubx.go:143-176 | takes exactly the frames of a one-shot parse out of the buffer, keeps the wanted ones and acknowledgements in order, and leaves the parse's residue |
| Ubx.DrainCut | internal/receiver/ubx.go:104-176 | draining a part and then its residue with the rest yields the frames and residue of draining the whole |
| Ubx.MessagesCut | internal/receiver/ubx.go:104-176 | the messages a session collects do not depend on where its reads were cut |
| CfgData.KeySizes | internal/receiver/ubx.go:48-60 | the width of a value is given by bits 28 to 30 of its key |
| CfgData.KeyInBytes | internal/receiver/config.go:57-104 | a key travels as four bytes, the least significant first |
| CfgData.ParseCfgData | internal/receiver/config.go:57-72 | the loop returns the longest run of complete pairs of known width at the start of the data |
| CfgData.ParseSerialised | internal/receiver/config.go:57-104 | parsing inverts serialisation for every list of pairs with values of their keys' widths |
| Device.SetParsed | internal/receiver/receivertest/fake.go:167-184 | a serialised write request is read back as itself exactly when every key is stored |
| Device.Receiver.ValGet | internal/receiver/receivertest/fake.go:124-165 | adds to its output its other traffic, then the requested page and its acknowledgement, or a refusal for an empty page |
| Device.Receiver.ValSet | internal/receiver/receivertest/fake.go:167-199 | applies all of a request to the layers it names, sparing ignored keys, or none of it, and acknowledges accordingly |
| Device.AckBytes | internal/receiver/receivertest/fake.go:167-199 | the acknowledgements and the refusal the receiver sends, byte for byte |
| Replies.Replied | internal/receiver/ubx.go:104-140 | the page is seen exactly once its frame was read; after that nothing on its way can answer a later request |
| Replies.Refused | internal/receiver/ubx.go:104-140 | a refusal is seen exactly once its frame was read |
| Replies.PollEnds | internal/receiver/ubx.go:104-140 | at every moment the poll may stop, what it took decides the result, and the rest cannot be mistaken for another answer |
| Replies.NextPage | internal/receiver/config.go:19-53 | a page extends the part already read, and a page of fewer than 64 keys completes it, also when the count is a multiple of 64 |
| Replies.ReadableWhole | internal/receiver/config.go:19-53 | paging brings in every key of a selection if and only if there are at most 4096 |
| Replies.AskedFor | internal/receiver/config.go:335-367 | every wanted key is among those asked for, whether polled by itself or through its group |
| Replies.AckHidesSilence | internal/receiver/ubx.go:104-140 | an acknowledgement still waiting from an earlier request is always collected, so it hides that the present one goes unanswered |
| Links.PagesExactly | internal/receiver/config.go:19-53 | with k the first page not both answered and full: an unanswered request loses everything from page k on and is reported if and only if k is not the first and nothing the poll collects was waiting; otherwise the selection is read whole without an error |
| Links.ShortMeans | internal/receiver/config.go:19-53 | a selection comes back short without an error only if its first request went unanswered, or a later one did while something waiting hid it |
| Links.MissingMeansShort | internal/receiver/config.go:16-55 | a stored key asked for and missing from a result without error belongs to a selection that came back short that way |
| Links.MissingFromGroup | internal/receiver/config.go:335-367 | a stored key requested and missing although its group was read without an error belongs to a selection of that group that came back short that way |
| Links.AnsweredReads | internal/receiver/config.go:335-367 | when every request from now on is answered, every stored key that is asked for is read |
| Links.LaterAttempts | internal/receiver/config.go:186-198 | a read-back is whole if everything is answered from its second attempt on, or from its third; with a key asked for twice, only from the third |
| Sessions.Session.Poll | internal/receiver/ubx.go:104-140 | however bytes are cut and mixed with other traffic: exactly the requested page, a refusal exactly for an empty page; unanswered, no data, and a timeout if and only if nothing else it collects was waiting; what is left unread is determined by the cuts |
| Sessions.Session.ReadPages | internal/receiver/config.go:19-53 | reads a prefix of the selection page by page, all of it (up to 4096 keys) if every request is answered; its length, the error and what is left unread are exactly those of the page run that PagesExactly describes |
| Sessions.Session.ValGet | internal/receiver/config.go:16-55 | returns exactly what the page runs of the keys brought in, with true values, and an error exactly when one of them ends with one; everything when every request is answered |
| Sessions.Session.ReadKeys | internal/receiver/config.go:335-367 | returns exactly the requested keys that the page runs of their groups brought in, with true values, and an error exactly when a group's read ends with one; every stored key when all requests are answered and no selection exceeds 4096 keys |
| Sessions.Session.ValSet | internal/receiver/config.go:75-115 | sends nothing if a value has the wrong width; otherwise reports acknowledgement, refusal or silence as the receiver dealt with this very request |
| Sessions.Session.SetChunked | internal/receiver/config.go:314-329 | the requests obeyed are batches of 1 to 64 pairs joining up to the prefix that landed, which is all of it on success; each failure has its reason; for stored pairs of the right width, of any number, what lands and the result are exactly those DeliveredExactly describes |
| Sessions.DeliveredExactly | internal/receiver/config.go:314-329 | with k the first batch not acknowledged, exactly k full batches have landed, and that one too if only its acknowledgement was lost; with none, everything has |
| Txns.Restored | internal/receiver/config.go:262-290 | writing the snapshot back over any landed part of a change restores the configuration exactly, ignored keys included |
| Txns.ReadBack | internal/receiver/config.go:186-198 | brings in every key if and only if the third attempt does or, no key being asked for twice, one of the first two does |
| Txns.Apply | internal/receiver/config.go:152-230 | never touches BBR or Flash; refuses a request as unreadable exactly when the snapshot misses a key or a read fails; accepts it exactly when the snapshot was read, the write was acknowledged to the end, RAM then holds it and the read-back is whole, and then nothing else changed; otherwise sends the snapshot back, whose delivery decides about RAM, which is as before if it was acknowledged |
| Txns.Txn.Commit | internal/receiver/config.go:237-257 | finishes the transaction only when both permanent layers were written; BBR and Flash hold the longest part of the change that ever landed, a commit landing exactly the batches the receiver's answers determine, for any number of keys; RAM is untouched; a finished transaction sends nothing |
| Txns.Txn.RevertNow | internal/receiver/config.go:262-290 | finishes the transaction once; as much of the snapshot as is delivered is written back to RAM, all of it when acknowledged, and then RAM is as before the change; BBR and Flash are untouched |
| Txns.Txn.Drive | internal/receiver/config.go:237-290 | over every sequence of commits, reverts and timer expiries: each channel is closed at most once, after the end nothing changes, without a commit BBR and Flash never change, and at every end they hold the longest part that landed, over what they held before |
| Txns.CommitAgrees | internal/receiver/config.go:237-257 | after a commit RAM, BBR and Flash agree on the changed keys if and only if every ignored one already had its new value in BBR and Flash |
| Txns.PermanentAsBefore | internal/receiver/config.go:237-290 | whatever became of a transaction, BBR and Flash are as before it if and only if everything that ever landed there, ignored keys apart, was there already |
| Txns.PutPrefixes | internal/receiver/config.go:237-257 | a commit repeated after a partial one leaves what the longer of the two parts would |
| Counterexamples.HalfCommitted | internal/receiver/config.go:237-290 | a run in which the acknowledgement of a commit is lost, the revert succeeds, and BBR and Flash keep the new value |
| Counterexamples.IgnoredKeySplits | internal/receiver/config.go:237-257 | a run in which a commit succeeds although BBR and Flash keep the old value of an ignored key |
| Counterexamples.SilentTruncation | internal/receiver/config.go:16-55 | a run in which a group of 65 keys is asked for and all but one of them come back, without an error |
| Counterexamples.SecondReadBack | internal/receiver/config.go:186-198 | a run in which the receiver misses the first read-back after a write and the change is accepted |
| Counterexamples.KeyTwice | internal/receiver/config.go:186-198 | a run in which two complete read-backs are thrown away because a key is named twice, and the change is undone |
| Limiter.Table.Sweep | internal/web/access.go:189-200 | at most once a minute, removes exactly the buckets that are full and idle, and so only full ones |
| Limiter.Table.AllowN | internal/web/access.go:150-176 | decides exactly as plain buckets that are never deleted, except that a new key is turned away when the table is full; below 4096 keys never |
| Limiter.Table.Refund | internal/web/access.go:179-187 | gives tokens back as the plain bucket would, also to a key already swept |
| Limiter.Charged | internal/web/access.go:150-187 | a grant costs what was asked for, a refusal nothing, a refund gives back up to the burst, and no other bucket changes |
| Limiter.FullAgain | internal/web/access.go:150-176 | a key left alone for burst divided by rate has the whole burst again |
| Limiter.IdleMeans | internal/web/access.go:189-200 | a bucket idle for a second more than filling takes is always dropped, one used within the whole seconds of filling never |
| Limiter.TracksLater | internal/web/access.go:189-200 | a table thinned of full buckets still tracks the plain one at any later time |
| Limiter.WindowBound | internal/web/access.go:150-187 | between any two requests of a run a key is granted at most one burst, plus rate times the time between, plus refunds |
| Filtering.NewFilter | internal/hub/filter.go:36-53 | refuses exactly a zero type or negative interval; otherwise allows exactly the listed types with the interval of their last specification |
| Filtering.Filter.Pass | internal/hub/filter.go:99-121 | passes by protocol, type and elapsed time, and remembers only emissions of decimated types |
| Filtering.SpacedApart | internal/hub/filter.go:99-121 | in every run two emissions of one decimated type are at least its interval apart |
| Filtering.NoneDueSkipped | internal/hub/filter.go:99-121 | in every run a selected frame is held back only when one of its type went out less than its interval before |
| FanOut.OfferedMeans | internal/hub/hub.go:327-341 | a frame the filter passes is queued and counted as sent if there is room, and counted as dropped only if there is none; any other changes nothing |
| FanOut.OfferedFair | internal/hub/hub.go:327-341 | offering a frame keeps Sent + Dropped equal to the frames the filter passed, received plus queued frames a subsequence of them, and all of them as long as nothing was dropped |
| FanOut.Sub.Offer | internal/hub/hub.go:327-341 | queues the frame and counts it sent if the filter passes it and there is room, counts it dropped if there is none, and otherwise changes nothing; never on a closed channel |
| FanOut.Hub.Subscribe | internal/hub/hub.go:178-191 | registers a new open subscriber under an unused number with at least one place in its queue |
| FanOut.Hub.Close | internal/hub/hub.go:74-81 | unregisters and closes once; a second call does nothing |
| FanOut.Hub.Dispatch | internal/hub/hub.go:314-342 | every subscriber's new state depends on its own old state and the frame alone, in whatever order they are served; the frame is counted once and for its protocol |
| FanOut.Run | internal/hub/hub.go:178-342 | over every run of subscribing, closing, receiving and dispatching: each subscriber present has been offered exactly the frames since it joined, its counters account for what its filter let through of them, it has received or has queued all of that as long as nothing was dropped, emissions of a decimated type are spaced, and a selected frame is held back only when one of its type went out less than its interval before |
| Progress.FedSound | internal/downloader/job.go:79-118 | the fraction never decreases and stays within 0.99 and 1 - 2^-pass |
| Progress.FedValue | internal/downloader/job.go:79-118 | a timestamp within the file moves the bar to its place in the pass, of which each covers half of what is left, never back and never beyond 99%; a stamp over five minutes before the last begins a pass |
| Progress.PassFills | internal/downloader/job.go:79-118 | a pass that reaches the end of the file fills its whole share of the bar, up to 99% |
| Progress.Tracker.Feed | internal/downloader/job.go:79-118 | follows the specified bar for every line, with or without a timestamp |
| Progress.RunJob | internal/downloader/downloader.go:946-959 | over all files of a job and all lines of each, exactly one percentage is shown per line, the one the file's bar and place in the job call for; they never decrease and stay below 1 |
| UnitNames.UnitNameForMount | internal/setup/units.go:89-110 | computes the specified escaping of the trimmed path |
| UnitNames.Escapings | internal/setup/units.go:94-108 | byte for byte: a slash is a dash, exactly letters, digits, colon, underscore and a dot not in front stay, any other byte is written in two small hexadecimal digits |
| UnitNames.TrimOnly | internal/setup/units.go:89-90 | trimming takes away slashes at the ends and nothing else |
| UnitNames.NameBack | internal/setup/units.go:89-110 | decoding the unit name recovers the trimmed path of every path but the root |
| UnitNames.NamesDistinct | internal/setup/units.go:89-110 | two paths have the same unit name if and only if their trimmed forms are the same |
| UnitNames.OnlyRootIsDash | internal/setup/units.go:91-93 | the root and nothing else is named "-" |
| UnitNames.NameLegal | internal/setup/units.go:89-110 | a name has only letters, digits, colon, underscore, dash, backslash and dots, and does not begin with a dot |

## Left out

- Archive.Run: foreign writers stay away from chosen and finished share files, the share loses tails only of unfinished ones, and sidecar and local spool writes are atomic and succeed; power loss in the middle of a spool write is not modelled.
- Archive.Writer.Write: failures of the local spool file itself, and the error counters and statistics, are not modelled.
- Paths: a share path is a directory, an archive name and an alternate number instead of a string, so the naming pattern is a function of the period's start and numbered names never collide with archive names; archive names do not begin with a dot.
- Sessions.Session.Poll: a reply arrives before the deadline or never, so deadlines and late replies are not modelled; the traffic between replies is arbitrary but made of whole frames that answer nothing; write errors and end of file of the port are left out.
- Device.Receiver.ValGet: one key per request, as the session always asks; the test receiver has no BBR layer, so BBR is added beside RAM and Flash in the same way, and stored values have the width of their keys.
- Txns.Apply: the waits between attempts and after signal changes are not modelled, and no one else changes the receiver's configuration meanwhile.
- Txns.Txn.Drive: the mutex makes commits, reverts and timer callbacks atomic, so a run is a sequence of them; a timer callback may come at any moment, also after it was stopped.
- Limiter.Table.AllowN: reals instead of floating point, and requests for a nonnegative number of tokens at nondecreasing times.
- FanOut.Hub.Subscribe: filters shared between subscribers are excluded, as decimation memory would be shared with them.
- FanOut.Run: frames are dispatched at times that do not run backwards, and a subscriber that has left is not followed further; what it still receives is Sub.Receive's contract.
- Scanning.Scanner.Next: the returned frame aliases the buffer in the original and is a value here, so a caller that keeps it across calls is not modelled; a reader that returns no bytes and no error for ever is excluded.
- Ephemeris structures: missing or short words are refused where the source returns an error; the GPS decoder's error branch is dead because the store passes on ten words. Status reporting and the subscription loop are left out.
- Galileo message 1046: the layout is the one the code writes; no conformance to a published message table is claimed. BeiDou consistency of issue of data is not established by the code and not claimed.
- The files in progress jobs: parsing of time stamps out of converter output, stage texts and cancelled jobs are left out.
- Mount unit names work on bytes, as the source does; normalisation of repeated inner slashes is left to the caller as in the source.
- Sockets, serial ports, HTTP handlers, databases, process control, encryption, compression, configuration files and coordinates are not part of this model.

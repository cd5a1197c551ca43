# Verified model of the mining-vehicle HMI

A Dafny 4.11 model of the parts of the HMI that keep state: the gateway link, command retransmission, the
MD5 digest, log rotation, and the dispatch of vehicles at a work site (queue, crusher grants, stop
allocation), with the warning bits and the position averager beside them. `dafny verify dfyconfig.toml`
checks everything.

Each source class that changes its fields is a Dafny class; every method is proved equal to a specification
function of its old state, and the theorems are about those functions over all inputs and all runs.

## What is proved

**Gateway link** (`Jt808`, `CmdDeal`, `Link`, `Recovery`, `Wire`). Frames are the stuffed content plus CR LF,
in-place unstuffing and scratch-buffer stuffing over arrays. Stuffing round-trips both ways; a frame is the
stuffing of its content exactly when it has no bare line feed. The place of every byte on the wire is stated,
and content is accepted as a message exactly when its XOR is zero and the fields stand in those places. Any
single changed content byte is rejected; a same-length change passes the checksum exactly when its byte
differences cancel. A run of the framer cuts its stream as meant exactly when the overflow clear never fires
in it. The pieces cut out are the same under every chunking into datagrams exactly when none is longer than
513 bytes, and the bytes left in the buffer are too exactly when the remainder is not longer either; a
514-byte piece is the example of a loss. Messages with bodies of at most 244 bytes, sent by the encoder and
received in datagrams of any sizes, arrive unchanged, in order, numbered consecutively modulo 65536. Noise
without CR LF in front costs, under any chunking, at most the first two frames whatever its length. The
second one is safe under every chunking exactly when noise and first frame have at most 513 bytes; otherwise
some chunking leaves a stray line feed before it, and it is rejected.

**Retransmission** (`ReSend`, `ReSendSteps`, `ReSendRuns`). A state machine over sendings, acknowledgements,
timer firings and time, with a bound on timer lateness (0 is an ideal timer). An acknowledgement removes the
listed command whose number it carries low byte first; a sending arms a timer exactly when nothing else
waits; a firing sends exactly the overdue commands again, in ascending order, and arms the timer for the
least age of the others. A timer is armed whenever something is unacknowledged, no deadline is more than 5000
ms ahead, and nothing waits longer than 10000 ms plus the lateness; every retransmission repeats the latest
bytes, comes more than 5000 ms after them and never after an acknowledgement. The 10000 ms bound is reached
by every lone command. Two things the code does not promise have their exact conditions. A waiting command
can leave the map exactly when the acknowledgement switch lists it, which the map-collection command is not.
A firing changes nothing at all exactly when it comes on time, some entry was sent at that very instant and
none is due; with an ideal timer the clock of the model then stands still until that command is acknowledged,
so the bounds say nothing beyond that instant, and a second command sent when the first one's timer is due
leads there.

**MD5** (`Md5Words`, `Md5Spec`, `Md5Transform`, `Md5`, `Md5Vectors`). `Md5Spec` is the table-driven
definition of sections 3.1 to 3.5 of RFC 1321; what its word operations mean is stated bit by bit and by
arithmetic, and the digest of "abc" in section A.5 is computed through every step of it. The 64 unrolled
steps equal it, decoding inverts encoding, and for every split of a message into updates the final digest is
the one-shot digest. The block loop computes its bound in 32 bits; it stops where it must exactly when that
sum does not wrap, which is the precondition of an update: the length has to be below 2^32 less the bytes
already in the buffer, or less 64 when there are none. File hashing covers the whole file exactly when
nothing follows the first short read. The texts returned tell digests apart.

**Log rotation** (`LogRotation`, `LogRuns`, `LogSessions`). One rotation is `history := take(B, live :
history)` on the contiguous backups, nothing else changes. Over every run from an empty history the files on
disk are the last B + 1 parts of the one division of the message list that respects the maximum size, so
reading them back gives a contiguous suffix of everything written, and everything until a rotation drops the
oldest file. With re-openings in between, as after a restart, the log still reads back so and every file
keeps within the maximum, although files may be left earlier then: the first message after a re-opening
starts a new file exactly when the bytes of the live file, a line feed for each of its messages and the
message itself exceed the maximum.

**Work site** (`WorkList`, `QueueRuns`, `Crusher`, `CrusherRuns`, `CrusherActions`, `CrusherTable`, `Stops`).
After any reports the queue has no duplicate, holds exactly the vehicles whose latest recognised report was
not a removing one, with that report's state, in order of entry, and these facts determine it. Over every run
of reports and operator actions, each release, unload grant and drive-in grant follows the vehicle's own
fitting report with nothing in between that changed its state, and two releases are separated by a fresh
unload report; conversely a button sends its grant whenever the events of the vehicle in front permit it. The
vehicle table has three rows and is not filled again after a release. A row behind the first that it shows
can be used exactly when the row's number plus the releases since the filling stays below the number of
vehicles then queued; such an unusable row is shown exactly when a vehicle has been released since, the queue
is shorter than the table and more than one row is shown. The stop search is one cycle through all stops and
finds a free one exactly when there is one; an allocation gives the vehicle the first free stop behind the
current one, which becomes the current one, and changes no other vehicle's; for two stops or more the two
maps stay mutually inverse over every run. Two false properties have their exact conditions and runs that
break them: with a single stop the maps stay inverse exactly when no other vehicle holds it, and with more
the stop sent to a vehicle is the one recorded for it exactly when every other stop is taken and the sent one
is free or already its own.

**Warnings and averager** (`Warnings`, `Averager`). The warning list is ascending and equals the set bits,
replaying the signals rebuilds it, and each bit's signals alternate from an insertion. The average is valid
exactly from the tenth usable fix since a reset and is the mean of the latest complete block of ten, within
that block's bounds.

## Idealisations

- A map keyed by vehicle in the source orders its keys with `strncmp` as a boolean
  (hmi/HmiFunction/hmicmdst.h:387); the model takes it as a map keyed by IMEI, as intended.
- A vehicle in the queue is identified by IMEI and name together (hmi/HmiFunction/hmicmdst.h:375), both
  taken as the strings that `strncmp` compares.
- File removal and renaming succeed when their source exists and their target does not, and the clock never
  goes backwards.
- An operator selects no row behind the end of the queue (hmi/HmiUI/uiCrush/uicrush.cpp:2220-2222), where
  the source would index outside it. `CrusherTable` proves which of the shown rows these are and when one is
  shown.
- Locked methods are single steps. What the source sends, emits or reads from the clock, the disk or the
  screen is a parameter or a recorded sequence.
- The header calls SizeRotationStrategy's limit ten backups (rcd/pubQsLog/QsLogDestFile.h:60); the code's
  limit is 50, and the model follows the code.

## Model

| member | source | states |
|---|---|---|
| Jt808.Sum | hmi/HmiFunction/jt808.cpp:12-21 | the loop computes the XOR of the bytes |
| Jt808.ReverseRecv | hmi/HmiFunction/jt808.cpp:23-47 | in-place unstuffing refines the pure one, bytes behind the frame untouched, -1 on a bad flag pair |
| Jt808.ReverseSend | hmi/HmiFunction/jt808.cpp:49-74 | stuffing through the 512-byte scratch refines the pure one and appends CR LF |
| Jt808.PutStuffed | hmi/HmiFunction/jt808.cpp:56-64 | one or two bytes stand for each byte |
| Jt808.Decode | hmi/HmiFunction/jt808.cpp:76-98 | decoding a frame buffer gives the message of its unstuffed, checked content, or -1 |
| Jt808.ReadContent | hmi/HmiFunction/jt808.cpp:82-97 | check byte first, then the header, and a body length beyond the content is rejected |
| Jt808.Encoder.Encode | hmi/HmiFunction/jt808.cpp:100-120 | for every frame that fits the scratch buffer: the buffer holds it with the old serial, and the serial wraps at 65536 |
| Jt808.PutContent | hmi/HmiFunction/jt808.cpp:111-117 | header, body, check byte and terminator are laid out in wire order |
| Jt808.PutHead | hmi/HmiFunction/jt808.cpp:102-111 | the packed little-endian header with package fields 1 |
| Jt808.StuffHasNoLineFeed | hmi/HmiFunction/jt808.cpp:55-65 | a stuffed payload never contains 0x0A |
| Jt808.StuffLength | hmi/HmiFunction/jt808.cpp:49-74 | stuffing at most doubles a payload and never shortens it |
| Jt808.UnstuffStuff | hmi/HmiFunction/jt808.cpp:23-74 | unstuffing inverts stuffing for every payload and any two trailing bytes |
| Jt808.StuffUnstuff | hmi/HmiFunction/jt808.cpp:23-74 | stuffing inverts unstuffing of an accepted frame if and only if it has no bare line feed |
| Jt808.BareLineFeed | hmi/HmiFunction/jt808.cpp:23-74 | a frame with a bare line feed is accepted but differs from the encoding of its content |
| Jt808.UnstuffLength | hmi/HmiFunction/jt808.cpp:29-46 | accepted content is at least half as long as its frame, so header reads stay inside |
| Jt808.DecodedBody | hmi/HmiFunction/jt808.cpp:87-97 | a decoded message has the stated body length, and its body is at least 13 bytes shorter than its frame |
| Wire.ContentLayout | hmi/HmiFunction/jt808.cpp:100-118 | id, body length, serial and the package fields stand low byte first at 0, 2, 4, 6 and 8, the body at 10, and the XOR of all is zero |
| Wire.KnownFrame | hmi/HmiFunction/jt808.cpp:49-118 | the seventeen bytes of one message whose body needs stuffing |
| Wire.ParseExactly | hmi/HmiFunction/jt808.cpp:82-97 | content is accepted as a message if and only if its XOR is zero, the body fits before the check byte and every field stands in its place |
| Wire.BadFlagRejected | hmi/HmiFunction/jt808.cpp:31-38 | a flag byte followed by neither 1 nor 2, wherever it stands, makes the frame unacceptable |
| Wire.StuffPlain | hmi/HmiFunction/jt808.cpp:55-65 | bytes other than 0x0D and 0x0A go out as they are |
| Wire.NumberedAt | hmi/HmiFunction/jt808.cpp:100-106 | sent messages are numbered consecutively from the first serial and otherwise unchanged |
| Jt808.LittleEndianRoundTrip | hmi/HmiFunction/jt808.cpp:87-89 | a 16-bit field survives being written and read low byte first |
| Jt808.ParseContent | hmi/HmiFunction/jt808.cpp:82-118 | the content laid out by the encoder parses back to the same message |
| Jt808.DecodeEncode | hmi/HmiFunction/jt808.cpp:76-120 | every message is recovered from its frame: id, serial, length and body |
| Jt808.FrameLength | hmi/HmiFunction/jt808.cpp:49-74 | a frame is at most 2*(11+bodyLen)+2 bytes, so 244-byte bodies fit the scratch buffer |
| Jt808.XorDifferences | hmi/HmiFunction/jt808.cpp:12-21 | the checksum of the differences is the difference of the checksums |
| Jt808.ChecksumOfChange | hmi/HmiFunction/jt808.cpp:82-85 | a same-length change passes the check if and only if its differences cancel |
| Jt808.SingleByteChangeRejected | hmi/HmiFunction/jt808.cpp:76-98 | changing any one content byte of an accepted frame and stuffing it again is rejected |
| CmdDeal.CmdDealClass.UdpRecvMsgDeal | hmi/HmiFunction/cmddealclass.cpp:47-67 | one call cuts at every CR LF, dispatches, and leaves at most 512 bytes without CR LF; the loop ends |
| CmdDeal.CmdDealClass.Deliver | hmi/HmiFunction/cmddealclass.cpp:61-64 | pieces of at most six bytes are skipped |
| CmdDeal.CmdDealClass.CmdAnalyzeDeal | hmi/HmiFunction/cmddealclass.cpp:69-74 | a piece that decodes is dispatched once, any other is dropped |
| CmdDeal.IndexOfCrlfIsFirst | hmi/HmiFunction/cmddealclass.cpp:51 | the search returns the first CR LF, and -1 exactly when there is none |
| CmdDeal.CutAppend | hmi/HmiFunction/cmddealclass.cpp:49-66 | cutting may stop anywhere in the stream and go on from the remainder |
| CmdDeal.CutKeepsBytes | hmi/HmiFunction/cmddealclass.cpp:59-65 | pieces and remainder together are the stream, and the remainder has no CR LF |
| CmdDeal.RunFollowsCut | hmi/HmiFunction/cmddealclass.cpp:47-67 | a run of calls cuts its stream as one unlimited call would if and only if the overflow clear never fires in it |
| CmdDeal.RunKeepsFrames | hmi/HmiFunction/cmddealclass.cpp:47-67 | when no piece exceeds 513 bytes every piece is cut out intact under any chunking, whatever the remainder |
| CmdDeal.RunNeverGrows | hmi/HmiFunction/cmddealclass.cpp:47-67 | no run produces more bytes than it received |
| CmdDeal.ChunkingIndependent | hmi/HmiFunction/cmddealclass.cpp:47-67 | all chunkings give the same pieces if and only if none exceeds 513 bytes, the same buffer too if and only if the remainder does not either, and the intended cut if and only if it is at most 512 |
| CmdDeal.LongPiece | hmi/HmiFunction/cmddealclass.cpp:52-56 | a 514-byte piece comes out under one chunking and not another; 514 bytes without an end leave different buffers |
| CmdDeal.CutFrames | hmi/HmiFunction/cmddealclass.cpp:49-66 | a stream of encoded frames is cut back into them, leading noise joining the first |
| CmdDeal.EndToEnd | hmi/HmiFunction/cmddealclass.cpp:47-74 | encoded messages arrive unchanged, in order, with consecutive serials, under any chunking |
| CmdDeal.Resynchronise | hmi/HmiFunction/cmddealclass.cpp:47-67 | after noise that makes at most 513 bytes with the first frame, every later frame is cut out intact under any chunking |
| CmdDeal.ResynchroniseHandled | hmi/HmiFunction/cmddealclass.cpp:47-74 | after such noise, at most one stray message is dispatched, then every message but the first |
| Recovery.ResynchroniseExactly | hmi/HmiFunction/cmddealclass.cpp:47-67 | under every chunking all frames but the first are cut out, and their messages dispatched, if and only if noise and first frame have at most 513 bytes |
| Recovery.LosesAtMostTwo | hmi/HmiFunction/cmddealclass.cpp:47-67 | after noise of any length every frame from the third on is cut out and dispatched under any chunking |
| Recovery.StrayRejected | hmi/HmiFunction/jt808.cpp:82-85 | a frame behind a stray line feed is never dispatched |
| Recovery.LongNoise | hmi/HmiFunction/cmddealclass.cpp:52-56 | 600 bytes of noise before two messages: under some chunking the second message is lost |
| Link.SendAll | hmi/HmiFunction/jt808.cpp:100-120 | encoding a message list puts the frames of the consecutively numbered messages on the wire |
| Link.ReceiveAll | hmi/HmiFunction/cmddealclass.cpp:47-67 | feeding datagrams one by one dispatches what the run of calls cuts out |
| Link.Transmit | hmi/HmiFunction/cmddealclass.cpp:47-74 | encoder and receiver together: the messages are dispatched unchanged, in order and numbered, for datagrams of any sizes |
| ReSend.ReSendClass.AddReSendMsg | hmi/HmiFunction/resendclass.cpp:9-23 | the entry is stored with the current time and a timer is armed when it is the only entry |
| ReSend.ReSendClass.RemoveReSendMsg | hmi/HmiFunction/resendclass.cpp:25-30 | the entry is removed, timers stay |
| ReSend.ReSendClass.TimeoutReSendMsgSlot | hmi/HmiFunction/resendclass.cpp:32-52 | one firing resends the due entries in key order and re-arms, or stops on an empty map |
| ReSend.ReSendClass.VisitEntries | hmi/HmiFunction/resendclass.cpp:42-50 | the iterator loop refreshes every due entry and computes the next delay |
| ReSend.ReSendClass.VisitEntry | hmi/HmiFunction/resendclass.cpp:44-49 | one entry is resent and stamped, or shortens the next delay |
| ReSend.ReSendClass.G2hComAckDeal | hmi/HmiFunction/cmddealclass.cpp:111-138 | a two-byte body with a listed command number removes that entry; the body of any other length is refused |
| ReSend.AckIs | hmi/HmiFunction/cmddealclass.cpp:118-136 | an acknowledgement carrying a number low byte first removes exactly that command, if it is listed |
| ReSend.AckOfOtherLength | hmi/HmiFunction/cmddealclass.cpp:113-116 | a body that is not two bytes long changes nothing |
| ReSend.ListedCommands | hmi/HmiFunction/cmddealclass.cpp:122-133 | the eleven command numbers of the switch |
| ReSend.AckFor | hmi/HmiFunction/cmddealclass.cpp:118-136 | every listed command has a message that removes it |
| ReSend.RemoveIs | hmi/HmiFunction/resendclass.cpp:25-30 | only the one command goes; clock, timers and the others stay |
| ReSendSteps.AddIs | hmi/HmiFunction/resendclass.cpp:9-23 | the entry gets the bytes and the time, and a timer for 5000 ms later is armed if and only if nothing else waits |
| ReSendSteps.FireIs | hmi/HmiFunction/resendclass.cpp:32-52 | exactly the commands waiting over 5000 ms are sent again, in ascending order, and stamped; the next delay is the least age of the others, at most 5000 |
| ReSendSteps.NextValAttained | hmi/HmiFunction/resendclass.cpp:34-48 | the delay is 5000 or the age of some entry not due |
| ReSend.AscendingKeys | hmi/HmiFunction/resendclass.cpp:42-43 | the walk visits every key exactly once, in ascending order |
| ReSendRuns.BoundedRetransmission | hmi/HmiFunction/resendclass.cpp:9-52 | over every run: an armed timer while anything waits, deadlines within 5000 ms, ages within 10000 ms plus lateness |
| ReSendRuns.RetransmissionsJustified | hmi/HmiFunction/resendclass.cpp:9-52 | over every run: resends repeat the latest bytes, more than 5000 ms later, never after an acknowledgement |
| ReSendRuns.AddKeepsTiming | hmi/HmiFunction/resendclass.cpp:9-23 | a sending keeps every entry watched by a timer |
| ReSendRuns.FireKeepsTiming | hmi/HmiFunction/resendclass.cpp:32-52 | a firing keeps every entry watched by a timer |
| ReSendRuns.NextValLeast | hmi/HmiFunction/resendclass.cpp:34-48 | the delay is between 0 and 5000 and at most the age of each entry not due |
| ReSendRuns.FireKeepsTrace | hmi/HmiFunction/resendclass.cpp:43-46 | a firing adds only justified retransmissions and the map still tracks the events |
| ReSendRuns.RemovableExactly | hmi/HmiFunction/cmddealclass.cpp:122-136 | a waiting command leaves the map in some run if and only if the acknowledgement switch lists it; the map-collection command is not listed |
| ReSendRuns.NeverAcknowledged | hmi/HmiFunction/cmddealclass.cpp:122-136 | a command outside the switch stays in the map over every run |
| ReSendRuns.FireChangesNothing | hmi/HmiFunction/resendclass.cpp:32-51 | a firing leaves the whole state as it was if and only if it is on time, some entry has age zero and none is due |
| ReSendRuns.NextValZero | hmi/HmiFunction/resendclass.cpp:47-48 | the next delay is zero if and only if some entry has age zero |
| ReSendRuns.StalledUntilAcknowledged | hmi/HmiFunction/resendclass.cpp:32-51 | from such a state no run with ideal timers advances the clock before that command is acknowledged |
| ReSendRuns.SecondCommand | hmi/HmiFunction/resendclass.cpp:20-51 | a reachable one: a second command sent when the first one's timer is due |
| ReSendRuns.LoneCommand | hmi/HmiFunction/resendclass.cpp:20-51 | a lone command is first resent after 10000 ms, so the bound is attained |
| Md5Words.FSelects | hmi/HmiFunction/md5.h:28 | bit by bit, y where x has a one and z elsewhere |
| Md5Words.GSelects | hmi/HmiFunction/md5.h:29 | bit by bit, x where z has a one and y elsewhere |
| Md5Words.HParity | hmi/HmiFunction/md5.h:30 | bit by bit, the parity of the three |
| Md5Words.IFlips | hmi/HmiFunction/md5.h:31 | bit by bit, the opposite of y where z has a zero and the parity of x and y elsewhere |
| Md5Words.RotateLeftIs | hmi/HmiFunction/md5.h:32 | for each rotation used, the upper bits have become the lower ones, by division and remainder |
| Md5Vectors.AbcDigest | hmi/HmiFunction/md5.cpp:98-182 | MD5 ("abc") as in section A.5 of RFC 1321, through all 64 steps |
| Md5Vectors.AbcText | hmi/HmiFunction/md5.cpp:207-210 | and its text, 900150983cd24fb0d6963f7d28e17f72 |
| Md5Vectors.HexDigitsAre | hmi/HmiFunction/md5.cpp:207-210 | the high digit first, in lower case |
| Md5Vectors.HexAt | hmi/HmiFunction/md5.cpp:207-210 | the digits of byte k stand at 2k and 2k + 1 |
| Md5Spec.WordOrder | hmi/HmiFunction/md5.cpp:107-177 | the rounds start at words 0, 1, 5 and 0 and go on by 1, 5, 3 and 7 |
| Md5Spec.LengthValue | hmi/HmiFunction/md5.cpp:30-34 | the two length words are the number of bits modulo 2^64, low word first |
| Md5Spec.DecodeEncode | hmi/HmiFunction/md5.cpp:66-96 | decoding inverts encoding for every word list |
| Md5Spec.PaddingFills | hmi/HmiFunction/md5.cpp:53-62 | padding is 0x80 and zeros, 1 to 64 bytes, and brings message plus length to full blocks |
| Md5Spec.CompressAllConcat | hmi/HmiFunction/md5.cpp:36-43 | hashing blocks in two portions is hashing them together |
| Md5Transform.FF | hmi/HmiFunction/md5.h:34-39 | the macro is the specification's mixing step with F |
| Md5Transform.GG | hmi/HmiFunction/md5.h:40-45 | the macro is the specification's mixing step with G |
| Md5Transform.HH | hmi/HmiFunction/md5.h:46-51 | the macro is the specification's mixing step with H |
| Md5Transform.II | hmi/HmiFunction/md5.h:52-57 | the macro is the specification's mixing step with I |
| Md5Transform.Steps1To8 | hmi/HmiFunction/md5.cpp:108-115 | eight unrolled steps equal steps 1 to 8 of the table-driven loop |
| Md5Transform.Steps9To16 | hmi/HmiFunction/md5.cpp:116-123 | eight unrolled steps equal steps 9 to 16 of the table-driven loop |
| Md5Transform.Steps17To24 | hmi/HmiFunction/md5.cpp:126-133 | eight unrolled steps equal steps 17 to 24 of the table-driven loop |
| Md5Transform.Steps25To32 | hmi/HmiFunction/md5.cpp:134-141 | eight unrolled steps equal steps 25 to 32 of the table-driven loop |
| Md5Transform.Steps33To40 | hmi/HmiFunction/md5.cpp:144-151 | eight unrolled steps equal steps 33 to 40 of the table-driven loop |
| Md5Transform.Steps41To48 | hmi/HmiFunction/md5.cpp:152-159 | eight unrolled steps equal steps 41 to 48 of the table-driven loop |
| Md5Transform.Steps49To56 | hmi/HmiFunction/md5.cpp:162-169 | eight unrolled steps equal steps 49 to 56 of the table-driven loop |
| Md5Transform.Steps57To64 | hmi/HmiFunction/md5.cpp:170-177 | eight unrolled steps equal steps 57 to 64 of the table-driven loop |
| Md5Transform.Transform | hmi/HmiFunction/md5.cpp:98-182 | the unrolled compression equals the 64-step definition of section 3.4 of RFC 1321 |
| Md5Transform.MD5Encode | hmi/HmiFunction/md5.cpp:66-80 | words are written low byte first |
| Md5Transform.MD5Decode | hmi/HmiFunction/md5.cpp:82-96 | words are read low byte first |
| Md5.LoopStopsExactly | hmi/HmiFunction/md5.cpp:41 | the 32-bit loop test stops at the last block if and only if its sum does not wrap; lengths below 2^32 - 64 are safe |
| Md5.NoWrapExactly | hmi/HmiFunction/md5.cpp:41 | the sum does not wrap if and only if the length is below 2^32 less the buffered bytes, or less 64 with none |
| Md5.LongestLength | hmi/HmiFunction/md5.cpp:41 | 2^32 - 1 bytes into an empty buffer: the test still passes where the loop should stop |
| Md5.CountAdds | hmi/HmiFunction/md5.cpp:30-34 | the two count words hold the bit length modulo 2^64 after every update, carry included |
| Md5.IndexIs | hmi/HmiFunction/md5.cpp:28 | the buffer index taken from the low count word is the length modulo 64 |
| Md5.MD5Context.MD5Init | hmi/HmiFunction/md5.cpp:12-20 | the fresh context represents the empty message |
| Md5.MD5Context.MD5Update | hmi/HmiFunction/md5.cpp:22-51 | an update extends the represented message by its input |
| Md5.MD5Context.Absorb | hmi/HmiFunction/md5.cpp:36-50 | state and partial buffer represent the extended message |
| Md5.MD5Context.HashBlocks | hmi/HmiFunction/md5.cpp:41-42 | the block loop absorbs exactly the full blocks |
| Md5.MD5Context.MD5Final | hmi/HmiFunction/md5.cpp:53-64 | the digest is that of the represented message, for every earlier split into updates |
| Md5.HashChunks | hmi/HmiFunction/md5.cpp:12-64 | for every split of a message into updates the digest is the one-shot digest |
| Md5.HexInjective | hmi/HmiFunction/md5.cpp:207-210 | two digests have the same text if and only if they are equal |
| Md5.ComputeStringMd5 | hmi/HmiFunction/md5.cpp:191-212 | the text of the one-shot digest of the string's bytes |
| Md5.ComputeFileMd5 | hmi/HmiFunction/md5.cpp:219-269 | the text of the digest of what the reads return up to the first short one, or -1 when opening or a read fails |
| Md5.WholeFileHashed | hmi/HmiFunction/md5.cpp:239-256 | the whole file is hashed if and only if no byte follows the first short read |
| Md5.ReadFails | hmi/HmiFunction/md5.cpp:239-256 | hashing fails if and only if a read fails before any read of fewer than 1024 bytes |
| Md5.GrowingFile | hmi/HmiFunction/md5.cpp:239-256 | a file that grows after a short read is hashed without the rest |
| LogRotation.FileDestination.constructor | rcd/pubQsLog/QsLogDestFile.cpp:123-133 | opening for append creates a missing file and takes its size; backups are capped at 50 |
| LogRotation.FileDestination.Write | rcd/pubQsLog/QsLogDestFile.cpp:135-150 | count the message, rotate and reopen when over the maximum, append |
| LogRotation.FileDestination.Rotate | rcd/pubQsLog/QsLogDestFile.cpp:64-103 | the scanning and renaming loops equal the declarative rotation of the file map, with or without a live file |
| LogRotation.FileDestination.LastExisting | rcd/pubQsLog/QsLogDestFile.cpp:74-81 | the upward scan finds the last backup that can be shifted |
| LogRotation.FileDestination.ShiftUp | rcd/pubQsLog/QsLogDestFile.cpp:84-93 | the downward renames move exactly those backups up by one |
| LogRotation.ShiftOne | rcd/pubQsLog/QsLogDestFile.cpp:87-88 | one remove-and-rename step of the shift |
| LogRotation.ContiguousExist | rcd/pubQsLog/QsLogDestFile.cpp:75-80 | the scan counts exactly the backups up to the first gap |
| LogRotation.CappedIs | rcd/pubQsLog/QsLogDestFile.cpp:115-119 | the number of backups asked for, but at most 50 |
| LogRuns.RotationRefines | rcd/pubQsLog/QsLogDestFile.cpp:64-103 | a rotation is take(B, live : history), B = 0 included; nothing above B appears and files behind the gap stay |
| LogRuns.RotationWithoutLive | rcd/pubQsLog/QsLogDestFile.cpp:84-102 | without a live file the backups move up and there is no .1 |
| LogRuns.SegmentsDivide | rcd/pubQsLog/QsLogDestFile.cpp:135-150 | the division keeps every message, every file within the maximum, and is left only when forced |
| LogRuns.DivisionUnique | rcd/pubQsLog/QsLogDestFile.cpp:135-150 | there is only one such division of a message list |
| LogRuns.RunHolds | rcd/pubQsLog/QsLogDestFile.cpp:135-150 | over every run the disk holds the last B + 1 files of the division |
| LogRuns.WriteHolds | rcd/pubQsLog/QsLogDestFile.cpp:135-150 | one write extends the division on disk, rotating or not |
| LogRuns.LogRun | rcd/pubQsLog/QsLogDestFile.cpp:135-150 | over every run the log reads back as a contiguous suffix, complete until a file is dropped, files within the maximum |
| LogSessions.LogOverSessions | rcd/pubQsLog/QsLogDestFile.cpp:123-150 | over every run of writes and re-openings the log reads back as a contiguous suffix, complete until a file is dropped, files within the maximum |
| LogSessions.WriteKeeps | rcd/pubQsLog/QsLogDestFile.cpp:135-150 | one write keeps that division on disk whatever size between the counted and the stored one is recorded |
| LogSessions.ReopenKeeps | rcd/pubQsLog/QsLogDestFile.cpp:123-133 | re-opening keeps the files and records a size that covers what counts |
| LogSessions.OpenIs | rcd/pubQsLog/QsLogDestFile.cpp:46-50 | an opened file counts with the bytes of its messages and one line feed each; a missing one is created |
| LogSessions.WriteIs | rcd/pubQsLog/QsLogDestFile.cpp:135-150 | beyond the maximum a message opens a fresh file after the rotation, otherwise it goes to the end of the live one |
| LogSessions.FirstWriteAfterReopening | rcd/pubQsLog/QsLogDestFile.cpp:123-150 | over every run, the first write after a re-opening leaves the file if and only if stored bytes, line feeds and message exceed the maximum |
| WorkList.WorkListDeal.InsertInList | hmi/HmiFunction/worklistdeal.cpp:20-40 | append when absent, otherwise replace in place |
| WorkList.WorkListDeal.SetFirstInList | hmi/HmiFunction/worklistdeal.cpp:82-96 | move a queued vehicle's entry to the front |
| WorkList.WorkListDeal.RemoveInList | hmi/HmiFunction/worklistdeal.cpp:98-103 | remove the first entry of the vehicle |
| WorkList.WorkListDeal.RemoveFirstInList | hmi/HmiFunction/worklistdeal.cpp:119-127 | drop the front entry, if any |
| WorkList.G2hReqWorkRealOptSlot | hmi/HmiFunction/commonuifunction.cpp:408-511 | the branch chain of real-time reports has the tabulated effect on the queue |
| WorkList.G2hReqWorkOptSlot | hmi/HmiFunction/commonuifunction.cpp:528-637 | the branch chain of planned reports has the tabulated effect, with type 7 removing on FINISH |
| WorkList.EffectTable | hmi/HmiFunction/commonuifunction.cpp:408-637 | the effect of every report number, on both channels and for vehicle type 7 |
| WorkList.InsertTable | hmi/HmiFunction/worklistdeal.cpp:20-40 | insertion changes one vehicle's recorded state, no other, and keeps positions |
| WorkList.RemoveTable | hmi/HmiFunction/worklistdeal.cpp:98-103 | removal forgets one vehicle and no other |
| WorkList.SetFirstTable | hmi/HmiFunction/worklistdeal.cpp:82-96 | moving a queued record to the front keeps every recorded state |
| WorkList.SetFirstPermutes | hmi/HmiFunction/worklistdeal.cpp:82-96 | the list is permuted if and only if nothing moves or the record given is queued |
| WorkList.StaleRecord | hmi/HmiFunction/worklistdeal.cpp:82-96 | an outdated record replaces the queued one, so the list is not permuted |
| QueueRuns.QueueRefines | hmi/HmiFunction/commonuifunction.cpp:395-641 | after any reports: no duplicates, presence and state from the latest recognised report, order of entry |
| QueueRuns.FrontEnteredFirst | hmi/HmiFunction/worklistdeal.cpp:149-167 | after any reports the front record exists if and only if some vehicle is present, and is of the one that entered first, with its latest state |
| QueueRuns.QueueDetermined | hmi/HmiFunction/commonuifunction.cpp:395-641 | those facts hold of one list only |
| Crusher.UiCrush.SelectFirst | hmi/HmiUI/uiCrush/uicrush.cpp:2059-2081 | the selected vehicle moves to the front and the front one is fetched |
| Crusher.UiCrush.OnUnLoadRunWorkBtnClicked | hmi/HmiUI/uiCrush/uicrush.cpp:2048-2206 | the unload grant in state FINISH when checked at a crusher, else the drive-in grant in IN or RECOVER, and nothing otherwise |
| Crusher.UiCrush.OnUnLoadOverOutBtnClicked | hmi/HmiUI/uiCrush/uicrush.cpp:2208-2284 | a release only in state UNLOAD, which removes the vehicle |
| Crusher.UiCrush.OnAbnormalOkBtnClicked | hmi/HmiUI/uiCrush/uicrush.cpp:1831-1977 | the four operator choices: two overrides, a removal, a recovery order |
| Crusher.UiCrush.OnAbnormalBtnClicked | hmi/HmiUI/uiCrush/uicrush.cpp:1979-2040 | the front vehicle is removed |
| Crusher.UiCrush.OnEmergenceBtnClicked | hmi/HmiUI/uiCrush/uicrush.cpp:2286-2373 | a stop order that leaves recorded states alone |
| Crusher.UiCrush.OnReport | hmi/HmiUI/uiCrush/uicrush.cpp:768-778 | both report channels go to the shared queue |
| CrusherRuns.RunConsistent | hmi/HmiUI/uiCrush/uicrush.cpp:1831-2373 | over every run the queue records what each vehicle's own events say, and grants were permitted by it |
| CrusherRuns.ActionKeeps | hmi/HmiUI/uiCrush/uicrush.cpp:1831-2373 | every operator action and report keeps that |
| CrusherRuns.GrantSafety | hmi/HmiUI/uiCrush/uicrush.cpp:2048-2284 | each release, unload and drive-in grant follows the vehicle's own fitting report with no change in between |
| CrusherRuns.ReleasesSeparated | hmi/HmiUI/uiCrush/uicrush.cpp:2243-2263 | two releases of a vehicle are separated by a fresh unload report |
| CrusherActions.GrantsExactly | hmi/HmiUI/uiCrush/uicrush.cpp:2048-2284 | over every run each grant is sent if and only if the vehicle's own events leave it in the state that permits it |
| CrusherActions.RunWorkIs | hmi/HmiUI/uiCrush/uicrush.cpp:2085-2181 | unload grant exactly to a finished vehicle, drive-in grant exactly to one asking to come in or recover |
| CrusherActions.OverOutIs | hmi/HmiUI/uiCrush/uicrush.cpp:2241-2263 | release and removal exactly of an unloaded vehicle |
| CrusherActions.AbnormalOkIs | hmi/HmiUI/uiCrush/uicrush.cpp:1862-1964 | orders 6 and 7 with the new state recorded, a removal, order 5 without a change |
| CrusherActions.AbnormalIs | hmi/HmiUI/uiCrush/uicrush.cpp:2020-2034 | the vehicle is removed and nothing is sent |
| CrusherActions.EmergenceIs | hmi/HmiUI/uiCrush/uicrush.cpp:2318-2366 | order 4 and no change of a record |
| CrusherActions.SelectedIs | hmi/HmiUI/uiCrush/uicrush.cpp:2218-2224 | the selected vehicle goes to the front and the others keep their order |
| CrusherTable.FilledCounts | hmi/HmiUI/uiCrush/uicrush.cpp:1665-1676 | over every run the vehicles queued when the table was last filled are those in the queue and those released since |
| CrusherTable.FilledAfter | hmi/HmiUI/uiCrush/uicrush.cpp:768-778 | which actions leave the table up to date |
| CrusherTable.StaleRows | hmi/HmiUI/uiCrush/uicrush.cpp:2218-2224 | a shown row of the three can be used if and only if it is the first or its number plus the releases since the filling is below the vehicles then queued |
| CrusherTable.StaleRowShown | hmi/HmiUI/uiCrush/uicrush.ui:296-310 | an unusable row is shown if and only if there was a release since the filling, the queue is shorter than three and more than one row is shown |
| CrusherTable.SecondClick | hmi/HmiUI/uiCrush/uicrush.cpp:2208-2284 | releasing the vehicle of the last row, one of the three, leaves that row shown and unusable |
| CrusherTable.TwoUnloaded | hmi/HmiUI/uiCrush/uicrush.cpp:774-778 | two unload reports lead to a queue where that can happen |
| Stops.StopAllocator.Allocate | hmi/HmiUI/uiDigger/uidigger.cpp:1935-2007 | one drive-in grant: the stop sent, the search, the records |
| Stops.StopAllocator.SearchFree | hmi/HmiUI/uiDigger/uidigger.cpp:1967-2000 | the loop records the first free stop, or ends with everything unchanged |
| Stops.StopAllocator.Advance | hmi/HmiUI/uiCollector/uicollector.cpp:2078-2089 | two further, odd wraps to 2 and even to 1 |
| Stops.StopAllocator.TakeStop | hmi/HmiUI/uiCollector/uicollector.cpp:2097-2105 | the vehicle's old stop is given up and the new one recorded in both maps |
| Stops.StopAllocator.Release | hmi/HmiUI/uiCollector/uicollector.cpp:2174-2179 | both records of the vehicle are removed |
| Stops.StopAllocator.UseCurBoundary | hmi/HmiUI/uiDigger/uidigger.cpp:2184-2188 | the search starts again at stop 1 and both maps stay |
| Stops.FullCycle | hmi/HmiUI/uiDigger/uidigger.cpp:1969-1980 | for n >= 2 the step is one n-cycle on 1..n |
| Stops.SearchComplete | hmi/HmiUI/uiDigger/uidigger.cpp:1967-2000 | a stop is found if and only if one is free, and it is the first free one in cyclic order |
| Stops.AllocateKeeps | hmi/HmiUI/uiDigger/uidigger.cpp:1967-2000 | an allocation keeps the maps mutually inverse and in range |
| Stops.AllocateIs | hmi/HmiUI/uiDigger/uidigger.cpp:1946-1998 | the vehicle gets the first free stop behind the current one, which becomes the current one; no other vehicle's stop changes; at a full site nothing does |
| Stops.ReleaseIs | hmi/HmiUI/uiCollector/uicollector.cpp:2174-2179 | both records of the vehicle are gone and every other one stays |
| Stops.NoStopLeft | hmi/HmiUI/uiDigger/uidigger.cpp:1935 | behind the end of the stop list nothing is sent or changed |
| Stops.CycleOrder | hmi/HmiUI/uiDigger/uidigger.cpp:1969-1980 | from stop 1 the odd stops follow upwards and then the even ones |
| Stops.RunKeepsInverse | hmi/HmiUI/uiCollector/uicollector.cpp:1930-2179 | over every run of allocations, releases and restarts with n >= 2 the maps are mutually inverse and at most n stops are held |
| Stops.SingleStop | hmi/HmiUI/uiDigger/uidigger.cpp:1959-1964 | with one stop the vehicle is sent to it and recorded there, and the maps stay inverse if and only if no other vehicle holds it |
| Stops.SecondVehicle | hmi/HmiUI/uiDigger/uidigger.cpp:1959-1964 | a second vehicle at a site with one stop breaks the inverse |
| Stops.SentIsRecorded | hmi/HmiUI/uiDigger/uidigger.cpp:1946-1998 | the stop sent is the one recorded if and only if every other stop is taken and it is free or already the vehicle's own |
| Stops.SearchEnds | hmi/HmiUI/uiDigger/uidigger.cpp:1967-2000 | the search returns to its start if and only if only that stop is free, and fails if and only if none is |
| Stops.FirstVehicle | hmi/HmiUI/uiDigger/uidigger.cpp:1946-1998 | the first vehicle is sent to stop 1 and recorded at another; at a full site a vehicle is sent to the stop it has |
| Warnings.Warnning.LoadFromRawData | hmi/HmiFunction/warnning.cpp:28-39 | the sixteen warning bytes, and the length consumed |
| Warnings.Warnning.TestWarning | hmi/HmiFunction/warnning.cpp:21-26 | whether a numbered bit is set |
| Warnings.Warnning.GetWarningBit | hmi/HmiFunction/warnning.cpp:9-19 | the list of set bits of all bytes |
| Warnings.AppendBits | hmi/HmiFunction/warnning.cpp:41-56 | the set bits of one byte, with the offset |
| Warnings.WarningState.WarnninOpt | hmi/HmiFunction/cmddealclass.cpp:1167-1195 | the new list, and the insert then remove signals for the changes |
| Warnings.WarningBitsAre | hmi/HmiFunction/warnning.cpp:9-56 | the list is strictly ascending and holds exactly the set bits |
| Warnings.SetDifferenceIs | hmi/HmiFunction/cmddealclass.cpp:1175-1181 | the sorted merge is the true set difference |
| Warnings.TestIs | hmi/HmiFunction/warnning.cpp:21-26 | bits are binary digits of their byte, position 0 being worth one |
| Warnings.ListIs | hmi/HmiFunction/warnning.cpp:28-56 | number n of the list is bit n % 8 of byte n / 8 of the message's first sixteen bytes |
| Warnings.SignalsAre | hmi/HmiFunction/cmddealclass.cpp:1175-1195 | insertions of the new bits in ascending order, then removals of those gone |
| Warnings.WarningReplay | hmi/HmiFunction/cmddealclass.cpp:1167-1195 | over every run replaying the signals gives the list, and each bit's signals alternate from an insertion |
| Averager.StopCal.AverPosFun | hmi/HmiFunction/stopCalClass.cpp:176-213 | one fix: reset, accumulate, or complete a block of ten |
| Averager.FixIs | hmi/HmiFunction/stopCalClass.cpp:178-195 | a fix counts if and only if the receiver's state is 2 and the position is not zero; any other starts everything again |
| Averager.TotalIs | hmi/HmiFunction/stopCalClass.cpp:197-211 | totals and tenths are taken in each coordinate |
| Averager.AverageOverRuns | hmi/HmiFunction/stopCalClass.cpp:176-213 | over every run: counter, partial sum, validity and mean from the fixes since the last reset |
| Averager.AverageWithin | hmi/HmiFunction/stopCalClass.cpp:202-212 | a valid average lies within the bounds of its ten samples |

## Left out

- Jt808.Decode: does not model the 1024-byte capacity of the message's body buffer, which the code does not check; frames of at most 1037 bytes keep within it.
- Stops.RunKeepsInverse: a stop list that is generated anew with another number of stops during a run.
- Jt808.Encoder.Encode: frames of more than 512 bytes, which do not fit the source's scratch buffer; every body of at most 244 bytes fits, and the largest one sent has 134.
- ReSend.ReSendClass.RemoveReSendMsg: recorded as an acknowledgement in the trace also when the command was not waiting, which changes nothing else.
- Md5.ComputeStringMd5: lengths from 2^32 - 64 on, for which the source's block loop runs past its input.
- Averager.StopCal.AverPosFun: floating-point rounding; positions are real numbers.
- Crusher.UiCrush.SelectFirst: a selected row behind the end of the queue, where the source indexes outside its list; `CrusherTable.StaleRows` says which shown rows those are, and the same holds for the five handlers below.
- Crusher.UiCrush.OnUnLoadOverOutBtnClicked: a selected row behind the end of the queue.
- Crusher.UiCrush.OnAbnormalOkBtnClicked: a selected row behind the end of the queue.
- Crusher.UiCrush.OnAbnormalBtnClicked: a selected row behind the end of the queue.
- Crusher.UiCrush.OnEmergenceBtnClicked: a selected row behind the end of the queue.
- Crusher.UiCrush.OnUnLoadRunWorkBtnClicked: a selected row behind the end of the queue, and the coordinates, load and material fields of a grant, and the order type sent at sites that are neither of type 7 nor 8, which the source leaves unset.
- LogRotation.FileDestination.Rotate: removals and renames that fail although their source exists and their target does not.
- LogRotation.FileDestination.Write: a live file that is deleted from outside while it is open.
- LogSessions.LogOverSessions: a maximum size or backup count that changes between sessions.
- `runList` and `outList` of the work list, whose replacement compares the IMEI only and whose getters consult another list.
- The commands behind the decoder's switch, other than the general acknowledgement and the warnings of position messages.
- Widgets, page switching, labels, messages shown to the operator, and the state of the drive-in button.
- Geodesy and path files: floating-point trigonometry and number formatting.
- Sockets, files, processes, databases and the vendor signing libraries.

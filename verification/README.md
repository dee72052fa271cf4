# Verified model of the IQRF CDC library

The library talks to an IQRF gateway over a USB CDC port: commands go out as `>...CR`, replies and
asynchronous messages come back as `<...CR`, and two example programs upload Intel HEX files and
plugin files into a module.  This project models, in Dafny, the three parts that carry state:

* **Reassembly of replies.**  `Messages` is the grammar of the replies, `Automaton` the tables of the
  parser, `Parsing` what its loop computes, `MessageParsing` the parser object.  `ParserTheorems` and
  `ParserVerdicts` say what the parser accepts and rejects, `Decoders` that the decoders invert the
  printed replies.  `Draining` is what emptying the receive buffer amounts to, `Feeding` the two reader
  loops, `Cuttings` says which streams of replies arrive on Linux however they are cut up, `WindowsFeeding` which on
  Windows, and `CDC` is the object that does all this, together with the send side (`Commands`).
* **Commands and responses.**  `Protocol` lets the calling thread, the reading thread and the device take
  their steps in any order; its theorems hold for every run.
* **Programming.**  `HexReading`, `HexCompiling` and `HexProgramming` are the reader and the upload program for
  HEX files, as functions and on their buffers; `HexMemory` says what a file means, what uploads do,
  and what the compiler makes of a file (`HexMemory.Compiled`).  `HexFiles` proves that it does, `HexContents` and
  `HexForgetting` give the outcome address by address, `HexLimits` says exactly which files are programmed as
  they mean, and `HexMisdirecting`, `HexStraddling`, `HexEnding` and `HexCases` are about those that are not;
  `HexImages`, `HexTheorems`, `HexRecords` and `HexCorrectness` lead up to all this.  `IqrfReading` is the program
  for plugin files.

`Bytes`, `Wrappers` and `Uploading` hold what several of these share.

Code that works in place is modelled in place (`MessageParsing.MessageParser`, `CDC.CDCImpl`,
`HexProgramming.HexProgrammer`, `IqrfReading.IqrfProgrammer`): each method is proved equal to a function of
its inputs and the old state, and the theorems are about those functions.

Main results: `ParserTheorems.AcceptsExactly`, `ParserVerdicts.StableExactly`, `ParserVerdicts.SelfDelimitingExactly`,
`ParserVerdicts.RejectsExactly`, `Draining.Conserves`, `Cuttings.ArrivesExactly`, `WindowsFeeding.WindowsArrivesExactly`,
`Cuttings.Resynchronises`, `Commands.FrameReadsBack`, `Commands.AcceptedDecodes`, `Protocol.PairsExactlyReached`,
`Protocol.NthReadsNth`, `Protocol.WindowsWakesFresh`, `HexReading.RecordReadsBack`, `HexFiles.FileCompiled`,
`HexLimits.CompilesExactly`, `HexLimits.FileLeaves`, `HexLimits.MisdirectedExactly`, `HexStraddling.StraddleExactly`,
`HexStraddling.AloneExactly`, `HexEnding.EndHeededExactly`, `IqrfReading.RowsReadBack`.

What a packet does to a memory of the module is not in the code of the library; `HexMemory.Replay` takes its
two header bytes as the little-endian address of its first word (flash) or cell (EEPROM), and the rest as what
is written from there on.

## Where the code departs from what it promises

* The table of state types is built with a count of 17 for a list of 14 states
  (`src/CDCMessageParser.cpp:284-286`); the 14 listed are modelled.
* A 21-byte module identification is recognised only as the whole buffer, a programming reply by the size of the
  whole buffer, and received data of length 0 only when a seventh byte has come.  `Messages.Recognisable`
  says so, and `ParserTheorems.AcceptsExactly` is exact with it.
* The parser rejects programming replies too early: a buffer of six or more bytes that begins one is rejected unless
  it ends in a terminator, and one of 7 or 9 bytes unless it begins a status, although more bytes could always
  complete it.  `ParserVerdicts.RejectsExactly` says exactly which rejections are right.
* Because of both, whether a stream of correct replies arrives on Linux depends on how it is cut into reads;
  `Cuttings.ArrivesExactly` says exactly which streams always do.  Windows looks at the buffer at terminators only and
  loses fewer of them; `WindowsFeeding.WindowsArrivesExactly` says exactly which, and `Cuttings.PlatformsDiffer` is a
  stream of two replies that always arrives there and not on Linux.
* Once a six-byte buffer announces received data of length 0 without a terminator, the parser waits although no
  continuation can help (`ParserVerdicts.RejectsExactly`).
* Linux never clears the event of a new message before it sends.  `Protocol.TimeoutCrosses` is a run from the
  start in which a single late reply makes the next command read the wrong one; `Protocol.PairsExactlyReached`
  says exactly when, in any run, the next command is sure to read its own reply.
* On Windows a read that completes at once without a byte pushes the last byte again
  (`src/CDCImpl_Win.cpp:173`); the bytes that arrive are the bytes pushed exactly if there is no such completion
  (`Feeding.PushedExactly`).
* A flash record over the border between the halves of a block overwrites the header of the second half, and what
  follows lands one word early: `HexStraddling.StraddleExactly` says exactly when that does no harm,
  `HexStraddling.LandsOneEarly` and `HexStraddling.LandsElsewhere` are files of one record that go wrong.
* A flash record that runs over the end of its block is refused; the program ends, and the block prepared by the
  records in front of it is never uploaded (`HexLimits.RefusalLoses`, `HexCases.BlockLost`).
* What a record gives for the last word of a flash area is there in the end only if it is 0x3FFF
  (`HexLimits.LastWordExactly`).
* A block that is begun is emptied first, also when it was written before (`HexCases.WordForgotten`,
  `HexCases.CellForgotten`); a record writes what it means exactly if nothing is lost by that (`HexLimits.RecordExactly`).
* What a record of the external EEPROM leaves over behind the end of the memory goes to the flash, to the words from
  0x800 on, exactly if any other data record stands behind it, and else to the cells behind the end
  (`HexLimits.MisdirectedExactly`, `HexCases.NinthMisdirected`, `HexCases.NinthAlone`).
* For all files but those with records that are refused, lie over a border, or are not well formed,
  `HexLimits.CompilesExactly` says exactly when a file is programmed as it means.
* A plugin row at the end of the file without a line end is lost, and lone LF line ends are an error
  (`IqrfReading.RowEndsExactly`).
* The HEX reader goes on behind an end-of-file record; the specification of the format (Intel Hexadecimal Object File
  Format Specification, Revision A, "End of File Record") ends the file there.  `HexFiles.Compiles` is about all records,
  as the code is; `HexEnding.EndHeededExactly` says exactly when a file is programmed as its records in front of
  the end mean, and `HexEnding.EndIgnored` is a file that is not.

## Model

| member | source | states |
|---|---|---|
| Automaton.TransitionFollowsEdge | src/CDCMessageParser.cpp:198-213 | every transition out of a spelled state leads to the state whose text is longer by the byte read |
| Automaton.EdgeIsTransition | src/CDCMessageParser.cpp:301-450 | conversely every edge of the tree of texts is a transition of the tables, but for the one into state 80, which the handler of state 95 reaches instead |
| Automaton.SpellingGrows | src/CDCMessageParser.cpp:301-450 | the text of a state is that of its predecessor and one more byte, so the tables form a tree |
| Automaton.StageNeverRises | src/CDCMessageParser.cpp:301-450 | no ordinary transition leads back from a special state's tail or from the status texts behind PM |
| Parsing.Run | src/CDCMessageParser.cpp:719-768 | the loop ends from each place it can be in, although states 50 and 95 step the position back, and no position leaves the buffer |
| Parsing.TransitionPlaced | src/CDCMessageParser.cpp:735-765 | a transition leads from a place the loop can be in to another such place, one byte on |
| Parsing.SpecialPlaced | src/CDCMessageParser.cpp:699-717 | the handler of a special state is entered far enough inside the buffer, leads to a place the loop can be in, and moves on or drops to a lower stage |
| Parsing.ScanUSBInfo | src/CDCMessageParser.cpp:555-615 | the scan of a USB info ends inside the buffer, and at its last byte if it is unfinished |
| ParserTheorems.TRInfoVerdict | src/CDCMessageParser.cpp:618-650 | a module identification is 37 bytes ending in CR, or 21 if they are the whole buffer; the verdict and position for every buffer |
| ParserTheorems.AsyncVerdict | src/CDCMessageParser.cpp:653-670 | received data has as many bytes as announced and a CR behind them, at position 5 + length; the verdict and position for every buffer |
| ParserTheorems.DownloadVerdict | src/CDCMessageParser.cpp:673-694 | a programming reply of other than 7 or 9 bytes is download data up to the end of the buffer |
| ParserTheorems.StatusVerdict | src/CDCMessageParser.cpp:673-694 | one of 7 or 9 bytes is parsed as a status, from behind its head |
| ParserTheorems.USBInfoVerdict | src/CDCMessageParser.cpp:555-615 | the verdict on a USB info is that of the scan of its three sections |
| ParserTheorems.ParseSound | src/CDCMessageParser.cpp:719-768 | whatever is accepted is a reply of the grammar, of the type and length reported |
| ParserTheorems.ParseComplete | src/CDCMessageParser.cpp:719-768 | every recognisable reply at the start of a buffer is accepted, with its type and last position |
| ParserTheorems.AcceptsExactly | src/CDCMessageParser.cpp:719-768 | the parser accepts with type t and last position p exactly if the first p + 1 bytes are a reply of type t that can be recognised in a buffer of that size |
| ParserVerdicts.VerdictStable | src/CDCMessageParser.cpp:555-670 | outside IT and PM, acceptance and rejection with their positions do not change when bytes follow |
| ParserVerdicts.StableExactly | src/CDCMessageParser.cpp:618-694 | a verdict and its position survive whatever follows exactly if the buffer begins no PM reply, and no IT reply in fewer than 37 bytes |
| ParserVerdicts.SelfDelimitingExactly | src/CDCMessageParser.cpp:719-768 | a reply is recognised whatever follows, and no proper part of it from its start is taken for anything, exactly if it is no PM reply, no 21-byte IT, no 37-byte IT with CR at byte 20, and no empty DR |
| ParserVerdicts.RejectsExactly | src/CDCMessageParser.cpp:719-768 | no continuation makes a buffer begin with a reply exactly if it is rejected and begins no programming reply, or is a spoilt six-byte DR |
| ParserVerdicts.RejectsTooEarlyExactly | src/CDCMessageParser.cpp:673-694 | what is rejected could still become a reply exactly if it begins a programming reply |
| MessageParsing.MessageParser.ParseData | src/CDCMessageParser.cpp:719-768 | the loop on the parser's own copy of the data computes the verdict of Parsing.Parse, keeps the last message type unless it accepts, and never reports a position outside a non-empty buffer |
| MessageParsing.MessageParser.SpecialStep | src/CDCMessageParser.cpp:728-749 | one turn of the loop in a special state: it ends with the verdict of the whole loop, or goes on at a place from which the loop has that verdict |
| MessageParsing.MessageParser.TransitionStep | src/CDCMessageParser.cpp:751-765 | the same of one turn with a transition of the tables |
| MessageParsing.MessageParser.ProcessUSBInfo | src/CDCMessageParser.cpp:555-615 | the section loop computes what ScanUSBInfo says |
| MessageParsing.MessageParser.ProcessSpecialState | src/CDCMessageParser.cpp:699-717 | each special state is given to its own handler |
| Decoders.DeviceInfoInverts | src/CDCMessageParser.cpp:794-829 | on every accepted USB info the decoder succeeds and returns the triple it was printed from |
| Decoders.GetParsedModuleInfo | src/CDCMessageParser.cpp:831-882 | the copying loops succeed exactly on 21 and 37 bytes and return the fields the reply was printed from, with a zero bonding key for 21 |
| Decoders.SPIStatusInverts | src/CDCMessageParser.cpp:884-905 | the decoder returns a status exactly if it is tagged rightly and carries the byte of the reply |
| Decoders.DSResponseInverts | src/CDCMessageParser.cpp:907-936 | the decoder succeeds on every DS reply, and returns a code exactly if the reply is its printed form |
| Decoders.PEResponseInverts | src/CDCMessageParser.cpp:950-974 | the same for PE replies |
| Decoders.PTResponseInverts | src/CDCMessageParser.cpp:976-1000 | the same for PT replies |
| Decoders.PMResponseInverts | src/CDCMessageParser.cpp:1002-1056 | the same for PM status replies |
| Decoders.DRDataInverts | src/CDCMessageParser.cpp:938-948 | the data decoded from a DR message has exactly the announced length and is all of the message between head and CR |
| Decoders.PMDataInverts | src/CDCMessageParser.cpp:1058-1068 | the data decoded from download data is all of the message between head and CR |
| Draining.HeadOf | src/CDCImpl.cpp:438-449 | what is cut off a buffer is a non-empty part of it from its start |
| Draining.Conserves | src/CDCImpl.cpp:432-493 | the buffer is the concatenation of non-empty pieces, one for each message delivered or line discarded, equal to it up to a leading '>', and a tail, which is kept |
| Draining.DrainedDry | src/CDCImpl.cpp:432-458 | what is kept is empty or an unfinished message, and processing it again does nothing |
| Draining.DeliversReplies | src/CDCImpl.cpp:432-493 | only replies of the grammar are delivered, whole and under their own type |
| Draining.SelfDelimitingSolid | src/CDCImpl.cpp:447-450 | a reply that delimits itself is cut off whole, whatever follows, and not before it is complete |
| Draining.RejectedLineOpening | src/CDCImpl.cpp:438-446 | a rejected line that begins no programming reply is discarded up to its CR and no further, whatever follows |
| Feeding.LinuxDelivers | src/CDCImpl_Lin.cpp:61-119 | however a stream is cut into reads, and wherever the loop stands in it, it delivers the messages in order and ends with an empty buffer |
| Feeding.WindowsDelivers | src/CDCImpl_Win.cpp:143-244 | byte by byte and with empty completions in between, the loop delivers the messages of a stream of lines in order and ends with an empty buffer |
| Feeding.PushedExactly | src/CDCImpl_Win.cpp:143-176 | the buffer gets exactly the bytes that arrived if and only if no read completes at once without one |
| Feeding.PlatformsAgree | src/CDCImpl_Win.cpp:143-244 | on a stream of messages each cut off whole in its place both loops deliver the same, however each is fed |
| Cuttings.ArrivesExactly | src/CDCImpl_Lin.cpp:61-119 | a stream of replies arrives on Linux under every cutting exactly if each reply but the last delimits itself or is an empty DR, and the last delimits itself, is a 21-byte IT or a 6-byte PM, or is alone, recognisable and without an inner CR |
| Cuttings.BothDeliverExactly | src/CDCImpl_Win.cpp:143-244 | both platforms deliver it, whichever way each of them is fed, on exactly that condition |
| WindowsFeeding.LineExactly | src/CDCImpl_Win.cpp:166-176 | the form of a reply decides whether no terminator inside it breaks it and it is cut off at its end, or else before the next one |
| WindowsFeeding.WindowsLinesExactly | src/CDCImpl_Win.cpp:143-244 | a stream of replies is always delivered exactly if that holds of each of them in its place |
| WindowsFeeding.WindowsArrivesExactly | src/CDCImpl_Win.cpp:143-244 | a stream arrives on Windows, however its bytes come in, exactly if each reply delimits itself, is an empty DR before another one, a 21-byte IT, a PM status, or PM data of other than 7 or 9 bytes with no CR behind its first byte |
| WindowsFeeding.WindowsOnlyExactly | src/CDCImpl_Win.cpp:143-244 | what always arrives on Linux does so on Windows, and the streams that only Windows always delivers are those safe by its condition and not by that of Linux |
| Cuttings.RepliesArrive | src/CDCImpl_Lin.cpp:61-119 | in particular replies whose form says that they delimit themselves arrive whole and in order, on both platforms |
| Cuttings.Resynchronises | src/CDCImpl.cpp:432-472 | a line that the parser rejects, before replies that are safe where they stand, is discarded exactly and all replies behind it arrive: always on Windows, and on Linux exactly if it begins no programming reply or nothing follows |
| Cuttings.OneTerminatorIsLine | src/CDCImpl_Win.cpp:166-176 | a recognisable reply with one CR, when alone in the buffer, is delivered whole, and no part of it has a terminator |
| Cuttings.ArrivesAlone | src/CDCImpl_Lin.cpp:104-119 | alone on the line such a reply arrives on Linux too, wherever the loop stands in it and however the rest is cut up |
| Cuttings.PlatformsDiffer | src/CDCImpl_Lin.cpp:76-83 | two correct replies that Windows delivers under every feeding and Linux does not: a read that ends inside the second makes Linux throw it away |
| CDC.EffectsSignal | src/CDCImpl.cpp:403-426 | exactly the messages that are not asynchronous raise a signal each |
| CDC.EffectsHeard | src/CDCImpl.cpp:403-419 | the data of every asynchronous message reaches the listener in order |
| CDC.EffectsRespond | src/CDCImpl.cpp:421-425 | the last response is the last message that is not asynchronous |
| CDC.EffectsReport | src/CDCImpl.cpp:437-446 | the last error is reset exactly if something was discarded |
| CDC.CDCImpl.constructor | src/CDCImpl.cpp:354-360 | the fields of the new object: nothing received, no response, no signal, reception not stopped |
| CDC.CDCImpl.ProcessMessage | src/CDCImpl.cpp:403-426 | an asynchronous message touches neither last response nor event; any other replaces the response and raises one signal |
| CDC.CDCImpl.ParseNextMessage | src/CDCImpl.cpp:465-493 | a leading '>' is rewritten, and the result describes what the parser finds there |
| CDC.CDCImpl.TakeHead | src/CDCImpl.cpp:437-450 | one turn of the loop cuts off exactly one event, has its effect, and shrinks the buffer |
| CDC.CDCImpl.ProcessAllMessages | src/CDCImpl.cpp:432-458 | the loop leaves what Draining.Drain leaves and has exactly the effects of its events |
| CDC.CDCImpl.AppendDataFromPort | src/CDCImpl_Lin.cpp:104-119 | the chunk is appended, and -1 returned exactly if the buffer has no terminator |
| CDC.CDCImpl.ReadMsgThreadLinux | src/CDCImpl_Lin.cpp:44-95 | the thread has the effects of Feeding.LinuxReads on the chunks read before it ends, and a failure leaves its error and stops reception |
| CDC.CDCImpl.ReadMsgThreadWindows | src/CDCImpl_Win.cpp:53-264 | the same for Feeding.WindowsReads on the completions of its reads |
| CDC.CDCImpl.CommandToBuffer | src/CDCImpl.cpp:516-564 | the transmit buffer starts with the frame of the command; it fails exactly if the data is too large and is never replaced if it has 261 bytes |
| CDC.CDCImpl.SendCommand | src/CDCImpl_Lin.cpp:125-149 | whatever positive counts the port takes, the port gets exactly as many bytes of the frame as the attempts took, without gap or repeat, and sending succeeds exactly if that is all of it |
| CDC.CDCImpl.ProcessCommand | src/CDCImpl.cpp:586-604 | a command returns normally exactly if reception is not stopped, its frame fits, the attempts took all of it, and a response came whose type it accepts |
| Commands.FrameFits | src/CDCImpl.cpp:516-564 | no frame has more than 261 bytes |
| Commands.FrameReadsBack | src/CDCImpl.cpp:516-564 | every frame reads back to its command: '>', header, announced length, ':', data and CR are all in their places |
| Commands.FrameInjective | src/CDCImpl.cpp:516-564 | different calls never share a frame |
| Commands.UploadDownloadDuality | src/CDCImpl.cpp:141-221 | an upload accepts a status only and never download data, a download accepts both |
| Commands.AcceptedDecodes | src/CDCImpl.cpp:586-604 | whatever reply a call accepts, the decoder it applies is defined on it |
| Protocol.UnansweredAfter | src/CDCImpl.cpp:403-426 | how each step changes the queue of commands whose replies are not stored yet |
| Protocol.SaneAlways | src/CDCImpl.cpp:403-426 | in every run, replies answer sent commands only and nothing is signalled before it is stored |
| Protocol.RepliesPair | src/CDCImpl_Lin.cpp:182-204 | while no wait times out, every command reads the reply to itself, and on Linux the event counts at most one signal, and none between commands |
| Protocol.CompletesInOrder | src/CDCImpl.cpp:586-604 | in every run from the start without timeouts, the n-th completed command is the n-th one sent |
| Protocol.NthReadsNth | src/CDCImpl.cpp:586-604 | and it reads the n-th reply, over all interleavings with asynchronous messages |
| Protocol.InitialHolds | src/CDCImpl.cpp:354-360 | the initial state satisfies every invariant the theorems start from |
| Protocol.TimeoutCrosses | src/CDCImpl_Lin.cpp:182-204 | from the start on, one wait that times out and a reply that comes late leave a signal, and the next command reads the reply to the first |
| Protocol.LeftSignalCrosses | src/CDCImpl_Lin.cpp:160-164 | with a signal left over on Linux, the next command reads the reply to another one |
| Protocol.PairsExactly | src/CDCImpl_Lin.cpp:160-164 | between commands, the next command is sure to read its own reply exactly if no reply to an earlier one is under way and, on Linux, no signal of one is left |
| Protocol.PairsExactlyReached | src/CDCImpl_Lin.cpp:160-164 | that holds whenever the caller is between commands in any run from the start |
| Protocol.WindowsWakesFresh | src/CDCImpl_Win.cpp:270-272 | on Windows, in every run from the start and after any timeouts, every command that returns was woken by a signal raised after it reset the event |
| HexReading.DecodeLine | examples/PgmHex/PgmHex.cpp:183-203 | decoding ends, at the end of the file too; an accepted line has fewer than 64 bytes, which sum to 0 modulo 256 |
| HexReading.ReadLine | examples/PgmHex/PgmHex.cpp:167-204 | every call ends inside the file, and accepts such a line only |
| HexReading.RecordReadsBack | examples/PgmHex/PgmHex.cpp:167-204 | a record of at most 58 bytes, printed in either hex case with its checksum and CR or LF, reads back to the same bytes |
| HexReading.NothingLeft | examples/PgmHex/PgmHex.cpp:175-180 | text without ':' up to the end of the file reads as its end |
| HexReading.CutLineRejected | examples/PgmHex/PgmHex.cpp:183-203 | a line that the file ends in the middle of is rejected |
| HexCompiling.ProcessProgress | examples/PgmHex/PgmHex.cpp:280-440 | a record is done with, or waits while an older block is handed over |
| HexCompiling.LoopProgress | examples/PgmHex/PgmHex.cpp:252-440 | a call that hands a block over leaves less to do, so the upload loop ends on every file |
| HexImages.HeadersPut | examples/PgmHex/PgmHex.cpp:422-429 | the two headers of a flash block are its address and that of its second half, and writing them leaves the words alone |
| HexImages.WordsPut | examples/PgmHex/PgmHex.cpp:336-340 | words within one half end up at their places behind its header, and all else stays |
| HexImages.FlashLogWrites | examples/PgmHex/PgmHex.cpp:537-546 | the two packets of a flash block carry exactly its 32 words |
| HexImages.Opened | examples/PgmHex/PgmHex.cpp:292-304 | a new block of the external EEPROM is empty and has the addresses of itself and the next block as headers |
| HexImages.Moved | examples/PgmHex/PgmHex.cpp:209-227 | moving the overflow makes it the image of its own block, with an empty part for the next |
| HexImages.Copied | examples/PgmHex/PgmHex.cpp:322-327 | the copy loop puts the low byte of word i at cell i, and goes on in the part for the next block |
| HexRecords.FlashStored | examples/PgmHex/PgmHex.cpp:333-432 | storing a flash record overlays the words of the image with those of the record, up to the end of the area |
| HexRecords.FlashBegun | examples/PgmHex/PgmHex.cpp:244-250 | one that begins a block writes what it means into the block emptied, whatever it held before |
| HexRecords.EeepromContinued | examples/PgmHex/PgmHex.cpp:288-328 | a record within the active EEPROM block writes what it means |
| HexRecords.EeepromRunsOver | examples/PgmHex/PgmHex.cpp:319-332 | one that runs over it writes the rest into the next block, emptied, under its address, be it the one behind the end of the memory |
| HexRecords.EepromWritten | examples/PgmHex/PgmHex.cpp:387-412 | a record of the internal EEPROM is uploaded at once and writes what it means |
| HexCorrectness.HandsOver | examples/PgmHex/PgmHex.cpp:311-317 | handing a block over uploads all that was pending, and the record waits unchanged for the next call |
| HexCorrectness.LocatedStands | examples/PgmHex/PgmHex.cpp:280-286 | how the next data record finds the memories: an overflow becomes the active block, but one behind the end of the EEPROM becomes a flash block |
| HexCorrectness.DataRecord | examples/PgmHex/PgmHex.cpp:280-433 | from any state between records, a data record that is not refused and lies over no border leads to a state in which it has written what it means, into the blocks it begins emptied first |
| HexFiles.FetchRecord | examples/PgmHex/PgmHex.cpp:252-278 | the next printed line of a file is loaded, and the file read up to behind it |
| HexFiles.OtherRecord | examples/PgmHex/PgmHex.cpp:434-439 | a record without data changes the upper address at most, and only if it is of type 4 |
| HexFiles.Ends | examples/PgmHex/PgmHex.cpp:260-275 | at the end of the file what is pending, be it the active block or an overflow, is uploaded, and the program ends with success |
| HexFiles.CompilesLines | examples/PgmHex/PgmHex.cpp:252-440 | from any state between records, the next lines are compiled one after the other as Compiled says |
| HexFiles.CompilesFrom | examples/PgmHex/PgmHex.cpp:522-583 | from any state between records, the uploads to come write what is pending and what Compiled makes of the rest of the file |
| HexFiles.FileCompiled | examples/PgmHex/PgmHex.cpp:522-583 | replaying all uploads of any file of storable records gives exactly what Compiled says: each data record writes what it means, into blocks emptied when they are begun, and what is left over behind the EEPROM goes to the flash when another record comes |
| HexFiles.ProperCompiled | examples/PgmHex/PgmHex.cpp:244-250 | for properly placed records that is what they mean |
| HexFiles.Compiles | examples/PgmHex/PgmHex.cpp:522-583 | replaying all uploads of a file of properly placed records into blank memories gives exactly the meaning of its records, and the program ends with success |
| HexFiles.AscendingProper | examples/PgmHex/PgmHex.cpp:307-317 | records that fit their areas and come in ascending order without overlap are properly placed, wherever they are split |
| HexFiles.AscendingCompiles | examples/PgmHex/PgmHex.cpp:522-583 | so any file in ascending order is programmed as it means |
| HexContents.FileWritten | examples/PgmHex/PgmHex.cpp:234-441 | address by address: covered flash words hold the word given last, other words of the blocks reached 0x3FFF, EEPROM cells the low bytes given last, gaps of blocks reached 0, and nothing else is written |
| HexStraddling.StraddleExactly | examples/PgmHex/PgmHex.cpp:333-432 | a flash record that fits writes what it means exactly if it does not lie over the border of the halves, or all its words from there on, and the old word it ends in, are the address of the border |
| HexStraddling.StraddlerWrites | examples/PgmHex/PgmHex.cpp:422-432 | in any case, whatever the flash held, the content of every address after a record over the border |
| HexStraddling.AloneExactly | examples/PgmHex/PgmHex.cpp:333-432 | a file of one flash record is programmed as it means exactly if the record keeps within a half of a block |
| HexStraddling.StraddlerLeaves | examples/PgmHex/PgmHex.cpp:422-432 | the whole flash after a file of one record over the border: the second half of the image goes to the address that the word at the border spells |
| HexStraddling.LandsOneEarly | examples/PgmHex/PgmHex.cpp:422-432 | a record whose word at the border is the right header: the headers are intact, and still the next word lands in its place |
| HexStraddling.LandsElsewhere | examples/PgmHex/PgmHex.cpp:422-432 | a record with the word 3 at the border: what follows is programmed at address 3 |
| HexEnding.GoesOnBehind | examples/PgmHex/PgmHex.cpp:434-439 | a file is programmed as the records in front of its end-of-file record mean, and then as the data behind it do |
| HexEnding.EndHeededExactly | examples/PgmHex/PgmHex.cpp:434-439 | it is programmed as those in front alone mean exactly if the data behind touch no address not written by then and the last value they give for each is held there |
| HexEnding.EndIgnored | examples/PgmHex/PgmHex.cpp:434-439 | a file with nothing but an end-of-file record in front: the word behind it is programmed |
| HexLimits.RefusedExactly | examples/PgmHex/PgmHex.cpp:352-354 | a flash record is refused exactly if what is written of it runs over the end of the image, whatever block is active |
| HexLimits.RefusalEnds | examples/PgmHex/PgmHex.cpp:352-354 | a refused record ends the program at once, with the active block not uploaded |
| HexLimits.RefusalLoses | examples/PgmHex/PgmHex.cpp:352-354 | of a file with a refused record, only what the records in front had uploaded by then is programmed |
| HexLimits.EmptyingExactly | examples/PgmHex/PgmHex.cpp:244-250 | emptying the blocks a record begins makes no difference exactly if they hold nothing but rest values where the record gives none itself |
| HexLimits.RecordExactly | examples/PgmHex/PgmHex.cpp:280-433 | from any state between records, a storable data record writes what it means exactly on that condition |
| HexLimits.FileLeaves | examples/PgmHex/PgmHex.cpp:234-441 | after any file of storable records, each address holds what was given for it last, unless its block was begun anew since then: then, or if nothing was given, the rest value |
| HexLimits.MisdirectedExactly | examples/PgmHex/PgmHex.cpp:280-286 | the flash words from 0x800 on are programmed exactly if a data record stands behind one that runs past the end of the EEPROM, with what the last such one left over; the cells behind the end exactly if the last data record runs past it, with what it left over |
| HexLimits.CompilesExactly | examples/PgmHex/PgmHex.cpp:522-583 | a file of storable records is programmed as it means exactly if no data record stands behind one that runs past the end, and no block is begun anew after an address of it was given a value, other than the rest value, that is not given again |
| HexLimits.LastWordExactly | examples/PgmHex/PgmHex.cpp:350-351 | a value a record gives for the last word of a flash area is there in the end exactly if it is 0x3FFF |
| HexCases.WordForgotten | examples/PgmHex/PgmHex.cpp:244-250 | a file of three records, back to the flash block of the first: its word is 0x3FFF instead of 1 |
| HexCases.CellForgotten | examples/PgmHex/PgmHex.cpp:290-304 | the same in the external EEPROM: its cell is 0 instead of 1 |
| HexCases.NinthAlone | examples/PgmHex/PgmHex.cpp:260-275 | a record of nine words from 0x9F8 on, alone: the last byte is programmed behind the end of the EEPROM |
| HexCases.NinthMisdirected | examples/PgmHex/PgmHex.cpp:280-286 | with another record behind it, which writes nothing itself: the byte is programmed at flash address 0x800 |
| HexCases.BlockLost | examples/PgmHex/PgmHex.cpp:352-354 | a flash record and then one that is refused: nothing is programmed at all |
| HexCases.BlockLostCase | examples/PgmHex/PgmHex.cpp:352-354 | there are such files |
| HexLimits.NothingElse | examples/PgmHex/PgmHex.cpp:522-583 | whatever the memories hold, a file changes what it would write into blank ones and nothing else |
| HexProgramming.HexProgrammer.ReadHEXFileLine | examples/PgmHex/PgmHex.cpp:167-204 | the reader on the line buffer, its one-byte checksum included, does what HexReading.ReadLine says |
| HexProgramming.HexProgrammer.MoveOverflowedData | examples/PgmHex/PgmHex.cpp:209-227 | the copy in place does what HexCompiling.MoveOverflow says |
| HexProgramming.HexProgrammer.StoreSerialEeprom | examples/PgmHex/PgmHex.cpp:288-332 | the branch for the external EEPROM, on the image in place, refines HexCompiling.StoreEeeprom |
| HexProgramming.HexProgrammer.StoreFlashMemory | examples/PgmHex/PgmHex.cpp:333-432 | the branch for the flash refines HexCompiling.StoreFlash |
| HexProgramming.HexProgrammer.StoreInternalEeprom | examples/PgmHex/PgmHex.cpp:387-412 | the branch for the internal EEPROM refines HexCompiling.StoreEeprom |
| HexProgramming.HexProgrammer.PrepareMemBlock | examples/PgmHex/PgmHex.cpp:234-441 | a whole call refines HexCompiling.Prepare |
| HexProgramming.HexProgrammer.UploadBlock | examples/PgmHex/PgmHex.cpp:533-582 | the inner loop logs the packets of the block, one for each step of the process state |
| HexProgramming.HexProgrammer.Program | examples/PgmHex/PgmHex.cpp:522-583 | the loops of the program end, and log exactly the uploads of HexCompiling.Drive |
| HexProgramming.ProgramFile | examples/PgmHex/PgmHex.cpp:522-583 | from the zeroed globals on, the program uploads what HexFiles.Compiles is about |
| HexProgramming.LineCrcSums | examples/PgmHex/PgmHex.cpp:188-198 | the checksum kept in one byte is the sum of the line modulo 256 |
| IqrfReading.ReadFrom | examples/PgmIqrf/PgmIqrf.cpp:129-170 | the loop ends on every file, the row never has more than 20 bytes, and exactly 20 when it is returned |
| IqrfReading.RowsReadBack | examples/PgmIqrf/PgmIqrf.cpp:129-170 | for any file of comments, blank lines and rows ended by CR LF, successive calls return exactly the rows in order and then the end of the file |
| IqrfReading.RowEndsExactly | examples/PgmIqrf/PgmIqrf.cpp:146-166 | the digits of a row are returned exactly if CR follows, or a comment that CR ends; at the end of the file they are lost; else they are an error |
| IqrfReading.IqrfProgrammer.ReadIQRFFileLine | examples/PgmIqrf/PgmIqrf.cpp:129-170 | the goto loop on the buffer computes IqrfReading.ReadFrom and touches no byte behind the row |
| IqrfReading.IqrfProgrammer.Program | examples/PgmIqrf/PgmIqrf.cpp:247-266 | the program uploads exactly the rows read, to the plugin target |
| IqrfReading.ProgramFile | examples/PgmIqrf/PgmIqrf.cpp:247-266 | the same from the start of a file |

## Left out

- Opening and configuring ports, `select`, overlapped I/O and the mutexes: a read is a chunk, a write takes a positive count, a wait times out or not, and locked accessors are single steps.
- CDC.CDCImpl.constructor: does not open the port or start the reader thread and wait for it; it is the state of the object alone.
- CDC.CDCImpl.ReadMsgThreadWindows: the nested loops (`src/CDCImpl_Win.cpp:84-246`) are reduced to the completions of their reads, each with a byte, empty, or at once and without a byte.
- CDC.CDCImpl.ProcessCommand: the response that comes, or that none comes in time, is an input; how it comes about is what Protocol is for.
- The sending of Windows in one overlapped write: only its reset of the event is modelled, in the protocol.
- Sizes beyond those of the types of the code: lengths and positions are unbounded numbers.
- Texts of errors, where they carry a number of the operating system, are one constant each.
- The tables of the parser are functions and not maps filled at start; buffers of the receive side are values, as the loops own them.
- The check of `download` that its caller's buffer is large enough, and the overloads that differ in the type of the data only.
- HexFiles.FileCompiled: does not cover odd addresses or lengths, upper addresses from 2 on, flash records over the border of a half, and records that are refused; HexStraddling and HexLimits say of one such record what it does.
- HexLimits.FileLeaves: leaves out the 32 addresses from 0x800 on if a record strays; they are what HexLimits.MisdirectedExactly is about.
- HexStraddling.StraddleExactly: requires that the flash below the pending block does not hold that block, which may have been left and entered again; HexStraddling.StraddlerWrites says what is there in that case too.
- HexCompiling.Process: a length byte that disagrees with the line would make the code read behind the line buffer; such a call returns the code Undefined here.
- ParserVerdicts.VerdictStable: not stated for IT and PM; ParserVerdicts.StableExactly says when it holds there.
- The block preparation of PgmHex is one function of 200 lines; here its branches are methods of their own, called in the same order.
- Ends of lines in HEX files: what follows CR or LF up to the next ':' is skipped as any other text, so that CR LF needs no case of its own.
- The outcome of an upload, which the programs print and ignore; printing; entering and leaving programming mode.
- The Java binding, the exception classes, and the examples that read temperature, memory and configuration.

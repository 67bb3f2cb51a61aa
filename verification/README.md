# SEGGER tracing stack and TWI engine

The debug link of the firmware has three layers. RTT moves bytes between target
and debug host through ring buffers that both sides touch at any time.
SystemView packs trace events into frames, sends them over an RTT up channel and
serves host commands from a down channel. RTT printf formats text through a
small buffer. Beside them stands the interrupt-driven I2C (TWI) engine, in which
a thread and an interrupt handler share one message at a time. This project
models the four and proves what each of them is for.

* **Rings** (`RingGeometry`, `RttUp`, `RttDown`, `RttOverwrite`, `Terminal`).
  A ring is a class over its cell array. The host is an adversary: it takes any
  number of micro-steps (look at an offset, copy one byte, acknowledge) between
  any two steps of the target. `Stream()` is everything a channel ever
  accepted, `Received()` what the host has got of it.
* **SystemView** (`SysViewCodec`, `SysViewPackets`, `SysViewTrace`,
  `SysViewContents`, `SysViewProgress`, `SysViewSetup`, `SysViewAnswers`,
  `SysView`, `SysViewSession`, `SysViewModules`). The codec has
  the byte formats and the host's parsers. The recorder keeps a ghost log with
  one event for each request; its invariant says that the log is legal, that
  the globals are what the log makes of them, and that the up channel carries
  the frames of the stored packets. The theorems about runs hold of every legal
  log. `SysViewContents` holds what the host decodes against what was asked for,
  and `SysViewAnswers` says command byte by command byte what that is.
* **printf** (`Digits`, `Printf`, `PrintfDelivery`, `PrintfDescriptor`,
  `PrintfFormat`, `PrintfMeaning`). `Text` is the formatting with no buffer in sight, `Sent` what
  of it reaches the channel, given the rooms that its chunks find there. The
  descriptor's methods are proved against both, writing through the small buffer
  to an up channel that the host reads between the offers. `PrintfMeaning` says,
  without the functions that format, what each conversion shows.
* **TWI** (`TwiWire`, `TwiPump`, `Twi`). The bus is the sequence of register
  accesses. A `Schedule` says which interrupts, spurious ones included, fall
  between the steps of the calling thread; `TwiPump` says what such a run of
  interrupts amounts to, and the handler and the thread are proved against it. A
  listener (`Listen`) tells directions, STARTs, STOPs and bytes from the bus alone.

`dafny verify dfyconfig.toml` checks the project.

## What the proofs brought to light

* `SEGGER_RTT_WriteWithOverwriteNoLock` keeps the newest bytes for every data
  exactly when the request is shorter than `(SizeOfBuffer - WrOff) +
  (SizeOfBuffer - 1)`: rounds after a wrap never reach the last cell
  (`OverwriteExact`).
* `SEGGER_RTT_WriteSkipNoLock` returns 1 for success where its comment promises
  the number of bytes: the two agree exactly for one byte, or when nothing fits
  (`UpRing.WriteSkipNoLock`). Its inner straight copy
  (SEGGER_RTT.c:763-776) is dead code.
* A plain write shows up unchanged on its terminal exactly when it contains no
  0xFF byte (`PlainExact`).
* `_EncodeStr` promises at most `1 + Limit` bytes. That holds exactly if fewer
  than 255 characters are written, or the string leaves two of the limit unused
  (`StrSize`); 255 characters under a limit of 255 take 258 bytes
  (`StrOverLimit`). Strings come back exactly up to length 65535 (`StrExact`),
  ids and lengths exactly below 2^14 (`HeadExact`), although the list of ids
  runs to 32767.
* The format description calls the length of a string a number in the variable
  encoding (SEGGER_SYSVIEW.c:57-59); the code writes one byte, or 255 and two bytes
  (`StrBytes`).
* `DropCount` is never reset: an overflow packet reports everything since
  start-up (`OverflowReports`). The packet that opens a gap is not counted, and
  a masked one that arrives while packets are being dropped is, because the
  overflow packet is tried before the event mask is looked at
  (`MiscountedRun`). Growth plus gaps are the losses exactly if no such request
  was made (`LossExact`).
* In printf the two loops agree on the number of digits exactly while
  `Base^(NumDigits-1)` fits 32 bits (`PrecisionExact`); beyond it the divisor
  wraps. The result of a call is the number of characters
  stored exactly if no full chunk was refused and the last one came out full
  (`VPrintf`).
* A refused chunk that ends in a digit of a left-justified number, with padding
  still to come, is offered to the channel once more, because the padding loop is
  entered after the refusal (SEGGER_RTT_printf.c:159-181). A trimming channel may
  then take the start of the chunk twice: `%-3u` of 12 puts "11" into a channel
  for one byte (`OfferedTwice`). Whatever the host does, it gets a first part of
  the text exactly if, for every such chunk, what could be taken of it at first
  is followed in the text by the chunk itself (`Safe`, `TrimmedExact`); so it
  does if no such digit ends a chunk beyond the room (`ClearIsSafe`), or no number is
  left-justified. The other modes always leave a first part (`PrefixUnlessTrim`).
* A module's 8-bit number leads back to it exactly if fewer than 256 modules
  were registered after it (`ThereAndBack`); the id ranges chain exactly while
  the newest offset has not wrapped (`RangesChain`).
* A TWI write cut short by a NACK is reported to the caller as a success
  (`NackedWrite`), and then a STOP is issued even before a repeated START; it
  has sent everything exactly if no NACK came while it was waiting
  (`SentAllExact`). `TWI_Xfer` returns false for zero messages. The flag of a
  repeated START is never taken back, so a message array passes the check of
  its flags a second time exactly if it has no write but the last (`XferTwice`);
  the checks only report. After a timeout the engine is idle again exactly if
  the message got through at the last moment, or no interrupt without an error
  had come since it was posted (`Abort`): the handler's own pointer and counter
  survive.

## Model

| member | source | states |
|---|---|---|
| RttUp.UpRing.HostMove | SEGGER/RTT/SEGGER_RTT.c:305-311 | whatever the host does, the stream is unchanged, received bytes stay received, and a target's old view of the free space only under-estimates it |
| RttUp.UpRing.CopyIn | SEGGER/RTT/SEGGER_RTT.c:317-330 | copying bytes one by one, with the host in between, overwrites no unread byte and makes none visible |
| RttUp.UpRing.Publish | SEGGER/RTT/SEGGER_RTT.c:329-332 | moving the write offset appends exactly the staged bytes to the stream |
| RttUp.UpRing.WriteBlocking | SEGGER/RTT/SEGGER_RTT.c:292-336 | the stream grows by a prefix of the data, by all of it unless the host stays away, and by at least what was free; with room at entry it ends after at most two rounds without waiting |
| RttUp.UpRing.GetAvailWriteSpace | SEGGER/RTT/SEGGER_RTT.c:442-458 | the answer is the number of bytes that fit, one cell always kept empty |
| RttUp.UpRing.WriteNoCheck | SEGGER/RTT/SEGGER_RTT.c:356-405 | one-piece and two-piece copies append the data to the stream, with the host running |
| RttUp.UpRing.WriteSkipNoLock | SEGGER/RTT/SEGGER_RTT.c:708-827 | the fast path takes the same decision and leaves the same cells and offset as the all-or-nothing write that `WriteNoLock` is proved against; the result is the number of bytes stored if and only if there is one byte, or nothing fits |
| RttUp.UpRing.PutCharSkipNoLock | SEGGER/RTT/SEGGER_RTT.c:990-1017 | the one-byte case of the same all-or-nothing write |
| RttUp.UpRing.WriteNoLock | SEGGER/RTT/SEGGER_RTT.c:852-902 | per mode: all or nothing, the longest fitting prefix, or everything unless a full ring was polled once more than the patience allows, and then at least what fitted at once; unknown modes write nothing |
| RttUp.UpRing.Session | SEGGER/RTT/SEGGER_RTT.c:708-1017 | over any run of writing calls with the host at work, each call accepts what its mode decides on the room it finds, which is at least the first room less what the run has accepted (a blocking one leaves something out only when its patience has run out); the channel carries just that, in order, and the host has received a prefix of it |
| RttUp.AcceptsExactly | SEGGER/RTT/SEGGER_RTT.c:852-902 | modes by number: 0 takes all of the data or nothing, 1 as much as fits, 2 all of it unless its patience has run out, any other nothing |
| RttUp.UpRing.WriteWithOverwriteNoLock | SEGGER/RTT/SEGGER_RTT.c:612-682 | below the limit the unread bytes become the newest SizeOfBuffer - 1 of old and new ones |
| RttOverwrite.OverwriteKeepsNewest | SEGGER/RTT/SEGGER_RTT.c:628-681 | wrap-around rounds and the moved read offset leave the newest bytes, in order |
| RttOverwrite.OverwriteExact | SEGGER/RTT/SEGGER_RTT.c:628-681 | a request length keeps the newest bytes for all data if and only if it is below the limit |
| RttDown.DownRing.ReadNoLock | SEGGER/RTT/SEGGER_RTT.c:483-555 | returns exactly the first min(unread, BufferSize) bytes, wrapped or not, and leaves the rest, while the host keeps writing |
| RttDown.ReadLengths | SEGGER/RTT/SEGGER_RTT.c:504-541 | the two pieces of a read add up, also when a short read makes `WrOff - RdOff` underflow |
| Terminal.PlainExact | SEGGER/RTT/SEGGER_RTT.c:420-426 | plain data is shown whole on the current terminal if and only if it contains no escape byte |
| Terminal.DecodeOut | SEGGER/RTT/SEGGER_RTT.c:1646-1719 | switch, text, switch back shows the text on the other terminal and ends on the first one |
| Terminal.Mux.Write | SEGGER/RTT/SEGGER_RTT.c:852-902 | a host decoding the whole channel shows exactly the accepted bytes on the active terminal; they are what the mode decides, in blocking mode all unless the patience has run out |
| Terminal.Mux.SetTerminal | SEGGER/RTT/SEGGER_RTT.c:1596-1627 | succeeds exactly for ids below 16 with room for the pair (or in blocking mode), and then 0xFF and the id are in the channel and the host is on that terminal; a failure changes nothing |
| Terminal.Mux.TerminalOut | SEGGER/RTT/SEGGER_RTT.c:1646-1719 | a valid terminal gets all of the text or nothing when skipping, the longest part that leaves room for the two switches when trimming, all of it when blocking, which only then can wait; the channel then has the two switches with that part between them, the terminal asked for shows it and no other one anything, and the current one stays; every other call returns -1 and leaves the channel alone |
| Terminal.Mux.Session | SEGGER/RTT/SEGGER_RTT.c:1596-1719 | over any run of plain writes, selections and terminal outputs, a host decoding from the start ends on the active terminal and has shown exactly what the calls accepted, each by its mode; if a call still waits, that holds of the calls before it and the part of the channel they have written |
| Terminal.AnswersExactly | SEGGER/RTT/SEGGER_RTT.c:1596-1719 | what each call of such a run returns, by mode number and room |
| Terminal.PlayExactly | SEGGER/RTT/SEGGER_RTT.c:1596-1719 | what each call of such a run shows: the bytes it has accepted, on its own terminal |
| Terminal.IdBytes | SEGGER/RTT/SEGGER_RTT.c:1606-1612 | the id byte of a terminal is its hexadecimal digit, and the host reads it back |
| SysViewCodec.LebRoundTrip | SEGGER/SystemView/SEGGER_SYSVIEW.c:253-264 | an encoded number reads back, whatever follows it |
| SysViewCodec.LebSize | SEGGER/SystemView/SEGGER_SYSVIEW.c:253-264 | a U32 takes one to five bytes |
| SysViewCodec.LebBytes | SEGGER/SystemView/SEGGER_SYSVIEW.c:253-264 | seven bits of the number in each byte, the lowest first, and the top bit set in all bytes but the last |
| SysViewCodec.StrExact | SEGGER/SystemView/SEGGER_SYSVIEW.c:341-373 | a string reads back, cut to the limit, if and only if the cut is shorter than 65536 |
| SysViewCodec.StrSize | SEGGER/SystemView/SEGGER_SYSVIEW.c:336-373 | the stated bound of 1 + Limit bytes holds if and only if fewer than 255 characters are written or two of the limit are left; 3 + Limit always holds |
| SysViewCodec.StrOverLimit | SEGGER/SystemView/SEGGER_SYSVIEW.c:336-373 | a string that breaks the stated bound |
| SysViewCodec.StrBytes | SEGGER/SystemView/SEGGER_SYSVIEW.c:341-373 | up to 254 characters have their number in one byte, more of them 255 and two bytes, the low one first |
| SysViewCodec.ValuesRoundTrip | SEGGER/SystemView/SEGGER_SYSVIEW.c:35-62 | any run of numbers and strings reads back and delimits itself |
| SysViewCodec.HeadExact | SEGGER/SystemView/SEGGER_SYSVIEW.c:626-642 | a one- or two-byte id or length reads back if and only if it is below 2^14 |
| SysViewCodec.FrameRoundTrip | SEGGER/SystemView/SEGGER_SYSVIEW.c:15-27 | a frame reads back with id, payload and delta, with and without a length field |
| SysViewCodec.FrameUnfinished | SEGGER/SystemView/SEGGER_SYSVIEW.c:15-27 | no proper prefix of a frame reads as a frame |
| SysViewCodec.FramesRoundTrip | SEGGER/SystemView/SEGGER_SYSVIEW.c:577-666 | a run of frames reads back in order, an unfinished one stays over |
| SysViewCodec.PrefixDecodes | SEGGER/SystemView/SEGGER_SYSVIEW.c:577-666 | whatever part of the channel the host has got decodes to the packets that part contains, and no others |
| SysViewCodec.FramesUnique | SEGGER/SystemView/SEGGER_SYSVIEW.c:15-33 | no two runs of packets have the same bytes |
| SysViewCodec.CountedBytes | SEGGER/SystemView/SEGGER_SYSVIEW.c:626-642 | ids from 24 on stand with a length before the payload, one byte each below 128 and else two, low bits first |
| SysViewCodec.DocumentedValues | SEGGER/SystemView/SEGGER_SYSVIEW.c:46-63 | the documented encodings of numbers and of a string |
| SysViewCodec.DocumentedPackets | SEGGER/SystemView/SEGGER_SYSVIEW.c:65-71 | the documented bytes of an overflow packet and of two events |
| SysViewPackets.EncodeU32 | SEGGER/SystemView/SEGGER_SYSVIEW.c:253-264 | the loop writes the encoding in place and nothing else |
| SysViewPackets.EncodeStr | SEGGER/SystemView/SEGGER_SYSVIEW.c:341-373 | writes the counted, cut string in place and nothing else |
| SysViewPackets.PrependHeader | SEGGER/SystemView/SEGGER_SYSVIEW.c:626-642 | writing backwards from the payload gives id and length in reading order, inside the four reserved bytes |
| SysViewPackets.BuildFrame | SEGGER/SystemView/SEGGER_SYSVIEW.c:616-649 | header in front and delta behind make the frame around the payload, with the rest of the buffer untouched |
| SysViewPackets.BuildOverflow | SEGGER/SystemView/SEGGER_SYSVIEW.c:475-491 | the overflow frame fits its eleven bytes |
| SysViewPackets.FrameBounds | SEGGER/SystemView/SEGGER_SYSVIEW.c:1267-1564 | for any id and values, header, numbers and delta stay inside INFO_SIZE + N * QUANTA_U32 bytes |
| SysViewPackets.EncodeNumbers | SEGGER/SystemView/SEGGER_SYSVIEW.c:1267-1564 | the parameters of a record call lie one after the other |
| SysViewPackets.ShapedNumbers | SEGGER/SystemView/SEGGER_SYSVIEW.c:16-19 | a packet of numbers with the arity its small id asks for can be decoded without a length |
| SysViewPackets.ShapedModule | SEGGER/SystemView/SEGGER_SYSVIEW.c:2405-2434 | a module description is decodable whatever the name |
| SysViewTrace.HostDecodes | SEGGER/SystemView/SEGGER_SYSVIEW.c:577-666 | for every log, any part of the channel decodes to the packets stored first, all of it to all of them |
| SysViewTrace.SyncIsNops | SEGGER/SystemView/SEGGER_SYSVIEW.c:210 | the ten zero bytes read as five NOP frames |
| SysViewContents.OwnPacket | SEGGER/SystemView/SEGGER_SYSVIEW.c:613-666 | a request whose packet is stored has put it into the channel with its own id and payload, behind all else |
| SysViewContents.ContentsExact | SEGGER/SystemView/SEGGER_SYSVIEW.c:577-666 | for every log, the packets in the channel are, in order, the ids and payloads of the stored requests, and otherwise NOPs and reports of drops |
| SysViewContents.ContentsPrefix | SEGGER/SystemView/SEGGER_SYSVIEW.c:577-666 | the same of every decoded part |
| SysViewTrace.Telescopes | SEGGER/SystemView/SEGGER_SYSVIEW.c:646-665 | adding up the decoded deltas gives the time sampled for each stored packet, modulo 2^32, whatever was lost between |
| SysViewTrace.TelescopesPrefix | SEGGER/SystemView/SEGGER_SYSVIEW.c:488-501 | the same for every decoded prefix |
| SysViewTrace.EnableInRange | SEGGER/SystemView/SEGGER_SYSVIEW.c:594-610 | the enable state stays in {0, 1, 2} |
| SysViewTrace.LossLaw | SEGGER/SystemView/SEGGER_SYSVIEW.c:475-504 | over every run, the growth of `DropCount` plus the 1-to-2 transitions are the packets to be recorded that did not get into the channel, plus the masked ones turned away while dropping |
| SysViewTrace.LossExact | SEGGER/SystemView/SEGGER_SYSVIEW.c:605-624 | they are the losses alone if and only if no masked request was turned away |
| SysViewTrace.StoredExactly | SEGGER/SystemView/SEGGER_SYSVIEW.c:594-656 | over every run, a packet is in the channel if and only if the recorder is on, the channel has turned nothing down for it, and its id is not below 32 and masked |
| SysViewTrace.MiscountedRun | SEGGER/SystemView/SEGGER_SYSVIEW.c:605-624 | a run in which a masked packet is counted |
| SysViewTrace.GapMarked | SEGGER/SystemView/SEGGER_SYSVIEW.c:600-610 | after a loss the next stored packet of the session comes behind an overflow packet |
| SysViewTrace.OverflowReports | SEGGER/SystemView/SEGGER_SYSVIEW.c:482-484 | the overflow packet carries the losses and miscounts so far less the gaps so far, modulo 2^32 |
| SysViewTrace.OffIsSilent | SEGGER/SystemView/SEGGER_SYSVIEW.c:597-599 | while the recorder is off nothing is stored and nothing counts as lost |
| SysViewTrace.NestedIsHidden | SEGGER/SystemView/SEGGER_SYSVIEW.c:689-695 | what a host command adds to the log does not disturb the outer requests |
| SysViewTrace.NestedIsExact | SEGGER/SystemView/SEGGER_SYSVIEW.c:689-695 | while a command is served every request leaves exactly one event: no command is nested in it |
| SysView.Recorder.HostSees | SEGGER/SystemView/SEGGER_SYSVIEW.c:577-666 | if the log has decodable packets only, what the host has received decodes to the first stored packets with their sampled times; but for NOPs and reports of drops these are, in order, the ids and payloads of the stored requests, all of them once everything is received |
| SysViewSession.Session | SEGGER/SystemView/SEGGER_SYSVIEW.c:577-701 | over any run of application calls with decodable packets, host drains and commands, each call makes just its requests in the state it finds (a start only when off, a stop only when on), the log has them in order and decodable packets only, so the host decodes the first stored packets with the ids and payloads that were asked for and their sampled times |
| SysViewSession.AsksExactly | SEGGER/SystemView/SEGGER_SYSVIEW.c:1247-2457 | what each call asks for, id by id and payload by payload |
| SysView.Recorder.DropCountAccounts | SEGGER/SystemView/SEGGER_SYSVIEW.c:660-664 | `DropCount` has grown by the losses and miscounts less the gaps, modulo 2^32 |
| SysView.Recorder.TrySendOverflowPacket | SEGGER/SystemView/SEGGER_SYSVIEW.c:475-504 | stores the count and leaves the dropping state with the new timestamp, or counts one more and changes nothing else; stored whenever eleven bytes are free |
| SysView.Recorder.Transmit | SEGGER/SystemView/SEGGER_SYSVIEW.c:613-666 | the frame of this id and payload goes in whole with the state advanced, or not at all with the gap opened; muted ids do neither |
| SysView.Recorder.SendDropping | SEGGER/SystemView/SEGGER_SYSVIEW.c:605-665 | overflow packet first, then the packet, or a loss; both get through when there is room for both |
| SysView.Recorder.SendPacket | SEGGER/SystemView/SEGGER_SYSVIEW.c:577-701 | one event for the packet, then at most one host command of at most two bytes, served at depth one with exactly the requests it asks for; nothing is lost when there is room |
| SysView.Recorder.ServeHost | SEGGER/SystemView/SEGGER_SYSVIEW.c:689-695 | a waiting command is served unless one is being served already |
| SysView.Recorder.HandleIncomingPacket | SEGGER/SystemView/SEGGER_SYSVIEW.c:410-451 | takes one command byte, and one more for extended commands, and makes exactly the requests of that command |
| SysViewAnswers.StartAndStopAnswers | SEGGER/SystemView/SEGGER_SYSVIEW.c:417-422 | byte 1 starts a recorder that is off, byte 2 stops one that is on, with event 11 first |
| SysViewAnswers.NumberAnswers | SEGGER/SystemView/SEGGER_SYSVIEW.c:423-434 | byte 3 asks for the time, byte 6 for the number of modules, on eight bits |
| SysViewAnswers.ListAnswers | SEGGER/SystemView/SEGGER_SYSVIEW.c:426-431 | byte 4 asks for the task list, message by message; byte 5 for the four numbers about the system and then its description |
| SysViewAnswers.DescriptionAnswers | SEGGER/SystemView/SEGGER_SYSVIEW.c:435-437 | byte 7 asks for the messages of every module, module by module |
| SysViewAnswers.ModuleAnswers | SEGGER/SystemView/SEGGER_SYSVIEW.c:438-443 | byte 128 and a number ask for number, first event and name of that module, or for nothing |
| SysViewAnswers.UnknownAnswers | SEGGER/SystemView/SEGGER_SYSVIEW.c:444-448 | all other bytes ask for nothing |
| SysView.Recorder.Start | SEGGER/SystemView/SEGGER_SYSVIEW.c:1610-1640 | turns recording on and makes the start-up requests in order, with the clock as read then, or does nothing if it is on |
| SysViewAnswers.StartAnswer | SEGGER/SystemView/SEGGER_SYSVIEW.c:1610-1640 | a start is, in order: on, sync, event 10, the four numbers about the system, its description, the time, the task list, the number of modules |
| SysView.Recorder.Stop | SEGGER/SystemView/SEGGER_SYSVIEW.c:1656-1665 | records the stop event and ends off, or does nothing if it is off |
| SysView.Recorder.GetSysDesc | SEGGER/SystemView/SEGGER_SYSVIEW.c:1675-1690 | requests the init packet and then the description packets |
| SysView.Recorder.RecordNumbers | SEGGER/SystemView/SEGGER_SYSVIEW.c:1247-1564 | a record call requests one packet with the encoded parameters |
| SysView.Recorder.SendModule | SEGGER/SystemView/SEGGER_SYSVIEW.c:2405-2434 | describes the module at that place, or does nothing |
| SysView.Recorder.SendModuleDescription | SEGGER/SystemView/SEGGER_SYSVIEW.c:2444-2457 | makes the requests of all modules' callbacks in list order |
| SysView.Recorder.EnableEvents | SEGGER/SystemView/SEGGER_SYSVIEW.c:2771-2773 | unmasks just these ids |
| SysView.Recorder.DisableEvents | SEGGER/SystemView/SEGGER_SYSVIEW.c:2785-2787 | masks just these ids |
| SysViewSetup.CommandsCarried | SEGGER/SystemView/SEGGER_SYSVIEW.c:410-451 | with decodable callbacks, every host command is answered with decodable packets only |
| SysViewModules.RangesChain | SEGGER/SystemView/SEGGER_SYSVIEW.c:2325-2345 | each id range starts where the one before ends if and only if the newest offset has not wrapped |
| SysViewModules.Owned | SEGGER/SystemView/SEGGER_SYSVIEW.c:2325-2345 | an id belongs to some module if and only if it lies between 512 and the end |
| SysViewModules.OneOwner | SEGGER/SystemView/SEGGER_SYSVIEW.c:2325-2345 | no id belongs to two modules |
| SysViewModules.NumberResolves | SEGGER/SystemView/SEGGER_SYSVIEW.c:2364-2416 | the number a description gives leads back to the module if and only if it stands within the first 256 |
| SysViewModules.Registry.Register | SEGGER/SystemView/SEGGER_SYSVIEW.c:2323-2351 | the linked list gets the module in front, with its offset and the 8-bit count |
| SysViewModules.Registry.NumberOf | SEGGER/SystemView/SEGGER_SYSVIEW.c:2364-2376 | the walk along the list counts the module's place, on eight bits |
| SysViewModules.Registry.ModuleOf | SEGGER/SystemView/SEGGER_SYSVIEW.c:2405-2416 | the walk ends on the module at that place, or on none |
| SysViewModules.Registry.EntryOf | SEGGER/SystemView/SEGGER_SYSVIEW.c:2405-2434 | what is described for a number is name, offset and callback of the module at that place, as the recorder's setup holds them |
| SysViewModules.Registry.ThereAndBack | SEGGER/SystemView/SEGGER_SYSVIEW.c:2364-2434 | asking for the number that a module's description gives leads back to the module, and to its name and offset, if and only if fewer than 256 modules stand in front of it |
| Printf.WidthLaw | SEGGER/RTT/SEGGER_RTT_printf.c:189-259 | for every flag combination the length is the larger of the field width and sign plus digits |
| Printf.IntRoundTrip | SEGGER/RTT/SEGGER_RTT_printf.c:99-259 | the text reads back as the number, whatever width, precision and flags |
| Printf.UnsignedRoundTrip | SEGGER/RTT/SEGGER_RTT_printf.c:99-183 | and so does that of an unsigned number |
| Printf.PrecisionExact | SEGGER/RTT/SEGGER_RTT_printf.c:112-167 | the divisor loop emits as many digits as the width loop announces if and only if Base^(NumDigits-1) is below 2^32 |
| Printf.IntPieces | SEGGER/RTT/SEGGER_RTT_printf.c:206-255 | the padding of the signed and the unsigned printer together is that of one formatted number |
| PrintfDelivery.PrefixUnlessTrim | SEGGER/RTT/SEGGER_RTT_printf.c:74-93 | in every mode but trimming the channel gets a first part of the text, whatever room the chunks find |
| PrintfDelivery.TrimExact | SEGGER/RTT/SEGGER_RTT_printf.c:74-181 | in trimming mode it gets a first part for every host if and only if each chunk that is offered twice repeats, behind what could be taken of it at first |
| PrintfDelivery.ClearIsSafe | SEGGER/RTT/SEGGER_RTT_printf.c:159-181 | so it does if no chunk beyond the room ends in a digit that has padding behind it |
| PrintfDelivery.Delivery | SEGGER/RTT/SEGGER_RTT_printf.c:74-93 | how much gets through: all that there was room for at the start in every mode; else whole chunks up to one that did not fit, or at least what there was room for, by mode |
| PrintfDelivery.SentLength | SEGGER/RTT/SEGGER_RTT_printf.c:74-93 | without a refusal everything is sent but what the last offer left of the unfilled chunk |
| PrintfDescriptor.Descriptor.HandOver | SEGGER/RTT/SEGGER_RTT_printf.c:83-92 | a full chunk goes into the channel whole, or the call is stopped, or, in blocking mode, does not come back; a chunk refused before is offered again |
| PrintfDescriptor.Descriptor.StoreChar | SEGGER/RTT/SEGGER_RTT_printf.c:74-93 | emits one character and keeps the text equal to what was handed over plus the buffer; after a refusal emits nothing and offers the full buffer again |
| PrintfDescriptor.Descriptor.Pad | SEGGER/RTT/SEGGER_RTT_printf.c:171-181 | pads the field; entered after a refusal, offers the refused chunk once more if and only if there is something to pad |
| PrintfDescriptor.Descriptor.MeasureWidth | SEGGER/RTT/SEGGER_RTT_printf.c:112-119 | the width loop counts the digits |
| PrintfDescriptor.Descriptor.FindDivisor | SEGGER/RTT/SEGGER_RTT_printf.c:145-155 | the search ends on the place value of the first digit to print |
| PrintfDescriptor.Descriptor.PrintDigits | SEGGER/RTT/SEGGER_RTT_printf.c:159-167 | the output loop emits the digits in order, every index below the base, and stops at a refusal |
| PrintfDescriptor.Descriptor.PrintUnsigned | SEGGER/RTT/SEGGER_RTT_printf.c:99-183 | emits the padded text, or a first part of it when the channel refuses; a refused chunk has been offered twice if and only if it ends in a digit with padding behind it |
| PrintfDescriptor.Descriptor.PrintInt | SEGGER/RTT/SEGGER_RTT_printf.c:189-259 | the same for sign, padding and digits |
| PrintfDescriptor.Descriptor.Finish | SEGGER/RTT/SEGGER_RTT_printf.c:414-425 | what the call leaves in the channel, and returns, is what the rooms found by its offers make of the text |
| PrintfFormat.FormatsCompose | SEGGER/RTT/SEGGER_RTT_printf.c:299-413 | two formats in a row print their texts in a row |
| PrintfFormat.PlainFormat | SEGGER/RTT/SEGGER_RTT_printf.c:410-412 | a format without conversions prints itself |
| PrintfFormat.ReadConversion | SEGGER/RTT/SEGGER_RTT_printf.c:305-364 | the parsing loops find the flags, width, precision and specifier of the conversion, with 32-bit numbers |
| PrintfFormat.Convert | SEGGER/RTT/SEGGER_RTT_printf.c:365-408 | the specifier switch emits what the conversion means, with every refused chunk offered as often as the code offers it |
| PrintfFormat.VPrintf | SEGGER/RTT/SEGGER_RTT_printf.c:284-425 | the channel gets exactly what the rooms found by the chunks make of the unbuffered text: a first part of it in every mode but trimming, and there if it is safe, at least what there was room for; the result is -1 if a full chunk was refused and else the length plus its remainder by the buffer size, which is the number of characters sent if and only if the remainder is 0 |
| PrintfFormat.TrimmedExact | SEGGER/RTT/SEGGER_RTT_printf.c:159-181 | for a format, its arguments, buffer size and room: a trimming channel gets a first part of the text for every host if and only if the text is safe; it is if no number is left-justified |
| PrintfFormat.OfferedTwice | SEGGER/RTT/SEGGER_RTT_printf.c:159-181 | a call after which the channel does not hold a first part of its text |
| PrintfFormat.SizesAgree | SEGGER/RTT/SEGGER_RTT_printf.c:74-93 | two channels that have room get the same characters through buffers of any sizes; in any case, unless they trim, one gets a first part of what the other gets |
| PrintfMeaning.IntShows | SEGGER/RTT/SEGGER_RTT_printf.c:189-259 | a signed number shows in its field as spaces, sign, zeros, digits of the table, spaces; at least as many digits as the precision and else no leading zero; as wide as asked, filled on the side and with the character that the flags say; its digits are marked if and only if padding follows |
| PrintfMeaning.UnsignedShows | SEGGER/RTT/SEGGER_RTT_printf.c:99-183 | the same for an unsigned number, which has no sign |
| PrintfMeaning.FieldReads | SEGGER/RTT/SEGGER_RTT_printf.c:99-259 | whatever shows a number so is read as that number |
| PrintfMeaning.FormatReads | SEGGER/RTT/SEGGER_RTT_printf.c:305-364 | a conversion, however written, is read with its flags, its width and precision on 32 bits, and its specifier |
| PrintfMeaning.FormatPrints | SEGGER/RTT/SEGGER_RTT_printf.c:299-413 | the text of a format is what its pieces print, one after the other: `%d` its argument, `%u`, `%x` and `%X` the same modulo 2^32, `%p` eight hexadecimal digits of it, `%c` and `%s` and `%%` their characters, an unknown specifier nothing |
| PrintfMeaning.ShownReads | SEGGER/RTT/SEGGER_RTT_printf.c:365-408 | for every accepted conversion, what `%d` prints reads back as its argument, what `%u`, `%x`, `%X` and `%p` print as the argument modulo 2^32 |
| PrintfMeaning.PieceReadsBack | SEGGER/RTT/SEGGER_RTT_printf.c:365-408 | the same of whatever a piece of a format is said to print |
| TwiPump.ReadExact | BSP/Drivers/TWI/twi_isr.c:103-128 | a read is through exactly after as many serving interrupts as it has bytes, with the bytes of the first ones |
| TwiPump.WriteExact | BSP/Drivers/TWI/twi_isr.c:50-101 | a write is through exactly after as many serving interrupts as it has bytes, or with the first NACK before, and has sent the bytes up to there |
| TwiPump.SentAllExact | BSP/Drivers/TWI/twi_isr.c:55-100 | a write that is through has sent everything if and only if no NACK came while it was waiting |
| Twi.Engine.Interrupt | BSP/Drivers/TWI/twi_isr.c:28-133 | any interrupt, spurious or not, keeps the message in exactly one place; an enabled, ready one without an error moves exactly one byte; the direction checks always hold, the other two exactly without an error and with a message |
| Twi.Engine.Transmit | BSP/Drivers/TWI/twi_isr.c:50-101 | the next byte goes out, behind the last one a STOP unless a message follows, and with it the semaphore; a NACK ends the write with a STOP |
| Twi.Engine.Receive | BSP/Drivers/TWI/twi_isr.c:103-128 | the next byte is stored, the last one behind a STOP and with the semaphore |
| Twi.Engine.Wait | BSP/Drivers/TWI/twi.c:237-243 | the wait ends well if and only if the interrupts that fall into it get the message through |
| Twi.Engine.Write | BSP/Drivers/TWI/twi.c:221-244 | result, bus and bytes sent are what the interrupts between the steps make of the message; a listener hears one transfer in writing direction without an ordered START, with those bytes, and a STOP behind them unless a message follows a whole write; the buffer stays |
| Twi.Engine.Read | BSP/Drivers/TWI/twi.c:258-288 | the same, with the received bytes in the buffer and no other cell changed; a listener hears one transfer in reading direction with one START, a STOP with it if and only if one byte is read, and another STOP in front of the last byte |
| Twi.Engine.NackedWrite | BSP/Drivers/TWI/twi.c:221-244 | a run that reports success and has sent nothing |
| Twi.Engine.Xfer | BSP/Drivers/TWI/twi.c:111-168 | succeeds if and only if there are messages and the interrupts get each through; then all went over the bus once and in order, writes sending what earlier reads have left in shared buffers, and a listener hears one transfer for each message, in its direction, with the START and the STOPs of its kind; otherwise the same holds of the messages before the first that is not through, which is aborted and has left just its first bytes on the bus and in its buffer; in any case bytes go out in writing mode and come in in reading mode |
| Twi.Engine.ModeLaw | BSP/Drivers/TWI/twi.c:234-271 | at any time, whatever interrupts have come, the mode of the peripheral is the last one set on the bus |
| Twi.CallHeard | BSP/Drivers/TWI/twi.c:118-147 | what a listener hears of the messages that are through |
| Twi.Engine.XferTwice | BSP/Drivers/TWI/twi.c:118-147 | the check of the flags holds of a second call with the same messages if and only if all but the last are reads |
| Twi.Engine.Abort | BSP/Drivers/TWI/twi.c:179-192 | with interrupts between its steps, the bus and the buffer hold what the interrupts before they are disabled make of the message, and the engine is idle again if and only if the message gets through by then, or waits in the mailbox and only erroneous interrupts come before that is cleared |
| Twi.SeparateBuffers | BSP/Drivers/TWI/twi.c:118-147 | with separate buffers writes send what was there at the call and reads leave what came in |
| TwiWire.BytesInOrder | BSP/Drivers/TWI/twi_isr.c:58-127 | a listener hears every byte of every message once, in order, and nothing else |
| TwiWire.RepeatedStart | BSP/Drivers/TWI/twi_isr.c:63-67 | no STOP separates a complete write from the message that follows it; after everything else the bus is free |
| TwiWire.WiresDirected | BSP/Drivers/TWI/twi.c:231-278 | on the bus of any run, the last mode before each byte is reading if and only if the byte comes in |
| TwiWire.WiresHeard | BSP/Drivers/TWI/twi.c:231-278 | for any run, a listener hears each transfer once: a read with one START and the STOP in front of its last byte, a write without a START and with a STOP behind it unless it is whole and a message follows |
| TwiPump.TransferHeard | BSP/Drivers/TWI/twi_isr.c:50-128 | the same of a transfer that is through or not |

## Left out

- RttUp.UpRing.WriteBlocking: the source waits for the host for ever; here the wait ends after a number of fruitless polls given as a parameter, and the contract says what has been written by then.
- RttUp.UpRing.WriteWithOverwriteNoLock: requires that no host is copying, as the source's comment does, and that ring size plus request stay within 2^32, as two objects in one 32-bit address space do.
- RttUp.UpRing.CopyIn: memory is sequentially consistent and writers hold the lock; barriers, alignment and locking macros are not modelled.
- Terminal.Mux.TerminalOut: the result of a call whose text is longer than 2^32 - 5 bytes, and of one that still waits, is left open. `WriteNoLock` compares all flag bits while the terminal functions use the low two; the model keeps both as they are.
- PrintfFormat.VPrintf: the result is an unbounded integer; formats that end inside a conversion are excluded. In blocking mode the wait of a write is cut as in `WriteBlocking`; then the call does not come back, and the contract says what it has sent by then.
- PrintfDescriptor.Descriptor.PrintInt: the smallest integer is excluded, whose negation does not exist.
- PrintfDescriptor.Descriptor.PrintUnsigned: precisions beyond the exact limit are excluded; there the divisor has wrapped, so that other digits are printed, or has become 0 and is divided by.
- PrintfDescriptor.Descriptor.FindDivisor: precisions beyond the exact limit are excluded, likewise.
- Twi.Engine.Abort: releasing the bus and resetting the peripheral are not part of this model.
- Twi.Engine.Wait: the time limit is a number of polls of the semaphore, each with the interrupts that fall into it.
- Twi.Engine.Xfer: the final wait for transmission complete, the flush, the bus-free delay and the device address are not part of this model.
- SysView.Recorder.SendPacket: callbacks and the module list are parameters, the clocks give any value; callbacks send packets that fit the packet buffer and register no modules.
- SysViewCodec.FrameRoundTrip: id 23 has no known structure and is not sendable; nor are ids of 2^14 and above.
- SysViewModules.Registry.Register: the packets it sends for the new module are those of `SendModule` and of the module's callback, and are not repeated here.
- Initialisation, channel names and allocation of RTT, and re-initialisation during a run.
- The post-mortem configuration, timestamps shorter than 32 bits and shrunk ids.
- The formatters inside SystemView, which repeat those of RTT.
- The OS, the camera, network, memory-card and register drivers of the firmware.

# sipXtapi: log converters, port allocator, codec paths, log viewer and event ring

A Dafny model of the stateful parts of sipXtapi that carry promises of their
own, with proofs of those promises, or, where the code does not keep one, the
exact condition under which it does.

| file | what it models |
|---|---|
| `UtlText.dfy` | the `UtlString` operations the log tools use, on values |
| `SipLogFramer.dfy` | `findNextMessage` and the read and drain loops of siplog2siptrace |
| `SipLogDrain.dfy` | the drain loop on arbitrary text: when it stops and what it leaves |
| `SipLogStreams.dfy` | well-formed logs: draining undoes printing, under every way of reading |
| `SipLogText.dfy` | both log parsers on record text written out character for character |
| `SipLogReads.dfy` | arbitrary text: reading in parts against draining at once |
| `SysLogTrace.dfy` | syslog2siptrace: field extraction, line splitting, the time window, the whole program |
| `RtpPorts.dfy` | the RTP port allocator, and what every run of it keeps |
| `RtpRuns.dfy` | what its callers see: ports returned, the range over runs, the order of reuse |
| `CodecPaths.dfy` | the growing vector of codec paths |
| `SyslogViewer.dfy` | syslogviewer: transducer, output buffer, program |
| `ViewerBuffer.dfy` | what reaches the file, and when the buffer is overrun |
| `ViewerFolding.dfy` | folding only inserts; how wide folded lines are |
| `ViewerRecords.dfy` | whole logs through the viewer |
| `ViewerText.dfy` | the viewer on any text, on folded headers, and on logs in default mode |
| `SysLogEscape.dfy` | `OsSysLog::escape` and `unescape` |
| `EventLog.dfy` | the 256-entry event ring of sipXezPhone |

Objects and globals that the code updates in place are classes whose methods
follow the code statement by statement; each method is tied to a function of
the old state, and the laws are lemmas about those functions.

## Where the code and its promises differ

The model follows the code. Each of the following is stated as an exact
condition, with an input that shows the failing side.

- **A read that ends inside a footer.** `UtlString::remove(pos, n)` does nothing
  when `n` reaches beyond the end, so a delivered record whose 43-character end
  line has not arrived completely is found, written, and not removed: the drain
  loop then writes it forever. `ReadingAWellFormedLog` proves that a
  well-formed log is converted completely if and only if no read ends within
  the last 20 characters of such an end line (`SafeCut`); `SampleNeverFinishes`
  is a log read both ways. On any other text `ReadingAnyText` says what a reading
  does, whether it finishes or not. Since the loop of the program never ends there, the
  method `DrainBuffer` reports `Livelock` instead, and `DrainIsTheLoop` relates
  that report to the loop itself for any number of iterations.
- **Free ports.** `UtlSList::insert` appends at the tail, so a released port waits
  behind all other free ports, although the comment in `releaseRtpPort` speaks
  of the head of the list. The next call returns it if and only if all the
  others are busy, it is not, and the attempts suffice (`ReturnedPortIsNextIff`);
  `ReturnedPortPassedOver` is a run in which it is passed over.
- **The port range.** The range bounds the attempts of a call, not the counter. A
  run generates only ports in the range if and only if no call that draws fresh
  ports does so under a load of more than half the range (`RunInRangeIff`), and
  whether the next call can leave the range is known before it
  (`NextPortInRangeIff`). `RangeIsExceeded` leaves it, and `ReusedPortOutOfRange`
  gets the same port again when nothing else is held.
- **The viewer's buffer.** Some writes lack the test for a full buffer. With
  `--indent` and `-f` the buffer is overrun exactly when such a write falls on
  a multiple of the buffer size (`OutputFaithfulIff`); some input does that in
  every such configuration, and none does in default mode (`SafeIffNoIndent`).
- **The viewer's widths.** Widths from 9 on are accepted, but folding is bounded
  exactly from 13 on (`PositionBoundedIff`). The tab that opens a message is not
  counted, against the README of syslogviewer, so that line may be wider
  (`FoldedLinesAreNarrow`, `OpeningLineIsWider`). A newline behind a backslash is
  counted as a graphic character, so the line it begins is broken early
  (`PositionIsColumnIff`, `RaggedLine`).
- **unescape** undoes escape if and only if there is nothing to escape in front of
  the first NUL, or there is no NUL and the last character was escaped
  (`UnescapeUndoesEscapeIff`). Otherwise it loses the last character
  (`UnescapeLosesALetter`) or what is behind the NUL (`UnescapeLosesBehindNul`).
- **CR LF.** A read that ends between a CR and its LF adds an empty line
  (`LinesOfReads`, `CrLfReadInTwo`).
- **The event ring.** At ring index 0 the walk starts two slots late
  (`ChronologicalIff`, `OldestShownLate`).

## Model

| member | source | states |
|---|---|---|
| `UtlText.Index` | sipXportLib/src/utl/UtlString.cpp:957-991 | the result is the first occurrence at or after the start, and there is none exactly when it is -1 |
| `UtlText.RemoveFront` | sipXportLib/src/utl/UtlString.cpp:435-454 | removing a prefix leaves what was behind it, and removing more than there is leaves everything |
| `UtlText.CStr` | sipXtackLib/siplog2siptrace/main.cpp:427-431 | the longest prefix of a read without a NUL, which is the whole read if it has none |
| `SipLogFramer.FirstEnd` | sipXtackLib/siplog2siptrace/main.cpp:306-339 | an end marker stands at the position returned, and no marker of any of the three kinds starts earlier |
| `SipLogFramer.EarliestOfThree` | sipXtackLib/siplog2siptrace/main.cpp:302-339 | the least of the three separate searches is that first marker, and no two kinds tie |
| `SipLogFramer.Converter.EarliestEnd` | sipXtackLib/siplog2siptrace/main.cpp:302-339 | the three searches with their comparisons compute position, direction and parsed flag of the first end marker |
| `SipLogFramer.Converter.CutFields` | sipXtackLib/siplog2siptrace/main.cpp:341-361 | host, port and message are cut at the delimiters, or an append gets a negative length and is reported |
| `SipLogFramer.Converter.FindNextMessage` | sipXtackLib/siplog2siptrace/main.cpp:291-370 | one call delivers a message, drops a parsed one, finds nothing, or breaks; the buffer afterwards is stated in each case. `SipLogText.OneRecord` and the rows below it say on which text it does which |
| `SipLogFramer.Converter.DrainBuffer` | sipXtackLib/siplog2siptrace/main.cpp:440-473 | what one drain writes and leaves in the buffer, with the livelock reported instead of looped |
| `SipLogFramer.Converter.Convert` | sipXtackLib/siplog2siptrace/main.cpp:422-475 | the events written over all reads, up to and including the drain at end of file |
| `SipLogDrain.LivelockRepeats` | sipXtackLib/siplog2siptrace/main.cpp:440-473 | on a buffer that delivers without shrinking, n iterations write the same event n times and leave the buffer as it was |
| `SipLogDrain.DrainIsTheLoop` | sipXtackLib/siplog2siptrace/main.cpp:440-473 | after any larger number of iterations the do-while has stopped with the same events and rest, or faulted, or is still running and repeating its last event |
| `SipLogDrain.LoopHaltsIffSettled` | sipXtackLib/siplog2siptrace/main.cpp:440-473 | the do-while stops after some number of iterations if and only if draining settles, and faults if and only if draining faults |
| `SipLogDrain.SettledIsExhausted` | sipXtackLib/siplog2siptrace/main.cpp:298-369 | when it stops, the header is absent or in front, or no end marker follows, or a parsed record's footer is incomplete; draining again changes nothing |
| `SipLogDrain.FindNextLeavesASuffix` | sipXtackLib/siplog2siptrace/main.cpp:364-367 | a call leaves a suffix of the buffer |
| `SipLogDrain.DrainLeavesASuffix` | sipXtackLib/siplog2siptrace/main.cpp:440-473 | a drain leaves a suffix of the buffer |
| `SipLogDrain.CompleteFootersNeverLivelock` | sipXtackLib/siplog2siptrace/main.cpp:440-473 | on any text whose outgoing and incoming end markers all have 20 more characters behind them the loop cannot livelock |
| `SipLogStreams.FirstEndPlanted` | sipXtackLib/siplog2siptrace/main.cpp:302-339 | a marker behind marker-free text is the first one: markers of all kinds cannot overlap each other |
| `SipLogStreams.FieldsOfPrinted` | sipXtackLib/siplog2siptrace/main.cpp:346-360 | cutting a printed record gives back its host, port and message |
| `SipLogStreams.FindMarked` | sipXtackLib/siplog2siptrace/main.cpp:298-367 | a record is found as soon as its end marker is there, whatever follows |
| `SipLogStreams.FindUnmarked` | sipXtackLib/siplog2siptrace/main.cpp:298-311 | before that, in no prefix is anything found |
| `SipLogStreams.FindWhole` | sipXtackLib/siplog2siptrace/main.cpp:341-367 | a complete record is consumed exactly; a parsed one is dropped |
| `SipLogStreams.FindCutShort` | sipXtackLib/siplog2siptrace/main.cpp:364-367 | with a footer cut short the record is found and nothing is removed |
| `SipLogStreams.DrainPrefix` | sipXtackLib/siplog2siptrace/main.cpp:440-473 | draining any prefix of a well-formed log gives the events of the complete records and leaves the open one, or, if the prefix ends in the second half of its footer, the event of that record as well, with the record still in the buffer |
| `SipLogStreams.DrainUndoesPrinting` | sipXtackLib/siplog2siptrace/main.cpp:298-367 | draining a printed log gives one event per delivered record, in order, with its fields unchanged |
| `SipLogStreams.ReadingAWellFormedLog` | sipXtackLib/siplog2siptrace/main.cpp:422-475 | for every way of reading a well-formed log: the program finishes with exactly its events if and only if no read ends in the second half of a delivered record's footer; otherwise, at the first read that does, it is stuck with the events up to and including that record written and that record in the buffer |
| `SipLogStreams.SampleNeverFinishes` | sipXtackLib/siplog2siptrace/main.cpp:422-475 | one record, read at once, is converted; the same record, read in two parts, livelocks |
| `SipLogText.OneRecord` | sipXtackLib/siplog2siptrace/main.cpp:298-369 | a record in literal text, with any gap, host, port and message, in front of any rest: closed by the line of dashes it is delivered as sent, by the line of equal signs as received, and by the line of plus signs it is dropped, each time leaving exactly the rest |
| `SipLogText.WhatIsDelivered` | sipXtackLib/siplog2siptrace/main.cpp:341-361 | conversely, whatever is delivered from any text stands in it behind a header that is not at the front: the host up to the next dashes, seven characters, the port up to the next dashes, one character, the message, and the end marker of its direction |
| `SipLogText.BrokenRecord` | sipXtackLib/siplog2siptrace/main.cpp:346-349 | without dashes behind the header findNextMessage breaks at the host, and so does getMessageData |
| `SipLogText.MarkerBehindPort` | sipXtackLib/siplog2siptrace/main.cpp:352-360 | an end marker of dashes directly behind the port makes the length of the message negative |
| `SipLogText.NoRecord` | sipXtackLib/siplog2siptrace/main.cpp:298-299 | without a header, or with the first one at the very front, neither program finds a record |
| `SipLogReads.FindNextExtends` | sipXtackLib/siplog2siptrace/main.cpp:298-367 | a record that is consumed, well-formed or not, is consumed with the same result when more text follows |
| `SipLogReads.DrainExtends` | sipXtackLib/siplog2siptrace/main.cpp:440-473 | where draining settles, draining the rest with more text completes what draining everything at once does |
| `SipLogReads.DrainEventsGrow` | sipXtackLib/siplog2siptrace/main.cpp:440-473 | whatever the outcome, the events of a text are a prefix of the events of the text with more behind it |
| `SipLogReads.ReadingAnyText` | sipXtackLib/siplog2siptrace/main.cpp:422-475 | for any text and any way of reading it: the program finishes if and only if draining settles on what has arrived after every read; in any case it does what one drain does of all that arrived up to the first read where it does not; and it writes nothing that one drain of the whole would not |
| `SipLogReads.ReadingsAgree` | sipXtackLib/siplog2siptrace/main.cpp:422-475 | two ways of reading the same text have the same result where draining settles after each of their reads |
| `SysLogTrace.GetMessageData` | sipXtackLib/syslog2siptrace/main.cpp:187-224 | the strings appended to are address, address and port, port and message of the record, or an append gets a negative length; `SipLogText.OneEntry` says which text they are |
| `SipLogText.OneEntry` | sipXtackLib/syslog2siptrace/main.cpp:187-224 | a record in literal text, with any gap, host and port: the message is what stands in front of the first end marker of the direction asked for, and all that is left if there is none, be it closed by the other marker, by that of a parsed record or by none |
| `SipLogText.NoMessage` | sipXtackLib/syslog2siptrace/main.cpp:206-224 | content that ends with the dashes behind the port gives the message a negative length |
| `SysLogTrace.ParsersAgreeIff` | sipXtackLib/syslog2siptrace/main.cpp:187-224 | wherever findNextMessage delivers a message, getMessageData extracts the same fields if and only if it is asked for that direction |
| `SysLogTrace.FirstLine` | sipXportLib/src/utl/UtlNameValueTokenizer.cpp:49-75 | a terminator stands at the end of the line and none before it; the next line starts two characters on for CR LF and one otherwise; or there is no terminator at all |
| `SysLogTrace.FindNextLineTerminator` | sipXportLib/src/utl/UtlNameValueTokenizer.cpp:49-75 | the loop finds that first terminator and where the next line starts |
| `SysLogTrace.LinesExtend` | sipXtackLib/syslog2siptrace/main.cpp:499-522 | lines taken from a buffer stand when more text arrives, with one extra empty line when a CR LF is split |
| `SysLogTrace.LinesOfReads` | sipXtackLib/syslog2siptrace/main.cpp:489-523 | for every way of reading, the non-empty lines and the unfinished line are those of the whole text; all lines are, if and only if no read splits a CR LF, and each that does adds one empty line |
| `SysLogTrace.CrLfReadInTwo` | sipXtackLib/syslog2siptrace/main.cpp:489-523 | a CR LF is one line when read at once and two when read in two parts |
| `SysLogTrace.LinesOfText` | sipXtackLib/syslog2siptrace/main.cpp:499-522 | cutting a text into lines undoes putting it together from any lines, each ended by LF, CR or CR LF, and an unfinished one, provided no CR is followed by an empty line that ends in LF |
| `SysLogTrace.CompareIsLexicographic` | sipXportLib/src/utl/UtlString.cpp:1276-1295 | the comparison is negative exactly when the first string precedes lexicographically, and zero exactly on equal strings |
| `SysLogTrace.CompareTransitive` | sipXportLib/src/utl/UtlString.cpp:1276-1295 | the order is transitive |
| `SysLogTrace.WhatMeets` | sipXtackLib/syslog2siptrace/main.cpp:450-467 | a line meets an option if and only if it is at or before, or at or after, a quote and the time given; for a line that opens with a quote this compares the text behind it with the time itself |
| `SysLogTrace.WindowSample` | sipXtackLib/syslog2siptrace/main.cpp:450-467 | a line of 2009 is not before 2008 and is after it |
| `SysLogTrace.ParseLimits` | sipXtackLib/syslog2siptrace/main.cpp:450-473 | after any list of options a line is in the window if and only if it meets every one of them, although one limit of each sort is kept; a line that opens with a quote is in it if and only if what follows is lexicographically at or before every --before time and at or after every --after time |
| `SysLogTrace.TraceConverter.TakeLines` | sipXtackLib/syslog2siptrace/main.cpp:499-522 | every complete line in the window is converted, in order, and the unfinished line stays in the buffer |
| `SysLogTrace.TraceConverter.Convert` | sipXtackLib/syslog2siptrace/main.cpp:489-530 | the lines converted over all reads, with the last line that has no newline |
| `SysLogTrace.ConvertLog` | sipXtackLib/syslog2siptrace/main.cpp:404-537 | however the log is read, the non-empty lines converted are, in order, exactly those lines of it that meet every --before and --after option; of the lines that open with a quote, those whose time is at or before every --before and at or after every --after time |
| `SysLogTrace.ConvertedLines` | sipXtackLib/syslog2siptrace/main.cpp:489-530 | the same for any kept limits that are equivalent to the options |
| `RtpPorts.FirstIdle` | sipXmediaAdapterLib/interface/CpMediaInterfaceFactoryImpl.cpp:112-147 | every candidate before the one chosen is busy, and the one chosen is not |
| `RtpPorts.MediaInterfaceFactory.SetRtpPortRange` | sipXmediaAdapterLib/interface/CpMediaInterfaceFactoryImpl.cpp:74-85 | the counter restarts at the start, clamped at 0, and the lists stay |
| `RtpPorts.MediaInterfaceFactory.GetNextRtpPort` | sipXmediaAdapterLib/interface/CpMediaInterfaceFactoryImpl.cpp:89-154 | the loops return the first idle candidate and leave the lists and the counter accordingly; the busy list holds at most last - start ports, each found busy at its attempt, and with fewer the next attempt found the port returned idle, or the system chooses |
| `RtpPorts.MediaInterfaceFactory.ReleaseRtpPort` | sipXmediaAdapterLib/interface/CpMediaInterfaceFactoryImpl.cpp:182-201 | the port joins the tail of the free list unless it is there or the system chooses ports |
| `RtpRuns.ReleasedTwice` | sipXmediaAdapterLib/interface/CpMediaInterfaceFactoryImpl.cpp:191-201 | releasing a port twice is releasing it once, and a port that is free already changes nothing |
| `RtpPorts.GetConserves` | sipXmediaAdapterLib/interface/CpMediaInterfaceFactoryImpl.cpp:101-154 | busy ports, returned port and free ports afterwards are, in order, the ports on hand before and the fresh ones: none lost, none invented |
| `RtpRuns.WhatGetReturns` | sipXmediaAdapterLib/interface/CpMediaInterfaceFactoryImpl.cpp:101-154 | all of the last - start ports that a call may try differ; the busy list is exactly those found busy; the result is 0 if and only if there are last - start of them (none if the range is empty), and otherwise the first port found idle, after fewer |
| `RtpRuns.LastPortIsFound` | sipXmediaAdapterLib/interface/CpMediaInterfaceFactoryImpl.cpp:87-135 | on the range 1000 to 1004 with 1000 and 1002 busy the result is 1004 |
| `RtpPorts.GetKeepsPartition` | sipXmediaAdapterLib/interface/CpMediaInterfaceFactoryImpl.cpp:101-154 | after a call every port generated is again in exactly one place, and the port returned was not held |
| `RtpPorts.ReleaseKeepsPartition` | sipXmediaAdapterLib/interface/CpMediaInterfaceFactoryImpl.cpp:191-201 | so it is after a release of a held port, which goes to the tail |
| `RtpPorts.RunKeepsPartition` | sipXmediaAdapterLib/interface/CpMediaInterfaceFactoryImpl.cpp:89-216 | at the end of every run start, start + 2, ..., next - 2 are partitioned among free list, busy list and held ports |
| `RtpPorts.PortPairsNeverOverlap` | sipXmediaAdapterLib/interface/CpMediaInterfaceFactoryImpl.cpp:129-134 | in every run the RTP and RTCP ports of different sessions are disjoint, and an even start gives even RTP ports, as section 11 of RFC 3550 asks |
| `RtpPorts.CountPorts` | sipXmediaAdapterLib/interface/CpMediaInterfaceFactoryImpl.cpp:129-134 | the counter is start plus twice the ports on hand and held |
| `RtpRuns.FreshPortShowsTheLoad` | sipXmediaAdapterLib/interface/CpMediaInterfaceFactoryImpl.cpp:87-135 | a fresh port is start plus twice the load, and in the range if and only if that load is at most half the range |
| `RtpRuns.FreshReturnedInRangeIff` | sipXmediaAdapterLib/interface/CpMediaInterfaceFactoryImpl.cpp:87-135 | a fresh port that is returned is in the range if and only if held and busy ports are at most half the range |
| `RtpRuns.NextPortInRangeIff` | sipXmediaAdapterLib/interface/CpMediaInterfaceFactoryImpl.cpp:87-154 | the next call returns a port in the range, whatever is busy, if and only if the ports on hand within its attempts are in the range and, if it can get beyond them, the load it can reach is at most half the range |
| `RtpRuns.RunInRangeIff` | sipXmediaAdapterLib/interface/CpMediaInterfaceFactoryImpl.cpp:87-216 | every port generated in a run, and so every port held, is in the range if and only if each call that draws fresh ports reaches a load of at most half the range |
| `RtpRuns.RangeIsExceeded` | sipXmediaAdapterLib/interface/CpMediaInterfaceFactoryImpl.cpp:87-135 | four calls on the range 1000 to 1004, nothing busy, end at 1006 |
| `RtpRuns.ReusedPortOutOfRange` | sipXmediaAdapterLib/interface/CpMediaInterfaceFactoryImpl.cpp:118-124 | after all four are given back the next call returns 1006 again |
| `RtpRuns.CounterIsBounded` | sipXmediaAdapterLib/interface/CpMediaInterfaceFactoryImpl.cpp:127-134 | in every run the counter stays within start plus twice the peak load plus the range, so small loads cannot overflow an int |
| `RtpRuns.FreeThenBusyThenFresh` | sipXmediaAdapterLib/interface/CpMediaInterfaceFactoryImpl.cpp:103-128 | free ports are offered before ports busy in the last call, and these before fresh ones |
| `RtpRuns.ReturnedPortIsNextIff` | sipXmediaAdapterLib/interface/CpMediaInterfaceFactoryImpl.cpp:195-201 | the call after a release returns the released port if and only if the attempts suffice, all other free ports are busy and it is not |
| `RtpRuns.ReturnedPortPassedOver` | sipXmediaAdapterLib/interface/CpMediaInterfaceFactoryImpl.cpp:195-201 | of two released ports the one released last is passed over |
| `RtpRuns.NoRangeMeansZero` | sipXmediaAdapterLib/interface/CpMediaInterfaceFactoryImpl.cpp:125-135 | without a range every call returns 0 and nothing is ever stored |
| `CodecPaths.Doubled` | sipXmediaAdapterLib/interface/CpMediaInterfaceFactoryImpl.cpp:345-357 | doubling ends above the size asked for, at most at twice it, and at least doubles |
| `CodecPaths.CapacitySuffices` | sipXmediaAdapterLib/interface/CpMediaInterfaceFactoryImpl.cpp:329-364 | the grown capacity covers the size, never wraps, never shrinks, and is at most max(10, twice the size) |
| `CodecPaths.CapacityGrows` | sipXmediaAdapterLib/interface/CpMediaInterfaceFactoryImpl.cpp:340-364 | a vector that is too small grows to the least of its capacity (10 if empty) times a power of two that is above the size asked for; beyond half of SIZE_MAX to exactly that size |
| `CodecPaths.RoomIffSumFits` | sipXmediaAdapterLib/interface/CpMediaInterfaceFactoryImpl.cpp:236-249 | with wrapping addition there is room for the new paths if and only if the sum fits in a size_t |
| `CodecPaths.CodecPathList.EnsureCapacityCodecPaths` | sipXmediaAdapterLib/interface/CpMediaInterfaceFactoryImpl.cpp:329-395 | the contents survive, in an array of the stated capacity, at the cost of one copy per stored path |
| `CodecPaths.CodecPathList.CheckPaths` | sipXmediaAdapterLib/interface/CpMediaInterfaceFactoryImpl.cpp:224-234 | the loop succeeds if and only if no path has one of six characters in front of its first NUL |
| `CodecPaths.WhichPathsAreValid` | sipXmediaAdapterLib/interface/CpMediaInterfaceFactoryImpl.cpp:227-230 | the regular expression refuses exactly asterisk, question mark, quote, angle brackets and bar |
| `CodecPaths.CodecPathList.AddCodecPaths` | sipXmediaAdapterLib/interface/CpMediaInterfaceFactoryImpl.cpp:219-254 | sequence append, all or nothing: nothing if and only if some path has one of the six characters |
| `CodecPaths.CodecPathList.ClearCodecPaths` | sipXmediaAdapterLib/interface/CpMediaInterfaceFactoryImpl.cpp:257-266 | the list is empty and owns no array |
| `CodecPaths.CopiesAreAmortised` | sipXmediaAdapterLib/interface/CpMediaInterfaceFactoryImpl.cpp:219-395 | any sequence of adds ending at or below half of SIZE_MAX copies fewer than two elements per path stored |
| `CodecPaths.SinglesBeyondHalf` | sipXmediaAdapterLib/interface/CpMediaInterfaceFactoryImpl.cpp:358-364 | a full vector beyond half of SIZE_MAX is copied whole for each of any number of single paths, so there is no such bound there |
| `SyslogViewer.Viewer.CheckPosition` | sipXportLib/syslogviewer/main.c:59-104 | a line at the width is broken with newline, tab if tabbed, and four spaces, each behind a buffer test: exactly this text reaches file or buffer, and position becomes 12 or 4 |
| `SyslogViewer.Viewer.ProcessChar` | sipXportLib/syslogviewer/main.c:106-223 | one character moves the transducer one step, and its writes go through the buffer with the tests where the code has them; what the steps amount to is stated on text by the rows of ViewerText, and which writes lack a test by `ViewerBuffer.MissingTests` |
| `SyslogViewer.Viewer.View` | sipXportLib/syslogviewer/main.c:302-315 | state and output after all reads depend only on their concatenation, and everything pending is flushed; `ViewerText.ViewPlain` states the output in default mode |
| `ViewerBuffer.StoresFitIff` | sipXportLib/syslogviewer/main.c:50-54 | a sequence of writes stays in the buffer if and only if no unguarded one falls on a multiple of its size, and then nothing is lost or reordered |
| `ViewerBuffer.MissingTests` | sipXportLib/syslogviewer/main.c:106-223 | in every run exactly two sorts of writes have no test for a full buffer since the write before: the tab that opens a message, and the message character directly behind a break |
| `ViewerBuffer.OutputFaithfulIff` | sipXportLib/syslogviewer/main.c:106-223 | for every configuration, buffer size and input: no overrun if and only if no unguarded write falls on a multiple of the size; then the file gets exactly the transducer's output, and there is room between characters |
| `ViewerBuffer.DefaultModeIsFaithful` | sipXportLib/syslogviewer/main.c:148-222 | in default mode it is always so, for any buffer size |
| `ViewerBuffer.IndentModeOverruns` | sipXportLib/syslogviewer/main.c:131-140 | with --indent or -f, for every buffer size from 5 on, an input that overruns it |
| `ViewerBuffer.SafeIffNoIndent` | sipXportLib/syslogviewer/main.c:106-223 | a configuration is safe on all inputs if and only if it does not indent |
| `ViewerFolding.FoldingOnlyInserts` | sipXportLib/syslogviewer/main.c:59-104 | deleting what check_position inserted gives the output of the same run with folding off, for every input and width |
| `ViewerFolding.FoldedLinesAreNarrow` | sipXportLib/syslogviewer/main.c:56-104 | from width 13 on every message line stays within the width at every character, the opening line within 12 columns more |
| `ViewerFolding.PositionIsColumnIff` | sipXportLib/syslogviewer/main.c:44-48 | in a message, position is the terminal column if and only if the line is neither the opening line nor one begun by a newline behind a backslash; in all but the last case a break is tabbed exactly when the broken line is |
| `ViewerFolding.RaggedLine` | sipXportLib/syslogviewer/main.c:204-217 | a message that begins with a backslash and a newline is at position 2 in column 0 |
| `ViewerFolding.OpeningLineIsWider` | sipXportLib/syslogviewer/main.c:131-139 | at every width some opening line is wider than the width |
| `ViewerFolding.PositionBoundedIff` | sipXportLib/syslogviewer/main.c:288-292 | of the accepted widths exactly those from 13 on bound the position in messages |
| `SysLogEscape.Escape` | sipXportLib/src/os/OsSysLog.cpp:861-933 | the copying loop escapes the text up to its first NUL, or returns the source untouched |
| `SysLogEscape.WhatIsEscaped` | sipXportLib/src/os/OsSysLog.cpp:861-933 | escaping goes character by character: newline, CR, backslash and quote become a backslash and n, r, backslash or quote, all others stay |
| `SysLogEscape.Unescape` | sipXportLib/src/os/OsSysLog.cpp:937-1004 | the copying loop decodes every valid escape, and its last append is one character short |
| `SysLogEscape.WhatUnescapeReturns` | sipXportLib/src/os/OsSysLog.cpp:937-1004 | on any text: unchanged without a known escape in front of the first NUL; otherwise all four sorts are decoded, other escapes stay, what is behind the NUL is lost, and so is the last character unless it came out of an escape |
| `SysLogEscape.DecodeUndoesEscape` | sipXportLib/src/os/OsSysLog.cpp:937-991 | decoding an escaped message gives the message, divided behind its last escaped character |
| `SysLogEscape.UnescapeUndoesEscapeIff` | sipXportLib/src/os/OsSysLog.cpp:937-1004 | what unescape returns of what escape returned is the text if and only if nothing in front of its first NUL is special, or it has no NUL and its last character is; and what it is otherwise |
| `SysLogEscape.EscapeAndUnescape` | sipXportLib/src/os/OsSysLog.cpp:861-1004 | the same of the two methods, one called after the other |
| `SysLogEscape.UnescapeLosesBehindNul` | sipXportLib/src/os/OsSysLog.cpp:868-931 | a newline, a NUL and a newline come back as one newline |
| `SysLogEscape.UnescapeLosesALetter` | sipXportLib/src/os/OsSysLog.cpp:998-1001 | a newline and a letter come back as the newline alone |
| `ViewerRecords.ViewMessage` | sipXportLib/syslogviewer/main.c:148-219 | an escaped message is shown with its newlines, a tab behind each if indenting, and without its carriage returns |
| `ViewerRecords.ViewUndoesEscapeIff` | sipXportLib/syslogviewer/main.c:148-219 | in default mode the viewer gives back a message escaped character by character, as escape does it without a NUL, if and only if it holds no quote and no carriage return |
| `ViewerRecords.RecordShown` | sipXportLib/syslogviewer/main.c:106-223 | a whole log line comes out as its header, and its message behind tabs |
| `ViewerRecords.LogIsLaidOut` | sipXportLib/syslogviewer/main.c:302-315 | with --indent a log of any number of records comes out record by record; with -f too, once the inserted characters are deleted |
| `ViewerText.MessageTextShown` | sipXportLib/syslogviewer/main.c:148-219 | message text, in default mode any text at all, is shown piece by piece: raw quotes and escaped CR vanish, raw newlines stay, an escaped newline is one (and a tab if indenting), an escaped backslash is one, any other escape keeps its backslash |
| `ViewerText.HeaderShown` | sipXportLib/syslogviewer/main.c:110-146 | with --indent a header comes out without its first and last quote, the message on a new line behind a tab, and behind a break as well if and only if the header fills the width exactly, from wherever its line began |
| `ViewerText.MessageEnds` | sipXportLib/syslogviewer/main.c:153-166 | behind a message comes its newline, and the next header begins at position 1, or the next line of default mode at 0 |
| `ViewerText.LogInDefaultMode` | sipXportLib/syslogviewer/main.c:302-315 | in default mode a log of any number of records, with no quote or backslash in time and fields, comes out line by line: time, fields and message without the quotes around them, and a newline |
| `ViewerText.ViewPlain` | sipXportLib/syslogviewer/main.c:302-315 | the whole program in default mode, for any reads and any buffer size: the output on any text is that of its pieces, and on a log its rows |
| `EventLog.EventRing.AddToEventLog` | sipXcallLib/examples/sipXezPhone/sipXmgr.cpp:1466-1483 | date, a space, time, two spaces and text become the newest entry of the history that the ring represents |
| `EventLog.EventRing.GetEventLog` | sipXcallLib/examples/sipXezPhone/sipXmgr.cpp:1486-1501 | the text is the shown entries, each with CR LF |
| `EventLog.RenderAppend` | sipXcallLib/examples/sipXezPhone/sipXmgr.cpp:1493-1497 | every entry is followed by CR LF |
| `EventLog.EventRing.ClearEventLog` | sipXcallLib/examples/sipXezPhone/sipXmgr.cpp:1504-1512 | the history is empty |
| `EventLog.StartIsEnd` | sipXcallLib/examples/sipXezPhone/sipXmgr.cpp:1490-1500 | the two differently bracketed abs and remainder expressions agree at every index |
| `EventLog.RingStep` | sipXcallLib/examples/sipXezPhone/sipXmgr.cpp:1491-1500 | the do-while visits every slot once and stops exactly after 256 steps |
| `EventLog.RingShows` | sipXcallLib/examples/sipXezPhone/sipXmgr.cpp:1486-1501 | once around the ring gives the entries to show, after any number of events |
| `EventLog.ShowsTheWindow` | sipXcallLib/examples/sipXezPhone/sipXmgr.cpp:1486-1501 | exactly the last min(n, 256) events are shown, each once |
| `EventLog.ChronologicalIff` | sipXcallLib/examples/sipXezPhone/sipXmgr.cpp:1490-1500 | they are in chronological order if and only if the ring index is not 0, or nothing was logged, or the entries merely alternate |
| `EventLog.OldestShownLate` | sipXcallLib/examples/sipXezPhone/sipXmgr.cpp:1490-1500 | after 256 events the oldest entry is shown in place 254 instead of 0 |

## Left out

- Reading and writing files, sockets, locks and logging calls. Reads are sequences of strings, the port probe is an arbitrary predicate of attempt and port, the XML writer is the list of its calls.
- Memory allocation failure and the freeing of old arrays.
- A port allocator whose range is set again in the middle of a run, or to which a port that is not held is released: the code makes no promise there. The methods are modelled for every state, the runs start from one setRtpPortRange.
- CodecPaths.CodecPathList.AddCodecPaths: requires that the two counts fit in a size_t together, because both arrays are in memory at once; RoomIffSumFits says what the arithmetic would do otherwise.
- SipLogFramer.Converter.DrainBuffer: returns `Livelock` where the loop of the program would go on forever, since a Dafny method must end.
- ViewerRecords.ViewUndoesEscapeIff: does not cover messages with a NUL, of which `escape` returns only the escaped front, or the whole untouched.
- SipLogStreams.ReadingAWellFormedLog: says nothing about logs with records that are not well-formed; on those the results of SipLogDrain and SipLogReads hold.
- The integer width of indices into log text and of the viewer's position: int is unbounded here.
- The option parsing of the three command line tools, except --before and --after.
- The search for "User Agent failed to send message" in getMessageData, which only changes the label of the method or response code.
- `SipMessage`, `Url` and `OsSysLog::parseLogString`, and the XML that is written from their results.
- The retry loop of createRtpSocketPair, which moves on from the port that getNextRtpPort returned.
- All user interface code, generated files and plain accessors.

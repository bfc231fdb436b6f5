# Verification of oasys core algorithms

A Dafny model of the self-contained algorithms of the oasys systems library, with proofs of
what they promise. One module stands for each source component; code that changes objects and
arrays in place is modelled by classes and methods that do the same, each proved against a
function or a state machine, about which the main results are proved.

| modules | what they model | main results |
|---|---|---|
| `ArgRotation`, `LongOptions`, `Getopt`, `GetoptProperties`, `GetoptReports` | `compat/getopt_long.c` | the gcd-cycle exchange is exact; a whole run, over many calls on the vector permuted in place, is a stable partition; what each call reports, by the option string and the vector |
| `StreamBuffer`, `BufferedIO` | `util/StreamBuffer.cc`, `io/BufferedIO.cc` | reads depend on the stream, not on how it is cut up; no byte is lost |
| `Smtp`, `SmtpLines`, `SmtpReplies`, `SmtpCommands`, `SmtpSystem`, `SmtpSession` | `smtp/SMTP.cc`, `smtp/BasicSMTP.cc` | client and server under every schedule: no failure, no deadlock, no endless run, every message delivered once and in order; what is answered to any command, and when a session fails |
| `PrintfDigits`, `PrintfScan`, `PrintfArgs`, `PrintfFormat`, `PrintfOutput`, `PrintfText`, `PrintfLaws` | `debug/vfprintf.c` | digits and grouping; the two scanners agree; the truncating formatter refines the unbounded one; what a specification prints, by its text |
| `DataStoreProxy`, `DataStoreWorker` | `storage/DataStoreProxy.cc` | the worker protocol in every interleaving with an arbitrary server; message framing |
| `IoVec` | `io/IO.cc` | short transfers deliver scattered buffers exactly |
| `CheckedLog` | `storage/CheckedLog.cc` | recovery of any torn log, detection of damage |
| `MemTable` | `memory/Memory.h` | open addressing refines a map |
| `Serialize`, `MarshalSerialize`, `KeySerialize`, `TextSerialize`, `TextLines` | `serialize/` | round trips, sizes, prefix freedom and order, formats byte by byte, what cannot be read |
| `Util` | | an option type, C strings |

The Smtp modules rest on `BufferedIO`, whose formatted writes, like the worker's message lengths,
rest on the Printf modules: commands and replies are what `log_vsnprintf` makes of their formats.

The library never calls `setlocale`, so formatted writes are in the C locale, without grouping.

Parameters of the model: the checksum of the log and the hash of the allocation table are any
functions; the locale's separator and grouping rules, the environment's POSIXLY_CORRECT, the
signedness of chars, the parser and printer of data-store messages and the results of system
calls are inputs. Bytes are characters. Long integers have 64 bits.

## Where the code does not keep what one might expect

Each of these is stated exactly, by a condition that is met if and only if the code does well.

- A getopt run ends early, before the promised order is reached, if it reaches an argument that
  ends in a '-' which its letters do not take, such as "-a-" (`GetoptProperties.RunEnds`,
  `StopsAtDashEnd`; `StopsShortOnce` is such a run). With long options, or with '-' among the
  options, no vector does that (`NeverStopsShort`).
- Grouping digits fails if the value is above LONG_MAX and the first group has one digit
  (`PrintfDigits.DecimalIsGrouped`).
- The two scanners of a format disagree about %F, about floating conversions with L, and about
  %n with contradictory modifiers (`PrintfScan.ScannersAgree`; `ScannersDiffer` is an instance).
- `vformat_buf` loses the last character of a text that does not fit the free tail, which has to
  hold the NUL too, and its assertion fails if there is no free tail at all, as after failed
  flushes or without a flush limit (`BufferedIO.FormattedExactly`).
- The log reader, with signed chars, cannot read a record whose length has a byte above 127, such
  as any record of 128 to 255 bytes (`CheckedLog.AllReadExactly`).
- Cookies are unique until the counter wraps around; then a request that is still pending can be
  lost (`DataStoreProxy.PopKeepsExactly`; `WaiterIsLost` is such a run). Messages of 10^8 bytes
  or more do not survive their framing (`DataStoreWorker.FrameComesBack`).
- `find` in the allocation table does not wrap around; it stays in the table if and only if some
  slot stops it (`MemTable.ProbeStops`; `ProbeRunsOut` shows it leaving any table).
- `MarshalSize` is too small for strings of more than 2^32 - 5 bytes
  (`MarshalSerialize.SizeIsLength`).
- A text ending with an object without fields is not read back (`TextSerialize.TextRoundTrip`).
- A mail body arrives as `smtp/SMTP.cc` normalizes it: a break that is not CRLF becomes CRLF, and
  an LF behind any break is dropped (`SmtpLines.SplitterIs`, `SmtpLines.UnchangedIffCanonical`).

## Model

| member | source | states |
|---|---|---|
| `ArgRotation.Gcd` | compat/getopt_long.c:165-178 | The loop ends with the greatest common divisor, which is also a combination of the two numbers (Bezout), the fact that closes the cycles |
| `ArgRotation.PosDistinct` | compat/getopt_long.c:200-214 | The slots of one cycle are pairwise different, so no slot is written twice in a cycle |
| `ArgRotation.PosReturns` | compat/getopt_long.c:198-214 | A cycle is back at its start after exactly (opt_end - nonopt_start) / gcd moves |
| `ArgRotation.PosResidue` | compat/getopt_long.c:200-214 | A cycle stays in the residue class of its start modulo the gcd, so different cycles are disjoint |
| `ArgRotation.PosCovers` | compat/getopt_long.c:200-214 | A cycle reaches every slot of its residue class, so the cycles together cover the range |
| `ArgRotation.VisitedIsResidue` | compat/getopt_long.c:200-214 | A finished cycle has visited exactly one residue class |
| `ArgRotation.NextSlotFresh` | compat/getopt_long.c:203-213 | Until its last move, a cycle reaches a slot that neither it nor an earlier cycle has touched |
| `ArgRotation.CycleStep` | compat/getopt_long.c:204-212 | One swap puts one more argument in its final slot and keeps the cycle's invariant |
| `ArgRotation.CycleDone` | compat/getopt_long.c:200-214 | A finished cycle has put exactly one more residue class in final order |
| `ArgRotation.RunCycle` | compat/getopt_long.c:201-213 | The inner loop makes one more residue class final and touches nothing outside the range |
| `ArgRotation.PermuteArgs` | compat/getopt_long.c:185-215 | The two blocks are exchanged exactly, each in its order, and the rest of the vector is unchanged |
| `LongOptions.MatchLong` | compat/getopt_long.c:250-302 | The matching loop finds the first exact name, else the first abbreviation unless a rival of another meaning follows |
| `LongOptions.LookupMeaning` | compat/getopt_long.c:263-302 | An exact name wins; otherwise an option is found exactly if the admissible abbreviations all mean the same option (all are the same entry, for getopt_long_only), none means unknown, rivals mean ambiguous |
| `LongOptions.OrderIndependent` | compat/getopt_long.c:263-302 | With distinct names, the outcome apart from the index does not depend on the order of the table |
| `Getopt.LongOutcome` | compat/getopt_long.c:223-381 | A long option advances behind itself and any argument it takes; only an unknown text that may be a short option is handed back, with nothing changed |
| `Getopt.ShortStep` | compat/getopt_long.c:535-608 | A short option either moves on in its cluster or leaves it and advances; only a lone '-' at the end of a cluster ends the run early |
| `Getopt.OptionStep` | compat/getopt_long.c:507-608 | Every option makes progress, in its cluster or in the vector |
| `Getopt.Next` | compat/getopt_long.c:427-505 | One call, read off the original vector: it reports an option and makes progress, or ends the run |
| `Getopt.ModeIs` | compat/getopt_long.c:395-417 | The run permutes exactly if the caller asks for it, POSIXLY_CORRECT is not set and the options start with neither '+' nor '-'; '-' has non-options reported; only that character is dropped |
| `Getopt.StopsShort` | compat/getopt_long.c:535-545 | A run stops short exactly where a scan over whole arguments says: at the first argument reached that ends in a '-' which no letter of its cluster takes, without long options and with '-' no option |
| `Getopt.TracksExchange` | compat/getopt_long.c:474-478 | The exchange keeps the invariant: the vector is the original one with what was read rearranged into options, skipped non-options, options |
| `Getopt.TracksSkip` | compat/getopt_long.c:470-482 | Skipping a non-option keeps the invariant |
| `Getopt.TracksOption` | compat/getopt_long.c:484-485 | Reading an option with its arguments keeps the invariant |
| `Getopt.TracksDone` | compat/getopt_long.c:430-446 | When no option is behind the skipped non-options, the vector has the order promised for the end of a run |
| `Getopt.OptionStepLocal` | compat/getopt_long.c:507-608 | Reading an option looks at nothing to its left, so rearranging what was read does not change later calls |
| `Getopt.Parser.ParseLongOptions` | compat/getopt_long.c:222-381 | The method, its globals, the caller's index and flag cell behave as `LongOutcome` says |
| `Getopt.Parser.TakeArgument` | compat/getopt_long.c:578-608 | A short option takes the rest of its cluster or the next argument, or reports that it is missing |
| `Getopt.Parser.ParseShort` | compat/getopt_long.c:535-608 | The short option, "-W" included, behaves as `ShortStep` says |
| `Getopt.Parser.ParseOption` | compat/getopt_long.c:507-608 | Long options are tried first where they may be, then short ones, as `OptionStep` says |
| `Getopt.Parser.Finish` | compat/getopt_long.c:430-446 | The end of the vector or "--": options come first, then the skipped non-options, with optind on the first of them |
| `Getopt.Parser.Skip` | compat/getopt_long.c:470-482 | A skipped non-option joins the block of those before it, after moving that block behind the options read since |
| `Getopt.Parser.PassNonOption` | compat/getopt_long.c:448-482 | A non-option is reported, stops the run, or is skipped, depending on the mode |
| `Getopt.Parser.Examine` | compat/getopt_long.c:448-504 | One round of the scanning loop does what the call on the original vector does at that argument |
| `Getopt.Parser.Scan` | compat/getopt_long.c:427-505 | The scanning loop reaches the option, or the end, that the original vector has next |
| `Getopt.Parser.ReportOption` | compat/getopt_long.c:507-608 | Reporting an option in the rearranged vector is reporting it in the original one |
| `Getopt.Parser.GetoptInternal` | compat/getopt_long.c:387-609 | Each of many calls on the vector permuted in place reports what a left-to-right reader of the original vector reports, and leaves the vector and optind in the promised state |
| `Getopt.Parser.ParseAll` | compat/getopt_long.c:387-609 | A run of calls until -1 terminates and sees exactly the options of the original vector in order. If the vector holds no argument to stop short at, it leaves the options with their arguments, then the skipped non-options, then the unread rest, with optind on the first non-option; otherwise it stops at that argument, with what was read rearranged in at most three blocks |
| `GetoptReports.FlagReported` | compat/getopt_long.c:535-581 | A letter that the option string lists without ':' is reported without argument; the next call goes on behind it, in its cluster or in the next argument |
| `GetoptReports.ArgumentReported` | compat/getopt_long.c:581-608 | A letter listed with one ':' is reported with the rest of its cluster, else with the next argument; at the end of the vector it is ':' or '?' with the letter as culprit |
| `GetoptReports.OptionalReported` | compat/getopt_long.c:581-608 | A letter listed with "::" is reported with the rest of its cluster, or without argument; without permutation, with a next argument that does not start with '-' |
| `GetoptReports.UnknownReported` | compat/getopt_long.c:535-554 | A letter that is not listed, a ':' and a '-' inside a cluster are '?' with the letter as culprit |
| `GetoptReports.NonOptionReported` | compat/getopt_long.c:448-462 | With a leading '-' in the options, a non-option is the argument of option 1 |
| `GetoptReports.LongWithValue` | compat/getopt_long.c:303-381 | "--name=v" reports the entry's value (or 0 and what it stores), v and the entry's index; for an entry without argument it is '?' |
| `GetoptReports.LongAlone` | compat/getopt_long.c:303-381 | "--name" reports the entry, with the next argument if one is required; at the end of the vector it is ':' or '?' |
| `GetoptReports.LongUnknown` | compat/getopt_long.c:295-379 | A name that finds nothing, or several options, is '?' |
| `GetoptReports.LongByW` | compat/getopt_long.c:555-580 | "-W name" reports what "--name" does, with the name in the cluster or in the next argument |
| `GetoptProperties.StablePartition` | compat/getopt_long.c:387-609 | What was read is the reported arguments and the skipped ones shuffled together, each kind in original order, and only non-options were skipped |
| `GetoptProperties.RunEnds` | compat/getopt_long.c:427-505 | A run ends at the end of the vector, just behind "--", or at the first non-option if it may not permute, unless the vector makes it stop short, which it then does |
| `GetoptProperties.StopsAtDashEnd` | compat/getopt_long.c:535-545 | A run that stops short does so at an argument that ends in an untaken '-'; on a vector without one no run does; a run that reaches one does |
| `GetoptProperties.NeverStopsShort` | compat/getopt_long.c:535-545 | No vector makes a run stop short exactly if long options were passed or '-' is an option |
| `GetoptProperties.StopsShortOnce` | compat/getopt_long.c:535-545 | "prog x -a- y" with the option "a" is a run that stops at "-a-" and has not ended |
| `StreamBuffer.StreamBuffer.Moveup` | util/StreamBuffer.cc:145-155 | Compacting keeps the contents |
| `StreamBuffer.StreamBuffer.Reserve` | util/StreamBuffer.cc:73-92 | Room is made without changing the contents, and nothing moves if there was room |
| `StreamBuffer.StreamBuffer.Fill` | util/StreamBuffer.cc:94-100 | Bytes behind the contents become contents |
| `StreamBuffer.StreamBuffer.Consume` | util/StreamBuffer.cc:102-112 | Bytes are taken off the front, and an empty buffer starts over |
| `BufferedIO.LineIsShortest` | io/BufferedIO.cc:234-260 | The first line is the shortest prefix that ends in the newline string; there is none exactly if no prefix does |
| `BufferedIO.LineIsStable` | io/BufferedIO.cc:47-72 | Bytes that arrive later do not change the first line |
| `BufferedIO.BufferedInput.InternalRead` | io/BufferedIO.cc:174-232 | A read adds bytes to the buffer without losing any; on an end of file or an error the buffer keeps its contents |
| `BufferedIO.BufferedInput.FindNewline` | io/BufferedIO.cc:234-260 | The loop over memchr finds the first newline string in the buffer, or none |
| `BufferedIO.BufferedInput.ReadLine` | io/BufferedIO.cc:47-72 | However the bytes arrive, the first line of the whole stream is handed out; otherwise no byte is lost |
| `BufferedIO.BufferedInput.ReadBytes` | io/BufferedIO.cc:74-108 | However the bytes arrive, exactly the next bytes are handed out; otherwise no byte is lost |
| `BufferedIO.AnswersArePrefix` | io/BufferedIO.cc:47-108 | The results of any sequence of reads, put together, are a prefix of the stream |
| `BufferedIO.ServeAll` | io/BufferedIO.cc:47-108 | The results of any sequence of line and byte reads depend on the stream alone, not on how it was cut up, and with what is unread they are the whole stream |
| `BufferedIO.FormattedExactly` | io/BufferedIO.cc:299-320 | Whatever the format and its arguments: their text is appended unchanged exactly if it is shorter than the free tail, or ends in a NUL anyway; the assertion fails exactly if there is no free tail or the text is beyond INT_MAX |
| `BufferedIO.BufferedOutput.Flush` | io/BufferedIO.cc:346-383 | Flushing sends everything in order, in any portions, or keeps what is unsent |
| `BufferedIO.BufferedOutput.Write` | io/BufferedIO.cc:275-291 | What was sent and what is buffered together grow by exactly the bytes written |
| `BufferedIO.BufferedOutput.FormatBuf` | io/BufferedIO.cc:299-320 | Two calls of `log_vsnprintf` append the text of the format, or its damaged form if it is too long, or fail the assertion |
| `BufferedIO.BufferedOutput.Printf` | io/BufferedIO.cc:333-344 | The same, and the buffer is flushed |
| `SmtpLines.BodyLineUnstuffs` | smtp/SMTP.cc:259-265 | A stuffed line is never the lone dot, and the server's unstuffing gives back the line |
| `SmtpLines.RunBody` | smtp/SMTP.cc:247-273 | In a body, the server recovers exactly the lines that the client split off, stops at the lone dot, and leaves later bytes unread |
| `SmtpLines.RunAppend` | smtp/SMTP.cc:128-158 | What a server does with bytes it has read completely does not depend on later ones |
| `SmtpLines.NeverAsserts` | smtp/BasicSMTP.cc:119-125 | Whatever bytes any client sends, the handler's assertion holds |
| `SmtpLines.SplitJoined` | smtp/SMTP.cc:89-117 | Splitting a body of lines that each end in CRLF gives those lines |
| `SmtpLines.SplitterIs` | smtp/SMTP.cc:89-117 | For any mix of CR and LF, the splitter's lines are the only ones that, with breaks CR, LF, CR LF or LF LF behind them, make up the body, where a one-character break is not followed by an LF and the last break may be missing behind a line that is not empty |
| `SmtpLines.NormalTwice` | smtp/SMTP.cc:89-117 | The body that arrives is canonical and would arrive unchanged |
| `SmtpLines.UnchangedIffCanonical` | smtp/SMTP.cc:89-117 | The body that arrives is the body that was sent exactly if it consists of lines that each end in CRLF and hold no other CR or LF |
| `SmtpLines.BodyLinesClean` | smtp/SMTP.cc:89-117 | The lines split off any body hold no line break |
| `SmtpReplies.CheckReplyMeaning` | smtp/SMTP.cc:303-343 | A response is 0 exactly if its first three characters are a number whose value is the expected code, 503 exactly if they are another number, 501 if they are none, 500 if there are fewer |
| `SmtpReplies.TalkMeaning` | smtp/SMTP.cc:48-125 | A client goes on while the lines carry the awaited codes, and has said what comes before the first one that does not |
| `SmtpReplies.TalkSucceeds` | smtp/SMTP.cc:48-125 | 0 is returned exactly if every awaited line comes and carries its code |
| `SmtpReplies.TalkStops` | smtp/SMTP.cc:48-125 | After the first line with another code, nothing more is said |
| `SmtpReplies.ScriptAwaits` | smtp/SMTP.cc:48-125 | A session waits for 220 and 250 at its start, for 250 after MAIL and each RCPT, for 354 after DATA and for 250 after the body |
| `SmtpReplies.RefusedRecipient` | smtp/SMTP.cc:72-76 | A refused recipient ends the session with an error, when exactly the commands up to that RCPT have been said |
| `SmtpCommands.HeloAnswered` | smtp/SMTP.cc:196-216 | HELO, in any case, is 250 exactly with an argument behind a blank, else 501 |
| `SmtpCommands.MailAnswered` | smtp/SMTP.cc:217-226 | MAIL FROM: sets the sender to what stands behind the blanks; without that it is 501 |
| `SmtpCommands.RcptAnswered` | smtp/SMTP.cc:227-236 | RCPT TO: adds what stands behind the blanks; without that it is 501 |
| `SmtpCommands.MalformedAnswered` | smtp/SMTP.cc:217-236 | MAIL without FROM: and RCPT without TO: are 501 |
| `SmtpCommands.PlainAnswered` | smtp/SMTP.cc:237-297 | RSET is 250, NOOP 220, QUIT 221, DATA 354, seven other commands 502, whatever stands behind them; only QUIT and DATA change anything |
| `SmtpCommands.OtherAnswered` | smtp/SMTP.cc:184-299 | Any other line is 500 |
| `SmtpCommands.BodyAnswered` | smtp/SMTP.cc:247-273 | In a message, the lone dot ends it, and it is delivered exactly if it has a sender, a recipient and a body; any other line is added without its leading dot |
| `SmtpSystem.ReplyIsOneLine` | smtp/SMTP.cc:345-384 | Every reply of the server is one line with a code that the client recognizes |
| `SmtpSystem.BodyMatches` | smtp/SMTP.cc:78-122 | DATA, the stuffed body and the lone dot get exactly the replies that the client waits for |
| `SmtpSystem.RcptMatches` | smtp/SMTP.cc:72-76 | Each RCPT command is accepted and adds one recipient, in order |
| `SmtpSystem.ScriptsMatch` | smtp/SMTP.cc:48-125 | For any sequence of messages, each wait of the client is answered by exactly the expected reply, and the server ends up with the messages |
| `SmtpSystem.StepKeeps` | smtp/SMTP.cc:48-300 | Every step of client, server or network keeps the invariant that the bytes on the way fit what both sides still have to do |
| `SmtpSystem.EveryRunIsSafe` | smtp/SMTP.cc:48-300 | Under every schedule and every cutting up of the bytes, no client session fails, the handler's assertion holds, and what was received is a prefix of what was sent |
| `SmtpSystem.SomeoneCanMove` | smtp/SMTP.cc:48-300 | The two sides never wait for each other |
| `SmtpSystem.StepsDecrease` | smtp/SMTP.cc:48-300 | Each step decreases a measure |
| `SmtpSystem.NoEndlessRun` | smtp/SMTP.cc:48-300 | There is no endless run |
| `SmtpSystem.DoneMeansDelivered` | smtp/BasicSMTP.cc:82-147 | When everything is over, every message with a recipient was received once, in order, and every session returned 0 |
| `SmtpSystem.EndToEnd` | smtp/SMTP.cc:48-300 | Every run from the start either has delivered everything or can go on |
| `SmtpSystem.ArrivesUnchanged` | smtp/BasicSMTP.cc:119-147 | A message arrives as it was sent exactly if it has a recipient and its body consists of CRLF-terminated lines |
| `SmtpSystem.SessionsAgree` | smtp/SMTP.cc:48-300 | The client's and the server's whole sessions, fed with each other's output, fit together |
| `SmtpSystem.ConnectionAgrees` | smtp/SMTP.cc:48-158 | One connection as a whole delivers every message that has a recipient, and each client session returns 0 |
| `SmtpSession.Handler.Mail` | smtp/BasicSMTP.cc:81-91 | A non-empty sender replaces the sender |
| `SmtpSession.Handler.Rcpt` | smtp/BasicSMTP.cc:93-103 | A non-empty recipient is added |
| `SmtpSession.Handler.DataBegin` | smtp/BasicSMTP.cc:119-125 | The assertion that no body is left over, as a demand on callers, all of whom meet it |
| `SmtpSession.Handler.DataLine` | smtp/BasicSMTP.cc:127-135 | A line and CRLF are added to the body |
| `SmtpSession.Handler.DataEnd` | smtp/BasicSMTP.cc:137-147 | A message with sender, recipient and body is delivered; the current message is cleared either way |
| `SmtpSession.ReadBodyRuns` | smtp/SMTP.cc:247-273 | The body loop does what the byte-level server does up to the end mark, or up to the end of the input |
| `SmtpSession.Session.SendResponse` | smtp/SMTP.cc:345-352 | "%d " and the text's format are written as one reply, whether or not flushing succeeds |
| `SmtpSession.Session.ProcessResponse` | smtp/SMTP.cc:303-343 | One line is read and its code compared; an end of input counts as 221; a failing read is -1 and loses nothing |
| `SmtpSession.Session.ReadMessage` | smtp/SMTP.cc:247-273 | The loop hands the unstuffed lines to the handler up to the lone dot, the end of the input or a failing read |
| `SmtpSession.Session.Dispatch` | smtp/SMTP.cc:192-300 | Every command other than DATA gets its reply and its effect on the handler |
| `SmtpSession.Session.ProcessCmd` | smtp/SMTP.cc:168-300 | One command, with its body if it is DATA, is one round of the byte-level server |
| `SmtpSession.Session.ServerSession` | smtp/SMTP.cc:128-158 | Whatever bytes arrive in whatever portions, the session writes and delivers what the byte-level server does, until QUIT or the end of input; a failing read ends it on the way; the handler's assertion holds |
| `SmtpSession.Session.SendLine` | smtp/SMTP.cc:96-103 | A line is written in up to three pieces, stuffed and ended by CRLF |
| `SmtpSession.Session.SendBody` | smtp/SMTP.cc:83-120 | The splitting loop terminates and writes each line stuffed, the lone dot at the end, and flushes |
| `SmtpSession.Session.SendRecipients` | smtp/SMTP.cc:72-76 | One RCPT command for each recipient, each waiting for its answer |
| `SmtpSession.Session.ClientSession` | smtp/SMTP.cc:48-125 | A session writes what the client's script says, reads only its answers, and returns 0 or the first failure; after a failing read it has done a first part of the script |
| `SmtpSession.AnsweredMeans` | smtp/SMTP.cc:303-343 | What `ProcessResponse` does, by the next line of the input and its code |
| `SmtpSession.ConcludedMeans` | smtp/SMTP.cc:48-125 | What `ClientSession` does: 0 exactly if every awaited line carries its code; otherwise nothing behind the first that does not has been written |
| `PrintfDigits.Fits` | debug/vfprintf.c:488-495 | No 64-bit value has more digits than the buffer can hold |
| `PrintfDigits.GroupedFits` | debug/vfprintf.c:488-495 | Grouping at most doubles the length |
| `PrintfDigits.GroupedMeaning` | debug/vfprintf.c:283-294 | Separators fall exactly at the cumulative group sizes, and never in front of all digits |
| `PrintfDigits.StripGrouped` | debug/vfprintf.c:276-296 | Removing the separators gives back the plain numeral |
| `PrintfDigits.DigitsValue` | debug/vfprintf.c:257-318 | A numeral denotes its number and has no needless leading zero |
| `PrintfDigits.DecimalIsGrouped` | debug/vfprintf.c:270-296 | Grouping comes out right exactly unless the value is above the signed maximum and the first group has one digit |
| `PrintfDigits.ConvertDecimal` | debug/vfprintf.c:258-297 | The backward loop with its counting of groups and its one unsigned division writes the numeral within the buffer |
| `PrintfDigits.ConvertBinary` | debug/vfprintf.c:299-313 | Shifting out digits writes the octal or hexadecimal numeral |
| `PrintfDigits.Ultoa` | debug/vfprintf.c:245-319 | The conversion writes the numeral of any unsigned long at the end of the buffer, in every base |
| `PrintfDigits.Ujtoa` | debug/vfprintf.c:321-391 | The same for uintmax_t, through the conversion above where the value fits |
| `PrintfScan.TypesAgree` | debug/vfprintf.c:671-699 | A conversion is fetched from the slot it was recorded in exactly unless it is %F, a floating conversion with L, or %n with contradictory modifiers |
| `PrintfScan.FetchesAtLeast` | debug/vfprintf.c:773-1310 | The formatting loop never uses fewer arguments than the other scanner records |
| `PrintfScan.ScannersAgree` | debug/vfprintf.c:1472-1696 | Over every format, with `*`, `.*` and `n$`, the two scanners use the same arguments in the same slots exactly if no such conversion is met |
| `PrintfScan.ScannersDiffer` | debug/vfprintf.c:1472-1696 | For "%F %d" they differ: two arguments are used, the second as an int, and one is recorded |
| `PrintfArgs.TypeTable.Grow` | debug/vfprintf.c:1800-1824 | Growing keeps the recorded types and adds unused ones |
| `PrintfArgs.TypeTable.Add` | debug/vfprintf.c:1490-1494 | The table, of any size, holds the last type recorded for each index and the greatest index |
| `PrintfArgs.TypeTable.AddAster` | debug/vfprintf.c:1513-1528 | A '*' records an int at the next or at the given index, and leaves the next index as the formatting loop does |
| `PrintfArgs.TypeTable.AddSpecification` | debug/vfprintf.c:1547-1695 | One conversion specification is scanned and recorded in step with the format language |
| `PrintfArgs.FindArguments` | debug/vfprintf.c:1472-1795 | The argument table holds each argument at its number, up to the greatest number the format uses |
| `PrintfArgs.BuildTable` | debug/vfprintf.c:1698-1791 | Reading the arguments in order at their recorded types puts argument n at index n, and 0 at index 0 |
| `PrintfArgs.PassedIsRecorded` | debug/vfprintf.c:1472-1795 | What C demands of the caller's argument types is enough for the table to be built correctly |
| `PrintfArgs.Source.Get` | debug/vfprintf.c:666-673 | GETARG gives the argument with the wanted number, whether arguments come in order or from the table |
| `PrintfArgs.Source.GetAster` | debug/vfprintf.c:701-724 | GETASTER gives the argument with the next or the given number, and keeps the next number in the second case |
| `PrintfArgs.Source.Position` | debug/vfprintf.c:858-866 | A position builds the table if there is none and moves to its number |
| `PrintfFormat.FieldLength` | debug/vfprintf.c:1326-1413 | Every field has exactly max(width, real size) characters, for every combination of sign, prefix, zero padding, precision and adjustment |
| `PrintfFormat.FieldReadsBack` | debug/vfprintf.c:925-944 | A decimal field, however padded and signed, reads back as the argument wrapped to its type |
| `PrintfFormat.NaturalText` | debug/vfprintf.c:1245-1299 | Octal and hexadecimal text denotes the wrapped argument; "#" gives its leading 0 or 0x exactly when the number is not 0; only zero with precision zero is empty (not with "#o") |
| `PrintfFormat.PrintedMeaning` | debug/vfprintf.c:1332-1336 | All the pieces are printed and their total length returned, unless it is beyond INT_MAX; then a part and -1 |
| `PrintfOutput.Buffer.Print` | debug/vfprintf.c:631-636 | PRINT stores what there is room for and keeps the buffer a prefix of everything printed |
| `PrintfOutput.Buffer.Pad` | debug/vfprintf.c:639-647 | PAD in chunks of 16 prints the padding exactly |
| `PrintfOutput.Buffer.Emit` | debug/vfprintf.c:1326-1413 | The layout code prints the field: blanks or sign, prefix and zeros, precision zeros, text, blanks |
| `PrintfOutput.SupportedUndisputed` | debug/vfprintf.c:796-1310 | No format of the conversions covered makes the scanners disagree |
| `PrintfOutput.NumberChars` | debug/vfprintf.c:1269-1299 | The digits, or none for zero with precision zero |
| `PrintfOutput.ConvertNext` | debug/vfprintf.c:900-1309 | The switch fetches the right argument at the right type and converts it |
| `PrintfOutput.ScanSpec` | debug/vfprintf.c:795-899 | Scanning one specification of the format yields its flags, width, precision and modifiers, and its arguments |
| `PrintfOutput.Vsnprintf` | debug/vfprintf.c:522-1446 | For every buffer size of at least 1, the buffer holds the first min(full length, size - 1) characters of the untruncated output and a NUL, nothing behind the size is touched, and the result does not depend on the size; for size 0 it is -1 |
| `PrintfText.PrintsLiteral` | debug/vfprintf.c:773-785 | A text without conversions prints itself, whatever is passed |
| `PrintfText.PrintsString` | debug/vfprintf.c:1196-1234 | "%s" prints a string up to its first NUL, between the texts around it |
| `PrintfText.PrintsNumber` | debug/vfprintf.c:925-944 | "%d" prints the decimal digits of an int |
| `PrintfLaws.SpecPrints` | debug/vfprintf.c:795-899 | A specification with any position, flags, width, precision and length, width and precision possibly taken from arguments, prints the argument as its text says: '-' puts blanks behind, '0' zeros in front, a precision cuts "%s" and sets the least number of digits, '+' and ' ' show the sign, '#' the base, "'" groups; a length decides the range |
| `PrintfLaws.FieldMeans` | debug/vfprintf.c:900-1413 | The same for one converted argument |
| `PrintfLaws.LaidLength` | debug/vfprintf.c:1326-1413 | Such a field is as long as its width or its contents, whichever is more |
| `PrintfLaws.FlagsMean` | debug/vfprintf.c:796-850 | Flags count in any order and number; '+' overrides ' ' |
| `PrintfLaws.ModsMean` | debug/vfprintf.c:871-900 | Length modifiers count in any order and number |
| `PrintfLaws.ArgumentTypes` | debug/vfprintf.c:679-699 | The types at which signed conversions fetch their arguments, by length |
| `PrintfLaws.UnsignedTypes` | debug/vfprintf.c:679-699 | The same for unsigned ones, characters and strings |
| `PrintfLaws.NegativePrec` | debug/vfprintf.c:832-842 | A negative precision is none |
| `PrintfLaws.PointParsed` | debug/vfprintf.c:832-842 | A point without digits is a precision of 0 |
| `PrintfLaws.CapitalsMean` | debug/vfprintf.c:900-1245 | %D, %O and %U are %ld, %lo and %lu |
| `PrintfLaws.PercentPrints` | debug/vfprintf.c:1301-1309 | "%%" prints a '%' and uses no argument |
| `DataStoreProxy.CookieInjective` | storage/DataStoreProxy.cc:406-411 | Different counts give different cookies |
| `DataStoreProxy.FreshCookie` | storage/DataStoreProxy.cc:358-360 | Before the counter wraps around, the next cookie is not in use |
| `DataStoreProxy.FirstInFirstOut` | storage/DataStoreProxy.cc:350-360 | Under every schedule, requests are popped in the order in which they were queued |
| `DataStoreProxy.PopKeepsExactly` | storage/DataStoreProxy.cc:352-360 | Popping keeps every popped request pending or answered exactly if the next cookie is not pending, which holds until 2^64 requests were popped |
| `DataStoreProxy.WaiterIsLost` | storage/DataStoreProxy.cc:352-360 | There is a run, of 2^64 + 1 requests, in which a request that waits is lost: neither pending nor answered |
| `DataStoreProxy.StepKeeps` | storage/DataStoreProxy.cc:290-402 | Every step of clients, worker and server keeps the invariant, up to the wrap-around |
| `DataStoreProxy.EveryRunIsSafe` | storage/DataStoreProxy.cc:290-402 | In every interleaving with a server that may reorder, repeat or invent replies: cookies are distinct, a request is answered at most once and only by a reply sent with its cookie, a popped request is pending or answered, and the worker leaves with nothing pending |
| `DataStoreProxy.NoUseAfterReturn` | storage/DataStoreProxy.cc:384-388 | The worker never touches a request whose client has returned from `execute` |
| `DataStoreProxy.NothingAfterDone` | storage/DataStoreProxy.cc:315-320 | Once the worker has left its loop, nothing more is popped or answered, so what is still queued never is |
| `DataStoreProxy.CanFinish` | storage/DataStoreProxy.cc:315-333 | A worker told to stop can always leave its loop, with every popped request answered, if the server answers |
| `DataStoreWorker.HeaderPrints` | storage/DataStoreProxy.cc:221-223 | `log_vsnprintf` makes of "%08zu" the decimal digits of the length, with zeros in front up to eight characters |
| `DataStoreWorker.HeaderIs` | storage/DataStoreProxy.cc:221-223 | The header has eight characters, or as many as the number has digits, and reads back |
| `DataStoreWorker.FrameComesBack` | storage/DataStoreProxy.cc:210-262 | A message comes back, and what follows is untouched, exactly if it is shorter than 10^8 bytes |
| `DataStoreWorker.FramesComeBack` | storage/DataStoreProxy.cc:210-262 | A stream of such messages is read message by message, to its end |
| `DataStoreWorker.ReplyRead` | storage/DataStoreProxy.cc:236-287 | A message on the connection is the reply that it parses to, and what follows it is untouched |
| `DataStoreWorker.TornReply` | storage/DataStoreProxy.cc:236-262 | A message that is cut off is no reply |
| `DataStoreWorker.Worker.SentIsRead` | storage/DataStoreProxy.cc:358-368 | What goes out for a request is one message that reads back as the request with its cookie |
| `DataStoreWorker.Worker.Delivered` | storage/DataStoreProxy.cc:375-388 | The request whose cookie a reply carries holds that reply, has one wake-up, and is no longer pending |
| `DataStoreWorker.Worker.GenCookie` | storage/DataStoreProxy.cc:406-411 | The counter goes up by one, in 64 bits, and is printed into the cookie |
| `DataStoreWorker.Worker.PrintLength` | util/StringBuffer.cc:151-180 | The length is printed by `log_vsnprintf` into the string buffer |
| `DataStoreWorker.Worker.Send` | storage/DataStoreProxy.cc:210-232 | A request is written as one frame |
| `DataStoreWorker.Worker.Recv` | storage/DataStoreProxy.cc:236-287 | On an input that begins with a message, the result is what the message parses to, and the rest is left; a short read gives no reply |
| `DataStoreWorker.Worker.PushBack` | storage/DataStoreProxy.cc:889-893 | A client's request is queued: a step of the system |
| `DataStoreWorker.Worker.Pop` | storage/DataStoreProxy.cc:350-368 | Popping, noting and sending a request is the step of the system, and sends one frame with the request's new cookie |
| `DataStoreWorker.Worker.Deliver` | storage/DataStoreProxy.cc:382-388 | Storing the reply, waking the client and dropping the request are the three steps of the system |
| `DataStoreWorker.Worker.Hear` | storage/DataStoreProxy.cc:372-396 | One reply is read and given to the request that has its cookie, or dropped |
| `DataStoreWorker.Worker.Wait` | storage/DataStoreProxy.cc:315-346 | The two tests of the flag, and the handling of a failed poll |
| `DataStoreWorker.WaitIs` | storage/DataStoreProxy.cc:315-346 | The head of the loop leaves it exactly if nothing is pending and someone has asked for it; a failed poll asks for it |
| `DataStoreWorker.Worker.RunOnce` | storage/DataStoreProxy.cc:315-397 | One pass of the loop reaches the state that its steps lead to, and says whether to leave; when the socket has fired, the next message reaches the pending request with its cookie: it holds the reply, has one wake-up, and is no longer pending |
| `DataStoreWorker.PassIsRun` | storage/DataStoreProxy.cc:315-397 | A pass is a run of the system, so what holds of every run holds of the worker object |
| `IoVec.SumIsLength` | io/IO.cc:55-57 | bytes_left is the number of bytes of the vector |
| `IoVec.COWIoVec.Copy` | io/IO.cc:108-122 | The copy stands for the same bytes |
| `IoVec.COWIoVec.Skip` | io/IO.cc:84-100 | The consuming loop takes exactly the first bytes away, through whole pieces, empty ones and part of one |
| `IoVec.COWIoVec.Consume` | io/IO.cc:70-106 | What is left is what was left without its first bytes, bytes_left is its length, and the caller's vector is unchanged |
| `IoVec.AllOrError` | io/IO.cc:966-1017 | The total is returned exactly if everything was moved; otherwise the result is 0 or an error code |
| `IoVec.ShortTransfersComplete` | io/IO.cc:986-1016 | If the system moves enough bytes in all, in any portions and with any interruptions, everything is moved |
| `IoVec.FirstResult` | io/IO.cc:844-963 | `rwdata` returns the result of the first round that is neither interrupted nor, in rwvall, not ready |
| `IoVec.FirstStop` | io/IO.cc:986-1016 | `rwvall` ends at the first round that does not go on, with that round's result: 0, timeout, notification or error |
| `IoVec.Device.RwData` | io/IO.cc:844-963 | The retry loop returns the first result that is not an interruption (or, in rwvall, a descriptor that is not ready) |
| `IoVec.Device.RwvAll` | io/IO.cc:966-1017 | The bytes moved are a prefix of the concatenation of the caller's pieces in order, all of it on success, and the caller's vector is not modified |
| `CheckedLog.Bytes4RoundTrip` | storage/CheckedLog.cc:27-40 | Four bytes give back the number they were made from |
| `CheckedLog.SignedCombine` | storage/CheckedLog.cc:98-99 | With signed chars, a number comes out right exactly if none of its bytes is above 127; otherwise it is negative |
| `CheckedLog.LengthRoundTrip` | storage/CheckedLog.cc:98-104 | A length is read correctly exactly if it is readable, for signed and for unsigned chars; otherwise it is negative |
| `CheckedLog.ReadWhole` | storage/CheckedLog.cc:63-125 | A record that is there in full is returned with its contents and its mark |
| `CheckedLog.ReadTorn` | storage/CheckedLog.cc:77-114 | A record that is cut off anywhere is reported as damaged |
| `CheckedLog.PrefixReads` | storage/CheckedLog.cc:62-125 | For any prefix of a log, exactly the records wholly inside are read, in order, then END on a boundary and BAD_CRC otherwise |
| `CheckedLog.AllReadExactly` | storage/CheckedLog.cc:62-125 | A whole log is read back exactly if all its lengths are readable |
| `CheckedLog.ShortLengthUnreadable` | storage/CheckedLog.cc:98-99 | With signed chars, records of 128 and of 255 bytes are not readable; of 127 and of 256 they are |
| `CheckedLog.BytesAre` | storage/CheckedLog.cc:27-40 | A number is written in the only four bytes that have its value with the first one counting most |
| `CheckedLog.EncodedBytes` | storage/CheckedLog.cc:21-46 | The bytes of a record: mark, checksum of length and contents, length, contents |
| `CheckedLog.ReadExactly` | storage/CheckedLog.cc:62-125 | A record is handed out exactly if it lies there with the checksum of its length bytes and contents; it is ignored exactly if its mark is '!' |
| `CheckedLog.OverwrittenDetected` | storage/CheckedLog.cc:114-123 | A record whose contents were replaced by others with another checksum is reported as damaged |
| `CheckedLog.CheckedLogWriter.WriteRecord` | storage/CheckedLog.cc:21-46 | Exactly one record is added at the end: '*', checksum, length and contents, byte by byte |
| `CheckedLog.CheckedLogReader.ReadRecord` | storage/CheckedLog.cc:62-125 | The method with its short reads returns what is defined at its offset and moves the offset as defined; it hands out a record only if the checksum of the length bytes and the contents handed out is there, and does if it is; behind a torn header it reports damage from then on |
| `MemTable.ProbeStops` | memory/Memory.h:156-172 | Probing stays in the table exactly if a free or matching slot is at or behind the key, and then finds the first |
| `MemTable.ProbeRunsOut` | memory/Memory.h:156-172 | It leaves a table of any size when two callers have its last slot as their key: after one allocation for the one, the other is not found |
| `MemTable.ProbeFinds` | memory/Memory.h:156-172 | In a reachable table, probing for frames that are in it finds their slot |
| `MemTable.ViewHolds` | memory/Memory.h:107-112 | The map that the table stands for holds exactly the used slots |
| `MemTable.Allocated` | memory/Memory.h:177-196 | An allocation keeps the table reachable and counted, and adds one block and its bytes modulo 2^32 to the map |
| `MemTable.Freed` | memory/Memory.h:201-219 | Freeing a block in use finds its slot, whose count is positive, and takes one block and its bytes off the map |
| `MemTable.DbgMemInfo.Find` | memory/Memory.h:156-172 | The loop finds the slot where probing stops |
| `MemTable.DbgMemInfo.Inc` | memory/Memory.h:177-196 | The map changes at the given frames only, by one block and its size |
| `MemTable.DbgMemInfo.Dec` | memory/Memory.h:201-219 | The map changes at the block's frames only, and neither PANIC is reached |
| `MarshalSerialize.BytesRoundTrip` | serialize/MarshalSerialize.cc:68-112 | Big-endian bytes give back the number |
| `MarshalSerialize.ByteAt` | serialize/MarshalSerialize.cc:68-112 | Each byte of a number, the first one counting most |
| `MarshalSerialize.Example` | serialize/MarshalSerialize.cc:67-203 | The bytes of an object with a number, a boolean, an object and a string |
| `MarshalSerialize.AnyInputRead` | serialize/MarshalSerialize.cc:246-330 | Any four bytes are a number, and any byte but 0 is true |
| `MarshalSerialize.ShortInput` | serialize/BufferedSerializeAction.cc:82-104 | Input is an error for a field of fixed length exactly if it is too short |
| `MarshalSerialize.SizeIsLength` | serialize/MarshalSerialize.cc:421-487 | The measured size of a field is the number of bytes written, exactly unless a string's size does not fit 32 bits |
| `MarshalSerialize.SizeIsLengthAll` | serialize/MarshalSerialize.cc:421-487 | The same for whole objects |
| `MarshalSerialize.RoundTrip` | serialize/MarshalSerialize.cc:246-405 | Reading a field gives back what was written, whatever follows, and stops right behind it |
| `MarshalSerialize.RoundTripAll` | serialize/MarshalSerialize.cc:246-405 | The same for every object tree |
| `MarshalSerialize.StrictPrefixFails` | serialize/BufferedSerializeAction.cc:82-104 | No part of an encoding short of all of it can be read |
| `MarshalSerialize.EmitMeaning` | serialize/BufferedSerializeAction.cc:82-104 | Into a fixed buffer, exactly the slices before the first that does not fit are written, and it is an error if there is one |
| `MarshalSerialize.EmitAll` | serialize/BufferedSerializeAction.cc:82-104 | Everything is written exactly if there is room for all |
| `MarshalSerialize.MeasuredBuffer` | serialize/MarshalSerialize.cc:410-505 | A buffer of the measured size is enough and its contents unmarshal to the object; in any smaller one marshalling fails |
| `MarshalSerialize.Marshal.NextSlice` | serialize/BufferedSerializeAction.cc:76-104 | The cursor moves by the length if it fits; otherwise, or after an earlier error, the error flag is set and nothing moves |
| `MarshalSerialize.Marshal.Put` | serialize/MarshalSerialize.cc:68-152 | A slice is filled with its bytes |
| `MarshalSerialize.Marshal.Process` | serialize/MarshalSerialize.cc:67-203 | The process functions write the slices of the field, and stop at the first that does not fit |
| `MarshalSerialize.Marshal.Action` | serialize/Serialize.cc:43-57 | -1 exactly if the buffer was too small |
| `MarshalSerialize.MarshalSize.Process` | serialize/MarshalSerialize.cc:421-487 | The size accumulates field by field |
| `MarshalSerialize.Unmarshal.NextSlice` | serialize/BufferedSerializeAction.cc:76-104 | The next bytes if there are enough; otherwise the sticky error |
| `MarshalSerialize.Unmarshal.Process` | serialize/MarshalSerialize.cc:246-405 | A field gets what is decoded, and the input too short for it is an error |
| `MarshalSerialize.Unmarshal.Action` | serialize/Serialize.cc:43-57 | 0 with the object restored, or -1 |
| `MarshalSerialize.StreamIsMarshal` | serialize/StreamSerialize.cc:40-215 | A stream gets the same bytes as the buffer, or a prefix of them if a write fails |
| `MarshalSerialize.StreamSerialize.Process` | serialize/StreamSerialize.cc:40-215 | The process functions write the slices up to the first write that fails |
| `MarshalSerialize.StreamUnserialize.Process` | serialize/StreamSerialize.cc:238-425 | The process functions read what Unmarshal reads |
| `KeySerialize.HexRoundTrip` | serialize/KeySerialize.cc:410-435 | strtoul gives back the number from its zero-padded digits |
| `KeySerialize.HexMeans` | serialize/KeySerialize.cc:410-435 | strtoul in base 16 as a 32-bit value: digits of either case, blanks and a sign in front, up to anything else |
| `KeySerialize.Example` | serialize/KeySerialize.cc:44-217 | The key of an object with a number, a boolean, an object and a string, with a border |
| `KeySerialize.CutFieldFails` | serialize/KeySerialize.cc:242-435 | A key that ends inside a field is an error, or, inside a string, a read beyond the end |
| `KeySerialize.FlagRead` | serialize/KeySerialize.cc:279-291 | Only '1' is true |
| `KeySerialize.RoundTrip` | serialize/KeySerialize.cc:230-314 | A field's key, with or without a border, is read back wherever it stands |
| `KeySerialize.RoundTripAll` | serialize/KeySerialize.cc:230-435 | The same for every schema of 8, 16 and 32-bit integers, booleans, bytes, strings and objects |
| `KeySerialize.PrefixFree` | serialize/KeySerialize.cc:44-169 | Keys of one schema are prefix free |
| `KeySerialize.CompareHex` | serialize/KeySerialize.cc:180-190 | Zero-padded hexadecimal text sorts like the numbers |
| `KeySerialize.OrderPreserved` | serialize/KeySerialize.cc:44-97 | A field of fixed width sorts like its value |
| `KeySerialize.OrderPreservedAll` | serialize/KeySerialize.cc:44-97 | Keys of fixed width sort like the tuples of their fields |
| `KeySerialize.KeyMarshal.Process` | serialize/KeySerialize.cc:44-217 | The process functions append the key of the field and its border |
| `KeySerialize.KeyUnmarshal.Process` | serialize/KeySerialize.cc:242-435 | The process functions read the field, report an error, or run over the end, as defined |
| `TextSerialize.NumberBack` | serialize/TextSerialize.cc:408-428 | strtoull with base 0 reads a written numeral as its number, up to the line end |
| `TextSerialize.HeadBack` | serialize/TextSerialize.cc:353-406 | A written line is found by its name, and its text begins behind the colon and the blank |
| `TextSerialize.FieldRoundTrip` | serialize/TextSerialize.cc:318-343 | A field is read back, except an object at the very end of the text whose lines end there |
| `TextSerialize.RoundTrip` | serialize/TextSerialize.cc:134-229 | Fields are read back, up to their end, exactly unless the text ends with an object without fields |
| `TextSerialize.SkipComment` | serialize/TextSerialize.cc:366-370 | Comment lines are skipped |
| `TextSerialize.TextRoundTrip` | serialize/TextSerialize.cc:27-38 | A marshalled object is unmarshalled past its header and comment, ending exactly at the end of the text, exactly unless its last line is that of an object without fields |
| `TextLines.Example` | serialize/TextSerialize.cc:40-113 | The lines of an object with a number, a boolean and an object |
| `TextLines.NameMatched` | serialize/TextSerialize.cc:378-406 | A line is taken for a field exactly if its label, behind blanks and tabs, begins with the field's name |
| `TextLines.NoName` | serialize/TextSerialize.cc:353-406 | A line without a colon, or without an end, is an error |
| `TextLines.FlagLine` | serialize/TextSerialize.cc:199-229 | A line is true if its text begins with "true", false if with "fals", and else an error |
| `TextLines.NumeralMeans` | serialize/TextSerialize.cc:408-450 | strtoull with base 0: decimal, octal and hexadecimal numerals with blanks and a sign, in 64 bits |
| `TextLines.NumLine` | serialize/TextSerialize.cc:408-450 | A number field gets the value of its line in its own width; anything behind the number fails the assertion |
| `TextSerialize.TextMarshal.Process` | serialize/TextSerialize.cc:40-113 | The process functions append the lines of the field |
| `TextSerialize.TextUnmarshal.GetNextLine` | serialize/TextSerialize.cc:353-375 | The scanning loop finds the next line that is not a comment, and its end |
| `TextSerialize.TextUnmarshal.MatchFieldName` | serialize/TextSerialize.cc:378-406 | The scanning loop finds the colon and compares the name behind blanks and tabs |
| `TextSerialize.TextUnmarshal.GetNum` | serialize/TextSerialize.cc:408-450 | A number and its line end are read, or the assertion fails |
| `TextSerialize.TextUnmarshal.Process` | serialize/TextSerialize.cc:134-343 | The process functions read the field, report an error or fail an assertion, as defined |

## Left out

What a statement deliberately does not cover:

- Getopt.Parser.ParseAll: assumes that no long option has the value -1, which is also the end of a run, and no option index beyond the vector; error messages are not modelled. The caller in `util/Getopt.cc` also ends the process at some results.
- Getopt.Next: the stop in the middle of a run that a '-' inside a cluster causes is modelled, but what a later call would make of it is not.
- SmtpSystem.EveryRunIsSafe: assumes a connection that does not break, an empty RECEIVED text, bodies without NUL, and envelope strings that are not empty, free of CR, LF and NUL and do not start with a blank.
- SmtpSession.Session.ServerSession: assumes that writes do not fail and a domain that fits the output buffer.
- SmtpSession.Session.ProcessCmd: assumes that writes do not fail and a domain that fits the output buffer.
- SmtpSession.Session.SendResponse: assumes that the free tail of the output buffer holds the reply.
- SmtpSession.Session.SendRecipients: assumes that writes do not fail and recipients that fit the output buffer.
- SmtpSession.Session.ClientSession: assumes that writes do not fail and texts that fit the output buffer, so that the defects of `vformat_buf` do not show.
- PrintfOutput.Vsnprintf: leaves out floating point, wide characters, %n and %p, which call other formatters, write through pointers or look back into the output; numbers in a format and negated widths that overflow an int are not modelled.
- PrintfLaws.SpecPrints: is about one conversion between two literal texts, and about %s and %c without length modifiers; formats with more conversions are covered by `PrintfOutput.Vsnprintf` only.
- PrintfArgs.FindArguments: fetching an argument at another type than it was passed at is undefined in C, so right types are demanded.
- DataStoreProxy.EveryRunIsSafe: says nothing after 2^64 requests; a request that is still queued when the worker leaves is never answered, and a worker whose server goes silent never leaves.
- DataStoreWorker.Worker.RunOnce: other threads do not act in the middle of a pass here; that they may is the subject of `DataStoreProxy`. Notifiers and locks are not modelled, and a connection that fails is one that ends.
- DataStoreWorker.Worker.Recv: a negative length in a header, with which the code sizes an array, counts as no reply.
- IoVec.Device.RwvAll: moved bytes are identified by their addresses; remaining time and memory ownership (the copy is freed through a pointer that has moved) are not modelled.
- CheckedLog.CheckedLogReader.ReadRecord: with a negative length the read is undefined; the status says so.
- MemTable.DbgMemInfo.Find: demands that probing stops inside the table; frames whose first address is null count as a free slot; the live count does not overflow an int.
- MarshalSerialize.Unmarshal.Process: the checksum option and buffers with a terminator are left out (the recovered length of the latter counts the terminator twice).
- KeySerialize.KeyUnmarshal.Process: 64-bit integers are left out, since "%16x" prints something else; strings are read without a check against the buffer's length, which shows as running over the end.
- KeySerialize.KeyMarshal.Process: `border` and `end_action` reserve room for less than they write behind; only the bytes are modelled.
- TextSerialize.TextRoundTrip: field names contain no ':' or newline and do not start with '#', a blank or a tab; byte arrays and strings, which use TextCode, are left out. The code never indents, whatever its comments say.

Not modelled at all:

- Sockets, poll, threads, mutexes, signals, mmap, BerkeleyDB, Tcl and XML: foreign code, represented by nondeterministic inputs or opaque values.
- The socket classes of `ax25/`, `bluez/` and `io/IPSocket.cc`, and the forwarding clients: small state machines and wrappers that would add only easy members.
- Synchronous requests of `DataStoreProxy::execute`, which take the next reply whatever its cookie.
- `read_some_bytes` and `get_char` of BufferedInput: variants of the reads that are modelled.
- Objects whose fields depend on what was read (vectors of objects): their schema is not fixed.
- Debug printing, log rules, stack traces, clocks and timeouts.

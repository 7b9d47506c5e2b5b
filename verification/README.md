# Sacagawea: a verified model

Sacagawea is a Gopher server (RFC 1436). This Dafny 4.11 project models the parts of its Linux build that carry
invariants over state, interleaving or arithmetic, and proves what they keep.
`dafny verify dfyconfig.toml` checks everything.

| file | what it models |
|---|---|
| Text.dfy, CBuffer.dfy | C strings, decimal printing, and the library calls that fill bounded buffers |
| LogChannel.dfy | senders, logger, mutex, condition variable, counter and pipe as an interleaved step system, with its invariant |
| LogSafety.dfy | what the log file holds in every run, which records can be stranded, what the counter is worth |
| LogProgress.dfy, LogDeadlock.dfy, LogTermination.dfy | which commits can finish, exactly when the channel can deadlock, how long runs can be and where they end |
| LogPump.dfy | the two ends of the pipe as code: the commit of a sender and the logger's counted drain |
| Delivery.dfy, Sender.dfy | the partial-send loop, the printed log record, and reading the log file back |
| Request.dfy | reading a request line from a socket |
| PathSecurity.dfy, Homedir.dfy | the path filter and what it confines; how the home directory is set |
| Shell.dfy, ItemTypes.dfy | quoting a path for the shell, and the item type chosen for it |
| Menu.dfy | building a menu, and parsing it by the grammar in the Appendix of RFC 1436 |
| Gopher.dfy, Answers.dfy | a whole request, and what clients get: answers and menus in terms of the bytes sent and of what `file` reports |
| MenuWalk.dfy | where walks along menus from the home directory lead |
| Config.dfy, Server.dfy | re-reading the configuration, rebinding the socket, the copy of the settings that each client gets |

Bytes are modelled as `char`. Calls into the system are parameters: the results of `recv`, `send` and `read` (how many
bytes, would-block, failure) come from sequences that the theorems quantify over, the `file` utility is a function from
the words of its command line to what it prints, and the directory listing is a parameter. Code that fills buffers or
updates fields is modelled by methods over arrays and classes whose contracts are tied to specification functions; the
lemmas are about those functions. The log channel and the server's runs are step systems, because their properties are
about interleavings.

## What is true, and what is only true under a condition

- The log file is always the records in lock order, whole and once each. But a record committed before the logger's
  first `pthread_cond_wait` stays on the pipe until another record is signalled: the wait is entered without looking
  at the counter (`LogSafety.StrandedIff`, `LogProgress.StrandingHappens`). The comment at sacagalib.h:84-86 is right
  about every later lost signal (`LogSafety.CounterCoversLostSignals`, `LogSafety.NothingStrandedAfterFirstWakeup`).
- A sender that finds too little room in the pipe blocks with the mutex held, and then nothing ever moves again. Some
  interleaving reaches that if and only if all frames together exceed the pipe (`LogDeadlock.DeadlockIff`).
- The path filter confines a request to the home directory except for a bare `..` at the end of a selector that names
  nothing before it (`PathSecurity.AcceptedIsConfinedIff`, `PathSecurity.ParentPassesTheFilter`).
- The type '4' of the item table is never chosen (`ItemTypes.ChainIsLongestMatchIff`, `ItemTypes.MacIsNeverReported`).
- A log file can be read back line by line if and only if no logged path contains a line break
  (`Delivery.LogReadsBackIff`).
- The home directory is the one named in the configuration unless the end of a longer, older path stays behind a name
  that fills the copy limit (`Homedir.HomeIsAsNamedIff`, `Homedir.OldEndStays`).
- A client that starts with the empty selector and follows menu lines never leaves the home directory, and what the
  filter and the length limit keep it from is exactly the directories with certain names or too long paths
  (`MenuWalk.WalkFromHome`). The paths that the server types and the paths that come back are the same strings unless
  the selector is empty and no slash lies before it (`Gopher.AdvertisedPathIff`, `Gopher.WalkClosure`).
- A client's copy of the settings names the port it was accepted on if and only if the files read between the copy and
  the accept lead back to the port of the copy (`Server.AcceptedCopyMatchesIff`); so it does if reloads happen only
  while the server waits in select, and need not otherwise (`Server.SnapshotsMatch`,
  `Server.ReloadDuringAcceptMisleads`).
- In threaded mode no reload follows the start of a client thread, because the thread makes the process ignore SIGHUP
  (`Server.NoReloadAfterFirstThread`).
- In process mode a forked client keeps the listening socket it inherited, so while it lives a reload that returns to
  its port, or that names another port and then the current one, ends the server (`Server.ReloadEndsIff`,
  `Server.LiveChildBlocksReturn`, `Server.ExitHasACause`).
- What is checked for a port is the lines of the configuration if and only if every line fits the buffer: at most 510
  characters, or 511 for a last line without a line break. Behind the 511th character of a longer line a port line is
  obeyed (`Config.PiecesAreLinesIff`, `Config.LongLineNamesAPort`, `Config.SamePortsIff`).
- The repository's README.md describes log lines as `[dd-MM-YYYY hh:mm:ss] name, size, address`; the code prints
  `[Mon DD YYYY hh:mm:ss] path size B address`, and the model follows the code.

## Model

| member | source | states |
|---|---|---|
| LogChannel.StepInv | src/sacagalib/gopher.c:401-423 | every step of a sender or of the logger keeps the invariant tying mutex, counter, pipe, file and lock order together |
| LogChannel.ReachableInv | src/server/sacagawea.c:361 | from a zero counter and an empty pipe, every interleaving of any number of senders keeps that invariant |
| LogChannel.FrameParts | src/sacagalib/log.c:64 | the 4-byte length read off the pipe is the length of the payload that follows |
| LogSafety.LogFollowsLockOrder | src/sacagalib/log.c:55-105 | the file is the first records of the lock order of the run, each once and whole; with the mutex free the pipe is the frames of the others and the counter is their number |
| LogSafety.FileOnlyGrows | src/sacagalib/log.c:100 | what has been logged never changes |
| LogSafety.NothingStrandedAfterFirstWakeup | src/sacagalib/log.c:55-63 | once woken, the logger never sleeps on an unlogged record of a finished sender |
| LogSafety.StrandedIff | src/sacagalib/log.c:55-63 | in any run that leaves the logger asleep, a record is stranded beside it exactly when the logger never got the mutex back and some commit was signalled before its first wait |
| LogSafety.CounterCoversLostSignals | src/sacagalib/include/sacagalib.h:84-86 | when the logger gets the mutex back, the counter is the record it was called for plus one per lost signal, and the pipe holds that many frames |
| LogSafety.DrainNeverBlocks | src/sacagalib/log.c:63-92 | with the mutex held the logger always finds the length, then the payload bytes, it reads for, whatever the sizes of its reads |
| LogProgress.CommitRuns | src/sacagalib/gopher.c:401-423 | a sender that finds the mutex free and whose frame fits can make its whole commit by its own steps alone, with exactly the effect of one frame, one count, one signal |
| LogProgress.StrandingHappens | src/sacagalib/log.c:44-56 | one sender that commits before the first wait leaves its record on the pipe in a state of rest |
| LogProgress.LockedSenderFinishesIff | src/sacagalib/gopher.c:407-416 | a sender that takes the mutex can finish if and only if its frame fits in the room left at that moment |
| LogProgress.DoomedForever | src/sacagalib/gopher.c:407-416 | a sender whose frame does not fit holds the mutex in every continuation, and the log never grows again |
| LogDeadlock.DeadlockIff | src/sacagalib/gopher.c:401-423 | a blocked state is reachable if and only if the frames of all senders together exceed the capacity of the pipe |
| LogDeadlock.TerminalIff | src/sacagalib/log.c:55-106 | a run can only end with every sender done and the logger asleep, or with a writer out of room |
| LogDeadlock.DoneMeansDelivered | src/sacagalib/log.c:55-106 | a run that ends with every sender done has logged every record, or the logger was never woken and all of them are on the pipe |
| LogTermination.StepsDescend | src/sacagalib/log.c:63-92 | every step but a spurious wake-up lowers a natural number, made of the senders' work, the logger's turns and the missing bytes |
| LogTermination.RunsAreBounded | src/sacagalib/log.c:55-106 | every run, under any scheduling and any short reads and writes, has at most a number of steps fixed by the records, and a fixed number more for each spurious wake-up |
| LogTermination.ReachesAnEnd | src/sacagalib/log.c:55-106 | from every reachable state a run without spurious wake-ups reaches an end |
| LogTermination.EndsComplete | src/sacagalib/log.c:55-106 | if all frames fit at once, every end has all senders done, and a complete log in lock order once the logger was woken |
| LogPump.Channel.Commit | src/sacagalib/gopher.c:407-416 | counting and writing length and payload appends one frame to the pipe and one to the counter |
| LogPump.Channel.LogOne | src/sacagalib/log.c:64-103 | one pass of the loop takes exactly one frame, under any pattern of short reads, and appends exactly its payload |
| LogPump.Channel.Drain | src/sacagalib/log.c:63-105 | the counted drain ends with an empty pipe, a zero counter and all pending records appended in order |
| LogPump.DrainFitsTheChannel | src/sacagalib/log.c:55-63 | every reachable start of a drain meets the drain's precondition, and the drain completes the log up to the last commit |
| Text.DecimalPlaces | src/sacagalib/gopher.c:333-334 | the digits of a printed number stand in their decimal places, with no zero in front |
| Delivery.DateHas22Characters | src/sacagalib/log.c:166-188 | the date field has 22 characters for every moment, uncut up to the year 9999 |
| Delivery.DateReadsBack | src/sacagalib/log.c:166-188 | up to the year 9999 month, day, year, hour, minute and second are found in their columns of the date field |
| Delivery.AddressFits | src/sacagalib/socket.c:299 | every address text fits its 22-byte field and holds no blank or line break |
| Delivery.AddressReadsBack | src/sacagalib/socket.c:299 | the four octets and the port are recovered from the address text, in their order |
| Delivery.SizeDigits | src/sacagalib/gopher.c:311-313 | every 64-bit size prints in at most 20 digits |
| Delivery.PrintRecord | src/sacagalib/gopher.c:307-337 | the record printed into the buffer of the computed length is never cut off |
| Delivery.RecordReadsBack | src/sacagalib/gopher.c:333-334 | date, path, size and address are recovered from a record, whatever the path contains |
| Delivery.RecordsAreUnique | src/sacagalib/gopher.c:333-334 | two transfers with the same record are the same transfer |
| Delivery.LogReadsBackIff | src/sacagalib/log.c:100 | the whole file is recovered line by line if and only if no path has a line break |
| Sender.DeliveredIff | src/sacagalib/gopher.c:197-259 | a file goes out whole exactly when a run of positive sends covers it before one fails, however they cut it |
| Sender.OutIsWhatSendsTake | src/sacagalib/gopher.c:197-259 | before the first send that fails or takes nothing, what goes out is what the sends take, up to the end of the file |
| Sender.ClosesCleanlyIff | src/sacagalib/gopher.c:290-300 | the connection ends cleanly exactly when no receive fails before one reports the end |
| Sender.RecordTellsTheTransfer | src/sacagalib/gopher.c:305-341 | the record of a transfer reads back as its date, its path, the length of its file and its address |
| Sender.SendAll | src/sacagalib/gopher.c:197-259 | the bytes sent are a prefix of the file, each once and in order, as long as the sends allow |
| Sender.ThreadSender | src/sacagalib/gopher.c:170-426 | one record is enqueued if and only if the whole file went out and the connection ended cleanly, otherwise none; it reads back as the date, the path, the number of bytes the client received, and the address |
| Sender.LogFileTellsTheTransfers | src/sacagalib/gopher.c:305-423 | in every reachable state, reading the log file gives back the logged transfers in lock order |
| Request.Socket.Recv | src/sacagalib/children.c:52 | a receive hands over the next bytes of the stream, at most as many as there is room for |
| Request.ReadRequest | src/sacagalib/children.c:36-108 | the result is the place of the LF of the stream's first CRLF if it lies within the buffer, else -1; the buffer then holds the line and a NUL |
| Request.ChunkingInvariance | src/sacagalib/children.c:43-94 | two ways of cutting up and delaying the same bytes give the same result |
| Request.StreamUpToFailure | src/sacagalib/children.c:43-94 | after a failed receive nothing that comes later counts |
| Request.LineReadBackIff | src/sacagalib/children.c:58-67 | a terminated line is read whole exactly when it has no CRLF inside and fits |
| PathSecurity.DotDotSlashIff | src/sacagalib/utility.c:214 | the substring test for `../` holds exactly when a component other than the last ends in two dots |
| PathSecurity.RefusedIff | src/sacagalib/utility.c:209-218 | which paths the filter refuses, in terms of components and the backslash form |
| PathSecurity.SelectorResolvesFromHome | src/sacagalib/children.c:276-285 | resolving the joined path is resolving the selector from the home directory |
| PathSecurity.AcceptedIsConfinedIff | src/sacagalib/utility.c:209-218 | an accepted request stays inside the home directory at every prefix of its resolution, except for a final bare `..` with nothing named before it |
| PathSecurity.ParentPassesTheFilter | src/sacagalib/utility.c:209-218 | the selector `..` is accepted, and leaves every home directory that has a parent |
| Homedir.SetHomedir | src/sacagalib/config.c:56-66 | the whole buffer after any home-directory line, including what older paths leave behind |
| Homedir.SetToByBytes | src/sacagalib/config.c:56-66 | byte by byte that is: the name and NULs up to the limit, then, unless the string there ends in a slash, a slash behind it and a NUL one byte behind its new end |
| Homedir.HomeEndsInSlash | src/sacagalib/config.c:63-66 | after any number of home-directory lines the home directory ends in a slash |
| Homedir.StartIsValid | src/server/sacagawea.c:265-270 | the buffer that main sets up is one that these lines can work on |
| Homedir.HomeIsAsNamedIff | src/sacagalib/config.c:46-66 | it is the directory named unless the name fills the copy limit and bytes of an older path lie behind it |
| Homedir.OldEndStays | src/sacagalib/config.c:56-66 | a name and an older path for which it is not |
| Shell.SanitizePath | src/sacagalib/gopher.c:547-576 | the buffer, of exactly the size needed, ends up holding the quoted path and a NUL |
| Shell.SanitizedLength | src/sacagalib/gopher.c:553-556 | the quoted path is three characters longer per quote |
| Shell.BuildCommand | src/sacagalib/gopher.c:479-487 | the command exactly fills the buffer computed for it |
| Shell.CommandHasThreeWords | src/sacagalib/gopher.c:479-488 | a shell reads the command as the words `file`, `-bi` and the path, whatever the path contains |
| ItemTypes.TypePath | src/sacagalib/gopher.c:436-541 | the type is that of what `file -bi` prints for exactly this path; of the last piece it prints if that starts with `cannot`; of what the buffer held if it prints nothing |
| ItemTypes.LastPieceIsLastLine | src/sacagalib/gopher.c:493-505 | the last piece read is the last line printed, if that fits the buffer |
| ItemTypes.LongLineInPieces | src/sacagalib/gopher.c:493-505 | of a longer line it is what is left after pieces of 63 bytes |
| ItemTypes.KnownTypes | src/sacagalib/include/sacagalib.h:180-190 | directories and unknown types, by the MIME prefixes written out |
| ItemTypes.InodeTypes | src/sacagalib/include/sacagalib.h:184-185 | types '1' and '0', whatever follows the prefix |
| ItemTypes.ApplicationTypes | src/sacagalib/include/sacagalib.h:186-188 | types '7' and '9', whatever follows the prefix |
| ItemTypes.TextTypes | src/sacagalib/include/sacagalib.h:180-181 | types 'h' and '0', whatever follows the prefix |
| ItemTypes.ImageTypes | src/sacagalib/include/sacagalib.h:182-183 | types 'g' and 'I', whatever follows the prefix |
| ItemTypes.MediaTypes | src/sacagalib/include/sacagalib.h:189 | types 's' and '3', whatever follows the prefix |
| ItemTypes.MultipartTypes | src/sacagalib/include/sacagalib.h:190 | types 'M' and '3', whatever follows the prefix |
| ItemTypes.ChainIsLongestMatchIff | src/sacagalib/gopher.c:511-541 | the ordered chain picks the most specific table entry exactly when the report does not start with `application/mac` |
| ItemTypes.MacIsNeverReported | src/sacagalib/gopher.c:538-540 | type '4' is never chosen |
| ItemTypes.PrefixDecides | src/sacagalib/gopher.c:493-495 | reading only the first line, and only 63 bytes of it, never changes the type |
| Menu.PathOfSubfile | src/sacagalib/gopher.c:60-77 | the buffer for an entry's path covers both printed forms |
| Menu.ResponseLine | src/sacagalib/gopher.c:81-114 | the computed length covers both forms of a line, so no line is cut off |
| Menu.SendContentOfDir | src/sacagalib/gopher.c:53-145 | the response ends up holding the lines of all listed entries in readdir order and the terminator, in an allocation of exactly that size |
| Menu.ListedIsFilter | src/sacagalib/gopher.c:53-57 | what is listed is what readdir gives, in that order, each entry once, without `.` and `..` |
| Menu.MenuReadsBack | src/sacagalib/gopher.c:106-145 | parsing a menu of clean items gives back the items and what follows the terminator |
| Menu.MenuRoundTripIff | src/sacagalib/gopher.c:106-145 | a client gets the server's tuples back if and only if no field holds a TAB, CR, LF or NUL |
| Menu.LineIsNotLastLine | src/sacagalib/gopher.c:144 | no clean line is taken for the terminator |
| Menu.TypesAreFieldChars | src/sacagalib/gopher.c:511-541 | the type character never spoils a line |
| Gopher.ServeInput | src/sacagalib/children.c:266-321 | joining, length check, filter, typing and dispatch, with every buffer large enough |
| Gopher.ManagementFunction | src/sacagalib/children.c:232-325 | the answer is a function of the bytes received |
| Answers.ClosedIff | src/sacagalib/children.c:61-65 | a connection is closed without an answer exactly when no CRLF comes within the limit |
| Answers.FailedReceiveCloses | src/sacagalib/children.c:76-92 | a failed receive before the line end closes the connection, whatever was still to come |
| Answers.DroppedIff | src/sacagalib/children.c:289-294 | a request is refused exactly when a component other than the last ends in two dots, or two dots stand before a backslash |
| Answers.ServedIsConfinedIff | src/sacagalib/children.c:276-321 | a file or directory is served only at home directory plus selector, only if that path is clean, and inside the home directory unless the selector names its parent |
| Answers.CleanRequestGets | src/sacagalib/children.c:295-321 | a clean request gets a listing, a file or an error item showing the selector, by what `file` prints about its path |
| Gopher.LengthCheckNeverFires | src/sacagalib/children.c:246-284 | after every successful read the joined path has at most 4094 bytes |
| Gopher.SelectorArrivesIff | src/sacagalib/children.c:258-285 | a terminated selector reaches the path unchanged exactly when it fits and has no NUL or CRLF |
| Gopher.AdvertisedPathIff | src/sacagalib/gopher.c:68-114 | home directory plus advertised selector is the path that was typed for the menu, exactly for the selectors that are not empty or have a slash before them |
| Gopher.EmptySelectorStillResolves | src/sacagalib/gopher.c:106-109 | in the remaining case the two paths still name the same file |
| Gopher.ChildRefusedIff | src/sacagalib/utility.c:209-218 | which entries of an accepted directory the filter refuses |
| Gopher.ServeMenu | src/sacagalib/children.c:298-299 | the menu sent for a connection is a function of the bytes received, built from the path the request names |
| Answers.MenuTellsTheDirectory | src/sacagalib/gopher.c:53-145 | the menu a client gets, parsed, has one item per listed entry in order, with its name, the server's host and port, the type of what `file` reports about its path, and a selector leading there |
| Answers.ItemsTell | src/sacagalib/gopher.c:78-114 | name, host, port and type of an item are those of its entry, whatever the names are |
| Gopher.WalkClosure | src/sacagalib/gopher.c:106-114 | from any selector but an empty one with no slash before it, following menu lines leads, by the very same paths, where the same choices lead on the server, and stops exactly where it does not open a directory or has no such entry |
| MenuWalk.WalkFollowsTree | src/sacagalib/gopher.c:60-114 | from every selector, the empty one included, following menu lines leads to the selector for the names that the choices pick in the file system, if and only if the directories on the way pass |
| MenuWalk.PassesIff | src/sacagalib/utility.c:209-218 | the directories on the way pass exactly when the last one's path fits and their names are not of the kinds the filter refuses |
| MenuWalk.WalkFromHome | src/sacagalib/children.c:258-299 | if the home directory itself passes the filter, a walk from the empty selector ends exactly at the chosen names below the home directory and never leaves it, and it gets stuck exactly for missing entries, odd names and too long paths |
| Gopher.AnnouncedTypeIsServed | src/sacagalib/children.c:295-321 | the type in a menu line decides how a request for that line's selector is answered |
| Config.CaptureIff | src/sacagalib/config.c:92 | the recogniser captures exactly what the port pattern does |
| Config.PortLineReadsBack | src/sacagalib/config.c:91-105 | a port line captures its digits, at most the first five |
| Config.PrintedPortReadsBack | src/sacagalib/config.c:91-105 | every number of up to five digits printed on a port line is captured with its value |
| Config.PortLineSets | src/sacagalib/config.c:91-105 | a line `port`, white space, a number sets the port to every number in 1..65535, ends the process for 0, and is ignored for larger ones |
| Config.PiecesAreLinesIff | src/sacagalib/config.c:233-248 | the pieces that are checked are the lines of the file if and only if every line fits the buffer |
| Config.EveryFileHasLines | src/sacagalib/config.c:243-247 | every file is such a list of lines, the last one possibly without a line break |
| Config.LongLineIsSplit | src/sacagalib/config.c:234-244 | what follows the 511th character of a longer line is checked as lines of its own |
| Config.LongLineNamesAPort | src/sacagalib/config.c:234-258 | a line that names no port as a whole changes it to any port that way |
| Config.PortsAreNamedByChunks | src/sacagalib/config.c:233-258 | the ports obeyed are those named by the 511-character chunks of the lines, in order |
| Config.CaptureIsWholeIff | src/sacagalib/config.c:92 | cutting a line changes what the port pattern captures on it exactly if the match reaches beyond the cut |
| Config.SamePortsIff | src/sacagalib/config.c:233-258 | if the buffer cuts no match, the ports obeyed are those of the lines if and only if no chunk behind the first of a line names one |
| Config.CheckIfPortChange | src/sacagalib/config.c:86-111 | one line changes the port exactly to a valid captured value, and ends the process on zero |
| Config.ReadAndCheckConf | src/sacagalib/config.c:219-264 | the last valid port wins, and the result is true iff some valid port differed from the one at the start; nothing but the port changes |
| Config.ReloadIsAFold | src/sacagalib/config.c:86-111 | last valid port, mark of change and end on zero are what checking one line after the other comes to |
| Config.ReloadKeepsPortsValid | src/sacagalib/config.c:101-105 | a changed port is always reported, and a valid port stays valid |
| Server.UniversalHandler | src/server/sacagawea.c:159-176 | the handler ends the process exactly on a zero port or on a busy one; otherwise exactly one socket of the process listens, bound to the settings' port, and it was replaced iff a port differed |
| Server.AlwaysBound | src/server/sacagawea.c:159-176 | in every run, wherever reloads strike, the listening socket of the server process is bound to the valid port of the settings for as long as the process lives |
| Server.PortIsLastNamed | src/sacagalib/config.c:86-111 | the port is always the one named last in all files read so far |
| Server.MainThreadFollows | src/sacagalib/socket.c:173-306 | whatever signals, threads and children do in between, the main thread's next step is the one that follows in the select and accept loops |
| Server.SnapshotsMatch | src/sacagalib/socket.c:245-306 | if reloads happen only in select, every client's copy names the port it was accepted on |
| Server.SnapshotsArePermanent | src/sacagalib/socket.c:251 | each accept adds one client, and later reloads never change its copy |
| Server.AcceptedCopyMatchesIff | src/sacagalib/socket.c:251-253 | in every run, a client's copy names the port named last before it was made, and that is the port it was accepted on if and only if the files read between the copy and the accept lead back to it |
| Server.ReloadDuringAcceptMisleads | src/sacagalib/socket.c:251-253 | a run in which a client is left with one port while the server's only socket listens on another |
| Server.ReloadEndsIff | src/sacagalib/socket.c:158-162 | in any run a reload ends the server exactly if it names port zero, or, in process mode, a port other than the current one and, last, the port of a client whose child still lives |
| Server.LiveChildBlocksReturn | src/sacagalib/children.c:211-217 | while the child of one client lives, whatever the others do, a reload back to the port it was accepted on ends the server, unless that is the current port and no other is named |
| Server.ExitHasACause | src/sacagalib/socket.c:158-162 | an ended run contains the reload that ended it, in the state in which it did, for one of these reasons; only children act after it |
| Server.NoReloadAfterFirstThread | src/sacagalib/children.c:362-369 | in no run does a reload follow the start of a client thread, and the port stays the one named last before it |
| Server.ReloadStaysPossible | src/sacagalib/children.c:206-225 | in the other mode a reload is possible in every state of a living server |

## Left out

- All Windows branches, including the named-pipe logger and the separate worker program.
- Failures of system calls in the log channel, and exits with the mutex held: the step system covers runs in which read
  and write succeed. A pipe read of the 4-byte length is one step, because the length is written in one piece.
- The accept loop and the select loop are steps of `Server.State`, not methods, because reloads interrupt them.
- An empty directory: the code goes on with a null response, so `Menu.SendContentOfDir` asks for a listed entry.
- Reading before an empty selector: the byte there is a parameter (`before`).
- What `type_path` finds in its buffer when `file` prints nothing depends on the command alone, as what `file` prints
  does; the model does not say where it comes from.
- The reallocation at the end of the request reader, whose result stays local.
- The regular-expression engine: only the port pattern has a recogniser. The mode and host name lines of the startup
  configuration are not modelled; the home-directory line is, from the captured name on.
- Homedir.SetHomedir: does not cover an older path of 4095 bytes, because main itself writes behind the buffer for a
  working directory that long; the check that the directory exists is not part of it.
- The file system of `MenuWalk` lists the same entries and finds the same directories on every path to a place. Walks
  past a directory with a name that cannot stand on a menu line are left out.
- Signals to the child processes themselves, which inherit the handler. That a port is busy as long as any process
  listens on it is the model's view of `bind`; other reasons for it to fail are left out.
- Symbolic links: `PathSecurity` resolves paths by their components.
- The host syntax of RFC 1436: any text without TAB, CR, LF and NUL counts as a host, and bytes above 127 as text.
- Ports outside 1..65535 from the command line, and NUL bytes in the configuration file.
- Sockets, fork, threads, signals, shared memory, file mapping and locking, beyond the steps named above.

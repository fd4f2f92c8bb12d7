# logsvc: a verified model of the log service and its system tests

logsvc lets several applications share log files. Each application sends requests over a socket; one
daemon frames the bytes, keeps file handles per session and appends one record per message to the
files. The repository's system tests look for an application's records in such a file with
`check_logged_lines`, and a ledger of passed tests turns later failures into regressions.

This project models these parts and proves what they add up to:

- **The main theorem** (`EndToEnd.SharedFileVerdict`). The bytes of a client program reach the daemon
  in any chunks, interleaved in any way with the bytes, arrivals and departures of any number of other
  sessions; the check may come after the client, or even the daemon, is gone. If what the others wrote
  to the file is harmless, the file exists, and the checker accepts it for the program's arguments if
  and only if equal arguments stand next to each other. (`a b a` is logged correctly and still rejected:
  a repeated text always resolves to its first occurrence, so the last pair looks inverted.)
  `EndToEnd.EveryFinishedProgram` states it for any number of programs that share files as intended,
  with no assumption about the daemon or the other records in the file; `ClientProgram.SingleClient` is the instance with
  one client alone, whose connection is lost at the end.
- **Isolation** (`Daemon.Isolation`). In any run, what a session is, writes and answers is what it would
  be alone, fed at once the bytes that reached it while the daemon listened to it.
- **Requests over all histories** (`SessionHistory.ClosedExactlyWhileOpen`, `SessionHistory.DeliveredWhereOpened`,
  `SessionHistory.EveryOpeningIsLogged`, `SessionHistory.NamedByLastIntroduction`, `Daemon.OnlyOwnHandleDisconnects`).
  What a request is answered, and what it writes where and under which name, is told from the requests before
  it; `Daemon.AnsweredByHistory` carries this over to the bytes of a session in any run of the daemon.
- **The bytes themselves** (`Connection.FrameExactly`, `Protocol.HeaderExactly`, `Protocol.ReadExactly`). Which
  byte string an object is, which headers announce what, and what any payload is read as, octet by octet.
- **When the daemon goes down** (`Daemon.HaltsExactlyOnFatalBytes`). It does exactly if some session
  has seen fatal bytes: before any disconnect, twelve bytes that are no header, an object that only a
  client should get, or a payload too short for what it announces (`Framing.Fatal`).
  `src/protocol.txt:4-8` promises a refusal for requests that cannot be served; these get none, and end
  all other sessions too.
- **A defect and its exact extent** (`Protocol.GarbledExactly`, `SessionHistory.LostOverTheWire`,
  `SessionHistory.AcceptedOverTheWire`). `Message::read_payload` puts a file handle together from signed
  chars, so an octet from 0x80 up overwrites all octets above it. Handles are given out as 1, 2, 3, ...
  A session that opens 128 different paths gets handle 128 for the last one, and each message to it is
  read back as one to handle 0xFFFFFF80 and refused; the 127 paths before are served. In any session, a
  message to an open handle has its effect if and only if the handle survives. `src/protocol.txt:22`
  promises that every object can create itself from its serialization; this holds for every object but
  a message with such a handle and a client with an empty name (`Protocol.ObjectRoundTrip`).
- **The wrap-around of handles** (`SessionHistory.DeliveredAmongMany`). After opening any number of
  different paths, a message to the i-th path's handle, counted from 0, goes to the path with index i
  modulo 2^32, hence to its own file exactly for the first 2^32 paths.
- **The ledger** (`LedgerHistory.LedgerRemembers`, `LedgerHistory.RegressionReported`). After any history
  of runs with any suites and outcomes it holds exactly the tests that passed once and never left the
  suite since, and a failure is reported as a regression exactly for these.

## Layout

| file | content |
|---|---|
| `Search.dfy`, `Records.dfy` | leftmost literal search; log files as sequences of records |
| `Checker.dfy`, `Acceptance.dfy` | the log checker; which logs it accepts |
| `LedgerText.dfy`, `SystemTesting.dfy`, `LedgerHistory.dfy` | the ledger file, the test runner, histories of runs |
| `Words.dfy`, `Protocol.dfy`, `Framing.dfy` | 32-bit words, headers and the nine protocol objects, the byte stream |
| `Session.dfy`, `SessionHistory.dfy` | one session of the daemon; its requests over all histories |
| `Connection.dfy`, `SocketSession.dfy` | chunked reading, on values and as the object that asks a socket for bytes |
| `Daemon.dfy` | all sessions together, and the files they share |
| `EndToEnd.dfy`, `ClientProgram.dfy` | from client calls to the verdict; the C client and its system test |
| `Sorting.dfy` | ascending listings of finite sets; dictionary order |

Objects whose methods update fields (`SystemTests`, `RealSession`, `DefaultSocketSession`, the socket)
are classes; each method is proved against a function of the old state, and the theorems are about
these functions.

## What the model takes as given

- `re.search` on patterns without metacharacters is leftmost literal search. Application names and
  texts are taken to be free of metacharacters.
- The report of the checker is a sequence of diagnostics, one per message; every message is a nonempty
  string, so the report is empty exactly when there is no diagnostic.
- The runner is Python 2 (`keys()` followed by `sort()`): `splitlines` breaks at `\n`, `\r` and `\r\n`.
- How a test goes in one run is a function from its name to an outcome (returned, raised an exception,
  raised something else). The first component of a returned pair is a boolean.
- `char` is signed, `unsigned int` has 32 bits, assertions are compiled in, a path is its string.
- `show`, how an IP address prints, and `clock`, the readings of the clock, are parameters. The k-th
  write since the daemon started gets the k-th reading.
- Strings of the C++ code are strings here; only octets that encode integers are bounded.
- Every path, the empty one too, can be created and appended to. (`src/logsvc_daemon/LogFile.cpp:36-52`
  does not notice a stream that failed to open, and drops the record silently.)
- A write to a socket succeeds. The daemon is one thread, so a request is served as one step. An
  exception that leaves a read handler, a failed assertion and a reply that is a null pointer end the
  process (`Broken`, `halted`).

## Model

The `source` column is the requirement: the text that says, or the caller that relies on, what must hold.
For the Python and C parts, and for `main.cpp`, this is the modelled code itself. For the other C++ parts
it is a line of `src/protocol.txt`, `README.md` or the client program, and the code that is modelled is
named at the end of the third column, as in (code: src/log/int_codec.cpp:35-47).

| member | source | states |
|---|---|---|
| Search.Find | src/systest/systest.py:130-132 | the result is a match and no earlier position matches; none only if there is no match |
| Checker.CheckLoggedLines | src/systest/systest.py:121-163 | for a missing file and any contents: true iff the first matches are all there and in the compared order, the report is empty iff true, and otherwise lists every fault followed by the contents |
| Checker.ReportAbsences | src/systest/systest.py:134-141 | the loop over missing lines reports exactly the absent matches, in order |
| Checker.ReportDisorder | src/systest/systest.py:147-158 | the comparisons with line 0 and the loop over neighbours, guarded by the presence of both matches |
| Checker.ReportMeaning | src/systest/systest.py:134-158 | a diagnostic is in the report iff its fault is in the log; "closed" is compared with line 0 only |
| Checker.ReportOnText | src/systest/systest.py:130-158 | the same of the text of the log: which literal patterns are searched, and that their leftmost occurrences are compared |
| Checker.ReportInOrder | src/systest/systest.py:134-158 | the messages come in the order of the code, lines ascending, and none comes twice |
| Checker.NothingToReport | src/systest/systest.py:143-163 | the report is empty iff the verdict in terms of positions is positive |
| Acceptance.Soundness | src/systest/systest.py:130-163 | a positive verdict implies strict order of the markers, of "opened" before every line and line 0 before "closed", and first matches of any two lines in order, strictly if the texts differ |
| Acceptance.InversionsDetected | src/systest/systest.py:154-158 | with all lines found, comparing neighbours reports an inversion iff any pair of lines, adjacent or not, is inverted |
| Acceptance.SharedLog | README.md:6-11 | records of others that match no pattern change neither the verdict nor any diagnostic, wherever they are interleaved and whatever the own records are |
| Acceptance.SilentRecords | src/systest/systest.py:130-132 | a record with a bracket-free text matches no pattern iff its text is not expected and it carries no marker |
| Acceptance.HonestLog | src/systest/systest.py:130-163 | on a log that records opening, the lines in order and closing, the verdict is positive iff equal texts are contiguous |
| Records.TextPattern | src/systest/systest.py:132 | the pattern of a line occurs in a record iff the line is the record's text |
| Records.SharedOrder | README.md:6-11 | searches in a shared log succeed and are ordered as in the owner's part alone |
| LedgerText.PrintGrows | src/systest/framework.py:95-101 | the ledger of one more name is the ledger followed by the name and a newline |
| LedgerText.LineEnds | src/systest/framework.py:87-93 | a line ends at "\n", at "\r\n", at any other "\r", or with the text, and what follows is read as before |
| LedgerText.RoundTrip | src/systest/framework.py:87-101 | reading back the written ledger gives the same names iff no name contains "\n" or "\r" |
| SystemTesting.SystemTests.constructor | src/systest/framework.py:40-47 | a new object remembers the ledger as it is at construction and has empty lists |
| SystemTesting.SystemTests.RunTests | src/systest/framework.py:49-73 | the three lists, the rewritten file and the events depend only on the suite, the outcomes of this run and the ledger loaded at construction (what is in them: LedgerHistory.RunConservation, RunOrder, EventsAlternate and LedgerStep) |
| SystemTesting.SystemTests.RunTest | src/systest/framework.py:111-118 | a test that raises has failed, with the message built from the exception (which outcomes succeed, and with which texts: LedgerHistory.EventsAlternate) |
| SystemTesting.SystemTests.PublishResults | src/systest/framework.py:75-79 | the results publisher gets the three lists in order and success iff there is no regression |
| SystemTesting.SystemTestMain | src/systest/systest.py:261-274 | one invocation moves the ledger file one step, exits with the number of regressions, and publishes the announcements and results of each test, then the four reports; with an argument to one publisher, without to two |
| Sorting.StringLeqExactly | src/systest/framework.py:55-57 | names are sorted in dictionary order: where two part, the first has ended or has the smaller character |
| LedgerHistory.RunOrder | src/systest/framework.py:55-57 | the tests are run in dictionary order, every test of the suite once |
| LedgerHistory.RunConservation | src/systest/framework.py:51-73 | the tests that return true are passed, all others failed, in dictionary order and together exactly the suite; regressions are the failed tests known to the ledger; no name is written twice |
| LedgerHistory.ReplayRebuilds | src/systest/framework.py:50-71 | replaying a run's events rebuilds its three lists |
| LedgerHistory.EventsAlternate | src/systest/framework.py:50-71 | the size of the suite is announced, then every test immediately before its one result: passed iff it returned true, else failed with its own message or the one made of the exception, and the regression flag |
| LedgerHistory.ReportsMeaning | src/systest/framework.py:75-79 | the four reports list who passed, who failed and who regressed, in order, and success iff no failing test of the suite is on the ledger |
| LedgerHistory.LedgerStep | src/systest/framework.py:95-101 | read back after a run, the rewritten file is the passed tests followed by the regressions, so it has a test iff it is in the suite and returned true or was on the earlier ledger |
| LedgerHistory.LedgerRemembers | src/systest/framework.py:95-101 | after any history of runs the ledger holds a test iff it passed (or was on the initial ledger) and has been in every suite since |
| LedgerHistory.RegressionReported | src/systest/framework.py:62-68 | in any run of any history a test is a regression iff it fails and is remembered from before, however many failures lie between |
| LedgerHistory.RerunOnOneObject | src/systest/framework.py:44-73 | two runs of one object leave the file that two invocations leave iff no test passed only the first time is new to the ledger loaded at construction |
| Words.OrOctets | src/protocol.txt:14 | or-ing words is or-ing their octets (code: src/log/int_codec.cpp:54-56) |
| Protocol.EncodeExactly | src/protocol.txt:14 | a string is the encoding of an integer iff it is its four octets, the least significant first (code: src/log/int_codec.cpp:35-47) |
| Protocol.Encode32BitInt | src/protocol.txt:14 | refuses exactly the integers over 32 bits; the loop of shifts and masks produces the octets that make up the integer, the least significant first (code: src/log/int_codec.cpp:35-47) |
| Protocol.Decode32BitInt | src/protocol.txt:14 | refuses exactly strings that are not 4 long; the loop of shifts and ors produces the integer that the octets make up (code: src/log/int_codec.cpp:49-59) |
| Protocol.DecodeEncode | src/protocol.txt:14 | decoding inverts encoding on all 32-bit integers (code: src/log/int_codec.cpp:35-59) |
| Protocol.EncodeDecode | src/protocol.txt:14 | encoding inverts decoding on all strings of 4 octets (code: src/log/int_codec.cpp:35-59) |
| Protocol.LookUpIsInverse | src/protocol.txt:3-12 | a type specification is looked up as a kind iff it is that kind's tag, for all nine (which tags: Protocol.HeaderExactly; code: src/log/ProtObjFactory.cpp:64-95) |
| Protocol.CanonicalHeader | src/protocol.txt:1-14 | a 12-byte header creates an object of a kind and length iff it is the header printed for them and the length is allowed for the kind (code: src/log/ProtObjFactory.cpp:51-99, src/log/create_header.cpp:36-42) |
| Protocol.HeaderExactly | src/protocol.txt:1-14 | a byte string is accepted as a header of a kind and length iff it has 12 bytes, "logs", the kind's own four letters, the length in little-endian octets, and the length the kind insists on (code: src/log/ProtObjFactory.cpp:51-99) |
| Protocol.RefusedBecause | src/protocol.txt:1-12 | the reasons of refusal: not 12 bytes, no "logs", letters other than the nine (code: src/log/ProtObjFactory.cpp:78-93) |
| Protocol.RefusedForLength | src/protocol.txt:14 | the length is the reason iff the letters are known and another length would do (code: src/log/ProtObjFactory.cpp:51-76) |
| Protocol.ImageExactly | src/protocol.txt:3-22 | letters and payload are an object's own iff they are those of its kind and its fields' octets in this order, for all nine (code: the get_payload functions in src/log/, such as src/log/Message.cpp:94-97) |
| Protocol.ReadExactly | src/protocol.txt:19-22 | what any payload of octets is read as: the fields, their places, the handle with its filled octets, and "unnamed" at 127.0.0.1 for an unknown address version (code: the read_payload functions in src/log/, such as src/log/Client.cpp:71-95) |
| Protocol.MessageHandleSpreads | src/protocol.txt:8 | the handle read from a payload: each octet from 0x80 up replaces all octets above it by 0xFF (code: src/log/Message.cpp:64-74) |
| Protocol.GarbledExactly | src/protocol.txt:8 | a handle survives being sent iff no octet but the last has its top bit set unless all bits above are set; all handles below 128 do, 128 does not (code: src/log/Message.cpp:64-74, src/log/FileHandle.cpp:65-68) |
| Protocol.ObjectRoundTrip | src/protocol.txt:21-22 | each of the nine objects is read back as it was written iff it is no message with a garbled handle and no client with an empty name (code: the read_payload and get_payload functions in src/log/) |
| Framing.ParseInverts | src/protocol.txt:1-17 | parsing a printed frame sequence followed by an incomplete frame gives exactly both |
| Framing.ProperPrefix | src/protocol.txt:16-17 | no proper prefix of a frame holds a complete frame |
| Framing.UniquelyDecodable | src/protocol.txt:1-17 | lists of objects with equal bytes are equal |
| Framing.DrainServesParsedFrames | src/protocol.txt:16-20 | for any bytes, the session acts on exactly the frames the parser finds, in order, up to the first that stops or breaks it, and keeps the parser's residue (code: src/logsvc_daemon/DefaultSocketSession.cpp:78-122) |
| Framing.BreaksExactlyOnFatalBytes | src/protocol.txt:4-17 | in any state of the session, reading a byte string ends in the breakage that stops the daemon iff, before any disconnect, it holds a frame for clients only, a message or client object too short for its fields, or twelve bytes that are no header (code: src/logsvc_daemon/DefaultSocketSession.cpp:78-95, src/log/ProtObjFactory.cpp:51-99) |
| Framing.FatalBehind | src/protocol.txt:4-17 | bytes behind frames that go through are fatal iff they are on their own; behind a disconnect nothing is, and behind a frame that breaks everything is (code: src/logsvc_daemon/DefaultSocketSession.cpp:78-122) |
| Framing.ReplyIsFatal | src/protocol.txt:9-12 | a file handle, client handle, acknowledgement or refusal sent to the daemon is fatal, whatever follows (code: the act functions, such as src/log/Acknowledged.cpp:56-59) |
| Framing.NamelessClientIsFatal | src/protocol.txt:6 | a client object with an address and an empty name is fatal, whatever follows (code: src/log/Client.cpp:71-95) |
| Connection.FrameExactly | src/protocol.txt:1-17 | a byte string is an object's frame iff it is "logs", the kind's letters, the payload's length in little-endian octets, and the fields' octets (code: src/log/create_header.cpp:36-42) |
| Connection.DrainExtends | src/protocol.txt:16-17 | acting early on the bytes at hand does not change what is done in the end (code: src/logsvc_daemon/DefaultSocketSession.cpp:78-122) |
| Connection.ChunksDoNotMatter | src/protocol.txt:16-17 | state, answers, writes and leftover bytes are independent of how a stream is cut into chunks (code: src/network/DefaultSocket.cpp:70-107) |
| Connection.ServedAsPerformed | src/protocol.txt:16-22 | serving the bytes of a request list is performing the requests, for all requests that survive the wire (code: src/logsvc_daemon/DefaultSocketSession.cpp:78-122) |
| SocketSession.DefaultSocketSession.BytesReceived | src/protocol.txt:16-20 | a header asks for the payload it announces; a payload is acted on, answered and followed by the next header (code: src/logsvc_daemon/DefaultSocketSession.cpp:78-95) |
| SocketSession.DefaultSocketSession.WriteSucceeded | src/protocol.txt:7 | after the answer the next header is asked for, unless the object was a disconnect (code: src/logsvc_daemon/DefaultSocketSession.cpp:97-122, src/log/Disconnect.cpp:80-83) |
| SocketSession.DefaultSocketSession.HandleRead | src/protocol.txt:16-17 | a pending read takes exactly its bytes from the front and leaves the rest (code: src/network/DefaultSocket.cpp:87-107) |
| SocketSession.DefaultSocketSession.Deliver | src/protocol.txt:16-17 | a chunk of any size brings session, socket and files to where feeding its bytes leads (code: src/network/DefaultSocket.cpp:70-107) |
| Session.RealSession.OpenFile | src/protocol.txt:4 | the handle, the new state, and one "opened" record in the file behind the handle (in any state: SessionHistory.EveryOpeningIsLogged) (code: src/logsvc_daemon/RealSession.cpp:64-70) |
| Session.RealSession.GetFilehandleForPath | src/protocol.txt:4 | a known path gives its handle, a new one the next number (code: src/logsvc_daemon/RealSession.cpp:72-83) |
| Session.RealSession.OpenFileIfNecessary | src/protocol.txt:4 | a handle that is open keeps its file, and no contents change (code: src/logsvc_daemon/RealSession.cpp:85-93) |
| Session.RealSession.CloseFile | src/protocol.txt:5 | writes the "closed" record first, then forgets the file; an unknown handle is refused without effect (when, and which record: SessionHistory.ClosedExactlyWhileOpen, ClosedWhereOpened) (code: src/logsvc_daemon/RealSession.cpp:95-101) |
| Session.RealSession.WriteMessage | src/protocol.txt:8 | one stamped record is appended to the file of an open handle; any other handle is refused without effect (code: src/logsvc_daemon/RealSession.cpp:103-115) |
| Session.RealSession.SetClientInfo | src/protocol.txt:6 | name and address are replaced, the client handle stays (each time: SessionHistory.NamedByLastIntroduction) (code: src/logsvc_daemon/RealSession.cpp:117-123) |
| Session.RealSession.DisconnectClient | src/protocol.txt:7 | the loop writes a farewell to every open file; a wrong client handle is refused (code: src/logsvc_daemon/RealSession.cpp:125-132) |
| Session.RealSession.Receive | src/protocol.txt:4-12 | exceptions become refusals with their text; objects for clients get no answer (code: the act functions in src/log/, such as src/log/File.cpp:65-76) |
| SessionHistory.SoundAlways | src/protocol.txt:4-9 | in every run, until the 2^32nd path: handles are 1, 2, ..., one per path, and an open file is known under its own path's handle (code: src/logsvc_daemon/RealSession.cpp:64-101) |
| SessionHistory.HandleKept | src/protocol.txt:4-9 | a path keeps its handle through any requests, so closing and reopening gives the same one (code: src/logsvc_daemon/RealSession.cpp:72-83) |
| SessionHistory.DeliveredWhereOpened | src/protocol.txt:4-9 | in every session, an accepted message has one effect, a record in the file of the request that opened its handle; until the 2^32nd path every request ever answered with the handle named that file (code: src/logsvc_daemon/RealSession.cpp:64-115) |
| SessionHistory.AcceptedExactlyWhileOpen | src/protocol.txt:4-9 | after any requests a handle accepts messages iff it was given out and not closed since; any other is refused with "Invalid file handle." (code: src/logsvc_daemon/RealSession.cpp:95-107) |
| SessionHistory.ClosedExactlyWhileOpen | src/protocol.txt:5 | after any requests a close is acknowledged iff the handle was given out and not closed since, which ends it; any other is refused with "Invalid file handle." and changes nothing (code: src/logsvc_daemon/RealSession.cpp:95-107) |
| SessionHistory.ClosedWhereOpened | src/protocol.txt:5 | an acknowledged close writes one "Log closed by" record, to the file of the request that opened the handle, and removes this handle only (code: src/logsvc_daemon/RealSession.cpp:95-101) |
| SessionHistory.EveryOpeningIsLogged | src/protocol.txt:4 | in any state, opening is refused for "invalid path" only, and otherwise gives the path's handle and writes one "Log opened by" record to the file behind it, open before or not (code: src/logsvc_daemon/RealSession.cpp:64-93) |
| SessionHistory.OpenedInItsOwnFile | src/protocol.txt:4 | until the 2^32nd path, that file is the path asked for (code: src/logsvc_daemon/RealSession.cpp:64-93) |
| SessionHistory.NamedByLastIntroduction | src/protocol.txt:6 | after any requests name and address are those of the last client object, empty before the first, and the client handle is unchanged (code: src/logsvc_daemon/RealSession.cpp:117-123) |
| SessionHistory.OwnHandleOnly | src/protocol.txt:6-7 | after any requests an introduction is answered with the session's handle, and a disconnect is acknowledged iff it carries that handle (code: src/logsvc_daemon/RealSession.cpp:117-132) |
| SessionHistory.NoBusinessHere | src/protocol.txt:9-12 | exactly the four kinds of replies get no answer, and they change and write nothing (code: the act functions in src/log/, such as src/log/Acknowledged.cpp:56-59) |
| SessionHistory.AcceptedOverTheWire | src/protocol.txt:8 | in every session, a message sent to an open handle has its effect iff the handle survives; else it goes to another file if the garbled handle is open, and is refused if not, as always below 2^24 paths (code: src/log/Message.cpp:64-87) |
| SessionHistory.ManyOpened | src/protocol.txt:4 | after opening n different paths the i-th has handle i modulo 2^32, for every n, and each of the first 2^32 handles is open on its first path (code: src/logsvc_daemon/RealSession.cpp:64-93) |
| SessionHistory.DeliveredAmongMany | src/protocol.txt:4-8 | then a message to a path's handle is accepted, and goes to the path with the same index modulo 2^32 (code: src/logsvc_daemon/RealSession.cpp:72-115) |
| SessionHistory.LostOverTheWire | src/protocol.txt:8 | with 128 or more paths (and fewer than 0xFFFFFF80) the message sent to handle 128, open on the 128th, is refused (code: src/log/Message.cpp:64-87) |
| SessionHistory.ServedOverTheWire | src/protocol.txt:8 | a message sent to one of the handles 1 to 127 arrives as it was sent and goes to that handle's path (code: src/log/Message.cpp:64-87) |
| SessionHistory.RefusedLeavesNoTrace | src/protocol.txt:4-12 | a run with a refused request ends as the run without it (code: src/logsvc_daemon/RealSession.cpp:103-128) |
| SessionHistory.FarewellInEveryOpenFile | src/protocol.txt:7 | one farewell in each open file, by ascending handle, for the right client only; the files stay open (code: src/logsvc_daemon/RealSession.cpp:125-132) |
| Daemon.Isolation | README.md:6-11 | in any run, for any session ever accepted: its writes, its answers and, while it is connected, its state are those of the session alone fed at once the bytes it saw (code: src/logsvc_daemon/SessionInitiator.cpp:56-81) |
| Daemon.AnsweredByHistory | README.md:6-11 | in any run, a session that saw the bytes of a list of requests has answered each as its history demands, written what they demand, and nothing else (code: src/logsvc_daemon/DefaultSocketSession.cpp:78-122) |
| Daemon.HandlesNumberSessions | src/protocol.txt:6 | in any run, every client handle told to a session is the number of its acceptance modulo 2^32 (code: src/logsvc_daemon/DefaultClientHandleFactory.cpp:36-44) |
| Daemon.IntroducedByNumber | src/protocol.txt:6 | in any run, the n-th accepted session's introduction is answered with n modulo 2^32 (code: src/logsvc_daemon/DefaultClientHandleFactory.cpp:41-44) |
| Daemon.OnlyOwnHandleDisconnects | src/protocol.txt:7 | in any run, a session's disconnect with the n-th session's handle is acknowledged iff its own number is n modulo 2^32, and refused otherwise (code: src/logsvc_daemon/RealSession.cpp:125-132) |
| Daemon.HaltsExactlyOnFatalBytes | src/logsvc_daemon_main/main.cpp:5-12 | in any run, the daemon is down iff some session has seen fatal bytes (code: src/logsvc_daemon/DefaultSocketSession.cpp:78-95) |
| Daemon.SeenWhileUp | README.md:6-11 | while the daemon is up, a session has seen everything that arrived between its acceptance and the loss of its connection (code: src/logsvc_daemon/SessionInitiator.cpp:56-81) |
| Daemon.FileExists | README.md:9-11 | a file exists iff it did before or a write went to it (code: src/logsvc_daemon/LogFile.cpp:36-52) |
| Daemon.LogGrowsByOneLine | README.md:9-11 | each write appends to one file the line "[stamp:name:address] text" with the next reading of the clock, and changes no other (code: src/logsvc_daemon/RealSession.cpp:103-115) |
| Daemon.FileHoldsRecords | README.md:6-11 | a file holds what it held before, followed by one record per write to it, in order, and nothing else (code: src/logsvc_daemon/RealSession.cpp:103-115) |
| EndToEnd.PerformScript | src/systest/cloglinetofile.c:40-58 | connect, open, one line per argument, close and disconnect write exactly the opened record, the arguments in order and the closed record (code: src/logsvc_daemon/RealSession.cpp:64-132) |
| EndToEnd.SharedFileVerdict | README.md:6-11 | the main theorem: for any chunks and any interleaving with other sessions the checker accepts the shared file iff equal arguments are contiguous, whether or not client and daemon are still there |
| EndToEnd.EveryFinishedProgram | README.md:6-11 | if every session sends (a part of) a program's requests and programs on one file differ in name and texts, the daemon stays up and the checker accepts each finished program's file iff its equal arguments are contiguous |
| ClientProgram.Send | src/protocol.txt:4-17 | one request over the wire: the bytes that the client receives are the frame of the daemon's reply, which it reads back, and nothing is left unread on either side (code: src/logsvccpp/client/DefaultConnection.cpp:64-99) |
| ClientProgram.OpenLog | src/systest/cloglinetofile.c:47-52 | the first file connects and introduces the client; a refused file gives no log (code: src/logsvcc/Log.cpp:34-48, src/logsvccpp/client/LocalClient.cpp:44-55) |
| ClientProgram.LogLines | src/systest/cloglinetofile.c:54-55 | the loop writes one record per argument, in order |
| ClientProgram.CloseLog | src/systest/cloglinetofile.c:57-58 | one closed record; the session ends with no file open and no farewell |
| ClientProgram.CLogLineToFile | src/systest/cloglinetofile.c:31-61 | the exit code in every case, nothing written unless it is 0, and then exactly the script's records |
| ClientProgram.SingleClientFile | src/systest/cloglinetofile.c:40-58 | with the C client alone at the daemon, the log directory's one file afterwards, character by character (code: src/logsvc_daemon/RealSession.cpp:64-115) |
| ClientProgram.CLogLineToFileTest | src/systest/systest.py:188-199 | the system test passes iff equal arguments are contiguous, for any clean arguments |

## Left out

- Regular expressions beyond literals: names and texts with metacharacters are not covered.
- Message texts with line breaks: they split into several lines of the file; the end-to-end theorem asks for one-line texts.
- The wording of the checker's report and of the text publishers; only which messages there are.
- The socket library, its error and shutdown paths, the write queue, threads and promises of the client connection: bytes that arrive are read in order and writes succeed.
- `LogFileCollection`'s sharing of file objects and the file mutex: files are identified by their path, and the daemon has one thread.
- Printing of IP addresses and of timestamps: parameters, asked to be free of quotes and newlines where the verdict depends on it.
- Log files deleted or changed by others while the daemon is up.
- The stream client, the C++ and the Python client programs: they send what the C client sends, under another name; the end-to-end theorem is stated for any name.
- Process control of the system tests (building, starting and stopping the daemon, time limits).
- EndToEnd.SharedFileVerdict: for the program's own bytes to have been seen in full they must all arrive while the daemon is up and the connection stands; it says nothing about a program that was cut off.
- Daemon.HaltsExactlyOnFatalBytes: the daemon's memory and file descriptors are unbounded, so nothing else brings it down.

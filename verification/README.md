# A verified model of the Vito local root service

The service is a small daemon that runs as root, accepts commands from one allowed user over a Unix
socket, streams their output back as newline-delimited JSON, and can replace its own binary with a newer
release. This project models the parts of it where order, interleaving, failure or parsing decide whether
it keeps its promises, and proves those promises for every input, every interleaving and every failure.

`dafny verify dfyconfig.toml` checks the whole project.

## How the project is laid out

| file | what it models |
|---|---|
| `Admission.dfy`, `Server.dfy` | accept loop, handler goroutines, `Shutdown`, restart channel, updates and `main` as a step system; and the server object in the shape of its source, each goroutine a method between whose atomic operations the others move |
| `Streaming.dfy`, `Progress.dfy`, `Fidelity.dfy` | two output pumps and the handler sharing one connection through a mutex: invariant, absence of deadlock and of endless work, and what a client reads |
| `Executor.dfy` | the pump's loop over its reused buffer |
| `Utf8.dfy`, `Json.dfy`, `Protocol.dfy` | responses as JSON lines: printer, an RFC 8259 parser for such lines, and their round trip |
| `Request.dfy`, `Connection.dfy` | the bounded request reader and validation; a connection from its request through the command or the action to its last response |
| `Versions.dfy`, `History.dfy` | version strings, their order, and histories of updates |
| `Disk.dfy`, `Replace.dfy`, `Extract.dfy`, `Update.dfy` | a file system whose every call may fail, with a crash allowed after each one; replace by rename, extraction, the whole update and its progress reports |
| `Environment.dfy`, `Assets.dfy`, `Paths.dfy` | environment merge, choice of a release asset, path joining |
| `Text.dfy`, `Decimal.dfy`, `Options.dfy` | shared string functions, decimal notation, `Option` |

In `Utf8`, `Json`, `Protocol`, `Request`, `Executor`, `Streaming` and `Fidelity` a `char` stands for one
byte; the lemmas there hold for any characters. Elsewhere a `char` is one Unicode character; `Connection`
hands strings over character by character, which is exact for ASCII.

Failing system calls, sizes of reads and writes, peer credentials, exit codes, cancellation and the
release server's answers are arbitrary: methods choose them freely, step systems allow every choice.

## Main results

* **Admission.** In every reachable state the tokens in `connSem` are the counted handlers, those between
  `Done` and release, and the loop's own token (`Admitted`). "Server at maximum capacity" is answered
  only while handlers hold every token. After the listener closes at most one more handler starts.
* **What "all connections drained" means.** It is not that no handler runs afterwards. At the moment
  `wg.Wait` sees zero, a handler can run later exactly if the loop has an admissible connection in hand that
  it has not counted (`DrainedExactly`); `DrainedThenStarted` is such a run, and `ReturnedThenDrained` the
  other case.
* **Restart.** A handler requests a restart if and only if it has replaced the binary
  (`Server.HandleConnection`). Whatever the goroutines do, `main` ends for a restart only if an update was
  applied, and then the complete, sound payload of the last one is at the binary's path, of a release newer
  than the running version (`Server.Run`). This composes the request reader, the update on the failing file
  system, the restart channel and the drain; `RestartNeedsReplacement` is the statement about every
  reachable state.
* **Crashes of the daemon.** At every point a crash could have left behind in any run, the binary is the
  first one or the complete, sound payload of an update that was applied (`Server.CrashPoints`).
* **One connection.** For every byte stream and every failure, what is sent is a prescribed sequence of
  responses up to the first failed write (`HandleConnection`), and the client reads exactly those before it
  (`CarriesRead`). The prescription is written out with the protocol's own words, apart from the functions
  that compute the answers (`AnsweredExactly`, `StoryTexts`, `LineExactly`).
* **How a command ended.** In every finished run without a failed write, the response the client reads last
  has the type "exit" and the very code of the command, or the type "error" and the reason (`LastSaysHow`).
* **Streaming.** At every moment of every interleaving a client reads exactly a prefix of the logged
  responses, never a torn or mixed line (`ClientSees`); a finished run delivers both outputs and one exit
  or error (`Delivered`); after a failed write the command is cancelled and no byte follows
  (`AfterFailure`). No schedule deadlocks (`Completes`), and only finitely many actions of an infinite run
  change anything (`Settles`). The two pumps and the handler, run on pipes and a connection in any order,
  follow the step system (`RunCommand`).
* **Byte fidelity.** A command's output reaches its client unchanged in every undisturbed run if and only if
  it is ASCII (`FaithfulExactly`): a read may return any piece of a character. In one run it does so if and
  only if each chunk by itself was valid UTF-8 (`FaithfulRun`).
* **Replacement.** At every point a crash can leave behind, the binary is the old one or the complete, sound
  new one, through a single replacement (`AtomicReplace`) and through a whole update (`PerformUpdate`). An
  update that reports no success has not touched it at any point. What the client is told is a function of
  the course of the update (`HandleUpdate`, `FiveStories`). What is installed is the first matching entry:
  all of it, or its first 524288000 bytes if it is longer (`PayloadIs`).
* **Success.** If no call on the file system fails, a replacement and an update succeed exactly under a
  condition on their inputs (`AtomicReplace`, `Install`), and a request for an update replaces the binary
  exactly if there is a newer release with an asset for the platform, no cancellation, and that condition
  (`HandleConnection`).
* **Versions.** Over all strings the version test is the order of ranks, a strict weak order
  (`IsNewerVersion`, `StrictWeakOrder`). "dev" and "" are offered every release with a version and are
  offered to nobody (`NoVersionIsLowest`). Parsing inverts printing exactly below 2^63 (`ParsePrint`). A
  pre-release or build suffix is ignored exactly when it has no dot, and makes the version *newer* when it
  has one (`SuffixOrder`), so "1.0.0" is never offered to a host on "1.0.0-rc.1".
* **Histories.** The running version never goes back in any history. The installed one can, when two
  updates run before a restart: some event can lower it exactly if it is above the running version by more
  than the smallest step (`DowngradeExactly`). With one update per process it climbs, and the number of
  applied updates is bounded by the number of distinct ranks.
* **Environment.** For every name whatever, and every order of the request's map, the merged environment is
  determined (`MergeEnv`). The thirteen protected names and the two protected prefixes are those of the
  source in every spelling, and no other ASCII name is protected (`BlockedExactly`). The simple rule "the request's value if admissible, else the parent's" fails for
  a non-empty name exactly if the value of the request's empty key spells it with a value other than the
  parent's (`SimpleRuleExactly`).

## Where the code and its documentation differ

The model follows the code in each case.

* The comment above `isNewerVersion` (`internal/updater/updater.go:195-196`) speaks of string comparison;
  the code compares numbers. "Always consider updates available" (line 198) does not hold for the tags
  "" and "dev".
* `README.md:146` says that the stream always ends with an exit or error response. `TerminatesExactly`
  shows that this holds exactly for refused requests and commands. An update to a newer
  release that is cancelled before its download ends with no response at all, and no other does (`FiveStories`).
* `README.md` shows `latest_version` in a "downloading" message; progress responses leave it out
  (`internal/server/handler.go:213-221`).
* `README.md` calls the `command` field required; the code accepts a request that has only an action.
* `cmd/vito-root-service/main.go:88-92` exits with code 0 "for systemd restart", while the unit file asks
  for a restart on failure only; the next connection then starts the service through its socket.
* The comment on `FindAssetForPlatform` lists archive names. The code asks whether a name *contains* the
  pattern, so the result is an archive exactly if no asset matches or the first match is one
  (`FindAssetForPlatform`, `ChecksumIsChosen`). Besides the matches, the fallback takes exactly archives
  with more text after the platform's name, for "arm" an "arm64" archive (`FallbackExactly`, `ArmTakesArm64`).
* The filter on environment keys (`internal/server/handler.go:89-93`) is there to keep "=" out of names. It
  admits the empty key, whose value then spells the name: `{"": "X=1"}` sets "=X" (`EmptyKeySetsAName`).
* `sanitizePath` rejects every name but "." below "/" and below ".", and also harmless names that start
  with ".." such as "..data" (`SanitizeExactly`, `HarmlessIsRefused`).

## Model

| member | source | states |
|---|---|---|
| Admission.Admitted | internal/server/server.go:213-256 | in every reachable state: tokens, wait group and handlers balance; live handlers <= wait group <= tokens <= capacity; every handler serves the allowed uid; every accepted connection is a handler, a refusal, a rejection or the one in hand |
| Admission.AccountsStep | internal/server/server.go:238-245 | each step of loop and handlers keeps the balance, given the order of the two defers and the gap between token and wg.Add |
| Admission.InvStep | internal/server/server.go:120-148 | each step of any goroutine keeps the whole invariant |
| Admission.InvRun | internal/server/server.go:213-256 | so does each interleaving |
| Admission.BusyOnlyWhenFull | internal/server/server.go:246-254 | a capacity rejection happens only while handlers hold all tokens |
| Admission.DefersAreSafe | internal/server/server.go:242-243 | wg.Done never makes the counter negative, and the deferred receive on connSem never waits |
| Admission.NothingLeaks | internal/server/server.go:238-245 | when all handlers are gone no token and no count is left behind |
| Admission.AtMostOneMore | internal/server/server.go:120-139 | after the listener closes at most one more handler starts, and none if the loop has no connection in hand |
| Admission.ReturnedOnlyShrinks | internal/server/server.go:213-220 | once the loop has returned the number of live handlers never grows |
| Admission.IdleStaysIdle | internal/server/server.go:127-139 | with nothing admissible in hand an empty wait group means no handler ever again |
| Admission.OneMoreStarts | internal/server/server.go:213-245 | otherwise some run starts one more handler |
| Admission.DrainedExactly | internal/server/server.go:127-139 | in any run, when wg.Wait sees zero: a handler can run later iff the loop has an admissible, uncounted connection in hand |
| Admission.ReturnedThenDrained | internal/server/server.go:127-139 | in any run, if the loop has returned when wg.Wait sees zero, no handler runs from then on |
| Admission.DrainedThenStarted | internal/server/server.go:127-139 | a run in which a handler starts after "drained" was reported |
| Admission.RestartNeedsReplacement | cmd/vito-root-service/main.go:70-79 | in every reachable state with a pending or taken restart, the binary on the disk is what the last successful update put there, sound and of a release newer than the running version; the slot never holds two requests |
| Admission.AskNeverWaits | internal/server/server.go:72-78 | a handler that replaced the binary can always ask, and then exactly one request is pending |
| Admission.RestartHappens | cmd/vito-root-service/main.go:70-79 | such a state is reachable for every update that may be applied |
| Admission.BinaryIsLast | internal/updater/updater.go:155-170 | in every run the binary is the first one or that of the last successful update |
| Admission.AppliedAre | internal/updater/updater.go:155-186 | the applied updates of a state are those of the run that led to it, in order |
| Server.Server.constructor | internal/server/server.go:49-63 | the new server, with 100 connections for a limit of zero or less |
| Server.Server.AuthorizeConnection | internal/server/server.go:224-236 | exactly the allowed uid passes; a stranger with credentials is told "unauthorized: connection rejected" as an error, one without is told nothing |
| Server.Server.TakeToken | internal/server/server.go:239-254 | a token is taken exactly if there is room, else the client is told "server at maximum capacity" as an error |
| Server.Server.RunAcceptLoop | internal/server/server.go:213-256 | on any list of what AcceptUnix offers, with the other goroutines moving between its operations: the whole list is taken unless the listener is closed, each connection of the allowed user got a handler or a rejection, each other one a refusal, limits and uid hold |
| Server.Server.Admit | internal/server/server.go:238-254 | the select: token, then wg.Add, then go, each a step of the system whatever happens in between |
| Server.Server.RequestRestart | internal/server/server.go:72-78 | the non-blocking send: afterwards exactly one request is pending, whatever was before |
| Server.Server.GroupDone | internal/server/server.go:243 | the deferred wg.Done: under any interference the counter stays non-negative |
| Server.Server.ReleaseToken | internal/server/server.go:242 | the deferred receive: under any interference it has an element to take |
| Server.Server.ServeConnection | internal/server/server.go:241-245 | a handler goroutine from start to end: the prescribed responses are sent, it is counted down and gives its token back exactly once |
| Server.Server.HandleConnection | internal/server/handler.go:200-253 | the prescribed responses are sent, and a handler replaces the binary iff it then asks for a restart, whatever the others do during the delay; the replacement is by the update of its own connection |
| Server.Server.AwaitStop | cmd/vito-root-service/main.go:70-79 | main goes on exactly if a signal or a restart request has come, and the signal is no request |
| Server.Server.Shutdown | internal/server/server.go:120-139 | close, then drained (only after wg.Wait returned) or timed out |
| Server.Server.Run | cmd/vito-root-service/main.go:70-93 | the rest of main under any interference: it waits on exactly as long as there is neither a signal nor a request; it ends for a restart only if an update was applied, and then the complete, sound payload of the last applied one, of a newer release, is at the binary's path; the exit code is 0 iff the handlers were seen gone before the deadline |
| Server.Server.CrashPoints | internal/updater/download.go:264-268 | in every run, at every point a crash could have left behind, the binary is the first one or the complete, sound payload of an applied update of a newer release |
| Executor.Pipe.Read | internal/executor/executor.go:98 | one read into the front of the buffer, of any size |
| Executor.ReadPipe | internal/executor/executor.go:92-106 | the chunks handed on are non-empty, at most 4096 bytes, and in order exactly what was taken from the pipe, although one buffer is reused; without a callback nothing is read |
| Streaming.ChannelStep | internal/server/handler.go:112-121 | each step keeps: the connection carries the finished lines and a piece of the one under way, and a failed write has cancelled the command |
| Streaming.PumpStep | internal/executor/executor.go:65-78 | each step keeps: a pump's chunks are its logged data plus the pending chunk, and with the rest of the pipe its whole output |
| Streaming.GuardStep | internal/server/handler.go:114-116 | each step keeps: only the holder of writeMu is in the guarded section |
| Streaming.MainStep | internal/executor/executor.go:80-83 | each step keeps the join: after it both pumps are at rest |
| Streaming.ShapeStep | internal/server/handler.go:134-142 | each step keeps: the log is data only, then one final response |
| Streaming.InvStep | internal/server/handler.go:112-142 | each step keeps the whole invariant |
| Streaming.InvRun | internal/server/handler.go:112-142 | so does each interleaving |
| Streaming.CollectRendered | internal/server/handler.go:126-131 | the data of the stdout responses are the stdout chunks in order, likewise stderr |
| Streaming.Delivered | internal/server/handler.go:112-142 | every finished run without a failed write: the wire is the lines of the log, its projections are the two outputs as far as read, the last response is the only exit or error |
| Streaming.EndOfRun | internal/executor/executor.go:80-91 | in every finished run the last logged response carries the ending that an action of this run brought: the code or error of its wait, or the reason of its failed start |
| Streaming.ClientSees | internal/server/handler.go:114-121 | at every moment, broken or not, the client reads exactly a prefix of the log |
| Streaming.BrokenRun | internal/server/handler.go:117-120 | after a failed write nothing is added to the wire |
| Streaming.AfterFailure | internal/server/handler.go:117-120 | after a failed write the command stays cancelled and the client keeps a proper prefix |
| Progress.StepDescends | internal/executor/executor.go:65-91 | every action but empty reads and cancellation descends a well-founded measure |
| Progress.Settles | internal/executor/executor.go:65-91 | in every infinite run all actions from some point on are empty reads or cancellations |
| Progress.Completes | internal/executor/executor.go:65-91 | from every reachable state a run to the end exists for every read width; it reads everything if nothing was given up before |
| Fidelity.CollectCleaned | internal/executor/executor.go:99-101 | the client collects the chunks with invalid bytes replaced |
| Fidelity.LastSaysHow | internal/server/handler.go:134-142 | every finished run without a failed write: the last response read from the wire has the type "exit" and the code of the run's wait, or the type "error", no code and the sanitized reason |
| Fidelity.SanitizedExactly | internal/executor/executor.go:99-101 | replacing changes nothing exactly if every chunk is valid |
| Fidelity.FaithfulRun | internal/executor/executor.go:94-105 | in one run, client output equals command output iff each chunk is valid UTF-8 |
| Fidelity.SlowRun | internal/executor/executor.go:94-105 | for every pair of outputs there is an undisturbed run whose reads return one byte each |
| Fidelity.FaithfulExactly | internal/executor/executor.go:94-105 | an output reaches its client unchanged in every undisturbed run iff it is ASCII; the same for stderr |
| Fidelity.AsciiIsFaithful | internal/executor/executor.go:94-105 | ASCII output arrives unchanged however it is cut |
| Fidelity.SplitCharacter | internal/executor/executor.go:94-105 | a run on valid UTF-8 whose client output differs |
| Utf8.SanitizeExactly | internal/protocol/protocol.go:134 | json.Marshal's replacement of invalid bytes is the identity exactly on valid UTF-8 |
| Utf8.AsciiIsValid | internal/protocol/protocol.go:134 | ASCII is valid |
| Utf8.ValidExactly | internal/protocol/protocol.go:134 | text is valid iff it is the encoding of a list of Unicode scalars, section 3 of RFC 3629 |
| Utf8.ReplacementIs | internal/protocol/protocol.go:134 | invalid bytes become U+FFFD |
| Json.DecodeEncode | internal/protocol/protocol.go:133-138 | reading a printed string back gives its sanitized bytes and stops at the closing quote |
| Json.EncodeNoControl | internal/protocol/protocol.go:133-138 | a printed string holds no control byte |
| Json.EncodePlain | internal/protocol/protocol.go:134 | printable ASCII other than quote, backslash, "<", ">" and "&" is printed as it is |
| Json.EscapesAre | internal/protocol/protocol.go:134 | the escape of each kind of other ASCII character |
| Json.ParsePrintInt | internal/protocol/protocol.go:49 | integers of either sign survive printing and parsing |
| Json.IntegersAre | internal/protocol/protocol.go:49 | the digits and the sign of a printed integer |
| Json.ParsePrintObject | internal/protocol/protocol.go:46-54 | an object survives printing and parsing, strings sanitized |
| Protocol.ParseEncode | internal/protocol/protocol.go:46-54 | every response comes back from its line sanitized: omitted fields empty, exit code 0 distinct from no code |
| Protocol.LineOfKind | internal/protocol/protocol.go:46-54 | the bytes of a line: the type, then each member that is not empty under its key in the order of the struct, then a line break |
| Protocol.BodiesAre | internal/protocol/protocol.go:56-89 | which members each kind of response has |
| Protocol.EncodeHasNoBreak | internal/protocol/protocol.go:132-138 | no line break inside a response's line |
| Protocol.ReadWire | internal/protocol/protocol.go:132-144 | any list of responses followed by a piece of a line is read back as the list |
| Protocol.RoundTripExactly | internal/protocol/protocol.go:132-144 | the round trip is the identity exactly if all fields are valid UTF-8 |
| Protocol.CleanExactly | internal/protocol/protocol.go:46-54 | a response is unchanged by sanitizing exactly if its six text fields are valid |
| Protocol.Conn.Write | internal/protocol/protocol.go:139 | a write may stop anywhere; after a failure none gets a byte through |
| Protocol.WriteResponse | internal/protocol/protocol.go:133-144 | success adds exactly one line, failure a proper prefix of it |
| Protocol.CarriesMore | internal/protocol/protocol.go:139-142 | one more write, after a failure or not, keeps that only whole lines and a last piece were sent |
| Protocol.CarriesRead | internal/protocol/protocol.go:133-144 | whatever was sent over a connection, its client reads the responses before the first failed write: all iff none failed |
| Request.Source.Read | internal/protocol/protocol.go:98-101 | a read of any size, its end possibly together with data |
| Request.ReadLine | internal/protocol/protocol.go:97-107 | for all read sizes the outcome is a function of the stream, and at most 10 MB are taken |
| Request.ParseRequest | internal/protocol/protocol.go:97-130 | so is the outcome of the whole parse |
| Request.AcceptedExactly | internal/protocol/protocol.go:109-129 | exactly when a request is accepted: a line within 10 MB that decodes to a command or to one of three actions |
| Request.LineExactly | internal/protocol/protocol.go:97-130 | the outcome for a line break within 10485760 bytes, by what the line decodes to, with the three actions by name |
| Request.NoLineExactly | internal/protocol/protocol.go:101-107 | the outcome for every other stream: too large iff it has 10485760 bytes, else a failed read |
| Request.OnlyThePrefixMatters | internal/protocol/protocol.go:97-107 | bytes after the first line break or beyond 10 MB have no influence |
| Connection.RunCommand | internal/executor/executor.go:31-91 | the goroutines of a command, moving in any order on pipes and a connection with any sizes of reads and writes, make a complete run of the step system that ends as the command does |
| Connection.HandleAction | internal/server/handler.go:146-253 | version, check-update or update: the responses sent, in the protocol's words; the binary is replaced completely or untouched, and if nothing on the disk fails, replaced iff an update was possible |
| Connection.StoryTexts | internal/server/handler.go:200-253 | what an update tells: "failed" without a binary path or a release, "current" if the release is not newer, nothing if cancelled, "failed" without an asset, else "downloading" and then "applied" and "restarting", or "failed"; nothing is replaced in the first four cases |
| Connection.CheckTells | internal/server/handler.go:172-194 | what check-update tells: "failed" without a binary path or a release, "available" iff the release is newer, else "current", with the release's tag |
| Connection.CommandTells | internal/server/handler.go:134-142 | the last response to a command has the type "exit" and the command's code, or "error" and the reason |
| Connection.InstalledIs | internal/updater/download.go:133-179 | an installed binary has at least 102400 bytes, is executable, and is the first regular entry with its base name, up to 524288000 bytes |
| Connection.HandleConnection | internal/server/handler.go:55-142 | for every request stream: the prescribed responses are sent up to the first failed write, a command gets the merged environment, the binary is replaced by a complete newer one or untouched; if nothing on the disk fails, it is replaced iff an update was asked for and possible |
| Connection.AnsweredExactly | internal/server/handler.go:55-142 | what "prescribed responses" means: those of the parsed request, carried by the connection up to the first failed write |
| Connection.TerminatesExactly | internal/server/handler.go:55-163 | the responses of a connection end with an exit or error iff its request was refused or asked for a command |
| Connection.Answerable | internal/server/handler.go:55-163 | every outcome of a request has an answer |
| Versions.CutSuffix | internal/updater/updater.go:228-230 | the part before the first '-' or '+' |
| Versions.ParseVersion | internal/updater/updater.go:222-238 | the loop computes the parts: never empty, all below 2^63 |
| Versions.BottomIsNeverNewer | internal/updater/updater.go:199-201 | "" and "dev" are newer than nothing, although they are parsed like any version |
| Versions.IsNewerVersion | internal/updater/updater.go:197-219 | for all strings, newer iff the rank is strictly higher; for "" and "dev" everything but "" and "dev" is newer, and these are newer than nothing |
| Versions.StrictWeakOrder | internal/updater/updater.go:197-219 | irreflexive, transitive, incomparability is equality of ranks |
| Versions.NumberPrint | internal/updater/updater.go:226-234 | a printed number scans to itself iff it is below 2^63, else to 0, with or without a suffix |
| Versions.NumberInside | internal/updater/updater.go:226-234 | blanks before a number and anything but a digit after it do not matter |
| Versions.NumberNone | internal/updater/updater.go:232-234 | a part without digits is 0 |
| Versions.ParsePrint | internal/updater/updater.go:222-238 | parsing inverts printing iff all numbers are below 2^63 |
| Versions.NormalizePrint | internal/updater/updater.go:188-193 | surrounding space and one leading "v" are removed from any printed version |
| Versions.NormalizeBlanks | internal/updater/updater.go:188-193 | spaces, tabs and line breaks around a tag with "v" go |
| Versions.AgreesWithSemVer | internal/updater/updater.go:203-219 | on X.Y.Z forms the test is numeric precedence, section 11 item 2 of Semantic Versioning 2.0.0 |
| Versions.SuffixParts | internal/updater/updater.go:222-231 | a suffix is dropped up to its first dot, and each dot adds a part |
| Versions.PlainSuffixIgnored | internal/updater/updater.go:222-231 | a suffix after "-" or "+" without a dot changes nothing |
| Versions.SuffixOrder | internal/updater/updater.go:197-238 | a suffixed version is newer than the plain one iff the suffix has a dot, and never older |
| Versions.ReleaseCandidateIsStuck | internal/updater/updater.go:197-238 | "1.0.0" is not newer than "1.0.0-rc.1", the reverse holds |
| History.RunningNeverGoesBack | internal/updater/updater.go:98-109 | no history lowers the running version, nor installs anything older than it |
| History.NoVersionIsLowest | internal/updater/updater.go:199-201 | a host on "dev" or "" is offered every printed version with or without "v"; tags without a version are offered to nobody |
| History.RestartRaises | internal/updater/updater.go:80-186 | an applied update and its restart strictly raise the running version |
| History.InstalledClimbs | internal/updater/updater.go:80-186 | with one update per process the installed version never goes back and applied tags climb strictly |
| History.UpdatesAreBounded | internal/updater/updater.go:80-186 | the number of applied updates is at most the number of distinct ranks among the tags |
| History.RepeatIsCurrent | internal/updater/updater.go:98-109 | asking again for a release of the running rank changes nothing |
| History.DowngradeExactly | internal/updater/updater.go:80-186 | for any host, some event can lower the installed version iff it is above the running one and not its direct successor |
| History.SuccIsNext | internal/updater/updater.go:203-219 | a rank is above another iff it is its successor or above it |
| History.DowngradeHappens | internal/updater/updater.go:80-186 | a history in which that happens |
| Disk.Disk.Remove | internal/updater/download.go:223 | removal of one file, or a recorded failure |
| Disk.Disk.Open | internal/updater/download.go:237 | create or truncate, with mode and umask |
| Disk.Disk.WriteAt | internal/updater/download.go:242 | a write that may stop early |
| Disk.Disk.SetMeta | internal/updater/download.go:259 | change of mode or owner |
| Disk.Disk.Rename | internal/updater/download.go:265 | the atomic step |
| Disk.Disk.MkdirTemp | internal/updater/download.go:39 | a new empty directory, or failure |
| Disk.Disk.RemoveAll | internal/updater/download.go:184 | everything under a directory goes, or a recorded failure |
| Disk.ExecutableExactly | internal/updater/download.go:202 | executable means one of the three bits |
| Replace.ValidateBinary | internal/updater/download.go:190-206 | a file that can be examined is accepted iff it has at least 100 KiB and an executable bit, and each rejection names its reason |
| Replace.TempIsNotTarget | internal/updater/download.go:217-220 | the temporary path is never the target, for any spelling of it |
| Replace.TempPathIs | internal/updater/download.go:217-219 | for a clean target: the same text up to the last separator, then ".", the name and ".new" |
| Replace.Create | internal/updater/download.go:222-239 | an empty temporary file, nothing else touched at any point |
| Replace.Fill | internal/updater/download.go:210-247 | the temporary file gets the source's bytes and mode; if nothing fails, iff there is a source other than it and no directory in its place |
| Replace.Copy | internal/updater/download.go:242 | on success the destination holds the source's bytes, whatever the sizes of the writes |
| Replace.CheckCopy | internal/updater/download.go:249-262 | the copy is sound, or it is removed |
| Replace.Stage | internal/updater/download.go:210-262 | before the rename only the temporary file differs, at every point |
| Replace.AtomicReplace | internal/updater/download.go:210-271 | old or complete and sound new target at every crash point; on success sound, equal to the source, no temporary file; on failure target untouched at every point and no temporary file unless a removal failed; if no call fails, success iff the source is sound under the umask and no directory is in the way, and then with the source's mode and the old target's owner |
| Extract.FirstMatchDecides | internal/updater/download.go:133-146 | entries after the first match have no influence |
| Extract.FirstMatchIsFirst | internal/updater/download.go:133-146 | the entry taken is the first regular one whose base name is the binary's; none only if there is none |
| Extract.StaleTailExactly | internal/updater/download.go:154-161 | writing without truncation replaces the old contents fully iff they were not longer |
| Extract.CopyLimited | internal/updater/download.go:160 | at most the first 524288000 bytes, written over what was there |
| Extract.WriteEntry | internal/updater/download.go:154-176 | a written entry has at least 102400 bytes and the mode 0755; only its path changes; if no call fails, it is written iff it is large enough and its path no directory |
| Extract.ExtractBinary | internal/updater/download.go:116-179 | the first regular entry with the base name decides: its data up to 524288000 bytes are written or an error is returned; no match is "not found"; if no call fails, success iff the archive, the entry and the path are in order |
| Extract.Downloader.DownloadFile | internal/updater/download.go:62-91 | only the destination changes |
| Extract.Downloader.DownloadAndExtract | internal/updater/download.go:37-58 | everything happens inside a new directory |
| Extract.Downloader.Cleanup | internal/updater/download.go:182-187 | the directory goes with all its contents, and tempDir is reset |
| Update.OffersNewer | internal/updater/updater.go:98-101 | the version test on normalized versions |
| Update.CheckUpdate | internal/updater/updater.go:48-76 | "available" iff the version test of PerformUpdate passes |
| Update.Client.Send | internal/server/handler.go:213-221 | each notice becomes one response on the connection, whatever writes failed before |
| Update.SiblingUnder | internal/updater/download.go:217-220 | for a clean path the temporary file is inside a directory iff the target is |
| Update.OnlyTheBinary | internal/updater/updater.go:141-185 | a replacement followed by the cleanup changes the binary only |
| Update.PayloadIs | internal/updater/download.go:133-160 | the payload is the data of the first match, all of them up to 524288000 bytes, else exactly the first 524288000 |
| Update.Fetch | internal/updater/updater.go:141-153 | download and extraction: the payload under the temporary directory, nothing outside it touched; if no call fails, iff the directory is new and the archive in order |
| Update.Swap | internal/updater/updater.go:155-170 | the replacement by what was fetched: payload installed or binary untouched; if no call fails, iff no directory is in the way and the umask leaves it executable |
| Update.NothingLeft | internal/updater/updater.go:141-185 | a failed one followed by the cleanup changes nothing |
| Update.Install | internal/updater/updater.go:141-185 | download, extraction, replacement and deferred cleanup: payload installed, or binary untouched at every point; old or complete and sound at every crash point; nothing else changes unless a removal failed; if no call fails, installed iff feasible |
| Update.Updater.Decide | internal/updater/updater.go:82-133 | which step ends the update before the download, what is told then and which result it has: no release, nothing newer, cancelled, nothing for the platform |
| Update.Updater.PerformUpdate | internal/updater/updater.go:80-186 | what is told in each course of events, what is installed, what is left on the disk; a refused update leaves the disk alone; if no call fails, applied iff it gets to the download and is feasible |
| Update.HandleUpdate | internal/server/handler.go:200-253 | exactly the story of its course is told; the binary is replaced by a newer, sound, complete one, or untouched at every point, even after failed removals |
| Update.FiveStories | internal/server/handler.go:200-253 | there are five stories; "restarting" is told iff the binary was replaced, nothing at all iff an update to a newer release was cancelled before its download |
| Update.HandleCheckUpdate | internal/server/handler.go:172-194 | exactly one notice: failed, available iff the version test passes, or current |
| Environment.IsBlockedEnvVar | internal/server/handler.go:42-53 | the loop decides the block list case-insensitively |
| Environment.BlockedExactly | internal/server/handler.go:20-53 | an ASCII key is blocked iff it is one of thirteen names or starts with "LD_" or "BASH_FUNC_", in letters of either case |
| Environment.OrdinaryNameExactly | internal/server/handler.go:86-99 | in a merged environment, every ASCII name without "=" has the request's value if it is there, without NUL and not one of those, else the parent's |
| Environment.ListedKeepParent | internal/server/handler.go:94-97 | "PATH" and each other of the thirteen names keeps the parent's value in every spelling |
| Environment.LookupAppended | internal/server/handler.go:98 | an appended entry with a non-empty key is found under its key and no other name |
| Environment.LookupUnnamed | internal/server/handler.go:98 | an appended entry with the empty key is found under the name its value spells, and no other |
| Environment.MergeEnv | internal/server/handler.go:86-99 | for every iteration order and every name: the request's value if admissible, what the empty key's value spells, else the parent's |
| Environment.SimpleRuleExactly | internal/server/handler.go:86-99 | in a merged environment, a non-empty name has the request's admissible value or the parent's, except iff the empty key's value spells that name with a value other than the parent's |
| Environment.EmptyKeySetsAName | internal/server/handler.go:86-99 | the request {"": "X=1"} sets "=X" in every environment merged into an empty one |
| Environment.OrderDoesNotMatter | internal/server/handler.go:88 | all iteration orders give the same lookups |
| Environment.BlockedKeepsParent | internal/server/handler.go:94-97 | blocked names keep the parent's value in every spelling |
| Environment.LoaderVariablesAreBlocked | internal/server/handler.go:36-40 | any spelling of LD_ or BASH_FUNC_ followed by anything is blocked |
| Assets.ShortPatternsSuffice | internal/updater/github.go:91-105 | four patterns select as the two short ones do |
| Assets.ExactExactly | internal/updater/github.go:91-105 | among ASCII names, a match holds os, "-" or "_", arch and ".tar.gz" in letters of either case |
| Assets.FallbackFolds | internal/updater/github.go:108-120 | a fallback holds os, "-" or "_" and arch, and ends with ".tar.gz" |
| Assets.FindAssetForPlatform | internal/updater/github.go:86-123 | the first exact match, else the first fallback, else an error iff there is neither; an archive iff there is no exact match or the first one is an archive |
| Assets.ChecksumIsChosen | internal/updater/github.go:98-105 | in any list, a checksum file listed before every other match is chosen |
| Assets.FallbackExactly | internal/updater/github.go:108-120 | among the assets that do not match, the fallback takes exactly those with more text between the platform's name and the extension |
| Assets.LongerIsTaken | internal/updater/github.go:108-120 | for any names without dots and dashes, the fallback for one architecture takes the archive of every architecture whose name is longer |
| Assets.ArmTakesArm64 | internal/updater/github.go:108-120 | on "arm" it takes the archive for "arm64", on any operating system |
| Paths.Clean | internal/updater/download.go:287 | never empty, rooted iff the argument is |
| Paths.CleanIdempotent | internal/updater/download.go:287 | cleaning keeps the elements and is idempotent |
| Paths.DotVanishes | internal/updater/download.go:287 | "" and "." between elements are dropped |
| Paths.DotDotCancels | internal/updater/download.go:287 | ".." cancels the element before it, wherever the two stand |
| Paths.RootStops | internal/updater/download.go:287 | ".." at the root is dropped |
| Paths.NormalIsClean | internal/updater/download.go:287 | nothing else changes: a path with ".." only at its start is clean |
| Paths.BaseExactly | internal/updater/download.go:143 | Base is the last element whatever surrounds it |
| Paths.JoinedValue | internal/updater/download.go:291 | the joined path of an admitted name, case by case |
| Paths.JoinedBase | internal/updater/download.go:217-219 | joining a plain name gives a path whose last element is the name, whatever the directory |
| Paths.SiblingPath | internal/updater/download.go:217-219 | next to a clean path the joined name follows the same text up to the last separator |
| Paths.SanitizeExactly | internal/updater/download.go:285-297 | which names are accepted, and that the result is the cleaned base or the base, a separator and elements other than ".." |
| Paths.HarmlessIsRefused | internal/updater/download.go:285-297 | "..data" is refused below every base, "data" below "/" |
| Paths.SanitizeOne | internal/updater/download.go:149 | one plain element is accepted unchanged below an ordinary directory |

## Left out

- HTTP, the GitHub API, gzip and tar decoding: the release, the asset list, the entries and the tarball's bytes are arbitrary inputs.
- Sockets, peer credentials, systemd activation, process groups, signals and grace timers: operating system behaviour; peer, exit code and cancellation are arbitrary.
- Decoding of requests: `encoding/json`'s decoder is an arbitrary function from the line to a request or an error.
- JSON white space, fractions, exponents and surrogate escapes: the printer never emits them, so the parser of responses refuses them.
- Power loss: there is no fsync in the source, so only crashes of the process are modelled.
- Overlapping updates: they share one temporary path without a lock; `AtomicReplace` and `PerformUpdate` are stated for one update at a time.
- Symbolic and hard links, and directories other than the temporary one.
- Update.Updater.PerformUpdate: requires a clean temporary directory name that is not above the binary or its temporary file, and a binary not named "update.tar.gz", which would be written over the tarball it comes from.
- Update.HandleUpdate: has the same requirement; the `message` of its responses is arbitrary, and version strings go into responses character by character, which is exact for ASCII.
- Executor.ReadPipe: one pump by itself; `Connection.RunCommand` runs both against the connection. A read of zero bytes without an error is left to the step system, where it changes nothing.
- Streaming.AfterFailure: takes a failed write to be final, as it is on a stream socket whose peer is gone.
- Environment.MergeEnv: says nothing about values with NUL, which `os/exec` refuses to start with.
- Disk: a path is its spelling; two spellings of one file count as two paths, and a command's own changes to files are not modelled.
- Server.Server.ServeConnection: the other goroutines move before and after the work of a connection, not during it, so that updates do not overlap.
- Server.Server.RunAcceptLoop: stated for any finite list of offers to the endless loop.
- Versions.ParseVersion: version strings are taken as sequences of Unicode characters, and a number longer than the scanner's limit of 2^30 characters is not considered.
- Case mapping outside ASCII, except for the characters whose upper or lower case is ASCII.
- Configuration, logging, flags, shell scripts and unit files: plumbing or one-branch facts.

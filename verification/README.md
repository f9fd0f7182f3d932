# boxsh in Dafny

boxsh is an MCP/JSON-RPC server that runs shell commands in a pool of forked
workers, file tools on background threads and PTY sessions. This project models
the parts of it that are protocol, state and arithmetic, and proves what they
promise.

| files | component |
|---|---|
| `WorkerChannel`, `WorkerPool` | coordinator and worker over two FIFO channels: requests, cancel markers, replies, crashes, respawns; the pool's methods |
| `EventLoopSpec`, `EventLoopRuns`, `EventLoopTheorems`, `EventLoop` | the loop above it: the buffered command, tool threads, `in_flight`, cancellation, exits |
| `Text`, `LineEndings`, `FuzzyMatch`, `EditEngine`, `EditTool`, `EditResult`, `EditOrder` | the `edit` tool: line endings and BOM, exact and fuzzy matching, overlap check, application; what is written and what is refused; when the order of the edits matters |
| `Decimal`, `LineReader`, `HeaderFields`, `TransportTheorems`, `NewlineTransport` | newline-delimited and Content-Length framed input, and `write_msg` |
| `TerminalLog`, `StatusProbe`, `StatusSession` | the bounded raw log with delta reads, the status-probe scanner, and the probes of a whole session |
| `Utf8`, `CodePoints`, `HeadTail` | UTF-8 validity, sanitising, character boundaries, two-ended reduction of long output |
| `JsonEscape`, `ResultTrim`, `Doubles`, `ResultBudget`, `ResultMessage` | the encoded-size budget of one result, with shares rounded in double precision |
| `Base64` | the encoder for images and the decoder of `write` |
| `FileLines`, `ReadPaging` | the paged `read` |
| `CloneChanges` | the clone-snapshot diff of the Python SDK |

A concurrent protocol is a state machine over its steps, and a run is a sequence
of states; the loops and objects of the source are methods and classes proved
against functions on values. `Requests.Call` carries a serial number (its
position among the accepted calls) beside the client's id, so that calls with
equal ids stay distinguishable. Bytes are `char` in the text modules and
integers below 256 in the encoding modules.

## What does not hold

Where a promise fails, the code is modelled as it is; the first lemma named
below shows a failing input or run, the second states exactly when the promise
holds.

| promise | fails at | holds exactly when |
|---|---|---|
| One command is held while every worker is busy (`src/rpc.cpp:3129-3130`); but the reading loop also runs after a tool completion or an interrupted poll, with the slot still full | `SlotCanBeOverwritten` | `DrainFromFullSlotConserves`, `RunConserves` |
| A cancellation reaches the call with its id | `FirstOfTwoIsMissed` | `CancelReachesIff` |
| A no-op edit leaves the file untouched | `NoOpRewritesMixedEndings` | `NoOpEdit` |
| The order of the edits does not matter | `BlankEditsDependOnTheSort`, `SuccessDependsOnTheSort` | `OneOutcomeIff` |
| The transport mode is that of the stream | `ShortFirstRead` | `ModeFromPartialInput`, `FramedRoundTripIff` |
| A header block without a usable length is skipped | `LeadingNewlineIsMalformed` | never: `MalformedHeaderBlocksTheReader` |
| The kept head is valid UTF-8 (serialising one that is not is an error of the JSON library) | `HeadCanSplitACharacter` | `HeadIsValidIff` |
| A cut keeps both ends | `TailCanVanish` | `TailVanishesIff` |
| A cut value stays within its share; a share of 0 means "do not trim" | `ZeroShareOverruns`, `RoundedShareOverruns` | `KeptWithinShareIff`, `ZeroShareIff` |
| A message over its budget is cut | `OverBudgetPasses` | `EnforceBudget` (first postcondition) |
| Reads repeat nothing and lose nothing (`docs/usage.md:1056`) | `ReadAheadSkips` | `SkipsSilentlyIff`, `NothingMissedIff` |
| A worker that dies is replaced (`README.md:29`) | `IdleDeathLosesACommand` | `ReplacedIff`, `DiedIdleStays` |
| A marker in the output completes a pending probe | `CutMarkerIsMissed` | `ChunkSatisfiesExactly`, `PendingUntilVisible` |
| A completed probe carries the status of its own command | `SecondProbeTakesTheFirstStatus` | `CompletedProbeCarries`, `WhoseAnswer` |
| Whatever differs in the clone is reported | `FileToDirectoryIsSilent` | `UnreportedIsSameIff` |

## Model

| member | source | states |
|---|---|---|
| `WorkerChannel.StepKeepsInv` | `src/worker_pool.cpp:401-467` | Dispatch, cancel, receive, finish, activity on the socket, crash and collect each keep the link invariant: stale markers lie in front of the undelivered request, a running worker runs the request of its slot, a pending reply belongs to it |
| `WorkerChannel.RunKeepsInv` | `src/worker_pool.cpp:582-680` | The invariant holds in every state of every interleaving of coordinator and worker |
| `WorkerChannel.StoppedOnlyByItsOwnCancel` | `src/worker_pool.cpp:300-308` | In every run, activity on the socket stops a worker only when the client has cancelled the very request it is running |
| `WorkerChannel.CancelledCommandCanBeStopped` | `src/worker_pool.cpp:300-308` | And it can be stopped: in every run, a worker that runs a request has activity on its socket if and only if the client has cancelled that request |
| `WorkerChannel.CancelledRequestIsFollowed` | `src/worker_pool.cpp:401-411` | In every run, a request still on its way to the worker is followed by a marker of its own if and only if it was cancelled |
| `WorkerChannel.NoStaleMarkerReachesARunningCommand` | `src/worker_pool.cpp:407-411` | In every run, the markers of earlier requests have been consumed before the next request starts; what a running command can still see is its own cancellation |
| `WorkerChannel.CollectedReplyBelongsToTheSlot` | `src/worker_pool.cpp:639-680` | In every run, a collected reply is the reply to the request the slot holds, and it is suppressed exactly when that request was cancelled |
| `WorkerChannel.CrashedMeansUnfinished` | `src/worker_pool.cpp:644-670` | In every run, a collection reports a crash if and only if the worker never finished that request; a reply left by a worker that died later is still read |
| `WorkerChannel.CrashReportHasCause` | `src/worker_pool.cpp:644-670` | A crash is reported only if the process died while it held the request, or the request was cancelled |
| `WorkerChannel.SlotHoldsItsRequest` | `src/worker_pool.cpp:601-605` | From its dispatch until its collection a slot holds the same request |
| `WorkerChannel.CollectedOnce` | `src/worker_pool.cpp:671-673` | No dispatch is collected twice |
| `WorkerChannel.BusyLinkProgresses` | `src/worker_pool.cpp:401-467` | A busy slot is never stuck: its worker can move or the coordinator can collect |
| `WorkerPool.DispatchKeepsPool` | `src/worker_pool.cpp:582-608` | Sending a command to the first idle worker keeps the invariant of every link |
| `WorkerPool.CancelKeepsPool` | `src/worker_pool.cpp:626-637` | Cancelling by id keeps the invariant of every link |
| `WorkerPool.Pool.TryDispatch` | `src/worker_pool.cpp:582-608` | Takes the first slot that is not busy, and only that one; false when none is free or when the write fails, and then no slot changes |
| `WorkerPool.Pool.IdleCount` | `src/worker_pool.cpp:610-615` | The number of idle slots, which is 0 exactly when every slot is busy |
| `WorkerPool.Pool.BusyEntries` | `src/worker_pool.cpp:617-624` | The busy slots in order, each once |
| `WorkerPool.Pool.Cancel` | `src/worker_pool.cpp:626-637` | Flags the first busy slot with this id and, when its worker is alive, makes the channel to it one marker longer; false, and nothing changes, when no slot has the id |
| `WorkerPool.Pool.Collect` | `src/worker_pool.cpp:639-680` | Reads the reply, or respawns a worker that has gone; frees the slot and says whether the answer is withheld |
| `EventLoopRuns.LoopStepKeepsInv` | `src/rpc.cpp:3206-3352` | Every step of the loop and of the workers keeps the invariant: each accepted call is in exactly one place (or in the ledger of losses), in_flight is busy workers plus pending tools plus unsent calls, and cancellation flags agree with what was cancelled |
| `EventLoopTheorems.LoopRunKeepsInv` | `src/rpc.cpp:3206-3352` | The invariant holds in every state of every run |
| `EventLoopTheorems.RunConserves` | `src/rpc.cpp:3206-3352` | In every run each accepted call is in exactly one of buffered slot, worker, tool thread, answered, silently cancelled if and only if no step of the run overwrote the full slot, wrote to a dead worker or read an unreadable tool payload |
| `EventLoopTheorems.SlotCanBeOverwritten` | `src/rpc.cpp:3267-3271` | A run of one worker and a tool completion in which a second command replaces the buffered one, which is then never answered |
| `EventLoopTheorems.DrainFromEmptySlotConserves` | `src/rpc.cpp:3223-3274` | Entered with the slot empty and no idle worker dead, the reading loop loses no call, whatever lines are buffered |
| `EventLoopTheorems.DrainFromFullSlotConserves` | `src/rpc.cpp:3223-3274` | Entered with the slot full and every worker busy, it loses the buffered call exactly when a command line comes before that call is cancelled |
| `EventLoopTheorems.DrainHandlesInOrder` | `src/rpc.cpp:3223-3274` | The reading loop handles the lines in order, each once, and stops only behind the first command that finds every worker busy; exactly the lines behind it stay unread |
| `EventLoopTheorems.EveryCallIsAccepted` | `src/rpc.cpp:3223-3274` | In every run the accepted calls are exactly the calls that were read, in order |
| `EventLoopTheorems.EveryLineIsReplied` | `src/rpc.cpp:3235-3262` | In every run each protocol request and each malformed line has got exactly its own reply, in order |
| `EventLoopTheorems.WritesSucceedWhileIdleWorkersSurvive` | `src/rpc.cpp:3214-3218` | While workers die only before they have replied, no dispatch in the run fails, so the ignored result of try_dispatch does no harm |
| `EventLoopTheorems.ReplacedIff` | `src/worker_pool.cpp:639-680` | A dead worker can be replaced exactly while its slot is busy and it has left no reply; collecting a reply frees the slot and leaves the process dead |
| `EventLoopTheorems.IdleDeathLosesACommand` | `src/rpc.cpp:3278-3286` | A run of two events in which the only worker dies idle and the next command is lost |
| `EventLoopTheorems.DiedIdleStays` | `src/rpc.cpp:3278-3286` | A worker that dies idle is polled by nobody: it stays dead in every later state of the run, and no request is sent to its slot or to any slot behind it |
| `EventLoopTheorems.DeadFirstWorkerLosesEverything` | `src/worker_pool.cpp:582-608` | When that was the first worker, every later command of the run is lost |
| `EventLoopTheorems.EofExitLeavesNothingOutstanding` | `src/rpc.cpp:3276` | The exit at end of input is taken only when no call waits anywhere; without losses every accepted call has been answered or cancelled |
| `EventLoopTheorems.NothingToPollMeansDone` | `src/rpc.cpp:3283-3292` | The exit for want of descriptors is taken only when no call is outstanding, in runs with losses too; the counter then holds exactly the calls that were written to dead workers |
| `EventLoopTheorems.FullSlotMeansAllBusy` | `src/rpc.cpp:3214-3274` | When the loop reaches the poll with a full slot, no worker is free |
| `EventLoopTheorems.AnsweredAtMostOnce` | `src/rpc.cpp:3318-3352` | In every run no call is answered twice, and an answered call is neither outstanding nor cancelled |
| `EventLoopTheorems.CancelReachesIff` | `src/rpc.cpp:3185-3204` | A cancellation reaches an outstanding call exactly when no other call with the same id stands before it: in the slot, or at an earlier worker; clients may reuse ids |
| `EventLoopTheorems.FirstOfTwoIsMissed` | `src/rpc.cpp:3185-3204` | A run of two commands with one id, of which the cancellation takes the later one |
| `EventLoopTheorems.CancelReachesItsCall` | `src/rpc.cpp:3185-3204` | So one whose id names one outstanding call reaches that call, wherever it is |
| `EventLoopTheorems.ReachedIsNeverAnswered` | `src/rpc.cpp:3185-3204` | A call reached by a cancellation is never answered later in the run |
| `EventLoopTheorems.SilencedOnlyIfCancelled` | `src/rpc.cpp:3185-3204` | A call ends without an answer only when the client sent its id in a cancellation while it was outstanding |
| `EventLoop.DrainPlays` | `src/rpc.cpp:3223-3274` | The reading loop is a sequence of loop events, so the theorems on runs apply to it |
| `EventLoop.PlayIsARun` | `src/rpc.cpp:3206-3352` | Every trace the methods below return is a run in the sense of those theorems |
| `EventLoop.PlayConserves` | `src/rpc.cpp:3206-3352` | Playing events from a state that satisfies the invariant conserves the accepted calls exactly when none of the events is a losing one |
| `EventLoop.Loop.constructor` | `src/rpc.cpp:3114-3131` | A new loop satisfies the invariant and has lost nothing |
| `EventLoop.Loop.SendBufferedCommand` | `src/rpc.cpp:3214-3218` | Sends the buffered call when a worker is free, counts it even when the write fails |
| `EventLoop.Loop.CancelCall` | `src/rpc.cpp:3185-3204` | Buffered slot first, then workers, then every tool thread with the id |
| `EventLoop.Loop.StartTool` | `src/rpc.cpp:3135-3177` | A pending entry and one more in flight, or an immediate answer when no thread can be started |
| `EventLoop.Loop.ReadLines` | `src/rpc.cpp:3223-3274` | The reading loop equals its specification Drain and leaves unread what follows the command that found no worker |
| `EventLoop.Loop.CollectWorkers` | `src/rpc.cpp:3318-3324` | Collecting the ready workers is a sequence of loop events |
| `EventLoop.Loop.CollectTools` | `src/rpc.cpp:3327-3352` | Reading the finished tools and erasing them last to first is a sequence of loop events |
| `EventLoop.Loop.EraseDone` | `src/rpc.cpp:3350-3352` | Erasing from the last index down leaves exactly the entries that are not done, in order |
| `EventLoop.Loop.PollAndServe` | `src/rpc.cpp:3293-3352` | After a poll that is not interrupted, every busy slot that is ready is freed with its call answered or withheld, and every tool whose pipe is ready leaves the list; an interrupted poll leaves all that to the next pass |
| `EventLoop.Loop.Pass` | `src/rpc.cpp:3206-3352` | One pass does what PassStep says: the exact condition of each exit, which lines stay unread, what the poll appends to them, and that every polled worker and tool the poll reports is served: its slot is free or its entry gone, and its call answered or withheld. It is a sequence of loop events |
| `EventLoop.Loop.Run` | `src/rpc.cpp:3206-3352` | For any finite sequence of wake-ups the loop is a run of such passes, each starting where the one before it ended, and a run of the events above: it keeps the invariant, and conserves the accepted calls exactly when no event loses one; at the end of input or for want of descriptors nothing is outstanding |
| `LineEndings.NormalizeLineEndings` | `src/rpc.cpp:2657-2668` | Drops the CR of each CR LF |
| `LineEndings.RestoreLineEndings` | `src/rpc.cpp:2827-2837` | Puts a CR in front of each LF |
| `LineEndings.LfOfCrlf` | `src/rpc.cpp:2827-2837` | Normalising after restoring is the identity on every text |
| `LineEndings.CrlfOfLf` | `src/rpc.cpp:2657-2668` | Restoring after normalising is the identity exactly when every LF follows a CR |
| `LineEndings.HasCrlfMeans` | `src/rpc.cpp:2657-2658` | The file counts as CR LF exactly when some LF has a CR right before it |
| `FuzzyMatch.StripTrailingBlanks` | `src/rpc.cpp:2681-2697` | Line by line loop equals the recursive definition of stripping |
| `FuzzyMatch.StripIdempotent` | `src/rpc.cpp:2681-2697` | Stripping twice is stripping once |
| `FuzzyMatch.StripLeavesNoBlankEnd` | `src/rpc.cpp:2681-2697` | No line of a stripped text ends in a blank |
| `FuzzyMatch.BuildPosMap` | `src/rpc.cpp:2702-2719` | The two-index walk builds the position map |
| `FuzzyMatch.PosMapIsSound` | `src/rpc.cpp:2699-2719` | The map is strictly increasing, one entry longer than the stripped text, stays inside the original, and each stripped character stands at its position in the original |
| `FuzzyMatch.FuzzyRegion` | `src/rpc.cpp:2761-2765` | The region of the original that a fuzzy match selects strips, line by line, to the stripped oldText |
| `EditEngine.LocatedExactlyWhenUnique` | `src/rpc.cpp:2741-2773` | Matching succeeds exactly when oldText occurs once, or does not occur and its stripped form occurs once in the stripped content |
| `EditEngine.LocatedRegion` | `src/rpc.cpp:2741-2774` | A located region lies inside the content and equals oldText, or strips to the stripped oldText |
| `EditEngine.FuzzyRegionEnds` | `src/rpc.cpp:2699-2719` | A fuzzy region begins at a character that stripping keeps and ends before one, or behind the last one of the file: blanks that trail the match are replaced with it, except at the very end of the file |
| `EditEngine.EmptyMatchExactly` | `src/rpc.cpp:2745-2765` | A match is empty exactly when oldText is all blanks and so is the content |
| `EditEngine.LocateEdit` | `src/rpc.cpp:2741-2774` | Exact search, then fuzzy search through the map, with both uniqueness checks |
| `EditEngine.NoOverlapAtAll` | `src/rpc.cpp:2780-2786` | Checking neighbours excludes every overlap |
| `EditEngine.ApplyInReverse` | `src/rpc.cpp:2809-2825` | Replacing in place from the last match to the first equals the simultaneous left-to-right substitution |
| `EditEngine.SubstAtMatch` | `src/rpc.cpp:2809-2825` | In the result each match region holds its new text |
| `EditEngine.SubstAtEnd` | `src/rpc.cpp:2809-2825` | Everything outside the matches survives, in order |
| `EditEngine.SubstIdentity` | `src/rpc.cpp:2809-2825` | Replacing every match by itself changes nothing |
| `EditTool.Edit` | `src/rpc.cpp:2651-2852` | BOM and CRLF handling, matching, overlap check, application and restoration together give an allowed outcome |
| `EditResult.MatchCarriesItsEdit` | `src/rpc.cpp:2735-2774` | Each located match has the region found for its own oldText, and its text is the newText of that edit, with LF line ends in a CR LF file and as it is otherwise |
| `EditResult.OneEditWrites` | `src/rpc.cpp:2809-2841` | One edit: the error of the search, or the file rebuilt from what is before the located region, the newText and what is behind it |
| `EditResult.EveryEditIsWritten` | `src/rpc.cpp:2809-2825` | If several edits succeed, the written text holds the newText of every one of them |
| `EditResult.RebuiltFile` | `src/rpc.cpp:2827-2841` | The file that is written has the BOM of the original, and then the text, with a CR before every LF exactly if the original had one somewhere |
| `EditResult.RefusalIsFirst` | `src/rpc.cpp:2735-2786` | An error is about the first edit, in the order given, that is empty, not found or ambiguous, and says which; overlap is reported only when there is none |
| `EditOrder.OneOutcomeIff` | `src/rpc.cpp:2741-2825` | For located edits the result is the same under every order of the edits and every sort if and only if the matches are settled: the non-empty ones overlap, or none is empty, or no non-empty one starts with the empty ones and the texts these insert commute in pairs |
| `EditOrder.OverlapIsRefused` | `src/rpc.cpp:2780-2786` | When two non-empty matches overlap, every order and every sort ends in the overlap error |
| `EditOrder.OrderDoesNotMatter` | `src/rpc.cpp:2777-2786` | With settled matches (or edits that are not located) the same edits in another order succeed in the same cases and write the same bytes |
| `EditOrder.VisibleEditsAreSettled` | `src/rpc.cpp:2741-2774` | Matches are settled whenever each edit, or the file, shows something visible |
| `EditOrder.SuccessDependsOnTheSort` | `src/rpc.cpp:2778-2786` | Two edits of a file of blanks that succeed or are refused, depending on how the sort leaves equal positions |
| `EditTool.BlankEditsDependOnTheSort` | `src/rpc.cpp:2778-2786` | Two blank edits of an empty file have two outcomes, depending on how the sort leaves equal positions |
| `EditTool.RebuildUnchanged` | `src/rpc.cpp:2827-2841` | Rebuilding the unchanged content gives the file back exactly when it has no CR LF or every LF follows a CR |
| `EditTool.NoOpEdit` | `src/rpc.cpp:2843-2852` | Edits that put back what they match leave the file alone in exactly those cases |
| `EditTool.NoOpRewritesMixedEndings` | `src/rpc.cpp:2827-2841` | A file of one CR LF and one bare LF that a no-op edit rewrites |
| `LineReader.LineSource.FillFrom` | `src/rpc.cpp:2936-2959` | Appends what is read until the source would block, ends or overflows the 64 MiB buffer |
| `NewlineTransport.FillTakesUntilStop` | `src/rpc.cpp:2936-2959` | Filling takes the results up to the first that ends it and appends all their data; it answers false exactly at the end of file, at an error or at a chunk too large for the buffer, and then input has ended |
| `LineReader.LineSource.FindLine` | `src/rpc.cpp:2967-2978` | Answers whether a line or a frame is complete and moves the scanned mark |
| `LineReader.LineSource.TakeLine` | `src/rpc.cpp:2961-3050` | Returns the next line or body and removes it from the buffer |
| `LineReader.LineSource.ParseContentLength` | `src/rpc.cpp:3052-3082` | Field by field loop over the header, case-insensitive name, atoi of the value |
| `HeaderFields.ContentLengthIsFirst` | `src/rpc.cpp:3052-3082` | Of the fields of a header block the first length field decides, whatever stands around it; a block without one has none |
| `HeaderFields.FieldGivesItsNumber` | `src/rpc.cpp:3064-3078` | The length field, in any spelling of its name and with any blanks before the number, gives the number; another field gives nothing |
| `TransportTheorems.LinesAppend` | `src/rpc.cpp:3012-3024` | Splitting does not depend on where the input is cut |
| `TransportTheorems.NewlineModeSplitsTheInput` | `src/rpc.cpp:2967-3024` | Any interleaving of fill, has_line and get_line over any chunking yields the lines of the whole input, all of them once has_line is false |
| `NewlineTransport.LinesOfWritten` | `src/rpc.cpp:3012-3024` | The lines of a text of bodies, each ended by LF or CR LF, are those bodies if and only if no body ended by a bare LF ends in CR itself |
| `NewlineTransport.NewlineRoundTrip` | `src/rpc.cpp:2967-3024` | Such bodies come back in order under any interleaving of fill, has_line and get_line, all of them exactly when has_line is false |
| `TransportTheorems.ModeFromPartialInput` | `src/rpc.cpp:2996-3010` | The mode decided on partial input is the mode of the stream exactly unless the stream is framed and less than the prefix has arrived |
| `TransportTheorems.FrameSeenWhenComplete` | `src/rpc.cpp:3027-3050` | A frame is seen when, and only when, all of it has arrived |
| `TransportTheorems.FramedRoundTrip` | `src/rpc.cpp:3098-3109` | Whatever bodies write_msg frames, delivered in any chunks to a reader that is not asked too early, are taken in order; all of them, leaving an empty buffer, exactly when has_line is false |
| `TransportTheorems.FramedRoundTripIff` | `src/rpc.cpp:2996-3109` | Once everything has been delivered and has_line is false, the bodies have come back if and only if the reader was never asked while it held 1 to 14 bytes of the first prefix |
| `TransportTheorems.EarlyAskFixesNewlineMode` | `src/rpc.cpp:2996-3010` | A reader asked at such a moment has left framed mode for good |
| `TransportTheorems.ShortFirstRead` | `src/rpc.cpp:2996-3010` | A frame in two deliveries, the reader asked in between, that ends in newline mode |
| `Decimal.AtoiOfToString` | `src/rpc.cpp:3100-3101` | Printing a length and parsing it with atoi is the identity below 2^31 |
| `Decimal.SignedNumber` | `src/rpc.cpp:3072-3076` | A sign in front of the number is read, so that a negative length is one |
| `TransportTheorems.MalformedHeaderBlocksTheReader` | `src/rpc.cpp:3027-3044` | After a header block without a usable length has_line is false whatever arrives, so the skip in get_framed is never reached from the loop |
| `TransportTheorems.MalformedHeaderIsDropped` | `src/rpc.cpp:3037-3044` | Asked for a line all the same, the reader drops exactly that header block |
| `TransportTheorems.LeadingNewlineIsMalformed` | `src/rpc.cpp:2996-3010` | A line feed before the first header is skipped by mode detection but makes the header malformed |
| `TerminalLog.RetainedIsRecentHistory` | `src/terminal.cpp:264-276` | For every sequence of appends: the ring holds the history from log_base, dropped equals log_base, and its size stays between min(history, limit) and limit plus slack |
| `TerminalLog.TrimsAreRare` | `src/terminal.cpp:70-73` | In every run the front is moved less often than the output holds slacks, where trimming on every append would move it each time |
| `TerminalLog.DropsToTheLimit` | `src/terminal.cpp:264-276` | An append drops something exactly when the log outgrows limit plus slack, and then all but the limit |
| `TerminalLog.SlackIsAnEighth` | `src/terminal.cpp:269` | The slack is an eighth of the limit, and 64 KiB at least |
| `TerminalLog.SliceIsHistory` | `src/terminal.cpp:286-300` | A slice is the history from its begin to its end, flagged exactly when the cursor asked for lies before what is kept |
| `TerminalLog.CursorlessReadsContinue` | `src/terminal.cpp:509-537` | In every run, whatever reads with a cursor it also holds, a read without one begins where the read before it ended, or later exactly when it is flagged |
| `TerminalLog.PollsCoverHistory` | `src/terminal.cpp:509-537` | So when all reads are without a cursor they never overlap and skip only what a flag announces |
| `TerminalLog.SkipsSilentlyIff` | `src/terminal.cpp:286-300` | A read passes over bytes that it neither returns nor flags exactly when its cursor is given, lies beyond the read cursor and not before what is kept, and there is unread output |
| `TerminalLog.NothingMissedIff` | `src/terminal.cpp:509-537` | For every run: at each moment all bytes before the read cursor have been returned or announced as gone, if and only if no read of the run skips in that way |
| `TerminalLog.ReadAheadSkips` | `src/terminal.cpp:535-537` | A run of three operations in which two bytes are never shown and never flagged |
| `TerminalLog.UnflaggedPollsRebuildHistory` | `src/terminal.cpp:509-537` | Without flags, the reads put together are the whole history |
| `TerminalLog.Session.LogAppend` | `src/terminal.cpp:264-276` | Append and trim |
| `TerminalLog.Session.LogSlice` | `src/terminal.cpp:286-300` | Slice by cursor, read cursor or ring base |
| `TerminalLog.Session.ReadDelta` | `src/terminal.cpp:509-537` | Read and advance the read cursor |
| `StatusProbe.Scanner.ScanStatus` | `src/terminal.cpp:314-346` | Scan the carried tail and the chunk for the first complete marker, then keep a prefix length of bytes |
| `StatusProbe.ChunkSatisfiesExactly` | `src/terminal.cpp:314-346` | A chunk completes an armed probe exactly when a marker of the stream ends in it and is not cut after its first digit |
| `StatusProbe.ConsumedMarkerIsNotSeenAgain` | `src/terminal.cpp:343-346` | Whatever completes a probe has its BEL in the new chunk: a marker already consumed cannot complete a later probe |
| `StatusProbe.PrintedStatusIsRead` | `src/terminal.cpp:314-341` | The marker that the probe line prints for a status is read as that status, up to 1000000; a larger number is no marker |
| `StatusProbe.CompletionIsCounted` | `src/terminal.cpp:332-338` | Exactly the completion of a probe moves the generation that wakes a waiter |
| `StatusProbe.ChunkingDoesNotMatter` | `src/terminal.cpp:314-346` | For a probe armed at any moment, with whatever tail is carried by then, and every chunking of the later output that cuts no marker between its first digit and its BEL, scanning chunk by chunk ends as one scan |
| `StatusProbe.CutMarkerIsMissed` | `src/terminal.cpp:314-346` | A marker that completes a probe in one piece and not when it is cut between its digits |
| `StatusSession.ChunkAnswers` | `src/terminal.cpp:314-346` | A burst completes a pending probe exactly when it has a visible answer (a marker not cut inside its digits), and then with the status of the first one |
| `StatusSession.VisibleMeansUncut` | `src/terminal.cpp:343-346` | A marker lies in the window of the scan exactly when its prefix ends no earlier than the burst begins |
| `StatusSession.PendingUntilVisible` | `src/terminal.cpp:435` | In every run of arming and bursts, however the output is cut, a probe stays pending exactly as long as no visible answer has come since it was armed |
| `StatusSession.CompletedProbeCarries` | `src/terminal.cpp:906-938` | In every run a completed probe carries the first visible answer that came after it was armed |
| `StatusSession.UncutShowsAll` | `src/terminal.cpp:314-346` | A burst that cuts no marker shows all the answers it completes |
| `StatusSession.WhoseAnswer` | `src/terminal.cpp:906-938` | When no marker is cut and the shell answers in order: the answer is its own if no probe so far was armed while another was pending, and an earlier one if another was pending when it was armed |
| `StatusSession.PatientCallerGetsItsOwnStatus` | `src/terminal.cpp:906-938` | A caller who sends no command while a probe is pending gets every command's own status |
| `StatusSession.SecondProbeTakesTheFirstStatus` | `src/terminal.cpp:906-938` | A run of two commands sent at once: the second is reported with the status of the first |
| `Utf8.ValidIsWellFormed` | `src/rpc.cpp:79-111` | The left-to-right test accepts exactly the sequences of section 4 of RFC 3629 |
| `Utf8.IsValidUtf8` | `src/rpc.cpp:79-111` | is_valid_utf8 accepts exactly those sequences |
| `CodePoints.ValidMeansCodePoints` | `src/rpc.cpp:79-111` | It accepts exactly the encodings, as section 3 of RFC 3629 tabulates them, of code points up to U+10FFFF without surrogates |
| `Utf8.EnsureValidUtf8` | `src/io_utils.cpp:52-133` | The loop computes the sanitised text |
| `Utf8.SanitizerContract` | `src/io_utils.cpp:52-133` | The result is always valid, equals the input exactly when that was valid, is stable, and is at most three times as long |
| `Utf8.ValidFrontSurvives` | `src/io_utils.cpp:52-133` | Valid text in front of anything survives as it is |
| `Utf8.StrayByteIsReplaced` | `src/io_utils.cpp:52-133` | A byte at which no character begins is replaced by U+FFFD alone; valid text on both sides of it stays |
| `Utf8.CutIsValidAtBoundary` | `src/rpc.cpp:69-74` | A cut of valid text leaves valid parts exactly when it does not stand before a continuation byte |
| `Utf8.Utf8Floor` | `src/rpc.cpp:69-74` | Moves back over continuation bytes |
| `HeadTail.HeadTailReduce` | `src/rpc.cpp:126-151` | The function: both cuts, both snaps, the degenerate case |
| `HeadTail.ReducedIsValid` | `src/rpc.cpp:126-151` | Valid UTF-8 stays valid UTF-8, marker included |
| `HeadTail.ReducedKeepsBothEnds` | `src/rpc.cpp:126-151` | A true prefix within the head budget, a true suffix of at least half the tail budget, no overlap, and the exact count of the omitted bytes |
| `HeadTail.HeadLosesOnlyALine` | `src/rpc.cpp:130-132` | What is kept in front ends with its last complete line, if it holds one and the cut is not at a line end already; otherwise only the bytes of a split character are given up, at most three |
| `HeadTail.TailLosesOnlyALine` | `src/rpc.cpp:134-142` | What is kept behind begins with the first line that starts in the part its budget cuts off, if one starts there early enough to leave half of the budget and a byte; otherwise it is that whole part |
| `HeadTail.ReducedIsShort` | `src/rpc.cpp:126-151` | Reduced valid text keeps at most the two budgets and three bytes |
| `HeadTail.RenderedInOrder` | `src/rpc.cpp:146-151` | What the client reads is the kept front, the line with the number of missing bytes and the total, and the kept end, in this order; the three parts of the text put together are the text |
| `HeadTail.MarkerSays` | `src/rpc.cpp:147-149` | That line in full |
| `JsonEscape.UnescapeEscape` | `src/rpc.cpp:728-731` | A reader of section 7 of RFC 8259 gets back exactly the bytes that were escaped |
| `JsonEscape.EscapeHasNoControls` | `src/rpc.cpp:728-731` | Escaped text holds no control byte |
| `JsonEscape.EscapeIsShortest` | `src/rpc.cpp:728-753` | No shorter text reads back as the same bytes |
| `JsonEscape.EscapedLen` | `src/rpc.cpp:736-753` | The count equals the length of the escape that is never built |
| `JsonEscape.CostAdds` | `src/rpc.cpp:736-753` | The count is additive |
| `ResultTrim.FitRawBytes` | `src/rpc.cpp:760-782` | Forwards the longest prefix that fits; backwards the longest stretch of whole characters that fits |
| `ResultTrim.TrimToEncodedBudget` | `src/rpc.cpp:791-841` | Untouched when the budget is 0 or suffices; otherwise the two ends the specification CutAt describes and the exact dropped count |
| `ResultTrim.KeptFits` | `src/rpc.cpp:791-841` | The ends do not overlap, the head takes at most half the budget, both together fit it |
| `ResultTrim.WalkStopsAboveTheHead` | `src/rpc.cpp:798-801` | The backward walk never comes down to the head of a value that is over budget |
| `ResultTrim.StretchesUseTheBudget` | `src/rpc.cpp:760-801` | In a valid value over budget the stretches that fit use all but fourteen bytes of the budget |
| `ResultTrim.TextIff` | `src/rpc.cpp:803-812` | The cuts move to line boundaries exactly when no more than a tenth of the first 4096 bytes are control characters |
| `ResultTrim.TailIsValid` | `src/rpc.cpp:760-841` | The kept tail of valid UTF-8 is valid |
| `ResultTrim.HeadIsValidIff` | `src/rpc.cpp:764-769` | The kept head of valid UTF-8 is valid exactly when the first dropped byte does not continue a character |
| `ResultTrim.SnappedHeadIsValid` | `src/rpc.cpp:815-817` | A head cut back to a newline is valid |
| `ResultTrim.HeadCanSplitACharacter` | `src/rpc.cpp:764-769` | A value whose kept head ends inside a character |
| `ResultTrim.TailVanishesIff` | `src/rpc.cpp:818-825` | The snap takes away the whole tail exactly when its only newline is the last byte and it fits the window |
| `ResultTrim.TailCanVanish` | `src/rpc.cpp:818-825` | A value of five bytes whose whole tail the snap takes |
| `Doubles.PortionIsNear` | `src/rpc.cpp:971-976` | Two roundings in double precision leave a proportional share exact or one less, for products below 2^51 of sizes up to 2^53 |
| `ResultBudget.PlanShares` | `src/rpc.cpp:928-968` | The loops compute the plan: text a quarter, small fields whole, the rest a pool |
| `ResultBudget.TextGetsAQuarter` | `src/rpc.cpp:936-943` | The text keeps a quarter of what is available, or all of it if it is shorter |
| `ResultBudget.SmallFieldsAreWhole` | `src/rpc.cpp:945-976` | A field of at most an eighth of the rest is whole, unless such fields alone overrun what is available; then every field has to share, in proportion to its length |
| `ResultBudget.AvailableIsTheRest` | `src/rpc.cpp:928-934` | Envelope, slack and what is available make up the budget; if the envelope leaves no more than the slack, the values get all of that |
| `ResultBudget.SlackIsAnEighth` | `src/rpc.cpp:932` | The slack is an eighth of the budget, and 32 KiB at most |
| `ResultBudget.SharesFit` | `src/rpc.cpp:928-976` | The text share and all field shares, rounded as the code rounds them, together never exceed what is available, whatever the single products are |
| `ResultBudget.SharesUseTheBudget` | `src/rpc.cpp:928-976` | When some field has to be cut, the shares use up what is available, but for one byte at most per field that is cut |
| `ResultBudget.ShareIsNear` | `src/rpc.cpp:971-976` | For products below 2^51 rounding takes at most one byte from the share of a large field and adds none |
| `ResultBudget.TwoIsEnough` | `src/rpc.cpp:971-976` | Exact shares of at least 2 stay positive under every rounding |
| `ResultBudget.EnforceBudget` | `src/rpc.cpp:860-978` | Unchanged exactly up to the budget plus two bytes per candidate; otherwise refused, or every value cut to its share as rounded in double precision |
| `ResultBudget.KeptWithinShareIff` | `src/rpc.cpp:793-796` | A value keeps to its share exactly when the share is positive or the value empty; a value within its share is whole |
| `ResultBudget.CutMessageFits` | `src/rpc.cpp:920-978` | With positive shares the envelope plus everything kept leaves the slack free |
| `ResultBudget.ZeroShareIff` | `src/rpc.cpp:971-976` | The text share is 0 exactly below 4 available bytes; the share of a large field is 0 exactly when its rounded portion is below 1, which happens whenever the exact one is and only when the exact one is below 2 |
| `ResultBudget.ZeroShareOverruns` | `src/rpc.cpp:793-796` | Two fields of which one gets a share of 0, is kept whole and overruns what is available |
| `ResultBudget.RoundedShareOverruns` | `src/rpc.cpp:971-976` | With 49 bytes available an exact share of 1 is rounded to 0, and the field is kept whole |
| `ResultBudget.OverBudgetPasses` | `src/rpc.cpp:903-904` | A message of 100 bytes that passes a budget of 99 |
| `ResultMessage.MarkerLen` | `src/rpc.cpp:834-840` | The encoded length of the marker between the two ends |
| `ResultMessage.SentInOrder` | `src/rpc.cpp:834-840` | What is sent of a cut value is its front, the line with the number of missing bytes and the total, and its end, in this order; the three parts of the value put together are the value, and something is missing |
| `ResultMessage.CutMarkerSays` | `src/rpc.cpp:834-838` | That line in full |
| `ResultMessage.SentMessageFits` | `src/rpc.cpp:969-1006` | The message that is sent after a cut within positive shares, with markers, flags and note, stays within the budget whenever the slack covers them; the final check then never blanks a field |
| `ResultMessage.SlackIsEnough` | `src/rpc.cpp:932-934` | For two payload fields with names of six letters it does from a budget of 5592 bytes up |
| `Base64.B64Encode` | `src/image_resize.cpp:135-148` | The loop over groups of three equals the specification |
| `Base64.EncodedLength` | `src/image_resize.cpp:135-137` | The encoding has 4*ceil(n/3) characters |
| `Base64.LettersInOrder` | `src/image_resize.cpp:132-133` | The letters are the standard's, in its order |
| `Base64.GroupIsOneNumber` | `src/image_resize.cpp:138-146` | Three bytes and their four letters are the same number, in digits of eight and of six bits |
| `Base64.LastGroups` | `src/image_resize.cpp:138-146` | One or two bytes at the end are filled up with zero bits, and padded |
| `Base64.DecodeContent` | `src/rpc.cpp:2464-2493` | The accumulator loop equals the specification of the decoder |
| `Base64.DecodeEncode` | `src/rpc.cpp:2464-2493` | Decoding an encoding gives back every input |
| `Base64.DecodeWrapped` | `src/rpc.cpp:2483-2484` | Line breaks and padding put anywhere into an encoding, or padding left out, do not change what it decodes to |
| `Base64.BreakAnywhere` | `src/rpc.cpp:2483-2484` | A line break put anywhere into any content, even content that is refused, changes nothing |
| `Base64.DecodeOutcome` | `src/rpc.cpp:2485-2488` | Content is refused exactly when it holds a foreign character; n letters decode to floor(6n/8) bytes |
| `FileLines.Utf8SafeTruncate` | `src/rpc.cpp:45-64` | Cuts before the first character that does not fit |
| `FileLines.SafeEndIsFloor` | `src/rpc.cpp:48-60` | In valid text that is the last character boundary within the limit |
| `FileLines.ReadLineCapped` | `src/rpc.cpp:2141-2156` | One line, clipped at the buffer, and the position of the next |
| `FileLines.LinesRebuild` | `src/rpc.cpp:2141-2156` | Lines within the byte budget put the file together again |
| `FileLines.OverlongLineShows` | `src/rpc.cpp:2244-2256` | A line over the byte budget shows its beginning, up to the reserve and the last character that would be cut |
| `ReadPaging.ReadPage` | `src/rpc.cpp:2219-2289` | The collecting loop and the count of the remaining lines give the page of the specification |
| `ReadPaging.ToolRead` | `src/rpc.cpp:2222-2284` | Defaults, the page, and the refusal exactly of text that is not UTF-8 |
| `ReadPaging.PageMakesProgress` | `src/rpc.cpp:2231-2289` | A page inside the file holds at least one line and at most limit, and names the next line exactly when there is one |
| `ReadPaging.PageFits` | `src/rpc.cpp:2237-2256` | No page is larger than the byte budget |
| `ReadPaging.PageIsFull` | `src/rpc.cpp:2231-2256` | A page stops only at the end of the file, at the number of lines asked for, or before a line that would overrun the byte budget; a first line that overruns it alone is shown clipped, and nothing behind it |
| `ReadPaging.WalkShowsEveryLine` | `src/rpc.cpp:2286-2289` | Following next_offset ends and shows every line exactly once and in order, whatever limits are asked for |
| `ReadPaging.WalkRebuildsTheFile` | `src/rpc.cpp:2286-2289` | With every line within the byte budget the pages are the file |
| `ReadPaging.PagesOfValidTextAreValid` | `src/rpc.cpp:2273-2283` | No page of a valid UTF-8 file is refused, even one that shows a clipped line |
| `CloneChanges.ChangeLog.HasDeletedAncestor` | `sdk/py/src/boxsh_py/changes.py:130-136` | Some proper parent is in the set |
| `CloneChanges.ChangeLog.RecordDeletions` | `sdk/py/src/boxsh_py/changes.py:31-41` | The manifest loop equals its specification |
| `CloneChanges.ChangeLog.ScanDirectory` | `sdk/py/src/boxsh_py/changes.py:80-112` | The recursive walk appends exactly what its specification says |
| `CloneChanges.CloneSnapshotChanges` | `sdk/py/src/boxsh_py/changes.py:31-44` | Deletions, then the walk |
| `CloneChanges.DeletedIffTopMissing` | `sdk/py/src/boxsh_py/changes.py:31-41` | The deletions are exactly the base paths that are missing with every parent present |
| `CloneChanges.DeletionsAreTopmost` | `sdk/py/src/boxsh_py/changes.py:35-41` | No deletion lies below another |
| `CloneChanges.DeletionsCoverWhatIsMissing` | `sdk/py/src/boxsh_py/changes.py:31-41` | They cover exactly the base paths the clone lacks |
| `CloneChanges.ScanReports` | `sdk/py/src/boxsh_py/changes.py:80-112` | Exactly the paths whose node differs from the base are reported by the walk, each with its kind |
| `CloneChanges.EntryIsWalked` | `sdk/py/src/boxsh_py/changes.py:88-105` | A name with the whiteout prefix deletes what it names, a whiteout device deletes its own name, and every directory is walked, whether the base has it or not |
| `CloneChanges.PathsRebuild` | `sdk/py/src/boxsh_py/changes.py:31-44` | The paths of the clone are those of the base less the deleted subtrees plus the additions |
| `CloneChanges.ModifiedIff` | `sdk/py/src/boxsh_py/changes.py:108-112` | A modification is a file of the clone that the base has too and not the same there |
| `CloneChanges.UnreportedIsSameIff` | `sdk/py/src/boxsh_py/changes.py:103-107` | A surviving unreported path is the same in both trees exactly unless a file of the base became a directory |
| `CloneChanges.FileToDirectoryIsSilent` | `sdk/py/src/boxsh_py/changes.py:103-107` | A file replaced by an empty directory is not reported at all |
| `CloneChanges.ReportedOnce` | `sdk/py/src/boxsh_py/changes.py:31-44` | No path is reported twice |

## Left out

- Sandboxing, namespaces, seccomp and Seatbelt; process, signal and PTY plumbing; libvterm rendering; wall-clock waits. Worker moves, poll results and deliveries are nondeterministic steps or parameters.
- The length-prefixed wire format between coordinator and worker, partial writes on it, and a failed `fork` when a worker is respawned. A message is one element of a channel.
- A poll error other than an interruption (`src/rpc.cpp:3295-3298`), on which the loop leaves.
- The catch-all recovery around the loop (`src/rpc.cpp:3354-3375`) and exceptions of the JSON library.
- Parsing of JSON requests: the loop takes classified lines. A `tools/call` without an id is answered with id null by the code, although JSON-RPC 2.0, section 4.1, calls such a message a notification; it is a call here.
- Default timeouts and the worker's deadline; `terminal_interrupt` on the cancellation of a tool that submitted a command.
- Edit statistics, writing the edited file, `old_text` shown in error messages.
- EventLoop.Loop.Run: takes a finite list of wake-ups, so it does not model a loop that never ends.
- TransportTheorems.FramedRoundTrip: asks that each frame fits the 64 MiB buffer, beyond which the code refuses it.
- Decimal.AtoiOfToString: models atoi beyond the int range, which C leaves undefined, as strtol saturation followed by narrowing.
- Doubles.PortionIsNear: models rounding by its relative error on 0 and on numbers between 2^-64 and 2^128, which the two operations never leave for sizes up to 2^53; overflow and subnormal numbers do not occur.
- TerminalLog.UnflaggedPollsRebuildHistory: speaks of the raw slices, before status-probe noise is removed from what is shown.
- ResultBudget.SharesFit: takes budgets below 2^51 bytes and values of up to 2^51 bytes together, which doubles hold exactly; the command line allows a budget of at most 512 MiB (`src/main.cpp:251-252`).
- ResultMessage.SentMessageFits: counts an entry that the tool itself has already set under the name of a flag twice, so it bounds the message from above.
- StatusSession.WhoseAnswer: takes shells that answer probes in the order they were sent; a program that prints a marker of its own is not modelled there.
- ResultBudget.EnforceBudget: returns the kept ends and counts; `ResultMessage` puts the marker between them, and has flags, note and the final re-check as sizes.
- HeadTail.HeadTailReduce: returns the parts and the counts; `Render` puts the marker between them.
- FileLines.ReadLineCapped: does not model a NUL byte inside a line, where `getline` data would end early.
- ReadPaging.ReadPage: does not model the hint text after the last line of a truncated page.
- CloneChanges.CloneSnapshotChanges: does not model the final sort by path, symbolic links, special files other than whiteouts, or manifest lines that hold line breaks.
- CloneChanges.PathsRebuild: asks for a clone without whiteout names and devices, which the walk would report as deletions.
- The overlay variant of the diff, image resizing, MIME tables, tool schemas, command-line parsing and the SDK clients: plumbing or easy members.

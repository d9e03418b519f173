# Verified models of the ops-agent-platform backend

Each module models one algorithm of the backend: its data, its loops as they run, and laws that
hold for every input, every run or every interleaving. Loops and objects that change state are
methods and classes proved against specification functions; the laws are lemmas about those
functions. `dafny verify dfyconfig.toml` checks everything.

| files | what they model |
|---|---|
| `text.dfy`, `occurrences.dfy` | Python's `strip`, `splitlines`, `join`, `find`, `count`, `replace(…, 1)` |
| `options.dfy`, `sizes.dfy` | an optional value; sizes of sets |
| `aider_parser.dfy`, `aider_parser_laws.dfy` | the search/replace block parser, its grammar and a printer |
| `aider_apply.dfy`, `aider_laws.dfy`, `aider_refinement.dfy` | the in-memory and on-disk block appliers |
| `pipeline_executor.dfy` | the executor's shared counters under all interleavings |
| `proportional_alloc.dfy` | the benchmark subset's seat apportionment |
| `agent_loop.dfy` | the turn-based agent driver |
| `event_stream.dfy`, `event_stream_laws.dfy` | the SSE event stream and its cursor |
| `diff_walkers.dfy`, `diff_walker_laws.dfy`, `function_scope.dfy` | the diff walkers and the brace scanner of `acceptance_check.py` |
| `utf8_truncate.dfy`, `infra_bursts.dfy` | UTF-8 truncation and burst/backoff bookkeeping of the QA benchmark |
| `chat_history.dfy`, `tool_calls.dfy` | history trimming, role collapsing, streamed tool calls |
| `fallback_targets.dfy` | greedy fallback target selection |
| `otp_phone_write.dfy`, `otp_code_sent.dfy` | the two Kotlin line rewriters of the phone-OTP recipe |

What stays outside is a parameter and may answer anything: the language model, tool handlers,
the clock, the database at each poll, the health probe, file eligibility, and the function
declaration pattern. Regular expressions that the algorithms depend on (markers, diff headers,
hunk headers) are written out as functions on lines.

## Where the code and its description part

The models follow the code. These are the places where that makes a difference:

- The apply contract says that SEARCH must occur exactly once. The code counts non-overlapping
  occurrences, so it also accepts several that overlap. The two agree for exactly the patterns
  without a border (`Occurrences.CountOneIsUniqueIffNoBorder`).
- A file none of whose blocks succeeds is still reported if one of them is a new-file block and one
  can open it (`AiderLaws.FailedNewFileIsReported`). A lone new-file block whose SEARCH is not empty
  so leaves an empty new file (`AiderLaws.LoneFailedNewFile`).
- The in-memory applier is described as mirroring the disk one. It does so exactly when no
  new-file block names an existing file that is unreadable, or blank and not opened by an
  earlier block (`AiderRefinement.DiskRefinesMemory`); `AiderRefinement.BlankFileParts` is a case.
- The added-line walker is said to yield every line with a plus sign. It passes over insertions
  that themselves start with two, and those only (`DiffWalkerLaws.NothingLostExactly`,
  `DiffWalkerLaws.IncrementIsLost`).
- An indented new-file mark is a file name. A printer that indents such names makes the
  round trip hold on everything the parser accepts.
- A shutdown zeroes counters of jobs that are still alive; re-initialising over such jobs can
  leave a saturated executor without a saturation time (`PipelineExecutor.ReinitCanMissSaturation`).
- The watchdog's terminal status is not in the list that closes an event stream
  (`EventStreamLaws.RunClosesExactly`).
- An event that becomes visible behind the cursor is never sent: a poll completes exactly when
  there is none (`EventStreamLaws.PollCompletes`), such an event stays lost
  (`EventStreamLaws.LateEventIsLost`), and there can be one (`EventStreamLaws.LateEventExists`).
- `truncate_utf8` exceeds its limit when the limit is below three and the text does not fit
  (`Utf8Truncate.TruncateUtf8`, `Utf8Truncate.CutCanBeTooLong`).
- The `onCodeSent` rewrite is not idempotent for every brace shape
  (`OtpCodeSent.IdempotentExactly`, `OtpCodeSent.EmptyHookNotSettled`).
- The scope around a hunk is meant to be the function. It is the first braced body at or after the
  declaration, so a function without braces takes the next one along
  (`FunctionScope.BraceFreeBodySwallows`). That body, too, can be relied on exactly when no closing
  brace comes before its opening one (`FunctionScope.ScopeIsBodyExactly`,
  `FunctionScope.StrayBraceOverruns`).

## Model

| member | source | states |
|---|---|---|
| AiderParser.ParseAiderBlocks | apps/backend/app/services/aider_format.py:88-176 | The line state machine returns what the block grammar says, including which of the four errors it raises and where |
| AiderParserLaws.ReadingExactly | apps/backend/app/services/aider_format.py:88-176 | A text is read as these blocks if and only if its lines are laid out as such: markers at their places, no search head elsewhere, each block under the last header above it, and new exactly if the last mark since the block before names its file |
| AiderParserLaws.ErrorsExactly | apps/backend/app/services/aider_format.py:118-174 | Each error exactly on the texts it speaks of: no search head at all, the first one without a header above it and its line number, a block without a divider, a block without a tail |
| AiderParserLaws.KindExactly | apps/backend/app/services/aider_format.py:102-172 | Outside a block a line is a mark, whitespace, a search head, or else a header named by its stripped text |
| AiderParserLaws.NewFileNameExactly | apps/backend/app/services/aider_format.py:71 | A mark is its fixed text, whitespace, a name without whitespace, and whitespace |
| AiderParser.ParseRenderLoose | apps/backend/app/services/aider_format.py:91-115 | Whitespace-only lines before marks, headers and search heads and after tails change nothing: every such rendering of well-formed blocks is read as those blocks |
| AiderParser.ParseRender | apps/backend/app/services/aider_format.py:88-176 | Parsing the printed form of well-formed blocks returns them, with or without repeated file headers |
| AiderParser.ParserRange | apps/backend/app/services/aider_format.py:88-176 | A block list is the reading of some text if and only if it is non-empty and every block is well formed |
| AiderParser.RoundTripExactly | apps/backend/app/services/aider_format.py:88-176 | Printing then parsing is the identity on exactly those lists |
| AiderParser.ReparseIsStable | apps/backend/app/services/aider_format.py:88-176 | Every accepted text has the same reading as the printing of its reading |
| Text.SplitLinesJoin | apps/backend/app/services/aider_format.py:95-160 | Splitting into lines undoes joining, except for one empty last line |
| Text.SplitUnlines | apps/backend/app/services/aider_format.py:95 | Splitting recovers the lines of a newline-terminated text |
| Text.SplitLinesAtBreak | apps/backend/app/services/aider_format.py:95 | A line ends at any line break, and a carriage return with its newline is one |
| Text.TrimExactly | apps/backend/app/services/aider_format.py:102 | Stripping takes off the whitespace at both ends and nothing else |
| Occurrences.CountIsMaximal | apps/backend/app/services/aider_format.py:362 | The non-overlapping count is the largest number of pairwise disjoint occurrences |
| Occurrences.CountZero | apps/backend/app/services/aider_format.py:363 | The count is zero exactly when there is no occurrence |
| Occurrences.CountOne | apps/backend/app/services/aider_format.py:362-384 | The count is one exactly when some occurrence exists and all occurrences overlap the leftmost |
| Occurrences.CountOneIsUniqueIffNoBorder | apps/backend/app/services/aider_format.py:28-29 | "Counted once" means "occurs once" in every text if and only if the pattern has no border |
| AiderApply.ApplyInMemory | apps/backend/app/services/aider_format.py:296-393 | The in-memory loops compute the fold of blocks over file states, with its errors and report |
| AiderApply.Sandbox.ApplyBlocks | apps/backend/app/services/aider_format.py:179-293 | The same fold over the files on disk; afterwards every reported file holds its reported new text, every other file is as before, and the reported old text is what the disk held |
| AiderApply.UniversalAtBreak | apps/backend/app/services/aider_format.py:214 | Text-mode reading turns each of the three line ends into a newline and keeps the lines |
| AiderApply.UniversalHasNoReturn | apps/backend/app/services/aider_format.py:214 | No carriage return is left, and a text without one is unchanged |
| AiderApply.CollectReported | apps/backend/app/services/aider_format.py:386-391 | The closing loop reports the changed files and those a block created |
| AiderApply.AppliedFilesAreChanges | apps/backend/app/services/aider_format.py:386-391 | The list of applied files names each key of the before/after map once |
| AiderLaws.Projection | apps/backend/app/services/aider_format.py:312-384 | A run over many files is, on each file, the run over that file's own blocks |
| AiderLaws.FilesAreIndependent | apps/backend/app/services/aider_format.py:296-393 | Reordering blocks without reordering any file's own keeps the before/after map, each file's errors, the multiset of (file, reason) and of applied files |
| AiderLaws.FinalTextIsFold | apps/backend/app/services/aider_format.py:312-391 | A reported text is the file's successful blocks applied in order to its first text, which is what the first block that can open the file gives it: nothing for a new-file block, the loaded text otherwise |
| AiderLaws.ReportedIffChangedOrNew | apps/backend/app/services/aider_format.py:386-391 | A file is reported if and only if a block can open it and its successful blocks change the first text or one of its blocks, failed or not, is a new-file block |
| AiderLaws.AppliedInOrder | apps/backend/app/services/aider_format.py:386-391 | Applied files are listed in the order in which their first opening blocks come |
| AiderLaws.ErrorPerFailedBlock | apps/backend/app/services/aider_format.py:312-380 | Error indexes strictly increase, and a block has an error if and only if its step failed |
| AiderLaws.BlockTouchesOneText | apps/backend/app/services/aider_format.py:312-384 | A failing block changes no loaded text, a succeeding one only its own file's |
| AiderLaws.EditOutcomes | apps/backend/app/services/aider_format.py:342-384 | An edit succeeds if and only if some occurrence overlaps all others, and is refused as missing exactly without an occurrence and as ambiguous with n exactly if n, at least two, is the largest number of disjoint ones |
| AiderLaws.OutcomeIsEdit | apps/backend/app/services/aider_format.py:236-279 | A block whose file is or can be opened succeeds or fails as its edit does on what the file's successful blocks before it have made of the first text |
| AiderLaws.LoadErrorsOnDisk | apps/backend/app/services/aider_format.py:199-234 | On disk: taken exactly for a new-file block over an existing file not read before, missing exactly for another block over a file neither there nor created before, not UTF-8 exactly for another block over such a file |
| AiderLaws.LoadErrorsInMemory | apps/backend/app/services/aider_format.py:312-340 | In memory: taken exactly over non-blank text not loaded before, missing exactly for a file neither given nor created before |
| AiderLaws.EditReplacesTheMatch | apps/backend/app/services/aider_format.py:362-384 | A successful edit replaces the leftmost occurrence, keeps the text around it, and every other occurrence overlapped it |
| AiderLaws.FailedNewFileIsReported | apps/backend/app/services/aider_format.py:326-391 | A file none of whose blocks succeeds is reported, unchanged, if and only if one of them is a new-file block and one can open it |
| AiderLaws.LoneFailedNewFile | apps/backend/app/services/aider_format.py:326-327 | A lone new-file block with a SEARCH leaves one error and an empty reported file |
| AiderRefinement.DiskRefinesMemory | apps/backend/app/services/aider_format.py:179-393 | Both appliers give the same files, map and errors if and only if no new-file block names an unreadable or blank unopened file |
| AiderRefinement.BlankFileParts | apps/backend/app/services/aider_format.py:199-325 | A new-file block for an existing blank file is refused on disk and fills the file in memory |
| AiderRefinement.RunsAgree | apps/backend/app/services/aider_format.py:179-393 | Without such a block the two runs agree step by step |
| PipelineExecutor.Globals.constructor | apps/backend/app/core/pipeline_executor.py:13-18 | The module starts without an executor and with zero counters |
| PipelineExecutor.Globals.Init | apps/backend/app/core/pipeline_executor.py:22-29 | A second init changes nothing; a non-positive size raises after setting the limit |
| PipelineExecutor.Globals.Shutdown | apps/backend/app/core/pipeline_executor.py:32-43 | All counters are reset and the pool to stop is handed out |
| PipelineExecutor.Globals.RefreshSaturationLocked | apps/backend/app/core/pipeline_executor.py:46-52 | The saturation time is kept, set or cleared by the counters |
| PipelineExecutor.Globals.Reserve | apps/backend/app/core/pipeline_executor.py:83-85 | The critical section before a submission |
| PipelineExecutor.Globals.Rollback | apps/backend/app/core/pipeline_executor.py:88-92 | The critical section after a refused submission |
| PipelineExecutor.Globals.Start | apps/backend/app/core/pipeline_executor.py:55-60 | The critical section before a job runs |
| PipelineExecutor.Globals.End | apps/backend/app/core/pipeline_executor.py:61-66 | The critical section after a job ran |
| PipelineExecutor.AlwaysBounded | apps/backend/app/core/pipeline_executor.py:22-92 | In every interleaving the counters never exceed the jobs truly running and pending |
| PipelineExecutor.DeficitMoves | apps/backend/app/core/pipeline_executor.py:32-92 | Only a shutdown opens a gap between a counter and the truth, only a clamped decrement narrows one |
| PipelineExecutor.ExactKept | apps/backend/app/core/pipeline_executor.py:32-92 | From exact counters no decrement is clamped and every step keeps them exact, a shutdown if and only if nothing is live |
| PipelineExecutor.ExactSinceDrained | apps/backend/app/core/pipeline_executor.py:32-92 | In every run the counters are exact from any drained moment to the next shutdown |
| PipelineExecutor.StampKept | apps/backend/app/core/pipeline_executor.py:22-66 | Every step keeps "stamped if and only if saturated", except exactly an init over enough leftover jobs |
| PipelineExecutor.StampAlwaysRight | apps/backend/app/core/pipeline_executor.py:46-66 | With no init after a shutdown, the stamp is set if and only if the state is saturated, after every step |
| PipelineExecutor.StampIsStartOfStretch | apps/backend/app/core/pipeline_executor.py:46-66 | The stamp is the clock reading of the step since which every state has been saturated |
| PipelineExecutor.ActiveWithinLimit | apps/backend/app/core/pipeline_executor.py:22-66 | Until the first shutdown the active count never exceeds the pool's limit |
| PipelineExecutor.ReinitCanMissSaturation | apps/backend/app/core/pipeline_executor.py:22-43 | A run in which re-initialising leaves a saturated state without a stamp |
| ProportionalAlloc.Allocate | apps/backend/scripts/select_swebench_lite_subset.py:38-63 | The two loops succeed if and only if there are no more repositories than seats, and then return an apportionment |
| ProportionalAlloc.ApportionmentIsUnique | apps/backend/scripts/select_swebench_lite_subset.py:38-63 | The largest-remainder conditions, with ties to the earlier repository, admit at most one result |
| ProportionalAlloc.MostOver | apps/backend/scripts/select_swebench_lite_subset.py:52-55 | The first repository above one seat that overshoots its quota most, if there is one |
| ProportionalAlloc.MostShort | apps/backend/scripts/select_swebench_lite_subset.py:60 | The first repository that falls short of its quota most |
| ProportionalAlloc.GiveOne | apps/backend/scripts/select_swebench_lite_subset.py:58-61 | Adding a seat there keeps the gains the largest remainders, one seat each |
| ProportionalAlloc.TakeOne | apps/backend/scripts/select_swebench_lite_subset.py:49-56 | Taking a seat there keeps the losses the largest overshoots |
| ProportionalAlloc.WithinQuota | apps/backend/scripts/select_swebench_lite_subset.py:45-63 | At least one seat; one, or less than one above the quota; where seats were added, also less than one below it |
| ProportionalAlloc.EqualTasks | apps/backend/scripts/select_swebench_lite_subset.py:49-61 | Repositories with equally many tasks end at most one seat apart, the earlier one ahead where seats were added and the later one where they were taken |
| ProportionalAlloc.WithinCounts | apps/backend/scripts/select_swebench_lite_subset.py:88-90 | With at most as many seats as tasks, no repository gets more seats than it has tasks |
| ProportionalAlloc.MoreTasksMoreSeats | apps/backend/scripts/select_swebench_lite_subset.py:38-63 | A repository with strictly more tasks never ends with fewer seats |
| ProportionalAlloc.SlicesGiveTarget | apps/backend/scripts/select_swebench_lite_subset.py:88-90 | The slices hold exactly the target number of tasks if and only if the pool is that large |
| AgentLoop.RunAgentLoop | apps/backend/app/services/agent_loop.py:549-705 | The loop's turns, prompts, end reason and diff are those of the run the turn rules define; the reason is never missing |
| AgentLoop.CallsSeeAlternatingPrompts | apps/backend/app/services/agent_loop.py:577-697 | Call k sees 2k+1 alternating messages ending with the user, extending what call k-1 saw |
| AgentLoop.CallsGrowByReply | apps/backend/app/services/agent_loop.py:577-697 | The first call sees the prompt alone; each later one what the one before saw, the model's answer, and the message its reply calls for |
| AgentLoop.NextCallTellsReply | apps/backend/app/services/agent_loop.py:613-697 | After a turn the model is told the reminder, that the tool is unknown, that its quota is used up, or the rendered result of what the handler returned or raised |
| AgentLoop.TurnExplained | apps/backend/app/services/agent_loop.py:582-697 | A completed turn was within turns and seconds, was answered without a marker, and had the reply its call and the calls before it demand |
| AgentLoop.EndExplained | apps/backend/app/services/agent_loop.py:582-699 | The end reason is that of the last turn: turns, seconds, a raising or silent model, a marker, or an applied diff |
| AgentLoop.TurnsOnRecord | apps/backend/app/services/agent_loop.py:601-685 | Turn k is on record with its index and answer, followed by its tool result exactly if the tool ran or was refused for quota |
| AgentLoop.CallsWithinBudget | apps/backend/app/services/agent_loop.py:582-699 | Never more model calls than turns, and the turn budget is the reason exactly when all were used |
| AgentLoop.HandlerRunsUpToCap | apps/backend/app/services/agent_loop.py:646-693 | Over a whole run, its last turn included, a tool's handler runs for the first cap-many requests and for no other |
| AgentLoop.DiffEndsTheRun | apps/backend/app/services/agent_loop.py:688-693 | A diff comes from a successful apply in the last turn, no earlier turn had one, and fewer than cap-many were asked for before |
| EventStream.TaskEventStream | apps/backend/app/api/tasks.py:270-432 | The generator sends the frames of the run over its observations and closes when that run does |
| EventStream.SendLogs | apps/backend/app/api/tasks.py:365-373 | One log frame per new event, the cursor ending on the last |
| EventStreamLaws.SentAscending | apps/backend/app/api/tasks.py:293-373 | The events of snapshot and log frames have strictly increasing keys, whatever the table does |
| EventStreamLaws.PollCompletes | apps/backend/app/api/tasks.py:353-373 | A poll leaves everything visible sent if and only if every unsent event lies after the cursor |
| EventStreamLaws.LateEventIsLost | apps/backend/app/api/tasks.py:353-373 | An event not sent and not after the cursor is never sent, whatever the table does from then on |
| EventStreamLaws.LateEventExists | apps/backend/app/api/tasks.py:353-373 | A poll that finds an older event beside the one already sent has such an event |
| EventStreamLaws.SentIsTimeline | apps/backend/app/api/tasks.py:293-373 | If events only appear after older ones, each poll leaves exactly the visible timeline sent |
| EventStreamLaws.StatusChainAndClose | apps/backend/app/api/tasks.py:334-432 | Status frames chain, a closing frame is sent once, last, exactly on closing, and a terminal one carries the status last told |
| EventStreamLaws.RunClosesExactly | apps/backend/app/api/tasks.py:321-381 | A stream is closed if and only if it has seen a timeout, a deletion or one of the three listed statuses, and nothing after the first of these matters; the watchdog's status never closes it |
| EventStreamLaws.LastFrameSaysWhy | apps/backend/app/api/tasks.py:321-432 | The closing frame names the cause in this order: the time limit, the deletion, or the final status and stage |
| EventStreamLaws.SnapshotFirst | apps/backend/app/api/tasks.py:283-312 | The first frame is the snapshot with the status, the timeline and the id of its last event |
| EventStreamLaws.ToldIsLast | apps/backend/app/api/tasks.py:334-351 | The status last told is that of the last poll |
| EventStreamLaws.PollInOrder | apps/backend/app/api/tasks.py:334-413 | A poll adds at most one status frame, then log frames, then at most one other frame |
| EventStreamLaws.QuietSince | apps/backend/app/api/tasks.py:365-413 | The quiet interval is counted from the last heartbeat, the last events sent, or the opening |
| EventStreamLaws.OpenPollSignals | apps/backend/app/api/tasks.py:382-413 | An open poll signals a pause exactly while an approval is pending, and otherwise beats exactly after a quiet interval |
| DiffWalkers.IterAddedLines | apps/backend/app/services/acceptance_check.py:104-117 | Each added line with the file of the last header before it |
| DiffWalkers.IterDiffHunks | apps/backend/app/services/acceptance_check.py:123-152 | The hunks with path, start line and added lines |
| DiffWalkers.WalkersAgree | apps/backend/app/services/acceptance_check.py:104-152 | The two walkers agree if and only if no added line stands between a file header and its first hunk header |
| DiffWalkerLaws.PrintedDiffIsRead | apps/backend/app/services/acceptance_check.py:104-152 | Over a printed diff of any files both walkers find exactly the inserted lines under their path, the hunk walker by hunk with its start line, except lines of three plus signs |
| DiffWalkerLaws.NothingLostExactly | apps/backend/app/services/acceptance_check.py:104-117 | Every inserted line is found if and only if no inserted text starts with two plus signs |
| DiffWalkerLaws.IncrementIsLost | apps/backend/app/services/acceptance_check.py:114-115 | An inserted line `++i;` is passed over |
| DiffWalkerLaws.AddedExactly | apps/backend/app/services/acceptance_check.py:114-117 | An added line starts with a plus sign and not with three |
| DiffWalkerLaws.HeaderPathExactly | apps/backend/app/services/acceptance_check.py:100 | A file header names the path behind the first " b/" with text on either side |
| DiffWalkerLaws.HunkStartExactly | apps/backend/app/services/acceptance_check.py:120-142 | A hunk header is the regular expression's, character by character, and its start the number behind the plus sign |
| DiffWalkers.HeaderRoundTrip | apps/backend/app/services/aider_format.py:419 | The walkers, which read lines, find the path of a printed header if and only if it is non-empty, fits on one line and has no " b/" past its first character |
| DiffWalkers.HunkHeaderRoundTrip | apps/backend/app/services/acceptance_check.py:120-142 | The new-file start line is read back from every hunk header a unified diff prints, with or without lengths |
| FunctionScope.ScopeAroundHunk | apps/backend/app/services/acceptance_check.py:261-291 | The nearest declaration above the hunk to the line where the brace scan stops, or a window without one |
| FunctionScope.ScopeIsBody | apps/backend/app/services/acceptance_check.py:276-291 | With an opening brace first, the scope ends where the first opened brace is closed, or with the file |
| FunctionScope.ScopeIsBodyExactly | apps/backend/app/services/acceptance_check.py:276-291 | Given the text up to the first opening brace, that holds in every file that goes on from there if and only if no closing brace comes before it |
| FunctionScope.NoBraceNoBody | apps/backend/app/services/acceptance_check.py:276-291 | Without an opening brace the scope is the rest of the file |
| FunctionScope.ScopeEndsAtFirstBalance | apps/backend/app/services/acceptance_check.py:276-291 | The scope ends where the count first balances if and only if no earlier line ends with a count of zero while the balance comes before the last line |
| FunctionScope.ZeroLineOverruns | apps/backend/app/services/acceptance_check.py:276-291 | A file in which such a line makes the scope pass the balance |
| FunctionScope.BraceFreeBodySwallows | apps/backend/app/services/acceptance_check.py:276-291 | From a declaration without braces the scan ends exactly where it ends from the next declaration |
| FunctionScope.StrayBraceOverruns | apps/backend/app/services/acceptance_check.py:276-291 | A file in which a stray closing brace makes the scope run past the end of the next function to the end of the file |
| Utf8Truncate.TruncateUtf8 | apps/backend/scripts/run_qa_benchmark.py:183-192 | The text itself if it fits, else dots after the longest whole-code-point prefix, at most three bytes dropped; within the limit exactly if it fit or the limit is at least three |
| Utf8Truncate.CutCanBeTooLong | apps/backend/scripts/run_qa_benchmark.py:187-192 | Two letters cut to one byte become three dots |
| Utf8Truncate.EncodedByTable | apps/backend/scripts/run_qa_benchmark.py:184 | Length, lead and tail bytes and their free bits are those of section 3 of RFC 3629 |
| Utf8Truncate.EncodedInOrder | apps/backend/scripts/run_qa_benchmark.py:184 | The code points of a text are encoded one after the other |
| Utf8Truncate.DecodeEncode | apps/backend/scripts/run_qa_benchmark.py:184-190 | Decoding undoes encoding |
| Utf8Truncate.EncodeDecode | apps/backend/scripts/run_qa_benchmark.py:184-190 | Whatever decodes strictly is the encoding of the result |
| Utf8Truncate.PrefixDecodes | apps/backend/scripts/run_qa_benchmark.py:187-192 | A cut encoding decodes exactly when the cut falls between code points |
| InfraBursts.RunRecords | apps/backend/scripts/run_qa_benchmark.py:2197-2261 | Bursts count whole thresholds in maximal invalid runs, over disjoint windows; the i-th pause is the i-th backoff; the loop stops at the first record with an abort and for its reason |
| InfraBursts.BurstsAreMost | apps/backend/scripts/run_qa_benchmark.py:2197-2201 | With the windows returned, the burst count is the largest number of disjoint windows of consecutive invalid records |
| InfraBursts.AbortExplained | apps/backend/scripts/run_qa_benchmark.py:2199-2261 | The loop stops at a record that completes a burst without a backoff left, or with the backend still gone after the pause, or that finds retrieval broken, and the first of these is the reason |
| InfraBursts.BurstAbortExactly | apps/backend/scripts/run_qa_benchmark.py:2199-2233 | A burst abort happens exactly at burst number backoffs plus one, never with pausing disabled |
| ChatHistory.TrimHistory | apps/backend/app/api/chat.py:502-509 | The longest suffix of at most six exchanges within the character cap |
| ChatHistory.HistoryMessages | apps/backend/app/api/chat.py:511-516 | The closing loop turns each exchange into its question and, if there is one, its answer |
| ChatHistory.QuestionThenAnswer | apps/backend/app/api/chat.py:511-516 | The k-th question comes after the questions and answers before it, its own answer right behind it |
| ChatHistory.MessagesKeepChars | apps/backend/app/api/chat.py:505-516 | The messages hold exactly the characters the cap was counted on |
| ChatHistory.AnthropicMessages | apps/backend/app/api/chat.py:1529-1538 | The maximal same-role groups of history and new message, in order, each joined into one message |
| ChatHistory.ContentsConcat | apps/backend/app/api/chat.py:1531-1536 | A joined message holds its contents in order with one blank line between any two |
| ChatHistory.RequestAlternates | apps/backend/app/api/chat.py:511-516 | For a loaded history the request starts and ends with the user and strictly alternates |
| ToolCalls.Accumulate | apps/backend/app/api/chat.py:1147-1192 | Each call gets its own argument fragments in order, its last id and its last name |
| ToolCalls.RebuiltInOrder | apps/backend/app/api/chat.py:1175-1192 | Later fragments append their arguments and override id and name unless empty |
| ToolCalls.RebuiltFromOne | apps/backend/app/api/chat.py:1175-1192 | One fragment belongs to its index and gives what it holds |
| ToolCalls.OwnInOrder | apps/backend/app/api/chat.py:1175-1192 | A call's own fragments keep their order |
| ToolCalls.InterleavingIrrelevant | apps/backend/app/api/chat.py:1175-1192 | Streams that agree on each call's own fragments rebuild the same calls |
| ToolCalls.AppendCalls | apps/backend/app/api/chat.py:1194-1261 | One assistant message with the calls in index order, then one reply per call in the same order |
| ToolCalls.OneReplyPerCall | apps/backend/app/api/chat.py:1218-1261 | Every rebuilt call is requested at one place and answered at one, under the same id, with what the tool said to its name and arguments |
| FallbackTargets.Gather | apps/backend/app/agents/service.py:212-255 | The usable files, each path once |
| FallbackTargets.CandidatesAre | apps/backend/app/agents/service.py:212-255 | Candidates have distinct usable paths and miss none |
| FallbackTargets.CandidatesInOrder | apps/backend/app/agents/service.py:212-255 | The candidates are the first usable file of each path, in the order found |
| FallbackTargets.FallbackPaths | apps/backend/app/agents/service.py:190-282 | Distinct eligible paths, exactly as many as limit and candidates allow, in the order of the two passes |
| FallbackTargets.Select | apps/backend/app/agents/service.py:259-282 | The picks of the greedy first pass followed by the rest in order |
| FallbackTargets.PickedExactly | apps/backend/app/agents/service.py:259-274 | The first pass picks a candidate if and only if there is room and it reaches the floor or carries a term none picked before carries |
| FallbackTargets.RestFromTheFront | apps/backend/app/agents/service.py:275-282 | The second pass adds new candidates in order, and whatever it leaves out comes after all of them |
| FallbackTargets.EveryTermCarried | apps/backend/app/agents/service.py:264-274 | If the first pass stays below the limit, every term of every candidate is carried by a picked one |
| OtpPhoneWrite.EnsurePhoneWrite | apps/backend/app/services/android_phone_otp_reverification_recipe.py:207-221 | The loop computes the rewrite and says whether a line was inserted |
| OtpPhoneWrite.RewriteIsGuarded | apps/backend/app/services/android_phone_otp_reverification_recipe.py:213-220 | Every flag write of the result has a phone write on its line or the four before |
| OtpPhoneWrite.UnchangedIffGuarded | apps/backend/app/services/android_phone_otp_reverification_recipe.py:213-220 | Nothing is inserted if and only if that holds already |
| OtpPhoneWrite.DeletingGivesInput | apps/backend/app/services/android_phone_otp_reverification_recipe.py:213-220 | Deleting the inserted lines gives the input back |
| OtpPhoneWrite.MarkedAreInserted | apps/backend/app/services/android_phone_otp_reverification_recipe.py:213-219 | Each inserted line is the phone write at the indent of the flag write after it, which had none on its line or the four before |
| OtpPhoneWrite.EnsuredIsIdempotent | apps/backend/app/services/android_phone_otp_reverification_recipe.py:207-251 | A second rewrite gives the same text, whatever its line ends |
| OtpCodeSent.ReplaceOnCodeSentBody | apps/backend/app/services/android_phone_otp_reverification_recipe.py:151-185 | The searches and the splice compute the rewritten text, or leave the text alone, and tell whether it differs |
| OtpCodeSent.FindBodyExactly | apps/backend/app/services/android_phone_otp_reverification_recipe.py:153-175 | The body lies between the first line with a brace among the twelve from the first hook on and the first line after it that leaves no more braces open than closed |
| OtpCodeSent.RewriteSplices | apps/backend/app/services/android_phone_otp_reverification_recipe.py:178-193 | It is replaced by the two new lines at the indent of its first non-blank line, or four deeper than the open line |
| OtpCodeSent.DeltaIsCount | apps/backend/app/services/android_phone_otp_reverification_recipe.py:196-197 | The depth counts every opening brace up and every closing one down |
| OtpCodeSent.RoutesArePlain | apps/backend/app/services/android_phone_otp_reverification_recipe.py:125-134 | Both routes of the recipe fit on one line and hold no brace, which the laws about rewritten text ask of a route |
| OtpCodeSent.UnchangedExactly | apps/backend/app/services/android_phone_otp_reverification_recipe.py:155-185 | The text stays the same if and only if there is no body, or the new body is there already and every line ends with `\n` |
| OtpCodeSent.NetBracesAfter | apps/backend/app/services/android_phone_otp_reverification_recipe.py:168-197 | The text's net brace count changes by exactly that of the removed body |
| OtpCodeSent.IdempotentExactly | apps/backend/app/services/android_phone_otp_reverification_recipe.py:151-185 | A second rewrite gives the same text if and only if the open line opens a brace net and the close line closes them all, or nothing does from there on |
| OtpCodeSent.EmptyHookNotSettled | apps/backend/app/services/android_phone_otp_reverification_recipe.py:151-185 | After an empty one-line hook a second rewrite gives another text |
| OtpCodeSent.UsualShape | apps/backend/app/services/android_phone_otp_reverification_recipe.py:151-185 | With one brace opened and one closed the rewrite is idempotent and keeps the brace count |

## Left out

- ApplyBlocks: distinct names are distinct files; directories in place of files, parent creation and path resolution are not modelled, and writing is that of a platform whose line separator is `\n`.
- ApplyInMemory: the wording of error messages is a reason code.
- Allocate: quotas are exact fractions; floating-point rounding of `raw` is not modelled, nor are negative counts.
- RunAgentLoop: response parsing, prompt rendering and argument decoding are parameters; a successful `apply_diff` whose content is not a dictionary raises in the source and has no counterpart.
- TaskEventStream: event ids are compared by code point in the query and in the filter alike; frame serialisation and the two sleeps are not modelled.
- IterDiffHunks: a hunk keeps its added text as lines, the source joins them; digits are the ASCII ones.
- AppendCalls: argument decoding is part of the tool oracle.
- `Globals`: the executor override, which bypasses every counter, the read-only accessors and the waiting part of shutdown.
- The removed-line and new-file walkers repeat the added-line walker with another prefix.
- The unified diff bodies come from `difflib`, which is not part of this model.
- Cancellation of futures, database sessions, HTTP streaming, heartbeats while a tool runs, and benchmark scoring.

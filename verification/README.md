# Verified models of the fuzzer's stateful cores

This project models, in Dafny, the parts of the repository whose correctness depends on state:

* **The test-case minimizer and trimmer** (`Deletion`, `Minimizer`, `ByteMinimality`, `Trimmer`, `TrimReach`,
  `Machine`): delta debugging on an in-place buffer, with changing block sizes, a shortcut for repeated blocks, and
  bounds that move while the loops run.
* **The coverage map, the favoured queue and the mutation scheduler** (`CoverageMap`, `MapRoutines`, `MapMeaning`,
  `Words`, `Bits`, `TraceMini`, `Scoreboard`, `GreedyCover`, `FavoredQueue`, `QueueIndex`, `HavocBudget`, `BudgetLaws`,
  `ArithDedup`, `BitflipStages`, `TokenRuns`, `ExtrasOverwrite`, `AutoDict`).
* **The fork-server protocol** (`ForkServer`, `PersistentLoop`): fuzzer, server, child, timer and two pipes as
  interleaved steps.
* **The grammar generator's path tree** (`PathTree`, `PathDepth`, `PathNodes`, `SeedFacts`, `SeedStore`) and the climb
  through the reversed grammar (`NodeMapper`).
* **The dictionary line format** (`TokenEscape`, `TokenSpelling`): the writer in libtokencap and the reader in afl-fuzz.

A run of the target is an uninterpreted deterministic function of the input bytes. "Same checksum" is taken as the
acceptance relation itself. Random numbers are arbitrary parameters: a draw function, an oracle, or a chosen value.

Code that works in place is a method or a class here. It is proved equal to a function without the in-place tricks:
no skip shortcut, no second buffer, one byte at a time instead of a word. What the code is for is then proved of that
function.

## What was found

* `minimize` guarantees minimality under deletion of single bytes, and of blocks of every power of two up to about a
  sixteenth of the result, because the last pass that changes nothing includes a deletion stage with all of these block
  lengths. It does not guarantee that no further byte can become `'0'`: a pass that deletes
  nothing ends before its byte stage. A target that accepts just `aabbc`, `aab0c` and `0ab0c` is left with `aab0c`
  (`NotAlwaysByteMinimal`). Input and target tell beforehand of two cases without such a byte: the first pass changes
  nothing (`QuietFirstPass`), or the target never takes back a rejection of `'0'` at one byte when `'0'` is accepted at
  a later one (`SteadyTargetsAreByteMinimal`). In general a byte that can still be replaced was rejected midway through
  the last byte stage, which replaced a later byte after that; so the result is byte-minimal if and only if that stage
  overturned no rejection (`StageExactly`, `MinimizedBytesExactly`); the converse is immediate.
* `trim_case`, when a run is cut short, leaves `q->len` and the buffer already shortened but the file not rewritten.
  File and entry come apart if and only if, among the runs the sweeps would make, one kept a cut before the first that
  asks to stop or reports an error (`TrimCase`, `StopsDecide`); `CutShort` is such a case. The callers stop then.
* The test for built-in values in `maybe_add_auto` is meant to reject a token that is such a value in either byte order.
  Its 16-bit half compares an unsigned value with a sign-extended one. It still rejects every such token but one, the
  bytes `80 ff` (-128 in little-endian order), because every other negative value is the byte-swapped form of a value in
  the table (`MetExactly`, `MissedIsNotMet`). Callers pass tokens of 3 to 32 bytes, so the case does not arise there.
* A persistent target that calls `__afl_persistent_loop` again after the answer 0 is let in once more: counting from 0,
  call n > 0 answers 0 in persistent mode if and only if n is congruent to the limit modulo 2^32 (`AnswersExactly`).
* A text-mode token that begins with NUL is dumped as `""`, which the dictionary loader treats as a fatal error.
  `RoundTrip` gives the exact condition.
* The edge key in `buildChildToParents` (child, NUL, parent) confuses two references only when rule names contain NUL;
  the reversed map is exact if and only if no two references share a key. A rule found is an ancestor in any case
  (`AncestorInGrammar`).
* Replay of a recorded tree never takes the error return while the depth is not negative. With a negative depth it would
  do so exactly on trees in which a reached recorded node has a cut-off word (`expr`, `subquery`, `table_factor`)
  followed by another rule: the cut throws the recorded children away. `ReplayNilExactly` states both directions and
  `SomeTreeFails` exhibits such a tree. Replay passes its depth on unchanged and the program starts with a positive one,
  so the case does not arise there.
* The comment in `RSG.generate` says the root is not chosen for mutation. The code chooses it if and only if the tree
  has at most two nodes; a root is never marked as a favourite, so it is never picked as one (`PickNode`,
  `GenKeepsMark`).

## Model

| member | source | states |
|---|---|---|
| Machine.NextP2Spec | AFL/afl-tmin.c:410-418 | next_p2 gives the least power of two that is not below its argument |
| Machine.NextP2Loop | AFL/afl-fuzz.c:4513-4519 | the doubling loop computes that value |
| Deletion.SkipSound | AFL/afl-tmin.c:510-521 | deleting a block equal to the one before it gives the same input as deleting that one, so the shortcut skips only a repeat |
| Deletion.UnchangedPassRejects | AFL/afl-tmin.c:502-543 | if a sweep changes nothing, the deletion of every block that it passed is rejected |
| Deletion.DeletePassKeeps | AFL/afl-tmin.c:502-543 | a deletion sweep keeps acceptance, keeps what lies before its start, and yields a subsequence |
| Deletion.PassRunsExactly | AFL/afl-fuzz.c:4563-4611 | a sweep that deletes or steps by d runs the target exactly ceil((length - start) / d) times, whatever is deleted |
| Minimizer.DryRun | AFL/afl-tmin.c:1140-1157 | the first run fixes crash mode and reference checksum so that the original input is accepted unless it times out |
| Minimizer.ReplaceSymbol | AFL/afl-tmin.c:586-587 | every occurrence of one byte value in the used part of the buffer becomes '0' |
| Minimizer.Minimizer.RunTarget | AFL/afl-tmin.c:359-405 | the verdict on the bytes handed over: time-outs rejected, crashes by mode, otherwise same checksum |
| Minimizer.Minimizer.NormalizeBlock | AFL/afl-tmin.c:447-468 | one block is zeroed exactly if it was not all '0' and the target accepts the result |
| Minimizer.Minimizer.NormalizeBlocks | AFL/afl-tmin.c:438-472 | stage 0 equals the reference fold over blocks of the chosen length |
| Minimizer.Minimizer.CopyAround | AFL/afl-tmin.c:507-529 | head and tail copied to the scratch buffer are the input without the block |
| Minimizer.Minimizer.TryDelete | AFL/afl-tmin.c:523-541 | the buffer becomes the input without the block exactly if that is accepted |
| Minimizer.Minimizer.RepeatsPrevious | AFL/afl-tmin.c:515-516 | when the block compares equal to the one before it, both deletions give the same input |
| Minimizer.Minimizer.DeleteSweep | AFL/afl-tmin.c:495-543 | the loop with the shortcut equals the sweep that tries every block; its flag says whether anything changed |
| Minimizer.Minimizer.DeleteBlocks | AFL/afl-tmin.c:488-550 | halving the block length until 1 equals the reference deletion stage |
| Minimizer.Minimizer.CountSymbols | AFL/afl-tmin.c:567-572 | a symbol's count is positive exactly if it occurs |
| Minimizer.Minimizer.MinimizeAlphabet | AFL/afl-tmin.c:563-600 | with the symbol table built once, the stage equals trying every symbol that still occurs |
| Minimizer.Minimizer.MinimizeBytes | AFL/afl-tmin.c:616-635 | the two-buffer loop equals trying each byte on the current input |
| Minimizer.Minimizer.Minimize | AFL/afl-tmin.c:423-644 | the whole tool, passes and gotos, terminates with the reference result, which is minimal under block deletion |
| Minimizer.StartBlockIsLongest | AFL/afl-tmin.c:488 | the powers of two up to the first block length are those up to the first that reaches a sixteenth of the input |
| Minimizer.UnchangedStageIsMinimal | AFL/afl-tmin.c:488-557 | a deletion stage that changes nothing shows that blocks of every length from the first down are rejected, at every multiple of their length |
| Minimizer.PassesAreMinimal | AFL/afl-tmin.c:479-642 | from any input and pass number, the passes end minimal under deletion of blocks of all these lengths |
| Minimizer.MinimizedIsBlockMinimal | AFL/afl-tmin.c:488-557 | the final result is minimal under deletion of blocks of every power of two up to the first that reaches a sixteenth of it |
| Minimizer.MinimizedIsOneMinimal | AFL/afl-tmin.c:488-557 | in particular it is 1-minimal |
| Minimizer.PassShrinks | AFL/afl-tmin.c:479-642 | length plus number of bytes other than '0' falls on every pass that repeats |
| Minimizer.MinimizedIsAcceptedAndDerived | AFL/afl-tmin.c:423-644 | the result is accepted if the input was, and is the input with bytes deleted or replaced by '0' |
| Minimizer.SetBlockIsLeast | AFL/afl-tmin.c:438-441 | stage 0 works on blocks of the least power of two that is 4 or more and reaches a 128th of the input |
| Minimizer.SurvivingBlockWasRejected | AFL/afl-tmin.c:438-472 | a byte left other than '0' by stage 0 lies in a block that was rejected on some input between start and result |
| Minimizer.SurvivingSymbolWasRejected | AFL/afl-tmin.c:577-600 | a symbol left after the alphabet stage was rejected on some input between start and result |
| Minimizer.SurvivingByteWasRejected | AFL/afl-tmin.c:618-635 | a byte left other than '0' was rejected on some input between start and result |
| Minimizer.StagesTrackChange | AFL/afl-tmin.c:539-642 | changed_any is set exactly if the pass changed the input |
| ByteMinimality.StageExactly | AFL/afl-tmin.c:616-635 | a byte stage leaves no replaceable byte if and only if it overturns none of its own rejections by a later replacement |
| ByteMinimality.PassesEndWithBytes | AFL/afl-tmin.c:557-642 | the final input is what the last byte stage that ran has left; the pass after it ended before its own |
| ByteMinimality.SurvivorsWereRejected | AFL/afl-tmin.c:557-642 | for whatever is left in the final result other than '0', blanking all bytes of its value and blanking it alone were both rejected on an input from which blanking leads to the result |
| ByteMinimality.MinimizedBytesExactly | AFL/afl-tmin.c:479-642 | the result is minimal under replacing bytes by '0' if and only if the last byte stage overturned no rejection, or put otherwise the byte stage left out at the end would change nothing |
| ByteMinimality.QuietFirstPass | AFL/afl-tmin.c:479-642 | if the first pass changes nothing, no byte of the result can be replaced |
| ByteMinimality.SteadyTargetsAreByteMinimal | AFL/afl-tmin.c:479-642 | on a target where accepting '0' at a later byte never undoes a rejection at an earlier one, every result is byte-minimal |
| ByteMinimality.NotAlwaysByteMinimal | AFL/afl-tmin.c:557-642 | one target and input whose result still has a replaceable byte |
| Trimmer.TrimmedIsFaithful | AFL/afl-fuzz.c:4554-4615 | trimming leaves a subsequence of at least 4 bytes that keeps the first 4 and still gives the recorded checksum if the entry did |
| Trimmer.SweepIsFaithful | AFL/afl-fuzz.c:4556-4611 | the same for one chunk size |
| Trimmer.StartChunkFits | AFL/afl-fuzz.c:4547-4549 | the first chunk is a power of two no longer than the input |
| TrimReach.UntrimmedRejectsAll | AFL/afl-fuzz.c:4545-4615 | if trimming changes nothing, every chunk of every length from a sixteenth to a 1024th of the rounded length, and at least 4, is rejected |
| TrimReach.SweepsToTheEnd | AFL/afl-fuzz.c:4554-4615 | whatever is cut, the last sweep has chunks of which half the length is below 4 or below a 1024th of what is left, rounded up |
| Trimmer.SweepRunsBounded | AFL/afl-fuzz.c:4554-4611 | a chunk-size pass that the loop admits runs the target at most 1023 times |
| Trimmer.StopsDecide | AFL/afl-fuzz.c:4563-4611 | a trimming is ended after a kept run if and only if the first run of its log that stops it comes behind one that gives the recorded checksum |
| Trimmer.CutShort | AFL/afl-fuzz.c:4573-4592 | one input, target and interruption for which that happens |
| Trimmer.Trimming.WriteWithGap | AFL/afl-fuzz.c:2536-2562 | what is written for the target is the buffer without the gap |
| Trimmer.Trimming.CloseGap | AFL/afl-fuzz.c:4586-4592 | the memmove leaves exactly the bytes the target was run on |
| Trimmer.Trimming.RunGap | AFL/afl-fuzz.c:4565-4578 | the target is run on the buffer without the gap, and stop and checksum are judged from that run |
| Trimmer.Trimming.TryGap | AFL/afl-fuzz.c:4565-4604 | a chunk is cut exactly if the run without it gives the recorded checksum |
| Trimmer.Trimming.SweepOne | AFL/afl-fuzz.c:4563-4609 | one round of a sweep keeps what has been run and kept in step with the reference sweep, and says which run ended it |
| Trimmer.Trimming.Sweep | AFL/afl-fuzz.c:4556-4611 | one pass equals the reference sweep and keeps len_p2 the rounded current length |
| Trimmer.Trimming.TrimCase | AFL/afl-fuzz.c:4526-4643 | the runs made are those of the reference trimming up to the first that stops it; the buffer stays faithful; file and entry agree if and only if no run stops the trimming after a cut; the entry is scored again exactly if it changed and nothing was cut short, on the trace of the first kept run; no pass exceeds 1023 runs |
| ForkServer.InitialInv | AFL/llvm_mode/afl-llvm-rt.o.c:103-115 | the state after the handshake satisfies the protocol invariant |
| ForkServer.FuzzerStepInv | AFL/afl-fuzz.c:2397-2468 | every step of run_target keeps the invariant |
| ForkServer.ServerPipeStepInv | AFL/llvm_mode/afl-llvm-rt.o.c:122-175 | the server's reads and writes keep it |
| ForkServer.ServerStartStepInv | AFL/llvm_mode/afl-llvm-rt.o.c:133-158 | forking or waking a child keeps it |
| ForkServer.WriteOffStepInv | AFL/llvm_mode/afl-llvm-rt.o.c:128-131 | reaping a written-off child keeps it |
| ForkServer.ReportStepInv | AFL/llvm_mode/afl-llvm-rt.o.c:164-175 | collecting a wait status keeps it |
| ForkServer.TimerInv | AFL/afl-fuzz.c:6853-6867 | the timeout handler keeps it at any moment the timer is armed |
| ForkServer.StepInv | AFL/llvm_mode/afl-llvm-rt.o.c:103-179 | so does every step of every party |
| ForkServer.ReachableInv | AFL/llvm_mode/afl-llvm-rt.o.c:103-179 | the invariant holds in every state of every run |
| ForkServer.Safety | AFL/llvm_mode/afl-llvm-rt.o.c:103-179 | the two words of a request are pid and status of one process; a death reported is the one the process died; stops are reported in persistent mode only; at most one child is unreaped; no killed child gets SIGCONT; a write-off waits on a child already sent SIGKILL, and no wait is for a child that does not exist |
| ForkServer.TrueDeaths | AFL/llvm_mode/afl-llvm-rt.o.c:164-175 | a death that the fuzzer is told of is the one step by which that process died in the run |
| ForkServer.StepKeepsWords | AFL/llvm_mode/afl-llvm-rt.o.c:164-175 | every step of every party keeps what the status words say true |
| ForkServer.TimerHitsOnlyCurrent | AFL/afl-fuzz.c:6853-6867 | when the handler fires with a pid, that pid is the one unreaped child |
| ForkServer.AlwaysProgress | AFL/afl-fuzz.c:2390-2441 | in every reachable state with a request under way some party's own step is enabled and brings the answer closer |
| ForkServer.NeverSetBack | AFL/afl-fuzz.c:2390-2441 | no step, the timer's included, moves an answer further away |
| PersistentLoop.CounterAfter | AFL/llvm_mode/afl-llvm-rt.o.c:184-234 | the static counter after every number of calls, with 32-bit wrap-around |
| PersistentLoop.AnswersExactly | AFL/llvm_mode/afl-llvm-rt.o.c:184-234 | which calls answer 1 and which stop the target first, for every call number: the first, and in persistent mode each that is not congruent to the limit modulo 2^32 |
| PersistentLoop.RoundsExactly | AFL/llvm_mode/afl-llvm-rt.o.c:184-234 | up to the first answer 0 the loop goes on, and stops itself, on exactly the calls before the last round |
| PersistentLoop.Runtime.Loop | AFL/llvm_mode/afl-llvm-rt.o.c:184-234 | each call of the C function is one step of that counter |
| TraceMini.MinimizeBits | AFL/afl-fuzz.c:1241-1252 | bit i of the result is set exactly if byte i of the trace is not zero |
| TraceMini.SqueezedUnique | AFL/afl-fuzz.c:1237-1252 | the packed form depends only on which bytes are hit |
| Scoreboard.ScoreKeepsInv | AFL/afl-fuzz.c:1265-1307 | a submission keeps: tc_ref is the number of slots held, trace_mini is present exactly if that is positive and equals the hit set, every winner has the least exec_us*len of all that hit the byte; displacing oneself and resubmitting with a smaller factor included |
| GreedyCover.ScoreDecides | AFL/afl-fuzz.c:1265-1307 | an entry submitted takes exactly the bytes it hits whose winner has no smaller factor, and score_changed is set if and only if it takes one |
| Scoreboard.CullCovers | AFL/afl-fuzz.c:1316-1357 | the favoured entries cover every byte with a winner, and both favoured counts are true |
| GreedyCover.CullIsGreedy | AFL/afl-fuzz.c:1341-1357 | exactly the entries are favoured that win a byte which no winner picked at an earlier byte hits |
| GreedyCover.PickedOnce | AFL/afl-fuzz.c:1341-1357 | each of them is picked at one byte only, so it is counted once |
| Scoreboard.AddKeepsGood | AFL/afl-fuzz.c:822-823 | a new entry keeps the invariant and the count of unfuzzed entries |
| Scoreboard.SubmitKeepsGood | AFL/afl-fuzz.c:1265-1307 | a submission keeps winners, counts and, until the next cull is due, cover |
| Scoreboard.CullKeepsGood | AFL/afl-fuzz.c:1316-1366 | culling keeps everything, in dumb mode too |
| Scoreboard.EndFuzzKeepsGood | AFL/afl-fuzz.c:6674-6678 | marking an entry fuzzed keeps both pending counts true |
| Scoreboard.EverySessionIsGood | AFL/afl-fuzz.c:1265-1366 | over every sequence of add, submit, cull and fuzz steps winners, references and the pending counts are right, and cover holds whenever no rescoring is pending |
| GreedyCover.EverySessionIsGreedy | AFL/afl-fuzz.c:1265-1366 | over every sequence of these steps the favoured entries are those of the greedy choice whenever no rescoring is pending |
| FavoredQueue.Fuzzer.AddToQueue | AFL/afl-fuzz.c:804-823 | the linked queue and counters change as the specification's new entry |
| FavoredQueue.Fuzzer.DropWinner | AFL/afl-fuzz.c:1286-1289 | the loser's reference and, at zero, its compact trace go |
| FavoredQueue.Fuzzer.TakeSlot | AFL/afl-fuzz.c:1295-1303 | the winner gains slot, reference and compact trace |
| FavoredQueue.Fuzzer.ScoreOne | AFL/afl-fuzz.c:1275-1305 | one map byte is scored as specified, also when the entry displaces itself |
| FavoredQueue.Fuzzer.UpdateBitmapScore | AFL/afl-fuzz.c:1265-1307 | the loop over the map equals the specification's submission |
| FavoredQueue.Fuzzer.ClearTemp | AFL/afl-fuzz.c:1344-1350 | the favoured entry's bits leave temp_v, with the test for zero bytes |
| FavoredQueue.Fuzzer.CullOne | AFL/afl-fuzz.c:1341-1357 | one map byte is culled as specified |
| FavoredQueue.Fuzzer.CullQueue | AFL/afl-fuzz.c:1316-1366 | the whole function equals the specification's cull |
| FavoredQueue.Fuzzer.EndOfFuzzing | AFL/afl-fuzz.c:6674-6678 | the flags and counts at abandon_entry change as specified |
| QueueIndex.EveryHundredth | AFL/afl-fuzz.c:828-833 | the test for a skip pointer is met exactly at positions 100, 200 and so on |
| QueueIndex.Queue.AddToQueue | AFL/afl-fuzz.c:804-837 | appending keeps next pointers and the next_100 index in step, for any queue length |
| QueueIndex.Queue.Seek | AFL/afl-fuzz.c:6607-6611 | the two seek loops land where plain next steps would, for every tid below queued_paths |
| QueueIndex.Queue.PickTarget | AFL/afl-fuzz.c:6605-6620 | the target is the first suitable entry from tid on, with splicing_with its position, or there is none |
| CoverageMap.WordAnswer | AFL/afl-fuzz.c:933-963 | the tests and the clearing on one 64-bit word equal those on its eight bytes |
| CoverageMap.OneWord | AFL/afl-fuzz.c:933-963 | one round of the loop, with the test on ret, computes the larger answer |
| CoverageMap.HasNewBits | AFL/afl-fuzz.c:907-974 | the word-wise routine equals the byte-wise answer and clears exactly the hit bits |
| CoverageMap.VirginMeaning | AFL/afl-fuzz.c:898-974 | after any traces a bit is set in the virgin map exactly if no trace had it |
| CoverageMap.PristineMeaning | AFL/afl-fuzz.c:898-974 | a byte is 0xff exactly if no trace hit it |
| CoverageMap.AnswerOverHistory | AFL/afl-fuzz.c:898-974 | 2 exactly if a byte is hit that no earlier trace hit; 0 exactly if no bit is new |
| CoverageMap.TotalFinds | AFL/afl-fuzz.c:907-974 | at most 8 non-zero answers per map byte, over any traces |
| CoverageMap.SimplifiedFinds | AFL/afl-fuzz.c:1072-1108 | at most 2 per map byte when the traces are simplified first |
| MapRoutines.SimplifyTrace | AFL/afl-fuzz.c:1081-1108 | every byte becomes 1 or 128, the constant for zero words included |
| MapRoutines.SimplifyMakesSimple | AFL/afl-fuzz.c:1072-1077 | after which every byte is 1 or 128 |
| MapMeaning.SimplifiedByte | AFL/afl-fuzz.c:1072-1077 | 128 where the trace hit, 1 elsewhere |
| MapMeaning.SimplifiedExactly | AFL/afl-fuzz.c:1072-1108 | two traces are simplified alike if and only if they hit the same bytes |
| MapRoutines.InitCountClass16 | AFL/afl-fuzz.c:1160-1170 | the 65536 entries pair the classes of the two bytes |
| MapRoutines.TableLookup | AFL/afl-fuzz.c:1187-1190 | one lookup classifies both bytes of a 16-bit value |
| MapRoutines.ClassifyCounts | AFL/afl-fuzz.c:1175-1198 | every byte is replaced by its class, with the shortcut for zero words |
| MapMeaning.ClassHasBucketBit | AFL/afl-fuzz.c:1143-1155 | the class of a count has one bit, that of the bucket the count lies in |
| MapMeaning.ClassesGrow | AFL/afl-fuzz.c:1143-1155 | classes are ordered as the buckets are and differ exactly between them |
| MapMeaning.CountsDecide | AFL/afl-fuzz.c:1143-1155 | a larger count never has a smaller class |
| MapMeaning.ClassifiedExactly | AFL/afl-fuzz.c:1175-1198 | two traces are classified alike if and only if each byte's counts lie in one bucket |
| MapRoutines.SwarWordCounts | AFL/afl-fuzz.c:998-1000 | shifts, masks and multiplication count the bits of a word |
| MapRoutines.CountBits | AFL/afl-fuzz.c:980-1006 | the number of one bits in the map |
| MapRoutines.CountBytes | AFL/afl-fuzz.c:1015-1035 | the number of non-zero bytes |
| MapRoutines.CountNon255Bytes | AFL/afl-fuzz.c:1041-1064 | the number of bytes other than 255 |
| HavocBudget.CalculateScore | AFL/afl-fuzz.c:4746-4810 | the score is between 2 and 1600 on every branch, and the handicap falls by what was granted |
| BudgetLaws.BetterNeverScoresLess | AFL/afl-fuzz.c:4746-4810 | an entry that is no slower, covers no less, was found no earlier and lies no less deep never scores less |
| BudgetLaws.AverageScores100 | AFL/afl-fuzz.c:4746-4810 | an average entry scores 100 |
| BudgetLaws.RangeIsTight | AFL/afl-fuzz.c:4746-4810 | both 2 and 1600 are reached |
| HavocBudget.FirstLimit | AFL/afl-fuzz.c:6126-6146 | the first limit is at least HAVOC_MIN and in proportion to the score |
| BudgetLaws.FirstLimitExactly | AFL/afl-fuzz.c:6126-6146 | the first limit is the share of 1024, 256 or 32 cycles that score and divisor leave, fractions cut off, or 16 if that is less |
| HavocBudget.HavocLoop | AFL/afl-fuzz.c:6157-6561 | the loop with the moving limit runs as the specification, or stops at the run that asks for it |
| HavocBudget.HavocStage | AFL/afl-fuzz.c:6121-6561 | it ends within 32768 executions however many finds occur |
| HavocBudget.RunsGrow | AFL/afl-fuzz.c:6550-6559 | finds never shorten a stage |
| HavocBudget.RunsWithoutFinds | AFL/afl-fuzz.c:6157-6561 | without finds the stage runs exactly its first limit |
| HavocBudget.BoundIsTight | AFL/afl-fuzz.c:6126-6559 | one find at the highest score reaches 32768 |
| ArithDedup.StripZeros | AFL/afl-fuzz.c:4826-4828 | the loop leaves the odd part and its shift |
| ArithDedup.OddPartDecides | AFL/afl-fuzz.c:4830-4842 | odd part and shift settle whether any flip pattern matches |
| ArithDedup.CouldBeBitflip | AFL/afl-fuzz.c:4820-4844 | true exactly if the value is 0, a run of 1, 2 or 4 bits anywhere, or of 8, 16 or 32 bits at a byte boundary |
| ArithDedup.SoleDifference | AFL/afl-fuzz.c:4856-4865 | the loop finds the lane if exactly one differs |
| ArithDedup.NearSteps | AFL/afl-fuzz.c:4871-4872 | the test on both wrapped differences means a step of at most 35 |
| ArithDedup.CouldBeArith | AFL/afl-fuzz.c:4850-4922 | true exactly if equal or one aligned byte, word or dword moved by at most 35, in either byte order |
| BitflipStages.FlipInPlace | AFL/afl-fuzz.c:5164-5168 | FLIP_BIT on n adjacent bits |
| BitflipStages.FlipTwice | AFL/afl-fuzz.c:5184-5190 | flipping the same bits again restores the buffer |
| BitflipStages.WalkSingleBits | AFL/afl-fuzz.c:5164-5259 | run b flips bit b of the input; the buffer is restored; a stop is heeded; the tokens handed on are those of the checksums of the lowest-bit flips, none in dumb mode |
| BitflipStages.WalkBits | AFL/afl-fuzz.c:5266-5322 | run b flips bits b up to b+width-1 of the input in the stages for 2 and 4 bits; the buffer is restored; a stop is heeded |
| TokenRuns.TokensAreRuns | AFL/afl-fuzz.c:5192-5217 | the tokens found are exactly the maximal stretches of 3 to 32 bytes whose lowest-bit flips all give one checksum other than the recorded one |
| TokenRuns.Collector.Take | AFL/afl-fuzz.c:5219-5257 | the branches on the last byte, a changed checksum and a no-op keep a_collect, a_len and prev_cksum so that exactly those tokens are handed on |
| TokenRuns.Collector.Finish | AFL/afl-fuzz.c:5223-5232 | the last byte that goes on with a stretch is added and the token handed on at once |
| BitflipStages.WalkBytes | AFL/afl-fuzz.c:5338-5404 | run i flips byte i; the effector map flags exactly the first, the last and the effective blocks, or all when more than 90 percent are |
| BitflipStages.SkippedExactly | AFL/afl-fuzz.c:4820-4844 | could_be_bitflip holds of a byte's change exactly if a 1-, 2-, 4- or 8-bit flip stage runs the resulting buffer |
| BitflipStages.TryNudge | AFL/afl-fuzz.c:5523-5535 | a candidate is run exactly if no flip stage runs it |
| BitflipStages.Arith8 | AFL/afl-fuzz.c:5510-5552 | in flagged blocks every byte plus or minus 1 to 35 is run or was run by a flip stage, and every run is new |
| BitflipStages.FlipStages | AFL/afl-fuzz.c:5164-5404 | the four logs together hold exactly what the flip stages are to run; the tokens are those of the first stage |
| BitflipStages.ByteStages | AFL/afl-fuzz.c:5164-5554 | flips and 8-bit arithmetic together run every such candidate, and no arithmetic run repeats a flip |
| ExtrasOverwrite.OverwriteTwice | AFL/afl-fuzz.c:5960-5963 | writing a token over another at one offset equals writing it over the input exactly if it reaches as far or what sticks out was there |
| ExtrasOverwrite.RedundantExactly | AFL/afl-fuzz.c:5974 | the comparison holds exactly if the write would change nothing |
| ExtrasOverwrite.TryToken | AFL/afl-fuzz.c:5974-5988 | a token is run exactly if the buffer changes |
| ExtrasOverwrite.Restore | AFL/afl-fuzz.c:5994-5995 | copying back the last length restores the whole buffer |
| ExtrasOverwrite.OverwriteAt | AFL/afl-fuzz.c:5953-5997 | without restoring between tokens an offset runs what restoring would, less immediate repeats |
| ExtrasOverwrite.OverwriteStage | AFL/afl-fuzz.c:6068-6100 | so does a whole stage; it restores the buffer and stops only at a run that asks for it |
| ExtrasOverwrite.NoRepeatsAdjacent | AFL/afl-fuzz.c:5965-5979 | no run at an offset repeats the one before it, nor the first one the input |
| ExtrasOverwrite.LogHolds | AFL/afl-fuzz.c:5953-5997 | every run is the input with exactly one eligible token, and every such buffer other than the input is run |
| AutoDict.DifferNoCase | AFL/afl-fuzz.c:1793-1799 | memcmp_nocase tells whether the tokens differ apart from case |
| AutoDict.SortExtras | AFL/afl-fuzz.c:1892-1902 | the two sorts permute the list, order the first 50 by length, and leave none after them with more hits |
| AutoDict.PermutedDistinct | AFL/afl-fuzz.c:1896-1902 | sorting keeps tokens pairwise different |
| AutoDict.IsUniform | AFL/afl-fuzz.c:1811-1816 | runs of one byte value are recognised |
| AutoDict.IsBuiltin | AFL/afl-fuzz.c:1818-1838 | the loops recognise exactly the tokens that are a built-in value in either byte order, but for the bytes 80 ff |
| AutoDict.MetExactly | AFL/afl-fuzz.c:1818-1838 | the comparisons as C makes them, unsigned against sign-extended, hold of exactly the built-in values in either byte order but for that one |
| AutoDict.MissedIsNotMet | AFL/afl-fuzz.c:1824-1826 | the bytes 80 ff are -128 in little-endian order and pass the test |
| AutoDict.IsSupplied | AFL/afl-fuzz.c:1840-1848 | the scan with two early ends equals a search of the whole sorted list |
| AutoDict.FindExtra | AFL/afl-fuzz.c:1855-1864 | an entry equal but for case, or none |
| AutoDict.Enter | AFL/afl-fuzz.c:1855-1890 | one more hit, a new entry, or a new entry in place of one from the lower half |
| AutoDict.Dictionary.MaybeAddAuto | AFL/afl-fuzz.c:1803-1904 | after every call at most 500 tokens, no two equal ignoring case, the first 50 by length and seen at least as often as any later; rejected tokens change nothing |
| AutoDict.TopStays | AFL/afl-fuzz.c:1881-1882 | no call drops one of the first 50 |
| TokenEscape.EscapePlain | AFL/libtokencap/libtokencap.so.c:119-137 | the escaped form is printable, without bare quotes, and at most four times as long |
| TokenEscape.Dump | AFL/libtokencap/libtokencap.so.c:106-142 | the buffer loop writes the specified line and never leaves its buffer; tokens of other lengths are dropped |
| TokenEscape.LoadLine | AFL/afl-fuzz.c:1573-1664 | the cursor loops equal the specified reading of a line, every error case included |
| TokenEscape.EscapeRoundTrip | AFL/afl-fuzz.c:1621-1655 | undoing the escapes gives back any bytes |
| TokenEscape.LabelledLine | AFL/afl-fuzz.c:1573-1616 | a line with blanks, label, level, separators and quoted value is skipped if its level is too high and gives its value otherwise |
| TokenSpelling.ReadsExactly | AFL/afl-fuzz.c:1621-1655 | a text between quotes is read as a token if and only if it spells it, byte by byte, plainly, behind a backslash or with two hexadecimal digits of either case |
| TokenSpelling.FailsExactly | AFL/afl-fuzz.c:1621-1655 | any text that spells no token is an error |
| TokenEscape.RoundTrip | AFL/libtokencap/libtokencap.so.c:106-142 | the loader reads a dumped token back as the same bytes, in text mode up to its first NUL; it fails exactly on a text that starts with NUL |
| TokenEscape.DumpInjective | AFL/libtokencap/libtokencap.so.c:106-142 | different tokens are never written alike |
| NodeMapper.BuildChildToParents | rsg/node_mapper/main.go:331-353 | the map lists exactly the referring rules if and only if no two references share a key, each once, and never anything else |
| NodeMapper.NulFreeIsExact | rsg/node_mapper/main.go:344 | without NUL in rule names no two references share a key |
| NodeMapper.NulCollides | rsg/node_mapper/main.go:344 | with NUL two references can share one |
| NodeMapper.NoTopWithin | rsg/node_mapper/main.go:361-373 | when all nearer rules are expanded, no top-level rule is that near |
| NodeMapper.FindTopLevelAncestor | rsg/node_mapper/main.go:358-375 | terminates with a top-level rule at least distance through one or more references, or the empty name exactly when there is none |
| NodeMapper.ClimbsAreChains | rsg/node_mapper/main.go:331-353 | on an exact map climbing n steps is following n references of the grammar |
| NodeMapper.ClimbsExactly | rsg/node_mapper/main.go:331-353 | climbing is following references if and only if the map is exact |
| NodeMapper.ClimbIsChain | rsg/node_mapper/main.go:331-353 | whatever the names, a climb follows references |
| NodeMapper.AncestorInGrammar | rsg/node_mapper/main.go:481-503 | the two functions together answer in terms of the grammar itself: a rule returned is an ancestor on every grammar; when no two references share a key it is a nearest one, and the empty name means there is none |
| PathTree.GenKeepsConsistent | rsg/rsgGenerator/mysqlGenerator.go:8-99 | every tree generation leaves has one child per referred rule at every recorded node, on the error return too; a fresh node never fails |
| PathTree.ReplayNilExactly | rsg/rsgGenerator/mysqlGenerator.go:1741-1776 | replay never fails while depth is left, and otherwise fails exactly on the trees described |
| PathTree.SomeTreeFails | rsg/rsgGenerator/mysqlGenerator.go:1741-1776 | a consistent tree on which replay with a negative depth fails |
| PathTree.GenKeepsMark | rsg/rsgGenerator/mysqlGenerator.go:1741-1776 | generation never changes the favourite mark of the node it starts from |
| PathDepth.DepthBound | rsg/rsgGenerator/mysqlGenerator.go:68-99 | below recorded nodes a node is left without a rule only if it is banned or more complex rules than the depth were newly recorded above it, and a rule with an expression, a subquery or a table is recorded only if no more were |
| PathTree.SuffixGoes | rsg/rsgGenerator/mysqlGenerator.go:1733-1738 | a terminal is said without the ending _SYM and otherwise as it is called |
| PathTree.FreshFills | rsg/rsgGenerator/mysqlGenerator.go:68-99 | a fresh statement is an instance of the outline of the tree it records, cuts included |
| PathTree.ReplayFills | rsg/rsgGenerator/mysqlGenerator.go:1763-1785 | replay says an instance of the recorded outline and leaves the recorded part as it is |
| PathTree.ReplayRepeats | rsg/rsgGenerator/mysqlGenerator.go:54-59 | a statement and its replay are instances of one outline, equal if it has no hole and neither random keyword |
| PathTree.ClearConsistent | rsg/rsgEntry.go:187-194 | clearing any node keeps the tree consistent |
| PathTree.ClearOutline | rsg/rsgEntry.go:187-194 | clearing a reached node replaces exactly its part of the outline by a hole, clearing any other changes nothing |
| PathTree.MutationIsLocal | rsg/rsgEntry.go:143-220 | replaying a mutated seed does not fail, stays consistent, and differs only in the cleared node's part, which is newly generated |
| PathNodes.GenerateMySQL | rsg/rsgGenerator/mysqlGenerator.go:8-99 | the recursive procedure on heap nodes leaves the tree and the words of the specification, and touches only that tree |
| PathNodes.NextItem | rsg/rsgGenerator/mysqlGenerator.go:69-99 | one item: literal, cut-off word, terminal or rule |
| PathNodes.RuleItem | rsg/rsgGenerator/mysqlGenerator.go:1741-1783 | one rule item, recorded or replayed by index |
| PathNodes.PickChild | rsg/rsgGenerator/mysqlGenerator.go:1743-1772 | the child is the next recorded one, or a new leaf appended |
| PathNodes.DeepCopyPathNode | rsg/helperFunc.go:190-214 | the copy stands for the same tree and shares no node with it |
| PathNodes.GatherAllPathNodes | rsg/helperFunc.go:139-154 | the list is the tree's nodes from the root down and left to right |
| PathNodes.ForgetNode | rsg/rsgEntry.go:193-194 | clearing the listed node clears the node with that number in the tree |
| PathNodes.ForgotClears | rsg/rsgEntry.go:193-194 | the same for a snapshot of the nodes |
| SeedStore.PickNode | rsg/rsgEntry.go:154-185 | the root is picked if and only if the tree has at most two nodes; of a larger tree a node below the root is picked, a favourite whenever favourites are preferred and there is one |
| SeedStore.IsFavPath | rsg/pathFeedbackHandling.go:110-118 | whether a recorded node is a favourite |
| SeedStore.CopyAndClear | rsg/rsgEntry.go:143-196 | what is mutated is a fresh copy of the seed with one node cleared, the root if and only if it has at most two nodes |
| SeedFacts.MutantIsLocal | rsg/rsgEntry.go:143-220 | the statement from a mutated seed differs from the one that seed was saved for only in the mutated node's part |
| SeedFacts.StartDecides | rsg/rsgEntry.go:128-220 | where generation starts decides what comes out: a fresh statement, or a local change of a listed seed's |
| SeedFacts.ComesFromBefore | rsg/rsgEntry.go:100-124 | what a later try makes of a seed is a local change of the statement known before the first try |
| SeedStore.Rsg.TakeFav | rsg/helperFunc.go:216-254 | the first favourite seed of the type is taken and dropped from its list; without one nothing changes |
| SeedStore.Rsg.PickSeed | rsg/rsgEntry.go:141-152 | the first favourite seed one time in two, if favourites are in use and there is one, and otherwise the saved seed drawn |
| SeedStore.Rsg.StartNode | rsg/rsgEntry.go:128-207 | generation starts from a mutated copy if and only if there is a saved seed and two draws out of three say so, and otherwise from an empty node |
| SeedStore.Rsg.GenerateOnce | rsg/rsgEntry.go:126-234 | the words returned and the current tree are what generation makes of an empty node or of a listed seed with one node cleared, a local change of that seed's statement; no node of a saved seed changes; no failure while depth is left |
| SeedStore.Rsg.Generate | rsg/rsgEntry.go:100-124 | every try but the last said nothing, and the last says something or is number 1000 (or runs out of this model's fuel); each goes on with the next draws; the words returned and the current tree are the last one's, of which all of the above holds |
| SeedFacts.AllInVain | rsg/rsgEntry.go:111-124 | each try before the last one was made with its own draws and said nothing |
| SeedStore.Rsg.IncrementSucceed | rsg/pathFeedbackHandling.go:12-69 | the current tree joins the seeds of its type, unchanged, and the favourites if it has one |
| SeedStore.Rsg.IncrementFailed | rsg/pathFeedbackHandling.go:71-104 | it joins the favourites only |
| SeedStore.Rsg.SaveFav | rsg/pathFeedbackHandling.go:106-135 | it joins the favourites if it has one, and stays current |

## Left out

- Files, directories, shared memory, exec, environment variables, resource limits, real time, user interface,
  statistics and command lines.
- Collisions of the trace checksum; nondeterministic targets.
- Integer width of lengths, counters and `exec_us * len`: products and sums are taken to be in range. Wrap-around is
  modelled where the code depends on it (persistent-loop counter, byte arithmetic, could_be_arith, word tricks).
- The 32-bit flavour of the word-at-a-time loops that have two; the models follow the 64-bit one.
- `double` arithmetic in calculate_score is arithmetic over reals with truncation.
- ForkServer.Safety: does not model reuse of a pid by an unrelated process of the system, failing system calls, or
  shutdown; within the model a pid can be given out again, but only to a later child of the server.
- Scoreboard.EverySessionIsGood: names queue entries by position; FavoredQueue ties the linked entries to it.
  Calibration submits an entry once and trimming submits it again only shorter and with the same hits; a resubmission
  with a larger factor or other hits is not covered.
- mark_as_redundant at the end of cull_queue only creates or removes files.
- Trimmer.Trimming.TrimCase: records that update_bitmap_score is called and on which trace; Scoreboard has the rest.
- HavocBudget.HavocStage: the random tweaks of an execution are left out; only the number of executions is modelled.
- BitflipStages.WalkBytes: the 16- and 32-bit flip, arithmetic and interesting-value stages are left out, because
  could_be_bitflip numbers bits from the low end of an integer and FLIP_BIT from the high end of each byte; only the
  byte-wide claim is made.
- BitflipStages.WalkSingleBits: the tokens are collected into a list; AutoDict has what maybe_add_auto does with each.
- ExtrasOverwrite.OverwriteStage: covers both overwrite stages (for automatic tokens the list has at most 50 entries and
  the random test never applies); the insertion stage between them is left out.
- AutoDict.Dictionary.MaybeAddAuto: takes the user's tokens as fixed. Tokens of an earlier session are loaded before the
  user's are, so nothing is claimed about the two lists being disjoint. qsort is any sort.
- TokenEscape.LoadLine: one line at a time, of the length fgets returns; file handling and sorting are left out.
- NodeMapper.FindTopLevelAncestor: discriminators, sampling and the mapping file are left out.
- PathTree.GenKeepsConsistent: fresh generation need not end, since grammar recursion need not use up depth; `fuel`
  bounds its recursion and nothing is said of trees left when it runs out. Replay needs no fuel.
- The table of keywords in GenerateMySQL is a parameter; the other dialects repeat the same skeleton.
- Node ids, parent pointers, rule hashes, edge coverage and rewards: which rule and which favourite mark come up is
  arbitrary instead. Replacements made on the joined string at the end of RSG.Generate are left out.
- PathNodes.GenerateMySQL: PathNodes holds the tree on the heap; the laws are proved of its value in PathTree.

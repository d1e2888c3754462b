# GRPO reward functions and sandboxed executor, in Dafny

This project models the reward side of a GRPO (group relative policy optimisation)
training setup for code and medical-reasoning models, and proves properties of that model:

- **The sandboxed executor.** Code snippets run in a WebAssembly Python runtime, either
  serially in this process or in a process pool. The pool is a process-wide singleton,
  created lazily and torn down when a round of waiting finishes nothing. Results are
  collected back into submission order.
- **The code rewards.** The answer is pulled out of the `<answer>` section, and rewards
  are given for code that runs, for passing the completion's tests (2 · accuracy³), and
  for following the `<reasoning>`/`<answer>` layout.
- **The medical rewards.**
  - a multiple-choice reward over normalised answers;
  - a set-F1 diagnosis score;
  - the e-POCT episode reward: the diagnosis score plus path and abnormality bonuses,
    minus step and safety charges.
- **The dataset transform** that turns an AceCode row into a one-message chat prompt.

Modules follow the source files:

| module | models |
|---|---|
| `ParallelExecutor` (parallel_executor.dfy) | `grpo_code/parallel_executor.py` |
| `Executor` (executor.dfy) | `grpo_code/executor.py` |
| `Rewards` (rewards.dfy) | `grpo_code/rewards.py` |
| `GrpoRewards` (grpo_rewards.dfy) | `rewards/grpo_rewards.py` |
| `Transforms` (transforms.dfy) | `grpo_code/transforms.py` |
| `Wasm` (wasm.dfy) | the `worker_env` global of `grpo_code/wasm.py` |
| `Text`, `Chat`, `Fractions`, `Wrappers` | Python string operations, the `<answer>` tags and the length of a `zip`, message records, real-number facts, Option/Result |

**Global state.** Module globals become classes whose methods update them in place:
- `PoolRegistry` holds the pool singleton `_executor`, the exit hooks and signal
  handlers registered, and the pools shut down so far.
- `WorkerSlot` holds a process's `worker_env`.
- `Dispatcher` holds `executor.py`'s own `_executor` and `worker_env`, and the two
  objects above.

**Oracles.** Running a snippet (`does_code_run`) is a total oracle `run: string -> bool`.
Waiting on futures picks any subset of the pending futures. Evaluating the e-POCT
dictionary is an oracle `parse: string -> Option<Episode>`, where `None` stands for any
exception. A result slot is `Unset`, the `0.0` placeholder, or `Ran(b)`, the boolean a
future returned. Whether a round of waiting finished nothing is reported as a ghost
output `stalled`; on the pool path it is tied to what a stall leaves behind: the pool
shut down, the singleton handle cleared and a placeholder left in the results.

**Regular expressions.** Each regular expression is modelled by the match it returns
under Python's backtracking semantics:
- leftmost start first;
- then the longest greedy run;
- then the shortest lazy group.

Lemmas prove that the modelled function returns exactly that match.

**Numbers.** Rewards are `real`. Python's floor division is written out.

## Model

| member | source | states |
|---|---|---|
| `Wasm.WorkerSlot.Install` | grpo_code/wasm.py:14-16 | installing an environment replaces the slot's content with a new environment built from the path and fuel; the build count goes up by one |
| `Wasm.WorkerSlot.constructor` | grpo_code/wasm.py:3 | `worker_env = None`: no environment, none built yet |
| `ParallelExecutor.TaskResult.Value` | grpo_code/parallel_executor.py:90-104 | a slot counts as 1.0 exactly when it holds `True`, and as 0.0 otherwise (placeholder or `False`) |
| `ParallelExecutor.Future.constructor` | grpo_code/parallel_executor.py:87 | a submitted future remembers the pool and the snippet it was submitted with |
| `ParallelExecutor.Future.Result` | grpo_code/parallel_executor.py:104 | `future.result()`: the oracle's verdict on the snippet the future was submitted with |
| `ParallelExecutor.WorkerInit` | grpo_code/parallel_executor.py:11-21 | a worker installs a new environment built from the initializer's path and fuel |
| `ParallelExecutor.PoolRegistry.constructor` | grpo_code/parallel_executor.py:8 | at import no pool is live, none was created and none shut down; the registry invariant holds |
| `ParallelExecutor.PoolRegistry.GetMultiprocessingExecutor` | grpo_code/parallel_executor.py:43-65 | returns the live pool unchanged if there is one, whatever the arguments; otherwise creates one with these arguments, makes it live, and registers one exit hook and the signal handlers; the invariant (one hook per creation, live pool is the latest, shut-down pools in creation order) is kept |
| `ParallelExecutor.PoolRegistry.CleanupExecutor` | grpo_code/parallel_executor.py:24-31 | always leaves no live pool; a live pool is appended to the shut-down pools; with no live pool nothing changes, so a second call is a no-op |
| `ParallelExecutor.Wait` | grpo_code/parallel_executor.py:93 | the done futures are a subset of the pending ones and the rest come back as still pending |
| `ParallelExecutor.SubmitAll` | grpo_code/parallel_executor.py:86-89 | one future per task, in task order, each mapped to its own task's index and carrying that task's snippet |
| `ParallelExecutor.RecordDone` | grpo_code/parallel_executor.py:102-104 | every finished future's verdict is written at its own task's index; slots of still-pending futures keep the placeholder |
| `ParallelExecutor.RunTasksWithMultiprocessingExecutor` | grpo_code/parallel_executor.py:68-106 | one slot per task, each the placeholder or its own task's verdict; the loop terminates; unless a round finished nothing, every slot is a verdict and the pool is untouched; a stalled round clears the pool (recording it as shut down), and leaves at least one slot unset; an empty task list makes no round |
| `ParallelExecutor.CollectedSlots` | grpo_code/parallel_executor.py:90-104 | the bookkeeping gives each slot the placeholder or its own verdict, a verdict everywhere once nothing is pending, and a placeholder somewhere while something is |
| `Executor.RunSerially` | grpo_code/executor.py:61 | the serial path returns one verdict per task, the verdict on that task, in order |
| `Executor.RunSeriallyAppend` | grpo_code/executor.py:61 | running a batch serially is running its two halves one after the other |
| `Executor.Dispatcher.constructor` | grpo_code/executor.py:5 | at import both of the module's globals are `None` and the pool registry is consistent |
| `Executor.Dispatcher.GetExecutor` | grpo_code/executor.py:8-36 | with more than one process: stores and returns the singleton, creating it only if none is live, and leaves the sandbox slot alone; otherwise returns `None`, touches no pool handle, and installs a new environment on every call because the guard reads a global that is never assigned |
| `Executor.Dispatcher.ExecuteTasks` | grpo_code/executor.py:39-61 | one result per task, each the placeholder or its own verdict; serially exactly the serial verdicts, with a new environment installed; through the pool the environment is left alone, `_executor` holds the live pool or, when there was none, a new pool built from these arguments (and only then is a pool created); unless a round stalled, every result is a verdict, that pool stays the live one and nothing is shut down; a stall shuts that pool down, clears the singleton handle while `_executor` keeps the stale one, and leaves some slot at the placeholder |
| `Rewards.FloorDiv` | grpo_code/rewards.py:10 | Python's `//`: the quotient rounded towards minus infinity, for either sign of divisor |
| `Rewards.MaxProcesses` | grpo_code/rewards.py:10 | the process count is at least 1 for any environment values, above 1 only when that many per rank fit, and equal to `MAX_PROCESSES // WORLD_SIZE` exactly when that quotient is at least 1 |
| `Rewards.DefaultWasmPath` | grpo_code/rewards.py:12-14 | the default `WASM_PATH`: `wasm/python-3.12.0.wasm` under the repository root |
| `Rewards.LoadConfig` | grpo_code/rewards.py:9-18 | importing fails with a division by zero exactly when `WORLD_SIZE` is 0; it succeeds exactly when, in addition, the image file exists; on success the image path, the timeout and the fuel carry the variables or their defaults, and the process count is `max(1, MAX_PROCESSES // WORLD_SIZE)` of those |
| `Text.LeadingWhitespace` | grpo_code/rewards.py:32 | the longest all-whitespace prefix |
| `Text.TrailingWhitespace` | grpo_code/rewards.py:32 | the longest all-whitespace suffix |
| `Text.Strip` | grpo_code/rewards.py:32 | `str.strip()`: a factor of the input with only whitespace cut from both ends, starting and ending with a non-whitespace character |
| `Text.TrimmedUnique` | grpo_code/rewards.py:32 | only one factor is trimmed that way, so the contract of `Strip` determines it |
| `Text.LeadingWhitespaceUnique` | grpo_code/rewards.py:32 | a whitespace prefix followed by a non-whitespace character, or by the end, is the one `strip()` cuts |
| `Text.IsWhitespace` | grpo_code/rewards.py:32 | the characters `str.isspace()` accepts, which `strip()` removes and `\s` matches |
| `Text.StripIdempotent` | grpo_code/rewards.py:32 | stripping twice is stripping once |
| `Text.FindFrom` | grpo_code/rewards.py:31 | the first occurrence of a literal from a position on, or none at all |
| `Text.FindFromUnique` | grpo_code/rewards.py:31 | an occurrence with none before it is the one found |
| `Rewards.ExtractXmlAnswer` | grpo_code/rewards.py:21-32 | the result starts and ends with a non-whitespace character, or is empty |
| `Rewards.ExtractXmlAnswerSpec` | grpo_code/rewards.py:31-32 | "" when no `<answer>` is followed by a `</answer>`; otherwise the stripped text between the first `<answer>` and the first `</answer>` after it, newlines included |
| `Rewards.CodeReward` | grpo_code/rewards.py:55 | 0.5 exactly when the slot holds `True`, else -0.25 |
| `Rewards.ModelAnswers` | grpo_code/rewards.py:49-51 | one extracted answer per completion, from its first message |
| `Chat.Content` | grpo_code/rewards.py:50 | `completion[0]["content"]`: the content of a completion's first message |
| `Rewards.CodeExecutionRewardFunc` | grpo_code/rewards.py:35-55 | one reward per completion, each 0.5 or -0.25; 0.5 means the extracted code ran; unless a round of the pool stalled, which never happens serially, 0.5 exactly when it ran; through the pool it stalled exactly when the singleton handle is cleared afterwards, and then that pool was shut down and some completion got -0.25 |
| `Rewards.WhitespaceRunEnd` | grpo_code/rewards.py:132 | a whitespace run stopped by a non-whitespace character is the longest one |
| `Rewards.AnswerSectionWitness` | grpo_code/rewards.py:132 | an answer section yields the positions of its `<answer>` and `</answer>` |
| `Rewards.AnswerSectionFrom` | grpo_code/rewards.py:132 | whitespace, then `<answer>`, then a later `</answer>` make an answer section |
| `Rewards.AnswerSectionSpec` | grpo_code/rewards.py:132 | `\s*<answer>.*?</answer>` matches after a point exactly when `<answer>` follows an all-whitespace run and a `</answer>` follows it |
| `Rewards.FormatWithSpec` | grpo_code/rewards.py:131-133 | with `</reasoning>` fixed, the pattern matches exactly when positions for the answer tags exist |
| `Rewards.FormatFromSpec` | grpo_code/rewards.py:131-133 | the lazy search over `</reasoning>` positions succeeds exactly when some position works |
| `Rewards.SoftFormatSpec` | grpo_code/rewards.py:131-133 | the anchored match succeeds exactly when tag positions satisfying the pattern exist |
| `Rewards.SoftFormat` | grpo_code/rewards.py:131-133 | the anchored `re.match` of the reasoning-then-answer pattern; its meaning is stated by `SoftFormatSpec` and `SoftFormatOfParts` |
| `Rewards.FormatAtParts` | grpo_code/rewards.py:131-133 | a matching response splits as reasoning tags, whitespace, answer tags and a tail |
| `Rewards.SoftFormatOfParts` | grpo_code/rewards.py:131-133 | every response of that shape matches |
| `Rewards.SoftFormatRewardFunc` | grpo_code/rewards.py:113-137 | one reward per completion: 0.25 when its response is in the layout, 0.0 otherwise |
| `Rewards.TestTasks` | grpo_code/rewards.py:89-90 | one task per test: the code, a newline, the test |
| `Rewards.OffsetMonotone` | grpo_code/rewards.py:88-91 | later completions' blocks start no earlier |
| `Rewards.TaskListLength` | grpo_code/rewards.py:88-91 | the flattened tasks and their owners have one entry per test of the zipped completions |
| `Rewards.TaskList` | grpo_code/rewards.py:86-91 | the flattened test programs: one per test of each zipped completion, `Offset` entries for the first `n` completions |
| `Rewards.Owners` | grpo_code/rewards.py:86-91 | the completion index of each flattened task; every entry names one of the first `n` completions |
| `Rewards.TaskAt` | grpo_code/rewards.py:88-91 | entry `Offset(i) + k` is completion `i`'s code with its `k`-th test, owned by `i` |
| `Rewards.OwnerBlock` | grpo_code/rewards.py:88-91 | every flattened task lies inside the block of tests of the completion that owns it |
| `Rewards.OwnersMembership` | grpo_code/rewards.py:88-91 | a completion owns a task exactly when it is zipped and has a test |
| `Rewards.BuildTasks` | grpo_code/rewards.py:86-91 | the nested loops produce the flattened task list and owner list over `zip(model_answers, answers)` |
| `Rewards.CollectNonEmpty` | grpo_code/rewards.py:95-99 | a completion's regrouped results are non-empty exactly when it owns a task |
| `Rewards.CollectAppend` | grpo_code/rewards.py:95-99 | regrouping distributes over concatenation |
| `Rewards.CollectRepeat` | grpo_code/rewards.py:95-99 | a block owned by one completion regroups to that completion alone |
| `Rewards.OwnersLength` | grpo_code/rewards.py:88-91 | the owner list has one entry per flattened task |
| `Rewards.CollectBlock` | grpo_code/rewards.py:95-99 | appending one owner's block extends that owner's group only |
| `Rewards.OffsetBlock` | grpo_code/rewards.py:88-91 | each completion's block lies inside the flattened list |
| `Rewards.CollectOwnersOther` | grpo_code/rewards.py:95-99 | a completion outside the zipped prefix gets no results |
| `Rewards.CollectOwnersLast` | grpo_code/rewards.py:95-99 | the last zipped completion gets the final block |
| `Rewards.CollectOwners` | grpo_code/rewards.py:95-99 | regrouping by owner gives every completion exactly its own block of results |
| `Rewards.Collect` | grpo_code/rewards.py:95-99 | the results whose owner is `i`, in task order; `CollectOwners` proves this is exactly that completion's block |
| `Rewards.GroupResults` | grpo_code/rewards.py:95-99 | the dictionary has a key for each owner that appears, holding that owner's results in task order, never empty |
| `Rewards.CollectSnoc` | grpo_code/rewards.py:96-99 | one more pair adds its result to its owner's group only |
| `Rewards.GroupStep` | grpo_code/rewards.py:96-99 | one loop step keeps the dictionary equal to the regrouping so far |
| `Rewards.SumBounds` | grpo_code/rewards.py:105 | the sum of a group lies in [0, count], equal to the count exactly when all passed and 0 exactly when none did |
| `Rewards.Sum` | grpo_code/rewards.py:105 | `sum(test_results)` with a passed test as 1 and anything else as 0: between 0 and the count |
| `Rewards.CubeOfFraction` | grpo_code/rewards.py:106 | the cube of a fraction is a fraction, 0 or 1 only for 0 or 1 |
| `Rewards.AccuracyRewardRange` | grpo_code/rewards.py:104-106 | 2 · accuracy³ lies in [0, 2]: 2 exactly when every test passed, 0 exactly when none did |
| `Rewards.AccuracyReward` | grpo_code/rewards.py:104-106 | `pow(sum / len, 3) * 2`: 0 when no test passed, 2 when all did (both directions and the range in `AccuracyRewardRange`) |
| `Rewards.AccuracyRewardTwoOfThree` | grpo_code/rewards.py:104-106 | two passes out of three give 16/27 |
| `Rewards.RewardsFromGroups` | grpo_code/rewards.py:101-110 | one reward per completion: the accuracy reward of its group, or 0.0 when it has none |
| `Rewards.AnswerExecutionRewardFunc` | grpo_code/rewards.py:58-110 | one reward per completion in [0, 2]; 0 with no tests or no entry in `answers`; 2 only when every test ran; unless a round of the pool stalled, which never happens serially, exactly the accuracy reward of the completion's own tests' verdicts; through the pool it stalled exactly when the singleton handle is cleared afterwards, and then that pool was shut down and some completion with tests got less than 2 |
| `Rewards.BlockVerdicts` | grpo_code/rewards.py:86-93 | each completion's block of results holds placeholders or its own tests' verdicts, and exactly those verdicts when nothing stalled |
| `Rewards.FullMarks` | grpo_code/rewards.py:104-106 | full marks on a block of placeholders and verdicts means every task ran |
| `Rewards.GroupIsBlock` | grpo_code/rewards.py:95-104 | a completion has a group exactly when it has tests, and the group is its own block |
| `Rewards.CompletionGroup` | grpo_code/rewards.py:86-106 | per completion: a group exactly when it has tests, reward in [0, 2], 2 only when all its tests ran, and serially its own verdicts |
| `Rewards.UnfinishedGroup` | grpo_code/rewards.py:95-106 | the completion owning a slot left at the 0.0 placeholder has a group, and its reward is below 2 |
| `Rewards.AnswerRewards` | grpo_code/rewards.py:95-110 | from any result list of placeholders and own verdicts: every reward in [0, 2], 0 without tests, 2 only when all tests ran; with every slot a verdict, exactly the accuracy of the completion's own verdicts; with a placeholder left, some completion with tests below 2 |
| `Text.IndexOf` | rewards/grpo_rewards.py:93 | the first index holding a character from a position on, or none |
| `Text.LastIndexOf` | rewards/grpo_rewards.py:93 | the last index holding a character below a bound, or none |
| `Text.Lower` | rewards/grpo_rewards.py:7 | `str.lower()` character by character (ASCII capitals folded) |
| `Text.RemoveSpaces` | rewards/grpo_rewards.py:7 | `replace(" ", "")`: no space left, never longer, unchanged when there was none; a single space goes and any other single character stays |
| `Text.RemoveSpacesAppend` | rewards/grpo_rewards.py:7 | removing spaces from a concatenation removes them from each part: with the single-character case, every non-space character is kept, in order |
| `GrpoRewards.Normalize` | rewards/grpo_rewards.py:7 | a normalised answer is the answer with its spaces removed and each remaining character lowered, position by position; so it has no spaces and no capitals and is never longer |
| `GrpoRewards.NormalizeIdempotent` | rewards/grpo_rewards.py:7 | normalising twice is normalising once |
| `GrpoRewards.NormalizeAll` | rewards/grpo_rewards.py:7 | the correct answers normalised one by one, in order |
| `GrpoRewards.WsEnd` | rewards/grpo_rewards.py:10 | where a greedy `\s*` stops: the run before it is whitespace and the character at it is not |
| `GrpoRewards.WsEndUnique` | rewards/grpo_rewards.py:10 | that stopping point is the only end of a whitespace run followed by a non-whitespace character |
| `GrpoRewards.WsEndLeading` | rewards/grpo_rewards.py:10 | the greedy `\s*` run is the longest whitespace prefix `LeadingWhitespace` measures, the one `str.strip()` cuts |
| `GrpoRewards.WsSpanWithin` | rewards/grpo_rewards.py:10 | any whitespace run ends no later than the greedy one |
| `GrpoRewards.WsEndStops` | rewards/grpo_rewards.py:10 | the greedy run stops at or before any non-whitespace character |
| `GrpoRewards.GroupEnd` | rewards/grpo_rewards.py:10 | the lazy group's end lies between its start and the end of the text |
| `GrpoRewards.GroupEndFound` | rewards/grpo_rewards.py:10 | the lazy group crosses no newline and its trailing whitespace is followed by the closing tag |
| `GrpoRewards.GroupEndSpec` | rewards/grpo_rewards.py:10 | no shorter group works; no group is found only when no end before the first newline works |
| `GrpoRewards.GroupEndUnique` | rewards/grpo_rewards.py:10 | the first working end is the one found |
| `GrpoRewards.CloseAtWsEnd` | rewards/grpo_rewards.py:10 | a closing tag sits where the whitespace before it ends |
| `GrpoRewards.MatchAtSpec` | rewards/grpo_rewards.py:10 | at a start the engine finds a match exactly when one exists, and reports the first in backtracking order (longest leading whitespace, then shortest group) |
| `GrpoRewards.MatchAt` | rewards/grpo_rewards.py:10 | the engine's attempt at one start: the tag, the greedy whitespace, then the lazy group; characterised by `MatchAtSpec` and `MatchAtOther` |
| `GrpoRewards.MatchAtOther` | rewards/grpo_rewards.py:10 | every match at a start has no more leading whitespace than the reported one and, with as much, no shorter group |
| `GrpoRewards.NoMatchAt` | rewards/grpo_rewards.py:10 | no start in a match-free range matches |
| `GrpoRewards.Search` | rewards/grpo_rewards.py:10 | `re.search` reports the match at a start with no match before it, or reports none when no start matches |
| `GrpoRewards.SearchLeftmost` | rewards/grpo_rewards.py:10 | whenever the pattern matches somewhere, `re.search` reports a match starting at or before that place |
| `GrpoRewards.SearchSpec` | rewards/grpo_rewards.py:10-11 | a match is found exactly when one exists, and it is the first in the engine's order: leftmost, then longest leading whitespace, then shortest group |
| `GrpoRewards.GroupEndTrimmed` | rewards/grpo_rewards.py:10 | the lazy group holds no newline and does not end in whitespace |
| `GrpoRewards.GroupTrimmed` | rewards/grpo_rewards.py:10 | the captured group holds no newline and starts and ends with non-whitespace |
| `GrpoRewards.ExtractGroupTrimmed` | rewards/grpo_rewards.py:10-15 | `match.group(1)` holds no newline and starts and ends with non-whitespace |
| `GrpoRewards.ExtractGroup` | rewards/grpo_rewards.py:10-15 | `match.group(1)` of the search, or none when there is no match; trimmed by `ExtractGroupTrimmed` |
| `GrpoRewards.McqExtract` | rewards/grpo_rewards.py:10-15 | the answer the pattern as written captures: it holds no newline and starts and ends with non-whitespace |
| `GrpoRewards.IntendedExtract` | rewards/grpo_rewards.py:10-15 | the answer captured with `</answer>` as the closing tag, trimmed in the same way |
| `GrpoRewards.AnswerScore` | rewards/grpo_rewards.py:11-19 | 0 or 1, and 0 when nothing was extracted (the exact condition for 1 in `AnswerScoreSpec`) |
| `GrpoRewards.AnswerScoreSpec` | rewards/grpo_rewards.py:11-19 | the score is 0 or 1, and 1 exactly when an answer was extracted whose normal form equals some correct answer's normal form |
| `GrpoRewards.McqScore` | rewards/grpo_rewards.py:10-19 | the per-completion score as written: 0 or 1, and 0 when the pattern does not match |
| `GrpoRewards.IntendedMcqScore` | rewards/grpo_rewards.py:10-19 | the per-completion score with `</answer>` as the closing tag: 0 or 1, and 0 when nothing matches |
| `GrpoRewards.TaggedChars` | rewards/grpo_rewards.py:10 | the characters of `<answer>x</answer>` position by position |
| `GrpoRewards.CharMatchesSelf` | rewards/grpo_rewards.py:10 | under `IGNORECASE` a non-letter matches only itself |
| `GrpoRewards.CharMatches` | rewards/grpo_rewards.py:10 | one character of the text against one of the pattern under `IGNORECASE`: ASCII capitals fold, and the long s matches `s` |
| `GrpoRewards.McqNeedsTwoOpenTags` | rewards/grpo_rewards.py:10 | as written, a match needs two `<answer>` tags, one after the other |
| `GrpoRewards.NoSecondOpenTag` | rewards/grpo_rewards.py:10 | `<answer>x</answer>` with no `<` in `x` has no second `<answer>` |
| `GrpoRewards.McqMissesClosedAnswer` | rewards/grpo_rewards.py:10-13 | as written, an answer written as `<answer>x</answer>` never matches, so it scores 0 |
| `GrpoRewards.IntendedRecoversAnswer` | rewards/grpo_rewards.py:10-15 | with `</answer>` as the closing tag, the answer `x` is recovered exactly |
| `GrpoRewards.McqClosedAnswerExample` | rewards/grpo_rewards.py:3-21 | on `<answer>B</answer>` with correct answer `B`, the reward as written is 0.0 and the intended one is 1.0 |
| `GrpoRewards.Zip` | rewards/grpo_rewards.py:5 | the pairwise map over the first `n` pairs: length `n`, entry `k` computed from pair `k` |
| `GrpoRewards.Min3` | rewards/grpo_rewards.py:5 | the length of a three-way `zip`: the shortest length |
| `GrpoRewards.McqReward` | rewards/grpo_rewards.py:3-21 | one reward per zipped triple, each `IntendedMcqScore` of that completion: the answer is taken between `<answer>` and the inferred closing `</answer>` (not the second `<answer>` as written) and scored 0 or 1 against its correct answers by `AnswerScoreSpec` |
| `GrpoRewards.NormSetEmpty` | rewards/grpo_rewards.py:32-33 | the normalised set is empty exactly when the list is |
| `GrpoRewards.NormSet` | rewards/grpo_rewards.py:32-33 | the set of normal forms: it holds the normal form of every listed answer and nothing else |
| `GrpoRewards.SubsetSize` | rewards/grpo_rewards.py:34-36 | an intersection is no larger than either set |
| `GrpoRewards.SubsetSameSize` | rewards/grpo_rewards.py:34-36 | an intersection as large as a set is that set |
| `GrpoRewards.PrecisionRecall` | rewards/grpo_rewards.py:34-36 | precision and recall are fractions; precision 1 exactly when every prediction is true, recall 1 exactly when every truth is predicted, 0 exactly with no overlap |
| `GrpoRewards.F1Spec` | rewards/grpo_rewards.py:34-37 | with alpha in [0, 1] the score is in [0, 1]; equal sets score 1, disjoint sets 0; with alpha strictly inside, only those |
| `GrpoRewards.F1` | rewards/grpo_rewards.py:34-37 | `alpha * recall + (1 - alpha) * precision` over two sets; its range and extremes are stated by `F1Spec` |
| `GrpoRewards.SetF1Range` | rewards/grpo_rewards.py:27-37 | `compute_set_f1` lies in [0, 1] for alpha in [0, 1] |
| `GrpoRewards.SetF1` | rewards/grpo_rewards.py:27-37 | `compute_set_f1`: 1 when both lists are empty, 0 when exactly one is, otherwise `F1` of the normalised sets; stated by `SetF1Range`, `SetF1Perfect`, `SetF1Disjoint` and `SetF1Swap` |
| `GrpoRewards.SetF1Perfect` | rewards/grpo_rewards.py:27-37 | equal normalised sets (both empty included) score 1; with alpha strictly inside (0, 1) only they do |
| `GrpoRewards.SetF1Disjoint` | rewards/grpo_rewards.py:27-37 | when a list is non-empty, no common normalised answer scores 0; with alpha strictly inside (0, 1) only that does |
| `GrpoRewards.F1Swap` | rewards/grpo_rewards.py:34-37 | swapping the sets swaps precision and recall |
| `GrpoRewards.SetF1Swap` | rewards/grpo_rewards.py:27-37 | swapping the lists is the same as using `1 - alpha` |
| `GrpoRewards.CountTrue` | rewards/grpo_rewards.py:53 | `sum` of booleans counts at most the list length, and 0 exactly when none is set |
| `GrpoRewards.CountTrueSnoc` | rewards/grpo_rewards.py:53 | one more flag adds one exactly when it is set |
| `GrpoRewards.CombineSteps` | rewards/grpo_rewards.py:52-66 | each term moves the sum by its own weight |
| `GrpoRewards.CombineBounds` | rewards/grpo_rewards.py:49-66 | bounds on the terms bound the sum |
| `GrpoRewards.Combine` | rewards/grpo_rewards.py:52-66 | the weighted sum of the five terms: diagnosis plus path bonus plus abnormality bonus, minus step cost and safety penalty; `CombineSteps` and `CombineBounds` state how each term moves and bounds it |
| `GrpoRewards.AbnormalityTermBounds` | rewards/grpo_rewards.py:61-64 | the abnormality bonus lies between 0 and 0.05 per flag |
| `GrpoRewards.AbnormalityTerm` | rewards/grpo_rewards.py:61-64 | the abnormality bonus: 0.0 when the flags are absent, else 0.05 per set flag |
| `GrpoRewards.EpisodeRewardBounds` | rewards/grpo_rewards.py:39-66 | with alpha in [0, 1] and beta ≥ 0 the reward lies between minus the step and safety charges and 1 plus every bonus in full, minus those charges |
| `GrpoRewards.EpisodeReward` | rewards/grpo_rewards.py:39-66 | `compute_episode_reward` with weights `w`; its range and its response to each input are stated by the `EpisodeReward…` lemmas |
| `GrpoRewards.EpisodeRewardPathBranch` | rewards/grpo_rewards.py:52-66 | one more matching branch adds beta; a non-matching one adds nothing |
| `GrpoRewards.EpisodeRewardCharges` | rewards/grpo_rewards.py:55-66 | one more step costs `step_cost`; one more skipped safety check costs `safety_penalty` |
| `GrpoRewards.EpisodeRewardNoFlags` | rewards/grpo_rewards.py:62-64 | absent flags give the same reward as a flag list exactly when that list has none set |
| `GrpoRewards.BraceBlockSpec` | rewards/grpo_rewards.py:93 | a block is found exactly when some `{` precedes some `}`, and it runs from the first `{` to the last `}` |
| `GrpoRewards.BraceBlockInProse` | rewards/grpo_rewards.py:93 | prose with no `{` before the block and no `}` after it does not change what is found |
| `GrpoRewards.BraceBlock` | rewards/grpo_rewards.py:93 | the greedy `\{.*\}` with `DOTALL`: a found block starts with `{` and ends with `}` (which block, in `BraceBlockSpec`) |
| `GrpoRewards.EpocScoreSpec` | rewards/grpo_rewards.py:91-105 | a completion is scored on its embedded dictionary alone, with the documented defaults for missing keys, or 0 when it does not parse |
| `GrpoRewards.EpocScoreNoBlock` | rewards/grpo_rewards.py:91-105 | a completion with no `{…}` block scores 0 |
| `GrpoRewards.EpocScore` | rewards/grpo_rewards.py:91-105 | the score of one completion: 0 when no `{…}` block is found or the block does not evaluate to a dictionary (the `except` at lines 104-105); dictionaries with the docstring's field types only |
| `Text.Min` | rewards/grpo_rewards.py:90 | the length of a two-way `zip`: the shorter length |
| `GrpoRewards.EpocRewards` | rewards/grpo_rewards.py:68-107 | one reward per zipped (completion, answer) pair, each that completion's episode score; the prompts are not read |
| `Transforms.TransformFn` | grpo_code/transforms.py:35-44 | a single user message whose content is the question, then a blank line, then the whole system prompt; the test cases pass through as the answers |
| `Transforms.Concat3` | grpo_code/transforms.py:40 | where the three parts of a concatenation sit |
| `Transforms.TransformRoundTrip` | grpo_code/transforms.py:35-44 | the row can be read back from the record the transform produces |
| `Transforms.TransformInjective` | grpo_code/transforms.py:35-44 | different rows give different records |
| `Transforms.AcecodeTransform` | grpo_code/transforms.py:34-46 | the returned function is `transform_fn` and the loader drops exactly `question` and `test_cases`, whatever the configuration |

## Left out

- The WebAssembly runtime is not part of this model: building an engine, loading the
  image and running under a fuel budget (grpo_code/wasm.py). A snippet's verdict is the
  oracle `run`. The model does not capture that `does_code_run` turns every exception
  into `False`, or that the oracle's answer might depend on the environment installed.
- Real concurrency, timing and the timeout value are left out. `wait` may return any
  subset of the pending futures.
- Forced pool shutdown is recorded only as the list of pools shut down.
- Exceptions raised by the pool itself (for example a broken pool re-raising in
  `future.result()`) are not modelled.
- `atexit`, the signal handlers and `sys.exit` are recorded only as counters and a flag.
  The `cleanup_and_exit` handler is not modelled (grpo_code/parallel_executor.py:34-40).
- The timeout warning `print` is not modelled.
- Reading environment variables and `int()` parsing of their text are left out:
  `LoadConfig` takes the already converted values and a `fileExists` oracle.
- Floating point is modelled as exact `real` arithmetic; `math.pow` is written as a cube.
- `eval` of the e-POCT block is the oracle `parse`. Every exception that the scoring can
  raise is folded into `parse` returning `None`: a block that is not a dictionary, and a
  field whose type makes `compute_episode_reward` raise (a list of strings in `num_steps`,
  say).
- GrpoRewards.EpocScore: the dictionary is limited to the field types of the docstring at
  rewards/grpo_rewards.py:76-84 (integer counts, lists of booleans). Values of other types
  that do not raise are outside the model: a float `num_steps` or `num_safety_skips` is
  simply multiplied (lines 56 and 59), and numbers in `path_branch_matches` or
  `abnormality_flags` are simply summed (lines 53 and 64). Python scores these, but an
  `Episode` cannot hold them, so `parse` can map them only to `None` or to another episode.
- GrpoRewards.Normalize: folds ASCII capitals only. Python's `str.lower()` also folds
  other Unicode letters, and `IGNORECASE` folds other letters too (only the long s is
  modelled, because it matches `s` in `answer`).
- Rewards.ModelAnswers, Rewards.CodeExecutionRewardFunc, Rewards.AnswerExecutionRewardFunc,
  Rewards.SoftFormatRewardFunc: each completion is required to hold at least one message.
  The source indexes `completion[0]` and would raise `IndexError` on an empty one.
- GrpoRewards.McqReward: scores with the closing tag `</answer>`, not with the `<answer>`
  written at rewards/grpo_rewards.py:10. That intent is inferred: the comment at
  rewards/grpo_rewards.py:9 speaks of the answer inside `<answer>` tags, and the other
  extractor, grpo_code/rewards.py:31, reads `<answer>...</answer>`. The as-written
  scoring is `GrpoRewards.McqScore`, and its failure is proved under "Findings".
- The dataset script eval_plus/data/medmqca_dump.py and the re-exports in
  grpo_code/__init__.py are not part of this model. The first is download and file I/O
  only; the second only re-exports names.
- The `tokenizer` argument of `transform_fn` and the `*args`/`**kwargs` of the reward
  functions are not read by the source, so they are not modelled.

## Findings

| source | as written | input that shows it | evidently intended | confidence | as-written member | corrected member |
|---|---|---|---|---|---|---|
| rewards/grpo_rewards.py:10 | `re.search(r"<answer>\s*(.*?)\s*<answer>", response, re.IGNORECASE)` closes the answer on a second `<answer>` | response `<answer>B</answer>` with correct answers `["B"]` scores 0.0 | close on `</answer>`, inferred from the comment at rewards/grpo_rewards.py:9 ("inside <answer> tags") and the `<answer>…</answer>` pattern at grpo_code/rewards.py:31; the same response then scores 1.0 | not executed | `GrpoRewards.McqMissesClosedAnswer`, `GrpoRewards.McqClosedAnswerExample` | `GrpoRewards.IntendedRecoversAnswer`, `GrpoRewards.McqReward` |

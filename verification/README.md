# evgflip flip detection in Dafny

This project models the flip detection of `evgflip`. The input is a history of
continuous-integration versions: each version has a revision, a creation time
and builds, and each build has a variant and tasks. The history is scanned in
windows of three consecutive versions. For each window (previous, current,
next), every task of every selected build of the current version is compared
by display name with the task of the same build variant in the two neighbours.
A task is a *flip* when all of the following hold:

- it is activated and did not succeed;
- the previous version shows it with the same status;
- the next version shows it with a different status.

The result maps each revision to its build variants, and each variant to its
flipped task names. Variants and revisions without flips are left out.

The Evergreen API objects are plain immutable data (`types.dfy`):

- `Version(revision, createTime, builds)`;
- `Build(displayName, buildVariant, tasks)`;
- `Task(displayName, activated, status, isSuccess)`.

Each function of `src/evgflip/find_flips.py` is one function in
`find_flips.dfy`. Properties that relate several of them are lemmas in
`flip_lemmas.dfy`. The repository's unit tests, and an end-to-end history of
three versions, are concrete lemmas in `scenarios.dfy`.

The model follows the code where the code and its description differ:

- `_filter_builds` returns true exactly for builds whose display name starts
  with `!` (lines 45-47). Line 116 keeps the builds for which it returns
  true, so only those builds are analysed. Its docstring (lines 40-43) can be
  read either way, since "filtered" may mean kept or dropped; the model
  follows lines 45-47 and 116. `FilterBuilds` and the scenarios
  `MarkedBuildReportsFlip` and `UnmarkedBuildIsSkipped` show this behaviour.
- The windows are taken in the order the API returns versions, newest first.
  So `version_prev` (`vs[i-1]`) is the *newer* neighbour and `version_next`
  (`vs[i+1]`) the older one. The model keeps the code's names and indices.
- A flip needs the same status in the previous version and a different one
  in the next. So a task failing once between two passing runs is not a flip.
- In `not task_prev`, only a missing key makes the test true, because task
  objects are always truthy.

The flip-predicate tests (tests/evgflip/test_find_flips.py:39-97) pass
`activate=True`, not `activated=True`, to their mocks. A mock's unset
`activated` attribute is truthy anyway, so the scenarios use an activated
task. A mock's unset `status` differs from "failed", so
`PreviousChangedIsNotAFlip` gives the previous task another status.

## Model

| member | source | states |
|---|---|---|
| FindFlips.FilterEmptyValues | src/evgflip/find_flips.py:29-35 | the result keeps exactly the keys whose value is non-empty, with their values unchanged; an empty map gives an empty map |
| FlipLemmas.FilterEmptyValuesIdempotent | src/evgflip/find_flips.py:29-35 | filtering an already filtered map changes nothing |
| FindFlips.Get | src/evgflip/find_flips.py:70-74 | a dictionary `get`: `Some` exactly when the name is a key, then with that key's task |
| FindFlips.FilterBuilds | src/evgflip/find_flips.py:38-47 | true exactly when the build's display name is non-empty and starts with '!' |
| FindFlips.SelectBuilds | src/evgflip/find_flips.py:116 | a build is kept exactly when it belongs to the version and the selector accepts it, and the kept builds keep their order |
| FindFlips.CreateTaskMap | src/evgflip/find_flips.py:50-57 | the keys are exactly the display names of the list, each key maps to a task of the list with that name, and a task that is the last with its name is the one its name maps to |
| FlipLemmas.TaskMapOfUniqueNames | tests/evgflip/test_find_flips.py:31-36 | with unique names the map has as many entries as the list has tasks, and each task's name maps to that task |
| FindFlips.IsTaskAFlip | src/evgflip/find_flips.py:60-79 | never a flip when the task is not activated or succeeded, when the previous task is missing or has a different status, or when the next task is missing or has the same status; otherwise a flip |
| FindFlips.FlippedTaskNames | src/evgflip/find_flips.py:97-100 | the reported names are a subsequence of the task names in task order, every flipping task's name is reported, and every reported name belongs to a flipping task |
| FlipLemmas.FlippedTaskNamesEnumerates | src/evgflip/find_flips.py:97-100 | the reported names are exactly the names at the positions of the flipping tasks, listed in increasing position order, so a name appears once per flipping task that carries it |
| FindFlips.FirstOfVariant | src/evgflip/find_flips.py:91-92 | the build returned belongs to the list and has the requested variant |
| FindFlips.BuildByVariant | src/evgflip/find_flips.py:91-92 | the neighbour's build returned belongs to that version and has the requested variant |
| FindFlips.FlipsForBuild | src/evgflip/find_flips.py:82-102 | the flipped names of a build are a subsequence of its task names, in task order |
| FlipLemmas.FlipsForBuildWitnesses | src/evgflip/find_flips.py:91-100 | each reported name belongs to a task that is activated and not successful, whose namesake in the previous version's build has the same status, and whose namesake in the next version's build has a different one |
| FlipLemmas.FlipsForBuildComplete | src/evgflip/find_flips.py:91-100 | a task of the build that is activated and not successful, whose namesakes in the previous version's build all have its status and whose namesakes in the next version's build all differ from it, is reported |
| FindFlips.VariantFlips | src/evgflip/find_flips.py:118-121 | the keys are exactly the variants of the given builds |
| FlipLemmas.VariantFlipsLastWins | src/evgflip/find_flips.py:118-121 | a variant's entry is the flip list of the last build of that variant |
| FlipLemmas.SelectBuildsCounts | src/evgflip/find_flips.py:116 | a selected build is kept as often as it occurs in the version, and any other build not at all |
| FlipLemmas.SelectBuildsUnique | src/evgflip/find_flips.py:116 | selecting builds keeps the variants of a version distinct |
| FindFlips.FlipsForVersion | src/evgflip/find_flips.py:105-123 | the result carries the current version's revision; every variant in it belongs to a build of the version that the selector accepts; no variant has an empty list |
| FlipLemmas.FlipsForVersionPerBuild | src/evgflip/find_flips.py:116-123 | with one build per variant, a selected build's variant is present exactly when that build has a flipped task, and then it holds that build's flipped tasks |
| FlipLemmas.FlipsForSingleBuild | src/evgflip/find_flips.py:116-123 | a version whose only build is selected reports that build's flips under its variant, or nothing when it has none |
| FindFlips.ScheduleFrom | src/evgflip/find_flips.py:142-150 | items are the windows (vs[i-1], vs[i], vs[i+1]) for consecutive i, each with a current version not older than the cutoff; scheduling stops only at the end of the history or at the first current version older than the cutoff |
| FlipLemmas.ScheduleWindows | src/evgflip/find_flips.py:142-150 | no windows with fewer than three versions; window k has previous vs[k], current vs[k+1] and next vs[k+2]; its current version is not older than the cutoff; a stop before the end is caused by an older current version |
| FlipLemmas.ScheduleItem | src/evgflip/find_flips.py:142-149 | the k-th scheduled window has previous vs[k], current vs[k+1] and next vs[k+2], and its current version is not older than the cutoff |
| FindFlips.RunJobs | src/evgflip/find_flips.py:150-152 | one result per work item, each carrying its item's revision and no empty variant list |
| FlipLemmas.RunJobsInOrder | src/evgflip/find_flips.py:150-152 | the k-th result is the analysis of the k-th scheduled item, so results follow scheduling order |
| FindFlips.CollectResults | src/evgflip/find_flips.py:154 | every revision maps to a non-empty flip map, which is the flip map of some result for that revision |
| FlipLemmas.CollectResultsLastWins | src/evgflip/find_flips.py:154 | a revision maps to the flip map of its last result with a non-empty flip map |
| FlipLemmas.CollectResultsComplete | src/evgflip/find_flips.py:154 | every result with a non-empty flip map has its revision in the report |
| FindFlips.Find | src/evgflip/find_flips.py:126-154 | every reported revision maps to a non-empty map whose variant lists are all non-empty |
| FlipLemmas.FindEmptyWithoutWindow | src/evgflip/find_flips.py:142 | with fewer than three versions the report is empty |
| FlipLemmas.FindEmptyAtCutoff | src/evgflip/find_flips.py:145-147 | when the first candidate current version is older than the cutoff, nothing is scheduled and the report is empty |
| FlipLemmas.FindReportsScheduledRevisions | src/evgflip/find_flips.py:142-154 | every reported revision is that of the current version vs[k] of a scheduled window (1 <= k <= number of windows), so of a version before the cutoff stop, with a neighbour on each side and not older than the cutoff |
| FlipLemmas.FindPerVersion | src/evgflip/find_flips.py:149-154 | with distinct revisions, a scheduled version's revision is reported exactly when its analysis found a flip, and then with exactly those flips |
| FlipLemmas.FindSingleWindow | src/evgflip/find_flips.py:142-154 | a history with one scheduled window reports that window's flips under its revision, or nothing |
| Scenarios.FilterEmptyValuesExample | tests/evgflip/test_find_flips.py:7-23 | an empty map stays empty; of the test's string value "something" and empty list, only the string is kept (the test's dict and set values are not modelled) |
| Scenarios.TaskMapEmpty | tests/evgflip/test_find_flips.py:27-29 | an empty task list gives an empty map |
| Scenarios.TaskMapExample | tests/evgflip/test_find_flips.py:31-36 | five distinct task names give five entries, and "task 0" maps to the first task |
| Scenarios.NonActivatedIsNotAFlip | tests/evgflip/test_find_flips.py:40-43 | a task that was not activated is not a flip |
| Scenarios.SuccessfulIsNotAFlip | tests/evgflip/test_find_flips.py:45-49 | a successful task is not a flip |
| Scenarios.NoPreviousIsNotAFlip | tests/evgflip/test_find_flips.py:51-55 | a failed task absent from the previous version is not a flip |
| Scenarios.PreviousChangedIsNotAFlip | tests/evgflip/test_find_flips.py:57-64 | a failed task whose previous namesake has another status is not a flip |
| Scenarios.NextMissingIsNotAFlip | tests/evgflip/test_find_flips.py:66-73 | a failed task with an equal previous status but absent from the next version is not a flip |
| Scenarios.NextUnchangedIsNotAFlip | tests/evgflip/test_find_flips.py:75-85 | a failed task with the same status in the previous and the next version is not a flip |
| Scenarios.WasAFlip | tests/evgflip/test_find_flips.py:87-97 | a failed task with the same status before and "success" after is a flip |
| Scenarios.MarkedBuildFlips | src/evgflip/find_flips.py:91-102 | in a three-version history, task A (failed, failed, passed) is a flip and task B is not |
| Scenarios.MarkedVersionFlips | src/evgflip/find_flips.py:116-123 | the middle version of that history reports variant "linux" with task A |
| Scenarios.MarkedBuildReportsFlip | src/evgflip/find_flips.py:126-154 | the whole run over that history with a '!'-named build reports only revision "abc123" with variant "linux" and task A |
| Scenarios.UnmarkedBuildIsSkipped | src/evgflip/find_flips.py:45-47 | the same history with a build name lacking '!' reports nothing |
| Scenarios.CutoffAfterEverything | src/evgflip/find_flips.py:145-147 | a cutoff later than every creation time schedules nothing and reports nothing |

## Left out

- The thread pool (`n_threads`, `DEFAULT_THREADS`) is left out. It adds concurrency only, so `RunJobs` is a sequential map in scheduling order.
- The Evergreen API client is left out. `versions_by_project`, `get_builds`, `get_tasks` and `build_by_variant` become immutable data, and the history becomes a finite sequence. A lazy or paginated source is not modelled.
- BuildByVariant: the library's lookup is not part of this model. It returns the first build of the neighbour with that variant. Callers must ensure the variant exists, so a missing variant is not modelled.
- Network failures are not modelled. The code does not catch them, so they would only abort the run.
- Logging through structlog is left out. It is a side effect only.
- Creation times and the cutoff are integers, because only `<` is applied to them.
- The task status vocabulary is an opaque string compared for equality, and `is_success()` is a stored boolean.
- FilterEmptyValues: values are sequences, which covers lists and strings. Python's other falsy values (`None`, `0`, empty sets and dicts) are not modelled, because the code only passes it lists.
- SelectBuilds: its own contract states which builds are kept and in what order, not how many copies; `SelectBuildsCounts` states the counts.
- FlippedTaskNames: its own contract does not fix how often a repeated name is listed; `FlippedTaskNamesEnumerates` states the exact list, once per flipping task.
- FlipsForBuild: its own contract states only the order of the names; `FlipsForBuildWitnesses` and `FlipsForBuildComplete` state both directions of which tasks are reported.
- FlipsForVersionPerBuild: the per-build statement assumes one build per variant. With duplicates, a later build of a variant overwrites an earlier one, as `VariantFlipsLastWins` states.
- FindPerVersion: the per-version statement assumes distinct revisions. With duplicates, the last non-empty result wins, as `CollectResultsLastWins` states.
- The command-line wrapper `src/evgflip/cli.py` and `setup.py` are left out. They hold no flip logic.

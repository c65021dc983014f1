/** Flip detection over a window of three consecutive versions, one function
    per function of src/evgflip/find_flips.py. The thread pool becomes an
    order-preserving sequential map, and the remote API becomes the plain
    data of the `Types` module. */
module FindFlips {
  import opened Types

  // ---------------------------------------------------------------------------
  // Small dictionary helpers
  // ---------------------------------------------------------------------------

  /** Drops every entry whose value is empty (Python's `if v` on a list). */
  function FilterEmptyValues<K, V>(d: map<K, seq<V>>): (r: map<K, seq<V>>)
    ensures r.Keys <= d.Keys
    ensures forall k :: k in d ==> (k in r <==> d[k] != [])
    ensures forall k :: k in r ==> r[k] == d[k] && r[k] != []
    ensures d == map[] ==> r == map[]
  {
    map k | k in d && d[k] != [] :: d[k]
  }

  /** Dictionary `get`: `None` for a missing key. */
  function Get(m: TaskMap, name: string): (r: Option<Task>)
    ensures r.Some? <==> name in m
    ensures r.Some? ==> r.value == m[name]
  {
    if name in m then Some(m[name]) else None
  }

  // ---------------------------------------------------------------------------
  // Build selection
  // ---------------------------------------------------------------------------

  /** The build selector as the code has it: true exactly for builds whose
      display name starts with '!', and only those builds are analysed. */
  function FilterBuilds(build: Build): (r: bool)
    ensures r <==> |build.displayName| > 0 && build.displayName[0] == '!'
  {
    "!" <= build.displayName
  }

  /** The builds of a version that the selector keeps, in version order. */
  function SelectBuilds(builds: seq<Build>): (r: seq<Build>)
    ensures forall b :: b in r <==> b in builds && FilterBuilds(b)
    ensures IsSubsequence(r, builds)
  {
    if |builds| == 0 then []
    else
      var init := builds[..|builds| - 1];
      var last := builds[|builds| - 1];
      assert builds == init + [last];
      var r := SelectBuilds(init);
      if FilterBuilds(last) then
        assert (r + [last])[..|r|] == r;
        r + [last]
      else
        SubsequenceOfLonger(r, init, last);
        r
  }

  /** Appending to the longer sequence keeps a subsequence a subsequence. */
  lemma SubsequenceOfLonger<T>(a: seq<T>, b: seq<T>, x: T)
    requires IsSubsequence(a, b)
    ensures IsSubsequence(a, b + [x])
  {
    assert (b + [x])[..|b|] == b;
  }

  // ---------------------------------------------------------------------------
  // Task matching by display name
  // ---------------------------------------------------------------------------

  /** Index `i` holds the last task of `tasks` named `tasks[i].displayName`. */
  ghost predicate IsLastOccurrence(tasks: seq<Task>, i: int)
  {
    0 <= i < |tasks| && forall j :: i < j < |tasks| ==> tasks[j].displayName != tasks[i].displayName
  }

  /** Tasks keyed by display name; a later task overwrites an earlier one
      with the same name. */
  function CreateTaskMap(tasks: seq<Task>): (m: TaskMap)
    ensures m.Keys == set t | t in tasks :: t.displayName
    ensures forall n :: n in m ==> m[n] in tasks && m[n].displayName == n
    ensures forall i :: IsLastOccurrence(tasks, i) ==> m[tasks[i].displayName] == tasks[i]
  {
    if |tasks| == 0 then map[]
    else
      var init := tasks[..|tasks| - 1];
      var last := tasks[|tasks| - 1];
      assert tasks == init + [last];
      var m := CreateTaskMap(init)[last.displayName := last];
      assert m.Keys == set t | t in tasks :: t.displayName by {
        assert (set t | t in tasks :: t.displayName)
            == (set t | t in init :: t.displayName) + {last.displayName};
      }
      assert forall i :: IsLastOccurrence(tasks, i) ==> m[tasks[i].displayName] == tasks[i] by {
        forall i | IsLastOccurrence(tasks, i) ensures m[tasks[i].displayName] == tasks[i] {
          if i < |tasks| - 1 {
            assert IsLastOccurrence(init, i) && init[i] == tasks[i];
          }
        }
      }
      m
  }

  // ---------------------------------------------------------------------------
  // The flip predicate
  // ---------------------------------------------------------------------------

  /** The exact flip condition: activated, not successful, the previous
      version shows the same status and the next version a different one. */
  ghost predicate FlipCondition(task: Task, tasksPrev: TaskMap, tasksNext: TaskMap)
  {
    && task.activated
    && !task.isSuccess
    && task.displayName in tasksPrev
    && tasksPrev[task.displayName].status == task.status
    && task.displayName in tasksNext
    && tasksNext[task.displayName].status != task.status
  }

  /** Whether `task` of the current version is a flip, checked in the
      source's short-circuit order. */
  function IsTaskAFlip(task: Task, tasksPrev: TaskMap, tasksNext: TaskMap): (r: bool)
    ensures !task.activated ==> !r
    ensures task.isSuccess ==> !r
    ensures task.displayName !in tasksPrev ==> !r
    ensures task.displayName in tasksPrev && tasksPrev[task.displayName].status != task.status ==> !r
    ensures task.displayName !in tasksNext ==> !r
    ensures task.displayName in tasksNext && tasksNext[task.displayName].status == task.status ==> !r
    ensures r <==> FlipCondition(task, tasksPrev, tasksNext)
  {
    if task.activated && !task.isSuccess then
      var taskPrev := Get(tasksPrev, task.displayName);
      if taskPrev.None? || taskPrev.value.status != task.status then
        false  // the previous version differs or lacks it
      else
        var taskNext := Get(tasksNext, task.displayName);
        if taskNext.None? || taskNext.value.status == task.status then
          false  // same status in the next version too
        else
          true
    else
      false
  }

  // ---------------------------------------------------------------------------
  // Per-build aggregation
  // ---------------------------------------------------------------------------

  /** The display names of the tasks that flip, in task order. */
  function FlippedTaskNames(tasks: seq<Task>, tasksPrev: TaskMap, tasksNext: TaskMap): (r: seq<string>)
    ensures |r| <= |tasks|
    ensures IsSubsequence(r, Names(tasks))
    ensures forall t :: t in tasks && IsTaskAFlip(t, tasksPrev, tasksNext) ==> t.displayName in r
    ensures forall n :: n in r ==> exists t :: t in tasks && t.displayName == n && IsTaskAFlip(t, tasksPrev, tasksNext)
  {
    if |tasks| == 0 then []
    else
      var init := tasks[..|tasks| - 1];
      var last := tasks[|tasks| - 1];
      assert tasks == init + [last];
      assert Names(tasks) == Names(init) + [last.displayName];
      assert Names(tasks)[..|tasks| - 1] == Names(init);
      var r := FlippedTaskNames(init, tasksPrev, tasksNext);
      if IsTaskAFlip(last, tasksPrev, tasksNext) then
        assert (r + [last.displayName])[..|r|] == r;
        r + [last.displayName]
      else
        SubsequenceOfLonger(r, Names(init), last.displayName);
        r
  }

  /** The build variants present among `builds`. */
  function VariantsOf(builds: seq<Build>): set<string>
  {
    set b | b in builds :: b.buildVariant
  }

  /** The first build of `builds` with the given variant. */
  function FirstOfVariant(builds: seq<Build>, variant: string): (b: Build)
    requires variant in VariantsOf(builds)
    ensures b in builds && b.buildVariant == variant
  {
    if builds[0].buildVariant == variant then builds[0]
    else
      assert variant in VariantsOf(builds[1..]) by {
        var b :| b in builds && b.buildVariant == variant;
        assert b in builds[1..];
      }
      FirstOfVariant(builds[1..], variant)
  }

  /** The neighbour version's build of a variant. */
  function BuildByVariant(version: Version, variant: string): (b: Build)
    requires variant in VariantsOf(version.builds)
    ensures b in version.builds && b.buildVariant == variant
  {
    FirstOfVariant(version.builds, variant)
  }

  /** Both neighbours have a build of every variant in `variants`. */
  predicate HasNeighbours(variants: set<string>, versionPrev: Version, versionNext: Version)
  {
    variants <= VariantsOf(versionPrev.builds) && variants <= VariantsOf(versionNext.builds)
  }

  /** The tasks of `build` that flip, compared by name with the same
      variant's build in the two neighbour versions. */
  function FlipsForBuild(build: Build, versionPrev: Version, versionNext: Version): (r: seq<string>)
    requires HasNeighbours({build.buildVariant}, versionPrev, versionNext)
    ensures IsSubsequence(r, Names(build.tasks))
  {
    var buildPrev := BuildByVariant(versionPrev, build.buildVariant);
    var buildNext := BuildByVariant(versionNext, build.buildVariant);
    FlippedTaskNames(build.tasks, CreateTaskMap(buildPrev.tasks), CreateTaskMap(buildNext.tasks))
  }

  // ---------------------------------------------------------------------------
  // Per-version aggregation
  // ---------------------------------------------------------------------------

  /** Every build the selector keeps can be matched in both neighbours. */
  predicate Analysable(item: WorkItem)
  {
    HasNeighbours(VariantsOf(SelectBuilds(item.version.builds)), item.versionPrev, item.versionNext)
  }

  /** No variant is listed with an empty list of flipped tasks. */
  ghost predicate NoEmptyLists(flips: map<string, seq<string>>)
  {
    forall v :: v in flips ==> flips[v] != []
  }

  /** Index `i` holds the last build of `builds` with variant `builds[i].buildVariant`. */
  ghost predicate IsLastOfVariant(builds: seq<Build>, i: int)
  {
    0 <= i < |builds| && forall j :: i < j < |builds| ==> builds[j].buildVariant != builds[i].buildVariant
  }

  /** Variant -> flipped task names for every build, a later build of the
      same variant overwriting an earlier one. */
  function VariantFlips(builds: seq<Build>, versionPrev: Version, versionNext: Version): (m: map<string, seq<string>>)
    requires HasNeighbours(VariantsOf(builds), versionPrev, versionNext)
    ensures m.Keys == VariantsOf(builds)
  {
    if |builds| == 0 then map[]
    else
      var init := builds[..|builds| - 1];
      var last := builds[|builds| - 1];
      assert builds == init + [last];
      VariantFlips(init, versionPrev, versionNext)[last.buildVariant := FlipsForBuild(last, versionPrev, versionNext)]
  }

  /** The flips of one work item: only selected builds, only variants with at
      least one flipped task, labelled with the current revision. */
  function FlipsForVersion(item: WorkItem): (r: FlipList)
    requires Analysable(item)
    ensures r.revision == item.version.revision
    ensures forall v :: v in r.flippedTasks ==>
      exists b :: b in item.version.builds && FilterBuilds(b) && b.buildVariant == v
    ensures NoEmptyLists(r.flippedTasks)
  {
    var builds := SelectBuilds(item.version.builds);
    FlipList(item.version.revision,
             FilterEmptyValues(VariantFlips(builds, item.versionPrev, item.versionNext)))
  }

  // ---------------------------------------------------------------------------
  // The driver
  // ---------------------------------------------------------------------------

  /** The work items scheduled from position `i` on: windows
      (vs[i-1], vs[i], vs[i+1]) in order, stopping at the first current
      version created before `lookBack` or when no full window is left. */
  function ScheduleFrom(vs: seq<Version>, lookBack: int, i: nat): (items: seq<WorkItem>)
    requires i >= 1
    ensures items != [] ==> i + |items| < |vs|
    ensures forall k :: 0 <= k < |items| ==>
      items[k] == WorkItem(vs[i + k], vs[i + k - 1], vs[i + k + 1]) && items[k].version.createTime >= lookBack
    ensures i + |items| + 1 < |vs| ==> vs[i + |items|].createTime < lookBack
    decreases |vs| - i
  {
    if i + 1 >= |vs| then []
    else if vs[i].createTime < lookBack then []
    else
      var rest := ScheduleFrom(vs, lookBack, i + 1);
      var items := [WorkItem(vs[i], vs[i - 1], vs[i + 1])] + rest;
      assert forall k :: 1 <= k < |items| ==> items[k] == rest[k - 1];
      items
  }

  /** All work items `find` schedules for `vs` (newest first, as the API
      returns them) and the look-back cutoff. What it schedules is stated by
      the lemmas `ScheduleWindows` and `ScheduleItem`. */
  function Schedule(vs: seq<Version>, lookBack: int): seq<WorkItem>
  {
    ScheduleFrom(vs, lookBack, 1)
  }

  /** Every work item of the list can be analysed. */
  predicate AllAnalysable(items: seq<WorkItem>)
  {
    |items| == 0 || (Analysable(items[0]) && AllAnalysable(items[1..]))
  }

  /** The worker pool as a sequential map: one result per work item, in
      scheduling order. */
  function RunJobs(items: seq<WorkItem>): (results: seq<FlipList>)
    requires AllAnalysable(items)
    ensures |results| == |items|
    ensures forall k :: 0 <= k < |items| ==> results[k].revision == items[k].version.revision
    ensures forall k :: 0 <= k < |items| ==> NoEmptyLists(results[k].flippedTasks)
  {
    if |items| == 0 then []
    else [FlipsForVersion(items[0])] + RunJobs(items[1..])
  }

  /** Index `i` holds the last result with a non-empty flip map for its revision. */
  ghost predicate IsLastNonEmpty(results: seq<FlipList>, i: int)
  {
    && 0 <= i < |results|
    && results[i].flippedTasks != map[]
    && forall j :: i < j < |results| && results[j].revision == results[i].revision ==>
         results[j].flippedTasks == map[]
  }

  /** Revision -> flip map for the results that found a flip; a later result
      for the same revision overwrites an earlier one. */
  function CollectResults(results: seq<FlipList>): (m: Report)
    ensures forall rev :: rev in m ==> m[rev] != map[]
    ensures forall rev :: rev in m ==>
      exists i :: 0 <= i < |results| && results[i].revision == rev && m[rev] == results[i].flippedTasks
  {
    if |results| == 0 then map[]
    else
      var init := results[..|results| - 1];
      var last := results[|results| - 1];
      var m := CollectResults(init);
      assert forall i :: 0 <= i < |init| ==> results[i] == init[i];
      if last.flippedTasks != map[] then m[last.revision := last.flippedTasks] else m
  }

  /** Every work item the driver schedules can be analysed. */
  predicate Schedulable(vs: seq<Version>, lookBack: int)
  {
    AllAnalysable(Schedule(vs, lookBack))
  }

  /** The flips of every revision in the scanned history window that has any. */
  function Find(vs: seq<Version>, lookBack: int): (r: Report)
    requires Schedulable(vs, lookBack)
    ensures forall rev :: rev in r ==> r[rev] != map[] && NoEmptyLists(r[rev])
  {
    var results := RunJobs(Schedule(vs, lookBack));
    var r := CollectResults(results);
    assert forall rev :: rev in r ==> NoEmptyLists(r[rev]) by {
      forall rev | rev in r ensures NoEmptyLists(r[rev]) {
        var i :| 0 <= i < |results| && results[i].revision == rev && r[rev] == results[i].flippedTasks;
      }
    }
    r
  }
}

/** Properties that relate several operations of `FindFlips`: task matching
    with unique and duplicate names, what a per-build and a per-version
    result contain, and what the driver schedules and reports. */
module FlipLemmas {
  import opened Types
  import opened FindFlips

  // ---------------------------------------------------------------------------
  // Empty-value filter
  // ---------------------------------------------------------------------------

  /** Filtering twice removes nothing more: the result has no empty value left. */
  lemma FilterEmptyValuesIdempotent<K, V>(d: map<K, seq<V>>)
    ensures FilterEmptyValues(FilterEmptyValues(d)) == FilterEmptyValues(d)
  {
  }

  // ---------------------------------------------------------------------------
  // Task matching
  // ---------------------------------------------------------------------------

  /** No two tasks of the list share a display name. */
  ghost predicate UniqueNames(tasks: seq<Task>)
  {
    forall i, j :: 0 <= i < j < |tasks| ==> tasks[i].displayName != tasks[j].displayName
  }

  /** With unique names the map has one entry per task and each name maps
      to its own task. */
  lemma {:induction false} TaskMapOfUniqueNames(tasks: seq<Task>)
    requires UniqueNames(tasks)
    ensures |CreateTaskMap(tasks)| == |tasks|
    ensures forall i :: 0 <= i < |tasks| ==> CreateTaskMap(tasks)[tasks[i].displayName] == tasks[i]
  {
    if |tasks| > 0 {
      var init := tasks[..|tasks| - 1];
      var last := tasks[|tasks| - 1];
      assert tasks == init + [last];
      TaskMapOfUniqueNames(init);
      assert last.displayName !in CreateTaskMap(init);
      forall i | 0 <= i < |tasks|
        ensures CreateTaskMap(tasks)[tasks[i].displayName] == tasks[i]
      {
        assert IsLastOccurrence(tasks, i);
      }
    }
  }

  // ---------------------------------------------------------------------------
  // Per-build result
  // ---------------------------------------------------------------------------

  /** Every task a build reports as flipped failed in the current version,
      shows the same status under its name in the previous version's build of
      the variant, and a different status in the next version's build. */
  lemma FlipsForBuildWitnesses(build: Build, versionPrev: Version, versionNext: Version)
    requires HasNeighbours({build.buildVariant}, versionPrev, versionNext)
    ensures forall n :: n in FlipsForBuild(build, versionPrev, versionNext) ==>
      exists t, tp, tn ::
        && t in build.tasks && t.displayName == n && t.activated && !t.isSuccess
        && tp in BuildByVariant(versionPrev, build.buildVariant).tasks
        && tp.displayName == n && tp.status == t.status
        && tn in BuildByVariant(versionNext, build.buildVariant).tasks
        && tn.displayName == n && tn.status != t.status
  {
    var mp := CreateTaskMap(BuildByVariant(versionPrev, build.buildVariant).tasks);
    var mn := CreateTaskMap(BuildByVariant(versionNext, build.buildVariant).tasks);
    forall n | n in FlipsForBuild(build, versionPrev, versionNext)
      ensures exists t, tp, tn ::
        && t in build.tasks && t.displayName == n && t.activated && !t.isSuccess
        && tp in BuildByVariant(versionPrev, build.buildVariant).tasks
        && tp.displayName == n && tp.status == t.status
        && tn in BuildByVariant(versionNext, build.buildVariant).tasks
        && tn.displayName == n && tn.status != t.status
    {
      var t :| t in build.tasks && t.displayName == n && IsTaskAFlip(t, mp, mn);
      var tp, tn := mp[n], mn[n];
      assert tp.status == t.status && tn.status != t.status;
    }
  }

  /** Conversely, a task of the build is reported when it is activated and
      not successful, the previous version's build of the variant has it with
      the same status, and the next version's build has it with a different
      one (every namesake counts, so duplicates cannot hide it). */
  lemma FlipsForBuildComplete(build: Build, versionPrev: Version, versionNext: Version, t: Task)
    requires HasNeighbours({build.buildVariant}, versionPrev, versionNext)
    requires t in build.tasks && t.activated && !t.isSuccess
    requires exists tp :: tp in BuildByVariant(versionPrev, build.buildVariant).tasks && tp.displayName == t.displayName
    requires forall tp :: tp in BuildByVariant(versionPrev, build.buildVariant).tasks && tp.displayName == t.displayName ==>
      tp.status == t.status
    requires exists tn :: tn in BuildByVariant(versionNext, build.buildVariant).tasks && tn.displayName == t.displayName
    requires forall tn :: tn in BuildByVariant(versionNext, build.buildVariant).tasks && tn.displayName == t.displayName ==>
      tn.status != t.status
    ensures t.displayName in FlipsForBuild(build, versionPrev, versionNext)
  {
    var mp := CreateTaskMap(BuildByVariant(versionPrev, build.buildVariant).tasks);
    var mn := CreateTaskMap(BuildByVariant(versionNext, build.buildVariant).tasks);
    assert t.displayName in mp && t.displayName in mn;
    assert IsTaskAFlip(t, mp, mn);
  }

  /** `idx` lists, strictly increasing, exactly the positions of the tasks
      that flip, and `r` holds the display names at those positions. */
  ghost predicate FlipEnumeration(r: seq<string>, tasks: seq<Task>, tasksPrev: TaskMap, tasksNext: TaskMap, idx: seq<int>)
  {
    && |idx| == |r|
    && (forall j :: 0 <= j < |idx| ==> 0 <= idx[j] < |tasks| && r[j] == tasks[idx[j]].displayName)
    && (forall j, j' :: 0 <= j < j' < |idx| ==> idx[j] < idx[j'])
    && (forall i :: 0 <= i < |tasks| ==> (i in idx <==> IsTaskAFlip(tasks[i], tasksPrev, tasksNext)))
  }

  /** Appending a flipping task extends an enumeration by the task's name. */
  lemma EnumerationAppendFlip(r: seq<string>, init: seq<Task>, last: Task, tasksPrev: TaskMap, tasksNext: TaskMap,
                              idx: seq<int>)
    requires FlipEnumeration(r, init, tasksPrev, tasksNext, idx)
    requires IsTaskAFlip(last, tasksPrev, tasksNext)
    ensures FlipEnumeration(r + [last.displayName], init + [last], tasksPrev, tasksNext, idx + [|init|])
  {
    var tasks, idx', r' := init + [last], idx + [|init|], r + [last.displayName];
    assert forall j :: 0 <= j < |idx| ==> idx'[j] == idx[j] && r'[j] == r[j] && tasks[idx[j]] == init[idx[j]];
    forall i | 0 <= i < |tasks| ensures i in idx' <==> IsTaskAFlip(tasks[i], tasksPrev, tasksNext) {
      assert i in idx' <==> i in idx || i == |init|;
      if i < |init| {
        assert tasks[i] == init[i];
      }
    }
  }

  /** Appending a task that does not flip keeps an enumeration as it is. */
  lemma EnumerationAppendOther(r: seq<string>, init: seq<Task>, last: Task, tasksPrev: TaskMap, tasksNext: TaskMap,
                               idx: seq<int>)
    requires FlipEnumeration(r, init, tasksPrev, tasksNext, idx)
    requires !IsTaskAFlip(last, tasksPrev, tasksNext)
    ensures FlipEnumeration(r, init + [last], tasksPrev, tasksNext, idx)
  {
    var tasks := init + [last];
    assert forall j :: 0 <= j < |idx| ==> tasks[idx[j]] == init[idx[j]];
    forall i | 0 <= i < |tasks| ensures i in idx <==> IsTaskAFlip(tasks[i], tasksPrev, tasksNext) {
      if i < |init| {
        assert tasks[i] == init[i];
      }
    }
  }

  /** The reported names are exactly the names at the flipping positions,
      in task order and with their multiplicity. */
  lemma {:induction false} FlippedTaskNamesEnumerates(tasks: seq<Task>, tasksPrev: TaskMap, tasksNext: TaskMap)
    ensures exists idx :: FlipEnumeration(FlippedTaskNames(tasks, tasksPrev, tasksNext), tasks, tasksPrev, tasksNext, idx)
  {
    if |tasks| == 0 {
      assert FlipEnumeration(FlippedTaskNames(tasks, tasksPrev, tasksNext), tasks, tasksPrev, tasksNext, []);
    } else {
      var init := tasks[..|tasks| - 1];
      var last := tasks[|tasks| - 1];
      assert tasks == init + [last];
      FlippedTaskNamesEnumerates(init, tasksPrev, tasksNext);
      var r := FlippedTaskNames(init, tasksPrev, tasksNext);
      var idx :| FlipEnumeration(r, init, tasksPrev, tasksNext, idx);
      if IsTaskAFlip(last, tasksPrev, tasksNext) {
        assert FlippedTaskNames(tasks, tasksPrev, tasksNext) == r + [last.displayName];
        EnumerationAppendFlip(r, init, last, tasksPrev, tasksNext, idx);
        assert FlipEnumeration(r + [last.displayName], tasks, tasksPrev, tasksNext, idx + [|init|]);
      } else {
        assert FlippedTaskNames(tasks, tasksPrev, tasksNext) == r;
        EnumerationAppendOther(r, init, last, tasksPrev, tasksNext, idx);
        assert FlipEnumeration(r, tasks, tasksPrev, tasksNext, idx);
      }
    }
  }

  // ---------------------------------------------------------------------------
  // Per-version result
  // ---------------------------------------------------------------------------

  /** No two builds of the list share a build variant. */
  ghost predicate UniqueVariants(builds: seq<Build>)
  {
    forall i, j :: 0 <= i < j < |builds| ==> builds[i].buildVariant != builds[j].buildVariant
  }

  /** The last build of each variant decides that variant's entry. */
  lemma {:induction false} VariantFlipsLastWins(builds: seq<Build>, versionPrev: Version, versionNext: Version, i: int)
    requires HasNeighbours(VariantsOf(builds), versionPrev, versionNext)
    requires IsLastOfVariant(builds, i)
    ensures HasNeighbours({builds[i].buildVariant}, versionPrev, versionNext)
    ensures VariantFlips(builds, versionPrev, versionNext)[builds[i].buildVariant]
         == FlipsForBuild(builds[i], versionPrev, versionNext)
  {
    assert builds[i].buildVariant in VariantsOf(builds);
    var init := builds[..|builds| - 1];
    if i < |builds| - 1 {
      assert builds == init + [builds[|builds| - 1]];
      assert VariantsOf(init) <= VariantsOf(builds);
      assert IsLastOfVariant(init, i) && init[i] == builds[i];
      VariantFlipsLastWins(init, versionPrev, versionNext, i);
    }
  }

  /** Selecting builds keeps every copy of a selected build and no copy of
      another one. */
  lemma {:induction false} SelectBuildsCounts(builds: seq<Build>)
    ensures forall b :: multiset(SelectBuilds(builds))[b] == if FilterBuilds(b) then multiset(builds)[b] else 0
  {
    if |builds| > 0 {
      var init := builds[..|builds| - 1];
      var last := builds[|builds| - 1];
      assert builds == init + [last];
      SelectBuildsCounts(init);
      assert multiset(builds) == multiset(init) + multiset{last};
      if FilterBuilds(last) {
        assert SelectBuilds(builds) == SelectBuilds(init) + [last];
      } else {
        assert SelectBuilds(builds) == SelectBuilds(init);
      }
    }
  }

  /** Selecting builds keeps variants unique. */
  lemma {:induction false} SelectBuildsUnique(builds: seq<Build>)
    requires UniqueVariants(builds)
    ensures UniqueVariants(SelectBuilds(builds))
  {
    if |builds| > 0 {
      var init := builds[..|builds| - 1];
      var last := builds[|builds| - 1];
      assert builds == init + [last];
      SelectBuildsUnique(init);
      var r := SelectBuilds(init);
      if FilterBuilds(last) {
        forall k | 0 <= k < |r| ensures r[k].buildVariant != last.buildVariant {
          assert r[k] in init;
          var j :| 0 <= j < |init| && init[j] == r[k];
          assert builds[j] == r[k];
        }
      }
    }
  }

  /** In a version with one build per variant, a selected build's variant is
      reported exactly when that build has a flipped task, and then with
      exactly that build's flipped tasks. */
  lemma FlipsForVersionPerBuild(item: WorkItem, b: Build)
    requires Analysable(item)
    requires UniqueVariants(item.version.builds)
    requires b in item.version.builds && FilterBuilds(b)
    ensures HasNeighbours({b.buildVariant}, item.versionPrev, item.versionNext)
    ensures b.buildVariant in FlipsForVersion(item).flippedTasks
        <==> FlipsForBuild(b, item.versionPrev, item.versionNext) != []
    ensures b.buildVariant in FlipsForVersion(item).flippedTasks ==>
      FlipsForVersion(item).flippedTasks[b.buildVariant] == FlipsForBuild(b, item.versionPrev, item.versionNext)
  {
    var sel := SelectBuilds(item.version.builds);
    SelectBuildsUnique(item.version.builds);
    assert b in sel;
    var j :| 0 <= j < |sel| && sel[j] == b;
    assert IsLastOfVariant(sel, j);
    VariantFlipsLastWins(sel, item.versionPrev, item.versionNext, j);
  }

  /** A version with a single selected build reports that build's flips,
      if any, under its variant. */
  lemma FlipsForSingleBuild(item: WorkItem)
    requires |item.version.builds| == 1 && FilterBuilds(item.version.builds[0])
    requires HasNeighbours({item.version.builds[0].buildVariant}, item.versionPrev, item.versionNext)
    ensures Analysable(item)
    ensures var b := item.version.builds[0];
            var flips := FlipsForBuild(b, item.versionPrev, item.versionNext);
            FlipsForVersion(item).flippedTasks
              == if flips == [] then map[] else map[b.buildVariant := flips]
  {
    var b := item.version.builds[0];
    assert item.version.builds[..0] == [];
    assert SelectBuilds(item.version.builds) == [b];
    assert VariantsOf([b]) == {b.buildVariant};
    assert [b][..0] == [];
  }

  // ---------------------------------------------------------------------------
  // The driver
  // ---------------------------------------------------------------------------

  /** The scheduled work items are the windows (vs[k], vs[k+1], vs[k+2]) with
      vs[k+1] current, in order, up to the first current version older than
      the cutoff; none if there are fewer than three versions. */
  lemma ScheduleWindows(vs: seq<Version>, lookBack: int)
    ensures |vs| < 3 ==> Schedule(vs, lookBack) == []
    ensures Schedule(vs, lookBack) != [] ==> |Schedule(vs, lookBack)| + 2 <= |vs|
    ensures forall k :: 0 <= k < |Schedule(vs, lookBack)| ==>
      Schedule(vs, lookBack)[k] == WorkItem(vs[k + 1], vs[k], vs[k + 2])
    ensures forall k :: 0 <= k < |Schedule(vs, lookBack)| ==>
      Schedule(vs, lookBack)[k].version.createTime >= lookBack
    ensures |Schedule(vs, lookBack)| + 2 < |vs| ==> vs[|Schedule(vs, lookBack)| + 1].createTime < lookBack
  {
    var items := Schedule(vs, lookBack);
    assert forall k :: 0 <= k < |items| ==> items[k] == WorkItem(vs[1 + k], vs[1 + k - 1], vs[1 + k + 1]);
  }

  /** The k-th scheduled work item, on its own. */
  lemma ScheduleItem(vs: seq<Version>, lookBack: int, k: int)
    requires 0 <= k < |Schedule(vs, lookBack)|
    ensures k + 2 < |vs|
    ensures Schedule(vs, lookBack)[k] == WorkItem(vs[k + 1], vs[k], vs[k + 2])
    ensures vs[k + 1].createTime >= lookBack
  {
    var items := ScheduleFrom(vs, lookBack, 1);
    assert items[k] == WorkItem(vs[1 + k], vs[1 + k - 1], vs[1 + k + 1]);
  }

  /** Later results for a revision replace earlier non-empty ones only when
      they are non-empty themselves. */
  lemma {:induction false} CollectResultsLastWins(results: seq<FlipList>, i: int)
    requires IsLastNonEmpty(results, i)
    ensures results[i].revision in CollectResults(results)
    ensures CollectResults(results)[results[i].revision] == results[i].flippedTasks
  {
    var init := results[..|results| - 1];
    var last := results[|results| - 1];
    if i < |results| - 1 {
      assert IsLastNonEmpty(init, i) && init[i] == results[i];
      CollectResultsLastWins(init, i);
      assert last.flippedTasks == map[] || last.revision != results[i].revision;
    }
  }

  /** Every result with a flip is reported under its revision. */
  lemma {:induction false} CollectResultsComplete(results: seq<FlipList>, i: int)
    requires 0 <= i < |results| && results[i].flippedTasks != map[]
    ensures results[i].revision in CollectResults(results)
  {
    var init := results[..|results| - 1];
    if i < |results| - 1 {
      assert init[i] == results[i];
      CollectResultsComplete(init, i);
    }
  }

  /** Without a full window nothing is reported. */
  lemma FindEmptyWithoutWindow(vs: seq<Version>, lookBack: int)
    requires |vs| < 3
    ensures Schedulable(vs, lookBack)
    ensures Find(vs, lookBack) == map[]
  {
    ScheduleWindows(vs, lookBack);
  }

  /** If the first candidate current version is already older than the
      cutoff, nothing is scheduled and nothing is reported. */
  lemma FindEmptyAtCutoff(vs: seq<Version>, lookBack: int)
    requires |vs| >= 2 && vs[1].createTime < lookBack
    ensures Schedule(vs, lookBack) == []
    ensures Schedulable(vs, lookBack)
    ensures Find(vs, lookBack) == map[]
  {
    ScheduleWindows(vs, lookBack);
  }

  /** Every reported revision is that of the current version of a scheduled
      window, so of a version before the cutoff stop and not older than the
      cutoff. */
  lemma FindReportsScheduledRevisions(vs: seq<Version>, lookBack: int)
    requires Schedulable(vs, lookBack)
    ensures forall rev :: rev in Find(vs, lookBack) ==>
      exists k :: 1 <= k <= |Schedule(vs, lookBack)| && k + 1 < |vs|
                  && vs[k].revision == rev && vs[k].createTime >= lookBack
  {
    var items := Schedule(vs, lookBack);
    var results := RunJobs(items);
    forall rev | rev in Find(vs, lookBack)
      ensures exists k :: 1 <= k <= |Schedule(vs, lookBack)| && k + 1 < |vs|
                          && vs[k].revision == rev && vs[k].createTime >= lookBack
    {
      var i :| 0 <= i < |results| && results[i].revision == rev
        && CollectResults(results)[rev] == results[i].flippedTasks;
      ScheduleItem(vs, lookBack, i);
    }
  }

  /** When the scheduled current versions have distinct revisions, the
      report holds a scheduled revision exactly when its version has a flip,
      with that version's flips. */
  lemma FindPerVersion(vs: seq<Version>, lookBack: int, k: int)
    requires Schedulable(vs, lookBack)
    requires 0 <= k < |Schedule(vs, lookBack)|
    requires forall i, j :: 0 <= i < j < |Schedule(vs, lookBack)| ==>
      Schedule(vs, lookBack)[i].version.revision != Schedule(vs, lookBack)[j].version.revision
    ensures Analysable(Schedule(vs, lookBack)[k])
    ensures vs[k + 1].revision in Find(vs, lookBack)
        <==> FlipsForVersion(Schedule(vs, lookBack)[k]).flippedTasks != map[]
    ensures vs[k + 1].revision in Find(vs, lookBack) ==>
      Find(vs, lookBack)[vs[k + 1].revision] == FlipsForVersion(Schedule(vs, lookBack)[k]).flippedTasks
  {
    var items := Schedule(vs, lookBack);
    ScheduleItem(vs, lookBack, k);
    var results := RunJobs(items);
    RunJobsInOrder(items, k);
    var rev := vs[k + 1].revision;
    if results[k].flippedTasks != map[] {
      assert IsLastNonEmpty(results, k);
      CollectResultsLastWins(results, k);
    }
  }

  /** A history with a single window reports that window's flips, if any,
      under its revision. */
  lemma FindSingleWindow(vs: seq<Version>, lookBack: int)
    requires |Schedule(vs, lookBack)| == 1 && Analysable(Schedule(vs, lookBack)[0])
    ensures Schedulable(vs, lookBack)
    ensures var flips := FlipsForVersion(Schedule(vs, lookBack)[0]);
            Find(vs, lookBack)
              == if flips.flippedTasks == map[] then map[] else map[flips.revision := flips.flippedTasks]
  {
    var items := Schedule(vs, lookBack);
    assert items[1..] == [];
    var results := RunJobs(items);
    assert results[..0] == [];
  }

  /** The k-th result is the analysis of the k-th work item. */
  lemma {:induction false} RunJobsInOrder(items: seq<WorkItem>, k: int)
    requires AllAnalysable(items)
    requires 0 <= k < |items|
    ensures Analysable(items[k])
    ensures RunJobs(items)[k] == FlipsForVersion(items[k])
  {
    if k > 0 {
      assert items[1..][k - 1] == items[k];
      RunJobsInOrder(items[1..], k - 1);
    }
  }
}

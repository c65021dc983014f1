/** Concrete cases: the repository's unit tests for the helpers and the flip
    predicate, and an end-to-end run over a three-version history. */
module Scenarios {
  import opened Types
  import opened FindFlips
  import opened FlipLemmas

  const Failed: Status := "failed"
  const Succeeded: Status := "success"

  /** An activated task that ran with the given status. */
  function Ran(name: string, status: Status): Task
  {
    Task(name, true, status, status == Succeeded)
  }

  // ---------------------------------------------------------------------------
  // Helpers
  // ---------------------------------------------------------------------------

  /** An empty map stays empty; of a non-empty string and an empty list,
      only the string is kept. */
  lemma FilterEmptyValuesExample()
    ensures var e: map<string, seq<char>> := map[]; FilterEmptyValues(e) == e
    ensures var d: map<string, seq<char>> := map["key2" := "something", "key3" := []];
            FilterEmptyValues(d) == map["key2" := "something"]
  {
    var d: map<string, seq<char>> := map["key2" := "something", "key3" := []];
    assert FilterEmptyValues(d).Keys == {"key2"};
  }

  /** An empty task list gives an empty map. */
  lemma TaskMapEmpty()
    ensures CreateTaskMap([]) == map[]
  {
    assert CreateTaskMap([]).Keys == {};
  }

  /** Five distinct task names give five entries, each mapping to its task. */
  lemma TaskMapExample()
    ensures var tasks := [Ran("task 0", Failed), Ran("task 1", Failed), Ran("task 2", Failed),
                          Ran("task 3", Failed), Ran("task 4", Failed)];
            && |CreateTaskMap(tasks)| == 5
            && CreateTaskMap(tasks)["task 0"] == tasks[0]
  {
    var tasks := [Ran("task 0", Failed), Ran("task 1", Failed), Ran("task 2", Failed),
                  Ran("task 3", Failed), Ran("task 4", Failed)];
    assert UniqueNames(tasks) by {
      forall i, j | 0 <= i < j < |tasks| ensures tasks[i].displayName != tasks[j].displayName {
        assert tasks[i].displayName[5] != tasks[j].displayName[5];
      }
    }
    TaskMapOfUniqueNames(tasks);
  }

  // ---------------------------------------------------------------------------
  // The flip predicate
  // ---------------------------------------------------------------------------

  /** A task that was not activated is not a flip. */
  lemma NonActivatedIsNotAFlip()
    ensures !IsTaskAFlip(Task("t", false, Failed, false), map[], map[])
  {
  }

  /** A successful task is not a flip. */
  lemma SuccessfulIsNotAFlip()
    ensures !IsTaskAFlip(Ran("t", Succeeded), map[], map[])
  {
  }

  /** A failed task missing from the previous version is not a flip. */
  lemma NoPreviousIsNotAFlip()
    ensures !IsTaskAFlip(Ran("t", Failed), map[], map[])
  {
  }

  /** A failed task whose previous status differs is not a flip. */
  lemma PreviousChangedIsNotAFlip()
    ensures !IsTaskAFlip(Ran("t", Failed), map["t" := Ran("t", "other")], map[])
  {
  }

  /** A failed task with the same previous status but missing from the next
      version is not a flip. */
  lemma NextMissingIsNotAFlip()
    ensures !IsTaskAFlip(Ran("t", Failed), map["t" := Ran("t", Failed)], map[])
  {
  }

  /** A failed task with the same status before and after is not a flip. */
  lemma NextUnchangedIsNotAFlip()
    ensures !IsTaskAFlip(Ran("t", Failed), map["t" := Ran("t", Failed)], map["t" := Ran("t", Failed)])
  {
  }

  /** A failed task with the same status before and a different one after
      is a flip. */
  lemma WasAFlip()
    ensures IsTaskAFlip(Ran("t", Failed), map["t" := Ran("t", Failed)], map["t" := Ran("t", Succeeded)])
  {
  }

  // ---------------------------------------------------------------------------
  // End to end
  // ---------------------------------------------------------------------------

  /** Three consecutive versions, newest first, each with one build of the
      variant "linux" named `buildName`: task A fails in the first two and
      passes in the third; task B fails in the first and passes in the
      other two. */
  function History(buildName: string): seq<Version>
  {
    [ Version("def456", 300, [Build(buildName, "linux", [Ran("A", Failed), Ran("B", Failed)])]),
      Version("abc123", 200, [Build(buildName, "linux", [Ran("A", Failed), Ran("B", Succeeded)])]),
      Version("fed789", 100, [Build(buildName, "linux", [Ran("A", Succeeded), Ran("B", Succeeded)])]) ]
  }

  /** In the '!'-prefixed build of "abc123", A is a flip and B is not. */
  lemma MarkedBuildFlips()
    ensures var vs := History("!linux");
            && HasNeighbours({"linux"}, vs[0], vs[2])
            && FlipsForBuild(vs[1].builds[0], vs[0], vs[2]) == ["A"]
  {
    var vs := History("!linux");
    var b := vs[1].builds[0];
    assert VariantsOf(vs[0].builds) == {"linux"} && VariantsOf(vs[2].builds) == {"linux"};
    var tasksPrev := CreateTaskMap(BuildByVariant(vs[0], "linux").tasks);
    var tasksNext := CreateTaskMap(BuildByVariant(vs[2], "linux").tasks);
    FirstTaskWins(vs[0].builds[0].tasks);
    FirstTaskWins(vs[2].builds[0].tasks);
    assert IsTaskAFlip(Ran("A", Failed), tasksPrev, tasksNext);
    assert !IsTaskAFlip(Ran("B", Succeeded), tasksPrev, tasksNext);
    OnlyFirstFlips(b.tasks, tasksPrev, tasksNext);
  }

  /** Of two tasks, only the first flips: its name alone is reported. */
  lemma OnlyFirstFlips(tasks: seq<Task>, tasksPrev: TaskMap, tasksNext: TaskMap)
    requires |tasks| == 2
    requires IsTaskAFlip(tasks[0], tasksPrev, tasksNext) && !IsTaskAFlip(tasks[1], tasksPrev, tasksNext)
    ensures FlippedTaskNames(tasks, tasksPrev, tasksNext) == [tasks[0].displayName]
  {
    assert tasks[..1] == [tasks[0]] && tasks[..1][..0] == [];
  }

  /** In a two-task list with distinct names, the first name maps to the first task. */
  lemma FirstTaskWins(tasks: seq<Task>)
    requires |tasks| == 2 && tasks[0].displayName != tasks[1].displayName
    ensures tasks[0].displayName in CreateTaskMap(tasks)
    ensures CreateTaskMap(tasks)[tasks[0].displayName] == tasks[0]
  {
    assert IsLastOccurrence(tasks, 0);
  }

  /** The work item of "abc123" reports variant "linux" with task A. */
  lemma MarkedVersionFlips()
    ensures var vs := History("!linux");
            && Analysable(WorkItem(vs[1], vs[0], vs[2]))
            && FlipsForVersion(WorkItem(vs[1], vs[0], vs[2])) == FlipList("abc123", map["linux" := ["A"]])
  {
    var vs := History("!linux");
    MarkedBuildFlips();
    FlipsForSingleBuild(WorkItem(vs[1], vs[0], vs[2]));
  }

  /** A '!'-prefixed build is analysed: only "abc123" is reported, with A. */
  lemma MarkedBuildReportsFlip()
    ensures Schedulable(History("!linux"), 150)
    ensures Find(History("!linux"), 150) == map["abc123" := map["linux" := ["A"]]]
  {
    var vs := History("!linux");
    var item := WorkItem(vs[1], vs[0], vs[2]);
    MarkedVersionFlips();
    assert Schedule(vs, 150) == [item] by {
      assert ScheduleFrom(vs, 150, 2) == [];
    }
    FindSingleWindow(vs, 150);
    assert "linux" in map["linux" := ["A"]];
  }

  /** The same history with an unmarked build name reports nothing: the
      selector keeps only '!'-prefixed builds. */
  lemma UnmarkedBuildIsSkipped()
    ensures Schedulable(History("linux"), 150)
    ensures Find(History("linux"), 150) == map[]
  {
    var vs := History("linux");
    var item := WorkItem(vs[1], vs[0], vs[2]);
    assert Schedule(vs, 150) == [item] by {
      assert ScheduleFrom(vs, 150, 2) == [];
    }
    assert !FilterBuilds(vs[1].builds[0]);
    assert SelectBuilds(vs[1].builds) == [] by {
      assert vs[1].builds[..0] == [];
    }
    FindSingleWindow(vs, 150);
  }

  /** A cutoff after every creation time schedules nothing. */
  lemma CutoffAfterEverything()
    ensures Schedule(History("!linux"), 400) == []
    ensures Schedulable(History("!linux"), 400)
    ensures Find(History("!linux"), 400) == map[]
  {
    FindEmptyAtCutoff(History("!linux"), 400);
  }
}

/** Plain immutable snapshots of the continuous-integration objects that flip
    detection reads: versions (one per revision), their builds (one per build
    variant) and the tasks inside each build. */
module Types {

  /** The status vocabulary of a task is external; only equality is used. */
  type Status = string

  /** Result of a dictionary lookup that may miss. */
  datatype Option<+T> = None | Some(value: T)

  /** A task of one build. `isSuccess` is the task's own verdict on its status. */
  datatype Task = Task(displayName: string, activated: bool, status: Status, isSuccess: bool)

  /** A build of one version: its display name, its variant and its tasks in
      the order the version reports them. */
  datatype Build = Build(displayName: string, buildVariant: string, tasks: seq<Task>)

  /** A version: its revision identifier, its creation time (only compared
      with `<`) and its builds. */
  datatype Version = Version(revision: string, createTime: int, builds: seq<Build>)

  /** One unit of analysis: the current version and its two window neighbours. */
  datatype WorkItem = WorkItem(version: Version, versionPrev: Version, versionNext: Version)

  /** The flips found in one version: build variant -> flipped task names. */
  datatype FlipList = FlipList(revision: string, flippedTasks: map<string, seq<string>>)

  /** Tasks keyed by display name. */
  type TaskMap = map<string, Task>

  /** The final report: revision -> build variant -> flipped task names. */
  type Report = map<string, map<string, seq<string>>>

  /** The display names of `tasks`, in order. */
  function Names(tasks: seq<Task>): seq<string>
  {
    seq(|tasks|, i requires 0 <= i < |tasks| => tasks[i].displayName)
  }

  /** `a` is obtained from `b` by deleting elements, keeping the rest in order. */
  predicate IsSubsequence<T(==)>(a: seq<T>, b: seq<T>)
    decreases |b|
  {
    if |a| == 0 then true
    else if |b| == 0 then false
    else (a[|a| - 1] == b[|b| - 1] && IsSubsequence(a[..|a| - 1], b[..|b| - 1]))
         || IsSubsequence(a, b[..|b| - 1])
  }
}

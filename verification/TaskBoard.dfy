/** Tasks, lock files and done markers, and how `task_tool.py` sorts a wave into buckets. */
module TaskBoard {
  import opened Text

  type TaskId = string

  datatype Task = Task(id: TaskId, number: nat, wave: nat, title: string, tags: seq<string>, dependsOn: seq<TaskId>) {
    function Difficulty(): Option<string> {
      if "EASY" in tags then Some("EASY") else if "HARD" in tags then Some("HARD") else None
    }

    predicate Retired() {
      "RETIRED" in tags
    }
  }

  /** The metadata of a lock file that some decision reads; times are seconds. */
  datatype Lock = Lock(agentId: string, claimedAt: Option<int>, branch: string)

  /** The coordination files of one commit: the lock files under tasks/active and the done
      markers under tasks/completed. */
  datatype Board = Board(active: map<TaskId, Lock>, completed: set<TaskId>)

  predicate DepsDone(t: Task, completed: set<TaskId>) {
    forall d <- t.dependsOn :: d in completed
  }

  predicate Ready(t: Task, board: Board) {
    t.id !in board.active && t.id !in board.completed && DepsDone(t, board.completed)
  }

  predicate DistinctIds(tasks: seq<Task>) {
    forall i, j :: 0 <= i < j < |tasks| ==> tasks[i].id != tasks[j].id
  }

  // ── Stale locks ───────────────────────────────────────────────────────────

  /** In seconds; set from the environment, with 45 minutes as the default. Nothing below depends on
      its value. */
  const LOCK_TIMEOUT: int

  /** What the clock and the repository say when a lock is examined: the time, the last commit
      of the lock's branch on origin, and the last commit on main that names the task. */
  datatype Evidence = Evidence(now: int, branchCommit: Option<int>, mainMention: Option<int>)

  predicate LockIsStale(lock: Lock, e: Evidence) {
    && lock.claimedAt.Some?
    && e.now - lock.claimedAt.value > LOCK_TIMEOUT
    && !(e.branchCommit.Some? && e.now - e.branchCommit.value <= LOCK_TIMEOUT)
    && !(e.mainMention.Some? && e.mainMention.value >= e.now - LOCK_TIMEOUT)
  }

  // ── Sorting by (number, id) ───────────────────────────────────────────────

  predicate KeyLeq(a: Task, b: Task) {
    a.number < b.number || (a.number == b.number && LexLeq(a.id, b.id))
  }

  predicate SortedByKey(s: seq<Task>) {
    forall i, j :: 0 <= i < j < |s| ==> KeyLeq(s[i], s[j])
  }

  function Insert(t: Task, s: seq<Task>): (r: seq<Task>)
    ensures multiset(r) == multiset(s) + multiset{t}
  {
    if s == [] || KeyLeq(t, s[0]) then [t] + s
    else
      assert s == [s[0]] + s[1..];
      [s[0]] + Insert(t, s[1..])
  }

  function SortTasks(s: seq<Task>): (r: seq<Task>)
    ensures multiset(r) == multiset(s)
  {
    if s == [] then []
    else
      assert s == [s[0]] + s[1..];
      Insert(s[0], SortTasks(s[1..]))
  }

  lemma KeyLeqTransitive(a: Task, b: Task, c: Task)
    requires KeyLeq(a, b) && KeyLeq(b, c)
    ensures KeyLeq(a, c)
  {
    if a.number == b.number == c.number && a.id != b.id && b.id != c.id {
      LexLessTransitive(a.id, b.id, c.id);
    }
  }

  lemma {:induction false} InsertSorted(t: Task, s: seq<Task>)
    requires SortedByKey(s)
    ensures SortedByKey(Insert(t, s))
  {
    if s == [] {
    } else if KeyLeq(t, s[0]) {
      forall j | 0 <= j < |s| ensures KeyLeq(t, s[j]) {
        if j > 0 {
          KeyLeqTransitive(t, s[0], s[j]);
        }
      }
    } else {
      LexLessTotal(t.id, s[0].id);
      InsertSorted(t, s[1..]);
      var r := Insert(t, s[1..]);
      forall j | 0 <= j < |r| ensures KeyLeq(s[0], r[j]) {
        assert r[j] in multiset(r);
        assert r[j] == t || r[j] in s[1..];
      }
    }
  }

  lemma {:induction false} SortTasksSorted(s: seq<Task>)
    ensures SortedByKey(SortTasks(s))
  {
    if s != [] {
      SortTasksSorted(s[1..]);
      InsertSorted(s[0], SortTasks(s[1..]));
    }
  }

  // ── Classification ────────────────────────────────────────────────────────

  datatype Classified = Classified(
    claimableMissingDifficulty: seq<Task>,
    claimable: seq<Task>,
    blocked: seq<Task>,
    active: seq<Task>,
    completed: seq<Task>,
    otherPoolClaimable: seq<Task>)

  function Select(tasks: seq<Task>, keep: Task -> bool): (r: seq<Task>)
    ensures forall t :: t in r <==> t in tasks && keep(t)
  {
    if tasks == [] then []
    else (if keep(tasks[0]) then [tasks[0]] else []) + Select(tasks[1..], keep)
  }

  predicate Eligible(t: Task, difficulty: Option<string>) {
    && !t.Retired()
    && (if difficulty.None? then t.Difficulty().Some? else t.Difficulty() == difficulty)
  }

  /** A filtered list in (number, id) order. */
  function Bucket(tasks: seq<Task>, keep: Task -> bool): (r: seq<Task>)
    ensures forall t :: t in r <==> t in tasks && keep(t)
    ensures SortedByKey(r)
  {
    var chosen := Select(tasks, keep);
    SortTasksSorted(chosen);
    SortTasksMembers(chosen);
    SortTasks(chosen)
  }

  predicate Pooled(t: Task, wave: nat, difficulty: Option<string>) {
    t.wave == wave && Eligible(t, difficulty)
  }

  predicate Untagged(t: Task, wave: nat) {
    t.wave == wave && t.Difficulty().None? && !t.Retired()
  }

  predicate OtherPool(t: Task, wave: nat, difficulty: Option<string>) {
    t.wave == wave && t.Difficulty().Some? && t.Difficulty() != difficulty && !t.Retired()
  }

  predicate Blocked(t: Task, board: Board) {
    t.id !in board.active && t.id !in board.completed && !DepsDone(t, board.completed)
  }

  /** `classify_tasks` over the values of the task dictionary, in any order. */
  function Classify(tasks: seq<Task>, wave: nat, difficulty: Option<string>, board: Board): Classified {
    Classified(
      Bucket(tasks, (t: Task) => Untagged(t, wave) && Ready(t, board)),
      Bucket(tasks, (t: Task) => Pooled(t, wave, difficulty) && Ready(t, board)),
      Bucket(tasks, (t: Task) => Pooled(t, wave, difficulty) && Blocked(t, board)),
      Bucket(tasks, (t: Task) => Pooled(t, wave, difficulty) && t.id in board.active),
      Bucket(tasks, (t: Task) => Pooled(t, wave, difficulty) && t.id in board.completed),
      if difficulty.None? then []
      else Bucket(tasks, (t: Task) => OtherPool(t, wave, difficulty) && Ready(t, board)))
  }

  lemma SortTasksMembers(s: seq<Task>)
    ensures forall t :: t in SortTasks(s) <==> t in s
  {
    forall t ensures t in SortTasks(s) <==> t in s {
      assert t in SortTasks(s) <==> t in multiset(SortTasks(s));
    }
  }

  predicate InPoolBucket(c: Classified, t: Task) {
    t in c.claimable || t in c.blocked || t in c.active || t in c.completed
  }

  /** The task is for the pool, or for any if there is none: "EASY" and "HARD" are tags, and a task with
      both counts as easy. */
  predicate ForPool(t: Task, difficulty: Option<string>) {
    match difficulty
    case None => "EASY" in t.tags || "HARD" in t.tags
    case Some(pool) => (pool == "EASY" && "EASY" in t.tags) || (pool == "HARD" && "HARD" in t.tags && "EASY" !in t.tags)
  }

  lemma ForPoolIff(t: Task, difficulty: Option<string>)
    ensures ForPool(t, difficulty) <==> t.Difficulty().Some? && (difficulty.Some? ==> t.Difficulty() == difficulty)
  {
  }

  /** With any pool or none, and each from the tags and the board alone: a live task of the wave and pool is
      claimable if it is neither locked nor completed and its dependencies are, blocked if they are not, and
      otherwise locked or completed. The other two lists hold exactly the ready tasks of the other pool and
      the ready untagged ones. No task is in two of claimable, blocked, locked or completed, the other
      pool's and the untagged. */
  lemma ClassifyCovers(tasks: seq<Task>, wave: nat, difficulty: Option<string>, board: Board, t: Task)
    requires t in tasks
    ensures var c, live := Classify(tasks, wave, difficulty, board), t.wave == wave && "RETIRED" !in t.tags;
      var free, done := t.id !in board.active && t.id !in board.completed, forall d <- t.dependsOn :: d in board.completed;
      && (t in c.claimable <==> live && ForPool(t, difficulty) && free && done)
      && (t in c.blocked <==> live && ForPool(t, difficulty) && free && !done)
      && (t in c.active <==> live && ForPool(t, difficulty) && t.id in board.active)
      && (t in c.completed <==> live && ForPool(t, difficulty) && t.id in board.completed)
      && (t in c.otherPoolClaimable <==>
        live && difficulty.Some? && ForPool(t, None) && !ForPool(t, difficulty) && free && done)
      && (t in c.claimableMissingDifficulty <==> live && !ForPool(t, None) && free && done)
      && !(t in c.claimable && t in c.blocked)
      && (t in c.claimable || t in c.blocked ==> t !in c.active && t !in c.completed)
      && !(InPoolBucket(c, t) && (t in c.otherPoolClaimable || t in c.claimableMissingDifficulty))
      && !(t in c.otherPoolClaimable && t in c.claimableMissingDifficulty)
  {
    ClassifyMembers(tasks, wave, difficulty, board, t);
    ForPoolIff(t, difficulty);
    ForPoolIff(t, None);
    hide Classify;
    hide ForPool;
  }

  lemma {:induction false} SelectCount(tasks: seq<Task>, keep: Task -> bool, t: Task)
    ensures multiset(Select(tasks, keep))[t] == if keep(t) then multiset(tasks)[t] else 0
  {
    if tasks != [] {
      assert tasks == [tasks[0]] + tasks[1..];
      SelectCount(tasks[1..], keep, t);
    }
  }

  lemma BucketCount(tasks: seq<Task>, keep: Task -> bool, t: Task)
    ensures multiset(Bucket(tasks, keep))[t] == if keep(t) then multiset(tasks)[t] else 0
  {
    SelectCount(tasks, keep, t);
  }

  predicate ListedAlike(bucket: seq<Task>, tasks: seq<Task>, t: Task) {
    multiset(bucket)[t] == if t in bucket then multiset(tasks)[t] else 0
  }

  /** A bucket lists a task as often as the wave does, which is once, in order of number and id. */
  lemma BucketsList(tasks: seq<Task>, wave: nat, difficulty: Option<string>, board: Board, t: Task)
    ensures var c := Classify(tasks, wave, difficulty, board);
      && ListedAlike(c.claimable, tasks, t) && ListedAlike(c.blocked, tasks, t) && ListedAlike(c.active, tasks, t)
      && ListedAlike(c.completed, tasks, t) && ListedAlike(c.otherPoolClaimable, tasks, t)
      && ListedAlike(c.claimableMissingDifficulty, tasks, t)
      && SortedByKey(c.claimable) && SortedByKey(c.blocked) && SortedByKey(c.active) && SortedByKey(c.completed)
      && SortedByKey(c.otherPoolClaimable) && SortedByKey(c.claimableMissingDifficulty)
  {
    BucketCount(tasks, (t: Task) => Untagged(t, wave) && Ready(t, board), t);
    BucketCount(tasks, (t: Task) => Pooled(t, wave, difficulty) && Ready(t, board), t);
    BucketCount(tasks, (t: Task) => Pooled(t, wave, difficulty) && Blocked(t, board), t);
    BucketCount(tasks, (t: Task) => Pooled(t, wave, difficulty) && t.id in board.active, t);
    BucketCount(tasks, (t: Task) => Pooled(t, wave, difficulty) && t.id in board.completed, t);
    BucketCount(tasks, (t: Task) => OtherPool(t, wave, difficulty) && Ready(t, board), t);
    hide Pooled;
    hide Ready;
    hide Blocked;
    hide OtherPool;
    hide Untagged;
    hide Bucket;
  }

  lemma ClassifyMembers(tasks: seq<Task>, wave: nat, difficulty: Option<string>, board: Board, t: Task)
    ensures var c := Classify(tasks, wave, difficulty, board);
      && (t in c.claimable <==> t in tasks && Pooled(t, wave, difficulty) && Ready(t, board))
      && (t in c.blocked <==> t in tasks && Pooled(t, wave, difficulty) && Blocked(t, board))
      && (t in c.active <==> t in tasks && Pooled(t, wave, difficulty) && t.id in board.active)
      && (t in c.completed <==> t in tasks && Pooled(t, wave, difficulty) && t.id in board.completed)
      && (t in c.otherPoolClaimable <==> t in tasks && difficulty.Some? && OtherPool(t, wave, difficulty) && Ready(t, board))
      && (t in c.claimableMissingDifficulty <==> t in tasks && Untagged(t, wave) && Ready(t, board))
  {
    hide Pooled;
    hide Ready;
    hide Blocked;
    hide OtherPool;
    hide Untagged;
    hide SortedByKey;
  }

  /** The task `claim_next` locks is the least ready one of its wave and pool. */
  lemma ClaimableHead(tasks: seq<Task>, wave: nat, difficulty: Option<string>, board: Board)
    requires Classify(tasks, wave, difficulty, board).claimable != []
    ensures var t := Classify(tasks, wave, difficulty, board).claimable[0];
      && t in tasks && t.wave == wave && Eligible(t, difficulty) && Ready(t, board)
      && forall u <- tasks :: u.wave == wave && Eligible(u, difficulty) && Ready(u, board) ==> KeyLeq(t, u)
  {
    var c := Classify(tasks, wave, difficulty, board).claimable;
    assert c[0] in c;
    forall u <- tasks | u.wave == wave && Eligible(u, difficulty) && Ready(u, board) ensures KeyLeq(c[0], u) {
      assert u in c;
      var i :| 0 <= i < |c| && c[i] == u;
    }
  }

  predicate InWave(tasks: seq<Task>, wave: nat, t: Task) {
    t in tasks && t.wave == wave && !t.Retired()
  }

  // ── Drained waves ─────────────────────────────────────────────────────────

  predicate IsWaveDrained(c: Classified) {
    !(c.claimable != [] || c.claimableMissingDifficulty != [] || c.blocked != [] || c.active != []
      || c.otherPoolClaimable != [])
  }

  /** The dictionary `claim_next` returns for "no_claimable"; an absent key is `None`. */
  datatype Payload = Payload(
    claimable: Option<seq<Task>>,
    blocked: Option<seq<Task>>,
    active: Option<seq<Task>>,
    otherPoolClaimable: Option<seq<Task>>,
    claimableMissingDifficulty: Option<seq<Task>>,
    completedCount: nat)

  function NoClaimablePayload(c: Classified): Payload {
    Payload(Some([]), Some(c.blocked), Some(c.active), Some(c.otherPoolClaimable), None, |c.completed|)
  }

  predicate Falsy(v: Option<seq<Task>>) {
    v.None? || v.value == []
  }

  /** The wrapper's own drained test, on the payload. */
  predicate ClassifiedIsDrained(p: Payload) {
    Falsy(p.claimable) && Falsy(p.blocked) && Falsy(p.active) && Falsy(p.otherPoolClaimable)
    && Falsy(p.claimableMissingDifficulty)
  }

  /** `claim_next` reports "no_claimable" exactly when both claimable lists are empty. On such a
      report the wrapper, which never sees the untagged list, agrees with `is_wave_drained`. */
  lemma DrainedAgrees(c: Classified)
    requires c.claimable == [] && c.claimableMissingDifficulty == []
    ensures ClassifiedIsDrained(NoClaimablePayload(c)) <==> IsWaveDrained(c)
  {
  }

  /** What a drained wave owes a live task: a tagged one is completed and unlocked; an untagged
      one may also be locked or still wait for a dependency. */
  predicate Settled(t: Task, board: Board) {
    if t.Difficulty().Some? then t.id in board.completed && t.id !in board.active
    else t.id in board.completed || t.id in board.active || !DepsDone(t, board.completed)
  }

  /** Without a pool filter, a wave is drained exactly when all its live tasks are settled. */
  lemma DrainedMeansSettled(tasks: seq<Task>, wave: nat, board: Board)
    ensures IsWaveDrained(Classify(tasks, wave, None, board)) <==>
            forall t <- tasks :: InWave(tasks, wave, t) ==> Settled(t, board)
  {
    var c := Classify(tasks, wave, None, board);
    if IsWaveDrained(c) {
      forall t <- tasks | InWave(tasks, wave, t) ensures Settled(t, board) {
        assert t !in c.claimable && t !in c.blocked && t !in c.active && t !in c.claimableMissingDifficulty;
      }
    } else {
      var t := UnsettledTask(tasks, wave, board);
    }
  }

  lemma UnsettledTask(tasks: seq<Task>, wave: nat, board: Board) returns (t: Task)
    requires !IsWaveDrained(Classify(tasks, wave, None, board))
    ensures t in tasks && InWave(tasks, wave, t) && !Settled(t, board)
  {
    var c := Classify(tasks, wave, None, board);
    assert c.otherPoolClaimable == [];
    hide Classify;
    t := if c.claimable != [] then c.claimable[0] else if c.blocked != [] then c.blocked[0]
         else if c.active != [] then c.active[0] else c.claimableMissingDifficulty[0];
    assert t in c.claimable || t in c.blocked || t in c.active || t in c.claimableMissingDifficulty;
    ClassifyMembers(tasks, wave, None, board, t);
    hide DepsDone;
  }

  // ── No deadlock ───────────────────────────────────────────────────────────

  /** `p` walks dependency edges inside the wave. */
  predicate Chain(tasks: seq<Task>, wave: nat, p: seq<Task>) {
    && (forall t <- p :: InWave(tasks, wave, t))
    && (forall i :: 0 <= i < |p| - 1 ==> p[i + 1].id in p[i].dependsOn)
  }

  ghost predicate Acyclic(tasks: seq<Task>, wave: nat) {
    forall p: seq<Task> :: |p| >= 2 && Chain(tasks, wave, p) ==> p[0] != p[|p| - 1]
  }

  predicate LiveId(tasks: seq<Task>, wave: nat, id: TaskId) {
    exists u <- tasks :: InWave(tasks, wave, u) && u.id == id
  }

  /** Every dependency is completed or is a live task of the wave itself. */
  predicate ClosedWave(tasks: seq<Task>, wave: nat, completed: set<TaskId>) {
    forall t <- tasks :: InWave(tasks, wave, t) ==>
      forall d <- t.dependsOn :: d in completed || LiveId(tasks, wave, d)
  }

  predicate Unfinished(tasks: seq<Task>, wave: nat, completed: set<TaskId>, t: Task) {
    InWave(tasks, wave, t) && t.id !in completed
  }

  /** No deadlock: while some live task of an acyclic, closed wave is unfinished, an unfinished
      one is locked, claimable, or claimable but for a missing difficulty tag. */
  lemma NoDeadlock(tasks: seq<Task>, wave: nat, board: Board)
    requires Acyclic(tasks, wave) && ClosedWave(tasks, wave, board.completed)
    requires exists t <- tasks :: Unfinished(tasks, wave, board.completed, t)
    ensures exists t <- tasks :: Unfinished(tasks, wave, board.completed, t) && Moving(tasks, wave, board, t)
  {
    if forall t <- tasks :: Unfinished(tasks, wave, board.completed, t) ==> !Moving(tasks, wave, board, t) {
      hide Moving;
      hide Waiting;
      forall t | t in tasks ensures Waiting(tasks, wave, board.completed, t) {
        WaitingUnlessMoving(tasks, wave, board, t);
      }
      StuckHasCycle(tasks, wave, board);
      assert false;
    }
  }

  lemma WaitingUnlessMoving(tasks: seq<Task>, wave: nat, board: Board, t: Task)
    requires t in tasks && (Unfinished(tasks, wave, board.completed, t) ==> !Moving(tasks, wave, board, t))
    ensures Waiting(tasks, wave, board.completed, t)
  {
  }

  predicate Waiting(tasks: seq<Task>, wave: nat, completed: set<TaskId>, t: Task) {
    Unfinished(tasks, wave, completed, t) ==> !DepsDone(t, completed)
  }

  predicate AllWaiting(tasks: seq<Task>, wave: nat, completed: set<TaskId>) {
    forall t {:trigger Waiting(tasks, wave, completed, t)} :: t in tasks ==> Waiting(tasks, wave, completed, t)
  }

  predicate Moving(tasks: seq<Task>, wave: nat, board: Board, t: Task) {
    var c := Classify(tasks, wave, None, board);
    t.id in board.active || t in c.claimable || t in c.claimableMissingDifficulty
  }

  /** A wave in which every unfinished task waits for a dependency has a dependency cycle. */
  lemma StuckHasCycle(tasks: seq<Task>, wave: nat, board: Board)
    requires ClosedWave(tasks, wave, board.completed)
    requires exists t <- tasks :: Unfinished(tasks, wave, board.completed, t)
    requires AllWaiting(tasks, wave, board.completed)
    ensures !Acyclic(tasks, wave)
  {
    var p := StuckChain(tasks, wave, board, |tasks|);
    LongChainHasCycle(tasks, wave, p);
  }

  lemma LongChainHasCycle(tasks: seq<Task>, wave: nat, p: seq<Task>)
    requires Chain(tasks, wave, p) && |p| > |tasks|
    ensures !Acyclic(tasks, wave)
  {
    assert forall t <- p :: InWave(tasks, wave, t);
    var i, j := Pigeonhole(p, tasks);
    var cycle := p[i..j + 1];
    forall k | 0 <= k < |cycle| - 1 ensures cycle[k + 1].id in cycle[k].dependsOn {
      assert cycle[k] == p[i + k] && cycle[k + 1] == p[i + k + 1];
    }
    assert Chain(tasks, wave, cycle) && cycle[0] == cycle[|cycle| - 1];
  }

  /** When every unfinished task waits for a dependency, dependency walks never end. */
  lemma {:induction false} StuckChain(tasks: seq<Task>, wave: nat, board: Board, n: nat) returns (p: seq<Task>)
    requires ClosedWave(tasks, wave, board.completed)
    requires exists t <- tasks :: Unfinished(tasks, wave, board.completed, t)
    requires AllWaiting(tasks, wave, board.completed)
    ensures |p| == n + 1 && Chain(tasks, wave, p)
    ensures forall t <- p :: t in tasks && Unfinished(tasks, wave, board.completed, t)
  {
    if n == 0 {
      var t :| t in tasks && Unfinished(tasks, wave, board.completed, t);
      p := [t];
    } else {
      p := StuckChain(tasks, wave, board, n - 1);
      var last := p[|p| - 1];
      assert last in p && last in tasks && Waiting(tasks, wave, board.completed, last);
      var d :| d in last.dependsOn && d !in board.completed;
      assert LiveId(tasks, wave, d);
      var u :| u in tasks && InWave(tasks, wave, u) && u.id == d;
      p := p + [u];
    }
  }

  lemma {:induction false} Pigeonhole(p: seq<Task>, pool: seq<Task>) returns (i: nat, j: nat)
    requires |p| > |pool| && forall t <- p :: t in pool
    ensures i < j < |p| && p[i] == p[j]
  {
    if forall a, b :: 0 <= a < b < |p| ==> p[a] != p[b] {
      DistinctSize(p);
      SetSize(pool);
      SubsetSize(Elements(p), Elements(pool));
      assert false;
    }
    i, j :| 0 <= i < j < |p| && p[i] == p[j];
  }

  function Elements(p: seq<Task>): set<Task> {
    set t <- p
  }

  lemma {:induction false} DistinctSize(p: seq<Task>)
    requires forall a, b :: 0 <= a < b < |p| ==> p[a] != p[b]
    ensures |Elements(p)| == |p|
  {
    if p != [] {
      DistinctSize(p[1..]);
      assert Elements(p) == {p[0]} + Elements(p[1..]);
    }
  }

  lemma {:induction false} SetSize(p: seq<Task>)
    ensures |Elements(p)| <= |p|
  {
    if p != [] {
      SetSize(p[1..]);
      assert Elements(p) == {p[0]} + Elements(p[1..]);
    }
  }

  lemma {:induction false} SubsetSize(a: set<Task>, b: set<Task>)
    requires a <= b
    ensures |a| <= |b|
  {
    if x :| x in a {
      SubsetSize(a - {x}, b - {x});
    }
  }
}

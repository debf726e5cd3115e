/** The history of `origin/main` as the fleet writes it, and what every lawful history keeps.

    Each commit records who made it and on which board the decision was taken: `seen` is the index
    of the commit whose files the agent had loaded, and `lost` says that, earlier in the same claim
    attempt, a push that broke a stale lock had lost its race. */
module ClaimHistory {
  import opened Text
  import opened TaskBoard

  type AgentId = string

  datatype Action =
    | Other
    | Claim(agent: AgentId, task: TaskId, wave: nat, difficulty: Option<string>, seen: nat, lost: bool, lock: Lock)
    | Break(agent: AgentId, task: TaskId, seen: nat, lost: bool, evidence: Evidence)
    | Release(agent: AgentId, task: TaskId)
    | Finish(agent: AgentId, task: TaskId)

  datatype Commit = Commit(action: Action, board: Board)

  predicate ClaimOf(c: Commit, t: TaskId) {
    c.action.Claim? && c.action.task == t
  }

  /** A commit that takes the lock file of `t` away. */
  predicate Removal(c: Commit, t: TaskId) {
    (c.action.Break? || c.action.Release? || c.action.Finish?) && c.action.task == t
  }

  predicate ClaimedBy(h: seq<Commit>, a: AgentId, t: TaskId) {
    exists i :: 0 < i < |h| && ClaimOf(h[i], t) && h[i].action.agent == a
  }

  function WithoutLock(b: Board, t: TaskId): Board {
    b.(active := b.active - {t})
  }

  /** `c` may be pushed on top of `h`. */
  predicate LawfulNext(tasks: seq<Task>, h: seq<Commit>, c: Commit)
    requires h != []
  {
    var parent := h[|h| - 1].board;
    match c.action
    case Other => c.board == parent
    case Claim(a, t, wave, difficulty, seen, lost, lock) =>
      && seen < |h| && (!lost ==> seen == |h| - 1)
      && FirstClaimable(tasks, wave, difficulty, h[seen].board) == Some(t)
      && c.board == parent.(active := parent.active[t := lock])
    case Break(a, t, seen, lost, e) =>
      && seen < |h| && (!lost ==> seen == |h| - 1)
      && t in h[seen].board.active && LockIsStale(h[seen].board.active[t], e)
      && t in parent.active && c.board == WithoutLock(parent, t)
    case Release(a, t) =>
      t in parent.active && c.board == WithoutLock(parent, t)
    case Finish(a, t) =>
      ClaimedBy(h, a, t) && c.board == Board(parent.active - {t}, parent.completed + {t})
  }

  function FirstClaimable(tasks: seq<Task>, wave: nat, difficulty: Option<string>, board: Board): Option<TaskId> {
    var claimable := Classify(tasks, wave, difficulty, board).claimable;
    if claimable == [] then None else Some(claimable[0].id)
  }

  predicate Lawful(tasks: seq<Task>, h: seq<Commit>) {
    h != [] && forall k {:trigger h[..k]} :: 0 < k < |h| ==> LawfulNext(tasks, h[..k], h[k])
  }

  lemma LawfulPrefix(tasks: seq<Task>, h: seq<Commit>, k: nat)
    requires Lawful(tasks, h) && 0 < k <= |h|
    ensures Lawful(tasks, h[..k])
  {
    forall i | 0 < i < k ensures LawfulNext(tasks, h[..k][..i], h[..k][i]) {
      assert h[..k][..i] == h[..i];
    }
  }

  lemma LawfulExtend(tasks: seq<Task>, h: seq<Commit>, c: Commit)
    requires Lawful(tasks, h) && LawfulNext(tasks, h, c)
    ensures Lawful(tasks, h + [c])
  {
    var g := h + [c];
    forall k | 0 < k < |g| ensures LawfulNext(tasks, g[..k], g[k]) {
      assert g[..k] == if k < |h| then h[..k] else h;
    }
  }

  /** How a commit may change the coordination files, whatever led to it. */
  predicate BoardStep(before: Board, c: Commit) {
    match c.action
    case Other => c.board == before
    case Claim(_, t, _, _, _, _, lock) => c.board == before.(active := before.active[t := lock])
    case Break(_, t, _, _, _) => t in before.active && c.board == WithoutLock(before, t)
    case Release(_, t) => t in before.active && c.board == WithoutLock(before, t)
    case Finish(_, t) => c.board == Board(before.active - {t}, before.completed + {t})
  }

  lemma LawfulStep(tasks: seq<Task>, h: seq<Commit>, k: nat)
    requires Lawful(tasks, h) && 0 < k < |h|
    ensures BoardStep(h[k - 1].board, h[k])
  {
    assert LawfulNext(tasks, h[..k], h[k]);
  }

  /** What a claim knows of the board it was decided on. */
  lemma ClaimDecision(tasks: seq<Task>, h: seq<Commit>, k: nat) returns (t: Task)
    requires Lawful(tasks, h) && 0 < k < |h| && h[k].action.Claim?
    ensures t in tasks && t.id == h[k].action.task
    ensures h[k].action.seen < k && (!h[k].action.lost ==> h[k].action.seen == k - 1)
    ensures Ready(t, h[h[k].action.seen].board)
  {
    assert LawfulNext(tasks, h[..k], h[k]);
    var c := h[k].action;
    assert h[..k][c.seen] == h[c.seen];
    ClaimableHead(tasks, c.wave, c.difficulty, h[c.seen].board);
    t := Classify(tasks, c.wave, c.difficulty, h[c.seen].board).claimable[0];
  }

  lemma {:induction false} CompletedGrows(tasks: seq<Task>, h: seq<Commit>, i: nat, j: nat)
    requires Lawful(tasks, h) && i <= j < |h|
    ensures h[i].board.completed <= h[j].board.completed
    decreases j
  {
    if i < j {
      CompletedGrows(tasks, h, i, j - 1);
      LawfulStep(tasks, h, j);
    }
  }

  // ── Dependency safety ─────────────────────────────────────────────────────

  /** Dependencies of the task named `id`, if there is one, are all in `completed`. */
  predicate IdDepsDone(tasks: seq<Task>, id: TaskId, completed: set<TaskId>) {
    forall t <- tasks :: t.id == id ==> DepsDone(t, completed)
  }

  /** A claim, even one decided on an outdated board, has its dependencies completed. */
  lemma ClaimHasDeps(tasks: seq<Task>, h: seq<Commit>, k: nat)
    requires Lawful(tasks, h) && DistinctIds(tasks) && 0 < k < |h| && h[k].action.Claim?
    ensures IdDepsDone(tasks, h[k].action.task, h[k - 1].board.completed)
  {
    var t := ClaimDecision(tasks, h, k);
    CompletedGrows(tasks, h, h[k].action.seen, k - 1);
  }

  lemma FinishHasDeps(tasks: seq<Task>, h: seq<Commit>, k: nat)
    requires Lawful(tasks, h) && DistinctIds(tasks) && 0 < k < |h| && h[k].action.Finish?
    ensures IdDepsDone(tasks, h[k].action.task, h[k - 1].board.completed)
  {
    assert LawfulNext(tasks, h[..k], h[k]);
    var t := h[k].action.task;
    var i :| 0 < i < k && ClaimOf(h[..k][i], t);
    ClaimHasDeps(tasks, h, i);
    CompletedGrows(tasks, h, i - 1, k - 1);
  }

  /** Every locked and every finished task has its dependencies completed. */
  predicate DepsHold(tasks: seq<Task>, b: Board) {
    forall id <- b.active.Keys + b.completed :: IdDepsDone(tasks, id, b.completed)
  }

  /** In every lawful history, stale snapshots included, the dependency order is respected. */
  lemma {:induction false} DependencySafety(tasks: seq<Task>, h: seq<Commit>, k: nat)
    requires Lawful(tasks, h) && DistinctIds(tasks) && DepsHold(tasks, h[0].board) && k < |h|
    ensures DepsHold(tasks, h[k].board)
  {
    hide LawfulNext;
    if k > 0 {
      DependencySafety(tasks, h, k - 1);
      CompletedGrows(tasks, h, k - 1, k);
      LawfulStep(tasks, h, k);
      if h[k].action.Claim? {
        ClaimHasDeps(tasks, h, k);
      } else if h[k].action.Finish? {
        FinishHasDeps(tasks, h, k);
      }
      forall id | id in h[k].board.active || id in h[k].board.completed
        ensures IdDepsDone(tasks, id, h[k].board.completed)
      {
        if id in h[k - 1].board.active || id in h[k - 1].board.completed {
          assert IdDepsDone(tasks, id, h[k - 1].board.completed);
        }
      }
    }
  }

  /** Tasks in the order in which their done markers first reach main. */
  function CompletionOrder(h: seq<Commit>): seq<TaskId> {
    if |h| <= 1 then []
    else
      var before, c := h[..|h| - 1], h[|h| - 1];
      CompletionOrder(before)
      + if c.action.Finish? && c.action.task !in before[|before| - 1].board.completed then [c.action.task] else []
  }

  lemma {:induction false} CompletionOrderIsCompletions(tasks: seq<Task>, h: seq<Commit>)
    requires Lawful(tasks, h)
    ensures forall id :: id in h[|h| - 1].board.completed <==> id in h[0].board.completed || id in CompletionOrder(h)
    ensures forall id <- CompletionOrder(h) :: id !in h[0].board.completed
    ensures forall p, q :: 0 <= p < q < |CompletionOrder(h)| ==> CompletionOrder(h)[p] != CompletionOrder(h)[q]
  {
    hide LawfulNext;
    if |h| > 1 {
      var k := |h| - 1;
      LawfulPrefix(tasks, h, k);
      CompletionOrderIsCompletions(tasks, h[..k]);
      CompletedGrows(tasks, h, 0, k - 1);
      LawfulStep(tasks, h, k);
      assert h[..k][k - 1] == h[k - 1] && h[..k][0] == h[0];
      CompletionAdded(h[0].board.completed, h[k - 1].board.completed, h[k], CompletionOrder(h[..k]), CompletionOrder(h));
    }
  }

  /** One more commit adds at most its own task to the completed ones and to their order. */
  lemma CompletionAdded(start: set<TaskId>, before: set<TaskId>, c: Commit, earlier: seq<TaskId>, order: seq<TaskId>)
    requires forall id :: id in before <==> id in start || id in earlier
    requires forall id <- earlier :: id !in start
    requires forall p, q :: 0 <= p < q < |earlier| ==> earlier[p] != earlier[q]
    requires c.board.completed == if c.action.Finish? then before + {c.action.task} else before
    requires order == earlier + if c.action.Finish? && c.action.task !in before then [c.action.task] else []
    ensures forall id :: id in c.board.completed <==> id in start || id in order
    ensures forall id <- order :: id !in start
    ensures forall p, q :: 0 <= p < q < |order| ==> order[p] != order[q]
  {
  }

  /** The order of completions over a whole run is a linear extension of the dependency graph. */
  lemma {:induction false} LinearExtension(tasks: seq<Task>, h: seq<Commit>, p: nat, t: Task, d: TaskId)
    requires Lawful(tasks, h) && DistinctIds(tasks)
    requires p < |CompletionOrder(h)| && t in tasks && CompletionOrder(h)[p] == t.id && d in t.dependsOn
    ensures d in h[0].board.completed || d in CompletionOrder(h)[..p]
  {
    hide LawfulNext;
    var before := h[..|h| - 1];
    LawfulPrefix(tasks, h, |h| - 1);
    if p < |CompletionOrder(before)| {
      LinearExtension(tasks, before, p, t, d);
      assert CompletionOrder(before)[..p] == CompletionOrder(h)[..p];
    } else {
      FinishHasDeps(tasks, h, |h| - 1);
      CompletionOrderIsCompletions(tasks, before);
      assert CompletionOrder(h)[..p] == CompletionOrder(before);
    }
  }

  predicate WaitsIn(tasks: seq<Task>, id: TaskId, s: set<TaskId>) {
    exists t <- tasks :: t.id == id && exists d <- t.dependsOn :: d in s
  }

  /** Tasks that wait for each other never start: if each task named in `s` depends on another
      one named in `s`, none of them is ever locked or completed. */
  lemma {:induction false} CyclesNeverRun(tasks: seq<Task>, h: seq<Commit>, s: set<TaskId>, k: nat)
    requires Lawful(tasks, h) && DistinctIds(tasks) && k < |h|
    requires forall id <- s :: WaitsIn(tasks, id, s)
    requires forall id <- s :: id !in h[0].board.active && id !in h[0].board.completed
    ensures forall id <- s :: id !in h[k].board.active && id !in h[k].board.completed
  {
    if k > 0 {
      hide *;
      CyclesNeverRun(tasks, h, s, k - 1);
      CycleStep(tasks, h, s, k);
    }
  }

  lemma CycleStep(tasks: seq<Task>, h: seq<Commit>, s: set<TaskId>, k: nat)
    requires Lawful(tasks, h) && DistinctIds(tasks) && 0 < k < |h|
    requires forall id <- s :: WaitsIn(tasks, id, s)
    requires forall id <- s :: id !in h[k - 1].board.active && id !in h[k - 1].board.completed
    ensures forall id <- s :: id !in h[k].board.active && id !in h[k].board.completed
  {
    hide LawfulNext;
    hide WaitsIn;
    hide IdDepsDone;
    LawfulStep(tasks, h, k);
    var c := h[k].action;
    if c.Claim? && c.task in s {
      StillWaiting(tasks, c.task, s, h[k - 1].board.completed);
      ClaimHasDeps(tasks, h, k);
    } else if c.Finish? && c.task in s {
      StillWaiting(tasks, c.task, s, h[k - 1].board.completed);
      FinishHasDeps(tasks, h, k);
    }
  }

  lemma StillWaiting(tasks: seq<Task>, id: TaskId, s: set<TaskId>, completed: set<TaskId>)
    requires WaitsIn(tasks, id, s) && s !! completed
    ensures !IdDepsDone(tasks, id, completed)
  {
  }

  // ── Mutual exclusion ──────────────────────────────────────────────────────

  /** Commit `i` puts the lock of `t` in place (commit 0 stands for everything before it). */
  predicate Acquires(h: seq<Commit>, i: nat, t: TaskId)
    requires i < |h|
  {
    if i == 0 then t in h[0].board.active else ClaimOf(h[i], t)
  }

  /** Some commit strictly between `i` and `j` removes the lock of `t`. */
  predicate RemovedBetween(h: seq<Commit>, i: nat, j: nat, t: TaskId)
    requires j <= |h|
  {
    exists k :: i < k < j && Removal(h[k], t)
  }

  /** A lock file is present exactly when some claim has not been followed by a removal. */
  lemma {:induction false} LockedIff(tasks: seq<Task>, h: seq<Commit>, t: TaskId, j: nat)
    requires Lawful(tasks, h) && j < |h|
    ensures t in h[j].board.active <==> exists i :: 0 <= i <= j && Acquires(h, i, t) && !RemovedBetween(h, i, j + 1, t)
  {
    hide LawfulNext;
    if j > 0 {
      LockedIff(tasks, h, t, j - 1);
      LawfulStep(tasks, h, j);
      if ClaimOf(h[j], t) {
        assert Acquires(h, j, t) && !RemovedBetween(h, j, j + 1, t);
      } else {
        forall i | 0 <= i < j
          ensures RemovedBetween(h, i, j + 1, t) <==> RemovedBetween(h, i, j, t) || Removal(h[j], t)
        {
        }
      }
    } else {
      assert Acquires(h, 0, t) <==> t in h[0].board.active;
      assert !RemovedBetween(h, 0, 1, t);
    }
  }

  /** The claim at `j` is the first since the lock was last free, of a task not yet completed. */
  predicate Exclusive(h: seq<Commit>, j: nat)
    requires 0 < j < |h| && h[j].action.Claim?
  {
    var t := h[j].action.task;
    && t !in h[j - 1].board.completed
    && forall i :: 0 <= i < j && Acquires(h, i, t) ==> RemovedBetween(h, i, j, t)
  }

  /** Mutual exclusion, exactly: a pushed claim is exclusive if and only if its task is still ready
      on the commit it lands on; and it is whenever no break push was lost in the attempt. */
  lemma ExclusiveIff(tasks: seq<Task>, h: seq<Commit>, j: nat, t: Task)
    requires Lawful(tasks, h) && DistinctIds(tasks) && 0 < j < |h| && h[j].action.Claim?
    requires t in tasks && t.id == h[j].action.task
    ensures Exclusive(h, j) <==> Ready(t, h[j - 1].board)
    ensures !h[j].action.lost ==> Exclusive(h, j)
  {
    var u := ClaimDecision(tasks, h, j);
    LockedIff(tasks, h, t.id, j - 1);
    ClaimHasDeps(tasks, h, j);
  }

  /** Between two claims of one task, the later made without a lost break push, the lock was
      removed: at most one agent at a time has been told that the task is its own. */
  lemma ClaimsAreSeparated(tasks: seq<Task>, h: seq<Commit>, i: nat, j: nat, t: TaskId)
    requires Lawful(tasks, h) && DistinctIds(tasks)
    requires 0 < i < j < |h| && ClaimOf(h[i], t) && ClaimOf(h[j], t) && !h[j].action.lost
    ensures RemovedBetween(h, i, j, t)
  {
    var task := ClaimDecision(tasks, h, j);
    ExclusiveIff(tasks, h, j, task);
    assert Acquires(h, i, t);
  }

  /** Some commit strictly between `i` and `j` claims `t`. */
  predicate ClaimedBetween(h: seq<Commit>, i: nat, j: nat, t: TaskId)
    requires j <= |h|
  {
    exists k :: i < k < j && ClaimOf(h[k], t)
  }

  /** Until a task is claimed again, its lock file, if present, is the one that was there. */
  lemma {:induction false} LockUnchanged(tasks: seq<Task>, h: seq<Commit>, t: TaskId, i: nat, j: nat)
    requires Lawful(tasks, h) && i <= j < |h| && t in h[j].board.active
    requires !ClaimedBetween(h, i, j + 1, t)
    ensures t in h[i].board.active && h[i].board.active[t] == h[j].board.active[t]
    decreases j
  {
    hide LawfulNext;
    if i < j {
      LawfulStep(tasks, h, j);
      LockUnchanged(tasks, h, t, i, j - 1);
    }
  }

  predicate Overdue(time: Option<int>, now: int) {
    time.Some? ==> now - time.value > LOCK_TIMEOUT
  }

  /** Every sign of life of a lock is older than the timeout. */
  predicate LongSilent(lock: Lock, e: Evidence) {
    && lock.claimedAt.Some? && Overdue(lock.claimedAt, e.now)
    && Overdue(e.branchCommit, e.now) && Overdue(e.mainMention, e.now)
  }

  /** A lock is stale exactly if it says when it was claimed and every sign of life is older than the
      timeout. */
  lemma StaleIff(lock: Lock, e: Evidence)
    ensures LockIsStale(lock, e) <==>
      && lock.claimedAt.Some? && e.now - lock.claimedAt.value > LOCK_TIMEOUT
      && (e.branchCommit.Some? ==> e.now - e.branchCommit.value > LOCK_TIMEOUT)
      && (e.mainMention.Some? ==> e.now - e.mainMention.value > LOCK_TIMEOUT)
  {
  }

  /** A break removes the very lock it examined, long silent, or one that was claimed since the
      attempt loaded the locks; the latter only after a lost push. */
  lemma BreakIsOverdue(tasks: seq<Task>, h: seq<Commit>, k: nat, t: TaskId)
    requires Lawful(tasks, h) && 0 < k < |h| && h[k].action.Break? && h[k].action.task == t
    ensures t in h[k - 1].board.active
    ensures LongSilent(h[k - 1].board.active[t], h[k].action.evidence)
      || (h[k].action.lost && ClaimedBetween(h, h[k].action.seen, k, t))
  {
    assert LawfulNext(tasks, h[..k], h[k]);
    var seen := h[k].action.seen;
    assert h[..k][seen] == h[seen] && h[..k][k - 1] == h[k - 1];
    if !ClaimedBetween(h, seen, k, t) {
      LockUnchanged(tasks, h, t, seen, k - 1);
    }
  }
}

/** `claim_next` and its helpers as they change a clone, step by step.

    Other agents are the environment: before each contact with origin an arbitrary batch of their
    lawful commits lands. Each method keeps the history lawful in turn, so whatever number of
    clones runs these methods, the history is one that module ClaimHistory speaks about. */
module ClaimNext {
  import opened Text
  import opened TaskBoard
  import opened ClaimHistory

  predicate By(c: Commit, a: AgentId) {
    !c.action.Other? && c.action.agent == a
  }

  /** `h` after those commits of `batch` that are lawful and not by `self`, in order. */
  function Landed(tasks: seq<Task>, h: seq<Commit>, batch: seq<Commit>, self: AgentId): (r: seq<Commit>)
    requires Lawful(tasks, h)
    ensures Lawful(tasks, r) && h <= r
    ensures forall k :: |h| <= k < |r| ==> !By(r[k], self)
    decreases |batch|
  {
    if batch == [] then h
    else if LawfulNext(tasks, h, batch[0]) && !By(batch[0], self) then
      LawfulExtend(tasks, h, batch[0]);
      Landed(tasks, h + [batch[0]], batch[1..], self)
    else Landed(tasks, h, batch[1..], self)
  }

  /** All of a batch lands if it is lawful and by others. */
  lemma {:induction false} LandedAll(tasks: seq<Task>, h: seq<Commit>, batch: seq<Commit>, self: AgentId)
    requires Lawful(tasks, h) && Lawful(tasks, h + batch) && forall c <- batch :: !By(c, self)
    ensures Landed(tasks, h, batch, self) == h + batch
    decreases |batch|
  {
    if batch == [] {
      assert h + batch == h;
    } else {
      var g := h + batch;
      assert g[..|h|] == h && LawfulNext(tasks, g[..|h|], g[|h|]);
      assert batch[0] in batch && h + [batch[0]] + batch[1..] == g;
      LawfulExtend(tasks, h, batch[0]);
      LandedAll(tasks, h + [batch[0]], batch[1..], self);
    }
  }

  datatype Outcome =
    | Claimed(task: Task, lock: Lock, missing: seq<Task>)
    | MissingDifficulty(tasks: seq<Task>)
    | NoClaimable(payload: Payload)
    | Exhausted

  /** A push from commit `stood` when origin had `head` commits, at a contact with it. */
  datatype Push = Push(stood: nat, head: nat, contact: nat, accepted: bool)

  /** One pass over the locks, in the order `order`, as loaded at commit `seen`, from look `first` and push
      `start` on: the first `passed` of them were examined and passed over. Those of them that were stale
      are at the places `stale`, and each made a push that was not accepted, the one in `misses` at the same
      place. */
  datatype Scan = Scan(seen: nat, order: seq<TaskId>, first: nat, start: nat, passed: nat, stale: seq<nat>, misses: seq<nat>)

  /** How an attempt ends that leads to another one: a stale lock was broken, or the push of the claim
      was refused, which is named by its number. */
  datatype Ending = BrokeLock(task: TaskId, scan: Scan) | LostClaim(task: TaskId, push: nat, scan: Scan)

  function BrokenIn(endings: seq<Ending>): seq<TaskId> {
    if endings == [] then []
    else
      var n := |endings| - 1;
      BrokenIn(endings[..n]) + if endings[n].BrokeLock? then [endings[n].task] else []
  }

  lemma BrokenNext(endings: seq<Ending>, e: Ending)
    ensures BrokenIn(endings + [e]) == BrokenIn(endings) + if e.BrokeLock? then [e.task] else []
  {
    assert (endings + [e])[..|endings|] == endings;
  }

  /** The fixed surroundings of one run: what lands before each contact, which pushes the network
      refuses, what each lock examination sees, and the lock a claim writes. */
  datatype World = World(
    others: nat -> seq<Commit>,
    refused: nat -> bool,
    evidence: nat -> Evidence,
    claimedAt: nat -> int)

  /** A push is accepted exactly if origin has not moved and the network lets it through. */
  predicate Fair(world: World, p: Push) {
    p.accepted <==> p.head == p.stood + 1 && !world.refused(p.contact)
  }

  predicate Increasing(s: seq<nat>) {
    forall i, j :: 0 <= i < j < |s| ==> s[i] < s[j]
  }

  /** A push of its own, numbered from `from` on, that was not accepted: origin had moved, or the network
      refused it. */
  predicate Missed(world: World, pushes: seq<Push>, from: nat, k: nat) {
    from <= k < |pushes| && !pushes[k].accepted && Fair(world, pushes[k])
  }

  /** Lock `i` of the pass was stale when it was examined. */
  predicate StaleAt(world: World, active: map<TaskId, Lock>, scan: Scan, i: nat) {
    i < |scan.order| && scan.order[i] in active && LockIsStale(active[scan.order[i]], world.evidence(scan.first + i))
  }

  /** The pass went over the locks of commit `seen` in order; exactly the stale ones it passed over cost a
      push each, and none of these was accepted. */
  ghost predicate Scanned(world: World, log: seq<Commit>, pushes: seq<Push>, scan: Scan) {
    && scan.seen < |log| && scan.passed <= |scan.order|
    && SortedNames(scan.order) && (forall t :: t in scan.order <==> t in log[scan.seen].board.active)
    && |scan.stale| == |scan.misses| && Increasing(scan.stale) && Increasing(scan.misses)
    && (forall i: nat :: i in scan.stale <==> i < scan.passed && StaleAt(world, log[scan.seen].board.active, scan, i))
    && forall k <- scan.misses :: Missed(world, pushes, scan.start, k)
  }

  /** What an ending claims: a stale lock at the end of the pass is broken, or all locks were passed over
      and the claim of the first claimable task was not accepted. */
  ghost predicate Ended(
    world: World, tasks: seq<Task>, wave: nat, difficulty: Option<string>, log: seq<Commit>, pushes: seq<Push>, e: Ending)
  {
    && Scanned(world, log, pushes, e.scan)
    && match e
       case BrokeLock(t, scan) =>
         scan.passed < |scan.order| && t == scan.order[scan.passed]
         && StaleAt(world, log[scan.seen].board.active, scan, scan.passed)
       case LostClaim(t, k, scan) =>
         && scan.passed == |scan.order| && Missed(world, pushes, scan.start, k) && k !in scan.misses
         && FirstClaimable(tasks, wave, difficulty, log[scan.seen].board) == Some(t)
  }

  lemma ScannedLonger(world: World, log: seq<Commit>, longer: seq<Commit>, pushes: seq<Push>, more: seq<Push>, scan: Scan)
    requires Scanned(world, log, pushes, scan) && log <= longer && pushes <= more
    ensures Scanned(world, longer, more, scan)
  {
    hide Fair;
    hide LockIsStale;
  }

  lemma EndedLonger(
    world: World, tasks: seq<Task>, wave: nat, difficulty: Option<string>,
    log: seq<Commit>, longer: seq<Commit>, pushes: seq<Push>, more: seq<Push>, e: Ending)
    requires Ended(world, tasks, wave, difficulty, log, pushes, e) && log <= longer && pushes <= more
    ensures Ended(world, tasks, wave, difficulty, longer, more, e)
  {
    ScannedLonger(world, log, longer, pushes, more, e.scan);
    assert e.scan.seen < |log| && log[e.scan.seen] == longer[e.scan.seen];
    hide Scanned;
    hide Fair;
    hide FirstClaimable;
    hide StaleAt;
  }

  lemma BrokeEnded(
    world: World, tasks: seq<Task>, wave: nat, difficulty: Option<string>, log: seq<Commit>, pushes: seq<Push>, t: TaskId, scan: Scan)
    requires Scanned(world, log, pushes, scan) && scan.passed < |scan.order| && t == scan.order[scan.passed]
    requires StaleAt(world, log[scan.seen].board.active, scan, scan.passed)
    ensures Ended(world, tasks, wave, difficulty, log, pushes, BrokeLock(t, scan))
  {
  }

  lemma LostEnded(
    world: World, tasks: seq<Task>, wave: nat, difficulty: Option<string>,
    earlier: seq<Commit>, log: seq<Commit>, before: seq<Push>, pushes: seq<Push>, t: TaskId, scan: Scan)
    requires Scanned(world, earlier, before, scan) && Scanned(world, log, pushes, scan) && scan.passed == |scan.order|
    requires |pushes| == |before| + 1 && Missed(world, pushes, scan.start, |before|)
    requires FirstClaimable(tasks, wave, difficulty, log[scan.seen].board) == Some(t)
    ensures Ended(world, tasks, wave, difficulty, log, pushes, LostClaim(t, |before|, scan))
  {
    hide FirstClaimable;
    hide StaleAt;
    hide Fair;
  }

  lemma IncreasingMore(s: seq<nat>, x: nat)
    requires Increasing(s) && forall e <- s :: e < x
    ensures Increasing(s + [x])
  {
    forall i | 0 <= i < |s| ensures s[i] < x {
      assert s[i] in s;
    }
  }

  lemma ScanStart(world: World, log: seq<Commit>, pushes: seq<Push>, seen: nat, order: seq<TaskId>, first: nat)
    requires seen < |log| && SortedNames(order) && forall t :: t in order <==> t in log[seen].board.active
    ensures Scanned(world, log, pushes, Scan(seen, order, first, |pushes|, 0, [], []))
  {
  }

  /** A pass goes on over a stale lock with the push it has just missed. */
  lemma ScanMissed(world: World, earlier: seq<Commit>, log: seq<Commit>, before: seq<Push>, pushes: seq<Push>, scan: Scan)
    requires Scanned(world, earlier, before, scan) && earlier <= log && before <= pushes && |pushes| == |before| + 1
    requires scan.seen < |log| && scan.passed < |scan.order| && StaleAt(world, log[scan.seen].board.active, scan, scan.passed)
    requires Missed(world, pushes, scan.start, |before|)
    ensures Scanned(world, log, pushes,
              scan.(passed := scan.passed + 1, stale := scan.stale + [scan.passed], misses := scan.misses + [|before|]))
  {
    var next := scan.(passed := scan.passed + 1, stale := scan.stale + [scan.passed], misses := scan.misses + [|before|]);
    ScannedLonger(world, earlier, log, before, pushes, scan);
    IncreasingMore(scan.stale, scan.passed);
    IncreasingMore(scan.misses, |before|);
    var active := log[scan.seen].board.active;
    forall i: nat ensures i in next.stale <==> i < next.passed && StaleAt(world, active, next, i) {
      assert i in next.stale <==> i in scan.stale || i == scan.passed;
      assert StaleAt(world, active, next, i) <==> StaleAt(world, active, scan, i);
    }
    hide StaleAt;
    hide Missed;
    hide Increasing;
    hide SortedNames;
  }

  lemma StaleIs(world: World, active: map<TaskId, Lock>, scan: Scan, i: nat)
    requires i < |scan.order| && scan.order[i] in active
    ensures StaleAt(world, active, scan, i) <==> LockIsStale(active[scan.order[i]], world.evidence(scan.first + i))
  {
  }

  lemma ScanFresh(world: World, log: seq<Commit>, pushes: seq<Push>, scan: Scan)
    requires Scanned(world, log, pushes, scan) && scan.passed < |scan.order|
    requires !StaleAt(world, log[scan.seen].board.active, scan, scan.passed)
    ensures Scanned(world, log, pushes, scan.(passed := scan.passed + 1))
  {
  }

  /** The endings of a call, in order: each is what it claims to be, and begins after the pushes of the
      ones before it. */
  ghost predicate Accounted(
    world: World, tasks: seq<Task>, wave: nat, difficulty: Option<string>, log: seq<Commit>, pushes: seq<Push>,
    from: nat, endings: seq<Ending>)
  {
    && (forall e <- endings :: Ended(world, tasks, wave, difficulty, log, pushes, e) && from <= e.scan.start)
    && forall i, j :: 0 <= i < j < |endings| ==> After(endings[i], endings[j].scan.start)
  }

  /** All pushes of the ending have smaller numbers. */
  predicate After(e: Ending, start: nat) {
    (forall k <- e.scan.misses :: k < start) && (e.LostClaim? ==> e.push < start)
  }

  lemma AccountedNone(
    world: World, tasks: seq<Task>, wave: nat, difficulty: Option<string>, log: seq<Commit>, pushes: seq<Push>, from: nat)
    ensures BrokenIn([]) == [] && Accounted(world, tasks, wave, difficulty, log, pushes, from, [])
  {
  }

  lemma AccountedLonger(
    world: World, tasks: seq<Task>, wave: nat, difficulty: Option<string>,
    log: seq<Commit>, longer: seq<Commit>, pushes: seq<Push>, more: seq<Push>, from: nat, endings: seq<Ending>)
    requires Accounted(world, tasks, wave, difficulty, log, pushes, from, endings) && log <= longer && pushes <= more
    ensures Accounted(world, tasks, wave, difficulty, longer, more, from, endings)
  {
    hide Ended;
    hide After;
    forall e <- endings ensures Ended(world, tasks, wave, difficulty, longer, more, e) {
      EndedLonger(world, tasks, wave, difficulty, log, longer, pushes, more, e);
    }
  }

  lemma AfterPushes(
    world: World, tasks: seq<Task>, wave: nat, difficulty: Option<string>, log: seq<Commit>, pushes: seq<Push>, e: Ending)
    requires Ended(world, tasks, wave, difficulty, log, pushes, e)
    ensures After(e, |pushes|)
  {
  }

  lemma AccountedNext(
    world: World, tasks: seq<Task>, wave: nat, difficulty: Option<string>,
    log: seq<Commit>, longer: seq<Commit>, pushes: seq<Push>, more: seq<Push>, from: nat, endings: seq<Ending>, e: Ending)
    requires Accounted(world, tasks, wave, difficulty, log, pushes, from, endings) && log <= longer && pushes <= more
    requires Ended(world, tasks, wave, difficulty, longer, more, e) && e.scan.start == |pushes| >= from
    ensures Accounted(world, tasks, wave, difficulty, longer, more, from, endings + [e])
  {
    hide Ended;
    hide After;
    hide Scanned;
    AccountedLonger(world, tasks, wave, difficulty, log, longer, pushes, more, from, endings);
    AllAfter(world, tasks, wave, difficulty, log, pushes, from, endings);
    forall i | 0 <= i < |endings| ensures After(endings[i], |pushes|) {
      assert endings[i] in endings;
    }
    forall x <- endings + [e] ensures Ended(world, tasks, wave, difficulty, longer, more, x) && from <= x.scan.start {
      assert x in endings || x == e;
    }
  }

  /** `after` continues `before`, and all that `self` added is breaks of the locks in `broken`. */
  predicate Continues(before: seq<Commit>, after: seq<Commit>, self: AgentId, broken: seq<TaskId>) {
    && before <= after
    && forall k :: |before| <= k < |after| && By(after[k], self) ==>
      after[k].action.Break? && after[k].action.task in broken
  }

  lemma ContinuesSame(log: seq<Commit>, self: AgentId)
    ensures Continues(log, log, self, [])
  {
  }

  lemma ContinuesFurther(a: seq<Commit>, b: seq<Commit>, c: seq<Commit>, self: AgentId, first: seq<TaskId>, later: seq<TaskId>)
    requires Continues(a, b, self, first) && Continues(b, c, self, later)
    ensures Continues(a, c, self, first + later)
  {
    hide By;
  }

  predicate SortedNames(order: seq<TaskId>) {
    forall i, j :: 0 <= i < j < |order| ==> LexLess(order[i], order[j])
  }

  function InsertName(order: seq<TaskId>, t: TaskId): (r: seq<TaskId>)
    ensures forall u :: u in r <==> u in order || u == t
  {
    if order == [] || LexLess(t, order[0]) then [t] + order
    else
      assert order == [order[0]] + order[1..];
      [order[0]] + InsertName(order[1..], t)
  }

  lemma {:induction false} InsertNameSorted(order: seq<TaskId>, t: TaskId)
    requires SortedNames(order) && t !in order
    ensures SortedNames(InsertName(order, t))
  {
    if order != [] {
      LexLessTotal(t, order[0]);
      if LexLess(t, order[0]) {
        forall j | 0 < j < |order| ensures LexLess(t, order[j]) {
          LexLessTransitive(t, order[0], order[j]);
        }
      } else {
        InsertNameSorted(order[1..], t);
        var r := InsertName(order[1..], t);
        forall j | 0 <= j < |r| ensures LexLess(order[0], r[j]) {
          assert r[j] in r;
        }
      }
    }
  }

  /** `sorted(active)`. */
  method SortedKeys(keys: set<TaskId>) returns (order: seq<TaskId>)
    ensures forall t :: t in order <==> t in keys
    ensures SortedNames(order)
  {
    order := [];
    var rest := keys;
    while rest != {}
      invariant rest <= keys && SortedNames(order)
      invariant forall t :: t in order <==> t in keys && t !in rest
      decreases |rest|
    {
      var t :| t in rest;
      InsertNameSorted(order, t);
      order, rest := InsertName(order, t), rest - {t};
    }
  }

  class Origin {
    const tasks: seq<Task>
    var log: seq<Commit>

    ghost predicate Valid()
      reads this
    {
      DistinctIds(tasks) && Lawful(tasks, log)
    }

    constructor (tasks: seq<Task>, board: Board)
      requires DistinctIds(tasks)
      ensures Valid() && this.tasks == tasks && log == [Commit(Other, board)]
    {
      this.tasks := tasks;
      log := [Commit(Other, board)];
    }
  }

  class Clone {
    const origin: Origin
    const agent: AgentId
    const world: World
    var base: nat
    var board: Board
    var contacts: nat
    var looks: nat
    ghost var pushes: seq<Push>

    /** The worktree shows the commit the clone stands on. */
    ghost predicate Valid()
      reads this, origin
    {
      origin.Valid() && base < |origin.log| && board == origin.log[base].board
    }

    constructor (origin: Origin, agent: AgentId, world: World)
      requires origin.Valid()
      ensures Valid() && this.origin == origin && this.agent == agent && this.world == world
      ensures base == |origin.log| - 1
    {
      this.origin, this.agent, this.world := origin, agent, world;
      base := |origin.log| - 1;
      board := origin.log[|origin.log| - 1].board;
      contacts, looks, pushes := 0, 0, [];
    }

    /** The log of origin when it is next contacted: other agents' commits have reached it. */
    ghost function Upcoming(): seq<Commit>
      requires origin.Valid()
      reads this, origin
    {
      Landed(origin.tasks, origin.log, world.others(contacts), agent)
    }

    method OthersLand()
      requires origin.Valid() && base < |origin.log|
      modifies origin`log, this`contacts
      ensures origin.Valid() && contacts == old(contacts) + 1 && origin.log == old(Upcoming())
      ensures old(origin.log) <= origin.log
      ensures forall k :: |old(origin.log)| <= k < |origin.log| ==> !By(origin.log[k], agent)
    {
      origin.log := Landed(origin.tasks, origin.log, world.others(contacts), agent);
      contacts := contacts + 1;
    }

    /** `reset_to_origin` (and `sync_main`): the clone becomes the head of main. */
    method ResetToOrigin()
      requires origin.Valid() && base < |origin.log|
      modifies origin`log, this`contacts, this`base, this`board
      ensures Valid() && base == |origin.log| - 1 && origin.log == old(Upcoming()) && contacts == old(contacts) + 1
      ensures old(origin.log) <= origin.log
      ensures forall k :: |old(origin.log)| <= k < |origin.log| ==> !By(origin.log[k], agent)
    {
      OthersLand();
      base := |origin.log| - 1;
      board := origin.log[base].board;
    }

    /** `commit_and_push`: commit the worktree and push it; on a refusal, resynchronise. */
    method CommitAndPush(action: Action) returns (pushed: bool)
      requires origin.Valid() && base < |origin.log|
      requires LawfulNext(origin.tasks, origin.log[..base + 1], Commit(action, board))
      modifies origin`log, this`contacts, this`base, this`board, this`pushes
      ensures Valid() && base == |origin.log| - 1
      ensures |pushes| == |old(pushes)| + 1 && old(pushes) <= pushes
      ensures pushes[|old(pushes)|] == Push(old(base), |old(Upcoming())|, old(contacts) + 1, pushed)
      ensures Fair(world, pushes[|old(pushes)|])
      ensures pushed ==> origin.log == old(origin.log) + [Commit(action, old(board))]
      ensures pushed ==> old(base) == |old(origin.log)| - 1
      ensures old(origin.log) <= origin.log
      ensures !pushed ==> forall k :: |old(origin.log)| <= k < |origin.log| ==> !By(origin.log[k], agent)
      ensures !pushed ==> |origin.log| > old(base) + 1 || world.refused(old(contacts) + 1)
    {
      hide LawfulNext;
      ghost var before := origin.log;
      OthersLand();
      pushes := pushes + [Push(base, |origin.log|, contacts, base == |origin.log| - 1 && !world.refused(contacts))];
      if base == |origin.log| - 1 && !world.refused(contacts) {
        assert before[..base + 1] == before == origin.log;
        LawfulExtend(origin.tasks, origin.log, Commit(action, board));
        origin.log := origin.log + [Commit(action, board)];
        base := base + 1;
        return true;
      }
      ResetToOrigin();
      return false;
    }

    /** `break_stale_lock`: true also when the lock is already gone from the worktree, and otherwise exactly
        if its one push is accepted. */
    method BreakStaleLock(task: TaskId, seen: nat, lost: bool, evidence: Evidence) returns (broken: bool)
      requires Valid() && seen <= base && (!lost ==> seen == base)
      requires task in origin.log[seen].board.active && LockIsStale(origin.log[seen].board.active[task], evidence)
      modifies origin`log, this`contacts, this`base, this`board, this`pushes
      ensures Valid() && old(pushes) <= pushes
      ensures Continues(old(origin.log), origin.log, agent, if broken then [task] else [])
      ensures old(task !in board.active) ==>
        broken && origin.log == old(origin.log) && base == old(base) && pushes == old(pushes)
      ensures old(task in board.active) ==>
        |pushes| == |old(pushes)| + 1 && pushes[|old(pushes)|] == Push(old(base), |old(Upcoming())|, old(contacts) + 1, broken)
      ensures old(task in board.active) ==> Fair(world, pushes[|old(pushes)|])
      ensures broken && old(task in board.active) ==>
        origin.log == old(origin.log) + [Commit(Break(agent, task, seen, lost, evidence), WithoutLock(old(board), task))]
      ensures old(base) <= base && (!broken ==> base == |origin.log| - 1)
    {
      if task !in board.active {
        return true;
      }
      board := WithoutLock(board, task);
      assert origin.log[..base + 1][seen] == origin.log[seen];
      broken := CommitAndPush(Break(agent, task, seen, lost, evidence));
    }

    /** `release_lock`: removes whatever lock the task has on origin, without asking whose it is. Nothing is
        pushed if it has none; otherwise one release from the head, which gives the task back exactly if it
        is accepted. */
    method ReleaseLock(task: TaskId) returns (released: bool)
      requires Valid()
      modifies origin`log, this`contacts, this`base, this`board, this`pushes
      ensures Valid() && base == |origin.log| - 1 && old(pushes) <= pushes
      ensures old(Upcoming()) <= origin.log
      ensures var head := old(Upcoming()); var parent := head[|head| - 1].board;
        if task !in parent.active then released && origin.log == head && pushes == old(pushes)
        else
          && |pushes| == |old(pushes)| + 1 && Fair(world, pushes[|old(pushes)|])
          && pushes[|old(pushes)|] == Push(
            |head| - 1, |Landed(origin.tasks, head, world.others(old(contacts) + 1), agent)|, old(contacts) + 2, released)
          && (released ==> origin.log == head + [Commit(Release(agent, task), WithoutLock(parent, task))])
      ensures released ==> task !in board.active
      ensures !released ==> forall k :: |old(origin.log)| <= k < |origin.log| ==> !By(origin.log[k], agent)
    {
      ResetToOrigin();
      if task !in board.active {
        return true;
      }
      assert origin.log[..base + 1] == origin.log;
      board := WithoutLock(board, task);
      released := CommitAndPush(Release(agent, task));
    }

    /** The report of an attempt that found every lock it had to keep: what `Classify` says of the
        board loaded at commit `seen`. */
    ghost predicate Reports(outcome: Outcome, wave: nat, difficulty: Option<string>, seen: nat)
      reads this, origin
    {
      seen < |origin.log| &&
      var c := Classify(origin.tasks, wave, difficulty, origin.log[seen].board);
      match outcome
      case Claimed(t, _, missing) => c.claimable != [] && t == c.claimable[0] && missing == c.claimableMissingDifficulty
      case MissingDifficulty(ts) => c.claimable == [] && c.claimableMissingDifficulty == ts && ts != []
      case NoClaimable(p) =>
        && c.claimable == [] && c.claimableMissingDifficulty == []
        && p.claimable == Some([]) && p.blocked == Some(c.blocked) && p.active == Some(c.active)
        && p.otherPoolClaimable == Some(c.otherPoolClaimable) && p.claimableMissingDifficulty == None
        && p.completedCount == |c.completed|
      case _ => false
    }

    /** The loop over `sorted(active)`: breaks the first stale lock whose break push is accepted, after
        one look at each lock up to it. Every stale lock it passed over cost a push that was not accepted,
        and the first stale one is tried from the commit the pass stands on. Locks are judged by the
        metadata loaded at `seen`, even after a lost push has moved the clone. */
    method BreakFirstStale(order: seq<TaskId>, seen: nat) returns (broken: Option<TaskId>, lost: bool, ghost scan: Scan)
      requires Valid() && seen == base && SortedNames(order) && forall t :: t in order <==> t in board.active
      modifies origin`log, this`contacts, this`looks, this`base, this`board, this`pushes
      ensures Valid() && old(base) <= base && old(pushes) <= pushes
      ensures Continues(old(origin.log), origin.log, agent, if broken.Some? then [broken.value] else [])
      ensures broken.None? && !lost ==> base == old(base) && origin.log == old(origin.log)
      ensures broken.None? && !lost ==> contacts == old(contacts) && pushes == old(pushes)
      ensures Scanned(world, origin.log, pushes, scan)
      ensures scan.seen == seen && scan.order == order && scan.first == old(looks) && scan.start == |old(pushes)|
      ensures lost <==> scan.misses != []
      ensures looks == old(looks) + scan.passed + if broken.Some? then 1 else 0
      ensures broken.None? ==> scan.passed == |order|
      ensures broken.Some? ==> scan.passed < |order| && broken.value == order[scan.passed]
      ensures broken.Some? ==> StaleAt(world, old(board).active, scan, scan.passed)
      ensures broken.Some? && !lost ==>
        |pushes| == |old(pushes)| + 1 && pushes[|old(pushes)|] == Push(old(base), |old(Upcoming())|, old(contacts) + 1, true)
      ensures lost ==>
        |pushes| > |old(pushes)| && pushes[|old(pushes)|] == Push(old(base), |old(Upcoming())|, old(contacts) + 1, false)
        && Fair(world, pushes[|old(pushes)|])
    {
      hide Scanned;
      hide StaleAt;
      hide Fair;
      hide LawfulNext;
      hide LockIsStale;
      lost := false;
      scan := Scan(seen, order, looks, |pushes|, 0, [], []);
      ScanStart(world, origin.log, pushes, seen, order, looks);
      ghost var start := origin.log;
      ghost var upcoming := Upcoming();
      ghost var active := board.active;
      for i := 0 to |order|
        invariant scan.seen == seen && scan.order == order && scan.first == old(looks) && scan.start == |old(pushes)|
        invariant scan.passed == i && looks == old(looks) + i && old(pushes) <= pushes
        invariant Valid() && seen <= base && (!lost ==> seen == base) && origin.log[seen].board.active == active
        invariant Continues(start, origin.log, agent, [])
        invariant Scanned(world, origin.log, pushes, scan)
        invariant lost <==> scan.misses != []
        invariant !lost ==> origin.log == start && contacts == old(contacts) && pushes == old(pushes)
        invariant lost ==>
          |pushes| > |old(pushes)| && pushes[|old(pushes)|] == Push(old(base), |upcoming|, old(contacts) + 1, false)
          && Fair(world, pushes[|old(pushes)|])
      {
        var e := world.evidence(looks);
        looks := looks + 1;
        ghost var log, earlier := origin.log, pushes;
        assert order[i] in order;
        StaleIs(world, active, scan, i);
        if LockIsStale(origin.log[seen].board.active[order[i]], e) {
          var ok := BreakStaleLock(order[i], seen, lost, e);
          if ok {
            ScannedLonger(world, log, origin.log, earlier, pushes, scan);
            return Some(order[i]), lost, scan;
          }
          ScanMissed(world, log, origin.log, earlier, pushes, scan);
          scan := scan.(passed := i + 1, stale := scan.stale + [i], misses := scan.misses + [|pushes| - 1]);
          lost := true;
        } else {
          ScanFresh(world, origin.log, pushes, scan);
          scan := scan.(passed := i + 1);
        }
      }
      broken := None;
    }

    /** Writes the lock of the first claimable task and pushes it. */
    method PushLock(selected: Task, wave: nat, difficulty: Option<string>, seen: nat, lost: bool)
      returns (pushed: bool, lock: Lock)
      requires Valid() && seen <= base && (!lost ==> seen == base)
      requires selected in origin.tasks
      requires FirstClaimable(origin.tasks, wave, difficulty, origin.log[seen].board) == Some(selected.id)
      modifies origin`log, this`contacts, this`base, this`board, this`pushes
      ensures Valid() && base == |origin.log| - 1
      ensures |pushes| == |old(pushes)| + 1 && old(pushes) <= pushes && Fair(world, pushes[|old(pushes)|])
      ensures pushes[|old(pushes)|] == Push(old(base), |old(Upcoming())|, old(contacts) + 1, pushed)
      ensures !pushed ==> Continues(old(origin.log), origin.log, agent, [])
      ensures !pushed ==> |origin.log| > old(base) + 1 || world.refused(old(contacts) + 1)
      ensures pushed ==> |origin.log| == |old(origin.log)| + 1 && origin.log[..base] == old(origin.log)
      ensures pushed ==> origin.log[base].action == Claim(agent, selected.id, wave, difficulty, seen, lost, lock)
      ensures lock == Lock(agent, Some(world.claimedAt(looks)), "task/" + selected.id)
      ensures pushed ==> origin.log[base].board == old(board).(active := old(board).active[selected.id := lock])
      ensures pushed ==> !lost ==> Exclusive(origin.log, base)
    {
      hide FirstClaimable;
      lock := Lock(agent, Some(world.claimedAt(looks)), "task/" + selected.id);
      board := board.(active := board.active[selected.id := lock]);
      assert origin.log[..base + 1][seen] == origin.log[seen];
      pushed := CommitAndPush(Claim(agent, selected.id, wave, difficulty, seen, lost, lock));
      if pushed {
        ExclusiveIff(origin.tasks, origin.log, base, selected);
      }
    }

    /** What follows a pass that broke nothing: the claim of the first claimable task of the board loaded, or
        a report on that board. */
    method Decide(wave: nat, difficulty: Option<string>, seen: nat, loaded: Board, lost: bool, ghost scan: Scan)
      returns (outcome: Option<Outcome>, ghost ending: Ending)
      requires Valid() && seen == scan.seen <= base && loaded == origin.log[scan.seen].board && (!lost ==> scan.seen == base)
      requires Scanned(world, origin.log, pushes, scan) && scan.passed == |scan.order| && scan.start <= |pushes|
      modifies origin`log, this`contacts, this`base, this`board, this`pushes
      ensures Valid() && old(pushes) <= pushes && old(origin.log) <= origin.log
      ensures Scanned(world, origin.log, pushes, scan)
      ensures outcome.None? ==> Continues(old(origin.log), origin.log, agent, [])
      ensures outcome.None? ==> Ended(world, origin.tasks, wave, difficulty, origin.log, pushes, ending)
      ensures ending.LostClaim? && ending.scan == scan
      ensures outcome.None? ==>
        |pushes| == |old(pushes)| + 1 && pushes[|old(pushes)|] == Push(old(base), |old(Upcoming())|, old(contacts) + 1, false)
        && Fair(world, pushes[|old(pushes)|])
      ensures outcome.Some? ==> !outcome.value.Exhausted? && Reports(outcome.value, wave, difficulty, scan.seen)
      ensures outcome.Some? && outcome.value.Claimed? ==>
        Won(outcome.value, wave, difficulty, lost, scan.seen) && |old(origin.log)| == base && origin.log[..base] == old(origin.log)
      ensures outcome.Some? && !outcome.value.Claimed? ==> origin.log == old(origin.log) && base == old(base)
    {
      hide Classify;
      hide Exclusive;
      hide LawfulNext;
      hide StaleAt;
      hide Scanned;
      hide Fair;
      outcome := None;
      ending := LostClaim("", 0, scan);
      var c := Classify(origin.tasks, wave, difficulty, loaded);
      if c.claimable != [] {
        var selected := c.claimable[0];
        ClaimableHead(origin.tasks, wave, difficulty, loaded);
        ghost var log, earlier := origin.log, pushes;
        var pushed, lock := PushLock(selected, wave, difficulty, seen, lost);
        ScannedLonger(world, log, origin.log, earlier, pushes, scan);
        ending := LostClaim(selected.id, |pushes| - 1, scan);
        if pushed {
          outcome := Some(Claimed(selected, lock, c.claimableMissingDifficulty));
        } else {
          LostEnded(world, origin.tasks, wave, difficulty, log, origin.log, earlier, pushes, selected.id, scan);
        }
      } else if c.claimableMissingDifficulty != [] {
        outcome := Some(MissingDifficulty(c.claimableMissingDifficulty));
      } else {
        outcome := Some(NoClaimable(NoClaimablePayload(c)));
      }
    }

    /** The body of the loop: one attempt ends with an outcome, a broken lock or a refused claim. */
    method Attempt(wave: nat, difficulty: Option<string>, noSync: bool)
      returns (outcome: Option<Outcome>, broken: Option<TaskId>, lost: bool, seen: nat, ghost scan: Scan, ghost ending: Ending)
      requires Valid()
      modifies origin`log, this`contacts, this`looks, this`base, this`board, this`pushes
      ensures Valid() && old(pushes) <= pushes && old(origin.log) <= origin.log
      ensures seen == if noSync then old(base) else |old(Upcoming())| - 1
      ensures Scanned(world, origin.log, pushes, scan) && scan.seen == seen && scan.start == |old(pushes)|
      ensures scan.first == old(looks) && looks == old(looks) + scan.passed + if broken.Some? then 1 else 0
      ensures lost <==> scan.misses != []
      ensures outcome.None? ==> Continues(old(origin.log), origin.log, agent, if broken.Some? then [broken.value] else [])
      ensures outcome.None? ==> Ended(world, origin.tasks, wave, difficulty, origin.log, pushes, ending) && ending.scan == scan
      ensures ending.BrokeLock? == broken.Some? && (broken.Some? ==> outcome.None? && ending.task == broken.value)
      ensures broken.None? ==> scan.passed == |scan.order|
      ensures noSync && (lost || (outcome.None? && broken.None?)) ==>
        |pushes| > |old(pushes)| && pushes[|old(pushes)|] == Push(old(base), |old(Upcoming())|, old(contacts) + 1, false)
        && Fair(world, pushes[|old(pushes)|])
      ensures outcome.Some? ==> !outcome.value.Exhausted? && Reports(outcome.value, wave, difficulty, seen)
      ensures outcome.Some? && outcome.value.Claimed? ==> Won(outcome.value, wave, difficulty, lost, seen) && |old(origin.log)| <= base
      ensures outcome.Some? && outcome.value.Claimed? ==> Continues(old(origin.log), origin.log[..base], agent, [])
      ensures outcome.Some? && !outcome.value.Claimed? ==>
        Continues(old(origin.log), origin.log, agent, []) && (!lost ==> seen == base)
    {
      hide Classify;
      hide Exclusive;
      hide LawfulNext;
      hide StaleAt;
      hide Fair;
      hide Reports;
      hide Ended;
      if !noSync {
        ResetToOrigin();
      }
      seen := base;
      var loaded := board;
      var order := SortedKeys(loaded.active.Keys);
      broken, lost, scan := BreakFirstStale(order, seen);
      outcome := None;
      if broken.Some? {
        ending := BrokeLock(broken.value, scan);
        BrokeEnded(world, origin.tasks, wave, difficulty, origin.log, pushes, broken.value, scan);
        return;
      }
      hide Scanned;
      hide Continues;
      outcome, ending := Decide(wave, difficulty, seen, loaded, lost, scan);
    }

    /** The claim is the head of main, and the only one unless a break push was lost. */
    ghost predicate Won(outcome: Outcome, wave: nat, difficulty: Option<string>, lost: bool, seen: nat)
      requires outcome.Claimed?
      reads this, origin
    {
      && 0 < base == |origin.log| - 1
      && origin.log[base].action == Claim(agent, outcome.task.id, wave, difficulty, seen, lost, outcome.lock)
      && outcome.task in origin.tasks && outcome.lock == Lock(agent, Some(world.claimedAt(looks)), "task/" + outcome.task.id)
      && (!lost ==> Exclusive(origin.log, base))
    }

    /** `claim_next`. A returned claim is the last commit of origin; it is exclusive unless this
        attempt lost a break push. All that the call adds besides are breaks of locks it saw stale. It
        gives up exactly when every attempt has ended by breaking a lock or by losing the claim, and every
        stale lock an attempt passed over, the last one included, cost a push that was not accepted. */
    method ClaimNext(wave: nat, difficulty: Option<string>, noSync: bool, maxAttempts: nat)
      returns (
        outcome: Outcome, staleBroken: seq<TaskId>, lost: bool, seen: nat, ghost endings: seq<Ending>, ghost scan: Option<Scan>)
      requires Valid()
      modifies origin`log, this`contacts, this`looks, this`base, this`board, this`pushes
      ensures Valid()
      ensures old(origin.log) <= origin.log && old(pushes) <= pushes
      ensures outcome.Claimed? ==> |old(origin.log)| <= base && Won(outcome, wave, difficulty, lost, seen)
      ensures outcome.Claimed? ==> Continues(old(origin.log), origin.log[..base], agent, staleBroken)
      ensures !outcome.Claimed? ==> Continues(old(origin.log), origin.log, agent, staleBroken)
      ensures !outcome.Exhausted? ==> Reports(outcome, wave, difficulty, seen)
      ensures outcome.MissingDifficulty? || outcome.NoClaimable? ==> (!lost ==> seen == base)
      ensures staleBroken == BrokenIn(endings) && |endings| <= maxAttempts
      ensures outcome.Exhausted? <==> |endings| == maxAttempts
      ensures Accounted(world, origin.tasks, wave, difficulty, origin.log, pushes, |old(pushes)|, endings)
      ensures scan.None? <==> outcome.Exhausted?
      ensures scan.Some? ==> Scanned(world, origin.log, pushes, scan.value) && scan.value.passed == |scan.value.order|
      ensures scan.Some? ==> scan.value.seen == seen && (lost <==> scan.value.misses != [])
      ensures scan.Some? ==> forall e <- endings :: After(e, scan.value.start)
      ensures maxAttempts > 0 ==> FirstSeen(endings, scan) == if noSync then old(base) else |old(Upcoming())| - 1
      ensures maxAttempts > 0 ==> FirstLook(endings, scan) == old(looks)
    {
      hide Exclusive;
      hide Continues;
      hide LawfulNext;
      hide Lawful;
      hide BrokenIn;
      hide Fair;
      hide Accounted;
      hide Scanned;
      hide Ended;
      hide Reports;
      staleBroken, lost, seen, endings, scan := [], false, 0, [], None;
      AccountedNone(world, origin.tasks, wave, difficulty, origin.log, pushes, |pushes|);
      ghost var start := origin.log;
      ContinuesSame(start, agent);
      for attempt := 0 to maxAttempts
        invariant Valid() && start <= origin.log
        invariant Continues(start, origin.log, agent, staleBroken)
        invariant |endings| == attempt && staleBroken == BrokenIn(endings)
        invariant old(pushes) <= pushes
        invariant Accounted(world, origin.tasks, wave, difficulty, origin.log, pushes, |old(pushes)|, endings)
        invariant attempt == 0 ==> base == old(base) && looks == old(looks) && Upcoming() == old(Upcoming())
        invariant attempt > 0 ==>
          endings[0].scan.seen == (if noSync then old(base) else |old(Upcoming())| - 1) && endings[0].scan.first == old(looks)
      {
        ghost var log, earlier := origin.log, pushes;
        ghost var ending, pass;
        var result, broken;
        result, broken, lost, seen, pass, ending := Attempt(wave, difficulty, noSync);
        if result.Some? {
          AllAfter(world, origin.tasks, wave, difficulty, log, earlier, |old(pushes)|, endings);
          AccountedLonger(world, origin.tasks, wave, difficulty, log, origin.log, earlier, pushes, |old(pushes)|, endings);
          ContinuesFurther(start, log, if result.value.Claimed? then origin.log[..base] else origin.log, agent, staleBroken, []);
          assert staleBroken + [] == staleBroken;
          return result.value, staleBroken, lost, seen, endings, Some(pass);
        }
        BrokenNext(endings, ending);
        AccountedNext(world, origin.tasks, wave, difficulty, log, origin.log, earlier, pushes, |old(pushes)|, endings, ending);
        ContinuesFurther(start, log, origin.log, agent, staleBroken, if broken.Some? then [broken.value] else []);
        assert staleBroken + [] == staleBroken;
        endings := endings + [ending];
        if broken.Some? {
          staleBroken := staleBroken + [broken.value];
        }
      }
      outcome := Exhausted;
    }
  }

  // ── Alone ─────────────────────────────────────────────────────────────────

  /** Nobody else pushes and the network refuses nothing. */
  ghost predicate Quiet(world: World) {
    forall n :: world.others(n) == [] && !world.refused(n)
  }

  lemma QuietPush(world: World, p: Push)
    requires Quiet(world) && Fair(world, p) && p.head == p.stood + 1
    ensures p.accepted
  {
  }

  lemma QuietUpcoming(c: Clone)
    requires c.Valid() && Quiet(c.world)
    ensures c.Upcoming() == c.origin.log
    ensures forall n :: Landed(c.origin.tasks, c.origin.log, c.world.others(n), c.agent) == c.origin.log
  {
    forall n ensures Landed(c.origin.tasks, c.origin.log, c.world.others(n), c.agent) == c.origin.log {
      assert c.world.others(n) == [];
    }
  }

  lemma StaleInside(world: World, active: map<TaskId, Lock>, scan: Scan)
    ensures forall i: nat :: StaleAt(world, active, scan, i) ==> i < |scan.order|
  {
  }

  /** An agent alone at the head of main: its first stale lock is broken; without one the first claimable
      task is claimed, if there is one. */
  method AttemptAlone(c: Clone, wave: nat, difficulty: Option<string>) returns (outcome: Option<Outcome>, broken: Option<TaskId>, ghost scan: Scan)
    requires c.Valid() && Quiet(c.world) && c.base == |c.origin.log| - 1
    modifies c.origin`log, c`contacts, c`looks, c`base, c`board, c`pushes
    ensures var active := old(c.board).active;
      && SortedNames(scan.order) && (forall t :: t in scan.order <==> t in active) && scan.first == old(c.looks)
      && (forall i: nat :: i < scan.passed <= |scan.order| ==> !StaleAt(c.world, active, scan, i))
      && (broken.Some? <==> exists i: nat :: StaleAt(c.world, active, scan, i))
      && (broken.Some? ==> scan.passed < |scan.order| && broken.value == scan.order[scan.passed] && StaleAt(c.world, active, scan, scan.passed))
    ensures broken.None? ==> outcome.Some?
    ensures broken.None? && Classify(c.origin.tasks, wave, difficulty, old(c.board)).claimable != [] ==>
      outcome.value.Claimed? && outcome.value.task == Classify(c.origin.tasks, wave, difficulty, old(c.board)).claimable[0]
  {
    hide Classify;
    hide StaleAt;
    hide Ended;
    hide Continues;
    hide Fair;
    hide Quiet;
    QuietUpcoming(c);
    ghost var first := |c.pushes|;
    ghost var log := c.origin.log;
    var lost, seen;
    ghost var ending;
    outcome, broken, lost, seen, scan, ending := c.Attempt(wave, difficulty, true);
    if lost || (outcome.None? && broken.None?) {
      QuietPush(c.world, c.pushes[first]);
      assert false;
    }
    assert scan.stale == [];
    StaleInside(c.world, log[seen].board.active, scan);
    assert c.origin.log[seen] == log[seen];
    if broken.Some? {
      BrokenIsStale(c.world, c.origin.tasks, wave, difficulty, c.origin.log, c.pushes, ending);
    }
  }

  lemma BrokenIsStale(
    world: World, tasks: seq<Task>, wave: nat, difficulty: Option<string>, log: seq<Commit>, pushes: seq<Push>, e: Ending)
    requires Ended(world, tasks, wave, difficulty, log, pushes, e) && e.BrokeLock?
    ensures e.scan.seen < |log| && e.scan.passed < |e.scan.order| && e.task == e.scan.order[e.scan.passed]
    ensures StaleAt(world, log[e.scan.seen].board.active, e.scan, e.scan.passed)
  {
  }

  /** Alone, a release gives the task back. */
  method ReleaseAlone(c: Clone, task: TaskId) returns (released: bool)
    requires c.Valid() && Quiet(c.world)
    modifies c.origin`log, c`contacts, c`base, c`board, c`pushes
    ensures released && task !in c.board.active && c.base == |c.origin.log| - 1 && c.Valid()
    ensures var log := old(c.origin.log); var parent := log[|log| - 1].board;
      c.origin.log == if task in parent.active then log + [Commit(Release(c.agent, task), WithoutLock(parent, task))] else log
  {
    hide Fair;
    hide Quiet;
    QuietUpcoming(c);
    ghost var first := |c.pushes|;
    released := c.ReleaseLock(task);
    if !released {
      QuietPush(c.world, c.pushes[first]);
      assert false;
    }
  }

  /** The commit the first attempt loaded, and its first look at a lock. */
  function FirstSeen(endings: seq<Ending>, scan: Option<Scan>): nat {
    if endings != [] then endings[0].scan.seen else if scan.Some? then scan.value.seen else 0
  }

  function FirstLook(endings: seq<Ending>, scan: Option<Scan>): nat {
    if endings != [] then endings[0].scan.first else if scan.Some? then scan.value.first else 0
  }

  lemma AllAfter(
    world: World, tasks: seq<Task>, wave: nat, difficulty: Option<string>, log: seq<Commit>, pushes: seq<Push>,
    from: nat, endings: seq<Ending>)
    requires Accounted(world, tasks, wave, difficulty, log, pushes, from, endings)
    ensures forall e <- endings :: After(e, |pushes|)
  {
    forall e <- endings ensures After(e, |pushes|) {
      AfterPushes(world, tasks, wave, difficulty, log, pushes, e);
    }
    hide *;
  }
}

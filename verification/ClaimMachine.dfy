/** Any number of agents claiming tasks over one `origin/main`, as a state machine.

    An agent touches origin in two ways only: it resets its clone to the head, and it pushes one
    commit, which succeeds only if the head is still the commit its clone is based on. Everything
    between two such contacts is local, so each event below is one contact and the local work
    before it. A push that fails leaves origin alone and is followed by a reset. */
module ClaimMachine {
  import opened Text
  import opened TaskBoard
  import opened ClaimHistory

  datatype Request = Request(wave: nat, difficulty: Option<string>, noSync: bool, maxAttempts: nat)

  /** Where an agent stands. `seen` is the commit whose boards the attempt loaded, `todo` the locks
      still to examine, `left` the attempts still allowed, and `lost` says that a break push of
      this attempt lost its race. */
  datatype Phase =
    | Idle
    | Attempt(req: Request, left: nat)
    | Scan(req: Request, left: nat, seen: nat, todo: seq<TaskId>, lost: bool)
    | PushBreak(req: Request, left: nat, seen: nat, todo: seq<TaskId>, lost: bool, task: TaskId, evidence: Evidence)
    | PushClaim(req: Request, left: nat, seen: nat, lost: bool, task: TaskId, lock: Lock)
    | Working(task: TaskId)
    | PushRelease(task: TaskId)

  /** `base` is the commit of origin the clone's main branch stands on. */
  datatype Agent = Agent(base: nat, phase: Phase)

  datatype Fleet = Fleet(history: seq<Commit>, agents: map<AgentId, Agent>)

  datatype Event =
    | Start(req: Request, reset: bool)
    | BeginAttempt(order: seq<TaskId>)
    | Examine(evidence: Evidence)
    | Decide(lock: Lock)
    | Push(refused: bool)
    | FinishTask
    | BeginRelease
    | Checkpoint
    | Abandon

  predicate SortedNames(order: seq<TaskId>, active: map<TaskId, Lock>) {
    && (set t <- order) == active.Keys
    && forall i, j :: 0 <= i < j < |order| ==> LexLess(order[i], order[j])
  }

  /** The state after agent `a` takes `e`, if it can. */
  function Apply(tasks: seq<Task>, s: Fleet, a: AgentId, e: Event): Option<Fleet>
    requires s.history != [] && forall b <- s.agents :: s.agents[b].base < |s.history|
  {
    if a !in s.agents then None
    else
      var h, agent := s.history, s.agents[a];
      var head := |h| - 1;
      var board := h[head].board;
      match (e, agent.phase)
      case (Start(req, reset), Idle) =>
        Some(Move(s, a, if reset then head else agent.base, Attempt(req, req.maxAttempts)))
      case (BeginAttempt(order), Attempt(req, left)) =>
        var base := if req.noSync then agent.base else head;
        if left == 0 || !SortedNames(order, h[base].board.active) then None
        else Some(Move(s, a, base, Scan(req, left - 1, base, order, false)))
      case (Examine(ev), Scan(req, left, seen, todo, lost)) =>
        if todo == [] || seen > head || todo[0] !in h[seen].board.active then None
        else if !LockIsStale(h[seen].board.active[todo[0]], ev) then
          Some(Move(s, a, agent.base, Scan(req, left, seen, todo[1..], lost)))
        else if todo[0] !in h[agent.base].board.active then
          Some(Move(s, a, agent.base, Attempt(req, left)))
        else
          Some(Move(s, a, agent.base, PushBreak(req, left, seen, todo[1..], lost, todo[0], ev)))
      case (Push(refused), PushBreak(req, left, seen, todo, lost, task, ev)) =>
        if refused || agent.base != head then Some(Move(s, a, head, Scan(req, left, seen, todo, true)))
        else Some(Land(s, a, Commit(Break(a, task, seen, lost, ev), WithoutLock(board, task)), Attempt(req, left)))
      case (Decide(lock), Scan(req, left, seen, todo, lost)) =>
        if todo != [] || seen > head || lock.agentId != a then None
        else
          match FirstClaimable(tasks, req.wave, req.difficulty, h[seen].board) {
            case None => Some(Move(s, a, agent.base, Idle))
            case Some(task) => Some(Move(s, a, agent.base, PushClaim(req, left, seen, lost, task, lock)))
          }
      case (Push(refused), PushClaim(req, left, seen, lost, task, lock)) =>
        if refused || agent.base != head then Some(Move(s, a, head, Attempt(req, left)))
        else
          Some(Land(s, a,
            Commit(Claim(a, task, req.wave, req.difficulty, seen, lost, lock),
              board.(active := board.active[task := lock])),
            Working(task)))
      case (FinishTask, Working(task)) =>
        Some(Land(s, a, Commit(Finish(a, task), Board(board.active - {task}, board.completed + {task})), Idle))
      case (BeginRelease, Working(task)) =>
        Some(Move(s, a, head, if task in board.active then PushRelease(task) else Idle))
      case (Push(refused), PushRelease(task)) =>
        if refused || agent.base != head then Some(Move(s, a, head, Idle))
        else Some(Land(s, a, Commit(Release(a, task), WithoutLock(board, task)), Idle))
      case (Checkpoint, _) =>
        Some(s.(history := h + [Commit(Other, board)]))
      case (Abandon, _) =>
        Some(Move(s, a, agent.base, Idle))
      case _ => None
  }

  function Move(s: Fleet, a: AgentId, base: nat, phase: Phase): Fleet {
    s.(agents := s.agents[a := Agent(base, phase)])
  }

  function Land(s: Fleet, a: AgentId, c: Commit, phase: Phase): Fleet {
    Fleet(s.history + [c], s.agents[a := Agent(|s.history|, phase)])
  }

  // ── The invariant of every run ────────────────────────────────────────────

  predicate Fresh(h: seq<Commit>, base: nat, seen: nat, lost: bool) {
    seen <= base < |h| && (!lost ==> seen == base)
  }

  predicate AgentOk(tasks: seq<Task>, h: seq<Commit>, a: AgentId, agent: Agent) {
    agent.base < |h| &&
    match agent.phase
    case Scan(req, left, seen, todo, lost) =>
      Fresh(h, agent.base, seen, lost)
    case PushBreak(req, left, seen, todo, lost, task, ev) =>
      && Fresh(h, agent.base, seen, lost)
      && task in h[seen].board.active && LockIsStale(h[seen].board.active[task], ev)
      && task in h[agent.base].board.active
    case PushClaim(req, left, seen, lost, task, lock) =>
      && Fresh(h, agent.base, seen, lost)
      && FirstClaimable(tasks, req.wave, req.difficulty, h[seen].board) == Some(task)
    case Working(task) => ClaimedBy(h, a, task)
    case PushRelease(task) => ClaimedBy(h, a, task) && task in h[agent.base].board.active
    case _ => true
  }

  predicate Inv(tasks: seq<Task>, s: Fleet) {
    && Lawful(tasks, s.history)
    && forall a <- s.agents :: AgentOk(tasks, s.history, a, s.agents[a])
  }

  lemma AgentOkExtend(tasks: seq<Task>, h: seq<Commit>, c: Commit, a: AgentId, agent: Agent)
    requires AgentOk(tasks, h, a, agent)
    ensures AgentOk(tasks, h + [c], a, agent)
  {
    if agent.phase.Working? || agent.phase.PushRelease? {
      var i :| 0 < i < |h| && ClaimOf(h[i], agent.phase.task) && h[i].action.agent == a;
      assert (h + [c])[i] == h[i];
    }
  }

  lemma MoveInv(tasks: seq<Task>, s: Fleet, a: AgentId, base: nat, phase: Phase)
    requires Inv(tasks, s) && AgentOk(tasks, s.history, a, Agent(base, phase))
    ensures Inv(tasks, Move(s, a, base, phase))
  {
  }

  lemma LandInv(tasks: seq<Task>, s: Fleet, a: AgentId, c: Commit, phase: Phase)
    requires Inv(tasks, s) && LawfulNext(tasks, s.history, c)
    requires AgentOk(tasks, s.history + [c], a, Agent(|s.history|, phase))
    ensures Inv(tasks, Land(s, a, c, phase))
  {
    LawfulExtend(tasks, s.history, c);
    forall b <- s.agents ensures AgentOk(tasks, s.history + [c], b, s.agents[b]) {
      AgentOkExtend(tasks, s.history, c, b, s.agents[b]);
    }
  }

  lemma PushBreakInv(tasks: seq<Task>, s: Fleet, a: AgentId, refused: bool)
    requires Inv(tasks, s) && a in s.agents && s.agents[a].phase.PushBreak?
    ensures Apply(tasks, s, a, Push(refused)).Some? && Inv(tasks, Apply(tasks, s, a, Push(refused)).value)
  {
    var h, p := s.history, s.agents[a].phase;
    assert AgentOk(tasks, h, a, s.agents[a]);
    if refused || s.agents[a].base != |h| - 1 {
      MoveInv(tasks, s, a, |h| - 1, Scan(p.req, p.left, p.seen, p.todo, true));
    } else {
      var c := Commit(Break(a, p.task, p.seen, p.lost, p.evidence), WithoutLock(h[|h| - 1].board, p.task));
      LandInv(tasks, s, a, c, Attempt(p.req, p.left));
    }
  }

  lemma PushClaimInv(tasks: seq<Task>, s: Fleet, a: AgentId, refused: bool)
    requires Inv(tasks, s) && a in s.agents && s.agents[a].phase.PushClaim?
    ensures Apply(tasks, s, a, Push(refused)).Some? && Inv(tasks, Apply(tasks, s, a, Push(refused)).value)
  {
    hide FirstClaimable;
    var h, p := s.history, s.agents[a].phase;
    assert AgentOk(tasks, h, a, s.agents[a]);
    if refused || s.agents[a].base != |h| - 1 {
      MoveInv(tasks, s, a, |h| - 1, Attempt(p.req, p.left));
    } else {
      var board := h[|h| - 1].board;
      var c := Commit(Claim(a, p.task, p.req.wave, p.req.difficulty, p.seen, p.lost, p.lock),
                      board.(active := board.active[p.task := p.lock]));
      assert ClaimOf((h + [c])[|h|], p.task);
      LandInv(tasks, s, a, c, Working(p.task));
    }
  }

  lemma PushReleaseInv(tasks: seq<Task>, s: Fleet, a: AgentId, refused: bool)
    requires Inv(tasks, s) && a in s.agents && s.agents[a].phase.PushRelease?
    ensures Apply(tasks, s, a, Push(refused)).Some? && Inv(tasks, Apply(tasks, s, a, Push(refused)).value)
  {
    var h, p := s.history, s.agents[a].phase;
    assert AgentOk(tasks, h, a, s.agents[a]);
    if refused || s.agents[a].base != |h| - 1 {
      MoveInv(tasks, s, a, |h| - 1, Idle);
    } else {
      LandInv(tasks, s, a, Commit(Release(a, p.task), WithoutLock(h[|h| - 1].board, p.task)), Idle);
    }
  }

  lemma CheckpointInv(tasks: seq<Task>, s: Fleet)
    requires Inv(tasks, s)
    ensures Inv(tasks, s.(history := s.history + [Commit(Other, s.history[|s.history| - 1].board)]))
  {
    var h := s.history;
    var c := Commit(Other, h[|h| - 1].board);
    LawfulExtend(tasks, h, c);
    forall b <- s.agents ensures AgentOk(tasks, h + [c], b, s.agents[b]) {
      AgentOkExtend(tasks, h, c, b, s.agents[b]);
    }
  }

  lemma LocalInv(tasks: seq<Task>, s: Fleet, a: AgentId, e: Event)
    requires Inv(tasks, s) && Apply(tasks, s, a, e).Some?
    requires !e.Push? && !e.FinishTask? && !e.Checkpoint?
    ensures Inv(tasks, Apply(tasks, s, a, e).value)
  {
    var s' := Apply(tasks, s, a, e).value;
    assert AgentOk(tasks, s.history, a, s.agents[a]);
    MoveInv(tasks, s, a, s'.agents[a].base, s'.agents[a].phase);
  }

  /** Every event of every agent keeps the history lawful. */
  lemma ApplyInv(tasks: seq<Task>, s: Fleet, a: AgentId, e: Event)
    requires Inv(tasks, s) && Apply(tasks, s, a, e).Some?
    ensures Inv(tasks, Apply(tasks, s, a, e).value)
  {
    var h, phase := s.history, s.agents[a].phase;
    match e {
      case Push(refused) =>
        if phase.PushBreak? {
          PushBreakInv(tasks, s, a, refused);
        } else if phase.PushClaim? {
          PushClaimInv(tasks, s, a, refused);
        } else {
          PushReleaseInv(tasks, s, a, refused);
        }
      case FinishTask =>
        var b := h[|h| - 1].board;
        assert AgentOk(tasks, h, a, s.agents[a]);
        LandInv(tasks, s, a, Commit(Finish(a, phase.task), Board(b.active - {phase.task}, b.completed + {phase.task})), Idle);
      case Checkpoint =>
        CheckpointInv(tasks, s);
      case _ =>
        LocalInv(tasks, s, a, e);
    }
  }

  predicate Initial(s: Fleet) {
    && |s.history| == 1
    && forall a <- s.agents :: s.agents[a] == Agent(0, Idle)
  }

  /** The state a whole schedule leads to, if each of its events is possible in turn. */
  ghost function Run(tasks: seq<Task>, s: Fleet, schedule: seq<(AgentId, Event)>): Option<Fleet>
    requires Inv(tasks, s)
    decreases |schedule|
  {
    if schedule == [] then Some(s)
    else
      match Apply(tasks, s, schedule[0].0, schedule[0].1)
      case None => None
      case Some(s') =>
        ApplyInv(tasks, s, schedule[0].0, schedule[0].1);
        Run(tasks, s', schedule[1..])
  }

  lemma InitialInv(tasks: seq<Task>, s: Fleet)
    requires Initial(s)
    ensures Inv(tasks, s)
  {
  }

  lemma {:induction false} RunInv(tasks: seq<Task>, s: Fleet, schedule: seq<(AgentId, Event)>)
    requires Inv(tasks, s) && Run(tasks, s, schedule).Some?
    ensures Inv(tasks, Run(tasks, s, schedule).value)
    decreases |schedule|
  {
    if schedule != [] {
      ApplyInv(tasks, s, schedule[0].0, schedule[0].1);
      RunInv(tasks, Apply(tasks, s, schedule[0].0, schedule[0].1).value, schedule[1..]);
    }
  }

  // ── What every run keeps ──────────────────────────────────────────────────

  ghost predicate Reachable(tasks: seq<Task>, s0: Fleet, s: Fleet)
    requires Initial(s0)
  {
    exists schedule :: Run(tasks, s0, schedule) == Some(s)
  }

  /** Safety over whole runs, for any number of agents and any interleaving. Dependencies are
      respected in every commit, whatever the attempts went through; a claim is exclusive whenever
      its attempt lost no break push, and exactly when its task is still ready where it lands. */
  lemma FleetSafety(tasks: seq<Task>, s0: Fleet, s: Fleet)
    requires Initial(s0) && DistinctIds(tasks) && Reachable(tasks, s0, s)
    ensures Lawful(tasks, s.history)
    ensures DepsHold(tasks, s.history[0].board) ==> forall k :: 0 <= k < |s.history| ==> DepsHold(tasks, s.history[k].board)
    ensures forall j :: 0 < j < |s.history| && s.history[j].action.Claim? && !s.history[j].action.lost ==> Exclusive(s.history, j)
    ensures forall j, t :: 0 < j < |s.history| && t in tasks && ClaimOf(s.history[j], t.id) ==>
      (Exclusive(s.history, j) <==> Ready(t, s.history[j - 1].board))
  {
    var schedule :| Run(tasks, s0, schedule) == Some(s);
    RunInv(tasks, s0, schedule);
    var h := s.history;
    if DepsHold(tasks, h[0].board) {
      forall k | 0 <= k < |h| ensures DepsHold(tasks, h[k].board) {
        DependencySafety(tasks, h, k);
      }
    }
    forall j | 0 < j < |h| && h[j].action.Claim? && !h[j].action.lost ensures Exclusive(h, j) {
      var t := ClaimDecision(tasks, h, j);
      ExclusiveIff(tasks, h, j, t);
    }
    forall j, t | 0 < j < |h| && t in tasks && ClaimOf(h[j], t.id)
      ensures Exclusive(h, j) <==> Ready(t, h[j - 1].board)
    {
      ExclusiveIff(tasks, h, j, t);
    }
  }

  /** Commits `i` and `j` are claims of `t` by `a` and `b`, in some order, the second of them after
      a removal of the lock or in an attempt that lost a break push. */
  predicate RivalClaims(h: seq<Commit>, i: nat, j: nat, t: TaskId, a: AgentId, b: AgentId) {
    && 0 < i < j < |h| && ClaimOf(h[i], t) && ClaimOf(h[j], t)
    && {h[i].action.agent, h[j].action.agent} == {a, b}
    && (h[j].action.lost || RemovedBetween(h, i, j, t))
  }

  /** Two agents work on one task at once only if one of their claims came after the lock of the
      other was removed, or after a lost break push. */
  lemma TwoWorkers(tasks: seq<Task>, s0: Fleet, s: Fleet, a: AgentId, b: AgentId, t: TaskId)
    requires Initial(s0) && DistinctIds(tasks) && Reachable(tasks, s0, s)
    requires a != b && a in s.agents && b in s.agents
    requires s.agents[a].phase == Working(t) && s.agents[b].phase == Working(t)
    ensures exists i, j :: RivalClaims(s.history, i, j, t, a, b)
  {
    var schedule :| Run(tasks, s0, schedule) == Some(s);
    RunInv(tasks, s0, schedule);
    var h := s.history;
    assert AgentOk(tasks, h, a, s.agents[a]) && AgentOk(tasks, h, b, s.agents[b]);
    var i :| 0 < i < |h| && ClaimOf(h[i], t) && h[i].action.agent == a;
    var j :| 0 < j < |h| && ClaimOf(h[j], t) && h[j].action.agent == b;
    var first, second := if i < j then i else j, if i < j then j else i;
    if !h[second].action.lost {
      ClaimsAreSeparated(tasks, h, first, second, t);
    }
    assert RivalClaims(h, first, second, t, a, b);
  }

  // ── The stale snapshot after a lost break push ────────────────────────────

  lemma {:induction false} RunAppend(tasks: seq<Task>, s: Fleet, schedule: seq<(AgentId, Event)>, a: AgentId, e: Event)
    requires Inv(tasks, s) && Run(tasks, s, schedule).Some?
    ensures Inv(tasks, Run(tasks, s, schedule).value)
    ensures Run(tasks, s, schedule + [(a, e)]) == Apply(tasks, Run(tasks, s, schedule).value, a, e)
    decreases |schedule|
  {
    RunInv(tasks, s, schedule);
    var longer := schedule + [(a, e)];
    if schedule == [] {
      if Apply(tasks, s, a, e).Some? {
        ApplyInv(tasks, s, a, e);
      }
      assert longer[1..] == [];
    } else {
      ApplyInv(tasks, s, schedule[0].0, schedule[0].1);
      assert longer[1..] == schedule[1..] + [(a, e)];
      RunAppend(tasks, Apply(tasks, s, schedule[0].0, schedule[0].1).value, schedule[1..], a, e);
    }
  }

  lemma ReachStep(tasks: seq<Task>, s0: Fleet, s: Fleet, a: AgentId, e: Event) returns (s': Fleet)
    requires Initial(s0) && Reachable(tasks, s0, s)
    requires s.history != [] && forall b <- s.agents :: s.agents[b].base < |s.history|
    requires Apply(tasks, s, a, e).Some?
    ensures s' == Apply(tasks, s, a, e).value && Reachable(tasks, s0, s')
    ensures Inv(tasks, s')
  {
    hide Apply;
    InitialInv(tasks, s0);
    hide Inv;
    s' := Apply(tasks, s, a, e).value;
    var schedule :| Run(tasks, s0, schedule) == Some(s);
    RunAppend(tasks, s0, schedule, a, e);
    ApplyInv(tasks, s, a, e);
  }

  const JOB := Task("TASK-101", 101, 1, "job", ["EASY"], [])
  const OLD := Task("TASK-102", 102, 1, "abandoned", ["EASY"], [])
  const RACE_TASKS := [JOB, OLD]
  const OLD_LOCK := Lock("gone", Some(0), "task/TASK-102")
  const LATE := Evidence(LOCK_TIMEOUT + 1, None, None)
  const RACE_START := Fleet([Commit(Other, Board(map[OLD.id := OLD_LOCK], {}))],
                            map["x" := Agent(0, Idle), "y" := Agent(0, Idle)])

  lemma JobIsFirst(board: Board)
    requires JOB.id !in board.active && JOB.id !in board.completed
    ensures FirstClaimable(RACE_TASKS, 1, None, board) == Some(JOB.id)
  {
    var claimable := Classify(RACE_TASKS, 1, None, board).claimable;
    assert JOB in RACE_TASKS && Pooled(JOB, 1, None) && Ready(JOB, board);
    assert JOB in claimable;
    ClaimableHead(RACE_TASKS, 1, None, board);
    assert KeyLeq(claimable[0], JOB);
  }

  /** Exclusion does fail without that condition. Agent `x` loads the board and starts to break an
      abandoned lock; `y` breaks it first and claims a job; `x` loses its push, resets, and goes on
      to claim the same job from the board it loaded before. Both have been told it is theirs. */
  lemma StaleSnapshotBreaksExclusion()
    ensures exists s: Fleet ::
      && Reachable(RACE_TASKS, RACE_START, s)
      && s.agents == map["x" := Agent(3, Working(JOB.id)), "y" := Agent(2, Working(JOB.id))]
      && |s.history| == 4 && ClaimOf(s.history[2], JOB.id) && ClaimOf(s.history[3], JOB.id)
      && s.history[2].action.agent == "y" && s.history[3].action.agent == "x"
      && !RemovedBetween(s.history, 2, 3, JOB.id)
  {
    var req := Request(1, None, true, 5);
    var s := RACE_START;
    assert Run(RACE_TASKS, s, []) == Some(s);
    s := RaceLoad(s, req, "x");
    s := RaceExamine(s, req, "x");
    s := RaceLoad(s, req, "y");
    s := RaceExamine(s, req, "y");
    s := RaceBreak(s, req);
    s := RaceClaim(s, req);
    s := RaceEnd(s, req);
  }

  const EMPTY_BOARD := Board(map[], {})
  const X_LOCK := Lock("x", Some(10000), "task/TASK-101")
  const Y_LOCK := Lock("y", Some(10000), "task/TASK-101")
  const ROOT := Commit(Other, Board(map[OLD.id := OLD_LOCK], {}))
  const Y_BREAK := Commit(Break("y", OLD.id, 0, false, LATE), EMPTY_BOARD)
  const Y_CLAIM := Commit(Claim("y", JOB.id, 1, None, 1, false, Y_LOCK), Board(map[JOB.id := Y_LOCK], {}))
  const X_CLAIM := Commit(Claim("x", JOB.id, 1, None, 0, true, X_LOCK), Board(map[JOB.id := X_LOCK], {}))

  /** An agent loads the board. */
  lemma RaceLoad(s: Fleet, req: Request, a: AgentId) returns (r: Fleet)
    requires req == Request(1, None, true, 5) && Reachable(RACE_TASKS, RACE_START, s)
    requires s.history == [ROOT] && a in s.agents && s.agents[a] == Agent(0, Idle)
    requires forall b <- s.agents :: s.agents[b].base == 0
    ensures Reachable(RACE_TASKS, RACE_START, r)
    ensures r == Move(s, a, 0, Scan(req, 4, 0, [OLD.id], false))
  {
    hide FirstClaimable;
    hide Lawful;
    assert SortedNames([OLD.id], ROOT.board.active);
    r := ReachStep(RACE_TASKS, RACE_START, s, a, Start(req, true));
    assert r == Move(s, a, 0, Attempt(req, 5));
    r := ReachStep(RACE_TASKS, RACE_START, r, a, BeginAttempt([OLD.id]));
  }

  /** An agent finds the abandoned lock stale. */
  lemma RaceExamine(s: Fleet, req: Request, a: AgentId) returns (r: Fleet)
    requires Reachable(RACE_TASKS, RACE_START, s)
    requires s.history == [ROOT] && a in s.agents && s.agents[a] == Agent(0, Scan(req, 4, 0, [OLD.id], false))
    requires forall b <- s.agents :: s.agents[b].base == 0
    ensures Reachable(RACE_TASKS, RACE_START, r)
    ensures r == Move(s, a, 0, PushBreak(req, 4, 0, [], false, OLD.id, LATE))
  {
    hide FirstClaimable;
    hide Lawful;
    assert [OLD.id][1..] == [];
    r := ReachStep(RACE_TASKS, RACE_START, s, a, Examine(LATE));
  }

  /** `y` breaks the lock. */
  lemma RaceBreak(s: Fleet, req: Request) returns (r: Fleet)
    requires req == Request(1, None, true, 5) && Reachable(RACE_TASKS, RACE_START, s)
    requires var p := PushBreak(req, 4, 0, [], false, OLD.id, LATE);
      s == Fleet([ROOT], map["x" := Agent(0, p), "y" := Agent(0, p)])
    ensures Reachable(RACE_TASKS, RACE_START, r)
    ensures r == Fleet([ROOT, Y_BREAK],
      map["x" := Agent(0, PushBreak(req, 4, 0, [], false, OLD.id, LATE)), "y" := Agent(1, Attempt(req, 4))])
  {
    assert WithoutLock(ROOT.board, OLD.id) == EMPTY_BOARD;
    r := ReachStep(RACE_TASKS, RACE_START, s, "y", Push(false));
    assert r.history == [ROOT, Y_BREAK];
  }

  /** `y` claims the job. */
  lemma RaceClaim(s: Fleet, req: Request) returns (r: Fleet)
    requires req == Request(1, None, true, 5) && Reachable(RACE_TASKS, RACE_START, s)
    requires s == Fleet([ROOT, Y_BREAK],
      map["x" := Agent(0, PushBreak(req, 4, 0, [], false, OLD.id, LATE)), "y" := Agent(1, Attempt(req, 4))])
    ensures Reachable(RACE_TASKS, RACE_START, r)
    ensures r == Fleet([ROOT, Y_BREAK, Y_CLAIM],
      map["x" := Agent(0, PushBreak(req, 4, 0, [], false, OLD.id, LATE)), "y" := Agent(2, Working(JOB.id))])
  {
    hide FirstClaimable;
    hide Lawful;
    r := RaceDecide(s, req);
    assert EMPTY_BOARD.active[JOB.id := Y_LOCK] == Y_CLAIM.board.active;
    r := ReachStep(RACE_TASKS, RACE_START, r, "y", Push(false));
    assert r.history == [ROOT, Y_BREAK, Y_CLAIM];
  }

  lemma RaceDecide(s: Fleet, req: Request) returns (r: Fleet)
    requires req == Request(1, None, true, 5) && Reachable(RACE_TASKS, RACE_START, s)
    requires s == Fleet([ROOT, Y_BREAK],
      map["x" := Agent(0, PushBreak(req, 4, 0, [], false, OLD.id, LATE)), "y" := Agent(1, Attempt(req, 4))])
    ensures Reachable(RACE_TASKS, RACE_START, r)
    ensures r == Move(s, "y", 1, PushClaim(req, 3, 1, false, JOB.id, Y_LOCK))
  {
    hide FirstClaimable;
    hide Lawful;
    JobIsFirst(EMPTY_BOARD);
    assert SortedNames([], EMPTY_BOARD.active);
    r := ReachStep(RACE_TASKS, RACE_START, s, "y", BeginAttempt([]));
    assert r == Move(s, "y", 1, Scan(req, 3, 1, [], false));
    r := ReachStep(RACE_TASKS, RACE_START, r, "y", Decide(Y_LOCK));
  }

  /** `x` loses its break push and claims the job from its old board. */
  lemma RaceEnd(s: Fleet, req: Request) returns (r: Fleet)
    requires req == Request(1, None, true, 5) && Reachable(RACE_TASKS, RACE_START, s)
    requires s == Fleet([ROOT, Y_BREAK, Y_CLAIM],
      map["x" := Agent(0, PushBreak(req, 4, 0, [], false, OLD.id, LATE)), "y" := Agent(2, Working(JOB.id))])
    ensures Reachable(RACE_TASKS, RACE_START, r)
    ensures r == Fleet([ROOT, Y_BREAK, Y_CLAIM, X_CLAIM],
      map["x" := Agent(3, Working(JOB.id)), "y" := Agent(2, Working(JOB.id))])
  {
    hide FirstClaimable;
    hide Lawful;
    JobIsFirst(ROOT.board);
    r := ReachStep(RACE_TASKS, RACE_START, s, "x", Push(false));
    assert r == Move(s, "x", 2, Scan(req, 4, 0, [], true));
    r := ReachStep(RACE_TASKS, RACE_START, r, "x", Decide(X_LOCK));
    r := RaceOverwrite(r, req);
  }

  /** The claim of `x` lands on top of the claim of `y`. */
  lemma RaceOverwrite(s: Fleet, req: Request) returns (r: Fleet)
    requires Reachable(RACE_TASKS, RACE_START, s) && req == Request(1, None, true, 5)
    requires s == Fleet([ROOT, Y_BREAK, Y_CLAIM],
      map["x" := Agent(2, PushClaim(req, 4, 0, true, JOB.id, X_LOCK)), "y" := Agent(2, Working(JOB.id))])
    ensures Reachable(RACE_TASKS, RACE_START, r)
    ensures r == Fleet([ROOT, Y_BREAK, Y_CLAIM, X_CLAIM],
      map["x" := Agent(3, Working(JOB.id)), "y" := Agent(2, Working(JOB.id))])
  {
    hide FirstClaimable;
    hide Lawful;
    assert Y_CLAIM.board.active[JOB.id := X_LOCK] == X_CLAIM.board.active;
    r := ReachStep(RACE_TASKS, RACE_START, s, "x", Push(false));
    assert r.history == [ROOT, Y_BREAK, Y_CLAIM, X_CLAIM];
  }
}

/** What an agent gets done while nobody else touches origin and no push is refused. */
module ClaimProgress {
  import opened Text
  import opened TaskBoard
  import opened ClaimHistory
  import opened ClaimMachine

  /** All base commits are commits of origin. */
  predicate Based(s: Fleet) {
    s.history != [] && forall b <- s.agents :: s.agents[b].base < |s.history|
  }

  lemma InvBased(tasks: seq<Task>, s: Fleet)
    requires Inv(tasks, s)
    ensures Based(s)
  {
    forall b <- s.agents ensures s.agents[b].base < |s.history| {
      assert AgentOk(tasks, s.history, b, s.agents[b]);
    }
  }

  /** The board at the head of main. */
  function Head(s: Fleet): Board
    requires s.history != []
  {
    s.history[|s.history| - 1].board
  }

  /** Agent `a` can bring the fleet from `s` to `r` by events of its own. */
  ghost predicate Alone(tasks: seq<Task>, s: Fleet, a: AgentId, r: Fleet)
    requires Inv(tasks, s)
  {
    exists schedule: seq<(AgentId, Event)> :: (forall x <- schedule :: x.0 == a) && Run(tasks, s, schedule) == Some(r)
  }

  lemma AloneNothing(tasks: seq<Task>, s: Fleet, a: AgentId)
    requires Inv(tasks, s)
    ensures Alone(tasks, s, a, s)
  {
    assert Run(tasks, s, []) == Some(s);
  }

  /** One more event of the agent. */
  lemma Extend(tasks: seq<Task>, s0: Fleet, s: Fleet, a: AgentId, e: Event) returns (r: Fleet)
    requires Inv(tasks, s0) && Alone(tasks, s0, a, s)
    requires Based(s) && Apply(tasks, s, a, e).Some?
    ensures r == Apply(tasks, s, a, e).value && Alone(tasks, s0, a, r) && Based(r)
  {
    hide Apply;
    hide Run;
    hide Inv;
    var schedule: seq<(AgentId, Event)> :| (forall x <- schedule :: x.0 == a) && Run(tasks, s0, schedule) == Some(s);
    RunAppend(tasks, s0, schedule, a, e);
    RunInv(tasks, s0, schedule + [(a, e)]);
    r := Apply(tasks, s, a, e).value;
    assert forall x <- schedule + [(a, e)] :: x.0 == a;
    InvBased(tasks, r);
  }

  /** None of the first locks, in the order they are looked at, is stale. */
  predicate AllLive(order: seq<TaskId>, active: map<TaskId, Lock>, found: seq<Evidence>) {
    && |found| <= |order|
    && forall i :: 0 <= i < |found| ==> order[i] in active && !LockIsStale(active[order[i]], found[i])
  }

  lemma {:induction false} Examined(tasks: seq<Task>, s0: Fleet, s: Fleet, a: AgentId, found: seq<Evidence>)
    returns (r: Fleet)
    requires Inv(tasks, s0) && Alone(tasks, s0, a, s) && Based(s)
    requires a in s.agents && s.agents[a].phase.Scan? && s.agents[a].phase.seen < |s.history|
    requires AllLive(s.agents[a].phase.todo, s.history[s.agents[a].phase.seen].board.active, found)
    ensures var p := s.agents[a].phase;
      r == Move(s, a, s.agents[a].base, Scan(p.req, p.left, p.seen, p.todo[|found|..], p.lost))
    ensures Alone(tasks, s0, a, r)
    decreases |found|
  {
    hide Alone;
    hide Inv;
    hide LockIsStale;
    if found == [] {
      r := s;
      assert s.agents[a := s.agents[a]] == s.agents;
    } else {
      var before := found[..|found| - 1];
      var k := |before|;
      r := Examined(tasks, s0, s, a, before);
      var todo := s.agents[a].phase.todo;
      assert todo[k..][0] == todo[k] && todo[k..][1..] == todo[k + 1..];
      var moved := r;
      r := Extend(tasks, s0, r, a, Examine(found[k]));
      assert r == Move(moved, a, s.agents[a].base, r.agents[a].phase);
    }
  }

  /** Starts an attempt on the head of main and looks at the first locks, which are all live. */
  lemma Looked(tasks: seq<Task>, s: Fleet, a: AgentId, req: Request, order: seq<TaskId>, found: seq<Evidence>)
    returns (r: Fleet)
    requires Inv(tasks, s) && a in s.agents && s.agents[a].phase == Idle && req.maxAttempts > 0
    requires s.history != [] && SortedNames(order, Head(s).active)
    requires AllLive(order, Head(s).active, found)
    ensures var head := |s.history| - 1;
      r == Move(s, a, head, Scan(req, req.maxAttempts - 1, head, order[|found|..], false))
    ensures Alone(tasks, s, a, r) && Based(r) && Based(s)
  {
    InvBased(tasks, s);
    AloneNothing(tasks, s, a);
    hide Alone;
    hide Inv;
    hide SortedNames;
    var head := |s.history| - 1;
    r := Extend(tasks, s, s, a, Start(req, true));
    r := Extend(tasks, s, r, a, BeginAttempt(order));
    assert r == Move(s, a, head, Scan(req, req.maxAttempts - 1, head, order, false));
    r := Examined(tasks, s, r, a, found);
    assert r == Move(s, a, head, Scan(req, req.maxAttempts - 1, head, order[|found|..], false));
  }

  /** With no stale lock on the head of main, an idle agent claims the first claimable task: its lock is
      added to the board and nothing else changes. */
  lemma ClaimsAlone(
    tasks: seq<Task>, s: Fleet, a: AgentId, req: Request, order: seq<TaskId>, found: seq<Evidence>, task: TaskId, lock: Lock)
    requires Inv(tasks, s) && a in s.agents && s.agents[a].phase == Idle && req.maxAttempts > 0 && lock.agentId == a
    requires s.history != [] && SortedNames(order, Head(s).active)
    requires |found| == |order| && AllLive(order, Head(s).active, found)
    requires FirstClaimable(tasks, req.wave, req.difficulty, Head(s)) == Some(task)
    ensures Alone(tasks, s, a, Fleet(
      s.history + [Commit(Claim(a, task, req.wave, req.difficulty, |s.history| - 1, false, lock),
                          Board(Head(s).active[task := lock], Head(s).completed))],
      s.agents[a := Agent(|s.history|, Working(task))]))
  {
    hide *;
    var r := Looked(tasks, s, a, req, order, found);
    assert order[|order|..] == [];
    ClaimsFrom(tasks, s, r, a, req, task, lock);
  }

  lemma ClaimsFrom(tasks: seq<Task>, s: Fleet, r0: Fleet, a: AgentId, req: Request, task: TaskId, lock: Lock)
    requires Inv(tasks, s) && a in s.agents && lock.agentId == a && req.maxAttempts > 0
    requires Based(s) && Based(r0) && Alone(tasks, s, a, r0)
    requires r0 == Move(s, a, |s.history| - 1, Scan(req, req.maxAttempts - 1, |s.history| - 1, [], false))
    requires FirstClaimable(tasks, req.wave, req.difficulty, Head(s)) == Some(task)
    ensures Alone(tasks, s, a, Fleet(
      s.history + [Commit(Claim(a, task, req.wave, req.difficulty, |s.history| - 1, false, lock),
                          Board(Head(s).active[task := lock], Head(s).completed))],
      s.agents[a := Agent(|s.history|, Working(task))]))
  {
    hide *;
    var left := req.maxAttempts - 1;
    DecideStep(tasks, s, r0, a, req, left, task, lock);
    var r := Extend(tasks, s, r0, a, Decide(lock));
    PushClaimStep(tasks, s, r, a, req, left, task, lock);
    r := Extend(tasks, s, r, a, Push(false));
  }

  lemma DecideStep(tasks: seq<Task>, s: Fleet, r: Fleet, a: AgentId, req: Request, left: nat, task: TaskId, lock: Lock)
    requires Based(s) && Based(r) && a in s.agents && lock.agentId == a
    requires r == Move(s, a, |s.history| - 1, Scan(req, left, |s.history| - 1, [], false))
    requires FirstClaimable(tasks, req.wave, req.difficulty, Head(s)) == Some(task)
    ensures Apply(tasks, r, a, Decide(lock)) ==
      Some(Move(s, a, |s.history| - 1, PushClaim(req, left, |s.history| - 1, false, task, lock)))
  {
    hide FirstClaimable;
    var agent := Agent(|s.history| - 1, PushClaim(req, left, |s.history| - 1, false, task, lock));
    assert r.agents[a := agent] == s.agents[a := agent];
  }

  lemma PushClaimStep(tasks: seq<Task>, s: Fleet, r: Fleet, a: AgentId, req: Request, left: nat, task: TaskId, lock: Lock)
    requires Based(s) && Based(r) && a in s.agents
    requires r == Move(s, a, |s.history| - 1, PushClaim(req, left, |s.history| - 1, false, task, lock))
    ensures Apply(tasks, r, a, Push(false)) == Some(Fleet(
      s.history + [Commit(Claim(a, task, req.wave, req.difficulty, |s.history| - 1, false, lock),
                          Board(Head(s).active[task := lock], Head(s).completed))],
      s.agents[a := Agent(|s.history|, Working(task))]))
  {
    var agent := Agent(|s.history|, Working(task));
    assert r.agents[a := agent] == s.agents[a := agent];
  }

  /** Otherwise it first breaks the first stale lock, and only that one. */
  lemma BreaksAlone(tasks: seq<Task>, s: Fleet, a: AgentId, req: Request, order: seq<TaskId>, found: seq<Evidence>, late: Evidence)
    requires Inv(tasks, s) && a in s.agents && s.agents[a].phase == Idle && req.maxAttempts > 0
    requires s.history != [] && SortedNames(order, Head(s).active)
    requires |found| < |order| && AllLive(order, Head(s).active, found)
    requires order[|found|] in Head(s).active
    requires LockIsStale(Head(s).active[order[|found|]], late)
    ensures var head, task := |s.history| - 1, order[|found|];
      Alone(tasks, s, a, Fleet(
        s.history + [Commit(Break(a, task, head, false, late), Board(Head(s).active - {task}, Head(s).completed))],
        s.agents[a := Agent(|s.history|, Attempt(req, req.maxAttempts - 1))]))
  {
    var head, task := |s.history| - 1, order[|found|];
    var r := Looked(tasks, s, a, req, order, found);
    hide Alone;
    hide FirstClaimable;
    hide AllLive;
    hide SortedNames;
    hide LockIsStale;
    hide Inv;
    assert order[|found|..][0] == task;
    r := Extend(tasks, s, r, a, Examine(late));
    assert r == Move(s, a, head, PushBreak(req, req.maxAttempts - 1, head, order[|found|..][1..], false, task, late));
    r := Extend(tasks, s, r, a, Push(false));
    assert r.agents == s.agents[a := Agent(|s.history|, Attempt(req, req.maxAttempts - 1))];
  }

  /** A working agent can finish its task, which moves it from the locks to the completed ones. */
  lemma FinishesAlone(tasks: seq<Task>, s: Fleet, a: AgentId, task: TaskId)
    requires Inv(tasks, s) && a in s.agents && s.agents[a].phase == Working(task) && s.history != []
    ensures var board := Head(s);
      Alone(tasks, s, a, Fleet(
        s.history + [Commit(Finish(a, task), Board(board.active - {task}, board.completed + {task}))],
        s.agents[a := Agent(|s.history|, Idle)]))
  {
    InvBased(tasks, s);
    AloneNothing(tasks, s, a);
    hide Alone;
    hide Inv;
    var r := Extend(tasks, s, s, a, FinishTask);
  }

  /** Or give it back, which removes the lock if it is still there. */
  lemma ReleasesAlone(tasks: seq<Task>, s: Fleet, a: AgentId, task: TaskId)
    requires Inv(tasks, s) && a in s.agents && s.agents[a].phase == Working(task) && s.history != []
    ensures var board := Head(s);
      Alone(tasks, s, a,
        if task in board.active then
          Fleet(s.history + [Commit(Release(a, task), Board(board.active - {task}, board.completed))],
                s.agents[a := Agent(|s.history|, Idle)])
        else Fleet(s.history, s.agents[a := Agent(|s.history| - 1, Idle)]))
  {
    InvBased(tasks, s);
    AloneNothing(tasks, s, a);
    hide Alone;
    hide Inv;
    var r := Extend(tasks, s, s, a, BeginRelease);
    if task in Head(s).active {
      r := Extend(tasks, s, r, a, Push(false));
      assert r.agents == s.agents[a := Agent(|s.history|, Idle)];
    }
  }
}

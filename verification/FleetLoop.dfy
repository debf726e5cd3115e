/** `run_fleet_loop`: what an agent does with its callbacks, iteration by iteration. */
module FleetLoop {
  import opened Text
  import opened TaskBoard

  /** How a callback ends: with a value, with one of the two exceptions the loop catches, or with
      an exception it lets through. */
  datatype Reply<+T> = Returns(value: T) | Raises | Escapes

  datatype ClaimReply =
    | Claimed(task: TaskId, difficulty: Option<string>)
    | NoClaimable(payload: Payload)
    | MissingDifficulty
    | Error
    | Unexpected

  /** What each callback would answer in one iteration, if it is called. */
  datatype Turn = Turn(reset: Reply<()>, claim: Reply<ClaimReply>, execute: Reply<string>, release: Reply<bool>)

  /** A call the loop made, with its arguments and the answer it got. */
  datatype Call =
    | Reset(reset: Reply<()>)
    | ClaimNext(claim: Reply<ClaimReply>)
    | Execute(task: TaskId, model: string, effort: string, outcome: Reply<string>)
    | Release(task: TaskId, reason: string, released: Reply<bool>)
    | Sleep(seconds: nat)

  datatype Exit = BatchComplete | TooManyFailures | WaveComplete | Crashed

  const FAILURE_CAP := 3
  const BACKOFF := [120, 300, 600]

  predicate Routable(difficulty: Option<string>) {
    difficulty == Some("EASY") || difficulty == Some("HARD")
  }

  function ModelFor(difficulty: Option<string>): string
    requires Routable(difficulty)
  {
    if difficulty == Some("EASY") then "claude-sonnet-4-6" else "claude-opus-4-7[1m]"
  }

  function Min(a: nat, b: nat): nat {
    if a < b then a else b
  }

  // ── Reading a log of calls ────────────────────────────────────────────────

  predicate Raised(c: Call) {
    match c
    case Reset(r) => r.Raises?
    case ClaimNext(r) => r.Raises?
    case Execute(_, _, _, r) => r.Raises?
    case Release(_, _, r) => r.Raises?
    case Sleep(_) => false
  }

  predicate Escaped(c: Call) {
    match c
    case Reset(r) => r.Escapes?
    case ClaimNext(r) => r.Escapes?
    case Execute(_, _, _, r) => r.Escapes?
    case Release(_, _, r) => r.Escapes?
    case Sleep(_) => false
  }

  predicate Completes(c: Call) {
    c.Execute? && c.outcome == Returns("completed")
  }

  /** A failure: a release that returned, or a callback that raised. */
  predicate Fails(c: Call) {
    Raised(c) || (c.Release? && c.released.Returns?)
  }

  predicate Idle(c: Call, drained: bool) {
    c.ClaimNext? && c.claim.Returns? && c.claim.value.NoClaimable? && ClassifiedIsDrained(c.claim.value.payload) == drained
  }

  /** The log ended the loop from inside: an exception got through or the wave was drained. */
  predicate Leaves(log: seq<Call>) {
    log != [] && (Escaped(log[|log| - 1]) || Idle(log[|log| - 1], true))
  }

  function Completed(log: seq<Call>): nat {
    if log == [] then 0
    else Completed(log[..|log| - 1]) + if Completes(log[|log| - 1]) then 1 else 0
  }

  /** Failures since the last completion. */
  function Failures(log: seq<Call>): nat {
    if log == [] || Completes(log[|log| - 1]) then 0
    else Failures(log[..|log| - 1]) + if Fails(log[|log| - 1]) then 1 else 0
  }

  /** Claims since the last completion that found nothing to claim in a wave not drained. */
  function Backoffs(log: seq<Call>): nat {
    if log == [] || Completes(log[|log| - 1]) then 0
    else Backoffs(log[..|log| - 1]) + if Idle(log[|log| - 1], false) then 1 else 0
  }

  function Executions(log: seq<Call>): nat {
    if log == [] then 0 else Executions(log[..|log| - 1]) + if log[|log| - 1].Execute? then 1 else 0
  }

  lemma Append(log: seq<Call>, c: Call)
    ensures Completed([]) == Failures([]) == Backoffs([]) == Executions([]) == 0
    ensures var more := log + [c];
      && Completed(more) == Completed(log) + (if Completes(c) then 1 else 0)
      && Failures(more) == (if Completes(c) then 0 else Failures(log) + if Fails(c) then 1 else 0)
      && Backoffs(more) == (if Completes(c) then 0 else Backoffs(log) + if Idle(c, false) then 1 else 0)
      && Executions(more) == Executions(log) + (if c.Execute? then 1 else 0)
  {
    assert (log + [c])[..|log|] == log;
  }

  lemma {:induction false} Concat(log: seq<Call>, calls: seq<Call>)
    ensures var more := log + calls;
      && Completed(more) == Completed(log) + Completed(calls)
      && Failures(more) == (if Completed(calls) > 0 then 0 else Failures(log)) + Failures(calls)
      && Backoffs(more) == (if Completed(calls) > 0 then 0 else Backoffs(log)) + Backoffs(calls)
      && Executions(more) == Executions(log) + Executions(calls)
  {
    if calls == [] {
      assert log + calls == log;
    } else {
      var init, c := calls[..|calls| - 1], calls[|calls| - 1];
      Concat(log, init);
      Append(log + init, c);
      Append(init, c);
      assert calls == init + [c] && log + calls == log + init + [c];
    }
  }

  // ── What one iteration may do ─────────────────────────────────────────────

  /** The table of the loop body: the calls made, for each way the callbacks may answer;
      `backoffs` is the number of backoff sleeps since the last completion. */
  function Calls(t: Turn, backoffs: nat): seq<Call> {
    var calls := [Reset(t.reset)];
    match t.reset
    case Raises => calls + [Sleep(60)]
    case Escapes => calls
    case Returns(_) => Claiming(calls + [ClaimNext(t.claim)], t, backoffs)
  }

  function Claiming(calls: seq<Call>, t: Turn, backoffs: nat): seq<Call> {
    match t.claim
    case Raises => calls + [Sleep(60)]
    case Escapes => calls
    case Returns(Claimed(task, difficulty)) =>
      if Routable(difficulty) then Executing(calls + [Execute(task, ModelFor(difficulty), "high", t.execute)], task, t)
      else Releasing(calls + [Release(task, "unrecognized difficulty", t.release)], t.release)
    case Returns(NoClaimable(p)) =>
      if ClassifiedIsDrained(p) then calls else calls + [Sleep(BACKOFF[Min(backoffs, 2)])]
    case Returns(_) => calls + [Sleep(60)]
  }

  function Executing(calls: seq<Call>, task: TaskId, t: Turn): seq<Call> {
    match t.execute
    case Raises => calls + [Sleep(60)]
    case Escapes => calls
    case Returns(o) =>
      if o == "completed" then calls else Releasing(calls + [Release(task, "outcome=" + o, t.release)], t.release)
  }

  function Releasing(calls: seq<Call>, release: Reply<bool>): seq<Call> {
    if release.Raises? then calls + [Sleep(60)] else calls
  }

  /** The calls of the first iterations, one after the other. */
  function Log(turns: seq<Turn>): seq<Call> {
    if turns == [] then []
    else
      var before := Log(turns[..|turns| - 1]);
      before + Calls(turns[|turns| - 1], Backoffs(before))
  }

  /** The tests at the top of the loop let another iteration start. */
  predicate MayContinue(maxTasks: Option<nat>, log: seq<Call>) {
    && (maxTasks.Some? ==> Completed(log) < maxTasks.value)
    && Failures(log) < FAILURE_CAP
    && !Leaves(log)
  }

  /** The turn ran a claimed task to its end. */
  predicate Done(t: Turn) {
    t.reset.Returns? && t.claim.Returns? && t.claim.value.Claimed? && Routable(t.claim.value.difficulty)
    && t.execute == Returns("completed")
  }

  /** The turn was one failure: the reset or the claim raised, or a claimed task was not completed. */
  predicate Failed(t: Turn) {
    || t.reset.Raises?
    || (t.reset.Returns? && t.claim.Raises?)
    || (t.reset.Returns? && t.claim.Returns? && t.claim.value.Claimed? && !Done(t)
        && var routed := Routable(t.claim.value.difficulty);
           (routed && t.execute.Raises?) || (!(routed && t.execute.Escapes?) && !t.release.Escapes?))
  }

  /** The turn found nothing to claim: in a drained wave, or in one not drained. */
  predicate Drains(t: Turn) {
    t.reset.Returns? && t.claim.Returns? && t.claim.value.NoClaimable? && ClassifiedIsDrained(t.claim.value.payload)
  }

  predicate Waits(t: Turn) {
    t.reset.Returns? && t.claim.Returns? && t.claim.value.NoClaimable? && !ClassifiedIsDrained(t.claim.value.payload)
  }

  /** An exception got through. */
  predicate Breaks(t: Turn) {
    || t.reset.Escapes?
    || (t.reset.Returns? && t.claim.Escapes?)
    || (t.reset.Returns? && t.claim.Returns? && t.claim.value.Claimed? && !Done(t) && !Failed(t))
  }

  lemma LastCall(t: Turn, backoffs: nat)
    ensures var calls := Calls(t, backoffs);
      && calls != [] && (Escaped(calls[|calls| - 1]) <==> Breaks(t)) && (Idle(calls[|calls| - 1], true) <==> Drains(t))
  {
    hide ClassifiedIsDrained;
  }

  /** The loop plays all these turns. */
  predicate RunOf(maxTasks: Option<nat>, turns: seq<Turn>) {
    turns == [] || (RunOf(maxTasks, turns[..|turns| - 1]) && MayContinue(maxTasks, Log(turns[..|turns| - 1])))
  }

  lemma LogExtend(maxTasks: Option<nat>, turns: seq<Turn>, n: nat)
    requires n < |turns| && RunOf(maxTasks, turns[..n]) && MayContinue(maxTasks, Log(turns[..n]))
    ensures Log(turns[..n + 1]) == Log(turns[..n]) + Calls(turns[n], Backoffs(Log(turns[..n])))
    ensures RunOf(maxTasks, turns[..n + 1])
  {
    hide Calls;
    assert turns[..n + 1][..n] == turns[..n];
  }

  // ── The loop ──────────────────────────────────────────────────────────────

  /** The body of the loop: the `try` block and its two handlers. */
  method PlayTurn(turn: Turn, completed: nat, failures: nat, backoff: nat)
    returns (calls: seq<Call>, exit: Option<Exit>, completed': nat, failures': nat, backoff': nat)
    ensures calls == Calls(turn, backoff)
    ensures calls != []
    ensures exit == (
      if Idle(calls[|calls| - 1], true) then Some(WaveComplete)
      else if Escaped(calls[|calls| - 1]) then Some(Crashed) else None)
    ensures completed' == completed + Completed(calls)
    ensures failures' == (if Completed(calls) > 0 then 0 else failures) + Failures(calls)
    ensures backoff' == (if Completed(calls) > 0 then 0 else backoff) + Backoffs(calls)
  {
    hide Completed;
    hide Failures;
    hide Backoffs;
    hide Executions;
    hide ClassifiedIsDrained;
    hide Idle;
    hide Escaped;
    completed', failures', backoff' := completed, failures, backoff;
    exit := None;
    calls := [Reset(turn.reset)];
    var raised := turn.reset.Raises?;
    if turn.reset.Escapes? {
      exit := Some(Crashed);
    } else if turn.reset.Returns? {
      calls := calls + [ClaimNext(turn.claim)];
      match turn.claim {
        case Raises => raised := true;
        case Escapes => exit := Some(Crashed);
        case Returns(Claimed(task, difficulty)) =>
          var release, reason := true, "unrecognized difficulty";
          if Routable(difficulty) {
            var call := Execute(task, ModelFor(difficulty), "high", turn.execute);
            calls := calls + [call];
            match turn.execute {
              case Raises => raised, release := true, false;
              case Escapes => exit, release := Some(Crashed), false;
              case Returns(outcome) =>
                reason := "outcome=" + outcome;
                if outcome == "completed" {
                  completed', failures', backoff' := completed' + 1, 0, 0;
                  release := false;
                }
            }
          }
          if release {
            calls := calls + [Release(task, reason, turn.release)];
            match turn.release {
              case Raises => raised := true;
              case Escapes => exit := Some(Crashed);
              case Returns(_) => failures' := failures' + 1;
            }
          }
        case Returns(NoClaimable(payload)) =>
          if ClassifiedIsDrained(payload) {
            exit := Some(WaveComplete);
          } else {
            calls := calls + [Sleep(BACKOFF[Min(backoff', 2)])];
            backoff' := backoff' + 1;
          }
        case Returns(_) =>
          calls := calls + [Sleep(60)];
      }
    }
    if raised {
      failures' := failures' + 1;
      calls := calls + [Sleep(60)];
    }
    OneResult(turn, backoff);
    LastCall(turn, backoff);
  }

  /** What the way a loop ended says of its log. */
  predicate ExitSays(maxTasks: Option<nat>, log: seq<Call>, exit: Option<Exit>) {
    && (exit == Some(WaveComplete) <==> log != [] && Idle(log[|log| - 1], true))
    && (exit == Some(Crashed) <==> log != [] && Escaped(log[|log| - 1]))
    && (exit == Some(BatchComplete) <==> !Leaves(log) && maxTasks.Some? && Completed(log) == maxTasks.value)
    && (exit == Some(TooManyFailures) <==>
        !Leaves(log) && (maxTasks.Some? ==> Completed(log) < maxTasks.value) && Failures(log) == 3)
  }

  lemma AtTheTop(maxTasks: Option<nat>, log: seq<Call>)
    requires !Leaves(log) && Failures(log) <= 3 && (maxTasks.Some? ==> Completed(log) <= maxTasks.value)
    ensures maxTasks.Some? && Completed(log) >= maxTasks.value ==> ExitSays(maxTasks, log, Some(BatchComplete))
    ensures (maxTasks.Some? ==> Completed(log) < maxTasks.value) ==>
      if Failures(log) >= 3 then ExitSays(maxTasks, log, Some(TooManyFailures))
      else MayContinue(maxTasks, log) && ExitSays(maxTasks, log, None)
  {
    hide Completed;
    hide Failures;
    hide Escaped;
    hide Idle;
  }

  lemma LeavesBy(maxTasks: Option<nat>, log: seq<Call>, calls: seq<Call>)
    requires calls != []
    ensures var last := calls[|calls| - 1];
      && (Leaves(log + calls) <==> Escaped(last) || Idle(last, true))
      && (Idle(last, true) ==> ExitSays(maxTasks, log + calls, Some(WaveComplete)))
      && (!Idle(last, true) && Escaped(last) ==> ExitSays(maxTasks, log + calls, Some(Crashed)))
  {
    hide Completed;
    hide Failures;
    hide ClassifiedIsDrained;
    assert (log + calls)[|log + calls| - 1] == calls[|calls| - 1];
  }

  /** Plays the turns until the loop exits after `n` of them, or `None` while it is still running. */
  method RunFleetLoop(maxTasks: Option<nat>, turns: seq<Turn>) returns (exit: Option<Exit>, n: nat, log: seq<Call>)
    ensures n <= |turns| && RunOf(maxTasks, turns[..n]) && log == Log(turns[..n])
    ensures exit.None? ==> n == |turns|
    ensures ExitSays(maxTasks, log, exit)
  {
    var completed, failures, backoff := 0, 0, 0;
    n, log := 0, [];
    while true
      invariant n <= |turns| && RunOf(maxTasks, turns[..n]) && log == Log(turns[..n])
      invariant completed == Completed(log) && failures == Failures(log) && backoff == Backoffs(log)
      invariant !Leaves(log)
      decreases |turns| - n
    {
      assert FAILURE_CAP == 3;
      RunBounds(maxTasks, turns[..n]);
      AtTheTop(maxTasks, log);
      hide *;
      if maxTasks.Some? && completed >= maxTasks.value {
        return Some(BatchComplete), n, log;
      }
      if failures >= FAILURE_CAP {
        return Some(TooManyFailures), n, log;
      }
      if n == |turns| {
        return None, n, log;
      }
      var calls, leave;
      calls, leave, completed, failures, backoff := PlayTurn(turns[n], completed, failures, backoff);
      LogExtend(maxTasks, turns, n);
      Concat(log, calls);
      LeavesBy(maxTasks, log, calls);
      log, n := log + calls, n + 1;
      if leave.Some? {
        return leave, n, log;
      }
    }
  }

  // ── What every run keeps ──────────────────────────────────────────────────

  /** Bounds of every run: never more than three failures in a row, never more completions than
      the quota, and, with a quota of `m`, never more than `3 m` tasks executed. */
  lemma {:induction false} RunBounds(maxTasks: Option<nat>, turns: seq<Turn>)
    requires RunOf(maxTasks, turns)
    ensures var log := Log(turns);
      && Failures(log) <= 3
      && Executions(log) <= 3 * Completed(log) + Failures(log) + (if Leaves(log) then 1 else 0)
      && (maxTasks.Some? ==> Completed(log) <= maxTasks.value && Executions(log) <= 3 * maxTasks.value)
  {
    if turns != [] {
      var before, t := turns[..|turns| - 1], turns[|turns| - 1];
      RunBounds(maxTasks, before);
      var calls := Calls(t, Backoffs(Log(before)));
      OneResult(t, Backoffs(Log(before)));
      LastCall(t, Backoffs(Log(before)));
      Concat(Log(before), calls);
      assert (Log(before) + calls)[|Log(before) + calls| - 1] == calls[|calls| - 1];
      hide *;
      BoundsStep(maxTasks, Log(before), calls);
    }
  }

  lemma BoundsStep(maxTasks: Option<nat>, log: seq<Call>, calls: seq<Call>)
    requires MayContinue(maxTasks, log) && Completed(calls) + Failures(calls) <= 1 && Executions(calls) <= 1
    requires Executions(calls) == 1 ==> Completed(calls) + Failures(calls) == 1 || Leaves(calls)
    requires Executions(log) <= 3 * Completed(log) + Failures(log)
    requires calls != [] && (Leaves(log + calls) <==> Leaves(calls))
    ensures var more := log + calls;
      && Failures(more) <= 3
      && Executions(more) <= 3 * Completed(more) + Failures(more) + (if Leaves(more) then 1 else 0)
      && (maxTasks.Some? ==> Completed(more) <= maxTasks.value && Executions(more) <= 3 * maxTasks.value)
  {
    Concat(log, calls);
  }

  lemma AppendSleep(calls: seq<Call>, seconds: nat)
    ensures var all := calls + [Sleep(seconds)];
      && Completed(all) == Completed(calls) && Failures(all) == Failures(calls)
      && Backoffs(all) == Backoffs(calls) && Executions(all) == Executions(calls)
  {
    Append(calls, Sleep(seconds));
  }

  lemma AppendRelease(calls: seq<Call>, task: TaskId, reason: string, release: Reply<bool>)
    ensures var all := calls + [Release(task, reason, release)];
      && Completed(all) == Completed(calls) && Failures(all) == Failures(calls) + (if release.Escapes? then 0 else 1)
      && Backoffs(all) == Backoffs(calls) && Executions(all) == Executions(calls)
  {
    Append(calls, Release(task, reason, release));
  }

  lemma AppendExecute(calls: seq<Call>, task: TaskId, model: string, outcome: Reply<string>)
    requires Failures(calls) == Backoffs(calls) == 0
    ensures var all := calls + [Execute(task, model, "high", outcome)];
      && Completed(all) == Completed(calls) + (if outcome == Returns("completed") then 1 else 0)
      && Failures(all) == (if outcome.Raises? then 1 else 0)
      && Backoffs(all) == 0 && Executions(all) == Executions(calls) + 1
  {
    Append(calls, Execute(task, model, "high", outcome));
  }

  lemma AppendClaim(calls: seq<Call>, claim: Reply<ClaimReply>)
    ensures var all := calls + [ClaimNext(claim)];
      && Completed(all) == Completed(calls) && Failures(all) == Failures(calls) + (if claim.Raises? then 1 else 0)
      && Backoffs(all) == Backoffs(calls) + (if Idle(ClaimNext(claim), false) then 1 else 0)
      && Executions(all) == Executions(calls)
  {
    Append(calls, ClaimNext(claim));
  }

  lemma ReleasingCounts(calls: seq<Call>, task: TaskId, reason: string, release: Reply<bool>)
    ensures var all := Releasing(calls + [Release(task, reason, release)], release);
      && Completed(all) == Completed(calls) && Executions(all) == Executions(calls) && Backoffs(all) == Backoffs(calls)
      && Failures(all) == Failures(calls) + if release.Escapes? then 0 else 1
  {
    var released := calls + [Release(task, reason, release)];
    assert Releasing(released, release) == if release.Raises? then released + [Sleep(60)] else released;
    hide *;
    AppendRelease(calls, task, reason, release);
    AppendSleep(released, 60);
  }

  lemma ExecutingCounts(calls: seq<Call>, task: TaskId, model: string, t: Turn)
    requires Completed(calls) == Failures(calls) == Backoffs(calls) == Executions(calls) == 0
    ensures var all := Executing(calls + [Execute(task, model, "high", t.execute)], task, t);
      && Completed(all) == (if t.execute == Returns("completed") then 1 else 0) && Executions(all) == 1
      && Backoffs(all) == 0 && Failures(all) ==
         if t.execute.Raises? then 1
         else if t.execute.Escapes? || t.execute.value == "completed" || t.release.Escapes? then 0 else 1
  {
    var executed := calls + [Execute(task, model, "high", t.execute)];
    var all := Executing(executed, task, t);
    assert t.execute.Raises? ==> all == executed + [Sleep(60)];
    assert t.execute.Escapes? || t.execute == Returns("completed") ==> all == executed;
    if t.execute.Returns? && t.execute.value != "completed" {
      var reason := "outcome=" + t.execute.value;
      assert all == Releasing(executed + [Release(task, reason, t.release)], t.release);
      hide *;
      AppendExecute(calls, task, model, t.execute);
      ReleasingCounts(executed, task, reason, t.release);
    } else {
      hide *;
      AppendExecute(calls, task, model, t.execute);
      AppendSleep(executed, 60);
    }
  }

  lemma ClaimingCounts(calls: seq<Call>, t: Turn, backoffs: nat)
    requires t.reset.Returns? && Completed(calls) == Failures(calls) == Backoffs(calls) == Executions(calls) == 0
    ensures var all := Claiming(calls + [ClaimNext(t.claim)], t, backoffs);
      && Completed(all) == (if Done(t) then 1 else 0) && Failures(all) == (if Failed(t) then 1 else 0)
      && Backoffs(all) == (if Waits(t) then 1 else 0)
      && Executions(all) <= 1 && (Executions(all) == 1 ==> Done(t) || Failed(t) || Breaks(t))
  {
    var claimed := calls + [ClaimNext(t.claim)];
    var seconds := if t.claim.Returns? && t.claim.value.NoClaimable? then BACKOFF[Min(backoffs, 2)] else 60;
    AppendClaim(calls, t.claim);
    hide Completed;
    hide Failures;
    hide Backoffs;
    hide Executions;
    hide ClassifiedIsDrained;
    hide Min;
    if t.claim.Returns? && t.claim.value.Claimed? {
      var task, difficulty := t.claim.value.task, t.claim.value.difficulty;
      if Routable(difficulty) {
        ExecutingCounts(claimed, task, ModelFor(difficulty), t);
        hide Executing;
      } else {
        ReleasingCounts(claimed, task, "unrecognized difficulty", t.release);
        hide Releasing;
      }
    } else {
      AppendSleep(claimed, seconds);
    }
  }

  /** Every turn is one completion, one failure or neither, and a turn that executed a task is
      neither only when an exception got through. */
  lemma OneResult(t: Turn, backoffs: nat)
    ensures var calls := Calls(t, backoffs);
      && Completed(calls) == (if Done(t) then 1 else 0) && Failures(calls) == (if Failed(t) then 1 else 0)
      && Backoffs(calls) == (if Waits(t) then 1 else 0)
      && Executions(calls) <= 1 && (Executions(calls) == 1 ==> Done(t) || Failed(t) || Breaks(t))
  {
    var reset := Reset(t.reset);
    Append([], reset);
    assert [] + [reset] == [reset];
    hide Completed;
    hide Failures;
    hide Backoffs;
    hide Executions;
    hide ClassifiedIsDrained;
    hide Claiming;
    if t.reset.Raises? {
      AppendSleep([reset], 60);
    } else if t.reset.Returns? {
      ClaimingCounts([reset], t, backoffs);
    }
  }

  // ── What the log says ─────────────────────────────────────────────────────

  function Next(log: seq<Call>, p: nat): Option<Call> {
    if p + 1 < |log| then Some(log[p + 1]) else None
  }

  predicate Naps(next: Option<Call>, seconds: nat) {
    next == Some(Sleep(seconds))
  }

  /** The iteration is over: the next call, if any, is the reset of another one. */
  predicate TurnOver(next: Option<Call>) {
    next.Some? ==> next.value.Reset?
  }

  predicate Executes(next: Option<Call>, task: TaskId, model: string) {
    next.Some? && next.value.Execute? && next.value.task == task && next.value.model == model && next.value.effort == "high"
  }

  predicate Releases(next: Option<Call>, task: TaskId, reason: string) {
    next.Some? && next.value.Release? && next.value.task == task && next.value.reason == reason
  }

  /** What comes directly after a call, given its answer and the number of backoff sleeps since the
      last completion. After an exception that gets through and after a drained claim, nothing does. */
  predicate Leads(c: Call, next: Option<Call>, backoffs: nat) {
    if Escaped(c) then next == None
    else if Raised(c) then Naps(next, 60)
    else
      match c
      case Reset(_) => next.Some? && next.value.ClaimNext?
      case ClaimNext(Returns(Claimed(task, difficulty))) =>
        if difficulty == Some("EASY") then Executes(next, task, "claude-sonnet-4-6")
        else if difficulty == Some("HARD") then Executes(next, task, "claude-opus-4-7[1m]")
        else Releases(next, task, "unrecognized difficulty")
      case ClaimNext(Returns(NoClaimable(payload))) =>
        if ClassifiedIsDrained(payload) then next == None
        else Naps(next, if backoffs == 0 then 120 else if backoffs == 1 then 300 else 600)
      case ClaimNext(_) => Naps(next, 60)
      case Execute(task, _, _, r) =>
        if r.value == "completed" then TurnOver(next) else Releases(next, task, "outcome=" + r.value)
      case Release(_, _, _) => TurnOver(next)
      case Sleep(_) => TurnOver(next)
  }

  /** In every run each call leads to the next as its answer demands: the log starts with a reset,
      a routable claim is directly followed by the execution of its task and any other by the release
      of it, an execution that did not complete by its release, an exception by a nap. No iteration
      starts once the quota is reached or after three failures. */
  lemma {:induction false} EachCallLeads(maxTasks: Option<nat>, turns: seq<Turn>, p: nat)
    requires RunOf(maxTasks, turns)
    requires p < |Log(turns)|
    ensures var log := Log(turns);
      && log[0].Reset? && Leads(log[p], Next(log, p), Backoffs(log[..p]))
      && (log[p].Reset? ==> (maxTasks.Some? ==> Completed(log[..p]) < maxTasks.value) && Failures(log[..p]) < 3)
    decreases |turns|
  {
    var before, t := turns[..|turns| - 1], turns[|turns| - 1];
    var log, calls := Log(before), Calls(t, Backoffs(Log(before)));
    assert MayContinue(maxTasks, log) && RunOf(maxTasks, before) && Log(turns) == log + calls;
    assert FAILURE_CAP == 3;
    if p < |log| {
      EachCallLeads(maxTasks, before, p);
      hide *;
      CallsLead(t, Backoffs(log), 0);
      LeadsLater(maxTasks, log, calls, p);
    } else {
      if log != [] {
        EachCallLeads(maxTasks, before, 0);
      }
      hide *;
      CallsLead(t, Backoffs(log), 0);
      CallsLead(t, Backoffs(log), p - |log|);
      LeadsShifted(maxTasks, log, calls, p - |log|);
    }
  }

  lemma CallsLead(t: Turn, backoffs: nat, q: nat)
    ensures Calls(t, backoffs) != []
    ensures q < |Calls(t, backoffs)| ==> var calls := Calls(t, backoffs);
      && Leads(calls[q], Next(calls, q), backoffs) && (calls[q].Reset? <==> q == 0) && (calls[q].ClaimNext? ==> q == 1)
  {
    hide ClassifiedIsDrained;
  }

  lemma LeadsLater(maxTasks: Option<nat>, log: seq<Call>, calls: seq<Call>, p: nat)
    requires calls != [] && calls[0].Reset? && p < |log| && MayContinue(maxTasks, log)
    requires Leads(log[p], Next(log, p), Backoffs(log[..p]))
    ensures (log + calls)[p] == log[p] && (log + calls)[0] == log[0] && (log + calls)[..p] == log[..p]
    ensures Leads(log[p], Next(log + calls, p), Backoffs(log[..p]))
  {
    var backoffs := Backoffs(log[..p]);
    hide Backoffs;
    hide Completed;
    hide Failures;
    hide Leads;
    hide Escaped;
    hide Idle;
    if p == |log| - 1 {
      NextTurn(log[p], calls[0], backoffs);
    }
  }

  lemma NextTurn(c: Call, reset: Call, backoffs: nat)
    requires Leads(c, None, backoffs) && !Escaped(c) && !Idle(c, true) && reset.Reset?
    ensures Leads(c, Some(reset), backoffs)
  {
  }

  lemma OnlyClaims(c: Call, next: Option<Call>, backoffs: nat, others: nat)
    requires Leads(c, next, backoffs) && !c.ClaimNext?
    ensures Leads(c, next, others)
  {
  }

  lemma LeadsShifted(maxTasks: Option<nat>, log: seq<Call>, calls: seq<Call>, q: nat)
    requires q < |calls| && calls[0].Reset? && Leads(calls[q], Next(calls, q), Backoffs(log))
    requires MayContinue(maxTasks, log) && (log != [] ==> log[0].Reset?)
    requires (calls[q].Reset? <==> q == 0) && (calls[q].ClaimNext? ==> q == 1)
    ensures var more, p := log + calls, |log| + q;
      && more[p] == calls[q] && more[0].Reset?
      && Leads(calls[q], Next(more, p), Backoffs(more[..p]))
      && (calls[q].Reset? ==> (maxTasks.Some? ==> Completed(more[..p]) < maxTasks.value) && Failures(more[..p]) < 3)
  {
    Top(maxTasks, log);
    hide *;
    Shift(log, calls, q);
    if calls[q].ClaimNext? {
      Append(log, calls[0]);
      ResetKeeps(log, calls[0]);
    } else {
      OnlyClaims(calls[q], Next(calls, q), Backoffs(log), Backoffs((log + calls)[..|log| + q]));
    }
  }

  lemma Top(maxTasks: Option<nat>, log: seq<Call>)
    requires MayContinue(maxTasks, log)
    ensures (maxTasks.Some? ==> Completed(log) < maxTasks.value) && Failures(log) < 3
  {
  }

  lemma ResetKeeps(log: seq<Call>, reset: Call)
    requires reset.Reset?
    ensures Backoffs(log + [reset]) == Backoffs(log)
  {
    Append(log, reset);
  }

  lemma Shift(log: seq<Call>, calls: seq<Call>, q: nat)
    requires q < |calls|
    ensures var more, p := log + calls, |log| + q;
      && more[p] == calls[q] && more[0] == (if log == [] then calls[0] else log[0]) && Next(more, p) == Next(calls, q)
      && more[..p] == log + calls[..q] && (q == 0 ==> more[..p] == log) && (q == 1 ==> more[..p] == log + [calls[0]])
  {
    assert (log + calls)[..|log| + q] == log + calls[..q];
  }

  predicate ClaimOf(c: Call, task: TaskId, routable: bool) {
    c.ClaimNext? && c.claim.Returns? && c.claim.value.Claimed? && c.claim.value.task == task
    && Routable(c.claim.value.difficulty) == routable
  }

  /** The one call that the call after it can come from. */
  predicate ComesFrom(next: Call, c: Call) {
    match next
    case Reset(_) => !Escaped(c)
    case ClaimNext(_) => c.Reset? && c.reset.Returns?
    case Execute(task, _, _, _) => ClaimOf(c, task, true)
    case Release(task, _, _) =>
      ClaimOf(c, task, false) || (c.Execute? && c.task == task && c.outcome.Returns? && c.outcome.value != "completed")
    case Sleep(_) => Raised(c) || (c.ClaimNext? && c.claim.Returns? && !c.claim.value.Claimed?)
  }

  /** Nothing is executed, released or slept on for any other reason: only a claimed routable task
      is executed, and only a task that could not be routed or did not complete is released. */
  lemma OnlyAfter(maxTasks: Option<nat>, turns: seq<Turn>, p: nat)
    requires RunOf(maxTasks, turns)
    requires p < |Log(turns)|
    ensures var log := Log(turns);
      if p == 0 then log[p].Reset? else ComesFrom(log[p], log[p - 1])
  {
    EachCallLeads(maxTasks, turns, p);
    if p > 0 {
      EachCallLeads(maxTasks, turns, p - 1);
      var log := Log(turns);
      assert Next(log, p - 1) == Some(log[p]);
      var c, next, backoffs := log[p - 1], log[p], Backoffs(log[..p - 1]);
      hide *;
      LedTo(c, next, backoffs);
    }
  }

  lemma LedTo(c: Call, next: Call, backoffs: nat)
    requires Leads(c, Some(next), backoffs)
    ensures ComesFrom(next, c)
  {
  }

  // ── Whose answers they are ────────────────────────────────────────────────

  function Resets(log: seq<Call>): nat {
    if log == [] then 0 else Resets(log[..|log| - 1]) + if log[|log| - 1].Reset? then 1 else 0
  }

  predicate AnsweredBy(c: Call, t: Turn) {
    match c
    case Reset(r) => r == t.reset
    case ClaimNext(r) => r == t.claim
    case Execute(_, _, _, r) => r == t.execute
    case Release(_, _, r) => r == t.release
    case Sleep(_) => true
  }

  /** The answers in the log are those of the turns, in order: the call at `p` got its answer from
      the turn that the last reset up to `p` belongs to, and every turn has its reset. */
  lemma {:induction false} Answers(turns: seq<Turn>, p: nat)
    ensures var log := Log(turns);
      && Resets(log) == |turns|
      && (p < |log| ==> var k := Resets(log[..p + 1]); 1 <= k <= |turns| && AnsweredBy(log[p], turns[k - 1]))
  {
    if turns != [] {
      var before, t := turns[..|turns| - 1], turns[|turns| - 1];
      var log, calls := Log(before), Calls(t, Backoffs(Log(before)));
      assert Log(turns) == log + calls;
      Answers(before, p);
      hide *;
      CallsLead(t, Backoffs(log), 0);
      ResetsFrom(log, t, Backoffs(log), |calls|);
      assert calls[..|calls|] == calls;
      if p < |log| {
        assert (log + calls)[..p + 1] == log[..p + 1];
      } else if p < |log + calls| {
        ResetsFrom(log, t, Backoffs(log), p - |log| + 1);
        assert (log + calls)[..p + 1] == log + calls[..p - |log| + 1];
      }
    }
  }

  lemma {:induction false} ResetsFrom(log: seq<Call>, t: Turn, backoffs: nat, q: nat)
    requires 0 < q <= |Calls(t, backoffs)|
    ensures var calls := Calls(t, backoffs); Resets(log + calls[..q]) == Resets(log) + 1 && AnsweredBy(calls[q - 1], t)
    decreases q
  {
    var calls := Calls(t, backoffs);
    CallAnswered(t, backoffs, q - 1);
    hide Calls;
    CallsLead(t, backoffs, q - 1);
    hide Leads;
    hide AnsweredBy;
    assert (log + calls[..q])[..|log| + q - 1] == log + calls[..q - 1];
    if q == 1 {
      assert log + calls[..0] == log;
    } else {
      ResetsFrom(log, t, backoffs, q - 1);
    }
  }

  lemma CallAnswered(t: Turn, backoffs: nat, q: nat)
    requires q < |Calls(t, backoffs)|
    ensures AnsweredBy(Calls(t, backoffs)[q], t)
  {
    hide ClassifiedIsDrained;
  }

  // ── What the failure counter means ────────────────────────────────────────

  /** The results that count, in order: true for a completion and false for a failure. */
  function Counted(log: seq<Call>): seq<bool> {
    if log == [] then []
    else
      var c := log[|log| - 1];
      Counted(log[..|log| - 1]) + if Completes(c) then [true] else if Fails(c) then [false] else []
  }

  /** A count of `k` failures means that the last `k` counted results were failures; they are
      all of them, or are preceded by a completion. */
  lemma {:induction false} FailuresAreLast(log: seq<Call>)
    ensures var c, k := Counted(log), Failures(log);
      && k <= |c| && (forall i :: |c| - k <= i < |c| ==> !c[i])
      && (k < |c| ==> c[|c| - k - 1])
  {
    if log != [] {
      FailuresAreLast(log[..|log| - 1]);
    }
  }
}

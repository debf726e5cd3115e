/** `execute_task`: the dialogue with the agent about one task, and what its outcome tells the fleet
    loop about origin. */
module ExecuteTask {
  import opened Text
  import opened TaskBoard
  import opened ClaimHistory

  const MARKER := "[NEEDS INPUT]"

  predicate HasNeedsInput(output: string) {
    MARKER <= output || (output != [] && HasNeedsInput(output[1..]))
  }

  /** The marker is looked for anywhere in the output. */
  lemma {:induction false} HasNeedsInputIff(output: string)
    ensures HasNeedsInput(output) <==> exists before, after :: output == before + "[NEEDS INPUT]" + after
  {
    if HasNeedsInput(output) {
      var before, after := Marked(output);
      assert output == before + "[NEEDS INPUT]" + after;
    }
    forall before, after | output == before + "[NEEDS INPUT]" + after ensures HasNeedsInput(output) {
      Unmarked(before, after);
    }
  }

  lemma {:induction false} Marked(output: string) returns (before: string, after: string)
    requires HasNeedsInput(output)
    ensures output == before + MARKER + after
  {
    if MARKER <= output {
      before, after := [], output[|MARKER|..];
    } else {
      before, after := Marked(output[1..]);
      before := [output[0]] + before;
    }
  }

  lemma {:induction false} Unmarked(before: string, after: string)
    ensures HasNeedsInput(before + MARKER + after)
  {
    if before == [] {
      assert MARKER <= before + MARKER + after;
    } else {
      assert (before + MARKER + after)[1..] == before[1..] + MARKER + after;
      Unmarked(before[1..], after);
    }
  }

  datatype State = Done | LockHeld | Absent

  /** `task_state_on_origin` at a commit. */
  function StateOn(b: Board, t: TaskId): State {
    if t in b.completed then Done else if t in b.active then LockHeld else Absent
  }

  datatype Step =
    | Ran(prompt: string, systemPrompt: Option<string>, resume: bool, output: string)
    | Asked(reply: string)
    | Checked(state: State)

  /** What the agent will say, in order, what the human will reply to each output, and what each
      look at origin will find. */
  datatype World = World(outputs: seq<string>, replies: nat -> string, look: nat -> State)

  // ── One dialogue ──────────────────────────────────────────────────────────

  /** The runs and replies of a dialogue alternate. It opens with the prompt; the other runs resume
      the session with the reply just given; the outputs are the next ones the agent says, from `k`
      on, and each reply is the one to the output before it. */
  predicate Dialogue(log: seq<Step>, world: World, k: nat, prompt: string, system: Option<string>, resume: bool) {
    && k + (|log| + 1) / 2 <= |world.outputs|
    && forall i :: 0 <= i < |log| ==>
      log[i] ==
        if i == 0 then Ran(prompt, system, resume, world.outputs[k])
        else if i % 2 == 1 then Asked(world.replies(k + i / 2))
        else Ran(world.replies(k + i / 2 - 1), None, true, world.outputs[k + i / 2])
  }

  lemma DialogueAnswer(log: seq<Step>, world: World, k: nat, prompt: string, system: Option<string>, resume: bool, i: nat)
    requires Dialogue(log, world, k, prompt, system, resume) && |log| == 2 * (i - k) + 1 && k <= i < |world.outputs|
    ensures Dialogue(log + [Asked(world.replies(i))], world, k, prompt, system, resume)
    ensures i + 1 < |world.outputs| ==>
      Dialogue(log + [Asked(world.replies(i)), Ran(world.replies(i), None, true, world.outputs[i + 1])],
               world, k, prompt, system, resume)
  {
  }

  /** `_run_once_with_needs_input_loop`, from output `k` on: it ends with the first output that asks
      nothing; `None` while the agent has not said that. */
  method RunOnce(world: World, k: nat, prompt: string, system: Option<string>, resume: bool)
    returns (next: Option<nat>, log: seq<Step>)
    requires k <= |world.outputs|
    ensures Dialogue(log, world, k, prompt, system, resume)
    ensures next.Some? ==> k < next.value <= |world.outputs| && |log| == 2 * (next.value - k) - 1
    ensures next.Some? ==> forall i :: k <= i < next.value - 1 ==> HasNeedsInput(world.outputs[i])
    ensures next.Some? ==> !HasNeedsInput(world.outputs[next.value - 1])
    ensures next.None? ==> |log| == 2 * (|world.outputs| - k)
    ensures next.None? ==> forall i :: k <= i < |world.outputs| ==> HasNeedsInput(world.outputs[i])
  {
    log := [];
    if k == |world.outputs| {
      return None, log;
    }
    var i := k;
    log := [Ran(prompt, system, resume, world.outputs[k])];
    assert Dialogue(log, world, k, prompt, system, resume);
    hide *;
    while HasNeedsInput(world.outputs[i])
      invariant k <= i < |world.outputs| && Dialogue(log, world, k, prompt, system, resume)
      invariant |log| == 2 * (i - k) + 1
      invariant forall j :: k <= j < i ==> HasNeedsInput(world.outputs[j])
      decreases |world.outputs| - i
    {
      var reply := world.replies(i);
      DialogueAnswer(log, world, k, prompt, system, resume, i);
      if i + 1 == |world.outputs| {
        return None, log + [Asked(reply)];
      }
      log := log + [Asked(reply), Ran(reply, None, true, world.outputs[i + 1])];
      i := i + 1;
    }
    return Some(i + 1), log;
  }

  // ── The task ──────────────────────────────────────────────────────────────

  /** The looks at origin decide the outcome; there is a second one only while the lock is held. */
  function Outcome(look: nat -> State): string {
    match look(0)
    case Done => "completed"
    case Absent => "missing"
    case LockHeld => if look(1) == Done then "completed" else "incomplete"
  }

  /** A dialogue over the outputs from `k` on, the last of them the first that asks nothing. */
  predicate Finished(
    log: seq<Step>, world: World, k: nat, next: nat, prompt: string, system: Option<string>, resume: bool)
  {
    && k < next <= |world.outputs| && |log| == 2 * (next - k) - 1
    && Dialogue(log, world, k, prompt, system, resume)
    && (forall i :: k <= i < next - 1 ==> HasNeedsInput(world.outputs[i])) && !HasNeedsInput(world.outputs[next - 1])
  }

  /** A finished dialogue and a look at origin; if that found the lock still held, a second finished
      dialogue in the resumed session, over the outputs left, and a last look. */
  predicate Rounds(log: seq<Step>, world: World, n: nat, m: nat, prompt: string, system: string, resumePrompt: string) {
    && 0 < 2 * n <= |log| && Finished(log[..2 * n - 1], world, 0, n, prompt, Some(system), false)
    && log[2 * n - 1] == Checked(world.look(0))
    && if world.look(0) != LockHeld then |log| == 2 * n
       else
         && |log| == 2 * m && n < m && log[2 * m - 1] == Checked(world.look(1))
         && Finished(log[2 * n..2 * m - 1], world, n, m, resumePrompt, None, true)
  }

  /** `None` while the agent has not finished what it says. */
  method ExecuteTask(world: World, prompt: string, system: string, resumePrompt: string)
    returns (outcome: Option<string>, log: seq<Step>, ghost n: nat, ghost m: nat)
    ensures outcome.Some? ==> outcome.value == Outcome(world.look)
    ensures outcome.Some? ==> Rounds(log, world, n, m, prompt, system, resumePrompt)
    ensures outcome.None? ==> exists k: nat :: k <= |world.outputs| && AllAsk(world, k) && (k == 0 || world.look(0) == LockHeld)
  {
    hide HasNeedsInput;
    hide Dialogue;
    hide Outcome;
    n, m := 0, 0;
    var next, first := RunOnce(world, 0, prompt, Some(system), false);
    if next.None? {
      assert AllAsk(world, 0);
      return None, first, n, m;
    }
    log, n := first + [Checked(world.look(0))], next.value;
    assert log[..2 * n - 1] == first;
    OutcomeOf(world.look);
    if world.look(0) == Done {
      return Some("completed"), log, n, m;
    }
    if world.look(0) != LockHeld {
      return Some("missing"), log, n, m;
    }
    var last, second := RunOnce(world, next.value, resumePrompt, None, true);
    if last.None? {
      assert AllAsk(world, n);
      return None, log + second, n, m;
    }
    log, m := log + second + [Checked(world.look(1))], last.value;
    assert log[..2 * n - 1] == first && log[2 * n..2 * m - 1] == second;
    return Some(if world.look(1) == Done then "completed" else "incomplete"), log, n, m;
  }

  /** Every output from `k` on asks for input. */
  predicate AllAsk(world: World, k: nat) {
    forall i :: k <= i < |world.outputs| ==> HasNeedsInput(world.outputs[i])
  }

  lemma OutcomeOf(look: nat -> State)
    ensures Outcome(look) == if look(0) == Done then "completed" else if look(0) != LockHeld then "missing"
      else if look(1) == Done then "completed" else "incomplete"
  {
  }

  /** What the outcome means for origin, when the looks read commits `i` and later `j` of main: the
      task is reported completed exactly when the last look found it so, and then it is in every
      commit from then on; incomplete when it was locked and later not completed; and missing when
      it was neither completed nor locked. */
  lemma OutcomesAreReal(tasks: seq<Task>, h: seq<Commit>, t: TaskId, look: nat -> State, i: nat, j: nat, k: nat)
    requires Lawful(tasks, h) && i <= j <= k < |h|
    requires look(0) == StateOn(h[i].board, t) && look(1) == StateOn(h[j].board, t)
    ensures var before, after := h[i].board, h[j].board;
      && (Outcome(look) == "completed" ==> t in h[k].board.completed)
      && (Outcome(look) == "completed" <==> t in before.completed || (t in before.active && t in after.completed))
      && (Outcome(look) == "incomplete" <==> t !in before.completed && t in before.active && t !in after.completed)
      && (Outcome(look) == "missing" <==> t !in before.completed && t !in before.active)
  {
    CompletedGrows(tasks, h, i, k);
    CompletedGrows(tasks, h, j, k);
  }
}

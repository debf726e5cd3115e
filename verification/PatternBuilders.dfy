/** The four automaton builders, and exactly which event lists their automata complete on. */
module PatternBuilders {
  import opened PatternNfa

  /** `0..=n as u8`: the step table wraps at 256 entries. */
  function StepTable(n: nat): (t: seq<nat>)
    ensures |t| == n % 256 + 1
  {
    seq(n % 256 + 1, i => i)
  }

  function U16(n: nat): nat {
    n % 0x1_0000
  }

  const DEAD_END := State([], [])

  function Elements(s: seq<string>): set<string> {
    set e <- s
  }

  lemma ElementsAppend(s: seq<string>, e: string)
    ensures Elements(s + [e]) == Elements(s) + {e}
  {
    forall x ensures x in s + [e] <==> x in s || x == e {
    }
  }

  // ── step0 THEN step1 THEN … ───────────────────────────────────────────────

  function LinearState(steps: seq<string>, i: nat): State
    requires i < |steps|
  {
    State([Transition(steps[i], U16(i + 1))], [])
  }

  function Linear(steps: seq<string>): Nfa {
    Nfa(seq(|steps|, i requires 0 <= i < |steps| => LinearState(steps, i)) + [DEAD_END],
        U16(|steps|), Elements(steps), StepTable(|steps|))
  }

  method LinearNfa(steps: seq<string>) returns (nfa: Nfa)
    ensures nfa == Linear(steps)
  {
    var states: seq<State> := [];
    var relevant: set<string> := {};
    for i := 0 to |steps|
      invariant states == seq(i, k requires 0 <= k < i => LinearState(steps, k))
      invariant relevant == Elements(steps[..i])
    {
      assert steps[..i + 1] == steps[..i] + [steps[i]];
      ElementsAppend(steps[..i], steps[i]);
      relevant := relevant + {steps[i]};
      states := states + [State([Transition(steps[i], U16(i + 1))], [])];
    }
    assert steps[..|steps|] == steps;
    nfa := Nfa(states + [DEAD_END], U16(|steps|), relevant, StepTable(|steps|));
  }

  lemma TargetsOfOne(nfa: Nfa, k: nat, e: string, t: Transition)
    requires k < |nfa.states| && nfa.states[k].transitions == [t]
    ensures Targets(nfa, k, e) == if e == t.eventType then {t.target} else {}
  {
    assert t in nfa.states[k].transitions;
  }

  lemma LinearIsChain(steps: seq<string>)
    requires 1 <= |steps| <= 255
    ensures Chain(Linear(steps), {steps[0]}, {}, steps)
  {
    var nfa := Linear(steps);
    forall k, e | 0 <= k < |steps| ensures Targets(nfa, k, e) == if e == steps[k] then {k + 1} else {} {
      TargetsOfOne(nfa, k, e, Transition(steps[k], U16(k + 1)));
    }
    forall k, e | 1 <= k < |steps| ensures ChainState(nfa, {}, steps, k, e) {
    }
  }

  /** For 1 to 255 steps, a linear automaton completes exactly on the supersequences of its steps. */
  lemma LinearLanguage(steps: seq<string>, es: seq<string>)
    requires 1 <= |steps| <= 255
    ensures Run(Linear(steps), es) == Completed <==> IsSubseq(steps, es)
    ensures Run(Linear(steps), es) != Panicked
  {
    LinearIsChain(steps);
    ChainRun(Linear(steps), {steps[0]}, {}, steps, es);
    ReachIsSubseq({steps[0]}, steps, |steps|, es);
    assert [steps[0]] + steps[1..|steps|] == steps;
  }

  /** Each state moves on to the next one on its own step, and the step table is too short. */
  ghost predicate ShortTable(nfa: Nfa, steps: seq<string>) {
    && 0 < |nfa.stateToStep| < |steps| && |nfa.stateToStep| < |nfa.states|
    && (forall k :: 0 <= k < |nfa.stateToStep| ==>
      steps[k] in nfa.relevant && k + 1 in Targets(nfa, k, steps[k]) && steps[k] !in nfa.states[k].poison)
  }

  lemma ShortTableStep(nfa: Nfa, steps: seq<string>, j: nat, occupied: set<nat>)
    requires ShortTable(nfa, steps) && j < |nfa.stateToStep|
    requires nfa.accept !in occupied && (j > 0 ==> j in occupied)
    ensures var r := Step(nfa, occupied, steps[j]);
      r.Running? ==> j + 1 < |nfa.stateToStep| && j + 1 in r.occupied && nfa.accept !in r.occupied
  {
    var e := steps[j];
    assert j + 1 in Targets(nfa, j, e);
    if j > 0 {
      var kept := Survivors(nfa, occupied, e);
      assert j in kept && j + 1 in Moved(nfa, kept, e);
    }
    assert j + 1 in Advance(nfa, occupied, e);
  }

  /** Feeding such an automaton its own steps walks it off the end of the table. */
  lemma {:induction false} ShortTableRun(nfa: Nfa, steps: seq<string>, j: nat)
    requires ShortTable(nfa, steps) && j <= |nfa.stateToStep|
    ensures var r := Run(nfa, steps[..j]);
      r.Running? ==> j < |nfa.stateToStep| && nfa.accept !in r.occupied && (j > 0 ==> j in r.occupied)
  {
    hide Step;
    if j > 0 {
      ShortTableRun(nfa, steps, j - 1);
      assert steps[..j][..j - 1] == steps[..j - 1];
      var before := Run(nfa, steps[..j - 1]);
      if before.Running? {
        ShortTableStep(nfa, steps, j - 1, before.occupied);
      }
    }
  }

  /** So it either completes on fewer events than it has steps, or panics on its own steps. */
  lemma ShortTableFails(nfa: Nfa, steps: seq<string>) returns (es: seq<string>)
    requires ShortTable(nfa, steps)
    ensures if Run(nfa, es) == Completed then |es| < |steps| else es == steps
  {
    var m := |nfa.stateToStep|;
    ShortTableRun(nfa, steps, m);
    es := steps[..m];
    if Run(nfa, es) != Completed {
      OverStaysOver(nfa, steps, m);
      es := steps;
    }
  }

  lemma {:induction false} OverStaysOver(nfa: Nfa, es: seq<string>, k: nat)
    requires nfa.states != [] && k <= |es| && !Run(nfa, es[..k]).Running?
    ensures Run(nfa, es) == Run(nfa, es[..k])
  {
    if k == |es| {
      assert es[..k] == es;
    } else {
      assert es[..|es| - 1][..k] == es[..k];
      OverStaysOver(nfa, es[..|es| - 1], k);
    }
  }

  lemma {:induction false} SubseqSelf(p: seq<string>)
    ensures IsSubseq(p, p)
  {
    if p != [] {
      SubseqSelf(p[..|p| - 1]);
    }
  }

  ghost predicate LinearRight(steps: seq<string>) {
    forall es :: Run(Linear(steps), es) == Completed <==> IsSubseq(steps, es)
  }

  /** The linear builder is right for all event lists exactly when it has 1 to 255 steps: without
      steps nothing ever completes, and from 256 on the 8-bit step table is too short. */
  lemma LinearIff(steps: seq<string>)
    ensures LinearRight(steps) <==> 1 <= |steps| <= 255
  {
    hide Run;
    if 1 <= |steps| <= 255 {
      forall es ensures Run(Linear(steps), es) == Completed <==> IsSubseq(steps, es) {
        LinearLanguage(steps, es);
      }
    } else {
      LinearWrong(steps);
    }
  }

  lemma LinearWrong(steps: seq<string>)
    requires |steps| == 0 || |steps| > 255
    ensures !LinearRight(steps)
  {
    var nfa := Linear(steps);
    if steps == [] {
      assert Run(nfa, []) != Completed && IsSubseq(steps, []);
    } else {
      LinearShortTable(steps);
      var es := ShortTableFails(nfa, steps);
      hide Linear;
      hide Run;
      if Run(nfa, es) == Completed {
        if IsSubseq(steps, es) {
          SubseqShorter(steps, es);
        }
      } else {
        SubseqSelf(steps);
      }
      assert !(Run(nfa, es) == Completed <==> IsSubseq(steps, es));
    }
  }

  lemma LinearShortTable(steps: seq<string>)
    requires |steps| > 255
    ensures ShortTable(Linear(steps), steps)
  {
    var nfa := Linear(steps);
    forall k | 0 <= k < |nfa.stateToStep| ensures k + 1 in Targets(nfa, k, steps[k]) {
      LinearTargets(steps, k);
    }
  }

  lemma LinearTargets(steps: seq<string>, k: nat)
    requires k < |steps| && k < 0xFFFF
    ensures k + 1 in Targets(Linear(steps), k, steps[k])
  {
    TargetsOfOne(Linear(steps), k, steps[k], Transition(steps[k], U16(k + 1)));
  }

  // ── (step0 OR step0_alt) THEN step1 THEN … ────────────────────────────────

  function AltType(steps: seq<string>): string
    requires steps != []
  {
    steps[0] + "_alt"
  }

  function Alternation(steps: seq<string>): Nfa
    requires |steps| >= 3
  {
    var start := State([Transition(steps[0], 1), Transition(AltType(steps), 1)], []);
    Nfa([start] + seq(|steps| - 1, i requires 0 <= i < |steps| - 1 => LinearState(steps, i + 1)) + [DEAD_END],
        U16(|steps|), Elements(steps) + {AltType(steps)}, StepTable(|steps|))
  }

  method GeneralNfaAlternation(steps: seq<string>) returns (nfa: Nfa)
    requires |steps| >= 3
    ensures nfa == Alternation(steps)
  {
    var alt := steps[0] + "_alt";
    var relevant := {steps[0], alt};
    var states := [State([Transition(steps[0], 1), Transition(alt, 1)], [])];
    for i := 0 to |steps| - 1
      invariant states == [State([Transition(steps[0], 1), Transition(alt, 1)], [])]
        + seq(i, k requires 0 <= k < i => LinearState(steps, k + 1))
      invariant relevant == Elements(steps[..i + 1]) + {alt}
    {
      assert steps[..i + 2] == steps[..i + 1] + [steps[i + 1]];
      ElementsAppend(steps[..i + 1], steps[i + 1]);
      relevant := relevant + {steps[i + 1]};
      states := states + [State([Transition(steps[i + 1], U16(i + 2))], [])];
    }
    assert steps[..|steps| - 1 + 1] == steps;
    nfa := Nfa(states + [DEAD_END], U16(|steps|), relevant, StepTable(|steps|));
  }

  lemma AlternationTargets(steps: seq<string>, e: string)
    requires |steps| >= 3
    ensures Targets(Alternation(steps), 0, e) == if e in {steps[0], AltType(steps)} then {1} else {}
  {
    var ts := Alternation(steps).states[0].transitions;
    assert ts == [Transition(steps[0], 1), Transition(AltType(steps), 1)];
    assert ts[0] in ts && ts[1] in ts;
  }

  /** For up to 255 steps the alternation completes on the union of two linear languages. */
  lemma AlternationLanguage(steps: seq<string>, es: seq<string>)
    requires 3 <= |steps| <= 255
    ensures Run(Alternation(steps), es) == Completed <==>
      IsSubseq(steps, es) || IsSubseq([AltType(steps)] + steps[1..], es)
    ensures Run(Alternation(steps), es) != Panicked
  {
    var nfa, first := Alternation(steps), {steps[0], AltType(steps)};
    forall e ensures Targets(nfa, 0, e) == if e in first then {1} else {} {
      AlternationTargets(steps, e);
    }
    forall k, e | 1 <= k < |steps| ensures ChainState(nfa, {}, steps, k, e) {
      TargetsOfOne(nfa, k, e, Transition(steps[k], U16(k + 1)));
    }
    assert Chain(nfa, first, {}, steps);
    ChainRun(nfa, first, {}, steps, es);
    ReachIsSubseq(first, steps, |steps|, es);
    assert [steps[0]] + steps[1..|steps|] == steps;
    assert [AltType(steps)] + steps[1..|steps|] == [AltType(steps)] + steps[1..];
  }

  ghost predicate AlternationRight(steps: seq<string>)
    requires |steps| >= 3
  {
    forall es ::
      Run(Alternation(steps), es) == Completed <==> IsSubseq(steps, es) || IsSubseq([AltType(steps)] + steps[1..], es)
  }

  /** And for no longer pattern. */
  lemma AlternationIff(steps: seq<string>)
    requires |steps| >= 3
    ensures AlternationRight(steps) <==> |steps| <= 255
  {
    hide Run;
    if |steps| <= 255 {
      forall es ensures Run(Alternation(steps), es) == Completed <==>
          IsSubseq(steps, es) || IsSubseq([AltType(steps)] + steps[1..], es)
      {
        AlternationLanguage(steps, es);
      }
    } else {
      AlternationWrong(steps);
    }
  }

  lemma AlternationWrong(steps: seq<string>)
    requires |steps| > 255
    ensures !AlternationRight(steps)
  {
    var nfa, other := Alternation(steps), [AltType(steps)] + steps[1..];
    AlternationShortTable(steps);
    var es := ShortTableFails(nfa, steps);
    hide Alternation;
    hide Run;
    hide IsSubseq;
    if Run(nfa, es) == Completed {
      if IsSubseq(steps, es) {
        SubseqShorter(steps, es);
      }
      if IsSubseq(other, es) {
        SubseqShorter(other, es);
      }
    } else {
      SubseqSelf(steps);
    }
    assert !(Run(nfa, es) == Completed <==> IsSubseq(steps, es) || IsSubseq(other, es));
  }

  lemma AlternationShortTable(steps: seq<string>)
    requires |steps| > 255
    ensures ShortTable(Alternation(steps), steps)
  {
    var nfa := Alternation(steps);
    forall k | 0 <= k < |nfa.stateToStep| ensures k + 1 in Targets(nfa, k, steps[k]) {
      if k == 0 {
        AlternationTargets(steps, steps[0]);
      } else {
        TargetsOfOne(nfa, k, steps[k], Transition(steps[k], U16(k + 1)));
      }
    }
  }

  // ── step0 THEN step1+ THEN step2 ──────────────────────────────────────────

  function Repetition(steps: seq<string>): Nfa
    requires |steps| >= 3
  {
    Nfa([State([Transition(steps[0], 1)], []),
         State([Transition(steps[1], 1), Transition(steps[1], 2)], []),
         State([Transition(steps[2], 3)], []),
         DEAD_END],
        3, Elements(steps), [0, 1, 2, 3])
  }

  method GeneralNfaRepetition(steps: seq<string>) returns (nfa: Nfa)
    requires |steps| >= 3
    ensures nfa == Repetition(steps)
  {
    var relevant: set<string> := {};
    for i := 0 to |steps|
      invariant relevant == Elements(steps[..i])
    {
      assert steps[..i + 1] == steps[..i] + [steps[i]];
      ElementsAppend(steps[..i], steps[i]);
      relevant := relevant + {steps[i]};
    }
    assert steps[..|steps|] == steps;
    var states := [State([Transition(steps[0], 1)], []),
                   State([Transition(steps[1], 1), Transition(steps[1], 2)], []),
                   State([Transition(steps[2], 3)], []),
                   DEAD_END];
    nfa := Nfa(states, 3, relevant, [0, 1, 2, 3]);
  }

  /** `B+` completes exactly where `B` does: the repetition automaton agrees with the linear one
      on the same three steps, whatever further steps it was given. */
  lemma RepetitionLanguage(steps: seq<string>, es: seq<string>)
    requires |steps| >= 3
    ensures Run(Repetition(steps), es) == Completed <==> IsSubseq(steps[..3], es)
    ensures Run(Repetition(steps), es) == Completed <==> Run(Linear(steps[..3]), es) == Completed
    ensures Run(Repetition(steps), es) != Panicked
  {
    var nfa, three := Repetition(steps), steps[..3];
    forall e ensures Targets(nfa, 0, e) == if e in {three[0]} then {1} else {} {
      TargetsOfOne(nfa, 0, e, Transition(steps[0], 1));
    }
    forall k, e | 1 <= k < 3 ensures ChainState(nfa, {}, three, k, e) {
      if k == 1 {
        var ts := nfa.states[1].transitions;
        assert ts[0] in ts && ts[1] in ts;
      } else {
        TargetsOfOne(nfa, 2, e, Transition(steps[2], 3));
      }
    }
    assert Chain(nfa, {three[0]}, {}, three);
    ChainRun(nfa, {three[0]}, {}, three, es);
    ReachIsSubseq({three[0]}, three, 3, es);
    assert [three[0]] + three[1..3] == three;
    LinearLanguage(three, es);
  }

  // ── step0 THEN step1 (WITHOUT poison) THEN … ──────────────────────────────

  function NegationState(steps: seq<string>, poison: string, i: nat): State
    requires i < |steps|
  {
    State([Transition(steps[i], U16(i + 1))], if i == 1 then [poison] else [])
  }

  function Negation(steps: seq<string>, poison: string): Nfa
    requires |steps| >= 2
  {
    Nfa(seq(|steps|, i requires 0 <= i < |steps| => NegationState(steps, poison, i)) + [DEAD_END],
        U16(|steps|), Elements(steps) + {poison}, StepTable(|steps|))
  }

  method LinearNfaWithNegation(steps: seq<string>, poison: string) returns (nfa: Nfa)
    requires |steps| >= 2
    ensures nfa == Negation(steps, poison)
  {
    var states: seq<State> := [];
    var relevant: set<string> := {};
    for i := 0 to |steps|
      invariant states == seq(i, k requires 0 <= k < i => NegationState(steps, poison, k))
      invariant relevant == Elements(steps[..i]) + if i > 1 then {poison} else {}
    {
      assert steps[..i + 1] == steps[..i] + [steps[i]];
      ElementsAppend(steps[..i], steps[i]);
      relevant := relevant + {steps[i]};
      var poisonTransitions: seq<string> := [];
      if i == 1 {
        relevant := relevant + {poison};
        poisonTransitions := [poison];
      }
      states := states + [State([Transition(steps[i], U16(i + 1))], poisonTransitions)];
    }
    assert steps[..|steps|] == steps;
    nfa := Nfa(states + [DEAD_END], U16(|steps|), relevant, StepTable(|steps|));
  }

  /** No poison event after position `i` and up to position `j`. */
  predicate Unpoisoned(es: seq<string>, poison: string, i: nat, j: nat)
    requires j < |es|
  {
    forall m :: i < m <= j ==> es[m] != poison
  }

  /** The first step occurs, and no poison has come since. */
  predicate Armed(steps: seq<string>, poison: string, es: seq<string>)
    requires steps != []
  {
    exists i :: 0 <= i < |es| && es[i] == steps[0] && Unpoisoned(es, poison, i, |es| - 1)
  }

  predicate Cut(steps: seq<string>, poison: string, k: nat, es: seq<string>, i: nat, j: nat)
    requires 2 <= k <= |steps|
  {
    && i < j < |es| && es[i] == steps[0] && es[j] == steps[1] && Unpoisoned(es, poison, i, j)
    && IsSubseq(steps[2..k], es[j + 1..])
  }

  /** What the pattern means: the first two steps occur with no poison in between, the second not
      being poison itself, and the other steps follow in order. */
  predicate NegMatch(steps: seq<string>, poison: string, k: nat, es: seq<string>)
    requires 2 <= k <= |steps|
  {
    exists i, j :: 0 <= i < j < |es| && Cut(steps, poison, k, es, i, j)
  }

  lemma {:induction false} ReachArmed(steps: seq<string>, poison: string, es: seq<string>)
    requires |steps| >= 1
    ensures Reach({steps[0]}, {poison}, steps, 1, es) <==> Armed(steps, poison, es)
  {
    if es != [] {
      var rest, e := es[..|es| - 1], es[|es| - 1];
      ReachArmed(steps, poison, rest);
      if Armed(steps, poison, rest) && e != poison {
        var i :| 0 <= i < |rest| && rest[i] == steps[0] && Unpoisoned(rest, poison, i, |rest| - 1);
        assert es[i] == steps[0] && Unpoisoned(es, poison, i, |es| - 1);
      }
      if e == steps[0] {
        assert Unpoisoned(es, poison, |es| - 1, |es| - 1);
      }
      if Armed(steps, poison, es) && e != steps[0] {
        var i :| 0 <= i < |es| && es[i] == steps[0] && Unpoisoned(es, poison, i, |es| - 1);
        assert rest[i] == steps[0] && Unpoisoned(rest, poison, i, |rest| - 1);
      }
    }
  }

  lemma {:induction false} ReachNegMatch(steps: seq<string>, poison: string, k: nat, es: seq<string>)
    requires 2 <= k <= |steps|
    ensures Reach({steps[0]}, {poison}, steps, k, es) <==> NegMatch(steps, poison, k, es)
  {
    if es != [] {
      var rest, e := es[..|es| - 1], es[|es| - 1];
      ReachNegMatch(steps, poison, k, rest);
      if k == 2 {
        ReachArmed(steps, poison, rest);
      } else {
        ReachNegMatch(steps, poison, k - 1, rest);
      }
      NegMatchStep(steps, poison, k, es);
    }
  }

  lemma NegMatchStep(steps: seq<string>, poison: string, k: nat, es: seq<string>)
    requires 2 <= k <= |steps| && es != []
    ensures var rest, e := es[..|es| - 1], es[|es| - 1];
      NegMatch(steps, poison, k, es) <==>
        NegMatch(steps, poison, k, rest)
        || (e == steps[k - 1] && if k == 2 then e != poison && Armed(steps, poison, rest) else NegMatch(steps, poison, k - 1, rest))
  {
    var rest, e := es[..|es| - 1], es[|es| - 1];
    hide IsSubseq;
    hide Cut;
    if NegMatch(steps, poison, k, es) {
      var i, j :| 0 <= i < j < |es| && Cut(steps, poison, k, es, i, j);
      if j == |es| - 1 {
        CutAtEnd(steps, poison, k, es, i);
      } else {
        ShrinkCut(steps, poison, k, es, i, j);
      }
    }
    if NegMatch(steps, poison, k, rest) {
      var i, j :| 0 <= i < j < |rest| && Cut(steps, poison, k, rest, i, j);
      ExtendCut(steps, poison, k, es, i, j);
    }
    if e == steps[k - 1] {
      if k == 2 && e != poison && Armed(steps, poison, rest) {
        var i :| 0 <= i < |rest| && rest[i] == steps[0] && Unpoisoned(rest, poison, i, |rest| - 1);
        NewCut(steps, poison, es, i);
      }
      if k > 2 && NegMatch(steps, poison, k - 1, rest) {
        var i, j :| 0 <= i < j < |rest| && Cut(steps, poison, k - 1, rest, i, j);
        LengthenCut(steps, poison, k, es, i, j);
      }
    }
  }

  lemma CutAtEnd(steps: seq<string>, poison: string, k: nat, es: seq<string>, i: nat)
    requires 2 <= k <= |steps| && es != [] && Cut(steps, poison, k, es, i, |es| - 1)
    ensures k == 2 && es[|es| - 1] == steps[1] != poison && Armed(steps, poison, es[..|es| - 1])
  {
    var rest, j := es[..|es| - 1], |es| - 1;
    assert es[j + 1..] == [];
    assert rest[i] == steps[0] && Unpoisoned(rest, poison, i, |rest| - 1);
  }

  lemma NewCut(steps: seq<string>, poison: string, es: seq<string>, i: nat)
    requires 2 <= |steps| && es != [] && i < |es| - 1 && es[i] == steps[0]
    requires Unpoisoned(es[..|es| - 1], poison, i, |es| - 2) && es[|es| - 1] == steps[1] != poison
    ensures Cut(steps, poison, 2, es, i, |es| - 1)
  {
    var rest := es[..|es| - 1];
    forall m | i < m < |es| ensures es[m] != poison {
      assert m < |es| - 1 ==> es[m] == rest[m];
    }
  }

  lemma ShrinkCut(steps: seq<string>, poison: string, k: nat, es: seq<string>, i: nat, j: nat)
    requires 2 <= k <= |steps| && j < |es| - 1 && Cut(steps, poison, k, es, i, j)
    ensures var rest := es[..|es| - 1];
      Cut(steps, poison, k, rest, i, j)
      || (k > 2 && es[|es| - 1] == steps[k - 1] && Cut(steps, poison, k - 1, rest, i, j))
  {
    var rest, tail := es[..|es| - 1], es[j + 1..];
    assert tail[..|tail| - 1] == rest[j + 1..];
    assert Unpoisoned(rest, poison, i, j);
    if !IsSubseq(steps[2..k], rest[j + 1..]) {
      assert k > 2 && steps[2..k][..k - 3] == steps[2..k - 1];
    }
  }

  lemma LengthenCut(steps: seq<string>, poison: string, k: nat, es: seq<string>, i: nat, j: nat)
    requires 2 < k <= |steps| && es != [] && es[|es| - 1] == steps[k - 1]
    requires Cut(steps, poison, k - 1, es[..|es| - 1], i, j)
    ensures Cut(steps, poison, k, es, i, j)
  {
    var rest, tail := es[..|es| - 1], es[j + 1..];
    assert tail[..|tail| - 1] == rest[j + 1..];
    assert Unpoisoned(es, poison, i, j) by {
      assert Unpoisoned(rest, poison, i, j);
    }
    assert steps[2..k][..k - 3] == steps[2..k - 1];
  }

  lemma ExtendCut(steps: seq<string>, poison: string, k: nat, es: seq<string>, i: nat, j: nat)
    requires 2 <= k <= |steps| && es != [] && Cut(steps, poison, k, es[..|es| - 1], i, j)
    ensures Cut(steps, poison, k, es, i, j)
  {
    var rest, tail := es[..|es| - 1], es[j + 1..];
    assert tail[..|tail| - 1] == rest[j + 1..] && Unpoisoned(es, poison, i, j) by {
      assert Unpoisoned(rest, poison, i, j);
    }
  }

  lemma NegationIsChain(steps: seq<string>, poison: string)
    requires 2 <= |steps| <= 255
    ensures Chain(Negation(steps, poison), {steps[0]}, {poison}, steps)
  {
    var nfa := Negation(steps, poison);
    forall k, e | 0 <= k < |steps| ensures Targets(nfa, k, e) == if e == steps[k] then {k + 1} else {} {
      TargetsOfOne(nfa, k, e, Transition(steps[k], U16(k + 1)));
    }
    forall k, e | 1 <= k < |steps| ensures ChainState(nfa, {poison}, steps, k, e) {
    }
  }

  /** For up to 255 steps, the automaton with a WITHOUT clause completes exactly on the event
      lists that contain the pattern. */
  lemma NegationLanguage(steps: seq<string>, poison: string, es: seq<string>)
    requires 2 <= |steps| <= 255
    ensures Run(Negation(steps, poison), es) == Completed <==> NegMatch(steps, poison, |steps|, es)
    ensures Run(Negation(steps, poison), es) != Panicked
  {
    NegationIsChain(steps, poison);
    ChainRun(Negation(steps, poison), {steps[0]}, {poison}, steps, es);
    ReachNegMatch(steps, poison, |steps|, es);
  }

  ghost predicate NegationRight(steps: seq<string>, poison: string)
    requires |steps| >= 2
  {
    forall es :: Run(Negation(steps, poison), es) == Completed <==> NegMatch(steps, poison, |steps|, es)
  }

  /** Longer patterns go wrong, except that one forbidding its own second step can never match and
      never does, unless the accepting state, a 16-bit number, wraps to state 1. */
  lemma NegationIff(steps: seq<string>, poison: string)
    requires |steps| >= 2
    ensures NegationRight(steps, poison) <==> |steps| <= 255 || (poison == steps[1] && |steps| % 0x1_0000 != 1)
  {
    hide Run;
    hide NegMatch;
    if |steps| <= 255 {
      forall es ensures Run(Negation(steps, poison), es) == Completed <==> NegMatch(steps, poison, |steps|, es) {
        NegationLanguage(steps, poison, es);
      }
    } else if poison != steps[1] {
      NegationWrong(steps, poison);
    } else if |steps| % 0x1_0000 == 1 {
      NegationWraps(steps);
    } else {
      forall es ensures Run(Negation(steps, poison), es) == Completed <==> NegMatch(steps, poison, |steps|, es) {
        NegationNever(steps, es);
        NeverNegMatch(steps, es);
      }
    }
  }

  lemma NeverNegMatch(steps: seq<string>, es: seq<string>)
    requires |steps| >= 2
    ensures !NegMatch(steps, steps[1], |steps|, es)
  {
  }

  lemma NegationTargets(steps: seq<string>, poison: string, k: nat, e: string)
    requires 2 <= |steps| && k < |steps|
    ensures Targets(Negation(steps, poison), k, e) == if e == steps[k] then {U16(k + 1)} else {}
  {
    TargetsOfOne(Negation(steps, poison), k, e, Transition(steps[k], U16(k + 1)));
  }

  /** With the second step forbidden, no candidate gets past state 1. */
  lemma {:induction false} NegationNever(steps: seq<string>, es: seq<string>)
    requires |steps| > 255 && |steps| % 0x1_0000 != 1
    ensures var r := Run(Negation(steps, steps[1]), es);
      r == Panicked || (r.Running? && r.occupied <= {1})
  {
    if es != [] {
      NegationNever(steps, es[..|es| - 1]);
      var r := Run(Negation(steps, steps[1]), es[..|es| - 1]);
      if r.Running? {
        NegationNeverStep(steps, r.occupied, es[|es| - 1]);
      }
    }
  }

  lemma NegationNeverStep(steps: seq<string>, occupied: set<nat>, e: string)
    requires |steps| > 255 && |steps| % 0x1_0000 != 1 && occupied <= {1}
    ensures var r := Step(Negation(steps, steps[1]), occupied, e);
      r == Panicked || (r.Running? && r.occupied <= {1})
  {
    var nfa := Negation(steps, steps[1]);
    NegationTargets(steps, steps[1], 0, e);
    NegationTargets(steps, steps[1], 1, e);
    var kept := Survivors(nfa, occupied, e);
    if 1 in kept {
      assert nfa.states[1].poison == [steps[1]];
      assert Targets(nfa, 1, e) == {};
    }
    assert Moved(nfa, kept, e) == {};
    assert Advance(nfa, occupied, e) <= {1};
  }

  lemma NegationWraps(steps: seq<string>)
    requires |steps| > 255 && |steps| % 0x1_0000 == 1
    ensures !NegationRight(steps, steps[1])
  {
    var nfa, es := Negation(steps, steps[1]), [steps[0]];
    NegationTargets(steps, steps[1], 0, steps[0]);
    assert es[..0] == [] && Run(nfa, []) == Running({});
    assert 1 in Advance(nfa, {}, steps[0]);
    assert Run(nfa, es) == Completed;
    assert !NegMatch(steps, steps[1], |steps|, es);
  }

  lemma NegationWrong(steps: seq<string>, poison: string)
    requires |steps| > 255 && poison != steps[1]
    ensures !NegationRight(steps, poison)
  {
    var nfa := Negation(steps, poison);
    forall k | 0 <= k < |nfa.stateToStep| ensures k + 1 in Targets(nfa, k, steps[k]) {
      NegationTargets(steps, poison, k, steps[k]);
    }
    var es := ShortTableFails(nfa, steps);
    hide Negation;
    hide Run;
    if Run(nfa, es) == Completed {
      NegMatchLength(steps, poison, es);
    } else {
      SubseqSelf(steps[2..]);
      assert steps[2..|steps|] == steps[2..];
      assert Cut(steps, poison, |steps|, steps, 0, 1);
    }
    assert !(Run(nfa, es) == Completed <==> NegMatch(steps, poison, |steps|, es));
  }

  lemma NegMatchLength(steps: seq<string>, poison: string, es: seq<string>)
    requires 2 <= |steps| && |es| < |steps|
    ensures !NegMatch(steps, poison, |steps|, es)
  {
    if NegMatch(steps, poison, |steps|, es) {
      var i, j :| 0 <= i < j < |es| && Cut(steps, poison, |steps|, es, i, j);
      SubseqShorter(steps[2..|steps|], es[j + 1..]);
      assert false;
    }
  }

  // ── The step table ────────────────────────────────────────────────────────

  predicate Leads(nfa: Nfa, from: nat, to: nat) {
    from < |nfa.states| && exists t <- nfa.states[from].transitions :: t.target == to
  }

  /** Step `i` of the path follows a transition. */
  predicate WalkStep(nfa: Nfa, path: seq<nat>, i: nat)
    requires i + 1 < |path|
  {
    Leads(nfa, path[i], path[i + 1])
  }

  /** A walk through the automaton from its start. */
  predicate Walk(nfa: Nfa, path: seq<nat>) {
    path != [] && path[0] == 0 && forall i :: 0 <= i < |path| - 1 ==> WalkStep(nfa, path, i)
  }

  /** State `k` leads to the next one and none further. */
  predicate Onward(nfa: Nfa, k: nat)
    requires k < |nfa.states|
  {
    Leads(nfa, k, k + 1) && forall t <- nfa.states[k].transitions :: t.target <= k + 1
  }

  /** Every state but the last leads on, and is its own table entry. */
  predicate OneByOne(nfa: Nfa) {
    && nfa.states != [] && |nfa.stateToStep| <= |nfa.states| && nfa.states[|nfa.states| - 1] == DEAD_END
    && (forall k :: 0 <= k < |nfa.states| - 1 ==> Onward(nfa, k))
    && forall k :: 0 <= k < |nfa.stateToStep| ==> nfa.stateToStep[k] == k
  }

  lemma {:induction false} WalkEnds(nfa: Nfa, path: seq<nat>)
    requires OneByOne(nfa) && Walk(nfa, path)
    ensures path[|path| - 1] < |path| && path[|path| - 1] < |nfa.states|
  {
    if |path| > 1 {
      var before := path[..|path| - 1];
      forall i | 0 <= i < |before| - 1 ensures WalkStep(nfa, before, i) {
        assert WalkStep(nfa, path, i);
      }
      WalkEnds(nfa, before);
      assert WalkStep(nfa, path, |path| - 2);
      var from := path[|path| - 2];
      assert from < |nfa.states| - 1 ==> Onward(nfa, from);
    }
  }

  lemma BuildersOneByOne(steps: seq<string>, poison: string, nfa: Nfa)
    requires 3 <= |steps| < 0x1_0000
    requires nfa in {Linear(steps), Negation(steps, poison), Alternation(steps), Repetition(steps)}
    ensures OneByOne(nfa)
  {
    if nfa == Repetition(steps) {
      assert Transition(steps[0], 1) in nfa.states[0].transitions;
      assert Transition(steps[1], 2) in nfa.states[1].transitions;
      assert Transition(steps[2], 3) in nfa.states[2].transitions;
      assert Onward(nfa, 0) && Onward(nfa, 1) && Onward(nfa, 2);
    } else {
      assert |nfa.states| == |steps| + 1 && nfa.stateToStep == StepTable(|steps|);
      forall k | 0 <= k < |steps| ensures Onward(nfa, k) {
        assert Transition(steps[k], k + 1) in nfa.states[k].transitions;
      }
    }
  }

  /** In the automata of every builder, for as many steps as a state number can count, the step table
      gives each state it covers its distance from the start: some walk takes that many
      transitions, and none takes fewer. */
  lemma StepsAreDistances(steps: seq<string>, poison: string, nfa: Nfa, path: seq<nat>, k: nat)
    requires 3 <= |steps| < 0x1_0000
    requires nfa in {Linear(steps), Negation(steps, poison), Alternation(steps), Repetition(steps)}
    requires Walk(nfa, path) && k < |nfa.stateToStep|
    ensures path[|path| - 1] == k ==> nfa.stateToStep[k] <= |path| - 1
    ensures exists shortest :: Walk(nfa, shortest) && shortest[|shortest| - 1] == k && nfa.stateToStep[k] == |shortest| - 1
  {
    BuildersOneByOne(steps, poison, nfa);
    WalkEnds(nfa, path);
    hide Repetition;
    hide Linear;
    hide Negation;
    hide Alternation;
    var shortest: seq<nat> := seq(k + 1, i => i);
    forall i | 0 <= i < k ensures WalkStep(nfa, shortest, i) {
      assert Onward(nfa, i);
    }
    assert Walk(nfa, shortest);
  }
}

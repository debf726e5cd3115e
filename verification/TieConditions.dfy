/** Exactly which ties cost the automaton simulator a match, and so on which it agrees with the fast path. */
module TieConditions {
  import opened Text
  import opened PatternNfa
  import opened PatternBuilders
  import opened PatternCandidates
  import opened Occurrences
  import opened StraightPatterns
  import opened StepCounter
  import opened TiedTimestamps
  import opened TiedCounter
  import opened TieLoss

  ghost predicate ExactOn(nfa: Nfa, p: Pattern, es: seq<Event>, limit: nat)
    requires WellFormed(nfa) && ValidPattern(p)
  {
    var r := Simulate(nfa, es, limit);
    r == OverLimit || (r.Matched? <==> Occurs(p, es))
  }

  /** On events at these times, whatever their types, the automaton simulator matches the pattern exactly
      when it occurs. */
  ghost predicate Lossless(nfa: Nfa, p: Pattern, ts: seq<int>)
    requires WellFormed(nfa) && ValidPattern(p)
  {
    forall es, limit :: Times(es) == ts ==> ExactOn(nfa, p, es, limit)
  }

  // ── Safe times ────────────────────────────────────────────────────────────

  lemma SafeLossless(nfa: Nfa, p: Pattern, ts: seq<int>)
    requires Runs(nfa, p) && Ordered(ts) && TieSafe(ts, |p.steps|)
    ensures ValidPattern(p) && WellFormed(nfa) && Lossless(nfa, p, ts)
  {
    RunsSize(nfa, p);
    forall es, limit | Times(es) == ts ensures ExactOn(nfa, p, es, limit) {
      SafeExact(nfa, p, es, limit);
    }
  }

  lemma SafeExact(nfa: Nfa, p: Pattern, es: seq<Event>, limit: nat)
    requires Runs(nfa, p) && Ordered(Times(es)) && TieSafe(Times(es), |p.steps|)
    ensures ValidPattern(p) && WellFormed(nfa) && ExactOn(nfa, p, es, limit)
  {
    OrderedEvents(es);
    SimulatorFinds(nfa, p, es, limit);
    TooFew(p, es);
    if |p.steps| > 2 && !(|Values(Times(es))| < |p.steps|) {
      SpacedWhenSafe(es);
    }
    hide Runs;
    hide Simulate;
    hide Spaced;
    hide Occurs;
  }

  lemma TooFew(p: Pattern, es: seq<Event>)
    requires ValidPattern(p)
    ensures |Values(Times(es))| < |p.steps| ==> !Occurs(p, es)
  {
    assert ValuesBefore(es, None) == Values(Times(es));
    OccursIff(p, es);
    if Occurs(p, es) {
      ReachTakes(p, |p.steps|, es, None);
    }
    hide Occurs;
  }

  // ── Automata that differ only in types that do not come ───────────────────

  ghost predicate SameOn(a: Nfa, b: Nfa, e: Event)
    requires a.states != [] && |a.states| == |b.states|
  {
    && (e.eventType in a.relevant <==> e.eventType in b.relevant)
    && (StartPanics(a, e.eventType) <==> StartPanics(b, e.eventType))
    && Starts(a.states[0].transitions, e) == Starts(b.states[0].transitions, e)
    && forall s :: 0 <= s < |a.states| ==> SameAt(a, b, s, e)
  }

  ghost predicate SameAt(a: Nfa, b: Nfa, s: nat, e: Event)
    requires s < |a.states| == |b.states|
  {
    && (e.eventType in a.states[s].poison <==> e.eventType in b.states[s].poison)
    && forall d :: Propagated(a.states[s].transitions, d, e) == Propagated(b.states[s].transitions, d, e)
  }

  lemma {:induction false} SameBuffer(a: Nfa, b: Nfa, ds: Deques, e: Event, s: nat)
    requires a.states != [] && |ds| == |a.states| == |b.states| && a.accept == b.accept && SameOn(a, b, e) && s <= |ds|
    ensures Buffer(a, ds, e, s) == Buffer(b, ds, e, s)
  {
    hide Propagated;
    hide Starts;
    if s > 0 {
      SameBuffer(a, b, ds, e, s - 1);
      assert SameAt(a, b, s - 1, e);
    }
  }

  lemma SameEvent(a: Nfa, b: Nfa, ds: Deques, e: Event, limit: nat)
    requires WellFormed(a) && WellFormed(b) && |ds| == |a.states| == |b.states|
    requires a.accept == b.accept && a.stateToStep == b.stateToStep && SameOn(a, b, e)
    ensures ProcessEvent(a, ds, e, limit) == ProcessEvent(b, ds, e, limit)
  {
    assert Killed(a, ds, e) == Killed(b, ds, e) by {
      forall s | 0 <= s < |ds| ensures Killed(a, ds, e)[s] == Killed(b, ds, e)[s] {
        KilledAt(a, ds, e, s);
        KilledAt(b, ds, e, s);
        assert SameAt(a, b, s, e);
      }
    }
    SameBuffer(a, b, Killed(a, ds, e), e, |ds|);
    hide Killed;
    hide Buffer;
    hide InsertAll;
    hide Starts;
    hide StartPanics;
  }

  lemma {:induction false} SameRun(a: Nfa, b: Nfa, es: seq<Event>, limit: nat)
    requires WellFormed(a) && WellFormed(b) && |a.states| == |b.states|
    requires a.accept == b.accept && a.stateToStep == b.stateToStep && forall e <- es :: SameOn(a, b, e)
    ensures Simulate(a, es, limit) == Simulate(b, es, limit)
  {
    hide ProcessEvent;
    hide SameOn;
    if es != [] {
      var before, e := es[..|es| - 1], es[|es| - 1];
      SameRun(a, b, before, limit);
      var sim := Simulate(a, before, limit);
      assert e in es;
      if sim.Live? {
        SameEvent(a, b, sim.deques, e, limit);
      }
    }
  }

  lemma NegationSame(steps: seq<string>, poison: string, e: Event)
    requires 2 <= |steps| <= 255 && e.eventType != poison
    ensures |Linear(steps).states| == |Negation(steps, poison).states| > 0
    ensures SameOn(Linear(steps), Negation(steps, poison), e)
  {
    LinearStates(steps);
    NegationStates(steps, poison);
    var a, b := Linear(steps), Negation(steps, poison);
    assert a.relevant == Elements(steps) && b.relevant == Elements(steps) + {poison} && a.stateToStep == b.stateToStep;
    hide Linear;
    hide Negation;
    hide Propagated;
    hide Starts;
    forall s | 0 <= s < |a.states| ensures SameAt(a, b, s, e) {
    }
  }

  lemma AlternationStates(steps: seq<string>)
    requires 3 <= |steps| <= 255
    ensures var a := Alternation(steps);
      && |a.states| == |steps| + 1 && a.states[|steps|] == DEAD_END && a.accept == |steps| && |a.stateToStep| == |steps| + 1
      && a.states[0] == State([Transition(steps[0], 1), Transition(AltType(steps), 1)], [])
      && a.relevant == Elements(steps) + {AltType(steps)} && a.stateToStep == Linear(steps).stateToStep
      && forall k :: 1 <= k < |steps| ==> a.states[k] == State([Transition(steps[k], k + 1)], [])
  {
    forall k | 1 <= k < |steps| ensures Alternation(steps).states[k] == State([Transition(steps[k], k + 1)], []) {
      assert Alternation(steps).states[k] == LinearState(steps, k);
    }
    hide AltType;
  }

  lemma AltDiffers(steps: seq<string>)
    requires |steps| >= 3
    ensures AltType(steps) != steps[0]
  {
    assert |AltType(steps)| == |steps[0]| + 4;
  }

  lemma TwoStarts(a: string, b: string, d: seq<Candidate>, e: Event)
    requires a != b
    ensures var ts := [Transition(a, 1), Transition(b, 1)];
      && Starts(ts, e) == (if e.eventType == a || e.eventType == b then [(1, Candidate(e.ts, e.ts))] else [])
      && (e.eventType != b ==> Propagated(ts, d, e) == Propagated([Transition(a, 1)], d, e))
  {
    var ts := [Transition(a, 1), Transition(b, 1)];
    StartsOne(a, e);
    StartsOne(b, e);
    assert ts[1..] == [Transition(b, 1)] && [Transition(b, 1)][1..] == [] && [Transition(a, 1)][1..] == [];
    hide Advanced;
  }

  lemma AlternationSame(steps: seq<string>, e: Event)
    requires 3 <= |steps| <= 255 && e.eventType != AltType(steps)
    ensures |Linear(steps).states| == |Alternation(steps).states| > 0
    ensures SameOn(Linear(steps), Alternation(steps), e)
  {
    LinearStates(steps);
    AlternationStates(steps);
    AltDiffers(steps);
    var a, b := Linear(steps), Alternation(steps);
    assert a.relevant == Elements(steps) && |a.stateToStep| == |steps| + 1;
    hide Linear;
    hide Alternation;
    hide AltType;
    StartsOne(steps[0], e);
    forall d ensures Propagated(a.states[0].transitions, d, e) == Propagated(b.states[0].transitions, d, e) {
      TwoStarts(steps[0], AltType(steps), d, e);
    }
    TwoStarts(steps[0], AltType(steps), [], e);
    hide Propagated;
    hide Starts;
    forall s | 0 <= s < |a.states| ensures SameAt(a, b, s, e) {
    }
  }

  // ── The builders' patterns ────────────────────────────────────────────────

  /** Steps in a row, of which the first may also be of type `AltType`. */
  function RowOr(steps: seq<string>): Pattern
    requires steps != []
  {
    Pattern({steps[0], AltType(steps)}, steps, seq(|steps|, _ => {}))
  }

  lemma NegationRuns(steps: seq<string>, poison: string)
    requires 2 <= |steps| <= 255
    ensures Runs(Negation(steps, poison), RowWithout(steps, poison))
  {
    NegationPattern(steps, poison);
    StraightRuns(Negation(steps, poison), steps);
    hide *;
  }

  lemma AlternationRuns(steps: seq<string>)
    requires 3 <= |steps| <= 255
    ensures Runs(Alternation(steps), RowOr(steps))
  {
    AlternationStates(steps);
    AltDiffers(steps);
    var a, p := Alternation(steps), RowOr(steps);
    hide Alternation;
    hide AltType;
    forall e ensures Starts(a.states[0].transitions, e) == if e.eventType in p.first then [(1, Candidate(e.ts, e.ts))] else [] {
      TwoStarts(steps[0], AltType(steps), [], e);
    }
    hide Starts;
    assert StartsOn(a, p.first);
    forall k | 1 <= k < |steps| ensures StateRuns(a, p, k) {
      assert p.poison[k] == {} && Elements([]) == {};
    }
  }

  lemma PlainDiffers(steps: seq<string>, es: seq<Event>, e: Event)
    requires PlainTypes(es) && e in es && steps != []
    ensures e.eventType != "x" && e.eventType != AltType(steps)
  {
    var alt := AltType(steps);
    assert alt[|steps[0]|] == '_' && alt[|steps[0]|] in alt;
    assert 'x' in "x";
  }

  /** Types that do not come neither forbid nor start anything. */
  lemma RowOccurs(steps: seq<string>, poison: string, es: seq<Event>)
    requires steps != [] && Occurs(Row(steps), es) && forall e <- es :: e.eventType != poison
    ensures Occurs(RowWithout(steps, poison), es) && Occurs(RowOr(steps), es)
  {
    var at :| |at| == |steps| && FoundAt(Row(steps), es, at);
    var p, q := RowWithout(steps, poison), RowOr(steps);
    forall k, from, to ensures Spared(p, es, k, from, to) && Spared(q, es, k, from, to) {
      assert forall i :: 0 <= i < |es| ==> es[i] in es;
    }
    hide Spared;
    hide AltType;
    assert FoundAt(p, es, at) && FoundAt(q, es, at);
  }

  // ── Exactly when ties do no harm ──────────────────────────────────────────

  ghost predicate LinearLossless(ts: seq<int>, n: nat)
    requires 1 <= n <= 255
  {
    forall steps :: |steps| == n ==> LosslessOn(Linear(steps), Row(steps), ts)
  }

  ghost predicate NegationLossless(ts: seq<int>, n: nat)
    requires 2 <= n <= 255
  {
    forall steps, poison :: |steps| == n ==> LosslessOn(Negation(steps, poison), RowWithout(steps, poison), ts)
  }

  ghost predicate AlternationLossless(ts: seq<int>, n: nat)
    requires 3 <= n <= 255
  {
    forall steps :: |steps| == n ==> LosslessOn(Alternation(steps), RowOr(steps), ts)
  }

  /** Every automaton that runs a pattern of `n` steps, whatever is forbidden and wherever. */
  ghost predicate AllLossless(ts: seq<int>, n: nat) {
    forall nfa, p :: Runs(nfa, p) && |p.steps| == n ==> LosslessOn(nfa, p, ts)
  }

  ghost predicate LosslessOn(nfa: Nfa, p: Pattern, ts: seq<int>) {
    WellFormed(nfa) && ValidPattern(p) && Lossless(nfa, p, ts)
  }

  /** Ties do no harm exactly when the pattern has at most two steps, or the times are fewer than its
      steps, or none after the second smallest occurs twice: for all patterns of `n` steps together, and
      already for the linear ones. */
  lemma TiesIff(ts: seq<int>, n: nat)
    requires 1 <= n <= 255 && Ordered(ts)
    ensures AllLossless(ts, n) <==> TieSafe(ts, n)
    ensures LinearLossless(ts, n) <==> TieSafe(ts, n)
  {
    if TieSafe(ts, n) {
      AllSafe(ts, n);
    } else {
      var es, limit := Lossy(ts, n);
      LinearLossy(StepNames(n), ts, es, limit);
    }
    hide *;
  }

  lemma AllSafe(ts: seq<int>, n: nat)
    requires 1 <= n <= 255 && Ordered(ts) && TieSafe(ts, n)
    ensures AllLossless(ts, n) && LinearLossless(ts, n)
  {
    hide Runs;
    hide Lossless;
    hide TieSafe;
    hide Linear;
    forall nfa, p | Runs(nfa, p) && |p.steps| == n ensures LosslessOn(nfa, p, ts) {
      SafeLossless(nfa, p, ts);
    }
    forall steps | |steps| == n ensures LosslessOn(Linear(steps), Row(steps), ts) {
      LinearRuns(steps);
      SafeLossless(Linear(steps), Row(steps), ts);
    }
  }

  lemma LinearLossy(steps: seq<string>, ts: seq<int>, es: seq<Event>, limit: nat)
    requires 1 <= |steps| <= 255 && Times(es) == ts && Occurs(Row(steps), es)
    requires WellFormed(Linear(steps)) && Simulate(Linear(steps), es, limit).Live?
    ensures !AllLossless(ts, |steps|) && !LinearLossless(ts, |steps|)
  {
    LinearRuns(steps);
    Inexact(Linear(steps), Row(steps), es, limit);
    hide Runs;
    hide Linear;
    hide ExactOn;
    hide Simulate;
    hide Occurs;
    assert !LosslessOn(Linear(steps), Row(steps), ts);
    hide LosslessOn;
    hide Lossless;
    assert Runs(Linear(steps), Row(steps)) && Row(steps).steps == steps;
  }

  /** And for the patterns with a WITHOUT clause on the second step. */
  lemma NegationTiesIff(ts: seq<int>, n: nat)
    requires 2 <= n <= 255 && Ordered(ts)
    ensures NegationLossless(ts, n) <==> TieSafe(ts, n)
  {
    if TieSafe(ts, n) {
      forall steps, poison | |steps| == n ensures LosslessOn(Negation(steps, poison), RowWithout(steps, poison), ts) {
        NegationRuns(steps, poison);
        SafeLossless(Negation(steps, poison), RowWithout(steps, poison), ts);
      }
    } else {
      var es, limit := Lossy(ts, n);
      NegationLossy(StepNames(n), es, limit);
      assert !LosslessOn(Negation(StepNames(n), "x"), RowWithout(StepNames(n), "x"), ts);
    }
    hide *;
  }

  lemma NegationLossy(steps: seq<string>, es: seq<Event>, limit: nat)
    requires 2 <= |steps| <= 255 && Occurs(Row(steps), es) && PlainTypes(es)
    requires WellFormed(Linear(steps)) && Simulate(Linear(steps), es, limit).Live?
    ensures WellFormed(Negation(steps, "x")) && !ExactOn(Negation(steps, "x"), RowWithout(steps, "x"), es, limit)
  {
    forall e <- es ensures e.eventType != "x" {
      PlainDiffers(steps, es, e);
    }
    RowOccurs(steps, "x", es);
    forall e <- es
      ensures |Linear(steps).states| == |Negation(steps, "x").states| > 0 && SameOn(Linear(steps), Negation(steps, "x"), e)
    {
      NegationSame(steps, "x", e);
    }
    LinearRuns(steps);
    NegationRuns(steps, "x");
    RunsSize(Linear(steps), Row(steps));
    RunsSize(Negation(steps, "x"), RowWithout(steps, "x"));
    assert Linear(steps).stateToStep == Negation(steps, "x").stateToStep;
    hide *;
    RowSteps(steps, "x");
    SameRun(Linear(steps), Negation(steps, "x"), es, limit);
    Inexact(Negation(steps, "x"), RowWithout(steps, "x"), es, limit);
  }

  lemma RowSteps(steps: seq<string>, poison: string)
    requires steps != []
    ensures Row(steps).steps == RowWithout(steps, poison).steps == RowOr(steps).steps == steps
  {
  }

  lemma Inexact(nfa: Nfa, p: Pattern, es: seq<Event>, limit: nat)
    requires WellFormed(nfa) && ValidPattern(p) && Simulate(nfa, es, limit).Live? && Occurs(p, es)
    ensures !ExactOn(nfa, p, es, limit)
  {
  }

  /** And for the alternations. */
  lemma AlternationTiesIff(ts: seq<int>, n: nat)
    requires 3 <= n <= 255 && Ordered(ts)
    ensures AlternationLossless(ts, n) <==> TieSafe(ts, n)
  {
    if TieSafe(ts, n) {
      forall steps | |steps| == n ensures LosslessOn(Alternation(steps), RowOr(steps), ts) {
        AlternationRuns(steps);
        SafeLossless(Alternation(steps), RowOr(steps), ts);
      }
    } else {
      var es, limit := Lossy(ts, n);
      AlternationLossy(StepNames(n), es, limit);
      assert !LosslessOn(Alternation(StepNames(n)), RowOr(StepNames(n)), ts);
    }
    hide *;
  }

  lemma AlternationLossy(steps: seq<string>, es: seq<Event>, limit: nat)
    requires 3 <= |steps| <= 255 && Occurs(Row(steps), es) && PlainTypes(es)
    requires WellFormed(Linear(steps)) && Simulate(Linear(steps), es, limit).Live?
    ensures WellFormed(Alternation(steps)) && !ExactOn(Alternation(steps), RowOr(steps), es, limit)
  {
    forall e <- es ensures e.eventType != "x" && e.eventType != AltType(steps) {
      PlainDiffers(steps, es, e);
    }
    RowOccurs(steps, "x", es);
    forall e <- es
      ensures |Linear(steps).states| == |Alternation(steps).states| > 0 && SameOn(Linear(steps), Alternation(steps), e)
    {
      AlternationSame(steps, e);
    }
    LinearRuns(steps);
    AlternationRuns(steps);
    RunsSize(Linear(steps), Row(steps));
    RunsSize(Alternation(steps), RowOr(steps));
    AlternationStates(steps);
    hide *;
    RowSteps(steps, "x");
    SameRun(Linear(steps), Alternation(steps), es, limit);
    Inexact(Alternation(steps), RowOr(steps), es, limit);
  }

  // ── Agreement with the fast path ──────────────────────────────────────────

  /** The fast path and the automaton simulator agree on all events at these times. */
  ghost predicate AgreeAt(nfa: Nfa, ts: seq<int>) {
    forall es, limit :: Times(es) == ts ==> AgreeOn(nfa, es, limit)
  }

  ghost predicate AgreeOn(nfa: Nfa, es: seq<Event>, limit: nat) {
    && WellFormed(nfa) && Countable(nfa)
    && var r := Simulate(nfa, es, limit); r == OverLimit || (r.Matched? <==> CountAll(nfa, es).Complete?)
  }

  /** On patterns on which the fast path is right, agreeing is being right. */
  lemma AgreeIsLossless(nfa: Nfa, steps: seq<string>, ts: seq<int>)
    requires Straight(nfa, steps) && (SelfBlocking(nfa, steps) || Nested(nfa, steps)) && Ordered(ts)
    ensures steps != [] && |steps| <= |nfa.states| && (AgreeAt(nfa, ts) <==> LosslessOn(nfa, PatternOf(nfa, steps), ts))
  {
    StraightSize(nfa, steps);
    StraightRuns(nfa, steps);
    StraightCountable(nfa, steps);
    forall es, limit | Times(es) == ts
      ensures ValidPattern(PatternOf(nfa, steps)) && (AgreeOn(nfa, es, limit) <==> ExactOn(nfa, PatternOf(nfa, steps), es, limit))
    {
      OrderedEvents(es);
      CountsOccurrences(nfa, steps, es);
    }
    hide Straight;
    hide Runs;
    hide ExactOn;
    hide AgreeOn;
    hide Nested;
    hide SelfBlocking;
    hide Countable;
    PatternValid(nfa, steps);
    if AgreeAt(nfa, ts) {
      assert Lossless(nfa, PatternOf(nfa, steps), ts);
    }
    if LosslessOn(nfa, PatternOf(nfa, steps), ts) {
      assert AgreeAt(nfa, ts);
    }
  }

  lemma PatternValid(nfa: Nfa, steps: seq<string>)
    requires steps != [] && |steps| <= |nfa.states|
    ensures ValidPattern(PatternOf(nfa, steps))
  {
  }

  /** So on the linear patterns of `n` steps, and on those with a WITHOUT clause on the second step, the two
      simulators agree on exactly the safe times; and there they agree on all patterns of `FastPathIff`. */
  lemma SimulatorsAgreeIff(ts: seq<int>, n: nat)
    requires 2 <= n <= 255 && Ordered(ts)
    ensures (forall steps :: |steps| == n ==> AgreeAt(Linear(steps), ts)) <==> TieSafe(ts, n)
    ensures (forall steps, poison :: |steps| == n ==> AgreeAt(Negation(steps, poison), ts)) <==> TieSafe(ts, n)
    ensures TieSafe(ts, n) ==>
      forall nfa, steps :: Straight(nfa, steps) && |steps| == n && (SelfBlocking(nfa, steps) || Nested(nfa, steps)) ==> AgreeAt(nfa, ts)
  {
    TiesIff(ts, n);
    NegationTiesIff(ts, n);
    forall steps | |steps| == n ensures AgreeAt(Linear(steps), ts) <==> LosslessOn(Linear(steps), Row(steps), ts) {
      LinearPattern(steps);
      LinearNested(steps);
      AgreeIsLossless(Linear(steps), steps, ts);
    }
    forall steps, poison | |steps| == n
      ensures AgreeAt(Negation(steps, poison), ts) <==> LosslessOn(Negation(steps, poison), RowWithout(steps, poison), ts)
    {
      NegationPattern(steps, poison);
      NegationNested(steps, poison);
      AgreeIsLossless(Negation(steps, poison), steps, ts);
    }
    if TieSafe(ts, n) {
      forall nfa, steps | Straight(nfa, steps) && |steps| == n && (SelfBlocking(nfa, steps) || Nested(nfa, steps))
        ensures AgreeAt(nfa, ts)
      {
        AgreeIsLossless(nfa, steps, ts);
        StraightRuns(nfa, steps);
        PatternSteps(nfa, steps);
        SafeLossless(nfa, PatternOf(nfa, steps), ts);
      }
    }
    hide *;
  }

  /** The smallest loss: A at 1, B at 2 and again at 3, C at 3. The steps occur at 1, 2 and 3 and the
      fast path completes, but the only candidate waiting for C has moved on to 3 with the second B. */
  lemma TiesLoseMatches() returns (limit: nat)
    ensures var steps, es := ["A", "B", "C"], [Event("A", 1), Event("B", 2), Event("B", 3), Event("C", 3)];
      && WellFormed(Linear(steps)) && Countable(Linear(steps)) && Occurs(Row(steps), es)
      && CountAll(Linear(steps), es).Complete? && Simulate(Linear(steps), es, limit).Live?
  {
    var steps, es := ["A", "B", "C"], [Event("A", 1), Event("B", 2), Event("B", 3), Event("C", 3)];
    SmallestTrap();
    assert Occurs(Row(steps), es);
    hide *;
    LinearWellFormed(steps);
    CountsLinear(steps, es);
    limit := EnoughLimit(Linear(steps), es);
    TrapRun(steps, es, 4, 2, 2, limit);
    assert es[..4] == es;
  }
}

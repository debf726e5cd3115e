/** Whatever the timestamps, the engine's candidate deques find no match that the occupancy simulator,
    which ignores timestamps, does not find as well. */
module CandidateSoundness {
  import opened Text
  import opened PatternNfa
  import opened PatternBuilders
  import opened PatternCandidates
  import opened StraightPatterns

  lemma {:induction false} AdvancedWithin(d: seq<Candidate>, ts: int, target: nat)
    ensures Sent(Advanced(d, ts, target)) <= if d == [] then {} else {target}
  {
    if d != [] {
      AdvancedWithin(d[1..], ts, target);
      var first := (target, Candidate(d[0].anchor, ts));
      SentOne(target, first.1);
      SentConcat([first], Advanced(d[1..], ts, target));
    }
  }

  lemma {:induction false} PropagatedWithin(ts: seq<Transition>, d: seq<Candidate>, e: Event)
    ensures Sent(Propagated(ts, d, e)) <= if d == [] then {} else Fired(ts, e.eventType)
  {
    if ts != [] {
      PropagatedWithin(ts[1..], d, e);
      AdvancedWithin(d, e.ts, ts[0].target);
      FiredCons(ts, e.eventType);
      SentConcat(if ts[0].eventType == e.eventType then Advanced(d, e.ts, ts[0].target) else [], Propagated(ts[1..], d, e));
    }
  }

  lemma {:induction false} BufferWithin(nfa: Nfa, ds: Deques, e: Event, s: nat)
    requires |ds| == |nfa.states| && s <= |ds|
    ensures Sent(Buffer(nfa, ds, e, s)) <= Moved(nfa, Below(Occupied(ds), s), e.eventType)
  {
    hide Propagated;
    hide Fired;
    hide Moved;
    SentNothing();
    if s > 0 {
      BufferWithin(nfa, ds, e, s - 1);
      var own := if s - 1 == nfa.accept then [] else Propagated(nfa.states[s - 1].transitions, ds[s - 1], e);
      PropagatedWithin(nfa.states[s - 1].transitions, ds[s - 1], e);
      MovedOne(nfa, Occupied(ds), e.eventType, s);
      assert Buffer(nfa, ds, e, s) == own + Buffer(nfa, ds, e, s - 1);
      assert s - 1 in Occupied(ds) <==> ds[s - 1] != [];
      hide *;
      SentConcat(own, Buffer(nfa, ds, e, s - 1));
    }
  }

  lemma {:induction false} InsertAllOccupies(ds: Deques, buf: seq<(nat, Candidate)>)
    ensures Occupied(InsertAll(ds, buf)) == Occupied(ds) + set k <- Sent(buf) | k < |ds|
    decreases |buf|
  {
    if buf != [] {
      var (target, c) := buf[0];
      assert buf == [buf[0]] + buf[1..];
      SentConcat([buf[0]], buf[1..]);
      SentOne(target, c);
      if target < |ds| {
        InsertAllOccupies(ds[target := InsertDedup(ds[target], c)], buf[1..]);
        assert Occupied(ds[target := InsertDedup(ds[target], c)]) == Occupied(ds) + {target};
      } else {
        InsertAllOccupies(ds, buf[1..]);
      }
    }
  }

  lemma KilledOccupies(nfa: Nfa, ds: Deques, e: Event)
    requires |ds| == |nfa.states|
    ensures Occupied(Killed(nfa, ds, e)) == Survivors(nfa, Occupied(ds), e.eventType)
  {
    hide Poisoned;
  }

  lemma NextWithin(nfa: Nfa, ds: Deques, e: Event)
    requires WellFormed(nfa) && |ds| == |nfa.states|
    ensures Occupied(NextDeques(nfa, ds, e)) <= Advance(nfa, Occupied(ds), e.eventType)
  {
    var killed := Killed(nfa, ds, e);
    KilledOccupies(nfa, ds, e);
    BufferWithin(nfa, killed, e, |killed|);
    StartsTo(nfa.states[0].transitions, e);
    assert Fired(nfa.states[0].transitions, e.eventType) == Targets(nfa, 0, e.eventType);
    var moved := InsertAll(killed, Buffer(nfa, killed, e, |killed|));
    InsertAllOccupies(killed, Buffer(nfa, killed, e, |killed|));
    InsertAllOccupies(moved, Starts(nfa.states[0].transitions, e));
    assert Below(Occupied(killed), |killed|) == Occupied(killed);
  }

  lemma AdvanceMonotone(nfa: Nfa, a: set<nat>, b: set<nat>, e: string)
    requires nfa.states != [] && a <= b
    ensures Advance(nfa, a, e) <= Advance(nfa, b, e)
  {
    assert Survivors(nfa, a, e) <= Survivors(nfa, b, e);
    hide Targets;
    hide Poisoned;
  }

  /** As long as the occupancy simulator runs on, the engine has neither matched nor panicked, and all
      the states it occupies are occupied there too. */
  predicate Within(sim: Sim, status: Status) {
    status.Running? ==>
      match sim
      case Live(ds) => Occupied(ds) <= status.occupied
      case Matched(_, _) => false
      case TablePanic => false
      case OverLimit => true
  }

  lemma StepWithin(nfa: Nfa, ds: Deques, occupied: set<nat>, e: Event, limit: nat)
    requires WellFormed(nfa) && |ds| == |nfa.states| && Occupied(ds) <= occupied
    ensures Within(ProcessEvent(nfa, ds, e, limit), Step(nfa, occupied, e.eventType))
  {
    if e.eventType in nfa.relevant {
      var next, adv := NextDeques(nfa, ds, e), Advance(nfa, occupied, e.eventType);
      NextWithin(nfa, ds, e);
      AdvanceMonotone(nfa, Occupied(ds), occupied, e.eventType);
      hide NextDeques;
      hide Advance;
      StartPanicsIff(nfa, e.eventType);
      PanicsWithin(nfa, next, adv);
      OccupiedWithin(nfa, next, adv);
      hide StartPanics;
      hide DequePanics;
      hide Targets;
      hide Occupied;
    }
  }

  lemma OccupiedWithin(nfa: Nfa, ds: Deques, occupied: set<nat>)
    requires nfa.accept < |ds| && Occupied(ds) <= occupied
    ensures ds[nfa.accept] != [] ==> nfa.accept in occupied
  {
    assert ds[nfa.accept] != [] ==> nfa.accept in Occupied(ds);
  }

  lemma PanicsWithin(nfa: Nfa, ds: Deques, occupied: set<nat>)
    requires Occupied(ds) <= occupied
    ensures DequePanics(nfa, ds) ==> exists k <- occupied :: k >= |nfa.stateToStep|
  {
    if s: nat :| s < |ds| && ds[s] != [] && s >= |nfa.stateToStep| {
      assert s in Occupied(ds);
    }
  }

  /** For every automaton and every list of events, whatever their timestamps. */
  lemma {:induction false} Sound(nfa: Nfa, es: seq<Event>, limit: nat)
    requires WellFormed(nfa)
    ensures Within(Simulate(nfa, es, limit), Run(nfa, Types(es)))
  {
    if es == [] {
      StartEmpty(nfa, limit);
    } else {
      var before, e := es[..|es| - 1], es[|es| - 1];
      Sound(nfa, before, limit);
      assert Types(es)[..|es| - 1] == Types(before);
      var sim, status := Simulate(nfa, before, limit), Run(nfa, Types(before));
      hide ProcessEvent;
      hide Occupied;
      hide Step;
      if sim.Live? && status.Running? {
        StepWithin(nfa, sim.deques, status.occupied, e, limit);
      }
    }
  }

  /** So no pattern with a WITHOUT clause is ever matched where it does not occur. */
  lemma NegationSound(steps: seq<string>, poison: string, es: seq<Event>, limit: nat)
    requires 2 <= |steps| <= 255
    ensures WellFormed(Negation(steps, poison))
    ensures var r := Simulate(Negation(steps, poison), es, limit);
      r.Matched? ==> NegMatch(steps, poison, |steps|, Types(es))
  {
    NegationWellFormed(steps, poison);
    hide *;
    Sound(Negation(steps, poison), es, limit);
    NegationLanguage(steps, poison, Types(es));
    Conclude(Simulate(Negation(steps, poison), es, limit), Run(Negation(steps, poison), Types(es)));
  }

  /** And no alternation where neither of its two patterns does. */
  lemma AlternationSound(steps: seq<string>, es: seq<Event>, limit: nat)
    requires 3 <= |steps| <= 255
    ensures WellFormed(Alternation(steps))
    ensures var r := Simulate(Alternation(steps), es, limit);
      r.Matched? ==> IsSubseq(steps, Types(es)) || IsSubseq([AltType(steps)] + steps[1..], Types(es))
  {
    AlternationWellFormed(steps);
    hide *;
    Sound(Alternation(steps), es, limit);
    AlternationLanguage(steps, Types(es));
    Conclude(Simulate(Alternation(steps), es, limit), Run(Alternation(steps), Types(es)));
  }

  lemma AlternationWellFormed(steps: seq<string>)
    requires 3 <= |steps| <= 255
    ensures WellFormed(Alternation(steps))
  {
  }

  lemma Conclude(sim: Sim, status: Status)
    requires Within(sim, status) && status != Panicked
    ensures sim.Matched? ==> status == Completed
  {
  }
}

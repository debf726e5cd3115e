/** The pattern automata of the matcher benchmarks: their builders, the simulator that runs them
    until a first match, and the language each builder's automaton accepts. */
module PatternNfa {

  datatype Transition = Transition(eventType: string, target: nat)

  datatype State = State(transitions: seq<Transition>, poison: seq<string>)

  datatype Nfa = Nfa(states: seq<State>, accept: nat, relevant: set<string>, stateToStep: seq<nat>)

  predicate WellFormed(nfa: Nfa) {
    && nfa.states != [] && nfa.accept < |nfa.states|
    && forall s <- nfa.states :: forall t <- s.transitions :: t.target < |nfa.states|
  }

  // ── Running an automaton ──────────────────────────────────────────────────

  /** Which states hold a candidate, for events with strictly increasing timestamps; a run ends
      with the first completed match, or by indexing past the step table. */
  datatype Status = Running(occupied: set<nat>) | Completed | Panicked

  function Targets(nfa: Nfa, s: nat, e: string): set<nat>
    requires s < |nfa.states|
  {
    set t <- nfa.states[s].transitions | t.eventType == e :: t.target
  }

  predicate Poisoned(nfa: Nfa, s: nat, e: string)
    requires s < |nfa.states|
  {
    s != nfa.accept && e in nfa.states[s].poison
  }

  /** The states occupied after one relevant event: candidates in poisoned states die, the others
      stay where they are and also move on, and a new candidate may start. */
  function Advance(nfa: Nfa, occupied: set<nat>, e: string): set<nat>
    requires nfa.states != []
  {
    var kept := Survivors(nfa, occupied, e);
    kept + Moved(nfa, kept, e) + Targets(nfa, 0, e)
  }

  function Survivors(nfa: Nfa, occupied: set<nat>, e: string): set<nat> {
    set s <- occupied | s < |nfa.states| && !Poisoned(nfa, s, e)
  }

  function Moved(nfa: Nfa, kept: set<nat>, e: string): set<nat>
    requires forall s <- kept :: s < |nfa.states|
  {
    set s <- kept, t <- Targets(nfa, s, e) | s != nfa.accept :: t
  }

  function Step(nfa: Nfa, occupied: set<nat>, e: string): Status
    requires nfa.states != []
  {
    if e !in nfa.relevant then Running(occupied)
    else
      var next := Advance(nfa, occupied, e);
      if exists t <- Targets(nfa, 0, e) :: t >= |nfa.stateToStep| then Panicked
      else if nfa.accept in next then if nfa.accept < |nfa.stateToStep| then Completed else Panicked
      else if exists s <- next :: s >= |nfa.stateToStep| then Panicked
      else Running(next)
  }

  function Run(nfa: Nfa, es: seq<string>): Status
    requires nfa.states != []
  {
    if es == [] then Running({})
    else
      match Run(nfa, es[..|es| - 1])
      case Running(occupied) => Step(nfa, occupied, es[|es| - 1])
      case over => over
  }

  function OnlyRelevant(nfa: Nfa, es: seq<string>): seq<string> {
    if es == [] then []
    else
      var e := es[|es| - 1];
      OnlyRelevant(nfa, es[..|es| - 1]) + if e in nfa.relevant then [e] else []
  }

  /** For every automaton, dropping irrelevant events changes nothing. */
  lemma {:induction false} RunOnlyRelevant(nfa: Nfa, es: seq<string>)
    requires nfa.states != []
    ensures Run(nfa, OnlyRelevant(nfa, es)) == Run(nfa, es)
  {
    if es != [] {
      RunOnlyRelevant(nfa, es[..|es| - 1]);
      var rest, e := OnlyRelevant(nfa, es[..|es| - 1]), es[|es| - 1];
      if e in nfa.relevant {
        assert (rest + [e])[..|rest|] == rest;
      } else {
        assert rest + [] == rest;
      }
    }
  }

  // ── Subsequences ──────────────────────────────────────────────────────────

  predicate IsSubseq(p: seq<string>, es: seq<string>) {
    p == [] || (es != [] &&
      var rest := es[..|es| - 1];
      IsSubseq(p, rest) || (p[|p| - 1] == es[|es| - 1] && IsSubseq(p[..|p| - 1], rest)))
  }

  lemma {:induction false} SubseqShorter(p: seq<string>, es: seq<string>)
    requires IsSubseq(p, es)
    ensures |p| <= |es|
  {
    if p != [] {
      var rest := es[..|es| - 1];
      if IsSubseq(p, rest) {
        SubseqShorter(p, rest);
      } else {
        SubseqShorter(p[..|p| - 1], rest);
      }
    }
  }

  lemma {:induction false} SubseqPrefix(p: seq<string>, es: seq<string>)
    requires IsSubseq(p, es) && p != []
    ensures IsSubseq(p[..|p| - 1], es)
  {
    var rest := es[..|es| - 1];
    if IsSubseq(p, rest) {
      SubseqPrefix(p, rest);
    }
  }

  /** A single greedy cursor decides the same question. */
  method GreedyMatch(steps: seq<string>, es: seq<string>) returns (matched: bool)
    ensures matched == IsSubseq(steps, es)
  {
    var cursor := 0;
    for i := 0 to |es|
      invariant cursor <= |steps| && IsSubseq(steps[..cursor], es[..i])
      invariant cursor < |steps| ==> !IsSubseq(steps[..cursor + 1], es[..i])
    {
      assert es[..i + 1][..i] == es[..i];
      if cursor < |steps| && steps[cursor] == es[i] {
        cursor := cursor + 1;
        assert steps[..cursor][..cursor - 1] == steps[..cursor - 1];
        if cursor < |steps| {
          assert steps[..cursor + 1][..cursor] == steps[..cursor];
          if IsSubseq(steps[..cursor + 1], es[..i]) {
            SubseqPrefix(steps[..cursor + 1], es[..i]);
          }
        }
      }
    }
    assert es[..|es|] == es;
    matched := cursor == |steps|;
    if cursor == |steps| {
      assert steps[..cursor] == steps;
    } else {
      NotSubseqLonger(steps, cursor + 1, es);
    }
  }

  lemma {:induction false} NotSubseqLonger(p: seq<string>, k: nat, es: seq<string>)
    requires k <= |p| && !IsSubseq(p[..k], es)
    ensures !IsSubseq(p, es)
    decreases |p| - k
  {
    if k == |p| {
      assert p[..k] == p;
    } else {
      assert p[..k + 1][..k] == p[..k];
      if IsSubseq(p[..k + 1], es) {
        SubseqPrefix(p[..k + 1], es);
      }
      NotSubseqLonger(p, k + 1, es);
    }
  }

  // ── Chains ────────────────────────────────────────────────────────────────

  /** The shape all four builders share: state 0 starts on any type in `first`, state `k` moves to
      `k + 1` on `steps[k]` and may loop on it, and state 1 is poisoned by `poison`. */
  ghost predicate Chain(nfa: Nfa, first: set<string>, poison: set<string>, steps: seq<string>) {
    var n := |steps|;
    && n > 0 && |nfa.states| == n + 1 && nfa.accept == n && |nfa.stateToStep| == n + 1
    && (n == 1 ==> poison == {})
    && first + poison + (set k | 1 <= k < n :: steps[k]) <= nfa.relevant
    && (forall e :: Targets(nfa, 0, e) == if e in first then {1} else {})
    && (forall k, e :: 1 <= k < n ==> ChainState(nfa, poison, steps, k, e))
  }

  predicate ChainState(nfa: Nfa, poison: set<string>, steps: seq<string>, k: nat, e: string)
    requires k < |steps| && k < |nfa.states|
  {
    && Targets(nfa, k, e) + {k} == (if e == steps[k] then {k, k + 1} else {k})
    && (e in nfa.states[k].poison <==> k == 1 && e in poison)
  }

  /** State `k` of a chain holds a candidate after `es`. */
  predicate Reach(first: set<string>, poison: set<string>, steps: seq<string>, k: nat, es: seq<string>)
    requires 1 <= k <= |steps|
  {
    es != [] &&
    var rest, e := es[..|es| - 1], es[|es| - 1];
    if k == 1 then (Reach(first, poison, steps, 1, rest) && e !in poison) || e in first
    else
      Reach(first, poison, steps, k, rest)
      || (e == steps[k - 1] && Reach(first, poison, steps, k - 1, rest) && (k == 2 ==> e !in poison))
  }

  function Reached(first: set<string>, poison: set<string>, steps: seq<string>, es: seq<string>): set<nat> {
    set k | 1 <= k < |steps| && Reach(first, poison, steps, k, es)
  }

  lemma ChainStep(nfa: Nfa, first: set<string>, poison: set<string>, steps: seq<string>, es: seq<string>)
    requires Chain(nfa, first, poison, steps) && es != []
    requires !Reach(first, poison, steps, |steps|, es[..|es| - 1])
    ensures Step(nfa, Reached(first, poison, steps, es[..|es| - 1]), es[|es| - 1])
      == if Reach(first, poison, steps, |steps|, es) then Completed else Running(Reached(first, poison, steps, es))
  {
    var n, rest, e := |steps|, es[..|es| - 1], es[|es| - 1];
    var before := Reached(first, poison, steps, rest);
    if e in nfa.relevant {
      var next := Advance(nfa, before, e);
      forall k: nat ensures k in next <==> 1 <= k <= n && Reach(first, poison, steps, k, es) {
        ChainAdvance(nfa, first, poison, steps, es, k);
      }
      assert forall t <- Targets(nfa, 0, e) :: t < |nfa.stateToStep|;
      hide *;
      ChainStatus(nfa, first, poison, steps, es, next);
    } else {
      IrrelevantReach(nfa, first, poison, steps, es);
    }
  }

  lemma ChainStatus(nfa: Nfa, first: set<string>, poison: set<string>, steps: seq<string>, es: seq<string>, next: set<nat>)
    requires Chain(nfa, first, poison, steps) && es != [] && es[|es| - 1] in nfa.relevant
    requires next == Advance(nfa, Reached(first, poison, steps, es[..|es| - 1]), es[|es| - 1])
    requires forall k: nat :: k in next <==> 1 <= k <= |steps| && Reach(first, poison, steps, k, es)
    ensures Step(nfa, Reached(first, poison, steps, es[..|es| - 1]), es[|es| - 1])
      == if Reach(first, poison, steps, |steps|, es) then Completed else Running(Reached(first, poison, steps, es))
  {
    hide Advance;
    hide Reach;
    if !Reach(first, poison, steps, |steps|, es) {
      assert next == Reached(first, poison, steps, es);
    }
  }

  lemma IrrelevantReach(nfa: Nfa, first: set<string>, poison: set<string>, steps: seq<string>, es: seq<string>)
    requires Chain(nfa, first, poison, steps) && es != [] && es[|es| - 1] !in nfa.relevant
    ensures forall k :: 1 <= k <= |steps| ==>
      (Reach(first, poison, steps, k, es) <==> Reach(first, poison, steps, k, es[..|es| - 1]))
    ensures Reached(first, poison, steps, es) == Reached(first, poison, steps, es[..|es| - 1])
  {
    forall k | 1 <= k <= |steps|
      ensures Reach(first, poison, steps, k, es) <==> Reach(first, poison, steps, k, es[..|es| - 1])
    {
      if k > 1 {
        assert steps[k - 1] in nfa.relevant;
      }
    }
  }

  lemma ChainAdvance(nfa: Nfa, first: set<string>, poison: set<string>, steps: seq<string>, es: seq<string>, k: nat)
    requires Chain(nfa, first, poison, steps) && es != []
    requires !Reach(first, poison, steps, |steps|, es[..|es| - 1])
    ensures k in Advance(nfa, Reached(first, poison, steps, es[..|es| - 1]), es[|es| - 1])
      <==> 1 <= k <= |steps| && Reach(first, poison, steps, k, es)
  {
    var rest, e := es[..|es| - 1], es[|es| - 1];
    AdvanceMembers(nfa, first, poison, steps, Reached(first, poison, steps, rest), e, k);
    ReachStep(first, poison, steps, k, es);
  }

  /** A candidate in state `k` after an event either survived there, moved there, or started there. */
  lemma AdvanceMembers(nfa: Nfa, first: set<string>, poison: set<string>, steps: seq<string>, occupied: set<nat>, e: string, k: nat)
    requires Chain(nfa, first, poison, steps)
    requires forall s <- occupied :: 1 <= s < |steps|
    ensures k in Advance(nfa, occupied, e) <==>
        (k == 1 && e in first)
        || (k in occupied && !(k == 1 && e in poison))
        || (k > 0 && k - 1 in occupied && !(k == 2 && e in poison) && e == steps[k - 1])
  {
    var kept := Survivors(nfa, occupied, e);
    forall s <- occupied ensures s in kept <==> !(s == 1 && e in poison) {
      assert ChainState(nfa, poison, steps, s, e);
    }
    MovedMembers(nfa, first, poison, steps, kept, e, k);
  }

  lemma MovedMembers(nfa: Nfa, first: set<string>, poison: set<string>, steps: seq<string>, kept: set<nat>, e: string, k: nat)
    requires Chain(nfa, first, poison, steps)
    requires forall s <- kept :: 1 <= s < |steps|
    ensures k in kept || k in Moved(nfa, kept, e) <==> k in kept || (k > 0 && k - 1 in kept && e == steps[k - 1])
  {
    if k in Moved(nfa, kept, e) {
      var s :| s in kept && k in Targets(nfa, s, e);
      assert ChainState(nfa, poison, steps, s, e);
      assert k in Targets(nfa, s, e) + {s};
    }
    if k > 0 && k - 1 in kept && e == steps[k - 1] {
      assert ChainState(nfa, poison, steps, k - 1, e);
      assert k in Targets(nfa, k - 1, e) + {k - 1};
    }
  }

  lemma ReachStep(first: set<string>, poison: set<string>, steps: seq<string>, k: nat, es: seq<string>)
    requires steps != [] && es != [] && (|steps| == 1 ==> poison == {})
    requires !Reach(first, poison, steps, |steps|, es[..|es| - 1])
    ensures var n, rest, e := |steps|, es[..|es| - 1], es[|es| - 1];
      (1 <= k <= n && Reach(first, poison, steps, k, es)) <==>
        (k == 1 && e in first)
        || (1 <= k < n && Reach(first, poison, steps, k, rest) && !(k == 1 && e in poison))
        || (2 <= k <= n && Reach(first, poison, steps, k - 1, rest) && !(k == 2 && e in poison) && e == steps[k - 1])
  {
  }

  /** A chain runs exactly as `Reach` says, and never panics. */
  lemma {:induction false} ChainRun(nfa: Nfa, first: set<string>, poison: set<string>, steps: seq<string>, es: seq<string>)
    requires Chain(nfa, first, poison, steps)
    ensures Run(nfa, es)
      == if Reach(first, poison, steps, |steps|, es) then Completed else Running(Reached(first, poison, steps, es))
  {
    if es == [] {
      assert Reached(first, poison, steps, es) == {};
    } else {
      ChainRun(nfa, first, poison, steps, es[..|es| - 1]);
      if !Reach(first, poison, steps, |steps|, es[..|es| - 1]) {
        ChainStep(nfa, first, poison, steps, es);
      }
    }
  }

  /** Without poison, a state is reached exactly by supersequences of a first event and the steps. */
  lemma {:induction false} ReachIsSubseq(first: set<string>, steps: seq<string>, k: nat, es: seq<string>)
    requires 1 <= k <= |steps|
    ensures Reach(first, {}, steps, k, es) <==> exists f <- first :: IsSubseq([f] + steps[1..k], es)
  {
    if es != [] {
      var rest, e := es[..|es| - 1], es[|es| - 1];
      ReachIsSubseq(first, steps, k, rest);
      if k == 1 {
        forall f <- first ensures IsSubseq([f] + steps[1..1], es) <==> IsSubseq([f], rest) || f == e {
          assert [f] + steps[1..1] == [f] && [f][..0] == [];
        }
        assert e in first ==> IsSubseq([e] + steps[1..1], es);
        forall f <- first ensures [f] + steps[1..1] == [f] {
        }
      } else {
        ReachIsSubseq(first, steps, k - 1, rest);
        forall f <- first
          ensures IsSubseq([f] + steps[1..k], es) <==>
                  IsSubseq([f] + steps[1..k], rest) || (e == steps[k - 1] && IsSubseq([f] + steps[1..k - 1], rest))
        {
          var p := [f] + steps[1..k];
          assert p[|p| - 1] == steps[k - 1] && p[..|p| - 1] == [f] + steps[1..k - 1];
        }
      }
    }
  }
}

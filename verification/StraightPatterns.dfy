/** Candidate deques on straight patterns: one transition per step, any poison on any state, and any
    types for the first step. */
module StraightPatterns {
  import opened Text
  import opened PatternNfa
  import opened PatternBuilders
  import opened PatternCandidates
  import opened Occurrences

  ghost predicate Straight(nfa: Nfa, steps: seq<string>) {
    var n := |steps|;
    && 1 <= n <= 255 && WellFormed(nfa)
    && nfa.accept == n && |nfa.states| == n + 1 && |nfa.stateToStep| == n + 1
    && nfa.states[n].transitions == []
    && forall k :: 0 <= k < n ==> StraightState(nfa, steps, k)
  }

  predicate StraightState(nfa: Nfa, steps: seq<string>, k: nat)
    requires k < |steps| && k < |nfa.states|
  {
    && nfa.states[k].transitions == [Transition(steps[k], k + 1)]
    && steps[k] in nfa.relevant && forall y <- nfa.states[k].poison :: y in nfa.relevant
  }

  /** The automaton runs the pattern; state 0 may start on several types. */
  ghost predicate Runs(nfa: Nfa, p: Pattern) {
    var n := |p.steps|;
    && ValidPattern(p) && WellFormed(nfa)
    && nfa.accept == n && |nfa.states| == n + 1 && |nfa.stateToStep| == n + 1
    && nfa.states[n].transitions == [] && StartsOn(nfa, p.first)
    && forall k :: 1 <= k < n ==> StateRuns(nfa, p, k)
  }

  ghost predicate StartsOn(nfa: Nfa, first: set<string>)
    requires nfa.states != []
  {
    && first <= nfa.relevant && (forall t <- nfa.states[0].transitions :: t.target == 1)
    && forall e :: Starts(nfa.states[0].transitions, e) == if e.eventType in first then [(1, Candidate(e.ts, e.ts))] else []
  }

  predicate StateRuns(nfa: Nfa, p: Pattern, k: nat)
    requires ValidPattern(p) && 1 <= k < |p.steps| && k < |nfa.states|
  {
    && nfa.states[k].transitions == [Transition(p.steps[k], k + 1)]
    && p.steps[k] in nfa.relevant && p.poison[k] <= nfa.relevant
    && Elements(nfa.states[k].poison) == p.poison[k]
  }

  /** The pattern of a straight automaton. */
  function PatternOf(nfa: Nfa, steps: seq<string>): Pattern
    requires steps != [] && |steps| <= |nfa.states|
  {
    Pattern({steps[0]}, steps, seq(|steps|, k requires 0 <= k < |steps| => Elements(nfa.states[k].poison)))
  }

  lemma StraightRuns(nfa: Nfa, steps: seq<string>)
    requires Straight(nfa, steps)
    ensures steps != [] && |steps| <= |nfa.states| && Runs(nfa, PatternOf(nfa, steps))
  {
    var p := PatternOf(nfa, steps);
    assert StraightState(nfa, steps, 0);
    forall e ensures Starts(nfa.states[0].transitions, e) == if e.eventType in p.first then [(1, Candidate(e.ts, e.ts))] else [] {
      StartsOne(steps[0], e);
    }
    forall k | 1 <= k < |steps| ensures StateRuns(nfa, p, k) {
      assert StraightState(nfa, steps, k);
    }
  }

  lemma StartsOne(step: string, e: Event)
    ensures Starts([Transition(step, 1)], e) == if step == e.eventType then [(1, Candidate(e.ts, e.ts))] else []
  {
    var ts := [Transition(step, 1)];
    assert ts[1..] == [] && Starts(ts[1..], e) == [];
  }

  // ── One state at a time ───────────────────────────────────────────────────

  /** What a buffer holds for state `s`. */
  function Only(buf: seq<(nat, Candidate)>, s: nat): seq<Candidate> {
    if buf == [] then [] else (if buf[0].0 == s then [buf[0].1] else []) + Only(buf[1..], s)
  }

  function InsertEach(d: seq<Candidate>, cs: seq<Candidate>): seq<Candidate>
    decreases |cs|
  {
    if cs == [] then d else InsertEach(InsertDedup(d, cs[0]), cs[1..])
  }

  /** The candidates of a deque that an event at `ts` may advance, as they go on. */
  function Movable(d: seq<Candidate>, ts: int): (r: seq<Candidate>)
    ensures forall c <- r :: c.last == ts
    ensures r == [] <==> forall c <- d :: c.last >= ts
    ensures r != [] ==> exists c <- d :: c.last < ts && r[0].anchor == c.anchor
    ensures d != [] && d[0].last < ts ==> r != [] && r[0] == Candidate(d[0].anchor, ts)
  {
    if d == [] then []
    else
      assert forall c <- d :: c == d[0] || c in d[1..];
      if ts > d[0].last then [Candidate(d[0].anchor, ts)] + Movable(d[1..], ts)
      else Movable(d[1..], ts)
  }

  /** What an event brings to state `k`, given the deque of the state before. */
  function Arrivals(p: Pattern, below: seq<Candidate>, e: Event, k: nat): (r: seq<Candidate>)
    requires ValidPattern(p) && 1 <= k <= |p.steps|
    ensures forall c <- r :: c.last == e.ts
  {
    if !Fires(p, e.eventType, k) then []
    else if k == 1 then [Candidate(e.ts, e.ts)]
    else Movable(below, e.ts)
  }

  lemma {:induction false} InsertAllAt(ds: Deques, buf: seq<(nat, Candidate)>, s: nat)
    requires s < |ds|
    ensures InsertAll(ds, buf)[s] == InsertEach(ds[s], Only(buf, s))
    decreases |buf|
  {
    if buf != [] {
      var (target, c) := buf[0];
      var next := if target < |ds| then ds[target := InsertDedup(ds[target], c)] else ds;
      InsertAllAt(next, buf[1..], s);
      hide InsertDedup;
      if target == s {
        assert Only(buf, s) == [c] + Only(buf[1..], s);
        InsertEachCons(ds[s], c, Only(buf[1..], s));
      } else {
        assert Only(buf, s) == Only(buf[1..], s);
      }
    }
  }

  lemma InsertEachCons(d: seq<Candidate>, c: Candidate, cs: seq<Candidate>)
    ensures InsertEach(d, [c] + cs) == InsertEach(InsertDedup(d, c), cs)
  {
    assert ([c] + cs)[1..] == cs;
  }

  lemma Regroup(x: seq<Candidate>, y: seq<Candidate>, z: seq<Candidate>)
    ensures x + (y + z) == x + y + z
  {
  }

  lemma {:induction false} OnlyConcat(a: seq<(nat, Candidate)>, b: seq<(nat, Candidate)>, s: nat)
    ensures Only(a + b, s) == Only(a, s) + Only(b, s)
  {
    if a == [] {
      assert a + b == b;
    } else {
      var head := if a[0].0 == s then [a[0].1] else [];
      assert (a + b)[0] == a[0] && (a + b)[1..] == a[1..] + b;
      OnlyConcat(a[1..], b, s);
      assert Only(a + b, s) == head + Only(a[1..] + b, s);
      assert Only(a, s) == head + Only(a[1..], s);
      hide *;
      Regroup(head, Only(a[1..], s), Only(b, s));
    }
  }

  lemma {:induction false} OnlyAdvanced(d: seq<Candidate>, ts: int, target: nat, s: nat)
    ensures Only(Advanced(d, ts, target), s) == if target == s then Movable(d, ts) else []
  {
    if d != [] {
      OnlyAdvanced(d[1..], ts, target, s);
      assert ts > d[0].last ==> Advanced(d, ts, target)[1..] == Advanced(d[1..], ts, target);
    }
  }

  /** What state `s - 1` sends on, with nothing in state 0. */
  function Own(p: Pattern, ds: Deques, e: Event, s: nat): seq<(nat, Candidate)>
    requires 0 < s <= |ds|
  {
    if 1 < s <= |p.steps| then Propagated([Transition(p.steps[s - 1], s)], ds[s - 1], e) else []
  }

  lemma OnlyOwn(p: Pattern, ds: Deques, e: Event, s: nat, k: nat)
    requires 0 < s <= |ds| && |ds| == |p.steps| + 1 && k <= |p.steps|
    ensures Only(Own(p, ds, e, s), k) == if k == s > 1 && e.eventType == p.steps[k - 1] then Movable(ds[k - 1], e.ts) else []
  {
    if 1 < s <= |p.steps| {
      var ts := [Transition(p.steps[s - 1], s)];
      assert ts[1..] == [] && Propagated(ts[1..], ds[s - 1], e) == [];
      OnlyAdvanced(ds[s - 1], e.ts, s, k);
      assert Own(p, ds, e, s) == if p.steps[s - 1] == e.eventType then Advanced(ds[s - 1], e.ts, s) else [];
    }
  }

  lemma {:induction false} PropagatedNothing(ts: seq<Transition>, e: Event)
    ensures Propagated(ts, [], e) == []
  {
    if ts != [] {
      PropagatedNothing(ts[1..], e);
    }
  }

  lemma BufferUnfold(nfa: Nfa, p: Pattern, ds: Deques, e: Event, s: nat)
    requires Runs(nfa, p) && |ds| == |nfa.states| && ds[0] == [] && 0 < s <= |ds|
    ensures Buffer(nfa, ds, e, s) == Own(p, ds, e, s) + Buffer(nfa, ds, e, s - 1)
  {
    PropagatedNothing(nfa.states[0].transitions, e);
    hide Propagated;
    assert 1 < s <= |p.steps| ==> StateRuns(nfa, p, s - 1);
    hide StartsOn;
  }

  lemma BufferStart(nfa: Nfa, ds: Deques, e: Event, k: nat)
    requires |ds| == |nfa.states|
    ensures Only(Buffer(nfa, ds, e, 0), k) == []
  {
  }

  lemma {:induction false} OnlyBuffer(nfa: Nfa, p: Pattern, ds: Deques, e: Event, s: nat, k: nat)
    requires Runs(nfa, p) && |ds| == |nfa.states| && s <= |ds| && k <= |p.steps| && |ds| == |p.steps| + 1 && ds[0] == []
    ensures Only(Buffer(nfa, ds, e, s), k) ==
      if 1 < k <= s && e.eventType == p.steps[k - 1] then Movable(ds[k - 1], e.ts) else []
  {
    hide *;
    if s > 0 {
      BufferUnfold(nfa, p, ds, e, s);
      OnlyOwn(p, ds, e, s, k);
      OnlyBuffer(nfa, p, ds, e, s - 1, k);
      OnlyConcat(Own(p, ds, e, s), Buffer(nfa, ds, e, s - 1), k);
    } else {
      BufferStart(nfa, ds, e, k);
    }
  }

  lemma OnlyFirst(c: Candidate, k: nat)
    ensures Only([(1, c)], k) == if k == 1 then [c] else []
  {
    assert [(1, c)][1..] == [];
  }

  lemma InsertNothing(d: seq<Candidate>)
    ensures InsertEach(d, []) == d
  {
  }

  /** One event, state by state: what survives its poison, and then what arrives. */
  lemma NextAt(nfa: Nfa, p: Pattern, ds: Deques, e: Event, k: nat)
    requires Runs(nfa, p) && |ds| == |nfa.states| && ds[0] == [] && k <= |p.steps|
    ensures ValidPattern(p)
    ensures var killed, next := Killed(nfa, ds, e), NextDeques(nfa, ds, e);
      if k == 0 then next[0] == [] else next[k] == InsertEach(killed[k], Arrivals(p, killed[k - 1], e, k))
  {
    RunsSize(nfa, p);
    hide *;
    var killed := Killed(nfa, ds, e);
    KilledAt(nfa, ds, e, 0);
    NextUnfold(nfa, p, ds, e, k);
    OnlyBuffer(nfa, p, killed, e, |killed|, k);
    if k > 0 {
      Combine(p, killed[k], killed[k - 1], e, k);
    } else {
      InsertNothing(killed[0]);
    }
  }

  lemma RunsSize(nfa: Nfa, p: Pattern)
    requires Runs(nfa, p)
    ensures ValidPattern(p) && |nfa.states| == |p.steps| + 1 && WellFormed(nfa) && nfa.accept == |p.steps|
  {
  }

  lemma StraightSize(nfa: Nfa, steps: seq<string>)
    requires Straight(nfa, steps)
    ensures steps != [] && |nfa.states| == |steps| + 1 && WellFormed(nfa)
  {
  }

  lemma Combine(p: Pattern, d: seq<Candidate>, below: seq<Candidate>, e: Event, k: nat)
    requires ValidPattern(p) && 0 < k <= |p.steps|
    ensures InsertEach(
        InsertEach(d, if k > 1 && e.eventType == p.steps[k - 1] then Movable(below, e.ts) else []),
        if k == 1 && e.eventType in p.first then [Candidate(e.ts, e.ts)] else [])
      == InsertEach(d, Arrivals(p, below, e, k))
  {
    InsertNothing(d);
    InsertNothing(InsertEach(d, Arrivals(p, below, e, k)));
    hide InsertEach;
    hide Movable;
  }

  lemma MovableNothing(ts: int)
    ensures Movable([], ts) == []
  {
  }

  lemma NextUnfold(nfa: Nfa, p: Pattern, ds: Deques, e: Event, k: nat)
    requires Runs(nfa, p) && |ds| == |nfa.states| && k <= |p.steps|
    ensures var killed := Killed(nfa, ds, e);
      NextDeques(nfa, ds, e)[k] == InsertEach(
        InsertEach(killed[k], Only(Buffer(nfa, killed, e, |killed|), k)),
        if k == 1 && e.eventType in p.first then [Candidate(e.ts, e.ts)] else [])
  {
    hide Buffer;
    hide Starts;
    var killed := Killed(nfa, ds, e);
    var buf, starts := Buffer(nfa, killed, e, |killed|), Starts(nfa.states[0].transitions, e);
    InsertAllAt(killed, buf, k);
    InsertAllAt(InsertAll(killed, buf), starts, k);
    OnlyFirst(Candidate(e.ts, e.ts), k);
    assert StartsOn(nfa, p.first);
    hide Only;
    hide InsertEach;
    hide InsertAll;
    assert Only([], k) == [] by {
      OnlyNothing(k);
    }
  }

  lemma OnlyNothing(k: nat)
    ensures Only([], k) == []
  {
  }

  lemma KilledAt(nfa: Nfa, ds: Deques, e: Event, k: nat)
    requires |ds| == |nfa.states| && k < |ds|
    ensures Killed(nfa, ds, e)[k] == if k != nfa.accept && e.eventType in nfa.states[k].poison then [] else ds[k]
  {
  }

  /** A relevant event ends in a match, over the limit, or goes on. */
  lemma RunsEvent(nfa: Nfa, p: Pattern, ds: Deques, e: Event, limit: nat)
    requires Runs(nfa, p) && |ds| == |nfa.states| && e.eventType in nfa.relevant
    ensures var next, n := NextDeques(nfa, ds, e), |p.steps|;
      ProcessEvent(nfa, ds, e, limit) ==
        if next[n] != [] then Matched(next[n][0].anchor, next[n][0].last)
        else if Total(next) > limit then OverLimit
        else Live(next)
  {
    RunsNoPanic(nfa, p, ds, e);
    assert nfa.accept == |p.steps| && |p.steps| < |nfa.stateToStep|;
    hide Runs;
    hide NextDeques;
    hide StartPanics;
    hide DequePanics;
  }

  /** Nothing indexes past the step table. */
  lemma RunsNoPanic(nfa: Nfa, p: Pattern, ds: Deques, e: Event)
    requires Runs(nfa, p) && |ds| == |nfa.states|
    ensures !StartPanics(nfa, e.eventType) && !DequePanics(nfa, NextDeques(nfa, ds, e))
  {
    hide Starts;
    hide NextDeques;
  }

  lemma StraightEvent(nfa: Nfa, steps: seq<string>, ds: Deques, e: Event, limit: nat)
    requires Straight(nfa, steps) && |ds| == |nfa.states| && e.eventType in nfa.relevant
    ensures var next := NextDeques(nfa, ds, e);
      ProcessEvent(nfa, ds, e, limit) ==
        if next[|steps|] != [] then Matched(next[|steps|][0].anchor, next[|steps|][0].last)
        else if Total(next) > limit then OverLimit
        else Live(next)
  {
    StraightRuns(nfa, steps);
    RunsEvent(nfa, PatternOf(nfa, steps), ds, e, limit);
    hide *;
  }

  // ── Insertion ─────────────────────────────────────────────────────────────

  lemma {:induction false} RefreshedFront(d: seq<Candidate>, c: Candidate)
    ensures var r := Refreshed(d, c); r.Some? ==> r.value[0].anchor == d[0].anchor
    ensures var r := Refreshed(d, c); r.Some? ==> forall x <- r.value :: x.last == c.last || x in d
    ensures var r := Refreshed(d, c); r.Some? && (forall x <- d :: x.last == c.last) ==> r.value == d
  {
    if d != [] {
      var n := |d| - 1;
      RefreshedFront(d[..n], c);
      assert d == d[..n] + [d[n]];
      assert d[n] in d;
    }
  }

  /** Insertion leaves the anchor at the front of a deque alone, and brings no timestamp but `ts`. */
  lemma {:induction false} InsertEachFront(d: seq<Candidate>, cs: seq<Candidate>, ts: int)
    requires forall c <- cs :: c.last == ts
    ensures var r := InsertEach(d, cs);
      && (r == [] <==> d == [] && cs == [])
      && (d != [] ==> r[0].anchor == d[0].anchor)
      && (d == [] && cs != [] ==> r[0] == cs[0])
      && (forall x <- r :: x.last == ts || x in d)
    ensures (forall x <- d :: x.last == ts) && d != [] ==> InsertEach(d, cs)[0] == d[0]
    decreases |cs|
  {
    if cs != [] {
      RefreshedFront(d, cs[0]);
      assert cs[0] in cs;
      InsertEachFront(InsertDedup(d, cs[0]), cs[1..], ts);
    }
  }

  // ── The front of each deque after an event ────────────────────────────────

  /** What an event's poison leaves of deque `k`. */
  function Left(nfa: Nfa, ds: Deques, e: string, k: nat): seq<Candidate>
    requires |ds| == |nfa.states| && k < |ds|
  {
    if k != nfa.accept && e in nfa.states[k].poison then [] else ds[k]
  }

  predicate IsStep(steps: seq<string>, e: string, k: nat)
    requires 1 <= k <= |steps|
  {
    e == steps[k - 1]
  }

  lemma StraightFires(nfa: Nfa, steps: seq<string>, e: string, k: nat)
    requires 1 <= k <= |steps| <= |nfa.states|
    ensures ValidPattern(PatternOf(nfa, steps)) && (Fires(PatternOf(nfa, steps), e, k) <==> IsStep(steps, e, k))
  {
  }

  lemma NothingInStart(nfa: Nfa, steps: seq<string>, ds: Deques, e: Event)
    requires Straight(nfa, steps) && |ds| == |nfa.states| && ds[0] == []
    ensures NextDeques(nfa, ds, e)[0] == []
  {
    StraightRuns(nfa, steps);
    hide *;
    NextAt(nfa, PatternOf(nfa, steps), ds, e, 0);
  }

  /** Without a candidate to move on, an emptied state stays empty. */
  lemma NextEmpty(nfa: Nfa, steps: seq<string>, ds: Deques, e: Event, k: nat)
    requires Straight(nfa, steps) && |ds| == |nfa.states| && |ds| == |steps| + 1 && ds[0] == [] && 1 <= k <= |steps|
    requires Left(nfa, ds, e.eventType, k) == []
    requires !IsStep(steps, e.eventType, k) || (k > 1 && Left(nfa, ds, e.eventType, k - 1) == [])
    ensures NextDeques(nfa, ds, e)[k] == []
  {
    StraightRuns(nfa, steps);
    hide Straight;
    hide Runs;
    var p := PatternOf(nfa, steps);
    StraightFires(nfa, steps, e.eventType, k);
    hide PatternOf;
    NextAt(nfa, p, ds, e, k);
    KilledAt(nfa, ds, e, k);
    KilledAt(nfa, ds, e, k - 1);
    MovableNothing(e.ts);
    InsertNothing([]);
    hide NextDeques;
    hide Killed;
    hide Movable;
    hide InsertEach;
  }

  /** When all candidates are from before the event: which states it leaves occupied, and with which
      candidate in front. */
  lemma NextFront(nfa: Nfa, steps: seq<string>, ds: Deques, e: Event, k: nat)
    requires Straight(nfa, steps) && |ds| == |nfa.states| && |ds| == |steps| + 1 && ds[0] == [] && 1 <= k <= |steps|
    requires Past(ds, e.ts - 1)
    ensures var own, below, next := Left(nfa, ds, e.eventType, k), Left(nfa, ds, e.eventType, k - 1), NextDeques(nfa, ds, e)[k];
      && (next != [] <==> own != [] || (IsStep(steps, e.eventType, k) && (k == 1 || below != [])))
      && (own != [] ==> next[0].anchor == own[0].anchor)
      && (own == [] && next != [] ==> next[0] == Candidate(if k == 1 then e.ts else below[0].anchor, e.ts))
  {
    hide *;
    StraightRuns(nfa, steps);
    StraightFires(nfa, steps, e.eventType, k);
    var p := PatternOf(nfa, steps);
    PatternSteps(nfa, steps);
    NextAt(nfa, p, ds, e, k);
    LeftAt(nfa, ds, e, k);
    LeftAt(nfa, ds, e, k - 1);
    FrontOfArrivals(p, Left(nfa, ds, e.eventType, k), Left(nfa, ds, e.eventType, k - 1), e, k);
  }

  lemma PatternSteps(nfa: Nfa, steps: seq<string>)
    requires steps != [] && |steps| <= |nfa.states|
    ensures PatternOf(nfa, steps).steps == steps
  {
  }

  lemma LeftAt(nfa: Nfa, ds: Deques, e: Event, k: nat)
    requires |ds| == |nfa.states| && k < |ds|
    ensures var left := Left(nfa, ds, e.eventType, k);
      left == Killed(nfa, ds, e)[k] && (Past(ds, e.ts - 1) && left != [] ==> left[0].last < e.ts)
  {
    KilledAt(nfa, ds, e, k);
    assert Past(ds, e.ts - 1) ==> AllAtMost(ds[k], e.ts - 1);
  }

  lemma FrontOfArrivals(p: Pattern, own: seq<Candidate>, below: seq<Candidate>, e: Event, k: nat)
    requires ValidPattern(p) && 1 <= k <= |p.steps| && (below != [] ==> below[0].last < e.ts)
    ensures var next := InsertEach(own, Arrivals(p, below, e, k));
      && (next != [] <==> own != [] || (Fires(p, e.eventType, k) && (k == 1 || below != [])))
      && (own != [] ==> next[0].anchor == own[0].anchor)
      && (own == [] && next != [] ==> next[0] == Candidate(if k == 1 then e.ts else below[0].anchor, e.ts))
  {
    MovableNothing(e.ts);
    InsertEachFront(own, Arrivals(p, below, e, k), e.ts);
    hide Movable;
    hide InsertEach;
  }

  lemma NextPast(nfa: Nfa, p: Pattern, ds: Deques, e: Event)
    requires Runs(nfa, p) && |ds| == |nfa.states| && ds[0] == [] && Past(ds, e.ts)
    ensures Past(NextDeques(nfa, ds, e), e.ts)
  {
    var killed, next := Killed(nfa, ds, e), NextDeques(nfa, ds, e);
    RunsSize(nfa, p);
    hide Runs;
    forall s | 0 <= s < |next| ensures AllAtMost(next[s], e.ts) {
      NextAt(nfa, p, ds, e, s);
      KilledAt(nfa, ds, e, s);
      if s > 0 {
        InsertEachFront(killed[s], Arrivals(p, killed[s - 1], e, s), e.ts);
        assert AllAtMost(ds[s], e.ts);
      }
    }
  }

  // ── The limit ─────────────────────────────────────────────────────────────

  /** A limit that a run stays within; larger ones do not change it. */
  lemma {:induction false} EnoughLimit(nfa: Nfa, es: seq<Event>) returns (limit: nat)
    requires WellFormed(nfa)
    ensures Simulate(nfa, es, limit) != OverLimit
    ensures forall more :: more >= limit ==> Simulate(nfa, es, more) == Simulate(nfa, es, limit)
  {
    limit := 0;
    hide ProcessEvent;
    hide NextDeques;
    if es != [] {
      var before, e := es[..|es| - 1], es[|es| - 1];
      var l := EnoughLimit(nfa, before);
      limit := l;
      var r := Simulate(nfa, before, l);
      if r.Live? {
        var total := Total(NextDeques(nfa, r.deques, e));
        limit := if total > l then total else l;
        assert Simulate(nfa, before, limit) == r;
        LimitIrrelevant(nfa, r.deques, e);
      }
    }
  }

  lemma LimitIrrelevant(nfa: Nfa, ds: Deques, e: Event)
    requires WellFormed(nfa) && |ds| == |nfa.states|
    ensures var total := Total(NextDeques(nfa, ds, e));
      && ProcessEvent(nfa, ds, e, total) != OverLimit
      && forall more :: more >= total ==> ProcessEvent(nfa, ds, e, more) == ProcessEvent(nfa, ds, e, total)
  {
    hide NextDeques;
  }

  lemma SimulateNext(nfa: Nfa, es: seq<Event>, i: nat, limit: nat)
    requires WellFormed(nfa) && i < |es|
    ensures var r := Simulate(nfa, es[..i], limit);
      Simulate(nfa, es[..i + 1], limit) == if r.Live? then ProcessEvent(nfa, r.deques, es[i], limit) else r
  {
    assert es[..i + 1][..i] == es[..i];
  }

  lemma SimulateStart(nfa: Nfa, limit: nat)
    requires WellFormed(nfa)
    ensures var r := Simulate(nfa, [], limit);
      r.Live? && (forall k :: 0 <= k < |r.deques| ==> r.deques[k] == []) && forall ts :: Past(r.deques, ts)
  {
  }

  // ── The builders' patterns ────────────────────────────────────────────────

  lemma LinearStates(steps: seq<string>)
    requires |steps| <= 255
    ensures var s := Linear(steps).states;
      && |s| == |steps| + 1 && s[|steps|] == DEAD_END
      && forall k :: 0 <= k < |steps| ==> s[k] == State([Transition(steps[k], k + 1)], [])
  {
  }

  lemma LinearWellFormed(steps: seq<string>)
    requires 1 <= |steps| <= 255
    ensures WellFormed(Linear(steps))
  {
  }

  lemma LinearStraight(steps: seq<string>)
    requires 1 <= |steps| <= 255
    ensures Straight(Linear(steps), steps)
  {
    LinearWellFormed(steps);
    LinearStates(steps);
    assert Linear(steps).accept == |steps| && Linear(steps).relevant == Elements(steps);
    assert |Linear(steps).stateToStep| == |steps| + 1;
    hide WellFormed;
    hide Linear;
  }

  lemma NegationStates(steps: seq<string>, poison: string)
    requires 2 <= |steps| <= 255
    ensures var s := Negation(steps, poison).states;
      && |s| == |steps| + 1 && s[|steps|] == DEAD_END
      && forall k :: 0 <= k < |steps| ==> s[k] == State([Transition(steps[k], k + 1)], if k == 1 then [poison] else [])
  {
  }

  lemma NegationWellFormed(steps: seq<string>, poison: string)
    requires 2 <= |steps| <= 255
    ensures WellFormed(Negation(steps, poison))
  {
  }

  lemma NegationStraight(steps: seq<string>, poison: string)
    requires 2 <= |steps| <= 255
    ensures Straight(Negation(steps, poison), steps)
  {
    NegationWellFormed(steps, poison);
    NegationStates(steps, poison);
    assert Negation(steps, poison).accept == |steps| && Negation(steps, poison).relevant == Elements(steps) + {poison};
    assert |Negation(steps, poison).stateToStep| == |steps| + 1;
    hide WellFormed;
    hide Negation;
  }
}

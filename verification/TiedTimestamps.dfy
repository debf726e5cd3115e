/** What the automaton simulator finds when timestamps may be equal. */
module TiedTimestamps {
  import opened Text
  import opened PatternNfa
  import opened PatternBuilders
  import opened PatternCandidates
  import opened Occurrences
  import opened StraightPatterns

  // ── One state and one event ───────────────────────────────────────────────

  /** Every candidate stands for an occurrence of the steps before its state. */
  ghost predicate Sound(p: Pattern, d: seq<Candidate>, es: seq<Event>, k: nat)
    requires ValidPattern(p) && 1 <= k <= |p.steps|
  {
    forall c <- d :: Reaches(p, k, es, Some(c.last + 1))
  }

  /** Where an occurrence exists, a candidate does. */
  predicate Found(p: Pattern, d: seq<Candidate>, es: seq<Event>, k: nat)
    requires ValidPattern(p) && 1 <= k <= |p.steps|
  {
    Reaches(p, k, es, None) ==> d != []
  }

  /** State 1 keeps the first step from every time it occurred at. */
  ghost predicate AllFirsts(p: Pattern, d: seq<Candidate>, es: seq<Event>)
    requires ValidPattern(p)
  {
    && (forall c <- d :: c.anchor == c.last)
    && forall x :: Reaches(p, 1, es, Some(x)) ==> exists c <- d :: c.last < x
  }

  function Kept(p: Pattern, d: seq<Candidate>, e: string, k: nat): seq<Candidate>
    requires ValidPattern(p)
  {
    if Kills(p, e, k) then [] else d
  }

  /** Deque `k` after an event, from its own and that of the state before. */
  function Next(p: Pattern, d: seq<Candidate>, below: seq<Candidate>, e: Event, k: nat): seq<Candidate>
    requires ValidPattern(p) && 1 <= k <= |p.steps|
  {
    InsertEach(Kept(p, d, e.eventType, k), Arrivals(p, Kept(p, below, e.eventType, k - 1), e, k))
  }

  lemma SoundNext(p: Pattern, d: seq<Candidate>, below: seq<Candidate>, es: seq<Event>, e: Event, k: nat)
    requires ValidPattern(p) && 1 <= k <= |p.steps| && Sound(p, d, es, k) && (k > 1 ==> Sound(p, below, es, k - 1))
    ensures Sound(p, Next(p, d, below, e, k), es + [e], k)
  {
    var own, cs := Kept(p, d, e.eventType, k), Arrivals(p, Kept(p, below, e.eventType, k - 1), e, k);
    var next := InsertEach(own, cs);
    InsertEachFront(own, cs, e.ts);
    InsertNothing(own);
    hide InsertEach;
    forall c <- next ensures Reaches(p, k, es + [e], Some(c.last + 1)) {
      if c in own {
        ReachesStep(p, k, es, e, Some(c.last + 1));
      } else {
        assert c.last == e.ts && cs != [];
        ArrivalReaches(p, below, es, e, k);
      }
    }
  }

  lemma ArrivalReaches(p: Pattern, below: seq<Candidate>, es: seq<Event>, e: Event, k: nat)
    requires ValidPattern(p) && 1 <= k <= |p.steps| && (k > 1 ==> Sound(p, below, es, k - 1))
    requires Arrivals(p, Kept(p, below, e.eventType, k - 1), e, k) != []
    ensures Reaches(p, k, es + [e], Some(e.ts + 1))
  {
    ReachesStep(p, k, es, e, Some(e.ts + 1));
    hide Reaches;
    if k > 1 {
      var c :| c in below && c.last < e.ts;
      ReachBefore(p, k - 1, es, c.last + 1, e.ts);
    }
  }

  /** With every earlier time smaller whenever the pattern could go on to its third step or later. */
  lemma FoundNext(p: Pattern, d: seq<Candidate>, below: seq<Candidate>, es: seq<Event>, e: Event, k: nat)
    requires ValidPattern(p) && 1 <= k <= |p.steps| && Found(p, d, es, k) && (k > 1 ==> Found(p, below, es, k - 1))
    requires k == 2 ==> AllFirsts(p, below, es)
    requires k > 2 && Reaches(p, k - 1, es, Some(e.ts)) ==> forall c <- below :: c.last < e.ts
    ensures Found(p, Next(p, d, below, e, k), es + [e], k)
  {
    InsertEachFront(Kept(p, d, e.eventType, k), Arrivals(p, Kept(p, below, e.eventType, k - 1), e, k), e.ts);
    hide InsertEach;
    hide Reaches;
    if Reaches(p, k, es + [e], None) {
      ArrivalsCome(p, d, below, es, e, k);
    }
  }

  lemma ArrivalsCome(p: Pattern, d: seq<Candidate>, below: seq<Candidate>, es: seq<Event>, e: Event, k: nat)
    requires ValidPattern(p) && 1 <= k <= |p.steps| && Found(p, d, es, k) && (k > 1 ==> Found(p, below, es, k - 1))
    requires k == 2 ==> AllFirsts(p, below, es)
    requires k > 2 && Reaches(p, k - 1, es, Some(e.ts)) ==> forall c <- below :: c.last < e.ts
    requires Reaches(p, k, es + [e], None)
    ensures Kept(p, d, e.eventType, k) != [] || Arrivals(p, Kept(p, below, e.eventType, k - 1), e, k) != []
  {
    ReachesStep(p, k, es, e, None);
    hide Reaches;
    if !(Reaches(p, k, es, None) && !Kills(p, e.eventType, k)) && k > 1 {
      ReachAnyTime(p, k - 1, es, Some(e.ts));
      assert below[0] in below;
      assert exists c <- below :: c.last < e.ts;
    }
  }

  lemma FirstsNext(p: Pattern, d: seq<Candidate>, below: seq<Candidate>, es: seq<Event>, e: Event)
    requires ValidPattern(p) && AllFirsts(p, d, es)
    ensures AllFirsts(p, Next(p, d, below, e, 1), es + [e])
  {
    var own, cs := Kept(p, d, e.eventType, 1), Arrivals(p, Kept(p, below, e.eventType, 0), e, 1);
    var next := InsertEach(own, cs);
    FreshInsert(own, cs, e.ts);
    hide InsertEach;
    forall x | Reaches(p, 1, es + [e], Some(x)) ensures exists c <- next :: c.last < x {
      ReachesStep(p, 1, es, e, Some(x));
      if Reaches(p, 1, es, Some(x)) && !Kills(p, e.eventType, 1) {
        var c :| c in d && c.last < x;
        assert c in next;
      } else {
        assert Candidate(e.ts, e.ts) in cs;
      }
    }
  }

  /** Inserting a new candidate into a deque of new ones loses none of them. */
  lemma FreshInsert(d: seq<Candidate>, cs: seq<Candidate>, ts: int)
    requires (forall c <- d :: c.anchor == c.last) && (cs == [] || cs == [Candidate(ts, ts)])
    ensures var next := InsertEach(d, cs);
      (forall c <- next :: c.anchor == c.last) && (forall c <- d :: c in next) && forall c <- cs :: c in next
  {
    InsertNothing(d);
    if cs != [] {
      var c := cs[0];
      assert cs == [c] + [];
      InsertEachCons(d, c, []);
      InsertNothing(InsertDedup(d, c));
      FreshRefreshed(d, c);
    }
  }

  lemma {:induction false} FreshRefreshed(d: seq<Candidate>, c: Candidate)
    requires (forall x <- d :: x.anchor == x.last) && c.anchor == c.last
    ensures Refreshed(d, c).Some? ==> Refreshed(d, c).value == d && c in d
  {
    if d != [] {
      var n := |d| - 1;
      assert d[n] in d && d == d[..n] + [d[n]];
      FreshRefreshed(d[..n], c);
    }
  }

  // ── A whole run ───────────────────────────────────────────────────────────

  /** A time after two different earlier ones is later than all of them. */
  ghost predicate Spaced(es: seq<Event>) {
    forall i, a, b :: 0 <= a < b < i < |es| && es[a].ts < es[b].ts < es[i].ts ==> es[i - 1].ts < es[i].ts
  }

  /** What the deques know; with `exact`, that they miss nothing. */
  ghost predicate Informed(p: Pattern, ds: Deques, es: seq<Event>, exact: bool)
    requires ValidPattern(p)
  {
    var n := |p.steps|;
    && |ds| == n + 1 && ds[0] == [] && ds[n] == []
    && (forall k :: 1 <= k <= n ==> Sound(p, ds[k], es, k))
    && (exact ==> AllFirsts(p, ds[1], es) && forall k :: 1 <= k <= n ==> Found(p, ds[k], es, k))
  }

  /** No candidate is later than the events so far. */
  ghost predicate Timely(ds: Deques, es: seq<Event>, i: nat)
    requires i <= |es|
  {
    if i == 0 then forall k :: 0 <= k < |ds| ==> ds[k] == [] else Past(ds, es[i - 1].ts)
  }

  ghost predicate Knows(sim: Sim, p: Pattern, es: seq<Event>, i: nat, exact: bool)
    requires ValidPattern(p) && i <= |es|
  {
    match sim
    case Live(ds) => Informed(p, ds, es[..i], exact) && Timely(ds, es, i)
    case Matched(_, _) => Reaches(p, |p.steps|, es[..i], None)
    case TablePanic => false
    case OverLimit => true
  }

  lemma KilledIsKept(nfa: Nfa, p: Pattern, ds: Deques, e: Event, k: nat)
    requires Runs(nfa, p) && |ds| == |nfa.states| && k < |ds| && ds[0] == []
    ensures Killed(nfa, ds, e)[k] == Kept(p, ds[k], e.eventType, k)
  {
    KilledAt(nfa, ds, e, k);
    if 1 <= k < |p.steps| {
      assert StateRuns(nfa, p, k);
    }
    hide Killed;
    hide StartsOn;
  }

  lemma NextIs(nfa: Nfa, p: Pattern, ds: Deques, e: Event, k: nat)
    requires Runs(nfa, p) && |ds| == |nfa.states| && ds[0] == [] && k < |ds|
    ensures ValidPattern(p) && |ds| == |p.steps| + 1
    ensures NextDeques(nfa, ds, e)[k] == if k == 0 then [] else Next(p, ds[k], ds[k - 1], e, k)
  {
    hide *;
    RunsSize(nfa, p);
    NextAt(nfa, p, ds, e, k);
    KilledIsKept(nfa, p, ds, e, k);
    if k > 0 {
      KilledIsKept(nfa, p, ds, e, k - 1);
      NextMeans(p, ds[k], ds[k - 1], e, k);
    }
  }

  lemma NextMeans(p: Pattern, d: seq<Candidate>, below: seq<Candidate>, e: Event, k: nat)
    requires ValidPattern(p) && 1 <= k <= |p.steps|
    ensures Next(p, d, below, e, k) == InsertEach(Kept(p, d, e.eventType, k), Arrivals(p, Kept(p, below, e.eventType, k - 1), e, k))
  {
  }

  lemma TimelyNext(nfa: Nfa, p: Pattern, ds: Deques, es: seq<Event>, i: nat)
    requires Runs(nfa, p) && |ds| == |nfa.states| && ds[0] == [] && NonDecreasing(es) && i < |es| && Timely(ds, es, i)
    ensures Timely(ds, es, i + 1) && Timely(NextDeques(nfa, ds, es[i]), es, i + 1)
  {
    forall k | 0 <= k < |ds| ensures AllAtMost(ds[k], es[i].ts) {
      if i > 0 {
        assert AllAtMost(ds[k], es[i - 1].ts) && es[i - 1].ts <= es[i].ts;
      }
    }
    hide Runs;
    hide NextDeques;
    NextPast(nfa, p, ds, es[i]);
  }

  lemma SpacedLast(p: Pattern, ds: Deques, es: seq<Event>, i: nat, k: nat)
    requires ValidPattern(p) && 2 < k <= |p.steps| && i < |es| && Spaced(es) && Timely(ds, es, i) && k <= |ds|
    requires Reaches(p, k - 1, es[..i], Some(es[i].ts))
    ensures forall c <- ds[k - 1] :: c.last < es[i].ts
  {
    var a, b := ReachTwo(p, k - 1, es[..i], es[i].ts);
    assert es[a].ts < es[b].ts < es[i].ts;
    assert AllAtMost(ds[k - 1], es[i - 1].ts);
  }

  lemma StateNext(nfa: Nfa, p: Pattern, ds: Deques, es: seq<Event>, i: nat, exact: bool, k: nat)
    requires Runs(nfa, p) && |ds| == |nfa.states| && i < |es| && 1 <= k <= |p.steps|
    requires Informed(p, ds, es[..i], exact) && Timely(ds, es, i) && (exact ==> |p.steps| <= 2 || Spaced(es))
    ensures var next := NextDeques(nfa, ds, es[i])[k];
      && Sound(p, next, es[..i] + [es[i]], k)
      && (exact ==> Found(p, next, es[..i] + [es[i]], k))
      && (exact && k == 1 ==> AllFirsts(p, next, es[..i] + [es[i]]))
  {
    var before, e := es[..i], es[i];
    NextIs(nfa, p, ds, e, k);
    if exact && k > 2 && Reaches(p, k - 1, before, Some(e.ts)) {
      SpacedLast(p, ds, es, i, k);
    }
    hide Runs;
    hide Timely;
    hide Reaches;
    hide NextDeques;
    hide Next;
    hide Spaced;
    SoundNext(p, ds[k], ds[k - 1], before, e, k);
    if exact {
      FoundNext(p, ds[k], ds[k - 1], before, e, k);
      if k == 1 {
        FirstsNext(p, ds[1], ds[0], before, e);
      }
    }
  }

  lemma KnowsRelevant(nfa: Nfa, p: Pattern, ds: Deques, es: seq<Event>, i: nat, exact: bool, limit: nat)
    requires Runs(nfa, p) && i < |es| && es[i].eventType in nfa.relevant && NonDecreasing(es)
    requires Knows(Live(ds), p, es, i, exact) && (exact ==> |p.steps| <= 2 || Spaced(es))
    ensures |ds| == |nfa.states|
    ensures Knows(ProcessEvent(nfa, ds, es[i], limit), p, es, i + 1, exact)
  {
    var e, n := es[i], |p.steps|;
    assert es[..i + 1] == es[..i] + [e];
    RunsSize(nfa, p);
    RunsEvent(nfa, p, ds, e, limit);
    NextIs(nfa, p, ds, e, 0);
    TimelyNext(nfa, p, ds, es, i);
    var next := NextDeques(nfa, ds, e);
    forall k | 1 <= k <= n
      ensures Sound(p, next[k], es[..i] + [e], k)
      ensures exact ==> Found(p, next[k], es[..i] + [e], k)
      ensures exact && k == 1 ==> AllFirsts(p, next[k], es[..i] + [e])
    {
      StateNext(nfa, p, ds, es, i, exact, k);
    }
    hide Runs;
    hide NextDeques;
    hide ProcessEvent;
    hide Found;
    hide AllFirsts;
    hide Timely;
    hide Spaced;
    AcceptReaches(p, next[n], es[..i] + [e]);
    hide Sound;
    hide Reaches;
  }

  lemma AcceptReaches(p: Pattern, d: seq<Candidate>, es: seq<Event>)
    requires ValidPattern(p) && Sound(p, d, es, |p.steps|)
    ensures d != [] ==> Reaches(p, |p.steps|, es, None)
  {
    if d != [] {
      assert d[0] in d;
      ReachAnyTime(p, |p.steps|, es, Some(d[0].last + 1));
    }
  }

  lemma NeitherFires(nfa: Nfa, p: Pattern, e: string, k: nat)
    requires Runs(nfa, p) && e !in nfa.relevant && 1 <= k <= |p.steps|
    ensures ValidPattern(p) && !Fires(p, e, k) && !Kills(p, e, k)
  {
    if k > 1 {
      assert StateRuns(nfa, p, k - 1);
    }
    if k < |p.steps| {
      assert StateRuns(nfa, p, k);
    }
  }

  lemma Unmoved(nfa: Nfa, p: Pattern, es: seq<Event>, e: Event, k: nat, bound: Option<int>)
    requires Runs(nfa, p) && e.eventType !in nfa.relevant && 1 <= k <= |p.steps|
    ensures ValidPattern(p) && (Reaches(p, k, es + [e], bound) <==> Reaches(p, k, es, bound))
  {
    NeitherFires(nfa, p, e.eventType, k);
    ReachesStep(p, k, es, e, bound);
  }

  lemma KnowsIrrelevant(nfa: Nfa, p: Pattern, ds: Deques, es: seq<Event>, i: nat, exact: bool)
    requires Runs(nfa, p) && i < |es| && es[i].eventType !in nfa.relevant && NonDecreasing(es)
    requires Knows(Live(ds), p, es, i, exact)
    ensures Knows(Live(ds), p, es, i + 1, exact)
  {
    var before, e, n := es[..i], es[i], |p.steps|;
    assert es[..i + 1] == before + [e];
    RunsSize(nfa, p);
    TimelyNext(nfa, p, ds, es, i);
    forall k, bound | 1 <= k <= n ensures Reaches(p, k, before + [e], bound) <==> Reaches(p, k, before, bound) {
      Unmoved(nfa, p, before, e, k, bound);
    }
    hide Runs;
    hide Reaches;
    hide Timely;
    assert forall k :: 1 <= k <= n && Sound(p, ds[k], before, k) ==> Sound(p, ds[k], before + [e], k);
    assert forall k :: 1 <= k <= n && Found(p, ds[k], before, k) ==> Found(p, ds[k], before + [e], k);
  }

  lemma {:induction false} KnowsRun(nfa: Nfa, p: Pattern, es: seq<Event>, i: nat, exact: bool, limit: nat)
    requires Runs(nfa, p) && i <= |es| && NonDecreasing(es) && (exact ==> |p.steps| <= 2 || Spaced(es))
    ensures ValidPattern(p) && WellFormed(nfa) && Knows(Simulate(nfa, es[..i], limit), p, es, i, exact)
    decreases i
  {
    RunsSize(nfa, p);
    if i == 0 {
      SimulateStart(nfa, limit);
      assert es[..0] == [];
    } else {
      KnowsRun(nfa, p, es, i - 1, exact, limit);
      SimulateNext(nfa, es, i - 1, limit);
      hide *;
      KnowsNext(nfa, p, Simulate(nfa, es[..i - 1], limit), es, i - 1, exact, limit);
    }
  }

  lemma KnowsNext(nfa: Nfa, p: Pattern, sim: Sim, es: seq<Event>, i: nat, exact: bool, limit: nat)
    requires Runs(nfa, p) && i < |es| && NonDecreasing(es) && (exact ==> |p.steps| <= 2 || Spaced(es))
    requires ValidPattern(p) && Knows(sim, p, es, i, exact)
    ensures WellFormed(nfa) && (sim.Live? ==> |sim.deques| == |nfa.states|)
    ensures Knows(if sim.Live? then ProcessEvent(nfa, sim.deques, es[i], limit) else sim, p, es, i + 1, exact)
  {
    RunsSize(nfa, p);
    hide Runs;
    hide ProcessEvent;
    if sim.Live? {
      assert sim == Live(sim.deques);
      if es[i].eventType in nfa.relevant {
        KnowsRelevant(nfa, p, sim.deques, es, i, exact, limit);
      } else {
        KnowsIrrelevant(nfa, p, sim.deques, es, i, exact);
        IrrelevantStays(nfa, sim.deques, es[i], limit);
      }
    } else if sim.Matched? {
      assert es[..i + 1] == es[..i] + [es[i]];
      ReachesStep(p, |p.steps|, es[..i], es[i], None);
      NothingKillsAccept(p, es[i].eventType);
    }
    hide Informed;
    hide Timely;
    hide Reaches;
    hide Spaced;
  }

  lemma NothingKillsAccept(p: Pattern, e: string)
    requires ValidPattern(p)
    ensures !Kills(p, e, |p.steps|)
  {
  }

  lemma IrrelevantStays(nfa: Nfa, ds: Deques, e: Event, limit: nat)
    requires WellFormed(nfa) && |ds| == |nfa.states| && e.eventType !in nfa.relevant
    ensures ProcessEvent(nfa, ds, e, limit) == Live(ds)
  {
  }

  /** For any pattern a match is always an occurrence, ties or not; and no occurrence is missed when times
      are spaced or the pattern has at most two steps. */
  lemma SimulatorFinds(nfa: Nfa, p: Pattern, es: seq<Event>, limit: nat)
    requires Runs(nfa, p) && NonDecreasing(es)
    ensures ValidPattern(p) && WellFormed(nfa)
    ensures var r := Simulate(nfa, es, limit);
      && r != TablePanic && (r.Matched? ==> Occurs(p, es))
      && (r.Live? && (|p.steps| <= 2 || Spaced(es)) ==> !Occurs(p, es))
  {
    assert es[..|es|] == es;
    RunsSize(nfa, p);
    OccursIff(p, es);
    KnowsRun(nfa, p, es, |es|, false, limit);
    if |p.steps| <= 2 || Spaced(es) {
      KnowsRun(nfa, p, es, |es|, true, limit);
    }
    hide Runs;
    hide Simulate;
    hide Reaches;
    hide Spaced;
  }
}

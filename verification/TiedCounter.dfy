/** What the fast path computes when timestamps may be equal. */
module TiedCounter {
  import opened Text
  import opened PatternNfa
  import opened PatternBuilders
  import opened PatternCandidates
  import opened Occurrences
  import opened StraightPatterns
  import opened StepCounter

  function StepsMatched(track: Option<Track>): nat {
    if track.None? then 0 else track.value.step
  }

  // ── The counter is greedy ─────────────────────────────────────────────────

  /** The last matched step was matched as early as possible. */
  ghost predicate EarliestAt(p: Pattern, k: nat, es: seq<Event>, last: int)
    requires ValidPattern(p) && 1 <= k <= |p.steps|
  {
    && (forall x :: Reaches(p, k, es, Some(x)) <==> x > last)
    && exists i :: 0 <= i < |es| && last == es[i].ts
  }

  ghost predicate NoneAfter(p: Pattern, c: nat, es: seq<Event>)
    requires ValidPattern(p)
  {
    forall k :: c < k <= |p.steps| ==> !Reaches(p, k, es, None)
  }

  /** The counter has matched as many steps as occur, the last of them as early as possible. */
  ghost predicate Greedy(p: Pattern, es: seq<Event>, track: Option<Track>)
    requires ValidPattern(p)
  {
    var c := StepsMatched(track);
    c < |p.steps| && NoneAfter(p, c, es) && (track.Some? ==> c > 0 && EarliestAt(p, c, es, track.value.last))
  }

  /** What is forbidden on a later state is forbidden on every earlier one. */
  predicate NestedPoison(p: Pattern)
    requires ValidPattern(p)
  {
    forall j, k :: 1 <= j < k < |p.steps| ==> p.poison[k] <= p.poison[j]
  }

  /** The first step starts a track where none is left. */
  lemma Begin(p: Pattern, es: seq<Event>, c: nat, e: Event)
    requires ValidPattern(p) && NestedPoison(p) && c < |p.steps| && NoneAfter(p, c, es) && (c > 0 ==> Kills(p, e.eventType, c))
    ensures NoneAfter(p, 1, es + [e])
    ensures if Fires(p, e.eventType, 1) then EarliestAt(p, 1, es + [e], e.ts) else NoneAfter(p, 0, es + [e])
    ensures Fires(p, e.eventType, 1) ==> Reaches(p, 1, es + [e], None)
  {
    forall k, bound | 1 <= k <= |p.steps|
      ensures Reaches(p, k, es + [e], bound) <==> k == 1 && Fires(p, e.eventType, 1) && (bound.Some? ==> e.ts < bound.value)
    {
      BeginAt(p, es, c, e, k, bound);
    }
    assert (es + [e])[|es|].ts == e.ts;
    hide Reaches;
    hide Kills;
    hide Fires;
  }

  lemma BeginAt(p: Pattern, es: seq<Event>, c: nat, e: Event, k: nat, bound: Option<int>)
    requires ValidPattern(p) && NestedPoison(p) && c < |p.steps| && NoneAfter(p, c, es) && (c > 0 ==> Kills(p, e.eventType, c))
    requires 1 <= k <= |p.steps|
    ensures Reaches(p, k, es + [e], bound) <==> k == 1 && Fires(p, e.eventType, 1) && (bound.Some? ==> e.ts < bound.value)
  {
    ReachesStep(p, k, es, e, bound);
    assert forall j :: 1 <= j <= c ==> Kills(p, e.eventType, j);
    hide Reaches;
    hide Fires;
    hide Kills;
    if Reaches(p, k, es, bound) {
      ReachAnyTime(p, k, es, bound);
    }
    if k > 1 && Reaches(p, k - 1, es, Some(e.ts)) {
      ReachAnyTime(p, k - 1, es, Some(e.ts));
    }
  }

  lemma Advance(p: Pattern, es: seq<Event>, c: nat, last: int, e: Event)
    requires ValidPattern(p) && 1 <= c < |p.steps| && NoneAfter(p, c, es) && EarliestAt(p, c, es, last)
    requires !Kills(p, e.eventType, c) && Fires(p, e.eventType, c + 1) && e.ts > last
    ensures EarliestAt(p, c + 1, es + [e], e.ts) && NoneAfter(p, c + 1, es + [e]) && Reaches(p, c + 1, es + [e], None)
  {
    forall x ensures Reaches(p, c + 1, es + [e], Some(x)) <==> x > e.ts {
      ReachesStep(p, c + 1, es, e, Some(x));
      if Reaches(p, c + 1, es, Some(x)) {
        ReachAnyTime(p, c + 1, es, Some(x));
      }
    }
    ReachesStep(p, c + 1, es, e, None);
    forall k | c + 1 < k <= |p.steps| ensures !Reaches(p, k, es + [e], None) {
      Later(p, es, c, e, k);
    }
    assert (es + [e])[|es|].ts == e.ts;
    hide Reaches;
    hide Kills;
    hide Fires;
  }

  /** An event reaches at most one step further. */
  lemma Later(p: Pattern, es: seq<Event>, c: nat, e: Event, k: nat)
    requires ValidPattern(p) && NoneAfter(p, c, es) && c + 1 < k <= |p.steps|
    ensures !Reaches(p, k, es + [e], None)
  {
    ReachesStep(p, k, es, e, None);
    hide Reaches;
    if Reaches(p, k - 1, es, Some(e.ts)) {
      ReachAnyTime(p, k - 1, es, Some(e.ts));
    }
  }

  lemma Stay(p: Pattern, es: seq<Event>, c: nat, last: int, e: Event)
    requires ValidPattern(p) && 1 <= c < |p.steps| && NoneAfter(p, c, es) && EarliestAt(p, c, es, last) && NonDecreasing(es + [e])
    requires !Kills(p, e.eventType, c) && !(Fires(p, e.eventType, c + 1) && e.ts > last)
    ensures EarliestAt(p, c, es + [e], last) && NoneAfter(p, c, es + [e])
  {
    var i :| 0 <= i < |es| && last == es[i].ts;
    assert (es + [e])[i].ts <= (es + [e])[|es|].ts && last == (es + [e])[i].ts;
    forall x ensures Reaches(p, c, es + [e], Some(x)) <==> x > last {
      ReachesStep(p, c, es, e, Some(x));
    }
    ReachesStep(p, c + 1, es, e, None);
    forall k | c < k <= |p.steps| ensures !Reaches(p, k, es + [e], None) {
      if k > c + 1 {
        Later(p, es, c, e, k);
      }
    }
    hide Reaches;
    hide Kills;
    hide Fires;
  }

  // ── The fast path on nested poison ────────────────────────────────────────

  /** One event, in terms of the pattern. */
  lemma CountMoves(nfa: Nfa, steps: seq<string>, track: Option<Track>, e: Event)
    requires Straight(nfa, steps) && Countable(nfa) && ValidTrack(nfa, track) && StepsMatched(track) < |steps|
    ensures |steps| <= |nfa.states| && ValidPattern(PatternOf(nfa, steps))
    ensures var p, c, r := PatternOf(nfa, steps), StepsMatched(track), CountEvent(nfa, track, e);
      if c == 0 || Kills(p, e.eventType, c) then
        r == if !Fires(p, e.eventType, 1) then Counting(None)
             else if |steps| == 1 then Complete(e.ts, e.ts) else Counting(Some(Track(1, e.ts, e.ts)))
      else if Fires(p, e.eventType, c + 1) && e.ts > track.value.last then
        r == if c + 1 == |steps| then Complete(track.value.anchor, e.ts) else Counting(Some(Track(c + 1, track.value.anchor, e.ts)))
      else r == Counting(track)
  {
    StraightCountable(nfa, steps);
    assert StraightState(nfa, steps, 0) && StraightState(nfa, steps, StepsMatched(track));
    hide Straight;
  }

  lemma CountNext(nfa: Nfa, steps: seq<string>, es: seq<Event>, track: Option<Track>, e: Event)
    requires Straight(nfa, steps) && Countable(nfa) && ValidTrack(nfa, track) && NonDecreasing(es + [e])
    requires |steps| <= |nfa.states| && NestedPoison(PatternOf(nfa, steps)) && Greedy(PatternOf(nfa, steps), es, track)
    ensures var p, r := PatternOf(nfa, steps), CountEvent(nfa, track, e);
      (r.Complete? ==> Reaches(p, |steps|, es + [e], None)) && (r.Counting? ==> Greedy(p, es + [e], r.track))
  {
    var p, c := PatternOf(nfa, steps), StepsMatched(track);
    PatternSteps(nfa, steps);
    CountMoves(nfa, steps, track, e);
    hide Straight;
    hide CountEvent;
    hide PatternOf;
    hide NestedPoison;
    hide EarliestAt;
    hide NoneAfter;
    hide Kills;
    hide Fires;
    hide Reaches;
    if c == 0 || Kills(p, e.eventType, c) {
      Begin(p, es, c, e);
    } else if Fires(p, e.eventType, c + 1) && e.ts > track.value.last {
      Advance(p, es, c, track.value.last, e);
    } else {
      Stay(p, es, c, track.value.last, e);
    }
  }

  lemma GreedyNothing(p: Pattern)
    requires ValidPattern(p)
    ensures Greedy(p, [], None)
  {
  }

  lemma {:induction false} GreedyRun(nfa: Nfa, steps: seq<string>, es: seq<Event>)
    requires Straight(nfa, steps) && Countable(nfa) && NonDecreasing(es)
    requires |steps| <= |nfa.states| && ValidPattern(PatternOf(nfa, steps)) && NestedPoison(PatternOf(nfa, steps))
    ensures var p, r := PatternOf(nfa, steps), CountAll(nfa, es);
      (r.Complete? ==> Reaches(p, |steps|, es, None)) && (r.Counting? ==> Greedy(p, es, r.track))
  {
    var p := PatternOf(nfa, steps);
    PatternSteps(nfa, steps);
    hide Straight;
    hide PatternOf;
    hide NestedPoison;
    hide Greedy;
    hide CountEvent;
    if es == [] {
      GreedyNothing(p);
    } else {
      var before, e := es[..|es| - 1], es[|es| - 1];
      GreedyRun(nfa, steps, before);
      assert before + [e] == es;
      var r := CountAll(nfa, before);
      if r.Complete? {
        ReachesStep(p, |steps|, before, e, None);
      } else {
        CountNext(nfa, steps, before, r.track, e);
      }
      hide Reaches;
    }
  }

  lemma GreedyMisses(p: Pattern, es: seq<Event>, track: Option<Track>)
    requires ValidPattern(p) && Greedy(p, es, track)
    ensures !Reaches(p, |p.steps|, es, None)
  {
  }

  // ── A step that is forbidden while awaited ────────────────────────────────

  lemma {:induction false} NeverPast(p: Pattern, m: nat, k: nat, es: seq<Event>, bound: Option<int>)
    requires ValidPattern(p) && 1 <= m < k <= |p.steps| && p.steps[m] in p.poison[m]
    ensures !Reaches(p, k, es, bound)
    decreases |es|
  {
    if es != [] {
      var rest, e := es[..|es| - 1], es[|es| - 1];
      NeverPast(p, m, k, rest, bound);
      if k > m + 1 {
        NeverPast(p, m, k - 1, rest, Some(e.ts));
      }
    }
  }

  // ── What it computes ──────────────────────────────────────────────────────

  lemma NestedIs(nfa: Nfa, steps: seq<string>)
    requires steps != [] && |steps| <= |nfa.states|
    ensures Nested(nfa, steps) ==> NestedPoison(PatternOf(nfa, steps))
  {
    var p := PatternOf(nfa, steps);
    if Nested(nfa, steps) {
      forall j, k | 1 <= j < k < |steps| ensures p.poison[k] <= p.poison[j] {
        assert NestedAt(nfa, j, k);
      }
    }
  }

  /** For timestamps in order, ties included, and on the patterns of `FastPathIff`, the fast path completes
      exactly where the pattern occurs: its steps in order at strictly increasing timestamps, with nothing
      forbidden in between. */
  lemma CountsOccurrences(nfa: Nfa, steps: seq<string>, es: seq<Event>)
    requires Straight(nfa, steps) && NonDecreasing(es) && (SelfBlocking(nfa, steps) || Nested(nfa, steps))
    ensures Countable(nfa) && |steps| <= |nfa.states| && ValidPattern(PatternOf(nfa, steps))
    ensures CountAll(nfa, es).Complete? <==> Occurs(PatternOf(nfa, steps), es)
  {
    StraightCountable(nfa, steps);
    StraightSize(nfa, steps);
    PatternSteps(nfa, steps);
    var p := PatternOf(nfa, steps);
    OccursIff(p, es);
    hide Straight;
    if SelfBlocking(nfa, steps) {
      var m :| 1 <= m < |steps| && steps[m] in nfa.states[m].poison;
      BlockedRun(nfa, steps, es, |es|, m, 0);
      assert es[..|es|] == es;
      NeverPast(p, m, |steps|, es, None);
    } else {
      NestedIs(nfa, steps);
      hide PatternOf;
      GreedyRun(nfa, steps, es);
      var r := CountAll(nfa, es);
      hide CountAll;
      if r.Counting? {
        GreedyMisses(p, es, r.track);
      }
      hide Greedy;
    }
    hide Reaches;
  }

  // ── The builders' patterns ────────────────────────────────────────────────

  /** Steps in a row with `poison` forbidden between the first and the second. */
  function RowWithout(steps: seq<string>, poison: string): Pattern
    requires steps != []
  {
    Pattern({steps[0]}, steps, seq(|steps|, k => if k == 1 then {poison} else {}))
  }

  lemma LinearPattern(steps: seq<string>)
    requires 1 <= |steps| <= 255
    ensures Straight(Linear(steps), steps) && |steps| <= |Linear(steps).states|
    ensures PatternOf(Linear(steps), steps) == Row(steps)
  {
    LinearStraight(steps);
    LinearStates(steps);
    var p := PatternOf(Linear(steps), steps);
    hide Linear;
    hide Straight;
    forall k | 0 <= k < |steps| ensures p.poison[k] == Row(steps).poison[k] {
      assert p.poison[k] == {};
    }
  }

  lemma NegationPattern(steps: seq<string>, poison: string)
    requires 2 <= |steps| <= 255
    ensures Straight(Negation(steps, poison), steps) && |steps| <= |Negation(steps, poison).states|
    ensures PatternOf(Negation(steps, poison), steps) == RowWithout(steps, poison)
  {
    NegationStraight(steps, poison);
    NegationStates(steps, poison);
    var p := PatternOf(Negation(steps, poison), steps);
    hide Negation;
    hide Straight;
    forall k | 0 <= k < |steps| ensures p.poison[k] == RowWithout(steps, poison).poison[k] {
      assert p.poison[k] == if k == 1 then {poison} else {};
    }
  }

  /** In particular on linear patterns. */
  lemma CountsLinear(steps: seq<string>, es: seq<Event>)
    requires 1 <= |steps| <= 255 && NonDecreasing(es)
    ensures Countable(Linear(steps)) && (CountAll(Linear(steps), es).Complete? <==> Occurs(Row(steps), es))
  {
    LinearPattern(steps);
    LinearNested(steps);
    hide *;
    CountsOccurrences(Linear(steps), steps, es);
  }

  /** And on those with a WITHOUT clause on the second step. */
  lemma CountsNegation(steps: seq<string>, poison: string, es: seq<Event>)
    requires 2 <= |steps| <= 255 && NonDecreasing(es)
    ensures Countable(Negation(steps, poison))
    ensures CountAll(Negation(steps, poison), es).Complete? <==> Occurs(RowWithout(steps, poison), es)
  {
    NegationPattern(steps, poison);
    NegationNested(steps, poison);
    hide *;
    CountsOccurrences(Negation(steps, poison), steps, es);
  }
}

/** The engine's fast path for linear patterns, a single counter, against its automaton simulator. */
module StepCounter {
  import opened Text
  import opened PatternNfa
  import opened PatternBuilders
  import opened PatternCandidates
  import opened Occurrences
  import opened StraightPatterns

  /** The one track of a pattern without bindings: the steps matched so far, the timestamp of the
      first and of the last of them. */
  datatype Track = Track(step: nat, anchor: int, last: int)

  datatype Count = Counting(track: Option<Track>) | Complete(anchor: int, final: int)

  /** The counter is 8 bits wide; up to 255 steps it counts to the accepting state. */
  predicate Countable(nfa: Nfa) {
    0 < nfa.accept < 256 && |nfa.states| == nfa.accept + 1
  }

  predicate ValidTrack(nfa: Nfa, track: Option<Track>) {
    track.Some? ==> 1 <= track.value.step < nfa.accept
  }

  /** Phase 1: a running track dies of poison, or advances on its next step. */
  function AdvanceTrack(nfa: Nfa, t: Track, e: Event): (r: Count)
    requires Countable(nfa) && ValidTrack(nfa, Some(t))
    ensures r.Counting? ==> ValidTrack(nfa, r.track)
  {
    var state := nfa.states[t.step];
    if e.eventType in state.poison then Counting(None)
    else if state.transitions != [] && state.transitions[0].eventType == e.eventType && e.ts > t.last then
      if t.step + 1 == nfa.accept then Complete(t.anchor, e.ts)
      else Counting(Some(Track(t.step + 1, t.anchor, e.ts)))
    else Counting(Some(t))
  }

  /** Phase 2: without a track, the first step starts one. */
  function CheckStep0(nfa: Nfa, e: Event): (r: Count)
    requires Countable(nfa)
    ensures r.Counting? ==> ValidTrack(nfa, r.track)
  {
    var ts := nfa.states[0].transitions;
    if ts == [] || ts[0].eventType != e.eventType then Counting(None)
    else if nfa.accept == 1 then Complete(e.ts, e.ts)
    else Counting(Some(Track(1, e.ts, e.ts)))
  }

  function CountEvent(nfa: Nfa, track: Option<Track>, e: Event): (r: Count)
    requires Countable(nfa) && ValidTrack(nfa, track)
    ensures r.Counting? ==> ValidTrack(nfa, r.track)
  {
    if e.eventType !in nfa.relevant then Counting(track)
    else
      var first := if track.Some? then AdvanceTrack(nfa, track.value, e) else Counting(None);
      if first == Counting(None) then CheckStep0(nfa, e) else first
  }

  function CountAll(nfa: Nfa, es: seq<Event>): (r: Count)
    requires Countable(nfa)
    ensures r.Counting? ==> ValidTrack(nfa, r.track)
  {
    if es == [] then Counting(None)
    else
      match CountAll(nfa, es[..|es| - 1])
      case Complete(a, f) => Complete(a, f)
      case Counting(track) => CountEvent(nfa, track, es[|es| - 1])
  }

  lemma StraightCountable(nfa: Nfa, steps: seq<string>)
    requires Straight(nfa, steps)
    ensures Countable(nfa) && nfa.accept == |steps| && |nfa.states| == |steps| + 1
    ensures forall k :: 0 <= k < |steps| ==> nfa.states[k].transitions == [Transition(steps[k], k + 1)]
  {
    forall k | 0 <= k < |steps| ensures nfa.states[k].transitions == [Transition(steps[k], k + 1)] {
      assert StraightState(nfa, steps, k);
    }
  }

  // ── When the two simulators agree ─────────────────────────────────────────

  /** The same match, or none on either side. */
  predicate SameMatch(sim: Sim, count: Count) {
    match sim
    case Live(_) => count.Counting?
    case Matched(a, f) => count == Complete(a, f)
    case TablePanic => false
    case OverLimit => true
  }

  ghost predicate AlwaysAgree(nfa: Nfa)
    requires WellFormed(nfa) && Countable(nfa)
  {
    forall es, limit :: Increasing(es) ==> SameMatch(Simulate(nfa, es, limit), CountAll(nfa, es))
  }

  /** A step is forbidden while it is awaited. */
  predicate SelfBlocking(nfa: Nfa, steps: seq<string>)
    requires |steps| <= |nfa.states|
  {
    exists m :: 1 <= m < |steps| && steps[m] in nfa.states[m].poison
  }

  /** What is forbidden on a later state is forbidden on every earlier one. */
  predicate Nested(nfa: Nfa, steps: seq<string>)
    requires |steps| <= |nfa.states|
  {
    forall j, k :: 1 <= j < k < |steps| ==> NestedAt(nfa, j, k)
  }

  predicate NestedAt(nfa: Nfa, j: nat, k: nat)
    requires j < |nfa.states| && k < |nfa.states|
  {
    forall y <- nfa.states[k].poison :: y in nfa.states[j].poison
  }

  /** Exactly on which straight patterns the fast path finds the same first match as the automaton
      simulator, for all events with strictly increasing timestamps. */
  lemma FastPathIff(nfa: Nfa, steps: seq<string>)
    requires Straight(nfa, steps)
    ensures Countable(nfa)
    ensures AlwaysAgree(nfa) <==> SelfBlocking(nfa, steps) || Nested(nfa, steps)
  {
    StraightCountable(nfa, steps);
    hide Straight;
    hide Countable;
    if SelfBlocking(nfa, steps) || Nested(nfa, steps) {
      forall es, limit | Increasing(es) ensures SameMatch(Simulate(nfa, es, limit), CountAll(nfa, es)) {
        FastPathAgrees(nfa, steps, es, limit);
      }
    } else {
      var j, y := Unnested(nfa, steps);
      var es := Probe(steps, j, y);
      var limit := EnoughLimit(nfa, es);
      ProbeDisagrees(nfa, steps, j, y, limit);
      ProbeIncreasing(steps, j, y);
      assert !SameMatch(Simulate(nfa, es, limit), CountAll(nfa, es));
    }
  }

  lemma FastPathAgrees(nfa: Nfa, steps: seq<string>, es: seq<Event>, limit: nat)
    requires Straight(nfa, steps) && Increasing(es) && (SelfBlocking(nfa, steps) || Nested(nfa, steps))
    ensures Countable(nfa)
    ensures SameMatch(Simulate(nfa, es, limit), CountAll(nfa, es))
  {
    StraightCountable(nfa, steps);
    assert es[..|es|] == es;
    hide Straight;
    if SelfBlocking(nfa, steps) {
      var m :| 1 <= m < |steps| && steps[m] in nfa.states[m].poison;
      BlockedRun(nfa, steps, es, |es|, m, limit);
    } else {
      LinkedRun(nfa, steps, es, |es|, limit);
    }
  }

  // ── Nested poison ─────────────────────────────────────────────────────────

  /** The counter stands on the last occupied state, at the anchor in front of its deque. */
  ghost predicate Linked(ds: Deques, track: Option<Track>, n: nat)
    requires |ds| == n + 1
  {
    && ds[0] == []
    && match track
       case None => forall k :: 0 <= k <= n ==> ds[k] == []
       case Some(t) =>
         && 1 <= t.step < n && ds[t.step] != [] && (forall k :: t.step < k <= n ==> ds[k] == [])
         && ds[t.step][0].anchor == t.anchor
  }

  /** What the next deques amount to, as the counter sees them. */
  ghost predicate Shows(next: Deques, count: Count, n: nat)
    requires |next| == n + 1
  {
    match count
    case Complete(a, f) => next[n] != [] && next[n][0] == Candidate(a, f)
    case Counting(track) => next[n] == [] && Linked(next, track, n)
  }

  /** With every candidate killed, only the first step counts. */
  lemma FromNothing(nfa: Nfa, steps: seq<string>, ds: Deques, e: Event)
    requires Straight(nfa, steps) && Countable(nfa) && |ds| == |steps| + 1 && ds[0] == []
    requires Past(ds, e.ts - 1) && forall k :: 0 <= k <= |steps| ==> Left(nfa, ds, e.eventType, k) == []
    ensures Shows(NextDeques(nfa, ds, e), CheckStep0(nfa, e), |steps|)
  {
    var next := NextDeques(nfa, ds, e);
    StraightCountable(nfa, steps);
    NothingInStart(nfa, steps, ds, e);
    forall k | 0 < k <= |steps|
      ensures next[k] != [] <==> k == 1 && e.eventType == steps[0]
      ensures next[k] != [] ==> next[k][0] == Candidate(e.ts, e.ts)
    {
      NextFront(nfa, steps, ds, e, k);
    }
    hide Straight;
    hide NextDeques;
    hide Past;
  }

  /** A running track that poison spares goes on. */
  lemma FromTrack(nfa: Nfa, steps: seq<string>, ds: Deques, t: Track, e: Event)
    requires Straight(nfa, steps) && Countable(nfa) && |ds| == |steps| + 1
    requires Linked(ds, Some(t), |steps|) && Past(ds, e.ts - 1) && t.last < e.ts
    requires e.eventType !in nfa.states[t.step].poison
    ensures ValidTrack(nfa, Some(t)) && AdvanceTrack(nfa, t, e) != Counting(None)
    ensures Shows(NextDeques(nfa, ds, e), AdvanceTrack(nfa, t, e), |steps|)
  {
    var next, c := NextDeques(nfa, ds, e), t.step;
    StraightCountable(nfa, steps);
    NothingInStart(nfa, steps, ds, e);
    NextFront(nfa, steps, ds, e, c);
    NextFront(nfa, steps, ds, e, c + 1);
    forall k | c + 1 < k <= |steps| ensures next[k] == [] {
      NextFront(nfa, steps, ds, e, k);
    }
    hide Straight;
    hide NextDeques;
    hide Past;
  }

  /** One event keeps the two simulators together. */
  lemma LinkedStep(nfa: Nfa, steps: seq<string>, ds: Deques, track: Option<Track>, e: Event)
    requires Straight(nfa, steps) && Countable(nfa) && Nested(nfa, steps) && |ds| == |steps| + 1
    requires Linked(ds, track, |steps|) && Past(ds, e.ts - 1) && (track.Some? ==> track.value.last < e.ts)
    requires e.eventType in nfa.relevant
    ensures ValidTrack(nfa, track)
    ensures Shows(NextDeques(nfa, ds, e), CountEvent(nfa, track, e), |steps|)
  {
    StraightCountable(nfa, steps);
    if track.Some? && e.eventType !in nfa.states[track.value.step].poison {
      FromTrack(nfa, steps, ds, track.value, e);
    } else {
      forall k | 0 <= k <= |steps| ensures Left(nfa, ds, e.eventType, k) == [] {
        if track.Some? && 1 <= k < track.value.step {
          assert NestedAt(nfa, k, track.value.step);
        }
      }
      FromNothing(nfa, steps, ds, e);
    }
    hide Straight;
    hide NextDeques;
    hide Past;
  }

  /** All timestamps in the deques are before the next event. */
  ghost predicate Ahead(ds: Deques, es: seq<Event>, i: nat) {
    i < |es| ==> Past(ds, es[i].ts - 1)
  }

  lemma AheadNext(nfa: Nfa, steps: seq<string>, ds: Deques, es: seq<Event>, i: nat)
    requires Straight(nfa, steps) && |ds| == |nfa.states| && ds[0] == []
    requires Increasing(es) && i < |es| && Ahead(ds, es, i)
    ensures Ahead(ds, es, i + 1) && Ahead(NextDeques(nfa, ds, es[i]), es, i + 1)
  {
    PastLater(ds, es[i].ts);
    StraightRuns(nfa, steps);
    NextPast(nfa, PatternOf(nfa, steps), ds, es[i]);
    if i + 1 < |es| {
      PastNext(ds, es[i].ts, es[i + 1].ts);
      PastNext(NextDeques(nfa, ds, es[i]), es[i].ts, es[i + 1].ts);
    }
  }

  ghost predicate LinkedAt(sim: Sim, count: Count, n: nat, es: seq<Event>, i: nat) {
    && SameMatch(sim, count)
    && (sim.Live? ==>
      && |sim.deques| == n + 1 && Linked(sim.deques, count.track, n) && Ahead(sim.deques, es, i)
      && (count.track.Some? && i < |es| ==> count.track.value.last < es[i].ts))
  }

  lemma {:induction false} LinkedRun(nfa: Nfa, steps: seq<string>, es: seq<Event>, i: nat, limit: nat)
    requires Straight(nfa, steps) && Countable(nfa) && Nested(nfa, steps) && Increasing(es) && i <= |es|
    ensures LinkedAt(Simulate(nfa, es[..i], limit), CountAll(nfa, es[..i]), |steps|, es, i)
  {
    StraightCountable(nfa, steps);
    if i == 0 {
      SimulateStart(nfa, limit);
      assert es[..0] == [];
    } else {
      LinkedRun(nfa, steps, es, i - 1, limit);
      SimulateNext(nfa, es, i - 1, limit);
      CountPrefix(nfa, es, i - 1);
      hide Straight;
      hide Nested;
      hide Countable;
      hide ValidTrack;
      hide Increasing;
      hide Simulate;
      hide CountAll;
      var sim := Simulate(nfa, es[..i - 1], limit);
      if sim.Live? {
        LinkedEvent(nfa, steps, sim.deques, CountAll(nfa, es[..i - 1]).track, es, i - 1, limit);
      }
    }
  }

  lemma LinkedEvent(nfa: Nfa, steps: seq<string>, ds: Deques, track: Option<Track>, es: seq<Event>, i: nat, limit: nat)
    requires Straight(nfa, steps) && Countable(nfa) && Nested(nfa, steps) && Increasing(es) && i < |es|
    requires LinkedAt(Live(ds), Counting(track), |steps|, es, i)
    ensures |ds| == |nfa.states| && ValidTrack(nfa, track)
    ensures LinkedAt(ProcessEvent(nfa, ds, es[i], limit), CountEvent(nfa, track, es[i]), |steps|, es, i + 1)
  {
    var e := es[i];
    StraightCountable(nfa, steps);
    AheadNext(nfa, steps, ds, es, i);
    assert i + 1 < |es| ==> es[i].ts < es[i + 1].ts;
    if e.eventType in nfa.relevant {
      LinkedStep(nfa, steps, ds, track, e);
      StraightEvent(nfa, steps, ds, e, limit);
      TrackTime(nfa, track, e);
    }
    hide Straight;
    hide NextDeques;
    hide Linked;
    hide Ahead;
    hide CountEvent;
    hide Increasing;
    hide Nested;
  }

  lemma TrackTime(nfa: Nfa, track: Option<Track>, e: Event)
    requires Countable(nfa) && ValidTrack(nfa, track) && (track.Some? ==> track.value.last <= e.ts)
    ensures var r := CountEvent(nfa, track, e); r.Counting? && r.track.Some? ==> r.track.value.last <= e.ts
  {
  }

  lemma CountPrefix(nfa: Nfa, es: seq<Event>, i: nat)
    requires Countable(nfa) && i < |es|
    ensures var r := CountAll(nfa, es[..i]);
      CountAll(nfa, es[..i + 1]) == if r.Complete? then r else CountEvent(nfa, r.track, es[i])
  {
    assert es[..i + 1] == es[..i] + [es[i]];
    CountNext(nfa, es[..i], es[i]);
  }

  // ── A step that blocks itself ─────────────────────────────────────────────

  ghost predicate BlockedAt(sim: Sim, count: Count, n: nat, m: nat) {
    && count.Counting? && (count.track.Some? ==> count.track.value.step <= m)
    && (sim == OverLimit || sim.Live?)
    && (sim.Live? ==> |sim.deques| == n + 1 && sim.deques[0] == [] && forall k :: m < k <= n ==> sim.deques[k] == [])
  }

  lemma BlockedEvent(nfa: Nfa, steps: seq<string>, ds: Deques, e: Event, m: nat, limit: nat)
    requires Straight(nfa, steps) && 1 <= m < |steps| && steps[m] in nfa.states[m].poison
    requires |ds| == |nfa.states| && |ds| == |steps| + 1 && ds[0] == [] && forall k :: m < k <= |steps| ==> ds[k] == []
    ensures var r := ProcessEvent(nfa, ds, e, limit);
      r == OverLimit || (r.Live? && |r.deques| == |steps| + 1 && r.deques[0] == []
        && forall k :: m < k <= |steps| ==> r.deques[k] == [])
  {
    if e.eventType in nfa.relevant {
      StraightEvent(nfa, steps, ds, e, limit);
      NothingInStart(nfa, steps, ds, e);
      forall k | m < k <= |steps| ensures NextDeques(nfa, ds, e)[k] == [] {
        NextEmpty(nfa, steps, ds, e, k);
      }
    }
    hide Straight;
    hide NextDeques;
  }

  lemma {:induction false} BlockedRun(nfa: Nfa, steps: seq<string>, es: seq<Event>, i: nat, m: nat, limit: nat)
    requires Straight(nfa, steps) && Countable(nfa) && i <= |es| && 1 <= m < |steps| && steps[m] in nfa.states[m].poison
    ensures BlockedAt(Simulate(nfa, es[..i], limit), CountAll(nfa, es[..i]), |steps|, m)
  {
    StraightCountable(nfa, steps);
    if i == 0 {
      SimulateStart(nfa, limit);
      assert es[..0] == [];
    } else {
      BlockedRun(nfa, steps, es, i - 1, m, limit);
      SimulateNext(nfa, es, i - 1, limit);
      CountPrefix(nfa, es, i - 1);
      hide Straight;
      var sim, count := Simulate(nfa, es[..i - 1], limit), CountAll(nfa, es[..i - 1]);
      if sim.Live? {
        BlockedEvent(nfa, steps, sim.deques, es[i - 1], m, limit);
      }
      BlockedCount(nfa, steps, count.track, es[i - 1], m);
      hide ProcessEvent;
      hide CountEvent;
      hide Simulate;
      hide CountAll;
    }
  }

  lemma BlockedCount(nfa: Nfa, steps: seq<string>, track: Option<Track>, e: Event, m: nat)
    requires Straight(nfa, steps) && Countable(nfa) && ValidTrack(nfa, track)
    requires 1 <= m < |steps| && steps[m] in nfa.states[m].poison && (track.Some? ==> track.value.step <= m)
    ensures var r := CountEvent(nfa, track, e); r.Counting? && (r.track.Some? ==> r.track.value.step <= m)
  {
    StraightCountable(nfa, steps);
    hide Straight;
    assert nfa.states[m].transitions == [Transition(steps[m], m + 1)];
  }

  // ── Poison only further on ────────────────────────────────────────────────

  /** Neighbouring states of which only the later one is poisoned by `y`. */
  lemma Unnested(nfa: Nfa, steps: seq<string>) returns (j: nat, y: string)
    requires |steps| <= |nfa.states| && !Nested(nfa, steps)
    ensures 1 <= j && j + 1 < |steps| && y in nfa.states[j + 1].poison && y !in nfa.states[j].poison
  {
    var a, b :| 1 <= a < b < |steps| && !NestedAt(nfa, a, b);
    y :| y in nfa.states[b].poison && y !in nfa.states[a].poison;
    j := a;
    while y !in nfa.states[j + 1].poison
      invariant a <= j < b && y !in nfa.states[j].poison
      decreases b - j
    {
      j := j + 1;
    }
  }

  function Stamped(types: seq<string>): (r: seq<Event>)
    ensures |r| == |types| && forall i :: 0 <= i < |r| ==> r[i] == Event(types[i], i)
  {
    seq(|types|, i requires 0 <= i < |types| => Event(types[i], i))
  }

  /** The steps up to `j`, the poison of the next state, and the steps from `j` on. */
  function Probe(steps: seq<string>, j: nat, y: string): (r: seq<Event>)
    requires j + 1 < |steps|
    ensures IsProbe(r, steps, j, y)
  {
    Stamped(steps[..j + 1] + [y] + steps[j..])
  }

  predicate IsProbe(es: seq<Event>, steps: seq<string>, j: nat, y: string)
    requires j + 1 < |steps|
  {
    && |es| == |steps| + 2
    && forall i {:trigger es[i]} :: 0 <= i < |es| ==> es[i] == Event(ProbeType(steps, j, y, i), i)
  }

  function ProbeType(steps: seq<string>, j: nat, y: string, i: nat): string
    requires j + 1 < |steps| && i < |steps| + 2
  {
    if i <= j then steps[i] else if i == j + 1 then y else steps[i - 2]
  }

  lemma ProbeIncreasing(steps: seq<string>, j: nat, y: string)
    requires j + 1 < |steps|
    ensures Increasing(Probe(steps, j, y))
  {
  }

  /** State `s` holds a candidate, and from there on each deque in use has anchor `a` in front. */
  ghost predicate Anchored(sim: Sim, n: nat, s: nat, a: int, es: seq<Event>, i: nat) {
    match sim
    case Live(ds) =>
      && |ds| == n + 1 && ds[0] == [] && 1 <= s < n && Ahead(ds, es, i)
      && ds[s] != [] && forall k :: s <= k <= n && ds[k] != [] ==> ds[k][0].anchor == a
    case Matched(anchor, _) => anchor == a
    case TablePanic => false
    case OverLimit => true
  }

  /** An event keeps the candidates of state `s` unless it is its poison, and its step moves them on. */
  lemma AnchoredEvent(nfa: Nfa, steps: seq<string>, ds: Deques, s: nat, a: int, es: seq<Event>, i: nat, limit: nat)
    requires Straight(nfa, steps) && Increasing(es) && i < |es| && Anchored(Live(ds), |steps|, s, a, es, i)
    requires es[i].eventType in nfa.relevant && |nfa.states| == |steps| + 1 && es[i].eventType !in nfa.states[s].poison
    ensures var r := ProcessEvent(nfa, ds, es[i], limit);
      && Anchored(r, |steps|, s, a, es, i + 1)
      && (es[i].eventType == steps[s] ==> Anchored(r, |steps|, s + 1, a, es, i + 1))
  {
    var e := es[i];
    var next: Deques := NextDeques(nfa, ds, e);
    StraightEvent(nfa, steps, ds, e, limit);
    AheadNext(nfa, steps, ds, es, i);
    NothingInStart(nfa, steps, ds, e);
    forall k | s <= k <= |steps|
      ensures next[k] != [] ==> next[k][0].anchor == a
      ensures k == s || (k == s + 1 && e.eventType == steps[s]) ==> next[k] != []
    {
      AnchoredState(nfa, steps, ds, s, a, e, k);
    }
    hide Straight;
    hide NextDeques;
    hide Killed;
    hide Ahead;
  }

  lemma AnchoredState(nfa: Nfa, steps: seq<string>, ds: Deques, s: nat, a: int, e: Event, k: nat)
    requires Straight(nfa, steps) && |ds| == |nfa.states| && |ds| == |steps| + 1 && ds[0] == [] && Past(ds, e.ts - 1)
    requires 1 <= s < |steps| && s <= k <= |steps| && ds[s] != [] && e.eventType !in nfa.states[s].poison
    requires forall q :: s <= q <= |steps| && ds[q] != [] ==> ds[q][0].anchor == a
    ensures var next := NextDeques(nfa, ds, e);
      && (next[k] != [] ==> next[k][0].anchor == a)
      && (k == s || (k == s + 1 && e.eventType == steps[s]) ==> next[k] != [])
  {
    StraightCountable(nfa, steps);
    NextFront(nfa, steps, ds, e, k);
    hide Straight;
    hide NextDeques;
    hide Past;
  }

  function StateAt(j: nat, i: nat): nat {
    if i <= j then i else if i <= j + 2 then j else i - 2
  }

  lemma {:induction false} ProbeRun(nfa: Nfa, steps: seq<string>, es: seq<Event>, j: nat, y: string, i: nat, limit: nat)
    requires Straight(nfa, steps) && !SelfBlocking(nfa, steps) && |nfa.states| == |steps| + 1
    requires 1 <= j && j + 1 < |steps| && y in nfa.states[j + 1].poison && y !in nfa.states[j].poison
    requires IsProbe(es, steps, j, y) && Increasing(es) && 1 <= i <= |es|
    ensures Anchored(Simulate(nfa, es[..i], limit), |steps|, StateAt(j, i), 0, es, i)
  {
    hide *;
    if i == 1 {
      ProbeFirst(es, steps, j, y);
      ProbeStart(nfa, steps, es, limit);
      StateAtOne(j);
    } else {
      StraightSize(nfa, steps);
      ProbeEvent(nfa, steps, es, j, y, i);
      ProbeRun(nfa, steps, es, j, y, i - 1, limit);
      SimulateNext(nfa, es, i - 1, limit);
      AnchoredNext(nfa, steps, Simulate(nfa, es[..i - 1], limit), StateAt(j, i - 1), StateAt(j, i), es, i - 1, limit);
    }
  }

  lemma AnchoredNext(nfa: Nfa, steps: seq<string>, sim: Sim, s: nat, t: nat, es: seq<Event>, i: nat, limit: nat)
    requires Straight(nfa, steps) && Increasing(es) && i < |es| && Anchored(sim, |steps|, s, 0, es, i)
    requires |nfa.states| == |steps| + 1 && s < |steps|
    requires es[i].eventType in nfa.relevant && es[i].eventType !in nfa.states[s].poison
    requires t == s || (t == s + 1 && es[i].eventType == steps[s])
    ensures sim.Live? ==> |sim.deques| == |nfa.states|
    ensures Anchored(if sim.Live? then ProcessEvent(nfa, sim.deques, es[i], limit) else sim, |steps|, t, 0, es, i + 1)
  {
    hide ProcessEvent;
    hide Straight;
    hide Increasing;
    if sim.Live? {
      AnchoredEvent(nfa, steps, sim.deques, s, 0, es, i, limit);
    }
    hide Ahead;
  }

  lemma StateAtOne(j: nat)
    requires 1 <= j
    ensures StateAt(j, 1) == 1
  {
  }

  lemma ProbeFirst(es: seq<Event>, steps: seq<string>, j: nat, y: string)
    requires j + 1 < |steps| && IsProbe(es, steps, j, y)
    ensures |es| == |steps| + 2 && es[0] == Event(steps[0], 0)
  {
  }

  /** Each event of the probe is relevant and spares the state it is to keep or to move. */
  lemma ProbeEvent(nfa: Nfa, steps: seq<string>, es: seq<Event>, j: nat, y: string, i: nat)
    requires Straight(nfa, steps) && !SelfBlocking(nfa, steps) && |nfa.states| == |steps| + 1
    requires 1 <= j && j + 1 < |steps| && y in nfa.states[j + 1].poison && y !in nfa.states[j].poison
    requires IsProbe(es, steps, j, y) && 1 < i <= |es|
    ensures var e, s := es[i - 1].eventType, StateAt(j, i - 1);
      && e in nfa.relevant && 1 <= s < |steps| && e !in nfa.states[s].poison
      && (StateAt(j, i) == s || (StateAt(j, i) == s + 1 && e == steps[s]))
  {
    var e, s := es[i - 1].eventType, StateAt(j, i - 1);
    assert StraightState(nfa, steps, j + 1) && StraightState(nfa, steps, s) && StraightState(nfa, steps, j);
    assert steps[s] !in nfa.states[s].poison;
    assert steps[j] !in nfa.states[j].poison;
    hide Straight;
  }

  lemma ProbeStart(nfa: Nfa, steps: seq<string>, es: seq<Event>, limit: nat)
    requires Straight(nfa, steps) && |steps| > 1 && Increasing(es) && es != [] && es[0] == Event(steps[0], 0)
    ensures Anchored(Simulate(nfa, es[..1], limit), |steps|, 1, 0, es, 1)
  {
    assert es[..0] == [];
    SimulateNext(nfa, es, 0, limit);
    SimulateStart(nfa, limit);
    StraightCountable(nfa, steps);
    assert StraightState(nfa, steps, 0);
    var ds := Simulate(nfa, [], limit).deques;
    AheadNext(nfa, steps, ds, es, 0);
    StraightEvent(nfa, steps, ds, es[0], limit);
    NothingInStart(nfa, steps, ds, es[0]);
    forall k | 0 < k <= |steps|
      ensures NextDeques(nfa, ds, es[0])[k] != [] <==> k == 1
      ensures NextDeques(nfa, ds, es[0])[k] != [] ==> NextDeques(nfa, ds, es[0])[k][0] == Candidate(0, 0)
    {
      NextFront(nfa, steps, ds, es[0], k);
    }
    hide Straight;
    hide NextDeques;
  }

  /** No track with anchor 0 is left. */
  predicate Later(count: Count) {
    match count
    case Complete(a, _) => a > 0
    case Counting(track) => track.Some? ==> track.value.anchor > 0
  }

  lemma {:induction false} ProbeCount(nfa: Nfa, steps: seq<string>, es: seq<Event>, j: nat, y: string, i: nat)
    requires Straight(nfa, steps) && !SelfBlocking(nfa, steps) && Countable(nfa) && |nfa.states| == |steps| + 1
    requires 1 <= j && j + 1 < |steps| && y in nfa.states[j + 1].poison
    requires IsProbe(es, steps, j, y) && 1 <= i <= |es|
    ensures var count := CountAll(nfa, es[..i]);
      if i <= j + 1 then count == Counting(Some(Track(i, 0, i - 1))) else Later(count)
  {
    CountPrefix(nfa, es, i - 1);
    if i == 1 {
      CountFirst(nfa, steps, es);
      hide *;
      assert es[..0] == [];
    } else {
      ProbeCount(nfa, steps, es, j, y, i - 1);
      var r := CountAll(nfa, es[..i - 1]);
      hide CountAll;
      if i <= j + 1 {
        CountProbe(nfa, steps, es, j, y, i);
        hide *;
      } else {
        assert StraightState(nfa, steps, j + 1);
        assert i == j + 2 ==> es[i - 1].eventType == y;
        hide Straight;
        hide SelfBlocking;
        hide CountEvent;
        hide IsProbe;
        assert es[i - 1].ts > 0;
        if r.Counting? {
          LaterEvent(nfa, r.track, es[i - 1], i == j + 2);
        }
      }
    }
  }

  lemma CountFirst(nfa: Nfa, steps: seq<string>, es: seq<Event>)
    requires Straight(nfa, steps) && |steps| > 1 && es != [] && es[0] == Event(steps[0], 0) && Countable(nfa)
    ensures CountAll(nfa, []) == Counting(None) && CountEvent(nfa, None, es[0]) == Counting(Some(Track(1, 0, 0)))
  {
    StraightCountable(nfa, steps);
    assert StraightState(nfa, steps, 0);
  }

  lemma CountProbe(nfa: Nfa, steps: seq<string>, es: seq<Event>, j: nat, y: string, i: nat)
    requires Straight(nfa, steps) && !SelfBlocking(nfa, steps) && Countable(nfa) && |nfa.states| == |steps| + 1
    requires j + 1 < |steps| && IsProbe(es, steps, j, y) && 1 < i <= j + 1
    ensures ValidTrack(nfa, Some(Track(i - 1, 0, i - 2)))
    ensures CountEvent(nfa, Some(Track(i - 1, 0, i - 2)), es[i - 1]) == Counting(Some(Track(i, 0, i - 1)))
  {
    StraightCountable(nfa, steps);
    assert StraightState(nfa, steps, i - 1);
    assert steps[i - 1] !in nfa.states[i - 1].poison;
    assert es[i - 1] == Event(steps[i - 1], i - 1);
    hide Straight;
    hide SelfBlocking;
    hide IsProbe;
  }

  lemma LaterEvent(nfa: Nfa, track: Option<Track>, e: Event, killed: bool)
    requires Countable(nfa) && ValidTrack(nfa, track) && e.ts > 0
    requires if killed then e.eventType in nfa.relevant && (track.Some? ==> e.eventType in nfa.states[track.value.step].poison)
             else Later(Counting(track))
    ensures Later(CountEvent(nfa, track, e))
  {
  }

  lemma ProbeDisagrees(nfa: Nfa, steps: seq<string>, j: nat, y: string, limit: nat)
    requires Straight(nfa, steps) && !SelfBlocking(nfa, steps) && Countable(nfa) && |nfa.states| == |steps| + 1
    requires 1 <= j && j + 1 < |steps| && y in nfa.states[j + 1].poison && y !in nfa.states[j].poison
    requires Simulate(nfa, Probe(steps, j, y), limit) != OverLimit
    ensures !SameMatch(Simulate(nfa, Probe(steps, j, y), limit), CountAll(nfa, Probe(steps, j, y)))
  {
    var es, n := Probe(steps, j, y), |steps|;
    ProbeIncreasing(steps, j, y);
    ProbeRun(nfa, steps, es, j, y, n + 2, limit);
    ProbeCount(nfa, steps, es, j, y, n + 2);
    assert es[..n + 2] == es && StateAt(j, n + 2) == n;
  }

  // ── The builders' patterns ────────────────────────────────────────────────

  lemma LinearNested(steps: seq<string>)
    requires 1 <= |steps| <= 255
    ensures |steps| <= |Linear(steps).states| && Nested(Linear(steps), steps)
  {
    LinearStates(steps);
    hide Linear;
  }

  lemma NegationNested(steps: seq<string>, poison: string)
    requires 2 <= |steps| <= 255
    ensures |steps| <= |Negation(steps, poison).states| && Nested(Negation(steps, poison), steps)
  {
    NegationStates(steps, poison);
    hide Negation;
  }

  /** Linear patterns and patterns with a WITHOUT clause on the second step are of that kind. */
  lemma BuildersAgree(steps: seq<string>, poison: string)
    requires 2 <= |steps| <= 255
    ensures WellFormed(Linear(steps)) && Countable(Linear(steps)) && AlwaysAgree(Linear(steps))
    ensures WellFormed(Negation(steps, poison)) && Countable(Negation(steps, poison)) && AlwaysAgree(Negation(steps, poison))
  {
    LinearStraight(steps);
    NegationStraight(steps, poison);
    LinearNested(steps);
    NegationNested(steps, poison);
    LinearWellFormed(steps);
    NegationWellFormed(steps, poison);
    hide *;
    FastPathIff(Linear(steps), steps);
    FastPathIff(Negation(steps, poison), steps);
  }

  // ── What a match reports ──────────────────────────────────────────────────

  /** Event `i` is of the first step and has the timestamp `anchor`, and from it on the events have
      the first `k` steps in order, the last of them with the timestamp `last`. */
  predicate Spans(steps: seq<string>, es: seq<Event>, i: nat, k: nat, anchor: int, last: int)
    requires 1 <= k <= |steps|
  {
    i < |es| && es[i].eventType == steps[0] && es[i].ts == anchor
    && IsSubseq(steps[..k], Types(es[i..]))
    && exists j :: i <= j < |es| && es[j].ts == last && es[j].eventType == steps[k - 1]
  }

  lemma SpansLater(steps: seq<string>, es: seq<Event>, e: Event, i: nat, k: nat, anchor: int, last: int)
    requires 1 <= k <= |steps| && Spans(steps, es, i, k, anchor, last)
    ensures Spans(steps, es + [e], i, k, anchor, last)
    ensures k < |steps| && e.eventType == steps[k] ==> Spans(steps, es + [e], i, k + 1, anchor, e.ts)
  {
    var more := es + [e];
    var before, after := Types(es[i..]), Types(more[i..]);
    assert after[..|after| - 1] == before && after[|after| - 1] == e.eventType;
    var j :| i <= j < |es| && es[j].ts == last && es[j].eventType == steps[k - 1];
    assert more[j] == es[j] && more[|es|] == e;
    if k < |steps| {
      assert steps[..k + 1][..k] == steps[..k] && steps[..k + 1][k] == steps[k];
    }
  }

  lemma SpansFirst(steps: seq<string>, es: seq<Event>, e: Event)
    requires steps != [] && e.eventType == steps[0]
    ensures Spans(steps, es + [e], |es|, 1, e.ts, e.ts)
  {
    var more := es + [e];
    assert more[|es|..] == [e] && more[|es|] == e;
    assert Types([e])[..0] == [] && steps[..1] == [steps[0]];
    assert IsSubseq([], Types([e])[..0]);
  }

  /** A match reported spans from an event of the first step, its anchor, to the event just processed,
      and has all steps in order between them. */
  lemma {:induction false} CompleteSpans(nfa: Nfa, steps: seq<string>, es: seq<Event>) returns (i: nat, n: nat)
    requires Straight(nfa, steps)
    ensures Countable(nfa) && nfa.accept == |steps|
    ensures match CountAll(nfa, es)
      case Complete(a, f) =>
        n <= |es| && n > 0 && Spans(steps, es[..n], i, |steps|, a, f) && es[n - 1].ts == f && CountAll(nfa, es[..n - 1]).Counting?
      case Counting(Some(t)) => t.step < |steps| && t.step > 0 && Spans(steps, es, i, t.step, t.anchor, t.last)
      case Counting(None) => true
  {
    StraightCountable(nfa, steps);
    i, n := 0, 0;
    if es != [] {
      var before, e := es[..|es| - 1], es[|es| - 1];
      i, n := CompleteSpans(nfa, steps, before);
      hide Straight;
      hide Spans;
      match CountAll(nfa, before)
      case Complete(a, f) =>
        assert es[..n] == before[..n] && es[..n - 1] == before[..n - 1];
      case Counting(track) =>
        i := EventSpans(nfa, steps, before, e, track, i);
        assert es == before + [e] && es[..|es|] == es;
        n := |es|;
    }
  }

  /** One more event after a track that spans `before` from event `from`. */
  lemma EventSpans(nfa: Nfa, steps: seq<string>, before: seq<Event>, e: Event, track: Option<Track>, from: nat)
    returns (i: nat)
    requires Countable(nfa) && nfa.accept == |steps| && |nfa.states| == |steps| + 1 && ValidTrack(nfa, track)
    requires forall k :: 0 <= k < |steps| ==> nfa.states[k].transitions == [Transition(steps[k], k + 1)]
    requires track.Some? ==> var t := track.value; Spans(steps, before, from, t.step, t.anchor, t.last)
    ensures match CountEvent(nfa, track, e)
      case Complete(a, f) => Spans(steps, before + [e], i, |steps|, a, f) && e.ts == f
      case Counting(Some(t)) => t.step < |steps| && t.step > 0 && Spans(steps, before + [e], i, t.step, t.anchor, t.last)
      case Counting(None) => true
  {
    i := from;
    if track.Some? {
      SpansLater(steps, before, e, from, track.value.step, track.value.anchor, track.value.last);
    }
    if e.eventType == steps[0] {
      SpansFirst(steps, before, e);
    }
    hide Spans;
    if track == None || e.eventType in nfa.states[track.value.step].poison {
      if e.eventType in nfa.relevant {
        i := |before|;
      }
    }
  }

  /** `A THEN B THEN C`, with `Y` forbidden after `B`. */
  const LATE := Nfa(
    [State([Transition("A", 1)], []), State([Transition("B", 2)], []), State([Transition("C", 3)], ["Y"]), State([], [])],
    3, {"A", "B", "C", "Y"}, [0, 1, 2, 3])

  /** A WITHOUT clause on a later step is enough for the two to differ: the automaton simulator
      matches A B Y B C from the first A, which the counter has given up. */
  lemma LaterPoisonDiffers() returns (limit: nat)
    ensures WellFormed(LATE) && Countable(LATE) && !AlwaysAgree(LATE)
    ensures var es := [Event("A", 0), Event("B", 1), Event("Y", 2), Event("B", 3), Event("C", 4)];
      Simulate(LATE, es, limit).Matched? && !SameMatch(Simulate(LATE, es, limit), CountAll(LATE, es))
  {
    var steps, es := ["A", "B", "C"], [Event("A", 0), Event("B", 1), Event("Y", 2), Event("B", 3), Event("C", 4)];
    LateStraight();
    assert Probe(steps, 1, "Y") == es;
    hide *;
    limit := EnoughLimit(LATE, es);
    LateProbe(es, limit);
  }

  lemma LateStraight()
    ensures Straight(LATE, ["A", "B", "C"]) && Countable(LATE)
  {
    var steps := ["A", "B", "C"];
    assert StraightState(LATE, steps, 0) && StraightState(LATE, steps, 1) && StraightState(LATE, steps, 2);
  }

  lemma LateProbe(es: seq<Event>, limit: nat)
    requires Straight(LATE, ["A", "B", "C"]) && Countable(LATE) && es == Probe(["A", "B", "C"], 1, "Y")
    requires Simulate(LATE, es, limit) != OverLimit
    ensures Simulate(LATE, es, limit).Matched? && !SameMatch(Simulate(LATE, es, limit), CountAll(LATE, es))
    ensures !AlwaysAgree(LATE)
  {
    var steps := ["A", "B", "C"];
    assert !SelfBlocking(LATE, steps);
    ProbeIncreasing(steps, 1, "Y");
    ProbeDisagrees(LATE, steps, 1, "Y", limit);
    ProbeRun(LATE, steps, es, 1, "Y", 5, limit);
    assert es[..5] == es;
  }

  // ── The counter as the engine runs it ─────────────────────────────────────

  /** Per-entity state; it persists from batch to batch. */
  class Counter {
    const nfa: Nfa
    var track: Option<Track>
    var completion: Option<(int, int)>
    ghost var seen: seq<Event>

    ghost predicate Valid()
      reads this
    {
      && Countable(nfa) && ValidTrack(nfa, track)
      && CountAll(nfa, seen) ==
        if completion.Some? then Complete(completion.value.0, completion.value.1) else Counting(track)
    }

    constructor (nfa: Nfa)
      requires Countable(nfa)
      ensures Valid() && this.nfa == nfa && seen == [] && completion == None
    {
      this.nfa := nfa;
      track, completion, seen := None, None, [];
    }

    method ProcessEvent(e: Event)
      requires Valid() && completion == None
      modifies this
      ensures Valid() && seen == old(seen) + [e]
    {
      CountNext(nfa, seen, e);
      seen := seen + [e];
      if e.eventType !in nfa.relevant {
        return;
      }
      if track.Some? {
        var t := track.value;
        var state := nfa.states[t.step];
        if e.eventType in state.poison {
          track := None;
        } else if state.transitions != [] && state.transitions[0].eventType == e.eventType && e.ts > t.last {
          if t.step + 1 == nfa.accept {
            completion := Some((t.anchor, e.ts));
          } else {
            track := Some(Track(t.step + 1, t.anchor, e.ts));
          }
        }
      }
      var ts := nfa.states[0].transitions;
      if track == None && completion == None && ts != [] && ts[0].eventType == e.eventType {
        if nfa.accept == 1 {
          completion := Some((e.ts, e.ts));
        } else {
          track := Some(Track(1, e.ts, e.ts));
        }
      }
    }

    /** Events may arrive in any batches: the state depends on all events so far only. */
    method ProcessBatch(es: seq<Event>)
      requires Valid()
      modifies this
      ensures Valid() && seen == old(seen) + es
    {
      hide CountAll;
      hide Countable;
      hide ValidTrack;
      var i := 0;
      while i < |es| && completion == None
        invariant i <= |es| && Valid() && seen == old(seen) + es[..i]
      {
        assert es[..i + 1] == es[..i] + [es[i]];
        ProcessEvent(es[i]);
        i := i + 1;
      }
      if completion.Some? {
        CompleteStays(nfa, seen, es[i..]);
      }
      assert es[..i] + es[i..] == es;
      assert completion == None ==> seen + es[i..] == seen;
      seen := seen + es[i..];
    }
  }

  lemma CountNext(nfa: Nfa, es: seq<Event>, e: Event)
    requires Countable(nfa)
    ensures var r := CountAll(nfa, es);
      CountAll(nfa, es + [e]) == if r.Complete? then r else CountEvent(nfa, r.track, e)
  {
    assert (es + [e])[..|es|] == es;
  }

  lemma {:induction false} CompleteStays(nfa: Nfa, es: seq<Event>, more: seq<Event>)
    requires Countable(nfa) && CountAll(nfa, es).Complete?
    ensures CountAll(nfa, es + more) == CountAll(nfa, es)
    decreases |more|
  {
    if more == [] {
      assert es + more == es;
    } else {
      assert (es + more)[..|es + more| - 1] == es + more[..|more| - 1];
      CompleteStays(nfa, es, more[..|more| - 1]);
    }
  }
}

/** The engine's own simulator, which keeps a deque of timestamped candidates per state, refines the
    occupancy simulator of `PatternNfa` while timestamps strictly increase. */
module PatternCandidates {
  import opened Text
  import opened PatternNfa
  import opened PatternBuilders

  datatype Candidate = Candidate(anchor: int, last: int)

  datatype Event = Event(eventType: string, ts: int)

  type Deques = seq<seq<Candidate>>

  /** A first match ends the run with its anchor and final timestamps; more candidates than the limit
      make the engine drop some, which is not followed further. */
  datatype Sim = Live(deques: Deques) | Matched(anchor: int, final: int) | TablePanic | OverLimit

  /** The deque with the later timestamp for an anchor that a search from the back finds. */
  function Refreshed(d: seq<Candidate>, c: Candidate): (r: Option<seq<Candidate>>)
    ensures r.Some? ==> |r.value| == |d| > 0
  {
    if d == [] then None
    else
      var n := |d| - 1;
      if d[n].anchor == c.anchor then Some(d[..n] + [if c.last > d[n].last then d[n].(last := c.last) else d[n]])
      else if d[n].anchor < c.anchor then None
      else
        match Refreshed(d[..n], c)
        case None => None
        case Some(p) => Some(p + [d[n]])
  }

  function InsertDedup(d: seq<Candidate>, c: Candidate): (r: seq<Candidate>)
    ensures r != []
  {
    match Refreshed(d, c)
    case None => d + [c]
    case Some(p) => p
  }

  /** Candidates of a deque that the event may advance, sent to `target`. */
  function Advanced(d: seq<Candidate>, ts: int, target: nat): seq<(nat, Candidate)> {
    if d == [] then []
    else if ts > d[0].last then [(target, Candidate(d[0].anchor, ts))] + Advanced(d[1..], ts, target)
    else Advanced(d[1..], ts, target)
  }

  function Propagated(ts: seq<Transition>, d: seq<Candidate>, e: Event): seq<(nat, Candidate)> {
    if ts == [] then []
    else (if ts[0].eventType == e.eventType then Advanced(d, e.ts, ts[0].target) else []) + Propagated(ts[1..], d, e)
  }

  /** What states below `s` propagate, the highest first. */
  function Buffer(nfa: Nfa, ds: Deques, e: Event, s: nat): seq<(nat, Candidate)>
    requires |ds| == |nfa.states| && s <= |ds|
  {
    if s == 0 then []
    else
      (if s - 1 == nfa.accept then [] else Propagated(nfa.states[s - 1].transitions, ds[s - 1], e))
      + Buffer(nfa, ds, e, s - 1)
  }

  function Killed(nfa: Nfa, ds: Deques, e: Event): (r: Deques)
    requires |ds| == |nfa.states|
    ensures |r| == |ds|
  {
    seq(|ds|, s requires 0 <= s < |ds| => if Poisoned(nfa, s, e.eventType) then [] else ds[s])
  }

  /** All targets are states of a well-formed automaton. */
  function InsertAll(ds: Deques, buf: seq<(nat, Candidate)>): (r: Deques)
    ensures |r| == |ds|
    decreases |buf|
  {
    if buf == [] then ds
    else
      var (target, c) := buf[0];
      InsertAll(if target < |ds| then ds[target := InsertDedup(ds[target], c)] else ds, buf[1..])
  }

  function Starts(ts: seq<Transition>, e: Event): seq<(nat, Candidate)> {
    if ts == [] then []
    else (if ts[0].eventType == e.eventType then [(ts[0].target, Candidate(e.ts, e.ts))] else []) + Starts(ts[1..], e)
  }

  function Total(ds: Deques): nat {
    if ds == [] then 0 else |ds[0]| + Total(ds[1..])
  }

  /** The deques after one relevant event, before a match is taken out. */
  function NextDeques(nfa: Nfa, ds: Deques, e: Event): (r: Deques)
    requires WellFormed(nfa) && |ds| == |nfa.states|
    ensures |r| == |ds|
  {
    var killed := Killed(nfa, ds, e);
    InsertAll(InsertAll(killed, Buffer(nfa, killed, e, |killed|)), Starts(nfa.states[0].transitions, e))
  }

  /** Recording the step a new candidate has reached indexes past the table. */
  predicate StartPanics(nfa: Nfa, e: string)
    requires nfa.states != []
  {
    exists t <- nfa.states[0].transitions :: t.eventType == e && t.target >= |nfa.stateToStep|
  }

  /** Recording the step of a surviving candidate does. */
  predicate DequePanics(nfa: Nfa, ds: Deques) {
    exists s :: 0 <= s < |ds| && ds[s] != [] && s >= |nfa.stateToStep|
  }

  function ProcessEvent(nfa: Nfa, ds: Deques, e: Event, limit: nat): Sim
    requires WellFormed(nfa) && |ds| == |nfa.states|
  {
    if e.eventType !in nfa.relevant then Live(ds)
    else if StartPanics(nfa, e.eventType) then TablePanic
    else
      var next := NextDeques(nfa, ds, e);
      if next[nfa.accept] != [] then
        if nfa.accept < |nfa.stateToStep| then Matched(next[nfa.accept][0].anchor, next[nfa.accept][0].last) else TablePanic
      else if Total(next) > limit then OverLimit
      else if DequePanics(nfa, next) then TablePanic
      else Live(next)
  }

  function Simulate(nfa: Nfa, es: seq<Event>, limit: nat): (r: Sim)
    requires WellFormed(nfa)
    ensures r.Live? ==> |r.deques| == |nfa.states|
  {
    if es == [] then Live(seq(|nfa.states|, _ => []))
    else
      match Simulate(nfa, es[..|es| - 1], limit)
      case Live(ds) =>
        var r := ProcessEvent(nfa, ds, es[|es| - 1], limit);
        r
      case over => over
  }

  // ── Occupied states ───────────────────────────────────────────────────────

  function Occupied(ds: Deques): set<nat> {
    set s | 0 <= s < |ds| && ds[s] != []
  }

  function Below(occupied: set<nat>, s: nat): set<nat> {
    set x <- occupied | x < s
  }

  function Sent(buf: seq<(nat, Candidate)>): set<nat> {
    set x <- buf :: x.0
  }

  function Fired(ts: seq<Transition>, e: string): set<nat> {
    set t <- ts | t.eventType == e :: t.target
  }

  predicate AllAtMost(d: seq<Candidate>, ts: int) {
    forall i :: 0 <= i < |d| ==> d[i].last <= ts
  }

  predicate Past(ds: Deques, ts: int) {
    forall s :: 0 <= s < |ds| ==> AllAtMost(ds[s], ts)
  }

  predicate SentAt(buf: seq<(nat, Candidate)>, ts: int) {
    forall i :: 0 <= i < |buf| ==> buf[i].1.last == ts
  }

  lemma SentConcat(a: seq<(nat, Candidate)>, b: seq<(nat, Candidate)>)
    ensures Sent(a + b) == Sent(a) + Sent(b)
    ensures forall ts :: SentAt(a, ts) && SentAt(b, ts) ==> SentAt(a + b, ts)
  {
    forall k ensures k in Sent(a + b) <==> k in Sent(a) || k in Sent(b) {
    }
  }

  lemma SentOne(target: nat, c: Candidate)
    ensures Sent([(target, c)]) == {target}
  {
    assert (target, c) in [(target, c)];
  }

  lemma {:induction false} AdvancedTo(d: seq<Candidate>, ts: int, target: nat)
    requires AllAtMost(d, ts - 1)
    ensures Sent(Advanced(d, ts, target)) == if d == [] then {} else {target}
    ensures SentAt(Advanced(d, ts, target), ts)
  {
    if d != [] {
      AdvancedTo(d[1..], ts, target);
      SentOne(target, Candidate(d[0].anchor, ts));
      SentConcat([(target, Candidate(d[0].anchor, ts))], Advanced(d[1..], ts, target));
    }
  }

  lemma FiredCons(ts: seq<Transition>, e: string)
    requires ts != []
    ensures Fired(ts, e) == (if ts[0].eventType == e then {ts[0].target} else {}) + Fired(ts[1..], e)
  {
    assert ts == [ts[0]] + ts[1..];
  }

  lemma {:induction false} PropagatedTo(ts: seq<Transition>, d: seq<Candidate>, e: Event)
    requires AllAtMost(d, e.ts - 1)
    ensures Sent(Propagated(ts, d, e)) == if d == [] then {} else Fired(ts, e.eventType)
    ensures SentAt(Propagated(ts, d, e), e.ts)
  {
    if ts != [] {
      PropagatedTo(ts[1..], d, e);
      AdvancedTo(d, e.ts, ts[0].target);
      FiredCons(ts, e.eventType);
      SentConcat(if ts[0].eventType == e.eventType then Advanced(d, e.ts, ts[0].target) else [], Propagated(ts[1..], d, e));
    }
  }

  lemma {:induction false} StartsTo(ts: seq<Transition>, e: Event)
    ensures Sent(Starts(ts, e)) == Fired(ts, e.eventType)
    ensures SentAt(Starts(ts, e), e.ts)
  {
    if ts != [] {
      StartsTo(ts[1..], e);
      FiredCons(ts, e.eventType);
      SentOne(ts[0].target, Candidate(e.ts, e.ts));
      SentConcat(if ts[0].eventType == e.eventType then [(ts[0].target, Candidate(e.ts, e.ts))] else [], Starts(ts[1..], e));
    }
  }

  lemma {:induction false} BufferTo(nfa: Nfa, ds: Deques, e: Event, s: nat)
    requires |ds| == |nfa.states| && s <= |ds| && Past(ds, e.ts - 1)
    ensures Sent(Buffer(nfa, ds, e, s)) == Moved(nfa, Below(Occupied(ds), s), e.eventType)
    ensures SentAt(Buffer(nfa, ds, e, s), e.ts)
  {
    hide Propagated;
    hide Fired;
    hide Moved;
    if s > 0 {
      BufferTo(nfa, ds, e, s - 1);
      var own := if s - 1 == nfa.accept then [] else Propagated(nfa.states[s - 1].transitions, ds[s - 1], e);
      PropagatedTo(nfa.states[s - 1].transitions, ds[s - 1], e);
      MovedOne(nfa, Occupied(ds), e.eventType, s);
      assert Buffer(nfa, ds, e, s) == own + Buffer(nfa, ds, e, s - 1);
      assert s - 1 in Occupied(ds) <==> ds[s - 1] != [];
      hide *;
      SentConcat(own, Buffer(nfa, ds, e, s - 1));
      SentNothing();
    } else {
      MovedNothing(nfa, Occupied(ds), e.eventType);
    }
  }

  lemma SentNothing()
    ensures Sent([]) == {} && forall ts :: SentAt([], ts)
  {
  }

  lemma MovedNothing(nfa: Nfa, occupied: set<nat>, e: string)
    requires forall x <- occupied :: x < |nfa.states|
    ensures Moved(nfa, Below(occupied, 0), e) == {}
  {
  }

  lemma MovedOne(nfa: Nfa, occupied: set<nat>, e: string, s: nat)
    requires 0 < s <= |nfa.states|
    requires forall x <- occupied :: x < |nfa.states|
    ensures Moved(nfa, Below(occupied, s), e) == Moved(nfa, Below(occupied, s - 1), e)
      + if s - 1 in occupied && s - 1 != nfa.accept then Fired(nfa.states[s - 1].transitions, e) else {}
  {
    assert Fired(nfa.states[s - 1].transitions, e) == Targets(nfa, s - 1, e);
    hide Targets;
    hide Fired;
    var low, high := Below(occupied, s - 1), Below(occupied, s);
    forall k ensures k in Moved(nfa, high, e) <==>
        k in Moved(nfa, low, e) || (s - 1 in occupied && s - 1 != nfa.accept && k in Targets(nfa, s - 1, e))
    {
      if k in Moved(nfa, high, e) {
        var x :| x in high && x != nfa.accept && k in Targets(nfa, x, e);
        assert x in low || x == s - 1;
      }
      if s - 1 in occupied && s - 1 != nfa.accept && k in Targets(nfa, s - 1, e) {
        assert s - 1 in high;
      }
    }
  }

  lemma {:induction false} RefreshedAtMost(d: seq<Candidate>, c: Candidate, ts: int)
    requires AllAtMost(d, ts) && c.last <= ts
    ensures Refreshed(d, c).Some? ==> AllAtMost(Refreshed(d, c).value, ts)
  {
    if d != [] {
      RefreshedAtMost(d[..|d| - 1], c, ts);
    }
  }

  lemma {:induction false} InsertAllTo(ds: Deques, buf: seq<(nat, Candidate)>, ts: int)
    requires Past(ds, ts) && SentAt(buf, ts)
    ensures Occupied(InsertAll(ds, buf)) == Occupied(ds) + set k <- Sent(buf) | k < |ds|
    ensures Past(InsertAll(ds, buf), ts)
    decreases |buf|
  {
    if buf != [] {
      var (target, c) := buf[0];
      assert buf == [buf[0]] + buf[1..];
      SentConcat([buf[0]], buf[1..]);
      SentOne(target, c);
      if target < |ds| {
        RefreshedAtMost(ds[target], c, ts);
        InsertAllTo(ds[target := InsertDedup(ds[target], c)], buf[1..], ts);
        assert Occupied(ds[target := InsertDedup(ds[target], c)]) == Occupied(ds) + {target};
      } else {
        InsertAllTo(ds, buf[1..], ts);
      }
    }
  }

  lemma KilledTo(nfa: Nfa, ds: Deques, e: Event, ts: int)
    requires |ds| == |nfa.states| && Past(ds, ts)
    ensures Occupied(Killed(nfa, ds, e)) == Survivors(nfa, Occupied(ds), e.eventType)
    ensures Past(Killed(nfa, ds, e), ts)
  {
    hide Poisoned;
    forall s | 0 <= s < |ds| ensures AllAtMost(Killed(nfa, ds, e)[s], ts) {
      assert AllAtMost(ds[s], ts);
    }
  }

  /** One event occupies the states `Advance` says. */
  lemma NextOccupied(nfa: Nfa, ds: Deques, e: Event)
    requires WellFormed(nfa) && |ds| == |nfa.states| && Past(ds, e.ts - 1)
    ensures Occupied(NextDeques(nfa, ds, e)) == Advance(nfa, Occupied(ds), e.eventType)
    ensures Past(NextDeques(nfa, ds, e), e.ts)
  {
    var killed := Killed(nfa, ds, e);
    KilledTo(nfa, ds, e, e.ts - 1);
    BufferTo(nfa, killed, e, |killed|);
    StartsTo(nfa.states[0].transitions, e);
    assert Fired(nfa.states[0].transitions, e.eventType) == Targets(nfa, 0, e.eventType);
    PastLater(killed, e.ts);
    var moved := InsertAll(killed, Buffer(nfa, killed, e, |killed|));
    InsertAllTo(killed, Buffer(nfa, killed, e, |killed|), e.ts);
    InsertAllTo(moved, Starts(nfa.states[0].transitions, e), e.ts);
    assert Below(Occupied(killed), |killed|) == Occupied(killed);
    InRange(nfa, Occupied(killed), e.eventType);
  }

  lemma PastLater(ds: Deques, ts: int)
    requires Past(ds, ts - 1)
    ensures Past(ds, ts)
  {
    forall s | 0 <= s < |ds| ensures AllAtMost(ds[s], ts) {
      assert AllAtMost(ds[s], ts - 1);
    }
  }

  lemma InRange(nfa: Nfa, occupied: set<nat>, e: string)
    requires WellFormed(nfa) && forall s <- occupied :: s < |nfa.states|
    ensures forall k <- Moved(nfa, occupied, e) :: k < |nfa.states|
    ensures forall k <- Targets(nfa, 0, e) :: k < |nfa.states|
  {
  }

  // ── Refinement ────────────────────────────────────────────────────────────

  function Types(es: seq<Event>): (r: seq<string>)
    ensures |r| == |es|
  {
    seq(|es|, i requires 0 <= i < |es| => es[i].eventType)
  }

  predicate Increasing(es: seq<Event>) {
    forall i, j :: 0 <= i < j < |es| ==> es[i].ts < es[j].ts
  }

  predicate Agrees(sim: Sim, status: Status) {
    match sim
    case Live(ds) => status == Running(Occupied(ds))
    case Matched(_, _) => status == Completed
    case TablePanic => status == Panicked
    case OverLimit => true
  }

  lemma StepAgrees(nfa: Nfa, ds: Deques, e: Event, limit: nat)
    requires WellFormed(nfa) && |ds| == |nfa.states| && Past(ds, e.ts - 1)
    ensures Agrees(ProcessEvent(nfa, ds, e, limit), Step(nfa, Occupied(ds), e.eventType))
    ensures var r := ProcessEvent(nfa, ds, e, limit);
      && (r.Live? ==> Past(r.deques, e.ts))
      && (r.Matched? ==> r.final <= e.ts)
  {
    NextOccupied(nfa, ds, e);
    PastLater(ds, e.ts);
    var next := NextDeques(nfa, ds, e);
    StartPanicsIff(nfa, e.eventType);
    DequePanicsIff(nfa, next);
    assert nfa.accept in Occupied(next) <==> next[nfa.accept] != [];
    assert next[nfa.accept] != [] ==> next[nfa.accept][0].last <= e.ts by {
      assert AllAtMost(next[nfa.accept], e.ts);
    }
    hide NextDeques;
    hide Advance;
    hide StartPanics;
    hide DequePanics;
    hide Occupied;
    hide Past;
    hide Targets;
    hide AllAtMost;
  }

  lemma StartPanicsIff(nfa: Nfa, e: string)
    requires nfa.states != []
    ensures StartPanics(nfa, e) <==> exists k <- Targets(nfa, 0, e) :: k >= |nfa.stateToStep|
  {
    if StartPanics(nfa, e) {
      var t :| t in nfa.states[0].transitions && t.eventType == e && t.target >= |nfa.stateToStep|;
      assert t.target in Targets(nfa, 0, e);
    }
  }

  lemma DequePanicsIff(nfa: Nfa, ds: Deques)
    ensures DequePanics(nfa, ds) <==> exists k <- Occupied(ds) :: k >= |nfa.stateToStep|
  {
    if DequePanics(nfa, ds) {
      var s :| 0 <= s < |ds| && ds[s] != [] && s >= |nfa.stateToStep|;
      assert s in Occupied(ds);
    }
  }

  lemma {:induction false} StartEmpty(nfa: Nfa, limit: nat)
    requires WellFormed(nfa)
    ensures var r := Simulate(nfa, [], limit); r.Live? && Past(r.deques, 0) && Occupied(r.deques) == {}
    ensures forall ts :: Past(Simulate(nfa, [], limit).deques, ts)
  {
  }

  lemma PastNext(ds: Deques, t: int, ts: int)
    requires Past(ds, t) && t < ts
    ensures Past(ds, ts - 1)
  {
    forall s | 0 <= s < |ds| ensures AllAtMost(ds[s], ts - 1) {
      assert AllAtMost(ds[s], t);
    }
  }

  /** While timestamps strictly increase and the candidate limit is not exceeded, the engine's
      simulator completes, panics and occupies states exactly as `Run` says. */
  lemma {:induction false} Refines(nfa: Nfa, es: seq<Event>, limit: nat)
    requires WellFormed(nfa) && Increasing(es)
    ensures Agrees(Simulate(nfa, es, limit), Run(nfa, Types(es)))
    ensures var r := Simulate(nfa, es, limit); r.Live? && es != [] ==> Past(r.deques, es[|es| - 1].ts)
  {
    StartEmpty(nfa, limit);
    if es != [] {
      var before, e := es[..|es| - 1], es[|es| - 1];
      Refines(nfa, before, limit);
      assert Types(es)[..|es| - 1] == Types(before);
      var r := Simulate(nfa, before, limit);
      if r.Live? {
        if before != [] {
          PastNext(r.deques, before[|before| - 1].ts, e.ts);
        }
        hide ProcessEvent;
        StepAgrees(nfa, r.deques, e, limit);
      }
    }
  }
}

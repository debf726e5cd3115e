/** Occurrences of a pattern in a list of timestamped events: its steps in order, at strictly increasing
    timestamps, with nothing forbidden in between. */
module Occurrences {
  import opened Text
  import opened PatternNfa
  import opened PatternCandidates

  /** Steps in a row, of which the first may be of any type in `first`; `poison[k]` is forbidden after the
      first `k` steps up to and with the next one, for `k` above 0. */
  datatype Pattern = Pattern(first: set<string>, steps: seq<string>, poison: seq<set<string>>)

  predicate ValidPattern(p: Pattern) {
    p.steps != [] && |p.poison| == |p.steps|
  }

  /** The event can be step `k`, counted from 1. */
  predicate Fires(p: Pattern, e: string, k: nat)
    requires ValidPattern(p) && 1 <= k <= |p.steps|
  {
    if k == 1 then e in p.first else e == p.steps[k - 1]
  }

  predicate Kills(p: Pattern, e: string, k: nat)
    requires ValidPattern(p)
  {
    1 <= k < |p.steps| && e in p.poison[k]
  }

  predicate Spared(p: Pattern, es: seq<Event>, k: nat, from: nat, to: nat)
    requires ValidPattern(p)
  {
    forall i :: from < i <= to && i < |es| ==> !Kills(p, es[i].eventType, k)
  }

  /** The first `|at|` steps are found at these positions, and nothing after them is forbidden yet. */
  predicate FoundAt(p: Pattern, es: seq<Event>, at: seq<nat>)
    requires ValidPattern(p)
  {
    && 1 <= |at| <= |p.steps|
    && (forall j :: 0 <= j < |at| ==> at[j] < |es| && Fires(p, es[at[j]].eventType, j + 1))
    && (forall j :: 0 < j < |at| ==> at[j - 1] < at[j] && es[at[j - 1]].ts < es[at[j]].ts)
    && (forall j :: 0 < j < |at| ==> Spared(p, es, j, at[j - 1], at[j]))
    && Spared(p, es, |at|, at[|at| - 1], |es|)
  }

  /** The whole pattern occurs. */
  ghost predicate Occurs(p: Pattern, es: seq<Event>)
    requires ValidPattern(p)
  {
    exists at :: |at| == |p.steps| && FoundAt(p, es, at)
  }

  predicate NonDecreasing(es: seq<Event>) {
    forall i, j :: 0 <= i < j < |es| ==> es[i].ts <= es[j].ts
  }

  // ── The same, event by event ──────────────────────────────────────────────

  /** The first `k` steps are found, the last of them before `bound`. */
  predicate Reaches(p: Pattern, k: nat, es: seq<Event>, bound: Option<int>)
    requires ValidPattern(p) && 1 <= k <= |p.steps|
    decreases |es|
  {
    es != [] &&
    var rest, e := es[..|es| - 1], es[|es| - 1];
    || (Reaches(p, k, rest, bound) && !Kills(p, e.eventType, k))
    || (Fires(p, e.eventType, k) && (bound.Some? ==> e.ts < bound.value)
        && (k == 1 || (Reaches(p, k - 1, rest, Some(e.ts)) && !Kills(p, e.eventType, k - 1))))
  }

  lemma ReachesStep(p: Pattern, k: nat, es: seq<Event>, e: Event, bound: Option<int>)
    requires ValidPattern(p) && 1 <= k <= |p.steps|
    ensures Reaches(p, k, es + [e], bound) <==>
      || (Reaches(p, k, es, bound) && !Kills(p, e.eventType, k))
      || (Fires(p, e.eventType, k) && (bound.Some? ==> e.ts < bound.value)
          && (k == 1 || (Reaches(p, k - 1, es, Some(e.ts)) && !Kills(p, e.eventType, k - 1))))
  {
    assert (es + [e])[..|es|] == es;
  }

  lemma {:induction false} AllBefore(at: seq<nat>, n: nat)
    requires n < |at| && forall j :: 0 < j < |at| ==> at[j - 1] < at[j]
    ensures forall j :: 0 <= j < n ==> at[j] < at[n]
  {
    if n > 0 {
      AllBefore(at, n - 1);
    }
  }

  lemma FoundLonger(p: Pattern, es: seq<Event>, e: Event, at: seq<nat>)
    requires ValidPattern(p) && FoundAt(p, es, at) && !Kills(p, e.eventType, |at|)
    ensures FoundAt(p, es + [e], at) && at[|at| - 1] < |es| && (es + [e])[at[|at| - 1]] == es[at[|at| - 1]]
  {
    var longer := es + [e];
    forall j | 0 < j < |at| ensures Spared(p, longer, j, at[j - 1], at[j]) {
      assert Spared(p, es, j, at[j - 1], at[j]) && at[j] < |es|;
    }
    hide Kills;
    hide Fires;
  }

  lemma FoundMore(p: Pattern, es: seq<Event>, e: Event, before: seq<nat>)
    requires ValidPattern(p) && |before| < |p.steps| && Fires(p, e.eventType, |before| + 1)
    requires before == [] || (FoundAt(p, es, before) && es[before[|before| - 1]].ts < e.ts && !Kills(p, e.eventType, |before|))
    ensures FoundAt(p, es + [e], before + [|es|])
  {
    var longer, at := es + [e], before + [|es|];
    forall j | 0 < j < |at| ensures at[j - 1] < at[j] && longer[at[j - 1]].ts < longer[at[j]].ts && Spared(p, longer, j, at[j - 1], at[j]) {
      if j == |before| {
        assert Spared(p, es, j, before[j - 1], |es|);
      } else {
        assert Spared(p, es, j, before[j - 1], before[j]) && before[j] < |es|;
      }
    }
    hide Kills;
    hide Fires;
  }

  lemma {:induction false} ReachFound(p: Pattern, k: nat, es: seq<Event>, bound: Option<int>) returns (at: seq<nat>)
    requires ValidPattern(p) && 1 <= k <= |p.steps| && Reaches(p, k, es, bound)
    ensures |at| == k && FoundAt(p, es, at) && (bound.Some? ==> es[at[k - 1]].ts < bound.value)
    decreases |es|
  {
    var rest, e := es[..|es| - 1], es[|es| - 1];
    assert es == rest + [e];
    hide FoundAt;
    if Reaches(p, k, rest, bound) && !Kills(p, e.eventType, k) {
      at := ReachFound(p, k, rest, bound);
      FoundLonger(p, rest, e, at);
    } else {
      at := [];
      if k > 1 {
        at := ReachFound(p, k - 1, rest, Some(e.ts));
      }
      FoundMore(p, rest, e, at);
      at := at + [|rest|];
    }
  }

  lemma SparedPrefix(p: Pattern, rest: seq<Event>, e: Event, k: nat, from: nat, to: nat)
    requires ValidPattern(p) && to < |rest|
    ensures Spared(p, rest + [e], k, from, to) <==> Spared(p, rest, k, from, to)
  {
    forall i | from < i <= to ensures (rest + [e])[i] == rest[i] {
    }
    hide Kills;
    if Spared(p, rest + [e], k, from, to) {
      forall i | from < i <= to && i < |rest| ensures !Kills(p, rest[i].eventType, k) {
        assert (rest + [e])[i] == rest[i];
      }
    }
  }

  /** Without its last event, the list keeps what was found before it. */
  lemma FoundRest(p: Pattern, rest: seq<Event>, e: Event, at: seq<nat>)
    requires ValidPattern(p) && FoundAt(p, rest + [e], at) && at[|at| - 1] < |rest|
    ensures FoundAt(p, rest, at) && !Kills(p, e.eventType, |at|)
  {
    var es, k := rest + [e], |at|;
    AllBefore(at, k - 1);
    forall j | 0 < j < k ensures Spared(p, rest, j, at[j - 1], at[j]) {
      SparedPrefix(p, rest, e, j, at[j - 1], at[j]);
    }
    assert Spared(p, es, k, at[k - 1], |es|) && es[|rest|] == e;
    hide Kills;
    hide Fires;
    forall i | at[k - 1] < i <= |rest| && i < |rest| ensures !Kills(p, rest[i].eventType, k) {
      assert es[i] == rest[i];
    }
    assert Spared(p, rest, k, at[k - 1], |rest|);
  }

  lemma FoundShorter(p: Pattern, rest: seq<Event>, e: Event, at: seq<nat>)
    requires ValidPattern(p) && |at| > 1 && FoundAt(p, rest + [e], at) && at[|at| - 1] == |rest|
    ensures FoundAt(p, rest, at[..|at| - 1]) && rest[at[|at| - 2]].ts < e.ts && !Kills(p, e.eventType, |at| - 1)
  {
    var es, init, k := rest + [e], at[..|at| - 1], |at| - 1;
    AllBefore(at, k);
    forall j | 0 < j < k ensures Spared(p, rest, j, init[j - 1], init[j]) {
      assert Spared(p, es, j, at[j - 1], at[j]);
      SparedPrefix(p, rest, e, j, at[j - 1], at[j]);
    }
    assert Spared(p, es, k, at[k - 1], at[k]) && es[|rest|] == e;
    hide Kills;
    hide Fires;
    forall i | at[k - 1] < i <= |rest| && i < |rest| ensures !Kills(p, rest[i].eventType, k) {
      assert es[i] == rest[i];
    }
    assert Spared(p, rest, k, init[k - 1], |rest|);
  }

  lemma {:induction false} FoundReach(p: Pattern, es: seq<Event>, at: seq<nat>, bound: Option<int>)
    requires ValidPattern(p) && FoundAt(p, es, at) && (bound.Some? ==> es[at[|at| - 1]].ts < bound.value)
    ensures Reaches(p, |at|, es, bound)
    decreases |es|
  {
    var k := |at|;
    var last := at[k - 1];
    FoundEnds(p, es, at);
    var rest, e := es[..|es| - 1], es[|es| - 1];
    assert es == rest + [e];
    hide FoundAt;
    if last == |rest| {
      if k > 1 {
        FoundShorter(p, rest, e, at);
        FoundReach(p, rest, at[..k - 1], Some(e.ts));
      }
    } else {
      FoundRest(p, rest, e, at);
      FoundReach(p, rest, at, bound);
    }
  }

  lemma FoundEnds(p: Pattern, es: seq<Event>, at: seq<nat>)
    requires ValidPattern(p) && FoundAt(p, es, at)
    ensures at[|at| - 1] < |es| && |at| <= |p.steps| && Fires(p, es[at[|at| - 1]].eventType, |at|)
  {
    hide Spared;
  }

  lemma OccursIff(p: Pattern, es: seq<Event>)
    requires ValidPattern(p)
    ensures Occurs(p, es) <==> Reaches(p, |p.steps|, es, None)
  {
    if at :| |at| == |p.steps| && FoundAt(p, es, at) {
      FoundReach(p, es, at, None);
    }
    if Reaches(p, |p.steps|, es, None) {
      var at := ReachFound(p, |p.steps|, es, None);
    }
  }

  lemma {:induction false} ReachAnyTime(p: Pattern, k: nat, es: seq<Event>, bound: Option<int>)
    requires ValidPattern(p) && 1 <= k <= |p.steps| && Reaches(p, k, es, bound)
    ensures Reaches(p, k, es, None)
    decreases |es|
  {
    if Reaches(p, k, es[..|es| - 1], bound) {
      ReachAnyTime(p, k, es[..|es| - 1], bound);
    }
  }

  lemma {:induction false} ReachBefore(p: Pattern, k: nat, es: seq<Event>, bound: int, later: int)
    requires ValidPattern(p) && 1 <= k <= |p.steps| && Reaches(p, k, es, Some(bound)) && bound <= later
    ensures Reaches(p, k, es, Some(later))
    decreases |es|
  {
    if Reaches(p, k, es[..|es| - 1], Some(bound)) {
      ReachBefore(p, k, es[..|es| - 1], bound, later);
    }
  }

  // ── How many timestamps an occurrence takes ───────────────────────────────

  function Times(es: seq<Event>): (r: seq<int>)
    ensures |r| == |es| && forall i :: 0 <= i < |es| ==> r[i] == es[i].ts
  {
    seq(|es|, i requires 0 <= i < |es| => es[i].ts)
  }

  function ValuesBefore(es: seq<Event>, bound: Option<int>): set<int> {
    set e <- es | bound.Some? ==> e.ts < bound.value :: e.ts
  }

  lemma {:induction false} ReachTakes(p: Pattern, k: nat, es: seq<Event>, bound: Option<int>)
    requires ValidPattern(p) && 1 <= k <= |p.steps| && Reaches(p, k, es, bound)
    ensures k <= |ValuesBefore(es, bound)|
    decreases |es|
  {
    var rest, e := es[..|es| - 1], es[|es| - 1];
    assert es == rest + [e];
    if Reaches(p, k, rest, bound) && !Kills(p, e.eventType, k) {
      ReachTakes(p, k, rest, bound);
      Subset(ValuesBefore(rest, bound), ValuesBefore(es, bound));
    } else {
      var fewer := ValuesBefore(rest, Some(e.ts));
      if k > 1 {
        ReachTakes(p, k - 1, rest, Some(e.ts));
      }
      assert e.ts !in fewer && |fewer + {e.ts}| == |fewer| + 1;
      assert e in es;
      Subset(fewer + {e.ts}, ValuesBefore(es, bound));
    }
  }

  lemma Subset(a: set<int>, b: set<int>)
    requires a <= b
    ensures |a| <= |b|
  {
    assert b == a + (b - a);
  }

  /** Two steps before `x` take two events at different earlier times. */
  lemma ReachTwo(p: Pattern, k: nat, es: seq<Event>, x: int) returns (a: nat, b: nat)
    requires ValidPattern(p) && 2 <= k <= |p.steps| && Reaches(p, k, es, Some(x))
    ensures a < b < |es| && es[a].ts < es[b].ts < x
  {
    var at := ReachFound(p, k, es, Some(x));
    a, b := at[k - 2], at[k - 1];
    hide Fires;
    hide Spared;
  }

  // ── Without ties ──────────────────────────────────────────────────────────

  /** Steps in a row of which nothing is forbidden. */
  function Row(steps: seq<string>): Pattern
    requires steps != []
  {
    Pattern({steps[0]}, steps, seq(|steps|, _ => {}))
  }

  /** With strictly increasing timestamps a row of steps occurs exactly in its supersequences. */
  lemma {:induction false} RowIsSubseq(steps: seq<string>, k: nat, es: seq<Event>, bound: Option<int>)
    requires 1 <= k <= |steps| && Increasing(es) && (bound.Some? ==> forall i :: 0 <= i < |es| ==> es[i].ts < bound.value)
    ensures Reaches(Row(steps), k, es, bound) <==> IsSubseq(steps[..k], Types(es))
    decreases |es|
  {
    if es != [] {
      var rest, e := es[..|es| - 1], es[|es| - 1];
      assert Types(es)[..|es| - 1] == Types(rest);
      RowIsSubseq(steps, k, rest, bound);
      assert steps[..k][..k - 1] == steps[..k - 1];
      if k > 1 {
        RowIsSubseq(steps, k - 1, rest, Some(e.ts));
      } else {
        assert steps[..0] == [];
      }
    }
  }
}

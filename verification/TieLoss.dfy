/** Events at given times on which the automaton simulator loses a match, if ties allow it. */
module TieLoss {
  import opened Text
  import opened PatternNfa
  import opened PatternBuilders
  import opened PatternCandidates
  import opened StraightPatterns
  import opened Occurrences
  import opened TiedTimestamps

  // ── Timestamps ────────────────────────────────────────────────────────────

  predicate Ordered(ts: seq<int>) {
    forall i, j :: 0 <= i < j < |ts| ==> ts[i] <= ts[j]
  }

  function Values(ts: seq<int>): set<int> {
    set t <- ts
  }

  /** Time `ts[q]` occurs twice, after two different earlier ones. */
  ghost predicate LateTie(ts: seq<int>, q: nat) {
    q + 1 < |ts| && ts[q] == ts[q + 1] && exists a, b :: 0 <= a < b < q && ts[a] < ts[b] < ts[q]
  }

  /** No tie can matter to a pattern of `n` steps: it is too short, or there are not enough different
      times for it, or none after the second smallest occurs twice. */
  ghost predicate TieSafe(ts: seq<int>, n: nat) {
    n <= 2 || |Values(ts)| < n || forall q :: 0 <= q < |ts| ==> !LateTie(ts, q)
  }

  // ── A candidate refreshed too late ────────────────────────────────────────

  /** Step `c - 1` comes again at `p` and step `c` right after it at the same time, which is the first
      event of that time; step `c` comes nowhere else, and the first step only once. */
  ghost predicate Trap(steps: seq<string>, es: seq<Event>, p: nat, c: nat) {
    && 2 <= c < |steps| <= 255 && (forall i, j :: 0 <= i < j < |steps| ==> steps[i] != steps[j])
    && NonDecreasing(es) && p + 1 < |es| && es[p + 1].ts == es[p].ts
    && (forall i :: 0 <= i < p ==> es[i].ts < es[p].ts)
    && es[p].eventType == steps[c - 1] && es[p + 1].eventType == steps[c]
    && (forall i :: 0 <= i < |es| && es[i].eventType == steps[c] ==> i == p + 1)
    && forall i, j :: 0 <= i < j < |es| && es[i].eventType == steps[0] ==> es[j].eventType != steps[0]
  }

  /** One candidate at most in each state, all with the anchor of state 1. */
  predicate Lone(ds: Deques) {
    forall k :: 1 <= k < |ds| ==> LoneAt(ds, k)
  }

  predicate LoneAt(ds: Deques, k: nat)
    requires 1 <= k < |ds|
  {
    |ds[k]| <= 1 && (ds[k] != [] ==> ds[1] != [] && ds[k][0].anchor == ds[1][0].anchor)
  }

  ghost predicate Trapped(ds: Deques, steps: seq<string>, es: seq<Event>, i: nat, p: nat, c: nat)
    requires 1 <= c < |steps| && p < |es| && i <= |es|
  {
    && |ds| == |steps| + 1 && ds[0] == [] && Lone(ds)
    && (forall k :: 1 <= k < |steps| && ds[k + 1] != [] ==> ds[k] != [])
    && (forall k :: c < k <= |steps| ==> ds[k] == [])
    && (ds[1] != [] ==> exists j :: 0 <= j < i && es[j].eventType == steps[0])
    && (i <= p ==> Past(ds, es[p].ts - 1))
    && (i == p + 1 && ds[c] != [] ==> ds[c][0].last == es[p].ts)
  }

  /** A single arrival: it takes the place of the candidate there, if that is older. */
  lemma LoneInsert(d: seq<Candidate>, cs: seq<Candidate>)
    requires |d| <= 1 && |cs| <= 1 && (d != [] && cs != [] ==> d[0].anchor == cs[0].anchor)
    ensures var r := InsertEach(d, cs);
      && |r| <= 1 && (r == [] <==> d == [] && cs == [])
      && (cs == [] ==> r == d) && (d == [] ==> r == cs)
      && (d != [] && cs != [] ==> r[0].anchor == d[0].anchor && r[0].last == if cs[0].last > d[0].last then cs[0].last else d[0].last)
  {
    InsertNothing(d);
    if cs != [] {
      assert cs == [cs[0]] + [];
      InsertEachCons(d, cs[0], []);
      InsertNothing(InsertDedup(d, cs[0]));
      if d != [] {
        assert d[..0] == [];
      } else {
        assert Refreshed(d, cs[0]) == None;
      }
    }
  }

  lemma LoneMovable(d: seq<Candidate>, ts: int)
    requires |d| <= 1
    ensures Movable(d, ts) == if d != [] && d[0].last < ts then [Candidate(d[0].anchor, ts)] else []
  {
    if d != [] {
      assert d[1..] == [] && Movable([], ts) == [];
    }
  }

  lemma LinearRuns(steps: seq<string>)
    requires 1 <= |steps| <= 255
    ensures Straight(Linear(steps), steps) && Runs(Linear(steps), Row(steps)) && |Linear(steps).states| == |steps| + 1
  {
    LinearStraight(steps);
    StraightRuns(Linear(steps), steps);
    LinearStates(steps);
    var p := PatternOf(Linear(steps), steps);
    hide Linear;
    hide Straight;
    hide Runs;
    forall k | 0 <= k < |steps| ensures p.poison[k] == Row(steps).poison[k] {
      assert p.poison[k] == {};
    }
    assert p == Row(steps);
  }

  /** The deques after a relevant event on a linear pattern. */
  lemma LinearNext(steps: seq<string>, ds: Deques, e: Event, k: nat)
    requires 1 <= |steps| <= 255 && |ds| == |steps| + 1 && ds[0] == [] && k <= |steps|
    ensures Straight(Linear(steps), steps) && |ds| == |Linear(steps).states|
    ensures var next := NextDeques(Linear(steps), ds, e);
      if k == 0 then next[0] == [] else next[k] == InsertEach(ds[k], Arrivals(Row(steps), ds[k - 1], e, k))
  {
    LinearRuns(steps);
    hide Linear;
    hide Straight;
    hide Runs;
    NextIs(Linear(steps), Row(steps), ds, e, k);
    hide NextDeques;
    hide InsertEach;
    hide Arrivals;
  }

  /** What a relevant event makes of state `k`. */
  lemma LoneNext(steps: seq<string>, ds: Deques, es: seq<Event>, i: nat, p: nat, c: nat, k: nat)
    requires Trap(steps, es, p, c) && i < |es| && Trapped(ds, steps, es, i, p, c) && 1 <= k <= |steps|
    ensures Straight(Linear(steps), steps) && |ds| == |Linear(steps).states|
    ensures var next, e := NextDeques(Linear(steps), ds, es[i])[k], es[i];
      var arrives := e.eventType == steps[k - 1] && (k == 1 || (ds[k - 1] != [] && ds[k - 1][0].last < e.ts));
      && |next| <= 1 && (next != [] <==> ds[k] != [] || arrives)
      && (e.eventType == steps[0] ==> forall j :: 1 <= j <= |steps| ==> ds[j] == [])
      && (ds[k] != [] ==> next[0].anchor == ds[k][0].anchor)
      && (ds[k] == [] && arrives && k > 1 ==> next[0].anchor == ds[k - 1][0].anchor)
      && (next != [] ==> next[0].last == (if arrives && (ds[k] == [] || e.ts > ds[k][0].last) then e.ts else ds[k][0].last))
  {
    LinearNext(steps, ds, es[i], k);
    hide NextDeques;
    hide Straight;
    hide Linear;
    var e := es[i];
    if e.eventType == steps[0] {
      FirstOnce(steps, ds, es, i, p, c);
    }
    assert LoneAt(ds, k) && (k > 1 ==> LoneAt(ds, k - 1));
    hide Trap;
    hide Trapped;
    LoneMovable(ds[k - 1], e.ts);
    LoneInsert(ds[k], Arrivals(Row(steps), ds[k - 1], e, k));
    hide InsertEach;
    hide Movable;
  }

  lemma FirstOnce(steps: seq<string>, ds: Deques, es: seq<Event>, i: nat, p: nat, c: nat)
    requires Trap(steps, es, p, c) && i < |es| && Trapped(ds, steps, es, i, p, c) && es[i].eventType == steps[0]
    ensures forall j :: 1 <= j <= |steps| ==> ds[j] == []
  {
    assert ds[1] == [];
    forall j | 1 <= j <= |steps| ensures ds[j] == [] {
      assert LoneAt(ds, j);
    }
  }

  lemma TrapEvent(steps: seq<string>, ds: Deques, es: seq<Event>, i: nat, p: nat, c: nat)
    requires Trap(steps, es, p, c) && i < |es| && Trapped(ds, steps, es, i, p, c)
    ensures Straight(Linear(steps), steps) && |ds| == |Linear(steps).states|
    ensures Trapped(NextDeques(Linear(steps), ds, es[i]), steps, es, i + 1, p, c)
  {
    LinearNext(steps, ds, es[i], 0);
    var next, e := NextDeques(Linear(steps), ds, es[i]), es[i];
    forall k | 1 <= k <= |steps|
      ensures LoneAt(next, k)
      ensures k > 1 && next[k] != [] ==> next[k - 1] != []
      ensures k > c ==> next[k] == []
    {
      TrapState(steps, ds, es, i, p, c, k);
    }
    LoneNext(steps, ds, es, i, p, c, 1);
    LoneNext(steps, ds, es, i, p, c, c);
    TrapPast(steps, ds, es, i, p, c);
    if i == p && ds[c] != [] {
      assert ds[c - 1] != [];
      assert AllAtMost(ds[c - 1], es[p].ts - 1) && AllAtMost(ds[c], es[p].ts - 1);
    }
    if i == p && next[c] != [] && ds[c] == [] {
      assert next[c][0].last == e.ts;
    }
    hide NextDeques;
    hide Straight;
    hide Linear;
    hide Past;
  }

  lemma TrapState(steps: seq<string>, ds: Deques, es: seq<Event>, i: nat, p: nat, c: nat, k: nat)
    requires Trap(steps, es, p, c) && i < |es| && Trapped(ds, steps, es, i, p, c) && 1 <= k <= |steps|
    ensures Straight(Linear(steps), steps) && |ds| == |Linear(steps).states|
    ensures var next := NextDeques(Linear(steps), ds, es[i]);
      && LoneAt(next, k) && (k > 1 && next[k] != [] ==> next[k - 1] != []) && (k > c ==> next[k] == [])
  {
    LoneNext(steps, ds, es, i, p, c, 1);
    LoneNext(steps, ds, es, i, p, c, k);
    if k > 1 {
      LoneNext(steps, ds, es, i, p, c, k - 1);
      assert LoneAt(ds, k - 1);
    }
    assert LoneAt(ds, k);
    hide NextDeques;
    hide Straight;
    hide Linear;
    hide Past;
  }

  lemma TrapPast(steps: seq<string>, ds: Deques, es: seq<Event>, i: nat, p: nat, c: nat)
    requires Trap(steps, es, p, c) && i < |es| && Trapped(ds, steps, es, i, p, c)
    ensures Straight(Linear(steps), steps) && |ds| == |Linear(steps).states|
    ensures i < p ==> Past(NextDeques(Linear(steps), ds, es[i]), es[p].ts - 1)
  {
    LinearNext(steps, ds, es[i], 0);
    if i < p {
      var next := NextDeques(Linear(steps), ds, es[i]);
      forall k | 0 <= k < |next| ensures AllAtMost(next[k], es[p].ts - 1) {
        if k > 0 {
          LoneNext(steps, ds, es, i, p, c, k);
          assert AllAtMost(ds[k], es[p].ts - 1);
        }
      }
    }
  }

  lemma {:induction false} TrapRun(steps: seq<string>, es: seq<Event>, i: nat, p: nat, c: nat, limit: nat)
    requires Trap(steps, es, p, c) && i <= |es|
    ensures WellFormed(Linear(steps))
    ensures var sim := Simulate(Linear(steps), es[..i], limit);
      sim == OverLimit || (sim.Live? && Trapped(sim.deques, steps, es, i, p, c))
  {
    LinearWellFormed(steps);
    if i == 0 {
      TrapStart(steps, es, p, c, limit);
    } else {
      TrapRun(steps, es, i - 1, p, c, limit);
      SimulateNext(Linear(steps), es, i - 1, limit);
      var sim := Simulate(Linear(steps), es[..i - 1], limit);
      hide Simulate;
      if sim.Live? {
        TrapStep(steps, sim.deques, es, i - 1, p, c, limit);
      }
      hide Trapped;
      hide Trap;
    }
  }

  lemma TrapStart(steps: seq<string>, es: seq<Event>, p: nat, c: nat, limit: nat)
    requires Trap(steps, es, p, c)
    ensures WellFormed(Linear(steps))
    ensures var sim := Simulate(Linear(steps), es[..0], limit); sim.Live? && Trapped(sim.deques, steps, es, 0, p, c)
  {
    LinearWellFormed(steps);
    LinearStates(steps);
    assert es[..0] == [];
    SimulateStart(Linear(steps), limit);
  }

  lemma TrapStep(steps: seq<string>, ds: Deques, es: seq<Event>, i: nat, p: nat, c: nat, limit: nat)
    requires Trap(steps, es, p, c) && i < |es| && Trapped(ds, steps, es, i, p, c)
    ensures WellFormed(Linear(steps)) && |ds| == |Linear(steps).states|
    ensures var r := ProcessEvent(Linear(steps), ds, es[i], limit);
      r == OverLimit || (r.Live? && Trapped(r.deques, steps, es, i + 1, p, c))
  {
    TrapEvent(steps, ds, es, i, p, c);
    if es[i].eventType in Linear(steps).relevant {
      StraightEvent(Linear(steps), steps, ds, es[i], limit);
      hide ProcessEvent;
    } else {
      assert steps[c - 1] in Linear(steps).relevant;
      assert i != p;
    }
    hide Linear;
    hide Straight;
    hide NextDeques;
  }

  // ── Building a trap on given times ────────────────────────────────────────

  /** Positions at which a time first occurs. */
  function Firsts(ts: seq<int>): (f: seq<nat>)
    ensures forall j :: 0 <= j < |f| ==> f[j] < |ts|
  {
    if ts == [] then []
    else
      var m := |ts| - 1;
      Firsts(ts[..m]) + if m == 0 || ts[m - 1] < ts[m] then [m] else []
  }

  /** Position `p` is the first with its time. */
  predicate IsFirst(ts: seq<int>, p: nat) {
    p < |ts| && forall i :: 0 <= i < p ==> ts[i] < ts[p]
  }

  predicate Rising(ts: seq<int>, f: seq<nat>, x: nat, y: nat) {
    x < y < |f| && f[x] < f[y] < |ts| && ts[f[x]] < ts[f[y]]
  }

  predicate Covered(ts: seq<int>, f: seq<nat>, i: nat) {
    i < |ts| && exists j :: 0 <= j < |f| && f[j] <= i && ts[f[j]] == ts[i]
  }

  ghost predicate FirstsOf(ts: seq<int>, f: seq<nat>) {
    && (forall j :: 0 <= j < |f| ==> IsFirst(ts, f[j]))
    && (forall x, y :: 0 <= x < y < |f| ==> Rising(ts, f, x, y))
    && (forall i :: 0 <= i < |ts| ==> Covered(ts, f, i))
  }

  lemma {:induction false} FirstsAreFirst(ts: seq<int>)
    requires Ordered(ts)
    ensures FirstsOf(ts, Firsts(ts)) && |Firsts(ts)| == |Values(ts)|
  {
    if ts != [] {
      var m := |ts| - 1;
      var init, f := ts[..m], Firsts(ts[..m]);
      FirstsAreFirst(init);
      ValuesGrow(ts);
      assert m == 0 || ts[m - 1] <= ts[m];
      hide FirstsOf;
      hide Values;
      if m == 0 || ts[m - 1] < ts[m] {
        NewFirst(ts, f);
      } else {
        OldFirst(ts, f);
        assert f + [] == f;
      }
    }
  }

  lemma ValuesGrow(ts: seq<int>)
    requires ts != [] && Ordered(ts)
    ensures var m := |ts| - 1; var added := if m == 0 || ts[m - 1] < ts[m] then 1 else 0;
      Ordered(ts[..m]) && |Values(ts)| == |Values(ts[..m])| + added
  {
    var m := |ts| - 1;
    assert ts == ts[..m] + [ts[m]];
    ValuesAdd(ts[..m], ts[m]);
    hide Values;
    LastValue(ts);
    hide Ordered;
  }

  lemma LastValue(ts: seq<int>)
    requires ts != [] && Ordered(ts)
    ensures var m := |ts| - 1; Ordered(ts[..m]) && (ts[m] in ts[..m] <==> m > 0 && ts[m - 1] == ts[m])
  {
    var m := |ts| - 1;
    if m > 0 && ts[m - 1] == ts[m] {
      assert ts[..m][m - 1] == ts[m];
    }
    if ts[m] in ts[..m] {
      var i :| 0 <= i < m && ts[..m][i] == ts[m];
      assert ts[i] <= ts[m - 1] <= ts[m];
    }
  }

  lemma ValuesAdd(ts: seq<int>, t: int)
    ensures Values(ts + [t]) == Values(ts) + {t} && (t in Values(ts) <==> t in ts)
    ensures |Values(ts + [t])| == |Values(ts)| + if t in ts then 0 else 1
  {
    assert Values(ts + [t]) == Values(ts) + {t};
    if t in ts {
      assert Values(ts) + {t} == Values(ts);
    }
  }

  lemma FirstsLonger(ts: seq<int>, f: seq<nat>)
    requires ts != [] && FirstsOf(ts[..|ts| - 1], f)
    ensures (forall j :: 0 <= j < |f| ==> IsFirst(ts, f[j])) && forall x, y :: 0 <= x < y < |f| ==> Rising(ts, f, x, y)
    ensures forall i :: 0 <= i < |ts| - 1 ==> Covered(ts, f, i)
  {
    var init := ts[..|ts| - 1];
    forall j | 0 <= j < |f| ensures IsFirst(ts, f[j]) {
      assert IsFirst(init, f[j]);
    }
    forall x, y | 0 <= x < y < |f| ensures Rising(ts, f, x, y) {
      assert Rising(init, f, x, y);
    }
    forall i | 0 <= i < |ts| - 1 ensures Covered(ts, f, i) {
      assert Covered(init, f, i);
    }
  }

  lemma NewFirst(ts: seq<int>, f: seq<nat>)
    requires ts != [] && Ordered(ts) && FirstsOf(ts[..|ts| - 1], f) && (|ts| == 1 || ts[|ts| - 2] < ts[|ts| - 1])
    ensures FirstsOf(ts, f + [|ts| - 1])
  {
    var m := |ts| - 1;
    var g := f + [m];
    FirstsLonger(ts, f);
    hide Ordered;
    hide IsFirst;
    assert IsFirst(ts, m) by {
      LastFirst(ts);
    }
    forall x, y | 0 <= x < y < |g| ensures Rising(ts, g, x, y) {
      if y < |f| {
        assert Rising(ts, f, x, y);
      } else {
        assert IsFirst(ts[..m], f[x]);
        FirstBefore(ts, f[x]);
      }
    }
    forall i | 0 <= i < |ts| ensures Covered(ts, g, i) {
      if i < m {
        assert Covered(ts, f, i);
        var j :| 0 <= j < |f| && f[j] <= i && ts[f[j]] == ts[i];
        assert g[j] == f[j];
      } else {
        assert g[|f|] == m;
      }
    }
  }

  lemma LastFirst(ts: seq<int>)
    requires ts != [] && Ordered(ts) && (|ts| == 1 || ts[|ts| - 2] < ts[|ts| - 1])
    ensures IsFirst(ts, |ts| - 1)
  {
  }

  lemma FirstBefore(ts: seq<int>, p: nat)
    requires ts != [] && IsFirst(ts[..|ts| - 1], p) && IsFirst(ts, |ts| - 1)
    ensures p < |ts| - 1 && ts[p] < ts[|ts| - 1]
  {
  }

  lemma OldFirst(ts: seq<int>, f: seq<nat>)
    requires |ts| > 1 && FirstsOf(ts[..|ts| - 1], f) && ts[|ts| - 2] == ts[|ts| - 1]
    ensures FirstsOf(ts, f)
  {
    FirstsLonger(ts, f);
    assert Covered(ts, f, |ts| - 2);
    var j :| 0 <= j < |f| && f[j] <= |ts| - 2 && ts[f[j]] == ts[|ts| - 2];
    assert f[j] <= |ts| - 1;
    assert Covered(ts, f, |ts| - 1);
  }

  /** A late tie has a first position of at least the third smallest time, and the next is a tie. */
  lemma RankOfTie(ts: seq<int>, f: seq<nat>, q: nat) returns (r: nat)
    requires Ordered(ts) && FirstsOf(ts, f) && LateTie(ts, q)
    ensures 2 <= r < |f| && f[r] + 1 < |ts| && ts[f[r] + 1] == ts[f[r]]
  {
    var a, b :| 0 <= a < b < q && ts[a] < ts[b] < ts[q];
    var x := IndexOf(ts, f, a);
    var y := IndexOf(ts, f, b);
    r := IndexOf(ts, f, q);
    hide LateTie;
    hide Ordered;
    IndexLess(ts, f, x, y);
    IndexLess(ts, f, y, r);
    NextTied(ts, f[r], q);
  }

  lemma NextTied(ts: seq<int>, p: nat, q: nat)
    requires Ordered(ts) && p <= q && q + 1 < |ts| && ts[p] == ts[q] == ts[q + 1]
    ensures ts[p + 1] == ts[p]
  {
    assert ts[p] <= ts[p + 1] <= ts[q + 1];
  }

  lemma IndexOf(ts: seq<int>, f: seq<nat>, i: nat) returns (j: nat)
    requires FirstsOf(ts, f) && i < |ts|
    ensures j < |f| && f[j] <= i && ts[f[j]] == ts[i]
  {
    assert Covered(ts, f, i);
    j :| 0 <= j < |f| && f[j] <= i && ts[f[j]] == ts[i];
  }

  lemma IndexLess(ts: seq<int>, f: seq<nat>, x: nat, y: nat)
    requires FirstsOf(ts, f) && x < |f| && y < |f| && f[x] < |ts| && f[y] < |ts| && ts[f[x]] < ts[f[y]]
    ensures x < y
  {
    assert y < x ==> Rising(ts, f, y, x);
  }

  /** Names for `n` steps, all different. */
  function StepNames(n: nat): (r: seq<string>)
    ensures |r| == n && forall j :: 0 <= j < n ==> r[j] == Zeros(j + 1)
  {
    seq(n, j requires 0 <= j < n => Zeros(j + 1))
  }

  function PositionOf(w: seq<nat>, i: nat): (j: nat)
    ensures j <= |w| && (j < |w| ==> w[j] == i) && (j == |w| ==> i !in w)
  {
    if w == [] || w[0] == i then 0 else 1 + PositionOf(w[1..], i)
  }

  /** Types that put step `j` at `w[j]`, except that step `c` comes one later than `w[c]`, where step
      `c - 1` comes again; nothing elsewhere. */
  function TrapType(w: seq<nat>, c: nat, i: nat): string
    requires 1 <= c < |w|
  {
    if i == w[c] then Zeros(c)
    else if i == w[c] + 1 then Zeros(c + 1)
    else if PositionOf(w, i) < |w| then Zeros(PositionOf(w, i) + 1)
    else []
  }

  function TrapEvents(ts: seq<int>, w: seq<nat>, c: nat): (es: seq<Event>)
    requires 1 <= c < |w|
    ensures |es| == |ts| && forall i :: 0 <= i < |ts| ==> es[i] == Event(TrapType(w, c, i), ts[i])
  {
    seq(|ts|, i requires 0 <= i < |ts| => Event(TrapType(w, c, i), ts[i]))
  }

  /** A window of first positions, with a tie at its place `c`. */
  predicate Window(ts: seq<int>, w: seq<nat>, c: nat) {
    && 2 <= c < |w| <= 255 && Ordered(ts)
    && (forall j :: 0 <= j < |w| ==> IsFirst(ts, w[j]))
    && (forall x, y :: 0 <= x < y < |w| ==> Rising(ts, w, x, y))
    && w[c] + 1 < |ts| && ts[w[c] + 1] == ts[w[c]]
  }

  lemma WindowTypes(ts: seq<int>, w: seq<nat>, c: nat)
    requires Window(ts, w, c)
    ensures w[c] + 1 !in w
    ensures forall j :: 0 <= j < |w| && j != c ==> TrapType(w, c, w[j]) == Zeros(j + 1)
    ensures forall i: nat :: TrapType(w, c, i) == Zeros(c + 1) <==> i == w[c] + 1
    ensures forall i: nat :: TrapType(w, c, i) == Zeros(1) <==> i == w[0]
  {
    forall j | 0 <= j < |w| ensures w[j] != w[c] + 1 && (w[j] == w[c] ==> j == c) {
      assert j > c ==> Rising(ts, w, c, j);
      assert j < c ==> Rising(ts, w, j, c);
    }
    forall j | 0 <= j < |w| ensures PositionOf(w, w[j]) == j {
      var k := PositionOf(w, w[j]);
      assert w[j] in w;
      assert k < j ==> Rising(ts, w, k, j);
      assert j < k ==> Rising(ts, w, j, k);
    }
    ZerosLengths();
    forall i: nat ensures TrapType(w, c, i) == Zeros(c + 1) <==> i == w[c] + 1 {
    }
    forall i: nat ensures TrapType(w, c, i) == Zeros(1) <==> i == w[0] {
    }
  }

  lemma ZerosLengths()
    ensures forall m, n :: Zeros(m) == Zeros(n) ==> m == n
  {
    forall m, n | Zeros(m) == Zeros(n) ensures m == n {
      assert |Zeros(m)| == m && |Zeros(n)| == n;
    }
  }

  /** Such a window makes a trap of a pattern that does occur. */
  lemma WindowTrap(ts: seq<int>, w: seq<nat>, c: nat)
    requires Window(ts, w, c)
    ensures var steps, es := StepNames(|w|), TrapEvents(ts, w, c);
      |w| > 0 && Trap(steps, es, w[c], c) && Times(es) == ts && Occurs(Row(steps), es)
  {
    var steps, es := StepNames(|w|), TrapEvents(ts, w, c);
    assert Times(es) == ts;
    WindowFound(ts, w, c);
    WindowIsTrap(ts, w, c);
    hide Trap;
    hide FoundAt;
    hide Window;
    assert Occurs(Row(steps), es);
  }

  lemma WindowIsTrap(ts: seq<int>, w: seq<nat>, c: nat)
    requires Window(ts, w, c)
    ensures Trap(StepNames(|w|), TrapEvents(ts, w, c), w[c], c)
  {
    ZerosLengths();
    WindowTypes(ts, w, c);
    TrapTypeAt(w, c);
    assert IsFirst(ts, w[c]);
    hide TrapType;
    hide Window;
    hide IsFirst;
    hide Rising;
  }

  lemma WindowFound(ts: seq<int>, w: seq<nat>, c: nat)
    requires Window(ts, w, c)
    ensures |w| > 0 && FoundAt(Row(StepNames(|w|)), TrapEvents(ts, w, c), w[c := w[c] + 1])
  {
    var steps, es, at := StepNames(|w|), TrapEvents(ts, w, c), w[c := w[c] + 1];
    forall j | 0 <= j < |at| ensures at[j] < |es| && es[at[j]].eventType == steps[j] {
      WindowNames(ts, w, c, j);
    }
    forall j | 0 < j < |at| ensures at[j - 1] < at[j] && es[at[j - 1]].ts < es[at[j]].ts {
      WindowRises(ts, w, c, j);
    }
    hide TrapType;
    hide Window;
    RowFound(steps, es, at);
  }

  lemma RowFound(steps: seq<string>, es: seq<Event>, at: seq<nat>)
    requires 1 <= |at| == |steps| && forall j :: 0 <= j < |at| ==> at[j] < |es| && es[at[j]].eventType == steps[j]
    requires forall j :: 0 < j < |at| ==> at[j - 1] < at[j] && es[at[j - 1]].ts < es[at[j]].ts
    ensures FoundAt(Row(steps), es, at)
  {
  }

  lemma WindowNames(ts: seq<int>, w: seq<nat>, c: nat, j: nat)
    requires Window(ts, w, c) && j < |w|
    ensures var i := w[c := w[c] + 1][j]; i < |ts| && TrapType(w, c, i) == Zeros(j + 1)
  {
    WindowTypes(ts, w, c);
    assert IsFirst(ts, w[j]);
    hide TrapType;
    hide Window;
  }

  lemma WindowRises(ts: seq<int>, w: seq<nat>, c: nat, j: nat)
    requires Window(ts, w, c) && 0 < j < |w|
    ensures var at := w[c := w[c] + 1]; at[j - 1] < at[j] < |ts| && ts[at[j - 1]] < ts[at[j]]
  {
    assert Rising(ts, w, j - 1, j);
    assert IsFirst(ts, w[j]) && IsFirst(ts, w[j - 1]);
    WindowTypes(ts, w, c);
    assert w[c] + 1 != w[j];
    hide TrapType;
  }

  lemma TrapTypeAt(w: seq<nat>, c: nat)
    requires 1 <= c < |w|
    ensures TrapType(w, c, w[c]) == Zeros(c)
  {
  }

  // ── When no tie can matter ────────────────────────────────────────────────

  lemma OrderedEvents(es: seq<Event>)
    ensures Ordered(Times(es)) <==> NonDecreasing(es)
  {
    var ts := Times(es);
    if Ordered(ts) {
      forall i, j | 0 <= i < j < |es| ensures es[i].ts <= es[j].ts {
        assert ts[i] <= ts[j];
      }
    }
  }

  lemma SpacedWhenSafe(es: seq<Event>)
    requires Ordered(Times(es)) && forall q :: 0 <= q < |es| ==> !LateTie(Times(es), q)
    ensures Spaced(es)
  {
    hide LateTie;
    hide Ordered;
    forall i, a, b | 0 <= a < b < i < |es| && es[a].ts < es[b].ts < es[i].ts ensures es[i - 1].ts < es[i].ts {
      assert !LateTie(Times(es), i - 1);
      SpacedHere(es, a, b, i);
    }
  }

  lemma SpacedHere(es: seq<Event>, a: nat, b: nat, i: nat)
    requires Ordered(Times(es)) && a < b < i < |es| && es[a].ts < es[b].ts < es[i].ts && !LateTie(Times(es), i - 1)
    ensures es[i - 1].ts < es[i].ts
  {
    if es[i - 1].ts >= es[i].ts {
      TiedLate(Times(es), a, b, i);
    }
  }

  lemma TiedLate(ts: seq<int>, a: nat, b: nat, i: nat)
    requires Ordered(ts) && a < b < i < |ts| && ts[a] < ts[b] < ts[i] && ts[i - 1] >= ts[i]
    ensures LateTie(ts, i - 1)
  {
    assert ts[i - 1] <= ts[i];
    assert b < i - 1;
  }

  // ── When one does ─────────────────────────────────────────────────────────

  /** Event types of zeros only, which are the steps' names and the empty one. */
  predicate PlainTypes(es: seq<Event>) {
    forall e <- es :: forall c <- e.eventType :: c == '0'
  }

  lemma TrapPlain(ts: seq<int>, w: seq<nat>, c: nat)
    requires 1 <= c < |w|
    ensures PlainTypes(TrapEvents(ts, w, c))
  {
  }

  /** Otherwise there are events at these times and a linear pattern that occurs and is not matched. */
  lemma Lossy(ts: seq<int>, n: nat) returns (es: seq<Event>, limit: nat)
    requires 1 <= n <= 255 && Ordered(ts) && !TieSafe(ts, n)
    ensures Times(es) == ts && Occurs(Row(StepNames(n)), es) && PlainTypes(es)
    ensures WellFormed(Linear(StepNames(n))) && Simulate(Linear(StepNames(n)), es, limit).Live?
  {
    hide *;
    var q := LatePosition(ts, n);
    var f := Firsts(ts);
    FirstsAreFirst(ts);
    var r := RankOfTie(ts, f, q);
    var c := if r < n - 1 then r else n - 1;
    es, limit := LossyWindow(ts, n, f[r - c..r - c + n], f, r, c);
  }

  lemma LatePosition(ts: seq<int>, n: nat) returns (q: nat)
    requires !TieSafe(ts, n)
    ensures q < |ts| && LateTie(ts, q) && n > 2 && |Values(ts)| >= n
  {
    q :| 0 <= q < |ts| && LateTie(ts, q);
  }

  lemma LossyWindow(ts: seq<int>, n: nat, w: seq<nat>, f: seq<nat>, r: nat, c: nat) returns (es: seq<Event>, limit: nat)
    requires Ordered(ts) && FirstsOf(ts, f) && 2 <= c < n <= 255 && c <= r && r - c + n <= |f| && w == f[r - c..r - c + n]
    requires f[r] + 1 < |ts| && ts[f[r] + 1] == ts[f[r]]
    ensures Times(es) == ts && Occurs(Row(StepNames(n)), es) && PlainTypes(es)
    ensures WellFormed(Linear(StepNames(n))) && Simulate(Linear(StepNames(n)), es, limit).Live?
  {
    hide *;
    WindowOf(ts, f, r, c, n);
    WindowTrap(ts, w, c);
    TrapSizes(ts, w, c);
    TrapPlain(ts, w, c);
    var steps := StepNames(n);
    es := TrapEvents(ts, w, c);
    LinearWellFormed(steps);
    limit := EnoughLimit(Linear(steps), es);
    TrapRun(steps, es, |es|, w[c], c, limit);
    assert es[..|es|] == es;
  }

  lemma TrapSizes(ts: seq<int>, w: seq<nat>, c: nat)
    requires 1 <= c < |w| && Trap(StepNames(|w|), TrapEvents(ts, w, c), w[c], c)
    ensures w[c] < |TrapEvents(ts, w, c)|
  {
  }

  lemma WindowOf(ts: seq<int>, f: seq<nat>, r: nat, c: nat, n: nat)
    requires Ordered(ts) && FirstsOf(ts, f) && 2 <= c < n <= 255 && c <= r && r - c + n <= |f|
    requires f[r] + 1 < |ts| && ts[f[r] + 1] == ts[f[r]]
    ensures Window(ts, f[r - c..r - c + n], c)
  {
    var w := f[r - c..r - c + n];
    forall x, y | 0 <= x < y < |w| ensures Rising(ts, w, x, y) {
      assert Rising(ts, f, r - c + x, r - c + y);
    }
  }

  lemma SmallestTrap()
    ensures var steps, es := ["A", "B", "C"], [Event("A", 1), Event("B", 2), Event("B", 3), Event("C", 3)];
      Trap(steps, es, 2, 2) && FoundAt(Row(steps), es, [0, 1, 3]) && NonDecreasing(es)
  {
    assert "A"[0] == 'A' && "B"[0] == 'B' && "C"[0] == 'C';
    DifferentTrap("A", "B", "C");
  }

  lemma DifferentTrap(a: string, b: string, c: string)
    requires a != b && b != c && a != c
    ensures var steps, es := [a, b, c], [Event(a, 1), Event(b, 2), Event(b, 3), Event(c, 3)];
      Trap(steps, es, 2, 2) && FoundAt(Row(steps), es, [0, 1, 3]) && NonDecreasing(es)
  {
  }
}

/** How the segment writer cuts sorted rows into row groups, and where the last group begins when
    every entity has `q` rows or one more. */
module RowGroups {
  datatype Range = Range(start: nat, end: nat)

  // ── The planner ───────────────────────────────────────────────────────────

  /** A cut before row `x` splits no entity. */
  predicate Aligned(es: seq<string>, x: nat) {
    x == 0 || x >= |es| || es[x - 1] != es[x]
  }

  /** The end of a group from `start`: as far on as an aligned cut can be, at most `target` rows; in
      the middle of an entity only if no cut on the way is aligned. */
  ghost predicate IsCut(es: seq<string>, start: nat, target: nat, end: nat) {
    && start < end <= |es| && end <= start + target
    && (forall x :: end < x <= start + target && x <= |es| ==> !Aligned(es, x))
    && (Aligned(es, end) || (end == start + target && forall x :: start < x <= end ==> !Aligned(es, x)))
  }

  lemma CutUnique(es: seq<string>, start: nat, target: nat, a: nat, b: nat)
    requires IsCut(es, start, target, a) && IsCut(es, start, target, b)
    ensures a == b
  {
    assert a < b ==> !Aligned(es, b);
    assert b < a ==> !Aligned(es, a);
  }

  /** The last aligned cut up to `x`, or `start`. */
  function LastAligned(es: seq<string>, start: nat, x: nat): (r: nat)
    requires start <= x
    ensures start <= r <= x
    ensures (r > start ==> Aligned(es, r)) && forall y :: r < y <= x ==> !Aligned(es, y)
  {
    if x == start || Aligned(es, x) then x else LastAligned(es, start, x - 1)
  }

  function RawEnd(n: nat, start: nat, target: nat): nat {
    if start + target < n then start + target else n
  }

  function NextEnd(es: seq<string>, start: nat, target: nat): (end: nat)
    requires start < |es| && target > 0
    ensures IsCut(es, start, target, end)
  {
    var rawEnd := RawEnd(|es|, start, target);
    var aligned := LastAligned(es, start, rawEnd);
    if aligned == start then rawEnd else aligned
  }

  function Plan(es: seq<string>, target: nat, start: nat): seq<Range>
    requires target > 0
    decreases |es| - start
  {
    if start >= |es| then []
    else
      var end := NextEnd(es, start, target);
      [Range(start, end)] + Plan(es, target, end)
  }

  method PlanRowGroups(es: seq<string>, target: nat) returns (groups: seq<Range>)
    requires target > 0
    ensures groups == Plan(es, target, 0)
  {
    groups := [];
    var start := 0;
    while start < |es|
      invariant start <= |es| && groups + Plan(es, target, start) == Plan(es, target, 0)
    {
      var end := GroupEnd(es, start, target);
      var group := [Range(start, end)];
      assert groups + (group + Plan(es, target, end)) == groups + group + Plan(es, target, end);
      groups := groups + group;
      start := end;
    }
  }

  method GroupEnd(es: seq<string>, start: nat, target: nat) returns (end: nat)
    requires start < |es| && target > 0
    ensures end == NextEnd(es, start, target)
  {
    end := RawEnd(|es|, start, target);
    if end < |es| && es[end - 1] == es[end] {
      var splitEntity, back := es[end], end;
      while back > start && es[back - 1] == splitEntity
        invariant start <= back <= end
        invariant es[back] == splitEntity && forall x :: back < x <= end ==> !Aligned(es, x)
      {
        back := back - 1;
      }
      if back != start {
        end := back;
      }
    }
    CutUnique(es, start, target, end, NextEnd(es, start, target));
  }

  /** Groups that follow one another from `start` to the end of the rows, each of them cut right. */
  ghost predicate IsPlan(es: seq<string>, target: nat, start: nat, groups: seq<Range>) {
    && (groups == [] ==> start >= |es|)
    && (groups != [] ==> groups[0].start == start && groups[|groups| - 1].end == |es|)
    && (forall i :: 0 < i < |groups| ==> groups[i - 1].end == groups[i].start)
    && forall g <- groups :: IsCut(es, g.start, target, g.end)
  }

  lemma {:induction false} PlanIff(es: seq<string>, target: nat, start: nat, groups: seq<Range>)
    requires target > 0
    ensures groups == Plan(es, target, start) <==> IsPlan(es, target, start, groups)
    decreases |es| - start, |groups|
  {
    if start < |es| && groups != [] {
      var end := NextEnd(es, start, target);
      var first, rest := groups[0], groups[1..];
      assert groups == [first] + rest;
      PlanIff(es, target, end, rest);
      hide NextEnd;
      hide IsCut;
      if first == Range(start, end) {
        PlanFirst(es, target, first, rest);
      } else if IsPlan(es, target, start, groups) {
        assert first in groups;
        CutUnique(es, start, target, first.end, end);
      }
    } else if groups != [] {
      assert groups[0] in groups;
    }
  }

  lemma PlanFirst(es: seq<string>, target: nat, first: Range, rest: seq<Range>)
    requires IsCut(es, first.start, target, first.end)
    ensures IsPlan(es, target, first.start, [first] + rest) <==> IsPlan(es, target, first.end, rest)
  {
    var groups := [first] + rest;
    assert IsCut(es, first.start, target, first.end) && first.end <= |es|;
    hide IsCut;
    if IsPlan(es, target, first.start, groups) {
      forall i | 0 < i < |rest| ensures rest[i - 1].end == rest[i].start {
        assert groups[i].end == groups[i + 1].start;
      }
      forall g <- rest ensures IsCut(es, g.start, target, g.end) {
        assert g in groups;
      }
      assert rest != [] ==> groups[0].end == groups[1].start;
    }
  }

  /** A group that ends inside an entity holds `target` rows of that entity and nothing else: only an
      entity of more than `target` rows is ever split. */
  lemma {:induction false} SplitsOnlyWide(es: seq<string>, target: nat, g: Range, x: nat)
    requires IsCut(es, g.start, target, g.end) && !Aligned(es, g.end) && g.start <= x <= g.end
    ensures g.end == g.start + target && es[x] == es[g.end]
    decreases g.end - x
  {
    if x < g.end {
      SplitsOnlyWide(es, target, g, x + 1);
      assert !Aligned(es, x + 1);
    }
  }

  function LastStart(es: seq<string>, target: nat, start: nat): (r: nat)
    requires start < |es| && target > 0
    ensures start <= r < |es|
    decreases |es| - start
  {
    var end := NextEnd(es, start, target);
    if end == |es| then start else LastStart(es, target, end)
  }

  lemma {:induction false} LastOfPlan(es: seq<string>, target: nat, start: nat)
    requires start < |es| && target > 0
    ensures var groups := Plan(es, target, start);
      groups != [] && groups[|groups| - 1] == Range(LastStart(es, target, start), |es|)
    decreases |es| - start
  {
    var end := NextEnd(es, start, target);
    if end < |es| {
      LastOfPlan(es, target, end);
    }
  }

  /** The last group is at most `target` rows, and begins at an aligned cut or after `target` rows of
      one entity. */
  lemma {:induction false} LastStartMeans(es: seq<string>, target: nat, start: nat)
    requires start < |es| && target > 0
    ensures var last := LastStart(es, target, start);
      && |es| - last <= target
      && (last == start || Aligned(es, last) || (last >= target && forall x :: last - target < x <= last ==> !Aligned(es, x)))
    decreases |es| - start
  {
    var end := NextEnd(es, start, target);
    if end < |es| {
      LastStartMeans(es, target, end);
    }
  }

  // ── Rows in blocks ────────────────────────────────────────────────────────

  /** Rows before block `j`: each block has `q` rows, each of the first `m` one more. */
  function Offset(q: nat, m: nat, j: nat): nat {
    j * q + if j < m then j else m
  }

  predicate InBlock(q: nat, m: nat, j: nat, i: nat) {
    Offset(q, m, j) <= i < Offset(q, m, j + 1)
  }

  ghost predicate BlockList(es: seq<string>, ids: seq<string>, q: nat, m: nat) {
    && m <= |ids| && |es| == Offset(q, m, |ids|)
    && (forall j :: 0 < j < |ids| ==> ids[j - 1] != ids[j])
    && forall i, j :: 0 <= j < |ids| && 0 <= i < |es| && InBlock(q, m, j, i) ==> es[i] == ids[j]
  }

  lemma OffsetNext(q: nat, m: nat, j: nat)
    ensures Offset(q, m, j + 1) == Offset(q, m, j) + q + if j < m then 1 else 0
  {
    assert (j + 1) * q == j * q + q;
  }

  /** Further on by blocks that are all wide, or all narrow, or the wide ones and then some. */
  lemma OffsetFrom(q: nat, m: nat, j: nat, k: nat)
    requires j <= k
    ensures Offset(q, m, k) == Offset(q, m, j) + (k - j) * q + (if k < m then k - j else if j < m then m - j else 0)
  {
    assert k * q == j * q + (k - j) * q;
  }

  lemma {:induction false} OffsetMonotone(q: nat, m: nat, j: nat, k: nat)
    requires j <= k
    ensures Offset(q, m, j) <= Offset(q, m, k)
    ensures j < k && q > 0 ==> Offset(q, m, j) < Offset(q, m, k)
  {
    hide Offset;
    if j < k {
      OffsetMonotone(q, m, j, k - 1);
      OffsetNext(q, m, k - 1);
    }
  }

  lemma {:induction false} FindBlock(q: nat, m: nat, k: nat, i: nat) returns (j: nat)
    requires i < Offset(q, m, k)
    ensures j < k && InBlock(q, m, j, i)
  {
    assert Offset(q, m, 0) == 0;
    if i >= Offset(q, m, k - 1) {
      j := k - 1;
    } else {
      j := FindBlock(q, m, k - 1, i);
    }
  }

  lemma InsideBlock(es: seq<string>, ids: seq<string>, q: nat, m: nat, j: nat, x: nat)
    requires BlockList(es, ids, q, m) && j < |ids| && Offset(q, m, j) < x < Offset(q, m, j + 1)
    ensures !Aligned(es, x)
  {
    OffsetMonotone(q, m, j + 1, |ids|);
    assert InBlock(q, m, j, x) && InBlock(q, m, j, x - 1);
    hide Offset;
  }

  lemma BetweenBlocks(es: seq<string>, ids: seq<string>, q: nat, m: nat, j: nat)
    requires BlockList(es, ids, q, m) && j <= |ids| && (j < |ids| ==> Offset(q, m, j) < Offset(q, m, j + 1))
    ensures Aligned(es, Offset(q, m, j))
  {
    if 0 < j < |ids| {
      OffsetNext(q, m, j - 1);
      OffsetNext(q, m, j);
      OffsetMonotone(q, m, j + 1, |ids|);
      var x := Offset(q, m, j);
      assert InBlock(q, m, j, x) && InBlock(q, m, j - 1, x - 1);
      assert ids[j - 1] != ids[j];
    }
  }

  /** From block `j` a group ends before block `k`, if `k` is as far as the target allows. */
  lemma NextBlock(es: seq<string>, ids: seq<string>, q: nat, m: nat, target: nat, j: nat, k: nat)
    requires BlockList(es, ids, q, m) && j < k <= |ids| && Offset(q, m, j) < Offset(q, m, k) <= Offset(q, m, j) + target
    requires k < |ids| ==> Offset(q, m, j) + target < Offset(q, m, k + 1)
    ensures Offset(q, m, j) < |es| && NextEnd(es, Offset(q, m, j), target) == Offset(q, m, k)
  {
    var start, end := Offset(q, m, j), Offset(q, m, k);
    OffsetMonotone(q, m, k, |ids|);
    BetweenBlocks(es, ids, q, m, k);
    hide Offset;
    forall x | end < x <= start + target && x <= |es| ensures !Aligned(es, x) {
      InsideBlock(es, ids, q, m, k, x);
    }
    hide BlockList;
    hide Aligned;
    CutUnique(es, start, target, end, NextEnd(es, start, target));
  }

  // ── The last group of blocks ──────────────────────────────────────────────

  /** `g` blocks of `q` rows fit into a group, and no more. */
  predicate PerGroup(g: nat, q: nat, target: nat) {
    g > 0 && g * q <= target < (g + 1) * q
  }

  lemma Fits(q: nat, target: nat)
    requires 1 <= q <= target
    ensures PerGroup(target / q, q, target) && target / q > 0
  {
    var g := target / q;
    assert target == q * g + target % q;
    assert g * q == q * g && (g + 1) * q == q * g + q;
    assert g == 0 ==> q * g == 0;
  }

  /** The largest multiple of `g` up to `x`. */
  function Whole(g: nat, x: nat): (r: nat)
    requires g > 0
    ensures r <= x < r + g
  {
    assert x == g * (x / g) + x % g;
    g * (x / g)
  }

  lemma WholeNext(g: nat, x: nat)
    requires g > 0
    ensures Whole(g, x) == if x < g then 0 else g + Whole(g, x - g)
  {
    var k := if x < g then 0 else 1 + (x - g) / g;
    if x >= g {
      assert x - g == g * ((x - g) / g) + (x - g) % g;
      assert g * k == g + g * ((x - g) / g);
    } else {
      assert g * k == 0;
    }
    Quotient(g, x, k);
  }

  lemma Quotient(g: nat, x: nat, k: nat)
    requires g > 0 && g * k <= x < g * k + g
    ensures x / g == k
  {
    var d := x / g;
    assert x == g * d + x % g;
    assert g * (d + 1) == g * d + g && g * (k + 1) == g * k + g;
    assert d < k ==> g * (d + 1) <= g * k;
    assert d > k ==> g * (k + 1) <= g * d;
  }

  /** A multiple of a smaller factor is no larger. */
  lemma TimesMonotone(a: nat, b: nat, q: nat)
    requires a <= b
    ensures a * q <= b * q
  {
  }

  /** From a narrow block on, all groups hold as many blocks as fit. */
  lemma {:induction false} NarrowGroups(es: seq<string>, ids: seq<string>, q: nat, m: nat, target: nat, g: nat, j: nat)
    requires BlockList(es, ids, q, m) && m <= j < |ids| && q > 0 && g > 0 && PerGroup(g, q, target)
    ensures var last := j + Whole(g, |ids| - 1 - j);
      && last < |ids| && Offset(q, m, j) < |es| && target > 0
      && LastStart(es, target, Offset(q, m, j)) == Offset(q, m, last)
    decreases |ids| - j
  {
    var k := if |ids| - j <= g then |ids| else j + g;
    WholeNext(g, |ids| - 1 - j);
    NarrowNext(q, m, target, g, j, k);
    hide *;
    NextBlock(es, ids, q, m, target, j, k);
    if k < |ids| {
      NarrowGroups(es, ids, q, m, target, g, k);
    }
  }

  lemma NarrowNext(q: nat, m: nat, target: nat, g: nat, j: nat, k: nat)
    requires m <= j < k <= j + g && q > 0 && PerGroup(g, q, target)
    ensures Offset(q, m, j) < Offset(q, m, k) <= Offset(q, m, j) + target
    ensures k == j + g ==> Offset(q, m, j) + target < Offset(q, m, k + 1)
  {
    OffsetFrom(q, m, j, k);
    OffsetNext(q, m, k);
    OffsetMonotone(q, m, j, k);
    hide Offset;
    TimesMonotone(k - j, g, q);
    assert (g + 1) * q == g * q + q;
  }

  /** As long as a whole group of wide blocks fits before the last of them, it is one. */
  lemma {:induction false} WideGroups(es: seq<string>, ids: seq<string>, q: nat, m: nat, target: nat, g: nat, j: nat)
    requires BlockList(es, ids, q, m) && j < m && target > 0 && g > 0 && PerGroup(g, q + 1, target)
    ensures var s := j + Whole(g, m - 1 - j);
      && s < m && m - s <= g && Offset(q, m, j) < |es| && Offset(q, m, s) < |es|
      && LastStart(es, target, Offset(q, m, j)) == LastStart(es, target, Offset(q, m, s))
    decreases m - j
  {
    hide *;
    BlockListSize(es, ids, q, m);
    WholeNext(g, m - 1 - j);
    WideInside(es, ids, q, m, j);
    if m - 1 - j >= g {
      WideNext(q, m, target, g, j);
      WideInside(es, ids, q, m, j + g);
      NextBlock(es, ids, q, m, target, j, j + g);
      WideGroups(es, ids, q, m, target, g, j + g);
      StartOfNext(es, target, Offset(q, m, j), Offset(q, m, j + g));
    }
  }

  lemma StartOfNext(es: seq<string>, target: nat, start: nat, end: nat)
    requires start < |es| && target > 0 && end < |es| && NextEnd(es, start, target) == end
    ensures LastStart(es, target, start) == LastStart(es, target, end)
  {
  }

  lemma WideInside(es: seq<string>, ids: seq<string>, q: nat, m: nat, j: nat)
    requires BlockList(es, ids, q, m) && j < m
    ensures Offset(q, m, j) < |es|
  {
    OffsetNext(q, m, j);
    OffsetMonotone(q, m, j + 1, |ids|);
    hide Offset;
  }

  lemma WideNext(q: nat, m: nat, target: nat, g: nat, j: nat)
    requires g > 0 && PerGroup(g, q + 1, target) && j + g < m
    ensures Offset(q, m, j) < Offset(q, m, j + g) <= Offset(q, m, j) + target < Offset(q, m, j + g + 1)
  {
    OffsetFrom(q, m, j, j + g);
    OffsetNext(q, m, j + g);
    assert g * (q + 1) == g * q + g;
    assert (g + 1) * (q + 1) == g * q + g + q + 1;
    hide Offset;
  }

  /** The block at which the group begins that holds the last wide one. */
  function FirstMixed(q: nat, m: nat, target: nat): (s: nat)
    requires m > 0 ==> q < target
    ensures s <= m
  {
    if m == 0 then 0
    else
      Fits(q + 1, target);
      Whole(target / (q + 1), m - 1)
  }

  /** The block at which the last group begins, when no block is larger than a group: whole groups of
      wide blocks, one group of the last wide blocks and as many narrow ones as fit, and whole groups
      of narrow ones. */
  function LastBlock(k: nat, q: nat, m: nat, target: nat): int
    requires m <= k && target > 0 && (q < target || (q == target && m == 0))
  {
    var s := FirstMixed(q, m, target);
    var wide := m - s;
    if q == 0 || (k - s) * q + wide <= target then s
    else
      Fits(q, target);
      var u := s + (target - wide) / q;
      u + target / q * ((k - 1 - u) / (target / q))
  }

  lemma LastGroup(es: seq<string>, target: nat, start: nat)
    requires start < |es| <= start + target
    ensures LastStart(es, target, start) == start
  {
    CutUnique(es, start, target, |es|, NextEnd(es, start, target));
  }

  /** Where the last group begins, when no block is larger than a group. */
  lemma LastOfBlocks(es: seq<string>, ids: seq<string>, q: nat, m: nat, target: nat)
    requires BlockList(es, ids, q, m) && es != [] && ids != [] && target > 0 && (q < target || (q == target && m == 0))
    ensures var last := LastBlock(|ids|, q, m, target);
      && 0 <= last < |ids| && (q == 0 ==> last < m)
      && LastStart(es, target, 0) == Offset(q, m, last)
  {
    hide *;
    BlockListSize(es, ids, q, m);
    LastOfWide(es, ids, q, m, target);
    MixedSizes(|ids|, q, m, target);
    var k, s := |ids|, FirstMixed(q, m, target);
    if Fit(k, q, m, target) {
      LastBlockFit(k, q, m, target);
      LastGroup(es, target, Offset(q, m, s));
    } else {
      LastBlockUnfit(k, q, m, target);
      LastOfNarrow(es, ids, q, m, target, s, MixedEnd(q, m, target));
    }
  }

  lemma LastOfNarrow(es: seq<string>, ids: seq<string>, q: nat, m: nat, target: nat, s: nat, u: nat)
    requires BlockList(es, ids, q, m) && m <= u && s < u < |ids| && 0 < q <= target
    requires Offset(q, m, s) < Offset(q, m, u) <= Offset(q, m, s) + target < Offset(q, m, u + 1)
    ensures target / q > 0 && Offset(q, m, s) < |es|
    ensures var last := u + Whole(target / q, |ids| - 1 - u);
      last < |ids| && LastStart(es, target, Offset(q, m, s)) == Offset(q, m, last)
  {
    hide *;
    NextBlock(es, ids, q, m, target, s, u);
    Fits(q, target);
    NarrowGroups(es, ids, q, m, target, target / q, u);
    StartOfNext(es, target, Offset(q, m, s), Offset(q, m, u));
  }

  /** The narrow blocks all fit into the group that holds the last wide one. */
  predicate Fit(k: nat, q: nat, m: nat, target: nat)
    requires m <= k && (m > 0 ==> q < target)
  {
    var s := FirstMixed(q, m, target);
    q == 0 || (k - s) * q + (m - s) <= target
  }

  function MixedEnd(q: nat, m: nat, target: nat): int
    requires 0 < q && (m > 0 ==> q < target)
  {
    var s := FirstMixed(q, m, target);
    s + (target - (m - s)) / q
  }

  lemma BlockListSize(es: seq<string>, ids: seq<string>, q: nat, m: nat)
    requires BlockList(es, ids, q, m)
    ensures |es| == Offset(q, m, |ids|) && m <= |ids|
  {
  }

  lemma LastBlockFit(k: nat, q: nat, m: nat, target: nat)
    requires m <= k && target > 0 && (q < target || (q == target && m == 0)) && Fit(k, q, m, target)
    ensures LastBlock(k, q, m, target) == FirstMixed(q, m, target)
  {
  }

  lemma LastBlockUnfit(k: nat, q: nat, m: nat, target: nat)
    requires m <= k && target > 0 && (q < target || (q == target && m == 0)) && !Fit(k, q, m, target)
    requires q > 0 && m <= MixedEnd(q, m, target) < k
    ensures target / q > 0
    ensures var u := MixedEnd(q, m, target); LastBlock(k, q, m, target) == u + Whole(target / q, k - 1 - u)
  {
    Fits(q, target);
  }

  lemma LastOfWide(es: seq<string>, ids: seq<string>, q: nat, m: nat, target: nat)
    requires BlockList(es, ids, q, m) && es != [] && ids != [] && target > 0 && (q < target || (q == target && m == 0))
    ensures var s := FirstMixed(q, m, target);
      && (q == 0 ==> m > 0) && Offset(q, m, s) < |es|
      && LastStart(es, target, 0) == LastStart(es, target, Offset(q, m, s))
  {
    hide *;
    BlockListSize(es, ids, q, m);
    OffsetZero(q, m, |ids|);
    if m > 0 {
      Fits(q + 1, target);
      WideGroups(es, ids, q, m, target, target / (q + 1), 0);
      FirstMixedIs(q, m, target);
    }
  }

  lemma OffsetZero(q: nat, m: nat, k: nat)
    ensures Offset(q, m, 0) == 0 && (q == 0 && m == 0 ==> Offset(q, m, k) == 0)
  {
  }

  lemma FirstMixedIs(q: nat, m: nat, target: nat)
    requires m > 0 && q < target
    ensures target / (q + 1) > 0 && FirstMixed(q, m, target) == Whole(target / (q + 1), m - 1)
  {
    Fits(q + 1, target);
  }

  /** What the group that holds the last wide block has room for. */
  lemma MixedSizes(k: nat, q: nat, m: nat, target: nat)
    requires m <= k && k > 0 && target > 0 && (q < target || (q == target && m == 0)) && (q == 0 ==> m > 0)
    ensures var s := FirstMixed(q, m, target);
      && s < k && (m > 0 ==> s < m) && m - s <= target
      && if Fit(k, q, m, target) then Offset(q, m, k) <= Offset(q, m, s) + target
        else q > 0 && var u := MixedEnd(q, m, target);
          && s < u < k && m <= u && Offset(q, m, s) < Offset(q, m, u) <= Offset(q, m, s) + target < Offset(q, m, u + 1)
  {
    WideRoom(q, m, target);
    var s := FirstMixed(q, m, target);
    if Fit(k, q, m, target) {
      OffsetFrom(q, m, s, k);
    } else {
      UnfitSizes(k, q, m, target, s);
    }
    hide FirstMixed;
    hide Offset;
  }

  lemma WideRoom(q: nat, m: nat, target: nat)
    requires m > 0 ==> q < target
    ensures var s := FirstMixed(q, m, target); (m > 0 ==> s < m) && (m - s) * q + (m - s) <= target
  {
    if m > 0 {
      Fits(q + 1, target);
      var g := target / (q + 1);
      var wide := m - Whole(g, m - 1);
      TimesMonotone(wide, g, q + 1);
      hide Whole;
      assert wide * (q + 1) == wide * q + wide;
    }
  }

  lemma UnfitSizes(k: nat, q: nat, m: nat, target: nat, s: nat)
    requires m <= k && 0 < q <= target && (m > 0 ==> q < target) && s == FirstMixed(q, m, target) && s <= m && (m > 0 ==> s < m)
    requires (m - s) * q + (m - s) <= target < (k - s) * q + (m - s)
    ensures var u := MixedEnd(q, m, target);
      && s < u < k && m <= u && Offset(q, m, s) < Offset(q, m, u) <= Offset(q, m, s) + target < Offset(q, m, u + 1)
  {
    hide *;
    var wide := m - s;
    assert wide <= target by {
      assert wide * q >= 0;
    }
    var d := Quotients(target - wide, q);
    MixedEndIs(q, m, target);
    RoomLeft(wide, k - s, d, q, target);
    UnfitOffsets(q, m, target, s, d);
  }

  lemma MixedEndIs(q: nat, m: nat, target: nat)
    requires 0 < q && (m > 0 ==> q < target)
    ensures var s := FirstMixed(q, m, target); MixedEnd(q, m, target) == s + (target - (m - s)) / q
  {
  }

  lemma Quotients(x: nat, q: nat) returns (d: nat)
    requires q > 0
    ensures d == x / q && d * q <= x < (d + 1) * q
  {
    d := x / q;
    assert x == q * d + x % q;
    assert q * d == d * q && (d + 1) * q == d * q + q;
  }

  lemma UnfitOffsets(q: nat, m: nat, target: nat, s: nat, d: nat)
    requires s <= m <= s + d && d > 0 && q > 0 && d * q + (m - s) <= target < (d + 1) * q + (m - s)
    ensures var u := s + d; Offset(q, m, s) < Offset(q, m, u) <= Offset(q, m, s) + target < Offset(q, m, u + 1)
  {
    OffsetFrom(q, m, s, s + d);
    OffsetNext(q, m, s + d);
    OffsetMonotone(q, m, s, s + d);
    assert (d + 1) * q == d * q + q;
    hide Offset;
  }

  lemma RoomLeft(wide: nat, all: nat, d: nat, q: nat, target: nat)
    requires q > 0 && d * q + wide <= target < (d + 1) * q + wide && wide * q + wide <= target < all * q + wide
    requires wide == 0 ==> q <= target
    ensures wide <= d && 0 < d < all
  {
    if d < wide {
      TimesMonotone(d + 1, wide, q);
    }
    if all <= d {
      TimesMonotone(all, d, q);
    }
    assert (0 + 1) * q == q;
  }

  // ── A tail of blocks as the last group ────────────────────────────────────

  /** The last block, at least, fits into a group. */
  predicate Cuttable(k: nat, q: nat, m: nat, target: nat) {
    q < target || (q == target && m < k)
  }

  /** The block with which the last group begins. */
  function LastOf(k: nat, q: nat, m: nat, target: nat): int
    requires m <= k && target > 0 && Cuttable(k, q, m, target)
  {
    if q == target && m > 0 then k - 1 else LastBlock(k, q, m, target)
  }

  /** The last group begins with block `t`, if there is one: a test on numbers alone. */
  predicate TailIsLast(k: nat, q: nat, m: nat, t: nat, target: nat)
    requires m <= k && target > 0
  {
    (q == 0 && m == 0) || (Cuttable(k, q, m, target) && t == LastOf(k, q, m, target))
  }

  /** All rows from block `t` on are in the last group, and there are some: likewise. */
  predicate TailInLast(k: nat, q: nat, m: nat, t: nat, target: nat)
    requires m <= k && target > 0
  {
    (q == 0 && m == 0) || (Cuttable(k, q, m, target) && t >= LastOf(k, q, m, target) && (q == 0 ==> t < m))
  }

  lemma WideLast(es: seq<string>, ids: seq<string>, q: nat, m: nat, target: nat, t: nat)
    requires BlockList(es, ids, q, m) && t < |ids| && target > 0 && (q > target || (q == target && m == |ids|))
    ensures es != [] && LastStart(es, target, 0) > Offset(q, m, t)
  {
    var k := |ids|;
    OffsetNext(q, m, k - 1);
    OffsetMonotone(q, m, t, k - 1);
    hide Offset;
    LastStartMeans(es, target, 0);
  }

  /** A last group that does not begin with a block is inside one larger than a group. */
  lemma LastInBlock(es: seq<string>, ids: seq<string>, q: nat, m: nat, target: nat) returns (j: nat)
    requires BlockList(es, ids, q, m) && target > 0 && q > 0 && ids != []
    ensures j < |ids| && es != [] && InBlock(q, m, j, LastStart(es, target, 0))
    ensures LastStart(es, target, 0) > Offset(q, m, j) ==> Offset(q, m, j) + target < Offset(q, m, j + 1)
  {
    OffsetMonotone(q, m, 0, |ids|);
    BlockListSize(es, ids, q, m);
    var last := LastStart(es, target, 0);
    LastStartMeans(es, target, 0);
    j := FindBlock(q, m, |ids|, last);
    OffsetMonotone(q, m, j, j + 1);
    BetweenBlocks(es, ids, q, m, j);
    if last > Offset(q, m, j) {
      InsideBlock(es, ids, q, m, j, last);
    }
    hide LastStart;
    hide BlockList;
    hide Offset;
    hide Aligned;
  }

  /** Wide blocks are cut inside, but the last narrow one fills the last group. */
  lemma NarrowLast(es: seq<string>, ids: seq<string>, q: nat, m: nat, target: nat)
    requires BlockList(es, ids, q, m) && target > 0 && q == target && 0 < m < |ids|
    ensures es != [] && LastStart(es, target, 0) == Offset(q, m, |ids| - 1)
  {
    var k := |ids|;
    var j := LastInBlock(es, ids, q, m, target);
    LastStartMeans(es, target, 0);
    BlockListSize(es, ids, q, m);
    OffsetNext(q, m, j);
    OffsetNext(q, m, k - 1);
    if j < k - 1 {
      OffsetMonotone(q, m, j + 1, k - 1);
    }
    hide LastStart;
    hide BlockList;
    hide Offset;
  }

  lemma LastStartOf(es: seq<string>, ids: seq<string>, q: nat, m: nat, target: nat)
    requires BlockList(es, ids, q, m) && es != [] && ids != [] && target > 0 && Cuttable(|ids|, q, m, target)
    ensures var last := LastOf(|ids|, q, m, target);
      0 <= last < |ids| && (q == 0 ==> last < m) && LastStart(es, target, 0) == Offset(q, m, last)
  {
    if q == target && m > 0 {
      NarrowLast(es, ids, q, m, target);
    } else {
      LastOfBlocks(es, ids, q, m, target);
    }
    hide LastBlock;
    hide Offset;
  }

  lemma TailIff(es: seq<string>, ids: seq<string>, q: nat, m: nat, target: nat, t: nat)
    requires BlockList(es, ids, q, m) && es != [] && t < |ids| && target > 0
    ensures LastStart(es, target, 0) == Offset(q, m, t) <==> TailIsLast(|ids|, q, m, t, target)
    ensures LastStart(es, target, 0) <= Offset(q, m, t) < |es| <==> TailInLast(|ids|, q, m, t, target)
  {
    var k := |ids|;
    BlockListSize(es, ids, q, m);
    OffsetZero(q, m, k);
    OffsetInside(q, m, t, k);
    hide BlockList;
    if Cuttable(k, q, m, target) {
      LastStartOf(es, ids, q, m, target);
      OffsetsCompare(q, m, t, LastOf(k, q, m, target));
    } else {
      WideLast(es, ids, q, m, target, t);
    }
    hide LastOf;
    hide LastStart;
    hide Offset;
  }

  lemma OffsetInside(q: nat, m: nat, t: nat, k: nat)
    requires m <= k && t < k
    ensures Offset(q, m, t) < Offset(q, m, k) <==> q > 0 || t < m
  {
    OffsetFrom(q, m, t, k);
    hide Offset;
    if q > 0 {
      TimesMonotone(1, k - t, q);
    }
  }

  lemma OffsetsCompare(q: nat, m: nat, t: nat, j: nat)
    requires q == 0 ==> j < m
    ensures Offset(q, m, t) == Offset(q, m, j) <==> t == j
    ensures Offset(q, m, j) <= Offset(q, m, t) <==> j <= t
  {
    if q > 0 {
      if t < j {
        OffsetMonotone(q, m, t, j);
      } else {
        OffsetMonotone(q, m, j, t);
      }
    }
  }
}

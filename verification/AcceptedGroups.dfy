/** Which row groups of the acceptance fixture the acceptance query has to read. */
module AcceptedGroups {
  import opened Text
  import opened ShardTargets
  import opened AcceptanceFixture
  import opened RowGroups
  import opened AcceptanceGroups
  import opened ZoneMaps
  import Zipf
  import StreamingEvents

  // ── The row groups of a segment ───────────────────────────────────────────

  function Groups(rows: seq<Event>): seq<Range> {
    Plan(Entities(rows), ROW_GROUP_SIZE, 0)
  }

  function GroupRows(rows: seq<Event>, g: Range): seq<Event> {
    if g.start <= g.end <= |rows| then rows[g.start..g.end] else []
  }

  /** The query reads the last row group and no other. */
  predicate OnlyLastAccepted(rows: seq<Event>) {
    var groups := Groups(rows);
    forall i :: 0 <= i < |groups| ==> (Accepted(GroupRows(rows, groups[i])) <==> i == |groups| - 1)
  }

  /** The rows with an amount over 4500 are those of the last row group, and no others. */
  predicate HighIsLastGroup(rows: seq<Event>) {
    var groups := Groups(rows);
    groups != [] ==> HighFrom(rows, groups[|groups| - 1].start)
  }

  predicate AllPurchases(rows: seq<Event>) {
    forall row <- rows :: row.eventType == "purchase"
  }

  lemma GroupBounds(rows: seq<Event>, i: nat)
    requires i < |Groups(rows)|
    ensures Groups(rows)[i].start < Groups(rows)[i].end <= |rows|
  {
    PlanIff(Entities(rows), ROW_GROUP_SIZE, 0, Groups(rows));
    assert Groups(rows)[i] in Groups(rows);
    hide Plan;
  }

  lemma {:induction false} GroupsFollow(rows: seq<Event>, i: nat, j: nat)
    requires i < j < |Groups(rows)|
    ensures Groups(rows)[i].end <= Groups(rows)[j].start
    ensures i + 1 == j ==> Groups(rows)[i].end == Groups(rows)[j].start
  {
    PlanIff(Entities(rows), ROW_GROUP_SIZE, 0, Groups(rows));
    hide Plan;
    if i + 1 < j {
      GroupsFollow(rows, i, j - 1);
      GroupBounds(rows, j - 1);
    }
  }

  lemma LastBounds(rows: seq<Event>)
    requires rows != []
    ensures var groups := Groups(rows);
      groups != [] && groups[|groups| - 1] == Range(LastStart(Entities(rows), ROW_GROUP_SIZE, 0), |rows|)
      && (|groups| == 1 ==> groups[0].start == 0)
  {
    LastOfPlan(Entities(rows), ROW_GROUP_SIZE, 0);
    PlanIff(Entities(rows), ROW_GROUP_SIZE, 0, Groups(rows));
    hide Plan;
    hide LastStart;
  }

  /** Among purchases of which those from `first` on are over 4500, a group is read exactly if it goes on
      past `first`. */
  lemma GroupAcceptedIff(rows: seq<Event>, first: nat, i: nat)
    requires AllPurchases(rows) && HighFrom(rows, first) && i < |Groups(rows)|
    ensures var own := GroupRows(rows, Groups(rows)[i]);
      && TypeAccepted(own) && (AmountAccepted(own) <==> Groups(rows)[i].end > first)
  {
    GroupBounds(rows, i);
    hide Groups;
    hide TypeAccepted;
    hide AmountAccepted;
    var g := Groups(rows)[i];
    SliceAccepted(rows, first, g.start, g.end);
  }

  lemma SliceAccepted(rows: seq<Event>, first: nat, start: nat, end: nat)
    requires AllPurchases(rows) && HighFrom(rows, first) && start < end <= |rows|
    ensures TypeAccepted(rows[start..end]) && (AmountAccepted(rows[start..end]) <==> end > first)
  {
    var own := rows[start..end];
    SliceRows(rows, first, start, end);
    hide HighFrom;
    hide AllPurchases;
    PurchasesAccepted(own);
    AmountAcceptedIff(own);
    hide TypeAccepted;
    hide AmountAccepted;
  }

  lemma SliceRows(rows: seq<Event>, first: nat, start: nat, end: nat)
    requires AllPurchases(rows) && HighFrom(rows, first) && start < end <= |rows|
    ensures forall row <- rows[start..end] :: row.eventType == "purchase"
    ensures (exists row <- rows[start..end] :: row.amount > 4500) <==> end > first
  {
    var own := rows[start..end];
    forall row <- own ensures row.eventType == "purchase" {
      assert row in rows;
    }
    hide AllPurchases;
    if row :| row in own && row.amount > 4500 {
      var j :| 0 <= j < |own| && own[j] == row;
      assert rows[start + j] == row;
    }
    assert own[|own| - 1] == rows[end - 1] && own[|own| - 1] in own;
  }

  lemma OnlyLastIff(rows: seq<Event>, first: nat)
    requires AllPurchases(rows) && HighFrom(rows, first) && rows != []
    ensures OnlyLastAccepted(rows) <==> LastStart(Entities(rows), ROW_GROUP_SIZE, 0) <= first < |rows|
  {
    var groups := Groups(rows);
    var n := |groups| - 1;
    LastBounds(rows);
    forall i | 0 <= i <= n
      ensures Accepted(GroupRows(rows, groups[i])) <==> groups[i].end > first
      ensures i < n ==> groups[i].end <= groups[n].start
      ensures i == n - 1 ==> groups[i].end == groups[n].start
    {
      GroupAcceptedIff(rows, first, i);
      if i < n {
        GroupsFollow(rows, i, n);
      }
    }
    hide Groups;
    hide GroupRows;
    hide Accepted;
    hide LastStart;
    if OnlyLastAccepted(rows) && n > 0 {
      assert !Accepted(GroupRows(rows, groups[n - 1]));
    }
  }

  lemma HighIsLastIff(rows: seq<Event>, first: nat)
    requires HighFrom(rows, first) && first <= |rows| && rows != []
    ensures HighIsLastGroup(rows) <==> LastStart(Entities(rows), ROW_GROUP_SIZE, 0) == first
  {
    LastBounds(rows);
    var last := LastStart(Entities(rows), ROW_GROUP_SIZE, 0);
    hide LastStart;
    hide Groups;
    if HighFrom(rows, last) {
      assert first < |rows| ==> rows[first].amount > 4500;
      assert rows[last].amount > 4500;
    }
  }

  // ── Segments of the fixture ───────────────────────────────────────────────

  ghost predicate OfShard(keep: Event -> bool, shardOf: string -> nat, s: nat) {
    forall row :: keep(row) ==> shardOf(row.entity) == s
  }

  lemma KeptMeaning(
    keep: Event -> bool, shardOf: string -> nat, s: nat, n: nat, entityCount: nat, byShard: seq<seq<string>>, row: Event)
    requires OwnShards(shardOf, byShard) && entityCount > 0 && byShard != [] && OfShard(keep, shardOf, s)
    requires row in Kept(keep, Fixture(n, entityCount, byShard))
    ensures row.eventType == "purchase" <==> s == PurchaseShard(byShard)
    ensures row.eventType != "purchase" ==> row.amount > 4500 && LexLess(row.eventType, "purchase")
  {
    var rows := Fixture(n, entityCount, byShard);
    var i :| 0 <= i < |Kept(keep, rows)| && Kept(keep, rows)[i] == row;
    var r := KeptOrigin(keep, rows, i);
    hide Kept;
    RowMeaning(shardOf, n, entityCount, byShard, r);
    EventNames(shardOf, n, entityCount, byShard, r);
    hide Fixture;
  }

  /** Labels other than "purchase" come before it. */
  lemma EventNames(shardOf: string -> nat, n: nat, entityCount: nat, byShard: seq<seq<string>>, r: nat)
    requires OwnShards(shardOf, byShard) && entityCount > 0 && byShard != [] && r < |Fixture(n, entityCount, byShard)|
    ensures var row := Fixture(n, entityCount, byShard)[r]; row.eventType != "purchase" ==> LexLess(row.eventType, "purchase")
  {
    var p, specs := PurchaseShard(byShard), Specs(n, entityCount, byShard);
    var t := TailStart(n, entityCount, |byShard[p]|);
    SpecsOwn(shardOf, n, entityCount, byShard);
    var e, i := RowOrigin(n, entityCount, specs, |specs|, r);
    assert specs[e] in specs;
    hide Specs;
    hide TailStart;
    SpecName(shardOf, byShard, p, t, specs[e], i);
  }

  lemma SpecName(shardOf: string -> nat, byShard: seq<seq<string>>, p: nat, t: nat, x: Spec, i: nat)
    requires IsSpec(shardOf, byShard, p, t, x)
    ensures var name := RowAt(x, i).eventType; name == "purchase" || LexLess(name, "purchase")
  {
    var s := shardOf(x.id);
    var pos :| 0 <= pos < |byShard[s]| && SpecAt(s, byShard[s], p, t, pos) == x;
    assert NonPurchaseLabel(pos + s)[0] == 'e' && "purchase"[0] == 'p';
  }

  /** The three claims about a segment of any shard: the event type alone lets through the groups of the
      purchase shard and no others; the amount alone all groups of the other shards, and of the purchase
      shard those that go on past its first tail row; so both together only the latter. */
  lemma SegmentAccepted(
    keep: Event -> bool, shardOf: string -> nat, s: nat, n: nat, entityCount: nat, byShard: seq<seq<string>>, first: nat, i: nat)
    requires OwnShards(shardOf, byShard) && entityCount > 0 && byShard != [] && OfShard(keep, shardOf, s)
    requires s == PurchaseShard(byShard) ==> HighFrom(Kept(keep, Fixture(n, entityCount, byShard)), first)
    requires i < |Groups(Kept(keep, Fixture(n, entityCount, byShard)))|
    ensures var rows, p := Kept(keep, Fixture(n, entityCount, byShard)), PurchaseShard(byShard);
      var g := Groups(rows)[i];
      && (TypeAccepted(GroupRows(rows, g)) <==> s == p)
      && (AmountAccepted(GroupRows(rows, g)) <==> s != p || g.end > first)
  {
    var rows := Kept(keep, Fixture(n, entityCount, byShard));
    forall row <- rows
      ensures row.eventType == "purchase" <==> s == PurchaseShard(byShard)
      ensures row.eventType != "purchase" ==> row.amount > 4500 && LexLess(row.eventType, "purchase")
    {
      KeptMeaning(keep, shardOf, s, n, entityCount, byShard, row);
    }
    hide Kept;
    hide Fixture;
    hide LexLess;
    if s == PurchaseShard(byShard) {
      GroupAcceptedIff(rows, first, i);
    } else {
      OtherAccepted(rows, i);
    }
  }

  lemma OtherAccepted(rows: seq<Event>, i: nat)
    requires i < |Groups(rows)| && forall row <- rows :: row.amount > 4500 && LexLess(row.eventType, "purchase")
    ensures var own := GroupRows(rows, Groups(rows)[i]); !TypeAccepted(own) && AmountAccepted(own)
  {
    GroupBounds(rows, i);
    hide Groups;
    hide LexLess;
    var own := GroupRows(rows, Groups(rows)[i]);
    assert forall row <- own :: row in rows;
    assert own[0] in own;
    OthersPruned(own);
    AmountAcceptedIff(own);
    hide TypeAccepted;
    hide AmountAccepted;
  }

  // ── Exactly the last row group ────────────────────────────────────────────

  /** Where the tail begins, in the purchase shard. */
  function Tail(n: nat, entityCount: nat, byShard: seq<seq<string>>): nat
    requires entityCount > 0 && byShard != []
  {
    TailStart(n, entityCount, |byShard[PurchaseShard(byShard)]|)
  }

  /** How many purchase entities have one row more than the others. */
  function LongPurchases(shardOf: string -> nat, n: nat, entityCount: nat, byShard: seq<seq<string>>): nat
    requires entityCount > 0 && byShard != []
  {
    LongEntities(shardOf, PurchaseShard(byShard), n, entityCount, Specs(n, entityCount, byShard))
  }

  /** The allocation is one of `entityCount` distinct names, each on its shard. */
  ghost predicate Allocation(shardOf: string -> nat, entityCount: nat, byShard: seq<seq<string>>) {
    OwnShards(shardOf, byShard) && entityCount > 0 && byShard != [] && Zipf.Sum(Lengths(byShard)) == entityCount
  }

  lemma TailInside(shardOf: string -> nat, n: nat, entityCount: nat, byShard: seq<seq<string>>)
    requires Allocation(shardOf, entityCount, byShard)
    ensures var k := |byShard[PurchaseShard(byShard)]|;
      && k > 0 && Tail(n, entityCount, byShard) < k && |SortedNames(byShard[PurchaseShard(byShard)])| == k
      && LongPurchases(shardOf, n, entityCount, byShard) <= k
  {
    var p := PurchaseShard(byShard);
    if byShard[p] == [] {
      EmptySum(Lengths(byShard));
    }
    var g := EntitiesPerRowGroup(n, entityCount);
    var k := TailIsLastGroup(|byShard[p]|, g);
    OwnIds(shardOf, n, entityCount, byShard, p);
    LongAtMost(shardOf, p, n, entityCount, Specs(n, entityCount, byShard));
    hide *;
    SortedSize(byShard[p]);
  }

  lemma SortedSize(names: seq<string>)
    ensures |SortedNames(names)| == |names|
  {
  }

  lemma {:induction false} EmptySum(counts: seq<nat>)
    requires forall i :: 0 <= i < |counts| ==> counts[i] == 0
    ensures Zipf.Sum(counts) == 0
  {
    if counts != [] {
      EmptySum(counts[..|counts| - 1]);
    }
  }

  /** The rows of one segment of the purchase shard: `k` entities with `q` rows or one more, and the first
      row of the tail. */
  ghost predicate SegmentOf(rows: seq<Event>, ids: seq<string>, q: nat, m: nat, t: nat) {
    && m <= |ids| && t < |ids| && BlockList(Entities(rows), ids, q, m)
    && AllPurchases(rows) && HighFrom(rows, Offset(q, m, t))
  }

  lemma SegmentIff(rows: seq<Event>, ids: seq<string>, q: nat, m: nat, t: nat)
    requires SegmentOf(rows, ids, q, m, t)
    ensures OnlyLastAccepted(rows) <==> TailInLast(|ids|, q, m, t, ROW_GROUP_SIZE)
    ensures HighIsLastGroup(rows) <==> TailIsLast(|ids|, q, m, t, ROW_GROUP_SIZE)
  {
    var k := |ids|;
    BlockListSize(Entities(rows), ids, q, m);
    OffsetMonotone(q, m, t, k);
    if rows == [] {
      NoBlocks(k, q, m);
      NoGroups(rows);
    } else {
      OffsetZero(q, m, k);
      TailIff(Entities(rows), ids, q, m, ROW_GROUP_SIZE, t);
      OnlyLastIff(rows, Offset(q, m, t));
      HighIsLastIff(rows, Offset(q, m, t));
    }
    hide *;
  }

  lemma NoBlocks(k: nat, q: nat, m: nat)
    requires m <= k && k > 0 && Offset(q, m, k) == 0
    ensures q == 0 && m == 0
  {
    assert q > 0 ==> k * q > 0;
  }

  lemma NoGroups(rows: seq<Event>)
    requires rows == []
    ensures Groups(rows) == []
  {
  }

  lemma PurchaseSegment(
    keep: Event -> bool, shardOf: string -> nat, lo: nat, hi: nat, n: nat, entityCount: nat, byShard: seq<seq<string>>)
    requires Allocation(shardOf, entityCount, byShard)
    requires OfShard(keep, shardOf, PurchaseShard(byShard))
    requires Keeps(keep, shardOf, PurchaseShard(byShard), lo, hi, RowCount(n, entityCount, 0))
    ensures var p, base := PurchaseShard(byShard), n / entityCount;
      var m := LongPurchases(shardOf, n, entityCount, byShard);
      SegmentOf(Kept(keep, Fixture(n, entityCount, byShard)), SortedNames(byShard[p]),
                Clip(base, lo, hi), LongPieces(base, m, lo, hi), Tail(n, entityCount, byShard))
  {
    var p, rows := PurchaseShard(byShard), Kept(keep, Fixture(n, entityCount, byShard));
    KeptTail(keep, shardOf, lo, hi, n, entityCount, byShard);
    TailInside(shardOf, n, entityCount, byShard);
    forall row <- rows ensures row.eventType == "purchase" {
      KeptMeaning(keep, shardOf, p, n, entityCount, byShard, row);
    }
    assert AllPurchases(rows);
    hide BlockList;
    hide HighFrom;
    hide AllPurchases;
    hide Kept;
    hide Fixture;
    hide SortedNames;
    hide Clip;
  }

  // ── The shard as one segment ──────────────────────────────────────────────

  function InShard(shardOf: string -> nat, p: nat): Event -> bool {
    (row: Event) => shardOf(row.entity) == p
  }

  function ShardRows(shardOf: string -> nat, n: nat, entityCount: nat, byShard: seq<seq<string>>): seq<Event>
    requires entityCount > 0 && byShard != []
  {
    Kept(InShard(shardOf, PurchaseShard(byShard)), Fixture(n, entityCount, byShard))
  }

  /** With the purchase shard as one segment, the query reads exactly its last row group if and only if the
      generator's tail begins no earlier than the planner's last group: with `k` purchase entities, `m` of
      them a row longer than n / entityCount. The tail is that group exactly if both begin together. */
  lemma ShardTailIff(shardOf: string -> nat, n: nat, entityCount: nat, byShard: seq<seq<string>>)
    requires Allocation(shardOf, entityCount, byShard)
    ensures var k, m := |byShard[PurchaseShard(byShard)]|, LongPurchases(shardOf, n, entityCount, byShard);
      var rows, t := ShardRows(shardOf, n, entityCount, byShard), Tail(n, entityCount, byShard);
      && m <= k && (OnlyLastAccepted(rows) <==> TailInLast(k, n / entityCount, m, t, ROW_GROUP_SIZE))
      && (HighIsLastGroup(rows) <==> TailIsLast(k, n / entityCount, m, t, ROW_GROUP_SIZE))
  {
    var p, base, m := PurchaseShard(byShard), n / entityCount, LongPurchases(shardOf, n, entityCount, byShard);
    ShardKeeps(shardOf, p, n, entityCount);
    TailInside(shardOf, n, entityCount, byShard);
    assert Clip(base, 0, base + 1) == base && LongPieces(base, m, 0, base + 1) == m;
    assert ShardRows(shardOf, n, entityCount, byShard) == Kept(InShard(shardOf, p), Fixture(n, entityCount, byShard));
    hide *;
    PurchaseSegment(InShard(shardOf, p), shardOf, 0, base + 1, n, entityCount, byShard);
    SegmentIff(ShardRows(shardOf, n, entityCount, byShard), SortedNames(byShard[p]), base, m, Tail(n, entityCount, byShard));
  }

  lemma ShardKeeps(shardOf: string -> nat, p: nat, n: nat, entityCount: nat)
    requires entityCount > 0
    ensures OfShard(InShard(shardOf, p), shardOf, p)
    ensures Keeps(InShard(shardOf, p), shardOf, p, 0, n / entityCount + 1, RowCount(n, entityCount, 0))
  {
  }

  /** With the same number of rows per entity, both are so if and only if an entity fits into a group. */
  lemma EqualTailIff(shardOf: string -> nat, n: nat, entityCount: nat, byShard: seq<seq<string>>)
    requires Allocation(shardOf, entityCount, byShard) && n > 0 && n % entityCount == 0
    ensures var rows := ShardRows(shardOf, n, entityCount, byShard);
      && (OnlyLastAccepted(rows) <==> n / entityCount <= ROW_GROUP_SIZE)
      && (HighIsLastGroup(rows) <==> n / entityCount <= ROW_GROUP_SIZE)
  {
    SomeRows(n, entityCount);
    NoneLong(shardOf, n, entityCount, byShard);
    hide *;
    ShardTailIff(shardOf, n, entityCount, byShard);
    TailInside(shardOf, n, entityCount, byShard);
    TailIs(n, entityCount, byShard);
    EqualTail(|byShard[PurchaseShard(byShard)]|, n, entityCount);
  }

  lemma SomeRows(n: nat, entityCount: nat)
    requires entityCount > 0 && n > 0 && n % entityCount == 0
    ensures n / entityCount > 0
  {
    Division(n, entityCount);
  }

  lemma TailIs(n: nat, entityCount: nat, byShard: seq<seq<string>>)
    requires entityCount > 0 && byShard != []
    ensures Tail(n, entityCount, byShard) == TailStart(n, entityCount, |byShard[PurchaseShard(byShard)]|)
  {
  }

  lemma NoneLong(shardOf: string -> nat, n: nat, entityCount: nat, byShard: seq<seq<string>>)
    requires entityCount > 0 && byShard != [] && n % entityCount == 0
    ensures LongPurchases(shardOf, n, entityCount, byShard) == 0
  {
    assert Specs(n, entityCount, byShard)[..0] == [];
  }

  lemma EqualTail(k: nat, n: nat, entityCount: nat)
    requires entityCount > 0 && n / entityCount > 0 && k > 0
    ensures TailIsLast(k, n / entityCount, 0, TailStart(n, entityCount, k), ROW_GROUP_SIZE) <==> n / entityCount <= ROW_GROUP_SIZE
    ensures TailInLast(k, n / entityCount, 0, TailStart(n, entityCount, k), ROW_GROUP_SIZE) <==> n / entityCount <= ROW_GROUP_SIZE
  {
    var b := n / entityCount;
    if b <= ROW_GROUP_SIZE {
      Fits(b, ROW_GROUP_SIZE);
      assert EntitiesPerRowGroup(n, entityCount) == ROW_GROUP_SIZE / b;
      WholeTail(k, ROW_GROUP_SIZE / b);
      NarrowBlocks(k, b, ROW_GROUP_SIZE);
    }
  }

  lemma WholeTail(k: nat, g: nat)
    requires g > 0 && k > 0
    ensures k - TailGroup(k, g) == Whole(g, k - 1)
  {
    var full := TailIsLastGroup(k, g);
    Quotient(g, k - 1, full);
  }

  lemma NarrowBlocks(k: nat, q: nat, target: nat)
    requires k > 0 && 1 <= q <= target
    ensures target / q > 0 && LastBlock(k, q, 0, target) == Whole(target / q, k - 1)
  {
    Fits(q, target);
    var g := target / q;
    WholeNext(g, k - 1);
    assert FirstMixed(q, 0, target) == 0 && MixedEnd(q, 0, target) == g;
    if k <= g {
      TimesMonotone(k, g, q);
    } else {
      TimesMonotone(g + 1, k, q);
    }
    hide Whole;
    if k * q <= target {
      LastBlockFit(k, q, 0, target);
    } else {
      LastBlockUnfit(k, q, 0, target);
    }
  }

  lemma SteadyNumbers(k: nat, q: nat, m: nat, target: nat)
    requires m <= k && k > 0 && 1 <= q < target && target / (q + 1) == target / q
    ensures target / q > 0 && TailIsLast(k, q, m, Whole(target / q, k - 1), target)
  {
    Fits(q, target);
    NarrowBlocks(k, q, target);
    if m > 0 {
      SteadyEnd(q, m, target);
      SteadyLast(k, q, m, target);
    }
    hide LastBlock;
    hide Whole;
  }

  lemma SteadyEnd(q: nat, m: nat, target: nat)
    requires 1 <= q < target && target / (q + 1) == target / q && m > 0
    ensures var g, s := target / q, FirstMixed(q, m, target);
      g > 0 && s == Whole(g, m - 1) && s < m && MixedEnd(q, m, target) == s + g && (g + 1) * q > target - (m - s)
  {
    var g := target / q;
    Fits(q, target);
    Fits(q + 1, target);
    var wide := m - Whole(g, m - 1);
    assert wide <= g;
    hide Whole;
    SteadyRoom(q, target, g, wide);
  }

  lemma SteadyRoom(q: nat, target: nat, g: nat, wide: nat)
    requires q > 0 && PerGroup(g, q, target) && PerGroup(g, q + 1, target) && wide <= g
    ensures wide <= target && (target - wide) / q == g && (g + 1) * q > target - wide
  {
    assert g * (q + 1) == g * q + g && (g + 1) * q == g * q + q && q * g == g * q;
    assert g * q >= 0;
    Quotient(q, target - wide, g);
  }

  lemma SteadyLast(k: nat, q: nat, m: nat, target: nat)
    requires 0 < m <= k && 1 <= q < target && target / (q + 1) == target / q
    ensures target / q > 0 && LastBlock(k, q, m, target) == Whole(target / q, k - 1)
  {
    var g, s := target / q, FirstMixed(q, m, target);
    SteadyEnd(q, m, target);
    MixedSizes(k, q, m, target);
    MultipleOf(g, m - 1, k - 1);
    if Fit(k, q, m, target) {
      LastBlockFit(k, q, m, target);
      if k - s > g {
        TimesMonotone(g + 1, k - s, q);
      }
    } else {
      LastBlockUnfit(k, q, m, target);
    }
    hide LastBlock;
    hide Whole;
    hide FirstMixed;
    hide Offset;
  }

  /** Counting on from a multiple of `g`. */
  lemma MultipleOf(g: nat, x: nat, y: nat)
    requires g > 0 && x <= y
    ensures var s := Whole(g, x); Whole(g, y) == s + Whole(g, y - s)
    ensures var s := Whole(g, x); y - s < g ==> Whole(g, y) == s
    ensures var s := Whole(g, x); y - s >= g ==> Whole(g, y) == s + g + Whole(g, y - s - g)
  {
    var s := Whole(g, x);
    var c, d := x / g, (y - s) / g;
    assert Whole(g, y - s) == g * d;
    assert g * (c + d) == g * c + g * d;
    Quotient(g, y, c + d);
    WholeNext(g, y - s);
  }

  /** And with counts that differ by one, both are so if as many of the longer entities as of the shorter
      ones fit into a group. */
  lemma SteadyTail(shardOf: string -> nat, n: nat, entityCount: nat, byShard: seq<seq<string>>)
    requires Allocation(shardOf, entityCount, byShard)
    requires var q := n / entityCount; 1 <= q < ROW_GROUP_SIZE && ROW_GROUP_SIZE / (q + 1) == ROW_GROUP_SIZE / q
    ensures var rows := ShardRows(shardOf, n, entityCount, byShard); OnlyLastAccepted(rows) && HighIsLastGroup(rows)
  {
    var q, k, m := n / entityCount, |byShard[PurchaseShard(byShard)]|, LongPurchases(shardOf, n, entityCount, byShard);
    TailInside(shardOf, n, entityCount, byShard);
    SteadyTailNumbers(k, n, entityCount, m);
    TailIs(n, entityCount, byShard);
    hide *;
    ShardTailIff(shardOf, n, entityCount, byShard);
  }

  lemma SteadyTailNumbers(k: nat, n: nat, entityCount: nat, m: nat)
    requires entityCount > 0 && m <= k && k > 0
    requires var q := n / entityCount; 1 <= q < ROW_GROUP_SIZE && ROW_GROUP_SIZE / (q + 1) == ROW_GROUP_SIZE / q
    ensures var q, t := n / entityCount, TailStart(n, entityCount, k);
      TailIsLast(k, q, m, t, ROW_GROUP_SIZE) && TailInLast(k, q, m, t, ROW_GROUP_SIZE)
  {
    var q := n / entityCount;
    SteadyNumbers(k, q, m, ROW_GROUP_SIZE);
    WholeTail(k, ROW_GROUP_SIZE / q);
    assert EntitiesPerRowGroup(n, entityCount) == ROW_GROUP_SIZE / q;
    hide LastBlock;
    hide Whole;
    hide TailGroup;
  }

  // ── The buckets of the shard ──────────────────────────────────────────────

  const DAY_NS := 86_400 * 1_000_000_000
  const WINDOW_DAYS := 30

  /** First day of the window of a timestamp; none before 1970. */
  function WindowId(ts: int): Option<nat> {
    if ts < 0 then None
    else
      var day := ts / DAY_NS;
      Some(day - day % WINDOW_DAYS)
  }

  function InBucket(shardOf: string -> nat, p: nat, window: nat): Event -> bool {
    (row: Event) => shardOf(row.entity) == p && WindowId(row.ts) == Some(window)
  }

  lemma WindowOfRow(i: nat)
    requires i < MAX_ROWS
    ensures StreamingEvents.AsI64(ExactTs(i)) == ExactTs(i) && WindowId(ExactTs(i)) == Some((28_928_160 + i) / 43_200 * 30)
  {
    var minute := 28_928_160 + i;
    assert ExactTs(i) == minute * StreamingEvents.STEP_NS;
    assert ExactTs(i) / DAY_NS == minute / 1_440;
  }

  /** The number, within each entity, of the first row in or after the `w`-th window of 30 days. */
  function WindowStart(w: nat): nat {
    if w <= 669 then 0 else w * 43_200 - 28_928_160
  }

  lemma BucketKeeps(shardOf: string -> nat, p: nat, w: nat, n: nat, entityCount: nat)
    requires entityCount > 0 && n <= entityCount * MAX_ROWS
    ensures Keeps(InBucket(shardOf, p, 30 * w), shardOf, p, WindowStart(w), WindowStart(w + 1), RowCount(n, entityCount, 0))
  {
    MostRows(n, entityCount);
    var keep := InBucket(shardOf, p, 30 * w);
    forall spec: Spec, i: nat | i < RowCount(n, entityCount, 0)
      ensures keep(RowAt(spec, i)) <==> shardOf(spec.id) == p && WindowStart(w) <= i < WindowStart(w + 1)
    {
      BucketRow(shardOf, p, w, spec, i);
    }
    hide RowAt;
    hide WindowStart;
  }

  lemma BucketRow(shardOf: string -> nat, p: nat, w: nat, spec: Spec, i: nat)
    requires i < MAX_ROWS
    ensures InBucket(shardOf, p, 30 * w)(RowAt(spec, i)) <==> shardOf(spec.id) == p && WindowStart(w) <= i < WindowStart(w + 1)
  {
    WindowOfRow(i);
    assert RowAt(spec, i).entity == spec.id && RowAt(spec, i).ts == ExactTs(i);
    hide WindowId;
    hide RowAt;
  }

  /** One segment of the database: a shard's rows of the `w`-th window of 30 days. */
  function Bucket(shardOf: string -> nat, rows: seq<Event>, s: nat, w: nat): seq<Event> {
    Kept(InBucket(shardOf, s, 30 * w), rows)
  }

  /** The counts of a bucket of the purchase shard: rows per entity, and how many have one more. */
  function BucketCount(n: nat, entityCount: nat, w: nat): nat
    requires entityCount > 0
  {
    Clip(n / entityCount, WindowStart(w), WindowStart(w + 1))
  }

  function BucketLong(n: nat, entityCount: nat, m: nat, w: nat): (r: nat)
    requires entityCount > 0
    ensures r <= m
  {
    LongPieces(n / entityCount, m, WindowStart(w), WindowStart(w + 1))
  }

  /** The tail begins no earlier than the planner's last group in the `w`-th window, by the numbers. */
  predicate TailFits(k: nat, n: nat, entityCount: nat, m: nat, t: nat, w: nat)
    requires entityCount > 0 && m <= k
  {
    TailInLast(k, BucketCount(n, entityCount, w), BucketLong(n, entityCount, m, w), t, ROW_GROUP_SIZE)
  }

  lemma BucketSegment(shardOf: string -> nat, n: nat, entityCount: nat, byShard: seq<seq<string>>, w: nat)
    requires Allocation(shardOf, entityCount, byShard) && n <= entityCount * MAX_ROWS
    ensures var p, m := PurchaseShard(byShard), LongPurchases(shardOf, n, entityCount, byShard);
      SegmentOf(Bucket(shardOf, Fixture(n, entityCount, byShard), p, w), SortedNames(byShard[p]),
                BucketCount(n, entityCount, w), BucketLong(n, entityCount, m, w), Tail(n, entityCount, byShard))
  {
    var p, m := PurchaseShard(byShard), LongPurchases(shardOf, n, entityCount, byShard);
    assert BucketCount(n, entityCount, w) == Clip(n / entityCount, WindowStart(w), WindowStart(w + 1));
    assert BucketLong(n, entityCount, m, w) == LongPieces(n / entityCount, m, WindowStart(w), WindowStart(w + 1));
    assert Bucket(shardOf, Fixture(n, entityCount, byShard), p, w)
      == Kept(InBucket(shardOf, p, 30 * w), Fixture(n, entityCount, byShard));
    BucketOf(shardOf, p, w);
    hide *;
    BucketKeeps(shardOf, p, w, n, entityCount);
    PurchaseSegment(InBucket(shardOf, p, 30 * w), shardOf, WindowStart(w), WindowStart(w + 1), n, entityCount, byShard);
  }

  lemma BucketOf(shardOf: string -> nat, s: nat, w: nat)
    ensures OfShard(InBucket(shardOf, s, 30 * w), shardOf, s)
  {
  }

  /** One bucket of the purchase shard, which the writer makes one segment of. Its rows are already in
      the writer's order, and the query reads exactly its last row group if and only if the tail begins no
      earlier than the planner's last group, for the rows the entities have in that window. */
  lemma BucketTailIff(shardOf: string -> nat, n: nat, entityCount: nat, byShard: seq<seq<string>>, w: nat)
    requires Allocation(shardOf, entityCount, byShard) && n <= entityCount * MAX_ROWS
    ensures var p, m := PurchaseShard(byShard), LongPurchases(shardOf, n, entityCount, byShard);
      var rows := Bucket(shardOf, Fixture(n, entityCount, byShard), p, w);
      && StrictlyOrdered(rows) && m <= |byShard[p]|
      && (OnlyLastAccepted(rows) <==> TailFits(|byShard[p]|, n, entityCount, m, Tail(n, entityCount, byShard), w))
  {
    BucketOrdered(shardOf, n, entityCount, byShard, PurchaseShard(byShard), w);
    TailInside(shardOf, n, entityCount, byShard);
    TailFitsIs(|byShard[PurchaseShard(byShard)]|, n, entityCount, LongPurchases(shardOf, n, entityCount, byShard),
               Tail(n, entityCount, byShard), w);
    hide *;
    var p, m := PurchaseShard(byShard), LongPurchases(shardOf, n, entityCount, byShard);
    BucketSegment(shardOf, n, entityCount, byShard, w);
    SegmentIff(Bucket(shardOf, Fixture(n, entityCount, byShard), p, w), SortedNames(byShard[p]),
               BucketCount(n, entityCount, w), BucketLong(n, entityCount, m, w), Tail(n, entityCount, byShard));
  }

  lemma TailFitsIs(k: nat, n: nat, entityCount: nat, m: nat, t: nat, w: nat)
    requires entityCount > 0 && m <= k
    ensures TailFits(k, n, entityCount, m, t, w) <==>
      TailInLast(k, BucketCount(n, entityCount, w), BucketLong(n, entityCount, m, w), t, ROW_GROUP_SIZE)
  {
  }

  lemma BucketOrdered(shardOf: string -> nat, n: nat, entityCount: nat, byShard: seq<seq<string>>, s: nat, w: nat)
    requires Allocation(shardOf, entityCount, byShard) && n <= entityCount * MAX_ROWS
    ensures StrictlyOrdered(Bucket(shardOf, Fixture(n, entityCount, byShard), s, w))
  {
    hide Fixture;
    hide StrictlyOrdered;
    FixtureOrderedIff(shardOf, n, entityCount, byShard);
    KeptOrdered(InBucket(shardOf, s, 30 * w), Fixture(n, entityCount, byShard));
  }

  lemma {:induction false} KeptSame(a: Event -> bool, b: Event -> bool, rows: seq<Event>)
    requires forall row <- rows :: a(row) == b(row)
    ensures Kept(a, rows) == Kept(b, rows)
  {
    if rows != [] {
      KeptSame(a, b, rows[..|rows| - 1]);
    }
  }

  /** Up to 15,840 rows per entity, all rows are in the window that begins at day 20,070, so the shard
      is one bucket; with equal counts the tail is exactly its last row group and the only one read. */
  lemma EqualTailInOneBucket(shardOf: string -> nat, n: nat, entityCount: nat, byShard: seq<seq<string>>)
    requires Allocation(shardOf, entityCount, byShard) && n > 0 && n % entityCount == 0 && n / entityCount <= 15_840
    ensures var rows := Bucket(shardOf, Fixture(n, entityCount, byShard), PurchaseShard(byShard), 669);
      rows == ShardRows(shardOf, n, entityCount, byShard) && OnlyLastAccepted(rows) && HighIsLastGroup(rows)
  {
    assert n / entityCount <= ROW_GROUP_SIZE;
    EqualTailIff(shardOf, n, entityCount, byShard);
    hide OnlyLastAccepted;
    hide HighIsLastGroup;
    hide Fixture;
    var p, rows := PurchaseShard(byShard), Fixture(n, entityCount, byShard);
    FirstWindow(shardOf, n, entityCount, byShard, p);
    KeptSame(InBucket(shardOf, p, 20_070), InShard(shardOf, p), rows);
    hide *;
  }

  lemma FirstWindow(shardOf: string -> nat, n: nat, entityCount: nat, byShard: seq<seq<string>>, p: nat)
    requires entityCount > 0 && byShard != [] && n % entityCount == 0 && n / entityCount <= 15_840
    ensures forall row <- Fixture(n, entityCount, byShard) :: InBucket(shardOf, p, 20_070)(row) == InShard(shardOf, p)(row)
  {
    var specs, rows := Specs(n, entityCount, byShard), Fixture(n, entityCount, byShard);
    FixtureUnfold(n, entityCount, byShard);
    hide Specs;
    hide Fixture;
    hide Rows;
    forall row <- rows ensures InBucket(shardOf, p, 20_070)(row) == InShard(shardOf, p)(row) {
      var r :| 0 <= r < |rows| && rows[r] == row;
      var e, i := RowOrigin(n, entityCount, specs, |specs|, r);
      EarlyRow(specs[e], i);
    }
  }

  lemma EarlyRow(spec: Spec, i: nat)
    requires i < 15_840
    ensures WindowId(RowAt(spec, i).ts) == Some(20_070)
  {
    WindowOfRow(i);
    hide WindowId;
    assert RowAt(spec, i).ts == ExactTs(i);
  }

  // ── The whole database ────────────────────────────────────────────────────

  /** The query reads row group `i` of shard `s` in the `w`-th window. */
  predicate AcceptedAt(shardOf: string -> nat, rows: seq<Event>, s: nat, w: nat, i: nat) {
    var own := Bucket(shardOf, rows, s, w);
    i < |Groups(own)| && Accepted(GroupRows(own, Groups(own)[i]))
  }

  /** Of all row groups the query reads the last ones of the purchase shard's segments, and no others. */
  ghost predicate OnlyTailsAccepted(shardOf: string -> nat, rows: seq<Event>, p: nat) {
    forall s, w, i ::
      AcceptedAt(shardOf, rows, s, w, i) <==> s == p && i == |Groups(Bucket(shardOf, rows, s, w))| - 1
  }

  lemma OtherShardPruned(shardOf: string -> nat, n: nat, entityCount: nat, byShard: seq<seq<string>>, s: nat, w: nat, i: nat)
    requires OwnShards(shardOf, byShard) && entityCount > 0 && byShard != [] && s != PurchaseShard(byShard)
    ensures !AcceptedAt(shardOf, Fixture(n, entityCount, byShard), s, w, i)
  {
    var rows := Fixture(n, entityCount, byShard);
    hide Fixture;
    BucketOf(shardOf, s, w);
    if i < |Groups(Bucket(shardOf, rows, s, w))| {
      SegmentAccepted(InBucket(shardOf, s, 30 * w), shardOf, s, n, entityCount, byShard, 0, i);
    }
    hide Groups;
    hide GroupRows;
    hide TypeAccepted;
  }

  /** Over all shards and windows: exactly the last row groups of the purchase shard's segments, if and
      only if that is so by the numbers of each window. */
  lemma DatabaseTailIff(shardOf: string -> nat, n: nat, entityCount: nat, byShard: seq<seq<string>>)
    requires Allocation(shardOf, entityCount, byShard) && n <= entityCount * MAX_ROWS
    ensures var p, m := PurchaseShard(byShard), LongPurchases(shardOf, n, entityCount, byShard);
      && m <= |byShard[p]|
      && (OnlyTailsAccepted(shardOf, Fixture(n, entityCount, byShard), p) <==>
        forall w :: TailFits(|byShard[p]|, n, entityCount, m, Tail(n, entityCount, byShard), w))
  {
    hide *;
    AllocationSound(shardOf, entityCount, byShard);
    var p, rows := PurchaseShard(byShard), Fixture(n, entityCount, byShard);
    var m, t := LongPurchases(shardOf, n, entityCount, byShard), Tail(n, entityCount, byShard);
    TailInside(shardOf, n, entityCount, byShard);
    forall w ensures OnlyLastAccepted(Bucket(shardOf, rows, p, w)) <==> TailFits(|byShard[p]|, n, entityCount, m, t, w) {
      BucketTailIff(shardOf, n, entityCount, byShard, w);
    }
    forall s, w, i | s != p ensures !AcceptedAt(shardOf, rows, s, w, i) {
      OtherShardPruned(shardOf, n, entityCount, byShard, s, w, i);
    }
    TailsByWindow(shardOf, rows, p);
  }

  lemma AllocationSound(shardOf: string -> nat, entityCount: nat, byShard: seq<seq<string>>)
    requires Allocation(shardOf, entityCount, byShard)
    ensures OwnShards(shardOf, byShard) && entityCount > 0 && byShard != []
  {
  }

  lemma TailsByWindow(shardOf: string -> nat, rows: seq<Event>, p: nat)
    requires forall s, w, i :: s != p ==> !AcceptedAt(shardOf, rows, s, w, i)
    ensures OnlyTailsAccepted(shardOf, rows, p) <==> forall w :: OnlyLastAccepted(Bucket(shardOf, rows, p, w))
  {
    hide Bucket;
    hide Groups;
    hide Accepted;
    hide GroupRows;
    if OnlyTailsAccepted(shardOf, rows, p) {
      forall w ensures OnlyLastAccepted(Bucket(shardOf, rows, p, w)) {
        var own := Bucket(shardOf, rows, p, w);
        forall i: nat | i < |Groups(own)| ensures Accepted(GroupRows(own, Groups(own)[i])) <==> i == |Groups(own)| - 1 {
          assert AcceptedAt(shardOf, rows, p, w, i) <==> i == |Groups(own)| - 1;
        }
      }
    }
    if forall w :: OnlyLastAccepted(Bucket(shardOf, rows, p, w)) {
      forall s, w, i: nat ensures AcceptedAt(shardOf, rows, s, w, i) <==> s == p && i == |Groups(Bucket(shardOf, rows, s, w))| - 1 {
        if s == p {
          assert OnlyLastAccepted(Bucket(shardOf, rows, p, w));
        }
      }
    }
  }

  // ── A single row group ────────────────────────────────────────────────────

  /** The query reads one row group in all. */
  ghost predicate OneAccepted(shardOf: string -> nat, rows: seq<Event>) {
    exists s, w, i :: OnlyAccepted(shardOf, rows, s, w, i)
  }

  ghost predicate OnlyAccepted(shardOf: string -> nat, rows: seq<Event>, s: nat, w: nat, i: nat) {
    forall s', w', i' :: AcceptedAt(shardOf, rows, s', w', i') <==> s' == s && w' == w && i' == i
  }

  /** Rows of the longest tail entity. */
  function TailWidth(n: nat, entityCount: nat, m: nat, t: nat): nat
    requires entityCount > 0
  {
    Width(n / entityCount, m, t)
  }

  lemma HighRowsIff(n: nat, entityCount: nat, m: nat, t: nat, k: nat, w: nat)
    requires entityCount > 0 && m <= k && t < k
    ensures var q, long := BucketCount(n, entityCount, w), BucketLong(n, entityCount, m, w);
      Offset(q, long, t) < Offset(q, long, k) <==> w >= 669 && TailWidth(n, entityCount, m, t) > WindowStart(w)
  {
    OffsetInside(BucketCount(n, entityCount, w), BucketLong(n, entityCount, m, w), t, k);
    hide Offset;
  }

  /** A segment's last group is read if any is, and that is if it has a row of the tail. */
  lemma LastAccepted(rows: seq<Event>, first: nat, i: nat)
    requires AllPurchases(rows) && HighFrom(rows, first) && i < |Groups(rows)|
    ensures Accepted(GroupRows(rows, Groups(rows)[i])) ==> first < |rows|
    ensures first < |rows| && i == |Groups(rows)| - 1 ==> Accepted(GroupRows(rows, Groups(rows)[i]))
  {
    GroupAcceptedIff(rows, first, i);
    GroupBounds(rows, i);
    assert rows != [];
    LastBounds(rows);
    hide *;
    AcceptedBoth(GroupRows(rows, Groups(rows)[i]));
  }

  lemma AcceptedBoth(rows: seq<Event>)
    ensures Accepted(rows) <==> TypeAccepted(rows) && AmountAccepted(rows)
  {
  }

  lemma SegmentParts(rows: seq<Event>, ids: seq<string>, q: nat, m: nat, t: nat)
    requires SegmentOf(rows, ids, q, m, t)
    ensures AllPurchases(rows) && HighFrom(rows, Offset(q, m, t)) && |rows| == Offset(q, m, |ids|)
  {
    BlockListSize(Entities(rows), ids, q, m);
    hide Offset;
  }

  /** The purchase shard is read in the windows in which its tail has rows, and in no others. */
  lemma ReadWindow(shardOf: string -> nat, n: nat, entityCount: nat, byShard: seq<seq<string>>, w: nat, i: nat)
    requires Allocation(shardOf, entityCount, byShard) && n <= entityCount * MAX_ROWS
    ensures var rows, p := Fixture(n, entityCount, byShard), PurchaseShard(byShard);
      var width := TailWidth(n, entityCount, LongPurchases(shardOf, n, entityCount, byShard), Tail(n, entityCount, byShard));
      var own := Bucket(shardOf, rows, p, w);
      && (AcceptedAt(shardOf, rows, p, w, i) ==> w >= 669 && width > WindowStart(w))
      && (w >= 669 && width > WindowStart(w) ==> Groups(own) != [] && AcceptedAt(shardOf, rows, p, w, |Groups(own)| - 1))
  {
    hide *;
    AllocationSound(shardOf, entityCount, byShard);
    var rows, p := Fixture(n, entityCount, byShard), PurchaseShard(byShard);
    var m, t, own := LongPurchases(shardOf, n, entityCount, byShard), Tail(n, entityCount, byShard), Bucket(shardOf, rows, p, w);
    var q, long, ids := BucketCount(n, entityCount, w), BucketLong(n, entityCount, m, w), SortedNames(byShard[p]);
    BucketSegment(shardOf, n, entityCount, byShard, w);
    SegmentParts(own, ids, q, long, t);
    TailInside(shardOf, n, entityCount, byShard);
    HighRowsIff(n, entityCount, m, t, |ids|, w);
    AcceptedAtIs(shardOf, rows, p, w, i);
    if i < |Groups(own)| {
      LastAccepted(own, Offset(q, long, t), i);
    }
    if Offset(q, long, t) < |own| {
      LastBounds(own);
      LastAccepted(own, Offset(q, long, t), |Groups(own)| - 1);
      AcceptedAtIs(shardOf, rows, p, w, |Groups(own)| - 1);
    }
  }

  lemma AcceptedAtIs(shardOf: string -> nat, rows: seq<Event>, s: nat, w: nat, i: nat)
    ensures AcceptedAt(shardOf, rows, s, w, i) <==>
      var own := Bucket(shardOf, rows, s, w); i < |Groups(own)| && Accepted(GroupRows(own, Groups(own)[i]))
  {
  }

  /** The query reads exactly one row group in all if and only if the tail has rows, all of them are in
      its first window, and the tail begins no earlier than the last group there. */
  lemma OneAcceptedIff(shardOf: string -> nat, n: nat, entityCount: nat, byShard: seq<seq<string>>)
    requires Allocation(shardOf, entityCount, byShard) && n <= entityCount * MAX_ROWS
    ensures var k, m := |byShard[PurchaseShard(byShard)]|, LongPurchases(shardOf, n, entityCount, byShard);
      var t := Tail(n, entityCount, byShard);
      && m <= k
      && (OneAccepted(shardOf, Fixture(n, entityCount, byShard)) <==>
        0 < TailWidth(n, entityCount, m, t) <= 15_840 && TailFits(k, n, entityCount, m, t, 669))
  {
    hide *;
    AllocationSound(shardOf, entityCount, byShard);
    WindowStarts();
    var rows, p := Fixture(n, entityCount, byShard), PurchaseShard(byShard);
    TailInside(shardOf, n, entityCount, byShard);
    forall s, w, i | AcceptedAt(shardOf, rows, s, w, i) ensures s == p {
      if s != p {
        OtherShardPruned(shardOf, n, entityCount, byShard, s, w, i);
      }
    }
    var width := TailWidth(n, entityCount, LongPurchases(shardOf, n, entityCount, byShard), Tail(n, entityCount, byShard));
    forall w, i ensures AcceptedAt(shardOf, rows, p, w, i) ==> w >= 669 && width > WindowStart(w) {
      ReadWindow(shardOf, n, entityCount, byShard, w, i);
    }
    ReadWindow(shardOf, n, entityCount, byShard, 669, 0);
    ReadWindow(shardOf, n, entityCount, byShard, 670, 0);
    BucketTailIff(shardOf, n, entityCount, byShard, 669);
    OneByWindow(shardOf, rows, p, width);
  }

  lemma WindowStarts()
    ensures WindowStart(669) == 0 && WindowStart(670) == 15_840
    ensures forall w :: w >= 670 ==> WindowStart(w) >= 15_840
  {
  }

  lemma OneByWindow(shardOf: string -> nat, rows: seq<Event>, p: nat, width: nat)
    requires forall s, w, i :: AcceptedAt(shardOf, rows, s, w, i) ==> s == p
    requires forall w, i :: AcceptedAt(shardOf, rows, p, w, i) ==> w >= 669 && width > WindowStart(w)
    requires width > 0 ==> var own := Bucket(shardOf, rows, p, 669);
      Groups(own) != [] && AcceptedAt(shardOf, rows, p, 669, |Groups(own)| - 1)
    requires width > 15_840 ==> var own := Bucket(shardOf, rows, p, 670);
      Groups(own) != [] && AcceptedAt(shardOf, rows, p, 670, |Groups(own)| - 1)
    ensures OneAccepted(shardOf, rows) <==> 0 < width <= 15_840 && OnlyLastAccepted(Bucket(shardOf, rows, p, 669))
  {
    WindowStarts();
    var own := Bucket(shardOf, rows, p, 669);
    hide Bucket;
    hide Groups;
    hide GroupRows;
    hide Accepted;
    hide WindowStart;
    if s, w, i :| OnlyAccepted(shardOf, rows, s, w, i) {
      assert AcceptedAt(shardOf, rows, s, w, i);
      assert w == 669 && i == |Groups(own)| - 1;
      forall j: nat | j < |Groups(own)| ensures Accepted(GroupRows(own, Groups(own)[j])) <==> j == |Groups(own)| - 1 {
        assert AcceptedAt(shardOf, rows, p, 669, j) <==> j == i;
      }
    }
    if 0 < width <= 15_840 && OnlyLastAccepted(own) {
      assert OnlyAccepted(shardOf, rows, p, 669, |Groups(own)| - 1);
    }
  }

  /** With the same number of rows per entity: if and only if an entity's rows are in one window. */
  lemma EqualOneAcceptedIff(shardOf: string -> nat, n: nat, entityCount: nat, byShard: seq<seq<string>>)
    requires Allocation(shardOf, entityCount, byShard) && 0 < n <= entityCount * MAX_ROWS && n % entityCount == 0
    ensures OneAccepted(shardOf, Fixture(n, entityCount, byShard)) <==> n / entityCount <= 15_840
  {
    SomeRows(n, entityCount);
    NoneLong(shardOf, n, entityCount, byShard);
    hide *;
    OneAcceptedIff(shardOf, n, entityCount, byShard);
    TailInside(shardOf, n, entityCount, byShard);
    TailIs(n, entityCount, byShard);
    EqualFirstWindow(|byShard[PurchaseShard(byShard)]|, n, entityCount);
  }

  lemma EqualFirstWindow(k: nat, n: nat, entityCount: nat)
    requires entityCount > 0 && n / entityCount > 0 && k > 0
    ensures var t := TailStart(n, entityCount, k);
      0 < TailWidth(n, entityCount, 0, t) <= 15_840 && TailFits(k, n, entityCount, 0, t, 669) <==> n / entityCount <= 15_840
  {
    var b := n / entityCount;
    FirstCounts(n, entityCount, 0);
    if b <= 15_840 {
      assert b <= ROW_GROUP_SIZE;
      EqualTail(k, n, entityCount);
    }
    hide TailInLast;
    hide TailStart;
  }

  lemma FirstCounts(n: nat, entityCount: nat, m: nat)
    requires entityCount > 0
    ensures var q := n / entityCount;
      && BucketCount(n, entityCount, 669) == (if q < 15_840 then q else 15_840)
      && BucketLong(n, entityCount, m, 669) == (if q < 15_840 then m else 0)
  {
  }

  /** With counts that differ by one it is so, for up to 15,840 rows, if as many of the longer entities as
      of the shorter ones fit into a group. */
  lemma SteadyOneAccepted(shardOf: string -> nat, n: nat, entityCount: nat, byShard: seq<seq<string>>)
    requires Allocation(shardOf, entityCount, byShard) && n <= entityCount * MAX_ROWS
    requires var q := n / entityCount; 1 <= q < 15_840 && ROW_GROUP_SIZE / (q + 1) == ROW_GROUP_SIZE / q
    ensures OneAccepted(shardOf, Fixture(n, entityCount, byShard))
  {
    TailInside(shardOf, n, entityCount, byShard);
    var k, m := |byShard[PurchaseShard(byShard)]|, LongPurchases(shardOf, n, entityCount, byShard);
    SteadyTailNumbers(k, n, entityCount, m);
    FirstCounts(n, entityCount, m);
    TailIs(n, entityCount, byShard);
    assert TailFits(k, n, entityCount, m, Tail(n, entityCount, byShard), 669);
    assert 0 < TailWidth(n, entityCount, m, Tail(n, entityCount, byShard)) <= 15_840;
    hide *;
    OneAcceptedIff(shardOf, n, entityCount, byShard);
  }

  // ── Where it fails ────────────────────────────────────────────────────────

  /** A single entity of 65,537 rows on a single shard: as one segment its rows are cut into two groups,
      and the query reads both. */
  lemma WideEntityFails()
    ensures var shardOf, byShard := (x: string) => 0, [["user_000000"]];
      && OwnShards(shardOf, byShard) && !OnlyLastAccepted(ShardRows(shardOf, 65_537, 1, byShard))
      && !HighIsLastGroup(ShardRows(shardOf, 65_537, 1, byShard))
  {
    var shardOf, byShard := (x: string) => 0, [["user_000000"]];
    var names := byShard[0];
    assert OwnNames(shardOf, 0, names);
    OneShard(shardOf, byShard);
    EqualTailIff(shardOf, 65_537, 1, byShard);
    hide HighIsLastGroup;
    hide OnlyLastAccepted;
    hide Fixture;
  }

  lemma OneShard(shardOf: string -> nat, byShard: seq<seq<string>>)
    requires OwnShards(shardOf, byShard) && |byShard| == 1 && |byShard[0]| > 0
    ensures Allocation(shardOf, |byShard[0]|, byShard) && PurchaseShard(byShard) == 0
  {
    var k := |byShard[0]|;
    assert Lengths(byShard) == [k];
    assert [k][..0] == [];
    assert Zipf.Sum([k]) == Zipf.Sum([]) + k;
  }

  /** Nine entities of 20,000 rows each: three of them fit into a group, so the tail begins with the
      seventh; but of the 15,840 rows each has in its first window four fit, so that there the last group
      is the ninth entity, and the query reads the group before it as well. */
  lemma WindowFails(shardOf: string -> nat, byShard: seq<seq<string>>)
    requires OwnShards(shardOf, byShard) && |byShard| == 1 && |byShard[0]| == 9
    ensures !OnlyLastAccepted(Bucket(shardOf, Fixture(180_000, 9, byShard), 0, 669))
    ensures !OnlyTailsAccepted(shardOf, Fixture(180_000, 9, byShard), 0)
  {
    OneShard(shardOf, byShard);
    NoneLong(shardOf, 180_000, 9, byShard);
    TailIs(180_000, 9, byShard);
    FirstCounts(180_000, 9, 0);
    NineEntities();
    hide *;
    BucketTailIff(shardOf, 180_000, 9, byShard, 669);
    DatabaseTailIff(shardOf, 180_000, 9, byShard);
  }

  lemma NineEntities()
    ensures TailStart(180_000, 9, 9) == 6 && !TailFits(9, 180_000, 9, 0, 6, 669)
  {
    FirstCounts(180_000, 9, 0);
    assert LastOf(9, 15_840, 0, ROW_GROUP_SIZE) == 8;
  }
}

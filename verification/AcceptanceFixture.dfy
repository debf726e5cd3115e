/** The acceptance-query fixture: which rows it has, and which of them the query can find. */
module AcceptanceFixture {
  import opened Text
  import opened ShardTargets
  import Zipf
  import StreamingEvents

  type Event = StreamingEvents.Event

  const ROW_GROUP_SIZE := 65_536
  /** Rows per entity whose timestamps fit in 64 bits. */
  const MAX_ROWS := 124_794_708

  datatype Kind = PurchaseLow | PurchaseHigh | EventHigh(name: string)

  datatype Spec = Spec(id: string, kind: Kind)

  function NonPurchaseLabel(i: nat): string {
    "event_" + Decimal(1 + i % 19)
  }

  // ── The purchase shard and its tail ───────────────────────────────────────

  /** The last of the shards with the most entities (`max_by_key` keeps the last maximum). */
  function PurchaseShard(byShard: seq<seq<string>>): (p: nat)
    requires byShard != []
    ensures p < |byShard|
    ensures forall s :: 0 <= s < |byShard| ==> |byShard[s]| <= |byShard[p]|
    ensures forall s :: p < s < |byShard| ==> |byShard[s]| < |byShard[p]|
  {
    var n := |byShard| - 1;
    if n == 0 then 0
    else
      var p := PurchaseShard(byShard[..n]);
      if |byShard[n]| >= |byShard[p]| then n else p
  }

  function RowsPerEntity(n: nat, entityCount: nat): (b: nat)
    requires entityCount > 0
    ensures b > 0
  {
    if n / entityCount == 0 then 1 else n / entityCount
  }

  function EntitiesPerRowGroup(n: nat, entityCount: nat): (g: nat)
    requires entityCount > 0
    ensures g > 0
  {
    var g := ROW_GROUP_SIZE / RowsPerEntity(n, entityCount);
    if g == 0 then 1 else g
  }

  function TailStart(n: nat, entityCount: nat, purchaseEntities: nat): (t: nat)
    requires entityCount > 0
    ensures t <= purchaseEntities
  {
    purchaseEntities - TailGroup(purchaseEntities, EntitiesPerRowGroup(n, entityCount))
  }

  // ── Entities ──────────────────────────────────────────────────────────────

  function KindAt(shard: nat, pos: nat, purchaseShard: nat, tailStart: nat): Kind {
    if shard != purchaseShard then EventHigh(NonPurchaseLabel(pos + shard))
    else if pos >= tailStart then PurchaseHigh
    else PurchaseLow
  }

  function SortedNames(names: seq<string>): (r: seq<string>)
    ensures multiset(r) == multiset(names) && |r| == |names|
  {
    SortBy((x: string) => x, names)
  }

  function ShardSpecs(shard: nat, names: seq<string>, purchaseShard: nat, tailStart: nat): (r: seq<Spec>)
    ensures |r| == |names|
  {
    var sorted := SortedNames(names);
    seq(|sorted|, i requires 0 <= i < |sorted| => Spec(sorted[i], KindAt(shard, i, purchaseShard, tailStart)))
  }

  function AllSpecs(byShard: seq<seq<string>>, purchaseShard: nat, tailStart: nat): seq<Spec> {
    if byShard == [] then []
    else
      var s := |byShard| - 1;
      AllSpecs(byShard[..s], purchaseShard, tailStart) + ShardSpecs(s, byShard[s], purchaseShard, tailStart)
  }

  const ID := (x: Spec) => x.id

  function SortedSpecs(specs: seq<Spec>): (r: seq<Spec>)
    ensures multiset(r) == multiset(specs) && |r| == |specs|
  {
    SortBy(ID, specs)
  }

  function Specs(n: nat, entityCount: nat, byShard: seq<seq<string>>): seq<Spec>
    requires entityCount > 0 && byShard != []
  {
    var p := PurchaseShard(byShard);
    SortedSpecs(AllSpecs(byShard, p, TailStart(n, entityCount, |byShard[p]|)))
  }

  // ── Rows ──────────────────────────────────────────────────────────────────

  function RowCount(n: nat, entityCount: nat, e: nat): nat
    requires entityCount > 0
  {
    n / entityCount + if e < n % entityCount then 1 else 0
  }

  function AmountBase(k: Kind): int {
    if k == PurchaseLow then 100 else 4501
  }

  function EventType(k: Kind): string {
    match k
    case EventHigh(name) => name
    case _ => "purchase"
  }

  function Category(k: Kind): string {
    match k
    case PurchaseLow => "purchase_low"
    case PurchaseHigh => "purchase_high"
    case EventHigh(_) => "event_high"
  }

  function Discount(k: Kind): real {
    match k
    case PurchaseLow => 0.0
    case PurchaseHigh => 0.1
    case EventHigh(_) => 0.2
  }

  function ExactTs(i: nat): int {
    StreamingEvents.BASE_NS + i * StreamingEvents.STEP_NS
  }

  /** Row `i` of an entity; 64-bit arithmetic wraps. */
  function RowAt(spec: Spec, i: nat): Event {
    var k := spec.kind;
    StreamingEvents.Event(
      spec.id, StreamingEvents.AsI64(ExactTs(i)), EventType(k),
      AmountBase(k) + i % 128,
      9.99 + i as real * 0.01,
      Category(k) + "_" + Decimal(i % 5),
      i % 10 + 1,
      Discount(k),
      "region_" + Decimal(i % 8),
      i % 2 == 0)
  }

  function EntityRows(spec: Spec, count: nat): (r: seq<Event>)
    ensures |r| == count
  {
    seq(count, i requires 0 <= i < count => RowAt(spec, i))
  }

  /** The rows of the first `k` entities. */
  function Rows(n: nat, entityCount: nat, specs: seq<Spec>, k: nat): seq<Event>
    requires entityCount > 0 && k <= |specs|
  {
    if k == 0 then []
    else Rows(n, entityCount, specs, k - 1) + EntityRows(specs[k - 1], RowCount(n, entityCount, k - 1))
  }

  function Fixture(n: nat, entityCount: nat, byShard: seq<seq<string>>): seq<Event>
    requires entityCount > 0 && byShard != []
  {
    var specs := Specs(n, entityCount, byShard);
    Rows(n, entityCount, specs, |specs|)
  }

  method CollectSpecs(byShard: seq<seq<string>>, p: nat, tailStart: nat) returns (specs: seq<Spec>)
    ensures specs == AllSpecs(byShard, p, tailStart)
  {
    hide KindAt;
    specs := [];
    for s := 0 to |byShard|
      invariant specs == AllSpecs(byShard[..s], p, tailStart)
    {
      assert byShard[..s + 1][..s] == byShard[..s];
      var entities := SortedNames(byShard[s]);
      ghost var before, own := specs, ShardSpecs(s, byShard[s], p, tailStart);
      for pos := 0 to |entities|
        invariant specs == before + own[..pos]
      {
        specs := specs + [Spec(entities[pos], KindAt(s, pos, p, tailStart))];
        assert own[..pos + 1] == own[..pos] + [own[pos]];
      }
      assert own[..|entities|] == own;
    }
    assert byShard[..|byShard|] == byShard;
  }

  method WriteEntity(spec: Spec, rowCount: nat) returns (rows: seq<Event>)
    ensures rows == EntityRows(spec, rowCount)
  {
    hide RowAt;
    rows := [];
    for i := 0 to rowCount
      invariant rows == EntityRows(spec, i)
    {
      rows := rows + [RowAt(spec, i)];
    }
  }

  method WriteRows(n: nat, entityCount: nat, specs: seq<Spec>) returns (events: seq<Event>)
    requires entityCount > 0
    ensures events == Rows(n, entityCount, specs, |specs|)
  {
    hide EntityRows;
    var baseCount, remainder := n / entityCount, n % entityCount;
    events := [];
    for e := 0 to |specs|
      invariant events == Rows(n, entityCount, specs, e)
    {
      var rows := WriteEntity(specs[e], baseCount + if e < remainder then 1 else 0);
      events := events + rows;
    }
  }

  /** The generator. `ev_idx as i64` is exact for every `n` whose rows fit in memory, which is
      what the bound on `n` says. */
  method GenerateAcceptanceEvents(n: nat, entityCount: nat, shardCount: nat, shardOf: string -> nat, ghost horizon: nat)
    returns (events: seq<Event>)
    requires n <= StreamingEvents.I64_MAX && shardCount < 0x1_0000
    requires Plentiful(shardOf, Targets(entityCount, shardCount), horizon)
    ensures events ==
      if n == 0 || entityCount == 0 then []
      else Fixture(n, entityCount, Allocated(shardOf, Targets(entityCount, shardCount), horizon))
  {
    if n == 0 || entityCount == 0 {
      return [];
    }
    var targets := EntityTargetsPerShard(entityCount, shardCount);
    var byShard := AllocateEntitiesByShard(targets, shardOf, horizon);
    var p := PurchaseShard(byShard);
    var entitySpecs := CollectSpecs(byShard, p, TailStart(n, entityCount, |byShard[p]|));
    entitySpecs := SortedSpecs(entitySpecs);
    events := WriteRows(n, entityCount, entitySpecs);
  }

  // ── Size ──────────────────────────────────────────────────────────────────

  function Lengths(byShard: seq<seq<string>>): (r: seq<nat>)
    ensures |r| == |byShard|
  {
    seq(|byShard|, s requires 0 <= s < |byShard| => |byShard[s]|)
  }

  lemma {:induction false} AllSpecsLength(byShard: seq<seq<string>>, p: nat, tailStart: nat)
    ensures |AllSpecs(byShard, p, tailStart)| == Zipf.Sum(Lengths(byShard))
  {
    if byShard != [] {
      var s := |byShard| - 1;
      AllSpecsLength(byShard[..s], p, tailStart);
      assert Lengths(byShard)[..s] == Lengths(byShard[..s]);
    }
  }

  lemma {:induction false} RowsLength(n: nat, entityCount: nat, specs: seq<Spec>, k: nat)
    requires entityCount > 0 && k <= |specs|
    ensures |Rows(n, entityCount, specs, k)| ==
      k * (n / entityCount) + if k < n % entityCount then k else n % entityCount
  {
    if k > 0 {
      RowsLength(n, entityCount, specs, k - 1);
      RowsUnfold(n, entityCount, specs, k);
      hide Rows;
      hide EntityRows;
      assert k * (n / entityCount) == (k - 1) * (n / entityCount) + n / entityCount;
    }
  }

  /** Exactly `n` rows, for any hash. */
  lemma FixtureSize(n: nat, entityCount: nat, byShard: seq<seq<string>>)
    requires entityCount > 0 && byShard != [] && Zipf.Sum(Lengths(byShard)) == entityCount
    ensures |Fixture(n, entityCount, byShard)| == n
    ensures |Specs(n, entityCount, byShard)| == entityCount
  {
    hide *;
    var p, specs := PurchaseShard(byShard), Specs(n, entityCount, byShard);
    AllSpecsLength(byShard, p, TailStart(n, entityCount, |byShard[p]|));
    SpecsUnfold(n, entityCount, byShard);
    RowsLength(n, entityCount, specs, entityCount);
    FixtureUnfold(n, entityCount, byShard);
    Division(n, entityCount);
  }

  lemma FixtureUnfold(n: nat, entityCount: nat, byShard: seq<seq<string>>)
    requires entityCount > 0 && byShard != []
    ensures Fixture(n, entityCount, byShard)
      == Rows(n, entityCount, Specs(n, entityCount, byShard), |Specs(n, entityCount, byShard)|)
  {
  }

  lemma Division(n: nat, d: nat)
    requires d > 0
    ensures d * (n / d) + n % d == n && n % d < d
  {
  }

  lemma AllocatedLengths(shardOf: string -> nat, entityCount: nat, shardCount: nat, horizon: nat)
    requires Plentiful(shardOf, Targets(entityCount, shardCount), horizon)
    ensures Lengths(Allocated(shardOf, Targets(entityCount, shardCount), horizon)) == Targets(entityCount, shardCount)
    ensures Zipf.Sum(Lengths(Allocated(shardOf, Targets(entityCount, shardCount), horizon))) == entityCount
  {
    hide Hits;
    TargetsTotal(entityCount, shardCount);
  }

  // ── Order ─────────────────────────────────────────────────────────────────

  predicate Before(a: Event, b: Event) {
    LexLess(a.entity, b.entity) || (a.entity == b.entity && a.ts < b.ts)
  }

  predicate StrictlyOrdered(events: seq<Event>) {
    forall i, j :: 0 <= i < j < |events| ==> Before(events[i], events[j])
  }

  predicate OrderedNames(specs: seq<Spec>) {
    forall i, j :: 0 <= i < j < |specs| ==> LexLess(specs[i].id, specs[j].id)
  }

  lemma TsMonotone(i: nat, j: nat)
    requires i < j < MAX_ROWS
    ensures StreamingEvents.AsI64(ExactTs(i)) < StreamingEvents.AsI64(ExactTs(j))
  {
    assert i * StreamingEvents.STEP_NS < j * StreamingEvents.STEP_NS <= (MAX_ROWS - 1) * StreamingEvents.STEP_NS;
  }

  lemma TsWraps()
    ensures StreamingEvents.AsI64(ExactTs(MAX_ROWS)) < StreamingEvents.AsI64(ExactTs(MAX_ROWS - 1))
  {
  }

  /** Every row belongs to an entity. */
  lemma {:induction false} RowOrigin(n: nat, entityCount: nat, specs: seq<Spec>, k: nat, r: nat) returns (e: nat, i: nat)
    requires entityCount > 0 && k <= |specs| && r < |Rows(n, entityCount, specs, k)|
    ensures e < k && i < RowCount(n, entityCount, e) && Rows(n, entityCount, specs, k)[r] == RowAt(specs[e], i)
    ensures r == |Rows(n, entityCount, specs, e)| + i
  {
    hide RowAt;
    var earlier := Rows(n, entityCount, specs, k - 1);
    if r < |earlier| {
      e, i := RowOrigin(n, entityCount, specs, k - 1, r);
    } else {
      e, i := k - 1, r - |earlier|;
    }
  }

  lemma {:induction false} RowsOrdered(n: nat, entityCount: nat, specs: seq<Spec>, k: nat)
    requires entityCount > 0 && k <= |specs| && OrderedNames(specs)
    requires forall e :: 0 <= e < k ==> RowCount(n, entityCount, e) <= MAX_ROWS
    ensures StrictlyOrdered(Rows(n, entityCount, specs, k))
  {
    if k > 0 {
      RowsOrdered(n, entityCount, specs, k - 1);
      var earlier, last := Rows(n, entityCount, specs, k - 1), EntityRows(specs[k - 1], RowCount(n, entityCount, k - 1));
      forall a, b | 0 <= a < b < |last| ensures Before(last[a], last[b]) {
        TsMonotone(a, b);
      }
      forall a, b | 0 <= a < |earlier| && 0 <= b < |last| ensures Before(earlier[a], last[b]) {
        var e, i := RowOrigin(n, entityCount, specs, k - 1, a);
        assert LexLess(specs[e].id, specs[k - 1].id);
      }
      hide *;
      OrderedConcat(earlier, last);
      RowsUnfold(n, entityCount, specs, k);
    }
  }

  lemma RowsUnfold(n: nat, entityCount: nat, specs: seq<Spec>, k: nat)
    requires entityCount > 0 && 0 < k <= |specs|
    ensures Rows(n, entityCount, specs, k)
      == Rows(n, entityCount, specs, k - 1) + EntityRows(specs[k - 1], RowCount(n, entityCount, k - 1))
  {
  }

  lemma OrderedConcat(a: seq<Event>, b: seq<Event>)
    requires StrictlyOrdered(a) && StrictlyOrdered(b)
    requires forall i, j :: 0 <= i < |a| && 0 <= j < |b| ==> Before(a[i], b[j])
    ensures StrictlyOrdered(a + b)
  {
    hide Before;
  }

  // ── Where each entity comes from ──────────────────────────────────────────

  ghost predicate IsSpec(shardOf: string -> nat, byShard: seq<seq<string>>, p: nat, t: nat, x: Spec) {
    shardOf(x.id) < |byShard| && exists pos ::
      0 <= pos < |byShard[shardOf(x.id)]| && SpecAt(shardOf(x.id), byShard[shardOf(x.id)], p, t, pos) == x
  }

  function SpecAt(shard: nat, names: seq<string>, p: nat, t: nat, pos: nat): Spec
    requires pos < |names|
  {
    Spec(SortedNames(names)[pos], KindAt(shard, pos, p, t))
  }

  lemma SortedNamesOwn(shardOf: string -> nat, s: nat, names: seq<string>)
    requires OwnNames(shardOf, s, names)
    ensures OwnNames(shardOf, s, SortedNames(names))
  {
    var r := SortedNames(names);
    DistinctPermuted((x: string) => x, names, r);
    forall i | 0 <= i < |r| ensures shardOf(r[i]) == s {
      assert r[i] in multiset(names);
    }
  }

  lemma {:induction false} AllSpecsOwn(shardOf: string -> nat, byShard: seq<seq<string>>, p: nat, t: nat)
    requires OwnShards(shardOf, byShard)
    ensures DistinctBy(ID, AllSpecs(byShard, p, t))
    ensures forall x <- AllSpecs(byShard, p, t) :: IsSpec(shardOf, byShard, p, t, x)
  {
    if byShard != [] {
      var s := |byShard| - 1;
      var before, last := AllSpecs(byShard[..s], p, t), ShardSpecs(s, byShard[s], p, t);
      AllSpecsOwn(shardOf, byShard[..s], p, t);
      SortedNamesOwn(shardOf, s, byShard[s]);
      hide SortedNames;
      hide KindAt;
      forall x <- last ensures IsSpec(shardOf, byShard, p, t, x) && shardOf(x.id) == s {
        var pos :| 0 <= pos < |last| && last[pos] == x;
        assert SpecAt(s, byShard[s], p, t, pos) == x;
      }
      forall x <- before ensures IsSpec(shardOf, byShard, p, t, x) && shardOf(x.id) < s {
        assert IsSpec(shardOf, byShard[..s], p, t, x);
      }
      DistinctConcat(before, last);
    }
  }

  lemma DistinctConcat(a: seq<Spec>, b: seq<Spec>)
    requires DistinctBy(ID, a) && DistinctBy(ID, b)
    requires forall x <- a, y <- b :: x.id != y.id
    ensures DistinctBy(ID, a + b)
  {
  }

  lemma SpecsOwn(shardOf: string -> nat, n: nat, entityCount: nat, byShard: seq<seq<string>>)
    requires OwnShards(shardOf, byShard) && entityCount > 0 && byShard != []
    ensures OrderedNames(Specs(n, entityCount, byShard))
    ensures var p := PurchaseShard(byShard);
      forall x <- Specs(n, entityCount, byShard) ::
        IsSpec(shardOf, byShard, p, TailStart(n, entityCount, |byShard[p]|), x)
  {
    var p := PurchaseShard(byShard);
    var t := TailStart(n, entityCount, |byShard[p]|);
    AllSpecsOwn(shardOf, byShard, p, t);
    hide *;
    SortedSpecsOwn(shardOf, byShard, p, t, AllSpecs(byShard, p, t));
    SpecsUnfold(n, entityCount, byShard);
  }

  lemma SpecsUnfold(n: nat, entityCount: nat, byShard: seq<seq<string>>)
    requires entityCount > 0 && byShard != []
    ensures var p := PurchaseShard(byShard);
      Specs(n, entityCount, byShard) == SortedSpecs(AllSpecs(byShard, p, TailStart(n, entityCount, |byShard[p]|)))
  {
  }

  lemma SortedSpecsOwn(shardOf: string -> nat, byShard: seq<seq<string>>, p: nat, t: nat, all: seq<Spec>)
    requires DistinctBy(ID, all) && forall x <- all :: IsSpec(shardOf, byShard, p, t, x)
    ensures OrderedNames(SortedSpecs(all))
    ensures forall x <- SortedSpecs(all) :: IsSpec(shardOf, byShard, p, t, x)
  {
    hide IsSpec;
    hide LexLess;
    SortByStrict(ID, all);
    hide SortBy;
    var r := SortedSpecs(all);
    assert r == SortBy(ID, all);
    forall i, j | 0 <= i < j < |r| ensures LexLess(r[i].id, r[j].id) {
      assert LexLess(ID(r[i]), ID(r[j]));
      assert ID(r[i]) == r[i].id && ID(r[j]) == r[j].id;
    }
    forall x <- r ensures x in all {
      assert x in multiset(all);
    }
  }

  // ── What the acceptance query finds ───────────────────────────────────────

  /** Purchases are exactly the rows of one shard, and their amounts are over 4500 exactly for the
      tail of its entities in name order; every other row's amount is over 4500. */
  lemma RowMeaning(shardOf: string -> nat, n: nat, entityCount: nat, byShard: seq<seq<string>>, r: nat)
    requires OwnShards(shardOf, byShard) && entityCount > 0 && byShard != []
    requires r < |Fixture(n, entityCount, byShard)|
    ensures var p, row := PurchaseShard(byShard), Fixture(n, entityCount, byShard)[r];
      && (row.eventType == "purchase" <==> shardOf(row.entity) == p)
      && (row.amount > 4500 <==>
        row.eventType != "purchase"
        || row.entity in SortedNames(byShard[p])[TailStart(n, entityCount, |byShard[p]|)..])
  {
    var p, specs := PurchaseShard(byShard), Specs(n, entityCount, byShard);
    var t := TailStart(n, entityCount, |byShard[p]|);
    SpecsOwn(shardOf, n, entityCount, byShard);
    var e, i := RowOrigin(n, entityCount, specs, |specs|, r);
    assert specs[e] in specs;
    hide Specs;
    hide TailStart;
    SpecMeaning(shardOf, byShard, p, t, specs[e], i);
  }

  lemma SpecMeaning(shardOf: string -> nat, byShard: seq<seq<string>>, p: nat, t: nat, x: Spec, i: nat)
    requires OwnShards(shardOf, byShard) && p < |byShard| && t <= |byShard[p]| && IsSpec(shardOf, byShard, p, t, x)
    ensures var row := RowAt(x, i);
      && (row.eventType == "purchase" <==> shardOf(row.entity) == p)
      && (row.amount > 4500 <==> row.eventType != "purchase" || row.entity in SortedNames(byShard[p])[t..])
  {
    var s := shardOf(x.id);
    var pos :| 0 <= pos < |byShard[s]| && SpecAt(s, byShard[s], p, t, pos) == x;
    assert NonPurchaseLabel(pos + s)[0] == 'e';
    if s == p {
      SortedNamesOwn(shardOf, p, byShard[p]);
      TailMember(SortedNames(byShard[p]), t, pos);
    }
  }

  lemma TailMember(names: seq<string>, t: nat, pos: nat)
    requires t <= |names| && pos < |names| && forall i, j :: 0 <= i < j < |names| ==> names[i] != names[j]
    ensures names[pos] in names[t..] <==> pos >= t
  {
    if pos >= t {
      assert names[t..][pos - t] == names[pos];
    } else {
      assert forall k :: t <= k < |names| ==> names[k] != names[pos];
    }
  }

  /** The fields of row `i` of an entity: `purchase` if it is one of the purchase shard, `tail` if it
      is in the tail there, and `place` its place in its shard plus the number of the shard. */
  predicate Holds(row: Event, purchase: bool, tail: bool, place: nat, i: nat) {
    && (if purchase then row.eventType == "purchase" else Numbered(row.eventType, "event_", 1 + place % 19))
    && row.amount == (if purchase && !tail then 100 else 4501) + i % 128
    && row.price * 100.0 == (999 + i) as real
    && Numbered(row.category, if !purchase then "event_high_" else if tail then "purchase_high_" else "purchase_low_", i % 5)
    && row.quantity == 1 + i % 10
    && row.discount * 10.0 == (if !purchase then 2.0 else if tail then 1.0 else 0.0)
    && Numbered(row.region, "region_", i % 8)
    && (row.flag <==> i % 2 == 0)
    && (i < MAX_ROWS ==> row.ts == 1_735_689_600_000_000_000 + i * 60_000_000_000)
  }

  /** Where a row stands says whose it is and what it holds: the entities follow each other in name
      order, the first of them with one row more, and row `i` of one at place `pos` in its shard
      holds the fields above. */
  lemma RowHolds(shardOf: string -> nat, n: nat, entityCount: nat, byShard: seq<seq<string>>, r: nat)
    returns (e: nat, pos: nat, i: nat)
    requires OwnShards(shardOf, byShard) && entityCount > 0 && byShard != []
    requires r < |Fixture(n, entityCount, byShard)|
    ensures var row, specs := Fixture(n, entityCount, byShard)[r], Specs(n, entityCount, byShard);
      && e < |specs| && specs[e].id == row.entity
      && r == e * (n / entityCount) + (if e < n % entityCount then e else n % entityCount) + i
      && i < n / entityCount + if e < n % entityCount then 1 else 0
    ensures var row, p := Fixture(n, entityCount, byShard)[r], PurchaseShard(byShard);
      var s := shardOf(row.entity);
      && s < |byShard| && pos < |byShard[s]| && SortedNames(byShard[s])[pos] == row.entity
      && Holds(row, s == p, pos >= TailStart(n, entityCount, |byShard[p]|), pos + s, i)
  {
    hide *;
    var p, specs := PurchaseShard(byShard), Specs(n, entityCount, byShard);
    var t := TailStart(n, entityCount, |byShard[p]|);
    SpecsOwn(shardOf, n, entityCount, byShard);
    FixtureUnfold(n, entityCount, byShard);
    e, i := RowOrigin(n, entityCount, specs, |specs|, r);
    RowsLength(n, entityCount, specs, e);
    CountOf(n, entityCount, e);
    var x := specs[e];
    assert x in specs;
    pos := PlaceOf(shardOf, byShard, p, t, x);
    RowFields(x.id, shardOf(x.id), pos, p, t, i);
  }

  lemma CountOf(n: nat, entityCount: nat, e: nat)
    requires entityCount > 0
    ensures RowCount(n, entityCount, e) == n / entityCount + if e < n % entityCount then 1 else 0
  {
  }

  lemma PlaceOf(shardOf: string -> nat, byShard: seq<seq<string>>, p: nat, t: nat, x: Spec) returns (pos: nat)
    requires IsSpec(shardOf, byShard, p, t, x)
    ensures var s := shardOf(x.id);
      && s < |byShard| && pos < |byShard[s]| && SortedNames(byShard[s])[pos] == x.id
      && x == Spec(x.id, KindAt(s, pos, p, t))
  {
    hide KindAt;
    hide SortedNames;
    var s := shardOf(x.id);
    pos :| 0 <= pos < |byShard[s]| && SpecAt(s, byShard[s], p, t, pos) == x;
  }

  lemma RowFields(id: string, s: nat, pos: nat, p: nat, t: nat, i: nat)
    ensures var row := RowAt(Spec(id, KindAt(s, pos, p, t)), i);
      row.entity == id && Holds(row, s == p, pos >= t, pos + s, i)
  {
    NumberedIs("event_", 1 + (pos + s) % 19);
    var prefix := if s != p then "event_high" else if pos >= t then "purchase_high" else "purchase_low";
    NumberedIs(prefix + "_", i % 5);
    NumberedIs("region_", i % 8);
    hide Decimal;
    hide Numbered;
    assert (9.99 + i as real * 0.01) * 100.0 == (999 + i) as real;
    if i < MAX_ROWS {
      assert i * StreamingEvents.STEP_NS <= (MAX_ROWS - 1) * StreamingEvents.STEP_NS;
    }
  }

  // ── When the rows are in order ────────────────────────────────────────────

  lemma MostRows(n: nat, entityCount: nat)
    requires entityCount > 0
    ensures forall e :: 0 <= e ==> RowCount(n, entityCount, e) <= RowCount(n, entityCount, 0)
    ensures RowCount(n, entityCount, 0) <= MAX_ROWS <==> n <= entityCount * MAX_ROWS
  {
    var q, r := n / entityCount, n % entityCount;
    assert n == entityCount * q + r;
    if q <= MAX_ROWS - 1 {
      assert entityCount * q <= entityCount * (MAX_ROWS - 1);
      assert entityCount * (MAX_ROWS - 1) + entityCount == entityCount * MAX_ROWS;
    } else if q > MAX_ROWS {
      assert entityCount * q >= entityCount * (MAX_ROWS + 1);
      assert entityCount * (MAX_ROWS + 1) == entityCount * MAX_ROWS + entityCount;
    }
  }

  lemma {:induction false} FirstRows(n: nat, entityCount: nat, specs: seq<Spec>, k: nat)
    requires entityCount > 0 && 0 < k <= |specs|
    ensures EntityRows(specs[0], RowCount(n, entityCount, 0)) <= Rows(n, entityCount, specs, k)
  {
    if k == 1 {
      assert Rows(n, entityCount, specs, 0) == [];
    } else {
      FirstRows(n, entityCount, specs, k - 1);
    }
  }

  lemma RowsMisordered(n: nat, entityCount: nat, specs: seq<Spec>)
    requires entityCount > 0 && specs != [] && RowCount(n, entityCount, 0) > MAX_ROWS
    ensures !StrictlyOrdered(Rows(n, entityCount, specs, |specs|))
  {
    FirstRows(n, entityCount, specs, |specs|);
    WrappedRows(specs[0]);
    hide *;
    Misordered(Rows(n, entityCount, specs, |specs|), EntityRows(specs[0], RowCount(n, entityCount, 0)), specs[0]);
  }

  lemma WrappedRows(x: Spec)
    ensures !Before(RowAt(x, MAX_ROWS - 1), RowAt(x, MAX_ROWS))
  {
    TsWraps();
    LexLessIrreflexive(x.id);
  }

  lemma Misordered(rows: seq<Event>, own: seq<Event>, x: Spec)
    requires own <= rows && |own| > MAX_ROWS && own == EntityRows(x, |own|)
    requires !Before(RowAt(x, MAX_ROWS - 1), RowAt(x, MAX_ROWS))
    ensures !StrictlyOrdered(rows)
  {
    hide Before;
    hide RowAt;
    assert rows[MAX_ROWS - 1] == own[MAX_ROWS - 1] && rows[MAX_ROWS] == own[MAX_ROWS];
  }

  /** The rows are strictly ordered by entity and timestamp exactly when no entity has more rows
      than 64-bit timestamps allow. */
  lemma FixtureOrderedIff(shardOf: string -> nat, n: nat, entityCount: nat, byShard: seq<seq<string>>)
    requires OwnShards(shardOf, byShard) && entityCount > 0 && byShard != []
    requires Zipf.Sum(Lengths(byShard)) == entityCount
    ensures StrictlyOrdered(Fixture(n, entityCount, byShard)) <==> n <= entityCount * MAX_ROWS
  {
    var specs := Specs(n, entityCount, byShard);
    FixtureSize(n, entityCount, byShard);
    SpecsOwn(shardOf, n, entityCount, byShard);
    MostRows(n, entityCount);
    hide Specs;
    if n <= entityCount * MAX_ROWS {
      RowsOrdered(n, entityCount, specs, |specs|);
    } else {
      RowsMisordered(n, entityCount, specs);
    }
  }

  /** All of it for the generator's own allocation, under any hash. */
  lemma GeneratedFixture(shardOf: string -> nat, n: nat, entityCount: nat, shardCount: nat, horizon: nat)
    requires n > 0 && entityCount > 0 && Plentiful(shardOf, Targets(entityCount, shardCount), horizon)
    ensures var byShard := Allocated(shardOf, Targets(entityCount, shardCount), horizon);
      var rows, p := Fixture(n, entityCount, byShard), PurchaseShard(byShard);
      && |rows| == n && |Specs(n, entityCount, byShard)| == entityCount && OrderedNames(Specs(n, entityCount, byShard))
      && (StrictlyOrdered(rows) <==> n <= entityCount * MAX_ROWS)
      && (forall r :: 0 <= r < |rows| ==> Findable(shardOf, p, rows[r]))
  {
    var byShard := Allocated(shardOf, Targets(entityCount, shardCount), horizon);
    AllocatedLengths(shardOf, entityCount, shardCount, horizon);
    AllocatedOwn(shardOf, Targets(entityCount, shardCount), horizon);
    FixtureSize(n, entityCount, byShard);
    SpecsOwn(shardOf, n, entityCount, byShard);
    FixtureOrderedIff(shardOf, n, entityCount, byShard);
    forall r | 0 <= r < n ensures Findable(shardOf, PurchaseShard(byShard), Fixture(n, entityCount, byShard)[r]) {
      RowMeaning(shardOf, n, entityCount, byShard, r);
    }
    hide *;
  }

  /** Purchases are on shard `p` only, and everything else has an amount over 4500. */
  predicate Findable(shardOf: string -> nat, p: nat, row: Event) {
    && (row.eventType == "purchase" <==> shardOf(row.entity) == p)
    && (row.eventType != "purchase" ==> row.amount > 4500)
  }
}

/** Which row groups hold the rows of the acceptance fixture that the acceptance query can find. */
module AcceptanceGroups {
  import opened Text
  import opened ShardTargets
  import opened AcceptanceFixture
  import opened RowGroups
  import Zipf
  import StreamingEvents

  // ── The rows of a shard ───────────────────────────────────────────────────

  /** The rows of one bucket, in the order in which they arrive. */
  function Kept(keep: Event -> bool, rows: seq<Event>): seq<Event> {
    if rows == [] then []
    else
      var n := |rows| - 1;
      Kept(keep, rows[..n]) + if keep(rows[n]) then [rows[n]] else []
  }

  lemma {:induction false} KeptConcat(keep: Event -> bool, a: seq<Event>, b: seq<Event>)
    ensures Kept(keep, a + b) == Kept(keep, a) + Kept(keep, b)
  {
    if b == [] {
      assert a + b == a;
    } else {
      var n := |b| - 1;
      assert (a + b)[..|a| + n] == a + b[..n];
      KeptConcat(keep, a, b[..n]);
    }
  }

  lemma {:induction false} KeptOrigin(keep: Event -> bool, rows: seq<Event>, i: nat) returns (r: nat)
    requires i < |Kept(keep, rows)|
    ensures r < |rows| && rows[r] == Kept(keep, rows)[i] && keep(rows[r])
  {
    var n := |rows| - 1;
    if i < |Kept(keep, rows[..n])| {
      r := KeptOrigin(keep, rows[..n], i);
    } else {
      r := n;
    }
  }

  /** Rows in the writer's order stay in it, so that sorting a bucket changes nothing. */
  lemma {:induction false} KeptOrdered(keep: Event -> bool, rows: seq<Event>)
    requires StrictlyOrdered(rows)
    ensures StrictlyOrdered(Kept(keep, rows))
  {
    if rows != [] {
      var n := |rows| - 1;
      KeptOrdered(keep, rows[..n]);
      var before := Kept(keep, rows[..n]);
      forall i | 0 <= i < |before| ensures Before(before[i], rows[n]) {
        var r := KeptOrigin(keep, rows[..n], i);
        assert rows[r] == before[i];
      }
      hide Before;
    }
  }

  /** A row is kept exactly if its entity is of shard `p` and its number from `lo` to below `hi`. */
  ghost predicate Keeps(keep: Event -> bool, shardOf: string -> nat, p: nat, lo: nat, hi: nat, most: nat) {
    forall spec: Spec, i: nat :: i < most ==> (keep(RowAt(spec, i)) <==> shardOf(spec.id) == p && lo <= i < hi)
  }

  /** How many of the first `count` numbers are from `lo` to below `hi`. */
  function Clip(count: nat, lo: nat, hi: nat): nat {
    if hi <= lo || count <= lo then 0 else (if count < hi then count else hi) - lo
  }

  function Piece(spec: Spec, count: nat, lo: nat, hi: nat): (r: seq<Event>)
    ensures |r| == Clip(count, lo, hi)
  {
    seq(Clip(count, lo, hi), i requires 0 <= i < Clip(count, lo, hi) => RowAt(spec, lo + i))
  }

  lemma {:induction false} KeptEntity(keep: Event -> bool, shardOf: string -> nat, p: nat, lo: nat, hi: nat, most: nat, spec: Spec, count: nat)
    requires Keeps(keep, shardOf, p, lo, hi, most) && count <= most
    ensures Kept(keep, EntityRows(spec, count)) == if shardOf(spec.id) == p then Piece(spec, count, lo, hi) else []
  {
    if count > 0 {
      var i := count - 1;
      assert EntityRows(spec, count) == EntityRows(spec, i) + [RowAt(spec, i)];
      KeptEntity(keep, shardOf, p, lo, hi, most, spec, i);
      KeptConcat(keep, EntityRows(spec, i), [RowAt(spec, i)]);
      assert keep(RowAt(spec, i)) <==> shardOf(spec.id) == p && lo <= i < hi;
      KeptOne(keep, RowAt(spec, i));
      PieceNext(spec, i, lo, hi);
      hide *;
    }
  }

  lemma KeptOne(keep: Event -> bool, row: Event)
    ensures Kept(keep, [row]) == if keep(row) then [row] else []
  {
    assert [row][..0] == [] && Kept(keep, []) == [];
  }

  lemma PieceNext(spec: Spec, i: nat, lo: nat, hi: nat)
    ensures Piece(spec, i + 1, lo, hi) == Piece(spec, i, lo, hi) + if lo <= i < hi then [RowAt(spec, i)] else []
  {
    hide RowAt;
  }

  function Own(shardOf: string -> nat, p: nat, specs: seq<Spec>): seq<Spec> {
    if specs == [] then []
    else
      var k := |specs| - 1;
      Own(shardOf, p, specs[..k]) + if shardOf(specs[k].id) == p then [specs[k]] else []
  }

  lemma {:induction false} OwnGrows(shardOf: string -> nat, p: nat, specs: seq<Spec>, j: nat, k: nat)
    requires j <= k <= |specs|
    ensures Own(shardOf, p, specs[..j]) <= Own(shardOf, p, specs[..k])
  {
    if j < k {
      OwnGrows(shardOf, p, specs, j, k - 1);
      OwnNext(shardOf, p, specs, k - 1);
    }
  }

  lemma OwnNext(shardOf: string -> nat, p: nat, specs: seq<Spec>, k: nat)
    requires k < |specs|
    ensures Own(shardOf, p, specs[..k + 1])
      == Own(shardOf, p, specs[..k]) + if shardOf(specs[k].id) == p then [specs[k]] else []
  {
    assert specs[..k + 1][..k] == specs[..k];
  }

  lemma {:induction false} OwnMember(shardOf: string -> nat, p: nat, specs: seq<Spec>, x: Spec)
    ensures x in Own(shardOf, p, specs) <==> x in specs && shardOf(x.id) == p
  {
    if specs != [] {
      var k := |specs| - 1;
      assert specs == specs[..k] + [specs[k]];
      OwnMember(shardOf, p, specs[..k], x);
    }
  }

  lemma {:induction false} OwnOrdered(shardOf: string -> nat, p: nat, specs: seq<Spec>)
    requires OrderedNames(specs)
    ensures OrderedNames(Own(shardOf, p, specs))
  {
    if specs != [] {
      var k := |specs| - 1;
      var before := Own(shardOf, p, specs[..k]);
      OwnOrdered(shardOf, p, specs[..k]);
      forall i | 0 <= i < |before| ensures LexLess(before[i].id, specs[k].id) {
        OwnMember(shardOf, p, specs[..k], before[i]);
        var j :| 0 <= j < k && specs[..k][j] == before[i];
        assert LexLess(specs[j].id, specs[k].id);
      }
      hide LexLess;
    }
  }

  /** How many entities of shard `p` are among those with one row more than the others. */
  function LongEntities(shardOf: string -> nat, p: nat, n: nat, entityCount: nat, specs: seq<Spec>): nat
    requires entityCount > 0
  {
    var r := if n % entityCount < |specs| then n % entityCount else |specs|;
    |Own(shardOf, p, specs[..r])|
  }

  function Width(q: nat, m: nat, j: nat): nat {
    q + if j < m then 1 else 0
  }

  /** The rows from `lo` to below `hi` of each of the first `k` entities. */
  function Pieces(own: seq<Spec>, q: nat, m: nat, lo: nat, hi: nat, k: nat): seq<Event>
    requires k <= |own|
  {
    if k == 0 then [] else Pieces(own, q, m, lo, hi, k - 1) + Piece(own[k - 1], Width(q, m, k - 1), lo, hi)
  }

  lemma {:induction false} KeptRows(
    keep: Event -> bool, shardOf: string -> nat, p: nat, lo: nat, hi: nat, n: nat, entityCount: nat, specs: seq<Spec>, k: nat)
    requires entityCount > 0 && k <= |specs|
    requires Keeps(keep, shardOf, p, lo, hi, RowCount(n, entityCount, 0))
    ensures |Own(shardOf, p, specs[..k])| <= |Own(shardOf, p, specs)|
    ensures Kept(keep, Rows(n, entityCount, specs, k))
      == Pieces(Own(shardOf, p, specs), n / entityCount, LongEntities(shardOf, p, n, entityCount, specs), lo, hi,
                |Own(shardOf, p, specs[..k])|)
    decreases k
  {
    hide *;
    if k == 0 {
      KeptNothing(keep, shardOf, p, lo, hi, n, entityCount, specs);
    } else {
      KeptRows(keep, shardOf, p, lo, hi, n, entityCount, specs, k - 1);
      KeptRowsNext(keep, shardOf, p, lo, hi, n, entityCount, specs, k - 1);
    }
  }

  lemma KeptNothing(
    keep: Event -> bool, shardOf: string -> nat, p: nat, lo: nat, hi: nat, n: nat, entityCount: nat, specs: seq<Spec>)
    requires entityCount > 0
    ensures Own(shardOf, p, specs[..0]) == [] && Kept(keep, Rows(n, entityCount, specs, 0)) == []
    ensures forall own, q, m :: Pieces(own, q, m, lo, hi, 0) == []
  {
    assert specs[..0] == [];
  }

  lemma KeptRowsNext(
    keep: Event -> bool, shardOf: string -> nat, p: nat, lo: nat, hi: nat, n: nat, entityCount: nat, specs: seq<Spec>, k: nat)
    requires entityCount > 0 && k < |specs|
    requires Keeps(keep, shardOf, p, lo, hi, RowCount(n, entityCount, 0))
    ensures var own, before := Own(shardOf, p, specs), |Own(shardOf, p, specs[..k])|;
      var m, after := LongEntities(shardOf, p, n, entityCount, specs), |Own(shardOf, p, specs[..k + 1])|;
      before <= after <= before + 1 && after <= |own| &&
      var added := if after > before then Piece(own[before], Width(n / entityCount, m, before), lo, hi) else [];
      && Kept(keep, Rows(n, entityCount, specs, k + 1)) == Kept(keep, Rows(n, entityCount, specs, k)) + added
      && Pieces(own, n / entityCount, m, lo, hi, after) == Pieces(own, n / entityCount, m, lo, hi, before) + added
  {
    hide *;
    var x, count := specs[k], RowCount(n, entityCount, k);
    RowsUnfold(n, entityCount, specs, k + 1);
    KeptConcat(keep, Rows(n, entityCount, specs, k), EntityRows(x, count));
    MostRows(n, entityCount);
    KeptEntity(keep, shardOf, p, lo, hi, RowCount(n, entityCount, 0), x, count);
    OwnNext(shardOf, p, specs, k);
    OwnGrows(shardOf, p, specs, k + 1, |specs|);
    assert specs[..|specs|] == specs;
    if shardOf(x.id) == p {
      OwnWidth(shardOf, p, n, entityCount, specs, k);
      var own, before := Own(shardOf, p, specs), |Own(shardOf, p, specs[..k])|;
      assert own[before] == x;
      PiecesNext(own, n / entityCount, LongEntities(shardOf, p, n, entityCount, specs), lo, hi, before);
    }
  }

  lemma PiecesNext(own: seq<Spec>, q: nat, m: nat, lo: nat, hi: nat, k: nat)
    requires k < |own|
    ensures Pieces(own, q, m, lo, hi, k + 1) == Pieces(own, q, m, lo, hi, k) + Piece(own[k], Width(q, m, k), lo, hi)
  {
  }

  lemma OwnWidth(shardOf: string -> nat, p: nat, n: nat, entityCount: nat, specs: seq<Spec>, k: nat)
    requires entityCount > 0 && k < |specs| && shardOf(specs[k].id) == p
    ensures RowCount(n, entityCount, k)
      == Width(n / entityCount, LongEntities(shardOf, p, n, entityCount, specs), |Own(shardOf, p, specs[..k])|)
  {
    var r := if n % entityCount < |specs| then n % entityCount else |specs|;
    OwnNext(shardOf, p, specs, k);
    if k < r {
      OwnGrows(shardOf, p, specs, k + 1, r);
    } else {
      OwnGrows(shardOf, p, specs, r, k);
    }
    hide Own;
  }

  // ── Its rows as blocks ────────────────────────────────────────────────────

  /** Of the rows kept, how many entities have one more than the others. */
  function LongPieces(q: nat, m: nat, lo: nat, hi: nat): nat {
    if Clip(q + 1, lo, hi) > Clip(q, lo, hi) then m else 0
  }

  lemma PieceWidth(q: nat, m: nat, lo: nat, hi: nat, j: nat)
    ensures Clip(Width(q, m, j), lo, hi) == Width(Clip(q, lo, hi), LongPieces(q, m, lo, hi), j)
  {
  }

  lemma {:induction false} PieceRow(own: seq<Spec>, q: nat, m: nat, lo: nat, hi: nat, k: nat, i: nat)
    returns (j: nat, number: nat)
    requires k <= |own| && i < |Pieces(own, q, m, lo, hi, k)|
    ensures |Pieces(own, q, m, lo, hi, k)| == Offset(Clip(q, lo, hi), LongPieces(q, m, lo, hi), k)
    ensures j < k && InBlock(Clip(q, lo, hi), LongPieces(q, m, lo, hi), j, i)
    ensures Pieces(own, q, m, lo, hi, k)[i] == RowAt(own[j], number)
  {
    PiecesSize(own, q, m, lo, hi, k);
    PiecesSize(own, q, m, lo, hi, k - 1);
    PiecesNext(own, q, m, lo, hi, k - 1);
    hide Pieces;
    hide RowAt;
    hide Clip;
    hide LongPieces;
    hide Offset;
    var earlier := Pieces(own, q, m, lo, hi, k - 1);
    if i < |earlier| {
      j, number := PieceRow(own, q, m, lo, hi, k - 1, i);
    } else {
      j, number := k - 1, lo + (i - |earlier|);
    }
  }

  lemma {:induction false} PiecesSize(own: seq<Spec>, q: nat, m: nat, lo: nat, hi: nat, k: nat)
    requires k <= |own|
    ensures |Pieces(own, q, m, lo, hi, k)| == Offset(Clip(q, lo, hi), LongPieces(q, m, lo, hi), k)
  {
    var q', m' := Clip(q, lo, hi), LongPieces(q, m, lo, hi);
    if k > 0 {
      PiecesSize(own, q, m, lo, hi, k - 1);
      PieceWidth(q, m, lo, hi, k - 1);
      OffsetNext(q', m', k - 1);
      hide Clip;
      hide LongPieces;
      hide Offset;
    } else {
      assert Offset(q', m', 0) == 0;
    }
  }

  function Entities(rows: seq<Event>): (r: seq<string>)
    ensures |r| == |rows| && forall i :: 0 <= i < |rows| ==> r[i] == rows[i].entity
  {
    seq(|rows|, i requires 0 <= i < |rows| => rows[i].entity)
  }

  function Ids(specs: seq<Spec>): (r: seq<string>)
    ensures |r| == |specs| && forall i :: 0 <= i < |specs| ==> r[i] == specs[i].id
  {
    seq(|specs|, i requires 0 <= i < |specs| => specs[i].id)
  }

  lemma SameBlock(q: nat, m: nat, j: nat, k: nat, i: nat)
    requires InBlock(q, m, j, i) && InBlock(q, m, k, i)
    ensures j == k
  {
    if j < k {
      OffsetMonotone(q, m, j + 1, k);
    } else if k < j {
      OffsetMonotone(q, m, k + 1, j);
    }
    hide Offset;
  }

  lemma PiecesAreBlocks(own: seq<Spec>, q: nat, m: nat, lo: nat, hi: nat)
    requires m <= |own| && OrderedNames(own)
    ensures BlockList(Entities(Pieces(own, q, m, lo, hi, |own|)), Ids(own), Clip(q, lo, hi), LongPieces(q, m, lo, hi))
  {
    var rows, ids := Pieces(own, q, m, lo, hi, |own|), Ids(own);
    var q', m' := Clip(q, lo, hi), LongPieces(q, m, lo, hi);
    PiecesSize(own, q, m, lo, hi, |own|);
    assert m' <= |own|;
    hide Pieces;
    hide Offset;
    hide Clip;
    hide LongPieces;
    forall j | 0 < j < |ids| ensures ids[j - 1] != ids[j] {
      assert LexLess(own[j - 1].id, own[j].id);
      LexLessIrreflexive(own[j].id);
    }
    forall i, j | 0 <= j < |ids| && 0 <= i < |rows| && InBlock(q', m', j, i) ensures rows[i].entity == ids[j] {
      var k, number := PieceRow(own, q, m, lo, hi, |own|, i);
      SameBlock(q', m', j, k, i);
    }
    hide InBlock;
  }

  // ── The purchase shard ────────────────────────────────────────────────────

  predicate Ascending(a: seq<string>) {
    forall i, j :: 0 <= i < j < |a| ==> LexLess(a[i], a[j])
  }

  lemma {:induction false} AscendingUnique(a: seq<string>, b: seq<string>)
    requires Ascending(a) && Ascending(b) && forall x :: x in a <==> x in b
    ensures a == b
  {
    assert (a != [] ==> a[0] in b) && (b != [] ==> b[0] in a);
    if a != [] {
      var m, n := |a| - 1, |b| - 1;
      LastAscending(a, b);
      WithoutLast(a);
      WithoutLast(b);
      assert a == a[..m] + [a[m]] && b == b[..n] + [b[n]];
      hide Ascending;
      forall x ensures x in a[..m] <==> x in b[..n] {
        assert x in a <==> x in b;
      }
      AscendingUnique(a[..m], b[..n]);
    }
  }

  lemma LastAscending(a: seq<string>, b: seq<string>)
    requires a != [] && b != [] && Ascending(a) && Ascending(b) && forall x :: x in a <==> x in b
    ensures a[|a| - 1] == b[|b| - 1]
  {
    var m, n := |a| - 1, |b| - 1;
    assert a[m] in b && b[n] in a;
    var i :| 0 <= i < |a| && a[i] == b[n];
    var j :| 0 <= j < |b| && b[j] == a[m];
    if i < m && j < n {
      LexLessTransitive(a[i], a[m], b[n]);
      LexLessIrreflexive(a[i]);
    }
  }

  lemma WithoutLast(a: seq<string>)
    requires a != [] && Ascending(a)
    ensures Ascending(a[..|a| - 1]) && forall x :: x in a[..|a| - 1] <==> x in a && x != a[|a| - 1]
  {
    LexLessIrreflexive(a[|a| - 1]);
    assert a == a[..|a| - 1] + [a[|a| - 1]];
  }

  lemma {:induction false} SpecsOfShard(byShard: seq<seq<string>>, p: nat, t: nat, s: nat)
    requires s < |byShard|
    ensures forall x <- ShardSpecs(s, byShard[s], p, t) :: x in AllSpecs(byShard, p, t)
  {
    if s < |byShard| - 1 {
      SpecsOfShard(byShard[..|byShard| - 1], p, t, s);
    }
  }

  /** In name order, the entities of a shard are its sorted names. */
  lemma OwnIds(shardOf: string -> nat, n: nat, entityCount: nat, byShard: seq<seq<string>>, s: nat)
    requires OwnShards(shardOf, byShard) && entityCount > 0 && s < |byShard|
    ensures var own := Own(shardOf, s, Specs(n, entityCount, byShard));
      OrderedNames(own) && Ids(own) == SortedNames(byShard[s])
  {
    var specs := Specs(n, entityCount, byShard);
    var own := Own(shardOf, s, specs);
    SpecsOwn(shardOf, n, entityCount, byShard);
    OwnOrdered(shardOf, s, specs);
    SortedAscending(byShard, shardOf, s);
    forall id ensures id in Ids(own) <==> id in SortedNames(byShard[s]) {
      if id in Ids(own) {
        var j :| 0 <= j < |own| && Ids(own)[j] == id;
        OwnMember(shardOf, s, specs, own[j]);
        NameOfSpec(shardOf, n, entityCount, byShard, s, own[j]);
      }
      if id in SortedNames(byShard[s]) {
        var x := SpecOfName(shardOf, n, entityCount, byShard, s, id);
        OwnMember(shardOf, s, specs, x);
        var j :| 0 <= j < |own| && own[j] == x;
        assert Ids(own)[j] == id;
      }
    }
    hide Specs;
    hide Own;
    hide SortedNames;
    hide LexLess;
    AscendingUnique(Ids(own), SortedNames(byShard[s]));
  }

  lemma SortedAscending(byShard: seq<seq<string>>, shardOf: string -> nat, s: nat)
    requires OwnShards(shardOf, byShard) && s < |byShard|
    ensures Ascending(SortedNames(byShard[s]))
  {
    var key := (x: string) => x;
    SortByStrict(key, byShard[s]);
    var r := SortedNames(byShard[s]);
    assert r == SortBy(key, byShard[s]);
    forall i, j | 0 <= i < j < |r| ensures LexLess(r[i], r[j]) {
      assert LexLess(key(r[i]), key(r[j]));
    }
  }

  lemma NameOfSpec(shardOf: string -> nat, n: nat, entityCount: nat, byShard: seq<seq<string>>, s: nat, x: Spec)
    requires OwnShards(shardOf, byShard) && entityCount > 0 && s < |byShard|
    requires x in Specs(n, entityCount, byShard) && shardOf(x.id) == s
    ensures x.id in SortedNames(byShard[s])
  {
    SpecsOwn(shardOf, n, entityCount, byShard);
    var p := PurchaseShard(byShard);
    var t := TailStart(n, entityCount, |byShard[p]|);
    assert IsSpec(shardOf, byShard, p, t, x);
    var pos :| 0 <= pos < |byShard[s]| && SpecAt(s, byShard[s], p, t, pos) == x;
  }

  lemma SpecOfName(shardOf: string -> nat, n: nat, entityCount: nat, byShard: seq<seq<string>>, s: nat, id: string)
    returns (x: Spec)
    requires OwnShards(shardOf, byShard) && entityCount > 0 && s < |byShard| && id in SortedNames(byShard[s])
    ensures x in Specs(n, entityCount, byShard) && x.id == id && shardOf(id) == s
  {
    var p := PurchaseShard(byShard);
    var t := TailStart(n, entityCount, |byShard[p]|);
    var names := SortedNames(byShard[s]);
    var pos :| 0 <= pos < |names| && names[pos] == id;
    x := ShardSpecs(s, byShard[s], p, t)[pos];
    SortedNamesOwn(shardOf, s, byShard[s]);
    SpecsOfShard(byShard, p, t, s);
    assert x in ShardSpecs(s, byShard[s], p, t);
    var all := AllSpecs(byShard, p, t);
    SpecsUnfold(n, entityCount, byShard);
    hide *;
    assert x in multiset(all);
    assert x in multiset(SortedSpecs(all));
  }

  /** The amounts over 4500 are those of the rows from `first` on. */
  predicate HighFrom(rows: seq<Event>, first: nat) {
    forall r :: 0 <= r < |rows| ==> (rows[r].amount > 4500 <==> r >= first)
  }

  lemma OwnHigh(shardOf: string -> nat, n: nat, entityCount: nat, byShard: seq<seq<string>>, j: nat, number: nat)
    requires OwnShards(shardOf, byShard) && entityCount > 0 && byShard != []
    requires j < |Own(shardOf, PurchaseShard(byShard), Specs(n, entityCount, byShard))|
    ensures var p := PurchaseShard(byShard);
      var own := Own(shardOf, p, Specs(n, entityCount, byShard));
      RowAt(own[j], number).amount > 4500 <==> j >= TailStart(n, entityCount, |byShard[p]|)
  {
    var p, specs := PurchaseShard(byShard), Specs(n, entityCount, byShard);
    var own, t := Own(shardOf, p, specs), TailStart(n, entityCount, |byShard[p]|);
    OwnIds(shardOf, n, entityCount, byShard, p);
    OwnMember(shardOf, p, specs, own[j]);
    SpecsOwn(shardOf, n, entityCount, byShard);
    assert own[j] in specs;
    assert RowAt(own[j], number).entity == own[j].id == Ids(own)[j];
    SpecMeaning(shardOf, byShard, p, t, own[j], number);
    SortedNamesOwn(shardOf, p, byShard[p]);
    hide Specs;
    hide Own;
    hide RowAt;
    hide TailStart;
    hide SortedNames;
    TailMember(Ids(own), t, j);
  }

  /** In any bucket of the purchase shard, the rows are in blocks by entity, and the amounts over 4500
      begin with the block of the first tail entity. */
  lemma KeptTail(
    keep: Event -> bool, shardOf: string -> nat, lo: nat, hi: nat, n: nat, entityCount: nat, byShard: seq<seq<string>>)
    requires OwnShards(shardOf, byShard) && entityCount > 0 && byShard != []
    requires Keeps(keep, shardOf, PurchaseShard(byShard), lo, hi, RowCount(n, entityCount, 0))
    ensures var p := PurchaseShard(byShard);
      var m := LongEntities(shardOf, p, n, entityCount, Specs(n, entityCount, byShard));
      var rows := Kept(keep, Fixture(n, entityCount, byShard));
      var q, long := Clip(n / entityCount, lo, hi), LongPieces(n / entityCount, m, lo, hi);
      && m <= |byShard[p]|
      && BlockList(Entities(rows), SortedNames(byShard[p]), q, long)
      && HighFrom(rows, Offset(q, long, TailStart(n, entityCount, |byShard[p]|)))
  {
    hide *;
    var p, specs := PurchaseShard(byShard), Specs(n, entityCount, byShard);
    var own, m := Own(shardOf, p, specs), LongEntities(shardOf, p, n, entityCount, specs);
    OwnIds(shardOf, n, entityCount, byShard, p);
    FixtureUnfold(n, entityCount, byShard);
    assert specs[..|specs|] == specs;
    KeptRows(keep, shardOf, p, lo, hi, n, entityCount, specs, |specs|);
    LongAtMost(shardOf, p, n, entityCount, specs);
    PiecesAreBlocks(own, n / entityCount, m, lo, hi);
    PiecesHigh(shardOf, n, entityCount, byShard, m, lo, hi);
  }

  lemma LongAtMost(shardOf: string -> nat, p: nat, n: nat, entityCount: nat, specs: seq<Spec>)
    requires entityCount > 0
    ensures LongEntities(shardOf, p, n, entityCount, specs) <= |Own(shardOf, p, specs)|
  {
    assert specs[..|specs|] == specs;
    OwnGrows(shardOf, p, specs, if n % entityCount < |specs| then n % entityCount else |specs|, |specs|);
  }

  lemma PiecesHigh(
    shardOf: string -> nat, n: nat, entityCount: nat, byShard: seq<seq<string>>, m: nat, lo: nat, hi: nat)
    requires OwnShards(shardOf, byShard) && entityCount > 0 && byShard != []
    ensures var p, base := PurchaseShard(byShard), n / entityCount;
      var own := Own(shardOf, p, Specs(n, entityCount, byShard));
      HighFrom(Pieces(own, base, m, lo, hi, |own|),
               Offset(Clip(base, lo, hi), LongPieces(base, m, lo, hi), TailStart(n, entityCount, |byShard[p]|)))
  {
    hide *;
    var p, base := PurchaseShard(byShard), n / entityCount;
    var own, t := Own(shardOf, p, Specs(n, entityCount, byShard)), TailStart(n, entityCount, |byShard[p]|);
    var rows, q, long := Pieces(own, base, m, lo, hi, |own|), Clip(base, lo, hi), LongPieces(base, m, lo, hi);
    forall r | 0 <= r < |rows| ensures rows[r].amount > 4500 <==> r >= Offset(q, long, t) {
      var j, number := PieceRow(own, base, m, lo, hi, |own|, r);
      OwnHigh(shardOf, n, entityCount, byShard, j, number);
      BlockSide(q, long, j, t, r);
    }
    HighFromRows(rows, Offset(q, long, t));
  }

  lemma HighFromRows(rows: seq<Event>, first: nat)
    requires forall r :: 0 <= r < |rows| ==> (rows[r].amount > 4500 <==> r >= first)
    ensures HighFrom(rows, first)
  {
  }

  lemma BlockSide(q: nat, m: nat, j: nat, t: nat, i: nat)
    requires InBlock(q, m, j, i)
    ensures i >= Offset(q, m, t) <==> j >= t
  {
    if j >= t {
      OffsetMonotone(q, m, t, j);
    } else {
      OffsetMonotone(q, m, j + 1, t);
    }
    hide Offset;
  }
}

/** Zone maps of the two columns the acceptance query reads, and which row groups they let through. */
module ZoneMaps {
  import opened Text
  import opened AcceptanceFixture

  /** Bounds of the non-null values of one column in one row group. */
  datatype ZoneMap<T> = ZoneMap(min: Option<T>, max: Option<T>, nullCount: nat, rowCount: nat)

  // ── Bounds ────────────────────────────────────────────────────────────────

  function Lowest(values: seq<int>): (lo: int)
    requires values != []
    ensures lo in values && forall v <- values :: lo <= v
  {
    var n := |values| - 1;
    assert values == values[..n] + [values[n]];
    if n == 0 then values[0]
    else
      var lo := Lowest(values[..n]);
      if values[n] < lo then values[n] else lo
  }

  function Highest(values: seq<int>): (hi: int)
    requires values != []
    ensures hi in values && forall v <- values :: v <= hi
  {
    var n := |values| - 1;
    assert values == values[..n] + [values[n]];
    if n == 0 then values[0]
    else
      var hi := Highest(values[..n]);
      if values[n] > hi then values[n] else hi
  }

  function FirstName(names: seq<string>): string
    requires names != []
  {
    var n := |names| - 1;
    if n == 0 then names[0]
    else
      var lo := FirstName(names[..n]);
      if LexLess(names[n], lo) then names[n] else lo
  }

  function LastName(names: seq<string>): string
    requires names != []
  {
    var n := |names| - 1;
    if n == 0 then names[0]
    else
      var hi := LastName(names[..n]);
      if LexLess(hi, names[n]) then names[n] else hi
  }

  lemma NotLess(a: string, b: string)
    requires !LexLess(a, b)
    ensures LexLeq(b, a)
  {
    LexLessTotal(a, b);
  }

  /** They are the first and the last name in code-point order. */
  lemma {:induction false} NameBounds(names: seq<string>)
    requires names != []
    ensures FirstName(names) in names && LastName(names) in names
    ensures forall v <- names :: LexLeq(FirstName(names), v) && LexLeq(v, LastName(names))
  {
    var n := |names| - 1;
    if n > 0 {
      NameBounds(names[..n]);
      var x, lo, hi := names[n], FirstName(names[..n]), LastName(names[..n]);
      if !LexLess(x, lo) {
        NotLess(x, lo);
      }
      if !LexLess(hi, x) {
        NotLess(hi, x);
      }
      hide LexLess;
      forall v <- names ensures LexLeq(FirstName(names), v) && LexLeq(v, LastName(names)) {
        assert v in names[..n] || v == x;
        if v in names[..n] {
          if LexLess(x, lo) {
            LexLeqTransitive(x, lo, v);
          }
          if LexLess(hi, x) {
            LexLeqTransitive(v, hi, x);
          }
        }
      }
    }
  }

  /** `compute_zone_extrema` of an integer column. */
  method IntZone(values: seq<int>) returns (zone: ZoneMap<int>)
    ensures zone == AmountZone(values)
  {
    if values == [] {
      return ZoneMap(None, None, 0, 0);
    }
    var lo, hi := values[0], values[0];
    for i := 1 to |values|
      invariant lo == Lowest(values[..i]) && hi == Highest(values[..i])
    {
      assert values[..i + 1][..i] == values[..i];
      if values[i] < lo {
        lo := values[i];
      }
      if values[i] > hi {
        hi := values[i];
      }
    }
    assert values[..|values|] == values;
    zone := ZoneMap(Some(lo), Some(hi), 0, |values|);
  }

  function AmountZone(values: seq<int>): ZoneMap<int> {
    if values == [] then ZoneMap(None, None, 0, 0) else ZoneMap(Some(Lowest(values)), Some(Highest(values)), 0, |values|)
  }

  function NameZone(names: seq<string>): ZoneMap<string> {
    if names == [] then ZoneMap(None, None, 0, 0) else ZoneMap(Some(FirstName(names)), Some(LastName(names)), 0, |names|)
  }

  // ── Acceptance ────────────────────────────────────────────────────────────

  predicate AcceptsEqual(zone: ZoneMap<string>, value: string) {
    && zone.nullCount < zone.rowCount
    && (zone.min.Some? ==> LexLeq(zone.min.value, value))
    && (zone.max.Some? ==> LexLeq(value, zone.max.value))
  }

  predicate AcceptsAbove(zone: ZoneMap<int>, value: int) {
    zone.nullCount < zone.rowCount && zone.max.Some? && value < zone.max.value
  }

  function Types(rows: seq<Event>): (r: seq<string>)
    ensures |r| == |rows|
  {
    seq(|rows|, i requires 0 <= i < |rows| => rows[i].eventType)
  }

  function Amounts(rows: seq<Event>): (r: seq<int>)
    ensures |r| == |rows|
  {
    seq(|rows|, i requires 0 <= i < |rows| => rows[i].amount)
  }

  predicate TypeAccepted(rows: seq<Event>) {
    AcceptsEqual(NameZone(Types(rows)), "purchase")
  }

  predicate AmountAccepted(rows: seq<Event>) {
    AcceptsAbove(AmountZone(Amounts(rows)), 4500)
  }

  /** The group may hold a purchase over 4500, as far as its zone maps tell. */
  predicate Accepted(rows: seq<Event>) {
    TypeAccepted(rows) && AmountAccepted(rows)
  }

  predicate Matches(row: Event) {
    row.eventType == "purchase" && row.amount > 4500
  }

  /** A group with a matching row is never pruned. */
  lemma NeverPruned(rows: seq<Event>, r: nat)
    requires r < |rows| && Matches(rows[r])
    ensures Accepted(rows)
  {
    NameBounds(Types(rows));
    assert Types(rows)[r] in Types(rows) && Amounts(rows)[r] in Amounts(rows);
    hide FirstName;
    hide LastName;
    hide LexLess;
  }

  lemma AmountAcceptedIff(rows: seq<Event>)
    ensures AmountAccepted(rows) <==> exists row <- rows :: row.amount > 4500
  {
    var amounts := Amounts(rows);
    if AmountAccepted(rows) {
      var i :| 0 <= i < |amounts| && amounts[i] == Highest(amounts);
      assert rows[i] in rows;
    }
    if row :| row in rows && row.amount > 4500 {
      var i :| 0 <= i < |rows| && rows[i] == row;
      assert amounts[i] in amounts;
    }
  }

  /** A group is accepted exactly if it has an event type up to "purchase" and one from "purchase" on,
      and an amount over 4500. */
  lemma AcceptedIff(rows: seq<Event>)
    ensures Accepted(rows) <==>
      && (exists row <- rows :: LexLeq(row.eventType, "purchase"))
      && (exists row <- rows :: LexLeq("purchase", row.eventType))
      && (exists row <- rows :: row.amount > 4500)
  {
    AmountAcceptedIff(rows);
    hide AmountAccepted;
    TypeAcceptedIff(rows);
    hide TypeAccepted;
  }

  lemma TypeAcceptedIff(rows: seq<Event>)
    ensures TypeAccepted(rows) <==>
      (exists row <- rows :: LexLeq(row.eventType, "purchase")) && (exists row <- rows :: LexLeq("purchase", row.eventType))
  {
    var names := Types(rows);
    if rows != [] {
      NameBounds(names);
      var i :| 0 <= i < |names| && names[i] == FirstName(names);
      var j :| 0 <= j < |names| && names[j] == LastName(names);
      assert rows[i] in rows && rows[j] in rows;
      hide FirstName;
      hide LastName;
      hide LexLeq;
      forall row <- rows ensures LexLeq(row.eventType, "purchase") ==> LexLeq(FirstName(names), "purchase") {
        RowBounds(rows, row, "purchase");
      }
      forall row <- rows ensures LexLeq("purchase", row.eventType) ==> LexLeq("purchase", LastName(names)) {
        RowBounds(rows, row, "purchase");
      }
    }
  }

  lemma RowBounds(rows: seq<Event>, row: Event, name: string)
    requires row in rows
    ensures LexLeq(row.eventType, name) ==> LexLeq(FirstName(Types(rows)), name)
    ensures LexLeq(name, row.eventType) ==> LexLeq(name, LastName(Types(rows)))
  {
    var names := Types(rows);
    var i :| 0 <= i < |rows| && rows[i] == row;
    assert names[i] in names;
    NameBounds(names);
    hide *;
    if LexLeq(row.eventType, name) {
      LexLeqTransitive(FirstName(names), names[i], name);
    }
    if LexLeq(name, row.eventType) {
      LexLeqTransitive(name, names[i], LastName(names));
    }
  }

  /** Where all event types are the same, the bounds on them decide that type exactly. */
  lemma PurchasesAccepted(rows: seq<Event>)
    requires rows != [] && forall row <- rows :: row.eventType == "purchase"
    ensures TypeAccepted(rows)
  {
    NameBounds(Types(rows));
    assert forall name <- Types(rows) :: name == "purchase";
    hide FirstName;
    hide LastName;
    hide LexLess;
  }

  /** And where all of them are smaller, they rule it out. */
  lemma OthersPruned(rows: seq<Event>)
    requires forall row <- rows :: LexLess(row.eventType, "purchase")
    ensures !TypeAccepted(rows)
  {
    var names := Types(rows);
    if names != [] {
      NameBounds(names);
      var i :| 0 <= i < |names| && names[i] == LastName(names);
      assert rows[i] in rows;
      SmallerDiffers(LastName(names), "purchase");
    }
    hide FirstName;
    hide LastName;
    hide LexLess;
  }

  lemma SmallerDiffers(a: string, b: string)
    requires LexLess(a, b)
    ensures !LexLeq(b, a)
  {
    LexLessIrreflexive(a);
    LexLessIrreflexive(b);
    if LexLess(b, a) {
      LexLessTransitive(a, b, a);
    }
  }
}

/** The INSERT statement of `bqlite ingest`, and what can be read back from it. */
module InsertStmt {
  import opened Text
  import opened IngestArgs

  function Doubled(s: string): string {
    if s == [] then [] else (if s[0] == '\'' then "''" else [s[0]]) + Doubled(s[1..])
  }

  function MapText(columns: seq<(string, string)>): string {
    if columns == [] then []
    else if |columns| == 1 then columns[0].0 + " AS " + columns[0].1
    else columns[0].0 + " AS " + columns[0].1 + ", " + MapText(columns[1..])
  }

  function FormatOf(args: Args): string {
    if args.format.Some? then args.format.value else "csv"
  }

  /** What follows the format's closing quote. */
  function Ending(columns: seq<(string, string)>): string {
    if columns == [] then ")" else ", map: (" + MapText(columns) + "))"
  }

  function BuildInsertStmt(args: Args): Result<string> {
    if '`' in args.table then Err(Backtick)
    else Ok("INSERT INTO `" + (args.table + "`" + (" FROM '" + (Doubled(args.filePath) + "'"
      + (" WITH (format: '" + (Doubled(FormatOf(args)) + "'" + Ending(args.columnMap)))))))
  }

  /** A string literal without its opening quote: the text up to the first quote that is not
      doubled, with doubled quotes read as one, and what follows. */
  function ReadQuoted(s: string): Option<(string, string)> {
    if s == [] then None
    else if s[0] != '\'' then
      match ReadQuoted(s[1..])
      case None => None
      case Some((v, rest)) => Some(([s[0]] + v, rest))
    else if |s| > 1 && s[1] == '\'' then
      match ReadQuoted(s[2..])
      case None => None
      case Some((v, rest)) => Some(("'" + v, rest))
    else Some(([], s[1..]))
  }

  lemma {:induction false} ReadDoubled(v: string, rest: string)
    requires rest == [] || rest[0] != '\''
    ensures ReadQuoted(Doubled(v) + "'" + rest) == Some((v, rest))
  {
    var s := Doubled(v) + "'" + rest;
    if v == [] {
      assert s == "'" + rest && s[1..] == rest;
    } else {
      ReadDoubled(v[1..], rest);
      var more := Doubled(v[1..]) + "'" + rest;
      assert v == [v[0]] + v[1..];
      if v[0] == '\'' {
        assert s == "''" + more && s[2..] == more;
      } else {
        assert s == [v[0]] + more && s[1..] == more;
      }
    }
  }

  /** Reads table, path, format and the ending back from a statement. */
  function ReadStmt(s: string): Option<(string, string, string, string)> {
    if |s| < 13 then None
    else
      var named := s[13..];
      var i := Find('`', named);
      if |named| < i + 8 then None
      else
        match ReadQuoted(named[i + 8..])
        case None => None
        case Some((path, rest)) =>
          if |rest| < 16 then None
          else
            match ReadQuoted(rest[16..])
            case None => None
            case Some((format, ending)) => Some((named[..i], path, format, ending))
  }

  lemma Skip(a: string, b: string)
    ensures (a + b)[|a|..] == b
  {
  }

  /** Every statement can be read back: quotes in the path or the format cannot break out of their
      literal. */
  lemma StmtRoundTrip(args: Args)
    requires '`' !in args.table
    ensures BuildInsertStmt(args).Ok?
    ensures ReadStmt(BuildInsertStmt(args).value) == Some((args.table, args.filePath, FormatOf(args), Ending(args.columnMap)))
  {
    var ending := Ending(args.columnMap);
    assert ending[0] != '\'';
    hide Ending;
    var afterPath := " WITH (format: '" + (Doubled(FormatOf(args)) + "'" + ending);
    var quoted := Doubled(args.filePath) + "'" + afterPath;
    assert BuildInsertStmt(args) == Ok("INSERT INTO `" + (args.table + "`" + (" FROM '" + quoted)));
    hide *;
    ReadDoubled(args.filePath, afterPath);
    ReadDoubled(FormatOf(args), ending);
    Skip(" WITH (format: '", Doubled(FormatOf(args)) + "'" + ending);
    ReadPieces(args.table, quoted, args.filePath, afterPath, FormatOf(args), ending);
  }

  lemma ReadPieces(table: string, quoted: string, path: string, afterPath: string, format: string, ending: string)
    requires '`' !in table && ReadQuoted(quoted) == Some((path, afterPath))
    requires |afterPath| >= 16 && ReadQuoted(afterPath[16..]) == Some((format, ending))
    ensures ReadStmt("INSERT INTO `" + (table + "`" + (" FROM '" + quoted))) == Some((table, path, format, ending))
  {
    hide ReadQuoted;
    hide Find;
    NamedTable(table, quoted);
    Skip("INSERT INTO `", table + "`" + (" FROM '" + quoted));
  }

  lemma NamedTable(table: string, after: string)
    requires '`' !in table
    ensures var named := table + "`" + (" FROM '" + after);
      Find('`', named) == |table| && |named| >= |table| + 8 && named[..|table|] == table && named[|table| + 8..] == after
  {
    FindAt('`', table, " FROM '" + after);
    ConcatAssoc(table + "`", " FROM '", after);
    Skip(table + "`" + " FROM '", after);
    hide Find;
  }

  /** So statements are equal only for the same table, path, format (csv if absent) and map text. */
  lemma StmtInjective(a: Args, b: Args)
    requires BuildInsertStmt(a).Ok? && BuildInsertStmt(a) == BuildInsertStmt(b)
    ensures a.table == b.table && a.filePath == b.filePath && FormatOf(a) == FormatOf(b)
    ensures (a.columnMap == [] <==> b.columnMap == []) && MapText(a.columnMap) == MapText(b.columnMap)
  {
    StmtRoundTrip(a);
    StmtRoundTrip(b);
    hide BuildInsertStmt;
    hide ReadStmt;
    EndingInjective(a.columnMap, b.columnMap);
  }

  lemma EndingInjective(a: seq<(string, string)>, b: seq<(string, string)>)
    requires Ending(a) == Ending(b)
    ensures (a == [] <==> b == []) && MapText(a) == MapText(b)
  {
    if a != [] && b != [] {
      var x, y := ", map: (" + MapText(a), ", map: (" + MapText(b);
      assert Ending(a)[..|x|] == x && Ending(b)[..|y|] == y;
      Skip(", map: (", MapText(a));
      Skip(", map: (", MapText(b));
    } else {
      assert a == [] <==> Ending(a)[0] == ')';
    }
  }

  /** The whole text for a path and a format without quotes, csv if none is given; and the text of the
      map, its pairs separated by commas. */
  lemma StmtText(args: Args, src: string, dst: string, more: seq<(string, string)>)
    ensures BuildInsertStmt(args) == Err(Backtick) <==> '`' in args.table
    ensures '`' !in args.table && '\'' !in args.filePath && (args.format.Some? ==> '\'' !in args.format.value) ==>
      BuildInsertStmt(args) == Ok(
        "INSERT INTO `" + args.table + "` FROM '" + args.filePath + "' WITH (format: '"
        + (if args.format.None? then "csv" else args.format.value)
        + (if args.columnMap == [] then "')" else "', map: (" + MapText(args.columnMap) + "))"))
    ensures MapText([(src, dst)]) == src + " AS " + dst
    ensures more != [] ==> MapText([(src, dst)] + more) == src + " AS " + dst + ", " + MapText(more)
  {
    if '`' !in args.table && '\'' !in args.filePath && (args.format.Some? ==> '\'' !in args.format.value) {
      Undoubled(args.filePath);
      Undoubled(FormatOf(args));
      Literals(MapText(args.columnMap));
      hide MapText;
      Flattened("INSERT INTO `", args.table, "`", " FROM '", args.filePath, "'", " WITH (format: '", FormatOf(args),
                Ending(args.columnMap));
    }
    assert ([(src, dst)] + more)[1..] == more;
  }

  lemma Literals(text: string)
    ensures "`" + " FROM '" == "` FROM '" && "'" + " WITH (format: '" == "' WITH (format: '" && "'" + ")" == "')"
    ensures "'" + (", map: (" + text + "))") == "', map: (" + text + "))"
  {
  }

  lemma Flattened(
    x0: string, t: string, x1: string, x2: string, p: string, x3: string, x4: string, f: string, ending: string)
    ensures x0 + (t + x1 + (x2 + (p + x3 + (x4 + (f + x3 + ending)))))
      == x0 + t + (x1 + x2) + p + (x3 + x4) + f + (x3 + ending)
  {
  }

  lemma {:induction false} Undoubled(s: string)
    requires '\'' !in s
    ensures Doubled(s) == s
  {
    if s != [] {
      Undoubled(s[1..]);
      assert s == [s[0]] + s[1..];
    }
  }

  // ── Which column maps the parser makes ────────────────────────────────────

  /** Names that are trimmed, not empty and without commas, the source name also without an equals sign. */
  predicate AcceptablePair(c: (string, string)) {
    Name(c.0) && Name(c.1) && '=' !in c.0
  }

  predicate AcceptableMap(columns: seq<(string, string)>) {
    forall c <- columns :: AcceptablePair(c)
  }

  lemma ParsedPair(entry: string)
    requires ',' !in entry && ParsePair(entry).Ok?
    ensures AcceptablePair(ParsePair(entry).value)
  {
    var i := Find('=', entry);
    StrippedName(entry[..i]);
    StrippedName(entry[i + 1..]);
    hide Strip;
  }

  lemma StrippedName(s: string)
    ensures var t := Strip(UnicodeSpace, s);
      Strip(UnicodeSpace, t) == t && (',' in t ==> ',' in s) && ('=' in t ==> '=' in s)
  {
    var before, after := Stripped(UnicodeSpace, s);
    hide Strip;
    assert s == before + Strip(UnicodeSpace, s) + after;
  }

  lemma {:induction false} ParsedPairs(s: string)
    requires ParsePairs(s).Ok?
    ensures AcceptableMap(ParsePairs(s).value)
  {
    hide ParsePair;
    hide AcceptablePair;
    var i := Find(',', s);
    ParsedPair(s[..i]);
    if i < |s| {
      ParsedPairs(s[i + 1..]);
    }
  }

  /** The parser makes exactly the non-empty lists of acceptable pairs. */
  lemma ParsedIff(columns: seq<(string, string)>)
    ensures (exists s :: ParseColumnMap(s) == Ok(columns)) <==> columns != [] && AcceptableMap(columns)
  {
    if s :| ParseColumnMap(s) == Ok(columns) {
      ParsedPairs(s);
    }
    if columns != [] && AcceptableMap(columns) {
      var pairs := Unpadded(columns);
      UnpaddedNames(columns);
      hide AcceptableMap;
      hide Names;
      ParseWrittenMap(pairs);
      assert ParseColumnMap(WrittenMap(pairs)) == Ok(columns);
    }
  }

  function Unpadded(columns: seq<(string, string)>): (pairs: seq<Pair>)
    ensures |pairs| == |columns|
  {
    seq(|columns|, i requires 0 <= i < |columns| => Pair(columns[i].0, columns[i].1, "", "", "", ""))
  }

  lemma {:induction false} UnpaddedNames(columns: seq<(string, string)>)
    requires AcceptableMap(columns)
    ensures Names(Unpadded(columns)) == columns && forall p <- Unpadded(columns) :: WritablePair(p)
  {
    if columns != [] {
      assert columns[0] in columns;
      UnpaddedNames(columns[1..]);
      assert Unpadded(columns)[1..] == Unpadded(columns[1..]);
      assert Unpadded(columns) == [Unpadded(columns)[0]] + Unpadded(columns[1..]);
      hide Name;
    }
  }

  // ── When the column map itself can be read back ───────────────────────────

  function PairText(c: (string, string)): string {
    c.0 + " AS " + c.1
  }

  predicate NoCommas(columns: seq<(string, string)>) {
    forall c <- columns :: ',' !in c.0 && ',' !in c.1
  }

  lemma FirstPair(columns: seq<(string, string)>)
    requires columns != [] && NoCommas(columns)
    ensures var text, pair := MapText(columns), PairText(columns[0]);
      && Find(',', text) == |pair| <= |text| && text[..|pair|] == pair && (|text| == |pair| <==> |columns| == 1)
      && (|columns| > 1 ==> |text| >= |pair| + 2 && text[|pair| + 2..] == MapText(columns[1..]))
  {
    var pair, text := PairText(columns[0]), MapText(columns);
    assert columns[0] in columns && ',' !in pair;
    if |columns| == 1 {
      assert text == pair;
      FindNot(',', pair);
    } else {
      var rest := MapText(columns[1..]);
      assert text == pair + ", " + rest;
      hide MapText;
      hide PairText;
      FirstComma(pair, rest);
    }
  }

  lemma FirstComma(pair: string, rest: string)
    requires ',' !in pair
    ensures var text := pair + ", " + rest;
      Find(',', text) == |pair| && |text| >= |pair| + 2 && text[..|pair|] == pair && text[|pair| + 2..] == rest
  {
    assert pair + ", " + rest == pair + [','] + (" " + rest);
    FindAt(',', pair, " " + rest);
    Skip(pair + ", ", rest);
    hide Find;
  }

  /** Equal texts have equal texts pair by pair. */
  lemma {:induction false} PairTexts(a: seq<(string, string)>, b: seq<(string, string)>)
    requires a != [] && b != [] && NoCommas(a) && NoCommas(b) && MapText(a) == MapText(b)
    ensures |a| == |b| && forall i :: 0 <= i < |a| ==> PairText(a[i]) == PairText(b[i])
  {
    FirstPair(a);
    FirstPair(b);
    hide MapText;
    hide Find;
    hide PairText;
    if |a| > 1 {
      PairTexts(a[1..], b[1..]);
      forall i | 0 <= i < |a| ensures PairText(a[i]) == PairText(b[i]) {
        assert i > 0 ==> a[i] == a[1..][i - 1] && b[i] == b[1..][i - 1];
      }
    }
  }

  lemma {:induction false} SameText(a: seq<(string, string)>, b: seq<(string, string)>)
    requires |a| == |b| && forall i :: 0 <= i < |a| ==> PairText(a[i]) == PairText(b[i])
    ensures MapText(a) == MapText(b)
  {
    if a != [] {
      SameText(a[1..], b[1..]);
      assert PairText(a[0]) == PairText(b[0]);
    }
  }

  /** The text reads as the two names before and after position `i`. */
  predicate ReadsAt(text: string, i: nat) {
    i + 4 <= |text| && text[i..i + 4] == " AS " && AcceptablePair((text[..i], text[i + 4..]))
  }

  /** The pair's own reading is the only one. */
  predicate OneReading(c: (string, string)) {
    forall i :: 0 <= i <= |PairText(c)| && ReadsAt(PairText(c), i) ==> i == |c.0|
  }

  lemma OwnReading(c: (string, string))
    requires AcceptablePair(c)
    ensures ReadsAt(PairText(c), |c.0|)
  {
    var text := PairText(c);
    assert text == (c.0 + " AS ") + c.1;
    Skip(c.0 + " AS ", c.1);
    assert text[..|c.0|] == c.0 && text[|c.0|..|c.0| + 4] == " AS ";
  }

  lemma OneReadingDecides(c: (string, string), d: (string, string))
    requires AcceptablePair(c) && AcceptablePair(d) && OneReading(c) && PairText(c) == PairText(d)
    ensures c == d
  {
    OwnReading(c);
    OwnReading(d);
    var text := PairText(c);
    assert c.0 == text[..|c.0|] && d.0 == text[..|d.0|];
    Skip(c.0 + " AS ", c.1);
    Skip(d.0 + " AS ", d.1);
    hide AcceptablePair;
  }

  lemma OtherReading(c: (string, string)) returns (d: (string, string))
    requires AcceptablePair(c) && !OneReading(c)
    ensures AcceptablePair(d) && d != c && PairText(d) == PairText(c)
  {
    var text := PairText(c);
    var i: nat :| i <= |text| && ReadsAt(text, i) && i != |c.0|;
    d := SplitAt(text, i);
  }

  lemma SplitAt(text: string, i: nat) returns (d: (string, string))
    requires ReadsAt(text, i)
    ensures i + 4 <= |text| && d == (text[..i], text[i + 4..]) && AcceptablePair(d) && PairText(d) == text
  {
    d := (text[..i], text[i + 4..]);
    assert text == text[..i] + text[i..i + 4] + text[i + 4..];
  }

  /** Among the maps the parser makes, this one alone has its text. */
  ghost predicate Determined(columns: seq<(string, string)>) {
    forall others :: others != [] && AcceptableMap(others) && MapText(others) == MapText(columns) ==> others == columns
  }

  lemma AcceptableCommas(columns: seq<(string, string)>)
    requires AcceptableMap(columns)
    ensures NoCommas(columns)
  {
    forall c <- columns ensures ',' !in c.0 && ',' !in c.1 {
      assert AcceptablePair(c);
    }
  }

  /** The text of a map the parser makes determines it exactly if no pair of it reads in a second way. */
  lemma DeterminedIff(columns: seq<(string, string)>)
    requires columns != [] && AcceptableMap(columns)
    ensures Determined(columns) <==> forall c <- columns :: OneReading(c)
  {
    hide AcceptablePair;
    hide MapText;
    hide PairText;
    hide OneReading;
    if i: nat :| i < |columns| && !OneReading(columns[i]) {
      var d := OtherReading(columns[i]);
      var others := columns[i := d];
      SameText(columns, others);
      assert others[i] != columns[i];
      assert AcceptableMap(others);
    } else {
      forall others | others != [] && AcceptableMap(others) && MapText(others) == MapText(columns) ensures others == columns {
        AcceptableCommas(columns);
        AcceptableCommas(others);
        PairTexts(columns, others);
        forall i | 0 <= i < |columns| ensures columns[i] == others[i] {
          assert columns[i] in columns && others[i] in others;
          OneReadingDecides(columns[i], others[i]);
        }
      }
    }
  }

  /** The arguments are the same but for the database path, which statements do not name, and an absent
      format, which stands for csv. */
  predicate SameArgs(a: Args, b: Args) {
    a.(dbPath := b.dbPath, format := Some(FormatOf(a))) == b.(format := Some(FormatOf(b)))
  }

  /** Among arguments with maps the parser makes, or none, a statement determines its own exactly if no
      pair of the column map reads in a second way. */
  lemma StmtDeterminesIff(a: Args)
    requires BuildInsertStmt(a).Ok? && AcceptableMap(a.columnMap)
    ensures (forall b: Args :: AcceptableMap(b.columnMap) && BuildInsertStmt(b) == BuildInsertStmt(a) ==> SameArgs(a, b))
      <==> forall c <- a.columnMap :: OneReading(c)
  {
    hide OneReading;
    hide AcceptableMap;
    if a.columnMap != [] {
      DeterminedIff(a.columnMap);
      if !Determined(a.columnMap) {
        var others :| others != [] && AcceptableMap(others) && MapText(others) == MapText(a.columnMap) && others != a.columnMap;
        var b := a.(columnMap := others);
        assert BuildInsertStmt(b) == BuildInsertStmt(a) && !SameArgs(a, b);
      }
    }
    if forall c <- a.columnMap :: OneReading(c) {
      forall b: Args | AcceptableMap(b.columnMap) && BuildInsertStmt(b) == BuildInsertStmt(a) ensures SameArgs(a, b) {
        StmtInjective(a, b);
      }
    }
  }

  /** Both names of every pair are without spaces and commas. */
  predicate PlainNames(columns: seq<(string, string)>) {
    NoCommas(columns) && forall c <- columns :: ' ' !in c.0 && ' ' !in c.1
  }

  lemma PlainPair(c: (string, string), d: (string, string))
    requires ' ' !in c.0 && ' ' !in d.0 && PairText(c) == PairText(d)
    ensures c == d
  {
    assert PairText(c) == c.0 + [' '] + ("AS " + c.1) && PairText(d) == d.0 + [' '] + ("AS " + d.1);
    FindAt(' ', c.0, "AS " + c.1);
    FindAt(' ', d.0, "AS " + d.1);
    assert PairText(c)[..|c.0|] == c.0 && PairText(d)[..|d.0|] == d.0;
    Skip(c.0 + " AS ", c.1);
    Skip(d.0 + " AS ", d.1);
  }

  /** The easy case: if no name of a column map has a space or a comma, acceptable or not, statements are
      equal only for the same arguments. */
  lemma StmtDeterminesArgs(a: Args, b: Args)
    requires BuildInsertStmt(a).Ok? && BuildInsertStmt(a) == BuildInsertStmt(b)
    requires PlainNames(a.columnMap) && PlainNames(b.columnMap)
    ensures SameArgs(a, b)
  {
    StmtInjective(a, b);
    hide BuildInsertStmt;
    if a.columnMap != [] {
      PairTexts(a.columnMap, b.columnMap);
      forall i | 0 <= i < |a.columnMap| ensures a.columnMap[i] == b.columnMap[i] {
        assert a.columnMap[i] in a.columnMap && b.columnMap[i] in b.columnMap;
        PlainPair(a.columnMap[i], b.columnMap[i]);
      }
      hide *;
      assert a.columnMap == b.columnMap;
    }
  }

  /** Any three names make two maps that the parser accepts and that have one text. */
  lemma SpacesCollide(a: string, b: string, c: string)
    requires Name(a) && Name(b) && Name(c) && '=' !in a && '=' !in b
    ensures var ab, bc := a + " AS " + b, b + " AS " + c;
      && ParseColumnMap(ab + "=" + c) == Ok([(ab, c)]) && ParseColumnMap(a + "=" + bc) == Ok([(a, bc)])
      && MapText([(ab, c)]) == MapText([(a, bc)]) && (ab, c) != (a, bc)
      && !OneReading((ab, c)) && !OneReading((a, bc))
  {
    var ab, bc := a + " AS " + b, b + " AS " + c;
    JoinedName(a, b);
    JoinedName(b, c);
    UnpaddedPair(ab, c);
    UnpaddedPair(a, bc);
    hide Name;
    hide ParseColumnMap;
    assert PairText((ab, c)) == PairText((a, bc)) == a + " AS " + b + " AS " + c;
    SameText([(ab, c)], [(a, bc)]);
    hide OneReading;
    if OneReading((ab, c)) || OneReading((a, bc)) {
      OneReadingDecides(if OneReading((ab, c)) then (ab, c) else (a, bc), if OneReading((ab, c)) then (a, bc) else (ab, c));
    }
  }

  lemma JoinedName(a: string, b: string)
    requires Name(a) && Name(b)
    ensures var s := a + " AS " + b; Name(s) && ('=' !in a && '=' !in b ==> '=' !in s)
  {
    var s := a + " AS " + b;
    StrippedEnds(UnicodeSpace, a);
    StrippedEnds(UnicodeSpace, b);
    assert s[0] == a[0] && s[|s| - 1] == b[|b| - 1];
  }

  lemma UnpaddedPair(src: string, dst: string)
    requires Name(src) && Name(dst) && '=' !in src
    ensures ParseColumnMap(src + "=" + dst) == Ok([(src, dst)])
  {
    var p := Pair(src, dst, "", "", "", "");
    ParseWritten(p);
    var s := src + "=" + dst;
    assert Written(p) == s;
    FindNot(',', s);
    assert s[..|s|] == s;
    hide ParsePair;
  }
}

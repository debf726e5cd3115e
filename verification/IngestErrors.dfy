/** Exactly which arguments and column maps `bqlite ingest` accepts, and which error the others get. */
module IngestErrors {
  import opened Text
  import opened IngestArgs
  import InsertStmt

  // ── Column maps ───────────────────────────────────────────────────────────

  lemma Unwritten(entry: string) returns (p: Pair)
    requires ',' !in entry && ParsePair(entry).Ok?
    ensures WritablePair(p) && Written(p) == entry && ParsePair(entry) == Ok((p.src, p.dst))
  {
    var i := Find('=', entry);
    var left, right := entry[..i], entry[i + 1..];
    var src, dst := Strip(UnicodeSpace, left), Strip(UnicodeSpace, right);
    assert ParsePair(entry) == Ok((src, dst));
    assert entry == left + "=" + right;
    hide *;
    InsertStmt.ParsedPair(entry);
    var a, b := Stripped(UnicodeSpace, left);
    var c, d := Stripped(UnicodeSpace, right);
    p := Pair(src, dst, a, b, c, d);
    MadePair(p);
  }

  lemma MadePair(p: Pair)
    requires InsertStmt.AcceptablePair((p.src, p.dst))
    requires Blank(UnicodeSpace, p.a) && Blank(UnicodeSpace, p.b) && Blank(UnicodeSpace, p.c) && Blank(UnicodeSpace, p.d)
    ensures WritablePair(p) && Written(p) == p.a + p.src + p.b + "=" + (p.c + p.dst + p.d)
  {
  }

  /** A pair is read from exactly the ways of writing it; anything else is a bad entry. */
  lemma ParsePairIff(entry: string, pair: (string, string))
    requires ',' !in entry
    ensures ParsePair(entry) == Ok(pair) <==>
      exists p: Pair :: WritablePair(p) && Written(p) == entry && (p.src, p.dst) == pair
    ensures ParsePair(entry).Err? ==> ParsePair(entry) == Err(BadMapEntry(entry))
  {
    if ParsePair(entry) == Ok(pair) {
      var p := Unwritten(entry);
    }
    forall p: Pair | WritablePair(p) && Written(p) == entry ensures ParsePair(entry) == Ok((p.src, p.dst)) {
      ParseWritten(p);
    }
  }

  lemma {:induction false} UnwrittenMap(s: string) returns (pairs: seq<Pair>)
    requires ParsePairs(s).Ok?
    ensures pairs != [] && (forall p <- pairs :: WritablePair(p))
    ensures WrittenMap(pairs) == s && Names(pairs) == ParsePairs(s).value
  {
    hide ParsePair;
    hide WritablePair;
    hide Written;
    var i := Find(',', s);
    var p := Unwritten(s[..i]);
    if i == |s| {
      pairs := [p];
      assert pairs[1..] == [];
    } else {
      var more := UnwrittenMap(s[i + 1..]);
      pairs := [p] + more;
      assert pairs[1..] == more;
      assert s == s[..i] + "," + s[i + 1..];
    }
  }

  /** The map parser makes a map of exactly the ways of writing it. */
  lemma ColumnMapIff(s: string, columns: seq<(string, string)>)
    ensures ParseColumnMap(s) == Ok(columns) <==>
      exists pairs :: pairs != [] && (forall p <- pairs :: WritablePair(p)) && WrittenMap(pairs) == s && Names(pairs) == columns
  {
    if ParseColumnMap(s) == Ok(columns) {
      var pairs := UnwrittenMap(s);
    }
    forall pairs | pairs != [] && (forall p <- pairs :: WritablePair(p)) && WrittenMap(pairs) == s && Names(pairs) == columns
      ensures ParseColumnMap(s) == Ok(columns)
    {
      ParseWrittenMap(pairs);
    }
  }

  /** The pairs, each with the comma after it. */
  function Commas(pairs: seq<Pair>): string {
    if pairs == [] then [] else Written(pairs[0]) + "," + Commas(pairs[1..])
  }

  lemma PairsConsFails(head: string, tail: string, pair: (string, string))
    requires ',' !in head && ParsePair(head) == Ok(pair) && ParsePairs(tail).Err?
    ensures ParsePairs(head + "," + tail) == ParsePairs(tail)
  {
    FindAt(',', head, tail);
    var s := head + "," + tail;
    hide Find;
    hide ParsePair;
    assert s[..|head|] == head && s[|head| + 1..] == tail;
  }

  lemma FirstFails(entry: string, rest: string)
    requires ',' !in entry && ParsePair(entry) == Err(BadMapEntry(entry)) && (rest == [] || rest[0] == ',')
    ensures ParsePairs(entry + rest) == Err(BadMapEntry(entry))
  {
    var s := entry + rest;
    if rest == [] {
      FindNot(',', entry);
      assert s == entry;
    } else {
      assert s == entry + [','] + rest[1..];
      FindAt(',', entry, rest[1..]);
    }
    hide Find;
    hide ParsePair;
    assert s[..|entry|] == entry;
  }

  /** The text is a way of writing a pair. */
  ghost predicate WritesPair(entry: string) {
    exists p: Pair :: WritablePair(p) && Written(p) == entry
  }

  lemma NoPair(entry: string)
    requires ',' !in entry && !WritesPair(entry)
    ensures ParsePair(entry) == Err(BadMapEntry(entry))
  {
    if ParsePair(entry).Ok? {
      var p := Unwritten(entry);
      assert false;
    }
    ParsePairIff(entry, ("", ""));
  }

  /** Of any other text the first entry that does not write a pair is reported. */
  lemma {:induction false} BadEntry(pairs: seq<Pair>, entry: string, rest: string)
    requires (forall p <- pairs :: WritablePair(p)) && ',' !in entry && (rest == [] || rest[0] == ',') && !WritesPair(entry)
    ensures ParsePairs(Commas(pairs) + entry + rest) == Err(BadMapEntry(entry))
    ensures var s := Commas(pairs) + entry + rest;
      ParseColumnMap(s) == Err(if s == [] then EmptyMap else BadMapEntry(entry))
  {
    hide *;
    var s := Commas(pairs) + entry + rest;
    EmptyOrNot(s);
    if pairs == [] {
      NoCommas();
      assert s == entry + rest;
      NoPair(entry);
      FirstFails(entry, rest);
    } else {
      var p, tail := pairs[0], Commas(pairs[1..]) + entry + rest;
      assert p in pairs;
      BadEntry(pairs[1..], entry, rest);
      ParseWritten(p);
      PairsConsFails(Written(p), tail, (p.src, p.dst));
      OneComma(pairs, entry, rest);
    }
  }

  lemma OneComma(pairs: seq<Pair>, entry: string, rest: string)
    requires pairs != []
    ensures Commas(pairs) + entry + rest == Written(pairs[0]) + "," + (Commas(pairs[1..]) + entry + rest)
  {
    hide Written;
  }

  lemma NoCommas()
    ensures Commas([]) == ""
  {
  }

  lemma EmptyOrNot(s: string)
    ensures ParseColumnMap(s) == if s == [] then Err(EmptyMap) else ParsePairs(s)
  {
  }

  // ── Argument lists ────────────────────────────────────────────────────────

  lemma {:induction false} TokensAfter(items: seq<Item>, rest: seq<string>)
    requires AllTypable(items)
    ensures Tokens(CommandLine(items) + rest) == TokensOf(items) + Tokens(rest)
  {
    hide Tokens;
    if items == [] {
      assert [] + rest == rest && TokensOf([]) + Tokens(rest) == Tokens(rest);
    } else {
      TokensAfter(items[1..], rest);
      var more := CommandLine(items[1..]) + rest;
      TypedFirst(items[0], more);
      assert CommandLine(items) + rest == Typed(items[0]) + more;
      assert TokensOf(items) == [TokenOf(items[0])] + TokensOf(items[1..]);
      Regroup([TokenOf(items[0])], TokensOf(items[1..]), Tokens(rest));
    }
  }

  lemma Regroup<T>(a: seq<T>, b: seq<T>, c: seq<T>)
    ensures a + (b + c) == a + b + c
  {
  }

  /** The argument is flag `k`, alone or with a value after an equals sign. */
  predicate Flagged(arg: string, k: Kind, value: Option<string>) {
    k != Path && arg == FlagName(k) + if value.None? then "" else "=" + value.value
  }

  ghost predicate NoFlag(arg: string) {
    !exists k, value :: Flagged(arg, k, value)
  }

  lemma FlagIs(arg: string, k: Kind, value: Option<string>)
    ensures FlagOf(arg) == Some((k, value)) <==> Flagged(arg, k, value)
  {
    if Flagged(arg, k, value) {
      var name := FlagName(k);
      hide *;
      assert arg == if value.None? then name else name + "=" + value.value;
      JoinedFlag(k, if value.None? then "" else value.value);
    }
    if FlagOf(arg) == Some((k, value)) {
      var i := Find('=', arg);
      var name := arg[..i];
      assert KindOf(name) == Some(k) && value == (if i == |arg| then None else Some(arg[i + 1..]));
      assert i < |arg| ==> arg[i] == '=';
      hide *;
      KindNames(name, k);
      assert arg == name + if i == |arg| then "" else "=" + arg[i + 1..];
      FlaggedIs(arg, k, value);
    }
  }

  lemma KindNames(name: string, k: Kind)
    requires KindOf(name) == Some(k)
    ensures k != Path && FlagName(k) == name
  {
  }

  lemma FlaggedIs(arg: string, k: Kind, value: Option<string>)
    requires k != Path && arg == FlagName(k) + if value.None? then "" else "=" + value.value
    ensures Flagged(arg, k, value)
  {
  }

  lemma NoFlagIff(arg: string)
    ensures FlagOf(arg) == None <==> NoFlag(arg)
    ensures FlagOf(arg).Some? ==> Flagged(arg, FlagOf(arg).value.0, FlagOf(arg).value.1)
  {
    hide FlagOf;
    hide Flagged;
    if FlagOf(arg).Some? {
      FlagIs(arg, FlagOf(arg).value.0, FlagOf(arg).value.1);
    }
    if !NoFlag(arg) {
      var k, value :| Flagged(arg, k, value);
      FlagIs(arg, k, value);
    }
  }

  /** Each flag comes at most once, and a map can be read. */
  ghost predicate FineSoFar(items: seq<Item>)
    requires AllTypable(items)
  {
    (forall k :: |Values(TokensOf(items), k)| <= 1) && forall v <- Values(TokensOf(items), Map) :: ParseColumnMap(v).Ok?
  }

  lemma TakesAll(items: seq<Item>) returns (seen: Seen)
    requires AllTypable(items) && FineSoFar(items)
    ensures TakeAll(TokensOf(items)) == Ok(seen) && Collected(TokensOf(items), seen)
  {
    var tokens := TokensOf(items);
    var maps := Values(tokens, Map);
    assert maps != [] ==> maps[0] in maps;
    hide ParseColumnMap;
    seen := Seen(Optional(Values(tokens, Path)), Optional(Values(tokens, Table)), Optional(Values(tokens, Db)),
                 Optional(Values(tokens, Format)), if maps == [] then [] else ParseColumnMap(maps[0]).value);
    hide Values;
    TakeAllCollects(tokens, seen);
  }

  lemma StopsAt(items: seq<Item>, rest: seq<string>, seen: Seen)
    requires AllTypable(items) && rest != [] && TakeAll(TokensOf(items)) == Ok(seen)
    ensures var step := Take(seen, FirstToken(rest).0);
      step.Err? ==> Parsed(CommandLine(items) + rest) == Err(step.error)
  {
    var tokens, t := TokensOf(items), FirstToken(rest).0;
    TokensAfter(items, rest);
    var all := tokens + Tokens(rest);
    assert Tokens(rest)[0] == t;
    assert all[..|tokens| + 1] == tokens + [t] && (tokens + [t])[..|tokens|] == tokens;
    hide Tokens;
    hide FirstToken;
    hide Take;
    if Take(seen, t).Err? {
      TakeAllFails(all, |tokens| + 1);
    }
  }

  /** The first argument that is wrong by itself decides: a request for help, an unknown flag, or a flag
      without its value. */
  lemma WrongArgument(items: seq<Item>, rest: seq<string>)
    requires AllTypable(items) && FineSoFar(items) && rest != []
    ensures var arg, r := rest[0], Parsed(CommandLine(items) + rest);
      && (arg == "-h" || arg == "--help" ==> r == Err(Help))
      && ("--" <= arg && arg != "--help" && NoFlag(arg) ==> r == Err(UnknownFlag(arg)))
      && (forall k :: Flagged(arg, k, None) && |rest| == 1 ==> r == Err(MissingValue(k)))
  {
    var seen := TakesAll(items);
    StopsAt(items, rest, seen);
    NoFlagIff(rest[0]);
    hide *;
    WrongFirst(rest, seen);
  }

  lemma WrongFirst(rest: seq<string>, seen: Seen)
    requires rest != [] && (FlagOf(rest[0]) == None <==> NoFlag(rest[0]))
    ensures var arg, step := rest[0], Take(seen, FirstToken(rest).0);
      && (arg == "-h" || arg == "--help" ==> step == Err(Help))
      && ("--" <= arg && arg != "--help" && NoFlag(arg) ==> step == Err(UnknownFlag(arg)))
      && (forall k :: Flagged(arg, k, None) && |rest| == 1 ==> step == Err(MissingValue(k)))
  {
    hide ParseColumnMap;
    hide Flagged;
    hide NoFlag;
    var arg := rest[0];
    forall k | Flagged(arg, k, None) && |rest| == 1 ensures Take(seen, FirstToken(rest).0) == Err(MissingValue(k)) {
      FlagIs(arg, k, None);
      hide FlagOf;
    }
    if arg == "-h" || arg == "--help" {
      HelpIsNoFlag(arg);
    }
    assert "--" <= arg ==> arg[1] == "--"[1];
    hide FlagOf;
  }

  lemma HelpIsNoFlag(arg: string)
    requires arg == "-h" || arg == "--help"
    ensures FlagOf(arg) == None
  {
    FindNot('=', arg);
    assert arg[..|arg|] == arg;
    hide Find;
  }

  /** The first flag given once more, and the first map that cannot be read, decide likewise. */
  lemma WrongValue(items: seq<Item>, item: Item, more: seq<string>)
    requires AllTypable(items) && FineSoFar(items) && Typable(item)
    ensures var t, r := TokenOf(item), Parsed(CommandLine(items) + (Typed(item) + more));
      if Values(TokensOf(items), t.kind) != [] then r == Err(Repeated(t.kind))
      else if t.kind == Map && ParseColumnMap(t.value).Err? then r == Err(ParseColumnMap(t.value).error)
      else Tokens(CommandLine(items) + (Typed(item) + more)) == TokensOf(items + [item]) + Tokens(more)
  {
    var seen := TakesAll(items);
    var rest := Typed(item) + more;
    hide *;
    FirstTyped(item, more);
    StopsAt(items, rest, seen);
    TypedFirst(item, more);
    TokensAfter(items, rest);
    OneItemMore(items, item);
    Regroup(TokensOf(items), [TokenOf(item)], Tokens(more));
    WrongTake(TokensOf(items), seen, TokenOf(item));
  }

  lemma FirstTyped(item: Item, more: seq<string>)
    requires Typable(item)
    ensures Typed(item) + more != [] && FirstToken(Typed(item) + more).0 == TokenOf(item) && TokenOf(item).Token?
  {
    match item
    case Spaced(k, v) => JoinedFlag(k, v);
    case Joined(k, v) => JoinedFlag(k, v);
    case Positional(p) => PlainArgument(p);
  }

  lemma OneItemMore(items: seq<Item>, item: Item)
    ensures TokensOf(items + [item]) == TokensOf(items) + [TokenOf(item)]
  {
  }

  lemma WrongTake(tokens: seq<Token>, seen: Seen, t: Token)
    requires Collected(tokens, seen) && t.Token?
    ensures if Values(tokens, t.kind) != [] then Take(seen, t) == Err(Repeated(t.kind))
      else t.kind == Map && ParseColumnMap(t.value).Err? ==> Take(seen, t) == Err(ParseColumnMap(t.value).error)
  {
    hide ParseColumnMap;
    hide Values;
  }

  /** With nothing wrong, what is missing decides: the path, then the table, then the database. */
  lemma NothingWrong(items: seq<Item>)
    requires AllTypable(items) && FineSoFar(items)
    ensures var tokens, r := TokensOf(items), Parsed(CommandLine(items));
      if Values(tokens, Path) == [] then r == Err(Missing(Path))
      else if Values(tokens, Table) == [] then r == Err(Missing(Table))
      else if Values(tokens, Db) == [] then r == Err(Missing(Db))
      else r.Ok? && Says(tokens, r.value)
  {
    var seen := TakesAll(items);
    TokensOfTyped(items);
    assert Parsed(CommandLine(items)) == Finish(seen);
    var tokens := TokensOf(items);
    if Parsed(CommandLine(items)).Ok? {
      AcceptedIff(CommandLine(items), Parsed(CommandLine(items)).value);
    }
    hide Says;
    hide Tokens;
    hide TakeAll;
    hide ParseColumnMap;
    hide Values;
  }

  /** Any argument list is arguments as they may be typed, up to the first one that is wrong by itself. */
  lemma {:induction false} AsTyped(args: seq<string>) returns (items: seq<Item>, rest: seq<string>)
    ensures AllTypable(items) && args == CommandLine(items) + rest
    ensures rest != [] ==> WrongByItself(rest)
  {
    if args == [] {
      items, rest := [], args;
    } else {
      hide CommandLine;
      var item, width := FirstItem(args);
      if item.Some? {
        items, rest := AsTyped(args[width..]);
        CommandLineCons(item.value, items, rest);
        items := [item.value] + items;
        assert args == args[..width] + args[width..];
      } else {
        items, rest := [], args;
        CommandLineNothing(args);
      }
    }
  }

  ghost predicate WrongByItself(rest: seq<string>)
    requires rest != []
  {
    var arg := rest[0];
    || arg == "-h" || arg == "--help" || ("--" <= arg && NoFlag(arg))
    || (|rest| == 1 && exists k :: Flagged(arg, k, None))
  }

  lemma FirstItem(args: seq<string>) returns (item: Option<Item>, width: nat)
    requires args != []
    ensures item.Some? ==> Typable(item.value) && 0 < width <= |args| && args[..width] == Typed(item.value)
    ensures item.None? ==> WrongByItself(args)
  {
    var arg := args[0];
    item, width := None, 1;
    NoFlagIff(arg);
    if FlagOf(arg) == None {
      hide FlagOf;
      if arg != "-h" && !("--" <= arg) {
        item := Some(Positional(arg));
      }
    } else {
      var k, value := FlagOf(arg).value.0, FlagOf(arg).value.1;
      assert Flagged(arg, k, value);
      hide FlagOf;
      hide FlagName;
      if value.Some? {
        item := Some(Joined(k, value.value));
        assert arg == FlagName(k) + "=" + value.value;
      } else if |args| > 1 {
        item, width := Some(Spaced(k, args[1])), 2;
        assert arg == FlagName(k);
      }
    }
  }

  lemma CommandLineCons(item: Item, items: seq<Item>, rest: seq<string>)
    requires Typable(item) && AllTypable(items)
    ensures AllTypable([item] + items) && CommandLine([item] + items) + rest == Typed(item) + (CommandLine(items) + rest)
  {
    assert ([item] + items)[1..] == items;
    hide Typable;
    hide Typed;
  }

  lemma CommandLineNothing(rest: seq<string>)
    ensures CommandLine([]) + rest == rest
  {
  }

  /** Accepted are exactly the arguments typed in some order and spelling that say what they must. */
  lemma AcceptedAsTyped(args: seq<string>, a: Args)
    ensures Parsed(args) == Ok(a) <==>
      exists items :: AllTypable(items) && CommandLine(items) == args && Says(TokensOf(items), a)
  {
    hide *;
    AcceptedIff(args, a);
    var items, rest := AsTyped(args);
    if rest != [] {
      TokensAfter(items, rest);
      BadFirst(rest);
      BadInside(TokensOf(items), Tokens(rest), a);
    } else if Parsed(args) == Ok(a) {
      AllTyped(args, items, rest, a);
    }
    forall others | AllTypable(others) && CommandLine(others) == args && Says(TokensOf(others), a)
      ensures Parsed(args) == Ok(a)
    {
      ParseCommandLine(others, a);
    }
  }

  lemma BadInside(before: seq<Token>, after: seq<Token>, a: Args)
    requires after != [] && after[0].Bad?
    ensures !Says(before + after, a)
  {
    assert (before + after)[|before|] == after[0];
    assert after[0] in before + after;
    hide Values;
    hide ParseColumnMap;
  }

  lemma AllTyped(args: seq<string>, items: seq<Item>, rest: seq<string>, a: Args)
    requires AllTypable(items) && args == CommandLine(items) + rest && rest == []
    requires Says(Tokens(args), a)
    ensures CommandLine(items) == args && Says(TokensOf(items), a)
  {
    hide Says;
    hide Tokens;
    TokensOfTyped(items);
    assert CommandLine(items) + [] == CommandLine(items);
  }

  lemma BadFirst(rest: seq<string>)
    requires rest != [] && WrongByItself(rest)
    ensures Tokens(rest) != [] && Tokens(rest)[0].Bad?
  {
    BadToken(rest);
    hide FirstToken;
    hide WrongByItself;
  }

  lemma BadToken(rest: seq<string>)
    requires rest != [] && WrongByItself(rest)
    ensures FirstToken(rest).0.Bad?
  {
    var arg := rest[0];
    NoFlagIff(arg);
    hide NoFlag;
    hide Flagged;
    if arg == "-h" || arg == "--help" {
      HelpIsNoFlag(arg);
    } else if k :| |rest| == 1 && Flagged(arg, k, None) {
      FlagIs(arg, k, None);
    }
    hide FlagOf;
  }
}

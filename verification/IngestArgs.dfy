/** The `bqlite ingest` command line: parsing its arguments and building the INSERT statement. */
module IngestArgs {
  import opened Text

  datatype Args = Args(filePath: string, table: string, dbPath: string, format: Option<string>, columnMap: seq<(string, string)>)

  datatype Kind = Table | Db | Format | Map | Path

  datatype Error =
    | MissingValue(kind: Kind) | Repeated(kind: Kind) | Missing(kind: Kind)
    | Help | UnknownFlag(flag: string)
    | EmptyMap | BadMapEntry(entry: string) | Backtick

  datatype Result<+T> = Ok(value: T) | Err(error: Error)

  // ── Column maps ───────────────────────────────────────────────────────────

  function Find(c: char, s: string): (i: nat)
    ensures i <= |s| && c !in s[..i] && (i < |s| ==> s[i] == c)
  {
    if s == [] || s[0] == c then 0 else 1 + Find(c, s[1..])
  }

  function ParsePair(entry: string): Result<(string, string)> {
    var i := Find('=', entry);
    if i == |entry| then Err(BadMapEntry(entry))
    else
      var src, dst := Strip(UnicodeSpace, entry[..i]), Strip(UnicodeSpace, entry[i + 1..]);
      if src == [] || dst == [] then Err(BadMapEntry(entry)) else Ok((src, dst))
  }

  /** The comma-separated pairs; the first bad one decides the error. */
  function ParsePairs(s: string): (r: Result<seq<(string, string)>>)
    ensures r.Ok? ==> r.value != []
  {
    var i := Find(',', s);
    match ParsePair(s[..i])
    case Err(e) => Err(e)
    case Ok(pair) =>
      if i == |s| then Ok([pair])
      else
        match ParsePairs(s[i + 1..])
        case Err(e) => Err(e)
        case Ok(rest) => Ok([pair] + rest)
  }

  /** Never succeeds with an empty list, which is why an empty list can stand for "no `--map` yet". */
  function ParseColumnMap(s: string): (r: Result<seq<(string, string)>>)
    ensures r.Ok? ==> r.value != []
  {
    if s == [] then Err(EmptyMap) else ParsePairs(s)
  }

  /** A pair as it may be written, with white space around both names. */
  datatype Pair = Pair(src: string, dst: string, a: string, b: string, c: string, d: string)

  predicate Name(s: string) {
    s != [] && Strip(UnicodeSpace, s) == s && ',' !in s
  }

  predicate WritablePair(p: Pair) {
    && Name(p.src) && Name(p.dst) && '=' !in p.src
    && Blank(UnicodeSpace, p.a) && Blank(UnicodeSpace, p.b) && Blank(UnicodeSpace, p.c) && Blank(UnicodeSpace, p.d)
  }

  function Written(p: Pair): string {
    p.a + p.src + p.b + "=" + (p.c + p.dst + p.d)
  }

  function WrittenMap(pairs: seq<Pair>): string
    requires pairs != []
  {
    if |pairs| == 1 then Written(pairs[0]) else Written(pairs[0]) + "," + WrittenMap(pairs[1..])
  }

  function Names(pairs: seq<Pair>): seq<(string, string)> {
    if pairs == [] then [] else [(pairs[0].src, pairs[0].dst)] + Names(pairs[1..])
  }

  lemma {:induction false} FindAt(c: char, before: string, after: string)
    requires c !in before
    ensures Find(c, before + [c] + after) == |before|
  {
    var s := before + [c] + after;
    if before == [] {
      assert s[0] == c;
    } else {
      assert s[0] == before[0] && s[1..] == before[1..] + [c] + after;
      FindAt(c, before[1..], after);
    }
  }

  lemma {:induction false} FindNot(c: char, s: string)
    requires c !in s
    ensures Find(c, s) == |s|
  {
    if s != [] {
      FindNot(c, s[1..]);
    }
  }

  lemma BlankLacks(s: string, c: char)
    requires Blank(UnicodeSpace, s) && !UnicodeSpace(c)
    ensures c !in s
  {
  }

  lemma ParseWritten(p: Pair)
    requires WritablePair(p)
    ensures ParsePair(Written(p)) == Ok((p.src, p.dst)) && ',' !in Written(p)
  {
    BlankLacks(p.a, '=');
    BlankLacks(p.b, '=');
    BlankLacks(p.a, ',');
    BlankLacks(p.b, ',');
    BlankLacks(p.c, ',');
    BlankLacks(p.d, ',');
    var left, right := p.a + p.src + p.b, p.c + p.dst + p.d;
    FindAt('=', left, right);
    StripPadded(UnicodeSpace, p.a, p.src, p.b);
    StripPadded(UnicodeSpace, p.c, p.dst, p.d);
    var s := Written(p);
    assert s[..|left|] == left && s[|left| + 1..] == right;
  }

  lemma ParsePairsCons(head: string, tail: string, pair: (string, string))
    requires ',' !in head && ParsePair(head) == Ok(pair)
    ensures ParsePairs(head) == Ok([pair])
    ensures ParsePairs(tail).Ok? ==> ParsePairs(head + "," + tail) == Ok([pair] + ParsePairs(tail).value)
  {
    hide ParsePair;
    FindNot(',', head);
    assert head[..|head|] == head;
    FindAt(',', head, tail);
    var s := head + "," + tail;
    hide Find;
    assert s[..|head|] == head && s[|head| + 1..] == tail;
  }

  /** The map parser reads back every way of writing a list of pairs. */
  lemma {:induction false} ParseWrittenMap(pairs: seq<Pair>)
    requires pairs != [] && forall p <- pairs :: WritablePair(p)
    ensures ParseColumnMap(WrittenMap(pairs)) == Ok(Names(pairs))
  {
    var p := pairs[0];
    assert WritablePair(p);
    ParseWritten(p);
    assert Written(p) != [];
    hide ParsePair;
    hide ParsePairs;
    hide Written;
    if |pairs| == 1 {
      ParsePairsCons(Written(p), "", (p.src, p.dst));
      assert pairs[1..] == [] && Names(pairs) == [(p.src, p.dst)];
    } else {
      ParseWrittenMap(pairs[1..]);
      ParsePairsCons(Written(p), WrittenMap(pairs[1..]), (p.src, p.dst));
    }
  }

  // ── Tokens ────────────────────────────────────────────────────────────────

  datatype Token = Token(kind: Kind, value: string) | Bad(error: Error)

  function FlagName(k: Kind): string
    requires k != Path
  {
    match k
    case Table => "--table"
    case Db => "--db"
    case Format => "--format"
    case Map => "--map"
  }

  function KindOf(name: string): Option<Kind> {
    if name == "--table" then Some(Table)
    else if name == "--db" then Some(Db)
    else if name == "--format" then Some(Format)
    else if name == "--map" then Some(Map)
    else None
  }

  /** The flag an argument names, and its value if given after `=`. */
  function FlagOf(arg: string): Option<(Kind, Option<string>)> {
    var i := Find('=', arg);
    match KindOf(arg[..i])
    case None => None
    case Some(k) => Some((k, if i == |arg| then None else Some(arg[i + 1..])))
  }

  /** The first argument, with its value if that is the next one, and how many arguments that takes. */
  function FirstToken(rest: seq<string>): (r: (Token, nat))
    requires rest != []
    ensures r.0.Token? ==> 1 <= r.1 <= |rest|
  {
    match FlagOf(rest[0])
    case Some((kind, Some(value))) => (Token(kind, value), 1)
    case Some((kind, None)) => if |rest| == 1 then (Bad(MissingValue(kind)), 1) else (Token(kind, rest[1]), 2)
    case None =>
      if rest[0] == "-h" || rest[0] == "--help" then (Bad(Help), 1)
      else if "--" <= rest[0] then (Bad(UnknownFlag(rest[0])), 1)
      else (Token(Path, rest[0]), 1)
  }

  /** How the arguments group into flags with values and a positional; reading stops at the first
      argument that is wrong by itself. */
  function Tokens(rest: seq<string>): seq<Token> {
    if rest == [] then []
    else
      var (token, width) := FirstToken(rest);
      if token.Bad? then [token] else [token] + Tokens(rest[width..])
  }

  function Values(tokens: seq<Token>, k: Kind): seq<string> {
    if tokens == [] then []
    else
      var t := tokens[|tokens| - 1];
      Values(tokens[..|tokens| - 1], k) + if t.Token? && t.kind == k then [t.value] else []
  }

  // ── Parsing ───────────────────────────────────────────────────────────────

  /** The option variables of the parser. */
  datatype Seen = Seen(filePath: Option<string>, table: Option<string>, dbPath: Option<string>,
                       format: Option<string>, columnMap: seq<(string, string)>)

  const NOTHING := Seen(None, None, None, None, [])

  function Take(seen: Seen, t: Token): Result<Seen> {
    match t
    case Bad(e) => Err(e)
    case Token(Table, v) => if seen.table.Some? then Err(Repeated(Table)) else Ok(seen.(table := Some(v)))
    case Token(Db, v) => if seen.dbPath.Some? then Err(Repeated(Db)) else Ok(seen.(dbPath := Some(v)))
    case Token(Format, v) => if seen.format.Some? then Err(Repeated(Format)) else Ok(seen.(format := Some(v)))
    case Token(Path, v) => if seen.filePath.Some? then Err(Repeated(Path)) else Ok(seen.(filePath := Some(v)))
    case Token(Map, v) =>
      if seen.columnMap != [] then Err(Repeated(Map))
      else
        match ParseColumnMap(v)
        case Err(e) => Err(e)
        case Ok(m) => Ok(seen.(columnMap := m))
  }

  function TakeAll(tokens: seq<Token>): Result<Seen> {
    if tokens == [] then Ok(NOTHING)
    else
      match TakeAll(tokens[..|tokens| - 1])
      case Err(e) => Err(e)
      case Ok(seen) => Take(seen, tokens[|tokens| - 1])
  }

  function Finish(seen: Seen): Result<Args> {
    match seen
    case Seen(Some(f), Some(t), Some(d), format, m) => Ok(Args(f, t, d, format, m))
    case Seen(None, _, _, _, _) => Err(Missing(Path))
    case Seen(_, None, _, _, _) => Err(Missing(Table))
    case _ => Err(Missing(Db))
  }

  function Parsed(rest: seq<string>): Result<Args> {
    match TakeAll(Tokens(rest))
    case Err(e) => Err(e)
    case Ok(seen) => Finish(seen)
  }

  lemma {:induction false} TakeAllFails(tokens: seq<Token>, k: nat)
    requires k <= |tokens| && TakeAll(tokens[..k]).Err?
    ensures TakeAll(tokens) == TakeAll(tokens[..k])
  {
    if k == |tokens| {
      assert tokens[..k] == tokens;
    } else {
      assert tokens[..|tokens| - 1][..k] == tokens[..k];
      TakeAllFails(tokens[..|tokens| - 1], k);
    }
  }

  /** One more step of the loop. */
  lemma OneToken(rest: seq<string>, before: seq<Token>, i: nat, seen: Seen)
    requires i < |rest| && Tokens(rest) == before + Tokens(rest[i..]) && TakeAll(before) == Ok(seen)
    ensures var (t, width) := FirstToken(rest[i..]);
      match Take(seen, t)
      case Err(e) => Parsed(rest) == Err(e)
      case Ok(next) =>
        i + width <= |rest| && Tokens(rest) == before + [t] + Tokens(rest[i + width..]) && TakeAll(before + [t]) == Ok(next)
  {
    hide FirstToken;
    var (t, width) := FirstToken(rest[i..]);
    assert (before + [t])[..|before|] == before;
    if Take(seen, t).Err? {
      assert Tokens(rest)[..|before| + 1] == before + [t];
      TakeAllFails(Tokens(rest), |before| + 1);
    } else {
      assert rest[i..][width..] == rest[i + width..];
      assert before + ([t] + Tokens(rest[i + width..])) == before + [t] + Tokens(rest[i + width..]);
    }
  }

  /** The index-driven loop over the arguments. */
  method ParseIngestArgs(rest: seq<string>) returns (r: Result<Args>)
    ensures r == Parsed(rest)
  {
    var seen := NOTHING;
    ghost var before: seq<Token> := [];
    var i := 0;
    while i < |rest|
      invariant i <= |rest| && Tokens(rest) == before + Tokens(rest[i..])
      invariant TakeAll(before) == Ok(seen)
    {
      OneToken(rest, before, i, seen);
      var token, width := ReadToken(rest, i);
      hide *;
      var step := Take(seen, token);
      if step.Err? {
        return Err(step.error);
      }
      NotBad(seen, token);
      seen := step.value;
      before := before + [token];
      i := i + width;
    }
    assert before + [] == before;
    return Finish(seen);
  }

  method ReadToken(rest: seq<string>, i: nat) returns (token: Token, width: nat)
    requires i < |rest|
    ensures (token, width) == FirstToken(rest[i..])
  {
    hide FlagOf;
    match FlagOf(rest[i]) {
      case Some((kind, Some(value))) =>
        return Token(kind, value), 1;
      case Some((kind, None)) =>
        if i + 1 >= |rest| {
          return Bad(MissingValue(kind)), 1;
        }
        return Token(kind, rest[i + 1]), 2;
      case None =>
        if rest[i] == "-h" || rest[i] == "--help" {
          return Bad(Help), 1;
        }
        if "--" <= rest[i] {
          return Bad(UnknownFlag(rest[i])), 1;
        }
        return Token(Path, rest[i]), 1;
    }
  }

  lemma NotBad(seen: Seen, t: Token)
    requires Take(seen, t).Ok?
    ensures t.Token?
  {
  }

  // ── Which argument lists are accepted ─────────────────────────────────────

  function Optional(values: seq<string>): Option<string> {
    if values == [] then None else Some(values[0])
  }

  /** What the flags say, whatever their order: each at most once, three of them exactly once. */
  predicate Says(tokens: seq<Token>, args: Args) {
    && (forall t <- tokens :: t.Token?)
    && Values(tokens, Path) == [args.filePath]
    && Values(tokens, Table) == [args.table]
    && Values(tokens, Db) == [args.dbPath]
    && Values(tokens, Format) == (if args.format.Some? then [args.format.value] else [])
    && if Values(tokens, Map) == [] then args.columnMap == []
       else |Values(tokens, Map)| == 1 && ParseColumnMap(Values(tokens, Map)[0]) == Ok(args.columnMap)
  }

  ghost predicate Collected(tokens: seq<Token>, seen: Seen) {
    && (forall t <- tokens :: t.Token?)
    && (forall k :: |Values(tokens, k)| <= 1)
    && seen.filePath == Optional(Values(tokens, Path))
    && seen.table == Optional(Values(tokens, Table))
    && seen.dbPath == Optional(Values(tokens, Db))
    && seen.format == Optional(Values(tokens, Format))
    && if Values(tokens, Map) == [] then seen.columnMap == []
       else ParseColumnMap(Values(tokens, Map)[0]) == Ok(seen.columnMap)
  }

  lemma {:induction false} TakeAllCollects(tokens: seq<Token>, seen: Seen)
    ensures TakeAll(tokens) == Ok(seen) <==> Collected(tokens, seen)
  {
    hide ParseColumnMap;
    if tokens == [] {
      assert forall k :: Values(tokens, k) == [];
    } else {
      var before, t := tokens[..|tokens| - 1], tokens[|tokens| - 1];
      if TakeAll(tokens) == Ok(seen) {
        var was := TakeAll(before).value;
        TakeAllCollects(before, was);
        TakeCollects(tokens, was, seen);
      }
      if Collected(tokens, seen) {
        var was := Untake(tokens, seen);
        TakeAllCollects(before, was);
      }
    }
  }

  lemma TakeCollects(tokens: seq<Token>, was: Seen, seen: Seen)
    requires tokens != [] && Collected(tokens[..|tokens| - 1], was)
    requires Take(was, tokens[|tokens| - 1]) == Ok(seen)
    ensures Collected(tokens, seen)
  {
    hide Collected;
    hide Take;
    hide Values;
    hide ParseColumnMap;
    var before, t := tokens[..|tokens| - 1], tokens[|tokens| - 1];
    NoneTaken(before, was, t);
    OneMore(before, was);
    TakeMeans(was, t, seen);
    AllTokens(tokens);
    ValuesStep(tokens);
    CollectedOf(tokens, seen);
  }

  lemma TakeMeans(was: Seen, t: Token, seen: Seen)
    requires t.Token? && Take(was, t) == Ok(seen)
    ensures seen.filePath == (if t.kind == Path then Some(t.value) else was.filePath)
    ensures seen.table == (if t.kind == Table then Some(t.value) else was.table)
    ensures seen.dbPath == (if t.kind == Db then Some(t.value) else was.dbPath)
    ensures seen.format == (if t.kind == Format then Some(t.value) else was.format)
    ensures if t.kind == Map then ParseColumnMap(t.value) == Ok(seen.columnMap) else seen.columnMap == was.columnMap
  {
    hide ParseColumnMap;
  }

  lemma AllTokens(tokens: seq<Token>)
    requires tokens != [] && tokens[|tokens| - 1].Token? && forall x <- tokens[..|tokens| - 1] :: x.Token?
    ensures forall x <- tokens :: x.Token?
  {
    forall x <- tokens ensures x.Token? {
      assert x in tokens[..|tokens| - 1] || x == tokens[|tokens| - 1];
    }
  }

  lemma NoneTaken(tokens: seq<Token>, seen: Seen, t: Token)
    requires Collected(tokens, seen) && Take(seen, t).Ok?
    ensures t.Token? && Values(tokens, t.kind) == []
  {
    hide ParseColumnMap;
    hide Values;
  }

  lemma OneMore(tokens: seq<Token>, seen: Seen)
    requires Collected(tokens, seen)
    ensures (forall x <- tokens :: x.Token?) && forall k :: |Values(tokens, k)| <= 1
    ensures seen.filePath == Optional(Values(tokens, Path)) && seen.table == Optional(Values(tokens, Table))
    ensures seen.dbPath == Optional(Values(tokens, Db)) && seen.format == Optional(Values(tokens, Format))
    ensures if Values(tokens, Map) == [] then seen.columnMap == [] else ParseColumnMap(Values(tokens, Map)[0]) == Ok(seen.columnMap)
  {
    hide ParseColumnMap;
  }

  lemma CollectedOf(tokens: seq<Token>, seen: Seen)
    requires (forall x <- tokens :: x.Token?) && forall k :: |Values(tokens, k)| <= 1
    requires seen.filePath == Optional(Values(tokens, Path)) && seen.table == Optional(Values(tokens, Table))
    requires seen.dbPath == Optional(Values(tokens, Db)) && seen.format == Optional(Values(tokens, Format))
    requires if Values(tokens, Map) == [] then seen.columnMap == [] else ParseColumnMap(Values(tokens, Map)[0]) == Ok(seen.columnMap)
    ensures Collected(tokens, seen)
  {
    hide ParseColumnMap;
  }

  lemma ValuesStep(tokens: seq<Token>)
    requires tokens != []
    ensures var before, t := tokens[..|tokens| - 1], tokens[|tokens| - 1];
      forall k :: Values(tokens, k) == if t.Token? && t.kind == k then Values(before, k) + [t.value] else Values(before, k)
  {
  }

  lemma Untake(tokens: seq<Token>, seen: Seen) returns (was: Seen)
    requires tokens != [] && Collected(tokens, seen)
    ensures Collected(tokens[..|tokens| - 1], was) && Take(was, tokens[|tokens| - 1]) == Ok(seen)
  {
    hide ParseColumnMap;
    var before, t := tokens[..|tokens| - 1], tokens[|tokens| - 1];
    ValuesStep(tokens);
    assert t in tokens;
    assert forall x <- before :: x in tokens;
    was := match t.kind
      case Table => seen.(table := None)
      case Db => seen.(dbPath := None)
      case Format => seen.(format := None)
      case Path => seen.(filePath := None)
      case Map => seen.(columnMap := []);
    assert |Values(tokens, t.kind)| <= 1;
  }

  /** The parser accepts exactly the argument lists whose flags say the arguments, each once. */
  lemma AcceptedIff(rest: seq<string>, args: Args)
    ensures Parsed(rest) == Ok(args) <==> Says(Tokens(rest), args)
  {
    var tokens := Tokens(rest);
    hide Tokens;
    hide ParseColumnMap;
    if Parsed(rest) == Ok(args) {
      TakeAllCollects(tokens, TakeAll(tokens).value);
      hide TakeAll;
      assert forall k :: |Values(tokens, k)| <= 1;
    }
    if Says(tokens, args) {
      var seen := Seen(Some(args.filePath), Some(args.table), Some(args.dbPath), args.format, args.columnMap);
      forall k ensures |Values(tokens, k)| <= 1 {
        match k case Table => case Db => case Path => case Format => case Map =>
      }
      TakeAllCollects(tokens, seen);
    }
  }

  /** A flag given twice is always rejected, `--map` included. */
  lemma RepeatedIsRejected(rest: seq<string>, k: Kind)
    requires |Values(Tokens(rest), k)| > 1
    ensures Parsed(rest).Err?
  {
    if Parsed(rest).Ok? {
      AcceptedIff(rest, Parsed(rest).value);
      assert false;
    }
  }

  // ── Every way of writing the arguments ────────────────────────────────────

  /** One flag or positional as the user may type it. */
  datatype Item = Spaced(kind: Kind, value: string) | Joined(kind: Kind, value: string) | Positional(path: string)

  predicate Typable(item: Item) {
    if item.Positional? then !("--" <= item.path) && item.path != "-h" else item.kind != Path
  }

  function Typed(item: Item): seq<string>
    requires Typable(item)
  {
    match item
    case Spaced(k, v) => [FlagName(k), v]
    case Joined(k, v) => [FlagName(k) + "=" + v]
    case Positional(p) => [p]
  }

  function TokenOf(item: Item): Token {
    match item
    case Spaced(k, v) => Token(k, v)
    case Joined(k, v) => Token(k, v)
    case Positional(p) => Token(Path, p)
  }

  predicate AllTypable(items: seq<Item>) {
    forall i :: 0 <= i < |items| ==> Typable(items[i])
  }

  function CommandLine(items: seq<Item>): seq<string>
    requires AllTypable(items)
  {
    if items == [] then [] else Typed(items[0]) + CommandLine(items[1..])
  }

  function TokensOf(items: seq<Item>): (t: seq<Token>)
    ensures |t| == |items|
  {
    seq(|items|, i requires 0 <= i < |items| => TokenOf(items[i]))
  }

  lemma JoinedFlag(k: Kind, v: string)
    requires k != Path
    ensures FlagOf(FlagName(k) + "=" + v) == Some((k, Some(v))) && FlagOf(FlagName(k)) == Some((k, None))
  {
    var name := FlagName(k);
    FindAt('=', name, v);
    FindNot('=', name);
    assert name[..|name|] == name;
    assert (name + "=" + v)[..|name|] == name && (name + "=" + v)[|name| + 1..] == v;
  }

  lemma PlainArgument(arg: string)
    requires !("--" <= arg)
    ensures FlagOf(arg) == None
  {
    var name := arg[..Find('=', arg)];
    assert name <= arg;
  }

  lemma {:induction false} TokensOfTyped(items: seq<Item>)
    requires AllTypable(items)
    ensures Tokens(CommandLine(items)) == TokensOf(items)
  {
    if items != [] {
      TokensOfTyped(items[1..]);
      TypedFirst(items[0], CommandLine(items[1..]));
      assert TokensOf(items) == [TokenOf(items[0])] + TokensOf(items[1..]);
    }
  }

  lemma TypedFirst(item: Item, more: seq<string>)
    requires Typable(item)
    ensures Tokens(Typed(item) + more) == [TokenOf(item)] + Tokens(more)
  {
    var rest := Typed(item) + more;
    match item
    case Spaced(k, v) =>
      JoinedFlag(k, v);
      assert rest[2..] == more;
    case Joined(k, v) =>
      JoinedFlag(k, v);
      assert rest[1..] == more;
    case Positional(p) =>
      PlainArgument(p);
      assert rest[1..] == more;
  }

  /** Parsing inverts every rendering of the arguments, in any order and either spelling. */
  lemma ParseCommandLine(items: seq<Item>, args: Args)
    requires AllTypable(items)
    ensures Parsed(CommandLine(items)) == Ok(args) <==> Says(TokensOf(items), args)
  {
    TokensOfTyped(items);
    AcceptedIff(CommandLine(items), args);
  }

  lemma CountAppend<T>(s: seq<T>, x: T, y: T)
    ensures multiset(s + [x])[y] == multiset(s)[y] + if x == y then 1 else 0
  {
  }

  lemma {:induction false} ValuesCount(tokens: seq<Token>, k: Kind, v: string)
    ensures multiset(Values(tokens, k))[v] == multiset(tokens)[Token(k, v)]
  {
    if tokens != [] {
      var before, t := tokens[..|tokens| - 1], tokens[|tokens| - 1];
      ValuesCount(before, k, v);
      ValuesStep(tokens);
      hide Values;
      assert tokens == before + [t];
      CountAppend(before, t, Token(k, v));
      if t.Token? && t.kind == k {
        CountAppend(Values(before, k), t.value, v);
      }
    }
  }

  /** Typing the same flags in another order, or with the other spelling, changes nothing. */
  lemma OrderAndSpellingIrrelevant(items: seq<Item>, others: seq<Item>, args: Args)
    requires AllTypable(items) && AllTypable(others)
    requires multiset(TokensOf(items)) == multiset(TokensOf(others))
    ensures Parsed(CommandLine(items)) == Ok(args) <==> Parsed(CommandLine(others)) == Ok(args)
  {
    ParseCommandLine(items, args);
    ParseCommandLine(others, args);
    hide *;
    if Says(TokensOf(items), args) {
      SaysPermuted(TokensOf(items), TokensOf(others), args);
    }
    if Says(TokensOf(others), args) {
      SaysPermuted(TokensOf(others), TokensOf(items), args);
    }
  }

  lemma SaysPermuted(tokens: seq<Token>, others: seq<Token>, args: Args)
    requires multiset(tokens) == multiset(others) && Says(tokens, args)
    ensures Says(others, args)
  {
    hide ParseColumnMap;
    forall k ensures Values(others, k) == Values(tokens, k) {
      assert |Values(tokens, k)| <= 1 by {
        match k case Table => case Db => case Path => case Format => case Map =>
      }
      ValuesPermuted(tokens, others, k);
    }
    forall t <- others ensures t.Token? {
      assert t in multiset(others);
    }
  }

  lemma ValuesPermuted(tokens: seq<Token>, others: seq<Token>, k: Kind)
    requires multiset(tokens) == multiset(others) && |Values(tokens, k)| <= 1
    ensures Values(others, k) == Values(tokens, k)
  {
    var a, b := Values(tokens, k), Values(others, k);
    forall v ensures multiset(a)[v] == multiset(b)[v] {
      ValuesCount(tokens, k, v);
      ValuesCount(others, k, v);
    }
    hide *;
    SameSingleton(a, b);
  }

  lemma SameSingleton(a: seq<string>, b: seq<string>)
    requires |a| <= 1 && forall v :: multiset(a)[v] == multiset(b)[v]
    ensures a == b
  {
    assert multiset(a) == multiset(b);
    assert |multiset(a)| == |a| && |multiset(b)| == |b|;
    if |a| == 1 {
      assert a[0] in multiset(b);
      assert a[0] in b;
    }
  }
}

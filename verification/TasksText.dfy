/** Parsing `TASKS.md`: what the parser returns for any text, and that it reads back what is printed. */
module TasksText {
  import opened Text
  import opened TaskBoard
  import opened TaskLines

  /** A header and the lines up to the next one. */
  datatype Section = Section(header: Header, body: seq<string>)

  /** The sections of a file; lines before the first header belong to none. */
  function Sections(lines: seq<string>): (s: seq<Section>)
    ensures forall x <- s :: x.header.number < 1000
  {
    if lines == [] then []
    else
      var line, before := lines[|lines| - 1], Sections(lines[..|lines| - 1]);
      match ParseHeader(line)
      case Some(h) => before + [Section(h, [])]
      case None =>
        if before == [] then []
        else
          var last := before[|before| - 1];
          before[..|before| - 1] + [last.(body := last.body + [line])]
  }

  /** The dependencies the last dependency line names. */
  function Depends(body: seq<string>): (ids: seq<TaskId>)
    ensures forall id <- ids :: IsId(id)
  {
    if body == [] then []
    else if IsDepends(body[|body| - 1]) then ParseDepends(body[|body| - 1])
    else Depends(body[..|body| - 1])
  }

  /** What has been read of one section. */
  datatype Raw = Raw(header: Header, dependsOn: seq<TaskId>)

  function RawOf(s: Section): Raw {
    Raw(s.header, Depends(s.body))
  }

  predicate BothTags(h: Header) {
    "EASY" in h.tags && "HARD" in h.tags
  }

  function TaskOf(raw: Raw): Task {
    var h := raw.header;
    Task(IdOf(h.number), h.number, if h.number < 100 then 0 else h.number / 100, h.title, h.tags, raw.dependsOn)
  }

  datatype Parsed = Tasks(tasks: seq<Task>) | BothPools(id: TaskId)

  /** Python's `tasks[task.task_id] = task`: a known id keeps its place. */
  function Put(tasks: seq<Task>, t: Task): (r: seq<Task>)
    requires DistinctIds(tasks)
    ensures DistinctIds(r)
    ensures forall x :: x in r <==> x == t || (x in tasks && x.id != t.id)
  {
    if tasks == [] then [t]
    else if tasks[0].id == t.id then [t] + tasks[1..]
    else
      var rest := Put(tasks[1..], t);
      assert forall x <- rest :: x.id != tasks[0].id by {
        assert forall x <- tasks[1..] :: x.id != tasks[0].id;
      }
      [tasks[0]] + rest
  }

  function Collect(sections: seq<Section>): (r: Parsed)
    ensures r.Tasks? ==> DistinctIds(r.tasks)
  {
    if sections == [] then Tasks([])
    else
      var last := sections[|sections| - 1];
      match Collect(sections[..|sections| - 1])
      case BothPools(id) => BothPools(id)
      case Tasks(tasks) => Materialize(tasks, RawOf(last))
  }

  function ParseText(markdown: string): Parsed {
    Collect(Sections(SplitLines(markdown)))
  }

  /** `_materialize_task` and the assignment of its result. */
  function Materialize(tasks: seq<Task>, raw: Raw): (r: Parsed)
    requires DistinctIds(tasks)
    ensures r.Tasks? ==> DistinctIds(r.tasks)
  {
    if BothTags(raw.header) then BothPools(IdOf(raw.header.number)) else Tasks(Put(tasks, TaskOf(raw)))
  }

  /** More lines only add to the last section or after it. */
  predicate Continues(s: seq<Section>, t: seq<Section>) {
    0 < |s| <= |t| && s[..|s| - 1] == t[..|s| - 1] && s[|s| - 1].header == t[|s| - 1].header
  }

  lemma {:induction false} SectionsGrow(lines: seq<string>, k: nat)
    requires k <= |lines| && Sections(lines[..k]) != []
    ensures Continues(Sections(lines[..k]), Sections(lines))
    decreases |lines|
  {
    if k == |lines| {
      assert lines[..k] == lines;
    } else {
      var shorter := lines[..|lines| - 1];
      assert shorter[..k] == lines[..k];
      SectionsGrow(shorter, k);
      SectionsStep(lines);
      hide Sections;
      ContinuesTransitive(Sections(lines[..k]), Sections(shorter), Sections(lines));
    }
  }

  lemma SectionsStep(lines: seq<string>)
    requires lines != [] && Sections(lines[..|lines| - 1]) != []
    ensures Continues(Sections(lines[..|lines| - 1]), Sections(lines))
  {
    hide ParseHeader;
    var line, s := lines[|lines| - 1], Sections(lines[..|lines| - 1]);
    hide Continues;
    var x := if ParseHeader(line).Some? then Section(ParseHeader(line).value, [])
             else s[|s| - 1].(body := s[|s| - 1].body + [line]);
    assert Sections(lines) == (if ParseHeader(line).Some? then s else s[..|s| - 1]) + [x];
    hide Sections;
    ContinuesOne(s, Sections(lines), x);
  }

  lemma ContinuesOne(s: seq<Section>, t: seq<Section>, x: Section)
    requires s != []
    requires t == s + [x] || (t == s[..|s| - 1] + [x] && x.header == s[|s| - 1].header)
    ensures Continues(s, t)
  {
  }

  lemma ContinuesTransitive(s: seq<Section>, t: seq<Section>, u: seq<Section>)
    requires Continues(s, t) && Continues(t, u)
    ensures Continues(s, u)
  {
    var n := |s| - 1;
    assert t[..|t| - 1][..n] == t[..n] && u[..|t| - 1][..n] == u[..n];
    if |s| < |t| {
      assert t[..|t| - 1][n] == u[..|t| - 1][n];
    }
  }

  lemma {:induction false} ConflictStays(sections: seq<Section>, k: nat)
    requires k <= |sections| && Collect(sections[..k]).BothPools?
    ensures Collect(sections) == Collect(sections[..k])
  {
    if k == |sections| {
      assert sections[..k] == sections;
    } else {
      assert sections[..|sections| - 1][..k] == sections[..k];
      ConflictStays(sections[..|sections| - 1], k);
    }
  }

  /** A section already closed that has both tags decides the result. */
  lemma FirstConflict(lines: seq<string>, k: nat)
    requires k <= |lines| && Sections(lines[..k]) != []
    requires var s := Sections(lines[..k]); Collect(s[..|s| - 1]).Tasks? && BothTags(s[|s| - 1].header)
    ensures var s := Sections(lines[..k]); Collect(Sections(lines)) == BothPools(IdOf(s[|s| - 1].header.number))
  {
    SectionsGrow(lines, k);
    var s, all := Sections(lines[..k]), Sections(lines);
    hide Sections;
    var upto := all[..|s|];
    assert upto[..|s| - 1] == s[..|s| - 1];
    ConflictStays(all, |s|);
  }

  /** The state of the parser after some lines. */
  ghost predicate Parsing(lines: seq<string>, tasks: seq<Task>, current: Option<Raw>) {
    var s := Sections(lines);
    if s == [] then current == None && tasks == []
    else current == Some(RawOf(s[|s| - 1])) && Collect(s[..|s| - 1]) == Tasks(tasks)
  }

  lemma ParsingHeader(lines: seq<string>, tasks: seq<Task>, current: Option<Raw>, line: string)
    requires Parsing(lines, tasks, current) && ParseHeader(line).Some?
    ensures current == None ==> Parsing(lines + [line], [], Some(Raw(ParseHeader(line).value, [])))
    ensures current.Some? && !BothTags(current.value.header) ==>
      DistinctIds(tasks) && Parsing(lines + [line], Put(tasks, TaskOf(current.value)), Some(Raw(ParseHeader(line).value, [])))
  {
    assert (lines + [line])[..|lines|] == lines;
    var s, t := Sections(lines), Sections(lines + [line]);
    assert t[..|t| - 1] == s;
  }

  lemma ParsingBody(lines: seq<string>, tasks: seq<Task>, current: Option<Raw>, line: string)
    requires Parsing(lines, tasks, current) && ParseHeader(line) == None
    ensures Parsing(lines + [line], tasks,
      if current.Some? && IsDepends(line) then Some(current.value.(dependsOn := ParseDepends(line))) else current)
  {
    assert (lines + [line])[..|lines|] == lines;
    var s, t := Sections(lines), Sections(lines + [line]);
    if s != [] {
      assert t[..|t| - 1] == s[..|s| - 1];
      var body := s[|s| - 1].body;
      assert (body + [line])[..|body|] == body;
    }
  }

  method ParseTasksText(markdown: string) returns (r: Parsed)
    ensures r == ParseText(markdown)
  {
    var lines := SplitLines(markdown);
    var tasks: seq<Task> := [];
    var current: Option<Raw> := None;
    assert Parsing([], tasks, current);
    for k := 0 to |lines|
      invariant Parsing(lines[..k], tasks, current)
      invariant DistinctIds(tasks)
    {
      hide *;
      var line := lines[k];
      assert lines[..k + 1] == lines[..k] + [line];
      var header := ParseHeader(line);
      if header.Some? {
        ParsingHeader(lines[..k], tasks, current, line);
        if current.Some? {
          if BothTags(current.value.header) {
            ParsingConflict(lines, k, tasks, current);
            return BothPools(IdOf(current.value.header.number));
          }
          tasks := Put(tasks, TaskOf(current.value));
        } else {
          ParsingNothing(lines[..k], tasks);
        }
        current := Some(Raw(header.value, []));
        continue;
      }
      ParsingBody(lines[..k], tasks, current, line);
      if current.Some? && IsDepends(line) {
        current := Some(current.value.(dependsOn := ParseDepends(line)));
      }
    }
    assert lines[..|lines|] == lines;
    if current.Some? {
      return Materialize(tasks, current.value);
    }
    return Tasks(tasks);
  }

  lemma ParsingNothing(lines: seq<string>, tasks: seq<Task>)
    requires Parsing(lines, tasks, None)
    ensures tasks == []
  {
  }

  lemma ParsingConflict(lines: seq<string>, k: nat, tasks: seq<Task>, current: Option<Raw>)
    requires k <= |lines| && Parsing(lines[..k], tasks, current) && current.Some? && BothTags(current.value.header)
    ensures Collect(Sections(lines)) == BothPools(IdOf(current.value.header.number))
  {
    FirstConflict(lines, k);
  }

  // ── What any text parses to ───────────────────────────────────────────────

  predicate Sound(t: Task) {
    && t.number < 1000 && t.id == IdOf(t.number) && t.wave == t.number / 100
    && !("EASY" in t.tags && "HARD" in t.tags)
    && (forall d <- t.dependsOn :: IsId(d))
  }

  lemma {:induction false} CollectSound(sections: seq<Section>)
    requires forall s <- sections :: s.header.number < 1000
    ensures var r := Collect(sections); r.Tasks? ==> forall t <- r.tasks :: Sound(t)
  {
    if sections != [] {
      CollectSound(sections[..|sections| - 1]);
      assert sections[|sections| - 1] in sections;
    }
  }

  /** Whatever the text, a successful parse gives tasks with distinct ids, each in the wave of its
      number and in at most one pool. */
  lemma ParsedSound(markdown: string)
    ensures var r := ParseText(markdown);
      r.Tasks? ==> DistinctIds(r.tasks) && forall t <- r.tasks :: Sound(t)
  {
    CollectSound(Sections(SplitLines(markdown)));
  }

  predicate FirstBoth(sections: seq<Section>, k: nat)
    requires k < |sections|
  {
    BothTags(sections[k].header) && forall j :: 0 <= j < k ==> !BothTags(sections[j].header)
  }

  lemma {:induction false} CollectConflict(sections: seq<Section>)
    ensures match Collect(sections)
      case BothPools(id) => exists k :: 0 <= k < |sections| && FirstBoth(sections, k) && id == IdOf(sections[k].header.number)
      case Tasks(_) => forall k :: 0 <= k < |sections| ==> !BothTags(sections[k].header)
  {
    hide BothTags;
    hide IdOf;
    if sections != [] {
      var n := |sections| - 1;
      var shorter := sections[..n];
      CollectConflict(shorter);
      match Collect(shorter)
      case BothPools(id) =>
        var k :| 0 <= k < n && FirstBoth(shorter, k) && id == IdOf(shorter[k].header.number);
        assert FirstBoth(sections, k);
      case Tasks(_) =>
        ClosingConflict(sections);
    }
  }

  lemma ClosingConflict(sections: seq<Section>)
    requires sections != []
    requires var shorter := sections[..|sections| - 1]; forall k :: 0 <= k < |shorter| ==> !BothTags(shorter[k].header)
    ensures BothTags(sections[|sections| - 1].header) ==> FirstBoth(sections, |sections| - 1)
    ensures forall k :: 0 <= k < |sections| - 1 ==> !BothTags(sections[k].header)
  {
    hide BothTags;
    var shorter := sections[..|sections| - 1];
    forall k | 0 <= k < |sections| - 1 ensures !BothTags(sections[k].header) {
      assert shorter[k] == sections[k];
    }
  }

  /** A task tagged for both pools is always rejected, by the name of the first such section, and
      nothing else ever is. */
  lemma RejectedIff(markdown: string)
    ensures var s, r := Sections(SplitLines(markdown)), ParseText(markdown);
      && (r.BothPools? <==> exists k :: 0 <= k < |s| && BothTags(s[k].header))
      && (r.BothPools? ==> exists k :: 0 <= k < |s| && FirstBoth(s, k) && r.id == IdOf(s[k].header.number))
  {
    CollectConflict(Sections(SplitLines(markdown)));
  }

  predicate LastOfItsId(sections: seq<Section>, k: nat, t: Task)
    requires k < |sections|
  {
    && t == TaskOf(RawOf(sections[k]))
    && forall j :: k < j < |sections| ==> IdOf(sections[j].header.number) != t.id
  }

  ghost predicate Chosen(sections: seq<Section>, t: Task) {
    exists k :: 0 <= k < |sections| && LastOfItsId(sections, k, t)
  }

  lemma ChosenStep(sections: seq<Section>, t: Task)
    requires sections != []
    ensures var last := TaskOf(RawOf(sections[|sections| - 1]));
      Chosen(sections, t) <==> t == last || (Chosen(sections[..|sections| - 1], t) && t.id != last.id)
  {
    hide TaskOf;
    hide RawOf;
    var n := |sections| - 1;
    var shorter, last := sections[..n], TaskOf(RawOf(sections[n]));
    LastId(sections[n]);
    if Chosen(sections, t) {
      var k :| 0 <= k < |sections| && LastOfItsId(sections, k, t);
      if k < n {
        assert LastOfItsId(shorter, k, t);
      }
    }
    if t == last {
      assert LastOfItsId(sections, n, t);
    }
    if Chosen(shorter, t) && t.id != last.id {
      var k :| 0 <= k < n && LastOfItsId(shorter, k, t);
      forall j | k < j < |sections| ensures IdOf(sections[j].header.number) != t.id {
        if j < n {
          assert shorter[j] == sections[j];
        }
      }
      assert LastOfItsId(sections, k, t);
    }
  }

  lemma LastId(s: Section)
    ensures TaskOf(RawOf(s)).id == IdOf(s.header.number)
  {
  }

  lemma {:induction false} CollectMembers(sections: seq<Section>, t: Task)
    requires Collect(sections).Tasks?
    ensures t in Collect(sections).tasks <==> Chosen(sections, t)
  {
    if sections != [] {
      hide TaskOf;
      hide RawOf;
      CollectMembers(sections[..|sections| - 1], t);
      ChosenStep(sections, t);
    }
  }

  /** The tasks are those of the sections that are the last of their id, each with the
      dependencies of its last dependency line. */
  lemma LastSectionWins(markdown: string, t: Task)
    requires ParseText(markdown).Tasks?
    ensures t in ParseText(markdown).tasks <==> Chosen(Sections(SplitLines(markdown)), t)
  {
    CollectMembers(Sections(SplitLines(markdown)), t);
  }

  // ── Reading back what was printed ─────────────────────────────────────────

  /** A task as it may be written down: white space around the title, and lines of any other kind
      before and after its dependency line, earlier dependency lines included. */
  datatype Entry = Entry(task: Task, gap: string, trail: string, before: seq<string>, after: seq<string>)

  function HeaderOf(t: Task): Header {
    Header(t.number, t.tags, t.title)
  }

  predicate Plain(line: string) {
    OneLine(line) && ParseHeader(line) == None
  }

  predicate AllPlain(lines: seq<string>) {
    forall l <- lines :: Plain(l)
  }

  predicate Printable(e: Entry) {
    && Sound(e.task) && Writable(HeaderOf(e.task), e.gap, e.trail)
    && AllPlain(e.before) && AllPlain(e.after) && (forall l <- e.after :: !IsDepends(l))
  }

  predicate AllPrintable(entries: seq<Entry>) {
    forall i :: 0 <= i < |entries| ==> Printable(entries[i])
  }

  function Printed(e: Entry): seq<string>
    requires Printable(e)
  {
    [HeaderLine(HeaderOf(e.task), e.gap, e.trail)] + (e.before + [DependsLine(e.task.dependsOn)] + e.after)
  }

  function PrintAll(preamble: seq<string>, entries: seq<Entry>): seq<string>
    requires AllPrintable(entries)
  {
    if entries == [] then preamble
    else PrintAll(preamble, entries[..|entries| - 1]) + Printed(entries[|entries| - 1])
  }

  function TasksOf(entries: seq<Entry>): (t: seq<Task>)
    ensures |t| == |entries| && forall i :: 0 <= i < |t| ==> t[i] == entries[i].task
  {
    seq(|entries|, i requires 0 <= i < |entries| => entries[i].task)
  }

  lemma {:induction false} SectionsBody(lines: seq<string>, header: string, body: seq<string>)
    requires ParseHeader(header).Some? && AllPlain(body)
    ensures Sections(lines + [header] + body) == Sections(lines) + [Section(ParseHeader(header).value, body)]
  {
    var all := lines + [header] + body;
    hide ParseHeader;
    if body == [] {
      assert all[..|all| - 1] == lines;
    } else {
      var init, last := body[..|body| - 1], body[|body| - 1];
      SectionsBody(lines, header, init);
      assert Plain(last) && init + [last] == body;
      assert all[..|all| - 1] == lines + [header] + init;
      BodyStep(all, Sections(lines), ParseHeader(header).value, init);
    }
  }

  lemma BodyStep(lines: seq<string>, before: seq<Section>, h: Header, body: seq<string>)
    requires lines != [] && Plain(lines[|lines| - 1])
    requires Sections(lines[..|lines| - 1]) == before + [Section(h, body)]
    ensures Sections(lines) == before + [Section(h, body + [lines[|lines| - 1]])]
  {
    hide ParseHeader;
    assert (before + [Section(h, body)])[..|before|] == before;
  }

  lemma {:induction false} SectionsPreamble(lines: seq<string>)
    requires AllPlain(lines)
    ensures Sections(lines) == []
  {
    if lines != [] {
      assert Plain(lines[|lines| - 1]);
      SectionsPreamble(lines[..|lines| - 1]);
    }
  }

  lemma {:induction false} DependsAfter(body: seq<string>, ids: seq<TaskId>, after: seq<string>)
    requires (forall id <- ids :: IsId(id)) && forall l <- after :: !IsDepends(l)
    ensures Depends(body + [DependsLine(ids)] + after) == ids
  {
    var all := body + [DependsLine(ids)] + after;
    if after == [] {
      ParseDependsLine(ids);
    } else {
      assert all[|all| - 1] == after[|after| - 1] && after[|after| - 1] in after;
      DependsAfter(body, ids, after[..|after| - 1]);
      assert all[..|all| - 1] == body + [DependsLine(ids)] + after[..|after| - 1];
    }
  }

  lemma DependsLinePlain(ids: seq<TaskId>)
    requires forall id <- ids :: IsId(id)
    ensures Plain(DependsLine(ids))
  {
    ParseDependsLine(ids);
    assert DependsLine(ids)[0] == '*';
  }

  lemma SectionsEntry(lines: seq<string>, e: Entry)
    requires Printable(e)
    ensures exists x :: Sections(lines + Printed(e)) == Sections(lines) + [x] && Reads(x, e.task)
  {
    var header := HeaderLine(HeaderOf(e.task), e.gap, e.trail);
    var body := e.before + [DependsLine(e.task.dependsOn)] + e.after;
    ParseHeaderLine(HeaderOf(e.task), e.gap, e.trail);
    DependsLinePlain(e.task.dependsOn);
    DependsAfter(e.before, e.task.dependsOn, e.after);
    var x := Section(HeaderOf(e.task), body);
    assert Reads(x, e.task);
    assert AllPlain(body);
    hide *;
    SectionsBody(lines, header, body);
    PrintedShape(lines, e);
  }

  lemma PrintedShape(lines: seq<string>, e: Entry)
    requires Printable(e)
    ensures lines + Printed(e) == lines + [HeaderLine(HeaderOf(e.task), e.gap, e.trail)]
      + (e.before + [DependsLine(e.task.dependsOn)] + e.after)
  {
    hide HeaderLine;
    hide DependsLine;
    hide Printable;
  }

  predicate Reads(x: Section, t: Task) {
    RawOf(x) == Raw(HeaderOf(t), t.dependsOn) && TaskOf(RawOf(x)) == t
  }

  lemma {:induction false} CollectPrinted(preamble: seq<string>, entries: seq<Entry>)
    requires AllPlain(preamble) && AllPrintable(entries)
    requires DistinctIds(TasksOf(entries))
    ensures Collect(Sections(PrintAll(preamble, entries))) == Tasks(TasksOf(entries))
  {
    if entries == [] {
      SectionsPreamble(preamble);
    } else {
      var init, last := entries[..|entries| - 1], entries[|entries| - 1];
      ShorterDistinct(entries);
      CollectPrinted(preamble, init);
      SectionsEntry(PrintAll(preamble, init), last);
      var s := Sections(PrintAll(preamble, init));
      var x :| Sections(PrintAll(preamble, entries)) == s + [x] && Reads(x, last.task);
      PutNew(TasksOf(init), last.task);
      CollectOne(s, x, TasksOf(init), last.task);
    }
  }

  lemma CollectOne(s: seq<Section>, x: Section, tasks: seq<Task>, t: Task)
    requires Collect(s) == Tasks(tasks) && Reads(x, t) && Sound(t)
    ensures DistinctIds(tasks) && Collect(s + [x]) == Tasks(Put(tasks, t))
  {
    assert (s + [x])[..|s|] == s;
  }

  lemma ShorterDistinct(entries: seq<Entry>)
    requires entries != [] && DistinctIds(TasksOf(entries))
    ensures var init, last := entries[..|entries| - 1], entries[|entries| - 1];
      && DistinctIds(TasksOf(init)) && TasksOf(entries) == TasksOf(init) + [last.task]
      && forall x <- TasksOf(init) :: x.id != last.task.id
  {
    var n := |entries| - 1;
    assert TasksOf(entries[..n]) == TasksOf(entries)[..n];
    assert TasksOf(entries)[n] == entries[n].task;
  }

  lemma {:induction false} PutNew(tasks: seq<Task>, t: Task)
    requires DistinctIds(tasks) && forall x <- tasks :: x.id != t.id
    ensures Put(tasks, t) == tasks + [t]
  {
    if tasks != [] {
      PutNew(tasks[1..], t);
    }
  }

  lemma {:induction false} PrintedLines(preamble: seq<string>, entries: seq<Entry>)
    requires AllPlain(preamble) && AllPrintable(entries)
    ensures forall l <- PrintAll(preamble, entries) :: OneLine(l)
  {
    if entries != [] {
      var e := entries[|entries| - 1];
      assert Printable(e);
      PrintedLines(preamble, entries[..|entries| - 1]);
      OneLineHeader(HeaderOf(e.task), e.gap, e.trail);
      ParseDependsLine(e.task.dependsOn);
    }
  }

  /** A task whose id is known takes the place of the one before it. */
  lemma {:induction false} PutKnown(tasks: seq<Task>, t: Task, i: nat)
    requires DistinctIds(tasks) && i < |tasks| && tasks[i].id == t.id
    ensures Put(tasks, t) == tasks[i := t]
  {
    if i > 0 {
      assert tasks[0].id != tasks[i].id;
      PutKnown(tasks[1..], t, i - 1);
    }
  }

  /** Printing any tasks with distinct ids and parsing the text gives exactly those tasks, in order. */
  lemma ParsePrinted(preamble: seq<string>, entries: seq<Entry>)
    requires AllPlain(preamble) && AllPrintable(entries)
    requires DistinctIds(TasksOf(entries))
    ensures ParseText(Terminated(PrintAll(preamble, entries))) == Tasks(TasksOf(entries))
  {
    PrintedLines(preamble, entries);
    SplitTerminated(PrintAll(preamble, entries));
    CollectPrinted(preamble, entries);
  }
}

/**
 * The link-block scanner of src/utils/parse-files.ts (repeated verbatim in
 * src/_utils.ts): for every link to the current page, the file's cached text is
 * split into lines and read forward from the link's line up to the first empty
 * line, collecting the lines that the older, dash-only todo regex accepts.
 */
module ParseFiles {
  import opened Options
  import opened JsText
  import opened LineGrammar
  import opened FileLines

  // ---------------------------------------------------------------------------
  // The older line regexes:
  //   lineIsTodo               `^\s*\-\s\[(\s|x)\]`
  //   todoLineIsChecked        `^\s*\-\s\[(\s|x)\]` with group 1 equal to `x`
  //   extractTextFromTodoLine  `^\s*\-\s\[(\s|x)\]\s?(.*)$`, group 2

  /** `\s*\-\s\[` at `line[..m + 2]`, then a blank or `x` and `]`. */
  predicate DashTodoAt(line: string, p: int, m: int) {
    && HeadAt(line, DashOnly, p, m)
    && m + 3 < |line|
    && (IsWhite(line[m + 2]) || line[m + 2] == 'x')
    && line[m + 3] == ']'
  }

  /** The status character of a dash todo, found by the head scan. */
  function DashStatus(line: string): (r: Option<Head>)
    ensures r.Some? ==> DashTodoAt(line, r.value.indent, r.value.markerEnd)
  {
    match ParseHead(line, DashOnly)
    case None => None
    case Some(hd) =>
      if DashTodoAt(line, hd.indent, hd.markerEnd) then Some(hd) else None
  }

  /** The scan finds the match whenever there is one, so the match is unique. */
  lemma DashStatusComplete(line: string, p: int, m: int)
    requires DashTodoAt(line, p, m)
    ensures DashStatus(line) == Some(Head(p, m))
  {
    ParseHeadComplete(line, DashOnly, p, m);
  }

  /** `lineIsTodo`: optional blanks, `-`, one blank, and `[ ]`-style status that is a blank or `x`. */
  function LineIsTodo(line: string): bool {
    DashStatus(line).Some?
  }

  lemma LineIsTodoIff(line: string)
    ensures LineIsTodo(line) <==> exists p, m :: DashTodoAt(line, p, m)
  {
    if exists p, m :: DashTodoAt(line, p, m) {
      var p, m :| DashTodoAt(line, p, m);
      DashStatusComplete(line, p, m);
    }
  }

  /** `todoLineIsChecked`: the line is a todo and its status is `x`. */
  function DashLineIsChecked(line: string): (r: bool)
    ensures r ==> LineIsTodo(line)
  {
    var r := DashStatus(line);
    r.Some? && line[r.value.StatusIndex()] == 'x'
  }

  lemma DashLineIsCheckedIff(line: string)
    ensures DashLineIsChecked(line) <==> exists p, m :: DashTodoAt(line, p, m) && line[m + 2] == 'x'
  {
    if exists p, m :: DashTodoAt(line, p, m) && line[m + 2] == 'x' {
      var p, m :| DashTodoAt(line, p, m) && line[m + 2] == 'x';
      DashStatusComplete(line, p, m);
    }
  }

  /**
   * `(\s)?(.*)$` after `]` at `line[m + 4..]`: the text starts at `j`, which
   * skips at most one blank, and runs to the end without a line terminator.
   */
  predicate DashTextAt(line: string, p: int, m: int, j: int) {
    && DashTodoAt(line, p, m)
    && (j == m + 4 || (j == m + 5 && m + 4 < |line| && IsWhite(line[m + 4])))
    && NoLineTerminatorFrom(line, j)
  }

  /** Where the text starts after the `]` at `m + 3`: behind one blank when there is one. */
  function TextStart(line: string, m: int): int {
    if 0 <= m + 4 < |line| && IsWhite(line[m + 4]) then m + 5 else m + 4
  }

  /**
   * `extractTextFromTodoLine`: the rest of the line after `]` and one optional
   * blank. The greedy `\s?` takes the blank when there is one; giving it back
   * never helps, because the blank would then have to be matched by `.`.
   */
  function DashExtractText(line: string): (r: Option<string>)
    ensures r.Some? ==> LineIsTodo(line)
  {
    match DashStatus(line)
    case None => None
    case Some(hd) =>
      var j := TextStart(line, hd.markerEnd);
      if NoLineTerminatorFrom(line, j) then Some(line[j..]) else None
  }

  /** The text is defined exactly when the whole pattern matches, and is the rest of the line from `TextStart`. */
  lemma DashExtractTextIff(line: string)
    ensures DashExtractText(line).Some? <==> exists p, m, j :: DashTextAt(line, p, m, j)
    ensures forall p, m :: DashTodoAt(line, p, m) && DashExtractText(line).Some? ==>
              DashExtractText(line) == Some(line[TextStart(line, m)..])
    ensures DashExtractText(line).Some? ==> EndsWith(line, DashExtractText(line).value)
  {
    match DashStatus(line)
    case None =>
      if exists p, m, j :: DashTextAt(line, p, m, j) {
        var p, m, j :| DashTextAt(line, p, m, j);
        DashStatusComplete(line, p, m);
      }
    case Some(hd) =>
      var m := hd.markerEnd;
      var j := TextStart(line, m);
      forall p', m' | DashTodoAt(line, p', m') ensures m' == m {
        DashStatusComplete(line, p', m');
      }
      forall j' | DashTextAt(line, hd.indent, m, j') ensures NoLineTerminatorFrom(line, j) {
        if j == m + 5 && j' == m + 4 {
          LineTerminatorIsWhite(line[m + 4]);
        }
      }
      if NoLineTerminatorFrom(line, j) {
        assert DashTextAt(line, hd.indent, m, j);
      }
  }

  // ---------------------------------------------------------------------------
  // The scan of one link block.

  /** One entry of the older todo list: status, text (undefined when the text regex fails), file path and line. */
  datatype LinkTodo = LinkTodo(checked: bool, text: Option<string>, file: string, line: nat)

  /** The entry the scan makes for line `i` of a file. */
  function TodoOfLine(lines: seq<string>, path: string, i: nat): LinkTodo
    requires i < |lines|
  {
    LinkTodo(DashLineIsChecked(lines[i]), DashExtractText(lines[i]), path, i)
  }

  /** The index of the first empty line at or after `i`, or the number of lines. */
  function BlockEnd(lines: seq<string>, i: nat): (e: nat)
    ensures e == i || i < e <= |lines|
    ensures i < |lines| ==> e <= |lines|
    ensures forall k :: i <= k < e ==> |lines[k]| > 0
    ensures e < |lines| ==> |lines[e]| == 0
    decreases |lines| - i
  {
    if i >= |lines| || |lines[i]| == 0 then i else BlockEnd(lines, i + 1)
  }

  /** The entries of the todo lines from line `i` up to the first empty line. */
  function BlockTodos(lines: seq<string>, path: string, i: nat): seq<LinkTodo>
    decreases |lines| - i
  {
    if i >= |lines| || |lines[i]| == 0 then []
    else (if LineIsTodo(lines[i]) then [TodoOfLine(lines, path, i)] else []) + BlockTodos(lines, path, i + 1)
  }

  /** A cached file: its name, path, cached text (absent when not cached) and the links its metadata lists. */
  datatype LinkRef = LinkRef(link: string, startLine: nat)
  datatype SourceFile = SourceFile(name: string, path: string, cachedData: Option<string>, links: Option<seq<LinkRef>>)

  /** What `findAllTodosFromLinkBlock` returns: nothing for an absent or empty cached text, else the block's todos. */
  function LinkBlockTodos(file: SourceFile, start: nat): seq<LinkTodo> {
    match file.cachedData
    case None => []
    case Some(data) => if data == [] then [] else BlockTodos(GetAllLinesFromFile(data), file.path, start)
  }

  /** `findAllTodosFromLinkBlock`: the forward loop from the link's line that breaks at the first empty line. */
  method FindAllTodosFromLinkBlock(file: SourceFile, link: LinkRef) returns (todos: seq<LinkTodo>)
    ensures todos == LinkBlockTodos(file, link.startLine)
  {
    if file.cachedData.None? || file.cachedData.value == [] {
      return [];
    }
    var fileLines := GetAllLinesFromFile(file.cachedData.value);
    ghost var block := BlockTodos(fileLines, file.path, link.startLine);
    assert block == LinkBlockTodos(file, link.startLine);
    todos := [];
    var i := link.startLine;
    while i < |fileLines|
      invariant todos + BlockTodos(fileLines, file.path, i) == block
      decreases |fileLines| - i
    {
      var line := fileLines[i];
      if |line| == 0 {
        break;
      }
      if LineIsTodo(line) {
        var todo := LinkTodo(DashLineIsChecked(line), DashExtractText(line), file.path, i);
        BlockTodosTodoLine(fileLines, file.path, i, todos, todo);
        todos := todos + [todo];
      } else {
        BlockTodosPlainLine(fileLines, file.path, i);
      }
      i := i + 1;
    }
    BlockTodosAtEnd(fileLines, file.path, i, todos);
  }

  /** One step of the scan: an empty line ends the block, any other line is taken when it is a todo. */
  lemma BlockTodosStep(lines: seq<string>, path: string, i: nat)
    ensures i >= |lines| || |lines[i]| == 0 ==> BlockTodos(lines, path, i) == []
    ensures i < |lines| && |lines[i]| > 0 ==>
      BlockTodos(lines, path, i)
        == (if LineIsTodo(lines[i]) then [TodoOfLine(lines, path, i)] else []) + BlockTodos(lines, path, i + 1)
  {
  }

  /** A todo line inside the block: its entry moves from the block to the list. */
  lemma BlockTodosTodoLine(lines: seq<string>, path: string, i: nat, todos: seq<LinkTodo>, todo: LinkTodo)
    requires i < |lines| && |lines[i]| > 0 && LineIsTodo(lines[i])
    requires todo == LinkTodo(DashLineIsChecked(lines[i]), DashExtractText(lines[i]), path, i)
    ensures todos + BlockTodos(lines, path, i) == (todos + [todo]) + BlockTodos(lines, path, i + 1)
  {
    BlockTodosStep(lines, path, i);
    assert todo == TodoOfLine(lines, path, i);
  }

  /** A non-empty line of the block that is not a todo adds nothing. */
  lemma BlockTodosPlainLine(lines: seq<string>, path: string, i: nat)
    requires i < |lines| && |lines[i]| > 0 && !LineIsTodo(lines[i])
    ensures BlockTodos(lines, path, i) == BlockTodos(lines, path, i + 1)
  {
    BlockTodosStep(lines, path, i);
  }

  /** At the end of the lines or at an empty line the block has nothing more. */
  lemma BlockTodosAtEnd(lines: seq<string>, path: string, i: nat, todos: seq<LinkTodo>)
    requires i >= |lines| || |lines[i]| == 0
    ensures todos + BlockTodos(lines, path, i) == todos
  {
    BlockTodosStep(lines, path, i);
  }

  /** The entries have strictly increasing lines, all between the start line and the first empty line. */
  lemma {:induction false} BlockTodosOrdered(lines: seq<string>, path: string, i: nat)
    ensures var r := BlockTodos(lines, path, i);
      && (forall k :: 0 <= k < |r| ==> i <= r[k].line < BlockEnd(lines, i))
      && (forall a, b :: 0 <= a < b < |r| ==> r[a].line < r[b].line)
    decreases |lines| - i
  {
    BlockTodosStep(lines, path, i);
    if i < |lines| && |lines[i]| > 0 {
      BlockTodosOrdered(lines, path, i + 1);
    }
  }

  /** Each entry is the one made from its own line. */
  lemma {:induction false} BlockTodosEntries(lines: seq<string>, path: string, i: nat)
    ensures var r := BlockTodos(lines, path, i);
      forall k :: 0 <= k < |r| ==> r[k].line < |lines| && r[k] == TodoOfLine(lines, path, r[k].line)
    decreases |lines| - i
  {
    BlockTodosStep(lines, path, i);
    if i < |lines| && |lines[i]| > 0 {
      BlockTodosEntries(lines, path, i + 1);
    }
  }

  /** Between the start line and the first empty line, a line has an entry exactly when it is a todo. */
  lemma {:induction false} BlockTodosComplete(lines: seq<string>, path: string, i: nat, j: nat)
    requires i <= j < BlockEnd(lines, i)
    ensures LineIsTodo(lines[j]) <==> HasEntry(BlockTodos(lines, path, i), j)
    decreases |lines| - i
  {
    var todo := TodoOfLine(lines, path, i);
    var head := if LineIsTodo(lines[i]) then [todo] else [];
    var rest := BlockTodos(lines, path, i + 1);
    assert HasEntry(BlockTodos(lines, path, i), j) <==> HasEntry(head, j) || HasEntry(rest, j) by {
      BlockTodosStep(lines, path, i);
      HasEntryConcat(head, rest, j);
    }
    assert HasEntry(head, j) <==> j == i && LineIsTodo(lines[i]) by {
      HasEntryOne(todo, j);
    }
    if j == i {
      NoEntryOfStart(lines, path, i);
    } else {
      assert i + 1 <= j < BlockEnd(lines, i + 1);
      BlockTodosComplete(lines, path, i + 1, j);
      assert LineIsTodo(lines[j]) <==> HasEntry(rest, j);
    }
  }

  /** Some entry of `r` comes from line `j`. */
  ghost predicate HasEntry(r: seq<LinkTodo>, j: nat) {
    exists k :: 0 <= k < |r| && r[k].line == j
  }

  /** The entries after line `i` come from later lines. */
  lemma NoEntryOfStart(lines: seq<string>, path: string, i: nat)
    ensures !HasEntry(BlockTodos(lines, path, i + 1), i)
  {
    var next := i + 1;
    BlockTodosOrdered(lines, path, next);
    forall k | 0 <= k < |BlockTodos(lines, path, next)| ensures BlockTodos(lines, path, next)[k].line != i {
      assert next <= BlockTodos(lines, path, next)[k].line;
    }
  }

  lemma HasEntryOne(t: LinkTodo, j: nat)
    ensures HasEntry([t], j) <==> t.line == j
    ensures !HasEntry([], j)
  {
    if t.line == j {
      assert [t][0].line == j;
    }
  }

  lemma HasEntryConcat(a: seq<LinkTodo>, b: seq<LinkTodo>, j: nat)
    ensures HasEntry(a + b, j) <==> HasEntry(a, j) || HasEntry(b, j)
  {
    if HasEntry(a, j) {
      var k :| 0 <= k < |a| && a[k].line == j;
      assert (a + b)[k].line == j;
    }
    if HasEntry(b, j) {
      var k :| 0 <= k < |b| && b[k].line == j;
      assert (a + b)[|a| + k].line == j;
    }
    if HasEntry(a + b, j) {
      var k :| 0 <= k < |a + b| && (a + b)[k].line == j;
      if k < |a| {
        assert a[k].line == j;
      } else {
        assert b[k - |a|].line == j;
      }
    }
  }

  /** Empty and missing cached texts yield no entries, whatever the link. */
  lemma NoCachedTextNoTodos(file: SourceFile, start: nat)
    requires file.cachedData.None? || file.cachedData == Some([])
    ensures LinkBlockTodos(file, start) == []
  {
  }

  /** An empty line at the start of the block ends it at once, while a line of blanks does not. */
  lemma {:induction false} OnlyEmptyLinesStop(lines: seq<string>, path: string, i: nat)
    requires i < |lines|
    ensures |lines[i]| == 0 ==> BlockTodos(lines, path, i) == []
    ensures |lines[i]| > 0 ==> BlockEnd(lines, i) == BlockEnd(lines, i + 1) && BlockEnd(lines, i) > i
  {
  }

  // ---------------------------------------------------------------------------
  // parseTodosFromFiles of src/utils/parse-files.ts.

  /** The links of a file whose target is `pageLink`, in metadata order; none when the metadata lists none. */
  function LinksOnPage(file: SourceFile, pageLink: string): (r: seq<LinkRef>)
    ensures forall k :: 0 <= k < |r| ==> r[k].link == pageLink
    ensures file.links.None? ==> r == []
    ensures file.links.Some? ==> forall l :: l in r <==> l in file.links.value && l.link == pageLink
  {
    match file.links
    case None => []
    case Some(ls) =>
      FilterLinksMembers(ls, pageLink);
      FilterLinks(ls, pageLink)
  }

  function FilterLinks(ls: seq<LinkRef>, pageLink: string): (r: seq<LinkRef>)
    ensures forall k :: 0 <= k < |r| ==> r[k].link == pageLink
  {
    if ls == [] then []
    else (if ls[0].link == pageLink then [ls[0]] else []) + FilterLinks(ls[1..], pageLink)
  }

  /** The filter keeps exactly the links to the page. */
  lemma {:induction false} FilterLinksMembers(ls: seq<LinkRef>, pageLink: string)
    ensures forall l :: l in FilterLinks(ls, pageLink) <==> l in ls && l.link == pageLink
  {
    if ls != [] {
      FilterLinksMembers(ls[1..], pageLink);
      assert forall l :: l in ls <==> l == ls[0] || l in ls[1..];
    }
  }

  /** `filter` works link by link: the links kept from a concatenation are those of each part, in order. */
  lemma {:induction false} FilterLinksAppend(a: seq<LinkRef>, b: seq<LinkRef>, pageLink: string)
    ensures FilterLinks(a + b, pageLink) == FilterLinks(a, pageLink) + FilterLinks(b, pageLink)
  {
    if a == [] {
      assert a + b == b;
    } else {
      var h := if a[0].link == pageLink then [a[0]] else [];
      var u, v, w := FilterLinks(a[1..], pageLink), FilterLinks(b, pageLink), FilterLinks(a[1..] + b, pageLink);
      assert (a + b)[1..] == a[1..] + b;
      assert FilterLinks(a + b, pageLink) == h + w;
      FilterLinksAppend(a[1..], b, pageLink);
      assert h + (u + v) == (h + u) + v;
    }
  }

  /** A single link is kept exactly when it targets the page, so duplicates are kept as often as they occur. */
  lemma FilterLinksOne(l: LinkRef, pageLink: string)
    ensures FilterLinks([l], pageLink) == if l.link == pageLink then [l] else []
  {
  }

  /** The todos of the link blocks of `links` in one file, concatenated in link order. */
  function TodosOfLinks(file: SourceFile, links: seq<LinkRef>): seq<LinkTodo> {
    if links == [] then [] else LinkBlockTodos(file, links[0].startLine) + TodosOfLinks(file, links[1..])
  }

  /** All todos one file contributes for `pageLink`. */
  function TodosOfFile(file: SourceFile, pageLink: string): seq<LinkTodo> {
    TodosOfLinks(file, LinksOnPage(file, pageLink))
  }

  /** `parseTodosFromFiles`: the files' contributions concatenated in file order. */
  function ParseTodosFromFiles(files: seq<SourceFile>, pageLink: string): seq<LinkTodo> {
    if files == [] then [] else TodosOfFile(files[0], pageLink) + ParseTodosFromFiles(files[1..], pageLink)
  }

  /** Splitting the file list splits the result at the same place: file order is kept. */
  lemma {:induction false} ParseTodosAppend(fs: seq<SourceFile>, gs: seq<SourceFile>, pageLink: string)
    ensures ParseTodosFromFiles(fs + gs, pageLink) == ParseTodosFromFiles(fs, pageLink) + ParseTodosFromFiles(gs, pageLink)
  {
    if fs == [] {
      assert fs + gs == gs;
    } else {
      assert (fs + gs)[1..] == fs[1..] + gs;
      ParseTodosAppend(fs[1..], gs, pageLink);
    }
  }

  /** Splitting a file's links splits its todos at the same place: link order is kept, duplicates included. */
  lemma {:induction false} TodosOfLinksAppend(file: SourceFile, ls: seq<LinkRef>, ms: seq<LinkRef>)
    ensures TodosOfLinks(file, ls + ms) == TodosOfLinks(file, ls) + TodosOfLinks(file, ms)
  {
    if ls == [] {
      assert ls + ms == ms;
    } else {
      assert (ls + ms)[1..] == ls[1..] + ms;
      TodosOfLinksAppend(file, ls[1..], ms);
    }
  }

  /** An entry of a file's contribution comes from the block of one of its links to the page. */
  lemma {:induction false} TodosOfLinksSource(file: SourceFile, links: seq<LinkRef>, t: LinkTodo)
    ensures t in TodosOfLinks(file, links) <==> exists l :: l in links && t in LinkBlockTodos(file, l.startLine)
  {
    if links != [] {
      var h, rest := links[0], links[1..];
      InCons(links);
      TodosOfLinksSource(file, rest, t);
      assert t in TodosOfLinks(file, links) <==> t in LinkBlockTodos(file, h.startLine) || t in TodosOfLinks(file, rest);
    }
  }

  lemma InCons<T>(s: seq<T>)
    requires s != []
    ensures forall l :: l in s <==> l == s[0] || l in s[1..]
  {
    assert s == [s[0]] + s[1..];
  }

  /**
   * An entry of the result is exactly an entry of the block of some link to
   * `pageLink` in some file of the list.
   */
  lemma {:induction false} ParseTodosSource(files: seq<SourceFile>, pageLink: string, t: LinkTodo)
    ensures t in ParseTodosFromFiles(files, pageLink) <==>
      exists f, l :: f in files && l in f.links.GetOr([]) && l.link == pageLink && t in LinkBlockTodos(f, l.startLine)
  {
    if files != [] {
      var f0 := files[0];
      ParseTodosSource(files[1..], pageLink, t);
      TodosOfLinksSource(f0, LinksOnPage(f0, pageLink), t);
      assert forall l :: l in LinksOnPage(f0, pageLink) <==> l in f0.links.GetOr([]) && l.link == pageLink;
      forall f | f in files[1..] ensures f in files { }
      forall f, l | f in files && l in f.links.GetOr([]) && l.link == pageLink && t in LinkBlockTodos(f, l.startLine) && f != f0
        ensures f in files[1..]
      {
        var k :| 0 <= k < |files| && files[k] == f;
        assert files[1..][k - 1] == f;
      }
    }
  }
}

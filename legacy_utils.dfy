/**
 * The older utilities of src/_utils.ts: per-file todo records, the dash-only
 * `setLineTo`, `setTodoStatusAtLineTo` over a file's cached text, and the
 * `toggleTodoItem` that writes without checking the line first.
 */
module LegacyUtils {
  import opened Options
  import opened JsText
  import opened LineGrammar
  import opened FileLines
  import ParseFiles
  import Tasks

  type LinkTodo = ParseFiles.LinkTodo
  type SourceFile = ParseFiles.SourceFile

  // ---------------------------------------------------------------------------
  // parseTodosFromFiles

  /** `FileTodos`: a file's name, path and the todos of its link blocks. */
  datatype FileTodos = FileTodos(name: string, path: string, todos: seq<LinkTodo>)

  function RecordOf(file: SourceFile, pageLink: string): FileTodos {
    FileTodos(file.name, file.path, ParseFiles.TodosOfFile(file, pageLink))
  }

  /** `parseTodosFromFiles`: one record per file, in file order, dropping the files without todos. */
  function ParseTodosFromFiles(files: seq<SourceFile>, pageLink: string): (r: seq<FileTodos>)
    ensures |r| <= |files|
  {
    if files == [] then []
    else
      var r := RecordOf(files[0], pageLink);
      (if |r.todos| > 0 then [r] else []) + ParseTodosFromFiles(files[1..], pageLink)
  }

  function Flatten(rs: seq<FileTodos>): seq<LinkTodo> {
    if rs == [] then [] else rs[0].todos + Flatten(rs[1..])
  }

  lemma FlattenAppend(rs: seq<FileTodos>, ss: seq<FileTodos>)
    ensures Flatten(rs + ss) == Flatten(rs) + Flatten(ss)
  {
    if rs != [] {
      assert (rs + ss)[1..] == rs[1..] + ss;
    } else {
      assert rs + ss == ss;
    }
  }

  /**
   * The records hold, in order, exactly the todos the newer flat
   * `parseTodosFromFiles` returns: dropping empty records loses nothing.
   */
  lemma {:induction false} RecordsFlatten(files: seq<SourceFile>, pageLink: string)
    ensures Flatten(ParseTodosFromFiles(files, pageLink)) == ParseFiles.ParseTodosFromFiles(files, pageLink)
  {
    if files != [] {
      var r := RecordOf(files[0], pageLink);
      var head := if |r.todos| > 0 then [r] else [];
      RecordsFlatten(files[1..], pageLink);
      FlattenAppend(head, ParseTodosFromFiles(files[1..], pageLink));
      if |r.todos| > 0 {
        assert Flatten(head) == r.todos + Flatten([]);
      } else {
        assert r.todos == [];
      }
    }
  }

  /** Every record is the record of a file of the list and has todos; every file with todos has its record. */
  lemma {:induction false} RecordsOfFiles(files: seq<SourceFile>, pageLink: string)
    ensures forall r :: r in ParseTodosFromFiles(files, pageLink) ==>
      |r.todos| > 0 && exists f :: f in files && r == RecordOf(f, pageLink)
    ensures forall f :: f in files && |ParseFiles.TodosOfFile(f, pageLink)| > 0 ==>
      RecordOf(f, pageLink) in ParseTodosFromFiles(files, pageLink)
  {
    if files != [] {
      RecordsOfFiles(files[1..], pageLink);
      forall f | f in files[1..] ensures f in files { }
      forall f | f in files && f != files[0] ensures f in files[1..] {
        var k :| 0 <= k < |files| && files[k] == f;
        assert files[1..][k - 1] == f;
      }
    }
  }

  /** Records come out in the order of their files. */
  lemma {:induction false} RecordsAppend(fs: seq<SourceFile>, gs: seq<SourceFile>, pageLink: string)
    ensures ParseTodosFromFiles(fs + gs, pageLink) == ParseTodosFromFiles(fs, pageLink) + ParseTodosFromFiles(gs, pageLink)
  {
    if fs == [] {
      assert ParseTodosFromFiles(fs, pageLink) == [];
      assert fs + gs == gs;
      assert [] + ParseTodosFromFiles(gs, pageLink) == ParseTodosFromFiles(gs, pageLink);
    } else {
      var f, init := fs[0], fs[1..];
      assert fs == [f] + init;
      assert fs + gs == [f] + (init + gs);
      RecordsCons(f, init, pageLink);
      RecordsCons(f, init + gs, pageLink);
      RecordsAppend(init, gs, pageLink);
      AppendAssoc(RecordsOfOne(f, pageLink), ParseTodosFromFiles(init, pageLink), ParseTodosFromFiles(gs, pageLink));
    }
  }

  lemma AppendAssoc<T>(a: seq<T>, b: seq<T>, c: seq<T>)
    ensures a + (b + c) == (a + b) + c
  {
  }

  /** The record list of one file: its record when it has todos, else nothing. */
  function RecordsOfOne(f: SourceFile, pageLink: string): seq<FileTodos> {
    var r := RecordOf(f, pageLink);
    if |r.todos| > 0 then [r] else []
  }

  lemma RecordsCons(f: SourceFile, fs: seq<SourceFile>, pageLink: string)
    ensures ParseTodosFromFiles([f] + fs, pageLink) == RecordsOfOne(f, pageLink) + ParseTodosFromFiles(fs, pageLink)
  {
    assert ([f] + fs)[0] == f && ([f] + fs)[1..] == fs;
  }

  // ---------------------------------------------------------------------------
  // setLineTo with `^(\s*\-\s\[)([^\]]+)(\].*$)`: LineGrammar.SetLineTo with the DashOnly head.

  /** A line the older `setLineTo` rewrites is rewritten the same way by the newer one. */
  lemma DashMatchIsQuotedMatch(line: string, setTo: bool, p: nat, m: nat, e: nat)
    requires SetMatchAt(line, DashOnly, p, m, e)
    ensures SetMatchAt(line, Quoted, p, m, e)
    ensures SetLineTo(line, DashOnly, setTo) == SetLineTo(line, Quoted, setTo)
  {
    assert forall k :: 0 <= k < p ==> PrefixClass(Quoted)(line[k]);
    SetLineToAt(line, DashOnly, setTo, p, m, e);
    SetLineToAt(line, Quoted, setTo, p, m, e);
  }

  /** The older `setLineTo` leaves a `*` item alone. */
  lemma StarItemOlder()
    ensures SetLineTo("* [ ] a", DashOnly, true) == "* [ ] a"
  {
    var line := "* [ ] a";
    ParseSetIff(line, DashOnly);
    assert RunEnd(line, 0, IsWhite) == 0;
    assert ParseHead(line, DashOnly).None?;
  }

  /** The newer `setLineTo` rewrites the same `*` item. */
  lemma StarItemNewer()
    ensures SetLineTo("* [ ] a", Quoted, true) == "* [x] a"
  {
    var line := "* [ ] a";
    assert RunEnd(line, 0, IsWhiteOrQuote) == 0;
    assert ParseHead(line, Quoted) == Some(Head(0, 1));
    assert RunEnd(line, 3, IsNotCloseBracket) == 4;
    assert ParseSet(line, Quoted) == Some(SetMatch(Head(0, 1), 4));
    assert line[..3] + ['x'] + line[4..] == "* [x] a";
  }

  /** After the older `setLineTo`, the scanner reads back the status written. */
  lemma DashCheckedAfterSetLineTo(line: string, setTo: bool, p: nat, m: nat, e: nat)
    requires SetMatchAt(line, DashOnly, p, m, e)
    ensures ParseFiles.LineIsTodo(SetLineTo(line, DashOnly, setTo))
    ensures ParseFiles.DashLineIsChecked(SetLineTo(line, DashOnly, setTo)) == setTo
  {
    var r := SetLineTo(line, DashOnly, setTo);
    SetLineToShape(line, DashOnly, setTo, p, m, e);
    assert ParseFiles.DashTodoAt(r, p, m);
    ParseFiles.DashStatusComplete(r, p, m);
  }

  // ---------------------------------------------------------------------------
  // setTodoStatusAtLineTo and toggleTodoItem

  /** What `setTodoStatusAtLineTo` gives: undefined without cached text, a TypeError past the last line, or the new text. */
  datatype StatusWrite = NoContents | LineMissing | Data(text: string)

  function StatusAtLine(cachedData: Option<string>, line: nat, setTo: bool): StatusWrite {
    match cachedData
    case None => NoContents
    case Some(data) =>
      if data == [] then NoContents
      else
        var lines := GetAllLinesFromFile(data);
        if line >= |lines| then LineMissing
        else Data(CombineFileLines(lines[line := SetLineTo(lines[line], DashOnly, setTo)]))
  }

  /** `setTodoStatusAtLineTo`: splits the cached text into an array, rewrites one element and joins it again. */
  method SetTodoStatusAtLineTo(cachedData: Option<string>, line: nat, setTo: bool) returns (r: StatusWrite)
    ensures r == StatusAtLine(cachedData, line, setTo)
  {
    if cachedData.None? || cachedData.value == [] {
      return NoContents;
    }
    var lines := GetAllLinesFromFile(cachedData.value);
    if line >= |lines| {
      return LineMissing;
    }
    var fileLines := new string[|lines|](k requires 0 <= k < |lines| => lines[k]);
    fileLines[line] := SetLineTo(fileLines[line], DashOnly, setTo);
    assert fileLines[..] == lines[line := SetLineTo(lines[line], DashOnly, setTo)];
    return Data(CombineFileLines(fileLines[..]));
  }

  /**
   * The text written changes only the given line, to the older `setLineTo`'s
   * rewrite, when no line but the last ends in `\r`.
   */
  lemma StatusAtLineOnlyLine(data: string, line: nat, setTo: bool)
    requires data != []
    requires forall i :: 0 <= i < |GetAllLinesFromFile(data)| - 1 ==> !EndsInCr(GetAllLinesFromFile(data)[i])
    requires line < |GetAllLinesFromFile(data)|
    ensures var lines := GetAllLinesFromFile(data);
      var r := StatusAtLine(Some(data), line, setTo);
      && r.Data?
      && |GetAllLinesFromFile(r.text)| == |lines|
      && GetAllLinesFromFile(r.text)[line] == SetLineTo(lines[line], DashOnly, setTo)
      && (forall i :: 0 <= i < |lines| && i != line ==> GetAllLinesFromFile(r.text)[i] == lines[i])
  {
    var lines := GetAllLinesFromFile(data);
    var out := lines[line := SetLineTo(lines[line], DashOnly, setTo)];
    LinesNoNewline(data);
    Tasks.SetLineToKeepsBreaks(lines[line], DashOnly, setTo);
    assert forall i :: 0 <= i < |out| && i != line ==> out[i] == lines[i];
    SplitCombine(out);
  }

  /** What the older `toggleTodoItem` does. */
  datatype ToggleRequest =
    | NoFile                                   // no file has the item's path: reading `cachedData` of undefined throws
    | Fails                                    // the item's line is past the end: `setLineTo(undefined)` throws
    | Write(path: string, data: Option<string>) // `vault.modify` is called, with undefined data when there is no cached text

  /** `getFiles().find`: the first file with the given path. */
  function FindFile(files: seq<SourceFile>, path: string): (r: Option<SourceFile>)
    ensures r.Some? ==> r.value in files && r.value.path == path
    ensures r.None? <==> forall f :: f in files ==> f.path != path
  {
    if files == [] then None
    else if files[0].path == path then Some(files[0])
    else FindFile(files[1..], path)
  }

  /** The effect of the older `toggleTodoItem`: no check of the line, always the status `!checked`, no flip of `checked`. */
  function ToggleOf(item: LinkTodo, files: seq<SourceFile>): ToggleRequest {
    match FindFile(files, item.file)
    case None => NoFile
    case Some(f) =>
      match StatusAtLine(f.cachedData, item.line, !item.checked)
      case NoContents => Write(f.path, None)
      case LineMissing => Fails
      case Data(d) => Write(f.path, Some(d))
  }

  /**
   * `toggleTodoItem` of src/_utils.ts, on a vault whose file list is `files`.
   * Data that is present replaces the file's content; the host's handling of
   * undefined data is not modelled, so the vault is then left as it is.
   */
  method ToggleTodoItem(item: LinkTodo, files: seq<SourceFile>, vault: Tasks.Vault) returns (request: ToggleRequest)
    requires forall f :: f in files ==> f.path in vault.files
    modifies vault
    ensures request == ToggleOf(item, files)
    ensures request.Write? && request.data.Some? ==> vault.files == old(vault.files)[request.path := request.data.value]
    ensures !(request.Write? && request.data.Some?) ==> vault.files == old(vault.files)
    ensures vault.byName == old(vault.byName)
  {
    var file := FindFile(files, item.file);
    if file.None? {
      return NoFile;
    }
    var newData := SetTodoStatusAtLineTo(file.value.cachedData, item.line, !item.checked);
    match newData
    case NoContents =>
      request := Write(file.value.path, None);
    case LineMissing =>
      request := Fails;
    case Data(d) =>
      vault.Modify(file.value.path, d);
      request := Write(file.value.path, Some(d));
  }

  /** The older toggle never looks at the item's text: it writes whatever the line holds now. */
  lemma ToggleIgnoresText(item: LinkTodo, files: seq<SourceFile>, text: Option<string>)
    ensures ToggleOf(item.(text := text), files) == ToggleOf(item, files)
  {
  }

  /**
   * When the item's line is a dash todo and no line but the last ends in `\r`,
   * the written text, read back by the scanner, has that line checked exactly
   * when the item was not, and every other line unchanged.
   */
  lemma ToggleWritesFlippedStatus(item: LinkTodo, files: seq<SourceFile>, f: SourceFile, data: string,
                                  p: nat, m: nat, e: nat)
    requires FindFile(files, item.file) == Some(f) && f.cachedData == Some(data) && data != []
    requires item.line < |GetAllLinesFromFile(data)|
    requires forall i :: 0 <= i < |GetAllLinesFromFile(data)| - 1 ==> !EndsInCr(GetAllLinesFromFile(data)[i])
    requires SetMatchAt(GetAllLinesFromFile(data)[item.line], DashOnly, p, m, e)
    ensures var lines := GetAllLinesFromFile(data);
      var r := ToggleOf(item, files);
      && r.Write? && r.path == f.path && r.data.Some?
      && |GetAllLinesFromFile(r.data.value)| == |lines|
      && ParseFiles.DashLineIsChecked(GetAllLinesFromFile(r.data.value)[item.line]) == !item.checked
      && (forall i :: 0 <= i < |lines| && i != item.line ==> GetAllLinesFromFile(r.data.value)[i] == lines[i])
  {
    var lines := GetAllLinesFromFile(data);
    var s := StatusAtLine(f.cachedData, item.line, !item.checked);
    StatusAtLineOnlyLine(data, item.line, !item.checked);
    assert ToggleOf(item, files) == Write(f.path, Some(s.text));
    DashCheckedAfterSetLineTo(lines[item.line], !item.checked, p, m, e);
  }
}

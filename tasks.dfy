/**
 * `toggleTodoItem` and `setTodoStatusAtLineTo` (src/utils/tasks.ts): a
 * guarded read-modify-write of one line of a vault file. The vault is a map
 * from path to content; the todo item is an object whose `checked` field the
 * toggle flips in place.
 */
module Tasks {
  import opened Options
  import opened JsText
  import opened LineGrammar
  import opened FileLines
  import opened Groups

  /**
   * `getFileFromPath`: the file at `path` if there is one, otherwise the first
   * file in the vault's listing whose name is `path`. `byName` maps a name to
   * the path of that first file.
   */
  function ResolvePath(files: map<string, string>, byName: map<string, string>, path: string): (r: Option<string>)
    ensures r.Some? ==> r.value in files
    ensures path in files ==> r == Some(path)
    ensures path !in files && path in byName && byName[path] in files ==> r == Some(byName[path])
    ensures r.None? <==> path !in files && (path !in byName || byName[path] !in files)
  {
    if path in files then Some(path)
    else if path in byName && byName[path] in files then Some(byName[path])
    else None
  }

  /** The vault: file contents by path, and the name lookup `getFileFromPath` falls back on. */
  class Vault {
    var files: map<string, string>
    var byName: map<string, string>

    constructor(files: map<string, string>, byName: map<string, string>)
      ensures this.files == files && this.byName == byName
    {
      this.files := files;
      this.byName := byName;
    }

    function Resolve(path: string): Option<string>
      reads this
    {
      ResolvePath(files, byName, path)
    }

    /** `vault.modify(file, data)`: replaces the content of one file. */
    method Modify(path: string, data: string)
      requires path in files
      modifies this
      ensures files == old(files)[path := data]
      ensures byName == old(byName)
    {
      files := files[path := data];
    }
  }

  /** A todo item held by reference, as the view's objects are. */
  class ItemRef {
    var item: TodoItem

    constructor(item: TodoItem)
      ensures this.item == item
    {
      this.item := item;
    }
  }

  /**
   * `setTodoStatusAtLineTo`: rewrites the status of line `line` in place and
   * returns the lines joined by `\n`. An index past the end makes the source
   * call `replace` on `undefined`, so callers must stay in range.
   */
  method SetTodoStatusAtLineTo(fileLines: array<string>, line: nat, setTo: bool) returns (data: string)
    requires line < fileLines.Length
    modifies fileLines
    ensures fileLines[..] == old(fileLines[..])[line := SetLineTo(old(fileLines[line]), Quoted, setTo)]
    ensures data == CombineFileLines(fileLines[..])
  {
    fileLines[line] := SetLineTo(fileLines[line], Quoted, setTo);
    data := CombineFileLines(fileLines[..]);
  }

  /**
   * How a toggle ends: the file does not resolve; the line index is past the
   * end (the source throws a TypeError on `undefined.includes`); the line no
   * longer holds the item's text; or the line is rewritten.
   */
  datatype Outcome = NoFile | Throws | Stale | Toggled

  /** What one toggle leaves behind: its outcome, the vault's files and the item. */
  datatype Effect = Effect(outcome: Outcome, files: map<string, string>, item: TodoItem)

  /** The lines of the file after the rewrite. */
  function Rewritten(lines: seq<string>, line: nat, setTo: bool): seq<string>
    requires line < |lines|
  {
    lines[line := SetLineTo(lines[line], Quoted, setTo)]
  }

  /** `toggleTodoItem` on a snapshot of the vault. */
  function Toggle(files: map<string, string>, byName: map<string, string>, item: TodoItem): (r: Effect)
    ensures r.outcome != Toggled ==> r.files == files && r.item == item
    ensures r.item.file == item.file && r.item.line == item.line && r.item.originalText == item.originalText
  {
    match ResolvePath(files, byName, item.file.path)
    case None => Effect(NoFile, files, item)
    case Some(p) =>
      var lines := GetAllLinesFromFile(files[p]);
      if item.line >= |lines| then Effect(Throws, files, item)
      else if !Contains(lines[item.line], item.originalText) then Effect(Stale, files, item)
      else
        Effect(Toggled, files[p := CombineFileLines(Rewritten(lines, item.line, !item.checked))],
               item.(checked := !item.checked))
  }

  /**
   * `toggleTodoItem`: resolves the file, reads and splits it, checks that the
   * target line still holds the item's text, rewrites that line, flips
   * `checked`, and writes the joined lines back.
   */
  method ToggleTodoItem(ref: ItemRef, vault: Vault) returns (outcome: Outcome)
    modifies ref, vault
    ensures var e := Toggle(old(vault.files), old(vault.byName), old(ref.item));
      outcome == e.outcome && vault.files == e.files && ref.item == e.item
    ensures vault.byName == old(vault.byName)
  {
    var item := ref.item;
    var file := vault.Resolve(item.file.path);
    if file.None? {
      return NoFile;
    }
    var currentFileContents := vault.files[file.value];
    var currentFileLines := GetAllLinesFromFile(currentFileContents);
    if item.line >= |currentFileLines| {
      return Throws;
    }
    if !Contains(currentFileLines[item.line], item.originalText) {
      return Stale;
    }
    var lines := new string[|currentFileLines|](i requires 0 <= i < |currentFileLines| => currentFileLines[i]);
    assert lines[..] == currentFileLines;
    var newData := SetTodoStatusAtLineTo(lines, item.line, !item.checked);
    ref.item := item.(checked := !item.checked);
    vault.Modify(file.value, newData);
    outcome := Toggled;
  }

  // ---------------------------------------------------------------------------
  // Properties of the toggle.

  /**
   * The guard: an unresolved file, an index past the end and a line that no
   * longer contains the item's text each stop the toggle before anything is
   * written or flipped.
   */
  lemma ToggleGuard(files: map<string, string>, byName: map<string, string>, item: TodoItem)
    ensures var e := Toggle(files, byName, item);
      (e.outcome == NoFile <==> ResolvePath(files, byName, item.file.path).None?) &&
      (e.outcome == Stale <==>
         (ResolvePath(files, byName, item.file.path).Some? &&
          var lines := GetAllLinesFromFile(files[ResolvePath(files, byName, item.file.path).value]);
          item.line < |lines| && !Contains(lines[item.line], item.originalText))) &&
      (e.outcome != Toggled ==> e.files == files && e.item == item)
  {
  }

  /**
   * A successful toggle flips `checked` and nothing else of the item, writes
   * only the resolved file, and writes there the old lines joined by `\n`
   * with only the target line changed, to its `setLineTo` for the new state.
   */
  lemma ToggleWrites(files: map<string, string>, byName: map<string, string>, item: TodoItem)
    requires Toggle(files, byName, item).outcome == Toggled
    ensures var e := Toggle(files, byName, item);
      var p := ResolvePath(files, byName, item.file.path).value;
      var lines := GetAllLinesFromFile(files[p]);
      e.item.checked == !item.checked && e.item.(checked := item.checked) == item &&
      e.files.Keys == files.Keys && (forall q :: q in files && q != p ==> e.files[q] == files[q]) &&
      item.line < |lines| &&
      exists newLines: seq<string> ::
        e.files[p] == CombineFileLines(newLines) && |newLines| == |lines| &&
        newLines[item.line] == SetLineTo(lines[item.line], Quoted, !item.checked) &&
        forall i :: 0 <= i < |lines| && i != item.line ==> newLines[i] == lines[i]
  {
    var p := ResolvePath(files, byName, item.file.path).value;
    var lines := GetAllLinesFromFile(files[p]);
    var newLines := Rewritten(lines, item.line, !item.checked);
    assert Toggle(files, byName, item).files[p] == CombineFileLines(newLines);
  }

  /** Replacing `line[i..j]` by one character other than `\n` keeps the line free of `\n` and keeps its last character. */
  lemma SpliceKeepsBreaks(line: string, i: nat, j: nat, c: char)
    requires i <= j < |line|
    requires NoNewline(line) && c != '\n'
    ensures NoNewline(line[..i] + [c] + line[j..])
    ensures EndsInCr(line[..i] + [c] + line[j..]) == EndsInCr(line)
  {
    var r := line[..i] + [c] + line[j..];
    forall k | 0 <= k < |r| ensures r[k] != '\n' {
      if k < i {
        assert r[k] == line[k];
      } else if k > i {
        assert r[k] == line[j + k - i - 1];
      }
    }
    assert r[|r| - 1] == line[|line| - 1];
  }

  /** `setLineTo` keeps a line free of `\n`, and keeps whether it ends in `\r`. */
  lemma SetLineToKeepsBreaks(line: string, style: HeadStyle, setTo: bool)
    requires style != Indented && NoNewline(line)
    ensures NoNewline(SetLineTo(line, style, setTo))
    ensures EndsInCr(SetLineTo(line, style, setTo)) == EndsInCr(line)
  {
    if SetMatches(line, style) {
      var p, m, e :| SetMatchAt(line, style, p, m, e);
      SetLineToKeepsBreaksAt(line, style, setTo, p, m, e);
    }
  }

  lemma SetLineToKeepsBreaksAt(line: string, style: HeadStyle, setTo: bool, p: nat, m: nat, e: nat)
    requires style != Indented && NoNewline(line) && SetMatchAt(line, style, p, m, e)
    ensures NoNewline(SetLineTo(line, style, setTo))
    ensures EndsInCr(SetLineTo(line, style, setTo)) == EndsInCr(line)
  {
    SetLineToAt(line, style, setTo, p, m, e);
    SpliceKeepsBreaks(line, m + 2, e, StatusChar(setTo));
  }

  /** Joining rewritten lines and splitting again gives them back, when no line but the last ends in `\r`. */
  lemma RewrittenReadBack(lines: seq<string>, line: nat, setTo: bool)
    requires line < |lines|
    requires forall i :: 0 <= i < |lines| ==> NoNewline(lines[i])
    requires forall i :: 0 <= i < |lines| - 1 ==> !EndsInCr(lines[i])
    ensures GetAllLinesFromFile(CombineFileLines(Rewritten(lines, line, setTo))) == Rewritten(lines, line, setTo)
  {
    var r := Rewritten(lines, line, setTo);
    SetLineToKeepsBreaks(lines[line], Quoted, setTo);
    assert forall i :: 0 <= i < |r| && i != line ==> r[i] == lines[i];
    SplitCombine(r);
  }

  /** The lines of the file the item's path resolves to. */
  function TargetLines(files: map<string, string>, byName: map<string, string>, item: TodoItem): seq<string>
    requires ResolvePath(files, byName, item.file.path).Some?
  {
    GetAllLinesFromFile(files[ResolvePath(files, byName, item.file.path).value])
  }

  /**
   * When no line but the last of the file ends in `\r`, reading the file back
   * after a toggle gives the old lines with only the target line changed.
   */
  lemma ToggleReadBack(files: map<string, string>, byName: map<string, string>, item: TodoItem)
    requires Toggle(files, byName, item).outcome == Toggled
    requires forall i :: 0 <= i < |TargetLines(files, byName, item)| - 1 ==> !EndsInCr(TargetLines(files, byName, item)[i])
    ensures var p := ResolvePath(files, byName, item.file.path).value;
      GetAllLinesFromFile(Toggle(files, byName, item).files[p])
        == Rewritten(TargetLines(files, byName, item), item.line, !item.checked)
  {
    var lines := TargetLines(files, byName, item);
    LinesNoNewline(files[ResolvePath(files, byName, item.file.path).value]);
    RewrittenReadBack(lines, item.line, !item.checked);
  }

  /** Two successful toggles in a row give the item back its `checked` state. */
  lemma ToggleTwiceRestoresChecked(files: map<string, string>, byName: map<string, string>, item: TodoItem)
    requires Toggle(files, byName, item).outcome == Toggled
    requires var e := Toggle(files, byName, item); Toggle(e.files, byName, e.item).outcome == Toggled
    ensures var e := Toggle(files, byName, item); Toggle(e.files, byName, e.item).item == item
  {
  }

  /** Writing the resolved file does not change what a path resolves to. */
  lemma ResolveAfterWrite(files: map<string, string>, byName: map<string, string>, path: string, data: string)
    requires ResolvePath(files, byName, path).Some?
    ensures var p := ResolvePath(files, byName, path).value;
      ResolvePath(files[p := data], byName, path) == Some(p)
  {
  }

  /** What a successful toggle writes, in terms of the lines it read. */
  lemma ToggledEffect(files: map<string, string>, byName: map<string, string>, item: TodoItem)
    requires Toggle(files, byName, item).outcome == Toggled
    ensures var p := ResolvePath(files, byName, item.file.path).value;
      && Toggle(files, byName, item).files
           == files[p := CombineFileLines(Rewritten(TargetLines(files, byName, item), item.line, !item.checked))]
      && Toggle(files, byName, item).item == item.(checked := !item.checked)
  {
  }

  /** A second toggle right after a successful one rewrites the lines the first one wrote. */
  lemma ToggleAgain(files: map<string, string>, byName: map<string, string>, item: TodoItem)
    requires Toggle(files, byName, item).outcome == Toggled
    requires forall i :: 0 <= i < |TargetLines(files, byName, item)| - 1 ==> !EndsInCr(TargetLines(files, byName, item)[i])
    requires var e := Toggle(files, byName, item); Toggle(e.files, byName, e.item).outcome == Toggled
    ensures var p := ResolvePath(files, byName, item.file.path).value;
      var e := Toggle(files, byName, item);
      var once := Rewritten(TargetLines(files, byName, item), item.line, !item.checked);
      Toggle(e.files, byName, e.item).files == files[p := CombineFileLines(Rewritten(once, item.line, item.checked))]
  {
    var p := ResolvePath(files, byName, item.file.path).value;
    var e := Toggle(files, byName, item);
    var once := Rewritten(TargetLines(files, byName, item), item.line, !item.checked);
    var twice := CombineFileLines(Rewritten(once, item.line, item.checked));
    assert e.files == files[p := CombineFileLines(once)] && e.item == item.(checked := !item.checked) by {
      ToggledEffect(files, byName, item);
    }
    assert ResolvePath(e.files, byName, e.item.file.path) == Some(p) && TargetLines(e.files, byName, e.item) == once by {
      ToggleReadBack(files, byName, item);
      ResolveAfterWrite(files, byName, item.file.path, CombineFileLines(once));
    }
    assert Toggle(e.files, byName, e.item).files == e.files[p := twice] by {
      ToggledEffect(e.files, byName, e.item);
    }
    UpdateTwice(files, p, CombineFileLines(once), twice);
  }

  lemma UpdateTwice(m: map<string, string>, k: string, a: string, b: string)
    ensures m[k := a][k := b] == m[k := b]
  {
  }

  /**
   * Two successful toggles in a row restore the file, up to `\r\n` becoming
   * `\n`, when the target line's status was already `x` or a space matching
   * `checked` and no line but the last ends in `\r`.
   */
  lemma ToggleTwiceRestoresFile(files: map<string, string>, byName: map<string, string>, item: TodoItem,
                                sp: nat, sm: nat)
    requires Toggle(files, byName, item).outcome == Toggled
    requires var e := Toggle(files, byName, item); Toggle(e.files, byName, e.item).outcome == Toggled
    requires forall i :: 0 <= i < |TargetLines(files, byName, item)| - 1 ==> !EndsInCr(TargetLines(files, byName, item)[i])
    requires SetMatchAt(TargetLines(files, byName, item)[item.line], Quoted, sp, sm, sm + 3)
    requires TargetLines(files, byName, item)[item.line][sm + 2] == StatusChar(item.checked)
    ensures var p := ResolvePath(files, byName, item.file.path).value;
      var e := Toggle(files, byName, item);
      Toggle(e.files, byName, e.item).files == files[p := NormalizeLineBreaks(files[p])]
  {
    var p := ResolvePath(files, byName, item.file.path).value;
    var e := Toggle(files, byName, item);
    var lines := TargetLines(files, byName, item);
    var once := Rewritten(lines, item.line, !item.checked);
    var twice := CombineFileLines(Rewritten(once, item.line, item.checked));
    assert Toggle(e.files, byName, e.item).files == files[p := twice] by {
      ToggleAgain(files, byName, item);
    }
    assert twice == NormalizeLineBreaks(files[p]) by {
      RewrittenRestores(lines, item.line, item.checked, sp, sm);
      CombineSplit(files[p]);
    }
  }

  /** Rewriting the target line away from its status and back gives the lines back. */
  lemma RewrittenRestores(lines: seq<string>, line: nat, b: bool, sp: nat, sm: nat)
    requires line < |lines|
    requires SetMatchAt(lines[line], Quoted, sp, sm, sm + 3) && lines[line][sm + 2] == StatusChar(b)
    ensures Rewritten(Rewritten(lines, line, !b), line, b) == lines
  {
    SetLineToRestores(lines[line], Quoted, b, sp, sm);
  }
}

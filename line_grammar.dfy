/**
 * The checklist-line grammar of src/utils/helpers.ts (and the older copies in
 * src/_utils.ts and src/utils/parse-files.ts).
 *
 * Each regular expression of the source is given twice: as the set of ways a
 * line can be cut into the regex's pieces (`HeadAt`, `SetMatchAt`, `TodoAt`,
 * `CheckedAt`: the language the regex accepts at the start of the line), and
 * as a deterministic character scan (`ParseHead`, `ParseSet`, `ParseTodo`).
 * The `Complete` lemmas show that every cut the regex admits is the one the
 * scan finds, so the regex never has a choice and the scan is exact.
 */
module LineGrammar {
  import opened Options
  import opened JsText

  /** The three list-item heads `PREFIX MARKER \s \[` used by the source's regexes. */
  datatype HeadStyle =
    | Quoted    // `(\s|\>)*([\-\*]|[0-9]+\.)\s\[`  (helpers.ts)
    | Indented  // `(\s*)([\-\*]|[0-9]+\.)\s\[`     (helpers.ts, indentation)
    | DashOnly  // `\s*\-\s\[`                      (_utils.ts, parse-files.ts)

  predicate IsWhiteOrQuote(c: char) { IsWhite(c) || c == '>' }

  /** The character class repeated before the marker. */
  function PrefixClass(style: HeadStyle): char -> bool {
    if style == Quoted then IsWhiteOrQuote else IsWhite
  }

  /** `[\-\*]|[0-9]+\.` (or only `\-` for the older regexes) matches `line[p..m]`. */
  predicate MarkerAt(line: string, style: HeadStyle, p: int, m: int)
    requires 0 <= p < m <= |line|
  {
    (m == p + 1 && line[p] == '-') ||
    (style != DashOnly &&
      ((m == p + 1 && line[p] == '*') ||
       (m >= p + 2 && line[m - 1] == '.' && forall k :: p <= k < m - 1 ==> IsDigit(line[k]))))
  }

  /** No line terminator in `line[i..]`: what `.*$` needs to reach the end. */
  predicate NoLineTerminatorFrom(line: string, i: int) {
    forall k :: 0 <= k < |line| && i <= k ==> !IsLineTerminator(line[k])
  }

  /** The head regex matches `line[..m + 2]` with prefix `line[..p]` and marker `line[p..m]`. */
  predicate HeadAt(line: string, style: HeadStyle, p: int, m: int) {
    && 0 <= p < m && m + 2 <= |line|
    && (forall k :: 0 <= k < p ==> PrefixClass(style)(line[k]))
    && MarkerAt(line, style, p, m)
    && IsWhite(line[m]) && line[m + 1] == '['
  }

  /** Where the head ends: the index just after `[`, where the status starts. */
  datatype Head = Head(indent: nat, markerEnd: nat) {
    function StatusIndex(): nat { markerEnd + 2 }
  }

  /** The end of the list marker starting at `p`, if one starts there. */
  function MarkerEnd(line: string, style: HeadStyle, p: nat): (r: Option<nat>)
    requires p <= |line|
    ensures r.Some? ==> p < r.value <= |line| && MarkerAt(line, style, p, r.value)
  {
    if p == |line| then None
    else if line[p] == '-' then Some(p + 1)
    else if style == DashOnly then None
    else if line[p] == '*' then Some(p + 1)
    else if IsDigit(line[p]) then
      var d := RunEnd(line, p, IsDigit);
      if d < |line| && line[d] == '.' then Some(d + 1)
      else None
    else None
  }

  /** The scan for the head: the longest prefix run, then a marker, a blank and `[`. */
  function ParseHead(line: string, style: HeadStyle): (r: Option<Head>)
    ensures r.Some? ==> HeadAt(line, style, r.value.indent, r.value.markerEnd)
  {
    var p := RunEnd(line, 0, PrefixClass(style));
    match MarkerEnd(line, style, p)
    case None => None
    case Some(m) =>
      if m + 2 <= |line| && IsWhite(line[m]) && line[m + 1] == '[' then Some(Head(p, m)) else None
  }

  /** Every way the head regex can match is the one ParseHead finds. */
  lemma ParseHeadComplete(line: string, style: HeadStyle, p: nat, m: nat)
    requires HeadAt(line, style, p, m)
    ensures ParseHead(line, style) == Some(Head(p, m))
  {
    assert !PrefixClass(style)(line[p]) by { MarkerNotPrefix(line, style, p, m); }
    RunEndUnique(line, 0, p, PrefixClass(style));
    MarkerEndComplete(line, style, p, m);
  }

  /** A marker character is never part of the prefix run. */
  lemma MarkerNotPrefix(line: string, style: HeadStyle, p: nat, m: nat)
    requires 0 <= p < m <= |line| && MarkerAt(line, style, p, m)
    ensures !PrefixClass(style)(line[p])
  {
    if m >= p + 2 && line[p] != '-' && line[p] != '*' {
      assert IsDigit(line[p]);
    }
  }

  /** Every marker the regex admits at `p` is the one MarkerEnd finds. */
  lemma MarkerEndComplete(line: string, style: HeadStyle, p: nat, m: nat)
    requires 0 <= p < m <= |line| && MarkerAt(line, style, p, m)
    ensures MarkerEnd(line, style, p) == Some(m)
  {
    if line[p] != '-' && line[p] != '*' {
      assert m >= p + 2 && line[m - 1] == '.';
      RunEndUnique(line, p, m - 1, IsDigit);
    }
  }

  /** The head regex matches at most one way. */
  lemma HeadUnique(line: string, style: HeadStyle, p: nat, m: nat, p': nat, m': nat)
    requires HeadAt(line, style, p, m) && HeadAt(line, style, p', m')
    ensures p == p' && m == m'
  {
    ParseHeadComplete(line, style, p, m);
    ParseHeadComplete(line, style, p', m');
  }

  /** Whether the head regex depends only on the characters before the status. */
  lemma HeadAtPrefix(line: string, line': string, style: HeadStyle, p: nat, m: nat)
    requires HeadAt(line, style, p, m)
    requires m + 2 <= |line'| && line'[..m + 2] == line[..m + 2]
    ensures HeadAt(line', style, p, m)
  {
    assert forall k :: 0 <= k < m + 2 ==> line'[k] == line[..m + 2][k];
  }

  // ---------------------------------------------------------------------------
  // setLineTo: `^((\s|\>)*([\-\*]|[0-9]+\.)\s\[)([^\]]+)(\].*$)` and the older
  // `^(\s*\-\s\[)([^\]]+)(\].*$)`.

  predicate IsNotCloseBracket(c: char) { c != ']' }

  /** The status `line[m + 2..e]` is one or more non-`]`, then `]` and the rest has no line break. */
  predicate SetMatchAt(line: string, style: HeadStyle, p: int, m: int, e: int) {
    && HeadAt(line, style, p, m)
    && m + 2 < e < |line|
    && (forall k :: m + 2 <= k < e ==> line[k] != ']')
    && line[e] == ']'
    && NoLineTerminatorFrom(line, e + 1)
  }

  ghost predicate SetMatches(line: string, style: HeadStyle) {
    exists p, m, e :: SetMatchAt(line, style, p, m, e)
  }

  datatype SetMatch = SetMatch(head: Head, close: nat)

  function ParseSet(line: string, style: HeadStyle): (r: Option<SetMatch>)
    ensures r.Some? ==> SetMatchAt(line, style, r.value.head.indent, r.value.head.markerEnd, r.value.close)
  {
    match ParseHead(line, style)
    case None => None
    case Some(hd) =>
      var e := RunEnd(line, hd.StatusIndex(), IsNotCloseBracket);
      if hd.StatusIndex() < e < |line| && NoLineTerminatorFrom(line, e + 1) then Some(SetMatch(hd, e)) else None
  }

  lemma ParseSetComplete(line: string, style: HeadStyle, p: nat, m: nat, e: nat)
    requires SetMatchAt(line, style, p, m, e)
    ensures ParseSet(line, style) == Some(SetMatch(Head(p, m), e))
  {
    ParseHeadComplete(line, style, p, m);
    RunEndUnique(line, m + 2, e, IsNotCloseBracket);
  }

  /** Every match of the set regex is the one the scanner finds. */
  lemma ParseSetUnique(line: string, style: HeadStyle)
    ensures forall p, m, e :: SetMatchAt(line, style, p, m, e) ==>
              ParseSet(line, style) == Some(SetMatch(Head(p, m), e))
  {
    forall p, m, e | SetMatchAt(line, style, p, m, e) ensures ParseSet(line, style) == Some(SetMatch(Head(p, m), e)) {
      ParseSetComplete(line, style, p, m, e);
    }
  }

  lemma ParseSetIff(line: string, style: HeadStyle)
    ensures ParseSet(line, style).Some? <==> SetMatches(line, style)
  {
    if SetMatches(line, style) {
      var p, m, e :| SetMatchAt(line, style, p, m, e);
      ParseSetComplete(line, style, p, m, e);
    }
  }

  /** The status the source writes: `x` when checking, a space when unchecking. */
  function StatusChar(setTo: bool): char {
    if setTo then 'x' else ' '
  }

  /**
   * `setLineTo`: on a line the regex matches, the bracketed status is replaced
   * by `x` or a space and everything else is kept; any other line is returned as it is.
   */
  function SetLineTo(line: string, style: HeadStyle, setTo: bool): (r: string)
    requires style != Indented
    ensures |r| <= |line|
  {
    match ParseSet(line, style)
    case None => line
    case Some(sm) => line[..sm.head.StatusIndex()] + [StatusChar(setTo)] + line[sm.close..]
  }

  /** A line the regex does not match is returned as it is. */
  lemma SetLineToNoMatch(line: string, style: HeadStyle, setTo: bool)
    requires style != Indented
    requires !SetMatches(line, style)
    ensures SetLineTo(line, style, setTo) == line
  {
    ParseSetIff(line, style);
  }

  /** After `setLineTo` the status is the single character written, closed by `]`. */
  lemma SetLineToShape(line: string, style: HeadStyle, setTo: bool, p: nat, m: nat, e: nat)
    requires style != Indented
    requires SetMatchAt(line, style, p, m, e)
    ensures SetMatchAt(SetLineTo(line, style, setTo), style, p, m, m + 3)
    ensures SetLineTo(line, style, setTo)[m + 2] == StatusChar(setTo)
  {
    SetLineToAt(line, style, setTo, p, m, e);
    SplicedShape(line, style, StatusChar(setTo), p, m, e);
  }

  /** Splicing one character other than `]` in place of the status keeps the regex matching. */
  lemma SplicedShape(line: string, style: HeadStyle, c: char, p: nat, m: nat, e: nat)
    requires SetMatchAt(line, style, p, m, e) && c != ']'
    ensures var r := line[..m + 2] + [c] + line[e..];
      SetMatchAt(r, style, p, m, m + 3) && r[m + 2] == c
  {
    var r := line[..m + 2] + [c] + line[e..];
    SplicedParts(line, m, e, c);
    assert HeadAt(r, style, p, m) by {
      HeadAtPrefix(line, r, style, p, m);
    }
    assert NoLineTerminatorFrom(r, m + 4) by {
      forall k | m + 4 <= k < |r| ensures !IsLineTerminator(r[k]) {
        assert r[k] == line[e..][k - (m + 3)];
      }
    }
  }

  /** The pieces of `line[..m + 2] + [c] + line[e..]`. */
  lemma SplicedParts(line: string, m: nat, e: nat, c: char)
    requires m + 2 <= e <= |line|
    ensures var r := line[..m + 2] + [c] + line[e..];
      |r| == m + 3 + |line| - e && r[..m + 2] == line[..m + 2] && r[m + 2] == c && r[m + 3..] == line[e..]
  {
  }

  /** Rewriting a rewritten line only replaces the status written the first time. */
  lemma RewriteTwice(line: string, style: HeadStyle, b1: bool, b2: bool, p: nat, m: nat, e: nat)
    requires style != Indented
    requires SetMatchAt(line, style, p, m, e)
    ensures SetLineTo(SetLineTo(line, style, b1), style, b2) == line[..m + 2] + [StatusChar(b2)] + line[e..]
  {
    var r := SetLineTo(line, style, b1);
    SetLineToShape(line, style, b1, p, m, e);
    SetLineToAt(line, style, b1, p, m, e);
    SetLineToAt(r, style, b2, p, m, m + 3);
    SplicedParts(line, m, e, StatusChar(b1));
  }

  /** `setLineTo(setLineTo(l, b), b) == setLineTo(l, b)`. */
  lemma {:induction false} SetLineToIdempotent(line: string, style: HeadStyle, setTo: bool)
    requires style != Indented
    ensures SetLineTo(SetLineTo(line, style, setTo), style, setTo) == SetLineTo(line, style, setTo)
  {
    if SetMatches(line, style) {
      var p, m, e :| SetMatchAt(line, style, p, m, e);
      RewriteTwice(line, style, setTo, setTo, p, m, e);
      SetLineToAt(line, style, setTo, p, m, e);
    } else {
      SetLineToNoMatch(line, style, setTo);
    }
  }

  /** Re-writing the status it had before restores the line, when that status was `x` or a space. */
  lemma {:induction false} SetLineToRestores(line: string, style: HeadStyle, b: bool, p: nat, m: nat)
    requires style != Indented
    requires SetMatchAt(line, style, p, m, m + 3) && line[m + 2] == StatusChar(b)
    ensures SetLineTo(SetLineTo(line, style, !b), style, b) == line
  {
    var back := line[..m + 2] + [StatusChar(b)] + line[m + 3..];
    assert back == line by {
      SpliceSame(back, line, m + 2, m + 3, StatusChar(b));
    }
    RewriteTwice(line, style, !b, b, p, m, m + 3);
  }

  /** A line spliced back together around its own character at `i` is the line. */
  lemma SpliceSame(x: string, s: string, i: nat, j: nat, c: char)
    requires j == i + 1 && j <= |s| && s[i] == c && x == s[..i] + [c] + s[j..]
    ensures x == s
  {
    assert s == s[..i] + [s[i]] + s[j..];
  }

  /** The rewrite at one particular match of the regex. */
  lemma SetLineToAt(line: string, style: HeadStyle, setTo: bool, p: nat, m: nat, e: nat)
    requires style != Indented
    requires SetMatchAt(line, style, p, m, e)
    ensures SetLineTo(line, style, setTo) == line[..m + 2] + [StatusChar(setTo)] + line[e..]
  {
    ParseSetComplete(line, style, p, m, e);
  }

  // ---------------------------------------------------------------------------
  // The todo regexes of helpers.ts:
  //   lineIsValidTodo          `^(\s|\>)*([\-\*]|[0-9]+\.)\s\[(.{1})\]\s{1,4}\S+`
  //   extractTextFromTodoLine  `^(\s|\>)*([\-\*]|[0-9]+\.)\s\[(.{1})\]\s{1,4}(\S{1}.*)$`
  //   getIndentation...        `^(\s*)([\-\*]|[0-9]+\.)\s\[(.{1})\]\s{1,4}(\S+)`
  //   todoLineIsChecked        `^(\s|\>)*([\-\*]|[0-9]+\.)\s\[(\S{1})\]`

  /** A one-character status, `]`, then `w` (1 to 4) blanks and a non-blank character. */
  predicate TodoAt(line: string, style: HeadStyle, p: int, m: int, w: int) {
    && HeadAt(line, style, p, m)
    && m + 3 < |line| && !IsLineTerminator(line[m + 2]) && line[m + 3] == ']'
    && 1 <= w <= 4 && m + 4 + w < |line|
    && (forall k :: m + 4 <= k < m + 4 + w ==> IsWhite(line[k])) && !IsWhite(line[m + 4 + w])
  }

  ghost predicate TodoMatches(line: string, style: HeadStyle) {
    exists p, m, w :: TodoAt(line, style, p, m, w)
  }

  datatype TodoMatch = TodoMatch(head: Head, gap: nat) {
    /** Where the todo's text starts: the first non-blank after `]`. */
    function TextIndex(): nat { head.markerEnd + 4 + gap }
  }

  function ParseTodo(line: string, style: HeadStyle): (r: Option<TodoMatch>)
    ensures r.Some? ==> r.value.TextIndex() < |line|
  {
    match ParseHead(line, style)
    case None => None
    case Some(hd) => TodoAfterHead(line, hd)
  }

  /** The status, `]` and the 1 to 4 blanks after a head. */
  function TodoAfterHead(line: string, hd: Head): (r: Option<TodoMatch>)
    ensures r.Some? ==> r.value.head == hd && r.value.TextIndex() < |line|
  {
    var s := hd.StatusIndex();
    if s + 1 < |line| && !IsLineTerminator(line[s]) && line[s + 1] == ']' then
      var e := RunEnd(line, s + 2, IsWhite);
      if 1 <= e - (s + 2) <= 4 && e < |line| then Some(TodoMatch(hd, e - (s + 2))) else None
    else None
  }

  /** What ParseTodo finds is a match of the todo regex. */
  lemma ParseTodoSound(line: string, style: HeadStyle)
    ensures var r := ParseTodo(line, style);
      r.Some? ==> TodoAt(line, style, r.value.head.indent, r.value.head.markerEnd, r.value.gap)
  {
    match ParseHead(line, style)
    case None =>
    case Some(hd) => TodoAfterHeadSound(line, style, hd);
  }

  lemma TodoAfterHeadSound(line: string, style: HeadStyle, hd: Head)
    requires HeadAt(line, style, hd.indent, hd.markerEnd)
    ensures var r := TodoAfterHead(line, hd);
      r.Some? ==> TodoAt(line, style, hd.indent, hd.markerEnd, r.value.gap)
  {
    var s := hd.StatusIndex();
    if s + 1 < |line| && !IsLineTerminator(line[s]) && line[s + 1] == ']' {
      var e := RunEnd(line, s + 2, IsWhite);
      if 1 <= e - (s + 2) <= 4 && e < |line| {
        TodoAtScan(line, style, hd, e);
      }
    }
  }

  /** The pieces ParseTodo checks make up a match of the todo regex. */
  lemma TodoAtScan(line: string, style: HeadStyle, hd: Head, e: nat)
    requires HeadAt(line, style, hd.indent, hd.markerEnd)
    requires hd.StatusIndex() + 1 < |line| && !IsLineTerminator(line[hd.StatusIndex()]) && line[hd.StatusIndex() + 1] == ']'
    requires e == RunEnd(line, hd.StatusIndex() + 2, IsWhite)
    requires 1 <= e - (hd.StatusIndex() + 2) <= 4 && e < |line|
    ensures TodoAt(line, style, hd.indent, hd.markerEnd, e - (hd.StatusIndex() + 2))
  {
    var m := hd.markerEnd;
    assert forall k :: m + 4 <= k < e ==> IsWhite(line[k]);
    assert !IsWhite(line[e]);
  }

  lemma ParseTodoComplete(line: string, style: HeadStyle, p: nat, m: nat, w: nat)
    requires TodoAt(line, style, p, m, w)
    ensures ParseTodo(line, style) == Some(TodoMatch(Head(p, m), w))
  {
    ParseHeadComplete(line, style, p, m);
    RunEndUnique(line, m + 4, m + 4 + w, IsWhite);
  }

  lemma ParseTodoIff(line: string, style: HeadStyle)
    ensures ParseTodo(line, style).Some? <==> TodoMatches(line, style)
  {
    ParseTodoSound(line, style);
    if TodoMatches(line, style) {
      var p, m, w :| TodoAt(line, style, p, m, w);
      ParseTodoComplete(line, style, p, m, w);
    }
  }

  /** `lineIsValidTodo`: the regex finds a checklist item at the start of the line. */
  function LineIsValidTodo(line: string): (b: bool)
    ensures b <==> TodoMatches(line, Quoted)
  {
    ParseTodoIff(line, Quoted);
    ParseTodo(line, Quoted).Some?
  }

  /**
   * `extractTextFromTodoLine`: the text from the first non-blank after `]` to the
   * end of the line; undefined when the line is not a todo or that text would run
   * over a line break (`.*$` does not cross one).
   */
  function ExtractTextFromTodoLine(line: string): (r: Option<string>)
    ensures r.Some? ==> |r.value| > 0 && !IsWhite(r.value[0]) && EndsWith(line, r.value)
    ensures r.Some? ==> LineIsValidTodo(line)
  {
    ParseTodoSound(line, Quoted);
    match ParseTodo(line, Quoted)
    case None => None
    case Some(tm) =>
      if NoLineTerminatorFrom(line, tm.TextIndex()) then Some(line[tm.TextIndex()..]) else None
  }

  /** The text is defined exactly when the line is a todo whose text has no line break. */
  lemma ExtractTextIff(line: string)
    ensures ExtractTextFromTodoLine(line).Some? <==>
      exists p, m, w :: TodoAt(line, Quoted, p, m, w) && NoLineTerminatorFrom(line, m + 4 + w)
  {
    ParseTodoSound(line, Quoted);
    if exists p, m, w :: TodoAt(line, Quoted, p, m, w) && NoLineTerminatorFrom(line, m + 4 + w) {
      var p, m, w :| TodoAt(line, Quoted, p, m, w) && NoLineTerminatorFrom(line, m + 4 + w);
      ExtractTextAt(line, p, m, w);
    }
  }

  /** At any match of the regex, the extracted text is the rest of the line from the first non-blank after the status. */
  lemma ExtractTextAt(line: string, p: nat, m: nat, w: nat)
    requires TodoAt(line, Quoted, p, m, w) && NoLineTerminatorFrom(line, m + 4 + w)
    ensures ExtractTextFromTodoLine(line) == Some(line[m + 4 + w..])
  {
    ParseTodoComplete(line, Quoted, p, m, w);
  }

  /** `getIndentationSpacesFromTodoLine`: the length of the leading blanks of a todo, else 0. */
  function GetIndentationSpacesFromTodoLine(line: string): (r: nat)
    ensures r <= |line| && AllWhite(line[..r])
  {
    ParseTodoSound(line, Indented);
    match ParseTodo(line, Indented)
    case None => 0
    case Some(tm) => tm.head.indent
  }

  /** The count is the prefix length of the match when the pattern matches, and 0 when it does not. */
  lemma IndentationOfTodo(line: string, p: nat, m: nat, w: nat)
    ensures TodoAt(line, Indented, p, m, w) ==> GetIndentationSpacesFromTodoLine(line) == p
    ensures !TodoMatches(line, Indented) ==> GetIndentationSpacesFromTodoLine(line) == 0
  {
    ParseTodoIff(line, Indented);
    if TodoAt(line, Indented, p, m, w) {
      ParseTodoComplete(line, Indented, p, m, w);
    }
  }

  /** `(\S{1})\]` after the head: a single non-blank status character. */
  predicate CheckedAt(line: string, p: int, m: int) {
    HeadAt(line, Quoted, p, m) && m + 3 < |line| && !IsWhite(line[m + 2]) && line[m + 3] == ']'
  }

  /** `todoLineIsChecked`: any single non-blank status counts as checked, not only `x`. */
  function TodoLineIsChecked(line: string): (b: bool)
    ensures b <==> exists p, m :: CheckedAt(line, p, m)
  {
    match ParseHead(line, Quoted)
    case None =>
      assert forall p, m :: !CheckedAt(line, p, m) by {
        forall p, m | HeadAt(line, Quoted, p, m) ensures false { ParseHeadComplete(line, Quoted, p, m); }
      }
      false
    case Some(hd) =>
      var s := hd.StatusIndex();
      assert forall p, m :: HeadAt(line, Quoted, p, m) ==> p == hd.indent && m == hd.markerEnd by {
        forall p, m | HeadAt(line, Quoted, p, m) ensures p == hd.indent && m == hd.markerEnd {
          ParseHeadComplete(line, Quoted, p, m);
        }
      }
      if s + 1 < |line| && !IsWhite(line[s]) && line[s + 1] == ']' then
        assert CheckedAt(line, hd.indent, hd.markerEnd);
        true
      else false
  }

  /** For a line `setLineTo` rewrites, `todoLineIsChecked` then reports exactly the value written. */
  lemma {:induction false} CheckedAfterSetLineTo(line: string, setTo: bool)
    requires SetMatches(line, Quoted)
    ensures TodoLineIsChecked(SetLineTo(line, Quoted, setTo)) == setTo
  {
    var p, m, e :| SetMatchAt(line, Quoted, p, m, e);
    SetLineToShape(line, Quoted, setTo, p, m, e);
    var r := SetLineTo(line, Quoted, setTo);
    if setTo {
      assert CheckedAt(r, p, m);
    } else {
      forall p', m' | CheckedAt(r, p', m') ensures false {
        HeadUnique(r, Quoted, p, m, p', m');
      }
    }
  }

  /** A status of a single blank character, such as `[ ]`, is never checked. */
  lemma {:induction false} BlankStatusUnchecked(line: string, p: nat, m: nat)
    requires HeadAt(line, Quoted, p, m) && m + 2 < |line| && IsWhite(line[m + 2])
    ensures !TodoLineIsChecked(line)
  {
    if TodoLineIsChecked(line) {
      var p', m' :| CheckedAt(line, p', m');
      HeadUnique(line, Quoted, p, m, p', m');
    }
  }
}

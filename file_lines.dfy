/**
 * File text and file-name helpers of src/utils/helpers.ts: splitting a file
 * into lines on `\r?\n` and joining lines with `\n`, the `.md` label and
 * extension helpers, the CSS class name derived from a group name, and the
 * path-keyed map of link metadata.
 */
module FileLines {
  import opened Options
  import opened JsText

  // ---------------------------------------------------------------------------
  // getAllLinesFromFile / combineFileLines

  /**
   * `cache.split(/\r?\n/)`: the separator is tried at every position from the
   * left, and at a `\r` followed by `\n` it takes both characters. The empty
   * string gives one empty line.
   */
  function GetAllLinesFromFile(s: string): (r: seq<string>)
    ensures |r| >= 1
    decreases |s|
  {
    if s == [] then [""]
    else if s[0] == '\n' then [""] + GetAllLinesFromFile(s[1..])
    else if |s| >= 2 && s[0] == '\r' && s[1] == '\n' then [""] + GetAllLinesFromFile(s[2..])
    else
      var rest := GetAllLinesFromFile(s[1..]);
      [[s[0]] + rest[0]] + rest[1..]
  }

  /** `lines.join("\n")`. */
  function CombineFileLines(lines: seq<string>): string {
    if |lines| == 0 then ""
    else if |lines| == 1 then lines[0]
    else lines[0] + "\n" + CombineFileLines(lines[1..])
  }

  /** `s` with every `\r\n` pair replaced by `\n`, scanning from the left. */
  function NormalizeLineBreaks(s: string): string
    decreases |s|
  {
    if s == [] then []
    else if |s| >= 2 && s[0] == '\r' && s[1] == '\n' then "\n" + NormalizeLineBreaks(s[2..])
    else [s[0]] + NormalizeLineBreaks(s[1..])
  }

  function CountChar(s: string, c: char): nat {
    if s == [] then 0 else (if s[0] == c then 1 else 0) + CountChar(s[1..], c)
  }

  lemma CombineConsHead(c: char, lines: seq<string>)
    requires |lines| >= 1
    ensures CombineFileLines([[c] + lines[0]] + lines[1..]) == [c] + CombineFileLines(lines)
  {
    var l' := [[c] + lines[0]] + lines[1..];
    assert |l'| == |lines| && l'[0] == [c] + lines[0];
    if |lines| == 1 {
      assert CombineFileLines(l') == l'[0];
    } else {
      assert l'[1..] == lines[1..];
      var tail := CombineFileLines(lines[1..]);
      assert CombineFileLines(l') == l'[0] + "\n" + tail;
      assert CombineFileLines(lines) == lines[0] + "\n" + tail;
      JoinAssoc([c], lines[0], "\n", tail);
    }
  }

  lemma JoinAssoc(a: string, b: string, n: string, t: string)
    ensures a + b + n + t == a + (b + n + t)
  {
  }

  /** Splitting and joining again only turns each `\r\n` into `\n`. */
  lemma {:induction false} CombineSplit(s: string)
    ensures CombineFileLines(GetAllLinesFromFile(s)) == NormalizeLineBreaks(s)
    decreases |s|
  {
    if s == [] {
    } else if s[0] == '\n' {
      CombineSplit(s[1..]);
      assert ([""] + GetAllLinesFromFile(s[1..]))[1..] == GetAllLinesFromFile(s[1..]);
    } else if |s| >= 2 && s[0] == '\r' && s[1] == '\n' {
      CombineSplit(s[2..]);
      assert ([""] + GetAllLinesFromFile(s[2..]))[1..] == GetAllLinesFromFile(s[2..]);
    } else {
      CombineSplit(s[1..]);
      CombineConsHead(s[0], GetAllLinesFromFile(s[1..]));
    }
  }

  /** There is one line more than there are `\n` characters. */
  lemma {:induction false} LineCount(s: string)
    ensures |GetAllLinesFromFile(s)| == CountChar(s, '\n') + 1
    decreases |s|
  {
    if s == [] {
    } else if s[0] == '\n' {
      LineCount(s[1..]);
    } else if |s| >= 2 && s[0] == '\r' && s[1] == '\n' {
      LineCount(s[2..]);
      assert s[1..][1..] == s[2..];
    } else {
      LineCount(s[1..]);
    }
  }

  predicate NoNewline(x: string) { forall k :: 0 <= k < |x| ==> x[k] != '\n' }

  /** No line of the split holds a `\n`. */
  lemma {:induction false} LinesNoNewline(s: string)
    ensures forall i :: 0 <= i < |GetAllLinesFromFile(s)| ==> NoNewline(GetAllLinesFromFile(s)[i])
    decreases |s|
  {
    if s == [] {
    } else if s[0] == '\n' {
      LinesNoNewline(s[1..]);
    } else if |s| >= 2 && s[0] == '\r' && s[1] == '\n' {
      LinesNoNewline(s[2..]);
    } else {
      LinesNoNewline(s[1..]);
      var rest := GetAllLinesFromFile(s[1..]);
      assert NoNewline(rest[0]);
      assert NoNewline([s[0]] + rest[0]) by {
        forall k | 0 < k < |[s[0]] + rest[0]| ensures ([s[0]] + rest[0])[k] != '\n' {
          assert ([s[0]] + rest[0])[k] == rest[0][k - 1];
        }
      }
    }
  }

  predicate EndsInCr(x: string) { x != [] && x[|x| - 1] == '\r' }

  /**
   * Text without `\n` in front of `t` joins the first line of `t`, unless it
   * ends in `\r` and `t` starts with `\n`.
   */
  lemma {:induction false} SplitPrepend(x: string, t: string)
    requires NoNewline(x)
    requires x == [] || x[|x| - 1] != '\r' || t == [] || t[0] != '\n'
    ensures GetAllLinesFromFile(x + t) ==
      [x + GetAllLinesFromFile(t)[0]] + GetAllLinesFromFile(t)[1..]
    decreases |x|
  {
    var r := GetAllLinesFromFile(t);
    if x != [] {
      var u, v := x + t, x[1..] + t;
      assert u[1..] == v && u[0] == x[0] != '\n';
      if |x| >= 2 {
        assert u[1] == x[1] != '\n';
      } else if t != [] {
        assert x[|x| - 1] == u[0] && u[1] == t[0];
      }
      assert x == [x[0]] + x[1..];
      assert [x[0]] + (x[1..] + r[0]) == x + r[0];
      SplitPrepend(x[1..], t);
      SplitKeepsFirst(u);
      assert GetAllLinesFromFile(v)[0] == x[1..] + r[0] && GetAllLinesFromFile(v)[1..] == r[1..];
    } else {
      assert x + t == t;
      assert x + r[0] == r[0];
      assert [x + r[0]] + r[1..] == r;
    }
  }

  /** A first character that starts no line break joins the first line. */
  lemma SplitKeepsFirst(u: string)
    requires u != [] && u[0] != '\n' && !(|u| >= 2 && u[0] == '\r' && u[1] == '\n')
    ensures GetAllLinesFromFile(u) ==
      [[u[0]] + GetAllLinesFromFile(u[1..])[0]] + GetAllLinesFromFile(u[1..])[1..]
  {
  }

  /**
   * Joining and splitting again gives the lines back when none holds a `\n`
   * and none but the last ends in `\r` (which would pair with the joining `\n`).
   */
  lemma {:induction false} SplitCombine(lines: seq<string>)
    requires |lines| >= 1
    requires forall i :: 0 <= i < |lines| ==> NoNewline(lines[i])
    requires forall i :: 0 <= i < |lines| - 1 ==> !EndsInCr(lines[i])
    ensures GetAllLinesFromFile(CombineFileLines(lines)) == lines
  {
    if |lines| == 1 {
      SplitPrepend(lines[0], []);
      assert lines[0] + [] == lines[0];
    } else {
      var rest := CombineFileLines(lines[1..]);
      SplitCombine(lines[1..]);
      assert CombineFileLines(lines) == lines[0] + ("\n" + rest);
      SplitPrepend(lines[0], "\n" + rest);
      assert ("\n" + rest)[1..] == rest;
      assert lines[0] + "" == lines[0];
    }
  }

  // ---------------------------------------------------------------------------
  // getFileLabelFromName / ensureMdExtension

  /** `/^(.+)\.md$/.exec(filename)?.[1]`. */
  function GetFileLabelFromName(filename: string): (r: Option<string>)
    ensures r.Some? <==> |filename| >= 4 && EndsWith(filename, ".md") && NoLineTerminator(filename[..|filename| - 3])
    ensures r.Some? ==> r.value != "" && filename == r.value + ".md"
  {
    if |filename| >= 4 && EndsWith(filename, ".md") && NoLineTerminator(filename[..|filename| - 3]) then
      Some(filename[..|filename| - 3])
    else None
  }

  /** `ensureMdExtension`: appends `.md` unless the path already ends with it. */
  function EnsureMdExtension(path: string): (r: string)
    ensures EndsWith(r, ".md")
    ensures EndsWith(path, ".md") ==> r == path
    ensures !EndsWith(path, ".md") ==> r == path + ".md"
  {
    if EndsWith(path, ".md") then path else path + ".md"
  }

  lemma EnsureMdExtensionIdempotent(path: string)
    ensures EnsureMdExtension(EnsureMdExtension(path)) == EnsureMdExtension(path)
  {
  }

  /** A one-line name without the extension is the label of the name with it. */
  lemma {:induction false} LabelOfEnsuredName(p: string)
    requires p != "" && NoLineTerminator(p) && !EndsWith(p, ".md")
    ensures GetFileLabelFromName(EnsureMdExtension(p)) == Some(p)
  {
    var f := p + ".md";
    assert f[..|f| - 3] == p;
    assert f[|f| - 3..] == ".md";
  }

  // ---------------------------------------------------------------------------
  // classifyString

  predicate IsAlnumChar(c: char) { IsAlnum(c) }

  /** `replace(/[^A-Za-z0-9]/g, "")`. */
  function Sanitize(s: string): (r: string)
    ensures forall k :: 0 <= k < |r| ==> IsAlnum(r[k])
    ensures |r| <= |s|
  {
    if s == [] then []
    else if IsAlnum(s[0]) then [s[0]] + Sanitize(s[1..])
    else Sanitize(s[1..])
  }

  predicate IsSeparator(c: char) { IsWhite(c) || c == '.' || c == '_' }

  /**
   * The global replace of `/^([A-Z])|[\s\._](\w)/g`: an upper-case first
   * letter is lower-cased; elsewhere a separator followed by a word character
   * becomes `-` and that character in lower case.
   */
  function Dasherize(s: string): string {
    if |s| > 0 && IsUpper(s[0]) then [ToLowerAscii(s[0])] + DasherizeFrom(s[1..])
    else DasherizeFrom(s)
  }

  /** The same replace where `^` can no longer match. */
  function DasherizeFrom(s: string): string {
    if s == [] then []
    else if |s| >= 2 && IsSeparator(s[0]) && IsWordChar(s[1]) then "-" + [ToLowerAscii(s[1])] + DasherizeFrom(s[2..])
    else [s[0]] + DasherizeFrom(s[1..])
  }

  function LowerFirst(s: string): (r: string)
    ensures |r| == |s|
    ensures s != [] ==> r[0] == ToLowerAscii(s[0]) && r[1..] == s[1..]
  {
    if s == [] then [] else [ToLowerAscii(s[0])] + s[1..]
  }

  lemma {:induction false} DasherizeFromAlnum(s: string)
    requires forall k :: 0 <= k < |s| ==> IsAlnum(s[k])
    ensures DasherizeFrom(s) == s
  {
    if s != [] {
      DasherizeFromAlnum(s[1..]);
    }
  }

  /**
   * `classifyString`: only letters and digits survive sanitising, so the
   * separator rule never fires and the result is the sanitised name with its
   * first letter in lower case.
   */
  function ClassifyString(s: string): (r: string)
    ensures r == LowerFirst(Sanitize(s))
    ensures forall k :: 0 <= k < |r| ==> IsAlnum(r[k])
    ensures r == [] || !IsUpper(r[0])
  {
    var t := Sanitize(s);
    DasherizeAlnum(t);
    Dasherize(t)
  }

  /** On letters and digits the replace only lower-cases an initial capital. */
  lemma DasherizeAlnum(t: string)
    requires forall k :: 0 <= k < |t| ==> IsAlnum(t[k])
    ensures Dasherize(t) == LowerFirst(t)
  {
    DasherizeFromAlnum(t);
    if t != [] {
      DasherizeFromAlnum(t[1..]);
    }
  }

  lemma ClassifyStringIdempotent(s: string)
    ensures ClassifyString(ClassifyString(s)) == ClassifyString(s)
  {
    var r := ClassifyString(s);
    SanitizeAlnum(r);
  }

  lemma {:induction false} SanitizeAlnum(s: string)
    requires forall k :: 0 <= k < |s| ==> IsAlnum(s[k])
    ensures Sanitize(s) == s
  {
    if s != [] {
      SanitizeAlnum(s[1..]);
    }
  }

  // ---------------------------------------------------------------------------
  // mapLinkMeta

  datatype LinkMeta = LinkMeta(filePath: string, linkName: string)

  /** `mapLinkMeta`: later links with the same path overwrite earlier ones. */
  method MapLinkMeta(links: seq<LinkMeta>) returns (m: map<string, LinkMeta>)
    ensures forall k :: k in m <==> exists i :: 0 <= i < |links| && links[i].filePath == k
    ensures forall k :: k in m ==> exists i :: 0 <= i < |links| && m[k] == links[i] && links[i].filePath == k &&
                                              (forall j :: i < j < |links| ==> links[j].filePath != k)
  {
    m := map[];
    var n := 0;
    while n < |links|
      invariant 0 <= n <= |links|
      invariant forall k :: k in m <==> exists i :: 0 <= i < n && links[i].filePath == k
      invariant forall k :: k in m ==> exists i :: 0 <= i < n && m[k] == links[i] && links[i].filePath == k &&
                                                  (forall j :: i < j < n ==> links[j].filePath != k)
    {
      m := m[links[n].filePath := links[n]];
      n := n + 1;
    }
  }
}

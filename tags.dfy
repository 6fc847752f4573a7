/**
 * Tag strings (src/utils/helpers.ts): `getTagMeta` splits `#main/sub`,
 * `retrieveTag` picks the name a tag filter compares, `removeTagFromText`
 * deletes a tag from a todo's text, and the front-matter helpers filter and
 * concatenate tag lists that the host's metadata cache has already parsed.
 */
module Tags {
  import opened Options
  import opened JsText

  /** `{ main, sub }`, each `null` (or `undefined`) when absent. */
  datatype TagMeta = TagMeta(main: Option<string>, sub: Option<string>)

  predicate IsNotSlash(c: char) { c != '/' }

  /**
   * One way the regex `^\#([^\/]+)\/?(.*)?$` can cut `tag`: `#`, then the main
   * name `tag[1..k]` (no `/`), then `tag[k..j]` which is empty or `/`, then a
   * remainder `tag[j..]` without a line break.
   */
  predicate TagCut(tag: string, k: int, j: int) {
    && |tag| > 0 && tag[0] == '#'
    && 1 < k <= j <= |tag| && j <= k + 1
    && (forall i :: 1 <= i < k ==> tag[i] != '/')
    && (j == k + 1 ==> tag[k] == '/')
    && forall i :: j <= i < |tag| ==> !IsLineTerminator(tag[i])
  }

  /**
   * `getTagMeta`. The regex takes the longest main name, then the `/` when there
   * is one; ECMAScript does not let `(.*)?` match the empty string, so `#a` and
   * `#a/` have no sub. A string the regex rejects gives `{null, null}`.
   */
  function GetTagMeta(tag: string): (r: TagMeta)
    ensures |tag| == 0 || tag[0] != '#' || |tag| == 1 || tag[1] == '/' ==> r == TagMeta(None, None)
    ensures r.main.None? ==> r.sub.None?
    ensures r.main.Some? ==> |r.main.value| > 0 && forall i :: 0 <= i < |r.main.value| ==> r.main.value[i] != '/'
    ensures r.sub.Some? ==> r.sub.value != "" && tag == "#" + r.main.value + "/" + r.sub.value
    ensures r.main.Some? && r.sub.None? ==> tag == "#" + r.main.value || tag == "#" + r.main.value + "/"
  {
    if |tag| == 0 || tag[0] != '#' then TagMeta(None, None)
    else
      var k := RunEnd(tag, 1, IsNotSlash);
      if k == 1 then TagMeta(None, None)
      else if k == |tag| then TagMeta(Some(tag[1..k]), None)
      else if exists i :: k + 1 <= i < |tag| && IsLineTerminator(tag[i]) then TagMeta(None, None)
      else if k + 1 == |tag| then TagMeta(Some(tag[1..k]), None)
      else TagMeta(Some(tag[1..k]), Some(tag[k + 1..]))
  }

  /** The regex matches exactly when `getTagMeta` finds a main name. */
  lemma {:induction false} GetTagMetaMatches(tag: string)
    ensures GetTagMeta(tag).main.Some? <==> exists k, j :: TagCut(tag, k, j)
  {
    var r := GetTagMeta(tag);
    if r.main.Some? {
      var k := |r.main.value| + 1;
      assert tag[1..k] == r.main.value;
      if r.sub.Some? {
        assert TagCut(tag, k, k + 1);
      } else if k == |tag| {
        assert TagCut(tag, k, k);
      } else {
        assert TagCut(tag, k, k + 1);
      }
    } else {
      forall k, j | TagCut(tag, k, j) ensures false {
        GreedyMain(tag, k, j);
      }
    }
  }

  /**
   * Whatever cut the regex could make, `getTagMeta` reports the one with the
   * longest main name, which is the one a backtracking matcher tries first.
   */
  lemma {:induction false} GreedyMain(tag: string, k: int, j: int)
    requires TagCut(tag, k, j)
    ensures GetTagMeta(tag).main.Some?
    ensures k <= |GetTagMeta(tag).main.value| + 1
  {
    var K := RunEnd(tag, 1, IsNotSlash);
    assert k <= K;
    if K < |tag| {
      assert tag[K] == '/';
      assert j <= K + 1;
      assert !exists i :: K + 1 <= i < |tag| && IsLineTerminator(tag[i]);
    }
  }

  /** `retrieveTag`: the main name if it is non-empty, else the sub if non-empty, else "". */
  function RetrieveTag(meta: TagMeta): (r: string)
    ensures meta.main.Some? && meta.main.value != "" ==> r == meta.main.value
    ensures !(meta.main.Some? && meta.main.value != "") && meta.sub.Some? && meta.sub.value != "" ==> r == meta.sub.value
    ensures r == "" <==> (meta.main.None? || meta.main.value == "") && (meta.sub.None? || meta.sub.value == "")
  {
    if meta.main.Some? && meta.main.value != "" then meta.main.value
    else if meta.sub.Some? && meta.sub.value != "" then meta.sub.value
    else ""
  }

  /** For a parsed tag, the name compared against the tag filter is the main name. */
  lemma RetrieveTagOfParsed(tag: string)
    requires GetTagMeta(tag).main.Some?
    ensures RetrieveTag(GetTagMeta(tag)) == GetTagMeta(tag).main.value
  {
  }

  /**
   * The group key of groups.ts: `#` and the non-null of `[main, sub]` joined
   * by `/`. It gives back the tag itself, except for a trailing `/`, which
   * `getTagMeta` drops.
   */
  function JoinTag(meta: TagMeta): string {
    "#" + match (meta.main, meta.sub)
      case (Some(m), Some(s)) => m + "/" + s
      case (Some(m), None) => m
      case (None, Some(s)) => s
      case (None, None) => ""
  }

  lemma {:induction false} JoinTagOfParsed(tag: string)
    requires GetTagMeta(tag).main.Some?
    ensures JoinTag(GetTagMeta(tag)) == tag || (GetTagMeta(tag).sub.None? && JoinTag(GetTagMeta(tag)) + "/" == tag)
  {
  }

  /**
   * Two tags whose main names have no `/` get the same key only when main and
   * sub are equal: a sub-tag never shares its parent's key.
   */
  lemma {:induction false} JoinTagInjective(m1: string, s1: Option<string>, m2: string, s2: Option<string>)
    requires forall i :: 0 <= i < |m1| ==> m1[i] != '/'
    requires forall i :: 0 <= i < |m2| ==> m2[i] != '/'
    requires JoinTag(TagMeta(Some(m1), s1)) == JoinTag(TagMeta(Some(m2), s2))
    ensures m1 == m2 && s1 == s2
  {
    JoinTagParts(m1, s1);
    JoinTagParts(m2, s2);
  }

  /** Where the main tag and the sub tag sit in a joined key whose main tag has no slash. */
  lemma JoinTagParts(m: string, s: Option<string>)
    requires forall i :: 0 <= i < |m| ==> m[i] != '/'
    ensures var key := JoinTag(TagMeta(Some(m), s));
      RunEnd(key, 1, IsNotSlash) == |m| + 1 && key[1..|m| + 1] == m &&
      (s.None? ==> |key| == |m| + 1) &&
      (s.Some? ==> |key| > |m| + 1 && key[|m| + 2..] == s.value)
  {
    var key := JoinTag(TagMeta(Some(m), s));
    var tail := if s.Some? then "/" + s.value else "";
    assert key == "#" + m + tail;
    forall i | 1 <= i < |m| + 1 ensures IsNotSlash(key[i]) { assert key[i] == m[i - 1]; }
    RunEndUnique(key, 1, |m| + 1, IsNotSlash);
    assert key[1..|m| + 1] == m;
    if s.Some? {
      assert key[|m| + 2..] == s.value;
    }
  }

  // ---------------------------------------------------------------------------
  // removeTagFromText: `text.replace(new RegExp("\\s?\\#" + tag + "[^\\s]*", "g"), "").trim()`

  predicate IsNotWhite(c: char) { !IsWhite(c) }

  /** The characters that would give a tag name a meaning of its own inside `new RegExp(...)`. */
  predicate IsRegexSyntaxChar(c: char) {
    c in "\\^$.|?*+()[]{}"
  }

  predicate IsLiteralTagName(tag: string) {
    forall i :: 0 <= i < |tag| ==> !IsRegexSyntaxChar(tag[i])
  }

  /**
   * The global replace of `\s?` + `t` + `[^\s]*` by nothing, scanning left to
   * right: an occurrence of `t` goes with the blank before it, if any, and with
   * every non-blank character after it.
   */
  function StripTag(s: string, t: string): (r: string)
    requires |t| > 0 && t[0] == '#'
    ensures |r| <= |s|
    decreases |s|
  {
    if s == [] then []
    else if IsWhite(s[0]) && StartsWith(s[1..], t) then StripTag(s[RunEnd(s, 1 + |t|, IsNotWhite)..], t)
    else if StartsWith(s, t) then StripTag(s[RunEnd(s, |t|, IsNotWhite)..], t)
    else [s[0]] + StripTag(s[1..], t)
  }

  /** What is left after a removal starts with a blank, and stays that way. */
  lemma {:induction false} StripTagKeepsBlankStart(s: string, t: string)
    requires |t| > 0 && t[0] == '#'
    requires s == [] || IsWhite(s[0])
    ensures StripTag(s, t) == [] || IsWhite(StripTag(s, t)[0])
    decreases |s|
  {
    if s != [] && IsWhite(s[0]) && StartsWith(s[1..], t) {
      StripTagKeepsBlankStart(s[RunEnd(s, 1 + |t|, IsNotWhite)..], t);
    }
  }

  /**
   * Up to its first removal the result copies `s`; from there on it starts with
   * a blank. Without any occurrence of the tag, the copy is all of `s`.
   */
  lemma {:induction false} StripTagShape(s: string, t: string) returns (k: nat)
    requires |t| > 0 && t[0] == '#'
    ensures k <= |s| && k <= |StripTag(s, t)|
    ensures StripTag(s, t)[..k] == s[..k]
    ensures k == |StripTag(s, t)| || IsWhite(StripTag(s, t)[k])
    ensures !Contains(s, t) ==> k == |s|
    decreases |s|
  {
    if s != [] {
      ContainsTail(s, t);
    }
    if s == [] {
      k := 0;
    } else if IsWhite(s[0]) && StartsWith(s[1..], t) {
      var rest := s[RunEnd(s, 1 + |t|, IsNotWhite)..];
      RestAfterRunBlank(s, 1 + |t|);
      StripTagKeepsBlankStart(rest, t);
      assert StripTag(s, t) == StripTag(rest, t);
      assert OccursAt(s[1..], t, 0);
      k := 0;
    } else if StartsWith(s, t) {
      var rest := s[RunEnd(s, |t|, IsNotWhite)..];
      RestAfterRunBlank(s, |t|);
      StripTagKeepsBlankStart(rest, t);
      assert StripTag(s, t) == StripTag(rest, t);
      k := 0;
    } else {
      var k' := StripTagShape(s[1..], t);
      k := k' + 1;
      var r' := StripTag(s[1..], t);
      ConsPrefix(s[0], r', k');
      ConsPrefix(s[0], s[1..], k');
      assert s == [s[0]] + s[1..];
      assert StripTag(s, t) == [s[0]] + r';
    }
  }

  /** An occurrence at the start, or in the tail, is an occurrence in `s`. */
  lemma ContainsTail(s: string, t: string)
    requires s != []
    ensures StartsWith(s, t) ==> Contains(s, t)
    ensures Contains(s[1..], t) ==> Contains(s, t)
  {
    if StartsWith(s, t) {
      assert OccursAt(s, t, 0);
    }
    if Contains(s[1..], t) {
      var i :| 0 <= i <= |s[1..]| && OccursAt(s[1..], t, i);
      assert s[i + 1..i + 1 + |t|] == s[1..][i..i + |t|];
      assert OccursAt(s, t, i + 1);
    }
  }

  /** Text without an occurrence of the tag passes through the replace unchanged. */
  lemma {:induction false} StripTagAbsent(s: string, t: string)
    requires |t| > 0 && t[0] == '#' && !Contains(s, t)
    ensures StripTag(s, t) == s
    decreases |s|
  {
    if s != [] {
      ContainsTail(s, t);
      StripTagAbsent(s[1..], t);
      assert s == [s[0]] + s[1..];
    }
  }

  /** After a run of non-blanks there is nothing left or a blank. */
  lemma RestAfterRunBlank(s: string, i: nat)
    requires i <= |s|
    ensures var rest := s[RunEnd(s, i, IsNotWhite)..]; rest == [] || IsWhite(rest[0])
  {
  }

  lemma ConsPrefix<T>(c: T, r: seq<T>, k: nat)
    requires k <= |r|
    ensures ([c] + r)[..k + 1] == [c] + r[..k]
    ensures k < |r| ==> ([c] + r)[k + 1] == r[k]
  {
  }

  /** No occurrence of the tag survives the replace, when the tag contains no blank. */
  lemma {:induction false} StripTagRemovesAll(s: string, t: string)
    requires |t| > 1 && t[0] == '#' && NoWhite(t)
    ensures !Contains(StripTag(s, t), t)
    decreases |s|
  {
    if s == [] {
    } else if IsWhite(s[0]) && StartsWith(s[1..], t) {
      StripTagRemovesAll(s[RunEnd(s, 1 + |t|, IsNotWhite)..], t);
    } else if StartsWith(s, t) {
      StripTagRemovesAll(s[RunEnd(s, |t|, IsNotWhite)..], t);
    } else {
      var rest := StripTag(s[1..], t);
      assert StripTag(s, t) == [s[0]] + rest;
      StripTagRemovesAll(s[1..], t);
      var k := StripTagShape(s[1..], t);
      KeptCharNoOccurrence(s, t, rest, k);
    }
  }

  /**
   * Keeping `s[0]` in front of a tag-free remainder cannot create an
   * occurrence: one at 0 would either copy `s[..|t|]` or need a blank inside the tag.
   */
  lemma KeptCharNoOccurrence(s: string, t: string, rest: string, k: nat)
    requires |t| > 1 && NoWhite(t)
    requires s != [] && !StartsWith(s, t) && !Contains(rest, t)
    requires k <= |s| - 1 && k <= |rest| && rest[..k] == s[1..][..k]
    requires k == |rest| || IsWhite(rest[k])
    ensures !Contains([s[0]] + rest, t)
  {
    var r := [s[0]] + rest;
    forall i | 0 <= i <= |r| && OccursAt(r, t, i) ensures false {
      if i > 0 {
        assert rest[i - 1..i - 1 + |t|] == r[i..i + |t|];
        assert OccursAt(rest, t, i - 1);
      } else {
        KeptCharAtStart(s, t, rest, k);
      }
    }
  }

  lemma KeptCharAtStart(s: string, t: string, rest: string, k: nat)
    requires |t| > 1 && NoWhite(t)
    requires s != [] && !StartsWith(s, t)
    requires k <= |s| - 1 && k <= |rest| && rest[..k] == s[1..][..k]
    requires k == |rest| || IsWhite(rest[k])
    ensures !OccursAt([s[0]] + rest, t, 0)
  {
    var r := [s[0]] + rest;
    if |t| - 1 <= k {
      if |t| <= |r| {
        assert r[..|t|] == [s[0]] + rest[..|t| - 1];
        assert rest[..|t| - 1] == s[1..][..|t| - 1];
        assert s[..|t|] == [s[0]] + s[1..][..|t| - 1];
      }
    } else if k < |rest| {
      assert r[k + 1] == rest[k];
    }
  }

  /**
   * `removeTagFromText`: "" for empty text; just trimmed text for an empty tag;
   * otherwise the text with every `#tag...` token (and the blank before it) removed, then trimmed.
   */
  function RemoveTagFromText(text: string, tag: string): (r: string)
    requires IsLiteralTagName(tag)
    ensures text == "" ==> r == ""
    ensures text != "" && tag == "" ==> r == Trim(text)
    ensures r == "" || (!IsWhite(r[0]) && !IsWhite(r[|r| - 1]))
  {
    if text == "" then ""
    else if tag == "" then Trim(text)
    else Trim(StripTag(text, "#" + tag))
  }

  /** Text in which `#tag` does not occur is only trimmed: every character between the ends is kept. */
  lemma RemoveTagFromTextAbsent(text: string, tag: string)
    requires IsLiteralTagName(tag) && !Contains(text, "#" + tag)
    ensures RemoveTagFromText(text, tag) == Trim(text)
  {
    if text != "" && tag != "" {
      StripTagAbsent(text, "#" + tag);
    }
  }

  lemma {:induction false} RemoveTagFromTextRemovesTag(text: string, tag: string)
    requires IsLiteralTagName(tag) && tag != "" && NoWhite(tag)
    ensures !Contains(RemoveTagFromText(text, tag), "#" + tag)
  {
    if text != "" {
      var t := "#" + tag;
      assert NoWhite(t) by {
        forall i | 0 <= i < |t| ensures !IsWhite(t[i]) {
          if i > 0 { assert t[i] == tag[i - 1]; }
        }
      }
      var s := StripTag(text, t);
      StripTagRemovesAll(text, t);
      var r := Trim(s);
      var a, b :| 0 <= a <= b <= |s| && r == s[a..b] && AllWhite(s[..a]) && AllWhite(s[b..]);
      if Contains(r, t) {
        ContainsSlice(s, a, b, t);
      }
    }
  }

  // ---------------------------------------------------------------------------
  // getFrontmatterTags / getAllTagsFromMetadata, given the tags the host parsed.

  /** The front-matter tags whose main name is in `todoTags`. */
  function FilterByMain(tags: seq<string>, todoTags: seq<string>): (r: seq<string>)
    ensures |r| <= |tags|
  {
    if tags == [] then []
    else
      var rest := FilterByMain(tags[1..], todoTags);
      var m := GetTagMeta(tags[0]).main;
      if m.Some? && m.value in todoTags then [tags[0]] + rest else rest
  }

  /** The filter keeps exactly the tags whose main name is listed. */
  lemma {:induction false} FilterByMainMembers(tags: seq<string>, todoTags: seq<string>)
    ensures forall x :: x in FilterByMain(tags, todoTags) <==>
      x in tags && GetTagMeta(x).main.Some? && GetTagMeta(x).main.value in todoTags
  {
    if tags != [] {
      FilterByMainMembers(tags[1..], todoTags);
      assert forall x :: x in tags <==> x == tags[0] || x in tags[1..];
    }
  }

  /** `filter` works element by element: the kept tags of a concatenation are those of each part, in order. */
  lemma {:induction false} FilterByMainAppend(a: seq<string>, b: seq<string>, todoTags: seq<string>)
    ensures FilterByMain(a + b, todoTags) == FilterByMain(a, todoTags) + FilterByMain(b, todoTags)
  {
    if a == [] {
      assert a + b == b;
    } else {
      assert (a + b)[0] == a[0] && (a + b)[1..] == a[1..] + b;
      var m := GetTagMeta(a[0]).main;
      var h := if m.Some? && m.value in todoTags then [a[0]] else [];
      var u, v, w := FilterByMain(a[1..], todoTags), FilterByMain(b, todoTags), FilterByMain(a[1..] + b, todoTags);
      assert FilterByMain(a + b, todoTags) == h + w;
      assert FilterByMain(a, todoTags) == h + u;
      FilterByMainAppend(a[1..], b, todoTags);
      assert h + (u + v) == (h + u) + v;
    }
  }

  /** A single tag is kept exactly when its main name is listed; duplicates are therefore kept as often as they occur. */
  lemma FilterByMainOne(x: string, todoTags: seq<string>)
    ensures FilterByMain([x], todoTags) ==
      if GetTagMeta(x).main.Some? && GetTagMeta(x).main.value in todoTags then [x] else []
  {
  }

  /** `getFrontmatterTags`: all parsed front-matter tags, or those a non-empty filter names. */
  function GetFrontmatterTags(frontMatterTags: seq<string>, todoTags: seq<string>): (r: seq<string>)
    ensures |todoTags| == 0 ==> r == frontMatterTags
    ensures |todoTags| > 0 ==> r == FilterByMain(frontMatterTags, todoTags)
    ensures |todoTags| > 0 ==> forall x :: x in r <==> x in frontMatterTags && GetTagMeta(x).main.Some? && GetTagMeta(x).main.value in todoTags
  {
    FilterByMainMembers(frontMatterTags, todoTags);
    if |todoTags| > 0 then FilterByMain(frontMatterTags, todoTags) else frontMatterTags
  }

  /** The parts of a file's metadata cache the tag helpers read. */
  datatype TagCache = TagCache(frontMatterTags: seq<string>, blockTags: Option<seq<string>>)

  /** `getAllTagsFromMetadata`: front-matter tags, then the tags in the body; none without a cache. */
  function GetAllTagsFromMetadata(cache: Option<TagCache>): (r: seq<string>)
    ensures cache.None? ==> r == []
    ensures cache.Some? ==> r == cache.value.frontMatterTags + cache.value.blockTags.GetOr([])
  {
    match cache
    case None => []
    case Some(c) => GetFrontmatterTags(c.frontMatterTags, []) + c.blockTags.GetOr([])
  }
}

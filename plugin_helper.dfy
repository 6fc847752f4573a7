/**
 * src/plugins/plugin-helper.ts: the HTML escaping handed to every markdown-it
 * rule's replacer, and the rule registration that anchors a pattern, rebuilds
 * its flags and allocates the rule's id from a module-wide counter.
 */
module PluginHelper {
  import opened JsText
  import opened FileLines

  // ---------------------------------------------------------------------------
  // escape

  /** `s.replace(/c/g, rep)` for a one-character pattern: every `c`, left to right, becomes `rep`. */
  function ReplaceAll(s: string, c: char, rep: string): string {
    if s == [] then [] else (if s[0] == c then rep else [s[0]]) + ReplaceAll(s[1..], c, rep)
  }

  /** `escape`: five global replacements, `&` first. */
  function Escape(html: string): string {
    ReplaceAll(ReplaceAll(ReplaceAll(ReplaceAll(ReplaceAll(
      html, '&', "&amp;"), '"', "&quot;"), '\'', "&#39;"), '<', "&lt;"), '>', "&gt;")
  }

  /** The characters `escape` rewrites. */
  predicate IsSpecial(c: char) { c == '&' || c == '"' || c == '\'' || c == '<' || c == '>' }

  /** The characters that must not appear raw in the output. */
  predicate IsMarkup(c: char) { c == '"' || c == '\'' || c == '<' || c == '>' }

  /** What one character becomes: its entity, or itself. */
  function EntityOf(c: char): (r: string)
    ensures |r| >= 1
    ensures !IsSpecial(c) <==> r == [c]
  {
    if c == '&' then "&amp;"
    else if c == '"' then "&quot;"
    else if c == '\'' then "&#39;"
    else if c == '<' then "&lt;"
    else if c == '>' then "&gt;"
    else [c]
  }

  /** A single left-to-right pass replacing each character by `EntityOf` of it. */
  function EscapeEach(s: string): string {
    if s == [] then [] else EntityOf(s[0]) + EscapeEach(s[1..])
  }

  lemma {:induction false} ReplaceAllAppend(a: string, b: string, c: char, rep: string)
    ensures ReplaceAll(a + b, c, rep) == ReplaceAll(a, c, rep) + ReplaceAll(b, c, rep)
  {
    if a == [] {
      assert a + b == b;
    } else {
      assert (a + b)[1..] == a[1..] + b;
      ReplaceAllAppend(a[1..], b, c, rep);
    }
  }

  /** Escaping distributes over concatenation: no replacement spans the seam. */
  lemma EscapeAppend(a: string, b: string)
    ensures Escape(a + b) == Escape(a) + Escape(b)
  {
    var a1, b1 := ReplaceAll(a, '&', "&amp;"), ReplaceAll(b, '&', "&amp;");
    ReplaceAllAppend(a, b, '&', "&amp;");
    var a2, b2 := ReplaceAll(a1, '"', "&quot;"), ReplaceAll(b1, '"', "&quot;");
    ReplaceAllAppend(a1, b1, '"', "&quot;");
    var a3, b3 := ReplaceAll(a2, '\'', "&#39;"), ReplaceAll(b2, '\'', "&#39;");
    ReplaceAllAppend(a2, b2, '\'', "&#39;");
    var a4, b4 := ReplaceAll(a3, '<', "&lt;"), ReplaceAll(b3, '<', "&lt;");
    ReplaceAllAppend(a3, b3, '<', "&lt;");
    ReplaceAllAppend(a4, b4, '>', "&gt;");
  }

  /** One character goes through the five passes to its entity: no entity is rewritten by a later pass. */
  lemma EscapeChar(c: char)
    ensures Escape([c]) == EntityOf(c)
  {
    if IsSpecial(c) {
      EscapeSpecial(c);
    } else {
      ReplaceAllSingle(c, '&', "&amp;");
      ReplaceAllSingle(c, '"', "&quot;");
      ReplaceAllSingle(c, '\'', "&#39;");
      ReplaceAllSingle(c, '<', "&lt;");
      ReplaceAllSingle(c, '>', "&gt;");
    }
  }

  /** Each special character: its first matching pass makes the entity, the later passes find nothing to replace. */
  lemma EscapeSpecial(c: char)
    requires IsSpecial(c)
    ensures Escape([c]) == EntityOf(c)
  {
    if c == '&' { EscapeAmp(); }
    else if c == '"' { EscapeQuot(); }
    else if c == '\'' { EscapeApos(); }
    else if c == '<' { EscapeLt(); }
    else { EscapeGt(); }
  }

  /** Text without markup characters goes through the last four passes unchanged. */
  lemma MarkupPassesKeep(e: string)
    requires forall k :: 0 <= k < |e| ==> !IsMarkup(e[k])
    ensures ReplaceAll(ReplaceAll(ReplaceAll(ReplaceAll(e, '"', "&quot;"), '\'', "&#39;"), '<', "&lt;"), '>', "&gt;") == e
  {
    ReplaceAllAbsent(e, '"', "&quot;");
    ReplaceAllAbsent(e, '\'', "&#39;");
    ReplaceAllAbsent(e, '<', "&lt;");
    ReplaceAllAbsent(e, '>', "&gt;");
  }

  /** Text without `'`, `<` or `>` goes through the last three passes unchanged. */
  lemma LastThreePassesKeep(e: string)
    requires forall k :: 0 <= k < |e| ==> e[k] != '\'' && e[k] != '<' && e[k] != '>'
    ensures ReplaceAll(ReplaceAll(ReplaceAll(e, '\'', "&#39;"), '<', "&lt;"), '>', "&gt;") == e
  {
    ReplaceAllAbsent(e, '\'', "&#39;");
    ReplaceAllAbsent(e, '<', "&lt;");
    ReplaceAllAbsent(e, '>', "&gt;");
  }

  /** Text without `<` or `>` goes through the last two passes unchanged. */
  lemma LastTwoPassesKeep(e: string)
    requires forall k :: 0 <= k < |e| ==> e[k] != '<' && e[k] != '>'
    ensures ReplaceAll(ReplaceAll(e, '<', "&lt;"), '>', "&gt;") == e
  {
    ReplaceAllAbsent(e, '<', "&lt;");
    ReplaceAllAbsent(e, '>', "&gt;");
  }

  lemma EscapeAmp()
    ensures Escape(['&']) == "&amp;"
  {
    var s1 := ReplaceAll(['&'], '&', "&amp;");
    assert s1 == "&amp;" by { ReplaceAllSingle('&', '&', "&amp;"); }
    MarkupPassesKeep(s1);
  }

  lemma EscapeQuot()
    ensures Escape(['"']) == "&quot;"
  {
    var s1 := ReplaceAll(['"'], '&', "&amp;");
    assert s1 == ['"'] by { ReplaceAllSingle('"', '&', "&amp;"); }
    var s2 := ReplaceAll(s1, '"', "&quot;");
    assert s2 == "&quot;" by { ReplaceAllSingle('"', '"', "&quot;"); }
    LastThreePassesKeep(s2);
  }

  lemma EscapeApos()
    ensures Escape(['\'']) == "&#39;"
  {
    var s1 := ReplaceAll(['\''], '&', "&amp;");
    assert s1 == ['\''] by { ReplaceAllSingle('\'', '&', "&amp;"); }
    var s2 := ReplaceAll(s1, '"', "&quot;");
    assert s2 == ['\''] by { ReplaceAllSingle('\'', '"', "&quot;"); }
    var s3 := ReplaceAll(s2, '\'', "&#39;");
    assert s3 == "&#39;" by { ReplaceAllSingle('\'', '\'', "&#39;"); }
    LastTwoPassesKeep(s3);
  }

  lemma EscapeLt()
    ensures Escape(['<']) == "&lt;"
  {
    var s1 := ReplaceAll(['<'], '&', "&amp;");
    assert s1 == ['<'] by { ReplaceAllSingle('<', '&', "&amp;"); }
    var s2 := ReplaceAll(s1, '"', "&quot;");
    assert s2 == ['<'] by { ReplaceAllSingle('<', '"', "&quot;"); }
    var s3 := ReplaceAll(s2, '\'', "&#39;");
    assert s3 == ['<'] by { ReplaceAllSingle('<', '\'', "&#39;"); }
    var s4 := ReplaceAll(s3, '<', "&lt;");
    assert s4 == "&lt;" by { ReplaceAllSingle('<', '<', "&lt;"); }
    assert ReplaceAll(s4, '>', "&gt;") == s4 by { ReplaceAllAbsent(s4, '>', "&gt;"); }
  }

  lemma EscapeGt()
    ensures Escape(['>']) == "&gt;"
  {
    var s1 := ReplaceAll(['>'], '&', "&amp;");
    assert s1 == ['>'] by { ReplaceAllSingle('>', '&', "&amp;"); }
    var s2 := ReplaceAll(s1, '"', "&quot;");
    assert s2 == ['>'] by { ReplaceAllSingle('>', '"', "&quot;"); }
    var s3 := ReplaceAll(s2, '\'', "&#39;");
    assert s3 == ['>'] by { ReplaceAllSingle('>', '\'', "&#39;"); }
    var s4 := ReplaceAll(s3, '<', "&lt;");
    assert s4 == ['>'] by { ReplaceAllSingle('>', '<', "&lt;"); }
    assert ReplaceAll(s4, '>', "&gt;") == "&gt;" by { ReplaceAllSingle('>', '>', "&gt;"); }
  }

  lemma ReplaceAllSingle(d: char, c: char, rep: string)
    ensures ReplaceAll([d], c, rep) == if d == c then rep else [d]
  {
    assert ReplaceAll([d], c, rep) == (if d == c then rep else [d]) + ReplaceAll([], c, rep);
  }

  /** Replacing a character that does not occur changes nothing. */
  lemma {:induction false} ReplaceAllAbsent(s: string, c: char, rep: string)
    requires c !in s
    ensures ReplaceAll(s, c, rep) == s
  {
    if s != [] {
      ReplaceAllAbsent(s[1..], c, rep);
    }
  }

  /** The chain of replacements is the single pass: `&` is replaced first, so no entity is escaped twice. */
  lemma {:induction false} EscapeIsEachChar(s: string)
    ensures Escape(s) == EscapeEach(s)
  {
    if s != [] {
      assert s == [s[0]] + s[1..];
      EscapeAppend([s[0]], s[1..]);
      EscapeChar(s[0]);
      EscapeIsEachChar(s[1..]);
    }
  }

  /** A string without special characters passes through unchanged; the empty string gives the empty string. */
  lemma {:induction false} EscapePlain(s: string)
    requires forall k :: 0 <= k < |s| ==> !IsSpecial(s[k])
    ensures Escape(s) == s
  {
    EscapeIsEachChar(s);
    EscapeEachPlain(s);
  }

  lemma {:induction false} EscapeEachPlain(s: string)
    requires forall k :: 0 <= k < |s| ==> !IsSpecial(s[k])
    ensures EscapeEach(s) == s
  {
    if s != [] {
      EscapeEachPlain(s[1..]);
    }
  }

  /** The output never holds a raw `"`, `'`, `<` or `>`. */
  lemma {:induction false} EscapeNoMarkup(s: string)
    ensures forall k :: 0 <= k < |Escape(s)| ==> !IsMarkup(Escape(s)[k])
  {
    EscapeIsEachChar(s);
    EscapeEachNoMarkup(s);
  }

  lemma {:induction false} EscapeEachNoMarkup(s: string)
    ensures forall k :: 0 <= k < |EscapeEach(s)| ==> !IsMarkup(EscapeEach(s)[k])
  {
    if s != [] {
      EscapeEachNoMarkup(s[1..]);
      var h, t := EntityOf(s[0]), EscapeEach(s[1..]);
      assert EscapeEach(s) == h + t;
      forall k | 0 <= k < |h + t| ensures !IsMarkup((h + t)[k]) {
        if k >= |h| {
          assert (h + t)[k] == t[k - |h|];
        }
      }
    }
  }

  /** One of the five entities starts at `i`. */
  predicate EntityAt(r: string, i: int) {
    OccursAt(r, "&amp;", i) || OccursAt(r, "&quot;", i) || OccursAt(r, "&#39;", i) ||
    OccursAt(r, "&lt;", i) || OccursAt(r, "&gt;", i)
  }

  lemma OccursAfter(a: string, b: string, p: string, j: int)
    requires OccursAt(b, p, j)
    ensures OccursAt(a + b, p, |a| + j)
  {
    assert (a + b)[|a| + j..|a| + j + |p|] == b[j..j + |p|];
  }

  /** An entity in the tail stays an entity after a prefix is put in front. */
  lemma EntityAfter(a: string, b: string, j: int)
    requires EntityAt(b, j)
    ensures EntityAt(a + b, |a| + j)
  {
    if OccursAt(b, "&amp;", j) { OccursAfter(a, b, "&amp;", j); }
    else if OccursAt(b, "&quot;", j) { OccursAfter(a, b, "&quot;", j); }
    else if OccursAt(b, "&#39;", j) { OccursAfter(a, b, "&#39;", j); }
    else if OccursAt(b, "&lt;", j) { OccursAfter(a, b, "&lt;", j); }
    else { OccursAfter(a, b, "&gt;", j); }
  }

  /** The entity of a special character starts an entity. */
  lemma EntityFirst(c: char, t: string)
    requires IsSpecial(c)
    ensures EntityAt(EntityOf(c) + t, 0)
  {
    var h := EntityOf(c);
    assert (h + t)[..|h|] == h;
  }

  /** Every `&` of the output begins one of the five entities. */
  lemma {:induction false} EscapeAmpersands(s: string)
    ensures forall k :: 0 <= k < |Escape(s)| && Escape(s)[k] == '&' ==> EntityAt(Escape(s), k)
  {
    EscapeIsEachChar(s);
    EscapeEachAmpersands(s);
  }

  lemma {:induction false} EscapeEachAmpersands(s: string)
    ensures forall k :: 0 <= k < |EscapeEach(s)| && EscapeEach(s)[k] == '&' ==> EntityAt(EscapeEach(s), k)
  {
    if s != [] {
      EscapeEachAmpersands(s[1..]);
      var h, t := EntityOf(s[0]), EscapeEach(s[1..]);
      assert EscapeEach(s) == h + t;
      forall k | 0 <= k < |h + t| && (h + t)[k] == '&' ensures EntityAt(h + t, k) {
        if k >= |h| {
          assert t[k - |h|] == '&';
        }
        AmpersandInFront(s[0], t, k);
      }
    }
  }

  /** An `&` of `EntityOf(c) + t` begins an entity, given that every `&` of `t` does. */
  lemma AmpersandInFront(c: char, t: string, k: int)
    requires 0 <= k < |EntityOf(c) + t| && (EntityOf(c) + t)[k] == '&'
    requires k >= |EntityOf(c)| ==> EntityAt(t, k - |EntityOf(c)|)
    ensures EntityAt(EntityOf(c) + t, k)
  {
    var h := EntityOf(c);
    if k < |h| {
      assert h[k] == '&';
      assert IsSpecial(c) && k == 0;
      EntityFirst(c, t);
    } else {
      EntityAfter(h, t, k - |h|);
    }
  }

  /** The output length: each `&` and `'` grows by 4, each `"` by 5, each `<` and `>` by 3. */
  lemma {:induction false} EscapeLength(s: string)
    ensures |Escape(s)| == |s| + 4 * CountChar(s, '&') + 5 * CountChar(s, '"') + 4 * CountChar(s, '\'')
                          + 3 * CountChar(s, '<') + 3 * CountChar(s, '>')
  {
    EscapeIsEachChar(s);
    EscapeEachLength(s);
  }

  lemma {:induction false} EscapeEachLength(s: string)
    ensures |EscapeEach(s)| == |s| + 4 * CountChar(s, '&') + 5 * CountChar(s, '"') + 4 * CountChar(s, '\'')
                              + 3 * CountChar(s, '<') + 3 * CountChar(s, '>')
  {
    if s != [] {
      EscapeEachLength(s[1..]);
    }
  }

  // ---------------------------------------------------------------------------
  // regexPlugin: flags, anchoring and the id counter

  /** The decimal digits of `n`, as `String(n)` writes a whole number. */
  function DecimalString(n: nat): (r: string)
    ensures |r| >= 1 && AllDigits(r)
    ensures r[0] == '0' ==> n == 0
  {
    if n < 10 then [('0' as int + n) as char]
    else DecimalString(n / 10) + [('0' as int + n % 10) as char]
  }

  /** The number a string of decimal digits denotes. */
  function DecimalValue(s: string): nat
    requires AllDigits(s)
  {
    if s == [] then 0 else 10 * DecimalValue(s[..|s| - 1]) + (s[|s| - 1] as int - '0' as int)
  }

  /** Reading back the digits gives the number. */
  lemma {:induction false} DecimalRoundTrip(n: nat)
    ensures DecimalValue(DecimalString(n)) == n
  {
    if n >= 10 {
      var d := DecimalString(n / 10);
      var s := d + [('0' as int + n % 10) as char];
      assert s[..|s| - 1] == d;
      DecimalRoundTrip(n / 10);
    }
  }

  /** `"regexp-" + counter`. */
  function RuleId(n: nat): string {
    "regexp-" + DecimalString(n)
  }

  /** Distinct counter values give distinct ids. */
  lemma RuleIdInjective(a: nat, b: nat)
    requires RuleId(a) == RuleId(b)
    ensures a == b
  {
    var p := "regexp-";
    assert RuleId(a)[|p|..] == DecimalString(a);
    assert RuleId(b)[|p|..] == DecimalString(b);
    DecimalRoundTrip(a);
    DecimalRoundTrip(b);
  }

  /** The position of a flag letter in `gmi`. */
  function FlagRank(c: char): int {
    if c == 'g' then 0 else if c == 'm' then 1 else if c == 'i' then 2 else 3
  }

  /** The flags string: `g`, `m`, `i`, each present when its property is set, in that order. */
  function Flags(global: bool, multiline: bool, ignoreCase: bool): (r: string)
    ensures ('g' in r <==> global) && ('m' in r <==> multiline) && ('i' in r <==> ignoreCase)
    ensures forall a, b :: 0 <= a < b < |r| ==> FlagRank(r[a]) < FlagRank(r[b])
    ensures forall k :: 0 <= k < |r| ==> FlagRank(r[k]) < 3
  {
    (if global then "g" else "") + (if multiline then "m" else "") + (if ignoreCase then "i" else "")
  }

  /** The parts of a `RegExp` that `regexPlugin` reads. */
  datatype Pattern = Pattern(source: string, global: bool, multiline: bool, ignoreCase: bool)

  /** A registered inline rule: its id and the anchored pattern it runs. */
  datatype Rule = Rule(id: string, source: string, flags: string)

  /** The module-level `counter` and the ids handed out from it. */
  class RuleRegistry {
    var counter: nat
    ghost var issued: seq<string>

    ghost predicate Valid()
      reads this
    {
      |issued| == counter && forall k :: 0 <= k < counter ==> issued[k] == RuleId(k)
    }

    constructor()
      ensures Valid() && counter == 0 && issued == []
    {
      counter := 0;
      issued := [];
    }

    /**
     * `regexPlugin`: anchors the source with `^`, keeps the `g`, `m` and `i`
     * flags in that order, and takes the next id; no id is handed out twice.
     */
    method RegexPlugin(regexp: Pattern) returns (rule: Rule)
      requires Valid()
      modifies this
      ensures Valid()
      ensures counter == old(counter) + 1 && issued == old(issued) + [rule.id]
      ensures rule.id == RuleId(old(counter)) && rule.id !in old(issued)
      ensures rule.source == "^" + regexp.source
      ensures rule.flags == Flags(regexp.global, regexp.multiline, regexp.ignoreCase)
    {
      var flags := (if regexp.global then "g" else "") + (if regexp.multiline then "m" else "")
        + (if regexp.ignoreCase then "i" else "");
      var id := "regexp-" + DecimalString(counter);
      forall k | 0 <= k < counter ensures issued[k] != id {
        if issued[k] == id {
          RuleIdInjective(k, counter);
        }
      }
      counter := counter + 1;
      issued := issued + [id];
      rule := Rule(id, "^" + regexp.source, flags);
    }
  }
}

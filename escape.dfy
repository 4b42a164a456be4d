/** `htmlEscape` (scripts/archive-moltbook.mjs): the five `replaceAll` calls, with
    `&` replaced first so that the entities introduced later are not escaped again. */
module Escape {
  import opened Text

  function HtmlEscape(s: string): string {
    ReplaceAll(ReplaceAll(ReplaceAll(ReplaceAll(ReplaceAll(
      s, '&', "&amp;"), '<', "&lt;"), '>', "&gt;"), '"', "&quot;"), '\'', "&#39;")
  }

  /** The five characters `htmlEscape` rewrites. */
  predicate Special(c: char) {
    c == '&' || c == '<' || c == '>' || c == '"' || c == '\''
  }

  /** Reference definition: escape one character at a time. */
  function EscapeChar(c: char): string {
    if c == '&' then "&amp;"
    else if c == '<' then "&lt;"
    else if c == '>' then "&gt;"
    else if c == '"' then "&quot;"
    else if c == '\'' then "&#39;"
    else [c]
  }

  function EscapeEach(s: string): string {
    if s == [] then [] else EscapeChar(s[0]) + EscapeEach(s[1..])
  }

  /** One of the five entities starts at position `i` of `r`. */
  predicate EntityAt(r: string, i: int) {
    OccursAt(r, "&amp;", i) || OccursAt(r, "&lt;", i) || OccursAt(r, "&gt;", i)
    || OccursAt(r, "&quot;", i) || OccursAt(r, "&#39;", i)
  }

  /** Escaped text: no markup character, and every `&` opens an entity. */
  predicate IsEscaped(r: string) {
    && '<' !in r && '>' !in r && '"' !in r && '\'' !in r
    && forall i :: 0 <= i < |r| && r[i] == '&' ==> EntityAt(r, i)
  }

  /** The replaceAll chain, applied to one character, is that character's escape:
      the steps before the one that rewrites it leave it alone, and the steps after
      leave the entity alone. */
  lemma HtmlEscapeChar(c: char)
    ensures HtmlEscape([c]) == EscapeChar(c)
  {
    if c == '&' { HtmlEscapeAmp(c); }
    else if c == '<' { HtmlEscapeLt(c); }
    else if c == '>' { HtmlEscapeGt(c); }
    else if c == '"' { HtmlEscapeQuot(c); }
    else if c == '\'' { HtmlEscapeApos(c); }
    else { HtmlEscapePlain(c); }
  }

  lemma HtmlEscapeAmp(c: char)
    requires c == '&'
    ensures HtmlEscape([c]) == "&amp;"
  {
    ReplaceAllSingle(c, '&', "&amp;");
    After1("&amp;");
  }

  lemma HtmlEscapeLt(c: char)
    requires c == '<'
    ensures HtmlEscape([c]) == "&lt;"
  {
    ReplaceAllAbsent([c], '&', "&amp;");
    ReplaceAllSingle(c, '<', "&lt;");
    After2("&lt;");
  }

  lemma HtmlEscapeGt(c: char)
    requires c == '>'
    ensures HtmlEscape([c]) == "&gt;"
  {
    ReplaceAllAbsent([c], '&', "&amp;");
    ReplaceAllAbsent([c], '<', "&lt;");
    ReplaceAllSingle(c, '>', "&gt;");
    After3("&gt;");
  }

  lemma HtmlEscapeQuot(c: char)
    requires c == '"'
    ensures HtmlEscape([c]) == "&quot;"
  {
    ReplaceAllAbsent([c], '&', "&amp;");
    ReplaceAllAbsent([c], '<', "&lt;");
    ReplaceAllAbsent([c], '>', "&gt;");
    ReplaceAllSingle(c, '"', "&quot;");
    After4("&quot;");
  }

  lemma HtmlEscapeApos(c: char)
    requires c == '\''
    ensures HtmlEscape([c]) == "&#39;"
  {
    ReplaceAllAbsent([c], '&', "&amp;");
    ReplaceAllAbsent([c], '<', "&lt;");
    ReplaceAllAbsent([c], '>', "&gt;");
    ReplaceAllAbsent([c], '"', "&quot;");
    ReplaceAllSingle(c, '\'', "&#39;");
  }

  /** The steps after the first leave text without their characters alone. */
  lemma After1(x: string)
    requires '<' !in x && '>' !in x && '"' !in x && '\'' !in x
    ensures ReplaceAll(ReplaceAll(ReplaceAll(ReplaceAll(x, '<', "&lt;"), '>', "&gt;"), '"', "&quot;"), '\'', "&#39;") == x
  {
    ReplaceAllAbsent(x, '<', "&lt;");
    After2(x);
  }

  lemma After2(x: string)
    requires '>' !in x && '"' !in x && '\'' !in x
    ensures ReplaceAll(ReplaceAll(ReplaceAll(x, '>', "&gt;"), '"', "&quot;"), '\'', "&#39;") == x
  {
    ReplaceAllAbsent(x, '>', "&gt;");
    After3(x);
  }

  lemma After3(x: string)
    requires '"' !in x && '\'' !in x
    ensures ReplaceAll(ReplaceAll(x, '"', "&quot;"), '\'', "&#39;") == x
  {
    ReplaceAllAbsent(x, '"', "&quot;");
    After4(x);
  }

  lemma After4(x: string)
    requires '\'' !in x
    ensures ReplaceAll(x, '\'', "&#39;") == x
  {
    ReplaceAllAbsent(x, '\'', "&#39;");
  }

  lemma HtmlEscapePlain(c: char)
    requires !Special(c)
    ensures HtmlEscape([c]) == [c]
  {
    ReplaceAllAbsent([c], '&', "&amp;");
    After1([c]);
  }

  /** The replaceAll chain is the per-character escape: `&` going first means no
      entity is escaped twice. */
  lemma {:induction false} HtmlEscapeIsPerChar(s: string)
    ensures HtmlEscape(s) == EscapeEach(s)
  {
    if s != [] {
      var c, t := s[0], s[1..];
      assert s == [c] + t;
      var r1a, r1b := ReplaceAll([c], '&', "&amp;"), ReplaceAll(t, '&', "&amp;");
      ReplaceAllConcat([c], t, '&', "&amp;");
      var r2a, r2b := ReplaceAll(r1a, '<', "&lt;"), ReplaceAll(r1b, '<', "&lt;");
      ReplaceAllConcat(r1a, r1b, '<', "&lt;");
      var r3a, r3b := ReplaceAll(r2a, '>', "&gt;"), ReplaceAll(r2b, '>', "&gt;");
      ReplaceAllConcat(r2a, r2b, '>', "&gt;");
      var r4a, r4b := ReplaceAll(r3a, '"', "&quot;"), ReplaceAll(r3b, '"', "&quot;");
      ReplaceAllConcat(r3a, r3b, '"', "&quot;");
      ReplaceAllConcat(r4a, r4b, '\'', "&#39;");
      HtmlEscapeChar(c);
      HtmlEscapeIsPerChar(t);
    }
  }

  /** The escape of a single character is escaped text. */
  lemma EscapeCharEscaped(c: char)
    ensures IsEscaped(EscapeChar(c))
  {
    var e := EscapeChar(c);
    if Special(c) {
      assert e[0] == '&';
      assert forall i :: 1 <= i < |e| ==> e[i] != '&';
      assert OccursAt(e, e, 0);
    }
  }

  /** Escaped text stays escaped when two pieces are joined. */
  lemma EscapedConcat(a: string, b: string)
    requires IsEscaped(a) && IsEscaped(b)
    ensures IsEscaped(a + b)
  {
    var r := a + b;
    forall i | 0 <= i < |r| && r[i] == '&'
      ensures EntityAt(r, i)
    {
      if i < |a| {
        assert a[i] == '&';
        EntityInFront(a, b, i);
      } else {
        assert b[i - |a|] == '&';
        EntityInBack(a, b, i - |a|);
      }
    }
  }

  lemma EntityInFront(a: string, b: string, i: int)
    requires EntityAt(a, i)
    ensures EntityAt(a + b, i)
  {
    if OccursAt(a, "&amp;", i) {
      OccursInFront(a, b, "&amp;", i);
    } else if OccursAt(a, "&lt;", i) {
      OccursInFront(a, b, "&lt;", i);
    } else if OccursAt(a, "&gt;", i) {
      OccursInFront(a, b, "&gt;", i);
    } else if OccursAt(a, "&quot;", i) {
      OccursInFront(a, b, "&quot;", i);
    } else {
      OccursInFront(a, b, "&#39;", i);
    }
  }

  lemma EntityInBack(a: string, b: string, j: int)
    requires EntityAt(b, j)
    ensures EntityAt(a + b, |a| + j)
  {
    if OccursAt(b, "&amp;", j) {
      OccursInConcat(a, b, [], "&amp;", j);
    } else if OccursAt(b, "&lt;", j) {
      OccursInConcat(a, b, [], "&lt;", j);
    } else if OccursAt(b, "&gt;", j) {
      OccursInConcat(a, b, [], "&gt;", j);
    } else if OccursAt(b, "&quot;", j) {
      OccursInConcat(a, b, [], "&quot;", j);
    } else {
      OccursInConcat(a, b, [], "&#39;", j);
    }
    assert a + b + [] == a + b;
  }

  lemma {:induction false} EscapeEachEscaped(s: string)
    ensures IsEscaped(EscapeEach(s))
  {
    if s != [] {
      EscapeCharEscaped(s[0]);
      EscapeEachEscaped(s[1..]);
      EscapedConcat(EscapeChar(s[0]), EscapeEach(s[1..]));
    }
  }

  /** The output of `htmlEscape` contains none of `<`, `>`, `"`, `'`, and each of
      its `&` begins one of the five entities. */
  lemma HtmlEscapeSafe(s: string)
    ensures IsEscaped(HtmlEscape(s))
  {
    HtmlEscapeIsPerChar(s);
    EscapeEachEscaped(s);
  }

  lemma EscapeCharLength(c: char)
    ensures |EscapeChar(c)| >= 1 && (|EscapeChar(c)| == 1 <==> !Special(c))
    ensures !Special(c) ==> EscapeChar(c) == [c]
  {
  }

  /** Escaping never shortens, and keeps the length only when nothing is special. */
  lemma {:induction false} EscapeEachLength(s: string)
    ensures |EscapeEach(s)| >= |s|
    ensures |EscapeEach(s)| == |s| ==> forall i :: 0 <= i < |s| ==> !Special(s[i])
  {
    if s != [] {
      var t := s[1..];
      EscapeEachLength(t);
      EscapeCharLength(s[0]);
      if |EscapeEach(s)| == |s| {
        forall i | 0 <= i < |s| ensures !Special(s[i]) {
          if i > 0 { assert s[i] == t[i - 1]; }
        }
      }
    }
  }

  lemma {:induction false} EscapeEachPlain(s: string)
    requires forall i :: 0 <= i < |s| ==> !Special(s[i])
    ensures EscapeEach(s) == s
  {
    if s != [] {
      var t := s[1..];
      forall i | 0 <= i < |t| ensures !Special(t[i]) {
        assert t[i] == s[i + 1];
      }
      EscapeEachPlain(t);
      EscapeCharLength(s[0]);
      assert s == [s[0]] + t;
    }
  }

  /** Escaping leaves a string unchanged exactly when it holds none of the five
      special characters. */
  lemma HtmlEscapeIdentity(s: string)
    ensures HtmlEscape(s) == s <==> forall i :: 0 <= i < |s| ==> !Special(s[i])
  {
    HtmlEscapeIsPerChar(s);
    EscapeEachLength(s);
    if forall i :: 0 <= i < |s| ==> !Special(s[i]) {
      EscapeEachPlain(s);
    }
  }
}

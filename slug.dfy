/** `toSlug` (scripts/archive-moltbook.mjs): lower-case the title, turn every run
    of characters outside `[a-z0-9]` into one hyphen, trim hyphens at both ends,
    keep at most 60 characters, and fall back to "dispatch" when nothing is left. */
module Slug {
  import opened Text

  const MaxSlugLength: nat := 60
  const FallbackSlug := "dispatch"

  /** `toLowerCase` on one character, for the ASCII letters. */
  function Lower(c: char): char {
    if 'A' <= c <= 'Z' then (c as int + 32) as char else c
  }

  function LowerAll(s: string): (r: string)
    ensures |r| == |s| && forall i :: 0 <= i < |s| ==> r[i] == Lower(s[i])
  {
    seq(|s|, i requires 0 <= i < |s| => Lower(s[i]))
  }

  predicate IsSlugChar(c: char) {
    'a' <= c <= 'z' || '0' <= c <= '9'
  }

  /** What the slug is made of: `[a-z0-9-]`, never two hyphens in a row. */
  predicate SlugShaped(s: string) {
    && (forall i :: 0 <= i < |s| ==> IsSlugChar(s[i]) || s[i] == '-')
    && (forall i :: 0 < i < |s| && s[i] == '-' ==> s[i - 1] != '-')
  }

  predicate HasSlugChar(s: string) {
    exists i :: 0 <= i < |s| && IsSlugChar(s[i])
  }

  /** Drops the leading run of characters outside `[a-z0-9]`. */
  function SkipRun(s: string): (r: string)
    ensures s != [] && !IsSlugChar(s[0]) ==> |r| < |s|
  {
    if s != [] && !IsSlugChar(s[0]) then SkipRun(s[1..]) else s
  }

  /** `SkipRun` removes exactly the leading run outside `[a-z0-9]`. */
  lemma {:induction false} SkipRunDrops(s: string)
    ensures |SkipRun(s)| <= |s| && SkipRun(s) == s[|s| - |SkipRun(s)|..]
    ensures SkipRun(s) == [] || IsSlugChar(SkipRun(s)[0])
    ensures forall i :: 0 <= i < |s| - |SkipRun(s)| ==> !IsSlugChar(s[i])
  {
    if s != [] && !IsSlugChar(s[0]) {
      SkipRunDrops(s[1..]);
    }
  }

  /** `.replace(/[^a-z0-9]+/g, '-')`: each maximal run outside `[a-z0-9]`
      becomes a single hyphen. */
  function CollapseRuns(s: string): (r: string)
    ensures SlugShaped(r)
    ensures s != [] && IsSlugChar(s[0]) ==> r != [] && r[0] == s[0]
    decreases |s|
  {
    if s == [] then []
    else if IsSlugChar(s[0]) then [s[0]] + CollapseRuns(s[1..])
    else
      SkipRunDrops(s);
      "-" + CollapseRuns(SkipRun(s))
  }

  /** Collapsing keeps a letter or digit exactly when there was one. */
  lemma {:induction false} CollapseRunsSlugChar(s: string)
    ensures HasSlugChar(CollapseRuns(s)) <==> HasSlugChar(s)
    decreases |s|
  {
    if s == [] {
    } else if IsSlugChar(s[0]) {
      assert HasSlugChar(s);
      assert CollapseRuns(s)[0] == s[0];
    } else {
      var t := SkipRun(s);
      SkipRunSlugChar(s);
      CollapseRunsSlugChar(t);
      HyphenFrontSlugChar(CollapseRuns(t));
      assert CollapseRuns(s) == "-" + CollapseRuns(t);
    }
  }

  lemma SkipRunSlugChar(s: string)
    ensures HasSlugChar(SkipRun(s)) <==> HasSlugChar(s)
  {
    var t := SkipRun(s);
    SkipRunDrops(s);
    if HasSlugChar(t) {
      var i :| 0 <= i < |t| && IsSlugChar(t[i]);
      assert t[i] == s[|s| - |t| + i];
    }
    if HasSlugChar(s) {
      var i :| 0 <= i < |s| && IsSlugChar(s[i]);
      assert i >= |s| - |t|;
      assert s[i] == t[i - (|s| - |t|)];
    }
  }

  lemma HyphenFrontSlugChar(rest: string)
    ensures HasSlugChar("-" + rest) <==> HasSlugChar(rest)
  {
    var r := "-" + rest;
    if HasSlugChar(rest) {
      var i :| 0 <= i < |rest| && IsSlugChar(rest[i]);
      assert r[i + 1] == rest[i];
    }
    if HasSlugChar(r) {
      var i :| 0 <= i < |r| && IsSlugChar(r[i]);
      assert i > 0 && rest[i - 1] == r[i];
    }
  }

  /** The `^-+` half of `.replace(/^-+|-+$/g, '')`. */
  function TrimLeft(s: string): (r: string)
    ensures |r| <= |s| && r == s[|s| - |r|..]
    ensures forall i :: 0 <= i < |s| - |r| ==> s[i] == '-'
    ensures r == [] || r[0] != '-'
    ensures r == [] <==> forall i :: 0 <= i < |s| ==> s[i] == '-'
  {
    if s != [] && s[0] == '-' then
      var r := TrimLeft(s[1..]);
      HyphensAfterFirst(s);
      assert s[1..][|s| - 1 - |r|..] == s[|s| - |r|..];
      assert forall i :: 0 < i < |s| - |r| ==> s[i] == s[1..][i - 1];
      r
    else s
  }

  /** Behind a leading hyphen, the rest is all hyphens exactly when the whole is. */
  lemma HyphensAfterFirst(s: string)
    requires s != [] && s[0] == '-'
    ensures (forall i :: 0 <= i < |s[1..]| ==> s[1..][i] == '-') <==> (forall i :: 0 <= i < |s| ==> s[i] == '-')
  {
    if forall i :: 0 <= i < |s[1..]| ==> s[1..][i] == '-' {
      forall i | 0 <= i < |s| ensures s[i] == '-' {
        if i > 0 { assert s[i] == s[1..][i - 1]; }
      }
    }
  }

  /** The `-+$` half of `.replace(/^-+|-+$/g, '')`. */
  function TrimRight(s: string): (r: string)
    ensures |r| <= |s| && r == s[..|r|]
    ensures forall i :: |r| <= i < |s| ==> s[i] == '-'
    ensures r == [] || r[|r| - 1] != '-'
    ensures r == [] <==> forall i :: 0 <= i < |s| ==> s[i] == '-'
  {
    if s != [] && s[|s| - 1] == '-' then
      var r := TrimRight(s[..|s| - 1]);
      assert forall i :: |r| <= i < |s| - 1 ==> s[i] == s[..|s| - 1][i];
      r
    else s
  }

  /** Everything `toSlug` computes before the `|| 'dispatch'` fallback. */
  function SlugBody(title: string): string {
    Take(TrimRight(TrimLeft(CollapseRuns(LowerAll(title)))), MaxSlugLength)
  }

  function ToSlug(title: string): (r: string)
    ensures r != [] && |r| <= MaxSlugLength
    ensures SlugShaped(r) && r[0] != '-'
  {
    var body := SlugBody(title);
    SlugBodyShape(title);
    FallbackShaped();
    if body == [] then FallbackSlug else body
  }

  lemma FallbackShaped()
    ensures SlugShaped(FallbackSlug) && FallbackSlug[0] != '-' && |FallbackSlug| <= MaxSlugLength
  {
    assert forall i :: 0 <= i < |FallbackSlug| ==> IsSlugChar(FallbackSlug[i]);
  }

  /** A piece cut out of a slug-shaped string is slug-shaped. */
  lemma SlugShapedSlice(s: string, a: int, b: int)
    requires SlugShaped(s) && 0 <= a <= b <= |s|
    ensures SlugShaped(s[a..b])
  {
    var t := s[a..b];
    assert forall i :: 0 <= i < |t| ==> t[i] == s[a + i];
  }

  lemma SlugBodyShape(title: string)
    ensures SlugShaped(SlugBody(title)) && |SlugBody(title)| <= MaxSlugLength
    ensures SlugBody(title) == [] || SlugBody(title)[0] != '-'
  {
    var c := CollapseRuns(LowerAll(title));
    var l := TrimLeft(c);
    var r := TrimRight(l);
    var b := Take(r, MaxSlugLength);
    assert b == SlugBody(title);
    SlugShapedSlice(c, |c| - |l|, |c|);
    SlugShapedSlice(l, 0, |r|);
    SlugShapedSlice(r, 0, |b|);
    assert b == r[..|b|];
  }

  lemma AllHyphensNoSlugChar(s: string)
    requires SlugShaped(s)
    ensures (forall i :: 0 <= i < |s| ==> s[i] == '-') <==> !HasSlugChar(s)
  {
    if !HasSlugChar(s) {
      forall i | 0 <= i < |s| ensures s[i] == '-' {
        assert !IsSlugChar(s[i]);
      }
    }
  }

  /** The fallback is taken exactly when no character of the title is, once
      lower-cased, a letter `a`-`z` or a digit. */
  lemma FallbackIff(title: string)
    ensures SlugBody(title) == [] <==> forall i :: 0 <= i < |title| ==> !IsSlugChar(Lower(title[i]))
  {
    var low := LowerAll(title);
    var c := CollapseRuns(low);
    var l := TrimLeft(c);
    var r := TrimRight(l);
    var b := Take(r, MaxSlugLength);
    assert b == SlugBody(title);
    assert b == [] <==> r == [];
    assert r == [] <==> l == [] by {
      if l != [] { assert l[0] != '-'; }
    }
    AllHyphensNoSlugChar(c);
    CollapseRunsSlugChar(low);
    assert l == [] <==> !HasSlugChar(low);
    if HasSlugChar(low) {
      var i :| 0 <= i < |low| && IsSlugChar(low[i]);
      assert IsSlugChar(Lower(title[i]));
    }
    if exists i :: 0 <= i < |title| && IsSlugChar(Lower(title[i])) {
      var i :| 0 <= i < |title| && IsSlugChar(Lower(title[i]));
      assert IsSlugChar(low[i]);
    }
  }

  /** Titles made only of symbols (or empty) get the fallback slug. */
  lemma SymbolOnlyTitle(title: string)
    requires forall i :: 0 <= i < |title| ==> !IsSlugChar(Lower(title[i]))
    ensures ToSlug(title) == FallbackSlug
  {
    FallbackIff(title);
  }

  /** A word of `[a-z0-9]` characters is copied through unchanged. */
  lemma {:induction false} CollapseWord(w: string, rest: string)
    requires forall i :: 0 <= i < |w| ==> IsSlugChar(w[i])
    ensures CollapseRuns(w + rest) == w + CollapseRuns(rest)
  {
    if w != [] {
      var t := w[1..];
      assert w + rest == [w[0]] + (t + rest);
      CollapseCons(w[0], t + rest);
      forall i | 0 <= i < |t| ensures IsSlugChar(t[i]) {
        assert t[i] == w[i + 1];
      }
      CollapseWord(t, rest);
      assert [w[0]] + (t + CollapseRuns(rest)) == w + CollapseRuns(rest);
    } else {
      assert w + rest == rest;
    }
  }

  /** A character of `[a-z0-9]` in front is copied through. */
  lemma CollapseCons(c: char, t: string)
    requires IsSlugChar(c)
    ensures CollapseRuns([c] + t) == [c] + CollapseRuns(t)
  {
    assert ([c] + t)[1..] == t;
  }

  lemma {:induction false} SkipSeparator(sep: string, rest: string)
    requires forall i :: 0 <= i < |sep| ==> !IsSlugChar(sep[i])
    requires rest == [] || IsSlugChar(rest[0])
    ensures SkipRun(sep + rest) == rest
  {
    if sep != [] {
      assert (sep + rest)[1..] == sep[1..] + rest;
      SkipSeparator(sep[1..], rest);
    } else {
      assert sep + rest == rest;
    }
  }

  /** A whole run outside `[a-z0-9]` becomes one hyphen. */
  lemma CollapseSeparator(sep: string, rest: string)
    requires sep != [] && forall i :: 0 <= i < |sep| ==> !IsSlugChar(sep[i])
    requires rest == [] || IsSlugChar(rest[0])
    ensures CollapseRuns(sep + rest) == "-" + CollapseRuns(rest)
  {
    SkipSeparator(sep, rest);
    assert (sep + rest)[0] == sep[0];
  }

  /** The worked example of a title with punctuation and a number. */
  lemma SlugExample()
    ensures ToSlug("Hello, World! 2024") == "hello-world-2024"
  {
    var c := "hello-world-2024";
    CollapseExample();
    assert c[0] == 'h' && c[|c| - 1] == '4';
    assert TrimLeft(c) == c;
    assert TrimRight(c) == c;
    assert Take(c, MaxSlugLength) == c;
  }

  lemma CollapseExample()
    ensures CollapseRuns(LowerAll("Hello, World! 2024")) == "hello-world-2024"
  {
    LowerExample();
    CollapseWord("hello", ", " + ("world" + ("! " + "2024")));
    CollapseExampleFrom2();
    JoinExample();
  }

  lemma JoinExample()
    ensures "hello" + "-world-2024" == "hello-world-2024"
  {
  }

  lemma CollapseExampleFrom2()
    ensures CollapseRuns(", " + ("world" + ("! " + "2024"))) == "-world-2024"
  {
    CollapseExampleFrom3();
    assert ("world" + ("! " + "2024"))[0] == 'w';
    CollapseSeparator(", ", "world" + ("! " + "2024"));
    Join("-", "world-2024", "-world-2024");
  }

  lemma CollapseExampleFrom3()
    ensures CollapseRuns("world" + ("! " + "2024")) == "world-2024"
  {
    CollapseExampleFrom4();
    CollapseWord("world", "! " + "2024");
    Join("world", "-2024", "world-2024");
  }

  lemma CollapseExampleFrom4()
    ensures CollapseRuns("! " + "2024") == "-2024"
  {
    CollapseNumber();
    assert "2024"[0] == '2';
    CollapseSeparator("! ", "2024");
    Join("-", "2024", "-2024");
  }

  lemma CollapseNumber()
    ensures CollapseRuns("2024") == "2024"
  {
    CollapseWord("2024", []);
    Join("2024", [], "2024");
  }

  /** Joining two literal pieces of the worked example. */
  lemma Join(a: string, b: string, c: string)
    requires |a| + |b| == |c| && a == c[..|a|] && b == c[|a|..]
    ensures a + b == c
  {
  }

  lemma LowerExample()
    ensures LowerAll("Hello, World! 2024") == "hello" + (", " + ("world" + ("! " + "2024")))
  {
    var title := "Hello, World! 2024";
    var low := LowerAll(title);
    assert Lower('H') == 'h' && Lower('W') == 'w';
    forall i | 0 <= i < |title| ensures low[i] == "hello, world! 2024"[i] {
      if i != 0 && i != 7 { assert Lower(title[i]) == title[i]; }
    }
    assert low == "hello, world! 2024";
  }

}

/** `setLatestSection` (scripts/archive-moltbook.mjs): find the first entry of the
    post list — the regex
      <ul class="postlist"> …? <a href="HREF">TITLE</a> …? <span class="meta">(DATE)</span>
    with lazy gaps — and copy it into the block between the LATEST marker comments.

    The regex is modelled with the backtracking a regex engine does: the lazy gap
    after the marker tries each later `<a href="` in turn, and the first one from
    which the rest of the pattern completes is the match. */
module LatestSection {
  import opened Text
  import opened IndexMerge

  const AnchorOpen := "<a href=\""
  const AnchorClose := "</a>"
  const MetaOpen := "<span class=\"meta\">("
  const MetaClose := ")</span>"
  const LatestStart := "<!-- LATEST_START -->"
  const LatestEnd := "<!-- LATEST_END -->"

  /** The three capture groups of the match. */
  datatype Latest = Latest(href: string, title: string, date: string)

  predicate IsDigit(c: char) {
    '0' <= c <= '9'
  }

  /** `\d{4}-\d{2}-\d{2}`. */
  predicate IsIsoDate(d: string) {
    && |d| == 10
    && IsDigit(d[0]) && IsDigit(d[1]) && IsDigit(d[2]) && IsDigit(d[3]) && d[4] == '-'
    && IsDigit(d[5]) && IsDigit(d[6]) && d[7] == '-' && IsDigit(d[8]) && IsDigit(d[9])
  }

  /** `<span class="meta">(DATE)</span>` starts at `j`. */
  predicate DateSpanAt(s: string, j: int) {
    && OccursAt(s, MetaOpen, j)
    && j + |MetaOpen| + 10 <= |s|
    && IsIsoDate(s[j + |MetaOpen|..j + |MetaOpen| + 10])
    && OccursAt(s, MetaClose, j + |MetaOpen| + 10)
  }

  /** The first date span at or after `from`: where `…?<span class="meta">(` stops. */
  function FindDateSpan(s: string, from: nat): (r: Option<nat>)
    ensures r.Some? ==> from <= r.value && DateSpanAt(s, r.value)
    decreases |s| - from
  {
    if from >= |s| then None
    else if DateSpanAt(s, from) then Some(from)
    else FindDateSpan(s, from + 1)
  }

  /** `FindDateSpan` finds the first date span: none is skipped, and `None` means
      there is none. */
  lemma {:induction false} FindDateSpanFirst(s: string, from: nat)
    ensures FindDateSpan(s, from).Some? ==> forall j :: from <= j < FindDateSpan(s, from).value ==> !DateSpanAt(s, j)
    ensures FindDateSpan(s, from).None? ==> forall j :: from <= j ==> !DateSpanAt(s, j)
    decreases |s| - from
  {
    if from < |s| && !DateSpanAt(s, from) {
      FindDateSpanFirst(s, from + 1);
      var r := FindDateSpan(s, from + 1);
      assert FindDateSpan(s, from) == r;
      if r.Some? {
        NoSpanExtend(s, from, r.value);
      } else {
        NoSpanExtendAll(s, from);
      }
    }
  }

  lemma NoSpanExtend(s: string, from: nat, to: nat)
    requires !DateSpanAt(s, from) && forall j :: from + 1 <= j < to ==> !DateSpanAt(s, j)
    ensures forall j :: from <= j < to ==> !DateSpanAt(s, j)
  {
  }

  lemma NoSpanExtendAll(s: string, from: nat)
    requires !DateSpanAt(s, from) && forall j :: from + 1 <= j ==> !DateSpanAt(s, j)
    ensures forall j :: from <= j ==> !DateSpanAt(s, j)
  {
  }

  /** `([^"]+)">` from `hs`: the href ends at the first quote, is non-empty, and
      the quote is followed by `>`. The result is the position of that quote. */
  function HrefEnd(s: string, hs: nat): (q: Option<nat>)
    ensures q.Some? ==> hs < q.value && OccursAt(s, "\">", q.value) && '"' !in s[hs..q.value]
  {
    match IndexOfFrom(s, "\"", hs)
    case None => None
    case Some(q) =>
      if q == hs || !OccursAt(s, "\">", q) then None
      else
        CharAbsent(s, '"', hs, q);
        Some(q)
  }

  /** The rest of the pattern, tried from the `<a href="` at `k`: the href as
      above, then the title and the date. */
  function AnchorAt(s: string, k: nat): (r: Option<Latest>)
    ensures r.Some? ==> r.value.href != [] && '"' !in r.value.href
    ensures r.Some? ==> IsIsoDate(r.value.date)
  {
    var hs := k + |AnchorOpen|;
    match HrefEnd(s, hs)
    case None => None
    case Some(q) => AnchorTail(s, hs, q)
  }

  /** After `">` at `q`: the title runs to the first `</a>`, and the date is that
      of the first date span after it. A longer title cannot help, because every
      date span after a later `</a>` is also after the first; `AnchorAtNone` and
      `AnchorAtLeast` prove it. */
  function AnchorTail(s: string, hs: nat, q: nat): (r: Option<Latest>)
    requires hs <= q <= |s|
    ensures r.Some? ==> r.value.href == s[hs..q] && IsIsoDate(r.value.date)
  {
    match IndexOfFrom(s, AnchorClose, q + 2)
    case None => None
    case Some(e) => DateAfter(s, hs, q, e)
  }

  /** After the `</a>` at `e`: the date of the first date span. */
  function DateAfter(s: string, hs: nat, q: nat, e: nat): (r: Option<Latest>)
    requires hs <= q && q + 2 <= e <= |s|
    ensures r.Some? ==> r.value.href == s[hs..q] && IsIsoDate(r.value.date)
  {
    match FindDateSpan(s, e + |AnchorClose|)
    case None => None
    case Some(j) => Some(Capture(s, hs, q, e, j))
  }

  /** The three groups, given where the href starts (`hs`) and ends (`q`), where
      the title ends (`e`) and where the date span starts (`j`). */
  function Capture(s: string, hs: nat, q: nat, e: nat, j: nat): (l: Latest)
    requires hs <= q && q + 2 <= e <= |s| && j + |MetaOpen| + 10 <= |s|
    ensures l.href == s[hs..q] && |l.date| == 10
  {
    Latest(s[hs..q], s[q + 2..e], s[j + |MetaOpen|..j + |MetaOpen| + 10])
  }

  /** The rest of the pattern, written out, completes from the `<a href="` at `k`:
      the href runs from `k + |AnchorOpen|` to the quote at `q`, which holds `">`;
      the title runs from `q + 2` to the `</a>` at `e`; and a date span starts at
      `j`, after that `</a>`. */
  predicate Completes(s: string, k: nat, q: int, e: int, j: int) {
    && OccursAt(s, "\">", q)
    && k + |AnchorOpen| < q
    && '"' !in s[k + |AnchorOpen|..q]
    && q + 2 <= e
    && OccursAt(s, AnchorClose, e)
    && e + |AnchorClose| <= j
    && DateSpanAt(s, j)
  }

  /** A non-empty quote-free stretch ending at `">` is the href that `HrefEnd` finds. */
  lemma HrefEndAt(s: string, hs: nat, q: nat)
    requires hs < q && OccursAt(s, "\">", q) && '"' !in s[hs..q]
    ensures HrefEnd(s, hs) == Some(q)
  {
    OccursAtChar(s, "\">", q, q);
    assert s[q..q + 1] == "\"";
    forall t | hs <= t < q
      ensures !OccursAt(s, "\"", t)
    {
      assert s[t] == s[hs..q][t - hs];
      OccursAtChar(s, "\"", t, t);
    }
    IndexOfFromIs(s, "\"", hs, q);
  }

  /** On a completion, the href search of `AnchorAt` ends at its quote and the
      title search finds a `</a>` no later than its own. */
  lemma CompletionHref(s: string, k: nat, q: int, e: int, j: int)
    requires Completes(s, k, q, e, j)
    ensures HrefEnd(s, k + |AnchorOpen|) == Some(q)
    ensures IndexOfFrom(s, AnchorClose, q + 2).Some? && IndexOfFrom(s, AnchorClose, q + 2).value <= e
  {
    HrefEndAt(s, k + |AnchorOpen|, q);
  }

  /** The date search from the first `</a>` finds a span no later than a
      completion's own. */
  lemma CompletionDate(s: string, k: nat, q: int, e: int, j: int, e0: nat)
    requires Completes(s, k, q, e, j) && e0 <= e
    ensures FindDateSpan(s, e0 + |AnchorClose|).Some? && FindDateSpan(s, e0 + |AnchorClose|).value <= j
  {
    FindDateSpanFirst(s, e0 + |AnchorClose|);
  }

  /** `AnchorAt` once its three searches have succeeded. */
  lemma AnchorAtIs(s: string, k: nat, q: nat, e: nat, j: nat)
    requires HrefEnd(s, k + |AnchorOpen|) == Some(q)
    requires IndexOfFrom(s, AnchorClose, q + 2) == Some(e)
    requires FindDateSpan(s, e + |AnchorClose|) == Some(j)
    ensures AnchorAt(s, k) == Some(Capture(s, k + |AnchorOpen|, q, e, j))
  {
    AnchorAtTail(s, k, q);
    AnchorTailIs(s, k + |AnchorOpen|, q, e, j);
  }

  lemma AnchorAtTail(s: string, k: nat, q: nat)
    requires HrefEnd(s, k + |AnchorOpen|) == Some(q)
    ensures AnchorAt(s, k) == AnchorTail(s, k + |AnchorOpen|, q)
  {
  }

  lemma AnchorTailIs(s: string, hs: nat, q: nat, e: nat, j: nat)
    requires hs <= q <= |s|
    requires IndexOfFrom(s, AnchorClose, q + 2) == Some(e)
    requires FindDateSpan(s, e + |AnchorClose|) == Some(j)
    ensures AnchorTail(s, hs, q) == Some(Capture(s, hs, q, e, j))
  {
    assert AnchorTail(s, hs, q) == DateAfter(s, hs, q, e);
  }

  /** A completion makes `AnchorAt` succeed. */
  lemma CompletesMatches(s: string, k: nat, q: int, e: int, j: int)
    requires Completes(s, k, q, e, j)
    ensures AnchorAt(s, k).Some?
  {
    CompletionHref(s, k, q, e, j);
    var e0 := IndexOfFrom(s, AnchorClose, q + 2).value;
    CompletionDate(s, k, q, e, j, e0);
    AnchorAtIs(s, k, q, e0, FindDateSpan(s, e0 + |AnchorClose|).value);
  }

  /** `AnchorAt` fails exactly when the pattern cannot complete from `k`. */
  lemma AnchorAtNone(s: string, k: nat)
    ensures AnchorAt(s, k).None? <==> forall q, e, j :: !Completes(s, k, q, e, j)
  {
    if AnchorAt(s, k).Some? {
      var q, e, j := AnchorAtLeast(s, k);
    } else {
      forall q, e, j | Completes(s, k, q, e, j)
        ensures false
      {
        CompletesMatches(s, k, q, e, j);
      }
    }
  }

  /** The three searches behind a match from `k`, each of which succeeded. */
  lemma AnchorAtSearches(s: string, k: nat) returns (q: nat, e: nat, j: nat)
    requires AnchorAt(s, k).Some?
    ensures HrefEnd(s, k + |AnchorOpen|) == Some(q)
    ensures IndexOfFrom(s, AnchorClose, q + 2) == Some(e)
    ensures FindDateSpan(s, e + |AnchorClose|) == Some(j)
  {
    var hs := k + |AnchorOpen|;
    AnchorAtHref(s, k);
    q := HrefEnd(s, hs).value;
    AnchorAtTail(s, k, q);
    AnchorTailClose(s, hs, q);
    e := IndexOfFrom(s, AnchorClose, q + 2).value;
    DateAfterSpan(s, hs, q, e);
    j := FindDateSpan(s, e + |AnchorClose|).value;
  }

  lemma AnchorAtHref(s: string, k: nat)
    requires AnchorAt(s, k).Some?
    ensures HrefEnd(s, k + |AnchorOpen|).Some?
  {
  }

  lemma AnchorTailClose(s: string, hs: nat, q: nat)
    requires hs <= q <= |s| && AnchorTail(s, hs, q).Some?
    ensures IndexOfFrom(s, AnchorClose, q + 2).Some?
    ensures AnchorTail(s, hs, q) == DateAfter(s, hs, q, IndexOfFrom(s, AnchorClose, q + 2).value)
  {
  }

  lemma DateAfterSpan(s: string, hs: nat, q: nat, e: nat)
    requires hs <= q && q + 2 <= e <= |s| && DateAfter(s, hs, q, e).Some?
    ensures FindDateSpan(s, e + |AnchorClose|).Some?
  {
  }

  /** A match from `k` is the capture of the least completion: the one quote that
      can end the href, the first `</a>` after it and the first date span after
      that. Every other completion ends its title and starts its date no earlier. */
  lemma AnchorAtLeast(s: string, k: nat) returns (q: nat, e: nat, j: nat)
    requires AnchorAt(s, k).Some?
    ensures Completes(s, k, q, e, j)
    ensures AnchorAt(s, k) == Some(Capture(s, k + |AnchorOpen|, q, e, j))
    ensures forall q', e', j' :: Completes(s, k, q', e', j') ==> q' == q && e <= e' && j <= j'
  {
    q, e, j := AnchorAtSearches(s, k);
    AnchorAtIs(s, k, q, e, j);
    forall q', e', j' | Completes(s, k, q', e', j')
      ensures q' == q && e <= e' && j <= j'
    {
      CompletionHref(s, k, q', e', j');
      CompletionDate(s, k, q', e', j', e);
    }
  }

  /** The lazy gap after the marker: the first `<a href="` at or after `from` from
      which the rest of the pattern completes. */
  function FindLatest(s: string, from: nat): (r: Option<Latest>)
    ensures r.Some? ==> r.value.href != [] && '"' !in r.value.href && IsIsoDate(r.value.date)
    decreases |s| - from, 1
  {
    match IndexOfFrom(s, AnchorOpen, from)
    case None => None
    case Some(k) => TryAnchor(s, k)
  }

  /** The `<a href="` at `k` completes the pattern, or the lazy gap moves past it. */
  function TryAnchor(s: string, k: nat): (r: Option<Latest>)
    requires k < |s|
    ensures r.Some? ==> r.value.href != [] && '"' !in r.value.href && IsIsoDate(r.value.date)
    decreases |s| - k, 0
  {
    match AnchorAt(s, k)
    case Some(l) => Some(l)
    case None => FindLatest(s, k + 1)
  }

  /** The whole match: it starts at the first postlist marker (a match from a later
      marker would also be one from the first, with a longer gap). */
  function FirstEntry(s: string): Option<Latest> {
    match InsertPoint(s)
    case None => None
    case Some(m) => FindLatest(s, m)
  }

  function LatestBlock(l: Latest): string {
    "<p><a href=\"" + l.href + "\"><strong>" + l.title + "</strong></a><br/><span class=\"meta\">"
    + l.date + "</span></p>"
  }

  function LatestReplacement(l: Latest): string {
    LatestStart + "\n    " + LatestBlock(l) + "\n    " + LatestEnd
  }

  function SetLatestSection(s: string): (r: string)
    ensures FirstEntry(s).None? ==> r == s
    ensures !Contains(s, LatestStart) || !Contains(s, LatestEnd) ==> r == s
  {
    match FirstEntry(s)
    case None => s
    case Some(l) =>
      if Contains(s, LatestStart) && Contains(s, LatestEnd) then
        ReplaceFirstSpan(s, LatestStart, LatestEnd, LatestReplacement(l))
      else s
  }

  /** Markers present, but no END after the first START: nothing to replace. */
  lemma SetLatestNoSpan(s: string)
    requires FirstSpan(s, LatestStart, LatestEnd).None?
    ensures SetLatestSection(s) == s
  {
  }

  /** With an entry and a START…END span, exactly the first such span is replaced
      by the block for that entry, and the text around it is kept. */
  lemma SetLatestReplacesFirstSpan(s: string, l: Latest, i: nat, j: nat)
    requires FirstEntry(s) == Some(l)
    requires FirstSpan(s, LatestStart, LatestEnd) == Some((i, j))
    ensures SetLatestSection(s) == s[..i] + LatestReplacement(l) + s[j + |LatestEnd|..]
  {
    OccursContains(s, LatestStart, i);
    OccursContains(s, LatestEnd, j);
    ReplaceFirstSpanIs(s, LatestStart, LatestEnd, LatestReplacement(l), i, j);
  }

  lemma FindDateSpanIs(s: string, from: nat, j: nat)
    requires from <= j && DateSpanAt(s, j)
    requires forall t :: from <= t < j ==> !DateSpanAt(s, t)
    ensures FindDateSpan(s, from) == Some(j)
  {
    var r := FindDateSpan(s, from);
    FindDateSpanFirst(s, from);
    assert r.Some? && r.value == j by {
      if r.None? || r.value < j { } else if r.value > j { }
    }
  }

  lemma FindDateSpanSkip(s: string, from: nat, to: nat)
    requires from <= to
    requires forall j :: from <= j < to ==> !DateSpanAt(s, j)
    ensures FindDateSpan(s, from) == FindDateSpan(s, to)
  {
    var r := FindDateSpan(s, to);
    FindDateSpanFirst(s, to);
    if r.Some? {
      FindDateSpanIs(s, from, r.value);
    } else {
      FindDateSpanFirst(s, from);
    }
  }

  /** A stretch with no `<a href="` can be skipped. */
  lemma FindLatestSkip(s: string, from: nat, to: nat)
    requires from <= to
    requires forall j :: from <= j < to ==> !OccursAt(s, AnchorOpen, j)
    ensures FindLatest(s, from) == FindLatest(s, to)
  {
    IndexOfFromSkip(s, AnchorOpen, from, to);
    FindLatestSameHit(s, from, to);
  }

  /** The search continues from the first `<a href="` it finds, wherever it starts. */
  lemma FindLatestSameHit(s: string, from: nat, to: nat)
    requires IndexOfFrom(s, AnchorOpen, from) == IndexOfFrom(s, AnchorOpen, to)
    ensures FindLatest(s, from) == FindLatest(s, to)
  {
  }

  /** The capture is the one from the first `<a href="` at or after `from` from
      which the rest of the pattern completes. */
  lemma {:induction false} FindLatestIs(s: string, from: nat, k: nat)
    requires from <= k && OccursAt(s, AnchorOpen, k) && AnchorAt(s, k).Some?
    requires forall j :: from <= j < k && OccursAt(s, AnchorOpen, j) ==> AnchorAt(s, j).None?
    ensures FindLatest(s, from) == AnchorAt(s, k)
    decreases k - from
  {
    var k0 := IndexOfFrom(s, AnchorOpen, from);
    assert k0.Some? && k0.value <= k;
    if k0.value < k {
      FindLatestIs(s, k0.value + 1, k);
    }
  }

  /** No capture at all: no `<a href="` from `from` on completes the pattern. */
  lemma {:induction false} FindLatestNone(s: string, from: nat)
    requires FindLatest(s, from).None?
    ensures forall k :: from <= k && OccursAt(s, AnchorOpen, k) ==> AnchorAt(s, k).None?
    ensures forall k, q, e, j :: from <= k && OccursAt(s, AnchorOpen, k) ==> !Completes(s, k, q, e, j)
    decreases |s| - from
  {
    var k0 := IndexOfFrom(s, AnchorOpen, from);
    if k0.Some? {
      var k := k0.value;
      FindLatestStep(s, from, k);
      FindLatestNone(s, k + 1);
      NoneAround(s, from, k);
    }
    forall k: nat | from <= k && OccursAt(s, AnchorOpen, k)
      ensures forall q, e, j :: !Completes(s, k, q, e, j)
    {
      AnchorAtNone(s, k);
    }
  }

  /** No candidate before `k`, none completing at `k`, none after it: none at all. */
  lemma NoneAround(s: string, from: nat, k: nat)
    requires from <= k && forall j :: from <= j < k ==> !OccursAt(s, AnchorOpen, j)
    requires AnchorAt(s, k).None?
    requires forall j :: k + 1 <= j && OccursAt(s, AnchorOpen, j) ==> AnchorAt(s, j).None?
    ensures forall j :: from <= j && OccursAt(s, AnchorOpen, j) ==> AnchorAt(s, j).None?
  {
  }

  /** One step of the lazy gap: a failed candidate hands on to the next position. */
  lemma FindLatestStep(s: string, from: nat, k: nat)
    requires IndexOfFrom(s, AnchorOpen, from) == Some(k)
    requires FindLatest(s, from).None?
    ensures AnchorAt(s, k).None? && FindLatest(s, k + 1).None?
  {
  }
}

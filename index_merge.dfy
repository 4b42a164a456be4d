/** The index merger of scripts/archive-moltbook.mjs: `upsertIndex` puts a new
    `<li>` entry at the top of the homepage's `<ul class="postlist">`, skipping an
    entry whose link is already on the page, and `setLatestSection` copies the
    first entry of that list into the block between the LATEST marker comments. */
module IndexMerge {
  import opened Text

  const PostListMarker := "<ul class=\"postlist\">"
  const HrefAttr := "href=\""

  /** `entryHtml.split('href="')[1]?.split('"')[0]`: the text after the first
      `href="`, cut at the next `href="` (the end of split's second piece) and then
      at the first quote. `None` when the entry has no `href="` at all. */
  function ExtractHref(entry: string): (h: Option<string>)
    ensures h.Some? <==> Contains(entry, HrefAttr)
    ensures h.Some? ==> '"' !in h.value
    ensures h.Some? ==> OccursAt(entry, h.value, IndexOf(entry, HrefAttr).value + |HrefAttr|)
    ensures h.Some? ==> var e := IndexOf(entry, HrefAttr).value + |HrefAttr| + |h.value|;
      && (forall k :: e - |h.value| <= k < e ==> !OccursAt(entry, HrefAttr, k))
      && e <= |entry| && (e == |entry| || entry[e] == '"' || OccursAt(entry, HrefAttr, e))
  {
    match IndexOf(entry, HrefAttr)
    case None => None
    case Some(i) =>
      var seg := Before(entry[i + |HrefAttr|..], HrefAttr);
      var h := Before(seg, "\"");
      QuoteFreeBefore(seg);
      PrefixOccurs(entry, i + |HrefAttr|, seg, h);
      HrefStops(entry, i + |HrefAttr|, seg, h);
      Some(h)
  }

  /** Where the two splits stop: no `href="` starts inside the href, and what
      follows it is the end of the entry, a quote or another `href="`. */
  lemma HrefStops(entry: string, from: nat, seg: string, h: string)
    requires from <= |entry|
    requires seg == Before(entry[from..], HrefAttr) && h == Before(seg, "\"")
    ensures forall k :: from <= k < from + |h| ==> !OccursAt(entry, HrefAttr, k)
    ensures from + |h| <= |entry|
    ensures from + |h| == |entry| || entry[from + |h|] == '"' || OccursAt(entry, HrefAttr, from + |h|)
  {
    var rest := entry[from..];
    assert entry == entry[..from] + rest;
    forall k | from <= k < from + |h| ensures !OccursAt(entry, HrefAttr, k) {
      OccursShift(entry[..from], rest, HrefAttr, k - from);
    }
    if h == seg {
      if seg != rest {
        OccursShift(entry[..from], rest, HrefAttr, |seg|);
      }
    } else {
      assert seg[|h|] == '"';
    }
  }

  /** `s.split(p)[0]`: the text before the first `p`, or all of `s`. */
  function Before(s: string, p: string): (r: string)
    ensures r <= s
    ensures forall k :: 0 <= k < |r| ==> !OccursAt(s, p, k)
    ensures r == s || OccursAt(s, p, |r|)
  {
    match IndexOf(s, p)
    case None => s
    case Some(k) => s[..k]
  }

  lemma QuoteFreeBefore(s: string)
    ensures '"' !in Before(s, "\"")
  {
    match IndexOf(s, "\"")
    case Some(q) =>
      CharAbsent(s, '"', 0, q);
      assert s[0..q] == s[..q];
    case None =>
      CharAbsent(s, '"', 0, |s|);
      assert s[0..|s|] == s;
  }

  lemma PrefixOccurs(s: string, from: nat, seg: string, h: string)
    requires from <= |s| && seg <= s[from..] && h <= seg
    ensures OccursAt(s, h, from)
  {
    assert s[from..][..|h|] == h;
    assert s[from..from + |h|] == s[from..][..|h|];
  }

  /** The dedup test of `upsertIndex`: the entry has a non-empty href and
      `href="<that href>"` already occurs somewhere in the page. */
  predicate IsListed(indexHtml: string, entry: string) {
    match ExtractHref(entry)
    case None => false
    case Some(h) => h != "" && Contains(indexHtml, HrefAttr + h + "\"")
  }

  /** Where `upsertIndex` inserts: just after the first postlist marker. */
  function InsertPoint(indexHtml: string): (k: Option<nat>)
    ensures k.None? <==> !Contains(indexHtml, PostListMarker)
    ensures k.Some? ==> k.value == IndexOf(indexHtml, PostListMarker).value + |PostListMarker|
    ensures k.Some? ==> k.value <= |indexHtml| && OccursAt(indexHtml, PostListMarker, k.value - |PostListMarker|)
    ensures k.Some? ==> forall j :: 0 <= j < k.value - |PostListMarker| ==> !OccursAt(indexHtml, PostListMarker, j)
  {
    match IndexOf(indexHtml, PostListMarker)
    case None => None
    case Some(m) => Some(m + |PostListMarker|)
  }

  function UpsertIndex(indexHtml: string, entry: string): (r: string)
    ensures InsertPoint(indexHtml).None? ==> r == indexHtml + "\n" + entry + "\n"
    ensures InsertPoint(indexHtml).Some? && IsListed(indexHtml, entry) ==> r == indexHtml
    ensures InsertPoint(indexHtml).Some? && !IsListed(indexHtml, entry) ==>
      r == Splice(indexHtml, InsertPoint(indexHtml).value, "\n" + entry)
  {
    match InsertPoint(indexHtml)
    case None => indexHtml + "\n" + entry + "\n"
    case Some(k) =>
      if IsListed(indexHtml, entry) then indexHtml
      else Splice(indexHtml, k, "\n" + entry)
  }

  /** With the marker present, the page is returned unchanged exactly when the
      entry's link is already listed. */
  lemma UpsertIndexUnchangedIff(indexHtml: string, entry: string)
    requires Contains(indexHtml, PostListMarker)
    ensures UpsertIndex(indexHtml, entry) == indexHtml <==> IsListed(indexHtml, entry)
  {
    if !IsListed(indexHtml, entry) {
      assert |UpsertIndex(indexHtml, entry)| > |indexHtml|;
    }
  }

  /** Inserting keeps the first marker where it was. */
  lemma UpsertKeepsInsertPoint(indexHtml: string, entry: string)
    requires InsertPoint(indexHtml).Some?
    ensures InsertPoint(UpsertIndex(indexHtml, entry)) == InsertPoint(indexHtml)
  {
    var k := InsertPoint(indexHtml).value;
    var m := IndexOf(indexHtml, PostListMarker).value;
    var r := UpsertIndex(indexHtml, entry);
    if r != indexHtml {
      assert r[..k] == indexHtml[..k];
      IndexOfCommonPrefix(indexHtml, r, PostListMarker, m);
    }
  }

  /** Upserting the same entry a second time changes nothing, provided the marker
      is there and the entry really carries `href="<its href>"`. */
  lemma UpsertIndexIdempotent(indexHtml: string, entry: string)
    requires Contains(indexHtml, PostListMarker)
    requires ExtractHref(entry).Some? && ExtractHref(entry).value != ""
    requires Contains(entry, HrefAttr + ExtractHref(entry).value + "\"")
    ensures UpsertIndex(UpsertIndex(indexHtml, entry), entry) == UpsertIndex(indexHtml, entry)
  {
    UpsertKeepsInsertPoint(indexHtml, entry);
    ListedAfterUpsert(indexHtml, entry, ExtractHref(entry).value);
  }

  /** An entry carrying its own `href="<href>"` is listed once upserted. */
  lemma ListedAfterUpsert(indexHtml: string, entry: string, h: string)
    requires InsertPoint(indexHtml).Some?
    requires ExtractHref(entry) == Some(h) && h != ""
    requires Contains(entry, HrefAttr + h + "\"")
    ensures IsListed(UpsertIndex(indexHtml, entry), entry)
  {
    var r := UpsertIndex(indexHtml, entry);
    if !IsListed(indexHtml, entry) {
      var k := InsertPoint(indexHtml).value;
      assert r == (indexHtml[..k] + "\n") + entry + indexHtml[k..];
      ContainsInConcat(indexHtml[..k] + "\n", entry, indexHtml[k..], HrefAttr + h + "\"");
    }
  }

  /** Without the marker nothing is deduplicated: a second call appends again. */
  lemma UpsertIndexNoMarkerAppendsTwice(indexHtml: string, entry: string)
    requires !Contains(indexHtml + "\n" + entry + "\n", PostListMarker)
    ensures !Contains(indexHtml, PostListMarker)
    ensures UpsertIndex(UpsertIndex(indexHtml, entry), entry)
         == indexHtml + "\n" + entry + "\n" + "\n" + entry + "\n"
  {
    if Contains(indexHtml, PostListMarker) {
      assert [] + indexHtml + ("\n" + entry + "\n") == indexHtml + "\n" + entry + "\n";
      ContainsInConcat([], indexHtml, "\n" + entry + "\n", PostListMarker);
    }
  }

  /** The orchestrator's loop over the index: one upsert per entry, in order. */
  function UpsertAll(indexHtml: string, entries: seq<string>): string
    decreases |entries|
  {
    if entries == [] then indexHtml else UpsertAll(UpsertIndex(indexHtml, entries[0]), entries[1..])
  }

  /** No upsert of the run hits the dedup check. */
  predicate AllFresh(indexHtml: string, entries: seq<string>)
    decreases |entries|
  {
    entries == [] || (!IsListed(indexHtml, entries[0]) && AllFresh(UpsertIndex(indexHtml, entries[0]), entries[1..]))
  }

  /** The entries one per line, each preceded by a newline, in the given order. */
  function Lines(entries: seq<string>): string {
    if entries == [] then "" else "\n" + entries[0] + Lines(entries[1..])
  }

  lemma {:induction false} LinesAppend(entries: seq<string>, e: string)
    ensures Lines(entries + [e]) == Lines(entries) + "\n" + e
  {
    if entries != [] {
      assert (entries + [e])[1..] == entries[1..] + [e];
      LinesAppend(entries[1..], e);
    } else {
      assert [] + [e] == [e];
    }
  }

  /** Upserting entries one at a time at the top leaves them in reverse order of
      insertion right below the marker, with the rest of the page untouched: the
      last one upserted is on top. */
  lemma {:induction false} UpsertAllStacks(indexHtml: string, entries: seq<string>)
    requires InsertPoint(indexHtml).Some?
    requires AllFresh(indexHtml, entries)
    ensures var k := InsertPoint(indexHtml).value;
      UpsertAll(indexHtml, entries) == indexHtml[..k] + Lines(Reverse(entries)) + indexHtml[k..]
    decreases |entries|
  {
    if entries == [] {
      UpsertStacksNone(indexHtml, entries);
    } else {
      var next := UpsertIndex(indexHtml, entries[0]);
      UpsertKeepsInsertPoint(indexHtml, entries[0]);
      UpsertAllStacks(next, entries[1..]);
      UpsertStacksOne(indexHtml, entries, next);
    }
  }

  lemma UpsertStacksNone(indexHtml: string, entries: seq<string>)
    requires InsertPoint(indexHtml).Some? && entries == []
    ensures var k := InsertPoint(indexHtml).value;
      UpsertAll(indexHtml, entries) == indexHtml[..k] + Lines(Reverse(entries)) + indexHtml[k..]
  {
    var k := InsertPoint(indexHtml).value;
    assert Lines(Reverse(entries)) == "";
    assert indexHtml[..k] + "" + indexHtml[k..] == indexHtml;
  }

  /** One step of `UpsertAllStacks`, given the stack for the rest of the entries. */
  lemma UpsertStacksOne(indexHtml: string, entries: seq<string>, next: string)
    requires InsertPoint(indexHtml).Some? && entries != [] && !IsListed(indexHtml, entries[0])
    requires next == UpsertIndex(indexHtml, entries[0]) && InsertPoint(next) == InsertPoint(indexHtml)
    requires var k := InsertPoint(indexHtml).value;
      UpsertAll(next, entries[1..]) == next[..k] + Lines(Reverse(entries[1..])) + next[k..]
    ensures var k := InsertPoint(indexHtml).value;
      UpsertAll(indexHtml, entries) == indexHtml[..k] + Lines(Reverse(entries)) + indexHtml[k..]
  {
    var k := InsertPoint(indexHtml).value;
    var e := entries[0];
    var l := Lines(Reverse(entries[1..]));
    ReverseCons(entries);
    LinesAppend(Reverse(entries[1..]), e);
    assert next == indexHtml[..k] + ("\n" + e) + indexHtml[k..];
    UpsertStep(indexHtml[..k], e, indexHtml[k..], l, next, UpsertAll(next, entries[1..]));
    assert Lines(Reverse(entries)) == l + "\n" + e;
    assert UpsertAll(indexHtml, entries) == UpsertAll(next, entries[1..]);
  }

  /** The string algebra of one step of `UpsertAllStacks`. */
  lemma UpsertStep(a: string, e: string, c: string, l: string, next: string, tail: string)
    requires next == a + ("\n" + e) + c
    requires tail == next[..|a|] + l + next[|a|..]
    ensures tail == a + (l + "\n" + e) + c
  {
    CutConcat(a, "\n" + e, c);
  }
}

/** The RSS feed merger of scripts/archive-moltbook.mjs: `updateFeed` adds an
    `<item>` unless its guid is already in the feed, and `setLastBuildDate` sets
    the channel's `<lastBuildDate>`. */
module FeedMerge {
  import opened Text

  const ItemOpen := "<item>"
  const ChannelClose := "</channel>"
  const BuildDateOpen := "<lastBuildDate>"
  const BuildDateClose := "</lastBuildDate>"
  const LanguageClose := "</language>"

  /** The dedup key `updateFeed` looks for: `<guid>` + the raw guid + `</guid>`. */
  function GuidTag(guid: string): string {
    "<guid>" + guid + "</guid>"
  }

  /** `updateFeed`: nothing if the guid tag is already there; otherwise the item
      goes before the first `<item>` (followed by a blank line), else before
      `</channel>` (on a line of its own), else at the end. */
  function UpdateFeed(feed: string, item: string, guid: string): (r: string)
    ensures Contains(feed, GuidTag(guid)) ==> r == feed
    ensures !Contains(feed, GuidTag(guid)) && IndexOf(feed, ItemOpen).Some? ==>
      r == Splice(feed, IndexOf(feed, ItemOpen).value, item + "\n\n")
    ensures !Contains(feed, GuidTag(guid)) && IndexOf(feed, ItemOpen).None? && IndexOf(feed, ChannelClose).Some? ==>
      r == Splice(feed, IndexOf(feed, ChannelClose).value, "\n" + item + "\n")
    ensures !Contains(feed, GuidTag(guid)) && IndexOf(feed, ItemOpen).None? && IndexOf(feed, ChannelClose).None? ==>
      r == feed + "\n" + item + "\n"
  {
    if Contains(feed, GuidTag(guid)) then feed
    else match IndexOf(feed, ItemOpen)
      case Some(f) => Splice(feed, f, item + "\n\n")
      case None =>
        match IndexOf(feed, ChannelClose)
        case Some(c) => Splice(feed, c, "\n" + item + "\n")
        case None => feed + "\n" + item + "\n"
  }

  /** The feed is left as it is exactly when the guid tag is already in it. */
  lemma UpdateFeedUnchangedIff(feed: string, item: string, guid: string)
    ensures UpdateFeed(feed, item, guid) == feed <==> Contains(feed, GuidTag(guid))
  {
    if !Contains(feed, GuidTag(guid)) {
      assert |UpdateFeed(feed, item, guid)| > |feed|;
    }
  }

  /** Whatever branch is taken, text the item contains is in the new feed. */
  lemma UpdateFeedKeepsItemText(feed: string, item: string, guid: string, p: string)
    requires !Contains(feed, GuidTag(guid)) && Contains(item, p)
    ensures Contains(UpdateFeed(feed, item, guid), p)
  {
    match IndexOf(feed, ItemOpen)
    case Some(f) =>
      ContainsInFront(item, "\n\n", p);
      ContainsInConcat(feed[..f], item + "\n\n", feed[f..], p);
    case None =>
      match IndexOf(feed, ChannelClose)
      case Some(c) =>
        ContainsInBack("\n", item, p);
        ContainsInFront("\n" + item, "\n", p);
        ContainsInConcat(feed[..c], "\n" + item + "\n", feed[c..], p);
      case None =>
        ContainsInBack(feed + "\n", item, p);
        ContainsInFront(feed + "\n" + item, "\n", p);
  }

  /** Adding an item that carries its own guid tag twice adds it once. */
  lemma UpdateFeedIdempotent(feed: string, item: string, guid: string)
    requires Contains(item, GuidTag(guid))
    ensures UpdateFeed(UpdateFeed(feed, item, guid), item, guid) == UpdateFeed(feed, item, guid)
  {
    if !Contains(feed, GuidTag(guid)) {
      UpdateFeedKeepsItemText(feed, item, guid, GuidTag(guid));
    }
  }

  /** The feed's items are indented by four spaces and open with `<item>`. */
  predicate IsIndentedItem(item: string) {
    |item| >= 4 + |ItemOpen| && item[..4] == "    " && OccursAt(item, ItemOpen, 4)
  }

  /** `updateFeed` brings in no character beyond the item's and a newline. */
  lemma UpdateFeedChars(feed: string, item: string, guid: string, c: char)
    requires c !in feed && c !in item && c != '\n'
    ensures c !in UpdateFeed(feed, item, guid)
  {
    if !Contains(feed, GuidTag(guid)) {
      match IndexOf(feed, ItemOpen)
      case Some(f) =>
        assert c !in feed[..f] && c !in feed[f..];
      case None =>
        match IndexOf(feed, ChannelClose)
        case Some(k) =>
          assert c !in feed[..k] && c !in feed[k..];
        case None =>
    }
  }

  /** Once the feed has an item, a new one goes in front of it, and the first
      `<item>` is then the new one's, four characters further on (its indent stays
      in front of the old first item's position). */
  lemma UpdateFeedNewFirst(feed: string, item: string, guid: string)
    requires !Contains(feed, GuidTag(guid)) && IndexOf(feed, ItemOpen).Some?
    requires IsIndentedItem(item)
    ensures IndexOf(UpdateFeed(feed, item, guid), ItemOpen) == Some(IndexOf(feed, ItemOpen).value + 4)
  {
    var f := IndexOf(feed, ItemOpen).value;
    var x := item + "\n\n";
    assert x[..4] == "    ";
    assert x[4..4 + |ItemOpen|] == item[4..4 + |ItemOpen|];
    SpliceFirst(feed, f, x, ItemOpen, 4);
    assert UpdateFeed(feed, item, guid) == feed[..f] + x + feed[f..];
  }

  /** Into a feed with no item yet, the item goes on its own line before
      `</channel>`, and its `<item>` is then the first. */
  lemma UpdateFeedFirstItem(feed: string, item: string, guid: string)
    requires !Contains(feed, GuidTag(guid)) && IndexOf(feed, ItemOpen).None?
    requires IndexOf(feed, ChannelClose).Some? && IsIndentedItem(item)
    ensures IndexOf(UpdateFeed(feed, item, guid), ItemOpen) == Some(IndexOf(feed, ChannelClose).value + 5)
  {
    var c := IndexOf(feed, ChannelClose).value;
    var x := "\n" + item + "\n";
    assert x[..5] == "\n    ";
    assert x[5..5 + |ItemOpen|] == item[4..4 + |ItemOpen|];
    SpliceFirst(feed, c, x, ItemOpen, 5);
    assert UpdateFeed(feed, item, guid) == feed[..c] + x + feed[c..];
  }

  /** The orchestrator's loop over the feed: one `updateFeed` per (item, guid). */
  function UpdateAll(feed: string, items: seq<(string, string)>): string
    decreases |items|
  {
    if items == [] then feed else UpdateAll(UpdateFeed(feed, items[0].0, items[0].1), items[1..])
  }

  /** No step of the run finds its guid already in the feed. */
  predicate AllNewGuids(feed: string, items: seq<(string, string)>)
    decreases |items|
  {
    items == [] || (!Contains(feed, GuidTag(items[0].1))
                    && AllNewGuids(UpdateFeed(feed, items[0].0, items[0].1), items[1..]))
  }

  /** `n` indents of four spaces. */
  function Indents(n: nat): string {
    if n == 0 then "" else "    " + Indents(n - 1)
  }

  /** The items without their indent, each followed by a blank line, in the given order. */
  function Chain(items: seq<(string, string)>): string {
    if items == [] then "" else Dedent(items[0].0) + "\n\n" + Chain(items[1..])
  }

  /** An item without its four-space indent. */
  function Dedent(item: string): string {
    if |item| >= 4 then item[4..] else item
  }

  lemma {:induction false} ChainAppend(items: seq<(string, string)>, x: (string, string))
    ensures Chain(items + [x]) == Chain(items) + (Dedent(x.0) + "\n\n")
  {
    if items != [] {
      assert (items + [x])[1..] == items[1..] + [x];
      ChainAppend(items[1..], x);
    } else {
      assert [] + [x] == [x];
    }
  }

  /** Adding items one at a time to a feed that already has one leaves them newest
      first in front of the old items, the rest of the feed untouched; all their
      indents pile up in front of the newest. */
  lemma {:induction false} UpdateAllStacks(feed: string, items: seq<(string, string)>)
    requires IndexOf(feed, ItemOpen).Some?
    requires forall i :: 0 <= i < |items| ==> IsIndentedItem(items[i].0)
    requires AllNewGuids(feed, items)
    ensures var f := IndexOf(feed, ItemOpen).value;
      UpdateAll(feed, items) == feed[..f] + Indents(|items|) + Chain(Reverse(items)) + feed[f..]
    decreases |items|
  {
    if items == [] {
      StacksNone(feed, items);
    } else {
      var x := items[0];
      var next := UpdateFeed(feed, x.0, x.1);
      assert IsIndentedItem(x.0) && !Contains(feed, GuidTag(x.1));
      UpdateFeedNewFirst(feed, x.0, x.1);
      TailIndented(items);
      UpdateAllStacks(next, items[1..]);
      StacksOne(feed, items, next);
    }
  }

  lemma StacksNone(feed: string, items: seq<(string, string)>)
    requires IndexOf(feed, ItemOpen).Some? && items == []
    ensures var f := IndexOf(feed, ItemOpen).value;
      UpdateAll(feed, items) == feed[..f] + Indents(|items|) + Chain(Reverse(items)) + feed[f..]
  {
    var f := IndexOf(feed, ItemOpen).value;
    assert Indents(0) == "" && Chain(Reverse(items)) == "";
    assert feed[..f] + "" + "" + feed[f..] == feed;
  }

  /** One step of `UpdateAllStacks`, given the stack for the rest of the items. */
  lemma StacksOne(feed: string, items: seq<(string, string)>, next: string)
    requires IndexOf(feed, ItemOpen).Some? && items != []
    requires IsIndentedItem(items[0].0) && !Contains(feed, GuidTag(items[0].1))
    requires next == UpdateFeed(feed, items[0].0, items[0].1)
    requires IndexOf(next, ItemOpen) == Some(IndexOf(feed, ItemOpen).value + 4)
    requires var g := IndexOf(next, ItemOpen).value;
      UpdateAll(next, items[1..]) == next[..g] + Indents(|items[1..]|) + Chain(Reverse(items[1..])) + next[g..]
    ensures var f := IndexOf(feed, ItemOpen).value;
      UpdateAll(feed, items) == feed[..f] + Indents(|items|) + Chain(Reverse(items)) + feed[f..]
  {
    var f := IndexOf(feed, ItemOpen).value;
    var x := items[0];
    var n := |items|;
    InsertBeforeFirstItem(feed, x.0, x.1);
    ReverseCons(items);
    var b, c, d := Indents(n - 1), Chain(Reverse(items[1..])), Dedent(x.0) + "\n\n";
    ChainAppend(Reverse(items[1..]), x);
    StacksStep(feed[..f], feed[f..], d, b, c, next, UpdateAll(next, items[1..]));
    assert Indents(n) == "    " + b;
    assert Chain(Reverse(items)) == c + d;
    assert UpdateAll(feed, items) == UpdateAll(next, items[1..]);
  }

  lemma TailIndented(items: seq<(string, string)>)
    requires items != [] && forall i :: 0 <= i < |items| ==> IsIndentedItem(items[i].0)
    ensures forall i :: 0 <= i < |items[1..]| ==> IsIndentedItem(items[1..][i].0)
  {
    forall i | 0 <= i < |items[1..]| ensures IsIndentedItem(items[1..][i].0) {
      assert items[1..][i] == items[i + 1];
    }
  }

  /** An indented item goes in front of the first `<item>`, its indent first. */
  lemma InsertBeforeFirstItem(feed: string, item: string, guid: string)
    requires !Contains(feed, GuidTag(guid)) && IndexOf(feed, ItemOpen).Some?
    requires IsIndentedItem(item)
    ensures var f := IndexOf(feed, ItemOpen).value;
      UpdateFeed(feed, item, guid) == feed[..f] + "    " + (Dedent(item) + "\n\n") + feed[f..]
  {
    var f := IndexOf(feed, ItemOpen).value;
    assert item == "    " + Dedent(item);
    Reassociate(feed[..f], "    ", Dedent(item), "\n\n", feed[f..]);
  }

  lemma Reassociate(a: string, b: string, c: string, g: string, e: string)
    ensures a + (b + c) + g + e == a + b + (c + g) + e
  {
  }

  /** The string algebra of one step of `UpdateAllStacks`. */
  lemma StacksStep(a: string, e: string, d: string, b: string, c: string, next: string, tail: string)
    requires next == a + "    " + d + e
    requires tail == next[..|a| + 4] + b + c + next[|a| + 4..]
    ensures tail == a + ("    " + b) + (c + d) + e
  {
    CutConcat(a + "    ", d, e);
    CutConcat(a, "    ", d + e);
    assert next[..|a| + 4] == a + "    ";
    assert next[|a| + 4..] == d + e;
  }

  /** `setLastBuildDate`: with a `<lastBuildDate>` tag, replace the first
      `<lastBuildDate>…</lastBuildDate>` span (none if no closing tag follows);
      else insert the element on its own line after `</language>`; else nothing. */
  function SetLastBuildDate(feed: string, date: string): (r: string)
    ensures FirstSpan(feed, BuildDateOpen, BuildDateClose).Some? ==>
      var (i, j) := FirstSpan(feed, BuildDateOpen, BuildDateClose).value;
      r == feed[..i] + BuildDateElement(date) + feed[j + |BuildDateClose|..]
    ensures Contains(feed, BuildDateOpen) && FirstSpan(feed, BuildDateOpen, BuildDateClose).None? ==> r == feed
    ensures !Contains(feed, BuildDateOpen) && IndexOf(feed, LanguageClose).Some? ==>
      var l := IndexOf(feed, LanguageClose).value;
      l + |LanguageClose| <= |feed| && r == Splice(feed, l + |LanguageClose|, "\n    " + BuildDateElement(date))
    ensures !Contains(feed, BuildDateOpen) && !Contains(feed, LanguageClose) ==> r == feed
  {
    if Contains(feed, BuildDateOpen) then
      ReplaceFirstSpan(feed, BuildDateOpen, BuildDateClose, BuildDateElement(date))
    else
      match IndexOf(feed, LanguageClose)
      case None => feed
      case Some(l) => Splice(feed, l + |LanguageClose|, "\n    " + BuildDateElement(date))
  }

  function BuildDateElement(date: string): string {
    BuildDateOpen + date + BuildDateClose
  }

  /** The first `<lastBuildDate>…</lastBuildDate>` span of `r` holds exactly `date`. */
  predicate HoldsBuildDate(r: string, date: string) {
    match FirstSpan(r, BuildDateOpen, BuildDateClose)
    case None => false
    case Some((i, j)) => j == i + |BuildDateOpen| + |date| && r[i + |BuildDateOpen|..j] == date
  }

  /** The date, once written, is what the first `<lastBuildDate>` element holds,
      whether it replaced an old element or was inserted after `</language>`. A date
      cannot contain the closing tag when it has no `<` (true of `toUTCString`
      output). */
  lemma SetLastBuildDateReadBack(feed: string, date: string)
    requires '<' !in date
    requires FirstSpan(feed, BuildDateOpen, BuildDateClose).Some?
          || (!Contains(feed, BuildDateOpen) && Contains(feed, LanguageClose))
    ensures HoldsBuildDate(SetLastBuildDate(feed, date), date)
  {
    if FirstSpan(feed, BuildDateOpen, BuildDateClose).Some? {
      ReadBackReplaced(feed, date);
    } else {
      ReadBackInserted(feed, date);
    }
  }

  lemma ReadBackReplaced(feed: string, date: string)
    requires '<' !in date
    requires FirstSpan(feed, BuildDateOpen, BuildDateClose).Some?
    ensures HoldsBuildDate(SetLastBuildDate(feed, date), date)
  {
    var r := SetLastBuildDate(feed, date);
    var x := BuildDateElement(date);
    var (i, j) := FirstSpan(feed, BuildDateOpen, BuildDateClose).value;
    OccursContains(feed, BuildDateOpen, i);
    assert r == feed[..i] + x + feed[j + |BuildDateClose|..];
    assert r[..i + |BuildDateOpen|] == feed[..i + |BuildDateOpen|];
    IndexOfCommonPrefix(feed, r, BuildDateOpen, i);
    assert r[i..i + |x|] == x;
    BuildDateSpanAt(r, i, date);
  }

  lemma ReadBackInserted(feed: string, date: string)
    requires '<' !in date
    requires !Contains(feed, BuildDateOpen) && Contains(feed, LanguageClose)
    ensures HoldsBuildDate(SetLastBuildDate(feed, date), date)
  {
    var l := IndexOf(feed, LanguageClose).value;
    var k := l + |LanguageClose|;
    var y := "\n    " + BuildDateElement(date);
    var r := SetLastBuildDate(feed, date);
    assert r == feed[..k] + y + feed[k..];
    MissingNowhere(feed, BuildDateOpen);
    InsertedElementHeld(feed, k, date, r);
  }

  /** The element inserted on a new line at `k` of a feed without one is held. */
  lemma InsertedElementHeld(feed: string, k: nat, date: string, r: string)
    requires '<' !in date && k <= |feed|
    requires forall j :: !OccursAt(feed, BuildDateOpen, j)
    requires r == feed[..k] + ("\n    " + BuildDateElement(date)) + feed[k..]
    ensures HoldsBuildDate(r, date)
  {
    var x := BuildDateElement(date);
    var y := "\n    " + x;
    IndentedElementLayout(date);
    SpliceFirst(feed, k, y, BuildDateOpen, 5);
    OccursInConcat(feed[..k], y, feed[k..], x, 5);
    BuildDateSpanAt(r, k + 5, date);
  }

  /** The element on its own line: the build date opens five characters in, and
      nothing before it can start an opening tag. */
  lemma IndentedElementLayout(date: string)
    ensures var y := "\n    " + BuildDateElement(date);
      && y[0] !in BuildDateOpen[1..] && BuildDateOpen[0] !in y[..5]
      && OccursAt(y, BuildDateOpen, 5) && OccursAt(y, BuildDateElement(date), 5)
  {
    var x := BuildDateElement(date);
    var y := "\n    " + x;
    assert y[..5] == "\n    ";
    assert y[5..5 + |x|] == x;
    assert y[5..5 + |BuildDateOpen|] == x[..|BuildDateOpen|] == BuildDateOpen;
  }

  /** An element `<lastBuildDate>DATE</lastBuildDate>` at the first opening tag,
      with no `<` in DATE, is the first span. */
  lemma BuildDateSpanAt(r: string, i: nat, date: string)
    requires '<' !in date
    requires IndexOf(r, BuildDateOpen) == Some(i)
    requires OccursAt(r, BuildDateElement(date), i)
    ensures FirstSpan(r, BuildDateOpen, BuildDateClose) == Some((i, i + |BuildDateOpen| + |date|))
    ensures r[i + |BuildDateOpen|..i + |BuildDateOpen| + |date|] == date
  {
    var a := i + |BuildDateOpen|;
    var b := a + |date|;
    Split(r, BuildDateOpen + date, BuildDateClose, i);
    Split(r, BuildDateOpen, date, i);
    assert r[a..b] == date;
    NoLeadNoOccurrence(r, BuildDateClose, a, b);
    IndexOfFromIs(r, BuildDateClose, a, b);
  }

  /** Setting the same build date twice is setting it once. */
  lemma SetLastBuildDateIdempotent(feed: string, date: string)
    requires '<' !in date
    ensures SetLastBuildDate(SetLastBuildDate(feed, date), date) == SetLastBuildDate(feed, date)
  {
    if FirstSpan(feed, BuildDateOpen, BuildDateClose).Some?
       || (!Contains(feed, BuildDateOpen) && Contains(feed, LanguageClose)) {
      SetLastBuildDateReadBack(feed, date);
      RewriteHeldDate(SetLastBuildDate(feed, date), date);
    }
  }

  /** Writing the date a feed already holds changes nothing. */
  lemma RewriteHeldDate(r: string, date: string)
    requires HoldsBuildDate(r, date)
    ensures SetLastBuildDate(r, date) == r
  {
    var (i, j) := FirstSpan(r, BuildDateOpen, BuildDateClose).value;
    OccursContains(r, BuildDateOpen, i);
    Rebuild(r, i, j, BuildDateOpen, date, BuildDateClose);
  }

  /** A string is its own text around an `open`, `mid`, `close` run at `i`. */
  lemma Rebuild(r: string, i: nat, j: nat, open: string, mid: string, close: string)
    requires OccursAt(r, open, i) && OccursAt(r, close, j) && j == i + |open| + |mid|
    requires r[i + |open|..j] == mid
    ensures r[..i] + (open + mid + close) + r[j + |close|..] == r
  {
    assert r[i..j + |close|] == open + mid + close;
    assert r[..i] + r[i..j + |close|] + r[j + |close|..] == r;
  }
}

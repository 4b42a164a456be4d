/** The strings the orchestrator of scripts/archive-moltbook.mjs builds for each
    new post: the page's file name and relative link, the feed guid, the homepage
    `<li>` entry and the feed `<item>`. */
module Entries {
  import opened Text
  import opened Escape
  import opened Slug
  import opened IndexMerge
  import opened LatestSection
  import opened FeedMerge

  const DateLength: nat := 10
  const IdPrefixLength: nat := 8
  const ExcerptLength: nat := 400
  const PostsDir := "./posts/"
  const MoltbookPostBase := "https://www.moltbook.com/post/"

  /** None of the five characters `htmlEscape` rewrites. */
  predicate Plain(s: string) {
    forall i :: 0 <= i < |s| ==> !Special(s[i])
  }

  lemma PlainConcat(a: string, b: string)
    requires Plain(a) && Plain(b)
    ensures Plain(a + b)
  {
    forall i | 0 <= i < |a + b| ensures !Special((a + b)[i]) {
      if i < |a| { assert (a + b)[i] == a[i]; } else { assert (a + b)[i] == b[i - |a|]; }
    }
  }

  lemma PlainSlice(s: string, i: int, j: int)
    requires Plain(s) && 0 <= i <= j <= |s|
    ensures Plain(s[i..j])
  {
    forall t | 0 <= t < j - i ensures !Special(s[i..j][t]) {
      assert s[i..j][t] == s[i + t];
    }
  }

  /** `createdAt ? createdAt.slice(0, 10) : isoDate()`: the first ten characters of
      the creation time, or today's date when the post has none. */
  function PostDate(createdAt: string, today: string): (d: string)
    ensures createdAt == [] ==> d == today
    ensures createdAt != [] ==> d <= createdAt && |d| == if |createdAt| < DateLength then |createdAt| else DateLength
  {
    if createdAt != [] then Take(createdAt, DateLength) else today
  }

  /** `${date}-${slug}-${id.slice(0, 8)}.html`. The slug brings no character that
      needs escaping, so the file name is plain when the date and the id are. */
  function Filename(date: string, title: string, id: string): (f: string)
    ensures |f| > 5 && f[|f| - 5..] == ".html"
    ensures Plain(date) && Plain(id) ==> Plain(f)
  {
    var f := date + "-" + ToSlug(title) + "-" + Take(id, IdPrefixLength) + ".html";
    SlugPlain(title);
    FilenamePlain(date, ToSlug(title), Take(id, IdPrefixLength), id);
    assert f[|f| - 5..] == ".html";
    f
  }

  lemma FilenamePlain(date: string, slug: string, pre: string, id: string)
    requires pre <= id
    ensures Plain(date) && Plain(id) && Plain(slug) ==> Plain(date + "-" + slug + "-" + pre + ".html")
  {
    if Plain(date) && Plain(id) && Plain(slug) {
      assert pre == id[..|pre|];
      PlainSlice(id, 0, |pre|);
      PlainConcat(date, "-");
      PlainConcat(date + "-", slug);
      PlainConcat(date + "-" + slug, "-");
      PlainConcat(date + "-" + slug + "-", pre);
      PlainConcat(date + "-" + slug + "-" + pre, ".html");
    }
  }

  /** A slug is made of `[a-z0-9-]`, none of which `htmlEscape` rewrites. */
  lemma SlugPlain(title: string)
    ensures Plain(ToSlug(title))
  {
    ShapedPlain(ToSlug(title));
  }

  lemma ShapedPlain(s: string)
    requires SlugShaped(s)
    ensures Plain(s)
  {
    forall i | 0 <= i < |s| ensures !Special(s[i]) {
      assert IsSlugChar(s[i]) || s[i] == '-';
    }
  }

  /** `./posts/${filename}`: the link written into the homepage entry. */
  function RelUrl(filename: string): string {
    PostsDir + filename
  }

  /** `SITE_BASE.endsWith('/') ? SITE_BASE.slice(0, -1) : SITE_BASE`: at most one
      trailing slash comes off. */
  function SitePostBase(siteBase: string): (b: string)
    ensures b <= siteBase && |siteBase| - |b| <= 1
    ensures |b| < |siteBase| <==> siteBase != [] && siteBase[|siteBase| - 1] == '/'
  {
    if siteBase != [] && siteBase[|siteBase| - 1] == '/' then siteBase[..|siteBase| - 1] else siteBase
  }

  /** `relUrl.replace(/^\./, '')`: one leading dot comes off. */
  function StripLeadingDot(s: string): (r: string)
    ensures s != [] && s[0] == '.' ==> r == s[1..]
    ensures !(s != [] && s[0] == '.') ==> r == s
  {
    if s != [] && s[0] == '.' then s[1..] else s
  }

  /** The feed guid (and link): the site's post base followed by the relative link
      without its leading dot. */
  function Guid(siteBase: string, relUrl: string): string {
    SitePostBase(siteBase) + StripLeadingDot(relUrl)
  }

  /** For the links the orchestrator builds, the guid is the absolute address of the
      page: the site base without its trailing slash, then `/posts/` and the file. */
  lemma GuidOfRelUrl(siteBase: string, filename: string)
    ensures Guid(siteBase, RelUrl(filename)) == SitePostBase(siteBase) + "/posts/" + filename
  {
    assert RelUrl(filename)[1..] == "/posts/" + filename;
  }

  /** The guid needs no escaping when the site base, the date and the id need none. */
  lemma GuidPlain(siteBase: string, date: string, title: string, id: string)
    requires Plain(siteBase) && Plain(date) && Plain(id)
    ensures Plain(Guid(siteBase, RelUrl(Filename(date, title, id))))
  {
    FilePlainGuid(siteBase, Filename(date, title, id));
  }

  lemma FilePlainGuid(siteBase: string, f: string)
    requires Plain(siteBase) && Plain(f)
    ensures Plain(Guid(siteBase, RelUrl(f)))
  {
    GuidOfRelUrl(siteBase, f);
    var b := SitePostBase(siteBase);
    assert b == siteBase[..|b|];
    PlainSlice(siteBase, 0, |b|);
    PlainAround(b, f);
  }

  lemma PlainAround(b: string, f: string)
    requires Plain(b) && Plain(f)
    ensures Plain(b + "/posts/" + f)
  {
    PlainConcat(b, "/posts/");
    PlainConcat(b + "/posts/", f);
  }

  /** `https://www.moltbook.com/post/${id}`. */
  function MoltUrl(id: string): string {
    MoltbookPostBase + id
  }

  const EntryOpen := "      <li>\n        "
  const EntryGap := "\n        "
  const EntryClose := "\n      </li>"

  /** The homepage `<li>`: the raw link, the escaped title and the escaped date. */
  function Entry(relUrl: string, title: string, date: string): string {
    EntryText(relUrl, HtmlEscape(title), HtmlEscape(date))
  }

  /** The `<li>` template around a link, a title and a date as they are written. */
  function EntryText(u: string, t: string, d: string): string {
    LinkPart(u) + TitlePart(t) + DatePart(d)
  }

  function LinkPart(u: string): string {
    EntryOpen + AnchorOpen + u + "\">"
  }

  function TitlePart(t: string): string {
    t + AnchorClose + EntryGap
  }

  function DatePart(d: string): string {
    MetaOpen + d + MetaClose + EntryClose
  }

  /** A newline and then the entry start at `k` of `r`. */
  predicate EntryAt(r: string, k: int, u: string, t: string, d: string) {
    OccursAt(r, "\n" + EntryText(u, t, d), k)
  }

  /** `<![CDATA[` + the first 400 characters of the content (raw) + `]]>`. */
  function Description(content: string): (r: string)
    ensures var n := if |content| < ExcerptLength then |content| else ExcerptLength;
      r == "<![CDATA[\n" + content[..n] + "\n]]>"
  {
    "<![CDATA[\n" + Take(content, ExcerptLength) + "\n]]>"
  }

  const ItemHead := "    <item>\n      <title>"

  /** The feed `<item>`: title, link, guid and date escaped; the description raw.
      Its `<guid>` element holds the ESCAPED guid. */
  function Item(title: string, guid: string, pubDate: string, content: string): string {
    ItemFront(title, guid) + GuidTag(HtmlEscape(guid)) + ItemBack(pubDate, content)
  }

  function ItemFront(title: string, guid: string): string {
    ItemHead + HtmlEscape(title) + "</title>\n      <link>" + HtmlEscape(guid) + "</link>\n      "
  }

  function ItemBack(pubDate: string, content: string): string {
    "\n      <pubDate>" + HtmlEscape(pubDate) + "</pubDate>\n      <description>" + Description(content)
    + "</description>\n    </item>"
  }

  /** The page body: the content escaped, each newline followed by `<br/>`. */
  function ContentHtml(content: string): string {
    ReplaceAll(HtmlEscape(content), '\n', "<br/>\n")
  }

  /** The items the orchestrator builds are indented four spaces and open with
      `<item>`, which is what puts each new one in front of the old ones. */
  lemma ItemIndented(title: string, guid: string, pubDate: string, content: string)
    ensures IsIndentedItem(Item(title, guid, pubDate, content))
  {
    var a := ItemHead;
    assert a[..4] == "    " && a[4..4 + |ItemOpen|] == ItemOpen;
    IndentedExtend(a, HtmlEscape(title));
    a := a + HtmlEscape(title);
    IndentedExtend(a, "</title>\n      <link>");
    a := a + "</title>\n      <link>";
    IndentedExtend(a, HtmlEscape(guid));
    a := a + HtmlEscape(guid);
    IndentedExtend(a, "</link>\n      ");
    a := a + "</link>\n      ";
    IndentedExtend(a, GuidTag(HtmlEscape(guid)));
    a := a + GuidTag(HtmlEscape(guid));
    IndentedExtend(a, ItemBack(pubDate, content));
  }

  lemma IndentedExtend(x: string, y: string)
    requires IsIndentedItem(x)
    ensures IsIndentedItem(x + y)
  {
    assert (x + y)[..4] == x[..4];
    assert (x + y)[4..4 + |ItemOpen|] == x[4..4 + |ItemOpen|];
  }

  /** When the guid needs no escaping the item carries `<guid>GUID</guid>`
      verbatim, which is the tag `updateFeed` deduplicates on. */
  lemma ItemCarriesGuidTag(title: string, guid: string, pubDate: string, content: string)
    requires Plain(guid)
    ensures Contains(Item(title, guid, pubDate, content), GuidTag(guid))
  {
    HtmlEscapeIdentity(guid);
    var b := GuidTag(guid);
    assert OccursAt(b, b, 0);
    OccursContains(b, b, 0);
    ContainsInConcat(ItemFront(title, guid), b, ItemBack(pubDate, content), b);
  }

  /** So for such a guid a post fed in twice is added to the feed once. */
  lemma ItemFeedIdempotent(feed: string, title: string, guid: string, pubDate: string, content: string)
    requires Plain(guid)
    ensures var it := Item(title, guid, pubDate, content);
      UpdateFeed(UpdateFeed(feed, it, guid), it, guid) == UpdateFeed(feed, it, guid)
  {
    ItemCarriesGuidTag(title, guid, pubDate, content);
    UpdateFeedIdempotent(feed, Item(title, guid, pubDate, content), guid);
  }

  /** The dedup key is the raw guid but the item holds the escaped one. With a
      double quote or an apostrophe in the guid (characters that neither the item
      nor, here, the feed and the content otherwise contain), the same post fed in
      a second time is added again. */
  lemma EscapedGuidAddedTwice(feed: string, title: string, guid: string, pubDate: string, content: string, c: char)
    requires c == '"' || c == '\''
    requires c in guid && c !in feed && c !in content
    ensures var it := Item(title, guid, pubDate, content);
      var once := UpdateFeed(feed, it, guid);
      once != feed && UpdateFeed(once, it, guid) != once
  {
    ItemLacks(title, guid, pubDate, content, c);
    GuidNotDeduplicated(feed, Item(title, guid, pubDate, content), guid, c);
  }

  /** A guid with a character that neither the feed nor the item contains is
      never found, so the item goes in on every call. */
  lemma GuidNotDeduplicated(feed: string, it: string, guid: string, c: char)
    requires c in guid && c !in feed && c !in it && c != '\n'
    ensures var once := UpdateFeed(feed, it, guid);
      once != feed && UpdateFeed(once, it, guid) != once
  {
    UpdateFeedChars(feed, it, guid, c);
    var once := UpdateFeed(feed, it, guid);
    var k :| 0 <= k < |guid| && guid[k] == c;
    assert GuidTag(guid)[6 + k] == c;
    MissingCharNotContained(feed, GuidTag(guid), 6 + k);
    MissingCharNotContained(once, GuidTag(guid), 6 + k);
    UpdateFeedUnchangedIff(feed, it, guid);
    UpdateFeedUnchangedIff(once, it, guid);
  }

  /** Neither a double quote nor an apostrophe gets into an item but through the
      raw description. */
  lemma ItemLacks(title: string, guid: string, pubDate: string, content: string, c: char)
    requires c == '"' || c == '\''
    requires c !in content
    ensures c !in Item(title, guid, pubDate, content)
  {
    FrontLacks(title, guid, c);
    BackLacks(pubDate, content, c);
    HtmlEscapeSafe(guid);
    assert c !in GuidTag(HtmlEscape(guid));
  }

  lemma FrontLacks(title: string, guid: string, c: char)
    requires c == '"' || c == '\''
    ensures c !in ItemFront(title, guid)
  {
    HtmlEscapeSafe(title);
    HtmlEscapeSafe(guid);
    QuoteFree(ItemHead, HtmlEscape(title), "</title>\n      <link>", HtmlEscape(guid), "</link>\n      ", c);
  }

  lemma BackLacks(pubDate: string, content: string, c: char)
    requires c == '"' || c == '\''
    requires c !in content
    ensures c !in ItemBack(pubDate, content)
  {
    HtmlEscapeSafe(pubDate);
    DescriptionLacks(content, c);
    BackLiteralsLack(c);
    QuoteFree("\n      <pubDate>", HtmlEscape(pubDate), "</pubDate>\n      <description>", Description(content),
              "</description>\n    </item>", c);
  }

  lemma BackLiteralsLack(c: char)
    requires c == '"' || c == '\''
    ensures c !in "\n      <pubDate>" && c !in "</pubDate>\n      <description>" && c !in "</description>\n    </item>"
  {
    LiteralLacks("\n      <pubDate>", c);
    LiteralLacks("</pubDate>\n      <description>", c);
    LiteralLacks("</description>\n    </item>", c);
  }

  /** A piece of markup without quotes has neither kind of quote. */
  lemma LiteralLacks(s: string, c: char)
    requires c == '"' || c == '\''
    requires forall i :: 0 <= i < |s| ==> s[i] == '\n' || s[i] == ' ' || s[i] == '<' || s[i] == '>' || s[i] == '/' || 'a' <= s[i] <= 'z' || 'A' <= s[i] <= 'Z'
    ensures c !in s
  {
  }

  lemma DescriptionLacks(content: string, c: char)
    requires c == '"' || c == '\''
    requires c !in content
    ensures c !in Description(content)
  {
    var t := Take(content, ExcerptLength);
    assert t == content[..|t|];
    QuoteFree("<![CDATA[\n", t, "\n]]>", "", "", c);
    assert Description(content) == "<![CDATA[\n" + t + "\n]]>" + "" + "";
  }

  /** Five pieces without the character make a string without it. */
  lemma QuoteFree(a: string, b: string, x: string, d: string, e: string, c: char)
    requires c !in a && c !in b && c !in x && c !in d && c !in e
    ensures c !in a + b + x + d + e
  {
  }

  /** The link the orchestrator writes into an entry: never empty, free of double
      quotes when the date and the id are, and ending in the `l` of `.html`. */
  lemma RelUrlShape(date: string, title: string, id: string)
    requires Plain(date) && Plain(id)
    ensures var u := RelUrl(Filename(date, title, id));
      u != [] && '"' !in u && u[|u| - 1] == 'l'
  {
    var f := Filename(date, title, id);
    LinkShape(f);
  }

  lemma LinkShape(f: string)
    requires Plain(f) && |f| > 5 && f[|f| - 5..] == ".html"
    ensures var u := RelUrl(f);
      u != [] && '"' !in u && u[|u| - 1] == 'l'
  {
    var u := RelUrl(f);
    assert f[|f| - 1] == f[|f| - 5..][4];
    assert u[|u| - 1] == f[|f| - 1];
    PlainNoQuote(f);
  }

  lemma PlainNoQuote(s: string)
    requires Plain(s)
    ensures '"' !in s
  {
    forall i | 0 <= i < |s|
      ensures s[i] != '"'
    {
      assert !Special(s[i]);
    }
  }

  /** `upsertIndex` reads back the link of an entry built from it, as long as the
      link has no double quote and does not end in `=` (which would make the end
      of the link look like a second `href="`). */
  lemma EntryHref(u: string, title: string, date: string)
    requires u != [] && '"' !in u && u[|u| - 1] != '='
    ensures ExtractHref(Entry(u, title, date)) == Some(u)
    ensures Contains(Entry(u, title, date), HrefAttr + u + "\"")
  {
    var t := HtmlEscape(title);
    var d := HtmlEscape(date);
    HtmlEscapeSafe(title);
    assert Entry(u, title, date) == EntryText(u, t, d);
    EntryHrefAt(u, t, d);
    EntryContainsLink(u, t, d);
    var c := ">" + TitlePart(t) + DatePart(d);
    QuoteFreeHead(t, DatePart(d));
    NoSecondHref(u, c);
    LinkBeforeQuote(u, c);
  }

  /** The first `href="` of an entry is the anchor's, and the link follows it. */
  lemma EntryHrefAt(u: string, t: string, d: string)
    ensures IndexOf(EntryText(u, t, d), HrefAttr) == Some(22)
    ensures EntryText(u, t, d)[22 + |HrefAttr|..] == u + "\"" + (">" + TitlePart(t) + DatePart(d))
  {
    var a := EntryOpen + "<a ";
    var b := HrefAttr + u + "\"";
    var c := ">" + TitlePart(t) + DatePart(d);
    var e := EntryText(u, t, d);
    EntryPieces(u, t, d);
    OccursInConcat(a, b, c, b, 0);
    Split(e, HrefAttr + u, "\"", 22);
    Split(e, HrefAttr, u, 22);
    CutConcat(a, b, c);
    assert HrefAttr[0] !in e[0..22];
    NoLeadNoOccurrence(e, HrefAttr, 0, 22);
    IndexOfFromIs(e, HrefAttr, 0, 22);
    AfterAttr(a, u, c);
  }

  lemma EntryContainsLink(u: string, t: string, d: string)
    ensures Contains(EntryText(u, t, d), HrefAttr + u + "\"")
  {
    var b := HrefAttr + u + "\"";
    EntryPieces(u, t, d);
    assert OccursAt(b, b, 0);
    OccursContains(b, b, 0);
    ContainsInConcat(EntryOpen + "<a ", b, ">" + TitlePart(t) + DatePart(d), b);
  }

  /** An entry is the text up to the anchor's `href="`, then `href="LINK"`, then the rest. */
  lemma EntryPieces(u: string, t: string, d: string)
    ensures EntryText(u, t, d) == (EntryOpen + "<a ") + (HrefAttr + u + "\"") + (">" + TitlePart(t) + DatePart(d))
  {
    assert AnchorOpen == "<a " + HrefAttr;
    assert "\">" == "\"" + ">";
    Regroup7(EntryOpen, "<a ", HrefAttr, u, "\"", ">", TitlePart(t), DatePart(d));
  }

  lemma Regroup7(a: string, b: string, h: string, u: string, q: string, g: string, x: string, y: string)
    ensures a + (b + h) + u + (q + g) + x + y == (a + b) + (h + u + q) + (g + x + y)
  {
  }

  lemma AfterAttr(a: string, u: string, c: string)
    requires |a| == 22
    ensures (a + (HrefAttr + u + "\"") + c)[22 + |HrefAttr|..] == u + "\"" + c
  {
    assert a + (HrefAttr + u + "\"") + c == (a + HrefAttr) + (u + "\"" + c);
  }

  /** Right after a link's closing quote come five characters none of which is a quote. */
  lemma QuoteFreeHead(t: string, d: string)
    requires '"' !in t
    ensures var c := ">" + TitlePart(t) + d;
      |c| >= 5 && forall i :: 0 <= i < 5 ==> c[i] != '"'
  {
    var x := ">" + t + AnchorClose;
    var c := ">" + TitlePart(t) + d;
    assert c == x + (EntryGap + d);
    assert '"' !in x;
    forall i | 0 <= i < 5 ensures c[i] != '"' {
      assert c[i] == x[i];
    }
  }

  /** No `href="` starts within a quote-free link or at its closing quote, unless
      the link ends in `href=`; the last character not being `=` rules that out. */
  lemma NoSecondHref(u: string, c: string)
    requires u != [] && '"' !in u && u[|u| - 1] != '='
    requires |c| >= 5 && forall i :: 0 <= i < 5 ==> c[i] != '"'
    ensures forall j :: 0 <= j <= |u| ==> !OccursAt(u + "\"" + c, HrefAttr, j)
  {
    var r := u + "\"" + c;
    forall j | 0 <= j <= |u| ensures !OccursAt(r, HrefAttr, j) {
      OccursAtChar(r, HrefAttr, j, j + 5);
      OccursAtChar(r, HrefAttr, j, j + 4);
      if j + 5 < |u| {
        assert r[j + 5] == u[j + 5];
      } else if j + 5 == |u| {
        assert r[j + 4] == u[|u| - 1];
      } else {
        assert r[j + 5] == c[j + 5 - |u| - 1];
      }
    }
  }

  /** With no `href="` up to the quote, the link is what is read back. */
  lemma LinkBeforeQuote(u: string, c: string)
    requires '"' !in u
    requires forall j :: 0 <= j <= |u| ==> !OccursAt(u + "\"" + c, HrefAttr, j)
    ensures Before(Before(u + "\"" + c, HrefAttr), "\"") == u
  {
    var r := u + "\"" + c;
    var seg := Before(r, HrefAttr);
    match IndexOf(r, HrefAttr) {
      case Some(k) =>
        assert k > |u|;
        assert seg == r[..k];
      case None =>
        assert seg == r;
    }
    assert |seg| > |u| && seg[..|u|] == u && seg[|u|] == '"';
    assert OccursAt(seg, "\"", |u|);
    assert seg[0..|u|] == u;
    NoLeadNoOccurrence(seg, "\"", 0, |u|);
    IndexOfFromIs(seg, "\"", 0, |u|);
  }

  /** Upserting an entry the orchestrator built a second time changes nothing. */
  lemma EntryUpsertIdempotent(s: string, u: string, title: string, date: string)
    requires Contains(s, PostListMarker)
    requires u != [] && '"' !in u && u[|u| - 1] != '='
    ensures var e := Entry(u, title, date);
      UpsertIndex(UpsertIndex(s, e), e) == UpsertIndex(s, e)
  {
    EntryHref(u, title, date);
    UpsertIndexIdempotent(s, Entry(u, title, date));
  }

  /** The `<li>` just upserted at the top of the post list is the one the latest
      section then shows: its link, its escaped title and its date. */
  lemma LatestAfterUpsert(s: string, u: string, title: string, date: string)
    requires InsertPoint(s).Some? && !IsListed(s, Entry(u, title, date))
    requires u != [] && '"' !in u && IsIsoDate(date)
    ensures FirstEntry(UpsertIndex(s, Entry(u, title, date))) == Some(Latest(u, HtmlEscape(title), date))
  {
    var k := InsertPoint(s).value;
    var t := HtmlEscape(title);
    var entry := Entry(u, title, date);
    var r := UpsertIndex(s, entry);
    UpsertKeepsInsertPoint(s, entry);
    IsoDatePlain(date);
    HtmlEscapeIdentity(date);
    HtmlEscapeSafe(title);
    assert entry == EntryText(u, t, date);
    assert r == s[..k] + ("\n" + entry) + s[k..];
    OccursInConcat(s[..k], "\n" + entry, s[k..], "\n" + entry, 0);
    assert EntryAt(r, k, u, t, date);
    LatestAtEntry(r, k, u, t, date);
  }

  /** A newline and an entry at `k` of any page: the pattern matches that entry. */
  lemma LatestAtEntry(r: string, k: nat, u: string, t: string, d: string)
    requires EntryAt(r, k, u, t, d)
    requires u != [] && '"' !in u && '<' !in t && IsIsoDate(d)
    ensures FindLatest(r, k) == Some(Latest(u, t, d))
  {
    TextAt(r, k, u, t, d);
    LatestFromText(r, k, u, t, d);
  }

  lemma TextAt(r: string, k: nat, u: string, t: string, d: string)
    requires EntryAt(r, k, u, t, d)
    ensures OccursAt(r, EntryText(u, t, d), k + 1)
  {
    Split(r, "\n", EntryText(u, t, d), k);
  }

  /** An entry whose text starts at `k + 1`: the pattern matches it. */
  lemma LatestFromText(r: string, k: nat, u: string, t: string, d: string)
    requires OccursAt(r, EntryText(u, t, d), k + 1)
    requires u != [] && '"' !in u && '<' !in t && IsIsoDate(d)
    ensures FindLatest(r, k) == Some(Latest(u, t, d))
  {
    PartsAt(r, k, u, t, d);
    LatestFromParts(r, k, u, t, d);
  }

  /* The lemmas below give every position in an entry at `k` in one shape, the
     one the pattern's own definitions produce: the link starts at
     `k + 20 + |AnchorOpen|`, its closing `">` follows it, the title starts two
     characters later, `</a>` follows the title, and the date span starts 13
     characters after `</a>`. */

  /** Where the three parts of an entry sit. */
  lemma PartsAt(r: string, k: nat, u: string, t: string, d: string)
    requires OccursAt(r, EntryText(u, t, d), k + 1)
    ensures OccursAt(r, LinkPart(u), k + 1)
    ensures OccursAt(r, TitlePart(t), k + 20 + |AnchorOpen| + |u| + 2)
    ensures OccursAt(r, DatePart(d), k + 20 + |AnchorOpen| + |u| + 2 + |t| + 13)
  {
    Split(r, LinkPart(u) + TitlePart(t), DatePart(d), k + 1);
    Split(r, LinkPart(u), TitlePart(t), k + 1);
  }

  /** The three parts in place: the anchor found, its link, and what follows. */
  lemma LatestFromParts(r: string, k: nat, u: string, t: string, d: string)
    requires OccursAt(r, LinkPart(u), k + 1)
    requires OccursAt(r, TitlePart(t), k + 20 + |AnchorOpen| + |u| + 2)
    requires OccursAt(r, DatePart(d), k + 20 + |AnchorOpen| + |u| + 2 + |t| + 13)
    requires u != [] && '"' !in u && '<' !in t && IsIsoDate(d)
    ensures FindLatest(r, k) == Some(Latest(u, t, d))
  {
    LinkFound(r, k, u);
    TailFound(r, k, u, t, d);
    Combine(r, k, u, Latest(u, t, d));
  }

  /** The anchor is the first after `k`, and its link ends at the first quote. */
  lemma LinkFound(r: string, k: nat, u: string)
    requires OccursAt(r, LinkPart(u), k + 1)
    requires u != [] && '"' !in u
    ensures IndexOfFrom(r, AnchorOpen, k) == Some(k + 20)
    ensures OccursAt(r, u, k + 20 + |AnchorOpen|) && HrefEnd(r, k + 20 + |AnchorOpen|) == Some(k + 20 + |AnchorOpen| + |u|)
  {
    LinkLayout(r, k, u);
    AnchorFirst(r, k);
    HrefFound(r, k, u);
  }

  /** After the link: the title up to the first `</a>`, then the first date span. */
  lemma TailFound(r: string, k: nat, u: string, t: string, d: string)
    requires OccursAt(r, u, k + 20 + |AnchorOpen|)
    requires OccursAt(r, TitlePart(t), k + 20 + |AnchorOpen| + |u| + 2)
    requires OccursAt(r, DatePart(d), k + 20 + |AnchorOpen| + |u| + 2 + |t| + 13)
    requires '<' !in t && IsIsoDate(d)
    ensures AnchorTail(r, k + 20 + |AnchorOpen|, k + 20 + |AnchorOpen| + |u|) == Some(Latest(u, t, d))
  {
    TitleEnd(r, k, u, t);
    DateSpanFound(r, k, u, t, d);
    CaptureAt(r, k, u, t, d);
    AnchorTailAt(r, k, u, t);
  }

  /** The title runs to the first `</a>`. */
  lemma TitleEnd(r: string, k: nat, u: string, t: string)
    requires OccursAt(r, TitlePart(t), k + 20 + |AnchorOpen| + |u| + 2) && '<' !in t
    ensures OccursAt(r, t, k + 20 + |AnchorOpen| + |u| + 2) && IndexOfFrom(r, AnchorClose, k + 20 + |AnchorOpen| + |u| + 2) == Some(k + 20 + |AnchorOpen| + |u| + 2 + |t|)
    ensures OccursAt(r, EntryGap, k + 20 + |AnchorOpen| + |u| + 2 + |t| + 4)
  {
    TitleLayout(r, k + 20 + |AnchorOpen| + |u| + 2, t);
    TitleFound(r, k + 20 + |AnchorOpen| + |u| + 2, t);
  }

  /** After `</a>`, the first date span is the entry's own. */
  lemma DateSpanFound(r: string, k: nat, u: string, t: string, d: string)
    requires OccursAt(r, EntryGap, k + 20 + |AnchorOpen| + |u| + 2 + |t| + 4) && OccursAt(r, DatePart(d), k + 20 + |AnchorOpen| + |u| + 2 + |t| + 13) && IsIsoDate(d)
    ensures FindDateSpan(r, k + 20 + |AnchorOpen| + |u| + 2 + |t| + |AnchorClose|) == Some(k + 20 + |AnchorOpen| + |u| + 2 + |t| + 13)
    ensures OccursAt(r, d, k + 20 + |AnchorOpen| + |u| + 2 + |t| + 13 + |MetaOpen|)
  {
    DateLayout(r, k + 20 + |AnchorOpen| + |u| + 2 + |t|, d);
    DateFound(r, k + 20 + |AnchorOpen| + |u| + 2 + |t|, d);
  }

  lemma CaptureAt(r: string, k: nat, u: string, t: string, d: string)
    requires OccursAt(r, u, k + 20 + |AnchorOpen|) && OccursAt(r, t, k + 20 + |AnchorOpen| + |u| + 2)
    requires OccursAt(r, d, k + 20 + |AnchorOpen| + |u| + 2 + |t| + 13 + |MetaOpen|) && |d| == 10
    ensures Capture(r, k + 20 + |AnchorOpen|, k + 20 + |AnchorOpen| + |u|, k + 20 + |AnchorOpen| + |u| + 2 + |t|, k + 20 + |AnchorOpen| + |u| + 2 + |t| + 13) == Latest(u, t, d)
  {
  }

  lemma AnchorTailAt(r: string, k: nat, u: string, t: string)
    requires IndexOfFrom(r, AnchorClose, k + 20 + |AnchorOpen| + |u| + 2) == Some(k + 20 + |AnchorOpen| + |u| + 2 + |t|)
    requires FindDateSpan(r, k + 20 + |AnchorOpen| + |u| + 2 + |t| + |AnchorClose|) == Some(k + 20 + |AnchorOpen| + |u| + 2 + |t| + 13)
    ensures AnchorTail(r, k + 20 + |AnchorOpen|, k + 20 + |AnchorOpen| + |u|) == Some(Capture(r, k + 20 + |AnchorOpen|, k + 20 + |AnchorOpen| + |u|, k + 20 + |AnchorOpen| + |u| + 2 + |t|, k + 20 + |AnchorOpen| + |u| + 2 + |t| + 13))
  {
  }

  /** The anchor found from `k`, its link `u`, and what follows it. */
  lemma Combine(r: string, k: nat, u: string, l: Latest)
    requires k + 20 + |AnchorOpen| + |u| <= |r|
    requires IndexOfFrom(r, AnchorOpen, k) == Some(k + 20)
    requires HrefEnd(r, k + 20 + |AnchorOpen|) == Some(k + 20 + |AnchorOpen| + |u|) && AnchorTail(r, k + 20 + |AnchorOpen|, k + 20 + |AnchorOpen| + |u|) == Some(l)
    ensures FindLatest(r, k) == Some(l)
  {
    AnchorAtFound(r, k, u, l);
    FindLatestAt(r, k, l);
  }

  lemma AnchorAtFound(r: string, k: nat, u: string, l: Latest)
    requires k + 20 + |AnchorOpen| + |u| <= |r|
    requires HrefEnd(r, k + 20 + |AnchorOpen|) == Some(k + 20 + |AnchorOpen| + |u|) && AnchorTail(r, k + 20 + |AnchorOpen|, k + 20 + |AnchorOpen| + |u|) == Some(l)
    ensures AnchorAt(r, k + 20) == Some(l)
  {
    match HrefEnd(r, k + 20 + |AnchorOpen|)
    case None => assert false;
    case Some(q0) =>
      assert q0 == k + 20 + |AnchorOpen| + |u|;
      assert AnchorAt(r, k + 20) == AnchorTail(r, k + 20 + |AnchorOpen|, q0);
  }

  lemma FindLatestAt(r: string, k: nat, l: Latest)
    requires IndexOfFrom(r, AnchorOpen, k) == Some(k + 20) && AnchorAt(r, k + 20) == Some(l)
    ensures FindLatest(r, k) == Some(l)
  {
  }

  lemma IsoDatePlain(date: string)
    requires IsIsoDate(date)
    ensures Plain(date)
  {
    forall i | 0 <= i < |date| ensures !Special(date[i]) {
      assert IsDigit(date[i]) || date[i] == '-';
    }
  }

  lemma LinkLayout(r: string, k: nat, u: string)
    requires OccursAt(r, LinkPart(u), k + 1)
    ensures OccursAt(r, EntryOpen, k + 1) && OccursAt(r, AnchorOpen, k + 20)
    ensures OccursAt(r, u, k + 20 + |AnchorOpen|) && OccursAt(r, "\">", k + 20 + |AnchorOpen| + |u|)
  {
    Split(r, EntryOpen + AnchorOpen + u, "\">", k + 1);
    Split(r, EntryOpen + AnchorOpen, u, k + 1);
    Split(r, EntryOpen, AnchorOpen, k + 1);
  }

  lemma TitleLayout(r: string, i: nat, t: string)
    requires OccursAt(r, TitlePart(t), i)
    ensures OccursAt(r, t, i) && OccursAt(r, AnchorClose, i + |t|) && OccursAt(r, EntryGap, i + |t| + 4)
  {
    Split(r, t + AnchorClose, EntryGap, i);
    Split(r, t, AnchorClose, i);
  }

  lemma DateLayout(r: string, e: nat, d: string)
    requires OccursAt(r, DatePart(d), e + 13)
    ensures OccursAt(r, MetaOpen, e + 13) && OccursAt(r, d, e + 13 + |MetaOpen|)
    ensures OccursAt(r, MetaClose, e + 13 + |MetaOpen| + |d|)
  {
    Split(r, MetaOpen + d + MetaClose, EntryClose, e + 13);
    Split(r, MetaOpen + d, MetaClose, e + 13);
    Split(r, MetaOpen, d, e + 13);
  }

  lemma AnchorFirst(r: string, k: nat)
    requires OccursAt(r, EntryOpen, k + 1) && OccursAt(r, AnchorOpen, k + 20)
    ensures IndexOfFrom(r, AnchorOpen, k) == Some(k + 20)
  {
    assert r[k + 1..k + 20] == EntryOpen;
    assert AnchorOpen[1] !in EntryOpen;
    NoCharNoOccurrence(r, AnchorOpen, 1, k, k + 19);
    OccursAtChar(r, AnchorOpen, k + 20, k + 20);
    OccursAtChar(r, AnchorOpen, k + 19, k + 20);
    IndexOfFromIs(r, AnchorOpen, k, k + 20);
  }

  lemma HrefFound(r: string, k: nat, u: string)
    requires OccursAt(r, u, k + 20 + |AnchorOpen|) && OccursAt(r, "\">", k + 20 + |AnchorOpen| + |u|)
    requires u != [] && '"' !in u
    ensures HrefEnd(r, k + 20 + |AnchorOpen|) == Some(k + 20 + |AnchorOpen| + |u|)
  {
    var hs := k + 20 + |AnchorOpen|;
    var q := hs + |u|;
    assert r[hs..q] == u;
    NoLeadNoOccurrence(r, "\"", hs, q);
    Split(r, "\"", ">", q);
    IndexOfFromIs(r, "\"", hs, q);
  }

  lemma TitleFound(r: string, ts: nat, t: string)
    requires OccursAt(r, t, ts) && OccursAt(r, AnchorClose, ts + |t|) && '<' !in t
    ensures IndexOfFrom(r, AnchorClose, ts) == Some(ts + |t|)
  {
    var e := ts + |t|;
    assert r[ts..e] == t;
    NoLeadNoOccurrence(r, AnchorClose, ts, e);
    IndexOfFromIs(r, AnchorClose, ts, e);
  }

  lemma DateFound(r: string, e: nat, date: string)
    requires OccursAt(r, EntryGap, e + 4) && OccursAt(r, MetaOpen, e + 13)
    requires OccursAt(r, date, e + 13 + |MetaOpen|) && OccursAt(r, MetaClose, e + 13 + |MetaOpen| + |date|)
    requires IsIsoDate(date)
    ensures FindDateSpan(r, e + |AnchorClose|) == Some(e + 13)
  {
    assert r[e + 4..e + 13] == EntryGap;
    assert MetaOpen[0] !in EntryGap;
    NoLeadNoOccurrence(r, MetaOpen, e + 4, e + 13);
    assert r[e + 13 + |MetaOpen|..e + 13 + |MetaOpen| + 10] == date;
    assert DateSpanAt(r, e + 13);
    assert e + |AnchorClose| == e + 4;
    FindDateSpanIs(r, e + 4, e + 13);
  }

  lemma OccursAtEnd(p: string, x: string)
    ensures OccursAt(p + x, x, |p|)
  {
    assert (p + x)[|p|..|p| + |x|] == x;
  }
}

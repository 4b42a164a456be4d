/** The orchestrator `main` of scripts/archive-moltbook.mjs: read the agent's recent
    posts (newest first), keep those after the checkpointed id, archive them oldest
    first (a page per post, an entry at the top of the homepage list, an item at
    the top of the feed), then refresh the latest section and the feed's build date
    and move the checkpoint on.

    The network and the clock are inputs: `recent` is the profile's `recentPosts`,
    `details` maps a post id to what fetching that post returns (an id that is not
    a key is a fetch that fails), and `Clock` holds the formatted times. The files
    are the fields of `Site`. */
module Archive {
  import opened Text
  import opened Escape
  import opened IndexMerge
  import opened LatestSection
  import opened FeedMerge
  import opened Entries

  /** An entry of `recentPosts`. A missing `created_at` is "". */
  datatype Summary = Summary(id: string, createdAt: string)

  /** A fetched post (`full.post || full`). A missing `content` or `created_at` is "". */
  datatype Post = Post(title: string, content: string, createdAt: string)

  /** The checkpoint file; `None` is a key the file does not have. */
  datatype Checkpoint = Checkpoint(lastArchivedPostId: Option<string>, lastArchivedAt: Option<string>,
                                   lastCheckAt: Option<string>)

  /** `new Date()` as `toISOString()` and `toUTCString()` give it, and the two
      formatters applied to a post's `created_at`. */
  datatype Clock = Clock(nowIso: string, nowUtc: string, isoOf: string -> string, utcOf: string -> string)

  /** What the run ended with: nothing to look at, nothing new, so many posts
      archived, or the fetch of that post failed (the script throws). */
  datatype Outcome = NoRecentPosts | NoNewPosts | Archived(count: nat) | FetchFailed(id: string)

  /** What `renderPostHtml` puts into the page template. */
  datatype Page = Page(title: string, body: string, created: string, moltUrl: string)

  /** Everything the loop builds for one post. */
  datatype Built = Built(filename: string, page: Page, entry: string, guid: string, item: string)

  /** `isoDate()`: today's date, the first ten characters of the ISO time. */
  function Today(clock: Clock): string {
    Take(clock.nowIso, DateLength)
  }

  /** The posts of `recent` up to, not including, the first one whose id is the
      checkpointed one: all of them when there is no checkpoint or it is not there. */
  function NewPosts(recent: seq<Summary>, last: Option<string>): (r: seq<Summary>)
    ensures r <= recent
    ensures forall i :: 0 <= i < |r| ==> Some(r[i].id) != last
    ensures |r| < |recent| ==> Some(recent[|r|].id) == last
  {
    if recent == [] || Some(recent[0].id) == last then []
    else [recent[0]] + NewPosts(recent[1..], last)
  }

  /** `NewPosts` is the only prefix that stops right at the checkpointed id: any
      prefix without that id that is either all of `recent` or followed by it is
      `NewPosts`. */
  lemma NewPostsUnique(recent: seq<Summary>, last: Option<string>, p: seq<Summary>)
    requires p <= recent && forall i :: 0 <= i < |p| ==> Some(p[i].id) != last
    requires |p| < |recent| ==> Some(recent[|p|].id) == last
    ensures p == NewPosts(recent, last)
  {
  }

  /** The posting history P5, P4, P3, P2, P1 (newest first) with P3 archived last
      time gives P5, P4. */
  lemma NewPostsExample()
    ensures var p := [Summary("5", ""), Summary("4", ""), Summary("3", ""), Summary("2", ""), Summary("1", "")];
      NewPosts(p, Some("3")) == p[..2]
  {
    var p := [Summary("5", ""), Summary("4", ""), Summary("3", ""), Summary("2", ""), Summary("1", "")];
    NewPostsUnique(p, Some("3"), p[..2]);
  }

  /** A checkpoint that names no post, or one no longer among the recent ones,
      makes every recent post new. */
  lemma NewPostsAllNew(recent: seq<Summary>, last: Option<string>)
    requires forall i :: 0 <= i < |recent| ==> Some(recent[i].id) != last
    ensures NewPosts(recent, last) == recent
  {
  }

  /** The diff loop: walk `recent` and stop at the checkpointed id. */
  method CollectNewPosts(recent: seq<Summary>, last: Option<string>) returns (newPosts: seq<Summary>)
    ensures newPosts == NewPosts(recent, last)
  {
    newPosts := [];
    var i := 0;
    while i < |recent|
      invariant 0 <= i <= |recent|
      invariant newPosts == recent[..i]
      invariant forall j :: 0 <= j < i ==> Some(recent[j].id) != last
    {
      if Some(recent[i].id) == last {
        break;
      }
      newPosts := newPosts + [recent[i]];
      i := i + 1;
    }
    NewPostsUnique(recent, last, newPosts);
  }

  /** `post.created_at || p.created_at`. */
  function CreatedAt(p: Summary, post: Post): string {
    if post.createdAt != "" then post.createdAt else p.createdAt
  }

  /** The date shown for the post. */
  function DateOf(p: Summary, post: Post, clock: Clock): string {
    PostDate(CreatedAt(p, post), Today(clock))
  }

  /** The strings built for post `p`, whose fetched form is `post`. */
  function BuildPost(p: Summary, post: Post, siteBase: string, clock: Clock): Built {
    var createdAt := CreatedAt(p, post);
    var date := DateOf(p, post, clock);
    var filename := Filename(date, post.title, p.id);
    var relUrl := RelUrl(filename);
    var created := if createdAt != "" then clock.isoOf(createdAt) else clock.nowIso;
    var page := Page(HtmlEscape(post.title), ContentHtml(post.content), created, MoltUrl(p.id));
    var guid := Guid(siteBase, relUrl);
    var pubDate := if createdAt != "" then clock.utcOf(createdAt) else clock.nowUtc;
    Built(filename, page, Entry(relUrl, post.title, date), guid, Item(post.title, guid, pubDate, post.content))
  }

  /** The per-post step of the loop, for the given site base and clock. */
  function PostBuilder(siteBase: string, clock: Clock): (Summary, Post) -> Built {
    (p, post) => BuildPost(p, post, siteBase, clock)
  }

  predicate AllFetched(posts: seq<Summary>, details: map<string, Post>) {
    forall i :: 0 <= i < |posts| ==> posts[i].id in details
  }

  /** The first post whose fetch fails, or `|posts|` when none does. */
  function FirstMissing(posts: seq<Summary>, details: map<string, Post>): (k: nat)
    ensures k <= |posts| && AllFetched(posts[..k], details)
    ensures k < |posts| ==> posts[k].id !in details
    ensures k == |posts| <==> AllFetched(posts, details)
  {
    if posts == [] then 0
    else if posts[0].id !in details then 0
    else
      var k := FirstMissing(posts[1..], details);
      assert posts[..k + 1] == [posts[0]] + posts[1..][..k];
      k + 1
  }

  /** What the loop builds for `posts`, in order. */
  function BuildAll(posts: seq<Summary>, details: map<string, Post>, build: (Summary, Post) -> Built): (r: seq<Built>)
    requires AllFetched(posts, details)
    ensures |r| == |posts|
    decreases |posts|
  {
    if posts == [] then []
    else
      var p := posts[|posts| - 1];
      assert AllFetched(posts[..|posts| - 1], details);
      BuildAll(posts[..|posts| - 1], details, build) + [build(p, details[p.id])]
  }

  function EntriesOf(bs: seq<Built>): seq<string> {
    seq(|bs|, i requires 0 <= i < |bs| => bs[i].entry)
  }

  function ItemsOf(bs: seq<Built>): seq<(string, string)> {
    seq(|bs|, i requires 0 <= i < |bs| => (bs[i].item, bs[i].guid))
  }

  /** The pages directory after writing the pages of `bs` in order. */
  function PagesOf(pages: map<string, Page>, bs: seq<Built>): map<string, Page>
    decreases |bs|
  {
    if bs == [] then pages
    else PagesOf(pages, bs[..|bs| - 1])[bs[|bs| - 1].filename := bs[|bs| - 1].page]
  }

  /** Every written page is in the directory with the content of its LAST write,
      a file no post names keeps what it had, and no other file appears. */
  lemma PagesOfWritten(pages: map<string, Page>, bs: seq<Built>)
    ensures forall i :: 0 <= i < |bs| ==> bs[i].filename in PagesOf(pages, bs)
    ensures forall i :: 0 <= i < |bs| && (forall j :: i < j < |bs| ==> bs[j].filename != bs[i].filename) ==>
                PagesOf(pages, bs)[bs[i].filename] == bs[i].page
    ensures forall f :: f in pages && (forall i :: 0 <= i < |bs| ==> bs[i].filename != f) ==>
                f in PagesOf(pages, bs) && PagesOf(pages, bs)[f] == pages[f]
    ensures forall f :: f in PagesOf(pages, bs) ==> f in pages || exists i :: 0 <= i < |bs| && bs[i].filename == f
  {
    PagesOfNew(pages, bs);
    PagesOfRest(pages, bs);
  }

  /** The pages written, each with its last write. */
  lemma {:induction false} PagesOfNew(pages: map<string, Page>, bs: seq<Built>)
    ensures forall i :: 0 <= i < |bs| ==> bs[i].filename in PagesOf(pages, bs)
    ensures forall i :: 0 <= i < |bs| && (forall j :: i < j < |bs| ==> bs[j].filename != bs[i].filename) ==>
                PagesOf(pages, bs)[bs[i].filename] == bs[i].page
    decreases |bs|
  {
    if bs != [] {
      var n := |bs| - 1;
      var front := bs[..n];
      PagesOfNew(pages, front);
      assert bs == front + [bs[n]];
      PagesSnoc(pages, front, bs[n]);
      assert forall i :: 0 <= i < n ==> front[i] == bs[i];
    }
  }

  /** The files no post names, untouched, and nothing else. */
  lemma {:induction false} PagesOfRest(pages: map<string, Page>, bs: seq<Built>)
    ensures forall f :: f in pages && (forall i :: 0 <= i < |bs| ==> bs[i].filename != f) ==>
                f in PagesOf(pages, bs) && PagesOf(pages, bs)[f] == pages[f]
    ensures forall f :: f in PagesOf(pages, bs) ==> f in pages || exists i :: 0 <= i < |bs| && bs[i].filename == f
    decreases |bs|
  {
    if bs != [] {
      var n := |bs| - 1;
      var front := bs[..n];
      PagesOfRest(pages, front);
      assert bs == front + [bs[n]];
      PagesSnoc(pages, front, bs[n]);
      assert forall i :: 0 <= i < n ==> front[i] == bs[i];
    }
  }

  /** The checkpoint after archiving the posts `done`, oldest first. */
  function Advanced(state: Checkpoint, done: seq<Summary>, now: string): Checkpoint {
    if done == [] then state
    else state.(lastArchivedPostId := Some(done[|done| - 1].id), lastArchivedAt := Some(now))
  }

  /** The checkpoint names the last post archived and the run time; with no posts
      it is unchanged, and `lastCheckAt` is never touched. */
  lemma AdvancedIs(state: Checkpoint, done: seq<Summary>, now: string)
    ensures Advanced(state, done, now).lastCheckAt == state.lastCheckAt
    ensures done == [] ==> Advanced(state, done, now) == state
    ensures done != [] ==> Advanced(state, done, now).lastArchivedPostId == Some(done[|done| - 1].id)
    ensures done != [] ==> Advanced(state, done, now).lastArchivedAt == Some(now)
  {
  }

  /** The files the script reads and writes. */
  class Site {
    var index: string
    var feed: string
    var pages: map<string, Page>
    var state: Checkpoint

    constructor(index: string, feed: string, pages: map<string, Page>, state: Checkpoint)
      ensures this.index == index && this.feed == feed && this.pages == pages && this.state == state
    {
      this.index := index;
      this.feed := feed;
      this.pages := pages;
      this.state := state;
    }

    /** `main`. With no recent posts nothing is written. With nothing new only the
        check time moves on, and the latest section and the build date are
        refreshed. Otherwise the posts after the checkpoint are archived oldest
        first; a failed fetch stops the run with the pages written so far and the
        homepage, the feed and the checkpoint as they were. */
    method Run(recent: seq<Summary>, details: map<string, Post>, siteBase: string, clock: Clock)
      returns (outcome: Outcome)
      modifies this
      ensures recent == [] ==>
        outcome == NoRecentPosts && index == old(index) && feed == old(feed) && pages == old(pages)
        && state == old(state)
      ensures recent != [] && NewPosts(recent, old(state).lastArchivedPostId) == [] ==>
        && outcome == NoNewPosts && pages == old(pages)
        && state == old(state).(lastCheckAt := Some(clock.nowIso))
        && index == SetLatestSection(old(index)) && feed == SetLastBuildDate(old(feed), clock.nowUtc)
      ensures var posts := Reverse(NewPosts(recent, old(state).lastArchivedPostId));
        var k := FirstMissing(posts, details);
        posts != [] && k < |posts| ==>
        && outcome == FetchFailed(posts[k].id)
        && pages == PagesOf(old(pages), BuildAll(posts[..k], details, PostBuilder(siteBase, clock)))
        && index == old(index) && feed == old(feed) && state == old(state)
      ensures var posts := Reverse(NewPosts(recent, old(state).lastArchivedPostId));
        posts != [] && AllFetched(posts, details) ==>
        var bs := BuildAll(posts, details, PostBuilder(siteBase, clock));
        && outcome == Archived(|posts|)
        && pages == PagesOf(old(pages), bs)
        && index == SetLatestSection(UpsertAll(old(index), EntriesOf(bs)))
        && feed == SetLastBuildDate(UpdateAll(old(feed), ItemsOf(bs)), clock.nowUtc)
        && state == old(state).(lastArchivedPostId := Some(recent[0].id), lastArchivedAt := Some(clock.nowIso))
    {
      outcome := RunWith(recent, details, PostBuilder(siteBase, clock), clock);
    }

    /** `Run` with the per-post step as a parameter: the control flow does not
        depend on how the strings of a post are built. */
    method RunWith(recent: seq<Summary>, details: map<string, Post>, build: (Summary, Post) -> Built, clock: Clock)
      returns (outcome: Outcome)
      modifies this
      ensures recent == [] ==>
        outcome == NoRecentPosts && index == old(index) && feed == old(feed) && pages == old(pages)
        && state == old(state)
      ensures recent != [] && NewPosts(recent, old(state).lastArchivedPostId) == [] ==>
        && outcome == NoNewPosts && pages == old(pages)
        && state == old(state).(lastCheckAt := Some(clock.nowIso))
        && index == SetLatestSection(old(index)) && feed == SetLastBuildDate(old(feed), clock.nowUtc)
      ensures var posts := Reverse(NewPosts(recent, old(state).lastArchivedPostId));
        var k := FirstMissing(posts, details);
        posts != [] && k < |posts| ==>
        && outcome == FetchFailed(posts[k].id)
        && pages == PagesOf(old(pages), BuildAll(posts[..k], details, build))
        && index == old(index) && feed == old(feed) && state == old(state)
      ensures var posts := Reverse(NewPosts(recent, old(state).lastArchivedPostId));
        posts != [] && AllFetched(posts, details) ==>
        var bs := BuildAll(posts, details, build);
        && outcome == Archived(|posts|)
        && pages == PagesOf(old(pages), bs)
        && index == SetLatestSection(UpsertAll(old(index), EntriesOf(bs)))
        && feed == SetLastBuildDate(UpdateAll(old(feed), ItemsOf(bs)), clock.nowUtc)
        && state == old(state).(lastArchivedPostId := Some(recent[0].id), lastArchivedAt := Some(clock.nowIso))
    {
      if recent == [] {
        return NoRecentPosts;
      }
      var newPosts := CollectNewPosts(recent, state.lastArchivedPostId);
      if newPosts == [] {
        Idle(clock);
        return NoNewPosts;
      }
      NewestIsLast(recent, state.lastArchivedPostId);
      outcome := ArchiveNew(Reverse(newPosts), details, build, clock);
    }

    /** Nothing new: record the check time, refresh the latest section and the
        build date. */
    method Idle(clock: Clock)
      modifies this`index, this`feed, this`state
      ensures state == old(state).(lastCheckAt := Some(clock.nowIso))
      ensures index == SetLatestSection(old(index)) && feed == SetLastBuildDate(old(feed), clock.nowUtc)
    {
      state := state.(lastCheckAt := Some(clock.nowIso));
      index := SetLatestSection(index);
      feed := SetLastBuildDate(feed, clock.nowUtc);
    }

    /** Archive `posts`, oldest first, then write the homepage, the feed and the
        checkpoint, unless a fetch fails first. */
    method ArchiveNew(posts: seq<Summary>, details: map<string, Post>, build: (Summary, Post) -> Built, clock: Clock)
      returns (outcome: Outcome)
      requires posts != []
      modifies this
      ensures var k := FirstMissing(posts, details);
        k < |posts| ==>
        && outcome == FetchFailed(posts[k].id)
        && pages == PagesOf(old(pages), BuildAll(posts[..k], details, build))
        && index == old(index) && feed == old(feed) && state == old(state)
      ensures AllFetched(posts, details) ==>
        var bs := BuildAll(posts, details, build);
        && outcome == Archived(|posts|)
        && pages == PagesOf(old(pages), bs)
        && index == SetLatestSection(UpsertAll(old(index), EntriesOf(bs)))
        && feed == SetLastBuildDate(UpdateAll(old(feed), ItemsOf(bs)), clock.nowUtc)
        && state == old(state).(lastArchivedPostId := Some(posts[|posts| - 1].id), lastArchivedAt := Some(clock.nowIso))
    {
      var failed, idx, fd, st := ArchiveEach(posts, details, build, clock.nowIso);
      if failed.Some? {
        return FetchFailed(failed.value);
      }
      Publish(idx, fd, st, clock.nowUtc);
      return Archived(|posts|);
    }

    /** The writes after the loop: the homepage with its latest section refreshed,
        the feed with its build date, and the checkpoint. */
    method Publish(idx: string, fd: string, st: Checkpoint, nowUtc: string)
      modifies this`index, this`feed, this`state
      ensures index == SetLatestSection(idx) && feed == SetLastBuildDate(fd, nowUtc) && state == st
    {
      index := SetLatestSection(idx);
      feed := SetLastBuildDate(fd, nowUtc);
      state := st;
    }

    /** The loop over the new posts, oldest first: fetch the post, write its page,
        and carry the homepage, the feed and the checkpoint forward. The pages are
        written as the loop goes; the rest is only returned. */
    method ArchiveEach(posts: seq<Summary>, details: map<string, Post>, build: (Summary, Post) -> Built, now: string)
      returns (failed: Option<string>, idx: string, fd: string, st: Checkpoint)
      modifies this`pages
      ensures failed.None? <==> AllFetched(posts, details)
      ensures failed.Some? ==>
        var k := FirstMissing(posts, details);
        k < |posts| && failed == Some(posts[k].id) && pages == PagesOf(old(pages), BuildAll(posts[..k], details, build))
      ensures failed.None? ==>
        && AllFetched(posts, details)
        && pages == PagesOf(old(pages), BuildAll(posts, details, build))
        && idx == UpsertAll(index, EntriesOf(BuildAll(posts, details, build)))
        && fd == UpdateAll(feed, ItemsOf(BuildAll(posts, details, build)))
        && st == Advanced(state, posts, now)
    {
      idx, fd, st := index, feed, state;
      var i := 0;
      while i < |posts|
        invariant 0 <= i <= |posts| && AllFetched(posts[..i], details)
        invariant pages == PagesOf(old(pages), BuildAll(posts[..i], details, build))
        invariant idx == UpsertAll(index, EntriesOf(BuildAll(posts[..i], details, build)))
        invariant fd == UpdateAll(feed, ItemsOf(BuildAll(posts[..i], details, build)))
        invariant st == Advanced(state, posts[..i], now)
      {
        var p := posts[i];
        if p.id !in details {
          FirstMissingIs(posts, details, i);
          return Some(p.id), idx, fd, st;
        }
        var b := build(p, details[p.id]);
        ArchiveStep(posts, details, build, i, old(pages), index, feed, pages, idx, fd);
        AdvancedSnoc(state, posts, i, now);
        pages := pages[b.filename := b.page];
        idx := UpsertIndex(idx, b.entry);
        fd := UpdateFeed(fd, b.item, b.guid);
        st := st.(lastArchivedPostId := Some(p.id), lastArchivedAt := Some(now));
        i := i + 1;
      }
      assert posts[..i] == posts;
      FirstMissingAll(posts, details);
      return None, idx, fd, st;
    }
  }

  /** A post that fails after all before it were fetched is `FirstMissing`. */
  lemma FirstMissingIs(posts: seq<Summary>, details: map<string, Post>, i: nat)
    requires i < |posts| && AllFetched(posts[..i], details) && posts[i].id !in details
    ensures FirstMissing(posts, details) == i
  {
  }

  /** One turn of the processing loop: the page write, the upsert and the feed
      update of post `i` carry the three outputs from the first `i` posts to the
      first `i + 1`. */
  lemma ArchiveStep(posts: seq<Summary>, details: map<string, Post>, build: (Summary, Post) -> Built, i: nat,
                    pages0: map<string, Page>, index0: string, feed0: string,
                    pages: map<string, Page>, idx: string, fd: string)
    requires i < |posts| && AllFetched(posts[..i], details) && posts[i].id in details
    requires pages == PagesOf(pages0, BuildAll(posts[..i], details, build))
    requires idx == UpsertAll(index0, EntriesOf(BuildAll(posts[..i], details, build)))
    requires fd == UpdateAll(feed0, ItemsOf(BuildAll(posts[..i], details, build)))
    ensures AllFetched(posts[..i + 1], details)
    ensures var b := build(posts[i], details[posts[i].id]);
      && pages[b.filename := b.page] == PagesOf(pages0, BuildAll(posts[..i + 1], details, build))
      && UpsertIndex(idx, b.entry) == UpsertAll(index0, EntriesOf(BuildAll(posts[..i + 1], details, build)))
      && UpdateFeed(fd, b.item, b.guid) == UpdateAll(feed0, ItemsOf(BuildAll(posts[..i + 1], details, build)))
  {
    var b := build(posts[i], details[posts[i].id]);
    var before := BuildAll(posts[..i], details, build);
    BuildAllSnoc(posts, details, build, i);
    EntriesSnoc(before, b);
    ItemsSnoc(before, b);
    PagesSnoc(pages0, before, b);
    UpsertAllSnoc(index0, EntriesOf(before), b.entry);
    UpdateAllSnoc(feed0, ItemsOf(before), (b.item, b.guid));
  }

  /** Archiving post `i` moves the checkpoint to it. */
  lemma AdvancedSnoc(state: Checkpoint, posts: seq<Summary>, i: nat, now: string)
    requires i < |posts|
    ensures Advanced(state, posts[..i + 1], now)
         == Advanced(state, posts[..i], now).(lastArchivedPostId := Some(posts[i].id), lastArchivedAt := Some(now))
  {
    assert posts[..i + 1][i] == posts[i];
  }

  /** One more fetched post: the loop has built one more thing. */
  lemma BuildAllSnoc(posts: seq<Summary>, details: map<string, Post>, build: (Summary, Post) -> Built, i: nat)
    requires i < |posts| && AllFetched(posts[..i], details) && posts[i].id in details
    ensures AllFetched(posts[..i + 1], details)
    ensures BuildAll(posts[..i + 1], details, build) == BuildAll(posts[..i], details, build) + [build(posts[i], details[posts[i].id])]
  {
    assert posts[..i + 1][..i] == posts[..i];
  }

  lemma EntriesSnoc(bs: seq<Built>, b: Built)
    ensures EntriesOf(bs + [b]) == EntriesOf(bs) + [b.entry]
  {
  }

  lemma ItemsSnoc(bs: seq<Built>, b: Built)
    ensures ItemsOf(bs + [b]) == ItemsOf(bs) + [(b.item, b.guid)]
  {
  }

  lemma PagesSnoc(pages: map<string, Page>, bs: seq<Built>, b: Built)
    ensures PagesOf(pages, bs + [b]) == PagesOf(pages, bs)[b.filename := b.page]
  {
    assert (bs + [b])[..|bs|] == bs;
  }

  /** The loop's index step: upserting one more entry after the others. */
  lemma {:induction false} UpsertAllSnoc(indexHtml: string, entries: seq<string>, e: string)
    ensures UpsertAll(indexHtml, entries + [e]) == UpsertIndex(UpsertAll(indexHtml, entries), e)
    decreases |entries|
  {
    if entries == [] {
      assert [] + [e] == [e];
    } else {
      assert (entries + [e])[1..] == entries[1..] + [e];
      UpsertAllSnoc(UpsertIndex(indexHtml, entries[0]), entries[1..], e);
    }
  }

  /** The loop's feed step: one more item after the others. */
  lemma {:induction false} UpdateAllSnoc(feed: string, items: seq<(string, string)>, x: (string, string))
    ensures UpdateAll(feed, items + [x]) == UpdateFeed(UpdateAll(feed, items), x.0, x.1)
    decreases |items|
  {
    if items == [] {
      assert [] + [x] == [x];
    } else {
      assert (items + [x])[1..] == items[1..] + [x];
      UpdateAllSnoc(UpdateFeed(feed, items[0].0, items[0].1), items[1..], x);
    }
  }

  lemma FirstMissingAll(posts: seq<Summary>, details: map<string, Post>)
    requires AllFetched(posts, details)
    ensures FirstMissing(posts, details) == |posts|
  {
  }

  /** The last of the posts archived (oldest first) is the newest recent post. */
  lemma NewestIsLast(recent: seq<Summary>, last: Option<string>)
    requires NewPosts(recent, last) != []
    ensures var posts := Reverse(NewPosts(recent, last));
      posts[|posts| - 1].id == recent[0].id
  {
  }

  lemma ReverseFetched(posts: seq<Summary>, details: map<string, Post>)
    requires AllFetched(posts, details)
    ensures AllFetched(Reverse(posts), details)
  {
  }

  /** Building the posts in the opposite order builds the same things in the
      opposite order. */
  lemma {:induction false} BuildAllReverse(posts: seq<Summary>, details: map<string, Post>, build: (Summary, Post) -> Built)
    requires AllFetched(posts, details)
    ensures AllFetched(Reverse(posts), details)
    ensures BuildAll(Reverse(posts), details, build) == Reverse(BuildAll(posts, details, build))
  {
    ReverseFetched(posts, details);
    var a := BuildAll(Reverse(posts), details, build);
    var b := Reverse(BuildAll(posts, details, build));
    forall i | 0 <= i < |a|
      ensures a[i] == b[i]
    {
      BuildAllAt(Reverse(posts), details, build, i);
      BuildAllAt(posts, details, build, |posts| - 1 - i);
    }
  }

  /** Element `i` of `BuildAll` is what `build` makes of post `i`. */
  lemma {:induction false} BuildAllAt(posts: seq<Summary>, details: map<string, Post>, build: (Summary, Post) -> Built, i: nat)
    requires AllFetched(posts, details) && i < |posts|
    ensures BuildAll(posts, details, build)[i] == build(posts[i], details[posts[i].id])
    decreases |posts|
  {
    var n := |posts| - 1;
    if i < n {
      assert AllFetched(posts[..n], details);
      BuildAllAt(posts[..n], details, build, i);
    }
  }

  lemma EntriesReverse(bs: seq<Built>)
    ensures EntriesOf(Reverse(bs)) == Reverse(EntriesOf(bs))
  {
  }

  lemma ItemsReverse(bs: seq<Built>)
    ensures ItemsOf(Reverse(bs)) == Reverse(ItemsOf(bs))
  {
  }

  /** The homepage after the loop: the new entries sit right below the post-list
      marker newest first, in the order of `recent`, with the rest of the page
      untouched. `posts` is the loop's oldest-first order. */
  lemma IndexNewestFirst(index: string, posts: seq<Summary>, details: map<string, Post>, build: (Summary, Post) -> Built)
    requires AllFetched(posts, details)
    requires InsertPoint(index).Some? && AllFresh(index, EntriesOf(BuildAll(posts, details, build)))
    ensures AllFetched(Reverse(posts), details)
    ensures var k := InsertPoint(index).value;
      UpsertAll(index, EntriesOf(BuildAll(posts, details, build)))
      == index[..k] + Lines(EntriesOf(BuildAll(Reverse(posts), details, build))) + index[k..]
  {
    var bs := BuildAll(posts, details, build);
    UpsertAllStacks(index, EntriesOf(bs));
    BuildAllReverse(posts, details, build);
    EntriesReverse(bs);
  }

  /** The feed after the loop, when it already held an item: the new items come
      first, newest first, in front of the old ones; their indents all pile up in
      front of the newest. */
  lemma FeedNewestFirst(feed: string, posts: seq<Summary>, details: map<string, Post>, siteBase: string, clock: Clock)
    requires AllFetched(posts, details)
    requires IndexOf(feed, ItemOpen).Some?
    requires AllNewGuids(feed, ItemsOf(BuildAll(posts, details, PostBuilder(siteBase, clock))))
    ensures AllFetched(Reverse(posts), details)
    ensures var f := IndexOf(feed, ItemOpen).value;
      var build := PostBuilder(siteBase, clock);
      UpdateAll(feed, ItemsOf(BuildAll(posts, details, build)))
      == feed[..f] + Indents(|posts|) + Chain(ItemsOf(BuildAll(Reverse(posts), details, build))) + feed[f..]
  {
    var build := PostBuilder(siteBase, clock);
    var bs := BuildAll(posts, details, build);
    var items := ItemsOf(bs);
    forall i | 0 <= i < |items|
      ensures IsIndentedItem(items[i].0)
    {
      BuiltItemIndented(posts, details, siteBase, clock, i);
    }
    UpdateAllStacks(feed, items);
    BuildAllReverse(posts, details, build);
    ItemsReverse(bs);
  }

  lemma BuiltItemIndented(posts: seq<Summary>, details: map<string, Post>, siteBase: string, clock: Clock, i: nat)
    requires AllFetched(posts, details) && i < |posts|
    ensures IsIndentedItem(BuildAll(posts, details, PostBuilder(siteBase, clock))[i].item)
  {
    var p := posts[i];
    var post := details[p.id];
    BuildAllAt(posts, details, PostBuilder(siteBase, clock), i);
    var b := BuildPost(p, post, siteBase, clock);
    ItemIndented(post.title, b.guid, if CreatedAt(p, post) != "" then clock.utcOf(CreatedAt(p, post)) else clock.nowUtc,
                 post.content);
  }

  lemma {:induction false} UpsertAllKeepsInsertPoint(indexHtml: string, entries: seq<string>)
    requires InsertPoint(indexHtml).Some?
    ensures InsertPoint(UpsertAll(indexHtml, entries)) == InsertPoint(indexHtml)
    decreases |entries|
  {
    if entries != [] {
      UpsertKeepsInsertPoint(indexHtml, entries[0]);
      UpsertAllKeepsInsertPoint(UpsertIndex(indexHtml, entries[0]), entries[1..]);
    }
  }

  /** When no upsert of a run hits the dedup check, the last one does not either. */
  lemma {:induction false} AllFreshLast(indexHtml: string, entries: seq<string>, e: string)
    requires AllFresh(indexHtml, entries + [e])
    ensures !IsListed(UpsertAll(indexHtml, entries), e)
    decreases |entries|
  {
    if entries == [] {
      assert entries + [e] == [e];
    } else {
      var t := AllFreshCons(indexHtml, entries, e);
      AllFreshLast(t, entries[1..], e);
    }
  }

  /** The first step of a fresh run, and what is left of it. */
  lemma AllFreshCons(indexHtml: string, entries: seq<string>, e: string) returns (t: string)
    requires entries != [] && AllFresh(indexHtml, entries + [e])
    ensures AllFresh(t, entries[1..] + [e]) && UpsertAll(indexHtml, entries) == UpsertAll(t, entries[1..])
  {
    var x := entries + [e];
    assert x[0] == entries[0] && x[1..] == entries[1..] + [e];
    t := UpsertIndex(indexHtml, entries[0]);
    AllFreshTail(indexHtml, x, t);
  }

  lemma AllFreshTail(indexHtml: string, entries: seq<string>, t: string)
    requires entries != [] && AllFresh(indexHtml, entries) && t == UpsertIndex(indexHtml, entries[0])
    ensures AllFresh(t, entries[1..])
  {
  }

  /** The newest post's entry is not listed yet when its turn comes: the page the
      older posts' upserts leave does not carry its link. */
  predicate NewestFresh(index: string, posts: seq<Summary>, details: map<string, Post>, build: (Summary, Post) -> Built)
    requires AllFetched(posts, details) && posts != []
  {
    var n := |posts| - 1;
    assert AllFetched(posts[..n], details);
    !IsListed(UpsertAll(index, EntriesOf(BuildAll(posts[..n], details, build))), build(posts[n], details[posts[n].id]).entry)
  }

  /** After the loop the latest section's pattern finds the newest post: its link,
      its title as the page shows it, and its date. */
  lemma LatestShowsNewest(index: string, posts: seq<Summary>, details: map<string, Post>, siteBase: string, clock: Clock)
    requires AllFetched(posts, details) && posts != []
    requires InsertPoint(index).Some?
    requires NewestFresh(index, posts, details, PostBuilder(siteBase, clock))
    requires var p := posts[|posts| - 1]; Plain(p.id) && IsIsoDate(DateOf(p, details[p.id], clock))
    ensures var p := posts[|posts| - 1];
      var b := BuildPost(p, details[p.id], siteBase, clock);
      FirstEntry(UpsertAll(index, EntriesOf(BuildAll(posts, details, PostBuilder(siteBase, clock)))))
      == Some(Latest(RelUrl(b.filename), b.page.title, DateOf(p, details[p.id], clock)))
  {
    var build := PostBuilder(siteBase, clock);
    LastUpsert(index, posts, details, build);
    var n := |posts| - 1;
    var p := posts[n];
    var post := details[p.id];
    var b := build(p, post);
    BuiltEntry(p, post, siteBase, clock);
    var s := UpsertAll(index, EntriesOf(BuildAll(posts[..n], details, build)));
    LatestAfterUpsert(s, RelUrl(b.filename), post.title, DateOf(p, post, clock));
  }

  /** The newest post's entry is the last upsert of the run, and it goes into a page
      that still has its post list. */
  lemma LastUpsert(index: string, posts: seq<Summary>, details: map<string, Post>, build: (Summary, Post) -> Built)
    requires AllFetched(posts, details) && posts != []
    requires InsertPoint(index).Some?
    ensures AllFetched(posts[..|posts| - 1], details)
    ensures var n := |posts| - 1;
      var e := build(posts[n], details[posts[n].id]).entry;
      var s := UpsertAll(index, EntriesOf(BuildAll(posts[..n], details, build)));
      InsertPoint(s).Some? && UpsertAll(index, EntriesOf(BuildAll(posts, details, build))) == UpsertIndex(s, e)
  {
    var n := |posts| - 1;
    var p := posts[n];
    var b := build(p, details[p.id]);
    assert AllFetched(posts[..n], details);
    var before := BuildAll(posts[..n], details, build);
    assert posts[..n + 1] == posts;
    BuildAllSnoc(posts, details, build, n);
    EntriesSnoc(before, b);
    UpsertAllSnoc(index, EntriesOf(before), b.entry);
    UpsertAllKeepsInsertPoint(index, EntriesOf(before));
  }

  /** A run in which no upsert hits the dedup check has a fresh newest post. */
  lemma FreshRunNewestFresh(index: string, posts: seq<Summary>, details: map<string, Post>, build: (Summary, Post) -> Built)
    requires AllFetched(posts, details) && posts != []
    requires AllFresh(index, EntriesOf(BuildAll(posts, details, build)))
    ensures NewestFresh(index, posts, details, build)
  {
    var n := |posts| - 1;
    var b := build(posts[n], details[posts[n].id]);
    assert AllFetched(posts[..n], details);
    var before := BuildAll(posts[..n], details, build);
    assert posts[..n + 1] == posts;
    BuildAllSnoc(posts, details, build, n);
    EntriesSnoc(before, b);
    AllFreshLast(index, EntriesOf(before), b.entry);
  }

  /** The entry built for a post is the `<li>` for its link, its title and its date,
      and that link is one the dedup and the latest pattern read back whole. */
  lemma BuiltEntry(p: Summary, post: Post, siteBase: string, clock: Clock)
    requires Plain(p.id) && IsIsoDate(DateOf(p, post, clock))
    ensures var b := BuildPost(p, post, siteBase, clock);
      var u := RelUrl(b.filename);
      && b.entry == Entry(u, post.title, DateOf(p, post, clock)) && b.page.title == HtmlEscape(post.title)
      && u != [] && '"' !in u
  {
    var date := DateOf(p, post, clock);
    IsoDatePlain(date);
    RelUrlShape(date, post.title, p.id);
  }
}

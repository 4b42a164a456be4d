# Moltwire archiver, modelled in Dafny

Moltwire is a static site that mirrors the posts of one Moltbook agent. Its
archiver, `scripts/archive-moltbook.mjs`, runs on a schedule and does the following:

- It reads the agent's recent posts, newest first.
- It keeps the posts published after the checkpointed post id.
- It archives those oldest first. Each post gets its own HTML page, an `<li>` at
  the top of the homepage's `<ul class="postlist">`, and an `<item>` at the top
  of the RSS feed.
- It then refreshes two things: the "latest dispatch" block between the
  `<!-- LATEST_START -->` and `<!-- LATEST_END -->` comments, and the feed's
  `<lastBuildDate>`.
- Finally it moves the checkpoint on.

This project models that core. The modules follow the script's helpers:

| file | module | models |
|---|---|---|
| `text.dfy` | `Text` | `indexOf`, `includes`, `slice`, `replaceAll` and first-match `replace` on strings |
| `escape.dfy` | `Escape` | `htmlEscape`, with a per-character reference definition |
| `slug.dfy` | `Slug` | `toSlug` |
| `index_merge.dfy` | `IndexMerge` | `upsertIndex` |
| `latest.dfy` | `LatestSection` | `setLatestSection`, including the backtracking of its lazy regex |
| `feed_merge.dfy` | `FeedMerge` | `updateFeed` and `setLastBuildDate` |
| `entries.dfy` | `Entries` | the date, file name, relative link, guid, `<li>` entry and feed `<item>` that `main` builds for each post |
| `archive.dfy` | `Archive` | `main`: the files are fields of the class `Site`, and `Site.Run` is the run |

Inside `Archive`:

- The diff loop is the method `CollectNewPosts`.
- The processing loop is `Site.ArchiveEach`.
- The no-new-posts branch is `Site.Idle`.
- The run is specified against `NewPosts`, `BuildAll`, `UpsertAll`, `UpdateAll`
  and `PagesOf`, which are pure functions.

Three facts about these pure functions are proved as lemmas:

- the index and the feed end up newest first;
- the latest block shows the newest post;
- the new posts are exactly the prefix before the checkpointed id.

Two behaviours of the script that the model keeps:

- When there are new posts, `main` does not touch `lastCheckAt` (lines 242-243
  set only `lastArchivedPostId` and `lastArchivedAt`). `Site.Run` says so.
- The feed's dedup is not idempotent for every post. It looks up the raw guid,
  but the item carries the escaped guid. `Entries.EscapedGuidAddedTwice` shows a
  post that is added twice.

## Model

| member | source | states |
|---|---|---|
| Escape.HtmlEscapeSafe | scripts/archive-moltbook.mjs:36-43 | The escaped text has no `<`, `>`, `"` or `'`, and every `&` in it starts one of the five entities. |
| Escape.HtmlEscape | scripts/archive-moltbook.mjs:36-43 | The five `replaceAll` passes, `&` first. It has no contract of its own. `HtmlEscapeIsPerChar`, `HtmlEscapeSafe`, `HtmlEscapeIdentity` and `EscapeEachLength` state what it computes. |
| Escape.HtmlEscapeIsPerChar | scripts/archive-moltbook.mjs:37-42 | The five `replaceAll` passes, `&` first, equal escaping one character at a time. No entity is escaped twice. |
| Escape.HtmlEscapeIdentity | scripts/archive-moltbook.mjs:36-43 | Escaping leaves a string unchanged if and only if it holds none of the five special characters. |
| Escape.EscapeEachLength | scripts/archive-moltbook.mjs:36-43 | Escaping never shortens a string. The length stays the same only when no character is special. |
| Slug.ToSlug | scripts/archive-moltbook.mjs:45-51 | The slug is never empty, has at most 60 characters, uses only `[a-z0-9-]` and does not start with `-`. |
| Slug.FallbackIff | scripts/archive-moltbook.mjs:46-50 | The `'dispatch'` fallback is taken if and only if no character of the title, lower-cased, is in `[a-z0-9]`. |
| Slug.CollapseRuns | scripts/archive-moltbook.mjs:48 | The result uses only `[a-z0-9-]` and never has two hyphens in a row. It starts with the input's first character when that is a letter or digit. |
| Slug.TrimLeft | scripts/archive-moltbook.mjs:49 | `^-+`: the result is a suffix of the input, everything dropped is a hyphen, and the result does not start with one. It is empty exactly when the input is all hyphens. |
| Slug.TrimRight | scripts/archive-moltbook.mjs:49 | `-+$`: the result is a prefix of the input, everything dropped is a hyphen, and the result does not end with one. It is empty exactly when the input is all hyphens. |
| Slug.CollapseRunsSlugChar | scripts/archive-moltbook.mjs:48 | Collapsing each run outside `[a-z0-9]` into one `-` keeps a letter or digit if and only if the input has one. |
| Slug.SymbolOnlyTitle | scripts/archive-moltbook.mjs:50 | A title made only of symbols, or an empty one, gets `dispatch`. |
| Slug.SlugExample | scripts/archive-moltbook.mjs:45-51 | `"Hello, World! 2024"` becomes `"hello-world-2024"`. |
| IndexMerge.ExtractHref | scripts/archive-moltbook.mjs:106 | An href is found if and only if the entry contains `href="`. It starts right after the first `href="` and holds no `"` and no `href="`. It stops at the end of the entry, at a `"` or at the next `href="`. |
| IndexMerge.Before | scripts/archive-moltbook.mjs:106 | `split(p)[0]`: a prefix of the input with no `p` starting inside it. It is the whole input, or it is followed by `p`. |
| IndexMerge.IsListed | scripts/archive-moltbook.mjs:106-107 | The dedup test: the entry has a non-empty href, and `href="<href>"` occurs in the page. It has no contract. `UpsertIndexUnchangedIff` says the page is unchanged exactly when it holds. |
| IndexMerge.InsertPoint | scripts/archive-moltbook.mjs:96-103 | There is an insert point if and only if the page holds `<ul class="postlist">`. It is the end of the first marker: there is no earlier one. |
| IndexMerge.UpsertIndex | scripts/archive-moltbook.mjs:94-110 | Without the marker the entry is appended on its own line. A listed entry leaves the page unchanged. Otherwise the page is spliced right after the marker. |
| IndexMerge.UpsertAll | scripts/archive-moltbook.mjs:211-232 | The homepage after the loop's upserts, in order. It has no contract. `UpsertAllStacks` and `Archive.UpsertAllSnoc` state its shape. |
| IndexMerge.UpsertIndexUnchangedIff | scripts/archive-moltbook.mjs:107 | With the marker, the page is unchanged if and only if the entry's href is already on it. |
| IndexMerge.UpsertKeepsInsertPoint | scripts/archive-moltbook.mjs:103-109 | An upsert does not move the first marker. |
| IndexMerge.UpsertIndexIdempotent | scripts/archive-moltbook.mjs:94-110 | With the marker, upserting an entry that carries `href="<its href>"` a second time changes nothing. |
| IndexMerge.UpsertIndexNoMarkerAppendsTwice | scripts/archive-moltbook.mjs:98-101 | Without the marker there is no dedup. A second upsert appends the entry again. |
| IndexMerge.LinesAppend | scripts/archive-moltbook.mjs:109 | Adding one entry to the block of entry lines puts a newline and the entry at its end. |
| IndexMerge.UpsertAllStacks | scripts/archive-moltbook.mjs:211-232 | Upserting fresh entries one at a time leaves them right below the marker, last-inserted first. The rest of the page is kept. |
| LatestSection.FindDateSpan | scripts/archive-moltbook.mjs:140 | The date span found lies at or after the start and has the `(\d{4}-\d{2}-\d{2})` shape. |
| LatestSection.FindDateSpanFirst | scripts/archive-moltbook.mjs:140 | The lazy gap before the date span stops at the first one. `None` means there is none. |
| LatestSection.HrefEnd | scripts/archive-moltbook.mjs:140 | `([^"]+)">`: the href found is non-empty, holds no `"` and is followed by `">`. `HrefEndAt` states the converse. |
| LatestSection.HrefEndAt | scripts/archive-moltbook.mjs:140 | Any non-empty stretch without `"` that ends at `">` is the href `HrefEnd` finds, so the href has only one possible end. |
| LatestSection.AnchorTail | scripts/archive-moltbook.mjs:140 | The captured href is exactly the text between `<a href="` and `">`, and the captured date has the form `YYYY-MM-DD`. `AnchorAtLeast` states where the title and the date come from. |
| LatestSection.AnchorAt | scripts/archive-moltbook.mjs:140 | A match from one `<a href="` has a non-empty href without `"` and a date of the form `YYYY-MM-DD`. `AnchorAtNone` and `AnchorAtLeast` tie it to the pattern `Completes` writes out. |
| LatestSection.CompletesMatches | scripts/archive-moltbook.mjs:140 | If the rest of the pattern can complete from an `<a href="` in any way, `AnchorAt` finds a match there. |
| LatestSection.AnchorAtNone | scripts/archive-moltbook.mjs:140-141 | `AnchorAt` fails exactly when no href end, `</a>` and date span complete the pattern from that `<a href="`. |
| LatestSection.AnchorAtLeast | scripts/archive-moltbook.mjs:140-142 | A match comes from a completion, and its captures are `s[hs..q]`, `s[q+2..e]` and the span's date. `q` is the only possible href end, `e` is the first `</a>` after it, and the span is the first after that. Every other completion has the same `q` and ends its title and starts its date no earlier, as the lazy `*?` gaps require. |
| LatestSection.FindLatest | scripts/archive-moltbook.mjs:140 | A match has a non-empty href without `"` and an ISO-shaped date. |
| LatestSection.TryAnchor | scripts/archive-moltbook.mjs:140 | A match from an anchor candidate has the same shape as any match. |
| LatestSection.FindLatestIs | scripts/archive-moltbook.mjs:140-142 | The captures come from the first `<a href="` from which the rest of the pattern completes. |
| LatestSection.FindLatestNone | scripts/archive-moltbook.mjs:140-141 | No match means that for no later `<a href="`, href end, `</a>` and date span does the written-out pattern `Completes` hold. |
| LatestSection.FindLatestSkip | scripts/archive-moltbook.mjs:140 | A stretch without `<a href="` does not change the match. |
| LatestSection.FirstEntry | scripts/archive-moltbook.mjs:140-142 | The match starts from the first post-list marker: no marker, no match. It has no contract. `FindLatestIs` and `FindLatestNone` state what the search from the marker captures. |
| LatestSection.LatestBlock | scripts/archive-moltbook.mjs:143 | The `<p>` block around the captured href, title and date. It has no contract. `SetLatestReplacesFirstSpan` states where the block goes. |
| LatestSection.LatestReplacement | scripts/archive-moltbook.mjs:146 | The two markers with the block between them, each on its own indented line. It has no contract of its own. |
| LatestSection.SetLatestSection | scripts/archive-moltbook.mjs:139-149 | The page is unchanged when there is no match, or when either marker comment is missing. |
| LatestSection.SetLatestNoSpan | scripts/archive-moltbook.mjs:145-146 | With no END after the first START, the page is unchanged. |
| LatestSection.SetLatestReplacesFirstSpan | scripts/archive-moltbook.mjs:143-146 | Only the first START…END span is replaced, by the block for the match. The text around it is kept. |
| FeedMerge.UpdateFeed | scripts/archive-moltbook.mjs:112-124 | The four cases: a guid already there, before the first `<item>`, before `</channel>`, or at the end. |
| FeedMerge.GuidTag | scripts/archive-moltbook.mjs:113 | `<guid>${guid}</guid>` with the guid raw, the text the dedup looks up. It has no contract of its own. |
| FeedMerge.UpdateAll | scripts/archive-moltbook.mjs:211-239 | The feed after the loop's updates, in order. It has no contract. `UpdateAllStacks` and `Archive.UpdateAllSnoc` state its shape. |
| FeedMerge.UpdateFeedUnchangedIff | scripts/archive-moltbook.mjs:113 | The feed is unchanged if and only if `<guid>GUID</guid>` is already in it. |
| FeedMerge.UpdateFeedKeepsItemText | scripts/archive-moltbook.mjs:116-123 | Each fallback puts the whole item into the feed. |
| FeedMerge.UpdateFeedIdempotent | scripts/archive-moltbook.mjs:112-124 | An item that carries its own `<guid>GUID</guid>` is added once, however often it is fed. |
| FeedMerge.UpdateFeedChars | scripts/archive-moltbook.mjs:116-123 | The update brings in no character beyond the item's and newlines. |
| FeedMerge.UpdateFeedNewFirst | scripts/archive-moltbook.mjs:116-118 | With an existing item, the new one becomes the first `<item>`. |
| FeedMerge.UpdateFeedFirstItem | scripts/archive-moltbook.mjs:121-123 | Into a feed without items, the item goes before `</channel>` and is the first. |
| FeedMerge.ChainAppend | scripts/archive-moltbook.mjs:118 | Adding one item to a run of items puts it, with its blank line, at the end. |
| FeedMerge.UpdateAllStacks | scripts/archive-moltbook.mjs:211-239 | Inserting fresh items one at a time leaves them newest first in front of the old items. The rest of the feed is kept. |
| FeedMerge.SetLastBuildDate | scripts/archive-moltbook.mjs:126-137 | With a `<lastBuildDate>…</lastBuildDate>` span, the first span becomes the new element and the rest is kept. With an opening tag and no closing tag after it, the feed is unchanged. Without the opening tag, the element goes on its own line right after the first `</language>`. With neither tag, the feed is unchanged. |
| FeedMerge.BuildDateElement | scripts/archive-moltbook.mjs:129 | `<lastBuildDate>${d}</lastBuildDate>`, written both when replacing (line 129) and when inserting (line 134). It has no contract of its own. `SetLastBuildDateReadBack` reads the date back out of it. |
| FeedMerge.SetLastBuildDateReadBack | scripts/archive-moltbook.mjs:128-135 | After a replaced or an inserted element, the first `<lastBuildDate>` element holds exactly the date. |
| FeedMerge.SetLastBuildDateIdempotent | scripts/archive-moltbook.mjs:126-137 | Setting the same date twice is setting it once. |
| FeedMerge.RewriteHeldDate | scripts/archive-moltbook.mjs:128-129 | Writing the date the feed already holds changes nothing. |
| Text.IndexOfFromIs | scripts/archive-moltbook.mjs:97 | `indexOf` finds the first occurrence. |
| Text.ReplaceAllAbsent | scripts/archive-moltbook.mjs:37-42 | `replaceAll` of a character the string lacks changes nothing. |
| Text.SpliceFirst | scripts/archive-moltbook.mjs:109 | A splice whose inserted text begins with the needle makes that the first occurrence. |
| Text.FirstSpan | scripts/archive-moltbook.mjs:129 | The span a lazy `OPEN[\s\S]*?CLOSE` matches: it starts at the first `open` and ends at the first `close` after it. `None` means no `close` follows any `open`. The same definition serves line 146. |
| Text.ReplaceFirstSpan | scripts/archive-moltbook.mjs:146 | Non-global `replace` of that lazy pattern: only the first span is replaced, and the text around it is kept. Without a span the input is unchanged. The same definition serves line 129. |
| Text.Reverse | scripts/archive-moltbook.mjs:196 | `reverse()` as a value: same length, and element `k` is the input's element `n - 1 - k`. |
| Entries.PostDate | scripts/archive-moltbook.mjs:215 | With no `created_at`, the date is today's. Otherwise it is the first ten characters of `created_at`. |
| Archive.Today | scripts/archive-moltbook.mjs:32-34 | `isoDate()`: the first ten characters of the run's ISO time. It has no contract of its own. `Entries.PostDate` uses it when `created_at` is missing (line 215). |
| Entries.Filename | scripts/archive-moltbook.mjs:216-217 | The file name ends in `.html`. It needs no escaping when the date and the id need none. |
| Entries.RelUrl | scripts/archive-moltbook.mjs:218 | `./posts/` followed by the file name. It has no contract. `RelUrlShape` states its shape. |
| Entries.SlugPlain | scripts/archive-moltbook.mjs:216 | A slug needs no escaping. |
| Entries.SitePostBase | scripts/archive-moltbook.mjs:209 | At most one trailing character is dropped, and it is dropped if and only if the site base ends in `/`. |
| Entries.MoltUrl | scripts/archive-moltbook.mjs:220 | `https://www.moltbook.com/post/` followed by the post id. It has no contract of its own. |
| Entries.StripLeadingDot | scripts/archive-moltbook.mjs:234 | A leading `.` is removed. Any other string is returned unchanged. |
| Entries.Guid | scripts/archive-moltbook.mjs:234 | The post base followed by the link without its leading dot. It has no contract. `GuidOfRelUrl` gives its value for the links the loop builds. |
| Entries.GuidOfRelUrl | scripts/archive-moltbook.mjs:218-234 | The guid is the post base, then `/posts/`, then the file name. |
| Entries.GuidPlain | scripts/archive-moltbook.mjs:209-234 | The guid needs no escaping when the site base, the date and the id need none. |
| Entries.RelUrlShape | scripts/archive-moltbook.mjs:217-218 | The relative link is non-empty, has no `"`, and ends in `l`. |
| Entries.Entry | scripts/archive-moltbook.mjs:231 | The `<li>` with the title and the date escaped. It has no contract. `EntryHref` and `LatestAtEntry` read its link, title and date back. |
| Entries.EntryText | scripts/archive-moltbook.mjs:231 | The `<li>` template around a link, a title and a date as they are written. It has no contract of its own. |
| Entries.Description | scripts/archive-moltbook.mjs:237 | The CDATA wrapper around the first 400 characters of the content, or all of it when the content is shorter. |
| Entries.Item | scripts/archive-moltbook.mjs:238 | The feed item, with the ESCAPED guid in its `<guid>`. It has no contract. `ItemIndented`, `ItemCarriesGuidTag` and `ItemLacks` state its shape. |
| Entries.ContentHtml | scripts/archive-moltbook.mjs:66 | The page body: the content escaped, with `<br/>` before every newline. It has no contract of its own. |
| Entries.ItemIndented | scripts/archive-moltbook.mjs:238 | The feed item is indented four spaces and opens with `<item>`. |
| Entries.ItemCarriesGuidTag | scripts/archive-moltbook.mjs:238 | For a guid with no special character, the item holds `<guid>GUID</guid>`. |
| Entries.ItemFeedIdempotent | scripts/archive-moltbook.mjs:238-239 | For such a guid, a post fed in twice is added once. |
| Entries.EscapedGuidAddedTwice | scripts/archive-moltbook.mjs:113 | A guid is escaped in the item built at line 238, so the raw-guid lookup misses it. Take a guid holding `"` or `'`, where neither the feed nor the post's content holds that character: the same post is added again. |
| Entries.GuidNotDeduplicated | scripts/archive-moltbook.mjs:113 | A guid character that the feed and the item lack defeats the dedup on every call. |
| Entries.ItemLacks | scripts/archive-moltbook.mjs:237-238 | The item holds no `"` or `'` beyond those in the content. |
| Entries.EntryHref | scripts/archive-moltbook.mjs:106 | The dedup reads back the entry's own relative link, and the entry built at line 231 contains `href="<link>"`. |
| Entries.EntryUpsertIdempotent | scripts/archive-moltbook.mjs:231-232 | Upserting a built entry a second time changes nothing. |
| Entries.LatestAfterUpsert | scripts/archive-moltbook.mjs:231-232 | After the upsert, the latest pattern of line 140 captures the entry's link, escaped title and date. |
| Entries.LatestAtEntry | scripts/archive-moltbook.mjs:140 | At an entry built as at line 231, the lazy regex completes with that entry's captures. |
| Archive.NewPosts | scripts/archive-moltbook.mjs:166-171 | A prefix of `recent` in which no id is the checkpointed one. It is followed by that id, or it is all of `recent`. |
| Archive.NewPostsUnique | scripts/archive-moltbook.mjs:166-171 | Any such prefix equals `NewPosts`: it is the longest prefix without the checkpointed id. |
| Archive.NewPostsExample | scripts/archive-moltbook.mjs:166-171 | The list 5, 4, 3, 2, 1 with checkpoint 3 gives 5, 4. |
| Archive.NewPostsAllNew | scripts/archive-moltbook.mjs:166-171 | When the checkpoint names no recent post, every recent post is new. |
| Archive.CollectNewPosts | scripts/archive-moltbook.mjs:166-171 | The loop that breaks at the checkpointed id returns `NewPosts`. |
| Archive.CreatedAt | scripts/archive-moltbook.mjs:214 | `post.created_at || p.created_at`, with a missing value as the empty string. It has no contract of its own. |
| Archive.BuildPost | scripts/archive-moltbook.mjs:211-238 | Everything one loop step builds: the file name, the page, the entry, the guid and the item. It has no contract. `BuiltEntry`, `BuiltItemIndented` and the `Entries` lemmas state its parts. |
| Archive.FirstMissing | scripts/archive-moltbook.mjs:211-213 | It returns the first post whose fetch fails. Every post before it was fetched, and it equals the count if and only if all fetches succeed. |
| Archive.FirstMissingIs | scripts/archive-moltbook.mjs:211-213 | A failing post whose predecessors were all fetched is the first failure. |
| Archive.BuildAll | scripts/archive-moltbook.mjs:211-238 | One built result per post. |
| Archive.BuildAllAt | scripts/archive-moltbook.mjs:211-238 | Result `i` is what the step builds from post `i` and its fetched form. |
| Archive.BuildAllReverse | scripts/archive-moltbook.mjs:196-211 | Building the posts in reverse order gives the same results, reversed. |
| Archive.BuiltItemIndented | scripts/archive-moltbook.mjs:238 | Every item the loop builds is an indented `<item>`. |
| Archive.UpsertAllSnoc | scripts/archive-moltbook.mjs:232 | One more loop step upserts one more entry. |
| Archive.UpdateAllSnoc | scripts/archive-moltbook.mjs:239 | One more loop step adds one more item. |
| Archive.PagesOf | scripts/archive-moltbook.mjs:229 | The pages directory after writing the pages in order. It has no contract. `PagesOfWritten` states its contents. |
| Archive.PagesOfWritten | scripts/archive-moltbook.mjs:229 | Every page written is present, with the content of its last write. A file that no post names keeps its old content, and no other file appears. |
| Archive.Advanced | scripts/archive-moltbook.mjs:242-243 | The checkpoint after archiving the posts in order. It has no contract. `AdvancedIs` states its fields. |
| Archive.AdvancedIs | scripts/archive-moltbook.mjs:242-243 | After archiving posts, the checkpoint names the last post archived and the run time. With no posts it is unchanged. `lastCheckAt` is never touched. |
| Archive.UpsertAllKeepsInsertPoint | scripts/archive-moltbook.mjs:232 | A run of upserts keeps the marker in place. |
| Archive.AllFreshLast | scripts/archive-moltbook.mjs:232 | If no upsert of a run hits the dedup, the last one does not either. |
| Archive.FreshRunNewestFresh | scripts/archive-moltbook.mjs:232 | If no upsert of a run hits the dedup, the newest post's entry is not yet listed when its turn comes. |
| Archive.NewestIsLast | scripts/archive-moltbook.mjs:196 | After the reverse, the last post processed, whose id line 242 records, is `recent[0]`. |
| Archive.IndexNewestFirst | scripts/archive-moltbook.mjs:196-232 | After the loop, the new entries sit right below the marker in newest-first order. |
| Archive.FeedNewestFirst | scripts/archive-moltbook.mjs:196-239 | After the loop, the new items sit in front of the old first item in newest-first order. |
| Archive.LatestShowsNewest | scripts/archive-moltbook.mjs:247 | After the entries of lines 231-232, the latest pattern finds the newest post's link, escaped title and date. This holds whenever that post's link is not on the page before its own upsert. |
| Archive.Site.constructor | scripts/archive-moltbook.mjs:205-206 | The files as they are read, with the state read at line 156. |
| Archive.Site.Idle | scripts/archive-moltbook.mjs:173-193 | Only `lastCheckAt` changes in the checkpoint. The latest section and the build date are refreshed. |
| Archive.Site.Publish | scripts/archive-moltbook.mjs:247-253 | The homepage with its latest section refreshed, the feed with its build date, and the checkpoint are written. |
| Archive.Site.ArchiveEach | scripts/archive-moltbook.mjs:211-244 | A failure names the first post that could not be fetched, with the pages written up to it. On success: the pages, `UpsertAll`, `UpdateAll` and the advanced checkpoint. |
| Archive.Site.ArchiveNew | scripts/archive-moltbook.mjs:196-253 | On a failed fetch the homepage, the feed and the checkpoint are unchanged. Otherwise it states the refreshed outputs, with the checkpoint at the last post processed. |
| Archive.Site.RunWith | scripts/archive-moltbook.mjs:151-256 | `Site.Run` with the per-post step as a parameter. |
| Archive.Site.Run | scripts/archive-moltbook.mjs:151-256 | The four outcomes: see the notes below. |

`Archive.Site.Run` has four outcomes:

- **Empty `recent`:** nothing changes.
- **No new posts:** only `lastCheckAt` changes, and the index and the feed are
  refreshed.
- **A failed fetch:** only the pages before the failure are written.
- **Otherwise:** every page is written. The index is `SetLatestSection` of the
  upserts, and the feed is `SetLastBuildDate` of the updates. The checkpoint
  moves to `recent[0].id` and the run time. `lastCheckAt` is kept.

## Left out

- The file system, the credentials file and the network are left out.
  - The profile fetch is the `recent` input.
  - Each post fetch is a lookup in the `details` map. A missing key stands for
    a fetch that throws.
  - `full.post || full` is taken to be the given `Post`.
  - A missing API key or a failed profile fetch throws before the index, the
    feed or any page is read or written. The credentials and the state file are
    read before these throws (lines 152-158). Neither throw is modelled.
- The files are the fields of `Site`. Directory creation and `writeJson`
  formatting are not modelled.
- Time is left out.
  - `new Date()`, `toISOString` and `toUTCString` are the `Clock` parameters.
  - The script reads the clock afresh at each of these places. The model uses
    two fixed readings per run:
    - `clock.nowIso` stands for every ISO-time read: `lastCheckAt` (line 175),
      each `lastArchivedAt` (line 243), the `isoDate()` date of a post without
      `created_at` (lines 32 and 215), and the creation time that
      `renderPostHtml` falls back to for it (line 65).
    - `clock.nowUtc` stands for every UTC-time read: the `Date.now()` pubDate of
      a post without `created_at` (line 236), and the `new Date()` of
      `setLastBuildDate` (line 126, called at lines 186 and 248).
- The page template: `Page` holds only the values `renderPostHtml` puts into it
  (the escaped title, the body, the creation time and the Moltbook link). The
  fixed HTML around them is not modelled.
- JavaScript's `toLowerCase` is modelled for ASCII letters only. Unicode case
  mapping is not.
- The regular expressions are modelled for the fixed patterns the script uses,
  not in general.
- `$` patterns in replacement strings (`$&`, `$1`) are not interpreted. This
  matters only if a title or a href contains `$`.
- A missing title is modelled as the empty string. In the script it renders as
  `undefined` in the page, the entry and the item, while `toSlug` falls back
  to `dispatch`.
- Logging and the process exit code are left out.
- The default of `MOLTWIRE_SITE_BASE` is left out. The site base is a
  parameter.
- Archive.Site.Run: `newPosts.reverse()` is modelled by the pure `Reverse`
  function, not in place.
- Slug.ToSlug: its contract does not say that the slug has no trailing `-`.
  The 60-character cut happens after the trim and can leave one.
- Archive.FeedNewestFirst: it covers only a feed that already holds an item,
  and only runs with no duplicate guid. `FeedMerge.UpdateFeedFirstItem` covers
  the first item put into an empty channel.
- Archive.IndexNewestFirst: it covers only runs where no entry is already
  listed, and only pages with the post-list marker.
- FeedMerge.SetLastBuildDateReadBack: the date must hold no `<`. That is true
  of `toUTCString` output, so a date cannot contain the closing tag.
- Archive.LatestShowsNewest: the page must have the post-list marker, since
  without it the pattern matches nothing. The newest post's link must not be on
  the page before its own upsert, or the dedup skips its entry. Its id must need
  no escaping, and its date must have the form `YYYY-MM-DD`. Otherwise the
  script's own regex need not match it.
- Entries.EscapedGuidAddedTwice: it needs a character `"` or `'` of the guid
  that is found neither in the feed nor in the post's content. A real feed often
  has `"` (in its XML declaration) or `'`, so the lemma covers only feeds and
  content without that character. Without that requirement the raw
  `<guid>…</guid>` can straddle the point where the item is spliced in. For
  example, the content holds a raw `<guid>`, and the guid spells out the item's
  tail and the old feed's next text. The lookup then finds the straddling tag,
  so "added again" does not hold in general. For `&`, `<` and `>`, the item's
  own markup and the escaped guid hold those characters too, so the argument
  does not carry over. The model does not prove that such a guid is missed.
- Entries.Description: the 400-character cut counts Unicode scalar values.
  `slice(0, 400)` counts UTF-16 code units, so when the content has characters
  outside the Basic Multilingual Plane, the script's excerpt is shorter. The
  script can also cut a surrogate pair in two; the model cannot.
- Entries.PostDate, Entries.Filename: `slice(0, 10)` and `slice(0, 8)` count
  UTF-16 code units, but `Take` counts Unicode scalar values. The two agree on
  ASCII ids and ISO dates, and differ only when characters outside the Basic
  Multilingual Plane come early.
- Archive.BuildPost: `new Date(created_at).toISOString()` throws a `RangeError`
  when `created_at` does not parse. That aborts the loop after the earlier pages
  are written. `Clock.isoOf` is total, so this failure is not modelled.

# rssel, modelled in Dafny

rssel is a command-line RSS/Atom reader. It keeps its configured sources, the
items fetched from them, and the tags on those items in a sqlite store. It lists
items through a small query language of options, and it can tag items
automatically from their words. The repository also carries a helper tool,
`tooling/discover_feeds.py`, which finds the feeds a web page advertises.

This project models the parts of rssel that decide what ends up in the store and
what comes back out of it. The store itself is modelled as an immutable value.

| file | module | what it models |
|---|---|---|
| `wrappers.dfy` | `Wrappers` | `Option` and `Result` |
| `pystr.dfy` | `PyStr` | the Python string built-ins the code relies on: `strip`, `lower`, `isspace`, `isdigit`, `re.split` on runs, `int()`, `str()`, and `or` on strings |
| `sorting.dfy` | `Sorting` | slicing (`xs[:n]`), string order, and a deterministic sort by a strict total order |
| `config.dfy` | `Config` | `_parse_groups_arg`, `cfg_flag`, `parse_sources_file` |
| `feedparse.dfy` | `FeedParse` | `parse_feed` and `text_or_none`: how the elements of an RSS item or Atom entry become a candidate entry |
| `store.dfy` | `Store` | the schema and its constraints, `upsert_feeds`, the feed selection of `cmd_fetch`, and the per-feed `INSERT OR IGNORE` loop |
| `tagger.dfy` | `Tagger` | `_tokenize`, `extract_auto_tags`, the domain tag and de-duplication of `cmd_tags_auto`, `upsert_tag`, `replace_item_tags` |
| `query.dfy` | `Query` | the WHERE clauses, ORDER BY and LIMIT of `cmd_list`, with SQL `LIKE` |
| `autotag.dfy` | `AutoTag` | `cmd_tags_auto` as a whole |
| `archive.dfy` | `Archive` | `archive id`, `archive source`, `archive group`, `archive date`, and `star` |
| `textutil.dfy` | `TextUtil` | `slugify` and `parse_selected_id` |
| `discover.dfy` | `Discover` | `tooling/discover_feeds.py`: the link-tag parser, `parse_urls_from_file`, the tier and group options, and the fallback guesses |

Several things are passed in as function parameters rather than modelled:
- XML parsing;
- the HTML tokenizer;
- date parsing (`parse_datetime`, `_parse_date_arg`);
- `html_to_text`;
- `urlparse(...).hostname`, `urljoin` and `html.unescape`;
- the rowid lookup of `--source`;
- the network;
- the clock.

A fetched feed arrives as the results of the element lookups `parse_feed` makes. A
web page arrives as the events the tokenizer reports for it.

## Model

| member | source | states |
|---|---|---|
| `PyStr.PyInt` | rssel.py:2381-2383 | `int()` on a string: surrounding whitespace stripped, an optional sign, then ASCII digits with single underscores between digits; anything else fails. A definition; its meaning is stated by `PyStr.PyIntRoundTrip` |
| `PyStr.Strip` | rssel.py:1557 | `str.strip()`: the `isspace` characters at both ends are removed. A definition; its meaning is stated by `PyStr.StripIdempotent` and `Tagger.NormShape` |
| `PyStr.Lower` | rssel.py:1557 | `str.lower()` lowers each ASCII letter in place and keeps the length |
| `PyStr.PyIntRoundTrip` | rssel.py:2381-2383 | `int()` reads back every integer `str()` writes, sign included |
| `PyStr.SplitJoin` | rssel.py:44 | splitting on runs of separators undoes joining non-empty, separator-free pieces with one separator |
| `PyStr.StripIdempotent` | rssel.py:1557 | stripping twice is stripping once |
| `Sorting.Take` | rssel.py:1563 | `xs[:n]` is a prefix of `xs`: `min(n, len)` long for `n >= 0`; for a negative `n`, that many elements short of the end |
| `Sorting.Sort` | rssel.py:1166 | the result is a permutation of the input, strictly ordered by the given order |
| `Sorting.SortedUnique` | rssel.py:1166 | two strictly ordered arrangements of the same elements are equal, so the sort result is determined |
| `Config.ParseGroupsArg` | rssel.py:41-44 | an absent or empty argument names no group; every name is non-empty and holds no comma or whitespace |
| `Config.KeepStrippedIdentity` | rssel.py:44 | the strip-and-keep pass leaves non-empty, separator-free pieces as they are |
| `Config.GroupsRoundTrip` | rssel.py:41-44 | a comma-joined list of valid group names parses back to exactly that list |
| `Config.CfgFlagRoundTrip` | rssel.py:134-139 | the values `true` and `false` read back as written, whatever the default |
| `Config.CfgFlagDefaultOnlyWhenMissing` | rssel.py:134-139 | when a value is present the default has no effect |
| `Config.Entries` | rssel.py:276-288 | each decoded element gives at most one source, and every source kept has a truthy url |
| `Config.ParseSourcesFile` | rssel.py:251-288 | blank text and undecodable text give no sources; every source returned has a truthy url |
| `Config.EncodedSourceRead` | rssel.py:277-287 | a well-formed source object is read back with its url, its title and its string groups unchanged |
| `Config.EntriesAppend` | rssel.py:277-287 | a list is read element by element: reading a concatenation is concatenating the readings |
| `FeedParse.TextOrNone` | rssel.py:509-510 | the result is absent exactly when no element was found |
| `FeedParse.GuidFallback` | rssel.py:530 | the dedup key is the id when it is non-empty, else the link when it is non-empty, else the title |
| `FeedParse.GuidPresent` | rssel.py:530 | an entry has a non-empty key whenever its id, link or title is non-empty; it has no key only when the title is absent and the id and link are empty |
| `FeedParse.ShapeRss` | rssel.py:552-569 | an RSS item's title, link and summary are the stripped texts; its key falls back from guid to link to title; its content is `content:encoded`, or the summary when that is empty |
| `FeedParse.ShapeAtomAsWritten` | rssel.py:526-544 | an Atom entry as the code shapes it: the title and id come through the `or` chains |
| `FeedParse.ShapeAtom` | rssel.py:526-544 | an Atom entry with each lookup taking the first element found: a namespaced id, title or alternate link is used whenever it is present |
| `FeedParse.AtomIdLost` | rssel.py:530 | an entry whose only element is a namespaced text `<id>` gets no key from the code, but gets its id from the corrected lookup |
| `FeedParse.AtomAgreesWithoutNamespace` | rssel.py:526-544 | without the Atom namespace, and without a childless `published`, the code and the corrected lookup shape entries identically |
| `FeedParse.MapRss` | rssel.py:549-569 | one entry per RSS item, in document order |
| `FeedParse.MapAtom` | rssel.py:526-544 | one entry per Atom entry, in document order, each shaped through the `or` chains as the code does |
| `FeedParse.MapAtomIntended` | rssel.py:526-544 | one entry per Atom entry, in document order, under the corrected lookup |
| `FeedParse.ParseFeed` | rssel.py:513-570 | `parse_feed` as written. A document that does not parse gives no entries. A root tag ending in `feed` is read as Atom: entry `k` is Atom entry `k` shaped through the `or` chains. Anything else is read as RSS: entry `k` is RSS item `k` shaped |
| `FeedParse.ParseFeedIntended` | rssel.py:513-570 | `parse_feed` with the corrected Atom lookup, entry by entry |
| `FeedParse.ParseFeedAgrees` | rssel.py:513-570 | the code and the corrected lookup read every RSS document alike, and every Atom document whose entries are found without the Atom namespace |
| `FeedParse.ParseFeedIdLost` | rssel.py:526-534 | an Atom feed whose one entry holds only a namespaced text `<id>` yields an entry without a key as written, and an entry keyed by that id under the corrected lookup |
| `Store.EmptyValid` | rssel.py:337-377 | the empty store meets the schema constraints |
| `Store.Valid` | rssel.py:337-377 | the schema's constraints: item ids below the counter, foreign keys from items, group links and item tags, and `UNIQUE(feed_url, guid)` among items with a guid. A definition; its meaning is stated by the lemmas that every command keeps it, such as `Store.InsertOrIgnoreValid` |
| `Store.UpsertOne` | rssel.py:577-593 | a source without a url, or without the requested group, changes nothing. An accepted one sets the feed's primary group, and adds exactly its group links (only `--group` under that option). Its title becomes the given title, or stays as it was when none is given (`COALESCE`). A new feed is unarchived and an existing one keeps its archived flag. No other feed or item changes |
| `Store.UpsertFeeds` | rssel.py:573-594 | items and tags are untouched; feeds and group links are only added |
| `Store.UpsertFeedsResult` | rssel.py:573-594 | after the loop each feed has the primary group of the last accepted source for it. Its title is the last title given, else the title it had. Its archived flag is as it was. The group links are the old ones plus those of every accepted source |
| `Store.UpsertFeedsFeed` | rssel.py:577-589 | per feed: which feeds exist afterwards and what each row holds, as in `UpsertFeedsResult` |
| `Store.UpsertFeedsLinks` | rssel.py:590-593 | the group links are the old ones plus those of every accepted source |
| `Store.LastTitleHasSource` | rssel.py:581-589 | a title is only ever taken from an accepted source |
| `Store.UpsertFeedsIdempotent` | rssel.py:573-594 | writing the same sources twice leaves the store as writing them once |
| `Store.UpsertFeedsValid` | rssel.py:573-594 | writing sources keeps the schema constraints |
| `Store.FetchSelection` | rssel.py:605-613 | only unarchived feeds are fetched; without `--group` that is all of them |
| `Store.FetchSelectionByGroup` | rssel.py:606-610 | under `--group`, a feed is fetched exactly when it is unarchived and linked to one of the listed groups |
| `Store.Ingest` | rssel.py:619-638 | ingesting touches only items and never lowers the id counter |
| `Store.InsertOrIgnoreValid` | rssel.py:361 | one insert keeps `UNIQUE(feed_url, guid)` and the foreign keys |
| `Store.IngestValid` | rssel.py:361-362 | ingesting a feed keeps the schema constraints: no two items of a feed ever share a guid |
| `Store.IngestOnlyAdds` | rssel.py:621-637 | existing items are untouched. Each new item belongs to the fetched feed, is stamped `now`, and starts unread, unstarred and not deleted. At most one item is added per entry |
| `Store.IngestRecordsKeys` | rssel.py:621-637 | afterwards every entry that has a guid is present for its feed |
| `Store.IngestKeepsKey` | rssel.py:621-637 | a `(feed, guid)` present before ingesting is present after it |
| `Store.IngestPresentIsNoop` | rssel.py:361 | entries that are all present already change nothing |
| `Store.IngestIdempotent` | rssel.py:361 | fetching the same guid-bearing entries again, at any later time, adds nothing |
| `Store.NullGuidDuplicates` | rssel.py:354-361 | an entry without a guid is inserted again on every fetch: the same entry twice gives two new items |
| `Store.InsertWithoutGuid` | rssel.py:354-361 | an entry without a guid always adds a row under a fresh id |
| `Store.IngestFresh` | rssel.py:621-637 | entries with distinct guids that are not yet present each become a new item |
| `Store.FetchAll` | rssel.py:615-638 | the fetch loop writes only items: feeds, group links and tags are unchanged. A feed whose fetch failed with `URLError`/`HTTPError` (caught in `http_get`) is skipped. Any other exception ends the loop at that feed (the first one that raises), keeping the items of the feeds before it. The loop ends without a raise exactly when no fetch raises |
| `Store.FetchAllValid` | rssel.py:615-638 | the fetch loop keeps the schema's constraints when every url it fetches is a stored feed |
| `Store.FetchAllOnlyAdds` | rssel.py:615-638 | the fetch loop only adds items: every item stored before is kept as it was |
| `Tagger.Tokenize` | rssel.py:1145-1149 | every token is made of `[a-z0-9-]` and has no hyphen at either end |
| `Tagger.KeepWords` | rssel.py:1149 | the kept pieces are no more than the pieces, and each is word-shaped |
| `Tagger.DigitsSurviveHyphens` | rssel.py:1148-1149 | the all-digits test comes before the hyphens are stripped, so `-2024` yields the token `2024` while `2024` yields none |
| `Tagger.Weights` | rssel.py:1155-1164 | the weight table has no repeated word; every weight is positive and every word is long enough and not a stopword |
| `Tagger.WeightsCount` | rssel.py:1155-1164 | a word's weight is its eligible occurrences in the body plus twice those in the title, and zero for an ineligible word |
| `Tagger.Ranked` | rssel.py:1166 | the ranking is a permutation of the table in which heavier words come first and ties go by word |
| `Tagger.RankedUnique` | rssel.py:1166 | any arrangement of the table in that order is the ranking, so the result does not depend on dict insertion order |
| `Tagger.ExtractAutoTags` | rssel.py:1152-1168 | at most `max_tags` tags, no tag twice, each long enough and not a stopword |
| `Tagger.ExtractAutoTagsOccur` | rssel.py:1152-1168 | every tag occurs as a token of the title or of the body |
| `Tagger.ExtractAutoTagsOrdered` | rssel.py:1166-1167 | the tags come heaviest first, with equal weights in word order |
| `Tagger.ExtractAutoTagsTop` | rssel.py:1166-1167 | a counted word that is not returned ranks below every returned tag |
| `Tagger.ExtractAutoTagsAll` | rssel.py:1166-1167 | when `max_tags` does not cut the ranking, the tags are exactly the counted words |
| `Tagger.DomainOf` | rssel.py:1884-1887 | the domain tag is lower-case and no longer than the host name |
| `Tagger.AddDomain` | rssel.py:1883-1890 | the tags are unchanged, or extended by one non-empty domain tag at the end; without `--include-domain` or a link they are unchanged |
| `Tagger.Dedup` | rssel.py:1893-1894 | the result holds each tag of the input exactly once and nothing else |
| `Tagger.DedupOrder` | rssel.py:1893-1894 | the kept tags come in the order of their first occurrences |
| `Tagger.DedupFromKeeps` | rssel.py:1893-1894 | a list without repeats passes through unchanged |
| `Tagger.DedupIdempotent` | rssel.py:1893-1894 | de-duplicating twice is de-duplicating once |
| `Tagger.AutoTagsFor` | rssel.py:1880-1894 | an item's tags have no repeats. They contain every extracted word, and nothing but extracted words and the link's domain |
| `Tagger.Norm` | rssel.py:1173 | `name.strip().lower()`. A definition; its meaning is stated by `Tagger.NormShape` |
| `Tagger.NormShape` | rssel.py:1173 | a normalised name is lower-case with no whitespace at either end, so normalising it again changes nothing |
| `Tagger.LinkOne` | rssel.py:1186-1189 | one name adds its normalised tag and links it to the item; a blank name adds nothing |
| `Tagger.LinkTagsResult` | rssel.py:1186-1189 | the loop adds exactly the normalised names as tags and links them all to the item |
| `Tagger.ReplaceItemTags` | rssel.py:1183-1190 | the only failure is linking a tag to a missing item (the foreign key); on success feeds and items are untouched |
| `Tagger.ReplaceItemTagsResult` | rssel.py:1183-1190 | afterwards the item carries exactly the normalised non-blank names. Every other item keeps its tags, and tags are only added |
| `Tagger.RelinkedTags` | rssel.py:1183-1190 | dropping an item's links and then adding a set of names gives that item exactly those names; other items keep theirs |
| `Tagger.ReplaceItemTagsIdempotent` | rssel.py:1183-1190 | replacing an item's tags twice with the same names is replacing them once |
| `Tagger.ReplaceItemTagsValid` | rssel.py:1183-1190 | replacing an item's tags keeps the schema constraints |
| `Query.Like` | rssel.py:820-823 | SQL `LIKE`: `%` matches any run of characters, `_` any one character, and other characters match ignoring ASCII case. A definition; its meaning is stated by `Query.LikeAnything`, `Query.LikePrefix`, `Query.LikeSuffix` and `Query.LikeAt` |
| `Query.LikeAnything` | rssel.py:822 | the pattern `%` matches every text |
| `Query.LikePrefix` | rssel.py:822 | `q%`, for a `q` without wildcards, matches exactly the texts that start with `q`, ignoring ASCII case |
| `Query.LikeSuffix` | rssel.py:822 | a leading `%` matches when the rest of the pattern matches some suffix |
| `Query.LikeAt` | rssel.py:822 | `q%` matches the text from position `i` on exactly when `q` occurs at `i`, ignoring case |
| `Query.LikeContains` | rssel.py:820-823 | the `--query` pattern `%q%` matches exactly the texts containing `q`, ignoring case |
| `Query.Holds` | rssel.py:748-828 | one WHERE clause of `cmd_list` for one item: each clause kind is the SQL condition it stands for; `TagCount` is the tag subquery as written and `HasTags` the all-tags match. A definition; its meaning is stated by `Query.Listed`, `Query.ListItemsMatch` and `Query.TagClauseAgrees` |
| `Query.RepeatedTagMisses` | rssel.py:783 | an item tagged `ai` passes the all-tags match for `ai,ai`, but the clause as written rejects it |
| `Query.TagClauseAsWrittenHasAll` | rssel.py:778-784 | an item passing the clause as written carries every named tag: the clause is never looser than the all-tags match |
| `Query.TagClauseAgrees` | rssel.py:774-786 | when no name is repeated, the clause as written holds exactly when the item carries every named tag |
| `Query.TagList` | rssel.py:776 | the `--tags` names are the group-style pieces of the argument, lower-cased one by one |
| `Query.SourceUrl` | rssel.py:758-770 | a value that is not an integer names a feed by url as given |
| `Query.DateFilters` | rssel.py:802-819 | every clause bounds the chosen timestamp. A truthy `--on` overrides `--since` and `--until`: it gives the window `[day, day + 86400)` when the day parses, and no clause when it does not. Otherwise a parseable `--since` gives a `>=` bound and a parseable `--until` a `<` bound, and every clause comes from one of them |
| `Query.SourceClause` | rssel.py:758-772 | at most one clause, and it names a feed |
| `Query.TagClause` | rssel.py:774-786 | a non-empty tag list gives one clause, the tag subquery as written; an absent `--tags`, or one naming nothing, gives no tag clause |
| `Query.HeadFilters` | rssel.py:748-786 | the first clause excludes deleted items; the group and tag clauses are present when their options name something |
| `Query.ReadFilter` | rssel.py:787-790 | `--unread-only` asks for unread items, else `--read` for read ones, else no read clause |
| `Query.TimeFilters` | rssel.py:791-823 | `--new` gives a cutoff `new_hours` before now; a parseable `--on` day gives its window, and otherwise `--since`/`--until` give their bounds; a truthy `--query q` gives the pattern `%q%`, and no other text clause appears; these clauses never mention the read or star flags |
| `Query.FlagFilters` | rssel.py:825-828 | the second `read = 1` clause appears exactly under `--read` without `--unread-only`, and `--star` adds the starred clause |
| `Query.BuildFilters` | rssel.py:748-828 | the first clause always excludes deleted items |
| `Query.Limit` | rssel.py:830 | a positive limit keeps the first rows; zero (no `--limit`) or a negative one, which sqlite reads as no limit, keeps them all |
| `Query.Candidates` | rssel.py:831-838 | exactly the ids in the scanned range whose rows pass every clause, in increasing order |
| `Query.Select` | rssel.py:831-839 | every row returned passes every clause, with no row twice, newest first (ties by higher id), and no more than a positive limit |
| `Query.SelectComplete` | rssel.py:830-839 | without a limit every passing row is returned; with one, a passing row is left out only when `limit` newer rows were returned |
| `Query.Listed` | rssel.py:831-838 | a listed id is an item of a known feed that passes each clause |
| `Query.ListItems` | rssel.py:748-839 | the ids `cmd_list` prints: the rows passing the clauses it builds, tag subquery as written, newest first, up to the limit. A definition; its meaning is stated by `Query.ListItemsMatch` |
| `Query.ListItemsMatch` | rssel.py:748-786 | every listed item is not deleted, belongs to one of the `--group` groups, and comes from the `--source` feed. It passes the tag subquery as written, and so carries every `--tags` tag |
| `Query.ListItemsFlags` | rssel.py:787-828 | listed items are unread under `--unread-only`, read under `--read` alone, starred under `--star`, and created within the `--new` window |
| `Query.ListedRow` | rssel.py:748-839 | a listed id is a row of the query `cmd_list` builds |
| `Query.RowHolds` | rssel.py:829-834 | a row of the query passes each of its clauses |
| `Query.RowInWindow` | rssel.py:803-808 | a row that passes both ends of a day window is stamped within that day |
| `Query.ListItemsOnDay` | rssel.py:803-808 | under `--on DAY` only items stamped within that day are listed |
| `Query.ListedSince` | rssel.py:810-814 | without `--on`, a parseable `--since` lists only items stamped at or after it |
| `Query.ListedUntil` | rssel.py:815-819 | without `--on`, a parseable `--until` lists only items stamped before it |
| `Query.ListedQuery` | rssel.py:820-823 | under `--query q` with no `%` or `_` in `q`, every listed item's title or summary contains `q`, ignoring ASCII case |
| `Query.ListAllByDefault` | rssel.py:748-839 | with no options, an item is listed exactly when it is not deleted |
| `Query.UnreadOnlyWins` | rssel.py:787-790 | `--unread-only` together with `--read` lists unread items: no `read = 1` clause is added |
| `AutoTag.Selected` | rssel.py:1862-1876 | the items walked are live (present, not deleted, in the group when one is named) and distinct |
| `AutoTag.BodyText` | rssel.py:1880 | blank HTML renders as empty text |
| `AutoTag.TagsForItem` | rssel.py:1879-1894 | an item's tags: the words extracted from its title and rendered content (or summary), then its domain under `--include-domain`, without repeats. A definition; its meaning is stated by `AutoTag.TagEachResult` |
| `AutoTag.TagEach` | rssel.py:1878-1898 | the loop leaves items, feeds and group links as they were |
| `AutoTag.TagsAuto` | rssel.py:1858-1903 | a dry run changes nothing; a real run changes only tags: items, feeds and group links stay as they were |
| `AutoTag.TagEachResult` | rssel.py:1878-1898 | after the loop each visited item carries exactly its computed tags. Every other item keeps its tags, and tags are only added |
| `AutoTag.TagsAutoResult` | rssel.py:1858-1903 | each selected item gets exactly its normalised computed tags, and every other item keeps its own |
| `AutoTag.TagsAutoOnlyLive` | rssel.py:1862-1866 | an item whose tags change is live and, under `--group`, in that group |
| `AutoTag.TagEachValid` | rssel.py:1878-1898 | retagging keeps the schema constraints |
| `Archive.ArchiveId` | rssel.py:1355-1374 | `--undo` always succeeds. Archiving refuses a missing id and a starred item. Success changes nothing but `deleted` flags |
| `Archive.ArchiveIdEffect` | rssel.py:1371 | archiving by id deletes that one item and leaves every other item as it was |
| `Archive.ArchiveIdUndo` | rssel.py:1359-1371 | archiving an unstarred, undeleted item and then undoing it restores the store |
| `Archive.ArchiveSource` | rssel.py:1377-1391 | the feed's archived flag is set or cleared, and no other feed changes. Starred items are never touched, and items change only when archiving with `--delete-items` |
| `Archive.ArchiveSourceDeletes` | rssel.py:1387-1388 | with `--delete-items`, an item ends up deleted exactly when it was deleted already or is an unstarred item of the source |
| `Archive.ArchiveGroup` | rssel.py:1394-1414 | an empty group changes nothing. Otherwise exactly the group's feeds are set or cleared, and starred items are never touched |
| `Archive.ArchiveGroupDeletes` | rssel.py:1410-1411 | with `--delete-items`, an item ends up deleted exactly when it was deleted already or is an unstarred item of one of the group's feeds |
| `Archive.DateArg` | rssel.py:55-56 | an absent or empty date argument has no time |
| `Archive.DateRange` | rssel.py:1424-1444 | an `--on` day that does not parse is an error. A parseable one gives its window. Without `--on`, the command refuses exactly when neither `--since` nor `--until` parses; otherwise a parseable `--since` gives a `>=` bound and a parseable `--until` a `<` bound, and every clause comes from one of them |
| `Archive.DateFilters` | rssel.py:1424-1466 | fails exactly when the date range fails. Otherwise it holds the date clauses, the `--group` clause when the groups parse to a non-empty list, and the `--source` clause when one is given, and nothing else |
| `Archive.Matches` | rssel.py:1446-1466 | an item matches `archive date` when it passes every clause of its WHERE. A definition; its meaning is stated by `Archive.MatchesIff` and `Archive.ArchiveDateDeletes` |
| `Archive.ArchiveDate` | rssel.py:1417-1478 | fails exactly when the date range fails. It changes only `deleted` flags, and archiving never touches a starred item |
| `Archive.ArchiveDateEffect` | rssel.py:1468-1474 | undo clears exactly the matching items; archiving deletes exactly the matching unstarred ones |
| `Archive.DatesIff` | rssel.py:1424-1444 | an item passes the date clauses exactly when its stamp is within the `--on` day, or at or after `--since` and before `--until` |
| `Archive.ScopeIff` | rssel.py:1446-1466 | an item passes the group and source clauses exactly when its feed is linked to one of the groups and is the `--source` feed |
| `Archive.MatchesIff` | rssel.py:1424-1466 | an item matches `archive date` exactly when it is in the date range and its feed is in scope |
| `Archive.ArchiveDateDeletes` | rssel.py:1424-1474 | archiving deletes exactly the unstarred items in range and scope, leaving the others as they were; undo restores exactly the items in range and scope |
| `Archive.ArchiveDateOnDay` | rssel.py:1425-1432 | an `--on` day restricts the command to items stamped within that day |
| `Archive.Star` | rssel.py:1481-1505 | exactly the listed items are starred, or unstarred with `--undo`; nothing else about them changes |
| `Archive.StarProtects` | rssel.py:1362-1370 | a starred item cannot be archived by id, and an unstarred one can |
| `TextUtil.KeepSlugChars` | rssel.py:1558 | every character kept is a slug character, a space or an underscore; text made only of those passes through |
| `TextUtil.KeepSlugCharsHas` | rssel.py:1558 | a character survives the filter exactly when it occurs and is allowed |
| `TextUtil.Squeeze` | rssel.py:1559-1560 | after replacing runs with a hyphen no run character remains. The result starts with a hyphen exactly when the text started with one or with a run. Squeezing hyphen runs leaves no doubled hyphen |
| `TextUtil.SqueezeHas` | rssel.py:1559-1560 | squeezing adds no character but the hyphen and loses none outside the runs |
| `TextUtil.SlugOrItem` | rssel.py:1557-1562 | the uncut slug is non-empty and slug-shaped: slug characters, no doubled hyphen, no hyphen at either end |
| `TextUtil.SlugBody` | rssel.py:1557-1560 | the slug before the `item` fallback and the cut: lowered, filtered, runs of spaces, underscores and hyphens made single hyphens, hyphens stripped from the ends. A definition; its meaning is stated by `TextUtil.SlugBodyShape` and `TextUtil.SlugFallbackIff` |
| `TextUtil.Slugify` | rssel.py:1556-1563 | a slug has only `[a-z0-9-]`, no doubled hyphen and no leading hyphen, and is no longer than `max_len`. It is non-empty when `max_len > 0`. A `max_len` at least the uncut slug's length leaves it whole. It ends in a hyphen only when the cut fell on one |
| `TextUtil.PrefixShape` | rssel.py:1563 | cutting a slug keeps its characters, its single hyphens and its first character |
| `TextUtil.SlugBodyShape` | rssel.py:1557-1560 | the body is slug-shaped |
| `TextUtil.SlugFallbackIff` | rssel.py:1561-1562 | the `item` fallback is taken exactly when the text has no letter or digit once lowered |
| `TextUtil.SlugBodyFixpoint` | rssel.py:1557-1560 | a non-empty slug-shaped text is its own body |
| `TextUtil.SlugifyIdempotent` | rssel.py:1556-1563 | slugifying a slug that the cut did not leave on a hyphen gives it back |
| `TextUtil.SpacedWords` | rssel.py:1557-1560 | two words separated by a space become the two words joined by a hyphen |
| `TextUtil.HyphenEnded` | rssel.py:1560 | a trailing hyphen is stripped |
| `TextUtil.CutEndsInHyphen` | rssel.py:1560-1563 | the cut can leave a trailing hyphen, which a second pass strips, so `slugify` is not idempotent on such slugs |
| `TextUtil.FirstField` | rssel.py:2381 | the first field is a tab-free prefix of the line, followed by a tab or the end of the line |
| `TextUtil.ParseSelectedId` | rssel.py:2377-2385 | an absent or empty line selects nothing |
| `TextUtil.FirstFieldOnly` | rssel.py:2377-2385 | only the first tab-separated field is read as the id |
| `TextUtil.PickedIdRoundTrip` | rssel.py:2338 | a picker line, which starts with the item id and a tab, gives that id back |
| `Discover.Attr` | tooling/discover_feeds.py:55-59 | an attribute no name of which matches gives nothing. Otherwise the value comes from the last matching attribute, matching names case-insensitively |
| `Discover.Advertises` | tooling/discover_feeds.py:60-70 | a `<link>` advertises a feed when its `href` is non-empty, its `rel` mentions `alternate`, and its `type` is a feed type or its `href` looks like a feed. A definition; its meaning is stated by `Discover.LinkOf` |
| `Discover.LinkOf` | tooling/discover_feeds.py:53-70 | a tag adds a feed exactly when it is a `<link>` with a non-empty `href`, `alternate` in its `rel`, and a feed type or a feed-like `href` |
| `Discover.Step` | tooling/discover_feeds.py:53-81 | each callback adds at most the feed of its own tag and keeps the page title stripped |
| `Discover.Parse` | tooling/discover_feeds.py:45-81 | the page title is always stripped |
| `Discover.ParseLinks` | tooling/discover_feeds.py:53-70 | the links found are exactly those advertised, in page order, whatever the title tracking does |
| `Discover.NoTitleTag` | tooling/discover_feeds.py:71-81 | a page without a `<title>` tag has no page title |
| `Discover.TitleText` | tooling/discover_feeds.py:71-81 | text inside `<title>` becomes the page title, stripped, and text after `</title>` is ignored |
| `Discover.FeedTypeShort` | tooling/discover_feeds.py:64 | a `type` is a feed type exactly when it mentions `rss`, `atom`, `application/xml` or `text/xml` |
| `Discover.KeepUrls` | tooling/discover_feeds.py:92-97 | every kept token starts with `http://` or `https://` in any case, and none is a comment |
| `Discover.ParseUrls` | tooling/discover_feeds.py:84-98 | an unreadable file gives no URLs. Every URL is non-empty, whitespace-free and starts with `http://` or `https://` |
| `Discover.KeepUrlsFrom` | tooling/discover_feeds.py:92-97 | the kept tokens stay whitespace-free |
| `Discover.UrlsRoundTrip` | tooling/discover_feeds.py:84-98 | a file listing http(s) URLs one per line reads back as exactly those URLs |
| `Discover.KeepUrlsAll` | tooling/discover_feeds.py:92-97 | a list of http(s) URLs passes the filter unchanged |
| `Discover.Groups` | tooling/discover_feeds.py:124-126 | no argument names no group |
| `Discover.GroupsAgree` | tooling/discover_feeds.py:124-126 | the tool reads a group list exactly as rssel's `_parse_groups_arg` does |
| `Discover.EntryTitle` | tooling/discover_feeds.py:157 | a feed is titled by its own title, else by the page title, else by its URL |
| `Discover.Entries` | tooling/discover_feeds.py:155-161 | one entry per link, in order, with its URL, its unescaped title, the groups and the tier |
| `Discover.Found` | tooling/discover_feeds.py:139-161 | the entries of one page: those of the feeds it advertises, or none when its fetch raised a caught error. A definition; its meaning is stated by `Discover.NothingAdvertised` and `Discover.GuessesOnlyWhenNothingFound` |
| `Discover.FoundAll` | tooling/discover_feeds.py:139-161 | every entry found carries the groups and the tier |
| `Discover.LastSegment` | tooling/discover_feeds.py:169 | `href.rsplit("/", 1)[-1]`: the characters after the last slash. A definition; its meaning is stated by `Discover.LastSegmentShape` |
| `Discover.LastSegmentShape` | tooling/discover_feeds.py:169 | the segment is the longest suffix without a slash |
| `Discover.LastSegmentAfter` | tooling/discover_feeds.py:169 | the segment after a final slash is that segment |
| `Discover.Guess` | tooling/discover_feeds.py:166-169 | a guess is the path joined to the page, carrying the groups and the tier |
| `Discover.Guesses` | tooling/discover_feeds.py:165-172 | each page gives one entry per guessed path (the tool has four), in order: the path joined to the page, carrying the groups and the tier |
| `Discover.GuessTitle` | tooling/discover_feeds.py:165-169 | where the guessed path lands right after the site address, the entry is titled by the path's last segment (`feed`, `feed.xml`, `rss.xml`, `atom.xml`) |
| `Discover.GuessTitleOf` | tooling/discover_feeds.py:167-169 | a guess whose joined address ends in `/name` is titled `name` |
| `Discover.GuessAll` | tooling/discover_feeds.py:163-172 | given the four guessed paths, four guesses per page, each carrying the groups and the tier |
| `Discover.GuessAllUrls` | tooling/discover_feeds.py:166-168 | guess `4p + j` is guess `j` of page `p`: guessed path `j` joined to page `p` |
| `Discover.GuessAllCons` | tooling/discover_feeds.py:166-172 | the guesses of the first page come first, then those of the rest, as the loop appends them |
| `Discover.FirstRaised` | tooling/discover_feeds.py:139-144 | the first page whose fetch raises an exception the loop does not catch; none exactly when no page does |
| `Discover.Discover` | tooling/discover_feeds.py:101-179 | with neither a file nor a URL the tool exits with 2. Otherwise it ends with a traceback exactly when some page's fetch raises an exception other than `HTTPError` or `URLError`. Every entry printed carries the groups and the tier. The output is empty exactly when there are no pages |
| `Discover.GuessesOnlyWhenNothingFound` | tooling/discover_feeds.py:139-172 | when no fetch raises an uncaught exception, the result is the entries found if there are any, and otherwise the guesses for every page |
| `Discover.NothingAdvertised` | tooling/discover_feeds.py:139-161 | pages that advertise no feed contribute no entry |

## Left out

- I/O is not modelled: sqlite, the files under the rssel home, HTTP fetches, the config reader, and the pager, picker and printing. The store is an immutable value, and the results of fetches and lookups are parameters. A fetch of `cmd_fetch` is given by its outcome (`Store.Payload`): the parsed entries, a caught `URLError`/`HTTPError`, or another exception, which ends the command.
- XML parsing is not modelled. `ET.fromstring` and `findall` are represented by their results: a `Doc` holding the entries (or items) found. The fallbacks `findall("atom:entry") or findall("entry")` and `channel` / root `item` are folded into that list.
- `parse_datetime`, `_parse_date_arg`, `html_to_text`, `urlparse(...).hostname`, `urljoin` and `html.unescape` are function parameters. They rely on strptime, the local time zone, an HTML renderer and URL grammar, which are not modelled.
- The clock is a parameter: `now` of the fetch loop and of `--new`.
- `str.lower`, `str.isspace`, `re.IGNORECASE` and `int()` are modelled on ASCII letters and digits and on the whitespace characters listed in `PyStr.IsSpace`. Python also lowers non-ASCII letters (the Kelvin sign lowers to `k`, so it would pass `slugify`'s filter). It also matches `ſ` against `s` under `IGNORECASE`. Its `int()` also reads other Unicode decimal digits (`int("١٢") == 12`), which `PyStr.PyInt` rejects.
- JSON decoding (`json.loads`) is a parameter. Numbers are integers in the model; floats are not represented.
- `upsert_feeds` reads only string urls and string or absent titles (`Store.SpecOf`). A url or title of another JSON type is not represented.
- `conn.total_changes` and the printed counts of `cmd_fetch` are not modelled: they are reporting only.
- `cmd_list --source` with no value (`__LIST__`, the source summary) and `--list-tags` only print, and are not modelled. So are the export path and display options of `cmd_list`.
- `cmd_sync`, the export and copy commands, `source_from_url.py` and the remaining subcommands are not part of this model.
- The output formatting of `discover_feeds.py` (`--ndjson`, `--array`, `--compact`) and its `--timeout` are not modelled; the model returns the list of entries.
- Parser exceptions and decode errors in `discover_feeds.py` are not modelled: a fetched page is given as the events the tokenizer reports before any error. A fetch is given by its outcome (`Discover.Fetched`): the page, a caught `HTTPError`/`URLError`, or another exception, which ends the tool.
- `AutoTag.TagsAuto`: no idempotence is stated. `html_to_text` and `hostname` are arbitrary parameters, so a second run computes the same tags only under assumptions about them that the code does not make.
- `Discover.Guesses`: the guessed titles are stated in `Discover.GuessTitle`, for the case where `urljoin` places the path right after the site address. Other placements depend on `urljoin`, which is a parameter.
- `Query.SourceUrl`: the integer branch depends on the rowid lookup, which is a parameter. Only the non-integer branch is stated.
- `Query.BuildFilters`: only its first clause is stated here. The remaining clauses are stated per group, in `HeadFilters`, `ReadFilter`, `DateFilters`, `TimeFilters` and `FlagFilters`, and for the listing as a whole in `ListItemsMatch`, `ListItemsFlags`, `ListItemsOnDay`, `ListedSince`, `ListedUntil` and `ListedQuery`. `ListedQuery` covers queries without `%` or `_`; for others the pattern is matched as `LIKE` matches it (`Query.Like`).
- `Query.TagClauseAsWritten` is a definition. Its meaning is stated by `Query.TagClauseAsWrittenHasAll`, `Query.TagClauseAgrees` and `Query.RepeatedTagMisses`.
- These members have contracts that only split their own definition into cases. Their meaning is stated by the lemmas named here:
  - `Config.CfgFlag`: `CfgFlagRoundTrip` and `CfgFlagDefaultOnlyWhenMissing`;
  - `FeedParse.ElemOr` and `FeedParse.FirstFound`: `AtomIdLost`, `AtomAgreesWithoutNamespace` and `ParseFeedAgrees`;
  - `Store.InsertOrIgnore`: `InsertOrIgnoreValid`, `IngestOnlyAdds` and `IngestRecordsKeys`;
  - `Tagger.UpsertTag`: `LinkOne`, `LinkTagsResult` and `NormShape`;
  - `Query.GroupClause`: `HeadFilters` and `ListItemsMatch`;
  - `AutoTag.AutoFilters`: `Selected` and `TagsAutoOnlyLive`;
  - `Archive.SetDeleted`, `Archive.SetStarred` and `Archive.SetArchived`: `ArchiveIdUndo`, `ArchiveSourceDeletes`, `ArchiveGroupDeletes`, `ArchiveDateEffect` and `Star`;
  - `Discover.TierVal`, `Discover.Pages`: `Discover` and `GroupsAgree`.
- Features that descriptions of this program mention but its code lacks are not modelled, because the code does not have them:
  - a hashed dedup key (`uid`): items are keyed by `(feed_url, guid)` only;
  - auto-tag and export watermarks;
  - a feed tier column and `last_fetch_ts`;
  - rejecting a source list that names a url twice: `upsert_feeds` lets the last source win;
  - per-feed new-item counts taken from item totals: the code prints `total_changes`;
  - a force flag for archiving starred items: starred items are never archived.
- Behaviour of the code that the model keeps as written:
  - `cmd_list` adds the `read = 1` clause twice;
  - `archive source --undo` does not restore items;
  - `archive date` neither joins `feeds` nor skips deleted items;
  - `cmd_fetch` passes the raw `--group` value to `upsert_feeds`;
  - the discovery tool guesses for every page, including pages whose fetch failed.

## Findings

| source | as written | input that shows it | evidently intended | confidence | as-written member | corrected member |
|---|---|---|---|---|---|---|
| rssel.py:527-534 | each Atom lookup uses `find(ns) or find(plain)`. An ElementTree element is false when it has no children, so a found text-only element is skipped | an Atom entry whose only element is a namespaced `<id>urn:1</id>`: its guid is `None`, so it has no dedup key and is inserted again on every fetch | take the namespaced element whenever it is found (`is not None`) | not executed | `FeedParse.ParseFeed` over `FeedParse.ShapeAtomAsWritten` (shown by `FeedParse.ParseFeedIdLost`, `FeedParse.AtomIdLost` and `Store.NullGuidDuplicates`) | `FeedParse.ParseFeedIntended` over `FeedParse.ShapeAtom` (agreement on documents without the namespace: `FeedParse.ParseFeedAgrees`) |
| rssel.py:783 | `HAVING COUNT(DISTINCT t.name) = len(tag_list)` compares against the length of the list, repeats included | `list --tags ai,ai` on an item tagged `ai`: the distinct count is 1 but the list length is 2, so nothing is listed | the item carries every named tag (compare against the number of distinct names) | not executed | `Query.TagClauseAsWritten`, which `Query.TagClause` and `Query.ListItems` use (shown by `Query.RepeatedTagMisses`) | `Query.Holds` on `HasTags` (agreement without repeats: `Query.TagClauseAgrees`) |

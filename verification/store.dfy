/** The item store that rssel keeps in sqlite, as an in-memory value: feeds,
    feed-group links, items, tags and item-tag links, with the schema's constraints
    stated as `Valid`. This module holds the writers that fill it: `upsert_feeds`,
    the feed selection of `cmd_fetch`/`cmd_sync`, and the per-feed insert loop with
    its "insert or ignore" on `(feed_url, guid)` (rssel.py). */
module Store {
  import opened Wrappers
  import opened PyStr
  import Config
  import opened FeedParse

  /** A row of `feeds`: primary group, optional title, archived flag. */
  datatype Feed = Feed(grp: string, title: Option<string>, archived: bool)

  /** A row of `items`. */
  datatype Item = Item(
    feedUrl: string,
    guid: Option<string>,
    title: Option<string>,
    link: Option<string>,
    summary: Option<string>,
    content: Option<string>,
    publishedTs: int,
    createdTs: int,
    read: bool,
    starred: bool,
    deleted: bool)

  /** The whole database. Tags are identified by their (unique) names, so the
      `tags` id column is not represented; `nextId` is the AUTOINCREMENT counter. */
  datatype Db = Db(
    feeds: map<string, Feed>,
    feedGroups: set<(string, string)>,
    items: map<nat, Item>,
    nextId: nat,
    tags: set<string>,
    itemTags: set<(nat, string)>)

  const Empty: Db := Db(map[], {}, map[], 1, {}, {})

  /** The item with this id carries this `(feed_url, guid)` pair. */
  predicate KeyAt(db: Db, id: nat, feedUrl: string, guid: string) {
    id in db.items && db.items[id].feedUrl == feedUrl && db.items[id].guid == Some(guid)
  }

  /** Some item carries the `(feed_url, guid)` pair. */
  predicate HasKey(db: Db, feedUrl: string, guid: string) {
    exists id | id in db.items :: KeyAt(db, id, feedUrl, guid)
  }

  /** The schema's constraints: ids below the counter, foreign keys resolve, and
      `UNIQUE(feed_url, guid)` among items with a guid (sqlite lets any number of
      rows share a NULL guid). */
  ghost predicate Valid(db: Db) {
    && (forall id | id in db.items :: id < db.nextId)
    && (forall id | id in db.items :: db.items[id].feedUrl in db.feeds)
    && (forall p | p in db.feedGroups :: p.0 in db.feeds)
    && (forall p | p in db.itemTags :: p.0 in db.items && p.1 in db.tags)
    && (forall i, j, u, g | KeyAt(db, i, u, g) && KeyAt(db, j, u, g) :: i == j)
  }

  /** The names of the tags linked to an item. */
  function TagsOf(db: Db, id: nat): set<string> {
    set p | p in db.itemTags && p.0 == id :: p.1
  }

  lemma EmptyValid()
    ensures Valid(Empty)
  {
  }

  // ---------------- upsert_feeds ----------------

  /** A configured source as `upsert_feeds` reads it; an empty url means none. */
  datatype FeedSpec = FeedSpec(url: string, title: Option<string>, groups: seq<string>)

  /** A source with a string url, as the sources file gives it; other url or title
      values are not represented. */
  function SpecOf(e: Config.SourceEntry): Option<FeedSpec> {
    if e.url.JStr? then
      Some(FeedSpec(e.url.s, if e.title.JStr? then Some(e.title.s) else None, e.groups))
    else None
  }

  /** The first group is primary; a source with none is "ungrouped". */
  function Primary(e: FeedSpec): string {
    if |e.groups| > 0 then e.groups[0] else "ungrouped"
  }

  /** The source is written: it has a url and, under `--group G`, lists G. */
  predicate Accepted(e: FeedSpec, onlyGroup: Option<string>) {
    e.url != [] && (!Truthy(onlyGroup) || onlyGroup.value in e.groups)
  }

  /** The `feed_groups` rows one accepted source adds. */
  function LinksOf(e: FeedSpec, onlyGroup: Option<string>): set<(string, string)> {
    var gs := if |e.groups| > 0 then e.groups else [Primary(e)];
    set g | g in gs && (!Truthy(onlyGroup) || g == onlyGroup.value) :: (e.url, g)
  }

  /** One pass of the `upsert_feeds` loop: insert the feed, or on conflict replace its
      primary group and keep its old title when the new one is `None`. */
  function UpsertOne(db: Db, e: FeedSpec, onlyGroup: Option<string>): (r: Db)
    ensures r.items == db.items && r.nextId == db.nextId && r.tags == db.tags && r.itemTags == db.itemTags
    ensures Accepted(e, onlyGroup) ==> e.url in r.feeds && r.feeds[e.url].grp == Primary(e)
    ensures forall u | u in db.feeds && u != e.url :: u in r.feeds && r.feeds[u] == db.feeds[u]
    ensures r.feeds.Keys <= db.feeds.Keys + {e.url}
    ensures db.feedGroups <= r.feedGroups
    ensures Accepted(e, onlyGroup) ==> r.feedGroups == db.feedGroups + LinksOf(e, onlyGroup)
    ensures Accepted(e, onlyGroup) && e.title.Some? ==> r.feeds[e.url].title == e.title
    ensures Accepted(e, onlyGroup) && e.title.None? ==>
      r.feeds[e.url].title == (if e.url in db.feeds then db.feeds[e.url].title else None)
    ensures Accepted(e, onlyGroup) ==>
      r.feeds[e.url].archived == (e.url in db.feeds && db.feeds[e.url].archived)
    ensures !Accepted(e, onlyGroup) ==> r == db
  {
    if !Accepted(e, onlyGroup) then db
    else
      var f := if e.url in db.feeds then
          Feed(Primary(e), if e.title.Some? then e.title else db.feeds[e.url].title, db.feeds[e.url].archived)
        else Feed(Primary(e), e.title, false);
      db.(feeds := db.feeds[e.url := f], feedGroups := db.feedGroups + LinksOf(e, onlyGroup))
  }

  /** `upsert_feeds`: every source in order (written as a fold from the last one). */
  function UpsertFeeds(db: Db, es: seq<FeedSpec>, onlyGroup: Option<string>): (r: Db)
    ensures r.items == db.items && r.nextId == db.nextId && r.tags == db.tags && r.itemTags == db.itemTags
    ensures db.feeds.Keys <= r.feeds.Keys
    ensures db.feedGroups <= r.feedGroups
  {
    if |es| == 0 then db
    else UpsertOne(UpsertFeeds(db, es[..|es| - 1], onlyGroup), es[|es| - 1], onlyGroup)
  }

  /** The last accepted source for `u`, if any. */
  function LastFor(es: seq<FeedSpec>, onlyGroup: Option<string>, u: string): (r: Option<FeedSpec>)
    ensures r.Some? ==> r.value in es && r.value.url == u && Accepted(r.value, onlyGroup)
  {
    if |es| == 0 then None
    else if es[|es| - 1].url == u && Accepted(es[|es| - 1], onlyGroup) then Some(es[|es| - 1])
    else LastFor(es[..|es| - 1], onlyGroup, u)
  }

  /** The last title given by an accepted source for `u`, if any. */
  function LastTitleFor(es: seq<FeedSpec>, onlyGroup: Option<string>, u: string): Option<string> {
    if |es| == 0 then None
    else if es[|es| - 1].url == u && Accepted(es[|es| - 1], onlyGroup) && es[|es| - 1].title.Some? then es[|es| - 1].title
    else LastTitleFor(es[..|es| - 1], onlyGroup, u)
  }

  /** The `feed_groups` rows all accepted sources add. */
  function AllLinks(es: seq<FeedSpec>, onlyGroup: Option<string>): set<(string, string)> {
    if |es| == 0 then {}
    else AllLinks(es[..|es| - 1], onlyGroup) + (if Accepted(es[|es| - 1], onlyGroup) then LinksOf(es[|es| - 1], onlyGroup) else {})
  }

  /** What `upsert_feeds` leaves for feed `u`: the primary group of the last source
      for it, the last title given (else the title it had), and its archived flag as
      it was (a new feed starts unarchived). */
  function Expected(db: Db, es: seq<FeedSpec>, onlyGroup: Option<string>, u: string): Option<Feed> {
    match LastFor(es, onlyGroup, u)
    case None => if u in db.feeds then Some(db.feeds[u]) else None
    case Some(e) =>
      var t := LastTitleFor(es, onlyGroup, u);
      var prev := if u in db.feeds then db.feeds[u].title else None;
      Some(Feed(Primary(e), if t.Some? then t else prev, u in db.feeds && db.feeds[u].archived))
  }

  /** The result of `upsert_feeds`, feed by feed and link by link. */
  lemma UpsertFeedsResult(db: Db, es: seq<FeedSpec>, onlyGroup: Option<string>, u: string)
    ensures var r := UpsertFeeds(db, es, onlyGroup);
      && (u in r.feeds <==> Expected(db, es, onlyGroup, u).Some?)
      && (u in r.feeds ==> r.feeds[u] == Expected(db, es, onlyGroup, u).value)
      && r.feedGroups == db.feedGroups + AllLinks(es, onlyGroup)
  {
    UpsertFeedsFeed(db, es, onlyGroup, u);
    UpsertFeedsLinks(db, es, onlyGroup);
  }

  lemma {:induction false} UpsertFeedsFeed(db: Db, es: seq<FeedSpec>, onlyGroup: Option<string>, u: string)
    ensures var r := UpsertFeeds(db, es, onlyGroup);
      && (u in r.feeds <==> Expected(db, es, onlyGroup, u).Some?)
      && (u in r.feeds ==> r.feeds[u] == Expected(db, es, onlyGroup, u).value)
  {
    if |es| > 0 {
      var pre := es[..|es| - 1];
      var e := es[|es| - 1];
      UpsertFeedsFeed(db, pre, onlyGroup, u);
      var m := UpsertFeeds(db, pre, onlyGroup);
      if e.url == u && Accepted(e, onlyGroup) {
        LastTitleHasSource(pre, onlyGroup, u);
        assert LastFor(es, onlyGroup, u) == Some(e);
        var r := UpsertOne(m, e, onlyGroup);
        assert u in m.feeds ==> m.feeds[u].archived == (u in db.feeds && db.feeds[u].archived);
        var t := LastTitleFor(pre, onlyGroup, u);
        var prev := if u in db.feeds then db.feeds[u].title else None;
        assert u in m.feeds ==> m.feeds[u].title == if t.Some? then t else prev;
      } else {
        assert LastFor(es, onlyGroup, u) == LastFor(pre, onlyGroup, u);
        assert LastTitleFor(es, onlyGroup, u) == LastTitleFor(pre, onlyGroup, u);
      }
    }
  }

  lemma {:induction false} UpsertFeedsLinks(db: Db, es: seq<FeedSpec>, onlyGroup: Option<string>)
    ensures UpsertFeeds(db, es, onlyGroup).feedGroups == db.feedGroups + AllLinks(es, onlyGroup)
  {
    if |es| > 0 {
      UpsertFeedsLinks(db, es[..|es| - 1], onlyGroup);
    }
  }

  /** A title is only ever taken from an accepted source. */
  lemma {:induction false} LastTitleHasSource(es: seq<FeedSpec>, onlyGroup: Option<string>, u: string)
    ensures LastTitleFor(es, onlyGroup, u).Some? ==> LastFor(es, onlyGroup, u).Some?
  {
    if |es| > 0 {
      LastTitleHasSource(es[..|es| - 1], onlyGroup, u);
    }
  }

  /** Writing the same sources twice is writing them once. */
  lemma UpsertFeedsIdempotent(db: Db, es: seq<FeedSpec>, onlyGroup: Option<string>)
    ensures UpsertFeeds(UpsertFeeds(db, es, onlyGroup), es, onlyGroup) == UpsertFeeds(db, es, onlyGroup)
  {
    var r1 := UpsertFeeds(db, es, onlyGroup);
    var r2 := UpsertFeeds(r1, es, onlyGroup);
    forall u
      ensures (u in r2.feeds <==> u in r1.feeds) && (u in r1.feeds ==> r2.feeds[u] == r1.feeds[u])
    {
      UpsertFeedsResult(db, es, onlyGroup, u);
      UpsertFeedsResult(r1, es, onlyGroup, u);
    }
    UpsertFeedsResult(db, es, onlyGroup, "");
    UpsertFeedsResult(r1, es, onlyGroup, "");
    assert r2.feeds == r1.feeds;
  }

  /** Writing sources keeps the store's constraints. */
  lemma {:induction false} UpsertFeedsValid(db: Db, es: seq<FeedSpec>, onlyGroup: Option<string>)
    requires Valid(db)
    ensures Valid(UpsertFeeds(db, es, onlyGroup))
  {
    if |es| > 0 {
      UpsertFeedsValid(db, es[..|es| - 1], onlyGroup);
      var m := UpsertFeeds(db, es[..|es| - 1], onlyGroup);
      var r := UpsertOne(m, es[|es| - 1], onlyGroup);
      assert forall i, u, g | KeyAt(r, i, u, g) :: KeyAt(m, i, u, g);
    }
  }

  // ---------------- feed selection ----------------

  /** The feeds `cmd_fetch` fetches: the unarchived ones, and under `--group` only
      those linked to one of the listed groups (the raw argument itself when it lists
      none). */
  function FetchSelection(db: Db, group: Option<string>): (r: set<string>)
    ensures forall u | u in r :: u in db.feeds && !db.feeds[u].archived
    ensures !Truthy(group) ==> r == set u | u in db.feeds && !db.feeds[u].archived
  {
    if !Truthy(group) then set u | u in db.feeds && !db.feeds[u].archived
    else
      var glist := Config.ParseGroupsArg(group);
      var wanted := if glist != [] then glist else [group.value];
      set p | p in db.feedGroups && p.1 in wanted && p.0 in db.feeds && !db.feeds[p.0].archived :: p.0
  }

  /** Under `--group`, a feed is fetched exactly when it is unarchived and linked to
      one of the requested groups. */
  lemma FetchSelectionByGroup(db: Db, group: Option<string>, u: string)
    requires Truthy(group) && Config.ParseGroupsArg(group) != []
    ensures u in FetchSelection(db, group) <==>
      u in db.feeds && !db.feeds[u].archived && exists g :: g in Config.ParseGroupsArg(group) && (u, g) in db.feedGroups
  {
    var glist := Config.ParseGroupsArg(group);
    if u in db.feeds && !db.feeds[u].archived && exists g :: g in glist && (u, g) in db.feedGroups {
      var g :| g in glist && (u, g) in db.feedGroups;
      assert (u, g).0 == u;
    }
  }

  // ---------------- insert or ignore ----------------

  /** The row inserted for an entry fetched at `now`: unread, unstarred, not deleted,
      stamped `now`, and dated `now` when the entry has no (non-zero) date. */
  function NewItem(feedUrl: string, e: Entry, now: int): Item {
    Item(feedUrl, e.guid, e.title, e.link, e.summary, e.content,
         if e.publishedTs != 0 then e.publishedTs else now, now, false, false, false)
  }

  /** `INSERT OR IGNORE INTO items`: nothing happens when an item of this feed already
      has the entry's guid; otherwise a row is added under the next id. */
  function InsertOrIgnore(db: Db, feedUrl: string, e: Entry, now: int): (r: Db)
    ensures r.feeds == db.feeds && r.feedGroups == db.feedGroups && r.tags == db.tags && r.itemTags == db.itemTags
    ensures e.guid.Some? && HasKey(db, feedUrl, e.guid.value) ==> r == db
    ensures !(e.guid.Some? && HasKey(db, feedUrl, e.guid.value)) ==>
      r.items == db.items[db.nextId := NewItem(feedUrl, e, now)] && r.nextId == db.nextId + 1
  {
    if e.guid.Some? && HasKey(db, feedUrl, e.guid.value) then db
    else db.(items := db.items[db.nextId := NewItem(feedUrl, e, now)], nextId := db.nextId + 1)
  }

  /** The insert loop of `cmd_fetch`/`cmd_sync` for one fetched feed. */
  function Ingest(db: Db, feedUrl: string, es: seq<Entry>, now: int): (r: Db)
    ensures r.feeds == db.feeds && r.feedGroups == db.feedGroups && r.tags == db.tags && r.itemTags == db.itemTags
    ensures db.nextId <= r.nextId
    decreases |es|
  {
    if |es| == 0 then db
    else Ingest(InsertOrIgnore(db, feedUrl, es[0], now), feedUrl, es[1..], now)
  }

  lemma InsertOrIgnoreValid(db: Db, feedUrl: string, e: Entry, now: int)
    requires Valid(db) && feedUrl in db.feeds
    ensures Valid(InsertOrIgnore(db, feedUrl, e, now))
  {
    var r := InsertOrIgnore(db, feedUrl, e, now);
    if r != db {
      forall i, j, u, g | KeyAt(r, i, u, g) && KeyAt(r, j, u, g)
        ensures i == j
      {
        if i != db.nextId {
          assert KeyAt(db, i, u, g);
        }
        if j != db.nextId {
          assert KeyAt(db, j, u, g);
        }
      }
    }
  }

  /** Ingesting a feed keeps the store's constraints: in particular no two items of
      a feed ever share a guid. */
  lemma {:induction false} IngestValid(db: Db, feedUrl: string, es: seq<Entry>, now: int)
    requires Valid(db) && feedUrl in db.feeds
    ensures Valid(Ingest(db, feedUrl, es, now))
    decreases |es|
  {
    if |es| > 0 {
      InsertOrIgnoreValid(db, feedUrl, es[0], now);
      IngestValid(InsertOrIgnore(db, feedUrl, es[0], now), feedUrl, es[1..], now);
    }
  }

  /** Ingestion only adds: every item that was there stays as it was, each new item
      belongs to the fetched feed and starts unread, unstarred and not deleted, and
      at most one item is added per entry. */
  lemma {:induction false} IngestOnlyAdds(db: Db, feedUrl: string, es: seq<Entry>, now: int)
    requires Valid(db) && feedUrl in db.feeds
    ensures var r := Ingest(db, feedUrl, es, now);
      && (forall id | id in db.items :: id in r.items && r.items[id] == db.items[id])
      && (forall id | id in r.items && id !in db.items ::
            r.items[id].feedUrl == feedUrl && r.items[id].createdTs == now
            && !r.items[id].read && !r.items[id].starred && !r.items[id].deleted)
      && |r.items| <= |db.items| + |es|
    decreases |es|
  {
    if |es| > 0 {
      var m := InsertOrIgnore(db, feedUrl, es[0], now);
      if m != db {
        assert db.nextId !in db.items;
        assert m.items.Keys == db.items.Keys + {db.nextId};
      }
      InsertOrIgnoreValid(db, feedUrl, es[0], now);
      IngestOnlyAdds(m, feedUrl, es[1..], now);
    }
  }

  /** After ingesting, every entry that has a guid is present for its feed. */
  lemma {:induction false} IngestRecordsKeys(db: Db, feedUrl: string, es: seq<Entry>, now: int)
    requires Valid(db) && feedUrl in db.feeds
    ensures forall k | 0 <= k < |es| && es[k].guid.Some? :: HasKey(Ingest(db, feedUrl, es, now), feedUrl, es[k].guid.value)
    decreases |es|
  {
    if |es| > 0 {
      var m := InsertOrIgnore(db, feedUrl, es[0], now);
      InsertOrIgnoreValid(db, feedUrl, es[0], now);
      IngestRecordsKeys(m, feedUrl, es[1..], now);
      if es[0].guid.Some? {
        var g := es[0].guid.value;
        assert HasKey(m, feedUrl, g) by {
          if !HasKey(db, feedUrl, g) {
            assert KeyAt(m, db.nextId, feedUrl, g);
          }
        }
        IngestKeepsKey(m, feedUrl, es[1..], now, feedUrl, g);
        assert Ingest(db, feedUrl, es, now) == Ingest(m, feedUrl, es[1..], now);
      }
      forall k | 1 <= k < |es| && es[k].guid.Some?
        ensures HasKey(Ingest(db, feedUrl, es, now), feedUrl, es[k].guid.value)
      {
        assert es[1..][k - 1] == es[k];
      }
    }
  }

  /** A key present before ingesting is present after. */
  lemma {:induction false} IngestKeepsKey(db: Db, feedUrl: string, es: seq<Entry>, now: int, u: string, g: string)
    requires Valid(db) && feedUrl in db.feeds
    requires HasKey(db, u, g)
    ensures HasKey(Ingest(db, feedUrl, es, now), u, g)
    decreases |es|
  {
    if |es| > 0 {
      var m := InsertOrIgnore(db, feedUrl, es[0], now);
      var id: nat :| KeyAt(db, id, u, g);
      if m != db {
        assert id < db.nextId;
        assert KeyAt(m, id, u, g);
      }
      InsertOrIgnoreValid(db, feedUrl, es[0], now);
      IngestKeepsKey(m, feedUrl, es[1..], now, u, g);
    }
  }

  /** Entries that are all already present change nothing. */
  lemma {:induction false} IngestPresentIsNoop(db: Db, feedUrl: string, es: seq<Entry>, now: int)
    requires forall k | 0 <= k < |es| :: es[k].guid.Some? && HasKey(db, feedUrl, es[k].guid.value)
    ensures Ingest(db, feedUrl, es, now) == db
    decreases |es|
  {
    if |es| > 0 {
      IngestPresentIsNoop(db, feedUrl, es[1..], now);
    }
  }

  /** Idempotent ingestion: fetching the same entries again, at any time, adds
      nothing, as long as every entry has a guid (an entry whose guid, link and title
      are all missing is inserted afresh every time, see `NullGuidDuplicates`). */
  lemma IngestIdempotent(db: Db, feedUrl: string, es: seq<Entry>, now: int, later: int)
    requires Valid(db) && feedUrl in db.feeds
    requires forall k | 0 <= k < |es| :: es[k].guid.Some?
    ensures var r := Ingest(db, feedUrl, es, now);
      Ingest(r, feedUrl, es, later) == r
  {
    IngestRecordsKeys(db, feedUrl, es, now);
    IngestPresentIsNoop(Ingest(db, feedUrl, es, now), feedUrl, es, later);
  }

  /** Without a guid there is no dedup: the same entry ingested twice becomes two items. */
  lemma NullGuidDuplicates(db: Db, feedUrl: string, e: Entry, now: int)
    requires Valid(db) && e.guid.None?
    ensures |Ingest(db, feedUrl, [e, e], now).items| == |db.items| + 2
  {
    var m := InsertOrIgnore(db, feedUrl, e, now);
    InsertWithoutGuid(db, feedUrl, e, now);
    InsertWithoutGuid(m, feedUrl, e, now);
    var r := InsertOrIgnore(m, feedUrl, e, now);
    assert [e, e][1..] == [e] && [e][1..] == [];
    assert Ingest(db, feedUrl, [e, e], now) == Ingest(m, feedUrl, [e], now);
    assert Ingest(m, feedUrl, [e], now) == Ingest(r, feedUrl, [], now) == r;
  }

  /** An entry without a guid always adds a row under a fresh id. */
  lemma InsertWithoutGuid(db: Db, feedUrl: string, e: Entry, now: int)
    requires forall id | id in db.items :: id < db.nextId
    requires e.guid.None?
    ensures var r := InsertOrIgnore(db, feedUrl, e, now);
      |r.items| == |db.items| + 1 && forall id | id in r.items :: id < r.nextId
  {
    var r := InsertOrIgnore(db, feedUrl, e, now);
    assert db.nextId !in db.items;
    assert r.items.Keys == db.items.Keys + {db.nextId};
  }

  /** A fresh feed: entries with distinct guids, none seen before, each become an item. */
  lemma {:induction false} IngestFresh(db: Db, feedUrl: string, es: seq<Entry>, now: int)
    requires Valid(db) && feedUrl in db.feeds
    requires forall k | 0 <= k < |es| :: es[k].guid.Some? && !HasKey(db, feedUrl, es[k].guid.value)
    requires forall i, j | 0 <= i < j < |es| :: es[i].guid != es[j].guid
    ensures |Ingest(db, feedUrl, es, now).items| == |db.items| + |es|
    decreases |es|
  {
    if |es| > 0 {
      var m := InsertOrIgnore(db, feedUrl, es[0], now);
      assert db.nextId !in db.items;
      assert m.items.Keys == db.items.Keys + {db.nextId};
      InsertOrIgnoreValid(db, feedUrl, es[0], now);
      forall k | 0 <= k < |es[1..]|
        ensures es[1..][k].guid.Some? && !HasKey(m, feedUrl, es[1..][k].guid.value)
      {
        assert es[1..][k] == es[k + 1];
      }
      IngestFresh(m, feedUrl, es[1..], now);
    }
  }

  // ---------------- fetch loop ----------------

  /** What fetching and parsing one feed gave: its entries; a `URLError` or
      `HTTPError`, which `http_get` catches and which skips the feed; or any other
      exception (a stored url without a scheme, a timeout while reading), which
      `http_get` lets through and which ends `cmd_fetch` with a traceback. */
  datatype Payload = Got(entries: seq<Entry>) | Skipped | Raised

  /** Where the fetch loop ended: the store as committed, and the url whose fetch
      raised, if one did. */
  datatype FetchRun = FetchRun(db: Db, raisedAt: Option<string>)

  /** The fetch loop over the selected feeds in the order the store lists them:
      `payloads[k]` is what fetching and parsing `urls[k]` gave and `nows[k]` the clock
      at that moment. Each feed's items are committed before the next fetch, so a
      raise keeps the items of the feeds before it. */
  function FetchAll(db: Db, urls: seq<string>, payloads: seq<Payload>, nows: seq<int>): (r: FetchRun)
    requires |payloads| == |urls| && |nows| == |urls|
    ensures r.db.feeds == db.feeds && r.db.feedGroups == db.feedGroups && r.db.tags == db.tags && r.db.itemTags == db.itemTags
    ensures r.raisedAt.None? <==> forall k | 0 <= k < |urls| :: !payloads[k].Raised?
    ensures r.raisedAt.Some? ==>
      exists k | 0 <= k < |urls| :: urls[k] == r.raisedAt.value && payloads[k].Raised?
        && forall j | 0 <= j < k :: !payloads[j].Raised?
    decreases |urls|
  {
    if |urls| == 0 then FetchRun(db, None)
    else
      match payloads[0]
      case Raised => FetchRun(db, Some(urls[0]))
      case Skipped => FetchAll(db, urls[1..], payloads[1..], nows[1..])
      case Got(es) => FetchAll(Ingest(db, urls[0], es, nows[0]), urls[1..], payloads[1..], nows[1..])
  }

  /** The fetch loop keeps the schema's constraints when every url it fetches is a
      feed of the store, as the selection guarantees. */
  lemma {:induction false} FetchAllValid(db: Db, urls: seq<string>, payloads: seq<Payload>, nows: seq<int>)
    requires |payloads| == |urls| && |nows| == |urls|
    requires Valid(db) && forall k | 0 <= k < |urls| :: urls[k] in db.feeds
    ensures Valid(FetchAll(db, urls, payloads, nows).db)
    decreases |urls|
  {
    if |urls| > 0 && !payloads[0].Raised? {
      var m := if payloads[0].Got? then Ingest(db, urls[0], payloads[0].entries, nows[0]) else db;
      if payloads[0].Got? { IngestValid(db, urls[0], payloads[0].entries, nows[0]); }
      assert forall k | 0 <= k < |urls[1..]| :: urls[1..][k] == urls[k + 1];
      FetchAllValid(m, urls[1..], payloads[1..], nows[1..]);
    }
  }

  /** The fetch loop only adds items: every item already stored is kept as it was. */
  lemma {:induction false} FetchAllOnlyAdds(db: Db, urls: seq<string>, payloads: seq<Payload>, nows: seq<int>)
    requires |payloads| == |urls| && |nows| == |urls|
    requires Valid(db) && forall k | 0 <= k < |urls| :: urls[k] in db.feeds
    ensures var r := FetchAll(db, urls, payloads, nows).db;
      forall id | id in db.items :: id in r.items && r.items[id] == db.items[id]
    decreases |urls|
  {
    if |urls| > 0 && !payloads[0].Raised? {
      var m := if payloads[0].Got? then Ingest(db, urls[0], payloads[0].entries, nows[0]) else db;
      if payloads[0].Got? {
        IngestValid(db, urls[0], payloads[0].entries, nows[0]);
        IngestOnlyAdds(db, urls[0], payloads[0].entries, nows[0]);
      }
      assert forall k | 0 <= k < |urls[1..]| :: urls[1..][k] == urls[k + 1];
      FetchAllOnlyAdds(m, urls[1..], payloads[1..], nows[1..]);
    }
  }
}

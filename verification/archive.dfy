/** The archive and star commands (rssel.py `cmd_archive_id`, `cmd_archive_source`,
    `cmd_archive_group`, `cmd_archive_date`, `cmd_star`): they flip the `deleted`
    flag of items, the `archived` flag of feeds and the `starred` flag of items.
    Archiving never marks a starred item deleted. */
module Archive {
  import opened Wrappers
  import opened PyStr
  import opened Store
  import Config
  import Query

  /** Why an archive command refuses (it then returns 1 and writes nothing). */
  datatype ArchiveError =
    | NoSuchItem(id: nat)
    | ItemStarred(id: nat)
    | InvalidOn
    | NoRange

  // ---------------- flag updates ----------------

  /** `UPDATE items SET deleted = v WHERE id IN ids`. */
  function SetDeleted(db: Db, ids: set<nat>, v: bool): (r: Db)
    ensures r.items.Keys == db.items.Keys
    ensures forall id | id in db.items :: r.items[id] == (if id in ids then db.items[id].(deleted := v) else db.items[id])
    ensures r.feeds == db.feeds && r.feedGroups == db.feedGroups && r.nextId == db.nextId
    ensures r.tags == db.tags && r.itemTags == db.itemTags
  {
    db.(items := map id | id in db.items :: if id in ids then db.items[id].(deleted := v) else db.items[id])
  }

  /** `UPDATE items SET starred = v WHERE id IN ids`. */
  function SetStarred(db: Db, ids: set<nat>, v: bool): (r: Db)
    ensures r.items.Keys == db.items.Keys
    ensures forall id | id in db.items :: r.items[id] == (if id in ids then db.items[id].(starred := v) else db.items[id])
    ensures r.feeds == db.feeds && r.feedGroups == db.feedGroups && r.nextId == db.nextId
    ensures r.tags == db.tags && r.itemTags == db.itemTags
  {
    db.(items := map id | id in db.items :: if id in ids then db.items[id].(starred := v) else db.items[id])
  }

  /** `UPDATE feeds SET archived = v WHERE url IN urls`. */
  function SetArchived(db: Db, urls: set<string>, v: bool): (r: Db)
    ensures r.feeds.Keys == db.feeds.Keys
    ensures forall u | u in db.feeds :: r.feeds[u] == (if u in urls then db.feeds[u].(archived := v) else db.feeds[u])
    ensures r.items == db.items && r.feedGroups == db.feedGroups && r.nextId == db.nextId
    ensures r.tags == db.tags && r.itemTags == db.itemTags
  {
    db.(feeds := map u | u in db.feeds :: if u in urls then db.feeds[u].(archived := v) else db.feeds[u])
  }

  /** `r` differs from `db` at most in the `deleted` flags of items. */
  predicate OnlyDeletedFlags(db: Db, r: Db) {
    && r.items.Keys == db.items.Keys
    && (forall id | id in db.items :: r.items[id] == db.items[id].(deleted := r.items[id].deleted))
    && r.feedGroups == db.feedGroups && r.nextId == db.nextId && r.tags == db.tags && r.itemTags == db.itemTags
  }

  /** No starred item was touched. */
  predicate StarredKept(db: Db, r: Db)
    requires r.items.Keys == db.items.Keys
  {
    forall id | id in db.items && db.items[id].starred :: r.items[id] == db.items[id]
  }

  /** Archiving never newly deletes an item: `deleted` only goes from 0 to 1 on
      unstarred items. */
  predicate ArchivesOnlyUnstarred(db: Db, r: Db)
    requires r.items.Keys == db.items.Keys
  {
    forall id | id in db.items :: r.items[id].deleted != db.items[id].deleted ==>
      r.items[id].deleted && !db.items[id].starred
  }

  // ---------------- archive id ----------------

  /** `archive id`: restore with `undo` (a missing id is a no-op), otherwise refuse
      a missing or starred item and mark the item deleted. */
  function ArchiveId(db: Db, id: nat, undo: bool): (r: Result<Db, ArchiveError>)
    ensures undo ==> r.Ok?
    ensures !undo && id !in db.items ==> r == Err(NoSuchItem(id))
    ensures !undo && id in db.items && db.items[id].starred ==> r == Err(ItemStarred(id))
    ensures r.Ok? ==> OnlyDeletedFlags(db, r.value)
  {
    if undo then Ok(SetDeleted(db, {id}, false))
    else if id !in db.items then Err(NoSuchItem(id))
    else if db.items[id].starred then Err(ItemStarred(id))
    else Ok(SetDeleted(db, {id}, true))
  }

  /** Archiving by id marks that item deleted, touches nothing else, and never a
      starred item. */
  lemma ArchiveIdEffect(db: Db, id: nat)
    requires ArchiveId(db, id, false).Ok?
    ensures var r := ArchiveId(db, id, false).value;
      && id in db.items && !db.items[id].starred && r.items[id].deleted
      && (forall other | other in db.items && other != id :: r.items[other] == db.items[other])
      && StarredKept(db, r) && ArchivesOnlyUnstarred(db, r)
  {
  }

  /** Archiving an item and then restoring it gives back the store it started from. */
  lemma ArchiveIdUndo(db: Db, id: nat)
    requires id in db.items && !db.items[id].starred && !db.items[id].deleted
    ensures ArchiveId(db, id, false).Ok?
    ensures ArchiveId(ArchiveId(db, id, false).value, id, true) == Ok(db)
  {
    var r := ArchiveId(ArchiveId(db, id, false).value, id, true).value;
    assert r.items == db.items;
  }

  // ---------------- archive source / group ----------------

  /** The unstarred items of the given feeds. */
  function UnstarredOf(db: Db, urls: set<string>): set<nat> {
    set id | id in db.items && db.items[id].feedUrl in urls && !db.items[id].starred
  }

  /** `archive source`: set or clear the feed's archived flag; when archiving with
      `--delete-items`, also mark the feed's unstarred items deleted. Restoring a
      source does not restore its items. */
  function ArchiveSource(db: Db, url: string, undo: bool, deleteItems: bool): (r: Db)
    ensures r.feeds.Keys == db.feeds.Keys
    ensures url in db.feeds ==> r.feeds[url].archived == !undo
    ensures forall u | u in db.feeds && u != url :: r.feeds[u] == db.feeds[u]
    ensures OnlyDeletedFlags(db, r) && StarredKept(db, r) && ArchivesOnlyUnstarred(db, r)
    ensures undo || !deleteItems ==> r.items == db.items
  {
    if undo then SetArchived(db, {url}, false)
    else
      var a := SetArchived(db, {url}, true);
      if deleteItems then SetDeleted(a, UnstarredOf(db, {url}), true) else a
  }

  /** With `--delete-items`, exactly the source's unstarred items end up deleted
      (along with those that already were). */
  lemma ArchiveSourceDeletes(db: Db, url: string, id: nat)
    requires id in db.items
    ensures ArchiveSource(db, url, false, true).items[id].deleted
      <==> db.items[id].deleted || (db.items[id].feedUrl == url && !db.items[id].starred)
  {
  }

  /** The feeds of a group: `SELECT url FROM feed_groups WHERE grp = ?`. */
  function GroupUrls(db: Db, name: string): set<string> {
    set p | p in db.feedGroups && p.1 == name :: p.0
  }

  /** `archive group`: `archive source` for every feed of the group; an empty group
      changes nothing. */
  function ArchiveGroup(db: Db, name: string, undo: bool, deleteItems: bool): (r: Db)
    ensures GroupUrls(db, name) == {} ==> r == db
    ensures r.feeds.Keys == db.feeds.Keys
    ensures forall u | u in db.feeds :: r.feeds[u].archived == (if u in GroupUrls(db, name) then !undo else db.feeds[u].archived)
    ensures OnlyDeletedFlags(db, r) && StarredKept(db, r) && ArchivesOnlyUnstarred(db, r)
  {
    var urls := GroupUrls(db, name);
    if urls == {} then db
    else if undo then SetArchived(db, urls, false)
    else
      var a := SetArchived(db, urls, true);
      if deleteItems then SetDeleted(a, UnstarredOf(db, urls), true) else a
  }

  /** With `--delete-items`, exactly the unstarred items of the group's feeds end up
      deleted (along with those that already were). */
  lemma ArchiveGroupDeletes(db: Db, name: string, id: nat)
    requires id in db.items
    ensures ArchiveGroup(db, name, false, true).items[id].deleted
      <==> db.items[id].deleted || ((db.items[id].feedUrl, name) in db.feedGroups && !db.items[id].starred)
  {
    var urls := GroupUrls(db, name);
    if (db.items[id].feedUrl, name) in db.feedGroups {
      assert db.items[id].feedUrl in urls;
    }
  }

  // ---------------- archive date ----------------

  /** The options of `archive date`. */
  datatype DateArgs = DateArgs(
    since: Option<string>,
    until: Option<string>,
    on: Option<string>,
    dateField: Query.DateField,
    group: Option<string>,
    source: Option<string>,
    undo: bool)

  /** `_parse_date_arg`: an absent or empty argument has no time; `parseDate` parses
      the others (None when no format fits). */
  function DateArg(v: Option<string>, parseDate: string -> Option<int>): (r: Option<int>)
    ensures !Truthy(v) ==> r.None?
  {
    if Truthy(v) then parseDate(v.value) else None
  }

  /** The date clauses, or why there are none: an `--on` day that does not parse, or
      neither `--since` nor `--until` given. */
  function DateRange(a: DateArgs, parseDate: string -> Option<int>): (r: Result<seq<Query.Filter>, ArchiveError>)
    ensures Truthy(a.on) && parseDate(a.on.value).None? ==> r == Err(InvalidOn)
    ensures Truthy(a.on) && parseDate(a.on.value).Some? ==>
      r == Ok([Query.TsAtLeast(a.dateField, parseDate(a.on.value).value),
               Query.TsBefore(a.dateField, parseDate(a.on.value).value + 86400)])
    ensures !Truthy(a.on) ==> (r == Err(NoRange) <==> DateArg(a.since, parseDate).None? && DateArg(a.until, parseDate).None?)
    ensures r.Err? ==> r.error == InvalidOn || r.error == NoRange
    ensures !Truthy(a.on) && r.Ok? && DateArg(a.since, parseDate).Some? ==>
      Query.TsAtLeast(a.dateField, DateArg(a.since, parseDate).value) in r.value
    ensures !Truthy(a.on) && r.Ok? && DateArg(a.until, parseDate).Some? ==>
      Query.TsBefore(a.dateField, DateArg(a.until, parseDate).value) in r.value
    ensures !Truthy(a.on) && r.Ok? ==> forall f | f in r.value ::
      (DateArg(a.since, parseDate).Some? && f == Query.TsAtLeast(a.dateField, DateArg(a.since, parseDate).value))
      || (DateArg(a.until, parseDate).Some? && f == Query.TsBefore(a.dateField, DateArg(a.until, parseDate).value))
  {
    if Truthy(a.on) then
      match parseDate(a.on.value)
      case None => Err(InvalidOn)
      case Some(day) => Ok([Query.TsAtLeast(a.dateField, day), Query.TsBefore(a.dateField, day + 24 * 3600)])
    else
      var s := DateArg(a.since, parseDate);
      var u := DateArg(a.until, parseDate);
      if s.None? && u.None? then Err(NoRange)
      else Ok((if s.Some? then [Query.TsAtLeast(a.dateField, s.value)] else [])
              + (if u.Some? then [Query.TsBefore(a.dateField, u.value)] else []))
  }

  /** All the clauses of `archive date`: the dates, the groups (OR), the source. */
  function DateFilters(a: DateArgs, parseDate: string -> Option<int>, rowidUrl: int -> Option<string>): (r: Result<seq<Query.Filter>, ArchiveError>)
    ensures r.Err? <==> DateRange(a, parseDate).Err?
    ensures r.Ok? ==> DateRange(a, parseDate).value <= r.value
    ensures r.Ok? && Config.ParseGroupsArg(a.group) != [] ==> Query.InGroups(Config.ParseGroupsArg(a.group)) in r.value
    ensures r.Ok? && Truthy(a.source) ==> Query.FromFeed(Query.SourceUrl(a.source.value, rowidUrl)) in r.value
    ensures r.Ok? ==> forall f | f in r.value ::
      f in DateRange(a, parseDate).value
      || (Config.ParseGroupsArg(a.group) != [] && f == Query.InGroups(Config.ParseGroupsArg(a.group)))
      || (Truthy(a.source) && f == Query.FromFeed(Query.SourceUrl(a.source.value, rowidUrl)))
  {
    match DateRange(a, parseDate)
    case Err(e) => Err(e)
    case Ok(dates) => Ok(dates + ScopeFilters(a, rowidUrl))
  }

  /** The clauses after the dates: the groups (OR), then the source. */
  function ScopeFilters(a: DateArgs, rowidUrl: int -> Option<string>): seq<Query.Filter> {
    GroupFilter(a) + SourceFilter(a, rowidUrl)
  }

  function GroupFilter(a: DateArgs): seq<Query.Filter> {
    var glist := Config.ParseGroupsArg(a.group);
    if glist != [] then [Query.InGroups(glist)] else []
  }

  function SourceFilter(a: DateArgs, rowidUrl: int -> Option<string>): seq<Query.Filter> {
    if Truthy(a.source) then [Query.FromFeed(Query.SourceUrl(a.source.value, rowidUrl))] else []
  }

  /** The item passes every clause. Unlike the listing, this update does not join
      `feeds` and does not skip deleted items. */
  predicate Matches(db: Db, fs: seq<Query.Filter>, id: nat)
    requires id in db.items
  {
    forall k | 0 <= k < |fs| :: Query.Holds(db, id, fs[k])
  }

  /** `archive date`: restore (`undo`) or archive the matching items; archiving adds
      `starred = 0`. */
  function ArchiveDate(db: Db, a: DateArgs, parseDate: string -> Option<int>, rowidUrl: int -> Option<string>): (r: Result<Db, ArchiveError>)
    ensures r.Err? <==> DateRange(a, parseDate).Err?
    ensures r.Ok? ==> OnlyDeletedFlags(db, r.value)
    ensures r.Ok? && !a.undo ==> StarredKept(db, r.value) && ArchivesOnlyUnstarred(db, r.value)
  {
    match DateFilters(a, parseDate, rowidUrl)
    case Err(e) => Err(e)
    case Ok(fs) =>
      if a.undo then Ok(SetDeleted(db, set id | id in db.items && Matches(db, fs, id), false))
      else Ok(SetDeleted(db, set id | id in db.items && Matches(db, fs, id) && !db.items[id].starred, true))
  }

  /** Which items `archive date` deletes or restores. */
  lemma ArchiveDateEffect(db: Db, a: DateArgs, parseDate: string -> Option<int>, rowidUrl: int -> Option<string>, id: nat)
    requires ArchiveDate(db, a, parseDate, rowidUrl).Ok? && id in db.items
    ensures var fs := DateFilters(a, parseDate, rowidUrl).value;
      var r := ArchiveDate(db, a, parseDate, rowidUrl).value;
      && (!a.undo ==> (r.items[id].deleted <==> db.items[id].deleted || (Matches(db, fs, id) && !db.items[id].starred)))
      && (a.undo ==> (r.items[id].deleted <==> db.items[id].deleted && !Matches(db, fs, id)))
  {
  }

  lemma MatchesAppend(db: Db, xs: seq<Query.Filter>, ys: seq<Query.Filter>, id: nat)
    requires id in db.items
    ensures Matches(db, xs + ys, id) <==> Matches(db, xs, id) && Matches(db, ys, id)
  {
    if Matches(db, xs, id) && Matches(db, ys, id) {
      forall k | 0 <= k < |xs + ys|
        ensures Query.Holds(db, id, (xs + ys)[k])
      {
        if k >= |xs| { assert (xs + ys)[k] == ys[k - |xs|]; }
      }
    }
    if Matches(db, xs + ys, id) {
      forall k | 0 <= k < |xs|
        ensures Query.Holds(db, id, xs[k])
      {
        assert (xs + ys)[k] == xs[k];
      }
      forall k | 0 <= k < |ys|
        ensures Query.Holds(db, id, ys[k])
      {
        assert (xs + ys)[|xs| + k] == ys[k];
      }
    }
  }

  /** A list of at most one clause matches when its clause holds. */
  lemma MatchesOne(db: Db, fs: seq<Query.Filter>, f: Query.Filter, id: nat)
    requires id in db.items && (fs == [] || fs == [f])
    ensures Matches(db, fs, id) <==> (fs == [f] ==> Query.Holds(db, id, f))
  {
    if fs == [f] { assert fs[0] == f; }
  }

  /** The date window of `archive date` holds of a stamp `st`: within the `--on` day,
      or at or after `--since` and before `--until`. */
  predicate InRange(a: DateArgs, parseDate: string -> Option<int>, st: int) {
    && (Truthy(a.on) && parseDate(a.on.value).Some? ==>
          parseDate(a.on.value).value <= st < parseDate(a.on.value).value + 86400)
    && (!Truthy(a.on) && DateArg(a.since, parseDate).Some? ==> st >= DateArg(a.since, parseDate).value)
    && (!Truthy(a.on) && DateArg(a.until, parseDate).Some? ==> st < DateArg(a.until, parseDate).value)
  }

  /** The item's feed is in one of the `--group` groups and is the `--source` feed. */
  predicate InScope(db: Db, a: DateArgs, rowidUrl: int -> Option<string>, it: Item) {
    InGroupScope(db, a, it) && (Truthy(a.source) ==> it.feedUrl == Query.SourceUrl(a.source.value, rowidUrl))
  }

  predicate InGroupScope(db: Db, a: DateArgs, it: Item) {
    Config.ParseGroupsArg(a.group) != [] ==>
      exists g | g in Config.ParseGroupsArg(a.group) :: (it.feedUrl, g) in db.feedGroups
  }

  /** The date clauses match exactly the items whose stamp is in the range. */
  lemma DatesIff(db: Db, a: DateArgs, parseDate: string -> Option<int>, id: nat)
    requires DateRange(a, parseDate).Ok? && id in db.items
    ensures Matches(db, DateRange(a, parseDate).value, id) <==> InRange(a, parseDate, Query.Stamp(db.items[id], a.dateField))
  {
    var dates := DateRange(a, parseDate).value;
    if Truthy(a.on) {
      var day := parseDate(a.on.value).value;
      var lo := Query.TsAtLeast(a.dateField, day);
      var hi := Query.TsBefore(a.dateField, day + 86400);
      assert dates == [lo] + [hi];
      MatchesAppend(db, [lo], [hi], id);
      MatchesOne(db, [lo], lo, id);
      MatchesOne(db, [hi], hi, id);
    } else {
      var sv := DateArg(a.since, parseDate);
      var uv := DateArg(a.until, parseDate);
      var lo := Query.TsAtLeast(a.dateField, if sv.Some? then sv.value else 0);
      var hi := Query.TsBefore(a.dateField, if uv.Some? then uv.value else 0);
      var ls := if sv.Some? then [lo] else [];
      var us := if uv.Some? then [hi] else [];
      assert dates == ls + us;
      MatchesAppend(db, ls, us, id);
      MatchesOne(db, ls, lo, id);
      MatchesOne(db, us, hi, id);
    }
  }

  /** Which items the clauses of `archive date` match: exactly those stamped within the
      date range whose feed is in one of the `--group` groups and is the `--source`
      feed. */
  lemma MatchesIff(db: Db, a: DateArgs, parseDate: string -> Option<int>, rowidUrl: int -> Option<string>, id: nat)
    requires DateFilters(a, parseDate, rowidUrl).Ok? && id in db.items
    ensures Matches(db, DateFilters(a, parseDate, rowidUrl).value, id) <==>
      InRange(a, parseDate, Query.Stamp(db.items[id], a.dateField)) && InScope(db, a, rowidUrl, db.items[id])
  {
    var dates := DateRange(a, parseDate).value;
    assert DateFilters(a, parseDate, rowidUrl).value == dates + ScopeFilters(a, rowidUrl);
    MatchesAppend(db, dates, ScopeFilters(a, rowidUrl), id);
    DatesIff(db, a, parseDate, id);
    ScopeIff(db, a, rowidUrl, id);
  }

  /** The group and source clauses match exactly the items in scope. */
  lemma ScopeIff(db: Db, a: DateArgs, rowidUrl: int -> Option<string>, id: nat)
    requires id in db.items
    ensures Matches(db, ScopeFilters(a, rowidUrl), id) <==> InScope(db, a, rowidUrl, db.items[id])
  {
    MatchesAppend(db, GroupFilter(a), SourceFilter(a, rowidUrl), id);
    GroupIff(db, a, id);
    var src := Query.FromFeed(Query.SourceUrl(if Truthy(a.source) then a.source.value else [], rowidUrl));
    MatchesOne(db, SourceFilter(a, rowidUrl), src, id);
  }

  lemma GroupIff(db: Db, a: DateArgs, id: nat)
    requires id in db.items
    ensures Matches(db, GroupFilter(a), id) <==> InGroupScope(db, a, db.items[id])
  {
    MatchesOne(db, GroupFilter(a), Query.InGroups(Config.ParseGroupsArg(a.group)), id);
  }

  /** `archive date` in the options' own terms: archiving deletes exactly the unstarred
      items stamped within the range whose feed is in scope; undo restores exactly
      those items in range and scope. */
  lemma ArchiveDateDeletes(db: Db, a: DateArgs, parseDate: string -> Option<int>, rowidUrl: int -> Option<string>, id: nat)
    requires ArchiveDate(db, a, parseDate, rowidUrl).Ok? && id in db.items
    ensures var it := db.items[id];
      var hit := InRange(a, parseDate, Query.Stamp(it, a.dateField)) && InScope(db, a, rowidUrl, it);
      var r := ArchiveDate(db, a, parseDate, rowidUrl).value;
      && (!a.undo ==> (r.items[id].deleted <==> it.deleted || (hit && !it.starred)))
      && (a.undo ==> (r.items[id].deleted <==> it.deleted && !hit))
  {
    ArchiveDateEffect(db, a, parseDate, rowidUrl, id);
    MatchesIff(db, a, parseDate, rowidUrl, id);
  }

  /** An `--on` day restricts `archive date` to items stamped within that day. */
  lemma ArchiveDateOnDay(db: Db, a: DateArgs, parseDate: string -> Option<int>, rowidUrl: int -> Option<string>, id: nat, day: int)
    requires Truthy(a.on) && parseDate(a.on.value) == Some(day)
    requires id in db.items
    requires Matches(db, DateFilters(a, parseDate, rowidUrl).value, id)
    ensures day <= Query.Stamp(db.items[id], a.dateField) < day + 86400
  {
    var fs := DateFilters(a, parseDate, rowidUrl).value;
    assert fs[0] == Query.TsAtLeast(a.dateField, day);
    assert fs[1] == Query.TsBefore(a.dateField, day + 86400);
    assert Query.Holds(db, id, fs[0]) && Query.Holds(db, id, fs[1]);
  }

  // ---------------- star ----------------

  /** `star` (`--undo` to unstar): set or clear the flag of the listed ids; ids
      without an item are ignored. */
  function Star(db: Db, ids: seq<nat>, undo: bool): (r: Db)
    ensures r.items.Keys == db.items.Keys
    ensures forall id | id in db.items :: r.items[id].starred == (if id in ids then !undo else db.items[id].starred)
    ensures forall id | id in db.items :: r.items[id] == db.items[id].(starred := r.items[id].starred)
  {
    SetStarred(db, set i | i in ids, !undo)
  }

  /** A starred item cannot be archived by id until it is unstarred. */
  lemma StarProtects(db: Db, id: nat)
    requires id in db.items
    ensures ArchiveId(Star(db, [id], false), id, false) == Err(ItemStarred(id))
    ensures ArchiveId(Star(db, [id], true), id, false).Ok?
  {
  }
}

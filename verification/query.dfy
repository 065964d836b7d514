/** The item listing of `cmd_list` (rssel.py): the WHERE clauses it builds from its
    options, as a list of typed filters that must all hold, and the
    `ORDER BY published_ts DESC, id DESC` / `LIMIT` that shapes the result. SQL's
    `LIKE` is modelled as a pattern matcher. */
module Query {
  import opened Wrappers
  import opened PyStr
  import opened Sorting
  import Config
  import opened Store

  // ---------------- LIKE ----------------

  /** SQLite's `s LIKE pat`: `%` matches any run, `_` any one character, and other
      characters match ignoring ASCII case. */
  predicate Like(s: string, pat: string)
    decreases |s| + |pat|
  {
    if |pat| == 0 then |s| == 0
    else if pat[0] == '%' then Like(s, pat[1..]) || (|s| > 0 && Like(s[1..], pat))
    else if |s| == 0 then false
    else if pat[0] == '_' then Like(s[1..], pat[1..])
    else LowerChar(s[0]) == LowerChar(pat[0]) && Like(s[1..], pat[1..])
  }

  predicate NoWildcards(q: string) {
    forall i :: 0 <= i < |q| ==> q[i] != '%' && q[i] != '_'
  }

  lemma {:induction false} LikeAnything(s: string)
    ensures Like(s, "%")
    decreases |s|
  {
    if |s| > 0 {
      LikeAnything(s[1..]);
    }
  }

  /** `q%` matches exactly the texts that start with `q`, ignoring case. */
  lemma {:induction false} LikePrefix(s: string, q: string)
    requires NoWildcards(q)
    ensures Like(s, q + "%") <==> |q| <= |s| && Lower(s[..|q|]) == Lower(q)
    decreases |q|
  {
    if |q| == 0 {
      assert q + "%" == "%";
      LikeAnything(s);
    } else {
      assert (q + "%")[0] == q[0];
      assert (q + "%")[1..] == q[1..] + "%";
      if |s| > 0 {
        LikePrefix(s[1..], q[1..]);
        if |q| <= |s| {
          assert s[..|q|] == [s[0]] + s[1..][..|q| - 1];
          assert q == [q[0]] + q[1..];
          assert Lower(s[..|q|]) == [LowerChar(s[0])] + Lower(s[1..][..|q| - 1]);
          assert Lower(q) == [LowerChar(q[0])] + Lower(q[1..]);
        }
      }
    }
  }

  /** A leading `%` lets the rest of the pattern match any suffix. */
  lemma {:induction false} LikeSuffix(s: string, p: string)
    ensures Like(s, "%" + p) <==> exists i :: 0 <= i <= |s| && Like(s[i..], p)
    decreases |s|
  {
    assert ("%" + p)[0] == '%' && ("%" + p)[1..] == p;
    assert s[0..] == s;
    if |s| > 0 {
      LikeSuffix(s[1..], p);
      if exists i :: 0 <= i <= |s| && Like(s[i..], p) {
        var i :| 0 <= i <= |s| && Like(s[i..], p);
        if i > 0 {
          assert s[1..][i - 1..] == s[i..];
        }
      }
      if exists i :: 0 <= i <= |s[1..]| && Like(s[1..][i..], p) {
        var i :| 0 <= i <= |s[1..]| && Like(s[1..][i..], p);
        assert s[1..][i..] == s[i + 1..];
      }
    } else {
      assert s[0..] == s;
    }
  }

  lemma LowerSlice(s: string, i: nat, j: nat)
    requires i <= j <= |s|
    ensures Lower(s)[i..j] == Lower(s[i..j])
  {
  }

  /** `q%` matches the text from `i` on exactly when `q` occurs at `i`, ignoring case. */
  lemma LikeAt(s: string, q: string, i: nat)
    requires NoWildcards(q) && i <= |s|
    ensures Like(s[i..], q + "%") <==> OccursAt(Lower(s), Lower(q), i)
  {
    LikePrefix(s[i..], q);
    if i + |q| <= |s| {
      assert s[i..][..|q|] == s[i..i + |q|];
      LowerSlice(s, i, i + |q|);
    }
  }

  /** The search pattern `%q%` of `--query`: for a query without wildcards a text
      matches exactly when it contains the query, ignoring ASCII case. */
  lemma LikeContains(s: string, q: string)
    requires NoWildcards(q)
    ensures Like(s, "%" + q + "%") <==> Contains(Lower(s), Lower(q))
  {
    assert "%" + q + "%" == "%" + (q + "%");
    LikeSuffix(s, q + "%");
    if Like(s, "%" + q + "%") {
      var i :| 0 <= i <= |s| && Like(s[i..], q + "%");
      LikeAt(s, q, i);
    }
    if Contains(Lower(s), Lower(q)) {
      var i :| 0 <= i <= |Lower(s)| - |Lower(q)| && OccursAt(Lower(s), Lower(q), i);
      LikeAt(s, q, i);
    }
  }

  // ---------------- filters ----------------

  /** The timestamp the date options compare: `published_ts` or `created_ts`. */
  datatype DateField = Published | Created

  /** One WHERE clause of `cmd_list`. */
  datatype Filter =
    | NotDeleted
    | InGroups(groups: seq<string>)
    | FromFeed(url: string)
    | HasTags(tags: seq<string>)
    | TagCount(tags: seq<string>)
    | ReadIs(read: bool)
    | CreatedSince(cutoff: int)
    | TsAtLeast(field: DateField, ts: int)
    | TsBefore(field: DateField, ts: int)
    | TextLike(pattern: string)
    | StarredOnly

  function Stamp(it: Item, f: DateField): int {
    if f == Published then it.publishedTs else it.createdTs
  }

  /** Whether the item with id `id` passes one clause. `TagCount` is the tag clause
      as `cmd_list` writes it; `HasTags` is the all-tags match the option promises. */
  predicate Holds(db: Db, id: nat, f: Filter)
    requires id in db.items
  {
    var it := db.items[id];
    match f
    case NotDeleted => !it.deleted
    case InGroups(gs) => exists g | g in gs :: (it.feedUrl, g) in db.feedGroups
    case FromFeed(u) => it.feedUrl == u
    case HasTags(ts) => forall t | t in ts :: t in TagsOf(db, id)
    case TagCount(ts) => TagClauseAsWritten(db, id, ts)
    case ReadIs(b) => it.read == b
    case CreatedSince(c) => it.createdTs >= c
    case TsAtLeast(fd, t) => Stamp(it, fd) >= t
    case TsBefore(fd, t) => Stamp(it, fd) < t
    case TextLike(p) => (it.title.Some? && Like(it.title.value, p)) || (it.summary.Some? && Like(it.summary.value, p))
    case StarredOnly => it.starred
  }

  /** The row is in `items JOIN feeds` and passes every clause. */
  predicate Row(db: Db, fs: seq<Filter>, id: nat) {
    id in db.items && db.items[id].feedUrl in db.feeds && forall k | 0 <= k < |fs| :: Holds(db, id, fs[k])
  }

  /** The clause `HAVING COUNT(DISTINCT t.name) = len(tag_list)` as written: the
      number of distinct requested names the item carries equals the length of the
      requested list. */
  predicate TagClauseAsWritten(db: Db, id: nat, tags: seq<string>) {
    |TagsOf(db, id) * (set t | t in tags)| == |tags|
  }

  /** The discrepancy: a tag named twice (`--tags ai,ai`) makes the clause as written
      reject an item that carries the tag. */
  lemma RepeatedTagMisses(db: Db, id: nat)
    requires id in db.items && "ai" in TagsOf(db, id)
    ensures Holds(db, id, HasTags(["ai", "ai"]))
    ensures !TagClauseAsWritten(db, id, ["ai", "ai"])
  {
    assert (set t | t in ["ai", "ai"]) == {"ai"};
    assert TagsOf(db, id) * {"ai"} == {"ai"};
  }

  lemma CardMono<T>(a: set<T>, b: set<T>)
    requires a <= b
    ensures |a| <= |b|
    decreases |b|
  {
    if a != {} {
      var x :| x in a;
      CardMono(a - {x}, b - {x});
    }
  }

  lemma {:induction false} DistinctCard<T>(xs: seq<T>)
    requires NoDups(xs)
    ensures |set x | x in xs| == |xs|
  {
    if |xs| > 0 {
      DistinctCard(xs[1..]);
      assert (set x | x in xs) == {xs[0]} + (set x | x in xs[1..]);
      assert xs[0] !in xs[1..];
    }
  }

  /** A list has no more distinct elements than entries. */
  lemma {:induction false} SetCardAtMost<T>(xs: seq<T>)
    ensures |set x | x in xs| <= |xs|
  {
    if |xs| > 0 {
      SetCardAtMost(xs[1..]);
      assert (set x | x in xs) == {xs[0]} + (set x | x in xs[1..]);
    }
  }

  /** The clause as written never admits an item missing a named tag: it is at
      least as strict as the all-tags match. */
  lemma TagClauseAsWrittenHasAll(db: Db, id: nat, tags: seq<string>)
    requires id in db.items && TagClauseAsWritten(db, id, tags)
    ensures Holds(db, id, HasTags(tags))
  {
    var want := set t | t in tags;
    var have := TagsOf(db, id) * want;
    SetCardAtMost(tags);
    if !(want <= TagsOf(db, id)) {
      var t :| t in want && t !in TagsOf(db, id);
      CardMono(have, want - {t});
    }
  }

  /** Without repeated names the clause as written is the all-tags match. */
  lemma TagClauseAgrees(db: Db, id: nat, tags: seq<string>)
    requires id in db.items && NoDups(tags)
    ensures TagClauseAsWritten(db, id, tags) <==> Holds(db, id, HasTags(tags))
  {
    var want := set t | t in tags;
    DistinctCard(tags);
    var have := TagsOf(db, id) * want;
    if want <= TagsOf(db, id) {
      assert have == want;
    } else {
      var t :| t in want && t !in TagsOf(db, id);
      CardMono(have, want - {t});
    }
  }

  // ---------------- options ----------------

  /** The options of `list` that shape the query. `limit` 0 stands for no `--limit`. */
  datatype ListArgs = ListArgs(
    group: Option<string>,
    source: Option<string>,
    tags: Option<string>,
    unreadOnly: bool,
    readOnly: bool,
    isNew: bool,
    dateField: DateField,
    on: Option<string>,
    since: Option<string>,
    until: Option<string>,
    query: Option<string>,
    starOnly: bool,
    limit: int)

  /** The tag names of `--tags`: split on commas and whitespace, stripped, lower-cased. */
  function TagList(v: Option<string>): (r: seq<string>)
    ensures |r| == |Config.ParseGroupsArg(v)|
    ensures forall k :: 0 <= k < |r| ==> r[k] == Lower(Config.ParseGroupsArg(v)[k])
  {
    LowerAll(Config.ParseGroupsArg(v))
  }

  function LowerAll(xs: seq<string>): (r: seq<string>)
    ensures |r| == |xs|
    ensures forall k :: 0 <= k < |xs| ==> r[k] == Lower(xs[k])
  {
    if |xs| == 0 then [] else [Lower(xs[0])] + LowerAll(xs[1..])
  }

  /** The hours `--new` looks back: `int(new_hours)`, 24 when that fails. */
  function NewHours(v: string): int {
    match PyInt(v)
    case Some(h) => h
    case None => 24
  }

  /** The feed `--source` names: a feed's url when the value reads as an integer and
      a feed has that rowid (`rowidUrl`, the store's `SELECT url FROM feeds WHERE
      rowid = ?`) with a non-empty url, otherwise the value itself. */
  function SourceUrl(src: string, rowidUrl: int -> Option<string>): (r: string)
    ensures PyInt(src).None? ==> r == src
  {
    match PyInt(src)
    case None => src
    case Some(rid) => if Truthy(rowidUrl(rid)) then rowidUrl(rid).value else src
  }

  /** The date clauses: `--on` gives the day window `[day, day + 86400)` and then
      `--since`/`--until` are ignored even when the day does not parse. Otherwise
      `--since` gives a lower and `--until` an upper bound, each only when it parses. */
  function DateFilters(a: ListArgs, parseDate: string -> Option<int>): (r: seq<Filter>)
    ensures forall k | 0 <= k < |r| :: r[k].TsAtLeast? || r[k].TsBefore?
    ensures |r| <= 2
    ensures forall k | 0 <= k < |r| :: r[k].field == a.dateField
    ensures Truthy(a.on) ==> (r != [] <==> parseDate(a.on.value).Some?)
    ensures Truthy(a.on) && parseDate(a.on.value).Some? ==>
      TsAtLeast(a.dateField, parseDate(a.on.value).value) in r
      && TsBefore(a.dateField, parseDate(a.on.value).value + 86400) in r
    ensures Truthy(a.on) && parseDate(a.on.value).Some? ==> forall k | 0 <= k < |r| ::
      r[k].ts == if r[k].TsAtLeast? then parseDate(a.on.value).value else parseDate(a.on.value).value + 86400
    ensures !Truthy(a.on) && Truthy(a.since) && parseDate(a.since.value).Some? ==>
      TsAtLeast(a.dateField, parseDate(a.since.value).value) in r
    ensures !Truthy(a.on) && Truthy(a.until) && parseDate(a.until.value).Some? ==>
      TsBefore(a.dateField, parseDate(a.until.value).value) in r
    ensures !Truthy(a.on) ==> forall k | 0 <= k < |r| ::
      if r[k].TsAtLeast? then Truthy(a.since) && parseDate(a.since.value) == Some(r[k].ts)
      else Truthy(a.until) && parseDate(a.until.value) == Some(r[k].ts)
  {
    if Truthy(a.on) then
      match parseDate(a.on.value)
      case Some(day) => [TsAtLeast(a.dateField, day), TsBefore(a.dateField, day + 24 * 3600)]
      case None => []
    else
      (if Truthy(a.since) && parseDate(a.since.value).Some? then [TsAtLeast(a.dateField, parseDate(a.since.value).value)] else [])
      + (if Truthy(a.until) && parseDate(a.until.value).Some? then [TsBefore(a.dateField, parseDate(a.until.value).value)] else [])
  }

  /** `--group`: the item's feed is in one of the named groups. */
  function GroupClause(a: ListArgs): (r: seq<Filter>)
    ensures Config.ParseGroupsArg(a.group) != [] ==> r == [InGroups(Config.ParseGroupsArg(a.group))]
    ensures Config.ParseGroupsArg(a.group) == [] ==> r == []
  {
    var glist := Config.ParseGroupsArg(a.group);
    if glist != [] then [InGroups(glist)] else []
  }

  /** `--source`, unless it is the `__LIST__` placeholder. */
  function SourceClause(a: ListArgs, rowidUrl: int -> Option<string>): (r: seq<Filter>)
    ensures |r| <= 1 && forall k | 0 <= k < |r| :: r[k].FromFeed?
  {
    if Truthy(a.source) && a.source.value != "__LIST__" then [FromFeed(SourceUrl(a.source.value, rowidUrl))] else []
  }

  /** `--tags`: the item carries the named tags, counted as the SQL counts them. */
  function TagClause(a: ListArgs): (r: seq<Filter>)
    ensures Truthy(a.tags) && TagList(a.tags) != [] ==> r == [TagCount(TagList(a.tags))]
    ensures !(Truthy(a.tags) && TagList(a.tags) != []) ==> r == []
  {
    var tl := TagList(a.tags);
    if Truthy(a.tags) && tl != [] then [TagCount(tl)] else []
  }

  /** The clauses `cmd_list` appends first: not deleted, groups, source, tags. */
  function HeadFilters(a: ListArgs, rowidUrl: int -> Option<string>): (r: seq<Filter>)
    ensures |r| > 0 && r[0] == NotDeleted
    ensures Config.ParseGroupsArg(a.group) != [] ==> InGroups(Config.ParseGroupsArg(a.group)) in r
    ensures Truthy(a.source) && a.source.value != "__LIST__" ==> FromFeed(SourceUrl(a.source.value, rowidUrl)) in r
    ensures Truthy(a.tags) && TagList(a.tags) != [] ==> TagCount(TagList(a.tags)) in r
    ensures forall f | f in r :: HeadKind(f)
  {
    var g := GroupClause(a);
    var s := SourceClause(a, rowidUrl);
    var t := TagClause(a);
    assert forall f | f in g :: HeadKind(f);
    assert forall f | f in s :: HeadKind(f);
    assert forall f | f in t :: HeadKind(f);
    [NotDeleted] + g + s + t
  }

  /** The kinds of clause `HeadFilters` produces. */
  predicate HeadKind(f: Filter) {
    f.NotDeleted? || f.InGroups? || f.FromFeed? || f.TagCount?
  }

  /** The read clause: `--unread-only`, else `--read`. */
  function ReadFilter(a: ListArgs): (r: seq<Filter>)
    ensures a.unreadOnly ==> r == [ReadIs(false)]
    ensures !a.unreadOnly && a.readOnly ==> r == [ReadIs(true)]
    ensures !a.unreadOnly && !a.readOnly ==> r == []
  {
    if a.unreadOnly then [ReadIs(false)] else if a.readOnly then [ReadIs(true)] else []
  }

  /** The clauses on time and text: `--new`, the dates, `--query`. */
  function TimeFilters(a: ListArgs, newHours: string, now: int, parseDate: string -> Option<int>): (r: seq<Filter>)
    ensures a.isNew ==> CreatedSince(now - NewHours(newHours) * 3600) in r
    ensures Truthy(a.on) && parseDate(a.on.value).Some? ==>
      TsAtLeast(a.dateField, parseDate(a.on.value).value) in r
      && TsBefore(a.dateField, parseDate(a.on.value).value + 86400) in r
    ensures !Truthy(a.on) && Truthy(a.since) && parseDate(a.since.value).Some? ==>
      TsAtLeast(a.dateField, parseDate(a.since.value).value) in r
    ensures !Truthy(a.on) && Truthy(a.until) && parseDate(a.until.value).Some? ==>
      TsBefore(a.dateField, parseDate(a.until.value).value) in r
    ensures Truthy(a.query) ==> TextLike("%" + a.query.value + "%") in r
    ensures forall f | f in r && f.TextLike? :: Truthy(a.query) && f.pattern == "%" + a.query.value + "%"
    ensures forall f | f in r :: !f.ReadIs? && !f.StarredOnly?
  {
    (if a.isNew then [CreatedSince(now - NewHours(newHours) * 3600)] else [])
    + DateFilters(a, parseDate)
    + (if Truthy(a.query) then [TextLike("%" + a.query.value + "%")] else [])
  }

  /** The clauses appended last: `--read` again (unless `--unread-only`), `--star`. */
  function FlagFilters(a: ListArgs): (r: seq<Filter>)
    ensures ReadIs(true) in r <==> a.readOnly && !a.unreadOnly
    ensures a.starOnly ==> StarredOnly in r
    ensures ReadIs(false) !in r
  {
    (if a.readOnly && !a.unreadOnly then [ReadIs(true)] else [])
    + (if a.starOnly then [StarredOnly] else [])
  }

  /** The WHERE clauses of `cmd_list`, in the order it appends them. `newHours` is the
      config's `new_hours`, `now` the clock, `parseDate` stands for `_parse_date_arg`
      on a non-empty value. */
  function BuildFilters(a: ListArgs, newHours: string, now: int, parseDate: string -> Option<int>,
                        rowidUrl: int -> Option<string>): (r: seq<Filter>)
    ensures |r| > 0 && r[0] == NotDeleted
  {
    HeadFilters(a, rowidUrl) + ReadFilter(a) + TimeFilters(a, newHours, now, parseDate) + FlagFilters(a)
  }

  // ---------------- ordering and selection ----------------

  function Pub(db: Db, id: nat): int {
    if id in db.items then db.items[id].publishedTs else 0
  }

  /** `ORDER BY published_ts DESC, id DESC`: `a` is listed before `b`. */
  predicate Newer(db: Db, a: nat, b: nat) {
    Pub(db, a) > Pub(db, b) || (Pub(db, a) == Pub(db, b) && a > b)
  }

  function ByNewest(db: Db): (nat, nat) -> bool {
    (a: nat, b: nat) => Newer(db, a, b)
  }

  lemma NewestTotal(db: Db, xs: seq<nat>)
    ensures StrictTotalOn(ByNewest(db), xs)
  {
  }

  /** The ids from `lo` up to the counter whose rows pass, in increasing order. */
  function Candidates(db: Db, fs: seq<Filter>, lo: nat): (r: seq<nat>)
    ensures forall id :: id in r <==> lo <= id < db.nextId && Row(db, fs, id)
    ensures forall i, j | 0 <= i < j < |r| :: r[i] < r[j]
    decreases db.nextId - lo
  {
    if lo >= db.nextId then []
    else
      var rest := Candidates(db, fs, lo + 1);
      if Row(db, fs, lo) then ConsIncreasing(lo, rest); [lo] + rest else rest
  }

  lemma ConsIncreasing(lo: nat, rest: seq<nat>)
    requires forall x | x in rest :: lo < x
    requires forall i, j | 0 <= i < j < |rest| :: rest[i] < rest[j]
    ensures forall i, j | 0 <= i < j < |[lo] + rest| :: ([lo] + rest)[i] < ([lo] + rest)[j]
  {
    var r := [lo] + rest;
    forall i, j | 0 <= i < j < |r|
      ensures r[i] < r[j]
    {
      assert r[j] == rest[j - 1];
      if i > 0 {
        assert r[i] == rest[i - 1];
      } else {
        assert rest[j - 1] in rest;
      }
    }
  }

  /** `LIMIT n` when `--limit` was given as a non-zero value; SQLite reads a negative
      limit as no limit. */
  function Limit(xs: seq<nat>, n: int): (r: seq<nat>)
    ensures n <= 0 ==> r == xs
    ensures n > 0 ==> r == Take(xs, n)
    ensures |r| == if 0 < n < |xs| then n else |xs|
    ensures r == xs[..|r|]
  {
    if n <= 0 then xs else Take(xs, n)
  }

  /** The query: the rows passing every clause, newest first, limited. */
  function Select(db: Db, fs: seq<Filter>, limit: int): (r: seq<nat>)
    ensures forall k | 0 <= k < |r| :: Row(db, fs, r[k])
    ensures NoDups(r)
    ensures SortedBy(ByNewest(db), r)
    ensures limit > 0 ==> |r| <= limit
  {
    var c := Candidates(db, fs, 0);
    NewestTotal(db, c);
    var s := Sort(ByNewest(db), c);
    NewestTotal(db, s);
    SortedNoDups(ByNewest(db), s);
    assert forall k | 0 <= k < |s| :: s[k] in multiset(c);
    Limit(s, limit)
  }

  /** Without a limit the query returns every passing row; with one, a passing row
      is left out only when the limit is reached and every returned row is newer. */
  lemma SelectComplete(db: Db, fs: seq<Filter>, limit: int, id: nat)
    requires Valid(db) && Row(db, fs, id)
    ensures limit <= 0 ==> id in Select(db, fs, limit)
    ensures id !in Select(db, fs, limit) ==>
      |Select(db, fs, limit)| == limit && forall k | 0 <= k < limit :: Newer(db, Select(db, fs, limit)[k], id)
  {
    var c := Candidates(db, fs, 0);
    NewestTotal(db, c);
    var s := Sort(ByNewest(db), c);
    assert id in multiset(s);
    var y :| 0 <= y < |s| && s[y] == id;
    var r := Select(db, fs, limit);
    if id !in r {
      assert limit > 0 && r == Take(s, limit);
      assert !(y < |r|);
      forall k | 0 <= k < limit
        ensures Newer(db, r[k], id)
      {
        assert r[k] == s[k];
        assert ByNewest(db)(s[k], s[y]);
      }
    }
  }

  // ---------------- cmd_list ----------------

  /** The ids `cmd_list` prints, in order. */
  function ListItems(db: Db, a: ListArgs, newHours: string, now: int, parseDate: string -> Option<int>,
                     rowidUrl: int -> Option<string>): seq<nat>
  {
    Select(db, BuildFilters(a, newHours, now, parseDate, rowidUrl), a.limit)
  }

  /** A listed id is an item of a known feed that passes each clause. */
  lemma Listed(db: Db, fs: seq<Filter>, limit: int, id: nat, f: Filter)
    requires id in Select(db, fs, limit) && f in fs
    ensures id in db.items && db.items[id].feedUrl in db.feeds && Holds(db, id, f)
  {
    var r := Select(db, fs, limit);
    var k :| 0 <= k < |r| && r[k] == id;
    var j :| 0 <= j < |fs| && fs[j] == f;
  }

  /** Every listed item is not deleted, belongs to one of the `--group` groups, comes
      from the `--source` feed, and passes the `--tags` clause, so carries every
      named tag. */
  lemma ListItemsMatch(db: Db, a: ListArgs, newHours: string, now: int, parseDate: string -> Option<int>,
                       rowidUrl: int -> Option<string>, id: nat)
    requires id in ListItems(db, a, newHours, now, parseDate, rowidUrl)
    ensures id in db.items && db.items[id].feedUrl in db.feeds
    ensures !db.items[id].deleted
    ensures Config.ParseGroupsArg(a.group) != [] ==>
      exists g | g in Config.ParseGroupsArg(a.group) :: (db.items[id].feedUrl, g) in db.feedGroups
    ensures Truthy(a.source) && a.source.value != "__LIST__" ==>
      db.items[id].feedUrl == SourceUrl(a.source.value, rowidUrl)
    ensures Truthy(a.tags) && TagList(a.tags) != [] ==> TagClauseAsWritten(db, id, TagList(a.tags))
    ensures forall t | t in TagList(a.tags) :: t in TagsOf(db, id)
  {
    var fs := BuildFilters(a, newHours, now, parseDate, rowidUrl);
    Listed(db, fs, a.limit, id, NotDeleted);
    var glist := Config.ParseGroupsArg(a.group);
    if glist != [] {
      assert InGroups(glist) in fs;
      Listed(db, fs, a.limit, id, InGroups(glist));
    }
    if Truthy(a.source) && a.source.value != "__LIST__" {
      var src := FromFeed(SourceUrl(a.source.value, rowidUrl));
      assert src in fs;
      Listed(db, fs, a.limit, id, src);
    }
    if TagList(a.tags) != [] {
      assert Truthy(a.tags);
      assert TagCount(TagList(a.tags)) in fs;
      Listed(db, fs, a.limit, id, TagCount(TagList(a.tags)));
      TagClauseAsWrittenHasAll(db, id, TagList(a.tags));
    }
  }

  /** The read and star flags of the listed items. */
  lemma ListItemsFlags(db: Db, a: ListArgs, newHours: string, now: int, parseDate: string -> Option<int>,
                       rowidUrl: int -> Option<string>, id: nat)
    requires id in ListItems(db, a, newHours, now, parseDate, rowidUrl)
    ensures id in db.items
    ensures a.unreadOnly ==> !db.items[id].read
    ensures a.readOnly && !a.unreadOnly ==> db.items[id].read
    ensures a.starOnly ==> db.items[id].starred
    ensures a.isNew ==> db.items[id].createdTs >= now - NewHours(newHours) * 3600
  {
    var fs := BuildFilters(a, newHours, now, parseDate, rowidUrl);
    Listed(db, fs, a.limit, id, NotDeleted);
    if a.unreadOnly {
      assert ReadIs(false) in fs;
      Listed(db, fs, a.limit, id, ReadIs(false));
    } else if a.readOnly {
      assert ReadIs(true) in fs;
      Listed(db, fs, a.limit, id, ReadIs(true));
    }
    if a.starOnly {
      assert StarredOnly in fs;
      Listed(db, fs, a.limit, id, StarredOnly);
    }
    if a.isNew {
      var c := CreatedSince(now - NewHours(newHours) * 3600);
      assert c in fs;
      Listed(db, fs, a.limit, id, c);
    }
  }

  /** A listed id is a row of the query `cmd_list` builds. */
  lemma ListedRow(db: Db, a: ListArgs, newHours: string, now: int, parseDate: string -> Option<int>,
                  rowidUrl: int -> Option<string>, id: nat)
    requires id in ListItems(db, a, newHours, now, parseDate, rowidUrl)
    ensures Row(db, BuildFilters(a, newHours, now, parseDate, rowidUrl), id)
  {
    var r := ListItems(db, a, newHours, now, parseDate, rowidUrl);
    var k :| 0 <= k < |r| && r[k] == id;
  }

  /** `--on DAY` puts both ends of the day window into the query. */
  lemma OnDayInBuild(a: ListArgs, newHours: string, now: int, parseDate: string -> Option<int>,
                     rowidUrl: int -> Option<string>, day: int)
    requires a.on.Some? && a.on.value != [] && parseDate(a.on.value) == Some(day)
    ensures TsAtLeast(a.dateField, day) in BuildFilters(a, newHours, now, parseDate, rowidUrl)
    ensures TsBefore(a.dateField, day + 86400) in BuildFilters(a, newHours, now, parseDate, rowidUrl)
  {
    var t := TimeFilters(a, newHours, now, parseDate);
    assert TsAtLeast(a.dateField, day) in t && TsBefore(a.dateField, day + 86400) in t;
    TimeInBuild(a, newHours, now, parseDate, rowidUrl, TsAtLeast(a.dateField, day));
    TimeInBuild(a, newHours, now, parseDate, rowidUrl, TsBefore(a.dateField, day + 86400));
  }

  /** `--since` (without `--on`) lists only items stamped at or after the date. */
  lemma ListedSince(db: Db, a: ListArgs, newHours: string, now: int, parseDate: string -> Option<int>,
                    rowidUrl: int -> Option<string>, id: nat, since: int)
    requires id in ListItems(db, a, newHours, now, parseDate, rowidUrl)
    requires !Truthy(a.on) && Truthy(a.since) && parseDate(a.since.value) == Some(since)
    ensures id in db.items && Stamp(db.items[id], a.dateField) >= since
  {
    TimeInBuild(a, newHours, now, parseDate, rowidUrl, TsAtLeast(a.dateField, since));
    ListedRow(db, a, newHours, now, parseDate, rowidUrl, id);
    RowHolds(db, BuildFilters(a, newHours, now, parseDate, rowidUrl), id, TsAtLeast(a.dateField, since));
  }

  /** `--until` (without `--on`) lists only items stamped before the date. */
  lemma ListedUntil(db: Db, a: ListArgs, newHours: string, now: int, parseDate: string -> Option<int>,
                    rowidUrl: int -> Option<string>, id: nat, until: int)
    requires id in ListItems(db, a, newHours, now, parseDate, rowidUrl)
    requires !Truthy(a.on) && Truthy(a.until) && parseDate(a.until.value) == Some(until)
    ensures id in db.items && Stamp(db.items[id], a.dateField) < until
  {
    TimeInBuild(a, newHours, now, parseDate, rowidUrl, TsBefore(a.dateField, until));
    ListedRow(db, a, newHours, now, parseDate, rowidUrl, id);
    RowHolds(db, BuildFilters(a, newHours, now, parseDate, rowidUrl), id, TsBefore(a.dateField, until));
  }

  /** `--query q`, for a `q` without `%` or `_`: every listed item's title or summary
      contains `q`, ignoring ASCII case. */
  lemma ListedQuery(db: Db, a: ListArgs, newHours: string, now: int, parseDate: string -> Option<int>,
                    rowidUrl: int -> Option<string>, id: nat)
    requires id in ListItems(db, a, newHours, now, parseDate, rowidUrl)
    requires Truthy(a.query) && NoWildcards(a.query.value)
    ensures id in db.items
    ensures var it := db.items[id];
      (it.title.Some? && Contains(Lower(it.title.value), Lower(a.query.value)))
      || (it.summary.Some? && Contains(Lower(it.summary.value), Lower(a.query.value)))
  {
    var f := TextLike("%" + a.query.value + "%");
    TimeInBuild(a, newHours, now, parseDate, rowidUrl, f);
    ListedRow(db, a, newHours, now, parseDate, rowidUrl, id);
    RowHolds(db, BuildFilters(a, newHours, now, parseDate, rowidUrl), id, f);
    var it := db.items[id];
    if it.title.Some? { LikeContains(it.title.value, a.query.value); }
    if it.summary.Some? { LikeContains(it.summary.value, a.query.value); }
  }

  lemma TimeInBuild(a: ListArgs, newHours: string, now: int, parseDate: string -> Option<int>,
                    rowidUrl: int -> Option<string>, f: Filter)
    requires f in TimeFilters(a, newHours, now, parseDate)
    ensures f in BuildFilters(a, newHours, now, parseDate, rowidUrl)
  {
  }

  lemma RowHolds(db: Db, fs: seq<Filter>, id: nat, f: Filter)
    requires Row(db, fs, id) && f in fs
    ensures id in db.items && Holds(db, id, f)
  {
    var j :| 0 <= j < |fs| && fs[j] == f;
  }

  /** A row passing both ends of a day window is stamped within it. */
  lemma RowInWindow(db: Db, fs: seq<Filter>, id: nat, fd: DateField, day: int)
    requires Row(db, fs, id)
    requires TsAtLeast(fd, day) in fs && TsBefore(fd, day + 86400) in fs
    ensures id in db.items && day <= Stamp(db.items[id], fd) < day + 86400
  {
    RowHolds(db, fs, id, TsAtLeast(fd, day));
    RowHolds(db, fs, id, TsBefore(fd, day + 86400));
  }

  /** `--on DAY` lists only items stamped within that day. */
  lemma ListItemsOnDay(db: Db, a: ListArgs, newHours: string, now: int, parseDate: string -> Option<int>,
                       rowidUrl: int -> Option<string>, id: nat, day: int)
    requires id in ListItems(db, a, newHours, now, parseDate, rowidUrl)
    requires a.on.Some? && a.on.value != [] && parseDate(a.on.value) == Some(day)
    ensures id in db.items && day <= Stamp(db.items[id], a.dateField) < day + 86400
  {
    OnDayInBuild(a, newHours, now, parseDate, rowidUrl, day);
    ListedRow(db, a, newHours, now, parseDate, rowidUrl, id);
    RowInWindow(db, BuildFilters(a, newHours, now, parseDate, rowidUrl), id, a.dateField, day);
  }

  /** With no options the listing is every item not deleted, newest first. */
  lemma ListAllByDefault(db: Db, newHours: string, now: int, parseDate: string -> Option<int>,
                         rowidUrl: int -> Option<string>, id: nat)
    requires Valid(db)
    ensures var a := ListArgs(None, None, None, false, false, false, Published, None, None, None, None, false, 0);
      id in ListItems(db, a, newHours, now, parseDate, rowidUrl) <==> id in db.items && !db.items[id].deleted
  {
    var a := ListArgs(None, None, None, false, false, false, Published, None, None, None, None, false, 0);
    var fs := BuildFilters(a, newHours, now, parseDate, rowidUrl);
    assert fs == [NotDeleted];
    if id in db.items && !db.items[id].deleted {
      assert Row(db, fs, id);
      SelectComplete(db, fs, 0, id);
    }
  }

  /** `--unread-only` wins over `--read`: the two together list unread items. */
  lemma UnreadOnlyWins(a: ListArgs, newHours: string, now: int, parseDate: string -> Option<int>,
                       rowidUrl: int -> Option<string>)
    requires a.unreadOnly && a.readOnly
    ensures ReadIs(true) !in BuildFilters(a, newHours, now, parseDate, rowidUrl)
    ensures ReadIs(false) in BuildFilters(a, newHours, now, parseDate, rowidUrl)
  {
    assert ReadIs(true) !in HeadFilters(a, rowidUrl);
    assert ReadIs(true) !in TimeFilters(a, newHours, now, parseDate);
  }
}

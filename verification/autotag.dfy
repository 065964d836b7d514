/** `cmd_tags_auto` (rssel.py): pick the live items (optionally of one group),
    newest first and limited, compute each one's automatic tags and replace its tag
    set with them, unless it is a dry run. `html_to_text` is a function parameter. */
module AutoTag {
  import opened Wrappers
  import opened PyStr
  import opened Store
  import Query
  import Tagger

  /** The options of `tags auto`. */
  datatype AutoArgs = AutoArgs(
    group: Option<string>,
    limit: int,
    maxTags: int,
    includeDomain: bool,
    dryRun: bool)

  /** How an item's text is turned into tags: the stopwords, `html_to_text` and
      `urlparse(link).hostname`. */
  datatype Env = Env(stop: set<string>, render: string -> string, hostname: string -> Option<string>)

  /** The WHERE clauses: not deleted, and in the one named group when there is one. */
  function AutoFilters(group: Option<string>): (r: seq<Query.Filter>)
    ensures |r| > 0 && r[0] == Query.NotDeleted
    ensures Truthy(group) ==> r == [Query.NotDeleted, Query.InGroups([group.value])]
    ensures !Truthy(group) ==> r == [Query.NotDeleted]
  {
    [Query.NotDeleted] + (if Truthy(group) then [Query.InGroups([group.value])] else [])
  }

  /** The items the command walks, in the order it walks them. */
  function Selected(db: Db, a: AutoArgs): (r: seq<nat>)
    ensures forall k | 0 <= k < |r| :: Live(db, a.group, r[k])
    ensures NoDupsIds(r)
  {
    var fs := AutoFilters(a.group);
    var r := Query.Select(db, fs, a.limit);
    forall k | 0 <= k < |r|
      ensures Live(db, a.group, r[k])
    {
      assert Query.Row(db, fs, r[k]);
      assert Query.Holds(db, r[k], fs[0]);
      if Truthy(a.group) {
        assert Query.Holds(db, r[k], fs[1]);
      }
    }
    r
  }

  /** An item the command may retag: present, not deleted, and in the group when one
      is named. */
  predicate Live(db: Db, group: Option<string>, id: nat) {
    id in db.items && !db.items[id].deleted
    && (Truthy(group) ==> (db.items[id].feedUrl, group.value) in db.feedGroups)
  }

  predicate NoDupsIds(ids: seq<nat>) {
    forall i, j | 0 <= i < j < |ids| :: ids[i] != ids[j]
  }

  /** `html_to_text`: blank HTML renders as the empty text. */
  function BodyText(html: Option<string>, render: string -> string): (r: string)
    ensures !Truthy(html) ==> r == []
  {
    if Truthy(html) then render(html.value) else []
  }

  /** The tags computed for one item: from its title and the text of its content
      (or summary when the content is blank), plus its domain. */
  function TagsForItem(it: Item, a: AutoArgs, env: Env): seq<string> {
    Tagger.AutoTagsFor(it.title, BodyText(Or(it.content, it.summary), env.render), it.link,
                       a.maxTags, env.stop, a.includeDomain, env.hostname)
  }

  /** The loop over the selected items, replacing each one's tags. */
  function TagEach(db: Db, ids: seq<nat>, a: AutoArgs, env: Env): (r: Db)
    requires forall k | 0 <= k < |ids| :: ids[k] in db.items
    ensures r.items == db.items && r.feeds == db.feeds && r.feedGroups == db.feedGroups && r.nextId == db.nextId
    decreases |ids|
  {
    if |ids| == 0 then db
    else
      var id := ids[0];
      var next := Tagger.ReplaceItemTags(db, id, TagsForItem(db.items[id], a, env));
      TagEach(next.value, ids[1..], a, env)
  }

  /** `cmd_tags_auto`. */
  function TagsAuto(db: Db, a: AutoArgs, env: Env): (r: Db)
    ensures a.dryRun ==> r == db
    ensures r.items == db.items && r.feeds == db.feeds && r.feedGroups == db.feedGroups && r.nextId == db.nextId
  {
    if a.dryRun then db else TagEach(db, Selected(db, a), a, env)
  }

  /** After the loop each visited item carries exactly the tags computed for it, and
      every other item keeps its tags. */
  lemma {:induction false} TagEachResult(db: Db, ids: seq<nat>, a: AutoArgs, env: Env)
    requires forall k | 0 <= k < |ids| :: ids[k] in db.items
    ensures var r := TagEach(db, ids, a, env);
      && (forall id | id in ids :: TagsOf(r, id) == Tagger.NormSet(TagsForItem(db.items[id], a, env)))
      && (forall id | id !in ids :: TagsOf(r, id) == TagsOf(db, id))
      && db.tags <= r.tags
    decreases |ids|
  {
    if |ids| > 0 {
      var id := ids[0];
      var names := TagsForItem(db.items[id], a, env);
      Tagger.ReplaceItemTagsResult(db, id, names);
      var next := Tagger.ReplaceItemTags(db, id, names).value;
      TagEachResult(next, ids[1..], a, env);
      var r := TagEach(db, ids, a, env);
      assert r == TagEach(next, ids[1..], a, env);
      forall x | x in ids
        ensures TagsOf(r, x) == Tagger.NormSet(TagsForItem(db.items[x], a, env))
      {
        if x !in ids[1..] {
          assert x == id;
        }
      }
      forall x | x !in ids
        ensures TagsOf(r, x) == TagsOf(db, x)
      {
        assert x != id && x !in ids[1..];
      }
    }
  }

  /** `tags auto` sets the tags of each selected item to the normalised computed
      tags and leaves every other item's tags alone; a dry run changes nothing. */
  lemma TagsAutoResult(db: Db, a: AutoArgs, env: Env, id: nat)
    requires !a.dryRun
    ensures var r := TagsAuto(db, a, env);
      && (id in Selected(db, a) ==> TagsOf(r, id) == Tagger.NormSet(TagsForItem(db.items[id], a, env)))
      && (id !in Selected(db, a) ==> TagsOf(r, id) == TagsOf(db, id))
  {
    TagEachResult(db, Selected(db, a), a, env);
  }

  /** Only live items are retagged, and with a group only that group's items. */
  lemma TagsAutoOnlyLive(db: Db, a: AutoArgs, env: Env, id: nat)
    requires TagsOf(TagsAuto(db, a, env), id) != TagsOf(db, id)
    ensures Live(db, a.group, id)
  {
    TagEachResult(db, Selected(db, a), a, env);
    var s := Selected(db, a);
    assert id in s;
  }

  /** Retagging keeps the store's constraints. */
  lemma {:induction false} TagEachValid(db: Db, ids: seq<nat>, a: AutoArgs, env: Env)
    requires Valid(db)
    requires forall k | 0 <= k < |ids| :: ids[k] in db.items
    ensures Valid(TagEach(db, ids, a, env))
    decreases |ids|
  {
    if |ids| > 0 {
      var id := ids[0];
      Tagger.ReplaceItemTagsValid(db, id, TagsForItem(db.items[id], a, env));
      TagEachValid(Tagger.ReplaceItemTags(db, id, TagsForItem(db.items[id], a, env)).value, ids[1..], a, env);
    }
  }
}

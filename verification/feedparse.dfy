/** `parse_feed` (rssel.py): how the elements ElementTree found for one RSS item or
    Atom entry are shaped into the candidate entry that ingestion inserts. XML
    parsing itself and date parsing are left to the caller: an entry arrives as the
    results of the element lookups the code performs, and `parse_datetime` as a
    function parameter. */
module FeedParse {
  import opened Wrappers
  import opened PyStr

  /** What `find()` returns when it finds an element: the element's text, how many
      child elements it has, and its attributes. */
  datatype Element = Element(text: Option<string>, children: nat, attrs: map<string, string>)

  /** Python truthiness of a `find()` result. `None` is false, and an ElementTree
      element is true only when it has child elements: an element holding just text
      is false. */
  predicate ElemTruthy(e: Option<Element>) {
    e.Some? && e.value.children > 0
  }

  /** Python's `a or b` on `find()` results. */
  function ElemOr(a: Option<Element>, b: Option<Element>): (r: Option<Element>)
    ensures ElemTruthy(a) ==> r == a
    ensures !ElemTruthy(a) ==> r == b
  {
    if ElemTruthy(a) then a else b
  }

  /** `a if a is not None else b`: the lookup chain the code evidently means. */
  function FirstFound(a: Option<Element>, b: Option<Element>): (r: Option<Element>)
    ensures a.Some? ==> r == a
    ensures a.None? ==> r == b
  {
    if a.Some? then a else b
  }

  /** `text_or_none`: the stripped text of a found element (empty when it has none),
      `None` when nothing was found. */
  function TextOrNone(e: Option<Element>): (r: Option<string>)
    ensures r.None? <==> e.None?
  {
    if e.None? then None else Some(Strip(OrEmpty(e.value.text)))
  }

  /** `parse_datetime`: no text (or empty text) has no time; otherwise the
      caller-supplied format-by-format parser decides. */
  function ParseDatetime(text: Option<string>, parse: string -> Option<int>): Option<int> {
    if !Truthy(text) then None else parse(text.value)
  }

  /** `ts or 0`. */
  function TsOrZero(ts: Option<int>): int {
    if ts.Some? then ts.value else 0
  }

  /** One candidate entry, as the dict `parse_feed` appends. */
  datatype Entry = Entry(
    guid: Option<string>,
    title: Option<string>,
    link: Option<string>,
    summary: Option<string>,
    content: Option<string>,
    publishedTs: int)

  /** The dedup key of an entry: its own id when non-empty, else its link when
      non-empty, else its title (which may itself be absent or empty). */
  function GuidFallback(id: Option<string>, link: Option<string>, title: Option<string>): (r: Option<string>)
    ensures Truthy(id) ==> r == id
    ensures !Truthy(id) && Truthy(link) ==> r == link
    ensures !Truthy(id) && !Truthy(link) ==> r == title
  {
    Or(Or(id, link), title)
  }

  /** An entry has a key whenever it has a title or any non-empty identifying field. */
  lemma GuidPresent(id: Option<string>, link: Option<string>, title: Option<string>)
    ensures GuidFallback(id, link, title).None? ==> title.None? && !Truthy(id) && !Truthy(link)
    ensures Truthy(id) || Truthy(link) || Truthy(title) ==> Truthy(GuidFallback(id, link, title))
  {
  }

  // ---------------- RSS ----------------

  /** The lookups made for one RSS `<item>`: `title`, `link`, `guid`, `description`,
      the namespaced `content:encoded`, and `pubDate`. */
  datatype RssItem = RssItem(
    title: Option<Element>,
    link: Option<Element>,
    guid: Option<Element>,
    description: Option<Element>,
    encoded: Option<Element>,
    pubDate: Option<Element>)

  /** The RSS branch of `parse_feed` for one item. */
  function ShapeRss(it: RssItem, parse: string -> Option<int>): (e: Entry)
    ensures e.title == TextOrNone(it.title) && e.link == TextOrNone(it.link)
    ensures e.guid == GuidFallback(TextOrNone(it.guid), TextOrNone(it.link), TextOrNone(it.title))
    ensures e.summary == TextOrNone(it.description)
    ensures Truthy(TextOrNone(it.encoded)) ==> e.content == TextOrNone(it.encoded)
    ensures !Truthy(TextOrNone(it.encoded)) ==> e.content == e.summary
  {
    var title := TextOrNone(it.title);
    var link := TextOrNone(it.link);
    var summary := TextOrNone(it.description);
    Entry(
      GuidFallback(TextOrNone(it.guid), link, title),
      title,
      link,
      summary,
      Or(TextOrNone(it.encoded), summary),
      TsOrZero(ParseDatetime(TextOrNone(it.pubDate), parse)))
  }

  // ---------------- Atom ----------------

  /** The lookups made for one Atom `<entry>`: each field is looked up first with the
      Atom namespace (`ns...`) and then without it; the link is looked up as the
      namespaced `rel='alternate'` link, then any namespaced link, then a plain
      `link`. */
  datatype AtomEntry = AtomEntry(
    nsTitle: Option<Element>, title: Option<Element>,
    nsAltLink: Option<Element>, nsLink: Option<Element>, link: Option<Element>,
    nsId: Option<Element>, id: Option<Element>,
    nsSummary: Option<Element>, summary: Option<Element>,
    nsContent: Option<Element>, content: Option<Element>,
    nsPublished: Option<Element>, published: Option<Element>,
    nsUpdated: Option<Element>, updated: Option<Element>)

  /** `link_el.get("href") if link_el is not None else text_or_none(link_el)`. */
  function Href(linkEl: Option<Element>): Option<string> {
    if linkEl.None? then None
    else if "href" in linkEl.value.attrs then Some(linkEl.value.attrs["href"])
    else None
  }

  /** The Atom branch of `parse_feed` for one entry AS WRITTEN: the lookup chains use
      Python's `or`, which skips an element without children. */
  function ShapeAtomAsWritten(a: AtomEntry, parse: string -> Option<int>): (e: Entry)
    ensures e.title == TextOrNone(ElemOr(a.nsTitle, a.title))
    ensures e.guid == GuidFallback(TextOrNone(ElemOr(a.nsId, a.id)), e.link, e.title)
  {
    var title := TextOrNone(ElemOr(a.nsTitle, a.title));
    var href := Href(ElemOr(ElemOr(a.nsAltLink, a.nsLink), a.link));
    Entry(
      GuidFallback(TextOrNone(ElemOr(a.nsId, a.id)), href, title),
      title,
      href,
      TextOrNone(ElemOr(a.nsSummary, a.summary)),
      TextOrNone(ElemOr(a.nsContent, a.content)),
      TsOrZero(ParseDatetime(
        TextOrNone(ElemOr(ElemOr(ElemOr(a.nsPublished, a.published), a.nsUpdated), a.updated)),
        parse)))
  }

  /** The Atom branch with each lookup chain taking the first element found. */
  function ShapeAtom(a: AtomEntry, parse: string -> Option<int>): (e: Entry)
    ensures a.nsId.Some? ==> e.guid == GuidFallback(TextOrNone(a.nsId), e.link, e.title)
    ensures a.nsTitle.Some? ==> e.title == TextOrNone(a.nsTitle)
    ensures a.nsAltLink.Some? ==> e.link == Href(a.nsAltLink)
  {
    var title := TextOrNone(FirstFound(a.nsTitle, a.title));
    var href := Href(FirstFound(FirstFound(a.nsAltLink, a.nsLink), a.link));
    Entry(
      GuidFallback(TextOrNone(FirstFound(a.nsId, a.id)), href, title),
      title,
      href,
      TextOrNone(FirstFound(a.nsSummary, a.summary)),
      TextOrNone(FirstFound(a.nsContent, a.content)),
      TsOrZero(ParseDatetime(
        TextOrNone(FirstFound(FirstFound(FirstFound(a.nsPublished, a.published), a.nsUpdated), a.updated)),
        parse)))
  }

  /** A namespaced Atom entry whose only element is an `<id>` holding text. */
  function IdOnlyEntry(id: string): AtomEntry {
    AtomEntry(None, None, None, None, None, Some(Element(Some(id), 0, map[])), None,
              None, None, None, None, None, None, None, None)
  }

  /** The discrepancy: for an ordinary namespaced entry (text-only `<id>`, no plain
      `id` element) the code as written loses the id and the entry has no dedup key,
      while the intended lookup keeps it. */
  lemma AtomIdLost(parse: string -> Option<int>)
    ensures ShapeAtomAsWritten(IdOnlyEntry("urn:1"), parse).guid.None?
    ensures ShapeAtom(IdOnlyEntry("urn:1"), parse).guid == Some("urn:1")
  {
    var e := IdOnlyEntry("urn:1");
    assert TextOrNone(ElemOr(e.nsId, e.id)) == None;
    TrimByKeeps("urn:1", IsSpace);
    var id := TextOrNone(e.nsId);
    assert id == Some("urn:1");
    var shaped := ShapeAtom(e, parse);
    assert shaped.guid == GuidFallback(id, shaped.link, shaped.title);
  }

  /** In a document without the Atom namespace the two lookups agree, as long as a
      `published` element, when there is one, has children (that chain, too, walks
      past a childless element to `updated`). */
  lemma AtomAgreesWithoutNamespace(a: AtomEntry, parse: string -> Option<int>)
    requires Plain(a)
    ensures ShapeAtomAsWritten(a, parse) == ShapeAtom(a, parse)
  {
  }

  // ---------------- documents ----------------

  /** A parsed feed document: the root element's tag, the entries `findall` returned
      for the Atom reading and the items it returned for the RSS reading. */
  datatype Doc = Doc(rootTag: string, entries: seq<AtomEntry>, items: seq<RssItem>)

  predicate IsAtom(d: Doc) {
    EndsWith(Lower(d.rootTag), "feed")
  }

  function MapRss(items: seq<RssItem>, parse: string -> Option<int>): (r: seq<Entry>)
    ensures |r| == |items|
    ensures forall k :: 0 <= k < |items| ==> r[k] == ShapeRss(items[k], parse)
  {
    seq(|items|, k requires 0 <= k < |items| => ShapeRss(items[k], parse))
  }

  /** The Atom entries as the code shapes them. */
  function MapAtom(entries: seq<AtomEntry>, parse: string -> Option<int>): (r: seq<Entry>)
    ensures |r| == |entries|
    ensures forall k :: 0 <= k < |entries| ==> r[k] == ShapeAtomAsWritten(entries[k], parse)
  {
    seq(|entries|, k requires 0 <= k < |entries| => ShapeAtomAsWritten(entries[k], parse))
  }

  /** The Atom entries under the corrected lookup. */
  function MapAtomIntended(entries: seq<AtomEntry>, parse: string -> Option<int>): (r: seq<Entry>)
    ensures |r| == |entries|
    ensures forall k :: 0 <= k < |entries| ==> r[k] == ShapeAtom(entries[k], parse)
  {
    seq(|entries|, k requires 0 <= k < |entries| => ShapeAtom(entries[k], parse))
  }

  /** `parse_feed` as written: no document (the XML did not parse) gives no entries;
      an Atom root gives one entry per Atom entry, shaped through the `or` chains,
      and anything else one per RSS item, in order. */
  function ParseFeed(doc: Option<Doc>, parse: string -> Option<int>): (r: seq<Entry>)
    ensures doc.None? ==> r == []
    ensures doc.Some? && IsAtom(doc.value) ==>
      |r| == |doc.value.entries| &&
      forall k :: 0 <= k < |r| ==> r[k] == ShapeAtomAsWritten(doc.value.entries[k], parse)
    ensures doc.Some? && !IsAtom(doc.value) ==>
      |r| == |doc.value.items| &&
      forall k :: 0 <= k < |r| ==> r[k] == ShapeRss(doc.value.items[k], parse)
  {
    if doc.None? then []
    else if IsAtom(doc.value) then MapAtom(doc.value.entries, parse)
    else MapRss(doc.value.items, parse)
  }

  /** `parse_feed` with the corrected Atom lookup. */
  function ParseFeedIntended(doc: Option<Doc>, parse: string -> Option<int>): (r: seq<Entry>)
    ensures doc.None? ==> r == []
    ensures doc.Some? && IsAtom(doc.value) ==>
      |r| == |doc.value.entries| &&
      forall k :: 0 <= k < |r| ==> r[k] == ShapeAtom(doc.value.entries[k], parse)
    ensures doc.Some? && !IsAtom(doc.value) ==>
      |r| == |doc.value.items| &&
      forall k :: 0 <= k < |r| ==> r[k] == ShapeRss(doc.value.items[k], parse)
  {
    if doc.None? then []
    else if IsAtom(doc.value) then MapAtomIntended(doc.value.entries, parse)
    else MapRss(doc.value.items, parse)
  }

  /** An Atom entry found without the Atom namespace, whose `published`, if any,
      has children. */
  predicate Plain(a: AtomEntry) {
    && a.nsTitle.None? && a.nsAltLink.None? && a.nsLink.None? && a.nsId.None?
    && a.nsSummary.None? && a.nsContent.None? && a.nsPublished.None? && a.nsUpdated.None?
    && (a.published.None? || a.published.value.children > 0)
  }

  /** The code and the corrected lookup read every RSS document alike, and every
      Atom document whose entries are all plain. */
  lemma ParseFeedAgrees(doc: Option<Doc>, parse: string -> Option<int>)
    requires doc.Some? && IsAtom(doc.value) ==> forall k | 0 <= k < |doc.value.entries| :: Plain(doc.value.entries[k])
    ensures ParseFeed(doc, parse) == ParseFeedIntended(doc, parse)
  {
    if doc.Some? && IsAtom(doc.value) {
      var es := doc.value.entries;
      var r := ParseFeed(doc, parse);
      var t := ParseFeedIntended(doc, parse);
      forall k | 0 <= k < |es|
        ensures r[k] == t[k]
      {
        AtomAgreesWithoutNamespace(es[k], parse);
      }
    }
  }

  /** The discrepancy at the level of a document: an Atom feed whose one entry holds
      only a namespaced text `<id>` yields an entry without a key, where the
      corrected lookup keys it by that id. */
  lemma ParseFeedIdLost(rootTag: string, parse: string -> Option<int>)
    requires EndsWith(Lower(rootTag), "feed")
    ensures var d := Some(Doc(rootTag, [IdOnlyEntry("urn:1")], []));
      && |ParseFeed(d, parse)| == 1 && ParseFeed(d, parse)[0].guid.None?
      && |ParseFeedIntended(d, parse)| == 1 && ParseFeedIntended(d, parse)[0].guid == Some("urn:1")
  {
    var e := IdOnlyEntry("urn:1");
    var d := Doc(rootTag, [e], []);
    assert IsAtom(d);
    assert ParseFeed(Some(d), parse)[0] == ShapeAtomAsWritten(e, parse);
    assert ParseFeedIntended(Some(d), parse)[0] == ShapeAtom(e, parse);
    AtomIdLost(parse);
  }
}

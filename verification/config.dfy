/** The inputs rssel reads before it touches the store: the comma/space separated
    group argument, boolean switches in the config file, and the JSON sources file
    (rssel.py `_parse_groups_arg`, `cfg_flag`, `parse_sources_file`). */
module Config {
  import opened Wrappers
  import opened PyStr

  // ---------------- group arguments ----------------

  /** The characters `re.split(r"[,\s]+", ...)` splits group lists on. */
  predicate IsGroupSep(c: char) {
    c == ',' || IsSpace(c)
  }

  /** `_parse_groups_arg`: the group names in a comma/space separated argument;
      an absent or empty argument names none. */
  function ParseGroupsArg(v: Option<string>): (r: seq<string>)
    ensures !Truthy(v) ==> r == []
    ensures forall k :: 0 <= k < |r| ==> |r[k]| > 0
    ensures forall k, i :: 0 <= k < |r| && 0 <= i < |r[k]| ==> !IsGroupSep(r[k][i])
  {
    if !Truthy(v) then [] else KeepStripped(SplitRuns(v.value, IsGroupSep))
  }

  /** `[g.strip() for g in pieces if g.strip()]`. */
  function KeepStripped(pieces: seq<string>): (r: seq<string>)
    requires forall k, i :: 0 <= k < |pieces| && 0 <= i < |pieces[k]| ==> !IsGroupSep(pieces[k][i])
    ensures forall k :: 0 <= k < |r| ==> |r[k]| > 0
    ensures forall k, i :: 0 <= k < |r| && 0 <= i < |r[k]| ==> !IsGroupSep(r[k][i])
  {
    if |pieces| == 0 then []
    else
      var g := Strip(pieces[0]);
      (if g != [] then [g] else []) + KeepStripped(pieces[1..])
  }

  /** Stripping a piece that holds no whitespace leaves it as it is, so the
      strip-and-keep pass passes separator-free pieces through unchanged. */
  lemma {:induction false} KeepStrippedIdentity(pieces: seq<string>)
    requires forall k :: 0 <= k < |pieces| ==> |pieces[k]| > 0
    requires forall k, i :: 0 <= k < |pieces| && 0 <= i < |pieces[k]| ==> !IsGroupSep(pieces[k][i])
    ensures KeepStripped(pieces) == pieces
  {
    if |pieces| > 0 {
      TrimByKeeps(pieces[0], IsSpace);
      KeepStrippedIdentity(pieces[1..]);
      assert pieces == [pieces[0]] + pieces[1..];
    }
  }

  /** Writing a list of group names with commas and parsing it back gives the list. */
  lemma GroupsRoundTrip(groups: seq<string>)
    requires forall k :: 0 <= k < |groups| ==> |groups[k]| > 0
    requires forall k, i :: 0 <= k < |groups| && 0 <= i < |groups[k]| ==> !IsGroupSep(groups[k][i])
    ensures ParseGroupsArg(Some(Join(groups, ','))) == groups
  {
    SplitJoin(groups, ',', IsGroupSep);
    KeepStrippedIdentity(groups);
    if |groups| > 0 {
      assert |Join(groups, ',')| > 0 by { JoinNonEmpty(groups, ','); }
    }
  }

  lemma JoinNonEmpty(parts: seq<string>, c: char)
    requires |parts| > 0 && |parts[0]| > 0
    ensures |Join(parts, c)| > 0
  {
  }

  // ---------------- config switches ----------------

  /** The spellings `cfg_flag` accepts as "on". */
  const TrueWords: set<string> := {"1", "true", "yes", "on"}

  /** `cfg_flag`: a config value read as a switch; an absent key (or a key whose
      value is `None`) gives the default. */
  function CfgFlag(cfg: map<string, Option<string>>, key: string, default: bool): (r: bool)
    ensures (key !in cfg || cfg[key].None?) ==> r == default
    ensures key in cfg && cfg[key].Some? ==> r == (Lower(Strip(cfg[key].value)) in TrueWords)
  {
    if key !in cfg || cfg[key].None? then default
    else Lower(Strip(cfg[key].value)) in TrueWords
  }

  /** The switches the config template writes ("true"/"false") read back as written,
      whatever the default. */
  lemma CfgFlagRoundTrip(cfg: map<string, Option<string>>, key: string, b: bool, default: bool)
    ensures CfgFlag(cfg[key := Some(if b then "true" else "false")], key, default) == b
  {
    var v: string := if b then "true" else "false";
    WordNormalized(v);
    assert b <==> v in TrueWords;
  }

  /** Plain lower-case words pass through `strip().lower()` unchanged. */
  lemma WordNormalized(v: string)
    requires |v| > 0 && forall i :: 0 <= i < |v| ==> 'a' <= v[i] <= 'z'
    ensures Lower(Strip(v)) == v
  {
    assert !IsSpace(v[0]) && !IsSpace(v[|v| - 1]);
    TrimByKeeps(v, IsSpace);
    LowerKeepsLower(v);
  }

  lemma LowerKeepsLower(s: string)
    requires forall i :: 0 <= i < |s| ==> !('A' <= s[i] <= 'Z')
    ensures Lower(s) == s
  {
    assert forall i :: 0 <= i < |s| ==> Lower(s)[i] == s[i];
  }

  /** A present switch ignores the default: the default only fills in for a missing key. */
  lemma CfgFlagDefaultOnlyWhenMissing(cfg: map<string, Option<string>>, key: string)
    requires key in cfg && cfg[key].Some?
    ensures CfgFlag(cfg, key, true) == CfgFlag(cfg, key, false)
  {
  }

  // ---------------- sources file ----------------

  /** A decoded JSON value (numbers are integers here; see README). */
  datatype Json =
    | JNull
    | JBool(b: bool)
    | JNum(n: int)
    | JStr(s: string)
    | JArr(elems: seq<Json>)
    | JObj(fields: map<string, Json>)

  /** Python truthiness of a decoded JSON value. */
  predicate JTruthy(j: Json) {
    match j
    case JNull => false
    case JBool(b) => b
    case JNum(n) => n != 0
    case JStr(s) => s != []
    case JArr(a) => |a| > 0
    case JObj(m) => |m| > 0
  }

  /** `obj.get(key)`, with `None` as JSON null. */
  function Get(fields: map<string, Json>, key: string): Json {
    if key in fields then fields[key] else JNull
  }

  /** One entry of the sources list: `{url, title, groups}`. */
  datatype SourceEntry = SourceEntry(url: Json, title: Json, groups: seq<string>)

  /** The string elements of a JSON list, in order. */
  function Strings(elems: seq<Json>): (r: seq<string>)
    ensures |r| <= |elems|
    ensures forall k :: 0 <= k < |r| ==> JStr(r[k]) in elems
  {
    if |elems| == 0 then []
    else (if elems[0].JStr? then [elems[0].s] else []) + Strings(elems[1..])
  }

  /** `obj.get("groups") or []`, replaced by `[]` when not a list, keeping its strings. */
  function GroupsOf(fields: map<string, Json>): seq<string> {
    var g := Get(fields, "groups");
    if JTruthy(g) && g.JArr? then Strings(g.elems) else []
  }

  /** The loop of `parse_sources_file` over the decoded list: non-objects and
      entries without a truthy `url` are dropped. */
  function Entries(data: seq<Json>): (r: seq<SourceEntry>)
    ensures |r| <= |data|
    ensures forall k :: 0 <= k < |r| ==> JTruthy(r[k].url)
  {
    if |data| == 0 then []
    else
      var obj := data[0];
      var keep := obj.JObj? && JTruthy(Get(obj.fields, "url"));
      (if keep then [SourceEntry(Get(obj.fields, "url"), Get(obj.fields, "title"), GroupsOf(obj.fields))] else [])
      + Entries(data[1..])
  }

  /** `parse_sources_file`: the entries of a sources file. `loads` stands for
      `json.loads`, `None` where it raises. Blank text, undecodable text and a
      document that is neither a list nor an object with a `sources` list give no
      entries. */
  function ParseSourcesFile(text: string, loads: string -> Option<Json>): (r: seq<SourceEntry>)
    ensures Strip(text) == [] ==> r == []
    ensures loads(Strip(text)).None? ==> r == []
    ensures forall k :: 0 <= k < |r| ==> JTruthy(r[k].url)
  {
    var t := Strip(text);
    if t == [] then []
    else match loads(t)
      case None => []
      case Some(doc) =>
        var data := if doc.JObj? && "sources" in doc.fields then doc.fields["sources"] else doc;
        if data.JArr? then Entries(data.elems) else []
  }

  /** The JSON object a well-formed source is written as. */
  function EncodeSource(url: string, title: Json, groups: seq<string>): Json {
    JObj(map["url" := JStr(url), "title" := title, "groups" := JArr(EncodeStrings(groups))])
  }

  function EncodeStrings(gs: seq<string>): (r: seq<Json>)
    ensures |r| == |gs|
    ensures forall k :: 0 <= k < |gs| ==> r[k] == JStr(gs[k])
  {
    if |gs| == 0 then [] else [JStr(gs[0])] + EncodeStrings(gs[1..])
  }

  lemma {:induction false} StringsOfEncoded(gs: seq<string>)
    ensures Strings(EncodeStrings(gs)) == gs
  {
    if |gs| > 0 {
      assert EncodeStrings(gs)[1..] == EncodeStrings(gs[1..]);
      StringsOfEncoded(gs[1..]);
    }
  }

  /** A well-formed source object (a non-empty string url) is read back with its url,
      title and groups. */
  lemma EncodedSourceRead(url: string, title: Json, groups: seq<string>)
    requires url != []
    ensures Entries([EncodeSource(url, title, groups)]) == [SourceEntry(JStr(url), title, groups)]
  {
    StringsOfEncoded(groups);
    var fields := EncodeSource(url, title, groups).fields;
    assert Get(fields, "url") == JStr(url);
    assert Get(fields, "title") == title;
    if |groups| == 0 {
      assert GroupsOf(fields) == [];
    } else {
      assert GroupsOf(fields) == Strings(EncodeStrings(groups));
    }
  }

  /** `Entries` reads a list element by element. */
  lemma {:induction false} EntriesAppend(a: seq<Json>, b: seq<Json>)
    ensures Entries(a + b) == Entries(a) + Entries(b)
  {
    if |a| == 0 {
      assert a + b == b;
    } else {
      assert (a + b)[0] == a[0];
      assert (a + b)[1..] == a[1..] + b;
      EntriesAppend(a[1..], b);
    }
  }
}

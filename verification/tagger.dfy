/** The auto-tagger (rssel.py `_tokenize`, `extract_auto_tags`, the domain and
    de-duplication step of `cmd_tags_auto`) and the tag writers `upsert_tag` and
    `replace_item_tags`. Term weights are kept as the insertion-ordered list of
    (word, weight) pairs the Python dict holds. */
module Tagger {
  import opened Wrappers
  import opened PyStr
  import opened Sorting
  import Store

  // ---------------- tokens ----------------

  /** The characters a word may hold: `[a-z0-9-]`. */
  predicate IsWordChar(c: char) {
    'a' <= c <= 'z' || '0' <= c <= '9' || c == '-'
  }

  predicate NotWordChar(c: char) {
    !IsWordChar(c)
  }

  predicate IsHyphen(c: char) {
    c == '-'
  }

  /** `_tokenize`: lower-case, split on runs of non-word characters, drop the pieces
      that are all digits, then strip hyphens from both ends of each piece (which can
      leave an empty word, or one of digits only, see `DigitsSurviveHyphens`). */
  function Tokenize(text: string): (r: seq<string>)
    ensures forall k :: 0 <= k < |r| ==> WordShaped(r[k])
  {
    KeepWords(SplitRuns(Lower(text), NotWordChar))
  }

  /** `[w.strip("-") for w in pieces if w and not w.isdigit()]`. */
  function KeepWords(pieces: seq<string>): (r: seq<string>)
    requires forall k, i :: 0 <= k < |pieces| && 0 <= i < |pieces[k]| ==> IsWordChar(pieces[k][i])
    ensures |r| <= |pieces|
    ensures forall k :: 0 <= k < |r| ==> WordShaped(r[k])
  {
    if |pieces| == 0 then []
    else
      var w := pieces[0];
      var h := if w != [] && !IsDigits(w) then [TrimBy(w, IsHyphen)] else [];
      assert forall k :: 0 <= k < |h| ==> WordShaped(h[k]);
      h + KeepWords(pieces[1..])
  }

  /** A kept word: word characters only, and no hyphen at either end. */
  predicate WordShaped(w: string) {
    (forall i :: 0 <= i < |w| ==> IsWordChar(w[i])) && (|w| > 0 ==> w[0] != '-' && w[|w| - 1] != '-')
  }

  /** The digit test comes before the hyphens are stripped, so a number written with
      a leading hyphen survives as a word of digits, while the same number without the
      hyphen is dropped. */
  lemma DigitsSurviveHyphens()
    ensures Tokenize("-2024") == ["2024"]
    ensures Tokenize("2024") == []
  {
    HyphenNumber();
    PlainNumber();
  }

  lemma HyphenNumber()
    ensures Tokenize("-2024") == ["2024"]
  {
    var s := "-2024";
    assert Lower(s) == s;
    assert SplitRuns(s, NotWordChar) == [s] by {
      SplitJoin([s], ' ', NotWordChar);
    }
    assert !IsDigits(s);
    assert KeptFrom(s, IsHyphen, 0) == 1;
    assert TrimStart(s, IsHyphen) == "2024";
    assert KeptUntil("2024", IsHyphen, 4) == 4;
    assert TrimBy(s, IsHyphen) == "2024";
    assert KeepWords([s]) == ["2024"] + KeepWords([]);
  }

  lemma PlainNumber()
    ensures Tokenize("2024") == []
  {
    var s := "2024";
    assert Lower(s) == s;
    assert SplitRuns(s, NotWordChar) == [s] by {
      SplitJoin([s], ' ', NotWordChar);
    }
    assert IsDigits(s);
    assert KeepWords([s]) == KeepWords([]);
  }

  /** How many times `w` occurs in `toks`. */
  function Count(toks: seq<string>, w: string): nat {
    if |toks| == 0 then 0 else (if toks[0] == w then 1 else 0) + Count(toks[1..], w)
  }

  // ---------------- weights ----------------

  /** A word is counted when it is long enough and not a stopword. */
  predicate Eligible(w: string, minLen: int, stop: set<string>) {
    |w| >= minLen && w !in stop
  }

  /** No word appears twice among the keys, as in a dict. */
  predicate KeyFunctional(ws: seq<(string, int)>) {
    forall i, j | 0 <= i < |ws| && 0 <= j < |ws| :: ws[i].0 == ws[j].0 ==> i == j
  }

  /** `weights.get(w, 0)`. */
  function Weight(ws: seq<(string, int)>, w: string): int {
    if |ws| == 0 then 0 else if ws[0].0 == w then ws[0].1 else Weight(ws[1..], w)
  }

  /** The words of the weight table, in insertion order. */
  function Keys(ws: seq<(string, int)>): (r: seq<string>)
    ensures |r| == |ws|
    ensures forall k :: 0 <= k < |ws| ==> r[k] == ws[k].0
  {
    if |ws| == 0 then [] else [ws[0].0] + Keys(ws[1..])
  }

  /** `weights[w] = weights.get(w, 0) + d`: update in place, or append a new key. */
  function Bump(ws: seq<(string, int)>, w: string, d: int): (r: seq<(string, int)>)
    ensures forall p | p in r :: p.0 == w || p in ws
    ensures forall p | p in ws && p.0 != w :: p in r
    ensures exists k :: 0 <= k < |r| && r[k].0 == w
    ensures KeyFunctional(ws) ==> KeyFunctional(r)
    ensures (forall p | p in ws :: p.1 > 0) && d > 0 ==> forall p | p in r :: p.1 > 0
  {
    if |ws| == 0 then
      assert [(w, d)][0].0 == w;
      [(w, d)]
    else if ws[0].0 == w then
      var r := [(w, ws[0].1 + d)] + ws[1..];
      FunctionalStep(ws, (w, ws[0].1 + d));
      assert r[0].0 == w;
      r
    else
      var rest := Bump(ws[1..], w, d);
      var r := [ws[0]] + rest;
      FunctionalStep(ws, ws[0]);
      assert forall p | p in rest :: p.0 == w || p in ws[1..];
      assert exists k :: 0 <= k < |r| && r[k].0 == w by {
        var k :| 0 <= k < |rest| && rest[k].0 == w;
        assert r[k + 1].0 == w;
      }
      r
  }

  /** Replacing the head of a table by a pair with the same word, or keeping the head
      in front of a table of other words, keeps the keys unique. */
  lemma FunctionalStep(ws: seq<(string, int)>, x: (string, int))
    requires |ws| > 0 && x.0 == ws[0].0
    ensures forall p | p in ws[1..] :: p in ws
    ensures KeyFunctional(ws) ==> KeyFunctional(ws[1..]) && KeyFunctional([x] + ws[1..])
    ensures KeyFunctional(ws) ==> forall rest: seq<(string, int)> ::
      KeyFunctional(rest) && (forall p | p in rest :: p in ws[1..] || p.0 != x.0) ==> KeyFunctional([x] + rest)
  {
    if KeyFunctional(ws) {
      forall rest: seq<(string, int)> | KeyFunctional(rest) && (forall p | p in rest :: p in ws[1..] || p.0 != x.0)
        ensures KeyFunctional([x] + rest)
      {
        var r := [x] + rest;
        forall i, j | 0 <= i < |r| && 0 <= j < |r| && r[i].0 == r[j].0
          ensures i == j
        {
          if i > 0 && j > 0 {
            assert r[i] == rest[i - 1] && r[j] == rest[j - 1];
          }
        }
      }
      assert KeyFunctional(ws[1..]) by {
        forall i, j | 0 <= i < |ws[1..]| && 0 <= j < |ws[1..]| && ws[1..][i].0 == ws[1..][j].0
          ensures i == j
        {
          assert ws[i + 1].0 == ws[j + 1].0;
        }
      }
    }
  }

  lemma {:induction false} BumpWeight(ws: seq<(string, int)>, w: string, d: int, x: string)
    ensures Weight(Bump(ws, w, d), x) == Weight(ws, x) + (if x == w then d else 0)
  {
    if |ws| > 0 && ws[0].0 != w {
      BumpWeight(ws[1..], w, d, x);
      var r := Bump(ws, w, d);
      assert r[1..] == Bump(ws[1..], w, d);
    }
  }

  /** The counting loop of `extract_auto_tags`: each eligible token adds `d`. */
  function Accumulate(ws: seq<(string, int)>, toks: seq<string>, d: int, minLen: int, stop: set<string>): (r: seq<(string, int)>)
    ensures KeyFunctional(ws) ==> KeyFunctional(r)
    ensures (forall p | p in ws :: p.1 > 0) && d > 0 ==> forall p | p in r :: p.1 > 0
    ensures (forall p | p in ws :: Eligible(p.0, minLen, stop)) ==> forall p | p in r :: Eligible(p.0, minLen, stop)
    decreases |toks|
  {
    if |toks| == 0 then ws
    else
      var w := toks[0];
      var next := if !Eligible(w, minLen, stop) then ws else Bump(ws, w, d);
      Accumulate(next, toks[1..], d, minLen, stop)
  }

  lemma {:induction false} AccumulateWeight(ws: seq<(string, int)>, toks: seq<string>, d: int, minLen: int, stop: set<string>, x: string)
    ensures Weight(Accumulate(ws, toks, d, minLen, stop), x)
      == Weight(ws, x) + (if Eligible(x, minLen, stop) then d * Count(toks, x) else 0)
    decreases |toks|
  {
    if |toks| > 0 {
      var w := toks[0];
      var next := if !Eligible(w, minLen, stop) then ws else Bump(ws, w, d);
      if Eligible(w, minLen, stop) {
        BumpWeight(ws, w, d, x);
      }
      AccumulateWeight(next, toks[1..], d, minLen, stop, x);
      CountStep(toks, x, d);
    }
  }

  lemma CountStep(toks: seq<string>, x: string, d: int)
    requires |toks| > 0
    ensures d * Count(toks, x) == (if toks[0] == x then d else 0) + d * Count(toks[1..], x)
  {
  }

  /** The weight table `extract_auto_tags` builds: body words first, at 1 each, then
      title words at 2 each; a missing title or body counts as empty. */
  function Weights(title: Option<string>, body: Option<string>, minLen: int, stop: set<string>): (r: seq<(string, int)>)
    ensures KeyFunctional(r)
    ensures forall p | p in r :: p.1 > 0 && Eligible(p.0, minLen, stop)
  {
    var ws := Accumulate([], Tokenize(OrEmpty(body)), 1, minLen, stop);
    Accumulate(ws, Tokenize(OrEmpty(title)), 2, minLen, stop)
  }

  /** The weight of a word: one per eligible occurrence in the body plus two per
      eligible occurrence in the title. */
  lemma WeightsCount(title: Option<string>, body: Option<string>, minLen: int, stop: set<string>, w: string)
    ensures Weight(Weights(title, body, minLen, stop), w)
      == if Eligible(w, minLen, stop) then Count(Tokenize(OrEmpty(body)), w) + 2 * Count(Tokenize(OrEmpty(title)), w) else 0
  {
    var ws := Accumulate([], Tokenize(OrEmpty(body)), 1, minLen, stop);
    AccumulateWeight([], Tokenize(OrEmpty(body)), 1, minLen, stop, w);
    AccumulateWeight(ws, Tokenize(OrEmpty(title)), 2, minLen, stop, w);
  }

  /** In a table without repeated keys each pair holds the word's weight. */
  lemma {:induction false} PairWeight(ws: seq<(string, int)>, k: nat)
    requires KeyFunctional(ws) && k < |ws|
    ensures Weight(ws, ws[k].0) == ws[k].1
  {
    if k > 0 {
      assert ws[0].0 != ws[k].0;
      assert ws[1..][k - 1] == ws[k];
      assert KeyFunctional(ws[1..]) by {
        forall i, j | 0 <= i < |ws[1..]| && 0 <= j < |ws[1..]| && ws[1..][i].0 == ws[1..][j].0
          ensures i == j
        {
          assert ws[i + 1].0 == ws[j + 1].0;
        }
      }
      PairWeight(ws[1..], k - 1);
    }
  }

  /** A word absent from the table weighs nothing. */
  lemma {:induction false} AbsentWeight(ws: seq<(string, int)>, w: string)
    requires forall k :: 0 <= k < |ws| ==> ws[k].0 != w
    ensures Weight(ws, w) == 0
  {
    if |ws| > 0 {
      AbsentWeight(ws[1..], w);
    }
  }

  // ---------------- ranking ----------------

  /** `sorted(..., key=lambda kv: (-kv[1], kv[0]))`: heavier first, ties by word. */
  predicate RankBefore(a: (string, int), b: (string, int)) {
    a.1 > b.1 || (a.1 == b.1 && StrLess(a.0, b.0))
  }

  /** The ranking is a strict total order on a table without repeated keys. */
  lemma RankTotal(ws: seq<(string, int)>)
    requires KeyFunctional(ws)
    ensures StrictTotalOn(RankBefore, ws)
    ensures NoDups(ws)
  {
    forall a | a in ws
      ensures !RankBefore(a, a)
    {
      StrLessIrreflexive(a.0);
    }
    forall a, b, c | a in ws && b in ws && c in ws && RankBefore(a, b) && RankBefore(b, c)
      ensures RankBefore(a, c)
    {
      if a.1 == b.1 && b.1 == c.1 {
        StrLessTransitive(a.0, b.0, c.0);
      }
    }
    forall a, b | a in ws && b in ws && a != b
      ensures RankBefore(a, b) || RankBefore(b, a)
    {
      var i :| 0 <= i < |ws| && ws[i] == a;
      var j :| 0 <= j < |ws| && ws[j] == b;
      if a.1 == b.1 {
        StrLessTotal(a.0, b.0);
      }
    }
  }

  /** The ranked table. */
  function Ranked(ws: seq<(string, int)>): (r: seq<(string, int)>)
    requires KeyFunctional(ws)
    ensures multiset(r) == multiset(ws)
    ensures SortedBy(RankBefore, r)
  {
    RankTotal(ws);
    Sort(RankBefore, ws)
  }

  /** The ranking does not depend on the dict's insertion order: any strictly ranked
      arrangement of the same pairs (what Python's `sorted` returns) is this one. */
  lemma RankedUnique(ws: seq<(string, int)>, other: seq<(string, int)>)
    requires KeyFunctional(ws)
    requires multiset(other) == multiset(ws)
    requires SortedBy(RankBefore, other)
    ensures other == Ranked(ws)
  {
    var r := Ranked(ws);
    RankTotal(ws);
    assert forall p | p in r :: p in multiset(ws);
    StrictTotalSub(RankBefore, ws, r);
    SortedUnique(RankBefore, r, other);
  }

  /** `extract_auto_tags`: the `maxTags` best-ranked eligible words of the title and
      body. */
  function ExtractAutoTags(title: Option<string>, body: Option<string>, maxTags: int, minLen: int, stop: set<string>): (r: seq<string>)
    ensures maxTags >= 0 ==> |r| <= maxTags
    ensures NoDups(r)
    ensures forall k :: 0 <= k < |r| ==> Eligible(r[k], minLen, stop)
  {
    var ws := Weights(title, body, minLen, stop);
    var top := Take(Ranked(ws), maxTags);
    RankedKeys(ws, top);
    Keys(top)
  }

  /** The keys of a prefix of the ranked table are distinct, eligible and positive. */
  lemma RankedKeys(ws: seq<(string, int)>, top: seq<(string, int)>)
    requires KeyFunctional(ws)
    requires exists n :: 0 <= n <= |Ranked(ws)| && top == Ranked(ws)[..n]
    ensures forall k :: 0 <= k < |top| ==> top[k] in ws
    ensures NoDups(Keys(top))
  {
    var r := Ranked(ws);
    var n :| 0 <= n <= |r| && top == r[..n];
    RankTotal(ws);
    forall k | 0 <= k < |top|
      ensures top[k] in ws
    {
      assert top[k] == r[k];
      assert r[k] in multiset(ws);
    }
    SortedNoDups(RankBefore, r) by {
      assert forall p | p in r :: p in multiset(ws);
      StrictTotalSub(RankBefore, ws, r);
    }
    forall i, j | 0 <= i < j < |top|
      ensures Keys(top)[i] != Keys(top)[j]
    {
      var a := top[i];
      var b := top[j];
      var x :| 0 <= x < |ws| && ws[x] == a;
      var y :| 0 <= y < |ws| && ws[y] == b;
      assert a != b;
    }
  }

  /** Each ranked pair is a pair of the table and holds its word's weight. */
  lemma RankedWeights(ws: seq<(string, int)>)
    requires KeyFunctional(ws)
    ensures forall k :: 0 <= k < |Ranked(ws)| ==> Ranked(ws)[k] in ws && Weight(ws, Ranked(ws)[k].0) == Ranked(ws)[k].1
  {
    var r := Ranked(ws);
    forall k | 0 <= k < |r|
      ensures r[k] in ws && Weight(ws, r[k].0) == r[k].1
    {
      assert r[k] in multiset(ws);
      var x :| 0 <= x < |ws| && ws[x] == r[k];
      PairWeight(ws, x);
    }
  }

  /** Every returned tag occurs in the title or the body. */
  lemma ExtractAutoTagsOccur(title: Option<string>, body: Option<string>, maxTags: int, minLen: int, stop: set<string>)
    ensures var r := ExtractAutoTags(title, body, maxTags, minLen, stop);
      forall k :: 0 <= k < |r| ==> Count(Tokenize(OrEmpty(body)), r[k]) + Count(Tokenize(OrEmpty(title)), r[k]) > 0
  {
    var ws := Weights(title, body, minLen, stop);
    var top := Take(Ranked(ws), maxTags);
    var r := Keys(top);
    RankedWeights(ws);
    forall k | 0 <= k < |r|
      ensures Count(Tokenize(OrEmpty(body)), r[k]) + Count(Tokenize(OrEmpty(title)), r[k]) > 0
    {
      assert top[k] == Ranked(ws)[k];
      assert top[k] in ws;
      WeightsCount(title, body, minLen, stop, r[k]);
    }
  }

  /** The tags come in ranking order: heavier first, equal weights by word. */
  lemma ExtractAutoTagsOrdered(title: Option<string>, body: Option<string>, maxTags: int, minLen: int, stop: set<string>)
    ensures var r := ExtractAutoTags(title, body, maxTags, minLen, stop);
      var ws := Weights(title, body, minLen, stop);
      forall i, j :: 0 <= i < j < |r| ==> RankBefore((r[i], Weight(ws, r[i])), (r[j], Weight(ws, r[j])))
  {
    var ws := Weights(title, body, minLen, stop);
    var ranked := Ranked(ws);
    var top := Take(ranked, maxTags);
    var r := Keys(top);
    RankedWeights(ws);
    forall i, j | 0 <= i < j < |r|
      ensures RankBefore((r[i], Weight(ws, r[i])), (r[j], Weight(ws, r[j])))
    {
      assert top[i] == ranked[i] && top[j] == ranked[j];
      assert (r[i], Weight(ws, r[i])) == ranked[i];
      assert (r[j], Weight(ws, r[j])) == ranked[j];
    }
  }

  lemma NotInPrefix(xs: seq<(string, int)>, n: nat, w: string)
    requires n <= |xs| && w !in Keys(xs[..n])
    ensures forall y :: 0 <= y < n ==> xs[y].0 != w
  {
    forall y | 0 <= y < n
      ensures xs[y].0 != w
    {
      assert Keys(xs[..n])[y] == xs[y].0;
    }
  }

  /** A counted word outside a prefix of the ranking ranks after everything in it. */
  lemma RankedPrefixFirst(ws: seq<(string, int)>, n: nat, w: string, k: nat)
    requires KeyFunctional(ws)
    requires n <= |Ranked(ws)| && k < n
    requires w in Keys(ws) && w !in Keys(Ranked(ws)[..n])
    ensures RankBefore(Ranked(ws)[k], (w, Weight(ws, w)))
  {
    var ranked := Ranked(ws);
    var x :| 0 <= x < |ws| && Keys(ws)[x] == w;
    PairWeight(ws, x);
    assert ws[x] in multiset(ranked);
    var y :| 0 <= y < |ranked| && ranked[y] == ws[x];
    NotInPrefix(ranked, n, w);
    assert n <= y;
    assert ws[x] == (w, Weight(ws, w));
    assert RankBefore(ranked[k], ranked[y]);
  }

  /** Top-N: a word that was counted but not returned ranks after every returned tag. */
  lemma ExtractAutoTagsTop(title: Option<string>, body: Option<string>, maxTags: int, minLen: int, stop: set<string>)
    ensures var r := ExtractAutoTags(title, body, maxTags, minLen, stop);
      var ws := Weights(title, body, minLen, stop);
      forall w, k :: w in Keys(ws) && w !in r && 0 <= k < |r| ==> RankBefore((r[k], Weight(ws, r[k])), (w, Weight(ws, w)))
  {
    var ws := Weights(title, body, minLen, stop);
    var ranked := Ranked(ws);
    var top := Take(ranked, maxTags);
    var r := Keys(top);
    RankedWeights(ws);
    forall w, k | w in Keys(ws) && w !in r && 0 <= k < |r|
      ensures RankBefore((r[k], Weight(ws, r[k])), (w, Weight(ws, w)))
    {
      RankedPrefixFirst(ws, |top|, w, k);
      assert top[k] == ranked[k];
      assert (r[k], Weight(ws, r[k])) == ranked[k];
    }
  }

  /** When `max_tags` does not cut the list, every counted word is returned. */
  lemma ExtractAutoTagsAll(title: Option<string>, body: Option<string>, maxTags: int, minLen: int, stop: set<string>)
    requires maxTags >= |Weights(title, body, minLen, stop)|
    ensures var r := ExtractAutoTags(title, body, maxTags, minLen, stop);
      forall w :: w in r <==> w in Keys(Weights(title, body, minLen, stop))
  {
    var ws := Weights(title, body, minLen, stop);
    var ranked := Ranked(ws);
    assert |ranked| == |multiset(ws)| == |ws|;
    assert Take(ranked, maxTags) == ranked;
    KeysOfSameBag(ws, ranked);
    KeysOfSameBag(ranked, ws);
  }

  /** Two tables holding the same pairs have the same words. */
  lemma KeysOfSameBag(a: seq<(string, int)>, b: seq<(string, int)>)
    requires multiset(a) == multiset(b)
    ensures forall w :: w in Keys(a) ==> w in Keys(b)
  {
    forall w | w in Keys(a)
      ensures w in Keys(b)
    {
      var x :| 0 <= x < |a| && Keys(a)[x] == w;
      assert a[x] in multiset(b);
      var y :| 0 <= y < |b| && b[y] == a[x];
      assert Keys(b)[y] == w;
    }
  }

  // ---------------- domain tag and de-duplication ----------------

  /** The domain tag of a link's host name: lower-cased, one leading "www." dropped. */
  function DomainOf(host: Option<string>): (r: string)
    ensures forall i :: 0 <= i < |r| ==> !('A' <= r[i] <= 'Z')
    ensures |r| <= |OrEmpty(host)|
  {
    var h := Lower(OrEmpty(host));
    if StartsWith(h, "www.") then h[4..] else h
  }

  /** The domain step: with `include_domain` and a non-empty link, the link's domain
      tag is appended when it is non-empty. `hostname` stands for
      `urlparse(link).hostname`, `None` when there is none or parsing fails. */
  function AddDomain(tags: seq<string>, includeDomain: bool, link: Option<string>, hostname: string -> Option<string>): (r: seq<string>)
    ensures r == tags || (|r| == |tags| + 1 && r[..|tags|] == tags && r[|tags|] != [])
    ensures !includeDomain || !Truthy(link) ==> r == tags
  {
    if includeDomain && Truthy(link) then
      var h := DomainOf(hostname(link.value));
      if h != [] then tags + [h] else tags
    else tags
  }

  /** The index of the first occurrence of `x` in `s`. */
  function FirstIndex(s: seq<string>, x: string): (k: nat)
    requires x in s
    ensures k < |s| && s[k] == x
    ensures forall j :: 0 <= j < k ==> s[j] != x
  {
    if s[0] == x then 0 else 1 + FirstIndex(s[1..], x)
  }

  /** The order-preserving de-duplication with the words already seen. */
  function DedupFrom(tags: seq<string>, seen: set<string>): (r: seq<string>)
    ensures NoDups(r)
    ensures forall t :: t in r <==> t in tags && t !in seen
    decreases |tags|
  {
    if |tags| == 0 then []
    else if tags[0] in seen then DedupFrom(tags[1..], seen)
    else
      var rest := DedupFrom(tags[1..], seen + {tags[0]});
      assert tags == [tags[0]] + tags[1..];
      [tags[0]] + rest
  }

  /** `[t for t in tags if not (t in seen or seen.add(t))]`: each tag once. */
  function Dedup(tags: seq<string>): (r: seq<string>)
    ensures NoDups(r)
    ensures forall t :: t in r <==> t in tags
  {
    DedupFrom(tags, {})
  }

  lemma FirstIndexTail(tags: seq<string>, x: string)
    requires |tags| > 0 && x in tags[1..] && x != tags[0]
    ensures FirstIndex(tags, x) == 1 + FirstIndex(tags[1..], x)
  {
  }

  /** `r` lists words of `tags` in the order of their first occurrences there. */
  predicate InFirstOrder(tags: seq<string>, r: seq<string>)
    requires forall k :: 0 <= k < |r| ==> r[k] in tags
  {
    forall i, j :: 0 <= i < j < |r| ==> FirstIndex(tags, r[i]) < FirstIndex(tags, r[j])
  }

  /** The de-duplicated list keeps first occurrences in their original order. */
  lemma {:induction false} DedupFromOrder(tags: seq<string>, seen: set<string>)
    ensures InFirstOrder(tags, DedupFrom(tags, seen))
    decreases |tags|
  {
    if |tags| > 0 {
      if tags[0] in seen {
        DedupFromOrder(tags[1..], seen);
        SkipOrder(tags, seen);
      } else {
        DedupFromOrder(tags[1..], seen + {tags[0]});
        KeepOrder(tags, seen);
      }
    }
  }

  /** A word already seen is skipped and the order of the rest carries over. */
  lemma SkipOrder(tags: seq<string>, seen: set<string>)
    requires |tags| > 0 && tags[0] in seen
    requires InFirstOrder(tags[1..], DedupFrom(tags[1..], seen))
    ensures InFirstOrder(tags, DedupFrom(tags, seen))
  {
    var t := tags[1..];
    var r := DedupFrom(tags, seen);
    assert r == DedupFrom(t, seen);
    forall i, j | 0 <= i < j < |r|
      ensures FirstIndex(tags, r[i]) < FirstIndex(tags, r[j])
    {
      assert r[i] in t && r[j] in t;
      FirstIndexTail(tags, r[i]);
      FirstIndexTail(tags, r[j]);
    }
  }

  /** A new word goes first, ahead of the words first met after it. */
  lemma KeepOrder(tags: seq<string>, seen: set<string>)
    requires |tags| > 0 && tags[0] !in seen
    requires InFirstOrder(tags[1..], DedupFrom(tags[1..], seen + {tags[0]}))
    ensures InFirstOrder(tags, DedupFrom(tags, seen))
  {
    var t := tags[1..];
    var rest := DedupFrom(t, seen + {tags[0]});
    var r := DedupFrom(tags, seen);
    assert r == [tags[0]] + rest;
    forall i, j | 0 <= i < j < |r|
      ensures FirstIndex(tags, r[i]) < FirstIndex(tags, r[j])
    {
      assert r[j] == rest[j - 1] && r[j] in rest;
      FirstIndexTail(tags, r[j]);
      if i > 0 {
        assert r[i] == rest[i - 1] && r[i] in rest;
        FirstIndexTail(tags, r[i]);
      }
    }
  }

  lemma DedupOrder(tags: seq<string>)
    ensures InFirstOrder(tags, Dedup(tags))
  {
    assert Dedup(tags) == DedupFrom(tags, {});
    DedupFromOrder(tags, {});
  }

  /** A list without repeats, none of them already seen, passes through unchanged. */
  lemma {:induction false} DedupFromKeeps(tags: seq<string>, seen: set<string>)
    requires NoDups(tags)
    requires forall k :: 0 <= k < |tags| ==> tags[k] !in seen
    ensures DedupFrom(tags, seen) == tags
    decreases |tags|
  {
    if |tags| > 0 {
      forall k | 0 <= k < |tags[1..]|
        ensures tags[1..][k] !in seen + {tags[0]}
      {
        assert tags[1..][k] == tags[k + 1];
      }
      DedupFromKeeps(tags[1..], seen + {tags[0]});
      assert tags == [tags[0]] + tags[1..];
    }
  }

  /** De-duplicating twice is de-duplicating once. */
  lemma DedupIdempotent(tags: seq<string>)
    ensures Dedup(Dedup(tags)) == Dedup(tags)
  {
    DedupFromKeeps(Dedup(tags), {});
  }

  /** The tags `cmd_tags_auto` computes for one item: the extracted words (at the
      default minimum length 3), the domain tag, de-duplicated. `body` is the item's
      text as `html_to_text` renders it. */
  function AutoTagsFor(title: Option<string>, body: string, link: Option<string>, maxTags: int, stop: set<string>,
                       includeDomain: bool, hostname: string -> Option<string>): (r: seq<string>)
    ensures NoDups(r)
    ensures forall t :: t in r ==> t in ExtractAutoTags(title, Some(body), maxTags, 3, stop) || (Truthy(link) && t == DomainOf(hostname(link.value)))
    ensures forall t :: t in ExtractAutoTags(title, Some(body), maxTags, 3, stop) ==> t in r
  {
    Dedup(AddDomain(ExtractAutoTags(title, Some(body), maxTags, 3, stop), includeDomain, link, hostname))
  }

  // ---------------- tag writers ----------------

  /** `name.strip().lower()`. */
  function Norm(name: string): string {
    Lower(Strip(name))
  }

  /** A normalised name is already lower-case and has no whitespace at either end,
      so normalising it again changes nothing. */
  lemma NormShape(name: string)
    ensures var r := Norm(name);
      && Lower(r) == r
      && (|r| > 0 ==> !IsSpace(r[0]) && !IsSpace(r[|r| - 1]))
      && Norm(r) == r
  {
    var s := Strip(name);
    var r := Lower(s);
    LowerTwice(s);
    if |r| > 0 {
      LowerKeepsSpace(s[0]);
      LowerKeepsSpace(s[|s| - 1]);
    }
    TrimByKeeps(r, IsSpace);
  }

  /** Lowering is idempotent. */
  lemma LowerTwice(s: string)
    ensures Lower(Lower(s)) == Lower(s)
  {
  }

  /** Lowering a character does not change whether it is whitespace. */
  lemma LowerKeepsSpace(c: char)
    ensures IsSpace(LowerChar(c)) == IsSpace(c)
  {
  }

  /** The tag names a list of raw names stands for. */
  function NormSet(names: seq<string>): set<string> {
    set n | n in names && Norm(n) != [] :: Norm(n)
  }

  /** `upsert_tag`: the normalised name, created if new; `None` for a blank name. */
  function UpsertTag(db: Store.Db, name: string): (r: (Store.Db, Option<string>))
    ensures r.1.None? <==> Norm(name) == []
    ensures r.1.Some? ==> r.1.value == Norm(name) && r.0 == db.(tags := db.tags + {Norm(name)})
    ensures r.1.None? ==> r.0 == db
  {
    var n := Norm(name);
    if n == [] then (db, None) else (db.(tags := db.tags + {n}), Some(n))
  }

  /** The links from item `id` to each of the tags `ns`. */
  function Links(id: nat, ns: set<string>): set<(nat, string)> {
    set n | n in ns :: (id, n)
  }

  /** The tag a raw name stands for, if any. */
  function NormOf(name: string): set<string> {
    if Norm(name) != [] then {Norm(name)} else {}
  }

  /** One pass of the insert loop of `replace_item_tags`: upsert the tag, then link
      it to the item. */
  function LinkOne(db: Store.Db, id: nat, name: string): (r: Store.Db)
    ensures r.tags == db.tags + NormOf(name)
    ensures r.itemTags == db.itemTags + Links(id, NormOf(name))
    ensures r.feeds == db.feeds && r.feedGroups == db.feedGroups && r.items == db.items && r.nextId == db.nextId
  {
    var u := UpsertTag(db, name);
    if u.1.Some? then u.0.(itemTags := u.0.itemTags + {(id, u.1.value)}) else u.0
  }

  /** The insert loop of `replace_item_tags`. */
  function LinkTags(db: Store.Db, id: nat, names: seq<string>): (r: Store.Db)
    ensures r.feeds == db.feeds && r.feedGroups == db.feedGroups && r.items == db.items && r.nextId == db.nextId
    decreases |names|
  {
    if |names| == 0 then db else LinkTags(LinkOne(db, id, names[0]), id, names[1..])
  }

  lemma NormSetCons(names: seq<string>)
    requires |names| > 0
    ensures NormSet(names) == NormOf(names[0]) + NormSet(names[1..])
  {
    assert forall x :: x in names <==> x == names[0] || x in names[1..];
  }

  lemma LinksUnion(id: nat, a: set<string>, b: set<string>)
    ensures Links(id, a + b) == Links(id, a) + Links(id, b)
  {
  }

  lemma {:induction false} LinkTagsResult(db: Store.Db, id: nat, names: seq<string>)
    ensures var r := LinkTags(db, id, names);
      && r.tags == db.tags + NormSet(names)
      && r.itemTags == db.itemTags + Links(id, NormSet(names))
    decreases |names|
  {
    if |names| > 0 {
      var d := LinkOne(db, id, names[0]);
      LinkTagsResult(d, id, names[1..]);
      NormSetCons(names);
      LinksUnion(id, NormOf(names[0]), NormSet(names[1..]));
    }
  }

  /** Why `replace_item_tags` can fail: linking a tag to an item that does not exist
      breaks the foreign key (the store enforces foreign keys), and the transaction
      is not committed. */
  datatype TagError = NoSuchItem(id: nat)

  /** `replace_item_tags`: drop the item's tag links, then link each non-blank
      normalised name. */
  function ReplaceItemTags(db: Store.Db, id: nat, names: seq<string>): (r: Result<Store.Db, TagError>)
    ensures r.Err? <==> id !in db.items && NormSet(names) != {}
    ensures r.Ok? ==> r.value.feeds == db.feeds && r.value.items == db.items && r.value.nextId == db.nextId
  {
    if id !in db.items && NormSet(names) != {} then Err(NoSuchItem(id))
    else Ok(LinkTags(db.(itemTags := set p | p in db.itemTags && p.0 != id), id, names))
  }

  /** After `replace_item_tags` the item carries exactly the normalised names, every
      other item keeps its tags, and tags are only ever added. */
  lemma ReplaceItemTagsResult(db: Store.Db, id: nat, names: seq<string>)
    requires id in db.items
    ensures var r := ReplaceItemTags(db, id, names);
      && r.Ok?
      && Store.TagsOf(r.value, id) == NormSet(names)
      && (forall other | other != id :: Store.TagsOf(r.value, other) == Store.TagsOf(db, other))
      && r.value.tags == db.tags + NormSet(names)
  {
    var cleared := db.(itemTags := set p | p in db.itemTags && p.0 != id);
    LinkTagsResult(cleared, id, names);
    var r := LinkTags(cleared, id, names);
    RelinkedTags(db, r, id, NormSet(names));
  }

  /** Dropping an item's links and adding `ns` gives that item exactly `ns`
      and leaves every other item's tags alone. */
  lemma RelinkedTags(db: Store.Db, r: Store.Db, id: nat, ns: set<string>)
    requires r.itemTags == (set p | p in db.itemTags && p.0 != id) + Links(id, ns)
    ensures Store.TagsOf(r, id) == ns
    ensures forall other | other != id :: Store.TagsOf(r, other) == Store.TagsOf(db, other)
  {
    assert Store.TagsOf(r, id) == ns by {
      forall n | n in Store.TagsOf(r, id)
        ensures n in ns
      {
        assert (id, n) in r.itemTags;
      }
      forall n | n in ns
        ensures n in Store.TagsOf(r, id)
      {
        assert (id, n) in r.itemTags;
      }
    }
    forall other | other != id
      ensures Store.TagsOf(r, other) == Store.TagsOf(db, other)
    {
      forall n | n in Store.TagsOf(db, other)
        ensures n in Store.TagsOf(r, other)
      {
        assert (other, n) in db.itemTags;
        assert (other, n) in r.itemTags;
      }
    }
  }

  lemma ReplaceItemTagsIdempotent(db: Store.Db, id: nat, names: seq<string>)
    requires id in db.items
    ensures var r := ReplaceItemTags(db, id, names);
      r.Ok? && ReplaceItemTags(r.value, id, names) == r
  {
    var r := ReplaceItemTags(db, id, names).value;
    ReplaceItemTagsResult(db, id, names);
    ReplaceItemTagsResult(r, id, names);
    var r2 := ReplaceItemTags(r, id, names).value;
    assert r2.tags == r.tags;
    forall p | p in r2.itemTags
      ensures p in r.itemTags
    {
      if p.0 == id {
        assert p.1 in Store.TagsOf(r2, id);
      } else {
        assert p.1 in Store.TagsOf(r2, p.0);
      }
    }
    forall p | p in r.itemTags
      ensures p in r2.itemTags
    {
      if p.0 == id {
        assert p.1 in Store.TagsOf(r, id);
      } else {
        assert p.1 in Store.TagsOf(r, p.0);
      }
    }
    assert r2.itemTags == r.itemTags;
    assert r2 == r;
  }

  /** Replacing an item's tags keeps the store's constraints. */
  lemma ReplaceItemTagsValid(db: Store.Db, id: nat, names: seq<string>)
    requires Store.Valid(db) && id in db.items
    ensures Store.Valid(ReplaceItemTags(db, id, names).value)
  {
    var cleared := db.(itemTags := set p | p in db.itemTags && p.0 != id);
    LinkTagsResult(cleared, id, names);
    var r := ReplaceItemTags(db, id, names).value;
    assert forall i, u, g | Store.KeyAt(r, i, u, g) :: Store.KeyAt(db, i, u, g);
  }
}

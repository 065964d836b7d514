/** Two small text helpers of rssel.py: `slugify`, which turns a title into the
    file-name part of an exported item, and `parse_selected_id`, which reads the
    item id back from a line the picker hands back. */
module TextUtil {
  import opened Wrappers
  import opened PyStr
  import Sorting

  // ---------------- slugify ----------------

  predicate SlugAlnum(c: char) {
    'a' <= c <= 'z' || '0' <= c <= '9'
  }

  /** The characters a slug is made of. */
  predicate SlugChar(c: char) {
    SlugAlnum(c) || c == '-'
  }

  /** The characters `[\s_]` that become a hyphen. */
  predicate Gap(c: char) {
    IsSpace(c) || c == '_'
  }

  predicate Hyphen(c: char) {
    c == '-'
  }

  /** No two hyphens in a row. */
  predicate NoDoubled(s: string) {
    forall k | 0 <= k < |s| - 1 :: !(s[k] == '-' && s[k + 1] == '-')
  }

  /** `re.sub(r"[^a-z0-9\-\s_]+", "", s)`: every other character is removed. */
  function KeepSlugChars(s: string): (r: string)
    ensures |r| <= |s|
    ensures forall k | 0 <= k < |r| :: SlugChar(r[k]) || Gap(r[k])
    ensures (forall k | 0 <= k < |s| :: SlugChar(s[k]) || Gap(s[k])) ==> r == s
  {
    if |s| == 0 then []
    else if SlugChar(s[0]) || Gap(s[0]) then [s[0]] + KeepSlugChars(s[1..])
    else KeepSlugChars(s[1..])
  }

  /** A character survives the filter exactly when it occurs and is allowed. */
  lemma {:induction false} KeepSlugCharsHas(s: string, c: char)
    ensures c in KeepSlugChars(s) <==> c in s && (SlugChar(c) || Gap(c))
    decreases |s|
  {
    if |s| > 0 {
      KeepSlugCharsHas(s[1..], c);
      assert s == [s[0]] + s[1..];
    }
  }

  /** `re.sub("[<p>]+", "-", s)`: each maximal run of characters satisfying `p`
      becomes one hyphen. */
  function Squeeze(s: string, p: char -> bool): (r: string)
    ensures forall k | 0 <= k < |r| :: r[k] == '-' || !p(r[k])
    ensures |s| > 0 ==> |r| > 0 && (r[0] == '-' <==> p(s[0]) || s[0] == '-')
    ensures (forall k | 0 <= k < |s| :: !p(s[k])) ==> r == s
    ensures p('-') ==> NoDoubled(r)
    decreases |s|
  {
    if |s| == 0 then []
    else if p(s[0]) then "-" + Squeeze(s[KeptFrom(s, p, 0)..], p)
    else [s[0]] + Squeeze(s[1..], p)
  }

  /** Squeezing adds no character but the hyphen and keeps every character outside
      the runs. */
  lemma {:induction false} SqueezeHas(s: string, p: char -> bool, c: char)
    ensures c in Squeeze(s, p) && c != '-' ==> c in s
    ensures c in s && !p(c) ==> c in Squeeze(s, p)
    decreases |s|
  {
    if |s| > 0 {
      assert s == [s[0]] + s[1..];
      if p(s[0]) {
        var i := KeptFrom(s, p, 0);
        SqueezeHas(s[i..], p, c);
        assert s == s[..i] + s[i..];
        assert c in s[..i] ==> p(c);
      } else {
        SqueezeHas(s[1..], p, c);
      }
    }
  }

  /** The slug before the fallback and the cut: stripped, lowered, foreign
      characters dropped, runs of spaces and underscores made hyphens, runs of
      hyphens made one, and hyphens stripped from both ends. */
  function SlugBody(text: string): string {
    Hyphenate(Filtered(text))
  }

  /** Stripped, lowered, and only slug characters, spaces and underscores kept. */
  function Filtered(text: string): string {
    KeepSlugChars(Lower(Strip(text)))
  }

  /** Runs of spaces and underscores made hyphens, runs of hyphens made one, and
      hyphens stripped from both ends. */
  function Hyphenate(s: string): string {
    TrimBy(Squeeze(Squeeze(s, Gap), Hyphen), Hyphen)
  }

  /** A text shaped like a slug: slug characters only, no doubled hyphen, and no
      hyphen at either end. */
  predicate SlugShaped(s: string) {
    && (forall k | 0 <= k < |s| :: SlugChar(s[k]))
    && NoDoubled(s)
    && (|s| > 0 ==> s[0] != '-' && s[|s| - 1] != '-')
  }

  /** The body, or "item" when the body is empty. */
  function SlugOrItem(text: string): (f: string)
    ensures |f| > 0 && SlugShaped(f)
  {
    var body := SlugBody(text);
    SlugBodyShape(text);
    ItemShaped();
    if |body| == 0 then "item" else body
  }

  lemma ItemShaped()
    ensures SlugShaped("item")
  {
    var t := "item";
    assert forall k | 0 <= k < |t| :: SlugAlnum(t[k]);
  }

  /** `slugify(text, max_len)`: the body, or "item" when the body is empty, cut to
      `max_len` characters as Python's `[:max_len]` cuts (a negative bound counts
      from the end). */
  function Slugify(text: string, maxLen: int): (r: string)
    ensures forall k | 0 <= k < |r| :: SlugChar(r[k])
    ensures NoDoubled(r)
    ensures |r| > 0 ==> r[0] != '-'
    ensures 0 < |r| < maxLen ==> r[|r| - 1] != '-'
    ensures maxLen >= |SlugOrItem(text)| ==> r == SlugOrItem(text)
    ensures maxLen >= 0 ==> |r| <= maxLen
    ensures maxLen > 0 ==> |r| > 0
  {
    var f := SlugOrItem(text);
    var r := Sorting.Take(f, maxLen);
    PrefixShape(f, r);
    r
  }

  /** A prefix of a slug keeps its characters, its single hyphens and its first
      character. */
  lemma PrefixShape(f: string, r: string)
    requires SlugShaped(f) && |r| <= |f| && r == f[..|r|]
    ensures forall k | 0 <= k < |r| :: SlugChar(r[k])
    ensures NoDoubled(r)
    ensures |r| > 0 ==> r[0] != '-'
    ensures |r| == |f| ==> r == f
  {
    assert forall k | 0 <= k < |r| :: r[k] == f[k];
  }

  /** The body is shaped like a slug. */
  lemma SlugBodyShape(text: string)
    ensures SlugShaped(SlugBody(text))
  {
    var s1 := KeepSlugChars(Lower(Strip(text)));
    var s2 := Squeeze(s1, Gap);
    var s3 := Squeeze(s2, Hyphen);
    forall k | 0 <= k < |s2|
      ensures SlugChar(s2[k])
    {
      SqueezeHas(s1, Gap, s2[k]);
    }
    TrimNoDoubled(s3, Hyphen);
    var b := TrimBy(s3, Hyphen);
    forall k | 0 <= k < |b|
      ensures SlugChar(b[k])
    {
      SqueezeHas(s2, Hyphen, b[k]);
    }
  }

  /** Stripping keeps a text free of doubled hyphens: it keeps a contiguous piece. */
  lemma TrimNoDoubled(s: string, drop: char -> bool)
    requires NoDoubled(s)
    ensures NoDoubled(TrimBy(s, drop))
  {
    var a := TrimStart(s, drop);
    var off := |s| - |a|;
    assert forall k | 0 <= k < |a| :: a[k] == s[off + k];
  }

  /** A text with a letter or digit (once lowered) has a non-empty body; one
      without any gets the "item" fallback. */
  lemma SlugFallbackIff(text: string)
    ensures |SlugBody(text)| == 0 <==> forall k | 0 <= k < |text| :: !SlugAlnum(LowerChar(text[k]))
  {
    if |SlugBody(text)| > 0 {
      BodyHasLetter(text);
    } else {
      forall k | 0 <= k < |text|
        ensures !SlugAlnum(LowerChar(text[k]))
      {
        LetterSurvives(text, k);
      }
    }
  }

  /** A non-empty body starts with a letter or digit of the text, lowered. */
  lemma BodyHasLetter(text: string)
    requires |SlugBody(text)| > 0
    ensures exists k | 0 <= k < |text| :: SlugAlnum(LowerChar(text[k]))
  {
    var c := SlugBody(text)[0];
    SlugBodyShape(text);
    var s1 := Filtered(text);
    var s2 := Squeeze(s1, Gap);
    SqueezeHas(s2, Hyphen, c);
    SqueezeHas(s1, Gap, c);
    FilteredFromText(text, c);
  }

  /** A letter or digit that passes the filter is a character of the text, lowered. */
  lemma FilteredFromText(text: string, c: char)
    requires c in Filtered(text) && SlugAlnum(c)
    ensures exists k | 0 <= k < |text| :: SlugAlnum(LowerChar(text[k]))
  {
    var s0 := Strip(text);
    var l := Lower(s0);
    KeepSlugCharsHas(l, c);
    var j :| 0 <= j < |l| && l[j] == c;
    assert s0[j] in text;
    var k :| 0 <= k < |text| && text[k] == s0[j];
    assert SlugAlnum(LowerChar(text[k]));
  }

  /** A letter or digit of the text reaches the body. */
  lemma LetterSurvives(text: string, k: nat)
    requires k < |text|
    ensures SlugAlnum(LowerChar(text[k])) ==> |SlugBody(text)| > 0
  {
    var d := LowerChar(text[k]);
    if SlugAlnum(d) {
      LetterSqueezed(text, k);
      var s3 := Squeeze(Squeeze(Filtered(text), Gap), Hyphen);
      var i :| 0 <= i < |s3| && s3[i] == d;
      TrimByHas(s3, Hyphen, i);
    }
  }

  /** ... through both squeezes. */
  lemma LetterSqueezed(text: string, k: nat)
    requires k < |text| && SlugAlnum(LowerChar(text[k]))
    ensures LowerChar(text[k]) in Squeeze(Squeeze(Filtered(text), Gap), Hyphen)
  {
    var d := LowerChar(text[k]);
    var s1 := Filtered(text);
    LetterFiltered(text, k);
    SqueezeHas(s1, Gap, d);
    SqueezeHas(Squeeze(s1, Gap), Hyphen, d);
  }

  /** A letter or digit of the text, lowered, passes the character filter. */
  lemma LetterFiltered(text: string, k: nat)
    requires k < |text| && SlugAlnum(LowerChar(text[k]))
    ensures LowerChar(text[k]) in Filtered(text)
  {
    var c := text[k];
    var s0 := Strip(text);
    assert !IsSpace(c);
    TrimByHas(text, IsSpace, k);
    var j :| 0 <= j < |s0| && s0[j] == c;
    var l := Lower(s0);
    assert l[j] == LowerChar(c);
    KeepSlugCharsHas(l, LowerChar(c));
  }

  /** A text already shaped like a slug is its own body. */
  lemma SlugBodyFixpoint(s: string)
    requires |s| > 0 && SlugShaped(s)
    ensures SlugBody(s) == s
  {
    TrimByKeeps(s, IsSpace);
    assert Strip(s) == s;
    LowerSlug(s);
    var k := KeepSlugChars(s);
    assert k == s;
    var g := Squeeze(s, Gap);
    assert g == s;
    SqueezeSingles(s);
    TrimByKeeps(s, Hyphen);
  }

  lemma LowerSlug(s: string)
    requires forall k | 0 <= k < |s| :: SlugChar(s[k])
    ensures Lower(s) == s
  {
    var l := Lower(s);
    assert forall k | 0 <= k < |s| :: l[k] == s[k];
  }

  /** Squeezing hyphen runs leaves a text with only single hyphens alone. */
  lemma {:induction false} SqueezeSingles(s: string)
    requires NoDoubled(s)
    ensures Squeeze(s, Hyphen) == s
    decreases |s|
  {
    if |s| > 0 {
      assert NoDoubled(s[1..]);
      SqueezeSingles(s[1..]);
      if s[0] == '-' {
        assert KeptFrom(s, Hyphen, 0) == 1;
      }
    }
  }

  /** Slugifying a slug that was not cut in the middle of a hyphen gives it back. */
  lemma SlugifyIdempotent(text: string, maxLen: int)
    requires maxLen >= 0
    ensures var r := Slugify(text, maxLen);
      (|r| == 0 || r[|r| - 1] != '-') ==> Slugify(r, maxLen) == r
  {
    var r := Slugify(text, maxLen);
    if |r| > 0 && r[|r| - 1] != '-' {
      SlugBodyFixpoint(r);
      assert SlugOrItem(r) == r;
    }
  }

  /** A word of lowercase letters and digits. */
  predicate Word(x: string) {
    |x| > 0 && forall k | 0 <= k < |x| :: SlugAlnum(x[k])
  }

  /** Squeezing passes over a prefix with no character of the runs. */
  lemma {:induction false} SqueezeOver(x: string, z: string, p: char -> bool)
    requires forall k | 0 <= k < |x| :: !p(x[k])
    ensures Squeeze(x + z, p) == x + Squeeze(z, p)
    decreases |x|
  {
    if |x| > 0 {
      var t := x + z;
      assert t[0] == x[0] && !p(t[0]);
      assert t[1..] == x[1..] + z;
      var rest := Squeeze(t[1..], p);
      assert Squeeze(t, p) == [x[0]] + rest;
      SqueezeOver(x[1..], z, p);
      assert rest == x[1..] + Squeeze(z, p);
      assert [x[0]] + (x[1..] + Squeeze(z, p)) == x + Squeeze(z, p);
    } else {
      assert x + z == z;
    }
  }

  /** Text of slug characters and single spaces, with no space at either end, passes
      stripping, lowering and the character filter unchanged. */
  lemma PassesFilter(t: string)
    requires forall k | 0 <= k < |t| :: SlugChar(t[k]) || t[k] == ' '
    requires |t| > 0 ==> t[0] != ' ' && t[|t| - 1] != ' '
    ensures Filtered(t) == t
  {
    StripKeepsSlug(t);
    LowerKeepsSlug(t);
    assert forall k | 0 <= k < |t| :: SlugChar(t[k]) || Gap(t[k]);
  }

  lemma StripKeepsSlug(t: string)
    requires forall k | 0 <= k < |t| :: SlugChar(t[k]) || t[k] == ' '
    requires |t| > 0 ==> t[0] != ' ' && t[|t| - 1] != ' '
    ensures Strip(t) == t
  {
    if |t| > 0 {
      assert SlugChar(t[0]) && SlugChar(t[|t| - 1]);
    }
    TrimByKeeps(t, IsSpace);
  }

  lemma LowerKeepsSlug(t: string)
    requires forall k | 0 <= k < |t| :: SlugChar(t[k]) || t[k] == ' '
    ensures Lower(t) == t
  {
    var l := Lower(t);
    assert forall k | 0 <= k < |t| :: l[k] == t[k];
  }

  /** The space between two words becomes a hyphen. */
  lemma SqueezeSpaced(x: string, y: string)
    requires Word(x) && Word(y)
    ensures Squeeze(x + " " + y, Gap) == x + "-" + y
  {
    SqueezeOver(x, " " + y, Gap);
    SqueezeLeadingSpace(y);
    assert x + " " + y == x + (" " + y);
    assert x + "-" + y == x + ("-" + y);
  }

  lemma SqueezeLeadingSpace(y: string)
    requires Word(y)
    ensures Squeeze(" " + y, Gap) == "-" + y
  {
    var t := " " + y;
    assert KeptFrom(t, Gap, 1) == 1;
    assert t[1..] == y;
    assert Squeeze(y, Gap) == y;
  }

  /** Two words with one space between them become the words joined by a hyphen. */
  lemma HyphenateSpaced(x: string, y: string)
    requires Word(x) && Word(y)
    ensures Hyphenate(x + " " + y) == x + "-" + y
  {
    SqueezeSpaced(x, y);
    var h := x + "-" + y;
    assert forall k | 0 <= k < |h| :: h[k] == '-' <==> k == |x|;
    SqueezeSingles(h);
    TrimByKeeps(h, Hyphen);
  }

  /** Two words with one space between them slugify to the words joined by a
      hyphen. */
  lemma SpacedWords(x: string, y: string)
    requires Word(x) && Word(y)
    ensures SlugBody(x + " " + y) == x + "-" + y
  {
    var t := x + " " + y;
    assert forall k | 0 <= k < |t| :: SlugChar(t[k]) || t[k] == ' ' by {
      assert forall k | 0 <= k < |t| :: t[k] == if k < |x| then x[k] else if k == |x| then ' ' else y[k - |x| - 1];
    }
    PassesFilter(t);
    HyphenateSpaced(x, y);
  }

  /** The trailing hyphen after a word is stripped. */
  lemma HyphenateEnded(x: string)
    requires Word(x)
    ensures Hyphenate(x + "-") == x
  {
    var t := x + "-";
    assert forall k | 0 <= k < |t| :: SlugChar(t[k]) && (t[k] == '-' <==> k == |x|);
    assert Squeeze(t, Gap) == t;
    SqueezeSingles(t);
    assert KeptFrom(t, Hyphen, 0) == 0;
    assert TrimStart(t, Hyphen) == t;
    assert KeptUntil(t, Hyphen, |x|) == |x|;
    assert KeptUntil(t, Hyphen, |t|) == |x|;
  }

  /** A word followed by a hyphen slugifies to the word. */
  lemma HyphenEnded(x: string)
    requires Word(x)
    ensures SlugBody(x + "-") == x
  {
    var t := x + "-";
    assert forall k | 0 <= k < |t| :: SlugChar(t[k]);
    PassesFilter(t);
    HyphenateEnded(x);
  }

  /** The cut can leave a trailing hyphen, which a second pass strips, so `slugify`
      is not idempotent on a cut slug: "ab cd" cut to three characters is "ab-",
      and "ab-" cut to three is "ab". */
  lemma CutEndsInHyphen(x: string, y: string)
    requires Word(x) && Word(y)
    ensures Slugify(x + " " + y, |x| + 1) == x + "-"
    ensures Slugify(x + "-", |x| + 1) == x
  {
    SpacedWords(x, y);
    assert SlugOrItem(x + " " + y) == x + "-" + y;
    assert (x + "-" + y)[..|x| + 1] == x + "-";
    HyphenEnded(x);
    assert SlugOrItem(x + "-") == x;
  }

  // ---------------- parse_selected_id ----------------

  predicate NotTab(c: char) {
    c != '\t'
  }

  /** `line.split("\t", 1)[0]`: the text before the first tab, or all of it. */
  function FirstField(line: string): (r: string)
    ensures |r| <= |line| && r == line[..|r|] && '\t' !in r
    ensures |r| < |line| ==> line[|r|] == '\t'
  {
    line[..KeptFrom(line, NotTab, 0)]
  }

  /** `parse_selected_id`: the picked line's first tab-separated field read as an
      integer; `None` for a missing or empty line and for a field `int()` rejects. */
  function ParseSelectedId(line: Option<string>): (r: Option<int>)
    ensures !Truthy(line) ==> r == None
  {
    if !Truthy(line) then None else PyInt(Strip(FirstField(line.value)))
  }

  /** Only the first field counts: what follows the first tab is never read. */
  lemma FirstFieldOnly(field: string, rest: string)
    requires '\t' !in field
    ensures ParseSelectedId(Some(field + "\t" + rest)) == PyInt(field)
  {
    var line := field + "\t" + rest;
    assert forall j | 0 <= j < |field| :: line[j] == field[j];
    assert forall j | 0 <= j < |field| :: NotTab(line[j]);
    assert !NotTab(line[|field|]);
    assert KeptFrom(line, NotTab, 0) == |field|;
    assert FirstField(line) == field;
    StripIdempotent(field);
  }

  /** The picker's lines start with the item id and a tab (rssel.py builds them as
      `f"{iid}\t..."`), and the id reads back unchanged. */
  lemma PickedIdRoundTrip(n: int, rest: string)
    ensures ParseSelectedId(Some(IntText(n) + "\t" + rest)) == Some(n)
  {
    var t := IntText(n);
    assert forall i | 0 <= i < |t| :: t[i] == '-' || IsDigit(t[i]);
    FirstFieldOnly(t, rest);
    PyIntRoundTrip(n);
  }
}

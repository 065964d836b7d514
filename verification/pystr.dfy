/** The handful of Python string built-ins the program leans on, written out over
    `seq<char>`: `str.strip`, `str.lower`, `str.isdigit`, `startswith`/`endswith`,
    substring tests, `re.split` on a character class, the `or` operator on
    optional strings, and the built-in `int()` on decimal text. */
module PyStr {
  import opened Wrappers

  /** The characters for which Python's `str.isspace()` holds; they are what
      `str.strip()` removes and what the `\s` regular-expression class matches. */
  predicate IsSpace(c: char) {
    var n := c as int;
    n == 32 || 9 <= n <= 13 || 28 <= n <= 31 || n == 0x85 || n == 0xA0 || n == 0x1680
    || 0x2000 <= n <= 0x200A || n == 0x2028 || n == 0x2029 || n == 0x202F || n == 0x205F
    || n == 0x3000
  }

  predicate IsDigit(c: char) {
    '0' <= c <= '9'
  }

  predicate IsAsciiLower(c: char) {
    'a' <= c <= 'z'
  }

  /** The index of the first character of `s` at or after `i` that `drop` keeps. */
  function KeptFrom(s: string, drop: char -> bool, i: nat): (k: nat)
    requires i <= |s|
    ensures i <= k <= |s|
    ensures forall j :: i <= j < k ==> drop(s[j])
    ensures k < |s| ==> !drop(s[k])
    decreases |s| - i
  {
    if i < |s| && drop(s[i]) then KeptFrom(s, drop, i + 1) else i
  }

  /** One past the last character of `s[..i]` that `drop` keeps. */
  function KeptUntil(s: string, drop: char -> bool, i: nat): (k: nat)
    requires i <= |s|
    ensures k <= i
    ensures forall j :: k <= j < i ==> drop(s[j])
    ensures k > 0 ==> !drop(s[k - 1])
  {
    if i > 0 && drop(s[i - 1]) then KeptUntil(s, drop, i - 1) else i
  }

  /** Drops the leading characters that satisfy `drop`. */
  function TrimStart(s: string, drop: char -> bool): (r: string)
    ensures |r| <= |s| && r == s[|s| - |r|..]
    ensures |r| > 0 ==> !drop(r[0])
    ensures forall i :: 0 <= i < |s| - |r| ==> drop(s[i])
  {
    s[KeptFrom(s, drop, 0)..]
  }

  /** Drops the trailing characters that satisfy `drop`. */
  function TrimEnd(s: string, drop: char -> bool): (r: string)
    ensures |r| <= |s| && r == s[..|r|]
    ensures |r| > 0 ==> !drop(r[|r| - 1])
    ensures forall i :: |r| <= i < |s| ==> drop(s[i])
  {
    s[..KeptUntil(s, drop, |s|)]
  }

  /** `s.strip(chars)` where `drop` tells the characters to strip. */
  function TrimBy(s: string, drop: char -> bool): (r: string)
    ensures |r| <= |s|
    ensures |r| > 0 ==> !drop(r[0]) && !drop(r[|r| - 1])
    ensures forall c :: c in r ==> c in s
  {
    var a := TrimStart(s, drop);
    var b := TrimEnd(a, drop);
    assert forall c :: c in b ==> c in a;
    b
  }

  /** A character that is not stripped survives the strip. */
  lemma TrimByHas(s: string, drop: char -> bool, i: nat)
    requires i < |s| && !drop(s[i])
    ensures s[i] in TrimBy(s, drop)
  {
    var a := TrimStart(s, drop);
    var off := |s| - |a|;
    assert a[i - off] == s[i];
    var b := TrimEnd(a, drop);
    assert b[i - off] == s[i];
  }

  /** Python's `s.strip()`. */
  function Strip(s: string): string {
    TrimBy(s, IsSpace)
  }

  /** Nothing is stripped from a text whose ends are not strippable. */
  lemma TrimByKeeps(s: string, drop: char -> bool)
    requires |s| > 0 ==> !drop(s[0]) && !drop(s[|s| - 1])
    ensures TrimBy(s, drop) == s
  {
  }

  /** Stripping twice is stripping once. */
  lemma StripIdempotent(s: string)
    ensures Strip(Strip(s)) == Strip(s)
  {
    TrimByKeeps(Strip(s), IsSpace);
  }

  function LowerChar(c: char): char {
    if 'A' <= c <= 'Z' then (c as int + 32) as char else c
  }

  /** Python's `s.lower()`, on the ASCII letters (see README for the rest of Unicode). */
  function Lower(s: string): (r: string)
    ensures |r| == |s|
    ensures forall i :: 0 <= i < |s| ==> r[i] == LowerChar(s[i])
  {
    if |s| == 0 then [] else [LowerChar(s[0])] + Lower(s[1..])
  }

  /** Python's `s.isdigit()` on ASCII text: non-empty and only digits. */
  predicate IsDigits(s: string) {
    |s| > 0 && forall i :: 0 <= i < |s| ==> IsDigit(s[i])
  }

  predicate StartsWith(s: string, p: string) {
    |p| <= |s| && s[..|p|] == p
  }

  predicate EndsWith(s: string, p: string) {
    |p| <= |s| && s[|s| - |p|..] == p
  }

  /** Python's `p in s` on strings: `p` occurs somewhere in `s` as a contiguous piece. */
  predicate Contains(s: string, p: string) {
    exists i :: 0 <= i <= |s| - |p| && OccursAt(s, p, i)
  }

  /** `p` occurs in `s` starting at index `i`. */
  predicate OccursAt(s: string, p: string, i: int) {
    0 <= i <= |s| - |p| && s[i..i + |p|] == p
  }

  /** The pieces of `s` between runs of separator characters, empty pieces dropped:
      Python's `[w for w in re.split("[<sep>]+", s) if w]`. */
  function SplitRuns(s: string, sep: char -> bool): (r: seq<string>)
    ensures forall k :: 0 <= k < |r| ==> |r[k]| > 0
    ensures forall k, i :: 0 <= k < |r| && 0 <= i < |r[k]| ==> !sep(r[k][i])
  {
    SplitFrom(s, sep, [])
  }

  /** `SplitRuns` with `cur` the piece read so far. */
  function SplitFrom(s: string, sep: char -> bool, cur: string): (r: seq<string>)
    requires forall i :: 0 <= i < |cur| ==> !sep(cur[i])
    ensures forall k :: 0 <= k < |r| ==> |r[k]| > 0
    ensures forall k, i :: 0 <= k < |r| && 0 <= i < |r[k]| ==> !sep(r[k][i])
    decreases |s|
  {
    if |s| == 0 then
      (if cur == [] then [] else [cur])
    else if sep(s[0]) then
      (if cur == [] then [] else [cur]) + SplitFrom(s[1..], sep, [])
    else
      SplitFrom(s[1..], sep, cur + [s[0]])
  }

  /** The pieces joined with the separator character `c` between them. */
  function Join(parts: seq<string>, c: char): string {
    if |parts| == 0 then []
    else if |parts| == 1 then parts[0]
    else parts[0] + [c] + Join(parts[1..], c)
  }

  lemma {:induction false} SplitFromRun(p: string, rest: string, sep: char -> bool, cur: string)
    requires forall i :: 0 <= i < |cur| ==> !sep(cur[i])
    requires forall i :: 0 <= i < |p| ==> !sep(p[i])
    ensures SplitFrom(p + rest, sep, cur) == SplitFrom(rest, sep, cur + p)
    decreases |p|
  {
    if |p| == 0 {
      assert p + rest == rest;
      assert cur + p == cur;
    } else {
      assert (p + rest)[0] == p[0];
      assert (p + rest)[1..] == p[1..] + rest;
      SplitFromRun(p[1..], rest, sep, cur + [p[0]]);
      assert cur + [p[0]] + p[1..] == cur + p;
    }
  }

  /** Splitting undoes joining: non-empty pieces free of separators, joined with a
      separator, split back into exactly those pieces. */
  lemma {:induction false} SplitJoin(parts: seq<string>, c: char, sep: char -> bool)
    requires sep(c)
    requires forall k :: 0 <= k < |parts| ==> |parts[k]| > 0
    requires forall k, i :: 0 <= k < |parts| && 0 <= i < |parts[k]| ==> !sep(parts[k][i])
    ensures SplitRuns(Join(parts, c), sep) == parts
  {
    if |parts| == 0 {
    } else if |parts| == 1 {
      SplitFromRun(parts[0], [], sep, []);
      assert parts[0] + [] == parts[0];
      assert [] + parts[0] == parts[0];
    } else {
      var tail := [c] + Join(parts[1..], c);
      assert Join(parts, c) == parts[0] + tail;
      SplitFromRun(parts[0], tail, sep, []);
      assert [] + parts[0] == parts[0];
      assert tail[0] == c && tail[1..] == Join(parts[1..], c);
      SplitJoin(parts[1..], c, sep);
      assert parts == [parts[0]] + parts[1..];
    }
  }

  /** Python truthiness of an optional string: present and non-empty. */
  predicate Truthy(o: Option<string>) {
    o.Some? && o.value != []
  }

  /** Python's `a or b` on optional strings. */
  function Or(a: Option<string>, b: Option<string>): (r: Option<string>)
    ensures Truthy(a) ==> r == a
    ensures !Truthy(a) ==> r == b
  {
    if Truthy(a) then a else b
  }

  /** Python's `s or ""`. */
  function OrEmpty(o: Option<string>): string {
    if o.Some? then o.value else []
  }

  // ---------------- int() on decimal text ----------------

  function DigitValue(c: char): nat
    requires IsDigit(c)
  {
    c as int - '0' as int
  }

  function DigitChar(d: nat): (c: char)
    requires d < 10
    ensures IsDigit(c) && DigitValue(c) == d
  {
    ('0' as int + d) as char
  }

  /** The value of a run of decimal digits, most significant first. */
  function DigitsValue(ds: string): nat
    requires forall i :: 0 <= i < |ds| ==> IsDigit(ds[i])
  {
    if |ds| == 0 then 0 else 10 * DigitsValue(ds[..|ds| - 1]) + DigitValue(ds[|ds| - 1])
  }

  /** Python's decimal digit grammar: digits with single underscores between them. */
  predicate IsDecimalBody(b: string) {
    && |b| > 0
    && IsDigit(b[0]) && IsDigit(b[|b| - 1])
    && (forall i :: 0 <= i < |b| ==> IsDigit(b[i]) || b[i] == '_')
    && (forall i :: 0 <= i < |b| - 1 ==> !(b[i] == '_' && b[i + 1] == '_'))
  }

  function DropUnderscores(b: string): (r: string)
    requires forall i :: 0 <= i < |b| ==> IsDigit(b[i]) || b[i] == '_'
    ensures forall i :: 0 <= i < |r| ==> IsDigit(r[i])
  {
    if |b| == 0 then []
    else if b[0] == '_' then DropUnderscores(b[1..])
    else [b[0]] + DropUnderscores(b[1..])
  }

  /** Python's built-in `int(s)` for base-10 text: surrounding whitespace, an optional
      sign, then digits with single underscores between them; `None` where Python
      raises `ValueError`. */
  function PyInt(s: string): (r: Option<int>) {
    SignedDecimal(Strip(s))
  }

  /** An optional sign followed by a decimal body, as `int()` reads it once stripped. */
  function SignedDecimal(t: string): (r: Option<int>) {
    if |t| > 0 && (t[0] == '+' || t[0] == '-') then
      var b := t[1..];
      if IsDecimalBody(b) then
        var n: int := DigitsValue(DropUnderscores(b));
        Some(if t[0] == '-' then -n else n)
      else None
    else if IsDecimalBody(t) then Some(DigitsValue(DropUnderscores(t)))
    else None
  }

  /** The decimal digits of `n`, as Python's `str(n)` writes a non-negative int. */
  function NatDigits(n: nat): (r: string)
    ensures |r| > 0
    ensures forall i :: 0 <= i < |r| ==> IsDigit(r[i])
  {
    if n < 10 then [DigitChar(n)] else NatDigits(n / 10) + [DigitChar(n % 10)]
  }

  /** Python's `str(n)` for an int. */
  function IntText(n: int): string {
    if n < 0 then "-" + NatDigits(-n) else NatDigits(n)
  }

  lemma {:induction false} NatDigitsValue(n: nat)
    ensures DigitsValue(NatDigits(n)) == n
  {
    if n >= 10 {
      var ds := NatDigits(n);
      assert ds[..|ds| - 1] == NatDigits(n / 10);
      NatDigitsValue(n / 10);
    }
  }

  lemma DropUnderscoresDigits(b: string)
    requires forall i :: 0 <= i < |b| ==> IsDigit(b[i])
    ensures DropUnderscores(b) == b
  {
  }

  /** Text made only of digits is a well-formed decimal body worth its digits. */
  lemma DigitsBody(ds: string)
    requires IsDigits(ds)
    ensures IsDecimalBody(ds)
    ensures DigitsValue(DropUnderscores(ds)) == DigitsValue(ds)
  {
    DropUnderscoresDigits(ds);
  }

  lemma SignedDecimalText(n: int)
    ensures SignedDecimal(IntText(n)) == Some(n)
  {
    var t := IntText(n);
    if n < 0 {
      var ds := NatDigits(-n);
      assert t == "-" + ds && t[0] == '-' && t[1..] == ds;
      DigitsBody(ds);
      NatDigitsValue(-n);
    } else {
      var ds := NatDigits(n);
      assert t == ds && IsDigit(t[0]);
      DigitsBody(ds);
      NatDigitsValue(n);
    }
  }

  /** `int()` reads back what `str()` writes: the round trip every integer survives. */
  lemma PyIntRoundTrip(n: int)
    ensures PyInt(IntText(n)) == Some(n)
  {
    var t := IntText(n);
    assert |t| > 0 && !IsSpace(t[0]) && !IsSpace(t[|t| - 1]);
    TrimByKeeps(t, IsSpace);
    SignedDecimalText(n);
  }
}

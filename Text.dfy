/**
 String helpers that mirror the JavaScript string operations the crawler
 uses: `trim`, `replace(/c/g, '')`, `includes`, `\d` and decimal rendering.
 Strings are sequences of characters; the page text is Korean, so every
 character the crawler looks at is a single UTF-16 unit in the source too.
 */
module Text {

  /** The white-space characters removed by `String.prototype.trim` and
      skipped by `parseFloat` (a representative subset of them). */
  predicate IsSpace(c: char) {
    c == ' ' || c == '\t' || c == '\n' || c == '\r' || c == '\U{000B}' || c == '\U{000C}'
    || c == '\U{00A0}' || c == '\U{FEFF}' || c == '\U{2028}' || c == '\U{2029}' || c == '\U{3000}'
  }

  /** Drops leading white space. */
  function TrimStart(s: string): (r: string)
    ensures |r| <= |s| && r == s[|s| - |r|..]
    ensures forall i :: 0 <= i < |s| - |r| ==> IsSpace(s[i])
    ensures r == [] || !IsSpace(r[0])
  {
    if s != [] && IsSpace(s[0]) then TrimStart(s[1..]) else s
  }

  /** White space followed by text that does not start with white space
      trims to that text. */
  lemma {:induction false} TrimStartOf(w: string, s: string)
    requires forall i :: 0 <= i < |w| ==> IsSpace(w[i])
    requires s == [] || !IsSpace(s[0])
    ensures TrimStart(w + s) == s
  {
    if w == [] {
      assert w + s == s;
    } else {
      assert (w + s)[1..] == w[1..] + s;
      TrimStartOf(w[1..], s);
    }
  }

  /** Drops trailing white space. */
  function TrimEnd(s: string): (r: string)
    ensures |r| <= |s| && r == s[..|r|]
    ensures forall i :: |r| <= i < |s| ==> IsSpace(s[i])
    ensures r == [] || !IsSpace(r[|r| - 1])
  {
    if s != [] && IsSpace(s[|s| - 1]) then TrimEnd(s[..|s| - 1]) else s
  }

  /** `r` is the slice `s[k..k + |r|]` and everything of `s` outside it is white space. */
  predicate SliceAmidSpace(s: string, k: nat, r: string) {
    k + |r| <= |s| && r == s[k..k + |r|]
    && (forall i :: 0 <= i < k ==> IsSpace(s[i]))
    && (forall i :: k + |r| <= i < |s| ==> IsSpace(s[i]))
  }

  /** `s.trim()`: white space cut off both ends. */
  function Trim(s: string): (r: string)
    ensures r == [] || (!IsSpace(r[0]) && !IsSpace(r[|r| - 1]))
  {
    var t := TrimStart(s);
    var r := TrimEnd(t);
    assert r != [] ==> r[0] == t[0];
    r
  }

  /** What `Trim` leaves is the slice of `s` once the white space at both ends
      is cut off: everything outside it is white space, and every character
      of `s` that is not white space is kept. */
  lemma TrimSlice(s: string)
    ensures exists k: nat :: SliceAmidSpace(s, k, Trim(s))
    ensures forall c :: c in s && !IsSpace(c) ==> c in Trim(s)
    ensures forall c :: c in Trim(s) ==> c in s
  {
    var t := TrimStart(s);
    var r := TrimEnd(t);
    TrimmedSlice(s, t, r);
    SliceKeepsNonSpace(s, |s| - |t|, r);
    assert r == Trim(s);
  }

  /** Cutting leading and then trailing white space leaves a slice with only
      white space around it. */
  lemma TrimmedSlice(s: string, t: string, r: string)
    requires |t| <= |s| && t == s[|s| - |t|..]
    requires forall i :: 0 <= i < |s| - |t| ==> IsSpace(s[i])
    requires |r| <= |t| && r == t[..|r|]
    requires forall i :: |r| <= i < |t| ==> IsSpace(t[i])
    ensures SliceAmidSpace(s, |s| - |t|, r)
  {
    var k := |s| - |t|;
    forall i | k + |r| <= i < |s| ensures IsSpace(s[i]) {
      assert s[i] == t[i - k];
    }
  }

  /** A slice with only white space around it holds every other character. */
  lemma SliceKeepsNonSpace(s: string, k: nat, r: string)
    requires SliceAmidSpace(s, k, r)
    ensures forall c :: c in s && !IsSpace(c) ==> c in r
  {
    forall c | c in s && !IsSpace(c) ensures c in r {
      var i :| 0 <= i < |s| && s[i] == c;
      assert k <= i < k + |r|;
      assert r[i - k] == c;
    }
  }

  /** A string with no white space at either end is its own trim. */
  lemma TrimOfTrimmed(s: string)
    requires s == [] || (!IsSpace(s[0]) && !IsSpace(s[|s| - 1]))
    ensures Trim(s) == s
  {
    assert TrimStart(s) == s;
  }

  /** `s.replace(/c/g, '')`: every occurrence of `c` removed, order kept. */
  function Remove(s: string, c: char): (r: string)
    ensures c !in r
    ensures forall x :: x in r <==> x in s && x != c
    ensures c !in s ==> r == s
  {
    if s == [] then []
    else if s[|s| - 1] == c then Remove(s[..|s| - 1], c)
    else Remove(s[..|s| - 1], c) + [s[|s| - 1]]
  }

  /** Removal works piece by piece: removing `c` from a concatenation removes
      it from each part and keeps the parts in order. With the one-character
      cases this determines `Remove` completely. */
  lemma {:induction false} RemoveSplit(a: string, b: string, c: char)
    ensures Remove(a + b, c) == Remove(a, c) + Remove(b, c)
    ensures forall x :: Remove([x], c) == (if x == c then [] else [x])
    decreases |b|
  {
    forall x ensures Remove([x], c) == (if x == c then [] else [x]) {
      assert [x][..0] == [];
    }
    if b != [] {
      var b' := b[..|b| - 1];
      assert (a + b)[..|a + b| - 1] == a + b';
      RemoveSplit(a, b', c);
    } else {
      assert a + b == a;
    }
  }

  /** Removing `c` from a string that ends in another character keeps that character last. */
  lemma RemoveAppend(s: string, x: char, c: char)
    requires x != c
    ensures Remove(s + [x], c) == Remove(s, c) + [x]
  {
    assert (s + [x])[..|s|] == s;
  }

  /** `s.startsWith(w)` */
  predicate StartsWith(s: string, w: string) {
    |w| <= |s| && s[..|w|] == w
  }

  /** `s.includes(w)` */
  predicate Includes(s: string, w: string)
    decreases |s|
  {
    StartsWith(s, w) || (s != [] && Includes(s[1..], w))
  }

  /** An infix found in `s` is still found once something is prepended or appended. */
  lemma {:induction false} IncludesExtends(p: string, s: string, q: string, w: string)
    requires Includes(s, w)
    ensures Includes(p + s + q, w)
    decreases |p|, |s|
  {
    if p != [] {
      IncludesExtends(p[1..], s, q, w);
      assert (p + s + q)[1..] == p[1..] + s + q;
    } else if StartsWith(s, w) {
      assert p + s + q == s + q;
      assert (s + q)[..|w|] == s[..|w|];
    } else {
      IncludesExtends([], s[1..], q, w);
      assert p + s + q == s + q && [] + s[1..] + q == s[1..] + q;
      assert (s + q)[1..] == s[1..] + q;
    }
  }

  /** An infix found in `s` is still found once something is appended. */
  lemma IncludesAppended(s: string, q: string, w: string)
    requires Includes(s, w)
    ensures Includes(s + q, w)
  {
    IncludesExtends([], s, q, w);
    assert [] + s + q == s + q;
  }

  /** `\d` of a JavaScript regular expression without the `u` flag. */
  predicate IsDigit(c: char) {
    '0' <= c <= '9'
  }

  predicate AllDigits(s: string) {
    forall i :: 0 <= i < |s| ==> IsDigit(s[i])
  }

  function DigitValue(c: char): (d: nat)
    requires IsDigit(c)
    ensures d < 10
  {
    c as int - '0' as int
  }

  function DigitChar(d: nat): (c: char)
    requires d < 10
    ensures IsDigit(c) && DigitValue(c) == d
  {
    ('0' as int + d) as char
  }

  /** The value of a string of decimal digits, as `parseInt(s, 10)` reads it. */
  function DigitsValue(s: string): nat
    requires AllDigits(s)
  {
    if s == [] then 0 else 10 * DigitsValue(s[..|s| - 1]) + DigitValue(s[|s| - 1])
  }

  function Pow10(k: nat): (r: nat)
    ensures 1 <= r
  {
    if k == 0 then 1 else 10 * Pow10(k - 1)
  }

  /** A digit put in front of `s` counts `10^|s|` times its value. */
  lemma {:induction false} DigitsValuePrepend(c: char, s: string)
    requires IsDigit(c) && AllDigits(s)
    ensures DigitsValue([c] + s) == DigitValue(c) * Pow10(|s|) + DigitsValue(s)
    decreases |s|
  {
    if s != [] {
      var s' := s[..|s| - 1];
      assert ([c] + s)[..|s|] == [c] + s';
      DigitsValuePrepend(c, s');
      var v, p, w := DigitValue(c), Pow10(|s'|), DigitsValue(s');
      assert DigitsValue([c] + s) == 10 * (v * p + w) + DigitValue(s[|s| - 1]);
      assert 10 * (v * p) == v * (10 * p);
    } else {
      assert [c] + s == [c];
      assert [c][..0] == [];
    }
  }

  /** The decimal rendering of a number, as a template literal `${n}` writes it. */
  function DecimalDigits(n: nat): (r: string)
    ensures 1 <= |r| && AllDigits(r)
    ensures n < 10 <==> |r| == 1
    ensures n >= 10 ==> r[0] != '0'
  {
    if n < 10 then [DigitChar(n)] else DecimalDigits(n / 10) + [DigitChar(n % 10)]
  }

  /** Reading back the decimal rendering of a number gives the number. */
  lemma {:induction false} DecimalDigitsValue(n: nat)
    ensures DigitsValue(DecimalDigits(n)) == n
  {
    if n >= 10 {
      var r := DecimalDigits(n);
      assert r[..|r| - 1] == DecimalDigits(n / 10);
      DecimalDigitsValue(n / 10);
    }
  }

  /** The longest prefix of `s` made of digits. */
  function LeadingDigits(s: string): (r: string)
    ensures |r| <= |s| && r == s[..|r|] && AllDigits(r)
    ensures |r| < |s| ==> !IsDigit(s[|r|])
  {
    if s != [] && IsDigit(s[0]) then
      var r := [s[0]] + LeadingDigits(s[1..]);
      assert s == [s[0]] + s[1..];
      r
    else []
  }

  /** The digit run that leads a string of digits followed by a non-digit is
      exactly that string. */
  lemma {:induction false} LeadingDigitsOf(d: string, rest: string)
    requires AllDigits(d)
    requires rest == [] || !IsDigit(rest[0])
    ensures LeadingDigits(d + rest) == d
  {
    if d != [] {
      assert (d + rest)[1..] == d[1..] + rest;
      LeadingDigitsOf(d[1..], rest);
    }
  }
}

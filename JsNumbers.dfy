/**
 The two JavaScript number primitives the field converters rely on:
 `parseFloat`, over exact decimals instead of IEEE doubles, and `Math.round`.
 */
module JsNumbers {
  import opened Wrappers
  import opened Text

  /** The value of the digits after a decimal point: `".25"` is 0.25. */
  function Fraction(digits: string): (r: real)
    requires AllDigits(digits)
    ensures 0.0 <= r < 1.0
    ensures digits == [] ==> r == 0.0
  {
    if digits == [] then 0.0
    else (DigitValue(digits[0]) as real + Fraction(digits[1..])) / 10.0
  }

  /** The digits after the decimal point of the literal at the head of `s`
      (empty when there is no point). */
  function FractionDigits(s: string): (fp: string)
    ensures AllDigits(fp)
  {
    var rest := s[|LeadingDigits(s)|..];
    if rest != [] && rest[0] == '.' then LeadingDigits(rest[1..]) else []
  }

  /** `s` begins with an unsigned decimal literal: a digit, or a point and a digit. */
  predicate StartsDecimal(s: string) {
    (s != [] && IsDigit(s[0])) || (|s| >= 2 && s[0] == '.' && IsDigit(s[1]))
  }

  /** `s` begins with a literal that may carry one `+` or `-` sign. */
  predicate StartsNumber(s: string) {
    if s != [] && (s[0] == '+' || s[0] == '-') then StartsDecimal(s[1..]) else StartsDecimal(s)
  }

  /** The unsigned decimal literal at the head of `s`: integer digits, then
      optionally `.` and fraction digits, with at least one digit in all
      (`"12"`, `"1.5"`, `".5"`, `"3."`); everything after it is ignored.
      */
  function DecimalPrefix(s: string): (r: Option<real>)
    ensures r.Some? ==> 0.0 <= r.value
  {
    var ip, fp := LeadingDigits(s), FractionDigits(s);
    if |ip| + |fp| == 0 then None
    else Some(DigitsValue(ip) as real + Fraction(fp))
  }

  /** An optional `+` or `-` sign, then a decimal literal. */
  function SignedPrefix(s: string): (r: Option<real>)
    ensures r.Some? && r.value < 0.0 ==> s != [] && s[0] == '-'
  {
    if s != [] && (s[0] == '+' || s[0] == '-') then
      match DecimalPrefix(s[1..])
      case None => None
      case Some(x) => Some(if s[0] == '-' then -x else x)
    else DecimalPrefix(s)
  }

  /** `parseFloat(s)`, with `None` standing for `NaN`: leading white space is
      skipped and the longest decimal prefix is read. A negative value needs
      a minus sign in the text. */
  function ParseFloat(s: string): (r: Option<real>)
    ensures r.Some? && r.value < 0.0 ==> '-' in s
  {
    var t := TrimStart(s);
    var r := SignedPrefix(t);
    if r.Some? && r.value < 0.0 then
      assert t[0] == s[|s| - |t|];
      r
    else r
  }

  /** `Math.round(x)`: the nearest integer, halves rounded up. */
  function Round(x: real): (r: int)
    ensures x - 0.5 < r as real <= x + 0.5
  {
    (x + 0.5).Floor
  }

  /** `w / 10^k`, by dividing by ten `k` times. */
  function Shifted(w: nat, k: nat): real {
    if k == 0 then w as real else Shifted(w, k - 1) / 10.0
  }

  lemma {:induction false} ShiftedAdd(v: nat, w: nat, k: nat)
    ensures Shifted(v + w, k) == Shifted(v, k) + Shifted(w, k)
  {
    if k > 0 {
      ShiftedAdd(v, w, k - 1);
    }
  }

  lemma {:induction false} ShiftedTens(a: nat, k: nat)
    ensures Shifted(a * Pow10(k), k) == a as real
  {
    if k > 0 {
      var p := Pow10(k - 1);
      assert a * Pow10(k) == 10 * (a * p);
      ShiftedTimesTen(a * p, k - 1);
      ShiftedTens(a, k - 1);
    }
  }

  lemma {:induction false} ShiftedTimesTen(w: nat, k: nat)
    ensures Shifted(10 * w, k + 1) == Shifted(w, k)
  {
    if k > 0 {
      ShiftedTimesTen(w, k - 1);
    }
  }

  /** The fraction is the value of its digits over `10^|digits|`: `".25"` is 25/100. */
  lemma {:induction false} FractionValue(digits: string)
    requires AllDigits(digits)
    ensures Fraction(digits) == Shifted(DigitsValue(digits), |digits|)
    decreases |digits|
  {
    if digits != [] {
      var c, t := digits[0], digits[1..];
      FractionValue(t);
      assert digits == [c] + t;
      DigitsValuePrepend(c, t);
      var a, m := DigitValue(c), |t|;
      ShiftedAdd(a * Pow10(m), DigitsValue(t), m + 1);
      ShiftedTens(a, m);
    }
  }

  /** There is a decimal literal at the head of `s` exactly when `s` starts
      with a digit or with a point and a digit. */
  lemma DecimalPrefixExists(s: string)
    ensures DecimalPrefix(s).Some? <==> StartsDecimal(s)
  {
    var ip := LeadingDigits(s);
    if ip == [] {
      assert s[|ip|..] == s;
      if s != [] && s[0] == '.' {
        var fp := LeadingDigits(s[1..]);
        assert fp != [] ==> fp[0] == s[1];
      }
    } else {
      assert ip[0] == s[0];
    }
  }

  /** `parseFloat` finds a number exactly when, after the leading white space,
      the text starts with an optionally signed literal. */
  lemma ParseFloatExists(s: string)
    ensures ParseFloat(s).Some? <==> StartsNumber(TrimStart(s))
  {
    var t := TrimStart(s);
    if t != [] && (t[0] == '+' || t[0] == '-') {
      DecimalPrefixExists(t[1..]);
    } else {
      DecimalPrefixExists(t);
    }
  }

  /** Text with no digit at all holds no number. */
  lemma ParseFloatNeedsDigit(s: string)
    requires forall i :: 0 <= i < |s| ==> !IsDigit(s[i])
    ensures ParseFloat(s).None?
  {
    SuffixStartsNoNumber(s, TrimStart(s));
    ParseFloatExists(s);
  }

  lemma SuffixStartsNoNumber(s: string, t: string)
    requires forall i :: 0 <= i < |s| ==> !IsDigit(s[i])
    requires |t| <= |s| && t == s[|s| - |t|..]
    ensures !StartsNumber(t)
  {
    var k := |s| - |t|;
    if |t| >= 1 {
      assert t[0] == s[k];
    }
    if |t| >= 2 {
      assert t[1] == s[k + 1];
    }
    if |t| >= 3 {
      assert t[2] == s[k + 2];
    }
  }

  /** Text that starts with a digit or a point has no white space or sign to
      skip: `parseFloat` reads the unsigned literal at its head. */
  lemma ParseFloatOfUnsigned(s: string)
    requires s != [] && (IsDigit(s[0]) || s[0] == '.')
    ensures ParseFloat(s).Some? == DecimalPrefix(s).Some?
    ensures ParseFloat(s).Some? ==> ParseFloat(s).value == DecimalPrefix(s).value
  {
    assert !IsSpace(s[0]) && TrimStart(s) == s;
  }

  /** A literal with a point at the head of `s`, `"<digits>.<digits>"` with a
      digit on at least one side, is worth its integer part plus its fraction;
      the text after it, which does not go on with a digit, is ignored. */
  lemma DecimalPrefixOfPoint(ip: string, fp: string, rest: string)
    requires AllDigits(ip) && AllDigits(fp) && 1 <= |ip| + |fp|
    requires rest == [] || !IsDigit(rest[0])
    ensures DecimalPrefix(ip + "." + fp + rest).Some?
    ensures DecimalPrefix(ip + "." + fp + rest).value == DigitsValue(ip) as real + Fraction(fp)
  {
    PointLiteralParts(ip, fp, rest);
  }

  lemma PointLiteralParts(ip: string, fp: string, rest: string)
    requires AllDigits(ip) && AllDigits(fp)
    requires rest == [] || !IsDigit(rest[0])
    ensures LeadingDigits(ip + "." + fp + rest) == ip
    ensures FractionDigits(ip + "." + fp + rest) == fp
  {
    var s := ip + (['.'] + (fp + rest));
    assert ip + "." + fp + rest == s;
    PointLiteralSplit(s, ip, fp, rest);
  }

  lemma PointLiteralSplit(s: string, ip: string, fp: string, rest: string)
    requires AllDigits(ip) && AllDigits(fp)
    requires rest == [] || !IsDigit(rest[0])
    requires s == ip + (['.'] + (fp + rest))
    ensures LeadingDigits(s) == ip
    ensures FractionDigits(s) == fp
  {
    var after := ['.'] + (fp + rest);
    LeadingDigitsOf(ip, after);
    assert s[|ip|..] == after;
    FractionDigitsAfter(s, fp, rest);
  }

  /** An integer literal at the head of `s` is worth its digits; the text
      after it, which goes on with neither a digit nor a point, is ignored. */
  lemma DecimalPrefixOfDigits(d: string, rest: string)
    requires 1 <= |d| && AllDigits(d)
    requires rest == [] || (!IsDigit(rest[0]) && rest[0] != '.')
    ensures DecimalPrefix(d + rest).Some?
    ensures DecimalPrefix(d + rest).value == DigitsValue(d) as real
  {
    IntegerLiteralParts(d, rest);
  }

  lemma FractionDigitsAfter(s: string, fp: string, rest: string)
    requires AllDigits(fp)
    requires rest == [] || !IsDigit(rest[0])
    requires s[|LeadingDigits(s)|..] == ['.'] + (fp + rest)
    ensures FractionDigits(s) == fp
  {
    var after := s[|LeadingDigits(s)|..];
    assert after[1..] == fp + rest;
    LeadingDigitsOf(fp, rest);
  }

  lemma IntegerLiteralParts(d: string, rest: string)
    requires AllDigits(d)
    requires rest == [] || (!IsDigit(rest[0]) && rest[0] != '.')
    ensures LeadingDigits(d + rest) == d
    ensures FractionDigits(d + rest) == []
  {
    LeadingDigitsOf(d, rest);
    assert (d + rest)[|d|..] == rest;
  }

  /** `parseFloat` of text that starts with digits reads their value and
      ignores what follows them (`"12만"` reads 12). */
  lemma ParseFloatOfDigits(d: string, rest: string)
    requires 1 <= |d| && AllDigits(d)
    requires rest == [] || (!IsDigit(rest[0]) && rest[0] != '.')
    ensures ParseFloat(d + rest).Some?
    ensures ParseFloat(d + rest).value == DigitsValue(d) as real
  {
    assert (d + rest)[0] == d[0];
    ParseFloatOfUnsigned(d + rest);
    DecimalPrefixOfDigits(d, rest);
  }

  /** `parseFloat` of text that starts with a literal with a point reads its
      integer part plus its fraction and ignores what follows
      (`"9.8점"` reads 9.8). */
  lemma ParseFloatOfPoint(ip: string, fp: string, rest: string)
    requires AllDigits(ip) && AllDigits(fp) && 1 <= |ip| + |fp|
    requires rest == [] || !IsDigit(rest[0])
    ensures ParseFloat(ip + "." + fp + rest).Some?
    ensures ParseFloat(ip + "." + fp + rest).value == DigitsValue(ip) as real + Fraction(fp)
  {
    var s := ip + "." + fp + rest;
    assert s[0] == if ip == [] then '.' else ip[0];
    ParseFloatOfUnsigned(s);
    DecimalPrefixOfPoint(ip, fp, rest);
  }

  /** Leading white space is skipped: `parseFloat` reads the optionally
      signed literal at the head of what follows it. */
  lemma ParseFloatAfterSpace(w: string, s: string)
    requires forall i :: 0 <= i < |w| ==> IsSpace(w[i])
    requires s == [] || !IsSpace(s[0])
    ensures ParseFloat(w + s) == SignedPrefix(s)
  {
    TrimStartOf(w, s);
  }

  /** White space, a sign and digits (`" -12만"` reads -12). */
  lemma ParseFloatOfSignedDigits(t: string, w: string, sign: char, d: string, rest: string)
    requires forall i :: 0 <= i < |w| ==> IsSpace(w[i])
    requires sign == '+' || sign == '-'
    requires 1 <= |d| && AllDigits(d)
    requires rest == [] || (!IsDigit(rest[0]) && rest[0] != '.')
    requires t == w + [sign] + d + rest
    ensures ParseFloat(t).Some?
    ensures ParseFloat(t).value == if sign == '-' then -(DigitsValue(d) as real) else DigitsValue(d) as real
  {
    var s := [sign] + (d + rest);
    RegroupSigned(w, [sign], d, rest);
    ParseFloatAfterSpace(w, s);
    SignedPrefixOfSignedDigits(s, sign, d, rest);
  }

  lemma SignedPrefixOfSignedDigits(s: string, sign: char, d: string, rest: string)
    requires sign == '+' || sign == '-'
    requires 1 <= |d| && AllDigits(d)
    requires rest == [] || (!IsDigit(rest[0]) && rest[0] != '.')
    requires s == [sign] + (d + rest)
    ensures SignedPrefix(s).Some?
    ensures SignedPrefix(s).value == if sign == '-' then -(DigitsValue(d) as real) else DigitsValue(d) as real
  {
    SignedPrefixOfSign(s);
    assert s[1..] == d + rest;
    DecimalPrefixOfDigits(d, rest);
  }

  /** Splitting text into its leading white space and the rest. */
  lemma Regroup<T>(w: seq<T>, sign: seq<T>, a: seq<T>, b: seq<T>, c: seq<T>, rest: seq<T>)
    ensures w + sign + a + b + c + rest == w + (sign + (a + b + c + rest))
  {
  }

  lemma RegroupSigned<T>(w: seq<T>, sign: seq<T>, d: seq<T>, rest: seq<T>)
    ensures w + sign + d + rest == w + (sign + (d + rest))
  {
  }

  /** White space, a sign and a literal with a point (`" -9.8"` reads -9.8). */
  lemma ParseFloatOfSignedPoint(t: string, w: string, sign: char, ip: string, fp: string, rest: string)
    requires forall i :: 0 <= i < |w| ==> IsSpace(w[i])
    requires sign == '+' || sign == '-'
    requires AllDigits(ip) && AllDigits(fp) && 1 <= |ip| + |fp|
    requires rest == [] || !IsDigit(rest[0])
    requires t == w + [sign] + ip + "." + fp + rest
    ensures ParseFloat(t).Some?
    ensures ParseFloat(t).value ==
      var x := DigitsValue(ip) as real + Fraction(fp);
      if sign == '-' then -x else x
  {
    var s := [sign] + (ip + "." + fp + rest);
    Regroup(w, [sign], ip, ".", fp, rest);
    ParseFloatAfterSpace(w, s);
    SignedPrefixOfSignedPoint(s, sign, ip, fp, rest);
  }

  lemma SignedPrefixOfSignedPoint(s: string, sign: char, ip: string, fp: string, rest: string)
    requires sign == '+' || sign == '-'
    requires AllDigits(ip) && AllDigits(fp) && 1 <= |ip| + |fp|
    requires rest == [] || !IsDigit(rest[0])
    requires s == [sign] + (ip + "." + fp + rest)
    ensures SignedPrefix(s).Some?
    ensures SignedPrefix(s).value ==
      var x := DigitsValue(ip) as real + Fraction(fp);
      if sign == '-' then -x else x
  {
    SignedPrefixOfSign(s);
    assert s[1..] == ip + "." + fp + rest;
    DecimalPrefixOfPoint(ip, fp, rest);
  }

  /** Cutting white space off the end of a string does not change its
      leading digits. */
  lemma {:induction false} LeadingDigitsPadded(v: string, u: string)
    requires |v| <= |u| && v == u[..|v|]
    requires forall i :: |v| <= i < |u| ==> IsSpace(u[i])
    ensures LeadingDigits(v) == LeadingDigits(u)
  {
    if v != [] && IsDigit(v[0]) {
      LeadingDigitsPadded(v[1..], u[1..]);
    }
  }

  lemma DecimalPrefixPadded(v: string, u: string)
    requires |v| <= |u| && v == u[..|v|]
    requires forall i :: |v| <= i < |u| ==> IsSpace(u[i])
    ensures DecimalPrefix(v).Some? == DecimalPrefix(u).Some?
    ensures DecimalPrefix(v).Some? ==> DecimalPrefix(v).value == DecimalPrefix(u).value
  {
    LeadingDigitsPadded(v, u);
    var ip := LeadingDigits(v);
    var rv, ru := v[|ip|..], u[|ip|..];
    assert rv == ru[..|rv|];
    if rv != [] && rv[0] == '.' {
      LeadingDigitsPadded(rv[1..], ru[1..]);
    }
    assert FractionDigits(v) == FractionDigits(u);
  }

  lemma SignedPrefixPadded(v: string, u: string)
    requires |v| <= |u| && v == u[..|v|]
    requires forall i :: |v| <= i < |u| ==> IsSpace(u[i])
    ensures SignedPrefix(v).Some? == SignedPrefix(u).Some?
    ensures SignedPrefix(v).Some? ==> SignedPrefix(v).value == SignedPrefix(u).value
  {
    if v != [] && (v[0] == '+' || v[0] == '-') {
      var v1, u1 := v[1..], u[1..];
      assert v1 == u1[..|v1|];
      assert forall i :: |v1| <= i < |u1| ==> IsSpace(u1[i]) by {
        forall i | |v1| <= i < |u1|
          ensures IsSpace(u1[i])
        {
          assert u1[i] == u[i + 1];
        }
      }
      DecimalPrefixPadded(v1, u1);
      SignedPrefixOfSign(v);
      SignedPrefixOfSign(u);
    } else {
      DecimalPrefixPadded(v, u);
      assert u != [] ==> !(u[0] == '+' || u[0] == '-') by {
        if u != [] && v == [] {
          assert IsSpace(u[0]);
        }
      }
    }
  }

  /** A signed number is the unsigned one, negated after a minus sign;
      unsigned text reads as the unsigned literal at its head. */
  lemma SignedPrefixOfSign(s: string)
    ensures s != [] && (s[0] == '+' || s[0] == '-') ==>
      SignedPrefix(s).Some? == DecimalPrefix(s[1..]).Some?
    ensures s != [] && (s[0] == '+' || s[0] == '-') && SignedPrefix(s).Some? ==>
      SignedPrefix(s).value == if s[0] == '-' then -DecimalPrefix(s[1..]).value else DecimalPrefix(s[1..]).value
    ensures !(s != [] && (s[0] == '+' || s[0] == '-')) ==> SignedPrefix(s) == DecimalPrefix(s)
  {
  }

  /** `parseFloat` skips leading white space and ignores whatever follows the
      number, so trimming its argument first changes nothing. */
  lemma ParseFloatIgnoresTrim(s: string)
    ensures ParseFloat(Trim(s)) == ParseFloat(s)
  {
    var u := TrimStart(s);
    var v := TrimEnd(u);
    assert v == [] || v[0] == u[0];
    assert TrimStart(v) == v;
    SignedPrefixPadded(v, u);
  }
}

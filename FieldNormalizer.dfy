/**
 The three converters at the top of kakao.js that turn text scraped from a
 detail page into typed column values: view counts written with Korean
 scale words, a 0-10 rating halved to 0-5, and a compact `YY.MM.DD` date.
 `None` stands for JavaScript's `null`; an empty string is falsy in the
 source and is treated like `null`.
 */
module FieldNormalizer {
  import opened Wrappers
  import opened Text
  import opened JsNumbers

  /** `억`, the scale word for one hundred million. */
  const Eok: char := '억'
  /** `만`, the scale word for ten thousand. */
  const Man: char := '만'

  /** The multiplier `parseViews` picks: `억` wins over `만`. */
  function ScaleOf(s: string): nat {
    if Eok in s then 100000000 else if Man in s then 10000 else 1
  }

  /** `num * multiplier`, one branch per multiplier. */
  function Scaled(num: real, numStr: string): real {
    if Eok in numStr then num * 100000000.0
    else if Man in numStr then num * 10000.0
    else num
  }

  /** The text left once the scale word is removed and the rest trimmed:
      `억` when it occurs (a `만` then stays), otherwise `만`. */
  function Unscaled(numStr: string): string {
    if Eok in numStr then Trim(Remove(numStr, Eok))
    else if Man in numStr then Trim(Remove(numStr, Man))
    else numStr
  }

  /** `parseViews(viewsText)`: commas dropped, the scale word (if any)
      removed and the rest trimmed, then `Math.round(parseFloat(rest) * scale)`.
      Absent and empty text give `null`. */
  function ParseViews(viewsText: Option<string>): (r: Option<int>)
    ensures viewsText.None? || viewsText.value == "" ==> r.None?
  {
    if viewsText.None? || viewsText.value == "" then None
    else
      var numStr := Remove(viewsText.value, ',');
      var rest := Unscaled(numStr);
      RoundScaled(ParseFloat(rest), numStr)
  }

  /** `Math.round(num * multiplier)`, `null` when `num` is `NaN`. */
  function RoundScaled(num: Option<real>, numStr: string): Option<int> {
    match num
    case None => None
    case Some(x) => Some(Round(Scaled(x, numStr)))
  }

  /** Without a minus sign in the text a view count is never negative. */
  lemma ParseViewsNonNegative(viewsText: Option<string>)
    ensures viewsText.Some? && '-' !in viewsText.value && ParseViews(viewsText).Some? ==>
      ParseViews(viewsText).value >= 0
  {
    if viewsText.Some? && '-' !in viewsText.value && viewsText.value != "" {
      var numStr := Remove(viewsText.value, ',');
      var pf := ParseFloat(Unscaled(numStr));
      UnscaledKeeps(numStr);
      if pf.Some? {
        assert pf.value >= 0.0;
      }
    }
  }

  /** Rounding a whole number gives that number. */
  lemma RoundWhole(n: int)
    ensures Round(n as real) == n
  {
  }

  /** The scale word `Unscaled` strips is gone, nothing new appears, and every
      other character that is not white space is kept; text without a scale
      word is left as it is. */
  lemma UnscaledKeeps(numStr: string)
    ensures Eok in numStr ==> Eok !in Unscaled(numStr)
    ensures Eok !in numStr && Man in numStr ==> Man !in Unscaled(numStr)
    ensures Eok !in numStr && Man !in numStr ==> Unscaled(numStr) == numStr
    ensures forall c :: c in Unscaled(numStr) ==> c in numStr
    ensures Eok in numStr ==>
      forall c :: c in numStr && c != Eok && !IsSpace(c) ==> c in Unscaled(numStr)
    ensures Eok !in numStr ==>
      forall c :: c in numStr && c != Man && !IsSpace(c) ==> c in Unscaled(numStr)
  {
    TrimSlice(Remove(numStr, Eok));
    TrimSlice(Remove(numStr, Man));
  }

  /** `Scaled` multiplies by the multiplier `ScaleOf` picks. */
  lemma ScaledIsScaleOf(x: real, s: string)
    ensures Scaled(x, s) == x * (ScaleOf(s) as real)
  {
  }

  /** A literal with no scale word and no white space at its ends, followed by
      at most one scale word: the word is stripped and the literal is left. */
  lemma UnscaledOf(lit: string, unit: string)
    requires Eok !in lit && Man !in lit
    requires lit == [] || (!IsSpace(lit[0]) && !IsSpace(lit[|lit| - 1]))
    requires unit == [] || unit == [Man] || unit == [Eok]
    ensures Unscaled(lit + unit) == lit
  {
    if unit == [] {
      assert lit + unit == lit;
    } else {
      assert (lit + unit)[..|lit|] == lit;
      assert Remove(lit + unit, unit[0]) == Remove(lit, unit[0]) == lit;
      TrimOfTrimmed(lit);
    }
  }

  /** The scale word after a literal with no scale word picks the multiplier. */
  lemma ScaledByUnit(x: real, lit: string, unit: string)
    requires Eok !in lit && Man !in lit
    requires unit == [] || unit == [Man] || unit == [Eok]
    ensures unit == [] ==> Scaled(x, lit + unit) == x
    ensures unit == [Man] ==> Scaled(x, lit + unit) == x * 10000.0
    ensures unit == [Eok] ==> Scaled(x, lit + unit) == x * 100000000.0
  {
    assert Eok in lit + unit <==> unit == [Eok];
    assert Man in lit + unit <==> unit == [Man];
  }

  /** Once commas are gone, a literal followed by at most one scale word is
      read as `parseFloat` of the literal times the scale that word picks,
      rounded; when the literal is not a number the count is `null`. */
  lemma ParseViewsOfText(t: string, lit: string, unit: string)
    requires Remove(t, ',') == lit + unit
    requires Eok !in lit && Man !in lit
    requires lit != [] && !IsSpace(lit[0]) && !IsSpace(lit[|lit| - 1])
    requires unit == [] || unit == [Man] || unit == [Eok]
    ensures ParseViews(Some(t)) ==
      if ParseFloat(lit).None? then None
      else Some(Round(Scaled(ParseFloat(lit).value, unit)))
  {
    assert t != [];
    ViewsOfNumStr(t, lit + unit);
    UnscaledOf(lit, unit);
    RoundScaledByUnit(ParseFloat(lit), lit, unit);
    assert Unscaled(lit + unit) == lit;
    assert ParseViews(Some(t)) == RoundScaled(ParseFloat(lit), lit + unit);
    assert RoundScaled(ParseFloat(lit), lit + unit) == if ParseFloat(lit).None? then None
      else Some(Round(Scaled(ParseFloat(lit).value, unit)));
  }

  /** `parseViews` of non-empty text is the rounded, scaled `parseFloat` of
      its comma-free form with the scale word stripped. */
  lemma ViewsOfNumStr(t: string, numStr: string)
    requires Remove(t, ',') == numStr && t != []
    ensures ParseViews(Some(t)) == RoundScaled(ParseFloat(Unscaled(numStr)), numStr)
  {
  }

  /** After a literal with no scale word, the word that follows picks the
      multiplier. */
  lemma RoundScaledByUnit(num: Option<real>, lit: string, unit: string)
    requires Eok !in lit && Man !in lit
    requires unit == [] || unit == [Man] || unit == [Eok]
    ensures RoundScaled(num, lit + unit) ==
      if num.None? then None else Some(Round(Scaled(num.value, unit)))
  {
    if num.Some? {
      ScaledByUnit(num.value, lit, unit);
    }
  }

  /** A whole number times a multiplier rounds to the product. */
  lemma RoundScaledInteger(n: nat, unit: string)
    requires unit == [] || unit == [Man] || unit == [Eok]
    ensures Round(Scaled(n as real, unit)) == ScaleOf(unit) * n
  {
    if unit == [] {
      RoundWhole(n);
    } else if unit == [Man] {
      RoundWhole(10000 * n);
    } else {
      RoundWhole(100000000 * n);
    }
  }

  /** A digit string holds no scale word and no white space. */
  lemma DigitsArePlain(d: string)
    requires AllDigits(d)
    ensures Eok !in d && Man !in d
    ensures forall i :: 0 <= i < |d| ==> !IsSpace(d[i])
  {
    assert forall i :: 0 <= i < |d| ==> IsDigit(d[i]);
  }

  /** Once commas are gone, the rendering of `n` and a scale word are read as
      `n` times the scale. */
  lemma ParseViewsOfNumStr(t: string, n: nat, unit: string)
    requires Remove(t, ',') == DecimalDigits(n) + unit
    requires unit == [] || unit == [Man] || unit == [Eok]
    ensures ParseViews(Some(t)) == Some(ScaleOf(unit) * n)
  {
    DecimalDigitsValue(n);
    ParseViewsOfDigitText(t, DecimalDigits(n), unit);
  }

  /** Text with no digit in it is not a count: `parseFloat` finds no number
      in what is left of it, and `parseViews` gives `null`. */
  lemma ParseViewsNoDigits(t: string)
    requires forall i :: 0 <= i < |t| ==> !IsDigit(t[i])
    ensures ParseViews(Some(t)).None?
  {
    if t != [] {
      var numStr := Remove(t, ',');
      var rest := Unscaled(numStr);
      UnscaledKeeps(numStr);
      forall i | 0 <= i < |rest| ensures !IsDigit(rest[i]) {
        assert rest[i] in numStr;
        assert rest[i] in t;
      }
      ParseFloatNeedsDigit(rest);
      ViewsOfNumStr(t, numStr);
    }
  }

  /** A count with a decimal point, `"<digits>.<digits>"` followed by at most
      one scale word, is its value times the scale, rounded (`"1.5만"` is
      15000). */
  lemma ParseViewsOfPoint(t: string, lit: string, ip: string, fp: string, unit: string, x: real)
    requires Remove(t, ',') == lit + unit && lit == ip + "." + fp
    requires AllDigits(ip) && AllDigits(fp) && 1 <= |ip| + |fp|
    requires unit == [] || unit == [Man] || unit == [Eok]
    requires x == DigitsValue(ip) as real + Fraction(fp)
    ensures ParseViews(Some(t)) == Some(Round(Scaled(x, unit)))
  {
    PointLiteralIsPlain(lit, ip, fp);
    ParseFloatOfLiteral(lit, ip, fp);
    ParseViewsOfLiteral(t, lit, unit, x);
  }

  /** A literal `parseFloat` reads as `x`, followed by at most one scale word,
      is counted as `x` scaled by that word and rounded. */
  lemma ParseViewsOfLiteral(t: string, lit: string, unit: string, x: real)
    requires Remove(t, ',') == lit + unit
    requires Eok !in lit && Man !in lit
    requires lit != [] && !IsSpace(lit[0]) && !IsSpace(lit[|lit| - 1])
    requires unit == [] || unit == [Man] || unit == [Eok]
    requires ParseFloat(lit).Some? && ParseFloat(lit).value == x
    ensures ParseViews(Some(t)) == Some(Round(Scaled(x, unit)))
  {
    ParseViewsOfText(t, lit, unit);
  }

  /** A literal with a point holds no scale word and has no white space at its ends. */
  lemma PointLiteralIsPlain(lit: string, ip: string, fp: string)
    requires AllDigits(ip) && AllDigits(fp)
    requires lit == ip + "." + fp
    ensures Eok !in lit && Man !in lit
    ensures lit != [] && !IsSpace(lit[0]) && !IsSpace(lit[|lit| - 1])
  {
    assert forall i :: 0 <= i < |lit| ==> IsDigit(lit[i]) || lit[i] == '.';
  }

  /** With both scale words present only `억` is stripped and picks the
      multiplier; the `만` after it ends the number, so `"<d1>억<d2>만"` reads
      as the digits `d1 d2` times one hundred million (`"1억2000만"` is
      1200000000000). */
  lemma ParseViewsBothWords(t: string, d1: string, d2: string)
    requires t == d1 + [Eok] + d2 + [Man]
    requires 1 <= |d1| && AllDigits(d1) && AllDigits(d2)
    ensures ParseViews(Some(t)) == Some(100000000 * DigitsValue(d1 + d2))
  {
    BothWordsShape(t, d1, d2);
    ViewsOfNumStr(t, t);
    ParseFloatOfDigits(d1 + d2, [Man]);
    RoundScaledEok(ParseFloat(d1 + d2 + [Man]), t, DigitsValue(d1 + d2));
  }

  /** `"<d1>억<d2>만"` has no comma, and stripping `억` and trimming leaves
      the digits `d1 d2` followed by `만`. */
  lemma BothWordsShape(t: string, d1: string, d2: string)
    requires t == d1 + [Eok] + d2 + [Man]
    requires 1 <= |d1| && AllDigits(d1) && AllDigits(d2)
    ensures AllDigits(d1 + d2) && 1 <= |d1 + d2|
    ensures Remove(t, ',') == t
    ensures Eok in t
    ensures Unscaled(t) == d1 + d2 + [Man]
  {
    var d := d1 + d2;
    DigitsArePlain(d1);
    DigitsArePlain(d2);
    assert AllDigits(d) by {
      assert forall i :: 0 <= i < |d| ==> d[i] == if i < |d1| then d1[i] else d2[i - |d1|];
    }
    BothWordsHaveNoComma(t, d1, d2);
    assert t[|d1|] == Eok;
    EokRemovedBetween(t, d1, d2);
    var lit := d + [Man];
    assert lit[0] == d1[0];
    TrimOfTrimmed(lit);
  }

  lemma BothWordsHaveNoComma(t: string, d1: string, d2: string)
    requires t == d1 + [Eok] + d2 + [Man]
    requires AllDigits(d1) && AllDigits(d2)
    ensures Remove(t, ',') == t
  {
    assert forall i :: 0 <= i < |t| ==> t[i] == Eok || t[i] == Man || IsDigit(t[i]) by {
      assert forall i :: 0 <= i < |t| ==> t[i] == if i < |d1| then d1[i] else if i == |d1| then Eok
        else if i < |t| - 1 then d2[i - |d1| - 1] else Man;
    }
    assert ',' !in t;
  }

  /** With `억` in the text a whole number `n` is scaled to `n` hundred million. */
  lemma RoundScaledEok(num: Option<real>, numStr: string, n: nat)
    requires Eok in numStr && num == Some(n as real)
    ensures RoundScaled(num, numStr) == Some(100000000 * n)
  {
    RoundWhole(100000000 * n);
  }

  /** Removing `억` from `"<d1>억<d2>만"` leaves `"<d1><d2>만"`. */
  lemma EokRemovedBetween(t: string, d1: string, d2: string)
    requires t == d1 + [Eok] + d2 + [Man]
    requires Eok !in d1 && Eok !in d2
    ensures Remove(t, Eok) == d1 + d2 + [Man]
  {
    RemoveSplit(d1 + [Eok] + d2, [Man], Eok);
    RemoveSplit(d1 + [Eok], d2, Eok);
    RemoveSplit(d1, [Eok], Eok);
  }

  /** "1.5만" is fifteen thousand. */
  lemma ParseViewsDecimalMan()
    ensures ParseViews(Some("1.5만")) == Some(15000)
  {
    assert "1.5만" == "1.5" + [Man] && "1.5" == "1" + "." + "5";
    assert ',' !in "1.5만";
    OnePointFive();
    ParseViewsOfPoint("1.5만", "1.5", "1", "5", [Man], 1.5);
    assert Scaled(1.5, [Man]) == 15000.0;
    RoundWhole(15000);
  }

  lemma OnePointFive()
    ensures DigitsValue("1") as real + Fraction("5") == 1.5
  {
    assert DigitsValue("1") == 1 by {
      assert "1"[..0] == [];
    }
    assert Fraction("5") == 0.5 by {
      assert "5"[1..] == [];
    }
  }

  /** "1억2000만" is 12000 times one hundred million: the `만` is not added. */
  lemma ParseViewsEokAndMan()
    ensures ParseViews(Some("1억2000만")) == Some(1200000000000)
  {
    assert "1억2000만" == "1" + [Eok] + "2000" + [Man];
    ParseViewsBothWords("1억2000만", "1", "2000");
    DigitsOf12000();
  }

  lemma DigitsOf12000()
    ensures DigitsValue("1" + "2000") == 12000
  {
    assert "1" + "2000" == "12000";
    assert "12000"[..4] == "1200" && "1200"[..3] == "120" && "120"[..2] == "12" && "12"[..1] == "1" && "1"[..0] == [];
  }

  /** The same, for any non-empty digit string in place of the rendering. */
  lemma ParseViewsOfDigitText(t: string, d: string, unit: string)
    requires Remove(t, ',') == d + unit
    requires 1 <= |d| && AllDigits(d)
    requires unit == [] || unit == [Man] || unit == [Eok]
    ensures ParseViews(Some(t)) == Some(ScaleOf(unit) * DigitsValue(d))
  {
    DigitsArePlain(d);
    ParseFloatOfWholeDigits(d);
    ParseViewsOfWhole(t, d, unit, DigitsValue(d));
  }

  /** A literal `parseFloat` reads as the whole number `n`, followed by at
      most one scale word, is read as `n` times the scale. */
  lemma ParseViewsOfWhole(t: string, lit: string, unit: string, n: nat)
    requires Remove(t, ',') == lit + unit
    requires Eok !in lit && Man !in lit
    requires lit != [] && !IsSpace(lit[0]) && !IsSpace(lit[|lit| - 1])
    requires unit == [] || unit == [Man] || unit == [Eok]
    requires ParseFloat(lit) == Some(n as real)
    ensures ParseViews(Some(t)) == Some(ScaleOf(unit) * n)
  {
    ParseViewsOfText(t, lit, unit);
    RoundScaledInteger(n, unit);
  }

  lemma ParseFloatOfWholeDigits(d: string)
    requires 1 <= |d| && AllDigits(d)
    ensures ParseFloat(d) == Some(DigitsValue(d) as real)
  {
    ParseFloatOfDigits(d, []);
    assert d + [] == d;
  }

  /** A count written as digits with grouping commas anywhere, followed by an
      optional scale word, is read back as the number times its scale. */
  lemma ParseViewsOfDigits(s: string, n: nat, unit: string)
    requires Remove(s, ',') == DecimalDigits(n)
    requires unit == [] || unit == [Man] || unit == [Eok]
    ensures ParseViews(Some(s + unit)) == Some(ScaleOf(unit) * n)
  {
    if unit == [] {
      assert s + unit == s;
    } else {
      RemoveAppend(s, unit[0], ',');
    }
    ParseViewsOfNumStr(s + unit, n, unit);
  }

  /** Grouping commas are dropped: "1,234" is 1234. */
  lemma ParseViewsGrouped()
    ensures ParseViews(Some("1,234")) == Some(1234)
  {
    DigitsOf1234();
    CommaRemovedFrom1234();
    ParseViewsOfDigits("1,234", 1234, []);
    assert "1,234" + [] == "1,234";
  }

  lemma DigitsOf1234()
    ensures DecimalDigits(1234) == "1234"
  {
    assert DecimalDigits(123) == "123" by {
      assert DecimalDigits(12) == "12";
    }
  }

  lemma CommaRemovedFrom1234()
    ensures Remove("1,234", ',') == "1234"
  {
    assert "1,234"[..4] == "1,23" && "1,23"[..3] == "1,2" && "1,2"[..2] == "1," && "1,"[..1] == "1";
  }

  /** "3만" is thirty thousand. */
  lemma ParseViewsMan()
    ensures ParseViews(Some("3만")) == Some(30000)
  {
    assert DecimalDigits(3) == "3" && ',' !in "3";
    assert "3" + [Man] == "3만";
    ParseViewsOfDigits("3", 3, [Man]);
  }

  /** "2억" is two hundred million. */
  lemma ParseViewsEok()
    ensures ParseViews(Some("2억")) == Some(200000000)
  {
    assert DecimalDigits(2) == "2" && ',' !in "2";
    assert "2" + [Eok] == "2억";
    ParseViewsOfDigits("2", 2, [Eok]);
  }

  /** `parseRating(ratingText)`: `Math.round(parseFloat(text) / 2)`, the
      nearest whole number to half the rating, so 0-10 maps into 0-5. */
  function ParseRating(ratingText: Option<string>): (r: Option<int>)
    ensures r.Some? <==> ratingText.Some? && ratingText.value != "" && ParseFloat(ratingText.value).Some?
    ensures r.Some? ==>
      var x := ParseFloat(ratingText.value).value;
      x - 1.0 < 2.0 * r.value as real <= x + 1.0
    ensures r.Some? && 0.0 <= ParseFloat(ratingText.value).value <= 10.0 ==> 0 <= r.value <= 5
  {
    if ratingText.None? || ratingText.value == "" then None
    else
      match ParseFloat(ratingText.value)
      case None => None
      case Some(num) => Some(Round(num / 2.0))
  }

  lemma ParseFloatNinePointEight()
    ensures ParseFloat("9.8").Some? && ParseFloat("9.8").value == 9.8
  {
    ParseFloatOfLiteral("9.8", "9", "8");
    NineAndEightTenths();
  }

  /** `parseFloat` of a complete literal with a point. */
  lemma ParseFloatOfLiteral(s: string, ip: string, fp: string)
    requires AllDigits(ip) && AllDigits(fp) && 1 <= |ip| + |fp|
    requires s == ip + "." + fp
    ensures ParseFloat(s).Some? && ParseFloat(s).value == DigitsValue(ip) as real + Fraction(fp)
  {
    ParseFloatOfPoint(ip, fp, []);
    assert ip + "." + fp + [] == s;
  }

  lemma NineAndEightTenths()
    ensures DigitsValue("9") == 9 && Fraction("8") == 0.8
  {
    assert "8"[1..] == [];
    assert "9"[..0] == [];
  }

  /** "9.8" out of ten is 5 out of five (4.9 rounded up). */
  lemma ParseRatingHigh()
    ensures ParseRating(Some("9.8")) == Some(5)
  {
    ParseFloatNinePointEight();
    assert Round(9.8 / 2.0) == 5;
    var r := ParseRating(Some("9.8"));
    assert r.Some? && r.value == 5;
  }

  /** "0" is 0, and no text is `null`. */
  lemma ParseRatingZero()
    ensures ParseRating(Some("0")) == Some(0)
    ensures ParseRating(None) == None
  {
    ParseFloatZero("0");
    assert Round(0.0 / 2.0) == 0;
  }

  lemma ParseFloatZero(s: string)
    requires s == "0"
    ensures ParseFloat(s) == Some(0.0)
  {
    assert DigitsValue(s) == 0 by {
      assert s[..0] == [];
    }
    ParseFloatOfWholeDigits(s);
  }

  /** The outcome of `formatDateString`: a converted date, no text at all,
      or text that does not have the `YY.MM.DD` shape (the source warns). */
  datatype DateText = Formatted(iso: string) | Missing | UnexpectedFormat {
    /** The value written to the `startDate` column. */
    function Column(): Option<string> {
      if Formatted? then Some(iso) else None
    }
  }

  /** `^(\d{2})\.(\d{2})\.(\d{2})$` */
  predicate IsCompactDate(s: string) {
    && |s| == 8
    && IsDigit(s[0]) && IsDigit(s[1]) && s[2] == '.'
    && IsDigit(s[3]) && IsDigit(s[4]) && s[5] == '.'
    && IsDigit(s[6]) && IsDigit(s[7])
  }

  /** `YYYY-MM-DD` with digits in every numeric place. */
  predicate IsIsoDate(t: string) {
    && |t| == 10
    && AllDigits(t[..4]) && t[4] == '-'
    && IsDigit(t[5]) && IsDigit(t[6]) && t[7] == '-'
    && IsDigit(t[8]) && IsDigit(t[9])
  }

  function Year(t: string): nat
    requires IsIsoDate(t)
  {
    DigitsValue(t[..4])
  }

  /** Back from `YYYY-MM-DD` to `YY.MM.DD`: the inverse of the conversion. */
  function Compact(t: string): string
    requires IsIsoDate(t)
  {
    t[2..4] + "." + t[5..7] + "." + t[8..10]
  }

  /** Years 2000 + YY are written as "20" followed by the two digits YY. */
  lemma CenturyDigits(yy: string)
    requires |yy| == 2 && AllDigits(yy)
    ensures DigitsValue(yy) < 100
    ensures DecimalDigits(2000 + DigitsValue(yy)) == "20" + yy
  {
    var a, b := DigitValue(yy[0]), DigitValue(yy[1]);
    TwoDigitsValue(yy);
    DigitCharOfValue(yy[0]);
    DigitCharOfValue(yy[1]);
    CenturyOf(a, b);
    assert [DigitChar(a), DigitChar(b)] == yy;
  }

  lemma CenturyOf(a: nat, b: nat)
    requires a < 10 && b < 10
    ensures DecimalDigits(2000 + 10 * a + b) == "20" + [DigitChar(a), DigitChar(b)]
  {
    CenturyPrefix(a);
    YearDigits(a, b);
    AppendTwo("20", DigitChar(a), DigitChar(b));
  }

  lemma CenturyPrefix(a: nat)
    requires a < 10
    ensures DecimalDigits(200 + a) == "20" + [DigitChar(a)]
  {
    TwentyDigits();
    DecimalDigitsAppend(20, a);
  }

  lemma TwentyDigits()
    ensures DecimalDigits(20) == "20"
  {
    DecimalDigitsAppend(2, 0);
  }

  lemma YearDigits(a: nat, b: nat)
    requires a < 10 && b < 10
    ensures DecimalDigits(2000 + 10 * a + b) == DecimalDigits(200 + a) + [DigitChar(b)]
  {
    DecimalDigitsAppend(200 + a, b);
    assert 10 * (200 + a) + b == 2000 + 10 * a + b;
  }

  lemma AppendTwo<T>(s: seq<T>, x: T, y: T)
    ensures s + [x] + [y] == s + [x, y]
  {
  }

  lemma DigitCharOfValue(c: char)
    requires IsDigit(c)
    ensures DigitChar(DigitValue(c)) == c
  {
  }

  lemma TwoDigitsValue(yy: string)
    requires |yy| == 2 && AllDigits(yy)
    ensures DigitsValue(yy) == 10 * DigitValue(yy[0]) + DigitValue(yy[1])
  {
    var first := yy[..1];
    assert first == [yy[0]] && first[..0] == [];
    assert DigitsValue(first) == 10 * DigitsValue([]) + DigitValue(yy[0]);
    assert DigitsValue(yy) == 10 * DigitsValue(first) + DigitValue(yy[1]);
  }

  /** Appending a digit multiplies by ten and adds it. */
  lemma DecimalDigitsAppend(q: nat, d: nat)
    requires 1 <= q && d < 10
    ensures DecimalDigits(10 * q + d) == DecimalDigits(q) + [DigitChar(d)]
  {
    var n := 10 * q + d;
    assert n / 10 == q && n % 10 == d;
  }

  /** `formatDateString(rawDateStr)`: `YY.MM.DD` becomes `(2000+YY)-MM-DD`
      with month and day copied; the result is a 10-character ISO date in
      2000-2099 that converts back to the input. Any other non-empty text is
      reported as an unexpected format. */
  function FormatDateString(rawDateStr: Option<string>): (r: DateText)
    ensures r.Missing? <==> rawDateStr.None? || rawDateStr.value == ""
    ensures r.Formatted? <==> rawDateStr.Some? && IsCompactDate(rawDateStr.value)
    ensures r.Formatted? ==> IsIsoDate(r.iso) && Compact(r.iso) == rawDateStr.value
    ensures r.Formatted? ==> 2000 <= Year(r.iso) <= 2099
  {
    if rawDateStr.None? || rawDateStr.value == "" then Missing
    else if IsCompactDate(rawDateStr.value) then
      var s := rawDateStr.value;
      var yearYY := DigitsValue(s[0..2]);
      var yearYYYY := 2000 + yearYY;
      var iso := DecimalDigits(yearYYYY) + "-" + s[3..5] + "-" + s[6..8];
      CenturyDigits(s[0..2]);
      DecimalDigitsValue(yearYYYY);
      assert iso[..4] == DecimalDigits(yearYYYY) && iso[2..4] == s[0..2];
      assert Compact(iso) == s;
      Formatted(iso)
    else UnexpectedFormat
  }

  /** `YY.MM.DD` becomes `20YY-MM-DD`, digits copied unchanged. */
  lemma FormatDateOf(yy: string, mm: string, dd: string)
    requires |yy| == 2 && |mm| == 2 && |dd| == 2
    requires AllDigits(yy) && AllDigits(mm) && AllDigits(dd)
    ensures FormatDateString(Some(yy + "." + mm + "." + dd)) == Formatted("20" + yy + "-" + mm + "-" + dd)
  {
    var s := yy + "." + mm + "." + dd;
    assert s[0..2] == yy && s[3..5] == mm && s[6..8] == dd;
    assert IsCompactDate(s);
    CenturyDigits(yy);
    var r := FormatDateString(Some(s));
    assert r.Formatted?;
    assert r.iso == "20" + yy + "-" + mm + "-" + dd;
  }

  /** "24.03.15" becomes "2024-03-15". */
  lemma FormatDateCompact()
    ensures FormatDateString(Some("24.03.15")) == Formatted("2024-03-15")
  {
    FormatDateOf("24", "03", "15");
    assert "24" + "." + "03" + "." + "15" == "24.03.15";
    assert "20" + "24" + "-" + "03" + "-" + "15" == "2024-03-15";
  }

  /** An ISO date is not a compact one; the empty text is no date. */
  lemma FormatDateOtherInputs()
    ensures FormatDateString(Some("2024-03-15")) == UnexpectedFormat
    ensures FormatDateString(Some("")) == Missing
  {
  }
}

/** `parseNumberString` of the DNB proxy, and the part of JavaScript's `parseFloat` it reaches.
    Numbers are kept exact: `Finite(v)` is a value for which `Number.isFinite` holds. */
module NumberParser {
  import opened JsText

  /** A JavaScript number as these functions produce it. */
  datatype Number = NaN | Finite(value: real)

  function Pow10(n: nat): (p: nat)
    ensures p >= 1
  {
    if n == 0 then 1 else 10 * Pow10(n - 1)
  }

  function DigitValue(c: char): (d: nat)
    requires IsDigit(c)
    ensures d < 10
  {
    c as int - '0' as int
  }

  /** The value of a string of decimal digits. */
  function DigitsValue(ds: string): (n: nat)
    requires AllDigits(ds)
    ensures n < Pow10(|ds|)
  {
    if ds == [] then 0 else DigitsValue(ds[..|ds| - 1]) * 10 + DigitValue(ds[|ds| - 1])
  }

  /** The value of the decimal numeral `whole.frac`. */
  function DecimalValue(whole: string, frac: string): real
    requires AllDigits(whole) && AllDigits(frac)
  {
    DigitsValue(whole) as real + DigitsValue(frac) as real / Pow10(|frac|) as real
  }

  function Signed(negative: bool, x: real): real
  {
    if negative then -x else x
  }

  function Sign(negative: bool): string
  {
    if negative then "-" else ""
  }

  /** What survives `/[^0-9.\-]/g`. */
  predicate IsNumberChar(c: char) { IsDigit(c) || c == '.' || c == '-' }

  /** What survives `/[^0-9-]/g`. */
  predicate IsDigitOrMinus(c: char) { IsDigit(c) || c == '-' }

  predicate NotDot(c: char) { c != '.' }

  predicate NotComma(c: char) { c != ',' }

  predicate AllNumberChars(s: string) { forall k :: 0 <= k < |s| ==> IsNumberChar(s[k]) }

  /** The length of the run of digits `s` starts with. */
  function DigitRun(s: string): (n: nat)
    ensures n <= |s|
    ensures forall k :: 0 <= k < n ==> IsDigit(s[k])
    ensures n < |s| ==> !IsDigit(s[n])
  {
    if s != [] && IsDigit(s[0]) then 1 + DigitRun(s[1..]) else 0
  }

  lemma {:induction false} DigitRunOf(a: string, b: string)
    requires AllDigits(a)
    requires b == [] || !IsDigit(b[0])
    ensures DigitRun(a + b) == |a|
  {
    if a == [] {
      assert a + b == b;
    } else {
      assert (a + b)[1..] == a[1..] + b;
      DigitRunOf(a[1..], b);
    }
  }

  /** `s` starts with a digit, or with `-` and a digit. */
  predicate StartsWithNumber(s: string)
  {
    (|s| >= 1 && IsDigit(s[0])) || (|s| >= 2 && s[0] == '-' && IsDigit(s[1]))
  }

  /** The strings in which `parseFloat` finds a number: after an optional minus sign,
      a digit, or a point followed by a digit. */
  predicate HasFloatPrefix(s: string)
  {
    var body := if s != [] && s[0] == '-' then s[1..] else s;
    (|body| >= 1 && IsDigit(body[0])) || (|body| >= 2 && body[0] == '.' && IsDigit(body[1]))
  }

  /** `parseFloat` past the sign: digits, optionally a point and more digits, as long as
      there is at least one digit; NaN otherwise. */
  function ParseUnsigned(body: string): (r: Number)
    ensures r.Finite? ==> r.value >= 0.0
  {
    var whole := body[..DigitRun(body)];
    var rest := body[|whole|..];
    var frac := if rest != [] && rest[0] == '.' then rest[1..][..DigitRun(rest[1..])] else [];
    if whole == [] && frac == [] then NaN else Finite(DecimalValue(whole, frac))
  }

  function Negate(n: Number): Number
  {
    match n
    case NaN => NaN
    case Finite(v) => Finite(-v)
  }

  /** `parseFloat(s)` for a string of digits, `.` and `-`: the longest prefix of the form
      `-`? digits (`.` digits?)? or `-`? `.` digits, read as a decimal; NaN when there is none. */
  function ParseFloat(s: string): (r: Number)
    requires AllNumberChars(s)
    ensures r.Finite? <==> HasFloatPrefix(s)
  {
    if s != [] && s[0] == '-' then Negate(ParseUnsigned(s[1..])) else ParseUnsigned(s)
  }

  lemma UnsignedDecimal(whole: string, frac: string, rest: string)
    requires whole != [] && AllDigits(whole) && AllDigits(frac)
    requires rest == [] || !IsDigit(rest[0])
    ensures ParseUnsigned(whole + "." + frac + rest) == Finite(DecimalValue(whole, frac))
  {
    var body := whole + "." + frac + rest;
    DigitRunOf(whole, "." + frac + rest);
    assert body == whole + ("." + frac + rest);
    assert body[..|whole|] == whole;
    var after := body[|whole|..];
    assert after == "." + frac + rest;
    assert after[1..] == frac + rest;
    DigitRunOf(frac, rest);
    assert after[1..][..|frac|] == frac;
  }

  lemma UnsignedInteger(whole: string, rest: string)
    requires whole != [] && AllDigits(whole)
    requires rest == [] || (!IsDigit(rest[0]) && rest[0] != '.')
    ensures ParseUnsigned(whole + rest) == Finite(DigitsValue(whole) as real)
  {
    var body := whole + rest;
    DigitRunOf(whole, rest);
    assert body[..DigitRun(body)] == whole;
    assert body[|whole|..] == rest;
    assert DigitsValue([]) == 0;
    assert DecimalValue(whole, []) == DigitsValue(whole) as real;
  }

  /** `parseFloat` reads `whole.frac` and stops where the digits after the point end,
      so `"1.2.3"` reads as 1.2. */
  lemma ParseFloatDecimal(negative: bool, whole: string, frac: string, rest: string)
    requires whole != [] && AllDigits(whole) && AllDigits(frac)
    requires AllNumberChars(rest) && (rest == [] || !IsDigit(rest[0]))
    ensures AllNumberChars(Sign(negative) + whole + "." + frac + rest)
    ensures ParseFloat(Sign(negative) + whole + "." + frac + rest)
         == Finite(Signed(negative, DecimalValue(whole, frac)))
  {
    NumberCharsOfDecimal(negative, whole, frac);
    NumberCharsConcat(Sign(negative) + whole + "." + frac, rest);
    DecimalRegroup(negative, whole, frac, rest);
    if negative {
      NegativeDecimal(whole, frac, rest);
    } else {
      PositiveDecimal(whole, frac, rest);
    }
  }

  /** Concatenation regrouped around the sign. */
  lemma DecimalRegroup(negative: bool, whole: string, frac: string, rest: string)
    ensures Sign(negative) + whole + "." + frac + rest == Sign(negative) + (whole + "." + frac + rest)
    ensures Sign(negative) + (whole + "." + frac + rest)
         == if negative then "-" + (whole + "." + frac + rest) else whole + "." + frac + rest
  {
  }

  lemma PositiveDecimal(whole: string, frac: string, rest: string)
    requires whole != [] && AllDigits(whole) && AllDigits(frac)
    requires rest == [] || !IsDigit(rest[0])
    requires AllNumberChars(whole + "." + frac + rest)
    ensures ParseFloat(whole + "." + frac + rest) == Finite(DecimalValue(whole, frac))
  {
    UnsignedDecimal(whole, frac, rest);
    assert (whole + "." + frac + rest)[0] == whole[0];
    PositiveParse(whole + "." + frac + rest);
  }

  lemma NegativeDecimal(whole: string, frac: string, rest: string)
    requires whole != [] && AllDigits(whole) && AllDigits(frac)
    requires rest == [] || !IsDigit(rest[0])
    requires AllNumberChars("-" + (whole + "." + frac + rest))
    ensures ParseFloat("-" + (whole + "." + frac + rest)) == Finite(-DecimalValue(whole, frac))
  {
    UnsignedDecimal(whole, frac, rest);
    NegativeParse(whole + "." + frac + rest);
  }

  /** `parseFloat` reads a run of digits that neither a digit nor a point follows. */
  lemma ParseFloatInteger(negative: bool, whole: string, rest: string)
    requires whole != [] && AllDigits(whole)
    requires rest == [] || (!IsDigit(rest[0]) && rest[0] != '.')
    requires AllNumberChars(Sign(negative) + whole + rest)
    ensures ParseFloat(Sign(negative) + whole + rest) == Finite(Signed(negative, DigitsValue(whole) as real))
  {
    if negative {
      assert Sign(negative) + whole + rest == "-" + (whole + rest);
      NegativeInteger(whole, rest);
    } else {
      assert Sign(negative) + whole + rest == whole + rest;
      PositiveInteger(whole, rest);
    }
  }

  lemma PositiveInteger(whole: string, rest: string)
    requires whole != [] && AllDigits(whole)
    requires rest == [] || (!IsDigit(rest[0]) && rest[0] != '.')
    requires AllNumberChars(whole + rest)
    ensures ParseFloat(whole + rest) == Finite(DigitsValue(whole) as real)
  {
    UnsignedInteger(whole, rest);
    assert (whole + rest)[0] == whole[0];
    PositiveParse(whole + rest);
  }

  lemma NegativeInteger(whole: string, rest: string)
    requires whole != [] && AllDigits(whole)
    requires rest == [] || (!IsDigit(rest[0]) && rest[0] != '.')
    requires AllNumberChars("-" + (whole + rest))
    ensures ParseFloat("-" + (whole + rest)) == Finite(-(DigitsValue(whole) as real))
  {
    UnsignedInteger(whole, rest);
    NegativeParse(whole + rest);
  }

  lemma PositiveParse(body: string)
    requires body != [] && IsDigit(body[0]) && AllNumberChars(body)
    ensures ParseFloat(body) == ParseUnsigned(body)
  {
  }

  lemma NegativeParse(body: string)
    requires AllNumberChars("-" + body)
    ensures ParseFloat("-" + body) == Negate(ParseUnsigned(body))
  {
    assert ("-" + body)[1..] == body;
  }

  /** The decimal separator `parseNumberString` settles on. */
  datatype Separator = NoSeparator | Dot | Comma

  /** Of `.` and `,`, the one whose last occurrence comes later is the decimal separator. */
  function DecimalSeparator(s: string): (r: Separator)
    ensures r == NoSeparator <==> '.' !in s && ',' !in s
    ensures r == Dot <==> exists k :: 0 <= k < |s| && s[k] == '.' && forall j :: k < j < |s| ==> s[j] != ','
    ensures r == Comma <==> exists k :: 0 <= k < |s| && s[k] == ',' && forall j :: k < j < |s| ==> s[j] != '.'
  {
    var lastDot := LastIndexOf(s, '.');
    var lastComma := LastIndexOf(s, ',');
    if lastDot > lastComma then Dot
    else if lastComma > lastDot then Comma
    else NoSeparator
  }

  /** The string `parseNumberString` hands to `parseFloat`, for a non-empty argument. */
  function Cleaned(raw: string): (r: string)
    ensures AllNumberChars(r)
  {
    var s := Filter(raw, NotSpace);
    match DecimalSeparator(s)
    case NoSeparator => Filter(s, IsDigitOrMinus)
    case Comma => Filter(ReplaceFirst(Filter(s, NotDot), ',', '.'), IsNumberChar)
    case Dot => Filter(Filter(s, NotComma), IsNumberChar)
  }

  /** Cleaning brings in no digit of its own. */
  lemma NoDigitsKept(raw: string)
    requires forall k :: 0 <= k < |raw| ==> !IsDigit(raw[k])
    ensures forall k :: 0 <= k < |Cleaned(raw)| ==> !IsDigit(Cleaned(raw)[k])
  {
    var s := Filter(raw, NotSpace);
    FilterMembers(raw, NotSpace);
    assert forall k :: 0 <= k < |s| ==> !IsDigit(s[k]);
    match DecimalSeparator(s)
    case NoSeparator =>
      FilterMembers(s, IsDigitOrMinus);
    case Dot =>
      FilterMembers(s, NotComma);
      FilterMembers(Filter(s, NotComma), IsNumberChar);
    case Comma =>
      FilterMembers(s, NotDot);
      ReplaceFirstMembers(Filter(s, NotDot), ',', '.');
      FilterMembers(ReplaceFirst(Filter(s, NotDot), ',', '.'), IsNumberChar);
  }

  /** `parseNumberString(raw)`. */
  function ParseNumber(raw: string): (r: Number)
    ensures (forall k :: 0 <= k < |raw| ==> !IsDigit(raw[k])) ==> r == NaN
  {
    if raw == [] then NaN
    else
      var cleaned := Cleaned(raw);
      assert (forall k :: 0 <= k < |raw| ==> !IsDigit(raw[k])) ==> !HasFloatPrefix(cleaned) by {
        if forall k :: 0 <= k < |raw| ==> !IsDigit(raw[k]) {
          NoDigitsKept(raw);
        }
      }
      ParseFloat(cleaned)
  }

  /** `parseNumberString` deletes white space before anything else. */
  lemma StripsWhitespaceFirst(raw: string)
    ensures ParseNumber(raw) == ParseNumber(Filter(raw, NotSpace))
  {
    var s := Filter(raw, NotSpace);
    if raw != [] {
      FilterIdempotent(raw, NotSpace);
      if s == [] {
        assert DecimalSeparator(s) == NoSeparator;
        assert Cleaned(raw) == [];
      } else {
        assert Cleaned(s) == Cleaned(raw);
      }
    }
  }

  /** White space anywhere makes no difference: two arguments that differ only in their
      white space parse alike (so `"  42  "` reads as `"42"`). */
  lemma WhitespaceIgnored(a: string, b: string)
    requires Filter(a, NotSpace) == Filter(b, NotSpace)
    ensures ParseNumber(a) == ParseNumber(b)
  {
    StripsWhitespaceFirst(a);
    StripsWhitespaceFirst(b);
  }

  /** The separator that is not the decimal one, and that is read as thousands grouping. */
  function Grouping(point: char): char
  {
    if point == '.' then ',' else '.'
  }

  lemma FilterFour(a: string, b: string, c: string, d: string, keep: char -> bool)
    ensures Filter(a + b + c + d, keep) == Filter(a, keep) + Filter(b, keep) + Filter(c, keep) + Filter(d, keep)
  {
    FilterConcat(a + b + c, d, keep);
    FilterConcat(a + b, c, keep);
    FilterConcat(a, b, keep);
  }

  /** `sign whole point frac`, with whole made of digits and the grouping character. */
  predicate DecimalShape(whole: string, point: char, frac: string)
  {
    && (point == '.' || point == ',')
    && whole != [] && IsDigit(whole[0])
    && (forall k :: 0 <= k < |whole| ==> IsDigit(whole[k]) || whole[k] == Grouping(point))
    && AllDigits(frac)
  }

  lemma DecimalShapeNoSpace(negative: bool, whole: string, point: char, frac: string)
    requires DecimalShape(whole, point, frac)
    ensures Filter(Sign(negative) + whole + [point] + frac, NotSpace) == Sign(negative) + whole + [point] + frac
  {
    var sign := Sign(negative);
    var raw := sign + whole + [point] + frac;
    forall k | 0 <= k < |raw| ensures NotSpace(raw[k]) {
      if k < |sign| {
        assert raw[k] == sign[k];
      } else if k < |sign| + |whole| {
        assert raw[k] == whole[k - |sign|];
      } else if k > |sign| + |whole| {
        assert raw[k] == frac[k - |sign| - |whole| - 1];
      }
    }
    FilterKeepsAll(raw, NotSpace);
  }

  lemma DecimalShapeSeparator(negative: bool, whole: string, point: char, frac: string)
    requires DecimalShape(whole, point, frac)
    ensures DecimalSeparator(Sign(negative) + whole + [point] + frac) == if point == '.' then Dot else Comma
  {
    var raw := Sign(negative) + whole + [point] + frac;
    var at := |Sign(negative)| + |whole|;
    assert raw[at] == point;
    assert forall j :: at < j < |raw| ==> raw[j] == frac[j - at - 1];
  }

  lemma NumberCharsConcat(a: string, b: string)
    requires AllNumberChars(a) && AllNumberChars(b)
    ensures AllNumberChars(a + b)
  {
    forall k | 0 <= k < |a + b| ensures IsNumberChar((a + b)[k]) {
      if k >= |a| {
        assert (a + b)[k] == b[k - |a|];
      }
    }
  }

  /** A signed decimal numeral is made of number characters only. */
  lemma NumberCharsOfDecimal(negative: bool, whole: string, frac: string)
    requires AllDigits(whole) && AllDigits(frac)
    ensures AllNumberChars(Sign(negative) + whole + "." + frac)
  {
    assert AllNumberChars(Sign(negative));
    NumberCharsConcat(Sign(negative), whole);
    NumberCharsConcat(Sign(negative) + whole, ".");
    NumberCharsConcat(Sign(negative) + whole + ".", frac);
  }

  lemma CleanedDotDecimal(negative: bool, whole: string, frac: string)
    requires DecimalShape(whole, '.', frac)
    ensures AllDigits(Filter(whole, IsDigit))
    ensures Cleaned(Sign(negative) + whole + "." + frac) == Sign(negative) + Filter(whole, IsDigit) + "." + frac
  {
    var raw := Sign(negative) + whole + "." + frac;
    var t := Sign(negative) + Filter(whole, IsDigit) + "." + frac;
    DecimalShapeNoSpace(negative, whole, '.', frac);
    DecimalShapeSeparator(negative, whole, '.', frac);
    CleanedDot(raw);
    DotDecimalCommaless(negative, whole, frac);
    NumberCharsOfDecimal(negative, Filter(whole, IsDigit), frac);
    FilterKeepsAll(t, IsNumberChar);
  }

  lemma DotDecimalCommaless(negative: bool, whole: string, frac: string)
    requires DecimalShape(whole, '.', frac)
    ensures Filter(Sign(negative) + whole + "." + frac, NotComma) == Sign(negative) + Filter(whole, IsDigit) + "." + frac
  {
    var sign := Sign(negative);
    FilterFour(sign, whole, ".", frac, NotComma);
    FilterKeepsAll(sign, NotComma);
    FilterKeepsAll(".", NotComma);
    FilterKeepsAll(frac, NotComma);
    assert forall k :: 0 <= k < |whole| ==> NotComma(whole[k]) == IsDigit(whole[k]);
    FilterAgree(whole, NotComma, IsDigit);
  }

  lemma CleanedCommaDecimal(negative: bool, whole: string, frac: string)
    requires DecimalShape(whole, ',', frac)
    ensures AllDigits(Filter(whole, IsDigit))
    ensures Cleaned(Sign(negative) + whole + "," + frac) == Sign(negative) + Filter(whole, IsDigit) + "." + frac
  {
    var digits := Filter(whole, IsDigit);
    var raw := Sign(negative) + whole + "," + frac;
    var u := Sign(negative) + digits + "." + frac;
    DecimalShapeNoSpace(negative, whole, ',', frac);
    DecimalShapeSeparator(negative, whole, ',', frac);
    CleanedComma(raw);
    CommaDecimalDotless(negative, whole, frac);
    CommaTailReplaced(negative, digits, frac);
    NumberCharsOfDecimal(negative, digits, frac);
    FilterKeepsAll(u, IsNumberChar);
  }

  lemma CommaDecimalDotless(negative: bool, whole: string, frac: string)
    requires DecimalShape(whole, ',', frac)
    ensures Filter(Sign(negative) + whole + "," + frac, NotDot) == Sign(negative) + Filter(whole, IsDigit) + "," + frac
  {
    var sign := Sign(negative);
    FilterFour(sign, whole, ",", frac, NotDot);
    FilterKeepsAll(sign, NotDot);
    FilterKeepsAll(",", NotDot);
    FilterKeepsAll(frac, NotDot);
    FilterAgree(whole, NotDot, IsDigit);
  }

  /** The later of `.` and `,` is the decimal separator and every occurrence of the other
      one is dropped as thousands grouping: `-`? whole point frac, where whole is digits
      and grouping characters, reads as the digits of whole, then frac after the point. */
  lemma DecimalSeparatorRule(raw: string, negative: bool, whole: string, point: char, frac: string)
    requires raw == Sign(negative) + whole + [point] + frac
    requires DecimalShape(whole, point, frac)
    ensures AllDigits(Filter(whole, IsDigit))
    ensures ParseNumber(raw) == Finite(Signed(negative, DecimalValue(Filter(whole, IsDigit), frac)))
  {
    var digits := Filter(whole, IsDigit);
    FilterMembers(whole, IsDigit);
    assert whole[0] in whole;
    assert digits != [];
    if point == '.' {
      CleanedDotDecimal(negative, whole, frac);
    } else {
      CleanedCommaDecimal(negative, whole, frac);
    }
    ParseCleaned(raw);
    NoTail(Sign(negative) + digits + "." + frac);
    ParseFloatDecimal(negative, digits, frac, []);
  }

  /** A filter that keeps `-` and the digits keeps a leading number. */
  lemma FilterKeepsNumberStart(s: string, keep: char -> bool)
    requires StartsWithNumber(s)
    requires keep('-') && forall c :: IsDigit(c) ==> keep(c)
    ensures StartsWithNumber(Filter(s, keep))
  {
    assert Filter(s, keep) == [s[0]] + Filter(s[1..], keep);
    if !IsDigit(s[0]) {
      assert s[1..][0] == s[1];
      assert Filter(s[1..], keep) == [s[1]] + Filter(s[2..], keep);
    }
  }

  /** Cleaning keeps a leading number in place. */
  lemma CleanedKeepsNumberStart(raw: string)
    requires StartsWithNumber(raw)
    ensures StartsWithNumber(Cleaned(raw))
  {
    FilterKeepsNumberStart(raw, NotSpace);
    var s := Filter(raw, NotSpace);
    match DecimalSeparator(s)
    case NoSeparator =>
      FilterKeepsNumberStart(s, IsDigitOrMinus);
    case Dot =>
      FilterKeepsNumberStart(s, NotComma);
      FilterKeepsNumberStart(Filter(s, NotComma), IsNumberChar);
    case Comma =>
      var t := Filter(s, NotDot);
      FilterKeepsNumberStart(s, NotDot);
      ReplaceKeepsNumberStart(t);
      FilterKeepsNumberStart(ReplaceFirst(t, ',', '.'), IsNumberChar);
  }

  lemma ReplaceKeepsNumberStart(t: string)
    requires StartsWithNumber(t)
    ensures StartsWithNumber(ReplaceFirst(t, ',', '.'))
  {
    var n := if IsDigit(t[0]) then 1 else 2;
    assert t == t[..n] + t[n..];
    ReplaceFirstSkips(t[..n], ',', '.', t[n..]);
    var u := ReplaceFirst(t, ',', '.');
    assert u[..n] == t[..n];
  }

  /** A string that starts with a digit, or with a minus sign and a digit, always parses
      to a finite number, whatever follows. */
  lemma LeadingDigitParses(raw: string)
    requires StartsWithNumber(raw)
    ensures ParseNumber(raw).Finite?
  {
    CleanedKeepsNumberStart(raw);
  }


  /** A signed decimal numeral holds no white space. */
  lemma NoSpaceIn(s: string)
    requires AllNumberChars(s)
    ensures Filter(s, NotSpace) == s
  {
    FilterKeepsAll(s, NotSpace);
  }

  lemma IntegerCleaned(raw: string)
    requires forall k :: 0 <= k < |raw| ==> IsDigitOrMinus(raw[k])
    ensures Cleaned(raw) == raw
  {
    assert AllNumberChars(raw);
    NoSpaceIn(raw);
    assert '.' !in raw && ',' !in raw;
    assert DecimalSeparator(raw) == NoSeparator;
    FilterKeepsAll(raw, IsDigitOrMinus);
  }

  /** A run of digits after an optional minus sign reads as that integer. */
  lemma IntegerRule(raw: string, negative: bool, whole: string)
    requires raw == Sign(negative) + whole
    requires whole != [] && AllDigits(whole)
    ensures ParseNumber(raw) == Finite(Signed(negative, DigitsValue(whole) as real))
  {
    assert forall k :: 0 <= k < |raw| ==> IsDigitOrMinus(raw[k]) by {
      forall k | 0 <= k < |raw| ensures IsDigitOrMinus(raw[k]) {
        if k >= |Sign(negative)| {
          assert raw[k] == whole[k - |Sign(negative)|];
        }
      }
    }
    IntegerCleaned(raw);
    assert raw == Sign(negative) + whole + [];
    assert AllNumberChars(raw);
    ParseFloatInteger(negative, whole, []);
  }

  lemma CommaTailSeparator(raw: string, at: nat)
    requires at < |raw| && raw[at] == ','
    requires forall k :: 0 <= k < |raw| ==> raw[k] != '.'
    ensures DecimalSeparator(raw) == Comma
  {
  }

  lemma CommaTailChars(negative: bool, whole: string, tail: string)
    requires AllDigits(whole)
    requires forall k :: 0 <= k < |tail| ==> IsDigit(tail[k]) || tail[k] == ','
    ensures forall k :: 0 <= k < |Sign(negative) + whole + "," + tail| ==>
      (Sign(negative) + whole + "," + tail)[k] != '.' && !IsSpace((Sign(negative) + whole + "," + tail)[k])
  {
    var sign := Sign(negative);
    var raw := sign + whole + "," + tail;
    forall k | 0 <= k < |raw| ensures raw[k] != '.' && !IsSpace(raw[k]) {
      if k < |sign| {
        assert raw[k] == sign[k];
      } else if k < |sign| + |whole| {
        assert raw[k] == whole[k - |sign|];
      } else if k > |sign| + |whole| {
        assert raw[k] == tail[k - |sign| - |whole| - 1];
      }
    }
  }

  lemma CommaTailFiltered(negative: bool, whole: string, tail: string)
    requires AllDigits(whole)
    requires forall k :: 0 <= k < |tail| ==> IsDigit(tail[k]) || tail[k] == ','
    ensures Filter(Sign(negative) + whole + "." + tail, IsNumberChar) == Sign(negative) + whole + "." + Filter(tail, IsDigit)
  {
    var sign := Sign(negative);
    FilterFour(sign, whole, ".", tail, IsNumberChar);
    assert AllNumberChars(sign);
    FilterKeepsAll(sign, IsNumberChar);
    FilterKeepsAll(whole, IsNumberChar);
    FilterKeepsAll(".", IsNumberChar);
    FilterAgree(tail, IsNumberChar, IsDigit);
  }

  lemma CommaTailPrepared(negative: bool, whole: string, tail: string)
    requires AllDigits(whole)
    requires forall k :: 0 <= k < |tail| ==> IsDigit(tail[k]) || tail[k] == ','
    ensures var raw := Sign(negative) + whole + "," + tail;
      Filter(raw, NotSpace) == raw && DecimalSeparator(raw) == Comma && Filter(raw, NotDot) == raw
  {
    var sign := Sign(negative);
    var raw := sign + whole + "," + tail;
    CommaTailChars(negative, whole, tail);
    FilterKeepsAll(raw, NotSpace);
    assert raw[|sign| + |whole|] == ',';
    CommaTailSeparator(raw, |sign| + |whole|);
    FilterKeepsAll(raw, NotDot);
  }

  /** The comma branch of the cleaning, on an input without white space. */
  lemma CleanedComma(raw: string)
    requires Filter(raw, NotSpace) == raw && DecimalSeparator(raw) == Comma
    ensures Cleaned(raw) == Filter(ReplaceFirst(Filter(raw, NotDot), ',', '.'), IsNumberChar)
  {
  }

  /** The dot branch of the cleaning, on an input without white space. */
  lemma CleanedDot(raw: string)
    requires Filter(raw, NotSpace) == raw && DecimalSeparator(raw) == Dot
    ensures Cleaned(raw) == Filter(Filter(raw, NotComma), IsNumberChar)
  {
  }

  lemma CommaTailReplaced(negative: bool, whole: string, tail: string)
    requires AllDigits(whole)
    ensures ReplaceFirst(Sign(negative) + whole + "," + tail, ',', '.') == Sign(negative) + whole + "." + tail
  {
    var head := Sign(negative) + whole;
    forall k | 0 <= k < |head| ensures head[k] != ',' {
      if k >= |Sign(negative)| {
        assert head[k] == whole[k - |Sign(negative)|];
      }
    }
    assert head + "," + tail == head + [','] + tail;
    ReplaceFirstAt(head, ',', '.', tail);
    assert head + ['.'] + tail == head + "." + tail;
  }

  lemma CommaTailCleaned(negative: bool, whole: string, tail: string)
    requires whole != [] && AllDigits(whole)
    requires forall k :: 0 <= k < |tail| ==> IsDigit(tail[k]) || tail[k] == ','
    ensures Cleaned(Sign(negative) + whole + "," + tail) == Sign(negative) + whole + "." + Filter(tail, IsDigit)
  {
    var sign := Sign(negative);
    var raw := sign + whole + "," + tail;
    CommaTailPrepared(negative, whole, tail);
    CleanedComma(raw);
    CommaTailReplaced(negative, whole, tail);
    CommaTailFiltered(negative, whole, tail);
  }

  /** With commas and no point, the FIRST comma becomes the decimal point and every later
      comma is deleted, so `"1,234,567"` reads as 1.234567 and not as 1234.567. */
  lemma FirstCommaIsPoint(raw: string, negative: bool, whole: string, tail: string)
    requires raw == Sign(negative) + whole + "," + tail
    requires whole != [] && AllDigits(whole)
    requires forall k :: 0 <= k < |tail| ==> IsDigit(tail[k]) || tail[k] == ','
    ensures AllDigits(Filter(tail, IsDigit))
    ensures ParseNumber(raw) == Finite(Signed(negative, DecimalValue(whole, Filter(tail, IsDigit))))
  {
    var frac := Filter(tail, IsDigit);
    CommaTailCleaned(negative, whole, tail);
    assert raw != [];
    ParseCleaned(raw);
    NoTail(Sign(negative) + whole + "." + frac);
    ParseFloatDecimal(negative, whole, frac, []);
  }

  /** A non-empty input is parsed through its cleaned form. */
  lemma ParseCleaned(raw: string)
    requires raw != []
    ensures ParseNumber(raw) == ParseFloat(Cleaned(raw))
  {
  }

  lemma NoTail(s: string)
    ensures s + [] == s
  {
  }

  lemma DotTailCleaned(raw: string, at: nat)
    requires AllNumberChars(raw) && at < |raw| && raw[at] == '.'
    ensures Cleaned(raw) == raw
  {
    NoSpaceIn(raw);
    assert forall k :: 0 <= k < |raw| ==> raw[k] != ',';
    assert DecimalSeparator(raw) == Dot;
    FilterKeepsAll(raw, NotComma);
    FilterKeepsAll(raw, IsNumberChar);
  }

  /** With points only, `parseFloat` stops at the second point, so whatever follows it is
      dropped: `"1.2.3"` reads as 1.2. */
  lemma SecondPointStops(raw: string, negative: bool, whole: string, frac: string, rest: string)
    requires raw == Sign(negative) + whole + "." + frac + rest
    requires whole != [] && AllDigits(whole) && AllDigits(frac)
    requires AllNumberChars(rest) && (rest == [] || rest[0] == '.')
    ensures ParseNumber(raw) == Finite(Signed(negative, DecimalValue(whole, frac)))
  {
    ParseFloatDecimal(negative, whole, frac, rest);
    assert raw[|Sign(negative)| + |whole|] == '.';
    DotTailCleaned(raw, |Sign(negative)| + |whole|);
  }

  // The values of the numerals the examples below use.

  lemma SmallDigitValues()
    ensures AllDigits("1") && DigitsValue("1") == 1
    ensures AllDigits("2") && DigitsValue("2") == 2
    ensures AllDigits("5") && DigitsValue("5") == 5
    ensures AllDigits("12") && DigitsValue("12") == 12
    ensures AllDigits("42") && DigitsValue("42") == 42
    ensures AllDigits("56") && DigitsValue("56") == 56
  {
    assert "12"[..1] == "1" && "42"[..1] == "4" && "56"[..1] == "5";
  }

  lemma Digits1234()
    ensures AllDigits("1234") && DigitsValue("1234") == 1234
  {
    assert "1234"[..3] == "123";
    assert "123"[..2] == "12";
    assert "12"[..1] == "1";
  }

  lemma Digits234567()
    ensures AllDigits("234567") && DigitsValue("234567") == 234567
  {
    assert "234567"[..5] == "23456";
    assert "23456"[..4] == "2345";
    assert "2345"[..3] == "234";
    assert "234"[..2] == "23";
    assert "23"[..1] == "2";
  }

  lemma GroupedDigits()
    ensures Filter("1.234", IsDigit) == "1234" && Filter("1,234", IsDigit) == "1234"
  {
  }

  lemma PlainDigits()
    ensures Filter("12", IsDigit) == "12" && Filter("234,567", IsDigit) == "234567"
  {
  }

  lemma PaddedDigits()
    ensures Filter("  42  ", NotSpace) == "42" && Filter("42", NotSpace) == "42"
  {
  }

  lemma ExampleValues()
    ensures DecimalValue("1234", "56") == 1234.56
    ensures DecimalValue("12", "5") == 12.5
    ensures DecimalValue("1", "234567") == 1.234567
    ensures DecimalValue("1", "2") == 1.2
  {
    SmallDigitValues();
    Digits1234();
    Digits234567();
    assert Pow10(1) == 10 && Pow10(2) == 100 && Pow10(6) == 1000000;
  }

  /** `"1.234,56"`: the comma comes last, so it is the decimal separator. */
  lemma CommaDecimalExample()
    ensures ParseNumber("1.234,56") == Finite(1234.56)
  {
    GroupedDigits();
    DecimalSeparatorRule("1.234,56", false, "1.234", ',', "56");
    ExampleValues();
  }

  /** `"1,234.56"`: the point comes last, so the comma is grouping. */
  lemma DotDecimalExample()
    ensures ParseNumber("1,234.56") == Finite(1234.56)
  {
    GroupedDigits();
    DecimalSeparatorRule("1,234.56", false, "1,234", '.', "56");
    ExampleValues();
  }

  /** `"-12,5"`: the sign is kept and the comma is the decimal separator. */
  lemma NegativeCommaExample()
    ensures ParseNumber("-12,5") == Finite(-12.5)
  {
    PlainDigits();
    DecimalSeparatorRule("-12,5", true, "12", ',', "5");
    ExampleValues();
  }

  /** `"  42  "`: the padding is ignored. */
  lemma PaddedIntegerExample()
    ensures ParseNumber("  42  ") == Finite(42.0)
  {
    PaddedDigits();
    WhitespaceIgnored("  42  ", "42");
    SmallDigitValues();
    IntegerRule("42", false, "42");
  }

  /** `"1,234,567"`: the first comma becomes the point and the second is deleted. */
  lemma RepeatedCommaExample()
    ensures ParseNumber("1,234,567") == Finite(1.234567)
  {
    PlainDigits();
    SmallDigitValues();
    FirstCommaIsPoint("1,234,567", false, "1", "234,567");
    ExampleValues();
  }

  /** `"1.2.3"`: the parse stops at the second point. */
  lemma RepeatedDotExample()
    ensures ParseNumber("1.2.3") == Finite(1.2)
  {
    SmallDigitValues();
    SecondPointStops("1.2.3", false, "1", "2", ".3");
    ExampleValues();
  }
}

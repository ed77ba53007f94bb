/** Python's int() and float() applied to a str, and str() of an int, as
    far as the sensor record parser depends on them. A conversion that
    Python rejects with ValueError is None here. */
module Numbers {
  import opened Text

  /** CPython's default limit on the number of digits int() accepts from a string. */
  const MAX_STR_DIGITS: nat := 4300

  predicate IsDigit(c: char)
  {
    '0' <= c <= '9'
  }

  predicate IsDigits(s: string)
  {
    forall i :: 0 <= i < |s| ==> IsDigit(s[i])
  }

  function DigitsValue(s: string): nat
    requires IsDigits(s)
    decreases |s|
  {
    if s == [] then 0 else 10 * DigitsValue(s[..|s| - 1]) + (s[|s| - 1] as int - '0' as int)
  }

  function Pow10(n: nat): (p: nat)
    ensures p >= 1
  {
    if n == 0 then 1 else 10 * Pow10(n - 1)
  }

  /** A string of n digits denotes a number below 10^n. */
  lemma {:induction false} DigitsValueBound(s: string)
    requires IsDigits(s)
    ensures DigitsValue(s) < Pow10(|s|)
    decreases |s|
  {
    if s != [] {
      DigitsValueBound(s[..|s| - 1]);
    }
  }

  lemma {:induction false} Pow10Monotone(m: nat, n: nat)
    requires m <= n
    ensures Pow10(m) <= Pow10(n)
    decreases n
  {
    if m < n {
      Pow10Monotone(m, n - 1);
    }
  }

  /** Digit grouping of PEP 515: every '_' stands between two digits, so
      the text neither starts nor ends with one, and in every pair of
      neighbours an '_' has a digit on its other side. */
  predicate UnderscoresBetweenDigits(s: string)
  {
    (s == [] || (s[0] != '_' && s[|s| - 1] != '_')) && UnderscoresFlanked(s)
  }

  predicate UnderscoresFlanked(s: string)
    decreases |s|
  {
    |s| < 2 || ((s[0] == '_' ==> IsDigit(s[1])) && (s[1] == '_' ==> IsDigit(s[0])) && UnderscoresFlanked(s[1..]))
  }

  /** Text without underscores trivially groups its digits correctly. */
  lemma {:induction false} NoUnderscoresFlanked(s: string)
    requires '_' !in s
    ensures UnderscoresBetweenDigits(s)
    decreases |s|
  {
    if |s| >= 2 {
      assert s[1..][0] == s[1];
      NoUnderscoresFlanked(s[1..]);
    }
  }

  /** The text with every '_' taken out: exactly as many characters fewer as there were underscores. */
  function RemoveUnderscores(s: string): (r: string)
    ensures '_' !in r
    ensures |r| == |s| - Count(s, '_')
    decreases |s|
  {
    if s == [] then [] else (if s[0] == '_' then [] else [s[0]]) + RemoveUnderscores(s[1..])
  }

  lemma {:induction false} RemoveNoUnderscores(s: string)
    requires '_' !in s
    ensures RemoveUnderscores(s) == s
    decreases |s|
  {
    if s != [] {
      assert '_' !in s[1..] by {
        assert forall k :: 0 <= k < |s[1..]| ==> s[1..][k] == s[k + 1];
      }
      RemoveNoUnderscores(s[1..]);
      assert s == [s[0]] + s[1..];
    }
  }

  /** Removing underscores works piecewise: the other characters stay, in order. */
  lemma {:induction false} RemoveUnderscoresAppend(a: string, b: string)
    ensures RemoveUnderscores(a + b) == RemoveUnderscores(a) + RemoveUnderscores(b)
    decreases |a|
  {
    if a == [] {
      assert a + b == b;
    } else {
      assert (a + b)[0] == a[0] && (a + b)[1..] == a[1..] + b;
      RemoveUnderscoresAppend(a[1..], b);
    }
  }

  /** One more character in front keeps the grouping when it is not an '_' next to a non-digit. */
  lemma FlankedCons(c: char, t: string)
    requires UnderscoresFlanked(t)
    requires c == '_' ==> t != [] && IsDigit(t[0])
    requires t != [] && t[0] == '_' ==> IsDigit(c)
    ensures UnderscoresFlanked([c] + t)
  {
    assert ([c] + t)[1..] == t;
  }

  /** Digits in front keep the grouping of any text. */
  lemma {:induction false} FlankedDigitsBefore(d: string, t: string)
    requires IsDigits(d) && UnderscoresFlanked(t)
    ensures UnderscoresFlanked(d + t)
    decreases |d|
  {
    if d == [] {
      assert d + t == t;
    } else {
      FlankedDigitsBefore(d[1..], t);
      FlankedCons(d[0], d[1..] + t);
      assert d + t == [d[0]] + (d[1..] + t);
    }
  }

  /** A digit group, '_' and correctly grouped digits are correctly grouped
      digits, and removing the underscores joins the group to the digits of the rest. */
  lemma GroupBefore(g: string, t: string, digits: string)
    requires |g| >= 1 && IsDigits(g)
    requires |t| >= 1 && IsDigit(t[0]) && IsDigit(t[|t| - 1]) && UnderscoresFlanked(t)
    requires RemoveUnderscores(t) == digits
    ensures var s := g + ['_'] + t;
      && IsDigit(s[0]) && IsDigit(s[|s| - 1]) && UnderscoresFlanked(s)
      && RemoveUnderscores(s) == g + digits
  {
    var s := g + ['_'] + t;
    FlankedCons('_', t);
    FlankedDigitsBefore(g, ['_'] + t);
    assert s == g + (['_'] + t);
    assert s[0] == g[0] && s[|s| - 1] == t[|t| - 1];
    RemoveUnderscoresAppend(g, ['_'] + t);
    DigitsLack(g, '_');
    RemoveNoUnderscores(g);
    assert (['_'] + t)[1..] == t;
    assert RemoveUnderscores(['_'] + t) == RemoveUnderscores(t);
  }

  /** Digit groups concatenate to digits. */
  lemma {:induction false} ConcatDigits(groups: seq<string>)
    requires forall i :: 0 <= i < |groups| ==> IsDigits(groups[i])
    ensures IsDigits(Concat(groups))
    decreases |groups|
  {
    if groups != [] {
      var init := groups[..|groups| - 1];
      assert forall i :: 0 <= i < |init| ==> init[i] == groups[i];
      ConcatDigits(init);
    }
  }

  /** Non-empty digit groups joined by single '_' are correctly grouped
      digits, and removing the underscores leaves the groups' digits in order. */
  lemma {:induction false} DigitGroupsJoined(groups: seq<string>)
    requires |groups| >= 1
    requires forall i :: 0 <= i < |groups| ==> |groups[i]| >= 1 && IsDigits(groups[i])
    ensures var s := Join(groups, '_');
      && |s| >= 1 && IsDigit(s[0]) && IsDigit(s[|s| - 1]) && UnderscoresFlanked(s)
      && RemoveUnderscores(s) == Concat(groups) && IsDigits(Concat(groups))
    decreases |groups|
  {
    var g := groups[0];
    ConcatDigits(groups);
    if |groups| == 1 {
      DigitsLack(g, '_');
      NoUnderscoresFlanked(g);
      RemoveNoUnderscores(g);
      assert Join(groups, '_') == g;
      assert groups == [g] + [];
      ConcatCons(g, []);
    } else {
      var rest := groups[1..];
      assert forall i :: 0 <= i < |rest| ==> rest[i] == groups[i + 1];
      DigitGroupsJoined(rest);
      assert Join(groups, '_') == g + ['_'] + Join(rest, '_');
      GroupBefore(g, Join(rest, '_'), Concat(rest));
      assert groups == [g] + rest;
      ConcatCons(g, rest);
    }
  }

  /** One optional leading sign: whether it was '-', and the text after it. */
  datatype Signed = Signed(negative: bool, body: string)

  function SplitSign(s: string): (r: Signed)
    ensures r.body == s || (|s| > 0 && r.body == s[1..])
  {
    if |s| > 0 && (s[0] == '+' || s[0] == '-') then Signed(s[0] == '-', s[1..]) else Signed(false, s)
  }

  /** int(s): surrounding whitespace stripped, one optional sign, ASCII
      decimal digits grouped by single underscores, at most MAX_STR_DIGITS
      digits. */
  function ParseInt(s: string): (r: Option<int>)
  {
    ParseStrippedInt(Strip(s))
  }

  /** int() past the stripping of whitespace. */
  function ParseStrippedInt(t: string): (r: Option<int>)
  {
    if !UnderscoresBetweenDigits(t) then None
    else
      var n := SplitSign(RemoveUnderscores(t));
      if n.body == [] || !IsDigits(n.body) || |n.body| > MAX_STR_DIGITS then None
      else
        var v: int := DigitsValue(n.body);
        Some(if n.negative then -v else v)
  }

  /** The digit limit bounds every value int() can return from a string. */
  lemma ParseIntBound(s: string)
    requires ParseInt(s).Some?
    ensures -(Pow10(MAX_STR_DIGITS) as int) < ParseInt(s).value < Pow10(MAX_STR_DIGITS)
  {
    var n := SplitSign(RemoveUnderscores(Strip(s)));
    DigitsValueBound(n.body);
    Pow10Monotone(|n.body|, MAX_STR_DIGITS);
  }

  function DigitChar(d: nat): (c: char)
    requires d < 10
    ensures IsDigit(c) && c as int - '0' as int == d
  {
    ('0' as int + d) as char
  }

  /** str(n) for n >= 0: its canonical decimal digits. */
  function NatString(n: nat): (s: string)
    ensures |s| >= 1 && IsDigits(s) && DigitsValue(s) == n
    ensures s[0] == '0' ==> n == 0
    decreases n
  {
    if n < 10 then [DigitChar(n)]
    else
      var s := NatString(n / 10) + [DigitChar(n % 10)];
      assert s[..|s| - 1] == NatString(n / 10);
      s
  }

  /** str(n) for any integer. */
  function DecimalString(n: int): string
  {
    if n < 0 then "-" + NatString(-n) else NatString(n)
  }

  /** Two integers print alike only when they are equal. */
  lemma DecimalStringInjective(a: int, b: int)
    requires DecimalString(a) == DecimalString(b)
    ensures a == b
  {
    assert IsDigit(NatString(if a < 0 then -a else a)[0]);
    assert IsDigit(NatString(if b < 0 then -b else b)[0]);
    assert (DecimalString(a)[0] == '-') == (a < 0);
    assert (DecimalString(b)[0] == '-') == (b < 0);
    if a < 0 {
      assert NatString(-a) == DecimalString(a)[1..];
      assert NatString(-b) == DecimalString(b)[1..];
    }
  }

  /** Text with no padding and no underscores, made of a sign and digits, reads as that number. */
  lemma ParseIntOfCleanText(s: string, negative: bool, digits: string)
    requires 1 <= |digits| <= MAX_STR_DIGITS && IsDigits(digits)
    requires Strip(s) == s
    requires UnderscoresBetweenDigits(s) && RemoveUnderscores(s) == s
    requires SplitSign(s) == Signed(negative, digits)
    ensures ParseInt(s) == Some(if negative then -(DigitsValue(digits) as int) else DigitsValue(digits))
  {
    assert ParseInt(s) == ParseStrippedInt(s);
    StrippedIntOfCleanText(s, negative, digits);
  }

  /** The same, past the stripping of whitespace. */
  lemma StrippedIntOfCleanText(s: string, negative: bool, digits: string)
    requires 1 <= |digits| <= MAX_STR_DIGITS && IsDigits(digits)
    requires UnderscoresBetweenDigits(s) && RemoveUnderscores(s) == s
    requires SplitSign(s) == Signed(negative, digits)
    ensures ParseStrippedInt(s) == Some(if negative then -(DigitsValue(digits) as int) else DigitsValue(digits))
  {
  }

  /** Correctly grouped text, past the stripping of whitespace, reads as the digits left once its underscores are removed. */
  lemma StrippedIntOfDigits(t: string, digits: string)
    requires 1 <= |digits| <= MAX_STR_DIGITS && IsDigits(digits)
    requires UnderscoresBetweenDigits(t) && RemoveUnderscores(t) == digits
    ensures ParseStrippedInt(t) == Some(DigitsValue(digits))
  {
    assert SplitSign(digits) == Signed(false, digits);
  }

  /** PEP 515: int() of digit groups joined by single underscores is the
      number their digits spell together, as in int("1_000") == 1000. */
  lemma ParseIntGroupedDigits(groups: seq<string>)
    requires |groups| >= 1
    requires forall i :: 0 <= i < |groups| ==> |groups[i]| >= 1 && IsDigits(groups[i])
    requires |Concat(groups)| <= MAX_STR_DIGITS
    ensures IsDigits(Concat(groups))
    ensures ParseInt(Join(groups, '_')) == Some(DigitsValue(Concat(groups)))
  {
    var s := Join(groups, '_');
    DigitGroupsJoined(groups);
    StripUnpadded(s);
    assert ParseInt(s) == ParseStrippedInt(s);
    StrippedIntOfDigits(s, Concat(groups));
  }

  /** Characters of a plain numeral: digits, a minus sign and a decimal point. */
  predicate IsNumeralText(s: string)
  {
    forall i :: 0 <= i < |s| ==> IsDigit(s[i]) || s[i] == '-' || s[i] == '.'
  }

  /** A plain numeral has nothing for int() or float() to strip. */
  lemma NumeralUnpadded(s: string)
    requires s != [] && IsNumeralText(s)
    ensures Strip(s) == s
  {
    assert IsDigit(s[0]) || s[0] == '-' || s[0] == '.';
    assert IsDigit(s[|s| - 1]) || s[|s| - 1] == '-' || s[|s| - 1] == '.';
    StripUnpadded(s);
  }

  /** A plain numeral has no underscores to check or remove. */
  lemma NumeralWithoutUnderscores(s: string)
    requires IsNumeralText(s)
    ensures UnderscoresBetweenDigits(s) && RemoveUnderscores(s) == s
  {
    assert '_' !in s;
    NoUnderscoresFlanked(s);
    RemoveNoUnderscores(s);
  }

  lemma SignedDigitsNumeral(sign: string, digits: string)
    requires sign == "" || sign == "-"
    requires IsDigits(digits)
    ensures IsNumeralText(sign + digits)
  {
  }

  lemma SplitSignOfSignedDigits(sign: string, digits: string)
    requires sign == "" || sign == "-"
    requires |digits| >= 1 && IsDigits(digits)
    ensures SplitSign(sign + digits) == Signed(sign == "-", digits)
  {
  }

  /** A minus sign (or none) followed by digits is clean text: nothing to strip, no underscores. */
  lemma SignedDigitsClean(sign: string, digits: string)
    requires sign == "" || sign == "-"
    requires |digits| >= 1 && IsDigits(digits)
    ensures Strip(sign + digits) == sign + digits
    ensures UnderscoresBetweenDigits(sign + digits) && RemoveUnderscores(sign + digits) == sign + digits
    ensures SplitSign(sign + digits) == Signed(sign == "-", digits)
  {
    SignedDigitsNumeral(sign, digits);
    NumeralUnpadded(sign + digits);
    NumeralWithoutUnderscores(sign + digits);
    SplitSignOfSignedDigits(sign, digits);
  }

  /** A minus sign (or none) followed by ASCII digits within the limit reads as that number. */
  lemma ParseIntPlain(sign: string, digits: string)
    requires sign == "" || sign == "-"
    requires 1 <= |digits| <= MAX_STR_DIGITS && IsDigits(digits)
    ensures ParseInt(sign + digits) == Some(if sign == "-" then -(DigitsValue(digits) as int) else DigitsValue(digits))
  {
    SignedDigitsClean(sign, digits);
    ParseIntOfCleanText(sign + digits, sign == "-", digits);
  }

  /** int() reads back what str() prints, while the digit limit allows it. */
  lemma ParseIntDecimalString(n: int)
    requires |NatString(if n < 0 then -n else n)| <= MAX_STR_DIGITS
    ensures ParseInt(DecimalString(n)) == Some(n)
  {
    if n < 0 {
      ParseIntNegativeString(-n);
    } else {
      ParseIntNatString(n);
    }
  }

  /** int() reads back str() of a natural number. */
  lemma ParseIntNatString(m: nat)
    requires |NatString(m)| <= MAX_STR_DIGITS
    ensures ParseInt(NatString(m)) == Some(m)
  {
    var digits := NatString(m);
    ParseIntPlain("", digits);
    assert "" + digits == digits;
  }

  /** int() reads back str() of a negative number. */
  lemma ParseIntNegativeString(m: nat)
    requires |NatString(m)| <= MAX_STR_DIGITS
    ensures ParseInt("-" + NatString(m)) == Some(-(m as int))
  {
    var digits := NatString(m);
    SignedDigitsClean("-", digits);
    ParseIntOfCleanText("-" + digits, true, digits);
  }

  /** What float() produces. A finite value is kept exactly, as the decimal
      (-1)^negative * mantissa * 10^exponent that the text denotes. */
  datatype FloatValue = Finite(negative: bool, mantissa: nat, exponent: int) | Infinity(negative: bool) | NaN

  function AsciiLower(s: string): (r: string)
    ensures |r| == |s|
    decreases |s|
  {
    if s == [] then []
    else [if 'A' <= s[0] <= 'Z' then (s[0] as int + 32) as char else s[0]] + AsciiLower(s[1..])
  }

  /** Index of the first exponent marker 'e' or 'E', or |s| when there is none. */
  function ExponentMarker(s: string): (i: nat)
    ensures i <= |s|
    ensures i < |s| ==> s[i] == 'e' || s[i] == 'E'
    ensures forall k :: 0 <= k < i ==> s[k] != 'e' && s[k] != 'E'
    decreases |s|
  {
    if s == [] then 0 else if s[0] == 'e' || s[0] == 'E' then 0 else 1 + ExponentMarker(s[1..])
  }

  /** An exponent after 'e': one optional sign and at least one digit. */
  function ParseExponent(s: string): Option<int>
  {
    var n := SplitSign(s);
    if n.body == [] || !IsDigits(n.body) then None
    else
      var v: int := DigitsValue(n.body);
      Some(if n.negative then -v else v)
  }

  /** An unsigned decimal literal: digits, optionally a '.' and more digits
      (at least one digit overall), optionally an exponent. The result is the
      mantissa of all the digits and the power of ten that scales it. */
  function ParseDecimal(s: string): Option<(nat, int)>
  {
    var e := ExponentMarker(s);
    var mantissa := s[..e];
    var exponent := if e == |s| then Some(0) else ParseExponent(s[e + 1..]);
    var dot := Find(mantissa, '.', 0);
    var whole := if dot < 0 then mantissa else mantissa[..dot];
    var fraction := if dot < 0 then "" else mantissa[dot + 1..];
    if !IsDigits(whole) || !IsDigits(fraction) || |whole| + |fraction| == 0 || exponent.None? then None
    else
      assert IsDigits(whole + fraction);
      Some((DigitsValue(whole + fraction), exponent.value - |fraction|))
  }

  /** float(s): surrounding whitespace stripped, underscores between digits
      only, one optional sign, then "inf", "infinity" or "nan" in any letter
      case, or a decimal literal. */
  function ParseFloat(s: string): (r: Option<FloatValue>)
  {
    ParseStrippedFloat(Strip(s))
  }

  /** float() past the stripping of whitespace. */
  function ParseStrippedFloat(t: string): (r: Option<FloatValue>)
  {
    if !UnderscoresBetweenDigits(t) then None
    else
      var n := SplitSign(RemoveUnderscores(t));
      var word := AsciiLower(n.body);
      if word == "inf" || word == "infinity" then Some(Infinity(n.negative))
      else if word == "nan" then Some(NaN)
      else
        match ParseDecimal(n.body)
        case None => None
        case Some((m, e)) => Some(Finite(n.negative, m, e))
  }

  /** Clean text past its sign that is neither an infinity nor a NaN reads as the decimal it spells. */
  lemma ParseFloatOfCleanText(s: string, negative: bool, body: string, mantissa: nat, exponent: int)
    requires Strip(s) == s
    requires UnderscoresBetweenDigits(s) && RemoveUnderscores(s) == s
    requires SplitSign(s) == Signed(negative, body)
    requires AsciiLower(body) != "inf" && AsciiLower(body) != "infinity" && AsciiLower(body) != "nan"
    requires ParseDecimal(body) == Some((mantissa, exponent))
    ensures ParseFloat(s) == Some(Finite(negative, mantissa, exponent))
  {
    assert ParseFloat(s) == ParseStrippedFloat(s);
    StrippedFloatOfCleanText(s, negative, body, mantissa, exponent);
  }

  /** The same, past the stripping of whitespace. */
  lemma StrippedFloatOfCleanText(s: string, negative: bool, body: string, mantissa: nat, exponent: int)
    requires UnderscoresBetweenDigits(s) && RemoveUnderscores(s) == s
    requires SplitSign(s) == Signed(negative, body)
    requires AsciiLower(body) != "inf" && AsciiLower(body) != "infinity" && AsciiLower(body) != "nan"
    requires ParseDecimal(body) == Some((mantissa, exponent))
    ensures ParseStrippedFloat(s) == Some(Finite(negative, mantissa, exponent))
  {
  }

  /** Text starting with a digit is no spelling of an infinity or a NaN. */
  lemma NotAWord(body: string)
    requires |body| >= 1 && IsDigit(body[0])
    ensures AsciiLower(body) != "inf" && AsciiLower(body) != "infinity" && AsciiLower(body) != "nan"
  {
    assert AsciiLower(body)[0] == body[0];
  }

  /** A run of digits is a decimal literal with exponent zero. */
  lemma ParseDecimalDigits(digits: string)
    requires |digits| >= 1 && IsDigits(digits)
    ensures ParseDecimal(digits) == Some((DigitsValue(digits), 0))
  {
    assert forall i :: 0 <= i < |digits| ==> digits[i] != 'e' && digits[i] != 'E' && digits[i] != '.';
    assert ExponentMarker(digits) == |digits|;
    assert digits[..|digits|] == digits;
    assert digits + "" == digits;
  }

  /** Text without 'e' or 'E' has no exponent part. */
  lemma NoExponentMarker(s: string)
    requires 'e' !in s && 'E' !in s
    ensures ExponentMarker(s) == |s|
  {
  }

  /** Digits hold no character other than a digit. */
  lemma DigitsLack(s: string, c: char)
    requires IsDigits(s) && !IsDigit(c)
    ensures c !in s
  {
  }

  /** Digits, a point and digits: the point is found right after the whole part. */
  lemma FixedPointSplit(whole: string, fraction: string)
    requires IsDigits(whole)
    ensures var s := whole + "." + fraction;
      Find(s, '.', 0) == |whole| && s[..|whole|] == whole && s[|whole| + 1..] == fraction
  {
    var s := whole + "." + fraction;
    assert s == whole + ("." + fraction);
    DigitsLack(whole, '.');
    FindAfterFreePrefix(whole, "." + fraction, '.');
  }

  /** Digits, a point and digits form a decimal literal scaled by the number of fraction digits. */
  lemma ParseDecimalFixedPoint(whole: string, fraction: string)
    requires IsDigits(whole) && IsDigits(fraction) && |whole| + |fraction| >= 1
    ensures ParseDecimal(whole + "." + fraction) == Some((DigitsValue(whole + fraction), -|fraction|))
  {
    var s := whole + "." + fraction;
    DigitsLack(whole, 'e');
    DigitsLack(whole, 'E');
    DigitsLack(fraction, 'e');
    DigitsLack(fraction, 'E');
    NoExponentMarker(s);
    assert s[..|s|] == s;
    FixedPointSplit(whole, fraction);
  }

  lemma FixedPointNumeral(whole: string, fraction: string)
    requires |whole| >= 1 && IsDigits(whole) && IsDigits(fraction)
    ensures IsDigits(whole + fraction)
    ensures IsNumeralText(whole + "." + fraction)
    ensures SplitSign(whole + "." + fraction) == Signed(false, whole + "." + fraction)
  {
    assert IsDigit((whole + "." + fraction)[0]);
  }

  /** Text made only of digits and a single point reads as the exact decimal it spells. */
  lemma ParseFloatFixedPoint(whole: string, fraction: string)
    requires |whole| >= 1 && IsDigits(whole) && IsDigits(fraction)
    ensures IsDigits(whole + fraction)
    ensures ParseFloat(whole + "." + fraction)
         == Some(Finite(false, DigitsValue(whole + fraction), -|fraction|))
  {
    var s := whole + "." + fraction;
    FixedPointNumeral(whole, fraction);
    NumeralUnpadded(s);
    NumeralWithoutUnderscores(s);
    NotAWord(s);
    ParseDecimalFixedPoint(whole, fraction);
    ParseFloatOfCleanText(s, false, s, DigitsValue(whole + fraction), -|fraction|);
  }

  /** A minus sign in front keeps a numeral a numeral. */
  lemma MinusNumeral(body: string)
    requires IsNumeralText(body)
    ensures IsNumeralText("-" + body)
  {
    assert forall i :: 1 <= i < |"-" + body| ==> ("-" + body)[i] == body[i - 1];
  }

  /** A minus sign in front of text starting with a digit is its sign. */
  lemma SplitMinus(body: string)
    requires |body| >= 1 && IsDigit(body[0])
    ensures SplitSign("-" + body) == Signed(true, body)
  {
    assert ("-" + body)[1..] == body;
  }

  /** A minus, digits, a point and digits read as the negated exact decimal,
      as a temperature below zero is sent. */
  lemma ParseFloatNegativeFixedPoint(whole: string, fraction: string)
    requires |whole| >= 1 && IsDigits(whole) && IsDigits(fraction)
    ensures IsDigits(whole + fraction)
    ensures ParseFloat("-" + (whole + "." + fraction))
         == Some(Finite(true, DigitsValue(whole + fraction), -|fraction|))
  {
    var body := whole + "." + fraction;
    var s := "-" + body;
    FixedPointNumeral(whole, fraction);
    MinusNumeral(body);
    NumeralUnpadded(s);
    NumeralWithoutUnderscores(s);
    assert body[0] == whole[0];
    SplitMinus(body);
    NotAWord(body);
    ParseDecimalFixedPoint(whole, fraction);
    ParseFloatOfCleanText(s, true, body, DigitsValue(whole + fraction), -|fraction|);
  }

  /** An integer's text is also a valid float, with the same value. */
  lemma ParseFloatDecimalString(n: int)
    ensures ParseFloat(DecimalString(n)) == Some(Finite(n < 0, if n < 0 then -n else n, 0))
  {
    var sign := if n < 0 then "-" else "";
    var digits := NatString(if n < 0 then -n else n);
    assert DecimalString(n) == sign + digits;
    SignedDigitsClean(sign, digits);
    NotAWord(digits);
    ParseDecimalDigits(digits);
    ParseFloatOfCleanText(sign + digits, n < 0, digits, DigitsValue(digits), 0);
  }
}

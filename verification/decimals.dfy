/** Exact decimal numbers, as the handlers obtain them with `Decimal(str(v))`.

    A numeric string is `[sign] digits [. [digits]] [(e|E) [sign] digits]`,
    or `[sign] . digits [(e|E) [sign] digits]`: at least one digit before the
    exponent. Its value is the exact rational `m * 10^e`, so sums and
    comparisons on parsed values never round. */
module Decimals {
  import opened Wrappers

  function Pow10(n: nat): (r: nat)
    ensures r >= 1
  {
    if n == 0 then 1 else 10 * Pow10(n - 1)
  }

  /** 10 raised to an integer exponent, as an exact rational. */
  function Power10(e: int): (r: real)
    ensures r > 0.0
  {
    if e >= 0 then Pow10(e) as real else 1.0 / Pow10(-e) as real
  }

  /** The exact value of the decimal with coefficient `m` and exponent `e`. */
  function Value(m: int, e: int): real
  {
    m as real * Power10(e)
  }

  predicate IsDigit(c: char)
  {
    '0' <= c <= '9'
  }

  predicate AllDigits(s: string)
  {
    forall i | 0 <= i < |s| :: IsDigit(s[i])
  }

  function DigitValue(c: char): nat
    requires IsDigit(c)
  {
    c as int - '0' as int
  }

  function DigitChar(d: nat): (c: char)
    requires d < 10
    ensures IsDigit(c) && DigitValue(c) == d
  {
    ('0' as int + d) as char
  }

  /** The number a string of decimal digits denotes, most significant first. */
  function DigitsValue(s: string): nat
    requires AllDigits(s)
  {
    if s == [] then 0 else 10 * DigitsValue(s[..|s| - 1]) + DigitValue(s[|s| - 1])
  }

  /** Length of the longest prefix of `s` made of digits. */
  function DigitRun(s: string): (n: nat)
    ensures n <= |s| && AllDigits(s[..n])
    ensures n < |s| ==> !IsDigit(s[n])
  {
    if s == [] || !IsDigit(s[0]) then 0
    else
      var n := 1 + DigitRun(s[1..]);
      assert s[..n] == [s[0]] + s[1..][..n - 1];
      n
  }

  /** An optional leading sign: whether it is '-', and what follows it. */
  function StripSign(s: string): (bool, string)
  {
    if s != [] && (s[0] == '+' || s[0] == '-') then (s[0] == '-', s[1..]) else (false, s)
  }

  /** The exponent part: empty (exponent 0) or `e`/`E`, a sign, at least one digit. */
  function ParseExponent(s: string): Option<int>
  {
    if s == [] then Some(0)
    else if s[0] != 'e' && s[0] != 'E' then None
    else
      var (negative, ds) := StripSign(s[1..]);
      if ds != [] && AllDigits(ds) then
        Some(if negative then -(DigitsValue(ds) as int) else DigitsValue(ds) as int)
      else None
  }

  lemma AllDigitsConcat(a: string, b: string)
    requires AllDigits(a) && AllDigits(b)
    ensures AllDigits(a + b)
  {
  }

  /** The coefficient of a numeric string, split off from what follows it:
      its digits with the decimal point removed, how many of them follow
      the point, and the text after the last coefficient digit. */
  datatype Coefficient = Coefficient(digits: string, scale: nat, tail: string)

  function SplitCoefficient(body: string): (c: Coefficient)
    ensures AllDigits(c.digits) && c.scale <= |c.digits|
  {
    var w := DigitRun(body);
    var afterWhole := body[w..];
    if afterWhole != [] && afterWhole[0] == '.' then
      var afterPoint := afterWhole[1..];
      var f := DigitRun(afterPoint);
      AllDigitsConcat(body[..w], afterPoint[..f]);
      Coefficient(body[..w] + afterPoint[..f], f, afterPoint[f..])
    else
      Coefficient(body[..w], 0, afterWhole)
  }

  /** The value of a parsed sign, coefficient and exponent; None when the
      coefficient has no digit or the exponent part is malformed. */
  function Assemble(negative: bool, c: Coefficient, exponent: Option<int>): Option<real>
    requires AllDigits(c.digits)
  {
    if c.digits == [] || exponent.None? then None
    else
      var magnitude := DigitsValue(c.digits) as int;
      Some(Value(if negative then -magnitude else magnitude, exponent.value - c.scale))
  }

  /** `Decimal(text)` for a finite numeric string written with ASCII digits
      and no whitespace or underscores; None stands for Python's
      `decimal.InvalidOperation` (a `ConversionSyntax` signal). Python also
      accepts surrounding whitespace, `_` between digits, non-ASCII digits
      and the NaN and infinity spellings, which this function rejects. */
  function Parse(s: string): Option<real>
  {
    var (negative, body) := StripSign(s);
    var c := SplitCoefficient(body);
    Assemble(negative, c, ParseExponent(c.tail))
  }

  // ---------------------------------------------------------------------
  // A canonical rendering, and the round trip through Parse.

  function Abs(x: int): nat
  {
    if x < 0 then -x else x
  }

  function SignText(x: int): string
  {
    if x < 0 then "-" else ""
  }

  /** The shortest decimal digit string of `n`. */
  function NatDigits(n: nat): (s: string)
    ensures s != [] && AllDigits(s)
  {
    if n < 10 then [DigitChar(n)] else NatDigits(n / 10) + [DigitChar(n % 10)]
  }

  /** Scientific notation `[-]digitsE[-]digits` of the decimal `m * 10^e`. */
  function Render(m: int, e: int): string
  {
    SignText(m) + NatDigits(Abs(m)) + "E" + SignText(e) + NatDigits(Abs(e))
  }

  lemma {:induction false} NatDigitsValue(n: nat)
    ensures DigitsValue(NatDigits(n)) == n
  {
    if n >= 10 {
      var s := NatDigits(n);
      assert s[..|s| - 1] == NatDigits(n / 10);
      NatDigitsValue(n / 10);
    }
  }

  /** Appending digits shifts the value left by as many decimal places. */
  lemma {:induction false} DigitsAppend(a: string, b: string)
    requires AllDigits(a) && AllDigits(b)
    ensures AllDigits(a + b)
    ensures DigitsValue(a + b) == DigitsValue(a) * Pow10(|b|) + DigitsValue(b)
  {
    if b == [] {
      assert a + b == a;
    } else {
      var b' := b[..|b| - 1];
      assert (a + b)[..|a + b| - 1] == a + b';
      assert (a + b)[|a + b| - 1] == b[|b| - 1];
      DigitsAppend(a, b');
      ShiftDigit(DigitsValue(a), Pow10(|b'|), DigitsValue(b'), DigitValue(b[|b| - 1]));
    }
  }

  lemma ShiftDigit(x: int, p: int, y: int, d: int)
    ensures 10 * (x * p + y) + d == x * (10 * p) + (10 * y + d)
  {
  }

  /** A digit run stops exactly at the first character that is not a digit. */
  lemma {:induction false} DigitRunStops(ds: string, rest: string)
    requires AllDigits(ds)
    requires rest == [] || !IsDigit(rest[0])
    ensures DigitRun(ds + rest) == |ds|
  {
    if ds != [] {
      assert (ds + rest)[1..] == ds[1..] + rest;
      DigitRunStops(ds[1..], rest);
    }
  }

  /** A coefficient without a decimal point ends at the first character that
      is neither a digit nor '.'. */
  lemma SplitWhole(ds: string, rest: string)
    requires AllDigits(ds)
    requires rest == [] || (!IsDigit(rest[0]) && rest[0] != '.')
    ensures SplitCoefficient(ds + rest) == Coefficient(ds, 0, rest)
  {
    DigitRunStops(ds, rest);
    assert (ds + rest)[..|ds|] == ds && (ds + rest)[|ds|..] == rest;
  }

  lemma ParseRenderedExponent(e: int)
    ensures ParseExponent("E" + SignText(e) + NatDigits(Abs(e))) == Some(e)
  {
    var ds := NatDigits(Abs(e));
    var ex := "E" + SignText(e) + ds;
    assert ex[1..] == SignText(e) + ds;
    assert StripSign(SignText(e) + ds) == (e < 0, ds);
    NatDigitsValue(Abs(e));
  }

  lemma StripRenderedSign(m: int, rest: string)
    requires rest != [] && IsDigit(rest[0])
    ensures StripSign(SignText(m) + rest) == (m < 0, rest)
  {
    if m < 0 {
      assert (SignText(m) + rest)[1..] == rest;
    } else {
      assert SignText(m) + rest == rest;
    }
  }

  /** What each stage of Parse reads off `s`: the sign, the coefficient
      digits with their scale, and the exponent. */
  predicate ReadsAs(s: string, sign: string, body: string, digits: string, scale: nat, tail: string, e: int)
  {
    && StripSign(s) == (sign == "-", body)
    && SplitCoefficient(body) == Coefficient(digits, scale, tail) && digits != []
    && ParseExponent(tail) == Some(e)
  }

  /** Parse, stage by stage: the value of a string whose sign, coefficient
      and exponent parts have been read off. */
  lemma ParseSigned(s: string, sign: string, body: string, digits: string, scale: nat, tail: string, e: int)
    requires ReadsAs(s, sign, body, digits, scale, tail, e)
    ensures AllDigits(digits)
    ensures Parse(s).Some? && Parse(s).value == Value(Signed(sign, DigitsValue(digits)), e - scale)
  {
    AssembleSigned(sign, Coefficient(digits, scale, tail), e);
  }

  lemma AssembleSigned(sign: string, c: Coefficient, e: int)
    requires AllDigits(c.digits) && c.digits != []
    ensures Assemble(sign == "-", c, Some(e)) == Some(Value(Signed(sign, DigitsValue(c.digits)), e - c.scale))
  {
  }

  lemma RenderParts(m: int, e: int)
    ensures Render(m, e) == SignText(m) + (NatDigits(Abs(m)) + ("E" + SignText(e) + NatDigits(Abs(e))))
  {
  }

  /** Every numeric string obtained from Render reads back as the value it renders. */
  lemma ParseRender(m: int, e: int)
    ensures Parse(Render(m, e)) == Some(Value(m, e))
  {
    var ds := NatDigits(Abs(m));
    var ex := "E" + SignText(e) + NatDigits(Abs(e));
    assert Parse(Render(m, e)).Some? && Parse(Render(m, e)).value == Value(m, e) by {
      RenderParts(m, e);
      StripRenderedSign(m, ds + ex);
      SplitWhole(ds, ex);
      ParseRenderedExponent(e);
      NatDigitsValue(Abs(m));
      ParseSigned(Render(m, e), SignText(m), ds + ex, ds, 0, ex, e);
      assert Signed(SignText(m), DigitsValue(ds)) == m;
    }
  }

  /** The plain fixed-point form `whole.fraction` (either part may be empty,
      not both) denotes `whole fraction` scaled down by the fraction's length. */
  lemma ParsePlain(whole: string, fraction: string)
    requires AllDigits(whole) && AllDigits(fraction) && whole + fraction != []
    ensures AllDigits(whole + fraction)
    ensures Parse(whole + "." + fraction) == Some(Value(DigitsValue(whole + fraction), -|fraction|))
  {
    AllDigitsConcat(whole, fraction);
    var s := whole + "." + fraction;
    var v := Value(DigitsValue(whole + fraction), -|fraction|);
    assert Parse(s).Some? && Parse(s).value == v by {
      assert s == Numeral([], whole, ".", fraction, []);
      ParseNumeral([], whole, ".", fraction, [], [], []);
      assert Signed([], DigitsValue(whole + fraction)) == DigitsValue(whole + fraction);
      assert ExponentValue([], [], []) == 0;
    }
  }

  /** The integer form: a digit string denotes its own value. */
  lemma ParseInteger(ds: string)
    requires ds != [] && AllDigits(ds)
    ensures Parse(ds) == Some(DigitsValue(ds) as real)
  {
    assert StripSign(ds) == (false, ds);
    SplitWhole(ds, []);
    assert ds + [] == ds;
    assert ParseExponent([]) == Some(0);
    ParseSigned(ds, [], ds, ds, 0, [], 0);
    ValueExponentZero(DigitsValue(ds));
  }

  lemma ValueExponentZero(n: int)
    ensures Value(n, 0) == n as real
  {
    assert Power10(0) == 1.0;
  }

  /** A string with no ASCII digit is never a number. */
  lemma ParseNeedsDigit(s: string)
    requires forall i | 0 <= i < |s| :: !IsDigit(s[i])
    ensures Parse(s) == None
  {
    var (negative, body) := StripSign(s);
    assert forall i | 0 <= i < |body| :: !IsDigit(body[i]);
    assert DigitRun(body) == 0;
    if body != [] && body[0] == '.' {
      assert body[1..] == [] || !IsDigit(body[1..][0]);
      assert DigitRun(body[1..]) == 0;
    }
  }

  lemma TenthValue(n: nat, k: nat)
    ensures Value(10 * n, -(k as int + 1)) == Value(n, -(k as int))
  {
    assert Pow10(k + 1) == 10 * Pow10(k);
    var p := Pow10(k) as real;
    calc {
      Value(10 * n, -(k + 1));
      (10 * n) as real * (1.0 / (10.0 * p));
      n as real * (1.0 / p);
    }
  }

  lemma AppendZeroValue(ds: string)
    requires AllDigits(ds)
    ensures AllDigits(ds + "0") && DigitsValue(ds + "0") == 10 * DigitsValue(ds)
  {
    DigitsAppend(ds, "0");
    assert DigitsValue("0") == 0 by { assert "0"[..0] == []; }
  }

  lemma ParsePlainZero(whole: string, fraction: string)
    requires AllDigits(whole) && AllDigits(fraction) && whole + fraction != []
    ensures AllDigits(whole + fraction)
    ensures Parse(whole + "." + fraction + "0")
            == Some(Value(10 * DigitsValue(whole + fraction), -(|fraction| + 1)))
  {
    ParsePlain(whole, fraction + "0");
    assert whole + "." + (fraction + "0") == whole + "." + fraction + "0";
    assert whole + (fraction + "0") == (whole + fraction) + "0";
    AppendZeroValue(whole + fraction);
  }

  /** Comparison is by value, not by text: a trailing zero after the point
      changes nothing, so "100.0" and "100.00" are the same amount. */
  lemma ParseTrailingZero(whole: string, fraction: string)
    requires AllDigits(whole) && AllDigits(fraction) && whole + fraction != []
    ensures Parse(whole + "." + fraction + "0") == Parse(whole + "." + fraction)
  {
    ParsePlain(whole, fraction);
    ParsePlainZero(whole, fraction);
    TenthValue(DigitsValue(whole + fraction), |fraction|);
  }

  /** A plain integer and the same integer with a point and no fraction
      digits are the same amount. */
  lemma ParseIntegerPoint(ds: string)
    requires ds != [] && AllDigits(ds)
    ensures Parse(ds + ".") == Parse(ds)
  {
    ParsePlain(ds, []);
    ParseInteger(ds);
    assert ds + "." + [] == ds + ".";
    assert ds + [] == ds;
  }

  // ---------------------------------------------------------------------
  // The grammar of numeric strings, both ways: every string of the shape
  // `[sign] whole [. fraction] [(e|E) [sign] digits]` parses to its value,
  // and every string that parses has that shape.

  predicate IsSign(t: string)
  {
    t == [] || t == "+" || t == "-"
  }

  /** A magnitude with a parsed sign. */
  function Signed(sign: string, n: nat): int
  {
    if sign == "-" then -(n as int) else n
  }

  /** The decimal point is optional only when no fraction digits follow it. */
  predicate IsPoint(point: string, fraction: string)
  {
    point == "." || (point == [] && fraction == [])
  }

  /** `exponent` is absent, or a marker `e`/`E` followed by `expSign` and `expDigits`. */
  predicate IsExponent(exponent: string, expSign: string, expDigits: string)
  {
    || (exponent == [] && expSign == [] && expDigits == [])
    || (&& exponent != []
        && (exponent[0] == 'e' || exponent[0] == 'E')
        && exponent == [exponent[0]] + (expSign + expDigits)
        && IsSign(expSign) && expDigits != [] && AllDigits(expDigits))
  }

  function ExponentValue(exponent: string, expSign: string, expDigits: string): int
    requires IsExponent(exponent, expSign, expDigits)
  {
    if exponent == [] then 0 else Signed(expSign, DigitsValue(expDigits))
  }

  /** A numeric string assembled from its pieces. */
  function Numeral(sign: string, whole: string, point: string, fraction: string, exponent: string): string
  {
    sign + (whole + (point + (fraction + exponent)))
  }

  /** The pieces of a numeric string, in order. */
  predicate IsNumeral(sign: string, whole: string, point: string, fraction: string,
                      exponent: string, expSign: string, expDigits: string)
  {
    && IsSign(sign) && AllDigits(whole) && AllDigits(fraction) && whole + fraction != []
    && IsPoint(point, fraction) && IsExponent(exponent, expSign, expDigits)
  }

  lemma StripForm(sign: string, body: string)
    requires IsSign(sign) && body != [] && (IsDigit(body[0]) || body[0] == '.')
    ensures StripSign(sign + body) == (sign == "-", body)
  {
    if sign == [] {
      assert sign + body == body;
    } else {
      assert (sign + body)[1..] == body;
    }
  }

  lemma ExponentForm(exponent: string, expSign: string, expDigits: string)
    requires IsExponent(exponent, expSign, expDigits)
    ensures ParseExponent(exponent) == Some(ExponentValue(exponent, expSign, expDigits))
  {
    if exponent != [] {
      assert exponent[1..] == expSign + expDigits;
      StripForm(expSign, expDigits);
    }
  }

  /** The coefficient `whole [. fraction]`, followed by text that cannot extend it. */
  lemma SplitForm(whole: string, point: string, fraction: string, rest: string)
    requires AllDigits(whole) && AllDigits(fraction) && IsPoint(point, fraction)
    requires rest == [] || !IsDigit(rest[0])
    requires point == [] ==> rest == [] || rest[0] != '.'
    ensures SplitCoefficient(whole + (point + (fraction + rest))) == Coefficient(whole + fraction, |fraction|, rest)
  {
    if point == [] {
      assert whole + (point + (fraction + rest)) == whole + rest;
      assert whole + fraction == whole;
      SplitWhole(whole, rest);
    } else {
      var body := whole + (point + (fraction + rest));
      var afterPoint := fraction + rest;
      DigitRunStops(whole, "." + afterPoint);
      assert body[..|whole|] == whole && body[|whole|..] == "." + afterPoint;
      assert ("." + afterPoint)[1..] == afterPoint;
      DigitRunStops(fraction, rest);
      assert afterPoint[..|fraction|] == fraction && afterPoint[|fraction|..] == rest;
    }
  }

  lemma NumeralBodyStart(whole: string, point: string, fraction: string, exponent: string)
    requires AllDigits(whole) && whole + fraction != [] && IsPoint(point, fraction)
    ensures var body := whole + (point + (fraction + exponent));
            body != [] && (IsDigit(body[0]) || body[0] == '.')
  {
    if whole != [] {
      assert (whole + (point + (fraction + exponent)))[0] == whole[0];
    } else {
      assert whole + (point + (fraction + exponent)) == "." + (fraction + exponent);
    }
  }

  /** Every numeric string parses to the value it spells: its digits, read as
      an integer and signed, times 10 to the exponent less the number of
      fraction digits. This covers what `str` gives for a JSON number, such as
      `1e+16`, `1.5e-05` or `-12.5`. */
  lemma ParseNumeral(sign: string, whole: string, point: string, fraction: string,
                     exponent: string, expSign: string, expDigits: string)
    requires IsNumeral(sign, whole, point, fraction, exponent, expSign, expDigits)
    ensures AllDigits(whole + fraction)
    ensures var r := Parse(Numeral(sign, whole, point, fraction, exponent));
            r.Some? && r.value == Value(Signed(sign, DigitsValue(whole + fraction)),
                                        ExponentValue(exponent, expSign, expDigits) - |fraction|)
  {
    AllDigitsConcat(whole, fraction);
    NumeralStages(sign, whole, point, fraction, exponent, expSign, expDigits);
    ParseSigned(Numeral(sign, whole, point, fraction, exponent), sign, whole + (point + (fraction + exponent)),
                whole + fraction, |fraction|, exponent, ExponentValue(exponent, expSign, expDigits));
  }

  /** What each stage of Parse reads off a numeric string. */
  lemma NumeralStages(sign: string, whole: string, point: string, fraction: string,
                      exponent: string, expSign: string, expDigits: string)
    requires IsNumeral(sign, whole, point, fraction, exponent, expSign, expDigits)
    ensures ReadsAs(Numeral(sign, whole, point, fraction, exponent), sign, whole + (point + (fraction + exponent)),
                    whole + fraction, |fraction|, exponent, ExponentValue(exponent, expSign, expDigits))
  {
    var body := whole + (point + (fraction + exponent));
    NumeralBodyStart(whole, point, fraction, exponent);
    StripForm(sign, body);
    SplitForm(whole, point, fraction, exponent);
    ExponentForm(exponent, expSign, expDigits);
  }

  /** A string splits into its optional sign and the rest. */
  lemma SignPiece(s: string) returns (sign: string)
    ensures IsSign(sign) && s == sign + StripSign(s).1
    ensures StripSign(s).0 <==> sign == "-"
  {
    if s != [] && (s[0] == '+' || s[0] == '-') {
      sign := [s[0]];
      assert s == [s[0]] + s[1..];
    } else {
      sign := [];
      assert s == [] + s;
    }
  }

  /** The pieces the coefficient split reads off a body. */
  lemma CoefficientPieces(body: string) returns (whole: string, point: string, fraction: string, rest: string)
    ensures AllDigits(whole) && AllDigits(fraction) && IsPoint(point, fraction)
    ensures body == whole + (point + (fraction + rest))
    ensures SplitCoefficient(body) == Coefficient(whole + fraction, |fraction|, rest)
  {
    var w := DigitRun(body);
    whole := body[..w];
    var afterWhole := body[w..];
    if afterWhole != [] && afterWhole[0] == '.' {
      point := ".";
      var afterPoint := afterWhole[1..];
      var f := DigitRun(afterPoint);
      fraction := afterPoint[..f];
      rest := afterPoint[f..];
      PointPieces(body, w, f);
    } else {
      point := [];
      fraction := [];
      rest := afterWhole;
      assert body == whole + afterWhole;
      assert whole + fraction == whole;
    }
  }

  lemma PointPieces(body: string, w: nat, f: nat)
    requires w < |body| && body[w] == '.' && f <= |body| - w - 1
    ensures var afterPoint := body[w..][1..];
            body == body[..w] + ("." + (afterPoint[..f] + afterPoint[f..]))
  {
    var afterPoint := body[w..][1..];
    assert afterPoint == body[w + 1..];
    assert body == body[..w] + ([body[w]] + body[w + 1..]);
    assert body[w + 1..] == afterPoint[..f] + afterPoint[f..];
  }

  /** The pieces of an exponent part that parses. */
  lemma ExponentPieces(exponent: string) returns (expSign: string, expDigits: string)
    requires ParseExponent(exponent).Some?
    ensures IsExponent(exponent, expSign, expDigits)
  {
    if exponent == [] {
      expSign, expDigits := [], [];
    } else {
      var r := exponent[1..];
      assert exponent[0] == 'e' || exponent[0] == 'E';
      expSign := SignPiece(r);
      expDigits := StripSign(r).1;
      assert expDigits != [] && AllDigits(expDigits);
      assert exponent == [exponent[0]] + r;
      assert r == expSign + expDigits;
      assert IsSign(expSign) && exponent == [exponent[0]] + (expSign + expDigits);
    }
  }

  /** Conversely, every string that parses is a numeric string: trailing
      text, a second point or an exponent marker without digits all fail. */
  lemma NumeralOfParse(s: string)
    returns (sign: string, whole: string, point: string, fraction: string,
             exponent: string, expSign: string, expDigits: string)
    requires Parse(s).Some?
    ensures IsNumeral(sign, whole, point, fraction, exponent, expSign, expDigits)
    ensures s == Numeral(sign, whole, point, fraction, exponent)
  {
    sign := SignPiece(s);
    var body := StripSign(s).1;
    whole, point, fraction, exponent := CoefficientPieces(body);
    expSign, expDigits := ExponentPieces(exponent);
  }

  lemma ParseStagesFail(s: string, body: string, c: Coefficient)
    requires StripSign(s).1 == body && SplitCoefficient(body) == c
    requires ParseExponent(c.tail).None?
    ensures Parse(s).None?
  {
  }

  /** A coefficient followed by text that neither extends it nor starts an
      exponent does not parse: `12abc`, `1.2.3`, `5x`. Python's `Decimal`
      would accept trailing whitespace, `_` or non-ASCII digits here. */
  lemma TrailingTextRejected(sign: string, whole: string, point: string, fraction: string, rest: string)
    requires IsSign(sign) && AllDigits(whole) && AllDigits(fraction) && whole + fraction != []
    requires IsPoint(point, fraction)
    requires rest != [] && !IsDigit(rest[0]) && rest[0] != 'e' && rest[0] != 'E'
    requires point == [] ==> rest[0] != '.'
    ensures Parse(Numeral(sign, whole, point, fraction, rest)).None?
  {
    var body := whole + (point + (fraction + rest));
    NumeralBodyStart(whole, point, fraction, rest);
    StripForm(sign, body);
    SplitForm(whole, point, fraction, rest);
    ParseStagesFail(sign + body, body, Coefficient(whole + fraction, |fraction|, rest));
  }

  /** An exponent marker, with or without a sign, that no digit follows does
      not parse: `1e`, `2.5E+`, `7e-`. */
  lemma ExponentWithoutDigitsRejected(sign: string, whole: string, point: string, fraction: string,
                                      marker: char, expSign: string)
    requires IsSign(sign) && AllDigits(whole) && AllDigits(fraction) && whole + fraction != []
    requires IsPoint(point, fraction)
    requires (marker == 'e' || marker == 'E') && IsSign(expSign)
    ensures Parse(Numeral(sign, whole, point, fraction, [marker] + expSign)).None?
  {
    var exponent := [marker] + expSign;
    var body := whole + (point + (fraction + exponent));
    NumeralBodyStart(whole, point, fraction, exponent);
    StripForm(sign, body);
    SplitForm(whole, point, fraction, exponent);
    MarkerOnlyRejected(marker, expSign);
    ParseStagesFail(sign + body, body, Coefficient(whole + fraction, |fraction|, exponent));
  }

  lemma MarkerOnlyRejected(marker: char, expSign: string)
    requires IsSign(expSign)
    ensures ParseExponent([marker] + expSign).None?
  {
    var x := [marker] + expSign;
    assert x[1..] == expSign;
    if expSign != [] {
      assert expSign[1..] == [];
    }
  }
}

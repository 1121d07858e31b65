/** Exact fixed-point conversion between raw token amounts (integers in the smallest unit) and
    the decimal text the user reads and types, scaled by 10^decimals (tokenchain.go,
    amountToString and amountFromString). The source goes through math/big rationals, never
    through floating point; the model states the rational meaning with Dafny reals. */
module Amount {
  import opened Common
  import opened Decimal

  /** A plain decimal number as written: its sign, the digits before the point and the
      digits after it. */
  datatype DecimalText = DecimalText(negative: bool, whole: string, fraction: string)

  predicate WellFormed(t: DecimalText) {
    AllDigits(t.whole) && AllDigits(t.fraction) && |t.whole| + |t.fraction| > 0
  }

  /** Position of the first '.' in s, or |s| when there is none. */
  function PointAt(s: string): (i: nat)
    ensures i <= |s|
    ensures forall j :: 0 <= j < i ==> s[j] != '.'
    ensures i < |s| ==> s[i] == '.'
  {
    if s == [] then 0 else if s[0] == '.' then 0 else 1 + PointAt(s[1..])
  }

  function SignText(negative: bool): string { if negative then "-" else "" }

  /** The sign character that starts s, if any. */
  function SignPrefix(s: string): (p: string)
    ensures |p| <= 1 && p <= s
  {
    if |s| > 0 && (s[0] == '-' || s[0] == '+') then s[..1] else ""
  }

  /** The plain decimal syntax accepted by big.Rat.SetString: an optional sign, digits, and an
      optional point followed by digits, with at least one digit in all. Every character of an
      accepted text is accounted for by the sign, the two digit runs and the point. */
  function ParseDecimal(s: string): (r: Option<DecimalText>)
    ensures r.Some? ==> WellFormed(r.value)
    ensures r.Some? ==> r.value.negative == (SignPrefix(s) == "-")
    ensures r.Some? ==>
      || s == SignPrefix(s) + r.value.whole
      || s == SignPrefix(s) + r.value.whole + "." + r.value.fraction
  {
    var sign := SignPrefix(s);
    var body := s[|sign|..];
    var p := PointAt(body);
    var whole := body[..p];
    var fraction := if p < |body| then body[p + 1..] else "";
    if AllDigits(whole) && AllDigits(fraction) && |whole| + |fraction| > 0 then
      SplitAtPoint(s);
      Some(DecimalText(sign == "-", whole, fraction))
    else
      None
  }

  /** The three parts ParseDecimal cuts a text into put it back together. */
  lemma SplitAtPoint(s: string)
    ensures var sign := SignPrefix(s);
      var body := s[|sign|..];
      var p := PointAt(body);
      if p < |body| then s == sign + body[..p] + "." + body[p + 1..] else s == sign + body[..p]
  {
    var sign := SignPrefix(s);
    var body := s[|sign|..];
    SignSplit(s);
    Assemble(s, sign, body, PointAt(body));
  }

  lemma Assemble(s: string, sign: string, body: string, p: nat)
    requires s == sign + body && p <= |body| && (p < |body| ==> body[p] == '.')
    ensures if p < |body| then s == sign + body[..p] + "." + body[p + 1..] else s == sign + body[..p]
  {
    if p < |body| {
      Rejoin(body, p);
      AppendAssoc(sign, body[..p] + ".", body[p + 1..]);
    } else {
      assert body[..p] == body;
    }
  }

  lemma SignSplit(s: string)
    ensures s == SignPrefix(s) + s[|SignPrefix(s)|..]
  {
    if |s| > 0 && (s[0] == '-' || s[0] == '+') {
      assert s == s[..1] + s[1..];
    }
  }

  /** A text with a point at position p is what comes before it, the point, and the rest. */
  lemma Rejoin(b: string, p: nat)
    requires p < |b| && b[p] == '.'
    ensures b == b[..p] + "." + b[p + 1..]
  {
    assert b == b[..p] + [b[p]] + b[p + 1..];
  }

  lemma AppendAssoc(a: string, b: string, c: string)
    ensures a + (b + c) == a + b + c
  {}

  /** The digits of the number without the point: the number times 10^|fraction|. */
  function Magnitude(t: DecimalText): nat
    requires WellFormed(t)
  {
    assert AllDigits(t.whole + t.fraction);
    Value(t.whole + t.fraction)
  }

  /** The signed fraction m / den, times p: the number a text denotes, scaled by p. */
  ghost function Scaled(negative: bool, m: nat, den: nat, p: nat): real
    requires den >= 1
  {
    var v := m as real / den as real;
    (if negative then -v else v) * p as real
  }

  /** The rational number that the text denotes, times 10^decimals. */
  ghost function ScaledValue(t: DecimalText, decimals: nat): real
    requires WellFormed(t)
  {
    Scaled(t.negative, Magnitude(t), Pow10(|t.fraction|), Pow10(decimals))
  }

  ghost predicate IsIntegral(x: real) { x.Floor as real == x }

  function Signed(negative: bool, m: int): int { if negative then -m else m }

  function Abs(x: int): nat { if x < 0 then -x else x }

  /** amountFromString: the amount that the text denotes at the given number of decimals,
      failing when the text is not a number or when the scaled value is not a whole amount.
      The source multiplies the rational by 10^decimals and tests that the product is an
      integer; on a parsed text that test is whether 10^|fraction| divides the scaled digits. */
  function AmountFromString(s: string, decimals: nat): (r: Result<int>)
    ensures ParseDecimal(s).None? ==> r == Err(UnableToParseAmount)
    ensures r.Err? ==> r.error == UnableToParseAmount
  {
    match ParseDecimal(s)
    case None => Err(UnableToParseAmount)
    case Some(t) =>
      var scaled, den := ScaledDigits(t, decimals), Pow10(|t.fraction|);
      DivMod(scaled, den);
      if scaled % den != 0 then Err(UnableToParseAmount) else Ok(Signed(t.negative, scaled / den))
  }

  /** The digits of the text shifted left by `decimals` places. */
  function ScaledDigits(t: DecimalText, decimals: nat): nat
    requires WellFormed(t)
  {
    Magnitude(t) * Pow10(decimals)
  }

  /** What amountFromString accepts and returns, in terms of the rational number the text
      denotes: it succeeds exactly when that number times 10^decimals is whole, and returns
      that whole number. */
  lemma AmountFromStringMeaning(s: string, decimals: nat)
    ensures ParseDecimal(s).Some? ==>
      (AmountFromString(s, decimals).Ok? <==> IsIntegral(ScaledValue(ParseDecimal(s).value, decimals)))
    ensures AmountFromString(s, decimals).Ok? ==>
      AmountFromString(s, decimals).value as real == ScaledValue(ParseDecimal(s).value, decimals)
  {
    if ParseDecimal(s).Some? {
      var t := ParseDecimal(s).value;
      var m, den, p := Magnitude(t), Pow10(|t.fraction|), Pow10(decimals);
      var scaled := ScaledDigits(t, decimals);
      assert scaled == m * p;
      DivMod(scaled, den);
      IntegralDivides(t.negative, m, den, p);
      if scaled % den == 0 {
        QuotientMeaning(t.negative, m, den, p, scaled / den);
      }
    }
  }

  /** amountToString: the amount divided by 10^decimals, printed with exactly `decimals`
      digits after the point, and without a point when decimals is zero. (big.Rat.FloatString
      rounds its last digit, but the denominator here divides 10^decimals, so no rounding
      ever happens; the model prints the exact quotient and remainder.) */
  function AmountToString(amount: int, decimals: nat): (s: string)
  {
    var m := Abs(amount);
    var p := Pow10(decimals);
    DivMod(m, p);
    SignText(amount < 0) + ToDecimal(m / p) + FractionText(m % p, decimals)
  }

  /** The digits after the point: the remainder, zero-padded to `decimals` digits. */
  function FractionDigits(rem: nat, decimals: nat): (d: string)
    ensures AllDigits(d)
  {
    if decimals == 0 then "" else ZeroPad(ToDecimal(rem), decimals)
  }

  function FractionText(rem: nat, decimals: nat): (f: string)
    ensures decimals == 0 ==> f == ""
    ensures decimals > 0 ==> |f| > 0 && f[0] == '.' && f[1..] == FractionDigits(rem, decimals)
  {
    if decimals == 0 then "" else "." + FractionDigits(rem, decimals)
  }

  /** (a * b) as real is the product of the two conversions. */
  lemma RealProduct(a: int, b: int)
    ensures (a * b) as real == a as real * b as real
  {}

  lemma MultipleMod(k: int, den: nat)
    requires den >= 1
    ensures (k * den) % den == 0
  {
    var q, r := (k * den) / den, (k * den) % den;
    assert k * den == q * den + r && 0 <= r < den;
    var a := k - q;
    assert a * den == r by {
      assert a * den == k * den - q * den;
    }
    if a >= 1 {
      MultipliedAtLeast(a, den);
    } else if a <= -1 {
      MultipliedAtLeast(-a, den);
    }
  }

  lemma MultipliedAtLeast(a: int, b: nat)
    requires a >= 1
    ensures a * b >= b
  {
    assert a * b == (a - 1) * b + b;
    assert (a - 1) * b >= 0;
  }

  /** When den divides m * p exactly, the scaled fraction is the signed quotient. */
  lemma QuotientMeaning(negative: bool, m: nat, den: nat, p: nat, q: nat)
    requires den >= 1 && m * p == q * den
    ensures Signed(negative, q) as real == Scaled(negative, m, den, p)
  {
    var M, P, D, Q := m as real, p as real, den as real, q as real;
    RealProduct(m, p);
    RealProduct(q, den);
    assert M * P == Q * D;
    assert (M / D) * P == Q;
  }

  /** Conversely, a whole scaled fraction means that den divides m * p: the integer test of
      the source is the rational one. */
  lemma IntegralDivides(negative: bool, m: nat, den: nat, p: nat)
    requires den >= 1
    ensures IsIntegral(Scaled(negative, m, den, p)) ==> (m * p) % den == 0
  {
    if !IsIntegral(Scaled(negative, m, den, p)) { return; }
    var n := Scaled(negative, m, den, p).Floor;
    var k := if negative then -n else n;
    var M, P, D := m as real, p as real, den as real;
    assert (M / D) * P == k as real;
    RealProduct(k, den);
    RealProduct(m, p);
    assert M * P == (k as real) * D;
    assert m * p == k * den;
    MultipleMod(k, den);
  }

  /** The layout of what amountToString prints: a '-' exactly for negative amounts; no point
      when decimals is zero, and otherwise a point followed by exactly `decimals` digits. */
  lemma AmountToStringFormat(amount: int, decimals: nat)
    ensures var s := AmountToString(amount, decimals);
      && |s| > 0 && (s[0] == '-' <==> amount < 0)
      && (decimals == 0 ==> '.' !in s)
      && (decimals > 0 ==>
            |s| > decimals && s[|s| - decimals - 1] == '.' && AllDigits(s[|s| - decimals..]))
  {
    var m, p := Abs(amount), Pow10(decimals);
    DivMod(m, p);
    var q, rem := m / p, m % p;
    var sign, w, f := SignText(amount < 0), ToDecimal(q), FractionText(rem, decimals);
    var s := sign + w + f;
    assert s == AmountToString(amount, decimals);
    assert IsDigit(w[0]);
    assert s[0] == if amount < 0 then '-' else w[0];
    if decimals == 0 {
      assert s == sign + w;
      assert forall i :: 0 <= i < |s| ==> s[i] == '-' || IsDigit(s[i]);
    } else {
      ToDecimalLength(rem, decimals);
      assert |f| == decimals + 1;
      assert s[|s| - decimals - 1..] == f;
      assert s[|s| - decimals..] == f[1..];
    }
  }

  /** What amountToString prints, read as a number: the sign of the amount, and digits which,
      read together across the point, are exactly the magnitude of the amount, with `decimals`
      of them after the point. */
  lemma AmountToStringParses(amount: int, decimals: nat)
    ensures ParseDecimal(AmountToString(amount, decimals)).Some?
    ensures var t := ParseDecimal(AmountToString(amount, decimals)).value;
      t.negative == (amount < 0) && |t.fraction| == decimals && Magnitude(t) == Abs(amount)
  {
    var m, p := Abs(amount), Pow10(decimals);
    DivMod(m, p);
    var q, rem := m / p, m % p;
    PrintedText(amount, decimals);
    var t := DecimalText(amount < 0, ToDecimal(q), FractionDigits(rem, decimals));
    ValueOfToDecimal(q);
    ValueConcat(t.whole, t.fraction);
    if decimals > 0 {
      ToDecimalLength(rem, decimals);
      ValueOfToDecimal(rem);
      ValueOfZeroPad(ToDecimal(rem), decimals);
    }
  }

  /** Parsing what amountToString printed recovers its three parts. */
  lemma PrintedText(amount: int, decimals: nat)
    ensures var m, p := Abs(amount), Pow10(decimals);
      ParseDecimal(AmountToString(amount, decimals))
        == Some(DecimalText(amount < 0, ToDecimal(m / p), FractionDigits(m % p, decimals)))
  {
    var m, p := Abs(amount), Pow10(decimals);
    DivMod(m, p);
    var q, rem := m / p, m % p;
    if decimals > 0 {
      ToDecimalLength(rem, decimals);
    }
    ParseLayout(amount < 0, ToDecimal(q), FractionDigits(rem, decimals), decimals > 0);
  }

  /** A sign, a non-empty digit run and an optional point with digits parse into exactly
      those parts. */
  lemma ParseLayout(negative: bool, whole: string, fraction: string, point: bool)
    requires AllDigits(whole) && AllDigits(fraction) && |whole| > 0
    requires !point ==> fraction == ""
    ensures ParseDecimal(SignText(negative) + whole + (if point then "." + fraction else ""))
      == Some(DecimalText(negative, whole, fraction))
  {
    var sign := SignText(negative);
    var body := whole + (if point then "." + fraction else "");
    AppendAssoc(sign, whole, if point then "." + fraction else "");
    assert body[0] == whole[0];
    SignOf(negative, body);
    BodyParts(whole, fraction, point);
    ParseFromParts(sign + body, negative, whole, fraction);
  }

  /** ParseDecimal on a text whose sign, whole part and fraction are known. */
  lemma ParseFromParts(s: string, negative: bool, whole: string, fraction: string)
    requires AllDigits(whole) && AllDigits(fraction) && |whole| > 0
    requires SignPrefix(s) == SignText(negative)
    requires var body := s[|SignText(negative)|..];
      && PointAt(body) == |whole| && body[..|whole|] == whole
      && (if |whole| < |body| then body[|whole| + 1..] else "") == fraction
    ensures ParseDecimal(s) == Some(DecimalText(negative, whole, fraction))
  {}

  /** A text that starts with a digit, preceded by the printed sign, has that sign. */
  lemma SignOf(negative: bool, body: string)
    requires |body| > 0 && IsDigit(body[0])
    ensures var s := SignText(negative) + body;
      SignPrefix(s) == SignText(negative) && s[|SignText(negative)|..] == body
  {
    var s := SignText(negative) + body;
    assert s[|SignText(negative)|..] == body;
  }

  /** Digits, then optionally a point and digits: the first point is right after the whole
      part, and the parts before and after it are the two digit runs. */
  lemma BodyParts(whole: string, fraction: string, point: bool)
    requires AllDigits(whole) && AllDigits(fraction)
    requires !point ==> fraction == ""
    ensures var body := whole + (if point then "." + fraction else "");
      var p := PointAt(body);
      && p == |whole| && body[..p] == whole
      && (if p < |body| then body[p + 1..] else "") == fraction
  {
    var body := whole + (if point then "." + fraction else "");
    if point {
      AppendAssoc(whole, ".", fraction);
      PointAfterDigits(whole, fraction);
      assert body[..|whole|] == whole;
      assert body[|whole| + 1..] == fraction;
    } else {
      assert body == whole;
      NoPointInDigits(whole);
    }
  }

  lemma NoPointInDigits(w: string)
    requires AllDigits(w)
    ensures PointAt(w) == |w|
  {}

  /** The first point of digits + "." + rest is right after the digits. */
  lemma {:induction false} PointAfterDigits(w: string, rest: string)
    requires AllDigits(w)
    ensures PointAt(w + "." + rest) == |w|
  {
    if w != [] {
      assert (w + "." + rest)[1..] == w[1..] + "." + rest;
      PointAfterDigits(w[1..], rest);
    }
  }

  /** Reading back what amountToString printed, at the same number of decimals, gives the
      amount back, for every amount, negative ones included. */
  lemma RoundTrip(amount: int, decimals: nat)
    ensures AmountFromString(AmountToString(amount, decimals), decimals) == Ok(amount)
  {
    var s := AmountToString(amount, decimals);
    AmountToStringParses(amount, decimals);
    var t := ParseDecimal(s).value;
    var m, p := Abs(amount), Pow10(decimals);
    assert Magnitude(t) == m && Pow10(|t.fraction|) == p;
    ExactScaling(m, p);
    FromParsed(s, decimals, t);
  }

  lemma ExactScaling(m: nat, p: nat)
    requires p >= 1
    ensures (m * p) % p == 0 && (m * p) / p == m
  {
    MultipleMod(m, p);
    DivMod(m * p, p);
  }

  /** amountFromString on a text that parses: the integer test and quotient. */
  lemma FromParsed(s: string, decimals: nat, t: DecimalText)
    requires ParseDecimal(s) == Some(t)
    ensures var scaled, den := ScaledDigits(t, decimals), Pow10(|t.fraction|);
      AmountFromString(s, decimals)
        == if scaled % den == 0 then Ok(Signed(t.negative, scaled / den)) else Err(UnableToParseAmount)
  {}

  /** Extra zeros at the end of the fraction change nothing: the test is whether the scaled
      value is whole, not how many digits were typed, so "1.550" at 2 decimals reads as 155
      raw units, just as "1.55" does. */
  lemma TrailingZeroIgnored(negative: bool, whole: string, fraction: string, decimals: nat)
    requires AllDigits(whole) && AllDigits(fraction) && |whole| > 0
    ensures AmountFromString(SignText(negative) + whole + "." + fraction + "0", decimals)
         == AmountFromString(SignText(negative) + whole + "." + fraction, decimals)
  {
    var s := SignText(negative) + whole + "." + fraction;
    var t, t0 := DecimalText(negative, whole, fraction), DecimalText(negative, whole, fraction + "0");
    assert AllDigits(fraction + "0");
    AppendAssoc(SignText(negative) + whole + ".", fraction, "0");
    ParseWithPoint(negative, whole, fraction);
    ParseWithPoint(negative, whole, fraction + "0");
    MagnitudeTimesTen(t);
    assert Pow10(|t0.fraction|) == Pow10(|fraction|) * 10;
    SameScaledValue(negative, Magnitude(t), Pow10(|fraction|), Pow10(decimals));
    assert ScaledValue(t0, decimals) == ScaledValue(t, decimals);
    SameMeaning(s, s + "0", decimals);
  }

  lemma ParseWithPoint(negative: bool, whole: string, fraction: string)
    requires AllDigits(whole) && AllDigits(fraction) && |whole| > 0
    ensures ParseDecimal(SignText(negative) + whole + "." + fraction) == Some(DecimalText(negative, whole, fraction))
  {
    ParseLayout(negative, whole, fraction, true);
    AppendAssoc(SignText(negative) + whole, ".", fraction);
  }

  lemma MagnitudeTimesTen(t: DecimalText)
    requires WellFormed(t)
    ensures WellFormed(t.(fraction := t.fraction + "0"))
    ensures Magnitude(t.(fraction := t.fraction + "0")) == Magnitude(t) * 10
  {
    var w := t.whole + t.fraction;
    assert AllDigits(w);
    assert t.whole + (t.fraction + "0") == w + "0";
    assert (w + "0")[..|w|] == w;
  }

  /** Two texts denoting the same scaled number read as the same amount. */
  lemma SameMeaning(s: string, s': string, decimals: nat)
    requires ParseDecimal(s).Some? && ParseDecimal(s').Some?
    requires ScaledValue(ParseDecimal(s).value, decimals) == ScaledValue(ParseDecimal(s').value, decimals)
    ensures AmountFromString(s, decimals) == AmountFromString(s', decimals)
  {
    AmountFromStringMeaning(s, decimals);
    AmountFromStringMeaning(s', decimals);
  }

  /** Multiplying numerator and denominator by ten leaves the scaled fraction unchanged. */
  lemma SameScaledValue(negative: bool, m: nat, den: nat, p: nat)
    requires den >= 1
    ensures Scaled(negative, m * 10, den * 10, p) == Scaled(negative, m, den, p)
  {
    RealProduct(m, 10);
    RealProduct(den, 10);
    var M, D := m as real, den as real;
    assert (M * 10.0) / (D * 10.0) == M / D;
  }

  /** The number of bits of n: big.Int.BitLen of a non-negative value. */
  function BitLen(n: nat): nat
  {
    if n == 0 then 0 else 1 + BitLen(n / 2)
  }

  function Pow2(k: nat): (r: nat)
    ensures r >= 1
  {
    if k == 0 then 1 else 2 * Pow2(k - 1)
  }

  /** A number fits in k bits exactly when it is below 2^k. */
  lemma {:induction false} BitLenBound(n: nat, k: nat)
    ensures BitLen(n) <= k <==> n < Pow2(k)
  {
    if k > 0 && n > 0 {
      BitLenBound(n / 2, k - 1);
    }
  }
}

/** Reading back the text `String(x)` gives for a number: the output of
    `Json.NumberToString` is a decimal numeral `digits[.digits][e(+|-)digits]`
    and denotes exactly the number it was made from. */
module NumberText {
  import opened Wrappers
  import opened Json

  /** The first position of `c` in `r`, or `|r|` when there is none. */
  function FirstOf(r: string, c: char): (i: nat)
    ensures i <= |r|
    ensures i < |r| ==> r[i] == c
    ensures forall t :: 0 <= t < i ==> r[t] != c
  {
    if |r| == 0 then 0 else if r[0] == c then 0 else 1 + FirstOf(r[1..], c)
  }

  /** `v * 10^p` and `w * 10^q` are the same number. */
  predicate SameValue(v: int, p: int, w: int, q: int) {
    if p <= q then v == w * Pow10(q - p) else v * Pow10(p - q) == w
  }

  /** A non-empty run of decimal digits. */
  function ReadDigits(x: string): Option<nat> {
    if 0 < |x| && AllDigits(x) then Some(DecimalValue(x)) else None
  }

  /** An exponent: a sign followed by digits. */
  function ReadExponent(x: string): Option<int> {
    if 0 < |x| && (x[0] == '+' || x[0] == '-') then
      match ReadDigits(x[1..])
      case None => None
      case Some(m) => Some(if x[0] == '+' then m as int else -(m as int))
    else None
  }

  /** Reads `whole[.frac]` as the digits `whole frac` and the number of
      fraction digits. */
  function ReadMantissa(body: string): Option<(nat, nat)> {
    var j := FirstOf(body, '.');
    var whole := body[..j];
    var frac := if j == |body| then "" else body[j + 1..];
    if 0 < |whole| && AllDigits(whole + frac) && (j == |body| || 0 < |frac|)
    then Some((DecimalValue(whole + frac), |frac|))
    else None
  }

  /** Reads `whole[.frac][e(+|-)digits]` as the decimal
      `DecimalValue(whole frac) * 10^(exp - |frac|)`. */
  function ReadUnsigned(r: string): Option<(nat, int)> {
    var i := FirstOf(r, 'e');
    var exp := if i == |r| then Some(0) else ReadExponent(r[i + 1..]);
    match (ReadMantissa(r[..i]), exp)
    case (Some(m), Some(x)) => Some((m.0, x - m.1))
    case _ => None
  }

  /** Reads a numeral with an optional leading minus sign. */
  function ReadNumber(r: string): Option<(int, int)> {
    if 0 < |r| && r[0] == '-' then
      match ReadUnsigned(r[1..])
      case None => None
      case Some(vp) => Some((-(vp.0 as int), vp.1))
    else
      match ReadUnsigned(r)
      case None => None
      case Some(vp) => Some((vp.0, vp.1))
  }

  /** `body` reads as the mantissa digits `v` with `f` fraction digits. */
  predicate MantissaReads(body: string, v: nat, f: nat) {
    ReadMantissa(body).Some? && ReadMantissa(body).value.0 == v && ReadMantissa(body).value.1 == f
  }

  /** `r` reads as the decimal `v * 10^p`. */
  predicate ReadsAs(r: string, v: nat, p: int) {
    ReadUnsigned(r).Some? && ReadUnsigned(r).value.0 == v && ReadUnsigned(r).value.1 == p
  }

  lemma {:induction false} FirstOfAfter(a: string, b: string, c: char)
    requires forall t :: 0 <= t < |a| ==> a[t] != c
    ensures FirstOf(a + b, c) == |a| + FirstOf(b, c)
  {
    if 0 < |a| {
      assert (a + b)[0] == a[0] != c;
      assert (a + b)[1..] == a[1..] + b;
      assert forall t :: 0 <= t < |a[1..]| ==> a[1..][t] == a[t + 1];
      FirstOfAfter(a[1..], b, c);
    } else {
      assert a + b == b;
    }
  }

  /** `c` does not occur in `r`. */
  predicate Lacks(r: string, c: char) {
    forall t :: 0 <= t < |r| ==> r[t] != c
  }

  lemma NotFound(r: string, c: char)
    requires Lacks(r, c)
    ensures FirstOf(r, c) == |r|
  {
    FirstOfAfter(r, "", c);
    assert r + "" == r;
  }

  lemma {:induction false} LeadingZeros(z: nat, d: string)
    requires AllDigits(d)
    ensures AllDigits(Zeros(z) + d)
    ensures DecimalValue(Zeros(z) + d) == DecimalValue(d)
  {
    if |d| == 0 {
      assert Zeros(z) + d == Zeros(z);
      ZerosDenoteZero(z);
    } else {
      var d' := d[..|d| - 1];
      LeadingZeros(z, d');
      assert (Zeros(z) + d)[..|Zeros(z) + d| - 1] == Zeros(z) + d';
    }
  }

  lemma {:induction false} ZerosDenoteZero(z: nat)
    ensures AllDigits(Zeros(z))
    ensures DecimalValue(Zeros(z)) == 0
  {
    if z > 0 {
      ZerosDenoteZero(z - 1);
      assert Zeros(z)[..z - 1] == Zeros(z - 1);
    }
  }

  lemma DigitsLack(x: string, c: char)
    requires AllDigits(x) && !('0' <= c <= '9')
    ensures Lacks(x, c)
  {
  }

  /** Digits without a point are a whole number with no fraction digits. */
  lemma MantissaInteger(x: string)
    requires 0 < |x| && AllDigits(x)
    ensures MantissaReads(x, DecimalValue(x), 0)
  {
    DigitsLack(x, '.');
    NotFound(x, '.');
    assert x[..|x|] == x && x + "" == x;
  }

  /** `whole.frac` is the digits `whole frac` with `|frac|` fraction digits. */
  lemma MantissaPoint(whole: string, frac: string)
    requires AllDigits(whole) && AllDigits(frac) && 0 < |whole| && 0 < |frac|
    ensures AllDigits(whole + frac)
    ensures MantissaReads(whole + "." + frac, DecimalValue(whole + frac), |frac|)
  {
    var r := whole + "." + frac;
    DigitsLack(whole, '.');
    FirstOfAfter(whole, "." + frac, '.');
    assert r == whole + ("." + frac);
    assert r[..|whole|] == whole && r[|whole| + 1..] == frac;
  }

  /** Without an `e` the whole text is the mantissa, with exponent zero. */
  lemma WithoutExponent(body: string, v: nat, f: nat)
    requires Lacks(body, 'e')
    requires MantissaReads(body, v, f)
    ensures ReadsAs(body, v, -(f as int))
  {
    NotFound(body, 'e');
    assert body[..|body|] == body;
  }

  /** A text split at its first `e` reads as its mantissa scaled by its exponent. */
  lemma ExponentRead(body: string, tail: string, v: nat, f: nat)
    requires Lacks(body, 'e')
    requires MantissaReads(body, v, f)
    requires ReadExponent(tail).Some?
    ensures ReadsAs(body + "e" + tail, v, ReadExponent(tail).value - f)
  {
    ExponentSplits(body, tail);
  }

  /** An `e` after a text without one splits it there. */
  lemma ExponentSplits(body: string, tail: string)
    requires Lacks(body, 'e')
    ensures FirstOf(body + "e" + tail, 'e') == |body|
    ensures (body + "e" + tail)[..|body|] == body
    ensures (body + "e" + tail)[|body| + 1..] == tail
  {
    assert body + "e" + tail == body + ("e" + tail);
    FirstOfAfter(body, "e" + tail, 'e');
  }

  /** A sign followed by the digits of `x` reads as `x` or `-x`. */
  lemma SignedDigitsRead(sign: string, x: nat)
    requires sign == "+" || sign == "-"
    ensures ReadExponent(sign + Digits(x)) == Some(if sign == "+" then x as int else -(x as int))
  {
    assert (sign + Digits(x))[1..] == Digits(x);
    DigitsDenote(x);
  }

  /** Plain integer notation: digits followed by zeros. */
  lemma PlainIntegerReads(s: nat, z: nat)
    requires s > 0
    ensures Lacks(Digits(s) + Zeros(z), '.') && Lacks(Digits(s) + Zeros(z), 'e')
    ensures ReadsAs(Digits(s) + Zeros(z), Shift(s, z), 0)
  {
    var r := Digits(s) + Zeros(z);
    DigitsShift(s, z);
    DigitsDenote(Shift(s, z));
    MantissaInteger(r);
    DigitsLack(r, '.');
    DigitsLack(r, 'e');
    WithoutExponent(r, Shift(s, z), 0);
  }

  lemma LacksJoin(a: string, b: string, c: char)
    requires Lacks(a, c) && Lacks(b, c)
    ensures Lacks(a + b, c)
  {
    assert forall t :: |a| <= t < |a + b| ==> (a + b)[t] == b[t - |a|];
  }

  /** A numeral `whole.frac` has no exponent marker. */
  lemma PointLacksExponent(whole: string, frac: string)
    requires AllDigits(whole) && AllDigits(frac)
    ensures Lacks(whole + "." + frac, 'e')
  {
    DigitsLack(whole, 'e');
    DigitsLack(frac, 'e');
    LacksJoin(whole, ".", 'e');
    LacksJoin(whole + ".", frac, 'e');
  }

  lemma PointMantissa(d: string, n: nat)
    requires AllDigits(d) && 0 < n < |d|
    ensures MantissaReads(d[..n] + "." + d[n..], DecimalValue(d), |d| - n)
  {
    MantissaPoint(d[..n], d[n..]);
    assert d[..n] + d[n..] == d;
  }

  /** Fraction notation with a non-zero integer part. */
  lemma PointReads(d: string, n: nat)
    requires AllDigits(d) && 0 < n < |d|
    ensures ReadsAs(d[..n] + "." + d[n..], DecimalValue(d), n - |d|)
  {
    var r := d[..n] + "." + d[n..];
    assert Lacks(r, 'e') by {
      PointLacksExponent(d[..n], d[n..]);
    }
    PointMantissa(d, n);
    WithoutExponent(r, DecimalValue(d), |d| - n);
  }

  /** A leading `0` and `z` more zeros add nothing to the value. */
  lemma ZeroPrefixValue(z: nat, d: string)
    requires AllDigits(d)
    ensures AllDigits(Zeros(z) + d) && AllDigits("0" + (Zeros(z) + d))
    ensures DecimalValue("0" + (Zeros(z) + d)) == DecimalValue(d)
  {
    LeadingZeros(z, d);
    LeadingZeros(z + 1, d);
    assert "0" + (Zeros(z) + d) == Zeros(z + 1) + d by {
      assert Zeros(z + 1) == Zeros(z) + "0";
      assert "0" + Zeros(z) == Zeros(z + 1);
    }
  }

  /** Fraction notation below one reads as `d * 10^-(z + |d|)`. */
  lemma SmallReads(z: nat, d: string)
    requires AllDigits(d) && 0 < |d|
    ensures ReadsAs(SmallForm(z, d), DecimalValue(d), -((z + |d|) as int))
  {
    var tail := Zeros(z) + d;
    ZeroPrefixValue(z, d);
    PointLacksExponent("0", tail);
    MantissaPoint("0", tail);
    WithoutExponent("0" + "." + tail, DecimalValue(d), z + |d|);
  }

  /** Exponent notation reads as the digits `d` scaled by `10^(p - (|d| - 1))`. */
  lemma ExponentReads(d: string, p: int)
    requires AllDigits(d) && 0 < |d|
    ensures ReadsAs(ExponentForm(d, p), DecimalValue(d), p - (|d| - 1))
  {
    var body := Scientific(d);
    var sign := if p >= 0 then "+" else "-";
    var x: nat := if p >= 0 then p else -p;
    assert Lacks(body, 'e') && MantissaReads(body, DecimalValue(d), |d| - 1) by {
      ScientificMantissa(d);
    }
    SignedDigitsRead(sign, x);
    ExponentRead(body, sign + Digits(x), DecimalValue(d), |d| - 1);
  }

  lemma ScientificMantissa(d: string)
    requires AllDigits(d) && 0 < |d|
    ensures Lacks(Scientific(d), 'e')
    ensures MantissaReads(Scientific(d), DecimalValue(d), |d| - 1)
  {
    if |d| == 1 {
      MantissaInteger(d);
      DigitsLack(d, 'e');
    } else {
      PointMantissa(d, 1);
      PointLacksExponent(d[..1], d[1..]);
    }
  }

  /** `r` reads as the normal form `s * 10^e`, or, in plain integer
      notation with neither point nor exponent, as the integer `s * 10^e`. */
  predicate NormalText(r: string, s: nat, e: int) {
    ReadsAs(r, s, e) || (0 <= e && Lacks(r, '.') && Lacks(r, 'e') && ReadsAs(r, Shift(s, e), 0))
  }

  /** Each of the four notations `NumberToString` chooses reads back as the
      normal form it was built from. */
  lemma NotationsRead(s: nat, e: int)
    requires s > 0
    ensures NormalText(Notation(s, e), s, e)
  {
    var n := |Digits(s)| + e;
    if 0 <= e && n <= 21 {
      PlainCase(s, e);
    } else if 0 < n <= 21 {
      PointCase(s, e);
    } else if -6 < n <= 0 {
      SmallCase(s, e);
    } else {
      ExponentCase(s, e);
    }
  }

  lemma PlainCase(s: nat, e: int)
    requires s > 0 && 0 <= e && |Digits(s)| + e <= 21
    ensures NormalText(Notation(s, e), s, e)
  {
    assert Notation(s, e) == Digits(s) + Zeros(e);
    PlainIntegerReads(s, e);
  }

  lemma PointCase(s: nat, e: int)
    requires s > 0 && e < 0 && 0 < |Digits(s)| + e <= 21
    ensures NormalText(Notation(s, e), s, e)
  {
    var d := Digits(s);
    var n := |d| + e;
    assert Notation(s, e) == d[..n] + "." + d[n..];
    PointReads(d, n);
    DigitsDenote(s);
  }

  lemma SmallCase(s: nat, e: int)
    requires s > 0 && -6 < |Digits(s)| + e <= 0
    ensures NormalText(Notation(s, e), s, e)
  {
    var d := Digits(s);
    var n := |d| + e;
    assert Notation(s, e) == SmallForm(-n, d);
    SmallReads(-n, d);
    DigitsDenote(s);
  }

  lemma ExponentCase(s: nat, e: int)
    requires s > 0 && (21 < |Digits(s)| + e || |Digits(s)| + e <= -6)
    ensures NormalText(Notation(s, e), s, e)
  {
    var d := Digits(s);
    assert Notation(s, e) == ExponentForm(d, |d| + e - 1);
    ExponentReads(d, |d| + e - 1);
    DigitsDenote(s);
  }

  /** The text of a positive decimal reads back as a decimal with the same
      normal form, hence the same value. In fraction and exponent notation it
      reads as exactly that normal form, so its digits end in a non-zero
      digit; in plain integer notation it reads with exponent zero. */
  lemma NumberToStringReadsBack(mantissa: nat, exponent: int)
    requires mantissa > 0
    ensures ReadUnsigned(NumberToString(mantissa, exponent)).Some?
    ensures ReadUnsigned(NumberToString(mantissa, exponent)).value.0 > 0
    ensures StripZeros(ReadUnsigned(NumberToString(mantissa, exponent)).value.0,
                       ReadUnsigned(NumberToString(mantissa, exponent)).value.1)
         == StripZeros(mantissa, exponent)
    ensures '.' in NumberToString(mantissa, exponent) || 'e' in NumberToString(mantissa, exponent)
         ==> ReadsAs(NumberToString(mantissa, exponent),
                     StripZeros(mantissa, exponent).0, StripZeros(mantissa, exponent).1)
    ensures !('.' in NumberToString(mantissa, exponent) || 'e' in NumberToString(mantissa, exponent))
         ==> ReadUnsigned(NumberToString(mantissa, exponent)).value.1 == 0
  {
    var (s, e) := StripZeros(mantissa, exponent);
    assert NumberToString(mantissa, exponent) == Notation(s, e);
    NotationsRead(s, e);
    NormalTextReads(Notation(s, e), s, e);
  }

  /** What reading a text in normal form gives, whichever notation it uses. */
  lemma NormalTextReads(r: string, s: nat, e: int)
    requires s > 0 && s % 10 != 0
    requires NormalText(r, s, e)
    ensures ReadUnsigned(r).Some? && ReadUnsigned(r).value.0 > 0
    ensures StripZeros(ReadUnsigned(r).value.0, ReadUnsigned(r).value.1) == (s, e)
    ensures '.' in r || 'e' in r ==> ReadsAs(r, s, e)
    ensures !('.' in r || 'e' in r) ==> ReadUnsigned(r).value.1 == 0
  {
    assert StripZeros(s, e) == (s, e);
    if !ReadsAs(r, s, e) {
      StripZerosShift(s, e, e);
      assert !('.' in r) && !('e' in r);
    }
  }

  /** Two positive decimals with the same normal form denote the same number. */
  lemma NormalFormsAgree(v: nat, p: int, w: nat, q: int)
    requires v > 0 && w > 0
    requires StripZeros(v, p) == StripZeros(w, q)
    ensures SameValue(v, p, w, q)
  {
    var (s, e) := StripZeros(v, p);
    if p <= q {
      Pow10Add(e - q, q - p);
      MulAssoc(s, Pow10(e - q), Pow10(q - p));
    } else {
      Pow10Add(e - p, p - q);
      MulAssoc(s, Pow10(e - p), Pow10(p - q));
    }
  }

  /** The text of a positive decimal reads back as that number. */
  lemma PositiveDenotes(mantissa: nat, exponent: int)
    requires mantissa > 0
    ensures ReadUnsigned(NumberToString(mantissa, exponent)).Some?
    ensures SameValue(ReadUnsigned(NumberToString(mantissa, exponent)).value.0,
                      ReadUnsigned(NumberToString(mantissa, exponent)).value.1,
                      mantissa, exponent)
  {
    NumberToStringReadsBack(mantissa, exponent);
    var vp := ReadUnsigned(NumberToString(mantissa, exponent)).value;
    NormalFormsAgree(vp.0, vp.1, mantissa, exponent);
  }

  /** Whatever its sign, the text `String(x)` gives for the decimal
      `mantissa * 10^exponent` reads back as that same number. */
  lemma NumberToStringDenotes(mantissa: int, exponent: int)
    ensures ReadNumber(NumberToString(mantissa, exponent)).Some?
    ensures SameValue(ReadNumber(NumberToString(mantissa, exponent)).value.0,
                      ReadNumber(NumberToString(mantissa, exponent)).value.1,
                      mantissa, exponent)
  {
    if mantissa == 0 {
      var r := NumberToString(mantissa, exponent);
      assert r == "0";
      MantissaInteger("0");
      DigitsLack("0", 'e');
      WithoutExponent("0", 0, 0);
      assert ReadNumber(r).value.0 == 0 && ReadNumber(r).value.1 == 0;
    } else if mantissa > 0 {
      UnsignedDenotes(mantissa, exponent);
    } else {
      NegativeDenotes(mantissa, exponent);
    }
  }

  lemma UnsignedDenotes(mantissa: nat, exponent: int)
    requires mantissa > 0
    ensures ReadNumber(NumberToString(mantissa, exponent)).Some?
    ensures SameValue(ReadNumber(NumberToString(mantissa, exponent)).value.0,
                      ReadNumber(NumberToString(mantissa, exponent)).value.1,
                      mantissa, exponent)
  {
    var r := NumberToString(mantissa, exponent);
    PositiveDenotes(mantissa, exponent);
    assert r[0] != '-';
    var vp := ReadUnsigned(r).value;
    assert ReadNumber(r).value.0 == vp.0 && ReadNumber(r).value.1 == vp.1;
  }

  lemma NegativeDenotes(mantissa: int, exponent: int)
    requires mantissa < 0
    ensures ReadNumber(NumberToString(mantissa, exponent)).Some?
    ensures SameValue(ReadNumber(NumberToString(mantissa, exponent)).value.0,
                      ReadNumber(NumberToString(mantissa, exponent)).value.1,
                      mantissa, exponent)
  {
    var m: nat := -mantissa;
    PositiveDenotes(m, exponent);
    var t := NumberToString(m, exponent);
    var vp := ReadUnsigned(t).value;
    var r := NumberToString(mantissa, exponent);
    assert r == "-" + t;
    assert r[1..] == t;
    NegatedSameValue(vp.0, vp.1, m, exponent);
    assert ReadNumber(r).value.0 == -(vp.0 as int) && ReadNumber(r).value.1 == vp.1;
  }

  lemma NegatedSameValue(v: int, p: int, w: int, q: int)
    requires SameValue(v, p, w, q)
    ensures SameValue(-v, p, -w, q)
  {
    if p <= q {
      assert -v == -w * Pow10(q - p);
    } else {
      assert -v * Pow10(p - q) == -w;
    }
  }
}

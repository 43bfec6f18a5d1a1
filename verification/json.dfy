/** JSON values as the gateway's JavaScript sees them after `JSON.parse`,
    together with the three pieces of JavaScript semantics the gateway relies
    on: optional property access (`v?.key`), truthiness, and `String(v)`. */
module Json {
  import opened Wrappers

  /** A parsed JSON value. A number is kept as the decimal it denotes,
      `mantissa * 10^exponent`; objects keep their members in source order. */
  datatype Json =
    | JNull
    | JBool(b: bool)
    | JNum(mantissa: int, exponent: int)
    | JStr(s: string)
    | JArr(items: seq<Json>)
    | JObj(members: seq<(string, Json)>)

  /** A JavaScript value obtained from parsed JSON: `None` is `undefined`. */
  type JsValue = Option<Json>

  /** The value of the last member named `key` in `ms` (when `JSON.parse`
      meets a repeated key, the later value wins). */
  function LastMember(ms: seq<(string, Json)>, key: string): (r: JsValue)
    ensures r.None? <==> forall i :: 0 <= i < |ms| ==> ms[i].0 != key
    ensures r.Some? ==> exists i :: 0 <= i < |ms| && ms[i] == (key, r.value)
                                   && forall j :: i < j < |ms| ==> ms[j].0 != key
  {
    if |ms| == 0 then None
    else if ms[|ms| - 1].0 == key then Some(ms[|ms| - 1].1)
    else LastMember(ms[..|ms| - 1], key)
  }

  /** `v?.key` for a parsed JSON value: only objects have own properties;
      on `null`, on primitives and on arrays the names the gateway reads
      (`contents`, `prompt`, `generationConfig`, `error`) are `undefined`. */
  function Prop(v: Json, key: string): (r: JsValue)
    ensures r.Some? ==> v.JObj?
    ensures v.JObj? ==> r == LastMember(v.members, key)
  {
    if v.JObj? then LastMember(v.members, key) else None
  }

  /** JavaScript truthiness: `undefined`, `null`, `false`, `0` and `""` are
      falsy; every array and every object, even an empty one, is truthy. */
  predicate Truthy(v: JsValue) {
    match v
    case None => false
    case Some(JNull) => false
    case Some(JBool(b)) => b
    case Some(JNum(m, _)) => m != 0
    case Some(JStr(s)) => s != ""
    case Some(JArr(_)) => true
    case Some(JObj(_)) => true
  }

  /** JavaScript `a || b`: `a` itself when it is truthy, otherwise `b`. */
  function Or(a: JsValue, b: Json): (r: Json)
    ensures Truthy(a) ==> Some(r) == a
    ensures !Truthy(a) ==> r == b
  {
    if Truthy(a) then a.value else b
  }

  /** JavaScript `undefined`, `null`, `false`, `0` and `""` are the falsy
      values (ToBoolean, section 7.1.2 of ECMA-262); nothing else is. */
  lemma FalsyValues(v: JsValue)
    ensures !Truthy(v) <==>
              || v == None || v == Some(JNull) || v == Some(JBool(false))
              || (v.Some? && v.value.JNum? && v.value.mantissa == 0)
              || v == Some(JStr(""))
  {
  }

  // ----- String(v) -----

  /** The result of evaluating a JavaScript expression that may throw:
      `String(v)` throws a TypeError for some objects. */
  datatype Completion<+T> = Normal(value: T) | TypeError

  function Pow10(n: nat): (r: nat)
    ensures r >= 1
  {
    if n == 0 then 1 else 10 * Pow10(n - 1)
  }

  function DigitChar(d: nat): (c: char)
    requires d < 10
    ensures '0' <= c <= '9'
  {
    ('0' as int + d) as char
  }

  predicate AllDigits(d: string) {
    forall i :: 0 <= i < |d| ==> '0' <= d[i] <= '9'
  }

  /** The number a string of decimal digits denotes. */
  function DecimalValue(d: string): nat
    requires AllDigits(d)
  {
    if |d| == 0 then 0 else 10 * DecimalValue(d[..|d| - 1]) + (d[|d| - 1] as int - '0' as int)
  }

  /** The decimal digits of `n`, without leading zeros. */
  function Digits(n: nat): (r: string)
    ensures 1 <= |r| && AllDigits(r)
    ensures n > 0 ==> r[0] != '0'
  {
    if n < 10 then [DigitChar(n)] else Digits(n / 10) + [DigitChar(n % 10)]
  }

  /** The digits of `n` denote `n`. */
  lemma {:induction false} DigitsDenote(n: nat)
    ensures DecimalValue(Digits(n)) == n
  {
    if n >= 10 {
      DigitsDenote(n / 10);
      var r := Digits(n);
      assert r[..|r| - 1] == Digits(n / 10);
    }
  }

  /** A positive `n` has `k` digits exactly when `10^(k-1) <= n < 10^k`. */
  lemma {:induction false} DigitsCount(n: nat)
    requires n > 0
    ensures Pow10(|Digits(n)| - 1) <= n < Pow10(|Digits(n)|)
  {
    if n >= 10 {
      DigitsCount(n / 10);
      assert |Digits(n)| == |Digits(n / 10)| + 1;
    }
  }

  function Zeros(n: nat): (r: string)
    ensures |r| == n
    ensures forall i :: 0 <= i < n ==> r[i] == '0'
  {
    if n == 0 then "" else Zeros(n - 1) + "0"
  }

  /** Writes the positive decimal `s * 10^e` as `(s', e')` with no trailing
      zero in `s'`: the value denoted is unchanged. */
  function StripZeros(s: nat, e: int): (r: (nat, int))
    requires s > 0
    ensures r.0 > 0 && r.0 % 10 != 0
    ensures r.1 >= e
    ensures r.0 * Pow10(r.1 - e) == s
  {
    if s % 10 == 0 then
      var r := StripZeros(s / 10, e + 1);
      assert r.0 * Pow10(r.1 - e) == 10 * (r.0 * Pow10(r.1 - e - 1));
      r
    else (s, e)
  }

  /** Number::toString(x) of ECMA-262 (section 6.1.6.1.20) for the decimal
      `x = mantissa * 10^exponent`. */
  function NumberToString(mantissa: int, exponent: int): (r: string)
    ensures 1 <= |r|
    ensures mantissa < 0 <==> r[0] == '-'
    decreases if mantissa < 0 then 1 else 0
  {
    if mantissa == 0 then "0"
    else if mantissa < 0 then "-" + NumberToString(-mantissa, exponent)
    else
      var (s, e) := StripZeros(mantissa, exponent);
      Notation(s, e)
  }

  /** The text of the positive number `s * 10^e`, `s` without trailing zero:
      with `x = s * 10^(n - k)` and `s` a `k`-digit integer, plain notation
      is used for `-6 < n <= 21` and exponent notation otherwise. */
  function Notation(s: nat, e: int): (r: string)
    requires s > 0
    ensures 1 <= |r| && r[0] != '-'
  {
    var d := Digits(s);
    var k := |d|;
    var n := k + e;
    if k <= n <= 21 then d + Zeros(n - k)
    else if 0 < n <= 21 then d[..n] + "." + d[n..]
    else if -6 < n <= 0 then SmallForm(-n, d)
    else ExponentForm(d, n - 1)
  }

  /** Plain notation below one: `0.`, `z` zeros, then the digits `d`. */
  function SmallForm(z: nat, d: string): string {
    "0" + "." + (Zeros(z) + d)
  }

  /** Exponent notation for the digits `d` and the exponent `p`: the first
      digit, the others after a point when there are any, then `e`, the
      sign of `p` and the digits of its magnitude. */
  function ExponentForm(d: string, p: int): string
    requires 0 < |d|
  {
    Scientific(d) + "e" + ((if p >= 0 then "+" else "-") + Digits(if p >= 0 then p else -p))
  }

  function Scientific(d: string): string
    requires 0 < |d|
  {
    if |d| == 1 then d else d[..1] + "." + d[1..]
  }

  lemma {:induction false} Pow10Add(a: nat, b: nat)
    ensures Pow10(a + b) == Pow10(a) * Pow10(b)
  {
    if a > 0 {
      Pow10Add(a - 1, b);
    }
  }

  lemma {:induction false} Pow10Monotone(a: nat, b: nat)
    requires a <= b
    ensures Pow10(a) <= Pow10(b)
  {
    if a < b {
      Pow10Monotone(a, b - 1);
    }
  }

  lemma DigitsTimesTen(x: nat)
    requires x > 0
    ensures Digits(10 * x) == Digits(x) + "0"
  {
    var y := 10 * x;
    assert y >= 10 && y / 10 == x && y % 10 == 0;
    assert DigitChar(0) == '0';
  }

  /** `s * 10^z`, written without a product of two unknowns. */
  function Shift(s: nat, z: nat): (r: nat)
    ensures s > 0 ==> r > 0
  {
    if z == 0 then s else 10 * Shift(s, z - 1)
  }

  lemma {:induction false} ShiftIsProduct(s: nat, z: nat)
    ensures Shift(s, z) == s * Pow10(z)
  {
    if z > 0 {
      ShiftIsProduct(s, z - 1);
      MulByTen(s, Pow10(z - 1));
    }
  }

  /** Appending `z` zero digits multiplies by `10^z`. */
  lemma {:induction false} DigitsShift(s: nat, z: nat)
    requires s > 0
    ensures Shift(s, z) > 0
    ensures Digits(Shift(s, z)) == Digits(s) + Zeros(z)
  {
    if z > 0 {
      DigitsShift(s, z - 1);
      DigitsTimesTen(Shift(s, z - 1));
      assert Zeros(z) == Zeros(z - 1) + "0";
    }
  }

  /** A non-negative integer below 10^21 is written as its plain decimal
      digits, without fraction or exponent, however the decimal is given. */
  lemma IntegersPrintPlain(mantissa: nat, exponent: nat)
    requires mantissa * Pow10(exponent) < Pow10(21)
    ensures NumberToString(mantissa, exponent) == Digits(mantissa * Pow10(exponent))
  {
    if mantissa > 0 {
      var r := StripZeros(mantissa, exponent);
      IntegerNormalForm(mantissa, exponent);
      PlainNotation(r.0, r.1);
      assert NumberToString(mantissa, exponent) == Notation(r.0, r.1);
    }
  }

  /** The normal form of an integer below 10^21 has a non-negative exponent
      and at most 21 digits with its zeros. */
  lemma IntegerNormalForm(mantissa: nat, exponent: nat)
    requires 0 < mantissa && mantissa * Pow10(exponent) < Pow10(21)
    ensures StripZeros(mantissa, exponent).1 >= 0
    ensures |Digits(StripZeros(mantissa, exponent).0)| + StripZeros(mantissa, exponent).1 <= 21
    ensures Shift(StripZeros(mantissa, exponent).0, StripZeros(mantissa, exponent).1)
         == mantissa * Pow10(exponent)
  {
    var r := StripZeros(mantissa, exponent);
    NormalFormValue(mantissa, exponent);
    DigitsBound(r.0, r.1);
    ShiftIsProduct(r.0, r.1);
  }

  lemma NormalFormValue(mantissa: nat, exponent: nat)
    requires 0 < mantissa
    ensures StripZeros(mantissa, exponent).1 >= 0
    ensures StripZeros(mantissa, exponent).0 * Pow10(StripZeros(mantissa, exponent).1)
         == mantissa * Pow10(exponent)
  {
    var r := StripZeros(mantissa, exponent);
    var s, e := r.0, r.1;
    var z := e - exponent;
    Pow10Add(z, exponent);
    assert mantissa == s * Pow10(z);
    MulAssoc(s, Pow10(z), Pow10(exponent));
  }

  /** `s * 10^e < 10^21` leaves room for at most 21 digits with the zeros. */
  lemma DigitsBound(s: nat, e: nat)
    requires 0 < s && s * Pow10(e) < Pow10(21)
    ensures |Digits(s)| + e <= 21
  {
    var d := Digits(s);
    DigitsCount(s);
    if 21 < |d| + e {
      Pow10Monotone(21, |d| - 1 + e);
      Pow10Add(|d| - 1, e);
      MulMonotone(Pow10(|d| - 1), s, Pow10(e));
      assert false;
    }
  }

  /** A normal form with a non-negative exponent and at most 21 digits
      with its zeros is written as digits followed by zeros. */
  lemma PlainNotation(s: nat, e: nat)
    requires s > 0 && |Digits(s)| + e <= 21
    ensures Notation(s, e) == Digits(Shift(s, e))
  {
    DigitsShift(s, e);
  }

  /** Trailing zeros moved from the mantissa into the exponent are
      stripped again: the normal form depends on the value only. */
  lemma {:induction false} StripZerosShift(v: nat, t: nat, e: int)
    requires v > 0
    ensures StripZeros(Shift(v, t), e - t) == StripZeros(v, e)
  {
    if t > 0 {
      var x := Shift(v, t - 1);
      assert Shift(v, t) == 10 * x && (10 * x) % 10 == 0 && (10 * x) / 10 == x;
      StripZerosShift(v, t - 1, e);
      assert e - t + 1 == e - (t - 1);
    }
  }

  /** `String` of a number depends on its value, not on how the decimal is
      written: `v * 10^e` and `(v * 10^t) * 10^(e - t)` give the same text. */
  lemma ValueDecidesString(v: nat, t: nat, e: int)
    ensures NumberToString(v * Pow10(t), e - t) == NumberToString(v, e)
  {
    ShiftIsProduct(v, t);
    if v > 0 {
      StripZerosShift(v, t, e);
    }
  }

  /** An integer below 10^21 given with a negative exponent, such as `50e-1`,
      is also written as its plain decimal digits. */
  lemma IntegersPrintPlainScaled(value: nat, t: nat)
    requires value < Pow10(21)
    ensures NumberToString(value * Pow10(t), -(t as int)) == Digits(value)
  {
    ValueDecidesString(value, t, 0);
    assert 0 - t == -(t as int);
    IntegerPrintsDigits(value);
  }

  lemma IntegerPrintsDigits(value: nat)
    requires value < Pow10(21)
    ensures NumberToString(value, 0) == Digits(value)
  {
    assert value * Pow10(0) == value;
    IntegersPrintPlain(value, 0);
  }

  lemma MulAssoc(a: int, b: int, c: int)
    ensures a * b * c == a * (b * c)
  {
  }

  lemma MulByTen(a: int, b: int)
    ensures a * (10 * b) == 10 * (a * b)
  {
  }

  lemma MulMonotone(a: nat, b: nat, c: nat)
    requires a <= b
    ensures a * c <= b * c
  {
  }

  /** `String(v)` throws: `v`, or an element of an array reached from `v`,
      is an object with an own `toString` member. That member is not
      callable (JSON holds no functions) and the inherited `valueOf`
      returns an object, so neither `toString` nor `valueOf` yields a
      primitive and OrdinaryToPrimitive (section 7.1.1.1 of ECMA-262)
      throws. */
  predicate StringThrows(v: Json) {
    match v
    case JObj(_) => Prop(v, "toString").Some?
    case JArr(items) => exists i :: 0 <= i < |items| && StringThrows(items[i])
    case _ => false
  }

  /** JavaScript `String(v)`. A primitive gives its own text; an object
      without an own `toString` gives "[object Object]"; an array is joined
      with "," after rendering each element, `null` elements as the empty
      string (Array.prototype.join). */
  function ToJsString(v: Json): (r: Completion<string>)
    ensures r.TypeError? <==> StringThrows(v)
    ensures v.JNull? ==> r == Normal("null")
    ensures v.JBool? ==> r == Normal(if v.b then "true" else "false")
    ensures v.JNum? ==> r == Normal(NumberToString(v.mantissa, v.exponent))
    ensures v.JStr? ==> r == Normal(v.s)
    ensures v.JObj? && !StringThrows(v) ==> r == Normal("[object Object]")
    ensures v == JArr([]) ==> r == Normal("")
    decreases v, 1, 0
  {
    match v
    case JNull => Normal("null")
    case JBool(b) => Normal(if b then "true" else "false")
    case JNum(m, e) => Normal(NumberToString(m, e))
    case JStr(s) => Normal(s)
    case JArr(items) => JoinItems(v, |items|)
    case JObj(_) => if Prop(v, "toString").Some? then TypeError else Normal("[object Object]")
  }

  /** How Array.prototype.join renders one element: `null` as "". */
  function ItemString(item: Json): (r: Completion<string>)
    ensures r.TypeError? <==> StringThrows(item)
    decreases item, 2, 0
  {
    if item.JNull? then Normal("") else ToJsString(item)
  }

  /** The first `n` items of the array `v` joined as Array.prototype.join does. */
  function JoinItems(v: Json, n: nat): (r: Completion<string>)
    requires v.JArr? && n <= |v.items|
    ensures r.TypeError? <==> exists i :: 0 <= i < n && StringThrows(v.items[i])
    decreases v, 0, n
  {
    if n == 0 then Normal("")
    else
      var last := ItemString(v.items[n - 1]);
      if last.TypeError? then TypeError
      else if n == 1 then last
      else
        match JoinItems(v, n - 1)
        case TypeError => TypeError
        case Normal(init) => Normal(init + "," + last.value)
  }

  lemma {:induction false} JoinItemsPrefix(v: Json, w: Json, n: nat)
    requires v.JArr? && w.JArr? && n <= |v.items| && n <= |w.items|
    requires v.items[..n] == w.items[..n]
    ensures JoinItems(v, n) == JoinItems(w, n)
  {
    if n > 0 {
      assert v.items[n - 1] == v.items[..n][n - 1] == w.items[n - 1];
      assert v.items[..n - 1] == v.items[..n][..n - 1];
      assert w.items[..n - 1] == w.items[..n][..n - 1];
      JoinItemsPrefix(v, w, n - 1);
    }
  }

  /** `String` of an array is its elements' strings separated by ","; it
      throws as soon as one element's string throws. */
  lemma ArrayStringJoins(items: seq<Json>, x: Json)
    ensures ToJsString(JArr([x])) == ItemString(x)
    ensures |items| > 0 ==>
              ToJsString(JArr(items + [x])) ==
                match (ToJsString(JArr(items)), ItemString(x))
                case (Normal(a), Normal(b)) => Normal(a + "," + b)
                case _ => TypeError
  {
    if |items| > 0 {
      var v := JArr(items + [x]);
      JoinItemsPrefix(v, JArr(items), |items|);
    }
  }
}

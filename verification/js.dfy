/**
 The few JavaScript runtime behaviours the modelled programs lean on:
 dynamically typed argument values, exceptions, the truncating `%`
 operator, `String(n)` for integers, and the keys every plain object
 inherits from `Object.prototype`.
 */
module Js {

  /** An argument value as a JavaScript function sees it. Numbers are exact
      reals (no NaN, no infinities, no rounding); every value that is
      neither a number nor a string is `Other`. */
  datatype JsValue = Number(num: real) | Text(str: string) | Other

  /** The outcome of calling a function that may throw an `Error`. */
  datatype Result<T> = Returns(value: T) | Throws(message: string)

  /** `Math.trunc`: rounds toward zero. */
  function Trunc(x: real): (t: int)
    ensures 0.0 <= x ==> t as real <= x < t as real + 1.0
    ensures x < 0.0 ==> t as real - 1.0 < x <= t as real
  {
    if 0.0 <= x then x.Floor else -((-x).Floor)
  }

  /** JavaScript's `x % y` on numbers: the remainder of the truncating
      division, whose sign follows the dividend (unlike Dafny's `%`). */
  function Rem(x: real, y: real): (r: real)
    requires y != 0.0
    ensures 0.0 < y && 0.0 <= x ==> 0.0 <= r < y
    ensures 0.0 < y && x < 0.0 ==> -y < r <= 0.0
    ensures ((x - r) / y).Floor as real == (x - r) / y
  {
    TruncatedRemainderBounds(x, y);
    var t := Trunc(x / y);
    WholeQuotient(y, t);
    x - y * t as real
  }

  /** A whole multiple of `y`, divided by `y`, is a whole number. */
  lemma WholeQuotient(y: real, k: int)
    requires y != 0.0
    ensures ((y * k as real) / y).Floor == k
  {
    assert (y * k as real) / y == k as real;
  }

  /** The remainder left by a truncated quotient lies strictly between 0
      and a positive divisor, on the dividend's side of zero. */
  lemma TruncatedRemainderBounds(x: real, y: real)
    requires y != 0.0
    ensures 0.0 < y && 0.0 <= x ==> 0.0 <= x - y * Trunc(x / y) as real < y
    ensures 0.0 < y && x < 0.0 ==> -y < x - y * Trunc(x / y) as real <= 0.0
  {
    if 0.0 < y {
      QuotientSign(x, y);
      RemainderWithin(x, y, x / y, Trunc(x / y) as real);
    }
  }

  /** The remainder step on its own: `t` is `q` truncated and `y * q == x`. */
  lemma RemainderWithin(x: real, y: real, q: real, t: real)
    requires 0.0 < y && y * q == x && (0.0 <= x <==> 0.0 <= q)
    requires 0.0 <= q ==> t <= q < t + 1.0
    requires q < 0.0 ==> t - 1.0 < q <= t
    ensures 0.0 <= x ==> 0.0 <= x - y * t < y
    ensures x < 0.0 ==> -y < x - y * t <= 0.0
  {
    var f := q - t;
    assert x - y * t == y * f;
    ScaleFraction(x - y * t, y, f);
  }

  /** Dividing by a positive number keeps the sign. */
  lemma QuotientSign(x: real, y: real)
    requires 0.0 < y
    ensures 0.0 <= x <==> 0.0 <= x / y
  {
  }

  /** `r == y * f` with `y` positive and the fraction `f` strictly inside
      (-1, 1): `r` keeps `f`'s side of zero and stays inside (-y, y). */
  lemma ScaleFraction(r: real, y: real, f: real)
    requires 0.0 < y && r == y * f
    ensures 0.0 <= f < 1.0 ==> 0.0 <= r < y
    ensures -1.0 < f <= 0.0 ==> -y < r <= 0.0
  {
    if 0.0 < f < 1.0 {
      ScalePositiveFraction(r, y, f);
    } else if -1.0 < f < 0.0 {
      ScalePositiveFraction(-r, y, -f);
    } else if f == 0.0 {
      assert r == 0.0;
    }
  }

  /** The case of a fraction strictly inside (0, 1). */
  lemma ScalePositiveFraction(r: real, y: real, f: real)
    requires 0.0 < y && r == y * f && 0.0 < f < 1.0
    ensures 0.0 < r < y
  {
    PositiveProduct(y, f);
    MulLess(y, f, 1.0);
    assert y * f < y * 1.0;
    assert y * 1.0 == y;
    assert r == y * f;
    assert y * f < y;
    assert r < y;
  }

  /** The product of two positive numbers is positive. */
  lemma PositiveProduct(a: real, b: real)
    requires 0.0 < a && 0.0 < b
    ensures 0.0 < a * b
  {
  }

  /** Multiplying by a positive number keeps a strict order. */
  lemma MulLess(y: real, a: real, b: real)
    requires 0.0 < y && a < b
    ensures y * a < y * b
  {
  }

  /** `x % y` on integral numbers, written on `int`. */
  function IntRem(a: int, b: int): (r: int)
    requires b > 0
    ensures -b < r < b
    ensures 0 <= a ==> r == a % b
    ensures a < 0 ==> r <= 0
    ensures (a - r) % b == 0
  {
    if 0 <= a then
      DivModUnique(a - a % b, b, a / b, 0);
      a % b
    else
      var q := (-a) / b;
      assert -a == b * q + (-a) % b;
      DivModUnique(a + (-a) % b, b, -q, 0);
      -((-a) % b)
  }

  /** Euclidean division is unique: any decomposition `a == b * k + m` with
      `0 <= m < b` is the one `/` and `%` compute. */
  lemma DivModUnique(a: int, b: int, k: int, m: int)
    requires b > 0 && 0 <= m < b && a == b * k + m
    ensures a / b == k && a % b == m
  {
    var q, r := a / b, a % b;
    assert b * q + r == b * k + m;
    if q != k {
      var d := q - k;
      assert b * q == b * k + b * d;
      assert b * d == m - r;
      if d > 0 {
        MulAtLeast(b, d);
      } else {
        MulAtLeast(b, -d);
      }
    }
  }

  lemma MulAtLeast(b: int, d: int)
    requires b > 0 && d >= 1
    ensures b * d >= b
  {
    assert b * d == b * (d - 1) + b;
  }

  /** `a % b === 0` holds exactly when `b` divides `a`, whatever the sign of
      `a` (a negative multiple yields `-0`, which `===` equates with `0`). */
  lemma IntRemZeroIffDivides(a: int, b: int)
    requires b > 0
    ensures IntRem(a, b) == 0 <==> a % b == 0
  {
    if a < 0 {
      var q, r := (-a) / b, (-a) % b;
      assert -a == b * q + r;
      if r == 0 {
        assert a == b * (-q) + 0;
        DivModUnique(a, b, -q, 0);
      } else {
        assert b * (-q - 1) == -(b * q) - b;
        assert a == b * (-q - 1) + (b - r);
        DivModUnique(a, b, -q - 1, b - r);
      }
    }
  }

  /** The keys a plain object literal `{}` inherits
      from `Object.prototype`; looking any of them up yields a function (or
      the prototype object itself), which is truthy. */
  const InheritedKeys: set<string> := {
    "constructor", "__defineGetter__", "__defineSetter__", "hasOwnProperty",
    "__lookupGetter__", "__lookupSetter__", "isPrototypeOf",
    "propertyIsEnumerable", "toString", "valueOf", "__proto__",
    "toLocaleString"
  }

  /** Truthiness of `obj[key]` counting only the object's own entries, the
      map `m` of strings: the key is present and its string is non-empty. */
  predicate OwnTruthy(m: map<string, string>, key: string)
  {
    key in m && m[key] != ""
  }

  /** Truthiness of `obj[key]` for an object literal whose own entries are
      the map `m` of strings: an own entry decides by itself, and a missing
      key still finds an inherited member when it names one. */
  predicate LookupTruthy(m: map<string, string>, key: string)
  {
    if key in m then OwnTruthy(m, key) else key in InheritedKeys
  }

  /** Truthiness of `obj[key]` where every own value is an object (always
      truthy): an own key, or an inherited one. */
  predicate HasMember<V>(m: map<string, V>, key: string)
  {
    key in m || key in InheritedKeys
  }

  // ---------------------------------------------------------------------
  // `String(n)` for an integer n, and its inverse.

  predicate IsDigit(c: char)
  {
    '0' <= c <= '9'
  }

  function DigitChar(d: int): (c: char)
    requires 0 <= d < 10
    ensures IsDigit(c)
  {
    ['0', '1', '2', '3', '4', '5', '6', '7', '8', '9'][d]
  }

  function DigitValue(c: char): (d: int)
    requires IsDigit(c)
    ensures 0 <= d < 10
  {
    c as int - '0' as int
  }

  lemma DigitRoundTrip(d: int)
    requires 0 <= d < 10
    ensures DigitValue(DigitChar(d)) == d
  {
  }

  /** The decimal digits of a natural number, most significant first, with
      no leading zero (except for 0 itself). */
  function Digits(n: nat): (s: string)
    ensures |s| >= 1
    ensures forall i :: 0 <= i < |s| ==> IsDigit(s[i])
    ensures |s| > 1 ==> s[0] != '0'
    decreases n
  {
    if n < 10 then [DigitChar(n)] else Digits(n / 10) + [DigitChar(n % 10)]
  }

  /** `String(n)` for an integer `n`: a minus sign for negatives, then the
      digits of `|n|`. */
  function DecimalString(n: int): (s: string)
    ensures |s| >= 1
    ensures forall i :: 0 <= i < |s| ==> IsDigit(s[i]) || (i == 0 && s[i] == '-')
    ensures s[0] != '-' && |s| > 1 ==> s[0] != '0'
    ensures s[0] == '-' ==> |s| > 1 && s[1] != '0'
  {
    if n < 0 then "-" + Digits(-n) else Digits(n)
  }

  /** Reads back a string of digits as a natural number. */
  function DigitsValue(s: string): (v: nat)
    requires forall i :: 0 <= i < |s| ==> IsDigit(s[i])
    decreases |s|
  {
    if s == [] then 0 else DigitsValue(s[..|s| - 1]) * 10 + DigitValue(s[|s| - 1])
  }

  /** Reads back an optionally signed decimal string. */
  function ParseDecimal(s: string): (n: int)
    requires forall i :: 0 <= i < |s| ==> IsDigit(s[i]) || (i == 0 && s[i] == '-')
  {
    if |s| > 0 && s[0] == '-' then 0 - DigitsValue(s[1..]) as int else DigitsValue(s)
  }

  lemma {:induction false} DigitsRoundTrip(n: nat)
    ensures DigitsValue(Digits(n)) == n
    decreases n
  {
    if n < 10 {
      DigitRoundTrip(n);
    } else {
      var s := Digits(n);
      var prefix := Digits(n / 10);
      assert s == prefix + [DigitChar(n % 10)];
      assert s[..|s| - 1] == prefix;
      DigitsRoundTrip(n / 10);
      DigitRoundTrip(n % 10);
    }
  }

  /** `String(n)` loses nothing: the integer is recovered from its text. */
  lemma DecimalRoundTrip(n: int)
    ensures ParseDecimal(DecimalString(n)) == n
  {
    if n < 0 {
      assert DecimalString(n)[1..] == Digits(-n);
      DigitsRoundTrip(-n);
    } else {
      DigitsRoundTrip(n);
    }
  }
}

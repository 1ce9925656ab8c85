/**
 The four helper functions of the unit-testing exercise (`functions.js`,
 also embedded verbatim in the unit-testing template): `add`, `isEven`,
 `capitalise` and `reverseString`. Arguments are dynamically typed, so each
 takes a `JsValue`; a type error is a thrown `Error`.
 */
module Helpers {
  import opened Js

  // ---------------------------------------------------------------------
  // add

  /** `add(a, b)`: the sum of two numbers; anything else throws. */
  function Add(a: JsValue, b: JsValue): (r: Result<real>)
    ensures r.Returns? <==> a.Number? && b.Number?
    ensures r.Returns? ==> r.value == a.num + b.num
    ensures r.Throws? ==> r.message == "Inputs must be numbers."
  {
    if !a.Number? || !b.Number? then Throws("Inputs must be numbers.")
    else Returns(a.num + b.num)
  }

  /** The order of the arguments never matters, on either outcome. */
  lemma AddCommutes(a: JsValue, b: JsValue)
    ensures Add(a, b) == Add(b, a)
  {
  }

  // ---------------------------------------------------------------------
  // isEven

  /** Independent reference for parity: `x` is a whole number and an even
      one. */
  predicate EvenInteger(x: real)
  {
    x.Floor as real == x && x.Floor % 2 == 0
  }

  /** `isEven(n)`: `n % 2 === 0` with JavaScript's truncating remainder;
      a non-number throws. */
  function IsEven(v: JsValue): (r: Result<bool>)
    ensures r.Returns? <==> v.Number?
    ensures r.Throws? ==> r.message == "Input must be a number."
  {
    if !v.Number? then Throws("Input must be a number.")
    else Returns(Rem(v.num, 2.0) == 0.0)
  }

  /** The truncating remainder by 2 is zero exactly for the even whole
      numbers, including zero and the negative ones (where the remainder is
      `-0`). */
  lemma RemTwoZeroIffEven(x: real)
    ensures Rem(x, 2.0) == 0.0 <==> EvenInteger(x)
  {
    var t := Trunc(x / 2.0);
    if Rem(x, 2.0) == 0.0 {
      assert x == 2.0 * t as real;
      assert x == (2 * t) as real;
      assert x.Floor == 2 * t;
      DivModUnique(2 * t, 2, t, 0);
    }
    if EvenInteger(x) {
      var k := x.Floor;
      var h := k / 2;
      assert k == 2 * h + k % 2;
      assert x / 2.0 == h as real;
      assert t == h;
    }
  }

  /** `isEven` answers the parity question for every number it accepts. */
  lemma IsEvenIffEvenInteger(x: real)
    ensures IsEven(Number(x)) == Returns(EvenInteger(x))
  {
    RemTwoZeroIffEven(x);
  }

  // ---------------------------------------------------------------------
  // capitalise

  predicate IsLowerAscii(c: char)
  {
    'a' <= c <= 'z'
  }

  /** `toUpperCase` on one character, ASCII letters only. */
  function UpperAscii(c: char): (u: char)
    ensures !IsLowerAscii(u)
    ensures IsLowerAscii(c) ==> u as int == c as int - 32
    ensures !IsLowerAscii(c) ==> u == c
  {
    if IsLowerAscii(c) then (c as int - 32) as char else c
  }

  /** `capitalise(str)`: a non-string or the empty string yields `""`;
      otherwise the first character is upper-cased and the rest kept. */
  function Capitalise(v: JsValue): (r: string)
    ensures !v.Text? || v.str == [] ==> r == []
    ensures v.Text? && v.str != [] ==>
              |r| == |v.str| && r[0] == UpperAscii(v.str[0])
    ensures v.Text? ==> forall i :: 1 <= i < |r| ==> r[i] == v.str[i]
  {
    if !v.Text? || |v.str| == 0 then "" else [UpperAscii(v.str[0])] + v.str[1..]
  }

  /** Capitalising twice is capitalising once. */
  lemma CapitaliseIdempotent(s: string)
    ensures Capitalise(Text(Capitalise(Text(s)))) == Capitalise(Text(s))
  {
    var once := Capitalise(Text(s));
    if s != [] {
      assert once[1..] == s[1..];
    }
  }

  /** A string already starting with something other than a lower-case
      letter (a capital, a digit, a symbol) comes back unchanged. */
  lemma CapitaliseKeepsNonLowerStart(s: string)
    requires s != [] && !IsLowerAscii(s[0])
    ensures Capitalise(Text(s)) == s
  {
    assert [s[0]] + s[1..] == s;
  }

  // ---------------------------------------------------------------------
  // reverseString

  /** `str.split('').reverse().join('')` on a string of characters. */
  function Reverse(s: string): (r: string)
    ensures |r| == |s|
    ensures forall i :: 0 <= i < |s| ==> r[i] == s[|s| - 1 - i]
  {
    if s == [] then [] else Reverse(s[1..]) + [s[0]]
  }

  /** `reverseString(str)`: the reversed string; a non-string throws. */
  function ReverseString(v: JsValue): (r: Result<string>)
    ensures r.Returns? <==> v.Text?
    ensures r.Returns? ==> |r.value| == |v.str|
    ensures r.Returns? ==> forall i :: 0 <= i < |v.str| ==> r.value[i] == v.str[|v.str| - 1 - i]
    ensures r.Throws? ==> r.message == "Input must be a string."
  {
    if !v.Text? then Throws("Input must be a string.") else Returns(Reverse(v.str))
  }

  /** Reversing twice gives back the original string. */
  lemma ReverseInvolution(s: string)
    ensures Reverse(Reverse(s)) == s
  {
    var rr := Reverse(Reverse(s));
    assert forall i :: 0 <= i < |s| ==> rr[i] == s[i];
  }

  /** `reverseString` applied to its own result restores the input. */
  lemma ReverseStringInvolution(s: string)
    ensures ReverseString(Text(s)).Returns?
    ensures ReverseString(Text(ReverseString(Text(s)).value)) == Returns(s)
  {
    ReverseInvolution(s);
  }
}

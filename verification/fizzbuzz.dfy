/**
 The FizzBuzz kata (`fizzbuzz.js`): an integer becomes "Fizz", "Buzz",
 "FizzBuzz" or its own decimal text. The source builds the answer in three
 sequential assignments; `FizzBuzz` follows them step by step and its
 contract states the four classic cases.
 */
module FizzBuzz {
  import opened Js

  /** `fizzBuzz(input)` for an integer input. */
  function FizzBuzz(n: int): (r: string)
    ensures n % 3 == 0 && n % 5 == 0 ==> r == "FizzBuzz"
    ensures n % 3 == 0 && n % 5 != 0 ==> r == "Fizz"
    ensures n % 3 != 0 && n % 5 == 0 ==> r == "Buzz"
    ensures n % 3 != 0 && n % 5 != 0 ==> r == DecimalString(n)
  {
    IntRemZeroIffDivides(n, 3);
    IntRemZeroIffDivides(n, 5);
    var byThree := IntRem(n, 3) == 0;
    var byFive := IntRem(n, 5) == 0;
    var fizz := if byThree then "Fizz" else "";
    var fizzBuzz := if byFive then fizz + "Buzz" else fizz;
    if !byThree && !byFive then DecimalString(n) else fizzBuzz
  }

  /** The answer is never empty. */
  lemma FizzBuzzNonEmpty(n: int)
    ensures |FizzBuzz(n)| > 0
  {
  }

  /** The four cases are told apart by the answer alone: each word is
      produced exactly for its divisibility case, since a decimal text holds
      only digits and a leading minus sign; and a number's text gives the
      number back. */
  lemma FizzBuzzCasesExclusive(n: int)
    ensures FizzBuzz(n) == "FizzBuzz" <==> n % 15 == 0
    ensures FizzBuzz(n) == "Fizz" <==> n % 3 == 0 && n % 5 != 0
    ensures FizzBuzz(n) == "Buzz" <==> n % 3 != 0 && n % 5 == 0
    ensures n % 3 != 0 && n % 5 != 0 ==> ParseDecimal(FizzBuzz(n)) == n
  {
    if n % 3 != 0 && n % 5 != 0 {
      NumberCaseIsNoWord(n);
    }
    FifteenIffThreeAndFive(n);
  }

  /** In the number case the answer is a decimal text, which no word is,
      and it reads back as the input. */
  lemma NumberCaseIsNoWord(n: int)
    requires n % 3 != 0 && n % 5 != 0
    ensures FizzBuzz(n) != "FizzBuzz" && FizzBuzz(n) != "Fizz" && FizzBuzz(n) != "Buzz"
    ensures ParseDecimal(FizzBuzz(n)) == n
  {
    var r := FizzBuzz(n);
    assert !IsDigit(r[0]) ==> r[0] == '-';
    DecimalRoundTrip(n);
  }

  /** 15 divides an integer exactly when both 3 and 5 do. */
  lemma FifteenIffThreeAndFive(n: int)
    ensures n % 15 == 0 <==> n % 3 == 0 && n % 5 == 0
  {
    var q, m := n / 15, n % 15;
    assert n == 15 * q + m;
    assert m == 3 * (m / 3) + m % 3;
    assert 3 * (5 * q + m / 3) == 15 * q + 3 * (m / 3);
    DivModUnique(n, 3, 5 * q + m / 3, m % 3);
    assert m == 5 * (m / 5) + m % 5;
    assert 5 * (3 * q + m / 5) == 15 * q + 5 * (m / 5);
    DivModUnique(n, 5, 3 * q + m / 5, m % 5);
  }

  /** The examples the kata's tests pin down. */
  lemma FizzBuzzExamples()
    ensures FizzBuzz(1) == "1" && FizzBuzz(2) == "2"
    ensures FizzBuzz(3) == "Fizz" && FizzBuzz(5) == "Buzz"
    ensures FizzBuzz(15) == "FizzBuzz"
  {
  }
}

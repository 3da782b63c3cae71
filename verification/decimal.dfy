/** Decimal text of integers, as a JavaScript template literal prints an
    integral number (`${n}`) whose magnitude is below 10^21 and which is a
    safe integer (at most 2^53 - 1), and the inverse reading
    (`parseInt(s, 10)` on such text). Larger numbers print in exponent form
    in JavaScript and are not modelled.
 */
module Decimal {
  import opened Options

  predicate IsDigit(c: char) {
    '0' <= c <= '9'
  }

  predicate AllDigits(s: string) {
    forall i :: 0 <= i < |s| ==> IsDigit(s[i])
  }

  function DigitChar(d: nat): (c: char)
    requires d < 10
    ensures IsDigit(c)
    ensures DigitValue(c) == d
  {
    (('0' as int) + d) as char
  }

  function DigitValue(c: char): nat
    requires IsDigit(c)
  {
    (c as int) - ('0' as int)
  }

  /** The digits of `n`, most significant first, with no leading zero. */
  function Digits(n: nat): (s: string)
    ensures |s| >= 1
    ensures AllDigits(s)
    ensures s[0] == '0' ==> n == 0
    decreases n
  {
    if n < 10 then [DigitChar(n)] else Digits(n / 10) + [DigitChar(n % 10)]
  }

  /** The number a string of digits denotes. */
  function ValueOf(s: string): nat
    requires AllDigits(s)
  {
    if s == [] then 0 else 10 * ValueOf(s[..|s| - 1]) + DigitValue(s[|s| - 1])
  }

  /** Reading the digits of `n` gives `n` back. */
  lemma {:induction false} ValueOfDigits(n: nat)
    ensures ValueOf(Digits(n)) == n
    decreases n
  {
    if n >= 10 {
      var s := Digits(n);
      assert s[..|s| - 1] == Digits(n / 10);
      ValueOfDigits(n / 10);
    }
  }

  /** `${i}` for an integral number `i`: a minus sign for negatives, then the digits. */
  function Show(i: int): (s: string)
    ensures |s| >= 1
    ensures i >= 0 ==> AllDigits(s)
    ensures i < 0 ==> s[0] == '-' && AllDigits(s[1..])
  {
    if i < 0 then "-" + Digits(-i) else Digits(i)
  }

  /** Reads decimal text back: an optional minus sign followed by at least one digit. */
  function Parse(s: string): Option<int> {
    if |s| >= 2 && s[0] == '-' && AllDigits(s[1..]) then Some(-(ValueOf(s[1..]) as int))
    else if |s| >= 1 && AllDigits(s) then Some(ValueOf(s))
    else None
  }

  /** Reading what `Show` prints gives the number back. */
  lemma ParseShow(i: int)
    ensures Parse(Show(i)) == Some(i)
  {
    if i < 0 {
      assert Show(i)[1..] == Digits(-i);
      ValueOfDigits(-i);
    } else {
      ValueOfDigits(i);
    }
  }

  /** Distinct numbers print differently. */
  lemma ShowInjective(i: int, j: int)
    ensures Show(i) == Show(j) ==> i == j
  {
    ParseShow(i);
    ParseShow(j);
  }
}

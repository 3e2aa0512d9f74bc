/** Decimal numerals. */
module Decimal {
  predicate IsDigit(c: char) {
    '0' <= c <= '9'
  }

  function DigitOf(c: char): int {
    c as int - '0' as int
  }

  function Digits(n: nat): (s: string)
    ensures |s| > 0 && forall i :: 0 <= i < |s| ==> IsDigit(s[i])
  {
    if n < 10 then [('0' as int + n) as char] else Digits(n / 10) + [('0' as int + n % 10) as char]
  }

  /** The number a digit string stands for. */
  function Value(s: string): (n: int)
    ensures (forall i :: 0 <= i < |s| ==> IsDigit(s[i])) ==> n >= 0
  {
    if s == "" then 0 else 10 * Value(s[..|s| - 1]) + DigitOf(s[|s| - 1])
  }

  lemma {:induction false} DigitsRead(n: nat)
    ensures Value(Digits(n)) == n
  {
    var s := Digits(n);
    if n >= 10 {
      assert s[..|s| - 1] == Digits(n / 10);
      DigitsRead(n / 10);
    } else {
      assert s[..0] == "";
    }
  }
}

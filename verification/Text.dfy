/** Decimal rendering of integers, as a JavaScript template literal writes them. */
module Text {

  predicate IsDigit(c: char) { '0' <= c <= '9' }

  function DigitOf(n: nat): char
    requires n < 10
  {
    ('0' as int + n) as char
  }

  function Digits(n: nat): string {
    if n < 10 then [DigitOf(n)] else Digits(n / 10) + [DigitOf(n % 10)]
  }

  function IntText(n: int): string {
    if n < 0 then "-" + Digits(-n) else Digits(n)
  }

  lemma {:induction false} DigitsAreDigits(n: nat)
    ensures Digits(n) != [] && forall i :: 0 <= i < |Digits(n)| ==> IsDigit(Digits(n)[i])
  {
    if n < 10 {
    } else {
      DigitsAreDigits(n / 10);
    }
  }

  lemma {:induction false} DigitsInjective(m: nat, n: nat)
    requires Digits(m) == Digits(n)
    ensures m == n
  {
    DigitsAreDigits(m / 10);
    DigitsAreDigits(n / 10);
    var a, b := Digits(m), Digits(n);
    assert a[|a| - 1] == b[|b| - 1];
    assert DigitOf(m % 10) == DigitOf(n % 10);
    if m >= 10 && n >= 10 {
      assert a[..|a| - 1] == Digits(m / 10) && b[..|b| - 1] == Digits(n / 10);
      DigitsInjective(m / 10, n / 10);
    }
  }

  lemma {:induction false} IntTextSign(m: int)
    ensures IntText(m) != [] && (IntText(m)[0] == '-' <==> m < 0)
  {
    if m >= 0 { DigitsAreDigits(m); }
  }

  lemma {:induction false} IntTextInjective(m: int, n: int)
    requires IntText(m) == IntText(n)
    ensures m == n
  {
    IntTextSign(m);
    IntTextSign(n);
    if m < 0 {
      assert IntText(m)[1..] == Digits(-m) && IntText(n)[1..] == Digits(-n);
      DigitsInjective(-m, -n);
    } else {
      DigitsInjective(m, n);
    }
  }

  /** What a string of decimal digits reads as. */
  ghost function DecimalValue(s: string): int {
    if s == "" then 0 else 10 * DecimalValue(s[..|s| - 1]) + (s[|s| - 1] as int - '0' as int)
  }

  lemma {:induction false} DigitsRead(n: nat)
    ensures DecimalValue(Digits(n)) == n
    ensures n > 0 ==> '1' <= Digits(n)[0] <= '9'
    ensures n == 0 ==> Digits(n) == "0"
  {
    var s := Digits(n);
    if n >= 10 {
      DigitsRead(n / 10);
      assert s[..|s| - 1] == Digits(n / 10);
    } else {
      assert s[..0] == "" && DecimalValue(s[..|s| - 1]) == 0;
    }
  }

  /** An integer is written in decimal, without a leading zero and with a sign only when it is negative. */
  lemma {:induction false} IntTextReads(n: int)
    ensures var s := if n < 0 then IntText(n)[1..] else IntText(n);
      && (n < 0 ==> IntText(n)[0] == '-')
      && (forall i :: 0 <= i < |s| ==> '0' <= s[i] <= '9')
      && DecimalValue(s) == (if n < 0 then -n else n) && (n != 0 ==> s != "" && s[0] != '0')
  {
    var m := if n < 0 then -n else n;
    DigitsRead(m);
    DigitsAreDigits(m);
    if n < 0 { assert IntText(n)[1..] == Digits(m); }
  }
}

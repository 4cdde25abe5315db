/** Decimal text of natural numbers. */
module Decimal {

  predicate IsDigit(c: char) { '0' <= c <= '9' }

  predicate AllDigits(s: string) { forall i :: 0 <= i < |s| ==> IsDigit(s[i]) }

  function DigitValue(c: char): (v: int)
    requires IsDigit(c)
    ensures 0 <= v <= 9
  {
    c as int - '0' as int
  }

  function ValueOf(s: string): (n: nat)
    requires AllDigits(s)
  {
    if s == [] then 0 else 10 * ValueOf(s[..|s| - 1]) + DigitValue(s[|s| - 1])
  }

  function Print(n: nat): (s: string)
    ensures s != [] && AllDigits(s)
  {
    var digit := ['0' + (n % 10) as char];
    if n < 10 then digit else Print(n / 10) + digit
  }

  lemma {:induction false} PrintThenRead(n: nat)
    ensures ValueOf(Print(n)) == n
  {
    var digit := '0' + (n % 10) as char;
    if n < 10 {
      assert [digit][..0] == [];
      assert ValueOf([digit]) == 10 * ValueOf([digit][..0]) + DigitValue(digit);
    } else {
      PrintThenRead(n / 10);
      var s := Print(n);
      assert s == Print(n / 10) + [digit];
      assert s[..|s| - 1] == Print(n / 10);
    }
  }

  function PrintInt(n: int): string { if n < 0 then "-" + Print(-n) else Print(n) }

  lemma SignOfPrint(n: int)
    ensures PrintInt(n) != [] && (PrintInt(n)[0] == '-' <==> n < 0)
  {
    if n >= 0 { assert IsDigit(Print(n)[0]); }
  }

  /** No two numbers print alike. */
  lemma PrintIntInjective(a: int, b: int)
    ensures PrintInt(a) == PrintInt(b) <==> a == b
  {
    SignOfPrint(a);
    SignOfPrint(b);
    if a < 0 && b < 0 {
      PrintThenRead(-a);
      PrintThenRead(-b);
      assert PrintInt(a)[1..] == Print(-a) && PrintInt(b)[1..] == Print(-b);
    } else if 0 <= a && 0 <= b {
      PrintThenRead(a);
      PrintThenRead(b);
    }
  }
}

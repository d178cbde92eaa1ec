/** Numbers as `Number.prototype.toString` writes them, in decimal or in base 36. */
module Digits {
  datatype Base = Ten | ThirtySix

  function Digit(d: nat): (c: char)
    requires d < 36
    ensures DigitValue(c) == d && c != '.'
  {
    if d < 10 then ('0' as int + d) as char else ('a' as int + d - 10) as char
  }

  function DigitValue(c: char): int {
    if '0' <= c <= '9' then c as int - '0' as int else c as int - 'a' as int + 10
  }

  function Size(b: Base): nat {
    if b == Ten then 10 else 36
  }

  function Quotient(n: nat, b: Base): (q: nat)
    ensures n >= Size(b) ==> q < n
  {
    if b == Ten then n / 10 else n / 36
  }

  function Remainder(n: nat, b: Base): (r: nat)
    ensures r < Size(b) && n == Quotient(n, b) * Size(b) + r
  {
    if b == Ten then n % 10 else n % 36
  }

  function Numeral(n: nat, b: Base): (s: string)
    ensures s != "" && (|s| == 1 <==> n < Size(b))
  {
    if n < Size(b) then [Digit(n)] else Numeral(Quotient(n, b), b) + [Digit(Remainder(n, b))]
  }

  lemma {:induction false} NumeralHasNoDot(n: nat, b: Base)
    ensures '.' !in Numeral(n, b)
  {
    if n >= Size(b) { NumeralHasNoDot(Quotient(n, b), b); }
  }

  /** Different numbers are written differently. */
  lemma {:induction false} NumeralInjective(m: nat, n: nat, b: Base)
    ensures Numeral(m, b) == Numeral(n, b) <==> m == n
    decreases m
  {
    var s, t := Numeral(m, b), Numeral(n, b);
    if s == t {
      assert DigitValue(s[|s| - 1]) == DigitValue(t[|t| - 1]);
      if m >= Size(b) {
        assert n >= Size(b);
        assert s[..|s| - 1] == Numeral(Quotient(m, b), b) && t[..|t| - 1] == Numeral(Quotient(n, b), b);
        NumeralInjective(Quotient(m, b), Quotient(n, b), b);
      }
    }
  }

  /** Reading a numeral back, digit by digit. */
  function Value(s: string, b: Base): int {
    if s == "" then 0 else Value(s[..|s| - 1], b) * Size(b) + DigitValue(s[|s| - 1])
  }

  /** A numeral has the value of its number, each digit is below the base, and there is no leading zero. */
  lemma {:induction false} NumeralValue(n: nat, b: Base)
    ensures var s := Numeral(n, b);
            && Value(s, b) == n
            && (forall i | 0 <= i < |s| :: 0 <= DigitValue(s[i]) < Size(b))
            && (n > 0 ==> DigitValue(s[0]) > 0)
  {
    var s := Numeral(n, b);
    if n < Size(b) {
      assert s[..0] == "";
      assert Value("", b) == 0;
    } else {
      NumeralValue(Quotient(n, b), b);
      assert s[..|s| - 1] == Numeral(Quotient(n, b), b);
    }
  }
}

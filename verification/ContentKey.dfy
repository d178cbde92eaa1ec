/** The key that tells inline contents apart: their length and a 32-bit hash of their code units. */
module ContentKey {
  import opened Digits

  const TWO_32: nat := 0x1_0000_0000

  /** Conversion to a signed 32-bit integer, as the bit operators of JavaScript do it. */
  function ToInt32(x: int): (r: int)
    ensures -0x8000_0000 <= r < 0x8000_0000 && r % TWO_32 == x % TWO_32
  {
    (x + 0x8000_0000) % TWO_32 - 0x8000_0000
  }

  type Units = s: seq<int> | forall i | 0 <= i < |s| :: 0 <= s[i] < 0x1_0000

  function Pow33(n: nat): nat {
    if n == 0 then 1 else 33 * Pow33(n - 1)
  }

  /** The sum of `s[i] * 33^(n - 1 - i)`. */
  function Sum(s: seq<int>): int {
    if s == [] then 0 else s[0] * Pow33(|s| - 1) + Sum(s[1..])
  }

  /** The unbounded value that the 32-bit loop follows. */
  function Poly(s: seq<int>): int {
    5381 * Pow33(|s|) + Sum(s)
  }

  lemma {:induction false} SumSnoc(s: seq<int>, c: int)
    ensures Sum(s + [c]) == 33 * Sum(s) + c
    decreases |s|
  {
    if s == [] {
      assert [c][1..] == [];
      assert s + [c] == [c];
      assert Sum([c]) == c * Pow33(0) + Sum([]);
    } else {
      assert (s + [c])[1..] == s[1..] + [c];
      SumSnoc(s[1..], c);
      assert Pow33(|s|) == 33 * Pow33(|s| - 1);
      MulTriple(s[0], Pow33(|s| - 1));
    }
  }

  lemma MulTriple(a: int, p: int)
    ensures a * (33 * p) == 33 * (a * p)
  {
  }

  lemma PolySnoc(s: seq<int>, c: int)
    ensures Poly(s + [c]) == 33 * Poly(s) + c
  {
    SumSnoc(s, c);
  }

  lemma AddMultiple(x: int, k: int)
    ensures (x + k * TWO_32) % TWO_32 == x % TWO_32
  {
  }

  lemma Difference(x: int, y: int) returns (k: int)
    requires x % TWO_32 == y % TWO_32
    ensures x == y + k * TWO_32
  {
    k := x / TWO_32 - y / TWO_32;
  }

  /** One turn of the loop follows one step of the unbounded value. */
  lemma ShiftAdd(h: int, p: int, c: int)
    requires h % TWO_32 == p % TWO_32
    ensures ToInt32(ToInt32(h * 32) + h + c) % TWO_32 == (33 * p + c) % TWO_32
  {
    var j := Difference(h, p);
    var k := Difference(ToInt32(h * 32), h * 32);
    assert ToInt32(h * 32) + h + c == 33 * p + c + (33 * j + k) * TWO_32;
    AddMultiple(33 * p + c, 33 * j + k);
  }

  /** The loop in signed 32-bit arithmetic, and its result as an unsigned number. */
  method HashUnits(s: Units) returns (h: nat)
    ensures h == Poly(s) % TWO_32
  {
    var h2 := 5381;
    assert s[..0] == [] && Poly([]) == 5381;
    for i := 0 to |s|
      invariant h2 % TWO_32 == Poly(s[..i]) % TWO_32
    {
      assert s[..i + 1] == s[..i] + [s[i]];
      PolySnoc(s[..i], s[i]);
      ShiftAdd(h2, Poly(s[..i]), s[i]);
      h2 := ToInt32(ToInt32(h2 * 32) + h2 + s[i]);
    }
    assert s[..|s|] == s;
    h := h2 % TWO_32;
  }

  function Key(s: Units): string {
    Numeral(|s|, Ten) + "." + Numeral(Poly(s) % TWO_32, ThirtySix)
  }

  method MakeKey(s: Units) returns (key: string)
    ensures key == Key(s)
  {
    var h := HashUnits(s);
    key := Numeral(|s|, Ten) + "." + Numeral(h, ThirtySix);
  }

  lemma {:induction false} DotSplits(a: string, b: string, x: string, y: string)
    requires '.' !in a && '.' !in b && a + "." + x == b + "." + y
    ensures a == b && x == y
    decreases |a|
  {
    var s, t := a + "." + x, b + "." + y;
    if a == "" || b == "" {
      assert s[|a|] == '.' && t[|b|] == '.';
      assert s[0] == t[0];
      assert a == b == "";
      assert x == s[1..] && y == t[1..];
    } else {
      assert s[0] == a[0] && t[0] == b[0];
      assert s[1..] == a[1..] + "." + x && t[1..] == b[1..] + "." + y;
      DotSplits(a[1..], b[1..], x, y);
      assert a == [a[0]] + a[1..] && b == [b[0]] + b[1..];
    }
  }

  /** Two keys are equal exactly when the contents have the same length and the same hash. */
  lemma KeyExactly(s: Units, t: Units)
    ensures Key(s) == Key(t) <==> |s| == |t| && Poly(s) % TWO_32 == Poly(t) % TWO_32
  {
    if Key(s) == Key(t) {
      NumeralHasNoDot(|s|, Ten);
      NumeralHasNoDot(|t|, Ten);
      DotSplits(Numeral(|s|, Ten), Numeral(|t|, Ten), Numeral(Poly(s) % TWO_32, ThirtySix), Numeral(Poly(t) % TWO_32, ThirtySix));
      NumeralInjective(|s|, |t|, Ten);
      NumeralInjective(Poly(s) % TWO_32, Poly(t) % TWO_32, ThirtySix);
    }
  }

  /** The keys of nothing and of one letter `a`, digit by digit. */
  lemma KeyExamples()
    ensures Key([]) == "0.45h" && Key([97]) == "1.3t3a"
  {
    assert Poly([]) == 5381 && [97][1..] == [] && Poly([97]) == 177670;
    assert Numeral(4, ThirtySix) == "4" && Numeral(149, ThirtySix) == "4" + "5" && Numeral(5381, ThirtySix) == "45" + "h";
    assert Numeral(3, ThirtySix) == "3" && Numeral(137, ThirtySix) == "3" + "t";
    assert Numeral(4935, ThirtySix) == "3t" + "3" && Numeral(177670, ThirtySix) == "3t3" + "a";
    assert Numeral(0, Ten) == "0" && Numeral(1, Ten) == "1";
  }
}

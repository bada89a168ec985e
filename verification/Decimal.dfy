/** Decimal notation and the 32-bit integers it is decoded into. */
module Decimal {

  predicate IsDigit(c: char) { '0' <= c <= '9' }

  predicate AllDigits(s: string) { forall i :: 0 <= i < |s| ==> IsDigit(s[i]) }

  function DigitValue(c: char): nat
    requires IsDigit(c)
  {
    c as int - '0' as int
  }

  function DigitChar(d: nat): (c: char)
    requires d < 10
    ensures IsDigit(c) && DigitValue(c) == d
  {
    ('0' as int + d) as char
  }

  /** What printf's %d writes for a non-negative number. */
  function Print(n: nat): (s: string)
    ensures s != [] && AllDigits(s)
  {
    if n < 10 then [DigitChar(n)] else Print(n / 10) + [DigitChar(n % 10)]
  }

  /** What printf's %d writes. */
  function PrintInt(n: int): string {
    if n < 0 then "-" + Print(-n) else Print(n)
  }

  function Value(s: string): nat
    requires AllDigits(s)
  {
    if s == [] then 0 else Value(s[..|s| - 1]) * 10 + DigitValue(s[|s| - 1])
  }

  function Pow10(k: nat): nat {
    if k == 0 then 1 else 10 * Pow10(k - 1)
  }

  /** Reading back what was printed gives the number. */
  lemma {:induction false} PrintRoundTrip(n: nat)
    ensures Value(Print(n)) == n
  {
    if n < 10 {
      assert Print(n)[..0] == [];
    } else {
      PrintRoundTrip(n / 10);
      assert Print(n)[..|Print(n)| - 1] == Print(n / 10);
    }
  }

  /** The printer writes at most k digits exactly for the numbers below the k-th power of ten. */
  lemma {:induction false} PrintLengthIff(n: nat, k: nat)
    requires k > 0
    ensures |Print(n)| <= k <==> n < Pow10(k)
  {
    if k == 1 {
      assert Pow10(1) == 10 * Pow10(0);
    } else if n < 10 {
      Pow10Positive(k - 1);
    } else {
      PrintLengthIff(n / 10, k - 1);
    }
  }

  lemma Pow10Positive(k: nat)
    ensures Pow10(k) >= 1
  {
  }

  lemma {:induction false} ValueBound(s: string)
    requires AllDigits(s)
    ensures Value(s) < Pow10(|s|)
  {
    if s != [] {
      ValueBound(s[..|s| - 1]);
    }
  }

  /** Prepending a digit adds it at the weight of the digits already there. */
  lemma {:induction false} ValuePrepend(c: char, s: string)
    requires IsDigit(c) && AllDigits(s)
    ensures Value([c] + s) == DigitValue(c) * Pow10(|s|) + Value(s)
  {
    var t := [c] + s;
    if s == [] {
      assert t[..0] == [];
    } else {
      var n := |s| - 1;
      assert t[..|t| - 1] == [c] + s[..n];
      ValuePrepend(c, s[..n]);
      calc {
        Value(t);
        (DigitValue(c) * Pow10(n) + Value(s[..n])) * 10 + DigitValue(s[n]);
        { Distribute(DigitValue(c), Pow10(n)); }
        DigitValue(c) * Pow10(n + 1) + Value(s);
      }
    }
  }

  lemma Distribute(a: nat, p: nat)
    ensures a * p * 10 == a * (10 * p)
  {
  }

  // ---------------------------------------------------------------- 32-bit integers

  const TWO32: int := 0x1_0000_0000

  predicate FitsInt32(x: int) { -0x8000_0000 <= x < 0x8000_0000 }

  /** The two's complement result of 32-bit arithmetic. */
  function Wrap32(x: int): (r: int)
    ensures FitsInt32(r)
    ensures FitsInt32(x) ==> r == x
  {
    (x + 0x8000_0000) % TWO32 - 0x8000_0000
  }

  lemma WrapCongruent(x: int) returns (q: int)
    ensures Wrap32(x) == x + q * TWO32
  {
    q := -((x + 0x8000_0000) / TWO32);
  }

  lemma WrapUnique(x: int, q: int)
    ensures Wrap32(x + q * TWO32) == Wrap32(x)
  {
    var r := (x + 0x8000_0000) % TWO32;
    var d := (x + 0x8000_0000) / TWO32;
    assert x + q * TWO32 + 0x8000_0000 == (d + q) * TWO32 + r;
  }

  /** Accumulating a digit in wrapping arithmetic gives the wrapped result of exact arithmetic. */
  lemma WrapMulAdd(acc: int, c: int, pos: int)
    ensures Wrap32(Wrap32(acc) + Wrap32(c * Wrap32(pos))) == Wrap32(acc + c * pos)
  {
    var p := WrapCongruent(pos);
    var a := WrapCongruent(acc);
    var m := WrapCongruent(c * Wrap32(pos));
    calc {
      c * Wrap32(pos);
      c * (pos + p * TWO32);
      c * pos + (c * p) * TWO32;
    }
    WrapUnique(acc + c * pos, a + c * p + m);
    assert Wrap32(acc) + Wrap32(c * Wrap32(pos)) == acc + c * pos + (a + c * p + m) * TWO32;
  }

  lemma WrapMul10(pos: int)
    ensures Wrap32(Wrap32(pos) * 10) == Wrap32(pos * 10)
  {
    var p := WrapCongruent(pos);
    WrapUnique(pos * 10, p * 10);
  }
}

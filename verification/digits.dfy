/** Decimal digit vectors, least-significant digit first, and their value. */
module Digits {

  /** 10^n */
  function Pow10(n: nat): (r: nat)
    ensures r >= 1
  {
    if n == 0 then 1 else 10 * Pow10(n - 1)
  }

  lemma {:induction false} Pow10Add(m: nat, n: nat)
    ensures Pow10(m + n) == Pow10(m) * Pow10(n)
  {
    if m > 0 {
      Pow10Add(m - 1, n);
      assert Pow10(m + n) == 10 * Pow10(m - 1 + n);
    }
  }

  lemma Pow10Values()
    ensures Pow10(5) == 100000 && Pow10(10) == 10000000000
  {
    assert Pow10(0) == 1;
    assert Pow10(1) == 10;
    assert Pow10(2) == 100;
    assert Pow10(3) == 1000;
    assert Pow10(4) == 10000;
    assert Pow10(5) == 100000;
    assert Pow10(6) == 1000000;
    assert Pow10(7) == 10000000;
    assert Pow10(8) == 100000000;
    assert Pow10(9) == 1000000000;
  }

  lemma {:induction false} Pow10Monotone(m: nat, n: nat)
    requires m <= n
    ensures Pow10(m) <= Pow10(n)
  {
    if m < n {
      Pow10Monotone(m, n - 1);
    }
  }

  predicate IsDigit(d: int) { 0 <= d <= 9 }

  predicate IsDigits(s: seq<int>) { forall i :: 0 <= i < |s| ==> IsDigit(s[i]) }

  /** A vector holds bytes (the element type of the source's digit vectors). */
  predicate IsBytes(s: seq<int>) { forall i :: 0 <= i < |s| ==> 0 <= s[i] < 256 }

  /** The number a digit vector spells: sum of s[i] * 10^i. */
  ghost function Val(s: seq<int>): int
  {
    if s == [] then 0 else s[0] + 10 * Val(s[1..])
  }

  /** i zero digits (the positional shift of a multiplication row). */
  function Zeros(n: nat): (z: seq<int>)
    ensures |z| == n && IsDigits(z)
    ensures forall i :: 0 <= i < n ==> z[i] == 0
  {
    if n == 0 then [] else Zeros(n - 1) + [0]
  }

  lemma {:induction false} ValBounds(s: seq<int>)
    requires IsDigits(s)
    ensures 0 <= Val(s) < Pow10(|s|)
  {
    if s != [] {
      ValBounds(s[1..]);
    }
  }

  lemma {:induction false} ValNonNegative(s: seq<int>)
    requires forall i :: 0 <= i < |s| ==> 0 <= s[i]
    ensures 0 <= Val(s)
  {
    if s != [] {
      ValNonNegative(s[1..]);
    }
  }

  /** Concatenation places the second vector above the first. */
  lemma {:induction false} ValConcat(s: seq<int>, t: seq<int>)
    ensures Val(s + t) == Val(s) + Pow10(|s|) * Val(t)
  {
    if s == [] {
      assert s + t == t;
    } else {
      assert (s + t)[1..] == s[1..] + t;
      ValConcat(s[1..], t);
      calc {
        Val(s + t);
        s[0] + 10 * Val(s[1..] + t);
        s[0] + 10 * (Val(s[1..]) + Pow10(|s| - 1) * Val(t));
        s[0] + 10 * Val(s[1..]) + (10 * Pow10(|s| - 1)) * Val(t);
        Val(s) + Pow10(|s|) * Val(t);
      }
    }
  }

  lemma ValAppend(s: seq<int>, d: int)
    ensures Val(s + [d]) == Val(s) + d * Pow10(|s|)
  {
    assert [d][1..] == [];
    var one := Val([d]);
    assert one == d;
    ValConcat(s, [d]);
    assert Val(s + [d]) == Val(s) + Pow10(|s|) * one;
  }

  lemma MulDistributes(a: int, b: int, m: int, q: int, t: int, p: int, p10: int)
    requires b == a + m * p && p10 == 10 * p && t == m + 10 * q
    ensures b + q * p10 == a + t * p
  {
  }

  /** A digit m appended with q pending above it adds t = m + 10q at the old top position. */
  lemma ValAppendCarry(prev: seq<int>, m: int, q: int, t: int)
    requires t == m + 10 * q
    ensures Val(prev + [m]) + q * Pow10(|prev| + 1) == Val(prev) + t * Pow10(|prev|)
  {
    ValAppend(prev, m);
    MulDistributes(Val(prev), Val(prev + [m]), m, q, t, Pow10(|prev|), Pow10(|prev| + 1));
  }

  lemma ValAppendTwo(prev: seq<int>, m: int, q: int, t: int)
    requires t == m + 10 * q
    ensures Val(prev + [m, q]) == Val(prev) + t * Pow10(|prev|)
  {
    assert prev + [m, q] == (prev + [m]) + [q];
    ValAppend(prev + [m], q);
    ValAppendCarry(prev, m, q, t);
  }

  lemma {:induction false} ValZeros(n: nat)
    ensures Val(Zeros(n)) == 0
  {
    if n > 0 {
      ValZeros(n - 1);
      ValAppend(Zeros(n - 1), 0);
    }
  }

  /** Digit vectors that differ in a position both of them have spell different values. */
  lemma {:induction false} DigitDiffers(s: seq<int>, t: seq<int>, k: nat)
    requires IsDigits(s) && IsDigits(t) && k < |s| && k < |t| && s[k] != t[k]
    ensures Val(s) != Val(t)
  {
    if k > 0 && s[0] == t[0] {
      DigitDiffers(s[1..], t[1..], k - 1);
    }
  }

  /**
   * The digits of v, least significant first, with no leading zero; the
   * empty vector for 0 (what vectorize_into_digits appends).
   */
  function DigitsOf(v: nat): seq<int>
  {
    if v == 0 then [] else [v % 10] + DigitsOf(v / 10)
  }

  lemma {:induction false} DigitsOfSpells(v: nat)
    ensures IsDigits(DigitsOf(v)) && Val(DigitsOf(v)) == v
    ensures DigitsOf(v) == [] <==> v == 0
    ensures v > 0 ==> DigitsOf(v)[|DigitsOf(v)| - 1] != 0
  {
    if v > 0 {
      DigitsOfSpells(v / 10);
      assert DigitsOf(v)[1..] == DigitsOf(v / 10);
    }
  }

  /** A value of two or more digits: its two lowest digits are the units and the tens. */
  lemma DigitsOfLowTwo(v: nat)
    requires v >= 10
    ensures |DigitsOf(v)| >= 2 && DigitsOf(v)[0] == v % 10 && DigitsOf(v)[1] == (v / 10) % 10
  {
    assert DigitsOf(v) == [v % 10] + DigitsOf(v / 10);
    assert DigitsOf(v / 10) == [(v / 10) % 10] + DigitsOf(v / 10 / 10);
  }

  lemma {:induction false} DigitsOfLength(v: nat, n: nat)
    requires v < Pow10(n)
    ensures |DigitsOf(v)| <= n
  {
    if v > 0 {
      DigitsOfLength(v / 10, n - 1);
    }
  }

  /** The lowest n decimal digits of v, zero-padded. */
  function LowDigits(v: nat, n: nat): (s: seq<int>)
    ensures |s| == n
  {
    if n == 0 then [] else [v % 10] + LowDigits(v / 10, n - 1)
  }

  /** v with its n lowest decimal digits dropped. */
  function Shifted(v: nat, n: nat): nat
  {
    if n == 0 then v else Shifted(v / 10, n - 1)
  }

  lemma {:induction false} ShiftedStep(v: nat, n: nat)
    ensures Shifted(v, n + 1) == Shifted(v, n) / 10
  {
    if n > 0 {
      ShiftedStep(v / 10, n - 1);
    }
  }

  lemma {:induction false} LowDigitsSnoc(v: nat, n: nat)
    ensures LowDigits(v, n + 1) == LowDigits(v, n) + [Shifted(v, n) % 10]
  {
    if n > 0 {
      LowDigitsSnoc(v / 10, n - 1);
    }
  }

  lemma {:induction false} MulAtLeast(d: int, k: int)
    requires d > 0 && k >= 1
    ensures d * k >= d
  {
    if k > 1 {
      MulAtLeast(d, k - 1);
      assert d * k == d * (k - 1) + d;
    }
  }

  /** Division is determined by a quotient and a remainder below the divisor. */
  lemma DivUnique(v: int, d: int, q: int, r: int)
    requires d > 0 && 0 <= r < d && v == d * q + r
    ensures v / d == q
  {
    var q', r' := v / d, v % d;
    assert v == d * q' + r';
    if q' > q {
      assert d * q' == d * q + d * (q' - q);
      MulAtLeast(d, q' - q);
    } else if q' < q {
      assert d * q == d * q' + d * (q - q');
      MulAtLeast(d, q - q');
    }
  }

  /** Taking as many low digits as v has gives back its digit vector. */
  lemma {:induction false} LowDigitsOfDigits(v: nat)
    ensures LowDigits(v, |DigitsOf(v)|) == DigitsOf(v)
  {
    if v > 0 {
      LowDigitsOfDigits(v / 10);
    }
  }

  function Reversed(s: seq<int>): (r: seq<int>)
    ensures |r| == |s|
  {
    if s == [] then [] else Reversed(s[1..]) + [s[0]]
  }

  lemma {:induction false} ReversedAt(s: seq<int>, k: nat)
    requires k < |s|
    ensures Reversed(s)[k] == s[|s| - 1 - k]
  {
    if k < |s| - 1 {
      ReversedAt(s[1..], k);
    }
  }

  lemma {:induction false} ReversedSnoc(s: seq<int>, d: int)
    ensures Reversed(s + [d]) == [d] + Reversed(s)
  {
    if s != [] {
      assert (s + [d])[1..] == s[1..] + [d];
      ReversedSnoc(s[1..], d);
    } else {
      assert s + [d] == [d];
    }
  }

  lemma ReversedDigits(s: seq<int>)
    requires IsDigits(s)
    ensures IsDigits(Reversed(s))
  {
    forall k | 0 <= k < |s| ensures IsDigit(Reversed(s)[k]) {
      ReversedAt(s, k);
    }
  }
}

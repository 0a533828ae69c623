/**
 * Powers of two, the floor of log2, the greedy (largest-first) binary
 * decomposition of an exponent, and integer powers.
 */
module PowersOfTwo {

  function Pow2(n: nat): (r: nat)
    ensures r >= 1
  {
    if n == 0 then 1 else 2 * Pow2(n - 1)
  }

  lemma Pow2Values()
    ensures Pow2(16) == 65536 && Pow2(17) == 131072
  {
    assert Pow2(0) == 1;
    assert Pow2(1) == 2;
    assert Pow2(2) == 4;
    assert Pow2(3) == 8;
    assert Pow2(4) == 16;
    assert Pow2(5) == 32;
    assert Pow2(6) == 64;
    assert Pow2(7) == 128;
    assert Pow2(8) == 256;
    assert Pow2(9) == 512;
    assert Pow2(10) == 1024;
    assert Pow2(11) == 2048;
    assert Pow2(12) == 4096;
    assert Pow2(13) == 8192;
    assert Pow2(14) == 16384;
    assert Pow2(15) == 32768;
  }

  lemma {:induction false} Pow2Monotone(m: nat, n: nat)
    requires m <= n
    ensures Pow2(m) <= Pow2(n)
  {
    if m < n {
      Pow2Monotone(m, n - 1);
    }
  }

  /** Floor of log2 v: the position of the top set bit. */
  function Log2(v: nat): (e: nat)
    requires v >= 1
    ensures Pow2(e) <= v < Pow2(e + 1)
  {
    if v == 1 then 0 else 1 + Log2(v / 2)
  }

  /** The bit position of a value is fixed by the bracketing powers of two. */
  lemma Log2Unique(v: nat, e: nat)
    requires Pow2(e) <= v < Pow2(e + 1)
    ensures e == Log2(v)
  {
    var k := Log2(v);
    if e < k {
      Pow2Monotone(e + 1, k);
    } else if k < e {
      Pow2Monotone(k + 1, e);
    }
  }

  /**
   * The greedy decomposition of v: repeatedly peel the largest power of two
   * not exceeding what is left, yielding bit positions largest first.
   */
  function Bits(v: nat): seq<nat>
    decreases v
  {
    if v == 0 then [] else [Log2(v)] + Bits(v - Pow2(Log2(v)))
  }

  /** Appending the top bit to a prefix of the decomposition extends the prefix by one. */
  lemma BitsStep(done: seq<nat>, v: nat, e: nat, rest: nat)
    requires v >= 1 && e == Log2(v) && rest == v - Pow2(e)
    ensures done + Bits(v) == (done + [e]) + Bits(rest)
  {
    assert Bits(v) == [e] + Bits(rest);
  }

  function SumPow2(bits: seq<nat>): nat
  {
    if bits == [] then 0 else Pow2(bits[0]) + SumPow2(bits[1..])
  }

  predicate StrictlyDecreasing(bits: seq<nat>)
  {
    forall i, j :: 0 <= i < j < |bits| ==> bits[i] > bits[j]
  }

  /**
   * The decomposition is complete (the powers add up to v), its positions
   * strictly decrease, and all lie below the bound of v.
   */
  lemma {:induction false} BitsDecompose(v: nat, bound: nat)
    requires v < Pow2(bound)
    ensures SumPow2(Bits(v)) == v
    ensures StrictlyDecreasing(Bits(v))
    ensures forall i :: 0 <= i < |Bits(v)| ==> Bits(v)[i] < bound
  {
    if v > 0 {
      var e := Log2(v);
      var rest := v - Pow2(e);
      if bound <= e {
        Pow2Monotone(bound, e);
      }
      BitsDecompose(rest, e);
      assert Bits(v) == [e] + Bits(rest);
    }
  }

  /** The powers of a concatenation add up to those of its two parts. */
  lemma {:induction false} SumPow2Concat(a: seq<nat>, b: seq<nat>)
    ensures SumPow2(a + b) == SumPow2(a) + SumPow2(b)
  {
    if a != [] {
      assert (a + b)[1..] == a[1..] + b;
      SumPow2Concat(a[1..], b);
    } else {
      assert a + b == b;
    }
  }

  /**
   * When the positions already used, followed by the decomposition of what is
   * left, make up the decomposition of v, the powers used so far plus what is
   * left add up to v.
   */
  lemma AppliedSum(applied: seq<nat>, left: nat, v: nat, bound: nat)
    requires left <= v < Pow2(bound) && applied + Bits(left) == Bits(v)
    ensures SumPow2(applied) + left == v
  {
    BitsDecompose(v, bound);
    BitsDecompose(left, bound);
    SumPow2Concat(applied, Bits(left));
  }

  function Pow(x: int, n: nat): int
  {
    if n == 0 then 1 else x * Pow(x, n - 1)
  }

  lemma {:induction false} PowAdd(x: int, m: nat, n: nat)
    ensures Pow(x, m + n) == Pow(x, m) * Pow(x, n)
  {
    if m > 0 {
      PowAdd(x, m - 1, n);
      assert Pow(x, m + n) == x * Pow(x, m - 1 + n);
    }
  }

  /** Squaring x^(2^i) gives x^(2^(i+1)). */
  lemma PowSquare(x: int, i: nat)
    ensures Pow(x, Pow2(i + 1)) == Pow(x, Pow2(i)) * Pow(x, Pow2(i))
  {
    PowAdd(x, Pow2(i), Pow2(i));
  }
}

/**
 * The square-and-multiply schedule of perform_exponentiation, stated over
 * any digit-vector multiplication: the doubling table a, a^2, a^4, ... and
 * the fold of one table entry per step of the greedy binary decomposition of
 * the exponent into an accumulator that starts at 1.
 */
module SquareLadder {
  import opened Digits
  import opened PowersOfTwo
  import opened LongMultiplication

  type Multiply = (seq<int>, seq<int>) -> seq<int>

  /** The doubling table: entry 0 is a itself and entry i is entry i - 1 multiplied by itself. */
  function Ladder(mul: Multiply, a: seq<int>, k: nat): (table: seq<seq<int>>)
    ensures |table| == k + 1 && table[0] == a
  {
    if k == 0 then [a]
    else
      var prev := Ladder(mul, a, k - 1);
      prev + [mul(prev[k - 1], prev[k - 1])]
  }

  /** The top bit of a value below 2^n lies below n. */
  lemma Log2Below(v: nat, n: nat)
    requires 1 <= v < Pow2(n)
    ensures Log2(v) < n
  {
    if Log2(v) >= n {
      Pow2Monotone(n, Log2(v));
    }
  }

  /**
   * Fold the table into acc along the greedy decomposition of v: multiply by
   * the entry at the top bit of v, clear that bit, repeat until v is 0.
   */
  function Combine(mul: Multiply, acc: seq<int>, table: seq<seq<int>>, v: nat): seq<int>
    requires v < Pow2(|table|)
    decreases v
  {
    if v == 0 then acc
    else
      var e := Log2(v);
      Log2Below(v, |table|);
      Combine(mul, mul(acc, table[e]), table, v - Pow2(e))
  }

  /** One step of the fold: multiply by the entry at the top bit e of v, then fold the rest. */
  lemma CombineStep(mul: Multiply, acc: seq<int>, next: seq<int>, table: seq<seq<int>>, v: nat, e: nat, rest: nat)
    requires 1 <= v < Pow2(|table|) && e == Log2(v) && rest == v - Pow2(e)
    requires e < |table| && next == mul(acc, table[e])
    ensures Combine(mul, acc, table, v) == Combine(mul, next, table, rest)
  {
  }

  /**
   * The digits perform_exponentiation leaves in state for base digits a and
   * exponent b: a itself for exponents 0 and 1, otherwise the fold of the
   * table up to the top bit of b into [1].
   */
  function Exponentiate(mul: Multiply, a: seq<int>, b: nat): seq<int>
  {
    if b == 0 || Log2(b) == 0 then a
    else Combine(mul, [1], Ladder(mul, a, Log2(b)), b)
  }

  /** mul is exact on x and y: it yields a digit vector spelling val(x) * val(y). */
  ghost predicate ExactOn(mul: Multiply, x: seq<int>, y: seq<int>)
  {
    IsDigits(mul(x, y)) && Val(mul(x, y)) == Val(x) * Val(y)
  }

  /** Every squaring that builds the table is exact. */
  ghost predicate LadderExact(mul: Multiply, a: seq<int>, k: nat)
  {
    forall i :: 0 <= i < k ==> ExactOn(mul, Ladder(mul, a, k)[i], Ladder(mul, a, k)[i])
  }

  /** Every multiplication of the fold is exact. */
  ghost predicate CombineExact(mul: Multiply, acc: seq<int>, table: seq<seq<int>>, v: nat)
    requires v < Pow2(|table|)
    decreases v
  {
    v == 0 ||
    (var e := Log2(v);
     Log2Below(v, |table|);
     ExactOn(mul, acc, table[e]) && CombineExact(mul, mul(acc, table[e]), table, v - Pow2(e)))
  }

  /** Every multiplication the exponentiation performs is exact. */
  ghost predicate EngineExact(mul: Multiply, a: seq<int>, b: nat)
  {
    b == 0 || Log2(b) == 0 ||
    (LadderExact(mul, a, Log2(b)) && CombineExact(mul, [1], Ladder(mul, a, Log2(b)), b))
  }

  /** mul is exact on every pair of digit vectors. */
  ghost predicate AlwaysExact(mul: Multiply)
  {
    forall x, y :: IsDigits(x) && IsDigits(y) ==> ExactOn(mul, x, y)
  }

  /** A shorter table is a prefix of a longer one. */
  lemma {:induction false} LadderPrefix(mul: Multiply, a: seq<int>, j: nat, k: nat)
    requires j <= k
    ensures Ladder(mul, a, k)[..j + 1] == Ladder(mul, a, j)
  {
    if j < k {
      LadderPrefix(mul, a, j, k - 1);
      var prev := Ladder(mul, a, k - 1);
      assert Ladder(mul, a, k)[..k] == prev;
      assert Ladder(mul, a, k)[..j + 1] == prev[..j + 1];
    } else {
      assert Ladder(mul, a, k)[..k + 1] == Ladder(mul, a, k);
    }
  }

  lemma SquareValue(x: seq<int>, sq: seq<int>, v: int, A: int, i: nat)
    requires Val(x) == v && v == Pow(A, Pow2(i)) && Val(sq) == Val(x) * Val(x)
    ensures Val(sq) == Pow(A, Pow2(i + 1))
  {
    PowSquare(A, i);
  }

  /** While the squarings are exact, table entry i is a digit vector spelling val(a)^(2^i). */
  lemma {:induction false} LadderValue(mul: Multiply, a: seq<int>, k: nat)
    requires IsDigits(a) && LadderExact(mul, a, k)
    ensures forall i :: 0 <= i <= k ==>
      IsDigits(Ladder(mul, a, k)[i]) && Val(Ladder(mul, a, k)[i]) == Pow(Val(a), Pow2(i))
  {
    var table := Ladder(mul, a, k);
    if k == 0 {
      assert Pow(Val(a), Pow2(0)) == Val(a) by { assert Pow2(0) == 1; }
    } else {
      var prev := Ladder(mul, a, k - 1);
      assert table[..k] == prev;
      assert LadderExact(mul, a, k - 1) by {
        forall i | 0 <= i < k - 1
          ensures ExactOn(mul, prev[i], prev[i])
        {
          assert prev[i] == table[i];
        }
      }
      LadderValue(mul, a, k - 1);
      assert ExactOn(mul, table[k - 1], table[k - 1]);
      SquareValue(prev[k - 1], table[k], Val(prev[k - 1]), Val(a), k - 1);
      forall i | 0 <= i <= k
        ensures IsDigits(table[i]) && Val(table[i]) == Pow(Val(a), Pow2(i))
      {
        if i < k {
          assert table[i] == prev[i];
        }
      }
    }
  }

  lemma FoldStepValue(acc: int, entry: int, next: int, rest: int, A: int, e: nat, v: nat)
    requires Pow2(e) <= v
    requires next == acc * entry && entry == Pow(A, Pow2(e))
    requires rest == next * Pow(A, v - Pow2(e))
    ensures rest == acc * Pow(A, v)
  {
    PowAdd(A, Pow2(e), v - Pow2(e));
  }

  /** A table of digit vectors spelling A^(2^i). */
  ghost predicate PowerTable(table: seq<seq<int>>, A: int)
  {
    forall i :: 0 <= i < |table| ==> IsDigits(table[i]) && Val(table[i]) == Pow(A, Pow2(i))
  }

  /** While the fold is exact over a table of powers of A, it multiplies acc by A^v. */
  lemma {:induction false} CombineValue(mul: Multiply, acc: seq<int>, table: seq<seq<int>>, v: nat, A: int)
    requires v < Pow2(|table|) && IsDigits(acc) && PowerTable(table, A)
    requires CombineExact(mul, acc, table, v)
    ensures IsDigits(Combine(mul, acc, table, v))
    ensures Val(Combine(mul, acc, table, v)) == Val(acc) * Pow(A, v)
    decreases v
  {
    if v == 0 {
      assert Pow(A, 0) == 1;
    } else {
      var e := Log2(v);
      Log2Below(v, |table|);
      var next := mul(acc, table[e]);
      assert ExactOn(mul, acc, table[e]);
      CombineValue(mul, next, table, v - Pow2(e), A);
      assert Combine(mul, acc, table, v) == Combine(mul, next, table, v - Pow2(e));
      FoldStepValue(Val(acc), Val(table[e]), Val(next), Val(Combine(mul, acc, table, v)), A, e, v);
    }
  }

  /** While every multiplication is exact, the exponentiation spells val(a)^b for every exponent b >= 1. */
  lemma ExponentiateValue(mul: Multiply, a: seq<int>, b: nat)
    requires IsDigits(a) && 1 <= b && EngineExact(mul, a, b)
    ensures IsDigits(Exponentiate(mul, a, b)) && Val(Exponentiate(mul, a, b)) == Pow(Val(a), b)
  {
    var k := Log2(b);
    if k == 0 {
      assert b == 1;
      assert Pow(Val(a), 1) == Val(a) * Pow(Val(a), 0);
    } else {
      var table := Ladder(mul, a, k);
      LadderValue(mul, a, k);
      assert [1][1..] == [];
      assert Val([1]) == 1;
      CombineValue(mul, [1], table, b, Val(a));
    }
  }

  /** A multiplication exact on all digit vectors keeps every table entry a digit vector. */
  lemma {:induction false} LadderDigits(mul: Multiply, a: seq<int>, k: nat)
    requires IsDigits(a) && AlwaysExact(mul)
    ensures forall i :: 0 <= i <= k ==> IsDigits(Ladder(mul, a, k)[i])
  {
    if k > 0 {
      LadderDigits(mul, a, k - 1);
      var prev := Ladder(mul, a, k - 1);
      var table := Ladder(mul, a, k);
      assert table == prev + [mul(prev[k - 1], prev[k - 1])];
      assert ExactOn(mul, prev[k - 1], prev[k - 1]);
      forall i | 0 <= i <= k
        ensures IsDigits(table[i])
      {
        if i < k {
          assert table[i] == prev[i];
        }
      }
    }
  }

  lemma {:induction false} CombineAlwaysExact(mul: Multiply, acc: seq<int>, table: seq<seq<int>>, v: nat)
    requires v < Pow2(|table|) && IsDigits(acc) && AlwaysExact(mul)
    requires forall i :: 0 <= i < |table| ==> IsDigits(table[i])
    ensures CombineExact(mul, acc, table, v)
    decreases v
  {
    if v > 0 {
      var e := Log2(v);
      Log2Below(v, |table|);
      assert ExactOn(mul, acc, table[e]);
      CombineAlwaysExact(mul, mul(acc, table[e]), table, v - Pow2(e));
    }
  }

  /** A multiplication exact on all digit vectors makes the whole exponentiation exact. */
  lemma EngineAlwaysExact(mul: Multiply, a: seq<int>, b: nat)
    requires IsDigits(a) && AlwaysExact(mul)
    ensures EngineExact(mul, a, b)
  {
    if b > 0 && Log2(b) > 0 {
      LadderDigits(mul, a, Log2(b));
      CombineAlwaysExact(mul, [1], Ladder(mul, a, Log2(b)), b);
    }
  }

  /** The multiplication with the whole column carry kept is exact on all digit vectors. */
  lemma FullCarryAlwaysExact()
    ensures AlwaysExact(ProductFullCarry)
  {
    forall x, y | IsDigits(x) && IsDigits(y)
      ensures ExactOn(ProductFullCarry, x, y)
    {
      ProductFullCarryCorrect(x, y);
    }
  }

  /** With the corrected column sum, exponentiation is exact for every base and exponent >= 1. */
  lemma CorrectedExponentiation(a: seq<int>, b: nat)
    requires IsDigits(a) && 1 <= b
    ensures IsDigits(Exponentiate(ProductFullCarry, a, b))
    ensures Val(Exponentiate(ProductFullCarry, a, b)) == Pow(Val(a), b)
  {
    FullCarryAlwaysExact();
    EngineAlwaysExact(ProductFullCarry, a, b);
    ExponentiateValue(ProductFullCarry, a, b);
  }

  // ---------------------------------------------------------------------------
  // The multiplication as written

  /** Entry i + 1 of the table is entry i multiplied by itself. */
  lemma LadderStep(mul: Multiply, a: seq<int>, k: nat, i: nat)
    requires i < k
    ensures Ladder(mul, a, k)[i + 1] == mul(Ladder(mul, a, k)[i], Ladder(mul, a, k)[i])
  {
    LadderPrefix(mul, a, i + 1, k);
    assert Ladder(mul, a, k)[i] == Ladder(mul, a, k)[..i + 2][i];
    assert Ladder(mul, a, k)[i + 1] == Ladder(mul, a, k)[..i + 2][i + 1];
    assert Ladder(mul, a, i + 1)[..i + 1] == Ladder(mul, a, i);
  }

  /** Which pairs of operands a multiplication is trusted with. */
  type Guard = (seq<int>, seq<int>) -> bool

  /** mul keeps digit vectors digit vectors, and is exact on every pair of them the guard accepts. */
  ghost predicate ExactWhere(mul: Multiply, ok: Guard)
  {
    (forall x, y {:trigger mul(x, y)} :: IsDigits(x) && IsDigits(y) ==> IsDigits(mul(x, y))) &&
    (forall x, y {:trigger ok(x, y)} :: IsDigits(x) && IsDigits(y) && ok(x, y) ==> ExactOn(mul, x, y))
  }

  /** The guard accepts every squaring that builds the table. */
  predicate LadderWithin(mul: Multiply, ok: Guard, a: seq<int>, k: nat)
  {
    forall i :: 0 <= i < k ==> ok(Ladder(mul, a, k)[i], Ladder(mul, a, k)[i])
  }

  /** The guard accepts every multiplication of the fold. */
  predicate CombineWithin(mul: Multiply, ok: Guard, acc: seq<int>, table: seq<seq<int>>, v: nat)
    requires v < Pow2(|table|)
    decreases v
  {
    v == 0 ||
    (var e := Log2(v);
     Log2Below(v, |table|);
     ok(acc, table[e]) && CombineWithin(mul, ok, mul(acc, table[e]), table, v - Pow2(e)))
  }

  /** The guard accepts every multiplication the exponentiation performs. */
  predicate EngineWithin(mul: Multiply, ok: Guard, a: seq<int>, b: nat)
  {
    b == 0 || Log2(b) == 0 ||
    (LadderWithin(mul, ok, a, Log2(b)) && CombineWithin(mul, ok, [1], Ladder(mul, a, Log2(b)), b))
  }

  /** A multiplication that keeps digit vectors keeps every table entry a digit vector. */
  lemma {:induction false} GuardedLadderDigits(mul: Multiply, ok: Guard, a: seq<int>, k: nat)
    requires IsDigits(a) && ExactWhere(mul, ok)
    ensures forall i :: 0 <= i <= k ==> IsDigits(Ladder(mul, a, k)[i])
  {
    if k > 0 {
      GuardedLadderDigits(mul, ok, a, k - 1);
      var prev := Ladder(mul, a, k - 1);
      assert IsDigits(mul(prev[k - 1], prev[k - 1]));
      assert Ladder(mul, a, k)[..k] == prev;
    }
  }

  lemma {:induction false} CombineWithinExact(mul: Multiply, ok: Guard, acc: seq<int>, table: seq<seq<int>>, v: nat)
    requires v < Pow2(|table|) && IsDigits(acc) && ExactWhere(mul, ok)
    requires forall i :: 0 <= i < |table| ==> IsDigits(table[i])
    requires CombineWithin(mul, ok, acc, table, v)
    ensures CombineExact(mul, acc, table, v)
    decreases v
  {
    if v > 0 {
      var e := Log2(v);
      Log2Below(v, |table|);
      assert ExactOn(mul, acc, table[e]);
      CombineWithinExact(mul, ok, mul(acc, table[e]), table, v - Pow2(e));
    }
  }

  /** When the guard accepts every multiplication the exponentiation performs, every one of them is exact. */
  lemma EngineWithinExact(mul: Multiply, ok: Guard, a: seq<int>, b: nat)
    requires IsDigits(a) && ExactWhere(mul, ok) && EngineWithin(mul, ok, a, b)
    ensures EngineExact(mul, a, b)
  {
    if b > 0 && Log2(b) > 0 {
      var k := Log2(b);
      var table := Ladder(mul, a, k);
      GuardedLadderDigits(mul, ok, a, k);
      forall i | 0 <= i < k
        ensures ExactOn(mul, table[i], table[i])
      {
        assert ok(table[i], table[i]);
      }
      CombineWithinExact(mul, ok, [1], table, b);
    }
  }

  /** The guard accepts every pair of digit vectors one of which has at most ten digits. */
  ghost predicate AcceptsShort(ok: Guard)
  {
    forall x, y {:trigger ok(x, y)} :: IsDigits(x) && IsDigits(y) && Min(|x|, |y|) <= 10 ==> ok(x, y)
  }

  /** Below the top entry, the fold only multiplies by entries of at most ten digits. */
  lemma {:induction false} CombineShortTable(mul: Multiply, ok: Guard, acc: seq<int>, table: seq<seq<int>>, v: nat, k: nat)
    requires v < Pow2(k) && v < Pow2(|table|) && k <= |table| && IsDigits(acc)
    requires ExactWhere(mul, ok) && AcceptsShort(ok)
    requires forall i :: 0 <= i < |table| ==> IsDigits(table[i])
    requires forall i :: 0 <= i < k ==> |table[i]| <= 10
    ensures CombineWithin(mul, ok, acc, table, v)
    decreases v
  {
    if v > 0 {
      var e := Log2(v);
      Log2Below(v, k);
      assert ok(acc, table[e]);
      assert IsDigits(mul(acc, table[e]));
      CombineShortTable(mul, ok, mul(acc, table[e]), table, v - Pow2(e), k);
    }
  }

  /** The fold from [1] meets the top entry once, against the one-digit accumulator, and short entries after that. */
  lemma CombineFromOne(mul: Multiply, ok: Guard, table: seq<seq<int>>, b: nat)
    requires 1 <= b < Pow2(|table|) && Log2(b) + 1 == |table|
    requires ExactWhere(mul, ok) && AcceptsShort(ok)
    requires forall i :: 0 <= i < |table| ==> IsDigits(table[i])
    requires forall i :: 0 <= i < Log2(b) ==> |table[i]| <= 10
    ensures CombineWithin(mul, ok, [1], table, b)
  {
    var k := Log2(b);
    assert IsDigits([1]) && ok([1], table[k]);
    var first := mul([1], table[k]);
    assert IsDigits(first);
    assert b - Pow2(k) < Pow2(k) by { assert Pow2(k + 1) == 2 * Pow2(k); }
    Pow2Monotone(k, |table|);
    CombineShortTable(mul, ok, first, table, b - Pow2(k), k);
  }

  /**
   * The guard accepts every multiplication of the exponentiation when every
   * table entry below the top one has at most ten digits: each squaring and
   * each later fold step then has a short operand, and the fold meets the top
   * entry only in its first step, against the one-digit accumulator [1].
   */
  lemma ShortTableWithin(mul: Multiply, ok: Guard, a: seq<int>, b: nat)
    requires IsDigits(a) && 1 <= b && ExactWhere(mul, ok) && AcceptsShort(ok)
    requires forall i :: 0 <= i < Log2(b) ==> |Ladder(mul, a, Log2(b))[i]| <= 10
    ensures EngineWithin(mul, ok, a, b)
  {
    var k := Log2(b);
    if k > 0 {
      var table := Ladder(mul, a, k);
      GuardedLadderDigits(mul, ok, a, k);
      forall i | 0 <= i < k
        ensures ok(table[i], table[i])
      {
      }
      CombineFromOne(mul, ok, table, b);
    }
  }

  /** mul yields at most |x| + |y| + 1 digits from digit vectors x and y. */
  ghost predicate LengthBound(mul: Multiply)
  {
    forall x, y {:trigger mul(x, y)} :: IsDigits(x) && IsDigits(y) ==> |mul(x, y)| <= |x| + |y| + 1
  }

  /** m doubled i times. */
  function Doubled(m: nat, i: nat): nat
  {
    if i == 0 then m else 2 * Doubled(m, i - 1)
  }

  /** Each squaring at most doubles the length plus one: entry i has fewer than |a| + 1 doubled i times digits. */
  lemma {:induction false} LadderLength(mul: Multiply, ok: Guard, a: seq<int>, k: nat)
    requires IsDigits(a) && ExactWhere(mul, ok) && LengthBound(mul)
    ensures forall i :: 0 <= i <= k ==> |Ladder(mul, a, k)[i]| + 1 <= Doubled(|a| + 1, i)
  {
    if k > 0 {
      LadderLength(mul, ok, a, k - 1);
      GuardedLadderDigits(mul, ok, a, k - 1);
      var prev := Ladder(mul, a, k - 1);
      var top := prev[k - 1];
      assert |mul(top, top)| <= 2 * |top| + 1;
      LadderLengthStep(mul, a, k, |a| + 1);
    }
  }

  /** The bound carries over from the shorter table, and the new entry at most doubles the length plus one. */
  lemma LadderLengthStep(mul: Multiply, a: seq<int>, k: nat, m: nat)
    requires k > 0
    requires forall i :: 0 <= i < k ==> |Ladder(mul, a, k - 1)[i]| + 1 <= Doubled(m, i)
    requires var top := Ladder(mul, a, k - 1)[k - 1]; |mul(top, top)| <= 2 * |top| + 1
    ensures forall i :: 0 <= i <= k ==> |Ladder(mul, a, k)[i]| + 1 <= Doubled(m, i)
  {
    var prev := Ladder(mul, a, k - 1);
    var table := Ladder(mul, a, k);
    assert table == prev + [mul(prev[k - 1], prev[k - 1])];
    forall i | 0 <= i <= k
      ensures |table[i]| + 1 <= Doubled(m, i)
    {
      if i < k {
        assert table[i] == prev[i];
      }
    }
  }

  lemma {:induction false} DoubledMonotone(m: nat, i: nat, j: nat)
    requires i <= j
    ensures Doubled(m, i) <= Doubled(m, j)
  {
    if i < j {
      DoubledMonotone(m, i, j - 1);
    }
  }

  /**
   * The guard accepts every multiplication of the exponentiation when the
   * length bound keeps every table entry below the top one within ten digits.
   */
  lemma SmallTableWithin(mul: Multiply, ok: Guard, a: seq<int>, b: nat)
    requires IsDigits(a) && 1 <= b && ExactWhere(mul, ok) && AcceptsShort(ok) && LengthBound(mul)
    requires Log2(b) == 0 || Doubled(|a| + 1, Log2(b) - 1) <= 11
    ensures EngineWithin(mul, ok, a, b)
  {
    var k := Log2(b);
    LadderLength(mul, ok, a, k);
    forall i | 0 <= i < k
      ensures |Ladder(mul, a, k)[i]| <= 10
    {
      DoubledMonotone(|a| + 1, i, k - 1);
    }
    ShortTableWithin(mul, ok, a, b);
  }

  /**
   * Exponentiation as written is exact when the length bound keeps every
   * table entry below the top one within ten digits.
   */
  lemma SmallTableExact(a: seq<int>, b: nat)
    requires IsDigits(a) && 1 <= b
    requires Log2(b) == 0 || Doubled(|a| + 1, Log2(b) - 1) <= 11
    ensures EngineWithin(Product, ProductExact, a, b)
    ensures Val(Exponentiate(Product, a, b)) == Pow(Val(a), b)
  {
    ProductExactWhere();
    ProductAcceptsShort();
    ProductLengthBound();
    SmallTableWithin(Product, ProductExact, a, b);
    EngineFitsValue(a, b);
  }

  /** The multiplication as written is exact wherever its columns fit. */
  lemma ProductExactWhere()
    ensures ExactWhere(Product, ProductExact)
  {
    forall x, y | IsDigits(x) && IsDigits(y)
      ensures IsDigits(Product(x, y))
    {
      ProductIsDigits(x, y);
    }
    forall x, y | IsDigits(x) && IsDigits(y) && ProductExact(x, y)
      ensures ExactOn(Product, x, y)
    {
      ProductCorrect(x, y);
    }
  }

  /** The multiplication as written yields at most |x| + |y| + 1 digits. */
  lemma ProductLengthBound()
    ensures LengthBound(Product)
  {
    forall x, y | IsDigits(x) && IsDigits(y)
      ensures |Product(x, y)| <= |x| + |y| + 1
    {
      ProductLength(x, y);
    }
  }

  /** The columns of a multiplication with a short operand fit. */
  lemma ProductAcceptsShort()
    ensures AcceptsShort(ProductExact)
  {
    forall x, y | IsDigits(x) && IsDigits(y) && Min(|x|, |y|) <= 10
      ensures ProductExact(x, y)
    {
      ShortOperandFits(x, y);
    }
  }

  /** When the columns of every multiplication fit, exponentiation as written spells val(a)^b. */
  lemma EngineFitsValue(a: seq<int>, b: nat)
    requires IsDigits(a) && 1 <= b && EngineWithin(Product, ProductExact, a, b)
    ensures EngineExact(Product, a, b)
    ensures IsDigits(Exponentiate(Product, a, b)) && Val(Exponentiate(Product, a, b)) == Pow(Val(a), b)
  {
    ProductExactWhere();
    EngineWithinExact(Product, ProductExact, a, b);
    ExponentiateValue(Product, a, b);
  }

  /** Exponentiation as written is exact while the table entries below the top one have at most ten digits. */
  lemma ShortTableExact(a: seq<int>, b: nat)
    requires IsDigits(a) && 1 <= b
    requires forall i :: 0 <= i < Log2(b) ==> |Ladder(Product, a, Log2(b))[i]| <= 10
    ensures EngineWithin(Product, ProductExact, a, b)
    ensures Val(Exponentiate(Product, a, b)) == Pow(Val(a), b)
  {
    ProductExactWhere();
    ProductAcceptsShort();
    ShortTableWithin(Product, ProductExact, a, b);
    EngineFitsValue(a, b);
  }
}

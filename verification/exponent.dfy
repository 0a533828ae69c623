/**
 * The exponentiation object: it takes a base, derives the exponent by
 * reversing the base's decimal digits, and raises the base to that exponent
 * with long multiplication on digit vectors and a table of repeated squares.
 */
module Exponent {
  import opened Digits
  import opened PowersOfTwo
  import opened LongMultiplication
  import opened SquareLadder

  /** A number held both as a digit vector (least significant digit first, one byte per digit) and as a 32-bit value. */
  datatype InputParams = InputParams(asVect: seq<int>, inputVal: int)

  /** 2^32: unsigned 32-bit arithmetic wraps modulo this. */
  const U32: int := 0x1_0000_0000

  /** 2^16: greatest_base_two_exponent tries powers of two up to this one. */
  const SearchBound: int := 0x1_0000

  /** 2^17: the bound the search would need to cover every exponent below 100000. */
  const CorrectedSearchBound: int := 0x2_0000

  /**
   * The numeric reversal after k steps, in 32-bit arithmetic: each step
   * multiplies the sum by 10 (wrapping) and adds the next low digit of v
   * (wrapping again).
   */
  function ReverseSum(v: nat, k: nat): nat
  {
    if k == 0 then 0 else ((ReverseSum(v, k - 1) * 10) % U32 + Shifted(v, k - 1) % 10) % U32
  }

  /** The same reversal in unbounded integers. */
  function ReverseValue(v: nat, k: nat): nat
  {
    if k == 0 then 0 else ReverseValue(v, k - 1) * 10 + Shifted(v, k - 1) % 10
  }

  /** The exponent the constructor derives from a base: its digits read backwards, as a 32-bit value. */
  function ReversedExponent(base: nat): nat
  {
    ReverseSum(base, |DigitsOf(base)|)
  }

  /** The unbounded reversal of the k low digits of v spells those digits in reverse order. */
  lemma {:induction false} ReverseValueSpells(v: nat, k: nat)
    ensures ReverseValue(v, k) == Val(Reversed(LowDigits(v, k)))
  {
    if k > 0 {
      ReverseValueSpells(v, k - 1);
      var d := Shifted(v, k - 1) % 10;
      var low := LowDigits(v, k - 1);
      LowDigitsSnoc(v, k - 1);
      ReversedSnoc(low, d);
      assert ([d] + Reversed(low))[1..] == Reversed(low);
    }
  }

  /** Reversal never shrinks: one more step multiplies by 10 and adds a digit. */
  lemma ReverseValueGrows(v: nat, k: nat)
    requires k > 0
    ensures ReverseValue(v, k - 1) * 10 <= ReverseValue(v, k)
  {
  }

  /** As long as the unbounded reversal fits in 32 bits, nothing wraps. */
  lemma {:induction false} ReverseSumNoWrap(v: nat, k: nat)
    requires ReverseValue(v, k) < U32
    ensures ReverseSum(v, k) == ReverseValue(v, k)
  {
    if k > 0 {
      ReverseValueGrows(v, k);
      ReverseSumNoWrap(v, k - 1);
      var prev := ReverseValue(v, k - 1);
      assert (prev * 10) % U32 == prev * 10;
      assert (prev * 10 + Shifted(v, k - 1) % 10) % U32 == prev * 10 + Shifted(v, k - 1) % 10;
    }
  }

  /**
   * When the reversed digits fit in 32 bits, the numeric reversal and the
   * reversed digit vector agree in value, and a nonzero base gives an
   * exponent of at least 1.
   */
  lemma ReversalAgrees(base: nat)
    requires Val(Reversed(DigitsOf(base))) < U32
    ensures ReversedExponent(base) == Val(Reversed(DigitsOf(base)))
    ensures base > 0 ==> ReversedExponent(base) >= 1
  {
    var ds := DigitsOf(base);
    ReverseValueSpells(base, |ds|);
    LowDigitsOfDigits(base);
    ReverseSumNoWrap(base, |ds|);
    if base > 0 {
      DigitsOfSpells(base);
      ReversedDigits(ds);
      ReversedAt(ds, 0);
      var r := Reversed(ds);
      ValBounds(r[1..]);
    }
  }

  /** Base 120 reverses to the digit vector 0, 2, 1 read upwards (most significant 0) and to the number 21. */
  lemma ReversalOf120()
    ensures Reversed(DigitsOf(120)) == [1, 2, 0] && ReversedExponent(120) == 21
    ensures Val(Reversed(DigitsOf(120))) == ReversedExponent(120)
  {
    assert DigitsOf(1) == [1] + DigitsOf(0);
    assert DigitsOf(12) == [2] + DigitsOf(1);
    assert DigitsOf(120) == [0] + DigitsOf(12);
    var ds := DigitsOf(120);
    assert ds == [0, 2, 1];
    forall k | 0 <= k < 3
      ensures Reversed(ds)[k] == [1, 2, 0][k]
    {
      ReversedAt(ds, k);
    }
    assert Reversed(ds) == [1, 2, 0];
    assert [1, 2, 0][1..] == [2, 0] && [2, 0][1..] == [0] && [0][1..] == [];
    assert Val([1, 2, 0]) == 21;
    ReversalAgrees(120);
  }

  /** For every base of at most five digits the exponent is below 10^5 and hence below 2^17. */
  lemma DomainFitsCorrectedSearch(base: nat)
    requires base <= 99999
    ensures Val(Reversed(DigitsOf(base))) < 100000
    ensures ReversedExponent(base) < 100000 < CorrectedSearchBound
  {
    var ds := DigitsOf(base);
    Pow10Values();
    Pow2Values();
    DigitsOfLength(base, 5);
    DigitsOfSpells(base);
    ReversedDigits(ds);
    ValBounds(Reversed(ds));
    Pow10Monotone(|ds|, 5);
    ReversalAgrees(base);
  }

  /** The largest base of the input range, 99999, is its own reversal, which lies at or above 2^16. */
  lemma SearchMissesDomain()
    ensures ReversedExponent(99999) == 99999 && SearchBound <= 99999 < CorrectedSearchBound
  {
    var ds := DigitsOf(99999);
    assert DigitsOf(9) == [9] + DigitsOf(0);
    assert DigitsOf(99) == [9] + DigitsOf(9);
    assert DigitsOf(999) == [9] + DigitsOf(99);
    assert DigitsOf(9999) == [9] + DigitsOf(999);
    assert ds == [9] + DigitsOf(9999);
    assert ds == [9, 9, 9, 9, 9];
    forall k | 0 <= k < 5
      ensures Reversed(ds)[k] == ds[k]
    {
      ReversedAt(ds, k);
    }
    assert Reversed(ds) == ds;
    DigitsOfSpells(99999);
    ReversalAgrees(99999);
    Pow2Values();
  }

  /**
   * The digit facts the constructor relies on: a 32-bit base has at most ten
   * digits, so the byte-sized step count of the reversal is exact.
   */
  lemma BaseDigits(base: nat)
    requires 0 < base < U32
    ensures var ds := DigitsOf(base);
      1 <= |ds| <= 10 && (|ds| - 1) % 256 + 1 == |ds| && ds[..|ds|] == ds &&
      IsDigits(ds) && Val(ds) == base && IsDigits(Reversed(ds)) &&
      (Val(Reversed(ds)) < U32 ==> ReversedExponent(base) == Val(Reversed(ds)))
  {
    var ds := DigitsOf(base);
    Pow10Values();
    DigitsOfLength(base, 10);
    DigitsOfSpells(base);
    ReversedDigits(ds);
    if Val(Reversed(ds)) < U32 {
      ReversalAgrees(base);
    }
  }

  /**
   * What the exponent loop keeps: folding what is left of the exponent into
   * iter gives the whole fold, and the positions used so far followed by
   * those still to come make up the whole decomposition of v.
   */
  ghost predicate FoldInvariant(mul: Multiply, start: InputParams, table: seq<seq<int>>, v: nat,
                                iter: InputParams, expVal: nat, applied: seq<nat>)
    requires v < Pow2(|table|)
  {
    expVal <= v && IsDigits(iter.asVect) && iter.inputVal == start.inputVal &&
    Combine(mul, iter.asVect, table, expVal) == Combine(mul, start.asVect, table, v) &&
    applied + Bits(expVal) == Bits(v)
  }

  /** Multiplying by the entry at the top bit and clearing that bit keeps the invariant. */
  lemma FoldAdvance(mul: Multiply, start: InputParams, table: seq<seq<int>>, v: nat, iter: InputParams,
                    expVal: nat, applied: seq<nat>, next: InputParams, e: nat, rest: nat)
    requires v < Pow2(|table|) && FoldInvariant(mul, start, table, v, iter, expVal, applied)
    requires 1 <= expVal && e == Log2(expVal) && e < |table| && rest == expVal - Pow2(e)
    requires next == iter.(asVect := mul(iter.asVect, table[e])) && IsDigits(next.asVect)
    ensures FoldInvariant(mul, start, table, v, next, rest, applied + [e])
  {
    CombineStep(mul, iter.asVect, next.asVect, table, expVal, e, rest);
    BitsStep(applied, expVal, e, rest);
  }

  /** The first n + 1 entries of the doubling table, every one a digit vector. */
  ghost predicate TableSoFar(base: seq<int>, table: seq<seq<int>>, n: nat)
  {
    table == Ladder(Product, base, n) && forall k :: 0 <= k < |table| ==> IsDigits(table[k])
  }

  /** Appending the square of the last entry extends the table by one. */
  lemma TableAdvance(base: seq<int>, table: seq<seq<int>>, n: nat, next: seq<int>)
    requires TableSoFar(base, table, n) && next == Product(table[n], table[n])
    ensures TableSoFar(base, table + [next], n + 1)
  {
    ProductIsDigits(table[n], table[n]);
  }

  /** A one-digit base d is its own exponent. */
  lemma OneDigitReversal(d: nat)
    requires 1 <= d <= 9
    ensures DigitsOf(d) == [d] && ReversedExponent(d) == d
  {
    assert DigitsOf(d) == [d] + DigitsOf(0);
    assert ReverseSum(d, 1) == d;
  }

  /**
   * Exponentiation as written computes d^d exactly for a one-digit base d:
   * the table entries below the top one are d, d^2 and d^4, well within ten
   * digits.
   */
  lemma OneDigitBaseExact(d: nat)
    requires 1 <= d <= 9
    ensures EngineWithin(Product, ProductExact, [d], d)
    ensures Val(Exponentiate(Product, [d], d)) == Pow(d, d)
  {
    OneDigitTable(d);
    SmallTableExact([d], d);
    assert [d][1..] == [] && Val([d]) == d;
  }

  /** The table for a one-digit base d stops at d^4: the length bound gives at most seven digits below the top. */
  lemma OneDigitTable(d: nat)
    requires 1 <= d <= 9
    ensures Log2(d) == 0 || Doubled(|[d]| + 1, Log2(d) - 1) <= 11
  {
    var k := Log2(d);
    Log2Below(d, 4);
    if k > 0 {
      DoubledMonotone(2, k - 1, 2);
      assert Doubled(2, 2) == 8;
    }
  }

  /** The reported digits spell base^exponent whenever every multiplication was exact (1 for exponent 0). */
  lemma ReportedPower(mul: Multiply, base: seq<int>, exponent: nat, reported: seq<int>)
    requires IsDigits(base) && EngineExact(mul, base, exponent)
    requires reported == (if exponent > 0 then Exponentiate(mul, base, exponent) else [1])
    ensures Val(reported) == Pow(Val(base), exponent)
  {
    if exponent > 0 {
      ExponentiateValue(mul, base, exponent);
    } else {
      assert [1][1..] == [] && Val([1]) == 1;
    }
  }

  class ExponentObj {
    var a: InputParams
    var b: InputParams
    var state: InputParams
    var iterState: InputParams
    var largestMultFactor: int
    var intermediateMultVals: seq<seq<int>>
    /** The table indices the exponent loop has multiplied by, in order. */
    ghost var appliedBits: seq<nat>

    /**
     * A freshly constructed object: a holds the base's digits, the exponent
     * lies where the power-of-two search works, the largest table index is
     * the exponent's top bit, and nothing has been accumulated yet.
     */
    predicate Ready()
      reads this
    {
      a.inputVal >= 0 && a.asVect == DigitsOf(a.inputVal) &&
      0 <= b.inputVal < SearchBound &&
      (b.inputVal > 0 ==> largestMultFactor == Log2(b.inputVal)) &&
      iterState.asVect == [] && intermediateMultVals == []
    }

    /** The digits perform_exponentiation reports: state for a positive exponent, 1 for exponent 0. */
    function Result(): seq<int>
      reads this
    {
      if b.inputVal > 0 then state.asVect else [1]
    }

    constructor (base: int)
      requires 0 <= base < U32
      requires base == 0 || 1 <= ReversedExponent(base) < SearchBound
      ensures a == (if base == 0 then InputParams([], 0) else InputParams(DigitsOf(base), base))
      ensures b == (if base == 0 then InputParams([], 0)
                    else InputParams(Reversed(DigitsOf(base)), ReversedExponent(base)))
      ensures largestMultFactor == (if base == 0 then 0 else Log2(b.inputVal))
      ensures state == InputParams([], 0) && iterState == InputParams([], 0)
      ensures intermediateMultVals == [] && appliedBits == []
      ensures Ready()
      ensures IsDigits(a.asVect) && Val(a.asVect) == a.inputVal
      ensures IsDigits(b.asVect) && (Val(b.asVect) < U32 ==> Val(b.asVect) == b.inputVal)
    {
      var a0, b0, factor := DeriveOperands(base);
      a := a0;
      b := b0;
      state := InputParams([], 0);
      iterState := InputParams([], 0);
      largestMultFactor := factor;
      intermediateMultVals := [];
      appliedBits := [];
    }

    /** The constructor's work on its argument: the base's digits, the reversed exponent and its top bit. */
    static method DeriveOperands(base: int) returns (a0: InputParams, b0: InputParams, factor: int)
      requires 0 <= base < U32
      requires base == 0 || 1 <= ReversedExponent(base) < SearchBound
      ensures a0 == (if base == 0 then InputParams([], 0) else InputParams(DigitsOf(base), base))
      ensures b0 == (if base == 0 then InputParams([], 0)
                     else InputParams(Reversed(DigitsOf(base)), ReversedExponent(base)))
      ensures factor == (if base == 0 then 0 else Log2(b0.inputVal))
      ensures IsDigits(a0.asVect) && Val(a0.asVect) == a0.inputVal
      ensures IsDigits(b0.asVect) && (Val(b0.asVect) < U32 ==> Val(b0.asVect) == b0.inputVal)
    {
      if base == 0 {
        a0, b0, factor := InputParams([], 0), InputParams([], 0), 0;
        b0 := b0.(inputVal := 0);
        assert DigitsOf(0) == [];
      } else {
        a0, b0, factor := DeriveFromNonzero(base);
      }
    }

    /** The constructor's branch for a nonzero base. */
    static method DeriveFromNonzero(base: int) returns (a0: InputParams, b0: InputParams, factor: int)
      requires 0 < base < U32 && 1 <= ReversedExponent(base) < SearchBound
      ensures a0 == InputParams(DigitsOf(base), base)
      ensures b0 == InputParams(Reversed(DigitsOf(base)), ReversedExponent(base))
      ensures factor == Log2(b0.inputVal)
      ensures IsDigits(a0.asVect) && Val(a0.asVect) == a0.inputVal
      ensures IsDigits(b0.asVect) && (Val(b0.asVect) < U32 ==> Val(b0.asVect) == b0.inputVal)
    {
      ghost var ds := DigitsOf(base);
      BaseDigits(base);
      a0 := InputParams([], base);
      a0 := VectorizeIntoDigits(a0);
      assert a0.asVect == ds;
      b0 := ReverseTheDigits(InputParams([], 0), a0);
      assert b0.asVect == Reversed(ds);
      var exp := b0.inputVal;
      factor, exp := GreatestBaseTwoExponent(0, exp);
    }

    /**
     * Build the doubling table, fold one table entry per set bit of the
     * exponent into an accumulator that starts at [1], and leave the result
     * in state (state keeps the base for exponents 0 and 1).
     */
    method PerformExponentiation()
      requires Ready()
      modifies this
      ensures a == old(a) && b == old(b) && largestMultFactor == old(largestMultFactor)
      ensures state.asVect == Exponentiate(Product, a.asVect, b.inputVal)
      ensures state == (if b.inputVal > 0 && largestMultFactor > 0 then iterState else a)
      ensures intermediateMultVals == (if b.inputVal > 0 then Ladder(Product, a.asVect, largestMultFactor) else [])
      ensures iterState.asVect == (if b.inputVal == 0 then [] else if largestMultFactor == 0 then [1] else state.asVect)
      ensures b.inputVal > 0 && largestMultFactor > 0 ==> appliedBits == Bits(b.inputVal)
      ensures EngineExact(Product, a.asVect, b.inputVal) ==> Val(Result()) == Pow(a.inputVal, b.inputVal)
      ensures EngineWithin(Product, ProductExact, a.asVect, b.inputVal) ==> Val(Result()) == Pow(a.inputVal, b.inputVal)
    {
      var base, exponent, levels := a, b.inputVal, largestMultFactor;
      DigitsOfSpells(base.inputVal);
      var st, table, iter := base, [], iterState;
      ghost var applied := appliedBits;
      if exponent > 0 {
        st, table, iter, applied := SquareAndMultiply(base, exponent, levels, iter);
      }
      state, intermediateMultVals, iterState, appliedBits := st, table, iter, applied;
      if EngineWithin(Product, ProductExact, base.asVect, exponent) {
        ProductExactWhere();
        EngineWithinExact(Product, ProductExact, base.asVect, exponent);
      }
      if EngineExact(Product, base.asVect, exponent) {
        ReportedPower(Product, base.asVect, exponent, Result());
      }
    }

    /**
     * The body of perform_exponentiation for a positive exponent: the table
     * up to the top bit, then, when that bit is above bit 0, the fold into
     * an accumulator [1] that becomes the new state.
     */
    static method SquareAndMultiply(base: InputParams, exponent: nat, levels: int, start: InputParams)
      returns (st: InputParams, table: seq<seq<int>>, iter: InputParams, ghost applied: seq<nat>)
      requires IsDigits(base.asVect) && 1 <= exponent < SearchBound && levels == Log2(exponent)
      requires start.asVect == []
      ensures table == Ladder(Product, base.asVect, levels)
      ensures st.asVect == Exponentiate(Product, base.asVect, exponent)
      ensures st == (if levels > 0 then iter else base)
      ensures iter.asVect == (if levels == 0 then [1] else st.asVect)
      ensures levels > 0 ==> applied == Bits(exponent)
    {
      st := base;
      table := BuildTable(st.asVect, levels);
      iter := start.(asVect := start.asVect + [1]);
      assert iter.asVect == [1];
      applied := [];
      if levels > 0 {
        iter, applied := FoldBits(iter, table, exponent, levels);
        st := iter;
        assert st.asVect == Combine(Product, [1], Ladder(Product, base.asVect, levels), exponent);
      }
    }

    /**
     * The first loop of perform_exponentiation: the table starts with the
     * base and each further entry is the previous one multiplied by itself.
     */
    static method BuildTable(base: seq<int>, levels: int) returns (table: seq<seq<int>>)
      requires IsDigits(base) && levels >= 0
      ensures TableSoFar(base, table, levels)
    {
      table := [base];
      var done: nat := 0;
      while done < levels
        invariant done <= levels && TableSoFar(base, table, done)
      {
        table := AppendSquare(base, table, done);
        done := done + 1;
      }
    }

    /** One pass of the table loop: square the entry at n and append it. */
    static method AppendSquare(base: seq<int>, table: seq<seq<int>>, n: nat) returns (extended: seq<seq<int>>)
      requires TableSoFar(base, table, n)
      ensures TableSoFar(base, extended, n + 1)
    {
      var newState := InputParams([], 0);
      var intermediateState := InputParams(table[n], 0);
      newState := MultiplicationOperation(newState, intermediateState, intermediateState);
      TableAdvance(base, table, n, newState.asVect);
      extended := table + [newState.asVect];
    }

    /**
     * The second loop of perform_exponentiation: find the top bit of what is
     * left of the exponent, multiply the accumulator by that table entry
     * (prev / 2^e times, which is once), clear the bit, until nothing is left.
     * applied records the bit positions used.
     */
    static method FoldBits(start: InputParams, table: seq<seq<int>>, v: nat, level: int)
      returns (iter: InputParams, ghost applied: seq<nat>)
      requires IsDigits(start.asVect) && v < SearchBound && v < Pow2(|table|)
      requires forall k :: 0 <= k < |table| ==> IsDigits(table[k])
      ensures iter == start.(asVect := Combine(Product, start.asVect, table, v))
      ensures applied == Bits(v) && SumPow2(applied) == v
    {
      var expVal: nat := v;
      var expLevel := level;
      iter := start;
      applied := [];
      while expVal > 0
        invariant expVal <= v && FoldInvariant(Product, start, table, v, iter, expVal, applied)
        invariant SumPow2(applied) + expVal == v
        decreases expVal
      {
        var next, e, rest := FoldStep(iter, table, expLevel, expVal);
        FoldAdvance(Product, start, table, v, iter, expVal, applied, next, e, rest);
        iter, expLevel, expVal, applied := next, e, rest, applied + [e];
        expLevel := (expLevel - 1) % 256;
        AppliedSum(applied, expVal, v, |table|);
      }
      assert applied == applied + Bits(0);
    }

    /**
     * One pass of the exponent loop: e is the top bit of expVal, the
     * accumulator is multiplied by table entry e as many times as
     * expVal / 2^e says (once), and the bit is cleared.
     */
    static method FoldStep(iter: InputParams, table: seq<seq<int>>, level: int, expVal: nat)
      returns (next: InputParams, e: nat, rest: nat)
      requires IsDigits(iter.asVect) && 1 <= expVal < SearchBound && expVal < Pow2(|table|)
      requires forall k :: 0 <= k < |table| ==> IsDigits(table[k])
      ensures e == Log2(expVal) && e < |table| && rest == expVal - Pow2(e) && rest < expVal
      ensures next == iter.(asVect := Product(iter.asVect, table[e])) && IsDigits(next.asVect)
    {
      var expLevel, left := GreatestBaseTwoExponent(level, expVal);
      e, rest := expLevel, left;
      Log2Below(expVal, |table|);
      DivUnique(expVal, Pow2(e), 1, rest);
      var numIntermedMults := expVal / Pow2(e);
      next := iter;
      var k := 0;
      while k < numIntermedMults
        invariant 0 <= k <= numIntermedMults
        invariant next == if k == 0 then iter else iter.(asVect := Product(iter.asVect, table[e]))
      {
        var multArg := InputParams(table[e], 0);
        next := MultiplicationOperation(next, next, multArg);
        k := k + 1;
      }
      ProductIsDigits(iter.asVect, table[e]);
    }

    /** vectorize_into_digits: append the digits of inputVal, least significant first; inputVal is kept. */
    static method VectorizeIntoDigits(inst: InputParams) returns (r: InputParams)
      requires 0 <= inst.inputVal
      ensures r == InputParams(inst.asVect + DigitsOf(inst.inputVal), inst.inputVal)
    {
      var input := inst.inputVal;
      r := inst;
      while input > 0
        invariant 0 <= input
        invariant r.inputVal == inst.inputVal
        invariant r.asVect + DigitsOf(input) == inst.asVect + DigitsOf(inst.inputVal)
      {
        var digit := input % 10;
        assert DigitsOf(input) == [digit] + DigitsOf(input / 10);
        input := input / 10;
        assert r.asVect + [digit] + DigitsOf(input) == r.asVect + ([digit] + DigitsOf(input));
        r := r.(asVect := r.asVect + [digit]);
      }
      assert r.asVect + DigitsOf(input) == r.asVect;
    }

    /**
     * reverse_the_digits: append base's digits in reverse order to exp, and
     * set exp's number to the numeric reversal of base's number over as many
     * steps as base has digits (the step count is held in a byte).
     */
    static method ReverseTheDigits(exp: InputParams, base: InputParams) returns (r: InputParams)
      requires |base.asVect| >= 1 && 0 <= base.inputVal
      ensures var n := (|base.asVect| - 1) % 256 + 1;
        r == InputParams(exp.asVect + Reversed(base.asVect[..n]), ReverseSum(base.inputVal, n))
    {
      var maxI := (|base.asVect| - 1) % 256;
      r := exp;
      var i := maxI;
      while i >= 0
        invariant -1 <= i <= maxI
        invariant r == InputParams(exp.asVect + Reversed(base.asVect[i + 1..maxI + 1]), exp.inputVal)
      {
        assert base.asVect[i..maxI + 1][1..] == base.asVect[i + 1..maxI + 1];
        r := r.(asVect := r.asVect + [base.asVect[i]]);
        i := i - 1;
      }
      assert base.asVect[0..maxI + 1] == base.asVect[..maxI + 1];

      var sum := 0;
      var baseVal := base.inputVal;
      i := 0;
      while i <= maxI
        invariant 0 <= i <= maxI + 1
        invariant sum == ReverseSum(base.inputVal, i) && baseVal == Shifted(base.inputVal, i)
      {
        sum := (sum * 10) % U32;
        sum := (sum + baseVal % 10) % U32;
        ShiftedStep(base.inputVal, i);
        baseVal := baseVal / 10;
        i := i + 1;
      }
      r := r.(inputVal := sum);
    }

    /**
     * greatest_base_two_exponent as written: try 2^0, 2^1, ..., 2^16 and at
     * the first power above v set e to one less and subtract 2^e from v.
     * Values of 2^16 and more are never reached, and both outputs are left
     * as they were.
     */
    static method GreatestBaseTwoExponent(greatestExp: int, compareValue: int) returns (e: int, v: int)
      requires 1 <= compareValue
      ensures compareValue < SearchBound ==>
        e == Log2(compareValue) && v == compareValue - Pow2(e) &&
        Pow2(e) <= compareValue < Pow2(e + 1) && v < Pow2(e)
      ensures compareValue >= SearchBound ==> e == greatestExp && v == compareValue
    {
      Pow2Values();
      e, v := greatestExp, compareValue;
      var i := 0;
      while i < 17
        invariant 0 <= i <= 17
        invariant i > 0 ==> Pow2(i - 1) <= compareValue
        invariant e == greatestExp && v == compareValue
      {
        var twoExp := Pow2(i);
        if compareValue < twoExp {
          e := i - 1;
          v := compareValue - Pow2(i - 1);
          Log2Unique(compareValue, e);
          Pow2Monotone(i, 16);
          return;
        }
        i := i + 1;
      }
    }

    /** The search as evidently intended: up to 2^17, which covers every exponent of at most five digits. */
    static method GreatestBaseTwoExponentCorrected(greatestExp: int, compareValue: int) returns (e: int, v: int)
      requires 1 <= compareValue
      ensures compareValue < CorrectedSearchBound ==>
        e == Log2(compareValue) && v == compareValue - Pow2(e) &&
        Pow2(e) <= compareValue < Pow2(e + 1) && v < Pow2(e)
      ensures compareValue >= CorrectedSearchBound ==> e == greatestExp && v == compareValue
    {
      Pow2Values();
      e, v := greatestExp, compareValue;
      var i := 0;
      while i < 18
        invariant 0 <= i <= 18
        invariant i > 0 ==> Pow2(i - 1) <= compareValue
        invariant e == greatestExp && v == compareValue
      {
        var twoExp := Pow2(i);
        if compareValue < twoExp {
          e := i - 1;
          v := compareValue - Pow2(i - 1);
          Log2Unique(compareValue, e);
          Pow2Monotone(i, 17);
          return;
        }
        i := i + 1;
      }
    }

    /**
     * multiplication_operation: one shifted row per digit of the shorter
     * operand (the second on a tie), then the column sum; out keeps its number.
     */
    static method MultiplicationOperation(out: InputParams, multArg1: InputParams, multArg2: InputParams)
      returns (r: InputParams)
      requires IsBytes(multArg1.asVect) && IsBytes(multArg2.asVect)
      ensures r == InputParams(Product(multArg1.asVect, multArg2.asVect), out.inputVal)
    {
      var in1, in2;
      if |multArg2.asVect| > |multArg1.asVect| {
        in1, in2 := multArg1, multArg2;
      } else {
        in1, in2 := multArg2, multArg1;
      }
      var rowDigits, eachRowLength, tempVector := PartialProducts(in1.asVect, in2.asVect);
      RowsSummable(in1.asVect, in2.asVect);
      r := SumRows(out, rowDigits, |in1.asVect|, eachRowLength, |tempVector|);
    }

    /**
     * The outer loop of multiplication_operation: one row per digit of in1,
     * recording each row's length; tempVector ends as the last row built.
     */
    static method PartialProducts(in1: seq<int>, in2: seq<int>)
      returns (rowDigits: seq<seq<int>>, eachRowLength: seq<int>, tempVector: seq<int>)
      requires IsBytes(in1) && IsBytes(in2)
      ensures rowDigits == Rows(in1, in2) && eachRowLength == Lengths(rowDigits)
      ensures |tempVector| == LastLength(rowDigits)
    {
      ghost var rows := Rows(in1, in2);
      eachRowLength := [];
      rowDigits := [];
      tempVector := [];
      var i := 0;
      while i < |in1|
        invariant 0 <= i <= |in1|
        invariant rowDigits == rows[..i]
        invariant |eachRowLength| == i && forall k :: 0 <= k < i ==> eachRowLength[k] == |rowDigits[k]|
        invariant tempVector == if i == 0 then [] else rowDigits[i - 1]
      {
        tempVector := MultiplyRow(in1[i], in2, i);
        assert rows[..i + 1] == rows[..i] + [tempVector];
        rowDigits := rowDigits + [tempVector];
        eachRowLength := eachRowLength + [|tempVector|];
        i := i + 1;
      }
      assert rowDigits == rows;
    }

    /** The row loop of multiplication_operation for digit d at position shift: shift zeros, then d times ys with a byte-sized carry. */
    static method MultiplyRow(d: int, ys: seq<int>, shift: nat) returns (tempVector: seq<int>)
      requires 0 <= d < 256 && IsBytes(ys)
      ensures tempVector == Row(d, ys, shift)
    {
      tempVector := [];
      var addZero := 0;
      while addZero < shift
        invariant 0 <= addZero <= shift && tempVector == Zeros(addZero)
      {
        tempVector := tempVector + [0];
        addZero := addZero + 1;
      }
      var carryOverVal := 0;
      var j := 0;
      while j < |ys|
        invariant 0 <= j <= |ys|
        invariant tempVector == RowUpTo(d, ys, shift, j).digits
        invariant j < |ys| ==> carryOverVal == RowUpTo(d, ys, shift, j).carry
      {
        var intermediateVal := (d * ys[j] + carryOverVal) % 256;
        TimesIsProduct(d, ys[j]);
        assert intermediateVal == RowTotal(d, ys[j], carryOverVal);
        if intermediateVal <= 9 {
          tempVector := tempVector + [intermediateVal];
          carryOverVal := 0;
        } else {
          var rowVal := VectorizeIntoDigits(InputParams([], intermediateVal));
          DigitsOfLowTwo(intermediateVal);
          if j < |ys| - 1 {
            carryOverVal := rowVal.asVect[1];
            tempVector := tempVector + [rowVal.asVect[0]];
          } else {
            tempVector := tempVector + [rowVal.asVect[0]];
            tempVector := tempVector + [rowVal.asVect[1]];
          }
        }
        j := j + 1;
      }
    }

    /** The inner loop of sum_rows: column j over the first n rows, a row adding only where its recorded length reaches. */
    static method ColumnSum(rows: seq<seq<int>>, eachRowLength: seq<int>, numRows: nat, j: nat) returns (colSum: int)
      requires RowsReadable(rows, eachRowLength, numRows)
      ensures colSum == ColumnTotal(rows, eachRowLength, numRows, j)
    {
      colSum := 0;
      var i := 0;
      while i < numRows
        invariant 0 <= i <= numRows
        invariant colSum == ColumnTotal(rows, eachRowLength, i, j)
      {
        if j < eachRowLength[i] {
          colSum := colSum + rows[i][j];
        }
        i := i + 1;
      }
    }

    /**
     * sum_rows as written: column by column, emit the units digit of the
     * column total plus carry and carry its tens digit; the last column emits
     * both. The output's number is kept.
     */
    static method SumRows(output: InputParams, rows: seq<seq<int>>, numRows: nat, eachRowLength: seq<int>,
                          maxRowLength: nat) returns (r: InputParams)
      requires RowsReadable(rows, eachRowLength, numRows) && RowsAreBytes(rows, numRows)
      ensures r == InputParams(LongMultiplication.SumRows(rows, eachRowLength, numRows, maxRowLength), output.inputVal)
    {
      r := output.(asVect := []);
      var carryOver := 0;
      var j := 0;
      while j < maxRowLength
        invariant 0 <= j <= maxRowLength
        invariant r.inputVal == output.inputVal
        invariant r.asVect == SumRowsUpTo(rows, eachRowLength, numRows, maxRowLength, j).digits
        invariant j < maxRowLength ==> carryOver == SumRowsUpTo(rows, eachRowLength, numRows, maxRowLength, j).carry
        invariant carryOver >= 0
      {
        var colSum := ColumnSum(rows, eachRowLength, numRows, j);
        ColumnTotalNonNegative(rows, eachRowLength, numRows, j);
        colSum := colSum + carryOver;
        assert SumRowsUpTo(rows, eachRowLength, numRows, maxRowLength, j + 1) ==
               Emit(r.asVect, colSum, j + 1 == maxRowLength);
        if colSum <= 9 {
          r := r.(asVect := r.asVect + [colSum]);
          carryOver := 0;
        } else {
          var colVal := VectorizeIntoDigits(InputParams([], colSum));
          DigitsOfLowTwo(colSum);
          if j < maxRowLength - 1 {
            carryOver := colVal.asVect[1];
            r := r.(asVect := r.asVect + [colVal.asVect[0]]);
          } else {
            r := r.(asVect := r.asVect + [colVal.asVect[0]]);
            r := r.(asVect := r.asVect + [colVal.asVect[1]]);
          }
        }
        j := j + 1;
      }
    }

    /** sum_rows as evidently intended: the whole of the column total above its units digit is carried, and the last column emits every digit. */
    static method SumRowsCorrected(output: InputParams, rows: seq<seq<int>>, numRows: nat, eachRowLength: seq<int>,
                                   maxRowLength: nat) returns (r: InputParams)
      requires RowsReadable(rows, eachRowLength, numRows) && RowsAreBytes(rows, numRows)
      ensures r == InputParams(SumRowsFull(rows, eachRowLength, numRows, maxRowLength), output.inputVal)
    {
      r := output.(asVect := []);
      var carryOver := 0;
      var j := 0;
      while j < maxRowLength
        invariant 0 <= j <= maxRowLength
        invariant r.inputVal == output.inputVal
        invariant r.asVect == SumRowsFullUpTo(rows, eachRowLength, numRows, maxRowLength, j).digits
        invariant j < maxRowLength ==> carryOver == SumRowsFullUpTo(rows, eachRowLength, numRows, maxRowLength, j).carry
        invariant carryOver >= 0
      {
        var colSum := ColumnSum(rows, eachRowLength, numRows, j);
        ColumnTotalNonNegative(rows, eachRowLength, numRows, j);
        colSum := colSum + carryOver;
        assert SumRowsFullUpTo(rows, eachRowLength, numRows, maxRowLength, j + 1) ==
               EmitFull(r.asVect, colSum, j + 1 == maxRowLength);
        var digits;
        digits, carryOver := EmitColumnFull(r.asVect, carryOver, colSum, j == maxRowLength - 1);
        r := r.(asVect := digits);
        j := j + 1;
      }
    }
  
    /** One column of the corrected sum_rows: the units digit, and the rest carried or, in the last column, emitted. */
    static method EmitColumnFull(prev: seq<int>, carryOver: int, colSum: int, last: bool) returns (digits: seq<int>, carry: int)
      requires 0 <= colSum && 0 <= carryOver
      ensures digits == EmitFull(prev, colSum, last).digits
      ensures !last ==> carry == EmitFull(prev, colSum, last).carry
      ensures carry >= 0
    {
      digits, carry := prev, carryOver;
      if colSum <= 9 {
        digits := digits + [colSum];
        carry := 0;
      } else {
        var colVal := VectorizeIntoDigits(InputParams([], colSum));
        assert colVal.asVect == [colSum % 10] + DigitsOf(colSum / 10);
        if !last {
          carry := colSum / 10;
          digits := digits + [colVal.asVect[0]];
        } else {
          assert digits + colVal.asVect == digits + [colSum % 10] + DigitsOf(colSum / 10);
          digits := digits + colVal.asVect;
        }
      }
    }
  }
}

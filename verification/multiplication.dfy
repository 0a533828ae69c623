/**
 * Schoolbook long multiplication on digit vectors, as the engine performs it:
 * one shifted partial-product row per digit of the shorter operand, each row
 * carrying within itself, then a column-by-column sum of the rows that carries
 * only the tens digit of each column total.
 */
module LongMultiplication {
  import opened Digits

  /** Digits emitted so far, and the carry pending for the next position. */
  datatype Carried = Carried(digits: seq<int>, carry: int)

  /**
   * One emission step, shared by the rows and the column sum. A total of at
   * most 9 is emitted as it is and clears the carry. A larger total has its
   * two lowest digits split off (by the digit split of the value): the units
   * digit is emitted and the tens digit carried, except at the last position,
   * where both are emitted. Higher digits of the total are not kept. The
   * carry after the last position is never read again and is left at 0.
   */
  function Emit(prev: seq<int>, t: int, last: bool): Carried
  {
    if t <= 9 then Carried(prev + [t], 0)
    else if !last then Carried(prev + [t % 10], (t / 10) % 10)
    else Carried(prev + [t % 10, (t / 10) % 10], 0)
  }

  /** Whatever the total, an emission only appends digits and keeps a digit carry. */
  lemma EmitShape(prev: seq<int>, t: int, last: bool)
    requires IsDigits(prev) && 0 <= t
    ensures var r := Emit(prev, t, last);
      IsDigits(r.digits) && 0 <= r.carry <= 9 && r.digits[..|prev|] == prev &&
      (|r.digits| == |prev| + 1 || (last && |r.digits| == |prev| + 2 && r.carry == 0)) &&
      (last ==> r.carry == 0) && r.carry <= t / 10
  {
  }

  /** The length and carry part of EmitShape, without the digit quantifier. */
  lemma EmitBounds(prev: seq<int>, t: int, last: bool)
    requires 0 <= t
    ensures var r := Emit(prev, t, last);
      0 <= r.carry <= 9 && r.carry <= t / 10 &&
      (|r.digits| == |prev| + 1 || (last && |r.digits| == |prev| + 2 && r.carry == 0)) &&
      (last ==> r.carry == 0)
  {
  }

  lemma SplitTwoDigits(t: int)
    requires 0 <= t <= 99
    ensures (t / 10) % 10 == t / 10 && t == t % 10 + 10 * (t / 10)
  {
  }

  /** A total below 100 loses nothing: the emitted digits and carry spell prev plus t at the next position. */
  lemma EmitValue(prev: seq<int>, t: int, last: bool)
    requires 0 <= t <= 99
    ensures var r := Emit(prev, t, last);
      Val(r.digits) + r.carry * Pow10(|prev| + 1) == Val(prev) + t * Pow10(|prev|) &&
      r.carry <= t / 10
  {
    var r := Emit(prev, t, last);
    if t <= 9 {
      assert r.carry * Pow10(|prev| + 1) == 0;
      ValAppend(prev, t);
    } else {
      SplitTwoDigits(t);
      var m, q := t % 10, t / 10;
      if !last {
        ValAppendCarry(prev, m, q, t);
      } else {
        assert r.carry * Pow10(|prev| + 1) == 0;
        ValAppendTwo(prev, m, q, t);
      }
    }
  }

  // ---------------------------------------------------------------------------
  // Partial-product rows

  /**
   * The row for digit d of the shorter operand at position `shift`, after the
   * first j digits of the longer operand ys: shift zeros, then the digits of
   * d * ys[k] plus the running carry.
   */
  function RowUpTo(d: int, ys: seq<int>, shift: nat, j: nat): Carried
    requires j <= |ys|
  {
    if j == 0 then Carried(Zeros(shift), 0)
    else
      var prev := RowUpTo(d, ys, shift, j - 1);
      Emit(prev.digits, RowTotal(d, ys[j - 1], prev.carry), j == |ys|)
  }

  /**
   * d * y for a byte d, as d additions of y. Written as a recursion so that
   * the product stays linear wherever a row is unfolded; TimesIsProduct
   * gives the product back.
   */
  function Times(d: int, y: int): int
    decreases d
  {
    if d <= 0 then 0 else Times(d - 1, y) + y
  }

  lemma {:induction false} TimesIsProduct(d: int, y: int)
    requires d >= 0
    ensures Times(d, y) == d * y
  {
    if d > 0 {
      TimesIsProduct(d - 1, y);
    }
  }

  /** A digit product plus the carry, held in a byte (it wraps modulo 256). */
  function RowTotal(d: int, y: int, c: int): int
  {
    (Times(d, y) + c) % 256
  }

  function Row(d: int, ys: seq<int>, shift: nat): seq<int>
  {
    RowUpTo(d, ys, shift, |ys|).digits
  }

  lemma DigitProduct(d: int, y: int)
    requires IsDigit(d) && IsDigit(y)
    ensures 0 <= d * y <= 81
  {
  }

  /** For digits and a carry of at most 8 the byte never wraps: the total is at most 89. */
  lemma RowTotalNoWrap(d: int, y: int, c: int)
    requires IsDigit(d) && IsDigit(y) && 0 <= c <= 8
    ensures RowTotal(d, y, c) == d * y + c && 0 <= d * y + c <= 89
  {
    DigitProduct(d, y);
    TimesIsProduct(d, y);
  }

  /** A row in progress has a carry of at most 8 (a digit product plus carry is at most 89) and shift + j digits until its final flush. */
  lemma {:induction false} RowUpToBounds(d: int, ys: seq<int>, shift: nat, j: nat)
    requires IsDigit(d) && IsDigits(ys) && j <= |ys|
    ensures var r := RowUpTo(d, ys, shift, j);
      0 <= r.carry <= 8 &&
      (|r.digits| == shift + j || (j == |ys| && j > 0 && |r.digits| == shift + j + 1)) &&
      (j == |ys| ==> r.carry == 0)
  {
    if j > 0 {
      RowUpToBounds(d, ys, shift, j - 1);
      var prev := RowUpTo(d, ys, shift, j - 1);
      RowTotalNoWrap(d, ys[j - 1], prev.carry);
      EmitBounds(prev.digits, d * ys[j - 1] + prev.carry, j == |ys|);
    }
  }

  /** Whatever the digit and the operand bytes, a row in progress holds only digits and starts with `shift` zeros. */
  lemma {:induction false} RowUpToDigits(d: int, ys: seq<int>, shift: nat, j: nat)
    requires j <= |ys|
    ensures var r := RowUpTo(d, ys, shift, j);
      IsDigits(r.digits) && |r.digits| >= shift && r.digits[..shift] == Zeros(shift)
  {
    if j > 0 {
      RowUpToDigits(d, ys, shift, j - 1);
      var prev := RowUpTo(d, ys, shift, j - 1);
      var t := RowTotal(d, ys[j - 1], prev.carry);
      EmitShape(prev.digits, t, j == |ys|);
      var r := Emit(prev.digits, t, j == |ys|);
      assert r.digits[..shift] == r.digits[..|prev.digits|][..shift];
    }
  }

  lemma RowStepArith(vPrev: int, vNew: int, c: int, c': int, t: int, d: int, y: int,
                     a: int, b: int, p: int, p10: int, pj: int, s: int)
    requires vPrev + c * p == d * a * s
    requires vNew + c' * p10 == vPrev + t * p && t == d * y + c
    requires b == a + y * pj && p == pj * s
    ensures vNew + c' * p10 == d * b * s
  {
    calc {
      d * b * s;
      d * (a + y * pj) * s;
      d * a * s + d * y * (pj * s);
      vPrev + c * p + d * y * p;
      vPrev + t * p;
    }
  }

  /** One step of a row, stated over the previous digits and carry alone. */
  lemma RowStepValue(prev: seq<int>, c: int, d: int, y: int, done: seq<int>, shift: nat, last: bool)
    requires IsDigit(d) && IsDigit(y) && 0 <= c <= 8 && |prev| == shift + |done|
    requires Val(prev) + c * Pow10(shift + |done|) == d * Val(done) * Pow10(shift)
    ensures var r := Emit(prev, d * y + c, last);
      Val(r.digits) + r.carry * Pow10(shift + |done| + 1) == d * Val(done + [y]) * Pow10(shift)
  {
    DigitProduct(d, y);
    var t := d * y + c;
    EmitValue(prev, t, last);
    var r := Emit(prev, t, last);
    ValAppend(done, y);
    Pow10Add(|done|, shift);
    RowStepArith(Val(prev), Val(r.digits), c, r.carry, t, d, y,
                 Val(done), Val(done + [y]), Pow10(shift + |done|), Pow10(shift + |done| + 1),
                 Pow10(|done|), Pow10(shift));
  }

  lemma RowStartValue(d: int, ys: seq<int>, shift: nat)
    ensures var r := RowUpTo(d, ys, shift, 0);
      Val(r.digits) + r.carry * Pow10(shift) == d * Val(ys[..0]) * Pow10(shift)
  {
    ValZeros(shift);
    assert ys[..0] == [];
    assert d * Val(ys[..0]) * Pow10(shift) == 0;
    assert RowUpTo(d, ys, shift, 0).carry * Pow10(shift) == 0;
  }

  /** Digits plus carry of a row in progress spell d * val(ys[..j]) * 10^shift. */
  lemma {:induction false} RowUpToValue(d: int, ys: seq<int>, shift: nat, j: nat)
    requires IsDigit(d) && IsDigits(ys) && j <= |ys|
    ensures var r := RowUpTo(d, ys, shift, j);
      Val(r.digits) + r.carry * Pow10(shift + j) == d * Val(ys[..j]) * Pow10(shift)
  {
    if j == 0 {
      RowStartValue(d, ys, shift);
    } else {
      RowUpToValue(d, ys, shift, j - 1);
      RowUpToBounds(d, ys, shift, j - 1);
      var prev := RowUpTo(d, ys, shift, j - 1);
      assert ys[..j] == ys[..j - 1] + [ys[j - 1]];
      RowTotalNoWrap(d, ys[j - 1], prev.carry);
      RowStepValue(prev.digits, prev.carry, d, ys[j - 1], ys[..j - 1], shift, j == |ys|);
    }
  }

  /**
   * Row i of a multiplication: i zeros followed by the digits of
   * d * val(ys), every element a digit; its length is i + |ys| or one more.
   */
  lemma RowValue(d: int, ys: seq<int>, shift: nat)
    requires IsDigit(d) && IsDigits(ys)
    ensures var r := Row(d, ys, shift);
      IsDigits(r) && |r| >= shift && r[..shift] == Zeros(shift) &&
      Val(r) == d * Val(ys) * Pow10(shift) &&
      (|r| == shift + |ys| || (|ys| > 0 && |r| == shift + |ys| + 1))
  {
    RowUpToBounds(d, ys, shift, |ys|);
    RowUpToDigits(d, ys, shift, |ys|);
    RowUpToValue(d, ys, shift, |ys|);
    assert ys[..|ys|] == ys;
  }

  // ---------------------------------------------------------------------------
  // Summing the rows column by column

  /** The recorded lengths never exceed the rows, so every read is in bounds. */
  predicate RowsReadable(rows: seq<seq<int>>, lens: seq<int>, n: nat)
  {
    n <= |rows| && n <= |lens| && forall i :: 0 <= i < n ==> 0 <= lens[i] <= |rows[i]|
  }

  /** Column j summed over the first n rows; a row whose recorded length does not reach column j adds 0. */
  function ColumnTotal(rows: seq<seq<int>>, lens: seq<int>, n: nat, j: nat): int
    requires RowsReadable(rows, lens, n)
  {
    if n == 0 then 0
    else ColumnTotal(rows, lens, n - 1, j) + ColumnDigit(rows[n - 1], lens[n - 1], j)
  }

  /** The digit a row contributes to column j: 0 beyond its recorded length. */
  function ColumnDigit(row: seq<int>, len: int, j: nat): int
    requires len <= |row|
  {
    if j < len then row[j] else 0
  }

  /** The column sum after the first j columns, the last column being maxLen - 1. */
  function SumRowsUpTo(rows: seq<seq<int>>, lens: seq<int>, n: nat, maxLen: nat, j: nat): Carried
    requires RowsReadable(rows, lens, n) && j <= maxLen
  {
    if j == 0 then Carried([], 0)
    else
      var prev := SumRowsUpTo(rows, lens, n, maxLen, j - 1);
      Emit(prev.digits, ColumnTotal(rows, lens, n, j - 1) + prev.carry, j == maxLen)
  }

  function SumRows(rows: seq<seq<int>>, lens: seq<int>, n: nat, maxLen: nat): seq<int>
    requires RowsReadable(rows, lens, n)
  {
    SumRowsUpTo(rows, lens, n, maxLen, maxLen).digits
  }

  predicate RowsAreBytes(rows: seq<seq<int>>, n: nat)
    requires n <= |rows|
  {
    forall i :: 0 <= i < n ==> IsBytes(rows[i])
  }

  lemma {:induction false} ColumnTotalNonNegative(rows: seq<seq<int>>, lens: seq<int>, n: nat, j: nat)
    requires RowsReadable(rows, lens, n) && RowsAreBytes(rows, n)
    ensures ColumnTotal(rows, lens, n, j) >= 0
  {
    if n > 0 {
      ColumnTotalNonNegative(rows, lens, n - 1, j);
    }
  }

  /** Whatever the column totals, the carry stays a digit and the output has j digits, one more after a final flush. */
  lemma {:induction false} SumRowsUpToBounds(rows: seq<seq<int>>, lens: seq<int>, n: nat, maxLen: nat, j: nat)
    requires RowsReadable(rows, lens, n) && RowsAreBytes(rows, n) && j <= maxLen
    ensures var r := SumRowsUpTo(rows, lens, n, maxLen, j);
      0 <= r.carry <= 9 &&
      (|r.digits| == j || (j == maxLen && j > 0 && |r.digits| == j + 1)) &&
      (j == maxLen ==> r.carry == 0)
  {
    if j > 0 {
      SumRowsUpToBounds(rows, lens, n, maxLen, j - 1);
      var prev := SumRowsUpTo(rows, lens, n, maxLen, j - 1);
      ColumnTotalNonNegative(rows, lens, n, j - 1);
      EmitBounds(prev.digits, ColumnTotal(rows, lens, n, j - 1) + prev.carry, j == maxLen);
    }
  }

  /** Whatever the column totals, sum_rows emits only digits. */
  lemma {:induction false} SumRowsUpToDigits(rows: seq<seq<int>>, lens: seq<int>, n: nat, maxLen: nat, j: nat)
    requires RowsReadable(rows, lens, n) && RowsAreBytes(rows, n) && j <= maxLen
    ensures IsDigits(SumRowsUpTo(rows, lens, n, maxLen, j).digits)
  {
    if j > 0 {
      SumRowsUpToDigits(rows, lens, n, maxLen, j - 1);
      SumRowsUpToBounds(rows, lens, n, maxLen, j - 1);
      var prev := SumRowsUpTo(rows, lens, n, maxLen, j - 1);
      ColumnTotalNonNegative(rows, lens, n, j - 1);
      EmitShape(prev.digits, ColumnTotal(rows, lens, n, j - 1) + prev.carry, j == maxLen);
    }
  }

  lemma SumRowsShape(rows: seq<seq<int>>, lens: seq<int>, n: nat, maxLen: nat)
    requires RowsReadable(rows, lens, n) && RowsAreBytes(rows, n)
    ensures var out := SumRows(rows, lens, n, maxLen);
      IsDigits(out) && (|out| == maxLen || (maxLen > 0 && |out| == maxLen + 1))
  {
    SumRowsUpToBounds(rows, lens, n, maxLen, maxLen);
    SumRowsUpToDigits(rows, lens, n, maxLen, maxLen);
  }

  function Min(a: int, b: int): int { if a <= b then a else b }

  /** What the first j columns of the first n rows are worth. */
  ghost function RowsValue(rows: seq<seq<int>>, lens: seq<int>, n: nat, j: nat): int
    requires RowsReadable(rows, lens, n)
  {
    if n == 0 then 0
    else RowsValue(rows, lens, n - 1, j) + Val(rows[n - 1][..Min(j, lens[n - 1])])
  }

  /** One more column of a single row adds its digit there, if the row reaches that column. */
  lemma PrefixNextColumn(row: seq<int>, len: int, j: nat)
    requires 0 <= len <= |row|
    ensures Val(row[..Min(j + 1, len)]) == Val(row[..Min(j, len)]) + ColumnDigit(row, len, j) * Pow10(j)
  {
    if j < len {
      assert row[..j + 1] == row[..j] + [row[j]];
      ValAppend(row[..j], row[j]);
    } else {
      assert ColumnDigit(row, len, j) * Pow10(j) == 0;
    }
  }

  lemma AddScaled(a: int, b: int, a': int, x: int, y: int, p: int)
    requires a' == a + x * p
    ensures a' + b + y * p == a + b + (x + y) * p
  {
  }

  /** Taking one more column adds the column total at its position. */
  lemma {:induction false} RowsValueNextColumn(rows: seq<seq<int>>, lens: seq<int>, n: nat, j: nat)
    requires RowsReadable(rows, lens, n)
    ensures RowsValue(rows, lens, n, j + 1) == RowsValue(rows, lens, n, j) + ColumnTotal(rows, lens, n, j) * Pow10(j)
  {
    if n > 0 {
      RowsValueNextColumn(rows, lens, n - 1, j);
      PrefixNextColumn(rows[n - 1], lens[n - 1], j);
      AddScaled(RowsValue(rows, lens, n - 1, j), Val(rows[n - 1][..Min(j, lens[n - 1])]),
                RowsValue(rows, lens, n - 1, j + 1), ColumnTotal(rows, lens, n - 1, j),
                ColumnDigit(rows[n - 1], lens[n - 1], j), Pow10(j));
    }
  }

  /**
   * In each of the first j columns, the column total plus the carry that
   * reaches it is at most 99, so the tens digit kept by sum_rows is the whole
   * carry.
   */
  predicate ColumnsFitUpTo(rows: seq<seq<int>>, lens: seq<int>, n: nat, maxLen: nat, j: nat)
    requires RowsReadable(rows, lens, n) && j <= maxLen
  {
    j == 0 ||
    (ColumnsFitUpTo(rows, lens, n, maxLen, j - 1) && ColumnFits(rows, lens, n, maxLen, j - 1))
  }

  /** Every column fits. */
  predicate ColumnsFit(rows: seq<seq<int>>, lens: seq<int>, n: nat, maxLen: nat)
    requires RowsReadable(rows, lens, n)
  {
    ColumnsFitUpTo(rows, lens, n, maxLen, maxLen)
  }

  /** The first j columns fit exactly when each of them has a total plus incoming carry of at most 99. */
  lemma {:induction false} ColumnsFitUpToAll(rows: seq<seq<int>>, lens: seq<int>, n: nat, maxLen: nat, j: nat)
    requires RowsReadable(rows, lens, n) && j <= maxLen
    ensures ColumnsFitUpTo(rows, lens, n, maxLen, j) <==>
      forall k :: 0 <= k < j ==> ColumnFits(rows, lens, n, maxLen, k)
  {
    if j > 0 {
      ColumnsFitUpToAll(rows, lens, n, maxLen, j - 1);
    }
  }

  /** Column k's total plus the carry that reaches it is at most 99. */
  predicate ColumnFits(rows: seq<seq<int>>, lens: seq<int>, n: nat, maxLen: nat, k: nat)
    requires RowsReadable(rows, lens, n) && k <= maxLen
  {
    ColumnTotal(rows, lens, n, k) + SumRowsUpTo(rows, lens, n, maxLen, k).carry <= 99
  }

  /** Every column total is at most 90. */
  predicate ColumnsAtMost90(rows: seq<seq<int>>, lens: seq<int>, n: nat, maxLen: nat)
    requires RowsReadable(rows, lens, n)
  {
    forall j :: 0 <= j < maxLen ==> ColumnTotal(rows, lens, n, j) <= 90
  }

  /** A carry is a single digit, so column totals of at most 90 always fit. */
  lemma ColumnsAtMost90Fit(rows: seq<seq<int>>, lens: seq<int>, n: nat, maxLen: nat)
    requires RowsReadable(rows, lens, n) && RowsAreBytes(rows, n)
    requires ColumnsAtMost90(rows, lens, n, maxLen)
    ensures ColumnsFit(rows, lens, n, maxLen)
  {
    forall k | 0 <= k < maxLen
      ensures ColumnFits(rows, lens, n, maxLen, k)
    {
      SumRowsUpToBounds(rows, lens, n, maxLen, k);
    }
    ColumnsFitUpToAll(rows, lens, n, maxLen, maxLen);
  }

  lemma ColumnStepArith(vPrev: int, vNew: int, cPrev: int, cNew: int, total: int,
                        before: int, after: int, p: int, p10: int)
    requires vPrev + cPrev * p == before && after == before + total * p
    requires vNew + cNew * p10 == vPrev + (total + cPrev) * p
    ensures vNew + cNew * p10 == after
  {
  }

  lemma SumRowsStartValue(rows: seq<seq<int>>, lens: seq<int>, n: nat, maxLen: nat)
    requires RowsReadable(rows, lens, n)
    ensures var r := SumRowsUpTo(rows, lens, n, maxLen, 0);
      Val(r.digits) + r.carry * Pow10(0) == RowsValue(rows, lens, n, 0)
  {
    RowsValueNoColumns(rows, lens, n);
    assert SumRowsUpTo(rows, lens, n, maxLen, 0).carry * Pow10(0) == 0;
  }

  /** One column step, stated over the previous digits and carry alone. */
  lemma ColumnStepValue(prev: seq<int>, c: int, total: int, last: bool, before: int, after: int, j: nat)
    requires 0 <= total && 0 <= c && total + c <= 99 && |prev| == j
    requires Val(prev) + c * Pow10(j) == before && after == before + total * Pow10(j)
    ensures var r := Emit(prev, total + c, last);
      Val(r.digits) + r.carry * Pow10(j + 1) == after
  {
    EmitValue(prev, total + c, last);
    var r := Emit(prev, total + c, last);
    ColumnStepArith(Val(prev), Val(r.digits), c, r.carry, total, before, after, Pow10(j), Pow10(j + 1));
  }

  /** While columns fit, digits plus carry spell the columns summed so far. */
  lemma {:induction false} SumRowsUpToValue(rows: seq<seq<int>>, lens: seq<int>, n: nat, maxLen: nat, j: nat)
    requires RowsReadable(rows, lens, n) && RowsAreBytes(rows, n) && j <= maxLen
    requires ColumnsFitUpTo(rows, lens, n, maxLen, j)
    ensures var r := SumRowsUpTo(rows, lens, n, maxLen, j);
      Val(r.digits) + r.carry * Pow10(j) == RowsValue(rows, lens, n, j)
  {
    if j == 0 {
      SumRowsStartValue(rows, lens, n, maxLen);
    } else {
      SumRowsUpToValue(rows, lens, n, maxLen, j - 1);
      SumRowsValueStep(rows, lens, n, maxLen, j - 1);
    }
  }

  /** Column k adds its total at position k to what digits plus carry spell. */
  lemma SumRowsValueStep(rows: seq<seq<int>>, lens: seq<int>, n: nat, maxLen: nat, k: nat)
    requires RowsReadable(rows, lens, n) && RowsAreBytes(rows, n) && k < maxLen
    requires ColumnFits(rows, lens, n, maxLen, k)
    requires var r := SumRowsUpTo(rows, lens, n, maxLen, k);
      Val(r.digits) + r.carry * Pow10(k) == RowsValue(rows, lens, n, k)
    ensures var r := SumRowsUpTo(rows, lens, n, maxLen, k + 1);
      Val(r.digits) + r.carry * Pow10(k + 1) == RowsValue(rows, lens, n, k + 1)
  {
    SumRowsUpToBounds(rows, lens, n, maxLen, k);
    var prev := SumRowsUpTo(rows, lens, n, maxLen, k);
    var total := ColumnTotal(rows, lens, n, k);
    ColumnTotalNonNegative(rows, lens, n, k);
    RowsValueNextColumn(rows, lens, n, k);
    ColumnStepValue(prev.digits, prev.carry, total, k + 1 == maxLen,
                    RowsValue(rows, lens, n, k), RowsValue(rows, lens, n, k + 1), k);
  }

  lemma {:induction false} RowsValueNoColumns(rows: seq<seq<int>>, lens: seq<int>, n: nat)
    requires RowsReadable(rows, lens, n)
    ensures RowsValue(rows, lens, n, 0) == 0
  {
    if n > 0 {
      RowsValueNoColumns(rows, lens, n - 1);
    }
  }

  /** The sum of the values of the first n rows. */
  ghost function TotalValue(rows: seq<seq<int>>, n: nat): int
    requires n <= |rows|
  {
    if n == 0 then 0 else TotalValue(rows, n - 1) + Val(rows[n - 1])
  }

  /** Once every recorded length is the row's own and within maxLen, all columns together are worth all the rows. */
  lemma {:induction false} RowsValueAll(rows: seq<seq<int>>, lens: seq<int>, n: nat, maxLen: nat)
    requires RowsReadable(rows, lens, n)
    requires forall i :: 0 <= i < n ==> lens[i] == |rows[i]| <= maxLen
    ensures RowsValue(rows, lens, n, maxLen) == TotalValue(rows, n)
  {
    if n > 0 {
      RowsValueAll(rows, lens, n - 1, maxLen);
      assert rows[n - 1][..|rows[n - 1]|] == rows[n - 1];
    }
  }

  /**
   * sum_rows is exact while the columns fit: its output is digits and
   * spells the sum of the rows.
   */
  lemma SumRowsExact(rows: seq<seq<int>>, lens: seq<int>, n: nat, maxLen: nat)
    requires RowsReadable(rows, lens, n) && RowsAreBytes(rows, n)
    requires forall i :: 0 <= i < n ==> lens[i] == |rows[i]| <= maxLen
    requires ColumnsFit(rows, lens, n, maxLen)
    ensures IsDigits(SumRows(rows, lens, n, maxLen))
    ensures Val(SumRows(rows, lens, n, maxLen)) == TotalValue(rows, n)
  {
    SumRowsUpToBounds(rows, lens, n, maxLen, maxLen);
    SumRowsUpToDigits(rows, lens, n, maxLen, maxLen);
    SumRowsUpToValue(rows, lens, n, maxLen, maxLen);
    RowsValueAll(rows, lens, n, maxLen);
  }

  // ---------------------------------------------------------------------------
  // The column sum with the whole carry kept

  /**
   * The emission step of the corrected column sum: a total above 9 emits its
   * units digit and carries all of the rest (not just the tens digit); at the
   * last position every digit of the total is emitted.
   */
  function EmitFull(prev: seq<int>, t: int, last: bool): Carried
  {
    if t <= 9 then Carried(prev + [t], 0)
    else if !last then Carried(prev + [t % 10], t / 10)
    else Carried(prev + [t % 10] + DigitsOf(t / 10), 0)
  }

  lemma SplitDigit(t: int)
    requires 0 <= t
    ensures t == t % 10 + 10 * (t / 10) && 0 <= t % 10 <= 9 && 0 <= t / 10
  {
  }

  lemma EmitFullBounds(prev: seq<int>, t: int, last: bool)
    requires 0 <= t
    ensures var r := EmitFull(prev, t, last);
      0 <= r.carry && |r.digits| >= |prev| + 1 &&
      (!last ==> |r.digits| == |prev| + 1) && (last ==> r.carry == 0)
  {
  }

  lemma EmitFullShape(prev: seq<int>, t: int, last: bool)
    requires IsDigits(prev) && 0 <= t
    ensures var r := EmitFull(prev, t, last);
      IsDigits(r.digits) && r.digits[..|prev|] == prev
  {
    if t > 9 && last {
      DigitsOfSpells(t / 10);
    }
  }

  /** A final flush of every digit of t = m + 10q adds t at the old top position. */
  lemma ValAppendAll(prev: seq<int>, m: int, q: nat, t: int)
    requires t == m + 10 * q
    ensures Val(prev + [m] + DigitsOf(q)) == Val(prev) + t * Pow10(|prev|)
  {
    var low, high := prev + [m], DigitsOf(q);
    ValConcat(low, high);
    DigitsOfSpells(q);
    ValAppendCarry(prev, m, q, t);
    SubstituteScaled(Val(low + high), Val(low), Pow10(|prev| + 1), Val(high), q,
                     Val(prev) + t * Pow10(|prev|));
  }

  lemma SubstituteScaled(whole: int, low: int, p: int, v: int, q: int, target: int)
    requires whole == low + p * v && v == q && low + q * p == target
    ensures whole == target
  {
  }

  /** Whatever the total, the emitted digits and carry spell prev plus t at the next position. */
  lemma EmitFullValue(prev: seq<int>, t: int, last: bool)
    requires 0 <= t
    ensures var r := EmitFull(prev, t, last);
      Val(r.digits) + r.carry * Pow10(|prev| + 1) == Val(prev) + t * Pow10(|prev|)
  {
    var r := EmitFull(prev, t, last);
    if t <= 9 {
      EmitFullSingle(prev, t, r);
    } else if !last {
      SplitDigit(t);
      EmitFullCarry(prev, t, r);
    } else {
      SplitDigit(t);
      EmitFullFlush(prev, t, r);
    }
  }

  lemma EmitFullSingle(prev: seq<int>, t: int, r: Carried)
    requires r == Carried(prev + [t], 0)
    ensures Val(r.digits) + r.carry * Pow10(|prev| + 1) == Val(prev) + t * Pow10(|prev|)
  {
    assert r.carry * Pow10(|prev| + 1) == 0;
    ValAppend(prev, t);
  }

  lemma EmitFullCarry(prev: seq<int>, t: int, r: Carried)
    requires 0 <= t && r == Carried(prev + [t % 10], t / 10)
    ensures Val(r.digits) + r.carry * Pow10(|prev| + 1) == Val(prev) + t * Pow10(|prev|)
  {
    ValAppendCarry(prev, t % 10, t / 10, t);
  }

  lemma EmitFullFlush(prev: seq<int>, t: int, r: Carried)
    requires 0 <= t && r == Carried(prev + [t % 10] + DigitsOf(t / 10), 0)
    ensures Val(r.digits) + r.carry * Pow10(|prev| + 1) == Val(prev) + t * Pow10(|prev|)
  {
    assert r.carry * Pow10(|prev| + 1) == 0;
    ValAppendAll(prev, t % 10, t / 10, t);
  }

  /** Below 100 the two emission steps agree: a tens digit is all the carry there is. */
  lemma EmitAgrees(prev: seq<int>, t: int, last: bool)
    requires 0 <= t <= 99
    ensures Emit(prev, t, last) == EmitFull(prev, t, last)
  {
    if t > 9 {
      SplitTwoDigits(t);
      var q := t / 10;
      assert DigitsOf(q) == [q % 10] + DigitsOf(q / 10);
      assert DigitsOf(q) == [q];
    }
  }

  /** The corrected column sum after the first j columns. */
  function SumRowsFullUpTo(rows: seq<seq<int>>, lens: seq<int>, n: nat, maxLen: nat, j: nat): Carried
    requires RowsReadable(rows, lens, n) && j <= maxLen
  {
    if j == 0 then Carried([], 0)
    else
      var prev := SumRowsFullUpTo(rows, lens, n, maxLen, j - 1);
      EmitFull(prev.digits, ColumnTotal(rows, lens, n, j - 1) + prev.carry, j == maxLen)
  }

  function SumRowsFull(rows: seq<seq<int>>, lens: seq<int>, n: nat, maxLen: nat): seq<int>
    requires RowsReadable(rows, lens, n)
  {
    SumRowsFullUpTo(rows, lens, n, maxLen, maxLen).digits
  }

  lemma {:induction false} SumRowsFullUpToBounds(rows: seq<seq<int>>, lens: seq<int>, n: nat, maxLen: nat, j: nat)
    requires RowsReadable(rows, lens, n) && RowsAreBytes(rows, n) && j <= maxLen
    ensures var r := SumRowsFullUpTo(rows, lens, n, maxLen, j);
      0 <= r.carry && |r.digits| >= j && (j < maxLen ==> |r.digits| == j) &&
      (j == maxLen ==> r.carry == 0)
  {
    if j > 0 {
      SumRowsFullUpToBounds(rows, lens, n, maxLen, j - 1);
      var prev := SumRowsFullUpTo(rows, lens, n, maxLen, j - 1);
      ColumnTotalNonNegative(rows, lens, n, j - 1);
      EmitFullBounds(prev.digits, ColumnTotal(rows, lens, n, j - 1) + prev.carry, j == maxLen);
    }
  }

  lemma {:induction false} SumRowsFullUpToDigits(rows: seq<seq<int>>, lens: seq<int>, n: nat, maxLen: nat, j: nat)
    requires RowsReadable(rows, lens, n) && RowsAreBytes(rows, n) && j <= maxLen
    ensures IsDigits(SumRowsFullUpTo(rows, lens, n, maxLen, j).digits)
  {
    if j > 0 {
      SumRowsFullUpToDigits(rows, lens, n, maxLen, j - 1);
      SumRowsFullUpToBounds(rows, lens, n, maxLen, j - 1);
      var prev := SumRowsFullUpTo(rows, lens, n, maxLen, j - 1);
      ColumnTotalNonNegative(rows, lens, n, j - 1);
      EmitFullShape(prev.digits, ColumnTotal(rows, lens, n, j - 1) + prev.carry, j == maxLen);
    }
  }

  lemma ColumnStepFullValue(prev: seq<int>, c: int, total: int, last: bool, before: int, after: int, j: nat)
    requires 0 <= total && 0 <= c && |prev| == j
    requires Val(prev) + c * Pow10(j) == before && after == before + total * Pow10(j)
    ensures var r := EmitFull(prev, total + c, last);
      Val(r.digits) + r.carry * Pow10(j + 1) == after
  {
    EmitFullValue(prev, total + c, last);
    var r := EmitFull(prev, total + c, last);
    ColumnStepArith(Val(prev), Val(r.digits), c, r.carry, total, before, after, Pow10(j), Pow10(j + 1));
  }

  /** Digits plus carry of the corrected sum spell the columns summed so far, with no bound on the columns. */
  lemma {:induction false} SumRowsFullUpToValue(rows: seq<seq<int>>, lens: seq<int>, n: nat, maxLen: nat, j: nat)
    requires RowsReadable(rows, lens, n) && RowsAreBytes(rows, n) && j <= maxLen
    ensures var r := SumRowsFullUpTo(rows, lens, n, maxLen, j);
      Val(r.digits) + r.carry * Pow10(j) == RowsValue(rows, lens, n, j)
  {
    if j == 0 {
      RowsValueNoColumns(rows, lens, n);
      assert SumRowsFullUpTo(rows, lens, n, maxLen, 0).carry * Pow10(0) == 0;
    } else {
      SumRowsFullUpToValue(rows, lens, n, maxLen, j - 1);
      SumRowsFullValueStep(rows, lens, n, maxLen, j - 1);
    }
  }

  /** Column k of the corrected sum adds its total at position k, however large it is. */
  lemma SumRowsFullValueStep(rows: seq<seq<int>>, lens: seq<int>, n: nat, maxLen: nat, k: nat)
    requires RowsReadable(rows, lens, n) && RowsAreBytes(rows, n) && k < maxLen
    requires var r := SumRowsFullUpTo(rows, lens, n, maxLen, k);
      Val(r.digits) + r.carry * Pow10(k) == RowsValue(rows, lens, n, k)
    ensures var r := SumRowsFullUpTo(rows, lens, n, maxLen, k + 1);
      Val(r.digits) + r.carry * Pow10(k + 1) == RowsValue(rows, lens, n, k + 1)
  {
    SumRowsFullUpToBounds(rows, lens, n, maxLen, k);
    var prev := SumRowsFullUpTo(rows, lens, n, maxLen, k);
    var total := ColumnTotal(rows, lens, n, k);
    ColumnTotalNonNegative(rows, lens, n, k);
    RowsValueNextColumn(rows, lens, n, k);
    ColumnStepFullValue(prev.digits, prev.carry, total, k + 1 == maxLen,
                        RowsValue(rows, lens, n, k), RowsValue(rows, lens, n, k + 1), k);
  }

  /** The corrected column sum is always exact: its output is digits and spells the sum of the rows. */
  lemma SumRowsFullExact(rows: seq<seq<int>>, lens: seq<int>, n: nat, maxLen: nat)
    requires RowsReadable(rows, lens, n) && RowsAreBytes(rows, n)
    requires forall i :: 0 <= i < n ==> lens[i] == |rows[i]| <= maxLen
    ensures IsDigits(SumRowsFull(rows, lens, n, maxLen))
    ensures Val(SumRowsFull(rows, lens, n, maxLen)) == TotalValue(rows, n)
  {
    SumRowsFullUpToBounds(rows, lens, n, maxLen, maxLen);
    SumRowsFullUpToDigits(rows, lens, n, maxLen, maxLen);
    SumRowsFullUpToValue(rows, lens, n, maxLen, maxLen);
    RowsValueAll(rows, lens, n, maxLen);
  }

  /** A prefix of a prefix is a prefix. */
  lemma PrefixTrans(a: seq<int>, b: seq<int>, c: seq<int>)
    requires |a| <= |b| && b[..|a|] == a && |b| <= |c| && c[..|b|] == b
    ensures |a| <= |c| && c[..|a|] == a
  {
    assert c[..|a|] == c[..|b|][..|a|];
  }

  /** Later columns only append: the digits after j columns are a prefix of the digits after k columns. */
  lemma {:induction false} SumRowsPrefix(rows: seq<seq<int>>, lens: seq<int>, n: nat, maxLen: nat, j: nat, k: nat)
    requires RowsReadable(rows, lens, n) && RowsAreBytes(rows, n) && j <= k <= maxLen
    ensures var early, late := SumRowsUpTo(rows, lens, n, maxLen, j).digits, SumRowsUpTo(rows, lens, n, maxLen, k).digits;
      |early| <= |late| && late[..|early|] == early
  {
    if j < k {
      SumRowsPrefix(rows, lens, n, maxLen, j, k - 1);
      SumRowsStepPrefix(rows, lens, n, maxLen, k - 1);
      PrefixTrans(SumRowsUpTo(rows, lens, n, maxLen, j).digits, SumRowsUpTo(rows, lens, n, maxLen, k - 1).digits,
                  SumRowsUpTo(rows, lens, n, maxLen, k).digits);
    }
  }

  lemma SumRowsStepPrefix(rows: seq<seq<int>>, lens: seq<int>, n: nat, maxLen: nat, k: nat)
    requires RowsReadable(rows, lens, n) && RowsAreBytes(rows, n) && k < maxLen
    ensures var early, late := SumRowsUpTo(rows, lens, n, maxLen, k).digits, SumRowsUpTo(rows, lens, n, maxLen, k + 1).digits;
      |early| <= |late| && late[..|early|] == early
  {
    var prev := SumRowsUpTo(rows, lens, n, maxLen, k);
    SumRowsUpToDigits(rows, lens, n, maxLen, k);
    SumRowsUpToBounds(rows, lens, n, maxLen, k);
    ColumnTotalNonNegative(rows, lens, n, k);
    EmitShape(prev.digits, ColumnTotal(rows, lens, n, k) + prev.carry, k + 1 == maxLen);
  }

  /** The same for the column sum that keeps the whole carry. */
  lemma {:induction false} SumRowsFullPrefix(rows: seq<seq<int>>, lens: seq<int>, n: nat, maxLen: nat, j: nat, k: nat)
    requires RowsReadable(rows, lens, n) && RowsAreBytes(rows, n) && j <= k <= maxLen
    ensures var early, late := SumRowsFullUpTo(rows, lens, n, maxLen, j).digits, SumRowsFullUpTo(rows, lens, n, maxLen, k).digits;
      |early| <= |late| && late[..|early|] == early
  {
    if j < k {
      SumRowsFullPrefix(rows, lens, n, maxLen, j, k - 1);
      SumRowsFullStepPrefix(rows, lens, n, maxLen, k - 1);
      PrefixTrans(SumRowsFullUpTo(rows, lens, n, maxLen, j).digits, SumRowsFullUpTo(rows, lens, n, maxLen, k - 1).digits,
                  SumRowsFullUpTo(rows, lens, n, maxLen, k).digits);
    }
  }

  lemma SumRowsFullStepPrefix(rows: seq<seq<int>>, lens: seq<int>, n: nat, maxLen: nat, k: nat)
    requires RowsReadable(rows, lens, n) && RowsAreBytes(rows, n) && k < maxLen
    ensures var early, late := SumRowsFullUpTo(rows, lens, n, maxLen, k).digits, SumRowsFullUpTo(rows, lens, n, maxLen, k + 1).digits;
      |early| <= |late| && late[..|early|] == early
  {
    var prev := SumRowsFullUpTo(rows, lens, n, maxLen, k);
    SumRowsFullUpToDigits(rows, lens, n, maxLen, k);
    SumRowsFullUpToBounds(rows, lens, n, maxLen, k);
    ColumnTotalNonNegative(rows, lens, n, k);
    EmitFullShape(prev.digits, ColumnTotal(rows, lens, n, k) + prev.carry, k + 1 == maxLen);
  }

  /** While the columns fit, the column sum as written and the corrected one produce the same digits. */
  lemma {:induction false} SumRowsAgree(rows: seq<seq<int>>, lens: seq<int>, n: nat, maxLen: nat, j: nat)
    requires RowsReadable(rows, lens, n) && RowsAreBytes(rows, n) && j <= maxLen
    requires ColumnsFitUpTo(rows, lens, n, maxLen, j)
    ensures SumRowsUpTo(rows, lens, n, maxLen, j) == SumRowsFullUpTo(rows, lens, n, maxLen, j)
  {
    if j > 0 {
      SumRowsAgree(rows, lens, n, maxLen, j - 1);
      SumRowsAgreeStep(rows, lens, n, maxLen, j - 1);
    }
  }

  /** Column k keeps the two sums in step: equal before it, equal after it. */
  lemma SumRowsAgreeStep(rows: seq<seq<int>>, lens: seq<int>, n: nat, maxLen: nat, k: nat)
    requires RowsReadable(rows, lens, n) && RowsAreBytes(rows, n) && k < maxLen
    requires ColumnFits(rows, lens, n, maxLen, k)
    requires SumRowsUpTo(rows, lens, n, maxLen, k) == SumRowsFullUpTo(rows, lens, n, maxLen, k)
    ensures SumRowsUpTo(rows, lens, n, maxLen, k + 1) == SumRowsFullUpTo(rows, lens, n, maxLen, k + 1)
  {
    SumRowsUpToBounds(rows, lens, n, maxLen, k);
    var prev := SumRowsUpTo(rows, lens, n, maxLen, k);
    var total := ColumnTotal(rows, lens, n, k);
    ColumnTotalNonNegative(rows, lens, n, k);
    EmitAgrees(prev.digits, total + prev.carry, k + 1 == maxLen);
  }

  /**
   * The column sum as written loses the hundreds of a column total: twelve
   * one-digit rows of 9 add up to 108, but the output spells 8.
   */
  lemma SumRowsDropsHundreds()
    ensures var rows := seq(12, _ => [9]);
      var lens := seq(12, _ => 1);
      RowsReadable(rows, lens, 12) &&
      SumRows(rows, lens, 12, 1) == [8, 0] && Val([8, 0]) == 8 &&
      TotalValue(rows, 12) == 108 && SumRowsFull(rows, lens, 12, 1) == [8, 0, 1]
  {
    var rows: seq<seq<int>> := seq(12, _ => [9]);
    var lens: seq<int> := seq(12, _ => 1);
    assert RowsReadable(rows, lens, 12);
    var k := 0;
    while k < 12
      invariant k <= 12 && ColumnTotal(rows, lens, k, 0) == 9 * k
      invariant TotalValue(rows, k) == 9 * k
    {
      assert Val(rows[k]) == 9 by { assert rows[k] == [9]; assert rows[k][1..] == []; }
      k := k + 1;
    }
    assert SumRowsUpTo(rows, lens, 12, 1, 1) == Emit([], 108, true);
    assert SumRowsFullUpTo(rows, lens, 12, 1, 1) == EmitFull([], 108, true);
    assert DigitsOf(10) == [0] + DigitsOf(1);
    assert DigitsOf(1) == [1] + DigitsOf(0);
    assert [8, 0][1..] == [0] && [0][1..] == [];
  }

  // ---------------------------------------------------------------------------
  // The whole multiplication

  /** The operand that drives the rows: the shorter one, and the second on a tie. */
  function Shorter(x: seq<int>, y: seq<int>): seq<int> { if |y| > |x| then x else y }

  function Longer(x: seq<int>, y: seq<int>): seq<int> { if |y| > |x| then y else x }

  /** Row i is the row for digit xs[i], shifted by i. */
  function Rows(xs: seq<int>, ys: seq<int>): (rows: seq<seq<int>>)
    ensures |rows| == |xs|
  {
    seq(|xs|, i requires 0 <= i < |xs| => Row(xs[i], ys, i))
  }

  /** The recorded length of each row: its own length. */
  function Lengths(rows: seq<seq<int>>): (lens: seq<int>)
    ensures |lens| == |rows| && forall i :: 0 <= i < |rows| ==> lens[i] == |rows[i]|
  {
    seq(|rows|, i requires 0 <= i < |rows| => |rows[i]|)
  }

  /** The width handed to the column sum: the length of the last row built, 0 when there is none. */
  function LastLength(rows: seq<seq<int>>): nat
  {
    if rows == [] then 0 else |rows[|rows| - 1]|
  }

  /** multiplication_operation as written: rows of the shorter operand, summed keeping only tens carries. */
  function Product(x: seq<int>, y: seq<int>): seq<int>
  {
    var rows := Rows(Shorter(x, y), Longer(x, y));
    SumRows(rows, Lengths(rows), |rows|, LastLength(rows))
  }

  /** The same rows, summed keeping the whole carry. */
  function ProductFullCarry(x: seq<int>, y: seq<int>): seq<int>
  {
    var rows := Rows(Shorter(x, y), Longer(x, y));
    SumRowsFull(rows, Lengths(rows), |rows|, LastLength(rows))
  }

  /** Every column of the rows of x * y, with the carry that reaches it, totals at most 99. */
  predicate ProductExact(x: seq<int>, y: seq<int>)
  {
    var rows := Rows(Shorter(x, y), Longer(x, y));
    ColumnsFit(rows, Lengths(rows), |rows|, LastLength(rows))
  }

  /** Every row is a digit vector worth its digit times ys, shifted; row i has i + |ys| digits or one more. */
  lemma RowsFacts(xs: seq<int>, ys: seq<int>)
    requires IsDigits(xs) && IsDigits(ys)
    ensures forall i :: 0 <= i < |xs| ==>
      IsDigits(Rows(xs, ys)[i]) && Val(Rows(xs, ys)[i]) == xs[i] * Val(ys) * Pow10(i) &&
      (|Rows(xs, ys)[i]| == i + |ys| || (|ys| > 0 && |Rows(xs, ys)[i]| == i + |ys| + 1))
  {
    forall i | 0 <= i < |xs|
      ensures IsDigits(Rows(xs, ys)[i]) && Val(Rows(xs, ys)[i]) == xs[i] * Val(ys) * Pow10(i) &&
        (|Rows(xs, ys)[i]| == i + |ys| || (|ys| > 0 && |Rows(xs, ys)[i]| == i + |ys| + 1))
    {
      RowValue(xs[i], ys, i);
    }
  }

  /** Rows of digits are rows of bytes. */
  lemma DigitRowsAreBytes(rows: seq<seq<int>>)
    requires forall i :: 0 <= i < |rows| ==> IsDigits(rows[i])
    ensures RowsAreBytes(rows, |rows|)
  {
  }

  /** Whatever the operand bytes, every row is a digit vector, so the rows can be summed. */
  lemma RowsSummable(xs: seq<int>, ys: seq<int>)
    ensures var rows := Rows(xs, ys);
      RowsReadable(rows, Lengths(rows), |rows|) && RowsAreBytes(rows, |rows|)
  {
    var rows := Rows(xs, ys);
    forall k | 0 <= k < |rows|
      ensures IsDigits(rows[k])
    {
      RowUpToDigits(xs[k], ys, k, |ys|);
    }
    DigitRowsAreBytes(rows);
  }

  /** With the shorter operand driving, the last row is the longest, and no longer than both operands together. */
  lemma LastRowLongest(xs: seq<int>, ys: seq<int>)
    requires IsDigits(xs) && IsDigits(ys) && |xs| <= |ys|
    ensures var rows := Rows(xs, ys);
      LastLength(rows) <= |xs| + |ys| &&
      forall i :: 0 <= i < |rows| ==> |rows[i]| <= LastLength(rows)
  {
    RowsFacts(xs, ys);
  }

  lemma ScaleStep(total: int, total': int, a: int, a': int, d: int, v: int, p: int)
    requires total == a * v && total' == total + d * v * p && a' == a + d * p
    ensures total' == a' * v
  {
  }

  /** The first k rows together are worth the first k digits of xs times ys. */
  lemma {:induction false} RowsTotal(xs: seq<int>, ys: seq<int>, k: nat)
    requires IsDigits(xs) && IsDigits(ys) && k <= |xs|
    ensures TotalValue(Rows(xs, ys), k) == Val(xs[..k]) * Val(ys)
  {
    if k == 0 {
      assert xs[..0] == [];
    } else {
      RowsTotal(xs, ys, k - 1);
      RowValue(xs[k - 1], ys, k - 1);
      assert xs[..k] == xs[..k - 1] + [xs[k - 1]];
      ValAppend(xs[..k - 1], xs[k - 1]);
      ScaleStep(TotalValue(Rows(xs, ys), k - 1), TotalValue(Rows(xs, ys), k),
                Val(xs[..k - 1]), Val(xs[..k]), xs[k - 1], Val(ys), Pow10(k - 1));
    }
  }

  /** Summing the rows of xs * ys with the whole carry spells val(xs) * val(ys). */
  lemma RowsSumFullCarry(xs: seq<int>, ys: seq<int>)
    requires IsDigits(xs) && IsDigits(ys) && |xs| <= |ys|
    ensures var rows := Rows(xs, ys);
      IsDigits(SumRowsFull(rows, Lengths(rows), |rows|, LastLength(rows))) &&
      Val(SumRowsFull(rows, Lengths(rows), |rows|, LastLength(rows))) == Val(xs) * Val(ys)
  {
    var rows := Rows(xs, ys);
    var lens, n, maxLen := Lengths(rows), |rows|, LastLength(rows);
    RowsFacts(xs, ys);
    DigitRowsAreBytes(rows);
    LastRowLongest(xs, ys);
    SumRowsFullExact(rows, lens, n, maxLen);
    RowsTotal(xs, ys, |xs|);
    assert xs[..|xs|] == xs;
  }

  /** The corrected multiplication is exact for all digit vectors. */
  lemma ProductFullCarryCorrect(x: seq<int>, y: seq<int>)
    requires IsDigits(x) && IsDigits(y)
    ensures IsDigits(ProductFullCarry(x, y)) && Val(ProductFullCarry(x, y)) == Val(x) * Val(y)
  {
    if |y| > |x| {
      RowsSumFullCarry(x, y);
    } else {
      RowsSumFullCarry(y, x);
      assert Val(y) * Val(x) == Val(x) * Val(y);
    }
  }

  /** While the columns fit, the multiplication as written agrees with the corrected one. */
  lemma ProductAgrees(x: seq<int>, y: seq<int>)
    requires IsDigits(x) && IsDigits(y) && ProductExact(x, y)
    ensures Product(x, y) == ProductFullCarry(x, y)
  {
    var xs, ys := Shorter(x, y), Longer(x, y);
    var rows := Rows(xs, ys);
    RowsFacts(xs, ys);
    DigitRowsAreBytes(rows);
    SumRowsAgree(rows, Lengths(rows), |rows|, LastLength(rows), LastLength(rows));
  }

  /** The multiplication as written is exact whenever its columns fit. */
  lemma ProductCorrect(x: seq<int>, y: seq<int>)
    requires IsDigits(x) && IsDigits(y) && ProductExact(x, y)
    ensures IsDigits(Product(x, y)) && Val(Product(x, y)) == Val(x) * Val(y)
  {
    ProductAgrees(x, y);
    ProductFullCarryCorrect(x, y);
  }

  /** A column of n digit rows totals at most 9n. */
  lemma {:induction false} ColumnTotalBound(rows: seq<seq<int>>, lens: seq<int>, n: nat, j: nat)
    requires RowsReadable(rows, lens, n)
    requires forall i :: 0 <= i < n ==> IsDigits(rows[i])
    ensures ColumnTotal(rows, lens, n, j) <= 9 * n
  {
    if n > 0 {
      ColumnTotalBound(rows, lens, n - 1, j);
    }
  }

  /** When the shorter operand has at most ten digits, every column fits, so the multiplication as written is exact. */
  lemma ShortOperandFits(x: seq<int>, y: seq<int>)
    requires IsDigits(x) && IsDigits(y) && Min(|x|, |y|) <= 10
    ensures ProductExact(x, y)
  {
    var xs, ys := Shorter(x, y), Longer(x, y);
    var rows := Rows(xs, ys);
    RowsFacts(xs, ys);
    DigitRowsAreBytes(rows);
    forall j | 0 <= j < LastLength(rows)
      ensures ColumnTotal(rows, Lengths(rows), |rows|, j) <= 90
    {
      ColumnTotalBound(rows, Lengths(rows), |rows|, j);
    }
    ColumnsAtMost90Fit(rows, Lengths(rows), |rows|, LastLength(rows));
  }

  /** Whatever its column totals, the multiplication as written yields a digit vector. */
  lemma ProductIsDigits(x: seq<int>, y: seq<int>)
    requires IsDigits(x) && IsDigits(y)
    ensures IsDigits(Product(x, y))
  {
    var xs, ys := Shorter(x, y), Longer(x, y);
    var rows := Rows(xs, ys);
    RowsFacts(xs, ys);
    DigitRowsAreBytes(rows);
    SumRowsShape(rows, Lengths(rows), |rows|, LastLength(rows));
  }

  /** The multiplication as written yields at most |x| + |y| + 1 digits. */
  lemma ProductLength(x: seq<int>, y: seq<int>)
    requires IsDigits(x) && IsDigits(y)
    ensures |Product(x, y)| <= |x| + |y| + 1
  {
    var xs, ys := Shorter(x, y), Longer(x, y);
    var rows := Rows(xs, ys);
    RowsFacts(xs, ys);
    DigitRowsAreBytes(rows);
    SumRowsShape(rows, Lengths(rows), |rows|, LastLength(rows));
  }

  /** An empty operand (the value 0) gives the empty product. */
  lemma ProductOfEmpty(x: seq<int>, y: seq<int>)
    requires x == [] || y == []
    ensures Product(x, y) == [] && ProductFullCarry(x, y) == []
  {
    var rows := Rows(Shorter(x, y), Longer(x, y));
    assert rows == [];
  }
}

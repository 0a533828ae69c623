/**
 * A multiplication on which the column sum as written goes wrong:
 * 99999999999 (eleven nines) times itself. Every row is 899999999991
 * shifted; column j (j <= 10) totals 1 + 9j, so with the carries the column
 * sums run 1, 10, 20, ..., 90 and column 10 reaches 91 + 9 = 100. The tens
 * digit of 100 is 0, so the carry of 10 is lost, and digit 12 of the result
 * comes out 8 where the exact square has 9. Ten-digit operands are the
 * longest for which ShortOperandFits guarantees an exact product; this shows
 * that eleven digits can already fail.
 */
module ColumnOverflow {
  import opened Digits
  import opened LongMultiplication

  /** 99999999999, least significant digit first. */
  function ElevenNines(): seq<int>
  {
    seq(11, _ => 9)
  }

  /** 9 * 99999999999 = 899999999991, least significant digit first. */
  function NineRow(): seq<int>
  {
    [1] + seq(10, _ => 9) + [8]
  }

  /** Before the last digit, the row for digit 9 has emitted 1 and then nines, and carries 8. */
  lemma {:induction false} NineRowUpTo(shift: nat, j: nat)
    requires 1 <= j <= 10
    ensures RowUpTo(9, ElevenNines(), shift, j) == Carried(Zeros(shift) + NineRow()[..j], 8)
  {
    TimesIsProduct(9, 9);
    if j > 1 {
      NineRowUpTo(shift, j - 1);
      assert NineRow()[..j] == NineRow()[..j - 1] + [9];
      assert Zeros(shift) + NineRow()[..j] == (Zeros(shift) + NineRow()[..j - 1]) + [9];
    } else {
      assert NineRow()[..1] == [1];
    }
  }

  /** The row for digit 9 shifted by i is i zeros followed by 899999999991. */
  lemma NineRowAll(shift: nat)
    ensures Row(9, ElevenNines(), shift) == Zeros(shift) + NineRow()
  {
    NineRowUpTo(shift, 10);
    TimesIsProduct(9, 9);
    assert NineRow() == NineRow()[..10] + [9, 8];
    assert Zeros(shift) + NineRow() == (Zeros(shift) + NineRow()[..10]) + [9, 8];
  }

  /** Rows and recorded lengths shaped like those of the square: row i is i zeros followed by 899999999991. */
  ghost predicate NineRows(rows: seq<seq<int>>, lens: seq<int>)
  {
    |rows| == 11 && |lens| == 11 &&
    forall i :: 0 <= i < 11 ==> rows[i] == Zeros(i) + NineRow() && lens[i] == i + 12
  }

  lemma NineRowsReadable(rows: seq<seq<int>>, lens: seq<int>)
    requires NineRows(rows, lens)
    ensures RowsReadable(rows, lens, 11) && RowsAreBytes(rows, 11)
  {
    forall i | 0 <= i < 11
      ensures IsBytes(rows[i])
    {
      assert IsDigits(Zeros(i) + NineRow());
    }
  }

  /** The rows the multiplication builds for the square have that shape, and the width is 22. */
  lemma SquareRows()
    ensures var x := ElevenNines(); var rows := Rows(Shorter(x, x), Longer(x, x));
      NineRows(rows, Lengths(rows)) && |rows| == 11 && LastLength(rows) == 22
  {
    var x := ElevenNines();
    assert Shorter(x, x) == x && Longer(x, x) == x;
    var rows := Rows(x, x);
    forall i | 0 <= i < 11
      ensures rows[i] == Zeros(i) + NineRow()
    {
      NineRowAll(i);
    }
  }

  /** The digit row i of the square contributes to column j. */
  function NineDigit(i: nat, j: nat): int
  {
    if j < i then 0
    else if j == i then 1
    else if j <= i + 10 then 9
    else if j == i + 11 then 8
    else 0
  }

  lemma RowDigit(i: nat, j: nat)
    requires i < 11
    ensures ColumnDigit(Zeros(i) + NineRow(), i + 12, j) == NineDigit(i, j)
  {
    if i <= j < i + 12 {
      assert (Zeros(i) + NineRow())[j] == NineRow()[j - i];
    }
  }

  /** Column j of the first n rows, in closed form, for the first thirteen columns. */
  function NineColumn(n: nat, j: nat): int
  {
    if j <= 10 then (if n <= j then 9 * n else 1 + 9 * j)
    else if j == 11 then (if n == 0 then 0 else 9 * n - 1)
    else (if n <= 1 then 0 else 9 * n - 10)
  }

  lemma {:induction false} NineColumnUpTo(rows: seq<seq<int>>, lens: seq<int>, n: nat, j: nat)
    requires NineRows(rows, lens) && n <= 11 && j <= 12
    ensures RowsReadable(rows, lens, n) && ColumnTotal(rows, lens, n, j) == NineColumn(n, j)
  {
    NineRowsReadable(rows, lens);
    if n > 0 {
      NineColumnUpTo(rows, lens, n - 1, j);
      RowDigit(n - 1, j);
    }
  }

  /** Column j of the square totals 1 + 9j up to column 10, then 98 and 89. */
  lemma NineColumnTotal(rows: seq<seq<int>>, lens: seq<int>, j: nat)
    requires NineRows(rows, lens) && j <= 12
    ensures RowsReadable(rows, lens, 11) &&
      ColumnTotal(rows, lens, 11, j) == (if j <= 10 then 1 + 9 * j else if j == 11 then 98 else 89)
  {
    NineColumnUpTo(rows, lens, 11, j);
  }

  /** The column totals of the square: 1 + 9j for columns 0 to 10, then 98 and 89. */
  ghost predicate SquareColumns(rows: seq<seq<int>>, lens: seq<int>)
  {
    RowsReadable(rows, lens, 11) && RowsAreBytes(rows, 11) &&
    (forall j :: 0 <= j <= 10 ==> ColumnTotal(rows, lens, 11, j) == 1 + 9 * j) &&
    ColumnTotal(rows, lens, 11, 11) == 98 && ColumnTotal(rows, lens, 11, 12) == 89
  }

  lemma NineRowsColumns(rows: seq<seq<int>>, lens: seq<int>)
    requires NineRows(rows, lens)
    ensures SquareColumns(rows, lens)
  {
    NineRowsReadable(rows, lens);
    forall j | 0 <= j <= 12
      ensures ColumnTotal(rows, lens, 11, j) == (if j <= 10 then 1 + 9 * j else if j == 11 then 98 else 89)
    {
      NineColumnTotal(rows, lens, j);
    }
  }

  /** Column j - 1 (1 <= j - 1 <= 9) receives carry j - 2 and sums to 10(j - 1): digit 0, carry j - 1. */
  lemma LowColumnSum(prev: seq<int>, total: int, j: nat)
    requires 2 <= j <= 10 && total == 1 + 9 * (j - 1)
    ensures Emit(prev, total + (j - 2), false) == Carried(prev + [0], j - 1)
    ensures EmitFull(prev, total + (j - 2), false) == Carried(prev + [0], j - 1)
  {
    var t := 10 * (j - 1);
    assert total + (j - 2) == t;
    assert t % 10 == 0 && t / 10 == j - 1;
  }

  /** Up to column 9, after j columns the digits are 1 and then zeros, and the carry is j - 1. */
  lemma {:induction false} LowColumns(rows: seq<seq<int>>, lens: seq<int>, j: nat)
    requires SquareColumns(rows, lens) && 1 <= j <= 10
    ensures SumRowsUpTo(rows, lens, 11, 22, j) == Carried([1] + Zeros(j - 1), j - 1)
  {
    if j > 1 {
      LowColumns(rows, lens, j - 1);
      var prev := SumRowsUpTo(rows, lens, 11, 22, j - 1);
      LowColumnSum(prev.digits, ColumnTotal(rows, lens, 11, j - 1), j);
      assert [1] + Zeros(j - 1) == prev.digits + [0];
    } else {
      assert ColumnTotal(rows, lens, 11, 0) == 1;
    }
  }

  /** The corrected sum agrees on the first ten columns. */
  lemma {:induction false} LowColumnsFull(rows: seq<seq<int>>, lens: seq<int>, j: nat)
    requires SquareColumns(rows, lens) && 1 <= j <= 10
    ensures SumRowsFullUpTo(rows, lens, 11, 22, j) == Carried([1] + Zeros(j - 1), j - 1)
  {
    if j > 1 {
      LowColumnsFull(rows, lens, j - 1);
      var prev := SumRowsFullUpTo(rows, lens, 11, 22, j - 1);
      LowColumnSum(prev.digits, ColumnTotal(rows, lens, 11, j - 1), j);
      assert [1] + Zeros(j - 1) == prev.digits + [0];
    } else {
      assert ColumnTotal(rows, lens, 11, 0) == 1;
    }
  }

  /**
   * Columns 10 to 12 as written: column 10 sums to 100, whose tens digit 0 is
   * all the sum carries, and columns 11 and 12 then emit 8 and 8.
   */
  lemma HighColumns(rows: seq<seq<int>>, lens: seq<int>)
    requires SquareColumns(rows, lens)
    ensures ColumnTotal(rows, lens, 11, 10) + SumRowsUpTo(rows, lens, 11, 22, 10).carry == 100
    ensures SumRowsUpTo(rows, lens, 11, 22, 11).carry == 0
    ensures SumRowsUpTo(rows, lens, 11, 22, 13).digits == [1] + Zeros(10) + [8, 8]
  {
    LowColumns(rows, lens, 10);
    assert ColumnTotal(rows, lens, 11, 10) == 91;
    assert [1] + Zeros(10) == ([1] + Zeros(9)) + [0];
  }

  /** The corrected sum carries 10 out of column 10, and columns 11 and 12 then emit 8 and 9. */
  lemma HighColumnsFull(rows: seq<seq<int>>, lens: seq<int>)
    requires SquareColumns(rows, lens)
    ensures SumRowsFullUpTo(rows, lens, 11, 22, 11).carry == 10
    ensures SumRowsFullUpTo(rows, lens, 11, 22, 13).digits == [1] + Zeros(10) + [8, 9]
  {
    LowColumnsFull(rows, lens, 10);
    assert ColumnTotal(rows, lens, 11, 10) == 91;
    assert [1] + Zeros(10) == ([1] + Zeros(9)) + [0];
  }

  /** Digit 12 of the sum of such rows is 8 as written and 9 when the whole carry is kept. */
  lemma NineDigit12(rows: seq<seq<int>>, lens: seq<int>)
    requires NineRows(rows, lens)
    ensures RowsReadable(rows, lens, 11)
    ensures var p, q := SumRows(rows, lens, 11, 22), SumRowsFull(rows, lens, 11, 22);
      |p| > 12 && |q| > 12 && p[12] == 8 && q[12] == 9
  {
    NineRowsColumns(rows, lens);
    HighColumns(rows, lens);
    HighColumnsFull(rows, lens);
    SumRowsPrefix(rows, lens, 11, 22, 13, 22);
    SumRowsFullPrefix(rows, lens, 11, 22, 13, 22);
    var p, q := SumRowsUpTo(rows, lens, 11, 22, 22).digits, SumRowsFullUpTo(rows, lens, 11, 22, 22).digits;
    assert p[12] == p[..13][12] && q[12] == q[..13][12];
  }

  /** Digit 12 of the square is 8 as written and 9 when the whole carry is kept. */
  lemma SquareDigit12()
    ensures var x := ElevenNines();
      |Product(x, x)| > 12 && |ProductFullCarry(x, x)| > 12 &&
      Product(x, x)[12] == 8 && ProductFullCarry(x, x)[12] == 9
  {
    var x := ElevenNines();
    var rows := Rows(Shorter(x, x), Longer(x, x));
    SquareRows();
    NineDigit12(rows, Lengths(rows));
  }

  /**
   * Squaring 99999999999 with the multiplication as written: the columns do
   * not fit, and the result does not spell the square, which the corrected
   * multiplication does.
   */
  lemma ElevenNinesSquared()
    ensures var x := ElevenNines();
      IsDigits(x) && !ProductExact(x, x) &&
      Val(ProductFullCarry(x, x)) == Val(x) * Val(x) &&
      Val(Product(x, x)) != Val(x) * Val(x)
  {
    var x := ElevenNines();
    SquareDigit12();
    ProductIsDigits(x, x);
    ProductFullCarryCorrect(x, x);
    DigitDiffers(Product(x, x), ProductFullCarry(x, x), 12);
    if ProductExact(x, x) {
      ProductCorrect(x, x);
    }
  }
}

/**
 * Progress accounting shown under the annotation widgets: the position
 * indicator fed to the progress bar and the "Qty annotated" count, the sum
 * of the `reviewed` column.
 */
module Progress {
  import opened Table

  /**
   * The progress bar's value at `cursor` in a table of `n` rows: 0 at the
   * first row, otherwise (cursor + 1) / n, as an exact fraction.
   */
  function Position(cursor: int, n: int): (p: real)
    requires 0 <= cursor < n
    ensures 0.0 <= p <= 1.0
    ensures p == 0.0 <==> cursor == 0
    ensures cursor == n - 1 && n > 1 ==> p == 1.0
  {
    if cursor == 0 then 0.0 else (cursor + 1) as real / n as real
  }

  /** Moving further into the table never moves the progress bar back. */
  lemma PositionIncreases(c1: int, c2: int, n: int)
    requires 0 <= c1 < c2 < n
    ensures Position(c1, n) < Position(c2, n)
  {
    if c1 > 0 {
      var a, b, d := (c1 + 1) as real, (c2 + 1) as real, n as real;
      assert a / d < b / d by {
        assert b / d - a / d == (b - a) / d;
        assert (b - a) / d > 0.0;
      }
    }
  }

  /** The number a cell contributes to a column sum; missing and non-integer cells add 0. */
  function IntValue(c: Cell): (n: int) {
    if c.Int? then c.i else 0
  }

  /** `df[col].sum()` over an integer column (missing values skipped). */
  function ColumnSum(rows: seq<Row>, col: string): (s: int)
    requires forall k :: 0 <= k < |rows| ==> col in rows[k]
    ensures FlagColumn(rows, col) ==> 0 <= s <= |rows|
  {
    if rows == [] then 0 else ColumnSum(rows[..|rows| - 1], col) + IntValue(rows[|rows| - 1][col])
  }

  /** Number of rows whose `col` cell is the flag 1. */
  function CountFlagged(rows: seq<Row>, col: string): (n: nat)
    requires forall k :: 0 <= k < |rows| ==> col in rows[k]
    ensures n <= |rows|
  {
    if rows == [] then 0
    else CountFlagged(rows[..|rows| - 1], col) + (if rows[|rows| - 1][col] == Int(1) then 1 else 0)
  }

  /** A column holding only 0/1 flags. */
  predicate FlagColumn(rows: seq<Row>, col: string) {
    forall k :: 0 <= k < |rows| ==> col in rows[k] && rows[k][col] in {Int(0), Int(1)}
  }

  /** On a flag column the sum is the number of set flags, so it lies in [0, n]. */
  lemma {:induction false} SumCountsFlags(rows: seq<Row>, col: string)
    requires FlagColumn(rows, col)
    ensures ColumnSum(rows, col) == CountFlagged(rows, col)
    ensures 0 <= ColumnSum(rows, col) <= |rows|
  {
    if rows != [] {
      SumCountsFlags(rows[..|rows| - 1], col);
    }
  }

  /**
   * Two tables that agree on `col` except at row `i`: their sums differ by
   * exactly the change at row `i`.
   */
  lemma {:induction false} SumPointChange(a: seq<Row>, b: seq<Row>, col: string, i: nat)
    requires |a| == |b| && i < |a|
    requires forall k :: 0 <= k < |a| ==> col in a[k] && col in b[k]
    requires forall k :: 0 <= k < |a| && k != i ==> a[k][col] == b[k][col]
    ensures ColumnSum(b, col) == ColumnSum(a, col) - IntValue(a[i][col]) + IntValue(b[i][col])
    decreases |a|
  {
    var n := |a|;
    if i == n - 1 {
      SumPrefixEqual(a[..n - 1], b[..n - 1], col);
    } else {
      SumPointChange(a[..n - 1], b[..n - 1], col, i);
    }
  }

  lemma {:induction false} SumPrefixEqual(a: seq<Row>, b: seq<Row>, col: string)
    requires |a| == |b|
    requires forall k :: 0 <= k < |a| ==> col in a[k] && col in b[k] && a[k][col] == b[k][col]
    ensures ColumnSum(a, col) == ColumnSum(b, col)
  {
    if a != [] {
      SumPrefixEqual(a[..|a| - 1], b[..|b| - 1], col);
    }
  }
}

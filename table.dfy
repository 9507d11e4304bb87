/**
 * The in-memory table the annotation pages work on: a header of column
 * names and a sequence of rows keyed by column name (a parsed CSV file as
 * pandas holds it), plus `Frame`, the mutable table object that the pages
 * update in place with `.at[row, column] = value` and `df[column] = scalar`.
 */
module Table {

  datatype Option<T> = None | Some(value: T)

  datatype Result<T, E> = Ok(value: T) | Err(error: E)

  /** One cell. `Null` is a missing value (NaN / <NA>); floats are exact reals. */
  datatype Cell = Null | Int(i: int) | Float(x: real) | Text(s: string)

  type Row = map<string, Cell>

  datatype Table = Table(columns: seq<string>, rows: seq<Row>)

  predicate NoDuplicates<T(==)>(s: seq<T>) {
    forall i, j :: 0 <= i < j < |s| ==> s[i] != s[j]
  }

  /** Column names are unique and every row has exactly the header's columns. */
  ghost predicate WellFormed(t: Table) {
    && NoDuplicates(t.columns)
    && forall k, c :: 0 <= k < |t.rows| ==> (c in t.rows[k] <==> c in t.columns)
  }

  /** `a` keeps some of the elements of `b`, in `b`'s order. */
  predicate IsSubsequence<T(==)>(a: seq<T>, b: seq<T>)
    decreases |b|
  {
    a == [] || (b != [] && if a[0] == b[0] then IsSubsequence(a[1..], b[1..]) else IsSubsequence(a, b[1..]))
  }

  /** Position of the first occurrence of `x` in `s`. */
  function IndexOf<T(==)>(s: seq<T>, x: T): (k: nat)
    requires x in s
    ensures k < |s| && s[k] == x
    ensures forall j :: 0 <= j < k ==> s[j] != x
  {
    if s[0] == x then 0 else 1 + IndexOf(s[1..], x)
  }

  /** The cells of one column, top to bottom. */
  function Column(rows: seq<Row>, col: string): (cs: seq<Cell>)
    requires forall k :: 0 <= k < |rows| ==> col in rows[k]
    ensures |cs| == |rows|
    ensures forall k :: 0 <= k < |rows| ==> cs[k] == rows[k][col]
  {
    seq(|rows|, k requires 0 <= k < |rows| => rows[k][col])
  }

  /**
   * Distinct values in order of first appearance (pandas `Series.unique`,
   * which keeps one missing value among the distinct ones).
   */
  function Unique<T(==)>(s: seq<T>): (r: seq<T>)
    ensures NoDuplicates(r)
    ensures forall i :: 0 <= i < |r| ==> r[i] in s
    ensures forall j :: 0 <= j < |s| ==> s[j] in r
    ensures forall i, j :: 0 <= i < j < |r| ==> IndexOf(s, r[i]) < IndexOf(s, r[j])
  {
    if s == [] then []
    else
      var p, last := s[..|s| - 1], s[|s| - 1];
      var u := Unique(p);
      assert s == p + [last];
      forall x | x in p ensures IndexOf(s, x) == IndexOf(p, x) {
        IndexOfExtend(p, last, x);
      }
      if last in u then u
      else
        assert last !in p;
        assert IndexOf(s, last) == |p| by {
          forall j | 0 <= j < |p| ensures s[j] != last { assert s[j] == p[j]; }
        }
        u + [last]
  }

  lemma IndexOfExtend<T>(p: seq<T>, y: T, x: T)
    requires x in p
    ensures x in p + [y] && IndexOf(p + [y], x) == IndexOf(p, x)
  {
    var s := p + [y];
    var a, b := IndexOf(s, x), IndexOf(p, x);
    assert s[b] == x;
  }

  /**
   * `df.at[i, col] := x`: writes one cell. A column that did not exist is
   * appended to the header and is missing (Null) in every other row.
   */
  function SetCell(t: Table, i: nat, col: string, x: Cell): (r: Table)
    requires WellFormed(t) && i < |t.rows|
    ensures WellFormed(r)
    ensures r.columns == if col in t.columns then t.columns else t.columns + [col]
    ensures |r.rows| == |t.rows|
    ensures forall k :: 0 <= k < |r.rows| ==> col in r.rows[k]
    ensures r.rows[i][col] == x
    ensures forall k, c :: 0 <= k < |t.rows| && c in t.rows[k] && (k != i || c != col) ==>
              c in r.rows[k] && r.rows[k][c] == t.rows[k][c]
    ensures col !in t.columns ==> forall k :: 0 <= k < |t.rows| && k != i ==> r.rows[k][col] == Null
  {
    var filled := if col in t.columns then t.rows
                  else seq(|t.rows|, k requires 0 <= k < |t.rows| => t.rows[k][col := Null]);
    var r := Table(if col in t.columns then t.columns else t.columns + [col], filled[i := filled[i][col := x]]);
    r
  }

  /**
   * `df[col] = x` with a scalar `x`: every row gets `x` in `col`; a new
   * column is appended to the header.
   */
  function FillColumn(t: Table, col: string, x: Cell): (r: Table)
    requires WellFormed(t)
    ensures WellFormed(r)
    ensures r.columns == if col in t.columns then t.columns else t.columns + [col]
    ensures |r.rows| == |t.rows|
    ensures forall k :: 0 <= k < |r.rows| ==> col in r.rows[k] && r.rows[k][col] == x
    ensures forall k, c :: 0 <= k < |t.rows| && c in t.rows[k] && c != col ==>
              c in r.rows[k] && r.rows[k][c] == t.rows[k][c]
  {
    var r := Table(if col in t.columns then t.columns else t.columns + [col],
                   seq(|t.rows|, k requires 0 <= k < |t.rows| => t.rows[k][col := x]));
    r
  }

  /** A pandas DataFrame: a table object that its methods change in place. */
  class Frame {
    var columns: seq<string>
    var rows: seq<Row>

    ghost predicate Valid()
      reads this
    {
      WellFormed(Value())
    }

    function Value(): Table
      reads this
    {
      Table(columns, rows)
    }

    constructor (t: Table)
      requires WellFormed(t)
      ensures Valid() && Value() == t
    {
      columns, rows := t.columns, t.rows;
    }

    /** `df.at[i, col] = x` */
    method SetAt(i: nat, col: string, x: Cell)
      requires Valid() && i < |rows|
      modifies this
      ensures Valid() && Value() == SetCell(old(Value()), i, col, x)
    {
      var t := SetCell(Value(), i, col, x);
      columns, rows := t.columns, t.rows;
    }

    /** `df[col] = x` */
    method AssignColumn(col: string, x: Cell)
      requires Valid()
      modifies this
      ensures Valid() && Value() == FillColumn(old(Value()), col, x)
    {
      var t := FillColumn(Value(), col, x);
      columns, rows := t.columns, t.rows;
    }

    /** A column assignment `df[col] = series` whose outcome is the table `t`. */
    method Replace(t: Table)
      requires WellFormed(t)
      modifies this
      ensures Valid() && Value() == t
    {
      columns, rows := t.columns, t.rows;
    }

    /** `df.copy()`: an independent object with the same contents. */
    method Copy() returns (f: Frame)
      requires Valid()
      ensures fresh(f) && f.Valid() && f.Value() == Value()
    {
      f := new Frame(Value());
    }
  }
}

/**
 * Load-time validation of an uploaded reviews file (`get_manual_reviews_df`,
 * `get_pred_reviews_df`): the already-parsed table is rejected when a
 * required column is missing, and gains a `reviewed` column of zeros when it
 * has none.
 */
module Loader {
  import opened Table

  const Reviewed: string := "reviewed"

  datatype LoadError =
    | ReadError                               // the CSV reader raised
    | MissingColumns(names: seq<string>)      // required columns absent, in required order

  /** The required columns absent from `columns`, in the order of `required`. */
  function Missing(required: seq<string>, columns: seq<string>): (m: seq<string>)
    ensures forall i :: 0 <= i < |m| ==> m[i] in required && m[i] !in columns
    ensures forall j :: 0 <= j < |required| && required[j] !in columns ==> required[j] in m
    ensures IsSubsequence(m, required)
    ensures m == [] <==> forall j :: 0 <= j < |required| ==> required[j] in columns
  {
    if required == [] then []
    else if required[0] in columns then
      var m := Missing(required[1..], columns);
      assert forall j :: 1 <= j < |required| ==> required[j] == required[1..][j - 1];
      SubsequenceSkip(m, required);
      m
    else
      var m := Missing(required[1..], columns);
      assert forall j :: 1 <= j < |required| ==> required[j] == required[1..][j - 1];
      assert ([required[0]] + m)[1..] == m;
      [required[0]] + m
  }

  /** A subsequence of a tail is a subsequence of the whole. */
  lemma {:induction false} SubsequenceSkip<T>(a: seq<T>, b: seq<T>)
    requires b != [] && IsSubsequence(a, b[1..])
    ensures IsSubsequence(a, b)
    decreases |b|
  {
    if a != [] && a[0] == b[0] {
      SubsequenceTail(a, b[1..]);
      SubsequenceSkip(a[1..], b[1..]);
    }
  }

  /** Dropping the head of a non-empty subsequence keeps it a subsequence of the tail. */
  lemma {:induction false} SubsequenceTail<T>(a: seq<T>, b: seq<T>)
    requires a != [] && IsSubsequence(a, b)
    ensures IsSubsequence(a[1..], b[1..])
    decreases |b|
  {
    if a[0] != b[0] {
      SubsequenceTail(a, b[1..]);
      SubsequenceSkip(a[1..], b[1..]);
    }
  }

  /**
   * The missing-column list is the only list that reports exactly the absent
   * required columns in the required order.
   */
  lemma {:induction false} MissingIsUnique(required: seq<string>, columns: seq<string>, m: seq<string>)
    requires NoDuplicates(required)
    requires IsSubsequence(m, required)
    requires forall i :: 0 <= i < |m| ==> m[i] !in columns
    requires forall j :: 0 <= j < |required| && required[j] !in columns ==> required[j] in m
    ensures m == Missing(required, columns)
    decreases |required|
  {
    if required == [] {
    } else {
      var rest := required[1..];
      assert NoDuplicates(rest) by {
        forall i, j | 0 <= i < j < |rest| ensures rest[i] != rest[j] {
          assert rest[i] == required[i + 1] && rest[j] == required[j + 1];
        }
      }
      forall j | 0 <= j < |rest| && rest[j] !in columns ensures rest[j] in m {
        assert rest[j] == required[j + 1];
      }
      if m != [] && m[0] == required[0] {
        assert IsSubsequence(m[1..], rest);
        assert required[0] !in rest by {
          forall j | 0 <= j < |rest| ensures rest[j] != required[0] { assert rest[j] == required[j + 1]; }
        }
        forall j | 0 <= j < |rest| && rest[j] !in columns ensures rest[j] in m[1..] {
          assert rest[j] in m && rest[j] != m[0];
          var k :| 0 <= k < |m| && m[k] == rest[j];
          assert m[1..][k - 1] == rest[j];
        }
        MissingIsUnique(rest, columns, m[1..]);
        assert m == [m[0]] + m[1..];
      } else {
        if m != [] {
          assert IsSubsequence(m, rest);
          SubsequenceElems(m, rest);
        }
        assert required[0] !in rest by {
          forall j | 0 <= j < |rest| ensures rest[j] != required[0] { assert rest[j] == required[j + 1]; }
        }
        assert required[0] in columns;
        MissingIsUnique(rest, columns, m);
      }
    }
  }

  /** Every element of a subsequence occurs in the sequence. */
  lemma {:induction false} SubsequenceElems<T>(a: seq<T>, b: seq<T>)
    requires IsSubsequence(a, b)
    ensures forall i :: 0 <= i < |a| ==> a[i] in b
    decreases |b|
  {
    if a != [] {
      if a[0] == b[0] {
        SubsequenceElems(a[1..], b[1..]);
        forall i | 1 <= i < |a| ensures a[i] in b { assert a[i] == a[1..][i - 1]; }
      } else {
        SubsequenceElems(a, b[1..]);
      }
    }
  }

  /** `df["reviewed"] = 0` when the table has no `reviewed` column; otherwise the table as is. */
  function WithReviewed(t: Table): (r: Table)
    requires WellFormed(t)
    ensures WellFormed(r)
    ensures Reviewed in r.columns && |r.rows| == |t.rows|
    ensures Reviewed in t.columns ==> r == t
    ensures Reviewed !in t.columns ==> r.columns == t.columns + [Reviewed]
    ensures Reviewed !in t.columns ==> forall k :: 0 <= k < |r.rows| ==> r.rows[k][Reviewed] == Int(0)
    ensures forall k, c :: 0 <= k < |t.rows| && c in t.rows[k] ==> c in r.rows[k] && r.rows[k][c] == t.rows[k][c]
  {
    if Reviewed in t.columns then t else FillColumn(t, Reviewed, Int(0))
  }

  /**
   * The outcome of loading: the read error, the missing-column error, or the
   * accepted table with its `reviewed` column.
   */
  function Loaded(parsed: Option<Table>, required: seq<string>): (r: Result<Table, LoadError>)
    requires parsed.Some? ==> WellFormed(parsed.value)
    ensures parsed.None? ==> r == Err(ReadError)
    ensures parsed.Some? ==> (r.Err? <==> Missing(required, parsed.value.columns) != [])
    ensures parsed.Some? && r.Err? ==> r.error == MissingColumns(Missing(required, parsed.value.columns))
    ensures parsed.Some? && r.Ok? ==> r.value == WithReviewed(parsed.value)
    ensures r.Ok? ==> WellFormed(r.value) && Reviewed in r.value.columns
    ensures r.Ok? ==> forall j :: 0 <= j < |required| ==> required[j] in r.value.columns
  {
    if parsed.None? then Err(ReadError)
    else
      var m := Missing(required, parsed.value.columns);
      if m != [] then Err(MissingColumns(m))
      else
        var t := WithReviewed(parsed.value);
        assert forall c :: c in parsed.value.columns ==> c in t.columns;
        Ok(t)
  }

  /** Loading a table that was already accepted accepts it unchanged. */
  lemma LoadIdempotent(t: Table, required: seq<string>)
    requires WellFormed(t) && Loaded(Some(t), required).Ok?
    ensures Loaded(Some(Loaded(Some(t), required).value), required) == Ok(Loaded(Some(t), required).value)
  {
  }

  /**
   * The page's loader: reads nothing itself (the parse outcome is given),
   * rejects a table with missing columns, and adds `reviewed` in place.
   */
  method Load(parsed: Option<Table>, required: seq<string>) returns (r: Result<Frame, LoadError>)
    requires parsed.Some? ==> WellFormed(parsed.value)
    ensures r.Err? ==> Loaded(parsed, required) == Err(r.error)
    ensures r.Ok? ==> Loaded(parsed, required).Ok?
    ensures r.Ok? ==> fresh(r.value) && r.value.Valid() && r.value.Value() == Loaded(parsed, required).value
  {
    if parsed.None? {
      return Err(ReadError);
    }
    var missing := Missing(required, parsed.value.columns);
    if missing != [] {
      return Err(MissingColumns(missing));
    }
    var f := new Frame(parsed.value);
    if Reviewed !in f.columns {
      f.AssignColumn(Reviewed, Int(0));
    }
    return Ok(f);
  }
}

/**
 * The export side of `show_download_annotated_file`: the output file name
 * `annotated_{stem}_{DD-MM-YYYY-HH-MM-SS}.{ext}`, the cast of
 * `annotated_sentiment` to pandas' nullable integer type, and how a cell of
 * that column is written to and read back from CSV text.
 */
module ExportFormat {
  import opened Table
  import opened Decimal

  /** The clock reading `datetime.now()` would supply, as components. */
  datatype DateTime = DateTime(year: nat, month: nat, day: nat, hour: nat, minute: nat, second: nat)

  predicate ValidDateTime(t: DateTime) {
    && 1 <= t.year <= 9999 && 1 <= t.month <= 12 && 1 <= t.day <= 31
    && t.hour < 24 && t.minute < 60 && t.second < 60
  }

  /** `strftime("%d-%m-%Y-%H-%M-%S")` */
  function Timestamp(t: DateTime): (s: string)
    requires ValidDateTime(t)
    ensures |s| == 19
    ensures forall i :: i in {2, 5, 10, 13, 16} ==> s[i] == '-'
    ensures forall i :: 0 <= i < |s| && i !in {2, 5, 10, 13, 16} ==> IsDigit(s[i])
  {
    Fixed(t.day, 2) + "-" + Fixed(t.month, 2) + "-" + Fixed(t.year, 4) + "-"
      + Fixed(t.hour, 2) + "-" + Fixed(t.minute, 2) + "-" + Fixed(t.second, 2)
  }

  /** Reads a timestamp back: the fields at their fixed positions. */
  function ParseTimestamp(s: string): (r: Option<DateTime>)
  {
    if |s| == 19 && AllDigits(s[0..2]) && AllDigits(s[3..5]) && AllDigits(s[6..10])
       && AllDigits(s[11..13]) && AllDigits(s[14..16]) && AllDigits(s[17..19])
    then Some(DateTime(DigitsToNat(s[6..10]), DigitsToNat(s[3..5]), DigitsToNat(s[0..2]),
                       DigitsToNat(s[11..13]), DigitsToNat(s[14..16]), DigitsToNat(s[17..19])))
    else None
  }

  /** The timestamp in a file name determines the export time to the second. */
  lemma TimestampRoundTrip(t: DateTime)
    requires ValidDateTime(t)
    ensures ParseTimestamp(Timestamp(t)) == Some(t)
  {
    var s := Timestamp(t);
    assert s[0..2] == Fixed(t.day, 2);
    assert s[3..5] == Fixed(t.month, 2);
    assert s[6..10] == Fixed(t.year, 4);
    assert s[11..13] == Fixed(t.hour, 2);
    assert s[14..16] == Fixed(t.minute, 2);
    assert s[17..19] == Fixed(t.second, 2);
    FixedRoundTrip(t.day, 2);
    FixedRoundTrip(t.month, 2);
    FixedRoundTrip(t.year, 4);
    FixedRoundTrip(t.hour, 2);
    FixedRoundTrip(t.minute, 2);
    FixedRoundTrip(t.second, 2);
  }

  /**
   * `name.rsplit(".", 1)` unpacked into two names: the text before and after
   * the last dot; None (the unpacking raises) when there is no dot.
   */
  function SplitLastDot(name: string): (r: Option<(string, string)>)
    ensures r.None? <==> '.' !in name
    ensures r.Some? ==> r.value.0 + "." + r.value.1 == name && '.' !in r.value.1
  {
    if name == [] then None
    else
      var init, last := name[..|name| - 1], name[|name| - 1];
      assert name == init + [last];
      if last == '.' then Some((init, ""))
      else match SplitLastDot(init)
        case None => None
        case Some((stem, ext)) => Some((stem, ext + [last]))
  }

  /** Any split at a dot whose right part has no dot is the split SplitLastDot finds. */
  lemma {:induction false} SplitLastDotUnique(stem: string, ext: string)
    requires '.' !in ext
    ensures SplitLastDot(stem + "." + ext) == Some((stem, ext))
    decreases |ext|
  {
    var name := stem + "." + ext;
    if ext == [] {
      assert name[..|name| - 1] == stem;
    } else {
      var e := ext[..|ext| - 1];
      assert name[..|name| - 1] == stem + "." + e;
      assert name[|name| - 1] == ext[|ext| - 1];
      assert ext == e + [ext[|ext| - 1]];
      SplitLastDotUnique(stem, e);
    }
  }

  /** The download's file name; None when the uploaded name has no dot. */
  function OutputFileName(uploadName: string, now: DateTime): (r: Option<string>)
    requires ValidDateTime(now)
    ensures r.None? <==> '.' !in uploadName
  {
    match SplitLastDot(uploadName)
    case None => None
    case Some((stem, ext)) => Some("annotated_" + stem + "_" + Timestamp(now) + "." + ext)
  }

  /**
   * The output name keeps the upload's extension, and its part before the
   * last dot is `annotated_`, the upload's stem, `_` and the timestamp.
   */
  lemma OutputFileNameSplits(uploadName: string, now: DateTime)
    requires ValidDateTime(now) && '.' in uploadName
    ensures var (stem, ext) := SplitLastDot(uploadName).value;
            stem + "." + ext == uploadName &&
            SplitLastDot(OutputFileName(uploadName, now).value)
              == Some(("annotated_" + stem + "_" + Timestamp(now), ext))
  {
    var (stem, ext) := SplitLastDot(uploadName).value;
    SplitLastDotUnique("annotated_" + stem + "_" + Timestamp(now), ext);
    assert "annotated_" + stem + "_" + Timestamp(now) + "." + ext
        == ("annotated_" + stem + "_" + Timestamp(now)) + "." + ext;
  }

  /** A number the cell holds exactly, when it holds one. */
  function NumericValue(c: Cell): (r: Option<real>) {
    match c
    case Int(i) => Some(i as real)
    case Float(x) => Some(x)
    case _ => None
  }

  /**
   * `astype("Int64")` on one cell: missing stays missing (<NA>), a number
   * that is a whole number becomes that integer, anything else makes the
   * cast raise (None).
   */
  function CastNullableInt(c: Cell): (r: Option<Cell>)
    ensures r.Some? ==> r.value.Null? || r.value.Int?
    ensures r.Some? ==> (r.value.Null? <==> c.Null?)
    ensures r.Some? && !c.Null? ==> NumericValue(c) == NumericValue(r.value)
    ensures r.None? <==> c.Text? || (c.Float? && c.x != c.x.Floor as real)
  {
    match c
    case Null => Some(Null)
    case Int(_) => Some(c)
    case Float(x) => if x == x.Floor as real then Some(Int(x.Floor)) else None
    case Text(_) => None
  }

  /** The cast of one whole column; None when some cell cannot be cast. */
  function CastColumn(t: Table, col: string): (r: Option<Table>)
    requires WellFormed(t) && col in t.columns
    ensures r.None? <==> exists k :: 0 <= k < |t.rows| && CastNullableInt(t.rows[k][col]).None?
    ensures r.Some? ==> WellFormed(r.value) && r.value.columns == t.columns && |r.value.rows| == |t.rows|
    ensures r.Some? ==> forall k :: 0 <= k < |t.rows| ==> Some(r.value.rows[k][col]) == CastNullableInt(t.rows[k][col])
    ensures r.Some? ==> forall k, c :: 0 <= k < |t.rows| && c in t.rows[k] && c != col ==>
              c in r.value.rows[k] && r.value.rows[k][c] == t.rows[k][c]
  {
    if exists k :: 0 <= k < |t.rows| && CastNullableInt(t.rows[k][col]).None? then None
    else
      var r := Table(t.columns, seq(|t.rows|, k requires 0 <= k < |t.rows| => t.rows[k][col := CastNullableInt(t.rows[k][col]).value]));
      assert forall k :: 0 <= k < |r.rows| ==> r.rows[k].Keys == t.rows[k].Keys;
      Some(r)
  }

  /** How `to_csv` writes a cell of a nullable integer column: <NA> as an empty field. */
  function RenderNullableInt(c: Cell): (s: string)
    requires c.Null? || c.Int?
    ensures s == "" <==> c.Null?
  {
    if c.Null? then ""
    else if c.i < 0 then "-" + NatToDigits(-c.i)
    else NatToDigits(c.i)
  }

  /** How `read_csv` reads that field back: empty is missing, otherwise an integer. */
  function ParseNullableInt(s: string): (r: Option<Cell>)
    ensures r.Some? ==> r.value.Null? || r.value.Int?
    ensures r == Some(Null) <==> s == []
  {
    if s == [] then Some(Null)
    else if s[0] == '-' && |s| > 1 && AllDigits(s[1..]) then Some(Int(0 - DigitsToNat(s[1..]) as int))
    else if AllDigits(s) then Some(Int(DigitsToNat(s)))
    else None
  }

  /** Writing a cast cell and reading it back gives the same cell: unset stays unset, 0 stays 0. */
  lemma NullableIntRoundTrip(c: Cell)
    requires c.Null? || c.Int?
    ensures ParseNullableInt(RenderNullableInt(c)) == Some(c)
  {
    if c.Int? {
      if c.i < 0 {
        var s := RenderNullableInt(c);
        assert s[1..] == NatToDigits(-c.i);
        NatToDigitsRoundTrip(-c.i);
      } else {
        NatToDigitsRoundTrip(c.i);
      }
    }
  }
}

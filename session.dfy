/**
 * The annotation session both pages run: the stored table, the cursor and
 * the token of the last uploaded file, the callbacks that move the cursor
 * and write a label, the reload rule of `main`, and the download. One engine
 * serves both pages; a `Variant` says which columns a page requires, which
 * column it writes, where its label options come from and whether its
 * download casts `annotated_sentiment`.
 */
module Annotation {
  import opened Table
  import opened LabelCodec
  import opened Loader
  import opened Progress
  import opened ExportFormat

  const AnnotatedSentiment: string := "annotated_sentiment"
  const PredictedSentiment: string := "predicted_sentiment"

  datatype Variant = Variant(
    required: seq<string>,         // columns an upload must have, in reporting order
    labelColumn: string,           // the column `update_label` writes
    optionsColumn: Option<string>, // None: the dictionary's codes; Some(c): distinct values of c
    castOnExport: bool)            // whether the download casts annotated_sentiment to Int64

  /** The manual page: writes `annotated_sentiment`, offers the three codes. */
  const Manual: Variant := Variant(["review_text", "sentiment"], AnnotatedSentiment, None, true)

  /** The correction page: overwrites `sentiment`, offers the predicted values. */
  const Correction: Variant :=
    Variant(["review_text", "sentiment", PredictedSentiment, "predicted_score"], "sentiment",
            Some(PredictedSentiment), false)

  predicate ValidVariant(v: Variant) {
    && v.labelColumn != Reviewed
    && (v.optionsColumn.Some? ==> v.optionsColumn.value in v.required)
  }

  /** A table a page has accepted: it has the required columns and `reviewed`. */
  ghost predicate Accepted(v: Variant, t: Table) {
    && WellFormed(t)
    && Reviewed in t.columns
    && forall j :: 0 <= j < |v.required| ==> v.required[j] in t.columns
  }

  /** The values the label radio offers. */
  function LabelOptions(v: Variant, t: Table): (opts: seq<Cell>)
    requires ValidVariant(v) && Accepted(v, t)
  {
    match v.optionsColumn
    case None => seq(|Codes()|, i requires 0 <= i < |Codes()| => Int(Codes()[i]))
    case Some(c) =>
      assert forall k :: 0 <= k < |t.rows| ==> c in t.rows[k];
      Unique(Column(t.rows, c))
  }

  /**
   * The manual page offers exactly the dictionary's codes, so the label it
   * writes (`int(new_label)`, the identity on these) is always 1, -1 or 0 and
   * always has a display name.
   */
  lemma ManualLabelInDomain(t: Table, choice: Cell)
    requires Accepted(Manual, t) && choice in LabelOptions(Manual, t)
    ensures LabelOptions(Manual, t) == [Int(1), Int(-1), Int(0)]
    ensures choice.Int? && choice.i in {1, -1, 0} && LabelName(choice.i).Some?
  {
    var opts := LabelOptions(Manual, t);
    assert opts == [Int(1), Int(-1), Int(0)];
    CodesHaveNames(choice.i);
  }

  /**
   * The correction page offers each distinct `predicted_sentiment` value
   * once, in order of first appearance; so the label it writes occurs in that
   * column, whether or not it is one of the three codes.
   */
  lemma CorrectionLabelFromPredictions(t: Table, choice: Cell)
    requires Accepted(Correction, t)
    ensures var opts := LabelOptions(Correction, t);
            && NoDuplicates(opts)
            && (forall k :: 0 <= k < |t.rows| ==> t.rows[k][PredictedSentiment] in opts)
            && (choice in opts ==> exists k :: 0 <= k < |t.rows| && t.rows[k][PredictedSentiment] == choice)
  {
    assert PredictedSentiment in t.columns by { assert Correction.required[2] == PredictedSentiment; }
    assert forall k :: 0 <= k < |t.rows| ==> PredictedSentiment in t.rows[k];
    var col := Column(t.rows, PredictedSentiment);
    var opts := Unique(col);
    assert LabelOptions(Correction, t) == opts;
    forall k | 0 <= k < |t.rows|
      ensures t.rows[k][PredictedSentiment] in opts
    {
      assert col[k] in opts;
    }
    if choice in opts {
      var k :| 0 <= k < |col| && col[k] == choice;
      assert t.rows[k][PredictedSentiment] == choice;
    }
  }

  /**
   * `update_label` at row `i`: the label cell becomes `choice` and the row is
   * flagged reviewed; every other cell keeps its value, and a label column
   * that did not exist appears with a missing value in every other row.
   */
  function Labelled(t: Table, i: nat, labelColumn: string, choice: Cell): (r: Table)
    requires WellFormed(t) && Reviewed in t.columns && labelColumn != Reviewed && i < |t.rows|
    ensures WellFormed(r) && Reviewed in r.columns
    ensures r.columns == if labelColumn in t.columns then t.columns else t.columns + [labelColumn]
    ensures |r.rows| == |t.rows|
    ensures forall k :: 0 <= k < |r.rows| ==> labelColumn in r.rows[k] && Reviewed in r.rows[k]
    ensures r.rows[i][labelColumn] == choice && r.rows[i][Reviewed] == Int(1)
    ensures forall k, c :: 0 <= k < |t.rows| && c in t.rows[k] && (k != i || (c != labelColumn && c != Reviewed)) ==>
              c in r.rows[k] && r.rows[k][c] == t.rows[k][c]
    ensures labelColumn !in t.columns ==> forall k :: 0 <= k < |t.rows| && k != i ==> r.rows[k][labelColumn] == Null
  {
    var s := SetCell(t, i, labelColumn, choice);
    assert Reviewed in s.columns;
    SetCell(s, i, Reviewed, Int(1))
  }

  /**
   * The reviewed count after an update at row `i` rises by one when the row
   * was not yet reviewed and stays put when it already was.
   */
  lemma CountAfterUpdate(t: Table, i: nat, labelColumn: string, choice: Cell)
    requires WellFormed(t) && Reviewed in t.columns && labelColumn != Reviewed && i < |t.rows|
    ensures var r := Labelled(t, i, labelColumn, choice);
            && (forall k :: 0 <= k < |r.rows| ==> Reviewed in r.rows[k])
            && ColumnSum(r.rows, Reviewed) == ColumnSum(t.rows, Reviewed) - IntValue(t.rows[i][Reviewed]) + 1
            && (t.rows[i][Reviewed] == Int(0) ==> ColumnSum(r.rows, Reviewed) == ColumnSum(t.rows, Reviewed) + 1)
            && (t.rows[i][Reviewed] == Int(1) ==> ColumnSum(r.rows, Reviewed) == ColumnSum(t.rows, Reviewed))
  {
    var r := Labelled(t, i, labelColumn, choice);
    assert forall k :: 0 <= k < |t.rows| ==> Reviewed in t.rows[k];
    SumPointChange(t.rows, r.rows, Reviewed, i);
  }

  /** An update keeps a 0/1 `reviewed` column a 0/1 column, so the count stays within [0, n]. */
  lemma UpdateKeepsFlags(t: Table, i: nat, labelColumn: string, choice: Cell)
    requires WellFormed(t) && Reviewed in t.columns && labelColumn != Reviewed && i < |t.rows|
    requires FlagColumn(t.rows, Reviewed)
    ensures var r := Labelled(t, i, labelColumn, choice);
            FlagColumn(r.rows, Reviewed) && 0 <= ColumnSum(r.rows, Reviewed) <= |r.rows|
  {
    var r := Labelled(t, i, labelColumn, choice);
    SumCountsFlags(r.rows, Reviewed);
  }

  /** A freshly synthesised `reviewed` column is a 0/1 column with count 0. */
  lemma SynthesisedCountIsZero(t: Table)
    requires WellFormed(t) && Reviewed !in t.columns
    ensures FlagColumn(WithReviewed(t).rows, Reviewed)
    ensures ColumnSum(WithReviewed(t).rows, Reviewed) == 0
  {
    var r := WithReviewed(t);
    SumNoFlags(r.rows);
  }

  lemma {:induction false} SumNoFlags(rows: seq<Row>)
    requires forall k :: 0 <= k < |rows| ==> Reviewed in rows[k] && rows[k][Reviewed] == Int(0)
    ensures ColumnSum(rows, Reviewed) == 0
  {
    if rows != [] {
      SumNoFlags(rows[..|rows| - 1]);
    }
  }

  /**
   * The table the download serialises: for the manual page the copy whose
   * `annotated_sentiment` is cast to nullable integers (when that column
   * exists); for the correction page the stored table itself.
   */
  function ExportedTable(v: Variant, t: Table): (r: Option<Table>)
    requires WellFormed(t)
    ensures !v.castOnExport || AnnotatedSentiment !in t.columns ==> r == Some(t)
    ensures r.Some? ==> WellFormed(r.value) && r.value.columns == t.columns && |r.value.rows| == |t.rows|
    ensures r.Some? ==> forall k, c :: 0 <= k < |t.rows| && c in t.rows[k] && c != AnnotatedSentiment ==>
              c in r.value.rows[k] && r.value.rows[k][c] == t.rows[k][c]
    ensures r.Some? && v.castOnExport && AnnotatedSentiment in t.columns ==>
              forall k :: 0 <= k < |t.rows| ==>
                var c := r.value.rows[k][AnnotatedSentiment];
                && (c.Null? || c.Int?) && (c.Null? <==> t.rows[k][AnnotatedSentiment].Null?)
                && Some(c) == CastNullableInt(t.rows[k][AnnotatedSentiment])
  {
    if v.castOnExport && AnnotatedSentiment in t.columns then CastColumn(t, AnnotatedSentiment) else Some(t)
  }

  /**
   * Export then load: the exported table is accepted again as it is, and
   * every `annotated_sentiment` cell survives the write and the read (an
   * unset cell comes back unset, not as 0).
   */
  lemma ExportThenLoad(v: Variant, t: Table)
    requires Accepted(v, t) && ExportedTable(v, t).Some?
    ensures Loaded(Some(ExportedTable(v, t).value), v.required) == Ok(ExportedTable(v, t).value)
    ensures v.castOnExport && AnnotatedSentiment in t.columns ==>
              forall k :: 0 <= k < |t.rows| ==>
                var c := ExportedTable(v, t).value.rows[k][AnnotatedSentiment];
                (c.Null? || c.Int?) && ParseNullableInt(RenderNullableInt(c)) == Some(c)
  {
    var e := ExportedTable(v, t).value;
    assert Missing(v.required, e.columns) == [];
    if v.castOnExport && AnnotatedSentiment in t.columns {
      forall k | 0 <= k < |t.rows|
        ensures var c := e.rows[k][AnnotatedSentiment];
                (c.Null? || c.Int?) && ParseNullableInt(RenderNullableInt(c)) == Some(c)
      {
        NullableIntRoundTrip(e.rows[k][AnnotatedSentiment]);
      }
    }
  }

  /** An uploaded file: its identity token and what the CSV reader made of it. */
  datatype Upload = Upload(token: nat, name: string, parsed: Option<Table>)

  ghost predicate WellParsed(upload: Option<Upload>) {
    upload.Some? && upload.value.parsed.Some? ==> WellFormed(upload.value.parsed.value)
  }

  datatype ExportError = NoExtension | NotNullableInt

  datatype DownloadFile = DownloadFile(fileName: string, table: Table)

  /** The session-state keys of one page. */
  class Session {
    const variant: Variant
    var frame: Frame?              // the stored table, null until a load succeeds
    var lastUpload: Option<nat>    // token of the file the stored table came from
    var cursor: nat                // the row shown for review

    ghost predicate Valid()
      reads this, frame
    {
      && ValidVariant(variant)
      && (frame != null ==> frame.Valid() && Accepted(variant, frame.Value()))
    }

    /** A new session as `main` leaves it on its first run: cursor 0, no table. */
    constructor (v: Variant)
      requires ValidVariant(v)
      ensures Valid() && variant == v
      ensures frame == null && lastUpload == None && cursor == 0
    {
      variant := v;
      frame := null;
      lastUpload := None;
      cursor := 0;
    }

    /** Whether `main` re-reads the upload: no table stored, or a different file. */
    predicate NeedsReload(u: Upload)
      reads this
    {
      frame == null || lastUpload != Some(u.token)
    }

    /**
     * One run of `main` with the uploader's current file: reloads only when
     * `NeedsReload`, keeps the stored table and token when the load fails,
     * and never touches the cursor. Returns whether the annotation UI is shown.
     */
    method Run(upload: Option<Upload>) returns (shown: bool)
      requires Valid() && WellParsed(upload)
      modifies this
      ensures Valid() && cursor == old(cursor)
      ensures upload.None? ==> !shown && frame == old(frame) && lastUpload == old(lastUpload)
      ensures upload.Some? && !old(NeedsReload(upload.value)) ==>
                shown && frame == old(frame) && lastUpload == old(lastUpload)
      ensures upload.Some? && old(NeedsReload(upload.value)) ==>
                match Loaded(upload.value.parsed, variant.required)
                case Err(_) => !shown && frame == old(frame) && lastUpload == old(lastUpload)
                case Ok(t) => shown && frame != null && fresh(frame) && frame.Value() == t
                              && lastUpload == Some(upload.value.token)
    {
      if upload.None? {
        return false;
      }
      var u := upload.value;
      if NeedsReload(u) {
        var r := Load(u.parsed, variant.required);
        if r.Err? {
          return false;
        }
        frame := r.value;
        lastUpload := Some(u.token);
      }
      return true;
    }

    /** `go_to_index`: the number input only yields values in [0, n - 1]. */
    method GoToIndex(value: int)
      requires Valid() && frame != null && 0 <= value <= |frame.rows| - 1
      modifies this`cursor
      ensures cursor == value
    {
      cursor := value;
    }

    /**
     * `update_label` with the radio's current choice: writes the label at the
     * cursor row and flags it reviewed, changing nothing else; the reviewed
     * count grows by the flag's change at that row.
     */
    method UpdateLabel(choice: Cell)
      requires Valid() && frame != null && cursor < |frame.rows|
      requires choice in LabelOptions(variant, frame.Value())
      modifies frame
      ensures Valid()
      ensures frame.Value() == Labelled(old(frame.Value()), cursor, variant.labelColumn, choice)
      ensures ColumnSum(frame.rows, Reviewed)
                == ColumnSum(old(frame.rows), Reviewed) - IntValue(old(frame.rows)[cursor][Reviewed]) + 1
    {
      ghost var before := frame.Value();
      frame.SetAt(cursor, variant.labelColumn, choice);
      frame.SetAt(cursor, Reviewed, Int(1));
      assert frame.Value() == Labelled(before, cursor, variant.labelColumn, choice);
      assert Accepted(variant, frame.Value()) by {
        assert forall c :: c in before.columns ==> c in frame.columns;
      }
      CountAfterUpdate(before, cursor, variant.labelColumn, choice);
      assert ColumnSum(frame.rows, Reviewed) == ColumnSum(before.rows, Reviewed) - IntValue(before.rows[cursor][Reviewed]) + 1;
    }

    /**
     * `show_download_annotated_file`: the output name, then the table to
     * serialise (for the manual page a cast copy). The stored table is not
     * changed: the method may modify nothing but what it allocates.
     */
    method Download(uploadName: string, now: DateTime) returns (r: Result<DownloadFile, ExportError>)
      requires Valid() && frame != null && ValidDateTime(now)
      ensures r.Err? <==> '.' !in uploadName || ExportedTable(variant, frame.Value()).None?
      ensures r.Err? ==> r.error == if '.' !in uploadName then NoExtension else NotNullableInt
      ensures r.Ok? ==> r.value.fileName == OutputFileName(uploadName, now).value
      ensures r.Ok? ==> r.value.table == ExportedTable(variant, frame.Value()).value
    {
      var split := SplitLastDot(uploadName);
      if split.None? {
        return Err(NoExtension);
      }
      var (stem, ext) := split.value;
      var fileName := "annotated_" + stem + "_" + Timestamp(now) + "." + ext;
      if !variant.castOnExport {
        return Ok(DownloadFile(fileName, frame.Value()));
      }
      var copy := frame.Copy();
      if AnnotatedSentiment in copy.columns {
        var cast := CastColumn(copy.Value(), AnnotatedSentiment);
        if cast.None? {
          return Err(NotNullableInt);
        }
        copy.Replace(cast.value);
      }
      return Ok(DownloadFile(fileName, copy.Value()));
    }
  }

  /** Three reviews labelled -1 whose predictions are 1, 1 and 0, without a `reviewed` column. */
  function SampleUpload(): Table {
    var columns := ["review_text", "sentiment", PredictedSentiment, "predicted_score"];
    Table(columns, [
      map["review_text" := Text("a"), "sentiment" := Int(-1), PredictedSentiment := Int(1), "predicted_score" := Float(0.71)],
      map["review_text" := Text("b"), "sentiment" := Int(-1), PredictedSentiment := Int(1), "predicted_score" := Float(0.98)],
      map["review_text" := Text("c"), "sentiment" := Int(-1), PredictedSentiment := Int(0), "predicted_score" := Float(0.97)]])
  }

  lemma SampleUploadAccepted()
    ensures WellFormed(SampleUpload()) && Reviewed !in SampleUpload().columns
    ensures Loaded(Some(SampleUpload()), Correction.required) == Ok(WithReviewed(SampleUpload()))
  {
    var t := SampleUpload();
    assert t.columns == Correction.required;
    forall k | 0 <= k < 3
      ensures t.rows[k].Keys == {"review_text", "sentiment", PredictedSentiment, "predicted_score"}
    {
    }
    assert NoDuplicates(t.columns);
    assert Missing(Correction.required, t.columns) == [];
  }

  /**
   * The walk-through on `SampleUpload`: the page accepts it, the loaded
   * table has three rows and count 0, and the radio offers the predicted
   * values once each in order of first appearance: 1, then 0.
   */
  lemma SampleWalkthrough()
    ensures var t := WithReviewed(SampleUpload());
            && Accepted(Correction, t) && |t.rows| == 3 && ColumnSum(t.rows, Reviewed) == 0
            && LabelOptions(Correction, t) == [Int(1), Int(0)]
  {
    SampleUploadAccepted();
    SynthesisedCountIsZero(SampleUpload());
    SampleColumn();
    SampleUnique();
  }

  lemma SampleUnique()
    ensures Unique([Int(1), Int(1), Int(0)]) == [Int(1), Int(0)]
  {
    assert [Int(1), Int(1), Int(0)][..2] == [Int(1), Int(1)];
    assert [Int(1), Int(1)][..1] == [Int(1)];
    assert [Int(1)][..0] == [];
    assert Unique([Int(1)]) == [Int(1)];
    assert Unique([Int(1), Int(1)]) == [Int(1)];
  }

  lemma SampleColumn()
    ensures WellFormed(WithReviewed(SampleUpload()))
    ensures PredictedSentiment in WithReviewed(SampleUpload()).columns
    ensures Column(WithReviewed(SampleUpload()).rows, PredictedSentiment) == [Int(1), Int(1), Int(0)]
  {
    SampleUploadAccepted();
    var u := SampleUpload();
    var t := WithReviewed(u);
    assert PredictedSentiment in t.columns by { assert Correction.required[2] == PredictedSentiment; }
    assert forall k :: 0 <= k < 3 ==> t.rows[k][PredictedSentiment] == u.rows[k][PredictedSentiment];
  }

  /**
   * Streamlit reruns `main` after every interaction. A rerun with the same
   * uploaded file keeps the stored table, so a label written before it
   * survives and the count stays 1. A different file (another token, even
   * with the same contents) is re-read, which discards the labels: the count
   * is 0 again.
   */
  method RerunKeepsLabels(v: Variant, u: Upload, choice: Cell) returns (written: Cell, kept: int, afterNewFile: int)
    requires ValidVariant(v) && u.parsed.Some? && WellFormed(u.parsed.value)
    requires Reviewed !in u.parsed.value.columns && |u.parsed.value.rows| >= 1
    requires Missing(v.required, u.parsed.value.columns) == []
    requires choice in LabelOptions(v, WithReviewed(u.parsed.value))
    ensures written == choice && kept == 1 && afterNewFile == 0
  {
    SynthesisedCountIsZero(u.parsed.value);
    var s := new Session(v);
    var shown := s.Run(Some(u));
    var f := s.frame;
    assert f.Value() == WithReviewed(u.parsed.value);
    ghost var rows0 := f.rows;
    assert rows0[0][Reviewed] == Int(0) && ColumnSum(rows0, Reviewed) == 0;
    s.UpdateLabel(choice);
    assert ColumnSum(f.rows, Reviewed) == ColumnSum(rows0, Reviewed) - IntValue(rows0[0][Reviewed]) + 1;
    shown := s.Run(Some(u));
    assert s.frame == f;
    written := s.frame.rows[0][v.labelColumn];
    kept := ColumnSum(s.frame.rows, Reviewed);
    var other := u.(token := u.token + 1);
    shown := s.Run(Some(other));
    afterNewFile := ColumnSum(s.frame.rows, Reviewed);
  }

  /**
   * A fresh session's first steps on any upload the page accepts and that
   * has no `reviewed` column: label the first row with an offered value,
   * then jump to the last row. The count is then 1; the position is 0 before
   * the jump and 1 after it.
   */
  method FirstSteps(v: Variant, u: Upload, choice: Cell) returns (count: int, before: real, after: real)
    requires ValidVariant(v) && u.parsed.Some? && WellFormed(u.parsed.value)
    requires Reviewed !in u.parsed.value.columns && |u.parsed.value.rows| >= 2
    requires Missing(v.required, u.parsed.value.columns) == []
    requires choice in LabelOptions(v, WithReviewed(u.parsed.value))
    ensures count == 1 && before == 0.0 && after == 1.0
  {
    SynthesisedCountIsZero(u.parsed.value);
    var s := new Session(v);
    var shown := s.Run(Some(u));
    var f := s.frame;
    assert f.Value() == WithReviewed(u.parsed.value);
    ghost var rows0 := f.rows;
    assert rows0[0][Reviewed] == Int(0) && ColumnSum(rows0, Reviewed) == 0;
    s.UpdateLabel(choice);
    assert ColumnSum(f.rows, Reviewed) == ColumnSum(rows0, Reviewed) - IntValue(rows0[0][Reviewed]) + 1;
    count := ColumnSum(f.rows, Reviewed);
    before := Position(s.cursor, |f.rows|);
    s.GoToIndex(|f.rows| - 1);
    after := Position(s.cursor, |f.rows|);
  }

  /** Two reviews files with the manual page's columns: three rows and one row. */
  function ManualUpload(n: nat): (t: Table)
    ensures WellFormed(t) && |t.rows| == n && Missing(Manual.required, t.columns) == []
  {
    var columns := ["review_text", "sentiment"];
    var row := map["review_text" := Text("a"), "sentiment" := Int(1)];
    Table(columns, seq(n, _ => row))
  }

  /**
   * A reload keeps the cursor: after moving to row 2 of a three-row upload,
   * uploading a one-row file leaves the cursor at 2, past the new last row.
   */
  method ReloadKeepsCursor() returns (cursor: nat, rows: nat)
    ensures cursor == 2 && rows == 1 && cursor >= rows
  {
    var s := new Session(Manual);
    var _ := s.Run(Some(Upload(1, "first.csv", Some(ManualUpload(3)))));
    s.GoToIndex(2);
    var _ := s.Run(Some(Upload(2, "second.csv", Some(ManualUpload(1)))));
    cursor, rows := s.cursor, |s.frame.rows|;
  }
}

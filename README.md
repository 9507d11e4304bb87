# Sentiment annotation session — a Dafny model

This project models the annotation-session engine of a small sentiment-annotation tool. The tool has two Streamlit pages. The manual page (`pages/Manual_Annotation.py`) adds an `annotated_sentiment` column to a reviews file. The correction page (`Prediction_Annotation.py`) corrects the `sentiment` column against the model's `predicted_sentiment`. Both pages run the same engine:

- a label codec between integer codes and the names Positive, Negative and Neutral;
- a loader that rejects an upload missing a required column and adds a `reviewed` column of zeros when the upload has none;
- a session holding the table, a cursor and the identity token of the last uploaded file;
- two callbacks: one moves the cursor, the other writes a label at the cursor and flags the row reviewed;
- the reload rule of `main`;
- the progress bar value and the reviewed count;
- the download: a timestamped file name and, on the manual page, a cast of `annotated_sentiment` to nullable integers.

The engine is written once (module `Annotation`) and parameterised by a `Variant`. A variant gives the required columns, the column written, where the label options come from, and whether the download casts. `Manual` and `Correction` are the two pages.

Modules, one per component:

- `Table` (table.dfy): cells, rows and tables; `Frame`, the in-place-updated DataFrame with `.at` writes, column assignment and `copy()`; `Unique`, pandas' first-appearance distinct values.
- `LabelCodec` (label_codec.dfy): the ordered label dictionary and `get_sentiment_label`.
- `Loader` (loader.dfy): the missing-column list, the `reviewed` synthesis and the load method.
- `Progress` (progress.dfy): the position indicator as an exact `real`, and column sums.
- `Decimal` (decimal.dfy): decimal digits, used by the timestamp and by cell rendering.
- `ExportFormat` (export.dfy): the timestamp, the last-dot split, the output name, the `Int64` cast, and how a nullable-integer cell is written and read back.
- `Annotation` (session.dfy): the variants and the `Session` class with `Run` (`main`), `GoToIndex`, `UpdateLabel` and `Download`.

Behaviour of the code that the model keeps as it is:

- A reload keeps the old cursor. `ReloadKeepsCursor` shows it ending up past the new table's last row.
- Moving the cursor is not checked by the callback. The number input's bounds guarantee it, so `GoToIndex` has a precondition instead of an error result.
- The correction page does not check labels against {-1, 0, 1}. It offers whatever values `predicted_sentiment` holds.
- An empty table is not rejected at load time.
- There is no name-to-code function in the code. The dictionary is only read in the code-to-name direction and for its values.

## Model

| member | source | states |
|---|---|---|
| `LabelCodec.FirstKey` | pages/Manual_Annotation.py:37 | `next` over the generator yields the name of the first entry carrying the code (no earlier entry carries it), and None exactly when no entry carries it |
| `LabelCodec.LabelName` | pages/Manual_Annotation.py:36-37 | a code has a name exactly when it is 1, -1 or 0; any other code gives None, not an exception |
| `LabelCodec.LabelNames` | Prediction_Annotation.py:41-42 | 1 is Positive, -1 is Negative, 0 is Neutral, every other code is None |
| `LabelCodec.RoundTrip` | pages/Manual_Annotation.py:8 | in a dictionary whose codes are distinct, looking up an entry's code returns that entry's name |
| `LabelCodec.DictRoundTrip` | Prediction_Annotation.py:8 | for every name in the sentiment dictionary, mapping its code back gives the same name |
| `LabelCodec.Codes` | pages/Manual_Annotation.py:135 | the manual radio's options are 1, -1 and 0, in that order |
| `LabelCodec.CodesHaveNames` | pages/Manual_Annotation.py:135-142 | every option the manual radio offers is 1, -1 or 0 and has a display name |
| `Loader.Missing` | pages/Manual_Annotation.py:54 | the list holds exactly the required columns absent from the header, in required order (a subsequence), and is empty exactly when all are present |
| `Loader.MissingIsUnique` | Prediction_Annotation.py:57 | when the required names are distinct, any ordered list of exactly the absent ones equals the missing-column list |
| `Loader.WithReviewed` | pages/Manual_Annotation.py:59-60 | a table without `reviewed` gains it, 0 in every row, with row count, order and other cells unchanged; a table with it is returned unchanged |
| `Loader.Loaded` | pages/Manual_Annotation.py:46-62 | a read failure is an error; loading fails exactly when the missing list is non-empty and reports that list; otherwise the result is the parsed table with `reviewed` added when absent (`WithReviewed`), so it has every required column and `reviewed` |
| `Loader.LoadIdempotent` | Prediction_Annotation.py:57-65 | loading an accepted table again accepts it unchanged |
| `Loader.Load` | Prediction_Annotation.py:49-65 | the loader returns a fresh frame holding exactly the accepted table, or the error `Loaded` gives |
| `Table.SetCell` | pages/Manual_Annotation.py:88 | an `.at` write changes one cell; a new column is appended to the header with missing values in every other row; every other cell is kept |
| `Table.FillColumn` | Prediction_Annotation.py:63 | a scalar column assignment sets the column in every row and keeps every other cell |
| `Table.Unique` | Prediction_Annotation.py:136 | the distinct values, each once, with the same members as the column, ordered by first appearance |
| `Table.Frame.constructor` | pages/Manual_Annotation.py:49 | the frame read from the upload holds the parsed table |
| `Table.Frame.SetAt` | Prediction_Annotation.py:98-99 | the frame after an `.at` write is `SetCell` of the frame before |
| `Table.Frame.AssignColumn` | pages/Manual_Annotation.py:60 | the frame after `df[col] = x` is `FillColumn` of the frame before |
| `Table.Frame.Copy` | pages/Manual_Annotation.py:101 | the copy is a new object with the same contents |
| `Table.Frame.Replace` | pages/Manual_Annotation.py:105-107 | a column assignment leaves the frame holding the given table |
| `Progress.Position` | pages/Manual_Annotation.py:150-155 | the position lies in [0, 1], is 0 exactly at cursor 0, and is 1 at the last row when there are at least two rows |
| `Progress.PositionIncreases` | Prediction_Annotation.py:151-155 | a later cursor gives a strictly larger position |
| `Progress.ColumnSum` | pages/Manual_Annotation.py:160 | the reviewed count `df['reviewed'].sum()`: on a 0/1 column it lies in [0, n] |
| `Progress.SumCountsFlags` | pages/Manual_Annotation.py:160 | on a 0/1 `reviewed` column the sum is the number of reviewed rows, so it lies in [0, n] |
| `Progress.SumPointChange` | Prediction_Annotation.py:160 | two tables that differ in a column only at one row have sums that differ by exactly that row's change |
| `ExportFormat.Timestamp` | pages/Manual_Annotation.py:96 | the timestamp has 19 characters: dashes at positions 2, 5, 10, 13 and 16, digits everywhere else |
| `ExportFormat.TimestampRoundTrip` | Prediction_Annotation.py:106 | reading the zero-padded fields back gives the date and time that was formatted |
| `ExportFormat.SplitLastDot` | pages/Manual_Annotation.py:95 | splitting fails exactly when the name has no dot; otherwise stem + "." + ext rebuilds the name and ext has no dot |
| `ExportFormat.SplitLastDotUnique` | Prediction_Annotation.py:105 | any split at a dot with a dot-free right part is the last-dot split |
| `ExportFormat.OutputFileName` | pages/Manual_Annotation.py:95-98 | the output name exists exactly when the uploaded name has a dot |
| `ExportFormat.OutputFileNameSplits` | Prediction_Annotation.py:105-108 | the output name keeps the upload's extension; its part before the last dot is `annotated_`, the upload's stem, `_` and the timestamp |
| `ExportFormat.CastNullableInt` | pages/Manual_Annotation.py:104-107 | the cast keeps missing cells missing and numbers' values; it fails exactly on text and on fractional floats |
| `ExportFormat.CastColumn` | pages/Manual_Annotation.py:105-107 | the column cast fails exactly when some cell fails; otherwise it casts every cell of that column and keeps all else |
| `ExportFormat.RenderNullableInt` | pages/Manual_Annotation.py:110 | a cell is written as the empty field exactly when it is missing |
| `ExportFormat.NullableIntRoundTrip` | pages/Manual_Annotation.py:103-110 | writing a cast cell and reading it back gives the same cell, so an unset cell stays unset rather than becoming 0 |
| `Annotation.ManualLabelInDomain` | pages/Manual_Annotation.py:135-142 | the manual options (`LabelOptions`) are exactly 1, -1, 0, so the label written by `int(new_label)` is one of them and has a name |
| `Annotation.CorrectionLabelFromPredictions` | Prediction_Annotation.py:136-147 | the correction options (`LabelOptions`) are duplicate-free, contain every `predicted_sentiment` value and hold nothing else, so a chosen label occurs in `predicted_sentiment` |
| `Annotation.Labelled` | pages/Manual_Annotation.py:84-91 | after an update at row i, the label cell is the choice and `reviewed` is 1 there; every other cell is unchanged; a new label column is missing in every other row |
| `Annotation.CountAfterUpdate` | pages/Manual_Annotation.py:89 | the reviewed count rises by 1 when the row's flag was 0 and is unchanged when it was 1 |
| `Annotation.UpdateKeepsFlags` | Prediction_Annotation.py:99 | an update keeps a 0/1 `reviewed` column 0/1, so the count stays in [0, n] |
| `Annotation.SynthesisedCountIsZero` | Prediction_Annotation.py:62-63 | a synthesised `reviewed` column is all 0, so the count starts at 0 |
| `Annotation.ExportedTable` | pages/Manual_Annotation.py:100-107 | when `annotated_sentiment` exists, the manual download's table has the same header, rows and cells except that column, each of whose cells is the `Int64` cast of the stored cell: missing exactly where it was, otherwise the same integer value; otherwise, and on the correction page, it is the stored table itself |
| `Annotation.ExportThenLoad` | pages/Manual_Annotation.py:103-111 | the exported table is accepted again unchanged, and every cast `annotated_sentiment` cell survives being written and read |
| `Annotation.SampleWalkthrough` | Prediction_Annotation.py:136-143 | three rows labelled -1 with predictions 1, 1, 0 and no `reviewed` column are accepted with count 0, and the radio offers 1 then 0, each once in order of first appearance |
| `Annotation.Session.constructor` | Prediction_Annotation.py:213-214 | a new session has cursor 0, no table and no last upload |
| `Annotation.Session.Run` | Prediction_Annotation.py:216-229 | with no upload nothing changes; the table is re-read only when none is stored or the token differs; a failed load keeps table and token; a successful one stores the accepted table and the token; the cursor never changes |
| `Annotation.RerunKeepsLabels` | pages/Manual_Annotation.py:215-227 | the reload condition: a rerun with the same file keeps the stored table, so a written label and the count 1 survive; a different file is re-read and the count is 0 again |
| `Annotation.Session.GoToIndex` | pages/Manual_Annotation.py:40-43 | the cursor becomes the number input's value, which lies in [0, n-1] |
| `Annotation.Session.UpdateLabel` | pages/Manual_Annotation.py:84-91 | the stored table becomes `Labelled` at the cursor with the radio's choice, and the reviewed count changes by the flag's change at the cursor row |
| `Annotation.Session.Download` | pages/Manual_Annotation.py:94-111 | the download fails when the name has no dot or the cast fails; otherwise it gives the output name and `ExportedTable`, and the stored table is not modified |
| `Annotation.FirstSteps` | Prediction_Annotation.py:145-160 | on a fresh session, after loading an accepted upload and labelling its first row, the count is 1; the position is 0 there and 1 at the last row |
| `Annotation.ReloadKeepsCursor` | Prediction_Annotation.py:213-224 | after moving to row 2 of a three-row upload, reloading with a one-row file leaves the cursor at 2, past the last row |

## Left out

- Streamlit rendering is not modelled: the CSS, titles, sample table, columns, record display, `st.error` messages and the progress-bar and download widgets. The widgets' guarantees are kept as preconditions: the number input yields values in [0, n-1], and the radio yields one of its options.
- `Annotation.Session.UpdateLabel` requires the cursor to be inside the table. When a reload has left it past the end, the page's number input raises before the update button is reached, and the model does not represent that failure.
- `Annotation.Session.GoToIndex` has no out-of-range error. The callback has no check; the widget's bounds stand in for one.
- CSV parsing (`pd.read_csv`) and byte-level CSV encoding (`to_csv`) are foreign pandas calls. A load takes the parse outcome as an input. Only the nullable-integer cell rendering of `annotated_sentiment` is modelled.
- Column dtypes are not modelled. A label is stored as an integer cell. pandas stores it as a float (1.0) in a column that also holds missing values, which the export cast turns back into an integer.
- `Progress.ColumnSum` counts only integer cells. pandas would also add float cells and concatenate or reject text cells in a `reviewed` column.
- `datetime.now()` reads the clock, so the date and time are passed in as components.
- `ExportFormat.Timestamp` always pads the year to four digits. The platform `strftime` may not pad years before 1000.
- `predicted_score` is an opaque cell. Its four-decimal display is presentation only.
- The uploaded file's object identity is an opaque integer token compared by equality.
- Streamlit's rerun mechanism and `st.session_state` are replaced by an explicit `Session` object, one per page. There is no concurrency.
- `get_sentiment_label` is modelled on integer codes only. The display calls that pass it arbitrary cells, including missing values, are presentation.

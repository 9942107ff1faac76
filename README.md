# JGrafica chart component — a Dafny model

`JGrafica` is a Swing panel with a load button and a chart area. Pressing the
button picks a text file of `category,value` lines; the inner class
`Grafica` reads it into a map from category to number (`readFile`), shows the
map in a modal preview dialog where the user selects rows (`datosGenerales`),
and draws the selected entries as a pie chart (`"PASTEL"`) or a bar chart
(`"BARRAS"`), the kind being compared ignoring case. Changing the kind with
`setChartType` redraws the data last selected without reading the file again.

This project models that pipeline and proves its properties:

- `options.dfy` — `Option` (a nullable reference) and `Result` (a value or an exception).
- `java_strings.dfy` — `String.split(",")` as Java's single-character fast path
  with limit 0 executes it (a string without a comma comes back whole, even
  when empty; otherwise it is cut at every comma and trailing empty fields are
  removed), with `Join` as its reference inverse, and `equalsIgnoreCase`.
- `data_file.dfy` — `readFile`: the file is a sequence of lines with an
  optional point where `readLine` throws an `IOException`; `Double.valueOf` is
  a partial function `parse` into an opaque value type `V`. The loop is a
  method proved equal to the fold `Fold`, about which the lemmas speak.
- `selection.dfy` — `datosGenerales`: the table rows built in the map's
  iteration order, the dialog as a class whose Accept/Cancel handlers change
  its visibility and the one-element result array, and the whole modal call as
  a method over the user's sequence of events, proved equal to a reference
  outcome `DialogOutcome`.
- `charts.dfy` — the `Grafica` constructor's dispatch on the kind and the
  datasets the two chart kinds are drawn from.
- `panel.dfy` — the `JGrafica` class: `chartType`, `datosSeleccionados`, the
  chart area, `setChartType`, `updateGraph` and the load button's handler.

Behaviour of the code worth noting:

- A two-field line whose value does not parse aborts the whole read with the
  `NumberFormatException` (only `IOException` is caught); it is not skipped.
- An unreadable file, or an `IOException` part-way, yields the map built so
  far (empty when the file cannot be opened), not an error.
- A line is cut at every comma, not only at the first: `a,b,c` has three
  fields and is dropped, while `a,b,` has two (the trailing empty field is
  removed) and is kept.
- The line `B,` is dropped because it splits into one field, before any
  number is parsed.
- An unknown chart kind yields a null chart inside the panel, not an error.

## Model

| member | source | states |
|---|---|---|
| JavaStrings.Pieces | src/grafica/JGrafica.java:114 | the pieces between commas are at least one and none contains a comma |
| JavaStrings.Split | src/grafica/JGrafica.java:114 | no field contains a comma; a line with no comma (the empty line included) is a single field |
| JavaStrings.JoinPieces | src/grafica/JGrafica.java:114 | joining the pieces with commas gives the line back |
| JavaStrings.PiecesJoin | src/grafica/JGrafica.java:114 | comma-free fields joined with commas split back into the same fields |
| JavaStrings.TwoFieldsShape | src/grafica/JGrafica.java:114-115 | a line splits into exactly two fields only if it is field, comma, non-empty field, then only commas |
| JavaStrings.TwoFieldsOf | src/grafica/JGrafica.java:114-115 | every line of that shape splits into exactly its two fields |
| JavaStrings.TrailingCommaDropped | src/grafica/JGrafica.java:114-115 | a line like `B,` yields at most one field and adds no entry |
| JavaStrings.FieldPair | src/grafica/JGrafica.java:114-116 | a line gives a (category, value text) pair exactly when it splits into two fields; neither contains a comma and the value text is not empty |
| JavaStrings.EqualsIgnoreCase | src/grafica/JGrafica.java:92-96 | two strings are equal ignoring case exactly when their upper-cased forms are equal (ASCII letters folded) |
| JavaStrings.UpperCase | src/grafica/JGrafica.java:92 | upper-casing keeps the length and maps each character |
| JavaStrings.EqualsIgnoreCaseUpper | src/grafica/JGrafica.java:92-96 | against an upper-case word, `equalsIgnoreCase` holds exactly when the upper-cased string equals it |
| DataFile.LinesRead | src/grafica/JGrafica.java:111-113 | an unopenable file yields no lines; an `IOException` cuts the lines to those before it |
| DataFile.Step | src/grafica/JGrafica.java:114-116 | one line: throws exactly when it has two fields and the value does not parse, with that text; otherwise adds the category (when there are two fields) with its parsed value and leaves every other category as it was |
| DataFile.Fold | src/grafica/JGrafica.java:108-121 | the reference for the loop: the map built from the lines, or an exception, which always comes from a read line whose value does not parse and carries its text |
| DataFile.ReadFile | src/grafica/JGrafica.java:107-123 | the loop returns the fold of the lines read: the map, or the number-format exception |
| DataFile.FailureSticks | src/grafica/JGrafica.java:116-121 | once a line has thrown, the whole read has thrown that exception |
| DataFile.FoldSize | src/grafica/JGrafica.java:108-118 | the map has no more entries than there are lines |
| DataFile.FoldKeys | src/grafica/JGrafica.java:108-118 | the map's keys are exactly the first fields of the lines with two fields |
| DataFile.FoldLastWins | src/grafica/JGrafica.java:116 | a category's value is the parse of the second field of the last accepted line with that category |
| DataFile.FoldFails | src/grafica/JGrafica.java:111-121 | the read throws if and only if some two-field line has a value that does not parse |
| DataFile.FoldFirstError | src/grafica/JGrafica.java:116 | the exception carries the value text of the first such line |
| DataFile.RepeatedCategory | src/grafica/JGrafica.java:113-118 | `A,10`, `B,20`, `A,30` give `{A: 30, B: 20}` |
| DataFile.MalformedLines | src/grafica/JGrafica.java:113-118 | `A,10`, `badline`, `B,` give `{A: 10}`, whatever the parse of the others |
| Selection.FillTable | src/grafica/JGrafica.java:132 | the table has one row per entry of the map, in iteration order, each holding that entry |
| Selection.CollectSelected | src/grafica/JGrafica.java:169-174 | the map built holds exactly the categories of the selected rows, each with its row's value |
| Selection.PreviewDialog.constructor | src/grafica/JGrafica.java:138-160 | the dialog starts open with a null result |
| Selection.PreviewDialog.Accept | src/grafica/JGrafica.java:163-177 | no rows selected: the dialog stays pending and nothing is stored; otherwise it closes holding the selected rows' map |
| Selection.PreviewDialog.Cancel | src/grafica/JGrafica.java:180-183 | the dialog closes and its result stays null |
| Selection.PreviewDialog.CloseWindow | src/grafica/JGrafica.java:186-188 | closing the window ends the dialog with a null result |
| Selection.FirstClosing | src/grafica/JGrafica.java:164-186 | the index of the first event that closes the dialog, every earlier one leaving it open |
| Selection.DatosGenerales | src/grafica/JGrafica.java:126-188 | the modal call returns exactly the reference outcome of the user's events |
| Selection.SelectionMatchesData | src/grafica/JGrafica.java:169-175 | the map built from table rows equals the input map restricted to the selected categories |
| Selection.OutcomeNullIffCancelled | src/grafica/JGrafica.java:160-188 | the result is null exactly when the dialog closed without Accept |
| Selection.OutcomeIsSelection | src/grafica/JGrafica.java:164-176 | an accepted result is non-empty, its keys are the selected categories and its values are the input's |
| Selection.EmptyAcceptIgnored | src/grafica/JGrafica.java:165-168 | pressing Accept with nothing selected changes nothing about how the dialog ends |
| Selection.SelectingASubset | src/grafica/JGrafica.java:169-176 | selecting the rows of a set S of categories yields the input restricted to S |
| Charts.PieDataset | src/grafica/JGrafica.java:93-94 | each entry is a slice with its value and every slice is an entry |
| Charts.BarDataset | src/grafica/JGrafica.java:97-98 | each entry is a cell (value, key, key) and every cell is one |
| Charts.CreateChart | src/grafica/JGrafica.java:90-100 | pie exactly for PASTEL in any case, bar exactly for BARRAS in any case, null otherwise, with the title, axis labels and dataset |
| Charts.PieOneSlicePerEntry | src/grafica/JGrafica.java:94 | the pie has as many slices as the map has entries |
| Charts.BarOneCellPerEntry | src/grafica/JGrafica.java:98 | the bar chart has as many cells as the map has entries |
| Charts.KindIgnoresCase | src/grafica/JGrafica.java:92-96 | `pastel` draws a pie, `Barras` a bar chart, `PIE` nothing |
| Charts.PieOfOneEntry | src/grafica/JGrafica.java:92-95 | a selection of `B` alone gives one slice `B` with its value |
| Panel.JGrafica.constructor | src/grafica/JGrafica.java:24-27 | the kind starts as PASTEL, nothing selected, nothing shown |
| Panel.JGrafica.SetChartType | src/grafica/JGrafica.java:74-77 | stores the kind, reads no file and keeps the data; with data it shows that kind's chart of it; with no data a PASTEL or BARRAS kind throws a NullPointerException leaving the chart area cleared, and any other kind shows a null chart |
| Panel.JGrafica.UpdateGraph | src/grafica/JGrafica.java:79-101 | the chart area shows the current kind's chart of the held data, or a null chart for an unknown kind; with no data a pie or bar kind throws after clearing it |
| Panel.JGrafica.LoadFile | src/grafica/JGrafica.java:47-66 | on a chosen file: clears the chart, reads once, stores the dialog's result and draws only a non-null one; an exception leaves the held data unchanged |

## Left out

- The Swing user interface: the file chooser's dialog, message boxes, the
  dialog's modality and layout, widget sizes, `revalidate`/`repaint` and the
  button icon. The file chooser's answer and the user's dialog events are parameters.
- The JFreeChart library: chart objects are reduced to their title, axis labels
  and dataset; no drawing is modelled, and the order in which a dataset
  receives its entries is not kept.
- File I/O: the file is given as its lines plus an optional line at which
  `readLine` throws; the message printed on an `IOException` is not modelled.
- `Double.valueOf` and floating point: the parameter `parse` stands for it, so
  no property of the numbers themselves is stated.
- JavaStrings.EqualsIgnoreCase: folds ASCII letters only; Java also folds some
  other characters onto them (U+017F, the long s, upper-cases to `S`), so a
  kind such as `PAſTEL` selects the pie in Java but not in this model.
- The `HashMap` iteration order, which fixes the table's row order, is a
  parameter (any order listing each key once); no ordering is asserted.
- Panel.JGrafica.SetChartType: the NullPointerException thrown when no data
  is held (before the first load or after a cancelled one) and the kind is
  PASTEL or BARRAS is returned as a flag instead of unwinding the caller.
- Panel.JGrafica.LoadFile: requires the user eventually to close the dialog;
  a dialog left open forever (the call never returns) is not modelled. A
  `NumberFormatException` is returned as a value instead of unwinding the
  event handler.
- Selection.DatosGenerales: the table's cells are editable in Java and edits
  are not modelled; the results assume the rows are unedited. A retyped
  category would give a key that is not in the input map, and a retyped value
  leaves a string in the cell, so the cast to a number throws and the dialog
  stays open.
- A JTable sorter: the selected view indices are taken as model indices, as
  the component installs no sorter.
- `getChartType`, a plain field read.

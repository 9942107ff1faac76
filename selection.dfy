/**
 * `Grafica.datosGenerales`: the modal preview dialog. The input map is shown
 * as a table, one row per entry in the map's iteration order; the user
 * selects rows and presses Accept or Cancel. Accept with no row selected
 * shows a warning and keeps the dialog open; Accept with rows selected
 * stores the map of those rows and closes it; Cancel closes it leaving the
 * result null.
 */
module Selection {

  import opened Options

  /** What the user does while the dialog is open. */
  datatype DialogEvent =
    | AcceptPressed(selectedRows: seq<int>)   // `table.getSelectedRows()` at that moment
    | CancelPressed
    | WindowClosed                            // the title-bar close: the dialog is hidden

  /** Where the dialog stands. */
  datatype DialogState<V> = Pending | Accepted(selection: map<string, V>) | Cancelled

  /** `order` lists every key of `data` exactly once: the HashMap's iteration
      order, which Java leaves unspecified. */
  predicate IsIterationOrder<V>(order: seq<string>, data: map<string, V>) {
    && (forall i, j :: 0 <= i < j < |order| ==> order[i] != order[j])
    && (forall i :: 0 <= i < |order| ==> order[i] in data)
    && (forall k :: k in data ==> k in order)
  }

  /** No category appears in two rows. */
  predicate DistinctKeys<V>(rows: seq<(string, V)>) {
    forall i, j :: 0 <= i < j < |rows| ==> rows[i].0 != rows[j].0
  }

  /** Every row of the table is an entry of `data`, and every entry has a row. */
  ghost predicate ListsEntries<V>(rows: seq<(string, V)>, data: map<string, V>) {
    && DistinctKeys(rows)
    && (forall i :: 0 <= i < |rows| ==> rows[i].0 in data && data[rows[i].0] == rows[i].1)
    && (forall k :: k in data ==> exists i :: 0 <= i < |rows| && rows[i].0 == k)
  }

  /** Every selected index denotes a row. */
  predicate ValidIndices(selectedRows: seq<int>, rowCount: nat) {
    forall j :: 0 <= j < |selectedRows| ==> 0 <= selectedRows[j] < rowCount
  }

  /** The categories of the selected rows. */
  ghost function SelectedCategories<V>(rows: seq<(string, V)>, selectedRows: seq<int>): set<string> {
    set j | 0 <= j < |selectedRows| && 0 <= selectedRows[j] < |rows| :: rows[selectedRows[j]].0
  }

  /** `datos.forEach` adding rows to the table model: one row per entry, in iteration order. */
  method FillTable<V>(data: map<string, V>, order: seq<string>) returns (rows: seq<(string, V)>)
    requires IsIterationOrder(order, data)
    ensures ListsEntries(rows, data) && |rows| == |order|
    ensures forall i :: 0 <= i < |rows| ==> rows[i].0 == order[i]
  {
    rows := [];
    for i := 0 to |order|
      invariant |rows| == i
      invariant forall t :: 0 <= t < i ==> rows[t] == (order[t], data[order[t]])
    {
      rows := rows + [(order[i], data[order[i]])];
    }
    forall k | k in data ensures exists i :: 0 <= i < |rows| && rows[i].0 == k {
      var i :| 0 <= i < |order| && order[i] == k;
      assert rows[i].0 == k;
    }
  }

  /** The loop of the Accept listener of `datosGenerales`, which puts the category and
      value of each selected row into a fresh map. */
  method CollectSelected<V>(rows: seq<(string, V)>, selectedRows: seq<int>) returns (selectedMap: map<string, V>)
    requires DistinctKeys(rows)
    requires ValidIndices(selectedRows, |rows|)
    ensures selectedMap.Keys == SelectedCategories(rows, selectedRows)
    ensures forall j :: 0 <= j < |selectedRows| ==> selectedMap[rows[selectedRows[j]].0] == rows[selectedRows[j]].1
  {
    selectedMap := map[];
    for j := 0 to |selectedRows|
      invariant selectedMap.Keys == SelectedCategories(rows, selectedRows[..j])
      invariant forall t :: 0 <= t < j ==> selectedMap[rows[selectedRows[t]].0] == rows[selectedRows[t]].1
    {
      var row := selectedRows[j];
      var category := rows[row].0;
      var value := rows[row].1;
      CategoriesSnoc(rows, selectedRows[..j], row);
      assert selectedRows[..j + 1] == selectedRows[..j] + [row];
      selectedMap := selectedMap[category := value];
    }
    assert selectedRows[..|selectedRows|] == selectedRows;
  }

  lemma CategoriesSnoc<V>(rows: seq<(string, V)>, sel: seq<int>, row: int)
    requires 0 <= row < |rows|
    ensures SelectedCategories(rows, sel + [row]) == SelectedCategories(rows, sel) + {rows[row].0}
  {
    var sel' := sel + [row];
    forall k | k in SelectedCategories(rows, sel') ensures k in SelectedCategories(rows, sel) + {rows[row].0} {
      var j :| 0 <= j < |sel'| && 0 <= sel'[j] < |rows| && rows[sel'[j]].0 == k;
      if j < |sel| {
        assert sel'[j] == sel[j];
      }
    }
    forall k | k in SelectedCategories(rows, sel) ensures k in SelectedCategories(rows, sel') {
      var j :| 0 <= j < |sel| && 0 <= sel[j] < |rows| && rows[sel[j]].0 == k;
      assert sel'[j] == sel[j];
    }
    assert sel'[|sel|] == row;
  }

  /** The preview dialog of `datosGenerales`, with the one-element result
      array `selectedData` as a field. */
  class PreviewDialog<V> {
    const rows: seq<(string, V)>
    var visible: bool
    var selectedData: Option<map<string, V>>

    ghost predicate Valid()
      reads this
    {
      DistinctKeys(rows) && (visible ==> selectedData.None?)
    }

    /** The state the dialog is in. */
    function State(): DialogState<V>
      reads this
    {
      if visible then Pending
      else if selectedData.Some? then Accepted(selectedData.value)
      else Cancelled
    }

    constructor (rows: seq<(string, V)>)
      requires DistinctKeys(rows)
      ensures Valid() && this.rows == rows
      ensures State() == Pending
    {
      this.rows := rows;
      visible := true;
      selectedData := None;
    }

    /** The Accept listener of `datosGenerales`. */
    method Accept(selectedRows: seq<int>)
      requires Valid() && visible
      requires ValidIndices(selectedRows, |rows|)
      modifies this
      ensures Valid()
      ensures |selectedRows| == 0 ==> State() == Pending && selectedData == old(selectedData)
      ensures |selectedRows| > 0 ==>
        && State().Accepted?
        && State().selection.Keys == SelectedCategories(rows, selectedRows)
        && (forall j :: 0 <= j < |selectedRows| ==>
              State().selection[rows[selectedRows[j]].0] == rows[selectedRows[j]].1)
    {
      if |selectedRows| == 0 {
        // a warning message is shown and the dialog stays open
        return;
      }
      var selectedMap := CollectSelected(rows, selectedRows);
      selectedData := Some(selectedMap);
      visible := false;
    }

    /** The Cancel listener of `datosGenerales`: it closes the dialog and stores nothing. */
    method Cancel()
      requires Valid() && visible
      modifies this
      ensures Valid() && State() == Cancelled
    {
      visible := false;
    }

    /** Closing the window hides the modal dialog, as Cancel does. */
    method CloseWindow()
      requires Valid() && visible
      modifies this
      ensures Valid() && State() == Cancelled
    {
      visible := false;
    }
  }

  // ---------------------------------------------------------------------------
  // The dialog as a whole

  /** The event makes the dialog close. */
  predicate Closes(e: DialogEvent) {
    match e
    case AcceptPressed(selectedRows) => |selectedRows| > 0
    case CancelPressed => true
    case WindowClosed => true
  }

  /** The modal call returns only once the dialog has closed. */
  predicate EventuallyCloses(events: seq<DialogEvent>) {
    exists i :: 0 <= i < |events| && Closes(events[i])
  }

  /** The position of the event that closes the dialog. */
  function FirstClosing(events: seq<DialogEvent>): (i: nat)
    requires EventuallyCloses(events)
    ensures i < |events| && Closes(events[i])
    ensures forall j :: 0 <= j < i ==> !Closes(events[j])
  {
    if Closes(events[0]) then 0
    else
      assert EventuallyCloses(events[1..]) by {
        var i :| 0 <= i < |events| && Closes(events[i]);
        assert events[1..][i - 1] == events[i];
      }
      1 + FirstClosing(events[1..])
  }

  /** The categories at the selected positions of the iteration order. */
  ghost function PickedKeys(order: seq<string>, selectedRows: seq<int>): set<string> {
    set j | 0 <= j < |selectedRows| && 0 <= selectedRows[j] < |order| :: order[selectedRows[j]]
  }

  /** What datosGenerales returns, as a value: the entries of `data` whose
      categories were selected when the dialog closed, or None (null) when it
      closed without a selection. */
  ghost function DialogOutcome<V>(data: map<string, V>, order: seq<string>, events: seq<DialogEvent>): Option<map<string, V>>
    requires EventuallyCloses(events)
  {
    match events[FirstClosing(events)]
    case AcceptPressed(selectedRows) =>
      Some(map k | k in data && k in PickedKeys(order, selectedRows) :: data[k])
    case CancelPressed => None
    case WindowClosed => None
  }

  /** All selections refer to rows of the table. */
  predicate SelectionsInRange(events: seq<DialogEvent>, rowCount: nat) {
    forall i :: 0 <= i < |events| && events[i].AcceptPressed? ==> ValidIndices(events[i].selectedRows, rowCount)
  }

  /** `datosGenerales`: fills the table, shows the dialog, handles the user's
      events until it closes and returns the stored selection. The input map
      is only read. */
  method DatosGenerales<V>(data: map<string, V>, order: seq<string>, events: seq<DialogEvent>)
    returns (r: Option<map<string, V>>)
    requires IsIterationOrder(order, data)
    requires SelectionsInRange(events, |order|)
    requires EventuallyCloses(events)
    ensures r == DialogOutcome(data, order, events)
  {
    var rows := FillTable(data, order);
    var dialog := new PreviewDialog(rows);
    var last := FirstClosing(events);
    var i := 0;
    while dialog.visible
      invariant dialog.Valid() && dialog.rows == rows
      invariant 0 <= i <= last + 1
      invariant dialog.visible <==> i <= last
      invariant !dialog.visible ==> dialog.selectedData == DialogOutcome(data, order, events)
      decreases last + 1 - i
    {
      match events[i] {
        case AcceptPressed(selectedRows) =>
          dialog.Accept(selectedRows);
          if i == last {
            SelectionMatchesData(data, order, rows, selectedRows, dialog.selectedData.value);
          }
        case CancelPressed =>
          dialog.Cancel();
        case WindowClosed =>
          dialog.CloseWindow();
      }
      i := i + 1;
    }
    r := dialog.selectedData;
  }

  /** The map the accept handler builds from the table equals the entries of
      `data` at the selected categories. */
  lemma SelectionMatchesData<V>(data: map<string, V>, order: seq<string>, rows: seq<(string, V)>,
                                selectedRows: seq<int>, m: map<string, V>)
    requires ListsEntries(rows, data) && |rows| == |order|
    requires forall i :: 0 <= i < |rows| ==> rows[i].0 == order[i]
    requires ValidIndices(selectedRows, |rows|)
    requires m.Keys == SelectedCategories(rows, selectedRows)
    requires forall j :: 0 <= j < |selectedRows| ==> m[rows[selectedRows[j]].0] == rows[selectedRows[j]].1
    ensures m == map k | k in data && k in PickedKeys(order, selectedRows) :: data[k]
  {
    assert SelectedCategories(rows, selectedRows) == PickedKeys(order, selectedRows);
    forall k | k in m ensures k in data && m[k] == data[k] {
      var j :| 0 <= j < |selectedRows| && 0 <= selectedRows[j] < |rows| && rows[selectedRows[j]].0 == k;
    }
  }

  // ---------------------------------------------------------------------------
  // Properties of the dialog's outcome

  /** The result is null exactly when the dialog was closed by Cancel or by
      the window, not by Accept. */
  lemma OutcomeNullIffCancelled<V>(data: map<string, V>, order: seq<string>, events: seq<DialogEvent>)
    requires EventuallyCloses(events)
    ensures DialogOutcome(data, order, events).None? <==> !events[FirstClosing(events)].AcceptPressed?
  {
  }

  /** An accepted result is a non-empty sub-map of the input: exactly the
      entries of the selected categories. */
  lemma {:induction false} OutcomeIsSelection<V>(data: map<string, V>, order: seq<string>, events: seq<DialogEvent>)
    requires IsIterationOrder(order, data)
    requires SelectionsInRange(events, |order|)
    requires EventuallyCloses(events)
    requires DialogOutcome(data, order, events).Some?
    ensures events[FirstClosing(events)].AcceptPressed?
    ensures DialogOutcome(data, order, events).value.Keys == PickedKeys(order, events[FirstClosing(events)].selectedRows)
    ensures DialogOutcome(data, order, events).value != map[]
    ensures forall k :: k in DialogOutcome(data, order, events).value ==>
              k in data && DialogOutcome(data, order, events).value[k] == data[k]
  {
    var sel := events[FirstClosing(events)].selectedRows;
    var m := DialogOutcome(data, order, events).value;
    assert order[sel[0]] in PickedKeys(order, sel);
    assert order[sel[0]] in m;
  }

  /** Pressing Accept with nothing selected is ignored: the dialog ends as if
      the press had not happened. */
  lemma EmptyAcceptIgnored<V>(data: map<string, V>, order: seq<string>, events: seq<DialogEvent>)
    requires EventuallyCloses(events)
    ensures EventuallyCloses([AcceptPressed([])] + events)
    ensures DialogOutcome(data, order, [AcceptPressed([])] + events) == DialogOutcome(data, order, events)
  {
    var es := [AcceptPressed([])] + events;
    var i :| 0 <= i < |events| && Closes(events[i]);
    assert es[i + 1] == events[i];
    assert es[1..] == events;
  }

  /** Choosing exactly the rows of a set S of categories yields `data`
      restricted to S. */
  lemma {:induction false} SelectingASubset<V>(data: map<string, V>, order: seq<string>, events: seq<DialogEvent>, s: set<string>)
    requires IsIterationOrder(order, data)
    requires SelectionsInRange(events, |order|)
    requires EventuallyCloses(events)
    requires s <= data.Keys
    requires events[FirstClosing(events)].AcceptPressed?
    requires PickedKeys(order, events[FirstClosing(events)].selectedRows) == s
    ensures DialogOutcome(data, order, events) == Some(map k | k in s :: data[k])
  {
    var sel := events[FirstClosing(events)].selectedRows;
    assert (map k | k in data && k in PickedKeys(order, sel) :: data[k]) == (map k | k in s :: data[k]);
  }
}

/**
 * The `JGrafica` panel: it holds the chart kind (initially "PASTEL"), the
 * data last selected in the preview dialog and the chart area. Loading a
 * file clears the chart area, reads the file, runs the dialog and draws the
 * selection if there is one; changing the kind redraws the held data
 * without reading anything again.
 */
module Panel {

  import opened Options
  import opened DataFile
  import opened Selection
  import opened Charts
  import opened JavaStrings

  const Title: string := "Gráfico"

  /** What the chart area (`graphPanel`) holds. */
  datatype Display<V(==)> =
    | Blank                           // after removeAll()
    | Showing(chart: Option<Chart<V>>)  // a Grafica panel around the chart, which may be null

  /** The kinds whose chart reads the data: PASTEL and BARRAS, in any case. */
  predicate NeedsData(kind: string) {
    UpperCase(kind) == PieKind || UpperCase(kind) == BarKind
  }

  /** What `new Grafica(kind, Title, data)` puts in the chart area when it does
      not throw: with no data, the null chart of an unknown kind. */
  function ChartOf<V(==)>(kind: string, data: Option<map<string, V>>): Option<Chart<V>> {
    match data
    case Some(m) => CreateChart(kind, Title, m)
    case None => None
  }

  /** The file chooser's answer. */
  datatype FileChoice = NotApproved | Approved(file: TextFile)

  class JGrafica<V(==)> {
    var chartType: string
    var datosSeleccionados: Option<map<string, V>>
    var graphPanel: Display<V>
    /** `Double.valueOf`. */
    const parse: string -> Option<V>
    /** How many times a file has been read. */
    ghost var fileReads: nat

    /** The chart on show, if any, is the current kind applied to the current
        data; with no data only an unknown kind (a null chart) can be on show. */
    ghost predicate Valid()
      reads this
    {
      graphPanel.Showing? ==>
        graphPanel.chart == ChartOf(chartType, datosSeleccionados) &&
        (datosSeleccionados.None? ==> !NeedsData(chartType))
    }

    /** The constructor: the default kind is PASTEL, nothing is selected or shown. */
    constructor (parse: string -> Option<V>)
      ensures Valid()
      ensures chartType == PieKind && datosSeleccionados == None && graphPanel == Blank
      ensures this.parse == parse && fileReads == 0
    {
      chartType := PieKind;
      datosSeleccionados := None;
      graphPanel := Blank;
      this.parse := parse;
      fileReads := 0;
    }

    /** `setChartType`: store the kind and redraw the held data. With no data
        and a pie or bar kind the redraw throws a NullPointerException
        (`npe`), after the chart area has been cleared. */
    method SetChartType(kind: string) returns (npe: bool)
      requires Valid()
      modifies this
      ensures Valid()
      ensures chartType == kind
      ensures datosSeleccionados == old(datosSeleccionados) && fileReads == old(fileReads)
      ensures npe <==> datosSeleccionados.None? && NeedsData(kind)
      ensures graphPanel == if npe then Blank else Showing(ChartOf(kind, datosSeleccionados))
    {
      chartType := kind;
      npe := UpdateGraph();
    }

    /** `updateGraph`: clear the chart area and put in it a chart of the held
        data. A null map reaches `forEach` only for a pie or bar kind. */
    method UpdateGraph() returns (npe: bool)
      modifies this`graphPanel
      ensures npe <==> datosSeleccionados.None? && NeedsData(chartType)
      ensures graphPanel == if npe then Blank else Showing(ChartOf(chartType, datosSeleccionados))
      ensures Valid()
    {
      graphPanel := Blank;
      EqualsIgnoreCaseUpper(chartType, PieKind);
      EqualsIgnoreCaseUpper(chartType, BarKind);
      match datosSeleccionados
      case Some(data) =>
        graphPanel := Showing(CreateChart(chartType, Title, data));
        npe := false;
      case None =>
        if EqualsIgnoreCase(chartType, PieKind) || EqualsIgnoreCase(chartType, BarKind) {
          npe := true;
        } else {
          graphPanel := Showing(None);
          npe := false;
        }
    }

    /** The load button's action listener. `order` is the iteration order of the map
        read and `events` what the user does in the dialog. A NumberFormatException
        from the read escapes the handler and is returned as `thrown`. */
    method LoadFile(choice: FileChoice, order: seq<string>, events: seq<DialogEvent>)
      returns (thrown: Option<ReadError>)
      requires Valid()
      requires choice.Approved? ==> EventuallyCloses(events)
      requires choice.Approved? && Fold(LinesRead(choice.file), parse).Success? ==>
        IsIterationOrder(order, Fold(LinesRead(choice.file), parse).value) &&
        SelectionsInRange(events, |order|)
      modifies this
      ensures Valid() && chartType == old(chartType)
      ensures choice.NotApproved? ==>
        thrown == None && graphPanel == old(graphPanel) &&
        datosSeleccionados == old(datosSeleccionados) && fileReads == old(fileReads)
      ensures choice.Approved? ==> fileReads == old(fileReads) + 1
      ensures choice.Approved? && Fold(LinesRead(choice.file), parse).Failure? ==>
        thrown == Some(Fold(LinesRead(choice.file), parse).error) &&
        graphPanel == Blank && datosSeleccionados == old(datosSeleccionados)
      ensures choice.Approved? && Fold(LinesRead(choice.file), parse).Success? ==>
        thrown == None &&
        datosSeleccionados == DialogOutcome(Fold(LinesRead(choice.file), parse).value, order, events) &&
        graphPanel == if datosSeleccionados.Some?
                      then Showing(CreateChart(chartType, Title, datosSeleccionados.value))
                      else Blank
    {
      if choice.NotApproved? {
        // "No se seleccionó ningún archivo." is shown
        return None;
      }
      graphPanel := Blank;
      var divisions := ReadFile(choice.file, parse);
      fileReads := fileReads + 1;
      if divisions.Failure? {
        return Some(divisions.error);
      }
      datosSeleccionados := DatosGenerales(divisions.value, order, events);
      if datosSeleccionados.Some? {
        var npe := UpdateGraph();
      }
      return None;
    }
  }
}

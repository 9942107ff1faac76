/**
 * The `Grafica` constructor: the kind string picks a pie chart ("PASTEL") or
 * a bar chart ("BARRAS"), compared ignoring case; any other kind leaves the
 * chart null. The charting library is reduced to the dataset each chart is
 * drawn from: a set of (category, value) slices for the pie, and a set of
 * (value, series, category) cells for the bars, where each entry's category
 * is both its series and its category.
 */
module Charts {

  import opened Options
  import opened JavaStrings

  const PieKind: string := "PASTEL"
  const BarKind: string := "BARRAS"
  const CategoryAxisLabel: string := "Categoría"
  const ValueAxisLabel: string := "Valor"

  /** A created chart, as the data it displays. */
  datatype Chart<V(==)> =
    | PieChart(title: string, slices: set<(string, V)>)
    | BarChart(title: string, categoryAxis: string, valueAxis: string, cells: set<(V, string, string)>)

  /** `data.forEach(pieDataset::setValue)`: one slice per entry. */
  function PieDataset<V(==)>(data: map<string, V>): (slices: set<(string, V)>)
    ensures forall k :: k in data ==> (k, data[k]) in slices
    ensures forall s :: s in slices ==> s.0 in data && s.1 == data[s.0]
  {
    set k | k in data :: (k, data[k])
  }

  /** `data.forEach((key, value) -> barDataset.addValue(value, key, key))`. */
  function BarDataset<V(==)>(data: map<string, V>): (cells: set<(V, string, string)>)
    ensures forall k :: k in data ==> (data[k], k, k) in cells
    ensures forall c :: c in cells ==> c.1 == c.2 && c.1 in data && c.0 == data[c.1]
  {
    set k | k in data :: (data[k], k, k)
  }

  /** The `Grafica` constructor: the chart for a kind, or None (a null chart). */
  function CreateChart<V(==)>(kind: string, title: string, data: map<string, V>): (c: Option<Chart<V>>)
    ensures (c.Some? && c.value.PieChart?) <==> UpperCase(kind) == PieKind
    ensures (c.Some? && c.value.BarChart?) <==> UpperCase(kind) == BarKind
    ensures c.None? <==> UpperCase(kind) != PieKind && UpperCase(kind) != BarKind
    ensures c.Some? ==> c.value.title == title
    ensures c.Some? && c.value.PieChart? ==> c.value.slices == PieDataset(data)
    ensures c.Some? && c.value.BarChart? ==>
      c.value.cells == BarDataset(data) &&
      c.value.categoryAxis == CategoryAxisLabel && c.value.valueAxis == ValueAxisLabel
  {
    EqualsIgnoreCaseUpper(kind, PieKind);
    EqualsIgnoreCaseUpper(kind, BarKind);
    if EqualsIgnoreCase(kind, PieKind) then
      Some(PieChart(title, PieDataset(data)))
    else if EqualsIgnoreCase(kind, BarKind) then
      Some(BarChart(title, CategoryAxisLabel, ValueAxisLabel, BarDataset(data)))
    else
      None
  }

  // ---------------------------------------------------------------------------
  // One slice, one cell per entry

  lemma {:induction false} PieOneSlicePerEntry<V>(data: map<string, V>)
    ensures |PieDataset(data)| == |data|
    decreases |data|
  {
    if data != map[] {
      var k :| k in data;
      var rest := data - {k};
      PieOneSlicePerEntry(rest);
      forall s | s in PieDataset(data) ensures s in PieDataset(rest) + {(k, data[k])} {
        if s.0 != k { assert s == (s.0, rest[s.0]); }
      }
      assert PieDataset(data) == PieDataset(rest) + {(k, data[k])};
      assert (k, data[k]) !in PieDataset(rest);
      assert |data| == |rest| + 1 by { assert data.Keys == rest.Keys + {k}; }
    }
  }

  lemma {:induction false} BarOneCellPerEntry<V>(data: map<string, V>)
    ensures |BarDataset(data)| == |data|
    decreases |data|
  {
    if data != map[] {
      var k :| k in data;
      var rest := data - {k};
      BarOneCellPerEntry(rest);
      forall c | c in BarDataset(data) ensures c in BarDataset(rest) + {(data[k], k, k)} {
        if c.1 != k { assert c == (rest[c.1], c.1, c.1); }
      }
      assert BarDataset(data) == BarDataset(rest) + {(data[k], k, k)};
      assert (data[k], k, k) !in BarDataset(rest);
      assert |data| == |rest| + 1 by { assert data.Keys == rest.Keys + {k}; }
    }
  }

  /** The kind is read ignoring case. */
  lemma KindIgnoresCase<V>(title: string, data: map<string, V>)
    ensures CreateChart("pastel", title, data) == Some(PieChart(title, PieDataset(data)))
    ensures CreateChart("Barras", title, data).Some? && CreateChart("Barras", title, data).value.BarChart?
    ensures CreateChart("PIE", title, data) == None
  {
    assert UpperCase("pastel") == "PASTEL";
    assert UpperCase("Barras") == "BARRAS";
    assert UpperCase("PIE") == "PIE";
  }

  /** A selection of one category gives a pie of one slice with its value. */
  lemma PieOfOneEntry<V>(title: string, value: V)
    ensures CreateChart(PieKind, title, map["B" := value]) == Some(PieChart(title, {("B", value)}))
  {
    assert UpperCase(PieKind) == PieKind;
    var data := map["B" := value];
    forall s | s in PieDataset(data) ensures s == ("B", value) {
      assert s.0 == "B";
    }
    assert "B" in data && data["B"] == value;
    assert ("B", value) in PieDataset(data);
    assert PieDataset(data) == {("B", value)};
  }
}

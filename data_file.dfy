/**
 * `Grafica.readFile`: reads a file line by line, keeps the lines that split
 * into exactly two comma-separated fields and folds them into a map from
 * category to value, a later line overwriting an earlier one. The numeric
 * conversion `Double.valueOf` is the parameter `parse`, partial and over an
 * opaque value type `V`.
 */
module DataFile {

  import opened Options
  import opened JavaStrings

  /** What opening the file and calling `readLine()` repeatedly produce. */
  datatype TextFile =
    | Unopenable
      // the FileReader cannot be created: an IOException before any line
    | Opened(lines: seq<string>, ioErrorAt: Option<nat>)
      // the lines of the file; `readLine()` throws an IOException when asked
      // for line number `ioErrorAt` (counting from 0), if that is given

  /** `Double.valueOf` threw a NumberFormatException on `text`. It is not an
      IOException, so it is not caught and escapes readFile. */
  datatype ReadError = NumberFormat(text: string)

  /** The lines the loop sees before the end of the file or the IOException. */
  function LinesRead(file: TextFile): (ls: seq<string>)
    ensures file.Unopenable? ==> ls == []
    ensures file.Opened? ==> ls <= file.lines
    ensures file.Opened? && file.ioErrorAt.None? ==> ls == file.lines
    ensures file.Opened? && file.ioErrorAt.Some? ==>
      |ls| == if file.ioErrorAt.value < |file.lines| then file.ioErrorAt.value else |file.lines|
  {
    match file
    case Unopenable => []
    case Opened(lines, None) => lines
    case Opened(lines, Some(n)) => if n < |lines| then lines[..n] else lines
  }

  /** One turn of the loop: a line with two fields stores the parse of its
      second field under its first, any other line changes nothing. */
  function Step<V>(m: map<string, V>, line: string, parse: string -> Option<V>): (r: Result<map<string, V>, ReadError>)
    ensures r.Failure? <==> BadValue(line, parse)
    ensures r.Failure? ==> r.error == NumberFormat(FieldPair(line).value.1)
    ensures r.Success? ==>
      r.value.Keys == m.Keys + if FieldPair(line).Some? then {FieldPair(line).value.0} else {}
    ensures r.Success? && FieldPair(line).Some? ==>
      parse(FieldPair(line).value.1) == Some(r.value[FieldPair(line).value.0])
    ensures r.Success? ==> forall k :: k in m && !AcceptedAs(line, k) ==> r.value[k] == m[k]
  {
    match FieldPair(line)
    case None => Success(m)
    case Some((category, text)) =>
      match parse(text)
      case None => Failure(NumberFormat(text))
      case Some(v) => Success(m[category := v])
  }

  /** The map built from `ls`, or the first NumberFormatException, which
      always comes from a line of `ls` whose value does not parse. */
  function Fold<V>(ls: seq<string>, parse: string -> Option<V>): (r: Result<map<string, V>, ReadError>)
    ensures r.Failure? ==> ThrownBy(ls, parse, r.error)
    decreases |ls|
  {
    if ls == [] then Success(map[])
    else
      match Fold(ls[..|ls| - 1], parse)
      case Failure(e) => Failure(e)
      case Success(m) => Step(m, ls[|ls| - 1], parse)
  }

  /** `line` is accepted and files its value under `category`. */
  predicate AcceptedAs(line: string, category: string) {
    FieldPair(line).Some? && FieldPair(line).value.0 == category
  }

  /** `line` has two fields and its second one does not parse. */
  predicate BadValue<V>(line: string, parse: string -> Option<V>) {
    FieldPair(line).Some? && parse(FieldPair(line).value.1).None?
  }

  /** Some line of `ls` has two fields and the value text `e` carries, which
      does not parse. */
  predicate ThrownBy<V>(ls: seq<string>, parse: string -> Option<V>, e: ReadError) {
    exists i :: 0 <= i < |ls| && BadValue(ls[i], parse) && e == NumberFormat(FieldPair(ls[i]).value.1)
  }

  /** The first fields of the accepted lines. */
  ghost function AcceptedKeys(ls: seq<string>): set<string> {
    set i | 0 <= i < |ls| && FieldPair(ls[i]).Some? :: FieldPair(ls[i]).value.0
  }

  /** The loop of readFile. An IOException ends it and the map built so far is
      returned; a NumberFormatException escapes and no map is returned. */
  method ReadFile<V>(file: TextFile, parse: string -> Option<V>) returns (r: Result<map<string, V>, ReadError>)
    ensures r == Fold(LinesRead(file), parse)
  {
    var divisions: map<string, V> := map[];
    if file.Unopenable? {
      return Success(divisions);
    }
    var lines := file.lines;
    ghost var read := LinesRead(file);
    var i := 0;
    while i < |lines| && file.ioErrorAt != Some(i)
      invariant 0 <= i <= |read| && read[..i] == lines[..i]
      invariant Fold(read[..i], parse) == Success(divisions)
    {
      var parts := Split(lines[i]);
      ReadOneMore(file, i, divisions, parse);
      if |parts| == 2 {
        var value := parse(parts[1]);
        if value.None? {
          FailureSticks(read, i + 1, parse);
          return Failure(NumberFormat(parts[1]));
        }
        divisions := divisions[parts[0] := value.value];
      }
      i := i + 1;
    }
    assert read[..i] == read;
    return Success(divisions);
  }

  /** The loop may read line i, and doing so is one more Step. */
  lemma ReadOneMore<V>(file: TextFile, i: nat, m: map<string, V>, parse: string -> Option<V>)
    requires file.Opened? && i < |file.lines| && file.ioErrorAt != Some(i)
    requires i <= |LinesRead(file)| && LinesRead(file)[..i] == file.lines[..i]
    requires Fold(LinesRead(file)[..i], parse) == Success(m)
    ensures i + 1 <= |LinesRead(file)| && LinesRead(file)[..i + 1] == file.lines[..i + 1]
    ensures Fold(LinesRead(file)[..i + 1], parse) == Step(m, file.lines[i], parse)
    ensures |Split(file.lines[i])| != 2 ==> Step(m, file.lines[i], parse) == Success(m)
    ensures |Split(file.lines[i])| == 2 && parse(Split(file.lines[i])[1]).None? ==>
      Step(m, file.lines[i], parse) == Failure(NumberFormat(Split(file.lines[i])[1]))
    ensures |Split(file.lines[i])| == 2 && parse(Split(file.lines[i])[1]).Some? ==>
      Step(m, file.lines[i], parse) == Success(m[Split(file.lines[i])[0] := parse(Split(file.lines[i])[1]).value])
  {
    var read := LinesRead(file);
    assert i < |read| && read[i] == file.lines[i];
    assert read[..i + 1] == file.lines[..i + 1];
    FoldExtend(read, i, parse);
    StepCases(m, file.lines[i], parse);
  }

  /** Step in terms of the fields `split` returns. */
  lemma StepCases<V>(m: map<string, V>, line: string, parse: string -> Option<V>)
    ensures |Split(line)| != 2 ==> Step(m, line, parse) == Success(m)
    ensures |Split(line)| == 2 && parse(Split(line)[1]).None? ==>
      Step(m, line, parse) == Failure(NumberFormat(Split(line)[1]))
    ensures |Split(line)| == 2 && parse(Split(line)[1]).Some? ==>
      Step(m, line, parse) == Success(m[Split(line)[0] := parse(Split(line)[1]).value])
  {
  }

  /** Reading one more line is one more Step. */
  lemma FoldExtend<V>(ls: seq<string>, i: nat, parse: string -> Option<V>)
    requires i < |ls| && Fold(ls[..i], parse).Success?
    ensures Fold(ls[..i + 1], parse) == Step(Fold(ls[..i], parse).value, ls[i], parse)
  {
    assert ls[..i + 1][..i] == ls[..i];
  }

  /** Once a prefix has thrown, the whole read has thrown the same exception. */
  lemma {:induction false} FailureSticks<V>(ls: seq<string>, j: nat, parse: string -> Option<V>)
    requires j <= |ls|
    requires Fold(ls[..j], parse).Failure?
    ensures Fold(ls, parse) == Fold(ls[..j], parse)
    decreases |ls|
  {
    if j < |ls| {
      var init := ls[..|ls| - 1];
      assert init[..j] == ls[..j];
      FailureSticks(init, j, parse);
    } else {
      assert ls[..j] == ls;
    }
  }

  // ---------------------------------------------------------------------------
  // What the map holds

  /** The keys of the map are exactly the first fields of the accepted lines. */
  lemma {:induction false} FoldKeys<V>(ls: seq<string>, parse: string -> Option<V>)
    requires Fold(ls, parse).Success?
    ensures Fold(ls, parse).value.Keys == AcceptedKeys(ls)
    decreases |ls|
  {
    if ls != [] {
      var init := ls[..|ls| - 1];
      var line := ls[|ls| - 1];
      assert init + [line] == ls;
      FoldKeysSnoc(init, line, parse);
      FoldKeys(init, parse);
      AcceptedKeysSnoc(init, line);
    }
  }

  lemma FoldKeysSnoc<V>(init: seq<string>, line: string, parse: string -> Option<V>)
    requires Fold(init + [line], parse).Success?
    ensures Fold(init, parse).Success?
    ensures Fold(init + [line], parse).value.Keys ==
      Fold(init, parse).value.Keys + if FieldPair(line).Some? then {FieldPair(line).value.0} else {}
  {
    assert (init + [line])[..|init|] == init;
    FoldSnoc(init, line, parse);
  }

  lemma AcceptedKeysSnoc(init: seq<string>, line: string)
    ensures AcceptedKeys(init + [line]) ==
      AcceptedKeys(init) + if FieldPair(line).Some? then {FieldPair(line).value.0} else {}
  {
    var ls := init + [line];
    var extra: set<string> := if FieldPair(line).Some? then {FieldPair(line).value.0} else {};
    forall k | k in AcceptedKeys(ls) ensures k in AcceptedKeys(init) + extra {
      var i :| 0 <= i < |ls| && FieldPair(ls[i]).Some? && FieldPair(ls[i]).value.0 == k;
      if i < |init| {
        assert ls[i] == init[i];
      }
    }
    forall k | k in AcceptedKeys(init) + extra ensures k in AcceptedKeys(ls) {
      if k in AcceptedKeys(init) {
        var i :| 0 <= i < |init| && FieldPair(init[i]).Some? && FieldPair(init[i]).value.0 == k;
        assert ls[i] == init[i];
      } else {
        assert ls[|init|] == line;
      }
    }
  }

  /** The map has no more entries than the file has lines. */
  lemma {:induction false} FoldSize<V>(ls: seq<string>, parse: string -> Option<V>)
    requires Fold(ls, parse).Success?
    ensures |Fold(ls, parse).value| <= |ls|
    decreases |ls|
  {
    if ls != [] {
      var init := ls[..|ls| - 1];
      FoldSize(init, parse);
      var m := Fold(init, parse).value;
      match FieldPair(ls[|ls| - 1])
      case None =>
      case Some((category, text)) =>
        assert (m[category := parse(text).value]).Keys == m.Keys + {category};
    }
  }

  /** Last write wins: the value stored under a category is the parse of the
      second field of the last accepted line with that category. */
  lemma {:induction false} FoldLastWins<V>(ls: seq<string>, parse: string -> Option<V>, i: nat)
    requires Fold(ls, parse).Success?
    requires i < |ls| && FieldPair(ls[i]).Some?
    requires forall j :: i < j < |ls| ==> !AcceptedAs(ls[j], FieldPair(ls[i]).value.0)
    ensures FieldPair(ls[i]).value.0 in Fold(ls, parse).value
    ensures parse(FieldPair(ls[i]).value.1) == Some(Fold(ls, parse).value[FieldPair(ls[i]).value.0])
    decreases |ls|
  {
    var init := ls[..|ls| - 1];
    if i < |ls| - 1 {
      assert forall j :: 0 <= j < |init| ==> init[j] == ls[j];
      FoldLastWins(init, parse, i);
      assert !AcceptedAs(ls[|ls| - 1], FieldPair(ls[i]).value.0);
    }
  }

  /** readFile throws exactly when some read line has two fields and a second
      field that does not parse. */
  lemma {:induction false} FoldFails<V>(ls: seq<string>, parse: string -> Option<V>)
    ensures Fold(ls, parse).Failure? <==> exists i :: 0 <= i < |ls| && BadValue(ls[i], parse)
    decreases |ls|
  {
    if ls != [] {
      var init := ls[..|ls| - 1];
      FoldFails(init, parse);
      assert forall j :: 0 <= j < |init| ==> init[j] == ls[j];
      if BadValue(ls[|ls| - 1], parse) {
        assert exists i :: 0 <= i < |ls| && BadValue(ls[i], parse);
      }
    }
  }

  /** The exception carries the second field of the first bad line. */
  lemma {:induction false} FoldFirstError<V>(ls: seq<string>, parse: string -> Option<V>, i: nat)
    requires i < |ls| && BadValue(ls[i], parse)
    requires forall j :: 0 <= j < i ==> !BadValue(ls[j], parse)
    ensures Fold(ls, parse) == Failure(NumberFormat(FieldPair(ls[i]).value.1))
  {
    var pre := ls[..i + 1];
    assert pre[..i] == ls[..i];
    FoldFails(ls[..i], parse);
    FailureSticks(ls, i + 1, parse);
  }

  // ---------------------------------------------------------------------------
  // Scenarios

  /** Appending a line to what has been read is one more Step. */
  lemma FoldSnoc<V>(ls: seq<string>, line: string, parse: string -> Option<V>)
    requires Fold(ls, parse).Success?
    ensures Fold(ls + [line], parse) == Step(Fold(ls, parse).value, line, parse)
  {
    assert (ls + [line])[..|ls|] == ls;
  }

  /** A repeated category keeps its later value. */
  lemma RepeatedCategory<V>(parse: string -> Option<V>, ten: V, twenty: V, thirty: V)
    requires parse("10") == Some(ten) && parse("20") == Some(twenty) && parse("30") == Some(thirty)
    ensures Fold(["A,10", "B,20", "A,30"], parse) == Success(map["A" := thirty, "B" := twenty])
  {
    ScenarioFields();
    var m2 := map["A" := ten]["B" := twenty];
    RepeatedCategoryPrefix(parse, ten, twenty);
    assert Step(m2, "A,30", parse) == Success(m2["A" := thirty]);
    FoldSnoc(["A,10", "B,20"], "A,30", parse);
    assert ["A,10", "B,20"] + ["A,30"] == ["A,10", "B,20", "A,30"];
    assert m2["A" := thirty] == map["A" := thirty, "B" := twenty];
  }

  lemma RepeatedCategoryPrefix<V>(parse: string -> Option<V>, ten: V, twenty: V)
    requires parse("10") == Some(ten) && parse("20") == Some(twenty)
    ensures Fold(["A,10", "B,20"], parse) == Success(map["A" := ten]["B" := twenty])
  {
    ScenarioFields();
    var m1 := map["A" := ten];
    assert Step(map[], "A,10", parse) == Success(m1);
    assert Step(m1, "B,20", parse) == Success(m1["B" := twenty]);
    FoldSnoc([], "A,10", parse);
    assert [] + ["A,10"] == ["A,10"];
    FoldSnoc(["A,10"], "B,20", parse);
    assert ["A,10"] + ["B,20"] == ["A,10", "B,20"];
  }

  lemma ScenarioFields()
    ensures FieldPair("A,10") == Some(("A", "10"))
    ensures FieldPair("B,20") == Some(("B", "20"))
    ensures FieldPair("A,30") == Some(("A", "30"))
  {
    assert "A,10" == "A" + "," + "10" + Commas(0);
    assert "B,20" == "B" + "," + "20" + Commas(0);
    assert "A,30" == "A" + "," + "30" + Commas(0);
    TwoFieldsOf("A", "10", 0);
    TwoFieldsOf("B", "20", 0);
    TwoFieldsOf("A", "30", 0);
  }

  lemma MalformedFields()
    ensures FieldPair("A,10") == Some(("A", "10"))
    ensures FieldPair("badline") == None
    ensures FieldPair("B,") == None
  {
    assert "A,10" == "A" + "," + "10" + Commas(0);
    TwoFieldsOf("A", "10", 0);
    TrailingCommaDropped("B");
    assert "B" + "," == "B,";
    assert ',' !in "badline";
  }

  /** A line without a comma and a line whose second field is empty are both
      dropped, whatever `parse` would have made of them. */
  lemma MalformedLines<V>(parse: string -> Option<V>, ten: V)
    requires parse("10") == Some(ten)
    ensures Fold(["A,10", "badline", "B,"], parse) == Success(map["A" := ten])
  {
    MalformedFields();
    MalformedPrefix(parse, ten);
    assert Step(map["A" := ten], "B,", parse) == Success(map["A" := ten]);
    FoldSnoc(["A,10", "badline"], "B,", parse);
    assert ["A,10", "badline"] + ["B,"] == ["A,10", "badline", "B,"];
  }

  lemma MalformedPrefix<V>(parse: string -> Option<V>, ten: V)
    requires parse("10") == Some(ten)
    ensures Fold(["A,10", "badline"], parse) == Success(map["A" := ten])
  {
    MalformedFields();
    var m1 := map["A" := ten];
    assert Step(map[], "A,10", parse) == Success(m1);
    assert Step(m1, "badline", parse) == Success(m1);
    FoldSnoc([], "A,10", parse);
    assert [] + ["A,10"] == ["A,10"];
    FoldSnoc(["A,10"], "badline", parse);
    assert ["A,10"] + ["badline"] == ["A,10", "badline"];
  }
}

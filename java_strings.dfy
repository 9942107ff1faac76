/**
 * The two `java.lang.String` operations the chart component relies on:
 * `line.split(",")` (the single-character fast path of `String.split` with
 * limit zero) and `equalsIgnoreCase`.
 */
module JavaStrings {

  import opened Options

  /** The pieces between the commas of `s`, empty ones included:
      a string with n commas has n + 1 pieces. */
  function Pieces(s: string): (ps: seq<string>)
    ensures |ps| >= 1
    decreases |s|
  {
    if s == [] then [""]
    else
      var init := Pieces(s[..|s| - 1]);
      if s[|s| - 1] == ',' then init + [""]
      else init[..|init| - 1] + [init[|init| - 1] + [s[|s| - 1]]]
  }

  /** Removes the trailing empty strings of `ps`, as `split` with limit 0 does. */
  function DropTrailingEmpty(ps: seq<string>): (r: seq<string>)
    ensures r <= ps
    ensures r == [] || r[|r| - 1] != ""
    ensures forall i :: |r| <= i < |ps| ==> ps[i] == ""
  {
    if ps != [] && ps[|ps| - 1] == "" then DropTrailingEmpty(ps[..|ps| - 1]) else ps
  }

  /** `s.split(",")`: a string without a comma comes back whole (even when it is
      empty); otherwise it is cut at every comma and trailing empty fields are dropped. */
  function Split(s: string): (fields: seq<string>)
    ensures forall i :: 0 <= i < |fields| ==> ',' !in fields[i]
    ensures ',' !in s ==> fields == [s]
  {
    if ',' !in s then [s]
    else
      PiecesCommaFree(s);
      DropTrailingEmpty(Pieces(s))
  }

  /** The two fields of a line that `split` cuts into exactly two, otherwise None. */
  function FieldPair(line: string): (r: Option<(string, string)>)
    ensures r.Some? <==> |Split(line)| == 2
    ensures r.Some? ==> ',' !in r.value.0 && ',' !in r.value.1 && r.value.1 != ""
  {
    var fields := Split(line);
    if |fields| == 2 then Some((fields[0], fields[1])) else None
  }

  // ---------------------------------------------------------------------------
  // Reference definitions: joining fields back together

  /** Joins pieces with a comma between each two: the inverse of Pieces. */
  function Join(ps: seq<string>): string
    requires |ps| >= 1
  {
    if |ps| == 1 then ps[0] else Join(ps[..|ps| - 1]) + "," + ps[|ps| - 1]
  }

  /** k commas. */
  function Commas(k: nat): string {
    if k == 0 then "" else Commas(k - 1) + ","
  }

  /** k empty strings. */
  function Empties(k: nat): seq<string> {
    if k == 0 then [] else Empties(k - 1) + [""]
  }

  // ---------------------------------------------------------------------------
  // Pieces and Join are inverse to each other

  /** No piece contains a comma. */
  lemma {:induction false} PiecesCommaFree(s: string)
    ensures forall i :: 0 <= i < |Pieces(s)| ==> ',' !in Pieces(s)[i]
    decreases |s|
  {
    if s != [] {
      var s' := s[..|s| - 1];
      PiecesCommaFree(s');
    }
  }

  /** Pieces of a string extended by one character. */
  lemma PiecesSnoc(s: string, c: char)
    ensures Pieces(s + [c]) ==
      if c == ',' then Pieces(s) + [""]
      else Pieces(s)[..|Pieces(s)| - 1] + [Pieces(s)[|Pieces(s)| - 1] + [c]]
  {
    assert (s + [c])[..|s|] == s;
  }

  lemma JoinSnoc(ps: seq<string>, q: string)
    requires |ps| >= 1
    ensures Join(ps + [q]) == Join(ps) + "," + q
  {
    assert (ps + [q])[..|ps|] == ps;
  }

  /** Extending the last piece by a character extends the joined string by it. */
  lemma JoinExtendLast(ps: seq<string>, c: char)
    requires |ps| >= 1
    ensures Join(ps[..|ps| - 1] + [ps[|ps| - 1] + [c]]) == Join(ps) + [c]
  {
    var init := ps[..|ps| - 1];
    var last := ps[|ps| - 1];
    var qs := init + [last + [c]];
    if |ps| == 1 {
      assert qs == [last + [c]];
    } else {
      assert qs[..|qs| - 1] == init && qs[|qs| - 1] == last + [c];
      assert Join(qs) == Join(init) + "," + (last + [c]);
      assert Join(ps) == Join(init) + "," + last;
    }
  }

  lemma {:induction false} JoinPieces(s: string)
    ensures Join(Pieces(s)) == s
    decreases |s|
  {
    if s != [] {
      var s' := s[..|s| - 1];
      var c := s[|s| - 1];
      assert s == s' + [c];
      JoinPieces(s');
      PiecesSnoc(s', c);
      if c == ',' {
        JoinSnoc(Pieces(s'), "");
      } else {
        JoinExtendLast(Pieces(s'), c);
      }
    }
  }

  /** A comma-free string is a single piece. */
  lemma {:induction false} PiecesOfField(y: string)
    requires ',' !in y
    ensures Pieces(y) == [y]
    decreases |y|
  {
    if y != [] {
      var y' := y[..|y| - 1];
      var c := y[|y| - 1];
      assert y == y' + [c];
      assert ',' !in y' by { assert forall i :: 0 <= i < |y'| ==> y'[i] == y[i]; }
      PiecesOfField(y');
      PiecesSnoc(y', c);
    }
  }

  /** Appending a comma and a comma-free field appends one piece. */
  lemma {:induction false} PiecesAppendField(x: string, y: string)
    requires ',' !in y
    ensures Pieces(x + "," + y) == Pieces(x) + [y]
    decreases |y|
  {
    if y == [] {
      assert x + "," + y == x + [','];
      PiecesSnoc(x, ',');
    } else {
      var y' := y[..|y| - 1];
      var c := y[|y| - 1];
      assert y == y' + [c];
      assert ',' !in y' by { assert forall i :: 0 <= i < |y'| ==> y'[i] == y[i]; }
      PiecesAppendField(x, y');
      assert x + "," + y == (x + "," + y') + [c];
      PiecesSnoc(x + "," + y', c);
      var init := Pieces(x) + [y'];
      assert init[..|init| - 1] == Pieces(x);
    }
  }

  /** Comma-free pieces come back from Pieces unchanged once joined. */
  lemma {:induction false} PiecesJoin(ps: seq<string>)
    requires |ps| >= 1
    requires forall i :: 0 <= i < |ps| ==> ',' !in ps[i]
    ensures Pieces(Join(ps)) == ps
    decreases |ps|
  {
    if |ps| == 1 {
      PiecesOfField(ps[0]);
    } else {
      var init := ps[..|ps| - 1];
      PiecesJoin(init);
      PiecesAppendField(Join(init), ps[|ps| - 1]);
      assert init + [ps[|ps| - 1]] == ps;
    }
  }

  lemma {:induction false} JoinEmpties(ps: seq<string>, k: nat)
    requires |ps| >= 1
    ensures Join(ps + Empties(k)) == Join(ps) + Commas(k)
  {
    if k > 0 {
      JoinEmpties(ps, k - 1);
      assert ps + Empties(k) == (ps + Empties(k - 1)) + [""];
      JoinSnoc(ps + Empties(k - 1), "");
      assert (Join(ps) + Commas(k - 1)) + "," + "" == Join(ps) + (Commas(k - 1) + ",");
    } else {
      assert ps + Empties(0) == ps;
    }
  }

  lemma DropSnocEmpty(qs: seq<string>)
    ensures DropTrailingEmpty(qs + [""]) == DropTrailingEmpty(qs)
  {
    assert (qs + [""])[..|qs|] == qs;
  }

  lemma {:induction false} DropEmpties(ps: seq<string>, k: nat)
    requires ps == [] || ps[|ps| - 1] != ""
    ensures DropTrailingEmpty(ps + Empties(k)) == ps
  {
    if k > 0 {
      DropEmpties(ps, k - 1);
      assert ps + Empties(k) == (ps + Empties(k - 1)) + [""];
      DropSnocEmpty(ps + Empties(k - 1));
    } else {
      assert ps + Empties(0) == ps;
    }
  }

  // ---------------------------------------------------------------------------
  // Which lines the reader accepts

  /** A line that `split` cuts into exactly two fields is the first field, a comma,
      the second (non-empty) field and then nothing but commas. */
  lemma {:induction false} TwoFieldsShape(s: string)
    requires |Split(s)| == 2
    ensures s == Split(s)[0] + "," + Split(s)[1] + Commas(|Pieces(s)| - 2)
    ensures Split(s)[1] != ""
  {
    var ps := Pieces(s);
    var fields := DropTrailingEmpty(ps);
    assert ',' in s;
    assert Split(s) == fields;
    var k := |ps| - 2;
    assert ps == fields + Empties(k) by {
      EmptiesAt(k);
      assert forall i :: 0 <= i < |ps| ==> ps[i] == (fields + Empties(k))[i];
    }
    JoinPieces(s);
    JoinEmpties(fields, k);
    assert fields[..1] == [fields[0]];
  }

  lemma {:induction false} EmptiesAt(k: nat)
    ensures |Empties(k)| == k
    ensures forall i :: 0 <= i < k ==> Empties(k)[i] == ""
  {
    if k > 0 { EmptiesAt(k - 1); }
  }

  /** Conversely every such line is cut into exactly those two fields. */
  lemma {:induction false} TwoFieldsOf(a: string, b: string, k: nat)
    requires ',' !in a && ',' !in b && b != ""
    ensures Split(a + "," + b + Commas(k)) == [a, b]
  {
    var s := a + "," + b + Commas(k);
    var ps := [a, b] + Empties(k);
    EmptiesAt(k);
    JoinEmpties([a, b], k);
    assert [a, b][..1] == [a];
    assert Join(ps) == s;
    PiecesJoin(ps);
    assert s[|a|] == ',';
    DropEmpties([a, b], k);
  }

  /** A line ending in its first comma yields at most one field and adds nothing. */
  lemma {:induction false} TrailingCommaDropped(a: string)
    requires ',' !in a
    ensures |Split(a + ",")| <= 1
    ensures FieldPair(a + ",") == None
  {
    PiecesOfField(a);
    PiecesAppendField(a, "");
    assert a + "," + "" == a + ",";
    assert (a + ",")[|a|] == ',';
  }

  // ---------------------------------------------------------------------------
  // equalsIgnoreCase

  function UpperAscii(c: char): char {
    if 'a' <= c <= 'z' then (c as int - 32) as char else c
  }

  function LowerAscii(c: char): char {
    if 'A' <= c <= 'Z' then (c as int + 32) as char else c
  }

  /** Java's character test in `equalsIgnoreCase`: equal, equal in upper case,
      or equal in the lower case of the upper case. */
  predicate CharEqualsIgnoreCase(c: char, d: char) {
    c == d || UpperAscii(c) == UpperAscii(d) || LowerAscii(UpperAscii(c)) == LowerAscii(UpperAscii(d))
  }

  /** `String.equalsIgnoreCase`: same length and every pair of characters
      matches; over ASCII this is equality after upper-casing both strings. */
  function EqualsIgnoreCase(a: string, b: string): (eq: bool)
    ensures eq <==> UpperCase(a) == UpperCase(b)
  {
    if |a| == |b| then
      CaseFoldsAll(a, b);
      forall i :: 0 <= i < |a| ==> CharEqualsIgnoreCase(a[i], b[i])
    else
      false
  }

  lemma CaseFoldsAll(a: string, b: string)
    requires |a| == |b|
    ensures (forall i :: 0 <= i < |a| ==> CharEqualsIgnoreCase(a[i], b[i])) <==> UpperCase(a) == UpperCase(b)
  {
    forall i | 0 <= i < |a| ensures CharEqualsIgnoreCase(a[i], b[i]) <==> UpperAscii(a[i]) == UpperAscii(b[i]) {
      CharFolds(a[i], b[i]);
    }
    if forall i :: 0 <= i < |a| ==> CharEqualsIgnoreCase(a[i], b[i]) {
      assert forall i :: 0 <= i < |a| ==> UpperCase(a)[i] == UpperCase(b)[i];
    }
  }

  /** The lower-case comparison of Java's character test adds nothing over ASCII. */
  lemma CharFolds(c: char, d: char)
    ensures CharEqualsIgnoreCase(c, d) <==> UpperAscii(c) == UpperAscii(d)
  {
  }

  function UpperCase(s: string): (u: string)
    ensures |u| == |s|
    ensures forall i :: 0 <= i < |s| ==> u[i] == UpperAscii(s[i])
  {
    if s == [] then [] else [UpperAscii(s[0])] + UpperCase(s[1..])
  }

  predicate IsUpperWord(t: string) {
    forall i :: 0 <= i < |t| ==> 'A' <= t[i] <= 'Z'
  }

  /** Against an upper-case word, `equalsIgnoreCase` is equality after upper-casing. */
  lemma EqualsIgnoreCaseUpper(s: string, t: string)
    requires IsUpperWord(t)
    ensures EqualsIgnoreCase(s, t) <==> UpperCase(s) == t
  {
    if EqualsIgnoreCase(s, t) {
      forall i | 0 <= i < |s| ensures UpperCase(s)[i] == t[i] {
        CharAgainstUpper(s[i], t[i]);
      }
    }
    if UpperCase(s) == t {
      forall i | 0 <= i < |s| ensures CharEqualsIgnoreCase(s[i], t[i]) {
        assert UpperAscii(s[i]) == t[i];
      }
    }
  }

  lemma CharAgainstUpper(c: char, d: char)
    requires 'A' <= d <= 'Z'
    ensures CharEqualsIgnoreCase(c, d) <==> UpperAscii(c) == d
  {
  }
}

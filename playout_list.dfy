/** `GeneratePlayoutList`: the loop over the rows of one source file that
    keeps every row that parses, skips every row that does not, and reports
    each skipped row with the value of a counter that only advances on
    success. The loop does not depend on how a row is parsed, so it and its
    properties are stated for any row parser `parse`; the converter's own is
    `RowParse(offset)`. */
module PlayoutList {
  import opened Wrappers
  import opened Playouts
  import opened RowParser

  /** The records of `rows` that parse, in row order. */
  function Converted(rows: seq<Row>, parse: Row -> Option<Playout>): (records: seq<Playout>)
    ensures |records| <= |rows|
    decreases |rows|
  {
    if rows == [] then []
    else
      var before := Converted(rows[..|rows| - 1], parse);
      match parse(rows[|rows| - 1])
      case Some(p) => before + [p]
      case None => before
  }

  /** The row numbers reported for the rows that fail, in row order: one
      more than the number of records produced before the failing row. */
  function Rejections(rows: seq<Row>, parse: Row -> Option<Playout>): (reported: seq<nat>)
    ensures |Converted(rows, parse)| + |reported| == |rows|
    decreases |rows|
  {
    if rows == [] then []
    else
      var init := rows[..|rows| - 1];
      if parse(rows[|rows| - 1]).Some? then Rejections(init, parse)
      else Rejections(init, parse) + [1 + |Converted(init, parse)|]
  }

  /** The loop of `GeneratePlayoutList`: `parse` is the body of its `try`
      block (`RowParse(offset)` for a converter constructed with `offset`),
      `playouts` the list it returns and `reported` the row numbers of its
      "Unable to parse row" messages. */
  method GeneratePlayoutList(rows: seq<Row>, parse: Row -> Option<Playout>)
    returns (playouts: seq<Playout>, reported: seq<nat>)
    ensures playouts == Converted(rows, parse)
    ensures reported == Rejections(rows, parse)
  {
    playouts, reported := [], [];
    var counter := 1;
    var i := 0;
    while i < |rows|
      invariant 0 <= i <= |rows|
      invariant playouts == Converted(rows[..i], parse)
      invariant reported == Rejections(rows[..i], parse)
      invariant counter == 1 + |playouts|
    {
      var record := parse(rows[i]);
      NextRow(rows, i, parse);
      i := i + 1;
      if record.None? {
        reported := reported + [counter];
        continue;
      }
      playouts := playouts + [record.value];
      counter := counter + 1;
    }
    assert rows[..|rows|] == rows;
  }

  /** One more row: its record is appended, or its report. */
  lemma NextRow(rows: seq<Row>, i: nat, parse: Row -> Option<Playout>)
    requires i < |rows|
    ensures parse(rows[i]).Some? ==>
              && Converted(rows[..i + 1], parse) == Converted(rows[..i], parse) + [parse(rows[i]).value]
              && Rejections(rows[..i + 1], parse) == Rejections(rows[..i], parse)
    ensures parse(rows[i]).None? ==>
              && Converted(rows[..i + 1], parse) == Converted(rows[..i], parse)
              && Rejections(rows[..i + 1], parse) == Rejections(rows[..i], parse) + [1 + |Converted(rows[..i], parse)|]
  {
    assert rows[..i + 1][..i] == rows[..i];
  }

  // ---------------------------------------------------------------------
  // Properties of the specification

  /** One row on its own converts to its record, or to nothing. */
  lemma ConvertedSingle(row: Row, parse: Row -> Option<Playout>)
    ensures Converted([row], parse) == match parse(row) case Some(p) => [p] case None => []
  {
    assert [row][..0] == [];
  }

  /** Converting two runs of rows one after the other is converting their
      concatenation: a failing row never affects the rows after it, and the
      records keep the order of their rows. */
  lemma {:induction false} ConvertedAppend(a: seq<Row>, b: seq<Row>, parse: Row -> Option<Playout>)
    ensures Converted(a + b, parse) == Converted(a, parse) + Converted(b, parse)
    decreases |b|
  {
    if b == [] {
      assert a + b == a;
    } else {
      var b' := b[..|b| - 1];
      ConvertedAppend(a, b', parse);
      assert (a + b)[..|a + b| - 1] == a + b';
      assert (a + b)[|a + b| - 1] == b[|b| - 1];
    }
  }

  /** A rejected row between two runs contributes nothing. */
  lemma SkippedRow(a: seq<Row>, bad: Row, b: seq<Row>, parse: Row -> Option<Playout>)
    requires parse(bad).None?
    ensures Converted(a + [bad] + b, parse) == Converted(a, parse) + Converted(b, parse)
  {
    ConvertedAppend(a + [bad], b, parse);
    ConvertedAppend(a, [bad], parse);
    ConvertedSingle(bad, parse);
  }

  /** The records of a prefix of the rows are a prefix of the records. */
  lemma {:induction false} ConvertedPrefix(rows: seq<Row>, k: nat, parse: Row -> Option<Playout>)
    requires k <= |rows|
    ensures Converted(rows[..k], parse) <= Converted(rows, parse)
    decreases |rows| - k
  {
    if k < |rows| {
      var init := rows[..|rows| - 1];
      ConvertedPrefix(init, k, parse);
      assert init[..k] == rows[..k];
    } else {
      assert rows[..k] == rows;
    }
  }

  /** A row that parses has its record in the list, right after the records
      of the rows before it. */
  lemma ConvertedAt(rows: seq<Row>, k: nat, parse: Row -> Option<Playout>)
    requires k < |rows| && parse(rows[k]).Some?
    ensures var n := |Converted(rows[..k], parse)|;
      n < |Converted(rows, parse)| && Converted(rows, parse)[n] == parse(rows[k]).value
  {
    ConvertedPrefix(rows, k + 1, parse);
    assert rows[..k + 1][..k] == rows[..k];
  }

  /** Every record of the list is the record of some row. */
  lemma {:induction false} ConvertedFromRows(rows: seq<Row>, parse: Row -> Option<Playout>, j: nat)
    requires j < |Converted(rows, parse)|
    ensures exists i :: 0 <= i < |rows| && parse(rows[i]) == Some(Converted(rows, parse)[j])
    decreases |rows|
  {
    var init := rows[..|rows| - 1];
    var last := |rows| - 1;
    if j < |Converted(init, parse)| {
      ConvertedFromRows(init, parse, j);
      var i :| 0 <= i < |init| && parse(init[i]) == Some(Converted(init, parse)[j]);
      assert rows[i] == init[i];
    } else {
      assert parse(rows[last]) == Some(Converted(rows, parse)[j]);
    }
  }

  /** The reports for a prefix of the rows are a prefix of the reports. */
  lemma {:induction false} RejectionsPrefix(rows: seq<Row>, k: nat, parse: Row -> Option<Playout>)
    requires k <= |rows|
    ensures Rejections(rows[..k], parse) <= Rejections(rows, parse)
    decreases |rows| - k
  {
    if k < |rows| {
      var init := rows[..|rows| - 1];
      RejectionsPrefix(init, k, parse);
      assert init[..k] == rows[..k];
    } else {
      assert rows[..k] == rows;
    }
  }

  /** The number reported for a failing row is one more than the number of
      records produced before it, not the row's own position. */
  lemma ReportedNumber(rows: seq<Row>, k: nat, parse: Row -> Option<Playout>)
    requires k < |rows| && parse(rows[k]).None?
    ensures var n := |Rejections(rows[..k], parse)|;
      n < |Rejections(rows, parse)| && Rejections(rows, parse)[n] == 1 + |Converted(rows[..k], parse)|
  {
    RejectionsPrefix(rows, k + 1, parse);
    assert rows[..k + 1][..k] == rows[..k];
  }

  // ---------------------------------------------------------------------
  // The row numbers the diagnostic evidently means

  /** The 1-based positions of the rows that fail, in row order: the number a
      reader of "Unable to parse row N" expects. */
  function FailedRowNumbers(rows: seq<Row>, parse: Row -> Option<Playout>): (numbers: seq<nat>)
    ensures |Converted(rows, parse)| + |numbers| == |rows|
    ensures forall i :: 0 <= i < |numbers| ==> 1 <= numbers[i] <= |rows|
    decreases |rows|
  {
    if rows == [] then []
    else
      var init := rows[..|rows| - 1];
      if parse(rows[|rows| - 1]).Some? then FailedRowNumbers(init, parse)
      else FailedRowNumbers(init, parse) + [|rows|]
  }

  /** A number is listed exactly when the row at that position fails. */
  lemma {:induction false} FailedRowNumbersIff(rows: seq<Row>, parse: Row -> Option<Playout>, n: int)
    ensures n in FailedRowNumbers(rows, parse) <==> 1 <= n <= |rows| && parse(rows[n - 1]).None?
    decreases |rows|
  {
    if rows != [] {
      var init := rows[..|rows| - 1];
      FailedRowNumbersIff(init, parse, n);
      if 1 <= n < |rows| {
        assert init[n - 1] == rows[n - 1];
      }
    }
  }

  /** Strictly increasing. */
  predicate Increasing(numbers: seq<nat>) {
    forall i, j :: 0 <= i < j < |numbers| ==> numbers[i] < numbers[j]
  }

  /** Appending a number above every element keeps a sequence increasing. */
  lemma IncreasingAppend(numbers: seq<nat>, n: nat)
    requires Increasing(numbers)
    requires forall i :: 0 <= i < |numbers| ==> numbers[i] < n
    ensures Increasing(numbers + [n])
  {
    var extended := numbers + [n];
    forall i, j | 0 <= i < j < |extended|
      ensures extended[i] < extended[j]
    {
      if j < |numbers| {
        assert extended[j] == numbers[j];
      }
    }
  }

  /** The numbers are listed in increasing order. */
  lemma {:induction false} FailedRowNumbersIncrease(rows: seq<Row>, parse: Row -> Option<Playout>)
    ensures Increasing(FailedRowNumbers(rows, parse))
    decreases |rows|
  {
    if rows != [] {
      var init := rows[..|rows| - 1];
      FailedRowNumbersIncrease(init, parse);
      var before := FailedRowNumbers(init, parse);
      if FailedRowNumbers(rows, parse) != before {
        IncreasingAppend(before, |rows|);
      }
    }
  }

  /** The number the code reports for the `i`-th failing row is its position
      less the `i` failing rows before it: the two agree only up to the first
      failure. */
  lemma {:induction false} ReportedLagsPosition(rows: seq<Row>, parse: Row -> Option<Playout>)
    ensures |Rejections(rows, parse)| == |FailedRowNumbers(rows, parse)|
    ensures var reported := Rejections(rows, parse);
      forall i :: 0 <= i < |reported| ==> reported[i] == FailedRowNumbers(rows, parse)[i] - i
    decreases |rows|
  {
    if rows != [] {
      ReportedLagsPosition(rows[..|rows| - 1], parse);
    }
  }

  /** Two failing rows before the first good one are both reported as row 1,
      and a failure after one good row as row 2. */
  lemma ReportedNumberExample(good: Row, bad: Row, parse: Row -> Option<Playout>)
    requires parse(good).Some? && parse(bad).None?
    ensures Rejections([bad, bad, good, bad], parse) == [1, 1, 2]
  {
    assert [bad][..0] == [];
    assert Converted([bad], parse) == [] && Rejections([bad], parse) == [1];
    assert [bad, bad][..1] == [bad];
    assert Converted([bad, bad], parse) == [] && Rejections([bad, bad], parse) == [1, 1];
    assert [bad, bad, good][..2] == [bad, bad];
    assert |Converted([bad, bad, good], parse)| == 1 && Rejections([bad, bad, good], parse) == [1, 1];
    assert [bad, bad, good, bad][..3] == [bad, bad, good];
  }

  /** In the same file the rows that failed are rows 1, 2 and 4. */
  lemma FailedRowNumbersExample(good: Row, bad: Row, parse: Row -> Option<Playout>)
    requires parse(good).Some? && parse(bad).None?
    ensures FailedRowNumbers([bad, bad, good, bad], parse) == [1, 2, 4]
  {
    assert [bad][..0] == [];
    assert FailedRowNumbers([bad], parse) == [1];
    assert [bad, bad][..1] == [bad];
    assert FailedRowNumbers([bad, bad], parse) == [1, 2];
    assert [bad, bad, good][..2] == [bad, bad];
    assert FailedRowNumbers([bad, bad, good], parse) == [1, 2];
    assert [bad, bad, good, bad][..3] == [bad, bad, good];
  }
}

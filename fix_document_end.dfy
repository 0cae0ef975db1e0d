/**
 * fixdocuments_document_end: one UPDATE moves every end that lies beyond
 * FUTURE and is not datetime.max to datetime.max, and the command reports
 * how many rows it changed.
 */
module FixDocumentEnd {
  import opened Table
  import opened Diagnostics

  /** document_end__gt=FUTURE, excluding document_end=datetime.max. */
  const Stray: Filter := EndAfterExcept(FUTURE, MAX)

  /** The table after the update. */
  function Normalized(rows: seq<Row>): seq<Row> {
    WithEnd(rows, Stray, MAX)
  }

  /** The number of positions at which two tables of equal length differ. */
  function Changed(a: seq<Row>, b: seq<Row>): nat
    requires |a| == |b|
  {
    if a == [] then 0
    else Changed(a[..|a| - 1], b[..|b| - 1]) + (if a[|a| - 1] != b[|b| - 1] then 1 else 0)
  }

  /** fix_model. */
  method FixModel(store: Store, log: Log) returns (c: nat)
    requires store.Valid()
    modifies store, log
    ensures store.Valid()
    ensures store.rows == Normalized(old(store.rows))
    ensures c == Changed(old(store.rows), store.rows)
    ensures log.lines == old(log.lines) + [Line(Info, FixingModel), if c > 0 then Line(Warning, EndsFixed(c)) else Line(Info, NoEndsToFix)]
  {
    log.Info(FixingModel);
    ghost var before := store.rows;
    c := store.SetEnd(Stray, MAX);
    NormalizedCount(before);
    if c > 0 {
      log.Warning(EndsFixed(c));
    } else {
      log.Info(NoEndsToFix);
    }
  }

  /** Row by row: an end beyond FUTURE other than datetime.max becomes
      datetime.max; every other row, and every other field, is unchanged. */
  lemma NormalizedRows(rows: seq<Row>)
    ensures |Normalized(rows)| == |rows|
    ensures forall i :: 0 <= i < |rows| ==>
              Normalized(rows)[i].(end := rows[i].end) == rows[i] &&
              (FUTURE < rows[i].end && rows[i].end != MAX ==> Normalized(rows)[i].end == MAX) &&
              (rows[i].end <= FUTURE || rows[i].end == MAX ==> Normalized(rows)[i] == rows[i])
  {
  }

  /** The count the update reports is the number of rows it changed. */
  lemma {:induction false} NormalizedCount(rows: seq<Row>)
    ensures Changed(rows, Normalized(rows)) == CountMatching(rows, Stray)
  {
    if rows != [] {
      var front := rows[..|rows| - 1];
      NormalizedCount(front);
      assert Normalized(rows)[..|rows| - 1] == Normalized(front);
    }
  }

  /** Afterwards every end is at most FUTURE or exactly datetime.max, so a
      second run changes nothing and reports 0. */
  lemma NormalizedTwice(rows: seq<Row>)
    ensures forall r :: r in Normalized(rows) ==> r.end <= FUTURE || r.end == MAX
    ensures CountMatching(Normalized(rows), Stray) == 0
    ensures Normalized(Normalized(rows)) == Normalized(rows)
  {
    var n := Normalized(rows);
    CountIsWhere(n, Stray);
  }

  /** Afterwards no end lies beyond datetime.max: the repair clears what the
      checker counts as "ending after datetime.max". */
  lemma NormalizedWithinMax(rows: seq<Row>)
    ensures CountMatching(Normalized(rows), EndAfter(MAX)) == 0
  {
    CountIsWhere(Normalized(rows), EndAfter(MAX));
  }
}

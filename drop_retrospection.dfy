/**
 * drop_retrospection_data: delete every version that ended before FUTURE,
 * then move the start of every remaining version to datetime.min, and
 * report how many rows the table lost.
 */
module DropRetrospection {
  import opened Table
  import opened Diagnostics

  /** The table after the delete and the update. */
  function Dropped(rows: seq<Row>): seq<Row> {
    WithStart(Without(rows, EndBefore(FUTURE)), MIN)
  }

  /** fix_model. The count is the number of rows before minus the number
      the update touched. */
  method FixModel(store: Store, log: Log) returns (c: nat)
    requires store.Valid()
    modifies store, log
    ensures store.Valid()
    ensures store.rows == Dropped(old(store.rows))
    ensures c == |old(store.rows)| - |store.rows|
    ensures log.lines == old(log.lines) +
              [Line(Info, FixingModel), Line(Info, RecordsTotal(|old(store.rows)|)),
               if c != 0 then Line(Warning, DocumentsRemoved(c)) else Line(Info, NoDocumentsRemoved)]
  {
    log.Info(FixingModel);
    var oc := |store.rows|;
    log.Info(RecordsTotal(oc));
    WithoutMembers(store.rows, EndBefore(FUTURE));
    store.Delete(EndBefore(FUTURE));
    var n := store.SetStart(MIN);
    c := oc - n;
    if c != 0 {
      log.Warning(DocumentsRemoved(c));
    } else {
      log.Info(NoDocumentsRemoved);
    }
  }

  /** The survivors are the versions that had not ended before FUTURE, with
      start datetime.min and id, document, end and payload unchanged; as
      many rows go as ended before FUTURE. */
  lemma DroppedRows(rows: seq<Row>)
    ensures forall x :: x in Dropped(rows) <==> exists y :: y in rows && y.end >= FUTURE && x == y.(start := MIN)
    ensures |rows| - |Dropped(rows)| == CountMatching(rows, EndBefore(FUTURE))
    ensures forall x :: x in Dropped(rows) ==> x.start == MIN && x.end >= FUTURE
  {
    var w := Without(rows, EndBefore(FUTURE));
    WithoutMembers(rows, EndBefore(FUTURE));
    var d := Dropped(rows);
    forall x | x in d ensures exists y :: y in rows && y.end >= FUTURE && x == y.(start := MIN) {
      var i :| 0 <= i < |d| && d[i] == x;
      assert w[i] in w;
    }
    forall y | y in rows && y.end >= FUTURE ensures y.(start := MIN) in d {
      var i :| 0 <= i < |w| && w[i] == y;
      assert d[i] == y.(start := MIN);
    }
  }

  /** A second run deletes nothing and leaves the table as it is. */
  lemma DroppedTwice(rows: seq<Row>)
    ensures CountMatching(Dropped(rows), EndBefore(FUTURE)) == 0
    ensures Dropped(Dropped(rows)) == Dropped(rows)
  {
    var d := Dropped(rows);
    DroppedRows(rows);
    CountIsWhere(d, EndBefore(FUTURE));
    WithoutNone(d, EndBefore(FUTURE));
  }
}

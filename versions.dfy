/**
 * The version store of documents/models.py: an in-memory document (the
 * fields that Document.document_save and friends read and assign on
 * `self`), the effect of each operation on the table as a function of the
 * old table, and the methods that perform the operations step by step.
 */
module Versions {
  import opened Wrappers
  import opened Table

  /** The fields of an in-memory document that the store reads and writes.
      `id` and `docId` of 0 stand for None / the default 0; `start` and
      `end` are None until the document was saved or loaded. */
  datatype Copy = Copy(id: nat, docId: nat, start: Option<int>, end: Option<int>, payload: int)

  /** What the operations raise. */
  datatype Error =
    | ChangedAlready           // Document.ChangedAlready: the conditional update missed
    | AssertionFailed          // one of the `assert` statements
    | NotComparable            // comparing an unset document_end with FUTURE (TypeError)
    | DoesNotExist             // Model.DoesNotExist from get() or latest()
    | MultipleObjectsReturned  // get() matched more than one row
    | Http404                  // get_object_or_404 found nothing

  datatype Outcome = Pass | Fail(error: Error)

  datatype Result<T> = Found(value: T) | Failed(error: Error)

  /** The table and the in-memory document after an operation, and how it ended. */
  datatype Effect = Effect(rows: seq<Row>, copy: Copy, outcome: Outcome)

  /** A row keeps its identity, start and payload; only its end may differ. */
  predicate SameVersion(a: Row, b: Row) {
    a.id == b.id && a.docId == b.docId && a.start == b.start && a.payload == b.payload
  }

  /** Row by row, only ends differ. */
  predicate SameVersions(a: seq<Row>, b: seq<Row>) {
    |a| == |b| && forall i :: 0 <= i < |a| ==> SameVersion(a[i], b[i])
  }

  /** No version of `docId` reaches past `t`: every start is at most `t`
      and every closed version has ended by `t`. */
  predicate NotBefore(rows: seq<Row>, docId: nat, t: int) {
    forall r :: r in rows && r.docId == docId ==> r.start <= t && (!IsOpen(r) ==> r.end <= t)
  }

  /** The update keeps ids, so the next id is the same before and after it. */
  lemma MaxIdOfClosed(rows: seq<Row>, sel: Selector, t: int)
    ensures MaxId(CloseSelected(rows, sel, t)) == MaxId(rows)
  {
    MaxIdOfSameIds(CloseSelected(rows, sel, t), rows);
  }

  // ---------------------------------------------------------------- save

  /** Document.document_save: the new table and document as a function of
      the old ones. `clock` is the wall clock (datetime.now()). */
  function SaveSpec(rows: seq<Row>, c: Copy, documentStart: Option<int>, clock: int): (e: Effect)
    ensures c.start.Some? && documentStart.Some? && c.start.value > documentStart.value ==>
              e == Effect(rows, c, Fail(AssertionFailed))
    ensures e.outcome == Fail(AssertionFailed) <==>
              c.start.Some? && documentStart.Some? && c.start.value > documentStart.value
    ensures e.outcome == Fail(ChangedAlready) <==>
              c.docId != 0 && c.id != 0 && !(c.start.Some? && documentStart.Some? && c.start.value > documentStart.value) &&
              CountSelected(rows, OpenWithId(c.id, c.docId)) != 1
    ensures e.outcome == Fail(ChangedAlready) ==>
              e.rows == CloseSelected(rows, OpenWithId(c.id, c.docId), documentStart.GetOr(clock))
    ensures e.outcome == Pass <==>
              !(c.start.Some? && documentStart.Some? && c.start.value > documentStart.value) &&
              !(c.docId != 0 && c.id != 0 && CountSelected(rows, OpenWithId(c.id, c.docId)) != 1)
  {
    if c.start.Some? && documentStart.Some? && !(c.start.value <= documentStart.value) then
      Effect(rows, c, Fail(AssertionFailed))
    else
      var t := documentStart.GetOr(clock);
      if c.docId != 0 && c.id != 0 && CountSelected(rows, OpenWithId(c.id, c.docId)) != 1 then
        Effect(CloseSelected(rows, OpenWithId(c.id, c.docId), t), Stamp(c, t), Fail(ChangedAlready))
      else
        Inserted(SaveUpdate(rows, c, t), Stamp(c, t), t)
  }

  /** The update document_save makes before inserting: by id and document_id
      when it has both, by document_id alone when it has only that, none for
      a new document. */
  function SaveUpdate(rows: seq<Row>, c: Copy, t: int): seq<Row> {
    if c.docId != 0 && c.id != 0 then CloseSelected(rows, OpenWithId(c.id, c.docId), t)
    else if c.docId != 0 then CloseSelected(rows, OpenOfDoc(c.docId), t)
    else rows
  }

  /** The update only moves ends, so the next id stays the same. */
  lemma SaveUpdateKeeps(rows: seq<Row>, c: Copy, t: int)
    ensures SameVersions(SaveUpdate(rows, c, t), rows)
    ensures MaxId(SaveUpdate(rows, c, t)) == MaxId(rows)
  {
    if c.docId != 0 {
      var sel := if c.id != 0 then OpenWithId(c.id, c.docId) else OpenOfDoc(c.docId);
      assert SaveUpdate(rows, c, t) == CloseSelected(rows, sel, t);
      MaxIdOfClosed(rows, sel, t);
    }
  }

  /** The insertion that ends a save or a restore: the copy becomes a new
      row [t, MAX) with the next id, and a copy without a document_id takes
      that id as its document_id. */
  function Inserted(rows: seq<Row>, c: Copy, t: int): Effect {
    if c.docId == 0 then AppendDocument(rows, c, t) else AppendVersion(rows, c, t)
  }

  /** Inserting the copy as a new row [t, MAX) with the next id. */
  function AppendVersion(rows: seq<Row>, c: Copy, t: int): Effect {
    var n := MaxId(rows) + 1;
    Effect(rows + [Row(n, c.docId, t, MAX, c.payload)], c.(id := n), Pass)
  }

  /** Inserting a copy without a document_id, then writing its new id into
      the row's document_id. */
  function AppendDocument(rows: seq<Row>, c: Copy, t: int): Effect {
    var n := MaxId(rows) + 1;
    Effect(WithDocId(rows + [Row(n, c.docId, t, MAX, c.payload)], n, n), c.(id := n, docId := n), Pass)
  }

  /** The insertion appends one open row [t, MAX) with the next id, under
      the copy's document_id or, for a new document, under that same id,
      and leaves every existing row alone. */
  lemma InsertedShape(rows: seq<Row>, c: Copy, t: int)
    ensures var n := MaxId(rows) + 1;
            var d := if c.docId == 0 then n else c.docId;
            Inserted(rows, c, t) == Effect(rows + [Row(n, d, t, MAX, c.payload)], c.(id := n, docId := d), Pass)
  {
    if c.docId == 0 {
      var n := MaxId(rows) + 1;
      var inserted := rows + [Row(n, 0, t, MAX, c.payload)];
      var e := WithDocId(inserted, n, n);
      forall i | 0 <= i < |rows| ensures e[i] == rows[i] {
        assert inserted[i] == rows[i];
      }
      assert e == rows + [Row(n, n, t, MAX, c.payload)];
    }
  }

  /** Inserting after an update: the next id is the one before the update. */
  lemma InsertedVersion(rows: seq<Row>, sel: Selector, c: Copy, t: int)
    requires c.docId != 0
    ensures var n := MaxId(rows) + 1;
            var closed := CloseSelected(rows, sel, t);
            Inserted(closed, Stamp(c, t), t) ==
              Effect(closed + [Row(n, c.docId, t, MAX, c.payload)], Stamp(c, t).(id := n), Pass)
  {
    MaxIdOfClosed(rows, sel, t);
    InsertedShape(CloseSelected(rows, sel, t), Stamp(c, t), t);
  }

  /** A save that passes appends exactly one row, the new open version
      [t, MAX) with the next id, under the document's id (its own id for a
      new document), and changes no existing row except for its end. */
  lemma SaveResult(rows: seq<Row>, c: Copy, documentStart: Option<int>, clock: int)
    ensures var e := SaveSpec(rows, c, documentStart, clock);
            var t := documentStart.GetOr(clock);
            e.outcome.Pass? ==>
              |e.rows| == |rows| + 1 &&
              e.rows[|rows|] == Row(e.copy.id, e.copy.docId, t, MAX, c.payload) &&
              e.copy.id == MaxId(rows) + 1 && e.copy.docId != 0 &&
              (c.docId != 0 ==> e.copy.docId == c.docId) &&
              (c.docId == 0 ==> e.copy.docId == e.copy.id) &&
              e.copy.start == Some(t) && e.copy.end == Some(MAX) && e.copy.payload == c.payload &&
              SameVersions(e.rows[..|rows|], rows)
  {
    var t := documentStart.GetOr(clock);
    SaveUpdateKeeps(rows, c, t);
    InsertedShape(SaveUpdate(rows, c, t), Stamp(c, t), t);
  }

  /** The number of rows an update selects is at most one when the
      selection pins the id and ids are unique. */
  lemma {:induction false} AtMostOneSelected(rows: seq<Row>, sel: Selector)
    requires forall i, j :: 0 <= i < j < |rows| ==> !(Selects(sel, rows[i]) && Selects(sel, rows[j]))
    ensures CountSelected(rows, sel) <= 1
    ensures CountSelected(rows, sel) == 1 <==> exists i :: 0 <= i < |rows| && Selects(sel, rows[i])
  {
    if rows != [] {
      var front := rows[..|rows| - 1];
      assert forall i :: 0 <= i < |front| ==> front[i] == rows[i];
      AtMostOneSelected(front, sel);
      if Selects(sel, rows[|rows| - 1]) {
        forall i | 0 <= i < |front| ensures !Selects(sel, front[i]) {
          assert front[i] == rows[i];
        }
        CountNone(front, sel);
      }
    }
  }

  /** Saving with both ids raises ChangedAlready exactly when no open row has
      that id and that document_id; then the table is left as it was. */
  lemma SaveConflict(rows: seq<Row>, c: Copy, documentStart: Option<int>, clock: int)
    requires UniqueIds(rows)
    requires c.docId != 0 && c.id != 0
    requires !(c.start.Some? && documentStart.Some? && c.start.value > documentStart.value)
    ensures var e := SaveSpec(rows, c, documentStart, clock);
            (e.outcome == Fail(ChangedAlready) <==>
               !exists r :: r in rows && r.id == c.id && r.docId == c.docId && IsOpen(r)) &&
            (e.outcome == Fail(ChangedAlready) ==> e.rows == rows && |e.rows| == |rows|)
  {
    var sel := OpenWithId(c.id, c.docId);
    AtMostOneSelected(rows, sel);
    if CountSelected(rows, sel) == 1 {
      var i :| 0 <= i < |rows| && Selects(sel, rows[i]);
      assert rows[i] in rows;
    } else {
      NoneSelected(rows, sel);
      NothingSelected(rows, sel, documentStart.GetOr(clock));
      forall r | r in rows && r.id == c.id && r.docId == c.docId ensures !IsOpen(r) {
        var i :| 0 <= i < |rows| && rows[i] == r;
      }
    }
  }

  /** Under the invariant, the row an edit names by id is the only open row
      of its document, so the conditional update closes the same rows as
      the unconditional one. */
  lemma ById(rows: seq<Row>, id: nat, docId: nat, t: int)
    requires Consistent(rows)
    requires CountSelected(rows, OpenWithId(id, docId)) == 1
    ensures CloseSelected(rows, OpenWithId(id, docId), t) == CloseSelected(rows, OpenOfDoc(docId), t)
  {
    AtMostOneSelected(rows, OpenWithId(id, docId));
    var j :| 0 <= j < |rows| && Selects(OpenWithId(id, docId), rows[j]);
    forall k | 0 <= k < |rows| && Selects(OpenOfDoc(docId), rows[k]) ensures rows[k] == rows[j] {
      assert rows[k] in rows && rows[j] in rows;
    }
  }

  /** A successful edit closes every open row of the document at the new
      start (by id or, with only document_id, unconditionally), leaves all
      other rows alone and appends the new version. */
  lemma SaveEdit(rows: seq<Row>, c: Copy, documentStart: Option<int>, clock: int)
    requires c.docId != 0
    requires c.id != 0 ==> Consistent(rows)
    ensures var e := SaveSpec(rows, c, documentStart, clock);
            var t := documentStart.GetOr(clock);
            (e.outcome == Pass <==>
               !(c.start.Some? && documentStart.Some? && c.start.value > documentStart.value) &&
               (c.id != 0 ==> exists r :: r in rows && r.id == c.id && r.docId == c.docId && IsOpen(r))) &&
            (e.outcome.Pass? ==>
               e.rows == CloseSelected(rows, OpenOfDoc(c.docId), t) + [Row(MaxId(rows) + 1, c.docId, t, MAX, c.payload)])
  {
    var e := SaveSpec(rows, c, documentStart, clock);
    var t := documentStart.GetOr(clock);
    if c.start.Some? && documentStart.Some? && c.start.value > documentStart.value {
      assert e.outcome == Fail(AssertionFailed);
    } else if c.id != 0 && CountSelected(rows, OpenWithId(c.id, c.docId)) != 1 {
      SaveConflict(rows, c, documentStart, clock);
      assert e.outcome == Fail(ChangedAlready);
    } else {
      if c.id != 0 {
        SaveConflict(rows, c, documentStart, clock);
      }
      var updated := CloseSelected(rows, OpenOfDoc(c.docId), t);
      if c.id != 0 {
        ById(rows, c.id, c.docId, t);
      }
      assert e == Inserted(updated, Stamp(c, t), t);
      InsertedVersion(rows, OpenOfDoc(c.docId), c, t);
    }
  }

  /** Saving a document without a document_id leaves every existing row
      alone and appends a version whose document_id is its own id. */
  lemma SaveNew(rows: seq<Row>, c: Copy, documentStart: Option<int>, clock: int)
    requires c.docId == 0
    ensures var e := SaveSpec(rows, c, documentStart, clock);
            var n := MaxId(rows) + 1;
            (e.outcome == Pass <==> !(c.start.Some? && documentStart.Some? && c.start.value > documentStart.value)) &&
            (e.outcome.Pass? ==> e.rows == rows + [Row(n, n, documentStart.GetOr(clock), MAX, c.payload)])
  {
    InsertedShape(rows, Stamp(c, documentStart.GetOr(clock)), documentStart.GetOr(clock));
  }

  // ------------------------------------------------- the interval invariant

  /** Closing the open version of a document at `t` keeps the invariant when
      `t` is not before that version's start and not beyond FUTURE. */
  lemma CloseConsistent(rows: seq<Row>, docId: nat, t: int)
    requires Consistent(rows)
    requires t <= FUTURE
    requires forall r :: r in rows && r.docId == docId && IsOpen(r) ==> r.start <= t
    ensures var closed := CloseSelected(rows, OpenOfDoc(docId), t);
            Consistent(closed) &&
            (forall r :: r in closed && r.docId == docId ==> !IsOpen(r)) &&
            (NotBefore(rows, docId, t) ==> forall r :: r in closed && r.docId == docId ==> r.end <= t)
  {
    var sel := OpenOfDoc(docId);
    var closed := CloseSelected(rows, sel, t);
    assert UniqueIds(closed) by {
      forall i, j | 0 <= i < j < |closed| ensures closed[i].id != closed[j].id {
        assert closed[i].id == rows[i].id && closed[j].id == rows[j].id;
      }
    }
    forall r | r in closed
      ensures WellFormed(r) && (r.docId == docId ==> !IsOpen(r))
      ensures NotBefore(rows, docId, t) && r.docId == docId ==> r.end <= t
    {
      var i :| 0 <= i < |closed| && closed[i] == r;
      assert rows[i] in rows;
    }
    forall a, b | a in closed && b in closed && a != b ensures Compatible(a, b) {
      var i :| 0 <= i < |closed| && closed[i] == a;
      var j :| 0 <= j < |closed| && closed[j] == b;
      assert rows[i] in rows && rows[j] in rows;
      ClosePair(rows[i], rows[j], docId, t);
    }
  }

  /** The update applied to one row. */
  function CloseOne(r: Row, docId: nat, t: int): Row {
    if Selects(OpenOfDoc(docId), r) then r.(end := t) else r
  }

  lemma ClosePair(x: Row, y: Row, docId: nat, t: int)
    requires WellFormed(x) && WellFormed(y) && (x != y ==> Compatible(x, y))
    requires t <= FUTURE
    requires x.docId == docId && IsOpen(x) ==> x.start <= t
    requires y.docId == docId && IsOpen(y) ==> y.start <= t
    requires CloseOne(x, docId, t) != CloseOne(y, docId, t)
    ensures Compatible(CloseOne(x, docId, t), CloseOne(y, docId, t))
  {
  }

  /** Appending a fresh open version after a document's closed ones keeps
      the invariant. */
  lemma AppendConsistent(rows: seq<Row>, row: Row)
    requires Consistent(rows)
    requires row.id > 0 && row.docId > 0 && row.start <= row.end && row.end == MAX
    requires forall r :: r in rows ==> r.id != row.id
    requires forall r :: r in rows && r.docId == row.docId ==> !IsOpen(r) && r.end <= row.start
    ensures Consistent(rows + [row])
  {
    var added := rows + [row];
    forall i, j | 0 <= i < j < |added| ensures added[i].id != added[j].id {
      if j == |rows| { assert added[i] == rows[i] && rows[i] in rows; }
      else { assert added[i] == rows[i] && added[j] == rows[j]; }
    }
    forall r | r in added ensures r in rows || r == row { }
  }

  /** Saving keeps the interval invariant when the new start is not before
      anything the document already covers and not beyond FUTURE, and, for
      a new document, when its future id is not already some document's id. */
  lemma SaveConsistent(rows: seq<Row>, c: Copy, documentStart: Option<int>, clock: int)
    requires Consistent(rows)
    requires documentStart.GetOr(clock) <= FUTURE
    requires c.docId != 0 ==> NotBefore(rows, c.docId, documentStart.GetOr(clock))
    requires c.docId == 0 ==> forall r :: r in rows ==> r.docId != MaxId(rows) + 1
    ensures Consistent(SaveSpec(rows, c, documentStart, clock).rows)
  {
    var e := SaveSpec(rows, c, documentStart, clock);
    var t := documentStart.GetOr(clock);
    if c.start.Some? && documentStart.Some? && c.start.value > documentStart.value {
      assert e.rows == rows;
    } else if c.docId != 0 && c.id != 0 && CountSelected(rows, OpenWithId(c.id, c.docId)) != 1 {
      SaveConflict(rows, c, documentStart, clock);
      assert e.rows == rows;
    } else {
      assert e == Inserted(SaveUpdate(rows, c, t), Stamp(c, t), t);
      InsertConsistent(rows, c, t);
    }
  }

  /** The update and insertion of a save that passed keep the invariant. */
  lemma InsertConsistent(rows: seq<Row>, c: Copy, t: int)
    requires Consistent(rows)
    requires t <= FUTURE
    requires c.docId != 0 ==> NotBefore(rows, c.docId, t)
    requires c.docId == 0 ==> forall r :: r in rows ==> r.docId != MaxId(rows) + 1
    requires c.docId != 0 && c.id != 0 ==> CountSelected(rows, OpenWithId(c.id, c.docId)) == 1
    ensures Consistent(Inserted(SaveUpdate(rows, c, t), Stamp(c, t), t).rows)
  {
    var n := MaxId(rows) + 1;
    if c.docId == 0 {
      assert SaveUpdate(rows, c, t) == rows;
      InsertedShape(rows, Stamp(c, t), t);
      AppendConsistent(rows, Row(n, n, t, MAX, c.payload));
    } else {
      var sel := if c.id != 0 then OpenWithId(c.id, c.docId) else OpenOfDoc(c.docId);
      assert SaveUpdate(rows, c, t) == CloseSelected(rows, sel, t);
      if c.id != 0 {
        ById(rows, c.id, c.docId, t);
      }
      InsertedVersion(rows, OpenOfDoc(c.docId), c, t);
      CloseAppendConsistent(rows, c.docId, t, c.payload);
    }
  }

  /** Closing the document's open version at `t` and appending a new open
      version from `t` keeps the invariant. */
  lemma CloseAppendConsistent(rows: seq<Row>, docId: nat, t: int, payload: int)
    requires Consistent(rows)
    requires t <= FUTURE && docId > 0
    requires NotBefore(rows, docId, t)
    ensures Consistent(CloseSelected(rows, OpenOfDoc(docId), t) + [Row(MaxId(rows) + 1, docId, t, MAX, payload)])
  {
    var closed := CloseSelected(rows, OpenOfDoc(docId), t);
    CloseConsistent(rows, docId, t);
    forall r | r in closed ensures r.id != MaxId(rows) + 1 {
      var i :| 0 <= i < |closed| && closed[i] == r;
    }
    AppendConsistent(closed, Row(MaxId(rows) + 1, docId, t, MAX, payload));
  }

  // -------------------------------------------------------------- delete

  /** Document.document_delete closes the open rows of the document at `t`;
      the count it returns is the number of rows it closed. */
  lemma {:induction false} DeleteCount(rows: seq<Row>, docId: nat)
    requires Consistent(rows)
    ensures CountSelected(rows, OpenOfDoc(docId)) <= 1
    ensures CountSelected(rows, OpenOfDoc(docId)) == 1 <==>
              exists r :: r in rows && r.docId == docId && IsOpen(r)
  {
    forall i, j | 0 <= i < j < |rows| ensures !(Selects(OpenOfDoc(docId), rows[i]) && Selects(OpenOfDoc(docId), rows[j])) {
      assert rows[i] in rows && rows[j] in rows && rows[i].id != rows[j].id;
    }
    AtMostOneSelected(rows, OpenOfDoc(docId));
    if exists r :: r in rows && r.docId == docId && IsOpen(r) {
      var r :| r in rows && r.docId == docId && IsOpen(r);
      var i :| 0 <= i < |rows| && rows[i] == r;
      assert Selects(OpenOfDoc(docId), rows[i]);
    }
  }

  /** Deleting again at an instant not beyond FUTURE changes nothing. */
  lemma DeleteTwice(rows: seq<Row>, docId: nat, t: int)
    requires t <= FUTURE
    ensures CountSelected(CloseSelected(rows, OpenOfDoc(docId), t), OpenOfDoc(docId)) == 0
  {
    CloseSettles(rows, OpenOfDoc(docId), t, t);
  }

  // --------------------------------------------------------------- reads

  /** The version contains the instant. */
  predicate Covers(r: Row, dt: int) {
    r.start <= dt < r.end
  }

  /** Document.at(dt, **kwargs): the rows that contain `dt` and satisfy the
      extra filter, in table order. */
  function At(rows: seq<Row>, dt: int, q: Row -> bool): (r: seq<Row>)
    ensures forall x :: x in r <==> x in rows && Covers(x, dt) && q(x)
    ensures |r| <= |rows|
    ensures UniqueIds(rows) ==> UniqueIds(r)
  {
    Satisfying(rows, (x: Row) => Covers(x, dt) && q(x))
  }

  /** The rows satisfying an arbitrary predicate `q`, in table order: the
      query filters of at() and history(), which `Table.Where` cannot name
      because it only knows the maintenance commands' filters. */
  function Satisfying(rows: seq<Row>, q: Row -> bool): (r: seq<Row>)
    ensures forall x :: x in r <==> x in rows && q(x)
    ensures |r| <= |rows|
    ensures UniqueIds(rows) ==> UniqueIds(r)
  {
    if rows == [] then []
    else
      var front := rows[..|rows| - 1];
      var last := rows[|rows| - 1];
      assert rows == front + [last];
      var r := Satisfying(front, q);
      assert UniqueIds(rows) ==> UniqueIds(front) && forall x :: x in r ==> x.id != last.id by {
        if UniqueIds(rows) {
          forall x | x in r ensures x.id != last.id {
            var i :| 0 <= i < |front| && front[i] == x;
            assert rows[i] == x;
          }
        }
      }
      if q(last) then
        assert UniqueIds(rows) ==> UniqueIds(r + [last]) by {
          if UniqueIds(rows) {
            forall i, j | 0 <= i < j < |r + [last]| ensures (r + [last])[i].id != (r + [last])[j].id {
              assert (r + [last])[i] == r[i] && r[i] in r;
            }
          }
        }
        r + [last]
      else r
  }

  /** QuerySet.get() on Document.at(dt, **kwargs) (document_get). */
  function DocumentGet(rows: seq<Row>, dt: int, q: Row -> bool): (r: Result<Row>)
    ensures r.Found? ==> r.value in rows && Covers(r.value, dt) && q(r.value)
    ensures r == Failed(DoesNotExist) <==> forall x :: x in rows && q(x) ==> !Covers(x, dt)
    ensures r.Found? || r == Failed(DoesNotExist) || r == Failed(MultipleObjectsReturned)
    ensures r.Found? <==> |At(rows, dt, q)| == 1
    ensures r.Found? ==> At(rows, dt, q) == [r.value]
    ensures r == Failed(MultipleObjectsReturned) <==> |At(rows, dt, q)| > 1
  {
    var found := At(rows, dt, q);
    if |found| == 1 then Found(found[0])
    else if found == [] then Failed(DoesNotExist)
    else
      assert found[0] in found;
      Failed(MultipleObjectsReturned)
  }

  /** Document.document_get_or_404: a miss becomes Http404. */
  function DocumentGetOr404(rows: seq<Row>, dt: int, q: Row -> bool): (r: Result<Row>)
    ensures r.Found? ==> r.value in rows && Covers(r.value, dt) && q(r.value)
    ensures r == Failed(Http404) <==> forall x :: x in rows && q(x) ==> !Covers(x, dt)
    ensures DocumentGet(rows, dt, q) != Failed(DoesNotExist) ==> r == DocumentGet(rows, dt, q)
  {
    match DocumentGet(rows, dt, q)
    case Failed(DoesNotExist) => Failed(Http404)
    case other => other
  }

  /** Point-in-time uniqueness: under the invariant a document has at most
      one version containing any instant, so get() never finds two. */
  lemma AtMostOneVersionAt(rows: seq<Row>, dt: int, q: Row -> bool, docId: nat)
    requires Consistent(rows)
    requires forall x :: q(x) ==> x.docId == docId
    ensures |At(rows, dt, q)| <= 1
    ensures DocumentGet(rows, dt, q) != Failed(MultipleObjectsReturned)
  {
    var found := At(rows, dt, q);
    forall a, b | a in found && b in found ensures a == b {
      assert a in rows && b in rows;
    }
    if found != [] {
      assert found[|found| - 1] in found && found[0] in found;
      assert found[|found| - 1] == found[0];
    }
  }

  /** Document.history(): the document's versions without zero-length or
      inverted ones, most recent start first. */
  function History(rows: seq<Row>, docId: nat): (h: seq<Row>)
    ensures Sorted(ByStartDesc, h)
    ensures forall x :: x in h <==> x in rows && x.docId == docId && x.start < x.end
    ensures multiset(h) == multiset(VersionsOf(rows, docId))
  {
    var v := VersionsOf(rows, docId);
    PermutationMembers(Sort(ByStartDesc, v), v);
    Sort(ByStartDesc, v)
  }

  /** The document's rows of positive length, in table order. */
  function VersionsOf(rows: seq<Row>, docId: nat): (r: seq<Row>)
    ensures forall x :: x in r <==> x in rows && x.docId == docId && x.start < x.end
  {
    var q := (x: Row) => x.docId == docId && x.start < x.end;
    var r := Satisfying(rows, q);
    assert forall x :: x in r <==> x in rows && q(x);
    r
  }

  // ------------------------------------------------------------- restore

  /** latest('document_end') among the document's rows; of several rows with
      the largest end, the first in table order. */
  function Latest(rows: seq<Row>, docId: nat): (r: Option<Row>)
    ensures r.None? <==> forall x :: x in rows ==> x.docId != docId
    ensures r.Some? ==> r.value in rows && r.value.docId == docId &&
                        forall x :: x in rows && x.docId == docId ==> x.end <= r.value.end
  {
    if rows == [] then None
    else
      var front := rows[..|rows| - 1];
      var last := rows[|rows| - 1];
      assert rows == front + [last];
      var best := Latest(front, docId);
      if last.docId == docId && (best.None? || last.end > best.value.end) then Some(last) else best
  }

  /** Document.document_restore: make an old version current again. */
  function RestoreSpec(rows: seq<Row>, c: Copy, documentStart: Option<int>, clock: int): (e: Effect)
    ensures c.docId != 0 && c.end.Some? && c.end.value > FUTURE ==> e == Effect(rows, c, Pass)
    ensures e.outcome.Fail? ==> e.rows == rows && e.copy == c
    ensures e.outcome == Fail(NotComparable) <==> c.docId != 0 && c.end.None?
    ensures e.outcome == Fail(DoesNotExist) <==>
              c.docId != 0 && c.end.Some? && c.end.value <= FUTURE && forall x :: x in rows ==> x.docId != c.docId
    ensures e.outcome == Fail(AssertionFailed) <==>
              c.docId == 0 ||
              (c.end.Some? && c.end.value <= FUTURE && Latest(rows, c.docId).Some? && documentStart.Some? &&
               Latest(rows, c.docId).value.start >= documentStart.value)
    ensures e.outcome == Pass <==>
              c.docId != 0 && c.end.Some? &&
              (c.end.value > FUTURE ||
               (Latest(rows, c.docId).Some? &&
                (documentStart.Some? ==> Latest(rows, c.docId).value.start < documentStart.value)))
  {
    if c.docId == 0 then Effect(rows, c, Fail(AssertionFailed))
    else if c.end.None? then Effect(rows, c, Fail(NotComparable))
    else if c.end.value > FUTURE then Effect(rows, c, Pass)  // already the last version
    else
      match Latest(rows, c.docId)
      case None => Effect(rows, c, Fail(DoesNotExist))
      case Some(last) =>
        if documentStart.Some? && !(last.start < documentStart.value) then
          Effect(rows, c, Fail(AssertionFailed))
        else
          var t := documentStart.GetOr(clock);
          Inserted(CloseSelected(rows, OpenOfDoc(c.docId), t), Stamp(c, t), t)
  }

  /** A restore that passes on a closed copy closes the document's open
      versions at the new start and appends the copy's payload as the new
      open version [t, MAX) with the next id. */
  lemma RestoreResult(rows: seq<Row>, c: Copy, documentStart: Option<int>, clock: int)
    ensures var e := RestoreSpec(rows, c, documentStart, clock);
            var t := documentStart.GetOr(clock);
            e.outcome.Pass? && !(c.end.Some? && c.end.value > FUTURE) ==>
              e.rows == CloseSelected(rows, OpenOfDoc(c.docId), t) + [Row(MaxId(rows) + 1, c.docId, t, MAX, c.payload)] &&
              e.copy == c.(id := MaxId(rows) + 1, start := Some(t), end := Some(MAX))
  {
    var e := RestoreSpec(rows, c, documentStart, clock);
    var t := documentStart.GetOr(clock);
    if e.outcome.Pass? && !(c.end.Some? && c.end.value > FUTURE) {
      assert e == Inserted(CloseSelected(rows, OpenOfDoc(c.docId), t), Stamp(c, t), t);
      InsertedVersion(rows, OpenOfDoc(c.docId), c, t);
    }
  }

  /** Restoring keeps the interval invariant under the same condition as
      saving: the new start is not before anything the document covers. */
  lemma RestoreConsistent(rows: seq<Row>, c: Copy, documentStart: Option<int>, clock: int)
    requires Consistent(rows)
    requires documentStart.GetOr(clock) <= FUTURE
    requires NotBefore(rows, c.docId, documentStart.GetOr(clock))
    ensures Consistent(RestoreSpec(rows, c, documentStart, clock).rows)
  {
    var e := RestoreSpec(rows, c, documentStart, clock);
    var t := documentStart.GetOr(clock);
    if e.outcome.Fail? || (c.end.Some? && c.end.value > FUTURE) {
      assert e.rows == rows;
    } else {
      var after := CloseSelected(rows, OpenOfDoc(c.docId), t) + [Row(MaxId(rows) + 1, c.docId, t, MAX, c.payload)];
      RestoreResult(rows, c, documentStart, clock);
      assert e.rows == after;
      CloseAppendConsistent(rows, c.docId, t, c.payload);
      assert Consistent(after);
    }
  }

  /** While the document has an open version, the check the code makes
      (the start of the row with the largest end lies before the new start)
      is enough for the invariant. */
  lemma RestoreCheckSufficesWhenOpen(rows: seq<Row>, docId: nat, t: int)
    requires Consistent(rows)
    requires exists r :: r in rows && r.docId == docId && IsOpen(r)
    requires Latest(rows, docId).Some? && Latest(rows, docId).value.start < t
    ensures NotBefore(rows, docId, t)
  {
    var o :| o in rows && o.docId == docId && IsOpen(o);
    var last := Latest(rows, docId).value;
    assert IsOpen(last);
    assert o == last;
    forall r | r in rows && r.docId == docId ensures r.start <= t && (!IsOpen(r) ==> r.end <= t) {
      if r != last {
        assert Disjoint(r, last) && !IsOpen(r);
      }
    }
  }

  /** For a deleted document (no open version) the check is not enough:
      restoring a version at an instant inside the last closed version
      passes the assert and produces two overlapping versions. */
  lemma RestoreCheckInsufficientWhenDeleted()
    ensures var rows := [Row(1, 7, 10, 20, 0)];
            var c := Copy(1, 7, Some(10), Some(20), 0);
            Consistent(rows) && Latest(rows, 7) == Some(rows[0]) && rows[0].start < 15 &&
            RestoreSpec(rows, c, Some(15), 0).outcome == Pass &&
            !Consistent(RestoreSpec(rows, c, Some(15), 0).rows)
  {
    var rows := [Row(1, 7, 10, 20, 0)];
    var c := Copy(1, 7, Some(10), Some(20), 0);
    var e := RestoreSpec(rows, c, Some(15), 0);
    assert e.rows[0] == Row(1, 7, 10, 20, 0) && e.rows[1] == Row(2, 7, 15, MAX, 0);
    assert e.rows[0] in e.rows && e.rows[1] in e.rows;
  }

  // ---------------------------------------------------------- bulk writer

  /** The entry fails the `assert d.document_start <= document_start`. */
  predicate Late(c: Copy, t: int) {
    c.start.Some? && c.start.value > t
  }

  function Stamp(c: Copy, t: int): Copy {
    c.(start := Some(t), end := Some(MAX))
  }

  function StampAll(docs: seq<Copy>, t: int): (r: seq<Copy>)
    ensures |r| == |docs| && forall i :: 0 <= i < |docs| ==> r[i] == Stamp(docs[i], t)
  {
    seq(|docs|, i requires 0 <= i < |docs| => Stamp(docs[i], t))
  }

  /** The position of the first late entry, or |docs| when there is none. */
  function FirstLate(docs: seq<Copy>, t: int): (k: nat)
    ensures k <= |docs|
    ensures forall i :: 0 <= i < k ==> !Late(docs[i], t)
    ensures k < |docs| ==> Late(docs[k], t)
  {
    if docs == [] then 0
    else if Late(docs[0], t) then 0
    else 1 + FirstLate(docs[1..], t)
  }

  /** with_document_id_and_id: the ids of the entries carrying both ids. */
  function IdsToCheck(docs: seq<Copy>): seq<nat> {
    if docs == [] then []
    else
      var d := docs[|docs| - 1];
      IdsToCheck(docs[..|docs| - 1]) + (if d.docId != 0 && d.id != 0 then [d.id] else [])
  }

  /** with_document_id: the document ids of the entries carrying only that. */
  function DocsToClose(docs: seq<Copy>): seq<nat> {
    if docs == [] then []
    else
      var d := docs[|docs| - 1];
      DocsToClose(docs[..|docs| - 1]) + (if d.docId != 0 && d.id == 0 then [d.docId] else [])
  }

  /** Document.bulk_ids(n) on sqlite: max(id) + 1 ... max(id) + n, or none
      for n = 0, all larger than every id in the table. */
  function BulkIds(rows: seq<Row>, n: nat): (ids: seq<nat>)
    ensures |ids| == n
    ensures forall i :: 0 <= i < n ==> ids[i] == MaxId(rows) + 1 + i
    ensures forall i, r :: 0 <= i < n && r in rows ==> r.id < ids[i]
    ensures forall i, j :: 0 <= i < j < n ==> ids[i] < ids[j]
  {
    seq(n, i => MaxId(rows) + 1 + i)
  }

  /** d.id = id; and document_id := id where it was 0. */
  function Assign(c: Copy, id: nat): Copy {
    if c.docId == 0 then c.(id := id, docId := id) else c.(id := id)
  }

  function AssignIds(docs: seq<Copy>, ids: seq<nat>): (r: seq<Copy>)
    requires |ids| == |docs|
    ensures |r| == |docs| && forall i :: 0 <= i < |docs| ==> r[i] == Assign(docs[i], ids[i])
  {
    seq(|docs|, i requires 0 <= i < |docs| => Assign(docs[i], ids[i]))
  }

  /** The rows bulk_insert writes for the saved documents. */
  function RowsOf(docs: seq<Copy>, t: int): (r: seq<Row>)
    ensures |r| == |docs| && forall i :: 0 <= i < |docs| ==> r[i] == Row(docs[i].id, docs[i].docId, t, MAX, docs[i].payload)
  {
    seq(|docs|, i requires 0 <= i < |docs| => Row(docs[i].id, docs[i].docId, t, MAX, docs[i].payload))
  }

  function SetOf(s: seq<nat>): set<nat> {
    set x | x in s
  }

  datatype BulkEffect = BulkEffect(rows: seq<Row>, docs: seq<Copy>, outcome: Outcome)

  /** Document.bulk_documents_save. */
  function BulkSaveSpec(rows: seq<Row>, docs: seq<Copy>, documentStart: Option<int>, clock: int): (e: BulkEffect)
    ensures |e.docs| == |docs|
    ensures e.outcome.Pass? ==>
              |e.rows| == |rows| + |docs| &&
              SameVersions(e.rows[..|rows|], rows) && ClosedFor(rows, e.rows, docs, documentStart.GetOr(clock)) &&
              e.rows[|rows|..] == RowsOf(e.docs, documentStart.GetOr(clock)) &&
              NumberedFrom(MaxId(rows) + 1, docs, e.docs, documentStart.GetOr(clock))
    ensures e.outcome == Fail(AssertionFailed) <==> FirstLate(docs, documentStart.GetOr(clock)) < |docs|
    ensures e.outcome == Fail(AssertionFailed) ==>
              var k := FirstLate(docs, documentStart.GetOr(clock));
              e.rows == rows && e.docs == StampAll(docs[..k], documentStart.GetOr(clock)) + docs[k..]
    ensures e.outcome == Fail(ChangedAlready) <==>
              FirstLate(docs, documentStart.GetOr(clock)) == |docs| && BulkConflict(rows, docs)
    ensures e.outcome == Fail(ChangedAlready) ==>
              e.rows == CloseSelected(rows, OpenWithIdIn(SetOf(IdsToCheck(docs))), documentStart.GetOr(clock)) &&
              e.docs == StampAll(docs, documentStart.GetOr(clock))
    ensures e.outcome == Pass <==>
              FirstLate(docs, documentStart.GetOr(clock)) == |docs| && !BulkConflict(rows, docs)
  {
    var t := documentStart.GetOr(clock);
    var k := FirstLate(docs, t);
    if k < |docs| then
      BulkEffect(rows, StampAll(docs[..k], t) + docs[k..], Fail(AssertionFailed))
    else
      BulkSaveChecked(rows, docs, t)
  }

  /** bulk_documents_save once every entry passed its assert. */
  function BulkSaveChecked(rows: seq<Row>, docs: seq<Copy>, t: int): (e: BulkEffect)
    ensures |e.docs| == |docs|
    ensures e.outcome.Pass? ==>
              |e.rows| == |rows| + |docs| &&
              SameVersions(e.rows[..|rows|], rows) && ClosedFor(rows, e.rows, docs, t) &&
              e.rows[|rows|..] == RowsOf(e.docs, t) &&
              NumberedFrom(MaxId(rows) + 1, docs, e.docs, t)
    ensures e.outcome == Pass || e.outcome == Fail(ChangedAlready)
    ensures e.outcome == Fail(ChangedAlready) <==> BulkConflict(rows, docs)
    ensures e.outcome == Fail(ChangedAlready) ==>
              e.rows == CloseSelected(rows, OpenWithIdIn(SetOf(IdsToCheck(docs))), t) && e.docs == StampAll(docs, t)
  {
    if BulkConflict(rows, docs) then
      BulkEffect(CloseSelected(rows, OpenWithIdIn(SetOf(IdsToCheck(docs))), t), StampAll(docs, t), Fail(ChangedAlready))
    else
      BulkAppend(BulkClose(rows, docs, t), docs, t)
  }

  /** The two bulk updates: close the open rows named by id, then those of
      the documents given only by document_id; an empty list skips its update. */
  function BulkClose(rows: seq<Row>, docs: seq<Copy>, t: int): (r: seq<Row>)
    ensures |r| == |rows| && MaxId(r) == MaxId(rows)
    ensures SameVersions(r, rows)
    ensures ClosedFor(rows, r, docs, t)
  {
    var ids := IdsToCheck(docs);
    var dids := DocsToClose(docs);
    var rows1 := if ids != [] then CloseSelected(rows, OpenWithIdIn(SetOf(ids)), t) else rows;
    var rows2 := if dids != [] then CloseSelected(rows1, OpenOfDocIn(SetOf(dids)), t) else rows1;
    assert ClosedFor(rows, rows2, docs, t) by {
      forall i | 0 <= i < |rows| ensures rows2[i] == CloseListed(rows[i], docs, t) {
        assert ids != [] ==> rows1[i] == CloseSelected(rows, OpenWithIdIn(SetOf(ids)), t)[i];
      }
    }
    assert MaxId(rows2) == MaxId(rows) by {
      if ids != [] { MaxIdOfClosed(rows, OpenWithIdIn(SetOf(ids)), t); }
      if dids != [] { MaxIdOfClosed(rows1, OpenOfDocIn(SetOf(dids)), t); }
    }
    rows2
  }

  /** A row after the two bulk updates: closed at `t` when it was open and
      either its id is listed with both ids or its document is listed by
      document_id alone. */
  function CloseListed(r: Row, docs: seq<Copy>, t: int): Row {
    if IsOpen(r) && (r.id in IdsToCheck(docs) || r.docId in DocsToClose(docs)) then r.(end := t) else r
  }

  /** Row by row, `after` is `before` with the listed open rows closed at `t`. */
  predicate ClosedFor(before: seq<Row>, after: seq<Row>, docs: seq<Copy>, t: int) {
    |before| <= |after| && forall i :: 0 <= i < |before| ==> after[i] == CloseListed(before[i], docs, t)
  }

  /** The entry was saved as number `n`: it got that id, that id as its
      document_id when it had none, and the interval [t, MAX). */
  predicate Numbered(n: nat, given: Copy, saved: Copy, t: int) {
    saved.id == n && saved.docId == (if given.docId == 0 then n else given.docId) &&
    saved.start == Some(t) && saved.end == Some(MAX) && saved.payload == given.payload
  }

  /** The entries were saved as numbers base, base + 1, ... in order. */
  predicate NumberedFrom(base: nat, given: seq<Copy>, saved: seq<Copy>, t: int) {
    |saved| == |given| && forall i :: 0 <= i < |given| ==> Numbered(base + i, given[i], saved[i], t)
  }

  /** Numbering the stamped entries and inserting one row for each. */
  function BulkAppend(rows: seq<Row>, docs: seq<Copy>, t: int): (e: BulkEffect)
    ensures e.outcome == Pass && |e.docs| == |docs| && |e.rows| == |rows| + |docs|
    ensures e.rows[..|rows|] == rows
    ensures e.rows[|rows|..] == RowsOf(e.docs, t)
    ensures NumberedFrom(MaxId(rows) + 1, docs, e.docs, t)
  {
    var stamped, ids := StampAll(docs, t), BulkIds(rows, |docs|);
    var saved := AssignIds(stamped, ids);
    assert NumberedFrom(MaxId(rows) + 1, docs, saved, t) by {
      forall i | 0 <= i < |docs| ensures Numbered(MaxId(rows) + 1 + i, docs[i], saved[i], t) {
        assert saved[i] == Assign(stamped[i], ids[i]) && stamped[i] == Stamp(docs[i], t);
      }
    }
    var all := rows + RowsOf(saved, t);
    assert all[..|rows|] == rows && all[|rows|..] == RowsOf(saved, t);
    BulkEffect(all, saved, Pass)
  }

  /** The ids of the open rows. */
  function OpenIds(rows: seq<Row>): set<nat> {
    set r | r in rows && IsOpen(r) :: r.id
  }

  /** With unique ids, the bulk conditional update affects one row per
      requested id that names an open row (of any document). */
  lemma {:induction false} CountOpenWithIdIn(rows: seq<Row>, ids: set<nat>)
    requires UniqueIds(rows)
    ensures CountSelected(rows, OpenWithIdIn(ids)) == |ids * OpenIds(rows)|
  {
    if rows == [] {
      assert OpenIds(rows) == {};
    } else {
      var front := rows[..|rows| - 1];
      var last := rows[|rows| - 1];
      SnocIds(rows);
      CountOpenWithIdIn(front, ids);
      CardWithOne(ids, OpenIds(front), last.id, IsOpen(last));
    }
  }

  /** The open ids of a table are those of all rows but the last, plus the
      last one's id when it is open; with unique ids, that id is new. */
  lemma SnocIds(rows: seq<Row>)
    requires rows != [] && UniqueIds(rows)
    ensures var front, last := rows[..|rows| - 1], rows[|rows| - 1];
            UniqueIds(front) && last.id !in OpenIds(front) &&
            OpenIds(rows) == OpenIds(front) + (if IsOpen(last) then {last.id} else {})
  {
    var front, last := rows[..|rows| - 1], rows[|rows| - 1];
    assert rows == front + [last];
    forall i, j | 0 <= i < j < |front| ensures front[i].id != front[j].id {
      assert front[i] == rows[i] && front[j] == rows[j];
    }
    forall r | r in front ensures r.id != last.id {
      var i :| 0 <= i < |front| && front[i] == r;
      assert rows[i] == r;
    }
  }

  lemma CardWithOne(s: set<nat>, a: set<nat>, x: nat, add: bool)
    requires x !in a
    ensures |s * (a + (if add then {x} else {}))| == |s * a| + (if add && x in s then 1 else 0)
  {
    if add && x in s {
      assert s * (a + {x}) == (s * a) + {x};
    } else if add {
      assert s * (a + {x}) == s * a;
    } else {
      assert a + {} == a;
    }
  }

  /** Every entry carrying both ids has its id in with_document_id_and_id. */
  lemma {:induction false} IdsToCheckHas(docs: seq<Copy>)
    ensures forall d :: d in docs && d.docId != 0 && d.id != 0 ==> d.id in IdsToCheck(docs)
  {
    if docs != [] {
      var front := docs[..|docs| - 1];
      assert docs == front + [docs[|docs| - 1]];
      IdsToCheckHas(front);
    }
  }

  /** ... and nothing else is in it. */
  lemma {:induction false} IdsToCheckWithin(docs: seq<Copy>, o: set<nat>)
    requires forall d :: d in docs && d.docId != 0 && d.id != 0 ==> d.id in o
    ensures forall x :: x in IdsToCheck(docs) ==> x in o
  {
    if docs != [] {
      var front := docs[..|docs| - 1];
      assert docs == front + [docs[|docs| - 1]];
      IdsToCheckWithin(front, o);
    }
  }

  /** No id occurs twice. */
  predicate Distinct(s: seq<nat>) {
    forall i, j :: 0 <= i < j < |s| ==> s[i] != s[j]
  }

  /** The bulk conditional update misses: it affects fewer (or more) rows
      than there are entries carrying both ids. */
  predicate BulkConflict(rows: seq<Row>, docs: seq<Copy>) {
    var ids := IdsToCheck(docs);
    ids != [] && CountSelected(rows, OpenWithIdIn(SetOf(ids))) != |ids|
  }

  /** With unique table ids and no repeated entry ids, the update misses
      exactly when some entry carrying both ids names a row that is not open. */
  lemma ConflictWhenNotOpen(rows: seq<Row>, docs: seq<Copy>)
    requires UniqueIds(rows)
    requires Distinct(IdsToCheck(docs))
    ensures BulkConflict(rows, docs) <==>
              exists d :: d in docs && d.docId != 0 && d.id != 0 && d.id !in OpenIds(rows)
  {
    var ids := IdsToCheck(docs);
    var s, o := SetOf(ids), OpenIds(rows);
    CountOpenWithIdIn(rows, s);
    DistinctCard(ids);
    if exists d :: d in docs && d.docId != 0 && d.id != 0 && d.id !in o {
      var d :| d in docs && d.docId != 0 && d.id != 0 && d.id !in o;
      IdsToCheckHas(docs);
      assert d.id in s - o;
      CardOfCommon(s, o);
    } else {
      IdsToCheckWithin(docs, o);
      assert s * o == s;
    }
  }

  /** Repeating an id in the batch always makes the update miss: the update
      counts rows, the check counts entries. */
  lemma ConflictWhenRepeated(rows: seq<Row>, docs: seq<Copy>)
    requires UniqueIds(rows)
    requires !Distinct(IdsToCheck(docs))
    ensures BulkConflict(rows, docs)
  {
    var ids := IdsToCheck(docs);
    var s, o := SetOf(ids), OpenIds(rows);
    CountOpenWithIdIn(rows, s);
    RepeatedCard(ids);
    CardOfCommon(s, o);
  }

  /** So a batch whose entries all pass their assert raises ChangedAlready
      exactly when an entry names a row that is not open, or when an id is
      repeated. */
  lemma BulkSaveConflict(rows: seq<Row>, docs: seq<Copy>, documentStart: Option<int>, clock: int)
    requires UniqueIds(rows)
    requires FirstLate(docs, documentStart.GetOr(clock)) == |docs|
    ensures BulkSaveSpec(rows, docs, documentStart, clock).outcome == Fail(ChangedAlready) <==>
              !Distinct(IdsToCheck(docs)) ||
              exists d :: d in docs && d.docId != 0 && d.id != 0 && d.id !in OpenIds(rows)
  {
    if Distinct(IdsToCheck(docs)) {
      ConflictWhenNotOpen(rows, docs);
    } else {
      ConflictWhenRepeated(rows, docs);
    }
  }

  /** A batch that passes leaves no listed version and no listed document
      with an open old row: every new version is the only open one of its
      listed predecessor. */
  lemma BulkSaveClosesListed(rows: seq<Row>, docs: seq<Copy>, documentStart: Option<int>, clock: int)
    requires documentStart.GetOr(clock) <= FUTURE
    ensures var e := BulkSaveSpec(rows, docs, documentStart, clock);
            e.outcome == Pass ==>
              forall i :: 0 <= i < |rows| && (rows[i].id in IdsToCheck(docs) || rows[i].docId in DocsToClose(docs)) ==>
                !IsOpen(e.rows[i]) && (IsOpen(rows[i]) ==> e.rows[i].end == documentStart.GetOr(clock))
  {
  }

  /** A batch that raises ChangedAlready is not rolled back: the rows its
      listed ids named stay closed at the batch start, nothing is inserted,
      every version keeps its identity, and the copies keep their stamps. */
  lemma BulkConflictNoRollback(rows: seq<Row>, docs: seq<Copy>, documentStart: Option<int>, clock: int)
    requires documentStart.GetOr(clock) <= FUTURE
    ensures var e := BulkSaveSpec(rows, docs, documentStart, clock);
            e.outcome == Fail(ChangedAlready) ==>
              |e.rows| == |rows| && SameVersions(e.rows, rows) && MaxId(e.rows) == MaxId(rows) &&
              CountSelected(e.rows, OpenWithIdIn(SetOf(IdsToCheck(docs)))) == 0 &&
              e.docs == StampAll(docs, documentStart.GetOr(clock))
  {
    CloseSettles(rows, OpenWithIdIn(SetOf(IdsToCheck(docs))), documentStart.GetOr(clock), documentStart.GetOr(clock));
  }

  /** The ids two sets share are at most those of the first, and fewer when
      the first has one the second lacks. */
  lemma CardOfCommon(s: set<nat>, o: set<nat>)
    ensures |s * o| <= |s|
    ensures s - o != {} ==> |s * o| < |s|
  {
    assert s == (s * o) + (s - o);
    assert (s * o) * (s - o) == {};
  }

  lemma {:induction false} DistinctCard(s: seq<nat>)
    requires Distinct(s)
    ensures |SetOf(s)| == |s|
  {
    if s != [] {
      var front := s[..|s| - 1];
      assert s == front + [s[|s| - 1]];
      DistinctCard(front);
      assert SetOf(s) == SetOf(front) + {s[|s| - 1]};
      forall i | 0 <= i < |front| ensures front[i] != s[|s| - 1] {
        assert s[i] == front[i];
      }
    }
  }

  lemma {:induction false} CardAtMost(s: seq<nat>)
    ensures |SetOf(s)| <= |s|
  {
    if s != [] {
      var front := s[..|s| - 1];
      assert s == front + [s[|s| - 1]];
      CardAtMost(front);
      assert SetOf(s) == SetOf(front) + {s[|s| - 1]};
    }
  }

  lemma {:induction false} RepeatedCard(s: seq<nat>)
    requires !Distinct(s)
    ensures |SetOf(s)| < |s|
  {
    var front := s[..|s| - 1];
    var last := s[|s| - 1];
    assert s == front + [last];
    assert SetOf(s) == SetOf(front) + {last};
    var i, j :| 0 <= i < j < |s| && s[i] == s[j];
    if j == |s| - 1 {
      assert front[i] == last;
      assert SetOf(s) == SetOf(front);
      CardAtMost(front);
    } else {
      assert front[i] == front[j];
      RepeatedCard(front);
    }
  }

  // ------------------------------------------------------------ the object

  /**
   * An in-memory document: a Django model instance whose fields the
   * operations assign and whose table is `store`.
   */
  class Document {
    var id: nat
    var docId: nat
    var start: Option<int>
    var end: Option<int>
    var payload: int

    function Snapshot(): Copy
      reads this
    {
      Copy(id, docId, start, end, payload)
    }

    constructor (c: Copy)
      ensures Snapshot() == c
    {
      id, docId, start, end, payload := c.id, c.docId, c.start, c.end, c.payload;
    }

    /** document_save(document_start). */
    method Save(store: Store, documentStart: Option<int>, clock: int) returns (outcome: Outcome)
      requires store.Valid()
      modifies this, store
      ensures store.Valid()
      ensures Effect(store.rows, Snapshot(), outcome) == SaveSpec(old(store.rows), old(Snapshot()), documentStart, clock)
    {
      if start.Some? && documentStart.Some? && !(start.value <= documentStart.value) {
        return Fail(AssertionFailed);
      }
      var t := documentStart.GetOr(clock);
      start, end := Some(t), Some(MAX);
      if docId != 0 && id != 0 {
        var n := store.Update(OpenWithId(id, docId), t);
        if n != 1 {
          return Fail(ChangedAlready);
        }
      } else if docId != 0 {
        var _ := store.Update(OpenOfDoc(docId), t);
      }
      InsertVersion(store, t);
      outcome := Pass;
    }

    /** The end of document_save and document_restore: forget the id, insert
        the copy as a new row, and give a new document its own id as
        document_id. */
    method InsertVersion(store: Store, t: int)
      requires store.Valid()
      requires start == Some(t)
      modifies this, store
      ensures store.Valid()
      ensures Effect(store.rows, Snapshot(), Pass) == Inserted(old(store.rows), old(Snapshot()), t)
    {
      id := store.Insert(docId, t, MAX, payload);
      if docId == 0 {
        docId := id;
        store.SetDocId(id, docId);
      }
    }

    /** document_delete(delete_time): returns the number of rows closed. */
    method Delete(store: Store, deleteTime: Option<int>, clock: int) returns (n: nat)
      requires store.Valid()
      modifies store
      ensures store.Valid()
      ensures store.rows == CloseSelected(old(store.rows), OpenOfDoc(docId), deleteTime.GetOr(clock))
      ensures n == CountSelected(old(store.rows), OpenOfDoc(docId))
    {
      n := store.Update(OpenOfDoc(docId), deleteTime.GetOr(clock));
    }

    /** document_restore(document_start). */
    method Restore(store: Store, documentStart: Option<int>, clock: int) returns (outcome: Outcome)
      requires store.Valid()
      modifies this, store
      ensures store.Valid()
      ensures Effect(store.rows, Snapshot(), outcome) == RestoreSpec(old(store.rows), old(Snapshot()), documentStart, clock)
    {
      if docId == 0 {
        return Fail(AssertionFailed);
      }
      if end.None? {
        return Fail(NotComparable);
      }
      if end.value > FUTURE {
        return Pass;
      }
      var last := Latest(store.rows, docId);
      if last.None? {
        return Fail(DoesNotExist);
      }
      if documentStart.Some? && !(last.value.start < documentStart.value) {
        return Fail(AssertionFailed);
      }
      var t := documentStart.GetOr(clock);
      start, end := Some(t), Some(MAX);
      var _ := store.Update(OpenOfDoc(docId), t);
      InsertVersion(store, t);
      outcome := Pass;
    }
  }

  /** Document.bulk_documents_save(documents, document_start), for a list of
      distinct documents held as values in an array. */
  method BulkSave(store: Store, docs: array<Copy>, documentStart: Option<int>, clock: int) returns (outcome: Outcome)
    requires store.Valid()
    modifies store, docs
    ensures store.Valid()
    ensures BulkEffect(store.rows, docs[..], outcome) == BulkSaveSpec(old(store.rows), old(docs[..]), documentStart, clock)
  {
    var t := documentStart.GetOr(clock);
    ghost var given := docs[..];
    var ok, ids, dids := StampBatch(docs, t);
    if !ok {
      return Fail(AssertionFailed);
    }
    assert given[..docs.Length] == given && given[docs.Length..] == [];
    outcome := SaveStamped(store, docs, given, ids, dids, t);
  }

  /** bulk_documents_save after the first loop: the two updates, the new
      ids, and the insert. */
  method SaveStamped(store: Store, docs: array<Copy>, ghost given: seq<Copy>, ids: seq<nat>, dids: seq<nat>, t: int)
      returns (outcome: Outcome)
    requires store.Valid()
    requires docs[..] == StampAll(given, t)
    requires ids == IdsToCheck(given) && dids == DocsToClose(given)
    modifies store, docs
    ensures store.Valid()
    ensures BulkEffect(store.rows, docs[..], outcome) == BulkSaveChecked(old(store.rows), given, t)
  {
    ghost var rows := store.rows;
    if ids != [] {
      var n := store.Update(OpenWithIdIn(SetOf(ids)), t);
      if n != |ids| {
        return Fail(ChangedAlready);
      }
    }
    if dids != [] {
      var _ := store.Update(OpenOfDocIn(SetOf(dids)), t);
    }
    assert store.rows == BulkClose(rows, given, t);
    var newIds := BulkIds(store.rows, docs.Length);
    NumberBatch(docs, newIds);
    FreshRowsUnique(store.rows, given, docs[..], t);
    store.InsertAll(RowsOf(docs[..], t));
    outcome := Pass;
  }

  /** The first loop of bulk_documents_save: check and stamp each entry in
      turn, collecting the two id lists; stop at the first late entry. */
  method StampBatch(docs: array<Copy>, t: int) returns (ok: bool, ids: seq<nat>, dids: seq<nat>)
    modifies docs
    ensures var k := FirstLate(old(docs[..]), t);
            ok == (k == docs.Length) &&
            docs[..] == StampAll(old(docs[..])[..k], t) + old(docs[..])[k..]
    ensures ok ==> ids == IdsToCheck(old(docs[..])) && dids == DocsToClose(old(docs[..]))
  {
    ghost var given := docs[..];
    ids, dids := [], [];
    var i := 0;
    while i < docs.Length
      invariant 0 <= i <= docs.Length
      invariant forall j :: 0 <= j < i ==> !Late(given[j], t)
      invariant forall j :: 0 <= j < i ==> docs[j] == Stamp(given[j], t)
      invariant forall j :: i <= j < docs.Length ==> docs[j] == given[j]
      invariant ids == IdsToCheck(given[..i]) && dids == DocsToClose(given[..i])
    {
      var d := docs[i];
      if d.start.Some? && !(d.start.value <= t) {
        FirstLateAt(given, t, i);
        StampedUpTo(given, docs[..], i, t);
        return false, ids, dids;
      }
      docs[i] := Stamp(d, t);
      if d.docId != 0 && d.id != 0 {
        ids := ids + [d.id];
      } else if d.docId != 0 {
        dids := dids + [d.docId];
      }
      assert given[..i + 1][..i] == given[..i];
      i := i + 1;
    }
    assert given[..i] == given;
    FirstLateAt(given, t, i);
    StampedUpTo(given, docs[..], i, t);
    ok := true;
  }

  /** An array whose first `k` entries were stamped and whose others were
      left alone. */
  lemma StampedUpTo(given: seq<Copy>, now: seq<Copy>, k: nat, t: int)
    requires k <= |given| == |now|
    requires forall j :: 0 <= j < k ==> now[j] == Stamp(given[j], t)
    requires forall j :: k <= j < |now| ==> now[j] == given[j]
    ensures now == StampAll(given[..k], t) + given[k..]
  {
  }

  /** The entries before `i` pass their assert and the one at `i`, if any,
      fails it: `i` is the first late position. */
  lemma {:induction false} FirstLateAt(docs: seq<Copy>, t: int, i: nat)
    requires i <= |docs|
    requires forall j :: 0 <= j < i ==> !Late(docs[j], t)
    requires i < |docs| ==> Late(docs[i], t)
    ensures FirstLate(docs, t) == i
  {
    if i > 0 {
      FirstLateAt(docs[1..], t, i - 1);
    }
  }

  /** The second loop of bulk_documents_save: give each entry its new id, and
      that id as document_id where it had none. */
  method NumberBatch(docs: array<Copy>, newIds: seq<nat>)
    requires |newIds| == docs.Length
    modifies docs
    ensures docs[..] == AssignIds(old(docs[..]), newIds)
  {
    ghost var stamped := docs[..];
    var i := 0;
    while i < docs.Length
      invariant 0 <= i <= docs.Length
      invariant forall j :: 0 <= j < i ==> docs[j] == Assign(stamped[j], newIds[j])
      invariant forall j :: i <= j < docs.Length ==> docs[j] == stamped[j]
    {
      var d := docs[i];
      d := d.(id := newIds[i]);
      if d.docId == 0 {
        d := d.(docId := d.id);
      }
      docs[i] := d;
      i := i + 1;
    }
  }

  /** Rows numbered from the next id on extend a table with unique ids
      without a clash. */
  lemma FreshRowsUnique(rows: seq<Row>, given: seq<Copy>, saved: seq<Copy>, t: int)
    requires UniqueIds(rows)
    requires |saved| == |given|
    requires saved == AssignIds(StampAll(given, t), BulkIds(rows, |given|))
    ensures UniqueIds(rows + RowsOf(saved, t))
    ensures forall i :: 0 <= i < |saved| ==> RowsOf(saved, t)[i].id > 0
  {
    var added := RowsOf(saved, t);
    var all := rows + added;
    forall i | 0 <= i < |added| ensures added[i].id == MaxId(rows) + 1 + i {
    }
    forall a, b | 0 <= a < b < |all| ensures all[a].id != all[b].id {
      if a < |rows| {
        assert all[a] == rows[a];
        if b >= |rows| {
          assert all[b] == added[b - |rows|];
        } else {
          assert all[b] == rows[b];
        }
      } else {
        assert all[a] == added[a - |rows|] && all[b] == added[b - |rows|];
      }
    }
  }

  /** Document.bulk_documents_delete(documents, delete_time): an empty list
      returns 0 without touching the table. */
  method BulkDelete(store: Store, docs: seq<Copy>, deleteTime: Option<int>, clock: int) returns (n: nat)
    requires store.Valid()
    modifies store
    ensures store.Valid()
    ensures docs == [] ==> n == 0 && store.rows == old(store.rows)
    ensures docs != [] ==>
              var sel := OpenOfDocIn(set d | d in docs :: d.docId);
              store.rows == CloseSelected(old(store.rows), sel, deleteTime.GetOr(clock)) &&
              n == CountSelected(old(store.rows), sel)
  {
    if docs == [] {
      return 0;
    }
    n := store.Update(OpenOfDocIn(set d | d in docs :: d.docId), deleteTime.GetOr(clock));
  }
}

/**
 * fixdocuments_overlapping: one pass over the versions of a model in
 * (document_id, start, end) order repairs the intervals of a document that
 * overlap. For a version that starts inside the previous one it compares
 * the ends, reading an end beyond FUTURE as datetime.max:
 *   - if the new version ends first, the new version is deleted and the
 *     previous one stays the reference;
 *   - otherwise, if the new version starts later, the previous version is
 *     truncated to end where the new one starts;
 *   - otherwise (they start together) the previous version is deleted.
 * Each repair writes a warning.
 *
 * Step and Run are the pass on values; FixModel is the loop on the store.
 * The pass reads the ordered snapshot, which Scanner.Blocker yields exactly.
 */
module FixOverlapping {
  import opened Wrappers
  import opened Table
  import opened Diagnostics
  import Checker

  /** An end beyond FUTURE counts as datetime.max. */
  function Clamp(x: int): (c: int)
    ensures c <= MAX
    ensures x <= MAX ==> x <= c
    ensures x <= FUTURE ==> c == x
    ensures x > FUTURE ==> c == MAX
  {
    if x > FUTURE then MAX else x
  }

  /** The past values: id, document_id, start and end of the reference version. */
  datatype Ref = Ref(id: nat, docId: nat, start: int, end: int)

  /** A repair statement and the version it targets. */
  datatype Action =
    | RemoveNew(docId: nat, id: nat)             // the current version deleted
    | TruncateOld(docId: nat, id: nat, at: int)  // the reference version made to end at `at`
    | RemoveOld(docId: nat, id: nat)             // the reference version deleted

  /** What one iteration does and the past values it leaves. */
  datatype Visit = Visit(next: Ref, act: Option<Action>)

  /** One iteration of the loop over the snapshot. */
  function Step(ref: Option<Ref>, r: Row): Visit {
    if ref.Some? && ref.value.docId == r.docId && r.start < ref.value.end then
      var e, pe := Clamp(r.end), Clamp(ref.value.end);
      if e < pe then
        Visit(ref.value.(end := pe), Some(RemoveNew(r.docId, r.id)))
      else if r.start > ref.value.start then
        Visit(Ref(r.id, r.docId, r.start, e), Some(TruncateOld(r.docId, ref.value.id, r.start)))
      else
        Visit(Ref(r.id, r.docId, r.start, e), Some(RemoveOld(r.docId, ref.value.id)))
    else
      Visit(Ref(r.id, r.docId, r.start, r.end), None)
  }

  function Done(v: Visit): seq<Action> {
    if v.act.Some? then [v.act.value] else []
  }

  /** The state of the pass: the past values and the repairs so far. */
  datatype Fix = Fix(ref: Option<Ref>, actions: seq<Action>)

  /** The pass over a snapshot. */
  function Run(snap: seq<Row>): Fix {
    if snap == [] then Fix(None, [])
    else
      var p := Run(snap[..|snap| - 1]);
      var v := Step(p.ref, snap[|snap| - 1]);
      Fix(Some(v.next), p.actions + Done(v))
  }

  /** The statement a repair executes. */
  function Apply(rows: seq<Row>, a: Action): seq<Row> {
    match a
    case TruncateOld(_, id, at) => WithEnd(rows, WithId(id), at)
    case _ => Without(rows, WithId(a.id))
  }

  function ApplyAll(rows: seq<Row>, acts: seq<Action>): seq<Row> {
    if acts == [] then rows
    else Apply(ApplyAll(rows, acts[..|acts| - 1]), acts[|acts| - 1])
  }

  /** The warning a repair writes. */
  function Warn(a: Action): Line {
    match a
    case RemoveNew(d, id) => Line(Warning, NewOverlapRemoved(d, id))
    case TruncateOld(d, id, _) => Line(Warning, OldOverlapTruncated(d, id))
    case RemoveOld(d, id) => Line(Warning, OverlapRemoved(d, id))
  }

  function Warnings(acts: seq<Action>): seq<Line> {
    if acts == [] then []
    else Warnings(acts[..|acts| - 1]) + [Warn(acts[|acts| - 1])]
  }

  /** The table fix_model leaves behind. */
  function Fixed(rows: seq<Row>): seq<Row> {
    ApplyAll(rows, Run(Checker.Snapshot(rows)).actions)
  }

  /** fix_model: the repairs of the pass executed on the table, one warning each. */
  method FixModel(store: Store, log: Log)
    requires store.Valid()
    modifies store, log
    ensures store.Valid()
    ensures store.rows == Fixed(old(store.rows))
    ensures log.lines == old(log.lines) + [Line(Info, FixingModel)] + Warnings(Run(Checker.Snapshot(old(store.rows))).actions)
  {
    log.Info(FixingModel);
    Repair(store, log, Checker.Snapshot(store.rows));
  }

  /** The loop of fix_model over the versions it reads. */
  method Repair(store: Store, log: Log, snap: seq<Row>)
    requires store.Valid()
    modifies store, log
    ensures store.Valid()
    ensures store.rows == ApplyAll(old(store.rows), Run(snap).actions)
    ensures log.lines == old(log.lines) + Warnings(Run(snap).actions)
  {
    ghost var rows0, l1 := store.rows, log.lines;
    var pid: nat, pdid: Option<nat>, ps: int, pe: int := 0, None, 0, 0;
    for i := 0 to |snap|
      invariant store.Valid()
      invariant Run(snap[..i]).ref == if pdid.Some? then Some(Ref(pid, pdid.value, ps, pe)) else None
      invariant store.rows == ApplyAll(rows0, Run(snap[..i]).actions)
      invariant log.lines == l1 + Warnings(Run(snap[..i]).actions)
    {
      var id, did, s, e := snap[i].id, snap[i].docId, snap[i].start, snap[i].end;
      ghost var p := Run(snap[..i]);
      ghost var v := Step(p.ref, snap[i]);
      ghost var written := log.lines;
      RunStep(snap, i);
      if pdid == Some(did) && s < pe {
        if e > FUTURE {
          e := MAX;
        }
        if pe > FUTURE {
          pe := MAX;
        }
        assert e == Clamp(snap[i].end) && pe == Clamp(p.ref.value.end);
        if e < pe {
          assert v == Visit(p.ref.value.(end := pe), Some(RemoveNew(did, id)));
          Perform(store, log, RemoveNew(did, id));
          Extend(rows0, l1, p.actions, RemoveNew(did, id));
          continue;
        }
        if s > ps {
          assert v == Visit(Ref(id, did, s, e), Some(TruncateOld(did, pid, s)));
          Perform(store, log, TruncateOld(did, pid, s));
          Extend(rows0, l1, p.actions, TruncateOld(did, pid, s));
        } else {
          assert v == Visit(Ref(id, did, s, e), Some(RemoveOld(did, pid)));
          Perform(store, log, RemoveOld(did, pid));
          Extend(rows0, l1, p.actions, RemoveOld(did, pid));
        }
      } else {
        assert v == Visit(Ref(id, did, s, e), None);
        assert p.actions + Done(v) == p.actions;
      }
      pid, pdid, ps, pe := id, Some(did), s, e;
    }
    assert snap[..|snap|] == snap;
  }

  /** One more iteration of the pass. */
  lemma RunStep(snap: seq<Row>, i: nat)
    requires i < |snap|
    ensures Run(snap[..i + 1]) == Fix(Some(Step(Run(snap[..i]).ref, snap[i]).next), Run(snap[..i]).actions + Done(Step(Run(snap[..i]).ref, snap[i])))
  {
    assert snap[..i + 1][..i] == snap[..i];
  }

  /** One repair: the statement on the table and the warning that follows it. */
  method Perform(store: Store, log: Log, a: Action)
    requires store.Valid()
    modifies store, log
    ensures store.Valid()
    ensures store.rows == Apply(old(store.rows), a)
    ensures log.lines == old(log.lines) + [Warn(a)]
  {
    match a
    case RemoveNew(did, id) =>
      store.Delete(WithId(id));
      log.Warning(NewOverlapRemoved(did, id));
    case TruncateOld(did, pid, s) =>
      var _ := store.SetEnd(WithId(pid), s);
      log.Warning(OldOverlapTruncated(did, pid));
    case RemoveOld(did, pid) =>
      store.Delete(WithId(pid));
      log.Warning(OverlapRemoved(did, pid));
  }

  /** The table and the protocol after one more repair. */
  lemma Extend(rows: seq<Row>, lines: seq<Line>, acts: seq<Action>, a: Action)
    ensures ApplyAll(rows, acts + [a]) == Apply(ApplyAll(rows, acts), a)
    ensures lines + Warnings(acts + [a]) == lines + Warnings(acts) + [Warn(a)]
  {
    Snoc(rows, acts, a);
  }

  /** One more repair. */
  lemma Snoc(rows: seq<Row>, acts: seq<Action>, a: Action)
    ensures ApplyAll(rows, acts + [a]) == Apply(ApplyAll(rows, acts), a)
    ensures Warnings(acts + [a]) == Warnings(acts) + [Warn(a)]
  {
    assert (acts + [a])[..|acts|] == acts;
  }

  // ------------------------------------------------ what the repairs leave

  /** The input the proofs assume: the snapshot order, unique ids (the
      database's key) and no end beyond datetime.max (a Python datetime
      cannot exceed it). */
  predicate Input(snap: seq<Row>) {
    Sorted(ByDocStartEnd, snap) && UniqueIds(snap) && forall r :: r in snap ==> r.end <= MAX
  }

  /** The visited versions after the repairs so far. */
  function Kept(snap: seq<Row>, i: nat): seq<Row>
    requires i <= |snap|
  {
    ApplyAll(snap[..i], Run(snap[..i]).actions)
  }

  predicate DocOrdered(k: seq<Row>) {
    forall j, l :: 0 <= j < l < |k| ==> k[j].docId <= k[l].docId
  }

  /** Each kept version of a document ends before any later one starts. */
  predicate Chained(k: seq<Row>) {
    forall j, l :: 0 <= j < l < |k| && k[j].docId == k[l].docId ==> k[j].end <= k[l].start
  }

  /** Kept versions are neither among the versions still to visit nor after them. */
  predicate Ahead(k: seq<Row>, snap: seq<Row>, i: nat) {
    forall x, m :: x in k && i <= m < |snap| ==>
      x.id != snap[m].id && (x.docId < snap[m].docId || (x.docId == snap[m].docId && x.start <= snap[m].start))
  }

  /** No repair so far targets a version still to visit. */
  predicate ActsAhead(acts: seq<Action>, snap: seq<Row>, i: nat) {
    forall a, m :: a in acts && i <= m < |snap| ==> a.id != snap[m].id
  }

  /** The past values describe the last kept version, with its end possibly
      read as datetime.max. */
  predicate Tracks(ref: Option<Ref>, k: seq<Row>) {
    if ref.None? then k == []
    else
      k != [] && k[|k| - 1].id == ref.value.id && k[|k| - 1].docId == ref.value.docId &&
      k[|k| - 1].start == ref.value.start && k[|k| - 1].end <= ref.value.end <= MAX
  }

  predicate Inv(snap: seq<Row>, i: nat, k: seq<Row>, ref: Option<Ref>) {
    UniqueIds(k) && DocOrdered(k) && Chained(k) && Ahead(k, snap, i) && Tracks(ref, k) &&
    (Forward(snap) ==> Forward(k))
  }

  /** The kept versions after one more iteration. */
  function NextKept(k: seq<Row>, ref: Option<Ref>, r: Row): seq<Row>
    requires Tracks(ref, k)
  {
    var v := Step(ref, r);
    match v.act
    case None => k + [r]
    case Some(a) =>
      match a
      case RemoveNew(_, _) => k
      case TruncateOld(_, _, at) => k[..|k| - 1] + [k[|k| - 1].(end := at), r]
      case RemoveOld(_, _) => k[..|k| - 1] + [r]
  }

  /** A repair of another version leaves a version appended at the end in place. */
  lemma ApplySnoc(rows: seq<Row>, r: Row, a: Action)
    requires a.id != r.id
    ensures Apply(rows + [r], a) == Apply(rows, a) + [r]
  {
    assert (rows + [r])[..|rows|] == rows;
  }

  lemma {:induction false} ApplyAllSnoc(rows: seq<Row>, r: Row, acts: seq<Action>)
    requires forall a :: a in acts ==> a.id != r.id
    ensures ApplyAll(rows + [r], acts) == ApplyAll(rows, acts) + [r]
  {
    if acts != [] {
      var front := acts[..|acts| - 1];
      assert forall a :: a in front ==> a in acts;
      ApplyAllSnoc(rows, r, front);
      ApplySnoc(ApplyAll(rows, front), r, acts[|acts| - 1]);
    }
  }

  /** With unique ids, updating the last version's id changes only the last version. */
  lemma WithEndLast(k: seq<Row>, at: int)
    requires k != [] && UniqueIds(k)
    ensures WithEnd(k, WithId(k[|k| - 1].id), at) == k[..|k| - 1] + [k[|k| - 1].(end := at)]
  {
  }

  /** With unique ids, deleting the last version's id deletes only the last version. */
  lemma WithoutLast(k: seq<Row>)
    requires k != [] && UniqueIds(k)
    ensures Without(k, WithId(k[|k| - 1].id)) == k[..|k| - 1]
  {
    var front := k[..|k| - 1];
    forall x | x in front ensures !Matches(WithId(k[|k| - 1].id), x) {
      var j :| 0 <= j < |front| && front[j] == x;
      assert k[j] == x;
    }
    WithoutNone(front, WithId(k[|k| - 1].id));
  }

  /** The kept versions after one more iteration are the repair applied to
      the kept versions followed by the visited one. */
  lemma NextKeptIs(k: seq<Row>, ref: Option<Ref>, r: Row)
    requires Tracks(ref, k) && UniqueIds(k)
    requires forall x :: x in k ==> x.id != r.id
    ensures NextKept(k, ref, r) == if Step(ref, r).act.Some? then Apply(k + [r], Step(ref, r).act.value) else k + [r]
  {
    match Step(ref, r).act
    case None =>
    case Some(a) =>
      match a
      case RemoveNew(_, id) =>
        assert id == r.id;
        assert (k + [r])[..|k|] == k;
        WithoutNone(k, WithId(r.id));
      case TruncateOld(_, id, at) =>
        assert id == k[|k| - 1].id;
        ApplySnoc(k, r, a);
        WithEndLast(k, at);
      case RemoveOld(_, id) =>
        assert id == k[|k| - 1].id;
        ApplySnoc(k, r, a);
        WithoutLast(k);
  }

  lemma KeptStep(snap: seq<Row>, i: nat, k: seq<Row>, p: Fix)
    requires i < |snap| && k == Kept(snap, i) && p == Run(snap[..i])
    requires Tracks(p.ref, k) && UniqueIds(k)
    requires forall x :: x in k ==> x.id != snap[i].id
    requires forall a :: a in p.actions ==> a.id != snap[i].id
    ensures Kept(snap, i + 1) == NextKept(k, p.ref, snap[i])
  {
    var v := Step(p.ref, snap[i]);
    var front := snap[..i + 1];
    RunStep(snap, i);
    assert Kept(snap, i + 1) == ApplyAll(front, p.actions + Done(v));
    VisitedKept(snap, i, k, p.actions);
    NextKeptIs(k, p.ref, snap[i]);
    if v.act.Some? {
      Snoc(front, p.actions, v.act.value);
    } else {
      assert p.actions + Done(v) == p.actions;
    }
  }

  /** The repairs so far leave the version just visited in place, behind the kept ones. */
  lemma VisitedKept(snap: seq<Row>, i: nat, k: seq<Row>, acts: seq<Action>)
    requires i < |snap| && k == ApplyAll(snap[..i], acts)
    requires forall a :: a in acts ==> a.id != snap[i].id
    ensures ApplyAll(snap[..i + 1], acts) == k + [snap[i]]
  {
    assert snap[..i + 1] == snap[..i] + [snap[i]];
    ApplyAllSnoc(snap[..i], snap[i], acts);
  }

  /** The shape of the kept versions survives appending a version that no
      kept version is after or overlaps. */
  lemma AppendShape(k: seq<Row>, r: Row)
    requires UniqueIds(k) && DocOrdered(k) && Chained(k)
    requires forall x :: x in k ==> x.id != r.id && x.docId <= r.docId && (x.docId == r.docId ==> x.end <= r.start)
    ensures UniqueIds(k + [r]) && DocOrdered(k + [r]) && Chained(k + [r])
  {
    UniqueSnoc(k, r);
    var k' := k + [r];
    forall j, l | 0 <= j < l < |k'| ensures k'[j].docId <= k'[l].docId && (k'[j].docId == k'[l].docId ==> k'[j].end <= k'[l].start) {
      assert k'[j] == k[j] && k[j] in k;
      if l < |k| {
        assert k'[l] == k[l];
      }
    }
  }

  /** Dropping the last kept version keeps the shape. */
  lemma FrontShape(k: seq<Row>, snap: seq<Row>, i: nat)
    requires k != [] && UniqueIds(k) && DocOrdered(k) && Chained(k) && Ahead(k, snap, i)
    ensures UniqueIds(k[..|k| - 1]) && DocOrdered(k[..|k| - 1]) && Chained(k[..|k| - 1]) && Ahead(k[..|k| - 1], snap, i)
    ensures Forward(k) ==> Forward(k[..|k| - 1])
  {
    var f := k[..|k| - 1];
    assert forall j :: 0 <= j < |f| ==> f[j] == k[j];
    assert forall x :: x in f ==> x in k;
  }

  /** Moving the end of the last kept version keeps the shape. */
  lemma TruncateShape(k: seq<Row>, snap: seq<Row>, i: nat, at: int)
    requires k != [] && UniqueIds(k) && DocOrdered(k) && Chained(k) && Ahead(k, snap, i)
    ensures var t := k[..|k| - 1] + [k[|k| - 1].(end := at)];
      UniqueIds(t) && DocOrdered(t) && Chained(t) && Ahead(t, snap, i) &&
      (Forward(k) && k[|k| - 1].start <= at ==> Forward(t))
  {
    var n := |k| - 1;
    var t := k[..n] + [k[n].(end := at)];
    assert |t| == |k|;
    assert forall j :: 0 <= j < n ==> t[j] == k[j];
    assert t[n].id == k[n].id && t[n].docId == k[n].docId && t[n].start == k[n].start;
    forall x | x in t ensures x in k[..n] || x == k[n].(end := at) { }
    assert k[n] in k;
  }

  /** The sorted order: a visited version is not after a later one. */
  lemma AheadAppend(snap: seq<Row>, i: nat, k: seq<Row>)
    requires Input(snap) && i < |snap| && Ahead(k, snap, i)
    ensures Ahead(k + [snap[i]], snap, i + 1)
  {
    forall x, m | x in k + [snap[i]] && i + 1 <= m < |snap|
      ensures x.id != snap[m].id && (x.docId < snap[m].docId || (x.docId == snap[m].docId && x.start <= snap[m].start))
    {
      if x == snap[i] {
        assert Le(ByDocStartEnd, snap[i], snap[m]);
      } else {
        assert x in k;
      }
    }
  }

  /** An iteration without repair. */
  lemma AppendKeeps(snap: seq<Row>, i: nat, k: seq<Row>, ref: Option<Ref>)
    requires Input(snap) && i < |snap| && Inv(snap, i, k, ref)
    requires Step(ref, snap[i]).act.None?
    ensures Inv(snap, i + 1, k + [snap[i]], Some(Step(ref, snap[i]).next))
  {
    var r := snap[i];
    assert r in snap;
    forall x | x in k ensures x.id != r.id && x.docId <= r.docId && (x.docId == r.docId ==> x.end <= r.start) {
      var j :| 0 <= j < |k| && k[j] == x;
      var n := |k| - 1;
      assert k[n] in k;
      if j < n && x.docId == r.docId {
        assert k[j].docId <= k[n].docId;
      }
    }
    AppendShape(k, r);
    AheadAppend(snap, i, k);
  }

  /** An iteration that deletes the current version. */
  lemma RemoveNewKeeps(snap: seq<Row>, i: nat, k: seq<Row>, ref: Option<Ref>)
    requires Input(snap) && i < |snap| && Inv(snap, i, k, ref)
    requires Step(ref, snap[i]).act.Some? && Step(ref, snap[i]).act.value.RemoveNew?
    ensures Inv(snap, i + 1, k, Some(Step(ref, snap[i]).next))
  {
  }

  /** An iteration that truncates the reference version. */
  lemma TruncateKeeps(snap: seq<Row>, i: nat, k: seq<Row>, ref: Option<Ref>)
    requires Input(snap) && i < |snap| && Inv(snap, i, k, ref)
    requires Step(ref, snap[i]).act.Some? && Step(ref, snap[i]).act.value.TruncateOld?
    ensures Inv(snap, i + 1, NextKept(k, ref, snap[i]), Some(Step(ref, snap[i]).next))
  {
    var r := snap[i];
    var n := |k| - 1;
    var t := k[..n] + [k[n].(end := r.start)];
    TruncateShape(k, snap, i, r.start);
    TruncatedBefore(k, snap, i);
    AppendShape(t, r);
    AheadAppend(snap, i, t);
    assert NextKept(k, ref, r) == t + [r];
  }

  /** Truncated at the current version's start, the kept versions all come
      before the current one. */
  lemma TruncatedBefore(k: seq<Row>, snap: seq<Row>, i: nat)
    requires i < |snap| && k != [] && DocOrdered(k) && Chained(k) && Ahead(k, snap, i)
    requires k[|k| - 1].docId == snap[i].docId && k[|k| - 1].start < snap[i].start
    ensures var r, n := snap[i], |k| - 1;
      forall x :: x in k[..n] + [k[n].(end := r.start)] ==>
        x.id != r.id && x.docId <= r.docId && (x.docId == r.docId ==> x.end <= r.start)
  {
    var r, n := snap[i], |k| - 1;
    var t := k[..n] + [k[n].(end := r.start)];
    assert k[n] in k;
    forall x | x in t ensures x.id != r.id && x.docId <= r.docId && (x.docId == r.docId ==> x.end <= r.start) {
      if x != t[n] {
        var j :| 0 <= j < n && t[j] == x;
        assert k[j] == x && k[j] in k && k[j].docId <= k[n].docId;
      }
    }
  }

  /** An iteration that deletes the reference version. */
  lemma RemoveOldKeeps(snap: seq<Row>, i: nat, k: seq<Row>, ref: Option<Ref>)
    requires Input(snap) && i < |snap| && Inv(snap, i, k, ref)
    requires Step(ref, snap[i]).act.Some? && Step(ref, snap[i]).act.value.RemoveOld?
    ensures Inv(snap, i + 1, NextKept(k, ref, snap[i]), Some(Step(ref, snap[i]).next))
  {
    var r := snap[i];
    assert r in snap;
    var n := |k| - 1;
    var f := k[..n];
    FrontShape(k, snap, i);
    assert k[n] in k;
    forall x | x in f ensures x.id != r.id && x.docId <= r.docId && (x.docId == r.docId ==> x.end <= r.start) {
      var j :| 0 <= j < n && f[j] == x;
      assert k[j] == x && k[j].docId <= k[n].docId;
    }
    AppendShape(f, r);
    AheadAppend(snap, i, f);
  }

  /** Every iteration keeps the invariant, and no repair made so far
      targets a version still to come. */
  lemma {:induction false} PassInvariant(snap: seq<Row>, i: nat)
    requires Input(snap) && i <= |snap|
    ensures Inv(snap, i, Kept(snap, i), Run(snap[..i]).ref)
    ensures ActsAhead(Run(snap[..i]).actions, snap, i)
  {
    if i > 0 {
      var j := i - 1;
      PassInvariant(snap, j);
      var k, p := Kept(snap, j), Run(snap[..j]);
      KeptStep(snap, j, k, p);
      RunStep(snap, j);
      StepKeeps(snap, j, k, p.ref);
      StepActsAhead(snap, j, k, p);
    }
  }

  /** One iteration keeps the invariant, whichever way it goes. */
  lemma StepKeeps(snap: seq<Row>, j: nat, k: seq<Row>, ref: Option<Ref>)
    requires Input(snap) && j < |snap| && Inv(snap, j, k, ref)
    ensures Inv(snap, j + 1, NextKept(k, ref, snap[j]), Some(Step(ref, snap[j]).next))
  {
    match Step(ref, snap[j]).act {
      case None => AppendKeeps(snap, j, k, ref);
      case Some(a) =>
        match a {
          case RemoveNew(_, _) => RemoveNewKeeps(snap, j, k, ref);
          case TruncateOld(_, _, _) => TruncateKeeps(snap, j, k, ref);
          case RemoveOld(_, _) => RemoveOldKeeps(snap, j, k, ref);
        }
    }
  }

  /** A repair targets the visited version or the last kept one, neither of
      which is still to come. */
  lemma StepActsAhead(snap: seq<Row>, j: nat, k: seq<Row>, p: Fix)
    requires Input(snap) && j < |snap| && Inv(snap, j, k, p.ref) && ActsAhead(p.actions, snap, j)
    ensures ActsAhead(p.actions + Done(Step(p.ref, snap[j])), snap, j + 1)
  {
    var v := Step(p.ref, snap[j]);
    if v.act.Some? {
      var a := v.act.value;
      forall m | j + 1 <= m < |snap| ensures a.id != snap[m].id {
        if a.RemoveNew? {
          assert a.id == snap[j].id;
        } else {
          assert k[|k| - 1] in k;
        }
      }
    }
  }

  /** After the pass the surviving versions of a document follow one
      another without overlap, and an ordered interval stays ordered. */
  lemma PassChains(snap: seq<Row>)
    requires Input(snap)
    ensures var k := ApplyAll(snap, Run(snap).actions);
            UniqueIds(k) && Chained(k) && (Forward(snap) ==> Forward(k))
  {
    PassInvariant(snap, |snap|);
    assert snap[..|snap|] == snap;
  }

  /** Which versions the repairs leave depends only on which versions there were. */
  lemma {:induction false} ApplyAllSameRows(a: seq<Row>, b: seq<Row>, acts: seq<Action>)
    requires forall x :: x in a <==> x in b
    ensures forall x :: x in ApplyAll(a, acts) <==> x in ApplyAll(b, acts)
  {
    if acts != [] {
      var front, last := acts[..|acts| - 1], acts[|acts| - 1];
      ApplyAllSameRows(a, b, front);
      match last
      case TruncateOld(_, id, at) => WithEndSameRows(ApplyAll(a, front), ApplyAll(b, front), WithId(id), at);
      case _ => WithoutSameRows(ApplyAll(a, front), ApplyAll(b, front), WithId(last.id));
    }
  }

  /** The repairs keep the ids a key. */
  lemma {:induction false} ApplyAllKeepsIds(rows: seq<Row>, acts: seq<Action>)
    requires UniqueIds(rows) && forall i :: 0 <= i < |rows| ==> rows[i].id > 0
    ensures UniqueIds(ApplyAll(rows, acts))
    ensures forall i :: 0 <= i < |ApplyAll(rows, acts)| ==> ApplyAll(rows, acts)[i].id > 0
  {
    if acts != [] {
      var front, last := acts[..|acts| - 1], acts[|acts| - 1];
      ApplyAllKeepsIds(rows, front);
      var w := ApplyAll(rows, front);
      match last
      case TruncateOld(_, id, at) =>
        var u := WithEnd(w, WithId(id), at);
        assert forall i :: 0 <= i < |u| ==> u[i].id == w[i].id;
      case _ => WithoutKeepsIds(w, WithId(last.id));
    }
  }

  /** A version that survives the repairs is a version of the table with
      the same id, document, start and payload: no start ever changes. */
  predicate Descends(after: seq<Row>, before: seq<Row>) {
    forall x :: x in after ==> exists y :: y in before && x.(end := y.end) == y
  }

  lemma {:induction false} ApplyAllDescends(rows: seq<Row>, acts: seq<Action>)
    ensures Descends(ApplyAll(rows, acts), rows)
  {
    if acts != [] {
      var front, last := acts[..|acts| - 1], acts[|acts| - 1];
      ApplyAllDescends(rows, front);
      var w := ApplyAll(rows, front);
      match last
      case TruncateOld(_, id, at) =>
        var u := WithEnd(w, WithId(id), at);
        forall x | x in u ensures exists y :: y in rows && x.(end := y.end) == y {
          var i :| 0 <= i < |u| && u[i] == x;
          assert w[i] in w && x.(end := w[i].end) == w[i];
        }
      case _ =>
        WithoutMembers(w, WithId(last.id));
    }
  }

  /** The ids a repair can name: some visited version has that id and that
      document. */
  predicate Names(s: seq<Row>, id: nat, docId: nat) {
    exists y :: y in s && y.id == id && y.docId == docId
  }

  /** Every repair of the pass names a version of the snapshot under its
      own document, and so do the past values. */
  lemma {:induction false} RunNames(s: seq<Row>)
    ensures forall a :: a in Run(s).actions ==> Names(s, a.id, a.docId)
    ensures Run(s).ref.Some? ==> Names(s, Run(s).ref.value.id, Run(s).ref.value.docId)
  {
    if s != [] {
      var front, r := s[..|s| - 1], s[|s| - 1];
      RunNames(front);
      assert s == front + [r];
      var p := Run(front);
      forall id, docId | Names(front, id, docId) ensures Names(s, id, docId) {
        var y :| y in front && y.id == id && y.docId == docId;
        assert y in s;
      }
    }
  }

  /** Within one document, each version starts no earlier than the end of
      the version just before it in the snapshot. */
  predicate SuccessiveFor(s: seq<Row>, d: nat) {
    forall i :: 0 < i < |s| && s[i - 1].docId == d && s[i].docId == d ==> s[i - 1].end <= s[i].start
  }

  /** The past values always belong to the document of the last visited version. */
  lemma RunRef(s: seq<Row>)
    requires s != []
    ensures Run(s).ref.Some? && Run(s).ref.value.docId == s[|s| - 1].docId
  {
  }

  /** The pass repairs nothing in a document whose versions already follow
      one another, and while it is in that document its past values are
      exactly the last version visited. */
  lemma {:induction false} QuietFor(s: seq<Row>, d: nat)
    requires SuccessiveFor(s, d)
    ensures forall a :: a in Run(s).actions ==> a.docId != d
    ensures s != [] && s[|s| - 1].docId == d ==>
              var x := s[|s| - 1];
              Run(s).ref == Some(Ref(x.id, x.docId, x.start, x.end))
  {
    if s != [] {
      var n := |s| - 1;
      var front, r := s[..n], s[n];
      assert SuccessiveFor(front, d) by {
        forall i | 0 < i < |front| && front[i - 1].docId == d && front[i].docId == d
          ensures front[i - 1].end <= front[i].start
        {
          assert front[i - 1] == s[i - 1] && front[i] == s[i];
        }
      }
      QuietFor(front, d);
      if front != [] {
        RunRef(front);
        assert front[n - 1] == s[n - 1];
      }
    }
  }

  /** A version that no repair names survives the repairs unchanged, and a
      version that survives unnamed was there before. */
  lemma {:induction false} ApplyAllFrame(rows: seq<Row>, acts: seq<Action>, x: Row)
    requires forall a :: a in acts ==> a.id != x.id
    ensures x in ApplyAll(rows, acts) <==> x in rows
  {
    if acts != [] {
      var front, last := acts[..|acts| - 1], acts[|acts| - 1];
      assert forall a :: a in front ==> a in acts;
      ApplyAllFrame(rows, front, x);
      var w := ApplyAll(rows, front);
      match last
      case TruncateOld(_, id, at) =>
        var u := WithEnd(w, WithId(id), at);
        if x in w {
          var i :| 0 <= i < |w| && w[i] == x;
          assert u[i] == x;
        }
        if x in u {
          var i :| 0 <= i < |u| && u[i] == x;
          assert w[i] == x;
        }
      case _ =>
        WithoutMembers(w, WithId(last.id));
    }
  }

  /** fix_model touches only versions a repair names: every other version
      of the table is in the result unchanged, and nothing else of that id
      appears. */
  lemma FixedFrame(rows: seq<Row>, x: Row)
    requires forall a :: a in Run(Checker.Snapshot(rows)).actions ==> a.id != x.id
    ensures x in Fixed(rows) <==> x in rows
  {
    ApplyAllFrame(rows, Run(Checker.Snapshot(rows)).actions, x);
  }

  /** fix_model repairs only documents with overlapping neighbours: every
      repair belongs to a document whose ordered versions overlap, and a
      document whose ordered versions follow one another keeps exactly its
      versions, whatever happens to the other documents. */
  lemma FixedPerDocument(rows: seq<Row>, d: nat)
    requires UniqueIds(rows)
    ensures forall a :: a in Run(Checker.Snapshot(rows)).actions ==> !SuccessiveFor(Checker.Snapshot(rows), a.docId)
    ensures SuccessiveFor(Checker.Snapshot(rows), d) ==>
              forall x: Row :: x.docId == d ==> (x in Fixed(rows) <==> x in rows)
  {
    var snap := Checker.Snapshot(rows);
    var acts := Run(snap).actions;
    PermutationMembers(snap, rows);
    forall a | a in acts ensures !SuccessiveFor(snap, a.docId) {
      if SuccessiveFor(snap, a.docId) {
        QuietFor(snap, a.docId);
      }
    }
    if SuccessiveFor(snap, d) {
      QuietFor(snap, d);
      RunNames(snap);
      ApplyAllDescends(rows, acts);
      forall x: Row | x.docId == d && (x in rows || x in Fixed(rows)) ensures x in Fixed(rows) <==> x in rows {
        var y :| y in rows && x.(end := y.end) == y;
        forall a | a in acts ensures a.id != x.id {
          var z :| z in snap && z.id == a.id && z.docId == a.docId;
          if a.id == x.id {
            SameId(rows, y, z);
          }
        }
        FixedFrame(rows, x);
      }
    }
  }

  /** Ids are a key: two rows of the table with one id are the same row. */
  lemma SameId(rows: seq<Row>, y: Row, z: Row)
    requires UniqueIds(rows) && y in rows && z in rows && y.id == z.id
    ensures y == z
  {
    var i :| 0 <= i < |rows| && rows[i] == y;
    var j :| 0 <= j < |rows| && rows[j] == z;
    assert !(i < j) && !(j < i);
  }

  /** A pass over an ordered snapshot in which each version of a document
      starts no earlier than its predecessor's end repairs nothing. */
  lemma {:induction false} QuietRun(snap: seq<Row>)
    requires Successive(snap)
    ensures Run(snap).actions == []
    ensures snap != [] ==>
              var x := snap[|snap| - 1];
              Run(snap).ref == Some(Ref(x.id, x.docId, x.start, x.end))
  {
    if snap != [] {
      var n := |snap| - 1;
      var front := snap[..n];
      assert Successive(front) by {
        forall i | 0 < i < |front| && front[i - 1].docId == front[i].docId ensures front[i - 1].end <= front[i].start {
          assert front[i - 1] == snap[i - 1] && front[i] == snap[i];
        }
      }
      QuietRun(front);
      if front != [] {
        assert front[n - 1] == snap[n - 1];
      }
    }
  }

  /** fix_model leaves a table alone when no two neighbouring versions of
      a document overlap in (document_id, start, end) order. */
  lemma FixedWhenSuccessive(rows: seq<Row>)
    requires Successive(Checker.Snapshot(rows))
    ensures Fixed(rows) == rows
  {
    QuietRun(Checker.Snapshot(rows));
  }

  /** After fix_model (on a table whose keys are ids and whose ends are at
      most datetime.max) the versions of each document are pairwise
      disjoint, ordered intervals stay ordered, and every version is one
      of the table's with only its end possibly moved. */
  lemma FixedDisjoint(rows: seq<Row>)
    requires UniqueIds(rows) && forall i :: 0 <= i < |rows| ==> rows[i].id > 0 && rows[i].end <= MAX
    ensures UniqueIds(Fixed(rows)) && PairwiseDisjoint(Fixed(rows))
    ensures Forward(rows) ==> Forward(Fixed(rows))
    ensures Descends(Fixed(rows), rows)
  {
    var snap := Checker.Snapshot(rows);
    var acts := Run(snap).actions;
    SnapshotInput(rows);
    PassChains(snap);
    var k := ApplyAll(snap, acts);
    ChainedDisjoint(k);
    ApplyAllSameRows(rows, snap, acts);
    SameRowsCarry(k, Fixed(rows));
    ApplyAllKeepsIds(rows, acts);
    ApplyAllDescends(rows, acts);
  }

  /** The ordered snapshot of a table with ids as key and ends at most
      datetime.max is an input the pass accepts, with the table's rows. */
  lemma SnapshotInput(rows: seq<Row>)
    requires UniqueIds(rows) && forall i :: 0 <= i < |rows| ==> rows[i].end <= MAX
    ensures Input(Checker.Snapshot(rows))
    ensures forall x :: x in Checker.Snapshot(rows) <==> x in rows
    ensures Forward(rows) ==> Forward(Checker.Snapshot(rows))
  {
    PermutationMembers(Checker.Snapshot(rows), rows);
  }

  /** Versions chained in order are pairwise disjoint. */
  lemma ChainedDisjoint(k: seq<Row>)
    requires Chained(k)
    ensures PairwiseDisjoint(k)
  {
    forall a, b | a in k && b in k && a != b && a.docId == b.docId ensures Disjoint(a, b) {
      var j :| 0 <= j < |k| && k[j] == a;
      var l :| 0 <= l < |k| && k[l] == b;
      assert j < l || l < j;
    }
  }

  /** Disjointness and ordered intervals depend only on which versions there are. */
  lemma SameRowsCarry(a: seq<Row>, b: seq<Row>)
    requires forall x :: x in a <==> x in b
    ensures PairwiseDisjoint(a) ==> PairwiseDisjoint(b)
    ensures Forward(a) ==> Forward(b)
  {
  }

  /** fix_model is idempotent: on a table with ordered intervals, ids as
      key and ends at most datetime.max, a second run changes nothing. */
  lemma FixedIdempotent(rows: seq<Row>)
    requires UniqueIds(rows) && Forward(rows)
    requires forall i :: 0 <= i < |rows| ==> rows[i].id > 0 && rows[i].end <= MAX
    ensures Fixed(Fixed(rows)) == Fixed(rows)
  {
    var f := Fixed(rows);
    FixedDisjoint(rows);
    DisjointInOrder(f);
    FixedWhenSuccessive(f);
  }
}

/**
 * The versioned table that every part of the system works on: one row per
 * version of a document, the instants that bound a version, the row filters
 * the conditional updates use, ORDER BY, and the table itself as an object
 * whose rows the store's statements change.
 */
module Table {
  import opened Wrappers

  /** Instants are integers. MIN stands for datetime.min, FUTURE for
      datetime(3000, 1, 1) and MAX for datetime.max. */
  const MIN: int := 0
  const FUTURE: int := 1_000_000
  const MAX: int := 2_000_000

  /** One version of a document, valid over [start, end). An `id` or a
      `docId` of 0 stands for "not assigned yet". */
  datatype Row = Row(id: nat, docId: nat, start: int, end: int, payload: int)

  /** The code treats a row as the open (current) version as soon as its end
      lies beyond FUTURE, not only when the end equals MAX. */
  predicate IsOpen(r: Row) {
    r.end > FUTURE
  }

  /** The WHERE clauses of the conditional updates. Each of them also
      requires the row to be open. */
  datatype Selector =
    | OpenWithId(id: nat, docId: nat)
    | OpenOfDoc(docId: nat)
    | OpenWithIdIn(ids: set<nat>)
    | OpenOfDocIn(docIds: set<nat>)

  predicate Selects(sel: Selector, r: Row) {
    IsOpen(r) &&
    match sel
    case OpenWithId(i, d) => r.id == i && r.docId == d
    case OpenOfDoc(d) => r.docId == d
    case OpenWithIdIn(ids) => r.id in ids
    case OpenOfDocIn(ds) => r.docId in ds
  }

  /** UPDATE ... SET document_end = t WHERE sel. */
  function CloseSelected(rows: seq<Row>, sel: Selector, t: int): (r: seq<Row>)
    ensures |r| == |rows|
    ensures forall i :: 0 <= i < |rows| ==>
              r[i] == if Selects(sel, rows[i]) then rows[i].(end := t) else rows[i]
  {
    seq(|rows|, i requires 0 <= i < |rows| =>
      if Selects(sel, rows[i]) then rows[i].(end := t) else rows[i])
  }

  /** The number of rows that UPDATE ... WHERE sel reports as affected. */
  function CountSelected(rows: seq<Row>, sel: Selector): nat {
    if rows == [] then 0
    else CountSelected(rows[..|rows| - 1], sel) + (if Selects(sel, rows[|rows| - 1]) then 1 else 0)
  }

  /** An update that affects no row leaves the table as it was. */
  lemma {:induction false} NothingSelected(rows: seq<Row>, sel: Selector, t: int)
    requires CountSelected(rows, sel) == 0
    ensures CloseSelected(rows, sel, t) == rows
  {
    NoneSelected(rows, sel);
  }

  lemma {:induction false} NoneSelected(rows: seq<Row>, sel: Selector)
    requires CountSelected(rows, sel) == 0
    ensures forall i :: 0 <= i < |rows| ==> !Selects(sel, rows[i])
  {
    if rows != [] {
      NoneSelected(rows[..|rows| - 1], sel);
      forall i | 0 <= i < |rows| - 1 ensures rows[i] == rows[..|rows| - 1][i] { }
    }
  }

  /** An update whose filter matches no row affects none. */
  lemma {:induction false} CountNone(rows: seq<Row>, sel: Selector)
    requires forall i :: 0 <= i < |rows| ==> !Selects(sel, rows[i])
    ensures CountSelected(rows, sel) == 0
  {
    if rows != [] {
      var front := rows[..|rows| - 1];
      assert forall i :: 0 <= i < |front| ==> front[i] == rows[i];
      CountNone(front, sel);
    }
  }

  /** The WHERE clauses of the maintenance commands' queries. */
  datatype Filter =
    | StartAfter(t: int)              // document_start__gt=t
    | EndWithin(lo: int, hi: int)     // document_end__range=(lo, hi), both ends included
    | EndAfter(t: int)                // document_end__gt=t
    | EndAfterExcept(t: int, but: int) // document_end__gt=t, excluding document_end=but
    | EndBefore(t: int)               // document_end__lt=t
    | EndAtStart                      // document_end=F('document_start')
    | EndBeforeStart                  // document_end__lt=F('document_start')
    | StartNotBeforeEnd               // document_start__gte=F('document_end')
    | WithId(id: nat)                 // id=id

  predicate Matches(f: Filter, r: Row) {
    match f
    case StartAfter(t) => r.start > t
    case EndWithin(lo, hi) => lo <= r.end <= hi
    case EndAfter(t) => r.end > t
    case EndAfterExcept(t, but) => r.end > t && r.end != but
    case EndBefore(t) => r.end < t
    case EndAtStart => r.end == r.start
    case EndBeforeStart => r.end < r.start
    case StartNotBeforeEnd => r.start >= r.end
    case WithId(i) => r.id == i
  }

  /** filter(f).count() */
  function CountMatching(rows: seq<Row>, f: Filter): nat {
    if rows == [] then 0
    else CountMatching(rows[..|rows| - 1], f) + (if Matches(f, rows[|rows| - 1]) then 1 else 0)
  }

  /** filter(f), in table order. */
  function Where(rows: seq<Row>, f: Filter): seq<Row> {
    if rows == [] then []
    else Where(rows[..|rows| - 1], f) + (if Matches(f, rows[|rows| - 1]) then [rows[|rows| - 1]] else [])
  }

  /** The table after filter(f).delete(). */
  function Without(rows: seq<Row>, f: Filter): seq<Row> {
    if rows == [] then []
    else Without(rows[..|rows| - 1], f) + (if Matches(f, rows[|rows| - 1]) then [] else [rows[|rows| - 1]])
  }

  /** The table after filter(f).update(document_end=t). */
  function WithEnd(rows: seq<Row>, f: Filter, t: int): (r: seq<Row>)
    ensures |r| == |rows|
    ensures forall i :: 0 <= i < |rows| ==>
              r[i] == if Matches(f, rows[i]) then rows[i].(end := t) else rows[i]
  {
    seq(|rows|, i requires 0 <= i < |rows| =>
      if Matches(f, rows[i]) then rows[i].(end := t) else rows[i])
  }

  /** The table after update(document_start=t) on every row. */
  function WithStart(rows: seq<Row>, t: int): (r: seq<Row>)
    ensures |r| == |rows|
    ensures forall i :: 0 <= i < |rows| ==> r[i] == rows[i].(start := t)
  {
    seq(|rows|, i requires 0 <= i < |rows| => rows[i].(start := t))
  }

  /** The count of a filter is the number of rows it returns, and it is
      zero exactly when no row matches. */
  lemma {:induction false} CountIsWhere(rows: seq<Row>, f: Filter)
    ensures CountMatching(rows, f) == |Where(rows, f)|
    ensures CountMatching(rows, f) == 0 <==> forall r :: r in rows ==> !Matches(f, r)
  {
    if rows != [] {
      var front := rows[..|rows| - 1];
      CountIsWhere(front, f);
      assert rows == front + [rows[|rows| - 1]];
    }
  }

  /** filter(f) returns exactly the matching rows. */
  lemma {:induction false} WhereMembers(rows: seq<Row>, f: Filter)
    ensures forall r :: r in Where(rows, f) <==> r in rows && Matches(f, r)
  {
    if rows != [] {
      var front := rows[..|rows| - 1];
      WhereMembers(front, f);
      assert rows == front + [rows[|rows| - 1]];
    }
  }

  /** A delete removes exactly the matching rows, as many as the filter
      counts, and keeps the others in order. */
  lemma {:induction false} WithoutMembers(rows: seq<Row>, f: Filter)
    ensures |Without(rows, f)| == |rows| - CountMatching(rows, f)
    ensures forall r :: r in Without(rows, f) <==> r in rows && !Matches(f, r)
  {
    if rows != [] {
      var front := rows[..|rows| - 1];
      WithoutMembers(front, f);
      assert rows == front + [rows[|rows| - 1]];
    }
  }

  /** A delete keeps the ids unique and positive. */
  lemma {:induction false} WithoutKeepsIds(rows: seq<Row>, f: Filter)
    requires UniqueIds(rows) && forall i :: 0 <= i < |rows| ==> rows[i].id > 0
    ensures UniqueIds(Without(rows, f))
    ensures forall i :: 0 <= i < |Without(rows, f)| ==> Without(rows, f)[i].id > 0
  {
    if rows != [] {
      var front, x := rows[..|rows| - 1], rows[|rows| - 1];
      assert UniqueIds(front) && forall i :: 0 <= i < |front| ==> front[i].id > 0 by {
        forall i | 0 <= i < |front| ensures front[i] == rows[i] { }
      }
      WithoutKeepsIds(front, f);
      if !Matches(f, x) {
        var w := Without(front, f);
        WithoutMembers(front, f);
        forall y | y in w ensures y.id != x.id {
          var k :| 0 <= k < |front| && front[k] == y;
          assert rows[k] == y;
        }
        UniqueSnoc(w, x);
      }
    }
  }

  lemma UniqueSnoc(w: seq<Row>, x: Row)
    requires UniqueIds(w) && forall y :: y in w ==> y.id != x.id
    ensures UniqueIds(w + [x])
  {
    forall i, j | 0 <= i < j < |w + [x]| ensures (w + [x])[i].id != (w + [x])[j].id {
      assert (w + [x])[i] == w[i];
      if j < |w| {
        assert (w + [x])[j] == w[j];
      }
    }
  }

  /** The largest id in the table, 0 for an empty table (Max('id') or 0). */
  function MaxId(rows: seq<Row>): (m: nat)
    ensures forall i :: 0 <= i < |rows| ==> rows[i].id <= m
    ensures rows == [] ==> m == 0
  {
    if rows == [] then 0
    else
      var m' := MaxId(rows[..|rows| - 1]);
      assert forall i :: 0 <= i < |rows| - 1 ==> rows[i] == rows[..|rows| - 1][i];
      if rows[|rows| - 1].id > m' then rows[|rows| - 1].id else m'
  }

  /** The largest id is the id of some row. */
  lemma {:induction false} MaxIdAttained(rows: seq<Row>)
    requires rows != []
    ensures exists i :: 0 <= i < |rows| && rows[i].id == MaxId(rows)
  {
    var front := rows[..|rows| - 1];
    if front != [] && MaxId(front) >= rows[|rows| - 1].id {
      MaxIdAttained(front);
      var i :| 0 <= i < |front| && front[i].id == MaxId(front);
      assert rows[i] == front[i];
    } else {
      assert rows[|rows| - 1].id == MaxId(rows);
    }
  }

  /** The largest id depends on the ids alone. */
  lemma {:induction false} MaxIdOfSameIds(a: seq<Row>, b: seq<Row>)
    requires |a| == |b| && forall i :: 0 <= i < |a| ==> a[i].id == b[i].id
    ensures MaxId(a) == MaxId(b)
  {
    if a != [] {
      var fa, fb := a[..|a| - 1], b[..|b| - 1];
      assert forall i :: 0 <= i < |fa| ==> fa[i] == a[i] && fb[i] == b[i];
      MaxIdOfSameIds(fa, fb);
    }
  }

  /** The closing update moves ends only, so it keeps the ids and the next
      id; closing at an instant not beyond FUTURE leaves no selected row
      open, so the same update once more affects nothing and changes nothing. */
  lemma CloseSettles(rows: seq<Row>, sel: Selector, t: int, later: int)
    requires t <= FUTURE
    ensures var r := CloseSelected(rows, sel, t);
            MaxId(r) == MaxId(rows) && (UniqueIds(rows) ==> UniqueIds(r)) &&
            CountSelected(r, sel) == 0 && CloseSelected(r, sel, later) == r
  {
    var r := CloseSelected(rows, sel, t);
    MaxIdOfSameIds(r, rows);
    CountNone(r, sel);
  }

  /** The primary key: no two rows share an id. */
  predicate UniqueIds(rows: seq<Row>) {
    forall i, j :: 0 <= i < j < |rows| ==> rows[i].id != rows[j].id
  }

  /** Two versions do not overlap as half-open intervals. */
  predicate Disjoint(a: Row, b: Row) {
    a.end <= b.start || b.end <= a.start
  }

  /** The interval invariant of the version store: ids are a key, every
      interval is ordered, every end is either MAX or not beyond FUTURE,
      and within one document versions are pairwise disjoint and at most
      one of them is open. */
  predicate Consistent(rows: seq<Row>) {
    UniqueIds(rows) &&
    (forall r :: r in rows ==> WellFormed(r)) &&
    (forall a, b :: a in rows && b in rows && a != b ==> Compatible(a, b))
  }

  /** Both ids assigned, the interval ordered, the end MAX or not beyond FUTURE. */
  predicate WellFormed(r: Row) {
    r.id > 0 && r.docId > 0 && r.start <= r.end && (r.end <= FUTURE || r.end == MAX)
  }

  /** Two versions of the same document are disjoint and not both open. */
  predicate Compatible(a: Row, b: Row) {
    a.docId == b.docId ==> Disjoint(a, b) && !(IsOpen(a) && IsOpen(b))
  }

  /** Under the invariant, a row is open (end > FUTURE) exactly when its
      end is datetime.max. */
  lemma OpenMeansMax(rows: seq<Row>, r: Row)
    requires Consistent(rows) && r in rows
    ensures IsOpen(r) <==> r.end == MAX
  {
  }

  // ORDER BY

  /** The three orders the code asks the database for. */
  datatype Order =
    | ByDocStartEnd  // order_by('document_id', 'document_start', 'document_end')
    | ByDocId        // order_by('document_id', 'id')
    | ByStartDesc    // order_by('-document_start')

  predicate Le(o: Order, a: Row, b: Row) {
    match o
    case ByDocStartEnd =>
      a.docId < b.docId ||
      (a.docId == b.docId && (a.start < b.start || (a.start == b.start && a.end <= b.end)))
    case ByDocId => a.docId < b.docId || (a.docId == b.docId && a.id <= b.id)
    case ByStartDesc => a.start >= b.start
  }

  lemma LeTransitive(o: Order, a: Row, b: Row, c: Row)
    requires Le(o, a, b) && Le(o, b, c)
    ensures Le(o, a, c)
  {
  }

  predicate Sorted(o: Order, s: seq<Row>) {
    forall i, j :: 0 <= i < j < |s| ==> Le(o, s[i], s[j])
  }

  function Insert(o: Order, x: Row, s: seq<Row>): (r: seq<Row>)
    requires Sorted(o, s)
    ensures Sorted(o, r)
    ensures multiset(r) == multiset(s) + multiset{x}
  {
    if s == [] then [x]
    else if Le(o, x, s[0]) then
      InsertFront(o, x, s);
      [x] + s
    else
      assert s == [s[0]] + s[1..];
      var rest := Insert(o, x, s[1..]);
      InsertBehind(o, x, s, rest);
      [s[0]] + rest
  }

  /** Inserting a row whose id is new keeps the ids unique. */
  lemma {:induction false} InsertUnique(o: Order, x: Row, s: seq<Row>)
    requires Sorted(o, s) && UniqueIds(s) && forall y :: y in s ==> y.id != x.id
    ensures UniqueIds(Insert(o, x, s))
  {
    if s == [] {
    } else if Le(o, x, s[0]) {
      UniqueCons(x, s);
    } else {
      assert s == [s[0]] + s[1..];
      var rest := Insert(o, x, s[1..]);
      assert UniqueIds(s[1..]) by {
        forall i, j | 0 <= i < j < |s[1..]| ensures s[1..][i].id != s[1..][j].id {
          assert s[1..][i] == s[i + 1] && s[1..][j] == s[j + 1];
        }
      }
      InsertUnique(o, x, s[1..]);
      InsertedIdsFresh(x, s, rest);
      UniqueCons(s[0], rest);
    }
  }

  lemma InsertedIdsFresh(x: Row, s: seq<Row>, rest: seq<Row>)
    requires s != [] && multiset(rest) == multiset(s[1..]) + multiset{x}
    ensures UniqueIds(s) && (forall y :: y in s ==> y.id != x.id) ==> forall y :: y in rest ==> y.id != s[0].id
  {
    forall y | y in rest && UniqueIds(s) && (forall z :: z in s ==> z.id != x.id) ensures y.id != s[0].id {
      assert y in multiset(rest);
      if y != x {
        assert y in multiset(s[1..]);
        var k :| 0 <= k < |s[1..]| && s[1..][k] == y;
        assert s[k + 1] == y;
      }
    }
  }

  lemma InsertFront(o: Order, x: Row, s: seq<Row>)
    requires Sorted(o, s) && s != [] && Le(o, x, s[0])
    ensures Sorted(o, [x] + s)
  {
    forall j | 0 <= j < |s| ensures Le(o, x, s[j]) {
      if j > 0 { LeTransitive(o, x, s[0], s[j]); }
    }
  }

  lemma InsertBehind(o: Order, x: Row, s: seq<Row>, rest: seq<Row>)
    requires Sorted(o, s) && s != [] && !Le(o, x, s[0])
    requires Sorted(o, rest) && multiset(rest) == multiset(s[1..]) + multiset{x}
    ensures Sorted(o, [s[0]] + rest)
  {
    forall k | 0 <= k < |rest| ensures Le(o, s[0], rest[k]) {
      assert rest[k] in multiset(rest);
      if rest[k] != x {
        assert rest[k] in multiset(s[1..]);
        var m :| 0 <= m < |s[1..]| && s[1..][m] == rest[k];
        assert s[m + 1] == rest[k];
      }
    }
  }

  lemma UniqueCons(y: Row, rest: seq<Row>)
    ensures UniqueIds(rest) && (forall z :: z in rest ==> z.id != y.id) ==> UniqueIds([y] + rest)
  {
    if UniqueIds(rest) && forall z :: z in rest ==> z.id != y.id {
      forall i, j | 0 <= i < j < |[y] + rest| ensures ([y] + rest)[i].id != ([y] + rest)[j].id {
        if i == 0 { assert ([y] + rest)[j] == rest[j - 1]; }
        else { assert ([y] + rest)[i] == rest[i - 1] && ([y] + rest)[j] == rest[j - 1]; }
      }
    }
  }

  /** A stable ORDER BY: a sorted permutation of the rows. The database
      leaves the order of rows with equal keys open; this model fixes one. */
  function Sort(o: Order, s: seq<Row>): (r: seq<Row>)
    ensures Sorted(o, r)
    ensures multiset(r) == multiset(s)
    ensures UniqueIds(s) ==> UniqueIds(r)
  {
    if s == [] then []
    else
      var rest := Sort(o, s[1..]);
      assert s == [s[0]] + s[1..];
      assert UniqueIds(s) ==> UniqueIds(s[1..]) && forall y :: y in rest ==> y.id != s[0].id by {
        if UniqueIds(s) {
          forall y | y in rest ensures y.id != s[0].id {
            assert y in multiset(s[1..]);
            var k :| 0 <= k < |s[1..]| && s[1..][k] == y;
            assert s[k + 1] == y;
          }
        }
      }
      if UniqueIds(s) then
        InsertUnique(o, s[0], rest);
        Insert(o, s[0], rest)
      else
        Insert(o, s[0], rest)
  }

  /** Two permutations of each other have the same members. */
  lemma PermutationMembers(a: seq<Row>, b: seq<Row>)
    requires multiset(a) == multiset(b)
    ensures forall x :: x in a <==> x in b
  {
    forall x ensures x in a <==> x in b {
      assert x in a <==> x in multiset(a);
      assert x in b <==> x in multiset(b);
    }
  }

  /** Every interval is ordered: no version ends before it starts. */
  predicate Forward(rows: seq<Row>) {
    forall r :: r in rows ==> r.start <= r.end
  }

  /** Any two versions of one document are disjoint. */
  predicate PairwiseDisjoint(rows: seq<Row>) {
    forall a, b :: a in rows && b in rows && a != b && a.docId == b.docId ==> Disjoint(a, b)
  }

  /** In a sequence of rows, each version of a document starts no earlier
      than the end of the version just before it. */
  predicate Successive(s: seq<Row>) {
    forall i :: 0 < i < |s| && s[i - 1].docId == s[i].docId ==> s[i - 1].end <= s[i].start
  }

  /** Ordered by (document_id, start, end), ordered and pairwise disjoint
      versions follow one another: a zero-length version sorts before the
      version it shares its start with. */
  lemma DisjointInOrder(rows: seq<Row>)
    requires UniqueIds(rows) && Forward(rows) && PairwiseDisjoint(rows)
    ensures Successive(Sort(ByDocStartEnd, rows))
  {
    var s := Sort(ByDocStartEnd, rows);
    PermutationMembers(s, rows);
    forall i | 0 < i < |s| && s[i - 1].docId == s[i].docId ensures s[i - 1].end <= s[i].start {
      var a, b := s[i - 1], s[i];
      assert a in rows && b in rows;
      assert a != b by {
        assert a.id != b.id;
      }
      FollowingPair(a, b);
    }
  }

  lemma FollowingPair(a: Row, b: Row)
    requires Le(ByDocStartEnd, a, b) && a.docId == b.docId && b.start <= b.end && Disjoint(a, b)
    ensures a.end <= b.start
  {
  }

  /** A delete that matches no row leaves the table as it is. */
  lemma WithoutNone(rows: seq<Row>, f: Filter)
    requires forall r :: r in rows ==> !Matches(f, r)
    ensures Without(rows, f) == rows
  {
    forall i | 0 <= i < |rows| ensures !Matches(f, rows[i]) {
      assert rows[i] in rows;
    }
    WithoutNoneAt(rows, f);
  }

  lemma {:induction false} WithoutNoneAt(rows: seq<Row>, f: Filter)
    requires forall i :: 0 <= i < |rows| ==> !Matches(f, rows[i])
    ensures Without(rows, f) == rows
  {
    if rows != [] {
      var front := rows[..|rows| - 1];
      assert forall i :: 0 <= i < |front| ==> front[i] == rows[i];
      WithoutNoneAt(front, f);
      assert rows == front + [rows[|rows| - 1]];
    }
  }

  /** Which rows an update leaves depends only on which rows there were. */
  lemma WithEndSameRows(a: seq<Row>, b: seq<Row>, f: Filter, t: int)
    requires forall x :: x in a <==> x in b
    ensures forall x :: x in WithEnd(a, f, t) <==> x in WithEnd(b, f, t)
  {
    forall x | x in WithEnd(a, f, t) ensures x in WithEnd(b, f, t) {
      var i :| 0 <= i < |a| && WithEnd(a, f, t)[i] == x;
      assert a[i] in b;
      var j :| 0 <= j < |b| && b[j] == a[i];
      assert WithEnd(b, f, t)[j] == x;
    }
    forall x | x in WithEnd(b, f, t) ensures x in WithEnd(a, f, t) {
      var j :| 0 <= j < |b| && WithEnd(b, f, t)[j] == x;
      assert b[j] in a;
      var i :| 0 <= i < |a| && a[i] == b[j];
      assert WithEnd(a, f, t)[i] == x;
    }
  }

  /** Which rows a delete leaves depends only on which rows there were. */
  lemma WithoutSameRows(a: seq<Row>, b: seq<Row>, f: Filter)
    requires forall x :: x in a <==> x in b
    ensures forall x :: x in Without(a, f) <==> x in Without(b, f)
  {
    WithoutMembers(a, f);
    WithoutMembers(b, f);
  }

  /** The rows after `docId` was written into the row with this id. */
  function WithDocId(rows: seq<Row>, id: nat, docId: nat): (r: seq<Row>)
    ensures |r| == |rows|
    ensures forall i :: 0 <= i < |rows| ==>
              r[i] == if rows[i].id == id then rows[i].(docId := docId) else rows[i]
  {
    seq(|rows|, i requires 0 <= i < |rows| =>
      if rows[i].id == id then rows[i].(docId := docId) else rows[i])
  }

  /**
   * The table (one Django model's rows). The code changes it only through
   * the statements below; the model keeps the rows in a sequence.
   */
  class Store {
    var rows: seq<Row>

    /** The database's own guarantee: ids are positive and unique. */
    ghost predicate Valid()
      reads this
    {
      UniqueIds(rows) && forall i :: 0 <= i < |rows| ==> rows[i].id > 0
    }

    constructor ()
      ensures rows == [] && Valid()
    {
      rows := [];
    }

    /** UPDATE ... SET document_end = t WHERE sel; returns the affected count. */
    method Update(sel: Selector, t: int) returns (n: nat)
      requires Valid()
      modifies this
      ensures Valid()
      ensures rows == CloseSelected(old(rows), sel, t)
      ensures n == CountSelected(old(rows), sel)
    {
      n := CountSelected(rows, sel);
      rows := CloseSelected(rows, sel, t);
    }

    /** INSERT of one row; the id is the next free rowid (largest id plus one). */
    method Insert(docId: nat, start: int, end: int, payload: int) returns (id: nat)
      requires Valid()
      modifies this
      ensures Valid()
      ensures id == MaxId(old(rows)) + 1
      ensures rows == old(rows) + [Row(id, docId, start, end, payload)]
    {
      id := MaxId(rows) + 1;
      rows := rows + [Row(id, docId, start, end, payload)];
    }

    /** save(force_update=True) of the row with this id after only its
        document_id changed in memory. */
    method SetDocId(id: nat, docId: nat)
      requires Valid()
      modifies this
      ensures Valid()
      ensures rows == WithDocId(old(rows), id, docId)
    {
      rows := WithDocId(rows, id, docId);
    }

    /** filter(f).delete() */
    method Delete(f: Filter)
      requires Valid()
      modifies this
      ensures Valid()
      ensures rows == Without(old(rows), f)
    {
      WithoutKeepsIds(rows, f);
      rows := Without(rows, f);
    }

    /** filter(f).update(document_end=t); returns the affected count. */
    method SetEnd(f: Filter, t: int) returns (n: nat)
      requires Valid()
      modifies this
      ensures Valid()
      ensures rows == WithEnd(old(rows), f, t)
      ensures n == CountMatching(old(rows), f)
    {
      n := CountMatching(rows, f);
      rows := WithEnd(rows, f, t);
    }

    /** update(document_start=t) on every row; returns the affected count. */
    method SetStart(t: int) returns (n: nat)
      requires Valid()
      modifies this
      ensures Valid()
      ensures rows == WithStart(old(rows), t)
      ensures n == |old(rows)|
    {
      n := |rows|;
      rows := WithStart(rows, t);
    }

    /** bulk_create of rows whose ids were allocated beforehand. */
    method InsertAll(added: seq<Row>)
      requires Valid()
      requires UniqueIds(rows + added) && forall i :: 0 <= i < |added| ==> added[i].id > 0
      modifies this
      ensures Valid()
      ensures rows == old(rows) + added
    {
      rows := rows + added;
    }
  }
}

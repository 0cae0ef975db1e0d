/**
 * The integrity check of documents/management/commands/documentscheck.py
 * (check_model): four aggregate counts, one error line per row whose end
 * lies before its start, and one pass over the table in
 * (document_id, document_start, document_end) order. The pass compares
 * each row with the row before it and counts active overlaps, past
 * overlaps and holes.
 *
 * The pass reads the ordered snapshot directly; Scanner.Blocker yields
 * exactly that snapshot (Scanner.SnapshotKeySorted, Scanner.Blocker).
 */
module Checker {
  import opened Wrappers
  import opened Table
  import opened Diagnostics

  /** The rows in the order the pass reads them. */
  function Snapshot(rows: seq<Row>): seq<Row> {
    Sort(ByDocStartEnd, rows)
  }

  // --------------------------------------------------------------- counts

  /** A count reported as a warning when non-zero and as info otherwise. */
  function Tell(n: nat, some: Message, none: Message): Line {
    if n > 0 then Line(Warning, some) else Line(Info, none)
  }

  /** The opening line and the three counts about the dates. */
  function AggregateLines(rows: seq<Row>, now: int): seq<Line> {
    var future := CountMatching(rows, StartAfter(now));
    var ending := CountMatching(rows, EndWithin(now, FUTURE));
    var beyond := CountMatching(rows, EndAfter(MAX));
    [Line(Info, CheckingModel),
     Tell(future, StartingInFuture(future), NoneStartingInFuture),
     Tell(ending, EndingInFuture(ending), NoneEndingInFuture),
     Tell(beyond, EndingAfterMax(beyond), NoneEndingAfterMax)]
  }

  /** The rows whose end lies before their start, in (document_id, id) order. */
  function Inverted(rows: seq<Row>): seq<Row> {
    Sort(ByDocId, Where(rows, EndBeforeStart))
  }

  /** One error per row. */
  function InvertedErrors(inv: seq<Row>): (r: seq<Line>)
    ensures |r| == |inv|
    ensures forall i :: 0 <= i < |inv| ==> r[i] == Line(Error, StartAfterEnd(inv[i].docId, inv[i].id))
  {
    seq(|inv|, i requires 0 <= i < |inv| => Line(Error, StartAfterEnd(inv[i].docId, inv[i].id)))
  }

  /** The lines of the start > end check: one error per such row and the
      total as an error, or an info line when there is none. */
  function InvertedLines(rows: seq<Row>): seq<Line> {
    var inv := Inverted(rows);
    InvertedErrors(inv) +
    [if |inv| > 0 then Line(Error, StartAfterEndTotal(|inv|)) else Line(Info, NoStartAfterEnd)]
  }

  function PhantomLine(rows: seq<Row>): Line {
    var n := CountMatching(rows, EndAtStart);
    Tell(n, Phantoms(n), NoPhantoms)
  }

  // ----------------------------------------------------------------- pass

  /** What comparing a row with the row before it finds. */
  datatype Finding = Nothing | ActiveOverlap | PastOverlap(until: int) | Hole

  /** The row before position `i` of the pass, if any. */
  function Before(snap: seq<Row>, i: nat): Option<Row>
    requires i < |snap|
  {
    if i == 0 then None else Some(snap[i - 1])
  }

  /** The comparison the pass makes: only a predecessor of the same document
      counts; a row starting before the predecessor's end overlaps it, and
      the overlap is active when the smaller of the two ends lies beyond
      FUTURE, past when it does not and differs from the start; a row
      starting after the predecessor's end leaves a hole. */
  function Compare(prev: Option<Row>, r: Row): Finding {
    if prev.Some? && prev.value.docId == r.docId then
      var pe := prev.value.end;
      if r.start < pe then
        var em := if pe <= r.end then pe else r.end;
        if em > FUTURE then ActiveOverlap
        else if em != r.start then PastOverlap(em)
        else Nothing
      else if r.start > pe then Hole
      else Nothing
    else Nothing
  }

  /** The pass's counters: h, c, ec and the bounds cmin, cmax, ecmin. */
  datatype Tally = Tally(holes: nat, past: nat, active: nat, pastFrom: int, pastUntil: int, activeSince: int)

  /** h = c = ec = 0; cmin = datetime.max, cmax = datetime.min, ecmin = datetime.max. */
  const NoTally: Tally := Tally(0, 0, 0, MAX, MIN, MAX)

  /** The counters after one comparison at a row starting at `s`. */
  function Counted(t: Tally, f: Finding, s: int): Tally {
    match f
    case Nothing => t
    case ActiveOverlap =>
      t.(active := t.active + 1, activeSince := if t.activeSince > s then s else t.activeSince)
    case PastOverlap(em) =>
      t.(past := t.past + 1,
         pastFrom := if t.pastFrom > s then s else t.pastFrom,
         pastUntil := if t.pastUntil < em then em else t.pastUntil)
    case Hole => t.(holes := t.holes + 1)
  }

  /** The line a comparison writes, if any. */
  function FindingLines(prev: Option<Row>, r: Row, f: Finding): seq<Line> {
    var pid := if prev.Some? then prev.value.id else 0;
    match f
    case Nothing => []
    case ActiveOverlap => [Line(Warning, OverlappedNow(r.docId, pid, r.id, r.start))]
    case PastOverlap(em) => [Line(Info, OverlappedInPast(r.docId, pid, r.id, r.start, em))]
    case Hole => [Line(Info, HoleBetween(r.docId, pid, r.id))]
  }

  /** The counters after the pass over `snap`. */
  function PassTally(snap: seq<Row>): Tally {
    if snap == [] then NoTally
    else
      var n := |snap| - 1;
      Counted(PassTally(snap[..n]), Compare(Before(snap, n), snap[n]), snap[n].start)
  }

  /** The lines the pass over `snap` writes. */
  function PassLines(snap: seq<Row>): seq<Line> {
    if snap == [] then []
    else
      var n := |snap| - 1;
      PassLines(snap[..n]) + FindingLines(Before(snap, n), snap[n], Compare(Before(snap, n), snap[n]))
  }

  /** The three totals that close the check. */
  function TotalLines(t: Tally): seq<Line> {
    [if t.past > 0 then Line(Warning, PastOverlapsTotal(t.past, t.pastFrom, t.pastUntil)) else Line(Info, NoPastOverlaps),
     if t.active > 0 then Line(Error, ActiveOverlapsTotal(t.active, t.activeSince)) else Line(Info, NoActiveOverlaps),
     Tell(t.holes, HolesTotal(t.holes), NoHoles)]
  }

  /** Every line check_model writes, in order. */
  function Report(rows: seq<Row>, now: int): seq<Line> {
    AggregateLines(rows, now) + InvertedLines(rows) + [PhantomLine(rows)] +
    PassLines(Snapshot(rows)) + TotalLines(PassTally(Snapshot(rows)))
  }

  // ------------------------------------------------------------- methods

  /** check_model. `now` is the wall clock it reads. */
  method CheckModel(log: Log, rows: seq<Row>, now: int) returns (t: Tally)
    modifies log
    ensures log.lines == old(log.lines) + Report(rows, now)
    ensures t == PassTally(Snapshot(rows))
  {
    ghost var l0 := log.lines;
    ReportAggregates(log, rows, now);
    ReportInverted(log, rows);
    var c := CountMatching(rows, EndAtStart);
    if c > 0 {
      log.Warning(Phantoms(c));
    } else {
      log.Info(NoPhantoms);
    }
    ghost var l1 := log.lines;
    var snap := Snapshot(rows);
    t := Pass(log, snap);
    ReportTotals(log, t);
    ghost var a, i, p, pl, tl := AggregateLines(rows, now), InvertedLines(rows), [PhantomLine(rows)], PassLines(snap), TotalLines(t);
    assert l1 == l0 + a + i + p;
    assert log.lines == l1 + pl + tl;
    assert Report(rows, now) == a + i + p + pl + tl;
    Assoc(l0, a, i);
    Assoc(l0, a + i, p);
    Assoc(l0, a + i + p, pl);
    Assoc(l0, a + i + p + pl, tl);
  }

  lemma Assoc(x: seq<Line>, y: seq<Line>, z: seq<Line>)
    ensures x + y + z == x + (y + z)
  {
  }

  /** The opening line and the counts of rows starting in the future,
      ending between now and FUTURE, and ending after datetime.max. */
  method ReportAggregates(log: Log, rows: seq<Row>, now: int)
    modifies log
    ensures log.lines == old(log.lines) + AggregateLines(rows, now)
  {
    log.Info(CheckingModel);
    var c := CountMatching(rows, StartAfter(now));
    if c > 0 {
      log.Warning(StartingInFuture(c));
    } else {
      log.Info(NoneStartingInFuture);
    }
    c := CountMatching(rows, EndWithin(now, FUTURE));
    if c > 0 {
      log.Warning(EndingInFuture(c));
    } else {
      log.Info(NoneEndingInFuture);
    }
    c := CountMatching(rows, EndAfter(MAX));
    if c > 0 {
      log.Warning(EndingAfterMax(c));
    } else {
      log.Info(NoneEndingAfterMax);
    }
  }

  /** The loop over the rows with end < start in (document_id, id) order. */
  method ReportInverted(log: Log, rows: seq<Row>)
    modifies log
    ensures log.lines == old(log.lines) + InvertedLines(rows)
  {
    var inv := Inverted(rows);
    var c := 0;
    while c < |inv|
      invariant 0 <= c <= |inv|
      invariant log.lines == old(log.lines) + InvertedErrors(inv)[..c]
    {
      log.Error(StartAfterEnd(inv[c].docId, inv[c].id));
      assert InvertedErrors(inv)[..c + 1] == InvertedErrors(inv)[..c] + [InvertedErrors(inv)[c]];
      c := c + 1;
    }
    assert InvertedErrors(inv)[..c] == InvertedErrors(inv);
    if c > 0 {
      log.Error(StartAfterEndTotal(c));
    } else {
      log.Info(NoStartAfterEnd);
    }
  }

  /** The loop over the ordered rows with its counters and the carried
      pid, pdid and pe. */
  method Pass(log: Log, snap: seq<Row>) returns (t: Tally)
    modifies log
    ensures log.lines == old(log.lines) + PassLines(snap)
    ensures t == PassTally(snap)
  {
    var h, c, ec := 0, 0, 0;
    var cmin, cmax, ecmin := MAX, MIN, MAX;
    var pid: nat, pdid: Option<nat>, pe: int := 0, None, 0;
    ghost var start := log.lines;
    var i := 0;
    while i < |snap|
      invariant 0 <= i <= |snap|
      invariant Tally(h, c, ec, cmin, cmax, ecmin) == PassTally(snap[..i])
      invariant i == 0 ==> pdid == None
      invariant i > 0 ==> pid == snap[i - 1].id && pdid == Some(snap[i - 1].docId) && pe == snap[i - 1].end
      invariant log.lines == start + PassLines(snap[..i])
    {
      var id, did, s, e := snap[i].id, snap[i].docId, snap[i].start, snap[i].end;
      ghost var written, prev := log.lines, Before(snap, i);
      ghost var f, tally := Compare(prev, snap[i]), Tally(h, c, ec, cmin, cmax, ecmin);
      if pdid == Some(did) {
        if s < pe {
          var em := if pe <= e then pe else e;
          if em > FUTURE {
            assert f == ActiveOverlap;
            log.Warning(OverlappedNow(did, pid, id, s));
            if ecmin > s {
              ecmin := s;
            }
            ec := ec + 1;
          } else if em != s {
            assert f == PastOverlap(em);
            log.Info(OverlappedInPast(did, pid, id, s, em));
            if cmin > s {
              cmin := s;
            }
            if cmax < em {
              cmax := em;
            }
            c := c + 1;
          } else {
            assert f == Nothing;
          }
        } else if s > pe {
          assert f == Hole;
          log.Info(HoleBetween(did, pid, id));
          h := h + 1;
        } else {
          assert f == Nothing;
        }
      } else {
        assert f == Nothing;
      }
      assert log.lines == written + FindingLines(prev, snap[i], f);
      PassStep(snap, i);
      Assoc(start, PassLines(snap[..i]), FindingLines(prev, snap[i], f));
      assert Tally(h, c, ec, cmin, cmax, ecmin) == Counted(tally, f, s);
      pid, pdid, pe := id, Some(did), e;
      i := i + 1;
    }
    assert snap[..i] == snap;
    t := Tally(h, c, ec, cmin, cmax, ecmin);
  }

  /** The pass over one more row: one more comparison. */
  lemma PassStep(snap: seq<Row>, i: nat)
    requires i < |snap|
    ensures PassTally(snap[..i + 1]) == Counted(PassTally(snap[..i]), Compare(Before(snap, i), snap[i]), snap[i].start)
    ensures PassLines(snap[..i + 1]) ==
            PassLines(snap[..i]) + FindingLines(Before(snap, i), snap[i], Compare(Before(snap, i), snap[i]))
  {
    var prefix := snap[..i + 1];
    assert prefix[..i] == snap[..i] && prefix[i] == snap[i];
    assert Before(prefix, i) == Before(snap, i);
  }

  /** The three totals. */
  method ReportTotals(log: Log, t: Tally)
    modifies log
    ensures log.lines == old(log.lines) + TotalLines(t)
  {
    if t.past > 0 {
      log.Warning(PastOverlapsTotal(t.past, t.pastFrom, t.pastUntil));
    } else {
      log.Info(NoPastOverlaps);
    }
    if t.active > 0 {
      log.Error(ActiveOverlapsTotal(t.active, t.activeSince));
    } else {
      log.Info(NoActiveOverlaps);
    }
    if t.holes > 0 {
      log.Warning(HolesTotal(t.holes));
    } else {
      log.Info(NoHoles);
    }
  }

  // -------------------------------------------------------------- lemmas

  /** Only a predecessor of the same document is compared, and a row that
      starts exactly where its predecessor ends finds nothing. */
  lemma OnlySameDocument(prev: Option<Row>, r: Row)
    ensures Compare(prev, r) != Nothing ==> prev.Some? && prev.value.docId == r.docId && r.start != prev.value.end
    ensures Compare(prev, r) == Hole <==> prev.Some? && prev.value.docId == r.docId && r.start > prev.value.end
    ensures Compare(prev, r).ActiveOverlap? || Compare(prev, r).PastOverlap? ==>
              prev.Some? && prev.value.docId == r.docId && r.start < prev.value.end
  {
  }

  /** A zero-length row is never a past overlap; it is an active overlap
      exactly when it lies inside its predecessor beyond FUTURE. */
  lemma ZeroLengthRow(prev: Option<Row>, r: Row)
    requires r.start == r.end
    ensures !Compare(prev, r).PastOverlap?
    ensures Compare(prev, r) == ActiveOverlap <==>
              prev.Some? && prev.value.docId == r.docId && r.start < prev.value.end && r.start > FUTURE
  {
  }

  /** Each overlap and each hole writes exactly one line, and the pass
      writes no error line (active overlaps are warnings until the total). */
  lemma {:induction false} PassLinesCounted(snap: seq<Row>)
    ensures |PassLines(snap)| == PassTally(snap).holes + PassTally(snap).past + PassTally(snap).active
    ensures forall l :: l in PassLines(snap) ==> l.level != Error
  {
    if snap != [] {
      PassLinesCounted(snap[..|snap| - 1]);
    }
  }

  /** Each same-document successor starts where its predecessor ends. */
  predicate Contiguous(snap: seq<Row>) {
    forall i :: 0 < i < |snap| && snap[i].docId == snap[i - 1].docId ==> snap[i].start == snap[i - 1].end
  }

  /** If every version of a document starts where the previous one ends,
      the pass counts nothing, writes nothing, and the three totals are
      info lines. */
  lemma {:induction false} ContiguousIsQuiet(snap: seq<Row>)
    requires Contiguous(snap)
    ensures PassTally(snap) == NoTally && PassLines(snap) == []
    ensures forall l :: l in TotalLines(PassTally(snap)) ==> l.level == Info
  {
    if snap != [] {
      var n := |snap| - 1;
      var front := snap[..n];
      assert Contiguous(front) by {
        forall i | 0 < i < |front| && front[i].docId == front[i - 1].docId ensures front[i].start == front[i - 1].end {
          assert front[i] == snap[i] && front[i - 1] == snap[i - 1];
        }
      }
      ContiguousIsQuiet(front);
      assert Compare(Before(snap, n), snap[n]) == Nothing;
    }
  }

  /** No two neighbours overlap. */
  predicate NoOverlapPairs(snap: seq<Row>) {
    forall i :: 0 < i < |snap| ==>
      !Compare(Some(snap[i - 1]), snap[i]).ActiveOverlap? && !Compare(Some(snap[i - 1]), snap[i]).PastOverlap?
  }

  lemma {:induction false} NoOverlapCounts(snap: seq<Row>)
    requires NoOverlapPairs(snap)
    ensures PassTally(snap).past == 0 && PassTally(snap).active == 0
    ensures PassTally(snap).pastFrom == MAX && PassTally(snap).pastUntil == MIN && PassTally(snap).activeSince == MAX
  {
    if snap != [] {
      var n := |snap| - 1;
      var front := snap[..n];
      assert NoOverlapPairs(front) by {
        forall i | 0 < i < |front|
          ensures !Compare(Some(front[i - 1]), front[i]).ActiveOverlap? && !Compare(Some(front[i - 1]), front[i]).PastOverlap?
        {
          assert front[i] == snap[i] && front[i - 1] == snap[i - 1];
        }
      }
      NoOverlapCounts(front);
    }
  }

  /** Versions that follow one another do not overlap in the pass. */
  lemma SuccessiveNoOverlap(snap: seq<Row>)
    requires Successive(snap)
    ensures NoOverlapPairs(snap)
  {
    forall i | 0 < i < |snap|
      ensures !Compare(Some(snap[i - 1]), snap[i]).ActiveOverlap? && !Compare(Some(snap[i - 1]), snap[i]).PastOverlap?
    {
      OnlySameDocument(Some(snap[i - 1]), snap[i]);
    }
  }

  /** Under the interval invariant, neighbours in the pass's order never
      overlap: a row starting inside its predecessor would have to be a
      zero-length row at the predecessor's start, and those sort first. */
  lemma ConsistentNeighbours(rows: seq<Row>)
    requires Consistent(rows)
    ensures NoOverlapPairs(Snapshot(rows))
  {
    assert Forward(rows) && PairwiseDisjoint(rows);
    DisjointInOrder(rows);
    SuccessiveNoOverlap(Snapshot(rows));
  }

  /** The only error lines of a report are those about rows ending before
      they start and the total of active overlaps. */
  lemma ReportErrors(rows: seq<Row>, now: int)
    ensures forall l :: l in Report(rows, now) && l.level == Error ==>
              l in InvertedLines(rows) || l == TotalLines(PassTally(Snapshot(rows)))[1]
  {
    var snap := Snapshot(rows);
    PassLinesCounted(snap);
    var a, inv, ph, pl, tl := AggregateLines(rows, now), InvertedLines(rows), [PhantomLine(rows)], PassLines(snap), TotalLines(PassTally(snap));
    assert Report(rows, now) == a + inv + ph + pl + tl;
    forall l | l in Report(rows, now) && l.level == Error ensures l in inv || l == tl[1] {
      assert l in a || l in inv || l in ph || l in pl || l in tl;
    }
  }

  /** Rows that end no earlier than they start produce no error line for
      inverted rows. */
  lemma NoneInverted(rows: seq<Row>)
    requires forall r :: r in rows ==> r.start <= r.end
    ensures InvertedLines(rows) == [Line(Info, NoStartAfterEnd)]
  {
    var w := Where(rows, EndBeforeStart);
    assert forall r :: r in rows ==> !Matches(EndBeforeStart, r);
    CountIsWhere(rows, EndBeforeStart);
    assert w == [];
    assert multiset(Inverted(rows)) == multiset{};
  }

  /** The check of a table that keeps the interval invariant writes no
      error line, and its overlap totals read "no overlapping accidents". */
  lemma ConsistentReport(rows: seq<Row>, now: int)
    requires Consistent(rows)
    ensures TotalLines(PassTally(Snapshot(rows)))[0] == Line(Info, NoPastOverlaps)
    ensures TotalLines(PassTally(Snapshot(rows)))[1] == Line(Info, NoActiveOverlaps)
    ensures forall l :: l in Report(rows, now) ==> l.level != Error
  {
    ConsistentNeighbours(rows);
    NoOverlapCounts(Snapshot(rows));
    assert forall r :: r in rows ==> WellFormed(r);
    NoneInverted(rows);
    ReportErrors(rows, now);
  }

  /** Every row whose end lies before its start gets its own error line,
      the lines follow (document_id, id) order, and the total is the
      number of such rows. */
  lemma InvertedReported(rows: seq<Row>)
    ensures |InvertedLines(rows)| == CountMatching(rows, EndBeforeStart) + 1
    ensures forall r :: r in rows && r.end < r.start ==> Line(Error, StartAfterEnd(r.docId, r.id)) in InvertedLines(rows)
    ensures forall i :: 0 <= i < |InvertedLines(rows)| - 1 ==>
              (InvertedLines(rows)[i].level == Error && InvertedLines(rows)[i].msg.StartAfterEnd?)
    ensures forall i, j :: 0 <= i < j < |InvertedLines(rows)| - 1 ==>
              var a, b := InvertedLines(rows)[i].msg, InvertedLines(rows)[j].msg;
              a.docId < b.docId || (a.docId == b.docId && a.id <= b.id)
    ensures InvertedLines(rows)[|InvertedLines(rows)| - 1] ==
              if CountMatching(rows, EndBeforeStart) > 0 then Line(Error, StartAfterEndTotal(CountMatching(rows, EndBeforeStart)))
              else Line(Info, NoStartAfterEnd)
  {
    var w := Where(rows, EndBeforeStart);
    var inv := Inverted(rows);
    CountIsWhere(rows, EndBeforeStart);
    WhereMembers(rows, EndBeforeStart);
    assert |inv| == |w| by {
      assert |multiset(inv)| == |multiset(w)|;
    }
    PermutationMembers(inv, w);
    var lines := InvertedLines(rows);
    forall r | r in rows && r.end < r.start ensures Line(Error, StartAfterEnd(r.docId, r.id)) in lines {
      assert r in inv;
      var k :| 0 <= k < |inv| && inv[k] == r;
      assert lines[k] == InvertedErrors(inv)[k];
    }
    forall i | 0 <= i < |lines| - 1 ensures lines[i] == InvertedErrors(inv)[i] { }
  }

  /** The three date counts and the phantom count: each is a warning with
      the number of matching rows when some row matches, and an info line
      otherwise. */
  lemma AggregatesReported(rows: seq<Row>, now: int)
    ensures (exists r :: r in rows && r.start > now) ==>
              AggregateLines(rows, now)[1] == Line(Warning, StartingInFuture(|Where(rows, StartAfter(now))|))
    ensures !(exists r :: r in rows && r.start > now) ==> AggregateLines(rows, now)[1] == Line(Info, NoneStartingInFuture)
    ensures (exists r :: r in rows && now <= r.end <= FUTURE) ==>
              AggregateLines(rows, now)[2] == Line(Warning, EndingInFuture(|Where(rows, EndWithin(now, FUTURE))|))
    ensures !(exists r :: r in rows && now <= r.end <= FUTURE) ==> AggregateLines(rows, now)[2] == Line(Info, NoneEndingInFuture)
    ensures (exists r :: r in rows && r.end > MAX) ==>
              AggregateLines(rows, now)[3] == Line(Warning, EndingAfterMax(|Where(rows, EndAfter(MAX))|))
    ensures !(exists r :: r in rows && r.end > MAX) ==> AggregateLines(rows, now)[3] == Line(Info, NoneEndingAfterMax)
    ensures (exists r :: r in rows && r.end == r.start) ==> PhantomLine(rows) == Line(Warning, Phantoms(|Where(rows, EndAtStart)|))
    ensures !(exists r :: r in rows && r.end == r.start) ==> PhantomLine(rows) == Line(Info, NoPhantoms)
  {
    CountIsWhere(rows, StartAfter(now));
    CountIsWhere(rows, EndWithin(now, FUTURE));
    CountIsWhere(rows, EndAfter(MAX));
    CountIsWhere(rows, EndAtStart);
  }
}

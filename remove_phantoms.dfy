/**
 * fixdocuments_remove_phantoms: delete every row whose start is not before
 * its end, reporting how many it deleted.
 */
module RemovePhantoms {
  import opened Table
  import opened Diagnostics

  /** The table after the delete. */
  function WithoutPhantoms(rows: seq<Row>): seq<Row> {
    Without(rows, StartNotBeforeEnd)
  }

  /** fix_model: count the phantoms, and delete them when there are any. */
  method FixModel(store: Store, log: Log) returns (c: nat)
    requires store.Valid()
    modifies store, log
    ensures store.Valid()
    ensures store.rows == WithoutPhantoms(old(store.rows))
    ensures c == |old(store.rows)| - |store.rows|
    ensures log.lines == old(log.lines) + [Line(Info, FixingModel), if c > 0 then Line(Warning, PhantomsRemoved(c)) else Line(Info, NoPhantomsFound)]
  {
    log.Info(FixingModel);
    WithoutMembers(store.rows, StartNotBeforeEnd);
    c := CountMatching(store.rows, StartNotBeforeEnd);
    if c > 0 {
      store.Delete(StartNotBeforeEnd);
      log.Warning(PhantomsRemoved(c));
    } else {
      CountIsWhere(store.rows, StartNotBeforeEnd);
      WithoutNone(store.rows, StartNotBeforeEnd);
      log.Info(NoPhantomsFound);
    }
  }

  /** Exactly the rows with start >= end go: the others stay, unchanged and
      in order, and as many rows go as the count says. */
  lemma {:induction false} PhantomsGone(rows: seq<Row>)
    ensures forall r :: r in WithoutPhantoms(rows) <==> r in rows && r.start < r.end
    ensures |WithoutPhantoms(rows)| == |rows| - CountMatching(rows, StartNotBeforeEnd)
    ensures Subsequence(WithoutPhantoms(rows), rows)
  {
    WithoutMembers(rows, StartNotBeforeEnd);
    if rows != [] {
      var front := rows[..|rows| - 1];
      PhantomsGone(front);
      var w := WithoutPhantoms(front);
      var k :| KeptPositions(k, w, front);
      var n: nat := |rows| - 1;
      assert forall i :: 0 <= i < |k| ==> rows[k[i]] == front[k[i]];
      if Matches(StartNotBeforeEnd, rows[n]) {
        assert WithoutPhantoms(rows) == w;
        assert KeptPositions(k, WithoutPhantoms(rows), rows);
      } else {
        assert WithoutPhantoms(rows) == w + [rows[n]];
        assert KeptPositions(k + [n], WithoutPhantoms(rows), rows);
      }
    } else {
      assert KeptPositions([], WithoutPhantoms(rows), rows);
    }
  }

  /** `k` lists, increasing, the positions in `s` of the rows of `t`. */
  predicate KeptPositions(k: seq<nat>, t: seq<Row>, s: seq<Row>) {
    |k| == |t| &&
    (forall i :: 0 <= i < |k| ==> k[i] < |s| && t[i] == s[k[i]]) &&
    (forall i, j :: 0 <= i < j < |k| ==> k[i] < k[j])
  }

  /** `t` is `s` with some rows left out. */
  ghost predicate Subsequence(t: seq<Row>, s: seq<Row>) {
    exists k :: KeptPositions(k, t, s)
  }

  /** A second run finds no phantom and deletes nothing. */
  lemma PhantomsGoneTwice(rows: seq<Row>)
    ensures CountMatching(WithoutPhantoms(rows), StartNotBeforeEnd) == 0
    ensures WithoutPhantoms(WithoutPhantoms(rows)) == WithoutPhantoms(rows)
  {
    var w := WithoutPhantoms(rows);
    WithoutMembers(rows, StartNotBeforeEnd);
    CountIsWhere(w, StartNotBeforeEnd);
    WithoutNone(w, StartNotBeforeEnd);
  }
}

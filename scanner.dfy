/**
 * The chunked range scanner of documents/utils.py: vlist_blocker and
 * qset_blocker read a query ordered by an indexed key in blocks of bounded
 * size. They build a sorted list of (label, count) blocks by bisecting key
 * ranges, then issue one range query per block.
 *
 * The query is a sequence of rows ordered by their key; every callers'
 * key is document_id. A count() or a filtered iterator() on the query is a
 * function of that sequence.
 */
module Scanner {
  import opened Wrappers
  import opened Table

  /** A block label and the number of rows whose key is at most the label. */
  datatype Block = Block(bound: int, count: int)

  /** The first field of the order_by clause. */
  function Key(r: Row): int {
    r.docId
  }

  /** The query is ordered by its key (ascending). */
  predicate KeySorted(q: seq<Row>) {
    forall i, j :: 0 <= i < j < |q| ==> Key(q[i]) <= Key(q[j])
  }

  /** The snapshot the checker and the repairs read is ordered by key. */
  lemma SnapshotKeySorted(q: seq<Row>)
    requires Sorted(ByDocStartEnd, q)
    ensures KeySorted(q)
  {
  }

  lemma KeySortedFront(q: seq<Row>)
    requires KeySorted(q) && q != []
    ensures KeySorted(q[..|q| - 1])
  {
    var front := q[..|q| - 1];
    forall i, j | 0 <= i < j < |front| ensures Key(front[i]) <= Key(front[j]) {
      assert front[i] == q[i] && front[j] == q[j];
    }
  }

  // ------------------------------------------------------------ counts

  /** filter(key__lte=b).count() */
  function CountAtMost(q: seq<Row>, b: int): (n: nat)
    ensures n <= |q|
  {
    if q == [] then 0
    else CountAtMost(q[..|q| - 1], b) + (if Key(q[|q| - 1]) <= b then 1 else 0)
  }

  /** filter(key=b).count() */
  function CountEqual(q: seq<Row>, b: int): nat {
    if q == [] then 0
    else CountEqual(q[..|q| - 1], b) + (if Key(q[|q| - 1]) == b then 1 else 0)
  }

  /** filter(key__gt=a, key__lte=b).count() */
  function CountBetween(q: seq<Row>, a: int, b: int): nat {
    if q == [] then 0
    else CountBetween(q[..|q| - 1], a, b) + (if a < Key(q[|q| - 1]) <= b then 1 else 0)
  }

  /** Counting up to a larger label counts more rows, and the rows in
      between are the difference. */
  lemma {:induction false} CountBetweenIsDifference(q: seq<Row>, a: int, b: int)
    requires a <= b
    ensures CountAtMost(q, a) <= CountAtMost(q, b)
    ensures CountBetween(q, a, b) == CountAtMost(q, b) - CountAtMost(q, a)
  {
    if q != [] {
      CountBetweenIsDifference(q[..|q| - 1], a, b);
    }
  }

  /** In an ordered query every key is at most the last one. */
  lemma {:induction false} AllAtMostLast(q: seq<Row>, b: int)
    requires KeySorted(q) && q != [] && Key(q[|q| - 1]) <= b
    ensures CountAtMost(q, b) == |q|
  {
    var front := q[..|q| - 1];
    if front != [] {
      KeySortedFront(q);
      assert Key(front[|front| - 1]) <= Key(q[|q| - 1]);
      AllAtMostLast(front, b);
    }
  }

  /** In an ordered query the rows equal to the first key are the rows at
      most the first key. */
  lemma {:induction false} CountOfFirst(q: seq<Row>, k: int)
    requires KeySorted(q) && q != [] && k == Key(q[0])
    ensures CountEqual(q, k) == CountAtMost(q, k)
  {
    var front := q[..|q| - 1];
    if front != [] {
      KeySortedFront(q);
      assert front[0] == q[0];
      CountOfFirst(front, k);
    }
  }

  // ------------------------------------------------------- range queries

  /** filter(key__lte=hi) or, with a lower label, filter(key__gt=lo,
      key__lte=hi), iterated in query order. */
  function Select(q: seq<Row>, lo: Option<int>, hi: int): seq<Row> {
    if q == [] then []
    else
      var x := q[|q| - 1];
      Select(q[..|q| - 1], lo, hi) + (if Key(x) <= hi && (lo.None? || lo.value < Key(x)) then [x] else [])
  }

  /** The position in the query where the rows above `lo` begin. */
  function Low(q: seq<Row>, lo: Option<int>): nat {
    if lo.None? then 0 else CountAtMost(q, lo.value)
  }

  /** On an ordered query a range query returns a contiguous slice: the rows
      from the count at the lower label on up to the count at the upper one. */
  lemma {:induction false} SelectIsSlice(q: seq<Row>, lo: Option<int>, hi: int)
    requires KeySorted(q)
    requires lo.Some? ==> lo.value <= hi
    ensures Low(q, lo) <= CountAtMost(q, hi)
    ensures Select(q, lo, hi) == q[Low(q, lo)..CountAtMost(q, hi)]
  {
    if lo.Some? {
      CountBetweenIsDifference(q, lo.value, hi);
    }
    if q != [] {
      var front, x := q[..|q| - 1], q[|q| - 1];
      KeySortedFront(q);
      SelectIsSlice(front, lo, hi);
      if Key(x) <= hi {
        if lo.Some? && Key(x) <= lo.value {
          SliceWhenLastBelow(q, lo.value, hi);
        } else {
          SliceWhenLastIn(q, lo, hi);
        }
      } else {
        SliceWhenLastAbove(q, lo, hi);
      }
    }
  }

  /** Induction step of SelectIsSlice when the last row is selected. */
  lemma SliceWhenLastIn(q: seq<Row>, lo: Option<int>, hi: int)
    requires KeySorted(q) && q != [] && Key(q[|q| - 1]) <= hi
    requires lo.Some? ==> lo.value < Key(q[|q| - 1])
    requires Low(q[..|q| - 1], lo) <= CountAtMost(q[..|q| - 1], hi)
    requires Select(q[..|q| - 1], lo, hi) == q[..|q| - 1][Low(q[..|q| - 1], lo)..CountAtMost(q[..|q| - 1], hi)]
    ensures Low(q, lo) <= CountAtMost(q, hi)
    ensures Select(q, lo, hi) == q[Low(q, lo)..CountAtMost(q, hi)]
  {
    var front := q[..|q| - 1];
    AllAtMostLast(q, hi);
    if front != [] {
      KeySortedFront(q);
      assert Key(front[|front| - 1]) <= Key(q[|q| - 1]);
      AllAtMostLast(front, hi);
    }
    var l := Low(q, lo);
    assert l == Low(front, lo);
    assert q[l..|q|] == front[l..|front|] + [q[|q| - 1]];
  }

  /** Induction step of SelectIsSlice when every row is at most the lower
      bound: nothing is selected. */
  lemma SliceWhenLastBelow(q: seq<Row>, lo: int, hi: int)
    requires KeySorted(q) && q != [] && Key(q[|q| - 1]) <= lo <= hi
    ensures Low(q, Some(lo)) <= CountAtMost(q, hi)
    ensures Select(q, Some(lo), hi) == q[Low(q, Some(lo))..CountAtMost(q, hi)]
  {
    AllAtMostLast(q, lo);
    AllAtMostLast(q, hi);
    NothingAbove(q, lo, hi);
  }

  /** No row of an ordered query lies above a bound its last row is under. */
  lemma {:induction false} NothingAbove(q: seq<Row>, lo: int, hi: int)
    requires KeySorted(q) && (q != [] ==> Key(q[|q| - 1]) <= lo)
    ensures Select(q, Some(lo), hi) == []
  {
    if q != [] {
      var front := q[..|q| - 1];
      KeySortedFront(q);
      if front != [] {
        assert Key(front[|front| - 1]) <= Key(q[|q| - 1]);
      }
      NothingAbove(front, lo, hi);
    }
  }

  /** Induction step of SelectIsSlice when the last row is above the upper
      bound. */
  lemma SliceWhenLastAbove(q: seq<Row>, lo: Option<int>, hi: int)
    requires q != [] && Key(q[|q| - 1]) > hi
    requires lo.Some? ==> lo.value <= hi
    requires Low(q[..|q| - 1], lo) <= CountAtMost(q[..|q| - 1], hi)
    requires Select(q[..|q| - 1], lo, hi) == q[..|q| - 1][Low(q[..|q| - 1], lo)..CountAtMost(q[..|q| - 1], hi)]
    ensures Low(q, lo) <= CountAtMost(q, hi)
    ensures Select(q, lo, hi) == q[Low(q, lo)..CountAtMost(q, hi)]
  {
    var front := q[..|q| - 1];
    assert Low(q, lo) == Low(front, lo);
    assert q[Low(q, lo)..CountAtMost(q, hi)] == front[Low(front, lo)..CountAtMost(front, hi)];
  }

  // -------------------------------------------------------------- blocks

  /** Every count is the number of rows up to its label, and labels do not
      decrease. */
  predicate Exact(q: seq<Row>, blocks: seq<Block>) {
    (forall i :: 0 <= i < |blocks| ==> blocks[i].count == CountAtMost(q, blocks[i].bound)) &&
    (forall i :: 0 < i < |blocks| ==> blocks[i - 1].bound <= blocks[i].bound)
  }

  /** Labels strictly increase. */
  predicate Strict(blocks: seq<Block>) {
    forall i :: 0 < i < |blocks| ==> blocks[i - 1].bound < blocks[i].bound
  }

  /** The two blocks vlist_blocker starts from when the query holds more than
      one block's worth of rows: the first key with the number of rows equal
      to it, and the last key with the total. */
  function InitialBlocks(q: seq<Row>): seq<Block>
    requires q != []
  {
    [Block(Key(q[0]), CountEqual(q, Key(q[0]))), Block(Key(q[|q| - 1]), |q|)]
  }

  /** On an ordered query the initial blocks are exact: each count is the
      number of rows with key at most the label. */
  lemma InitialBlocksExact(q: seq<Row>)
    requires KeySorted(q) && q != []
    ensures Exact(q, InitialBlocks(q))
    ensures (Key(q[0]) < Key(q[|q| - 1])) == Strict(InitialBlocks(q))
  {
    CountOfFirst(q, Key(q[0]));
    AllAtMostLast(q, Key(q[|q| - 1]));
    var b := InitialBlocks(q);
    assert Strict(b) ==> b[0].bound < b[1].bound;
  }

  /** Rows of block `i`: key at most its label and, after block 0, above the
      previous label. */
  function BlockRows(q: seq<Row>, blocks: seq<Block>, i: nat): seq<Row>
    requires i < |blocks|
  {
    Select(q, if i == 0 then None else Some(blocks[i - 1].bound), blocks[i].bound)
  }

  /** What _blocks_iterator yields for the first `n` blocks. */
  function Yielded(q: seq<Row>, blocks: seq<Block>, n: nat): seq<Row>
    requires n <= |blocks|
  {
    if n == 0 then [] else Yielded(q, blocks, n - 1) + BlockRows(q, blocks, n - 1)
  }

  /** The first `n` exact blocks yield the query's first rows up to the
      count of block `n - 1`, in order, without gaps or repeats. */
  lemma {:induction false} YieldedPrefix(q: seq<Row>, blocks: seq<Block>, n: nat)
    requires KeySorted(q) && Exact(q, blocks)
    requires 1 <= n <= |blocks|
    ensures Yielded(q, blocks, n) == q[..blocks[n - 1].count]
  {
    if n == 1 {
      SelectIsSlice(q, None, blocks[0].bound);
    } else {
      YieldedPrefix(q, blocks, n - 1);
      SelectIsSlice(q, Some(blocks[n - 2].bound), blocks[n - 1].bound);
      assert q[..blocks[n - 1].count] == q[..blocks[n - 2].count] + q[blocks[n - 2].count..blocks[n - 1].count];
    }
  }

  /** _blocks_iterator: one range query per block, in block order. */
  method BlocksIterator(q: seq<Row>, blocks: seq<Block>) returns (out: seq<Row>)
    ensures out == Yielded(q, blocks, |blocks|)
    ensures KeySorted(q) && Exact(q, blocks) && blocks != [] && blocks[|blocks| - 1].count == |q| ==> out == q
  {
    out := [];
    var i := 0;
    while i < |blocks|
      invariant 0 <= i <= |blocks|
      invariant out == Yielded(q, blocks, i)
    {
      var d := BlockRows(q, blocks, i);
      out := out + d;
      i := i + 1;
    }
    if KeySorted(q) && Exact(q, blocks) && blocks != [] && blocks[|blocks| - 1].count == |q| {
      YieldedPrefix(q, blocks, |blocks|);
    }
  }

  // ----------------------------------------------------------- bisection

  /** The default `bisect`: Python 2 `(x + y) / 2` on integers, which rounds
      toward minus infinity, as Dafny's `/` does for a positive divisor. */
  function FloorMid(x: int, y: int): int {
    (x + y) / 2
  }

  /** With the default bisect, no midpoint lies strictly between two labels
      exactly when they differ by at most one. */
  lemma FloorMidBetween(x: int, y: int)
    requires x < y
    ensures (x < FloorMid(x, y) < y) <==> y - x >= 2
  {
  }

  /** The left neighbour the `for` loop compares block `i` with: `ls, vs`
      is block 0 for i = 0 and block i - 1 after that. */
  function Prev(blocks: seq<Block>, i: nat): Block
    requires 0 < |blocks| && i < |blocks|
  {
    if i == 0 then blocks[0] else blocks[i - 1]
  }

  /** `del blocks[i - 1]` applies: the two blocks around it span fewer than
      blocksize rows. */
  predicate CanMerge(blocks: seq<Block>, blocksize: int, i: nat) {
    2 <= i < |blocks| && blocks[i].count - blocks[i - 2].count < blocksize
  }

  /** `blocks.insert(i, ...)` applies: block i spans more than blocksize rows
      beyond its neighbour and bisect gives a label strictly between. */
  predicate CanSplit(blocks: seq<Block>, blocksize: int, mid: (int, int) -> int, i: nat) {
    0 < |blocks| && i < |blocks| &&
    var p := Prev(blocks, i);
    blocks[i].count - p.count > blocksize && p.bound < mid(p.bound, blocks[i].bound) < blocks[i].bound
  }

  /** The `for` loop reaches position `n` without a `break`. */
  predicate Quiet(blocks: seq<Block>, blocksize: int, mid: (int, int) -> int, n: nat) {
    forall j :: 0 <= j < n ==> !CanMerge(blocks, blocksize, j) && !CanSplit(blocks, blocksize, mid, j)
  }

  /** Which way one pass of the `while True` loop ended. */
  datatype PassEnd = NoChange | Merged(at: nat) | Split(at: nat, bound: int)

  /** One pass of the `while True` loop of _bisect_blocks: the `for` loop
      that stops at the first block where a merge or a split applies. */
  method BisectPass(q: seq<Row>, blocks: seq<Block>, blocksize: int, mid: (int, int) -> int)
      returns (r: seq<Block>, how: PassEnd)
    requires blocks != []
    ensures how.NoChange? ==> r == blocks && Quiet(blocks, blocksize, mid, |blocks|)
    ensures how.Merged? ==>
              Quiet(blocks, blocksize, mid, how.at) && CanMerge(blocks, blocksize, how.at) &&
              r == blocks[..how.at - 1] + blocks[how.at..]
    ensures how.Split? ==>
              Quiet(blocks, blocksize, mid, how.at) && !CanMerge(blocks, blocksize, how.at) &&
              CanSplit(blocks, blocksize, mid, how.at) &&
              how.bound == mid(Prev(blocks, how.at).bound, blocks[how.at].bound) &&
              r == blocks[..how.at] +
                   [Block(how.bound, CountBetween(q, Prev(blocks, how.at).bound, how.bound) + Prev(blocks, how.at).count)] +
                   blocks[how.at..]
  {
    var ls, vs := blocks[0].bound, blocks[0].count;
    var i := 0;
    while i < |blocks|
      invariant 0 <= i <= |blocks|
      invariant i < |blocks| ==> Block(ls, vs) == Prev(blocks, i)
      invariant Quiet(blocks, blocksize, mid, i)
    {
      var le, ve := blocks[i].bound, blocks[i].count;
      if i >= 2 && ve - blocks[i - 2].count < blocksize {
        return blocks[..i - 1] + blocks[i..], Merged(i);
      }
      if ve - vs > blocksize {
        var lm := mid(ls, le);
        if ls < lm < le {
          var vm := CountBetween(q, ls, lm) + vs;
          return blocks[..i] + [Block(lm, vm)] + blocks[i..], Split(i, lm);
        }
      }
      ls, vs := le, ve;
      i := i + 1;
    }
    return blocks, NoChange;
  }

  /** The blocks the loop keeps: exact, at least two, with the first and
      the last block of the start (the last one holding every row). */
  predicate Kept(q: seq<Row>, start: seq<Block>, blocks: seq<Block>) {
    |start| >= 2 && |blocks| >= 2 && Exact(q, blocks) &&
    blocks[0] == start[0] && blocks[|blocks| - 1] == start[|start| - 1] &&
    (Strict(start) ==> Strict(blocks))
  }

  /** Deleting a middle block keeps the blocks exact. */
  lemma MergeKeeps(q: seq<Row>, blocks: seq<Block>, blocksize: int, i: nat, r: seq<Block>)
    requires Exact(q, blocks) && CanMerge(blocks, blocksize, i)
    requires r == blocks[..i - 1] + blocks[i..]
    ensures Exact(q, r) && |r| == |blocks| - 1 && r[0] == blocks[0] && r[|r| - 1] == blocks[|blocks| - 1]
    ensures Strict(blocks) ==> Strict(r)
  {
    forall k | 0 <= k < |r| ensures r[k] == if k < i - 1 then blocks[k] else blocks[k + 1] {
    }
    forall k | 0 < k < |r|
      ensures r[k - 1].bound <= r[k].bound
      ensures Strict(blocks) ==> r[k - 1].bound < r[k].bound
    {
      if k < i - 1 {
        assert r[k - 1] == blocks[k - 1] && r[k] == blocks[k];
      } else if k == i - 1 {
        assert r[k - 1] == blocks[i - 2] && r[k] == blocks[i];
        assert blocks[i - 2].bound <= blocks[i - 1].bound <= blocks[i].bound;
        assert Strict(blocks) ==> blocks[i - 2].bound < blocks[i - 1].bound < blocks[i].bound;
      } else {
        assert r[k - 1] == blocks[k] && r[k] == blocks[k + 1];
      }
    }
    assert r[0] == blocks[0] && r[|r| - 1] == blocks[|blocks| - 1];
  }

  /** Inserting, before block `i`, a block whose bound lies strictly
      between its neighbours' and whose count is exact keeps the blocks exact. */
  lemma InsertKeeps(q: seq<Row>, blocks: seq<Block>, i: nat, nb: Block)
    requires Exact(q, blocks) && 0 < i < |blocks|
    requires blocks[i - 1].bound < nb.bound < blocks[i].bound
    requires nb.count == CountAtMost(q, nb.bound)
    ensures Exact(q, blocks[..i] + [nb] + blocks[i..])
    ensures Strict(blocks) ==> Strict(blocks[..i] + [nb] + blocks[i..])
  {
    var r := blocks[..i] + [nb] + blocks[i..];
    forall k | 0 <= k < |r| ensures r[k].count == CountAtMost(q, r[k].bound) {
      if k < i {
        assert r[k] == blocks[k];
      } else if k > i {
        assert r[k] == blocks[k - 1];
      }
    }
    forall k | 0 < k < |r|
      ensures r[k - 1].bound <= r[k].bound
      ensures Strict(blocks) ==> r[k - 1].bound < r[k].bound
    {
      if k < i {
        assert r[k - 1] == blocks[k - 1] && r[k] == blocks[k];
      } else if k == i {
        assert r[k - 1] == blocks[i - 1];
      } else if k == i + 1 {
        assert r[k] == blocks[i];
      } else {
        assert r[k - 1] == blocks[k - 2] && r[k] == blocks[k - 1];
      }
    }
  }

  /** A split inserts a block whose bound lies strictly between its
      neighbours and whose count is the rows up to the previous bound plus
      those in between, so the blocks stay exact. */
  lemma SplitKeeps(q: seq<Row>, blocks: seq<Block>, blocksize: int, mid: (int, int) -> int, i: nat, lm: int, r: seq<Block>)
    requires Exact(q, blocks) && CanSplit(blocks, blocksize, mid, i)
    requires lm == mid(Prev(blocks, i).bound, blocks[i].bound)
    requires r == blocks[..i] + [Block(lm, CountBetween(q, Prev(blocks, i).bound, lm) + Prev(blocks, i).count)] + blocks[i..]
    ensures Exact(q, r) && |r| == |blocks| + 1 && r[0] == blocks[0] && r[|r| - 1] == blocks[|blocks| - 1]
    ensures Strict(blocks) ==> Strict(r)
  {
    var p := Prev(blocks, i);
    var nb := Block(lm, CountBetween(q, p.bound, lm) + p.count);
    assert i > 0 && p == blocks[i - 1];
    CountBetweenIsDifference(q, p.bound, lm);
    InsertKeeps(q, blocks, i, nb);
    assert r[0] == blocks[0] && r[|r| - 1] == blocks[|blocks| - 1];
  }

  /** _bisect_blocks. Its `while True` loop has no argued bound, so the model
      runs at most `fuel` passes; `finished` says the loop ended by itself. */
  method BisectBlocks(q: seq<Row>, start: seq<Block>, blocksize: int, mid: (int, int) -> int, fuel: nat)
      returns (blocks: seq<Block>, finished: bool)
    requires |start| >= 2 && Exact(q, start)
    ensures Kept(q, start, blocks)
    ensures finished ==> Quiet(blocks, blocksize, mid, |blocks|)
  {
    blocks := start;
    finished := false;
    var f := fuel;
    while f > 0 && !finished
      invariant Kept(q, start, blocks)
      invariant finished ==> Quiet(blocks, blocksize, mid, |blocks|)
      decreases f
    {
      var next, how := BisectPass(q, blocks, blocksize, mid);
      match how {
        case NoChange =>
          finished := true;
        case Merged(i) =>
          MergeKeeps(q, blocks, blocksize, i, next);
        case Split(i, lm) =>
          SplitKeeps(q, blocks, blocksize, mid, i, lm, next);
      }
      blocks := next;
      f := f - 1;
    }
  }

  /** After a finished bisection no block can be merged, and every block
      spans at most blocksize rows beyond its neighbour unless bisect finds
      no label strictly between them. */
  lemma QuietMeansBalanced(blocks: seq<Block>, blocksize: int, mid: (int, int) -> int)
    requires Quiet(blocks, blocksize, mid, |blocks|)
    ensures forall i :: 2 <= i < |blocks| ==> blocks[i].count - blocks[i - 2].count >= blocksize
    ensures forall i :: 1 <= i < |blocks| ==>
              blocks[i].count - blocks[i - 1].count <= blocksize ||
              !(blocks[i - 1].bound < mid(blocks[i - 1].bound, blocks[i].bound) < blocks[i].bound)
  {
    forall i | 1 <= i < |blocks|
      ensures blocks[i].count - blocks[i - 1].count <= blocksize ||
              !(blocks[i - 1].bound < mid(blocks[i - 1].bound, blocks[i].bound) < blocks[i].bound)
    {
      assert !CanSplit(blocks, blocksize, mid, i);
    }
    forall i | 2 <= i < |blocks| ensures blocks[i].count - blocks[i - 2].count >= blocksize {
      assert !CanMerge(blocks, blocksize, i);
    }
  }

  // ------------------------------------------------------------- blocker

  /** vlist_blocker (and qset_blocker, the same algorithm on model objects):
      an empty query yields nothing; a query of at most blocksize rows is
      yielded as it is; otherwise the blocks are bisected and each block's
      range is yielded in turn. Either way the rows come out exactly as the
      ordered query holds them. */
  method Blocker(q: seq<Row>, blocksize: int, mid: (int, int) -> int, fuel: nat)
      returns (out: seq<Row>, blocks: seq<Block>, finished: bool)
    requires KeySorted(q)
    ensures out == q
    ensures |q| > blocksize && q != [] ==>
              Kept(q, InitialBlocks(q), blocks) && (finished ==> Quiet(blocks, blocksize, mid, |blocks|))
  {
    if q == [] {
      return [], [], true;
    }
    var fmin := Key(q[0]);
    var cmin := CountEqual(q, fmin);
    blocks := [Block(fmin, cmin)];
    var c := |q|;
    if c <= blocksize {
      return q, blocks, true;
    }
    blocks := blocks + [Block(Key(q[|q| - 1]), c)];
    assert blocks == InitialBlocks(q);
    InitialBlocksExact(q);
    blocks, finished := BisectBlocks(q, blocks, blocksize, mid, fuel);
    out := BlocksIterator(q, blocks);
  }
}

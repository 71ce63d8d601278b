/** The block cache as a value: blocks in recency order, oldest first, bounded by
    their total size. */
module BlockStore {
  import opened Basics
  import opened RemoteTree

  const BLOCK: nat := 1024 * 1024

  datatype Block = Block(path: string, no: nat, data: Bytes)

  type Lru = seq<Block>

  function BlockOf(content: Bytes, no: nat): Bytes {
    Slice(content, no * BLOCK, BLOCK)
  }

  /** Which blocks an operation removes. */
  datatype Selector = OneBlock(path: string, no: nat) | OnePath(path: string) | Subtree(path: string)

  predicate Picks(sel: Selector, b: Block) {
    match sel
    case OneBlock(path, no) => b.path == path && b.no == no
    case OnePath(path) => b.path == path
    case Subtree(path) => Below(b.path, path)
  }

  predicate Has(bs: Lru, path: string, no: nat) {
    exists i :: 0 <= i < |bs| && Picks(OneBlock(path, no), bs[i])
  }

  function IndexOf(bs: Lru, path: string, no: nat): (i: nat)
    requires Has(bs, path, no)
    ensures i < |bs| && Picks(OneBlock(path, no), bs[i])
  {
    if Picks(OneBlock(path, no), bs[0]) then 0
    else
      assert Has(bs[1..], path, no) by {
        var i :| 0 <= i < |bs| && Picks(OneBlock(path, no), bs[i]);
        assert bs[1..][i - 1] == bs[i];
      }
      1 + IndexOf(bs[1..], path, no)
  }

  predicate Distinct(bs: Lru) {
    forall i, j :: 0 <= i < j < |bs| ==> !(bs[i].path == bs[j].path && bs[i].no == bs[j].no)
  }

  function Total(bs: Lru): nat {
    if bs == [] then 0 else |bs[0].data| + Total(bs[1..])
  }

  predicate Bounded(bs: Lru, max: int) {
    bs == [] || Total(bs) <= max
  }

  function Drop(bs: Lru, sel: Selector): (r: Lru)
    ensures |r| <= |bs|
    ensures forall b :: b in r <==> b in bs && !Picks(sel, b)
  {
    if bs == [] then []
    else if Picks(sel, bs[0]) then Drop(bs[1..], sel)
    else [bs[0]] + Drop(bs[1..], sel)
  }

  /** Popping the oldest block until the rest fits. */
  function Evict(bs: Lru, max: int): (r: Lru)
    ensures Bounded(r, max)
    ensures Suffix(r, bs)
  {
    if bs != [] && Total(bs) > max then Evict(bs[1..], max) else bs
  }

  function Store(bs: Lru, max: int, b: Block): (r: Lru)
    ensures Bounded(r, max)
  {
    Evict(Drop(bs, OneBlock(b.path, b.no)) + [b], max)
  }

  /** Reading a block: a hit moves it to the recent end, a miss stores it. */
  function Access(bs: Lru, max: int, b: Block): Lru {
    if Has(bs, b.path, b.no) then Drop(bs, OneBlock(b.path, b.no)) + [b] else Store(bs, max, b)
  }

  /** Reading the blocks `from..to` of a file in order, up to its last one; with the hit count. */
  function ReadBlocks(bs: Lru, max: int, path: string, content: Bytes, from: nat, to: int): (Lru, nat)
    decreases to - from
  {
    if from > to then (bs, 0)
    else
      var data := BlockOf(content, from);
      var hit := if Has(bs, path, from) then 1 else 0;
      var next := Access(bs, max, Block(path, from, data));
      if |data| < BLOCK then (next, hit)
      else
        var rest := ReadBlocks(next, max, path, content, from + 1, to);
        (rest.0, hit + rest.1)
  }

  /** Read-ahead: what is there is not touched, the rest is stored, up to the file's last block. */
  function ReadAhead(bs: Lru, max: int, path: string, content: Bytes, from: nat, end: int): Lru
    decreases end - from
  {
    if from >= end then bs
    else if Has(bs, path, from) then ReadAhead(bs, max, path, content, from + 1, end)
    else
      var data := BlockOf(content, from);
      var next := Store(bs, max, Block(path, from, data));
      if |data| < BLOCK then next else ReadAhead(next, max, path, content, from + 1, end)
  }

  lemma ReadAheadNext(bs: Lru, max: int, path: string, content: Bytes, from: nat, end: int)
    ensures from >= end ==> ReadAhead(bs, max, path, content, from, end) == bs
    ensures from < end && Has(bs, path, from) ==>
              ReadAhead(bs, max, path, content, from, end) == ReadAhead(bs, max, path, content, from + 1, end)
    ensures from < end && !Has(bs, path, from) ==>
              var b := Block(path, from, BlockOf(content, from));
              ReadAhead(bs, max, path, content, from, end)
                == if |b.data| < BLOCK then Store(bs, max, b)
                    else ReadAhead(Store(bs, max, b), max, path, content, from + 1, end)
  {
  }

  // ---- sizes, membership --------------------------------------------------

  predicate Suffix(s: Lru, l: Lru) {
    |s| <= |l| && l[|l| - |s|..] == s
  }

  lemma {:induction false} TotalAppend(a: Lru, b: Lru)
    ensures Total(a + b) == Total(a) + Total(b)
  {
    if a == [] {
      assert a + b == b;
    } else {
      assert (a + b)[1..] == a[1..] + b;
      TotalAppend(a[1..], b);
    }
  }

  lemma {:induction false} DropAppend(a: Lru, b: Lru, sel: Selector)
    ensures Drop(a + b, sel) == Drop(a, sel) + Drop(b, sel)
  {
    if a == [] {
      assert a + b == b;
    } else {
      assert (a + b)[1..] == a[1..] + b;
      DropAppend(a[1..], b, sel);
    }
  }

  lemma {:induction false} DropDistinct(bs: Lru, sel: Selector)
    requires Distinct(bs)
    ensures Distinct(Drop(bs, sel)) && Total(Drop(bs, sel)) <= Total(bs)
  {
    if bs != [] {
      DropDistinct(bs[1..], sel);
      FrontDistinct(bs[0], bs[1..], Drop(bs[1..], sel));
      assert [bs[0]] + bs[1..] == bs;
      hide Distinct;
    }
  }

  lemma FrontDistinct(b: Block, bs: Lru, rest: Lru)
    requires Distinct([b] + bs) && Distinct(rest) && forall x :: x in rest ==> x in bs
    ensures Distinct([b] + rest)
  {
    forall j | 0 <= j < |rest| ensures !(b.path == rest[j].path && b.no == rest[j].no) {
      assert rest[j] in bs;
      var k :| 0 <= k < |bs| && bs[k] == rest[j];
      assert ([b] + bs)[0] == b && ([b] + bs)[k + 1] == bs[k];
    }
  }

  lemma DropBounded(bs: Lru, max: int, sel: Selector)
    requires Distinct(bs) && Bounded(bs, max)
    ensures Bounded(Drop(bs, sel), max)
  {
    DropDistinct(bs, sel);
  }

  /** Distinct keys: taking one block out takes out exactly its size. */
  lemma {:induction false} DropOne(bs: Lru, i: nat)
    requires Distinct(bs) && i < |bs|
    ensures Drop(bs, OneBlock(bs[i].path, bs[i].no)) == bs[..i] + bs[i + 1..]
  {
    var sel := OneBlock(bs[i].path, bs[i].no);
    assert bs == bs[..i] + ([bs[i]] + bs[i + 1..]);
    DropAppend(bs[..i], [bs[i]] + bs[i + 1..], sel);
    DropNone(bs[..i], sel);
    DropNone(bs[i + 1..], sel);
    assert ([bs[i]] + bs[i + 1..])[1..] == bs[i + 1..];
  }

  lemma {:induction false} DropNone(bs: Lru, sel: Selector)
    requires forall b :: b in bs ==> !Picks(sel, b)
    ensures Drop(bs, sel) == bs
  {
    if bs != [] {
      DropNone(bs[1..], sel);
    }
  }

  /** The first `k` of `was` have been dealt with; `i` of them are kept. */
  predicate HalfDropped(was: Lru, k: nat, sel: Selector, bs: Lru, i: nat) {
    && k <= |was| && i == |Drop(was[..k], sel)| && i <= |bs|
    && bs[..i] == Drop(was[..k], sel) && bs[i..] == was[k..]
  }

  lemma DropStart(was: Lru, sel: Selector)
    ensures HalfDropped(was, 0, sel, was, 0)
  {
  }

  lemma DropStep(was: Lru, k: nat, sel: Selector, bs: Lru, i: nat)
    requires HalfDropped(was, k, sel, bs, i) && i < |bs|
    ensures k < |was|
    ensures if Picks(sel, bs[i]) then HalfDropped(was, k + 1, sel, bs[..i] + bs[i + 1..], i)
            else HalfDropped(was, k + 1, sel, bs, i + 1)
  {
    assert bs[i] == bs[i..][0] == was[k];
    assert was[..k + 1] == was[..k] + [was[k]];
    DropAppend(was[..k], [was[k]], sel);
    assert bs[i + 1..] == bs[i..][1..] == was[k + 1..];
  }

  lemma DropDone(was: Lru, k: nat, sel: Selector, bs: Lru, i: nat)
    requires HalfDropped(was, k, sel, bs, i) && i >= |bs|
    ensures bs == Drop(was, sel)
  {
    assert k == |was| by {
      assert |bs[i..]| == 0;
    }
    assert was[..k] == was && bs[..i] == bs;
  }

  lemma TotalCut(bs: Lru, i: nat)
    requires i < |bs|
    ensures Total(bs[..i] + bs[i + 1..]) == Total(bs) - |bs[i].data|
  {
    assert bs == bs[..i] + ([bs[i]] + bs[i + 1..]);
    TotalAppend(bs[..i], [bs[i]] + bs[i + 1..]);
    TotalAppend([bs[i]], bs[i + 1..]);
    TotalAppend(bs[..i], bs[i + 1..]);
  }

  // ---- eviction keeps the longest recent run that fits --------------------

  lemma {:induction false} EvictKeepsTheMost(bs: Lru, max: int, s: Lru)
    requires Suffix(s, bs) && Bounded(s, max)
    ensures Suffix(s, Evict(bs, max))
  {
    if bs != [] && Total(bs) > max {
      assert s != bs;
      assert bs[1..][|bs[1..]| - |s|..] == s;
      EvictKeepsTheMost(bs[1..], max, s);
    }
  }

  lemma SuffixTransitive(a: Lru, b: Lru, c: Lru)
    requires Suffix(a, b) && Suffix(b, c)
    ensures Suffix(a, c)
  {
  }

  lemma SuffixMember(s: Lru, l: Lru, b: Block)
    requires Suffix(s, l) && b in s
    ensures b in l
  {
  }

  lemma SuffixSplit(s: Lru, l: Lru) returns (a: Lru)
    requires Suffix(s, l)
    ensures l == a + s
  {
    a := l[..|l| - |s|];
  }

  lemma AppendSuffix(a: Lru, s: Lru)
    ensures Suffix(s, a + s)
  {
  }

  // ---- what read-ahead stores ----------------------------------------------

  /** Going on from block `from`, read-ahead comes to block `k`: each block on the way was there or is a full one. */
  predicate Reaches(bs: Lru, path: string, content: Bytes, from: nat, k: nat) {
    forall j :: from <= j < k ==> Has(bs, path, j) || |BlockOf(content, j)| == BLOCK
  }

  lemma StoreFits(bs: Lru, max: int, b: Block)
    requires !Has(bs, b.path, b.no) && Total(bs) + |b.data| <= max
    ensures Store(bs, max, b) == bs + [b] && Total(bs + [b]) == Total(bs) + |b.data|
  {
    var sel := OneBlock(b.path, b.no);
    forall x | x in bs ensures !Picks(sel, x) {
      var i :| 0 <= i < |bs| && bs[i] == x;
    }
    DropNone(bs, sel);
    TotalAppend(bs, [b]);
  }

  lemma HasOneMore(bs: Lru, b: Block, k: nat)
    ensures Has(bs + [b], b.path, k) <==> Has(bs, b.path, k) || k == b.no
  {
    if Has(bs, b.path, k) {
      var i :| 0 <= i < |bs| && Picks(OneBlock(b.path, k), bs[i]);
      assert (bs + [b])[i] == bs[i];
    }
    assert (bs + [b])[|bs|] == b;
  }

  /** While nothing has to give way, read-ahead keeps all blocks in their order and stores, behind them, exactly the
      blocks before `end` that it comes to and that are not there yet, with the file's own content. */
  lemma {:induction false} ReadAheadMeans(
    bs: Lru, max: int, path: string, content: Bytes, from: nat, end: nat, k: nat)
    requires from <= end && Total(bs) + (end - from) * BLOCK <= max
    ensures
      var after := ReadAhead(bs, max, path, content, from, end);
      && bs <= after
      && (forall b :: b in after[|bs|..] ==> b.path == path && b.data == BlockOf(content, b.no))
      && (Has(after, path, k) <==> Has(bs, path, k) || (from <= k < end && Reaches(bs, path, content, from, k)))
    decreases end - from
  {
    hide Has, BlockOf, Store, Total, ReadAhead;
    ReadAheadNext(bs, max, path, content, from, end);
    if from < end {
      if Has(bs, path, from) {
        ReadAheadMeans(bs, max, path, content, from + 1, end, k);
        assert Reaches(bs, path, content, from, k) <==> k <= from || Reaches(bs, path, content, from + 1, k);
      } else {
        var b := Block(path, from, BlockOf(content, from));
        BlockSize(content, from);
        StoreFits(bs, max, b);
        HasOneMore(bs, b, k);
        if |b.data| == BLOCK {
          ReadAheadMeans(bs + [b], max, path, content, from + 1, end, k);
          ReachesOn(bs, b, content, k);
          var after := ReadAhead(bs + [b], max, path, content, from + 1, end);
          assert after[|bs|..] == [b] + after[|bs| + 1..];
        }
      }
    }
  }

  lemma BlockSize(content: Bytes, no: nat)
    ensures |BlockOf(content, no)| <= BLOCK
  {
  }

  lemma ReachesOn(bs: Lru, b: Block, content: Bytes, k: nat)
    requires |b.data| == BLOCK && b.data == BlockOf(content, b.no)
    ensures k > b.no ==>
              (Reaches(bs + [b], b.path, content, b.no + 1, k) <==> Reaches(bs, b.path, content, b.no, k))
  {
    hide Has, BlockOf;
    forall j | b.no <= j < k
      ensures Has(bs + [b], b.path, j) <==> Has(bs, b.path, j) || j == b.no
    {
      HasOneMore(bs, b, j);
    }
  }

  // ---- a larger cache always holds what a smaller one holds ----------------

  lemma {:induction false} EvictIncludes(s: Lru, l: Lru, small: int, large: int)
    requires Suffix(s, l) && small <= large
    ensures Suffix(Evict(s, small), Evict(l, large))
  {
    SuffixTransitive(Evict(s, small), s, l);
    EvictKeepsTheMost(l, large, Evict(s, small));
  }

  lemma DropIncludes(s: Lru, l: Lru, sel: Selector)
    requires Suffix(s, l)
    ensures Suffix(Drop(s, sel), Drop(l, sel))
  {
    var a := SuffixSplit(s, l);
    DropAppend(a, s, sel);
    AppendSuffix(Drop(a, sel), Drop(s, sel));
  }

  lemma HasIncludes(s: Lru, l: Lru, path: string, no: nat)
    requires Suffix(s, l) && Has(s, path, no)
    ensures Has(l, path, no)
  {
  }

  lemma AccessIncludes(s: Lru, l: Lru, small: int, large: int, b: Block)
    requires Suffix(s, l) && small <= large
    requires Bounded(s, small) && Bounded(l, large)
    ensures Suffix(Access(s, small, b), Access(l, large, b))
    ensures Has(s, b.path, b.no) ==> Has(l, b.path, b.no)
  {
    var sel := OneBlock(b.path, b.no);
    DropIncludes(s, l, sel);
    var ds, dl := Drop(s, sel) + [b], Drop(l, sel) + [b];
    var a := SuffixSplit(Drop(s, sel), Drop(l, sel));
    assert dl == a + ds;
    AppendSuffix(a, ds);
    if Has(s, b.path, b.no) {
      HasIncludes(s, l, b.path, b.no);
    } else if Has(l, b.path, b.no) {
      SuffixTransitive(Evict(ds, small), ds, dl);
    } else {
      EvictIncludes(ds, dl, small, large);
    }
  }

  // ---- cutting a request at block borders ----------------------------------

  /** Python's data[lo:hi] for 0 <= lo <= hi. */
  function Cut(data: Bytes, lo: nat, hi: nat): Bytes {
    Slice(data, lo, hi - lo)
  }

  /** What block `no` contributes to a request for `length` bytes at `offset`. */
  function Piece(data: Bytes, offset: nat, length: nat, no: nat): Bytes
    requires no * BLOCK < offset + length && offset < (no + 1) * BLOCK
  {
    var start := no * BLOCK;
    Cut(data, Max(offset, start) - start, Min(offset + length, start + BLOCK) - start)
  }

  /** The part of the request that the blocks before `no` hold. */
  function Before(content: Bytes, offset: nat, no: nat): Bytes {
    Slice(content, offset, no * BLOCK - offset)
  }

  /** How many bytes of a request the blocks before `no` can hold. */
  function Upto(offset: nat, length: nat, no: nat): (n: nat)
    ensures n <= length
  {
    Max(0, Min(offset + length, no * BLOCK) - offset)
  }

  lemma PieceFits(data: Bytes, offset: nat, length: nat, no: nat)
    requires no * BLOCK < offset + length && offset < (no + 1) * BLOCK
    ensures Upto(offset, length, no) + |Piece(data, offset, length, no)| <= Upto(offset, length, no + 1)
  {
  }

  lemma PieceIsSlice(content: Bytes, offset: nat, length: nat, no: nat)
    requires no * BLOCK < offset + length && offset < (no + 1) * BLOCK
    ensures
      var start := no * BLOCK;
      Piece(BlockOf(content, no), offset, length, no)
        == Slice(content, Max(offset, start), Min(offset + length, start + BLOCK) - Max(offset, start))
  {
  }

  lemma SlicesMeet(content: Bytes, offset: nat, middle: nat, end: nat)
    requires offset <= middle <= end
    ensures Slice(content, offset, middle - offset) + Slice(content, middle, end - middle)
         == Slice(content, offset, end - offset)
  {
  }

  /** One round of the block loop: before the last block the pieces reach the next
      border, at the last block (or the end of the file) the request is complete. */
  lemma NextPiece(content: Bytes, offset: nat, length: nat, no: nat)
    requires length > 0 && offset / BLOCK <= no <= (offset + length - 1) / BLOCK
    ensures no * BLOCK < offset + length && offset < (no + 1) * BLOCK
    ensures
      var out := Before(content, offset, no) + Piece(BlockOf(content, no), offset, length, no);
      && (no < (offset + length - 1) / BLOCK ==> out == Before(content, offset, no + 1))
      && (no == (offset + length - 1) / BLOCK || |BlockOf(content, no)| < BLOCK ==>
          out == Slice(content, offset, length))
  {
    BlockBounds(offset, length, no);
    var start := no * BLOCK;
    var end, middle := Min(offset + length, start + BLOCK), Max(offset, start);
    PieceIsSlice(content, offset, length, no);
    SlicesMeet(content, offset, middle, end);
    SliceEmpty(content, offset, start - offset);
    SliceToEnd(content, offset, end - offset, length);
    assert |BlockOf(content, no)| < BLOCK ==> |content| <= end || end == offset + length;
    hide Slice, BlockOf, Piece;
  }

  lemma SliceEmpty(content: Bytes, offset: nat, length: int)
    ensures length <= 0 ==> Slice(content, offset, length) == [] == Slice(content, offset, 0)
  {
  }

  lemma SliceToEnd(content: Bytes, offset: nat, n: int, m: int)
    requires 0 <= n <= m
    ensures |content| <= offset + n ==> Slice(content, offset, n) == Slice(content, offset, m)
  {
  }

  /** Where block `no` lies among the blocks of a request. */
  lemma BlockBounds(offset: nat, length: nat, no: nat)
    requires length > 0 && offset / BLOCK <= no <= (offset + length - 1) / BLOCK
    ensures no * BLOCK < offset + length && offset < (no + 1) * BLOCK
    ensures no < (offset + length - 1) / BLOCK ==> (no + 1) * BLOCK <= offset + length - 1
    ensures no == (offset + length - 1) / BLOCK ==> offset + length <= (no + 1) * BLOCK
  {
  }

  lemma BeforeFirst(content: Bytes, offset: nat, length: nat)
    ensures length > 0 ==> offset / BLOCK <= (offset + length - 1) / BLOCK
    ensures Before(content, offset, offset / BLOCK) == []
  {
  }

  lemma ReadBlocksNext(bs: Lru, max: int, path: string, content: Bytes, from: nat, to: int)
    requires from <= to
    ensures
      var b := Block(path, from, BlockOf(content, from));
      var hit := if Has(bs, path, from) then 1 else 0;
      var next := Access(bs, max, b);
      var rest := ReadBlocks(next, max, path, content, from + 1, to);
      ReadBlocks(bs, max, path, content, from, to)
        == (if |b.data| < BLOCK then (next, hit) else (rest.0, hit + rest.1))
  {
  }

  lemma ReadBlocksEnd(bs: Lru, max: int, path: string, content: Bytes, from: nat, to: int)
    ensures from > to ==> ReadBlocks(bs, max, path, content, from, to) == (bs, 0)
  {
  }

  // ---- whole runs over one unchanged tree ---------------------------------

  datatype CacheOp =
    | ReadOp(path: string, offset: nat, length: int)
    | InvalidateOp(path: string)

  /** Every held block is the file's own. */
  ghost predicate Exact(bs: Lru, t: Tree) {
    forall b :: b in bs ==> IsFile(t, b.path) && b.data == BlockOf(t[b.path].content, b.no)
  }

  ghost predicate Sound(bs: Lru, max: int, t: Tree) {
    Distinct(bs) && Bounded(bs, max) && Exact(bs, t)
  }

  /** The blocks and the hits after one operation that the backend does not refuse. */
  function Apply(bs: Lru, max: int, t: Tree, op: CacheOp): (Lru, nat) {
    match op
    case ReadOp(path, offset, length) =>
      if length <= 0 || !IsFile(t, path) then (bs, 0)
      else ReadBlocks(bs, max, path, t[path].content, offset / BLOCK, (offset + length - 1) / BLOCK)
    case InvalidateOp(path) => (Drop(Drop(bs, OnePath(path)), Subtree(path)), 0)
  }

  function ApplyAll(bs: Lru, max: int, t: Tree, ops: seq<CacheOp>): (Lru, nat)
    decreases |ops|
  {
    if ops == [] then (bs, 0)
    else
      var one := Apply(bs, max, t, ops[0]);
      var rest := ApplyAll(one.0, max, t, ops[1..]);
      (rest.0, one.1 + rest.1)
  }

  lemma TouchTotal(bs: Lru, b: Block)
    requires Distinct(bs) && b in bs
    ensures Total(Drop(bs, OneBlock(b.path, b.no)) + [b]) == Total(bs)
  {
    var i :| 0 <= i < |bs| && bs[i] == b;
    DropOne(bs, i);
    TotalCut(bs, i);
    TotalAppend(bs[..i] + bs[i + 1..], [b]);
  }

  lemma AddDistinct(bs: Lru, b: Block)
    requires Distinct(bs)
    ensures Distinct(Drop(bs, OneBlock(b.path, b.no)) + [b])
  {
    var d := Drop(bs, OneBlock(b.path, b.no));
    DropDistinct(bs, OneBlock(b.path, b.no));
    forall i | 0 <= i < |d| ensures !(d[i].path == b.path && d[i].no == b.no) {
      assert d[i] in d;
    }
  }

  lemma SuffixDistinct(s: Lru, l: Lru)
    requires Suffix(s, l) && Distinct(l)
    ensures Distinct(s) && forall b :: b in s ==> b in l
  {
  }

  lemma AccessSound(bs: Lru, max: int, t: Tree, b: Block)
    requires Sound(bs, max, t)
    requires IsFile(t, b.path) && b.data == BlockOf(t[b.path].content, b.no)
    ensures Sound(Access(bs, max, b), max, t)
  {
    AddDistinct(bs, b);
    var added := Drop(bs, OneBlock(b.path, b.no)) + [b];
    if Has(bs, b.path, b.no) {
      var i :| 0 <= i < |bs| && Picks(OneBlock(b.path, b.no), bs[i]);
      assert bs[i] in bs && bs[i] == b;
      TouchTotal(bs, b);
    } else {
      SuffixDistinct(Evict(added, max), added);
    }
  }

  lemma DropSound(bs: Lru, max: int, t: Tree, sel: Selector)
    requires Sound(bs, max, t)
    ensures Sound(Drop(bs, sel), max, t)
  {
    DropDistinct(bs, sel);
  }

  /** A smaller cache beside a larger one that holds at least as much. */
  ghost predicate Nested(s: Lru, l: Lru, small: int, large: int, t: Tree) {
    small <= large && Suffix(s, l) && Sound(s, small, t) && Sound(l, large, t)
  }

  lemma AccessNested(s: Lru, l: Lru, small: int, large: int, t: Tree, b: Block)
    requires Nested(s, l, small, large, t)
    requires IsFile(t, b.path) && b.data == BlockOf(t[b.path].content, b.no)
    ensures Nested(Access(s, small, b), Access(l, large, b), small, large, t)
    ensures Has(s, b.path, b.no) ==> Has(l, b.path, b.no)
  {
    AccessIncludes(s, l, small, large, b);
    AccessSound(s, small, t, b);
    AccessSound(l, large, t, b);
  }

  lemma {:induction false} ReadNested(
    s: Lru, l: Lru, small: int, large: int, t: Tree, path: string, content: Bytes, from: nat, to: int)
    requires IsFile(t, path) && content == t[path].content
    requires Nested(s, l, small, large, t)
    ensures Nested(ReadBlocks(s, small, path, content, from, to).0,
                   ReadBlocks(l, large, path, content, from, to).0, small, large, t)
    ensures ReadBlocks(s, small, path, content, from, to).1 <= ReadBlocks(l, large, path, content, from, to).1
    decreases Max(0, to + 1 - from)
  {
    hide Nested;
    hide Access;
    if from <= to {
      var b := Block(path, from, BlockOf(content, from));
      AccessNested(s, l, small, large, t, b);
      if |b.data| >= BLOCK {
        ReadNested(Access(s, small, b), Access(l, large, b), small, large, t, path, content, from + 1, to);
      }
    }
  }

  lemma InvalidateNested(s: Lru, l: Lru, small: int, large: int, t: Tree, sel: Selector)
    requires Nested(s, l, small, large, t)
    ensures Nested(Drop(s, sel), Drop(l, sel), small, large, t)
  {
    DropIncludes(s, l, sel);
    DropSound(s, small, t, sel);
    DropSound(l, large, t, sel);
  }

  lemma ApplyNested(s: Lru, l: Lru, small: int, large: int, t: Tree, op: CacheOp)
    requires Nested(s, l, small, large, t)
    ensures Nested(Apply(s, small, t, op).0, Apply(l, large, t, op).0, small, large, t)
    ensures Apply(s, small, t, op).1 <= Apply(l, large, t, op).1
  {
    hide Nested;
    hide ReadBlocks;
    match op {
      case ReadOp(path, offset, length) =>
        if length > 0 && IsFile(t, path) {
          ReadNested(s, l, small, large, t, path, t[path].content, offset / BLOCK, (offset + length - 1) / BLOCK);
        }
      case InvalidateOp(path) =>
        InvalidateNested(s, l, small, large, t, OnePath(path));
        InvalidateNested(Drop(s, OnePath(path)), Drop(l, OnePath(path)), small, large, t, Subtree(path));
    }
  }

  /** The same operations on a smaller and a larger cache: the larger one holds
      everything the smaller one holds, with the same recency, and never has fewer hits. */
  lemma {:induction false} LargerCacheIncludesSmaller(s: Lru, l: Lru, small: int, large: int, t: Tree,
      ops: seq<CacheOp>)
    requires Nested(s, l, small, large, t)
    ensures Nested(ApplyAll(s, small, t, ops).0, ApplyAll(l, large, t, ops).0, small, large, t)
    ensures ApplyAll(s, small, t, ops).1 <= ApplyAll(l, large, t, ops).1
    decreases |ops|
  {
    if ops != [] {
      ApplyNested(s, l, small, large, t, ops[0]);
      LargerCacheIncludesSmaller(Apply(s, small, t, ops[0]).0, Apply(l, large, t, ops[0]).0, small, large, t, ops[1..]);
    }
  }
}

/** A pool tiled by consecutive blocks, each headed by `hd` bytes of bookkeeping.

    The tiling is the sequence of block offsets, closed by a sentinel block at `end`.
    Both heap allocators keep their headers in such a pool. */
module Blocks {
  import opened Ring

  const LEAST: int := 12  // RT_MEMHEAP_MINIALLOC of memheap.c and MIN_SIZE_ALIGNED of mem.c

  /** A request rounded up to the alignment and to the smallest block. */
  function Rounded(size: nat): (n: nat)
    ensures size <= n && LEAST <= n && n % 4 == 0
    ensures n == LEAST || n < size + 4
  {
    var n := (size + 3) / 4 * 4;
    if n < LEAST then LEAST else n
  }

  /** The headers that survive when a new one is stored at `at`. */
  function Overwrite<T>(m: map<int, T>, at: int, hd: int): map<int, T> {
    map x | x in m && (x + hd <= at || at + hd <= x) :: m[x]
  }

  /** The blocks lie in address order from offset 0 to the tailer at `end`, aligned,
      each with room for its header. */
  ghost predicate Tiles(blocks: seq<int>, end: int, hd: int) {
    && 0 < hd && 2 <= |blocks| && blocks[0] == 0 && blocks[|blocks| - 1] == end
    && (forall i, j :: 0 <= i < j < |blocks| ==> blocks[i] + hd <= blocks[j])
    && (forall i :: 0 <= i < |blocks| ==> blocks[i] % 4 == 0)
  }

  predicate InUse(used: map<int, bool>, x: int) {
    x in used && used[x]
  }

  /** Of any two neighbours outside `except`, one is in use. */
  ghost predicate NoFreePairs(blocks: seq<int>, used: map<int, bool>, except: set<int>) {
    forall i {:trigger blocks[i + 1]} ::
      0 <= i < |blocks| - 1 && i !in except ==> InUse(used, blocks[i]) || InUse(used, blocks[i + 1])
  }

  function Weight(a: int, b: int, used: map<int, bool>, kind: Kind): int {
    match kind
    case FreeData(hd) => if InUse(used, a) then 0 else b - a - hd
    case UsedExtent => if InUse(used, a) then b - a else 0
  }

  /** What an allocator counts: the data bytes of the unused blocks, or the bytes covered by
      the used ones, headers included. */
  datatype Kind = FreeData(hd: int) | UsedExtent

  ghost function Sum(blocks: seq<int>, used: map<int, bool>, kind: Kind): int {
    if |blocks| < 2 then 0 else Weight(blocks[0], blocks[1], used, kind) + Sum(blocks[1..], used, kind)
  }

  lemma SumFramed(blocks: seq<int>, used: map<int, bool>, used': map<int, bool>, kind: Kind)
    requires forall x :: x in blocks ==> InUse(used, x) == InUse(used', x)
    ensures Sum(blocks, used, kind) == Sum(blocks, used', kind)
  {
    if 2 <= |blocks| {
      SumFramed(blocks[1..], used, used', kind);
    }
  }

  /** Marking one block changes the sum by its own weight only. */
  lemma {:induction false} SumMarked(blocks: seq<int>, used: map<int, bool>, i: nat, b: bool, kind: Kind)
    requires Distinct(blocks) && i + 1 < |blocks|
    ensures Sum(blocks, used[blocks[i] := b], kind)
         == Sum(blocks, used, kind) - Weight(blocks[i], blocks[i + 1], used, kind)
            + Weight(blocks[i], blocks[i + 1], used[blocks[i] := b], kind)
  {
    var used' := used[blocks[i] := b];
    if i == 0 {
      assert forall x :: x in blocks[1..] ==> x in blocks && x != blocks[0];
      SumFramed(blocks[1..], used, used', kind);
    } else {
      assert blocks[1..][i - 1] == blocks[i] && blocks[1..][i] == blocks[i + 1];
      SumMarked(blocks[1..], used, i - 1, b, kind);
      assert blocks[0] != blocks[i];
    }
  }

  /** A header between two blocks splits the weight of the first. */
  lemma {:induction false} SumInserted(blocks: seq<int>, used: map<int, bool>, i: nat, x: int, kind: Kind)
    requires i + 1 < |blocks|
    ensures Sum(InsertAt(blocks, i + 1, x), used, kind)
         == Sum(blocks, used, kind) - Weight(blocks[i], blocks[i + 1], used, kind)
            + Weight(blocks[i], x, used, kind) + Weight(x, blocks[i + 1], used, kind)
  {
    var r := InsertAt(blocks, i + 1, x);
    if i == 0 {
      assert r[1..] == [x] + blocks[1..];
      assert r[1..][1..] == blocks[1..];
    } else {
      assert r[1..] == InsertAt(blocks[1..], i, x);
      SumInserted(blocks[1..], used, i - 1, x, kind);
    }
  }

  lemma SumRemoved(blocks: seq<int>, used: map<int, bool>, i: nat, kind: Kind)
    requires 0 < i && i + 1 < |blocks|
    ensures Sum(RemoveAt(blocks, i), used, kind)
         == Sum(blocks, used, kind) - Weight(blocks[i - 1], blocks[i], used, kind)
            - Weight(blocks[i], blocks[i + 1], used, kind) + Weight(blocks[i - 1], blocks[i + 1], used, kind)
  {
    var r := RemoveAt(blocks, i);
    assert blocks == InsertAt(r, i, blocks[i]);
    SumInserted(r, used, i - 1, blocks[i], kind);
  }

  lemma TilesInserted(blocks: seq<int>, end: int, i: nat, x: int, hd: int)
    requires Tiles(blocks, end, hd) && i + 1 < |blocks|
    requires blocks[i] + hd <= x && x + hd <= blocks[i + 1] && x % 4 == 0
    ensures x !in blocks && Tiles(InsertAt(blocks, i + 1, x), end, hd)
  {
    hide Tiles, InsertAt;
    var r := InsertAt(blocks, i + 1, x);
    forall a, b | 0 <= a < b < |blocks| + 1
      ensures r[a] + hd <= r[b]
    {
      InsertedAt(blocks, i + 1, x, a);
      InsertedAt(blocks, i + 1, x, b);
      Apart(blocks, end, hd, if a <= i then a else i, i);
      Apart(blocks, end, hd, i + 1, if b <= i + 1 then i + 1 else b - 1);
      Apart(blocks, end, hd, if a <= i then a else a - 1, if b <= i then b else b - 1);
    }
    forall a | 0 <= a < |blocks| + 1
      ensures r[a] % 4 == 0
    {
      InsertedAt(blocks, i + 1, x, a);
      Apart(blocks, end, hd, if a <= i then a else a - 1, if a <= i then a else a - 1);
    }
    InsertedAt(blocks, i + 1, x, 0);
    InsertedAt(blocks, i + 1, x, |blocks|);
    Apart(blocks, end, hd, 0, 0);
    if x in blocks {
      var c := IndexOf(blocks, x);
      Apart(blocks, end, hd, if c <= i then c else i, i);
      Apart(blocks, end, hd, i + 1, if c <= i then i + 1 else c);
    }
    TilesOf(r, end, hd);
  }

  lemma InsertedAt(s: seq<int>, k: nat, x: int, j: nat)
    requires k <= |s| && j <= |s|
    ensures var r := InsertAt(s, k, x);
      |r| == |s| + 1 && r[j] == if j < k then s[j] else if j == k then x else s[j - 1]
  {
  }

  lemma Apart(blocks: seq<int>, end: int, hd: int, i: nat, j: nat)
    requires Tiles(blocks, end, hd) && i <= j < |blocks|
    ensures (if i < j then blocks[i] + hd else blocks[i]) <= blocks[j] && blocks[i] % 4 == 0
    ensures 0 < hd && 2 <= |blocks| && blocks[0] == 0 && blocks[|blocks| - 1] == end
  {
  }

  lemma TilesOf(r: seq<int>, end: int, hd: int)
    requires 0 < hd && 2 <= |r| && r[0] == 0 && r[|r| - 1] == end
    requires forall i, j :: 0 <= i < j < |r| ==> r[i] + hd <= r[j]
    requires forall i :: 0 <= i < |r| ==> r[i] % 4 == 0
    ensures Tiles(r, end, hd)
  {
  }

  lemma TilesDistinct(blocks: seq<int>, end: int, hd: int)
    requires Tiles(blocks, end, hd)
    ensures Distinct(blocks)
  {
  }

  lemma TilesRemoved(blocks: seq<int>, end: int, i: nat, hd: int)
    requires Tiles(blocks, end, hd) && 0 < i && i + 1 < |blocks|
    ensures Tiles(RemoveAt(blocks, i), end, hd)
  {
    var r := RemoveAt(blocks, i);
    forall j | 0 <= j < |r|
      ensures r[j] == if j < i then blocks[j] else blocks[j + 1]
    {
    }
  }

  lemma PairsInserted(blocks: seq<int>, used: map<int, bool>, i: nat, x: int)
    requires NoFreePairs(blocks, used, {i}) && i + 1 < |blocks|
    ensures NoFreePairs(InsertAt(blocks, i + 1, x), used, {i, i + 1})
  {
    var r := InsertAt(blocks, i + 1, x);
    forall j {:trigger r[j + 1]} | 0 <= j < |r| - 1 && j !in {i, i + 1}
      ensures InUse(used, r[j]) || InUse(used, r[j + 1])
    {
      var k := if j < i then j else j - 1;
      assert r[j] == blocks[k] && r[j + 1] == blocks[k + 1];
    }
  }

  lemma PairsRemoved(blocks: seq<int>, used: map<int, bool>, i: nat, open: set<int>, keep: set<int>)
    requires NoFreePairs(blocks, used, open) && 0 < i && i + 1 < |blocks|
    requires i - 1 in keep && forall e :: e in open ==> (e < i && e in keep) || e == i
    ensures NoFreePairs(RemoveAt(blocks, i), used, keep)
  {
    var r := RemoveAt(blocks, i);
    forall j {:trigger r[j + 1]} | 0 <= j < |r| - 1 && j !in keep
      ensures InUse(used, r[j]) || InUse(used, r[j + 1])
    {
      var k := if j < i - 1 then j else j + 1;
      assert r[j] == blocks[k] && r[j + 1] == blocks[k + 1];
    }
  }

  lemma PairsMarked(blocks: seq<int>, used: map<int, bool>, i: nat, b: bool)
    requires Distinct(blocks) && i < |blocks| && NoFreePairs(blocks, used, {})
    ensures NoFreePairs(blocks, used[blocks[i] := b], if b then {} else {i - 1, i})
  {
    var used' := used[blocks[i] := b];
    forall j {:trigger blocks[j + 1]} | 0 <= j < |blocks| - 1 && (b || j !in {i - 1, i})
      ensures InUse(used', blocks[j]) || InUse(used', blocks[j + 1])
    {
      assert InUse(used, blocks[j]) || InUse(used, blocks[j + 1]);
    }
  }

  lemma UsedAfter(blocks: seq<int>, used: map<int, bool>, open: set<int>, m: nat)
    requires NoFreePairs(blocks, used, open) && m !in open && m + 1 < |blocks| && !InUse(used, blocks[m])
    ensures InUse(used, blocks[m + 1])
  {
  }

  lemma PairsClosed(blocks: seq<int>, used: map<int, bool>, except: set<int>, keep: set<int>)
    requires NoFreePairs(blocks, used, except)
    requires forall i {:trigger blocks[i + 1]} :: i in except && i !in keep && 0 <= i < |blocks| - 1
                                                  ==> InUse(used, blocks[i]) || InUse(used, blocks[i + 1])
    ensures NoFreePairs(blocks, used, keep)
  {
  }

  /** A free block behind a free block is followed by a used one. */
  lemma RightPairs(blocks: seq<int>, used: map<int, bool>, j: nat)
    requires NoFreePairs(blocks, used, {j}) && j + 2 < |blocks| && !InUse(used, blocks[j + 1])
    ensures NoFreePairs(blocks, used, {j, j + 1})
    ensures NoFreePairs(RemoveAt(blocks, j + 1), used, {j}) ==> NoFreePairs(RemoveAt(blocks, j + 1), used, {})
  {
    var m := j + 1;
    assert InUse(used, blocks[m]) || InUse(used, blocks[m + 1]);
    assert RemoveAt(blocks, j + 1)[j + 1] == blocks[j + 2];
  }

  /** MEMITEM_SIZE: the data bytes behind a header. */
  function ItemSize(next: map<int, int>, b: int, hd: int): int {
    if b in next then next[b] - b - hd else 0
  }

  /** The blocks handed out and their sizes. */
  ghost function LiveBlocks(blocks: seq<int>, used: map<int, bool>, next: map<int, int>, end: int, hd: int): map<int, int> {
    map b | b in blocks && InUse(used, b) && b != end :: ItemSize(next, b, hd)
  }

  /** What a new header at `x`, behind the i-th block, does to the other headers. */
  lemma InsertedHeaders(blocks: seq<int>, end: int, used: map<int, bool>, next: map<int, int>, i: nat, x: int, hd: int)
    requires Tiles(blocks, end, hd) && i + 1 < |blocks|
    requires blocks[i] + hd <= x && x + hd <= blocks[i + 1]
    requires forall y :: y in blocks ==> y in next
    ensures
      var h := blocks[i];
      var u, n := Overwrite(used, x, hd)[x := false], Overwrite(next, x, hd)[x := blocks[i + 1]][h := x];
      && x !in blocks && !InUse(u, x)
      && (forall y :: y in blocks ==> InUse(u, y) == InUse(used, y))
      && (forall y :: y in InsertAt(blocks, i + 1, x) <==> y == x || y in blocks)
      && (forall y :: y in blocks && y != h ==> ItemSize(n, y, hd) == ItemSize(next, y, hd))
      && ItemSize(n, h, hd) == x - h - hd && ItemSize(n, x, hd) == blocks[i + 1] - x - hd
  {
    ClearOf(blocks, end, i, x, hd);
    assert x !in blocks;
    InsertAtMembers(blocks, i + 1, x);
  }

  /** What a new free block at `x`, behind the i-th block, does to the books. */
  lemma InsertedAccounts(blocks: seq<int>, used: map<int, bool>, u: map<int, bool>, i: nat, x: int, kind: Kind)
    requires i + 1 < |blocks| && !InUse(u, x)
    requires forall y :: y in blocks ==> InUse(u, y) == InUse(used, y)
    ensures NoFreePairs(blocks, used, {}) ==> NoFreePairs(InsertAt(blocks, i + 1, x), u, {i, i + 1})
    ensures Sum(InsertAt(blocks, i + 1, x), u, kind)
         == Sum(blocks, used, kind) - Weight(blocks[i], blocks[i + 1], used, kind)
            + Weight(blocks[i], x, used, kind) + Weight(x, blocks[i + 1], u, kind)
  {
    SumFramed(blocks, used, u, kind);
    SumInserted(blocks, u, i, x, kind);
    assert blocks[i] in blocks;
    if NoFreePairs(blocks, used, {}) {
      forall j {:trigger blocks[j + 1]} | 0 <= j < |blocks| - 1 && j !in {i}
        ensures InUse(u, blocks[j]) || InUse(u, blocks[j + 1])
      {
        assert blocks[j] in blocks && blocks[j + 1] in blocks;
      }
      PairsInserted(blocks, u, i, x);
    }
  }

  lemma PartAccounts(blocks: seq<int>, end: int, used: map<int, bool>, u: map<int, bool>, i: nat, x: int, hd: int)
    requires Tiles(blocks, end, hd) && i + 1 < |blocks| && !InUse(u, x) && !InUse(used, blocks[i])
    requires blocks[i] + hd <= x && x + hd <= blocks[i + 1] && x % 4 == 0
    requires forall y :: y in blocks ==> InUse(u, y) == InUse(used, y)
    requires NoFreePairs(blocks, used, {})
    ensures var r, u' := InsertAt(blocks, i + 1, x), u[blocks[i] := true];
            && Tiles(r, end, hd) && NoFreePairs(r, u', {})
            && Sum(r, u', FreeData(hd)) == Sum(blocks, used, FreeData(hd)) - (x - blocks[i])
            && Sum(r, u', UsedExtent) == Sum(blocks, used, UsedExtent) + (x - blocks[i])
  {
    hide Tiles, Distinct, Sum, NoFreePairs, InsertAt;
    var r := InsertAt(blocks, i + 1, x);
    InsertedAccounts(blocks, used, u, i, x, FreeData(hd));
    InsertedAccounts(blocks, used, u, i, x, UsedExtent);
    TilesInserted(blocks, end, i, x, hd);
    TilesDistinct(r, end, hd);
    InsertedAt(blocks, i + 1, x, i);
    InsertedAt(blocks, i + 1, x, i + 1);
    SumMarked(r, u, i, true, FreeData(hd));
    SumMarked(r, u, i, true, UsedExtent);
    PartPairs(blocks, used, u, i, x);
  }

  /** Splitting the free block `h` at `x` and handing out its front part. */
  lemma PartLive(blocks: seq<int>, end: int, used: map<int, bool>, next: map<int, int>, i: nat, x: int, hd: int)
    requires Tiles(blocks, end, hd) && i + 1 < |blocks|
    requires blocks[i] + hd <= x && x + hd <= blocks[i + 1]
    requires forall y :: y in blocks ==> y in next && y in used
    requires !InUse(used, blocks[i]) && InUse(used, end)
    ensures
      var h, r := blocks[i], InsertAt(blocks, i + 1, x);
      var u, n := Overwrite(used, x, hd)[x := false][h := true], Overwrite(next, x, hd)[x := blocks[i + 1]][h := x];
      && x !in blocks && !InUse(u, x) && h !in LiveBlocks(blocks, used, next, end, hd)
      && (forall y :: y in blocks && y != h ==> InUse(u, y) == InUse(used, y))
      && (forall y :: y in r <==> y == x || y in blocks)
      && InUse(u, end) && (forall y :: y in r ==> y in u)
      && LiveBlocks(r, u, n, end, hd) == LiveBlocks(blocks, used, next, end, hd)[h := x - h - hd]
  {
    hide Tiles, InsertAt, LiveBlocks, Overwrite, ItemSize;
    var h, r := blocks[i], InsertAt(blocks, i + 1, x);
    var u, n := Overwrite(used, x, hd)[x := false], Overwrite(next, x, hd)[x := blocks[i + 1]][h := x];
    Apart(blocks, end, hd, i, |blocks| - 1);
    assert h in blocks && blocks[|blocks| - 1] in blocks && h != end;
    InsertedHeaders(blocks, end, used, next, i, x, hd);
    HeadersKept(blocks, end, used, i, x, hd);
    NotLive(blocks, used, next, end, h, hd);
    PartLiveOf(blocks, end, used, next, r, u, n, h, x, hd);
  }

  lemma HeadersKept(blocks: seq<int>, end: int, used: map<int, bool>, i: nat, x: int, hd: int)
    requires Tiles(blocks, end, hd) && i + 1 < |blocks|
    requires blocks[i] + hd <= x && x + hd <= blocks[i + 1]
    requires forall y :: y in blocks ==> y in used
    ensures forall y :: y in blocks ==> y in Overwrite(used, x, hd)
  {
    ClearOf(blocks, end, i, x, hd);
  }

  lemma PartLiveOf(blocks: seq<int>, end: int, used: map<int, bool>, next: map<int, int>,
                   r: seq<int>, u: map<int, bool>, n: map<int, int>, h: int, x: int, hd: int)
    requires h in blocks && h != end && x !in blocks && !InUse(u, x) && !InUse(used, h)
    requires forall y :: y in blocks ==> InUse(u, y) == InUse(used, y)
    requires forall y :: y in r <==> y == x || y in blocks
    requires forall y :: y in blocks && y != h ==> ItemSize(n, y, hd) == ItemSize(next, y, hd)
    requires ItemSize(n, h, hd) == x - h - hd
    ensures LiveBlocks(r, u[h := true], n, end, hd) == LiveBlocks(blocks, used, next, end, hd)[h := x - h - hd]
  {
    hide ItemSize;
    LiveAdded(blocks, used, next, r, u[h := true], n, end, h, hd);
  }

  lemma NotLive(blocks: seq<int>, used: map<int, bool>, next: map<int, int>, end: int, h: int, hd: int)
    requires !InUse(used, h)
    ensures h !in LiveBlocks(blocks, used, next, end, hd)
  {
  }

  lemma PartPairs(blocks: seq<int>, used: map<int, bool>, u: map<int, bool>, i: nat, x: int)
    requires i + 1 < |blocks| && !InUse(used, blocks[i]) && NoFreePairs(blocks, used, {})
    requires forall y :: y in blocks ==> InUse(u, y) == InUse(used, y)
    requires NoFreePairs(InsertAt(blocks, i + 1, x), u, {i, i + 1})
    ensures NoFreePairs(InsertAt(blocks, i + 1, x), u[blocks[i] := true], {})
  {
    var r := InsertAt(blocks, i + 1, x);
    assert InUse(used, blocks[i]) || InUse(used, blocks[i + 1]);
    assert r[i] == blocks[i] && r[i + 2] == blocks[i + 1] && blocks[i + 1] in blocks;
    PairsClosed(r, u[blocks[i] := true], {i, i + 1}, {});
  }

  /** Joining the i-th block, which is free, to the free block before it. */
  lemma Merged(blocks: seq<int>, end: int, used: map<int, bool>, next: map<int, int>, i: nat, hd: int,
               open: set<int>, keep: set<int>)
    requires Tiles(blocks, end, hd) && 0 < i && i + 1 < |blocks|
    requires !InUse(used, blocks[i - 1]) && !InUse(used, blocks[i])
    requires NoFreePairs(blocks, used, open)
    requires i - 1 in keep && forall e :: e in open ==> (e < i && e in keep) || e == i
    ensures
      var r := RemoveAt(blocks, i);
      && Tiles(r, end, hd) && NoFreePairs(r, used, keep) && r[i - 1] == blocks[i - 1]
      && (forall y :: y in r <==> y in blocks && y != blocks[i])
      && Sum(r, used, FreeData(hd)) == Sum(blocks, used, FreeData(hd)) + hd
      && Sum(r, used, UsedExtent) == Sum(blocks, used, UsedExtent)
      && LiveBlocks(r, used, next[blocks[i - 1] := blocks[i + 1]], end, hd) == LiveBlocks(blocks, used, next, end, hd)
  {
    assert Distinct(blocks) && RemoveAt(blocks, i)[i - 1] == blocks[i - 1];
    TilesRemoved(blocks, end, i, hd);
    hide NoFreePairs, Sum, RemoveAt, Tiles, Distinct, LiveBlocks;
    PairsRemoved(blocks, used, i, open, keep);
    SumRemoved(blocks, used, i, FreeData(hd));
    SumRemoved(blocks, used, i, UsedExtent);
    RemoveAtMembers(blocks, i);
    LiveSame(blocks, used, next, RemoveAt(blocks, i), next[blocks[i - 1] := blocks[i + 1]], end, hd);
  }

  lemma LiveSame(blocks: seq<int>, used: map<int, bool>, next: map<int, int>,
                 blocks': seq<int>, next': map<int, int>, end: int, hd: int)
    requires forall y :: InUse(used, y) ==> (y in blocks' <==> y in blocks)
    requires forall y :: y in blocks && InUse(used, y) ==> ItemSize(next', y, hd) == ItemSize(next, y, hd)
    ensures LiveBlocks(blocks', used, next', end, hd) == LiveBlocks(blocks, used, next, end, hd)
  {
  }

  /** Clearing the used mark of the i-th block. */
  lemma Unmarked(blocks: seq<int>, end: int, used: map<int, bool>, next: map<int, int>, i: nat, hd: int)
    requires Distinct(blocks) && i + 1 < |blocks| && InUse(used, blocks[i])
    requires ItemSize(next, blocks[i], hd) == blocks[i + 1] - blocks[i] - hd
    requires NoFreePairs(blocks, used, {})
    ensures
      var u := used[blocks[i] := false];
      && NoFreePairs(blocks, u, {i - 1, i})
      && Sum(blocks, u, FreeData(hd)) == Sum(blocks, used, FreeData(hd)) + ItemSize(next, blocks[i], hd)
      && Sum(blocks, u, UsedExtent) == Sum(blocks, used, UsedExtent) - ItemSize(next, blocks[i], hd) - hd
      && LiveBlocks(blocks, u, next, end, hd) == LiveBlocks(blocks, used, next, end, hd) - {blocks[i]}
  {
    hide Distinct, NoFreePairs, Sum;
    SumMarked(blocks, used, i, false, FreeData(hd));
    SumMarked(blocks, used, i, false, UsedExtent);
    PairsMarked(blocks, used, i, false);
  }

  /** A used block that gives its tail, from `x` on, to a new free block. */
  lemma Cut(blocks: seq<int>, end: int, used: map<int, bool>, next: map<int, int>, i: nat, x: int, hd: int)
    requires Tiles(blocks, end, hd) && i + 1 < |blocks| && InUse(used, blocks[i]) && InUse(used, end)
    requires blocks[i] + hd <= x && x + hd <= blocks[i + 1] && x % 4 == 0
    requires forall y :: y in blocks ==> y in next && y in used
    requires NoFreePairs(blocks, used, {})
    ensures
      var h, r := blocks[i], InsertAt(blocks, i + 1, x);
      var u, n := Overwrite(used, x, hd)[x := false], Overwrite(next, x, hd)[x := blocks[i + 1]][h := x];
      && x !in blocks && Tiles(r, end, hd) && InUse(u, end) && !InUse(u, x) && NoFreePairs(r, u, {i + 1})
      && (forall y :: y in r <==> y == x || y in blocks) && (forall y :: y in r ==> y in u)
      && (forall y :: y in blocks ==> InUse(u, y) == InUse(used, y))
      && (forall y :: y in blocks ==> y + hd <= x || x + hd <= y)
      && (forall y :: y in blocks && y != h ==> ItemSize(n, y, hd) == ItemSize(next, y, hd))
      && Sum(r, u, FreeData(hd)) == Sum(blocks, used, FreeData(hd)) + blocks[i + 1] - x - hd
      && Sum(r, u, UsedExtent) == Sum(blocks, used, UsedExtent) - (blocks[i + 1] - x)
      && LiveBlocks(r, u, n, end, hd) == LiveBlocks(blocks, used, next, end, hd)[h := x - h - hd]
  {
    hide NoFreePairs, Sum, InsertAt;
    var h, r := blocks[i], InsertAt(blocks, i + 1, x);
    var u, n := Overwrite(used, x, hd)[x := false], Overwrite(next, x, hd)[x := blocks[i + 1]][h := x];
    assert h in blocks && blocks[|blocks| - 1] in blocks && h != end;
    hide Distinct;
    InsertedHeaders(blocks, end, used, next, i, x, hd);
    ClearOf(blocks, end, i, x, hd);
    TilesInserted(blocks, end, i, x, hd);
    hide Tiles;
    InsertedAccounts(blocks, used, u, i, x, FreeData(hd));
    InsertedAccounts(blocks, used, u, i, x, UsedExtent);
    CutPairs(blocks, u, i, x);
    LiveAdded(blocks, used, next, r, u, n, end, h, hd);
  }

  lemma CutPairs(blocks: seq<int>, u: map<int, bool>, i: nat, x: int)
    requires i + 1 < |blocks| && InUse(u, blocks[i])
    requires NoFreePairs(InsertAt(blocks, i + 1, x), u, {i, i + 1})
    ensures NoFreePairs(InsertAt(blocks, i + 1, x), u, {i + 1})
  {
    assert InsertAt(blocks, i + 1, x)[i] == blocks[i];
    PairsClosed(InsertAt(blocks, i + 1, x), u, {i, i + 1}, {i + 1});
  }

  /** A used block that swallows the free block behind it. */
  lemma Absorbed(blocks: seq<int>, end: int, used: map<int, bool>, next: map<int, int>, i: nat, hd: int)
    requires Tiles(blocks, end, hd) && i + 2 < |blocks| && InUse(used, blocks[i]) && !InUse(used, blocks[i + 1])
    requires NoFreePairs(blocks, used, {})
    ensures
      var h, r, n := blocks[i], RemoveAt(blocks, i + 1), next[blocks[i] := blocks[i + 2]];
      && Tiles(r, end, hd) && NoFreePairs(r, used, {}) && i + 1 < |r| && r[i] == h && r[i + 1] == blocks[i + 2]
      && (forall y :: y in r <==> y in blocks && y != blocks[i + 1])
      && Sum(r, used, FreeData(hd)) == Sum(blocks, used, FreeData(hd)) - (blocks[i + 2] - blocks[i + 1] - hd)
      && Sum(r, used, UsedExtent) == Sum(blocks, used, UsedExtent) + blocks[i + 2] - blocks[i + 1]
      && LiveBlocks(r, used, n, end, hd) == LiveBlocks(blocks, used, next, end, hd)[h := blocks[i + 2] - h - hd]
  {
    hide Sum, RemoveAt, NoFreePairs;
    var h, r, n := blocks[i], RemoveAt(blocks, i + 1), next[blocks[i] := blocks[i + 2]];
    assert h in blocks && h != end && Distinct(blocks);
    TilesRemoved(blocks, end, i + 1, hd);
    AbsorbedPairs(blocks, used, i);
    hide Tiles, Distinct;
    SumRemoved(blocks, used, i + 1, FreeData(hd));
    SumRemoved(blocks, used, i + 1, UsedExtent);
    AbsorbedLive(blocks, end, used, next, i, hd);
  }

  lemma AbsorbedLive(blocks: seq<int>, end: int, used: map<int, bool>, next: map<int, int>, i: nat, hd: int)
    requires Distinct(blocks) && i + 2 < |blocks| && InUse(used, blocks[i]) && !InUse(used, blocks[i + 1])
    requires blocks[i] != end
    ensures var h, r, n := blocks[i], RemoveAt(blocks, i + 1), next[blocks[i] := blocks[i + 2]];
      && (forall y :: y in r <==> y in blocks && y != blocks[i + 1])
      && LiveBlocks(r, used, n, end, hd) == LiveBlocks(blocks, used, next, end, hd)[h := blocks[i + 2] - h - hd]
  {
    hide RemoveAt, Distinct;
    var h, r, n := blocks[i], RemoveAt(blocks, i + 1), next[blocks[i] := blocks[i + 2]];
    RemoveAtMembers(blocks, i + 1);
    assert h in blocks;
    LiveAdded(blocks, used, next, r, used, n, end, h, hd);
  }

  lemma AbsorbedPairs(blocks: seq<int>, used: map<int, bool>, i: nat)
    requires i + 2 < |blocks| && InUse(used, blocks[i]) && NoFreePairs(blocks, used, {})
    ensures var r := RemoveAt(blocks, i + 1);
            NoFreePairs(r, used, {}) && r[i] == blocks[i] && r[i + 1] == blocks[i + 2]
  {
    var r := RemoveAt(blocks, i + 1);
    PairsClosed(blocks, used, {}, {i, i + 1});
    PairsRemoved(blocks, used, i + 1, {i, i + 1}, {i});
    assert r[i] == blocks[i];
    PairsClosed(r, used, {i}, {});
  }

  lemma LiveAdded(blocks: seq<int>, used: map<int, bool>, next: map<int, int>,
                  blocks': seq<int>, used': map<int, bool>, next': map<int, int>, end: int, h: int, hd: int)
    requires forall y :: y in blocks' && InUse(used', y) && y != end
                    <==> y == h || (y in blocks && InUse(used, y) && y != end)
    requires forall y :: y in blocks && InUse(used, y) && y != h && y != end ==> ItemSize(next', y, hd) == ItemSize(next, y, hd)
    ensures LiveBlocks(blocks', used', next', end, hd) == LiveBlocks(blocks, used, next, end, hd)[h := ItemSize(next', h, hd)]
  {
  }

  ghost predicate Tiling(blocks: seq<int>, used: map<int, bool>, next: map<int, int>, end: int, hd: int) {
    && Tiles(blocks, end, hd) && InUse(used, end) && NoFreePairs(blocks, used, {})
    && forall i {:trigger blocks[i + 1]} :: 0 <= i < |blocks| - 1 ==> ItemSize(next, blocks[i], hd) == blocks[i + 1] - blocks[i] - hd
  }

  /** The successor of a block depends only on the live blocks. */
  lemma SameSuccessor(b1: seq<int>, u1: map<int, bool>, n1: map<int, int>,
                      b2: seq<int>, u2: map<int, bool>, n2: map<int, int>, end: int, i: nat, hd: int)
    requires Tiling(b1, u1, n1, end, hd) && Tiling(b2, u2, n2, end, hd)
    requires LiveBlocks(b1, u1, n1, end, hd) == LiveBlocks(b2, u2, n2, end, hd)
    requires i + 1 < |b1| && i + 1 < |b2| && b1[i] == b2[i]
    ensures b2[i + 1] <= b1[i + 1]
  {
    var live := LiveBlocks(b1, u1, n1, end, hd);
    var a, x := b1[i], b1[i + 1];
    assert a in b1 && a in b2 && a < b1[|b1| - 1] && b2[|b2| - 1] in b2;
    assert ItemSize(n1, a, hd) == x - a - hd && ItemSize(n2, a, hd) == b2[i + 1] - a - hd;
    if InUse(u1, a) {
      assert a in live && live[a] == ItemSize(n1, a, hd) == ItemSize(n2, a, hd);
    } else {
      assert InUse(u1, x) && x in b1;
      assert x in live || x == end;
      assert x in b2;
      assert forall m :: 0 <= m < |b2| && a < b2[m] ==> i < m && b2[i + 1] <= b2[m];
      assert b2[IndexOf(b2, x)] == x;
    }
  }

  /** The live blocks determine the whole tiling: the free blocks are the maximal gaps. */
  lemma {:induction false} TilingUnique(b1: seq<int>, u1: map<int, bool>, n1: map<int, int>,
                                        b2: seq<int>, u2: map<int, bool>, n2: map<int, int>, end: int, k: nat, hd: int)
    requires Tiling(b1, u1, n1, end, hd) && Tiling(b2, u2, n2, end, hd)
    requires LiveBlocks(b1, u1, n1, end, hd) == LiveBlocks(b2, u2, n2, end, hd)
    requires k <= |b1|
    ensures k <= |b2| && b1[..k] == b2[..k]
  {
    if 1 < k {
      TilingUnique(b1, u1, n1, b2, u2, n2, end, k - 1, hd);
      var i := k - 2;
      assert b1[i] == b1[..k - 1][i] == b2[..k - 1][i] == b2[i];
      assert b1[i] < b1[|b1| - 1] == b2[|b2| - 1];
      SameSuccessor(b1, u1, n1, b2, u2, n2, end, i, hd);
      SameSuccessor(b2, u2, n2, b1, u1, n1, end, i, hd);
      assert b1[..k] == b1[..k - 1] + [b1[i + 1]] && b2[..k] == b2[..k - 1] + [b2[i + 1]];
    }
  }

  lemma SameTiling(b1: seq<int>, u1: map<int, bool>, n1: map<int, int>,
                   b2: seq<int>, u2: map<int, bool>, n2: map<int, int>, end: int, hd: int)
    requires Tiling(b1, u1, n1, end, hd) && Tiling(b2, u2, n2, end, hd)
    requires LiveBlocks(b1, u1, n1, end, hd) == LiveBlocks(b2, u2, n2, end, hd)
    ensures b1 == b2 && forall kind :: Sum(b1, u1, kind) == Sum(b2, u2, kind)
  {
    hide NoFreePairs, Sum;
    TilingUnique(b1, u1, n1, b2, u2, n2, end, |b1|, hd);
    TilingUnique(b2, u2, n2, b1, u1, n1, end, |b2|, hd);
    assert b1[..|b1|] == b1 && b2[..|b2|] == b2;
    forall x | x in b1
      ensures InUse(u1, x) == InUse(u2, x)
    {
      assert x != end ==> (InUse(u1, x) <==> x in LiveBlocks(b1, u1, n1, end, hd));
      assert x != end ==> (InUse(u2, x) <==> x in LiveBlocks(b2, u2, n2, end, hd));
    }
    forall kind {
      SumFramed(b1, u1, u2, kind);
    }
  }

  lemma ClearOf(blocks: seq<int>, end: int, i: nat, x: int, hd: int)
    requires Tiles(blocks, end, hd) && i + 1 < |blocks|
    requires blocks[i] + hd <= x && x + hd <= blocks[i + 1]
    ensures forall y :: y in blocks ==> y + hd <= x || x + hd <= y
  {
    forall y | y in blocks
      ensures y + hd <= x || x + hd <= y
    {
      var k := IndexOf(blocks, y);
      assert k < i ==> blocks[k] + hd <= blocks[i];
      assert i + 1 < k ==> blocks[i + 1] + hd <= blocks[k];
    }
  }
}

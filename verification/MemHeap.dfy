/** The memory heap of rt-thread/src/memheap.c.

    The pool is a circular, address-ordered list of items that tile it, closed by a
    used tailer; the unused items are also on a free list that hangs off a header
    outside the pool.  Both lists run through item headers stored in the pool itself,
    so storing a header destroys every header whose bytes it overlaps. */
module MemHeap {
  import opened Arithmetic
  import opened BlockData
  import opened Blocks
  import opened Ring

  const HEADER: int := 24       // RT_MEMHEAP_SIZE
  const MINIALLOC: int := LEAST
  const NULL: int := -1
  const FREE_HEADER: int := -64 // the item embedded in struct rt_memheap
  const MAX_POOL: int := 0xFFFF_FFFF
  const MAX_REQUEST: int := 0xFFFF_FFF0

  ghost predicate ListsFree(blocks: seq<int>, used: map<int, bool>, free: seq<int>) {
    forall x :: x in free <==> x in blocks && !InUse(used, x)
  }

  /** Where the search of the free list stops: the first block of at least `n` bytes. */
  ghost function FirstFit(free: seq<int>, next: map<int, int>, n: nat): (k: nat)
    ensures k <= |free|
    ensures forall j :: 0 <= j < k ==> ItemSize(next, free[j], HEADER) < n
    ensures k < |free| ==> n <= ItemSize(next, free[k], HEADER)
  {
    if free == [] then 0
    else if n <= ItemSize(next, free[0], HEADER) then 0
    else 1 + FirstFit(free[1..], next, n)
  }

  /** No item of the free list can take `n` bytes, or too few bytes are left in all. */
  ghost predicate NoRoom(available: int, free: seq<int>, next: map<int, int>, n: nat) {
    available <= n || forall x :: x in free ==> ItemSize(next, x, HEADER) < n
  }

  /** What handing out the first fit for `n` bytes takes from the available bytes: a header
      more if the item is split, and otherwise all of the item. */
  ghost function Spent(free: seq<int>, next: map<int, int>, n: nat): int {
    var k := FirstFit(free, next, n);
    if k == |free| then 0
    else
      var size := ItemSize(next, free[k], HEADER);
      if n + HEADER + MINIALLOC <= size then n + HEADER else size
  }

  /** The block `h` can grow to `n` bytes into the free block behind it. */
  ghost predicate Growable(used: map<int, bool>, next: map<int, int>, h: int, n: nat) {
    && h in next && !InUse(used, next[h])
    && n + MINIALLOC < ItemSize(next, next[h], HEADER) + ItemSize(next, h, HEADER)
  }

  /** When a block can grow in place, in terms of the links: the block behind it is unused, and
      the data of the two leaves more than a smallest block beyond the request. */
  lemma GrowsWhen(used: map<int, bool>, next: map<int, int>, h: int, n: nat)
    requires h in next && next[h] in next
    ensures var x, y := next[h], next[next[h]];
      Growable(used, next, h, n) <==> !(x in used && used[x]) && n + 12 < (x - h - 24) + (y - x - 24)
  {
  }

  lemma SpentIs(free: seq<int>, next: map<int, int>, n: nat)
    ensures var k := FirstFit(free, next, n);
      k < |free| ==>
        var size := ItemSize(next, free[k], HEADER);
        Spent(free, next, n) == if n + HEADER + MINIALLOC <= size then n + HEADER else size
  {
  }

  lemma NoFit(free: seq<int>, next: map<int, int>, n: nat)
    ensures FirstFit(free, next, n) == |free| <==> forall x :: x in free ==> ItemSize(next, x, HEADER) < n
  {
  }

  /** The free list after `h` was freed: it comes first unless it joined a free block on its
      left, and a free block on its right is gone. */
  ghost predicate FreeAfter(blocks: seq<int>, used: map<int, bool>, free: seq<int>, h: int, free': seq<int>) {
    exists i :: 0 <= i < |blocks| - 1 && blocks[i] == h && FreeFrom(blocks, used, free, i, free')
  }

  ghost predicate FreeFrom(blocks: seq<int>, used: map<int, bool>, free: seq<int>, i: nat, free': seq<int>)
    requires i < |blocks| - 1
  {
    var joins, right := 0 < i && !InUse(used, blocks[i - 1]), blocks[i + 1];
    var rest := if !InUse(used, right) && right in free then RemoveAt(free, IndexOf(free, right)) else free;
    free' == if joins then rest else [blocks[i]] + rest
  }

  /** The same for the three cases of what lies below and behind the block. */
  lemma FreeOrder(blocks: seq<int>, used: map<int, bool>, free: seq<int>, i: nat, free': seq<int>)
    requires i < |blocks| - 1 && Distinct(blocks) && FreeAfter(blocks, used, free, blocks[i], free')
    ensures InUse(used, blocks[i + 1]) && (i == 0 || InUse(used, blocks[i - 1])) ==> free' == [blocks[i]] + free
    ensures InUse(used, blocks[i + 1]) && 0 < i && !InUse(used, blocks[i - 1]) ==> free' == free
    ensures i == 0 || InUse(used, blocks[i - 1]) ==> free' != [] && free'[0] == blocks[i]
    ensures !InUse(used, blocks[i + 1]) && 0 < i && !InUse(used, blocks[i - 1]) && blocks[i + 1] in free ==>
      exists k :: 0 <= k < |free| && free[k] == blocks[i + 1] && free' == free[..k] + free[k + 1..]
  {
  }

  lemma Relisted(blocks: seq<int>, used: map<int, bool>, free: seq<int>, h: int, i: nat, insert: bool, free': seq<int>)
    requires i < |blocks| - 1 && blocks[i] == h
    requires insert <==> i == 0 || InUse(used, blocks[i - 1])
    requires var right := blocks[i + 1];
      if InUse(used, right) then free' == free
      else right in free && free' == RemoveAt(free, IndexOf(free, right))
    ensures FreeAfter(blocks, used, free, h, if insert then [h] + free' else free')
  {
    assert FreeFrom(blocks, used, free, i, if insert then [h] + free' else free');
  }

  ghost predicate Booked(blocks: seq<int>, used: map<int, bool>, free: seq<int>, available: int) {
    && ListsFree(blocks, used, free)
    && NoFreePairs(blocks, used, {})
    && available == Sum(blocks, used, FreeData(HEADER))
  }

  lemma NoRoomIs(available: int, free: seq<int>, next: map<int, int>, n: nat)
    ensures NoRoom(available, free, next, n) <==> available <= n || FirstFit(free, next, n) == |free|
  {
    NoFit(free, next, n);
  }

  /** Splitting the free block `h` at `x` and handing out its front part. */
  lemma PartTaken(blocks: seq<int>, end: int, used: map<int, bool>, next: map<int, int>, free: seq<int>,
                  available: int, i: nat, k: nat, x: int)
    requires Tiles(blocks, end, HEADER) && i + 1 < |blocks| && Distinct(free) && k < |free| && free[k] == blocks[i]
    requires blocks[i] + HEADER <= x && x + HEADER <= blocks[i + 1] && x % 4 == 0
    requires forall y :: y in blocks ==> y in next && y in used
    requires Booked(blocks, used, free, available) && InUse(used, end)
    ensures
      var h, r := blocks[i], InsertAt(blocks, i + 1, x);
      var u, n := Overwrite(used, x, HEADER)[x := false][h := true], Overwrite(next, x, HEADER)[x := blocks[i + 1]][h := x];
      && x !in blocks && x !in free && x !in RemoveAt(free, k) && h !in LiveBlocks(blocks, used, next, end, HEADER)
      && (forall y :: y in blocks || y in free ==> y + HEADER <= x || x + HEADER <= y)
      && Tiles(r, end, HEADER) && InUse(u, end) && (forall y :: y in r ==> y in u)
      && Booked(r, u, [x] + RemoveAt(free, k), available - (x - h))
      && LiveBlocks(r, u, n, end, HEADER) == LiveBlocks(blocks, used, next, end, HEADER)[h := x - h - HEADER]
  {
    hide InsertAt, RemoveAt, Distinct, NoFreePairs, Sum, LiveBlocks;
    var u := Overwrite(used, x, HEADER)[x := false];
    assert blocks[i] in free && blocks[i] in blocks;
    InsertedHeaders(blocks, end, used, next, i, x, HEADER);
    ClearOf(blocks, end, i, x, HEADER);
    PartAccounts(blocks, end, used, u, i, x, HEADER);
    PartLive(blocks, end, used, next, i, x, HEADER);
    RemoveAtMembers(free, k);
  }

  /** Handing out the whole free block `h`. */
  lemma WholeTaken(blocks: seq<int>, end: int, used: map<int, bool>, next: map<int, int>, free: seq<int>,
                   available: int, i: nat, k: nat)
    requires Distinct(blocks) && i + 1 < |blocks| && Distinct(free) && k < |free| && free[k] == blocks[i]
    requires ItemSize(next, blocks[i], HEADER) == blocks[i + 1] - blocks[i] - HEADER && blocks[i] != end
    requires Booked(blocks, used, free, available)
    ensures
      var h, u := blocks[i], used[blocks[i] := true];
      && h !in LiveBlocks(blocks, used, next, end, HEADER)
      && Booked(blocks, u, RemoveAt(free, k), available - ItemSize(next, h, HEADER))
      && LiveBlocks(blocks, u, next, end, HEADER) == LiveBlocks(blocks, used, next, end, HEADER)[h := ItemSize(next, h, HEADER)]
  {
    hide Distinct, RemoveAt, Sum;
    var h := blocks[i];
    assert h in free && h in blocks;
    RemoveAtMembers(free, k);
    SumMarked(blocks, used, i, true, FreeData(HEADER));
    PairsMarked(blocks, used, i, true);
    LiveAdded(blocks, used, next, blocks, used[h := true], next, end, h, HEADER);
  }

  lemma Pair(a: int, b: int)
    requires a != b
    ensures var links := map[a := b, b := a]; IsRing(links, links, [a, b])
  {
  }

  /** Nothing has changed but the bytes of a header at `x`. */
  ghost predicate HeaderOnly(m: seq<Byte>, m': seq<Byte>, x: int) {
    |m'| == |m| && forall k :: 0 <= k < |m| && !(x <= k < x + HEADER) ==> m'[k] == m[k]
  }

  class Heap {
    const poolSize: int
    const data: array<Byte>  // the pool; what its headers say is kept below, field by field
    var availableSize: int
    var maxUsedSize: int
    // the item headers, field by field
    var used: map<int, bool>
    var next: map<int, int>
    var prev: map<int, int>
    var nextFree: map<int, int>
    var prevFree: map<int, int>
    // the blocks in address order, and the free list in link order
    ghost var blocks: seq<int>
    ghost var free: seq<int>

    ghost predicate Linked()
      reads this
    {
      && 2 * HEADER <= poolSize <= MAX_POOL && poolSize % 4 == 0 && data.Length == poolSize
      && Tiles(blocks, poolSize - HEADER, HEADER)
      && IsRing(next, prev, blocks)
      && IsRing(nextFree, prevFree, [FREE_HEADER] + free)
      && (forall x :: x in blocks ==> x in used)
      && InUse(used, poolSize - HEADER)
    }

    ghost predicate Valid()
      reads this
    {
      && Linked()
      && Booked(blocks, used, free, availableSize)
      && poolSize - availableSize <= maxUsedSize
    }

    ghost function Live(): map<int, int>
      reads this
    {
      LiveBlocks(blocks, used, next, poolSize - HEADER, HEADER)
    }

    /** Stores a header at `at`, which none of the listed headers overlaps. The bytes that were
        there are lost. */
    method StoreHeader(at: int)
      requires IsRing(next, prev, blocks) && IsRing(nextFree, prevFree, [FREE_HEADER] + free)
      requires 0 <= at && at + HEADER <= data.Length && forall x :: x in blocks || x in free ==> x + HEADER <= at || at + HEADER <= x
      modifies this`used, this`next, this`prev, this`nextFree, this`prevFree, data
      ensures IsRing(next, prev, blocks) && IsRing(nextFree, prevFree, [FREE_HEADER] + free)
      ensures used == Overwrite(old(used), at, HEADER) && next == Overwrite(old(next), at, HEADER)
      ensures HeaderOnly(old(data[..]), data[..], at)
    {
      ghost var ring := [FREE_HEADER] + free;
      Framed(next, prev, blocks, Overwrite(next, at, HEADER), Overwrite(prev, at, HEADER)) by {
        forall x | x in blocks ensures x in Overwrite(next, at, HEADER) && x in Overwrite(prev, at, HEADER) {
          assert x == blocks[IndexOf(blocks, x)];
        }
      }
      Framed(nextFree, prevFree, ring, Overwrite(nextFree, at, HEADER), Overwrite(prevFree, at, HEADER)) by {
        forall x | x in ring ensures x in Overwrite(nextFree, at, HEADER) && x in Overwrite(prevFree, at, HEADER) {
          assert x == ring[IndexOf(ring, x)];
        }
      }
      for k := at to at + HEADER
        modifies data
        invariant HeaderOnly(old(data[..]), data[..], at)
      {
        data[k] := *;
      }
      used := Overwrite(used, at, HEADER);
      next, prev := Overwrite(next, at, HEADER), Overwrite(prev, at, HEADER);
      nextFree, prevFree := Overwrite(nextFree, at, HEADER), Overwrite(prevFree, at, HEADER);
    }

    /** Builds a free item at `x`, behind `h`, the i-th block. */
    method InsertBlock(h: int, x: int, ghost i: nat)
      requires IsRing(next, prev, blocks) && IsRing(nextFree, prevFree, [FREE_HEADER] + free)
      requires i + 1 < |blocks| && h == blocks[i] && x !in blocks
      requires 0 <= x && x + HEADER <= data.Length && forall y :: y in blocks || y in free ==> y + HEADER <= x || x + HEADER <= y
      modifies this`used, this`next, this`prev, this`nextFree, this`prevFree, this`blocks, data
      ensures IsRing(next, prev, blocks) && IsRing(nextFree, prevFree, [FREE_HEADER] + free)
      ensures blocks == InsertAt(old(blocks), i + 1, x)
      ensures used == Overwrite(old(used), x, HEADER)[x := false]
      ensures next == Overwrite(old(next), x, HEADER)[x := old(blocks[i + 1])][h := x]
      ensures HeaderOnly(old(data[..]), data[..], x)
    {
      hide HeaderOnly;
      StoreHeader(x);
      Inserted(next, prev, blocks, i, x);
      used := used[x := false];
      prev := prev[x := h];
      next := next[x := next[h]];
      prev := prev[next[h] := x];
      next := next[h := x];
      blocks := InsertAt(blocks, i + 1, x);
    }

    lemma InPool(i: nat)
      requires Linked() && i < |blocks|
      ensures 0 <= blocks[i] && blocks[i] + HEADER <= data.Length
    {
      hide IsRing;
      assert blocks[i] <= blocks[|blocks| - 1];
    }

    /** The header of any block lies outside the data of every live block. */
    lemma HeaderMisses(m: seq<Byte>, m': seq<Byte>, x: int)
      requires Linked() && x in blocks && HeaderOnly(m, m', x)
      ensures Undisturbed(m, m', Live(), HEADER)
    {
      forall b | b in Live()
        ensures SameData(m, m', b, Live()[b], HEADER)
      {
        DataBefore(b, x);
      }
    }

    lemma DataBefore(b: int, x: int)
      requires Linked() && x in blocks && b in Live()
      ensures x <= b || b + HEADER + Live()[b] <= x
    {
      var i, j := IndexOf(blocks, b), IndexOf(blocks, x);
      assert b != poolSize - HEADER && b in blocks;
      assert i + 1 < |blocks|;
      assert blocks[i] in next && next[blocks[i]] == blocks[i + 1];
      assert i + 1 < j ==> blocks[i + 1] <= blocks[j];
      assert j < i ==> blocks[j] <= blocks[i];
    }

    /** Takes `x`, the i-th block, out of the block list. */
    method RemoveBlock(x: int, ghost i: nat)
      requires IsRing(next, prev, blocks) && 0 < i && i + 1 < |blocks| && x == blocks[i]
      modifies this`next, this`prev, this`blocks
      ensures IsRing(next, prev, blocks)
      ensures blocks == RemoveAt(old(blocks), i)
      ensures next == old(next)[old(blocks[i - 1]) := old(blocks[i + 1])]
    {
      Removed(next, prev, blocks, i);
      assert prev[x] == blocks[i - 1] && next[x] == blocks[i + 1];
      next := next[prev[x] := next[x]];
      prev := prev[next[x] := prev[x]];
      blocks := RemoveAt(blocks, i);
    }

    method PushFree(x: int)
      requires IsRing(nextFree, prevFree, [FREE_HEADER] + free)
      requires x != FREE_HEADER && x !in free
      modifies this`nextFree, this`prevFree, this`free
      ensures IsRing(nextFree, prevFree, [FREE_HEADER] + free)
      ensures free == [x] + old(free)
    {
      ghost var ring := [FREE_HEADER] + free;
      Inserted(nextFree, prevFree, ring, 0, x);
      assert InsertAt(ring, 1, x) == [FREE_HEADER] + ([x] + free);
      assert ring[0] == FREE_HEADER;
      prevFree := prevFree[x := FREE_HEADER];
      nextFree := nextFree[x := nextFree[FREE_HEADER]];
      prevFree := prevFree[nextFree[FREE_HEADER] := x];
      nextFree := nextFree[FREE_HEADER := x];
      free := [x] + free;
    }

    /** Takes `x`, the k-th free block, off the free list. */
    method UnlinkFree(x: int, ghost k: nat)
      requires IsRing(nextFree, prevFree, [FREE_HEADER] + free) && k < |free| && x == free[k]
      modifies this`nextFree, this`prevFree, this`free
      ensures IsRing(nextFree, prevFree, [FREE_HEADER] + free)
      ensures free == RemoveAt(old(free), k)
    {
      ghost var ring := [FREE_HEADER] + free;
      Removed(nextFree, prevFree, ring, k + 1);
      assert ring[k + 1] == x;
      assert RemoveAt(ring, k + 1) == [FREE_HEADER] + RemoveAt(free, k);
      assert nextFree[x] == ring[After(k + 1, |ring|)] != ring[k + 1];
      prevFree := prevFree[nextFree[x] := prevFree[x]];
      nextFree := nextFree[prevFree[x] := nextFree[x]];
      free := RemoveAt(free, k);
    }

    /** rt_memheap_init. */
    constructor (size: nat)
      requires 2 * HEADER <= size / 4 * 4 <= MAX_POOL
      ensures Valid() && Live() == map[] && blocks == [0, poolSize - HEADER] && free == [0]
      ensures fresh(data) && poolSize == size / 4 * 4 && availableSize == poolSize - 2 * HEADER && maxUsedSize == 2 * HEADER
    {
      poolSize := size / 4 * 4;
      data := new Byte[size / 4 * 4];
      availableSize := size / 4 * 4 - 2 * HEADER;
      maxUsedSize := 2 * HEADER;
      var first, tailer := 0, size / 4 * 4 - HEADER;
      used := map[first := false, tailer := true];
      next := map[first := tailer, tailer := first];
      prev := map[first := tailer, tailer := first];
      nextFree := map[FREE_HEADER := first, first := FREE_HEADER];
      prevFree := map[FREE_HEADER := first, first := FREE_HEADER];
      blocks := [first, tailer];
      free := [first];
      new;
      assert [FREE_HEADER] + free == [FREE_HEADER, first];
      Pair(first, tailer);
      Pair(FREE_HEADER, first);
      assert IsRing(next, prev, blocks) && IsRing(nextFree, prevFree, [FREE_HEADER] + free);
      hide IsRing;
      assert Tiles(blocks, tailer, HEADER);
      assert blocks[1..] == [tailer];
      assert ListsFree(blocks, used, free);
      assert Linked();
      assert NoFreePairs(blocks, used, {});
      assert availableSize == Sum(blocks, used, FreeData(HEADER));
    }

    lemma FreeIsDistinct()
      requires Linked()
      ensures Distinct(free) && FREE_HEADER !in free
    {
      var ring := [FREE_HEADER] + free;
      forall i | 0 <= i < |free|
        ensures ring[i + 1] == free[i] != ring[0]
      {
      }
    }

    /** A block other than the tailer has a successor at a higher address. */
    lemma BlockLinked(i: nat)
      requires Linked() && i < |blocks| && blocks[i] != poolSize - HEADER
      ensures 0 <= blocks[i] && blocks[i] % 4 == 0 && blocks[i] in blocks
      ensures i + 1 < |blocks| && next[blocks[i]] == blocks[i + 1] && blocks[i] + HEADER <= blocks[i + 1]
      ensures forall y :: y in blocks ==> y in next
    {
      assert blocks[0] <= blocks[i];
      assert blocks[i] in next;
      forall y | y in blocks ensures y in next {
        assert y == blocks[IndexOf(blocks, y)];
      }
    }

    lemma BlocksDistinct()
      requires Linked()
      ensures Distinct(blocks) && poolSize - HEADER in blocks && NULL !in blocks && FREE_HEADER !in blocks
    {
      assert blocks[|blocks| - 1] in blocks && forall i :: 0 <= i < |blocks| ==> blocks[0] <= blocks[i];
    }

    lemma PrevBlock(i: nat)
      requires Linked() && i < |blocks|
      ensures blocks[i] in prev && prev[blocks[i]] == if i == 0 then poolSize - HEADER else blocks[i - 1]
    {
    }

    lemma LiveBlock(h: int)
      requires Linked() && h in Live()
      ensures h in blocks && InUse(used, h) && h != poolSize - HEADER
    {
    }

    lemma BlockAligned(i: nat)
      requires Linked() && i < |blocks|
      ensures 0 <= blocks[i] && blocks[i] % 4 == 0
      ensures forall y :: y in blocks ==> y in next
    {
      assert blocks[0] <= blocks[i];
      forall y | y in blocks ensures y in next {
        assert y == blocks[IndexOf(blocks, y)];
      }
    }

    lemma UsedBehindFree(i: nat)
      requires Linked() && NoFreePairs(blocks, used, {})
      requires i + 2 < |blocks| && !InUse(used, blocks[i + 1])
      ensures InUse(used, blocks[i + 2])
    {
      var m := i + 1;
      assert InUse(used, blocks[m]) || InUse(used, blocks[m + 1]);
    }

    lemma LiveSize(h: int)
      requires Linked() && h in Live()
      ensures Live()[h] == ItemSize(next, h, HEADER)
    {
    }

    lemma NullNotLive()
      requires Valid()
      ensures NULL - HEADER !in Live()
    {
      assert forall i :: 0 <= i < |blocks| ==> blocks[0] <= blocks[i];
    }

    lemma IsTiling()
      requires Valid()
      ensures Tiling(blocks, used, next, poolSize - HEADER, HEADER)
      ensures Live() == LiveBlocks(blocks, used, next, poolSize - HEADER, HEADER)
      ensures availableSize == Sum(blocks, used, FreeData(HEADER))
    {
      forall i {:trigger blocks[i + 1]} | 0 <= i < |blocks| - 1
        ensures ItemSize(next, blocks[i], HEADER) == blocks[i + 1] - blocks[i] - HEADER
      {
        assert blocks[i] in next;
      }
    }

    lemma NextBlock(i: nat)
      requires Linked() && i + 1 < |blocks|
      ensures blocks[i] in next && next[blocks[i]] == blocks[i + 1] && blocks[i + 1] in blocks
      ensures !InUse(used, blocks[i + 1]) ==> i + 2 < |blocks|
    {
    }

    lemma FreeBlockLinked(i: nat, k: nat)
      requires Valid() && i < |blocks| && k < |free| && blocks[i] == free[k]
      ensures Distinct(free) && FREE_HEADER !in free && blocks[i] != poolSize - HEADER
      ensures 0 <= blocks[i] && blocks[i] % 4 == 0 && blocks[i] in blocks
      ensures i + 1 < |blocks| && next[blocks[i]] == blocks[i + 1] && blocks[i] + HEADER <= blocks[i + 1]
      ensures forall y :: y in blocks ==> y in next
    {
      FreeIsDistinct();
      assert free[k] in free;
      BlockLinked(i);
    }

    lemma FreeBlockAt(k: nat) returns (i: nat)
      requires Valid() && k < |free|
      ensures i < |blocks| && blocks[i] == free[k] && free[k] + HEADER != NULL
    {
      assert free[k] in free;
      i := IndexOf(blocks, free[k]);
      FreeBlockLinked(i, k);
    }

    /** The search loop over the free list. */
    method FindFit(n: nat) returns (h: int, freeSize: int)
      requires Valid() && 0 < n
      ensures var k := FirstFit(free, next, n);
              if k < |free| then h == free[k] && n <= freeSize == ItemSize(next, h, HEADER) else freeSize < n
    {
      ghost var ring := [FREE_HEADER] + free;
      freeSize := 0;
      assert ring[0] == FREE_HEADER;
      h := nextFree[FREE_HEADER];
      ghost var i := 0;
      while h != FREE_HEADER && freeSize < n
        invariant 0 <= i <= |free| && h == ring[After(i, |ring|)]
        invariant forall j :: 0 <= j < i ==> ItemSize(next, free[j], HEADER) < n
        invariant n <= freeSize ==> i < |free| && freeSize == ItemSize(next, h, HEADER)
        decreases |free| - i, n - freeSize
      {
        assert h == free[i] && h in free;
        freeSize := ItemSize(next, h, HEADER);
        if freeSize < n {
          assert h == ring[i + 1];
          h := nextFree[h];
          i := i + 1;
        }
      }
    }

    /** Hands out the first `n` data bytes of the free block `h` and keeps the rest. */
    method TakePart(h: int, n: nat, ghost i: nat, ghost k: nat)
      requires Valid() && n % 4 == 0
      requires i < |blocks| && h == blocks[i] && k < |free| && h == free[k]
      requires n + HEADER + MINIALLOC <= ItemSize(next, h, HEADER)
      modifies this, data
      ensures Valid()
      ensures Live() == old(Live())[h := n] && h !in old(Live())
      ensures blocks == InsertAt(old(blocks), i + 1, h + HEADER + n)
      ensures free == [h + HEADER + n] + RemoveAt(old(free), k)
      ensures availableSize == old(availableSize) - n - HEADER
      ensures maxUsedSize == Max(old(maxUsedSize), poolSize - availableSize)
      ensures HeaderOnly(old(data[..]), data[..], h + HEADER + n)
    {
      hide InsertAt, RemoveAt, Distinct, NoFreePairs, Sum, Tiles, IsRing, ListsFree, LiveBlocks, HeaderOnly;
      var x := h + n + HEADER;
      FreeBlockLinked(i, k);
      PartTaken(blocks, poolSize - HEADER, used, next, free, availableSize, i, k, x);
      InPool(i + 1);
      InsertBlock(h, x, i);
      UnlinkFree(h, k);
      PushFree(x);
      availableSize := availableSize - n - HEADER;
      if maxUsedSize < poolSize - availableSize {
        maxUsedSize := poolSize - availableSize;
      }
      used := used[h := true];
    }

    /** Hands out the free block `h` as it is. */
    method TakeWhole(h: int, freeSize: nat, ghost i: nat, ghost k: nat)
      requires Valid() && freeSize == ItemSize(next, h, HEADER)
      requires i < |blocks| && h == blocks[i] && k < |free| && h == free[k]
      modifies this
      ensures Valid()
      ensures Live() == old(Live())[h := freeSize] && h !in old(Live())
      ensures blocks == old(blocks) && free == RemoveAt(old(free), k)
      ensures availableSize == old(availableSize) - freeSize
      ensures maxUsedSize == Max(old(maxUsedSize), poolSize - availableSize)
    {
      hide InsertAt, RemoveAt, Distinct, NoFreePairs, Sum, Tiles, Forward, Backward, ListsFree, LiveBlocks;
      FreeBlockLinked(i, k);
      WholeTaken(blocks, poolSize - HEADER, used, next, free, availableSize, i, k) by {
        BlocksDistinct();
      }
      availableSize := availableSize - freeSize;
      if maxUsedSize < poolSize - availableSize {
        maxUsedSize := poolSize - availableSize;
      }
      UnlinkFree(h, k);
      used := used[h := true];
    }

    lemma PeakReached()
      requires Valid()
      ensures maxUsedSize == Max(maxUsedSize, poolSize - availableSize)
    {
    }

    /** The rounding at the head of alloc and realloc. */
    method RoundUp(size: nat) returns (n: nat)
      requires size <= MAX_REQUEST
      ensures n == Rounded(size) == Rounded(n) && 0 < n <= MAX_REQUEST && n % 4 == 0
    {
      n := (size + 3) / 4 * 4;
      if n < MINIALLOC {
        n := MINIALLOC;
      }
    }

    lemma TakenHeader(h: int, n: nat, before: seq<int>, i: nat)
      requires Valid() && i < |before| && blocks == InsertAt(before, i + 1, h + HEADER + n)
      ensures Linked() && h + HEADER + n in blocks
    {
      assert blocks[i + 1] == h + HEADER + n;
    }

    /** rt_memheap_alloc. */
    method Alloc(size: nat) returns (ptr: int, ghost i: nat)
      requires Valid() && size <= MAX_REQUEST
      modifies this, data
      ensures Valid()
      ensures var n, k := Rounded(size), FirstFit(old(free), old(next), Rounded(size));
              if old(availableSize) <= n || k == |old(free)| then
                ptr == NULL && unchanged(this)
              else
                var h := old(free)[k];
                var split := n + HEADER + MINIALLOC <= ItemSize(old(next), h, HEADER);
                && ptr == h + HEADER && ptr != NULL && h !in old(Live()) && i < |old(blocks)| && old(blocks)[i] == h
                && Live() == old(Live())[h := if split then n else ItemSize(old(next), h, HEADER)]
                && blocks == (if split then InsertAt(old(blocks), i + 1, ptr + n) else old(blocks))
                && free == (if split then [ptr + n] else []) + RemoveAt(old(free), k)
                && availableSize == old(availableSize) - Spent(old(free), old(next), n)
      ensures maxUsedSize == Max(old(maxUsedSize), poolSize - availableSize)
      ensures ptr == NULL ==> data[..] == old(data[..])
      ensures Undisturbed(old(data[..]), data[..], old(Live()), HEADER)
    {
      hide *;
      ptr, i := NULL, 0;
      NothingDisturbed(data[..], Live(), HEADER);
      assert maxUsedSize == Max(maxUsedSize, poolSize - availableSize) by {
        PeakReached();
      }
      var n := RoundUp(size);
      if n < availableSize {
        var h, freeSize := FindFit(n);
        if n <= freeSize {
          ghost var k := FirstFit(free, next, n);
          SpentIs(free, next, n);
          i := FreeBlockAt(k);
          if n + HEADER + MINIALLOC <= freeSize {
            ghost var live := Live();
            TakePart(h, n, i, k);
            TakenHeader(h, n, old(blocks), i);
            HeaderMisses(old(data[..]), data[..], h + HEADER + n);
            UndisturbedFewer(old(data[..]), data[..], Live(), live, HEADER);
          } else {
            TakeWhole(h, freeSize, i, k);
            NothingDisturbed(data[..], old(Live()), HEADER);
            assert free == [] + RemoveAt(old(free), k);
          }
          ptr := h + HEADER;
        }
      }
    }

    /** While a block is being freed: block `j` is free but may still have a free neighbour
        across the pairs in `open`, and `pending`, if a block, is not on the free list yet. */
    ghost predicate Freeing(j: int, open: set<int>, pending: int)
      reads this
    {
      && Linked()
      && 0 <= j < |blocks| - 1 && !InUse(used, blocks[j])
      && NoFreePairs(blocks, used, open)
      && availableSize == Sum(blocks, used, FreeData(HEADER))
      && (forall x :: x in free <==> x in blocks && !InUse(used, x) && x != pending)
    }

    method MergeLeft(h: int, ghost i: nat) returns (header: int, insertHeader: bool, ghost j: nat)
      requires Freeing(i, {i - 1, i}, h) && h == blocks[i]
      modifies this`availableSize, this`next, this`prev, this`blocks
      ensures Freeing(j, {j}, if insertHeader then header else NULL) && header == blocks[j]
      ensures Live() == old(Live())
      ensures insertHeader <==> i == 0 || InUse(used, old(blocks[i - 1]))
      ensures blocks == if insertHeader then old(blocks) else RemoveAt(old(blocks), i)
      ensures j == if insertHeader then i else i - 1
      ensures old(availableSize) <= availableSize
    {
      hide Distinct, NoFreePairs, Sum, RemoveAt, Tiles, Forward, Backward, LiveBlocks;
      header, insertHeader, j := h, true, i;
      PrevBlock(i);
      BlocksDistinct();
      if InUse(used, prev[header]) {
        PairsClosed(blocks, used, {i - 1, i}, {i});
      } else {
        Merged(blocks, poolSize - HEADER, used, next, i, HEADER, {i - 1, i}, {i - 1});
        availableSize := availableSize + HEADER;
        j := i - 1;
        var left := prev[header];
        RemoveBlock(header, i);
        header := left;
        insertHeader := false;
      }
    }

    method MergeRight(header: int, ghost j: nat, ghost pending: int)
      requires Freeing(j, {j}, pending) && header == blocks[j] && (pending == NULL || pending == header)
      modifies this`availableSize, this`next, this`prev, this`blocks, this`nextFree, this`prevFree, this`free
      ensures Freeing(j, {}, pending) && header == blocks[j]
      ensures old(availableSize) <= availableSize
      ensures Live() == old(Live())
      ensures var x := old(blocks[j + 1]);
              if InUse(used, x) then blocks == old(blocks) && free == old(free)
              else blocks == RemoveAt(old(blocks), j + 1) && x in old(free)
                   && free == RemoveAt(old(free), IndexOf(old(free), x))
    {
      hide Distinct, NoFreePairs, Sum, RemoveAt, Tiles, Forward, Backward, LiveBlocks;
      BlocksDistinct();
      FreeIsDistinct();
      NextBlock(j);
      if InUse(used, next[header]) {
        PairsClosed(blocks, used, {j}, {});
      } else {
        var x := next[header];
        ghost var k := IndexOf(free, x);
        RightPairs(blocks, used, j);
        Merged(blocks, poolSize - HEADER, used, next, j + 1, HEADER, {j, j + 1}, {j});
        RemoveAtMembers(free, k);
        availableSize := availableSize + HEADER;
        RemoveBlock(x, j + 1);
        UnlinkFree(x, k);
      }
    }

    /** The live block `h` becomes a free one that is in no list yet. */
    method Unmark(h: int) returns (ghost i: nat)
      requires Valid() && h in Live()
      modifies this`used, this`availableSize
      ensures i < |blocks| && h == blocks[i] && Freeing(i, {i - 1, i}, h) && used == old(used)[h := false]
      ensures Live() == old(Live()) - {h} && h != FREE_HEADER && h != NULL
      ensures poolSize - availableSize <= maxUsedSize
    {
      hide Distinct, NoFreePairs, Sum, Tiles, IsRing, LiveBlocks;
      LiveBlock(h);
      i := IndexOf(blocks, h);
      BlockLinked(i);
      BlockAligned(i);
      BlocksDistinct();
      Unmarked(blocks, poolSize - HEADER, used, next, i, HEADER);
      used := used[h := false];
      availableSize := availableSize + ItemSize(next, h, HEADER);
    }

    /** rt_memheap_free. */
    method Free(ptr: int)
      requires Valid() && (ptr == NULL || ptr - HEADER in Live())
      modifies this
      ensures Valid()
      ensures ptr == NULL ==> unchanged(this)
      ensures ptr != NULL ==> Live() == old(Live()) - {ptr - HEADER}
      ensures ptr != NULL ==> FreeAfter(old(blocks), old(used)[ptr - HEADER := false], old(free), ptr - HEADER, free)
      ensures maxUsedSize == old(maxUsedSize)
    {
      hide *;
      if ptr == NULL {
        return;
      }
      var h := ptr - HEADER;
      ghost var i := Unmark(h);
      Rejoin(h, i);
    }

    /** The block `h`, already marked free, joins its free neighbours and the free list. */
    method Rejoin(h: int, ghost i: nat)
      requires Freeing(i, {i - 1, i}, h) && h == blocks[i] && h != FREE_HEADER && h != NULL
      requires poolSize - availableSize <= maxUsedSize
      modifies this`availableSize, this`next, this`prev, this`blocks, this`nextFree, this`prevFree, this`free
      ensures Valid() && Live() == old(Live())
      ensures FreeAfter(old(blocks), used, old(free), h, free)
    {
      hide Distinct, NoFreePairs, Sum, RemoveAt, Tiles, IsRing, LiveBlocks, FreeAfter;
      BlocksDistinct();
      RemoveAtIndex(blocks, i);
      ghost var b0, f0 := blocks, free;
      var header, insertHeader, j := MergeLeft(h, i);
      MergeRight(header, j, if insertHeader then header else NULL);
      Relisted(b0, used, f0, h, i, insertHeader, free);
      BlocksDistinct();
      if insertHeader {
        PushFree(header);
      }
    }

    /** The split at the end of rt_memheap_realloc: the block `h` keeps `n` bytes. */
    method Shrink(h: int, n: nat, ghost i: nat)
      requires Valid() && i + 1 < |blocks| && h == blocks[i] && InUse(used, h) && n % 4 == 0
      requires n + HEADER + MINIALLOC < ItemSize(next, h, HEADER)
      modifies this, data
      ensures Valid()
      ensures Live() == old(Live())[h := n]
      ensures maxUsedSize == old(maxUsedSize)
      ensures Undisturbed(old(data[..]), data[..], Live(), HEADER)
    {
      hide InsertAt, RemoveAt, Distinct, NoFreePairs, Sum, Tiles, Forward, Backward, LiveBlocks, HeaderOnly, Undisturbed;
      var x := h + n + HEADER;
      BlocksDistinct();
      FreeIsDistinct();
      NextBlock(i);
      BlockAligned(i);
      InPool(i + 1);
      Cut(blocks, poolSize - HEADER, used, next, i, x, HEADER);
      InsertBlock(h, x, i);
      InsertAtIndex(old(blocks), i + 1, x);
      SettleTail(x, i + 1);
      PushFree(x);
      HeaderMisses(old(data[..]), data[..], x);
    }

    method SettleTail(x: int, ghost j: nat)
      requires Linked() && 0 <= j < |blocks| - 1 && x == blocks[j] && !InUse(used, x)
      requires NoFreePairs(blocks, used, {j}) && x !in free
      requires forall y :: y in free <==> y in blocks && !InUse(used, y) && y != x
      requires availableSize + ItemSize(next, x, HEADER) == Sum(blocks, used, FreeData(HEADER))
      modifies this`availableSize, this`next, this`prev, this`blocks, this`nextFree, this`prevFree, this`free
      ensures Freeing(j, {}, x) && x == blocks[j]
      ensures Live() == old(Live()) && old(availableSize) <= availableSize
    {
      hide Distinct, NoFreePairs, Sum, RemoveAt, Tiles, Forward, Backward, LiveBlocks;
      BlocksDistinct();
      FreeIsDistinct();
      BlockLinked(j);
      NextBlock(j);
      if InUse(used, next[x]) {
        PairsClosed(blocks, used, {j}, {});
      } else {
        var freePtr := next[x];
        ghost var k := IndexOf(free, freePtr);
        RightPairs(blocks, used, j);
        Merged(blocks, poolSize - HEADER, used, next, j + 1, HEADER, {j, j + 1}, {j});
        RemoveAtMembers(free, k);
        NextBlock(j + 1);
        availableSize := availableSize - ItemSize(next, freePtr, HEADER);
        RemoveBlock(freePtr, j + 1);
        UnlinkFree(freePtr, k);
      }
      availableSize := availableSize + ItemSize(next, x, HEADER);
    }

    /** Takes the free block behind `h` out of both lists. */
    method AbsorbNext(h: int, ghost i: nat)
      requires Linked() && ListsFree(blocks, used, free) && NoFreePairs(blocks, used, {})
      requires i + 2 < |blocks| && h == blocks[i] && InUse(used, h) && !InUse(used, blocks[i + 1])
      modifies this`next, this`prev, this`blocks, this`nextFree, this`prevFree, this`free
      ensures Linked() && ListsFree(blocks, used, free) && NoFreePairs(blocks, used, {})
      ensures i + 1 < |blocks| && h == blocks[i] && blocks[i + 1] == old(blocks[i + 2])
      ensures Sum(blocks, used, FreeData(HEADER)) == Sum(old(blocks), used, FreeData(HEADER)) - ItemSize(old(next), old(blocks[i + 1]), HEADER)
      ensures Live() == old(Live())[h := blocks[i + 1] - h - HEADER]
    {
      hide InsertAt, RemoveAt, Distinct, NoFreePairs, Sum, Tiles, Forward, Backward, LiveBlocks;
      BlocksDistinct();
      FreeIsDistinct();
      NextBlock(i);
      NextBlock(i + 1);
      Absorbed(blocks, poolSize - HEADER, used, next, i, HEADER);
      var nextPtr := next[h];
      ghost var k := IndexOf(free, nextPtr);
      RemoveAtMembers(free, k);
      UnlinkFree(nextPtr, k);
      RemoveBlock(nextPtr, i + 1);
    }

    /** Builds a free block behind the first `n` data bytes of the used block `h`. */
    method Replant(h: int, n: nat, ghost i: nat)
      requires Linked() && ListsFree(blocks, used, free) && NoFreePairs(blocks, used, {})
      requires i + 1 < |blocks| && h == blocks[i] && InUse(used, h) && n % 4 == 0
      requires h + n + 2 * HEADER <= blocks[i + 1] && InUse(used, blocks[i + 1])
      requires availableSize == Sum(blocks, used, FreeData(HEADER)) + blocks[i + 1] - h - n - 2 * HEADER
      requires poolSize - availableSize <= maxUsedSize
      modifies this`used, this`next, this`prev, this`blocks, this`nextFree, this`prevFree, this`free, data
      ensures Valid()
      ensures Live() == old(Live())[h := n]
      ensures Undisturbed(old(data[..]), data[..], Live(), HEADER)
    {
      hide InsertAt, RemoveAt, Distinct, NoFreePairs, Sum, Tiles, Forward, Backward, LiveBlocks, HeaderOnly, Undisturbed;
      var x := h + HEADER + n;
      BlocksDistinct();
      FreeIsDistinct();
      NextBlock(i);
      BlockAligned(i);
      InPool(i + 1);
      Cut(blocks, poolSize - HEADER, used, next, i, x, HEADER);
      InsertBlock(h, x, i);
      InsertAtIndex(old(blocks), i + 1, x);
      PairsClosed(blocks, used, {i + 1}, {});
      PushFree(x);
      HeaderMisses(old(data[..]), data[..], x);
    }

    /** In-place growth: the free block behind `h` is rebuilt `n` bytes behind `h`'s data,
        where its new header may overlap its old one. */
    method Grow(h: int, n: nat, ghost i: nat)
      requires Valid() && i + 2 < |blocks| && h == blocks[i] && InUse(used, h) && n % 4 == 0
      requires !InUse(used, blocks[i + 1]) && ItemSize(next, h, HEADER) < n
      requires n + MINIALLOC < ItemSize(next, blocks[i + 1], HEADER) + ItemSize(next, h, HEADER)
      modifies this, data
      ensures Valid()
      ensures Live() == old(Live())[h := n]
      ensures maxUsedSize == Max(old(maxUsedSize), poolSize - availableSize)
      ensures Undisturbed(old(data[..]), data[..], Live(), HEADER)
    {
      hide NoFreePairs, Sum, Tiles, IsRing, LiveBlocks;
      NextBlock(i);
      NextBlock(i + 1);
      UsedBehindFree(i);
      availableSize := availableSize - (n - ItemSize(next, h, HEADER));
      if maxUsedSize < poolSize - availableSize {
        maxUsedSize := poolSize - availableSize;
      }
      AbsorbNext(h, i);
      Replant(h, n, i);
    }

    /** The move at the end of the growing branch: a new block, then the old one freed. */
    method Move(ptr: int, n: nat) returns (r: int)
      requires Valid() && n <= MAX_REQUEST && n == Rounded(n) && ptr != NULL && ptr - HEADER in Live()
      modifies this, data
      ensures Valid()
      ensures r == NULL ==> unchanged(this)
      ensures r == NULL <==> NoRoom(old(availableSize), old(free), old(next), n)
      ensures r != NULL ==>
                && r - HEADER !in old(Live()) && r - HEADER in Live() && n <= Live()[r - HEADER]
                && Live() == (old(Live()) - {ptr - HEADER})[r - HEADER := Live()[r - HEADER]]
                && maxUsedSize == Max(old(maxUsedSize), poolSize - old(availableSize) + Spent(old(free), old(next), n))
                && SameBytes(old(data[..]), ptr - HEADER, data[..], r - HEADER, Min(old(Live())[ptr - HEADER], n), HEADER)
      ensures r == NULL ==> data[..] == old(data[..])
      ensures Undisturbed(old(data[..]), data[..], old(Live()) - {ptr - HEADER}, HEADER)
    {
      hide *;
      ghost var m0, live0 := data[..], Live();
      ghost var rest := live0 - {ptr - HEADER};
      NothingDisturbed(m0, rest, HEADER);
      var oldSize := SizeOf(ptr);
      ghost var at: nat;
      NoRoomIs(availableSize, free, next, n);
      r, at := Alloc(n);
      if r != NULL {
        ghost var m1, live1 := data[..], Live();
        var count := if oldSize < n then oldSize else n;
        assert count == Min(oldSize, n) by { MinFacts(oldSize, n); }
        CopyData(r, ptr, count);
        ghost var m2 := data[..];
        NothingDisturbed(m2, live1, HEADER);
        SameBytesKept(m0, ptr - HEADER, m1, m2, r - HEADER, m2, count, live0, live1, HEADER);
        UndisturbedFewer(m0, m1, live0, rest, HEADER);
        UndisturbedFewer(m1, m2, live1 - {r - HEADER}, rest, HEADER);
        UndisturbedTrans(m0, m1, m2, rest, HEADER);
        Free(ptr);
      }
    }

    method SizeOf(ptr: int) returns (size: nat)
      requires Valid() && ptr - HEADER in Live()
      ensures size == Live()[ptr - HEADER]
    {
      LiveBlock(ptr - HEADER);
      LiveSize(ptr - HEADER);
      LiveDisjoint(this, ptr - HEADER, ptr - HEADER);
      size := ItemSize(next, ptr - HEADER, HEADER);
    }

    /** rt_memcpy from the data of one live block to the data of another. */
    method CopyData(dst: int, src: int, n: nat)
      requires Valid() && dst - HEADER in Live() && src - HEADER in Live() && dst != src
      requires n <= Live()[dst - HEADER] && n <= Live()[src - HEADER]
      modifies data
      ensures SameBytes(old(data[..]), src - HEADER, data[..], dst - HEADER, n, HEADER)
      ensures Undisturbed(old(data[..]), data[..], Live() - {dst - HEADER}, HEADER)
    {
      hide Valid, Live;
      PoolHolds();
      LiveDisjoint(this, dst - HEADER, src - HEADER);
      LiveDisjoint(this, src - HEADER, dst - HEADER);
      ghost var m0 := data[..];
      CopyBytes(data, dst, src, n);
      forall b | b in Live() - {dst - HEADER}
        ensures SameData(m0, data[..], b, Live()[b], HEADER)
      {
        LiveDisjoint(this, b, dst - HEADER);
        LiveDisjoint(this, dst - HEADER, b);
      }
    }

    lemma PoolHolds()
      requires Valid()
      ensures data.Length == poolSize
    {
    }

    /** rt_memheap_realloc. */
    method Realloc(ptr: int, newSize: nat) returns (r: int)
      requires Valid() && newSize <= MAX_REQUEST && (ptr == NULL || ptr - HEADER in Live())
      modifies this, data
      ensures Valid()
      ensures newSize == 0 ==> r == NULL && Live() == (if ptr == NULL then old(Live()) else old(Live()) - {ptr - HEADER})
      ensures newSize != 0 && r == NULL ==> unchanged(this)
      ensures newSize != 0 && ptr == NULL ==>
                (r == NULL <==> NoRoom(old(availableSize), old(free), old(next), Rounded(newSize)))
      ensures newSize != 0 && r != NULL ==>
                && r - HEADER in Live() && Rounded(newSize) <= Live()[r - HEADER]
                && (r != ptr ==> r - HEADER !in old(Live()))
                && Live() == (old(Live()) - {ptr - HEADER})[r - HEADER := Live()[r - HEADER]]
      ensures newSize != 0 && ptr != NULL ==>
                var h, n := ptr - HEADER, Rounded(newSize);
                var o, grows := ItemSize(old(next), h, HEADER), Growable(old(used), old(next), h, n);
                && (r == ptr <==> n <= o || grows)
                && (r == ptr ==> Live() == old(Live())[h := if n <= o <= n + HEADER + MINIALLOC then o else n])
                && (r != ptr ==> (r == NULL <==> NoRoom(old(availableSize), old(free), old(next), n)))
      ensures newSize != 0 && r != NULL ==>
        maxUsedSize == Max(old(maxUsedSize), poolSize -
          if r == ptr then availableSize else old(availableSize) - Spent(old(free), old(next), Rounded(newSize)))
      ensures newSize == 0 ==> maxUsedSize == old(maxUsedSize)
      ensures newSize != 0 && r == NULL ==> data[..] == old(data[..])
      ensures newSize != 0 && ptr != NULL && r != NULL ==>
        SameBytes(old(data[..]), ptr - HEADER, data[..], r - HEADER, Min(old(Live())[ptr - HEADER], Rounded(newSize)), HEADER)
      ensures Undisturbed(old(data[..]), data[..], old(Live()) - {ptr - HEADER}, HEADER)
    {
      hide *;
      ghost var m0, live0 := data[..], Live();
      NothingDisturbed(m0, live0 - {ptr - HEADER}, HEADER);
      if newSize == 0 {
        Free(ptr);
        return NULL;
      }
      var n := RoundUp(newSize);
      if ptr == NULL {
        NullNotLive();
        ghost var at: nat;
        NoRoomIs(availableSize, free, next, n);
        r, at := Alloc(n);
        UndisturbedFewer(m0, data[..], live0, live0 - {ptr - HEADER}, HEADER);
        return;
      }
      r := Resize(ptr, n);
    }

    /** The part of rt_memheap_realloc behind its argument checks. */
    method Resize(ptr: int, n: nat) returns (r: int)
      requires Valid() && n <= MAX_REQUEST && n == Rounded(n) && ptr != NULL && ptr - HEADER in Live()
      modifies this, data
      ensures Valid()
      ensures r == NULL ==> unchanged(this)
      ensures r != NULL ==>
                && r - HEADER in Live() && n <= Live()[r - HEADER]
                && (r != ptr ==> r - HEADER !in old(Live()))
                && Live() == (old(Live()) - {ptr - HEADER})[r - HEADER := Live()[r - HEADER]]
      ensures var h := ptr - HEADER;
              var o, grows := ItemSize(old(next), h, HEADER), Growable(old(used), old(next), h, n);
              && (r == ptr <==> n <= o || grows)
              && (r == ptr ==> Live() == old(Live())[h := if n <= o <= n + HEADER + MINIALLOC then o else n])
              && (r != ptr ==> (r == NULL <==> NoRoom(old(availableSize), old(free), old(next), n)))
      ensures r != NULL ==>
        maxUsedSize == Max(old(maxUsedSize), poolSize -
          if r == ptr then availableSize else old(availableSize) - Spent(old(free), old(next), n))
      ensures r == NULL ==> data[..] == old(data[..])
      ensures r != NULL ==>
        SameBytes(old(data[..]), ptr - HEADER, data[..], r - HEADER, Min(old(Live())[ptr - HEADER], n), HEADER)
      ensures Undisturbed(old(data[..]), data[..], old(Live()) - {ptr - HEADER}, HEADER)
    {
      hide NoFreePairs, Sum, Tiles, IsRing, LiveBlocks, Undisturbed, SameBytes;
      var h := ptr - HEADER;
      LiveBlock(h);
      LiveSize(h);
      ghost var i := IndexOf(blocks, h);
      BlockLinked(i);
      NextBlock(i);
      ghost var m0, live0 := data[..], Live();
      NothingDisturbed(m0, live0, HEADER);
      var oldSize := ItemSize(next, h, HEADER);
      if oldSize < n {
        var nextPtr := next[h];
        if !InUse(used, nextPtr) && n + MINIALLOC < ItemSize(next, nextPtr, HEADER) + oldSize {
          Grow(h, n, i);
          StaysKept(h, m0, live0, n);
          return ptr;
        }
        r := Move(ptr, n);
      } else if oldSize <= n + HEADER + MINIALLOC {
        StaysKept(h, m0, live0, n);
        r := ptr;
      } else {
        Shrink(h, n, i);
        StaysKept(h, m0, live0, n);
        r := ptr;
      }
    }

    /** A block that stays, whatever its new size, has its data up to the smaller of the two. */
    lemma StaysKept(h: int, m0: seq<Byte>, live0: map<int, int>, n: nat)
      requires Valid() && h in Live() && h in live0 && 0 <= live0[h] && Min(live0[h], n) <= Live()[h]
      requires forall b :: b in live0 && b != h ==> b in Live() && Live()[b] == live0[b]
      requires Undisturbed(m0, data[..], Live(), HEADER)
      ensures SameBytes(m0, h, data[..], h, Min(live0[h], n), HEADER)
      ensures Undisturbed(m0, data[..], live0 - {h}, HEADER)
    {
      hide Valid, Live, Undisturbed, SameBytes;
      PoolHolds();
      LiveDisjoint(this, h, h);
      MinFacts(live0[h], n);
      SameLength(m0, data[..], Live(), h);
      UndisturbedSame(m0, data[..], Live(), h, Min(live0[h], n), HEADER);
      UndisturbedFewer(m0, data[..], Live(), live0 - {h}, HEADER);
    }

    lemma SameLength(m: seq<Byte>, m': seq<Byte>, live: map<int, int>, b: int)
      requires Undisturbed(m, m', live, HEADER) && b in live
      ensures |m| == |m'|
    {
      assert SameData(m, m', b, live[b], HEADER);
    }
  }

  /** Live blocks are aligned, lie inside the pool and do not overlap, headers included. */
  lemma LiveDisjoint(heap: Heap, a: int, b: int)
    requires heap.Valid() && a in heap.Live() && b in heap.Live()
    ensures 0 <= a && a % 4 == 0 && a + HEADER + heap.Live()[a] <= heap.poolSize - HEADER
    ensures 0 <= heap.Live()[a]
    ensures a < b ==> a + HEADER + heap.Live()[a] <= b
  {
    var i, j := IndexOf(heap.blocks, a), IndexOf(heap.blocks, b);
    heap.BlockLinked(i);
    heap.NextBlock(i);
    var m := |heap.blocks| - 1;
    assert i + 1 < m ==> heap.blocks[i + 1] <= heap.blocks[m];
    assert j <= i ==> heap.blocks[j] <= heap.blocks[i];
    assert i + 1 < j ==> heap.blocks[i + 1] <= heap.blocks[j];
  }

  /** Freeing a block right after allocating it restores the tiling, the live blocks and
      the count of available bytes. */
  method AllocThenFree(heap: Heap, size: nat)
    requires heap.Valid() && size <= MAX_REQUEST
    modifies heap, heap.data
    ensures heap.Valid()
    ensures heap.Live() == old(heap.Live()) && heap.blocks == old(heap.blocks)
    ensures heap.availableSize == old(heap.availableSize)
    ensures Undisturbed(old(heap.data[..]), heap.data[..], heap.Live(), HEADER)
  {
    hide *;
    ghost var b, u, n, end := heap.blocks, heap.used, heap.next, heap.poolSize - HEADER;
    heap.IsTiling();
    ghost var at: nat;
    var ptr;
    ptr, at := heap.Alloc(size);
    if ptr != NULL {
      heap.Free(ptr);
      heap.IsTiling();
      SameTiling(b, u, n, heap.blocks, heap.used, heap.next, end, HEADER);
    }
  }

  /** In a pool of 400 bytes, a block of 100 bytes can grow to 250 in place only: the free block
      behind it is too small to move to, but the two together are large enough. */
  method GrowsInPlace() returns (heap: Heap, ptr: int)
    ensures fresh(heap) && heap.Valid() && ptr == HEADER && heap.Live() == map[0 := 252]
  {
    hide Heap.Valid, Heap.Live, Undisturbed, SameBytes, FirstFit, IsRing, Tiles, Booked;
    heap := new Heap(400);
    Fresh400(heap);
    ghost var at: nat;
    ptr, at := heap.Alloc(100);
    assert heap.blocks == [0, 124, 376];
    FrontTaken(heap);
    ptr := heap.Realloc(ptr, 250);
  }

  lemma Fresh400(heap: Heap)
    requires heap.Valid() && heap.poolSize == 400 && heap.blocks == [0, 376] && heap.free == [0]
    ensures ItemSize(heap.next, 0, HEADER) == 352
    ensures FirstFit(heap.free, heap.next, 100) == 0 && Rounded(100) == 100
  {
    heap.NextBlock(0);
    assert !InUse(heap.used, 0) by {
      assert 0 in heap.free;
    }
  }

  lemma FrontTaken(heap: Heap)
    requires heap.Valid() && heap.poolSize == 400 && heap.blocks == [0, 124, 376] && heap.free == [124]
    ensures Rounded(250) == 252 && ItemSize(heap.next, 0, HEADER) == 100
    ensures Growable(heap.used, heap.next, 0, 252)
    ensures NoRoom(heap.availableSize, heap.free, heap.next, 252)
  {
    heap.NextBlock(0);
    heap.NextBlock(1);
    assert !InUse(heap.used, 124) by {
      assert 124 in heap.free;
    }
    GrowsWhen(heap.used, heap.next, 0, 252);
  }
}

/** The small-memory heap of rt-thread/src/mem.c.

    Blocks tile one byte array; each is headed by a header stored in the array itself.
    Pointers are offsets into the array, and the offset of a block is the offset of its
    header. */
module SmallMem {
  import opened Arithmetic
  import opened BlockData
  import opened Blocks
  import opened RawMemory
  import opened Ring

  const MIN_SIZE: int := LEAST
  const NULL: int := -1
  const MAX_REQUEST: int := 0xFFFF_FFFC  // rounding up a larger request would wrap

  /** `next` leads from each block to its successor and from the sentinel to itself;
      `prev` leads back, except that the sentinel's is not kept up to date. */
  ghost predicate Chained(blocks: seq<int>, next: map<int, int>, prev: map<int, int>) {
    && 2 <= |blocks|
    && (forall i {:trigger next[blocks[i]]} {:trigger blocks[i] in next} :: 0 <= i < |blocks| ==>
          blocks[i] in next && next[blocks[i]] == if i + 1 == |blocks| then blocks[i] else blocks[i + 1])
    && (forall i {:trigger prev[blocks[i]]} {:trigger blocks[i] in prev} :: 0 <= i < |blocks| ==>
          blocks[i] in prev && (i + 1 < |blocks| ==> prev[blocks[i]] == if i == 0 then blocks[i] else blocks[i - 1]))
  }

  lemma {:induction false} ChainedInserted(blocks: seq<int>, next: map<int, int>, prev: map<int, int>, i: nat, x: int,
                                           next': map<int, int>, prev': map<int, int>)
    requires Chained(blocks, next, prev) && Distinct(blocks) && i + 1 < |blocks| && x !in blocks
    requires forall y :: y in blocks && y != blocks[i] ==> y in next' && next'[y] == next[y]
    requires x in next' && next'[x] == blocks[i + 1] && blocks[i] in next' && next'[blocks[i]] == x
    requires forall y :: y in blocks && (y != blocks[i + 1] || i + 2 == |blocks|) ==> y in prev' && prev'[y] == prev[y]
    requires x in prev' && prev'[x] == blocks[i]
    requires i + 2 < |blocks| ==> blocks[i + 1] in prev' && prev'[blocks[i + 1]] == x
    ensures Chained(InsertAt(blocks, i + 1, x), next', prev')
  {
    var r := InsertAt(blocks, i + 1, x);
    forall j | 0 <= j < |r|
      ensures r[j] in next' && next'[r[j]] == if j + 1 == |r| then r[j] else r[j + 1]
      ensures r[j] in prev' && (j + 1 < |r| ==> prev'[r[j]] == if j == 0 then r[j] else r[j - 1])
    {
      if j != i + 1 {
        var k := if j <= i then j else j - 1;
        assert r[j] == blocks[k] && blocks[k] in blocks && blocks[k] in next && blocks[k] in prev;
      }
    }
  }

  lemma ChainedRemoved(blocks: seq<int>, next: map<int, int>, prev: map<int, int>, i: nat)
    requires Chained(blocks, next, prev) && Distinct(blocks) && 0 < i && i + 1 < |blocks|
    ensures Chained(RemoveAt(blocks, i), next[blocks[i - 1] := blocks[i + 1]], prev[blocks[i + 1] := blocks[i - 1]])
  {
    var r := RemoveAt(blocks, i);
    var next', prev' := next[blocks[i - 1] := blocks[i + 1]], prev[blocks[i + 1] := blocks[i - 1]];
    forall j | 0 <= j < |r|
      ensures r[j] in next' && next'[r[j]] == if j + 1 == |r| then r[j] else r[j + 1]
      ensures r[j] in prev' && (j + 1 < |r| ==> prev'[r[j]] == if j == 0 then r[j] else r[j - 1])
    {
      var k := if j < i then j else j + 1;
      assert r[j] == blocks[k] && blocks[k] in next && blocks[k] in prev;
    }
  }

  /** RT_ALIGN and RT_ALIGN_DOWN for RT_ALIGN_SIZE, which is 4. */
  function AlignUp(x: nat): nat {
    (x + 3) / 4 * 4
  }

  function AlignDown(x: nat): nat {
    x / 4 * 4
  }

  lemma Aligned(x: nat)
    ensures AlignUp(x) % 4 == 0 && x <= AlignUp(x) < x + 4 && (AlignUp(x) == 0 <==> x == 0)
    ensures AlignDown(x) % 4 == 0 && x - 4 < AlignDown(x) <= x
  {
  }

  /** Rounding twice is rounding once. */
  lemma SameRounding(size: nat)
    ensures AlignUp(size) == 0 <==> size == 0
    ensures AlignUp(AlignUp(size)) == AlignUp(size) && Rounded(AlignUp(size)) == Rounded(size)
  {
  }

  ghost function Offsets(blocks: seq<int>): set<int> {
    set y | y in blocks
  }

  lemma FewerOffsets(b: seq<int>, b': seq<int>)
    requires forall x :: x in b' ==> x in b
    ensures Offsets(b') <= Offsets(b)
  {
    forall x | x in Offsets(b')
      ensures x in Offsets(b)
    {
      assert x in b';
    }
  }

  /** Writing headers of the tiling disturbs no data. */
  lemma HeadersMissData(m: seq<Byte>, m': seq<Byte>, blocks: seq<int>, end: int,
                        used: map<int, bool>, next: map<int, int>, prev: map<int, int>)
    requires Tiles(blocks, end, HEADER) && Chained(blocks, next, prev) && OnlyHeaders(m, m', Offsets(blocks))
    ensures Undisturbed(m, m', LiveBlocks(blocks, used, next, end, HEADER), HEADER)
  {
    var live := LiveBlocks(blocks, used, next, end, HEADER);
    forall b | b in live
      ensures SameData(m, m', b, live[b], HEADER)
    {
      var i := IndexOf(blocks, b);
      assert blocks[i] in next;
      assert i + 1 == |blocks| || live[b] == blocks[i + 1] - b - HEADER;
      forall k {:trigger m'[k]} | 0 <= k < |m| && b + HEADER <= k < b + HEADER + live[b]
        ensures m'[k] == m[k]
      {
        assert forall j :: 0 <= j < |blocks| ==> if j <= i then blocks[j] <= b else blocks[i + 1] <= blocks[j];
        assert forall h :: h in Offsets(blocks) ==> k < h || h + HEADER <= k;
      }
    }
  }

  /** Writing inside the data of the live block `dst` harms neither headers nor other data. */
  lemma DataMissesRest(m: seq<Byte>, m': seq<Byte>, blocks: seq<int>, end: int,
                       used: map<int, bool>, next: map<int, int>, prev: map<int, int>, dst: int, n: nat)
    requires Tiles(blocks, end, HEADER) && Chained(blocks, next, prev) && |m| == |m'|
    requires dst in blocks && InUse(used, dst) && dst != end && n <= ItemSize(next, dst, HEADER)
    requires forall j :: 0 <= j < |m| && !(dst + HEADER <= j < dst + HEADER + n) ==> m'[j] == m[j]
    ensures forall x, h :: x in blocks && Holds(m, x, h) ==> Holds(m', x, h)
    ensures Undisturbed(m, m', LiveBlocks(blocks, used, next, end, HEADER) - {dst}, HEADER)
  {
    var live := LiveBlocks(blocks, used, next, end, HEADER);
    RestApart(blocks, end, used, next, prev, dst);
    hide Tiles, Chained, LiveBlocks;
    forall x, h | x in blocks && Holds(m, x, h)
      ensures Holds(m', x, h)
    {
      assert forall k :: x <= k < x + HEADER ==> m'[k] == m[k];
    }
    assert Undisturbed(m, m', live - {dst}, HEADER);
  }

  lemma RestApart(blocks: seq<int>, end: int, used: map<int, bool>, next: map<int, int>, prev: map<int, int>, dst: int)
    requires Tiles(blocks, end, HEADER) && Chained(blocks, next, prev) && dst in blocks && dst != end
    ensures forall x :: x in blocks ==> x <= dst || dst + HEADER + ItemSize(next, dst, HEADER) <= x
    ensures forall x :: x in blocks && x < dst ==> x + HEADER <= dst
    ensures var live := LiveBlocks(blocks, used, next, end, HEADER);
            forall x :: x in live && x < dst ==> x in blocks && x + HEADER + live[x] <= dst
    ensures var live := LiveBlocks(blocks, used, next, end, HEADER);
            forall x :: x in live && dst < x ==> x in blocks
  {
    hide LiveBlocks;
    forall x | x in blocks && x != dst
      ensures x < dst ==> x + HEADER + ItemSize(next, x, HEADER) <= dst && x + HEADER <= dst
      ensures dst < x ==> dst + HEADER + ItemSize(next, dst, HEADER) <= x
    {
      var i, j := IndexOf(blocks, x), IndexOf(blocks, dst);
      assert blocks[j] in next && blocks[i] in next;
      assert i + 1 < j ==> blocks[i + 1] + HEADER <= blocks[j];
      assert j + 1 < i ==> blocks[j + 1] + HEADER <= blocks[i];
    }
    LiveIsBlock(blocks, used, next, end);
  }

  lemma LiveIsBlock(blocks: seq<int>, used: map<int, bool>, next: map<int, int>, end: int)
    ensures var live := LiveBlocks(blocks, used, next, end, HEADER);
            forall x :: x in live ==> x in blocks && live[x] == ItemSize(next, x, HEADER)
  {
  }

  ghost predicate Lowest(blocks: seq<int>, used: map<int, bool>, lfree: int) {
    forall x :: x in blocks && !InUse(used, x) ==> lfree <= x
  }

  /** A new hole at `x` that has swallowed its successor `nb`, if that was free, leaves `lfree`
      the lowest free block exactly if it was that and lay below the hole, or was `nb`. */
  lemma LowestWithHole(blocks: seq<int>, used: map<int, bool>, lfree: int,
                       blocks': seq<int>, used': map<int, bool>, lfree': int, x: int, nb: int)
    requires x !in blocks && x in blocks' && !InUse(used', x) && x < nb
    requires forall y :: y in blocks' ==> y == x || y in blocks
    requires forall y :: y in blocks ==> InUse(used', y) == InUse(used, y) && (y in blocks' || (y == nb && !InUse(used, y)))
    requires forall y :: y in blocks && x <= y ==> nb <= y
    requires !InUse(used, nb) ==> nb !in blocks'
    requires lfree in blocks && lfree' in blocks'
    requires lfree' <= lfree && forall y :: y in blocks' && y <= lfree ==> y <= lfree'
    ensures Lowest(blocks', used', lfree') <==>
            Lowest(blocks, used, lfree) && (lfree < x || (lfree == nb && !InUse(used, nb)))
  {
    assert lfree' <= x <==> lfree < x || (lfree == nb && !InUse(used, nb));
    if Lowest(blocks', used', lfree') {
      forall y | y in blocks && !InUse(used, y)
        ensures lfree <= y
      {
        assert lfree' <= x && (y in blocks' ==> lfree' <= y);
        assert if lfree in blocks' then lfree' == lfree else lfree == nb && x <= lfree';
      }
    }
  }

  /** The tiling right after rt_system_heap_init. */
  lemma FreshTiling(end: int)
    requires HEADER + MIN_SIZE <= end && end % 4 == 0
    ensures
      var b, u, n, p := [0, end], map[0 := false, end := true], map[0 := end, end := end], map[0 := 0, end := end];
      && Tiles(b, end, HEADER) && Chained(b, n, p) && InUse(u, end) && NoFreePairs(b, u, {})
      && Sum(b, u, UsedExtent) == 0 && LiveBlocks(b, u, n, end, HEADER) == map[]
  {
    var b: seq<int> := [0, end];
    assert b[1..] == [end];
    assert forall i :: 0 <= i < |b| ==> b[i] == 0 || b[i] == end;
  }

  class Heap {
    const memory: array<Byte>
    const memSize: int
    var lfree: int
    var usedMem: int
    var maxMem: int
    // what the headers say, and the blocks in address order
    ghost var used: map<int, bool>
    ghost var next: map<int, int>
    ghost var prev: map<int, int>
    ghost var blocks: seq<int>

    function End(): int {
      memSize + HEADER
    }

    /** rt_system_heap_init on the part of [`beginAddr`, `endAddr`) between aligned addresses. */
    constructor (beginAddr: nat, endAddr: nat)
      requires endAddr < WORD_LIMIT
      requires AlignUp(beginAddr) + 2 * HEADER + MIN_SIZE <= AlignDown(endAddr)
      ensures Valid() && Live() == map[] && blocks == [0, End()] && lfree == 0 && LfreeLowest()
      ensures memSize == AlignDown(endAddr) - AlignUp(beginAddr) - 2 * HEADER
      ensures usedMem == 0 && maxMem == 0 && fresh(memory)
    {
      hide AlignUp, AlignDown;
      Aligned(beginAddr);
      Aligned(endAddr);
      var size := AlignDown(endAddr) - AlignUp(beginAddr) - 2 * HEADER;
      memSize := size;
      memory := new Byte[size + 2 * HEADER];
      lfree, usedMem, maxMem := 0, 0, 0;
      var end := size + HEADER;
      used, next, prev := map[0 := false, end := true], map[0 := end, end := end], map[0 := 0, end := end];
      blocks := [0, end];
      new;
      Format();
    }

    /** The headers of the one free block and of the sentinel. */
    method Format()
      requires MIN_SIZE <= memSize && memSize % 4 == 0 && memory.Length == memSize + 2 * HEADER < WORD_LIMIT
      requires blocks == [0, End()] && used == map[0 := false, End() := true]
      requires next == map[0 := End(), End() := End()] && prev == map[0 := 0, End() := End()]
      requires lfree == usedMem == maxMem == 0
      modifies memory
      ensures Valid() && Live() == map[] && LfreeLowest()
    {
      hide Holds, OnlyHeaders, Tiles, Chained, Sum, NoFreePairs, LiveBlocks;
      var end := End();
      FreshTiling(end);
      WriteHeader(memory, 0, Header(false, end, 0));
      ghost var m0 := memory[..];
      WriteHeader(memory, end, Header(true, end, end));
      HeaderKept(m0, memory[..], end, 0, Header(false, end, 0));
    }

    ghost predicate Shape()
      reads this
    {
      && MIN_SIZE <= memSize && memory.Length == memSize + 2 * HEADER < WORD_LIMIT
      && Tiles(blocks, End(), HEADER)
    }

    /** The bytes agree with the ghost view of the headers. */
    ghost predicate Stored()
      reads this`used, this`next, this`prev, this`blocks, memory
    {
      forall x :: x in blocks ==>
        x in used && x in next && x in prev && Holds(memory[..], x, Header(used[x], next[x], prev[x]))
    }

    lemma StoredAfter(m: seq<Byte>, at: int)
      requires Shape() && at in blocks && OnlyHeaders(m, memory[..], {at})
      requires forall x :: x in blocks ==> x in used && x in next && x in prev
      requires forall x :: x in blocks && x != at ==> Holds(m, x, Header(used[x], next[x], prev[x]))
      requires Holds(memory[..], at, Header(used[at], next[at], prev[at]))
      ensures Stored()
    {
      forall x | x in blocks && x != at
        ensures Holds(memory[..], x, Header(used[x], next[x], prev[x]))
      {
        var i, j := IndexOf(blocks, x), IndexOf(blocks, at);
        assert i < j ==> blocks[i] + HEADER <= blocks[j];
        assert j < i ==> blocks[j] + HEADER <= blocks[i];
        HeaderKept(m, memory[..], at, x, Header(used[x], next[x], prev[x]));
      }
    }

    method GetNext(mem: int) returns (v: int)
      requires Stored() && mem in blocks
      ensures v == next[mem]
    {
      v := ReadWord(memory, mem + 4);
    }

    method GetPrev(mem: int) returns (v: int)
      requires Stored() && mem in blocks
      ensures v == prev[mem]
    {
      v := ReadWord(memory, mem + 8);
    }

    method GetUsed(mem: int) returns (v: bool)
      requires Stored() && mem in blocks
      ensures v == used[mem]
    {
      var u := ReadHalf(memory, mem + 2);
      v := u != 0;
    }

    method SetNext(mem: int, v: int)
      requires Shape() && Stored() && mem in blocks && 0 <= v < WORD_LIMIT
      modifies memory, this`next
      ensures Stored() && next == old(next)[mem := v]
      ensures OnlyHeaders(old(memory[..]), memory[..], {mem})
    {
      WriteWord(memory, mem + 4, v);
      next := next[mem := v];
      StoredAfter(old(memory[..]), mem);
    }

    method SetPrev(mem: int, v: int)
      requires Shape() && Stored() && mem in blocks && 0 <= v < WORD_LIMIT
      modifies memory, this`prev
      ensures Stored() && prev == old(prev)[mem := v]
      ensures OnlyHeaders(old(memory[..]), memory[..], {mem})
    {
      WriteWord(memory, mem + 8, v);
      prev := prev[mem := v];
      StoredAfter(old(memory[..]), mem);
    }

    method SetUsed(mem: int, v: bool)
      requires Shape() && Stored() && mem in blocks
      modifies memory, this`used
      ensures Stored() && used == old(used)[mem := v]
      ensures OnlyHeaders(old(memory[..]), memory[..], {mem})
    {
      WriteHalf(memory, mem + 2, if v then 1 else 0);
      WriteHalf(memory, mem, HEAP_MAGIC);
      used := used[mem := v];
      StoredAfter(old(memory[..]), mem);
    }

    /** Writes a fresh header for a free block at `x`, behind the i-th block. */
    method NewHeader(x: int, nn: int, mem: int, ghost i: nat)
      requires Shape() && Stored() && i + 1 < |blocks|
      requires blocks[i] + HEADER <= x && x + HEADER <= blocks[i + 1] && x % 4 == 0
      requires 0 <= nn < WORD_LIMIT && 0 <= mem < WORD_LIMIT
      modifies memory, this`used, this`next, this`prev, this`blocks
      ensures Shape() && Stored() && blocks == InsertAt(old(blocks), i + 1, x)
      ensures used == Overwrite(old(used), x, HEADER)[x := false]
      ensures next == Overwrite(old(next), x, HEADER)[x := nn]
      ensures prev == Overwrite(old(prev), x, HEADER)[x := mem]
      ensures OnlyHeaders(old(memory[..]), memory[..], {x})
    {
      TilesInserted(blocks, End(), i, x, HEADER);
      ClearOf(blocks, End(), i, x, HEADER);
      InsertAtMembers(blocks, i + 1, x);
      hide Tiles, InsertAt;
      assert 0 <= x by { FirstIsZero(i); }
      WriteHeader(memory, x, Header(false, nn, mem));
      used := Overwrite(used, x, HEADER)[x := false];
      next := Overwrite(next, x, HEADER)[x := nn];
      prev := Overwrite(prev, x, HEADER)[x := mem];
      blocks := InsertAt(blocks, i + 1, x);
      StoredAfter(old(memory[..]), x);
    }

    lemma FirstIsZero(i: nat)
      requires Shape() && i < |blocks|
      ensures 0 <= blocks[i] && blocks[i] % 4 == 0 && blocks[i] in blocks && blocks[i] < WORD_LIMIT
      ensures i + 1 < |blocks| <==> blocks[i] != End()
      ensures i + 1 < |blocks| ==> blocks[i] + HEADER <= blocks[i + 1] <= End()
    {
      assert blocks[0] <= blocks[i] <= blocks[|blocks| - 1];
      assert i + 1 < |blocks| ==> blocks[i + 1] <= blocks[|blocks| - 1];
    }

    /** Turns the tail of the i-th block, from `x` on, into a free block. */
    method Split(mem: int, x: int, ghost i: nat)
      requires Shape() && Stored() && Chained(blocks, next, prev) && i + 1 < |blocks| && mem == blocks[i]
      requires mem + HEADER <= x && x + HEADER <= blocks[i + 1] && x % 4 == 0
      modifies memory, this`used, this`next, this`prev, this`blocks
      ensures Shape() && Stored() && Chained(blocks, next, prev)
      ensures blocks == InsertAt(old(blocks), i + 1, x)
      ensures used == Overwrite(old(used), x, HEADER)[x := false]
      ensures next == Overwrite(old(next), x, HEADER)[x := old(blocks[i + 1])][mem := x]
      ensures OnlyHeaders(old(memory[..]), memory[..], Offsets(blocks))
    {
      hide Tiles, InsertAt, Holds, OnlyHeaders;
      FirstIsZero(i);
      FirstIsZero(i + 1);
      TilesInserted(blocks, End(), i, x, HEADER);
      InsertAtMembers(blocks, i + 1, x);
      ClearOf(blocks, End(), i, x, HEADER);
      BlocksDistinct();
      assert blocks[i] in next;
      ghost var b, n, p := blocks, next, prev;
      ghost var m0 := memory[..];
      var nn := GetNext(mem);
      NewHeader(x, nn, mem, i);
      ghost var m1 := memory[..];
      SetNext(mem, x);
      ghost var m2 := memory[..];
      OnlyHeadersTrans(m0, m1, m2, {x}, {mem}, Offsets(blocks));
      if nn != End() {
        SetPrev(nn, x);
        OnlyHeadersTrans(m0, m2, memory[..], Offsets(blocks), {nn}, Offsets(blocks));
      }
      ChainedInserted(b, n, p, i, x, next, prev);
    }

    lemma BlocksDistinct()
      requires Shape()
      ensures Distinct(blocks) && End() in blocks && NULL !in blocks
    {
      assert blocks[|blocks| - 1] in blocks && forall i :: 0 <= i < |blocks| ==> blocks[0] <= blocks[i];
    }

    /** Everything the heap keeps, except that the pairs in `open` may both be free. */
    ghost predicate Intact(open: set<int>)
      reads this, memory
    {
      && Shape() && Stored() && Chained(blocks, next, prev)
      && InUse(used, End())
      && NoFreePairs(blocks, used, open)
      && usedMem == Sum(blocks, used, UsedExtent)
    }

    ghost predicate Sound(open: set<int>)
      reads this, memory
    {
      Intact(open) && (lfree == End() || (lfree in blocks && !InUse(used, lfree)))
    }

    ghost predicate Valid()
      reads this, memory
    {
      Sound({}) && usedMem <= maxMem && forall b :: b in Live() ==> 0 < Live()[b]
    }

    /** The blocks handed out, by header offset, and their data sizes. */
    ghost function Live(): map<int, int>
      reads this
    {
      LiveBlocks(blocks, used, next, End(), HEADER)
    }

    /** Combines the free block `gone`, the i-th, with the free block `head` before it. */
    method Join(head: int, gone: int, ghost i: nat, ghost open: set<int>, ghost keep: set<int>)
      requires Sound(open) && (forall e :: e in open ==> (e < i && e in keep) || e == i) && i - 1 in keep
      requires 0 < i && i + 1 < |blocks| && gone == blocks[i] && head == blocks[i - 1]
      requires !InUse(used, head) && !InUse(used, gone) && lfree != gone
      modifies memory, this`next, this`prev, this`blocks
      ensures Sound(keep) && blocks == RemoveAt(old(blocks), i)
      ensures blocks[i - 1] == head && blocks[i] == old(blocks[i + 1])
      ensures 1 < i ==> blocks[i - 2] == old(blocks[i - 2])
      ensures Live() == old(Live())
      ensures forall x :: x in blocks <==> x in old(blocks) && x != gone
      ensures OnlyHeaders(old(memory[..]), memory[..], Offsets(blocks))
    {
      hide Tiles, RemoveAt, Holds, OnlyHeaders, NoFreePairs, Sum, LiveBlocks;
      BlocksDistinct();
      FirstIsZero(i);
      FirstIsZero(i - 1);
      FirstIsZero(i + 1);
      Merged(blocks, End(), used, next, i, HEADER, open, keep);
      ChainedRemoved(blocks, next, prev, i);
      assert blocks[i] in next;
      ghost var m0 := memory[..];
      var nn := GetNext(gone);
      SetNext(head, nn);
      ghost var m1 := memory[..];
      SetPrev(nn, head);
      OnlyHeadersTrans(m0, m1, memory[..], {head}, {nn}, Offsets(RemoveAt(blocks, i))) by {
        assert blocks[i + 1] != blocks[i] && blocks[i - 1] != blocks[i] by { assert Distinct(blocks); }
      }
      RemoveAtIndex(blocks, i);
      blocks := RemoveAt(blocks, i);
    }

    /** plug_holes: the free block `mem` joins the free blocks on both sides of it. */
    method PlugHoles(mem: int, ghost i: nat)
      requires Sound({i - 1, i}) && i + 1 < |blocks| && mem == blocks[i] && !InUse(used, mem)
      modifies memory, this`next, this`prev, this`blocks, this`lfree
      ensures Sound({})
      ensures Live() == old(Live())
      ensures forall x :: x in blocks ==> x in old(blocks)
      ensures forall x :: x in old(blocks) ==>
                x in blocks || (x == old(blocks[i + 1]) && !InUse(used, x)) || (x == mem && 0 < i && !InUse(used, old(blocks[i - 1])))
      ensures !InUse(used, old(blocks[i + 1])) ==> old(blocks[i + 1]) !in blocks
      ensures lfree <= old(lfree) && forall x :: x in blocks && x <= old(lfree) ==> x <= lfree
      ensures OnlyHeaders(old(memory[..]), memory[..], Offsets(old(blocks)))
    {
      hide Sound, OnlyHeaders, LiveBlocks;
      ghost var m0, all := memory[..], Offsets(blocks);
      PlugForward(mem, i);
      ghost var m1, mid := memory[..], blocks;
      PlugBackward(mem, i);
      FewerOffsets(old(blocks), mid);
      OnlyHeadersTrans(m0, m1, memory[..], all, Offsets(mid), all);
    }

    method PlugForward(mem: int, ghost i: nat)
      requires Sound({i - 1, i}) && i + 1 < |blocks| && mem == blocks[i] && !InUse(used, mem)
      modifies memory, this`next, this`prev, this`blocks, this`lfree
      ensures Sound({i - 1}) && i + 1 < |blocks| && mem == blocks[i] && (0 < i ==> blocks[i - 1] == old(blocks[i - 1]))
      ensures Live() == old(Live())
      ensures forall x :: x in blocks ==> x in old(blocks)
      ensures forall x :: x in old(blocks) ==> x in blocks || (x == old(blocks[i + 1]) && !InUse(used, x))
      ensures !InUse(used, old(blocks[i + 1])) ==> old(blocks[i + 1]) !in blocks
      ensures lfree <= old(lfree) && forall x :: x in blocks && x <= old(lfree) ==> x <= lfree
      ensures OnlyHeaders(old(memory[..]), memory[..], Offsets(old(blocks)))
    {
      hide Tiles, RemoveAt, Holds, OnlyHeaders, NoFreePairs, Sum, LiveBlocks, Offsets, Distinct;
      FirstIsZero(i);
      FirstIsZero(i + 1);
      assert blocks[i] in next;
      hide Chained;
      var nmem := GetNext(mem);
      var nused := GetUsed(nmem);
      ghost var m0, all := memory[..], Offsets(blocks);
      if mem != nmem && !nused && nmem != End() {
        BetweenBlocks(i);
        UsedAfter(blocks, used, {i - 1, i}, i + 1);
        if lfree == nmem {
          lfree := mem;
        }
        Join(mem, nmem, i + 1, {i - 1, i}, {i - 1, i});
        FewerOffsets(old(blocks), blocks);
        OnlyHeadersWiden(m0, memory[..], Offsets(blocks), all);
      } else {
        OnlyHeadersSame(m0, all);
      }
      PairsClosed(blocks, used, {i - 1, i}, {i - 1});
    }

    method PlugBackward(mem: int, ghost i: nat)
      requires Sound({i - 1}) && i + 1 < |blocks| && mem == blocks[i] && !InUse(used, mem)
      modifies memory, this`next, this`prev, this`blocks, this`lfree
      ensures Sound({})
      ensures Live() == old(Live())
      ensures forall x :: x in blocks ==> x in old(blocks)
      ensures forall x :: x in old(blocks) ==> x in blocks || (x == mem && 0 < i && !InUse(used, old(blocks[i - 1])))
      ensures lfree <= old(lfree) && forall x :: x in blocks && x <= old(lfree) ==> x <= lfree
      ensures OnlyHeaders(old(memory[..]), memory[..], Offsets(old(blocks)))
    {
      hide Tiles, RemoveAt, Holds, OnlyHeaders, NoFreePairs, Sum, LiveBlocks, Offsets, Distinct;
      FirstIsZero(i);
      assert blocks[i] in prev && forall x :: x in blocks ==> x in used;
      hide Chained, Stored;
      var pmem := GetPrev(mem);
      var pused := GetUsed(pmem);
      ghost var m0, all := memory[..], Offsets(blocks);
      if pmem != mem && !pused {
        FirstIsZero(i - 1);
        BetweenBlocks(i - 1);
        UsedAfter(blocks, used, {i - 1}, i);
        if lfree == mem {
          lfree := pmem;
        }
        Join(pmem, mem, i, {i - 1}, {i - 1});
        FewerOffsets(old(blocks), blocks);
        OnlyHeadersWiden(m0, memory[..], Offsets(blocks), all);
      } else {
        OnlyHeadersSame(m0, all);
      }
      PairsClosed(blocks, used, {i - 1}, {});
    }

    lemma Readable(mem: int)
      requires Stored() && mem in blocks
      ensures mem in next && ItemSize(next, mem, HEADER) == next[mem] - mem - HEADER
    {
    }

    lemma FreeBlock(i: nat)
      requires Shape() && Chained(blocks, next, prev) && InUse(used, End())
      requires i < |blocks| && !InUse(used, blocks[i])
      ensures i + 1 < |blocks| && next[blocks[i]] == blocks[i + 1] && blocks[i] in next
      ensures 0 <= blocks[i] && blocks[i] % 4 == 0 && blocks[i] != End()
      ensures Distinct(blocks)
    {
      FirstIsZero(i);
    }

    lemma IsTiling()
      requires Valid()
      ensures Tiling(blocks, used, next, End(), HEADER)
      ensures Live() == LiveBlocks(blocks, used, next, End(), HEADER) && lfree in blocks
    {
      BlocksDistinct();
      forall i {:trigger blocks[i + 1]} | 0 <= i < |blocks| - 1
        ensures ItemSize(next, blocks[i], HEADER) == blocks[i + 1] - blocks[i] - HEADER
      {
        assert blocks[i] in next;
      }
    }

    lemma BetweenBlocks(i: nat)
      requires Shape() && i + 1 < |blocks|
      ensures forall x :: x in blocks && x < blocks[i + 1] ==> x <= blocks[i]
    {
      assert forall j :: 0 <= j < |blocks| && blocks[j] < blocks[i + 1] ==> j <= i && blocks[j] <= blocks[i];
    }

    /** Moves `lfree` up to the next free block, or to the end. */
    method AdvanceLfree()
      requires Intact({}) && lfree in blocks
      modifies this`lfree
      ensures Sound({})
      ensures old(lfree) <= lfree && forall x :: x in blocks && old(lfree) <= x < lfree ==> InUse(used, x)
    {
      hide Tiles, Holds, NoFreePairs, Sum, Distinct;
      ghost var i := IndexOf(blocks, lfree);
      var taken := GetUsed(lfree);
      while taken && lfree != End()
        invariant i < |blocks| && lfree == blocks[i] && taken == InUse(used, lfree)
        invariant old(lfree) <= lfree && forall x :: x in blocks && old(lfree) <= x < lfree ==> InUse(used, x)
        decreases |blocks| - i
      {
        FirstIsZero(i);
        BetweenBlocks(i);
        assert blocks[i] in next;
        lfree := GetNext(lfree);
        i := i + 1;
        taken := GetUsed(lfree);
      }
    }

    /** The branch of rt_malloc that splits the block `mem`. */
    method TakePart(mem: int, n: nat, ghost i: nat)
      requires Valid() && i < |blocks| && mem == blocks[i] && !InUse(used, mem) && n % 4 == 0
      requires n + HEADER + MIN_SIZE <= ItemSize(next, mem, HEADER)
      modifies this`usedMem, this`maxMem, this`used, this`next, this`prev, this`blocks, memory
      ensures Intact({}) && usedMem <= maxMem
      ensures mem !in old(Live()) && Live() == old(Live())[mem := n]
      ensures forall x :: x in blocks <==> x == mem + HEADER + n || x in old(blocks)
      ensures InUse(used, mem) && !InUse(used, mem + HEADER + n)
      ensures forall x :: x in old(blocks) && x != mem ==> InUse(used, x) == InUse(old(used), x)
      ensures OnlyHeaders(old(memory[..]), memory[..], Offsets(blocks))
      ensures usedMem == old(usedMem) + n + HEADER && maxMem == Max(old(maxMem), usedMem)
    {
      hide Tiles, InsertAt, Holds, OnlyHeaders, NoFreePairs, Sum, LiveBlocks, Chained, Distinct;
      var x := mem + HEADER + n;
      FreeBlock(i);
      PartLive(blocks, End(), used, next, i, x, HEADER);
      PartAccounts(blocks, End(), used, Overwrite(used, x, HEADER)[x := false], i, x, HEADER);
      ghost var m0 := memory[..];
      Split(mem, x, i);
      ghost var m1 := memory[..];
      SetUsed(mem, true);
      OnlyHeadersTrans(m0, m1, memory[..], Offsets(blocks), {mem}, Offsets(blocks));
      usedMem := usedMem + n + HEADER;
      if maxMem < usedMem {
        maxMem := usedMem;
      }
    }

    /** The branch of rt_malloc that hands out the block `mem` as it is. */
    method TakeWhole(mem: int, ghost i: nat)
      requires Valid() && i < |blocks| && mem == blocks[i] && !InUse(used, mem)
      modifies this`usedMem, this`maxMem, this`used, memory
      ensures Intact({}) && usedMem <= maxMem
      ensures mem !in old(Live()) && Live() == old(Live())[mem := ItemSize(next, mem, HEADER)]
      ensures used == old(used)[mem := true] && blocks == old(blocks)
      ensures OnlyHeaders(old(memory[..]), memory[..], Offsets(blocks))
      ensures usedMem == old(usedMem) + ItemSize(next, mem, HEADER) + HEADER && maxMem == Max(old(maxMem), usedMem)
    {
      hide Tiles, Holds, OnlyHeaders, NoFreePairs, Sum, LiveBlocks, Distinct, Chained;
      FreeBlock(i);
      SumMarked(blocks, used, i, true, UsedExtent);
      PairsMarked(blocks, used, i, true);
      LiveAdded(blocks, used, next, blocks, used[mem := true], next, End(), mem, HEADER);
      NotLive(mem);
      SetUsed(mem, true);
      OnlyHeadersWiden(old(memory[..]), memory[..], {mem}, Offsets(blocks));
      var nn := GetNext(mem);
      usedMem := usedMem + (nn - mem);
      if maxMem < usedMem {
        maxMem := usedMem;
      }
    }

    lemma NotLive(b: int)
      requires !InUse(used, b)
      ensures b !in Live()
    {
    }

    /** `lfree` is the lowest free block, as its comment in the source says. */
    ghost predicate LfreeLowest()
      reads this
    {
      Lowest(blocks, used, lfree)
    }

    /** A free block at or above `lfree` that the search of rt_malloc stops at. */
    ghost predicate Fits(x: int, n: int)
      reads this
    {
      x in blocks && !InUse(used, x) && lfree <= x < memSize - n && n <= ItemSize(next, x, HEADER)
    }

    /** The search of rt_malloc. */
    method Search(n: nat) returns (mem: int, ghost i: nat)
      requires Valid() && n <= memSize
      ensures mem == NULL ==> forall x :: !Fits(x, n)
      ensures mem != NULL ==> i < |blocks| && mem == blocks[i] && Fits(mem, n) && forall x :: Fits(x, n) ==> mem <= x
    {
      hide Tiles, Holds, NoFreePairs, Sum, Distinct;
      BlocksDistinct();
      mem := lfree;
      i := IndexOf(blocks, lfree);
      while mem < memSize - n
        invariant i < |blocks| && mem == blocks[i] && lfree <= mem
        invariant forall x :: Fits(x, n) ==> mem <= x
        decreases |blocks| - i
      {
        FirstIsZero(i);
        BetweenBlocks(i);
        assert blocks[i] in next;
        var taken := GetUsed(mem);
        var nn := GetNext(mem);
        if !taken && n <= nn - (mem + HEADER) {
          assert mem in blocks;
          return;
        }
        mem := nn;
        i := i + 1;
      }
      mem := NULL;
    }

    lemma Roomy()
      requires Valid()
      ensures MIN_SIZE <= memSize && lfree in blocks && NULL !in blocks && usedMem <= maxMem
    {
      BlocksDistinct();
    }

    /** The successful branch of rt_malloc. */
    method Hand(mem: int, n: nat, ghost i: nat)
      requires Valid() && i < |blocks| && mem == blocks[i] && n == Rounded(n) && Fits(mem, n)
      modifies this, memory
      ensures Valid() && mem !in old(Live())
      ensures var whole := ItemSize(old(next), mem, HEADER);
              var got := if n + HEADER + MIN_SIZE <= whole then n else whole;
              Live() == old(Live())[mem := got] && usedMem == old(usedMem) + got + HEADER
      ensures maxMem == Max(old(maxMem), usedMem)
      ensures 0 <= mem && (mem != old(lfree) ==> lfree == old(lfree))
      ensures mem == old(lfree) ==> mem < lfree && forall x :: x in blocks && mem <= x < lfree ==> InUse(used, x)
      ensures forall x :: x in old(blocks) ==> x in blocks
      ensures forall x :: x in blocks && !InUse(used, x) ==> mem + HEADER < x || (x in old(blocks) && !InUse(old(used), x))
      ensures OnlyHeaders(old(memory[..]), memory[..], Offsets(blocks))
    {
      hide Tiles, InsertAt, Holds, OnlyHeaders, NoFreePairs, Sum, LiveBlocks, Chained, Distinct, Stored, Shape;
      Roomy();
      FirstIsZero(i) by { assert Intact({}); }
      Readable(mem) by { assert Intact({}); }
      var nn := GetNext(mem);
      if n + HEADER + MIN_SIZE <= nn - (mem + HEADER) {
        TakePart(mem, n, i);
      } else {
        TakeWhole(mem, i);
      }
      if mem == lfree {
        AdvanceLfree();
      }
    }

    /** rt_malloc. */
    method Malloc(size: nat) returns (ptr: int)
      requires Valid() && size <= MAX_REQUEST
      modifies this, memory
      ensures Valid()
      ensures ptr == NULL <==> size == 0 || memSize < (size + 3) / 4 * 4 || forall x :: !old(Fits(x, Rounded(size)))
      ensures ptr == NULL ==> unchanged(this) && memory[..] == old(memory[..])
      ensures ptr != NULL ==>
                var b, n := ptr - HEADER, Rounded(size);
                var whole := ItemSize(old(next), b, HEADER);
                var got := if n + HEADER + MIN_SIZE <= whole then n else whole;
                && b in old(blocks) && old(lfree) <= b && old(Fits(b, n)) && (forall x :: old(Fits(x, n)) ==> b <= x)
                && b !in old(Live())
                && Live() == old(Live())[b := got] && size <= n <= got
                && usedMem == old(usedMem) + got + HEADER
                && (b != old(lfree) ==> lfree == old(lfree))
                && (b == old(lfree) ==> b < lfree && forall x :: x in blocks && b <= x < lfree ==> InUse(used, x))
      ensures ptr != NULL ==> forall x :: x in blocks && !InUse(used, x) && x !in old(blocks) ==> ptr < x
      ensures forall x :: x in old(blocks) ==> x in blocks
      ensures maxMem == Max(old(maxMem), usedMem)
      ensures Undisturbed(old(memory[..]), memory[..], old(Live()), HEADER)
      ensures old(LfreeLowest()) ==> LfreeLowest()
    {
      hide Tiles, InsertAt, Holds, OnlyHeaders, NoFreePairs, Sum, LiveBlocks, Chained, Distinct, Stored, Shape;
      ptr := NULL;
      if size == 0 {
        return;
      }
      var n := (size + 3) / 4 * 4;
      if memSize < n {
        return;
      }
      if n < MIN_SIZE {
        n := MIN_SIZE;
      }
      assert n <= memSize by { Roomy(); }
      ghost var i;
      var mem;
      mem, i := Search(n);
      assert n == Rounded(size) && forall x :: old(Fits(x, n)) <==> Fits(x, n);
      if mem == NULL {
        return;
      }
      Hand(mem, n, i);
      DataKept(old(memory[..]));
      UndisturbedFewer(old(memory[..]), memory[..], Live(), old(Live()), HEADER);
      ptr := mem + HEADER;
    }

    lemma DataKept(m: seq<Byte>)
      requires Valid() && OnlyHeaders(m, memory[..], Offsets(blocks))
      ensures Undisturbed(m, memory[..], Live(), HEADER)
    {
      HeadersMissData(m, memory[..], blocks, End(), used, next, prev);
    }

    /** rt_free. */
    method Free(rmem: int)
      requires Valid() && (rmem == NULL || rmem - HEADER in Live())
      modifies this, memory
      ensures Valid() && maxMem == old(maxMem)
      ensures rmem == NULL ==> unchanged(this) && memory[..] == old(memory[..])
      ensures rmem != NULL ==>
                var b := rmem - HEADER;
                var low := Min(b, old(lfree));
                && Live() == old(Live()) - {b}
                && usedMem == old(usedMem) - old(Live()[b]) - HEADER
                && lfree <= low && forall x :: x in blocks && x <= low ==> x <= lfree
      ensures forall x :: x in blocks ==> x in old(blocks)
      ensures Undisturbed(old(memory[..]), memory[..], old(Live()), HEADER)
      ensures old(LfreeLowest()) ==> LfreeLowest()
    {
      hide Tiles, InsertAt, Holds, OnlyHeaders, NoFreePairs, Sum, LiveBlocks, Chained, Distinct, Offsets, Undisturbed;
      if rmem == NULL {
        NothingDisturbed(memory[..], Live(), HEADER);
        return;
      }
      var mem := rmem - HEADER;
      ghost var m0, b0 := memory[..], blocks;
      ghost var i := LiveBlock(mem);
      Unmarked(blocks, End(), used, next, i, HEADER);
      SetUsed(mem, false);
      ghost var m1 := memory[..];
      if mem < lfree {
        lfree := mem;
      }
      var nn := GetNext(mem);
      usedMem := usedMem - (nn - mem);
      PlugHoles(mem, i);
      assert Undisturbed(m0, memory[..], old(Live()), HEADER) by {
        OnlyHeadersTrans(m0, m1, memory[..], {mem}, Offsets(b0), Offsets(b0));
        HeadersMissData(m0, memory[..], b0, End(), old(used), old(next), old(prev));
      }
    }

    lemma LiveBlock(b: int) returns (i: nat)
      requires Valid() && b in Live()
      ensures i + 1 < |blocks| && blocks[i] == b && b in blocks && InUse(used, b) && b != End()
      ensures b in next && next[b] == blocks[i + 1] && Live()[b] == ItemSize(next, b, HEADER)
      ensures Distinct(blocks) && b in Offsets(blocks) && 0 <= b
      ensures blocks[i] + HEADER <= blocks[i + 1] && b % 4 == 0
      ensures b + HEADER + Live()[b] <= End()
      ensures forall y :: y in blocks ==> y in next && y in used
    {
      i := IndexOf(blocks, b);
      FirstIsZero(i);
    }

    /** A hole behind the live block `mem` would not be below `lfree`, or would take over from it. */
    ghost predicate HoleAbove(mem: int)
      reads this
    {
      lfree < mem || (mem in next && lfree == next[mem] && !InUse(used, lfree))
    }

    /** The branch of rt_realloc that splits the block it is given. */
    method Shrink(mem: int, n: nat)
      requires Valid() && mem in Live() && 0 < n && n % 4 == 0 && n + HEADER + MIN_SIZE < Live()[mem]
      modifies this, memory
      ensures Valid() && maxMem == old(maxMem)
      ensures Live() == old(Live())[mem := n] && usedMem == old(usedMem) - (old(Live()[mem]) - n)
      ensures Undisturbed(old(memory[..]), memory[..], Live(), HEADER)
      ensures LfreeLowest() <==> old(LfreeLowest() && HoleAbove(mem))
    {
      hide Tiles, InsertAt, Holds, OnlyHeaders, NoFreePairs, Sum, LiveBlocks, Chained, Distinct, Offsets, Undisturbed, Lowest, Stored;
      ghost var i := LiveBlock(mem);
      ghost var m0, b0, u0, l0 := memory[..], blocks, used, lfree;
      BetweenBlocks(i);
      NotInside(mem, i);
      BlocksDistinct();
      var nn := GetNext(mem);
      var size := nn - mem - HEADER;
      usedMem := usedMem - (size - n);
      var x := mem + HEADER + n;
      Cut(blocks, End(), used, next, i, x, HEADER);
      Split(mem, x, i);
      InsertAtIndex(b0, i + 1, x);
      PairsClosed(blocks, used, {i + 1}, {i, i + 1});
      ghost var m1 := memory[..];
      ghost var b1, n1, p1 := blocks, next, prev;
      PlugHoles(x, i + 1);
      OnlyHeadersTrans(m0, m1, memory[..], Offsets(b1), Offsets(b1), Offsets(b1));
      HeadersMissData(m0, memory[..], b1, End(), used, n1, p1);
      BlocksDistinct();
      LowestWithHole(b0, u0, l0, blocks, used, lfree, x, nn);
    }

    lemma NotInside(mem: int, i: nat)
      requires Valid() && mem in Live() && i + 1 < |blocks| && blocks[i] == mem
      ensures lfree != mem && (lfree < blocks[i + 1] ==> lfree < mem)
      ensures mem in next && next[mem] == blocks[i + 1]
    {
      BetweenBlocks(i);
      LiveDisjoint(mem, mem);
      assert blocks[i] in next;
    }

    /** Live blocks are aligned, lie inside the heap and do not overlap, headers included. */
    lemma LiveDisjoint(a: int, b: int)
      requires Valid() && a in Live() && b in Live()
      ensures 0 <= a && a % 4 == 0 && 0 <= Live()[a] && a + HEADER + Live()[a] <= End()
      ensures a < b ==> a + HEADER + Live()[a] <= b
    {
      var i := LiveBlock(a);
      var j := LiveBlock(b);
      assert i + 1 < j ==> blocks[i + 1] <= blocks[j];
      assert j < i ==> blocks[j] <= blocks[i];
    }

    /** rt_memcpy from the data of one live block to the data of another. */
    method CopyData(dst: int, src: int, n: nat)
      requires Valid() && dst in Live() && src in Live() && dst != src
      requires n <= Live()[dst] && n <= Live()[src]
      modifies memory
      ensures Valid()
      ensures SameBytes(old(memory[..]), src, memory[..], dst, n, HEADER)
      ensures Undisturbed(old(memory[..]), memory[..], Live() - {dst}, HEADER)
    {
      hide Undisturbed, LiveBlocks, Chained, Sum, Distinct, NoFreePairs, Tiles, Holds;
      LiveDisjoint(dst, src);
      LiveDisjoint(src, dst);
      ghost var at := LiveBlock(dst);
      ghost var m0 := memory[..];
      CopyBytes(memory, dst + HEADER, src + HEADER, n);
      assert Tiles(blocks, End(), HEADER) && Chained(blocks, next, prev);
      assert |m0| == memory.Length && memory.Length == memSize + 2 * HEADER;
      DataMissesRest(m0, memory[..], blocks, End(), used, next, prev, dst, n);
      forall x | x in blocks
        ensures Holds(memory[..], x, Header(used[x], next[x], prev[x]))
      {
        assert Holds(m0, x, Header(used[x], next[x], prev[x])) by { assert old(Stored()); }
      }
    }

    lemma PointerNotNull(b: int)
      requires Valid() && b in Live()
      ensures b + HEADER != NULL && 0 <= b
    {
      LiveDisjoint(b, b);
    }

    /** The moving branch of rt_realloc. */
    method Move(mem: int, size: nat, n: nat) returns (nmem: int)
      requires Valid() && mem in Live() && size == Live()[mem] && 0 < n <= MAX_REQUEST && n % 4 == 0
      modifies this, memory
      ensures Valid()
      ensures nmem == NULL ==> unchanged(this) && memory[..] == old(memory[..])
      ensures nmem == NULL <==> memSize < n || forall x :: !old(Fits(x, Rounded(n)))
      ensures nmem != NULL ==>
                var b := nmem - HEADER;
                && b !in old(Live()) && b in Live() && n <= Live()[b]
                && Live() == (old(Live()) - {mem})[b := Live()[b]]
                && SameBytes(old(memory[..]), mem, memory[..], b, Min(size, n), HEADER)
                && usedMem == old(usedMem) + Live()[b] - size
                && maxMem == Max(old(maxMem), old(usedMem) + Live()[b] + HEADER)
      ensures Undisturbed(old(memory[..]), memory[..], old(Live()) - {mem}, HEADER)
      ensures old(LfreeLowest()) ==> LfreeLowest()
    {
      hide *;
      ghost var m0, live0 := memory[..], Live();
      ghost var l0 := live0 - {mem};
      nmem := Malloc(n);
      ghost var m1 := memory[..];
      UndisturbedFewer(m0, m1, live0, l0, HEADER);
      if nmem == NULL {
        return;
      }
      var b := nmem - HEADER;
      ghost var live1 := Live();
      assert mem in live1 && live1[mem] == size && b in live1 && n <= live1[b];
      var count := if size < n then size else n;
      assert count == Min(size, n) && count <= size && count <= n by { MinFacts(size, n); }
      CopyData(b, mem, count);
      ghost var m2 := memory[..];
      UndisturbedFewer(m1, m2, live1 - {b}, l0, HEADER);
      UndisturbedTrans(m0, m1, m2, l0, HEADER);
      PointerNotNull(mem);
      Free(mem + HEADER);
      assert Live() == l0[b := live1[b]];
      SameBytesKept(m0, mem, m1, m2, b, memory[..], Min(size, n), live0, live1, HEADER);
      UndisturbedFewer(m2, memory[..], live1, l0, HEADER);
      UndisturbedTrans(m0, m2, memory[..], l0, HEADER);
    }

    /** The blocks in `kept` are live, and those at the pointers `held` are others. */
    ghost predicate Apart(kept: map<int, int>, held: seq<int>)
      reads this
    {
      && (forall b :: b in kept ==> b in Live() && Live()[b] == kept[b])
      && (forall p :: p in held ==> p - HEADER in Live() && p - HEADER !in kept)
      && Distinct(held)
    }

    /** Calls that other threads make while the semaphore is free: they allocate, and release
        what they hold. The blocks in `kept` stay live, and none of their bytes changes. */
    method Others(calls: seq<Call>, held: seq<int>, ghost kept: map<int, int>) returns (held': seq<int>)
      requires Valid() && Apart(kept, held) && forall c :: c in calls ==> c.Allocate? ==> c.size <= MAX_REQUEST
      modifies this, memory
      ensures Valid() && Apart(kept, held') && Undisturbed(old(memory[..]), memory[..], kept, HEADER)
    {
      hide Valid, Live, Undisturbed, Apart;
      NothingDisturbed(memory[..], kept, HEADER);
      held' := held;
      for i := 0 to |calls|
        invariant Valid() && Apart(kept, held') && Undisturbed(old(memory[..]), memory[..], kept, HEADER)
      {
        assert calls[i] in calls;
        ghost var m := memory[..];
        held' := Other(calls[i], held', kept);
        UndisturbedTrans(old(memory[..]), m, memory[..], kept, HEADER);
      }
    }

    method Other(c: Call, held: seq<int>, ghost kept: map<int, int>) returns (held': seq<int>)
      requires Valid() && Apart(kept, held) && (c.Allocate? ==> c.size <= MAX_REQUEST)
      modifies this, memory
      ensures Valid() && Apart(kept, held') && Undisturbed(old(memory[..]), memory[..], kept, HEADER)
    {
      hide Valid, Live, Undisturbed, Rounded;
      held' := held;
      ghost var live := Live();
      assert forall i :: 0 <= i < |held| ==> held[i] in held;
      match c
      case Allocate(size) =>
        var p := Malloc(size);
        UndisturbedFewer(old(memory[..]), memory[..], live, kept, HEADER);
        if p != NULL {
          held' := held + [p];
        }
      case Release(k) =>
        NothingDisturbed(memory[..], kept, HEADER);
        if k < |held| {
          var p := held[k];
          RemoveAtMembers(held, k);
          Free(p);
          UndisturbedFewer(old(memory[..]), memory[..], live, kept, HEADER);
          held' := RemoveAt(held, k);
        }
    }

    /** The moving branch as it runs, with the calls of other threads between its sections: the
        new block has the old data, whatever they allocate and release in the meantime. */
    method MoveAmid(mem: int, size: nat, n: nat, before: seq<Call>, after: seq<Call>, held: seq<int>)
        returns (nmem: int, held': seq<int>)
      requires Valid() && mem in Live() && size == Live()[mem] && 0 < n <= MAX_REQUEST && n % 4 == 0
      requires Apart(map[mem := size], held)
      requires forall c :: c in before || c in after ==> c.Allocate? ==> c.size <= MAX_REQUEST
      modifies this, memory
      ensures Valid()
      ensures nmem == NULL ==> unchanged(this) && memory[..] == old(memory[..])
      ensures nmem != NULL ==>
                var b := nmem - HEADER;
                && b in Live() && b != mem && mem !in Live() && Apart(map[b := Live()[b]], held') && n <= Live()[b]
                && SameBytes(old(memory[..]), mem, memory[..], b, Min(size, n), HEADER)
    {
      hide Valid, Live, Undisturbed, Rounded, SameBytes, Distinct;
      ghost var m0, live0 := memory[..], Live();
      held' := held;
      nmem := Malloc(n);
      if nmem == NULL {
        return;
      }
      var b := nmem - HEADER;
      ghost var m1, got := memory[..], Live()[b];
      ghost var kept, old1, new1 := map[mem := size, b := got], map[mem := size], map[b := got];
      held' := Others(before, held', kept);
      ghost var m2 := memory[..];
      UndisturbedFewer(m0, m1, live0, old1, HEADER);
      UndisturbedFewer(m1, m2, kept, old1, HEADER);
      UndisturbedTrans(m0, m1, m2, old1, HEADER);
      var count := if size < n then size else n;
      assert count == Min(size, n) && count <= size && count <= n by { MinFacts(size, n); }
      CopyData(b, mem, count);
      ghost var m3 := memory[..];
      held' := Others(after, held', kept);
      ghost var m4, live4 := memory[..], Live();
      PointerNotNull(mem);
      Free(mem + HEADER);
      UndisturbedFewer(m3, m4, kept, new1, HEADER);
      UndisturbedFewer(m4, memory[..], live4, new1, HEADER);
      UndisturbedTrans(m3, m4, memory[..], new1, HEADER);
      SameBytesKept(m0, mem, m2, m3, b, memory[..], count, old1, new1, HEADER);
    }

    /** A live block is never as large as a request that is refused for its size. */
    lemma TooLarge(b: int, n: int)
      requires Valid() && memSize < n
      ensures b in Live() ==> !StaysPut(Live()[b], n)
    {
      if b in Live() {
        LiveDisjoint(b, b);
      }
    }

    lemma NotForeign(p: int)
      requires Valid() && (p < 0 || End() <= p)
      ensures p - HEADER !in Live()
    {
      if p - HEADER in Live() {
        LiveDisjoint(p - HEADER, p - HEADER);
      }
    }

    /** The part of rt_realloc behind its argument checks. */
    method Resize(rmem: int, n: nat) returns (r: int)
      requires Valid() && rmem - HEADER in Live() && 0 < n <= MAX_REQUEST && n % 4 == 0 && rmem != NULL
      modifies this, memory
      ensures Valid()
      ensures r == NULL ==> unchanged(this)
      ensures Reallocated(old(memory[..]), old(Live()), rmem - HEADER, n, memory[..], Live(), r)
      ensures Undisturbed(old(memory[..]), memory[..], old(Live()) - {rmem - HEADER}, HEADER)
      ensures !StaysPut(old(ItemSize(next, rmem - HEADER, HEADER)), n) ==>
                (r == NULL <==> memSize < n || forall x :: !old(Fits(x, Rounded(n))))
      ensures LowKept(old(LfreeLowest()), old(Live()), old(HoleAbove(rmem - HEADER)), rmem - HEADER, n, LfreeLowest())
      ensures Peaked(old(maxMem), old(usedMem), Live(), rmem, r, maxMem)
    {
      hide LiveBlocks, Undisturbed, Rounded, OnlyHeaders, Chained, Tiles, Distinct, SameBytes, NoFreePairs, Sum, Holds;
      var mem := rmem - HEADER;
      ghost var m0, live0 := memory[..], Live();
      ghost var i := LiveBlock(mem);
      Readable(mem);
      var nn := GetNext(mem);
      var size := nn - mem - HEADER;
      NothingDisturbed(m0, live0, HEADER);
      if size == n {
        UndisturbedSame(m0, m0, live0, mem, n, HEADER);
        UndisturbedFewer(m0, m0, live0, live0 - {mem}, HEADER);
        return rmem;
      }
      if n + HEADER + MIN_SIZE < size {
        Shrink(mem, n);
        UndisturbedSame(m0, memory[..], Live(), mem, n, HEADER);
        UndisturbedFewer(m0, memory[..], Live(), live0 - {mem}, HEADER);
        return rmem;
      }
      assert forall x :: old(Fits(x, Rounded(n))) <==> Fits(x, Rounded(n));
      r := Move(mem, size, n);
    }

    /** rt_realloc. A pointer outside the heap is handed back as it is. */
    method Realloc(rmem: int, newSize: nat) returns (r: int)
      requires Valid() && newSize <= MAX_REQUEST
      requires rmem == NULL || rmem - HEADER in Live() || (newSize != 0 && (rmem < 0 || End() <= rmem))
      modifies this, memory
      ensures Valid() && (memSize < AlignUp(newSize) ==> r == NULL)
      ensures ReallocDone(old(memory[..]), old(Live()), rmem, newSize, memory[..], Live(), r)
      ensures newSize != 0 && r == NULL ==> unchanged(this)
      ensures newSize != 0 && (rmem == NULL || (rmem - HEADER in old(Live())
                && !StaysPut(old(ItemSize(next, rmem - HEADER, HEADER)), AlignUp(newSize)))) ==>
                (r == NULL <==> memSize < AlignUp(newSize) || forall x :: !old(Fits(x, Rounded(newSize))))
      ensures Undisturbed(old(memory[..]), memory[..], old(Live()) - {rmem - HEADER}, HEADER)
      ensures LowKept(old(LfreeLowest()), old(Live()), old(HoleAbove(rmem - HEADER)), rmem - HEADER, AlignUp(newSize), LfreeLowest())
      ensures if newSize == 0 then maxMem == old(maxMem) else Peaked(old(maxMem), old(usedMem), Live(), rmem, r, maxMem)
    {
      hide Sound, LiveBlocks, Undisturbed, Rounded, OnlyHeaders, SameBytes, AlignUp;
      Aligned(newSize);
      ghost var m0, live0 := memory[..], Live();
      NothingDisturbed(m0, live0, HEADER);
      UndisturbedFewer(m0, m0, live0, live0 - {rmem - HEADER}, HEADER);
      Roomy();
      var n := AlignUp(newSize);
      SameRounding(newSize);
      if memSize < n {
        TooLarge(rmem - HEADER, n);
        return NULL;
      } else if n == 0 {
        Free(rmem);
        UndisturbedFewer(m0, memory[..], live0, live0 - {rmem - HEADER}, HEADER);
        return NULL;
      }
      if rmem == NULL {
        NotForeign(NULL);
        r := Malloc(n);
        UndisturbedFewer(m0, memory[..], live0, live0 - {rmem - HEADER}, HEADER);
        return;
      }
      if rmem < 0 || End() <= rmem {
        NotForeign(rmem);
        return rmem;
      }
      r := Resize(rmem, n);
    }
  }

  /** What another thread may ask for: memory, or to release the `k`-th block that it holds. */
  datatype Call = Allocate(size: nat) | Release(k: nat)

  /** A new live block `b` of at least `n` bytes. */
  ghost predicate Granted(live: map<int, int>, b: int, n: int, live': map<int, int>) {
    b !in live && b in live' && n <= live'[b] && live' == live[b := live'[b]]
  }

  /** Does rt_realloc leave a block of `size` bytes in place when asked for `n`? */
  predicate StaysPut(size: int, n: int) {
    n == size || n + HEADER + MIN_SIZE < size
  }

  /** `lfree` stays the lowest free block, except that a live block that is made smaller leaves
      a hole, which has to lie above it or take over from it. */
  ghost predicate LowKept(low: bool, live: map<int, int>, holeAbove: bool, b: int, n: int, low': bool) {
    if b in live && 0 < n && n + HEADER + MIN_SIZE < live[b] then low' <==> low && holeAbove
    else low ==> low'
  }

  /** The peak is the old one, or what was in use while a moved block had both its places. */
  ghost predicate Peaked(peak: int, inUse: int, live': map<int, int>, rmem: int, r: int, peak': int) {
    if r == NULL || r == rmem then peak' == peak
    else r - HEADER in live' && peak' == Max(peak, inUse + live'[r - HEADER] + HEADER)
  }

  /** What a realloc of the live block `b` to `n` bytes that returned `r` did: the block stays
      with exactly `n` bytes, or nothing at all, or it has moved to a block of at least `n`
      bytes; in each case with the old data up to `n`. */
  ghost predicate Reallocated(m: seq<Byte>, live: map<int, int>, b: int, n: int,
                              m': seq<Byte>, live': map<int, int>, r: int) {
    b in live &&
    if StaysPut(live[b], n) then r == b + HEADER && live' == live[b := n] && SameBytes(m, b, m', b, n, HEADER)
    else if r == NULL then live' == live && m' == m
    else
      var b' := r - HEADER;
      && b' in live' && n <= live'[b'] && b' !in live
      && live' == (live - {b})[b' := live'[b']]
      && SameBytes(m, b, m', b', Min(live[b], n), HEADER)
  }

  /** The four uses of realloc: allocate, free, resize, and a pointer that is not ours. */
  ghost predicate ReallocDone(m: seq<Byte>, live: map<int, int>, p: int, size: nat,
                              m': seq<Byte>, live': map<int, int>, r: int) {
    if size == 0 then r == NULL && live' == (if p == NULL then live else live - {p - HEADER})
    else if p == NULL then
      (r == NULL ==> live' == live && m' == m) && (r != NULL ==> Granted(live, r - HEADER, size, live'))
    else if p - HEADER in live then Reallocated(m, live, p - HEADER, AlignUp(size), m', live', r)
    else live' == live && m' == m && (r == NULL || r == p)
  }

  /** When a block stays where it is, in bytes: it has the size already, or its rest holds more
      than a header and a smallest block. */
  lemma StaysWhen(m: seq<Byte>, live: map<int, int>, p: int, size: nat, m': seq<Byte>, live': map<int, int>, r: int)
    requires ReallocDone(m, live, p, size, m', live', r) && size != 0 && p != NULL && p - 12 in live
    ensures var o, n := live[p - 12], (size + 3) / 4 * 4;
      && (r == p <==> n == o || n + 24 < o)
      && (r == p ==> live' == live[p - 12 := n])
      && (r != p && r != NULL ==> r - 12 !in live && r - 12 in live' && n <= live'[r - 12])
  {
  }

  /** With `lfree` lowest, rt_malloc finds every free block of enough bytes except one that
      the request would fill right up to the sentinel. */
  lemma FitsUnlessExactAtEnd(heap: Heap, x: int, n: nat)
    requires heap.Valid() && heap.LfreeLowest()
    ensures heap.Fits(x, n) <==>
              && x in heap.blocks && !InUse(heap.used, x) && n <= ItemSize(heap.next, x, HEADER)
              && x + HEADER + n != heap.End()
  {
    if x in heap.blocks && !InUse(heap.used, x) {
      var i := IndexOf(heap.blocks, x);
      heap.FreeBlock(i);
      heap.FirstIsZero(i);
    }
  }

  /** A free that undoes the malloc before it restores the tiling, the live blocks, the
      lowest-free pointer and the count of used bytes. */
  method MallocThenFree(heap: Heap, size: nat)
    requires heap.Valid() && size <= MAX_REQUEST
    modifies heap, heap.memory
    ensures heap.Valid()
    ensures heap.blocks == old(heap.blocks) && heap.Live() == old(heap.Live())
    ensures heap.lfree == old(heap.lfree) && heap.usedMem == old(heap.usedMem)
    ensures Undisturbed(old(heap.memory[..]), heap.memory[..], heap.Live(), HEADER)
  {
    hide *;
    ghost var b, u, n, end := heap.blocks, heap.used, heap.next, heap.End();
    ghost var m0, live0, low := heap.memory[..], heap.Live(), heap.lfree;
    NothingDisturbed(m0, live0, HEADER);
    heap.IsTiling();
    var ptr := heap.Malloc(size);
    if ptr != NULL {
      ghost var m1, live1 := heap.memory[..], heap.Live();
      MinFacts(ptr - HEADER, heap.lfree);
      heap.Free(ptr);
      heap.IsTiling();
      SameTiling(b, u, n, heap.blocks, heap.used, heap.next, end, HEADER);
      UndisturbedFewer(m1, heap.memory[..], live1, live0, HEADER);
      UndisturbedTrans(m0, m1, heap.memory[..], live0, HEADER);
    }
  }

  /** A fresh heap refuses a request for all of its bytes, although its one block has them:
      that is the exact fit at the end of the heap. */
  method OverlooksExactFit(beginAddr: nat, endAddr: nat) returns (heap: Heap, ptr: int)
    requires endAddr < WORD_LIMIT && AlignUp(beginAddr) + 2 * HEADER + MIN_SIZE <= AlignDown(endAddr)
    ensures fresh(heap) && heap.Valid() && ptr == NULL
    ensures heap.blocks == [0, heap.End()] && 0 !in heap.Live() && ItemSize(heap.next, 0, HEADER) == heap.memSize
  {
    hide Heap.Valid, AlignUp, AlignDown;
    heap := new Heap(beginAddr, endAddr);
    WholeHeap(heap);
    var size := heap.memSize;
    ptr := heap.Malloc(size);
  }

  lemma WholeHeap(heap: Heap)
    requires heap.Valid() && heap.blocks == [0, heap.End()] && heap.Live() == map[]
    ensures MIN_SIZE <= heap.memSize <= MAX_REQUEST && Rounded(heap.memSize) == heap.memSize
    ensures forall x :: !heap.Fits(x, heap.memSize)
    ensures ItemSize(heap.next, 0, HEADER) == heap.memSize && OnlyRest(heap, 0)
  {
    hide Heap.Valid, Heap.Live;
    heap.Roomy();
    Sizes(heap);
    IsLive(heap, 0);
    Successor(heap, 0);
    forall x
      ensures !heap.Fits(x, heap.memSize)
    {
      assert x in heap.blocks ==> 0 <= x;
    }
  }

  /** The heap has one free block, at `b`, which ends at the sentinel. */
  ghost predicate OnlyRest(heap: Heap, b: int)
    reads heap
  {
    && b in heap.blocks && !InUse(heap.used, b) && b in heap.next && heap.next[b] == heap.End()
    && forall x :: x in heap.blocks && !InUse(heap.used, x) ==> x == b
  }

  lemma IsLive(heap: Heap, x: int)
    requires heap.Valid()
    ensures x in heap.blocks && x != heap.End() ==> (InUse(heap.used, x) <==> x in heap.Live())
    ensures InUse(heap.used, heap.End())
  {
  }

  lemma TilesOne(end: int)
    requires 1000 <= end && end % 4 == 0
    ensures var b, u, n := [0, 112, end], map[0 := true, 112 := false, end := true], map[0 := 112, 112 := end];
      Tiling(b, u, n, end, HEADER) && LiveBlocks(b, u, n, end, HEADER) == map[0 := 100]
  {
    var b, u, n := [0, 112, end], map[0 := true, 112 := false, end := true], map[0 := 112, 112 := end];
    var live := LiveBlocks(b, u, n, end, HEADER);
    hide Tiling;
    assert Tiling(b, u, n, end, HEADER) by {
      OneTiled(b, u, n, end);
    }
    forall x
      ensures x in live <==> x == 0
    {
      assert x in b <==> x == 0 || x == 112 || x == end;
    }
    assert live[0] == 100;
  }

  lemma OneTiled(b: seq<int>, u: map<int, bool>, n: map<int, int>, end: int)
    requires 1000 <= end && end % 4 == 0 && b == [0, 112, end]
    requires u == map[0 := true, 112 := false, end := true] && n == map[0 := 112, 112 := end]
    ensures Tiling(b, u, n, end, HEADER)
  {
  }

  lemma TilesTwo(end: int)
    requires 1000 <= end && end % 4 == 0
    ensures
      var b, u := [0, 112, 224, end], map[0 := true, 112 := true, 224 := false, end := true];
      var n := map[0 := 112, 112 := 224, 224 := end];
      Tiling(b, u, n, end, HEADER) && LiveBlocks(b, u, n, end, HEADER) == map[0 := 100, 112 := 100]
  {
    var b, u := [0, 112, 224, end], map[0 := true, 112 := true, 224 := false, end := true];
    var n := map[0 := 112, 112 := 224, 224 := end];
    var live := LiveBlocks(b, u, n, end, HEADER);
    hide Tiling;
    assert Tiling(b, u, n, end, HEADER) by {
      TwoTiled(b, u, n, end);
    }
    forall x
      ensures x in live <==> x == 0 || x == 112
    {
      assert x in b <==> x == 0 || x == 112 || x == 224 || x == end;
    }
    assert live[0] == 100 && live[112] == 100;
  }

  lemma TwoTiled(b: seq<int>, u: map<int, bool>, n: map<int, int>, end: int)
    requires 1000 <= end && end % 4 == 0 && b == [0, 112, 224, end]
    requires u == map[0 := true, 112 := true, 224 := false, end := true] && n == map[0 := 112, 112 := 224, 224 := end]
    ensures Tiling(b, u, n, end, HEADER)
  {
  }

  /** With one block of 100 bytes at the front, the rest lies behind it. */
  lemma FrontOne(heap: Heap)
    requires heap.Valid() && heap.Live() == map[0 := 100] && 1024 <= heap.memSize
    ensures OnlyRest(heap, 112)
  {
    hide Heap.Valid, Tiling, LiveBlocks, Heap.Live;
    var end := heap.End();
    Sizes(heap);
    TilesOne(end);
    heap.IsTiling();
    SameTiling([0, 112, end], map[0 := true, 112 := false, end := true], map[0 := 112, 112 := end],
               heap.blocks, heap.used, heap.next, end, HEADER);
    Successor(heap, 1);
    IsLive(heap, 0);
    IsLive(heap, 112);
  }

  /** With two, the second follows the first. */
  lemma FrontTwo(heap: Heap)
    requires heap.Valid() && heap.Live() == map[0 := 100, 112 := 100] && 1024 <= heap.memSize
    ensures 0 in heap.next && heap.next[0] == 112 && !heap.HoleAbove(0)
  {
    hide Heap.Valid, Tiling, LiveBlocks, Heap.Live;
    var end := heap.End();
    Sizes(heap);
    TilesTwo(end);
    heap.IsTiling();
    SameTiling([0, 112, 224, end], map[0 := true, 112 := true, 224 := false, end := true],
               map[0 := 112, 112 := 224, 224 := end], heap.blocks, heap.used, heap.next, end, HEADER);
    Successor(heap, 0);
    IsLive(heap, 112);
    assert heap.lfree in heap.blocks;
  }

  lemma Sizes(heap: Heap)
    requires heap.Valid()
    ensures heap.End() % 4 == 0 && heap.memSize % 4 == 0 && heap.memSize <= MAX_REQUEST
  {
    hide Holds, Sum, NoFreePairs, Distinct, Chained;
  }

  lemma Successor(heap: Heap, i: nat)
    requires heap.Valid() && i + 1 < |heap.blocks|
    ensures heap.blocks[i] in heap.next && heap.next[heap.blocks[i]] == heap.blocks[i + 1]
  {
    assert heap.blocks[i] in heap.next;
  }

  /** The next 100 bytes come from the free rest at `b`. */
  method MallocFront(heap: Heap, b: int) returns (ptr: int)
    requires heap.Valid() && heap.LfreeLowest() && 1024 <= heap.memSize && 0 <= b <= 112 && OnlyRest(heap, b)
    modifies heap, heap.memory
    ensures heap.Valid() && heap.LfreeLowest() && ptr == b + HEADER && heap.Live() == old(heap.Live())[b := 100]
  {
    hide Heap.Valid, Undisturbed;
    assert Rounded(100) == 100 && heap.Fits(b, Rounded(100));
    ptr := heap.Malloc(100);
  }

  /** A run after which `lfree` is not the lowest free block: two blocks are allocated, and the
      first is made smaller, which leaves a hole in front of the second. */
  method HoleBelowLfree(beginAddr: nat, endAddr: nat) returns (heap: Heap)
    requires endAddr < WORD_LIMIT && AlignUp(beginAddr) + 2 * HEADER + 1024 <= AlignDown(endAddr)
    ensures fresh(heap) && heap.Valid() && !heap.LfreeLowest()
  {
    hide Heap.Valid, Heap.Live, Heap.LfreeLowest, AlignDown, ReallocDone, Undisturbed, OnlyRest;
    heap := new Heap(beginAddr, endAddr);
    WholeHeap(heap);
    var p := MallocFront(heap, 0);
    FrontOne(heap);
    var q := MallocFront(heap, 112);
    FrontTwo(heap);
    assert AlignUp(12) == 12;
    p := heap.Realloc(p, 12);
  }
}

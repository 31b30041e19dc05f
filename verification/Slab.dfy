/** The slab allocator of rt-thread/src/slab.c: zones of equal chunks above the page
    allocator.  Addresses are byte offsets into the heap; a zone is named by its first page,
    which also holds its header. */
module Slab {
  import opened Arithmetic
  import opened Ring
  import PageHeap

  const PAGE_SIZE: int := 4096
  const NULL: int := -1
  const NZONES: int := 72
  const ZONE_RELEASE_THRESH: int := 2
  const ZALLOC_ZONE_LIMIT: int := 16384
  const MAX_SIZE: int := 0xFFFF_F000  // rounding a larger request up to pages would wrap
  const SIZEOF_ZONE: int := 36

  /** RT_ALIGN, for any positive `unit`. */
  function RoundUp(n: nat, unit: nat): (r: nat)
    requires 0 < unit
  {
    (n + unit - 1) / unit * unit
  }

  /** The chunk size of each zone class. */
  function ChunkSize(zi: nat): (size: nat)
    requires zi < NZONES
    ensures 0 < size <= ZALLOC_ZONE_LIMIT && size % 8 == 0
  {
    if zi < 16 then 8 * (zi + 1)
    else if zi < 24 then 16 * (zi - 7)
    else if zi < 32 then 32 * (zi - 15)
    else if zi < 40 then 64 * (zi - 23)
    else if zi < 48 then 128 * (zi - 31)
    else if zi < 56 then 256 * (zi - 39)
    else if zi < 64 then 512 * (zi - 47)
    else 1024 * (zi - 55)
  }

  /** Does a request of this size belong to class `zi`, the first that holds it? */
  ghost predicate InClass(size: nat, zi: nat) {
    zi < NZONES && size <= ChunkSize(zi) && (0 < zi ==> ChunkSize(zi - 1) < size)
  }

  method ZoneIndexTo1023(bytes: nat) returns (zi: nat, size: nat)
    requires 256 <= bytes < 1024
    ensures zi < NZONES && size == ChunkSize(zi) && bytes <= size && 0 < zi && ChunkSize(zi - 1) < bytes
  {
    var n := bytes;
    if n < 512 {
      n := (n + 31) / 32 * 32;
      return n / 32 + 15, n;
    }
    n := (n + 63) / 64 * 64;
    return n / 64 + 23, n;
  }

  method ZoneIndexTo8191(bytes: nat) returns (zi: nat, size: nat)
    requires 1024 <= bytes < 8192
    ensures zi < NZONES && size == ChunkSize(zi) && bytes <= size && 0 < zi && ChunkSize(zi - 1) < bytes
  {
    var n := bytes;
    if n < 2048 {
      n := (n + 127) / 128 * 128;
      return n / 128 + 31, n;
    }
    if n < 4096 {
      n := (n + 255) / 256 * 256;
      return n / 256 + 39, n;
    }
    n := (n + 511) / 512 * 512;
    return n / 512 + 47, n;
  }

  /** zoneindex: the zone class of a request, and the request rounded up to its chunk size.
      Two requests of one class have one chunk size, the smallest one that fits. */
  method ZoneIndex(bytes: nat) returns (zi: nat, size: nat)
    requires 0 < bytes < ZALLOC_ZONE_LIMIT
    ensures zi < NZONES && size == ChunkSize(zi) && bytes <= size
    ensures 0 < zi ==> ChunkSize(zi - 1) < bytes
  {
    var n := bytes;
    if n < 128 {
      n := (n + 7) / 8 * 8;
      return n / 8 - 1, n;
    }
    if n < 256 {
      n := (n + 15) / 16 * 16;
      return n / 16 + 7, n;
    }
    if n < 1024 {
      zi, size := ZoneIndexTo1023(n);
      return;
    }
    if n < 8192 {
      zi, size := ZoneIndexTo8191(n);
      return;
    }
    n := (n + 1023) / 1024 * 1024;
    return n / 1024 + 55, n;
  }

  predicate PowerOfTwo(n: nat) {
    n == 1 || (n != 0 && n % 2 == 0 && PowerOfTwo(n / 2))
  }

  /** Where the chunks of a zone start: a power-of-two chunk starts at a multiple of itself. */
  function FirstChunk(size: nat): (off: nat)
    requires 0 < size
    ensures SIZEOF_ZONE <= off
  {
    RoundUpAtLeast(SIZEOF_ZONE, if PowerOfTwo(size) then size else 8);
    RoundUp(SIZEOF_ZONE, if PowerOfTwo(size) then size else 8)
  }

  lemma FirstChunkByEight(size: nat)
    requires 0 < size && size % 8 == 0
    ensures FirstChunk(size) % 8 == 0
  {
    var k := size / 8;
    var q := (SIZEOF_ZONE + size - 1) / size;
    assert size == 8 * k && q * size == (q * k) * 8;
    RemainderOf(q * size, 8, q * k, 0);
  }

  /** How finely the classes divide the sizes: a chunk wastes less than 8 bytes below 128, and
      less than an eighth of the range of its class above. */
  lemma Chunking(size: nat, zi: nat)
    requires 0 < size < ZALLOC_ZONE_LIMIT && InClass(size, zi)
    ensures var unit := if size < 128 then 8 else if size < 256 then 16 else if size < 512 then 32
                        else if size < 1024 then 64 else if size < 2048 then 128 else if size < 4096 then 256
                        else if size < 8192 then 512 else 1024;
            ChunkSize(zi) % unit == 0 && size <= ChunkSize(zi) < size + unit
  {
  }

  lemma RoundUpAtLeast(n: nat, unit: nat)
    requires 0 < unit
    ensures n <= RoundUp(n, unit) < n + unit
  {
    var m := n + unit - 1;
    assert m == m / unit * unit + m % unit;
  }

  /** A zone four times as large as its chunks holds at least two of them. */
  lemma TwoChunks(zoneSize: nat, zi: nat)
    requires zi < NZONES && 32768 <= zoneSize && 4 * ChunkSize(zi) <= zoneSize
    ensures 2 <= (zoneSize - FirstChunk(ChunkSize(zi))) / ChunkSize(zi)
  {
    var size := ChunkSize(zi);
    hide ChunkSize;
    assert FirstChunk(size) < SIZEOF_ZONE + size + 8 by {
      RoundUpAtLeast(SIZEOF_ZONE, size);
      RoundUpAtLeast(SIZEOF_ZONE, 8);
    }
    AtLeastTwo(zoneSize - FirstChunk(size), size);
  }

  lemma AtLeastTwo(a: int, b: nat)
    requires 0 < b && 2 * b <= a
    ensures 2 <= a / b
  {
    var q := a / b;
    assert a == q * b + a % b;
    assert 0 < (q - 1) * b;
  }

  /** The header at the start of a zone.  `freeChunks` is the list hanging off z_freechunk. */
  datatype Zone = Zone(nfree: int, nmax: int, base: int, uindex: int, chunk: int, index: int, freeChunks: seq<int>)

  datatype Usage = Free | Small(offset: int) | Large(count: int)

  function Slot(base: int, chunk: int, i: int): int {
    base + i * chunk
  }

  /** The first `n` chunks. */
  ghost function Touched(base: int, chunk: int, n: int): set<int> {
    set i | 0 <= i < n :: Slot(base, chunk, i)
  }

  /** The header `z` of the zone at page `p`, of which the chunks `live` are handed out. */
  ghost predicate ZoneOk(zonePages: nat, p: int, z: Zone, live: set<int>) {
    && 0 <= z.index < NZONES && z.chunk == ChunkSize(z.index)
    && z.base == p * PAGE_SIZE + FirstChunk(z.chunk)
    && z.nmax == (zonePages * PAGE_SIZE - FirstChunk(z.chunk)) / z.chunk
    && 2 <= z.nmax && 0 <= z.uindex < z.nmax
    && Distinct(z.freeChunks)
    && (forall a :: a in Touched(z.base, z.chunk, z.uindex + 1) <==> a in live || a in z.freeChunks)
    && (forall a :: a in live ==> a !in z.freeChunks)
    && z.nfree == |z.freeChunks| + (z.nmax - 1 - z.uindex)
  }

  lemma SlotsApart(base: int, chunk: int, i: int, j: int)
    requires 0 < chunk && i < j
    ensures Slot(base, chunk, i) + chunk <= Slot(base, chunk, j)
  {
    assert 0 <= (j - i - 1) * chunk;
    assert j * chunk == i * chunk + chunk + (j - i - 1) * chunk;
  }

  lemma {:induction false} TouchedCount(base: int, chunk: int, n: nat)
    requires 0 < chunk
    ensures |Touched(base, chunk, n)| == n
  {
    if n == 0 {
      assert Touched(base, chunk, n) == {};
    } else {
      TouchedMore(base, chunk, n - 1);
      TouchedCount(base, chunk, n - 1);
    }
  }

  lemma TouchedMore(base: int, chunk: int, n: nat)
    requires 0 < chunk
    ensures Slot(base, chunk, n) !in Touched(base, chunk, n)
    ensures Touched(base, chunk, n + 1) == Touched(base, chunk, n) + {Slot(base, chunk, n)}
  {
    forall i | 0 <= i < n
      ensures Slot(base, chunk, i) != Slot(base, chunk, n)
    {
      SlotsApart(base, chunk, i, n);
    }
  }

  ghost function Members(s: seq<int>): set<int> {
    set x | x in s
  }

  lemma {:induction false} DistinctCount(s: seq<int>)
    requires Distinct(s)
    ensures |Members(s)| == |s|
  {
    if s != [] {
      var t := s[1..];
      assert Members(s) == {s[0]} + Members(t);
      DistinctCount(t);
    }
  }

  /** z_nfree counts the chunks that are not live: those on the free list and those never
      handed out. */
  lemma FreeCount(zonePages: nat, p: int, z: Zone, live: set<int>)
    requires ZoneOk(zonePages, p, z, live)
    ensures z.nfree == z.nmax - |live|
  {
    var free := Members(z.freeChunks);
    TouchedCount(z.base, z.chunk, z.uindex + 1);
    DistinctCount(z.freeChunks);
    forall a
      ensures a in Touched(z.base, z.chunk, z.uindex + 1) <==> a in live + free
    {
      assert a in free <==> a in z.freeChunks;
    }
    assert Touched(z.base, z.chunk, z.uindex + 1) == live + free;
    assert live * free == {};
  }

  /** Handing out the next never-used chunk. */
  lemma TakesNew(zonePages: nat, p: int, z: Zone, live: set<int>)
    requires ZoneOk(zonePages, p, z, live) && z.uindex + 1 != z.nmax
    ensures var a := Slot(z.base, z.chunk, z.uindex + 1);
            a !in live && ZoneOk(zonePages, p, z.(nfree := z.nfree - 1, uindex := z.uindex + 1), live + {a})
  {
    TouchedMore(z.base, z.chunk, z.uindex + 1);
  }

  /** Handing out the chunk at the head of the free list. */
  lemma TakesFreed(zonePages: nat, p: int, z: Zone, live: set<int>)
    requires ZoneOk(zonePages, p, z, live) && z.uindex + 1 == z.nmax && 0 < z.nfree
    ensures z.freeChunks != [] && z.freeChunks[0] !in live
    ensures ZoneOk(zonePages, p, z.(nfree := z.nfree - 1, freeChunks := z.freeChunks[1..]), live + {z.freeChunks[0]})
  {
    var a, rest := z.freeChunks[0], z.freeChunks[1..];
    assert z.freeChunks == [a] + rest && forall x :: x in z.freeChunks <==> x == a || x in rest;
    assert forall i :: 0 <= i < |rest| ==> rest[i] == z.freeChunks[i + 1] != a;
  }

  /** Taking back a live chunk. */
  lemma GetsBack(zonePages: nat, p: int, z: Zone, live: set<int>, a: int)
    requires ZoneOk(zonePages, p, z, live) && a in live
    ensures ZoneOk(zonePages, p, z.(nfree := z.nfree + 1, freeChunks := [a] + z.freeChunks), live - {a})
  {
  }

  /** A zone fresh from the pages, its first chunk handed out. */
  lemma FreshZone(zonePages: nat, p: int, zi: nat)
    requires zi < NZONES && 8 <= zonePages && 4 * ChunkSize(zi) <= zonePages * PAGE_SIZE
    ensures var size, off := ChunkSize(zi), FirstChunk(ChunkSize(zi));
            var nmax := (zonePages * PAGE_SIZE - off) / size;
            var z := Zone(nmax - 1, nmax, p * PAGE_SIZE + off, 0, size, zi, []);
            ZoneOk(zonePages, p, z, {z.base}) && 0 < z.nfree
  {
    var size, off := ChunkSize(zi), FirstChunk(ChunkSize(zi));
    TwoChunks(zonePages * PAGE_SIZE, zi);
    var nmax := (zonePages * PAGE_SIZE - off) / size;
    var z := Zone(nmax - 1, nmax, p * PAGE_SIZE + off, 0, size, zi, []);
    assert Touched(z.base, z.chunk, 1) == {z.base} by {
      assert Slot(z.base, z.chunk, 0) == z.base;
    }
  }

  /** Every chunk of a zone lies within its pages, behind the header. */
  lemma ChunkInZone(zonePages: nat, p: int, z: Zone, live: set<int>, a: int)
    requires ZoneOk(zonePages, p, z, live) && a in live
    ensures p * PAGE_SIZE + SIZEOF_ZONE <= a && a + z.chunk <= (p + zonePages) * PAGE_SIZE
  {
    assert a in Touched(z.base, z.chunk, z.uindex + 1);
    var i :| 0 <= i <= z.uindex && a == Slot(z.base, z.chunk, i);
    var room := zonePages * PAGE_SIZE - FirstChunk(z.chunk);
    Fits(i, z.nmax, z.chunk, room);
  }

  lemma Fits(i: nat, n: nat, c: nat, room: int)
    requires 0 < c && i < n && n == room / c
    ensures 0 <= i * c && i * c + c <= room
  {
    Distribute(i, n - i, c);
    Distribute(1, n - i - 1, c);
    NonNegative(i, c);
    NonNegative(n - i - 1, c);
    Quotient(room, c);
  }

  /** Every chunk of a zone starts at a multiple of 8. */
  lemma ChunkByEight(zonePages: nat, p: int, z: Zone, live: set<int>, a: int)
    requires ZoneOk(zonePages, p, z, live) && a in live
    ensures a % 8 == 0
  {
    hide ChunkSize, FirstChunk;
    assert a in Touched(z.base, z.chunk, z.uindex + 1);
    var i :| 0 <= i <= z.uindex && a == Slot(z.base, z.chunk, i);
    FirstChunkByEight(z.chunk);
    EightSum(p, FirstChunk(z.chunk), i, z.chunk);
  }

  lemma EightSum(p: int, first: int, i: int, size: int)
    requires first % 8 == 0 && size % 8 == 0
    ensures (p * PAGE_SIZE + first + i * size) % 8 == 0
  {
    var f, k := first / 8, size / 8;
    assert i * size == (i * k) * 8;
    RemainderOf(p * PAGE_SIZE + first + i * size, 8, 512 * p + f + i * k, 0);
  }

  /** Two live chunks of a zone do not overlap. */
  lemma ChunksApart(zonePages: nat, p: int, z: Zone, live: set<int>, a: int, b: int)
    requires ZoneOk(zonePages, p, z, live) && a in live && b in live && a < b
    ensures a + z.chunk <= b
  {
    assert a in Touched(z.base, z.chunk, z.uindex + 1) && b in Touched(z.base, z.chunk, z.uindex + 1);
    var i :| 0 <= i <= z.uindex && a == Slot(z.base, z.chunk, i);
    var j :| 0 <= j <= z.uindex && b == Slot(z.base, z.chunk, j);
    if i < j {
      SlotsApart(z.base, z.chunk, i, j);
    } else if j < i {
      SlotsApart(z.base, z.chunk, j, i);
    }
  }

  /** The page runs held are apart from each other and from the free pages. */
  ghost predicate HeldOk(runs: seq<PageHeap.Run>, held: map<int, int>) {
    && (forall p :: p in held ==> 0 <= p && 0 < held[p])
    && (forall p, q :: p in held && q in held && p < q ==> p + held[p] <= q)
    && (forall p, q :: p in held && p <= q < p + held[p] ==> !PageHeap.Covers(runs, q))
  }

  /** The usage table says which held runs are zones, page by page, and which are large blocks. */
  ghost predicate Tagged(held: map<int, int>, usage: map<int, Usage>, zs: set<int>, zonePages: int) {
    && (forall p :: p in zs ==> p in held && held[p] == zonePages)
    && (forall p, q :: p in zs && p <= q < p + zonePages ==> q in usage && usage[q] == Small(q - p))
    && (forall p :: p in held && p !in zs ==> p in usage && usage[p] == Large(held[p]))
  }

  /** Taking the free pages from `b` on. */
  lemma HoldNew(runs: seq<PageHeap.Run>, runs': seq<PageHeap.Run>, held: map<int, int>, b: int, n: int)
    requires HeldOk(runs, held) && 0 <= b && 0 < n
    requires forall q :: b <= q < b + n ==> PageHeap.Covers(runs, q)
    requires forall q :: PageHeap.Covers(runs', q) <==> PageHeap.Covers(runs, q) && !(b <= q < b + n)
    ensures b !in held && HeldOk(runs', held[b := n])
    ensures forall p :: p in held ==> p + held[p] <= b || b + n <= p
  {
    forall p | p in held
      ensures p + held[p] <= b || b + n <= p
    {
      assert PageHeap.Covers(runs, b) && !PageHeap.Covers(runs, p);
    }
  }

  lemma NamesHeld(held: map<int, int>, usage: map<int, Usage>, zs: set<int>, zonePages: int, p: int)
    requires Tagged(held, usage, zs, zonePages) && p in zs
    ensures p in held && held[p] == zonePages
  {
  }

  lemma ZonesHeld(held: map<int, int>, usage: map<int, Usage>, zs: set<int>, zonePages: int)
    requires Tagged(held, usage, zs, zonePages)
    ensures forall p :: p in zs ==> p in held
  {
  }

  lemma RunsPositive(runs: seq<PageHeap.Run>, held: map<int, int>)
    requires HeldOk(runs, held)
    ensures forall p :: p in held ==> 0 <= p && 0 < held[p]
  {
  }

  /** Giving the pages of `b` back. */
  lemma HoldLess(runs: seq<PageHeap.Run>, runs': seq<PageHeap.Run>, held: map<int, int>, b: int)
    requires HeldOk(runs, held) && b in held
    requires forall q :: PageHeap.Covers(runs', q) <==> PageHeap.Covers(runs, q) || PageHeap.In(PageHeap.Run(b, held[b]), q)
    ensures HeldOk(runs', held - {b})
  {
  }

  /** Page `q` belongs to a held run. */
  ghost predicate InHeld(held: map<int, int>, q: int) {
    exists p :: p in held && p <= q < p + held[p]
  }

  /** No page is lost: those from `first` up to `limit` are free or held, and no others. */
  ghost predicate AllKept(runs: seq<PageHeap.Run>, held: map<int, int>, first: int, limit: int) {
    forall q :: first <= q < limit <==> PageHeap.Covers(runs, q) || InHeld(held, q)
  }

  /** The `n` pages from `b` on were free and are not any more; nothing else has changed. */
  ghost predicate Taken(runs: seq<PageHeap.Run>, runs': seq<PageHeap.Run>, b: int, n: int) {
    && (forall q :: b <= q < b + n ==> PageHeap.Covers(runs, q))
    && (forall q :: PageHeap.Covers(runs', q) <==> PageHeap.Covers(runs, q) && !(b <= q < b + n))
  }

  lemma KeptNew(runs: seq<PageHeap.Run>, runs': seq<PageHeap.Run>, held: map<int, int>, b: int, n: int, first: int, limit: int)
    requires AllKept(runs, held, first, limit) && b !in held
    requires forall q :: b <= q < b + n ==> PageHeap.Covers(runs, q)
    requires forall q :: PageHeap.Covers(runs', q) <==> PageHeap.Covers(runs, q) && !(b <= q < b + n)
    ensures AllKept(runs', held[b := n], first, limit)
  {
    forall q
      ensures InHeld(held[b := n], q) <==> InHeld(held, q) || b <= q < b + n
    {
      InHeldMore(held, b, n, q);
    }
  }

  lemma InHeldMore(held: map<int, int>, b: int, n: int, q: int)
    requires b !in held
    ensures InHeld(held[b := n], q) <==> InHeld(held, q) || b <= q < b + n
  {
    var more := held[b := n];
    if InHeld(held, q) {
      var p :| p in held && p <= q < p + held[p];
      assert p in more && more[p] == held[p];
    }
    if b <= q < b + n {
      assert b in more && more[b] == n;
    }
  }

  lemma KeptLess(runs: seq<PageHeap.Run>, runs': seq<PageHeap.Run>, held: map<int, int>, b: int, first: int, limit: int)
    requires AllKept(runs, held, first, limit) && HeldOk(runs, held) && b in held
    requires forall q :: PageHeap.Covers(runs', q) <==> PageHeap.Covers(runs, q) || PageHeap.In(PageHeap.Run(b, held[b]), q)
    ensures AllKept(runs', held - {b}, first, limit)
  {
    var less := held - {b};
    assert less[b := held[b]] == held;
    forall q
      ensures first <= q < limit <==> PageHeap.Covers(runs', q) || InHeld(less, q)
    {
      InHeldMore(less, b, held[b], q);
      assert PageHeap.Covers(runs', q) <==> PageHeap.Covers(runs, q) || b <= q < b + held[b];
    }
  }

  lemma TagLarge(held: map<int, int>, usage: map<int, Usage>, zs: set<int>, zonePages: int, b: int, n: int)
    requires Tagged(held, usage, zs, zonePages) && b !in held && 0 < n
    requires forall p :: p in held ==> p + held[p] <= b || b + n <= p
    ensures Tagged(held[b := n], usage[b := Large(n)], zs, zonePages)
  {
  }

  lemma TagZone(held: map<int, int>, usage: map<int, Usage>, zs: set<int>, zonePages: nat, b: int, usage': map<int, Usage>)
    requires Tagged(held, usage, zs, zonePages) && b !in held && 0 < zonePages
    requires forall p :: p in held ==> 0 < held[p] && (p + held[p] <= b || b + zonePages <= p)
    requires forall q :: b <= q < b + zonePages ==> q in usage' && usage'[q] == Small(q - b)
    requires forall q :: q in usage && !(b <= q < b + zonePages) ==> q in usage' && usage'[q] == usage[q]
    ensures Tagged(held[b := zonePages], usage', zs + {b}, zonePages)
  {
  }

  /** The zones of class `zi` with a free chunk are those listed for it, each once. */
  ghost predicate Listed(zoneArray: seq<seq<int>>, live: map<int, set<int>>, zones: map<int, Zone>) {
    && |zoneArray| == NZONES
    && (forall zi :: 0 <= zi < NZONES ==> Distinct(zoneArray[zi]))
    && (forall zi, p :: 0 <= zi < NZONES ==>
          (p in zoneArray[zi] <==> p in live && p in zones && zones[p].index == zi && 0 < zones[p].nfree))
  }

  /** The header of `h`, of class `zi`, becomes `z`, and only the list of that class changes. */
  lemma ListedStep(zoneArray: seq<seq<int>>, live: map<int, set<int>>, zones: map<int, Zone>,
                   zi: nat, list: seq<int>, h: int, z: Zone, lv: set<int>)
    requires Listed(zoneArray, live, zones) && zi < NZONES && z.index == zi
    requires h in live && h in zones ==> zones[h].index == zi
    requires Distinct(list)
    requires forall p :: p != h ==> (p in list <==> p in zoneArray[zi])
    requires h in list <==> 0 < z.nfree
    ensures Listed(zoneArray[zi := list], live[h := lv], zones[h := z])
  {
  }

  /** The zone size for a heap of `limit` bytes: the largest of 32, 64 and 128 KiB of which
      more than 1024 fit, and 32 KiB for the smallest heaps. */
  method ZoneSize(limit: nat) returns (size: int)
    ensures size in {32 * 1024, 64 * 1024, 128 * 1024}
    ensures 32 * 1024 < size ==> size < limit / 1024
    ensures size < 128 * 1024 ==> limit / 1024 <= size * 2
  {
    size := 32 * 1024;
    while size < 128 * 1024 && size * 2 < limit / 1024
      invariant size in {32 * 1024, 64 * 1024, 128 * 1024}
      invariant 32 * 1024 < size ==> size < limit / 1024
      decreases 128 * 1024 - size
    {
      size := size * 2;
    }
  }

  /** The usage table leaves pages over, unless the heap has just one. */
  lemma TableFits(npages: nat)
    requires 0 < npages
    ensures 0 < RoundUp(npages * 4, PAGE_SIZE) / PAGE_SIZE <= npages
    ensures PageHeap.FirstFit([PageHeap.Run(0, npages)], RoundUp(npages * 4, PAGE_SIZE) / PAGE_SIZE) == 0
    ensures RoundUp(npages * 4, PAGE_SIZE) / PAGE_SIZE == npages <==> npages == 1
  {
  }

  lemma FreshKept(runs: seq<PageHeap.Run>, first: int, limit: int)
    requires first <= limit && runs == if first < limit then [PageHeap.Run(first, limit - first)] else []
    ensures AllKept(runs, map[], first, limit)
  {
    forall q
      ensures first <= q < limit <==> PageHeap.Covers(runs, q)
    {
      assert first < limit ==> (PageHeap.In(runs[0], q) <==> first <= q < limit);
    }
  }

  lemma NothingHeld(runs: seq<PageHeap.Run>, zonePages: nat, zoneArray: seq<seq<int>>)
    requires |zoneArray| == NZONES && forall zi :: 0 <= zi < NZONES ==> zoneArray[zi] == []
    ensures HeldOk(runs, map[]) && Tagged(map[], map[], {}, zonePages) && Listed(zoneArray, map[], map[])
  {
  }

  lemma AfterTable(runs: seq<PageHeap.Run>, npages: nat, n: nat)
    requires PageHeap.Maximal(runs) && 0 < n <= npages
    requires forall p :: PageHeap.Covers(runs, p) <==> PageHeap.Covers([PageHeap.Run(0, npages)], p) && !(0 <= p < n)
    ensures runs == if n < npages then [PageHeap.Run(n, npages - n)] else []
  {
    var all, rest := [PageHeap.Run(0, npages)], if n < npages then [PageHeap.Run(n, npages - n)] else [];
    forall p
      ensures PageHeap.Covers(all, p) <==> 0 <= p < npages
      ensures PageHeap.Covers(rest, p) <==> n <= p < npages
    {
      assert PageHeap.In(all[0], p) <==> 0 <= p < npages;
      assert rest != [] ==> (PageHeap.In(rest[0], p) <==> n <= p < npages);
    }
    PageHeap.MaximalUnique(runs, rest);
  }

  class SlabHeap {
    const pages: PageHeap.PageHeap
    const zonePages: nat   // zone_page_cnt
    const zoneLimit: int   // zone_limit
    const firstPage: int   // behind the usage table
    const pageLimit: int
    var zoneArray: seq<seq<int>>
    var zoneFree: seq<int>
    var zoneFreeCnt: int
    var zones: map<int, Zone>
    var usage: map<int, Usage>
    // the live chunks of each zone in service, and the page runs held: zones in service,
    // spare zones and large blocks
    ghost var live: map<int, set<int>>
    ghost var held: map<int, int>

    ghost predicate Sized() {
      && zonePages in {8, 16, 32}
      && zoneLimit == if zonePages * PAGE_SIZE / 4 < ZALLOC_ZONE_LIMIT then zonePages * PAGE_SIZE / 4 else ZALLOC_ZONE_LIMIT
    }

    ghost predicate ZonesOk()
      reads this`live, this`zones
    {
      forall p :: p in live ==> p in zones && ZoneOk(zonePages, p, zones[p], live[p])
    }

    ghost predicate Spare()
      reads this`zoneFree, this`zoneFreeCnt, this`live
    {
      && zoneFreeCnt == |zoneFree| && Distinct(zoneFree)
      && (forall p :: p in zoneFree ==> p !in live)
    }

    /** The zones with pages: those in service and the spare ones. */
    ghost function AllZones(): set<int>
      reads this`live, this`zoneFree
    {
      live.Keys + Members(zoneFree)
    }

    ghost predicate Consistent(zs: set<int>, spares: int)
      reads this, pages
    {
      && Sized() && ZonesOk() && Listed(zoneArray, live, zones) && Spare() && zoneFreeCnt <= spares
      && pages.Valid() && HeldOk(pages.runs, held) && Tagged(held, usage, zs, zonePages)
      && AllKept(pages.runs, held, firstPage, pageLimit)
    }

    ghost predicate Valid()
      reads this, pages
    {
      Consistent(AllZones(), ZONE_RELEASE_THRESH)
    }

    /** rt_system_heap_init for a heap of `npages` pages. */
    constructor (npages: nat)
      requires 0 < npages && npages * PAGE_SIZE < 0x1_0000_0000
      ensures Valid() && live == map[] && held == map[] && fresh(pages)
      ensures zoneFree == [] && zoneArray == seq(NZONES, _ => [])
      ensures firstPage == RoundUp(npages * 4, PAGE_SIZE) / PAGE_SIZE && pageLimit == npages
      ensures zonePages == if npages <= 16384 then 8 else if npages <= 32768 then 16 else 32
      ensures zoneLimit == if npages <= 16384 then 8192 else 16384
      ensures var table := RoundUp(npages * 4, PAGE_SIZE) / PAGE_SIZE;
        pages.runs == if table < npages then [PageHeap.Run(table, npages - table)] else []
    {
      hide PageHeap.Covers, PageHeap.Maximal, PageHeap.Linked, PageHeap.FirstFit, RoundUp, HeldOk, Tagged, AllKept, Listed, ZoneOk;
      var p := new PageHeap.PageHeap(npages);
      var zoneSize := ZoneSize(npages * PAGE_SIZE);
      var tablePages := RoundUp(npages * 4, PAGE_SIZE) / PAGE_SIZE;
      TableFits(npages);
      var table := p.Alloc(tablePages);
      AfterTable(p.runs, npages, tablePages);
      pages, zonePages := p, zoneSize / PAGE_SIZE;
      zoneLimit := if zoneSize / 4 > ZALLOC_ZONE_LIMIT then ZALLOC_ZONE_LIMIT else zoneSize / 4;
      zoneArray, zoneFree, zoneFreeCnt := seq(NZONES, _ => []), [], 0;
      firstPage, pageLimit := tablePages, npages;
      zones, usage := map[], map[];
      live, held := map[], map[];
      new;
      NothingHeld(pages.runs, zonePages, zoneArray);
      FreshKept(pages.runs, firstPage, pageLimit);
      assert AllZones() == {};
    }

    /** Every run of free pages is shorter than `n` pages. */
    ghost predicate NoRun(n: int)
      reads pages
    {
      forall r :: r in pages.runs ==> r.count < n
    }

    /** rt_malloc from `zone_limit` on: whole pages. */
    method MallocLarge(size: nat) returns (ptr: int)
      requires Valid() && 0 < size <= MAX_SIZE
      modifies this`usage, this`held, pages
      ensures Valid()
      ensures ptr == NULL <==> old(NoRun(RoundUp(size, PAGE_SIZE) / PAGE_SIZE))
      ensures ptr == NULL ==> held == old(held) && pages.runs == old(pages.runs)
      ensures ptr != NULL ==>
                var b, n := PageHeap.FirstFit(old(pages.runs), RoundUp(size, PAGE_SIZE) / PAGE_SIZE), RoundUp(size, PAGE_SIZE) / PAGE_SIZE;
                && 0 <= ptr && ptr == b * PAGE_SIZE && size <= n * PAGE_SIZE && b !in old(held) && held == old(held)[b := n]
                && b !in AllZones() && Taken(old(pages.runs), pages.runs, b, n)
    {
      hide PageHeap.Covers, PageHeap.Maximal, PageHeap.Linked, ZonesOk, Listed, Distinct, HeldOk, Tagged, AllKept;
      var bytes := (size + PAGE_SIZE - 1) / PAGE_SIZE * PAGE_SIZE;
      var n := bytes / PAGE_SIZE;
      ghost var runs := pages.runs;
      var b := pages.Alloc(n);
      if b == PageHeap.NULL {
        return NULL;
      }
      HoldNew(runs, pages.runs, held, b, n);
      KeptNew(runs, pages.runs, held, b, n, firstPage, pageLimit);
      ZonesHeld(held, usage, AllZones(), zonePages);
      TagLarge(held, usage, AllZones(), zonePages, b, n);
      usage := usage[b := Large(n)];
      held := held[b := n];
      ptr := b * PAGE_SIZE;
    }

    /** rt_malloc from a zone that has a free chunk. */
    method TakeChunk(zi: nat, size: nat) returns (chunk: int, ghost z: int)
      requires Valid() && zi < NZONES && size == ChunkSize(zi) && zoneArray[zi] != []
      modifies this`zoneArray, this`zones, this`live
      ensures Valid()
      ensures z in old(live) && chunk !in old(live[z]) && live == old(live)[z := old(live[z]) + {chunk}]
      ensures z in zones && zones[z].index == zi && 0 <= chunk && z == old(zoneArray)[zi][0]
      ensures z in old(zones) && var was := old(zones[z]);
        && zones == old(zones)[z := zones[z]] && zones[z].nfree == was.nfree - 1
        && (if was.uindex + 1 != was.nmax then chunk == Slot(was.base, size, was.uindex + 1)
            else was.freeChunks != [] && chunk == was.freeChunks[0])
        && zoneArray == old(zoneArray)[zi := if was.nfree == 1 then old(zoneArray)[zi][1..] else old(zoneArray)[zi]]
    {
      hide PageHeap.Covers, PageHeap.Maximal, PageHeap.Linked, HeldOk, Tagged, AllKept, ZoneOk, Listed, Distinct;
      ghost var z0 := ListHead(zi);
      ghost var list := zoneArray[zi];
      var h := zoneArray[zi][0];
      z := h;
      var zone := zones[h].(nfree := zones[h].nfree - 1);
      if zone.nfree == 0 {
        zoneArray := zoneArray[zi := zoneArray[zi][1..]];
      }
      if zone.uindex + 1 != zone.nmax {
        TakesNew(zonePages, h, z0, live[h]);
        zone := zone.(uindex := zone.uindex + 1);
        chunk := zone.base + zone.uindex * size;
      } else {
        TakesFreed(zonePages, h, z0, live[h]);
        chunk := zone.freeChunks[0];
        zone := zone.(freeChunks := zone.freeChunks[1..]);
      }
      ghost var lv := live[h] + {chunk};
      ChunkInZone(zonePages, h, zone, lv, chunk);
      NamesHeld(held, usage, AllZones(), zonePages, h);
      RunsPositive(pages.runs, held);
      ListedStep(old(zoneArray), live, zones, zi, if zone.nfree == 0 then list[1..] else list, h, zone, lv);
      assert old(zoneArray)[zi := list] == old(zoneArray);
      zones := zones[h := zone];
      live := live[h := lv];
      assert AllZones() == old(AllZones());
    }

    lemma ListHead(zi: nat) returns (z: Zone)
      requires Valid() && zi < NZONES && zoneArray[zi] != []
      ensures |zoneArray| == NZONES
      ensures var h := zoneArray[zi][0];
              && h in live && h in zones && z == zones[h] && z.index == zi && 0 < z.nfree
              && z.chunk == ChunkSize(zi) && ZoneOk(zonePages, h, z, live[h])
      ensures var list := zoneArray[zi];
              Distinct(list) && Distinct(list[1..]) && forall x :: x in list[1..] <==> x in list && x != list[0]
    {
      var h := zoneArray[zi][0];
      assert h in zoneArray[zi];
      z := zones[h];
      ListedTail(zoneArray[zi]);
    }

    method PopSpare() returns (p: int)
      requires Valid() && zoneFree != []
      modifies this`zoneFree, this`zoneFreeCnt
      ensures p !in live && p !in zoneFree && Consistent(AllZones() + {p}, ZONE_RELEASE_THRESH)
      ensures 0 <= p && p == old(zoneFree)[0] && zoneFree == old(zoneFree)[1..]
    {
      hide PageHeap.Covers, PageHeap.Maximal, PageHeap.Linked, Tagged, ZoneOk, Listed;
      ListedTail(zoneFree);
      p := zoneFree[0];
      assert p in AllZones();
      NamesHeld(held, usage, AllZones(), zonePages, p);
      RunsPositive(pages.runs, held);
      zoneFree := zoneFree[1..];
      zoneFreeCnt := zoneFreeCnt - 1;
      assert AllZones() + {p} == old(AllZones());
    }

    method ZoneFromPages() returns (p: int)
      requires Valid()
      modifies this`usage, this`held, pages
      ensures p == NULL <==> old(NoRun(zonePages))
      ensures p == PageHeap.FirstFit(old(pages.runs), zonePages)
      ensures p == NULL ==> Valid() && held == old(held) && pages.runs == old(pages.runs)
      ensures p != NULL ==> p !in old(held) && held == old(held)[p := zonePages] && Taken(old(pages.runs), pages.runs, p, zonePages)
      ensures p != NULL ==> 0 <= p && p !in live && p !in zoneFree && Consistent(AllZones() + {p}, ZONE_RELEASE_THRESH)
    {
      hide PageHeap.Covers, PageHeap.Maximal, PageHeap.Linked, HeldOk, Tagged, AllKept, ZoneOk, Listed, Distinct;
      ghost var runs, u := pages.runs, usage;
      p := pages.Alloc(zonePages);
      if p == PageHeap.NULL {
        return;
      }
      RunsPositive(runs, held);
      HoldNew(runs, pages.runs, held, p, zonePages);
      KeptNew(runs, pages.runs, held, p, zonePages, firstPage, pageLimit);
      ZonesHeld(held, usage, AllZones(), zonePages);
      for off := 0 to zonePages
        invariant forall q :: p <= q < p + off ==> q in usage && usage[q] == Small(q - p)
        invariant forall q :: q in u && !(p <= q < p + off) ==> q in usage && usage[q] == u[q]
        modifies this`usage
      {
        usage := usage[p + off := Small(off)];
      }
      TagZone(held, u, AllZones(), zonePages, p, usage);
      held := held[p := zonePages];
    }

    /** The zone `z` was the first spare one or, if there was none, is made of free pages. */
    ghost predicate Supplied(runs: seq<PageHeap.Run>, h: map<int, int>, spare: seq<int>, z: int)
      reads this, pages
    {
      if spare != [] then z == spare[0] && zoneFree == spare[1..] && held == h && pages.runs == runs
      else zoneFree == [] && z !in h && held == h[z := zonePages] && Taken(runs, pages.runs, z, zonePages)
    }

    /** rt_malloc from a spare zone or, failing that, from new pages: the zone starts over
        for class `zi` and hands out its first chunk. */
    method NewZone(zi: nat, size: nat) returns (chunk: int, ghost z: int)
      requires Valid() && zi < NZONES && size == ChunkSize(zi) && 4 * size <= zonePages * PAGE_SIZE
      modifies this, pages
      ensures Valid()
      ensures chunk == NULL <==> old(zoneFree) == [] && old(NoRun(zonePages))
      ensures chunk == NULL ==> live == old(live) && held == old(held) && zoneFree == [] && pages.runs == old(pages.runs)
      ensures chunk != NULL ==> Supplied(old(pages.runs), old(held), old(zoneFree), z)
      ensures chunk != NULL ==> z !in old(live) && live == old(live)[z := {chunk}]
      ensures chunk != NULL ==> z in zones && zones[z].index == zi
      ensures chunk != NULL ==>
        z == if old(zoneFree) != [] then old(zoneFree)[0] else PageHeap.FirstFit(old(pages.runs), zonePages)
    {
      hide PageHeap.Covers, PageHeap.Maximal, PageHeap.Linked, HeldOk, Tagged, AllKept, ZoneOk, Listed, Distinct, ChunkSize;
      z := NULL;
      var p;
      if zoneFree != [] {
        p := PopSpare();
      } else {
        p := ZoneFromPages();
        if p == NULL {
          return NULL, z;
        }
      }
      chunk := OpenZone(p, zi, size);
      z := p;
    }

    /** Writes the header of the zone at `p`, hands out its first chunk and links it. */
    method OpenZone(p: int, zi: nat, size: nat) returns (chunk: int)
      requires 0 <= p && p !in live && p !in zoneFree && Consistent(AllZones() + {p}, ZONE_RELEASE_THRESH)
      requires zi < NZONES && size == ChunkSize(zi) && 4 * size <= zonePages * PAGE_SIZE
      modifies this`zones, this`zoneArray, this`live
      ensures Valid() && 0 <= chunk && live == old(live)[p := {chunk}]
      ensures p in zones && zones[p].index == zi
    {
      hide PageHeap.Covers, PageHeap.Maximal, PageHeap.Linked, HeldOk, Tagged, AllKept, ZoneOk, Listed, Distinct, ChunkSize;
      ClassExists(zi);
      FreshZone(zonePages, p, zi);
      var off := FirstChunk(size);
      var nmax := (zonePages * PAGE_SIZE - off) / size;
      var zone := Zone(nmax - 1, nmax, p * PAGE_SIZE + off, 0, size, zi, []);
      chunk := zone.base;
      ListedNew(zoneArray, live, zones, zi, p, zone, {chunk});
      zones := zones[p := zone];
      zoneArray := zoneArray[zi := [p] + zoneArray[zi]];
      live := live[p := {chunk}];
      assert AllZones() == old(AllZones()) + {p};
    }

    lemma ClassExists(zi: nat)
      requires Listed(zoneArray, live, zones) && zi < NZONES
      ensures |zoneArray| == NZONES
    {
    }

    ghost function LiveIn(z: int): set<int>
      reads this`live
    {
      if z in live then live[z] else {}
    }

    /** The first page of the zone, or of the whole pages, that will serve a request of class
        `zi`: of the first zone of the class, or of a spare zone, or of new pages. */
    ghost function ServingPage(size: nat, zi: nat): int
      reads this, pages
    {
      if zoneLimit <= size then PageHeap.FirstFit(pages.runs, RoundUp(size, PAGE_SIZE) / PAGE_SIZE)
      else if zi < |zoneArray| && zoneArray[zi] != [] then zoneArray[zi][0]
      else if zoneFree != [] then zoneFree[0]
      else PageHeap.FirstFit(pages.runs, zonePages)
    }

    /** Is there neither a chunk of class `zi`, nor a spare zone, nor a run of enough pages? */
    ghost predicate Exhausted(size: nat, zi: nat)
      reads this, pages
    {
      if zoneLimit <= size then NoRun(RoundUp(size, PAGE_SIZE) / PAGE_SIZE)
      else (zi < |zoneArray| ==> zoneArray[zi] == []) && zoneFree == [] && NoRun(zonePages)
    }

    /** Where a request is served from, and when it is not, in terms of the page runs. */
    lemma ServedFrom(size: nat, zi: nat) returns (i: nat)
      requires Valid() && zi < NZONES
      ensures i <= |pages.runs| && (i < |pages.runs| ==> !Exhausted(size, zi))
      ensures var n := if zoneLimit <= size then (size + 4095) / 4096 else zonePages;
        && (forall j :: 0 <= j < i ==> pages.runs[j].count < n)
        && (i < |pages.runs| ==> n <= pages.runs[i].count)
      ensures size < zoneLimit && zoneArray[zi] != [] ==> !Exhausted(size, zi) && ServingPage(size, zi) == zoneArray[zi][0]
      ensures size < zoneLimit && zoneArray[zi] == [] && zoneFree != [] ==>
        !Exhausted(size, zi) && ServingPage(size, zi) == zoneFree[0]
      ensures zoneLimit <= size || (zoneArray[zi] == [] && zoneFree == []) ==>
        (Exhausted(size, zi) <==> i == |pages.runs|)
        && (i < |pages.runs| ==> ServingPage(size, zi) == pages.runs[i].start)
    {
      hide PageHeap.Linked, PageHeap.Maximal, HeldOk, Tagged, AllKept, ZoneOk, PageHeap.FirstFit;
      var n: int := if zoneLimit <= size then (size + 4095) / 4096 else zonePages;
      i := 0;
      while i < |pages.runs| && pages.runs[i].count < n
        invariant i <= |pages.runs| && forall j :: 0 <= j < i ==> pages.runs[j].count < n
      {
        i := i + 1;
      }
      PageHeap.FirstFitAt(pages.runs, n, i);
    }

    /** rt_malloc. A small request is served from the first zone of its class, failing that
        from a spare zone, failing that from new pages. */
    method Malloc(size: nat) returns (ptr: int, ghost z: int, ghost zi: nat)
      requires Valid() && size <= MAX_SIZE
      modifies this, pages
      ensures Valid()
      ensures ptr == NULL <==> size == 0 || old(Exhausted(size, zi))
      ensures ptr == NULL ==>
        live == old(live) && held == old(held) && zoneFree == old(zoneFree) && pages.runs == old(pages.runs)
      ensures ptr != NULL && size < zoneLimit && zi < |old(zoneArray)| ==>
        if old(zoneArray)[zi] == [] then Supplied(old(pages.runs), old(held), old(zoneFree), z)
        else held == old(held) && zoneFree == old(zoneFree) && pages.runs == old(pages.runs)
      ensures 0 < size < zoneLimit ==>
                && InClass(size, zi) && |old(zoneArray)| == NZONES
                && (ptr != NULL ==> z == old(ServingPage(size, zi)))
      ensures ptr != NULL && size < zoneLimit ==>
                && ptr !in old(LiveIn(z)) && live == old(live)[z := old(LiveIn(z)) + {ptr}]
                && z in zones && zones[z].index == zi && zones[z].chunk == ChunkSize(zi)
      ensures ptr != NULL && zoneLimit <= size ==>
                var b, n := old(ServingPage(size, zi)), RoundUp(size, PAGE_SIZE) / PAGE_SIZE;
                && 0 <= ptr && ptr == b * PAGE_SIZE && size <= n * PAGE_SIZE
                && live == old(live) && b !in old(held) && held == old(held)[b := n]
                && Taken(old(pages.runs), pages.runs, b, n)
    {
      hide PageHeap.Covers, PageHeap.Maximal, PageHeap.Linked, HeldOk, Tagged, AllKept, Listed, ZoneOk, Distinct, RoundUp, NoRun, ChunkSize;
      z, zi := NULL, 0;
      if size == 0 {
        return NULL, z, zi;
      }
      if zoneLimit <= size {
        ptr := MallocLarge(size);
        return;
      }
      var index, chunk := ZoneIndex(size);
      zi := index;
      ClassExists(index);
      if zoneArray[index] != [] {
        ptr, z := TakeChunk(index, chunk);
      } else {
        ClassFits(size, index);
        ptr, z := NewZone(index, chunk);
        assert {} + {ptr} == {ptr};
      }
      if ptr != NULL {
        ChunkOf(z);
      }
    }

    lemma ChunkOf(z: int)
      requires ZonesOk() && z in live
      ensures z in zones && 0 <= zones[z].index < NZONES && zones[z].chunk == ChunkSize(zones[z].index)
    {
    }

    /** Requests below `zone_limit` only need classes a zone has room for. */
    lemma ClassFits(size: nat, zi: nat)
      requires Sized() && 0 < size < zoneLimit && zi < NZONES && (0 < zi ==> ChunkSize(zi - 1) < size)
      ensures 4 * ChunkSize(zi) <= zonePages * PAGE_SIZE
    {
    }

    /** A live block of whole pages. */
    ghost predicate IsLarge(ptr: int)
      reads this
    {
      ptr % PAGE_SIZE == 0 && ptr / PAGE_SIZE in held && ptr / PAGE_SIZE !in AllZones()
    }

    /** A live chunk of zone `z`. */
    ghost predicate IsChunk(ptr: int, z: int)
      reads this
    {
      ptr in LiveIn(z)
    }

    /** rt_free of a large block. */
    method FreeLarge(b: int, n: nat)
      requires Valid() && b in held && b !in AllZones() && n == held[b]
      modifies this`usage, this`held, pages
      ensures Valid() && held == old(held) - {b}
      ensures forall q :: PageHeap.Covers(pages.runs, q) <==> PageHeap.Covers(old(pages.runs), q) || b <= q < b + n
    {
      hide PageHeap.Covers, PageHeap.Maximal, PageHeap.Linked, HeldOk, Tagged, AllKept, Listed, ZoneOk, Distinct, ZonesOk;
      RunsPositive(pages.runs, held);
      RunIsHeld(pages.runs, held, b);
      usage := usage[b := Large(0)];
      ghost var runs := pages.runs;
      pages.Free(b, n);
      HoldLess(runs, pages.runs, held, b);
      KeptLess(runs, pages.runs, held, b, firstPage, pageLimit);
      UntagLarge(runs, held, old(usage), AllZones(), zonePages, b);
      held := held - {b};
    }

    /** Puts the chunk back on its zone's free list, and the zone on its class's list. */
    method PutBack(ptr: int, z: int)
      requires Valid() && z in live && ptr in live[z]
      modifies this`zones, this`zoneArray, this`live
      ensures Valid() && live == old(live)[z := old(live[z]) - {ptr}]
      ensures z in old(zones) && var was := old(zones[z]);
        && zones == old(zones)[z := was.(freeChunks := [ptr] + was.freeChunks, nfree := was.nfree + 1)]
        && 0 <= was.index < |old(zoneArray)| && var list := old(zoneArray[zones[z].index]);
           zoneArray == old(zoneArray)[was.index := if was.nfree == 0 then [z] + list else list]
      ensures zones[z].nfree > 0
      ensures forall p :: p != z ==> (p in zoneArray[zones[z].index] <==> p in old(zoneArray[zones[z].index]))
    {
      hide PageHeap.Covers, PageHeap.Maximal, PageHeap.Linked, HeldOk, Tagged, AllKept, Listed, ZoneOk, Distinct;
      ghost var z0 := ZoneFacts(z);
      var zi := zones[z].index;
      GetsBack(zonePages, z, zones[z], live[z], ptr);
      var zone := zones[z].(freeChunks := [ptr] + zones[z].freeChunks, nfree := zones[z].nfree + 1);
      ListedFacts(zi, z);
      if zone.nfree - 1 == 0 {
        zoneArray := zoneArray[zi := [z] + zoneArray[zi]];
      }
      ListedStep(old(zoneArray), live, zones, zi, zoneArray[zi], z, zone, live[z] - {ptr});
      assert old(zoneArray)[zi := zoneArray[zi]] == zoneArray;
      zones := zones[z := zone];
      live := live[z := live[z] - {ptr}];
      assert AllZones() == old(AllZones());
    }

    lemma ZoneFacts(z: int) returns (zone: Zone)
      requires ZonesOk() && z in live
      ensures z in zones && zone == zones[z] && 0 <= zone.index < NZONES && 0 <= zone.nfree && ZoneOk(zonePages, z, zone, live[z])
    {
      zone := zones[z];
    }

    lemma ListedFacts(zi: nat, z: int)
      requires Listed(zoneArray, live, zones) && zi < NZONES && z in live && z in zones && zones[z].index == zi
      ensures |zoneArray| == NZONES && Distinct(zoneArray[zi])
      ensures z in zoneArray[zi] <==> 0 < zones[z].nfree
      ensures z !in zoneArray[zi] ==> Distinct([z] + zoneArray[zi])
      ensures forall p :: p in zoneArray[zi] ==> p in live && p in zones && zones[p].index == zi
    {
    }

    /** Moves the zone `z`, none of whose chunks is live, to the spare zones. */
    method Retire(z: int)
      requires Valid() && z in live && z in zones && live[z] == {}
      requires zones[z].nfree == zones[z].nmax
      modifies this`zoneArray, this`zoneFree, this`zoneFreeCnt, this`live
      ensures Consistent(AllZones(), ZONE_RELEASE_THRESH + 1) && AllZones() == old(AllZones())
      ensures live == old(live) - {z} && zoneFree == [z] + old(zoneFree)
      ensures zoneFreeCnt == old(zoneFreeCnt) + 1
    {
      hide PageHeap.Covers, PageHeap.Maximal, PageHeap.Linked, HeldOk, Tagged, AllKept, Listed, ZoneOk;
      ghost var z0 := ZoneFacts(z);
      var zi := zones[z].index;
      ListedFacts(zi, z);
      assert 0 < zones[z].nfree by { assert ZoneOk(zonePages, z, zones[z], live[z]); PositiveMax(zonePages, z, zones[z], live[z]); }
      var k := 0;
      var list := zoneArray[zi];
      while list[k] != z
        invariant 0 <= k < |list| && z in list[k..]
        decreases |list| - k
      {
        assert list[k..] == [list[k]] + list[k + 1..];
        k := k + 1;
      }
      RemoveAtMembers(list, k);
      ListedGone(zoneArray, live, zones, zi, list[..k] + list[k + 1..], z);
      zoneArray := zoneArray[zi := list[..k] + list[k + 1..]];
      live := live - {z};
      zoneFree := [z] + zoneFree;
      zoneFreeCnt := zoneFreeCnt + 1;
      assert AllZones() == old(AllZones());
    }

    /** Returns the spare zone at the head of the list to the pages. */
    method Release()
      requires Consistent(AllZones(), ZONE_RELEASE_THRESH + 1) && zoneFreeCnt == ZONE_RELEASE_THRESH + 1
      modifies this`usage, this`zoneFree, this`zoneFreeCnt, this`held, pages
      ensures Valid() && held == old(held) - {old(zoneFree[0])}
      ensures zoneFree == old(zoneFree)[1..]
      ensures forall q :: 0 <= q - old(zoneFree[0]) < zonePages ==> q in usage && usage[q] == Usage.Free
      ensures forall q :: PageHeap.Covers(pages.runs, q) <==>
        PageHeap.Covers(old(pages.runs), q) || PageHeap.In(PageHeap.Run(old(zoneFree[0]), zonePages), q)
    {
      hide PageHeap.Covers, PageHeap.Maximal, PageHeap.Linked, HeldOk, Tagged, AllKept, Listed, ZoneOk;
      var z := zoneFree[0];
      ghost var zs, u, runs := AllZones(), usage, pages.runs;
      assert z in zs;
      ListedTail(zoneFree);
      NamesHeld(held, usage, zs, zonePages, z);
      RunsPositive(pages.runs, held);
      RunIsHeld(pages.runs, held, z);
      zoneFree := zoneFree[1..];
      zoneFreeCnt := zoneFreeCnt - 1;
      for i := 0 to zonePages
        invariant forall q :: q in u && !(z <= q < z + zonePages) ==> q in usage && usage[q] == u[q]
        invariant forall q :: 0 <= q - z < i ==> q in usage && usage[q] == Usage.Free
        modifies this`usage
      {
        usage := usage[z + i := Usage.Free];
      }
      pages.Free(z, zonePages);
      HoldLess(runs, pages.runs, held, z);
      KeptLess(runs, pages.runs, held, z, firstPage, pageLimit);
      UntagZone(runs, held, u, zs, zonePages, z, usage);
      held := held - {z};
      assert AllZones() == zs - {z};
    }

    /** rt_free.  `zone` names the zone of a chunk. */
    method Free(ptr: int, ghost zone: int)
      requires Valid() && (ptr == NULL || IsLarge(ptr) || IsChunk(ptr, zone))
      modifies this, pages
      ensures Valid()
      ensures ptr == NULL ==> unchanged(this) && unchanged(pages)
      ensures ptr != NULL && old(IsLarge(ptr)) ==>
                var b, n := ptr / PAGE_SIZE, old(held)[ptr / PAGE_SIZE];
                && live == old(live) && held == old(held) - {b}
                && forall q :: PageHeap.Covers(pages.runs, q) <==> PageHeap.Covers(old(pages.runs), q) || b <= q < b + n
      ensures ptr != NULL && old(IsChunk(ptr, zone)) ==>
                && (forall z :: LiveIn(z) == if z == zone then old(LiveIn(z)) - {ptr} else old(LiveIn(z)))
                && (forall p :: p in held ==> p in old(held) && held[p] == old(held)[p])
                && (forall p :: p in old(held) && p !in held ==> p !in live && old(LiveIn(p)) <= {ptr})
                && (zone !in live <==>
                      && old(LiveIn(zone)) == {ptr}
                      && exists p :: p != zone && p in old(zoneArray[zones[zone].index]))
                && (zone in old(zones) && var was := old(zones[zone]);
                      zones == old(zones)[zone := was.(freeChunks := [ptr] + was.freeChunks, nfree := was.nfree + 1)])
                && (zone in live ==> zoneFree == old(zoneFree) && held == old(held) && pages.runs == old(pages.runs))
                && (zone !in live && |old(zoneFree)| < 2 ==>
                      zoneFree == [zone] + old(zoneFree) && held == old(held) && pages.runs == old(pages.runs))
                && (zone !in live && 2 <= |old(zoneFree)| ==>
                      && zoneFree == old(zoneFree) && held == old(held) - {zone}
                      && forall q :: PageHeap.Covers(pages.runs, q) <==>
                           PageHeap.Covers(old(pages.runs), q) || zone <= q < zone + zonePages)
    {
      hide PageHeap.Covers, PageHeap.Maximal, PageHeap.Linked, HeldOk, Tagged, AllKept, Listed, ZoneOk, Distinct;
      if ptr == NULL {
        return;
      }
      var page := ptr / PAGE_SIZE;
      Lookup(ptr, zone);
      var kup := usage[page];
      if kup.Large? {
        FreeLarge(page, kup.count);
        return;
      }
      var z := page - kup.offset;
      PutBack(ptr, z);
      ghost var zn := ZoneFacts(z);
      FreeCount(zonePages, z, zn, live[z]);
      ListedFacts(zones[z].index, z);
      Others(zoneArray[zones[z].index], z);
      assert z == zone;
      // z->z_next, or another zone in front: the list holds more than z
      if zones[z].nfree == zones[z].nmax && 1 < |zoneArray[zones[z].index]| {
        TakeOutOfService(z);
      }
    }

    /** The zone `z`, none of whose chunks is live, becomes a spare one, or gives its pages back if
        there are two of those already. */
    method TakeOutOfService(z: int)
      requires Valid() && z in live && z in zones && live[z] == {} && zones[z].nfree == zones[z].nmax
      modifies this`zoneArray, this`zoneFree, this`zoneFreeCnt, this`live, this`usage, this`held, pages
      ensures Valid() && live == old(live) - {z}
      ensures |old(zoneFree)| < 2 ==>
        zoneFree == [z] + old(zoneFree) && held == old(held) && pages.runs == old(pages.runs)
      ensures 2 <= |old(zoneFree)| ==>
        && zoneFree == old(zoneFree) && held == old(held) - {z}
        && forall q :: PageHeap.Covers(pages.runs, q) <==> PageHeap.Covers(old(pages.runs), q) || z <= q < z + zonePages
    {
      hide PageHeap.Covers, PageHeap.Maximal, PageHeap.Linked, HeldOk, Tagged, AllKept, Listed, ZoneOk, Distinct;
      Retire(z);
      if ZONE_RELEASE_THRESH < zoneFreeCnt {
        Release();
      }
    }

    /** The usage table leads from a pointer to its large block or its zone. */
    lemma Lookup(ptr: int, z: int)
      requires Valid() && (IsLarge(ptr) || IsChunk(ptr, z))
      ensures var page := ptr / PAGE_SIZE;
              && page in usage
              && (IsLarge(ptr) ==> !IsChunk(ptr, z) && usage[page] == Large(held[page]) && 0 < held[page])
              && (IsChunk(ptr, z) ==> z in zones && usage[page] == Small(page - z))
    {
      if IsChunk(ptr, z) {
        ChunkInZone(zonePages, z, zones[z], live[z], ptr);
        assert z in AllZones() && z <= ptr / PAGE_SIZE < z + zonePages;
      }
    }
  }

  /** Freeing whole pages right after they were allocated restores exactly the old list of free
      page runs. */
  method LargeThenFree(heap: SlabHeap, size: nat)
    requires heap.Valid() && heap.zoneLimit <= size <= MAX_SIZE
    modifies heap, heap.pages
    ensures heap.Valid() && heap.live == old(heap.live) && heap.held == old(heap.held)
    ensures heap.pages.runs == old(heap.pages.runs)
  {
    hide PageHeap.Covers, PageHeap.Maximal, PageHeap.Linked, PageHeap.FirstFit, HeldOk, Tagged, AllKept, Listed, ZoneOk, Distinct;
    ghost var runs := heap.pages.runs;
    var ptr := heap.MallocLarge(size);
    if ptr != NULL {
      heap.Free(ptr, NULL);
      PageHeap.MaximalUnique(runs, heap.pages.runs);
    }
  }

  lemma Others(list: seq<int>, z: int)
    requires Distinct(list) && z in list
    ensures 1 < |list| <==> exists p :: p in list && p != z
  {
    if 1 < |list| {
      assert list[0] in list && list[1] in list && list[0] != list[1];
    }
  }

  lemma PositiveMax(zonePages: nat, p: int, z: Zone, live: set<int>)
    requires ZoneOk(zonePages, p, z, live)
    ensures 2 <= z.nmax
  {
  }

  lemma ListedGone(zoneArray: seq<seq<int>>, live: map<int, set<int>>, zones: map<int, Zone>, zi: nat, list: seq<int>, z: int)
    requires Listed(zoneArray, live, zones) && zi < NZONES && z in live && z in zones && zones[z].index == zi
    requires Distinct(list) && forall p :: p in list <==> p in zoneArray[zi] && p != z
    ensures Listed(zoneArray[zi := list], live - {z}, zones)
  {
  }

  lemma UntagZone(runs: seq<PageHeap.Run>, held: map<int, int>, usage: map<int, Usage>, zs: set<int>, zonePages: int, z: int,
                  usage': map<int, Usage>)
    requires HeldOk(runs, held) && Tagged(held, usage, zs, zonePages) && z in zs
    requires forall q :: q in usage && !(z <= q < z + zonePages) ==> q in usage' && usage'[q] == usage[q]
    ensures Tagged(held - {z}, usage', zs - {z}, zonePages)
  {
    Apart(runs, held, z);
    NamesHeld(held, usage, zs, zonePages, z);
    hide HeldOk;
    forall p, q | p in zs - {z} && p <= q < p + zonePages
      ensures q in usage' && usage'[q] == Small(q - p)
    {
      assert usage[q] == Small(q - p) && !(z <= q < z + zonePages);
    }
    forall p | p in held - {z} && p !in zs - {z}
      ensures p in usage' && usage'[p] == Large(held[p])
    {
      assert usage[p] == Large(held[p]) && !(z <= p < z + zonePages);
    }
  }

  lemma Apart(runs: seq<PageHeap.Run>, held: map<int, int>, z: int)
    requires HeldOk(runs, held) && z in held
    ensures forall p :: p in held ==> 0 < held[p] && (p != z ==> p + held[p] <= z || z + held[z] <= p)
  {
  }

  lemma RunIsHeld(runs: seq<PageHeap.Run>, held: map<int, int>, b: int)
    requires HeldOk(runs, held) && b in held
    ensures forall q :: PageHeap.Covers(runs, q) ==> !PageHeap.In(PageHeap.Run(b, held[b]), q)
  {
  }

  lemma UntagLarge(runs: seq<PageHeap.Run>, held: map<int, int>, usage: map<int, Usage>, zs: set<int>, zonePages: int, b: int)
    requires HeldOk(runs, held) && Tagged(held, usage, zs, zonePages) && b in held && b !in zs
    ensures Tagged(held - {b}, usage[b := Large(0)], zs, zonePages)
  {
  }

  /** A zone that was not in service is linked in front of the list of its class. */
  lemma ListedNew(zoneArray: seq<seq<int>>, live: map<int, set<int>>, zones: map<int, Zone>, zi: nat, p: int, z: Zone, lv: set<int>)
    requires Listed(zoneArray, live, zones) && zi < NZONES && z.index == zi && 0 < z.nfree && p !in live
    ensures Listed(zoneArray[zi := [p] + zoneArray[zi]], live[p := lv], zones[p := z])
  {
    var list := [p] + zoneArray[zi];
    assert p !in zoneArray[zi];
    assert Distinct(list);
    ListedStep(zoneArray, live, zones, zi, list, p, z, lv);
  }

  lemma ListedTail(s: seq<int>)
    requires s != [] && Distinct(s)
    ensures Distinct(s[1..]) && forall x :: x in s[1..] <==> x in s && x != s[0]
  {
    assert s == [s[0]] + s[1..];
    assert forall i :: 0 <= i < |s[1..]| ==> s[1..][i] == s[i + 1];
  }

  /** The books of a zone in service: its chunks are live, on its free list or never used,
      z_nfree counts the last two, and it is on its class's list exactly if that is not 0. */
  lemma ZoneAccounts(heap: SlabHeap, z: int)
    requires heap.Valid() && z in heap.live
    ensures z in heap.zones && heap.zoneFreeCnt == |heap.zoneFree| <= 2
    ensures var zone := heap.zones[z];
            && 2 <= zone.nmax
            && zone.nfree == |zone.freeChunks| + (zone.nmax - 1 - zone.uindex)
            && |heap.live[z]| + zone.nfree == zone.nmax
            && 0 <= zone.index < NZONES == |heap.zoneArray|
            && (z in heap.zoneArray[zone.index] <==> 0 < zone.nfree)
  {
    FreeCount(heap.zonePages, z, heap.zones[z], heap.live[z]);
  }

  /** A live chunk lies behind the header of its own zone and outside every other zone. */
  lemma MissesHeader(heap: SlabHeap, a: int, y: int, p: int)
    requires heap.Valid() && heap.IsChunk(a, y) && p in heap.AllZones()
    ensures y in heap.zones
    ensures a + heap.zones[y].chunk <= p * PAGE_SIZE || p * PAGE_SIZE + SIZEOF_ZONE <= a
  {
    ChunkInZone(heap.zonePages, y, heap.zones[y], heap.live[y], a);
    assert y in heap.AllZones();
    NamesHeld(heap.held, heap.usage, heap.AllZones(), heap.zonePages, y);
    NamesHeld(heap.held, heap.usage, heap.AllZones(), heap.zonePages, p);
  }

  /** All memory handed out starts at a multiple of 8. */
  lemma AllByEight(heap: SlabHeap, ptr: int, z: int)
    requires heap.Valid() && (heap.IsChunk(ptr, z) || heap.IsLarge(ptr))
    ensures ptr % 8 == 0
  {
    if heap.IsChunk(ptr, z) {
      ChunkByEight(heap.zonePages, z, heap.zones[z], heap.live[z], ptr);
    }
  }

  /** Live chunks never overlap each other, a zone header or a large block. */
  lemma ChunksDisjoint(heap: SlabHeap, a: int, y: int, b: int, z: int)
    requires heap.Valid() && heap.IsChunk(a, y)
    ensures y in heap.zones && 0 <= a
    ensures heap.IsChunk(b, z) && a != b ==>
              a + heap.zones[y].chunk <= b || (z in heap.zones && b + heap.zones[z].chunk <= a)
    ensures heap.IsLarge(b) ==>
              a + heap.zones[y].chunk <= b || b + heap.held[b / PAGE_SIZE] * PAGE_SIZE <= a
    ensures forall p :: p in heap.AllZones() ==>
              a + heap.zones[y].chunk <= p * PAGE_SIZE || p * PAGE_SIZE + 36 <= a
  {
    forall p | p in heap.AllZones()
      ensures a + heap.zones[y].chunk <= p * PAGE_SIZE || p * PAGE_SIZE + SIZEOF_ZONE <= a
    {
      MissesHeader(heap, a, y, p);
    }
    ChunkInZone(heap.zonePages, y, heap.zones[y], heap.live[y], a);
    assert y in heap.AllZones();
    if heap.IsChunk(b, z) {
      ChunkInZone(heap.zonePages, z, heap.zones[z], heap.live[z], b);
      assert z in heap.AllZones();
      if y == z && a < b {
        ChunksApart(heap.zonePages, y, heap.zones[y], heap.live[y], a, b);
      } else if y == z && b < a {
        ChunksApart(heap.zonePages, y, heap.zones[y], heap.live[y], b, a);
      }
    }
  }

  /** A chunk of power-of-two size is aligned to its size exactly if its zone is.  `origin`
      is the address of the heap. */
  lemma AlignedLikeZone(zonePages: nat, p: int, z: Zone, live: set<int>, a: int, origin: int)
    requires ZoneOk(zonePages, p, z, live) && a in live && PowerOfTwo(z.chunk)
    ensures (origin + a) % z.chunk == (origin + p * PAGE_SIZE) % z.chunk
  {
    var k := ChunkOffset(zonePages, p, z, live, a);
    SameRemainder(origin + p * PAGE_SIZE, k, z.chunk);
  }

  lemma ChunkOffset(zonePages: nat, p: int, z: Zone, live: set<int>, a: int) returns (k: int)
    requires ZoneOk(zonePages, p, z, live) && a in live && PowerOfTwo(z.chunk)
    ensures a == p * PAGE_SIZE + k * z.chunk
  {
    assert a in Touched(z.base, z.chunk, z.uindex + 1);
    var i :| 0 <= i <= z.uindex && a == Slot(z.base, z.chunk, i);
    var q := (SIZEOF_ZONE + z.chunk - 1) / z.chunk;
    k := q + i;
    Distribute(q, i, z.chunk);
  }

  lemma {:induction false} PowersDivide(n: nat, m: nat)
    requires PowerOfTwo(n) && PowerOfTwo(m) && n <= m
    ensures exists k :: m == k * n
  {
    if n == 1 {
      assert m == m * 1;
    } else {
      PowersDivide(n / 2, m / 2);
      var k :| m / 2 == k * (n / 2);
      assert m == k * n;
    }
  }

  lemma {:induction false} SmallPower(n: nat)
    requires PowerOfTwo(n) && n < 16384
    ensures n in {1, 2, 4, 8, 16, 32, 64, 128, 256, 512, 1024, 2048, 4096, 8192}
  {
    if n != 1 {
      SmallPower(n / 2);
    }
  }

  /** The chunks for a power of two have that size, or 8 bytes. */
  lemma ChunkForPower(size: nat, zi: nat)
    requires PowerOfTwo(size) && size < 16384 && InClass(size, zi)
    ensures ChunkSize(zi) == if size < 8 then 8 else size
  {
    SmallPower(size);
  }

  /** Which pages start at a multiple of a power of two. */
  lemma PagesAligned(m: int, size: nat)
    requires PowerOfTwo(size) && 0 < size
    ensures (m * PAGE_SIZE) % size == 0 <==> size <= PAGE_SIZE || m % (size / PAGE_SIZE) == 0
  {
    PageIsPower();
    if size <= PAGE_SIZE {
      MultipleOfPower(m, size);
    } else {
      PowersDivide(PAGE_SIZE, size);
      var k :| size == k * PAGE_SIZE;
      assert 0 < k && size / PAGE_SIZE == k;
      ScaledRemainder(m, k, PAGE_SIZE);
    }
  }

  lemma ScaledRemainder(m: int, k: int, c: int)
    requires 0 < k && 0 < c
    ensures 0 < k * c && (m * c) % (k * c) == m % k * c
  {
    var q, r := m / k, m % k;
    assert m == q * k + r;
    assert 0 < k * c by {
      Distribute(1, k - 1, c);
      NonNegative(k - 1, c);
    }
    assert m * c == q * (k * c) + r * c by {
      Distribute(q * k, r, c);
    }
    assert 0 <= r * c < k * c by {
      NonNegative(r, c);
      Distribute(r, k - r, c);
      Distribute(1, k - r - 1, c);
      NonNegative(k - r - 1, c);
    }
    RemainderOf(m * c, k * c, q, r * c);
  }

  lemma MultipleOfPower(pages: int, c: nat)
    requires PowerOfTwo(c) && PowerOfTwo(PAGE_SIZE) && 0 < c <= PAGE_SIZE
    ensures (pages * PAGE_SIZE) % c == 0
  {
    PowersDivide(c, PAGE_SIZE);
    var k :| PAGE_SIZE == k * c;
    assert pages * PAGE_SIZE == (pages * k) * c;
    RemainderOf(pages * PAGE_SIZE, c, pages * k, 0);
  }

  lemma PageIsPower()
    ensures PowerOfTwo(PAGE_SIZE)
  {
    assert PowerOfTwo(64) && PowerOfTwo(512) && PowerOfTwo(4096);
  }

  /** A chunk for a request of a power of two is aligned to the request exactly if that is at
      most a page or the zone starts at a multiple of it. */
  lemma ChunkAligned(zonePages: nat, p: int, z: Zone, live: set<int>, a: int, size: nat, originPage: int)
    requires ZoneOk(zonePages, p, z, live) && a in live
    requires PowerOfTwo(size) && size < 16384 && InClass(size, z.index)
    ensures 0 < size
    ensures (originPage * PAGE_SIZE + a) % size == 0 <==> size <= PAGE_SIZE || (originPage + p) % (size / PAGE_SIZE) == 0
  {
    hide PowerOfTwo, ChunkSize;
    Positive(size);
    ChunkForPower(size, z.index);
    IsChunkSize(zonePages, p, z, live);
    hide ZoneOk, InClass;
    Distribute(originPage, p, PAGE_SIZE);
    EightIsPower();
    AlignedLikeZone(zonePages, p, z, live, a, originPage * PAGE_SIZE);
    PagesAligned(originPage + p, z.chunk);
    if size < 8 {
      SmallPower(size);
      PartOfEight(originPage * PAGE_SIZE + a, size);
    }
  }

  lemma IsChunkSize(zonePages: nat, p: int, z: Zone, live: set<int>)
    requires ZoneOk(zonePages, p, z, live)
    ensures 0 <= z.index < NZONES && z.chunk == ChunkSize(z.index)
  {
  }

  lemma EightIsPower()
    ensures PowerOfTwo(8)
  {
  }

  lemma PartOfEight(x: int, size: nat)
    requires x % 8 == 0 && size in {1, 2, 4}
    ensures x % size == 0
  {
  }

  /** When a request of a power of two gets memory that is aligned to its size, in a heap that
      starts at page `originPage` of the address space: always up to the page size, and above
      it exactly if the page that serves it is aligned. The state before the call decides. */
  method MallocPower(heap: SlabHeap, size: nat, originPage: int) returns (ptr: int, ghost zi: nat)
    requires heap.Valid() && PowerOfTwo(size) && size <= MAX_SIZE
    modifies heap, heap.pages
    ensures heap.Valid() && 0 < size && (size < heap.zoneLimit ==> InClass(size, zi))
    ensures ptr == NULL <==> old(heap.Exhausted(size, zi))
    ensures ptr != NULL ==>
              ((originPage * PAGE_SIZE + ptr) % size == 0 <==>
               size <= PAGE_SIZE || (originPage + old(heap.ServingPage(size, zi))) % (size / PAGE_SIZE) == 0)
  {
    hide PowerOfTwo, ZoneOk, RoundUp, InClass, ChunkSize;
    hide PageHeap.Covers, PageHeap.Maximal, PageHeap.Linked, PageHeap.FirstFit, HeldOk, Tagged, AllKept, Listed;
    Positive(size);
    Limits(heap);
    ghost var z;
    ptr, z, zi := heap.Malloc(size);
    if ptr != NULL {
      if size < heap.zoneLimit {
        assert ptr in heap.live[z];
        ServedBy(heap, z);
        ChunkAligned(heap.zonePages, z, heap.zones[z], heap.live[z], ptr, size, originPage);
      } else {
        ghost var b := old(heap.ServingPage(size, zi));
        Distribute(originPage, b, PAGE_SIZE);
        PagesAligned(originPage + b, size);
      }
    }
  }

  lemma Positive(n: nat)
    requires PowerOfTwo(n)
    ensures 0 < n
  {
  }

  lemma Limits(heap: SlabHeap)
    requires heap.Valid()
    ensures heap.zoneLimit <= 16384
  {
  }

  lemma ServedBy(heap: SlabHeap, z: int)
    requires heap.Valid() && z in heap.live
    ensures z in heap.zones && ZoneOk(heap.zonePages, z, heap.zones[z], heap.live[z])
  {
  }

  /** The first request of 8 KiB in a fresh heap of at least 64 pages: it is served, and it is
      aligned to 8 KiB exactly if the usage table ends at an even page. In a heap of 64 pages
      whose own page is even it is not: the table takes one page. */
  method FirstMalloc(npages: nat, originPage: int) returns (heap: SlabHeap, ptr: int)
    requires 64 <= npages && npages * PAGE_SIZE < 0x1_0000_0000
    ensures fresh(heap) && ptr != NULL
    ensures (originPage * PAGE_SIZE + ptr) % 8192 == 0 <==> (originPage + RoundUp(npages * 4, PAGE_SIZE) / PAGE_SIZE) % 2 == 0
    ensures npages == 64 && originPage % 2 == 0 ==> (originPage * PAGE_SIZE + ptr) % 8192 != 0
  {
    hide PageHeap.Covers, PageHeap.Maximal, PageHeap.Linked, HeldOk, Tagged, AllKept, Listed, ZoneOk, ChunkSize;
    heap := new SlabHeap(npages);
    assert PowerOfTwo(8192) by {
      PageIsPower();
    }
    ghost var zi;
    ghost var runs := heap.pages.runs;
    assert runs == [PageHeap.Run(RoundUp(npages * 4, PAGE_SIZE) / PAGE_SIZE, npages - RoundUp(npages * 4, PAGE_SIZE) / PAGE_SIZE)];
    ptr, zi := MallocPower(heap, 8192, originPage);
  }
}

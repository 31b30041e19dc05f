/** The bytes of the small-memory heap, and the block headers of rt-thread/src/mem.c
    stored in them: magic and used flag in 16 bits each, next and prev in 32 bits each,
    least significant byte first. */
module RawMemory {
  import opened BlockData

  const HEADER: int := 12  // SIZEOF_STRUCT_MEM
  const HEAP_MAGIC: int := 0x1ea0
  const WORD_LIMIT: int := 0x1_0000_0000

  function Half(m: seq<Byte>, at: nat): (v: nat)
    requires at + 2 <= |m|
  {
    m[at] as int + 0x100 * (m[at + 1] as int)
  }

  function Word(m: seq<Byte>, at: nat): (v: nat)
    requires at + 4 <= |m|
  {
    m[at] as int + 0x100 * (m[at + 1] as int)
    + 0x1_0000 * (m[at + 2] as int) + 0x100_0000 * (m[at + 3] as int)
  }

  /** What the header at one offset says. */
  datatype Header = Header(used: bool, next: int, prev: int)

  ghost predicate Holds(m: seq<Byte>, at: int, h: Header) {
    && 0 <= at && at + HEADER <= |m|
    && Half(m, at) == HEAP_MAGIC
    && Half(m, at + 2) == (if h.used then 1 else 0)
    && Word(m, at + 4) == h.next
    && Word(m, at + 8) == h.prev
  }

  /** Only bytes of headers in `touched` differ between `m` and `m'`. */
  ghost predicate OnlyHeaders(m: seq<Byte>, m': seq<Byte>, touched: set<int>) {
    && |m'| == |m|
    && forall k {:trigger m'[k]} :: 0 <= k < |m| && (forall h :: h in touched ==> k < h || h + HEADER <= k) ==> m'[k] == m[k]
  }

  lemma HeaderKept(m: seq<Byte>, m': seq<Byte>, at: int, x: int, h: Header)
    requires OnlyHeaders(m, m', {at}) && Holds(m, x, h)
    requires x + HEADER <= at || at + HEADER <= x
    ensures Holds(m', x, h)
  {
    assert forall k :: x <= k < x + HEADER ==> m'[k] == m[k];
  }

  lemma OnlyHeadersTrans(a: seq<Byte>, b: seq<Byte>, c: seq<Byte>, s: set<int>, t: set<int>, u: set<int>)
    requires OnlyHeaders(a, b, s) && OnlyHeaders(b, c, t) && s <= u && t <= u
    ensures OnlyHeaders(a, c, u)
  {
    forall k {:trigger c[k]} | 0 <= k < |a| && forall h :: h in u ==> k < h || h + HEADER <= k
      ensures c[k] == a[k]
    {
      assert b[k] == a[k];
    }
  }

  lemma OnlyHeadersWiden(a: seq<Byte>, b: seq<Byte>, s: set<int>, u: set<int>)
    requires OnlyHeaders(a, b, s) && s <= u
    ensures OnlyHeaders(a, b, u)
  {
  }

  lemma OnlyHeadersSame(a: seq<Byte>, s: set<int>)
    ensures OnlyHeaders(a, a, s)
  {
  }

  method WriteHalf(memory: array<Byte>, at: nat, v: nat)
    requires at + 2 <= memory.Length && v < 0x1_0000
    modifies memory
    ensures Half(memory[..], at) == v
    ensures forall k :: 0 <= k < memory.Length && !(at <= k < at + 2) ==> memory[k] == old(memory[k])
  {
    memory[at] := v % 0x100;
    memory[at + 1] := v / 0x100;
  }

  lemma Bytes(v: nat)
    requires v < WORD_LIMIT
    ensures v / 0x100_0000 < 0x100
    ensures v == v % 0x100 + 0x100 * (v / 0x100 % 0x100) + 0x1_0000 * (v / 0x1_0000 % 0x100) + 0x100_0000 * (v / 0x100_0000)
  {
  }

  method WriteWord(memory: array<Byte>, at: nat, v: nat)
    requires at + 4 <= memory.Length && v < WORD_LIMIT
    modifies memory
    ensures Word(memory[..], at) == v
    ensures forall k :: 0 <= k < memory.Length && !(at <= k < at + 4) ==> memory[k] == old(memory[k])
  {
    Bytes(v);
    memory[at] := v % 0x100;
    memory[at + 1] := v / 0x100 % 0x100;
    memory[at + 2] := v / 0x1_0000 % 0x100;
    memory[at + 3] := v / 0x100_0000;
  }

  method ReadHalf(memory: array<Byte>, at: nat) returns (v: nat)
    requires at + 2 <= memory.Length
    ensures v == Half(memory[..], at)
  {
    v := memory[at] as int + 0x100 * (memory[at + 1] as int);
  }

  method ReadWord(memory: array<Byte>, at: nat) returns (v: nat)
    requires at + 4 <= memory.Length
    ensures v == Word(memory[..], at)
  {
    v := memory[at] as int + 0x100 * (memory[at + 1] as int)
         + 0x1_0000 * (memory[at + 2] as int) + 0x100_0000 * (memory[at + 3] as int);
  }

  method WriteHeader(memory: array<Byte>, at: nat, h: Header)
    requires at + HEADER <= memory.Length && 0 <= h.next < WORD_LIMIT && 0 <= h.prev < WORD_LIMIT
    modifies memory
    ensures Holds(memory[..], at, h)
    ensures OnlyHeaders(old(memory[..]), memory[..], {at})
  {
    WriteHalf(memory, at, HEAP_MAGIC);
    WriteHalf(memory, at + 2, if h.used then 1 else 0);
    WriteWord(memory, at + 4, h.next);
    WriteWord(memory, at + 8, h.prev);
  }
}

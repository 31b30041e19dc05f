/** The ready bitmaps: __rt_ffs of rt-thread/src/kservice.c and the two layouts of
    rt-thread/src/scheduler.c, one word for up to 32 priorities, and a word over 32 bytes for
    up to 256. */
module Bitmap {
  function Mask(n: bv8): bv32
    requires n < 32
  {
    (1 as bv32) << n
  }

  /** A priority as the C code compares it, promoted to an int. */
  function Rank(p: bv8): int {
    p as int
  }

  lemma RankOrder(p: bv8, q: bv8)
    ensures Rank(p) <= Rank(q) <==> p <= q
    ensures Rank(p) == Rank(q) ==> p == q
  {
  }

  /** Is bit `r` the lowest bit of `value`? */
  predicate Lowest(value: bv32, r: bv8) {
    r < 32 && value & Mask(r) != 0 && value & (Mask(r) - 1) == 0
  }

  /** One row of __lowest_bit_bitmap. Its sixteen rows differ in their first entry only. */
  function LowestInNibble(x: bv32): (r: bv8)
    requires 0 < x < 16
    ensures r < 4 && Lowest(x, r)
  {
    match x
    case 1 => 0 case 2 => 1 case 3 => 0 case 4 => 2 case 5 => 0 case 6 => 1 case 7 => 0 case 8 => 3
    case 9 => 0 case 10 => 1 case 11 => 0 case 12 => 2 case 13 => 0 case 14 => 1 case _ => 0
  }

  /** __lowest_bit_bitmap. */
  function LowestBit(x: bv32): (r: bv8)
    requires 0 < x < 256
    ensures r < 8 && Lowest(x, r)
  {
    if x & 0xF != 0 then LowestInNibble(x & 0xF) else 4 + LowestInNibble(x >> 4)
  }

  lemma FirstByte(value: bv32, r: bv8)
    requires r < 8 && Lowest(value & 0xFF, r)
    ensures Lowest(value, r + 0)
  {
  }

  lemma SecondByte(value: bv32, r: bv8)
    requires r < 8 && value & 0xFF == 0 && Lowest((value & 0xFF00) >> 8, r)
    ensures Lowest(value, r + 8)
  {
  }

  lemma ThirdByte(value: bv32, r: bv8)
    requires r < 8 && value & 0xFFFF == 0 && Lowest((value & 0xFF0000) >> 16, r)
    ensures Lowest(value, r + 16)
  {
  }

  lemma FourthByte(value: bv32, r: bv8)
    requires r < 8 && value & 0xFFFFFF == 0 && Lowest((value & 0xFF000000) >> 24, r)
    ensures Lowest(value, r + 24)
  {
  }

  /** __rt_ffs: bits are numbered from 1, and 0 means that there is none. */
  function Ffs(value: bv32): (r: bv8)
    ensures r == 0 <==> value == 0
    ensures 0 < r ==> Lowest(value, r - 1)
  {
    hide Lowest;
    if value == 0 then 0
    else if value & 0xFF != 0 then
      var b := LowestBit(value & 0xFF);
      FirstByte(value, b);
      b + 1
    else if value & 0xFF00 != 0 then
      var b := LowestBit((value & 0xFF00) >> 8);
      SecondByte(value, b);
      b + 9
    else if value & 0xFF0000 != 0 then
      var b := LowestBit((value & 0xFF0000) >> 16);
      ThirdByte(value, b);
      b + 17
    else
      var b := LowestBit((value & 0xFF000000) >> 24);
      FourthByte(value, b);
      b + 25
  }

  predicate Test(value: bv32, mask: bv32) {
    value & mask != 0
  }

  predicate Bit(value: bv32, i: bv8) {
    i < 32 && Test(value, Mask(i))
  }

  /** The row of a priority, and its place in the row. */
  function Row(p: bv8): (n: bv8)
    ensures n < 32
  {
    p >> 3
  }

  function Place(p: bv8): (n: bv8)
    ensures n < 8
  {
    p & 7
  }

  /** The lowest bit of a word, as the search uses it. */
  function First(v: bv32): bv8 {
    Ffs(v) - 1
  }

  function Join(row: bv8, place: bv8): bv8 {
    (row << 3) + place
  }

  function Raise(v: bv32, mask: bv32): bv32 {
    v | mask
  }

  function Lower(v: bv32, mask: bv32): bv32 {
    v & !mask
  }

  /** The priority attributes of a thread: number_mask and, in the wide layout, number and
      high_mask. */
  function Number(wide: bool, p: bv8): bv8 {
    if wide then Row(p) else 0
  }

  function NumberMask(wide: bool, p: bv8): bv32
    requires !wide ==> p < 32
  {
    if wide then Mask(Row(p)) else Mask(p)
  }

  function HighMask(wide: bool, p: bv8): bv32 {
    if wide then Mask(Place(p)) else 0
  }

  /** The index of a table, which is an 8-bit value. */
  datatype Index = Index(n: bv8)

  /** rt_thread_ready_priority_group and, with more than 32 priorities,
      rt_thread_ready_table, the bytes of which are kept by row number. */
  datatype Bits = Narrow(group: bv32) | Wide(group: bv32, table: map<Index, bv32>)
  {
    function Byte(n: bv8): bv32
      requires Wide?
    {
      if Index(n) in table then table[Index(n)] else 0
    }

    /** The updates of rt_schedule_insert_thread and rt_schedule_remove_thread. */
    function Set(number: bv8, numberMask: bv32, highMask: bv32): Bits {
      match this
      case Narrow(g) => Narrow(Raise(g, numberMask))
      case Wide(g, t) => Wide(Raise(g, numberMask), t[Index(number) := Raise(Byte(number), highMask)])
    }

    function Clear(number: bv8, numberMask: bv32, highMask: bv32): Bits {
      match this
      case Narrow(g) => Narrow(Lower(g, numberMask))
      case Wide(g, t) =>
        var byte := Lower(Byte(number), highMask);
        Wide(if byte == 0 then Lower(g, numberMask) else g, t[Index(number) := byte])
    }

    /** The search of _get_highest_priority_thread. */
    function Highest(): bv8 {
      match this
      case Narrow(g) => First(g)
      case Wide(g, _) => Join(First(g), First(Byte(First(g))))
    }

    /** The bits show exactly the priorities in `ready`. */
    ghost predicate Shows(ready: bv8 -> bool) {
      match this
      case Narrow(g) =>
        forall p: bv8 :: ready(p) <==> Bit(g, p)
      case Wide(g, _) =>
        && (forall p: bv8 :: ready(p) <==> Bit(Byte(Row(p)), Place(p)))
        && (forall n: bv8 :: n < 32 ==> Byte(n) < 256 && (Bit(g, n) <==> Byte(n) != 0))
    }
  }

  lemma MasksApart(p: bv8, q: bv8)
    requires p < 32 && q < 32
    ensures Test(Mask(p), Mask(q)) <==> p == q
  {
  }

  lemma TestRaised(v: bv32, m: bv32, x: bv32)
    ensures Test(Raise(v, m), x) <==> Test(v, x) || Test(m, x)
  {
    assert (v | m) & x == (v & x) | (m & x);
    EitherSet(v & x, m & x);
  }

  lemma EitherSet(a: bv32, b: bv32)
    ensures a | b != 0 <==> a != 0 || b != 0
  {
  }

  lemma TestLowered(v: bv32, m: bv32, x: bv32)
    ensures !Test(Lower(v, m), m)
    ensures !Test(m, x) ==> (Test(Lower(v, m), x) <==> Test(v, x))
  {
  }

  lemma IsBit(v: bv32, q: bv8)
    ensures Bit(v, q) <==> q < 32 && Test(v, Mask(q))
  {
    hide Mask, Test;
  }

  lemma BitChanges(v: bv32, p: bv8, q: bv8)
    requires p < 32
    ensures Bit(Raise(v, Mask(p)), q) <==> p == q || Bit(v, q)
    ensures Bit(Lower(v, Mask(p)), q) <==> p != q && Bit(v, q)
  {
    hide *;
    IsBit(v, q);
    IsBit(Raise(v, Mask(p)), q);
    IsBit(Lower(v, Mask(p)), q);
    if q < 32 {
      MasksApart(p, q);
      TestRaised(v, Mask(p), Mask(q));
      TestLowered(v, Mask(p), Mask(q));
    }
  }

  lemma ByteBits(v: bv32, r: bv8)
    requires v < 256 && r < 8
    ensures 0 < Raise(v, Mask(r)) < 256 && Lower(v, Mask(r)) < 256
  {
  }

  lemma BitNonzero(v: bv32, i: bv8)
    requires Bit(v, i)
    ensures v != 0
  {
  }

  lemma SamePriority(p: bv8, q: bv8)
    ensures p == q <==> Row(p) == Row(q) && Place(p) == Place(q)
    ensures Row(p) < Row(q) || (Row(p) == Row(q) && Place(p) <= Place(q)) ==> p <= q
  {
  }

  lemma Joined(row: bv8, place: bv8)
    requires row < 32 && place < 8
    ensures Row(Join(row, place)) == row && Place(Join(row, place)) == place
  {
  }

  lemma LeastBit(v: bv32, i: bv8)
    requires Bit(v, i)
    ensures Bit(v, First(v)) && First(v) <= i && First(v) < 32 && (v < 256 ==> First(v) < 8)
  {
    hide Ffs;
    BitNonzero(v, i);
    FfsLowest(v);
    LowestFirst(v, Ffs(v) - 1, i);
  }

  lemma FfsLowest(v: bv32)
    ensures v != 0 ==> Lowest(v, Ffs(v) - 1)
  {
  }

  lemma LowestFirst(v: bv32, r: bv8, i: bv8)
    requires Lowest(v, r) && Bit(v, i)
    ensures Bit(v, r) && r <= i && (v < 256 ==> r < 8)
  {
  }

  lemma FirstIsBit(v: bv32)
    requires v != 0
    ensures Bit(v, First(v)) && First(v) < 32
  {
    hide Ffs;
    FfsLowest(v);
  }

  lemma PlaceFits(p: bv8)
    ensures Row(p) < 32 && Place(p) < 8
  {
  }

  /** Queueing a thread of priority `p` adds `p` to what the bits show. */
  lemma SetShows(b: Bits, ready: bv8 -> bool, p: bv8)
    requires b.Shows(ready) && (b.Narrow? ==> p < 32)
    ensures b.Set(Number(b.Wide?, p), NumberMask(b.Wide?, p), HighMask(b.Wide?, p)).Shows(q => q == p || ready(q))
  {
    hide Mask, Bit, Row, Place, Raise, Lower;
    if b.Narrow? {
      forall q: bv8
        ensures q == p || ready(q) <==> Bit(Raise(b.group, Mask(p)), q)
      {
        BitChanges(b.group, p, q);
      }
    } else {
      var c := b.Set(Number(b.Wide?, p), NumberMask(b.Wide?, p), HighMask(b.Wide?, p));
      PlaceFits(p);
      ByteBits(b.Byte(Row(p)), Place(p));
      forall q: bv8
        ensures q == p || ready(q) <==> Bit(c.Byte(Row(q)), Place(q))
      {
        BitChanges(b.Byte(Row(p)), Place(p), Place(q));
        SamePriority(p, q);
      }
      forall n: bv8 | n < 32
        ensures c.Byte(n) < 256 && (Bit(c.group, n) <==> c.Byte(n) != 0)
      {
        BitChanges(b.group, Row(p), n);
      }
    }
  }

  lemma ClearedPlaces(b: Bits, ready: bv8 -> bool, p: bv8)
    requires b.Wide? && b.Shows(ready)
    ensures var c := b.Clear(Row(p), Mask(Row(p)), Mask(Place(p)));
      forall q: bv8 :: q != p && ready(q) <==> Bit(c.Byte(Row(q)), Place(q))
  {
    hide Mask, Bit, Row, Place, Raise, Lower;
    PlaceFits(p);
    var c := b.Clear(Row(p), Mask(Row(p)), Mask(Place(p)));
    forall q: bv8
      ensures q != p && ready(q) <==> Bit(c.Byte(Row(q)), Place(q))
    {
      BitChanges(b.Byte(Row(p)), Place(p), Place(q));
      SamePriority(p, q);
    }
  }

  lemma ClearedGroup(b: Bits, ready: bv8 -> bool, p: bv8)
    requires b.Wide? && b.Shows(ready)
    ensures var c := b.Clear(Row(p), Mask(Row(p)), Mask(Place(p)));
      forall n: bv8 :: n < 32 ==> c.Byte(n) < 256 && (Bit(c.group, n) <==> c.Byte(n) != 0)
  {
    hide Mask, Bit, Row, Place, Raise, Lower;
    PlaceFits(p);
    ByteBits(b.Byte(Row(p)), Place(p));
    ByteStaysSet(b.Byte(Row(p)), Place(p));
    var c := b.Clear(Row(p), Mask(Row(p)), Mask(Place(p)));
    forall n: bv8 | n < 32
      ensures c.Byte(n) < 256 && (Bit(c.group, n) <==> c.Byte(n) != 0)
    {
      BitChanges(b.group, Row(p), n);
    }
  }

  /** Clearing the attributes of `p` removes `p`, and nothing else, from what the bits show. */
  lemma ClearShows(b: Bits, ready: bv8 -> bool, p: bv8)
    requires b.Shows(ready) && (b.Narrow? ==> p < 32)
    ensures b.Clear(Number(b.Wide?, p), NumberMask(b.Wide?, p), HighMask(b.Wide?, p)).Shows(q => q != p && ready(q))
  {
    hide Mask, Bit, Row, Place, Raise, Lower;
    if b.Narrow? {
      forall q: bv8
        ensures q != p && ready(q) <==> Bit(Lower(b.group, Mask(p)), q)
      {
        BitChanges(b.group, p, q);
      }
    } else {
      ClearedPlaces(b, ready, p);
      ClearedGroup(b, ready, p);
    }
  }

  lemma ByteStaysSet(v: bv32, r: bv8)
    requires r < 32
    ensures Lower(v, Mask(r)) != 0 ==> v != 0
  {
  }

  /** In both layouts the search finds the most urgent ready priority, and the group is zero
      exactly when nothing is ready. */
  lemma HighestIsLeast(b: Bits, ready: bv8 -> bool)
    requires b.Shows(ready)
    ensures b.group == 0 <==> forall p: bv8 :: !ready(p)
    ensures forall p: bv8 :: ready(p) ==> ready(b.Highest()) && b.Highest() <= p
  {
    hide Mask, Bit, Row, Place, Join, First;
    forall p: bv8 | ready(p)
      ensures b.group != 0 && ready(b.Highest()) && b.Highest() <= p
    {
      if b.Narrow? {
        BitNonzero(b.group, p);
        LeastBit(b.group, p);
      } else {
        HighestOfWide(b, ready, p);
      }
    }
    if b.group != 0 {
      FirstIsBit(b.group);
      if b.Wide? {
        var n := First(b.group);
        FirstIsBit(b.Byte(n));
        LeastBit(b.Byte(n), First(b.Byte(n)));
        Joined(n, First(b.Byte(n)));
        assert ready(Join(n, First(b.Byte(n))));
      } else {
        assert ready(First(b.group));
      }
    }
  }

  /** What the wide layout shows of one priority, and of one row. */
  lemma ShownAt(b: Bits, ready: bv8 -> bool, p: bv8)
    requires b.Wide? && b.Shows(ready)
    ensures ready(p) <==> Bit(b.Byte(Row(p)), Place(p))
    ensures b.Byte(Row(p)) < 256 && (Bit(b.group, Row(p)) <==> b.Byte(Row(p)) != 0)
  {
    hide Mask, Bit, Row, Place;
  }

  lemma ShownRow(b: Bits, ready: bv8 -> bool, n: bv8)
    requires b.Wide? && b.Shows(ready) && n < 32
    ensures b.Byte(n) < 256 && (Bit(b.group, n) <==> b.Byte(n) != 0)
  {
    hide Mask, Bit, Row, Place;
  }

  lemma HighestIs(b: Bits)
    requires b.Wide?
    ensures b.Highest() == Join(First(b.group), First(b.Byte(First(b.group))))
  {
    hide First, Join;
  }

  lemma JoinedBelow(n: bv8, m: bv8, p: bv8)
    requires n < 32 && m < 8 && n <= Row(p) && (n == Row(p) ==> m <= Place(p))
    ensures Row(Join(n, m)) == n && Place(Join(n, m)) == m && Join(n, m) <= p
  {
  }

  /** The search finds a row no higher than that of any ready priority, with a byte set. */
  lemma RowFound(b: Bits, ready: bv8 -> bool, p: bv8)
    requires b.Wide? && b.Shows(ready) && ready(p)
    ensures b.group != 0 && First(b.group) <= Row(p) && First(b.group) < 32
    ensures b.Byte(First(b.group)) != 0 && b.Byte(First(b.group)) < 256
    ensures Bit(b.Byte(Row(p)), Place(p))
  {
    hide *;
    ShownAt(b, ready, p);
    BitNonzero(b.Byte(Row(p)), Place(p));
    BitNonzero(b.group, Row(p));
    LeastBit(b.group, Row(p));
    ShownRow(b, ready, First(b.group));
  }

  lemma HighestOfWide(b: Bits, ready: bv8 -> bool, p: bv8)
    requires b.Wide? && b.Shows(ready) && ready(p)
    ensures b.group != 0 && ready(b.Highest()) && b.Highest() <= p
  {
    hide *;
    RowFound(b, ready, p);
    HighestIs(b);
    var n := First(b.group);
    FirstIsBit(b.Byte(n));
    var m := First(b.Byte(n));
    LeastBit(b.Byte(n), m);
    if n == Row(p) {
      LeastBit(b.Byte(n), Place(p));
    }
    JoinedBelow(n, m, p);
    ShownAt(b, ready, Join(n, m));
  }

  /** The two layouts give the same answer. */
  lemma SameAnswer(narrow: Bits, wide: Bits, ready: bv8 -> bool, p: bv8)
    requires narrow.Narrow? && wide.Wide? && narrow.Shows(ready) && wide.Shows(ready) && ready(p)
    ensures narrow.Highest() == wide.Highest()
  {
    HighestIsLeast(narrow, ready);
    HighestIsLeast(wide, ready);
  }

  lemma ShowsSame(b: Bits, ready: bv8 -> bool, ready': bv8 -> bool)
    requires b.Shows(ready) && forall p: bv8 :: ready(p) == ready'(p)
    ensures b.Shows(ready')
  {
  }
}

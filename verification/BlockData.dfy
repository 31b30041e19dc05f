/** The data bytes of the blocks of a pool, behind their headers of `hd` bytes. */
module BlockData {
  type Byte = b: int | 0 <= b < 256

  /** The `n` data bytes behind the header at `b` are the same in `m` and `m'`. */
  ghost predicate SameData(m: seq<Byte>, m': seq<Byte>, b: int, n: int, hd: int) {
    |m'| == |m| && forall k {:trigger m'[k]} :: 0 <= k < |m| && b + hd <= k < b + hd + n ==> m'[k] == m[k]
  }

  ghost predicate Undisturbed(m: seq<Byte>, m': seq<Byte>, live: map<int, int>, hd: int) {
    forall b :: b in live ==> SameData(m, m', b, live[b], hd)
  }

  lemma UndisturbedFewer(m: seq<Byte>, m': seq<Byte>, live: map<int, int>, fewer: map<int, int>, hd: int)
    requires Undisturbed(m, m', live, hd)
    requires forall b :: b in fewer ==> b in live && fewer[b] <= live[b]
    ensures Undisturbed(m, m', fewer, hd)
  {
    forall b | b in fewer
      ensures SameData(m, m', b, fewer[b], hd)
    {
      assert SameData(m, m', b, live[b], hd);
    }
  }

  lemma UndisturbedTrans(m0: seq<Byte>, m1: seq<Byte>, m2: seq<Byte>, live: map<int, int>, hd: int)
    requires Undisturbed(m0, m1, live, hd) && Undisturbed(m1, m2, live, hd)
    ensures Undisturbed(m0, m2, live, hd)
  {
    forall b | b in live
      ensures SameData(m0, m2, b, live[b], hd)
    {
      assert SameData(m0, m1, b, live[b], hd) && SameData(m1, m2, b, live[b], hd);
      forall k {:trigger m2[k]} | 0 <= k < |m0| && b + hd <= k < b + hd + live[b]
        ensures m2[k] == m0[k]
      {
        assert m1[k] == m0[k];
      }
    }
  }

  lemma UndisturbedSame(m: seq<Byte>, m': seq<Byte>, live: map<int, int>, b: int, n: int, hd: int)
    requires Undisturbed(m, m', live, hd) && b in live && 0 <= n <= live[b] && 0 <= b && 0 <= hd && b + hd + n <= |m|
    ensures SameBytes(m, b, m', b, n, hd)
  {
    assert SameData(m, m', b, live[b], hd);
    assert m'[b + hd..b + hd + n] == m[b + hd..b + hd + n];
  }

  lemma NothingDisturbed(m: seq<Byte>, live: map<int, int>, hd: int)
    ensures Undisturbed(m, m, live, hd)
  {
  }

  /** The first `n` data bytes behind the header at `b` in `m` are those behind `b'` in `m'`. */
  ghost predicate SameBytes(m: seq<Byte>, b: int, m': seq<Byte>, b': int, n: int, hd: int) {
    && 0 <= hd && 0 <= n && 0 <= b && 0 <= b' && b + hd + n <= |m| && b' + hd + n <= |m'|
    && m'[b' + hd..b' + hd + n] == m[b + hd..b + hd + n]
  }

  lemma SameBytesKept(m0: seq<Byte>, a: int, m1: seq<Byte>, m2: seq<Byte>, b: int, m3: seq<Byte>, n: int,
                      live0: map<int, int>, live1: map<int, int>, hd: int)
    requires Undisturbed(m0, m1, live0, hd) && a in live0 && n <= live0[a]
    requires SameBytes(m1, a, m2, b, n, hd)
    requires Undisturbed(m2, m3, live1, hd) && b in live1 && n <= live1[b]
    ensures SameBytes(m0, a, m3, b, n, hd)
  {
    assert SameData(m0, m1, a, live0[a], hd) && SameData(m2, m3, b, live1[b], hd);
    assert m1[a + hd..a + hd + n] == m0[a + hd..a + hd + n];
    assert m3[b + hd..b + hd + n] == m2[b + hd..b + hd + n];
  }

  /** The k-th data byte of a block that was moved, and of one that was left alone. */
  lemma MovedByte(m: seq<Byte>, b: int, m': seq<Byte>, b': int, n: int, hd: int, k: int)
    requires SameBytes(m, b, m', b', n, hd) && 0 <= k < n
    ensures 0 <= b + hd + k < |m| && 0 <= b' + hd + k < |m'| && m'[b' + hd + k] == m[b + hd + k]
  {
    assert m'[b' + hd..b' + hd + n][k] == m[b + hd..b + hd + n][k];
  }

  lemma LiveByte(m: seq<Byte>, m': seq<Byte>, live: map<int, int>, hd: int, b: int, k: int)
    requires Undisturbed(m, m', live, hd) && b in live && 0 <= k < live[b] && 0 <= b + hd + k < |m|
    ensures |m'| == |m| && m'[b + hd + k] == m[b + hd + k]
  {
    assert SameData(m, m', b, live[b], hd);
  }

  /** rt_memcpy between two ranges that do not overlap. */
  method CopyBytes(memory: array<Byte>, dst: nat, src: nat, n: nat)
    requires dst + n <= memory.Length && src + n <= memory.Length && (dst + n <= src || src + n <= dst)
    modifies memory
    ensures memory[dst..dst + n] == old(memory[src..src + n])
    ensures forall j :: 0 <= j < memory.Length && !(dst <= j < dst + n) ==> memory[j] == old(memory[j])
  {
    for k := 0 to n
      invariant forall j :: dst <= j < dst + k ==> memory[j] == old(memory[j - dst + src])
      invariant forall j :: 0 <= j < memory.Length && !(dst <= j < dst + k) ==> memory[j] == old(memory[j])
    {
      memory[dst + k] := memory[src + k];
    }
  }
}

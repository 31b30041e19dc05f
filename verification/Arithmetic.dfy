/** A few facts about products and remainders. */
module Arithmetic {
  function Max(a: int, b: int): int {
    if a < b then b else a
  }

  function Min(a: int, b: int): int {
    if a < b then a else b
  }

  lemma MinFacts(a: int, b: int)
    ensures Min(a, b) == (if a < b then a else b) && Min(a, b) <= a && Min(a, b) <= b
  {
  }

  lemma OnlyZeroFits(d: int, c: int, e: int)
    requires d * c == e && -c < e < c
    ensures d == 0
  {
    assert 0 < d ==> 0 <= (d - 1) * c;
    assert d < 0 ==> 0 <= (-1 - d) * c;
  }

  lemma RemainderOf(y: int, c: int, q: int, r: int)
    requires 0 <= r < c && y == q * c + r
    ensures y % c == r
  {
    var k, e := y / c, y % c;
    assert y == k * c + e && (q - k) * c == e - r;
    OnlyZeroFits(q - k, c, e - r);
  }

  lemma SameRemainder(x: int, k: int, c: int)
    requires 0 < c
    ensures (x + k * c) % c == x % c
  {
    var q := x / c;
    assert x == q * c + x % c;
    assert x + k * c == (q + k) * c + x % c;
    RemainderOf(x + k * c, c, q + k, x % c);
  }

  lemma NonNegative(a: nat, b: nat)
    ensures 0 <= a * b
  {
  }

  lemma Quotient(a: int, c: int)
    requires 0 < c
    ensures a / c * c <= a < (a / c + 1) * c
  {
  }

  lemma Distribute(q: int, i: int, c: int)
    ensures (q + i) * c == q * c + i * c
  {
  }

  /** No multiple of `c` lies strictly between two that follow each other. */
  lemma Between(a: int, b: int, c: int)
    requires 0 < c && a % c == 0 && a - c < b < a
    ensures b % c != 0
  {
    if b % c == 0 {
      var m, n := a / c, b / c;
      assert a == m * c && b == n * c;
      OnlyZeroFits(m - n, c, a - b);
    }
  }
}

/** The few facts about remainders that the block arithmetic needs. */
module Arith {
  lemma MulBound(d: int, c: nat)
    ensures d > 0 ==> d * c >= c
    ensures d < 0 ==> d * c <= 0 - c
  {
  }

  lemma ModUnique(c: nat, x: nat, q: nat, r: nat)
    requires c > 0 && r < c && x == q * c + r
    ensures x % c == r && x / c == q
  {
    var d := x / c - q;
    assert d * c == r - x % c by {
      assert x == (x / c) * c + x % c;
      assert d * c == (x / c) * c - q * c;
    }
    MulBound(d, c);
  }

  lemma ModAdd(c: nat, s: nat)
    requires c > 0
    ensures (s + c) % c == s % c && (s + c) / c == s / c + 1
  {
    assert s == (s / c) * c + s % c;
    assert s + c == (s / c + 1) * c + s % c;
    ModUnique(c, s + c, s / c + 1, s % c);
  }

  lemma MulMono(x: int, y: int, c: nat)
    ensures x <= y ==> x * c <= y * c
    ensures x < y ==> x * c + c <= y * c
  {
    if x <= y { assert y * c == x * c + (y - x) * c; MulBound(y - x, c); }
  }

  /** The number of blocks of `c` that cover `n`. */
  lemma CeilBounds(n: nat, c: nat)
    requires c > 0
    ensures var k := (n + c - 1) / c; k >= 0 && n <= k * c && (n > 0 ==> k > 0 && (k - 1) * c < n)
  {
    var k := (n + c - 1) / c;
    assert n + c - 1 == k * c + (n + c - 1) % c;
    if n > 0 { ModUnique(c, n - 1, (n - 1) / c, (n - 1) % c); ModAdd(c, n - 1); }
  }
}

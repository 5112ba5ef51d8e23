/** Files cut into blocks of a fixed size. */
module Blocks {
  import opened Arith
  import opened Bytes

  /** The offset of block `i`. */
  function Off(i: nat, bs: nat): nat {
    i * bs
  }

  lemma OffIs(n: nat, size: nat)
    ensures Off(n, size) == n * size
  {
  }

  lemma OffMono(i: nat, j: nat, bs: nat)
    ensures i <= j ==> Off(i, bs) <= Off(j, bs)
    ensures i < j ==> Off(i, bs) + bs <= Off(j, bs)
  {
    MulMono(i, j, bs);
  }

  lemma OffNext(i: nat, bs: nat)
    ensures Off(0, bs) == 0 && Off(i + 1, bs) == Off(i, bs) + bs
  {
  }

  lemma OffDiff(s: nat, e: nat, bs: nat)
    requires s <= e
    ensures Off(s, bs) + Off(e - s, bs) == Off(e, bs)
  {
  }

  function BlockCount(n: nat, bs: nat): nat
    requires bs > 0
  {
    CeilBounds(n, bs);
    (n + bs - 1) / bs
  }

  lemma BlockCountBounds(n: nat, bs: nat)
    requires bs > 0
    ensures var k := BlockCount(n, bs); n <= Off(k, bs) && (n > 0 <==> k > 0) && (n > 0 ==> Off(k - 1, bs) < n)
  {
    CeilBounds(n, bs);
  }

  /** Block `i` exists exactly when it starts inside the file. */
  lemma InsideIff(total: nat, bs: nat, i: nat)
    requires bs > 0
    ensures Off(i, bs) < total <==> i < BlockCount(total, bs)
  {
    hide Off, BlockCount;
    BlockCountBounds(total, bs);
    var k := BlockCount(total, bs);
    OffNext(0, bs);
    if i < k { OffMono(i, k - 1, bs); } else { OffMono(k, i, bs); }
  }

  lemma BlockOf(p: nat, bs: nat) returns (i: nat)
    requires bs > 0
    ensures Off(i, bs) <= p < Off(i, bs) + bs
  {
    i := p / bs;
    assert p == i * bs + p % bs;
  }

  /** The bytes of `x` from `off` on, at most `bs` of them. */
  function Slice(x: Word, off: nat, bs: nat): Word {
    if off >= |x| then [] else if off + bs <= |x| then x[off..off + bs] else x[off..]
  }

  lemma SliceIs(x: Word, off: nat, bs: nat)
    requires off <= |x|
    ensures Slice(x, off, bs) == x[off..Min(off + bs, |x|)]
  {
  }

  lemma SliceAt(x: Word, off: nat, bs: nat, p: nat)
    requires off <= p < off + bs
    ensures p < |x| <==> p - off < |Slice(x, off, bs)|
    ensures p < |x| ==> Slice(x, off, bs)[p - off] == x[p]
  {
  }
}

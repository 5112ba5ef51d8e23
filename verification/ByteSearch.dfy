/** `find_byte` and `count_byte`: blocks of 32 or 64 lanes through a compare mask, then the tail. */
module ByteSearch {
  import opened Bytes
  import opened SimdScan

  function Width(isa: Isa): nat {
    match isa
    case Scalar => 0
    case Avx2 => 32
    case Avx512 => 64
  }

  /** Count trailing zeros. */
  method TrailingZeros(m: bv64) returns (j: nat)
    requires m != 0
    ensures j < 64 && Bit(m, j) && forall k: nat | k < j :: !Bit(m, k)
  {
    hide Bit, AnyFrom;
    AnyFromZero(m);
    j := 0;
    while !Bit(m, j)
      invariant j < 64 && AnyFrom(m, j) && forall k: nat | k < j :: !Bit(m, k)
      decreases 64 - j
    {
      AnyFromNext(m, j);
      j := j + 1;
    }
  }

  /** The first hit of a block is its lowest set bit. */
  lemma FirstInBlock(text: Word, i: nat, w: nat, b: byte, m: bv64, j: nat)
    requires w <= 64 && i + w <= |text| && IsMask(m, EqLanes(text[i..i + w], b))
    requires j < 64 && Bit(m, j) && forall k: nat | k < j :: !Bit(m, k)
    ensures j < w && text[i + j] == b && forall k | i <= k < i + j :: text[k] != b
  {
    hide Bit;
    var block := text[i..i + w];
    forall k | i <= k < i + j ensures text[k] != b {
      assert !Bit(m, k - i);
      assert block[k - i] == text[k];
    }
  }

  lemma NoneInBlock(text: Word, i: nat, w: nat, b: byte, m: bv64)
    requires w <= 64 && i + w <= |text| && IsMask(m, EqLanes(text[i..i + w], b)) && m == 0
    ensures forall k | i <= k < i + w :: text[k] != b
  {
    var block := text[i..i + w];
    ZeroMask(m, EqLanes(block, b));
    forall k | i <= k < i + w ensures text[k] != b { assert block[k - i] == text[k]; }
  }

  /** The null pointer is `hi`. Every dispatch target finds the scalar result. */
  method FindByteFast(text: Word, lo: nat, hi: nat, b: byte, isa: Isa) returns (r: nat)
    requires lo <= hi <= |text|
    ensures r == FindByte(text, lo, hi, b)
  {
    hide Bit, IsMask, MoveMask, FindByte;
    var i, w := lo, Width(isa);
    while w != 0 && i + w <= hi
      invariant lo <= i <= hi && forall k | lo <= k < i :: text[k] != b
      decreases hi - i
    {
      MoveMaskIs(EqLanes(text[i..i + w], b));
      var mask := MoveMask(EqLanes(text[i..i + w], b));
      if mask != 0 {
        var j := TrailingZeros(mask);
        FirstInBlock(text, i, w, b, mask, j);
        FindByteUnique(text, lo, hi, b, i + j);
        return i + j;
      }
      NoneInBlock(text, i, w, b, mask);
      i := i + w;
    }
    while i < hi
      invariant lo <= i <= hi && forall k | lo <= k < i :: text[k] != b
    {
      if text[i] == b {
        FindByteUnique(text, lo, hi, b, i);
        return i;
      }
      i := i + 1;
    }
    FindByteUnique(text, lo, hi, b, hi);
    r := hi;
  }

  // ---------------------------------------------------------------- counting

  /** The set bits below `n`. */
  function PopCount(m: bv64, n: nat): (c: nat)
    requires n <= 64
    ensures c <= n
  {
    if n == 0 then 0 else PopCount(m, n - 1) + if Bit(m, n - 1) then 1 else 0
  }

  /** A mask has as many set bits as the block has hits; the lanes above the block are clear. */
  lemma {:induction false} PopCountHits(m: bv64, block: Word, b: byte, n: nat)
    requires |block| <= 64 && n <= 64 && IsMask(m, EqLanes(block, b))
    ensures PopCount(m, n) == multiset(block[..Min(n, |block|)])[b]
  {
    hide Bit;
    if n > 0 {
      PopCountHits(m, block, b, n - 1);
      assert Bit(m, n - 1) <==> n - 1 < |block| && EqLanes(block, b)[n - 1];
      if n <= |block| { assert block[..n] == block[..n - 1] + [block[n - 1]]; }
    }
  }

  /** How often `b` occurs in text[lo..hi). */
  ghost function Occurrences(text: Word, lo: nat, hi: nat, b: byte): nat
    requires lo <= hi <= |text|
  {
    multiset(text[lo..hi])[b]
  }

  lemma CountSplit(text: Word, lo: nat, i: nat, j: nat, b: byte)
    requires lo <= i <= j <= |text|
    ensures Occurrences(text, lo, j, b) == Occurrences(text, lo, i, b) + Occurrences(text, i, j, b)
  {
    assert text[lo..j] == text[lo..i] + text[i..j];
  }

  lemma CountOne(text: Word, i: nat, b: byte)
    requires i < |text|
    ensures Occurrences(text, i, i + 1, b) == if text[i] == b then 1 else 0
  {
    assert text[i..i + 1] == [text[i]];
  }

  lemma CountBlock(text: Word, i: nat, w: nat, b: byte, m: bv64)
    requires w <= 64 && i + w <= |text| && IsMask(m, EqLanes(text[i..i + w], b))
    ensures PopCount(m, 64) == Occurrences(text, i, i + w, b)
  {
    var block := text[i..i + w];
    PopCountHits(m, block, b, 64);
    assert block[..Min(64, |block|)] == block;
  }

  lemma CountNone(text: Word, i: nat, b: byte)
    requires i <= |text|
    ensures Occurrences(text, i, i, b) == 0
  {
  }

  method CountByteFast(text: Word, lo: nat, hi: nat, b: byte, isa: Isa) returns (count: nat)
    requires lo <= hi <= |text|
    ensures count == multiset(text[lo..hi])[b]
  {
    hide Bit, IsMask, MoveMask, PopCount, Occurrences;
    count := 0;
    var i, w := lo, Width(isa);
    CountNone(text, lo, b);
    while w != 0 && i + w <= hi
      invariant lo <= i <= hi && count == Occurrences(text, lo, i, b)
      decreases hi - i
    {
      MoveMaskIs(EqLanes(text[i..i + w], b));
      var mask := MoveMask(EqLanes(text[i..i + w], b));
      CountBlock(text, i, w, b, mask);
      CountSplit(text, lo, i, i + w, b);
      count := count + PopCount(mask, 64);
      i := i + w;
    }
    while i < hi
      invariant lo <= i <= hi && count == Occurrences(text, lo, i, b)
    {
      CountSplit(text, lo, i, i + 1, b);
      CountOne(text, i, b);
      if text[i] == b { count := count + 1; }
      i := i + 1;
    }
    CountIs(text, lo, hi, b);
  }

  lemma CountIs(text: Word, lo: nat, hi: nat, b: byte)
    requires lo <= hi <= |text|
    ensures Occurrences(text, lo, hi, b) == multiset(text[lo..hi])[b]
  {
  }
}

/** The 64-bit lane masks of the scanners, and the block forms of byte search and byte count.
    A vector comparison followed by a move-mask is given its per-lane meaning, `MoveMask`; the
    scalar loops and the 32+32 lane combinations around it are proved equal to it. */
module SimdScan {
  import opened Bytes

  // ---------------------------------------------------------------- bits of a word

  /** A lane number as a shift amount. */
  function Lane(i: nat): bv64 {
    if i == 0 then 0 else Lane(i - 1) + 1
  }

  lemma {:induction false} LaneIs(i: nat)
    requires i < 64
    ensures Lane(i) < 64 && Lane(i) as nat == i
  {
    if i != 0 { LaneIs(i - 1); }
  }

  lemma LaneDistinct(i: nat, j: nat)
    requires i < 64 && j < 64
    ensures Lane(i) < 64 && Lane(j) < 64 && (Lane(i) == Lane(j) <==> i == j)
  {
    LaneIs(i);
    LaneIs(j);
  }

  predicate BitAt(m: bv64, s: bv64)
    requires s < 64
  {
    (m >> s) & 1 == 1
  }

  /** Bit `i` of `m`. */
  predicate Bit(m: bv64, i: nat)
    requires i < 64
  {
    LaneIs(i);
    BitAt(m, Lane(i))
  }

  /** `m | (1 << i)`. */
  function WithBit(m: bv64, i: nat): bv64
    requires i < 64
  {
    LaneIs(i);
    m | (1 << Lane(i))
  }

  lemma OneBitShift(m: bv64, s: bv64, t: bv64)
    requires s < 64 && t < 64
    ensures BitAt(m | (1 << s), t) <==> s == t || BitAt(m, t)
  {
  }

  lemma WithBitAt(m: bv64, i: nat, j: nat)
    requires i < 64 && j < 64
    ensures Bit(WithBit(m, i), j) <==> i == j || Bit(m, j)
  {
    hide BitAt;
    LaneDistinct(i, j);
    OneBitShift(m, Lane(i), Lane(j));
  }

  lemma XorShift(m: bv64, n: bv64, s: bv64)
    requires s < 64
    ensures BitAt(m ^ n, s) <==> BitAt(m, s) != BitAt(n, s)
  {
  }

  lemma XorAt(m: bv64, n: bv64, i: nat)
    requires i < 64
    ensures Bit(m ^ n, i) <==> Bit(m, i) != Bit(n, i)
  {
    hide BitAt;
    LaneIs(i);
    XorShift(m, n, Lane(i));
  }

  // ---------------------------------------------------------------- the lowest set bit

  predicate AnyAt(m: bv64, s: bv64)
    requires s < 64
  {
    m >> s != 0
  }

  lemma ShiftOnce(m: bv64, s: bv64)
    requires s < 64 && AnyAt(m, s) && !BitAt(m, s)
    ensures s < 63 && AnyAt(m, s + 1)
  {
  }

  /** Some bit of `m` at or above `i` is set. */
  predicate AnyFrom(m: bv64, i: nat)
    requires i < 64
  {
    LaneIs(i);
    AnyAt(m, Lane(i))
  }

  lemma AnyFromNext(m: bv64, i: nat)
    requires i < 64 && AnyFrom(m, i) && !Bit(m, i)
    ensures i < 63 && AnyFrom(m, i + 1)
  {
    hide BitAt, AnyAt;
    LaneIs(i);
    ShiftOnce(m, Lane(i));
    assert Lane(i) as nat < 63;
  }

  lemma AnyFromZero(m: bv64)
    ensures AnyFrom(m, 0) <==> m != 0
  {
  }

  /** Count trailing zeros: the lowest set bit at or above `i`. */
  lemma {:induction false} LowestBit(m: bv64, i: nat) returns (j: nat)
    requires i < 64 && AnyFrom(m, i)
    ensures i <= j < 64 && Bit(m, j)
    ensures forall k: nat | i <= k < j :: !Bit(m, k)
    decreases 64 - i
  {
    hide Bit, AnyFrom;
    if Bit(m, i) {
      j := i;
    } else {
      AnyFromNext(m, i);
      j := LowestBit(m, i + 1);
    }
  }

  // ---------------------------------------------------------------- masks as lanes

  ghost predicate IsMask(m: bv64, lanes: seq<bool>) {
    forall i: nat | i < 64 :: Bit(m, i) <==> i < |lanes| && lanes[i]
  }

  lemma NoLanes()
    ensures IsMask(0, [])
  {
  }

  /** `m |= 1 << i`, the step of every scalar mask loop. */
  lemma SetLane(m: bv64, lanes: seq<bool>, on: bool)
    requires |lanes| < 64 && IsMask(m, lanes)
    ensures IsMask(if on then WithBit(m, |lanes|) else m, lanes + [on])
  {
    hide WithBit, Bit;
    if on {
      forall j: nat | j < 64
        ensures Bit(WithBit(m, |lanes|), j) <==> j < |lanes| + 1 && (lanes + [on])[j]
      {
        WithBitAt(m, |lanes|, j);
      }
    }
  }

  /** movemask(compare(...)): bit i is lane i. */
  function MoveMask(lanes: seq<bool>): (m: bv64)
    requires |lanes| <= 64
  {
    if lanes == [] then 0
    else
      var n := |lanes| - 1;
      if lanes[n] then WithBit(MoveMask(lanes[..n]), n) else MoveMask(lanes[..n])
  }

  lemma {:induction false} MoveMaskIs(lanes: seq<bool>)
    requires |lanes| <= 64
    ensures IsMask(MoveMask(lanes), lanes)
  {
    if lanes == [] {
      NoLanes();
    } else {
      hide WithBit;
      var n := |lanes| - 1;
      MoveMaskIs(lanes[..n]);
      SetLane(MoveMask(lanes[..n]), lanes[..n], lanes[n]);
      assert lanes[..n] + [lanes[n]] == lanes;
    }
  }

  lemma ZeroMask(m: bv64, lanes: seq<bool>)
    requires |lanes| <= 64 && IsMask(m, lanes)
    ensures m == 0 <==> forall i | 0 <= i < |lanes| :: !lanes[i]
  {
    AnyFromZero(m);
    if m != 0 {
      var t := LowestBit(m, 0);
    } else {
      forall i | 0 <= i < |lanes| ensures !lanes[i] { assert !Bit(0, i); }
    }
  }

  /** A mask is zero exactly when it has no bit. */
  lemma NoBits(m: bv64)
    ensures m == 0 <==> forall i: nat | i < 64 :: !Bit(m, i)
  {
    hide Bit;
    AnyFromZero(m);
    if m != 0 {
      var t := LowestBit(m, 0);
    } else {
      NoLanes();
    }
  }

  lemma XorBits(m: bv64, n: bv64) returns (x: bv64)
    ensures x == 0 <==> m == n
    ensures forall i: nat | i < 64 :: Bit(x, i) <==> Bit(m, i) != Bit(n, i)
  {
    x := m ^ n;
    forall i: nat | i < 64 ensures Bit(x, i) <==> Bit(m, i) != Bit(n, i) { XorAt(m, n, i); }
  }

  /** A mask is determined by its lanes. */
  lemma MaskUnique(m: bv64, n: bv64, lanes: seq<bool>)
    requires IsMask(m, lanes) && IsMask(n, lanes)
    ensures m == n
  {
    hide Bit;
    var x := XorBits(m, n);
    AnyFromZero(x);
    if x != 0 {
      var t := LowestBit(x, 0);
    }
  }

  // ---------------------------------------------------------------- the 32- and 64-byte masks

  datatype ByteClass = PrintableByte | ZeroByte

  /** The instruction set a build and machine select. */
  datatype Isa = Scalar | Avx2 | Avx512

  predicate InClass(cls: ByteClass, b: byte) {
    match cls
    case PrintableByte => Printable(b)
    case ZeroByte => b == 0
  }

  function Lanes(cls: ByteClass, block: Word): (lanes: seq<bool>)
    ensures |lanes| == |block| && forall i | 0 <= i < |block| :: lanes[i] == InClass(cls, block[i])
  {
    if block == [] then [] else [InClass(cls, block[0])] + Lanes(cls, block[1..])
  }

  /** The vector compare of one lane: the range test is made of a maximum and a minimum. */
  predicate VectorLane(cls: ByteClass, b: byte) {
    match cls
    case PrintableByte => (if b > 0x20 then b else 0x20) == b && (if b < 0x7E then b else 0x7E) == b
    case ZeroByte => b == 0
  }

  function VectorLanes(cls: ByteClass, block: Word): (lanes: seq<bool>)
    ensures |lanes| == |block| && forall i | 0 <= i < |block| :: lanes[i] == VectorLane(cls, block[i])
  {
    if block == [] then [] else [VectorLane(cls, block[0])] + VectorLanes(cls, block[1..])
  }

  /** cmpeq(block, set1(t)) lane by lane. */
  function EqLanes(block: Word, t: byte): (lanes: seq<bool>)
    ensures |lanes| == |block| && forall i | 0 <= i < |block| :: lanes[i] == (block[i] == t)
  {
    if block == [] then [] else [block[0] == t] + EqLanes(block[1..], t)
  }

  lemma OrShift(m: bv64, n: bv64, s: bv64)
    requires s < 64
    ensures BitAt(m | n, s) <==> BitAt(m, s) || BitAt(n, s)
  {
  }

  lemma OrAt(m: bv64, n: bv64, i: nat)
    requires i < 64
    ensures Bit(m | n, i) <==> Bit(m, i) || Bit(n, i)
  {
    hide BitAt;
    LaneIs(i);
    OrShift(m, n, Lane(i));
  }

  lemma OrHighShift(m: bv64, n: bv64, s: bv64)
    requires s < 64
    ensures BitAt(m | (n << 32), s) <==> BitAt(m, s) || (s >= 32 && BitAt(n, s - 32))
  {
  }

  lemma LaneHigh(i: nat)
    requires i < 64
    ensures Lane(i) < 64 && (Lane(i) >= 32 <==> i >= 32)
    ensures i >= 32 ==> Lane(i - 32) == Lane(i) - 32
  {
    LaneIs(i);
    if i >= 32 {
      LaneSum(i - 32);
    }
  }

  lemma {:induction false} LaneSum(i: nat)
    ensures Lane(i + 32) == Lane(i) + 32
  {
    if i == 0 {
      assert Lane(32) == 32 by { LaneIs(32); }
    } else {
      LaneSum(i - 1);
    }
  }

  lemma OrHighAt(m: bv64, n: bv64, i: nat)
    requires i < 64
    ensures Bit(m | (n << 32), i) <==> Bit(m, i) || (i >= 32 && Bit(n, i - 32))
  {
    LaneHigh(i);
    hide BitAt;
    OrHighShift(m, n, Lane(i));
  }

  function OrLow(m: bv64, n: bv64): bv64 {
    m | n
  }

  function OrHigh(m: bv64, n: bv64): bv64 {
    m | (n << 32)
  }

  /** Or-ing a mask in, in place or moved to the upper half. */
  lemma OrBothAt(m: bv64, n: bv64, i: nat)
    requires i < 64
    ensures Bit(OrLow(m, n), i) <==> Bit(m, i) || Bit(n, i)
    ensures Bit(OrHigh(m, n), i) <==> Bit(m, i) || (i >= 32 && Bit(n, i - 32))
  {
    hide Bit;
    OrAt(m, n, i);
    OrHighAt(m, n, i);
  }

  lemma OrHighBits(m: bv64, n: bv64) returns (x: bv64)
    ensures x == m | (n << 32)
    ensures forall i: nat | i < 64 :: Bit(x, i) <==> Bit(m, i) || (i >= 32 && Bit(n, i - 32))
  {
    x := m | (n << 32);
    forall i: nat | i < 64 ensures Bit(x, i) <==> Bit(m, i) || (i >= 32 && Bit(n, i - 32)) { OrHighAt(m, n, i); }
  }

  /** Two 32-lane masks side by side. */
  lemma JoinHalves(m: bv64, n: bv64, lo: seq<bool>, hi: seq<bool>)
    requires |lo| == 32 && |hi| == 32 && IsMask(m, lo) && IsMask(n, hi)
    ensures IsMask(m | (n << 32), lo + hi)
  {
    hide Bit;
    var x := OrHighBits(m, n);
  }

  method Mask64Scalar(cls: ByteClass, block: Word) returns (mask: bv64)
    requires |block| == 64
    ensures IsMask(mask, Lanes(cls, block))
  {
    hide WithBit, Bit;
    mask := 0;
    NoLanes();
    ghost var lanes := Lanes(cls, block);
    for i := 0 to 64
      invariant IsMask(mask, lanes[..i])
    {
      SetLane(mask, lanes[..i], InClass(cls, block[i]));
      assert lanes[..i] + [lanes[i]] == lanes[..i + 1];
      if InClass(cls, block[i]) { mask := WithBit(mask, i); }
    }
    assert lanes[..64] == lanes;
  }

  /** Two 32-lane compares, the upper one shifted into place. */
  method Mask64Avx2(cls: ByteClass, block: Word) returns (mask: bv64)
    requires |block| == 64
    ensures IsMask(mask, VectorLanes(cls, block))
  {
    hide Bit, IsMask;
    var lo, hi := VectorLanes(cls, block[..32]), VectorLanes(cls, block[32..]);
    assert lo + hi == VectorLanes(cls, block);
    MoveMaskIs(lo);
    MoveMaskIs(hi);
    JoinHalves(MoveMask(lo), MoveMask(hi), lo, hi);
    mask := MoveMask(lo) | (MoveMask(hi) << 32);
  }

  /** `printable_mask64` and `zero_mask64`: every dispatch target computes the scalar mask. */
  method Mask64(cls: ByteClass, block: Word, isa: Isa) returns (mask: bv64)
    requires |block| == 64
    ensures IsMask(mask, Lanes(cls, block))
    ensures mask == MoveMask(Lanes(cls, block))
  {
    hide Bit, IsMask, MoveMask;
    ghost var lanes := VectorLanes(cls, block);
    assert lanes == Lanes(cls, block);
    MoveMaskIs(lanes);
    match isa {
      case Scalar => mask := Mask64Scalar(cls, block);
      case Avx2 => mask := Mask64Avx2(cls, block);
      case Avx512 => mask := MoveMask(VectorLanes(cls, block));
    }
    MaskUnique(mask, MoveMask(lanes), lanes);
  }

  // ---------------------------------------------------------------- reading a mask bit by bit

  lemma ShrShift(m: bv64, s: bv64)
    requires s < 63
    ensures BitAt(m >> 1, s) <==> BitAt(m, s + 1)
  {
  }

  lemma ShrAt(m: bv64, i: nat)
    requires i < 63
    ensures Bit(m >> 1, i) <==> Bit(m, i + 1)
  {
    LaneIs(i);
    LaneIs(i + 1);
    hide BitAt;
    assert Lane(i) as nat < 63;
    ShrShift(m, Lane(i));
  }

  lemma ShrBits(m: bv64) returns (x: bv64)
    ensures x == m >> 1
    ensures forall i: nat | i < 63 :: Bit(x, i) <==> Bit(m, i + 1)
  {
    x := m >> 1;
    forall i: nat | i < 63 ensures Bit(x, i) <==> Bit(m, i + 1) { ShrAt(m, i); }
  }

  lemma LowBit(m: bv64)
    ensures m & 1 == 1 <==> Bit(m, 0)
  {
  }
}

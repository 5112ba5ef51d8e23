/** The hashes of g-hash and g-recon: CRC32C by bytes, by 8-byte words and by table, and the two
    FNV-1a variants. All arithmetic is on bit-vectors. */
module Hash {
  import opened Bytes

  // ---------------------------------------------------------------- the CRC register

  /** The Castagnoli polynomial of section 12.1 of RFC 3720, bits reflected. */
  const POLY: bv32 := 0x82F6_3B78

  function Xor(c: bv32, d: bv32): bv32 {
    c ^ d
  }

  predicate Odd(c: bv32) {
    c & 1 == 1
  }

  function Half(c: bv32): bv32 {
    c >> 1
  }

  /** One message bit through the reflected shift register. */
  function BitStep(c: bv32): bv32 {
    if Odd(c) then Xor(Half(c), POLY) else Half(c)
  }

  /** Eight message bits. */
  function ByteStep(c: bv32): bv32 {
    BitStep(BitStep(BitStep(BitStep(BitStep(BitStep(BitStep(BitStep(c))))))))
  }

  /** The CRC instruction for one byte. */
  function Crc32U8(c: bv32, b: bv8): bv32 {
    ByteStep(Xor(c, b as bv32))
  }

  lemma XorHalf(c: bv32, d: bv32)
    ensures Half(Xor(c, d)) == Xor(Half(c), Half(d))
  {
  }

  lemma XorOdd(c: bv32, d: bv32)
    ensures Odd(Xor(c, d)) <==> Odd(c) != Odd(d)
  {
  }

  lemma RawAssoc(a: bv32, b: bv32, p: bv32)
    ensures a ^ (b ^ p) == (a ^ b) ^ p
  {
  }

  lemma XorAssoc(a: bv32, b: bv32, p: bv32)
    ensures Xor(a, Xor(b, p)) == Xor(Xor(a, b), p)
  {
    RawAssoc(a, b, p);
    assert Xor(b, p) == b ^ p && Xor(a, b) == a ^ b;
    assert Xor(a, b ^ p) == a ^ (b ^ p);
    assert Xor(a ^ b, p) == (a ^ b) ^ p;
  }

  lemma XorComm(a: bv32, b: bv32)
    ensures Xor(a, b) == Xor(b, a)
  {
  }

  lemma XorSwap(a: bv32, b: bv32, p: bv32)
    ensures Xor(Xor(a, p), b) == Xor(Xor(a, b), p)
  {
    hide Xor;
    XorAssoc(a, p, b);
    XorAssoc(a, b, p);
    XorComm(b, p);
  }

  lemma XorTwice(a: bv32, b: bv32)
    ensures Xor(Xor(a, b), b) == a
  {
  }

  lemma XorCancel(a: bv32, b: bv32, p: bv32)
    ensures Xor(Xor(a, p), Xor(b, p)) == Xor(a, b)
  {
    hide Xor;
    XorAssoc(Xor(a, p), b, p);
    XorSwap(a, b, p);
    XorTwice(Xor(a, b), p);
  }

  /** The step is linear over exclusive or. */
  lemma BitStepLinear(c: bv32, d: bv32)
    ensures BitStep(Xor(c, d)) == Xor(BitStep(c), BitStep(d))
  {
    hide Xor, Half, Odd;
    XorHalf(c, d);
    XorOdd(c, d);
    XorCancel(Half(c), Half(d), POLY);
    XorSwap(Half(c), Half(d), POLY);
    XorAssoc(Half(c), Half(d), POLY);
  }

  lemma ByteStepLinear(c: bv32, d: bv32)
    ensures ByteStep(Xor(c, d)) == Xor(ByteStep(c), ByteStep(d))
  {
    hide BitStep, Xor;
    BitStepLinear(c, d);
    var c, d := BitStep(c), BitStep(d);
    BitStepLinear(c, d);
    var c2, d2 := BitStep(c), BitStep(d);
    BitStepLinear(c2, d2);
    var c3, d3 := BitStep(c2), BitStep(d2);
    BitStepLinear(c3, d3);
    var c4, d4 := BitStep(c3), BitStep(d3);
    BitStepLinear(c4, d4);
    var c5, d5 := BitStep(c4), BitStep(d4);
    BitStepLinear(c5, d5);
    var c6, d6 := BitStep(c5), BitStep(d5);
    BitStepLinear(c6, d6);
    BitStepLinear(BitStep(c6), BitStep(d6));
  }

  /** A register whose low byte is clear is only shifted. */
  lemma ByteStepHigh(y: bv32)
    requires y >> 24 == 0
    ensures ByteStep(y << 8) == y
  {
  }

  /** Adding a shifted operand before eight steps adds the operand after them. */
  lemma ByteStepShifted(x: bv32, y: bv32)
    requires y >> 24 == 0
    ensures ByteStep(Xor(x, y << 8)) == Xor(ByteStep(x), y)
  {
    hide ByteStep, Xor;
    ByteStepLinear(x, y << 8);
    ByteStepHigh(y);
  }

  // ---------------------------------------------------------------- by table

  /** Entry `i` of the table of the reference code. */
  function TableEntry(i: bv8): bv32 {
    ByteStep(i as bv32)
  }

  function TableStep(c: bv32, b: bv8): bv32 {
    Xor(TableEntry(((c ^ (b as bv32)) & 0xFF) as bv8), c >> 8)
  }

  lemma SplitLow(c: bv32, b: bv8)
    ensures var i := ((c ^ (b as bv32)) & 0xFF) as bv8;
            Xor(c, b as bv32) == Xor(i as bv32, (c >> 8) << 8) && (c >> 8) >> 24 == 0
  {
  }

  /** One look-up is eight bit steps. */
  lemma TableIsByteStep(c: bv32, b: bv8)
    ensures TableStep(c, b) == Crc32U8(c, b)
  {
    hide ByteStep, Xor;
    SplitLow(c, b);
    var i := ((c ^ (b as bv32)) & 0xFF) as bv8;
    ByteStepShifted(i as bv32, c >> 8);
  }

  // ---------------------------------------------------------------- by words

  function Xor64(c: bv64, d: bv64): bv64 {
    c ^ d
  }

  predicate WideOdd(r: bv64) {
    r & 1 == 1
  }

  function WideHalf(r: bv64): bv64 {
    r >> 1
  }

  /** One of the 64 steps of the CRC instruction for words: the register first receives the
      remainder and the operand, then all 64 bits are shifted out. */
  function WideStep(r: bv64): bv64 {
    if WideOdd(r) then Xor64(WideHalf(r), Wide(POLY)) else WideHalf(r)
  }

  function WideByte(r: bv64): bv64 {
    WideStep(WideStep(WideStep(WideStep(WideStep(WideStep(WideStep(WideStep(r))))))))
  }

  function Wide(c: bv32): bv64 {
    c as bv64
  }

  function LowByte(w: bv64): bv8 {
    (w & 0xFF) as bv8
  }

  /** The CRC instruction for 64 bits. */
  function Crc32U64(c: bv32, w: bv64): bv64 {
    WideByte(WideByte(WideByte(WideByte(WideByte(WideByte(WideByte(WideByte(Xor64(Wide(c), w)))))))))
  }

  lemma XorHalf64(c: bv64, d: bv64)
    ensures WideHalf(Xor64(c, d)) == Xor64(WideHalf(c), WideHalf(d))
  {
  }

  lemma XorOdd64(c: bv64, d: bv64)
    ensures WideOdd(Xor64(c, d)) <==> WideOdd(c) != WideOdd(d)
  {
  }

  lemma RawAssoc64(a: bv64, b: bv64, p: bv64)
    ensures a ^ (b ^ p) == (a ^ b) ^ p
  {
  }

  lemma XorAssoc64(a: bv64, b: bv64, p: bv64)
    ensures Xor64(a, Xor64(b, p)) == Xor64(Xor64(a, b), p)
  {
    RawAssoc64(a, b, p);
    assert Xor64(b, p) == b ^ p && Xor64(a, b) == a ^ b;
    assert Xor64(a, b ^ p) == a ^ (b ^ p);
    assert Xor64(a ^ b, p) == (a ^ b) ^ p;
  }

  lemma XorComm64(a: bv64, b: bv64)
    ensures Xor64(a, b) == Xor64(b, a)
  {
  }

  lemma XorSwap64(a: bv64, b: bv64, p: bv64)
    ensures Xor64(Xor64(a, p), b) == Xor64(Xor64(a, b), p)
  {
    hide Xor64;
    XorAssoc64(a, p, b);
    XorAssoc64(a, b, p);
    XorComm64(b, p);
  }

  lemma XorTwice64(a: bv64, b: bv64)
    ensures Xor64(Xor64(a, b), b) == a
  {
  }

  lemma XorCancel64(a: bv64, b: bv64, p: bv64)
    ensures Xor64(Xor64(a, p), Xor64(b, p)) == Xor64(a, b)
  {
    hide Xor64;
    XorAssoc64(Xor64(a, p), b, p);
    XorSwap64(a, b, p);
    XorTwice64(Xor64(a, b), p);
  }

  lemma WideStepLinear(c: bv64, d: bv64)
    ensures WideStep(Xor64(c, d)) == Xor64(WideStep(c), WideStep(d))
  {
    hide Xor64, WideHalf, WideOdd, Wide;
    XorHalf64(c, d);
    XorOdd64(c, d);
    XorCancel64(WideHalf(c), WideHalf(d), Wide(POLY));
    XorSwap64(WideHalf(c), WideHalf(d), Wide(POLY));
    XorAssoc64(WideHalf(c), WideHalf(d), Wide(POLY));
  }

  lemma WideByteLinear(c: bv64, d: bv64)
    ensures WideByte(Xor64(c, d)) == Xor64(WideByte(c), WideByte(d))
  {
    hide WideStep, Xor64;
    WideStepLinear(c, d);
    var c, d := WideStep(c), WideStep(d);
    WideStepLinear(c, d);
    var c2, d2 := WideStep(c), WideStep(d);
    WideStepLinear(c2, d2);
    var c3, d3 := WideStep(c2), WideStep(d2);
    WideStepLinear(c3, d3);
    var c4, d4 := WideStep(c3), WideStep(d3);
    WideStepLinear(c4, d4);
    var c5, d5 := WideStep(c4), WideStep(d4);
    WideStepLinear(c5, d5);
    var c6, d6 := WideStep(c5), WideStep(d5);
    WideStepLinear(c6, d6);
    WideStepLinear(WideStep(c6), WideStep(d6));
  }

  lemma NarrowParts(c: bv32, d: bv32)
    ensures WideOdd(Wide(c)) == Odd(c) && WideHalf(Wide(c)) == Wide(Half(c))
    ensures Wide(Xor(c, d)) == Xor64(Wide(c), Wide(d))
  {
  }

  lemma WideStepNarrow(c: bv32)
    ensures WideStep(Wide(c)) == Wide(BitStep(c))
  {
    hide WideOdd, Odd, WideHalf, Half, Wide, Xor, Xor64;
    NarrowParts(c, POLY);
    NarrowParts(Half(c), POLY);
  }

  lemma WideByteNarrow(c: bv32)
    ensures WideByte(Wide(c)) == Wide(ByteStep(c))
  {
    hide WideStep, BitStep, Wide;
    WideStepNarrow(c);
    var c := BitStep(c);
    WideStepNarrow(c);
    var c2 := BitStep(c);
    WideStepNarrow(c2);
    var c3 := BitStep(c2);
    WideStepNarrow(c3);
    var c4 := BitStep(c3);
    WideStepNarrow(c4);
    var c5 := BitStep(c4);
    WideStepNarrow(c5);
    var c6 := BitStep(c5);
    WideStepNarrow(c6);
    WideStepNarrow(BitStep(c6));
  }

  lemma WideByteHigh(y: bv64)
    requires y >> 56 == 0
    ensures WideByte(y << 8) == y
  {
  }

  lemma SplitWide(c: bv32, w: bv64)
    ensures Xor64(Wide(c), w) == Xor64(Wide(Xor(c, LowByte(w) as bv32)), (w >> 8) << 8)
    ensures (w >> 8) >> 56 == 0
  {
  }

  /** Eight steps of the wide register consume one byte of the operand. */
  lemma WideByteConsumes(c: bv32, w: bv64)
    ensures WideByte(Xor64(Wide(c), w)) == Xor64(Wide(Crc32U8(c, LowByte(w))), w >> 8)
  {
    hide WideByte, Xor64, Wide, Xor, ByteStep, LowByte;
    SplitWide(c, w);
    var x := Xor(c, LowByte(w) as bv32);
    WideByteLinear(Wide(x), (w >> 8) << 8);
    WideByteNarrow(x);
    WideByteHigh(w >> 8);
  }

  function Shr8(w: bv64): bv64 {
    w >> 8
  }

  /** The CRC register after `n` further bytes of `w`. */
  function CrcOfBytes(c: bv32, w: bv64, n: nat): bv32
    decreases n
  {
    if n == 0 then c else CrcOfBytes(Crc32U8(c, LowByte(w)), Shr8(w), n - 1)
  }

  function WideBytes(r: bv64, n: nat): bv64
    decreases n
  {
    if n == 0 then r else WideBytes(WideByte(r), n - 1)
  }

  function ShrBytes(w: bv64, n: nat): bv64
    decreases n
  {
    if n == 0 then w else ShrBytes(Shr8(w), n - 1)
  }

  lemma {:induction false} WideBytesConsume(c: bv32, w: bv64, n: nat)
    ensures WideBytes(Xor64(Wide(c), w), n) == Xor64(Wide(CrcOfBytes(c, w, n)), ShrBytes(w, n))
    decreases n
  {
    hide WideByte, Xor64, Wide, Crc32U8, LowByte;
    if n != 0 {
      WideByteConsumes(c, w);
      assert Shr8(w) == w >> 8;
      WideBytesConsume(Crc32U8(c, LowByte(w)), Shr8(w), n - 1);
    }
  }

  lemma WideZero(c: bv32, w: bv64)
    requires w == 0
    ensures Xor64(Wide(c), w) == Wide(c)
  {
  }

  lemma ShiftedOut(w: bv64)
    ensures Shr8(Shr8(Shr8(Shr8(Shr8(Shr8(Shr8(Shr8(w)))))))) == 0
  {
  }

  lemma TwoShifts(w: bv64, n: nat)
    ensures ShrBytes(w, n + 2) == ShrBytes(Shr8(Shr8(w)), n)
  {
  }

  lemma EightShifts(w: bv64)
    ensures ShrBytes(w, 8) == Shr8(Shr8(Shr8(Shr8(Shr8(Shr8(Shr8(Shr8(w))))))))
  {
    hide Shr8;
    TwoShifts(w, 6);
    TwoShifts(Shr8(Shr8(w)), 4);
    TwoShifts(Shr8(Shr8(Shr8(Shr8(w)))), 2);
    TwoShifts(Shr8(Shr8(Shr8(Shr8(Shr8(Shr8(w)))))), 0);
  }

  lemma TwoSteps(r: bv64, n: nat)
    ensures WideBytes(r, n + 2) == WideBytes(WideByte(WideByte(r)), n)
  {
    hide WideByte;
  }

  lemma EightSteps(r: bv64)
    ensures WideBytes(r, 8) == WideByte(WideByte(WideByte(WideByte(WideByte(WideByte(WideByte(WideByte(r))))))))
  {
    hide WideByte;
    TwoSteps(r, 6);
    TwoSteps(WideByte(WideByte(r)), 4);
    TwoSteps(WideByte(WideByte(WideByte(WideByte(r)))), 2);
    TwoSteps(WideByte(WideByte(WideByte(WideByte(WideByte(WideByte(r)))))), 0);
  }

  /** The CRC instruction for a word is the CRC instruction for its eight bytes, low byte first;
      its upper half is clear. */
  lemma WordIsBytes(c: bv32, w: bv64)
    ensures Crc32U64(c, w) == Wide(CrcOfBytes(c, w, 8))
  {
    hide WideByte, Xor64, Wide, Crc32U8, LowByte, Shr8;
    WideBytesConsume(c, w, 8);
    EightSteps(Xor64(Wide(c), w));
    EightShifts(w);
    ShiftedOut(w);
    WideZero(CrcOfBytes(c, w, 8), ShrBytes(w, 8));
  }

  // ---------------------------------------------------------------- words of a file

  /** A byte as an 8-bit vector. */
  function Bv(b: byte): bv8 {
    if b == 0 then 0 else Bv(b - 1) + 1
  }

  lemma {:induction false} BvNumber(b: byte)
    ensures Bv(b) as nat == b as nat
    decreases b
  {
    if b != 0 { BvNumber(b - 1); }
  }

  lemma BvInjective(a: byte, b: byte)
    ensures Bv(a) == Bv(b) <==> a == b
  {
    hide Bv;
    BvNumber(a);
    BvNumber(b);
  }

  /** Byte `b` below the bytes of `w`. */
  function Cat(b: bv8, w: bv64): bv64 {
    (b as bv64) | (w << 8)
  }

  /** A little-endian load of `n` bytes. */
  function Load(text: Word, i: nat, n: nat): bv64
    requires i + n <= |text|
    decreases n
  {
    if n == 0 then 0 else Cat(Bv(text[i]), Load(text, i + 1, n - 1))
  }

  lemma CatLow(b: bv8, w: bv64)
    ensures LowByte(Cat(b, w)) == b
  {
  }

  lemma CatShr(b: bv8, w: bv64)
    requires w >> 56 == 0
    ensures Shr8(Cat(b, w)) == w
  {
  }

  lemma {:induction false} ShrAdd(w: bv64, m: nat, n: nat)
    ensures ShrBytes(ShrBytes(w, m), n) == ShrBytes(w, m + n)
    decreases m
  {
    if m != 0 { ShrAdd(Shr8(w), m - 1, n); }
  }

  lemma {:induction false} ShrZero(n: nat)
    ensures ShrBytes(0, n) == 0
  {
    if n != 0 {
      assert Shr8(0) == 0;
      ShrZero(n - 1);
    }
  }

  lemma SevenRaw(w: bv64)
    ensures Shr8(Shr8(Shr8(Shr8(Shr8(Shr8(Shr8(w))))))) == w >> 56
  {
  }

  lemma OneShift(w: bv64, n: nat)
    ensures ShrBytes(w, n + 1) == ShrBytes(Shr8(w), n)
  {
  }

  lemma SevenShifts(w: bv64)
    ensures ShrBytes(w, 7) == w >> 56
  {
    hide Shr8;
    OneShift(w, 6);
    TwoShifts(Shr8(w), 4);
    TwoShifts(Shr8(Shr8(Shr8(w))), 2);
    TwoShifts(Shr8(Shr8(Shr8(Shr8(Shr8(w))))), 0);
    SevenRaw(w);
  }

  /** `n` loaded bytes fit in `n` bytes. */
  lemma {:induction false} LoadFits(text: Word, i: nat, n: nat)
    requires i + n <= |text| && n <= 8
    ensures ShrBytes(Load(text, i, n), n) == 0
    ensures n < 8 ==> Load(text, i, n) >> 56 == 0
    decreases n
  {
    hide Shr8, Cat, Bv;
    var w := Load(text, i, n);
    if n != 0 {
      LoadFits(text, i + 1, n - 1);
      CatShr(Bv(text[i]), Load(text, i + 1, n - 1));
      OneShift(w, n - 1);
    } else {
      ShrZero(0);
    }
    if n < 8 {
      ShrAdd(w, n, 7 - n);
      ShrZero(7 - n);
      SevenShifts(w);
    }
  }

  lemma LoadParts(text: Word, i: nat, n: nat)
    requires 0 < n <= 8 && i + n <= |text|
    ensures LowByte(Load(text, i, n)) == Bv(text[i]) && Shr8(Load(text, i, n)) == Load(text, i + 1, n - 1)
  {
    hide Shr8, LowByte, Cat, Bv;
    LoadFits(text, i + 1, n - 1);
    CatLow(Bv(text[i]), Load(text, i + 1, n - 1));
    CatShr(Bv(text[i]), Load(text, i + 1, n - 1));
  }

  // ---------------------------------------------------------------- CRC of a file

  /** The register after the bytes i, ..., e-1, one instruction per byte. */
  function CrcFrom(c: bv32, text: Word, i: nat, e: nat): bv32
    requires i <= e <= |text|
    decreases e - i
  {
    if i == e then c else CrcFrom(Crc32U8(c, Bv(text[i])), text, i + 1, e)
  }

  const INITIAL: bv32 := 0xFFFF_FFFF

  /** CRC32C as g-recon computes it. */
  function CrcOf(text: Word): bv32 {
    Xor(CrcFrom(INITIAL, text, 0, |text|), INITIAL)
  }

  lemma {:induction false} CrcSplit(c: bv32, text: Word, i: nat, m: nat, e: nat)
    requires i <= m <= e <= |text|
    ensures CrcFrom(c, text, i, e) == CrcFrom(CrcFrom(c, text, i, m), text, m, e)
    decreases m - i
  {
    hide Crc32U8, Bv;
    if i < m { CrcSplit(Crc32U8(c, Bv(text[i])), text, i + 1, m, e); }
  }

  lemma {:induction false} CrcOfLoad(c: bv32, text: Word, i: nat, n: nat)
    requires n <= 8 && i + n <= |text|
    ensures CrcOfBytes(c, Load(text, i, n), n) == CrcFrom(c, text, i, i + n)
    decreases n
  {
    hide Crc32U8, Bv, LowByte, Shr8, Cat, Load;
    if n != 0 {
      LoadParts(text, i, n);
      CrcOfLoad(Crc32U8(c, Bv(text[i])), text, i + 1, n - 1);
    }
  }

  function Narrow(r: bv64): bv32 {
    (r & 0xFFFF_FFFF) as bv32
  }

  lemma NarrowWide(c: bv32)
    ensures Narrow(Wide(c)) == c
  {
  }

  /** A word step of the file loop is eight byte steps. */
  lemma CrcWord(c: bv32, text: Word, i: nat)
    requires i + 8 <= |text|
    ensures Narrow(Crc32U64(c, Load(text, i, 8))) == CrcFrom(c, text, i, i + 8)
  {
    hide Crc32U64, CrcOfBytes, CrcFrom, Load, Narrow, Wide;
    WordIsBytes(c, Load(text, i, 8));
    CrcOfLoad(c, text, i, 8);
    NarrowWide(CrcFrom(c, text, i, i + 8));
  }

  /** The CRC by table, as the reference code computes it. */
  method TableCrc(text: Word) returns (crc: bv32)
    ensures crc == CrcOf(text)
  {
    hide TableStep, Crc32U8, Bv, Xor;
    crc := INITIAL;
    for i := 0 to |text|
      invariant CrcFrom(crc, text, i, |text|) == CrcFrom(INITIAL, text, 0, |text|)
    {
      TableIsByteStep(crc, Bv(text[i]));
      crc := TableStep(crc, Bv(text[i]));
    }
    crc := Xor(crc, INITIAL);
  }

  // ---------------------------------------------------------------- FNV-1a

  const FNV_BASIS: bv64 := 1469598103934665603

  /** Multiplication by the prime, modulo 2 to the 64. */
  function FnvStep(h: bv64, w: bv64): bv64 {
    Xor64(h, w) * 1099511628211
  }

  function FromByte(b: byte): bv64 {
    Bv(b) as bv64
  }

  /** The variant of g-hash: 8-byte words, then single bytes. */
  function FnvFrom(h: bv64, text: Word, i: nat): bv64
    requires i <= |text|
    decreases |text| - i
  {
    if i + 8 <= |text| then FnvFrom(FnvStep(h, Load(text, i, 8)), text, i + 8)
    else if i < |text| then FnvFrom(FnvStep(h, FromByte(text[i])), text, i + 1)
    else h
  }

  function FnvWords(text: Word): bv64 {
    FnvFrom(FNV_BASIS, text, 0)
  }

  /** The variant of g-recon: single bytes. */
  function FnvBytesFrom(h: bv64, text: Word, i: nat): bv64
    requires i <= |text|
    decreases |text| - i
  {
    if i < |text| then FnvBytesFrom(FnvStep(h, FromByte(text[i])), text, i + 1) else h
  }

  function FnvBytes(text: Word): bv64 {
    FnvBytesFrom(FNV_BASIS, text, 0)
  }

  /** g-hash: words first, then the tail byte by byte. */
  method RunHash(text: Word) returns (fnv: bv64, crc: bv32)
    ensures fnv == FnvWords(text)
    ensures crc == CrcOf(text)
  {
    hide Crc32U8, Crc32U64, Load, FnvStep, Bv, FromByte, Xor, Narrow;
    fnv, crc := FNV_BASIS, INITIAL;
    var i := 0;
    while i + 8 <= |text|
      invariant 0 <= i <= |text|
      invariant CrcFrom(crc, text, i, |text|) == CrcFrom(INITIAL, text, 0, |text|)
      invariant FnvFrom(fnv, text, i) == FnvWords(text)
    {
      var w := Load(text, i, 8);
      CrcWord(crc, text, i);
      CrcSplit(crc, text, i, i + 8, |text|);
      crc := Narrow(Crc32U64(crc, w));
      fnv := FnvStep(fnv, w);
      i := i + 8;
    }
    while i < |text|
      invariant 0 <= i <= |text| < i + 8
      invariant CrcFrom(crc, text, i, |text|) == CrcFrom(INITIAL, text, 0, |text|)
      invariant FnvFrom(fnv, text, i) == FnvWords(text)
    {
      crc := Crc32U8(crc, Bv(text[i]));
      fnv := FnvStep(fnv, FromByte(text[i]));
      i := i + 1;
    }
    crc := Xor(crc, INITIAL);
  }

  /** The hash loop of g-recon. */
  method ReconHash(text: Word) returns (fnv: bv64, crc: bv32)
    ensures fnv == FnvBytes(text)
    ensures crc == CrcOf(text)
  {
    hide Crc32U8, FnvStep, Bv, FromByte, Xor;
    fnv, crc := FNV_BASIS, INITIAL;
    for i := 0 to |text|
      invariant CrcFrom(crc, text, i, |text|) == CrcFrom(INITIAL, text, 0, |text|)
      invariant FnvBytesFrom(fnv, text, i) == FnvBytes(text)
    {
      crc := Crc32U8(crc, Bv(text[i]));
      fnv := FnvStep(fnv, FromByte(text[i]));
    }
    crc := Xor(crc, INITIAL);
  }

  // ---------------------------------------------------------------- the check values

  /** The digits 1 to 9 in ASCII, over which check values are usually given. */
  function Digits(): Word {
    [0x31, 0x32, 0x33, 0x34, 0x35, 0x36, 0x37, 0x38, 0x39]
  }

  lemma BvIs(b: byte, v: bv8)
    requires v as nat == b as nat
    ensures Bv(b) == v && FromByte(b) == v as bv64
  {
    BvNumber(b);
  }

  lemma DigitBits()
    ensures forall k: nat | k < 9 :: Digits()[k] == 0x31 + k as byte
    ensures Bv(0x31) == 0x31 && FromByte(0x31) == 0x31
    ensures Bv(0x32) == 0x32 && FromByte(0x32) == 0x32
    ensures Bv(0x33) == 0x33 && FromByte(0x33) == 0x33
    ensures Bv(0x34) == 0x34 && FromByte(0x34) == 0x34
    ensures Bv(0x35) == 0x35 && FromByte(0x35) == 0x35
    ensures Bv(0x36) == 0x36 && FromByte(0x36) == 0x36
    ensures Bv(0x37) == 0x37 && FromByte(0x37) == 0x37
    ensures Bv(0x38) == 0x38 && FromByte(0x38) == 0x38
    ensures Bv(0x39) == 0x39 && FromByte(0x39) == 0x39
  {
    hide Bv, FromByte;
    BvIs(0x31, 0x31);
    BvIs(0x32, 0x32);
    BvIs(0x33, 0x33);
    BvIs(0x34, 0x34);
    BvIs(0x35, 0x35);
    BvIs(0x36, 0x36);
    BvIs(0x37, 0x37);
    BvIs(0x38, 0x38);
    BvIs(0x39, 0x39);
  }

  lemma CrcSteps()
    ensures Crc32U8(0xFFFF_FFFF, 0x31) == 0x6F0A_661C
    ensures Crc32U8(0x6F0A_661C, 0x32) == 0x8CAA_3B9F
    ensures Crc32U8(0x8CAA_3B9F, 0x33) == 0xEF84_D04D
    ensures Crc32U8(0xEF84_D04D, 0x34) == 0x09C5_0B11
    ensures Crc32U8(0x09C5_0B11, 0x35) == 0xE72E_DCCA
    ensures Crc32U8(0xE72E_DCCA, 0x36) == 0xBECA_8E79
    ensures Crc32U8(0xBECA_8E79, 0x37) == 0xEDBD_6815
    ensures Crc32U8(0xEDBD_6815, 0x38) == 0x9F78_7F65
    ensures Crc32U8(0x9F78_7F65, 0x39) == 0x1CF9_6D7C
    ensures Xor(0x1CF9_6D7C, INITIAL) == 0xE306_9283
  {
  }

  lemma FnvSteps()
    ensures FnvStep(FNV_BASIS, 0x31) == 0x44BD_5AD4_73CD_4776
    ensures FnvStep(0x44BD_5AD4_73CD_4776, 0x32) == 0x9B08_9B00_C5D0_188C
    ensures FnvStep(0x9B08_9B00_C5D0_188C, 0x33) == 0x3FB8_2150_209A_0C8D
    ensures FnvStep(0x3FB8_2150_209A_0C8D, 0x34) == 0xDFED_5427_65C3_9E5B
    ensures FnvStep(0xDFED_5427_65C3_9E5B, 0x35) == 0x43E4_6CF1_EB66_34EA
    ensures FnvStep(0x43E4_6CF1_EB66_34EA, 0x36) == 0xC359_FB12_FEAB_D1D4
    ensures FnvStep(0xC359_FB12_FEAB_D1D4, 0x37) == 0x9DB7_8446_BDF5_A4B9
    ensures FnvStep(0x9DB7_8446_BDF5_A4B9, 0x38) == 0xF47A_4534_C866_8733
    ensures FnvStep(0xF47A_4534_C866_8733, 0x39) == 0xD24A_A2B0_8637_75FE
    ensures FnvStep(FNV_BASIS, 0x3837_3635_3433_3231) == 0xFDE9_6F78_CCFE_7176
    ensures FnvStep(0xFDE9_6F78_CCFE_7176, 0x39) == 0x7219_B944_545A_893D
  {
  }

  lemma LoadSteps()
    ensures Cat(0x38, 0x0000_0000_0000_0000) == 0x0000_0000_0000_0038
    ensures Cat(0x37, 0x0000_0000_0000_0038) == 0x0000_0000_0000_3837
    ensures Cat(0x36, 0x0000_0000_0000_3837) == 0x0000_0000_0038_3736
    ensures Cat(0x35, 0x0000_0000_0038_3736) == 0x0000_0000_3837_3635
    ensures Cat(0x34, 0x0000_0000_3837_3635) == 0x0000_0038_3736_3534
    ensures Cat(0x33, 0x0000_0038_3736_3534) == 0x0000_3837_3635_3433
    ensures Cat(0x32, 0x0000_3837_3635_3433) == 0x0038_3736_3534_3332
    ensures Cat(0x31, 0x0038_3736_3534_3332) == 0x3837_3635_3433_3231
  {
  }

  lemma LoadDigits()
    ensures Load(Digits(), 0, 8) == 0x3837_3635_3433_3231
  {
    hide Bv, Cat;
    DigitBits();
    LoadSteps();
    var t := Digits();
    assert Load(t, 7, 1) == 0x0000_0000_0000_0038;
    assert Load(t, 6, 2) == 0x0000_0000_0000_3837;
    assert Load(t, 5, 3) == 0x0000_0000_0038_3736;
    assert Load(t, 4, 4) == 0x0000_0000_3837_3635;
    assert Load(t, 3, 5) == 0x0000_0038_3736_3534;
    assert Load(t, 2, 6) == 0x0000_3837_3635_3433;
    assert Load(t, 1, 7) == 0x0038_3736_3534_3332;
    assert Load(t, 0, 8) == 0x3837_3635_3433_3231;
  }

  /** The CRC of the digits is the check value of CRC-32C. */
  lemma CrcCheck()
    ensures CrcOf(Digits()) == 0xE306_9283
  {
    hide Bv, Crc32U8, Xor;
    DigitBits();
    CrcSteps();
    var t := Digits();
    assert CrcFrom(0x9F78_7F65, t, 8, 9) == 0x1CF9_6D7C;
    assert CrcFrom(0xEDBD_6815, t, 7, 9) == 0x1CF9_6D7C;
    assert CrcFrom(0xBECA_8E79, t, 6, 9) == 0x1CF9_6D7C;
    assert CrcFrom(0xE72E_DCCA, t, 5, 9) == 0x1CF9_6D7C;
    assert CrcFrom(0x09C5_0B11, t, 4, 9) == 0x1CF9_6D7C;
    assert CrcFrom(0xEF84_D04D, t, 3, 9) == 0x1CF9_6D7C;
    assert CrcFrom(0x8CAA_3B9F, t, 2, 9) == 0x1CF9_6D7C;
    assert CrcFrom(0x6F0A_661C, t, 1, 9) == 0x1CF9_6D7C;
    assert CrcFrom(0xFFFF_FFFF, t, 0, 9) == 0x1CF9_6D7C;
  }

  /** The two FNV-1a variants differ on them. */
  lemma FnvCheck()
    ensures FnvWords(Digits()) == 0x7219_B944_545A_893D
    ensures FnvBytes(Digits()) == 0xD24A_A2B0_8637_75FE
  {
    hide Bv, FromByte, FnvStep, Load;
    DigitBits();
    LoadDigits();
    FnvSteps();
    var t := Digits();
    assert FnvFrom(0xFDE9_6F78_CCFE_7176, t, 8) == 0x7219_B944_545A_893D;
    assert FnvBytesFrom(0xF47A_4534_C866_8733, t, 8) == 0xD24A_A2B0_8637_75FE;
    assert FnvBytesFrom(0x9DB7_8446_BDF5_A4B9, t, 7) == 0xD24A_A2B0_8637_75FE;
    assert FnvBytesFrom(0xC359_FB12_FEAB_D1D4, t, 6) == 0xD24A_A2B0_8637_75FE;
    assert FnvBytesFrom(0x43E4_6CF1_EB66_34EA, t, 5) == 0xD24A_A2B0_8637_75FE;
    assert FnvBytesFrom(0xDFED_5427_65C3_9E5B, t, 4) == 0xD24A_A2B0_8637_75FE;
    assert FnvBytesFrom(0x3FB8_2150_209A_0C8D, t, 3) == 0xD24A_A2B0_8637_75FE;
    assert FnvBytesFrom(0x9B08_9B00_C5D0_188C, t, 2) == 0xD24A_A2B0_8637_75FE;
    assert FnvBytesFrom(0x44BD_5AD4_73CD_4776, t, 1) == 0xD24A_A2B0_8637_75FE;
  }

  // ---------------------------------------------------------------- what a hash cannot miss

  /** `p` is `a` times the prime, modulo 2 to the 64. */
  predicate Times(a: bv64, p: bv64) {
    p == a * 1099511628211
  }

  /** The prime is odd, so no product has two sources. */
  lemma TimesInjective(a: bv64, b: bv64, p: bv64)
    requires Times(a, p) && Times(b, p)
    ensures a == b
  {
  }

  lemma StepTimes(h: bv64, w: bv64)
    ensures Times(Xor64(h, w), FnvStep(h, w))
  {
    hide Xor64;
  }

  lemma XorLeft(h: bv64, w: bv64, w': bv64)
    requires Xor64(h, w) == Xor64(h, w')
    ensures w == w'
  {
    hide Xor64;
    XorComm64(h, w);
    XorComm64(h, w');
    XorTwice64(w, h);
    XorTwice64(w', h);
  }

  lemma XorRight(h: bv64, h': bv64, w: bv64)
    requires Xor64(h, w) == Xor64(h', w)
    ensures h == h'
  {
    hide Xor64;
    XorTwice64(h, w);
    XorTwice64(h', w);
  }

  /** Each step is a bijection of the state for a fixed word, and of the word for a fixed state. */
  lemma FnvStepInjective(h: bv64, w: bv64, h': bv64, w': bv64)
    requires FnvStep(h, w) == FnvStep(h', w')
    ensures h == h' <==> w == w'
  {
    hide Xor64, FnvStep, Times;
    StepTimes(h, w);
    StepTimes(h', w');
    TimesInjective(Xor64(h, w), Xor64(h', w'), FnvStep(h, w));
    if h == h' { XorLeft(h, w, w'); } else if w == w' { XorRight(h, h', w); }
  }

  /** From a common position on, equal bytes keep different states different. */
  lemma {:induction false} FnvCarries(h: bv64, h': bv64, x: Word, y: Word, i: nat)
    requires |x| == |y| && i <= |x| && x[i..] == y[i..] && h != h'
    ensures FnvFrom(h, x, i) != FnvFrom(h', y, i)
    decreases |x| - i
  {
    hide FnvStep, FromByte, Load;
    if i + 8 <= |x| {
      LoadSame(x, y, i, 8);
      FnvDiffer(h, Load(x, i, 8), h', Load(y, i, 8));
      SuffixStep(x, y, i, 8);
      FnvCarries(FnvStep(h, Load(x, i, 8)), FnvStep(h', Load(y, i, 8)), x, y, i + 8);
    } else if i < |x| {
      SuffixStep(x, y, i, 1);
      FnvDiffer(h, FromByte(x[i]), h', FromByte(y[i]));
      FnvCarries(FnvStep(h, FromByte(x[i])), FnvStep(h', FromByte(y[i])), x, y, i + 1);
    }
  }

  lemma FnvDiffer(h: bv64, w: bv64, h': bv64, w': bv64)
    requires (h == h') != (w == w')
    ensures FnvStep(h, w) != FnvStep(h', w')
  {
    hide FnvStep;
    if FnvStep(h, w) == FnvStep(h', w') { FnvStepInjective(h, w, h', w'); }
  }

  lemma SuffixStep(x: Word, y: Word, i: nat, n: nat)
    requires |x| == |y| && i + n <= |x| && x[i..] == y[i..]
    ensures x[i + n..] == y[i + n..]
    ensures forall j | i <= j < i + n :: x[j] == y[j]
  {
    assert x[i + n..] == x[i..][n..] && y[i + n..] == y[i..][n..];
    forall j | i <= j < i + n ensures x[j] == y[j] { assert x[i..][j - i] == y[i..][j - i]; }
  }

  lemma {:induction false} LoadSame(x: Word, y: Word, i: nat, n: nat)
    requires |x| == |y| && i + n <= |x| && x[i..] == y[i..]
    ensures Load(x, i, n) == Load(y, i, n)
    decreases n
  {
    hide Cat, Bv;
    if n != 0 {
      SuffixStep(x, y, i, 1);
      LoadSame(x, y, i + 1, n - 1);
    }
  }

  lemma {:induction false} LoadDiffers(x: Word, y: Word, i: nat, n: nat)
    requires n <= 8 && i + n <= |x| && i + n <= |y| && x[i..i + n] != y[i..i + n]
    ensures Load(x, i, n) != Load(y, i, n)
    decreases n
  {
    hide Cat, Bv, Load, LowByte, Shr8;
    assert n != 0;
    LoadParts(x, i, n);
    LoadParts(y, i, n);
    if x[i] != y[i] {
      BvInjective(x[i], y[i]);
    } else {
      assert x[i..i + n] == [x[i]] + x[i + 1..i + n] && y[i..i + n] == [y[i]] + y[i + 1..i + n];
      LoadDiffers(x, y, i + 1, n - 1);
    }
  }

  /** The units that the loop of g-hash reads: whole words, then single bytes. */
  ghost predicate Unit(n: nat, i: nat, k: nat) {
    (k % 8 == 0 && k + 8 <= n && i == 8) || (n - n % 8 <= k < n && i == 1)
  }

  lemma {:induction false} FnvReaches(h: bv64, x: Word, y: Word, i: nat, k: nat, n: nat)
    requires |x| == |y| && i <= k < k + n <= |x| && Unit(|x|, n, k) && (i % 8 == 0 || |x| < i + 8)
    requires x[i..k] == y[i..k] && x[k..k + n] != y[k..k + n] && x[k + n..] == y[k + n..]
    ensures FnvFrom(h, x, i) != FnvFrom(h, y, i)
    decreases k - i
  {
    hide FnvStep, FromByte, Load;
    if i == k {
      if n == 8 {
        LoadDiffers(x, y, i, 8);
        FnvDiffer(h, Load(x, i, 8), h, Load(y, i, 8));
        FnvCarries(FnvStep(h, Load(x, i, 8)), FnvStep(h, Load(y, i, 8)), x, y, i + 8);
      } else {
        assert x[i] != y[i];
        FromByteInjective(x[i], y[i]);
        FnvDiffer(h, FromByte(x[i]), h, FromByte(y[i]));
        FnvCarries(FnvStep(h, FromByte(x[i])), FnvStep(h, FromByte(y[i])), x, y, i + 1);
      }
    } else if i + 8 <= |x| {
      assert i + 8 <= k;
      LoadWithin(x, y, i, 8);
      assert x[i + 8..k] == x[i..k][8..] && y[i + 8..k] == y[i..k][8..];
      FnvReaches(FnvStep(h, Load(x, i, 8)), x, y, i + 8, k, n);
    } else {
      assert x[i] == x[i..k][0] && y[i] == y[i..k][0];
      assert x[i + 1..k] == x[i..k][1..] && y[i + 1..k] == y[i..k][1..];
      FnvReaches(FnvStep(h, FromByte(x[i])), x, y, i + 1, k, n);
    }
  }

  lemma FromByteInjective(a: byte, b: byte)
    requires a != b
    ensures FromByte(a) != FromByte(b)
  {
    BvInjective(a, b);
  }

  lemma {:induction false} LoadWithin(x: Word, y: Word, i: nat, n: nat)
    requires i + n <= |x| && i + n <= |y| && forall j | i <= j < i + n :: x[j] == y[j]
    ensures Load(x, i, n) == Load(y, i, n)
    decreases n
  {
    hide Cat, Bv;
    if n != 0 { LoadWithin(x, y, i + 1, n - 1); }
  }

  /** Two files of equal length that differ in exactly one 8-byte word, or in one tail byte, have
      different FNV hashes. */
  lemma FnvDetects(x: Word, y: Word, k: nat, n: nat)
    requires |x| == |y| && k + n <= |x| && Unit(|x|, n, k)
    requires x[..k] == y[..k] && x[k..k + n] != y[k..k + n] && x[k + n..] == y[k + n..]
    ensures FnvWords(x) != FnvWords(y)
  {
    assert x[0..k] == x[..k] && y[0..k] == y[..k];
    FnvReaches(FNV_BASIS, x, y, 0, k, n);
  }

  // The variant of g-recon.

  lemma {:induction false} FnvBytesCarries(h: bv64, h': bv64, x: Word, y: Word, i: nat)
    requires |x| == |y| && i <= |x| && x[i..] == y[i..] && h != h'
    ensures FnvBytesFrom(h, x, i) != FnvBytesFrom(h', y, i)
    decreases |x| - i
  {
    hide FnvStep, FromByte;
    if i < |x| {
      SuffixStep(x, y, i, 1);
      FnvDiffer(h, FromByte(x[i]), h', FromByte(y[i]));
      FnvBytesCarries(FnvStep(h, FromByte(x[i])), FnvStep(h', FromByte(y[i])), x, y, i + 1);
    }
  }

  lemma {:induction false} FnvBytesReaches(h: bv64, x: Word, y: Word, i: nat, k: nat)
    requires |x| == |y| && i <= k < |x| && x[i..k] == y[i..k] && x[k] != y[k] && x[k + 1..] == y[k + 1..]
    ensures FnvBytesFrom(h, x, i) != FnvBytesFrom(h, y, i)
    decreases k - i
  {
    hide FnvStep, FromByte;
    if i == k {
      FromByteInjective(x[i], y[i]);
      FnvDiffer(h, FromByte(x[i]), h, FromByte(y[i]));
      FnvBytesCarries(FnvStep(h, FromByte(x[i])), FnvStep(h, FromByte(y[i])), x, y, i + 1);
    } else {
      assert x[i] == x[i..k][0] && y[i] == y[i..k][0];
      assert x[i + 1..k] == x[i..k][1..] && y[i + 1..k] == y[i..k][1..];
      FnvBytesReaches(FnvStep(h, FromByte(x[i])), x, y, i + 1, k);
    }
  }

  /** Two files of equal length that differ in exactly one byte have different g-recon hashes. */
  lemma FnvBytesDetects(x: Word, y: Word, k: nat)
    requires |x| == |y| && k < |x| && x[..k] == y[..k] && x[k] != y[k] && x[k + 1..] == y[k + 1..]
    ensures FnvBytes(x) != FnvBytes(y)
  {
    assert x[0..k] == x[..k] && y[0..k] == y[..k];
    FnvBytesReaches(FNV_BASIS, x, y, 0, k);
  }

  // ---------------------------------------------------------------- what a hash is

  lemma {:induction false} FnvBytesMore(h: bv64, text: Word, i: nat, b: byte)
    requires i <= |text|
    ensures FnvBytesFrom(h, text + [b], i) == FnvStep(FnvBytesFrom(h, text, i), FromByte(b))
    decreases |text| - i
  {
    hide FnvStep, FromByte;
    if i < |text| {
      assert (text + [b])[i] == text[i];
      FnvBytesMore(FnvStep(h, FromByte(text[i])), text, i + 1, b);
    } else {
      assert FnvBytesFrom(h, text + [b], i) == FnvBytesFrom(FnvStep(h, FromByte(b)), text + [b], i + 1);
    }
  }

  /** The g-recon hash of a file and one more byte; the empty file has the basis. */
  lemma FnvBytesSnoc(text: Word, b: byte)
    ensures FnvBytes([]) == FNV_BASIS
    ensures FnvBytes(text + [b]) == FnvStep(FnvBytes(text), FromByte(b))
  {
    hide FnvStep, FromByte;
    FnvBytesMore(FNV_BASIS, text, 0, b);
  }

  /** After whole words, more bytes are hashed as a file of their own would be. */
  lemma {:induction false} FnvMore(h: bv64, x: Word, y: Word, i: nat)
    requires i <= |x| && i % 8 == 0 && |x| % 8 == 0
    ensures FnvFrom(h, x + y, i) == FnvFrom(FnvFrom(h, x, i), y, 0)
    decreases |x| - i
  {
    hide FnvStep, FromByte, Load;
    if i < |x| {
      assert i + 8 <= |x|;
      LoadWithin(x + y, x, i, 8);
      FnvMore(FnvStep(h, Load(x, i, 8)), x, y, i + 8);
    } else {
      FnvShift(h, x, y, 0);
    }
  }

  lemma {:induction false} FnvShift(h: bv64, x: Word, y: Word, j: nat)
    requires j <= |y|
    ensures FnvFrom(h, x + y, |x| + j) == FnvFrom(h, y, j)
    decreases |y| - j
  {
    hide FnvStep, FromByte, Load;
    if j + 8 <= |y| {
      LoadShift(x, y, j, 8);
      FnvShift(FnvStep(h, Load(y, j, 8)), x, y, j + 8);
    } else if j < |y| {
      assert (x + y)[|x| + j] == y[j];
      FnvShift(FnvStep(h, FromByte(y[j])), x, y, j + 1);
    }
  }

  lemma {:induction false} LoadShift(x: Word, y: Word, j: nat, n: nat)
    requires j + n <= |y|
    ensures Load(x + y, |x| + j, n) == Load(y, j, n)
    decreases n
  {
    hide Cat, Bv;
    if n != 0 {
      assert (x + y)[|x| + j] == y[j];
      LoadShift(x, y, j + 1, n - 1);
    }
  }

  /** The g-hash hash of whole words and one more word, or a tail of one to seven bytes and one more byte. */
  lemma FnvWordsSnoc(x: Word, w: Word, tail: Word, b: byte)
    requires |x| % 8 == 0 && |w| == 8 && |tail| < 7
    ensures FnvWords([]) == FNV_BASIS
    ensures FnvWords(x + w) == FnvStep(FnvWords(x), Load(w, 0, 8))
    ensures FnvWords(x + (tail + [b])) == FnvStep(FnvWords(x + tail), FromByte(b))
  {
    hide FnvStep, FromByte, Load;
    FnvMore(FNV_BASIS, x, w, 0);
    FnvMore(FNV_BASIS, x, tail, 0);
    FnvMore(FNV_BASIS, x, tail + [b], 0);
    FnvTail(FnvWords(x), tail, 0);
    FnvTail(FnvWords(x), tail + [b], 0);
    FnvBytesMore(FnvWords(x), tail, 0, b);
  }

  lemma {:induction false} FnvTail(h: bv64, text: Word, i: nat)
    requires i <= |text| < i + 8
    ensures FnvFrom(h, text, i) == FnvBytesFrom(h, text, i)
    decreases |text| - i
  {
    hide FnvStep, FromByte, Load;
    if i < |text| { FnvTail(FnvStep(h, FromByte(text[i])), text, i + 1); }
  }

  /** On files shorter than a word the two variants agree. */
  lemma FnvShort(text: Word)
    requires |text| < 8
    ensures FnvBytes(text) == FnvWords(text)
  {
    FnvTail(FNV_BASIS, text, 0);
  }

  /** The CRC of a file and one more byte; the empty file has CRC 0. */
  lemma CrcSnoc(text: Word, b: byte)
    ensures CrcOf([]) == 0
    ensures CrcOf(text + [b]) == Xor(Crc32U8(Xor(CrcOf(text), INITIAL), Bv(b)), INITIAL)
  {
    hide Crc32U8, Bv, Xor, CrcFrom;
    var n := |text|;
    CrcSplit(INITIAL, text + [b], 0, n, n + 1);
    CrcCommon(INITIAL, text + [b], text, 0, n);
    CrcOne(CrcFrom(INITIAL, text, 0, n), text + [b], n);
    XorTwice(CrcFrom(INITIAL, text, 0, n), INITIAL);
    EmptyCrc();
  }

  lemma CrcOne(c: bv32, text: Word, i: nat)
    requires i < |text|
    ensures CrcFrom(c, text, i, i + 1) == Crc32U8(c, Bv(text[i]))
  {
    hide Crc32U8, Bv;
  }

  lemma EmptyCrc()
    ensures CrcOf([]) == 0
  {
  }

  // The CRC.

  /** The inverse of one bit step; the top bit of the result says which branch was taken. */
  function BitBack(r: bv32): bv32 {
    if r >> 31 == 1 then (Xor(r, POLY) << 1) | 1 else r << 1
  }

  lemma BitBackOdd(c: bv32)
    requires c & 1 == 1
    ensures ((c >> 1) ^ POLY) >> 31 == 1 && ((((c >> 1) ^ POLY) ^ POLY) << 1) | 1 == c
  {
  }

  lemma BitBackEven(c: bv32)
    requires c & 1 != 1
    ensures (c >> 1) >> 31 != 1 && (c >> 1) << 1 == c
  {
  }

  lemma BitStepUndo(c: bv32)
    ensures BitBack(BitStep(c)) == c
  {
    if Odd(c) { BitBackOdd(c); } else { BitBackEven(c); }
  }

  lemma BitStepInjective(c: bv32, d: bv32)
    requires BitStep(c) == BitStep(d)
    ensures c == d
  {
    hide BitStep, BitBack;
    BitStepUndo(c);
    BitStepUndo(d);
  }

  lemma ByteStepInjective(c: bv32, d: bv32)
    requires ByteStep(c) == ByteStep(d)
    ensures c == d
  {
    hide BitStep;
    var c1, d1 := BitStep(c), BitStep(d);
    var c2, d2 := BitStep(c1), BitStep(d1);
    var c3, d3 := BitStep(c2), BitStep(d2);
    var c4, d4 := BitStep(c3), BitStep(d3);
    var c5, d5 := BitStep(c4), BitStep(d4);
    var c6, d6 := BitStep(c5), BitStep(d5);
    var c7, d7 := BitStep(c6), BitStep(d6);
    BitStepInjective(c7, d7);
    BitStepInjective(c6, d6);
    BitStepInjective(c5, d5);
    BitStepInjective(c4, d4);
    BitStepInjective(c3, d3);
    BitStepInjective(c2, d2);
    BitStepInjective(c1, d1);
    BitStepInjective(c, d);
  }

  lemma XorSame(c: bv32, d: bv32, p: bv32)
    requires Xor(c, p) == Xor(d, p)
    ensures c == d
  {
    hide Xor;
    XorTwice(c, p);
    XorTwice(d, p);
  }

  /** Equal bytes keep different registers different. */
  lemma {:induction false} CrcCarries(c: bv32, d: bv32, x: Word, y: Word, i: nat)
    requires |x| == |y| && i <= |x| && x[i..] == y[i..] && c != d
    ensures CrcFrom(c, x, i, |x|) != CrcFrom(d, y, i, |x|)
    decreases |x| - i
  {
    hide ByteStep, Xor, Bv;
    if i < |x| {
      SuffixStep(x, y, i, 1);
      var b := Bv(x[i]);
      if Crc32U8(c, b) == Crc32U8(d, b) {
        ByteStepInjective(Xor(c, b as bv32), Xor(d, b as bv32));
        XorSame(c, d, b as bv32);
      }
      CrcCarries(Crc32U8(c, b), Crc32U8(d, b), x, y, i + 1);
    }
  }

  function Up8(y: bv32): bv32 {
    y << 8
  }

  /** The top `n` bytes of a register are clear. */
  predicate TopClear(y: bv32, n: nat) {
    if n == 0 then true else if n == 1 then y >> 24 == 0 else if n == 2 then y >> 16 == 0
    else if n == 3 then y >> 8 == 0 else y == 0
  }

  function Low(b: bv8): bv32 {
    b as bv32
  }

  /** Up to four bytes as one register operand, low byte first. */
  function Operand(text: Word, i: nat, n: nat): bv32
    requires i + n <= |text|
    decreases n
  {
    if n == 0 then 0 else Xor(Low(Bv(text[i])), Up8(Operand(text, i + 1, n - 1)))
  }

  function ByteSteps(c: bv32, n: nat): bv32
    decreases n
  {
    if n == 0 then c else ByteSteps(ByteStep(c), n - 1)
  }

  lemma UpClear1(b: bv8, y: bv32)
    requires y >> 16 == 0
    ensures ((b as bv32) ^ (y << 8)) >> 24 == 0
  {
  }

  lemma UpClear2(b: bv8, y: bv32)
    requires y >> 8 == 0
    ensures ((b as bv32) ^ (y << 8)) >> 16 == 0
  {
  }

  lemma UpClear3(b: bv8)
    ensures ((b as bv32) ^ (0 << 8)) >> 8 == 0
  {
  }

  lemma UpClear(b: bv8, y: bv32, n: nat)
    requires 1 <= n <= 3 && TopClear(y, n + 1)
    ensures TopClear(Xor(Low(b), Up8(y)), n)
  {
    if n == 1 { UpClear1(b, y); } else if n == 2 { UpClear2(b, y); } else { UpClear3(b); }
  }

  /** Three bytes leave the top byte clear. */
  lemma {:induction false} OperandFits(text: Word, i: nat, n: nat)
    requires i + n <= |text| && n <= 3
    ensures TopClear(Operand(text, i, n), 4 - n)
    decreases n
  {
    hide Xor, Bv, Low, Up8, TopClear;
    if n == 0 {
      ZeroClear();
    } else {
      OperandFits(text, i + 1, n - 1);
      UpClear(Bv(text[i]), Operand(text, i + 1, n - 1), 4 - n);
    }
  }

  lemma ZeroClear()
    ensures TopClear(0, 4)
  {
  }

  lemma ClearTop(y: bv32, n: nat)
    requires 1 <= n <= 4 && TopClear(y, n)
    ensures y >> 24 == 0
  {
  }

  /** Up to four byte instructions are one addition followed by the steps. */
  lemma {:induction false} CrcOfOperand(c: bv32, text: Word, i: nat, n: nat)
    requires i + n <= |text| && n <= 4
    ensures CrcFrom(c, text, i, i + n) == ByteSteps(Xor(c, Operand(text, i, n)), n)
    decreases n
  {
    hide Xor, ByteStep, Bv, Low, Up8, TopClear;
    if n == 0 {
      XorNothing(c);
    } else {
      var b, rest := Low(Bv(text[i])), Operand(text, i + 1, n - 1);
      OperandFits(text, i + 1, n - 1);
      XorAssoc(c, b, Up8(rest));
      StepOverUp(Xor(c, b), rest, 5 - n);
      LowIs(Bv(text[i]));
      CrcOfOperand(Crc32U8(c, Bv(text[i])), text, i + 1, n - 1);
    }
  }

  lemma LowIs(b: bv8)
    ensures Low(b) == b as bv32
  {
  }

  lemma StepOverUp(x: bv32, y: bv32, n: nat)
    requires 1 <= n <= 4 && TopClear(y, n)
    ensures ByteStep(Xor(x, Up8(y))) == Xor(ByteStep(x), y)
  {
    hide ByteStep, Xor, TopClear;
    ClearTop(y, n);
    ByteStepShifted(x, y);
  }

  lemma XorNothing(c: bv32)
    ensures Xor(c, 0) == c
  {
  }

  lemma {:induction false} ByteStepsInjective(c: bv32, d: bv32, n: nat)
    requires ByteSteps(c, n) == ByteSteps(d, n)
    ensures c == d
    decreases n
  {
    hide ByteStep;
    if n != 0 {
      ByteStepsInjective(ByteStep(c), ByteStep(d), n - 1);
      ByteStepInjective(c, d);
    }
  }

  lemma OperandParts(b: bv8, y: bv32, b': bv8, y': bv32)
    requires y >> 24 == 0 && y' >> 24 == 0
    requires Xor(Low(b), Up8(y)) == Xor(Low(b'), Up8(y'))
    ensures b == b' && y == y'
  {
  }

  lemma {:induction false} OperandDiffers(x: Word, y: Word, i: nat, n: nat)
    requires n <= 4 && i + n <= |x| && i + n <= |y| && x[i..i + n] != y[i..i + n]
    ensures Operand(x, i, n) != Operand(y, i, n)
    decreases n
  {
    hide Xor, Bv, Low, Up8, TopClear;
    assert n != 0;
    OperandFits(x, i + 1, n - 1);
    OperandFits(y, i + 1, n - 1);
    ClearTop(Operand(x, i + 1, n - 1), 5 - n);
    ClearTop(Operand(y, i + 1, n - 1), 5 - n);
    if Operand(x, i, n) == Operand(y, i, n) {
      OperandParts(Bv(x[i]), Operand(x, i + 1, n - 1), Bv(y[i]), Operand(y, i + 1, n - 1));
      BvInjective(x[i], y[i]);
      assert x[i..i + n] == [x[i]] + x[i + 1..i + n] && y[i..i + n] == [y[i]] + y[i + 1..i + n];
      OperandDiffers(x, y, i + 1, n - 1);
    }
  }

  lemma {:induction false} CrcCommon(c: bv32, x: Word, y: Word, i: nat, k: nat)
    requires i <= k <= |x| && k <= |y| && forall j | i <= j < k :: x[j] == y[j]
    ensures CrcFrom(c, x, i, k) == CrcFrom(c, y, i, k)
    decreases k - i
  {
    hide Crc32U8, Bv;
    if i < k { CrcCommon(Crc32U8(c, Bv(x[i])), x, y, i + 1, k); }
  }

  /** Two different files of equal length whose differences lie within four consecutive bytes have
      different CRCs; one differing byte is the case n == 1. */
  lemma CrcDetects(x: Word, y: Word, k: nat, n: nat)
    requires |x| == |y| && n <= 4 && k + n <= |x|
    requires x[..k] == y[..k] && x[k..k + n] != y[k..k + n] && x[k + n..] == y[k + n..]
    ensures CrcOf(x) != CrcOf(y)
  {
    hide Xor, CrcFrom, Operand, ByteSteps;
    forall j | 0 <= j < k ensures x[j] == y[j] { assert x[..k][j] == y[..k][j]; }
    CrcCommon(INITIAL, x, y, 0, k);
    var c := CrcFrom(INITIAL, x, 0, k);
    CrcOfOperand(c, x, k, n);
    CrcOfOperand(c, y, k, n);
    OperandDiffers(x, y, k, n);
    var cx, cy := CrcFrom(c, x, k, k + n), CrcFrom(c, y, k, k + n);
    if cx == cy {
      ByteStepsInjective(Xor(c, Operand(x, k, n)), Xor(c, Operand(y, k, n)), n);
      XorComm(c, Operand(x, k, n));
      XorComm(c, Operand(y, k, n));
      XorSame(Operand(x, k, n), Operand(y, k, n), c);
    }
    CrcCarries(cx, cy, x, y, k + n);
    CrcSplit(INITIAL, x, 0, k, |x|);
    CrcSplit(INITIAL, y, 0, k, |y|);
    CrcSplit(c, x, k, k + n, |x|);
    CrcSplit(c, y, k, k + n, |y|);
    if CrcOf(x) == CrcOf(y) { XorSame(CrcFrom(INITIAL, x, 0, |x|), CrcFrom(INITIAL, y, 0, |y|), INITIAL); }
  }
}

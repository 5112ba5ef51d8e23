/** g-recon: hashes, histogram, entropy profile and string samples written as one flat buffer, and
    the Rust parser that reads the buffer back. */
module Recon {
  import opened Arith
  import opened Blocks
  import opened Bytes
  import opened ChunkAllocator
  import opened Coverage
  import opened Entropy
  import opened Hash
  import opened Pipeline
  import opened Schedule
  import Strings

  const MAX_STRINGS: nat := 2000
  const HEADER: nat := 32

  // ---------------------------------------------------------------- little-endian fields

  /** The low `n` bytes of `v`, lowest first. */
  function Le(v: nat, n: nat): (w: Word)
    ensures |w| == n
    decreases n
  {
    if n == 0 then [] else [(v % 256) as byte] + Le(v / 256, n - 1)
  }

  function FromLe(w: Word): nat {
    if w == [] then 0 else w[0] as nat + 256 * FromLe(w[1..])
  }

  function Pow256(n: nat): (p: nat)
    ensures p > 0
  {
    if n == 0 then 1 else 256 * Pow256(n - 1)
  }

  lemma SplitMod(v: nat, p: nat)
    requires p > 0
    ensures v % (256 * p) == v % 256 + 256 * ((v / 256) % p)
  {
    var q, r := (v / 256) / p, (v / 256) % p;
    assert v / 256 == q * p + r;
    assert 256 * (q * p) == q * (256 * p);
    assert r + 1 <= p;
    ModUnique(256 * p, v, q, v % 256 + 256 * r);
  }

  /** Writing then reading a field keeps the value modulo the field size. */
  lemma {:induction false} LeRound(v: nat, n: nat)
    ensures FromLe(Le(v, n)) == v % Pow256(n)
    decreases n
  {
    if n > 0 {
      LeRound(v / 256, n - 1);
      SplitMod(v, Pow256(n - 1));
      assert Le(v, n)[1..] == Le(v / 256, n - 1);
    }
  }

  lemma Pow256Is()
    ensures Pow256(4) == U32 && Pow256(8) == U64
  {
    assert Pow256(2) == 0x1_0000;
    assert Pow256(3) == 0x100_0000;
    assert Pow256(4) == U32;
    assert Pow256(5) == 0x100_0000_0000;
    assert Pow256(6) == 0x1_0000_0000_0000;
    assert Pow256(7) == 0x100_0000_0000_0000;
  }

  lemma Le4(v: nat)
    ensures FromLe(Le(v, 4)) == v % U32
  {
    LeRound(v, 4);
    Pow256Is();
  }

  lemma Le8(v: nat)
    ensures FromLe(Le(v, 8)) == v % U64
  {
    LeRound(v, 8);
    Pow256Is();
  }

  /** Byte `k` of a field is digit `k` of its value in base 256, lowest first. */
  lemma {:induction false} FromLeAt(w: Word, k: nat)
    requires k < |w|
    ensures w[k] as nat == (FromLe(w) / Pow256(k)) % 256
    decreases k
  {
    var rest := FromLe(w[1..]);
    if k > 0 {
      FromLeAt(w[1..], k - 1);
      DivDiv(w[0] as nat + 256 * rest, Pow256(k - 1));
    }
  }

  lemma DivDiv(v: nat, p: nat)
    requires p > 0
    ensures v / (256 * p) == (v / 256) / p
  {
    var q, r := (v / 256) / p, (v / 256) % p;
    assert v / 256 == q * p + r;
    assert 256 * (q * p) == q * (256 * p);
    assert r + 1 <= p;
    ModUnique(256 * p, v, q, v % 256 + 256 * r);
  }

  // ---------------------------------------------------------------- arrays of records

  /** The layout of one record of `size` bytes. */
  datatype Codec<!T> = Codec(size: nat, enc: T -> Word, dec: Word -> T)

  ghost predicate Inverts<T>(c: Codec<T>, x: T) {
    |c.enc(x)| == c.size && c.dec(c.enc(x)) == x
  }

  function WriteAll<T>(c: Codec<T>, xs: seq<T>): Word {
    if xs == [] then [] else WriteAll(c, xs[..|xs| - 1]) + c.enc(xs[|xs| - 1])
  }

  /** `n` records from the start of `w`; a slice past the end makes the parser panic. */
  function ReadMany<T>(c: Codec<T>, w: Word, n: nat): (r: Option<seq<T>>)
    ensures r.Some? ==> |r.value| == n && n * c.size <= |w|
    decreases n
  {
    if n == 0 then Some([])
    else if c.size > |w| then None
    else
      var rest := ReadMany(c, w[c.size..], n - 1);
      if rest.None? then None else Some([c.dec(w[..c.size])] + rest.value)
  }

  /** Records while a whole one is left. */
  function ReadRest<T>(c: Codec<T>, w: Word): seq<T>
    requires c.size > 0
    decreases |w|
  {
    if c.size > |w| then [] else [c.dec(w[..c.size])] + ReadRest(c, w[c.size..])
  }

  lemma {:induction false} WriteCons<T>(c: Codec<T>, xs: seq<T>)
    requires xs != []
    ensures WriteAll(c, xs) == c.enc(xs[0]) + WriteAll(c, xs[1..])
  {
    var n := |xs| - 1;
    if n > 0 {
      WriteCons(c, xs[..n]);
      assert xs[..n][1..] == xs[1..][..n - 1] && xs[1..][n - 1] == xs[n];
      assert (c.enc(xs[0]) + WriteAll(c, xs[1..][..n - 1])) + c.enc(xs[n]) ==
             c.enc(xs[0]) + (WriteAll(c, xs[1..][..n - 1]) + c.enc(xs[n]));
    } else {
      assert xs[..0] == [] && xs[1..] == [];
    }
  }

  lemma {:induction false} WriteSize<T>(c: Codec<T>, xs: seq<T>)
    requires forall x | x in xs :: Inverts(c, x)
    ensures |WriteAll(c, xs)| == |xs| * c.size
  {
    if xs != [] {
      WriteSize(c, xs[..|xs| - 1]);
      assert xs[|xs| - 1] in xs;
      assert (|xs| - 1) * c.size + c.size == |xs| * c.size;
    }
  }

  lemma HeadTail(a: Word, b: Word)
    ensures (a + b)[..|a|] == a && (a + b)[|a|..] == b
  {
  }

  /** Record `k` lies `k` record sizes into the array. */
  lemma {:induction false} WriteAt<T>(c: Codec<T>, xs: seq<T>, k: nat)
    requires k < |xs| && forall x | x in xs :: Inverts(c, x)
    ensures Off(k, c.size) + c.size <= |WriteAll(c, xs)| == Off(|xs|, c.size)
    ensures WriteAll(c, xs)[Off(k, c.size)..Off(k, c.size) + c.size] == c.enc(xs[k])
    decreases |xs|
  {
    var n := |xs| - 1;
    var head := WriteAll(c, xs[..n]);
    WriteSize(c, xs[..n]);
    WriteSize(c, xs);
    OffIs(n, c.size);
    OffIs(|xs|, c.size);
    assert xs[n] in xs && Inverts(c, xs[n]);
    OffMono(k, n, c.size);
    if k < n { WriteAt(c, xs[..n], k); }
    hide Off;
    OffNext(n, c.size);
    if k < n {
      assert (head + c.enc(xs[n]))[Off(k, c.size)..Off(k, c.size) + c.size] ==
             head[Off(k, c.size)..Off(k, c.size) + c.size];
    }
  }

  /** A record further on is one further on in the rest. */
  lemma LaterRecord(w: Word, size: nat, k: nat)
    requires 0 < k && size <= |w| && Off(k - 1, size) + size <= |w| - size
    ensures Off(k, size) + size <= |w|
    ensures w[size..][Off(k - 1, size)..Off(k - 1, size) + size] == w[Off(k, size)..Off(k, size) + size]
  {
    hide Off;
    OffNext(k - 1, size);
  }

  /** Counted reading succeeds exactly when the records are there. */
  lemma {:induction false} ReadManySome<T>(c: Codec<T>, w: Word, n: nat)
    ensures ReadMany(c, w, n).Some? <==> Off(n, c.size) <= |w|
    decreases n
  {
    hide Off;
    OffNext(0, c.size);
    if n > 0 {
      OffNext(n - 1, c.size);
      if c.size <= |w| { ReadManySome(c, w[c.size..], n - 1); }
    }
  }

  /** It takes them in order. */
  lemma {:induction false} ReadManyIs<T>(c: Codec<T>, w: Word, n: nat, k: nat)
    requires ReadMany(c, w, n).Some? && k < n
    ensures Off(k, c.size) + c.size <= |w|
    ensures ReadMany(c, w, n).value[k] == c.dec(w[Off(k, c.size)..Off(k, c.size) + c.size])
    decreases n
  {
    hide Off;
    OffNext(0, c.size);
    if k > 0 {
      ReadManyIs(c, w[c.size..], n - 1, k - 1);
      LaterRecord(w, c.size, k);
    }
  }

  /** Reading to the end takes every whole record. */
  lemma {:induction false} ReadRestSize<T>(c: Codec<T>, w: Word)
    requires c.size > 0
    ensures Off(|ReadRest(c, w)|, c.size) <= |w| < Off(|ReadRest(c, w)|, c.size) + c.size
    decreases |w|
  {
    hide Off;
    OffNext(0, c.size);
    if c.size <= |w| {
      ReadRestSize(c, w[c.size..]);
      OffNext(|ReadRest(c, w[c.size..])|, c.size);
    }
  }

  lemma {:induction false} ReadRestIs<T>(c: Codec<T>, w: Word, k: nat)
    requires c.size > 0 && k < |ReadRest(c, w)|
    ensures Off(k, c.size) + c.size <= |w|
    ensures ReadRest(c, w)[k] == c.dec(w[Off(k, c.size)..Off(k, c.size) + c.size])
    decreases k
  {
    hide Off;
    OffNext(0, c.size);
    if k > 0 {
      ReadRestIs(c, w[c.size..], k - 1);
      LaterRecord(w, c.size, k);
    }
  }

  /** Reading back as many records as were written. */
  lemma {:induction false} ReadWritten<T>(c: Codec<T>, xs: seq<T>, after: Word)
    requires forall x | x in xs :: Inverts(c, x)
    ensures ReadMany(c, WriteAll(c, xs) + after, |xs|) == Some(xs)
  {
    if xs != [] {
      WriteCons(c, xs);
      var head, tail := c.enc(xs[0]), WriteAll(c, xs[1..]) + after;
      assert xs[0] in xs && Inverts(c, xs[0]);
      assert WriteAll(c, xs) + after == head + tail;
      HeadTail(head, tail);
      ReadWritten(c, xs[1..], after);
      assert [xs[0]] + xs[1..] == xs;
    }
  }

  /** Reading to the end of the buffer. */
  lemma {:induction false} ReadTail<T>(c: Codec<T>, xs: seq<T>)
    requires c.size > 0 && forall x | x in xs :: Inverts(c, x)
    ensures ReadRest(c, WriteAll(c, xs)) == xs
  {
    if xs != [] {
      WriteCons(c, xs);
      var head, tail := c.enc(xs[0]), WriteAll(c, xs[1..]);
      assert xs[0] in xs && Inverts(c, xs[0]);
      HeadTail(head, tail);
      ReadTail(c, xs[1..]);
      assert [xs[0]] + xs[1..] == xs;
    }
  }

  // ---------------------------------------------------------------- the three record layouts

  function EncBar(v: nat): Word {
    Le(v, 8)
  }

  function BarCodec(): Codec<nat> {
    Codec(8, EncBar, FromLe)
  }

  /** Two 8-byte fields. */
  function EncEntropy(r: EntropyRec): Word {
    Le(r.offset, 8) + r.entropy
  }

  function DecEntropy(w: Word): EntropyRec {
    if |w| == 16 then EntropyRec(FromLe(w[..8]), w[8..]) else EntropyRec(0, Le(0, 8))
  }

  function EntropyCodec(): Codec<EntropyRec> {
    Codec(16, EncEntropy, DecEntropy)
  }

  /** Offset, length and four bytes of padding. */
  function EncString(r: Strings.Rec): Word {
    Le(r.offset, 8) + (Le(r.len, 4) + Le(0, 4))
  }

  function DecString(w: Word): Strings.Rec {
    if |w| == 16 then Strings.Rec(FromLe(w[..8]), FromLe(w[8..12])) else Strings.Rec(0, 0)
  }

  function StringCodec(): Codec<Strings.Rec> {
    Codec(16, EncString, DecString)
  }

  lemma BarInverts(v: nat)
    requires v < U64
    ensures Inverts(BarCodec(), v)
  {
    hide Le, FromLe;
    Le8(v);
  }

  lemma EntropyInverts(r: EntropyRec)
    requires r.offset < U64
    ensures Inverts(EntropyCodec(), r)
  {
    hide Le, FromLe;
    Le8(r.offset);
    HeadTail(Le(r.offset, 8), r.entropy);
  }

  lemma StringInverts(r: Strings.Rec)
    requires r.offset < U64 && r.len < U32
    ensures Inverts(StringCodec(), r)
  {
    hide Le, FromLe;
    Le8(r.offset);
    Le4(r.len);
    var a, b := Le(r.offset, 8), Le(r.len, 4) + Le(0, 4);
    HeadTail(a, b);
    HeadTail(Le(r.len, 4), Le(0, 4));
    assert (a + b)[8..12] == (a + b)[8..][..4];
  }

  // ---------------------------------------------------------------- the buffer and its parser

  datatype Facts = Facts(fnv: nat, crc: nat, hist: seq<nat>, entropy: seq<EntropyRec>, strings: seq<Strings.Rec>)

  function Header(fnv: nat, crc: nat, nHist: nat, nEntropy: nat, nStrings: nat): (w: Word)
    ensures |w| == HEADER
  {
    Le(fnv, 8) + (Le(crc, 4) + (Le(nHist, 4) + (Le(nEntropy, 4) + (Le(nStrings, 4) + (Le(0, 4) + Le(0, 4))))))
  }

  /** The flat buffer. */
  function Layout(f: Facts): Word {
    Header(f.fnv, f.crc, 256, |f.entropy|, |f.strings|) +
    (WriteAll(BarCodec(), f.hist) + (WriteAll(EntropyCodec(), f.entropy) + WriteAll(StringCodec(), f.strings)))
  }

  /** `Missing` is Rust's None; `Panics` is a slice out of range. */
  datatype Outcome = Missing | Panics | Parsed(facts: Facts)

  function Parse(bytes: Word): Outcome {
    if |bytes| < HEADER then Missing
    else
      var body := bytes[HEADER..];
      var hist := ReadMany(BarCodec(), body, FromLe(bytes[12..16]));
      if hist.None? then Panics
      else
        var rest := body[8 * |hist.value|..];
        var entropy := ReadMany(EntropyCodec(), rest, FromLe(bytes[16..20]));
        if entropy.None? then Panics
        else
          Parsed(Facts(FromLe(bytes[0..8]), FromLe(bytes[8..12]), hist.value, entropy.value,
                       ReadRest(StringCodec(), rest[16 * |entropy.value|..])))
  }

  /** `xs` has been read, and `left` more records are to be read at `pos`. */
  ghost predicate Reading<T>(c: Codec<T>, bytes: Word, all: Option<seq<T>>, xs: seq<T>, pos: nat, left: nat)
    requires pos <= |bytes|
  {
    var r := ReadMany(c, bytes[pos..], left);
    r.Some? == all.Some? && (r.Some? ==> all.value == xs + r.value)
  }

  lemma ReadStarts<T>(c: Codec<T>, bytes: Word, pos: nat, left: nat)
    requires pos <= |bytes|
    ensures Reading(c, bytes, ReadMany(c, bytes[pos..], left), [], pos, left)
  {
    var r := ReadMany(c, bytes[pos..], left);
    if r.Some? { assert [] + r.value == r.value; }
  }

  lemma ReadStep<T>(c: Codec<T>, bytes: Word, all: Option<seq<T>>, xs: seq<T>, pos: nat, left: nat)
    requires pos <= |bytes| && left > 0 && Reading(c, bytes, all, xs, pos, left)
    ensures pos + c.size > |bytes| ==> all.None?
    ensures pos + c.size <= |bytes| ==>
              Reading(c, bytes, all, xs + [c.dec(bytes[pos..pos + c.size])], pos + c.size, left - 1)
  {
    if pos + c.size <= |bytes| {
      var w, x := bytes[pos..], c.dec(bytes[pos..pos + c.size]);
      assert w[..c.size] == bytes[pos..pos + c.size] && w[c.size..] == bytes[pos + c.size..];
      var rest := ReadMany(c, w[c.size..], left - 1);
      if rest.Some? { assert xs + ([x] + rest.value) == (xs + [x]) + rest.value; }
    }
  }

  lemma ReadEnds<T>(c: Codec<T>, bytes: Word, all: Option<seq<T>>, xs: seq<T>, pos: nat)
    requires pos <= |bytes| && Reading(c, bytes, all, xs, pos, 0)
    ensures all == Some(xs)
  {
    assert xs + [] == xs;
  }

  method ReadLoop<T>(c: Codec<T>, bytes: Word, from: nat, n: nat) returns (ok: bool, xs: seq<T>, pos: nat)
    requires from <= |bytes|
    ensures ok == ReadMany(c, bytes[from..], n).Some?
    ensures ok ==> xs == ReadMany(c, bytes[from..], n).value && pos == from + n * c.size && pos <= |bytes|
  {
    hide Reading, ReadMany;
    xs, pos := [], from;
    ghost var all := ReadMany(c, bytes[from..], n);
    ReadStarts(c, bytes, from, n);
    var k := 0;
    while k < n
      invariant k <= n && pos <= |bytes| && pos == from + k * c.size
      invariant Reading(c, bytes, all, xs, pos, n - k)
    {
      ReadStep(c, bytes, all, xs, pos, n - k);
      if pos + c.size > |bytes| { return false, xs, pos; }
      xs := xs + [c.dec(bytes[pos..pos + c.size])];
      pos := pos + c.size;
      k := k + 1;
    }
    ReadEnds(c, bytes, all, xs, pos);
    ok := true;
  }

  method ReadToEnd<T>(c: Codec<T>, bytes: Word, from: nat) returns (xs: seq<T>)
    requires c.size > 0 && from <= |bytes|
    ensures xs == ReadRest(c, bytes[from..])
  {
    xs := [];
    var pos := from;
    while pos + c.size <= |bytes|
      invariant pos <= |bytes| && xs + ReadRest(c, bytes[pos..]) == ReadRest(c, bytes[from..])
      decreases |bytes| - pos
    {
      assert bytes[pos..][..c.size] == bytes[pos..pos + c.size] && bytes[pos..][c.size..] == bytes[pos + c.size..];
      ghost var before, tail := xs, ReadRest(c, bytes[pos + c.size..]);
      xs := xs + [c.dec(bytes[pos..pos + c.size])];
      assert before + ([c.dec(bytes[pos..pos + c.size])] + tail) == xs + tail;
      pos := pos + c.size;
    }
  }

  /** `recon` of the Rust binding, on the bytes of the arena. */
  method ParseRecon(bytes: Word) returns (out: Outcome)
    ensures out == Parse(bytes)
  {
    hide ReadMany, ReadRest, FromLe;
    if |bytes| < HEADER { return Missing; }
    var pos, ok, hist, entropy;
    ok, hist, pos := ReadLoop(BarCodec(), bytes, HEADER, FromLe(bytes[12..16]));
    if !ok { return Panics; }
    assert bytes[HEADER..][8 * |hist|..] == bytes[pos..];
    ghost var mid := pos;
    ok, entropy, pos := ReadLoop(EntropyCodec(), bytes, pos, FromLe(bytes[16..20]));
    if !ok { return Panics; }
    assert bytes[mid..][16 * |entropy|..] == bytes[pos..];
    var strings := ReadToEnd(StringCodec(), bytes, pos);
    out := Parsed(Facts(FromLe(bytes[0..8]), FromLe(bytes[8..12]), hist, entropy, strings));
  }

  // ---------------------------------------------------------------- the parser inverts the writer

  ghost predicate FieldsFit(f: Facts) {
    && f.fnv < U64 && f.crc < U32 && |f.hist| == 256
    && (forall v | v in f.hist :: v < U64)
    && (forall r | r in f.entropy :: r.offset < U64)
    && (forall r | r in f.strings :: r.offset < U64 && r.len < U32)
  }

  lemma HeaderFields(fnv: nat, crc: nat, nHist: nat, nEntropy: nat, nStrings: nat, body: Word)
    ensures var h := Header(fnv, crc, nHist, nEntropy, nStrings);
            && (h + body)[0..8] == Le(fnv, 8) && (h + body)[8..12] == Le(crc, 4)
            && (h + body)[12..16] == Le(nHist, 4) && (h + body)[16..20] == Le(nEntropy, 4)
            && (h + body)[HEADER..] == body
  {
    hide Le;
    var h := Header(fnv, crc, nHist, nEntropy, nStrings);
    HeadTail(h, body);
    assert (h + body)[0..8] == h[0..8] && (h + body)[8..12] == h[8..12];
    assert (h + body)[12..16] == h[12..16] && (h + body)[16..20] == h[16..20];
  }

  /** After them the number of strings and eight bytes of padding. */
  lemma HeaderRest(fnv: nat, crc: nat, nHist: nat, nEntropy: nat, nStrings: nat, body: Word)
    ensures var h := Header(fnv, crc, nHist, nEntropy, nStrings);
            && (h + body)[20..24] == Le(nStrings, 4)
            && (h + body)[24..28] == Le(0, 4) && (h + body)[28..32] == Le(0, 4)
  {
    hide Le;
    var h := Header(fnv, crc, nHist, nEntropy, nStrings);
    assert (h + body)[20..24] == h[20..24];
    assert (h + body)[24..28] == h[24..28] && (h + body)[28..32] == h[28..32];
  }

  lemma BodyInverts(f: Facts)
    requires FieldsFit(f)
    ensures forall v | v in f.hist :: Inverts(BarCodec(), v)
    ensures forall r | r in f.entropy :: Inverts(EntropyCodec(), r)
    ensures forall r | r in f.strings :: Inverts(StringCodec(), r)
  {
    hide Inverts;
    forall v | v in f.hist ensures Inverts(BarCodec(), v) { BarInverts(v); }
    forall r | r in f.entropy ensures Inverts(EntropyCodec(), r) { EntropyInverts(r); }
    forall r | r in f.strings ensures Inverts(StringCodec(), r) { StringInverts(r); }
  }

  /** The parser gives back exactly what was written, if and only if the number of entropy records
      fits its 32-bit header field. */
  lemma ParseInvertsLayout(f: Facts)
    requires FieldsFit(f)
    ensures Parse(Layout(f)) == Parsed(f) <==> |f.entropy| < U32
  {
    hide Le, FromLe, Inverts, ReadMany, ReadRest, WriteAll, Header;
    var ents, strs := WriteAll(EntropyCodec(), f.entropy), WriteAll(StringCodec(), f.strings);
    var bars := WriteAll(BarCodec(), f.hist);
    HeaderFields(f.fnv, f.crc, 256, |f.entropy|, |f.strings|, bars + (ents + strs));
    Le8(f.fnv);
    Le4(f.crc);
    Le4(256);
    Le4(|f.entropy|);
    BodyInverts(f);
    ReadWritten(BarCodec(), f.hist, ents + strs);
    SizeIs(BarCodec(), f.hist, 8);
    HeadTail(bars, ents + strs);
    if |f.entropy| < U32 {
      ReadWritten(EntropyCodec(), f.entropy, strs);
      SizeIs(EntropyCodec(), f.entropy, 16);
      HeadTail(ents, strs);
      ReadTail(StringCodec(), f.strings);
    }
  }

  // ---------------------------------------------------------------- the format, field by field

  ghost predicate HeadOk(w: Word, fnv: nat, crc: nat, nEntropy: nat, nStrings: nat)
    requires |w| >= HEADER
  {
    && FromLe(w[0..8]) == fnv && FromLe(w[8..12]) == crc && FromLe(w[12..16]) == 256
    && FromLe(w[16..20]) == nEntropy % U32 && FromLe(w[20..24]) == nStrings % U32
    && FromLe(w[24..28]) == 0 && FromLe(w[28..32]) == 0
  }

  /** 256 counters of eight bytes from `at` on. */
  ghost predicate HistOk(w: Word, at: nat, hist: seq<nat>) {
    |hist| == 256 && at + 2048 <= |w| && forall k: nat | k < 256 :: FromLe(w[at + 8 * k..at + 8 * k + 8]) == hist[k]
  }

  /** Records of an eight-byte offset and an eight-byte value. */
  ghost predicate EntropyOk(w: Word, at: nat, recs: seq<EntropyRec>) {
    && at + 16 * |recs| <= |w|
    && forall k: nat | k < |recs| ::
         && FromLe(w[at + 16 * k..at + 16 * k + 8]) == recs[k].offset
         && w[at + 16 * k + 8..at + 16 * k + 16] == recs[k].entropy
  }

  /** Records of an eight-byte offset, a four-byte length and four zero bytes. */
  ghost predicate StringsOk(w: Word, at: nat, recs: seq<Strings.Rec>) {
    && at + 16 * |recs| <= |w|
    && forall k: nat | k < |recs| ::
         && FromLe(w[at + 16 * k..at + 16 * k + 8]) == recs[k].offset
         && FromLe(w[at + 16 * k + 8..at + 16 * k + 12]) == recs[k].len
         && FromLe(w[at + 16 * k + 12..at + 16 * k + 16]) == 0
  }

  /** The buffer as the header file documents it, with the byte offsets of every field. */
  ghost predicate Formatted(w: Word, f: Facts) {
    && |w| == 2080 + 16 * |f.entropy| + 16 * |f.strings|
    && HeadOk(w, f.fnv, f.crc, |f.entropy|, |f.strings|)
    && HistOk(w, 32, f.hist)
    && EntropyOk(w, 2080, f.entropy)
    && StringsOk(w, 2080 + 16 * |f.entropy|, f.strings)
  }

  lemma HeadWritten(f: Facts, body: Word)
    requires f.fnv < U64 && f.crc < U32
    ensures HeadOk(Header(f.fnv, f.crc, 256, |f.entropy|, |f.strings|) + body, f.fnv, f.crc, |f.entropy|, |f.strings|)
  {
    hide Le, FromLe, Header;
    HeaderFields(f.fnv, f.crc, 256, |f.entropy|, |f.strings|, body);
    HeaderRest(f.fnv, f.crc, 256, |f.entropy|, |f.strings|, body);
    Le8(f.fnv);
    Le4(f.crc);
    Le4(256);
    Le4(|f.entropy|);
    Le4(|f.strings|);
    Le4(0);
  }

  /** An array somewhere in a buffer. */
  lemma WrittenAt<T>(c: Codec<T>, xs: seq<T>, before: Word, after: Word, k: nat)
    requires k < |xs| && forall x | x in xs :: Inverts(c, x)
    ensures |before| + k * c.size + c.size <= |before + (WriteAll(c, xs) + after)|
    ensures (before + (WriteAll(c, xs) + after))[|before| + k * c.size..|before| + k * c.size + c.size] == c.enc(xs[k])
  {
    hide Inverts, WriteAll;
    WriteAt(c, xs, k);
    OffIs(k, c.size);
    var w, off := WriteAll(c, xs), Off(k, c.size);
    assert (before + (w + after))[|before| + off..|before| + off + c.size] == w[off..off + c.size];
  }

  lemma HistWritten(hist: seq<nat>, before: Word, after: Word)
    requires |hist| == 256 && forall v | v in hist :: v < U64
    ensures HistOk(before + (WriteAll(BarCodec(), hist) + after), |before|, hist)
  {
    hide Le, FromLe, Inverts, WriteAll;
    var w := before + (WriteAll(BarCodec(), hist) + after);
    forall v | v in hist ensures Inverts(BarCodec(), v) { BarInverts(v); }
    SizeIs(BarCodec(), hist, 8);
    forall k: nat | k < 256 ensures FromLe(w[|before| + 8 * k..|before| + 8 * k + 8]) == hist[k] {
      WrittenAt(BarCodec(), hist, before, after, k);
      assert hist[k] in hist;
      Le8(hist[k]);
    }
  }

  lemma EntropyWritten(recs: seq<EntropyRec>, before: Word, after: Word)
    requires forall r | r in recs :: r.offset < U64
    ensures EntropyOk(before + (WriteAll(EntropyCodec(), recs) + after), |before|, recs)
  {
    hide Le, FromLe, Inverts, WriteAll;
    var w := before + (WriteAll(EntropyCodec(), recs) + after);
    forall r | r in recs ensures Inverts(EntropyCodec(), r) { EntropyInverts(r); }
    SizeIs(EntropyCodec(), recs, 16);
    forall k: nat | k < |recs|
      ensures FromLe(w[|before| + 16 * k..|before| + 16 * k + 8]) == recs[k].offset
      ensures w[|before| + 16 * k + 8..|before| + 16 * k + 16] == recs[k].entropy
    {
      WrittenAt(EntropyCodec(), recs, before, after, k);
      var at, x := |before| + 16 * k, w[|before| + 16 * k..|before| + 16 * k + 16];
      assert recs[k] in recs;
      HeadTail(Le(recs[k].offset, 8), recs[k].entropy);
      Le8(recs[k].offset);
      assert w[at..at + 8] == x[..8] && w[at + 8..at + 16] == x[8..];
    }
  }

  lemma StringsWritten(recs: seq<Strings.Rec>, before: Word, after: Word)
    requires forall r | r in recs :: r.offset < U64 && r.len < U32
    ensures StringsOk(before + (WriteAll(StringCodec(), recs) + after), |before|, recs)
  {
    hide Le, FromLe, Inverts, WriteAll;
    var w := before + (WriteAll(StringCodec(), recs) + after);
    forall r | r in recs ensures Inverts(StringCodec(), r) { StringInverts(r); }
    SizeIs(StringCodec(), recs, 16);
    forall k: nat | k < |recs|
      ensures FromLe(w[|before| + 16 * k..|before| + 16 * k + 8]) == recs[k].offset
      ensures FromLe(w[|before| + 16 * k + 8..|before| + 16 * k + 12]) == recs[k].len
      ensures FromLe(w[|before| + 16 * k + 12..|before| + 16 * k + 16]) == 0
    {
      WrittenAt(StringCodec(), recs, before, after, k);
      var at, x, r := |before| + 16 * k, w[|before| + 16 * k..|before| + 16 * k + 16], recs[k];
      assert r in recs;
      StringParts(x, r);
      assert w[at..at + 8] == x[..8] && w[at + 8..at + 12] == x[8..12] && w[at + 12..at + 16] == x[12..16];
    }
  }

  lemma StringParts(x: Word, r: Strings.Rec)
    requires x == EncString(r) && r.offset < U64 && r.len < U32
    ensures |x| == 16 && FromLe(x[..8]) == r.offset && FromLe(x[8..12]) == r.len && FromLe(x[12..16]) == 0
  {
    hide Le, FromLe;
    var a, b, c := Le(r.offset, 8), Le(r.len, 4), Le(0, 4);
    assert x[..8] == a && x[8..12] == b && x[12..16] == c;
    Le8(r.offset);
    Le4(r.len);
    Le4(0);
  }

  /** What the writer lays down is the documented format. */
  lemma LayoutFormatted(f: Facts)
    requires FieldsFit(f)
    ensures Formatted(Layout(f), f)
  {
    hide WriteAll, Header, HeadOk, HistOk, EntropyOk, StringsOk, Inverts;
    var head := Header(f.fnv, f.crc, 256, |f.entropy|, |f.strings|);
    var bars, ents, strs := WriteAll(BarCodec(), f.hist), WriteAll(EntropyCodec(), f.entropy),
      WriteAll(StringCodec(), f.strings);
    BodyInverts(f);
    SizeIs(BarCodec(), f.hist, 8);
    SizeIs(EntropyCodec(), f.entropy, 16);
    SizeIs(StringCodec(), f.strings, 16);
    HeadWritten(f, bars + (ents + strs));
    HistWritten(f.hist, head, ents + strs);
    EntropyWritten(f.entropy, head + bars, strs);
    StringsWritten(f.strings, head + bars + ents, []);
    var w := Layout(f);
    assert w == head + (bars + (ents + strs)) == (head + bars) + (ents + strs) == (head + bars + ents) + (strs + []);
  }

  lemma SizeIs<T>(c: Codec<T>, xs: seq<T>, size: nat)
    requires c.size == size && forall x | x in xs :: Inverts(c, x)
    ensures |WriteAll(c, xs)| == size * |xs|
  {
    hide Inverts, WriteAll;
    WriteSize(c, xs);
  }

  // ---------------------------------------------------------------- what is written

  ghost function Plain(): Strings.Filter {
    Strings.Filter(4, -1.0, (w: Word) => 0.0)
  }

  function Capped<T>(s: seq<T>): seq<T> {
    if |s| <= MAX_STRINGS then s else s[..MAX_STRINGS]
  }

  function FnvNumber(text: Word): nat {
    FnvBytes(text) as nat
  }

  function CrcNumber(text: Word): nat {
    CrcOf(text) as nat
  }

  ghost function FactsOf(text: Word, bs: nat, measure: Measure): Facts
    requires bs > 0
  {
    Facts(FnvNumber(text), CrcNumber(text), Bars(text, 256), Profile(text, bs, measure, BlockCount(|text|, bs)),
          Capped(Strings.SequentialStrings(text, Plain())))
  }

  lemma CapStep<T>(s: seq<T>, x: seq<T>, rest: seq<T>)
    requires |s| <= MAX_STRINGS && |x| <= 1
    ensures Capped(s + (x + rest)) == Capped((if |s| < MAX_STRINGS then s + x else s) + rest)
  {
    if |s| < MAX_STRINGS {
      assert s + (x + rest) == (s + x) + rest;
    } else {
      assert (s + (x + rest))[..MAX_STRINGS] == s && (s + rest)[..MAX_STRINGS] == s;
    }
  }

  lemma EmitPlain(text: Word, s: nat, e: nat)
    requires s <= e <= |text|
    ensures Strings.Emit(text, Plain(), Strings.Run(s, e)) == if e - s >= 4 then [Strings.Rec(s, (e - s) % U32)] else []
  {
  }

  /** The string loop of g-recon: closed runs first, the run open at the end last, at most 2000. */
  method ScanStrings(text: Word) returns (recs: seq<Strings.Rec>)
    ensures recs == Capped(Strings.SequentialStrings(text, Plain()))
  {
    hide Strings.Rest, Strings.Emit, Capped, Plain, Strings.EmitAll, Strings.ChunkRuns;
    var inStr, runStart, total := false, 0, |text|;
    recs := [];
    ghost var f := Plain();
    Strings.RestAll(text, f, 0, total);
    ghost var goal := Capped(Strings.SequentialStrings(text, f));
    assert [] + Strings.Rest(text, f, 0, total, Strings.Outside) == Strings.Rest(text, f, 0, total, Strings.Outside);
    for i := 0 to total
      invariant |recs| <= MAX_STRINGS && (inStr ==> runStart <= i)
      invariant Capped(recs + Strings.Rest(text, f, i, total, Strings.AsState(inStr, runStart))) == goal
    {
      Strings.RestUnfold(text, f, i, total, Strings.AsState(inStr, runStart));
      var c := text[i];
      if c >= 0x20 && c <= 0x7E {
        if !inStr { inStr, runStart := true, i; }
      } else if inStr {
        EmitPlain(text, runStart, i);
        CapStep(recs, Strings.Emit(text, f, Strings.Run(runStart, i)),
          Strings.Rest(text, f, i + 1, total, Strings.Outside));
        assert recs + [] == recs;
        var len := i - runStart;
        if len >= 4 && |recs| < MAX_STRINGS { recs := recs + [Strings.Rec(runStart, len % U32)]; }
        inStr := false;
      }
    }
    Strings.RestEnd(text, f, total, Strings.AsState(inStr, runStart));
    if inStr {
      EmitPlain(text, runStart, total);
      CapStep(recs, Strings.Emit(text, f, Strings.Run(runStart, total)), []);
      assert Strings.Emit(text, f, Strings.Run(runStart, total)) + [] ==
             Strings.Emit(text, f, Strings.Run(runStart, total));
    }
    if inStr && |recs| < MAX_STRINGS {
      var len := total - runStart;
      if len >= 4 { recs := recs + [Strings.Rec(runStart, len % U32)]; }
    }
    assert recs + [] == recs;
    CapFits(recs);
  }

  lemma CapFits<T>(s: seq<T>)
    requires |s| <= MAX_STRINGS
    ensures Capped(s) == s
  {
  }

  method CountBytes(text: Word) returns (bars: seq<nat>)
    ensures bars == Bars(text, 256)
  {
    var hist := new nat[256](_ => 0);
    HistChunk(text, 0, |text|, hist);
    assert text[0..|text|] == text;
    bars := hist[..];
  }

  method EntropyBlocks(text: Word, bs: nat, measure: Measure) returns (recs: seq<EntropyRec>)
    requires bs > 0 && text != []
    ensures recs == Profile(text, bs, measure, BlockCount(|text|, bs))
  {
    hide Off, Slice, RecAt, BlockCount;
    var n := BlockCount(|text|, bs);
    recs := [];
    for b := 0 to n
      invariant recs == Profile(text, bs, measure, b)
    {
      InsideIff(|text|, bs, b);
      recs := recs + [RecAt(text, Off(b, bs), bs, measure)];
    }
  }

  /** `run_recon`: an empty file leaves the arena empty. */
  method RunRecon(text: Word, entropyBlock: int, measure: Measure) returns (arena: Word)
    ensures arena == if text == [] then []
                     else Layout(FactsOf(text, if entropyBlock < 4096 then 4096 else entropyBlock, measure))
    ensures 0 < |text| < U64 ==>
              Formatted(arena, FactsOf(text, if entropyBlock < 4096 then 4096 else entropyBlock, measure))
  {
    hide WriteAll, Header, BlockCount, Profile, Formatted;
    if text == [] { return []; }
    var bs := if entropyBlock < 4096 then 4096 else entropyBlock;
    var fnv, crc := ReconHash(text);
    var hist := CountBytes(text);
    var strings := ScanStrings(text);
    var entropy := EntropyBlocks(text, bs, measure);
    arena := Header(fnv as nat, crc as nat, 256, |entropy|, |strings|) +
             (WriteAll(BarCodec(), hist) + (WriteAll(EntropyCodec(), entropy) + WriteAll(StringCodec(), strings)));
    if |text| < U64 {
      FactsFit(text, bs, measure);
      LayoutFormatted(FactsOf(text, bs, measure));
    }
  }

  // ---------------------------------------------------------------- the round trip

  lemma CappedPrefix<T>(s: seq<T>)
    ensures Capped(s) <= s && |Capped(s)| == (if |s| < MAX_STRINGS then |s| else MAX_STRINGS)
  {
  }

  lemma StringFields(text: Word, r: Strings.Rec)
    requires r in Strings.SequentialStrings(text, Plain())
    ensures r.offset < |text| && r.len < U32
  {
    Strings.SequentialStringsExact(text, Plain(), r);
  }

  lemma FactsFit(text: Word, bs: nat, measure: Measure)
    requires bs > 0 && |text| < U64
    ensures FieldsFit(FactsOf(text, bs, measure))
  {
    hide Off, Slice, BlockCount, Profile, Strings.SequentialStrings, Plain, Capped;
    var f := FactsOf(text, bs, measure);
    forall v | v in f.hist ensures v < U64 {
      assert v <= |multiset(text)|;
    }
    forall r | r in f.entropy ensures r.offset < U64 {
      var k :| 0 <= k < |f.entropy| && f.entropy[k] == r;
      InsideIff(|text|, bs, k);
    }
    forall r | r in f.strings ensures r.offset < U64 && r.len < U32 {
      CappedPrefix(Strings.SequentialStrings(text, Plain()));
      StringFields(text, r);
    }
  }

  /** On every non-empty file the parser recovers what the writer saw, exactly when the number of
      entropy blocks fits 32 bits. */
  lemma ReconRoundTrip(text: Word, bs: nat, measure: Measure)
    requires bs > 0 && 0 < |text| < U64
    ensures Parse(Layout(FactsOf(text, bs, measure))) == Parsed(FactsOf(text, bs, measure)) <==>
              BlockCount(|text|, bs) < U32
  {
    hide Parse, Layout, FieldsFit;
    FactsFit(text, bs, measure);
    ParseInvertsLayout(FactsOf(text, bs, measure));
  }

  /** What is recovered: the byte counts, which sum to the file size; one entropy record per block in
      order, with the measure of its bytes; and the first strings of the list that g-strings gives on a
      line-safe file under any schedule. */
  lemma ReconMeans(text: Word, bs: nat, measure: Measure, C: nat, L: nat, n: nat, sched: seq<nat>,
        sorted: seq<Strings.Rec>)
    requires bs > 0 && C > 0 && LineSafe(text, C, L) && n > 0
    requires AllDone(Schedule.Run(ChunkJob(text, C, L, Strings.ChunkRecs(text, Plain())), n, sched))
    requires SortOf(Strings.Offset(),
             Merged(Schedule.Run(ChunkJob(text, C, L, Strings.ChunkRecs(text, Plain())), n, sched).workers), sorted)
    ensures var f := FactsOf(text, bs, measure);
            && Sum(f.hist) == |text|
            && (forall c: byte :: f.hist[c] == multiset(text)[c])
            && |f.entropy| == BlockCount(|text|, bs)
            && (forall k | 0 <= k < |f.entropy| ::
                  0 <= k * bs < |text| &&
                    f.entropy[k] == EntropyRec(k * bs, measure(text[k * bs..Min(k * bs + bs, |text|)])))
            && f.strings <= sorted
            && |f.strings| == (if |sorted| < MAX_STRINGS then |sorted| else MAX_STRINGS)
  {
    hide Off, Slice, BlockCount, Profile, Strings.SequentialStrings, Plain, Capped, SortOf;
    var f := FactsOf(text, bs, measure);
    BarsSum(text);
    forall k | 0 <= k < |f.entropy|
      ensures 0 <= k * bs < |text| &&
                f.entropy[k] == EntropyRec(k * bs, measure(text[k * bs..Min(k * bs + bs, |text|)]))
    {
      InsideIff(|text|, bs, k);
      OffIs(k, bs);
      SliceIs(text, k * bs, bs);
    }
    Strings.StringsPipeline(text, C, L, Plain(), n, sched, sorted);
    CappedPrefix(Strings.SequentialStrings(text, Plain()));
  }

  // ---------------------------------------------------------------- the parser on any buffer

  /** The bytes that the header claims: itself, the counters and the entropy records. */
  function Claimed(bytes: Word): nat
    requires |bytes| >= HEADER
  {
    32 + 8 * FromLe(bytes[12..16]) + 16 * FromLe(bytes[16..20])
  }

  /** On any buffer: nothing exactly when it is shorter than the header, such as the empty arena of an
      empty file; a panic exactly when it is shorter than the header claims; otherwise the claimed
      counters and entropy records, and all whole string records that follow. */
  lemma ParseShape(bytes: Word)
    ensures Parse(bytes) == Missing <==> |bytes| < 32
    ensures Parse(bytes) == Panics <==> 32 <= |bytes| < Claimed(bytes)
    ensures Parse(bytes).Parsed? ==>
              var f := Parse(bytes).facts;
              && |f.hist| == FromLe(bytes[12..16]) && |f.entropy| == FromLe(bytes[16..20])
              && |f.strings| == (|bytes| - Claimed(bytes)) / 16
  {
    hide ReadMany, ReadRest, FromLe;
    if |bytes| >= HEADER {
      var n, m, body := FromLe(bytes[12..16]), FromLe(bytes[16..20]), bytes[HEADER..];
      ReadManySome(BarCodec(), body, n);
      OffIs(n, 8);
      if 8 * n <= |body| {
        ReadManySome(EntropyCodec(), body[8 * n..], m);
        OffIs(m, 16);
        if 8 * n + 16 * m <= |body| {
          var rest := body[8 * n..][16 * m..];
          ReadRestSize(StringCodec(), rest);
          OffIs(|ReadRest(StringCodec(), rest)|, 16);
        }
      }
    }
  }

  /** What has been read from where. */
  lemma ParseParts(bytes: Word)
    requires Parse(bytes).Parsed?
    ensures |bytes| >= Claimed(bytes)
    ensures var f, n, m := Parse(bytes).facts, FromLe(bytes[12..16]), FromLe(bytes[16..20]);
            && f.fnv == FromLe(bytes[0..8]) && f.crc == FromLe(bytes[8..12])
            && |f.hist| == n && |f.entropy| == m
            && ReadMany(BarCodec(), bytes[32..], n) == Some(f.hist)
            && ReadMany(EntropyCodec(), bytes[32 + 8 * n..], m) == Some(f.entropy)
            && ReadRest(StringCodec(), bytes[Claimed(bytes)..]) == f.strings
  {
    hide ReadMany, ReadRest, FromLe;
    ParseShape(bytes);
    var n, m, body := FromLe(bytes[12..16]), FromLe(bytes[16..20]), bytes[HEADER..];
    assert body[8 * n..] == bytes[32 + 8 * n..];
    assert body[8 * n..][16 * m..] == bytes[Claimed(bytes)..];
  }

  lemma SubSlice(w: Word, from: nat, i: nat, j: nat)
    requires from + j <= |w| && i <= j
    ensures w[from..][i..j] == w[from + i..from + j]
  {
  }

  /** And what it is: the hashes, and counter `k` at its place. */
  lemma ParseHist(bytes: Word, k: nat)
    requires Parse(bytes).Parsed?
    ensures |bytes| >= 32
    ensures Parse(bytes).facts.fnv == FromLe(bytes[0..8]) && Parse(bytes).facts.crc == FromLe(bytes[8..12])
    ensures k < |Parse(bytes).facts.hist| ==>
              40 + 8 * k <= |bytes| && Parse(bytes).facts.hist[k] == FromLe(bytes[32 + 8 * k..40 + 8 * k])
  {
    hide ReadMany, ReadRest, FromLe, Parse;
    ParseParts(bytes);
    var f, n := Parse(bytes).facts, FromLe(bytes[12..16]);
    if k < n {
      ReadManyIs(BarCodec(), bytes[32..], n, k);
      OffIs(k, 8);
      SubSlice(bytes, 32, 8 * k, 8 * k + 8);
    }
  }

  /** Entropy record `k` at its place. */
  lemma ParseEntropy(bytes: Word, k: nat)
    requires Parse(bytes).Parsed? && k < |Parse(bytes).facts.entropy|
    ensures |bytes| >= 32
    ensures var at := 32 + 8 * FromLe(bytes[12..16]) + 16 * k;
            && at + 16 <= |bytes|
            && Parse(bytes).facts.entropy[k] == EntropyRec(FromLe(bytes[at..at + 8]), bytes[at + 8..at + 16])
  {
    hide ReadMany, ReadRest, FromLe, Parse, DecEntropy;
    ParseParts(bytes);
    var n, m := FromLe(bytes[12..16]), FromLe(bytes[16..20]);
    ReadManyIs(EntropyCodec(), bytes[32 + 8 * n..], m, k);
    OffIs(k, 16);
    SubSlice(bytes, 32 + 8 * n, 16 * k, 16 * k + 16);
    DecEntropyIs(bytes, 32 + 8 * n + 16 * k);
  }

  /** String record `k` at its place. */
  lemma ParseStrings(bytes: Word, k: nat)
    requires Parse(bytes).Parsed? && k < |Parse(bytes).facts.strings|
    ensures |bytes| >= 32
    ensures var at := Claimed(bytes) + 16 * k;
            && at + 16 <= |bytes|
            && Parse(bytes).facts.strings[k] == Strings.Rec(FromLe(bytes[at..at + 8]), FromLe(bytes[at + 8..at + 12]))
  {
    hide ReadMany, ReadRest, FromLe, Parse, DecString;
    ParseParts(bytes);
    ReadRestIs(StringCodec(), bytes[Claimed(bytes)..], k);
    OffIs(k, 16);
    SubSlice(bytes, Claimed(bytes), 16 * k, 16 * k + 16);
    DecStringIs(bytes, Claimed(bytes) + 16 * k);
  }

  lemma DecEntropyIs(bytes: Word, at: nat)
    requires at + 16 <= |bytes|
    ensures DecEntropy(bytes[at..at + 16]) == EntropyRec(FromLe(bytes[at..at + 8]), bytes[at + 8..at + 16])
  {
    hide FromLe;
    var x := bytes[at..at + 16];
    assert x[..8] == bytes[at..at + 8] && x[8..] == bytes[at + 8..at + 16];
  }

  lemma DecStringIs(bytes: Word, at: nat)
    requires at + 16 <= |bytes|
    ensures DecString(bytes[at..at + 16]) == Strings.Rec(FromLe(bytes[at..at + 8]), FromLe(bytes[at + 8..at + 12]))
  {
    hide FromLe;
    var x := bytes[at..at + 16];
    assert x[..8] == bytes[at..at + 8];
    assert x[8..12] == bytes[at + 8..at + 12] by {
      forall i | 0 <= i < 4 ensures x[8..12][i] == bytes[at + 8..at + 12][i] {
        assert x[8..12][i] == x[8 + i] == bytes[at + 8 + i];
      }
    }
  }
}

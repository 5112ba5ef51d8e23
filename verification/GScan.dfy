/** g-scan: one pass of the automaton over the file in 64-byte blocks, where a block is skipped
    when the automaton is at the root and no byte of the block starts a pattern. */
module GScan {
  import opened Bytes
  import opened TrieWords
  import opened HopCost
  import opened AhoCorasick
  import opened ScanSpec
  import opened SimdScan

  // ---------------------------------------------------------------- first-byte filter

  predicate AllNonEmpty(pats: seq<Word>) {
    forall k | 0 <= k < |pats| :: pats[k] != []
  }

  /** Flags of the bytes that start some pattern. */
  function FirstBytes(pats: seq<Word>): (fb: seq<bool>)
    requires AllNonEmpty(pats)
    ensures |fb| == 256
  {
    if pats == [] then seq(256, _ => false)
    else FirstBytes(pats[..|pats| - 1])[pats[|pats| - 1][0] as int := true]
  }

  lemma {:induction false} FirstBytesExact(pats: seq<Word>, b: byte)
    requires AllNonEmpty(pats)
    ensures FirstBytes(pats)[b as int] <==> [b] in TrieOf(pats)
  {
    if pats != [] {
      var n := |pats| - 1;
      FirstBytesExact(pats[..n], b);
      assert [b] in Prefixes(pats[n]) <==> pats[n][0] == b by {
        if pats[n][0] == b { assert pats[n][..1] == [b]; }
      }
    }
  }

  class SkipFilter {
    var fb: seq<bool>
    var any: bool

    constructor ()
      ensures fb == FirstBytes([]) && !any
    {
      fb, any := seq(256, _ => false), false;
    }

    method Add(b: byte)
      requires |fb| == 256
      modifies this
      ensures fb == old(fb)[b as int := true] && any
    {
      fb, any := fb[b as int := true], true;
    }
  }

  /** The flagged bytes below `n`, ascending. */
  function Uniques(fb: seq<bool>, n: nat): (u: seq<byte>)
    requires |fb| == 256 && n <= 256
    ensures forall b: byte :: b in u <==> b as int < n && fb[b as int]
  {
    if n == 0 then []
    else if fb[n - 1] then Uniques(fb, n - 1) + [(n - 1) as byte] else Uniques(fb, n - 1)
  }

  lemma {:induction false} UniquesAscend(fb: seq<bool>, n: nat)
    requires |fb| == 256 && n <= 256
    ensures forall i, j | 0 <= i < j < |Uniques(fb, n)| :: Uniques(fb, n)[i] < Uniques(fb, n)[j]
  {
    if n != 0 {
      UniquesAscend(fb, n - 1);
      var u := Uniques(fb, n - 1);
      assert forall i | 0 <= i < |u| :: u[i] in u;
    }
  }

  method CollectUniques(fb: seq<bool>) returns (uniq: seq<byte>)
    requires |fb| == 256
    ensures uniq == Uniques(fb, 256)
  {
    uniq := [];
    for b := 0 to 256
      invariant uniq == Uniques(fb, b)
    {
      if fb[b] { uniq := uniq + [b as byte]; }
    }
  }

  // ---------------------------------------------------------------- the skip gate

  /** Does the scalar mask of a block have any bit set? */
  ghost predicate ScalarFires(fb: seq<bool>, block: Word)
    requires |fb| == 256
  {
    exists i | 0 <= i < |block| :: fb[block[i] as int]
  }

  /** Does the AVX2 mask? With at most 32 distinct first bytes every byte of the block is compared with
      all of them; with more, the first half of the block only with the first 32 and the second half
      only with the others. */
  ghost predicate Avx2Fires(uniq: seq<byte>, block: Word)
    requires |block| == 64
  {
    exists i, j | 0 <= i < 64 && 0 <= j < |uniq| ::
      uniq[j] == block[i] && (|uniq| <= 32 || (i < 32 <==> j < 32))
  }

  /** The flags of the bytes of a block. */
  function FlagLanes(fb: seq<bool>, block: Word): (lanes: seq<bool>)
    requires |fb| == 256
    ensures |lanes| == |block| && forall i | 0 <= i < |block| :: lanes[i] == fb[block[i] as int]
  {
    if block == [] then [] else FlagLanes(fb, block[..|block| - 1]) + [fb[block[|block| - 1] as int]]
  }

  /** Bit i is set exactly when byte i of the block starts a pattern. */
  method ScalarMask(fb: seq<bool>, block: Word) returns (mask: bv64)
    requires |fb| == 256 && |block| == 64
    ensures IsMask(mask, FlagLanes(fb, block))
    ensures mask != 0 <==> ScalarFires(fb, block)
  {
    hide WithBit, Bit, FlagLanes;
    mask := 0;
    NoLanes();
    ghost var lanes := FlagLanes(fb, block);
    for i := 0 to 64
      invariant IsMask(mask, lanes[..i])
    {
      SetLane(mask, lanes[..i], lanes[i]);
      assert lanes[..i] + [lanes[i]] == lanes[..i + 1];
      if fb[block[i] as int] { mask := WithBit(mask, i); }
    }
    assert lanes[..64] == lanes;
    ZeroMask(mask, lanes);
    assert (exists i | 0 <= i < |block| :: fb[block[i] as int]) <==> exists i | 0 <= i < |lanes| :: lanes[i];
  }

  /** One comparison of a 32-byte half with `t`, or-ed into the mask. */
  function OrEq(mask: bv64, half: Word, t: byte, high: bool): bv64
    requires |half| == 32
  {
    if high then OrHigh(mask, MoveMask(EqLanes(half, t))) else OrLow(mask, MoveMask(EqLanes(half, t)))
  }

  lemma OrEqAt(mask: bv64, half: Word, t: byte, high: bool, i: nat)
    requires |half| == 32 && i < 64
    ensures Bit(OrEq(mask, half, t, high), i) <==>
              Bit(mask, i) || (if high then i >= 32 && half[i - 32] == t else i < 32 && half[i] == t)
  {
    hide Bit, MoveMask, OrLow, OrHigh;
    var lanes := EqLanes(half, t);
    MoveMaskIs(lanes);
    OrBothAt(mask, MoveMask(lanes), i);
  }

  lemma OrEqStep(mask: bv64, next: bv64, block: Word, uniq: seq<byte>, from: nat, j: nat, high: bool)
    requires |block| == 64 && from <= j < |uniq|
    requires next == OrEq(mask, if high then block[32..] else block[..32], uniq[j], high)
    ensures forall i: nat | i < 64 ::
              Bit(next, i) <==> Bit(mask, i) || ((i >= 32) == high && block[i] == uniq[j])
    ensures forall b :: b in uniq[from..j + 1] <==> b in uniq[from..j] || b == uniq[j]
  {
    hide Bit, OrEq;
    var half := if high then block[32..] else block[..32];
    forall i: nat | i < 64 ensures Bit(next, i) <==> Bit(mask, i) || ((i >= 32) == high && block[i] == uniq[j]) {
      OrEqAt(mask, half, uniq[j], high, i);
    }
    assert uniq[from..j + 1] == uniq[from..j] + [uniq[j]];
  }

  /** Bit i is set exactly when byte i equals one of the bytes its half is compared with. */
  method Avx2Mask(uniq: seq<byte>, block: Word) returns (mask: bv64)
    requires |block| == 64
    ensures forall i: nat | i < 64 ::
              Bit(mask, i) <==>
              exists j | 0 <= j < |uniq| :: uniq[j] == block[i] && (|uniq| <= 32 || (i < 32 <==> j < 32))
    ensures mask != 0 <==> Avx2Fires(uniq, block)
  {
    hide OrEq, Bit;
    mask := 0;
    NoBits(mask);
    var nUniq := |uniq|;
    var n0 := if nUniq < 32 then nUniq else 32;
    for j := 0 to n0
      invariant forall i: nat | i < 64 :: Bit(mask, i) <==> i < 32 && block[i] in uniq[0..j]
    {
      ghost var before := mask;
      mask := OrEq(mask, block[..32], uniq[j], false);
      OrEqStep(before, mask, block, uniq, 0, j, false);
    }
    var start := if nUniq > 32 then 32 else 0;
    for j := start to nUniq
      invariant forall i: nat | i < 64 ::
                  Bit(mask, i) <==> if i < 32 then block[i] in uniq[0..n0] else block[i] in uniq[start..j]
    {
      ghost var before := mask;
      mask := OrEq(mask, block[32..], uniq[j], true);
      OrEqStep(before, mask, block, uniq, start, j, true);
    }
    MaskMeans(mask, uniq, block, n0, start);
    NoBits(mask);
  }

  lemma MaskMeans(mask: bv64, uniq: seq<byte>, block: Word, n0: nat, start: nat)
    requires |block| == 64 && n0 == Min(|uniq|, 32) && start == if |uniq| > 32 then 32 else 0
    requires forall i: nat | i < 64 ::
               Bit(mask, i) <==> if i < 32 then block[i] in uniq[0..n0] else block[i] in uniq[start..|uniq|]
    ensures forall i: nat | i < 64 ::
              Bit(mask, i) <==>
              exists j | 0 <= j < |uniq| :: uniq[j] == block[i] && (|uniq| <= 32 || (i < 32 <==> j < 32))
    ensures (exists i: nat | i < 64 :: Bit(mask, i)) <==> Avx2Fires(uniq, block)
  {
    hide Bit;
    forall i: nat | i < 64
      ensures Bit(mask, i) <==>
              exists j | 0 <= j < |uniq| :: uniq[j] == block[i] && (|uniq| <= 32 || (i < 32 <==> j < 32))
    {
      var lo, hi := if i < 32 then 0 else start, if i < 32 then n0 else |uniq|;
      if j :| 0 <= j < |uniq| && uniq[j] == block[i] && (|uniq| <= 32 || (i < 32 <==> j < 32)) {
        assert uniq[lo..hi][j - lo] == block[i];
      }
      if block[i] in uniq[lo..hi] {
        var k :| 0 <= k < hi - lo && uniq[lo..hi][k] == block[i];
        assert uniq[lo + k] == block[i];
      }
    }
    if i, j :| 0 <= i < 64 && 0 <= j < |uniq| && uniq[j] == block[i] && (|uniq| <= 32 || (i < 32 <==> j < 32)) {
      assert Bit(mask, i);
    }
  }

  // ---------------------------------------------------------------- the gated scan

  /** What a scan reports and how many failure hops it takes to advance. */
  datatype Scanned = Scanned(out: seq<ScanRec>, hops: nat)

  /** The automaton state after bytes p, ..., q-1. */
  ghost function Feed(T: set<Word>, text: Word, x: Word, p: nat, q: nat): Word
    requires p <= q <= |text|
    decreases q - p
  {
    if p == q then x else Feed(T, text, LongestSuffix(T, x + [text[p]]), p + 1, q)
  }

  /** Which of the two masks a build uses, and over which filter. */
  datatype Gate = ScalarGate(fb: seq<bool>) | Avx2Gate(uniq: seq<byte>)

  ghost predicate Fires(gate: Gate, block: Word)
    requires |block| == 64
  {
    match gate
    case ScalarGate(fb) => |fb| == 256 && ScalarFires(fb, block)
    case Avx2Gate(uniq) => Avx2Fires(uniq, block)
  }

  /** The scan from state `x` at position `p`: whole blocks behind the gate, then the tail. */
  ghost function GatedScan(T: set<Word>, pats: seq<Word>, text: Word, gate: Gate, p: nat, x: Word): Scanned
    requires p <= |text| && [] in T
    decreases |text| - p
  {
    if p + 64 > |text| then
      Scanned(Emits(T, pats, text, x, p, |text|), HopsOver(T, text, x, p, |text|))
    else if x == [] && !Fires(gate, text[p..p + 64]) then
      GatedScan(T, pats, text, gate, p + 64, x)
    else
      var r := GatedScan(T, pats, text, gate, p + 64, Feed(T, text, x, p, p + 64));
      Scanned(Emits(T, pats, text, x, p, p + 64) + r.out, HopsOver(T, text, x, p, p + 64) + r.hops)
  }

  lemma {:induction false} FeedPrefix(T: set<Word>, text: Word, p: nat, q: nat)
    requires p <= q <= |text| && PrefixClosed(T)
    ensures Feed(T, text, LongestSuffix(T, text[..p]), p, q) == LongestSuffix(T, text[..q])
    decreases q - p
  {
    if p < q {
      PrefixStep(T, text, p);
      FeedPrefix(T, text, p + 1, q);
    }
  }

  /** The gate lets every block through that holds a first byte. */
  ghost predicate Covers(gate: Gate, T: set<Word>) {
    forall block: Word, i | |block| == 64 && 0 <= i < 64 && [block[i]] in T :: Fires(gate, block)
  }

  /** Bytes that start no pattern, read at the root, leave the automaton at the root. */
  lemma {:induction false} DeadBytes(T: set<Word>, text: Word, p: nat, q: nat)
    requires p <= q <= |text| && PrefixClosed(T)
    requires forall i | p <= i < q :: [text[i]] !in T
    ensures Feed(T, text, [], p, q) == [] && HopsOver(T, text, [], p, q) == 0
    decreases q - p
  {
    hide LongestSuffix;
    if p < q {
      FirstByteAbsent(T, text[p]);
      assert [] + [text[p]] == [text[p]];
      DeadBytes(T, text, p + 1, q);
    }
  }

  lemma {:induction false} DeadEmits(T: set<Word>, pats: seq<Word>, text: Word, p: nat, q: nat)
    requires p <= q <= |text| && PrefixClosed(T)
    requires forall i | p <= i < q :: [text[i]] !in T
    ensures Emits(T, pats, text, [], p, q) == []
    decreases q - p
  {
    hide LongestSuffix;
    if p < q {
      FirstByteAbsent(T, text[p]);
      assert [] + [text[p]] == [text[p]];
      DeadEmits(T, pats, text, p + 1, q);
    }
  }

  lemma {:induction false} HopsSplit(T: set<Word>, text: Word, x: Word, p: nat, m: nat, q: nat)
    requires p <= m <= q <= |text| && [] in T
    ensures HopsOver(T, text, x, p, q) == HopsOver(T, text, x, p, m) + HopsOver(T, text, Feed(T, text, x, p, m), m, q)
    decreases m - p
  {
    if p < m { HopsSplit(T, text, LongestSuffix(T, x + [text[p]]), p + 1, m, q); }
  }

  /** A block the gate stops holds no first byte: at the root, skipping it changes nothing. */
  lemma SkippedBlock(T: set<Word>, pats: seq<Word>, text: Word, gate: Gate, p: nat)
    requires p + 64 <= |text| && PrefixClosed(T) && Covers(gate, T) && !Fires(gate, text[p..p + 64])
    ensures Emits(T, pats, text, [], p, p + 64) == []
    ensures Feed(T, text, [], p, p + 64) == [] && HopsOver(T, text, [], p, p + 64) == 0
  {
    var block := text[p..p + 64];
    forall i | p <= i < p + 64 ensures [text[i]] !in T { assert block[i - p] == text[i]; }
    DeadBytes(T, text, p, p + 64);
    DeadEmits(T, pats, text, p, p + 64);
  }

  /** Behind a covering gate, one block always contributes what a plain scan of it would. */
  lemma GatedBlock(T: set<Word>, pats: seq<Word>, text: Word, gate: Gate, p: nat, x: Word)
    requires p + 64 <= |text| && PrefixClosed(T) && Covers(gate, T)
    ensures var r := GatedScan(T, pats, text, gate, p + 64, Feed(T, text, x, p, p + 64));
            GatedScan(T, pats, text, gate, p, x) ==
            Scanned(Emits(T, pats, text, x, p, p + 64) + r.out, HopsOver(T, text, x, p, p + 64) + r.hops)
  {
    hide Emits, HopsOver, Feed, Fires;
    if x == [] && !Fires(gate, text[p..p + 64]) {
      SkippedBlock(T, pats, text, gate, p);
    }
  }

  /** Skipping loses nothing: behind a covering gate the scan finds every match that ends after
      `p`, starting from the state of the consumed prefix, and takes the hops of the plain scan. */
  lemma {:induction false} GatedExact(T: set<Word>, pats: seq<Word>, text: Word, gate: Gate, p: nat)
    requires p <= |text| && PrefixClosed(T) && Covers(gate, T)
    requires forall w | w in pats :: w in T
    ensures var x := LongestSuffix(T, text[..p]);
            GatedScan(T, pats, text, gate, p, x) ==
            Scanned(MatchesBetween(pats, text, p, |text|), HopsOver(T, text, x, p, |text|))
    decreases |text| - p
  {
    hide Emits, HopsOver, Feed, Fires, MatchesBetween, LongestSuffix, Covers;
    var x := LongestSuffix(T, text[..p]);
    if p + 64 > |text| {
      EmitsIsMatches(T, pats, text, p, |text|);
    } else {
      var q := p + 64;
      EmitsIsMatches(T, pats, text, p, q);
      MatchesSplit(pats, text, p, q, |text|);
      HopsSplit(T, text, x, p, q, |text|);
      FeedPrefix(T, text, p, q);
      GatedBlock(T, pats, text, gate, p, x);
      GatedExact(T, pats, text, gate, q);
    }
  }

  /** The potential argument over any stretch: hops plus final depth never exceed initial depth
      plus bytes read. */
  lemma {:induction false} HopsBound(T: set<Word>, text: Word, x: Word, p: nat, q: nat)
    requires p <= q <= |text| && PrefixClosed(T) && x in T
    ensures HopsOver(T, text, x, p, q) + |Feed(T, text, x, p, q)| <= |x| + (q - p)
    ensures Feed(T, text, x, p, q) in T
    decreases q - p
  {
    hide LongestSuffix, Hops;
    if p < q {
      var y := LongestSuffix(T, x + [text[p]]);
      HopsPotential(T, x, text[p]);
      LongestSuffixIsLongest(T, x + [text[p]]);
      HopsBound(T, text, y, p + 1, q);
    }
  }

  /** Amortised cost behind any gate: no more failure hops than bytes in the file. */
  lemma {:induction false} GatedHops(T: set<Word>, pats: seq<Word>, text: Word, gate: Gate, p: nat, x: Word)
    requires p <= |text| && PrefixClosed(T) && x in T
    ensures GatedScan(T, pats, text, gate, p, x).hops <= |x| + (|text| - p)
    decreases |text| - p
  {
    if p + 64 > |text| {
      HopsBound(T, text, x, p, |text|);
    } else {
      HopsBound(T, text, x, p, p + 64);
      GatedHops(T, pats, text, gate, p + 64, x);
      GatedHops(T, pats, text, gate, p + 64, Feed(T, text, x, p, p + 64));
    }
  }

  // ---------------------------------------------------------------- what a gate loses

  /** Scanning a stretch from the state of the bytes since `lo`. */
  lemma {:induction false} FeedSince(T: set<Word>, text: Word, lo: nat, p: nat, q: nat)
    requires lo <= p <= q <= |text| && PrefixClosed(T)
    ensures Feed(T, text, LongestSuffix(T, text[lo..p]), p, q) == LongestSuffix(T, text[lo..q])
    decreases q - p
  {
    hide LongestSuffix;
    if p < q {
      SinceStep(T, text, lo, p);
      FeedSince(T, text, lo, p + 1, q);
    }
  }

  lemma SinceStep(T: set<Word>, text: Word, lo: nat, p: nat)
    requires lo <= p < |text| && PrefixClosed(T)
    ensures LongestSuffix(T, text[lo..p + 1]) == LongestSuffix(T, LongestSuffix(T, text[lo..p]) + [text[p]])
  {
    assert text[lo..p + 1] == text[lo..p] + [text[p]];
    LongestSuffixStep(T, text[lo..p], text[p]);
  }

  /** It reports the matches that start at or after `lo` and end in the stretch. */
  lemma {:induction false} EmitsSince(T: set<Word>, pats: seq<Word>, text: Word, lo: nat, p: nat, q: nat, r: ScanRec)
    requires lo <= p <= q <= |text| && PrefixClosed(T)
    requires forall w | w in pats :: w in T
    ensures r in Emits(T, pats, text, LongestSuffix(T, text[lo..p]), p, q) <==>
              OccursAt(pats, text, r) && lo <= r.offset && p < EndOf(pats, r) <= q
    decreases q - p
  {
    hide LongestSuffix, ChainEmit, EndingAt, OccursAt;
    if p < q {
      SinceStep(T, text, lo, p);
      EndingIsChain(T, pats, text, lo, p + 1);
      EndingAtMember(pats, text, lo, p + 1, r);
      EmitsSince(T, pats, text, lo, p + 1, q, r);
    } else {
      NonEmptyMatch(pats, text, r);
    }
  }

  /** The state before block `k`. */
  ghost function StateBefore(T: set<Word>, text: Word, gate: Gate, k: nat): Word
    requires 64 * k <= |text|
    decreases k, 0
  {
    if k == 0 then []
    else if Skipped(T, text, gate, k - 1) then []
    else Feed(T, text, StateBefore(T, text, gate, k - 1), 64 * (k - 1), 64 * k)
  }

  /** Block `k` is skipped: it is whole, the automaton is at the root, and the gate does not fire. */
  ghost predicate Skipped(T: set<Word>, text: Word, gate: Gate, k: nat)
    decreases k, 1
  {
    64 * k + 64 <= |text| && StateBefore(T, text, gate, k) == [] && !Fires(gate, text[64 * k..64 * k + 64])
  }

  lemma NextState(T: set<Word>, text: Word, gate: Gate, k: nat)
    requires 64 * k + 64 <= |text|
    ensures StateBefore(T, text, gate, k + 1) ==
            if Skipped(T, text, gate, k) then []
            else Feed(T, text, StateBefore(T, text, gate, k), 64 * k, 64 * k + 64)
  {
    hide Skipped, Feed;
  }

  /** A match that has begun keeps the automaton off the root. */
  lemma BegunMatch(T: set<Word>, pats: seq<Word>, text: Word, lo: nat, p: nat, r: ScanRec)
    requires lo <= p <= |text| && PrefixClosed(T) && forall w | w in pats :: w in T
    requires OccursAt(pats, text, r) && lo <= r.offset < p < EndOf(pats, r)
    ensures LongestSuffix(T, text[lo..p]) != []
  {
    var w := pats[r.pattern];
    InitIn(T, w, p - r.offset);
    assert text[lo..p][r.offset - lo..] == w[..p - r.offset];
    LongestSuffixIsLongest(T, text[lo..p]);
  }

  lemma {:induction false} InitIn(T: set<Word>, w: Word, n: nat)
    requires PrefixClosed(T) && w in T && n <= |w|
    ensures w[..n] in T
    decreases |w| - n
  {
    if n < |w| {
      InitIn(T, w, n + 1);
      assert Init(w[..n + 1]) == w[..n];
    } else {
      assert w[..n] == w;
    }
  }

  /** From block `k` on, behind any gate, the scan reports exactly the matches that start at or after
      `lo`, end later, and do not start in a block that is skipped. */
  lemma {:induction false} GatedMeansFrom(T: set<Word>, pats: seq<Word>, text: Word, gate: Gate, k: nat, lo: nat,
                                          r: ScanRec)
    requires lo <= 64 * k <= |text| && PrefixClosed(T) && forall w | w in pats :: w in T
    requires StateBefore(T, text, gate, k) == LongestSuffix(T, text[lo..64 * k])
    ensures r in GatedScan(T, pats, text, gate, 64 * k, StateBefore(T, text, gate, k)).out <==>
              && OccursAt(pats, text, r) && lo <= r.offset && 64 * k < EndOf(pats, r)
              && (r.offset >= 64 * k ==> !Skipped(T, text, gate, r.offset / 64))
    decreases |text| - 64 * k
  {
    hide Emits, Feed, HopsOver, LongestSuffix, StateBefore, Fires, OccursAt, GatedScan;
    var p, x := 64 * k, StateBefore(T, text, gate, k);
    NonEmptyMatch(pats, text, r);
    MatchFits(pats, text, r);
    if p + 64 > |text| {
      GatedTail(T, pats, text, gate, p, x);
      EmitsSince(T, pats, text, lo, p, |text|, r);
    } else {
      GatedUnfold(T, pats, text, gate, p, x);
      NextState(T, text, gate, k);
      if Skipped(T, text, gate, k) {
        NothingYet(T, text, p + 64);
        GatedMeansFrom(T, pats, text, gate, k + 1, p + 64, r);
        if OccursAt(pats, text, r) && lo <= r.offset < p < EndOf(pats, r) { BegunMatch(T, pats, text, lo, p, r); }
      } else {
        FeedSince(T, text, lo, p, p + 64);
        EmitsSince(T, pats, text, lo, p, p + 64, r);
        GatedMeansFrom(T, pats, text, gate, k + 1, lo, r);
      }
    }
  }

  lemma GatedTail(T: set<Word>, pats: seq<Word>, text: Word, gate: Gate, p: nat, x: Word)
    requires p <= |text| < p + 64 && [] in T
    ensures GatedScan(T, pats, text, gate, p, x).out == Emits(T, pats, text, x, p, |text|)
  {
  }

  lemma NothingYet(T: set<Word>, text: Word, p: nat)
    requires p <= |text|
    ensures LongestSuffix(T, text[p..p]) == []
  {
  }

  lemma MatchFits(pats: seq<Word>, text: Word, r: ScanRec)
    ensures OccursAt(pats, text, r) ==> 0 <= r.offset && EndOf(pats, r) <= |text|
  {
  }

  /** Behind any gate, a covering one or not: a match is reported exactly when the block in which it
      starts is not skipped, and nothing but matches is reported. */
  lemma GatedMeans(T: set<Word>, pats: seq<Word>, text: Word, gate: Gate, r: ScanRec)
    requires PrefixClosed(T) && forall w | w in pats :: w in T
    ensures r in GatedScan(T, pats, text, gate, 0, []).out <==>
              OccursAt(pats, text, r) && !Skipped(T, text, gate, r.offset / 64)
  {
    hide Skipped, GatedScan, OccursAt, LongestSuffix;
    NothingYet(T, text, 0);
    MatchFits(pats, text, r);
    NonEmptyMatch(pats, text, r);
    GatedMeansFrom(T, pats, text, gate, 0, 0, r);
  }

  /** In report order, too. */
  lemma {:induction false} EmitsOrdered(T: set<Word>, pats: seq<Word>, text: Word, lo: nat, p: nat, q: nat)
    requires lo <= p <= q <= |text| && PrefixClosed(T) && forall w | w in pats :: w in T
    ensures Ordered(pats, Emits(T, pats, text, LongestSuffix(T, text[lo..p]), p, q))
    decreases q - p
  {
    hide LongestSuffix, ChainEmit, EndingAt, Ordered, Before;
    if p < q {
      var s := EndingAt(pats, text, lo, p + 1);
      var t := Emits(T, pats, text, LongestSuffix(T, text[lo..p + 1]), p + 1, q);
      SinceStep(T, text, lo, p);
      EndingIsChain(T, pats, text, lo, p + 1);
      EndingAtOrdered(pats, text, lo, p + 1);
      EmitsOrdered(T, pats, text, lo, p + 1, q);
      forall a | a in s ensures OccursAt(pats, text, a) && EndOf(pats, a) <= p + 1 {
        EndingAtMember(pats, text, lo, p + 1, a);
      }
      forall b | b in t ensures OccursAt(pats, text, b) && p + 1 < EndOf(pats, b) {
        EmitsSince(T, pats, text, lo, p + 1, q, b);
      }
      OrderedByEnd(pats, text, s, t, p + 1);
    } else {
      NoneOrdered(pats);
    }
  }

  lemma OrderedByEnd(pats: seq<Word>, text: Word, s: seq<ScanRec>, t: seq<ScanRec>, e: int)
    requires Ordered(pats, s) && Ordered(pats, t)
    requires forall a | a in s :: OccursAt(pats, text, a) && EndOf(pats, a) <= e
    requires forall b | b in t :: OccursAt(pats, text, b) && e < EndOf(pats, b)
    ensures Ordered(pats, s + t)
  {
    hide Ordered;
    forall r | r in s || r in t ensures 0 <= r.pattern < |pats| { NonEmptyMatch(pats, text, r); }
    OrderedConcat(pats, s, t);
  }

  lemma NoneOrdered(pats: seq<Word>)
    ensures Ordered(pats, [])
  {
  }

  lemma {:induction false} GatedOrderedFrom(T: set<Word>, pats: seq<Word>, text: Word, gate: Gate, k: nat, lo: nat)
    requires lo <= 64 * k <= |text| && PrefixClosed(T) && forall w | w in pats :: w in T
    requires StateBefore(T, text, gate, k) == LongestSuffix(T, text[lo..64 * k])
    ensures Ordered(pats, GatedScan(T, pats, text, gate, 64 * k, StateBefore(T, text, gate, k)).out)
    decreases |text| - 64 * k
  {
    hide Emits, Feed, HopsOver, LongestSuffix, StateBefore, Fires, GatedScan, Ordered;
    var p, x := 64 * k, StateBefore(T, text, gate, k);
    if p + 64 > |text| {
      GatedTail(T, pats, text, gate, p, x);
      EmitsOrdered(T, pats, text, lo, p, |text|);
    } else {
      GatedUnfold(T, pats, text, gate, p, x);
      NextState(T, text, gate, k);
      if Skipped(T, text, gate, k) {
        NothingYet(T, text, p + 64);
        GatedOrderedFrom(T, pats, text, gate, k + 1, p + 64);
      } else {
        FeedSince(T, text, lo, p, p + 64);
        EmitsOrdered(T, pats, text, lo, p, p + 64);
        GatedOrderedFrom(T, pats, text, gate, k + 1, lo);
        var s := Emits(T, pats, text, x, p, p + 64);
        var t := GatedScan(T, pats, text, gate, p + 64, StateBefore(T, text, gate, k + 1)).out;
        forall a | a in s ensures OccursAt(pats, text, a) && EndOf(pats, a) <= p + 64 {
          EmitsSince(T, pats, text, lo, p, p + 64, a);
        }
        forall b | b in t ensures OccursAt(pats, text, b) && p + 64 < EndOf(pats, b) {
          GatedMeansFrom(T, pats, text, gate, k + 1, lo, b);
        }
        OrderedByEnd(pats, text, s, t, p + 64);
      }
    }
  }

  lemma GatedOrdered(T: set<Word>, pats: seq<Word>, text: Word, gate: Gate)
    requires PrefixClosed(T) && forall w | w in pats :: w in T
    ensures Ordered(pats, GatedScan(T, pats, text, gate, 0, []).out)
  {
    hide GatedScan, LongestSuffix, Ordered;
    NothingYet(T, text, 0);
    GatedOrderedFrom(T, pats, text, gate, 0, 0);
  }

  // ---------------------------------------------------------------- which gates cover

  lemma TrieClosed(pats: seq<Word>)
    ensures PrefixClosed(TrieOf(pats))
  {
    TrieOfExact(pats, []);
    forall w {:trigger Init(w)} | w in TrieOf(pats) && w != []
      ensures Init(w) in TrieOf(pats)
    {
      TrieOfExact(pats, w);
      var k :| 0 <= k < |pats| && w <= pats[k];
      assert Init(w) <= pats[k];
      TrieOfExact(pats, Init(w));
    }
  }

  ghost function GateOf(pats: seq<Word>, avx2: bool): Gate
    requires AllNonEmpty(pats)
  {
    if avx2 then Avx2Gate(Uniques(FirstBytes(pats), 256)) else ScalarGate(FirstBytes(pats))
  }

  ghost function DistinctFirstBytes(pats: seq<Word>): nat
    requires AllNonEmpty(pats)
  {
    |Uniques(FirstBytes(pats), 256)|
  }

  lemma GateCovers(pats: seq<Word>, avx2: bool)
    requires AllNonEmpty(pats)
    requires avx2 ==> DistinctFirstBytes(pats) <= 32
    ensures Covers(GateOf(pats, avx2), TrieOf(pats))
  {
    var fb := FirstBytes(pats);
    forall block: Word, i | |block| == 64 && 0 <= i < 64 && [block[i]] in TrieOf(pats)
      ensures Fires(GateOf(pats, avx2), block)
    {
      FirstBytesExact(pats, block[i]);
      assert block[i] in Uniques(fb, 256);
    }
  }

  lemma {:induction false} EmitsOffsets(T: set<Word>, pats: seq<Word>, text: Word, x: Word, p: nat, q: nat, r: ScanRec)
    requires p <= q <= |text| && [] in T && r in Emits(T, pats, text, x, p, q)
    ensures r.offset >= p - |x|
    decreases q - p
  {
    var y := LongestSuffix(T, x + [text[p]]);
    LongestSuffixIsLongest(T, x + [text[p]]);
    if r in ChainEmit(T, pats, p + 1, y) {
      ChainOffsets(T, pats, p + 1, y, r);
    } else {
      EmitsOffsets(T, pats, text, y, p + 1, q, r);
    }
  }

  lemma {:induction false} ChainOffsets(T: set<Word>, pats: seq<Word>, e: int, x: Word, r: ScanRec)
    requires [] in T && r in ChainEmit(T, pats, e, x)
    ensures r.offset >= e - |x|
    decreases |x|
  {
    LongestSuffixIsLongest(T, x[1..]);
    TagMember(e - |x|, Matching(pats, x), r);
    if r !in Tag(e - |x|, Matching(pats, x)) {
      ChainOffsets(T, pats, e, LongestSuffix(T, x[1..]), r);
    }
  }

  lemma {:induction false} FeedLength(T: set<Word>, text: Word, x: Word, p: nat, q: nat)
    requires p <= q <= |text| && [] in T
    ensures |Feed(T, text, x, p, q)| <= |x| + (q - p)
    decreases q - p
  {
    if p < q {
      LongestSuffixIsLongest(T, x + [text[p]]);
      FeedLength(T, text, LongestSuffix(T, x + [text[p]]), p + 1, q);
    }
  }

  /** A scan resumed in state `x` at `p` reports nothing that starts before `p - |x|`. */
  lemma {:induction false} GatedOffsets(
    T: set<Word>, pats: seq<Word>, text: Word, gate: Gate, p: nat, x: Word, r: ScanRec)
    requires p <= |text| && [] in T && r in GatedScan(T, pats, text, gate, p, x).out
    ensures r.offset >= p - |x|
    decreases |text| - p
  {
    if p + 64 > |text| {
      EmitsOffsets(T, pats, text, x, p, |text|, r);
    } else if x == [] && !Fires(gate, text[p..p + 64]) {
      GatedOffsets(T, pats, text, gate, p + 64, x, r);
    } else if r in Emits(T, pats, text, x, p, p + 64) {
      EmitsOffsets(T, pats, text, x, p, p + 64, r);
    } else {
      FeedLength(T, text, x, p, p + 64);
      GatedOffsets(T, pats, text, gate, p + 64, Feed(T, text, x, p, p + 64), r);
    }
  }

  ghost function Repeat(b: byte, n: nat): Word {
    seq(n, i => b)
  }

  /** Among 33 or more first bytes, the 33rd is not looked for in a first half nor the first in a second. */
  lemma BlindBlock(pats: seq<Word>, u: seq<byte>, block: Word)
    requires AllNonEmpty(pats) && u == Uniques(FirstBytes(pats), 256) && |u| > 32 && |block| == 64
    requires forall i | 0 <= i < 64 :: block[i] == if i < 32 then u[32] else u[0]
    ensures !Fires(GateOf(pats, true), block)
  {
    UniquesAscend(FirstBytes(pats), 256);
  }

  /** With 33 or more distinct first bytes the AVX2 gate skips a block in which a match starts. */
  lemma Avx2Misses(pats: seq<Word>) returns (text: Word, lost: ScanRec)
    requires AllNonEmpty(pats) && DistinctFirstBytes(pats) > 32
    ensures OccursAt(pats, text, lost) && lost in AllMatches(pats, text)
    ensures lost !in GatedScan(TrieOf(pats), pats, text, GateOf(pats, true), 0, []).out
  {
    hide Fires, GateOf;
    TrieClosed(pats);
    var fb := FirstBytes(pats);
    var u := Uniques(fb, 256);
    UniquesAscend(fb, 256);
    assert u[0] in u;
    FirstBytesExact(pats, u[0]);
    TrieOfExact(pats, [u[0]]);
    var k :| 0 <= k < |pats| && [u[0]] <= pats[k];
    text := Repeat(u[32], 32) + Repeat(u[0], 31) + pats[k];
    lost := ScanRec(63, k);
    assert text[63..63 + |pats[k]|] == pats[k];
    AllMatchesExact(pats, text, lost);
    BlindBlock(pats, u, text[0..64]);
    if lost in GatedScan(TrieOf(pats), pats, text, GateOf(pats, true), 0, []).out {
      GatedOffsets(TrieOf(pats), pats, text, GateOf(pats, true), 64, [], lost);
    }
  }

  // ---------------------------------------------------------------- empty patterns

  /** The non-empty patterns, in order: those that reach `AddPattern`. */
  function Added(patterns: seq<Word>): (pats: seq<Word>)
    ensures AllNonEmpty(pats) && |pats| <= |patterns|
  {
    if patterns == [] then []
    else
      var n := |patterns| - 1;
      if patterns[n] == [] then Added(patterns[..n]) else Added(patterns[..n]) + [patterns[n]]
  }

  /** Their positions in the caller's list. */
  function AddedAt(patterns: seq<Word>): (at: seq<int>)
    ensures |at| == |Added(patterns)|
  {
    if patterns == [] then []
    else
      var n := |patterns| - 1;
      if patterns[n] == [] then AddedAt(patterns[..n]) else AddedAt(patterns[..n]) + [n]
  }

  /** The patterns that are kept and where they stood: ascending positions of all non-empty ones. */
  ghost predicate Picks(patterns: seq<Word>, pats: seq<Word>, at: seq<int>) {
    && |at| == |pats|
    && (forall k | 0 <= k < |at| :: 0 <= at[k] < |patterns| && pats[k] == patterns[at[k]])
    && (forall j, k | 0 <= j < k < |at| :: at[j] < at[k])
    && (forall i | 0 <= i < |patterns| :: patterns[i] != [] <==> i in at)
  }

  lemma PicksSnoc(patterns: seq<Word>, x: Word, pats: seq<Word>, at: seq<int>)
    requires Picks(patterns, pats, at)
    ensures x == [] ==> Picks(patterns + [x], pats, at)
    ensures x != [] ==> Picks(patterns + [x], pats + [x], at + [|patterns|])
  {
    var n, at' := |patterns|, at + [|patterns|];
    assert forall k | 0 <= k < |at| :: at[k] in at;
    assert forall i :: i in at' <==> i in at || i == n;
  }

  lemma {:induction false} AddedExact(patterns: seq<Word>)
    ensures Picks(patterns, Added(patterns), AddedAt(patterns))
  {
    if patterns != [] {
      var n := |patterns| - 1;
      AddedExact(patterns[..n]);
      hide Picks;
      PicksSnoc(patterns[..n], patterns[n], Added(patterns[..n]), AddedAt(patterns[..n]));
      assert patterns[..n] + [patterns[n]] == patterns;
    }
  }

  /** No empty pattern precedes a non-empty one. */
  predicate EmptiesTrail(patterns: seq<Word>) {
    forall i, j | 0 <= i < j < |patterns| && patterns[i] == [] :: patterns[j] == []
  }

  lemma {:induction false} AddedAll(patterns: seq<Word>)
    ensures |Added(patterns)| == |patterns| <==> AllNonEmpty(patterns)
    ensures AllNonEmpty(patterns) ==> Added(patterns) == patterns
    ensures AllNonEmpty(patterns) ==> forall k | 0 <= k < |patterns| :: AddedAt(patterns)[k] == k
  {
    if patterns != [] {
      var n := |patterns| - 1;
      AddedAll(patterns[..n]);
      assert patterns[..n] + [patterns[n]] == patterns;
    }
  }

  lemma TrailingEmpty(patterns: seq<Word>)
    requires patterns != [] && patterns[|patterns| - 1] == []
    ensures EmptiesTrail(patterns) <==> EmptiesTrail(patterns[..|patterns| - 1])
  {
    var init := patterns[..|patterns| - 1];
    if EmptiesTrail(init) {
      forall i, j | 0 <= i < j < |patterns| && patterns[i] == [] ensures patterns[j] == [] {
        if j < |init| { assert init[i] == [] && init[j] == []; }
      }
    }
  }

  /** Pattern lengths are stored by order of insertion and read by position in the caller's list:
      every entry reads its own length, from inside the table. */
  ghost predicate LengthReadsOk(patterns: seq<Word>) {
    forall k | 0 <= k < |Added(patterns)| ::
      && 0 <= AddedAt(patterns)[k] < |Added(patterns)|
      && |Added(patterns)[AddedAt(patterns)[k]]| == |Added(patterns)[k]|
  }

  /** The reads are right exactly when empty patterns only trail; entries and positions then coincide. */
  lemma {:induction false} LengthReadsExact(patterns: seq<Word>)
    ensures EmptiesTrail(patterns) <==> LengthReadsOk(patterns)
    ensures EmptiesTrail(patterns) ==> forall k | 0 <= k < |Added(patterns)| :: AddedAt(patterns)[k] == k
  {
    if patterns != [] {
      var n := |patterns| - 1;
      if patterns[n] == [] {
        LengthReadsExact(patterns[..n]);
        TrailingEmpty(patterns);
        assert Added(patterns) == Added(patterns[..n]) && AddedAt(patterns) == AddedAt(patterns[..n]);
        assert LengthReadsOk(patterns) <==> LengthReadsOk(patterns[..n]);
      } else {
        AddedAll(patterns);
        AddedAll(patterns[..n]);
        if !AllNonEmpty(patterns) {
          var i :| 0 <= i < |patterns| && patterns[i] == [];
          assert !EmptiesTrail(patterns);
          assert AddedAt(patterns)[|Added(patterns)| - 1] == n;
        }
      }
    }
  }

  /** The length that the scan reads for entry `k`, or None past the end of the table. */
  function LengthRead(patterns: seq<Word>, k: int): Option<nat> {
    if 0 <= k < |Added(patterns)| && 0 <= AddedAt(patterns)[k] < |Added(patterns)|
    then Some(|Added(patterns)[AddedAt(patterns)[k]]|) else None
  }

  /** Every match of every file reads the length of its own pattern if and only if no empty pattern
      precedes a non-empty one: the file that is the pattern itself shows the first wrong read. */
  lemma LengthReadsReached(patterns: seq<Word>)
    ensures EmptiesTrail(patterns) <==>
              forall text, r | r in AllMatches(Added(patterns), text) ::
                0 <= r.pattern < |Added(patterns)| &&
                  LengthRead(patterns, r.pattern) == Some(|Added(patterns)[r.pattern]|)
  {
    hide AllMatches, EmptiesTrail, LengthReadsOk, LengthRead, Added;
    var pats := Added(patterns);
    LengthReadsExact(patterns);
    forall text, r | r in AllMatches(pats, text) ensures 0 <= r.pattern < |pats| { AllMatchesExact(pats, text, r); }
    forall k: nat | k < |pats| ensures ScanRec(0, k) in AllMatches(pats, pats[k]) {
      AllMatchesExact(pats, pats[k], ScanRec(0, k));
      assert pats[k][0..|pats[k]|] == pats[k];
    }
    LengthReadsSay(patterns);
  }

  lemma LengthReadsSay(patterns: seq<Word>)
    ensures LengthReadsOk(patterns) <==>
              forall k: nat | k < |Added(patterns)| :: LengthRead(patterns, k) == Some(|Added(patterns)[k]|)
  {
    hide Added, AddedAt, LengthRead;
    forall k: nat | k < |Added(patterns)| { ReadAt(patterns, k); }
  }

  lemma ReadAt(patterns: seq<Word>, k: nat)
    requires k < |Added(patterns)|
    ensures LengthRead(patterns, k) == Some(|Added(patterns)[k]|) <==>
              && 0 <= AddedAt(patterns)[k] < |Added(patterns)|
              && |Added(patterns)[AddedAt(patterns)[k]]| == |Added(patterns)[k]|
  {
    hide Added, AddedAt;
  }

  lemma {:induction false} MatchingIgnoresEmpties(patterns: seq<Word>, w: Word)
    requires EmptiesTrail(patterns) && w != []
    ensures Matching(patterns, w) == Matching(Added(patterns), w)
  {
    if patterns != [] {
      var n := |patterns| - 1;
      if patterns[n] == [] {
        MatchingIgnoresEmpties(patterns[..n], w);
      } else {
        assert AllNonEmpty(patterns) by {
          assert forall i | 0 <= i < n && patterns[i] == [] :: patterns[n] == [];
        }
        AddedAll(patterns);
      }
    }
  }

  lemma {:induction false} EndingIgnoresEmpties(patterns: seq<Word>, text: Word, o: nat, e: nat)
    requires EmptiesTrail(patterns) && o <= e <= |text|
    ensures EndingAt(patterns, text, o, e) == EndingAt(Added(patterns), text, o, e)
    decreases e - o
  {
    if o < e {
      MatchingIgnoresEmpties(patterns, text[o..e]);
      EndingIgnoresEmpties(patterns, text, o + 1, e);
    }
  }

  lemma {:induction false} MatchesIgnoreEmpties(patterns: seq<Word>, text: Word, p: nat, q: nat)
    requires EmptiesTrail(patterns) && p <= q <= |text|
    ensures MatchesBetween(patterns, text, p, q) == MatchesBetween(Added(patterns), text, p, q)
    decreases q - p
  {
    if p < q {
      EndingIgnoresEmpties(patterns, text, 0, p + 1);
      MatchesIgnoreEmpties(patterns, text, p + 1, q);
    }
  }

  // ---------------------------------------------------------------- run_scan

  /** The result of `run_scan`, as a function of its inputs. */
  ghost function ScanResult(text: Word, patterns: seq<Word>, avx2: bool): Scanned {
    TrieClosed(Added(patterns));
    GatedScan(TrieOf(Added(patterns)), Added(patterns), text, GateOf(Added(patterns), avx2), 0, [])
  }

  /** The scan reports exactly the naive list of matches, in report order, with at most one
      failure hop per byte of the file. */
  lemma ScanExact(text: Word, patterns: seq<Word>, avx2: bool)
    requires EmptiesTrail(patterns)
    requires avx2 ==> DistinctFirstBytes(Added(patterns)) <= 32
    ensures ScanResult(text, patterns, avx2).out == AllMatches(patterns, text)
    ensures ScanResult(text, patterns, avx2).hops == HopsOver(TrieOf(Added(patterns)), text, [], 0, |text|)
  {
    var pats := Added(patterns);
    TrieClosed(pats);
    PatternsInTrie(pats);
    GateCovers(pats, avx2);
    assert text[..0] == [];
    GatedExact(TrieOf(pats), pats, text, GateOf(pats, avx2), 0);
    MatchesIgnoreEmpties(patterns, text, 0, |text|);
  }

  /** The AVX2 build scans every file correctly exactly when the patterns have at most 32 distinct
      first bytes. */
  lemma Avx2ExactIff(patterns: seq<Word>)
    requires EmptiesTrail(patterns)
    ensures (forall text :: ScanResult(text, patterns, true).out == AllMatches(patterns, text)) <==>
            DistinctFirstBytes(Added(patterns)) <= 32
  {
    if DistinctFirstBytes(Added(patterns)) <= 32 {
      forall text ensures ScanResult(text, patterns, true).out == AllMatches(patterns, text) {
        ScanExact(text, patterns, true);
      }
    } else {
      var text, lost := Avx2Misses(Added(patterns));
      MatchesIgnoreEmpties(patterns, text, 0, |text|);
      assert lost in AllMatches(patterns, text) && lost !in ScanResult(text, patterns, true).out;
    }
  }

  /** With either build and any number of first bytes: a match is reported exactly when the block in
      which it starts is not skipped, nothing but matches is reported, and in strict report order. */
  lemma ScanMeans(text: Word, patterns: seq<Word>, avx2: bool, r: ScanRec)
    ensures var pats := Added(patterns);
            r in ScanResult(text, patterns, avx2).out <==>
            OccursAt(pats, text, r) && !Skipped(TrieOf(pats), text, GateOf(pats, avx2), r.offset / 64)
    ensures Ordered(Added(patterns), ScanResult(text, patterns, avx2).out)
  {
    hide Skipped, GatedScan, OccursAt;
    var pats := Added(patterns);
    TrieClosed(pats);
    PatternsInTrie(pats);
    GatedMeans(TrieOf(pats), pats, text, GateOf(pats, avx2), r);
    GatedOrdered(TrieOf(pats), pats, text, GateOf(pats, avx2));
  }

  /** Empty patterns at the end of the list occur nowhere. */
  lemma OccursAdded(patterns: seq<Word>, text: Word, r: ScanRec)
    requires EmptiesTrail(patterns)
    ensures OccursAt(Added(patterns), text, r) <==> OccursAt(patterns, text, r)
  {
    hide OccursAt, EmptiesTrail;
    AllMatchesExact(Added(patterns), text, r);
    AllMatchesExact(patterns, text, r);
    MatchesIgnoreEmpties(patterns, text, 0, |text|);
  }

  /** The AVX2 gate looks for a byte of the block at `b`, or there is no whole block at `b`. */
  ghost predicate Watched(uniq: seq<byte>, text: Word, b: nat) {
    || b + 64 > |text|
    || exists i, j | b <= i < b + 64 && 0 <= j < |uniq| ::
         uniq[j] == text[i] && (|uniq| <= 32 || (i < b + 32 <==> j < 32))
  }

  lemma WatchedFires(uniq: seq<byte>, text: Word, b: nat)
    requires b + 64 <= |text|
    ensures Watched(uniq, text, b) <==> Avx2Fires(uniq, text[b..b + 64])
  {
    var block := text[b..b + 64];
    if i, j :| b <= i < b + 64 && 0 <= j < |uniq| && uniq[j] == text[i] && (|uniq| <= 32 || (i < b + 32 <==> j < 32)) {
      assert uniq[j] == block[i - b];
    }
    if i, j :| 0 <= i < 64 && 0 <= j < |uniq| && uniq[j] == block[i] && (|uniq| <= 32 || (i < 32 <==> j < 32)) {
      assert uniq[j] == text[b + i];
    }
  }

  /** The AVX2 build reports every match that starts in the tail of the file, or in a block with a
      byte that the gate looks for there. */
  lemma Avx2Reports(text: Word, patterns: seq<Word>, r: ScanRec)
    requires OccursAt(Added(patterns), text, r)
    requires Watched(Uniques(FirstBytes(Added(patterns)), 256), text, r.offset / 64 * 64)
    ensures r in ScanResult(text, patterns, true).out
  {
    hide GatedScan, OccursAt, StateBefore, Watched, Avx2Fires;
    ScanMeans(text, patterns, true, r);
    MatchFits(Added(patterns), text, r);
    var b := r.offset / 64 * 64;
    if b + 64 <= |text| { WatchedFires(Uniques(FirstBytes(Added(patterns)), 256), text, b); }
  }

  /** What `run_scan` promises with either build and any number of first bytes. */
  lemma ScanSound(text: Word, patterns: seq<Word>, avx2: bool)
    requires EmptiesTrail(patterns)
    ensures var out := ScanResult(text, patterns, avx2).out;
            && Ordered(Added(patterns), out) && (forall r | r in out :: OccursAt(patterns, text, r))
            && forall r | OccursAt(patterns, text, r) &&
                 Watched(Uniques(FirstBytes(Added(patterns)), 256), text, r.offset / 64 * 64) :: r in out
  {
    hide EmptiesTrail, ScanResult, Watched, Ordered, Skipped;
    var out := ScanResult(text, patterns, avx2).out;
    ScanMeans(text, patterns, avx2, ScanRec(0, 0));
    forall r ensures r in out ==> OccursAt(patterns, text, r) {
      OccursAdded(patterns, text, r);
      ScanMeans(text, patterns, avx2, r);
    }
    forall r | OccursAt(patterns, text, r) &&
      Watched(Uniques(FirstBytes(Added(patterns)), 256), text, r.offset / 64 * 64)
      ensures r in out
    {
      OccursAdded(patterns, text, r);
      if avx2 { Avx2Reports(text, patterns, r); } else { ScalarReports(text, patterns, r); }
    }
  }

  lemma ScalarReports(text: Word, patterns: seq<Word>, r: ScanRec)
    requires EmptiesTrail(patterns) && OccursAt(patterns, text, r)
    ensures r in ScanResult(text, patterns, false).out
  {
    hide OccursAt, EmptiesTrail, ScanResult;
    ScanExact(text, patterns, false);
    AllMatchesExact(patterns, text, r);
  }

  /** The scan never takes more failure hops than it reads bytes, whatever the gate. */
  lemma ScanHops(text: Word, patterns: seq<Word>, avx2: bool)
    ensures ScanResult(text, patterns, avx2).hops <= |text|
  {
    var pats := Added(patterns);
    TrieClosed(pats);
    GatedHops(TrieOf(pats), pats, text, GateOf(pats, avx2), 0, []);
  }

  /** A finished automaton whose entries are the caller's positions. */
  ghost predicate Ready(ac: AC)
    reads ac
  {
    ac.Valid() && ac.Built() && forall k | 0 <= k < |ac.outputPat| :: ac.outputPat[k] == k
  }

  /** The inner loop of the report: the output list that starts at entry `first`. */
  method EmitList(outputPat: seq<int>, outputNext: seq<int>, patLen: seq<nat>, ghost pats: seq<Word>, ghost w: Word,
                  first: int, pos: int, out0: seq<ScanRec>) returns (out: seq<ScanRec>)
    requires |outputPat| == |outputNext| == |patLen| == |pats| && ChainOk(outputNext)
    requires forall k | 0 <= k < |pats| :: patLen[k] == |pats[k]| && outputPat[k] == k
    requires -1 <= first < |outputNext| && Chain(outputNext, first) == Matching(pats, w)
    ensures out == out0 + Tag(pos + 1 - |w|, Matching(pats, w))
  {
    out := out0;
    var cur := first;
    while cur != -1
      invariant -1 <= cur < |outputNext|
      invariant forall k | k in Chain(outputNext, cur) :: k in Matching(pats, w)
      invariant out + Tag(pos + 1 - |w|, Chain(outputNext, cur)) == out0 + Tag(pos + 1 - |w|, Matching(pats, w))
      decreases cur
    {
      assert cur in Chain(outputNext, cur);
      MatchingMember(pats, w, cur);
      var plen: int := patLen[outputPat[cur]];
      out := out + [ScanRec(pos - (plen - 1), outputPat[cur])];
      cur := outputNext[cur];
    }
  }

  lemma ReadyLists(ac: AC)
    requires Ready(ac)
    ensures [] in Words(ac.path) && |ac.path| == |ac.nodes| > 0 && ac.path[0] == []
    ensures |ac.outputPat| == |ac.outputNext| == |ac.patLen| == |ac.pats| && ChainOk(ac.outputNext)
    ensures forall k | 0 <= k < |ac.pats| :: ac.patLen[k] == |ac.pats[k]| && ac.outputPat[k] == k
  {
  }

  lemma ReadyNode(ac: AC, u: int)
    requires Ready(ac) && 0 < u < |ac.nodes| == |ac.path|
    requires ChainOk(ac.outputNext)
    ensures -1 <= ac.nodes[u].output < |ac.outputNext|
    ensures Chain(ac.outputNext, ac.nodes[u].output) == Matching(ac.pats, ac.path[u])
    ensures ac.path[u] != [] && 0 <= ac.nodes[u].fail < |ac.nodes|
    ensures ac.path[ac.nodes[u].fail] == LongestSuffix(Words(ac.path), ac.path[u][1..])
    ensures |ac.path[ac.nodes[u].fail]| < |ac.path[u]|
  {
    assert OutputOk(ac.nodes, ac.path, ac.outputNext, ac.pats, u) && FailOk(ac.nodes, ac.path, u);
    LongestSuffixIsLongest(Words(ac.path), ac.path[u][1..]);
  }

  /** The report for the byte at `pos`: the output lists along the failure chain of `state`. */
  method EmitOutputs(ac: AC, state: int, pos: int, out0: seq<ScanRec>) returns (out: seq<ScanRec>)
    requires Ready(ac) && 0 <= state < |ac.nodes| == |ac.path|
    ensures [] in Words(ac.path)
    ensures out == out0 + ChainEmit(Words(ac.path), ac.pats, pos + 1, ac.path[state])
  {
    ReadyLists(ac);
    hide Ready, Words, LongestSuffix, Matching, Chain, Tag;
    out := out0;
    var u := state;
    ghost var T, path := Words(ac.path), ac.path;
    while u != 0
      invariant 0 <= u < |ac.nodes|
      invariant out + ChainEmit(T, ac.pats, pos + 1, path[u]) == out0 + ChainEmit(T, ac.pats, pos + 1, path[state])
      decreases |path[u]|
    {
      ReadyNode(ac, u);
      Assoc(out, Tag(pos + 1 - |path[u]|, Matching(ac.pats, path[u])),
        ChainEmit(T, ac.pats, pos + 1, path[ac.nodes[u].fail]));
      out := EmitList(ac.outputPat, ac.outputNext, ac.patLen, ac.pats, path[u], ac.nodes[u].output, pos, out);
      u := ac.nodes[u].fail;
    }
  }

  /** One byte of the scan: advance the automaton, then report. */
  method ScanByte(ac: AC, c: byte, pos: int, state0: int, out0: seq<ScanRec>)
    returns (state: int, out: seq<ScanRec>, ghost hops: nat)
    requires Ready(ac) && 0 <= state0 < |ac.nodes| == |ac.path|
    ensures [] in Words(ac.path)
    ensures 0 <= state < |ac.nodes|
    ensures ac.path[state] == LongestSuffix(Words(ac.path), ac.path[state0] + [c])
    ensures out == out0 + ChainEmit(Words(ac.path), ac.pats, pos + 1, ac.path[state])
    ensures hops == Hops(Words(ac.path), ac.path[state0], c)
  {
    state, hops := ac.Descend(state0, c);
    assert EdgeOk(ac.nodes, ac.path, state, c);
    if Goto(ac.nodes, state, c) != -1 {
      state := Goto(ac.nodes, state, c);
    }
    out := EmitOutputs(ac, state, pos, out0);
  }

  lemma ReadyFacts(ac: AC)
    requires Ready(ac)
    ensures |ac.nodes| == |ac.path| > 0 && ac.path[0] == []
    ensures Words(ac.path) == TrieOf(ac.pats)
    ensures forall u | 0 <= u < |ac.path| :: ac.path[u] == [] <==> u == 0
  {
  }

  /** The bytes p, ..., q-1 without skipping: the body of a block, and the tail loop. */
  method ScanStretch(ac: AC, text: Word, p: nat, q: nat, state0: int, out0: seq<ScanRec>)
    returns (state: int, out: seq<ScanRec>, ghost hops: nat)
    requires Ready(ac) && 0 <= state0 < |ac.nodes| == |ac.path| && p <= q <= |text|
    ensures [] in Words(ac.path)
    ensures 0 <= state < |ac.nodes|
    ensures ac.path[state] == Feed(Words(ac.path), text, ac.path[state0], p, q)
    ensures out == out0 + Emits(Words(ac.path), ac.pats, text, ac.path[state0], p, q)
    ensures hops == HopsOver(Words(ac.path), text, ac.path[state0], p, q)
  {
    ReadyFacts(ac);
    hide Ready, Words;
    state, out, hops := state0, out0, 0;
    ghost var T, path := Words(ac.path), ac.path;
    for k := p to q
      invariant 0 <= state < |path|
      invariant Feed(T, text, path[state], k, q) == Feed(T, text, path[state0], p, q)
      invariant out + Emits(T, ac.pats, text, path[state], k, q) == out0 + Emits(T, ac.pats, text, path[state0], p, q)
      invariant hops + HopsOver(T, text, path[state], k, q) == HopsOver(T, text, path[state0], p, q)
    {
      ghost var h: nat, before := 0, out;
      state, out, h := ScanByte(ac, text[k], k, state, out);
      hops := hops + h;
      Assoc(before, ChainEmit(T, ac.pats, k + 1, path[state]), Emits(T, ac.pats, text, path[state], k + 1, q));
    }
  }

  /** Building the automaton and the filter from the caller's list. */
  method Prepare(patterns: seq<Word>) returns (ac: AC, sf: SkipFilter, ghost linkHops: nat)
    ensures fresh(ac) && ac.Valid() && ac.Built()
    ensures ac.pats == Added(patterns) && ac.outputPat == AddedAt(patterns)
    ensures sf.fb == FirstBytes(Added(patterns)) && (sf.any <==> Added(patterns) != [])
    ensures linkHops == HopSum(TrieOf(Added(patterns)), TrieOf(Added(patterns))) <= TotalLength(patterns)
  {
    ac := new AC();
    sf := new SkipFilter();
    for i := 0 to |patterns|
      invariant fresh(ac) && fresh(sf) && ac.Valid() && ac.Open()
      invariant ac.pats == Added(patterns[..i]) && ac.outputPat == AddedAt(patterns[..i])
      invariant sf.fb == FirstBytes(Added(patterns[..i])) && (sf.any <==> Added(patterns[..i]) != [])
    {
      assert patterns[..i + 1][..i] == patterns[..i];
      if patterns[i] == [] { continue; }
      var idx := ac.AddPattern(patterns[i], i);
      assert ac.pats[..|ac.pats| - 1] == Added(patterns[..i]);
      sf.Add(patterns[i][0]);
    }
    assert patterns[..|patterns|] == patterns;
    linkHops := ac.Build();
    AddedLength(patterns);
  }

  lemma {:induction false} AddedLength(patterns: seq<Word>)
    ensures TotalLength(Added(patterns)) == TotalLength(patterns)
  {
    if patterns != [] {
      var n := |patterns| - 1;
      AddedLength(patterns[..n]);
      if patterns[n] != [] { assert Added(patterns)[..|Added(patterns)| - 1] == Added(patterns[..n]); }
    }
  }

  method BlockMask(sf: SkipFilter, uniq: seq<byte>, block: Word, avx2: bool, ghost pats: seq<Word>) returns (mask: bv64)
    requires AllNonEmpty(pats) && sf.fb == FirstBytes(pats) && (sf.any <==> pats != [])
    requires uniq == Uniques(sf.fb, 256) && |block| == 64
    ensures mask != 0 <==> Fires(GateOf(pats, avx2), block)
  {
    mask := 0;
    if sf.any {
      if avx2 { mask := Avx2Mask(uniq, block); } else { mask := ScalarMask(sf.fb, block); }
    } else {
      NoFirstBytes(pats);
    }
  }

  lemma NoFirstBytes(pats: seq<Word>)
    requires AllNonEmpty(pats)
    ensures pats == [] ==> Uniques(FirstBytes(pats), 256) == []
  {
    var u := Uniques(FirstBytes(pats), 256);
    if u != [] { assert u[0] in u; }
  }

  lemma Assoc<A>(a: seq<A>, b: seq<A>, c: seq<A>)
    ensures (a + b) + c == a + (b + c)
  {
  }

  lemma GatedUnfold(T: set<Word>, pats: seq<Word>, text: Word, gate: Gate, p: nat, x: Word)
    requires p + 64 <= |text| && [] in T
    ensures x == [] && !Fires(gate, text[p..p + 64]) ==>
              GatedScan(T, pats, text, gate, p, x) == GatedScan(T, pats, text, gate, p + 64, x)
    ensures !(x == [] && !Fires(gate, text[p..p + 64])) ==>
              var r := GatedScan(T, pats, text, gate, p + 64, Feed(T, text, x, p, p + 64));
              GatedScan(T, pats, text, gate, p, x) ==
              Scanned(Emits(T, pats, text, x, p, p + 64) + r.out, HopsOver(T, text, x, p, p + 64) + r.hops)
  {
    hide Emits, HopsOver, Feed, Fires;
  }

  /** One iteration of the block loop: skip the block, or scan it. */
  method ScanBlock(ac: AC, sf: SkipFilter, uniq: seq<byte>, text: Word, avx2: bool, pos: nat, state0: int,
                   out0: seq<ScanRec>) returns (state: int, out: seq<ScanRec>, ghost hops: nat)
    requires Ready(ac) && AllNonEmpty(ac.pats)
    requires sf.fb == FirstBytes(ac.pats) && (sf.any <==> ac.pats != []) && uniq == Uniques(sf.fb, 256)
    requires pos + 64 <= |text| && 0 <= state0 < |ac.path|
    ensures 0 <= state < |ac.path|
    ensures var T, gate := TrieOf(ac.pats), GateOf(ac.pats, avx2);
            var r := GatedScan(T, ac.pats, text, gate, pos + 64, ac.path[state]);
            GatedScan(T, ac.pats, text, gate, pos, ac.path[state0]).hops == hops + r.hops &&
            out0 + GatedScan(T, ac.pats, text, gate, pos, ac.path[state0]).out == out + r.out
  {
    ReadyFacts(ac);
    hide Ready, Words, TrieOf, GateOf, Fires, Emits, HopsOver, Feed;
    state, out, hops := state0, out0, 0;
    ghost var T, pats, gate, x := TrieOf(ac.pats), ac.pats, GateOf(ac.pats, avx2), ac.path[state0];
    GatedUnfold(T, pats, text, gate, pos, x);
    hide GatedScan;
    var mask := BlockMask(sf, uniq, text[pos..pos + 64], avx2, pats);
    if !(mask == 0 && state == 0) {
      state, out, hops := ScanStretch(ac, text, pos, pos + 64, state, out);
      ghost var r := GatedScan(T, pats, text, gate, pos + 64, Feed(T, text, x, pos, pos + 64)).out;
      Assoc(out0, Emits(T, pats, text, x, pos, pos + 64), r);
    }
  }

  /** The block loop and the tail loop of the scan, over a finished automaton. */
  method ScanFile(ac: AC, sf: SkipFilter, text: Word, avx2: bool) returns (out: seq<ScanRec>, ghost hops: nat)
    requires Ready(ac) && AllNonEmpty(ac.pats)
    requires sf.fb == FirstBytes(ac.pats) && (sf.any <==> ac.pats != [])
    ensures out == GatedScan(TrieOf(ac.pats), ac.pats, text, GateOf(ac.pats, avx2), 0, []).out
    ensures hops == GatedScan(TrieOf(ac.pats), ac.pats, text, GateOf(ac.pats, avx2), 0, []).hops
  {
    ReadyFacts(ac);
    hide Ready, Words, TrieOf, GateOf, Fires, Emits, HopsOver, Feed;
    out, hops := [], 0;
    var uniq := CollectUniques(sf.fb);
    ghost var pats, path, T, gate := ac.pats, ac.path, TrieOf(ac.pats), GateOf(ac.pats, avx2);
    ghost var goal := GatedScan(T, pats, text, gate, 0, []);
    var state := 0;
    var pos := 0;
    while pos + 64 <= |text|
      invariant 0 <= pos <= |text| && 0 <= state < |path|
      invariant out + GatedScan(T, pats, text, gate, pos, path[state]).out == goal.out
      invariant hops + GatedScan(T, pats, text, gate, pos, path[state]).hops == goal.hops
    {
      ghost var h: nat;
      state, out, h := ScanBlock(ac, sf, uniq, text, avx2, pos, state, out);
      hops := hops + h;
      pos := pos + 64;
    }
    ghost var h: nat;
    state, out, h := ScanStretch(ac, text, pos, |text|, state, out);
    hops := hops + h;
  }

  method RunScan(text: Word, patterns: seq<Word>, avx2: bool)
        returns (out: seq<ScanRec>, ghost linkHops: nat, ghost hops: nat)
    requires EmptiesTrail(patterns)
    ensures out == ScanResult(text, patterns, avx2).out && hops == ScanResult(text, patterns, avx2).hops
    ensures !avx2 || DistinctFirstBytes(Added(patterns)) <= 32 ==> out == AllMatches(patterns, text)
    ensures Ordered(Added(patterns), out) && forall r | r in out :: OccursAt(patterns, text, r)
    ensures forall r | OccursAt(patterns, text, r) &&
              Watched(Uniques(FirstBytes(Added(patterns)), 256), text, r.offset / 64 * 64) :: r in out
    ensures linkHops <= TotalLength(patterns) && hops <= |text|
  {
    if !avx2 || DistinctFirstBytes(Added(patterns)) <= 32 { ScanExact(text, patterns, avx2); }
    ScanSound(text, patterns, avx2);
    ScanHops(text, patterns, avx2);
    LengthReadsExact(patterns);
    var ac, sf;
    ac, sf, linkHops := Prepare(patterns);
    out, hops := ScanFile(ac, sf, text, avx2);
  }
}

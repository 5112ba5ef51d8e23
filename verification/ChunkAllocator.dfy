/** The lock-free chunk allocator: a file is cut at multiples of the chunk size and every cut is
    moved past the next newline, as far as the look-ahead allows. */
module ChunkAllocator {
  import opened Arith
  import opened Bytes
  import opened ByteSearch
  import opened SimdScan

  // ---------------------------------------------------------------- chunk edges

  /** Where the chunk nominally at `s` begins: just after the first newline at or after `s`. */
  function LeftEdge(text: Word, C: nat, s: nat): (r: nat)
    requires s < |text|
    ensures s <= r <= |text|
  {
    if s == 0 then 0
    else
      var hi := s + Min(|text| - s, C);
      var nl := FindByte(text, s, hi, NEWLINE);
      if nl < hi then nl + 1 else s
  }

  /** Where it ends: just after the first newline at or after its nominal end. */
  function RightEdge(text: Word, C: nat, L: nat, s: nat): (r: nat)
    requires s < |text|
    ensures Min(s + C, |text|) <= r <= |text|
  {
    var e := Min(s + C, |text|);
    if e < |text| then
      var hi := e + Min(|text| - e, L);
      var nl := FindByte(text, e, hi, NEWLINE);
      if nl < hi then nl + 1 else e
    else e
  }

  /** The offsets that one worker fetched, from counter value `from` on: multiples of the chunk size
      apart, in ascending order. Those between them went to other workers. */
  ghost predicate OwnOffsets(C: nat, from: nat, taken: seq<nat>)
    requires C > 0
  {
    && (forall i | 0 <= i < |taken| :: from <= taken[i] && taken[i] % C == from % C)
    && (forall i, j | 0 <= i < j < |taken| :: taken[i] + C <= taken[j])
  }

  lemma AdvanceMod(s: nat, k: nat, C: nat)
    requires C > 0
    ensures s + k * C >= s && (s + k * C) % C == s % C
  {
    assert s == (s / C) * C + s % C;
    assert s + k * C == (s / C + k) * C + s % C;
    ModUnique(C, s + k * C, s / C + k, s % C);
  }

  /** Appending what is fetched later keeps the offsets in order. */
  lemma OwnAppend(C: nat, from: nat, taken: seq<nat>, next: nat, more: seq<nat>)
    requires C > 0 && OwnOffsets(C, from, taken) && OwnOffsets(C, next, more)
    requires from <= next && next % C == from % C
    requires forall i | 0 <= i < |taken| :: taken[i] + C <= next
    ensures OwnOffsets(C, from, taken + more)
  {
  }

  class Allocator {
    const text: Word
    const chunkSize: nat
    const lookahead: nat
    const isa: Isa
    var next: nat

    constructor (text: Word, chunkSize: nat, lookahead: nat, isa: Isa)
      ensures this.text == text && this.lookahead == lookahead && this.isa == isa && next == 0
      ensures this.chunkSize == if chunkSize > 0 then chunkSize else 1
    {
      this.text, this.lookahead, this.isa, next := text, lookahead, isa, 0;
      this.chunkSize := if chunkSize > 0 then chunkSize else 1;
    }

    method FetchAdd(n: nat) returns (s: nat)
      modifies this`next
      ensures s == old(next) && next == old(next) + n
    {
      s := next;
      next := next + n;
    }

    /** The left edge: skip the tail of a line that began in the previous chunk. */
    method AlignStart(s: nat) returns (start: nat)
      requires s < |text|
      ensures start == LeftEdge(text, chunkSize, s)
    {
      hide FindByte;
      start := s;
      if s > 0 {
        var avail := if |text| - s < chunkSize then |text| - s else chunkSize;
        var nl := FindByteFast(text, s, s + avail, NEWLINE, isa);
        if nl < s + avail { start := nl + 1; }
      }
    }

    /** The right edge: extend to the end of the line, within the look-ahead. */
    method AlignEnd(s: nat) returns (e: nat)
      requires s < |text|
      ensures e == RightEdge(text, chunkSize, lookahead, s)
    {
      hide FindByte;
      e := s + chunkSize;
      if e > |text| { e := |text|; }
      if e < |text| {
        var lim := if |text| - e < lookahead then |text| - e else lookahead;
        var nl := FindByteFast(text, e, e + lim, NEWLINE, isa);
        if nl < e + lim { e := nl + 1; }
      }
    }

    /** Between two looks at the counter, other workers may fetch any number of times. */
    method Others()
      requires chunkSize > 0
      modifies this`next
      ensures next >= old(next) && next % chunkSize == old(next) % chunkSize
    {
      var k: nat := *;
      AdvanceMod(next, k, chunkSize);
      next := next + k * chunkSize;
    }

    /** Whatever other workers fetch in between: empty chunks are passed over, and the first
        non-empty one, if the counter has not left the file, is handed out. */
    method GetNext() returns (ok: bool, begin: nat, end: nat, ghost taken: seq<nat>)
      requires chunkSize > 0
      modifies this`next
      ensures OwnOffsets(chunkSize, old(next), taken) && taken != [] && next == taken[|taken| - 1] + chunkSize
      ensures next % chunkSize == old(next) % chunkSize
      ensures forall i | 0 <= i < |taken| - 1 ::
                taken[i] < |text| &&
                LeftEdge(text, chunkSize, taken[i]) >= RightEdge(text, chunkSize, lookahead, taken[i])
      ensures var s := taken[|taken| - 1];
              if ok then s < |text| &&
                  begin == LeftEdge(text, chunkSize, s) < end == RightEdge(text, chunkSize, lookahead, s)
              else s >= |text|
    {
      hide FindByte, LeftEdge, RightEdge;
      taken := [];
      while true
        invariant old(next) <= next && next % chunkSize == old(next) % chunkSize
        invariant OwnOffsets(chunkSize, old(next), taken)
        invariant forall i | 0 <= i < |taken| :: taken[i] + chunkSize <= next
        invariant forall i | 0 <= i < |taken| ::
                    taken[i] < |text| &&
                    LeftEdge(text, chunkSize, taken[i]) >= RightEdge(text, chunkSize, lookahead, taken[i])
        decreases |text| - next
      {
        Others();
        var s := FetchAdd(chunkSize);
        ModAdd(chunkSize, s);
        taken := taken + [s];
        if s >= |text| { return false, 0, 0, taken; }
        begin := AlignStart(s);
        end := AlignEnd(s);
        if begin < end { return true, begin, end, taken; }
      }
    }
  }

  // ---------------------------------------------------------------- nominal boundaries

  /** `s` is one of the offsets 0, C, 2C, ... that lie inside the file. */
  ghost predicate Nominal(C: nat, total: nat, s: int)
    requires C > 0
  {
    0 <= s < total && s % C == 0
  }

  lemma NominalStep(C: nat, total: nat, s: nat)
    requires C > 0 && s % C == 0
    ensures (s + C) % C == 0
  {
    ModAdd(C, s);
  }

  /** Two different nominal offsets are at least one chunk apart. */
  lemma NominalApart(C: nat, s: nat, t: nat)
    requires C > 0 && s % C == 0 && t % C == 0 && s < t
    ensures s + C <= t
  {
    assert s == (s / C) * C && t == (t / C) * C;
    assert t - s == (t / C - s / C) * C;
    MulBound(t / C - s / C, C);
  }

  /** Every offset lies in exactly one nominal chunk. */
  lemma NominalOf(C: nat, total: nat, x: nat) returns (s: nat)
    requires C > 0 && x < total
    ensures Nominal(C, total, s) && s <= x < s + C
  {
    s := x - x % C;
    assert x == (x / C) * C + x % C;
    ModUnique(C, s, x / C, 0);
  }

  /** Every boundary has a newline within reach of both the chunk and the look-ahead. */
  ghost predicate WellLined(text: Word, C: nat, L: nat)
    requires C > 0
  {
    forall p: nat | 0 < p && Nominal(C, |text|, p) ::
      FindByte(text, p, Min(p + Min(C, L), |text|), NEWLINE) < Min(p + Min(C, L), |text|)
  }

  /** A line starts at `x`: it is the start of the file or follows a newline. */
  predicate LineStart(text: Word, x: nat)
    requires x <= |text|
  {
    x == 0 || text[x - 1] == NEWLINE
  }

  lemma {:induction false} FindByteWider(text: Word, lo: nat, mid: nat, hi: nat, b: byte)
    requires lo <= mid <= hi <= |text| && FindByte(text, lo, mid, b) < mid
    ensures FindByte(text, lo, hi, b) == FindByte(text, lo, mid, b)
  {
    FindByteUnique(text, lo, hi, b, FindByte(text, lo, mid, b));
  }

  /** A boundary splits no line: its first newline is in reach of both neighbours, so both move past
      it; or a line starts at the boundary anyway and neither neighbour moves. */
  ghost predicate KeepsLines(text: Word, C: nat, L: nat, p: nat)
    requires 0 < p < |text|
  {
    var nl := FindByte(text, p, |text|, NEWLINE);
    || (nl < |text| && nl - p < Min(C, L))
    || (text[p - 1] == NEWLINE && (nl == |text| || (nl - p >= C && nl - p >= L)))
  }

  /** No boundary of the file splits a line. */
  ghost predicate LineSafe(text: Word, C: nat, L: nat)
    requires C > 0
  {
    forall p: nat | 0 < p && Nominal(C, |text|, p) :: KeepsLines(text, C, L, p)
  }

  /** Well-lined files are line-safe; they are not the only ones. */
  lemma WellLinedSafe(text: Word, C: nat, L: nat)
    requires C > 0 && WellLined(text, C, L)
    ensures LineSafe(text, C, L)
  {
    forall p: nat | 0 < p && Nominal(C, |text|, p) ensures KeepsLines(text, C, L, p) {
      FindByteWider(text, p, Min(p + Min(C, L), |text|), |text|, NEWLINE);
    }
  }

  lemma FindByteLimit(text: Word, p: nat, hi: nat, b: byte)
    requires p <= hi <= |text|
    ensures FindByte(text, p, hi, b) == Min(FindByte(text, p, |text|, b), hi)
  {
    FindByteUnique(text, p, hi, b, Min(FindByte(text, p, |text|, b), hi));
  }

  /** Both edges of boundary `p` in terms of the first newline after it. */
  lemma EdgesAt(text: Word, C: nat, L: nat, s: nat)
    requires C > 0 && s + C < |text|
    ensures var p, nl := s + C, FindByte(text, s + C, |text|, NEWLINE);
            && RightEdge(text, C, L, s) == (if nl < |text| && nl - p < L then nl + 1 else p)
            && LeftEdge(text, C, p) == (if nl < |text| && nl - p < C then nl + 1 else p)
  {
    var p := s + C;
    FindByteLimit(text, p, p + Min(|text| - p, C), NEWLINE);
    FindByteLimit(text, p, p + Min(|text| - p, L), NEWLINE);
  }

  /** On a line-safe file neighbouring chunks share their edge, which is the start of a line. */
  lemma SharedEdge(text: Word, C: nat, L: nat, s: nat)
    requires C > 0 && LineSafe(text, C, L)
    requires Nominal(C, |text|, s) && s + C < |text|
    ensures RightEdge(text, C, L, s) == LeftEdge(text, C, s + C)
    ensures LineStart(text, LeftEdge(text, C, s + C))
  {
    NominalStep(C, |text|, s);
    assert KeepsLines(text, C, L, s + C);
    EdgesAt(text, C, L, s);
    hide LeftEdge, RightEdge;
  }

  /** The chunk of a nominal offset never runs backwards. */
  lemma EdgesOrdered(text: Word, C: nat, L: nat, s: nat)
    requires C > 0 && s < |text|
    ensures LeftEdge(text, C, s) <= RightEdge(text, C, L, s)
  {
  }

  // ---------------------------------------------------------------- any file

  /** No newline of the boundary `p` is within the look-ahead but one is within the chunk: the
      left neighbour stops at `p` and the right one starts after the newline. */
  ghost predicate LosesAt(text: Word, C: nat, L: nat, p: nat)
    requires C > 0 && p < |text|
  {
    var nl := FindByte(text, p, |text|, NEWLINE);
    nl < |text| && L <= nl - p < C
  }

  ghost predicate Lost(text: Word, C: nat, L: nat, x: nat)
    requires C > 0 && x < |text|
  {
    exists p: nat | 0 < p && Nominal(C, |text|, p) ::
      LosesAt(text, C, L, p) && p <= x <= FindByte(text, p, |text|, NEWLINE)
  }

  ghost predicate Covered(text: Word, C: nat, L: nat, x: nat)
    requires C > 0 && x < |text|
  {
    exists s: nat | Nominal(C, |text|, s) :: LeftEdge(text, C, s) <= x < RightEdge(text, C, L, s)
  }

  /** Chunks are disjoint and in file order. */
  lemma {:induction false} ChunksDisjoint(text: Word, C: nat, L: nat, s: nat, t: nat)
    requires C > 0 && L <= C && Nominal(C, |text|, s) && Nominal(C, |text|, t) && s < t
    ensures RightEdge(text, C, L, s) <= LeftEdge(text, C, t)
    decreases t - s
  {
    NominalApart(C, s, t);
    EdgesAt(text, C, L, s);
    if s + C != t {
      NominalStep(C, |text|, s);
      NominalApart(C, s + C, t);
    }
  }

  lemma LostUncovered(text: Word, C: nat, L: nat, x: nat)
    requires C > 0 && L <= C && x < |text| && Lost(text, C, L, x)
    ensures !Covered(text, C, L, x)
  {
    hide FindByte, LeftEdge, RightEdge;
    var p: nat :| 0 < p && Nominal(C, |text|, p) && LosesAt(text, C, L, p) &&
      p <= x <= FindByte(text, p, |text|, NEWLINE);
    forall t: nat | Nominal(C, |text|, t)
      ensures !(LeftEdge(text, C, t) <= x < RightEdge(text, C, L, t))
    {
      LostAvoids(text, C, L, p, t, x);
    }
  }

  /** Exactly the lost bytes are in no chunk. */
  lemma CoveredExact(text: Word, C: nat, L: nat, x: nat)
    requires C > 0 && L <= C && x < |text|
    ensures Covered(text, C, L, x) <==> !Lost(text, C, L, x)
  {
    if Lost(text, C, L, x) {
      LostUncovered(text, C, L, x);
    } else {
      var s := NominalOf(C, |text|, x);
      NotLostCovered(text, C, L, s, x);
    }
  }

  lemma LostAvoids(text: Word, C: nat, L: nat, p: nat, t: nat, x: nat)
    requires C > 0 && L <= C && 0 < p < |text| && Nominal(C, |text|, p) && Nominal(C, |text|, t)
    requires LosesAt(text, C, L, p) && p <= x <= FindByte(text, p, |text|, NEWLINE)
    ensures !(LeftEdge(text, C, t) <= x < RightEdge(text, C, L, t))
  {
    NominalBelow(C, p);
    EdgesAt(text, C, L, p - C);
    hide FindByte;
    if t < p {
      NominalApart(C, t, p);
      if t != p - C {
        NominalApart(C, t, p - C);
        EdgesAt(text, C, L, t);
      }
    } else if p < t {
      NominalApart(C, p, t);
    }
  }

  lemma NominalBelow(C: nat, p: nat)
    requires C > 0 && 0 < p && p % C == 0
    ensures p >= C && (p - C) % C == 0
  {
    NominalApart(C, 0, p);
    ModAdd(C, p - C);
  }

  lemma NotLostCovered(text: Word, C: nat, L: nat, s: nat, x: nat)
    requires C > 0 && L <= C && x < |text| && Nominal(C, |text|, s) && s <= x < s + C
    requires !Lost(text, C, L, x)
    ensures Covered(text, C, L, x)
  {
    if LeftEdge(text, C, s) <= x {
      assert x < RightEdge(text, C, L, s);
    } else {
      NominalBelow(C, s);
      EdgesAt(text, C, L, s - C);
      assert !LosesAt(text, C, L, s);
      assert LeftEdge(text, C, s - C) <= s;
      assert Nominal(C, |text|, s - C);
    }
  }

  /** With a look-ahead beyond the chunk size two chunks can overlap, so the bound is exact. */
  lemma DisjointIff(C: nat, L: nat)
    requires C > 0
    ensures L <= C <==>
              forall text: Word, s: nat, t: nat | Nominal(C, |text|, s) && Nominal(C, |text|, t) && s < t ::
                RightEdge(text, C, L, s) <= LeftEdge(text, C, t)
  {
    if L <= C {
      forall text: Word, s: nat, t: nat | Nominal(C, |text|, s) && Nominal(C, |text|, t) && s < t
        ensures RightEdge(text, C, L, s) <= LeftEdge(text, C, t)
      {
        ChunksDisjoint(text, C, L, s, t);
      }
    } else {
      var text := seq(2 * C, i => 0 as byte) + [NEWLINE];
      FindByteUnique(text, C, |text|, NEWLINE, 2 * C);
      EdgesAt(text, C, L, 0);
      ModUnique(C, C, 1, 0);
      assert Nominal(C, |text|, 0) && Nominal(C, |text|, C);
    }
  }
}

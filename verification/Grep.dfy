/** g-grep: the lines that contain a needle, counted and copied by many workers, and the decoder of
    the merged arena of NUL-terminated hits. */
module Grep {
  import opened Bytes
  import opened ByteSearch
  import opened ChunkAllocator
  import opened Schedule
  import opened Pipeline
  import opened SimdScan

  // ---------------------------------------------------------------- lines

  /** The line text[start..end), without its newline. */
  datatype Line = Line(start: nat, end: nat)

  /** Where the line that contains `l` ends: at its newline, or at `e`. */
  function LineEnd(text: Word, l: nat, e: nat): (r: nat)
    requires l <= e <= |text|
    ensures l <= r <= e
  {
    FindByte(text, l, e, NEWLINE)
  }

  /** The lines that begin in [l, e), cut at `e`. */
  ghost function LinesIn(text: Word, l: nat, e: nat): seq<Line>
    requires e <= |text|
    decreases e - l
  {
    if l >= e then []
    else
      var r := LineEnd(text, l, e);
      [Line(l, r)] + if r >= e then [] else LinesIn(text, r + 1, e)
  }

  ghost predicate IsLine(text: Word, x: Line) {
    && x.start < |text| && LineStart(text, x.start)
    && x.start <= x.end <= |text|
    && (forall i | x.start <= i < x.end :: text[i] != NEWLINE)
    && (x.end < |text| ==> text[x.end] == NEWLINE)
  }

  /** The first line of a stretch that starts a line. */
  lemma FirstLine(text: Word, l: nat, x: Line)
    requires l < |text| && LineStart(text, l)
    ensures var r := LineEnd(text, l, |text|);
            IsLine(text, x) && l <= x.start <==> x == Line(l, r) || (r < |text| && IsLine(text, x) && r + 1 <= x.start)
  {
    var r := LineEnd(text, l, |text|);
    hide FindByte;
    if IsLine(text, x) && l <= x.start <= r {
      FindByteUnique(text, l, |text|, NEWLINE, x.end);
    }
  }

  lemma LinesUnfold(text: Word, l: nat, e: nat)
    requires e <= |text|
    ensures l >= e ==> LinesIn(text, l, e) == []
    ensures l < e ==> var r := LineEnd(text, l, e);
                      LinesIn(text, l, e) == [Line(l, r)] + if r >= e then [] else LinesIn(text, r + 1, e)
  {
    hide LineEnd;
  }

  /** The scan of the whole file visits exactly its lines. */
  lemma {:induction false} LinesExact(text: Word, l: nat, x: Line)
    requires l <= |text| && LineStart(text, l)
    ensures x in LinesIn(text, l, |text|) <==> IsLine(text, x) && l <= x.start
    decreases |text| - l
  {
    hide LineEnd, IsLine, LinesIn, LineStart;
    LinesUnfold(text, l, |text|);
    if l < |text| {
      var r := LineEnd(text, l, |text|);
      FirstLine(text, l, x);
      if r < |text| {
        AfterNewline(text, l);
        LinesExact(text, r + 1, x);
      } else {
        assert LinesIn(text, l, |text|) == [Line(l, r)];
      }
    } else {
      NoLineFrom(text, x);
    }
  }

  lemma AfterNewline(text: Word, l: nat)
    requires l <= |text| && LineEnd(text, l, |text|) < |text|
    ensures LineStart(text, LineEnd(text, l, |text|) + 1)
  {
  }

  lemma NoLineFrom(text: Word, x: Line)
    ensures IsLine(text, x) ==> x.start < |text|
  {
  }

  lemma {:induction false} LinesAscend(text: Word, l: nat, e: nat)
    requires l <= e <= |text|
    ensures StrictBy(Start(), LinesIn(text, l, e))
    ensures forall x | x in LinesIn(text, l, e) :: l <= x.start < e
    decreases e - l
  {
    hide LineEnd, LinesIn, StrictBy;
    LinesUnfold(text, l, e);
    if l < e {
      var r := LineEnd(text, l, e);
      var rest := if r < e then LinesIn(text, r + 1, e) else [];
      if r < e { LinesAscend(text, r + 1, e); } else { StrictNone<Line>(Start()); }
      StrictCons(Start(), Line(l, r), rest);
    } else {
      StrictNone<Line>(Start());
    }
  }

  lemma StrictNone<R>(key: R -> int)
    ensures StrictBy(key, [])
  {
  }

  lemma StrictCons<R>(key: R -> int, x: R, rest: seq<R>)
    requires StrictBy(key, rest) && forall y | y in rest :: key(x) < key(y)
    ensures StrictBy(key, [x] + rest)
  {
  }

  ghost function Start(): Line -> int {
    (x: Line) => x.start
  }

  lemma FindByteBefore(text: Word, l: nat, m: nat)
    requires l < m <= |text| && text[m - 1] == NEWLINE
    ensures LineEnd(text, l, m) < m
    ensures LineEnd(text, l, |text|) == LineEnd(text, l, m)
  {
    FindByteUnique(text, l, |text|, NEWLINE, FindByte(text, l, m, NEWLINE));
  }

  lemma LinesFirst(text: Word, l: nat, e: nat, r: nat)
    requires l < e <= |text| && r == LineEnd(text, l, e) && r < e
    ensures LinesIn(text, l, e) == [Line(l, r)] + LinesIn(text, r + 1, e)
  {
    hide LineEnd;
  }

  lemma Prepend<A>(whole: seq<A>, part: seq<A>, x: A, r: seq<A>, s: seq<A>, t: seq<A>)
    requires whole == [x] + s && part == [x] + r && s == r + t
    ensures whole == part + t
  {
  }

  lemma {:induction false} LinesCut(text: Word, l: nat, m: nat)
    requires l <= m <= |text| && (l < m ==> text[m - 1] == NEWLINE)
    ensures LinesIn(text, l, |text|) == LinesIn(text, l, m) + LinesIn(text, m, |text|)
    decreases m - l
  {
    hide LineEnd, FindByte, LinesIn;
    LinesUnfold(text, m, m);
    if l < m {
      FindByteBefore(text, l, m);
      var r := LineEnd(text, l, m);
      LinesFirst(text, l, m, r);
      LinesFirst(text, l, |text|, r);
      LinesCut(text, r + 1, m);
      Prepend(LinesIn(text, l, |text|), LinesIn(text, l, m), Line(l, r),
              LinesIn(text, r + 1, m), LinesIn(text, r + 1, |text|), LinesIn(text, m, |text|));
    }
  }

  // ---------------------------------------------------------------- hits

  /** memmem finds the needle somewhere in the line. */
  predicate Contains(line: Word, needle: Word) {
    exists i | 0 <= i <= |line| - |needle| :: FoundAt(line, needle, i)
  }

  predicate FoundAt(line: Word, needle: Word, i: int)
    requires 0 <= i <= |line| - |needle|
  {
    line[i..i + |needle|] == needle
  }

  /** The needle stands somewhere in the line. */
  lemma ContainsExact(line: Word, needle: Word)
    ensures Contains(line, needle) <==> exists before: Word, after: Word :: line == before + needle + after
  {
    if i :| 0 <= i <= |line| - |needle| && FoundAt(line, needle, i) {
      assert line == line[..i] + needle + line[i + |needle|..];
    }
    if before: Word, after: Word :| line == before + needle + after {
      assert FoundAt(line, needle, |before|);
    }
  }

  ghost function Hits(text: Word, needle: Word, lines: seq<Line>): seq<Word> {
    if lines == [] then []
    else
      (if lines[0].start <= lines[0].end <= |text| && Contains(text[lines[0].start..lines[0].end], needle)
       then [text[lines[0].start..lines[0].end]] else []) + Hits(text, needle, lines[1..])
  }

  lemma {:induction false} HitsConcat(text: Word, needle: Word, a: seq<Line>, b: seq<Line>)
    ensures Hits(text, needle, a + b) == Hits(text, needle, a) + Hits(text, needle, b)
  {
    if a == [] {
      assert a + b == b;
    } else {
      assert (a + b)[1..] == a[1..] + b;
      HitsConcat(text, needle, a[1..], b);
    }
  }

  /** The lines of the file that contain the needle, in file order. */
  ghost function HitLines(text: Word, needle: Word): seq<Word> {
    Hits(text, needle, LinesIn(text, 0, |text|))
  }

  /** The hits of one chunk. */
  ghost function HitChunk(text: Word, needle: Word): (nat, nat) -> seq<Word> {
    (b: nat, e: nat) => if b <= e <= |text| then Hits(text, needle, LinesIn(text, b, e)) else []
  }

  lemma HitChunkCut(text: Word, needle: Word)
    ensures EmptyChunks(text, HitChunk(text, needle)) && CutsAtLines(text, HitChunk(text, needle))
  {
    var chunk := HitChunk(text, needle);
    forall b: nat, m: nat | b <= m <= |text| && LineStart(text, m) && (b < m || m == 0)
      ensures chunk(b, |text|) == chunk(b, m) + chunk(m, |text|)
    {
      LinesCut(text, b, m);
      HitsConcat(text, needle, LinesIn(text, b, m), LinesIn(text, m, |text|));
    }
  }

  // ---------------------------------------------------------------- the arena of hits

  /** Each hit followed by a NUL. */
  ghost function Encode(hits: seq<Word>): Word {
    if hits == [] then [] else Encode(hits[..|hits| - 1]) + hits[|hits| - 1] + [0]
  }

  lemma {:induction false} EncodeConcat(a: seq<Word>, b: seq<Word>)
    ensures Encode(a + b) == Encode(a) + Encode(b)
  {
    if b == [] {
      assert a + b == a;
    } else {
      var n := |b| - 1;
      assert (a + b)[..|a + b| - 1] == a + b[..n];
      EncodeConcat(a, b[..n]);
      assert Encode(a) + (Encode(b[..n]) + b[n] + [0]) == (Encode(a) + Encode(b[..n])) + b[n] + [0];
    }
  }

  /** The line loop of a worker over one chunk. */
  method GrepChunk(text: Word, begin: nat, end: nat, needle: Word, copy: bool, isa: Isa, arena0: Word, count0: nat)
    returns (arena: Word, count: nat)
    requires begin <= end <= |text|
    ensures count == count0 + |Hits(text, needle, LinesIn(text, begin, end))|
    ensures arena == if copy then arena0 + Encode(Hits(text, needle, LinesIn(text, begin, end))) else arena0
  {
    hide Contains, LineEnd, FindByte, Encode, Hits, LinesIn;
    arena, count := arena0, count0;
    var l := begin;
    ghost var goal := Hits(text, needle, LinesIn(text, begin, end));
    ghost var seen: seq<Word> := [];
    EncodeEmpty();
    HitsEnd(text, needle, end);
    while l < end
      invariant begin <= l <= end
      invariant seen + Hits(text, needle, LinesIn(text, l, end)) == goal
      invariant count == count0 + |seen|
      invariant arena == if copy then arena0 + Encode(seen) else arena0
      decreases end - l
    {
      var r := FindByteFast(text, l, end, NEWLINE, isa);
      LineEndIs(text, l, end);
      HitsUnfold(text, needle, l, end, r);
      ContainsLength(text[l..r], needle);
      if r - l >= |needle| && Contains(text[l..r], needle) {
        count := count + 1;
        EncodeSnoc(arena0, seen, text[l..r]);
        seen := seen + [text[l..r]];
        if copy { arena := arena + text[l..r] + [0]; }
      }
      if r >= end {
        l := end;
        break;
      }
      l := r + 1;
    }
    assert seen == goal;
  }

  lemma LineEndIs(text: Word, l: nat, e: nat)
    requires l <= e <= |text|
    ensures LineEnd(text, l, e) == FindByte(text, l, e, NEWLINE)
  {
  }

  lemma HitsEnd(text: Word, needle: Word, e: nat)
    requires e <= |text|
    ensures Hits(text, needle, LinesIn(text, e, e)) == []
  {
  }

  lemma ContainsLength(line: Word, needle: Word)
    ensures Contains(line, needle) ==> |line| >= |needle|
  {
  }

  lemma EncodeSnoc(arena0: Word, hits: seq<Word>, x: Word)
    ensures arena0 + Encode(hits + [x]) == (arena0 + Encode(hits)) + x + [0]
  {
    assert (hits + [x])[..|hits|] == hits;
  }

  lemma HitsUnfold(text: Word, needle: Word, l: nat, e: nat, r: nat)
    requires l < e <= |text| && r == LineEnd(text, l, e)
    ensures Hits(text, needle, LinesIn(text, l, e)) ==
            (if Contains(text[l..r], needle) then [text[l..r]] else []) +
            Hits(text, needle, LinesIn(text, if r >= e then e else r + 1, e))
  {
    hide Contains, LineEnd;
    var rest := if r >= e then [] else LinesIn(text, r + 1, e);
    assert ([Line(l, r)] + rest)[1..] == rest;
  }

  /** A worker: the hits in the chunks it was handed, whatever the other workers took. */
  method GrepWorker(alloc: Allocator, needle: Word, copy: bool) returns (arena: Word, count: nat, ghost mine: seq<nat>)
    requires alloc.chunkSize > 0
    modifies alloc`next
    ensures OwnOffsets(alloc.chunkSize, old(alloc.next), mine) && mine != [] && mine[|mine| - 1] >= |alloc.text|
    ensures var hits := Works(ChunkJob(alloc.text, alloc.chunkSize, alloc.lookahead, HitChunk(alloc.text, needle)),
            mine);
            count == |hits| && arena == if copy then Encode(hits) else []
  {
    hide FindByte, LeftEdge, RightEdge, Works, EmptyChunks, CutsAtLines, Hits, LinesIn, Encode;
    ghost var text, C, L, chunk := alloc.text, alloc.chunkSize, alloc.lookahead, HitChunk(alloc.text, needle);
    ghost var job := ChunkJob(text, C, L, chunk);
    HitChunkCut(text, needle);
    arena, count, mine := [], 0, [];
    EncodeEmpty();
    WorksNothing(job);
    while true
      invariant old(alloc.next) <= alloc.next && alloc.next % C == old(alloc.next) % C
      invariant OwnOffsets(C, old(alloc.next), mine) && forall i | 0 <= i < |mine| :: mine[i] + C <= alloc.next
      invariant count == |Works(job, mine)| && arena == if copy then Encode(Works(job, mine)) else []
      decreases |text| - alloc.next
    {
      ghost var from, seen := alloc.next, Works(job, mine);
      var ok, begin, end, taken := alloc.GetNext();
      OwnAppend(C, old(alloc.next), mine, from, taken);
      NextWork(text, C, L, chunk, mine, taken);
      mine := mine + taken;
      if !ok {
        assert seen + [] == seen;
        break;
      }
      arena, count := GrepChunk(alloc.text, begin, end, needle, copy, alloc.isa, arena, count);
      EncodeConcat(seen, chunk(begin, end));
    }
  }

  lemma EncodeEmpty()
    ensures Encode([]) == []
  {
  }

  // ---------------------------------------------------------------- decoding

  /** The words that end at a NUL in bytes[start..], with `start` the beginning of the open word. */
  ghost function Decode(bytes: Word, start: nat, i: nat): seq<Word>
    requires start <= i <= |bytes|
    decreases |bytes| - i
  {
    if i == |bytes| then []
    else if bytes[i] == 0 then [bytes[start..i]] + Decode(bytes, i + 1, i + 1)
    else Decode(bytes, start, i + 1)
  }

  function Mapped<T>(f: Word -> T, words: seq<Word>): (out: seq<T>)
    ensures |out| == |words| && forall k | 0 <= k < |words| :: out[k] == f(words[k])
  {
    if words == [] then [] else Mapped(f, words[..|words| - 1]) + [f(words[|words| - 1])]
  }

  lemma MappedConcat<T>(f: Word -> T, a: seq<Word>, b: seq<Word>)
    ensures Mapped(f, a + b) == Mapped(f, a) + Mapped(f, b)
  {
  }

  /** `lossy` is the conversion of the bytes of a hit to a string. */
  method DecodeArena<T>(bytes: Word, lossy: Word -> T) returns (out: seq<T>)
    ensures out == Mapped(lossy, Decode(bytes, 0, 0))
  {
    hide Mapped;
    out := [];
    var start := 0;
    ghost var all := Mapped(lossy, Decode(bytes, 0, 0));
    for i := 0 to |bytes|
      invariant start <= i
      invariant out + Mapped(lossy, Decode(bytes, start, i)) == all
    {
      if bytes[i] == 0 {
        var x := bytes[start..i];
        MappedConcat(lossy, [x], Decode(bytes, i + 1, i + 1));
        assert Mapped(lossy, [x]) == [lossy(x)];
        ghost var before := out;
        out := out + [lossy(x)];
        assert before + ([lossy(x)] + Mapped(lossy, Decode(bytes, i + 1, i + 1))) ==
               out + Mapped(lossy, Decode(bytes, i + 1, i + 1));
        start := i + 1;
      }
    }
  }

  predicate NulFree(w: Word) {
    forall i | 0 <= i < |w| :: w[i] != 0
  }

  ghost function CountNul(w: Word): nat {
    if w == [] then 0 else CountNul(w[..|w| - 1]) + if w[|w| - 1] == 0 then 1 else 0
  }

  lemma {:induction false} CountNulConcat(a: Word, b: Word)
    ensures CountNul(a + b) == CountNul(a) + CountNul(b)
  {
    if b == [] {
      assert a + b == a;
    } else {
      assert (a + b)[..|a + b| - 1] == a + b[..|b| - 1];
      CountNulConcat(a, b[..|b| - 1]);
    }
  }

  lemma {:induction false} CountNulZero(w: Word)
    ensures CountNul(w) == 0 <==> NulFree(w)
  {
    if w != [] {
      var n := |w| - 1;
      CountNulZero(w[..n]);
      if NulFree(w[..n]) && w[n] != 0 {
        forall i | 0 <= i < |w| ensures w[i] != 0 { if i < n { assert w[..n][i] != 0; } }
      }
      if NulFree(w) { assert NulFree(w[..n]); }
    }
  }

  lemma {:induction false} DecodeLength(bytes: Word, start: nat, i: nat)
    requires start <= i <= |bytes|
    ensures |Decode(bytes, start, i)| == CountNul(bytes[i..])
    decreases |bytes| - i
  {
    if i < |bytes| {
      assert bytes[i..] == [bytes[i]] + bytes[i + 1..];
      CountNulConcat([bytes[i]], bytes[i + 1..]);
      assert CountNul([bytes[i]]) == if bytes[i] == 0 then 1 else 0;
      DecodeLength(bytes, if bytes[i] == 0 then i + 1 else start, i + 1);
    }
  }

  lemma {:induction false} DecodePrefix(a: Word, b: Word, start: nat, i: nat)
    requires start <= i <= |a| && (a != [] ==> a[|a| - 1] == 0) && (i == |a| ==> start == i)
    ensures Decode(a + b, start, i) == Decode(a, start, i) + Decode(b, 0, 0)
    decreases |a| - i
  {
    if i == |a| {
      DecodeShift(a, b, 0, 0);
    } else {
      assert (a + b)[start..i] == a[start..i];
      DecodePrefix(a, b, if a[i] == 0 then i + 1 else start, i + 1);
    }
  }

  lemma {:induction false} DecodeShift(a: Word, b: Word, start: nat, i: nat)
    requires start <= i <= |b|
    ensures Decode(a + b, |a| + start, |a| + i) == Decode(b, start, i)
    decreases |b| - i
  {
    if i < |b| {
      assert (a + b)[|a| + start..|a| + i] == b[start..i];
      DecodeShift(a, b, if b[i] == 0 then i + 1 else start, i + 1);
    }
  }

  lemma {:induction false} DecodeOne(x: Word, i: nat)
    requires NulFree(x) && i <= |x|
    ensures Decode(x + [0], 0, i) == [x]
    decreases |x| - i
  {
    var w := x + [0];
    if i < |x| {
      assert w[i] == x[i];
      DecodeOne(x, i + 1);
    } else {
      assert w[0..i] == x;
    }
  }

  /** Decoding inverts encoding for hits without a NUL. */
  lemma {:induction false} DecodeEncode(hits: seq<Word>)
    requires forall k | 0 <= k < |hits| :: NulFree(hits[k])
    ensures Decode(Encode(hits), 0, 0) == hits
  {
    if hits != [] {
      var n := |hits| - 1;
      var a, b := Encode(hits[..n]), hits[n] + [0];
      DecodeEncode(hits[..n]);
      assert Encode(hits) == a + b;
      EndsInNul(hits[..n]);
      DecodePrefix(a, b, 0, 0);
      DecodeOne(hits[n], 0);
    }
  }

  lemma EndsInNul(hits: seq<Word>)
    ensures Encode(hits) != [] ==> Encode(hits)[|Encode(hits)| - 1] == 0
  {
  }

  lemma {:induction false} EncodeNuls(hits: seq<Word>)
    ensures CountNul(Encode(hits)) >= |hits|
    ensures CountNul(Encode(hits)) == |hits| <==> forall k | 0 <= k < |hits| :: NulFree(hits[k])
  {
    if hits != [] {
      var n := |hits| - 1;
      EncodeNuls(hits[..n]);
      CountNulConcat(Encode(hits[..n]) + hits[n], [0]);
      CountNulConcat(Encode(hits[..n]), hits[n]);
      CountNulZero(hits[n]);
      assert CountNul([0]) == 1;
      assert forall k | 0 <= k < n :: hits[..n][k] == hits[k];
    }
  }

  /** The decoder returns as many strings as there were hits exactly when no hit holds a NUL, and
      then it returns the hits. */
  lemma DecodeExact(hits: seq<Word>)
    ensures |Decode(Encode(hits), 0, 0)| == |hits| <==> forall k | 0 <= k < |hits| :: NulFree(hits[k])
    ensures Decode(Encode(hits), 0, 0) == hits <==> forall k | 0 <= k < |hits| :: NulFree(hits[k])
  {
    DecodeLength(Encode(hits), 0, 0);
    assert Encode(hits)[0..] == Encode(hits);
    EncodeNuls(hits);
    if forall k | 0 <= k < |hits| :: NulFree(hits[k]) { DecodeEncode(hits); }
  }

  lemma NulFreeSnoc(w: Word, b: byte)
    requires NulFree(w) && b != 0
    ensures NulFree(w + [b])
  {
  }

  /** What the decoder makes of any bytes: NUL-free words that are the bytes when each is followed by a
      NUL, up to the last NUL. What follows the last NUL is dropped. */
  lemma {:induction false} DecodeSplits(bytes: Word, start: nat, i: nat) returns (rest: Word)
    requires start <= i <= |bytes| && NulFree(bytes[start..i])
    ensures bytes[start..] == Encode(Decode(bytes, start, i)) + rest && NulFree(rest)
    ensures forall k | 0 <= k < |Decode(bytes, start, i)| :: NulFree(Decode(bytes, start, i)[k])
    decreases |bytes| - i
  {
    hide Encode, NulFree;
    if i == |bytes| {
      rest := bytes[start..];
      EncodeEmpty();
      assert rest == bytes[start..i];
    } else if bytes[i] == 0 {
      assert bytes[i + 1..i + 1] == [];
      NothingNul();
      rest := DecodeSplits(bytes, i + 1, i + 1);
      var word, tail := bytes[start..i], Decode(bytes, i + 1, i + 1);
      EncodeConcat([word], tail);
      EncodeSingle(word);
      assert bytes[start..] == word + [0] + bytes[i + 1..];
    } else {
      NulFreeSnoc(bytes[start..i], bytes[i]);
      assert bytes[start..i + 1] == bytes[start..i] + [bytes[i]];
      rest := DecodeSplits(bytes, start, i + 1);
    }
  }

  lemma NothingNul()
    ensures NulFree([])
  {
  }

  lemma EncodeSingle(w: Word)
    ensures Encode([w]) == w + [0]
  {
    assert [w][..0] == [];
    EncodeEmpty();
  }

  // ---------------------------------------------------------------- the pipeline

  /** The concatenation of the workers' arenas. */
  ghost function MergedArena(workers: seq<Worker<Word>>): Word {
    if workers == [] then [] else MergedArena(workers[..|workers| - 1]) + Encode(workers[|workers| - 1].out)
  }

  lemma {:induction false} MergedArenaEncodes(workers: seq<Worker<Word>>)
    ensures MergedArena(workers) == Encode(Merged(workers))
  {
    if workers != [] {
      var n := |workers| - 1;
      MergedArenaEncodes(workers[..n]);
      EncodeConcat(Merged(workers[..n]), workers[n].out);
    }
  }

  /** The summed worker counts. */
  ghost function MergedCount(workers: seq<Worker<Word>>): nat {
    if workers == [] then 0 else MergedCount(workers[..|workers| - 1]) + |workers[|workers| - 1].out|
  }

  lemma {:induction false} MergedCountLength(workers: seq<Worker<Word>>)
    ensures MergedCount(workers) == |Merged(workers)|
  {
    if workers != [] { MergedCountLength(workers[..|workers| - 1]); }
  }

  /** Any number of workers, any interleaving: on a line-safe file the count is the number of
      lines with the needle, and the decoded arena is a permutation of those lines exactly when
      none of them holds a NUL. */
  lemma GrepPipeline(text: Word, C: nat, L: nat, needle: Word, n: nat, sched: seq<nat>)
    requires C > 0 && LineSafe(text, C, L) && n > 0
    requires AllDone(Run(ChunkJob(text, C, L, HitChunk(text, needle)), n, sched))
    ensures var workers := Run(ChunkJob(text, C, L, HitChunk(text, needle)), n, sched).workers;
            && MergedCount(workers) == |HitLines(text, needle)|
            && (multiset(Decode(MergedArena(workers), 0, 0)) == multiset(HitLines(text, needle)) <==>
                forall x | x in HitLines(text, needle) :: NulFree(x))
  {
    HitChunkCut(text, needle);
    MergeComplete(text, C, L, HitChunk(text, needle), n, sched);
    ArenaOf(Run(ChunkJob(text, C, L, HitChunk(text, needle)), n, sched).workers, HitLines(text, needle));
  }

  /** Count and arena of workers whose hits are a permutation of `hits`. */
  lemma ArenaOf(workers: seq<Worker<Word>>, hits: seq<Word>)
    requires multiset(Merged(workers)) == multiset(hits)
    ensures MergedCount(workers) == |hits|
    ensures multiset(Decode(MergedArena(workers), 0, 0)) == multiset(hits) <==> forall x | x in hits :: NulFree(x)
  {
    var merged := Merged(workers);
    MergedCountLength(workers);
    SameLength(merged, hits);
    MergedArenaEncodes(workers);
    DecodeExact(merged);
    SameMembers(merged, hits);
    assert (forall k | 0 <= k < |merged| :: NulFree(merged[k])) <==> forall x | x in merged :: NulFree(x);
    if multiset(Decode(MergedArena(workers), 0, 0)) == multiset(hits) {
      SameLength(Decode(MergedArena(workers), 0, 0), hits);
    }
  }

  lemma SameMembers(a: seq<Word>, b: seq<Word>)
    requires multiset(a) == multiset(b)
    ensures forall x :: x in a <==> x in b
  {
    forall x ensures x in a <==> x in b {
      assert x in a <==> x in multiset(a);
      assert x in b <==> x in multiset(b);
    }
  }

  /** Any file, any interleaving: the count is the same for every schedule, and the decoded arena is a
      permutation of the chunks' hits exactly when none of them holds a NUL. */
  lemma GrepAnyFile(text: Word, C: nat, L: nat, needle: Word, n: nat, sched: seq<nat>)
    requires C > 0 && n > 0
    requires AllDone(Run(ChunkJob(text, C, L, HitChunk(text, needle)), n, sched))
    ensures var workers := Run(ChunkJob(text, C, L, HitChunk(text, needle)), n, sched).workers;
            var hits := OnePass(text, C, L, HitChunk(text, needle), 0);
            && MergedCount(workers) == |hits|
            && (multiset(Decode(MergedArena(workers), 0, 0)) == multiset(hits) <==> forall x | x in hits :: NulFree(x))
  {
    InterleavingComplete(ChunkJob(text, C, L, HitChunk(text, needle)), n, sched);
    ArenaOf(Run(ChunkJob(text, C, L, HitChunk(text, needle)), n, sched).workers,
      OnePass(text, C, L, HitChunk(text, needle), 0));
  }
}

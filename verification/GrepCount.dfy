/** The files on which g-grep counts the right number of lines for every needle. */
module GrepCount {
  import opened Arith
  import opened Bytes
  import opened ChunkAllocator
  import opened Schedule
  import opened Pipeline
  import opened Grep
  import opened LineCover

  // ---------------------------------------------------------------- the lines that are counted

  /** What the line loop takes for a line of the stretch [b, e). */
  ghost predicate StretchLine(text: Word, b: nat, e: nat, y: Line) {
    && b <= y.start <= y.end <= e <= |text| && y.start < e
    && (y.start == b || text[y.start - 1] == NEWLINE)
    && (forall i | y.start <= i < y.end :: text[i] != NEWLINE)
    && (y.end < e ==> text[y.end] == NEWLINE)
  }

  lemma FirstInStretch(text: Word, b: nat, l: nat, e: nat)
    requires b <= l < e <= |text| && (l == b || text[l - 1] == NEWLINE)
    ensures var r := LineEnd(text, l, e); StretchLine(text, b, e, Line(l, r)) && (r < e ==> text[r] == NEWLINE)
  {
  }

  /** The first line of a rest that starts a line, and those after it. */
  lemma StretchFirst(text: Word, b: nat, l: nat, e: nat, y: Line)
    requires b <= l < e <= |text| && (l == b || text[l - 1] == NEWLINE)
    ensures var r := LineEnd(text, l, e);
            StretchLine(text, b, e, y) && l <= y.start <==>
            y == Line(l, r) || (r < e && StretchLine(text, b, e, y) && r + 1 <= y.start)
  {
    var r := LineEnd(text, l, e);
    hide FindByte;
    if StretchLine(text, b, e, y) && y.start == l { FindByteUnique(text, l, e, NEWLINE, y.end); }
  }

  /** What the line loop visits in any stretch: its pieces between newlines, one cut at the end included. */
  lemma {:induction false} StretchExact(text: Word, b: nat, l: nat, e: nat, y: Line)
    requires b <= l <= e <= |text| && (l == b || text[l - 1] == NEWLINE)
    ensures y in LinesIn(text, l, e) <==> StretchLine(text, b, e, y) && l <= y.start
    decreases e - l
  {
    hide LineEnd, LinesIn, StretchLine;
    LinesUnfold(text, l, e);
    if l < e {
      var r := LineEnd(text, l, e);
      StretchFirst(text, b, l, e, y);
      FirstInStretch(text, b, l, e);
      if r < e {
        StretchExact(text, b, r + 1, e, y);
      } else {
        assert LinesIn(text, l, e) == [Line(l, r)];
      }
    } else {
      StartsBefore(text, b, e, y);
    }
  }

  lemma StartsBefore(text: Word, b: nat, e: nat, y: Line)
    ensures StretchLine(text, b, e, y) ==> y.start < e
  {
  }

  lemma {:induction false} LinesInStretch(text: Word, b: nat, l: nat, e: nat, y: Line)
    requires b <= l <= e <= |text| && (l == b || text[l - 1] == NEWLINE) && y in LinesIn(text, l, e)
    ensures StretchLine(text, b, e, y)
    decreases e - l
  {
    hide LineEnd, LinesIn, StretchLine;
    LinesUnfold(text, l, e);
    FirstInStretch(text, b, l, e);
    var r := LineEnd(text, l, e);
    if y != Line(l, r) { LinesInStretch(text, b, r + 1, e, y); }
  }

  /** The lines of a list that contain the needle. */
  ghost function Matching(text: Word, needle: Word, lines: seq<Line>): seq<Line> {
    if lines == [] then []
    else
      (if lines[0].start <= lines[0].end <= |text| && Contains(text[lines[0].start..lines[0].end], needle)
       then [lines[0]] else []) + Matching(text, needle, lines[1..])
  }

  lemma {:induction false} MatchingIs(text: Word, needle: Word, lines: seq<Line>)
    ensures |Matching(text, needle, lines)| == |Hits(text, needle, lines)|
    ensures forall y :: y in Matching(text, needle, lines) <==>
              y in lines && y.start <= y.end <= |text| && Contains(text[y.start..y.end], needle)
  {
    hide Contains;
    if lines != [] {
      MatchingIs(text, needle, lines[1..]);
      assert forall y :: y in lines <==> y == lines[0] || y in lines[1..];
    }
  }

  lemma {:induction false} MatchingStrict(text: Word, needle: Word, lines: seq<Line>)
    requires StrictBy(Start(), lines)
    ensures StrictBy(Start(), Matching(text, needle, lines))
  {
    if lines != [] {
      var rest := Matching(text, needle, lines[1..]);
      MatchingStrict(text, needle, lines[1..]);
      MatchingIs(text, needle, lines[1..]);
      hide Contains, Matching, StrictBy;
      LaterStarts(lines);
      StrictCons(Start(), lines[0], rest);
      MatchingUnfold(text, needle, lines);
    }
  }

  lemma LaterStarts(lines: seq<Line>)
    requires lines != [] && StrictBy(Start(), lines)
    ensures forall y | y in lines[1..] :: lines[0].start < y.start
  {
  }

  lemma MatchingUnfold(text: Word, needle: Word, lines: seq<Line>)
    requires lines != []
    ensures var rest := Matching(text, needle, lines[1..]);
            Matching(text, needle, lines) == rest || Matching(text, needle, lines) == [lines[0]] + rest
  {
    hide Contains;
  }

  /** The hits are the contents of the matching lines, in order. */
  lemma {:induction false} HitsAre(text: Word, needle: Word, lines: seq<Line>)
    ensures |Hits(text, needle, lines)| == |Matching(text, needle, lines)|
    ensures forall k | 0 <= k < |Hits(text, needle, lines)| ::
              var y := Matching(text, needle, lines)[k];
              y.start <= y.end <= |text| && Hits(text, needle, lines)[k] == text[y.start..y.end]
  {
    hide Contains;
    if lines != [] { HitsAre(text, needle, lines[1..]); }
  }

  /** What g-grep reports of a stretch: the contents of its lines that have the needle somewhere in them,
      each once and in order. */
  lemma HitsExact(text: Word, needle: Word, b: nat, e: nat) returns (lines: seq<Line>)
    requires b <= e <= |text|
    ensures forall y :: y in lines <==>
              StretchLine(text, b, e, y) &&
              exists before: Word, after: Word :: text[y.start..y.end] == before + needle + after
    ensures StrictBy(Start(), lines) && |lines| == |HitChunk(text, needle)(b, e)|
    ensures forall k | 0 <= k < |lines| ::
              lines[k].start <= lines[k].end <= |text| &&
                HitChunk(text, needle)(b, e)[k] == text[lines[k].start..lines[k].end]
  {
    hide Matching, Hits, LinesIn, Contains, StrictBy;
    var all := LinesIn(text, b, e);
    lines := Matching(text, needle, all);
    MatchingIs(text, needle, all);
    LinesAscend(text, b, e);
    MatchingStrict(text, needle, all);
    HitsAre(text, needle, all);
    forall y
      ensures y in lines <==>
                StretchLine(text, b, e, y) &&
                exists before: Word, after: Word :: text[y.start..y.end] == before + needle + after
    {
      StretchExact(text, b, b, e, y);
      FromLeft(text, b, e, y);
      if y.start <= y.end <= |text| { ContainsExact(text[y.start..y.end], needle); }
    }
  }

  lemma FromLeft(text: Word, b: nat, e: nat, y: Line)
    ensures StretchLine(text, b, e, y) ==> b <= y.start <= y.end <= |text|
  {
  }

  /** The lines that a chunk counts. */
  ghost function CountedIn(text: Word, needle: Word): (nat, nat) -> seq<Line> {
    (b: nat, e: nat) => if b <= e <= |text| then Matching(text, needle, LinesIn(text, b, e)) else []
  }

  lemma CountedKeys(text: Word, needle: Word)
    ensures KeysInside(text, CountedIn(text, needle), Start())
    ensures forall b: nat, e: nat | b <= e <= |text| :: StrictBy(Start(), CountedIn(text, needle)(b, e))
  {
    hide Contains, StrictBy;
    forall b: nat, e: nat | b <= e <= |text|
      ensures StrictBy(Start(), CountedIn(text, needle)(b, e))
      ensures forall y | y in CountedIn(text, needle)(b, e) :: b <= y.start < e
    {
      LinesAscend(text, b, e);
      MatchingIs(text, needle, LinesIn(text, b, e));
      MatchingStrict(text, needle, LinesIn(text, b, e));
    }
  }

  lemma PassUnfold<R>(text: Word, C: nat, L: nat, chunk: (nat, nat) -> seq<R>, s: nat)
    requires C > 0
    ensures OnePass(text, C, L, chunk, s) ==
            if s < |text| then chunk(LeftEdge(text, C, s), RightEdge(text, C, L, s)) + OnePass(text, C, L, chunk, s + C)
            else []
  {
    hide LeftEdge, RightEdge;
  }

  lemma ChunkLength(text: Word, needle: Word, b: nat, e: nat)
    ensures |CountedIn(text, needle)(b, e)| == |HitChunk(text, needle)(b, e)|
  {
    hide Matching, Hits;
    if b <= e <= |text| { MatchingIs(text, needle, LinesIn(text, b, e)); }
  }

  lemma {:induction false} CountedLength(text: Word, C: nat, L: nat, needle: Word, s: nat)
    requires C > 0
    ensures |OnePass(text, C, L, CountedIn(text, needle), s)| == |OnePass(text, C, L, HitChunk(text, needle), s)|
    decreases |text| - s
  {
    hide LeftEdge, RightEdge, OnePass, CountedIn, HitChunk;
    PassUnfold(text, C, L, CountedIn(text, needle), s);
    PassUnfold(text, C, L, HitChunk(text, needle), s);
    if s < |text| {
      ChunkLength(text, needle, LeftEdge(text, C, s), RightEdge(text, C, L, s));
      CountedLength(text, C, L, needle, s + C);
    }
  }

  // ---------------------------------------------------------------- the longest line no chunk holds

  /** An unheld line is never empty when the look-ahead is not. */
  lemma UnheldNotEmpty(text: Word, C: nat, L: nat, x: Line)
    requires 0 < L <= C && IsLine(text, x) && !Held(text, C, L, x)
    ensures x.start < x.end
  {
    if x.start == x.end {
      var s := NominalOf(C, |text|, x.start);
      NewlineOf(text, x, x.start);
      EmptyHeld(text, C, L, x, s);
    }
  }

  lemma EmptyHeld(text: Word, C: nat, L: nat, x: Line, s: nat)
    requires 0 < L <= C && IsLine(text, x) && x.start == x.end && Nominal(C, |text|, s) && s <= x.start < s + C
    ensures Held(text, C, L, x)
  {
    EdgeReaches(text, C, L, s);
    if LeftEdge(text, C, s) <= x.start {
      assert Holds(text, C, L, s, x);
    } else {
      FirstEdge(text, C);
      NominalBelow(C, s);
      EdgesAt(text, C, L, s - C);
      LeftBound(text, C, s - C);
      NewlineOf(text, x, x.start);
      hide LeftEdge, RightEdge;
      FindByteUniqueLine(text, x, s);
      assert Holds(text, C, L, s - C, x);
    }
  }

  ghost predicate Unheld(text: Word, C: nat, L: nat, x: Line)
    requires C > 0
  {
    IsLine(text, x) && !Held(text, C, L, x)
  }

  lemma {:induction false} LongestUnheld(text: Word, C: nat, L: nat, x: Line) returns (longest: Line)
    requires C > 0 && Unheld(text, C, L, x)
    ensures Unheld(text, C, L, longest)
    ensures forall y | Unheld(text, C, L, y) :: y.end - y.start <= longest.end - longest.start
    decreases |text| - (x.end - x.start)
  {
    hide Held;
    longest := x;
    if y :| Unheld(text, C, L, y) && y.end - y.start > x.end - x.start {
      longest := LongestUnheld(text, C, L, y);
    }
  }

  // ---------------------------------------------------------------- what is counted is held

  /** The line that a stretch line is part of. */
  lemma WholeLine(text: Word, b: nat, e: nat, y: Line) returns (z: Line)
    requires StretchLine(text, b, e, y)
    ensures IsLine(text, z) && z.start <= y.start && y.end <= z.end
  {
    var nl := FindByte(text, y.start, |text|, NEWLINE);
    z := LineAt(text, y.start, nl);
  }

  /** Inside the chunk that holds it, a line is only ever seen whole. */
  lemma HeldWhole(text: Word, b: nat, e: nat, y: Line, z: Line)
    requires StretchLine(text, b, e, y) && IsLine(text, z) && z.start <= y.start && y.end <= z.end
    requires b <= z.start && z.end <= e
    ensures y == z
  {
  }

  /** A chunk that sees all of a line that is not empty holds it. */
  lemma SeenHeld(text: Word, C: nat, L: nat, s: nat, z: Line)
    requires 0 < L && C > 0 && Nominal(C, |text|, s) && IsLine(text, z) && z.start < z.end
    requires LeftEdge(text, C, s) <= z.start && z.end <= RightEdge(text, C, L, s)
    ensures Holds(text, C, L, s, z)
  {
    var e := RightEdge(text, C, L, s);
    if z.end == e < |text| { NewlineOf(text, z, z.end); EdgesAt(text, C, L, s); }
  }

  /** A line of a chunk as long as the longest line that no chunk holds is a line of the file, and held. */
  lemma LongHeld(text: Word, C: nat, L: nat, s: nat, y: Line, longest: Line)
    requires 0 < L <= C && Nominal(C, |text|, s) && LeftEdge(text, C, s) <= RightEdge(text, C, L, s)
    requires StretchLine(text, LeftEdge(text, C, s), RightEdge(text, C, L, s), y) && y.start < y.end
    requires forall z | Unheld(text, C, L, z) :: z.end - z.start <= longest.end - longest.start <= y.end - y.start
    ensures IsLine(text, y) && Held(text, C, L, y)
  {
    hide LeftEdge, RightEdge, StretchLine;
    var b, e := LeftEdge(text, C, s), RightEdge(text, C, L, s);
    var z := WholeLine(text, b, e, y);
    LengthOf(text, b, e, y);
    if Held(text, C, L, z) {
      var t: nat :| Holds(text, C, L, t, z);
      if t < s { ChunksDisjoint(text, C, L, t, s); } else if s < t { ChunksDisjoint(text, C, L, s, t); }
      HeldWhole(text, b, e, y, z);
    } else {
      assert Unheld(text, C, L, z);
      SeenHeld(text, C, L, s, z);
    }
  }

  lemma LengthOf(text: Word, b: nat, e: nat, y: Line)
    requires StretchLine(text, b, e, y)
    ensures b <= y.start <= y.end <= e
  {
  }

  // ---------------------------------------------------------------- the count

  ghost predicate Distinct<A>(s: seq<A>) {
    forall i, j | 0 <= i < j < |s| :: s[i] != s[j]
  }

  /** Different members of `t` are no more than `t` has. */
  lemma {:induction false} DistinctWithin<A>(s: seq<A>, t: seq<A>)
    requires Distinct(s) && forall x | x in s :: x in t
    ensures |s| <= |t|
  {
    if s != [] {
      assert s[0] in t;
      var k :| 0 <= k < |t| && t[k] == s[0];
      var rest := t[..k] + t[k + 1..];
      forall x | x in s[1..] ensures x in rest {
        assert x in s && x != s[0];
        var i :| 0 <= i < |t| && t[i] == x;
        assert if i < k then rest[i] == x else rest[i - 1] == x;
      }
      DistinctWithin(s[1..], rest);
    }
  }

  /** The content of a line. */
  function LineText(text: Word, x: Line): Word
    requires x.start <= x.end <= |text|
  {
    text[x.start..x.end]
  }

  lemma ContainsItself(w: Word)
    ensures Contains(w, w)
  {
    assert FoundAt(w, w, 0);
  }

  /** What the chunks count for the longest line that no chunk holds, taken as the needle: lines of the
      file that contain it, but not that line. */
  lemma CountedLine(text: Word, C: nat, L: nat, x: Line, y: Line)
    requires 0 < L <= C && Unheld(text, C, L, x)
    requires forall z | Unheld(text, C, L, z) :: z.end - z.start <= x.end - x.start
    requires y in OnePass(text, C, L, CountedIn(text, LineText(text, x)), 0)
    ensures IsLine(text, y) && y != x && Contains(LineText(text, y), LineText(text, x))
  {
    hide LeftEdge, RightEdge, OnePass, StretchLine, Contains, Held, IsLine;
    WithinText(text, C, L, x);
    var w := LineText(text, x);
    PassMember(text, C, L, CountedIn(text, w), 0, y);
    var s: nat :| Nominal(C, |text|, s) && y in CountedIn(text, w)(LeftEdge(text, C, s), RightEdge(text, C, L, s));
    var b, e := LeftEdge(text, C, s), RightEdge(text, C, L, s);
    EdgesOrdered(text, C, L, s);
    MatchingIs(text, w, LinesIn(text, b, e));
    LinesInStretch(text, b, b, e, y);
    ContainsLength(LineText(text, y), w);
    UnheldNotEmpty(text, C, L, x);
    LongHeld(text, C, L, s, y, x);
  }

  /** With that needle the chunks count too few lines. */
  lemma CountsTooFew(text: Word, C: nat, L: nat, x: Line)
    requires 0 < L <= C && Unheld(text, C, L, x)
    requires forall z | Unheld(text, C, L, z) :: z.end - z.start <= x.end - x.start
    ensures |OnePass(text, C, L, HitChunk(text, LineText(text, x)), 0)| < |HitLines(text, LineText(text, x))|
  {
    hide OnePass, Matching, CountedIn, Contains, LinesIn, Held, StrictBy, Distinct;
    var w := LineText(text, x);
    var counted, lines := OnePass(text, C, L, CountedIn(text, w), 0), LinesIn(text, 0, |text|);
    CountedLength(text, C, L, w, 0);
    MatchingIs(text, w, lines);
    CountedKeys(text, w);
    PassKeys(text, C, L, CountedIn(text, w), Start(), 0, 0);
    forall y | y in counted ensures y in Matching(text, w, lines) && y != x {
      CountedLine(text, C, L, x, y);
      LinesExact(text, 0, y);
    }
    ContainsItself(w);
    LinesExact(text, 0, x);
    DistinctFront(x, counted);
    DistinctWithin([x] + counted, Matching(text, w, lines));
  }

  lemma DistinctFront(x: Line, rest: seq<Line>)
    requires StrictBy(Start(), rest) && x !in rest
    ensures Distinct([x] + rest)
  {
    var all := [x] + rest;
    forall i, j | 0 <= i < j < |all| ensures all[i] != all[j] {
      if i > 0 { assert Start()(rest[i - 1]) < Start()(rest[j - 1]); }
    }
  }

  /** On a line-safe file one pass of the chunks counts right for every needle. */
  lemma CountsRight(text: Word, C: nat, L: nat, needle: Word)
    requires C > 0 && LineSafe(text, C, L)
    ensures OnePass(text, C, L, HitChunk(text, needle), 0) == HitLines(text, needle)
  {
    HitChunkCut(text, needle);
    if text != [] {
      ChunksTile(text, C, L, HitChunk(text, needle), 0);
    } else {
      HitsEnd(text, needle, 0);
    }
  }

  /** The chunks count the matching lines of the file right for every needle exactly when every boundary
      keeps lines. Needles are never empty; a file without NULs has a miscounted needle without one. */
  lemma GrepExact(text: Word, C: nat, L: nat)
    requires 0 < L <= C
    ensures LineSafe(text, C, L) <==>
              forall needle: Word | needle != [] && (NulFree(text) ==> NulFree(needle)) ::
                |OnePass(text, C, L, HitChunk(text, needle), 0)| == |HitLines(text, needle)|
  {
    hide OnePass, HitLines, KeepsLines, Held, IsLine;
    if LineSafe(text, C, L) {
      forall needle: Word | needle != [] && (NulFree(text) ==> NulFree(needle))
        ensures |OnePass(text, C, L, HitChunk(text, needle), 0)| == |HitLines(text, needle)|
      {
        CountsRight(text, C, L, needle);
      }
    } else {
      var p: nat :| 0 < p && Nominal(C, |text|, p) && !KeepsLines(text, C, L, p);
      var lost := LineLost(text, C, L, p);
      var x := LongestUnheld(text, C, L, lost);
      UnheldNotEmpty(text, C, L, x);
      WithinText(text, C, L, x);
      CountsTooFew(text, C, L, x);
    }
  }

  lemma WithinText(text: Word, C: nat, L: nat, x: Line)
    requires C > 0 && Unheld(text, C, L, x)
    ensures x.start <= x.end <= |text| && (NulFree(text) ==> NulFree(LineText(text, x)))
  {
  }

  /** So any number of workers, in any interleaving, count right for every needle exactly then. */
  lemma GrepCountsExact(text: Word, C: nat, L: nat, n: nat, sched: Word -> seq<nat>)
    requires 0 < L <= C && n > 0
    requires forall needle: Word :: AllDone(Run(ChunkJob(text, C, L, HitChunk(text, needle)), n, sched(needle)))
    ensures LineSafe(text, C, L) <==>
              forall needle: Word | needle != [] && (NulFree(text) ==> NulFree(needle)) ::
                MergedCount(Run(ChunkJob(text, C, L, HitChunk(text, needle)), n, sched(needle)).workers) ==
                |HitLines(text, needle)|
  {
    hide OnePass, HitLines, LineSafe, AllDone, NulFree;
    GrepExact(text, C, L);
    forall needle: Word
      ensures MergedCount(Run(ChunkJob(text, C, L, HitChunk(text, needle)), n, sched(needle)).workers) ==
              |OnePass(text, C, L, HitChunk(text, needle), 0)|
    {
      GrepAnyFile(text, C, L, needle, n, sched(needle));
    }
  }
}

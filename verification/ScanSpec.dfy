/** What g-scan must report: every occurrence of every pattern, by end position. Two forms are
    given, a naive enumeration over the text and a walk along failure links, and related. */
module ScanSpec {
  import opened Bytes
  import opened TrieWords
  import opened AhoCorasick

  datatype ScanRec = ScanRec(offset: int, pattern: int)

  ghost function Tag(offset: int, ks: seq<nat>): seq<ScanRec> {
    if ks == [] then [] else [ScanRec(offset, ks[0])] + Tag(offset, ks[1..])
  }

  // ---------------------------------------------------------------- naive search

  /** The matches that start at or after `o` and end at `e`, longest first. */
  ghost function EndingAt(pats: seq<Word>, text: Word, o: nat, e: nat): seq<ScanRec>
    requires o <= e <= |text|
    decreases e - o
  {
    if o == e then [] else Tag(o, Matching(pats, text[o..e])) + EndingAt(pats, text, o + 1, e)
  }

  /** The matches that end after position `p` and at or before `q`, by end position. */
  ghost function MatchesBetween(pats: seq<Word>, text: Word, p: nat, q: nat): seq<ScanRec>
    requires p <= q <= |text|
    decreases q - p
  {
    if p == q then [] else EndingAt(pats, text, 0, p + 1) + MatchesBetween(pats, text, p + 1, q)
  }

  ghost function AllMatches(pats: seq<Word>, text: Word): seq<ScanRec> {
    MatchesBetween(pats, text, 0, |text|)
  }

  ghost predicate OccursAt(pats: seq<Word>, text: Word, r: ScanRec) {
    && 0 <= r.pattern < |pats| && pats[r.pattern] != []
    && 0 <= r.offset <= r.offset + |pats[r.pattern]| <= |text|
    && text[r.offset..r.offset + |pats[r.pattern]|] == pats[r.pattern]
  }

  ghost function EndOf(pats: seq<Word>, r: ScanRec): int
    requires 0 <= r.pattern < |pats|
  {
    r.offset + |pats[r.pattern]|
  }

  lemma {:induction false} TagMember(offset: int, ks: seq<nat>, r: ScanRec)
    ensures r in Tag(offset, ks) <==> r.offset == offset && r.pattern >= 0 && r.pattern in ks
  {
    if ks != [] { TagMember(offset, ks[1..], r); }
  }

  lemma TaggedMember(pats: seq<Word>, text: Word, o: nat, e: nat, r: ScanRec)
    requires o < e <= |text|
    ensures r in Tag(o, Matching(pats, text[o..e])) <==>
              r.offset == o && OccursAt(pats, text, r) && EndOf(pats, r) == e
  {
    var w := text[o..e];
    TagMember(o, Matching(pats, w), r);
    if r.pattern >= 0 {
      MatchingMember(pats, w, r.pattern);
      if r.pattern < |pats| && pats[r.pattern] == w { assert EndOf(pats, ScanRec(o, r.pattern)) == e; }
    }
  }

  lemma {:induction false} EndingAtMember(pats: seq<Word>, text: Word, o: nat, e: nat, r: ScanRec)
    requires o <= e <= |text|
    ensures r in EndingAt(pats, text, o, e) <==> o <= r.offset && OccursAt(pats, text, r) && EndOf(pats, r) == e
    decreases e - o
  {
    hide OccursAt, Tag, Matching;
    if o < e {
      TaggedMember(pats, text, o, e, r);
      EndingAtMember(pats, text, o + 1, e, r);
    } else {
      NonEmptyMatch(pats, text, r);
    }
  }

  lemma NonEmptyMatch(pats: seq<Word>, text: Word, r: ScanRec)
    ensures OccursAt(pats, text, r) ==> 0 <= r.pattern < |pats| && r.offset < EndOf(pats, r)
  {
  }

  lemma {:induction false} MatchesBetweenMember(pats: seq<Word>, text: Word, p: nat, q: nat, r: ScanRec)
    requires p <= q <= |text|
    ensures r in MatchesBetween(pats, text, p, q) <==> OccursAt(pats, text, r) && p < EndOf(pats, r) <= q
    decreases q - p
  {
    if p < q {
      EndingAtMember(pats, text, 0, p + 1, r);
      MatchesBetweenMember(pats, text, p + 1, q, r);
    }
  }

  /** Soundness and completeness of the enumeration. */
  lemma AllMatchesExact(pats: seq<Word>, text: Word, r: ScanRec)
    ensures r in AllMatches(pats, text) <==> OccursAt(pats, text, r)
  {
    MatchesBetweenMember(pats, text, 0, |text|, r);
  }

  /** Report order: by end; at equal ends the longer pattern first; equal patterns latest first. */
  ghost predicate Before(pats: seq<Word>, a: ScanRec, b: ScanRec)
    requires 0 <= a.pattern < |pats| && 0 <= b.pattern < |pats|
  {
    || EndOf(pats, a) < EndOf(pats, b)
    || (EndOf(pats, a) == EndOf(pats, b) && |pats[a.pattern]| > |pats[b.pattern]|)
    || (EndOf(pats, a) == EndOf(pats, b) && |pats[a.pattern]| == |pats[b.pattern]| && a.pattern > b.pattern)
  }

  ghost predicate Ordered(pats: seq<Word>, s: seq<ScanRec>) {
    && (forall r | r in s :: 0 <= r.pattern < |pats|)
    && forall i, j | 0 <= i < j < |s| :: Before(pats, s[i], s[j])
  }

  lemma OrderedConcat(pats: seq<Word>, s: seq<ScanRec>, t: seq<ScanRec>)
    requires Ordered(pats, s) && Ordered(pats, t)
    requires forall a, b | a in s && b in t :: Before(pats, a, b)
    ensures Ordered(pats, s + t)
  {
    var u := s + t;
    forall i, j | 0 <= i < j < |u|
      ensures Before(pats, u[i], u[j])
    {
      if i < |s| <= j { assert u[i] in s && u[j] in t; }
    }
  }

  lemma {:induction false} TagAt(offset: int, ks: seq<nat>, i: nat)
    requires i < |ks|
    ensures |Tag(offset, ks)| == |ks| && Tag(offset, ks)[i] == ScanRec(offset, ks[i])
  {
    if |ks| > 1 { TagAt(offset, ks[1..], if i > 0 then i - 1 else 0); }
  }

  lemma TagOrdered(pats: seq<Word>, offset: int, w: Word)
    ensures Ordered(pats, Tag(offset, Matching(pats, w)))
  {
    var ks := Matching(pats, w);
    var s := Tag(offset, ks);
    if ks != [] { TagAt(offset, ks, 0); }
    forall r | r in s ensures 0 <= r.pattern < |pats| {
      TagMember(offset, ks, r);
      MatchingMember(pats, w, r.pattern);
    }
    forall i, j | 0 <= i < j < |s|
      ensures Before(pats, s[i], s[j])
    {
      TagAt(offset, ks, i);
      TagAt(offset, ks, j);
      MatchingDescends(pats, w, i, j);
      assert ks[i] in ks && ks[j] in ks;
      MatchingMember(pats, w, ks[i]);
      MatchingMember(pats, w, ks[j]);
    }
  }

  lemma {:induction false} EndingAtOrdered(pats: seq<Word>, text: Word, o: nat, e: nat)
    requires o <= e <= |text|
    ensures Ordered(pats, EndingAt(pats, text, o, e))
    decreases e - o
  {
    if o < e {
      var s, t := Tag(o, Matching(pats, text[o..e])), EndingAt(pats, text, o + 1, e);
      TagOrdered(pats, o, text[o..e]);
      EndingAtOrdered(pats, text, o + 1, e);
      forall a, b | a in s && b in t
        ensures Before(pats, a, b)
      {
        TagMember(o, Matching(pats, text[o..e]), a);
        MatchingMember(pats, text[o..e], a.pattern);
        EndingAtMember(pats, text, o + 1, e, b);
      }
      OrderedConcat(pats, s, t);
    }
  }

  lemma {:induction false} MatchesBetweenOrdered(pats: seq<Word>, text: Word, p: nat, q: nat)
    requires p <= q <= |text|
    ensures Ordered(pats, MatchesBetween(pats, text, p, q))
    decreases q - p
  {
    if p < q {
      var s, t := EndingAt(pats, text, 0, p + 1), MatchesBetween(pats, text, p + 1, q);
      EndingAtOrdered(pats, text, 0, p + 1);
      MatchesBetweenOrdered(pats, text, p + 1, q);
      forall a, b | a in s && b in t
        ensures Before(pats, a, b)
      {
        EndingAtMember(pats, text, 0, p + 1, a);
        MatchesBetweenMember(pats, text, p + 1, q, b);
      }
      OrderedConcat(pats, s, t);
    }
  }

  /** The report is strictly ordered; in particular no occurrence appears twice. */
  lemma AllMatchesOrdered(pats: seq<Word>, text: Word)
    ensures Ordered(pats, AllMatches(pats, text))
    ensures forall i, j | 0 <= i < j < |AllMatches(pats, text)| ::
            AllMatches(pats, text)[i] != AllMatches(pats, text)[j]
  {
    MatchesBetweenOrdered(pats, text, 0, |text|);
    var s := AllMatches(pats, text);
    forall i, j | 0 <= i < j < |s| ensures s[i] != s[j] {
      assert Before(pats, s[i], s[j]);
    }
  }

  // ---------------------------------------------------------------- search by automaton

  /** The outputs met on the failure chain of the node of `x`, for matches ending at `e`. */
  ghost function ChainEmit(T: set<Word>, pats: seq<Word>, e: int, x: Word): seq<ScanRec>
    requires [] in T
    decreases |x|
  {
    if x == [] then []
    else
      LongestSuffixIsLongest(T, x[1..]);
      Tag(e - |x|, Matching(pats, x)) + ChainEmit(T, pats, e, LongestSuffix(T, x[1..]))
  }

  /** The failure chain of the automaton state lists exactly the matches ending at `e`. */
  lemma {:induction false} EndingIsChain(T: set<Word>, pats: seq<Word>, text: Word, o: nat, e: nat)
    requires o <= e <= |text| && [] in T
    requires forall w | w in pats :: w in T
    ensures EndingAt(pats, text, o, e) == ChainEmit(T, pats, e, LongestSuffix(T, text[o..e]))
    decreases e - o
  {
    if o < e {
      var w := text[o..e];
      assert w[1..] == text[o + 1..e];
      EndingIsChain(T, pats, text, o + 1, e);
      if w !in T { MatchingAbsent(pats, w); }
    }
  }

  /** The scan from state `x` over the bytes p, ..., q-1, without skipping. */
  ghost function Emits(T: set<Word>, pats: seq<Word>, text: Word, x: Word, p: nat, q: nat): seq<ScanRec>
    requires p <= q <= |text| && [] in T
    decreases q - p
  {
    if p == q then []
    else
      var y := LongestSuffix(T, x + [text[p]]);
      ChainEmit(T, pats, p + 1, y) + Emits(T, pats, text, y, p + 1, q)
  }

  /** The failure hops taken by the same scan. */
  ghost function HopsOver(T: set<Word>, text: Word, x: Word, p: nat, q: nat): nat
    requires p <= q <= |text| && [] in T
    decreases q - p
  {
    if p == q then 0
    else Hops(T, x, text[p]) + HopsOver(T, text, LongestSuffix(T, x + [text[p]]), p + 1, q)
  }

  lemma PrefixStep(T: set<Word>, text: Word, p: nat)
    requires p < |text| && PrefixClosed(T)
    ensures LongestSuffix(T, text[..p + 1]) == LongestSuffix(T, LongestSuffix(T, text[..p]) + [text[p]])
  {
    assert text[..p + 1] == text[..p] + [text[p]];
    LongestSuffixStep(T, text[..p], text[p]);
  }

  /** Scanning from the state of the consumed prefix finds the matches that end in the stretch. */
  lemma {:induction false} EmitsIsMatches(T: set<Word>, pats: seq<Word>, text: Word, p: nat, q: nat)
    requires p <= q <= |text| && PrefixClosed(T)
    requires forall w | w in pats :: w in T
    ensures Emits(T, pats, text, LongestSuffix(T, text[..p]), p, q) == MatchesBetween(pats, text, p, q)
    decreases q - p
  {
    if p < q {
      PrefixStep(T, text, p);
      EndingIsChain(T, pats, text, 0, p + 1);
      assert text[0..p + 1] == text[..p + 1];
      EmitsIsMatches(T, pats, text, p + 1, q);
    }
  }

  lemma {:induction false} MatchesSplit(pats: seq<Word>, text: Word, p: nat, m: nat, q: nat)
    requires p <= m <= q <= |text|
    ensures MatchesBetween(pats, text, p, q) == MatchesBetween(pats, text, p, m) + MatchesBetween(pats, text, m, q)
    decreases m - p
  {
    if p < m { MatchesSplit(pats, text, p + 1, m, q); }
  }

  /** A word of the trie that ends before byte `i`, and that no longer fits after it. */
  ghost predicate Dropped(T: set<Word>, text: Word, i: nat, n: nat)
    requires i < |text|
  {
    0 < n <= i && text[i - n..i] in T && n >= |LongestSuffix(T, text[..i + 1])|
  }

  ghost function DroppedIn(T: set<Word>, text: Word, p: nat, q: nat): set<(nat, nat)>
    requires p <= q <= |text|
  {
    set i: nat, n: nat | p <= i < q && n <= i && Dropped(T, text, i, n) :: (i, n)
  }

  ghost function At(i: nat, ns: set<nat>): set<(nat, nat)> {
    set n | n in ns :: (i, n)
  }

  lemma {:induction false} AtSize(i: nat, ns: set<nat>)
    ensures |At(i, ns)| == |ns|
  {
    if ns == {} {
      assert At(i, ns) == {};
    } else {
      var n :| n in ns;
      AtSize(i, ns - {n});
      assert At(i, ns) == At(i, ns - {n}) + {(i, n)};
    }
  }

  /** What one byte gives up, in the file. */
  lemma DroppedAt(T: set<Word>, text: Word, i: nat, n: nat)
    requires i < |text| && PrefixClosed(T)
    ensures Dropped(T, text, i, n) <==> n in GivenUp(T, LongestSuffix(T, text[..i]), text[i])
  {
    hide LongestSuffix;
    var x := LongestSuffix(T, text[..i]);
    LongestSuffixIsLongest(T, text[..i]);
    PrefixStep(T, text, i);
    if 0 < n <= i {
      assert text[..i][i - n..] == text[i - n..i];
      if n <= |x| { assert Tail(x, n) == text[i - n..i]; }
    }
  }

  lemma DroppedStep(T: set<Word>, text: Word, p: nat, q: nat)
    requires p < q <= |text| && PrefixClosed(T)
    ensures DroppedIn(T, text, p, q) ==
            At(p, GivenUp(T, LongestSuffix(T, text[..p]), text[p])) + DroppedIn(T, text, p + 1, q)
    ensures At(p, GivenUp(T, LongestSuffix(T, text[..p]), text[p])) !! DroppedIn(T, text, p + 1, q)
  {
    hide LongestSuffix, Dropped, GivenUp;
    var ns := GivenUp(T, LongestSuffix(T, text[..p]), text[p]);
    forall n: nat ensures n <= p && Dropped(T, text, p, n) <==> n in ns {
      DroppedAt(T, text, p, n);
      DroppedShort(T, text, p, n);
    }
  }

  lemma DroppedShort(T: set<Word>, text: Word, i: nat, n: nat)
    requires i < |text|
    ensures Dropped(T, text, i, n) ==> n <= i
  {
  }

  /** The hops of a stretch are exactly one for each word of the trie that some byte drops. */
  lemma {:induction false} HopsExact(T: set<Word>, text: Word, p: nat, q: nat)
    requires p <= q <= |text| && PrefixClosed(T)
    ensures HopsOver(T, text, LongestSuffix(T, text[..p]), p, q) == |DroppedIn(T, text, p, q)|
    decreases q - p
  {
    hide LongestSuffix, Dropped, GivenUp, DroppedIn;
    if p < q {
      var x := LongestSuffix(T, text[..p]);
      LongestSuffixIsLongest(T, text[..p]);
      PrefixStep(T, text, p);
      HopsExact(T, text, p + 1, q);
      HopsCount(T, x, text[p]);
      DroppedStep(T, text, p, q);
      AtSize(p, GivenUp(T, x, text[p]));
    } else {
      DroppedNone(T, text, p);
    }
  }

  lemma DroppedNone(T: set<Word>, text: Word, p: nat)
    requires p <= |text|
    ensures DroppedIn(T, text, p, p) == {}
  {
  }
}

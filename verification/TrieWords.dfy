/** Words over bytes, and the suffix function that an Aho-Corasick automaton computes.
    Nothing here mentions nodes: `T` is the set of words spelled by a trie. */
module TrieWords {
  import opened Bytes

  /** A non-empty word without its last byte. */
  function Init(w: Word): Word
    requires w != []
  {
    w[..|w| - 1]
  }

  /** `T` holds the empty word and every prefix of its members. */
  ghost predicate PrefixClosed(T: set<Word>) {
    && [] in T
    && forall w {:trigger Init(w)} | w in T && w != [] :: Init(w) in T
  }

  ghost function Prefixes(w: Word): set<Word> {
    set k | 0 <= k <= |w| :: w[..k]
  }

  /** The longest suffix of `w` that is a word of `T`. */
  ghost function LongestSuffix(T: set<Word>, w: Word): (r: Word) {
    if w == [] || w in T then w else LongestSuffix(T, w[1..])
  }

  /** `LongestSuffix` is what its name says: a suffix, in `T`, and no longer suffix is in `T`. */
  lemma {:induction false} LongestSuffixIsLongest(T: set<Word>, w: Word)
    requires [] in T
    ensures |LongestSuffix(T, w)| <= |w|
    ensures LongestSuffix(T, w) == w[|w| - |LongestSuffix(T, w)|..]
    ensures LongestSuffix(T, w) in T
    ensures forall k | 0 <= k <= |w| && w[k..] in T :: |w| - k <= |LongestSuffix(T, w)|
  {
    if !(w == [] || w in T) {
      LongestSuffixIsLongest(T, w[1..]);
      forall k | 0 <= k <= |w| && w[k..] in T
        ensures |w| - k <= |LongestSuffix(T, w)|
      {
        assert k != 0 by { assert w[0..] == w; }
        assert w[1..][k - 1..] == w[k..];
      }
    }
  }

  /** The automaton law: the longest suffix after one more byte depends only on the longest
      suffix before it. */
  lemma {:induction false} LongestSuffixStep(T: set<Word>, w: Word, c: byte)
    requires PrefixClosed(T)
    ensures LongestSuffix(T, w + [c]) == LongestSuffix(T, LongestSuffix(T, w) + [c])
  {
    if !(w == [] || w in T) {
      assert Init(w + [c]) == w;
      assert (w + [c])[1..] == w[1..] + [c];
      LongestSuffixStep(T, w[1..], c);
    }
  }

  /** Following one failure link preserves the target of the next byte. */
  lemma FailHop(T: set<Word>, x: Word, c: byte)
    requires PrefixClosed(T) && x != [] && x + [c] !in T
    ensures LongestSuffix(T, x + [c]) == LongestSuffix(T, LongestSuffix(T, x[1..]) + [c])
  {
    assert (x + [c])[1..] == x[1..] + [c];
    LongestSuffixStep(T, x[1..], c);
  }

  /** A byte that starts no word of `T` sends every state without an extension to the root. */
  lemma FirstByteAbsent(T: set<Word>, c: byte)
    requires [] in T
    ensures LongestSuffix(T, [c]) == if [c] in T then [c] else []
  {
  }

  lemma PrefixesSnoc(w: Word, i: nat)
    requires i < |w|
    ensures Prefixes(w[..i + 1]) == Prefixes(w[..i]) + {w[..i + 1]}
    ensures w[..i + 1] == w[..i] + [w[i]]
  {
    var longer, shorter := Prefixes(w[..i + 1]), Prefixes(w[..i]) + {w[..i + 1]};
    forall v | v in longer
      ensures v in shorter
    {
      var k :| 0 <= k <= i + 1 && v == w[..i + 1][..k];
      if k <= i { assert v == w[..i][..k]; } else { assert v == w[..i + 1]; }
    }
    forall v | v in shorter
      ensures v in longer
    {
      if v == w[..i + 1] {
        assert v == w[..i + 1][..i + 1];
      } else {
        var k :| 0 <= k <= i && v == w[..i][..k];
        assert v == w[..i + 1][..k];
      }
    }
  }

  /** The number of failure hops taken before byte `c` can be consumed in state `x`. */
  ghost function Hops(T: set<Word>, x: Word, c: byte): nat
    requires [] in T
    decreases |x|
  {
    if x == [] || x + [c] in T then 0
    else
      LongestSuffixIsLongest(T, x[1..]);
      1 + Hops(T, LongestSuffix(T, x[1..]), c)
  }

  /** One hop shortens the state and one byte lengthens it by at most one. */
  lemma {:induction false} HopsPotential(T: set<Word>, x: Word, c: byte)
    requires PrefixClosed(T) && x in T
    ensures Hops(T, x, c) + |LongestSuffix(T, x + [c])| <= |x| + 1
    decreases |x|
  {
    if x != [] && x + [c] !in T {
      LongestSuffixIsLongest(T, x[1..]);
      FailHop(T, x, c);
      HopsPotential(T, LongestSuffix(T, x[1..]), c);
    } else {
      LongestSuffixIsLongest(T, x + [c]);
    }
  }

  function Tail(x: Word, n: nat): Word
    requires n <= |x|
  {
    x[|x| - n..]
  }

  /** The lengths of the suffixes of `x` that the byte `c` gives up: those of the trie, not empty, and
      at least as long as what is kept after it. */
  ghost function GivenUp(T: set<Word>, x: Word, c: byte): set<nat> {
    set n: nat | 0 < n <= |x| && n >= |LongestSuffix(T, x + [c])| && Tail(x, n) in T
  }

  /** The hops of a byte are exactly one for each suffix it gives up. */
  lemma {:induction false} HopsCount(T: set<Word>, x: Word, c: byte)
    requires PrefixClosed(T) && x in T
    ensures Hops(T, x, c) == |GivenUp(T, x, c)|
    decreases |x|
  {
    hide LongestSuffix, GivenUp;
    if x != [] && x + [c] !in T {
      var y := LongestSuffix(T, x[1..]);
      LongestSuffixIsLongest(T, x[1..]);
      HopsCount(T, y, c);
      GivenUpStep(T, x, c, y);
    } else {
      GivenUpNone(T, x, c);
    }
  }

  lemma GivenUpNone(T: set<Word>, x: Word, c: byte)
    requires x == [] || x + [c] in T
    ensures GivenUp(T, x, c) == {}
  {
  }

  lemma GivenUpStep(T: set<Word>, x: Word, c: byte, y: Word)
    requires PrefixClosed(T) && x in T && x != [] && x + [c] !in T && y == LongestSuffix(T, x[1..])
    ensures |y| < |x| && |x| !in GivenUp(T, y, c) && GivenUp(T, x, c) == {|x|} + GivenUp(T, y, c)
  {
    hide LongestSuffix;
    LongestSuffixIsLongest(T, x[1..]);
    LongestSuffixIsLongest(T, y + [c]);
    FailHop(T, x, c);
    forall n: nat | 0 < n <= |x| ensures Tail(x, n) in T <==> n == |x| || (n <= |y| && Tail(y, n) in T) {
      SuffixOf(T, x, y, n);
    }
  }

  /** Below `x` itself, the suffixes in the trie are those of its longest proper one. */
  lemma SuffixOf(T: set<Word>, x: Word, y: Word, n: nat)
    requires [] in T && x in T && x != [] && y == LongestSuffix(T, x[1..]) && 0 < n <= |x|
    ensures Tail(x, n) in T <==> n == |x| || (n <= |y| && Tail(y, n) in T)
  {
    hide LongestSuffix;
    LongestSuffixIsLongest(T, x[1..]);
    if n == |x| {
      assert Tail(x, n) == x;
    } else {
      assert Tail(x, n) == x[1..][|x| - 1 - n..];
      if n <= |y| { assert Tail(y, n) == Tail(x, n); }
    }
  }
}

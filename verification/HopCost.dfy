/** What the failure links of a trie cost: the hops taken to find the link of every word. */
module HopCost {
  import opened Bytes
  import opened TrieWords

  /** The hops taken to find the longest proper suffix of `w`, from that of its parent. The children of
      the root get theirs for nothing. */
  ghost function FailHops(T: set<Word>, w: Word): nat
    requires [] in T
  {
    if |w| < 2 then 0 else Hops(T, LongestSuffix(T, Init(w)[1..]), w[|w| - 1])
  }

  /** One hop for each suffix of the parent's link that the last byte gives up. */
  lemma FailHopsCount(T: set<Word>, w: Word)
    requires PrefixClosed(T) && |w| >= 2
    ensures FailHops(T, w) == |GivenUp(T, LongestSuffix(T, Init(w)[1..]), w[|w| - 1])|
  {
    LongestSuffixIsLongest(T, Init(w)[1..]);
    HopsCount(T, LongestSuffix(T, Init(w)[1..]), w[|w| - 1]);
  }

  ghost function HopSum(T: set<Word>, words: set<Word>): nat
    requires [] in T
  {
    if words == {} then 0
    else
      var w :| w in words;
      FailHops(T, w) + HopSum(T, words - {w})
  }

  /** The order of summing does not matter. */
  lemma {:induction false} HopSumPick(T: set<Word>, words: set<Word>, w: Word)
    requires [] in T && w in words
    ensures HopSum(T, words) == FailHops(T, w) + HopSum(T, words - {w})
  {
    hide FailHops;
    var x :| x in words && HopSum(T, words) == FailHops(T, x) + HopSum(T, words - {x});
    if x != w {
      HopSumPick(T, words - {x}, w);
      HopSumPick(T, words - {w}, x);
      assert words - {x} - {w} == words - {w} - {x};
    }
  }

  lemma {:induction false} HopSumUnion(T: set<Word>, a: set<Word>, b: set<Word>)
    requires [] in T
    ensures HopSum(T, a + b) <= HopSum(T, a) + HopSum(T, b)
  {
    hide FailHops;
    if a == {} {
      assert a + b == b;
    } else {
      var w :| w in a;
      HopSumUnion(T, a - {w}, b - {w});
      assert (a + b) - {w} == (a - {w}) + (b - {w});
      HopSumPick(T, a + b, w);
      HopSumPick(T, a, w);
      if w in b { HopSumPick(T, b, w); } else { assert b - {w} == b; }
    }
  }

  /** Words of at most one byte cost nothing. */
  lemma {:induction false} ShallowHops(T: set<Word>, words: set<Word>)
    requires [] in T && forall w | w in words :: |w| <= 1
    ensures HopSum(T, words) == 0
  {
    if words != {} {
      var w :| w in words && HopSum(T, words) == FailHops(T, w) + HopSum(T, words - {w});
      assert FailHops(T, w) == 0;
      ShallowHops(T, words - {w});
    }
  }

  /** Going down one word, every hop is paid for by the depth of the link: the links of the first `i`
      prefixes and the depth of the last of them together cost at most `i`. */
  lemma {:induction false} PrefixHops(T: set<Word>, w: Word, i: nat)
    requires PrefixClosed(T) && i <= |w|
    ensures HopSum(T, Prefixes(w[..i])) + (if i == 0 then 0 else |LongestSuffix(T, w[..i][1..])|) <= i
    decreases i
  {
    if i == 0 {
      assert forall v | v in Prefixes(w[..0]) :: |v| <= 1;
      ShallowHops(T, Prefixes(w[..0]));
    } else {
      PrefixHops(T, w, i - 1);
      PrefixesSnoc(w, i - 1);
      var v, shorter := w[..i], Prefixes(w[..i - 1]);
      assert forall u | u in shorter :: |u| < i;
      assert (shorter + {v}) - {v} == shorter;
      HopSumPick(T, shorter + {v}, v);
      LinkHops(T, v);
    }
  }

  /** One link: its hops and its depth are at most the depth of the parent's link plus one. */
  lemma LinkHops(T: set<Word>, v: Word)
    requires PrefixClosed(T) && v != []
    ensures |v| == 1 ==> FailHops(T, v) == |LongestSuffix(T, v[1..])| == 0
    ensures |v| >= 2 ==> FailHops(T, v) + |LongestSuffix(T, v[1..])| <= |LongestSuffix(T, Init(v)[1..])| + 1
  {
    if |v| >= 2 {
      var x, c := Init(v)[1..], v[|v| - 1];
      assert v[1..] == x + [c];
      LongestSuffixIsLongest(T, x);
      LongestSuffixStep(T, x, c);
      HopsPotential(T, LongestSuffix(T, x), c);
    }
  }
}

/** The trie with failure links that g-scan builds over its patterns, and the proof that the
    links it computes are the longest-proper-suffix links. */
module AhoCorasick {
  import opened Bytes
  import opened TrieWords
  import opened HopCost

  /** One entry per byte: -1 for no transition, otherwise a node index. */
  type Row = r: seq<int> | |r| == 256 witness seq(256, _ => -1)

  datatype ACNode = ACNode(next: Row, fail: int, output: int)

  /** A node without transitions, as the constructor of `ACNode` leaves it. */
  function FreshNode(): (n: ACNode)
    ensures n.fail == 0 && n.output == -1
    ensures forall c | 0 <= c < 256 :: n.next[c] == -1
  {
    ACNode(seq(256, _ => -1), 0, -1)
  }

  function Goto(nodes: seq<ACNode>, u: int, c: byte): int
    requires 0 <= u < |nodes|
  {
    nodes[u].next[c as nat]
  }

  /** The words spelled by the nodes; `path[u]` is the word of node `u`. */
  ghost function Words(path: seq<Word>): set<Word> {
    set u | 0 <= u < |path| :: path[u]
  }

  ghost predicate EdgeOk(nodes: seq<ACNode>, path: seq<Word>, u: int, c: byte)
    requires |nodes| == |path| && 0 <= u < |nodes|
  {
    var v := Goto(nodes, u, c);
    && -1 <= v < |nodes|
    && (v == 0 ==> u == 0)
    && (v > 0 ==> path[v] == path[u] + [c])
    && (v <= 0 ==> path[u] + [c] !in Words(path))
  }

  /** The node array is a trie spelling exactly the words of `path`, one node per word. */
  ghost predicate Spells(nodes: seq<ACNode>, path: seq<Word>) {
    && |nodes| == |path| > 0
    && path[0] == []
    && PrefixClosed(Words(path))
    && Distinct(path)
    && EdgesOk(nodes, path)
  }

  ghost predicate Distinct(path: seq<Word>) {
    forall u, v | 0 <= u < v < |path| :: path[u] != path[v]
  }

  ghost predicate EdgesOk(nodes: seq<ACNode>, path: seq<Word>)
    requires |nodes| == |path|
  {
    forall u, c {:trigger Goto(nodes, u, c)} {:trigger EdgeOk(nodes, path, u, c)} | 0 <= u < |nodes| ::
        EdgeOk(nodes, path, u, c)
  }

  /** Node `v`'s failure link names the longest proper suffix of its word that is in the trie. */
  ghost predicate FailOk(nodes: seq<ACNode>, path: seq<Word>, v: int)
    requires |nodes| == |path| && 0 < v < |nodes|
  {
    && 0 <= nodes[v].fail < |nodes|
    && path[v] != []
    && path[nodes[v].fail] == LongestSuffix(Words(path), path[v][1..])
  }

  ghost predicate FailsUpTo(nodes: seq<ACNode>, path: seq<Word>, depth: int)
    requires |nodes| == |path|
  {
    forall v | 0 < v < |nodes| && |path[v]| <= depth :: FailOk(nodes, path, v)
  }

  /** The root has a transition on every byte, as `build` leaves it. */
  ghost predicate RootTotal(nodes: seq<ACNode>)
    requires |nodes| > 0
  {
    forall c: byte :: Goto(nodes, 0, c) >= 0
  }

  // ---------------------------------------------------------------- trie insertion

  function WithChild(nodes: seq<ACNode>, u: int, c: byte): seq<ACNode>
    requires 0 <= u < |nodes|
  {
    nodes[u := ACNode(nodes[u].next[c as nat := |nodes|], nodes[u].fail, nodes[u].output)] + [FreshNode()]
  }

  lemma WordsSnoc(path: seq<Word>, w: Word)
    ensures Words(path + [w]) == Words(path) + {w}
  {
    var q := path + [w];
    assert q[|path|] == w;
    forall v | v in Words(path) ensures v in Words(q) {
      var u :| 0 <= u < |path| && path[u] == v;
      assert q[u] == v;
    }
  }

  lemma ClosedUnderSnoc(T: set<Word>, v: Word, c: byte)
    requires PrefixClosed(T) && v in T
    ensures PrefixClosed(T + {v + [c]})
  {
    assert Init(v + [c]) == v;
  }

  lemma ByteInjective(c: byte, d: byte)
    ensures c as nat == d as nat <==> c == d
  {
  }

  lemma ChildEdge(nodes: seq<ACNode>, path: seq<Word>, u: int, c: byte, x: int, d: byte)
    requires Spells(nodes, path) && 0 <= u < |nodes| && Goto(nodes, u, c) == -1
    requires 0 <= x < |nodes|
    ensures EdgeOk(WithChild(nodes, u, c), path + [path[u] + [c]], x, d)
  {
    var w := path[u] + [c];
    WordsSnoc(path, w);
    ByteInjective(c, d);
    assert EdgeOk(nodes, path, x, d);
    if path[x] + [d] == w {
      assert path[x] == Init(w) == path[u];
      assert d == w[|w| - 1] == c;
    }
  }

  lemma ChildLeaf(nodes: seq<ACNode>, path: seq<Word>, u: int, c: byte, d: byte)
    requires Spells(nodes, path) && 0 <= u < |nodes| && Goto(nodes, u, c) == -1
    ensures EdgeOk(WithChild(nodes, u, c), path + [path[u] + [c]], |nodes|, d)
  {
    var w := path[u] + [c];
    WordsSnoc(path, w);
    assert EdgeOk(nodes, path, u, c);
    // a word below the new node would have the new word as a prefix in the trie already
    var y := w + [d];
    assert Init(y) == w;
    assert |y| != |w|;
  }

  lemma ChildDistinct(path: seq<Word>, w: Word)
    requires Distinct(path) && w !in Words(path)
    ensures Distinct(path + [w])
  {
    forall x | 0 <= x < |path| ensures path[x] != w {
      assert path[x] in Words(path);
    }
  }

  lemma ChildEdges(nodes: seq<ACNode>, path: seq<Word>, u: int, c: byte)
    requires Spells(nodes, path) && 0 <= u < |nodes| && Goto(nodes, u, c) == -1
    ensures EdgesOk(WithChild(nodes, u, c), path + [path[u] + [c]])
  {
    var nodes', path' := WithChild(nodes, u, c), path + [path[u] + [c]];
    forall x, d | 0 <= x < |nodes'|
      ensures EdgeOk(nodes', path', x, d)
    {
      if x == |nodes| { ChildLeaf(nodes, path, u, c, d); } else { ChildEdge(nodes, path, u, c, x, d); }
    }
  }

  lemma ChildKeepsTrie(nodes: seq<ACNode>, path: seq<Word>, u: int, c: byte)
    requires Spells(nodes, path) && 0 <= u < |nodes| && Goto(nodes, u, c) == -1
    ensures Spells(WithChild(nodes, u, c), path + [path[u] + [c]])
    ensures Words(path + [path[u] + [c]]) == Words(path) + {path[u] + [c]}
  {
    var w := path[u] + [c];
    WordsSnoc(path, w);
    assert w !in Words(path) by { assert EdgeOk(nodes, path, u, c); }
    ClosedUnderSnoc(Words(path), path[u], c);
    ChildDistinct(path, w);
    ChildEdges(nodes, path, u, c);
  }

  // ---------------------------------------------------------------- output lists

  /** Indices k < |pats| with pats[k] == w, latest first. */
  ghost function Matching(pats: seq<Word>, w: Word): seq<nat> {
    if pats == [] then []
    else
      var k := |pats| - 1;
      (if pats[k] == w then [k] else []) + Matching(pats[..k], w)
  }

  lemma {:induction false} MatchingMember(pats: seq<Word>, w: Word, k: nat)
    ensures k in Matching(pats, w) <==> k < |pats| && pats[k] == w
  {
    if pats != [] { MatchingMember(pats[..|pats| - 1], w, k); }
  }

  lemma {:induction false} MatchingDescends(pats: seq<Word>, w: Word, i: int, j: int)
    requires 0 <= i < j < |Matching(pats, w)|
    ensures Matching(pats, w)[i] > Matching(pats, w)[j]
  {
    var n := |pats| - 1;
    var rest := Matching(pats[..n], w);
    var shift := if pats[n] == w then 1 else 0;
    assert Matching(pats, w)[j] == rest[j - shift];
    if i < shift {
      MatchingMember(pats[..n], w, rest[j - shift]);
    } else {
      MatchingDescends(pats[..n], w, i - shift, j - shift);
    }
  }

  /** The list threaded through `output_next` from entry `idx`. */
  ghost function Chain(outputNext: seq<int>, idx: int): seq<nat>
    requires ChainOk(outputNext) && -1 <= idx < |outputNext|
    decreases idx + 1
  {
    if idx == -1 then [] else [idx] + Chain(outputNext, outputNext[idx])
  }

  ghost predicate ChainOk(outputNext: seq<int>) {
    forall i | 0 <= i < |outputNext| :: -1 <= outputNext[i] < i
  }

  lemma {:induction false} ChainExtend(outputNext: seq<int>, x: int, idx: int)
    requires ChainOk(outputNext) && ChainOk(outputNext + [x])
    requires -1 <= idx < |outputNext|
    ensures Chain(outputNext + [x], idx) == Chain(outputNext, idx)
    decreases idx + 1
  {
    if idx != -1 { ChainExtend(outputNext, x, outputNext[idx]); }
  }

  ghost predicate OutputOk(nodes: seq<ACNode>, path: seq<Word>, outputNext: seq<int>, pats: seq<Word>, u: int)
    requires |nodes| == |path| && 0 <= u < |nodes| && ChainOk(outputNext)
  {
    && -1 <= nodes[u].output < |outputNext|
    && Chain(outputNext, nodes[u].output) == Matching(pats, path[u])
  }

  lemma {:induction false} MatchingAbsent(pats: seq<Word>, w: Word)
    requires w !in pats
    ensures Matching(pats, w) == []
  {
    if pats != [] { MatchingAbsent(pats[..|pats| - 1], w); }
  }

  /** Registering pattern `path[cur]` under the next free entry. */
  lemma OutputPush(nodes: seq<ACNode>, path: seq<Word>, outputNext: seq<int>, pats: seq<Word>, cur: int)
    requires |nodes| == |path| && 0 <= cur < |nodes| && ChainOk(outputNext) && |outputNext| == |pats|
    requires Distinct(path)
    requires forall u | 0 <= u < |nodes| :: OutputOk(nodes, path, outputNext, pats, u)
    ensures ChainOk(outputNext + [nodes[cur].output])
    ensures var nodes' := nodes[cur := ACNode(nodes[cur].next, nodes[cur].fail, |outputNext|)];
            forall u | 0 <= u < |nodes'| ::
              OutputOk(nodes', path, outputNext + [nodes[cur].output], pats + [path[cur]], u)
  {
    assert OutputOk(nodes, path, outputNext, pats, cur);
    var next' := outputNext + [nodes[cur].output];
    var pats' := pats + [path[cur]];
    assert pats'[..|pats'| - 1] == pats;
    var nodes' := nodes[cur := ACNode(nodes[cur].next, nodes[cur].fail, |outputNext|)];
    forall u | 0 <= u < |nodes'|
      ensures OutputOk(nodes', path, next', pats', u)
    {
      assert OutputOk(nodes, path, outputNext, pats, u);
      ChainExtend(outputNext, nodes[cur].output, nodes[u].output);
      assert u != cur ==> path[u] != path[cur];
    }
  }

  lemma ChildKeepsOutputs(
    nodes: seq<ACNode>, path: seq<Word>, outputNext: seq<int>, pats: seq<Word>, cur: int, c: byte)
    requires |nodes| == |path| && 0 <= cur < |nodes| && ChainOk(outputNext)
    requires forall u | 0 <= u < |nodes| :: OutputOk(nodes, path, outputNext, pats, u)
    requires path[cur] + [c] !in pats
    ensures var nodes' := WithChild(nodes, cur, c);
            forall u | 0 <= u < |nodes'| :: OutputOk(nodes', path + [path[cur] + [c]], outputNext, pats, u)
  {
    MatchingAbsent(pats, path[cur] + [c]);
    forall u | 0 <= u < |nodes|
      ensures OutputOk(WithChild(nodes, cur, c), path + [path[cur] + [c]], outputNext, pats, u)
    {
      assert OutputOk(nodes, path, outputNext, pats, u);
    }
  }

  /** No transition leads back to the root, as is the case until `Build` closes the missing ones. */
  ghost predicate NoRootEdges(nodes: seq<ACNode>) {
    forall u, c | 0 <= u < |nodes| :: Goto(nodes, u, c) != 0
  }

  /** The insertion of a pattern has read `w` and stands at node `cur`; `T` was spelled before it. */
  ghost predicate Walked(
    nodes: seq<ACNode>, path: seq<Word>, outputNext: seq<int>, pats: seq<Word>, T: set<Word>, w: Word, cur: int)
  {
    && Spells(nodes, path)
    && 0 <= cur < |nodes| && path[cur] == w
    && Words(path) == T + Prefixes(w)
    && NoRootEdges(nodes)
    && ChainOk(outputNext)
    && forall u | 0 <= u < |nodes| :: OutputOk(nodes, path, outputNext, pats, u)
  }

  lemma WalkAlong(nodes: seq<ACNode>, path: seq<Word>, outputNext: seq<int>, pats: seq<Word>, T: set<Word>,
                  data: Word, i: nat, cur: int)
    requires i < |data| && Walked(nodes, path, outputNext, pats, T, data[..i], cur)
    requires Goto(nodes, cur, data[i]) != -1
    ensures Walked(nodes, path, outputNext, pats, T, data[..i + 1], Goto(nodes, cur, data[i]))
  {
    PrefixesSnoc(data, i);
    assert EdgeOk(nodes, path, cur, data[i]);
    var v := Goto(nodes, cur, data[i]);
    assert path[v] in Words(path);
  }

  lemma WalkGrow(nodes: seq<ACNode>, path: seq<Word>, outputNext: seq<int>, pats: seq<Word>, T: set<Word>,
                 data: Word, i: nat, cur: int)
    requires i < |data| && Walked(nodes, path, outputNext, pats, T, data[..i], cur)
    requires forall w | w in pats :: w in T
    requires Goto(nodes, cur, data[i]) == -1
    ensures Walked(WithChild(nodes, cur, data[i]), path + [data[..i + 1]], outputNext, pats, T, data[..i + 1], |nodes|)
    ensures data[..i + 1] == path[cur] + [data[i]]
  {
    PrefixesSnoc(data, i);
    assert EdgeOk(nodes, path, cur, data[i]);
    ChildKeepsTrie(nodes, path, cur, data[i]);
    ChildKeepsOutputs(nodes, path, outputNext, pats, cur, data[i]);
    var nodes' := WithChild(nodes, cur, data[i]);
    forall u, c | 0 <= u < |nodes'| ensures Goto(nodes', u, c) != 0 {
      if u < |nodes| { assert Goto(nodes, u, c) != 0; }
    }
  }

  /** The words a trie over `pats` spells: the empty word and every prefix of every pattern. */
  ghost function TrieOf(pats: seq<Word>): (T: set<Word>)
    ensures [] in T
  {
    if pats == [] then {[]} else TrieOf(pats[..|pats| - 1]) + Prefixes(pats[|pats| - 1])
  }

  lemma {:induction false} TrieOfExact(pats: seq<Word>, w: Word)
    ensures w in TrieOf(pats) <==> w == [] || exists k | 0 <= k < |pats| :: w <= pats[k]
  {
    if pats != [] {
      var n := |pats| - 1;
      TrieOfExact(pats[..n], w);
      if w <= pats[n] { assert w == pats[n][..|w|]; }
      if w in Prefixes(pats[n]) { assert w <= pats[n]; }
      if k :| 0 <= k < n && w <= pats[..n][k] { assert w <= pats[k]; }
      if k :| 0 <= k < |pats| && w <= pats[k] {
        if k < n { assert w <= pats[..n][k]; }
      }
    }
  }

  ghost function TotalLength(pats: seq<Word>): nat {
    if pats == [] then 0 else TotalLength(pats[..|pats| - 1]) + |pats[|pats| - 1]|
  }

  /** Linking all words of the trie of some patterns takes no more hops than the patterns have bytes. */
  lemma {:induction false} TrieHops(T: set<Word>, pats: seq<Word>)
    requires PrefixClosed(T) && TrieOf(pats) <= T
    ensures HopSum(T, TrieOf(pats)) <= TotalLength(pats)
  {
    if pats == [] {
      HopSumPick(T, {[]}, []);
    } else {
      var n := |pats| - 1;
      TrieHops(T, pats[..n]);
      PrefixHops(T, pats[n], |pats[n]|);
      assert pats[n][..|pats[n]|] == pats[n];
      HopSumUnion(T, TrieOf(pats[..n]), Prefixes(pats[n]));
    }
  }

  lemma PatternsInTrie(pats: seq<Word>)
    ensures forall w | w in pats :: w in TrieOf(pats)
  {
    forall w | w in pats ensures w in TrieOf(pats) {
      TrieOfExact(pats, w);
    }
  }

  // ---------------------------------------------------------------- failure links

  /** Every non-root node is entered by exactly one edge, from the node of its word less the last byte. */
  lemma Parent(nodes: seq<ACNode>, path: seq<Word>, v: int) returns (u: int, c: byte)
    requires Spells(nodes, path) && 0 < v < |nodes|
    ensures 0 <= u < |nodes| && Goto(nodes, u, c) == v
    ensures path[v] == path[u] + [c]
  {
    assert path[0] != path[v];
    assert path[v] in Words(path);
    var w := Init(path[v]);
    c := path[v][|path[v]| - 1];
    assert w in Words(path);
    u :| 0 <= u < |path| && path[u] == w;
    assert path[u] + [c] == path[v];
    assert EdgeOk(nodes, path, u, c);
    var x := Goto(nodes, u, c);
    assert path[x] == path[v];
  }

  function SetFail(nodes: seq<ACNode>, v: int, f: int): seq<ACNode>
    requires 0 <= v < |nodes|
  {
    nodes[v := ACNode(nodes[v].next, f, nodes[v].output)]
  }

  /** Failure links and outputs play no part in what the trie spells. */
  lemma SameEdges(nodes: seq<ACNode>, nodes': seq<ACNode>, path: seq<Word>)
    requires Spells(nodes, path) && |nodes'| == |nodes|
    requires forall u | 0 <= u < |nodes| :: nodes'[u].next == nodes[u].next
    ensures Spells(nodes', path)
    ensures forall u, c | 0 <= u < |nodes| :: Goto(nodes', u, c) == Goto(nodes, u, c)
  {
    forall u, c | 0 <= u < |nodes|
      ensures Goto(nodes', u, c) == Goto(nodes, u, c) && EdgeOk(nodes', path, u, c)
    {
      assert EdgeOk(nodes, path, u, c);
    }
  }

  /** Outputs are untouched between `nodes` and `nodes'`. */
  ghost predicate SameOutputs(nodes: seq<ACNode>, nodes': seq<ACNode>) {
    && |nodes| == |nodes'|
    && forall u | 0 <= u < |nodes| :: nodes'[u].output == nodes[u].output
  }

  function SetRoot(nodes: seq<ACNode>, c: byte): seq<ACNode>
    requires |nodes| > 0
  {
    nodes[0 := ACNode(nodes[0].next[c as nat := 0], nodes[0].fail, nodes[0].output)]
  }

  lemma SetRootKeepsTrie(nodes: seq<ACNode>, path: seq<Word>, c: byte)
    requires Spells(nodes, path) && Goto(nodes, 0, c) == -1
    ensures Spells(SetRoot(nodes, c), path)
    ensures forall u, d | 0 <= u < |nodes| ::
              Goto(SetRoot(nodes, c), u, d) == if u == 0 && d == c then 0 else Goto(nodes, u, d)
  {
    var nodes' := SetRoot(nodes, c);
    forall u, d | 0 <= u < |nodes|
      ensures Goto(nodes', u, d) == (if u == 0 && d == c then 0 else Goto(nodes, u, d)) && EdgeOk(nodes', path, u, d)
    {
      assert EdgeOk(nodes, path, u, d);
    }
  }

  /** The state of the breadth-first pass: `done` has been dequeued, `queue` waits. Node `x` is
      being expanded and its bytes below `lim` have been handled (`x == -1`: none is). */
  ghost predicate Visited(nodes: seq<ACNode>, path: seq<Word>, seen: seq<int>, done: seq<int>, x: int, lim: int) {
    forall y, d {:trigger Goto(nodes, y, d)} | 0 <= y < |nodes| && Goto(nodes, y, d) > 0 ::
      Goto(nodes, y, d) in seen <==> if y == x then d as int < lim else y == 0 || y in done
  }

  ghost predicate AllFailOk(nodes: seq<ACNode>, path: seq<Word>, seen: seq<int>)
    requires |nodes| == |path|
  {
    forall v | v in seen :: 0 < v < |nodes| && FailOk(nodes, path, v)
  }

  ghost predicate Levelled(path: seq<Word>, queue: seq<int>, level: int)
  {
    && (forall i | 0 <= i < |queue| :: 0 <= queue[i] < |path| && level <= |path[queue[i]]| <= level + 1)
    && (forall i, j | 0 <= i < j < |queue| :: |path[queue[i]]| <= |path[queue[j]]|)
  }

  ghost predicate NoRepeats(s: seq<int>) {
    forall i, j | 0 <= i < j < |s| :: s[i] != s[j]
  }

  /** The invariant of the breadth-first pass over the trie that was `start` when it began. */
  ghost predicate Bfs(start: seq<ACNode>, nodes: seq<ACNode>, path: seq<Word>,
                      done: seq<int>, queue: seq<int>, x: int, lim: int, level: int)
  {
    && Spells(nodes, path) && SameOutputs(start, nodes)
    && Visited(nodes, path, done + queue, done, x, lim)
    && NoRepeats(done + queue)
    && AllFailOk(nodes, path, done + queue)
    && Levelled(path, queue, level)
  }

  /** When everything still queued is at least as deep as `level`, every node down to that depth
      has been seen. */
  lemma {:induction false} ShallowSeen(
    nodes: seq<ACNode>, path: seq<Word>, done: seq<int>, queue: seq<int>, level: int, v: int)
    requires Spells(nodes, path) && Visited(nodes, path, done + queue, done, -1, 0)
    requires forall q | q in queue :: 0 <= q < |path| && |path[q]| >= level
    requires 0 < v < |nodes| && |path[v]| <= level
    ensures v in done + queue
    decreases |path[v]|
  {
    var u, c := Parent(nodes, path, v);
    if u != 0 {
      ShallowSeen(nodes, path, done, queue, level, u);
    }
  }

  /** Once the queue is empty every non-root node has been seen. */
  lemma {:induction false} DrainedSeen(nodes: seq<ACNode>, path: seq<Word>, done: seq<int>, v: int)
    requires Spells(nodes, path) && Visited(nodes, path, done, done, -1, 0)
    requires 0 < v < |nodes|
    ensures v in done
    decreases |path[v]|
  {
    var u, c := Parent(nodes, path, v);
    if u != 0 { DrainedSeen(nodes, path, done, u); }
  }

  lemma Pop(start: seq<ACNode>, nodes: seq<ACNode>, path: seq<Word>, done: seq<int>, queue: seq<int>, level: int)
    requires Bfs(start, nodes, path, done, queue, -1, 0, level) && queue != []
    ensures var u := queue[0];
            && 0 < u < |nodes| && u !in done
            && Bfs(start, nodes, path, done + [u], queue[1..], u, 0, |path[u]|)
            && FailsUpTo(nodes, path, |path[u]|)
  {
    var u, seen := queue[0], done + queue;
    assert seen[|done|] == u && u in seen;
    assert u !in done by {
      assert forall i | 0 <= i < |done| :: done[i] == seen[i];
    }
    assert done + [u] + queue[1..] == seen;
    forall v | 0 < v < |nodes| && |path[v]| <= |path[u]|
      ensures FailOk(nodes, path, v)
    {
      ShallowSeen(nodes, path, done, queue, |path[u]|, v);
    }
  }

  /** What the breadth-first pass leaves behind. */
  lemma Drained(start: seq<ACNode>, nodes: seq<ACNode>, path: seq<Word>, outputNext: seq<int>, pats: seq<Word>,
        done: seq<int>, level: int)
    requires Bfs(start, nodes, path, done, [], -1, 0, level) && ChainOk(outputNext) && |outputNext| == |pats|
    requires |start| == |path| && forall u | 0 <= u < |start| :: OutputOk(start, path, outputNext, pats, u)
    ensures Spells(nodes, path) && NoRepeats(done)
    ensures forall u | 0 <= u < |nodes| :: OutputOk(nodes, path, outputNext, pats, u)
    ensures forall v | 0 < v < |nodes| :: FailOk(nodes, path, v)
    ensures forall v :: v in done <==> 0 < v < |nodes|
    ensures PrefixClosed(Words(path)) && path[0] == []
  {
    assert done + [] == done;
    forall u | 0 <= u < |nodes| ensures OutputOk(nodes, path, outputNext, pats, u) {
      assert OutputOk(start, path, outputNext, pats, u);
    }
    forall v | 0 < v < |nodes| ensures v in done && FailOk(nodes, path, v) {
      DrainedSeen(nodes, path, done, v);
    }
  }

  ghost function Unseen(n: int, done: seq<int>): set<int> {
    set v | 0 < v < n && v !in done
  }

  lemma Settle(start: seq<ACNode>, nodes: seq<ACNode>, path: seq<Word>, done: seq<int>, queue: seq<int>, u: int,
        level: int)
    requires Bfs(start, nodes, path, done, queue, u, 256, level)
    requires u == 0 || u in done
    ensures Bfs(start, nodes, path, done, queue, -1, 0, level)
  {
  }

  lemma Skip(start: seq<ACNode>, nodes: seq<ACNode>, path: seq<Word>, done: seq<int>, queue: seq<int>,
             u: int, c: byte, level: int)
    requires Bfs(start, nodes, path, done, queue, u, c as int, level)
    requires 0 <= u < |nodes| && Goto(nodes, u, c) <= 0
    ensures Bfs(start, nodes, path, done, queue, u, c as int + 1, level)
  {
  }

  /** Enqueuing the child of `u` on byte `c`, with failure link `t`. */
  lemma Push(start: seq<ACNode>, nodes: seq<ACNode>, path: seq<Word>, done: seq<int>, queue: seq<int>,
             u: int, c: byte, t: int)
    requires 0 <= u < |nodes| == |path|
    requires Bfs(start, nodes, path, done, queue, u, c as int, |path[u]|)
    requires Goto(nodes, u, c) > 0
    requires 0 <= t < |nodes| && Goto(nodes, u, c) < |nodes| && path[Goto(nodes, u, c)] != []
    requires path[t] == LongestSuffix(Words(path), path[Goto(nodes, u, c)][1..])
    ensures var v := Goto(nodes, u, c);
            && |path[v]| == |path[u]| + 1
            && Bfs(start, SetFail(nodes, v, t), path, done, queue + [v], u, c as int + 1, |path[u]|)
            && forall y, d | 0 <= y < |nodes| :: Goto(SetFail(nodes, v, t), y, d) == Goto(nodes, y, d)
  {
    var v := Goto(nodes, u, c);
    var nodes' := SetFail(nodes, v, t);
    SameEdges(nodes, nodes', path);
    var seen, seen' := done + queue, done + (queue + [v]);
    assert seen' == seen + [v];
    assert EdgeOk(nodes, path, u, c);
    assert v !in seen;
    forall y, d | 0 <= y < |nodes| && Goto(nodes, y, d) > 0
      ensures Goto(nodes, y, d) in seen' <==> if y == u then d as int < c as int + 1 else y == 0 || y in done
    {
      if Goto(nodes, y, d) == v { EdgeUnique(nodes, path, u, c, y, d); }
    }
    forall w | w in seen'
      ensures 0 < w < |nodes| && FailOk(nodes', path, w)
    {
      if w != v { assert FailOk(nodes, path, w); }
    }
  }

  /** The longest proper suffix of a child's word is found from the failure link of its parent. */
  lemma ChildFail(nodes: seq<ACNode>, path: seq<Word>, u: int, c: byte)
    requires Spells(nodes, path) && 0 < u < |nodes| && FailOk(nodes, path, u) && Goto(nodes, u, c) > 0
    ensures var v := Goto(nodes, u, c);
            && v < |nodes| && path[v] != []
            && |path[nodes[u].fail]| < |path[u]| == |path[v]| - 1
            && LongestSuffix(Words(path), path[v][1..]) == LongestSuffix(Words(path), path[nodes[u].fail] + [c])
  {
    var v := Goto(nodes, u, c);
    assert EdgeOk(nodes, path, u, c);
    LongestSuffixIsLongest(Words(path), path[u][1..]);
    LongestSuffixStep(Words(path), path[u][1..], c);
    assert path[v][1..] == path[u][1..] + [c];
  }

  lemma NewlySeen(done: seq<int>, queue: seq<int>, v: int)
    requires NoRepeats(done + (queue + [v]))
    ensures v !in done + queue && (done + queue) + [v] == done + (queue + [v])
  {
    var all := done + (queue + [v]);
    assert forall i | 0 <= i < |all| - 1 :: all[i] != all[|all| - 1];
    assert forall i | 0 <= i < |all| - 1 :: all[i] == (done + queue)[i];
  }

  /** The words of a list of nodes. */
  ghost function WordsOf(path: seq<Word>, seen: seq<int>): set<Word> {
    set v | v in seen && 0 <= v < |path| :: path[v]
  }

  /** The children of the root cost nothing. */
  lemma RootHops(start: seq<ACNode>, nodes: seq<ACNode>, path: seq<Word>, queue: seq<int>)
    requires Bfs(start, nodes, path, [], queue, -1, 0, 0)
    ensures |start| == |nodes| == |path| > 0 && [] in Words(path)
    ensures HopSum(Words(path), WordsOf(path, [] + queue)) == 0
  {
    assert path[0] in Words(path);
    ShallowHops(Words(path), WordsOf(path, [] + queue));
  }

  /** A node seen for the first time adds the hops of its word. */
  lemma SeenHops(T: set<Word>, path: seq<Word>, seen: seq<int>, v: int)
    requires [] in T && Distinct(path) && 0 <= v < |path| && v !in seen
    ensures HopSum(T, WordsOf(path, seen + [v])) == HopSum(T, WordsOf(path, seen)) + FailHops(T, path[v])
  {
    var before, after := WordsOf(path, seen), WordsOf(path, seen + [v]);
    assert path[v] !in before;
    assert path[v] in after && after - {path[v]} == before;
    HopSumPick(T, after, path[v]);
  }

  /** What all nodes but the root cost is the cost of the trie. */
  lemma AllHops(path: seq<Word>, order: seq<int>, pats: seq<Word>)
    requires |path| > 0 && path[0] == [] && PrefixClosed(Words(path)) && Words(path) == TrieOf(pats)
    requires forall v | 0 < v < |path| :: v in order
    ensures HopSum(Words(path), WordsOf(path, order)) == HopSum(TrieOf(pats), TrieOf(pats)) <= TotalLength(pats)
  {
    var T, seen := Words(path), WordsOf(path, order);
    TrieHops(T, pats);
    assert T == seen + {[]};
    if [] !in seen {
      assert T - {[]} == seen;
      HopSumPick(T, T, []);
    } else {
      assert T == seen;
    }
  }

  lemma EdgeUnique(nodes: seq<ACNode>, path: seq<Word>, u: int, c: byte, y: int, d: byte)
    requires Spells(nodes, path) && 0 <= u < |nodes| && 0 <= y < |nodes|
    requires Goto(nodes, u, c) == Goto(nodes, y, d) > 0
    ensures u == y && c == d
  {
    assert EdgeOk(nodes, path, u, c) && EdgeOk(nodes, path, y, d);
    var a, b := path[u] + [c], path[y] + [d];
    assert a == b;
    assert Init(a) == path[u] && Init(b) == path[y];
    assert a[|a| - 1] == c && b[|b| - 1] == d;
  }

  class AC {
    var nodes: seq<ACNode>
    var outputPat: seq<int>
    var outputNext: seq<int>
    var patLen: seq<nat>
    ghost var path: seq<Word>  // the word of each node
    ghost var pats: seq<Word>  // the word of each output entry
    ghost var order: seq<int>  // the nodes in the order in which Build dequeued them

    ghost predicate Valid()
      reads this
    {
      && Spells(nodes, path)
      && |outputPat| == |outputNext| == |patLen| == |pats|
      && ChainOk(outputNext)
      && (forall k | 0 <= k < |pats| :: patLen[k] == |pats[k]|)
      && (forall u | 0 <= u < |nodes| :: OutputOk(nodes, path, outputNext, pats, u))
      && Words(path) == TrieOf(pats)
    }

    /** No missing root transition has been closed yet, so patterns may still be added. */
    ghost predicate Open()
      requires Valid()
      reads this
    {
      NoRootEdges(nodes)
    }

    /** What `Build` establishes. */
    ghost predicate Built()
      requires Valid()
      reads this
    {
      && RootTotal(nodes)
      && forall v | 0 < v < |nodes| :: FailOk(nodes, path, v)
    }

    constructor ()
      ensures Valid() && Open() && pats == [] && outputPat == []
    {
      nodes := [FreshNode()];
      outputPat, outputNext, patLen := [], [], [];
      path, pats, order := [[]], [], [];
      new;
      assert path[0] == [];
      assert Words(path) == {[]} == TrieOf(pats);
    }

    /** The insertion walk of `AddPattern`: follows `data` from the root, adding missing nodes. */
    method Walk(data: Word) returns (cur: int)
      requires Valid() && Open()
      modifies this`nodes, this`path
      ensures Walked(nodes, path, outputNext, pats, TrieOf(pats), data, cur)
    {
      cur := 0;
      var i := 0;
      assert data[..0] == [];
      TrieOfExact(pats, []);
      PatternsInTrie(pats);
      ghost var T := TrieOf(pats);
      while i < |data|
        invariant 0 <= i <= |data|
        invariant Walked(nodes, path, outputNext, pats, T, data[..i], cur)
      {
        var c := data[i];
        if Goto(nodes, cur, c) == -1 {
          WalkGrow(nodes, path, outputNext, pats, T, data, i, cur);
          nodes, path := WithChild(nodes, cur, c), path + [data[..i + 1]];
        } else {
          WalkAlong(nodes, path, outputNext, pats, T, data, i, cur);
        }
        cur := Goto(nodes, cur, c);
        i := i + 1;
      }
      assert data[..|data|] == data;
    }

    method AddPattern(data: Word, patternIdx: int) returns (idx: nat)
      requires Valid() && Open()
      modifies this
      ensures Valid() && Open()
      ensures pats == old(pats) + [data]
      ensures outputPat == old(outputPat) + [patternIdx]
      ensures idx == |old(outputPat)|
    {
      var cur := Walk(data);
      OutputPush(nodes, path, outputNext, pats, cur);
      patLen := patLen + [|data|];
      outputPat := outputPat + [patternIdx];
      idx := |outputPat| - 1;
      outputNext := outputNext + [nodes[cur].output];
      ghost var before := nodes;
      nodes := nodes[cur := ACNode(nodes[cur].next, nodes[cur].fail, idx)];
      SameEdges(before, nodes, path);
      pats := pats + [data];
      assert pats[..|pats| - 1] == old(pats);
    }

    /** The `while` of both `build` and the scan: follow failure links until byte `c` can be
        consumed. `Goto(f, c)` is then the state for the longest suffix that the trie knows. */
    method Descend(s: int, c: byte) returns (f: int, ghost hops: nat)
      requires Spells(nodes, path) && RootTotal(nodes) && 0 <= s < |nodes|
      requires FailsUpTo(nodes, path, |path[s]|)
      ensures 0 <= f < |nodes| && Goto(nodes, f, c) >= 0
      ensures path[Goto(nodes, f, c)] == LongestSuffix(Words(path), path[s] + [c])
      ensures hops == Hops(Words(path), path[s], c)
      ensures |path[Goto(nodes, f, c)]| + hops <= |path[s]| + 1
    {
      f, hops := s, 0;
      ghost var T := Words(path);
      while Goto(nodes, f, c) == -1 && f != 0
        invariant 0 <= f < |nodes| && |path[f]| + hops <= |path[s]|
        invariant LongestSuffix(T, path[f] + [c]) == LongestSuffix(T, path[s] + [c])
        invariant hops + Hops(T, path[f], c) == Hops(T, path[s], c)
        decreases |path[f]|
      {
        assert FailOk(nodes, path, f) && EdgeOk(nodes, path, f, c);
        FailHop(T, path[f], c);
        LongestSuffixIsLongest(T, path[f][1..]);
        f := nodes[f].fail;
        hops := hops + 1;
      }
      assert EdgeOk(nodes, path, f, c);
      FirstByteAbsent(T, c);
      assert path[Goto(nodes, f, c)] in T;
    }

    method Build() returns (ghost hops: nat)
      requires Valid() && Open()
      modifies this`nodes, this`order
      ensures Valid() && Built()
      ensures |nodes| == |old(nodes)|
      ensures NoRepeats(order) && forall v :: v in order <==> 0 < v < |nodes|
      ensures hops == HopSum(TrieOf(pats), TrieOf(pats)) <= TotalLength(pats)
    {
      hide HopSum, WordsOf, TotalLength, TrieOf, Bfs, Spells, FailOk, OutputOk, NoRepeats;
      ghost var start := nodes;
      var queue := CloseRoot();
      ghost var done: seq<int> := [];
      ghost var level, T := 0, Words(path);
      hops := 0;
      RootHops(start, nodes, path, queue);
      while queue != []
        invariant |start| == |nodes| == |path| > 0 && T == Words(path)
        invariant Bfs(start, nodes, path, done, queue, -1, 0, level) && RootTotal(nodes)
        invariant hops == HopSum(T, WordsOf(path, done + queue))
        decreases Unseen(|nodes|, done)
      {
        assert queue[0] in Unseen(|nodes|, done) by { Pop(start, nodes, path, done, queue, level); }
        Pop(start, nodes, path, done, queue, level);
        var u := queue[0];
        assert done + [u] + queue[1..] == done + queue;
        queue := queue[1..];
        done := done + [u];
        level := |path[u]|;
        ghost var more;
        queue, more := Expand(u, queue, done, start);
        hops := hops + more;
      }
      order := done;
      Drained(start, nodes, path, outputNext, pats, done, level);
      assert done + queue == done;
      AllHops(path, done, pats);
    }

    /** The first loop of `build`: enqueues the children of the root and closes its missing
        transitions. */
    method CloseRoot() returns (queue: seq<int>)
      requires Valid() && Open()
      modifies this`nodes
      ensures Bfs(old(nodes), nodes, path, [], queue, -1, 0, 0) && RootTotal(nodes)
    {
      queue := [];
      ghost var start := nodes;
      var c := 0;
      while c < 256
        invariant 0 <= c <= 256
        invariant Bfs(start, nodes, path, [], queue, 0, c, 0)
        invariant forall d: byte | d as int < c :: Goto(nodes, 0, d) >= 0
        invariant forall d: byte | c <= d as int :: Goto(nodes, 0, d) != 0
      {
        var b := c as byte;
        var v := Goto(nodes, 0, b);
        assert EdgeOk(nodes, path, 0, b);
        if v != -1 {
          Push(start, nodes, path, [], queue, 0, b, 0);
          nodes := SetFail(nodes, v, 0);
          queue := queue + [v];
        } else {
          SetRootKeepsTrie(nodes, path, b);
          Skip(start, nodes, path, [], queue, 0, b, 0);
          nodes := SetRoot(nodes, b);
        }
        c := c + 1;
      }
      Settle(start, nodes, path, [], queue, 0, 0);
    }

    /** The failure link of the child of `u` on byte `c`. */
    method FailTarget(u: int, c: byte) returns (t: int, ghost hops: nat)
      requires Spells(nodes, path) && RootTotal(nodes) && 0 < u < |nodes|
      requires FailsUpTo(nodes, path, |path[u]|) && Goto(nodes, u, c) > 0
      ensures Goto(nodes, u, c) < |nodes| && path[Goto(nodes, u, c)] != []
      ensures 0 <= t < |nodes|
      ensures path[t] == LongestSuffix(Words(path), path[Goto(nodes, u, c)][1..])
      ensures hops == FailHops(Words(path), path[Goto(nodes, u, c)])
    {
      var v := Goto(nodes, u, c);
      assert FailOk(nodes, path, u);
      ChildFail(nodes, path, u, c);
      var f;
      f, hops := Descend(nodes[u].fail, c);
      assert EdgeOk(nodes, path, u, c) && Init(path[v]) == path[u];
      LongestSuffixIsLongest(Words(path), path[v][1..]);
      t := if Goto(nodes, f, c) != -1 && Goto(nodes, f, c) != v then Goto(nodes, f, c) else 0;
    }

    /** The body of the breadth-first loop: sets the failure link of every child of `u` and
        enqueues it. */
    method Expand(u: int, q: seq<int>, ghost done: seq<int>, ghost start: seq<ACNode>)
      returns (queue: seq<int>, ghost hops: nat)
      requires |nodes| == |path| && 0 < u < |nodes| && u in done
      requires Bfs(start, nodes, path, done, q, u, 0, |path[u]|) && RootTotal(nodes)
      requires FailsUpTo(nodes, path, |path[u]|)
      modifies this`nodes
      ensures |nodes| == |old(nodes)|
      ensures Bfs(start, nodes, path, done, queue, -1, 0, |path[u]|) && RootTotal(nodes)
      ensures HopSum(Words(path), WordsOf(path, done + q)) + hops == HopSum(Words(path), WordsOf(path, done + queue))
    {
      hide HopSum, WordsOf, FailHops, LongestSuffix;
      queue, hops := q, 0;
      var c := 0;
      while c < 256
        invariant 0 <= c <= 256
        invariant |nodes| == |old(nodes)|
        invariant Bfs(start, nodes, path, done, queue, u, c, |path[u]|) && RootTotal(nodes)
        invariant FailsUpTo(nodes, path, |path[u]|)
        invariant HopSum(Words(path), WordsOf(path, done + q)) + hops ==
                  HopSum(Words(path), WordsOf(path, done + queue))
      {
        var b := c as byte;
        var v := Goto(nodes, u, b);
        assert EdgeOk(nodes, path, u, b);
        if v != -1 {
          var t;
          ghost var h;
          t, h := FailTarget(u, b);
          Push(start, nodes, path, done, queue, u, b, t);
          NewlySeen(done, queue, v);
          SeenHops(Words(path), path, done + queue, v);
          nodes := SetFail(nodes, v, t);
          queue, hops := queue + [v], hops + h;
        } else {
          Skip(start, nodes, path, done, queue, u, b, |path[u]|);
        }
        c := c + 1;
      }
      Settle(start, nodes, path, done, queue, u, |path[u]|);
    }
  }
}

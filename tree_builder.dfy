/**
  Tree building: a min-priority queue is seeded with one leaf per entry of
  the frequency table, then its two least-count trees are merged until one
  tree is left. The queue is a sequence whose order carries no meaning; a
  pop returns some element of least count, with no tie-break.
 */
module TreeBuilder {
  import opened HuffmanTree
  import opened Frequency

  /** One leaf per (symbol, count) entry of `freq`. */
  function LeafSet(freq: map<char, nat>): set<HuffmanNode>
  {
    set c | c in freq :: Leaf(c, freq[c])
  }

  lemma LeafSetInsert(done: map<char, nat>, c: char, v: nat)
    requires c !in done
    ensures multiset(LeafSet(done[c := v])) == multiset(LeafSet(done)) + multiset{Leaf(c, v)}
  {
    var before, after := LeafSet(done), LeafSet(done[c := v]);
    forall u | u in after
      ensures u in before || u == Leaf(c, v)
    {
      var d :| d in done[c := v] && u == Leaf(d, done[c := v][d]);
      if d != c {
        assert d in done && u == Leaf(d, done[d]);
      }
    }
    forall u | u in before
      ensures u in after
    {
      var d :| d in done && u == Leaf(d, done[d]);
      assert d != c && u == Leaf(d, done[c := v][d]);
    }
    assert c in done[c := v] && Leaf(c, v) == Leaf(c, done[c := v][c]);
    assert after == before + {Leaf(c, v)};
    assert Leaf(c, v) !in before;
  }

  /** The seeding loop: one leaf per table entry, in whatever order the table
      is walked. */
  method Seed(freq: map<char, nat>) returns (pq: seq<HuffmanNode>)
    ensures multiset(pq) == multiset(LeafSet(freq))
    ensures |pq| == |freq|
    ensures SumFreq(pq) == Total(freq)
  {
    pq := [];
    var todo := freq.Keys;
    ghost var done: map<char, nat> := map[];
    while todo != {}
      invariant todo <= freq.Keys
      invariant done == map c | c in freq && c !in todo :: freq[c]
      invariant multiset(pq) == multiset(LeafSet(done))
      invariant |pq| == |done|
      invariant SumFreq(pq) == Total(done)
      decreases todo
    {
      var c :| c in todo;
      var leaf := Leaf(c, freq[c]);
      LeafSetInsert(done, c, freq[c]);
      TotalInsert(done, c, freq[c]);
      assert (pq + [leaf])[..|pq|] == pq;
      pq := pq + [leaf];
      done := done[c := freq[c]];
      todo := todo - {c};
    }
    assert done == freq;
  }

  /** Position `i` holds a top of the queue: no element has priority over it
      under `Compare`. */
  predicate IsTop(q: seq<HuffmanNode>, i: nat)
    requires i < |q|
  {
    forall j | 0 <= j < |q| :: !Compare(q[i], q[j])
  }

  /** A top of the queue is exactly an element of least count. */
  lemma TopIsLeast(q: seq<HuffmanNode>, i: nat)
    requires i < |q|
    ensures IsTop(q, i) <==> forall j | 0 <= j < |q| :: q[i].freq <= q[j].freq
  {
  }

  lemma {:induction false} TopExists(q: seq<HuffmanNode>)
    requires |q| > 0
    ensures exists i :: 0 <= i < |q| && IsTop(q, i)
    decreases |q|
  {
    if |q| > 1 {
      var init := q[..|q| - 1];
      TopExists(init);
      var i :| 0 <= i < |init| && IsTop(init, i);
      if Compare(q[i], q[|q| - 1]) {
        assert IsTop(q, |q| - 1);
      } else {
        assert IsTop(q, i);
      }
    } else {
      assert IsTop(q, 0);
    }
  }

  /** A top outranks nothing that is left once it is taken out. */
  lemma TopOutranksNone(q: seq<HuffmanNode>, i: nat)
    requires i < |q| && IsTop(q, i)
    ensures forall u | u in RemoveAt(q, i) :: !Compare(q[i], u)
  {
    RemoveAtContents(q, i);
    forall u | u in RemoveAt(q, i)
      ensures !Compare(q[i], u)
    {
      var j :| 0 <= j < |q| && q[j] == u;
    }
  }

  /** `top` came off `pq` as its top and `rest` is what is left: `rest` is
      one shorter, the contents split into `top` and `rest`, `top` outranks
      nothing left, and the total count and the leaves split the same way. */
  ghost predicate Popped(pq: seq<HuffmanNode>, top: HuffmanNode, rest: seq<HuffmanNode>)
  {
    && |rest| == |pq| - 1
    && multiset(pq) == multiset(rest) + multiset{top}
    && (forall u | u in rest :: !Compare(top, u))
    && SumFreq(pq) == top.freq + SumFreq(rest)
    && multiset(LeavesOf(pq)) == multiset(Leaves(top)) + multiset(LeavesOf(rest))
  }

  /** `pq.top(); pq.pop();`: some element of least count, and the queue
      without it. Which of several equal-count elements comes out is not
      fixed. */
  method PopTop(pq: seq<HuffmanNode>) returns (top: HuffmanNode, rest: seq<HuffmanNode>)
    requires |pq| > 0
    ensures Popped(pq, top, rest)
  {
    TopExists(pq);
    var k :| 0 <= k < |pq| && IsTop(pq, k);
    top, rest := pq[k], RemoveAt(pq, k);
    RemoveAtContents(pq, k);
    TopOutranksNone(pq, k);
    SumFreqRemoveAt(pq, k);
    LeavesOfRemoveAt(pq, k);
  }

  /** One iteration of the merge loop on the queue's contents: `a` is a least
      element of `q`, `b` a least element of what remains, and `q'` is the
      remainder with the new node of count `a.freq + b.freq` over `a` and `b`
      added. */
  ghost predicate GreedyMerge(q: multiset<HuffmanNode>, a: HuffmanNode, b: HuffmanNode, q': multiset<HuffmanNode>)
  {
    && a in q
    && (forall u | u in q :: a.freq <= u.freq)
    && b in q - multiset{a}
    && (forall u | u in q - multiset{a} :: b.freq <= u.freq)
    && q' == q - multiset{a} - multiset{b} + multiset{Node(a.freq + b.freq, a, b)}
  }

  ghost predicate MergeStep(q: multiset<HuffmanNode>, q': multiset<HuffmanNode>)
  {
    exists a, b :: GreedyMerge(q, a, b, q')
  }

  /** What each step of the trace of `BuildTree` says when read out: a
      merge makes the queue one shorter; the two trees merged have the least
      counts, the first (left) no more than the second (right) and the second
      no more than any tree left behind. */
  lemma GreedyMergeFacts(q: multiset<HuffmanNode>, a: HuffmanNode, b: HuffmanNode, q': multiset<HuffmanNode>)
    requires GreedyMerge(q, a, b, q')
    ensures |q'| == |q| - 1
    ensures a.freq <= b.freq
    ensures forall u | u in q - multiset{a} - multiset{b} :: a.freq <= b.freq <= u.freq
  {
    var rest := q - multiset{a} - multiset{b};
    assert q == rest + multiset{a} + multiset{b};
    forall u | u in rest
      ensures b.freq <= u.freq
    {
      assert u in q - multiset{a};
    }
  }

  /** The merge loop. The states of the queue from seed to root form a chain
      of greedy merges, one per iteration, and the root is a full,
      well-weighted tree whose leaves are the seeds. */
  method BuildTree(seed: seq<HuffmanNode>) returns (root: HuffmanNode, ghost states: seq<multiset<HuffmanNode>>)
    requires |seed| >= 1
    requires forall t | t in seed :: t.Leaf?
    ensures |states| == |seed|
    ensures states[0] == multiset(seed) && states[|seed| - 1] == multiset{root}
    ensures forall k | 0 <= k < |seed| - 1 :: MergeStep(states[k], states[k + 1])
    ensures WellWeighted(root)
    ensures root.freq == SumFreq(seed)
    ensures multiset(Leaves(root)) == multiset(seed)
    ensures InternalCount(root) == |seed| - 1
  {
    var pq := seed;
    states := [multiset(seed)];
    SeedLeaves(seed);
    while |pq| > 1
      invariant 1 <= |pq| <= |seed|
      invariant |states| + |pq| == |seed| + 1
      invariant GreedyTrace(states, seed) && states[|states| - 1] == multiset(pq)
      invariant QueueMatchesSeed(pq, seed)
      decreases |pq|
    {
      var next := MergeLeastTwo(pq, seed);
      ExtendTrace(states, multiset(next), seed);
      pq, states := next, states + [multiset(next)];
    }
    root := pq[0];
    LastInQueue(pq, seed);
    TraceEnds(pq, states, seed);
  }

  /** Once one tree is left, the trace runs from the seeds to that tree. */
  lemma TraceEnds(pq: seq<HuffmanNode>, states: seq<multiset<HuffmanNode>>, seed: seq<HuffmanNode>)
    requires |pq| == 1 && |states| == |seed|
    requires GreedyTrace(states, seed) && states[|states| - 1] == multiset(pq)
    ensures states[0] == multiset(seed) && states[|seed| - 1] == multiset{pq[0]}
    ensures forall k | 0 <= k < |seed| - 1 :: MergeStep(states[k], states[k + 1])
  {
    assert pq == [pq[0]];
  }

  lemma LastInQueue(pq: seq<HuffmanNode>, seed: seq<HuffmanNode>)
    requires |pq| == 1 && QueueMatchesSeed(pq, seed)
    ensures WellWeighted(pq[0]) && pq[0].freq == SumFreq(seed)
    ensures multiset(Leaves(pq[0])) == multiset(seed)
    ensures InternalCount(pq[0]) == |seed| - 1
  {
    assert pq[..0] == [];
    assert SumFreq(pq) == SumFreq(pq[..0]) + pq[0].freq;
    assert LeavesOf(pq) == LeavesOf(pq[..0]) + Leaves(pq[0]);
    assert pq[0] in pq;
    LeavesCount(pq[0]);
    assert |multiset(Leaves(pq[0]))| == |Leaves(pq[0])|;
    assert |multiset(seed)| == |seed|;
  }

  /** The states of the queue so far: they start at the seeds and each is one
      greedy merge away from the one before. */
  ghost predicate GreedyTrace(states: seq<multiset<HuffmanNode>>, seed: seq<HuffmanNode>)
  {
    && |states| >= 1
    && states[0] == multiset(seed)
    && forall k | 0 <= k < |states| - 1 :: MergeStep(states[k], states[k + 1])
  }

  /** One turn of the merge loop: pop the two trees of least count and push
      the node that joins them. The queue's contents move by one greedy
      merge, and the queue keeps what the loop keeps of the seeds. */
  method MergeLeastTwo(pq: seq<HuffmanNode>, ghost seed: seq<HuffmanNode>) returns (next: seq<HuffmanNode>)
    requires |pq| > 1
    requires QueueMatchesSeed(pq, seed)
    ensures |next| == |pq| - 1
    ensures MergeStep(multiset(pq), multiset(next))
    ensures QueueMatchesSeed(next, seed)
  {
    var left, rest1 := PopTop(pq);
    var right, rest2 := PopTop(rest1);
    var node := Node(left.freq + right.freq, left, right);
    next := rest2 + [node];
    MergeTurn(pq, left, rest1, right, rest2, node, next, seed);
  }

  /** Two pops of a least tree and a push of the node joining them make one
      greedy merge and keep every tree well-weighted, the total count and the
      seeds as the leaves. */
  lemma MergeTurn(pq: seq<HuffmanNode>, left: HuffmanNode, rest1: seq<HuffmanNode>,
                  right: HuffmanNode, rest2: seq<HuffmanNode>, node: HuffmanNode,
                  next: seq<HuffmanNode>, seed: seq<HuffmanNode>)
    requires Popped(pq, left, rest1) && Popped(rest1, right, rest2)
    requires node == Node(left.freq + right.freq, left, right)
    requires next == rest2 + [node]
    requires QueueMatchesSeed(pq, seed)
    ensures MergeStep(multiset(pq), multiset(next))
    ensures QueueMatchesSeed(next, seed)
  {
    MergeKeepsContents(pq, left, rest1, right, rest2, node, next, seed);
    PopsAreGreedy(multiset(pq), left, multiset(rest1), right, multiset(rest2));
    assert multiset(next) == multiset(rest2) + multiset{node};
  }

  /** Appending a state reached by one greedy merge keeps the trace linked. */
  lemma ExtendTrace(prev: seq<multiset<HuffmanNode>>, q': multiset<HuffmanNode>, seed: seq<HuffmanNode>)
    requires GreedyTrace(prev, seed)
    requires MergeStep(prev[|prev| - 1], q')
    ensures GreedyTrace(prev + [q'], seed)
    ensures (prev + [q'])[|prev|] == q'
  {
    var next := prev + [q'];
    forall k | 0 <= k < |next| - 1
      ensures MergeStep(next[k], next[k + 1])
    {
      if k < |prev| - 1 {
        assert next[k] == prev[k] && next[k + 1] == prev[k + 1];
      } else {
        assert next[k] == prev[|prev| - 1] && next[k + 1] == q';
      }
    }
  }

  /** What the merge loop keeps of its queue: every tree in it is
      well-weighted, and together they hold the seeds' total count and the
      seeds as leaves. */
  ghost predicate QueueMatchesSeed(pq: seq<HuffmanNode>, seed: seq<HuffmanNode>)
  {
    && (forall t | t in pq :: WellWeighted(t))
    && SumFreq(pq) == SumFreq(seed)
    && multiset(LeavesOf(pq)) == multiset(seed)
  }

  /** One turn of the merge loop keeps the queue's total count, its leaves,
      and the weights of its trees. */
  lemma MergeKeepsContents(pq: seq<HuffmanNode>, left: HuffmanNode, rest1: seq<HuffmanNode>,
                           right: HuffmanNode, rest2: seq<HuffmanNode>, node: HuffmanNode,
                           pq': seq<HuffmanNode>, seed: seq<HuffmanNode>)
    requires Popped(pq, left, rest1) && Popped(rest1, right, rest2)
    requires node == Node(left.freq + right.freq, left, right) && pq' == rest2 + [node]
    requires QueueMatchesSeed(pq, seed)
    ensures QueueMatchesSeed(pq', seed)
  {
    MergeKeepsSum(pq, left, rest1, right, rest2, node, pq');
    MergeKeepsLeaves(pq, left, rest1, right, rest2, node, pq');
    PushKeepsWeights(pq, left, rest1, right, rest2, node);
  }

  lemma MergeKeepsSum(pq: seq<HuffmanNode>, left: HuffmanNode, rest1: seq<HuffmanNode>,
                      right: HuffmanNode, rest2: seq<HuffmanNode>, node: HuffmanNode,
                      pq': seq<HuffmanNode>)
    requires SumFreq(pq) == left.freq + SumFreq(rest1)
    requires SumFreq(rest1) == right.freq + SumFreq(rest2)
    requires node == Node(left.freq + right.freq, left, right) && pq' == rest2 + [node]
    ensures SumFreq(pq') == SumFreq(pq)
  {
    PushKeepsSum(rest2, node);
  }

  lemma MergeKeepsLeaves(pq: seq<HuffmanNode>, left: HuffmanNode, rest1: seq<HuffmanNode>,
                         right: HuffmanNode, rest2: seq<HuffmanNode>, node: HuffmanNode,
                         pq': seq<HuffmanNode>)
    requires multiset(LeavesOf(pq)) == multiset(Leaves(left)) + multiset(LeavesOf(rest1))
    requires multiset(LeavesOf(rest1)) == multiset(Leaves(right)) + multiset(LeavesOf(rest2))
    requires node == Node(left.freq + right.freq, left, right) && pq' == rest2 + [node]
    ensures multiset(LeavesOf(pq')) == multiset(LeavesOf(pq))
  {
    PushKeepsLeaves(rest2, node);
    assert Leaves(node) == Leaves(left) + Leaves(right);
    LeafAlgebra(LeavesOf(pq), Leaves(left), LeavesOf(rest1), Leaves(right), LeavesOf(rest2), LeavesOf(pq'));
  }

  /** The leaves of the two popped trees, those of the rest, and those of
      the merged queue balance as multisets. */
  lemma LeafAlgebra(all: seq<HuffmanNode>, l: seq<HuffmanNode>, rest1: seq<HuffmanNode>,
                    r: seq<HuffmanNode>, rest2: seq<HuffmanNode>, merged: seq<HuffmanNode>)
    requires multiset(all) == multiset(l) + multiset(rest1)
    requires multiset(rest1) == multiset(r) + multiset(rest2)
    requires merged == rest2 + (l + r)
    ensures multiset(merged) == multiset(all)
  {
  }

  lemma PushKeepsSum(q: seq<HuffmanNode>, node: HuffmanNode)
    ensures SumFreq(q + [node]) == SumFreq(q) + node.freq
  {
    assert (q + [node])[..|q|] == q;
  }

  lemma PushKeepsLeaves(q: seq<HuffmanNode>, node: HuffmanNode)
    ensures LeavesOf(q + [node]) == LeavesOf(q) + Leaves(node)
  {
    assert (q + [node])[..|q|] == q;
  }

  lemma PushKeepsWeights(pq: seq<HuffmanNode>, left: HuffmanNode, rest1: seq<HuffmanNode>,
                         right: HuffmanNode, rest2: seq<HuffmanNode>, node: HuffmanNode)
    requires multiset(pq) == multiset(rest1) + multiset{left}
    requires multiset(rest1) == multiset(rest2) + multiset{right}
    requires forall t | t in pq :: WellWeighted(t)
    requires node == Node(left.freq + right.freq, left, right)
    ensures forall t | t in rest2 + [node] :: WellWeighted(t)
  {
    assert left in multiset(pq) && right in multiset(rest1) && right in multiset(pq);
    forall t | t in rest2 + [node]
      ensures WellWeighted(t)
    {
      if t != node {
        assert t in multiset(rest2);
        assert t in multiset(pq);
      }
    }
  }

  /** Two successive pops of a least element, and a push of their merge, are
      a greedy merge of the queue's contents. */
  lemma PopsAreGreedy(q: multiset<HuffmanNode>, left: HuffmanNode, r1: multiset<HuffmanNode>,
                      right: HuffmanNode, r2: multiset<HuffmanNode>)
    requires q == r1 + multiset{left}
    requires forall u | u in r1 :: !Compare(left, u)
    requires r1 == r2 + multiset{right}
    requires forall u | u in r2 :: !Compare(right, u)
    ensures GreedyMerge(q, left, right, r2 + multiset{Node(left.freq + right.freq, left, right)})
  {
    assert q - multiset{left} == r1;
    assert r1 - multiset{right} == r2;
    forall u | u in q
      ensures left.freq <= u.freq
    {
      if u != left {
        assert u in r1;
      }
    }
    forall u | u in r1
      ensures right.freq <= u.freq
    {
      if u != right {
        assert u in r2;
      }
    }
  }

  lemma {:induction false} SeedLeaves(seed: seq<HuffmanNode>)
    requires forall t | t in seed :: t.Leaf?
    ensures LeavesOf(seed) == seed
    decreases |seed|
  {
    if seed != [] {
      var init, last := seed[..|seed| - 1], seed[|seed| - 1];
      forall t | t in init
        ensures t.Leaf?
      {
        assert t in seed;
      }
      SeedLeaves(init);
      assert last in seed;
      calc {
        LeavesOf(seed);
        LeavesOf(init) + Leaves(last);
        init + [last];
        { assert seed == init + [last]; }
        seed;
      }
    }
  }

  /** A tree whose leaves are the seeds drawn from a table holds no symbol
      twice and holds exactly the table's symbols. */
  lemma TreeOverTable(root: HuffmanNode, freq: map<char, nat>)
    requires multiset(Leaves(root)) == multiset(LeafSet(freq))
    ensures Distinct(root) && Symbols(root) == freq.Keys
    ensures |Leaves(root)| == |freq|
  {
    LeafSetUnique(freq);
    DistinctFromUniqueLeaves(root);
    SymbolsFromTable(root, freq);
    TableInSymbols(root, freq);
    LeafSetSize(freq);
  }

  lemma SymbolsFromTable(root: HuffmanNode, freq: map<char, nat>)
    requires multiset(Leaves(root)) == multiset(LeafSet(freq))
    ensures Symbols(root) <= freq.Keys
  {
    forall s | s in Symbols(root)
      ensures s in freq
    {
      var u := LeafOf(root, s);
      assert u in multiset(Leaves(root));
      assert u in LeafSet(freq);
    }
  }

  lemma TableInSymbols(root: HuffmanNode, freq: map<char, nat>)
    requires multiset(Leaves(root)) == multiset(LeafSet(freq))
    ensures freq.Keys <= Symbols(root)
  {
    LeavesAreLeaves(root);
    forall c | c in freq
      ensures c in Symbols(root)
    {
      var u := Leaf(c, freq[c]);
      assert u in LeafSet(freq);
      assert u in multiset(Leaves(root));
      assert u in Leaves(root);
    }
  }

  lemma LeafSetUnique(freq: map<char, nat>)
    ensures UniqueLeaves(multiset(LeafSet(freq)))
  {
  }

  lemma {:induction false} LeafSetSize(freq: map<char, nat>)
    ensures |LeafSet(freq)| == |freq|
    decreases |freq|
  {
    if freq != map[] {
      var c :| c in freq;
      var rest := freq - {c};
      assert freq == rest[c := freq[c]];
      assert freq.Keys == rest.Keys + {c} && c !in rest.Keys;
      LeafSetSize(rest);
      LeafSetInsert(rest, c, freq[c]);
      assert |multiset(LeafSet(freq))| == |multiset(LeafSet(rest))| + 1;
    }
  }

}

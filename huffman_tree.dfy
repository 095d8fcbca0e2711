/**
  The merge tree of the Huffman coder: the node type, the queue ordering, and
  the structural facts (leaf lists, weights, root-to-leaf paths) that the
  tree builder and the code generator rely on.
 */
module HuffmanTree {
  import opened Wrappers

  /** A tree node. A leaf carries one input symbol and its count; an internal
      node carries the combined count of its two children. Every node owns its
      children: a value of this type is a tree, never a graph. */
  datatype HuffmanNode =
    | Leaf(data: char, freq: nat)
    | Node(freq: nat, left: HuffmanNode, right: HuffmanNode)

  /** The queue's comparator: `Compare(a, b)` holds when `a` has a higher count
      than `b`, so that the queue's top is an element of least count. */
  predicate Compare(a: HuffmanNode, b: HuffmanNode)
  {
    a.freq > b.freq
  }

  /** The comparator is a strict weak order, as `std::priority_queue`
      requires: irreflexive, asymmetric and transitive, and two nodes neither
      of which outranks the other have the same count. */
  lemma CompareIsStrictWeakOrder(a: HuffmanNode, b: HuffmanNode, c: HuffmanNode)
    ensures !Compare(a, a)
    ensures Compare(a, b) ==> !Compare(b, a)
    ensures Compare(a, b) && Compare(b, c) ==> Compare(a, c)
    ensures !Compare(a, b) && !Compare(b, a) ==> a.freq == b.freq
  {
  }

  /** The leaves of `t`, left to right. */
  function Leaves(t: HuffmanNode): seq<HuffmanNode>
  {
    match t
    case Leaf(_, _) => [t]
    case Node(_, l, r) => Leaves(l) + Leaves(r)
  }

  /** The leaves of every tree in a queue, in queue order. */
  function LeavesOf(q: seq<HuffmanNode>): seq<HuffmanNode>
  {
    if q == [] then [] else LeavesOf(q[..|q| - 1]) + Leaves(q[|q| - 1])
  }

  /** The sum of the counts of the trees in a queue. */
  function SumFreq(q: seq<HuffmanNode>): nat
  {
    if q == [] then 0 else SumFreq(q[..|q| - 1]) + q[|q| - 1].freq
  }

  function InternalCount(t: HuffmanNode): nat
  {
    match t
    case Leaf(_, _) => 0
    case Node(_, l, r) => 1 + InternalCount(l) + InternalCount(r)
  }

  /** The symbols held by the leaves of `t`. */
  function Symbols(t: HuffmanNode): set<char>
  {
    match t
    case Leaf(d, _) => {d}
    case Node(_, l, r) => Symbols(l) + Symbols(r)
  }

  /** No symbol is held by two leaves. */
  predicate Distinct(t: HuffmanNode)
  {
    match t
    case Leaf(_, _) => true
    case Node(_, l, r) => Distinct(l) && Distinct(r) && Symbols(l) !! Symbols(r)
  }

  /** Every internal node's count is the sum of its children's counts. */
  predicate WellWeighted(t: HuffmanNode)
  {
    match t
    case Leaf(_, _) => true
    case Node(f, l, r) => f == l.freq + r.freq && WellWeighted(l) && WellWeighted(r)
  }

  /** No node of `t` has a count above `bound`. */
  predicate FreqsAtMost(t: HuffmanNode, bound: nat)
  {
    && t.freq <= bound
    && match t
       case Leaf(_, _) => true
       case Node(_, l, r) => FreqsAtMost(l, bound) && FreqsAtMost(r, bound)
  }

  /** A leaf of `t` that holds `s`. */
  function LeafOf(t: HuffmanNode, s: char): (u: HuffmanNode)
    requires s in Symbols(t)
    ensures u in Leaves(t) && u.Leaf? && u.data == s
  {
    match t
    case Leaf(_, _) => t
    case Node(_, l, r) => if s in Symbols(l) then LeafOf(l, s) else LeafOf(r, s)
  }

  /** The depth (root depth 0) of the leaf of `t` that holds `s`. */
  function Depth(t: HuffmanNode, s: char): nat
    requires s in Symbols(t)
  {
    match t
    case Leaf(_, _) => 0
    case Node(_, l, r) => 1 + if s in Symbols(l) then Depth(l, s) else Depth(r, s)
  }

  predicate IsBinary(p: string)
  {
    forall i | 0 <= i < |p| :: p[i] == '0' || p[i] == '1'
  }

  /** Every tree holds at least one symbol, and an internal node of a tree
      in which no symbol repeats holds at least two. */
  lemma {:induction false} SymbolCount(t: HuffmanNode)
    ensures |Symbols(t)| >= 1
    ensures t.Node? && Distinct(t) ==> |Symbols(t)| >= 2
    decreases t
  {
    match t
    case Leaf(d, _) =>
      assert Symbols(t) == {d};
    case Node(_, l, r) =>
      SymbolCount(l);
      SymbolCount(r);
      var x :| x in Symbols(l);
      var y :| y in Symbols(r);
      assert x in Symbols(t);
      if Distinct(t) {
        assert y in Symbols(t) - {x};
      }
  }

  /** The node reached from `t` by reading `path`: '0' goes to the left
      child, '1' to the right child; any other character, or a step below a
      leaf, falls off the tree. */
  function Follow(t: HuffmanNode, path: string): Option<HuffmanNode>
  {
    if path == [] then Some(t)
    else match t
      case Leaf(_, _) => None
      case Node(_, l, r) =>
        if path[0] == '0' then Follow(l, path[1..])
        else if path[0] == '1' then Follow(r, path[1..])
        else None
  }

  /** `path` leads from the root of `t` to a leaf holding `s`. */
  predicate LeafAtPath(t: HuffmanNode, path: string, s: char)
  {
    var n := Follow(t, path);
    n.Some? && n.value.Leaf? && n.value.data == s
  }

  // ---------------------------------------------------------------------
  // Shape and weight

  /** A tree is full: it has one more leaf than it has internal nodes. */
  lemma {:induction false} LeavesCount(t: HuffmanNode)
    ensures |Leaves(t)| == InternalCount(t) + 1
  {
    match t
    case Leaf(_, _) =>
    case Node(_, l, r) =>
      LeavesCount(l);
      LeavesCount(r);
  }

  lemma {:induction false} LeavesAreLeaves(t: HuffmanNode)
    ensures forall u | u in Leaves(t) :: u.Leaf? && u.data in Symbols(t)
  {
    match t
    case Leaf(_, _) =>
    case Node(_, l, r) =>
      LeavesAreLeaves(l);
      LeavesAreLeaves(r);
  }

  lemma {:induction false} SumFreqConcat(a: seq<HuffmanNode>, b: seq<HuffmanNode>)
    ensures SumFreq(a + b) == SumFreq(a) + SumFreq(b)
    decreases |b|
  {
    if b == [] {
      assert a + b == a;
    } else {
      var init, last := b[..|b| - 1], b[|b| - 1];
      var ab := a + b;
      assert ab[..|ab| - 1] == a + init && ab[|ab| - 1] == last;
      SumFreqConcat(a, init);
    }
  }

  lemma {:induction false} LeavesOfConcat(a: seq<HuffmanNode>, b: seq<HuffmanNode>)
    ensures LeavesOf(a + b) == LeavesOf(a) + LeavesOf(b)
    decreases |b|
  {
    if b == [] {
      assert a + b == a;
    } else {
      var init, last := b[..|b| - 1], b[|b| - 1];
      var ab := a + b;
      assert ab[..|ab| - 1] == a + init && ab[|ab| - 1] == last;
      LeavesOfConcat(a, init);
      calc {
        LeavesOf(ab);
        LeavesOf(a + init) + Leaves(last);
        (LeavesOf(a) + LeavesOf(init)) + Leaves(last);
        LeavesOf(a) + (LeavesOf(init) + Leaves(last));
        LeavesOf(a) + LeavesOf(b);
      }
    }
  }

  /** The queue without position `i`. */
  function RemoveAt(q: seq<HuffmanNode>, i: nat): seq<HuffmanNode>
    requires i < |q|
  {
    q[..i] + q[i + 1..]
  }

  /** Removing a position takes exactly that element out of the queue's
      contents; every element left was in the queue. */
  lemma RemoveAtContents(q: seq<HuffmanNode>, i: nat)
    requires i < |q|
    ensures |RemoveAt(q, i)| == |q| - 1
    ensures multiset(q) == multiset(RemoveAt(q, i)) + multiset{q[i]}
    ensures forall u | u in RemoveAt(q, i) :: u in q
  {
    assert q == q[..i] + [q[i]] + q[i + 1..];
  }

  /** Removing a position before the last one and then dropping the last
      element is dropping the last element and then removing that position. */
  lemma RemoveAtInit(q: seq<HuffmanNode>, i: nat)
    requires i < |q| - 1
    ensures |RemoveAt(q, i)| == |q| - 1
    ensures RemoveAt(q, i)[..|q| - 2] == RemoveAt(q[..|q| - 1], i)
    ensures RemoveAt(q, i)[|q| - 2] == q[|q| - 1]
  {
  }

  /** Taking the tree at position `i` out of a queue takes its count out of
      the queue's total. */
  lemma {:induction false} SumFreqRemoveAt(q: seq<HuffmanNode>, i: nat)
    requires i < |q|
    ensures SumFreq(q) == q[i].freq + SumFreq(RemoveAt(q, i))
    decreases |q|
  {
    var init := q[..|q| - 1];
    if i == |q| - 1 {
      assert RemoveAt(q, i) == init;
    } else {
      RemoveAtInit(q, i);
      SumFreqRemoveAt(init, i);
      assert init[i] == q[i];
    }
  }

  /** Taking the tree at position `i` out of a queue takes its leaves out of
      the queue's leaves. */
  lemma {:induction false} LeavesOfRemoveAt(q: seq<HuffmanNode>, i: nat)
    requires i < |q|
    ensures multiset(LeavesOf(q)) == multiset(Leaves(q[i])) + multiset(LeavesOf(RemoveAt(q, i)))
    decreases |q|
  {
    var init := q[..|q| - 1];
    if i == |q| - 1 {
      assert RemoveAt(q, i) == init;
    } else {
      var r, last := RemoveAt(q, i), q[|q| - 1];
      RemoveAtInit(q, i);
      LeavesOfRemoveAt(init, i);
      assert init[i] == q[i];
      assert LeavesOf(q) == LeavesOf(init) + Leaves(last);
      assert LeavesOf(r) == LeavesOf(RemoveAt(init, i)) + Leaves(last);
    }
  }

  /** Every node's count is the sum of the counts of the leaves below it. */
  lemma {:induction false} WeightIsLeafSum(t: HuffmanNode)
    requires WellWeighted(t)
    ensures t.freq == SumFreq(Leaves(t))
  {
    match t
    case Leaf(_, _) =>
      assert [t][..0] == [];
    case Node(_, l, r) =>
      WeightIsLeafSum(l);
      WeightIsLeafSum(r);
      SumFreqConcat(Leaves(l), Leaves(r));
  }

  lemma {:induction false} FreqsAtMostMono(t: HuffmanNode, lo: nat, hi: nat)
    requires FreqsAtMost(t, lo) && lo <= hi
    ensures FreqsAtMost(t, hi)
  {
    match t
    case Leaf(_, _) =>
    case Node(_, l, r) =>
      FreqsAtMostMono(l, lo, hi);
      FreqsAtMostMono(r, lo, hi);
  }

  /** In a well-weighted tree no node's count exceeds the root's. */
  lemma {:induction false} RootIsHeaviest(t: HuffmanNode)
    requires WellWeighted(t)
    ensures FreqsAtMost(t, t.freq)
  {
    match t
    case Leaf(_, _) =>
    case Node(_, l, r) =>
      RootIsHeaviest(l);
      RootIsHeaviest(r);
      FreqsAtMostMono(l, l.freq, t.freq);
      FreqsAtMostMono(r, r.freq, t.freq);
  }

  /** A multiset of distinct leaves: each occurs once and no two hold the
      same symbol. */
  ghost predicate UniqueLeaves(m: multiset<HuffmanNode>)
  {
    && (forall u | u in m :: u.Leaf? && m[u] == 1)
    && (forall u, v | u in m && v in m && u.data == v.data :: u == v)
  }

  lemma UniqueLeavesPart(m: multiset<HuffmanNode>, part: multiset<HuffmanNode>)
    requires UniqueLeaves(m) && part <= m
    ensures UniqueLeaves(part)
  {
    forall u | u in part
      ensures u.Leaf? && part[u] == 1
    {
      assert u in m;
    }
  }

  /** Two parts of a multiset of distinct leaves share no symbol. */
  lemma SeparateLeaves(ml: multiset<HuffmanNode>, mr: multiset<HuffmanNode>, u: HuffmanNode, v: HuffmanNode)
    requires UniqueLeaves(ml + mr) && u in ml && v in mr
    ensures u.data != v.data
  {
    var m := ml + mr;
    assert u in m && v in m;
  }

  /** A tree whose leaves, taken as a multiset, are distinct leaves has no
      symbol at two leaves. */
  lemma {:induction false} DistinctFromUniqueLeaves(t: HuffmanNode)
    requires UniqueLeaves(multiset(Leaves(t)))
    ensures Distinct(t)
  {
    match t
    case Leaf(_, _) =>
    case Node(_, l, r) =>
      var m, ml, mr := multiset(Leaves(t)), multiset(Leaves(l)), multiset(Leaves(r));
      assert m == ml + mr;
      UniqueLeavesPart(m, ml);
      UniqueLeavesPart(m, mr);
      DistinctFromUniqueLeaves(l);
      DistinctFromUniqueLeaves(r);
      forall s | s in Symbols(l)
        ensures s !in Symbols(r)
      {
        if s in Symbols(r) {
          SeparateLeaves(ml, mr, LeafOf(l, s), LeafOf(r, s));
        }
      }
  }

  // ---------------------------------------------------------------------
  // Root-to-leaf paths

  lemma {:induction false} FollowAppend(t: HuffmanNode, p: string, q: string)
    ensures Follow(t, p + q) == if Follow(t, p).None? then None else Follow(Follow(t, p).value, q)
    decreases |p|
  {
    if p == [] {
      assert p + q == q;
    } else {
      assert (p + q)[0] == p[0] && (p + q)[1..] == p[1..] + q;
      match t
      case Leaf(_, _) =>
      case Node(_, l, r) =>
        if p[0] == '0' {
          FollowAppend(l, p[1..], q);
        } else if p[0] == '1' {
          FollowAppend(r, p[1..], q);
        }
    }
  }

  /** A path to a leaf is a binary string, it ends at a symbol of the tree,
      and in a tree without repeated symbols its length is that leaf's
      depth. */
  lemma {:induction false} LeafPathFacts(t: HuffmanNode, p: string, s: char)
    requires LeafAtPath(t, p, s)
    ensures s in Symbols(t) && IsBinary(p)
    ensures Distinct(t) ==> |p| == Depth(t, s)
    decreases |p|
  {
    match t
    case Leaf(_, _) =>
    case Node(_, l, r) =>
      if p[0] == '0' {
        LeafPathFacts(l, p[1..], s);
      } else {
        LeafPathFacts(r, p[1..], s);
      }
      assert p == [p[0]] + p[1..];
  }

  /** Of two paths to leaves, the first can be a prefix of the second only
      when both are the same path, to the same leaf. */
  lemma LeafPathsPrefixFree(t: HuffmanNode, p1: string, s1: char, p2: string, s2: char)
    requires LeafAtPath(t, p1, s1) && LeafAtPath(t, p2, s2)
    requires p1 <= p2
    ensures p1 == p2 && s1 == s2
  {
    var rest := p2[|p1|..];
    assert p2 == p1 + rest;
    FollowAppend(t, p1, rest);
  }

  /** In a tree without repeated symbols each symbol has one path. */
  lemma {:induction false} LeafPathUnique(t: HuffmanNode, p1: string, p2: string, s: char)
    requires Distinct(t)
    requires LeafAtPath(t, p1, s) && LeafAtPath(t, p2, s)
    ensures p1 == p2
    decreases |p1|
  {
    match t
    case Leaf(_, _) =>
    case Node(_, l, r) =>
      var c1, c2 := p1[0], p2[0];
      var sub1 := if c1 == '0' then l else r;
      var sub2 := if c2 == '0' then l else r;
      LeafPathFacts(sub1, p1[1..], s);
      LeafPathFacts(sub2, p2[1..], s);
      assert c1 == c2;
      LeafPathUnique(sub1, p1[1..], p2[1..], s);
      assert p1 == [c1] + p1[1..] && p2 == [c2] + p2[1..];
  }

}

/**
  The code table: a pre-order walk of the tree that appends '0' for a step
  to the left child and '1' for a step to the right child, and records the
  path so far at every leaf.
 */
module Codes {
  import opened Wrappers
  import opened HuffmanTree

  /** `generateCodes(root, code, huffmanCodes)`: the table passed by
      reference is threaded through the walk, the left subtree first. A leaf
      overwrites the entry of its symbol with the path that led to it; an
      internal node records nothing. Entries for symbols outside the tree
      are left as they were. */
  function GenerateCodes(t: HuffmanNode, code: string, huffmanCodes: map<char, string>): (r: map<char, string>)
    ensures r.Keys == huffmanCodes.Keys + Symbols(t)
    ensures forall c | c in huffmanCodes && c !in Symbols(t) :: r[c] == huffmanCodes[c]
  {
    match t
    case Leaf(d, _) => huffmanCodes[d := code]
    case Node(_, lt, rt) => GenerateCodes(rt, code + "1", GenerateCodes(lt, code + "0", huffmanCodes))
  }

  /** No code of the table is a prefix of the code of another symbol. */
  predicate PrefixFree(codes: map<char, string>)
  {
    forall a, b | a in codes && b in codes && a != b :: !(codes[a] <= codes[b])
  }

  /** The code of `s` in `codes` is `code` followed by a path of `t` that
      ends at a leaf holding `s`. */
  predicate CodeFollows(t: HuffmanNode, codes: map<char, string>, code: string, s: char)
  {
    s in codes && code <= codes[s] && LeafAtPath(t, codes[s][|code|..], s)
  }

  /** Every symbol of the tree ends up with the prefix `code` followed by a
      path of the tree that ends at a leaf holding that symbol. */
  lemma {:induction false} GenerateCodesPaths(t: HuffmanNode, code: string, huffmanCodes: map<char, string>)
    ensures forall s | s in Symbols(t) :: CodeFollows(t, GenerateCodes(t, code, huffmanCodes), code, s)
    decreases t
  {
    match t
    case Leaf(d, _) =>
      var r := GenerateCodes(t, code, huffmanCodes);
      assert r[d][|code|..] == [];
    case Node(_, lt, rt) =>
      var m1 := GenerateCodes(lt, code + "0", huffmanCodes);
      var r := GenerateCodes(rt, code + "1", m1);
      assert r == GenerateCodes(t, code, huffmanCodes);
      GenerateCodesPaths(lt, code + "0", huffmanCodes);
      GenerateCodesPaths(rt, code + "1", m1);
      forall s | s in Symbols(t)
        ensures CodeFollows(t, r, code, s)
      {
        if s in Symbols(rt) {
          StepDown(t, r, code, '1', s);
        } else {
          assert r[s] == m1[s];
          StepDown(t, r, code, '0', s);
        }
      }
  }

  /** A code that extends `code` by one step and then follows a path of a
      child to a leaf follows a path of the parent from `code` on. */
  lemma StepDown(t: HuffmanNode, codes: map<char, string>, code: string, step: char, s: char)
    requires t.Node? && (step == '0' || step == '1')
    requires CodeFollows(if step == '0' then t.left else t.right, codes, code + [step], s)
    ensures CodeFollows(t, codes, code, s)
  {
    var w := codes[s];
    var p := w[|code|..];
    assert w[..|code|] == w[..|code| + 1][..|code|];
    assert p[0] == step && p[1..] == w[|code| + 1..];
  }

  /** The table built from an empty one by a walk from the root (as main
      does): its keys are the symbols of the tree, each code is the path to a
      leaf holding that symbol, a string of '0' and '1' as long as the
      leaf's depth, and, when no symbol occurs twice, each leaf's path is the
      code of its symbol. A lone leaf gets the empty code; below a root
      with children every code is at least one bit long. */
  lemma CodesAreLeafPaths(t: HuffmanNode)
    ensures GenerateCodes(t, "", map[]).Keys == Symbols(t)
    ensures forall s | s in GenerateCodes(t, "", map[]) ::
      var p := GenerateCodes(t, "", map[])[s];
      LeafAtPath(t, p, s) && IsBinary(p) && (Distinct(t) ==> |p| == Depth(t, s))
    ensures Distinct(t) ==> forall p, s | LeafAtPath(t, p, s) ::
      s in GenerateCodes(t, "", map[]) && GenerateCodes(t, "", map[])[s] == p
    ensures t.Leaf? ==> GenerateCodes(t, "", map[]) == map[t.data := ""]
    ensures t.Node? ==> forall s | s in GenerateCodes(t, "", map[]) :: GenerateCodes(t, "", map[])[s] != []
  {
    var codes := GenerateCodes(t, "", map[]);
    GenerateCodesPaths(t, "", map[]);
    forall s | s in codes
      ensures LeafAtPath(t, codes[s], s)
    {
      assert CodeFollows(t, codes, "", s);
      assert codes[s][0..] == codes[s];
    }
    forall s | s in codes
      ensures IsBinary(codes[s]) && (Distinct(t) ==> |codes[s]| == Depth(t, s))
    {
      LeafPathFacts(t, codes[s], s);
    }
    if Distinct(t) {
      forall p, s | LeafAtPath(t, p, s)
        ensures s in codes && codes[s] == p
      {
        LeafPathFacts(t, p, s);
        LeafPathUnique(t, p, codes[s], s);
      }
    }
    if t.Node? {
      forall s | s in codes
        ensures codes[s] != []
      {
        assert LeafAtPath(t, codes[s], s);
      }
    }
  }

  /** The codes of the table are prefix-free: two different symbols never
      have codes one of which starts the other. */
  lemma CodesPrefixFree(t: HuffmanNode)
    ensures PrefixFree(GenerateCodes(t, "", map[]))
  {
    var codes := GenerateCodes(t, "", map[]);
    CodesAreLeafPaths(t);
    forall a, b | a in codes && b in codes && codes[a] <= codes[b]
      ensures a == b
    {
      LeafPathsPrefixFree(t, codes[a], a, codes[b], b);
    }
  }

}

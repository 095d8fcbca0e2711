/**
  The whole of main without its output: count, build the tree, walk it for
  the codes, and compress the text with them.
 */
module Pipeline {
  import opened HuffmanTree
  import opened Frequency
  import opened TreeBuilder
  import opened Codes
  import opened Compression

  /** main on an arbitrary non-empty text (main itself runs on one fixed
      quotation; `pq.top()` on an empty queue is undefined, so an empty text
      is outside what the program handles). */
  method Run(text: string)
    returns (root: HuffmanNode, codes: map<char, string>, compressed: string, ghost states: seq<multiset<HuffmanNode>>)
    requires |text| > 0
    ensures multiset(Leaves(root)) == multiset(LeafSet(Frequencies(text)))
    ensures |states| == |Frequencies(text)| >= 1
    ensures states[0] == multiset(LeafSet(Frequencies(text))) && states[|states| - 1] == multiset{root}
    ensures forall k | 0 <= k < |states| - 1 :: MergeStep(states[k], states[k + 1])
    ensures WellWeighted(root) && root.freq == |text| && FreqsAtMost(root, |text|)
    ensures Distinct(root) && Symbols(root) == set c | c in text
    ensures codes.Keys == set c | c in text
    ensures forall c | c in codes :: LeafAtPath(root, codes[c], c) && |codes[c]| == Depth(root, c)
    ensures PrefixFree(codes)
    ensures compressed == Encode(text, codes)
    ensures |compressed| == Total(CodeCost(Frequencies(text), codes))
    ensures |codes| == 1 ==> root.Leaf? && codes == map[text[0] := ""] && compressed == []
    ensures |codes| > 1 ==> forall c | c in codes :: codes[c] != []
    ensures |codes| > 1 ==> forall t | (forall c | c in t :: c in codes) && Encode(t, codes) == compressed :: t == text
  {
    var freq := CountFrequencies(text);
    var seed := Seed(freq);
    SeedsAreLeaves(seed, freq);
    root, states := BuildTree(seed);
    TreeOverTable(root, freq);
    RootIsHeaviest(root);
    codes := GenerateCodes(root, "", map[]);
    TableForText(text, root, codes);
    var table;
    compressed, table := Compress(text, codes);
    EncodeLength(text, codes);
  }

  /** The table that the walk of a tree over the text's characters builds:
      one code per character, each the path to its leaf, prefix-free; a
      lone character's code is empty and so is the output, and otherwise
      every code is non-empty and the output belongs to this text alone. */
  lemma TableForText(text: string, root: HuffmanNode, codes: map<char, string>)
    requires |text| > 0
    requires Distinct(root) && Symbols(root) == set c | c in text
    requires codes == GenerateCodes(root, "", map[])
    ensures codes.Keys == set c | c in text
    ensures forall c | c in codes :: LeafAtPath(root, codes[c], c) && |codes[c]| == Depth(root, c)
    ensures PrefixFree(codes)
    ensures |codes| == 1 ==> root.Leaf? && codes == map[text[0] := ""] && Encode(text, codes) == []
    ensures |codes| > 1 ==> forall c | c in codes :: codes[c] != []
    ensures |codes| > 1 ==> forall t | (forall c | c in t :: c in codes) && Encode(t, codes) == Encode(text, codes) :: t == text
  {
    CodesAreLeafPaths(root);
    CodesPrefixFree(root);
    SymbolCount(root);
    if root.Leaf? {
      assert text[0] in Symbols(root);
      EncodeEmptyCodes(text, codes);
    } else {
      EncodingDeterminesText(text, codes);
    }
  }

  /** The seeds drawn from a table are leaves. */
  lemma SeedsAreLeaves(seed: seq<HuffmanNode>, freq: map<char, nat>)
    requires multiset(seed) == multiset(LeafSet(freq))
    ensures forall t | t in seed :: t.Leaf?
  {
    forall t | t in seed
      ensures t.Leaf?
    {
      assert t in multiset(LeafSet(freq));
    }
  }

}

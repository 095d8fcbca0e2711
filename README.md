# Huffman coding of one text, modelled in Dafny

This project models the Huffman coder in `main.cpp`. The program runs in four steps:

1. It counts how often each character occurs in a text.
2. It seeds a min-priority queue with one leaf per character. It then keeps merging the two trees of least count under a new node until only one tree is left.
3. It walks that tree in pre-order to build the code table: '0' for a step to the left, '1' for a step to the right, and a code recorded at every leaf.
4. It concatenates the codes of the text's characters.

Modules, one per file:

- `Wrappers` (`wrappers.dfy`): `Option`.
- `HuffmanTree` (`huffman_tree.dfy`):
  - the node type and the queue's comparator;
  - leaf lists, weights and depths;
  - `Follow`, a walk down the tree by a string of '0'/'1'. It is the reference meaning of a code.
- `Frequency` (`frequency.dfy`): the counting loop, proved equal to a reference table built from the text's multiset.
- `TreeBuilder` (`tree_builder.dfy`):
  - the seeding loop and the merge loop;
  - the queue is a sequence whose order means nothing;
  - a pop returns *some* element of least count, picked nondeterministically. `std::priority_queue` promises no tie-break either.
  - The merge loop also returns a ghost trace of the queue's contents. Each state is one greedy merge away from the one before it.
- `Codes` (`codes.dfy`): `generateCodes`, modelled as a function that threads the by-reference table through the walk.
- `Compression` (`compress.dfy`):
  - `compress`, with a reference encoding `Encode`;
  - the length of the output and unique decodability.
- `Pipeline` (`pipeline.dfy`): `main` without its output, run on any non-empty text.

How the model stands in for C++ constructs:

- **Maps passed by reference.** The model returns the updated map. `Compress` does this with `huffmanCodes`, and `GenerateCodes` threads its table in and out.
- **Characters.** A text is modelled as one Dafny `char` per byte of the `std::string`, because `for (char c : text)` walks it byte by byte. A multi-byte UTF-8 character is therefore several symbols to the program. No result depends on the alphabet.
- **Counts** are `nat`.

## Model

| member | source | states |
|---|---|---|
| HuffmanTree.HuffmanNode | main.cpp:9-15 | A node is a leaf with a character and its count, or an internal node with a count and two children. The source's null child pointers are the leaf case; internal nodes' unused `'\0'` character is dropped. |
| HuffmanTree.CompareIsStrictWeakOrder | main.cpp:17-21 | `Compare` (`a.freq > b.freq`) is irreflexive, asymmetric and transitive, and two nodes that neither outranks have equal counts: the strict weak order a priority queue needs. |
| TreeBuilder.TopIsLeast | main.cpp:17-21 | Under `Compare` the queue's top is exactly an element of least count. |
| Frequency.Increment | main.cpp:72 | `freq[c]++`: the keys gain `c`. A present count goes up by one, a missing one starts at 1, and every other entry is unchanged. |
| Frequency.FrequenciesKeys | main.cpp:71-72 | The reference table holds exactly the text's characters, each with its number of occurrences, at least 1. |
| Frequency.CountFrequencies | main.cpp:71-72 | The table maps exactly the characters of the text. Each count is the number of occurrences, at least 1. The counts add up to the length of the text. |
| Frequency.FrequenciesTotal | main.cpp:71-72 | The counts of the reference table add up to the length of the text. |
| Frequency.TotalAdd | main.cpp:72 | Adding `d` to one entry adds `d` to the table's total. A missing entry starts at 0, as `freq[c]++` does. |
| TreeBuilder.Seed | main.cpp:74-77 | The queue holds exactly one leaf `Leaf(c, freq[c])` per table entry, as a multiset, whatever the table's iteration order. Its total count is the table's total. |
| TreeBuilder.TopExists | main.cpp:17-21 | Every non-empty queue has an element that no other element outranks under `Compare`. |
| TreeBuilder.PopTop | main.cpp:80-81 | `top(); pop()` removes one element and keeps the rest. The removed element has a count no greater than any element left. Total count and leaves are split between the removed tree and the rest. |
| TreeBuilder.GreedyMergeFacts | main.cpp:80-85 | One merge shrinks the queue by one. The first tree popped (left) has count ≤ the second (right), and that is ≤ every tree left behind. |
| TreeBuilder.PopsAreGreedy | main.cpp:80-85 | Two pops of a least element followed by a push of their sum node form one greedy merge of the queue's contents: left first, right second. |
| TreeBuilder.MergeLeastTwo | main.cpp:80-85 | The body of the merge loop: the queue gets one shorter and its contents move by one greedy merge. Every tree stays well-weighted, and the total count and the seeds as leaves are kept. |
| TreeBuilder.MergeTurn | main.cpp:80-85 | Two pops of a least tree, followed by a push of the node that joins them, make one greedy merge of the contents. They keep every tree well-weighted, the total count, and the seeds as the leaves. |
| TreeBuilder.TraceEnds | main.cpp:79-89 | Once the loop leaves one tree, the trace runs from the seeds to that tree, one greedy merge per step. |
| TreeBuilder.BuildTree | main.cpp:79-86 | The loop runs `k-1` times (the trace has `k` states, from the seeds to `{root}`) and each step is a greedy merge. The root is well-weighted. Its count is the seeds' total, its leaves are the seeds, and it has `k-1` internal nodes. |
| TreeBuilder.TreeOverTable | main.cpp:75-86 | A tree whose leaves are the seeds of a table holds exactly the table's symbols. No symbol appears twice, and there is one leaf per entry. |
| HuffmanTree.LeavesCount | main.cpp:79-86 | A full binary tree has one more leaf than it has internal nodes. |
| HuffmanTree.WeightIsLeafSum | main.cpp:82 | In a well-weighted tree, every node's count is the sum of its leaves' counts. |
| HuffmanTree.RootIsHeaviest | main.cpp:82 | In a well-weighted tree, no node's count exceeds the root's. |
| HuffmanTree.LeafPathFacts | main.cpp:30-31 | A path to a leaf is a string of '0'/'1' that ends at one of the tree's symbols. When no symbol repeats, its length is that leaf's depth. |
| HuffmanTree.LeafPathsPrefixFree | main.cpp:26-31 | A path to a leaf that is a prefix of another path to a leaf is that same path, to the same symbol. |
| HuffmanTree.LeafPathUnique | main.cpp:26-31 | When no symbol repeats, each symbol has exactly one path to a leaf. |
| Codes.GenerateCodes | main.cpp:23-32 | The walk adds exactly the tree's symbols to the table's keys and leaves the entries of other symbols unchanged. |
| Codes.GenerateCodesPaths | main.cpp:26-31 | Every symbol of the tree ends up with code `code` followed by a path of the tree that leads to a leaf holding that symbol. |
| Codes.CodesAreLeafPaths | main.cpp:89-90 | Starting from an empty table at the root:<br>- the keys are the tree's symbols;<br>- each code leads to its symbol's leaf and is binary;<br>- when no symbol repeats, each code is as long as that leaf's depth, and every leaf path is the recorded code;<br>- a lone leaf gets `""`;<br>- below an internal root every code is non-empty. |
| HuffmanTree.SymbolCount | main.cpp:79-86 | Every tree holds a symbol. An internal node of a tree in which no symbol repeats holds at least two, so a text with one distinct character ends with a lone leaf. |
| Codes.CodesPrefixFree | main.cpp:23-32 | No code in the table is a prefix of another symbol's code. |
| Compression.Compress | main.cpp:59-65 | The output is the codes of the text's characters, concatenated in order. Each `huffmanCodes[c]` reads the stored code of `c`, or the `""` it inserts when `c` has none. The returned table gains that empty code for each character it lacked and is otherwise unchanged. |
| Compression.EncodeAppend | main.cpp:61-63 | The encoding of a concatenation is the concatenation of the encodings. |
| Compression.EncodeLength | main.cpp:59-65 | The output length is the sum over characters of count × code length. |
| Compression.EncodeEmptyCodes | main.cpp:59-65 | If every character of the text has the empty code, the output is empty. |
| Compression.EncodeInjective | main.cpp:59-65 | With a prefix-free table of non-empty codes, two texts over its symbols that have the same output are the same text. |
| Compression.EncodingDeterminesText | main.cpp:59-65 | With a prefix-free table of non-empty codes, a text over the table is the only such text that has its output. |
| Pipeline.TableForText | main.cpp:89-95 | The table from the walk of a tree holding each of the text's characters once has:<br>- one code per character, the path to its leaf, as long as its depth;<br>- prefix-free codes;<br>- for one character, `{c: ""}` and an empty output;<br>- otherwise, non-empty codes and an output belonging to this text alone. |
| Pipeline.Run | main.cpp:67-96 | For a non-empty text:<br>- the tree's leaves are exactly `Leaf(c, count of c)` for the text's characters;<br>- a ghost trace of `k` queue states (`k` distinct characters) runs from those leaves to `{root}`, each state one greedy merge of the two least counts away from the last;<br>- the root is well-weighted, its count equals the text's length, and no node exceeds that count;<br>- the tree holds exactly the text's characters, each once;<br>- each code leads to its character's leaf and is as long as that leaf's depth;<br>- the table is prefix-free;<br>- the output is the reference encoding, with length Σ count × code length;<br>- with one distinct character: the root is a leaf, the table is `{c: ""}` and the output is empty;<br>- otherwise: every code is non-empty, and the output decodes to this text alone. |

## Where the code departs from a textbook Huffman coder

- **A lone leaf gets the empty code.** A textbook coder gives the only symbol of a text with one distinct character the code "0". `generateCodes` (main.cpp:26-28) records `""` instead. The model follows the code: `Codes.CodesAreLeafPaths` and `Pipeline.Run` state that such a table is `{c: ""}` and the compressed output is empty.
- **A missing character yields an empty code.** An encoder could reject a character that has no code. `compress` reads the table with `operator[]` (main.cpp:62), which inserts `""` and appends nothing. `Compression.Compress` models exactly that and returns the table with the inserted keys.
- **Internal nodes carry no character.** In the source they hold `'\0'`, but that value is never read, because codes are recorded only at leaves. The model's `Node` has no character field.

## Left out

- `printHuffmanCodes` (main.cpp:34-57) and all `cout` output: output only. The intended `sort` at line 41 is missing its function name: the parenthesised comma expression evaluates its operands and discards them, so the table is printed in the map's own order.
- Original size, compressed size and the `float` compression ratio (main.cpp:100-103): floating point and output. The compressed size is `|compressed|`, which `Pipeline.Run` relates to the counts and code lengths. For a text with one distinct character, such as "aaaa", the output is empty and the ratio divides by zero, which the model shows but does not evaluate.
- The fixed quotation in `main`: `Pipeline.Run` takes any non-empty text instead. An empty text is excluded because `pq.top()` on an empty queue is undefined.
- Heap allocation and the nodes never freed: memory management is not modelled, and trees are values.
- The internals of `std::unordered_map` and `std::priority_queue`:
  - the table is a Dafny `map` and its iteration order is arbitrary (`:|`);
  - the queue is a sequence, and a pop takes any least element.
- Frequency.CountFrequencies: counts are unbounded naturals where the source uses `int`. `Pipeline.Run` proves no node's count exceeds the text's length, so overflow would need a text of 2^31 or more characters, which is not modelled.
- Decoding: the program has no decoder. `Compression.EncodeInjective` states that the output can be decoded uniquely.
- Optimality of the tree (minimum total code length): not proved. `TreeBuilder.BuildTree` proves that each step is the greedy merge of the two least counts.

/**
  Compression: the codes of the symbols of the text, one after another.
 */
module Compression {
  import opened Frequency
  import opened Codes

  /** What `huffmanCodes[c]` reads: the code of `c`, or the empty string that
      `operator[]` inserts for a symbol without an entry. */
  function Lookup(codes: map<char, string>, c: char): string
  {
    if c in codes then codes[c] else ""
  }

  /** The reference encoding: the code of the first symbol, then the
      encoding of the rest. */
  function Encode(text: string, codes: map<char, string>): string
    decreases |text|
  {
    if text == [] then [] else Lookup(codes, text[0]) + Encode(text[1..], codes)
  }

  /** Encoding distributes over concatenation of texts. */
  lemma {:induction false} EncodeAppend(a: string, b: string, codes: map<char, string>)
    ensures Encode(a + b, codes) == Encode(a, codes) + Encode(b, codes)
    decreases |a|
  {
    if a == [] {
      assert a + b == b;
    } else {
      assert (a + b)[1..] == a[1..] + b;
      EncodeAppend(a[1..], b, codes);
    }
  }

  /** The bits each symbol contributes: its count times the length of its
      code. */
  function CodeCost(freq: map<char, nat>, codes: map<char, string>): map<char, nat>
  {
    map c | c in freq :: freq[c] * |Lookup(codes, c)|
  }

  /** The length of the encoding is the sum, over the symbols of the text,
      of each symbol's count times the length of its code. */
  lemma {:induction false} EncodeLength(text: string, codes: map<char, string>)
    ensures |Encode(text, codes)| == Total(CodeCost(Frequencies(text), codes))
    decreases |text|
  {
    if text == [] {
      assert CodeCost(Frequencies(text), codes) == map[];
    } else {
      var t, c := text[..|text| - 1], text[|text| - 1];
      assert text == t + [c];
      var bits := |Lookup(codes, c)|;
      EncodeLength(t, codes);
      EncodeAppend(t, [c], codes);
      assert Encode([c], codes) == Lookup(codes, c) + Encode([], codes);
      assert |Encode(text, codes)| == |Encode(t, codes)| + bits;
      FrequenciesSnoc(t, c);
      CodeCostIncrement(Frequencies(t), codes, c);
    }
  }

  /** One more occurrence of `c` adds the length of its code to its cost. */
  lemma CodeCostIncrement(freq: map<char, nat>, codes: map<char, string>, c: char)
    ensures Total(CodeCost(Increment(freq, c), codes)) == Total(CodeCost(freq, codes)) + |Lookup(codes, c)|
  {
    CodeCostUpdate(freq, codes, c);
    var m := CodeCost(freq, codes);
    TotalAdd(m, c, |Lookup(codes, c)|);
  }

  lemma CodeCostUpdate(freq: map<char, nat>, codes: map<char, string>, c: char)
    ensures var m := CodeCost(freq, codes);
      CodeCost(Increment(freq, c), codes) == m[c := (if c in m then m[c] else 0) + |Lookup(codes, c)|]
  {
    var m, m' := CodeCost(freq, codes), CodeCost(Increment(freq, c), codes);
    var n := m[c := (if c in m then m[c] else 0) + |Lookup(codes, c)|];
    assert m'.Keys == n.Keys;
    forall d | d in m'
      ensures m'[d] == n[d]
    {
      if d == c {
        var k := if c in freq then freq[c] else 0;
        assert m'[d] == (k + 1) * |Lookup(codes, c)| == k * |Lookup(codes, c)| + |Lookup(codes, c)|;
      }
    }
  }

  /** With an empty code for every symbol, as a lone leaf's table has, the
      encoding is empty. */
  lemma {:induction false} EncodeEmptyCodes(text: string, codes: map<char, string>)
    requires forall c | c in text :: Lookup(codes, c) == []
    ensures Encode(text, codes) == []
    decreases |text|
  {
    if text != [] {
      assert forall c | c in text[1..] :: c in text;
      EncodeEmptyCodes(text[1..], codes);
    }
  }

  /** A prefix-free table of non-empty codes decodes uniquely: two texts
      over its symbols with the same encoding are the same text. */
  lemma {:induction false} EncodeInjective(t1: string, t2: string, codes: map<char, string>)
    requires PrefixFree(codes)
    requires forall c | c in codes :: codes[c] != []
    requires forall c | c in t1 :: c in codes
    requires forall c | c in t2 :: c in codes
    requires Encode(t1, codes) == Encode(t2, codes)
    ensures t1 == t2
    decreases |t1|
  {
    if t1 != [] && t2 != [] {
      var a, b := t1[0], t2[0];
      assert a in t1 && b in t2;
      var e1, e2 := Encode(t1[1..], codes), Encode(t2[1..], codes);
      SplitConcat(codes[a], e1, codes[b], e2);
      assert a == b;
      assert forall c | c in t1[1..] :: c in t1;
      assert forall c | c in t2[1..] :: c in t2;
      EncodeInjective(t1[1..], t2[1..], codes);
      assert t1 == [a] + t1[1..] && t2 == [b] + t2[1..];
    }
  }

  /** A text over a prefix-free table of non-empty codes is the only text
      over that table with its encoding. */
  lemma EncodingDeterminesText(text: string, codes: map<char, string>)
    requires PrefixFree(codes)
    requires forall c | c in codes :: codes[c] != []
    requires forall c | c in text :: c in codes
    ensures forall t | (forall c | c in t :: c in codes) && Encode(t, codes) == Encode(text, codes) :: t == text
  {
    forall t | (forall c | c in t :: c in codes) && Encode(t, codes) == Encode(text, codes)
      ensures t == text
    {
      EncodeInjective(t, text, codes);
    }
  }

  /** Two ways of cutting one string: one head is a prefix of the other,
      and equal heads leave equal tails. */
  lemma SplitConcat(x: string, e1: string, y: string, e2: string)
    requires x + e1 == y + e2
    ensures x <= y || y <= x
    ensures x == y ==> e1 == e2
  {
    var w := x + e1;
    assert w[..|x|] == x && w[..|y|] == y;
    assert w[|x|..] == e1 && w[|y|..] == e2;
  }

  /** `compress(text, huffmanCodes)`: one `compressed += huffmanCodes[c]` per
      symbol, in order. The table is passed by reference and `operator[]`
      inserts the empty code for a symbol it lacks, so the table comes back
      with those symbols added and nothing else changed. */
  method Compress(text: string, huffmanCodes: map<char, string>) returns (compressed: string, table: map<char, string>)
    ensures compressed == Encode(text, huffmanCodes)
    ensures table.Keys == huffmanCodes.Keys + (set c | c in text)
    ensures forall c | c in huffmanCodes :: table[c] == huffmanCodes[c]
    ensures forall c | c in table && c !in huffmanCodes :: table[c] == []
  {
    compressed, table := [], huffmanCodes;
    for i := 0 to |text|
      invariant compressed == Encode(text[..i], huffmanCodes)
      invariant forall c :: c in table <==> c in huffmanCodes || c in text[..i]
      invariant forall c | c in table :: table[c] == Lookup(huffmanCodes, c)
    {
      var c := text[i];
      if c !in table {
        table := table[c := ""];
      }
      assert text[..i + 1] == text[..i] + [c];
      EncodeAppend(text[..i], [c], huffmanCodes);
      assert Encode([c], huffmanCodes) == Lookup(huffmanCodes, c) + Encode([], huffmanCodes);
      compressed := compressed + table[c];
    }
    assert text[..|text|] == text;
    assert table.Keys == huffmanCodes.Keys + (set c | c in text);
  }

}

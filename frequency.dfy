/**
  The frequency table: for each symbol of the input, the number of positions
  at which it occurs.
 */
module Frequency {

  /** The reference table: every symbol that occurs in `text`, mapped to its
      number of occurrences (the multiplicity of the symbol in `text`). */
  function Frequencies(text: string): map<char, nat>
  {
    map c | c in text :: multiset(text)[c]
  }

  /** The effect of `freq[c]++` on a table: a missing entry starts at 0. */
  function Increment(freq: map<char, nat>, c: char): (r: map<char, nat>)
    ensures r.Keys == freq.Keys + {c}
    ensures c in freq ==> r[c] == freq[c] + 1
    ensures c !in freq ==> r[c] == 1
    ensures forall d | d in freq && d != c :: r[d] == freq[d]
  {
    freq[c := (if c in freq then freq[c] else 0) + 1]
  }

  /** The sum of the entries of `m` at `keys`. */
  ghost function SumOver(m: map<char, nat>, keys: set<char>): nat
    requires keys <= m.Keys
    decreases keys
  {
    if keys == {} then 0
    else
      var k :| k in keys;
      m[k] + SumOver(m, keys - {k})
  }

  /** The sum of all entries of `m`. */
  ghost function Total(m: map<char, nat>): nat
  {
    SumOver(m, m.Keys)
  }

  /** The sum does not depend on which key is taken out first. */
  lemma {:induction false} SumOverRemove(m: map<char, nat>, keys: set<char>, k: char)
    requires keys <= m.Keys && k in keys
    ensures SumOver(m, keys) == m[k] + SumOver(m, keys - {k})
    decreases keys
  {
    var j :| j in keys && SumOver(m, keys) == m[j] + SumOver(m, keys - {j});
    if j != k {
      SumOverRemove(m, keys - {j}, k);
      SumOverRemove(m, keys - {k}, j);
      assert keys - {j} - {k} == keys - {k} - {j};
    }
  }

  /** The sum over `keys` reads only the entries at `keys`. */
  lemma {:induction false} SumOverAgree(m1: map<char, nat>, m2: map<char, nat>, keys: set<char>)
    requires keys <= m1.Keys && keys <= m2.Keys
    requires forall k | k in keys :: m1[k] == m2[k]
    ensures SumOver(m1, keys) == SumOver(m2, keys)
    decreases keys
  {
    if keys != {} {
      var k :| k in keys;
      SumOverRemove(m1, keys, k);
      SumOverRemove(m2, keys, k);
      SumOverAgree(m1, m2, keys - {k});
    }
  }

  /** Adding an entry for a new key adds its value to the total. */
  lemma TotalInsert(m: map<char, nat>, c: char, v: nat)
    requires c !in m
    ensures Total(m[c := v]) == Total(m) + v
  {
    var m' := m[c := v];
    assert m'.Keys - {c} == m.Keys;
    SumOverRemove(m', m'.Keys, c);
    SumOverAgree(m', m, m.Keys);
  }

  /** Adding `d` to one entry, a missing entry counting as 0, adds `d` to
      the total; with `d == 1` this is one `freq[c]++`. */
  lemma TotalAdd(m: map<char, nat>, c: char, d: nat)
    ensures Total(m[c := (if c in m then m[c] else 0) + d]) == Total(m) + d
  {
    var m' := m[c := (if c in m then m[c] else 0) + d];
    if c in m {
      assert m'.Keys == m.Keys;
      SumOverRemove(m', m.Keys, c);
      SumOverRemove(m, m.Keys, c);
      SumOverAgree(m', m, m.Keys - {c});
    } else {
      TotalInsert(m, c, d);
    }
  }

  /** Reading one more symbol increments its entry and leaves the others. */
  lemma FrequenciesSnoc(text: string, c: char)
    ensures Frequencies(text + [c]) == Increment(Frequencies(text), c)
  {
    var t' := text + [c];
    assert multiset(t') == multiset(text) + multiset{c};
    assert forall d :: d in t' <==> d in text || d == c;
  }

  /** The counts of the reference table add up to the length of the text. */
  lemma {:induction false} FrequenciesTotal(text: string)
    ensures Total(Frequencies(text)) == |text|
    decreases |text|
  {
    if text == [] {
      assert Frequencies(text) == map[];
    } else {
      var t, c := text[..|text| - 1], text[|text| - 1];
      assert text == t + [c];
      FrequenciesTotal(t);
      FrequenciesSnoc(t, c);
      TotalAdd(Frequencies(t), c, 1);
    }
  }

  /** The counting loop: one `freq[c]++` per character of `text`, in order. */
  method CountFrequencies(text: string) returns (freq: map<char, nat>)
    ensures freq == Frequencies(text)
    ensures freq.Keys == set c | c in text
    ensures forall c | c in freq :: freq[c] == multiset(text)[c] && freq[c] >= 1
    ensures Total(freq) == |text|
  {
    freq := map[];
    for i := 0 to |text|
      invariant freq == Frequencies(text[..i])
    {
      FrequenciesSnoc(text[..i], text[i]);
      assert text[..i + 1] == text[..i] + [text[i]];
      freq := Increment(freq, text[i]);
    }
    assert text[..|text|] == text;
    FrequenciesKeys(text);
    FrequenciesTotal(text);
  }

  /** The reference table holds exactly the symbols of the text, each with a
      positive count. */
  lemma FrequenciesKeys(text: string)
    ensures Frequencies(text).Keys == set c | c in text
    ensures forall c | c in Frequencies(text) :: Frequencies(text)[c] == multiset(text)[c] >= 1
  {
  }

}

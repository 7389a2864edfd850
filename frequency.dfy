/** Frequency analysis: how often each byte occurs in the input. */
module Frequency {
  import opened Alphabet

  /** Byte -> occurrence count (the source's unordered_map<char, unsigned>). */
  type FreqTable = map<Byte, nat>

  /** The frequency table of `data`: each byte that occurs, with its number of occurrences. */
  function FreqOf(data: seq<Byte>): (freq: FreqTable)
    ensures forall b | b in freq :: 0 < freq[b] <= |data|
  {
    var m := multiset(data);
    assert forall b | b in data :: m[b] <= |m| by {
      forall b | b in data
        ensures m[b] <= |m|
      {
        CountAtMostSize(m, b);
      }
    }
    map b | b in data :: m[b]
  }

  /** No element occurs in a multiset more often than the multiset has elements. */
  lemma CountAtMostSize(m: multiset<Byte>, b: Byte)
    ensures m[b] <= |m|
  {
    var rest := m[b := 0];
    assert m == rest + multiset{}[b := m[b]];
  }

  /** The count a table holds for `c`; `operator[]` reads a missing key as 0. */
  function CountOf(m: FreqTable, c: Byte): nat {
    if c in m then m[c] else 0
  }

  /** A table with no entry for any byte is the empty table. */
  lemma EmptyIfNoKey(m: FreqTable)
    requires forall b :: b !in m
    ensures m == map[]
  {
    forall b ensures b !in m {}
    assert m.Keys == {};
  }

  /** A non-empty table has a key. */
  lemma HasKey(m: FreqTable)
    requires m != map[]
    ensures exists k :: k in m
  {
    if forall b :: b !in m {
      EmptyIfNoKey(m);
      assert false;
    }
  }

  /** Some key of a non-empty table (which one is left open). */
  ghost function AnyKey(m: FreqTable): (k: Byte)
    requires m != map[]
    ensures k in m
  {
    HasKey(m);
    var k :| k in m;
    k
  }

  /** The sum of all counts in a table. */
  ghost function Total(m: FreqTable): nat
    decreases |m|
  {
    if m == map[] then 0
    else
      var k := AnyKey(m);
      var count: nat := m[k];
      var rest: nat := Total(m - {k});
      count + rest
  }

  /** The sum does not depend on which key is taken out first. */
  lemma {:induction false} TotalRemove(m: FreqTable, k: Byte)
    requires k in m
    ensures Total(m) == m[k] + Total(m - {k})
    decreases |m|
  {
    var j := AnyKey(m);
    if j != k {
      TotalRemove(m - {j}, k);
      TotalRemove(m - {k}, j);
      assert m - {j} - {k} == m - {k} - {j};
    }
  }

  /** Incrementing one count (`freqMap[c]++`) raises the sum by one. */
  lemma TotalIncrement(m: FreqTable, c: Byte)
    ensures Total(m[c := CountOf(m, c) + 1]) == Total(m) + 1
  {
    var m' := m[c := CountOf(m, c) + 1];
    TotalRemove(m', c);
    if c in m {
      TotalRemove(m, c);
      assert m' - {c} == m - {c};
    } else {
      assert m' - {c} == m;
    }
  }

  /** Counting one more byte `c` is one `freqMap[c]++`. */
  lemma FreqOfSnoc(s: seq<Byte>, c: Byte)
    ensures FreqOf(s + [c]) == FreqOf(s)[c := CountOf(FreqOf(s), c) + 1]
  {
    var a := FreqOf(s + [c]);
    var b := FreqOf(s)[c := CountOf(FreqOf(s), c) + 1];
    assert multiset(s + [c]) == multiset(s) + multiset{c};
    forall x
      ensures x in a <==> x in b
    {
      assert x in s + [c] <==> x in s || x == c;
    }
    forall x | x in a
      ensures a[x] == b[x]
    {
      assert x in s + [c] <==> x in s || x == c;
      assert a[x] == multiset(s)[x] + multiset{c}[x];
      if x !in s {
        assert x !in multiset(s);
      }
    }
  }

  /** The counts of a frequency table sum to the length of the input. */
  lemma {:induction false} FreqOfTotal(data: seq<Byte>)
    ensures Total(FreqOf(data)) == |data|
    decreases |data|
  {
    if data == [] {
      assert FreqOf(data) == map[];
    } else {
      var s, c := data[..|data| - 1], data[|data| - 1];
      assert data == s + [c];
      FreqOfTotal(s);
      FreqOfSnoc(s, c);
      TotalIncrement(FreqOf(s), c);
    }
  }

  /** The counting loop of huffmanEncode: one `freqMap[c]++` per input byte. */
  method CountFrequencies(data: seq<Byte>) returns (freq: FreqTable)
    ensures freq == FreqOf(data)
    ensures forall b :: b in freq <==> b in data
    ensures forall b | b in freq :: freq[b] == multiset(data)[b] > 0
    ensures Total(freq) == |data|
  {
    freq := map[];
    for i := 0 to |data|
      invariant freq == FreqOf(data[..i])
    {
      var c := data[i];
      FreqOfSnoc(data[..i], c);
      assert data[..i + 1] == data[..i] + [c];
      freq := freq[c := CountOf(freq, c) + 1];
    }
    assert data[..|data|] == data;
    FreqOfTotal(data);
  }
}

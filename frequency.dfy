/**
 * Frequency counting: BuildFrequencyTable counts how often each rune occurs
 * in the input text. Runes are modelled as Dafny `char`s.
 */
module Frequency {

  /** Some key of a non-empty map; fixes the order in which SumValues adds. */
  ghost function PickKey(m: map<char, int>): (k: char)
    requires m != map[]
    ensures k in m
  {
    var k :| k in m; k
  }

  /** The sum of all values of a map. */
  ghost function SumValues(m: map<char, int>): int
    decreases |m|
  {
    if m == map[] then 0
    else
      var k := PickKey(m);
      assert (m - {k}).Keys == m.Keys - {k};
      m[k] + SumValues(m - {k})
  }

  /** The sum does not depend on which key is taken out first. */
  lemma {:induction false} SumValuesRemove(m: map<char, int>, k: char)
    requires k in m
    ensures SumValues(m) == m[k] + SumValues(m - {k})
    decreases |m|
  {
    var j := PickKey(m);
    if j != k {
      assert (m - {j}).Keys == m.Keys - {j};
      assert (m - {k}).Keys == m.Keys - {k};
      SumValuesRemove(m - {j}, k);
      SumValuesRemove(m - {k}, j);
      assert m - {j} - {k} == m - {k} - {j};
    }
  }

  /** Writing one key changes the sum by the difference of the two values. */
  lemma SumValuesUpdate(m: map<char, int>, k: char, v: int)
    ensures SumValues(m[k := v]) == SumValues(m) - (if k in m then m[k] else 0) + v
  {
    SumValuesRemove(m[k := v], k);
    assert m[k := v] - {k} == m - {k};
    if k in m {
      SumValuesRemove(m, k);
    } else {
      assert m - {k} == m;
    }
  }

  /**
   * BuildFrequencyTable: one key per distinct rune of the text, mapped to
   * its number of occurrences; the counts add up to the text's length.
   */
  method BuildFrequencyTable(text: string) returns (frequency: map<char, int>)
    ensures forall c :: c in frequency <==> c in text
    ensures forall c :: c in frequency ==> frequency[c] == multiset(text)[c] >= 1
    ensures SumValues(frequency) == |text|
    ensures text == [] ==> frequency == map[]
  {
    frequency := map[];
    for i := 0 to |text|
      invariant forall c :: c in frequency <==> c in text[..i]
      invariant forall c :: c in frequency ==> frequency[c] == multiset(text[..i])[c]
      invariant SumValues(frequency) == i
    {
      var ch := text[i];
      // a missing key reads as Go's zero value
      var count := if ch in frequency then frequency[ch] else 0;
      SumValuesUpdate(frequency, ch, count + 1);
      assert text[..i + 1] == text[..i] + [ch];
      frequency := frequency[ch := count + 1];
    }
    assert text[..|text|] == text;
  }
}

/**
 Python's `collections.Counter` as the cluster analysis uses it: a map from
 string keys to counts that is only ever incremented (`counter[k] += 1`), where
 a missing key reads as 0.
 */
module Counters {

  type Counter = map<string, nat>

  /** `counter[k]`: the count of `k`, 0 when `k` was never counted. */
  function Count(c: Counter, k: string): nat {
    if k in c then c[k] else 0
  }

  /** Every key present in the counter has a positive count. */
  predicate Positive(c: Counter) {
    forall k :: k in c ==> c[k] > 0
  }

  /** `counter[k] += 1`. */
  function Increment(c: Counter, k: string): Counter {
    c[k := Count(c, k) + 1]
  }

  /** An increment raises the count of `k` by one and makes `k` present;
      every other key keeps its count, and no count becomes 0. */
  lemma IncrementCounts(c: Counter, k: string)
    ensures Count(Increment(c, k), k) == Count(c, k) + 1
    ensures forall j :: j != k ==> Count(Increment(c, k), j) == Count(c, j)
    ensures Increment(c, k).Keys == c.Keys + {k}
    ensures Positive(c) ==> Positive(Increment(c, k))
  {
  }

  /** The counter obtained by starting empty and incrementing once per key,
      in order. */
  function Tally(keys: seq<string>): Counter {
    if keys == [] then map[]
    else Increment(Tally(keys[..|keys| - 1]), keys[|keys| - 1])
  }

  /** Each key's count in a tally is its number of occurrences, the present
      keys are exactly the keys that occur, and no present key has count 0. */
  lemma {:induction false} TallyCounts(keys: seq<string>)
    ensures forall k :: Count(Tally(keys), k) == multiset(keys)[k]
    ensures forall k :: k in Tally(keys) <==> k in keys
    ensures Positive(Tally(keys))
  {
    if keys != [] {
      var init := keys[..|keys| - 1];
      TallyCounts(init);
      IncrementCounts(Tally(init), keys[|keys| - 1]);
      assert keys == init + [keys[|keys| - 1]];
    }
  }

  /** Tallying one more key increments that key's count. */
  lemma TallySnoc(keys: seq<string>, k: string)
    ensures Tally(keys + [k]) == Increment(Tally(keys), k)
  {
    assert (keys + [k])[..|keys|] == keys;
  }

  /** Two key sequences with the same occurrences, in whatever order, give
      the same counter. */
  lemma TallyPermutation(a: seq<string>, b: seq<string>)
    requires multiset(a) == multiset(b)
    ensures Tally(a) == Tally(b)
  {
    TallyCounts(a);
    TallyCounts(b);
    var ta, tb := Tally(a), Tally(b);
    assert ta.Keys == tb.Keys by {
      forall k ensures k in ta <==> k in tb {
        assert k in a <==> k in multiset(a);
        assert k in b <==> k in multiset(b);
      }
    }
    forall k | k in ta ensures ta[k] == tb[k] {
      assert Count(ta, k) == Count(tb, k);
    }
  }

  /** The sum of all counts. */
  ghost function Total(c: Counter): nat
    decreases |c|
  {
    if c == map[] then 0
    else
      var k :| k in c;
      c[k] + Total(c - {k})
  }

  /** The total can be taken apart at any present key. */
  lemma {:induction false} TotalAt(c: Counter, k: string)
    requires k in c
    ensures Total(c) == c[k] + Total(c - {k})
    decreases |c|
  {
    var j :| j in c && Total(c) == c[j] + Total(c - {j});
    if j != k {
      assert (c - {j}) - {k} == (c - {k}) - {j};
      TotalAt(c - {j}, k);
      TotalAt(c - {k}, j);
    }
  }

  /** Each increment adds one to the total. */
  lemma IncrementTotal(c: Counter, k: string)
    ensures Total(Increment(c, k)) == Total(c) + 1
  {
    var r := Increment(c, k);
    TotalAt(r, k);
    assert r - {k} == c - {k};
    if k in c {
      TotalAt(c, k);
    } else {
      assert c - {k} == c;
    }
  }

  /** The counts of a tally add up to the number of keys tallied. */
  lemma {:induction false} TallyTotal(keys: seq<string>)
    ensures Total(Tally(keys)) == |keys|
  {
    if keys != [] {
      var init := keys[..|keys| - 1];
      TallyTotal(init);
      IncrementTotal(Tally(init), keys[|keys| - 1]);
    }
  }
}

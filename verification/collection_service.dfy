/** `groupToMap` of the projects-time feature: an order-preserving group-by.
    A JavaScript `Map` keeps its keys in insertion order, so it is modelled
    as a sequence of entries with distinct keys. */
module CollectionService {

  datatype Entry<K, T> = Entry(key: K, items: seq<T>)

  function KeysOf<K(==), T(==)>(m: seq<Entry<K, T>>): (ks: seq<K>)
    ensures |ks| == |m|
    ensures forall i :: 0 <= i < |m| ==> ks[i] == m[i].key
  {
    seq(|m|, i requires 0 <= i < |m| => m[i].key)
  }

  predicate Distinct<K(==)>(ks: seq<K>) {
    forall i, j :: 0 <= i < j < |ks| ==> ks[i] != ks[j]
  }

  /** All groups, concatenated in key order. */
  function Flatten<K(==), T(==)>(m: seq<Entry<K, T>>): seq<T>
    decreases |m|
  {
    if |m| == 0 then [] else m[0].items + Flatten(m[1..])
  }

  /** One reduction step: `map.get(key)?.push(x) ?? map.set(key, [x])`. */
  function Add<K(==), T(==)>(m: seq<Entry<K, T>>, k: K, x: T): (r: seq<Entry<K, T>>)
    ensures |r| == |m| || r == m + [Entry(k, [x])]
    ensures multiset(Flatten(r)) == multiset(Flatten(m)) + multiset{x}
    decreases |m|
  {
    if |m| == 0 then [Entry(k, [x])]
    else if m[0].key == k then
      assert Flatten([Entry(k, m[0].items + [x])] + m[1..])
          == (m[0].items + [x]) + Flatten(m[1..]);
      [Entry(k, m[0].items + [x])] + m[1..]
    else
      var rest := Add(m[1..], k, x);
      assert Flatten([m[0]] + rest) == m[0].items + Flatten(rest);
      assert m == [m[0]] + m[1..];
      [m[0]] + rest
  }

  /** A new key is appended as a one-element group. */
  lemma {:induction false} AddNewKey<K, T>(m: seq<Entry<K, T>>, k: K, x: T)
    requires k !in KeysOf(m)
    ensures Add(m, k, x) == m + [Entry(k, [x])]
    decreases |m|
  {
    if |m| > 0 {
      assert KeysOf(m[1..]) == KeysOf(m)[1..];
      AddNewKey(m[1..], k, x);
    }
  }

  /** An existing key has `x` pushed onto its group; other groups are untouched. */
  lemma {:induction false} AddExistingKey<K, T>(m: seq<Entry<K, T>>, k: K, x: T)
    requires Distinct(KeysOf(m)) && k in KeysOf(m)
    ensures |Add(m, k, x)| == |m|
    ensures forall i :: 0 <= i < |m| ==>
              Add(m, k, x)[i] == (if m[i].key == k then Entry(k, m[i].items + [x]) else m[i])
    decreases |m|
  {
    var r := Add(m, k, x);
    if m[0].key == k {
      assert forall i :: 1 <= i < |m| ==> KeysOf(m)[i] != KeysOf(m)[0];
    } else {
      assert KeysOf(m[1..]) == KeysOf(m)[1..];
      AddExistingKey(m[1..], k, x);
    }
  }

  /** `array.reduce(step, new Map())`. */
  function GroupToMap<K(==), T(==)>(xs: seq<T>, key: T -> K): (m: seq<Entry<K, T>>)
    ensures |m| <= |xs|
    decreases |xs|
  {
    if |xs| == 0 then []
    else Add(GroupToMap(xs[..|xs| - 1], key), key(xs[|xs| - 1]), xs[|xs| - 1])
  }

  // ---------------------------------------------------------------------
  // Reference definition: one group per distinct key, in order of the key's
  // first occurrence, holding exactly the elements with that key in order.
  // ---------------------------------------------------------------------

  function KeySeq<K(==), T(==)>(xs: seq<T>, key: T -> K): (ks: seq<K>)
    ensures |ks| == |xs|
    ensures forall i :: 0 <= i < |xs| ==> ks[i] == key(xs[i])
  {
    seq(|xs|, i requires 0 <= i < |xs| => key(xs[i]))
  }

  /** The elements whose key is `k`, in input order. */
  function Filter<K(==), T(==)>(xs: seq<T>, key: T -> K, k: K): (r: seq<T>)
    decreases |xs|
  {
    if |xs| == 0 then []
    else Filter(xs[..|xs| - 1], key, k) + (if key(xs[|xs| - 1]) == k then [xs[|xs| - 1]] else [])
  }

  /** The distinct elements of `ks`, each at the position of its first occurrence. */
  function FirstOccurrences<K(==)>(ks: seq<K>): (d: seq<K>)
    ensures Distinct(d)
    decreases |ks|
  {
    if |ks| == 0 then []
    else
      var d := FirstOccurrences(ks[..|ks| - 1]);
      if ks[|ks| - 1] in d then d else d + [ks[|ks| - 1]]
  }

  /** Every element occurs among the first occurrences, and nothing else does. */
  lemma {:induction false} FirstOccurrencesMembers<K>(ks: seq<K>, k: K)
    ensures k in FirstOccurrences(ks) <==> k in ks
    decreases |ks|
  {
    if |ks| > 0 {
      var ks' := ks[..|ks| - 1];
      FirstOccurrencesMembers(ks', k);
      assert ks == ks' + [ks[|ks| - 1]];
    }
  }

  function Reference<K(==), T(==)>(xs: seq<T>, key: T -> K): seq<Entry<K, T>> {
    var ks := FirstOccurrences(KeySeq(xs, key));
    seq(|ks|, i requires 0 <= i < |ks| => Entry(ks[i], Filter(xs, key, ks[i])))
  }

  lemma ReferenceAt<K, T>(xs: seq<T>, key: T -> K, i: int)
    requires 0 <= i < |FirstOccurrences(KeySeq(xs, key))|
    ensures |Reference(xs, key)| == |FirstOccurrences(KeySeq(xs, key))|
    ensures Reference(xs, key)[i]
         == Entry(FirstOccurrences(KeySeq(xs, key))[i], Filter(xs, key, FirstOccurrences(KeySeq(xs, key))[i]))
  {
  }

  lemma ReferenceKeys<K, T>(xs: seq<T>, key: T -> K)
    ensures KeysOf(Reference(xs, key)) == FirstOccurrences(KeySeq(xs, key))
  {
  }

  lemma AbsentKey<K>(ks: seq<K>, k: K)
    requires k !in FirstOccurrences(ks)
    ensures k !in ks
  {
    FirstOccurrencesMembers(ks, k);
  }

  lemma PresentKey<K>(ks: seq<K>, i: int)
    requires 0 <= i < |ks|
    ensures ks[i] in FirstOccurrences(ks)
  {
    FirstOccurrencesMembers(ks, ks[i]);
  }

  lemma SourceKey<K>(ks: seq<K>, i: int) returns (j: int)
    requires 0 <= i < |FirstOccurrences(ks)|
    ensures 0 <= j < |ks| && ks[j] == FirstOccurrences(ks)[i]
  {
    var k := FirstOccurrences(ks)[i];
    assert k in FirstOccurrences(ks);
    FirstOccurrencesMembers(ks, k);
    j :| 0 <= j < |ks| && ks[j] == k;
  }

  lemma {:induction false} FilterEmpty<K, T>(xs: seq<T>, key: T -> K, k: K)
    requires k !in KeySeq(xs, key)
    ensures Filter(xs, key, k) == []
    decreases |xs|
  {
    if |xs| > 0 {
      assert KeySeq(xs[..|xs| - 1], key) == KeySeq(xs, key)[..|xs| - 1];
      FilterEmpty(xs[..|xs| - 1], key, k);
      assert KeySeq(xs, key)[|xs| - 1] == key(xs[|xs| - 1]);
    }
  }

  lemma {:induction false} FilterHasAll<K, T>(xs: seq<T>, key: T -> K, i: int)
    requires 0 <= i < |xs|
    ensures xs[i] in Filter(xs, key, key(xs[i]))
    decreases |xs|
  {
    if i < |xs| - 1 {
      FilterHasAll(xs[..|xs| - 1], key, i);
    }
  }

  lemma KeySeqSnoc<K, T>(xs: seq<T>, key: T -> K)
    requires |xs| > 0
    ensures KeySeq(xs, key) == KeySeq(xs[..|xs| - 1], key) + [key(xs[|xs| - 1])]
  {
  }

  /** A sequence that agrees with the reference definition at every index is it. */
  lemma ReferenceExt<K, T>(xs: seq<T>, key: T -> K, r: seq<Entry<K, T>>)
    requires |r| == |FirstOccurrences(KeySeq(xs, key))|
    requires forall i :: 0 <= i < |r| ==>
               r[i] == Entry(FirstOccurrences(KeySeq(xs, key))[i], Filter(xs, key, FirstOccurrences(KeySeq(xs, key))[i]))
    ensures r == Reference(xs, key)
  {
  }

  lemma ReferenceStepExisting<K, T>(xs: seq<T>, key: T -> K)
    requires |xs| > 0
    requires key(xs[|xs| - 1]) in FirstOccurrences(KeySeq(xs[..|xs| - 1], key))
    ensures Add(Reference(xs[..|xs| - 1], key), key(xs[|xs| - 1]), xs[|xs| - 1]) == Reference(xs, key)
  {
    var xs', x := xs[..|xs| - 1], xs[|xs| - 1];
    var m := Reference(xs', key);
    var ks := FirstOccurrences(KeySeq(xs', key));
    KeySeqSnoc(xs, key);
    assert FirstOccurrences(KeySeq(xs, key)) == ks;
    ReferenceKeys(xs', key);
    AddExistingKey(m, key(x), x);
    var r := Add(m, key(x), x);
    forall i | 0 <= i < |r| ensures r[i] == Entry(ks[i], Filter(xs, key, ks[i])) {
      ReferenceAt(xs', key, i);
      assert Filter(xs, key, ks[i]) == Filter(xs', key, ks[i]) + (if key(x) == ks[i] then [x] else []);
    }
    ReferenceExt(xs, key, r);
  }

  lemma ReferenceStepNew<K, T>(xs: seq<T>, key: T -> K)
    requires |xs| > 0
    requires key(xs[|xs| - 1]) !in FirstOccurrences(KeySeq(xs[..|xs| - 1], key))
    ensures Add(Reference(xs[..|xs| - 1], key), key(xs[|xs| - 1]), xs[|xs| - 1]) == Reference(xs, key)
  {
    var xs', x := xs[..|xs| - 1], xs[|xs| - 1];
    var m := Reference(xs', key);
    var ks' := FirstOccurrences(KeySeq(xs', key));
    KeySeqSnoc(xs, key);
    var ks := FirstOccurrences(KeySeq(xs, key));
    assert ks == ks' + [key(x)];
    ReferenceKeys(xs', key);
    AddNewKey(m, key(x), x);
    AbsentKey(KeySeq(xs', key), key(x));
    FilterEmpty(xs', key, key(x));
    var r := m + [Entry(key(x), [x])];
    forall i | 0 <= i < |r| ensures r[i] == Entry(ks[i], Filter(xs, key, ks[i])) {
      assert Filter(xs, key, ks[i]) == Filter(xs', key, ks[i]) + (if key(x) == ks[i] then [x] else []);
      if i < |ks'| {
        ReferenceAt(xs', key, i);
        assert ks[i] == ks'[i] && ks'[i] != key(x);
      }
    }
    ReferenceExt(xs, key, r);
  }

  /** `groupToMap` agrees with the reference definition. */
  lemma {:induction false} GroupToMapIsReference<K, T>(xs: seq<T>, key: T -> K)
    ensures GroupToMap(xs, key) == Reference(xs, key)
    decreases |xs|
  {
    if |xs| > 0 {
      GroupToMapIsReference(xs[..|xs| - 1], key);
      if key(xs[|xs| - 1]) in FirstOccurrences(KeySeq(xs[..|xs| - 1], key)) {
        ReferenceStepExisting(xs, key);
      } else {
        ReferenceStepNew(xs, key);
      }
    }
  }

  /** The keys are distinct and listed in order of first occurrence. */
  lemma GroupToMapKeys<K, T>(xs: seq<T>, key: T -> K)
    ensures KeysOf(GroupToMap(xs, key)) == FirstOccurrences(KeySeq(xs, key))
    ensures Distinct(KeysOf(GroupToMap(xs, key)))
  {
    GroupToMapIsReference(xs, key);
    ReferenceKeys(xs, key);
  }

  /** Each group holds exactly the elements with its key, in input order,
      and so is never empty. */
  lemma GroupToMapItems<K, T>(xs: seq<T>, key: T -> K, i: int)
    requires 0 <= i < |GroupToMap(xs, key)|
    ensures GroupToMap(xs, key)[i].items == Filter(xs, key, GroupToMap(xs, key)[i].key)
    ensures |GroupToMap(xs, key)[i].items| > 0
  {
    GroupToMapIsReference(xs, key);
    ReferenceKeys(xs, key);
    ReferenceAt(xs, key, i);
    var j := SourceKey(KeySeq(xs, key), i);
    FilterHasAll(xs, key, j);
  }

  /** Every element lands in the group of its own key. */
  /** Every element the filter keeps has the filtered key. */
  lemma {:induction false} FilterMembers<K, T>(xs: seq<T>, key: T -> K, k: K)
    ensures forall y :: y in Filter(xs, key, k) ==> key(y) == k
    decreases |xs|
  {
    if |xs| > 0 {
      FilterMembers(xs[..|xs| - 1], key, k);
    }
  }

  /** Key functions that agree on the input give the same groups. */
  lemma {:induction false} GroupToMapCongruent<K, T>(xs: seq<T>, key1: T -> K, key2: T -> K)
    requires forall i :: 0 <= i < |xs| ==> key1(xs[i]) == key2(xs[i])
    ensures GroupToMap(xs, key1) == GroupToMap(xs, key2)
    decreases |xs|
  {
    if |xs| > 0 {
      var xs' := xs[..|xs| - 1];
      forall i | 0 <= i < |xs'| ensures key1(xs'[i]) == key2(xs'[i]) {
        assert xs'[i] == xs[i];
      }
      GroupToMapCongruent(xs', key1, key2);
    }
  }

  lemma GroupToMapCovers<K, T>(xs: seq<T>, key: T -> K, j: int)
    requires 0 <= j < |xs|
    ensures exists i :: 0 <= i < |GroupToMap(xs, key)|
              && GroupToMap(xs, key)[i].key == key(xs[j]) && xs[j] in GroupToMap(xs, key)[i].items
  {
    var m := GroupToMap(xs, key);
    GroupToMapKeys(xs, key);
    var ks := KeySeq(xs, key);
    assert ks[j] == key(xs[j]);
    PresentKey(ks, j);
    var i :| 0 <= i < |m| && KeysOf(m)[i] == key(xs[j]);
    GroupToMapItems(xs, key, i);
    FilterHasAll(xs, key, j);
  }

  /** Concatenating the groups gives a permutation of the input, so the
      group sizes add up to the input length. */
  lemma {:induction false} GroupToMapPermutation<K, T>(xs: seq<T>, key: T -> K)
    ensures multiset(Flatten(GroupToMap(xs, key))) == multiset(xs)
    ensures |Flatten(GroupToMap(xs, key))| == |xs|
    decreases |xs|
  {
    if |xs| > 0 {
      GroupToMapPermutation(xs[..|xs| - 1], key);
      assert xs == xs[..|xs| - 1] + [xs[|xs| - 1]];
    }
    assert |multiset(Flatten(GroupToMap(xs, key)))| == |multiset(xs)|;
  }

  /** No input, no groups. */
  /** The map is empty exactly when the input is. */
  lemma GroupToMapEmpty<K, T>(xs: seq<T>, key: T -> K)
    ensures GroupToMap(xs, key) == [] <==> xs == []
  {
    if |xs| > 0 {
      GroupToMapCovers(xs, key, 0);
    }
  }

  /** `p` is the index of the first occurrence of `k` in `ks`. */
  predicate IsFirstIndex<K(==)>(ks: seq<K>, k: K, p: int) {
    0 <= p < |ks| && ks[p] == k && forall u :: 0 <= u < p ==> ks[u] != k
  }

  /** Keys listed earlier first occur earlier in the input. */
  lemma {:induction false} FirstOccurrencesOrdered<K>(ks: seq<K>, i: int, j: int, p: int, q: int)
    requires 0 <= i < j < |FirstOccurrences(ks)|
    requires IsFirstIndex(ks, FirstOccurrences(ks)[i], p)
    requires IsFirstIndex(ks, FirstOccurrences(ks)[j], q)
    ensures p < q
    decreases |ks|
  {
    var n := |ks|;
    var ks' := ks[..n - 1];
    var d := FirstOccurrences(ks);
    var d' := FirstOccurrences(ks');
    assert |d| <= |d'| + 1 && d[..|d'|] == d';
    assert i < |d'|;
    assert d[i] in d';
    FirstOccurrencesMembers(ks', d[i]);
    FirstOccurrencesMembers(ks', d[j]);
    var u :| 0 <= u < |ks'| && ks'[u] == d[i];
    assert ks[u] == d[i];
    assert p <= u;
    if j < |d'| {
      assert d[j] in ks';
      var v :| 0 <= v < |ks'| && ks'[v] == d[j];
      assert ks[v] == d[j];
      assert q <= v;
      FirstOccurrencesOrdered(ks', i, j, p, q);
    } else {
      assert d[j] == ks[n - 1] && d[j] !in d';
      assert d[j] !in ks';
      assert q == n - 1;
    }
  }

  /** When every element has the same key there is one group holding the
      whole input, or none for empty input. */
  lemma {:induction false} GroupToMapSingleKey<K, T>(xs: seq<T>, key: T -> K, k: K)
    requires forall i :: 0 <= i < |xs| ==> key(xs[i]) == k
    ensures GroupToMap(xs, key) == if |xs| == 0 then [] else [Entry(k, xs)]
    decreases |xs|
  {
    if |xs| > 0 {
      var xs', x := xs[..|xs| - 1], xs[|xs| - 1];
      forall i | 0 <= i < |xs'| ensures key(xs'[i]) == k {
        assert xs'[i] == xs[i];
      }
      GroupToMapSingleKey(xs', key, k);
      assert key(x) == k;
      assert xs' + [x] == xs;
      assert GroupToMap(xs, key) == Add(GroupToMap(xs', key), k, x);
      if |xs'| > 0 {
        assert Add([Entry(k, xs')], k, x) == [Entry(k, xs' + [x])];
      }
    }
  }
}

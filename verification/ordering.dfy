/** `Array.prototype.sort` with a comparator that compares a string key of
    each element by `localeCompare`. Collation is abstract: a comparison
    `leq(a, b)` standing for `a.localeCompare(b) <= 0`, assumed to be a total
    preorder (distinct strings may collate equally). The sort is stable, as
    `Array.prototype.sort` is. */
module Ordering {

  ghost predicate TotalPreorder(leq: (string, string) -> bool) {
    && (forall a, b :: leq(a, b) || leq(b, a))
    && (forall a, b, c :: leq(a, b) && leq(b, c) ==> leq(a, c))
  }

  /** Ascending under `leq` by the element key. */
  ghost predicate SortedBy<T>(s: seq<T>, key: T -> string, leq: (string, string) -> bool) {
    forall i, j :: 0 <= i < j < |s| ==> leq(key(s[i]), key(s[j]))
  }

  /** Every element after the head of a sorted sequence follows the head. */
  lemma HeadPrecedesRest<T>(s: seq<T>, key: T -> string, leq: (string, string) -> bool, e: T)
    requires SortedBy(s, key, leq)
    requires |s| > 0 && e in s[1..]
    ensures leq(key(s[0]), key(e))
  {
    var k :| 0 <= k < |s[1..]| && s[1..][k] == e;
    assert s[1 + k] == e;
  }

  /** Inserts `x` before the first element it does not follow. */
  function Insert<T>(x: T, s: seq<T>, key: T -> string, leq: (string, string) -> bool): (r: seq<T>)
    requires TotalPreorder(leq)
    requires SortedBy(s, key, leq)
    ensures multiset(r) == multiset(s) + multiset{x}
    ensures |r| == |s| + 1
    ensures SortedBy(r, key, leq)
    decreases |s|
  {
    if |s| == 0 then [x]
    else if leq(key(x), key(s[0])) then
      InsertFront(x, s, key, leq);
      [x] + s
    else
      var rest := Insert(x, s[1..], key, leq);
      assert s == [s[0]] + s[1..];
      InsertBehind(x, s, rest, key, leq);
      [s[0]] + rest
  }

  lemma InsertFront<T>(x: T, s: seq<T>, key: T -> string, leq: (string, string) -> bool)
    requires TotalPreorder(leq)
    requires SortedBy(s, key, leq)
    requires |s| > 0 && leq(key(x), key(s[0]))
    ensures SortedBy([x] + s, key, leq)
  {
    var r := [x] + s;
    forall i, j | 0 <= i < j < |r| ensures leq(key(r[i]), key(r[j])) {
      if i == 0 {
        if j > 1 {
          assert leq(key(s[0]), key(s[j - 1]));
        }
      } else {
        assert r[i] == s[i - 1] && r[j] == s[j - 1];
      }
    }
  }

  lemma InsertBehind<T>(x: T, s: seq<T>, rest: seq<T>, key: T -> string, leq: (string, string) -> bool)
    requires TotalPreorder(leq)
    requires SortedBy(s, key, leq)
    requires |s| > 0 && !leq(key(x), key(s[0]))
    requires SortedBy(rest, key, leq)
    requires multiset(rest) == multiset(s[1..]) + multiset{x}
    ensures SortedBy([s[0]] + rest, key, leq)
  {
    var r := [s[0]] + rest;
    assert leq(key(s[0]), key(x));
    forall i, j | 0 <= i < j < |r| ensures leq(key(r[i]), key(r[j])) {
      if i == 0 {
        var e := rest[j - 1];
        assert e in multiset(rest);
        if e != x {
          assert e in multiset(s[1..]);
          HeadPrecedesRest(s, key, leq, e);
        }
      } else {
        assert r[i] == rest[i - 1] && r[j] == rest[j - 1];
      }
    }
  }

  /** The comparator sort: a stable insertion sort. */
  function Sort<T>(s: seq<T>, key: T -> string, leq: (string, string) -> bool): (r: seq<T>)
    requires TotalPreorder(leq)
    ensures multiset(r) == multiset(s)
    ensures |r| == |s|
    ensures SortedBy(r, key, leq)
    decreases |s|
  {
    if |s| == 0 then []
    else
      assert s == [s[0]] + s[1..];
      Insert(s[0], Sort(s[1..], key, leq), key, leq)
  }

  /** An already sorted sequence is returned as it is. */
  lemma {:induction false} SortOfSorted<T>(s: seq<T>, key: T -> string, leq: (string, string) -> bool)
    requires TotalPreorder(leq)
    requires SortedBy(s, key, leq)
    ensures Sort(s, key, leq) == s
    decreases |s|
  {
    if |s| > 0 {
      SortOfSorted(s[1..], key, leq);
      assert s == [s[0]] + s[1..];
      if |s| > 1 {
        assert leq(key(s[0]), key(s[1]));
      }
    }
  }

  /** `[y]` when the key of `y` collates equal to `c`, else nothing. */
  function RankPart<T>(y: T, key: T -> string, leq: (string, string) -> bool, c: string): seq<T> {
    if leq(key(y), c) && leq(c, key(y)) then [y] else []
  }

  /** The elements whose key collates equal to `c`, in their order. */
  function SameRank<T>(s: seq<T>, key: T -> string, leq: (string, string) -> bool, c: string): seq<T>
    decreases |s|
  {
    if |s| == 0 then [] else RankPart(s[0], key, leq, c) + SameRank(s[1..], key, leq, c)
  }

  lemma SameRankCons<T>(y: T, t: seq<T>, key: T -> string, leq: (string, string) -> bool, c: string)
    ensures SameRank([y] + t, key, leq, c) == RankPart(y, key, leq, c) + SameRank(t, key, leq, c)
  {
    assert ([y] + t)[1..] == t;
  }

  /** Two elements that do not collate in order never both tie with `c`. */
  lemma RankPartsExclusive<T>(x: T, y: T, key: T -> string, leq: (string, string) -> bool, c: string)
    requires TotalPreorder(leq)
    requires !leq(key(x), key(y))
    ensures RankPart(x, key, leq, c) == [] || RankPart(y, key, leq, c) == []
  {
  }

  /** An inserted element goes in front of every element it ties with. */
  lemma {:induction false} SameRankInsert<T>(x: T, s: seq<T>, key: T -> string, leq: (string, string) -> bool, c: string)
    requires TotalPreorder(leq)
    requires SortedBy(s, key, leq)
    ensures SameRank(Insert(x, s, key, leq), key, leq, c) == RankPart(x, key, leq, c) + SameRank(s, key, leq, c)
    decreases |s|
  {
    if |s| == 0 {
      SameRankCons(x, s, key, leq, c);
      assert [x] + s == [x];
    } else if leq(key(x), key(s[0])) {
      SameRankCons(x, s, key, leq, c);
    } else {
      SortedTail(s, key, leq);
      var rest := Insert(x, s[1..], key, leq);
      assert Insert(x, s, key, leq) == [s[0]] + rest;
      SameRankCons(s[0], rest, key, leq, c);
      SameRankInsert(x, s[1..], key, leq, c);
      RankPartsExclusive(x, s[0], key, leq, c);
      SwapEmptyPart(RankPart(x, key, leq, c), RankPart(s[0], key, leq, c), SameRank(s[1..], key, leq, c));
    }
  }

  lemma SortedTail<T>(s: seq<T>, key: T -> string, leq: (string, string) -> bool)
    requires SortedBy(s, key, leq) && |s| > 0
    ensures SortedBy(s[1..], key, leq)
  {
    forall i, j | 0 <= i < j < |s| - 1 ensures leq(key(s[1..][i]), key(s[1..][j])) {
      assert s[1..][i] == s[i + 1] && s[1..][j] == s[j + 1];
    }
  }

  /** Of two parts at most one non-empty, either can go first. */
  lemma SwapEmptyPart<T>(a: seq<T>, b: seq<T>, tail: seq<T>)
    requires a == [] || b == []
    ensures b + (a + tail) == a + (b + tail)
  {
    if a == [] {
      assert a + tail == tail && a + (b + tail) == b + tail;
    } else {
      assert b + (a + tail) == a + tail && b + tail == tail;
    }
  }

  /** The sort is stable: elements whose keys tie keep their relative order. */
  lemma {:induction false} SortIsStable<T>(s: seq<T>, key: T -> string, leq: (string, string) -> bool, c: string)
    requires TotalPreorder(leq)
    ensures SameRank(Sort(s, key, leq), key, leq, c) == SameRank(s, key, leq, c)
    decreases |s|
  {
    if |s| > 0 {
      SortIsStable(s[1..], key, leq, c);
      SameRankInsert(s[0], Sort(s[1..], key, leq), key, leq, c);
    }
  }

  /** Sum of a measure over the elements. */
  function SumOf<T>(s: seq<T>, f: T -> int): int
    decreases |s|
  {
    if |s| == 0 then 0 else f(s[0]) + SumOf(s[1..], f)
  }

  lemma {:induction false} SumOfConcat<T>(a: seq<T>, b: seq<T>, f: T -> int)
    ensures SumOf(a + b, f) == SumOf(a, f) + SumOf(b, f)
    decreases |a|
  {
    if |a| > 0 {
      SumOfConcat(a[1..], b, f);
      assert (a + b)[1..] == a[1..] + b;
    } else {
      assert a + b == b;
    }
  }

  lemma {:induction false} SumOfInsert<T>(x: T, s: seq<T>, key: T -> string, leq: (string, string) -> bool, f: T -> int)
    requires TotalPreorder(leq)
    requires SortedBy(s, key, leq)
    ensures SumOf(Insert(x, s, key, leq), f) == f(x) + SumOf(s, f)
    decreases |s|
  {
    if |s| > 0 && !leq(key(x), key(s[0])) {
      SumOfInsert(x, s[1..], key, leq, f);
    }
  }

  /** Sorting does not change a sum over the elements. */
  lemma {:induction false} SumOfSort<T>(s: seq<T>, key: T -> string, leq: (string, string) -> bool, f: T -> int)
    requires TotalPreorder(leq)
    ensures SumOf(Sort(s, key, leq), f) == SumOf(s, f)
    decreases |s|
  {
    if |s| > 0 {
      SumOfSort(s[1..], key, leq, f);
      SumOfInsert(s[0], Sort(s[1..], key, leq), key, leq, f);
    }
  }

  /** A sum over the elements does not depend on their order. */
  lemma {:induction false} SumOfPermutation<T>(a: seq<T>, b: seq<T>, f: T -> int)
    requires multiset(a) == multiset(b)
    ensures SumOf(a, f) == SumOf(b, f)
    decreases |a|
  {
    if |a| > 0 {
      assert a[0] in multiset(b);
      var j :| 0 <= j < |b| && b[j] == a[0];
      var b' := b[..j] + b[j + 1..];
      assert b == b[..j] + [b[j]] + b[j + 1..];
      assert multiset(b) == multiset(b[..j]) + multiset{b[j]} + multiset(b[j + 1..]);
      assert a == [a[0]] + a[1..];
      assert multiset(a) == multiset{a[0]} + multiset(a[1..]);
      assert multiset(b') == multiset(b[..j]) + multiset(b[j + 1..]);
      forall y ensures multiset(a[1..])[y] == multiset(b')[y] {
        assert multiset(a)[y] == multiset(b)[y];
      }
      assert multiset(a[1..]) == multiset(b');
      SumOfPermutation(a[1..], b', f);
      SumOfConcat(b[..j] + [b[j]], b[j + 1..], f);
      SumOfConcat(b[..j], [b[j]], f);
      SumOfConcat(b[..j], b[j + 1..], f);
    }
  }
}

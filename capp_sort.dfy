/** Python 2's `sorted`, as the completions generator uses it: a stable sort
    by a string key compared character by character (plain string order, or
    the order of the lower-cased strings). */
module CappSort {
  import opened Text

  predicate LexLt(a: string, b: string) {
    LexLe(a, b) && a != b
  }

  /** Places `x` after every element of the sorted `ys` whose key is not
      greater than its own. */
  function Insert<T(==)>(x: T, ys: seq<T>, key: T -> string): seq<T> {
    if ys == [] then [x]
    else if LexLt(key(x), key(ys[0])) then [x] + ys
    else [ys[0]] + Insert(x, ys[1..], key)
  }

  /** Inserting the elements one after the other, in the order given. */
  function SortBy<T(==)>(xs: seq<T>, key: T -> string): seq<T> {
    if xs == [] then [] else Insert(xs[|xs| - 1], SortBy(xs[..|xs| - 1], key), key)
  }

  predicate SortedBy<T(==)>(xs: seq<T>, key: T -> string) {
    forall i, j :: 0 <= i < j < |xs| ==> LexLe(key(xs[i]), key(xs[j]))
  }

  /** Every element of `ys` has a key at least `k`. */
  predicate AllAbove<T(==)>(k: string, ys: seq<T>, key: T -> string) {
    forall y :: y in ys ==> LexLe(k, key(y))
  }

  /** The elements of `xs` whose key is `k`, in the order of `xs`. */
  function Having<T(==)>(xs: seq<T>, key: T -> string, k: string): seq<T> {
    if xs == [] then []
    else (if key(xs[0]) == k then [xs[0]] else []) + Having(xs[1..], key, k)
  }

  lemma SortedCons<T>(y: T, ys: seq<T>, key: T -> string)
    requires AllAbove(key(y), ys, key) && SortedBy(ys, key)
    ensures SortedBy([y] + ys, key)
  {
    var zs := [y] + ys;
    forall i, j | 0 <= i < j < |zs|
      ensures LexLe(key(zs[i]), key(zs[j]))
    {
      assert zs[j] == ys[j - 1];
      if i > 0 {
        assert zs[i] == ys[i - 1];
      } else {
        assert ys[j - 1] in ys;
      }
    }
  }

  lemma SortedTail<T>(ys: seq<T>, key: T -> string)
    requires ys != [] && SortedBy(ys, key)
    ensures SortedBy(ys[1..], key) && AllAbove(key(ys[0]), ys[1..], key)
  {
    forall y | y in ys[1..]
      ensures LexLe(key(ys[0]), key(y))
    {
      var m :| 0 <= m < |ys[1..]| && ys[1..][m] == y;
      assert ys[m + 1] == y;
    }
    forall i, j | 0 <= i < j < |ys[1..]|
      ensures LexLe(key(ys[1..][i]), key(ys[1..][j]))
    {
      assert ys[1..][i] == ys[i + 1] && ys[1..][j] == ys[j + 1];
    }
  }

  lemma {:induction false} InsertElements<T>(x: T, ys: seq<T>, key: T -> string)
    ensures forall y :: y in Insert(x, ys, key) <==> y == x || y in ys
  {
    if ys != [] && !LexLt(key(x), key(ys[0])) {
      InsertElements(x, ys[1..], key);
      assert ys == [ys[0]] + ys[1..];
    }
  }

  lemma {:induction false} InsertMultiset<T>(x: T, ys: seq<T>, key: T -> string)
    ensures multiset(Insert(x, ys, key)) == multiset(ys) + multiset{x}
  {
    if ys != [] && !LexLt(key(x), key(ys[0])) {
      InsertMultiset(x, ys[1..], key);
      assert ys == [ys[0]] + ys[1..];
    }
  }

  lemma InsertFrontSorted<T>(x: T, ys: seq<T>, key: T -> string)
    requires ys != [] && SortedBy(ys, key) && LexLt(key(x), key(ys[0]))
    ensures SortedBy([x] + ys, key)
  {
    SortedTail(ys, key);
    forall y | y in ys
      ensures LexLe(key(x), key(y))
    {
      if y != ys[0] {
        assert y in ys[1..] by {
          assert ys == [ys[0]] + ys[1..];
        }
        LexLeTransitive(key(x), key(ys[0]), key(y));
      }
    }
    SortedCons(x, ys, key);
  }

  lemma InsertLaterSorted<T>(x: T, ys: seq<T>, key: T -> string)
    requires ys != [] && SortedBy(ys, key) && !LexLt(key(x), key(ys[0]))
    requires SortedBy(Insert(x, ys[1..], key), key)
    ensures SortedBy([ys[0]] + Insert(x, ys[1..], key), key)
  {
    SortedTail(ys, key);
    var r := Insert(x, ys[1..], key);
    InsertElements(x, ys[1..], key);
    LexLeTotal(key(x), key(ys[0]));
    if key(x) == key(ys[0]) {
      LexLeReflexive(key(x));
    }
    assert AllAbove(key(ys[0]), r, key);
    SortedCons(ys[0], r, key);
  }

  lemma {:induction false} InsertSorted<T>(x: T, ys: seq<T>, key: T -> string)
    requires SortedBy(ys, key)
    ensures SortedBy(Insert(x, ys, key), key)
  {
    if ys != [] {
      if LexLt(key(x), key(ys[0])) {
        InsertFrontSorted(x, ys, key);
      } else {
        SortedTail(ys, key);
        InsertSorted(x, ys[1..], key);
        InsertLaterSorted(x, ys, key);
      }
    }
  }

  /** The result is sorted by key and holds the same elements, as often. */
  lemma {:induction false} SortBySorted<T>(xs: seq<T>, key: T -> string)
    ensures SortedBy(SortBy(xs, key), key)
    ensures multiset(SortBy(xs, key)) == multiset(xs)
  {
    if xs != [] {
      var init := xs[..|xs| - 1];
      SortBySorted(init, key);
      InsertSorted(xs[|xs| - 1], SortBy(init, key), key);
      InsertMultiset(xs[|xs| - 1], SortBy(init, key), key);
      assert xs == init + [xs[|xs| - 1]];
    }
  }

  lemma {:induction false} HavingAppend<T>(a: seq<T>, b: seq<T>, key: T -> string, k: string)
    ensures Having(a + b, key, k) == Having(a, key, k) + Having(b, key, k)
  {
    if a != [] {
      assert (a + b)[1..] == a[1..] + b;
      HavingAppend(a[1..], b, key, k);
    } else {
      assert a + b == b;
    }
  }

  /** No element of a sorted sequence that starts above `k` has key `k`. */
  lemma {:induction false} HavingNone<T>(ys: seq<T>, key: T -> string, k: string)
    requires SortedBy(ys, key) && ys != [] && LexLt(k, key(ys[0]))
    ensures Having(ys, key, k) == []
  {
    if |ys| > 1 {
      SortedTail(ys, key);
      assert ys[1] in ys[1..];
      LexLeTransitive(k, key(ys[0]), key(ys[1]));
      assert k != key(ys[1]) by {
        if k == key(ys[1]) {
          LexLeAntisymmetric(key(ys[0]), key(ys[1]));
        }
      }
      HavingNone(ys[1..], key, k);
    }
  }

  lemma InsertFrontHaving<T>(x: T, ys: seq<T>, key: T -> string, k: string)
    requires ys != [] && SortedBy(ys, key) && LexLt(key(x), key(ys[0]))
    ensures Having([x] + ys, key, k) == Having(ys, key, k) + (if key(x) == k then [x] else [])
  {
    assert ([x] + ys)[1..] == ys;
    if key(x) == k {
      HavingNone(ys, key, k);
    }
  }

  lemma InsertLaterHaving<T>(x: T, ys: seq<T>, key: T -> string, k: string)
    requires ys != []
    requires Having(Insert(x, ys[1..], key), key, k) == Having(ys[1..], key, k) + (if key(x) == k then [x] else [])
    ensures Having([ys[0]] + Insert(x, ys[1..], key), key, k) == Having(ys, key, k) + (if key(x) == k then [x] else [])
  {
    var y := ys[0];
    var h: seq<T> := if key(y) == k then [y] else [];
    var t: seq<T> := if key(x) == k then [x] else [];
    var a := Having(ys[1..], key, k);
    assert Having([y] + Insert(x, ys[1..], key), key, k) == h + (a + t) by {
      HavingCons(y, Insert(x, ys[1..], key), key, k);
    }
    assert Having(ys, key, k) == h + a;
    assert h + (a + t) == (h + a) + t;
  }

  lemma HavingCons<T>(y: T, zs: seq<T>, key: T -> string, k: string)
    ensures Having([y] + zs, key, k) == (if key(y) == k then [y] else []) + Having(zs, key, k)
  {
    assert ([y] + zs)[1..] == zs;
  }


  lemma {:induction false} InsertHaving<T>(x: T, ys: seq<T>, key: T -> string, k: string)
    requires SortedBy(ys, key)
    ensures Having(Insert(x, ys, key), key, k) == Having(ys, key, k) + (if key(x) == k then [x] else [])
  {
    if ys == [] {
      assert Having([x], key, k) == (if key(x) == k then [x] else []) + Having([], key, k);
    } else if LexLt(key(x), key(ys[0])) {
      InsertFrontHaving(x, ys, key, k);
    } else {
      SortedTail(ys, key);
      InsertHaving(x, ys[1..], key, k);
      InsertLaterHaving(x, ys, key, k);
    }
  }

  /** Stability: the elements sharing a key keep their order. */
  lemma {:induction false} SortByStable<T>(xs: seq<T>, key: T -> string, k: string)
    ensures Having(SortBy(xs, key), key, k) == Having(xs, key, k)
  {
    if xs != [] {
      var init, last := xs[..|xs| - 1], xs[|xs| - 1];
      SortByStable(init, key, k);
      assert SortedBy(SortBy(init, key), key) by {
        SortBySorted(init, key);
      }
      InsertHaving(last, SortBy(init, key), key, k);
      HavingLast(xs, key, k);
    }
  }

  lemma HavingLast<T>(xs: seq<T>, key: T -> string, k: string)
    requires xs != []
    ensures var last := xs[|xs| - 1];
      Having(xs, key, k) == Having(xs[..|xs| - 1], key, k) + (if key(last) == k then [last] else [])
  {
    var init, last := xs[..|xs| - 1], xs[|xs| - 1];
    assert xs == init + [last];
    HavingAppend(init, [last], key, k);
    assert Having([last], key, k) == (if key(last) == k then [last] else []) + Having([], key, k);
  }


  // ---------------------------------------------------------------------------
  // Sorting keys without repetition
  // ---------------------------------------------------------------------------

  function Elements<T(==)>(xs: seq<T>): set<T> {
    set x | x in xs
  }

  lemma ElementsHas<T>(xs: seq<T>)
    ensures forall k :: 0 <= k < |xs| ==> xs[k] in Elements(xs)
  {
  }

  lemma ElementsSnoc<T>(xs: seq<T>, x: T)
    ensures Elements(xs + [x]) == Elements(xs) + {x}
  {
    assert forall y :: y in xs + [x] <==> y in xs || y == x;
  }

  lemma DistinctSnoc<T>(xs: seq<T>, x: T)
    requires Distinct(xs) && x !in Elements(xs)
    ensures Distinct(xs + [x])
  {
    forall i, j | 0 <= i < j < |xs + [x]|
      ensures (xs + [x])[i] != (xs + [x])[j]
    {
      if j == |xs| {
        assert xs[i] in Elements(xs);
      }
    }
  }

  predicate Distinct<T(==)>(xs: seq<T>) {
    forall i, j :: 0 <= i < j < |xs| ==> xs[i] != xs[j]
  }

  function Id(s: string): string {
    s
  }

  lemma DistinctTail<T>(xs: seq<T>)
    requires xs != [] && Distinct(xs)
    ensures Distinct(xs[1..])
    ensures Elements(xs[1..]) == Elements(xs) - {xs[0]}
  {
    forall a, b | 0 <= a < b < |xs[1..]|
      ensures xs[1..][a] != xs[1..][b]
    {
      assert xs[1..][a] == xs[a + 1] && xs[1..][b] == xs[b + 1];
    }
    forall m | 0 <= m < |xs[1..]|
      ensures xs[1..][m] != xs[0]
    {
      assert xs[1..][m] == xs[m + 1];
    }
    assert xs == [xs[0]] + xs[1..];
  }

  lemma SortedLeast(xs: seq<string>, i: nat)
    requires SortedBy(xs, Id) && i < |xs|
    ensures LexLe(xs[0], xs[i])
  {
    if i > 0 {
      assert Id(xs[0]) == xs[0] && Id(xs[i]) == xs[i];
    } else {
      LexLeReflexive(xs[0]);
    }
  }

  /** Two increasing listings of the same strings are the same listing: the
      plain sort of a set has exactly one result. */
  lemma {:induction false} IncreasingUnique(xs: seq<string>, ys: seq<string>)
    requires SortedBy(xs, Id) && Distinct(xs) && SortedBy(ys, Id) && Distinct(ys)
    requires Elements(xs) == Elements(ys)
    ensures xs == ys
    decreases |xs|
  {
    assert forall k :: 0 <= k < |ys| ==> ys[k] in Elements(ys);
    assert forall k :: 0 <= k < |xs| ==> xs[k] in Elements(xs);
    if xs != [] {
      var i :| 0 <= i < |xs| && xs[i] == ys[0];
      var j :| 0 <= j < |ys| && ys[j] == xs[0];
      SortedLeast(xs, i);
      SortedLeast(ys, j);
      LexLeAntisymmetric(xs[0], ys[0]);
      DistinctTail(xs);
      DistinctTail(ys);
      SortedTail(xs, Id);
      SortedTail(ys, Id);
      IncreasingUnique(xs[1..], ys[1..]);
    }
  }

  lemma {:induction false} InsertDistinct<T>(x: T, ys: seq<T>, key: T -> string)
    requires Distinct(ys) && x !in ys
    ensures Distinct(Insert(x, ys, key))
  {
    if ys == [] {
    } else if LexLt(key(x), key(ys[0])) {
      var zs := [x] + ys;
      forall a, b | 0 <= a < b < |zs|
        ensures zs[a] != zs[b]
      {
        assert zs[b] == ys[b - 1];
        if a > 0 {
          assert zs[a] == ys[a - 1];
        } else {
          assert ys[b - 1] in ys;
        }
      }
    } else {
      DistinctTail(ys);
      assert x !in ys[1..] by {
        assert forall y :: y in ys[1..] ==> y in ys by {
          assert ys == [ys[0]] + ys[1..];
        }
      }
      InsertDistinct(x, ys[1..], key);
      var r := Insert(x, ys[1..], key);
      InsertElements(x, ys[1..], key);
      assert ys[0] !in ys[1..] by {
        assert ys[0] !in Elements(ys[1..]);
      }
      var zs := [ys[0]] + r;
      forall a, b | 0 <= a < b < |zs|
        ensures zs[a] != zs[b]
      {
        assert zs[b] == r[b - 1];
        if a > 0 {
          assert zs[a] == r[a - 1];
        } else {
          assert r[b - 1] in r;
          assert ys[0] != x by {
            assert ys[0] in ys;
          }
        }
      }
    }
  }

  lemma {:induction false} SortByElements<T>(xs: seq<T>, key: T -> string)
    ensures forall y :: y in SortBy(xs, key) <==> y in xs
  {
    if xs != [] {
      var init := xs[..|xs| - 1];
      SortByElements(init, key);
      InsertElements(xs[|xs| - 1], SortBy(init, key), key);
      assert xs == init + [xs[|xs| - 1]];
    }
  }

  /** Sorting keeps the elements, so it keeps their being distinct. */
  lemma {:induction false} SortByDistinct<T>(xs: seq<T>, key: T -> string)
    requires Distinct(xs)
    ensures Distinct(SortBy(xs, key))
  {
    if xs != [] {
      var init, last := xs[..|xs| - 1], xs[|xs| - 1];
      assert Distinct(init) by {
        forall a, b | 0 <= a < b < |init|
          ensures init[a] != init[b]
        {
          assert init[a] == xs[a] && init[b] == xs[b];
        }
      }
      assert last !in init by {
        forall m | 0 <= m < |init|
          ensures init[m] != last
        {
          assert init[m] == xs[m];
        }
      }
      SortByDistinct(init, key);
      SortByElements(init, key);
      InsertDistinct(last, SortBy(init, key), key);
    }
  }

  lemma SortByElementSet<T>(xs: seq<T>, key: T -> string)
    ensures Elements(SortBy(xs, key)) == Elements(xs)
  {
    var ys := SortBy(xs, key);
    SortByElements(xs, key);
    forall y | y in Elements(ys)
      ensures y in Elements(xs)
    {
      assert y in ys;
    }
    forall y | y in Elements(xs)
      ensures y in Elements(ys)
    {
      assert y in xs;
    }
  }

  /** Sorting a listing of distinct keys gives a sorted listing of the
      same keys. */
  lemma SortByListing<T>(xs: seq<T>, key: T -> string)
    requires Distinct(xs)
    ensures Elements(SortBy(xs, key)) == Elements(xs)
    ensures Distinct(SortBy(xs, key)) && SortedBy(SortBy(xs, key), key)
  {
    SortByElementSet(xs, key);
    SortBySorted(xs, key);
    SortByDistinct(xs, key);
  }
}

/**
  The stable sort of `Array.prototype.sort` (stable since ECMAScript 2019)
  under the comparators the schedule code passes it. Every comparator there
  has the shape `a.x - b.x || a.y - b.y`, i.e. it orders by a pair of
  integers lexicographically, so sorting is modelled as sorting by a `Key`.
 */
module StableSort {
  import opened Seqs

  /** A lexicographic sort key: first `major`, then `minor`. */
  datatype Key = Key(major: int, minor: int)

  predicate KeyLe(a: Key, b: Key)
  {
    a.major < b.major || (a.major == b.major && a.minor <= b.minor)
  }

  predicate SortedBy<T>(s: seq<T>, key: T -> Key)
  {
    forall i, j :: 0 <= i < j < |s| ==> KeyLe(key(s[i]), key(s[j]))
  }

  /** Selects the elements whose key is `k`. */
  function HasKey<T>(key: T -> Key, k: Key): T -> bool
  {
    x => key(x) == k
  }

  /**
    Stability: for every key, the elements carrying that key appear in the
    same relative order in `r` as in `s`.
   */
  ghost predicate SameOrderPerKey<T(!new)>(r: seq<T>, s: seq<T>, key: T -> Key)
  {
    forall k :: Filter(r, HasKey(key, k)) == Filter(s, HasKey(key, k))
  }

  /** Inserts `x` in front of the first element whose key is not smaller than its own. */
  function Insert<T(!new)>(x: T, s: seq<T>, key: T -> Key): (r: seq<T>)
    requires SortedBy(s, key)
    ensures SortedBy(r, key)
    ensures multiset(r) == multiset(s) + multiset{x}
  {
    if |s| == 0 || KeyLe(key(x), key(s[0])) then
      ConsSorted(x, s, key);
      [x] + s
    else
      var t := Insert(x, s[1..], key);
      assert s == [s[0]] + s[1..];
      ConsSorted(s[0], t, key);
      [s[0]] + t
  }

  /** Prepending a least element to a sorted sequence keeps it sorted. */
  lemma ConsSorted<T(!new)>(h: T, t: seq<T>, key: T -> Key)
    requires SortedBy(t, key)
    requires forall y :: y in multiset(t) ==> KeyLe(key(h), key(y))
    ensures SortedBy([h] + t, key)
  {
    var s := [h] + t;
    forall i, j | 0 <= i < j < |s| ensures KeyLe(key(s[i]), key(s[j])) {
      if i == 0 {
        assert s[j] == t[j - 1];
        assert t[j - 1] in multiset(t);
      } else {
        assert s[i] == t[i - 1] && s[j] == t[j - 1];
      }
    }
  }

  /** Inserting `x` places it ahead of the elements of `s` that share its key. */
  lemma {:induction false} InsertKeepsOrder<T(!new)>(x: T, s: seq<T>, key: T -> Key, k: Key)
    requires SortedBy(s, key)
    ensures Filter(Insert(x, s, key), HasKey(key, k)) == Filter([x], HasKey(key, k)) + Filter(s, HasKey(key, k))
  {
    var p := HasKey(key, k);
    if |s| == 0 || KeyLe(key(x), key(s[0])) {
      FilterAppend([x], s, p);
    } else {
      InsertKeepsOrder(x, s[1..], key, k);
      FilterAppend([s[0]], Insert(x, s[1..], key), p);
      FilterAppend([s[0]], s[1..], p);
      assert s == [s[0]] + s[1..];
      assert Filter([s[0]], p) == [] || Filter([x], p) == [];
      SwapEmpty(Filter([s[0]], p), Filter([x], p), Filter(s[1..], p));
    }
  }

  /** Two sequences one of which is empty can be swapped in front of a third. */
  lemma SwapEmpty<T>(a: seq<T>, b: seq<T>, c: seq<T>)
    requires a == [] || b == []
    ensures a + (b + c) == b + (a + c)
  {
    if a == [] {
      assert a + (b + c) == b + c == b + (a + c);
    } else {
      assert a + (b + c) == a + c == b + (a + c);
    }
  }

  /** Insertion sort: a sorted permutation of `s` (stable, by `SortByStable`). */
  function SortBy<T(!new)>(s: seq<T>, key: T -> Key): (r: seq<T>)
    ensures SortedBy(r, key)
    ensures multiset(r) == multiset(s)
  {
    if |s| == 0 then []
    else
      assert s == [s[0]] + s[1..];
      Insert(s[0], SortBy(s[1..], key), key)
  }

  /** `SortBy` is stable: elements with equal keys keep their relative order. */
  lemma {:induction false} SortByStable<T(!new)>(s: seq<T>, key: T -> Key)
    ensures SameOrderPerKey(SortBy(s, key), s, key)
  {
    if |s| > 0 {
      var t := SortBy(s[1..], key);
      SortByStable(s[1..], key);
      assert s == [s[0]] + s[1..];
      forall k ensures Filter(SortBy(s, key), HasKey(key, k)) == Filter(s, HasKey(key, k)) {
        InsertKeepsOrder(s[0], t, key, k);
        FilterAppend([s[0]], s[1..], HasKey(key, k));
      }
    }
  }

  /** In a sorted sequence the first element carries the least key. */
  lemma FirstIsLeast<T>(s: seq<T>, key: T -> Key, y: T)
    requires SortedBy(s, key) && |s| > 0 && y in s
    ensures KeyLe(key(s[0]), key(y))
  {
    var j :| 0 <= j < |s| && s[j] == y;
    if j > 0 {
      assert KeyLe(key(s[0]), key(s[j]));
    }
  }

  /**
    A stable sort is determined by its input: two sorted sequences that
    agree on the order of the elements of every key are equal. Together
    with the contract of `SortBy`, this says `SortBy` computes exactly the
    result any conforming stable sort must produce.
   */
  lemma {:induction false} StableSortUnique<T(!new)>(a: seq<T>, b: seq<T>, key: T -> Key)
    requires SortedBy(a, key) && SortedBy(b, key)
    requires SameOrderPerKey(a, b, key)
    ensures a == b
  {
    if |a| == 0 && |b| == 0 {
      return;
    }
    if |a| == 0 {
      OwnKey(b, key);
      assert false;
    }
    if |b| == 0 {
      OwnKey(a, key);
      assert false;
    }
    var ka, kb := key(a[0]), key(b[0]);
    assert b[0] in Filter(b, HasKey(key, kb));
    assert b[0] in a by { assert Filter(a, HasKey(key, kb)) == Filter(b, HasKey(key, kb)); }
    assert a[0] in Filter(a, HasKey(key, ka));
    assert a[0] in b by { assert Filter(a, HasKey(key, ka)) == Filter(b, HasKey(key, ka)); }
    FirstIsLeast(a, key, b[0]);
    FirstIsLeast(b, key, a[0]);
    assert ka == kb;
    assert Filter(a, HasKey(key, ka))[0] == a[0];
    assert Filter(b, HasKey(key, ka))[0] == b[0];
    assert a[0] == b[0] by { assert Filter(a, HasKey(key, ka)) == Filter(b, HasKey(key, ka)); }
    assert SameOrderPerKey(a[1..], b[1..], key) by {
      forall k ensures Filter(a[1..], HasKey(key, k)) == Filter(b[1..], HasKey(key, k)) {
        var head := Filter([a[0]], HasKey(key, k));
        FilterAppend([a[0]], a[1..], HasKey(key, k));
        FilterAppend([b[0]], b[1..], HasKey(key, k));
        assert a == [a[0]] + a[1..];
        assert b == [b[0]] + b[1..];
        assert head + Filter(a[1..], HasKey(key, k)) == head + Filter(b[1..], HasKey(key, k)) by {
          assert Filter(a, HasKey(key, k)) == Filter(b, HasKey(key, k));
        }
        SameTail(head, Filter(a[1..], HasKey(key, k)), Filter(b[1..], HasKey(key, k)));
      }
    }
    StableSortUnique(a[1..], b[1..], key);
    assert a == [a[0]] + a[1..];
    assert b == [b[0]] + b[1..];
  }

  /** The head of a sequence is selected by its own key. */
  lemma OwnKey<T(!new)>(s: seq<T>, key: T -> Key)
    ensures |s| > 0 ==> s[0] in Filter(s, HasKey(key, key(s[0])))
  {
  }

  lemma SameTail<T>(h: seq<T>, u: seq<T>, v: seq<T>)
    requires h + u == h + v
    ensures u == v
  {
    assert u == (h + u)[|h|..];
    assert v == (h + v)[|h|..];
  }

  /** Any sorted, stable rearrangement of `s` is `SortBy(s, key)`. */
  lemma SortByIsTheStableSort<T(!new)>(s: seq<T>, r: seq<T>, key: T -> Key)
    requires SortedBy(r, key) && SameOrderPerKey(r, s, key)
    ensures r == SortBy(s, key)
  {
    var t := SortBy(s, key);
    SortByStable(s, key);
    assert SameOrderPerKey(r, t, key);
    StableSortUnique(r, t, key);
  }

  /** A subsequence selected by a filter stays sorted. */
  lemma {:induction false} FilterSorted<T(!new)>(s: seq<T>, p: T -> bool, key: T -> Key)
    requires SortedBy(s, key)
    ensures SortedBy(Filter(s, p), key)
  {
    if |s| > 0 {
      FilterSorted(s[1..], p, key);
      var t := Filter(s[1..], p);
      forall y | y in t ensures KeyLe(key(s[0]), key(y)) {
        assert y in s;
        FirstIsLeast(s, key, y);
      }
    }
  }
}

/**
 * `order_by(value_selector, descending)`: Python's `sorted(iterable, key=..., reverse=...)`, a
 * stable sort by an integer key. With `reverse` the order of the keys is flipped while elements
 * with equal keys still keep their original relative order.
 */
module Ordering {
  import opened Sequences
  import opened Keyed

  /** Key `a` may stand before key `b` in the result: `a <= b` ascending, `a >= b` descending. */
  predicate Precedes(a: int, b: int, descending: bool)
  {
    if descending then a >= b else a <= b
  }

  /** Every element's key may stand before the keys of all elements after it. */
  ghost predicate SortedBy<T>(s: seq<T>, key: T -> int, descending: bool)
  {
    forall i, j :: 0 <= i < j < |s| ==> Precedes(key(s[i]), key(s[j]), descending)
  }

  /** Inserts `x` after every element whose key may stand before its own. */
  function Insert<T>(x: T, t: seq<T>, key: T -> int, descending: bool): (r: seq<T>)
    ensures multiset(r) == multiset(t) + multiset{x}
  {
    if t == [] then [x]
    else if Precedes(key(t[0]), key(x), descending) then
      assert t == [t[0]] + t[1..];
      [t[0]] + Insert(x, t[1..], key, descending)
    else [x] + t
  }

  /** Inserting into a sorted sequence keeps it sorted. */
  lemma {:induction false} InsertSorted<T>(x: T, t: seq<T>, key: T -> int, descending: bool)
    requires SortedBy(t, key, descending)
    ensures SortedBy(Insert(x, t, key, descending), key, descending)
  {
    if t != [] && Precedes(key(t[0]), key(x), descending) {
      var rest := Insert(x, t[1..], key, descending);
      InsertSorted(x, t[1..], key, descending);
      var r := [t[0]] + rest;
      forall j | 0 < j < |r| ensures Precedes(key(t[0]), key(r[j]), descending) {
        assert r[j] == rest[j - 1];
        assert rest[j - 1] in multiset(rest);
        if rest[j - 1] != x {
          assert rest[j - 1] in multiset(t[1..]);
          var m :| 0 <= m < |t[1..]| && t[1..][m] == rest[j - 1];
          assert t[m + 1] == r[j];
        }
      }
    }
  }

  /**
   * Inserting `x` adds it behind every element with its key: per key, the elements keep
   * their order and `x` comes last.
   */
  lemma {:induction false} InsertFilter<T>(x: T, t: seq<T>, key: T -> int, descending: bool, k: int)
    requires SortedBy(t, key, descending)
    ensures Filter(Insert(x, t, key, descending), HasKey(key, k)) ==
            Filter(t, HasKey(key, k)) + if key(x) == k then [x] else []
    decreases |t|, 1
  {
    var p := HasKey(key, k);
    var kept := if key(x) == k then [x] else [];
    if t == [] {
      FilterSnoc([], x, p);
      assert [] + [x] == [x];
    } else if Precedes(key(t[0]), key(x), descending) {
      InsertFilterBehind(x, t, key, descending, k);
    } else {
      InsertFilterFront(x, t, key, descending, k);
    }
  }

  /** `InsertFilter` where `x` goes behind the first element of `t`. */
  lemma {:induction false} InsertFilterBehind<T>(x: T, t: seq<T>, key: T -> int, descending: bool, k: int)
    requires SortedBy(t, key, descending)
    requires t != [] && Precedes(key(t[0]), key(x), descending)
    ensures Filter(Insert(x, t, key, descending), HasKey(key, k)) ==
            Filter(t, HasKey(key, k)) + if key(x) == k then [x] else []
    decreases |t|, 0
  {
    var p := HasKey(key, k);
    var kept := if key(x) == k then [x] else [];
    var head := if p(t[0]) then [t[0]] else [];
    var rest := Insert(x, t[1..], key, descending);
    assert Insert(x, t, key, descending) == [t[0]] + rest;
    HeadTail(t);
    InsertFilter(x, t[1..], key, descending, k);
    FilterCons(t[0], rest, p);
    FilterCons(t[0], t[1..], p);
    ConcatAssoc(head, Filter(t[1..], p), kept);
  }

  /** `InsertFilter` where `x` goes in front of `t`. */
  lemma {:induction false} InsertFilterFront<T>(x: T, t: seq<T>, key: T -> int, descending: bool, k: int)
    requires SortedBy(t, key, descending)
    requires t != [] && !Precedes(key(t[0]), key(x), descending)
    ensures Filter(Insert(x, t, key, descending), HasKey(key, k)) ==
            Filter(t, HasKey(key, k)) + if key(x) == k then [x] else []
  {
    var p := HasKey(key, k);
    assert Insert(x, t, key, descending) == [x] + t;
    FilterCons(x, t, p);
    if key(x) == k {
      forall i | 0 <= i < |t| ensures !p(t[i]) {
        if i > 0 {
          assert Precedes(key(t[0]), key(t[i]), descending);
        }
      }
      FilterEmpty(t, p);
      assert [x] + [] == [] + [x];
    } else {
      assert [] + Filter(t, p) == Filter(t, p) + [];
    }
  }

  /** The stable sort: elements are inserted one by one, from the first to the last. */
  function SortBy<T>(s: seq<T>, key: T -> int, descending: bool): (r: seq<T>)
    ensures SortedBy(r, key, descending)
    ensures multiset(r) == multiset(s)
  {
    if s == [] then []
    else
      var init, x := s[..|s| - 1], s[|s| - 1];
      assert s == init + [x];
      var r := SortBy(init, key, descending);
      InsertSorted(x, r, key, descending);
      Insert(x, r, key, descending)
  }

  /** Stability: for every key, the elements with that key appear in the result in source order. */
  lemma {:induction false} SortByIsStable<T>(s: seq<T>, key: T -> int, descending: bool)
    ensures forall k :: Filter(SortBy(s, key, descending), HasKey(key, k)) == Filter(s, HasKey(key, k))
  {
    if s != [] {
      var init, x := s[..|s| - 1], s[|s| - 1];
      assert s == init + [x];
      SortByIsStable(init, key, descending);
      forall k ensures Filter(SortBy(s, key, descending), HasKey(key, k)) == Filter(s, HasKey(key, k)) {
        InsertFilter(x, SortBy(init, key, descending), key, descending, k);
        FilterSnoc(init, x, HasKey(key, k));
      }
    }
  }

  /** Dropping the first element of a sorted sequence leaves it sorted. */
  lemma {:induction false} SortedTail<T>(s: seq<T>, key: T -> int, descending: bool)
    requires s != [] && SortedBy(s, key, descending)
    ensures SortedBy(s[1..], key, descending)
  {
    forall i, j | 0 <= i < j < |s[1..]| ensures Precedes(key(s[1..][i]), key(s[1..][j]), descending) {
      assert s[1..][i] == s[i + 1] && s[1..][j] == s[j + 1];
    }
  }

  /** Two sequences with the same elements per key are both empty or both not. */
  lemma {:induction false} SameFiltersSameEmptiness<T>(r1: seq<T>, r2: seq<T>, key: T -> int)
    requires forall k :: Filter(r1, HasKey(key, k)) == Filter(r2, HasKey(key, k))
    ensures r1 == [] <==> r2 == []
  {
    if r2 != [] {
      FilterEmpty(r2, HasKey(key, key(r2[0])));
      FilterEmpty(r1, HasKey(key, key(r2[0])));
    }
    if r1 != [] {
      FilterEmpty(r1, HasKey(key, key(r1[0])));
      FilterEmpty(r2, HasKey(key, key(r1[0])));
    }
  }

  /** The first key of a sorted sequence may stand before every key that occurs in it. */
  lemma {:induction false} HeadPrecedes<T>(r: seq<T>, key: T -> int, descending: bool, k: int)
    requires r != [] && SortedBy(r, key, descending)
    requires Filter(r, HasKey(key, k)) != []
    ensures Precedes(key(r[0]), k, descending)
  {
    FilterEmpty(r, HasKey(key, k));
    var i :| 0 <= i < |r| && key(r[i]) == k;
    if i > 0 {
      assert Precedes(key(r[0]), key(r[i]), descending);
    }
  }

  /** Two sorted sequences with the same elements per key start with the same key. */
  lemma {:induction false} SameHeadKey<T>(r1: seq<T>, r2: seq<T>, key: T -> int, descending: bool)
    requires r1 != [] && r2 != []
    requires SortedBy(r1, key, descending) && SortedBy(r2, key, descending)
    requires forall k :: Filter(r1, HasKey(key, k)) == Filter(r2, HasKey(key, k))
    ensures key(r1[0]) == key(r2[0])
  {
    var ka, kb := key(r1[0]), key(r2[0]);
    FilterEmpty(r1, HasKey(key, ka));
    FilterEmpty(r2, HasKey(key, kb));
    assert Filter(r1, HasKey(key, kb)) == Filter(r2, HasKey(key, kb));
    assert Filter(r2, HasKey(key, ka)) == Filter(r1, HasKey(key, ka));
    HeadPrecedes(r1, key, descending, kb);
    HeadPrecedes(r2, key, descending, ka);
  }

  /** Sequences whose first elements share a key and that agree per key start with the same element. */
  lemma {:induction false} SameHead<T>(r1: seq<T>, r2: seq<T>, key: T -> int)
    requires r1 != [] && r2 != [] && key(r1[0]) == key(r2[0])
    requires Filter(r1, HasKey(key, key(r1[0]))) == Filter(r2, HasKey(key, key(r1[0])))
    ensures r1[0] == r2[0]
  {
    var p := HasKey(key, key(r1[0]));
    HeadTail(r1);
    HeadTail(r2);
    FilterCons(r1[0], r1[1..], p);
    FilterCons(r2[0], r2[1..], p);
    assert ([r1[0]] + Filter(r1[1..], p))[0] == r1[0];
    assert ([r2[0]] + Filter(r2[1..], p))[0] == r2[0];
  }

  /** Dropping the same first element keeps two sequences in agreement per key. */
  lemma {:induction false} TailFilters<T>(a: T, t1: seq<T>, t2: seq<T>, key: T -> int)
    requires forall k :: Filter([a] + t1, HasKey(key, k)) == Filter([a] + t2, HasKey(key, k))
    ensures forall k :: Filter(t1, HasKey(key, k)) == Filter(t2, HasKey(key, k))
  {
    forall k ensures Filter(t1, HasKey(key, k)) == Filter(t2, HasKey(key, k)) {
      var p := HasKey(key, k);
      var head := if p(a) then [a] else [];
      FilterCons(a, t1, p);
      FilterCons(a, t2, p);
      var f1, f2 := Filter(t1, p), Filter(t2, p);
      assert head + f1 == head + f2;
      assert f1 == (head + f1)[|head|..];
      assert f2 == (head + f2)[|head|..];
    }
  }

  /** Two non-empty sorted sequences that agree per key share their first element, and their rests again agree. */
  lemma {:induction false} SortedStableStep<T>(r1: seq<T>, r2: seq<T>, key: T -> int, descending: bool)
    requires r1 != [] && r2 != []
    requires SortedBy(r1, key, descending) && SortedBy(r2, key, descending)
    requires forall k :: Filter(r1, HasKey(key, k)) == Filter(r2, HasKey(key, k))
    ensures r1[0] == r2[0]
    ensures SortedBy(r1[1..], key, descending) && SortedBy(r2[1..], key, descending)
    ensures forall k :: Filter(r1[1..], HasKey(key, k)) == Filter(r2[1..], HasKey(key, k))
  {
    SameHeadKey(r1, r2, key, descending);
    SameHead(r1, r2, key);
    HeadTail(r1);
    HeadTail(r2);
    TailFilters(r1[0], r1[1..], r2[1..], key);
    SortedTail(r1, key, descending);
    SortedTail(r2, key, descending);
  }

  /**
   * A sorted sequence is determined by which elements it holds per key and in what order:
   * there is only one stable sort result.
   */
  lemma {:induction false} SortedStableUnique<T>(r1: seq<T>, r2: seq<T>, key: T -> int, descending: bool)
    requires SortedBy(r1, key, descending) && SortedBy(r2, key, descending)
    requires forall k :: Filter(r1, HasKey(key, k)) == Filter(r2, HasKey(key, k))
    ensures r1 == r2
    decreases |r1|
  {
    SameFiltersSameEmptiness(r1, r2, key);
    if r1 != [] {
      SortedStableStep(r1, r2, key, descending);
      SortedStableUnique(r1[1..], r2[1..], key, descending);
      HeadTail(r1);
      HeadTail(r2);
    }
  }

  /** With pairwise distinct keys there is at most one element per key. */
  lemma {:induction false} DistinctKeysFilter<T>(s: seq<T>, key: T -> int, k: int)
    requires forall i, j :: 0 <= i < j < |s| ==> key(s[i]) != key(s[j])
    ensures |Filter(s, HasKey(key, k))| <= 1
  {
    if s != [] {
      var init, x := s[..|s| - 1], s[|s| - 1];
      assert s == init + [x];
      FilterSnoc(init, x, HasKey(key, k));
      DistinctKeysFilter(init, key, k);
      if key(x) == k {
        assert forall i :: 0 <= i < |init| ==> !HasKey(key, k)(init[i]) by {
          forall i | 0 <= i < |init| ensures key(init[i]) != k {
            assert key(s[i]) != key(s[|s| - 1]);
          }
        }
        FilterEmpty(init, HasKey(key, k));
      }
    }
  }

  /** An ascending sequence read backwards is descending. */
  lemma {:induction false} ReverseSorted<T>(s: seq<T>, key: T -> int)
    requires SortedBy(s, key, false)
    ensures SortedBy(Reverse(s), key, true)
  {
    var r := Reverse(s);
    forall i, j | 0 <= i < j < |r| ensures Precedes(key(r[i]), key(r[j]), true) {
      assert r[i] == s[|s| - 1 - i] && r[j] == s[|s| - 1 - j];
      assert Precedes(key(s[|s| - 1 - j]), key(s[|s| - 1 - i]), false);
    }
  }

  /** Reversing does not change the elements of a key that has at most one. */
  lemma {:induction false} ReverseSingleFilter<T>(t: seq<T>, s: seq<T>, key: T -> int, k: int)
    requires Filter(t, HasKey(key, k)) == Filter(s, HasKey(key, k))
    requires |Filter(s, HasKey(key, k))| <= 1
    ensures Filter(Reverse(t), HasKey(key, k)) == Filter(s, HasKey(key, k))
  {
    FilterReverse(t, HasKey(key, k));
    var f := Filter(s, HasKey(key, k));
    assert Reverse(f) == f;
  }

  /** With pairwise distinct keys, the reversed ascending sort agrees with the source per key. */
  lemma {:induction false} ReversedAscendingFilters<T>(s: seq<T>, key: T -> int)
    requires forall i, j :: 0 <= i < j < |s| ==> key(s[i]) != key(s[j])
    ensures forall k :: Filter(Reverse(SortBy(s, key, false)), HasKey(key, k)) == Filter(s, HasKey(key, k))
  {
    var up := SortBy(s, key, false);
    SortByIsStable(s, key, false);
    forall k ensures Filter(Reverse(up), HasKey(key, k)) == Filter(s, HasKey(key, k)) {
      DistinctKeysFilter(s, key, k);
      ReverseSingleFilter(up, s, key, k);
    }
  }

  /** With pairwise distinct keys, the descending order is the ascending order reversed. */
  lemma {:induction false} DescendingIsReversedAscending<T>(s: seq<T>, key: T -> int)
    requires forall i, j :: 0 <= i < j < |s| ==> key(s[i]) != key(s[j])
    ensures SortBy(s, key, true) == Reverse(SortBy(s, key, false))
  {
    ReverseSorted(SortBy(s, key, false), key);
    ReversedAscendingFilters(s, key);
    SortByIsStable(s, key, true);
    SortedStableUnique(SortBy(s, key, true), Reverse(SortBy(s, key, false)), key, true);
  }
}

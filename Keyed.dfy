/**
 * Reference definitions for the operators that look at a key per element: the key image,
 * first-occurrence deduplication (`distinct`), grouping (`group_by`) and last-write-wins
 * dictionaries (`to_dictionary`).
 */
module Keyed {
  import opened Sequences

  /** "The element's key is `k`", as one function value. */
  function HasKey<T, K(==)>(key: T -> K, k: K): T -> bool
  {
    x => key(x) == k
  }

  /** The set of keys of the elements of `s`. */
  function KeysOf<T, K(==)>(s: seq<T>, key: T -> K): (ks: set<K>)
    ensures forall k :: k in ks ==> exists i :: 0 <= i < |s| && key(s[i]) == k
    ensures forall i :: 0 <= i < |s| ==> key(s[i]) in ks
  {
    if s == [] then {}
    else
      var init := s[..|s| - 1];
      assert forall i :: 0 <= i < |init| ==> init[i] == s[i];
      KeysOf(init, key) + {key(s[|s| - 1])}
  }

  /** Some two elements of `s` share a key. */
  ghost predicate HasDuplicateKey<T, K>(s: seq<T>, key: T -> K)
  {
    exists i, j :: 0 <= i < j < |s| && key(s[i]) == key(s[j])
  }

  /** The keys that survive dropping every element with key `k`. */
  lemma {:induction false} KeysOfFilterOther<T, K>(s: seq<T>, key: T -> K, k: K, k': K)
    ensures k' in KeysOf(Filter(s, Not(HasKey(key, k))), key) <==> k' != k && k' in KeysOf(s, key)
  {
    var p := Not(HasKey(key, k));
    var r := Filter(s, p);
    if k' in KeysOf(r, key) {
      var i :| 0 <= i < |r| && key(r[i]) == k';
      assert p(r[i]);
      assert r[i] in multiset(r);
      assert r[i] in multiset(s);
      var j :| 0 <= j < |s| && s[j] == r[i];
      assert key(s[j]) == k';
    }
    if k' != k && k' in KeysOf(s, key) {
      var j :| 0 <= j < |s| && key(s[j]) == k';
      assert p(s[j]);
      assert s[j] in multiset(s);
      assert s[j] in multiset(r);
      var i :| 0 <= i < |r| && r[i] == s[j];
      assert key(r[i]) == k';
    }
  }

  /**
   * `distinct(key_selector)` as the loop of the source computes it: walking left to right, an
   * element is kept when its key has not been seen before.
   */
  function DistinctBy<T, K(==)>(s: seq<T>, key: T -> K): (r: seq<T>)
    ensures forall i, j :: 0 <= i < j < |r| ==> key(r[i]) != key(r[j])
    ensures KeysOf(r, key) == KeysOf(s, key)
    ensures multiset(r) <= multiset(s)
  {
    if s == [] then []
    else
      var r := DistinctBy(s[..|s| - 1], key);
      if key(s[|s| - 1]) in KeysOf(s[..|s| - 1], key) then
        DistinctStepSeen(s, r, key);
        r
      else
        DistinctStepNew(s, s[|s| - 1], r, key);
        r + [s[|s| - 1]]
  }

  /** A step of `DistinctBy` that drops the last element, whose key was seen before. */
  lemma {:induction false} DistinctStepSeen<T, K>(s: seq<T>, r: seq<T>, key: T -> K)
    requires s != [] && key(s[|s| - 1]) in KeysOf(s[..|s| - 1], key)
    requires KeysOf(r, key) == KeysOf(s[..|s| - 1], key)
    requires multiset(r) <= multiset(s[..|s| - 1])
    ensures KeysOf(r, key) == KeysOf(s, key)
    ensures multiset(r) <= multiset(s)
  {
    var init, last := s[..|s| - 1], s[|s| - 1];
    assert s == init + [last];
    assert multiset(s) == multiset(init) + multiset{last};
    KeysOfSnoc(init, last, key);
  }

  /** A step of `DistinctBy` that keeps the last element, whose key is new. */
  lemma {:induction false} DistinctStepNew<T, K>(s: seq<T>, last: T, r: seq<T>, key: T -> K)
    requires s != [] && last == s[|s| - 1] && key(last) !in KeysOf(s[..|s| - 1], key)
    requires forall i, j :: 0 <= i < j < |r| ==> key(r[i]) != key(r[j])
    requires KeysOf(r, key) == KeysOf(s[..|s| - 1], key)
    requires multiset(r) <= multiset(s[..|s| - 1])
    ensures forall i, j :: 0 <= i < j < |r + [last]| ==> key((r + [last])[i]) != key((r + [last])[j])
    ensures KeysOf(r + [last], key) == KeysOf(s, key)
    ensures multiset(r + [last]) <= multiset(s)
  {
    var init := s[..|s| - 1];
    assert s == init + [last];
    assert multiset(s) == multiset(init) + multiset{last};
    DistinctKeysSnoc(r, last, key);
    assert KeysOf(r + [last], key) == KeysOf(s, key) by {
      KeysOfSnoc(init, last, key);
      KeysOfSnoc(r, last, key);
    }
    assert multiset(r + [last]) == multiset(r) + multiset{last};
  }

  /** Appending an element with a new key keeps the keys pairwise distinct. */
  lemma {:induction false} DistinctKeysSnoc<T, K>(r: seq<T>, y: T, key: T -> K)
    requires forall i, j :: 0 <= i < j < |r| ==> key(r[i]) != key(r[j])
    requires key(y) !in KeysOf(r, key)
    ensures forall i, j :: 0 <= i < j < |r + [y]| ==> key((r + [y])[i]) != key((r + [y])[j])
  {
    var ry := r + [y];
    forall i, j | 0 <= i < j < |ry| ensures key(ry[i]) != key(ry[j]) {
      assert ry[i] == r[i];
      if j < |r| {
        assert ry[j] == r[j];
      } else {
        assert key(r[i]) in KeysOf(r, key);
      }
    }
  }

  /**
   * An independent reference definition of first-occurrence deduplication: keep the head,
   * drop every later element with the head's key, and repeat on what is left.
   */
  function FirstOfEachKey<T, K(==)>(s: seq<T>, key: T -> K): seq<T>
    decreases |s|
  {
    if s == [] then []
    else [s[0]] + FirstOfEachKey(Filter(s[1..], Not(HasKey(key, key(s[0])))), key)
  }

  /** The keys of a sequence that ends with `y`. */
  lemma {:induction false} KeysOfSnoc<T, K>(s: seq<T>, y: T, key: T -> K)
    ensures KeysOf(s + [y], key) == KeysOf(s, key) + {key(y)}
  {
    assert (s + [y])[..|s|] == s;
  }

  /** The keys of a sequence that starts with `x`. */
  lemma {:induction false} KeysOfCons<T, K>(x: T, u: seq<T>, key: T -> K)
    ensures KeysOf([x] + u, key) == {key(x)} + KeysOf(u, key)
  {
    var xu := [x] + u;
    forall k | k in KeysOf(xu, key) ensures k in {key(x)} + KeysOf(u, key) {
      var i :| 0 <= i < |xu| && key(xu[i]) == k;
      if i > 0 {
        assert xu[i] == u[i - 1];
      }
    }
    forall k | k in {key(x)} + KeysOf(u, key) ensures k in KeysOf(xu, key) {
      if k != key(x) {
        var i :| 0 <= i < |u| && key(u[i]) == k;
        assert xu[i + 1] == u[i];
      } else {
        assert xu[0] == x;
      }
    }
  }

  /** Deduplicating a sequence that ends with `y` (the step of the `distinct` loop). */
  lemma {:induction false} DistinctSnoc<T, K>(s: seq<T>, y: T, key: T -> K)
    ensures DistinctBy(s + [y], key) == DistinctBy(s, key) + if key(y) in KeysOf(s, key) then [] else [y]
  {
    assert (s + [y])[..|s|] == s;
  }

  /** Deduplicating a sequence that starts with `x`: `x` stays, and so does nothing else with its key. */
  lemma {:induction false} DistinctCons<T, K>(x: T, t: seq<T>, key: T -> K)
    ensures DistinctBy([x] + t, key) == [x] + DistinctBy(Filter(t, Not(HasKey(key, key(x)))), key)
  {
    if t == [] {
      assert [x] + t == [] + [x];
      DistinctSnoc([], x, key);
    } else {
      var u, y := t[..|t| - 1], t[|t| - 1];
      assert t == u + [y];
      DistinctCons(x, u, key);
      DistinctConsStep(x, u, y, key);
    }
  }

  /** The inductive step of `DistinctCons`: from `[x] + u` to `[x] + u + [y]`. */
  lemma {:induction false} DistinctConsStep<T, K>(x: T, u: seq<T>, y: T, key: T -> K)
    requires DistinctBy([x] + u, key) == [x] + DistinctBy(Filter(u, Not(HasKey(key, key(x)))), key)
    ensures DistinctBy([x] + (u + [y]), key) == [x] + DistinctBy(Filter(u + [y], Not(HasKey(key, key(x)))), key)
  {
    var q := Not(HasKey(key, key(x)));
    var fu := Filter(u, q);
    var d := DistinctBy(fu, key);
    var extra := if key(y) in KeysOf([x] + u, key) then [] else [y];
    ConcatAssoc([x], u, [y]);
    DistinctSnoc([x] + u, y, key);
    ConcatAssoc([x], d, extra);
    FilterSnoc(u, y, q);
    KeysOfCons(x, u, key);
    if key(y) != key(x) {
      DistinctSnoc(fu, y, key);
      KeysOfFilterOther(u, key, key(x), key(y));
    } else {
      assert fu + [] == fu;
      assert d + [] == d;
    }
  }

  /** The loop's deduplication agrees with the reference definition. */
  lemma {:induction false} DistinctIsFirstOfEachKey<T, K>(s: seq<T>, key: T -> K)
    ensures DistinctBy(s, key) == FirstOfEachKey(s, key)
    decreases |s|
  {
    if s != [] {
      assert s == [s[0]] + s[1..];
      DistinctCons(s[0], s[1..], key);
      DistinctIsFirstOfEachKey(Filter(s[1..], Not(HasKey(key, key(s[0])))), key);
    }
  }

  /** A sequence whose keys are already pairwise distinct is left as it is. */
  lemma {:induction false} DistinctOfDistinctKeys<T, K>(s: seq<T>, key: T -> K)
    requires forall i, j :: 0 <= i < j < |s| ==> key(s[i]) != key(s[j])
    ensures DistinctBy(s, key) == s
  {
    if s != [] {
      var init, last := s[..|s| - 1], s[|s| - 1];
      assert s == init + [last];
      assert forall i, j :: 0 <= i < j < |init| ==> key(init[i]) != key(init[j]) by {
        forall i, j | 0 <= i < j < |init| ensures key(init[i]) != key(init[j]) {
          assert init[i] == s[i] && init[j] == s[j];
        }
      }
      DistinctOfDistinctKeys(init, key);
      assert key(last) !in KeysOf(init, key) by {
        forall k | k in KeysOf(init, key) ensures k != key(last) {
          var i :| 0 <= i < |init| && key(init[i]) == k;
          assert key(s[i]) != key(s[|s| - 1]);
        }
      }
      DistinctSnoc(init, last, key);
    }
  }

  /** Deduplicating twice is deduplicating once. */
  lemma {:induction false} DistinctIdempotent<T, K>(s: seq<T>, key: T -> K)
    ensures DistinctBy(DistinctBy(s, key), key) == DistinctBy(s, key)
  {
    DistinctOfDistinctKeys(DistinctBy(s, key), key);
  }

  /** When every element has the same key, only the first element survives. */
  lemma {:induction false} DistinctConstantKey<T, K>(s: seq<T>, key: T -> K)
    requires s != []
    requires forall i :: 0 <= i < |s| ==> key(s[i]) == key(s[0])
    ensures DistinctBy(s, key) == [s[0]]
  {
    DistinctIsFirstOfEachKey(s, key);
    var q := Not(HasKey(key, key(s[0])));
    var rest := s[1..];
    assert forall i :: 0 <= i < |rest| ==> !q(rest[i]) by {
      forall i | 0 <= i < |rest| ensures !q(rest[i]) {
        assert rest[i] == s[i + 1];
      }
    }
    FilterEmpty(rest, q);
  }

  /**
   * `group_by(key_selector, value_selector)` as its loop builds the dictionary: the first element
   * with a key starts that key's list, every later one is appended to it.
   */
  function GroupBy<T, K(==), V>(s: seq<T>, key: T -> K, value: T -> V): (g: map<K, seq<V>>)
    ensures g.Keys == KeysOf(s, key)
  {
    if s == [] then map[]
    else
      var g, x := GroupBy(s[..|s| - 1], key, value), s[|s| - 1];
      g[key(x) := (if key(x) in g then g[key(x)] else []) + [value(x)]]
  }

  /**
   * The independent description of a group: the list under key `k` holds the values of exactly
   * the elements whose key is `k`, in source order.
   */
  lemma {:induction false} GroupByAt<T, K, V>(s: seq<T>, key: T -> K, value: T -> V, k: K)
    requires k in KeysOf(s, key)
    ensures GroupBy(s, key, value)[k] == Mapped(Filter(s, HasKey(key, k)), value)
  {
    var init, x := s[..|s| - 1], s[|s| - 1];
    assert s == init + [x];
    KeysOfSnoc(init, x, key);
    var p := HasKey(key, k);
    var a := Filter(init, p);
    FilterSnoc(init, x, p);
    if key(x) == k {
      assert Filter(s, p) == a + [x];
      MappedSnoc(a, x, value);
      if k in KeysOf(init, key) {
        GroupByAt(init, key, value, k);
      } else {
        assert forall i :: 0 <= i < |init| ==> !p(init[i]);
        FilterEmpty(init, p);
        assert Mapped(a, value) == [];
      }
    } else {
      assert !p(x);
      assert Filter(s, p) == a;
      GroupByAt(init, key, value, k);
    }
  }

  /** No group is empty: a key is only entered together with a value. */
  lemma {:induction false} GroupsAreNonEmpty<T, K, V>(s: seq<T>, key: T -> K, value: T -> V, k: K)
    requires k in KeysOf(s, key)
    ensures |GroupBy(s, key, value)[k]| > 0
  {
    GroupByAt(s, key, value, k);
    var i :| 0 <= i < |s| && key(s[i]) == k;
    FilterEmpty(s, HasKey(key, k));
  }

  /** The combined length of the groups whose keys are listed in `ks`. */
  function TotalSize<K, V>(g: map<K, seq<V>>, ks: seq<K>): nat
  {
    if ks == [] then 0
    else TotalSize(g, ks[..|ks| - 1]) + if ks[|ks| - 1] in g then |g[ks[|ks| - 1]]| else 0
  }

  /** Replacing a group that is not listed does not change the total. */
  lemma {:induction false} TotalSizeUnlisted<K, V>(g: map<K, seq<V>>, ks: seq<K>, k: K, w: seq<V>)
    requires k !in ks
    ensures TotalSize(g[k := w], ks) == TotalSize(g, ks)
  {
    if ks != [] {
      TotalSizeUnlisted(g, ks[..|ks| - 1], k, w);
    }
  }

  /** Replacing a group listed exactly once changes the total by the change in that group's length. */
  lemma {:induction false} TotalSizeUpdate<K, V>(g: map<K, seq<V>>, ks: seq<K>, k: K, w: seq<V>)
    requires k in g && k in ks
    requires forall i, j :: 0 <= i < j < |ks| ==> ks[i] != ks[j]
    ensures TotalSize(g[k := w], ks) + |g[k]| == TotalSize(g, ks) + |w|
  {
    var init, last := ks[..|ks| - 1], ks[|ks| - 1];
    if last == k {
      assert k !in init;
      TotalSizeUnlisted(g, init, k, w);
    } else {
      assert k in init by {
        var i :| 0 <= i < |ks| && ks[i] == k;
        assert init[i] == k;
      }
      TotalSizeUpdate(g, init, k, w);
    }
  }

  /**
   * The keys of `group_by`'s result in the order the source's dictionary receives them:
   * their first occurrences.
   */
  function GroupOrder<T, K(==)>(s: seq<T>, key: T -> K): (ks: seq<K>)
    ensures forall i, j :: 0 <= i < j < |ks| ==> ks[i] != ks[j]
    ensures forall i :: 0 <= i < |ks| ==> ks[i] in KeysOf(s, key)
    ensures forall i :: 0 <= i < |s| ==> key(s[i]) in ks
  {
    var d := DistinctBy(s, key);
    var ks := Mapped(d, key);
    assert forall i :: 0 <= i < |ks| ==> ks[i] in KeysOf(d, key);
    assert forall i :: 0 <= i < |s| ==> key(s[i]) in ks by {
      forall i | 0 <= i < |s| ensures key(s[i]) in ks {
        assert key(s[i]) in KeysOf(d, key);
        var j :| 0 <= j < |d| && key(d[j]) == key(s[i]);
        assert ks[j] == key(s[i]);
      }
    }
    ks
  }

  /** `group_by`'s loop body: one more element starts a group or extends the group of its key. */
  lemma {:induction false} GroupBySnoc<T, K, V>(s: seq<T>, x: T, key: T -> K, value: T -> V)
    ensures GroupBy(s + [x], key, value) ==
      var g := GroupBy(s, key, value);
      g[key(x) := (if key(x) in g then g[key(x)] else []) + [value(x)]]
  {
    assert (s + [x])[..|s|] == s;
  }

  /** The step of `group_by`'s loop over a prefix: the next element extends its key's list, or starts it. */
  lemma {:induction false} GroupByPrefixStep<T, K, V>(s: seq<T>, i: nat, key: T -> K, value: T -> V, g: map<K, seq<V>>)
    requires i < |s| && g == GroupBy(s[..i], key, value)
    ensures key(s[i]) in g ==> GroupBy(s[..i + 1], key, value) == g[key(s[i]) := g[key(s[i])] + [value(s[i])]]
    ensures key(s[i]) !in g ==> GroupBy(s[..i + 1], key, value) == g[key(s[i]) := [value(s[i])]]
  {
    TakeSnoc(s, i);
    GroupBySnoc(s[..i], s[i], key, value);
    if key(s[i]) !in g {
      assert [] + [value(s[i])] == [value(s[i])];
    }
  }

  /** The key order grows only when a new key is met. */
  lemma {:induction false} GroupOrderSnoc<T, K>(s: seq<T>, x: T, key: T -> K)
    ensures GroupOrder(s + [x], key) ==
      if key(x) in KeysOf(s, key) then GroupOrder(s, key) else GroupOrder(s, key) + [key(x)]
  {
    var d := DistinctBy(s, key);
    DistinctSnoc(s, x, key);
    if key(x) !in KeysOf(s, key) {
      MappedSnoc(d, x, key);
    }
  }

  /** The sizes after an element whose key already has a group. */
  lemma {:induction false} GroupSizesSeenKey<T, K, V>(init: seq<T>, x: T, key: T -> K, value: T -> V)
    requires key(x) in KeysOf(init, key)
    requires TotalSize(GroupBy(init, key, value), GroupOrder(init, key)) == |init|
    ensures TotalSize(GroupBy(init + [x], key, value), GroupOrder(init + [x], key)) == |init| + 1
  {
    var g := GroupBy(init, key, value);
    var ks := GroupOrder(init, key);
    GroupBySnoc(init, x, key, value);
    GroupOrderSnoc(init, x, key);
    var w := g[key(x)] + [value(x)];
    assert GroupBy(init + [x], key, value) == g[key(x) := w];
    assert key(x) in ks;
    TotalSizeUpdate(g, ks, key(x), w);
  }

  /** The sizes after an element that opens a new group. */
  lemma {:induction false} GroupSizesNewKey<T, K, V>(init: seq<T>, x: T, key: T -> K, value: T -> V)
    requires key(x) !in KeysOf(init, key)
    requires TotalSize(GroupBy(init, key, value), GroupOrder(init, key)) == |init|
    ensures TotalSize(GroupBy(init + [x], key, value), GroupOrder(init + [x], key)) == |init| + 1
  {
    var g := GroupBy(init, key, value);
    var ks := GroupOrder(init, key);
    GroupBySnoc(init, x, key, value);
    GroupOrderSnoc(init, x, key);
    var nil: seq<V> := [];
    assert nil + [value(x)] == [value(x)];
    var g' := g[key(x) := [value(x)]];
    assert GroupBy(init + [x], key, value) == g';
    var ks' := ks + [key(x)];
    assert ks'[..|ks|] == ks;
    assert key(x) !in ks;
    TotalSizeUnlisted(g, ks, key(x), [value(x)]);
    assert TotalSize(g', ks') == TotalSize(g', ks) + 1;
  }

  /** Every element lands in exactly one group: the group lengths add up to the length of the source. */
  lemma {:induction false} GroupSizes<T, K, V>(s: seq<T>, key: T -> K, value: T -> V)
    ensures TotalSize(GroupBy(s, key, value), GroupOrder(s, key)) == |s|
  {
    if s != [] {
      var init, x := s[..|s| - 1], s[|s| - 1];
      assert s == init + [x];
      GroupSizes(init, key, value);
      if key(x) in KeysOf(init, key) {
        GroupSizesSeenKey(init, x, key, value);
      } else {
        GroupSizesNewKey(init, x, key, value);
      }
    }
  }

  /**
   * `to_dictionary(key_selector, value_selector, unique=False)`: every element writes its value
   * under its key, so a later element overwrites an earlier one with the same key.
   */
  function LastWins<T, K(==), V>(s: seq<T>, key: T -> K, value: T -> V): (d: map<K, V>)
    ensures d.Keys == KeysOf(s, key)
  {
    if s == [] then map[]
    else LastWins(s[..|s| - 1], key, value)[key(s[|s| - 1]) := value(s[|s| - 1])]
  }

  /** `to_dictionary`'s loop body: one more element writes its value under its key. */
  lemma {:induction false} LastWinsSnoc<T, K, V>(s: seq<T>, x: T, key: T -> K, value: T -> V)
    ensures LastWins(s + [x], key, value) == LastWins(s, key, value)[key(x) := value(x)]
  {
    assert (s + [x])[..|s|] == s;
  }

  /** One more element repeats a key exactly when the prefix already did or its key was seen before. */
  lemma {:induction false} DuplicateKeySnoc<T, K>(s: seq<T>, x: T, key: T -> K)
    ensures HasDuplicateKey(s + [x], key) <==> HasDuplicateKey(s, key) || key(x) in KeysOf(s, key)
  {
    var sx := s + [x];
    if HasDuplicateKey(sx, key) {
      var i, j :| 0 <= i < j < |sx| && key(sx[i]) == key(sx[j]);
      if j < |s| {
        assert key(s[i]) == key(s[j]);
      } else {
        assert key(s[i]) == key(x);
      }
    }
    if HasDuplicateKey(s, key) {
      var i, j :| 0 <= i < j < |s| && key(s[i]) == key(s[j]);
      assert key(sx[i]) == key(sx[j]);
    }
    if key(x) in KeysOf(s, key) {
      var i :| 0 <= i < |s| && key(s[i]) == key(x);
      assert key(sx[i]) == key(sx[|s|]);
    }
  }

  /** Each key of the dictionary holds the value of the last element with that key. */
  lemma {:induction false} LastWinsValue<T, K, V>(s: seq<T>, key: T -> K, value: T -> V, k: K)
    requires k in KeysOf(s, key)
    ensures LastIndex(s, HasKey(key, k)).Some?
    ensures LastWins(s, key, value)[k] == value(s[LastIndex(s, HasKey(key, k)).value])
  {
    var init, last := s[..|s| - 1], s[|s| - 1];
    if key(last) != k {
      var i :| 0 <= i < |s| && key(s[i]) == k;
      assert key(init[i]) == k;
      LastWinsValue(init, key, value, k);
    }
  }

  /** Without repeated keys, every element's key holds that element's own value. */
  lemma {:induction false} UniqueKeysKeepTheirValues<T, K, V>(s: seq<T>, key: T -> K, value: T -> V)
    requires !HasDuplicateKey(s, key)
    ensures forall i :: 0 <= i < |s| ==> LastWins(s, key, value)[key(s[i])] == value(s[i])
  {
    forall i | 0 <= i < |s| ensures LastWins(s, key, value)[key(s[i])] == value(s[i]) {
      LastWinsValue(s, key, value, key(s[i]));
      var j := LastIndex(s, HasKey(key, key(s[i]))).value;
      assert key(s[j]) == key(s[i]);
      assert j == i;
    }
  }
}

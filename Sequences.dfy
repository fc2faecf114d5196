/**
 * Reference definitions over finite sequences that the AnLinq operators are proved against:
 * filtering, projecting, searching from either end, reversing and folding with an index.
 */
module Sequences {
  import opened Outcomes

  /** The number of leading elements `take(n)` keeps (and `skip(n)` drops) from a source of `len` items. */
  function Clamp(n: int, len: nat): nat
  {
    if n < 0 then 0 else if n > len then len else n
  }

  /** Concatenation is associative (stated once, so that proofs with many facts in scope need not rediscover it). */
  lemma {:induction false} ConcatAssoc<T>(a: seq<T>, b: seq<T>, c: seq<T>)
    ensures (a + b) + c == a + (b + c)
  {
  }

  /** A non-empty sequence is its first element followed by the rest. */
  lemma {:induction false} HeadTail<T>(s: seq<T>)
    requires s != []
    ensures s == [s[0]] + s[1..]
  {
  }

  /** A prefix one longer is the prefix followed by the next element. */
  lemma {:induction false} TakeSnoc<T>(s: seq<T>, i: nat)
    requires i < |s|
    ensures s[..i + 1] == s[..i] + [s[i]]
    ensures (s[..i] + [s[i]])[..i] == s[..i]
  {
  }

  /** The prefix as long as the sequence is the sequence. */
  lemma {:induction false} TakeAll<T>(s: seq<T>)
    ensures s[..|s|] == s
  {
  }

  /** The negation of a predicate, as one function value. */
  function Not<T>(p: T -> bool): T -> bool
  {
    x => !p(x)
  }

  /** The conjunction of two predicates, as one function value. */
  function Both<T>(p: T -> bool, q: T -> bool): T -> bool
  {
    x => p(x) && q(x)
  }

  /** Membership in `other`, as one function value (`i in iterable`). */
  function Contains<T(==)>(other: seq<T>): T -> bool
  {
    x => x in other
  }

  /** The elements of `s` that satisfy `p`, in their original order. */
  function Filter<T>(s: seq<T>, p: T -> bool): (r: seq<T>)
    ensures |r| <= |s|
    ensures forall i :: 0 <= i < |r| ==> p(r[i])
    ensures multiset(r) <= multiset(s)
    ensures forall i :: 0 <= i < |s| && p(s[i]) ==> multiset(r)[s[i]] == multiset(s)[s[i]]
  {
    if s == [] then []
    else
      var init, last := s[..|s| - 1], s[|s| - 1];
      assert s == init + [last];
      Filter(init, p) + if p(last) then [last] else []
  }

  /** Filtering commutes with concatenation: the order of the survivors is the order of the source. */
  lemma {:induction false} FilterConcat<T>(a: seq<T>, b: seq<T>, p: T -> bool)
    ensures Filter(a + b, p) == Filter(a, p) + Filter(b, p)
  {
    if b == [] {
      assert a + b == a;
    } else {
      var init, y := b[..|b| - 1], b[|b| - 1];
      var kept := if p(y) then [y] else [];
      assert b == init + [y];
      ConcatAssoc(a, init, [y]);
      FilterSnoc(a + init, y, p);
      FilterSnoc(init, y, p);
      FilterConcat(a, init, p);
      ConcatAssoc(Filter(a, p), Filter(init, p), kept);
    }
  }

  /** Filtering a sequence that ends with `y` (the step of a left-to-right filtering loop). */
  lemma {:induction false} FilterSnoc<T>(s: seq<T>, y: T, p: T -> bool)
    ensures Filter(s + [y], p) == Filter(s, p) + if p(y) then [y] else []
  {
    assert (s + [y])[..|s|] == s;
  }

  /** Filtering a sequence that starts with `x`. */
  lemma {:induction false} FilterCons<T>(x: T, s: seq<T>, p: T -> bool)
    ensures Filter([x] + s, p) == (if p(x) then [x] else []) + Filter(s, p)
  {
    FilterConcat([x], s, p);
    var one := [x];
    assert one[..0] == [];
    assert Filter(one, p) == if p(x) then [x] else [];
  }

  /** A filter comes out empty exactly when no element qualifies. */
  lemma {:induction false} FilterEmpty<T>(s: seq<T>, p: T -> bool)
    ensures Filter(s, p) == [] <==> forall i :: 0 <= i < |s| ==> !p(s[i])
  {
    var r := Filter(s, p);
    if r == [] {
      forall i | 0 <= i < |s| ensures !p(s[i]) {
        assert s[i] in multiset(s);
        assert multiset(r)[s[i]] == 0;
      }
    } else {
      assert r[0] in multiset(r);
      assert r[0] in multiset(s);
      var j :| 0 <= j < |s| && s[j] == r[0];
      assert p(s[j]);
    }
  }

  /** Filtering twice keeps the elements that satisfy both predicates, in source order. */
  lemma {:induction false} FilterFilter<T>(s: seq<T>, p: T -> bool, q: T -> bool)
    ensures Filter(Filter(s, p), q) == Filter(s, Both(p, q))
  {
    if s != [] {
      var init, y := s[..|s| - 1], s[|s| - 1];
      var kept := if p(y) then [y] else [];
      assert s == init + [y];
      FilterSnoc(init, y, p);
      FilterSnoc(init, y, Both(p, q));
      FilterConcat(Filter(init, p), kept, q);
      FilterFilter(init, p, q);
      FilterSnoc([], y, q);
      assert [] + [y] == [y];
    }
  }

  /** A predicate every element satisfies keeps the whole source. */
  lemma {:induction false} FilterAll<T>(s: seq<T>, p: T -> bool)
    requires forall i :: 0 <= i < |s| ==> p(s[i])
    ensures Filter(s, p) == s
  {
    if s != [] {
      var init, y := s[..|s| - 1], s[|s| - 1];
      assert s == init + [y];
      FilterSnoc(init, y, p);
      assert forall i :: 0 <= i < |init| ==> p(init[i]) by {
        forall i | 0 <= i < |init| ensures p(init[i]) {
          assert init[i] == s[i];
        }
      }
      FilterAll(init, p);
    }
  }

  /** Sending one more element to exactly one of two parts keeps them a split of the whole. */
  lemma {:induction false} SplitSnoc<T>(a: seq<T>, b: seq<T>, whole: seq<T>, x: T, ka: seq<T>, kb: seq<T>)
    requires |a| + |b| == |whole| && multiset(a) + multiset(b) == multiset(whole)
    requires (ka == [x] && kb == []) || (ka == [] && kb == [x])
    ensures |a + ka| + |b + kb| == |whole + [x]|
    ensures multiset(a + ka) + multiset(b + kb) == multiset(whole + [x])
  {
    assert multiset(whole + [x]) == multiset(whole) + multiset{x};
    if ka == [x] {
      assert multiset(a + ka) == multiset(a) + multiset{x};
      assert b + kb == b;
    } else {
      assert multiset(b + kb) == multiset(b) + multiset{x};
      assert a + ka == a;
    }
  }

  /** A predicate and its negation split the source: every element is kept by exactly one of them. */
  lemma {:induction false} FilterPartition<T>(s: seq<T>, p: T -> bool)
    ensures |Filter(s, p)| + |Filter(s, Not(p))| == |s|
    ensures multiset(Filter(s, p)) + multiset(Filter(s, Not(p))) == multiset(s)
  {
    if s != [] {
      var init, last := s[..|s| - 1], s[|s| - 1];
      assert s == init + [last];
      FilterPartition(init, p);
      FilterSnoc(init, last, p);
      FilterSnoc(init, last, Not(p));
      SplitSnoc(Filter(init, p), Filter(init, Not(p)), init, last,
                if p(last) then [last] else [], if Not(p)(last) then [last] else []);
    }
  }

  /** `s` read back to front. */
  function Reverse<T>(s: seq<T>): (r: seq<T>)
    ensures |r| == |s|
    ensures forall i :: 0 <= i < |s| ==> r[i] == s[|s| - 1 - i]
  {
    if s == [] then [] else [s[|s| - 1]] + Reverse(s[..|s| - 1])
  }

  /** Filtering a reversed sequence gives the reversed filter. */
  lemma {:induction false} FilterReverse<T>(s: seq<T>, p: T -> bool)
    ensures Filter(Reverse(s), p) == Reverse(Filter(s, p))
  {
    if s != [] {
      var init, last := s[..|s| - 1], s[|s| - 1];
      FilterReverse(init, p);
      FilterCons(last, Reverse(init), p);
      var kept := if p(last) then [last] else [];
      var f := Filter(init, p) + kept;
      assert Filter(s, p) == f;
      if p(last) {
        assert f[..|f| - 1] == Filter(init, p);
      } else {
        assert f == Filter(init, p);
      }
    }
  }

  /** Applies `f` to every element, keeping length and order. */
  function Mapped<T, U>(s: seq<T>, f: T -> U): (r: seq<U>)
    ensures |r| == |s|
    ensures forall i :: 0 <= i < |s| ==> r[i] == f(s[i])
  {
    if s == [] then [] else Mapped(s[..|s| - 1], f) + [f(s[|s| - 1])]
  }

  /** Projecting a sequence that ends with `y`. */
  lemma {:induction false} MappedSnoc<T, U>(s: seq<T>, y: T, f: T -> U)
    ensures Mapped(s + [y], f) == Mapped(s, f) + [f(y)]
  {
    assert (s + [y])[..|s|] == s;
  }

  /** The position of the first element satisfying `p`, or None when there is none. */
  function FirstIndex<T>(s: seq<T>, p: T -> bool): (r: Option<nat>)
    ensures r.None? <==> forall j :: 0 <= j < |s| ==> !p(s[j])
    ensures r.Some? ==> r.value < |s| && p(s[r.value]) && forall j :: 0 <= j < r.value ==> !p(s[j])
  {
    if s == [] then None
    else if p(s[0]) then Some(0)
    else match FirstIndex(s[1..], p)
      case None => None
      case Some(i) => Some(i + 1)
  }

  /** The position of the last element satisfying `p`, or None when there is none. */
  function LastIndex<T>(s: seq<T>, p: T -> bool): (r: Option<nat>)
    ensures r.None? <==> forall j :: 0 <= j < |s| ==> !p(s[j])
    ensures r.Some? ==> r.value < |s| && p(s[r.value]) && forall j :: r.value < j < |s| ==> !p(s[j])
  {
    if s == [] then None
    else if p(s[|s| - 1]) then Some(|s| - 1)
    else LastIndex(s[..|s| - 1], p)
  }

  /** A matching position with no match before it is the first match. */
  lemma {:induction false} FirstIndexIs<T>(s: seq<T>, p: T -> bool, i: nat)
    requires i < |s| && p(s[i])
    requires forall j :: 0 <= j < i ==> !p(s[j])
    ensures FirstIndex(s, p) == Some(i)
  {
    if i > 0 {
      assert !p(s[0]);
      forall j | 0 <= j < i - 1 ensures !p(s[1..][j]) {
        assert s[1..][j] == s[j + 1];
      }
      FirstIndexIs(s[1..], p, i - 1);
    }
  }

  /** The last match of `s` is the first match of `s` read backwards, at the mirrored position. */
  lemma {:induction false} LastIsFirstOfReversed<T>(s: seq<T>, p: T -> bool)
    ensures LastIndex(s, p).None? <==> FirstIndex(Reverse(s), p).None?
    ensures LastIndex(s, p).Some? ==> FirstIndex(Reverse(s), p) == Some(|s| - 1 - LastIndex(s, p).value)
  {
    var rs := Reverse(s);
    match LastIndex(s, p)
    case None =>
      assert forall j :: 0 <= j < |rs| ==> !p(rs[j]) by {
        forall j | 0 <= j < |rs| ensures !p(rs[j]) {
          assert rs[j] == s[|s| - 1 - j];
        }
      }
    case Some(i) =>
      var k := |s| - 1 - i;
      assert rs[k] == s[i];
      forall j | 0 <= j < k ensures !p(rs[j]) {
        assert rs[j] == s[|s| - 1 - j];
      }
      FirstIndexIs(rs, p, k);
  }

  /** The first element satisfying `p`. */
  function FindFirst<T>(s: seq<T>, p: T -> bool): Option<T>
  {
    match FirstIndex(s, p)
    case None => None
    case Some(i) => Some(s[i])
  }

  /** The last element satisfying `p`. */
  function FindLast<T>(s: seq<T>, p: T -> bool): Option<T>
  {
    match LastIndex(s, p)
    case None => None
    case Some(i) => Some(s[i])
  }

  /**
   * Folds `s` from the left: the accumulator becomes `f(acc, s[k], start + k)` for
   * k = 0, 1, ... in order, so each element is paired with its position counted from `start`.
   */
  function FoldFrom<A, T>(f: (A, T, int) -> A, seed: A, s: seq<T>, start: int): A
  {
    if s == [] then seed
    else f(FoldFrom(f, seed, s[..|s| - 1], start), s[|s| - 1], start + |s| - 1)
  }

  /** Folding a concatenation folds the second part from where the first left off, indices continuing. */
  lemma {:induction false} FoldConcat<A, T>(f: (A, T, int) -> A, seed: A, a: seq<T>, b: seq<T>, start: int)
    ensures FoldFrom(f, seed, a + b, start) == FoldFrom(f, FoldFrom(f, seed, a, start), b, start + |a|)
  {
    if b != [] {
      var init := b[..|b| - 1];
      assert (a + b)[..|a + b| - 1] == a + init;
      assert (a + b)[|a + b| - 1] == b[|b| - 1];
      FoldConcat(f, seed, a, init, start);
    } else {
      assert a + b == a;
    }
  }

  /** The fold is the left fold: the first step combines the seed with the first element at index `start`. */
  lemma {:induction false} FoldCons<A, T>(f: (A, T, int) -> A, seed: A, x: T, s: seq<T>, start: int)
    ensures FoldFrom(f, seed, [x] + s, start) == FoldFrom(f, f(seed, x, start), s, start + 1)
  {
    FoldConcat(f, seed, [x], s, start);
    assert [x][..0] == [];
  }
}

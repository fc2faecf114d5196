/**
 * The `AnLinq` wrapper: a finite source sequence and the LINQ-style operators on it.
 *
 * The wrapper never changes its own source after construction, so it is a value: every operator
 * either computes an answer or returns a new wrapper. Operators that the library writes as
 * loops over the source (with counters, flags and accumulators) are methods with those loops,
 * proved against the specification functions of `Sequences`, `Keyed` and `Ordering`; operators
 * written as one comprehension or call are functions.
 *
 * Optional predicates (`predicate=None`) are `Option<T -> bool>`; optional selectors whose
 * default is the identity are passed explicitly (the caller passes `x => x`).
 */
module Linq {
  import opened Outcomes
  import opened Sequences
  import opened Keyed
  import opened Ordering

  /** What the constructor can be given: a plain iterable, or another wrapper. */
  datatype Source<T(==)> = Items(items: seq<T>) | Wrapped(inner: AnLinq<T>)
  {
    /** The elements the source iterates over. */
    function Elements(): seq<T>
    {
      match this
      case Items(items) => items
      case Wrapped(inner) => inner.iterable
    }
  }

  /** The predicate `first`/`last` test; no predicate accepts every element. */
  function Matcher<T>(pred: Option<T -> bool>): T -> bool
  {
    if pred.None? then (x: T) => true else pred.value
  }

  /** The number of elements `foreach` hands to `func`: up to and including the first one it answers true for. */
  function Visited<T>(s: seq<T>, func: T -> bool): nat
  {
    match FirstIndex(s, func)
    case None => |s|
    case Some(i) => i + 1
  }

  datatype AnLinq<T(==)> = AnLinq(iterable: seq<T>)
  {
    /**
     * `AnLinq(iterable)`: `None` is refused; a wrapper given to the constructor is unwrapped,
     * so the new wrapper shares its source instead of nesting it.
     */
    static function New(source: Option<Source<T>>): (r: Result<AnLinq<T>, Error>)
      ensures r.Failure? <==> source.None?
      ensures r.Failure? ==> r.error == IterableIsNone
      ensures r.Success? ==> r.value.iterable == source.value.Elements()
      ensures source.Some? && source.value.Wrapped? ==> r == Success(source.value.inner)
    {
      match source
      case None => Failure(IterableIsNone)
      case Some(Items(items)) => Success(AnLinq(items))
      case Some(Wrapped(inner)) => Success(AnLinq(inner.iterable))
    }

    /**
     * `self[index]`: walks the source with a counter and returns the element whose position
     * equals `index`; when the walk ends first, the error reports the index and the count reached.
     */
    method Get(index: int) returns (r: Result<T, Error>)
      ensures 0 <= index < |iterable| ==> r == Success(iterable[index])
      ensures !(0 <= index < |iterable|) ==> r == Failure(IndexOutOfRange(index, |iterable|))
    {
      var count := 0;
      while count < |iterable|
        invariant 0 <= count <= |iterable|
        invariant !(0 <= index < count)
      {
        if count == index {
          return Success(iterable[count]);
        }
        count := count + 1;
      }
      return Failure(IndexOutOfRange(index, count));
    }

    /** `count()`: walks the whole source, counting. */
    method Count() returns (count: nat)
      ensures count == |iterable|
    {
      count := 0;
      var i := 0;
      while i < |iterable|
        invariant 0 <= i <= |iterable| && count == i
      {
        count := count + 1;
        i := i + 1;
      }
    }

    /** `len(self)`: the same walk as `count()`. */
    method Len() returns (n: nat)
      ensures n == |iterable|
    {
      n := Count();
    }

    /** `self == other`: the two sources hold the same elements in the same order. */
    function Equals(other: Source<T>): (b: bool)
      ensures b <==> |iterable| == |other.Elements()| &&
                     forall i :: 0 <= i < |iterable| ==> iterable[i] == other.Elements()[i]
    {
      iterable == other.Elements()
    }

    /** `self != other`: some position differs, or the lengths do. */
    function NotEquals(other: Source<T>): (b: bool)
      ensures b <==> |iterable| != |other.Elements()| ||
                     exists i :: 0 <= i < |iterable| && iterable[i] != other.Elements()[i]
    {
      !Equals(other)
    }

    /**
     * `any(predicate)`: stops at the first element that qualifies; with no predicate every
     * element qualifies, so the answer is whether there is an element at all.
     */
    method Any(pred: Option<T -> bool>) returns (b: bool)
      ensures pred.None? ==> (b <==> iterable != [])
      ensures pred.Some? ==> (b <==> exists i :: 0 <= i < |iterable| && pred.value(iterable[i]))
    {
      var i := 0;
      while i < |iterable|
        invariant 0 <= i <= |iterable|
        invariant pred.Some? ==> forall j :: 0 <= j < i ==> !pred.value(iterable[j])
        invariant pred.None? ==> i == 0
      {
        if pred.None? {
          return true;
        } else if pred.value(iterable[i]) {
          return true;
        }
        i := i + 1;
      }
      return false;
    }

    /** `all(predicate)`: stops at the first element that fails; true on an empty source. */
    method All(pred: T -> bool) returns (b: bool)
      ensures b <==> forall i :: 0 <= i < |iterable| ==> pred(iterable[i])
    {
      var i := 0;
      while i < |iterable|
        invariant 0 <= i <= |iterable|
        invariant forall j :: 0 <= j < i ==> pred(iterable[j])
      {
        if !pred(iterable[i]) {
          return false;
        }
        i := i + 1;
      }
      return true;
    }

    /**
     * `first(predicate)`: the element at the lowest position that qualifies (the first element
     * when there is no predicate); `NoMatchingItems` exactly when nothing qualifies.
     */
    method First(pred: Option<T -> bool>) returns (r: Result<T, Error>)
      ensures FirstIndex(iterable, Matcher(pred)).None? ==> r == Failure(NoMatchingItems)
      ensures FirstIndex(iterable, Matcher(pred)).Some? ==>
                r == Success(iterable[FirstIndex(iterable, Matcher(pred)).value])
      ensures pred.None? ==> (r.Success? <==> iterable != []) && (iterable != [] ==> r.value == iterable[0])
    {
      var i := 0;
      while i < |iterable|
        invariant 0 <= i <= |iterable|
        invariant forall j :: 0 <= j < i ==> !Matcher(pred)(iterable[j])
      {
        if pred.None? {
          return Success(iterable[i]);
        } else if pred.value(iterable[i]) {
          return Success(iterable[i]);
        }
        i := i + 1;
      }
      return Failure(NoMatchingItems);
    }

    /** `first_or_none(predicate)`: `first`, with its error turned into `None`. */
    method FirstOrNone(pred: Option<T -> bool>) returns (r: Option<T>)
      ensures r.None? <==> forall i :: 0 <= i < |iterable| ==> !Matcher(pred)(iterable[i])
      ensures r == FindFirst(iterable, Matcher(pred))
    {
      var first := First(pred);
      match first
      case Success(item) => r := Some(item);
      case Failure(_) => r := None;
    }

    /**
     * `last(predicate)`: walks the whole source remembering the latest element that qualifies;
     * `NoMatchingItems` exactly when nothing qualifies.
     */
    method Last(pred: Option<T -> bool>) returns (r: Result<T, Error>)
      ensures LastIndex(iterable, Matcher(pred)).None? ==> r == Failure(NoMatchingItems)
      ensures LastIndex(iterable, Matcher(pred)).Some? ==>
                r == Success(iterable[LastIndex(iterable, Matcher(pred)).value])
      ensures pred.None? ==> (r.Success? <==> iterable != []) && (iterable != [] ==> r.value == iterable[|iterable| - 1])
    {
      var matches := Matcher(pred);
      // `last_item` together with `last_item_set`: None until an element qualifies.
      var lastItem: Option<T> := None;
      var i := 0;
      while i < |iterable|
        invariant 0 <= i <= |iterable|
        invariant lastItem == FindLast(iterable[..i], matches)
      {
        TakeSnoc(iterable, i);
        if (pred.Some? && pred.value(iterable[i])) || pred.None? {
          lastItem := Some(iterable[i]);
        }
        i := i + 1;
      }
      TakeAll(iterable);
      match lastItem
      case None => r := Failure(NoMatchingItems);
      case Some(item) => r := Success(item);
    }

    /** `last_or_none(predicate)`: `last`, with its error turned into `None`. */
    method LastOrNone(pred: Option<T -> bool>) returns (r: Option<T>)
      ensures r.None? <==> forall i :: 0 <= i < |iterable| ==> !Matcher(pred)(iterable[i])
      ensures r == FindLast(iterable, Matcher(pred))
    {
      var last := Last(pred);
      match last
      case Success(item) => r := Some(item);
      case Failure(_) => r := None;
    }

    /** `to_list()`: the elements, in order. */
    function ToList(): (r: seq<T>)
      ensures |r| == |iterable| && forall i :: 0 <= i < |r| ==> r[i] == iterable[i]
    {
      iterable
    }

    /**
     * `to_dictionary(key_selector, value_selector, unique)`: writes every element's value under
     * its key, a later element overwriting an earlier one. With `unique` the set of keys seen so
     * far is kept, and the first element whose key is already in it ends the walk with that key.
     */
    method ToDictionary<K(==), V>(keySelector: T -> K, valueSelector: T -> V, unique: bool)
      returns (r: Result<map<K, V>, KeyError<K>>)
      ensures r.Failure? <==> unique && HasDuplicateKey(iterable, keySelector)
      ensures r.Success? ==> r.value == LastWins(iterable, keySelector, valueSelector)
      ensures r.Failure? ==> exists j :: 0 <= j < |iterable| && keySelector(iterable[j]) == r.error.key &&
                               r.error.key in KeysOf(iterable[..j], keySelector) &&
                               !HasDuplicateKey(iterable[..j], keySelector)
    {
      var result: map<K, V> := map[];
      var keys: set<K> := {};
      var i := 0;
      while i < |iterable|
        invariant 0 <= i <= |iterable|
        invariant result == LastWins(iterable[..i], keySelector, valueSelector)
        invariant unique ==> keys == KeysOf(iterable[..i], keySelector) && !HasDuplicateKey(iterable[..i], keySelector)
      {
        var item := iterable[i];
        var key, value := keySelector(item), valueSelector(item);
        var seen, next := iterable[..i], iterable[..i + 1];
        assert next == seen + [item] by {
          TakeSnoc(iterable, i);
        }
        if unique {
          if key in keys {
            assert HasDuplicateKey(next, keySelector) by {
              DuplicateKeySnoc(seen, item, keySelector);
            }
            DuplicateKeyExtends(iterable, i + 1, keySelector);
            return Failure(DuplicateKey(key));
          }
          assert !HasDuplicateKey(next, keySelector) && KeysOf(next, keySelector) == keys + {key} by {
            DuplicateKeySnoc(seen, item, keySelector);
            KeysOfSnoc(seen, item, keySelector);
          }
          keys := keys + {key};
        }
        assert LastWins(next, keySelector, valueSelector) == result[key := value] by {
          LastWinsSnoc(seen, item, keySelector, valueSelector);
        }
        result := result[key := value];
        i := i + 1;
      }
      TakeAll(iterable);
      return Success(result);
    }

    /** `where(predicate)`: the elements that satisfy `predicate`, in source order. */
    function Where(pred: T -> bool): (r: AnLinq<T>)
      ensures r.iterable == Filter(iterable, pred)
      ensures forall i :: 0 <= i < |r.iterable| ==> pred(r.iterable[i])
      ensures multiset(r.iterable) <= multiset(iterable)
      ensures forall i :: 0 <= i < |iterable| && pred(iterable[i]) ==>
                multiset(r.iterable)[iterable[i]] == multiset(iterable)[iterable[i]]
    {
      AnLinq(Filter(iterable, pred))
    }

    /** `except_for(other)`: the elements that are not members of `other`, in source order. */
    function ExceptFor(other: seq<T>): (r: AnLinq<T>)
      ensures r.iterable == Filter(iterable, Not(Contains(other)))
      ensures forall i :: 0 <= i < |r.iterable| ==> r.iterable[i] !in other
      ensures multiset(r.iterable) <= multiset(iterable)
      ensures forall i :: 0 <= i < |iterable| && iterable[i] !in other ==>
                multiset(r.iterable)[iterable[i]] == multiset(iterable)[iterable[i]]
    {
      AnLinq(Filter(iterable, Not(Contains(other))))
    }

    /** `intersect(other)`: the elements that are members of `other`, in source order. */
    function Intersect(other: seq<T>): (r: AnLinq<T>)
      ensures r.iterable == Filter(iterable, Contains(other))
      ensures forall i :: 0 <= i < |r.iterable| ==> r.iterable[i] in other
      ensures multiset(r.iterable) <= multiset(iterable)
      ensures forall i :: 0 <= i < |iterable| && iterable[i] in other ==>
                multiset(r.iterable)[iterable[i]] == multiset(iterable)[iterable[i]]
    {
      AnLinq(Filter(iterable, Contains(other)))
    }

    /**
     * `distinct(key_selector)`: keeps an element when its key is not yet in the set of keys
     * seen, and then adds the key, so the first element of every key survives.
     */
    method Distinct<K(==)>(keySelector: T -> K) returns (r: AnLinq<T>)
      ensures r.iterable == DistinctBy(iterable, keySelector)
      ensures r.iterable == FirstOfEachKey(iterable, keySelector)
    {
      var keys: set<K> := {};
      var result: seq<T> := [];
      var i := 0;
      while i < |iterable|
        invariant 0 <= i <= |iterable|
        invariant keys == KeysOf(iterable[..i], keySelector)
        invariant result == DistinctBy(iterable[..i], keySelector)
      {
        var item := iterable[i];
        var kept := if keySelector(item) in keys then [] else [item];
        assert DistinctBy(iterable[..i + 1], keySelector) == result + kept &&
               KeysOf(iterable[..i + 1], keySelector) == keys + {keySelector(item)} by {
          TakeSnoc(iterable, i);
          DistinctSnoc(iterable[..i], item, keySelector);
          KeysOfSnoc(iterable[..i], item, keySelector);
        }
        if keySelector(item) !in keys {
          result := result + [item];
          keys := keys + {keySelector(item)};
        } else {
          assert result + kept == result;
        }
        i := i + 1;
      }
      TakeAll(iterable);
      DistinctIsFirstOfEachKey(iterable, keySelector);
      r := AnLinq(result);
    }

    /**
     * `group_by(key_selector, value_selector)`: a first walk collects the list of every key, a
     * second walk over the keys wraps every list.
     */
    method GroupBy<K(==), V(==)>(keySelector: T -> K, valueSelector: T -> V) returns (g: map<K, AnLinq<V>>)
      ensures g.Keys == KeysOf(iterable, keySelector)
      ensures forall k :: k in g ==> g[k].iterable == Keyed.GroupBy(iterable, keySelector, valueSelector)[k]
      ensures forall k :: k in g ==> g[k].iterable == Mapped(Filter(iterable, HasKey(keySelector, k)), valueSelector)
    {
      var lists := GroupLists(keySelector, valueSelector);
      g := WrapGroups(lists);
      forall k | k in g
        ensures g[k].iterable == Mapped(Filter(iterable, HasKey(keySelector, k)), valueSelector)
      {
        GroupByAt(iterable, keySelector, valueSelector, k);
      }
    }

    /**
     * The first walk of `group_by`: appends every element's value to the list of its key, or
     * starts that list when the key is new.
     */
    method GroupLists<K(==), V>(keySelector: T -> K, valueSelector: T -> V) returns (result: map<K, seq<V>>)
      ensures result == Keyed.GroupBy(iterable, keySelector, valueSelector)
    {
      result := map[];
      var i := 0;
      while i < |iterable|
        invariant 0 <= i <= |iterable|
        invariant result == Keyed.GroupBy(iterable[..i], keySelector, valueSelector)
      {
        var item := iterable[i];
        var key := keySelector(item);
        if key in result {
          GroupByPrefixStep(iterable, i, keySelector, valueSelector, result);
          result := result[key := result[key] + [valueSelector(item)]];
        } else {
          GroupByPrefixStep(iterable, i, keySelector, valueSelector, result);
          result := result[key := [valueSelector(item)]];
        }
        i := i + 1;
      }
      TakeAll(iterable);
    }

    /**
     * `order_by(value_selector, descending=...)`: a stable sort by the selected key. The result
     * is sorted, is a permutation of the source, and keeps the elements of every key in source
     * order (also when descending).
     */
    function OrderBy(valueSelector: T -> int, descending: bool): (r: AnLinq<T>)
      ensures SortedBy(r.iterable, valueSelector, descending)
      ensures multiset(r.iterable) == multiset(iterable)
      ensures forall k :: Filter(r.iterable, HasKey(valueSelector, k)) == Filter(iterable, HasKey(valueSelector, k))
    {
      SortByIsStable(iterable, valueSelector, descending);
      AnLinq(SortBy(iterable, valueSelector, descending))
    }

    /**
     * `take(number)`: the generator counts every element it pulls and stops at the first one
     * that brings the count above `number`. The result is the prefix of length `number`
     * (clamped to the source); `pulled` is how many elements were drawn from the source, which
     * is one more than were yielded whenever the source is longer than the prefix.
     */
    method Take(number: int) returns (r: AnLinq<T>, pulled: nat)
      ensures r.iterable == iterable[..Clamp(number, |iterable|)]
      ensures pulled == if Clamp(number, |iterable|) < |iterable| then Clamp(number, |iterable|) + 1 else |iterable|
    {
      var count := 0;
      var result: seq<T> := [];
      var i := 0;
      while i < |iterable|
        invariant 0 <= i <= Clamp(number, |iterable|)
        invariant count == i
        invariant result == iterable[..i]
      {
        var item := iterable[i];
        i := i + 1;
        count := count + 1;
        if count > number {
          break;
        }
        assert iterable[..i] == iterable[..i - 1] + [item];
        result := result + [item];
      }
      r, pulled := AnLinq(result), i;
    }

    /**
     * `skip(number)`: the generator counts every element and passes on those whose count is
     * above `number`: the source without its first `number` elements (clamped to the source).
     */
    method Skip(number: int) returns (r: AnLinq<T>)
      ensures r.iterable == iterable[Clamp(number, |iterable|)..]
    {
      var count := 0;
      var result: seq<T> := [];
      var i := 0;
      while i < |iterable|
        invariant 0 <= i <= |iterable|
        invariant count == i
        invariant result == iterable[Clamp(number, i)..i]
      {
        var item := iterable[i];
        count := count + 1;
        if count > number {
          assert Clamp(number, i + 1) == Clamp(number, i);
          assert iterable[Clamp(number, i)..i + 1] == iterable[Clamp(number, i)..i] + [item];
          result := result + [item];
        } else {
          assert Clamp(number, i + 1) == i + 1 && Clamp(number, i) == i;
        }
        i := i + 1;
      }
      r := AnLinq(result);
    }

    /** `take(n)` followed by `skip(n)` over the same source gives back the source. */
    method TakeSkip(number: int) returns (front: AnLinq<T>, back: AnLinq<T>)
      ensures front.iterable + back.iterable == iterable
      ensures |front.iterable| == Clamp(number, |iterable|)
    {
      var pulled;
      front, pulled := Take(number);
      back := Skip(number);
      assert iterable[..Clamp(number, |iterable|)] + iterable[Clamp(number, |iterable|)..] == iterable;
    }

    /** `select(selector)`: every element converted, in order. */
    function Select<U(==)>(selector: T -> U): (r: AnLinq<U>)
      ensures |r.iterable| == |iterable|
      ensures forall i :: 0 <= i < |iterable| ==> r.iterable[i] == selector(iterable[i])
    {
      AnLinq(Mapped(iterable, selector))
    }

    /** `map(selector)`: another name for `select`. */
    function Map<U(==)>(selector: T -> U): (r: AnLinq<U>)
      ensures |r.iterable| == |iterable|
      ensures forall i :: 0 <= i < |iterable| ==> r.iterable[i] == selector(iterable[i])
    {
      Select(selector)
    }

    /**
     * `select_many(selector)` as written: the comprehension copies the list of selected
     * iterables without flattening it, so every element becomes one item that is itself a sequence.
     */
    function SelectMany<U(==)>(selector: T -> seq<U>): (r: AnLinq<seq<U>>)
      ensures |r.iterable| == |iterable|
      ensures forall i :: 0 <= i < |iterable| ==> r.iterable[i] == selector(iterable[i])
    {
      AnLinq(Mapped(Mapped(iterable, selector), (sub: seq<U>) => sub))
    }

    /**
     * `aggregate(func, seed)`: the accumulator starts at `seed` and is replaced, element by
     * element in order, by `func` applied to it, the element and the element's position; the
     * left fold of the source.
     */
    method Aggregate<A>(func: (A, T, int) -> A, seed: A) returns (acc: A)
      ensures acc == FoldFrom(func, seed, iterable, 0)
      ensures iterable != [] ==> acc == FoldFrom(func, func(seed, iterable[0], 0), iterable[1..], 1)
    {
      acc := seed;
      var index := 0;
      while index < |iterable|
        invariant 0 <= index <= |iterable|
        invariant acc == FoldFrom(func, seed, iterable[..index], 0)
      {
        TakeSnoc(iterable, index);
        acc := func(acc, iterable[index], index);
        index := index + 1;
      }
      TakeAll(iterable);
      if iterable != [] {
        HeadTail(iterable);
        FoldCons(func, seed, iterable[0], iterable[1..], 0);
      }
    }

    /** `reduce(func, seed)`: another name for `aggregate`. */
    method Reduce<A>(func: (A, T, int) -> A, seed: A) returns (acc: A)
      ensures acc == FoldFrom(func, seed, iterable, 0)
    {
      acc := Aggregate(func, seed);
    }

    /**
     * `foreach(func)`: hands the elements to `func` in order and stops after the first one it
     * answers true for; returns the wrapper itself. `visited` is how many elements `func` saw.
     */
    method ForEach(func: T -> bool) returns (same: AnLinq<T>, visited: nat)
      ensures same == this
      ensures visited == Visited(iterable, func)
      ensures visited <= |iterable|
      ensures forall j :: 0 <= j < visited - 1 ==> !func(iterable[j])
      ensures visited < |iterable| ==> func(iterable[visited - 1])
    {
      visited := 0;
      var i := 0;
      while i < |iterable|
        invariant 0 <= i <= |iterable| && visited == i
        invariant forall j :: 0 <= j < i ==> !func(iterable[j])
      {
        visited := visited + 1;
        if func(iterable[i]) {
          break;
        }
        i := i + 1;
      }
      same := this;
    }

    /** `concat(other)`: the source, then the other iterable. */
    function Concat(other: seq<T>): (r: AnLinq<T>)
      ensures |r.iterable| == |iterable| + |other|
      ensures r.iterable[..|iterable|] == iterable && r.iterable[|iterable|..] == other
    {
      AnLinq(iterable + other)
    }

    /** `concat_item(item)`: the source, then the one item. */
    function ConcatItem(item: T): (r: AnLinq<T>)
      ensures |r.iterable| == |iterable| + 1
      ensures r.iterable[..|iterable|] == iterable && r.iterable[|iterable|] == item
    {
      AnLinq(iterable + [item])
    }
  }

  /** Chained `where` calls keep the elements that satisfy both predicates. */
  lemma {:induction false} WhereWhere<T>(q: AnLinq<T>, first: T -> bool, second: T -> bool)
    ensures q.Where(first).Where(second) == q.Where(Both(first, second))
  {
    FilterFilter(q.iterable, first, second);
  }

  /** `where` with a predicate that holds everywhere gives back the source. */
  lemma {:induction false} WhereAll<T>(q: AnLinq<T>, pred: T -> bool)
    requires forall i :: 0 <= i < |q.iterable| ==> pred(q.iterable[i])
    ensures q.Where(pred) == q
  {
    FilterAll(q.iterable, pred);
  }

  /** `where` gives an empty result exactly when no element satisfies the predicate. */
  lemma {:induction false} WhereNone<T>(q: AnLinq<T>, pred: T -> bool)
    ensures q.Where(pred).iterable == [] <==> forall i :: 0 <= i < |q.iterable| ==> !pred(q.iterable[i])
  {
    FilterEmpty(q.iterable, pred);
  }

  /** `except_for(other)` and `intersect(other)` split the source between them. */
  lemma {:induction false} ExceptForIntersectPartition<T>(q: AnLinq<T>, other: seq<T>)
    ensures |q.ExceptFor(other).iterable| + |q.Intersect(other).iterable| == |q.iterable|
    ensures multiset(q.ExceptFor(other).iterable) + multiset(q.Intersect(other).iterable) == multiset(q.iterable)
  {
    FilterPartition(q.iterable, Contains(other));
  }

  /** The sort is determined by its contract: no other sequence is sorted, stable and drawn from the source. */
  lemma {:induction false} OrderByIsUnique<T>(q: AnLinq<T>, valueSelector: T -> int, descending: bool, other: seq<T>)
    requires SortedBy(other, valueSelector, descending)
    requires forall k :: Filter(other, HasKey(valueSelector, k)) == Filter(q.iterable, HasKey(valueSelector, k))
    ensures other == q.OrderBy(valueSelector, descending).iterable
  {
    var r := q.OrderBy(valueSelector, descending).iterable;
    SortedStableUnique(other, r, valueSelector, descending);
  }

  /** The second walk of `group_by`: every key's list becomes a wrapper, under the same key. */
  method WrapGroups<K, V(==)>(lists: map<K, seq<V>>) returns (g: map<K, AnLinq<V>>)
    ensures g.Keys == lists.Keys
    ensures forall k :: k in g ==> g[k].iterable == lists[k]
  {
    g := map[];
    var pending := lists.Keys;
    while pending != {}
      invariant pending <= lists.Keys
      invariant g.Keys == lists.Keys - pending
      invariant forall k :: k in g ==> g[k] == AnLinq(lists[k])
      decreases |pending|
    {
      var key :| key in pending;
      g := g[key := AnLinq(lists[key])];
      pending := pending - {key};
    }
  }

  /** Once a key repeats within the first `n` elements, the whole source has a repeated key. */
  lemma {:induction false} DuplicateKeyExtends<T, K>(s: seq<T>, n: nat, key: T -> K)
    requires n <= |s| && HasDuplicateKey(s[..n], key)
    ensures HasDuplicateKey(s, key)
  {
    var i, j :| 0 <= i < j < n && key(s[..n][i]) == key(s[..n][j]);
    assert key(s[i]) == key(s[j]);
  }
}

# anlinq in Dafny

A model of anlinq's `AnLinq` class. The class wraps one iterable and offers LINQ-style query
operators on it: element access, counting, `any`/`all`, `first`/`last`, conversion to a list or
dictionary, `where`, `distinct`, `group_by`, `order_by`, `take`/`skip`, `select`,
`aggregate`, `foreach`, `concat`, `except_for` and `intersect`. The model proves properties
about these operators.

How the model is built:

- **The wrapper is a value.** The wrapper never reassigns its source after construction. It is
  therefore `datatype AnLinq<T> = AnLinq(iterable: seq<T>)`, with the source as a finite sequence.
- **Loop operators are methods.** An operator the library writes as a loop (counters, flags,
  accumulators, a set of keys seen) is a method with that loop. Each method is proved against a
  specification function.
- **Comprehension operators are functions.** An operator the library writes as one
  comprehension or call is a function.
- **Specification modules.** The specification functions live in three modules:
  - `Sequences`: filtering, mapping, first/last index, reversal and the indexed left fold.
  - `Keyed`: key sets, first-of-each-key, grouping and last-writer-wins dictionaries.
  - `Ordering`: a stable insertion sort on integer keys.
- **Properties.** The properties about each function are proved as lemmas beside it.

Conventions:

- Python's optional predicate (`predicate=None`) is `Option<T -> bool>`.
- A selector whose default is the identity is passed explicitly; the caller passes `x => x`.
- Exceptions become `Result` values. The error type is `Error`, with these cases:
  - `IterableIsNone`;
  - `IndexOutOfRange(index, count)`;
  - `NoMatchingItems`.
- `to_dictionary`'s duplicate-key error is `KeyError.DuplicateKey(key)`.

Modules and files:

- `Outcomes.dfy`: `Option`, `Result` and the error types.
- `Sequences.dfy`: the `Sequences` module.
- `Keyed.dfy`: the `Keyed` module.
- `Ordering.dfy`: the `Ordering` module.
- `AnLinq.dfy`: module `Linq`, which holds the wrapper and its operators.

Two places where the code does less than its names and documentation suggest. The model
follows the code in both:

- **`take` pulls one element too many.** A lazy `take(n)` would be expected to stop drawing
  from the source once it has the n-th element. Its generator does not: it pulls the next element,
  sees that the count exceeds `n`, and only then breaks. So when the result is consumed to the
  end and the source is longer than `n`, one element more is drawn from the source than is yielded. `Linq.AnLinq.Take` reports the number
  drawn as `pulled` and proves that count.
- **`select_many` does not flatten.** It is written as a list comprehension that copies the
  list of selected iterables, keeping each iterable as the same object, so each element becomes one
  item that is itself a sequence.
  `Linq.AnLinq.SelectMany` models exactly that.

## Model

| member | source | states |
|---|---|---|
| Linq.AnLinq.New | anlinq/__init__.py:49-54 | construction fails exactly when the source is `None`; otherwise the wrapper holds the source's elements, and a wrapped wrapper is unwrapped instead of nested |
| Linq.AnLinq.Get | anlinq/__init__.py:72-77 | an index inside the source gives the element at that position; any other index (negative or too large) gives `IndexOutOfRange` carrying the index and the number of elements counted |
| Linq.AnLinq.Count | anlinq/__init__.py:93-96 | the counting walk returns the number of elements |
| Linq.AnLinq.Len | anlinq/__init__.py:85 | `len` is the number of elements |
| Linq.AnLinq.Equals | anlinq/__init__.py:104 | equal exactly when the lengths agree and every position holds the same element |
| Linq.AnLinq.NotEquals | anlinq/__init__.py:112 | not equal exactly when the lengths differ or some position differs |
| Linq.AnLinq.Any | anlinq/__init__.py:122-127 | with no predicate, true exactly when the source is non-empty; with one, true exactly when some element satisfies it |
| Linq.AnLinq.All | anlinq/__init__.py:136-139 | true exactly when every element satisfies the predicate (so true on an empty source) |
| Linq.AnLinq.First | anlinq/__init__.py:149-154 | the element at the lowest qualifying position, or `NoMatchingItems` when none qualifies; with no predicate, succeeds exactly on a non-empty source, with element 0 |
| Linq.AnLinq.FirstOrNone | anlinq/__init__.py:164-167 | `None` exactly when no element qualifies; otherwise the first qualifying element |
| Linq.AnLinq.Last | anlinq/__init__.py:177-186 | the element at the highest qualifying position, or `NoMatchingItems` when none qualifies; with no predicate, the final element of a non-empty source |
| Linq.AnLinq.LastOrNone | anlinq/__init__.py:196-199 | `None` exactly when no element qualifies; otherwise the last qualifying element |
| Linq.AnLinq.ToList | anlinq/__init__.py:207 | the list has the source's length and its elements position by position |
| Linq.AnLinq.ToDictionary | anlinq/__init__.py:218-229 | fails exactly when `unique` is set and two elements share a key; the failing key is the first one to repeat (the prefix before it has no repeat); otherwise every key maps to the value of the last element with that key |
| Linq.AnLinq.Where | anlinq/__init__.py:238 | the result is the source filtered in order (so `Sequences.FilterConcat` and `FilterFilter` apply); every kept element satisfies the predicate; the result is a sub-multiset of the source; every satisfying element is kept with its full multiplicity |
| Linq.WhereWhere | tests/tests.py:163-168 | two chained `where` calls equal one `where` with the conjunction of the predicates |
| Linq.WhereAll | tests/tests.py:156 | `where` with a predicate true on every element returns the source unchanged |
| Linq.WhereNone | tests/tests.py:157 | `where` is empty exactly when no element satisfies the predicate |
| Linq.AnLinq.ExceptFor | anlinq/__init__.py:401 | the source filtered in order by non-membership; no kept element is a member of `other`; a sub-multiset of the source; every non-member kept with full multiplicity |
| Linq.AnLinq.Intersect | anlinq/__init__.py:410 | the source filtered in order by membership; every kept element is a member of `other`; a sub-multiset of the source; every member kept with full multiplicity |
| Linq.ExceptForIntersectPartition | anlinq/__init__.py:401-410 | `except_for(o)` and `intersect(o)` together hold every source element exactly once: their lengths add up to the source's and their multisets sum to the source's |
| Linq.AnLinq.Distinct | anlinq/__init__.py:247-249 | the seen-keys loop computes the keyed distinct, which equals the reference `FirstOfEachKey`: keep the first element, drop every later element with its key, and repeat on what remains |
| Linq.AnLinq.GroupBy | anlinq/__init__.py:262-271 | the groups' keys are exactly the keys of the source; each group holds, in source order, the selected values of the elements with that key |
| Linq.AnLinq.GroupLists | anlinq/__init__.py:262-268 | the append-or-start loop builds exactly the grouping map of the source |
| Linq.WrapGroups | anlinq/__init__.py:269-270 | wrapping keeps the key set and wraps every key's list unchanged |
| Linq.AnLinq.OrderBy | anlinq/__init__.py:280 | the result is sorted by the key (ascending or descending), is a permutation of the source, and keeps the elements of each key in source order (a stable sort) |
| Linq.OrderByIsUnique | anlinq/__init__.py:280 | any sequence that is sorted and keeps each key's elements in source order is the `order_by` result |
| Linq.AnLinq.Take | anlinq/__init__.py:289-297 | the result is the first `number` elements (clamped to 0 and to the length); when the result is consumed to the end, the generator draws one element more than it yields whenever the source is longer |
| Linq.AnLinq.Skip | anlinq/__init__.py:306-314 | the result is the source without its first `number` elements (clamped) |
| Linq.AnLinq.TakeSkip | anlinq/__init__.py:282-314 | `take(n)` followed by `skip(n)` concatenates back to the source, and the taken part has length min(n, len) for n ≥ 0 |
| Linq.AnLinq.Select | anlinq/__init__.py:323 | same length; position i holds the selector applied to element i |
| Linq.AnLinq.Map | anlinq/__init__.py:332 | same as `select` |
| Linq.AnLinq.SelectMany | anlinq/__init__.py:341 | same length; position i holds the iterable selected from element i (not flattened) |
| Linq.AnLinq.Aggregate | anlinq/__init__.py:350-353 | the accumulator loop computes the left fold with indices from 0; on a non-empty source it is the fold of the rest, starting from `func(seed, first, 0)` at index 1 |
| Linq.AnLinq.Reduce | anlinq/__init__.py:362 | the same fold as `aggregate` |
| Linq.AnLinq.ForEach | anlinq/__init__.py:371-374 | returns the wrapper itself; `func` sees every element up to and including the first one it answers true for, and every element before that one got false |
| Linq.AnLinq.Concat | anlinq/__init__.py:383 | the source's elements come first, then the other iterable's; the lengths add |
| Linq.AnLinq.ConcatItem | anlinq/__init__.py:392 | the source's elements, then the one item at the end |
| Sequences.Filter | anlinq/__init__.py:238 | the filtered sequence is no longer than the source, holds only satisfying elements, and keeps every satisfying element with its full multiplicity |
| Sequences.FilterConcat | anlinq/__init__.py:238 | filtering keeps source order: filtering a concatenation is concatenating the filtered parts |
| Sequences.FilterEmpty | anlinq/__init__.py:238 | the filter is empty exactly when no element satisfies the predicate |
| Sequences.FilterFilter | anlinq/__init__.py:238 | filtering twice equals filtering once by the conjunction |
| Sequences.FilterAll | anlinq/__init__.py:238 | a predicate true everywhere filters nothing out |
| Sequences.FilterPartition | anlinq/__init__.py:401-410 | a predicate and its negation split a sequence: the lengths add up and the multisets sum to the source's |
| Sequences.FilterReverse | anlinq/__init__.py:280 | filtering commutes with reversal |
| Sequences.Reverse | anlinq/__init__.py:280 | position i of the reversal holds element len-1-i |
| Sequences.Mapped | anlinq/__init__.py:323 | same length; position i holds f of element i |
| Sequences.FirstIndex | anlinq/__init__.py:149-154 | `None` exactly when nothing satisfies the predicate; otherwise a satisfying position with no satisfying position before it |
| Sequences.LastIndex | anlinq/__init__.py:177-186 | `None` exactly when nothing satisfies the predicate; otherwise a satisfying position with no satisfying position after it |
| Sequences.LastIsFirstOfReversed | anlinq/__init__.py:177-186 | the last match of a sequence is found at the mirrored position by the first-match search of its reversal |
| Sequences.FoldConcat | anlinq/__init__.py:350-353 | folding a concatenation folds the second part from the first part's result, with indices continuing |
| Sequences.FoldCons | anlinq/__init__.py:350-353 | the first step of the fold applies `func` to the seed, the first element and its index |
| Keyed.KeysOf | anlinq/__init__.py:222 | the key set holds exactly the keys of the elements |
| Keyed.DistinctBy | anlinq/__init__.py:247-249 | no two kept elements share a key; every key of the source is kept; the result is a sub-multiset of the source |
| Keyed.DistinctIsFirstOfEachKey | anlinq/__init__.py:247-249 | the keyed distinct equals the head-then-filter reference `FirstOfEachKey`: keep the first element, drop every later element with its key, and repeat on what remains |
| Keyed.DistinctCons | anlinq/__init__.py:247-249 | distinct keeps the head and then the distinct of the rest without the head's key |
| Keyed.DistinctOfDistinctKeys | tests/tests.py:173 | a source whose keys are already pairwise different passes through distinct unchanged |
| Keyed.DistinctIdempotent | anlinq/__init__.py:247-249 | distinct applied twice equals distinct applied once |
| Keyed.DistinctConstantKey | tests/tests.py:176-177 | when every element has the same key, only the first element survives |
| Keyed.GroupBy | anlinq/__init__.py:262-268 | the grouping map's keys are exactly the keys of the source |
| Keyed.GroupByAt | anlinq/__init__.py:262-268 | each key's group is the selected values of the elements with that key, in source order |
| Keyed.GroupsAreNonEmpty | anlinq/__init__.py:265-268 | every group has at least one member |
| Keyed.GroupSizes | anlinq/__init__.py:262-268 | the group sizes add up to the number of elements, so every element lands in exactly one group |
| Keyed.GroupOrder | anlinq/__init__.py:262-268 | the list of keys in first-seen order has no repeats and holds exactly the source's keys |
| Keyed.LastWins | anlinq/__init__.py:221-228 | the dictionary's keys are exactly the keys of the source |
| Keyed.LastWinsValue | anlinq/__init__.py:228 | each key maps to the value of the last element with that key |
| Keyed.UniqueKeysKeepTheirValues | anlinq/__init__.py:224-228 | with no repeated key, every element's key maps to that element's own value |
| Keyed.DuplicateKeySnoc | anlinq/__init__.py:224-227 | appending an element creates a repeated key exactly when one existed already or the new key was seen before |
| Ordering.Insert | anlinq/__init__.py:280 | inserting adds exactly the one element to the multiset |
| Ordering.InsertSorted | anlinq/__init__.py:280 | insertion into a sorted sequence keeps it sorted |
| Ordering.InsertFilter | anlinq/__init__.py:280 | in a sorted sequence, insertion places the element behind every element of equal key, so each key's elements keep their order |
| Ordering.SortBy | anlinq/__init__.py:280 | the sort is sorted by the key and is a permutation of its input |
| Ordering.SortByIsStable | anlinq/__init__.py:280 | for every key, the sorted sequence lists that key's elements in input order |
| Ordering.SortedStableUnique | anlinq/__init__.py:280 | two sequences sorted by the same key, each listing every key's elements in the same order, are equal |
| Ordering.DescendingIsReversedAscending | example.py:10-15 | when keys are pairwise different, the descending sort is the reversal of the ascending sort |

## Left out

- Laziness and single-pass iteration: the source is a finite sequence (re-iterable). Generators, infinite sources and the `itertools.chain` objects of `concat` are not modelled. `take`'s over-consumption is captured only as the count `pulled`.
- Aliasing of the source: the wrapper holds the caller's container by reference, so in Python a later `lst.append(...)` shows in `count()`, and a wrapper built from a wrapper shares the same object. The model treats the source as an immutable value.
- `__repr__` and `__iter__`: `__repr__` returns the text form of `to_list()` and `__iter__` hands back an iterator over the source; neither computes anything beyond `to_list` and the source itself.
- The `AnLinqException` class itself: its raise sites become the `Error` and `KeyError` values, and message texts are not modelled.
- `order_by`'s `comparer` argument (an old-style comparison function) is not modelled. Keys are integers here; Python accepts any ordered key.
- Linq.AnLinq.OrderBy: states stability per key and sortedness for integer keys only, because arbitrary comparable Python keys are not modelled.
- Linq.AnLinq.Equals: wrapper equality is modelled as equality of the element sequences. Python compares the raw containers when both sides are wrappers, which is sensitive to the container type (`AnLinq([1, 2]) == AnLinq((1, 2))` is false) and to generator identity after `take`, `skip`, `concat` and `concat_item` (`AnLinq([1, 2]) == AnLinq([1, 2]).take(2)` is false, while `AnLinq([1, 2]).take(2) == [1, 2]` is true through `to_list`). Against something that is not a wrapper the model compares with a raw sequence only; Python's list comparison with a non-list defers to the other object's `__eq__`, which is not modelled.
- Linq.AnLinq.Get: the index is an integer; indexes of other Python types (floats, objects with their own `==`) are not modelled, so every integer outside the range gives the out-of-range error.
- Linq.AnLinq.Aggregate: the caller always passes a seed; the default seed `None` is left out because the accumulator type would need a `None` value.
- Linq.AnLinq.ForEach: the walk stops exactly when the return value of `func` compares equal to `True` (`True`, `1`, `1.0`); `func` returns a boolean here, and non-boolean returns (`2` or `"yes"`, which do not stop the walk) are not modelled.
- Linq.AnLinq.FirstOrNone: a found element that is itself `None` cannot be told apart from "nothing found" in Python; in the model the two are distinct.
- Linq.AnLinq.LastOrNone: same as `FirstOrNone`.
- Linq.AnLinq.ExceptFor: `other` is a sequence; a one-shot generator passed as `other` (each membership test reads it up to the first match, and to the end when there is none, so later tests see only the rest) is not modelled.
- Linq.AnLinq.Intersect: same restriction on `other` as `ExceptFor`.
- Linq.AnLinq.ToDictionary: keys need only equality; hashing and Python's dictionary insertion order are not modelled (the result is a Dafny `map`).
- Linq.AnLinq.GroupBy: same for the result dictionary's order.
- Linq.AnLinq.Distinct: same for the hashing of the set of seen keys.

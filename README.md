# range_map in Dafny

A model of `range_map<I, V>`, an interval map that assigns values to half-open
integer ranges. It is kept as a minimal set of non-overlapping segments in a
`std::map` keyed by each segment's begin point, and each key holds a
`(length, value)` pair. The public operations are:

- `add(range, value)` overwrites a range. It carves out whatever was there,
  inserts the new segment, and fuses it with touching neighbours that hold the
  same value.
- `remove(range)` carves a range out. An overlapping segment is erased, cut
  down to its head, or has its tail re-inserted at the range's end.
- `get(index)` answers a point query by predecessor lookup.

A range is a `(begin, length)` pair. A negative length names the range that
ends at `begin` (`normalize_range`), and a zero length makes `add` and
`remove` do nothing.

The model has five modules:

- `Optional` (optional.dfy) holds the `Option` that `get` returns.
- `OrderedKeys` (ordered_keys.dfy) holds the `std::map` queries the class
  uses (`upper_bound`, `lower_bound`, `std::prev`), stated over the key set.
  An iterator is an `Option<int>`: `Some(k)` is the entry with key `k`, and
  `None` is `end()`.
- `Segments` (segments.dfy) holds the store (`map<int, Entry<V>>`), its
  invariants and its meaning:
  - `ValidStore`: every length is positive and segments are pairwise disjoint.
    Keys of an `int` map are ordered, as `std::map`'s are.
  - `Merged`: no two touching segments hold equal values.
  - `Lookup(m, x)`: the point function, the value of the segment covering `x`.
  - Lemmas about inserting and merging, and the canonical-form theorem.
- `Carving` (carving.dfy) describes what `remove_impl` does, old segment by old
  segment (`Carved`). It also holds the invariant of its scan loop
  (`CarvedUpTo`) and what carving does to validity, the merge invariant and the
  point function.
- `RangeMaps` (range_map.dfy) holds the class `RangeMap` with the `store` field
  (the source's `map`). Its methods mirror `add`, `remove`, `add_impl`,
  `remove_impl` and `try_merge`, and its function mirrors `get`.
  `NormalizeRange` is a module-level function.

The loop of `remove_impl` is modelled as a `while` loop over the iterator
`current`, with the scan invariant `CarvedUpTo` and a decreasing count of
unscanned keys. Its body (range_map.hpp:76-91) is the method `CarveSegment`,
which the loop calls. The store updates are the source's:
- insert the tail at `end`;
- then erase the segment, or shrink it to its head.

The `// TODO: Check success` at range_map.hpp:51 becomes `assert success` in
`AddImpl`. It holds because carving a non-empty range leaves no key at its begin
(`Carving.CarvedBeginFree`).

## Model

| member | source | states |
|---|---|---|
| RangeMaps.NormalizeRange | range_map.hpp:97-100 | The result has non-negative length and the same two endpoints. It covers exactly the points between `begin` and `begin + length`, whichever is lower. A non-negative length is left unchanged. |
| RangeMaps.RangeMap.constructor | range_map.hpp:11 | A new map has an empty store, which satisfies both invariants. |
| RangeMaps.RangeMap.Add | range_map.hpp:13-19 | A zero length leaves the store unchanged. Otherwise every point of the normalized range maps to `value` and every other point keeps its old value. Both invariants are kept. |
| RangeMaps.RangeMap.Remove | range_map.hpp:21-27 | A zero length leaves the store unchanged. Otherwise the store is the old one with the normalized range carved out: every point of the range is unmapped and every other point keeps its value. Both invariants are kept. |
| RangeMaps.RangeMap.Get | range_map.hpp:29-43 | On a valid store the answer is `Lookup(store, index)`. It is a function that only reads the object (`const`). |
| RangeMaps.GetAgrees | range_map.hpp:30-40 | The answer from the last segment beginning at or before `index` is the point function at `index`: its value if the segment reaches past `index`, none otherwise. |
| RangeMaps.RangeMap.AddImpl | range_map.hpp:46-61 | After carving, inserting at a freed key (`success` holds) and the two merge attempts, the range maps to `value` and every other point is unchanged. The store stays valid and merged. |
| RangeMaps.AddedLookup | range_map.hpp:49-60 | Chaining the point-function effects of carving, insertion and two merges that change no point gives `add`'s overwrite relation. |
| RangeMaps.AdjacentAddsFuse | range_map.hpp:54-60 | Adding [0, 5) and then [5, 10) with one value leaves exactly one segment, [0, 10). |
| RangeMaps.RangeMap.RemoveImpl | range_map.hpp:63-95 | The new store is `Carved` from the old one. It is valid. Points in the range are unmapped and all others are unchanged. For a non-empty range no key equals `begin` and the merge invariant is kept. |
| RangeMaps.RangeMap.CarveSegment | range_map.hpp:76-91 | One scan step: the new store is `CarveOne` of the old one. The tail is inserted at `end` if the segment reaches past it. Then the segment is erased if it starts at or after `begin`, or cut to its head otherwise. A segment ending by `begin` is left alone. |
| RangeMaps.RangeMap.TryMerge | range_map.hpp:102-119 | Touching, equal-valued segments are fused into one segment [left, right_end) and `left` is returned. Otherwise nothing changes and `right` is returned. Either way the point function is unchanged and the store stays valid. |
| Carving.PieceOf | range_map.hpp:81-90 | Every segment left after carving is a piece of one old segment: that segment itself, its head ending at `begin`, or its tail at `end`. It has the old value and lies outside the range. |
| Carving.CarvedValid | range_map.hpp:81-90 | Carving keeps lengths positive and segments disjoint. |
| Carving.CarvedLookup | range_map.hpp:81-90 | Carving unmaps exactly the points of [begin, end). Every other point keeps its value: untouched segments stay, the head is kept and the tail is re-inserted. |
| Carving.CarvedBeginFree | range_map.hpp:51-52 | After carving a non-empty range no key equals `begin`, so `insert_or_assign` always inserts. |
| Carving.CarvedMerged | range_map.hpp:63-95 | Carving a non-empty range keeps the merge invariant. |
| Carving.CarvedIdempotent | range_map.hpp:21-27 | Carving the same range a second time leaves the store of the first carving. |
| Carving.CarveStart | range_map.hpp:67-71 | The scan's start, the last key not after `begin` (or the first key when there is none), is a key. Every segment before it ends by `begin`, so the scan invariant holds with nothing carved yet. |
| Carving.CarveFinish | range_map.hpp:73-75 | When the scan reaches `lower_bound(end)` every old segment is carved. |
| Carving.CarveComplete | range_map.hpp:63-95 | At the end of the scan the store is carved, valid and free at `begin`, the point function is as `CarvedLookup` says, and the merge invariant is kept. |
| Carving.CarveStep | range_map.hpp:75-94 | Applying `CarveOne` at the current key and moving to the next key preserves the scan invariant. |
| Carving.ScanAt | range_map.hpp:75-79 | Inside the loop the current key is still present with its old entry and lies before `end`. Its successor in the partly carved store is its successor in the old store. |
| Carving.ScanAdvance | range_map.hpp:93 | After one step, `next` is a key at or before `last`, or `end()` only when `last` is `end()`. The scan invariant holds at `next` and fewer keys remain to scan. |
| Carving.PendingShrinks | range_map.hpp:75-94 | Moving to the next key strictly decreases the number of keys left to scan (termination). |
| Segments.CoverUnique | range_map.hpp:37 | In a valid store at most one segment covers a point. |
| Segments.LookupAt | range_map.hpp:37-38 | The segment covering `x` decides the point function at `x`. |
| Segments.LookupByPredecessor | range_map.hpp:30-42 | The point function at `x` is the value of the last segment beginning at or before `x` if it reaches past `x`, and none otherwise. |
| Segments.LookupNoPredecessor | range_map.hpp:32-42 | With no key at or before `x`, `x` is unmapped. |
| Segments.ClearedRange | range_map.hpp:49-52 | A valid store that maps no point of [begin, end) has no segment reaching into it. |
| Segments.ValueChangesAtBegin | range_map.hpp:54-56 | In a valid, merged store the point just before a segment holds another value or none. |
| Segments.ValueChangesAtEnd | range_map.hpp:58-60 | In a valid, merged store the point just after a segment holds another value or none. |
| Segments.RunEndsAtBoundary | range_map.hpp:54-60 | A segment of a valid, merged store cannot stop inside a run of its value in another store with the same point function. |
| Segments.SameLookupSameEntry | range_map.hpp:54-60 | Two valid, merged stores with the same point function hold the same entry at each key. |
| Segments.CanonicalForm | range_map.hpp:54-60 | Two valid, merged stores with the same point function are equal: the merged representation is canonical. |
| Segments.SingleSegment | range_map.hpp:52 | A one-segment store is valid and merged and maps exactly that segment's points. |
| Segments.InsertFresh | range_map.hpp:51-52 | Inserting [b, b + n) where no segment reaches into it keeps the store valid. The point function becomes `value` on the range and stays the same elsewhere. The merge invariant holds except around the new key. |
| Segments.JoinPreservesLookup | range_map.hpp:111-118 | Fusing touching, equal-valued segments keeps the store valid and changes no point. |
| Segments.MergeWithLeft | range_map.hpp:54-56 | After trying to fuse the new segment with its predecessor, the surviving segment has no equal-valued touching segment on its left. The invariant holds except around it. |
| Segments.NoLeftNeighbour | range_map.hpp:54 | With no predecessor, nothing ends where the new segment begins. |
| Segments.MergeWithRight | range_map.hpp:58-60 | Trying to fuse the surviving segment with its successor restores the merge invariant. |
| Segments.NoRightNeighbour | range_map.hpp:58 | With no successor, a left-clean segment already gives the merge invariant. |
| OrderedKeys.UpperBound | range_map.hpp:30 | `upper_bound(x)`: the least key greater than `x`, or `end()` exactly when no key is greater. |
| OrderedKeys.LowerBound | range_map.hpp:73 | `lower_bound(x)`: the least key not less than `x`, or `end()` exactly when every key is less. |
| OrderedKeys.Prev | range_map.hpp:32-33 | `std::prev(it)`: the greatest key before `it`. There is none exactly when `it` is `begin()`. |
| OrderedKeys.UpperBoundAgrees | range_map.hpp:76 | Two key sets that agree above `x` have the same `upper_bound(x)`, so `std::next(current)` can be taken in the partly carved map. |

## Left out

- Bounded integer arithmetic. Indices and lengths are mathematical integers. The overflow of `begin + length`, `current_end - end` or `-length` for a bounded `I` is not modelled.
- `std::map` internals: the balanced tree, iterator invalidation and complexity. The store is a Dafny `map`, and iterators are keys or `end()`.
- Concurrency: the class is a single-owner container with no locking.
- Template details. `V` is any type with equality, since `try_merge` compares values with `!=`. `get` returns an `Option`, not a `std::optional` copy.
- RangeMaps.RangeMap.RemoveImpl: requires a non-negative length, which `normalize_range` guarantees for every caller. A zero length never reaches it, because `add` and `remove` return first. With a zero length the loop would split a segment straddling `begin` into two touching, equal-valued halves, so merge preservation is stated only for a non-empty range.
- RangeMaps.RangeMap.TryMerge: requires a valid store (the class invariant), and that both keys are present, as its callers guarantee.
- RangeMaps.RangeMap.Get: its result equals the point function only on a valid store. On an invalid store it still computes the source's answer, but nothing is claimed about it.
- The `success` flag of `insert_or_assign` is proved true by an assertion. The model has no branch for a key collision, because none can occur.

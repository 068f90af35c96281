/**
 * The range map: a store of non-overlapping half-open segments keyed by their
 * begin point, each holding a (length, value) pair, with `add` to overwrite a
 * range, `remove` to carve one out and `get` to ask which value covers a point.
 *
 * Indices and lengths are mathematical integers (the source gives the length
 * the index type, `std::pair<I, I>`). A range is a (begin, length) pair whose
 * length may be negative, meaning the range that ends at `begin`.
 */
module RangeMaps {
  import opened Optional
  import opened OrderedKeys
  import opened Segments
  import opened Carving

  /**
   * A (begin, length) range turned into half-open form: the same two
   * endpoints `begin` and `begin + length`, the lower one first.
   */
  function NormalizeRange(range: (int, int)): (r: (int, int))
    ensures r.1 >= 0
    ensures {r.0, r.0 + r.1} == {range.0, range.0 + range.1}
    ensures forall x :: InRange(r, x) <==> Between(range.0, x, range.0 + range.1) || Between(range.0 + range.1, x, range.0)
    ensures range.1 >= 0 ==> r == range
  {
    var (begin, length) := range;
    if length < 0 then (begin + length, -length) else (begin, length)
  }

  /** The points of a normalized range. */
  predicate InRange(range: (int, int), x: int) {
    range.0 <= x < range.0 + range.1
  }

  /** x lies in the half-open interval from lo up to hi. */
  predicate Between(lo: int, x: int, hi: int) {
    lo <= x < hi
  }

  class RangeMap<V(==)> {
    /** The segment store: begin ↦ (length, value). */
    var store: Store<V>

    /** The invariants every public call keeps. */
    ghost predicate Valid()
      reads this
    {
      ValidStore(store) && Merged(store)
    }

    constructor ()
      ensures Valid() && store == map[]
    {
      store := map[];
    }

    /** Assign `value` to every point of `range`; a zero length changes nothing. */
    method Add(range: (int, int), value: V)
      requires Valid()
      modifies this
      ensures Valid()
      ensures range.1 == 0 ==> store == old(store)
      ensures forall x ::
        Lookup(store, x) == if InRange(NormalizeRange(range), x) then Some(value) else Lookup(old(store), x)
    {
      if range.1 == 0 {
        return;
      }
      AddImpl(NormalizeRange(range), value);
    }

    /** Unmap every point of `range`; a zero length changes nothing. */
    method Remove(range: (int, int))
      requires Valid()
      modifies this
      ensures Valid()
      ensures range.1 == 0 ==> store == old(store)
      ensures range.1 != 0 ==>
        Carved(old(store), store, NormalizeRange(range).0, NormalizeRange(range).0 + NormalizeRange(range).1)
      ensures forall x ::
        Lookup(store, x) == if InRange(NormalizeRange(range), x) then None else Lookup(old(store), x)
    {
      if range.1 == 0 {
        return;
      }
      ghost var before := store;
      var (begin, length) := NormalizeRange(range);
      RemoveImpl((begin, length));
    }

    /**
     * The value covering `index`: the last segment beginning at or before it,
     * if it reaches past `index`.
     */
    function Get(index: int): (r: Option<V>)
      reads this
      ensures ValidStore(store) ==> r == Lookup(store, index)
    {
      var it := Prev(store.Keys, UpperBound(store.Keys, index));
      if it.Some? then
        var begin := it.value;
        var entry := store[begin];
        var end := begin + entry.length;
        if begin <= index < end then
          GetAgrees(store, index, begin);
          Some(entry.value)
        else
          GetAgrees(store, index, begin);
          None
      else
        LookupNoPredecessor(store, index);
        None
    }

    /** Carve the non-empty range out, insert the new segment, fuse it with equal neighbours. */
    method AddImpl(range: (int, int), value: V)
      requires Valid() && range.1 > 0
      modifies this
      ensures Valid()
      ensures forall x :: Lookup(store, x) == if InRange(range, x) then Some(value) else Lookup(old(store), x)
    {
      var (begin, length) := range;
      ghost var before := store;
      RemoveImpl(range);
      ghost var carved := store;
      ClearedRange(carved, begin, begin + length);

      // insert_or_assign reports whether the key was new; carving has freed it
      var success := begin !in store;
      store := store[begin := Entry(length, value)];
      assert success;
      ghost var inserted := store;
      InsertFresh(carved, inserted, begin, length, value);

      var position := begin;
      var left := Prev(store.Keys, Some(position));
      if left.Some? {
        MergeWithLeft(store, left.value, position);
        position := TryMerge(left.value, position);
      } else {
        NoLeftNeighbour(store, position);
      }
      ghost var leftMerged := store;
      var right := UpperBound(store.Keys, position);
      if right.Some? {
        MergeWithRight(store, position, right.value);
        var _ := TryMerge(position, right.value);
      } else {
        NoRightNeighbour(store, position);
      }
      AddedLookup(before, carved, inserted, leftMerged, store, begin, length, value);
    }

    /** Carve [begin, begin + length) out of the store, scanning the segments that may overlap it. */
    method RemoveImpl(range: (int, int))
      requires ValidStore(store) && range.1 >= 0
      modifies this
      ensures Carved(old(store), store, range.0, range.0 + range.1)
      ensures ValidStore(store)
      ensures forall x :: Lookup(store, x) == if InRange(range, x) then None else Lookup(old(store), x)
      ensures range.1 > 0 ==> range.0 !in store
      ensures range.1 > 0 && Merged(old(store)) ==> Merged(store)
    {
      var (begin, length) := range;
      var end := begin + length;

      var current := UpperBound(store.Keys, begin);
      var before := Prev(store.Keys, current);
      if before.Some? {
        current := before;
      }
      var last := LowerBound(store.Keys, end);

      ghost var m0 := store;
      CarveStart(m0, current, begin, end);

      while current != last
        invariant last == LowerBound(m0.Keys, end)
        invariant current.Some? ==> current.value in m0
        invariant current.None? ==> last.None?
        invariant current.Some? && last.Some? ==> current.value <= last.value
        invariant CarvedUpTo(m0, store, current, begin, end)
        decreases |Pending(m0, current)|
      {
        var currentBegin := current.value;
        ScanAt(m0, store, currentBegin, last, begin, end);
        var next := UpperBound(store.Keys, currentBegin);
        ghost var scanned := store;
        CarveSegment(currentBegin, begin, end);
        ScanAdvance(m0, scanned, store, currentBegin, next, last, begin, end);
        current := next;
      }

      CarveComplete(m0, store, last, begin, end);
    }

    /**
     * One step of the scan: the segment at `currentBegin` leaves its tail past
     * `end` under the key `end`, then is erased if it starts at or after
     * `begin` and cut down to its head before `begin` otherwise; a segment
     * ending by `begin` is left alone.
     */
    method CarveSegment(currentBegin: int, begin: int, end: int)
      requires currentBegin in store && currentBegin < end
      modifies this
      ensures store == CarveOne(old(store), currentBegin, begin, end)
    {
      var currentEntry := store[currentBegin];
      var currentEnd := currentBegin + currentEntry.length;

      if currentEnd > begin {
        if currentEnd > end {
          store := store[end := Entry(currentEnd - end, currentEntry.value)];
        }
        if currentBegin >= begin {
          store := store - {currentBegin};
        } else {
          store := store[currentBegin := store[currentBegin].(length := begin - currentBegin)];
        }
      }
    }

    /**
     * Fuse the segments at `left` and `right` if they touch and hold equal
     * values; returns the key of the segment that now holds `right`'s points.
     */
    method TryMerge(left: int, right: int) returns (it: int)
      requires ValidStore(store) && left in store && right in store
      modifies this
      ensures ValidStore(store)
      ensures forall x :: Lookup(store, x) == Lookup(old(store), x)
      ensures Mergeable(old(store), left, right) ==> it == left && store == Joined(old(store), left, right)
      ensures !Mergeable(old(store), left, right) ==> it == right && store == old(store)
    {
      var leftEntry := store[left];
      var leftEnd := left + leftEntry.length;
      var rightEntry := store[right];
      var rightEnd := right + rightEntry.length;

      if leftEnd != right || leftEntry.value != rightEntry.value {
        return right;
      }

      JoinPreservesLookup(store, left, right);
      store := store[left := store[left].(length := rightEnd - left)];
      store := store - {right};
      return left;
    }
  }

  /**
   * Carving the range, inserting its segment and merging twice without changing
   * any point leaves the range mapped to `value` and every other point as it was.
   */
  lemma AddedLookup<V>(before: Store<V>, carved: Store<V>, inserted: Store<V>, merged: Store<V>, final: Store<V>,
                       begin: int, length: int, value: V)
    requires forall x :: Lookup(carved, x) == if begin <= x < begin + length then None else Lookup(before, x)
    requires forall x :: Lookup(inserted, x) == if begin <= x < begin + length then Some(value) else Lookup(carved, x)
    requires forall x :: Lookup(merged, x) == Lookup(inserted, x)
    requires forall x :: Lookup(final, x) == Lookup(merged, x)
    ensures forall x :: Lookup(final, x) == if InRange((begin, length), x) then Some(value) else Lookup(before, x)
  {
  }

  /**
   * Two touching ranges added with the same value end up as one segment:
   * adding [0, 5) and then [5, 10) leaves the single segment [0, 10).
   */
  method AdjacentAddsFuse<V(==)>(value: V) returns (rm: RangeMap<V>)
    ensures rm.store == map[0 := Entry(10, value)]
  {
    rm := new RangeMap();
    rm.Add((0, 5), value);
    rm.Add((5, 5), value);
    ghost var single := map[0 := Entry(10, value)];
    SingleSegment(single, 0, 10, value);
    CanonicalForm(rm.store, single);
  }

  /** `get`'s answer from the last segment at or before `index` is the point function's. */
  lemma GetAgrees<V>(m: Store<V>, index: int, begin: int)
    requires begin in m && begin <= index
    requires forall k :: k in m && k <= index ==> k <= begin
    ensures ValidStore(m) ==>
      Lookup(m, index) == if index < begin + m[begin].length then Some(m[begin].value) else None
  {
    if ValidStore(m) {
      LookupByPredecessor(m, index, begin);
    }
  }
}

/**
 * Carving the range [b, e) out of a segment store, as the range map's
 * `remove_impl` does, described segment by segment, and what it does to the
 * store's invariants and to the point function.
 */
module Carving {
  import opened Optional
  import opened OrderedKeys
  import opened Segments

  /** The segment at k reaches across e: k < e < k + length. */
  ghost predicate Straddles<V>(m0: Store<V>, k: int, e: int) {
    k in m0 && k < e < k + m0[k].length
  }

  /**
   * What carving [b, e) out of m0 leaves in m of the segment that began at k:
   * a segment not reaching into [b, e) stays; one starting before b keeps its
   * head [k, b); one starting inside [b, e) goes; and one reaching past e
   * leaves its tail [e, k + length) under the key e.
   */
  ghost predicate CarvedKey<V>(m0: Store<V>, m: Store<V>, k: int, b: int, e: int)
    requires k in m0
  {
    var end := k + m0[k].length;
    && (if end <= b || e <= k then k in m && m[k] == m0[k]
        else if k < b then k in m && m[k] == Entry(b - k, m0[k].value)
        else k !in m)
    && (k < e < end ==> e in m && m[e] == Entry(end - e, m0[k].value))
  }

  /** m is m0 with [b, e) carved out: every old segment carved, and no other key. */
  ghost predicate Carved<V>(m0: Store<V>, m: Store<V>, b: int, e: int) {
    && (forall k :: k in m0 ==> CarvedKey(m0, m, k, b, e))
    && (forall k :: k in m ==> k in m0 || (k == e && exists s :: Straddles(m0, s, e)))
  }

  /**
   * Every segment left after carving is a piece of one old segment s, with its
   * value, lying outside [b, e); it ends where s ended unless it is the head
   * of s, which ends at b; a piece under a new key is the tail at e.
   */
  lemma PieceOf<V>(m0: Store<V>, m: Store<V>, b: int, e: int, k: int) returns (s: int)
    requires ValidStore(m0) && b <= e && Carved(m0, m, b, e) && k in m
    ensures s in m0 && s <= k && m[k].value == m0[s].value && m[k].length > 0
    ensures k + m[k].length == s + m0[s].length || (k == s && k + m[k].length == b)
    ensures k + m[k].length <= b || e <= k
    ensures s != k ==> k == e && Straddles(m0, s, e) && (s in m ==> m[s].length == b - s)
  {
    if k in m0 {
      s := k;
    } else {
      s :| Straddles(m0, s, e);
      assert CarvedKey(m0, m, s, b, e);
    }
  }

  /** Carving keeps the store valid. */
  lemma {:induction false} CarvedValid<V>(m0: Store<V>, m: Store<V>, b: int, e: int)
    requires ValidStore(m0) && b <= e && Carved(m0, m, b, e)
    ensures ValidStore(m)
  {
    forall k | k in m
      ensures m[k].length > 0
    {
      var s := PieceOf(m0, m, b, e, k);
    }
    forall k1, k2 | k1 in m && k2 in m && k1 < k2
      ensures Apart(m, k1, k2)
    {
      var s1 := PieceOf(m0, m, b, e, k1);
      var s2 := PieceOf(m0, m, b, e, k2);
      if s1 < s2 {
        assert Apart(m0, s1, s2);
      }
    }
  }

  /** Carving unmaps [b, e) and leaves every other point as it was. */
  lemma {:induction false} CarvedLookup<V>(m0: Store<V>, m: Store<V>, b: int, e: int)
    requires ValidStore(m0) && b <= e && Carved(m0, m, b, e)
    ensures ValidStore(m)
    ensures forall x :: Lookup(m, x) == if b <= x < e then None else Lookup(m0, x)
  {
    CarvedValid(m0, m, b, e);
    forall x
      ensures Lookup(m, x) == if b <= x < e then None else Lookup(m0, x)
    {
      if b <= x < e {
        forall k | k in m
          ensures !Covers(m, k, x)
        {
          var s := PieceOf(m0, m, b, e, k);
        }
      } else if s :| Covers(m0, s, x) {
        // the piece of s that holds x: s itself, its head, or its tail at e
        assert CarvedKey(m0, m, s, b, e);
        var end := s + m0[s].length;
        var k := if (end <= b || e <= s) || x < b then s else e;
        assert Covers(m, k, x) && m[k].value == m0[s].value;
        LookupAt(m, k, x);
        LookupAt(m0, s, x);
      } else {
        forall k | k in m
          ensures !Covers(m, k, x)
        {
          var s := PieceOf(m0, m, b, e, k);
          assert Covers(m, k, x) ==> Covers(m0, s, x);
        }
      }
    }
  }

  /** Carving a non-empty range leaves no key at its begin. */
  lemma CarvedBeginFree<V>(m0: Store<V>, m: Store<V>, b: int, e: int)
    requires ValidStore(m0) && b < e && Carved(m0, m, b, e)
    ensures b !in m
  {
    if b in m0 {
      assert CarvedKey(m0, m, b, b, e);
    }
  }

  /** Carving a non-empty range keeps the merge invariant. */
  lemma {:induction false} CarvedMerged<V>(m0: Store<V>, m: Store<V>, b: int, e: int)
    requires ValidStore(m0) && Merged(m0) && b < e && Carved(m0, m, b, e)
    ensures Merged(m)
  {
    CarvedBeginFree(m0, m, b, e);
    forall l, r | l in m && r in m && l + m[l].length == r
      ensures !Mergeable(m, l, r)
    {
      var s1 := PieceOf(m0, m, b, e, l);
      var s2 := PieceOf(m0, m, b, e, r);
      if r == s2 && l + m[l].length == s1 + m0[s1].length {
        assert !Mergeable(m0, s1, s2);
      }
    }
  }

  /** Carving the same range twice leaves the store of the first carving. */
  lemma {:induction false} CarvedIdempotent<V>(m0: Store<V>, m1: Store<V>, m2: Store<V>, b: int, e: int)
    requires ValidStore(m0) && b <= e && Carved(m0, m1, b, e) && Carved(m1, m2, b, e)
    ensures m2 == m1
  {
    CarvedValid(m0, m1, b, e);
    forall k | k in m1
      ensures k in m2 && m2[k] == m1[k]
    {
      var s := PieceOf(m0, m1, b, e, k);
      assert CarvedKey(m1, m2, k, b, e);
    }
    forall k | k in m2
      ensures k in m1
    {
      if k !in m1 {
        var s :| Straddles(m1, s, e);
        var _ := PieceOf(m0, m1, b, e, s);
      }
    }
    assert m1.Keys == m2.Keys;
  }

  // ---------------------------------------------------------------------------
  // The scan of remove_impl, one old segment at a time

  /** The old keys at or after position `cut`: the segments still to be scanned. */
  ghost function Pending<V>(m0: Store<V>, cut: Option<int>): set<int> {
    set k | k in m0 && !Before(k, cut)
  }

  /**
   * The store m after the scan has reached position `cut`: old segments before
   * `cut` are carved, those at or after it are untouched, and the only new key
   * is the tail at e, added before `cut`.
   */
  ghost predicate CarvedUpTo<V>(m0: Store<V>, m: Store<V>, cut: Option<int>, b: int, e: int) {
    && (forall k :: k in m0 && Before(k, cut) ==> CarvedKey(m0, m, k, b, e))
    && (forall k :: k in m0 && !Before(k, cut) ==> k in m && m[k] == m0[k])
    && (forall k :: k in m ==> k in m0 || (k == e && Before(e, cut) && exists s :: Straddles(m0, s, e)))
  }

  /**
   * The scan starts at the last key not after b, or at the first key when there
   * is none; every segment before that start ends by b, so nothing is carved yet.
   */
  lemma {:induction false} CarveStart<V>(m0: Store<V>, start: Option<int>, b: int, e: int)
    requires ValidStore(m0) && b <= e
    requires var u := UpperBound(m0.Keys, b); var p := Prev(m0.Keys, u);
      start == if p.Some? then p else u
    ensures start.Some? ==> start.value in m0
    ensures CarvedUpTo(m0, m0, start, b, e)
  {
    var u := UpperBound(m0.Keys, b);
    var p := Prev(m0.Keys, u);
    forall k | k in m0 && Before(k, start)
      ensures k + m0[k].length <= b
    {
      if p.Some? {
        assert k < p.value && p.value <= b && Apart(m0, k, p.value);
      }
    }
  }

  /** Once the scan reaches the first key not before e, the carving is complete. */
  lemma {:induction false} CarveFinish<V>(m0: Store<V>, m: Store<V>, last: Option<int>, b: int, e: int)
    requires last == LowerBound(m0.Keys, e) && CarvedUpTo(m0, m, last, b, e)
    ensures Carved(m0, m, b, e)
  {
    forall k | k in m0
      ensures CarvedKey(m0, m, k, b, e)
    {
      if !Before(k, last) {
        assert e <= k;
      }
    }
  }

  /** The scan's end state, with everything carving promises. */
  lemma CarveComplete<V>(m0: Store<V>, m: Store<V>, last: Option<int>, b: int, e: int)
    requires ValidStore(m0) && b <= e
    requires last == LowerBound(m0.Keys, e) && CarvedUpTo(m0, m, last, b, e)
    ensures Carved(m0, m, b, e) && ValidStore(m)
    ensures forall x :: Lookup(m, x) == if b <= x < e then None else Lookup(m0, x)
    ensures b < e ==> b !in m
    ensures b < e && Merged(m0) ==> Merged(m)
  {
    CarveFinish(m0, m, last, b, e);
    CarvedLookup(m0, m, b, e);
    if b < e {
      CarvedBeginFree(m0, m, b, e);
      if Merged(m0) {
        CarvedMerged(m0, m, b, e);
      }
    }
  }

  /**
   * What scanning the segment at c does to the store: a segment reaching past
   * e leaves its tail [e, end) under the key e; then a segment starting inside
   * [b, e) is erased and one starting before b is shrunk to its head [c, b).
   * A segment ending by b is left alone.
   */
  ghost function CarveOne<V>(m: Store<V>, c: int, b: int, e: int): Store<V>
    requires c in m
  {
    var end := c + m[c].length;
    if end <= b then m
    else
      var withTail := if end > e then m[e := Entry(end - e, m[c].value)] else m;
      if c >= b then withTail - {c} else withTail[c := withTail[c].(length := b - c)]
  }

  /**
   * One step of the scan: carving the segment at c, and touching no other key
   * than c and, for a segment reaching past e, the tail key e, moves the scan
   * on to the next key.
   */
  lemma {:induction false} CarveStep<V>(m0: Store<V>, m: Store<V>, m': Store<V>, c: int, next: Option<int>, b: int, e: int)
    requires ValidStore(m0) && b <= e
    requires c in m0 && c < e && CarvedUpTo(m0, m, Some(c), b, e)
    requires next == UpperBound(m0.Keys, c)
    requires m' == CarveOne(m, c, b, e)
    ensures CarvedUpTo(m0, m', next, b, e)
  {
    assert m[c] == m0[c];
    assert CarvedKey(m0, m', c, b, e);
    if Straddles(m0, c, e) {
      // the next key lies beyond the segment at c, so beyond the new tail key
      assert next.Some? ==> Apart(m0, c, next.value) && e < next.value;
    }
    forall k | k in m0 && Before(k, next)
      ensures CarvedKey(m0, m', k, b, e)
    {
      if k != c {
        assert k < c;
        assert Apart(m0, k, c);
      }
    }
  }

  /**
   * At a scan position c before the stop position `last`, the segment at c is
   * still the old one, it starts before e, and the next key after c is the
   * same in the partly carved store as in the old one.
   */
  lemma ScanAt<V>(m0: Store<V>, m: Store<V>, c: int, last: Option<int>, b: int, e: int)
    requires c in m0 && Some(c) != last && (last.Some? ==> c <= last.value)
    requires last == LowerBound(m0.Keys, e) && CarvedUpTo(m0, m, Some(c), b, e)
    ensures c in m && m[c] == m0[c] && c < e
    ensures UpperBound(m.Keys, c) == UpperBound(m0.Keys, c)
  {
    UpperBoundAgrees(m.Keys, m0.Keys, c);
  }

  /**
   * Scanning the segment at c and moving to the next key keeps the scan's
   * invariant, stays within the stop position, and leaves fewer keys to scan.
   */
  lemma ScanAdvance<V>(m0: Store<V>, m: Store<V>, m': Store<V>, c: int, next: Option<int>, last: Option<int>, b: int, e: int)
    requires ValidStore(m0) && b <= e
    requires c in m0 && c < e && Some(c) != last && (last.Some? ==> c <= last.value)
    requires last == LowerBound(m0.Keys, e) && CarvedUpTo(m0, m, Some(c), b, e)
    requires next == UpperBound(m0.Keys, c) && m' == CarveOne(m, c, b, e)
    ensures CarvedUpTo(m0, m', next, b, e)
    ensures next.Some? ==> next.value in m0
    ensures next.None? ==> last.None?
    ensures next.Some? && last.Some? ==> next.value <= last.value
    ensures |Pending(m0, next)| < |Pending(m0, Some(c))|
  {
    CarveStep(m0, m, m', c, next, b, e);
    PendingShrinks(m0, c, next);
  }

  /** Moving past the segment at c leaves fewer segments to scan. */
  lemma PendingShrinks<V>(m0: Store<V>, c: int, next: Option<int>)
    requires c in m0 && next == UpperBound(m0.Keys, c)
    ensures |Pending(m0, next)| < |Pending(m0, Some(c))|
  {
    var now, later := Pending(m0, Some(c)), Pending(m0, next);
    forall k
      ensures k in now <==> k in later || k == c
    {
      if k in m0 && c < k {
        assert !Before(k, next);
      }
    }
    assert now == later + {c};
  }
}

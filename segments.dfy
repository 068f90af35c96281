/**
 * The segment store of a range map and what it means.
 *
 * The store maps the begin point of every segment to its (length, value)
 * pair, exactly as the range map's `std::map<I, std::pair<I, V>>` does;
 * std::map keeps its keys ordered, which the key set of a Dafny map does by
 * virtue of `int` being ordered. The store stands for a partial point function,
 * `Lookup`, that sends each index to the value of the segment covering it.
 */
module Segments {
  import opened Optional

  /** The (length, value) pair stored for the segment beginning at its key. */
  datatype Entry<V> = Entry(length: int, value: V)

  type Store<V> = map<int, Entry<V>>

  /** The segment beginning at k covers index x: x lies in [k, k + length). */
  ghost predicate Covers<V>(m: Store<V>, k: int, x: int) {
    k in m && k <= x < k + m[k].length
  }

  /**
   * The structural invariants: every segment has positive length and, taken
   * in the order of their begins, each segment ends before the next begins.
   */
  ghost predicate ValidStore<V>(m: Store<V>) {
    && (forall k :: k in m ==> m[k].length > 0)
    && (forall k1, k2 {:trigger Apart(m, k1, k2)} :: k1 in m && k2 in m && k1 < k2 ==> Apart(m, k1, k2))
  }

  /** The segment at k1 ends by k2. */
  ghost predicate Apart<V>(m: Store<V>, k1: int, k2: int)
    requires k1 in m
  {
    k1 + m[k1].length <= k2
  }

  /** The segments at l and r touch and hold equal values. */
  ghost predicate Mergeable<V>(m: Store<V>, l: int, r: int) {
    l in m && r in m && l + m[l].length == r && m[l].value == m[r].value
  }

  /** The merge invariant: two segments that touch never hold equal values. */
  ghost predicate Merged<V>(m: Store<V>) {
    forall l, r {:trigger Mergeable(m, l, r)} :: !Mergeable(m, l, r)
  }

  /** The point function the store stands for. */
  ghost function Lookup<V>(m: Store<V>, x: int): Option<V> {
    if exists k :: Covers(m, k, x) then
      var k :| Covers(m, k, x); Some(m[k].value)
    else
      None
  }

  /** In a valid store at most one segment covers a point. */
  lemma CoverUnique<V>(m: Store<V>, j: int, k: int, x: int)
    requires ValidStore(m) && Covers(m, j, x) && Covers(m, k, x)
    ensures j == k
  {
    assert j < k ==> Apart(m, j, k);
    assert k < j ==> Apart(m, k, j);
  }

  /** In a valid store, the one segment that covers x decides Lookup at x. */
  lemma LookupAt<V>(m: Store<V>, k: int, x: int)
    requires ValidStore(m) && Covers(m, k, x)
    ensures Lookup(m, x) == Some(m[k].value)
  {
    forall j | Covers(m, j, x)
      ensures j == k
    {
      CoverUnique(m, j, k, x);
    }
  }

  /**
   * Lookup is decided by the last segment beginning at or before x: x is
   * mapped exactly when that segment reaches past x.
   */
  lemma LookupByPredecessor<V>(m: Store<V>, x: int, p: int)
    requires ValidStore(m) && p in m && p <= x
    requires forall k :: k in m && k <= x ==> k <= p
    ensures Lookup(m, x) == if x < p + m[p].length then Some(m[p].value) else None
  {
    if x < p + m[p].length {
      LookupAt(m, p, x);
    } else {
      forall k | k in m
        ensures !Covers(m, k, x)
      {
        assert k < p ==> Apart(m, k, p);
      }
    }
  }

  /** With no segment beginning at or before x, x is unmapped. */
  lemma LookupNoPredecessor<V>(m: Store<V>, x: int)
    requires forall k :: k in m ==> x < k
    ensures Lookup(m, x) == None
  {
  }

  /** A valid store that maps nothing in [b, e) has no segment reaching into it. */
  lemma {:induction false} ClearedRange<V>(m: Store<V>, b: int, e: int)
    requires ValidStore(m) && b < e
    requires forall x :: b <= x < e ==> Lookup(m, x) == None
    ensures forall k :: k in m ==> k + m[k].length <= b || e <= k
  {
    forall k | k in m
      ensures k + m[k].length <= b || e <= k
    {
      if k < e && b < k + m[k].length {
        var x := if k < b then b else k;
        LookupAt(m, k, x);
      }
    }
  }

  // ---------------------------------------------------------------------------
  // Canonical form

  /**
   * In a valid, merged store a key is a point where the point function
   * changes, and its segment runs exactly as far as that value does; so a second
   * valid, merged store with the same point function holds the same entry.
   */
  lemma {:induction false} SameLookupSameEntry<V>(m1: Store<V>, m2: Store<V>, k: int)
    requires ValidStore(m1) && Merged(m1) && ValidStore(m2) && Merged(m2)
    requires forall x :: Lookup(m1, x) == Lookup(m2, x)
    requires k in m1
    ensures k in m2 && m2[k] == m1[k]
  {
    var v := m1[k].value;
    LookupAt(m1, k, k);
    assert Lookup(m2, k) == Some(v);
    var j :| Covers(m2, j, k);
    LookupAt(m2, j, k);
    // m1 does not map k - 1 to v, so the segment of m2 holding k cannot start earlier
    ValueChangesAtBegin(m1, k);
    if j < k {
      LookupAt(m2, j, k - 1);
    }
    var n1, n2 := m1[k].length, m2[k].length;
    if n1 < n2 {
      RunEndsAtBoundary(m1, m2, k);
    } else if n2 < n1 {
      RunEndsAtBoundary(m2, m1, k);
    }
  }

  /** In a valid, merged store the point before a segment holds another value or none. */
  lemma ValueChangesAtBegin<V>(m: Store<V>, k: int)
    requires ValidStore(m) && Merged(m) && k in m
    ensures Lookup(m, k - 1) != Some(m[k].value)
  {
    var y := k - 1;
    if i :| Covers(m, i, y) {
      LookupAt(m, i, y);
      assert Apart(m, i, k) && !Mergeable(m, i, k);
    }
  }

  /** In a valid, merged store the point after a segment holds another value or none. */
  lemma ValueChangesAtEnd<V>(m: Store<V>, k: int)
    requires ValidStore(m) && Merged(m) && k in m
    ensures Lookup(m, k + m[k].length) != Some(m[k].value)
  {
    var p := k + m[k].length;
    if i :| Covers(m, i, p) {
      LookupAt(m, i, p);
      assert i < k ==> Apart(m, i, k);
      assert k < i ==> Apart(m, k, i);
      assert !Mergeable(m, k, i);
    }
  }

  /** The segment at k cannot stop inside a run of the same value in another store. */
  lemma RunEndsAtBoundary<V>(m1: Store<V>, m2: Store<V>, k: int)
    requires ValidStore(m1) && Merged(m1) && ValidStore(m2)
    requires forall x :: Lookup(m1, x) == Lookup(m2, x)
    requires k in m1 && k in m2 && m1[k].value == m2[k].value
    ensures m2[k].length <= m1[k].length
  {
    var p := k + m1[k].length;
    ValueChangesAtEnd(m1, k);
    if p < k + m2[k].length {
      LookupAt(m2, k, p);
    }
  }

  /**
   * The representation is canonical: two valid, merged stores that agree on
   * every point are the same store.
   */
  lemma CanonicalForm<V>(m1: Store<V>, m2: Store<V>)
    requires ValidStore(m1) && Merged(m1) && ValidStore(m2) && Merged(m2)
    requires forall x :: Lookup(m1, x) == Lookup(m2, x)
    ensures m1 == m2
  {
    forall k | k in m1
      ensures k in m2 && m2[k] == m1[k]
    {
      SameLookupSameEntry(m1, m2, k);
    }
    forall k | k in m2
      ensures k in m1 && m1[k] == m2[k]
    {
      SameLookupSameEntry(m2, m1, k);
    }
    assert m1.Keys == m2.Keys;
  }

  /** A store of one segment is valid and merged, and maps exactly that segment's points. */
  lemma SingleSegment<V>(m: Store<V>, b: int, n: int, v: V)
    requires n > 0 && m == map[b := Entry(n, v)]
    ensures ValidStore(m) && Merged(m)
    ensures forall x :: Lookup(m, x) == if b <= x < b + n then Some(v) else None
  {
    forall x
      ensures Lookup(m, x) == if b <= x < b + n then Some(v) else None
    {
      if b <= x < b + n {
        LookupAt(m, b, x);
      }
    }
  }

  // ---------------------------------------------------------------------------
  // Inserting the new segment

  /** Inserting [b, b + n) into a store that leaves it free keeps the store valid. */
  lemma {:induction false} InsertFresh<V>(m: Store<V>, m': Store<V>, b: int, n: int, v: V)
    requires ValidStore(m) && n > 0
    requires forall k :: k in m ==> k + m[k].length <= b || b + n <= k
    requires m' == m[b := Entry(n, v)]
    ensures b !in m
    ensures ValidStore(m')
    ensures forall x :: Lookup(m', x) == if b <= x < b + n then Some(v) else Lookup(m, x)
    ensures Merged(m) ==> MergedExcept(m', b)
  {
    if Merged(m) {
      forall l, r | l != b && r != b
        ensures !Mergeable(m', l, r)
      {
        assert !Mergeable(m, l, r);
      }
    }
    forall k1, k2 | k1 in m' && k2 in m' && k1 < k2
      ensures Apart(m', k1, k2)
    {
      if k1 != b && k2 != b {
        assert Apart(m, k1, k2);
      }
    }
    forall x
      ensures Lookup(m', x) == if b <= x < b + n then Some(v) else Lookup(m, x)
    {
      if b <= x < b + n {
        LookupAt(m', b, x);
      } else if k :| Covers(m, k, x) {
        LookupAt(m, k, x);
        LookupAt(m', k, x);
      } else {
        forall k | k in m'
          ensures !Covers(m', k, x)
        {
          if k != b {
            assert !Covers(m, k, x);
          }
        }
      }
    }
  }

  // ---------------------------------------------------------------------------
  // Merging two touching segments

  /** The store with the segments at l and r fused into one beginning at l. */
  ghost function Joined<V>(m: Store<V>, l: int, r: int): Store<V>
    requires l in m && r in m
  {
    m[l := Entry(r + m[r].length - l, m[l].value)] - {r}
  }

  /** Fusing two touching, equal-valued segments keeps the store valid and changes no point. */
  lemma {:induction false} JoinPreservesLookup<V>(m: Store<V>, l: int, r: int)
    requires ValidStore(m) && Mergeable(m, l, r)
    ensures ValidStore(Joined(m, l, r))
    ensures forall x :: Lookup(Joined(m, l, r), x) == Lookup(m, x)
  {
    var j := Joined(m, l, r);
    assert l < r;
    forall k1, k2 | k1 in j && k2 in j && k1 < k2
      ensures Apart(j, k1, k2)
    {
      if k1 == l {
        assert Apart(m, l, k2) && Apart(m, r, k2);
      } else {
        assert Apart(m, k1, k2);
      }
    }
    forall x
      ensures Lookup(j, x) == Lookup(m, x)
    {
      if l <= x < r + m[r].length {
        LookupAt(j, l, x);
        if x < r {
          LookupAt(m, l, x);
        } else {
          LookupAt(m, r, x);
        }
      } else if k :| Covers(m, k, x) {
        assert k != l && k != r;
        LookupAt(m, k, x);
        LookupAt(j, k, x);
      } else {
        forall k | k in j
          ensures !Covers(j, k, x)
        {
          if k != l {
            assert !Covers(m, k, x);
          }
        }
      }
    }
  }

  // ---------------------------------------------------------------------------
  // The merge invariant around one segment

  /** Touching pairs that do not involve the segment at j hold different values. */
  ghost predicate MergedExcept<V>(m: Store<V>, j: int) {
    forall l, r {:trigger Mergeable(m, l, r)} :: l != j && r != j ==> !Mergeable(m, l, r)
  }

  /** No segment ending where the one at j begins holds its value. */
  ghost predicate LeftClean<V>(m: Store<V>, j: int) {
    forall l {:trigger Mergeable(m, l, j)} :: !Mergeable(m, l, j)
  }

  /**
   * Trying to fuse the segment at j with its left neighbour p (the last key
   * before j) leaves, around the surviving segment `it`, no touching pair with
   * equal values except possibly on its right.
   */
  lemma {:induction false} MergeWithLeft<V>(m: Store<V>, p: int, j: int)
    requires ValidStore(m) && p in m && j in m && p < j && MergedExcept(m, j)
    requires forall k :: k in m && k < j ==> k <= p
    ensures var m', it := if Mergeable(m, p, j) then Joined(m, p, j) else m, if Mergeable(m, p, j) then p else j;
      it in m' && MergedExcept(m', it) && LeftClean(m', it)
  {
    if Mergeable(m, p, j) {
      var m' := Joined(m, p, j);
      forall l, r | l != p && r != p
        ensures !Mergeable(m', l, r)
      {
        if l in m' && r in m' {
          assert !Mergeable(m, l, r);
        }
      }
      forall l
        ensures !Mergeable(m', l, p)
      {
        if l in m' {
          assert !Mergeable(m, l, p);
        }
      }
    } else {
      forall l | l in m && l + m[l].length == j
        ensures !Mergeable(m, l, j)
      {
        assert l <= p;
        assert l < p ==> Apart(m, l, p);
      }
    }
  }

  /** Without a key before j, nothing ends where the segment at j begins. */
  lemma NoLeftNeighbour<V>(m: Store<V>, j: int)
    requires ValidStore(m) && j in m
    requires forall k :: k in m ==> j <= k
    ensures LeftClean(m, j)
  {
  }

  /**
   * Trying to fuse the segment at j with its right neighbour n (the first key
   * after j) completes the merge invariant once the left side of j is clean.
   */
  lemma {:induction false} MergeWithRight<V>(m: Store<V>, j: int, n: int)
    requires ValidStore(m) && j in m && n in m && j < n
    requires MergedExcept(m, j) && LeftClean(m, j)
    requires forall k :: k in m && j < k ==> n <= k
    ensures Merged(if Mergeable(m, j, n) then Joined(m, j, n) else m)
  {
    if Mergeable(m, j, n) {
      var m' := Joined(m, j, n);
      forall l, r | l in m' && r in m'
        ensures !Mergeable(m', l, r)
      {
        if l == j {
          assert !Mergeable(m, n, r);
        } else if r == j {
          assert !Mergeable(m, l, j);
        } else {
          assert !Mergeable(m, l, r);
        }
      }
    } else {
      forall l, r | l in m && r in m
        ensures !Mergeable(m, l, r)
      {
        if l == j {
          assert j + m[j].length == r ==> n <= r && Apart(m, j, n);
        } else if r == j {
          assert !Mergeable(m, l, j);
        } else {
          assert !Mergeable(m, l, r);
        }
      }
    }
  }

  /** Without a key after j, the merge invariant holds once the left side of j is clean. */
  lemma NoRightNeighbour<V>(m: Store<V>, j: int)
    requires ValidStore(m) && j in m && MergedExcept(m, j) && LeftClean(m, j)
    requires forall k :: k in m ==> k <= j
    ensures Merged(m)
  {
  }
}

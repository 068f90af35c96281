/**
 * The ordered-container queries the range map asks of its std::map, stated over
 * the (finite) set of keys. A position in the container is an `Option<int>`:
 * `Some(k)` is the entry whose key is k and `None` is the past-the-end position.
 */
module OrderedKeys {
  import opened Optional

  /** Some member of a non-empty set. */
  lemma Member<T>(s: set<T>) returns (x: T)
    requires s != {}
    ensures x in s
  {
    x :| x in s;
  }

  lemma {:induction false} LeastExists(s: set<int>)
    requires s != {}
    ensures exists r :: r in s && forall y :: y in s ==> r <= y
  {
    var x := Member(s);
    if s != {x} {
      LeastExists(s - {x});
      var r :| r in s - {x} && forall y :: y in s - {x} ==> r <= y;
      assert forall y :: y in s ==> y == x || y in s - {x};
      if x < r {
        assert forall y :: y in s ==> x <= y;
      } else {
        assert forall y :: y in s ==> r <= y;
      }
    }
  }

  lemma {:induction false} GreatestExists(s: set<int>)
    requires s != {}
    ensures exists r :: r in s && forall y :: y in s ==> y <= r
  {
    var x := Member(s);
    if s != {x} {
      GreatestExists(s - {x});
      var r :| r in s - {x} && forall y :: y in s - {x} ==> y <= r;
      assert forall y :: y in s ==> y == x || y in s - {x};
      if r < x {
        assert forall y :: y in s ==> y <= x;
      } else {
        assert forall y :: y in s ==> y <= r;
      }
    }
  }

  function Least(s: set<int>): (r: int)
    requires s != {}
    ensures r in s && forall y :: y in s ==> r <= y
  {
    LeastExists(s);
    var r :| r in s && forall y :: y in s ==> r <= y;
    r
  }

  function Greatest(s: set<int>): (r: int)
    requires s != {}
    ensures r in s && forall y :: y in s ==> y <= r
  {
    GreatestExists(s);
    var r :| r in s && forall y :: y in s ==> y <= r;
    r
  }

  /** `upper_bound(x)`: the first key strictly greater than x, or the end. */
  function UpperBound(keys: set<int>, x: int): (r: Option<int>)
    ensures r.None? <==> forall y :: y in keys ==> y <= x
    ensures r.Some? ==> r.value in keys && x < r.value && forall y :: y in keys && x < y ==> r.value <= y
  {
    var above := set y | y in keys && x < y;
    assert forall y :: y in keys && x < y ==> y in above;
    if above == {} then None else Some(Least(above))
  }

  /** `lower_bound(x)`: the first key not less than x, or the end. */
  function LowerBound(keys: set<int>, x: int): (r: Option<int>)
    ensures r.None? <==> forall y :: y in keys ==> y < x
    ensures r.Some? ==> r.value in keys && x <= r.value && forall y :: y in keys && x <= y ==> r.value <= y
  {
    var atOrAbove := set y | y in keys && x <= y;
    assert forall y :: y in keys && x <= y ==> y in atOrAbove;
    if atOrAbove == {} then None else Some(Least(atOrAbove))
  }

  /** Whether key y comes strictly before position `it`. */
  predicate Before(y: int, it: Option<int>) {
    it.None? || y < it.value
  }

  /**
   * `std::prev(it)`: the last key strictly before position `it`. It is `None`
   * exactly when `it` is `begin()`, the position with no key before it.
   */
  function Prev(keys: set<int>, it: Option<int>): (r: Option<int>)
    ensures r.None? <==> forall y :: y in keys ==> !Before(y, it)
    ensures r.Some? ==> r.value in keys && Before(r.value, it)
    ensures r.Some? ==> forall y :: y in keys && Before(y, it) ==> y <= r.value
  {
    var below := set y | y in keys && Before(y, it);
    assert forall y :: y in keys && Before(y, it) ==> y in below;
    if below == {} then None else Some(Greatest(below))
  }

  /** upper_bound depends only on the keys above its argument. */
  lemma UpperBoundAgrees(s1: set<int>, s2: set<int>, x: int)
    requires forall y :: x < y ==> (y in s1 <==> y in s2)
    ensures UpperBound(s1, x) == UpperBound(s2, x)
  {
    assert (set y | y in s1 && x < y) == (set y | y in s2 && x < y);
  }
}

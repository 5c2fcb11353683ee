/** Comparing points at a boundary timestamp: a list that becomes a keyed map when it grows
    (internal/influx/client.go, internal/sender/poller.go). */
module PointSets {
  import opened SeriesKeys

  const LINEAR_LIMIT: nat := 8

  /** Every entry of `a` is in `b`. */
  predicate Included<V(==)>(a: map<string, V>, b: map<string, V>) {
    forall k | k in a :: k in b && a[k] == b[k]
  }

  /** The comparison the code makes: sizes, then one direction. */
  predicate PointsEqual(a: Point, b: Point) {
    && a.measurement == b.measurement && a.ts == b.ts
    && |a.tags| == |b.tags| && |a.fields| == |b.fields|
    && Included(a.tags, b.tags) && Included(a.fields, b.fields)
  }

  lemma SubsetOfSameSize<T>(a: set<T>, b: set<T>)
    requires a <= b && |a| == |b|
    ensures a == b
  {
    assert b == a + (b - a) && |b| == |a| + |b - a|;
  }

  lemma IncludedOfSameSize<V>(a: map<string, V>, b: map<string, V>)
    requires Included(a, b) && |a| == |b|
    ensures a == b
  {
    assert |a.Keys| == |a| && |b.Keys| == |b|;
    SubsetOfSameSize(a.Keys, b.Keys);
  }

  /** One direction and the sizes are enough. */
  lemma PointsEqualIff(a: Point, b: Point)
    ensures PointsEqual(a, b) <==> a == b
  {
    if PointsEqual(a, b) {
      IncludedOfSameSize(a.tags, b.tags);
      IncludedOfSameSize(a.fields, b.fields);
    }
  }

  /** No two of the points have the same key. */
  ghost predicate DistinctKeys(points: set<Point>) {
    forall p, q | p in points && q in points && PointKey(p) == PointKey(q) :: p == q
  }

  ghost function Elements(s: seq<Point>): set<Point> {
    set p | p in s
  }

  ghost function Keys(s: set<Point>): set<string> {
    set p | p in s :: PointKey(p)
  }

  class PointSet {
    var small: seq<Point>
    var keyed: bool
    var big: set<string>

    /** The points added since the last reset, and those of them that are in the map. */
    ghost var items: set<Point>
    ghost var mapped: set<Point>

    ghost predicate Valid()
      reads this
    {
      && |small| <= LINEAR_LIMIT
      && items == Elements(small) + mapped
      && big == Keys(mapped)
      && (!keyed ==> mapped == {})
    }

    constructor ()
      ensures Valid() && items == {}
    {
      small, keyed, big, items, mapped := [], false, {}, {}, {};
    }

    method Reset()
      modifies this
      ensures Valid() && items == {}
    {
      small, keyed, big, items, mapped := [], false, {}, {}, {};
    }

    method Add(p: Point)
      requires Valid()
      modifies this
      ensures Valid() && items == old(items) + {p}
    {
      if |small| < LINEAR_LIMIT {
        small, items := small + [p], items + {p};
        return;
      }
      if !keyed {
        MoveToMap();
      }
      PutKey(p);
      items := items + {p};
    }

    method PutKey(p: Point)
      requires big == Keys(mapped)
      modifies this`big, this`mapped
      ensures big == Keys(mapped) && mapped == old(mapped) + {p}
    {
      var key := KeyOf(p);
      big, mapped := big + {key}, mapped + {p};
      assert Keys(old(mapped) + {p}) == Keys(old(mapped)) + {PointKey(p)};
    }

    method MoveToMap()
      requires Valid() && !keyed
      modifies this
      ensures Valid() && keyed && small == [] && items == old(items)
    {
      keyed, big, mapped := true, {}, {};
      for i := 0 to |small|
        invariant small == old(small) && items == old(items) && keyed
        invariant big == Keys(mapped) && mapped == Elements(small[..i])
      {
        PutKey(small[i]);
        assert small[..i + 1] == small[..i] + [small[i]];
      }
      assert small[..|small|] == small;
      small := [];
    }

    /** Among points with distinct keys, membership is exact, across the switch to the map. */
    method Contains(p: Point) returns (hit: bool)
      requires Valid()
      ensures p in items ==> hit
      ensures hit && DistinctKeys(items + {p}) ==> p in items
    {
      for i := 0 to |small|
        invariant p !in small[..i]
      {
        PointsEqualIff(small[i], p);
        if PointsEqual(small[i], p) {
          return true;
        }
        assert small[..i + 1] == small[..i] + [small[i]];
      }
      assert small[..|small|] == small;
      if keyed {
        var key := KeyOf(p);
        return key in big;
      }
      return false;
    }
  }
}

/** Reading a window with parallel queries that overlap by one nanosecond (internal/sender/poller.go). */
module Merge {
  import opened SeriesKeys
  import opened PointSets
  import opened Rows
  import opened Query

  const DEFAULT_QUERIES: nat := 4

  /** How many rows at the front have timestamp `b`. */
  function HeadCount(s: seq<Point>, b: int): (n: nat)
    ensures n <= |s|
  {
    if s == [] || s[0].ts != b then 0 else 1 + HeadCount(s[1..], b)
  }

  /** Where the rows with timestamp `b` at the back start. */
  function TailStart(s: seq<Point>, b: int): (n: nat)
    ensures n <= |s|
  {
    if s == [] || s[|s| - 1].ts != b then |s| else TailStart(s[..|s| - 1], b)
  }

  /** Both sides of a boundary, without the rows of the right side that the left side already has. */
  function Joined(all: seq<Point>, pts: seq<Point>, b: int): seq<Point> {
    var h := HeadCount(pts, b);
    all + Without(pts[..h], all[TailStart(all, b)..]) + pts[h..]
  }

  method CountHead(pts: seq<Point>, b: int) returns (h: nat)
    ensures h == HeadCount(pts, b)
  {
    h := 0;
    while h < |pts| && pts[h].ts == b
      invariant h <= |pts| && h + HeadCount(pts[h..], b) == HeadCount(pts, b)
    {
      assert pts[h..][1..] == pts[h + 1..];
      h := h + 1;
    }
  }

  method FindTail(all: seq<Point>, b: int) returns (t: nat)
    ensures t == TailStart(all, b)
  {
    t := |all|;
    assert all[..t] == all;
    while t > 0 && all[t - 1].ts == b
      invariant t <= |all| && TailStart(all[..t], b) == TailStart(all, b)
    {
      assert all[..t][..t - 1] == all[..t - 1];
      t := t - 1;
    }
  }

  lemma {:induction false} WithoutNothing(s: seq<Point>)
    ensures Without(s, []) == s
  {
    if s != [] {
      WithoutNothing(s[..|s| - 1]);
    }
  }

  method SetOf(points: seq<Point>) returns (known: PointSet)
    ensures fresh(known) && known.Valid() && known.items == Elements(points)
  {
    hide PointSet.Valid;
    known := new PointSet();
    for j := 0 to |points|
      invariant fresh(known) && known.Valid() && known.items == Elements(points[..j])
    {
      known.Add(points[j]);
      assert points[..j + 1] == points[..j] + [points[j]];
    }
    assert points[..|points|] == points;
  }

  /** Appends the rows at the boundary that the left side does not have. */
  method AppendUnknown(left: seq<Point>, head: seq<Point>, known: PointSet, ghost tail: seq<Point>)
    returns (all: seq<Point>)
    requires known.Valid() && known.items == Elements(tail) && DistinctKeys(Elements(tail) + Elements(head))
    ensures all == left + Without(head, tail)
  {
    hide DistinctKeys, PointSet.Valid, Without;
    all := left;
    WithoutNone(tail);
    for j := 0 to |head|
      invariant all == left + Without(head[..j], tail)
    {
      DistinctSubset(Elements(tail) + Elements(head), known.items + {head[j]});
      var hit := known.Contains(head[j]);
      assert head[..j + 1] == head[..j] + [head[j]];
      WithoutLast(head[..j], head[j], tail);
      if !hit {
        assert left + Without(head[..j], tail) + [head[j]] == left + (Without(head[..j], tail) + [head[j]]);
        all := all + [head[j]];
      }
    }
    assert head[..|head|] == head;
  }

  method JoinSegments(left: seq<Point>, pts: seq<Point>, b: int) returns (all: seq<Point>)
    requires DistinctKeys(Elements(left) + Elements(pts))
    ensures all == Joined(left, pts, b)
  {
    hide DistinctKeys, PointSet.Valid, Without, HeadCount, TailStart;
    var t := FindTail(left, b);
    var h := CountHead(pts, b);
    if t < |left| && h > 0 {
      var known := SetOf(left[t..]);
      DistinctSubset(Elements(left) + Elements(pts), Elements(left[t..]) + Elements(pts[..h]));
      all := AppendUnknown(left, pts[..h], known, left[t..]);
      all := all + pts[h..];
    } else {
      if h == 0 {
        WithoutNone(left[t..]);
        assert pts[..h] == [];
      } else {
        WithoutNothing(pts[..h]);
        assert left[t..] == [];
      }
      assert left + pts == left + pts[..h] + pts[h..];
      all := left + pts;
    }
  }

  // ---------------------------------------------------------------- joining is exact

  lemma FetchedAtIn(src: seq<Point>, measurements: seq<string>, limit: nat, t: int)
    ensures forall p | p in FetchedAt(src, measurements, limit, t) :: p in src && p.ts == t
  {
    var here := At(Allowed(src, measurements), t);
    assert forall p | p in here :: p in Allowed(src, measurements);
  }

  lemma {:induction false} FetchedIn(src: seq<Point>, measurements: seq<string>, limit: nat, a: int, b: int)
    ensures forall p | p in FetchedRows(src, measurements, limit, a, b) :: p in src && a <= p.ts < b
    decreases b - a
  {
    hide FetchedAt;
    if a < b {
      FetchedAtIn(src, measurements, limit, a);
      FetchedIn(src, measurements, limit, a + 1, b);
    }
  }

  lemma {:induction false} HeadIs(x: seq<Point>, y: seq<Point>, b: int)
    requires (forall p | p in x :: p.ts == b) && (forall p | p in y :: p.ts != b)
    ensures HeadCount(x + y, b) == |x|
  {
    if x == [] {
      assert x + y == y;
      assert y != [] ==> y[0] in y;
    } else {
      assert x[0] in x;
      assert (x + y)[1..] == x[1..] + y;
      HeadIs(x[1..], y, b);
    }
  }

  lemma {:induction false} TailIs(x: seq<Point>, y: seq<Point>, b: int)
    requires (forall p | p in x :: p.ts != b) && (forall p | p in y :: p.ts == b)
    ensures TailStart(x + y, b) == |x|
  {
    if y == [] {
      assert x + y == x;
      assert x != [] ==> x[|x| - 1] in x;
    } else {
      assert y[|y| - 1] in y;
      assert (x + y)[..|x + y| - 1] == x + y[..|y| - 1];
      TailIs(x, y[..|y| - 1], b);
    }
  }

  /** Two neighbouring segments that both contain the boundary join to the whole range. */
  lemma JoinedIsWhole(src: seq<Point>, measurements: seq<string>, limit: nat, start: int, b: int, e: int)
    requires start <= b < e
    ensures Joined(FetchedRows(src, measurements, limit, start, b + 1), FetchedRows(src, measurements, limit, b, e), b)
            == FetchedRows(src, measurements, limit, start, e)
  {
    hide FetchedAt, FetchedRows, HeadCount, TailStart, Without;
    var x, m, y := FetchedRows(src, measurements, limit, start, b), FetchedAt(src, measurements, limit, b),
                   FetchedRows(src, measurements, limit, b + 1, e);
    FetchedOne(src, measurements, limit, start, b);
    FetchedOne(src, measurements, limit, b, b);
    FetchedEmpty(src, measurements, limit, b);
    FetchedSplit(src, measurements, limit, b, b + 1, e);
    FetchedSplit(src, measurements, limit, start, b + 1, e);
    FetchedIn(src, measurements, limit, start, b);
    FetchedAtIn(src, measurements, limit, b);
    FetchedIn(src, measurements, limit, b + 1, e);
    HeadIs(m, y, b);
    TailIs(x, m, b);
    assert [] + m == m;
    assert (m + y)[..|m|] == m && (m + y)[|m|..] == y && (x + m)[|x|..] == m;
    NoneLeft(m, |m|, |m|);
    assert m[..|m|] == m;
    assert x + m + [] + y == x + m + y;
  }

  lemma FetchedEmpty(src: seq<Point>, measurements: seq<string>, limit: nat, b: int)
    ensures FetchedRows(src, measurements, limit, b, b) == []
  {
  }

  // ---------------------------------------------------------------- the parallel query

  function SegmentEnd(start: int, end: int, step: int, n: int, i: int): int {
    if i == n - 1 then end else start + i * step + step + 1
  }

  /** The same rows as one query over the whole window, for every number of parallel queries. Any
      failed segment fails the window. */
  method QueryParallel(
    src: seq<Point>, start: int, end: int, measurements: seq<string>, pageLimit: int, pages: int, n: nat, fails: Faults)
    returns (r: Fetch)
    requires DistinctRows(src)
    ensures var limit := if pageLimit <= 0 then DEFAULT_LIMIT else pageLimit;
            r.Fetched? ==> r.points == FetchedRows(src, measurements, limit, start, end)
    ensures Explained(r, src, measurements, pages, fails)
  {
    hide DistinctRows, DistinctKeys, FetchedRows, Joined, Between, At, Allowed;
    var step := if n > 1 && end > start then (end - start) / n else 0;
    if n <= 1 || step <= 0 {
      r := QueryRange(src, start, end, measurements, pageLimit, pages, fails);
      return;
    }
    ghost var limit: nat := if pageLimit <= 0 then DEFAULT_LIMIT else pageLimit;
    var results: seq<Fetch> := [];
    for i := 0 to n
      invariant |results| == i
      invariant forall j | 0 <= j < i && results[j].Fetched? ::
                  results[j].points
                  == FetchedRows(src, measurements, limit, start + j * step, SegmentEnd(start, end, step, n, j))
      invariant forall j | 0 <= j < i :: Explained(results[j], src, measurements, pages, fails)
    {
      var s := start + i * step;
      var e := if i == n - 1 then end else s + step + 1;
      var segment := QueryRange(src, s, e, measurements, pageLimit, pages, fails);
      results := results + [segment];
    }
    var all: seq<Point> := [];
    var firstErr: Fetch := Fetched([]);
    for i := 0 to n
      invariant forall p | p in all :: p in src
      invariant firstErr.Fetched? && i > 0 ==>
                  all == FetchedRows(src, measurements, limit, start, SegmentEnd(start, end, step, n, i - 1))
      invariant firstErr.Fetched? && i == 0 ==> all == []
      invariant Explained(firstErr, src, measurements, pages, fails)
    {
      ghost var before := all;
      if !results[i].Fetched? {
        if firstErr.Fetched? {
          firstErr := results[i];
        }
      } else {
        var pts := results[i].points;
        ghost var e := SegmentEnd(start, end, step, n, i);
        FetchedIn(src, measurements, limit, start + i * step, e);
        if i > 0 {
          var boundary := start + i * step;
          KeysStayDistinct(src, Elements(all), pts);
          SegmentsMeet(start, end, step, n, i);
          all := JoinSegments(all, pts, boundary);
          JoinedIn(before, pts, boundary);
          JoinedIsWhole(src, measurements, limit, start, boundary, e);
        } else {
          all := all + pts;
        }
      }
    }
    if !firstErr.Fetched? {
      return firstErr;
    }
    return Fetched(all);
  }

  lemma JoinedIn(all: seq<Point>, pts: seq<Point>, b: int)
    ensures forall p | p in Joined(all, pts, b) :: p in all || p in pts
  {
    var h := HeadCount(pts, b);
    assert forall p | p in pts[..h] :: p in pts;
  }

  lemma SegmentsMeet(start: int, end: int, step: int, n: nat, i: nat)
    requires 0 < i < n && step > 0 && step * n <= end - start
    ensures start <= start + i * step < SegmentEnd(start, end, step, n, i)
    ensures SegmentEnd(start, end, step, n, i - 1) == start + i * step + 1
  {
    assert i * step < n * step;
    assert (i - 1) * step + step == i * step;
  }
}

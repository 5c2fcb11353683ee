/** Paginated reading of a time range from the source (internal/influx/client.go). */
module Query {
  import opened SeriesKeys
  import opened PointSets
  import opened Rows

  const DEFAULT_LIMIT: nat := 10_000
  const DEFAULT_PAGES: nat := 1_000
  const DENSE_FACTOR: nat := 10
  const DENSE_ABORT: nat := 10_000_000

  datatype Fetch = Fetched(points: seq<Point>) | QueryFailed | TooManyPages | TooDense

  /** Which single queries fail, by start, offset and limit. */
  type Faults = (int, nat, nat) -> bool

  function Page(rows: seq<Point>, offset: nat, limit: nat): seq<Point> {
    if offset >= |rows| then [] else if offset + limit < |rows| then rows[offset..offset + limit] else rows[offset..]
  }

  /** One SELECT with LIMIT and OFFSET over `[from, end)`. */
  function QueryOnce(
    src: seq<Point>, from: int, end: int, measurements: seq<string>, limit: nat, offset: nat, fails: Faults): Fetch
  {
    if fails(from, offset, limit) then QueryFailed
    else Fetched(Page(Between(Allowed(src, measurements), from, end), offset, limit))
  }

  /** A range is not fetched only if a query fails, or there are too many rows for the pages or in one
      timestamp. */
  ghost predicate Explained(r: Fetch, src: seq<Point>, measurements: seq<string>, pages: int, fails: Faults) {
    match r
    case Fetched(_) => true
    case QueryFailed => exists from, offset, n :: fails(from, offset, n)
    case TooManyPages =>
      exists a, b :: |Between(Allowed(src, measurements), a, b)| >= if pages <= 0 then DEFAULT_PAGES else pages
    case TooDense => exists t :: |At(src, t)| > DENSE_ABORT
  }

  // ---------------------------------------------------------------- what pagination returns

  /** The rows fetched for one timestamp. With at least `limit` selected rows there, the measurement
      filter is dropped for the rows after the first page. */
  ghost function FetchedAt(src: seq<Point>, measurements: seq<string>, limit: nat, t: int): seq<Point> {
    var here := At(Allowed(src, measurements), t);
    if |here| < limit then here else here[..limit] + Without(At(src, t), here[..limit])
  }

  ghost function FetchedRows(src: seq<Point>, measurements: seq<string>, limit: nat, a: int, b: int): seq<Point>
    decreases b - a
  {
    if a >= b then [] else FetchedAt(src, measurements, limit, a) + FetchedRows(src, measurements, limit, a + 1, b)
  }

  lemma {:induction false} FetchedSplit(src: seq<Point>, measurements: seq<string>, limit: nat, a: int, m: int, b: int)
    requires a <= m <= b
    ensures FetchedRows(src, measurements, limit, a, b)
            == FetchedRows(src, measurements, limit, a, m) + FetchedRows(src, measurements, limit, m, b)
    decreases m - a
  {
    hide FetchedAt;
    if a < m {
      FetchedSplit(src, measurements, limit, a + 1, m, b);
    }
  }

  lemma FetchedOne(src: seq<Point>, measurements: seq<string>, limit: nat, a: int, t: int)
    requires a <= t
    ensures FetchedRows(src, measurements, limit, a, t + 1)
            == FetchedRows(src, measurements, limit, a, t) + FetchedAt(src, measurements, limit, t)
  {
    hide FetchedAt;
    FetchedSplit(src, measurements, limit, a, t, t + 1);
    assert FetchedRows(src, measurements, limit, t + 1, t + 1) == [];
  }

  /** A range with fewer rows than the limit is fetched as it is. */
  lemma {:induction false} SparseFetched(src: seq<Point>, measurements: seq<string>, limit: nat, a: int, b: int)
    requires |Between(Allowed(src, measurements), a, b)| < limit
    ensures FetchedRows(src, measurements, limit, a, b) == Between(Allowed(src, measurements), a, b)
    decreases b - a
  {
    hide At;
    if a < b {
      SparseFetched(src, measurements, limit, a + 1, b);
    }
  }

  // ---------------------------------------------------------------- the steps of the loop

  lemma DistinctSubset(all: set<Point>, some: set<Point>)
    requires DistinctKeys(all) && some <= all
    ensures DistinctKeys(some)
  {
  }

  /** Appends the rows that the previous page has not returned. Those are the first `k` rows. */
  method AppendNew(
    points: seq<Point>, rows: seq<Point>, from: int, start: int, end: int, carried: PointSet, ghost k: nat)
    returns (r: seq<Point>)
    requires carried.Valid() && DistinctKeys(carried.items + Elements(rows)) && k <= |rows|
    requires forall i | 0 <= i < |rows| :: rows[i].ts < end
    requires forall i | 0 <= i < |rows| :: rows[i].ts == from ==> (i < k <==> rows[i] in carried.items)
    requires k > 0 ==> from != start && forall i | 0 <= i < k :: rows[i].ts == from
    requires from == start ==> carried.items == {}
    ensures r == points + rows[k..]
  {
    hide DistinctKeys, PointSet.Valid;
    r := points;
    assert k == 0 ==> rows[k..0] == [];
    for i := 0 to |rows|
      invariant if i <= k then r == points else r == points + rows[k..i]
    {
      var seen := false;
      if rows[i].ts == from && from != start {
        DistinctSubset(carried.items + Elements(rows), carried.items + {rows[i]});
        seen := carried.Contains(rows[i]);
      }
      assert seen <==> i < k;
      if rows[i].ts < end && !seen {
        r := r + [rows[i]];
        assert rows[k..i + 1] == rows[k..i] + [rows[i]];
      }
    }
    assert rows[k..|rows|] == rows[k..];
  }

  /** Remembers the rows at the last timestamp of a page. */
  method CarryOver(rows: seq<Point>, lastTS: int, carried: PointSet)
    modifies carried
    ensures carried.Valid() && carried.items == set p | p in rows && p.ts == lastTS
  {
    carried.Reset();
    for i := 0 to |rows|
      invariant carried.Valid() && carried.items == set p | p in rows[..i] && p.ts == lastTS
    {
      assert rows[..i + 1] == rows[..i] + [rows[i]];
      if rows[i].ts == lastTS {
        carried.Add(rows[i]);
      }
    }
    assert rows[..|rows|] == rows;
  }

  ghost predicate KeyedAs(keys: set<string>, rows: seq<Point>) {
    keys == set p | p in rows :: PointKey(p)
  }

  method KeysOfRows(rows: seq<Point>) returns (keys: set<string>)
    ensures KeyedAs(keys, rows)
  {
    keys := {};
    for i := 0 to |rows|
      invariant KeyedAs(keys, rows[..i])
    {
      assert rows[..i + 1] == rows[..i] + [rows[i]];
      var key := KeyOf(rows[i]);
      keys := keys + {key};
    }
    assert rows[..|rows|] == rows;
  }

  /** A row is recognised by its key exactly if it is among those seen. */
  lemma SeenByKey(src: seq<Point>, keys: set<string>, seen: seq<Point>, p: Point)
    requires DistinctKeys(Elements(src)) && KeyedAs(keys, seen) && p in src && forall q | q in seen :: q in src
    ensures PointKey(p) in keys <==> p in seen
  {
    if PointKey(p) in keys {
      var q :| q in seen && PointKey(q) == PointKey(p);
    }
  }

  lemma WithoutLast(s: seq<Point>, p: Point, seen: seq<Point>)
    ensures Without(s + [p], seen) == Without(s, seen) + if p in seen then [] else [p]
  {
    assert (s + [p])[..|s|] == s;
  }

  /** Adds those rows of a page of `all`, starting at `offset`, that are not yet known. */
  method AddUnknown(
    points: seq<Point>, page: seq<Point>, t: int, dense: set<string>,
    ghost base: seq<Point>, ghost src: seq<Point>, ghost all: seq<Point>, ghost offset: nat, ghost first: seq<Point>)
    returns (r: seq<Point>, keys: set<string>)
    requires DistinctKeys(Elements(src)) && NoRepeat(all) && forall p | p in all :: p in src && p.ts == t
    requires forall p | p in first :: p in src
    requires offset + |page| <= |all| && page == all[offset..offset + |page|]
    requires points == base + Without(all[..offset], first) && KeyedAs(dense, first + all[..offset])
    ensures r == base + Without(all[..offset + |page|], first) && KeyedAs(keys, first + all[..offset + |page|])
  {
    hide DistinctKeys, NoRepeat, KeyedAs, Without;
    r, keys := points, dense;
    for i := 0 to |page|
      invariant r == base + Without(all[..offset + i], first) && KeyedAs(keys, first + all[..offset + i])
    {
      RowOfPage(all, page, offset, i);
      NotBefore(all, offset + i);
      r, keys := AddRow(r, page[i], t, keys, base, src, all[..offset + i], first);
    }
  }

  lemma RowOfPage(all: seq<Point>, page: seq<Point>, offset: nat, i: nat)
    requires i < |page| && offset + |page| <= |all| && page == all[offset..offset + |page|]
    ensures page[i] == all[offset + i] && page[i] in all
    ensures all[..offset + i + 1] == all[..offset + i] + [page[i]]
  {
  }

  method AddRow(
    points: seq<Point>, row: Point, t: int, dense: set<string>,
    ghost base: seq<Point>, ghost src: seq<Point>, ghost done: seq<Point>, ghost first: seq<Point>)
    returns (r: seq<Point>, keys: set<string>)
    requires DistinctKeys(Elements(src)) && row in src && row.ts == t && row !in done
    requires forall p | p in first + done :: p in src
    requires points == base + Without(done, first) && KeyedAs(dense, first + done)
    ensures r == base + Without(done + [row], first) && KeyedAs(keys, first + (done + [row]))
  {
    hide DistinctKeys, KeyedAs, Without;
    SeenByKey(src, dense, first + done, row);
    WithoutLast(done, row, first);
    KeyedSnoc(dense, first + done, row);
    assert first + (done + [row]) == first + done + [row];
    assert base + (Without(done, first) + [row]) == points + [row];
    assert Without(done, first) + [] == Without(done, first);
    r, keys := points, dense;
    var key := KeyOf(row);
    if row.ts == t && key !in keys {
      keys := keys + {key};
      r := r + [row];
    }
  }

  lemma KeyedSnoc(keys: set<string>, rows: seq<Point>, p: Point)
    requires KeyedAs(keys, rows)
    ensures KeyedAs(keys + {PointKey(p)}, rows + [p])
    ensures PointKey(p) in keys ==> KeyedAs(keys, rows + [p])
  {
    assert PointKey(p) in keys ==> keys + {PointKey(p)} == keys;
  }

  lemma NotBefore(s: seq<Point>, n: nat)
    requires NoRepeat(s) && n < |s|
    ensures s[n] !in s[..n]
  {
  }

  lemma WithoutNone(seen: seq<Point>)
    ensures Without([], seen) == []
  {
  }

  lemma PageIs(rows: seq<Point>, offset: nat, limit: nat)
    requires offset <= |rows|
    ensures var page := Page(rows, offset, limit);
            && offset + |page| <= |rows| && |page| <= limit && page == rows[offset..offset + |page|]
            && (|page| < limit ==> offset + |page| == |rows|)
  {
  }

  /** A query for one timestamp without a filter. */
  lemma DensePage(src: seq<Point>, t: int, limit: nat, offset: nat, fails: Faults)
    requires offset <= |At(src, t)|
    ensures var r := QueryOnce(src, t, t + 1, [], limit, offset, fails);
            r == if fails(t, offset, limit) then QueryFailed else Fetched(Page(At(src, t), offset, limit))
  {
    hide At, Page;
    BetweenOne(src, t);
  }

  /** Reads all rows of one timestamp page by page, without the measurement filter. `first` are the
      rows already in `points`. */
  method FetchDense(src: seq<Point>, t: int, limit: nat, points: seq<Point>, first: seq<Point>, fails: Faults)
    returns (r: Fetch)
    requires DistinctRows(src) && limit > 0 && forall p | p in first :: p in src
    ensures r.Fetched? ==> r.points == points + Without(At(src, t), first)
    ensures r.QueryFailed? ==> exists from, offset, n :: fails(from, offset, n)
    ensures r.TooDense? ==> |At(src, t)| > DENSE_ABORT
    ensures !r.TooManyPages?
  {
    hide DistinctRows, DistinctKeys, NoRepeat, At, KeyedAs, Without, QueryOnce, Page, Between, Allowed;
    DistinctNoRepeat(src);
    AtNoRepeat(src, t);
    ghost var all := At(src, t);
    assert all[..0] == [] && first + [] == first && points + [] == points;
    var offset := 0;
    var dense := KeysOfRows(first);
    var acc := points;
    WithoutNone(first);
    while true
      invariant offset <= |all| && acc == points + Without(all[..offset], first)
      invariant KeyedAs(dense, first + all[..offset])
      decreases |all| - offset
    {
      var page := QueryOnce(src, t, t + 1, [], limit * DENSE_FACTOR, offset, fails);
      DensePage(src, t, limit * DENSE_FACTOR, offset, fails);
      PageIs(all, offset, limit * DENSE_FACTOR);
      if page.QueryFailed? {
        return QueryFailed;
      }
      acc, dense := AddUnknown(acc, page.points, t, dense, points, src, all, offset, first);
      offset := offset + |page.points|;
      if |page.points| < limit * DENSE_FACTOR {
        assert all[..offset] == all;
        return Fetched(acc);
      }
      if offset > DENSE_ABORT {
        return TooDense;
      }
    }
  }

  // ---------------------------------------------------------------- one page of the loop

  /** Everything before `from` is fetched, and of the rows at `from` the first `k`, which are the ones
      remembered in `items`. */
  ghost predicate Resumable(
    src: seq<Point>, measurements: seq<string>, limit: nat, start: int, from: int, k: nat, points: seq<Point>,
    items: set<Point>)
  {
    var here := At(Allowed(src, measurements), from);
    && k <= |here| && k <= limit
    && items <= Elements(src)
    && (from == start ==> k == 0 && items == {})
    && points == FetchedRows(src, measurements, limit, start, from) + here[..k]
    && (forall i | 0 <= i < |here| :: i < k <==> here[i] in items)
  }

  ghost predicate IsPage(
    src: seq<Point>, measurements: seq<string>, limit: nat, from: int, end: int, rows: seq<Point>)
  {
    limit > 0 && from < end && rows == Page(Between(Allowed(src, measurements), from, end), 0, limit)
  }

  lemma FirstRows(src: seq<Point>, from: int, end: int, n: nat)
    requires from < end && n <= |Between(src, from, end)|
    ensures var rows, here := Between(src, from, end)[..n], At(src, from);
            forall i | 0 <= i < n :: (rows[i].ts == from <==> i < |here|) && (i < |here| ==> rows[i] == here[i])
  {
    hide At;
    var here: seq<Point>, rest: seq<Point> := At(src, from), Between(src, from + 1, end);
    assert Between(src, from, end) == here + rest;
    forall i: nat | i < n
      ensures (here + rest)[i].ts == from <==> i < |here|
    {
      if i < |here| {
        assert here[i] in here;
      } else {
        assert rest[i - |here|] in rest;
      }
    }
  }

  /** The rows of a page that the previous page has returned are its first `k` rows. */
  lemma PageStart(
    src: seq<Point>, measurements: seq<string>, limit: nat, start: int, from: int, end: int, k: nat, points: seq<Point>,
    items: set<Point>, rows: seq<Point>)
    requires DistinctRows(src) && Resumable(src, measurements, limit, start, from, k, points, items)
    requires IsPage(src, measurements, limit, from, end, rows)
    ensures k <= |rows| <= limit && DistinctKeys(items + Elements(rows)) && forall p | p in rows :: p in src
    ensures forall i | 0 <= i < |rows| :: rows[i].ts < end
    ensures forall i | 0 <= i < |rows| :: rows[i].ts == from ==> (i < k <==> rows[i] in items)
    ensures forall i | 0 <= i < k :: rows[i].ts == from
    ensures from == start ==> k == 0 && items == {}
    ensures points + rows[k..] == FetchedRows(src, measurements, limit, start, from) + rows
  {
    hide At, Allowed, FetchedRows, DistinctKeys, Between, Page, DistinctRows;
    PageRows(src, measurements, limit, from, end, rows);
    Continued(FetchedRows(src, measurements, limit, start, from), At(Allowed(src, measurements), from), k, rows);
    KeysStayDistinct(src, items, rows);
  }

  lemma Continued(before: seq<Point>, here: seq<Point>, k: nat, rows: seq<Point>)
    requires k <= |here| && k <= |rows| && forall i | 0 <= i < k :: rows[i] == here[i]
    ensures before + here[..k] + rows[k..] == before + rows
  {
    assert rows == here[..k] + rows[k..];
  }

  lemma KeysStayDistinct(src: seq<Point>, items: set<Point>, rows: seq<Point>)
    requires DistinctRows(src) && items <= Elements(src) && forall p | p in rows :: p in src
    ensures DistinctKeys(items + Elements(rows))
  {
    hide DistinctRows, DistinctKeys;
    DistinctNoRepeat(src);
    DistinctSubset(Elements(src), items + Elements(rows));
  }

  lemma PageRows(src: seq<Point>, measurements: seq<string>, limit: nat, from: int, end: int, rows: seq<Point>)
    requires IsPage(src, measurements, limit, from, end, rows)
    ensures var here := At(Allowed(src, measurements), from);
            && |rows| <= limit && (|here| >= limit ==> |rows| == limit) && (|here| < limit ==> |here| <= |rows|)
            && forall i | 0 <= i < |rows| :: (rows[i].ts == from <==> i < |here|) && (i < |here| ==> rows[i] == here[i])
    ensures forall p | p in rows :: p in src && p.ts < end
  {
    hide At, Allowed;
    var allowed := Allowed(src, measurements);
    var all := Between(allowed, from, end);
    PageIs(all, 0, limit);
    assert rows == all[..|rows|];
    FirstRows(allowed, from, end, |rows|);
    assert all == At(allowed, from) + Between(allowed, from + 1, end);
    assert forall p | p in rows :: p in all;
  }

  /** A page that is not full ends the range. */
  lemma LastPage(
    src: seq<Point>, measurements: seq<string>, limit: nat, start: int, from: int, end: int, rows: seq<Point>)
    requires IsPage(src, measurements, limit, from, end, rows) && |rows| < limit && start <= from
    ensures FetchedRows(src, measurements, limit, start, from) + rows
            == FetchedRows(src, measurements, limit, start, end)
  {
    hide FetchedRows, Between;
    PageIs(Between(Allowed(src, measurements), from, end), 0, limit);
    SparseFetched(src, measurements, limit, from, end);
    FetchedSplit(src, measurements, limit, start, from, end);
  }

  /** A full page at one timestamp. */
  lemma DenseTimestamp(
    src: seq<Point>, measurements: seq<string>, limit: nat, start: int, from: int, end: int, rows: seq<Point>,
    points: seq<Point>)
    requires IsPage(src, measurements, limit, from, end, rows) && |rows| == limit && rows[limit - 1].ts == from
    requires start <= from && points == FetchedRows(src, measurements, limit, start, from) + rows
    ensures points + Without(At(src, from), rows) == FetchedRows(src, measurements, limit, start, from + 1)
    ensures |Between(Allowed(src, measurements), start, from + 1)|
            >= |Between(Allowed(src, measurements), start, from)| + limit
  {
    hide FetchedRows, At, Allowed, Without, Between;
    var allowed := Allowed(src, measurements);
    PageIs(Between(allowed, from, end), 0, limit);
    FirstRows(allowed, from, end, limit);
    assert rows == At(allowed, from)[..limit];
    FetchedOne(src, measurements, limit, start, from);
    BetweenSplit(allowed, start, from, from + 1);
    BetweenOne(allowed, from);
  }

  /** After a full page that reaches a later timestamp, the loop resumes there. */
  lemma NextPage(
    src: seq<Point>, measurements: seq<string>, limit: nat, start: int, from: int, end: int, rows: seq<Point>,
    points: seq<Point>, items: set<Point>) returns (k: nat)
    requires DistinctRows(src) && IsPage(src, measurements, limit, from, end, rows) && |rows| == limit && start <= from
    requires rows[limit - 1].ts != from && forall p | p in rows :: p in src
    requires points == FetchedRows(src, measurements, limit, start, from) + rows
    requires items == set p | p in rows && p.ts == rows[limit - 1].ts
    ensures from < rows[limit - 1].ts < end
    ensures Resumable(src, measurements, limit, start, rows[limit - 1].ts, k, points, items)
    ensures |Between(Allowed(src, measurements), start, rows[limit - 1].ts)| + k
            == |Between(Allowed(src, measurements), start, from)| + limit
            <= |Between(Allowed(src, measurements), start, end)|
  {
    hide FetchedRows, At, Allowed, Between;
    var allowed, t := Allowed(src, measurements), rows[limit - 1].ts;
    PageIs(Between(allowed, from, end), 0, limit);
    PageSplit(allowed, from, end, limit);
    var before, here := Between(allowed, from, t), At(allowed, t);
    k := limit - |before|;
    SparseFetched(src, measurements, limit, from, t);
    FetchedSplit(src, measurements, limit, start, from, t);
    BetweenSplit(allowed, start, from, t);
    BetweenSplit(allowed, start, from, end);
    assert rows == before + here[..k];
    assert points == FetchedRows(src, measurements, limit, start, t) + here[..k];
    DistinctNoRepeat(src);
    AllowedNoRepeat(src, measurements);
    AtNoRepeat(allowed, t);
    ItemsArePrefix(before, here, k, t, items);
  }

  lemma ItemsArePrefix(before: seq<Point>, here: seq<Point>, k: nat, t: int, items: set<Point>)
    requires k <= |here| && NoRepeat(here)
    requires (forall p | p in before :: p.ts < t) && (forall p | p in here :: p.ts == t)
    requires items == set p | p in before + here[..k] && p.ts == t
    ensures forall i | 0 <= i < |here| :: i < k <==> here[i] in items
  {
    forall i | 0 <= i < |here|
      ensures i < k <==> here[i] in items
    {
      assert here[i] in here;
      if i < k {
        assert here[..k][i] == here[i];
      }
    }
  }

  lemma WholeRange(
    src: seq<Point>, measurements: seq<string>, limit: nat, start: int, from: int, end: int, points: seq<Point>,
    items: set<Point>)
    requires Resumable(src, measurements, limit, start, from, 0, points, items)
    requires from == end || (start > end && from == start)
    ensures points == FetchedRows(src, measurements, limit, start, end)
  {
    hide At, Allowed, FetchedAt;
    assert At(Allowed(src, measurements), from)[..0] == [];
  }

  lemma NothingFetched(src: seq<Point>, measurements: seq<string>, limit: nat, start: int)
    ensures Resumable(src, measurements, limit, start, start, 0, [], {})
  {
  }

  lemma AfterDense(
    src: seq<Point>, measurements: seq<string>, limit: nat, start: int, from: int, points: seq<Point>,
    items: set<Point>)
    requires start < from && points == FetchedRows(src, measurements, limit, start, from) && items <= Elements(src)
    requires forall p | p in items :: p.ts != from
    ensures Resumable(src, measurements, limit, start, from, 0, points, items)
  {
    var here := At(Allowed(src, measurements), from);
    assert forall i | 0 <= i < |here| :: here[i] in here;
  }

  /** All rows of `[start, end)` in time order, page by page. A page overlaps the next one in its last
      timestamp; a timestamp that fills a whole page is read separately. */
  method QueryRange(
    src: seq<Point>, start: int, end: int, measurements: seq<string>, pageLimit: int, pages: int, fails: Faults)
    returns (r: Fetch)
    requires DistinctRows(src)
    ensures var limit := if pageLimit <= 0 then DEFAULT_LIMIT else pageLimit;
            r.Fetched? ==> r.points == FetchedRows(src, measurements, limit, start, end)
    ensures r.QueryFailed? ==> exists from, offset, n :: fails(from, offset, n)
    ensures r.TooManyPages? ==>
              |Between(Allowed(src, measurements), start, end)| >= if pages <= 0 then DEFAULT_PAGES else pages
    ensures r.TooDense? ==> exists t :: |At(src, t)| > DENSE_ABORT
  {
    hide DistinctRows, DistinctKeys, Resumable, At, Between, Allowed, FetchedRows, Page, Without, PointSet.Valid;
    var limit: nat := if pageLimit <= 0 then DEFAULT_LIMIT else pageLimit;
    var maxPages: nat := if pages <= 0 then DEFAULT_PAGES else pages;
    ghost var allowed := Allowed(src, measurements);
    var left := maxPages;
    var points: seq<Point> := [];
    var carried := new PointSet();
    ghost var k: nat := 0;
    var from := start;
    NothingFetched(src, measurements, limit, start);
    while from < end
      invariant start <= from && (if start <= end then from <= end else from == start) && left > 0
      invariant from >= end ==> k == 0
      invariant fresh(carried) && carried.Valid()
      invariant Resumable(src, measurements, limit, start, from, k, points, carried.items)
      invariant maxPages - left <= |Between(allowed, start, from)| + k
      decreases end - from
    {
      var page := QueryOnce(src, from, end, measurements, limit, 0, fails);
      if page.QueryFailed? {
        return QueryFailed;
      }
      var rows := page.points;
      PageStart(src, measurements, limit, start, from, end, k, points, carried.items, rows);
      if |rows| < limit {
        LastPage(src, measurements, limit, start, from, end, rows);
      }
      if |rows| == 0 {
        break;
      }
      var lastTS := rows[|rows| - 1].ts;
      points := AppendNew(points, rows, from, start, end, carried, k);
      CarryOver(rows, lastTS, carried);
      if |rows| < limit {
        break;
      }
      if lastTS == from {
        var whole := FetchDense(src, lastTS, limit, points, rows, fails);
        if !whole.Fetched? {
          return whole;
        }
        DenseTimestamp(src, measurements, limit, start, from, end, rows, points);
        points := whole.points;
        from, k := lastTS + 1, 0;
        AfterDense(src, measurements, limit, start, from, points, carried.items);
      } else {
        k := NextPage(src, measurements, limit, start, from, end, rows, points, carried.items);
        from := lastTS;
        left := left - 1;
        if left == 0 {
          return TooManyPages;
        }
      }
    }
    if from >= end {
      WholeRange(src, measurements, limit, start, from, end, points, carried.items);
    }
    return Fetched(points);
  }

  // ---------------------------------------------------------------- when pagination is exact

  /** No timestamp that fills a page has a row outside the filter. */
  ghost predicate NoForeignRow(src: seq<Point>, measurements: seq<string>, limit: nat, a: int, b: int) {
    forall p | p in src && a <= p.ts < b && |At(Allowed(src, measurements), p.ts)| >= limit :: Allows(measurements, p)
  }

  lemma AtLast(s: seq<Point>, p: Point, t: int)
    ensures At(s + [p], t) == At(s, t) + if p.ts == t then [p] else []
  {
    assert (s + [p])[..|s|] == s;
  }

  lemma {:induction false} AllAllowedAt(src: seq<Point>, measurements: seq<string>, t: int)
    requires forall p | p in src && p.ts == t :: Allows(measurements, p)
    ensures At(Allowed(src, measurements), t) == At(src, t)
  {
    hide At;
    if src != [] {
      var n := |src| - 1;
      AllAllowedAt(src[..n], measurements, t);
      assert src == src[..n] + [src[n]];
      AtLast(src[..n], src[n], t);
      AtLast(Allowed(src[..n], measurements), src[n], t);
      assert Allowed(src[..n], measurements) + [] == Allowed(src[..n], measurements);
    }
  }

  lemma {:induction false} WithoutPrefix(s: seq<Point>, n: nat, k: nat)
    requires NoRepeat(s) && k <= n <= |s|
    ensures s[..k] + Without(s[..n], s[..k]) == s[..n]
    decreases n
  {
    hide Without, NoRepeat;
    var seen := s[..k];
    if n == k {
      NoneLeft(s, n, k);
      assert seen + [] == seen;
    } else {
      NotAmongFirst(s, n - 1, k);
      WithoutPrefix(s, n - 1, k);
      assert s[..n] == s[..n - 1] + [s[n - 1]];
      WithoutLast(s[..n - 1], s[n - 1], seen);
      assert seen + (Without(s[..n - 1], seen) + [s[n - 1]]) == seen + Without(s[..n - 1], seen) + [s[n - 1]];
    }
  }

  lemma NotAmongFirst(s: seq<Point>, i: nat, k: nat)
    requires NoRepeat(s) && k <= i < |s|
    ensures s[i] !in s[..k]
  {
  }

  lemma {:induction false} NoneLeft(s: seq<Point>, n: nat, k: nat)
    requires n <= k <= |s|
    ensures Without(s[..n], s[..k]) == []
    decreases n
  {
    if n > 0 {
      assert s[..n][..n - 1] == s[..n - 1] && s[..k][n - 1] == s[n - 1];
      NoneLeft(s, n - 1, k);
    }
  }

  lemma FetchedAtIsExact(src: seq<Point>, measurements: seq<string>, limit: nat, t: int)
    requires NoRepeat(src) && NoForeignRow(src, measurements, limit, t, t + 1)
    ensures FetchedAt(src, measurements, limit, t) == At(Allowed(src, measurements), t)
  {
    var here := At(Allowed(src, measurements), t);
    if |here| >= limit {
      AllAllowedAt(src, measurements, t);
      AtNoRepeat(src, t);
      WithoutPrefix(here, |here|, limit);
      assert here[..|here|] == here;
    }
  }

  lemma {:induction false} FetchedIsExact(src: seq<Point>, measurements: seq<string>, limit: nat, a: int, b: int)
    requires NoRepeat(src) && NoForeignRow(src, measurements, limit, a, b)
    ensures FetchedRows(src, measurements, limit, a, b) == Between(Allowed(src, measurements), a, b)
    decreases b - a
  {
    hide FetchedAt, At, Allowed;
    if a < b {
      FetchedAtIsExact(src, measurements, limit, a);
      FetchedIsExact(src, measurements, limit, a + 1, b);
    }
  }

  lemma {:induction false} WithoutKeeps(s: seq<Point>, seen: seq<Point>, p: Point)
    requires p in s && p !in seen
    ensures p in Without(s, seen)
  {
    var n := |s| - 1;
    if p != s[n] {
      WithoutKeeps(s[..n], seen, p);
    }
  }

  lemma {:induction false} ForeignFetched(
    src: seq<Point>, measurements: seq<string>, limit: nat, a: int, b: int, p: Point)
    requires p in src && a <= p.ts < b && |At(Allowed(src, measurements), p.ts)| >= limit && !Allows(measurements, p)
    ensures p in FetchedRows(src, measurements, limit, a, b)
    decreases b - a
  {
    hide At, Allowed, Without;
    if p.ts == a {
      var here := At(Allowed(src, measurements), a);
      assert forall q | q in here[..limit] :: q in here && q in Allowed(src, measurements);
      AtComplete(src, p);
      WithoutKeeps(At(src, a), here[..limit], p);
      assert p in FetchedAt(src, measurements, limit, a);
    } else {
      hide FetchedAt;
      ForeignFetched(src, measurements, limit, a + 1, b, p);
    }
  }

  /** Pagination returns exactly the selected rows of the range, in order and once each, if and only if
      no timestamp that fills a page has a row outside the measurement filter. */
  lemma PaginationExactIff(src: seq<Point>, measurements: seq<string>, limit: nat, a: int, b: int)
    requires DistinctRows(src)
    ensures FetchedRows(src, measurements, limit, a, b) == Between(Allowed(src, measurements), a, b)
            <==> NoForeignRow(src, measurements, limit, a, b)
  {
    DistinctNoRepeat(src);
    hide DistinctRows, DistinctKeys, NoRepeat, At, Between, FetchedRows;
    if NoForeignRow(src, measurements, limit, a, b) {
      FetchedIsExact(src, measurements, limit, a, b);
    } else {
      var p :| p in src && a <= p.ts < b && |At(Allowed(src, measurements), p.ts)| >= limit && !Allows(measurements, p);
      ForeignFetched(src, measurements, limit, a, b, p);
      assert forall q | q in Between(Allowed(src, measurements), a, b) :: q in Allowed(src, measurements);
    }
  }

  /** Without a measurement filter pagination is exact for every page size, also when more rows than a
      page share one timestamp. */
  lemma ExactWithoutFilter(src: seq<Point>, limit: nat, a: int, b: int)
    requires DistinctRows(src)
    ensures FetchedRows(src, [], limit, a, b) == Between(src, a, b) && NoRepeat(Between(src, a, b))
    ensures forall p :: p in Between(src, a, b) <==> p in src && a <= p.ts < b
  {
    PaginationExactIff(src, [], limit, a, b);
    DistinctNoRepeat(src);
    BetweenNoRepeat(src, a, b);
    forall p | p in src && a <= p.ts < b
      ensures p in Between(src, a, b)
    {
      BetweenComplete(src, a, b, p);
    }
  }
}

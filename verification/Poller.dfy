/** The polling loop that turns the source into frames and advances the cursor (internal/sender/poller.go). */
module Poller {
  import opened SeriesKeys
  import opened LineProtocol
  import opened FastDedup
  import opened FastPath
  import opened Rows
  import opened Query
  import opened Merge
  import opened Batching

  const ONE_HOUR: nat := 3_600_000_000_000

  datatype Config = Config(
    window: nat, watermark: nat, maxWindow: nat, batchPoints: nat, windowTarget: nat, queryLimit: nat, parallel: nat,
    measurements: seq<string>)

  /** A window that was queried ahead. */
  datatype Prefetch = Nothing | Queried(cursor: int, end: int, blocked: bool, result: Fetch)

  /** What one poll finds in its environment: failing queries, failing prefetch queries, the frames the
      WAL accepts, whether the disk is nearly full, which cursor saves succeed, the clock at the start and
      at the prefetch, and the steps that handlers of pushes take meanwhile: `pushes(a, i)` before the
      i-th access of window `a` to the dedup set. */
  datatype Env = Env(
    fails: Faults, prefetchFails: Faults, wal: WalFaults, degraded: bool, saves: int -> bool, now: int, later: int,
    pushes: (int, nat) -> seq<FastStep>)

  /** How a poll ended: there was no stable window, or all of it was appended, or it was given up at the
      query, the append or the saving of the cursor. */
  datatype PollResult = NothingNew | Advanced | NotRead | NotAppended | NotSaved

  function PowerOfTwo(n: nat): nat {
    if n == 0 then 1 else 2 * PowerOfTwo(n - 1)
  }

  const SECOND_NS: nat := 1_000_000_000

  /** Values that are not set get their defaults. */
  function WithDefaults(c: Config): (r: Config)
    ensures r.window > 0 && r.watermark > 0 && r.maxWindow > 0 && r.batchPoints > 0 && r.queryLimit > 0
    ensures (c.window > 0 ==> r.window == c.window) && (c.watermark > 0 ==> r.watermark == c.watermark)
    ensures (c.maxWindow > 0 ==> r.maxWindow == c.maxWindow) && (c.batchPoints > 0 ==> r.batchPoints == c.batchPoints)
    ensures (c.queryLimit > 0 ==> r.queryLimit == c.queryLimit) && r.measurements == c.measurements
    ensures r.windowTarget == if c.windowTarget > 0 then c.windowTarget else r.batchPoints
  {
    var batch := if c.batchPoints == 0 then 10_000 else c.batchPoints;
    c.(window := if c.window == 0 then 5 * SECOND_NS else c.window,
       watermark := if c.watermark == 0 then 10 * SECOND_NS else c.watermark,
       maxWindow := if c.maxWindow == 0 then 30 * SECOND_NS else c.maxWindow,
       batchPoints := batch,
       windowTarget := if c.windowTarget == 0 then batch else c.windowTarget,
       queryLimit := if c.queryLimit == 0 then 100_000 else c.queryLimit,
       parallel := if c.parallel == 0 then DEFAULT_QUERIES else c.parallel)
  }

  /** The base window doubled `streak` times, but at most an hour. */
  method WindowSize(base: nat, streak: nat) returns (w: nat)
    ensures w == if base * PowerOfTwo(streak) <= ONE_HOUR then base * PowerOfTwo(streak) else ONE_HOUR
  {
    w := base;
    var i := 0;
    while i < streak && w < ONE_HOUR
      invariant i <= streak && w == base * PowerOfTwo(i)
    {
      w := w * 2;
      i := i + 1;
    }
    PowersGrow(base, i, streak);
    if w > ONE_HOUR {
      w := ONE_HOUR;
    }
  }

  lemma {:induction false} PowersGrow(base: nat, i: nat, n: nat)
    requires i <= n
    ensures base * PowerOfTwo(i) <= base * PowerOfTwo(n)
  {
    if i < n {
      PowersGrow(base, i, n - 1);
    }
  }

  // ---------------------------------------------------------------- how large the next window is

  /** What the poller has read: a window or a slice of one, the points that the filter left, and whether they
      were appended and the cursor saved; or nothing, because the query failed or the process was restarted. */
  datatype Reading =
    | Read(a: int, b: int, rows: seq<Point>, kept: seq<Point>, sliced: bool, done: bool)
    | Failed
    | Started

  /** The window or slice holds fewer points than it should. An unsliced window counts by what was fetched, a
      slice by what the filter left, and if that is not nothing only once it is done. */
  predicate Sparse(r: Reading, target: nat) {
    r.Read? && if r.sliced then r.rows == [] || (|r.kept| < target && r.done) else |r.rows| < target
  }

  /** The window or slice is dense, or there is none. */
  predicate Resets(r: Reading, target: nat) {
    !r.Read? || if r.sliced then r.rows != [] && |r.kept| >= target else |r.rows| >= target
  }

  /** How many sparse readings there were since the last one that resets. */
  function Underfilled(history: seq<Reading>, target: nat): nat {
    if history == [] then 0
    else
      var n := |history| - 1;
      if Resets(history[n], target) then 0
      else Underfilled(history[..n], target) + if Sparse(history[n], target) then 1 else 0
  }

  /** The last `k` readings were sparse, and the one before them, if there is one, resets. */
  ghost predicate SparseSince(history: seq<Reading>, target: nat, k: nat) {
    && k <= |history| && (forall i | |history| - k <= i < |history| :: Sparse(history[i], target))
    && (k < |history| ==> Resets(history[|history| - k - 1], target))
  }

  lemma {:induction false} UnderfilledIs(history: seq<Reading>, target: nat, k: nat)
    requires SparseSince(history, target, k)
    ensures Underfilled(history, target) == k
  {
    if k > 0 {
      var n := |history| - 1;
      assert Sparse(history[n], target);
      UnderfilledIs(history[..n], target, k - 1);
    }
  }

  lemma UnderfilledSnoc(history: seq<Reading>, r: Reading, target: nat)
    ensures Underfilled(history + [r], target)
            == if Resets(r, target) then 0
               else Underfilled(history, target) + if Sparse(r, target) then 1 else 0
  {
    assert (history + [r])[..|history|] == history;
  }

  lemma NotedUnsliced(history: seq<Reading>, r: Reading, target: nat)
    requires r.Read? && !r.sliced
    ensures Underfilled(history + [r], target)
            == if |r.rows| < target then Underfilled(history, target) + 1 else 0
    ensures (history + [r])[..|history|] == history
  {
    UnderfilledSnoc(history, r, target);
  }

  /** The base length doubled `n` times, but at most an hour. */
  function Length(base: nat, n: nat): nat {
    if base * PowerOfTwo(n) <= ONE_HOUR then base * PowerOfTwo(n) else ONE_HOUR
  }

  /** Only a base of an hour or more does not grow. */
  lemma {:induction false} GrownIff(base: nat, n: nat)
    requires base > 0
    ensures Length(base, 0) == Min(base, ONE_HOUR) <= Length(base, n)
    ensures Length(base, n) > Length(base, 0) <==> n > 0 && base < ONE_HOUR
  {
    PowersGrow(base, 0, n);
    if n > 0 {
      PowersGrow(base, 1, n);
    }
  }

  function Min(a: int, b: int): int {
    if a < b then a else b
  }

  /** Where the next window should end: after its length, but not past the watermark. */
  function Asked(cfg: Config, from: int, streak: nat, now: int): int {
    Min(from + Length(cfg.window, streak), now - cfg.watermark)
  }

  /** A grown window that is too long for one query. */
  predicate IsSliced(cfg: Config, from: int, streak: nat, now: int) {
    streak > 0 && Asked(cfg, from, streak, now) - from > cfg.maxWindow
  }

  /** Consecutive slices of the largest normal window, up to the first that is dense, fails or is not done. */
  ghost predicate Slices(src: seq<Point>, cfg: Config, from: int, end: int, got: seq<Reading>) {
    && got != []
    && var n := |got| - 1;
       && (n > 0 ==>
             Slices(src, cfg, from, end, got[..n]) && Sparse(got[n - 1], cfg.windowTarget) && got[n - 1].done)
       && !got[n].Started?
       && (got[n].Read? ==>
             && got[n].sliced && got[n].a == (if n == 0 then from else got[n - 1].b)
             && got[n].b == Min(got[n].a + cfg.maxWindow, end) && IsWindow(src, cfg, got[n]))
  }

  /** The last reading was done and ended here. */
  predicate DoneAt(got: seq<Reading>, b: int) {
    got != [] && var r := got[|got| - 1]; r.Read? && r.done && r.b == b
  }

  /** The last query failed. */
  predicate FailedAtLast(got: seq<Reading>) {
    got != [] && got[|got| - 1].Failed?
  }

  /** The reading holds the rows of its window, and what is left of them was not forwarded. */
  ghost predicate IsWindow(src: seq<Point>, cfg: Config, r: Reading)
    requires r.Read?
  {
    && r.rows == FetchedRows(src, cfg.measurements, cfg.queryLimit, r.a, r.b)
    && exists seen :: |seen| == |r.rows| && r.kept == Unforwarded(r.rows, seen)
  }

  // ---------------------------------------------------------------- coverage

  /** The point is carried by a frame of the poller, is too large for a frame of its own, or a line with
      its series and timestamp was appended by the fast path. */
  ghost predicate Covered(p: Point, frames: seq<seq<Point>>, fits: SizeLimit, lines: seq<string>) {
    || (exists f | f in frames :: Carries(f, fits, p))
    || FrameOf([p], fits).TooLarge?
    || (exists line | line in lines :: Names(line, EntryFor(p)))
  }

  ghost predicate CoveredIn(
    src: seq<Point>, measurements: seq<string>, a: int, b: int, frames: seq<seq<Point>>, fits: SizeLimit,
    lines: seq<string>)
  {
    forall p | p in src && Allows(measurements, p) && a <= p.ts < b :: Covered(p, frames, fits, lines)
  }

  lemma {:induction false} FetchedCovers(
    src: seq<Point>, measurements: seq<string>, limit: nat, a: int, b: int, p: Point)
    requires p in src && Allows(measurements, p) && a <= p.ts < b
    ensures p in FetchedRows(src, measurements, limit, a, b)
    decreases b - a
  {
    hide At, Allowed, Without, Allows;
    if p.ts == a {
      AllowedComplete(src, measurements, p);
      AtComplete(Allowed(src, measurements), p);
      AtComplete(src, p);
      var here := At(Allowed(src, measurements), a);
      if |here| >= limit && p !in here[..limit] {
        WithoutKeeps(At(src, a), here[..limit], p);
      }
      assert p in FetchedAt(src, measurements, limit, a);
    } else {
      hide FetchedAt;
      FetchedCovers(src, measurements, limit, a + 1, b, p);
    }
  }

  lemma {:induction false} FilteredOrKept(points: seq<Point>, seen: seq<set<Entry>>, p: Point)
    requires |seen| == |points| && p in points
    ensures p in Unforwarded(points, seen) || exists s :: s in seen && EntryFor(p) in s
  {
    hide EntryFor;
    var n := |points| - 1;
    if p in points[..n] {
      FilteredOrKept(points[..n], seen[..n], p);
    } else {
      assert points[n] == p && seen[n] in seen;
    }
  }

  lemma CoveredStays(
    src: seq<Point>, measurements: seq<string>, a: int, b: int, frames: seq<seq<Point>>, frames': seq<seq<Point>>,
    fits: SizeLimit, lines: seq<string>)
    requires CoveredIn(src, measurements, a, b, frames, fits, lines) && frames <= frames'
    ensures CoveredIn(src, measurements, a, b, frames', fits, lines)
  {
    hide Carries, FrameOf, Names, EntryFor, Allows;
    assert forall f | f in frames :: f in frames';
  }

  lemma CoveredJoin(
    src: seq<Point>, measurements: seq<string>, a: int, b: int, c: int, frames: seq<seq<Point>>, fits: SizeLimit,
    lines: seq<string>)
    requires CoveredIn(src, measurements, a, b, frames, fits, lines)
    requires CoveredIn(src, measurements, b, c, frames, fits, lines)
    ensures CoveredIn(src, measurements, a, c, frames, fits, lines)
  {
    hide Covered, Allows;
  }

  /** A window that was fetched, filtered and appended is covered. */
  lemma WindowCovered(
    src: seq<Point>, measurements: seq<string>, limit: nat, a: int, b: int, seen: seq<set<Entry>>, batch: nat,
    frames: seq<seq<Point>>, fits: SizeLimit, lines: seq<string>)
    requires batch > 0 && |seen| == |FetchedRows(src, measurements, limit, a, b)|
    requires forall s, e | s in seen && e in s :: Forwarded(e, lines)
    requires var kept := Unforwarded(FetchedRows(src, measurements, limit, a, b), seen);
             (forall f | f in SentFrames(kept, batch, fits) :: f in frames) && forall p | p in kept :: !CannotPrint(p)
    ensures CoveredIn(src, measurements, a, b, frames, fits, lines)
  {
    hide FrameOf, Carries, CannotPrint, Names, EntryFor, Allows, FetchedRows, Unforwarded, SentFrames, Flatten;
    var points := FetchedRows(src, measurements, limit, a, b);
    var kept := Unforwarded(points, seen);
    forall p | p in src && Allows(measurements, p) && a <= p.ts < b
      ensures Covered(p, frames, fits, lines)
    {
      FetchedCovers(src, measurements, limit, a, b, p);
      FilteredOrKept(points, seen, p);
      if p in kept {
        SentOrTooLarge(kept, batch, fits, p);
        if p in Flatten(SentFrames(kept, batch, fits)) {
          var f := SentIsCarried(kept, batch, fits, p);
        }
      }
    }
  }

  /** The WAL refuses frames, or some point cannot be printed. */
  ghost predicate AppendFails(env: Env, src: seq<Point>) {
    (exists n :: env.wal(n).StopsAfter?) || exists p | p in src :: CannotPrint(p)
  }

  lemma KeptFromSource(src: seq<Point>, measurements: seq<string>, limit: nat, a: int, b: int, seen: seq<set<Entry>>)
    requires |seen| == |FetchedRows(src, measurements, limit, a, b)|
    ensures forall p | p in Unforwarded(FetchedRows(src, measurements, limit, a, b), seen) :: p in src
  {
    FetchedIn(src, measurements, limit, a, b);
    UnforwardedIn(FetchedRows(src, measurements, limit, a, b), seen);
  }

  lemma {:induction false} UnforwardedIn(points: seq<Point>, seen: seq<set<Entry>>)
    requires |seen| == |points|
    ensures forall p | p in Unforwarded(points, seen) :: p in points
  {
    if points != [] {
      var n := |points| - 1;
      UnforwardedIn(points[..n], seen[..n]);
    }
  }

  lemma WindowPositive(base: nat, streak: nat)
    requires base > 0
    ensures base * PowerOfTwo(streak) > 0
  {
    PowersGrow(base, 0, streak);
  }

  // ---------------------------------------------------------------- the poller

  class Poller {
    const src: seq<Point>
    const cfg: Config
    const fits: SizeLimit
    const log: FrameLog
    const fast: FastPath
    ghost const start: int
    var cursor: int
    /** The cursor in the checkpoint file. */
    var saved: int
    var streak: nat
    var prefetch: Prefetch
    /** The clock as the poller last read it. */
    ghost var clock: int
    /** All that was read so far. */
    ghost var history: seq<Reading>

    /** The clauses that no step may break. */
    ghost predicate Valid()
      reads this, log, fast, fast.dedup
    {
      && fast.Valid() && DistinctRows(src) && start <= saved <= cursor
      && cfg.window > 0 && cfg.batchPoints > 0 && cfg.queryLimit > 0 && cfg.maxWindow > 0
      && CoveredIn(src, cfg.measurements, start, cursor, log.frames, fits, fast.lines)
      && (prefetch.Queried? ==>
            && prefetch.cursor < prefetch.end <= clock - cfg.watermark
            && (prefetch.result.Fetched? ==>
                  prefetch.result.points
                  == FetchedRows(src, cfg.measurements, cfg.queryLimit, prefetch.cursor, prefetch.end)))
    }

    /** The count is that of the sparse readings, and what is queried ahead begins at the cursor, behind a
        window that is done, with the length for the count before that window. */
    ghost predicate Counting()
      reads this
    {
      && streak == Underfilled(history, cfg.windowTarget)
      && (prefetch.Queried? ==>
            && history != []
            && var n := |history| - 1;
               && history[n].Read? && !history[n].sliced && history[n].done && history[n].b == cursor
               && SizedFor(Underfilled(history[..n], cfg.windowTarget)))
    }

    /** The window that is queried ahead begins at the cursor and has the length for this count, or ends
        before that at the watermark. */
    ghost predicate SizedFor(count: nat)
      reads this
      requires prefetch.Queried?
    {
      var w := Length(cfg.window, count);
      && prefetch.cursor == cursor && w <= cfg.maxWindow
      && if prefetch.blocked then prefetch.end < cursor + w else prefetch.end == cursor + w
    }

    constructor (source: seq<Point>, config: Config, limit: SizeLimit, fastPath: FastPath, from: int)
      requires DistinctRows(source) && fastPath.Valid()
      ensures Valid() && cursor == start == from && fast == fastPath && cfg == WithDefaults(config)
      ensures Counting() && history == []
    {
      src, cfg, fits, fast, start, cursor, saved := source, WithDefaults(config), limit, fastPath, from, from, from;
      streak, prefetch, clock, history := 0, Nothing, 0, [];
      log := new FrameLog();
    }

    method QueryWindow(a: int, b: int, fails: Faults) returns (r: Fetch)
      requires DistinctRows(src) && cfg.queryLimit > 0
      ensures r.Fetched? ==> r.points == FetchedRows(src, cfg.measurements, cfg.queryLimit, a, b)
      ensures Explained(r, src, cfg.measurements, 0, fails)
    {
      r := QueryParallel(src, a, b, cfg.measurements, cfg.queryLimit, 0, cfg.parallel, fails);
    }

    /** Queries the window after `from` ahead, unless it is one for slicing or not yet stable. */
    method LaunchPrefetch(from: int, env: Env)
      requires DistinctRows(src) && cfg.queryLimit > 0 && clock <= env.later
      modifies this`prefetch, this`clock
      ensures clock == env.later
      ensures prefetch == old(prefetch) || (old(prefetch).Nothing? && prefetch.Queried?)
      ensures old(prefetch).Nothing? && prefetch.Queried? ==>
                && prefetch.cursor == from < prefetch.end <= env.later - cfg.watermark
                && (prefetch.result.Fetched? ==>
                      prefetch.result.points == FetchedRows(src, cfg.measurements, cfg.queryLimit, from, prefetch.end))
                && Explained(prefetch.result, src, cfg.measurements, 0, env.prefetchFails)
      ensures old(prefetch).Nothing? ==>
                var w := Length(cfg.window, streak);
                && (prefetch.Queried? <==> w <= cfg.maxWindow && Min(from + w, env.later - cfg.watermark) > from)
                && (prefetch.Queried? ==>
                      && prefetch.end == Min(from + w, env.later - cfg.watermark)
                      && (prefetch.blocked <==> from + w > env.later - cfg.watermark))
    {
      clock := env.later;
      if prefetch.Queried? {
        return;
      }
      var w := WindowSize(cfg.window, streak);
      if w > cfg.maxWindow {
        return;
      }
      var end, blocked := from + w, false;
      if end > env.later - cfg.watermark {
        end, blocked := env.later - cfg.watermark, true;
      }
      if end <= from {
        return;
      }
      var result := QueryWindow(from, end, env.prefetchFails);
      prefetch := Queried(from, end, blocked, result);
    }

    /** Drops what the fast path has forwarded; pushes go on meanwhile. */
    method FilterForwarded(points: seq<Point>, windowStart: int, pushes: (int, nat) -> seq<FastStep>)
      returns (kept: seq<Point>, ghost seen: seq<set<Entry>>)
      requires Valid()
      modifies fast, fast.dedup
      ensures Valid() && old(fast.lines) <= fast.lines
      ensures |seen| == |points| && kept == Unforwarded(points, seen)
      ensures forall s, e | s in seen && e in s :: Forwarded(e, fast.lines)
      ensures (forall i :: pushes(windowStart, i) == []) ==>
                forall s | s in seen :: s == Kept(old(fast.dedup.contents), windowStart - fast.dedup.retention)
    {
      hide FastPath.Valid, Forwarded, Unforwarded, CoveredIn, DistinctRows, FetchedRows, Kept;
      ghost var before := fast.lines;
      fast.Concurrently(pushes(windowStart, 0));
      fast.SetCursor(windowStart);
      var a := new Point[|points|](i requires 0 <= i < |points| => points[i]);
      assert a[..] == points;
      var n;
      ghost var after := fast.View();
      n, seen := fast.Filter(a, (i: nat) => pushes(windowStart, i + 1));
      if forall i :: pushes(windowStart, i) == [] {
        forall k: nat | k < |seen|
          ensures seen[k] == after.contents
        {
          fast.Undisturbed(after, (i: nat) => pushes(windowStart, i + 1), k + 1);
        }
      }
      kept := a[..n];
      MoreLines(src, cfg.measurements, start, cursor, log.frames, fits, before, fast.lines);
    }

    /** Appends the points in frames, half as large while the disk is nearly full. */
    method AppendFrames(points: seq<Point>, env: Env) returns (ok: bool, ghost batch: nat)
      requires cfg.batchPoints > 0
      modifies log
      ensures old(log.frames) <= log.frames
      ensures batch == if env.degraded && cfg.batchPoints > 1 then cfg.batchPoints / 2 else cfg.batchPoints
      ensures ok ==> log.frames == old(log.frames) + SentFrames(points, batch, fits)
      ensures ok ==> forall p | p in points :: !CannotPrint(p)
      ensures !ok ==> (exists n :: env.wal(n).StopsAfter?) || exists p | p in points :: CannotPrint(p)
    {
      var size := if env.degraded then cfg.batchPoints / 2 else cfg.batchPoints;
      if size <= 0 {
        size := cfg.batchPoints;
      }
      batch := size;
      var r := log.AppendBatch(points, size, fits, env.wal);
      ok := r.Appended?;
    }

    /** Appends a fetched and filtered window; only then may the cursor move to its end. */
    method Deliver(kept: seq<Point>, ghost seen: seq<set<Entry>>, a: int, b: int, env: Env)
      returns (ok: bool, ghost result: PollResult)
      requires Valid() && cursor == a <= b
      requires |seen| == |FetchedRows(src, cfg.measurements, cfg.queryLimit, a, b)|
      requires kept == Unforwarded(FetchedRows(src, cfg.measurements, cfg.queryLimit, a, b), seen)
      requires forall s, e | s in seen && e in s :: Forwarded(e, fast.lines)
      modifies log, this`cursor, this`saved
      ensures Valid() && (ok <==> result.Advanced?)
      ensures match result
              case Advanced => cursor == saved == b
              case NotAppended => cursor == a && AppendFails(env, src)
              case NotSaved => cursor == b && !env.saves(b)
              case _ => false
    {
      hide FastPath.Valid, DistinctRows, CoveredIn, FetchedRows, SentFrames, Unforwarded, Forwarded, CannotPrint;
      var appended;
      ghost var batch;
      appended, batch := AppendFrames(kept, env);
      CoveredStays(src, cfg.measurements, start, a, old(log.frames), log.frames, fits, fast.lines);
      if !appended {
        KeptFromSource(src, cfg.measurements, cfg.queryLimit, a, b, seen);
        return false, NotAppended;
      }
      assert forall f | f in SentFrames(kept, batch, fits) :: f in log.frames;
      WindowCovered(src, cfg.measurements, cfg.queryLimit, a, b, seen, batch, log.frames, fits, fast.lines);
      CoveredJoin(src, cfg.measurements, start, a, b, log.frames, fits, fast.lines);
      // the cursor moves in memory even if saving it fails
      cursor := b;
      ok := env.saves(b);
      result := NotSaved;
      if ok {
        saved, result := b, Advanced;
      }
    }

    /** The prefetched window, if it starts at the cursor; otherwise a query for the window asked for. */
    method TakeWindow(from: int, to: int, wasBlocked: bool, env: Env) returns (end: int, blocked: bool, r: Fetch)
      requires Valid() && clock == env.now && from < to <= env.now - cfg.watermark
      modifies this`prefetch
      ensures Valid() && prefetch.Nothing? && from < end <= env.now - cfg.watermark
      ensures if old(prefetch).Queried? && old(prefetch).cursor == from
              then old(prefetch) == Queried(from, end, blocked, r)
              else end == to && blocked == wasBlocked && Explained(r, src, cfg.measurements, 0, env.fails)
      ensures r.Fetched? ==> r.points == FetchedRows(src, cfg.measurements, cfg.queryLimit, from, end)
    {
      hide FastPath.Valid, DistinctRows, CoveredIn, FetchedRows;
      end, blocked := to, wasBlocked;
      var slot := prefetch;
      prefetch := Nothing;
      if slot.Queried? && slot.cursor == from {
        return slot.end, slot.blocked, slot.result;
      }
      r := QueryWindow(from, end, env.fails);
    }

    /** What a poll reads from a cursor, given the count and what was queried ahead: the slices of a grown window,
        or one window. */
    ghost predicate WindowRead(from: int, count: nat, slot: Prefetch, now: int, got: seq<Reading>) {
      var asked := Asked(cfg, from, count, now);
      if IsSliced(cfg, from, count, now) then Slices(src, cfg, from, asked, got)
      else |got| == 1
           && OneWindow(got[0], from, if count == 0 then Min(asked, from + cfg.maxWindow) else asked, slot)
    }

    /** The query failed, or its rows are those of the window: up to `to`, unless it was queried ahead. */
    ghost predicate OneWindow(r: Reading, from: int, to: int, slot: Prefetch) {
      && !r.Started?
      && (r.Read? ==> !r.sliced && r.a == from && IsWindow(src, cfg, r)
                      && r.b == if slot.Queried? then slot.end else to)
    }

    /** One poll. The cursor never passes a point that is not covered, nor the watermark. */
    method PollOnce(env: Env) returns (blocked: bool, ghost result: PollResult, ghost got: seq<Reading>)
      requires Valid() && Counting() && clock <= env.now <= env.later
      modifies this, log, fast, fast.dedup
      ensures Valid() && Counting() && clock <= env.later && old(fast.lines) <= fast.lines
      ensures history == old(history) + got && (got == [] <==> result.NothingNew?)
      ensures !result.NothingNew? ==> WindowRead(old(cursor), old(streak), old(prefetch), env.now, got)
      ensures (result.Advanced? <==> DoneAt(got, cursor)) && (result.NotRead? <==> FailedAtLast(got))
      ensures result.Advanced? && !IsSliced(cfg, old(cursor), old(streak), env.now) ==>
                (prefetch.Queried? <==>
                   Length(cfg.window, old(streak)) <= cfg.maxWindow && cursor < env.later - cfg.watermark)
      ensures var cut := old(cursor + Length(cfg.window, streak)) > env.now - cfg.watermark;
              blocked <==> result.Advanced? &&
                           if old(prefetch).Queried? && !IsSliced(cfg, old(cursor), old(streak), env.now)
                           then old(prefetch).blocked else cut
      ensures old(cursor) <= cursor && (cursor > old(cursor) ==> cursor <= env.now - cfg.watermark)
      ensures result.NothingNew? <==> env.now - cfg.watermark <= old(cursor)
      ensures match result
              case NothingNew => cursor == old(cursor) && saved == old(saved)
              case Advanced => cursor == saved > old(cursor)
              case NotRead =>
                (exists r: Fetch :: !r.Fetched? && Explained(r, src, cfg.measurements, 0, env.fails))
                || (old(prefetch).Queried? && !old(prefetch).result.Fetched?)
              case NotAppended => AppendFails(env, src)
              case NotSaved => cursor > old(cursor) && !env.saves(cursor)
    {
      hide FastPath.Valid, DistinctRows, CoveredIn, FetchedRows, Unforwarded, Forwarded, Explained, AppendFails;
      hide PowerOfTwo, Underfilled, IsWindow;
      clock := env.now;
      blocked, result, got := false, NothingNew, [];
      var w := WindowSize(cfg.window, streak);
      var end := cursor + w;
      if end > env.now - cfg.watermark {
        end, blocked := env.now - cfg.watermark, true;
      }
      if streak == 0 && end - cursor > cfg.maxWindow {
        end := cursor + cfg.maxWindow;
      }
      WindowPositive(cfg.window, streak);
      if end <= cursor {
        assert history + [] == history;
        return false, NothingNew, [];
      }
      if streak > 0 && end - cursor > cfg.maxWindow {
        blocked, result, got := PollSliced(end, blocked, env);
      } else {
        blocked, result, got := PollWindow(end, blocked, env);
      }
    }

    /** One window that needs no slices: the one queried ahead, if there is one, or else the one asked for. */
    method PollWindow(to: int, wasBlocked: bool, env: Env)
      returns (blocked: bool, ghost result: PollResult, ghost got: seq<Reading>)
      requires Valid() && Counting() && clock == env.now <= env.later && cursor < to <= env.now - cfg.watermark
      modifies this, log, fast, fast.dedup
      ensures Valid() && Counting() && clock <= env.later && old(fast.lines) <= fast.lines
      ensures |got| == 1 && history == old(history) + got && OneWindow(got[0], old(cursor), to, old(prefetch))
      ensures (result.Advanced? <==> DoneAt(got, cursor)) && (result.NotRead? <==> FailedAtLast(got))
      ensures result.Advanced? ==>
                (prefetch.Queried? <==>
                   Length(cfg.window, old(streak)) <= cfg.maxWindow && cursor < env.later - cfg.watermark)
      ensures blocked <==> result.Advanced? && if old(prefetch).Queried? then old(prefetch).blocked else wasBlocked
      ensures old(cursor) <= cursor && (cursor > old(cursor) ==> cursor <= env.now - cfg.watermark)
      ensures match result
              case NothingNew => false
              case Advanced => cursor == saved > old(cursor)
              case NotRead =>
                (exists r: Fetch :: !r.Fetched? && Explained(r, src, cfg.measurements, 0, env.fails))
                || (old(prefetch).Queried? && !old(prefetch).result.Fetched?)
              case NotAppended => AppendFails(env, src)
              case NotSaved => cursor > old(cursor) && !env.saves(cursor)
    {
      hide FastPath.Valid, DistinctRows, CoveredIn, FetchedRows, Unforwarded, Forwarded, Explained, AppendFails;
      hide PowerOfTwo, Underfilled, IsWindow;
      var from := cursor;
      var end, fetched;
      end, blocked, fetched := TakeWindow(from, to, wasBlocked, env);
      if !fetched.Fetched? {
        UnderfilledSnoc(history, Failed, cfg.windowTarget);
        streak, history := 0, history + [Failed];
        return false, NotRead, [Failed];
      }
      var ok;
      ok, result, got := HandleWindow(fetched.points, end, env);
      blocked := ok && blocked;
    }

    /** Queries ahead, counts the window that was read, and delivers what is left of it. */
    method HandleWindow(points: seq<Point>, end: int, env: Env)
      returns (ok: bool, ghost result: PollResult, ghost got: seq<Reading>)
      requires Valid() && clock == env.now <= env.later && cursor < end <= env.now - cfg.watermark && prefetch.Nothing?
      requires points == FetchedRows(src, cfg.measurements, cfg.queryLimit, cursor, end)
      requires streak == Underfilled(history, cfg.windowTarget)
      modifies this, log, fast, fast.dedup
      ensures Valid() && Counting() && clock <= env.later && old(fast.lines) <= fast.lines
      ensures |got| == 1 && history == old(history) + got && got[0].Read? && !got[0].sliced && got[0].done == ok
      ensures got[0].a == old(cursor) && got[0].b == end && IsWindow(src, cfg, got[0])
      ensures ok ==>
                (prefetch.Queried? <==>
                   Length(cfg.window, old(streak)) <= cfg.maxWindow && cursor < env.later - cfg.watermark)
      ensures cursor == old(cursor) || cursor == end
      ensures ok <==> result.Advanced?
      ensures match result
              case Advanced => cursor == saved == end
              case NotAppended => AppendFails(env, src)
              case NotSaved => cursor == end && !env.saves(cursor)
              case _ => false
    {
      hide FastPath.Valid, DistinctRows, CoveredIn, FetchedRows, Unforwarded, Forwarded, Explained, AppendFails;
      hide PowerOfTwo, Underfilled, IsWindow, Sparse, Resets;
      var from := cursor;
      WindowPositive(cfg.window, streak);
      LaunchPrefetch(end, env);
      streak := if |points| < cfg.windowTarget then streak + 1 else 0;
      var kept;
      ghost var seen;
      kept, seen := FilterForwarded(points, from, env.pushes);
      ok, result := Deliver(kept, seen, from, end, env);
      ghost var r := Read(from, end, points, kept, false, ok);
      NotedUnsliced(history, r, cfg.windowTarget);
      ReadIsWindow(src, cfg, r, seen);
      got, history := [r], history + [r];
      if !ok {
        prefetch := Nothing;
      }
    }

    /** A grown window is read in slices of the largest normal window. */
    method PollSliced(end: int, wasBlocked: bool, env: Env)
      returns (blocked: bool, ghost result: PollResult, ghost got: seq<Reading>)
      requires Valid() && streak == Underfilled(history, cfg.windowTarget)
      requires clock == env.now && cursor < end <= env.now - cfg.watermark
      modifies this, log, fast, fast.dedup
      ensures Valid() && Counting() && clock == env.now && old(fast.lines) <= fast.lines
      ensures history == old(history) + got && Slices(src, cfg, old(cursor), end, got)
      ensures (result.Advanced? <==> DoneAt(got, cursor)) && (result.NotRead? <==> FailedAtLast(got))
      ensures result.Advanced? ==> cursor == end || Resets(got[|got| - 1], cfg.windowTarget)
      ensures blocked <==> result.Advanced? && wasBlocked
      ensures old(cursor) <= cursor && (cursor > old(cursor) ==> cursor <= env.now - cfg.watermark)
      ensures match result
              case Advanced => cursor == saved > old(cursor)
              case NotRead => exists r: Fetch :: !r.Fetched? && Explained(r, src, cfg.measurements, 0, env.fails)
              case NotAppended => AppendFails(env, src)
              case NotSaved => cursor > old(cursor) && !env.saves(cursor)
              case NothingNew => false
    {
      hide FastPath.Valid, DistinctRows, CoveredIn, FetchedRows, Unforwarded, Forwarded, Explained, AppendFails;
      hide Underfilled, PowerOfTwo, Slices, IsWindow, Sparse;
      prefetch, got := Nothing, [];
      assert history + [] == history;
      var s := cursor;
      while s < end
        invariant Valid() && s == cursor && old(cursor) <= s <= end && prefetch.Nothing? && clock == env.now
        invariant s > old(cursor) ==> s <= env.now - cfg.watermark && saved == s
        invariant old(fast.lines) <= fast.lines
        invariant streak == Underfilled(history, cfg.windowTarget) && history == old(history) + got
        invariant if got == [] then s == old(cursor) else Slices(src, cfg, old(cursor), end, got)
        invariant got != [] ==> Sparse(got[|got| - 1], cfg.windowTarget) && DoneAt(got, s)
        decreases end - s
      {
        var e := if s + cfg.maxWindow > end then end else s + cfg.maxWindow;
        var fetched := QueryWindow(s, e, env.fails);
        if !fetched.Fetched? {
          UnderfilledSnoc(history, Failed, cfg.windowTarget);
          NextSlice(src, cfg, old(cursor), end, got, Failed);
          streak := 0;
          history, got := history + [Failed], got + [Failed];
          return false, NotRead, got;
        }
        var ok, dense;
        ghost var r;
        ok, dense, result, r := HandleSlice(fetched.points, e, env);
        NextSlice(src, cfg, old(cursor), end, got, r);
        got := got + [r];
        if !ok {
          return false, result, got;
        }
        if dense {
          return wasBlocked, Advanced, got;
        }
        s := e;
      }
      return wasBlocked, Advanced, got;
    }

    /** Delivers what is left of a slice and counts it: an empty one at once, a sparse one when it is done. */
    method HandleSlice(points: seq<Point>, end: int, env: Env)
      returns (ok: bool, dense: bool, ghost result: PollResult, ghost r: Reading)
      requires Valid() && prefetch.Nothing? && cursor < end
      requires points == FetchedRows(src, cfg.measurements, cfg.queryLimit, cursor, end)
      requires streak == Underfilled(history, cfg.windowTarget)
      modifies this`streak, this`history, this`cursor, this`saved, log, fast, fast.dedup
      ensures Valid() && old(fast.lines) <= fast.lines
      ensures history == old(history) + [r] && streak == Underfilled(history, cfg.windowTarget)
      ensures r.Read? && r.sliced && r.a == old(cursor) && r.b == end && IsWindow(src, cfg, r) && r.done == ok
      ensures (dense <==> Resets(r, cfg.windowTarget)) && (ok && !dense ==> Sparse(r, cfg.windowTarget))
      ensures ok <==> result.Advanced?
      ensures match result
              case Advanced => cursor == saved == end
              case NotAppended => cursor == old(cursor) && AppendFails(env, src)
              case NotSaved => cursor == end && !env.saves(cursor)
              case _ => false
    {
      hide FastPath.Valid, DistinctRows, CoveredIn, FetchedRows, Unforwarded, Forwarded, Explained, AppendFails;
      hide Underfilled, IsWindow;
      var s := cursor;
      var kept;
      ghost var seen;
      kept, seen := FilterForwarded(points, s, env.pushes);
      dense := |kept| >= cfg.windowTarget && |points| > 0;
      if dense {
        streak := 0;
      } else if |points| == 0 {
        streak := streak + 1;
      }
      ok, result := Deliver(kept, seen, s, end, env);
      if ok && !dense && |points| > 0 {
        streak := streak + 1;
      }
      r := Read(s, end, points, kept, true, ok);
      UnderfilledSnoc(history, r, cfg.windowTarget);
      ReadIsWindow(src, cfg, r, seen);
      history := history + [r];
    }

    /** The next window, by what was read in the whole run so far: after `k` sparse readings in a row it is the
        base window doubled `k` times, as far as the watermark and, for the base window itself, the limit allow.
        A window that was queried ahead is sized by the readings before the last one instead, even if the last
        one was dense. */
    lemma NextLength(k: nat, j: nat, now: int, got: seq<Reading>)
      requires Counting() && SparseSince(history, cfg.windowTarget, k)
      requires prefetch.Queried? ==> SparseSince(history[..|history| - 1], cfg.windowTarget, j)
      requires WindowRead(cursor, streak, prefetch, now, got) && !IsSliced(cfg, cursor, k, now) && got[0].Read?
      ensures streak == k && got[0].a == cursor
      ensures var length := got[0].b - cursor;
              if prefetch.Nothing? then
                length == Min(if k == 0 then Min(Length(cfg.window, 0), cfg.maxWindow) else Length(cfg.window, k),
                              now - cfg.watermark - cursor)
              else if prefetch.blocked then length < Length(cfg.window, j)
              else length == Length(cfg.window, j)
      ensures prefetch.Queried? && k > 0 ==> j == k - 1
    {
      hide PowerOfTwo, IsWindow;
      UnderfilledIs(history, cfg.windowTarget, k);
      if prefetch.Queried? {
        UnderfilledIs(history[..|history| - 1], cfg.windowTarget, j);
      }
    }

    /** After a dense window the next one has the base length exactly if it was not queried ahead, or the window
        before the dense one was not sparse either, or the base window is an hour long already. */
    lemma BaseAgainIff(j: nat, now: int, got: seq<Reading>)
      requires Counting() && 0 < cfg.window <= cfg.maxWindow && history != []
      requires var n := |history| - 1;
               Resets(history[n], cfg.windowTarget) && SparseSince(history[..n], cfg.windowTarget, j)
      requires WindowRead(cursor, streak, prefetch, now, got) && got[0].Read?
      requires prefetch.Nothing? ==> cursor + Length(cfg.window, 0) <= now - cfg.watermark
      requires prefetch.Queried? ==> !prefetch.blocked
      ensures got[0].b == cursor + Length(cfg.window, 0) <==> prefetch.Nothing? || j == 0 || cfg.window >= ONE_HOUR
    {
      hide IsWindow, PowerOfTwo, Length;
      assert SparseSince(history, cfg.windowTarget, 0);
      NextLength(0, j, now, got);
      GrownIff(cfg.window, j);
    }

    /** The process restarts with the cursor that was saved last. */
    method Restart(at: int)
      requires Valid()
      modifies this`cursor, this`streak, this`prefetch, this`clock, this`history, fast`waiting, fast.dedup
      ensures Valid() && Counting() && cursor == saved && streak == 0 && prefetch.Nothing? && clock == at
      ensures history == old(history) + [Started] && fast.dedup.contents == {}
    {
      hide FastPath.Valid, Covered;
      UnderfilledSnoc(history, Started, cfg.windowTarget);
      cursor, streak, prefetch, clock, history := saved, 0, Nothing, at, history + [Started];
      fast.Restart();
    }

    ghost function View(): PollerView
      reads this, fast, fast.dedup
    {
      PollerView(cursor, saved, streak, prefetch, history, fast.View())
    }

    /** A query, a frame or the saving of the cursor fails. */
    ghost predicate Hindered(env: Env, slot: Prefetch, cursor: int) {
      || (exists r: Fetch :: !r.Fetched? && Explained(r, src, cfg.measurements, 0, env.fails))
      || (slot.Queried? && !slot.result.Fetched?) || AppendFails(env, src) || !env.saves(cursor)
    }

    /** One step of a run. A poll reads the next window as soon as there is one, and unless it is hindered the
        cursor moves to the end of what was read; a restart goes back to the saved cursor. */
    ghost predicate StepOf(s: PollerView, t: PollerView, step: Step) {
      match step
      case Pushed(push) => t == s.(fast := fast.After(s.fast, push))
      case Restarted(_) =>
        t == PollerView(s.saved, s.saved, 0, Nothing, s.history + [Started], t.fast) && t.fast.contents == {}
      case Poll(env) =>
        && s.history <= t.history && var got := t.history[|s.history|..];
        if env.now - cfg.watermark <= s.cursor then got == [] && t.cursor == s.cursor && t.saved == s.saved
        else
          && got != [] && WindowRead(s.cursor, s.streak, s.prefetch, env.now, got)
          && (!Hindered(env, s.prefetch, t.cursor) ==> t.cursor == t.saved > s.cursor && DoneAt(got, t.cursor))
    }

    method TakeStep(step: Step, ghost t: int) returns (ghost t': int)
      requires Valid() && Counting() && clock <= t && Timely([step], t)
      modifies this, log, fast, fast.dedup
      ensures Valid() && Counting() && clock <= t' && StepOf(old(View()), View(), step)
      ensures t' == AfterStep(step, t)
    {
      hide DistinctRows, CoveredIn, FetchedRows, FastPath.Valid, Explained, AppendFails, WindowRead;
      t' := AfterStep(step, t);
      match step {
        case Poll(env) =>
          var blocked;
          ghost var result;
          ghost var got;
          blocked, result, got := PollOnce(env);
          assert history[|old(history)|..] == got;
        case Pushed(push) =>
          ghost var before := fast.lines;
          fast.Concurrently([push]);
          assert [push][..0] == [];
          MoreLines(src, cfg.measurements, start, cursor, log.frames, fits, before, fast.lines);
        case Restarted(at) => Restart(at);
      }
    }

    /** Any run of polls, steps of pushes and restarts, with any failures, leaves every selected point before
        the cursor covered, and takes every step. Pushes also take steps within a poll. */
    method Run(steps: seq<Step>) returns (ghost views: seq<PollerView>)
      requires Valid() && Counting() && Timely(steps, clock)
      modifies this, log, fast, fast.dedup
      ensures Valid() && Counting()
      ensures CoveredIn(src, cfg.measurements, start, cursor, log.frames, fits, fast.lines)
      ensures |views| == |steps| + 1 && views[0] == old(View()) && views[|steps|] == View()
      ensures forall i | 0 <= i < |steps| :: StepOf(views[i], views[i + 1], steps[i])
    {
      hide DistinctRows, CoveredIn, FetchedRows, FastPath.Valid, StepOf;
      ghost var t := clock;
      views := [View()];
      for i := 0 to |steps|
        invariant Valid() && Counting() && clock <= t && Timely(steps[i..], t)
        invariant |views| == i + 1 && views[0] == old(View()) && views[i] == View()
        invariant forall k | 0 <= k < i :: StepOf(views[k], views[k + 1], steps[k])
      {
        assert steps[i..][1..] == steps[i + 1..];
        t := TakeStep(steps[i], t);
        views := views + [View()];
      }
    }
  }

  datatype PollerView = PollerView(
    cursor: int, saved: int, streak: nat, prefetch: Prefetch, history: seq<Reading>,
    fast: FastView)

  /** One more slice. */
  lemma NextSlice(src: seq<Point>, cfg: Config, from: int, end: int, got: seq<Reading>, r: Reading)
    requires got != [] ==>
               && Slices(src, cfg, from, end, got)
               && Sparse(got[|got| - 1], cfg.windowTarget) && got[|got| - 1].done
    requires r.Read? ==>
               && r.sliced && r.a == (if got == [] then from else got[|got| - 1].b)
               && r.b == Min(r.a + cfg.maxWindow, end) && IsWindow(src, cfg, r)
    requires !r.Started?
    ensures Slices(src, cfg, from, end, got + [r])
  {
    hide IsWindow;
    assert (got + [r])[..|got|] == got;
  }

  lemma ReadIsWindow(src: seq<Point>, cfg: Config, r: Reading, seen: seq<set<Entry>>)
    requires r.Read? && r.rows == FetchedRows(src, cfg.measurements, cfg.queryLimit, r.a, r.b)
    requires |seen| == |r.rows| && r.kept == Unforwarded(r.rows, seen)
    ensures IsWindow(src, cfg, r)
  {
  }

  /** One step of the sender's reading side. */
  datatype Step = Poll(env: Env) | Pushed(push: FastStep) | Restarted(at: int)

  /** What the clock shows after a step. */
  function AfterStep(step: Step, t: int): int {
    match step
    case Poll(env) => env.later
    case Pushed(_) => t
    case Restarted(at) => at
  }

  /** The clock does not run backwards. */
  ghost predicate Timely(steps: seq<Step>, t: int) {
    steps == []
    || (t <= (if steps[0].Poll? then steps[0].env.now else t) <= AfterStep(steps[0], t)
        && Timely(steps[1..], AfterStep(steps[0], t)))
  }

  lemma MoreLines(
    src: seq<Point>, measurements: seq<string>, a: int, b: int, frames: seq<seq<Point>>, fits: SizeLimit,
    lines: seq<string>, lines': seq<string>)
    requires CoveredIn(src, measurements, a, b, frames, fits, lines) && lines <= lines'
    ensures CoveredIn(src, measurements, a, b, frames, fits, lines')
  {
    hide Carries, FrameOf, Names, EntryFor, Allows;
    assert forall l | l in lines :: l in lines';
  }
}

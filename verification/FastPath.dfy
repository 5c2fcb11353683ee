/** Forwarding of pushed batches ahead of the poller (internal/sender/fastpath.go). */
module FastPath {
  import opened Text
  import opened SeriesKeys
  import opened LineParse
  import opened FastDedup

  // only timestamps in this range are forwarded
  const MIN_NS: nat := 1_000_000_000_000_000
  const MAX_NS: nat := 5_000_000_000_000_000_000

  /** What one push finds in its environment: whether the WAL disk is nearly full, and whether encoding and
      appending the frame succeed. */
  datatype Push = Push(diskNearlyFull: bool, encodes: bool, appends: bool)

  /** One locked step of the handlers that serve pushes: a body is appended, or an entry of a body that was
      appended before is registered. */
  datatype FastStep = Append(body: string, push: Push) | Register(i: nat, now: int)

  /** The line names this series and timestamp. */
  ghost predicate Names(line: string, e: Entry) {
    var r := Parse(line);
    r.Parsed? && e == Entry(KeyFromPairs(r.measurement, r.tags), r.ts)
  }

  /** A line with this series and timestamp was appended. */
  ghost predicate Forwarded(e: Entry, lines: seq<string>) {
    e.ts >= MIN_NS && exists line :: line in lines && Names(line, e)
  }

  lemma StillForwarded(e: Entry, lines: seq<string>, lines': seq<string>)
    requires Forwarded(e, lines) && lines <= lines'
    ensures Forwarded(e, lines')
  {
    hide Names;
    var line :| line in lines && Names(line, e);
    assert line in lines';
  }

  /** A line that the fast path forwards: it parses, its timestamp is in nanoseconds and its
      measurement is wanted. */
  predicate Forwardable(line: string, measurements: seq<string>) {
    var r := Parse(line);
    r.Parsed? && MIN_NS <= r.ts <= MAX_NS && (measurements == [] || r.measurement in measurements)
  }

  function SplitLines(body: string): (lines: seq<string>)
    ensures |lines| > 0
    decreases |body|
  {
    var n := LineEnd(body);
    if n == |body| then [body] else [body[..n]] + SplitLines(body[n + 1..])
  }

  function LineEnd(body: string): (n: nat)
    ensures n <= |body|
  {
    if body == [] || body[0] == '\n' then 0 else 1 + LineEnd(body[1..])
  }

  function ForwardedOf(lines: seq<string>, measurements: seq<string>): (r: seq<string>)
    ensures forall l | l in r :: l in lines && l != [] && Forwardable(l, measurements)
  {
    if lines == [] then []
    else
      var n := |lines| - 1;
      ForwardedOf(lines[..n], measurements)
      + if lines[n] != [] && Forwardable(lines[n], measurements) then [lines[n]] else []
  }

  function Joined(lines: seq<string>): string {
    if lines == [] then [] else Joined(lines[..|lines| - 1]) + lines[|lines| - 1] + ['\n']
  }

  function Concatenated(texts: seq<string>): string {
    if texts == [] then [] else Concatenated(texts[..|texts| - 1]) + texts[|texts| - 1]
  }

  lemma {:induction false} JoinedConcat(a: seq<string>, b: seq<string>)
    ensures Joined(a + b) == Joined(a) + Joined(b)
  {
    if b == [] {
      assert a + b == a;
    } else {
      var n := |b| - 1;
      assert (a + b)[..|a + b| - 1] == a + b[..n];
      JoinedConcat(a, b[..n]);
      assert Joined(a) + Joined(b[..n]) + b[n] + ['\n'] == Joined(a) + (Joined(b[..n]) + b[n] + ['\n']);
    }
  }

  // ---------------------------------------------------------------- the lines of a body

  /** Lines with a newline between any two of them. */
  function Separated(lines: seq<string>): string {
    if lines == [] then []
    else if |lines| == 1 then lines[0]
    else lines[0] + ['\n'] + Separated(lines[1..])
  }

  lemma {:induction false} LineEndIs(body: string)
    ensures var n := LineEnd(body);
            '\n' !in body[..n] && (n < |body| ==> body[n] == '\n')
  {
    if body != [] && body[0] != '\n' {
      LineEndIs(body[1..]);
      var n := LineEnd(body[1..]);
      assert body[..n + 1] == [body[0]] + body[1..][..n];
    }
  }

  /** No line holds a newline, and with newlines between them the lines are the body. */
  lemma {:induction false} LinesOfBody(body: string)
    ensures forall l | l in SplitLines(body) :: '\n' !in l
    ensures Separated(SplitLines(body)) == body
    decreases |body|
  {
    hide LineEnd;
    LineEndIs(body);
    var n := LineEnd(body);
    if n < |body| {
      LinesOfBody(body[n + 1..]);
      var rest := SplitLines(body[n + 1..]);
      SeparatedCons(body[..n], rest);
      assert body == body[..n] + ['\n'] + body[n + 1..];
    } else {
      assert body[..n] == body;
    }
  }

  lemma SeparatedCons(line: string, rest: seq<string>)
    requires rest != []
    ensures Separated([line] + rest) == line + ['\n'] + Separated(rest)
  {
    assert ([line] + rest)[1..] == rest;
  }

  lemma NewlineAt(body: string, n: nat, m: nat)
    requires n <= |body| && '\n' !in body[..n] && (n < |body| ==> body[n] == '\n')
    requires m < |body| && '\n' !in body[..m] && body[m] == '\n'
    ensures n == m
  {
  }

  /** There is only one way to split a body into such lines. */
  lemma {:induction false} OnlyLines(lines: seq<string>)
    requires lines != [] && forall l | l in lines :: '\n' !in l
    ensures SplitLines(Separated(lines)) == lines
  {
    hide LineEnd;
    var body := Separated(lines);
    var l, rest := lines[0], lines[1..];
    LineEndIs(body);
    var n := LineEnd(body);
    assert l in lines;
    if rest == [] {
      assert n == |body|;
      assert lines == [l];
    } else {
      assert forall k | k in rest :: k in lines;
      OnlyLines(rest);
      var tail := Separated(rest);
      assert body == l + ['\n'] + tail && body[|l|] == '\n';
      assert body[..|l|] == l;
      NewlineAt(body, n, |l|);
      assert body[|l| + 1..] == tail;
    }
  }

  /** A body of terminated lines, as InfluxDB pushes them. */
  lemma {:induction false} TerminatedLines(lines: seq<string>)
    requires forall l | l in lines :: '\n' !in l
    ensures SplitLines(Joined(lines)) == lines + [[]]
  {
    JoinedIsSeparated(lines);
    OnlyLines(lines + [[]]);
  }

  lemma {:induction false} SeparatedSnoc(lines: seq<string>, last: string)
    requires lines != []
    ensures Separated(lines + [last]) == Separated(lines) + ['\n'] + last
  {
    var l, rest := lines[0], lines[1..];
    assert (lines + [last])[1..] == rest + [last];
    if rest == [] {
      assert lines + [last] == [l, last];
    } else {
      SeparatedSnoc(rest, last);
      var s := Separated(rest);
      assert l + ['\n'] + (s + ['\n'] + last) == l + ['\n'] + s + ['\n'] + last;
    }
  }

  lemma SeparatedFew(line: string)
    ensures Separated([line]) == line
  {
  }

  lemma {:induction false} JoinedIsSeparated(lines: seq<string>)
    ensures Joined(lines) == Separated(lines + [[]])
  {
    hide Separated;
    if lines == [] {
      SeparatedFew([]);
      assert lines + [[]] == [[]];
    } else {
      var n := |lines| - 1;
      SeparatedSnoc(lines, []);
      if n == 0 {
        SeparatedFew(lines[0]);
        assert lines == [lines[0]] && lines[..0] == [] && Joined([]) == [];
      } else {
        JoinedIsSeparated(lines[..n]);
        SeparatedSnoc(lines[..n], []);
        SeparatedSnoc(lines[..n], lines[n]);
        assert lines == lines[..n] + [lines[n]];
      }
    }
  }

  // ---------------------------------------------------------------- the lines that are forwarded

  predicate Wanted(line: string, measurements: seq<string>) {
    line != [] && Forwardable(line, measurements)
  }

  /** Forwarding a list of lines is forwarding its parts, in order. */
  lemma {:induction false} ForwardedConcat(a: seq<string>, b: seq<string>, measurements: seq<string>)
    ensures ForwardedOf(a + b, measurements) == ForwardedOf(a, measurements) + ForwardedOf(b, measurements)
  {
    hide Forwardable;
    if b == [] {
      assert a + b == a;
    } else {
      var n := |b| - 1;
      assert (a + b)[..|a + b| - 1] == a + b[..n] && (a + b)[|a + b| - 1] == b[n];
      ForwardedConcat(a, b[..n], measurements);
    }
  }

  /** Every wanted line is forwarded, and no other. */
  lemma {:induction false} ForwardedIff(lines: seq<string>, measurements: seq<string>, l: string)
    ensures l in ForwardedOf(lines, measurements) <==> l in lines && Wanted(l, measurements)
  {
    hide Forwardable;
    if lines != [] {
      var n := |lines| - 1;
      ForwardedIff(lines[..n], measurements, l);
      assert lines == lines[..n] + [lines[n]];
    }
  }

  lemma LastForwarded(lines: seq<string>, measurements: seq<string>)
    requires lines != []
    ensures var n := |lines| - 1;
            ForwardedOf(lines, measurements)
            == ForwardedOf(lines[..n], measurements) + if Wanted(lines[n], measurements) then [lines[n]] else []
  {
    hide Forwardable;
  }

  /** If all lines are wanted, all are forwarded, as often and in the order they came. */
  lemma {:induction false} AllForwarded(lines: seq<string>, measurements: seq<string>)
    requires forall l | l in lines :: Wanted(l, measurements)
    ensures ForwardedOf(lines, measurements) == lines
  {
    hide Wanted, Forwardable;
    if lines != [] {
      var n := |lines| - 1;
      assert Wanted(lines[n], measurements);
      AllForwarded(lines[..n], measurements);
      LastForwarded(lines, measurements);
      assert lines == lines[..n] + [lines[n]];
    }
  }

  lemma NotWanted(measurements: seq<string>)
    ensures ForwardedOf([[]], measurements) == []
  {
    var none: seq<string> := [[]];
    assert none[..0] == [];
  }

  lemma SomeForwarded(lines: seq<string>, measurements: seq<string>)
    ensures ForwardedOf(lines, measurements) != [] <==> exists l :: l in lines && Wanted(l, measurements)
  {
    hide ForwardedOf, Wanted;
    var sent := ForwardedOf(lines, measurements);
    if sent != [] {
      ForwardedIff(lines, measurements, sent[0]);
    }
    if l :| l in lines && Wanted(l, measurements) {
      ForwardedIff(lines, measurements, l);
    }
  }

  lemma PayloadAppended(payloads: seq<string>, lines: seq<string>, sent: seq<string>)
    requires Concatenated(payloads) == Joined(lines)
    ensures Concatenated(payloads + [Joined(sent)]) == Joined(lines + sent)
  {
    assert (payloads + [Joined(sent)])[..|payloads|] == payloads;
    JoinedConcat(lines, sent);
  }

  lemma NoEntries()
    ensures EntriesOf([]) == []
  {
  }

  /** The appended lines, the entries to register, and the contents of the dedup set with its last id. */
  datatype FastView = FastView(lines: seq<string>, waiting: seq<Entry>, contents: set<Entry>, used: nat)

  class FastPath {
    const dedup: Dedup
    const enabled: bool
    const maxBatch: nat
    const measurements: seq<string>
    /** The payloads of the frames appended to the WAL. */
    var payloads: seq<string>
    /** The lines in those payloads. */
    ghost var lines: seq<string>
    /** What the running handlers have appended and will register. */
    var waiting: seq<Entry>

    /** Whatever the dedup set holds, or is about to, was appended to the WAL before. */
    ghost predicate Valid()
      reads this, dedup
    {
      && dedup.Valid() && Concatenated(payloads) == Joined(lines)
      && (forall e | e in dedup.contents :: Forwarded(e, lines))
      && (forall e | e in waiting :: Forwarded(e, lines))
    }

    constructor (window: int, on: bool, max: nat, wanted: seq<string>)
      ensures Valid() && fresh(dedup) && lines == [] && waiting == [] && dedup.contents == {} && dedup.nextID == 0
      ensures enabled == on && maxBatch == max && measurements == wanted
    {
      dedup := new Dedup(window);
      enabled, maxBatch, measurements := on, max, wanted;
      payloads, lines, waiting := [], [], [];
    }

    /** Whether a push in this environment is appended. */
    ghost predicate Accepts(body: string, env: Push) {
      && enabled && 0 < |body| <= maxBatch && !env.diskNearlyFull
      && ForwardedOf(SplitLines(body), measurements) != [] && env.encodes && env.appends
    }

    /** The forwardable lines of a pushed body are appended as one frame or not at all. */
    method AppendLines(body: string, env: Push)
      requires Valid()
      modifies this
      ensures Valid()
      ensures var sent := ForwardedOf(SplitLines(body), measurements);
              if Accepts(body, env)
              then && payloads == old(payloads) + [Joined(sent)] && lines == old(lines) + sent
                   && waiting == old(waiting) + EntriesOf(sent)
              else payloads == old(payloads) && lines == old(lines) && waiting == old(waiting)
    {
      hide Dedup.Valid, Parse, Names, Joined, ForwardedOf, SplitLines, Concatenated, KeysFor, EntriesOf, Forwarded;
      if !enabled || |body| == 0 || |body| > maxBatch || env.diskNearlyFull {
        return;
      }
      var out, keys := Collect(body);
      ghost var sent := ForwardedOf(SplitLines(body), measurements);
      JoinedEmpty(sent);
      if |out| == 0 {
        return;
      }
      if !env.encodes || !env.appends {
        return;
      }
      PayloadAppended(payloads, lines, sent);
      KeysAreEntries(sent, keys);
      ghost var was := lines;
      payloads, lines := payloads + [out], lines + sent;
      KeysForwarded(sent, keys, lines);
      forall e | e in dedup.contents || e in waiting
        ensures Forwarded(e, lines)
      {
        StillForwarded(e, was, lines);
      }
      waiting := waiting + keys;
    }

    /** One of the appended entries is registered. */
    method RegisterAt(i: nat, now: int)
      requires Valid() && i < |waiting|
      modifies this`waiting, dedup
      ensures Valid() && waiting == old(waiting[..i] + waiting[i + 1..])
      ensures (dedup.contents, dedup.nextID)
              == Registered(old(dedup.contents), old(dedup.nextID), old(waiting[i]), now - dedup.retention)
    {
      hide Dedup.Valid, Names, Kept, OfSeries;
      var e := waiting[i];
      assert e in waiting;
      KeptIsPart(dedup.contents, now - dedup.retention);
      dedup.Add(e.series, e.ts, now);
      waiting := waiting[..i] + waiting[i + 1..];
    }

    /** What the handlers and the poller see of this. */
    ghost function View(): FastView
      reads this, dedup
    {
      FastView(lines, waiting, dedup.contents, dedup.nextID)
    }

    /** A step appends the forwardable lines of a body, or registers what is waiting at a position. */
    ghost function After(v: FastView, step: FastStep): FastView {
      match step
      case Append(body, push) =>
        var sent := if Accepts(body, push) then ForwardedOf(SplitLines(body), measurements) else [];
        v.(lines := v.lines + sent, waiting := v.waiting + EntriesOf(sent))
      case Register(i, now) =>
        if i >= |v.waiting| then v
        else
          var (c, used) := Registered(v.contents, v.used, v.waiting[i], now - dedup.retention);
          v.(waiting := v.waiting[..i] + v.waiting[i + 1..], contents := c, used := used)
    }

    ghost function AfterAll(v: FastView, steps: seq<FastStep>): FastView {
      if steps == [] then v else After(AfterAll(v, steps[..|steps| - 1]), steps[|steps| - 1])
    }

    /** The steps before each of the first `n` looks. */
    ghost function AfterLooks(v: FastView, during: nat -> seq<FastStep>, n: nat): FastView {
      if n == 0 then v else AfterAll(AfterLooks(v, during, n - 1), during(n - 1))
    }

    lemma {:induction false} Undisturbed(v: FastView, during: nat -> seq<FastStep>, n: nat)
      requires forall i :: during(i) == []
      ensures AfterLooks(v, during, n) == v
    {
      if n > 0 {
        Undisturbed(v, during, n - 1);
      }
    }

    /** The handlers of any number of pushes, interleaved step by step. */
    method Concurrently(steps: seq<FastStep>)
      requires Valid()
      modifies this, dedup
      ensures Valid() && old(lines) <= lines && View() == AfterAll(old(View()), steps)
    {
      hide Valid, Accepts, ForwardedOf, SplitLines, EntriesOf, Registered, Joined;
      for k := 0 to |steps|
        invariant Valid() && old(lines) <= lines && View() == AfterAll(old(View()), steps[..k])
      {
        assert steps[..k + 1][..k] == steps[..k];
        NoEntries();
        match steps[k] {
          case Append(body, push) => AppendLines(body, push);
          case Register(i, now) =>
            if i < |waiting| {
              RegisterAt(i, now);
            }
        }
      }
      assert steps[..|steps|] == steps;
    }

    /** One push served without interruption: its lines are appended and then all registered, in order, or
        neither happens. */
    method Serve(body: string, env: Push, clock: nat -> int)
      requires Valid()
      modifies this, dedup
      ensures Valid() && waiting == old(waiting)
      ensures var sent := ForwardedOf(SplitLines(body), measurements);
              if Accepts(body, env)
              then && payloads == old(payloads) + [Joined(sent)] && lines == old(lines) + sent
                   && (dedup.contents, dedup.nextID)
                      == AllRegistered(old(dedup.contents), old(dedup.nextID), EntriesOf(sent), clock, dedup.retention)
              else payloads == old(payloads) && lines == old(lines) && dedup.contents == old(dedup.contents)
    {
      hide Valid, Accepts, Joined, ForwardedOf, SplitLines, AllRegistered, EntriesOf;
      var n := |waiting|;
      AppendLines(body, env);
      if |waiting| == n {
        NoneRegistered(dedup.contents, dedup.nextID, clock, dedup.retention);
      }
      assert waiting[n..] == if Accepts(body, env) then EntriesOf(ForwardedOf(SplitLines(body), measurements)) else [];
      RegisterFrom(n, clock);
    }

    /** A pushed body of terminated lines: all wanted ones are forwarded in order and registered. */
    method ServeLines(batch: seq<string>, env: Push, clock: nat -> int)
      requires Valid() && forall l | l in batch :: '\n' !in l
      modifies this, dedup
      ensures Valid() && waiting == old(waiting)
      ensures var accepted := && enabled && 0 < |Joined(batch)| <= maxBatch && !env.diskNearlyFull && env.encodes
                              && env.appends && exists l :: l in batch && Wanted(l, measurements);
              var sent := if accepted then ForwardedOf(batch, measurements) else [];
              && lines == old(lines) + sent
              && (accepted ==>
                    (dedup.contents, dedup.nextID)
                    == AllRegistered(old(dedup.contents), old(dedup.nextID), EntriesOf(sent), clock, dedup.retention))
              && (accepted && (forall l | l in batch :: Wanted(l, measurements)) ==> sent == batch)
    {
      hide Valid, Joined, ForwardedOf, SplitLines, AllRegistered, EntriesOf, Wanted, Registered;
      TerminatedLines(batch);
      ForwardedConcat(batch, [[]], measurements);
      NotWanted(measurements);
      assert ForwardedOf(SplitLines(Joined(batch)), measurements) == ForwardedOf(batch, measurements);
      SomeForwarded(batch, measurements);
      if forall l | l in batch :: Wanted(l, measurements) {
        AllForwarded(batch, measurements);
      }
      Serve(Joined(batch), env, clock);
    }

    /** Registers the entries from position `n` on, in order. */
    method RegisterFrom(n: nat, clock: nat -> int)
      requires Valid() && n <= |waiting|
      modifies this`waiting, dedup
      ensures Valid() && waiting == old(waiting[..n])
      ensures (dedup.contents, dedup.nextID)
              == AllRegistered(old(dedup.contents), old(dedup.nextID), old(waiting[n..]), clock, dedup.retention)
    {
      hide Valid, Registered;
      ghost var was, keys := waiting[..n], waiting[n..];
      ghost var c, used := dedup.contents, dedup.nextID;
      var count := |waiting| - n;
      assert keys[..0] == [] && keys[0..] == keys;
      for k := 0 to count
        invariant Valid() && waiting == was + keys[k..]
        invariant (dedup.contents, dedup.nextID) == AllRegistered(c, used, keys[..k], clock, dedup.retention)
      {
        assert keys[..k + 1][..k] == keys[..k];
        assert waiting[n] == keys[k] && waiting[..n] + waiting[n + 1..] == was + keys[k + 1..];
        RegisterAt(n, clock(k));
      }
      assert keys[..count] == keys;
    }

    /** A restart forgets what was forwarded and what was about to be registered, not what is in the WAL. */
    method Restart()
      requires Valid()
      modifies this`waiting, dedup
      ensures Valid() && dedup.contents == {} && waiting == []
    {
      hide Dedup.Valid, Forwarded;
      waiting := [];
      dedup.Forget();
    }

    lemma EntriesForwarded()
      requires Valid()
      ensures dedup.Valid() && forall e | e in dedup.contents :: Forwarded(e, lines) && e.ts >= SECOND
    {
    }

    /** The poller tells where its window starts: what lies before by more than the retention is forgotten. */
    method SetCursor(cursor: int)
      requires Valid()
      modifies dedup
      ensures Valid() && dedup.contents == Kept(old(dedup.contents), cursor - dedup.retention)
    {
      hide Dedup.Valid, Forwarded, Kept;
      KeptIsPart(dedup.contents, cursor - dedup.retention);
      dedup.SetCursor(cursor);
    }

    /** One look into the set, after other handlers took some steps. */
    method LookUp(p: Point, before: seq<FastStep>) returns (hit: bool)
      requires Valid()
      modifies this, dedup
      ensures Valid() && old(lines) <= lines && (hit <==> EntryFor(p) in dedup.contents)
      ensures forall e | e in dedup.contents :: Forwarded(e, lines)
      ensures View() == AfterAll(old(View()), before)
    {
      hide Valid, SeriesKey, Forwarded;
      Concurrently(before);
      EntriesForwarded();
      var key := SeriesKeyOf(p.measurement, p.tags);
      hit := dedup.Contains(key, p.ts);
    }

    /** Compacts the points that are not yet forwarded to the front, in place and in order. Other handlers
        may append and register before each look into the set; `seen` is what the set held at each. */
    method Filter(points: array<Point>, during: nat -> seq<FastStep>) returns (n: nat, ghost seen: seq<set<Entry>>)
      requires Valid()
      modifies this, dedup, points
      ensures Valid() && old(lines) <= lines
      ensures n <= points.Length == |seen| && points[..n] == Unforwarded(old(points[..]), seen)
      ensures forall s, e | s in seen && e in s :: Forwarded(e, lines)
      ensures View() == AfterLooks(old(View()), during, points.Length)
      ensures forall i: nat | i < points.Length :: seen[i] == AfterLooks(old(View()), during, i + 1).contents
    {
      hide Valid, EntryFor, Forwarded, Unforwarded, After;
      ghost var was := points[..];
      n, seen := 0, [];
      NothingUnforwarded();
      for i := 0 to points.Length
        invariant Valid() && old(lines) <= lines && |seen| == i
        invariant n <= i && points[..n] == Unforwarded(was[..i], seen)
        invariant forall k | i <= k < points.Length :: points[k] == was[k]
        invariant forall s, e | s in seen && e in s :: Forwarded(e, lines)
        invariant View() == AfterLooks(old(View()), during, i)
        invariant forall k: nat | k < i :: seen[k] == AfterLooks(old(View()), during, k + 1).contents
      {
        ghost var before := lines;
        var hit := LookUp(points[i], during(i));
        SeenForwarded(seen, before, lines);
        UnforwardedSnoc(was, i, seen, dedup.contents);
        seen := seen + [dedup.contents];
        if !hit {
          points[n] := points[i];
          n := n + 1;
        }
      }
      assert was[..points.Length] == was;
    }

    /** Filters the body line by line. */
    method Collect(body: string) returns (out: string, keys: seq<Entry>)
      ensures out == Joined(ForwardedOf(SplitLines(body), measurements))
      ensures KeysFor(ForwardedOf(SplitLines(body), measurements), keys)
    {
      hide SplitLines, Parse, ForwardedOf, Joined, KeysFor;
      var all := SplitBody(body);
      out, keys := [], [];
      NothingForwarded(measurements);
      assert all[..0] == [];
      for i := 0 to |all|
        invariant out == Joined(ForwardedOf(all[..i], measurements))
        invariant KeysFor(ForwardedOf(all[..i], measurements), keys)
      {
        var line := all[i];
        ForwardedLast(all, i, measurements);
        assert ForwardedOf(all[..i], measurements) + [] == ForwardedOf(all[..i], measurements);
        var r := ParseLine(line);
        if line != [] && r.Parsed? && MIN_NS <= r.ts <= MAX_NS &&
           (measurements == [] || r.measurement in measurements) {
          var key := SeriesKeyFromPairs(r.measurement, r.tags);
          JoinedLast(ForwardedOf(all[..i], measurements), line);
          KeysLast(ForwardedOf(all[..i], measurements), keys, line, Entry(key, r.ts));
          out := out + line + ['\n'];
          keys := keys + [Entry(key, r.ts)];
        }
      }
      assert all[..|all|] == all;
    }
  }

  lemma SeenForwarded(seen: seq<set<Entry>>, lines: seq<string>, lines': seq<string>)
    requires (forall s, e | s in seen && e in s :: Forwarded(e, lines)) && lines <= lines'
    ensures forall s, e | s in seen && e in s :: Forwarded(e, lines')
  {
    hide Forwarded;
    forall s, e | s in seen && e in s
      ensures Forwarded(e, lines')
    {
      StillForwarded(e, lines, lines');
    }
  }

  lemma KeysForwarded(sent: seq<string>, keys: seq<Entry>, lines: seq<string>)
    requires KeysFor(sent, keys) && forall l | l in sent :: l in lines
    ensures forall e | e in keys :: Forwarded(e, lines)
  {
    hide Names;
    forall e | e in keys
      ensures Forwarded(e, lines)
    {
      var i :| 0 <= i < |keys| && keys[i] == e;
      assert sent[i] in lines;
    }
  }

  /** The points that the set did not hold when they were looked up, in order. */
  ghost function Unforwarded(points: seq<Point>, seen: seq<set<Entry>>): seq<Point>
    requires |seen| == |points|
  {
    if points == [] then []
    else
      var n := |points| - 1;
      Unforwarded(points[..n], seen[..n]) + if EntryFor(points[n]) in seen[n] then [] else [points[n]]
  }

  lemma NothingUnforwarded()
    ensures Unforwarded([], []) == []
  {
  }

  lemma UnforwardedSnoc(points: seq<Point>, i: nat, seen: seq<set<Entry>>, c: set<Entry>)
    requires i < |points| && |seen| == i
    ensures Unforwarded(points[..i + 1], seen + [c])
            == Unforwarded(points[..i], seen) + if EntryFor(points[i]) in c then [] else [points[i]]
  {
    assert points[..i + 1][..i] == points[..i] && (seen + [c])[..i] == seen;
  }

  lemma KeptIsPart(c: set<Entry>, cutNs: int)
    ensures Kept(c, cutNs) <= c
  {
  }

  /** What a line is registered as. */
  ghost function EntryOfLine(line: string): Entry
    requires Parse(line).Parsed?
  {
    var r := Parse(line);
    Entry(KeyFromPairs(r.measurement, r.tags), r.ts)
  }

  ghost function EntriesOf(lines: seq<string>): seq<Entry>
    requires forall l | l in lines :: Parse(l).Parsed?
  {
    seq(|lines|, i requires 0 <= i < |lines| => EntryOfLine(lines[i]))
  }

  /** The dedup set after registering the keys in order. */
  ghost function AllRegistered(c: set<Entry>, used: nat, keys: seq<Entry>, clock: nat -> int, retention: int)
    : (set<Entry>, nat)
  {
    if keys == [] then (c, used)
    else
      var n := |keys| - 1;
      var before := AllRegistered(c, used, keys[..n], clock, retention);
      Registered(before.0, before.1, keys[n], clock(n) - retention)
  }

  lemma NoneRegistered(c: set<Entry>, used: nat, clock: nat -> int, retention: int)
    ensures AllRegistered(c, used, [], clock, retention) == (c, used)
  {
  }

  lemma KeysAreEntries(lines: seq<string>, keys: seq<Entry>)
    requires KeysFor(lines, keys)
    ensures forall l | l in lines :: Parse(l).Parsed?
    ensures EntriesOf(lines) == keys
  {
    hide Parse;
  }

  /** Each key is the series and the timestamp of its line. */
  ghost predicate KeysFor(lines: seq<string>, keys: seq<Entry>) {
    |keys| == |lines| && forall i | 0 <= i < |keys| :: Names(lines[i], keys[i]) && MIN_NS <= keys[i].ts <= MAX_NS
  }

  lemma KeysLast(lines: seq<string>, keys: seq<Entry>, line: string, key: Entry)
    requires KeysFor(lines, keys) && Names(line, key) && MIN_NS <= key.ts <= MAX_NS
    ensures KeysFor(lines + [line], keys + [key])
  {
    hide Names;
  }

  lemma NothingForwarded(measurements: seq<string>)
    ensures ForwardedOf([], measurements) == [] && Joined([]) == [] && KeysFor([], [])
  {
  }

  lemma JoinedLast(lines: seq<string>, line: string)
    ensures Joined(lines + [line]) == Joined(lines) + line + ['\n']
  {
    assert (lines + [line])[..|lines|] == lines;
  }

  lemma ForwardedLast(all: seq<string>, i: nat, measurements: seq<string>)
    requires i < |all|
    ensures ForwardedOf(all[..i + 1], measurements)
            == ForwardedOf(all[..i], measurements)
               + if all[i] != [] && Forwardable(all[i], measurements) then [all[i]] else []
  {
    assert all[..i + 1][..i] == all[..i];
  }

  lemma JoinedEmpty(lines: seq<string>)
    ensures Joined(lines) == [] <==> lines == []
  {
  }

  method SplitBody(body: string) returns (lines: seq<string>)
    ensures lines == SplitLines(body)
  {
    lines := [];
    var rest := body;
    while true
      invariant lines + SplitLines(rest) == SplitLines(body)
      decreases |rest|
    {
      var n := FindLineEnd(rest);
      if n == |rest| {
        lines := lines + [rest];
        return;
      }
      lines := lines + [rest[..n]];
      rest := rest[n + 1..];
    }
  }

  method FindLineEnd(s: string) returns (n: nat)
    ensures n == LineEnd(s)
  {
    n := 0;
    while n < |s| && s[n] != '\n'
      invariant n <= |s| && n + LineEnd(s[n..]) == LineEnd(s)
    {
      assert s[n..][1..] == s[n + 1..];
      n := n + 1;
    }
  }
}

/** What the poller loses by skipping rows whose series and timestamp were pushed before: the fast path
    compares series and timestamp only, never the fields (internal/sender/fastpath.go). */
module FieldLoss {
  import opened SeriesKeys
  import opened LineProtocol
  import opened LineParse
  import opened LineRoundTrip
  import opened TagSection
  import opened QuoteScan
  import opened FastDedup
  import opened FastPath
  import opened Text
  import Rows

  // ---------------------------------------------------------------- what the target holds

  /** Writing the point sets this field. */
  ghost predicate Sets(p: Point, e: Entry, field: string) {
    PrintLine(p).Line? && EntryFor(p) == e && field in p.fields && !p.fields[field].NotFinite?
  }

  /** What the target holds for a field of a series at a timestamp after these points were written: fields
      of one series and timestamp are merged, and a later value replaces an earlier one. */
  ghost function Stored(points: seq<Point>, e: Entry, field: string): Option<Value> {
    if points == [] then None
    else
      var n := |points| - 1;
      if Sets(points[n], e, field) then Some(points[n].fields[field]) else Stored(points[..n], e, field)
  }

  lemma StoredSnoc(points: seq<Point>, p: Point, e: Entry, field: string)
    ensures Stored(points + [p], e, field)
            == if Sets(p, e, field) then Some(p.fields[field]) else Stored(points, e, field)
  {
    assert (points + [p])[..|points|] == points;
  }

  /** The target holds the same after either. */
  ghost predicate SameTarget(a: seq<Point>, b: seq<Point>) {
    forall e, field :: Stored(a, e, field) == Stored(b, e, field)
  }

  // ---------------------------------------------------------------- when skipping loses nothing

  /** Row `i` is skipped although it is the one that decides the field. */
  ghost predicate Skips(rows: seq<Point>, seen: seq<set<Entry>>, i: nat, e: Entry, field: string)
    requires |seen| == |rows| && i < |rows|
  {
    && EntryFor(rows[i]) in seen[i] && Sets(rows[i], e, field)
    && forall j | i < j < |rows| :: !Sets(rows[j], e, field)
  }

  /** The value of such a field is held already when its row is looked at. */
  ghost predicate HeldFor(
    sent: seq<Point>, rows: seq<Point>, seen: seq<set<Entry>>, i: nat, e: Entry, field: string)
    requires |seen| == |rows| && i < |rows|
  {
    Skips(rows, seen, i, e, field) ==>
      Stored(sent + Unforwarded(rows[..i], seen[..i]), e, field) == Some(rows[i].fields[field])
  }

  lemma {:induction false} SameFieldIff(
    sent: seq<Point>, rows: seq<Point>, seen: seq<set<Entry>>, e: Entry, field: string)
    requires |seen| == |rows|
    ensures Stored(sent + Unforwarded(rows, seen), e, field) == Stored(sent + rows, e, field)
            <==> forall i | 0 <= i < |rows| :: HeldFor(sent, rows, seen, i, e, field)
    decreases |rows|
  {
    hide Sets, Stored, EntryFor;
    if rows == [] {
    } else {
      var n := |rows| - 1;
      var kept := Unforwarded(rows[..n], seen[..n]);
      var p := rows[n];
      SameFieldIff(sent, rows[..n], seen[..n], e, field);
      assert sent + rows == (sent + rows[..n]) + [p];
      StoredSnoc(sent + rows[..n], p, e, field);
      StoredSnoc(sent + kept, p, e, field);
      if EntryFor(p) in seen[n] {
        assert Unforwarded(rows, seen) == kept;
      } else {
        assert sent + Unforwarded(rows, seen) == (sent + kept) + [p];
      }
      HeldBefore(sent, rows, seen, e, field);
      SetsIsThere(p, e, field);
      assert HeldFor(sent, rows, seen, n, e, field) <==>
          (EntryFor(p) in seen[n] && Sets(p, e, field) ==> Stored(sent + kept, e, field) == Some(p.fields[field]));
    }
  }

  lemma SetsIsThere(p: Point, e: Entry, field: string)
    ensures Sets(p, e, field) ==> field in p.fields && EntryFor(p) == e
  {
  }

  /** The last row decides a field that it sets; otherwise it changes nothing for the rows before. */
  lemma HeldBefore(sent: seq<Point>, rows: seq<Point>, seen: seq<set<Entry>>, e: Entry, field: string)
    requires |seen| == |rows| && rows != []
    ensures var n := |rows| - 1;
            forall i | 0 <= i < n ::
              HeldFor(sent, rows, seen, i, e, field) <==>
              Sets(rows[n], e, field) || HeldFor(sent, rows[..n], seen[..n], i, e, field)
  {
    hide Sets, Stored, EntryFor, Unforwarded;
    var n := |rows| - 1;
    forall i | 0 <= i < n
      ensures HeldFor(sent, rows, seen, i, e, field) <==>
              Sets(rows[n], e, field) || HeldFor(sent, rows[..n], seen[..n], i, e, field)
    {
      assert rows[..n][..i] == rows[..i] && seen[..n][..i] == seen[..i];
      assert forall j | i < j < n :: rows[..n][j] == rows[j];
      assert (forall j | i < j < |rows| :: !Sets(rows[j], e, field)) <==>
          !Sets(rows[n], e, field) && forall j | i < j < n :: !Sets(rows[..n][j], e, field);
    }
  }

  ghost predicate AllHeld(sent: seq<Point>, rows: seq<Point>, seen: seq<set<Entry>>, e: Entry, field: string)
    requires |seen| == |rows|
  {
    forall i | 0 <= i < |rows| :: HeldFor(sent, rows, seen, i, e, field)
  }

  /** Skipping the rows that were pushed before leaves the target as if all rows were written, exactly if the
      target holds already every value that a skipped row would have set for good. */
  lemma NothingLostIff(sent: seq<Point>, rows: seq<Point>, seen: seq<set<Entry>>)
    requires |seen| == |rows|
    ensures SameTarget(sent + Unforwarded(rows, seen), sent + rows)
            <==> forall e, field :: AllHeld(sent, rows, seen, e, field)
  {
    hide Stored, HeldFor, Unforwarded;
    forall e, field
      ensures Stored(sent + Unforwarded(rows, seen), e, field) == Stored(sent + rows, e, field)
              <==> AllHeld(sent, rows, seen, e, field)
    {
      SameFieldIff(sent, rows, seen, e, field);
    }
  }

  // ---------------------------------------------------------------- one row for each series and timestamp

  /** The pushed points hold every field of a skipped row with the same value. */
  ghost predicate Repeats(sent: seq<Point>, p: Point) {
    forall field | Sets(p, EntryFor(p), field) :: Stored(sent, EntryFor(p), field) == Some(p.fields[field])
  }

  ghost predicate OneRowEach(rows: seq<Point>) {
    forall i, j | 0 <= i < j < |rows| :: EntryFor(rows[i]) != EntryFor(rows[j])
  }

  lemma {:induction false} StoredBefore(
    sent: seq<Point>, rows: seq<Point>, seen: seq<set<Entry>>, e: Entry, field: string)
    requires |seen| == |rows| && forall p | p in rows :: EntryFor(p) != e
    ensures Stored(sent + Unforwarded(rows, seen), e, field) == Stored(sent, e, field)
  {
    hide Sets, Stored, EntryFor;
    if rows == [] {
      assert sent + Unforwarded(rows, seen) == sent;
    } else {
      var n := |rows| - 1;
      var kept, p := Unforwarded(rows[..n], seen[..n]), rows[n];
      StoredBefore(sent, rows[..n], seen[..n], e, field);
      StoredSnoc(sent + kept, p, e, field);
      SetsIsThere(p, e, field);
      assert p in rows;
      assert Unforwarded(rows, seen) == kept || sent + Unforwarded(rows, seen) == (sent + kept) + [p];
    }
  }

  lemma HeldIfOneRow(sent: seq<Point>, rows: seq<Point>, seen: seq<set<Entry>>, i: nat, e: Entry, field: string)
    requires |seen| == |rows| && i < |rows| && OneRowEach(rows)
    ensures HeldFor(sent, rows, seen, i, e, field)
            <==> (EntryFor(rows[i]) in seen[i] && Sets(rows[i], e, field) ==>
                    Stored(sent, e, field) == Some(rows[i].fields[field]))
  {
    hide Sets, Stored, EntryFor, Unforwarded;
    SetsIsThere(rows[i], e, field);
    if Sets(rows[i], e, field) {
      forall j | i < j < |rows|
        ensures !Sets(rows[j], e, field)
      {
        SetsIsThere(rows[j], e, field);
      }
      StoredBefore(sent, rows[..i], seen[..i], e, field);
    }
  }

  /** A source returns one row for each series and timestamp. Then skipping loses nothing exactly if each
      skipped row only repeats what was pushed. */
  lemma SkippedRowsRepeatIff(sent: seq<Point>, rows: seq<Point>, seen: seq<set<Entry>>)
    requires |seen| == |rows| && OneRowEach(rows)
    ensures SameTarget(sent + Unforwarded(rows, seen), sent + rows)
            <==> forall i | 0 <= i < |rows| && EntryFor(rows[i]) in seen[i] :: Repeats(sent, rows[i])
  {
    hide PrintLine, Stored, EntryFor, Unforwarded, HeldFor, SameTarget, OneRowEach;
    NothingLostIff(sent, rows, seen);
    forall i, e, field | 0 <= i < |rows|
      ensures HeldFor(sent, rows, seen, i, e, field)
              <==> (EntryFor(rows[i]) in seen[i] && Sets(rows[i], e, field) ==>
                      field in rows[i].fields && Stored(sent, e, field) == Some(rows[i].fields[field]))
    {
      SetsIsThere(rows[i], e, field);
      HeldIfOneRow(sent, rows, seen, i, e, field);
    }
    if forall i | 0 <= i < |rows| && EntryFor(rows[i]) in seen[i] :: Repeats(sent, rows[i]) {
      forall e, field
        ensures AllHeld(sent, rows, seen, e, field)
      {
        forall i | 0 <= i < |rows|
          ensures HeldFor(sent, rows, seen, i, e, field)
        {
          SetsIsThere(rows[i], e, field);
        }
      }
    }
    if forall e, field :: AllHeld(sent, rows, seen, e, field) {
      forall i | 0 <= i < |rows| && EntryFor(rows[i]) in seen[i]
        ensures Repeats(sent, rows[i])
      {
        var e := EntryFor(rows[i]);
        forall field | Sets(rows[i], e, field)
          ensures Stored(sent, e, field) == Some(rows[i].fields[field])
        {
          assert AllHeld(sent, rows, seen, e, field);
          SetsIsThere(rows[i], e, field);
        }
      }
    }
  }

  // ---------------------------------------------------------------- a field that is lost

  lemma {:induction false} OneLine(body: string)
    requires '\n' !in body
    ensures SplitLines(body) == [body]
  {
    EndOfLine(body);
  }

  lemma {:induction false} EndOfLine(body: string)
    requires '\n' !in body
    ensures LineEnd(body) == |body|
  {
    if body != [] {
      assert body[0] in body;
      EndOfLine(body[1..]);
    }
  }

  lemma ForwardsLine(line: string)
    requires line != [] && Forwardable(line, [])
    ensures ForwardedOf([line], []) == [line] && EntriesOf([line]) == [EntryOfLine(line)]
  {
    hide Parse;
    assert [line][..0] == [];
  }

  /** Once a line is pushed, the poller skips every row with its series and timestamp, whatever fields the row
      has. */
  method PushThenPoll(q: Point, p: Point, clock: nat -> int) returns (fast: FastPath, left: seq<Point>)
    requires PrintLine(q).Line? && Recoverable(q) && MIN_NS <= q.ts <= MAX_NS && '\n' !in PrintLine(q).text
    requires EntryFor(p) == EntryFor(q)
    ensures fresh(fast) && fast.lines == [PrintLine(q).text] && left == []
  {
    hide Parse, PrintLine, Recoverable, ForwardedOf, SplitLines, AllRegistered, SeriesKey, EntriesOf;
    hide Concatenated, Forwarded, Unforwarded, FastPath.Valid;
    var printed := LineOf(q);
    var line := printed.text;
    PushedEntry(q);
    fast := new FastPath(0, true, |line|, []);
    ghost var c := fast.dedup.contents;
    ghost var used := fast.dedup.nextID;
    assert fast.lines == [] && c == {} && used == 0;
    fast.Serve(line, Push(false, true, true), clock);
    assert fast.lines == [line];
    FirstRegistered([EntryFor(q)], clock, fast.dedup.retention);
    var rows := new Point[] [p];
    var n;
    ghost var seen;
    assert rows[..] == [p];
    n, seen := fast.Filter(rows, i => []);
    assert seen[0] in seen && seen[0] == {EntryFor(q)};
    SkippedRow(p, seen);
    left := rows[..n];
  }

  lemma PushedEntry(q: Point)
    requires PrintLine(q).Line? && Recoverable(q) && MIN_NS <= q.ts <= MAX_NS && '\n' !in PrintLine(q).text
    ensures var line := PrintLine(q).text;
            && line != [] && SplitLines(line) == [line] && Forwardable(line, []) && ForwardedOf([line], []) == [line]
            && EntriesOf([line]) == [EntryFor(q)]
  {
    hide Parse, PrintLine, Recoverable, SeriesKey, KeyFromPairs, ForwardedOf, SplitLines, EntriesOf;
    var line := PrintLine(q).text;
    SameKeyOnBothPaths(q);
    LineOfPoint(q);
    OneLine(line);
    ForwardsLine(line);
  }

  lemma FirstRegistered(keys: seq<Entry>, clock: nat -> int, retention: int)
    requires |keys| == 1
    ensures AllRegistered({}, 0, keys, clock, retention) == ({keys[0]}, 1)
  {
    var e, cut := keys[0], clock(0) - retention;
    assert keys[..0] == [];
    NoneRegistered({}, 0, clock, retention);
    var kept := FastDedup.Kept({}, cut);
    assert kept == {} && OfSeries(kept, e.series) == {} && kept + {e} == {e};
    assert Registered({}, 0, e, cut) == ({e}, 1);
  }

  lemma SkippedRow(p: Point, seen: seq<set<Entry>>)
    requires |seen| == 1 && EntryFor(p) in seen[0]
    ensures Unforwarded([p], seen) == []
  {
    assert [p][..0] == [] && seen[..0] == [];
    NothingUnforwarded();
  }

  function Sample(fields: map<string, Value>): Point {
    Point("m", map[], fields, MIN_NS)
  }

  const F := map["f" := Boolean(true)]
  const FG := map["f" := Boolean(true), "g" := Boolean(true)]

  lemma TextOfSample()
    ensures SortedKeys({}) == [] && SortedKeys({"f"}) == ["f"]
    ensures Esc("m", MEASUREMENT_SPECIAL) == "m" && FieldsPart(["f"], F) == "f=true"
  {
    OnlyKey("f");
    EscChar('m', MEASUREMENT_SPECIAL);
    EscChar('f', TAG_SPECIAL);
    assert |multiset(SortedKeys({}))| == 0;
    hide Esc, SortedKeys;
    assert ["f"][..0] == [];
    FieldsNone(F);
  }

  lemma NoNewline(n: int)
    ensures '\n' !in Decimal(n)
  {
  }

  lemma SampleEven()
    ensures EvenQuotes(Sample(F))
  {
    hide SortedKeys, Esc, Quotes, FieldQuotes;
    var q := Sample(F);
    assert q.tags.Keys == {} && q.fields.Keys == {"f"};
    TextOfSample();
    QuotesAfter('m', []);
    QuotesNone();
    QuotesOfSample();
    assert TagSection.Names("m", [], q.tags) == ['m'] + [];
  }

  lemma SampleIsRead()
    ensures var q := Sample(F);
            && PrintLine(q).Line? && Recoverable(q) && '\n' !in PrintLine(q).text
  {
    hide SortedKeys, Esc, FieldsPart, EvenQuotes, LineText, Decimal;
    var q := Sample(F);
    TextOfSample();
    SampleEven();
    NoNewline(q.ts);
    assert q.tags.Keys == {} && q.fields.Keys == {"f"};
    assert "f" in q.fields && "f" in SortedKeys(q.fields.Keys);
    LineOfPoint(q);
    assert Head(q) == "m" + ([' '] + "f=true");
  }

  lemma RowPrints()
    ensures PrintLine(Sample(FG)).Line?
  {
    var p := Sample(FG);
    KeysAreFields(p.fields);
    hide SortedKeys, LineText;
    assert "f" in p.fields && "f" in SortedKeys(p.fields.Keys) && !p.fields["f"].NotFinite?;
  }

  /** The source got two writes for one series and timestamp, of which only the first was pushed. The poller
      skips the row that holds both, and the second field never reaches the target. */
  method LosesField(clock: nat -> int) returns (fast: FastPath, left: seq<Point>)
    ensures |fast.lines| == 1 && PrintLine(Sample(F)) == Line(fast.lines[0]) && left == []
    ensures var e := EntryFor(Sample(FG));
            && Stored([Sample(F)] + left, e, "g") == None
            && Stored([Sample(F)] + [Sample(FG)], e, "g") == Some(Boolean(true))
  {
    hide PrintLine, Recoverable;
    SampleIsRead();
    RowPrints();
    fast, left := PushThenPoll(Sample(F), Sample(FG), clock);
    assert [] + [Sample(F)] == [Sample(F)] && "g" in FG && "g" !in F;
    StoredSnoc([], Sample(F), EntryFor(Sample(FG)), "g");
    StoredSnoc([Sample(F)], Sample(FG), EntryFor(Sample(FG)), "g");
  }

  // ---------------------------------------------------------------- which points a push forwards

  /** The line of a point that can be read back is forwarded by a push exactly if the poller selects the point
      too and its timestamp lies in the range of nanoseconds. */
  lemma ForwardedIffSelected(p: Point, measurements: seq<string>)
    requires PrintLine(p).Line? && p.ts <= MAX_INT64 && Recoverable(p)
    ensures Wanted(PrintLine(p).text, measurements) <==> Rows.Allows(measurements, p) && MIN_NS <= p.ts <= MAX_NS
  {
    hide Parse, PrintLine, Recoverable;
    RoundTripIff(p);
    AcceptedEndsInTimestamp(PrintLine(p).text);
  }
}

/** What the parser makes of a printed point. */
module LineRoundTrip {
  import opened Text
  import opened SeriesKeys
  import opened LineProtocol
  import opened LineParse
  import opened TagSection
  import opened QuoteScan
  import opened TagCounts

  /** No backslash in the measurement or in a tag key, and none in a tag value but directly before an
      equals sign. */
  ghost predicate Clean(p: Point) {
    '\\' !in p.measurement && forall k | k in p.tags :: CleanTag(k, p.tags[k])
  }

  /** Nothing is empty and the timestamp is not negative. */
  ghost predicate Complete(p: Point) {
    p.measurement != [] && p.ts >= 0 && forall k | k in p.tags :: k != [] && p.tags[k] != []
  }

  /** The quotes of the printed measurement, tags and field keys come in pairs. */
  ghost predicate EvenQuotes(p: Point) {
    KeysAreTags(p.tags);
    KeysAreFields(p.fields);
    !Odd(Quotes(Names(p.measurement, SortedKeys(p.tags.Keys), p.tags), false)
         + FieldQuotes(SortedKeys(p.fields.Keys), p.fields))
  }

  ghost predicate Recoverable(p: Point) {
    Complete(p) && Clean(p) && EvenQuotes(p)
  }

  // ---------------------------------------------------------------- the whole line

  lemma TimestampOf(ts: int)
    requires ts <= MAX_INT64
    ensures Timestamp(Decimal(ts)) == if ts >= 0 then Some(ts) else None
  {
    DecimalSign(ts);
    if ts >= 0 {
      ValueOfDigits(ts);
    } else {
      assert Decimal(ts)[0] in Decimal(ts);
    }
  }

  lemma NoCR(head: string, ts: int)
    ensures WithoutCR(head + [' '] + Decimal(ts)) == head + [' '] + Decimal(ts)
  {
    var line := head + [' '] + Decimal(ts);
    var digits := if ts < 0 then Digits(-ts) else Digits(ts);
    assert line[|line| - 1] == digits[|digits| - 1];
    assert digits[|digits| - 1] in digits;
  }

  lemma NotDigits(line: string, sep: int, space: nat)
    requires 0 <= sep < space < |line| && line[space] == ' '
    ensures Timestamp(line[sep + 1..]).None?
  {
    assert line[sep + 1..][space - sep - 1] == ' ';
    assert ' ' in line[sep + 1..];
  }

  lemma ParseAtSeparator(head: string, ts: int)
    requires !ScanFrom(head, START, 0).escaped && ts <= MAX_INT64
    ensures Parse(head + [' '] + Decimal(ts))
            == if ts >= 0 && !ScanFrom(head, START, 0).quoted then ParseSeries(head, ts) else Bad
  {
    hide ScanFrom, Timestamp, Decimal, ParseSeries, WithoutCR;
    TimestampOf(ts);
    NoCR(head, ts);
    DecimalPlain(ts);
    SeparatorOf(head, Decimal(ts));
    var line := head + [' '] + Decimal(ts);
    assert line[..|head|] == head && line[|head| + 1..] == Decimal(ts);
    var sep := ScanFrom(line, START, 0).space;
    if 0 <= sep < |head| {
      assert line[|head|] == ' ';
      NotDigits(line, sep, |head|);
    }
  }

  lemma TagsOfPoint(p: Point)
    ensures forall k | k in SortedKeys(p.tags.Keys) :: k in p.tags
    ensures Clean(p) <==> '\\' !in p.measurement && TagsClean(SortedKeys(p.tags.Keys), p.tags)
    ensures Complete(p) <==> p.measurement != [] && p.ts >= 0 && TagsComplete(SortedKeys(p.tags.Keys), p.tags)
  {
    hide SortedKeys, CleanTag;
    KeysAreTags(p.tags);
  }

  /** A printed point without its timestamp. */
  ghost function Head(p: Point): string {
    KeysAreTags(p.tags);
    KeysAreFields(p.fields);
    Names(p.measurement, SortedKeys(p.tags.Keys), p.tags) + ([' '] + FieldsPart(SortedKeys(p.fields.Keys), p.fields))
  }

  lemma LineOfPoint(p: Point)
    requires PrintLine(p).Line?
    ensures PrintLine(p).text == Head(p) + [' '] + Decimal(p.ts)
  {
    hide SortedKeys, FieldsPart, NoneFinite, TagsPart, Esc, Decimal;
    KeysAreTags(p.tags);
    KeysAreFields(p.fields);
    Associate(Esc(p.measurement, MEASUREMENT_SPECIAL), TagsPart(SortedKeys(p.tags.Keys), p.tags),
            [' '] + FieldsPart(SortedKeys(p.fields.Keys), p.fields));
  }

  lemma Associate(a: string, b: string, c: string)
    ensures a + (b + c) == a + b + c
  {
  }

  lemma ParsePrinted(p: Point)
    requires PrintLine(p).Line? && p.ts <= MAX_INT64
    ensures Parse(PrintLine(p).text) == if p.ts < 0 || !EvenQuotes(p) then Bad else ParseSeries(Head(p), p.ts)
  {
    hide Parse, ParseSeries, PrintLine, SortedKeys, Quotes, FieldQuotes, Names, FieldsPart, Odd, ScanFrom, Decimal;
    LineOfPoint(p);
    KeysAreTags(p.tags);
    KeysAreFields(p.fields);
    ScanHead(Names(p.measurement, SortedKeys(p.tags.Keys), p.tags), SortedKeys(p.fields.Keys), p.fields);
    ParseAtSeparator(Head(p), p.ts);
  }

  /** A printed point is read back with its measurement, sorted tags and timestamp exactly if nothing
      in them is empty or negative, no backslash is lost and the quotes come in pairs. A line with an
      odd quote or a negative timestamp is refused; a line in which no backslash is lost is read back
      or refused. */
  lemma RoundTripIff(p: Point)
    requires PrintLine(p).Line? && p.ts <= MAX_INT64
    ensures forall k | k in SortedKeys(p.tags.Keys) :: k in p.tags
    ensures var r := Parse(PrintLine(p).text);
            (&& r.Parsed? && r.measurement == p.measurement && r.ts == p.ts
             && r.tags == PairsOf(SortedKeys(p.tags.Keys), p.tags))
            <==> Recoverable(p)
    ensures !EvenQuotes(p) || p.ts < 0 ==> Parse(PrintLine(p).text) == Bad
    ensures Clean(p) && !Recoverable(p) ==> Parse(PrintLine(p).text) == Bad
    ensures var r := Parse(PrintLine(p).text);
            r.Parsed? && r.measurement == p.measurement ==> p.measurement != [] && '\\' !in p.measurement
  {
    hide Parse, ParseSeries, PrintLine, SortedKeys, PairsOf, Names, Clean, Complete, EvenQuotes;
    hide TagsClean, TagsComplete, FieldsPart;
    TagsOfPoint(p);
    ParsePrinted(p);
    KeysAreFields(p.fields);
    if p.ts >= 0 {
      var fields := FieldsPart(SortedKeys(p.fields.Keys), p.fields);
      SeriesOfPrinted(p.measurement, SortedKeys(p.tags.Keys), p.tags, fields, p.ts);
    }
  }

  // ---------------------------------------------------------------- both paths use the same key

  lemma {:induction false} MapOfPairs(keys: seq<string>, tags: map<string, string>)
    requires forall k | k in keys :: k in tags
    ensures KeysOf(PairsOf(keys, tags)) == keys
    ensures forall k | k in keys :: MapOf(PairsOf(keys, tags))[k] == tags[k]
  {
    PairAt(keys, tags);
    var pairs := PairsOf(keys, tags);
    assert KeysOf(pairs) == keys;
    forall k | k in keys
      ensures MapOf(pairs)[k] == tags[k]
    {
      ValueInMap(pairs, tags, k);
    }
  }

  lemma {:induction false} PairAt(keys: seq<string>, tags: map<string, string>)
    requires forall k | k in keys :: k in tags
    ensures |PairsOf(keys, tags)| == |keys|
    ensures forall i | 0 <= i < |keys| :: PairsOf(keys, tags)[i] == (keys[i], tags[keys[i]])
  {
    if keys != [] {
      PairAt(keys[1..], tags);
    }
  }

  lemma {:induction false} ValueInMap(pairs: seq<Pair>, tags: map<string, string>, k: string)
    requires forall i | 0 <= i < |pairs| :: pairs[i].0 in tags && pairs[i].1 == tags[pairs[i].0]
    requires k in KeysOf(pairs)
    ensures k in tags && MapOf(pairs)[k] == tags[k]
  {
    var n := |pairs| - 1;
    assert KeysOf(pairs) == KeysOf(pairs[..n]) + [pairs[n].0];
    if k != pairs[n].0 {
      ValueInMap(pairs[..n], tags, k);
    }
  }

  /** The key over the printed pairs is the key over the tags. */
  lemma KeyOfPrinted(m: string, tags: map<string, string>)
    ensures forall k | k in SortedKeys(tags.Keys) :: k in tags
    ensures KeyFromPairs(m, PairsOf(SortedKeys(tags.Keys), tags)) == SeriesKey(m, tags)
  {
    hide SortedKeys, SeriesKey, MapOf, PairsOf, KeyFromPairs, Distinct;
    KeysAreTags(tags);
    var keys := SortedKeys(tags.Keys);
    MapOfPairs(keys, tags);
    assert MapOf(PairsOf(keys, tags)) == tags;
    DistinctIsSet(keys);
    assert (set k | k in keys) == tags.Keys;
    PairsAgreeIff(m, PairsOf(keys, tags));
  }

  /** The fast path derives from the printed line the dedup key that the poller derives from the point. */
  ghost predicate SameKey(p: Point)
    requires PrintLine(p).Line?
  {
    var r := Parse(PrintLine(p).text);
    r.Parsed? && KeyFromPairs(r.measurement, r.tags) == SeriesKey(p.measurement, p.tags) && r.ts == p.ts
  }

  /** Both paths use the same key exactly if the line can be read back: however the parser misreads a
      line, it never arrives at the series of the point by accident. */
  lemma SameKeyOnBothPaths(p: Point)
    requires PrintLine(p).Line? && p.ts <= MAX_INT64
    ensures SameKey(p) <==> Recoverable(p)
  {
    hide Parse, PrintLine, SortedKeys, SeriesKey, PairsOf, KeyFromPairs, Clean, Complete, EvenQuotes;
    RoundTripIff(p);
    KeyOfPrinted(p.measurement, p.tags);
    if SameKey(p) {
      var r := Parse(PrintLine(p).text);
      SameKeySameTags(r.measurement, r.tags, p.measurement, p.tags);
      CleanIfSameKey(p);
    }
  }

  lemma SameKeySameTags(m: string, pairs: seq<Pair>, m': string, tags: map<string, string>)
    requires KeyFromPairs(m, pairs) == SeriesKey(m', tags)
    ensures m == m' && multiset(KeysOf(pairs)) == multiset(tags.Keys) && MapOf(pairs) == tags
  {
    hide SortedKeys, KeyText, Sorted;
    KeysAreTags(tags);
    var keys, sorted := SortedKeys(tags.Keys), Sorted(KeysOf(pairs));
    assert forall k | k in sorted :: k in multiset(sorted);
    assert KeyFromPairs(m, pairs) + [] == SeriesKey(m', tags) + [];
    KeyTextInjective(m, sorted, MapOf(pairs), [], m', keys, tags, []);
    assert forall k | k in KeysOf(pairs) :: k in multiset(KeysOf(pairs));
    assert forall k | k in tags :: k in multiset(KeysOf(pairs));
  }

  /** What is read has the chars of what was printed, and so no backslash was lost. */
  lemma CleanIfSameKey(p: Point)
    requires PrintLine(p).Line? && p.ts <= MAX_INT64
    requires var r := Parse(PrintLine(p).text);
             && r.Parsed? && r.measurement == p.measurement
             && multiset(KeysOf(r.tags)) == multiset(p.tags.Keys) && MapOf(r.tags) == p.tags
    ensures Clean(p)
  {
    hide Parse, ParseSeries, PrintLine, SortedKeys, PairsOf, Names, Clean, Complete, EvenQuotes, FieldsPart;
    hide TagsOf, TagsPart, TagsClean, SameCounts, MapOf, KeysOf, TagsComplete;
    TagsOfPoint(p);
    ParsePrinted(p);
    KeysAreFields(p.fields);
    var keys, fields := SortedKeys(p.tags.Keys), FieldsPart(SortedKeys(p.fields.Keys), p.fields);
    var r := Parse(PrintLine(p).text);
    SeriesOfPrinted(p.measurement, keys, p.tags, fields, p.ts);
    if keys == [] {
      TagsNone(p.tags);
    } else {
      SameSeriesSameCounts(r.tags, p.tags);
      CountsKeepAll(keys, p.tags, fields, r.tags);
    }
  }

  // ---------------------------------------------------------------- two lines that are not read back

  function Sample(value: string): Point {
    Point("m", map["k" := value], map["f" := Boolean(true)], 100)
  }

  lemma OnlyKey(k: string)
    ensures SortedKeys({k}) == [k]
  {
    var r := SortedKeys({k});
    assert |r| == |multiset(r)| == 1;
    assert r[0] in multiset(r);
  }

  lemma SampleKeys(value: string)
    ensures SortedKeys(Sample(value).tags.Keys) == ["k"] && SortedKeys(Sample(value).fields.Keys) == ["f"]
    ensures PrintLine(Sample(value)).Line?
  {
    OnlyKey("k");
    OnlyKey("f");
    hide SortedKeys, LineText;
    var p := Sample(value);
    assert p.tags.Keys == {"k"} && p.fields.Keys == {"f"};
    assert "f" in p.fields && "f" in SortedKeys(p.fields.Keys);
  }

  /** A backslash that stands elsewhere in a tag value is dropped, so the two paths use different keys. */
  lemma BackslashIsLost()
    ensures PrintLine(Sample("a\\b")).Line? && !SameKey(Sample("a\\b"))
  {
    var value := "a\\b";
    var p := Sample(value);
    SampleKeys(value);
    hide PrintLine, SortedKeys, SameKey, Complete, EvenQuotes;
    SameKeyOnBothPaths(p);
    assert "k" in p.tags && value[1] == '\\' && value[2] != '=';
  }

  /** A tag value of one quote opens a string that hides the timestamp: the parser refuses the line. */
  lemma QuoteIsRefused()
    ensures PrintLine(Sample("\"")).Line? && Parse(PrintLine(Sample("\"")).text) == Bad
  {
    var p := Sample("\"");
    SampleKeys("\"");
    QuotesOfSample();
    hide PrintLine, SortedKeys, Parse, Names, Quotes, FieldQuotes, Clean, Complete;
    RoundTripIff(p);
  }

  lemma EscChar(c: char, special: string)
    requires c !in special
    ensures Esc([c], special) == [c]
  {
    assert [c][1..] == [];
  }

  lemma QuotesAfter(c: char, rest: string)
    requires c != '\\'
    ensures Quotes([c] + rest, false) == (if c == '"' then 1 else 0) + Quotes(rest, false)
  {
    assert ([c] + rest)[1..] == rest;
  }

  lemma QuotesOfSample()
    ensures Quotes(Names("m", ["k"], map["k" := "\""]), false) == 1
    ensures FieldQuotes(["f"], map["f" := Boolean(true)]) == 0
  {
    EscChar('m', MEASUREMENT_SPECIAL);
    EscChar('k', TAG_SPECIAL);
    EscChar('"', TAG_SPECIAL);
    EscChar('f', TAG_SPECIAL);
    QuotesAfter('m', ",k=\"");
    QuotesAfter(',', "k=\"");
    QuotesAfter('k', "=\"");
    QuotesAfter('=', "\"");
    QuotesAfter('"', []);
    QuotesAfter('f', []);
    hide Esc, Quotes;
    NamesOfSample();
    assert "m,k=\"" == ['m'] + ",k=\"" && ",k=\"" == [','] + "k=\"" && "k=\"" == ['k'] + "=\"";
    assert "=\"" == ['='] + "\"" && "\"" == ['"'] + [] && "f" == ['f'] + [];
    assert Quotes([], false) == 0 by { QuotesNone(); }
    assert ["f"][..0] == [];
  }

  lemma QuotesNone()
    ensures Quotes([], false) == 0
  {
  }

  lemma NamesOfSample()
    ensures Names("m", ["k"], map["k" := "\""]) == "m,k=\""
  {
    hide Esc;
    EscChar('m', MEASUREMENT_SPECIAL);
    EscChar('k', TAG_SPECIAL);
    EscChar('"', TAG_SPECIAL);
    assert ["k"][1..] == [];
  }
}

/** Points and the keys that identify them (internal/model/point.go, internal/model/lineparse.go). */
module SeriesKeys {
  import opened Text

  /** The decimal text of a finite number. */
  type FloatText = s: string | s != [] && forall c | c in s :: c in "+-.0123456789e" witness "0"

  /** A field value; a finite number is its text. */
  datatype Value = Float(text: FloatText) | NotFinite | Int(n: int) | Str(s: string) | Boolean(b: bool) | Other

  datatype Point = Point(measurement: string, tags: map<string, string>, fields: map<string, Value>, ts: int)

  type Pair = (string, string)

  // ---------------------------------------------------------------- sorted keys

  /** The elements of a set in byte order. */
  ghost function SortedKeys(keys: set<string>): (r: seq<string>)
    ensures multiset(r) == multiset(keys)
    decreases |keys|
  {
    if keys == {} then [] else
      var k :| k in keys;
      Insert(SortedKeys(keys - {k}), k)
  }

  lemma {:induction false} SortedKeysOrdered(keys: set<string>)
    ensures Ordered(SortedKeys(keys))
    decreases |keys|
  {
    if keys != {} {
      var k :| k in keys && SortedKeys(keys) == Insert(SortedKeys(keys - {k}), k);
      SortedKeysOrdered(keys - {k});
      InsertOrdered(SortedKeys(keys - {k}), k);
    }
  }

  lemma SortedKeysOf(list: seq<string>, keys: set<string>)
    requires multiset(list) == multiset(keys)
    ensures Sorted(list) == SortedKeys(keys)
  {
    SortedOrdered(list);
    SortedKeysOrdered(keys);
    OrderedUnique(Sorted(list), SortedKeys(keys));
  }

  lemma InSortedKeys(keys: set<string>, k: string)
    ensures k in SortedKeys(keys) <==> k in keys
  {
    assert k in SortedKeys(keys) <==> k in multiset(SortedKeys(keys));
  }

  /** Collects the keys in any order, then sorts them. */
  method SortKeys(keys: set<string>) returns (r: seq<string>)
    ensures r == SortedKeys(keys)
  {
    var rest, list := keys, [];
    while rest != {}
      invariant rest <= keys && multiset(list) == multiset(keys - rest)
      decreases |rest|
    {
      var k :| k in rest;
      assert keys - (rest - {k}) == (keys - rest) + {k};
      rest, list := rest - {k}, list + [k];
    }
    assert keys - rest == keys;
    SortedKeysOf(list, keys);
    r := Sorted(list);
  }

  // ---------------------------------------------------------------- key text

  function LenPrefixed(s: string): string {
    Digits(|s|) + [':'] + s
  }

  function TagsText(keys: seq<string>, val: map<string, string>): string
    requires forall k | k in keys :: k in val
  {
    if keys == [] then []
    else LenPrefixed(keys[0]) + (['='] + (LenPrefixed(val[keys[0]]) + (['|'] + TagsText(keys[1..], val))))
  }

  function KeyText(measurement: string, keys: seq<string>, val: map<string, string>): string
    requires forall k | k in keys :: k in val
  {
    LenPrefixed(measurement) + (['|'] + TagsText(keys, val))
  }

  /** The identity of a series: measurement and tags. */
  ghost function SeriesKey(measurement: string, tags: map<string, string>): string {
    KeysAreTags(tags);
    KeyText(measurement, SortedKeys(tags.Keys), tags)
  }

  /** The identity of a point: its series and its timestamp. */
  ghost function PointKey(p: Point): string {
    SeriesKey(p.measurement, p.tags) + Decimal(p.ts)
  }

  lemma KeysAreTags(tags: map<string, string>)
    ensures forall k :: k in SortedKeys(tags.Keys) <==> k in tags
  {
    forall k
      ensures k in SortedKeys(tags.Keys) <==> k in tags
    {
      InSortedKeys(tags.Keys, k);
    }
  }

  function KeysOf(pairs: seq<Pair>): seq<string> {
    seq(|pairs|, i requires 0 <= i < |pairs| => pairs[i].0)
  }

  /** The map that a list of pairs builds; a later pair wins. */
  function MapOf(pairs: seq<Pair>): (m: map<string, string>)
    ensures forall k :: k in m <==> k in KeysOf(pairs)
  {
    if pairs == [] then map[]
    else
      var n := |pairs| - 1;
      assert KeysOf(pairs) == KeysOf(pairs[..n]) + [pairs[n].0];
      MapOf(pairs[..n])[pairs[n].0 := pairs[n].1]
  }

  function KeyFromPairs(measurement: string, pairs: seq<Pair>): string {
    assert forall k | k in Sorted(KeysOf(pairs)) :: k in multiset(Sorted(KeysOf(pairs)));
    KeyText(measurement, Sorted(KeysOf(pairs)), MapOf(pairs))
  }

  // ---------------------------------------------------------------- the loops that build them

  method AppendSeriesKey(measurement: string, keys: seq<string>, val: map<string, string>) returns (buf: string)
    requires forall k | k in keys :: k in val
    ensures buf == KeyText(measurement, keys, val)
  {
    hide LenPrefixed;
    buf := LenPrefixed(measurement) + ['|'];
    for i := 0 to |keys|
      invariant buf + TagsText(keys[i..], val) == KeyText(measurement, keys, val)
    {
      assert keys[i..][1..] == keys[i + 1..];
      ghost var was := buf;
      buf := buf + LenPrefixed(keys[i]);
      buf := buf + ['='];
      buf := buf + LenPrefixed(val[keys[i]]);
      buf := buf + ['|'];
      assert buf + TagsText(keys[i + 1..], val) == was + TagsText(keys[i..], val);
    }
  }

  method SeriesKeyOf(measurement: string, tags: map<string, string>) returns (key: string)
    ensures key == SeriesKey(measurement, tags)
  {
    KeysAreTags(tags);
    var keys := SortKeys(tags.Keys);
    key := AppendSeriesKey(measurement, keys, tags);
  }

  method SeriesKeyFromPairs(measurement: string, pairs: seq<Pair>) returns (key: string)
    ensures key == KeyFromPairs(measurement, pairs)
  {
    var keys: seq<string>, idx: map<string, string> := [], map[];
    for i := 0 to |pairs|
      invariant keys == KeysOf(pairs[..i]) && idx == MapOf(pairs[..i])
    {
      assert pairs[..i + 1][..i] == pairs[..i];
      keys := keys + [pairs[i].0];
      idx := idx[pairs[i].0 := pairs[i].1];
    }
    assert pairs[..|pairs|] == pairs;
    assert forall k | k in Sorted(keys) :: k in multiset(Sorted(keys));
    key := AppendSeriesKey(measurement, Sorted(keys), idx);
  }

  method KeyOf(p: Point) returns (key: string)
    ensures key == PointKey(p)
  {
    key := SeriesKeyOf(p.measurement, p.tags);
    key := key + Decimal(p.ts);
  }

  // ---------------------------------------------------------------- keys identify

  lemma LenPrefixInjective(a: string, x: string, b: string, y: string)
    requires LenPrefixed(a) + x == LenPrefixed(b) + y
    ensures a == b && x == y
  {
    assert Digits(|a|) + [':'] + (a + x) == LenPrefixed(a) + x;
    assert Digits(|b|) + [':'] + (b + y) == LenPrefixed(b) + y;
    SplitAtMark(Digits(|a|), Digits(|b|), ':', a + x, b + y);
    DigitsInjective(|a|, |b|);
    assert a == (a + x)[..|a|] && b == (b + y)[..|b|];
    assert x == (a + x)[|a|..] && y == (b + y)[|b|..];
  }

  /** A text of tags contains a colon before whatever follows it. */
  lemma TagsHaveColon(keys: seq<string>, val: map<string, string>, rest: string)
    requires keys != [] && forall k | k in keys :: k in val
    ensures ':' in TagsText(keys, val) + rest
  {
    var t := TagsText(keys, val) + rest;
    assert t[|Digits(|keys[0]|)|] == ':';
  }

  /** The tags and the text after them can be told apart, as long as that text has no colon. */
  lemma {:induction false} TagsInjective(
    ks: seq<string>, val: map<string, string>, x: string, ks': seq<string>, val': map<string, string>, y: string)
    requires (forall k | k in ks :: k in val) && (forall k | k in ks' :: k in val')
    requires TagsText(ks, val) + x == TagsText(ks', val') + y && ':' !in x && ':' !in y
    ensures ks == ks' && x == y && forall k | k in ks :: val[k] == val'[k]
  {
    hide LenPrefixed;
    if ks == [] || ks' == [] {
      assert [] + x == x && [] + y == y;
      if ks != [] {
        TagsHaveColon(ks, val, x);
      }
      if ks' != [] {
        TagsHaveColon(ks', val', y);
      }
    } else {
      var k, k' := ks[0], ks'[0];
      var r, r' := TagsText(ks[1..], val), TagsText(ks'[1..], val');
      var v, v' := LenPrefixed(val[k]) + (['|'] + (r + x)), LenPrefixed(val'[k']) + (['|'] + (r' + y));
      assert TagsText(ks, val) + x == LenPrefixed(k) + (['='] + v);
      assert TagsText(ks', val') + y == LenPrefixed(k') + (['='] + v');
      LenPrefixInjective(k, ['='] + v, k', ['='] + v');
      assert v == (['='] + v)[1..] && v' == (['='] + v')[1..];
      LenPrefixInjective(val[k], ['|'] + (r + x), val'[k'], ['|'] + (r' + y));
      assert r + x == (['|'] + (r + x))[1..] && r' + y == (['|'] + (r' + y))[1..];
      TagsInjective(ks[1..], val, x, ks'[1..], val', y);
      assert ks == [k] + ks[1..] && ks' == [k'] + ks'[1..];
    }
  }

  lemma KeyTextInjective(
    m: string, ks: seq<string>, val: map<string, string>, x: string,
    m': string, ks': seq<string>, val': map<string, string>, y: string)
    requires (forall k | k in ks :: k in val) && (forall k | k in ks' :: k in val')
    requires KeyText(m, ks, val) + x == KeyText(m', ks', val') + y && ':' !in x && ':' !in y
    ensures m == m' && ks == ks' && x == y && forall k | k in ks :: val[k] == val'[k]
  {
    hide LenPrefixed;
    var r, r' := ['|'] + (TagsText(ks, val) + x), ['|'] + (TagsText(ks', val') + y);
    assert KeyText(m, ks, val) + x == LenPrefixed(m) + r;
    assert KeyText(m', ks', val') + y == LenPrefixed(m') + r';
    LenPrefixInjective(m, r, m', r');
    assert TagsText(ks, val) + x == r[1..] && TagsText(ks', val') + y == r'[1..];
    TagsInjective(ks, val, x, ks', val', y);
  }

  lemma SameTags(tags: map<string, string>, tags': map<string, string>)
    requires SortedKeys(tags.Keys) == SortedKeys(tags'.Keys)
    requires forall k | k in tags && k in tags' :: tags[k] == tags'[k]
    ensures tags == tags'
  {
    KeysAreTags(tags);
    KeysAreTags(tags');
    assert tags.Keys == tags'.Keys;
  }

  /** Two points have the same key exactly when measurement, tags and timestamp agree, whatever bytes
      the strings contain. */
  lemma PointKeyInjective(p: Point, q: Point)
    ensures PointKey(p) == PointKey(q) <==> p.measurement == q.measurement && p.tags == q.tags && p.ts == q.ts
  {
    if PointKey(p) == PointKey(q) {
      KeysAreTags(p.tags);
      KeysAreTags(q.tags);
      DecimalHasNoColon(p.ts);
      DecimalHasNoColon(q.ts);
      KeyTextInjective(p.measurement, SortedKeys(p.tags.Keys), p.tags, Decimal(p.ts),
                       q.measurement, SortedKeys(q.tags.Keys), q.tags, Decimal(q.ts));
      SameTags(p.tags, q.tags);
      DecimalInjective(p.ts, q.ts);
    }
  }

  lemma DecimalHasNoColon(n: int)
    ensures ':' !in Decimal(n)
  {
  }

  lemma SeriesKeyInjective(m: string, tags: map<string, string>, m': string, tags': map<string, string>)
    ensures SeriesKey(m, tags) == SeriesKey(m', tags') <==> m == m' && tags == tags'
  {
    if SeriesKey(m, tags) == SeriesKey(m', tags') {
      KeysAreTags(tags);
      KeysAreTags(tags');
      assert SeriesKey(m, tags) + [] == SeriesKey(m', tags') + [];
      KeyTextInjective(m, SortedKeys(tags.Keys), tags, [], m', SortedKeys(tags'.Keys), tags', []);
      SameTags(tags, tags');
    }
  }

  ghost predicate Distinct(keys: seq<string>) {
    forall i, j | 0 <= i < j < |keys| :: keys[i] != keys[j]
  }

  lemma Twice(keys: seq<string>, i: nat, j: nat)
    requires i < j < |keys| && keys[i] == keys[j]
    ensures multiset(keys)[keys[i]] >= 2
  {
    assert keys == keys[..i] + [keys[i]] + keys[i + 1..];
    assert keys[j] == keys[i + 1..][j - i - 1];
  }

  lemma DistinctIsSet(keys: seq<string>)
    ensures Distinct(keys) <==> multiset(keys) == multiset(set k | k in keys)
  {
    if Distinct(keys) {
      DistinctCounts(keys);
    } else {
      var i, j :| 0 <= i < j < |keys| && keys[i] == keys[j];
      Twice(keys, i, j);
      assert multiset(set k | k in keys)[keys[i]] <= 1;
    }
  }

  lemma {:induction false} DistinctCounts(keys: seq<string>)
    requires Distinct(keys)
    ensures multiset(keys) == multiset(set k | k in keys)
  {
    if keys != [] {
      DistinctTail(keys);
      DistinctCounts(keys[1..]);
      hide Distinct;
      WithoutHead(keys);
      ElementsSplit(keys);
      AddToSet((set k | k in keys[1..]), keys[0]);
    }
  }

  lemma ElementsSplit(keys: seq<string>)
    requires keys != []
    ensures (set k | k in keys) == (set k | k in keys[1..]) + {keys[0]}
  {
    assert keys == [keys[0]] + keys[1..];
  }

  lemma AddToSet(s: set<string>, x: string)
    requires x !in s
    ensures multiset(s + {x}) == multiset(s) + multiset{x}
  {
  }

  lemma DistinctTail(keys: seq<string>)
    requires keys != [] && Distinct(keys)
    ensures Distinct(keys[1..]) && keys[0] !in keys[1..]
  {
    var rest := keys[1..];
    forall i, j | 0 <= i < j < |rest|
      ensures rest[i] != rest[j]
    {
      assert rest[i] == keys[i + 1] && rest[j] == keys[j + 1];
    }
    forall i | 0 <= i < |rest|
      ensures rest[i] != keys[0]
    {
      assert rest[i] == keys[i + 1];
    }
  }

  /** The key built from the parsed pairs equals the key built from a tag map, in any order of the
      pairs, exactly when no tag key is repeated. */
  lemma PairsAgreeIff(measurement: string, pairs: seq<Pair>)
    ensures KeyFromPairs(measurement, pairs) == SeriesKey(measurement, MapOf(pairs)) <==> Distinct(KeysOf(pairs))
  {
    var keys, tags := KeysOf(pairs), MapOf(pairs);
    var all := set k | k in keys;
    assert tags.Keys == all;
    DistinctIsSet(keys);
    KeysAreTags(tags);
    assert forall k | k in Sorted(keys) :: k in multiset(Sorted(keys));
    if Distinct(keys) {
      SortedKeysOf(keys, all);
    }
    if KeyFromPairs(measurement, pairs) == SeriesKey(measurement, tags) {
      assert KeyFromPairs(measurement, pairs) + [] == SeriesKey(measurement, tags) + [];
      KeyTextInjective(measurement, Sorted(keys), tags, [], measurement, SortedKeys(all), tags, []);
      assert multiset(keys) == multiset(Sorted(keys)) == multiset(SortedKeys(all)) == multiset(all);
    }
  }
}

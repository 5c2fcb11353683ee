/** Reading back the fields of a printed line, as the Line Protocol defines them: a key up to an unescaped
    equals sign, then a quoted string, or an integer with an `i`, or `true` or `false`, or a float. */
module FieldReader {
  import opened Text
  import opened SeriesKeys
  import opened LineProtocol
  import opened LineParse
  import opened TagSection
  import opened QuoteScan
  import opened LineRoundTrip

  type Field = (string, Value)

  // ---------------------------------------------------------------- the reader

  predicate IsFloatText(t: string) {
    t != [] && forall c | c in t :: c in "+-.0123456789e"
  }

  function ReadInt(t: string): Option<int> {
    var digits := if t != [] && t[0] == '-' then t[1..] else t;
    if digits == [] || !AllDigits(digits) then None
    else
      var n: int := ValueOf(digits);
      Some(if t[0] == '-' then -n else n)
  }

  /** A value that is not a string. */
  function ReadBare(t: string): Option<Value> {
    if t == "true" then Some(Boolean(true))
    else if t == "false" then Some(Boolean(false))
    else if t != [] && t[|t| - 1] == 'i' then
      var n := ReadInt(t[..|t| - 1]);
      if n.None? then None else Some(Int(n.value))
    else if IsFloatText(t) then Some(Float(t))
    else None
  }

  /** The value at the start of a text, and what follows it. */
  function ReadValue(s: string): (r: Option<(Value, string)>)
    ensures r.Some? ==> |r.value.1| <= |s|
  {
    if s != [] && s[0] == '"' then
      var i := FirstUnescaped(s[1..], "\"", false);
      if i == |s| - 1 then None else Some((Str(Unescaped(s[1..][..i])), s[1..][i + 1..]))
    else
      var i := FirstUnescaped(s, ",", false);
      var v := ReadBare(s[..i]);
      if v.None? then None else Some((v.value, s[i..]))
  }

  function ReadFields(s: string): Option<seq<Field>>
    decreases |s|
  {
    var i := FirstUnescaped(s, "=", false);
    if i == |s| then None
    else
      var key, v := Unescaped(s[..i]), ReadValue(s[i + 1..]);
      if v.None? then None
      else AfterField((key, v.value.0), v.value.1, if v.value.1 == [] then None else ReadFields(v.value.1[1..]))
  }

  /** One field, and what was read behind the comma after it. */
  function AfterField(f: Field, rest: string, more: Option<seq<Field>>): Option<seq<Field>> {
    if rest == [] then Some([f])
    else if rest[0] != ',' || more.None? then None
    else Some([f] + more.value)
  }

  // ---------------------------------------------------------------- values

  predicate Ended(rest: string) {
    rest == [] || rest[0] == ','
  }

  /** Nothing in the text is escaped or ends a value. */
  predicate Unbroken(t: string) {
    '\\' !in t && ',' !in t
  }

  lemma {:induction false} UnbrokenPasses(t: string, rest: string)
    requires Unbroken(t) && Ended(rest)
    ensures FirstUnescaped(t + rest, ",", false) == |t|
  {
    if t == [] {
      assert t + rest == rest;
    } else {
      assert t[0] in t && Unbroken(t[1..]);
      assert t + rest == [t[0]] + (t[1..] + rest);
      UnbrokenPasses(t[1..], rest);
      FirstOf(t[0], t[1..] + rest, ",", false);
    }
  }

  /** A printed string ends at its closing quote and is read back, whatever chars it has. */
  lemma {:induction false} StringReadBack(s: string, rest: string)
    ensures FirstUnescaped(Esc(s, STRING_SPECIAL) + (['"'] + rest), "\"", false) == |Esc(s, STRING_SPECIAL)|
    ensures Unescaped(Esc(s, STRING_SPECIAL)) == s
  {
    hide FirstUnescaped, Unescaped, Esc;
    if s == [] {
      EscNothing(STRING_SPECIAL);
      assert [] + (['"'] + rest) == ['"'] + rest;
      FirstOf('"', rest, "\"", false);
      UnescapedNothing();
    } else {
      StringReadBack(s[1..], rest);
      var t := Esc(s[1..], STRING_SPECIAL);
      EscCons(s, STRING_SPECIAL, ['"'] + rest);
      EscCons(s, STRING_SPECIAL, []);
      assert t + [] == t && Esc(s, STRING_SPECIAL) + [] == Esc(s, STRING_SPECIAL);
      if s[0] in STRING_SPECIAL {
        TakenEscaped(s[0], t + (['"'] + rest), "\"");
        UnescapedEscaped(s[0], t);
      } else {
        FirstOf(s[0], t + (['"'] + rest), "\"", false);
        UnescapedOther(s[0], t);
      }
      assert s == [s[0]] + s[1..];
    }
  }

  lemma UnescapedNothing()
    ensures Unescaped([]) == []
  {
  }

  lemma UnescapedEscaped(c: char, rest: string)
    ensures Unescaped(['\\', c] + rest) == [c] + Unescaped(rest)
  {
    var s := ['\\', c] + rest;
    assert s[2..] == rest && s[1] == c;
  }

  lemma UnescapedOther(c: char, rest: string)
    requires c != '\\'
    ensures Unescaped([c] + rest) == [c] + Unescaped(rest)
  {
    assert ([c] + rest)[1..] == rest;
  }

  lemma IntReadBack(n: int)
    ensures ReadInt(Decimal(n)) == Some(n)
  {
    DecimalSign(n);
    var t := Decimal(n);
    if n < 0 {
      assert t[1..] == Digits(-n);
      ValueOfDigits(-n);
    } else {
      ValueOfDigits(n);
    }
  }

  lemma DecimalChars(n: int)
    ensures forall c | c in Decimal(n) :: c == '-' || IsDigit(c)
  {
  }

  /** The text of a value that is not a string: no other kind of value reads like it. */
  ghost predicate BareText(t: string, v: Value) {
    ReadBare(t) == Some(v) && Unbroken(t) && t != [] && t[0] != '"'
  }

  lemma FloatReadBack(text: FloatText)
    ensures BareText(text, Float(text))
  {
    hide ReadInt;
    assert text[0] in text && text[|text| - 1] in text;
    forall c | c in text
      ensures c !in "tfi,\\\""
    {
      FloatChar(c);
    }
  }

  lemma FloatChar(c: char)
    requires c in "+-.0123456789e"
    ensures c !in "tfi,\\\""
  {
  }

  lemma IntTextReadBack(n: int)
    ensures BareText(Decimal(n) + ['i'], Int(n))
  {
    IntReadBack(n);
    DecimalSign(n);
    DecimalChars(n);
    hide ReadInt, Decimal;
    var t := Decimal(n) + ['i'];
    assert t[..|t| - 1] == Decimal(n) && t[|t| - 1] == 'i';
    assert t[0] in Decimal(n);
  }

  lemma BooleanReadBack(b: bool)
    ensures BareText(if b then "true" else "false", Boolean(b))
  {
  }

  lemma BareReadBack(t: string, v: Value, rest: string)
    requires BareText(t, v) && Ended(rest)
    ensures ReadValue(t + rest) == Some((v, rest))
  {
    UnbrokenPasses(t, rest);
    hide ReadBare, FirstUnescaped;
    assert (t + rest)[..|t|] == t && (t + rest)[|t|..] == rest;
  }

  lemma QuotedReadBack(s: string, rest: string)
    ensures ReadValue(['"'] + Esc(s, STRING_SPECIAL) + ['"'] + rest) == Some((Str(s), rest))
  {
    hide FirstUnescaped, Unescaped, Esc;
    var t := Esc(s, STRING_SPECIAL);
    var text := ['"'] + t + ['"'] + rest;
    StringReadBack(s, rest);
    assert text[1..] == t + (['"'] + rest);
    assert text[1..][..|t|] == t && text[1..][|t| + 1..] == rest;
  }

  /** Every finite value is read back from its text, and nothing of what follows is touched. */
  lemma ValueReadBack(v: Value, rest: string)
    requires !v.NotFinite? && !v.Other? && Ended(rest)
    ensures ReadValue(ValueText(v) + rest) == Some((v, rest))
  {
    hide ReadValue, BareText, Esc, Decimal;
    match v {
      case Float(text) =>
        FloatReadBack(text);
        BareReadBack(text, v, rest);
      case Int(n) =>
        IntTextReadBack(n);
        BareReadBack(Decimal(n) + ['i'], v, rest);
      case Str(s) => QuotedReadBack(s, rest);
      case Boolean(b) =>
        BooleanReadBack(b);
        BareReadBack(if b then "true" else "false", v, rest);
    }
  }

  // ---------------------------------------------------------------- the printed fields, front to back

  /** The keys of the finite fields. */
  function Finite(keys: seq<string>, fields: map<string, Value>): (r: seq<string>)
    requires forall k | k in keys :: k in fields
    ensures forall k :: k in r <==> k in keys && !fields[k].NotFinite?
  {
    if keys == [] then []
    else
      var n := |keys| - 1;
      Finite(keys[..n], fields) + if fields[keys[n]].NotFinite? then [] else [keys[n]]
  }

  function Listed(keys: seq<string>, fields: map<string, Value>): string
    requires forall k | k in keys :: k in fields
  {
    if keys == [] then []
    else if |keys| == 1 then FieldText(keys[0], fields[keys[0]])
    else FieldText(keys[0], fields[keys[0]]) + ([','] + Listed(keys[1..], fields))
  }

  lemma ListedCons(k: string, rest: seq<string>, fields: map<string, Value>)
    requires k in fields && rest != [] && forall x | x in rest :: x in fields
    ensures Listed([k] + rest, fields) == FieldText(k, fields[k]) + ([','] + Listed(rest, fields))
    ensures Listed([k], fields) == FieldText(k, fields[k])
  {
    hide FieldText;
    assert ([k] + rest)[1..] == rest;
  }

  lemma {:induction false} ListedSnoc(keys: seq<string>, k: string, fields: map<string, Value>)
    requires k in fields && forall x | x in keys :: x in fields
    ensures Listed(keys + [k], fields)
            == Listed(keys, fields) + (if keys == [] then [] else [',']) + FieldText(k, fields[k])
    ensures Listed(keys, fields) == [] <==> keys == []
  {
    hide FieldText, Listed;
    ListedNone(fields);
    ListedCons(k, [k], fields);
    if keys == [] {
      assert keys + [k] == [k];
    } else {
      var first, rest := keys[0], keys[1..];
      assert keys == [first] + rest && keys + [k] == [first] + (rest + [k]);
      ListedCons(first, rest + [k], fields);
      if rest == [] {
        ListedCons(first, [k], fields);
        assert rest + [k] == [k] && keys == [first];
        Associate(FieldText(first, fields[first]), [','], FieldText(k, fields[k]));
      } else {
        ListedCons(first, rest, fields);
        ListedSnoc(rest, k, fields);
        Regrouped5(FieldText(first, fields[first]), [','], Listed(rest, fields), FieldText(k, fields[k]));
      }
    }
  }

  lemma Regrouped5(a: string, c: string, b: string, d: string)
    ensures a + (c + (b + c + d)) == a + (c + b) + c + d
  {
  }

  lemma {:induction false} FieldsListed(keys: seq<string>, fields: map<string, Value>)
    requires forall k | k in keys :: k in fields
    ensures FieldsPart(keys, fields) == Listed(Finite(keys, fields), fields)
  {
    hide FieldText, Listed;
    if keys == [] {
      ListedNone(fields);
    } else {
      var n := |keys| - 1;
      FieldsListed(keys[..n], fields);
      ListedSnoc(Finite(keys[..n], fields), keys[n], fields);
      assert Finite(keys[..n], fields) + [] == Finite(keys[..n], fields);
    }
  }

  lemma ListedNone(fields: map<string, Value>)
    ensures Listed([], fields) == []
  {
  }

  function FieldsOf(keys: seq<string>, fields: map<string, Value>): seq<Field>
    requires forall k | k in keys :: k in fields
  {
    seq(|keys|, i requires 0 <= i < |keys| => (keys[i], fields[keys[i]]))
  }

  // ---------------------------------------------------------------- the round trip

  /** A backslash in a field key stands directly before a comma or a space. */
  predicate KeyKept(k: string) {
    forall i | 0 <= i < |k| && k[i] == '\\' :: i + 1 < |k| && (k[i + 1] == ',' || k[i + 1] == ' ')
  }

  lemma KeyKeptIs(k: string)
    ensures KeyKept(k) <==> Kept(k, TAG_SPECIAL, "=")
  {
  }

  lemma Regrouped4(a: string, b: string, c: string, d: string)
    ensures a + b + c + d == a + (b + (c + d))
  {
  }

  /** The first field is read back with its value, and its key exactly if that is kept. */
  lemma FieldReadBack(k: string, v: Value, rest: string)
    requires !v.NotFinite? && !v.Other? && Ended(rest)
    ensures var r := ReadFields(FieldText(k, v) + rest);
            && (KeyKept(k) ==> r == AfterField((k, v), rest, if rest == [] then None else ReadFields(rest[1..])))
            && (!KeyKept(k) && r.Some? ==> r.value != [] && r.value[0].0 != k)
  {
    hide Esc, ValueText, ReadValue, FirstUnescaped, Unescaped, KeyKept, Taken, Kept;
    var ek, w := Esc(k, TAG_SPECIAL), ValueText(v) + rest;
    var s := FieldText(k, v) + rest;
    Regrouped4(ek, ['='], ValueText(v), rest);
    KeyKeptIs(k);
    TakenBack(k, TAG_SPECIAL, "=", ['='] + w);
    TakenIs(s, "=");
    if KeyKept(k) {
      assert s[|ek| + 1..] == w;
      ValueReadBack(v, rest);
    }
  }

  lemma FieldsOfCons(k: string, rest: seq<string>, fields: map<string, Value>)
    requires k in fields && forall x | x in rest :: x in fields
    ensures FieldsOf([k] + rest, fields) == [(k, fields[k])] + FieldsOf(rest, fields)
    ensures FieldsOf([k], fields) == [(k, fields[k])]
    ensures FieldsOf([k] + rest, fields)[0].0 == k
  {
  }

  lemma {:induction false} ListedReadBack(keys: seq<string>, fields: map<string, Value>)
    requires keys != [] && (forall k | k in keys :: k in fields && !fields[k].NotFinite? && !fields[k].Other?)
    ensures ReadFields(Listed(keys, fields)) == Some(FieldsOf(keys, fields)) <==> forall k | k in keys :: KeyKept(k)
  {
    hide FieldText, ReadFields, KeyKept, FieldsOf, Listed;
    var k, more := keys[0], keys[1..];
    var v := fields[k];
    assert keys == [k] + more;
    FieldsOfCons(k, more, fields);
    if more == [] {
      ListedCons(k, [k], fields);
      assert keys == [k] && FieldText(k, v) + [] == FieldText(k, v);
      FieldReadBack(k, v, []);
    } else {
      var rest := [','] + Listed(more, fields);
      ListedCons(k, more, fields);
      FieldReadBack(k, v, rest);
      assert rest[1..] == Listed(more, fields);
      ListedReadBack(more, fields);
      SameRest((k, v), ReadFields(rest[1..]), FieldsOf(more, fields));
    }
  }

  lemma SameRest(f: Field, more: Option<seq<Field>>, fs: seq<Field>)
    ensures more.Some? ==> ([f] + more.value == [f] + fs <==> more.value == fs)
  {
    if more.Some? {
      assert ([f] + more.value)[1..] == more.value && ([f] + fs)[1..] == fs;
    }
  }

  lemma InFieldsOf(keys: seq<string>, fields: map<string, Value>, k: string, v: Value)
    requires forall x | x in keys :: x in fields
    ensures (k, v) in FieldsOf(keys, fields) <==> k in keys && fields[k] == v
  {
    if k in keys && fields[k] == v {
      var i :| 0 <= i < |keys| && keys[i] == k;
      assert FieldsOf(keys, fields)[i] == (k, v);
    }
  }

  /** The finite fields of a point in the order of their keys. */
  ghost function FiniteFields(p: Point): seq<Field> {
    KeysAreFields(p.fields);
    FieldsOf(Finite(SortedKeys(p.fields.Keys), p.fields), p.fields)
  }

  lemma FiniteFieldsAre(p: Point, k: string, v: Value)
    ensures (k, v) in FiniteFields(p) <==> k in p.fields && p.fields[k] == v && !v.NotFinite?
  {
    hide SortedKeys, FieldsOf, Finite;
    KeysAreFields(p.fields);
    InFieldsOf(Finite(SortedKeys(p.fields.Keys), p.fields), p.fields, k, v);
  }

  ghost predicate FieldKeysKept(p: Point) {
    forall k | k in p.fields && !p.fields[k].NotFinite? :: KeyKept(k)
  }

  /** For every printable point: its printed fields are read back as exactly its finite fields with their
      values, if and only if each backslash in their keys stands directly before a comma or a space. */
  lemma FieldsReadBackIff(p: Point)
    requires PrintLine(p).Line?
    ensures forall k | k in SortedKeys(p.fields.Keys) :: k in p.fields
    ensures ReadFields(FieldsPart(SortedKeys(p.fields.Keys), p.fields)) == Some(FiniteFields(p)) <==> FieldKeysKept(p)
  {
    hide SortedKeys, FieldsOf, KeyKept, ReadFields, Listed, LineText, FieldsPart;
    KeysAreFields(p.fields);
    var keys := Finite(SortedKeys(p.fields.Keys), p.fields);
    FieldsListed(SortedKeys(p.fields.Keys), p.fields);
    SomeFinite(p);
    ListedReadBack(keys, p.fields);
  }

  lemma SomeFinite(p: Point)
    requires PrintLine(p).Line?
    ensures forall k | k in SortedKeys(p.fields.Keys) :: k in p.fields
    ensures Finite(SortedKeys(p.fields.Keys), p.fields) != [] && forall k | k in p.fields :: !p.fields[k].Other?
  {
    hide SortedKeys, LineText;
    KeysAreFields(p.fields);
    var k :| k in SortedKeys(p.fields.Keys) && !p.fields[k].NotFinite?;
    assert k in Finite(SortedKeys(p.fields.Keys), p.fields);
  }

  // ---------------------------------------------------------------- the whole line

  /** Escaped text has no unescaped space. */
  lemma {:induction false} EscPasses(s: string, special: string, rest: string)
    requires Kept(s, special, " ") && ' ' in special && '\\' !in special
    ensures FirstUnescaped(Esc(s, special) + rest, " ", false)
            == |Esc(s, special)| + FirstUnescaped(rest, " ", false)
    decreases |s|
  {
    hide Kept, Esc, FirstUnescaped;
    if s == [] {
      EscNothing(special);
      assert [] + rest == rest;
    } else {
      EscCons(s, special, rest);
      EscCons(s, special, []);
      KeptCons(s, special, " ");
      if s[0] in special {
        EscPasses(s[1..], special, rest);
        TakenEscaped(s[0], Esc(s[1..], special) + rest, " ");
      } else if s[0] != '\\' {
        EscPasses(s[1..], special, rest);
        FirstOf(s[0], Esc(s[1..], special) + rest, " ", false);
      } else {
        var u := Esc(s[2..], special) + rest;
        EscCons(s[1..], special, rest);
        EscCons(s[1..], special, []);
        assert s[1..][1..] == s[2..];
        KeptCons(s[1..], special, " ");
        EscPasses(s[2..], special, rest);
        Regrouped('\\', '\\', s[1], u);
        TakenEscaped('\\', [s[1]] + u, " ");
        FirstOf(s[1], u, " ", false);
      }
    }
  }

  lemma CleanIsKept(k: string, v: string)
    ensures '\\' !in k ==> Kept(k, TAG_SPECIAL, " ") && Kept(k, MEASUREMENT_SPECIAL, " ")
    ensures OnlyBeforeEquals(v) ==> Kept(v, TAG_SPECIAL, " ")
  {
    assert forall i | 0 <= i < |k| :: k[i] in k;
  }

  lemma {:induction false} TagsPass(keys: seq<string>, tags: map<string, string>, rest: string)
    requires (forall k | k in keys :: k in tags) && TagsClean(keys, tags)
    ensures FirstUnescaped(TagsPart(keys, tags) + rest, " ", false)
            == |TagsPart(keys, tags)| + FirstUnescaped(rest, " ", false)
  {
    hide Kept, Esc, FirstUnescaped, OnlyBeforeEquals;
    if keys == [] {
      assert [] + rest == rest;
    } else {
      var k, v, t := keys[0], tags[keys[0]], TagsPart(keys[1..], tags) + rest;
      assert keys == [k] + keys[1..];
      assert CleanTag(k, v);
      CleanIsKept(k, v);
      TagsPass(keys[1..], tags, rest);
      assert TagsPart(keys, tags) + rest == [','] + (Esc(k, TAG_SPECIAL) + (['='] + (Esc(v, TAG_SPECIAL) + t)));
      FirstOf(',', Esc(k, TAG_SPECIAL) + (['='] + (Esc(v, TAG_SPECIAL) + t)), " ", false);
      EscPasses(k, TAG_SPECIAL, ['='] + (Esc(v, TAG_SPECIAL) + t));
      FirstOf('=', Esc(v, TAG_SPECIAL) + t, " ", false);
      EscPasses(v, TAG_SPECIAL, t);
    }
  }

  lemma NamesEnd(m: string, keys: seq<string>, tags: map<string, string>, rest: string)
    requires '\\' !in m && (forall k | k in keys :: k in tags) && TagsClean(keys, tags)
    ensures FirstUnescaped(Names(m, keys, tags) + ([' '] + rest), " ", false) == |Names(m, keys, tags)|
  {
    hide Kept, Esc, FirstUnescaped, TagsPart, TagsClean;
    CleanIsKept(m, []);
    EscPasses(m, MEASUREMENT_SPECIAL, TagsPart(keys, tags) + ([' '] + rest));
    TagsPass(keys, tags, [' '] + rest);
    FirstOf(' ', rest, " ", false);
    Associate(Esc(m, MEASUREMENT_SPECIAL), TagsPart(keys, tags), [' '] + rest);
  }

  /** What lies between the names and the timestamp. */
  function FieldSection(line: string): string {
    var start, end := FirstUnescaped(line, " ", false) + 1, ScanFrom(line, START, 0).space;
    if start <= end <= |line| then line[start..end] else []
  }

  lemma SeparatorOfPoint(p: Point)
    requires PrintLine(p).Line? && EvenQuotes(p)
    ensures ScanFrom(PrintLine(p).text, START, 0).space == |Head(p)|
  {
    hide PrintLine, SortedKeys, Quotes, FieldQuotes, Names, FieldsPart, ScanFrom, Decimal;
    LineOfPoint(p);
    KeysAreTags(p.tags);
    KeysAreFields(p.fields);
    ScanHead(Names(p.measurement, SortedKeys(p.tags.Keys), p.tags), SortedKeys(p.fields.Keys), p.fields);
    DecimalPlain(p.ts);
    SeparatorOf(Head(p), Decimal(p.ts));
  }

  /** A line from which measurement, tags and timestamp are read back also gives back every finite field with
      its value, if and only if no backslash in a field key is lost. */
  lemma LineReadBackIff(p: Point)
    requires PrintLine(p).Line? && p.ts <= MAX_INT64 && Recoverable(p)
    ensures ReadFields(FieldSection(PrintLine(p).text)) == Some(FiniteFields(p)) <==> FieldKeysKept(p)
    ensures var r := Parse(PrintLine(p).text);
            r.Parsed? && r.measurement == p.measurement && MapOf(r.tags) == p.tags && r.ts == p.ts
  {
    hide PrintLine, SortedKeys, Names, FieldsPart, ScanFrom, Decimal, FirstUnescaped, EvenQuotes, TagsClean, Parse;
    hide ReadFields, FiniteFields, FieldKeysKept, Complete, MapOf;
    KeysAreTags(p.tags);
    KeysAreFields(p.fields);
    TagsOfPoint(p);
    LineOfPoint(p);
    SeparatorOfPoint(p);
    var names := Names(p.measurement, SortedKeys(p.tags.Keys), p.tags);
    var fields := FieldsPart(SortedKeys(p.fields.Keys), p.fields);
    var line := PrintLine(p).text;
    assert line == names + ([' '] + (fields + [' '] + Decimal(p.ts)));
    NamesEnd(p.measurement, SortedKeys(p.tags.Keys), p.tags, fields + [' '] + Decimal(p.ts));
    assert line[|names| + 1..|Head(p)|] == fields;
    FieldsReadBackIff(p);
    RoundTripIff(p);
    MapOfPairs(SortedKeys(p.tags.Keys), p.tags);
    SameKeyOnBothPaths(p);
    var r := Parse(line);
    SameKeySameTags(r.measurement, r.tags, p.measurement, p.tags);
  }
}

/** Line Protocol text of a point (internal/model/point.go). */
module LineProtocol {
  import opened Text
  import opened SeriesKeys

  const MEASUREMENT_SPECIAL := ", "
  const TAG_SPECIAL := ",= "
  const STRING_SPECIAL := "\\\""

  /** A line, a point without a finite field (skipped), or a point that cannot be written. */
  datatype Printed = Line(text: string) | Skipped | NoFields | Unsupported

  function Esc(s: string, special: string): string {
    if s == [] then [] else (if s[0] in special then ['\\', s[0]] else [s[0]]) + Esc(s[1..], special)
  }

  function TagsPart(keys: seq<string>, tags: map<string, string>): string
    requires forall k | k in keys :: k in tags
  {
    if keys == [] then []
    else
      [','] + (Esc(keys[0], TAG_SPECIAL) + (['='] + (Esc(tags[keys[0]], TAG_SPECIAL) + TagsPart(keys[1..], tags))))
  }

  function ValueText(v: Value): string {
    match v
    case Float(text) => text
    case Int(n) => Decimal(n) + ['i']
    case Str(s) => ['"'] + Esc(s, STRING_SPECIAL) + ['"']
    case Boolean(b) => if b then "true" else "false"
    case _ => []
  }

  function FieldText(k: string, v: Value): (t: string)
    ensures t != []
  {
    Esc(k, TAG_SPECIAL) + ['='] + ValueText(v)
  }

  /** The finite fields, separated by commas. */
  function FieldsPart(keys: seq<string>, fields: map<string, Value>): string
    requires forall k | k in keys :: k in fields
  {
    if keys == [] then []
    else
      var n := |keys| - 1;
      var before := FieldsPart(keys[..n], fields);
      if fields[keys[n]].NotFinite? then before
      else before + (if before == [] then [] else [',']) + FieldText(keys[n], fields[keys[n]])
  }

  ghost function PrintLine(p: Point): Printed {
    KeysAreTags(p.tags);
    KeysAreFields(p.fields);
    if p.fields == map[] then NoFields
    else if exists k | k in p.fields :: p.fields[k].Other? then Unsupported
    else if NoneFinite(SortedKeys(p.fields.Keys), p.fields) then Skipped
    else
      Line(LineText(p.measurement, SortedKeys(p.tags.Keys), p.tags, SortedKeys(p.fields.Keys), p.fields, p.ts))
  }

  function LineText(
    measurement: string, tagKeys: seq<string>, tags: map<string, string>,
    fieldKeys: seq<string>, fields: map<string, Value>, ts: int): string
    requires (forall k | k in tagKeys :: k in tags) && (forall k | k in fieldKeys :: k in fields)
  {
    Esc(measurement, MEASUREMENT_SPECIAL) + (TagsPart(tagKeys, tags) + ([' '] + FieldsPart(fieldKeys, fields)))
    + [' '] + Decimal(ts)
  }

  predicate NoneFinite(keys: seq<string>, fields: map<string, Value>)
    requires forall k | k in keys :: k in fields
  {
    forall k | k in keys :: fields[k].NotFinite?
  }

  lemma KeysAreFields(fields: map<string, Value>)
    ensures forall k :: k in SortedKeys(fields.Keys) <==> k in fields
  {
    forall k
      ensures k in SortedKeys(fields.Keys) <==> k in fields
    {
      InSortedKeys(fields.Keys, k);
    }
  }

  // ---------------------------------------------------------------- the loops that print it

  method AppendEsc(dst: string, s: string, special: string) returns (r: string)
    ensures r == dst + Esc(s, special)
  {
    r := dst;
    for i := 0 to |s|
      invariant r + Esc(s[i..], special) == dst + Esc(s, special)
    {
      assert s[i..][1..] == s[i + 1..];
      ghost var was := r;
      if s[i] in special {
        r := r + ['\\', s[i]];
      } else {
        r := r + [s[i]];
      }
      assert r + Esc(s[i + 1..], special) == was + Esc(s[i..], special);
    }
  }

  method AppendTags(dst: string, keys: seq<string>, tags: map<string, string>) returns (r: string)
    requires forall k | k in keys :: k in tags
    ensures r == dst + TagsPart(keys, tags)
  {
    hide Esc;
    r := dst;
    for i := 0 to |keys|
      invariant r + TagsPart(keys[i..], tags) == dst + TagsPart(keys, tags)
    {
      assert keys[i..][1..] == keys[i + 1..];
      ghost var was := r;
      r := AppendEsc(r + [','], keys[i], TAG_SPECIAL);
      r := AppendEsc(r + ['='], tags[keys[i]], TAG_SPECIAL);
      assert r + TagsPart(keys[i + 1..], tags) == was + TagsPart(keys[i..], tags);
    }
  }

  method AppendFieldValue(dst: string, v: Value) returns (r: string, ok: bool)
    requires !v.NotFinite?
    ensures ok <==> !v.Other?
    ensures ok ==> r == dst + ValueText(v)
  {
    hide Esc, Decimal;
    match v {
      case Float(text) => return dst + text, true;
      case Int(n) =>
        r := dst + Decimal(n);
        assert r + ['i'] == dst + (Decimal(n) + ['i']);
        return r + ['i'], true;
      case Str(s) =>
        r := AppendEsc(dst + ['"'], s, STRING_SPECIAL);
        assert r + ['"'] == dst + (['"'] + Esc(s, STRING_SPECIAL) + ['"']);
        return r + ['"'], true;
      case Boolean(b) => return dst + if b then "true" else "false", true;
      case Other => return dst, false;
    }
  }

  method AppendField(dst: string, k: string, v: Value) returns (r: string, ok: bool)
    requires !v.NotFinite?
    ensures ok <==> !v.Other?
    ensures ok ==> r == dst + FieldText(k, v)
  {
    hide Esc, ValueText;
    r := AppendEsc(dst, k, TAG_SPECIAL);
    r, ok := AppendFieldValue(r + ['='], v);
  }

  lemma FieldsNone(fields: map<string, Value>)
    ensures FieldsPart([], fields) == [] && NoneFinite([], fields)
  {
  }

  lemma FieldsStep(keys: seq<string>, i: nat, fields: map<string, Value>)
    requires i < |keys| && forall k | k in keys :: k in fields
    ensures keys[..i + 1] == keys[..i] + [keys[i]]
    ensures NoneFinite(keys[..i + 1], fields) <==> NoneFinite(keys[..i], fields) && fields[keys[i]].NotFinite?
    ensures var before := FieldsPart(keys[..i], fields);
            FieldsPart(keys[..i + 1], fields) ==
            if fields[keys[i]].NotFinite? then before
            else before + (if before == [] then [] else [',']) + FieldText(keys[i], fields[keys[i]])
  {
    assert keys[..i + 1][..i] == keys[..i];
  }

  lemma Joined(dst: string, before: string, item: string)
    ensures dst + before + item == dst + (before + [] + item)
    ensures dst + before + [','] + item == dst + (before + [','] + item)
  {
  }

  method AppendFields(dst: string, keys: seq<string>, fields: map<string, Value>)
    returns (r: string, first: bool, ok: bool)
    requires forall k | k in keys :: k in fields
    ensures ok <==> forall k | k in keys :: !fields[k].Other?
    ensures ok ==> r == dst + FieldsPart(keys, fields) && (first <==> NoneFinite(keys, fields))
  {
    hide Esc, FieldText, ValueText, FieldsPart, NoneFinite;
    FieldsNone(fields);
    assert keys[..0] == [];
    r, first, ok := dst, true, true;
    for i := 0 to |keys|
      invariant r == dst + FieldsPart(keys[..i], fields) && (first <==> FieldsPart(keys[..i], fields) == [])
      invariant first <==> NoneFinite(keys[..i], fields)
      invariant forall k | k in keys[..i] :: !fields[k].Other?
    {
      FieldsStep(keys, i, fields);
      var v := fields[keys[i]];
      if !v.NotFinite? {
        Joined(dst, FieldsPart(keys[..i], fields), FieldText(keys[i], v));
        if !first {
          r := r + [','];
        }
        first := false;
        r, ok := AppendField(r, keys[i], v);
        if !ok {
          return;
        }
      }
    }
    assert keys[..|keys|] == keys;
  }

  lemma Regroup(a: string, b: string, c: string)
    ensures [] + a + b + [' '] + c == a + (b + ([' '] + c))
  {
  }

  /** appendLineProtocol without the destination prefix. */
  method LineOf(p: Point) returns (r: Printed)
    ensures r == PrintLine(p)
  {
    hide Esc, TagsPart, FieldsPart, NoneFinite;
    KeysAreTags(p.tags);
    KeysAreFields(p.fields);
    var buf := AppendEsc([], p.measurement, MEASUREMENT_SPECIAL);
    var tagKeys := SortKeys(p.tags.Keys);
    buf := AppendTags(buf, tagKeys, p.tags);
    if |p.fields| == 0 {
      return NoFields;
    }
    assert exists k :: k in p.fields;
    var fieldKeys := SortKeys(p.fields.Keys);
    var first, ok;
    buf, first, ok := AppendFields(buf + [' '], fieldKeys, p.fields);
    if !ok {
      return Unsupported;
    }
    if first {
      return Skipped;
    }
    Regroup(Esc(p.measurement, MEASUREMENT_SPECIAL), TagsPart(tagKeys, p.tags), FieldsPart(fieldKeys, p.fields));
    assert buf + [' '] + Decimal(p.ts) == LineText(p.measurement, tagKeys, p.tags, fieldKeys, p.fields, p.ts);
    hide LineText;
    r := Line(buf + [' '] + Decimal(p.ts));
  }

  /** What a batch of points is written as: a line each, skipping points without a finite field;
      nothing if a point cannot be written. */
  ghost function PrintLines(points: seq<Point>): Printed {
    if points == [] then Line([])
    else
      var n := |points| - 1;
      var before, last := PrintLines(points[..n]), PrintLine(points[n]);
      if !before.Line? || last.Skipped? then before
      else if last.Line? then Line(before.text + last.text + ['\n'])
      else last
  }

  method LinesToProtocolBytes(points: seq<Point>) returns (r: Printed)
    ensures r == PrintLines(points)
  {
    hide PrintLine;
    var buf := [];
    for i := 0 to |points|
      invariant PrintLines(points[..i]) == Line(buf)
    {
      assert points[..i + 1][..i] == points[..i];
      var line := LineOf(points[i]);
      match line {
        case Line(text) => buf := buf + text + ['\n'];
        case Skipped =>
        case _ =>
          FailsAt(points, i);
          return line;
      }
    }
    assert points[..|points|] == points;
    r := Line(buf);
  }

  lemma {:induction false} FailsAt(points: seq<Point>, i: nat)
    requires i < |points| && PrintLines(points[..i + 1]) == PrintLine(points[i])
    requires !PrintLine(points[i]).Line?
    ensures PrintLines(points) == PrintLine(points[i])
    decreases |points|
  {
    hide PrintLine;
    if i + 1 == |points| {
      assert points[..i + 1] == points;
    } else {
      var n := |points| - 1;
      assert points[..n][..i + 1] == points[..i + 1];
      FailsAt(points[..n], i);
    }
  }
}

/** Extracting series and timestamp from a Line Protocol line (internal/model/lineparse.go). */
module LineParse {
  import opened Text
  import opened SeriesKeys

  const MAX_INT64: nat := 0x7fff_ffff_ffff_ffff

  datatype Parsed = Parsed(measurement: string, tags: seq<Pair>, ts: nat) | Bad

  datatype Option<+T> = None | Some(value: T)

  // ---------------------------------------------------------------- what the parser computes

  /** The scan for separating spaces: whether the next char is escaped, whether a string is open, and
      where the last separating space was. */
  datatype Scan = Scan(escaped: bool, quoted: bool, space: int)

  const START := Scan(false, false, -1)

  function Step(st: Scan, c: char, i: nat): Scan {
    if st.escaped then st.(escaped := false)
    else if c == '\\' then st.(escaped := true)
    else if c == '"' then st.(quoted := !st.quoted)
    else if c == ' ' && !st.quoted then st.(space := i)
    else st
  }

  function ScanFrom(s: string, st: Scan, i: nat): Scan {
    if s == [] then st else ScanFrom(s[1..], Step(st, s[0], i), i + 1)
  }

  /** The first char of `stops` that is not escaped, or the end. */
  function FirstUnescaped(s: string, stops: string, escaped: bool): (i: nat)
    ensures i <= |s|
    ensures i < |s| ==> s[i] in stops
  {
    if s == [] then 0
    else if escaped then 1 + FirstUnescaped(s[1..], stops, false)
    else if s[0] == '\\' then 1 + FirstUnescaped(s[1..], stops, true)
    else if s[0] in stops then 0
    else 1 + FirstUnescaped(s[1..], stops, false)
  }

  function Unescaped(s: string): string {
    if s == [] then []
    else if s[0] == '\\' && |s| > 1 then [s[1]] + Unescaped(s[2..])
    else [s[0]] + Unescaped(s[1..])
  }

  function WithoutCR(line: string): string {
    if line != [] && line[|line| - 1] == '\r' then WithoutCR(line[..|line| - 1]) else line
  }

  /** One `key=value`; both sides must be there. */
  function SplitPair(kv: string): Option<Pair> {
    var i := FirstUnescaped(kv, "=", false);
    if i == |kv| || i == 0 || i == |kv| - 1 then None
    else Some((Unescaped(kv[..i]), Unescaped(kv[i + 1..])))
  }

  /** Puts tags that were already split off in front. */
  function Before(pairs: seq<Pair>, rest: Option<seq<Pair>>): Option<seq<Pair>> {
    if rest.None? then None else Some(pairs + rest.value)
  }

  /** The pair in `kv`, if there is any text. */
  function PairIn(kv: string): Option<seq<Pair>> {
    if kv == [] then Some([])
    else if SplitPair(kv).None? then None
    else Some([SplitPair(kv).value])
  }

  /** The tags between the commas; nothing between two commas is ignored. */
  function SplitTags(s: string): Option<seq<Pair>>
    decreases |s|
  {
    var i := FirstUnescaped(s, ",", false);
    var first := PairIn(s[..i]);
    if first.None? then None
    else if i == |s| then first
    else Before(first.value, SplitTags(s[i + 1..]))
  }

  function Timestamp(token: string): Option<nat> {
    if token == [] || !AllDigits(token) then None
    else if ValueOf(token) > MAX_INT64 then None
    else Some(ValueOf(token))
  }

  /** Measurement and tags of a line without its timestamp. */
  function ParseSeries(prefix: string, ts: nat): Parsed {
    var mEnd := FirstUnescaped(prefix, ", ", false);
    var measurement := Unescaped(prefix[..mEnd]);
    var section := prefix[mEnd..][..FirstUnescaped(prefix[mEnd..], " ", false)];
    if measurement == [] then Bad
    else if section == [] then Parsed(measurement, [], ts)
    else if section[0] != ',' then Bad
    else if section[1..] == [] then Parsed(measurement, [], ts)
    else
      var pairs := SplitTags(section[1..]);
      if pairs.None? || pairs.value == [] then Bad else Parsed(measurement, pairs.value, ts)
  }

  function Parse(raw: string): Parsed {
    var line := WithoutCR(raw);
    var sep := ScanFrom(line, START, 0).space;
    if line == [] || !(0 <= sep < |line|) then Bad
    else
      var ts := Timestamp(line[sep + 1..]);
      if ts.None? then Bad else ParseSeries(line[..sep], ts.value)
  }

  // ---------------------------------------------------------------- the loops of the parser

  lemma {:induction false} SpaceInRange(s: string, st: Scan, i: nat)
    requires st.space < i
    ensures ScanFrom(s, st, i).space < i + |s|
    ensures st.space >= -1 ==> ScanFrom(s, st, i).space >= -1
    decreases |s|
  {
    if s != [] {
      SpaceInRange(s[1..], Step(st, s[0], i), i + 1);
    }
  }

  method FindUnescaped(s: string, stops: string) returns (i: nat)
    ensures i == FirstUnescaped(s, stops, false)
  {
    var escaped := false;
    i := 0;
    while i < |s|
      invariant i <= |s| && i + FirstUnescaped(s[i..], stops, escaped) == FirstUnescaped(s, stops, false)
    {
      if escaped {
        escaped := false;
      } else if s[i] == '\\' {
        escaped := true;
      } else if s[i] in stops {
        return;
      }
      i := i + 1;
    }
  }

  lemma UnescapeEnds(s: string)
    ensures [] + Unescaped(s[0..]) == Unescaped(s)
    ensures forall out: string :: out + Unescaped(s[|s|..]) == out
  {
    assert s[0..] == s && s[|s|..] == [];
    assert forall out: string :: out + [] == out;
  }

  /** One turn of the loop below. */
  lemma UnescapeStep(s: string, i: nat, out: string)
    requires i < |s|
    ensures var j := if s[i] == '\\' && i + 1 < |s| then i + 1 else i;
            out + Unescaped(s[i..]) == out + [s[j]] + Unescaped(s[j + 1..])
  {
    var t := s[i..];
    assert t[1..] == s[i + 1..];
    if s[i] == '\\' && i + 1 < |s| {
      assert t[2..] == s[i + 2..] && t[1] == s[i + 1];
    }
  }

  method Unescape(s: string) returns (out: string)
    ensures out == Unescaped(s)
  {
    hide Unescaped;
    out := [];
    var i := 0;
    UnescapeEnds(s);
    while i < |s|
      invariant i <= |s| && out + Unescaped(s[i..]) == Unescaped(s)
    {
      UnescapeStep(s, i, out);
      if s[i] == '\\' && i + 1 < |s| {
        i := i + 1;
      }
      out := out + [s[i]];
      i := i + 1;
    }
  }

  method SplitTagKV(kv: string) returns (r: Option<Pair>)
    ensures r == SplitPair(kv)
  {
    var escaped := false;
    for i := 0 to |kv|
      invariant i + FirstUnescaped(kv[i..], "=", escaped) == FirstUnescaped(kv, "=", false)
    {
      if escaped {
        escaped := false;
      } else if kv[i] == '\\' {
        escaped := true;
      } else if kv[i] == '=' {
        if i == 0 || i == |kv| - 1 {
          return None;
        }
        var k := Unescape(kv[..i]);
        var v := Unescape(kv[i + 1..]);
        return Some((k, v));
      }
    }
    r := None;
  }

  lemma NextChar(s: string, i: nat, stops: string, escaped: bool)
    requires i < |s|
    ensures FirstUnescaped(s[i..], stops, escaped) ==
            if escaped then 1 + FirstUnescaped(s[i + 1..], stops, false)
            else if s[i] == '\\' then 1 + FirstUnescaped(s[i + 1..], stops, true)
            else if s[i] in stops then 0
            else 1 + FirstUnescaped(s[i + 1..], stops, false)
  {
    assert s[i..][1..] == s[i + 1..];
  }

  lemma BeforeBefore(a: seq<Pair>, b: seq<Pair>, rest: Option<seq<Pair>>)
    ensures Before(a, Before(b, rest)) == Before(a + b, rest)
    ensures Before([], rest) == rest
  {
    if rest.Some? {
      assert a + (b + rest.value) == a + b + rest.value;
      assert [] + rest.value == rest.value;
    }
  }

  method TakePair(pairs: seq<Pair>, kv: string) returns (r: Option<seq<Pair>>)
    ensures r == Before(pairs, PairIn(kv))
  {
    if |kv| > 0 {
      var p := SplitTagKV(kv);
      return if p.None? then None else Some(pairs + [p.value]);
    }
    assert pairs + [] == pairs;
    return Some(pairs);
  }

  method SplitSection(section: string) returns (r: Option<seq<Pair>>)
    ensures r == SplitTags(section)
  {
    hide SplitPair, Before, PairIn, SplitTags, FirstUnescaped;
    var pairs: seq<Pair> := [];
    var start, escaped := 0, false;
    BeforeBefore([], [], SplitTags(section));
    for i := 0 to |section|
      invariant start <= i && Before(pairs, SplitTags(section[start..])) == SplitTags(section)
      invariant i - start + FirstUnescaped(section[i..], ",", escaped) == FirstUnescaped(section[start..], ",", false)
    {
      NextChar(section, i, ",", escaped);
      if escaped {
        escaped := false;
      } else if section[i] == '\\' {
        escaped := true;
      } else if section[i] == ',' {
        NextTag(section, start, i, pairs);
        var taken := TakePair(pairs, section[start..i]);
        if taken.None? {
          return None;
        }
        pairs := taken.value;
        start := i + 1;
      }
    }
    assert FirstUnescaped(section[|section|..], ",", escaped) == 0;
    LastTag(section, start, pairs);
    r := TakePair(pairs, section[start..]);
  }

  lemma NextTag(section: string, start: nat, i: nat, pairs: seq<Pair>)
    requires start <= i < |section| && FirstUnescaped(section[start..], ",", false) == i - start
    ensures Before(pairs, SplitTags(section[start..])) ==
            var taken := Before(pairs, PairIn(section[start..i]));
            if taken.None? then None else Before(taken.value, SplitTags(section[i + 1..]))
  {
    hide SplitPair, FirstUnescaped;
    var s := section[start..];
    assert s[..i - start] == section[start..i] && s[i - start + 1..] == section[i + 1..];
    var first := PairIn(section[start..i]);
    if first.Some? {
      BeforeBefore(pairs, first.value, SplitTags(section[i + 1..]));
    }
  }

  lemma LastTag(section: string, start: nat, pairs: seq<Pair>)
    requires start <= |section| && FirstUnescaped(section[start..], ",", false) == |section| - start
    ensures Before(pairs, SplitTags(section[start..])) == Before(pairs, PairIn(section[start..]))
  {
    hide SplitPair, FirstUnescaped;
    var s := section[start..];
    assert s[..|section| - start] == s;
  }

  method LastSeparator(line: string) returns (sep: int)
    ensures sep == ScanFrom(line, START, 0).space
  {
    var spaces: seq<nat> := [];
    var inQuote := false;
    var i := 0;
    while i < |line|
      invariant i <= |line| ==> ScanFrom(line[i..], Scan(false, inQuote, Last(spaces)), i) == ScanFrom(line, START, 0)
      invariant i > |line| ==> ScanFrom(line, START, 0).space == Last(spaces)
    {
      match line[i] {
        case '\\' =>
          if i + 1 < |line| {
            assert line[i..][1..][1..] == line[i + 2..];
          } else {
            assert line[i..][1..] == [];
          }
          i := i + 1;
        case '"' => inQuote := !inQuote;
        case ' ' =>
          if !inQuote {
            spaces := spaces + [i];
          }
        case _ =>
      }
      i := i + 1;
    }
    sep := Last(spaces);
  }

  function Last(spaces: seq<nat>): int {
    if spaces == [] then -1 else spaces[|spaces| - 1]
  }

  method ParseLine(raw: string) returns (r: Parsed)
    ensures r == Parse(raw)
  {
    hide FirstUnescaped, Unescaped, SplitTags, ScanFrom;
    var line := raw;
    while line != [] && line[|line| - 1] == '\r'
      invariant WithoutCR(line) == WithoutCR(raw)
    {
      line := line[..|line| - 1];
    }
    if line == [] {
      return Bad;
    }
    SpaceInRange(line, START, 0);
    var sep := LastSeparator(line);
    if sep < 0 {
      return Bad;
    }
    var token := line[sep + 1..];
    if token == [] {
      return Bad;
    }
    for i := 0 to |token|
      invariant forall k | 0 <= k < i :: IsDigit(token[k])
    {
      if !IsDigit(token[i]) {
        assert token[i] in token;
        return Bad;
      }
    }
    var ts := ValueOf(token);
    if ts > MAX_INT64 {
      return Bad;
    }
    var prefix := line[..sep];
    var mEnd := FindUnescaped(prefix, ", ");
    var measurement := Unescape(prefix[..mEnd]);
    if measurement == [] {
      return Bad;
    }
    var section := prefix[mEnd..];
    var fieldsSep := FindUnescaped(section, " ");
    section := section[..fieldsSep];
    if section != [] {
      if section[0] != ',' {
        return Bad;
      }
      section := section[1..];
    }
    if section == [] {
      return Parsed(measurement, [], ts);
    }
    var pairs := SplitSection(section);
    if pairs.None? || pairs.value == [] {
      return Bad;
    }
    r := Parsed(measurement, pairs.value, ts);
  }

  // ---------------------------------------------------------------- which lines are accepted

  lemma {:induction false} SpaceIs(s: string, st: Scan, i: nat)
    requires st.space < i
    ensures var k := ScanFrom(s, st, i).space; k == st.space || (i <= k < i + |s| && s[k - i] == ' ')
    decreases |s|
  {
    if s != [] {
      SpaceIs(s[1..], Step(st, s[0], i), i + 1);
    }
  }

  /** Only a line that ends in a space and a decimal timestamp of 64 bits is accepted, with that timestamp. */
  lemma AcceptedEndsInTimestamp(raw: string)
    ensures Parse(raw).Parsed? ==>
              exists i | 0 <= i < |WithoutCR(raw)| ::
                && WithoutCR(raw)[i] == ' ' && WithoutCR(raw)[i + 1..] != [] && AllDigits(WithoutCR(raw)[i + 1..])
                && Parse(raw).ts == ValueOf(WithoutCR(raw)[i + 1..]) <= MAX_INT64 && Parse(raw).measurement != []
  {
    hide WithoutCR, ScanFrom, FirstUnescaped, SplitTags, Unescaped, ValueOf;
    var line := WithoutCR(raw);
    SpaceIs(line, START, 0);
    SpaceInRange(line, START, 0);
    if Parse(raw).Parsed? {
      var sep := ScanFrom(line, START, 0).space;
      assert line[sep] == ' ' && Timestamp(line[sep + 1..]).Some?;
    }
  }

  /** A line read from a body with CRLF endings is read like one without. */
  lemma {:induction false} TrailingCRIgnored(line: string, n: nat)
    ensures Parse(line + seq(n, _ => '\r')) == Parse(line)
  {
    hide Timestamp, ParseSeries, ScanFrom;
    var crs := seq(n, _ => '\r');
    if n > 0 {
      TrailingCRIgnored(line, n - 1);
      assert (line + crs)[..|line + crs| - 1] == line + seq(n - 1, _ => '\r');
    } else {
      assert line + crs == line;
    }
  }
}

/** How printed text passes through the parser's search for the space before the timestamp. */
module QuoteScan {
  import opened Text
  import opened SeriesKeys
  import opened LineProtocol
  import opened LineParse

  /** The number of double quotes that no backslash escapes; `escaped` tells of the first char. */
  function Quotes(s: string, escaped: bool): nat {
    if s == [] then 0
    else if escaped then Quotes(s[1..], false)
    else if s[0] == '\\' then Quotes(s[1..], true)
    else (if s[0] == '"' then 1 else 0) + Quotes(s[1..], false)
  }

  function KeyQuotes(k: string): nat {
    Quotes(Esc(k, TAG_SPECIAL), false)
  }

  /** The unescaped quotes in the keys of the printed fields. */
  function FieldQuotes(keys: seq<string>, fields: map<string, Value>): nat
    requires forall k | k in keys :: k in fields
  {
    if keys == [] then 0
    else
      var n := |keys| - 1;
      FieldQuotes(keys[..n], fields)
      + if fields[keys[n]].NotFinite? then 0 else KeyQuotes(keys[n])
  }

  predicate Odd(n: nat) {
    n % 2 == 1
  }

  lemma OddSum(a: nat, b: nat)
    ensures Odd(a + b) <==> Odd(a) != Odd(b)
    ensures !Odd(0) && Odd(1)
  {
  }

  // ---------------------------------------------------------------- quotes and spaces

  lemma {:induction false} ScanConcat(a: string, b: string, st: Scan, i: nat)
    ensures ScanFrom(a + b, st, i) == ScanFrom(b, ScanFrom(a, st, i), i + |a|)
    decreases |a|
  {
    if a == [] {
      assert a + b == b;
    } else {
      assert (a + b)[1..] == a[1..] + b;
      ScanConcat(a[1..], b, Step(st, a[0], i), i + 1);
    }
  }

  lemma ScanNothing(st: Scan, i: nat)
    ensures ScanFrom([], st, i) == st
  {
  }

  lemma ScanOne(c: char, st: Scan, i: nat)
    ensures ScanFrom([c], st, i) == Step(st, c, i)
  {
    assert [c][1..] == [];
  }

  /** After the text nothing is escaped, and a string is open exactly if one was open before and the
      number of quotes is even, or the other way round. */
  predicate Toggles(s: string, quotes: nat, st: Scan, i: nat) {
    !ScanFrom(s, st, i).escaped && (ScanFrom(s, st, i).quoted <==> st.quoted != Odd(quotes))
  }

  lemma TogglesConcat(a: string, b: string, qa: nat, qb: nat, st: Scan, i: nat)
    requires Toggles(a, qa, st, i) && Toggles(b, qb, ScanFrom(a, st, i), i + |a|)
    ensures Toggles(a + b, qa + qb, st, i)
  {
    hide ScanFrom, Odd;
    ScanConcat(a, b, st, i);
    OddSum(qa, qb);
  }

  lemma TogglesEnds(s: string, quotes: nat, st: Scan, i: nat)
    requires Toggles(s, quotes, st, i)
    ensures !ScanFrom(s, st, i).escaped
  {
  }

  lemma {:induction false} ScanQuoted(s: string, st: Scan, i: nat)
    ensures ScanFrom(s, st, i).quoted <==> st.quoted != Odd(Quotes(s, st.escaped))
    decreases |s|
  {
    hide Odd;
    OddSum(0, 0);
    if s != [] {
      ScanQuoted(s[1..], Step(st, s[0], i), i + 1);
      OddSum(1, Quotes(s[1..], false));
    }
  }

  /** A text without backslash and quote. */
  predicate PlainText(s: string) {
    '\\' !in s && '"' !in s
  }

  lemma {:induction false} ScanPlain(s: string, st: Scan, i: nat)
    requires PlainText(s) && !st.escaped
    ensures Toggles(s, 0, st, i)
    decreases |s|
  {
    hide Odd;
    OddSum(0, 0);
    if s != [] {
      ScanPlain(s[1..], Step(st, s[0], i), i + 1);
    }
  }

  lemma ScanPair(c: char, escape: bool, st: Scan, i: nat)
    requires !st.escaped && (escape || c !in STRING_SPECIAL)
    ensures Toggles(if escape then ['\\', c] else [c], 0, st, i)
  {
    hide ScanFrom, Odd;
    OddSum(0, 0);
    if escape {
      assert ['\\', c] == ['\\'] + [c];
      ScanConcat(['\\'], [c], st, i);
      ScanOne('\\', st, i);
      ScanOne(c, Step(st, '\\', i), i + 1);
    } else {
      ScanOne(c, st, i);
    }
  }

  /** In a printed string value a quote or backslash never stands alone. */
  lemma {:induction false} ScanString(s: string, st: Scan, i: nat)
    requires !st.escaped
    ensures Toggles(Esc(s, STRING_SPECIAL), 0, st, i)
    decreases |s|
  {
    hide ScanFrom, Odd;
    OddSum(0, 0);
    if s == [] {
      ScanNothing(st, i);
    } else {
      var e := if s[0] in STRING_SPECIAL then ['\\', s[0]] else [s[0]];
      ScanPair(s[0], s[0] in STRING_SPECIAL, st, i);
      ScanString(s[1..], ScanFrom(e, st, i), i + |e|);
      TogglesConcat(e, Esc(s[1..], STRING_SPECIAL), 0, 0, st, i);
    }
  }

  lemma ScanQuote(st: Scan, i: nat)
    requires !st.escaped
    ensures Toggles(['"'], 1, st, i)
  {
    hide ScanFrom, Odd;
    OddSum(0, 0);
    ScanOne('"', st, i);
  }

  lemma ScanQuotedString(s: string, st: Scan, i: nat)
    requires !st.escaped
    ensures Toggles(['"'] + Esc(s, STRING_SPECIAL) + ['"'], 0, st, i)
  {
    hide ScanFrom, Esc, Odd;
    var e := Esc(s, STRING_SPECIAL);
    ScanQuote(st, i);
    ScanString(s, ScanFrom(['"'], st, i), i + 1);
    TogglesConcat(['"'], e, 1, 0, st, i);
    ScanQuote(ScanFrom(['"'] + e, st, i), i + 1 + |e|);
    TogglesConcat(['"'] + e, ['"'], 1, 1, st, i);
    OddSum(1, 1);
    OddSum(0, 0);
  }

  lemma ScanValue(v: Value, st: Scan, i: nat)
    requires !st.escaped
    ensures Toggles(ValueText(v), 0, st, i)
  {
    hide Decimal, ScanFrom, Esc, Toggles, Odd;
    match v {
      case Str(s) => ScanQuotedString(s, st, i);
      case Int(n) =>
        DecimalPlain(n);
        ScanPlain(ValueText(v), st, i);
      case _ => ScanPlain(ValueText(v), st, i);
    }
  }

  lemma DecimalPlain(n: int)
    ensures PlainText(Decimal(n)) && ' ' !in Decimal(n)
  {
  }

  /** A name is followed by a char that ends any escape. */
  lemma ScanName(name: string, c: char, st: Scan, i: nat)
    requires !st.escaped && c != '\\' && c != '"'
    ensures Toggles(name + [c], Quotes(name, false), st, i)
  {
    hide ScanFrom, Quotes, Odd;
    ScanConcat(name, [c], st, i);
    ScanQuoted(name, st, i);
    ScanOne(c, ScanFrom(name, st, i), i + |name|);
  }

  lemma ScanField(k: string, v: Value, st: Scan, i: nat)
    requires !st.escaped
    ensures Toggles(FieldText(k, v), KeyQuotes(k), st, i)
  {
    hide ValueText, ScanFrom, Esc, Quotes, Odd, Toggles;
    var e := Esc(k, TAG_SPECIAL);
    ScanName(e, '=', st, i);
    ThenValue(e + ['='], Quotes(e, false), v, st, i);
  }

  lemma ThenValue(before: string, quotes: nat, v: Value, st: Scan, i: nat)
    requires Toggles(before, quotes, st, i)
    ensures Toggles(before + ValueText(v), quotes, st, i)
  {
    hide ValueText, ScanFrom, Odd, Toggles;
    TogglesEnds(before, quotes, st, i);
    ScanValue(v, ScanFrom(before, st, i), i + |before|);
    TogglesConcat(before, ValueText(v), quotes, 0, st, i);
  }

  /** The printed fields toggle by the quotes of their keys, whatever the string values contain. */
  lemma {:induction false} ScanFields(keys: seq<string>, fields: map<string, Value>, st: Scan, i: nat)
    requires !st.escaped && forall k | k in keys :: k in fields
    ensures Toggles(FieldsPart(keys, fields), FieldQuotes(keys, fields), st, i)
  {
    hide FieldText, ScanFrom, KeyQuotes, Odd;
    if keys == [] {
      ScanNothing(st, i);
      OddSum(0, 0);
    } else {
      var n := |keys| - 1;
      ScanFields(keys[..n], fields, st, i);
      if !fields[keys[n]].NotFinite? {
        var before, quotes := FieldsPart(keys[..n], fields), FieldQuotes(keys[..n], fields);
        ScanComma(before, quotes, st, i);
        ScanNext(before + (if before == [] then [] else [',']), quotes, keys[n], fields[keys[n]], st, i);
      }
    }
  }

  lemma ScanComma(before: string, quotes: nat, st: Scan, i: nat)
    requires Toggles(before, quotes, st, i)
    ensures Toggles(before + (if before == [] then [] else [',']), quotes, st, i)
  {
    hide ScanFrom, Odd, Toggles;
    var comma := if before == [] then [] else [','];
    TogglesEnds(before, quotes, st, i);
    ScanPlain(comma, ScanFrom(before, st, i), i + |before|);
    TogglesConcat(before, comma, quotes, 0, st, i);
  }

  lemma ScanNext(before: string, quotes: nat, k: string, v: Value, st: Scan, i: nat)
    requires Toggles(before, quotes, st, i)
    ensures Toggles(before + FieldText(k, v), quotes + KeyQuotes(k), st, i)
  {
    hide FieldText, ScanFrom, KeyQuotes, Odd, Toggles;
    TogglesEnds(before, quotes, st, i);
    ScanField(k, v, ScanFrom(before, st, i), i + |before|);
    TogglesConcat(before, FieldText(k, v), quotes, KeyQuotes(k), st, i);
  }

  lemma ScanHead(names: string, keys: seq<string>, fields: map<string, Value>)
    requires forall k | k in keys :: k in fields
    ensures Toggles(names + ([' '] + FieldsPart(keys, fields)), Quotes(names, false) + FieldQuotes(keys, fields),
                    START, 0)
  {
    hide FieldsPart, FieldQuotes, ScanFrom, Quotes, Odd, Toggles;
    var f := FieldsPart(keys, fields);
    assert names + ([' '] + f) == names + [' '] + f;
    ScanName(names, ' ', START, 0);
    TogglesEnds(names + [' '], Quotes(names, false), START, 0);
    ScanFields(keys, fields, ScanFrom(names + [' '], START, 0), |names + [' ']|);
    TogglesConcat(names + [' '], f, Quotes(names, false), FieldQuotes(keys, fields), START, 0);
  }

  lemma {:induction false} ScanNoSpace(s: string, st: Scan, i: nat)
    requires PlainText(s) && !st.escaped && ' ' !in s
    ensures ScanFrom(s, st, i) == st
    decreases |s|
  {
    if s != [] {
      ScanNoSpace(s[1..], st, i + 1);
    }
  }

  /** The last separating space is the one before the timestamp exactly if no string is open there;
      otherwise it is one before that, or there is none. */
  lemma SeparatorOf(head: string, token: string)
    requires !ScanFrom(head, START, 0).escaped && PlainText(token) && ' ' !in token
    ensures var sep := ScanFrom(head + [' '] + token, START, 0).space;
            if ScanFrom(head, START, 0).quoted then sep < |head| else sep == |head|
  {
    var st := ScanFrom(head, START, 0);
    ScanConcat(head + [' '], token, START, 0);
    ScanConcat(head, [' '], START, 0);
    ScanOne(' ', st, |head|);
    ScanNoSpace(token, Step(st, ' ', |head|), |head| + 1);
    SpaceInRange(head, START, 0);
  }
}

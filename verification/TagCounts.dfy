/** Why misread tags never form the series of the point by accident: what a tag section is read as has the
    chars of the printed tags, each as often, only if no backslash was lost. */
module TagCounts {
  import opened SeriesKeys
  import opened LineProtocol
  import opened LineParse
  import opened TagSection

  // ---------------------------------------------------------------- counting chars

  function Count(s: string, c: char): nat {
    multiset(s)[c]
  }

  /** The occurrences of `c` that no backslash escapes; `escaped` tells of the first char. */
  function Bare(s: string, c: char, escaped: bool): nat {
    if s == [] then 0
    else if escaped then Bare(s[1..], c, false)
    else if s[0] == '\\' then Bare(s[1..], c, true)
    else (if s[0] == c then 1 else 0) + Bare(s[1..], c, false)
  }

  lemma CountConcat(a: string, b: string, c: char)
    ensures Count(a + b, c) == Count(a, c) + Count(b, c)
  {
  }

  lemma CountOne(d: char, c: char)
    ensures Count([d], c) == (if d == c then 1 else 0) && Count([], c) == 0
  {
  }

  /** Around a delimiter. */
  lemma CountHalves(a: string, d: char, b: string, c: char)
    ensures Count(a + ([d] + b), c) == Count(a, c) + (if d == c then 1 else 0) + Count(b, c)
  {
    hide Count;
    CountConcat(a, [d] + b, c);
    CountConcat([d], b, c);
    CountOne(d, c);
  }

  lemma CountFirst(s: string, c: char)
    requires s != []
    ensures Count(s, c) == (if s[0] == c then 1 else 0) + Count(s[1..], c)
  {
    assert s == [s[0]] + s[1..];
  }

  lemma {:induction false} UnescapedKeeps(s: string, c: char)
    requires c != '\\'
    ensures Count(Unescaped(s), c) == Count(s, c)
  {
    if s == [] {
    } else if s[0] == '\\' && |s| > 1 {
      UnescapedKeeps(s[2..], c);
      assert s == [s[0], s[1]] + s[2..];
    } else {
      UnescapedKeeps(s[1..], c);
      CountFirst(s, c);
    }
  }

  lemma {:induction false} EscKeeps(s: string, special: string, c: char)
    requires c != '\\'
    ensures Count(Esc(s, special), c) == Count(s, c)
  {
    if s != [] {
      EscKeeps(s[1..], special, c);
      CountFirst(s, c);
    }
  }

  lemma UnescapedPair(c: char, rest: string)
    ensures Unescaped(['\\', c] + rest) == [c] + Unescaped(rest)
  {
    var s := ['\\', c] + rest;
    assert s[2..] == rest && s[1] == c;
  }

  lemma UnescapedChar(c: char, rest: string)
    requires c != '\\'
    ensures Unescaped([c] + rest) == [c] + Unescaped(rest)
  {
    assert ([c] + rest)[1..] == rest;
  }

  lemma BarePair(d: char, rest: string, c: char)
    ensures Bare(['\\', d] + rest, c, false) == Bare(rest, c, false)
  {
    var s := ['\\', d] + rest;
    assert s[1..][1..] == rest && s[1..][0] == d;
  }

  lemma BareChar(d: char, rest: string, c: char)
    requires d != '\\'
    ensures Bare([d] + rest, c, false) == (if d == c then 1 else 0) + Bare(rest, c, false)
  {
    assert ([d] + rest)[1..] == rest;
  }

  /** A text falls into what is before and behind its first unescaped delimiter. */
  lemma {:induction false} Halves(a: string, d: char, b: string, stops: string, c: char)
    requires '\\' !in stops && d in stops && FirstUnescaped(a + ([d] + b), stops, false) == |a|
    ensures Unescaped(a + ([d] + b)) == Unescaped(a) + ([d] + Unescaped(b))
    ensures Bare(a + ([d] + b), c, false) == Bare(a, c, false) + (if d == c then 1 else 0) + Bare(b, c, false)
    decreases |a|
  {
    hide Unescaped, Bare, FirstUnescaped;
    var s := a + ([d] + b);
    if a == [] {
      assert s == [d] + b;
      UnescapedChar(d, b);
      BareChar(d, b, c);
      NothingIn();
    } else if a[0] == '\\' {
      LoneBefore(a, d, b, stops);
      var t := a[2..];
      assert a == ['\\', a[1]] + t && s == ['\\', a[1]] + (t + ([d] + b));
      TakenEscaped(a[1], t + ([d] + b), stops);
      Halves(t, d, b, stops, c);
      UnescapedPair(a[1], t);
      UnescapedPair(a[1], t + ([d] + b));
      Grouped3(a[1], Unescaped(t), [d] + Unescaped(b));
      BarePair(a[1], t, c);
      BarePair(a[1], t + ([d] + b), c);
    } else {
      var t := a[1..];
      assert a == [a[0]] + t && s == [a[0]] + (t + ([d] + b));
      FirstOf(a[0], t + ([d] + b), stops, false);
      Halves(t, d, b, stops, c);
      UnescapedChar(a[0], t);
      UnescapedChar(a[0], t + ([d] + b));
      Grouped3(a[0], Unescaped(t), [d] + Unescaped(b));
      BareChar(a[0], t, c);
      BareChar(a[0], t + ([d] + b), c);
    }
  }

  /** The same for the first delimiter that a search finds. */
  lemma HalvesAt(s: string, d: char, i: nat, c: char)
    requires d != '\\' && i < |s| && i == FirstUnescaped(s, [d], false)
    ensures s[i] == d && Unescaped(s) == Unescaped(s[..i]) + ([d] + Unescaped(s[i + 1..]))
    ensures Bare(s, c, false) == Bare(s[..i], c, false) + (if d == c then 1 else 0) + Bare(s[i + 1..], c, false)
  {
    hide Unescaped, Bare, FirstUnescaped;
    var a, b := s[..i], s[i + 1..];
    assert s == a + ([d] + b);
    Halves(a, d, b, [d], c);
  }

  lemma Grouped3(c: char, x: string, y: string)
    ensures [c] + (x + y) == [c] + x + y
  {
  }

  lemma NothingIn()
    ensures Unescaped([]) == [] && forall c :: Bare([], c, false) == 0
  {
  }

  /** A backslash right before a delimiter would escape it. */
  lemma LoneBefore(a: string, d: char, b: string, stops: string)
    requires a != [] && a[0] == '\\' && FirstUnescaped(a + ([d] + b), stops, false) == |a|
    ensures |a| > 1
  {
    var s := a + ([d] + b);
    assert s == ['\\', s[1]] + s[2..];
    TakenEscaped(s[1], s[2..], stops);
  }

  lemma {:induction false} NoneBare(s: string, c: char, escaped: bool)
    requires c != '\\'
    ensures Bare(s[..FirstUnescaped(s, [c], escaped)], c, escaped) == 0
  {
    var i := FirstUnescaped(s, [c], escaped);
    if s != [] && i > 0 {
      NoneBare(s[1..], c, !escaped && s[0] == '\\');
      assert s[..i][1..] == s[1..][..i - 1];
    }
  }

  // ---------------------------------------------------------------- what is read has the chars of the text

  /** Pairs written out without any escape. */
  function Spelled(pairs: seq<Pair>): string {
    if pairs == [] then [] else [','] + pairs[0].0 + ['='] + pairs[0].1 + Spelled(pairs[1..])
  }

  /** How often there is nothing between two commas. */
  function Empties(s: string): nat
    decreases |s|
  {
    var i := FirstUnescaped(s, ",", false);
    (if i == 0 then 1 else 0) + if i == |s| then 0 else Empties(s[i + 1..])
  }

  lemma PairText(kv: string)
    requires SplitPair(kv).Some?
    ensures var p := SplitPair(kv).value;
            Unescaped(kv) == p.0 + (['='] + p.1)
  {
    hide Unescaped, FirstUnescaped, Bare;
    var i := FirstUnescaped(kv, "=", false);
    HalvesAt(kv, '=', i, '=');
  }

  lemma PairChars(kv: string, c: char)
    requires SplitPair(kv).Some?
    ensures var p := SplitPair(kv).value;
            Count(Unescaped(kv), c) == Count(p.0, c) + (if c == '=' then 1 else 0) + Count(p.1, c)
  {
    hide SplitPair, Unescaped, Count;
    var p := SplitPair(kv).value;
    PairText(kv);
    CountHalves(p.0, '=', p.1, c);
  }

  lemma SpelledFirst(p: Pair, pairs: seq<Pair>, c: char)
    ensures Count(Spelled([p] + pairs), c)
            == (if c == ',' then 1 else 0) + (Count(p.0, c) + (if c == '=' then 1 else 0) + Count(p.1, c))
               + Count(Spelled(pairs), c)
  {
    hide Count;
    assert ([p] + pairs)[1..] == pairs;
    var rest := Spelled(pairs);
    assert Spelled([p] + pairs) == [','] + (p.0 + (['='] + (p.1 + rest)));
    CountHalves([], ',', p.0 + (['='] + (p.1 + rest)), c);
    assert [] + ([','] + (p.0 + (['='] + (p.1 + rest)))) == [','] + (p.0 + (['='] + (p.1 + rest)));
    CountHalves(p.0, '=', p.1 + rest, c);
    CountConcat(p.1, rest, c);
    CountOne(',', c);
  }

  /** Reading pairs neither loses nor makes up a char, but for commas with nothing between them; and each
      unescaped comma ends a pair or is one of these. */
  lemma {:induction false} ReadChars(s: string, pairs: seq<Pair>, c: char)
    requires SplitTags(s) == Some(pairs)
    ensures (if c == ',' then 1 else 0) + Count(Unescaped(s), c)
            == Count(Spelled(pairs), c) + (if c == ',' then Empties(s) else 0)
    ensures Bare(s, ',', false) + 1 == |pairs| + Empties(s)
    decreases |s|
  {
    hide PairIn, Spelled, Unescaped, FirstUnescaped, Bare, Count;
    var i := FirstUnescaped(s, ",", false);
    var kv := s[..i];
    NoneBare(s, ',', false);
    if i == |s| {
      assert kv == s;
      ReadLast(kv, pairs, c);
    } else {
      HalvesAt(s, ',', i, ',');
      CountHalves(Unescaped(kv), ',', Unescaped(s[i + 1..]), c);
      var rest := SplitTags(s[i + 1..]).value;
      ReadChars(s[i + 1..], rest, c);
      ReadFirst(kv, rest, pairs, c);
    }
  }

  lemma ReadLast(kv: string, pairs: seq<Pair>, c: char)
    requires PairIn(kv) == Some(pairs)
    ensures (if c == ',' then 1 else 0) + Count(Unescaped(kv), c)
            == Count(Spelled(pairs), c) + (if c == ',' && kv == [] then 1 else 0)
    ensures |pairs| == if kv == [] then 0 else 1
  {
    hide PairIn, Count;
    assert pairs == pairs + [] && Spelled([]) == [];
    CountOne(',', c);
    ReadFirst(kv, [], pairs, c);
  }

  lemma ReadFirst(kv: string, rest: seq<Pair>, pairs: seq<Pair>, c: char)
    requires PairIn(kv).Some? && pairs == PairIn(kv).value + rest
    ensures (if c == ',' then 1 else 0) + Count(Unescaped(kv), c) + Count(Spelled(rest), c)
            == Count(Spelled(pairs), c) + (if c == ',' && kv == [] then 1 else 0)
    ensures |pairs| == |rest| + if kv == [] then 0 else 1
  {
    hide SplitPair, Spelled, Count, Unescaped;
    if kv == [] {
      assert pairs == rest;
      NothingIn();
      CountOne(',', c);
    } else {
      PairChars(kv, c);
      SpelledFirst(SplitPair(kv).value, rest, c);
    }
  }

  // ---------------------------------------------------------------- the printed text

  lemma SpelledNone()
    ensures Spelled([]) == []
  {
  }

  lemma {:induction false} PrintedChars(keys: seq<string>, tags: map<string, string>, c: char)
    requires (forall k | k in keys :: k in tags) && c != '\\'
    ensures Count(TagsPart(keys, tags), c) == Count(Spelled(PairsOf(keys, tags)), c)
  {
    hide Esc, Count, Spelled;
    if keys == [] {
      assert Spelled([]) == [] by { SpelledNone(); }
    } else {
      var k, rest := keys[0], TagsPart(keys[1..], tags);
      EscKeeps(k, TAG_SPECIAL, c);
      EscKeeps(tags[k], TAG_SPECIAL, c);
      PrintedChars(keys[1..], tags, c);
      SpelledFirst((k, tags[k]), PairsOf(keys[1..], tags), c);
      CountHalves(Esc(k, TAG_SPECIAL), '=', Esc(tags[k], TAG_SPECIAL) + rest, c);
      CountConcat(Esc(tags[k], TAG_SPECIAL), rest, c);
      CountConcat([','], Esc(k, TAG_SPECIAL) + (['='] + (Esc(tags[k], TAG_SPECIAL) + rest)), c);
      CountOne(',', c);
    }
  }

  // ---------------------------------------------------------------- no backslash may be lost

  /** The backslashes that are read. */
  function Read(s: string): nat {
    Count(Unescaped(s), '\\')
  }

  lemma ReadPair(c: char, rest: string)
    ensures Read(['\\', c] + rest) == (if c == '\\' then 1 else 0) + Read(rest)
  {
    hide Unescaped, Count;
    UnescapedPair(c, rest);
    CountConcat([c], Unescaped(rest), '\\');
    CountOne(c, '\\');
  }

  lemma ReadChar(c: char, rest: string)
    requires c != '\\'
    ensures Read([c] + rest) == Read(rest)
  {
    hide Unescaped, Count;
    UnescapedChar(c, rest);
    CountConcat([c], Unescaped(rest), '\\');
    CountOne(c, '\\');
  }

  /** What an escaped text is read as has at most its backslashes, and all of them only if each stands
      directly before a char that is escaped. */
  lemma {:induction false} ReadBound(s: string, rest: string)
    requires rest != [] && rest[0] != '\\'
    ensures Read(Esc(s, TAG_SPECIAL) + rest) <= Count(s, '\\') + Read(rest)
    ensures Read(Esc(s, TAG_SPECIAL) + rest) == Count(s, '\\') + Read(rest) ==> Kept(s, TAG_SPECIAL, "")
    decreases |s|
  {
    hide Read, Count, Kept, Esc;
    if s == [] {
      EscNothing(TAG_SPECIAL);
      assert [] + rest == rest;
      CountOne('x', '\\');
      KeptNone("");
    } else {
      CountFirst(s, '\\');
      EscCons(s, TAG_SPECIAL, rest);
      KeptCons(s, TAG_SPECIAL, "");
      if s[0] in TAG_SPECIAL {
        ReadBound(s[1..], rest);
        ReadPair(s[0], Esc(s[1..], TAG_SPECIAL) + rest);
      } else if s[0] != '\\' {
        ReadBound(s[1..], rest);
        ReadChar(s[0], Esc(s[1..], TAG_SPECIAL) + rest);
      } else {
        if |s| > 1 {
          ReadBound(s[2..], rest);
        }
        BackslashRead(s, rest);
      }
    }
  }

  lemma BackslashRead(s: string, rest: string)
    requires s != [] && s[0] == '\\' && rest != [] && rest[0] != '\\'
    requires |s| > 1 ==>
               && Read(Esc(s[2..], TAG_SPECIAL) + rest) <= Count(s[2..], '\\') + Read(rest)
               && (Read(Esc(s[2..], TAG_SPECIAL) + rest) == Count(s[2..], '\\') + Read(rest) ==>
                     Kept(s[2..], TAG_SPECIAL, ""))
    ensures Read(Esc(s, TAG_SPECIAL) + rest) <= Count(s, '\\') + Read(rest)
    ensures Read(Esc(s, TAG_SPECIAL) + rest) == Count(s, '\\') + Read(rest) ==> Kept(s, TAG_SPECIAL, "")
  {
    hide Read, Count, Kept, Esc;
    CountFirst(s, '\\');
    EscCons(s, TAG_SPECIAL, rest);
    if |s| == 1 {
      EscNothing(TAG_SPECIAL);
      assert s[1..] == [] && [] + rest == rest;
      assert ['\\'] + rest == ['\\', rest[0]] + rest[1..] && rest == [rest[0]] + rest[1..];
      ReadPair(rest[0], rest[1..]);
      ReadChar(rest[0], rest[1..]);
    } else {
      var u := Esc(s[2..], TAG_SPECIAL) + rest;
      CountFirst(s[1..], '\\');
      EscCons(s[1..], TAG_SPECIAL, rest);
      assert s[1..][1..] == s[2..];
      if s[1] in TAG_SPECIAL {
        KeptCons(s, TAG_SPECIAL, "");
        KeptCons(s[1..], TAG_SPECIAL, "");
        Regrouped('\\', '\\', s[1], u);
        ReadPair('\\', [s[1]] + u);
        ReadChar(s[1], u);
      } else {
        Grouped('\\', s[1], u);
        ReadPair(s[1], u);
      }
    }
  }

  ghost predicate AllKept(keys: seq<string>, tags: map<string, string>, stops: string)
    requires forall k | k in keys :: k in tags
  {
    forall k | k in keys :: Kept(k, TAG_SPECIAL, stops) && Kept(tags[k], TAG_SPECIAL, stops)
  }

  lemma AllKeptCons(keys: seq<string>, tags: map<string, string>, stops: string)
    requires keys != [] && forall k | k in keys :: k in tags
    ensures AllKept(keys, tags, stops) <==>
            && Kept(keys[0], TAG_SPECIAL, stops) && Kept(tags[keys[0]], TAG_SPECIAL, stops)
            && AllKept(keys[1..], tags, stops)
  {
    hide Kept;
    assert keys == [keys[0]] + keys[1..];
    forall k | k in keys
      ensures k == keys[0] || k in keys[1..]
    {
    }
  }

  /** The same for printed tags. */
  lemma {:induction false} TagsReadBound(keys: seq<string>, tags: map<string, string>, rest: string)
    requires (forall k | k in keys :: k in tags) && rest != [] && rest[0] != '\\'
    ensures Read(TagsPart(keys, tags) + rest) <= Count(Spelled(PairsOf(keys, tags)), '\\') + Read(rest)
    ensures Read(TagsPart(keys, tags) + rest) == Count(Spelled(PairsOf(keys, tags)), '\\') + Read(rest) ==>
              AllKept(keys, tags, "")
  {
    hide Read, Count, Kept, Esc, Spelled, AllKept;
    if keys == [] {
      assert [] + rest == rest;
      SpelledNone();
      CountOne('x', '\\');
      AllKeptNone(tags, "");
    } else {
      var k, v, t := keys[0], tags[keys[0]], TagsPart(keys[1..], tags) + rest;
      assert TagsPart(keys, tags) + rest == [','] + (Esc(k, TAG_SPECIAL) + (['='] + (Esc(v, TAG_SPECIAL) + t)));
      ReadChar(',', Esc(k, TAG_SPECIAL) + (['='] + (Esc(v, TAG_SPECIAL) + t)));
      ReadBound(k, ['='] + (Esc(v, TAG_SPECIAL) + t));
      ReadChar('=', Esc(v, TAG_SPECIAL) + t);
      assert keys[1..] != [] ==> t[0] == ',';
      ReadBound(v, t);
      TagsReadBound(keys[1..], tags, rest);
      SpelledFirst((k, v), PairsOf(keys[1..], tags), '\\');
      AllKeptCons(keys, tags, "");
    }
  }

  lemma AllKeptNone(tags: map<string, string>, stops: string)
    ensures AllKept([], tags, stops)
  {
  }

  // ---------------------------------------------------------------- no delimiter may appear

  /** If every backslash stands before a char that is escaped, an escaped text shows a delimiter exactly
      where a backslash stands before it. */
  lemma {:induction false} BareBound(s: string, rest: string, d: char)
    requires Kept(s, TAG_SPECIAL, "") && d in TAG_SPECIAL
    ensures Bare(Esc(s, TAG_SPECIAL) + rest, d, false) >= Bare(rest, d, false)
    ensures Bare(Esc(s, TAG_SPECIAL) + rest, d, false) == Bare(rest, d, false) ==> Kept(s, TAG_SPECIAL, [d])
    decreases |s|
  {
    hide Kept, Esc, Bare;
    if s == [] {
      EscNothing(TAG_SPECIAL);
      assert [] + rest == rest;
      KeptNone([d]);
    } else {
      EscCons(s, TAG_SPECIAL, rest);
      KeptCons(s, TAG_SPECIAL, "");
      KeptCons(s, TAG_SPECIAL, [d]);
      if s[0] in TAG_SPECIAL {
        BareBound(s[1..], rest, d);
        BarePair(s[0], Esc(s[1..], TAG_SPECIAL) + rest, d);
      } else if s[0] != '\\' {
        BareBound(s[1..], rest, d);
        BareChar(s[0], Esc(s[1..], TAG_SPECIAL) + rest, d);
      } else {
        var u := Esc(s[2..], TAG_SPECIAL) + rest;
        EscCons(s[1..], TAG_SPECIAL, rest);
        assert s[1..][1..] == s[2..];
        KeptCons(s[1..], TAG_SPECIAL, "");
        KeptCons(s[1..], TAG_SPECIAL, [d]);
        BareBound(s[2..], rest, d);
        Regrouped('\\', '\\', s[1], u);
        BarePair('\\', [s[1]] + u, d);
        BareChar(s[1], u, d);
      }
    }
  }

  lemma KeptNone(stops: string)
    ensures Kept([], TAG_SPECIAL, stops)
  {
  }

  lemma {:induction false} TagsBareBound(keys: seq<string>, tags: map<string, string>, rest: string, d: char)
    requires (forall k | k in keys :: k in tags) && AllKept(keys, tags, "") && (d == ',' || d == ' ')
    ensures var least := (if d == ',' then |keys| else 0) + Bare(rest, d, false);
            && Bare(TagsPart(keys, tags) + rest, d, false) >= least
            && (Bare(TagsPart(keys, tags) + rest, d, false) == least ==> AllKept(keys, tags, [d]))
  {
    hide Kept, Esc, Bare, AllKept;
    if keys == [] {
      assert [] + rest == rest;
      AllKeptNone(tags, [d]);
    } else {
      var k, v, t := keys[0], tags[keys[0]], TagsPart(keys[1..], tags) + rest;
      assert TagsPart(keys, tags) + rest == [','] + (Esc(k, TAG_SPECIAL) + (['='] + (Esc(v, TAG_SPECIAL) + t)));
      AllKeptCons(keys, tags, "");
      AllKeptCons(keys, tags, [d]);
      BareChar(',', Esc(k, TAG_SPECIAL) + (['='] + (Esc(v, TAG_SPECIAL) + t)), d);
      BareBound(k, ['='] + (Esc(v, TAG_SPECIAL) + t), d);
      BareChar('=', Esc(v, TAG_SPECIAL) + t, d);
      BareBound(v, t, d);
      TagsBareBound(keys[1..], tags, rest, d);
    }
  }

  // ---------------------------------------------------------------- no key may be cut short

  /** The lengths of all keys together. */
  function KeysLength(pairs: seq<Pair>): nat {
    if pairs == [] then 0 else |pairs[0].0| + KeysLength(pairs[1..])
  }

  /** No backslash but before equals signs. */
  lemma {:induction false} KeptPasses(s: string, rest: string)
    requires Kept(s, TAG_SPECIAL, ", ")
    ensures FirstUnescaped(Esc(s, TAG_SPECIAL) + rest, ", ", false)
            == |Esc(s, TAG_SPECIAL)| + FirstUnescaped(rest, ", ", false)
    decreases |s|
  {
    hide Kept, Esc, FirstUnescaped;
    if s == [] {
      EscNothing(TAG_SPECIAL);
      assert [] + rest == rest;
    } else {
      EscCons(s, TAG_SPECIAL, rest);
      EscCons(s, TAG_SPECIAL, []);
      KeptCons(s, TAG_SPECIAL, ", ");
      if s[0] in TAG_SPECIAL {
        KeptPasses(s[1..], rest);
        TakenEscaped(s[0], Esc(s[1..], TAG_SPECIAL) + rest, ", ");
      } else if s[0] != '\\' {
        KeptPasses(s[1..], rest);
        FirstOf(s[0], Esc(s[1..], TAG_SPECIAL) + rest, ", ", false);
      } else {
        var u := Esc(s[2..], TAG_SPECIAL) + rest;
        EscCons(s[1..], TAG_SPECIAL, rest);
        EscCons(s[1..], TAG_SPECIAL, []);
        assert s[1..][1..] == s[2..];
        KeptCons(s[1..], TAG_SPECIAL, ", ");
        KeptPasses(s[2..], rest);
        Regrouped('\\', '\\', s[1], u);
        TakenEscaped('\\', [s[1]] + u, ", ");
        FirstOf(s[1], u, ", ", false);
      }
    }
  }

  /** A key with a backslash before an equals sign is read only up to there. */
  lemma {:induction false} KeyCut(k: string, rest: string)
    requires Kept(k, TAG_SPECIAL, ", ") && Stopped(rest, "=")
    ensures |Taken(Esc(k, TAG_SPECIAL) + rest, TAG_SPECIAL)| <= |k|
    ensures |Taken(Esc(k, TAG_SPECIAL) + rest, TAG_SPECIAL)| == |k| ==> '\\' !in k
    decreases |k|
  {
    hide Kept, Esc, Taken;
    if k == [] {
      EscNothing(TAG_SPECIAL);
      assert [] + rest == rest && rest == [rest[0]] + rest[1..];
      TakenChar(rest[0], rest[1..], TAG_SPECIAL);
    } else {
      EscCons(k, TAG_SPECIAL, rest);
      KeptCons(k, TAG_SPECIAL, ", ");
      assert k == [k[0]] + k[1..];
      if k[0] in TAG_SPECIAL {
        KeyCut(k[1..], rest);
        TakenEscaped(k[0], Esc(k[1..], TAG_SPECIAL) + rest, TAG_SPECIAL);
      } else if k[0] != '\\' {
        KeyCut(k[1..], rest);
        TakenChar(k[0], Esc(k[1..], TAG_SPECIAL) + rest, TAG_SPECIAL);
      } else {
        var u := Esc(k[2..], TAG_SPECIAL) + rest;
        EscCons(k[1..], TAG_SPECIAL, rest);
        assert k[1..][1..] == k[2..];
        Regrouped('\\', '\\', k[1], u);
        TakenEscaped('\\', [k[1]] + u, TAG_SPECIAL);
        TakenChar(k[1], u, TAG_SPECIAL);
      }
    }
  }

  /** Where the first printed pair ends when its backslashes stand before equals signs only. */
  lemma FirstKept(k: string, v: string, w: string)
    requires Kept(k, TAG_SPECIAL, ", ") && Kept(v, TAG_SPECIAL, ", ") && Stopped(w, ", ")
    ensures var r := Esc(k, TAG_SPECIAL) + (['='] + (Esc(v, TAG_SPECIAL) + w));
            var i := |Esc(k, TAG_SPECIAL)| + 1 + |Esc(v, TAG_SPECIAL)|;
            FirstUnescaped(r, ", ", false) == i && r[i..] == w
  {
    hide Kept, Esc, FirstUnescaped;
    KeptPasses(k, ['='] + (Esc(v, TAG_SPECIAL) + w));
    FirstOf('=', Esc(v, TAG_SPECIAL) + w, ", ", false);
    KeptPasses(v, w);
    assert w == [w[0]] + w[1..];
    FirstOf(w[0], w[1..], ", ", false);
  }

  lemma ReadsFrom(k: string, v: string, w: string, pairs: seq<Pair>)
    requires Kept(k, TAG_SPECIAL, ", ") && Kept(v, TAG_SPECIAL, ", ") && Stopped(w, ", ")
    requires TagsOf(Esc(k, TAG_SPECIAL) + (['='] + (Esc(v, TAG_SPECIAL) + w))) == Some(pairs)
    ensures pairs != [] && |pairs[0].0| <= |k| && (|pairs[0].0| == |k| ==> '\\' !in k)
    ensures if w[0] == ' ' then pairs[1..] == [] else TagsOf(w[1..]) == Some(pairs[1..])
  {
    hide Kept, Esc, FirstUnescaped, TagsOf, Taken, SplitPair;
    var r := Esc(k, TAG_SPECIAL) + (['='] + (Esc(v, TAG_SPECIAL) + w));
    var i := |Esc(k, TAG_SPECIAL)| + 1 + |Esc(v, TAG_SPECIAL)|;
    FirstKept(k, v, w);
    TagsStep(r);
    PairStep(r);
    KeyCut(k, ['='] + (Esc(v, TAG_SPECIAL) + w));
    assert |r[..i]| == i && r[i] == r[i..][0] && r[i + 1..] == r[i..][1..];
    if w[0] != ' ' {
      assert pairs[1..] == TagsOf(w[1..]).value;
    }
  }

  lemma {:induction false} KeysBound(keys: seq<string>, tags: map<string, string>, rest: string, pairs: seq<Pair>)
    requires keys != [] && (forall k | k in keys :: k in tags) && AllKept(keys, tags, ", ") && Stopped(rest, " ")
    requires TagsOf((TagsPart(keys, tags) + rest)[1..]) == Some(pairs)
    ensures KeysLength(pairs) <= KeysLength(PairsOf(keys, tags))
    ensures KeysLength(pairs) == KeysLength(PairsOf(keys, tags)) ==> forall k | k in keys :: '\\' !in k
  {
    hide Kept, Esc, AllKept, TagsOf, TagsPart, PairsOf;
    var k, v, w := keys[0], tags[keys[0]], TagsPart(keys[1..], tags) + rest;
    AllKeptCons(keys, tags, ", ");
    TagsBegin(keys, tags, rest);
    ReadsFrom(k, v, w, pairs);
    KeysLengthCons((k, v), PairsOf(keys[1..], tags));
    assert pairs == [pairs[0]] + pairs[1..];
    KeysLengthCons(pairs[0], pairs[1..]);
    if w[0] == ' ' {
      TagsNone(tags);
      assert keys == [k];
    } else {
      KeysBound(keys[1..], tags, rest, pairs[1..]);
      assert keys == [k] + keys[1..];
    }
  }

  lemma KeysLengthCons(p: Pair, rest: seq<Pair>)
    ensures KeysLength([p] + rest) == |p.0| + KeysLength(rest) && KeysLength([]) == 0
  {
    assert ([p] + rest)[1..] == rest;
  }

  // ---------------------------------------------------------------- all together

  /** The pairs are those of the printed tags as far as counting can tell. */
  ghost predicate SameCounts(pairs: seq<Pair>, printed: seq<Pair>) {
    && |pairs| == |printed| && KeysLength(pairs) == KeysLength(printed)
    && forall c :: Count(Spelled(pairs), c) == Count(Spelled(printed), c)
  }

  /** A part of a text that ends before a space has the spaces of the first part exactly if it is that. */
  lemma SameSpaces(t: string, f: string, m: nat)
    requires var r := t + ([' '] + f);
             m <= |r| && (m < |r| ==> r[m] == ' ') && Count(r[..m], ' ') == Count(t, ' ')
    ensures m == |t|
  {
    var r := t + ([' '] + f);
    hide Count;
    if m < |t| {
      assert t == r[..m] + ([' '] + t[m + 1..]);
      CountHalves(r[..m], ' ', t[m + 1..], ' ');
    } else if m > |t| {
      assert r[..m] == t + ([' '] + r[..m][|t| + 1..]);
      CountHalves(t, ' ', r[..m][|t| + 1..], ' ');
    }
  }

  /** The section that is read is the printed one, and there is something between all its commas. */
  lemma SectionIsPrinted(keys: seq<string>, tags: map<string, string>, f: string, pairs: seq<Pair>)
    requires keys != [] && (forall k | k in keys :: k in tags) && SameCounts(pairs, PairsOf(keys, tags))
    requires var r := TagsPart(keys, tags) + ([' '] + f);
             TagsOf(r[1..]) == Some(pairs)
    ensures var t := TagsPart(keys, tags);
            && FirstUnescaped(t + ([' '] + f), " ", false) == |t|
            && SplitTags(t[1..]) == Some(pairs) && Empties(t[1..]) == 0
  {
    hide Count, Spelled, Esc, FirstUnescaped, SplitTags, KeysLength, PairsOf, Unescaped, Bare, Empties;
    var t := TagsPart(keys, tags);
    var r := t + ([' '] + f);
    var n := FirstUnescaped(r[1..], " ", false);
    var sec := r[1..][..n];
    assert r == [','] + r[1..] && r[..1 + n] == [','] + sec;
    FirstOf(',', r[1..], " ", false);
    CountConcat([','], sec, ' ');
    CountOne(',', ' ');
    ReadChars(sec, pairs, ' ');
    UnescapedKeeps(sec, ' ');
    PrintedChars(keys, tags, ' ');
    SameSpaces(t, f, 1 + n);
    assert sec == t[1..] && t == [','] + sec;
    ReadChars(sec, pairs, ',');
    UnescapedKeeps(sec, ',');
    PrintedChars(keys, tags, ',');
    CountConcat([','], sec, ',');
    CountOne(',', ',');
  }

  /** Every backslash stands before a char that is escaped, and that char is an equals sign. */
  lemma BackslashesKept(keys: seq<string>, tags: map<string, string>, f: string, pairs: seq<Pair>)
    requires keys != [] && (forall k | k in keys :: k in tags) && SameCounts(pairs, PairsOf(keys, tags))
    requires var t := TagsPart(keys, tags);
             && FirstUnescaped(t + ([' '] + f), " ", false) == |t|
             && SplitTags(t[1..]) == Some(pairs) && Empties(t[1..]) == 0
    ensures AllKept(keys, tags, "") && AllKept(keys, tags, " ") && AllKept(keys, tags, ",")
  {
    hide Count, Spelled, Esc, FirstUnescaped, SplitTags, KeysLength, PairsOf, Unescaped, Bare, AllKept, Read, Empties;
    var t := TagsPart(keys, tags);
    assert t == [','] + t[1..];
    ReadChar(',', t[1..]);
    ReadChars(t[1..], pairs, '\\');
    assert Read(t[1..]) == Count(Spelled(pairs), '\\') by { ReadIs(t[1..]); }
    TagsReadBound(keys, tags, [' '] + f);
    Halves(t, ' ', f, " ", ' ');
    Halves(t, ' ', f, " ", ',');
    ReadAround(t + ([' '] + f), t, f);
    NoneBare(t + ([' '] + f), ' ', false);
    assert (t + ([' '] + f))[..|t|] == t;
    BareChar(' ', f, ' ');
    BareChar(' ', f, ',');
    BareChar(',', t[1..], ',');
    ReadChars(t[1..], pairs, ',');
    TagsBareBound(keys, tags, [' '] + f, ' ');
    TagsBareBound(keys, tags, [' '] + f, ',');
    assert |PairsOf(keys, tags)| == |keys| by { PairsLength(keys, tags); }
  }

  lemma ReadIs(s: string)
    ensures Read(s) == Count(Unescaped(s), '\\')
  {
  }

  lemma ReadAround(u: string, t: string, f: string)
    requires Unescaped(u) == Unescaped(t) + ([' '] + Unescaped(f))
    ensures Read(u) == Read(t) + Read([' '] + f)
  {
    hide Count, Unescaped;
    CountHalves(Unescaped(t), ' ', Unescaped(f), '\\');
    ReadChar(' ', f);
  }

  lemma {:induction false} PairsLength(keys: seq<string>, tags: map<string, string>)
    requires forall k | k in keys :: k in tags
    ensures |PairsOf(keys, tags)| == |keys|
  {
    if keys != [] {
      PairsLength(keys[1..], tags);
    }
  }

  /** If the pairs that are read have the chars of the printed tags, no backslash was lost. */
  lemma CountsKeepAll(keys: seq<string>, tags: map<string, string>, f: string, pairs: seq<Pair>)
    requires keys != [] && (forall k | k in keys :: k in tags) && SameCounts(pairs, PairsOf(keys, tags))
    requires TagsOf((TagsPart(keys, tags) + ([' '] + f))[1..]) == Some(pairs)
    ensures TagsClean(keys, tags)
  {
    hide Count, Spelled, SplitTags, TagsOf, TagsPart, KeysLength, PairsOf, Kept, OnlyBeforeEquals;
    hide FirstUnescaped, Empties;
    SectionIsPrinted(keys, tags, f, pairs);
    BackslashesKept(keys, tags, f, pairs);
    forall k | k in keys
      ensures Kept(k, TAG_SPECIAL, ", ") && Kept(tags[k], TAG_SPECIAL, ", ")
    {
      BothKept(k);
      BothKept(tags[k]);
      ValueKept(tags[k]);
    }
    assert AllKept(keys, tags, ", ");
    KeysBound(keys, tags, [' '] + f, pairs);
    forall k | k in keys
      ensures CleanTag(k, tags[k])
    {
      ValueKept(tags[k]);
    }
  }

  lemma BothKept(s: string)
    ensures Kept(s, TAG_SPECIAL, " ") && Kept(s, TAG_SPECIAL, ",") ==> Kept(s, TAG_SPECIAL, ", ")
  {
  }

  // ---------------------------------------------------------------- counts do not depend on an order

  lemma {:induction false} CountsAdd(a: seq<Pair>, b: seq<Pair>, c: char)
    ensures Count(Spelled(a + b), c) == Count(Spelled(a), c) + Count(Spelled(b), c)
    ensures KeysLength(a + b) == KeysLength(a) + KeysLength(b)
  {
    hide Count, Spelled, KeysLength;
    if a == [] {
      SpelledNone();
      CountOne(c, c);
      KeysLengthNone();
      assert [] + b == b;
    } else {
      var rest := a[1..];
      assert a == [a[0]] + rest && a + b == [a[0]] + (rest + b);
      CountsAdd(rest, b, c);
      SpelledFirst(a[0], rest, c);
      SpelledFirst(a[0], rest + b, c);
      KeysLengthCons(a[0], rest);
      KeysLengthCons(a[0], rest + b);
    }
  }

  lemma KeysLengthNone()
    ensures KeysLength([]) == 0
  {
  }

  lemma {:induction false} PairsAdd(a: seq<string>, b: seq<string>, tags: map<string, string>)
    requires (forall k | k in a :: k in tags) && forall k | k in b :: k in tags
    ensures PairsOf(a + b, tags) == PairsOf(a, tags) + PairsOf(b, tags)
  {
    if a == [] {
      assert a + b == b;
    } else {
      PairsAdd(a[1..], b, tags);
      assert (a + b)[1..] == a[1..] + b;
    }
  }

  lemma TakeOut(b: seq<string>, i: nat)
    requires i < |b|
    ensures multiset(b[..i] + b[i + 1..]) == multiset(b) - multiset{b[i]}
  {
    assert b == b[..i] + [b[i]] + b[i + 1..];
  }

  lemma StillSame(a: seq<string>, b: seq<string>, i: nat)
    requires a != [] && i < |b| && a[0] == b[i] && multiset(a) == multiset(b)
    ensures a[..0] + a[1..] == a[1..] && multiset(a[1..]) == multiset(b[..i] + b[i + 1..])
  {
    TakeOut(a, 0);
    TakeOut(b, i);
    assert a[..0] + a[1..] == a[1..];
  }

  lemma CountsWithout(b: seq<string>, i: nat, tags: map<string, string>, c: char)
    requires i < |b| && forall k | k in b :: k in tags
    ensures forall k | k in b[..i] + b[i + 1..] :: k in tags
    ensures Count(Spelled(PairsOf(b, tags)), c)
            == Count(Spelled(PairsOf([b[i]], tags)), c) + Count(Spelled(PairsOf(b[..i] + b[i + 1..], tags)), c)
    ensures KeysLength(PairsOf(b, tags))
            == KeysLength(PairsOf([b[i]], tags)) + KeysLength(PairsOf(b[..i] + b[i + 1..], tags))
  {
    hide Count, Spelled, KeysLength, PairsOf;
    var before, after := b[..i], b[i + 1..];
    assert b == before + ([b[i]] + after);
    PairsAdd(before, [b[i]] + after, tags);
    PairsAdd([b[i]], after, tags);
    PairsAdd(before, after, tags);
    CountsAdd(PairsOf(before, tags), PairsOf([b[i]], tags) + PairsOf(after, tags), c);
    CountsAdd(PairsOf([b[i]], tags), PairsOf(after, tags), c);
    CountsAdd(PairsOf(before, tags), PairsOf(after, tags), c);
  }

  /** The pairs over the same keys in another order have the same counts. */
  lemma {:induction false} AnyOrder(a: seq<string>, b: seq<string>, tags: map<string, string>, c: char)
    requires multiset(a) == multiset(b) && (forall k | k in a :: k in tags) && forall k | k in b :: k in tags
    ensures Count(Spelled(PairsOf(a, tags)), c) == Count(Spelled(PairsOf(b, tags)), c)
    ensures KeysLength(PairsOf(a, tags)) == KeysLength(PairsOf(b, tags))
  {
    hide Count, Spelled, KeysLength, PairsOf;
    if a == [] {
      assert |multiset(b)| == 0;
    } else {
      var i := Place(a, b);
      StillSame(a, b, i);
      CountsWithout(a, 0, tags, c);
      CountsWithout(b, i, tags, c);
      AnyOrder(a[1..], b[..i] + b[i + 1..], tags, c);
    }
  }

  lemma Place(a: seq<string>, b: seq<string>) returns (i: nat)
    requires a != [] && multiset(a) == multiset(b)
    ensures i < |b| && b[i] == a[0]
  {
    assert a[0] in multiset(b);
    i :| i < |b| && b[i] == a[0];
  }

  lemma {:induction false} DistinctValue(pairs: seq<Pair>, i: nat)
    requires i < |pairs| && Distinct(KeysOf(pairs))
    ensures pairs[i].0 in MapOf(pairs) && MapOf(pairs)[pairs[i].0] == pairs[i].1
  {
    var n := |pairs| - 1;
    var keys := KeysOf(pairs);
    assert KeysOf(pairs[..n]) == keys[..n];
    if i < n {
      assert keys[i] != keys[n];
      DistinctValue(pairs[..n], i);
    }
  }

  lemma {:induction false} PairsFrom(pairs: seq<Pair>, tags: map<string, string>)
    requires forall i | 0 <= i < |pairs| :: pairs[i].0 in tags && tags[pairs[i].0] == pairs[i].1
    ensures PairsOf(KeysOf(pairs), tags) == pairs
  {
    var keys := KeysOf(pairs);
    if pairs != [] {
      PairsFrom(pairs[1..], tags);
      assert keys[1..] == KeysOf(pairs[1..]);
    }
  }

  /** Pairs that make up the series of the tags are the printed ones in some order. */
  lemma SameSeriesSameCounts(pairs: seq<Pair>, tags: map<string, string>)
    requires multiset(KeysOf(pairs)) == multiset(tags.Keys) && MapOf(pairs) == tags
    ensures (forall k | k in SortedKeys(tags.Keys) :: k in tags)
    ensures SameCounts(pairs, PairsOf(SortedKeys(tags.Keys), tags))
  {
    hide SortedKeys, PairsOf, Spelled, Count, KeysLength, MapOf;
    KeysAreTags(tags);
    var got, keys := KeysOf(pairs), SortedKeys(tags.Keys);
    assert tags.Keys == (set k | k in got);
    DistinctIsSet(got);
    forall i | 0 <= i < |pairs|
      ensures pairs[i].0 in tags && tags[pairs[i].0] == pairs[i].1
    {
      DistinctValue(pairs, i);
    }
    PairsFrom(pairs, tags);
    assert |pairs| == |got| == |multiset(got)| == |multiset(keys)| == |keys|;
    PairsLength(keys, tags);
    AnyOrder(got, keys, tags, ' ');
    forall c
      ensures Count(Spelled(pairs), c) == Count(Spelled(PairsOf(keys, tags)), c)
    {
      AnyOrder(got, keys, tags, c);
    }
  }
}

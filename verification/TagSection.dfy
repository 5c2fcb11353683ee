/** Reading back a printed measurement and its tags: what the parser's searches and unescaping make of
    escaped text. */
module TagSection {
  import opened SeriesKeys
  import opened LineProtocol
  import opened LineParse

  /** No backslash, or only directly before chars that are escaped and do not end the text. */
  predicate Kept(s: string, special: string, stops: string) {
    forall i | 0 <= i < |s| && s[i] == '\\' :: i + 1 < |s| && s[i + 1] in special && s[i + 1] !in stops
  }

  predicate OnlyBeforeEquals(s: string) {
    forall i | 0 <= i < |s| && s[i] == '\\' :: i + 1 < |s| && s[i + 1] == '='
  }

  predicate CleanTag(k: string, v: string) {
    '\\' !in k && OnlyBeforeEquals(v)
  }

  function PairsOf(keys: seq<string>, tags: map<string, string>): seq<Pair>
    requires forall k | k in keys :: k in tags
  {
    if keys == [] then [] else [(keys[0], tags[keys[0]])] + PairsOf(keys[1..], tags)
  }

  function Names(m: string, keys: seq<string>, tags: map<string, string>): string
    requires forall k | k in keys :: k in tags
  {
    Esc(m, MEASUREMENT_SPECIAL) + TagsPart(keys, tags)
  }

  // ---------------------------------------------------------------- reading an escaped text up to a stop

  /** The text before the first unescaped stop, unescaped. */
  function Taken(s: string, stops: string): string {
    if s == [] then []
    else if s[0] == '\\' then if |s| == 1 then s else [s[1]] + Taken(s[2..], stops)
    else if s[0] in stops then []
    else [s[0]] + Taken(s[1..], stops)
  }

  lemma {:induction false} TakenIs(s: string, stops: string)
    ensures Unescaped(s[..FirstUnescaped(s, stops, false)]) == Taken(s, stops)
  {
    var n := FirstUnescaped(s, stops, false);
    if s == [] {
    } else if s[0] == '\\' {
      if |s| == 1 {
        assert s[..n] == s && s[1..] == [];
      } else {
        TakenIs(s[2..], stops);
        assert s[1..][1..] == s[2..] && s[..n][2..] == s[2..][..n - 2];
      }
    } else if s[0] !in stops {
      TakenIs(s[1..], stops);
      assert s[..n][1..] == s[1..][..n - 1];
    }
  }

  lemma FirstOf(c: char, rest: string, stops: string, escaped: bool)
    ensures FirstUnescaped([c] + rest, stops, escaped) ==
            if escaped then 1 + FirstUnescaped(rest, stops, false)
            else if c == '\\' then 1 + FirstUnescaped(rest, stops, true)
            else if c in stops then 0
            else 1 + FirstUnescaped(rest, stops, false)
  {
    assert ([c] + rest)[1..] == rest;
  }

  lemma TakenChar(c: char, rest: string, stops: string)
    requires c != '\\'
    ensures Taken([c] + rest, stops) == if c in stops then [] else [c] + Taken(rest, stops)
  {
    assert ([c] + rest)[1..] == rest;
  }

  lemma TakenEscaped(c: char, rest: string, stops: string)
    ensures Taken(['\\', c] + rest, stops) == [c] + Taken(rest, stops)
    ensures FirstUnescaped(['\\', c] + rest, stops, false) == 2 + FirstUnescaped(rest, stops, false)
  {
    var s := ['\\', c] + rest;
    assert s[2..] == rest && s[1..] == [c] + rest && s[1..][1..] == rest;
  }

  lemma KeptCons(s: string, special: string, stops: string)
    requires s != []
    ensures Kept(s, special, stops) <==>
            && (s[0] == '\\' ==> |s| > 1 && s[1] in special && s[1] !in stops)
            && Kept(s[1..], special, stops)
  {
    if Kept(s[1..], special, stops) {
      assert forall i | 0 < i < |s| :: s[i] == s[1..][i - 1];
    }
    if Kept(s, special, stops) {
      assert forall i | 0 <= i < |s| - 1 :: s[1..][i] == s[i + 1];
    }
  }

  lemma EscCons(s: string, special: string, rest: string)
    requires s != []
    ensures Esc(s, special) + rest == (if s[0] in special then ['\\', s[0]] else [s[0]]) + (Esc(s[1..], special) + rest)
  {
  }

  lemma SameAfter(c: char, a: string, b: string)
    ensures [c] + a == [c] + b <==> a == b
  {
    assert ([c] + a)[1..] == a && ([c] + b)[1..] == b;
  }

  /** The text begins with a stop. */
  predicate Stopped(rest: string, stops: string) {
    rest != [] && rest[0] in stops && rest[0] != '\\'
  }

  /** A backslash that was read back from a pair of backslashes is one too few. */
  lemma {:induction false} BackslashesDrop(b: string, s: string, special: string, stops: string, rest: string)
    requires b != [] && (forall i | 0 <= i < |b| :: b[i] == '\\')
    requires '\\' !in special && (forall c | c in stops :: c in special) && Stopped(rest, stops)
    ensures Taken(Esc(s, special) + rest, stops) != b + s
    decreases |s|
  {
    hide Taken, Esc;
    assert (b + s)[0] == '\\';
    var tail := if s == [] then [] else Esc(s[1..], special) + rest;
    if s == [] {
      assert Esc(s, special) == [] by { EscNothing(special); }
      assert [] + rest == rest && rest == [rest[0]] + rest[1..];
      TakenChar(rest[0], rest[1..], stops);
    } else if s[0] != '\\' {
      EscCons(s, special, rest);
      if s[0] in special {
        TakenEscaped(s[0], tail, stops);
      } else {
        TakenChar(s[0], tail, stops);
      }
    } else {
      AfterBackslash(s, special, stops, rest);
      if |s| > 1 && s[1] == '\\' {
        BackslashesDrop(b + ['\\'], s[2..], special, stops, rest);
        assert b + s == ['\\'] + (b + ['\\'] + s[2..]);
        SameAfter('\\', Taken(Esc(s[2..], special) + rest, stops), b + ['\\'] + s[2..]);
      } else if |s| > 1 && s[1] in special {
        assert (b + s)[1] == '\\' && |b + s| >= 3;
      }
    }
  }

  lemma EscNothing(special: string)
    ensures Esc([], special) == []
  {
  }

  /** What is read where the text has a backslash: it escapes the next printed char. */
  lemma AfterBackslash(s: string, special: string, stops: string, rest: string)
    requires s != [] && s[0] == '\\' && '\\' !in special
    requires (forall c | c in stops :: c in special) && Stopped(rest, stops)
    ensures var t := Taken(Esc(s, special) + rest, stops);
            if |s| == 1 then t != [] && t[0] != '\\'
            else if s[1] == '\\' then t == ['\\'] + Taken(Esc(s[2..], special) + rest, stops)
            else if s[1] !in special then t != [] && t[0] != '\\'
            else if s[1] in stops then t == ['\\']
            else t == ['\\', s[1]] + Taken(Esc(s[2..], special) + rest, stops)
  {
    hide Taken, Esc;
    EscCons(s, special, rest);
    if |s| == 1 {
      EscNothing(special);
      assert s[1..] == [] && [] + rest == rest;
      assert Esc(s, special) + rest == ['\\', rest[0]] + rest[1..];
      TakenEscaped(rest[0], rest[1..], stops);
    } else {
      EscCons(s[1..], special, rest);
      assert s[1..][1..] == s[2..];
      AfterPair(s[1], special, stops, Esc(s[2..], special) + rest);
      if s[1] !in special {
        Grouped('\\', s[1], Esc(s[2..], special) + rest);
      }
    }
  }

  lemma AfterPair(c: char, special: string, stops: string, u: string)
    requires '\\' !in special && forall c | c in stops :: c in special
    ensures var t := Taken(if c in special then ['\\'] + (['\\', c] + u) else ['\\', c] + u, stops);
            if c !in special then t == [c] + Taken(u, stops)
            else if c in stops then t == ['\\']
            else t == ['\\', c] + Taken(u, stops)
  {
    hide Taken;
    if c in special {
      Regrouped('\\', '\\', c, u);
      TakenEscaped('\\', [c] + u, stops);
      TakenChar(c, u, stops);
      Grouped('\\', c, Taken(u, stops));
    } else {
      TakenEscaped(c, u, stops);
    }
  }

  lemma Grouped(a: char, b: char, u: string)
    ensures [a] + ([b] + u) == [a, b] + u
  {
  }

  lemma Regrouped(a: char, b: char, c: char, u: string)
    ensures [a] + ([b, c] + u) == [a, b] + ([c] + u)
  {
  }

  /** An escaped text is read back up to the stop after it exactly when it keeps its backslashes, and
      then the stop is found right behind it. */
  lemma {:induction false} TakenBack(s: string, special: string, stops: string, rest: string)
    requires '\\' !in special && (forall c | c in stops :: c in special) && Stopped(rest, stops)
    ensures Taken(Esc(s, special) + rest, stops) == s <==> Kept(s, special, stops)
    ensures Kept(s, special, stops) ==> FirstUnescaped(Esc(s, special) + rest, stops, false) == |Esc(s, special)|
    decreases |s|
  {
    if s == [] {
      assert [] + rest == rest && rest == [rest[0]] + rest[1..];
      TakenChar(rest[0], rest[1..], stops);
    } else {
      KeptCons(s, special, stops);
      EscCons(s, special, rest);
      hide Taken, Kept, FirstUnescaped;
      assert s == [s[0]] + s[1..];
      var tail := Esc(s[1..], special) + rest;
      if s[0] in special {
        TakenBack(s[1..], special, stops, rest);
        TakenEscaped(s[0], tail, stops);
      } else if s[0] != '\\' {
        TakenBack(s[1..], special, stops, rest);
        TakenChar(s[0], tail, stops);
        FirstOf(s[0], tail, stops, false);
      } else {
        if |s| > 1 {
          TakenBack(s[2..], special, stops, rest);
        }
        BackslashTaken(s, special, stops, rest);
      }
    }
  }

  lemma BackslashTaken(s: string, special: string, stops: string, rest: string)
    requires s != [] && s[0] == '\\' && '\\' !in special
    requires (forall c | c in stops :: c in special) && Stopped(rest, stops)
    requires |s| > 1 ==>
               && (Taken(Esc(s[2..], special) + rest, stops) == s[2..] <==> Kept(s[2..], special, stops))
               && (Kept(s[2..], special, stops) ==>
                     FirstUnescaped(Esc(s[2..], special) + rest, stops, false) == |Esc(s[2..], special)|)
    ensures Taken(Esc(s, special) + rest, stops) == s <==> Kept(s, special, stops)
    ensures Kept(s, special, stops) ==> FirstUnescaped(Esc(s, special) + rest, stops, false) == |Esc(s, special)|
  {
    hide Taken, Esc, Kept, FirstUnescaped;
    KeptCons(s, special, stops);
    AfterBackslash(s, special, stops, rest);
    if |s| > 1 {
      KeptCons(s[1..], special, stops);
      assert s[1..][1..] == s[2..] && s == ['\\', s[1]] + s[2..];
      if s[1] == '\\' {
        BackslashesDrop(['\\'], s[2..], special, stops, rest);
        assert s == ['\\'] + (['\\'] + s[2..]);
        SameAfter('\\', Taken(Esc(s[2..], special) + rest, stops), ['\\'] + s[2..]);
      } else if s[1] in special && s[1] !in stops {
        EscCons(s, special, rest);
        EscCons(s[1..], special, rest);
        EscCons(s, special, []);
        EscCons(s[1..], special, []);
        var u := Esc(s[2..], special) + rest;
        assert Esc(s, special) + rest == ['\\', '\\'] + ([s[1]] + u);
        assert |Esc(s, special)| == 3 + |Esc(s[2..], special)|;
        TakenEscaped('\\', [s[1]] + u, stops);
        FirstOf(s[1], u, stops, false);
        var t := Taken(u, stops);
        assert (['\\', s[1]] + t)[2..] == t;
      }
    }
  }

  // ---------------------------------------------------------------- searching for several delimiters

  /** Searching a part that ends at a delimiter for others is searching for all of them. */
  lemma {:induction false} Cut(s: string, a: string, b: string, all: string, escaped: bool)
    requires forall c :: c in all <==> c in a || c in b
    ensures FirstUnescaped(s[..FirstUnescaped(s, a, escaped)], b, escaped) == FirstUnescaped(s, all, escaped)
  {
    var n := FirstUnescaped(s, a, escaped);
    if s != [] && n > 0 {
      Cut(s[1..], a, b, all, !escaped && s[0] == '\\');
      assert s[..n][1..] == s[1..][..n - 1];
    }
  }

  lemma Shift(s: string, stops: string, escaped: bool)
    requires s != [] && (escaped || s[0] == '\\' || s[0] !in stops)
    ensures FirstUnescaped(s, stops, escaped) == 1 + FirstUnescaped(s[1..], stops, !escaped && s[0] == '\\')
  {
  }

  /** The first of some delimiters is the first of more of them, or is found behind that. */
  lemma {:induction false} Past(s: string, some: string, all: string, escaped: bool)
    requires forall c | c in some :: c in all
    ensures var j := FirstUnescaped(s, all, escaped);
            FirstUnescaped(s, some, escaped)
            == if j == |s| || s[j] in some then j else j + 1 + FirstUnescaped(s[j + 1..], some, false)
    decreases |s|
  {
    if s != [] && (escaped || s[0] == '\\' || s[0] !in all) {
      hide FirstUnescaped;
      var still := !escaped && s[0] == '\\';
      Shift(s, some, escaped);
      Shift(s, all, escaped);
      Past(s[1..], some, all, still);
      var j := FirstUnescaped(s[1..], all, still);
      if j < |s| - 1 {
        assert s[1..][j] == s[j + 1] && s[1..][j + 1..] == s[j + 2..];
      }
    }
  }

  /** The tags of a text whose tag section ends at the first unescaped space. */
  function TagsOf(r: string): Option<seq<Pair>> {
    SplitTags(r[..FirstUnescaped(r, " ", false)])
  }

  lemma TagsStep(r: string)
    ensures var i := FirstUnescaped(r, ", ", false);
            TagsOf(r) ==
            if PairIn(r[..i]).None? then None
            else if i == |r| || r[i] == ' ' then PairIn(r[..i])
            else Before(PairIn(r[..i]).value, TagsOf(r[i + 1..]))
  {
    hide PairIn, Before, FirstUnescaped;
    var i, n := FirstUnescaped(r, ", ", false), FirstUnescaped(r, " ", false);
    Cut(r, " ", ",", ", ", false);
    Past(r, " ", ", ", false);
    var s := r[..n];
    assert s[..i] == r[..i];
    if i < n {
      assert s[i + 1..] == r[i + 1..][..n - i - 1];
    }
  }

  lemma PairStep(r: string)
    ensures var i, j := FirstUnescaped(r, ", ", false), FirstUnescaped(r, TAG_SPECIAL, false);
            j <= i && SplitPair(r[..i]) ==
            if j == i || j == 0 || j == i - 1 then None
            else Some((Taken(r, TAG_SPECIAL), Taken(r[j + 1..], ", ")))
    ensures var i, j := FirstUnescaped(r, ", ", false), FirstUnescaped(r, TAG_SPECIAL, false);
            j < i ==> i == j + 1 + FirstUnescaped(r[j + 1..], ", ", false)
  {
    hide FirstUnescaped, Taken, Unescaped;
    var i, j := FirstUnescaped(r, ", ", false), FirstUnescaped(r, TAG_SPECIAL, false);
    Cut(r, ", ", "=", TAG_SPECIAL, false);
    Past(r, ", ", TAG_SPECIAL, false);
    if j < i {
      assert r[..i][..j] == r[..j] && r[..i][j + 1..] == r[j + 1..][..i - j - 1];
      TakenIs(r, TAG_SPECIAL);
      TakenIs(r[j + 1..], ", ");
    }
  }

  // ---------------------------------------------------------------- the tag section

  lemma NameKept(s: string, special: string)
    ensures Kept(s, special, special) <==> '\\' !in s
  {
    if '\\' in s {
      var i :| 0 <= i < |s| && s[i] == '\\';
      assert !(i + 1 < |s| && s[i + 1] in special && s[i + 1] !in special);
    } else {
      assert forall i | 0 <= i < |s| :: s[i] in s;
    }
  }

  lemma ValueKept(s: string)
    ensures Kept(s, TAG_SPECIAL, ", ") <==> OnlyBeforeEquals(s)
  {
  }

  /** The key of the first printed pair ends at its equals sign. */
  lemma FirstKey(k: string, ev: string)
    requires '\\' !in k
    ensures var ek := Esc(k, TAG_SPECIAL);
            var r := ek + (['='] + ev);
            FirstUnescaped(r, TAG_SPECIAL, false) == |ek| && r[|ek| + 1..] == ev && Taken(r, TAG_SPECIAL) == k
  {
    hide FirstUnescaped, Taken, Kept, Esc;
    NameKept(k, TAG_SPECIAL);
    TakenBack(k, TAG_SPECIAL, TAG_SPECIAL, ['='] + ev);
  }

  lemma Behind(ek: string, ev: string, n: nat)
    requires n <= |ev|
    ensures (ek + (['='] + ev))[|ek| + 1 + n..] == ev[n..]
  {
  }

  /** Its value ends at the next comma or space. */
  lemma FirstValue(k: string, ev: string)
    requires '\\' !in k
    ensures var ek, n := Esc(k, TAG_SPECIAL), FirstUnescaped(ev, ", ", false);
            var r := ek + (['='] + ev);
            && FirstUnescaped(r, ", ", false) == |ek| + 1 + n
            && SplitPair(r[..|ek| + 1 + n]) == (if k == [] || n == 0 then None else Some((k, Taken(ev, ", "))))
  {
    hide FirstUnescaped, Taken, Unescaped, SplitPair, Esc;
    var ek := Esc(k, TAG_SPECIAL);
    var r := ek + (['='] + ev);
    FirstKey(k, ev);
    NotAtStart(k, ['='] + ev);
    assert r[|ek|] == '=';
    Past(r, ", ", TAG_SPECIAL, false);
    PairStep(r);
  }

  /** A key that does not keep its backslashes is not read back. */
  lemma LostKey(k: string, ev: string)
    requires '\\' in k
    ensures var r := Esc(k, TAG_SPECIAL) + (['='] + ev);
            var pair := SplitPair(r[..FirstUnescaped(r, ", ", false)]);
            pair.Some? ==> pair.value.0 != k
  {
    hide FirstUnescaped, Taken, Unescaped, SplitPair, Kept, Esc;
    NameKept(k, TAG_SPECIAL);
    TakenBack(k, TAG_SPECIAL, TAG_SPECIAL, ['='] + ev);
    PairStep(Esc(k, TAG_SPECIAL) + (['='] + ev));
  }

  /** The first pair of a printed tag section is read back exactly if nothing in it is empty and no
      backslash is lost; if no backslash is lost but something is empty, it is refused. */
  lemma FirstPair(k: string, v: string, w: string)
    requires Stopped(w, ", ")
    ensures var r := Esc(k, TAG_SPECIAL) + (['='] + (Esc(v, TAG_SPECIAL) + w));
            var i := FirstUnescaped(r, ", ", false);
            && i > 0
            && (SplitPair(r[..i]) == Some((k, v)) <==> k != [] && v != [] && CleanTag(k, v))
            && (CleanTag(k, v) && (k == [] || v == []) ==> SplitPair(r[..i]).None?)
            && (CleanTag(k, v) ==> r[i..] == w)
  {
    hide FirstUnescaped, Taken, Unescaped, SplitPair, Kept, OnlyBeforeEquals, Esc;
    var ev := Esc(v, TAG_SPECIAL) + w;
    NotAtStart(k, ['='] + ev);
    if '\\' in k {
      LostKey(k, ev);
    } else {
      FirstValue(k, ev);
      Behind(Esc(k, TAG_SPECIAL), ev, FirstUnescaped(ev, ", ", false));
      ValueKept(v);
      TakenBack(v, TAG_SPECIAL, ", ", w);
      NotAtStart(v, ['=']);
    }
  }

  /** A printed tag does not begin with a comma or a space. */
  lemma NotAtStart(k: string, rest: string)
    requires rest != [] && rest[0] == '='
    ensures FirstUnescaped(Esc(k, TAG_SPECIAL) + rest, ", ", false) > 0
    ensures k == [] <==> Esc(k, TAG_SPECIAL) == []
  {
    if k == [] {
      assert [] + rest == rest;
    }
  }

  ghost predicate TagsComplete(keys: seq<string>, tags: map<string, string>)
    requires forall k | k in keys :: k in tags
  {
    forall k | k in keys :: k != [] && tags[k] != []
  }

  ghost predicate TagsClean(keys: seq<string>, tags: map<string, string>)
    requires forall k | k in keys :: k in tags
  {
    forall k | k in keys :: CleanTag(k, tags[k])
  }

  lemma TagsCons(keys: seq<string>, tags: map<string, string>)
    requires keys != [] && forall k | k in keys :: k in tags
    ensures TagsComplete(keys, tags) <==> keys[0] != [] && tags[keys[0]] != [] && TagsComplete(keys[1..], tags)
    ensures TagsClean(keys, tags) <==> CleanTag(keys[0], tags[keys[0]]) && TagsClean(keys[1..], tags)
  {
    hide CleanTag;
    assert keys[0] in keys && forall k | k in keys[1..] :: k in keys;
    forall k | k in keys
      ensures k == keys[0] || k in keys[1..]
    {
      var i :| 0 <= i < |keys| && keys[i] == k;
      assert i > 0 ==> keys[1..][i - 1] == k;
    }
  }

  /** The tags from one printed tag on. */
  lemma TagsFrom(k: string, v: string, w: string)
    requires Stopped(w, ", ")
    ensures var r := Esc(k, TAG_SPECIAL) + (['='] + (Esc(v, TAG_SPECIAL) + w));
            && FirstUnescaped(r, " ", false) > 0
            && (TagsOf(r).Some? ==> TagsOf(r).value != [])
            && (TagsOf(r).Some? && TagsOf(r).value[0] == (k, v) ==> k != [] && v != [] && CleanTag(k, v))
            && (CleanTag(k, v) ==> TagsOf(r) ==
                                   if k == [] || v == [] then None
                                   else if w[0] == ' ' then Some([(k, v)])
                                   else Before([(k, v)], TagsOf(w[1..])))
  {
    hide FirstUnescaped, SplitPair, CleanTag, TagsOf, Esc;
    var r := Esc(k, TAG_SPECIAL) + (['='] + (Esc(v, TAG_SPECIAL) + w));
    var i := FirstUnescaped(r, ", ", false);
    FirstPair(k, v, w);
    TagsStep(r);
    Past(r, " ", ", ", false);
    assert r[..i] != [];
    if CleanTag(k, v) {
      assert r[i..][0] == w[0] && r[i + 1..] == r[i..][1..];
    }
  }

  /** The printed tags begin with the first pair; what follows it begins with a comma or ends the section. */
  lemma TagsBegin(keys: seq<string>, tags: map<string, string>, rest: string)
    requires keys != [] && (forall k | k in keys :: k in tags) && Stopped(rest, " ")
    ensures var r, w := TagsPart(keys, tags) + rest, TagsPart(keys[1..], tags) + rest;
            && r[0] == ','
            && r[1..] == Esc(keys[0], TAG_SPECIAL) + (['='] + (Esc(tags[keys[0]], TAG_SPECIAL) + w))
            && Stopped(w, ", ") && (w[0] == ' ' <==> keys[1..] == [])
    ensures PairsOf(keys, tags) == [(keys[0], tags[keys[0]])] + PairsOf(keys[1..], tags)
    ensures keys[1..] == [] ==> PairsOf(keys, tags) == [(keys[0], tags[keys[0]])]
  {
    hide Esc;
    var w := TagsPart(keys[1..], tags) + rest;
    assert TagsPart(keys, tags) + rest
        == [','] + (Esc(keys[0], TAG_SPECIAL) + (['='] + (Esc(tags[keys[0]], TAG_SPECIAL) + w)));
  }

  /** The tag section is read back as the printed pairs exactly if nothing in it is empty and no
      backslash is lost; if no backslash is lost but something is empty, it is refused. */
  lemma {:induction false} SplitPrintedTags(keys: seq<string>, tags: map<string, string>, rest: string)
    requires keys != [] && (forall k | k in keys :: k in tags) && Stopped(rest, " ")
    ensures var r := TagsPart(keys, tags) + rest;
            && r[0] == ',' && FirstUnescaped(r[1..], " ", false) > 0
            && (TagsOf(r[1..]) == Some(PairsOf(keys, tags)) <==> TagsClean(keys, tags) && TagsComplete(keys, tags))
            && (TagsClean(keys, tags) && !TagsComplete(keys, tags) ==> TagsOf(r[1..]).None?)
  {
    hide Esc, FirstUnescaped, TagsOf, TagsClean, TagsComplete, CleanTag, TagsPart, PairsOf;
    TagsBegin(keys, tags, rest);
    var k, v, w := keys[0], tags[keys[0]], TagsPart(keys[1..], tags) + rest;
    TagsCons(keys, tags);
    TagsFrom(k, v, w);
    if keys[1..] == [] {
      TagsNone(tags);
    } else {
      SplitPrintedTags(keys[1..], tags, rest);
      PutInFront((k, v), PairsOf(keys[1..], tags), TagsOf(w[1..]));
    }
  }

  lemma TagsNone(tags: map<string, string>)
    ensures TagsComplete([], tags) && TagsClean([], tags) && TagsPart([], tags) == [] && PairsOf([], tags) == []
  {
  }

  lemma PutInFront(first: Pair, rest: seq<Pair>, tags: Option<seq<Pair>>)
    ensures Before([first], tags) == Some([first] + rest) <==> tags == Some(rest)
  {
    if tags.Some? {
      assert ([first] + tags.value)[1..] == tags.value && ([first] + rest)[1..] == rest;
    }
  }

  // ---------------------------------------------------------------- measurement and tags

  lemma SeriesOfPrinted(m: string, keys: seq<string>, tags: map<string, string>, fields: string, ts: nat)
    requires forall k | k in keys :: k in tags
    ensures var r := ParseSeries(Names(m, keys, tags) + ([' '] + fields), ts);
            var clean := '\\' !in m && TagsClean(keys, tags);
            && (r.Parsed? && r.measurement == m ==> '\\' !in m && m != [])
            && (r == Parsed(m, PairsOf(keys, tags), ts) <==> clean && m != [] && TagsComplete(keys, tags))
            && (clean && (m == [] || !TagsComplete(keys, tags)) ==> r == Bad)
            && (keys != [] && r.Parsed? && r.measurement == m ==>
                  TagsOf((TagsPart(keys, tags) + ([' '] + fields))[1..]) == Some(r.tags))
  {
    hide SplitTags, Unescaped, FirstUnescaped, Esc, TagsPart, PairsOf, TagsClean, TagsComplete, Kept, TagsOf;
    var em, rest := Esc(m, MEASUREMENT_SPECIAL), TagsPart(keys, tags) + ([' '] + fields);
    var prefix := em + rest;
    assert prefix == Names(m, keys, tags) + ([' '] + fields);
    FirstChar(keys, tags, fields);
    NameKept(m, MEASUREMENT_SPECIAL);
    TakenBack(m, MEASUREMENT_SPECIAL, MEASUREMENT_SPECIAL, rest);
    TakenIs(prefix, MEASUREMENT_SPECIAL);
    if '\\' !in m {
      assert prefix[|em|..] == rest;
      SectionOf(keys, tags, fields);
    }
  }

  lemma FirstChar(keys: seq<string>, tags: map<string, string>, fields: string)
    requires forall k | k in keys :: k in tags
    ensures Stopped(TagsPart(keys, tags) + ([' '] + fields), MEASUREMENT_SPECIAL)
  {
  }

  lemma SectionOf(keys: seq<string>, tags: map<string, string>, fields: string)
    requires forall k | k in keys :: k in tags
    ensures var rest := TagsPart(keys, tags) + ([' '] + fields);
            var section := rest[..FirstUnescaped(rest, " ", false)];
            if keys == [] then
              section == [] && PairsOf(keys, tags) == [] && TagsClean(keys, tags) && TagsComplete(keys, tags)
            else
              && PairsOf(keys, tags) != []
              && section != [] && section[0] == ',' && section[1..] != []
              && SplitTags(section[1..]) == TagsOf(rest[1..])
              && (SplitTags(section[1..]) == Some(PairsOf(keys, tags)) <==>
                    TagsClean(keys, tags) && TagsComplete(keys, tags))
              && (TagsClean(keys, tags) && !TagsComplete(keys, tags) ==> SplitTags(section[1..]).None?)
  {
    hide SplitTags, Esc, TagsClean, TagsComplete, TagsPart, FirstUnescaped, PairsOf;
    var rest := TagsPart(keys, tags) + ([' '] + fields);
    if keys == [] {
      TagsNone(tags);
      assert rest == [' '] + fields;
      FirstOf(' ', fields, " ", false);
    } else {
      SplitPrintedTags(keys, tags, [' '] + fields);
      assert rest == [','] + rest[1..];
      FirstOf(',', rest[1..], " ", false);
      TagsBegin(keys, tags, [' '] + fields);
      var n := FirstUnescaped(rest[1..], " ", false);
      assert rest[..1 + n][1..] == rest[1..][..n];
    }
  }
}

/** The rows of a time range of a fixed source, in time order. */
module Rows {
  import opened SeriesKeys
  import opened PointSets

  /** The rows at one timestamp, in the order of the source. */
  function At(src: seq<Point>, t: int): (r: seq<Point>)
    ensures forall p | p in r :: p in src && p.ts == t
  {
    if src == [] then []
    else
      var n := |src| - 1;
      At(src[..n], t) + if src[n].ts == t then [src[n]] else []
  }

  function Between(src: seq<Point>, a: int, b: int): (r: seq<Point>)
    ensures forall p | p in r :: p in src && a <= p.ts < b
    decreases b - a
  {
    if a >= b then [] else At(src, a) + Between(src, a + 1, b)
  }

  predicate Allows(measurements: seq<string>, p: Point) {
    measurements == [] || p.measurement in measurements
  }

  function Allowed(src: seq<Point>, measurements: seq<string>): (r: seq<Point>)
    ensures forall p | p in r :: p in src && Allows(measurements, p)
    ensures measurements == [] ==> r == src
  {
    if src == [] then []
    else
      var n := |src| - 1;
      Allowed(src[..n], measurements) + if Allows(measurements, src[n]) then [src[n]] else []
  }

  function Without(s: seq<Point>, seen: seq<Point>): (r: seq<Point>)
    ensures forall p | p in r :: p in s && p !in seen
  {
    if s == [] then []
    else
      var n := |s| - 1;
      Without(s[..n], seen) + if s[n] in seen then [] else [s[n]]
  }

  ghost predicate DistinctRows(src: seq<Point>) {
    forall i, j | 0 <= i < j < |src| :: PointKey(src[i]) != PointKey(src[j])
  }

  ghost predicate NoRepeat(s: seq<Point>) {
    forall i, j | 0 <= i < j < |s| :: s[i] != s[j]
  }

  // ---------------------------------------------------------------- selecting keeps rows distinct

  lemma {:induction false} AtNoRepeat(src: seq<Point>, t: int)
    requires NoRepeat(src)
    ensures NoRepeat(At(src, t))
  {
    if src != [] {
      var n := |src| - 1;
      AtNoRepeat(src[..n], t);
      assert src[n] !in src[..n];
    }
  }

  lemma {:induction false} AllowedNoRepeat(src: seq<Point>, measurements: seq<string>)
    requires NoRepeat(src)
    ensures NoRepeat(Allowed(src, measurements))
  {
    if src != [] {
      var n := |src| - 1;
      AllowedNoRepeat(src[..n], measurements);
      assert src[n] !in src[..n];
    }
  }

  lemma DistinctNoRepeat(src: seq<Point>)
    requires DistinctRows(src)
    ensures NoRepeat(src)
    ensures DistinctKeys(Elements(src))
  {
    forall p, q | p in src && q in src && PointKey(p) == PointKey(q)
      ensures p == q
    {
      var i :| 0 <= i < |src| && src[i] == p;
      var j :| 0 <= j < |src| && src[j] == q;
    }
  }

  lemma {:induction false} AtComplete(src: seq<Point>, p: Point)
    requires p in src
    ensures p in At(src, p.ts)
  {
    var n := |src| - 1;
    if p != src[n] {
      AtComplete(src[..n], p);
    }
  }

  lemma {:induction false} AllowedComplete(src: seq<Point>, measurements: seq<string>, p: Point)
    requires p in src && Allows(measurements, p)
    ensures p in Allowed(src, measurements)
  {
    var n := |src| - 1;
    if p != src[n] {
      AllowedComplete(src[..n], measurements, p);
    }
  }

  /** A range holds every row of the source whose timestamp lies in it. */
  lemma {:induction false} BetweenComplete(src: seq<Point>, a: int, b: int, p: Point)
    requires p in src && a <= p.ts < b
    ensures p in Between(src, a, b)
    decreases b - a
  {
    hide At;
    if p.ts == a {
      AtComplete(src, p);
    } else {
      BetweenComplete(src, a + 1, b, p);
    }
    assert Between(src, a, b) == At(src, a) + Between(src, a + 1, b);
  }

  lemma {:induction false} BetweenNoRepeat(src: seq<Point>, a: int, b: int)
    requires NoRepeat(src)
    ensures NoRepeat(Between(src, a, b))
    decreases b - a
  {
    if a < b {
      AtNoRepeat(src, a);
      BetweenNoRepeat(src, a + 1, b);
      var x, y := At(src, a), Between(src, a + 1, b);
      assert forall i, j | 0 <= i < |x| && 0 <= j < |y| :: x[i] != y[j] by {
        assert forall i | 0 <= i < |x| :: x[i] in x;
        assert forall j | 0 <= j < |y| :: y[j] in y;
      }
    }
  }

  lemma {:induction false} BetweenSplit(src: seq<Point>, a: int, m: int, b: int)
    requires a <= m <= b
    ensures Between(src, a, b) == Between(src, a, m) + Between(src, m, b)
    decreases m - a
  {
    if a < m {
      BetweenSplit(src, a + 1, m, b);
    }
  }

  lemma BetweenOne(src: seq<Point>, t: int)
    ensures Between(src, t, t + 1) == At(src, t)
  {
    assert Between(src, t + 1, t + 1) == [];
  }

  /** A page is the whole of the earlier timestamps and a part of its last one. */
  lemma {:induction false} PageSplit(src: seq<Point>, a: int, b: int, n: nat)
    requires 0 < n <= |Between(src, a, b)|
    ensures var t := Between(src, a, b)[n - 1].ts;
            var before := |Between(src, a, t)|;
            && a <= t < b && before < n <= before + |At(src, t)|
            && Between(src, a, b)[..n] == Between(src, a, t) + At(src, t)[..n - before]
    decreases b - a
  {
    hide At;
    var here, rest := At(src, a), Between(src, a + 1, b);
    assert Between(src, a, b) == here + rest;
    if n <= |here| {
      assert Between(src, a, b)[n - 1] == here[n - 1] && here[n - 1] in here;
      assert Between(src, a, a) == [] && Between(src, a, b)[..n] == [] + here[..n];
    } else {
      var m := n - |here|;
      PageSplit(src, a + 1, b, m);
      var t := rest[m - 1].ts;
      assert Between(src, a, b)[n - 1] == rest[m - 1];
      assert Between(src, a, t) == here + Between(src, a + 1, t);
      assert Between(src, a, b)[..n] == here + rest[..m];
    }
  }
}

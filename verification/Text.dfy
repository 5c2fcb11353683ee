/** Byte strings: decimal numbers and lexicographic order. A char stands for one byte. */
module Text {

  // ---------------------------------------------------------------- decimal numbers

  predicate IsDigit(c: char) {
    '0' <= c <= '9'
  }

  predicate AllDigits(s: string) {
    forall c | c in s :: IsDigit(c)
  }

  function DigitOf(d: nat): char
    requires d < 10
  {
    '0' + d as char
  }

  /** strconv.AppendInt in base 10, for a number that is not negative. */
  function Digits(n: nat): (s: string)
    ensures s != [] && AllDigits(s)
  {
    if n < 10 then [DigitOf(n)] else Digits(n / 10) + [DigitOf(n % 10)]
  }

  function Decimal(n: int): string {
    if n < 0 then "-" + Digits(-n) else Digits(n)
  }

  /** The number that a string of digits denotes. */
  function ValueOf(s: string): nat
    requires AllDigits(s)
  {
    if s == [] then 0
    else
      assert s[|s| - 1] in s;
      10 * ValueOf(s[..|s| - 1]) + (s[|s| - 1] - '0') as nat
  }

  lemma {:induction false} ValueOfDigits(n: nat)
    ensures ValueOf(Digits(n)) == n
  {
    var s := Digits(n);
    if n >= 10 {
      ValueOfDigits(n / 10);
      assert s[..|s| - 1] == Digits(n / 10);
    }
  }

  lemma DigitsInjective(a: nat, b: nat)
    requires Digits(a) == Digits(b)
    ensures a == b
  {
    ValueOfDigits(a);
    ValueOfDigits(b);
  }

  lemma DecimalInjective(a: int, b: int)
    requires Decimal(a) == Decimal(b)
    ensures a == b
  {
    DecimalSign(a);
    DecimalSign(b);
    if a < 0 {
      assert Decimal(a)[1..] == Digits(-a) && Decimal(b)[1..] == Digits(-b);
      DigitsInjective(-a, -b);
    } else {
      DigitsInjective(a, b);
    }
  }

  lemma DecimalSign(n: int)
    ensures Decimal(n) != [] && (Decimal(n)[0] == '-' <==> n < 0)
  {
    if n >= 0 {
      assert Digits(n)[0] in Digits(n);
    }
  }

  /** The part of a string before the first `mark` determines the rest. */
  lemma SplitAtMark(a: string, b: string, mark: char, x: string, y: string)
    requires mark !in a && mark !in b && a + [mark] + x == b + [mark] + y
    ensures a == b && x == y
  {
    var s := a + [mark] + x;
    assert s[|a|] == mark && s[|b|] == mark;
    assert forall i | 0 <= i < |a| :: s[i] == a[i];
    assert forall i | 0 <= i < |b| :: s[i] == b[i];
    assert a == s[..|a|] && b == s[..|b|];
    assert x == s[|a| + 1..] && y == s[|b| + 1..];
  }

  // ---------------------------------------------------------------- order

  /** Byte-wise order of strings. */
  predicate Less(a: string, b: string) {
    b != [] && (a == [] || a[0] < b[0] || (a[0] == b[0] && Less(a[1..], b[1..])))
  }

  lemma {:induction false} LessTrans(a: string, b: string, c: string)
    requires Less(a, b) && Less(b, c)
    ensures Less(a, c)
  {
    if a != [] && a[0] == b[0] == c[0] {
      LessTrans(a[1..], b[1..], c[1..]);
    }
  }

  lemma {:induction false} LessTotal(a: string, b: string)
    ensures Less(a, b) || a == b || Less(b, a)
    ensures !(Less(a, b) && Less(b, a)) && !Less(a, a)
  {
    if a != [] && b != [] && a[0] == b[0] {
      LessTotal(a[1..], b[1..]);
      assert a == [a[0]] + a[1..] && b == [b[0]] + b[1..];
    }
    if a != [] {
      LessTotal(a[1..], a[1..]);
    }
  }

  /** In byte order, equal neighbours allowed. */
  predicate Ordered(s: seq<string>) {
    forall i, j | 0 <= i < j < |s| :: s[i] == s[j] || Less(s[i], s[j])
  }

  function Insert(s: seq<string>, x: string): (r: seq<string>)
    ensures |r| == |s| + 1 && multiset(r) == multiset(s) + multiset{x}
  {
    if s == [] then [x]
    else if Less(s[0], x) then
      assert s == [s[0]] + s[1..];
      [s[0]] + Insert(s[1..], x)
    else
      [x] + s
  }

  /** sort.Strings. */
  function Sorted(s: seq<string>): (r: seq<string>)
    ensures |r| == |s| && multiset(r) == multiset(s)
  {
    if s == [] then []
    else
      assert s == [s[0]] + s[1..];
      Insert(Sorted(s[1..]), s[0])
  }

  lemma {:induction false} InsertOrdered(s: seq<string>, x: string)
    requires Ordered(s)
    ensures Ordered(Insert(s, x))
  {
    var r := Insert(s, x);
    if s == [] {
    } else if Less(s[0], x) {
      InsertOrdered(s[1..], x);
      forall j | 0 < j < |r|
        ensures s[0] == r[j] || Less(s[0], r[j])
      {
        assert r[j] in multiset(Insert(s[1..], x));
      }
    } else {
      LessTotal(s[0], x);
      forall j | 0 < j < |r|
        ensures x == r[j] || Less(x, r[j])
      {
        assert r[j] == s[j - 1];
        if x != r[j] && j > 1 {
          assert s[0] == s[j - 1] || Less(s[0], s[j - 1]);
          if x != s[0] && s[0] != s[j - 1] {
            LessTrans(x, s[0], s[j - 1]);
          }
        }
      }
    }
  }

  lemma {:induction false} SortedOrdered(s: seq<string>)
    ensures Ordered(Sorted(s))
  {
    if s != [] {
      SortedOrdered(s[1..]);
      InsertOrdered(Sorted(s[1..]), s[0]);
    }
  }

  lemma HeadIsLeast(s: seq<string>, x: string)
    requires Ordered(s) && x in multiset(s)
    ensures s != [] && (s[0] == x || Less(s[0], x))
  {
    var i :| 0 <= i < |s| && s[i] == x;
    assert i > 0 ==> s[0] == s[i] || Less(s[0], s[i]);
  }

  lemma WithoutHead(s: seq<string>)
    requires s != []
    ensures multiset(s[1..]) == multiset(s) - multiset{s[0]}
    ensures Ordered(s) ==> Ordered(s[1..])
  {
    assert s == [s[0]] + s[1..];
  }

  /** Any two sorting algorithms agree. */
  lemma {:induction false} OrderedUnique(a: seq<string>, b: seq<string>)
    requires Ordered(a) && Ordered(b) && multiset(a) == multiset(b)
    ensures a == b
  {
    hide Ordered, Less;
    if a == [] {
      assert |multiset(b)| == |b|;
    } else {
      HeadIsLeast(b, a[0]);
      HeadIsLeast(a, b[0]);
      LessTotal(a[0], b[0]);
      WithoutHead(a);
      WithoutHead(b);
      OrderedUnique(a[1..], b[1..]);
      assert a == [a[0]] + a[1..] && b == [b[0]] + b[1..];
    }
  }
}

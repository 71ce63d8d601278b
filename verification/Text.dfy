/** Strings: decimal numerals as printed and as parsed, splitting at a separator,
    stripping. */
module Text {
  import opened Basics
  import Words

  predicate IsDigit(c: char) {
    '0' <= c <= '9'
  }

  predicate AllDigits(s: string) {
    forall i :: 0 <= i < |s| ==> IsDigit(s[i])
  }

  function DigitValue(c: char): nat
    requires IsDigit(c)
  {
    (c - '0') as nat
  }

  function DigitChar(d: nat): char
    requires d < 10
  {
    ('0' as int + d) as char
  }

  /** The decimal numeral of a number. */
  function Decimal(n: nat): (s: string)
    ensures s != [] && AllDigits(s)
  {
    if n < 10 then [DigitChar(n)] else Decimal(n / 10) + [DigitChar(n % 10)]
  }

  /** The value of a string of digits. */
  function Numeral(s: string): nat
    requires AllDigits(s)
  {
    if s == [] then 0 else 10 * Numeral(s[..|s| - 1]) + DigitValue(s[|s| - 1])
  }

  lemma {:induction false} NumeralOfDecimal(n: nat)
    ensures Numeral(Decimal(n)) == n
  {
    if n >= 10 {
      NumeralOfDecimal(n / 10);
      assert Decimal(n)[..|Decimal(n)| - 1] == Decimal(n / 10);
    } else {
      assert Decimal(n)[..0] == [];
    }
  }

  function Pow10(k: nat): (p: nat)
    ensures p > 0
  {
    if k == 0 then 1 else 10 * Pow10(k - 1)
  }

  /** Each digit counts its power of ten, from the right. */
  lemma {:induction false} NumeralAt(s: string, i: nat)
    requires AllDigits(s) && i < |s|
    ensures s[|s| - 1 - i] == ('0' as int + Numeral(s) / Pow10(i) % 10) as char
  {
    var init, d := s[..|s| - 1], DigitValue(s[|s| - 1]);
    assert Numeral(s) == 10 * Numeral(init) + d;
    if i > 0 {
      NumeralAt(init, i - 1);
      Words.DivideTwice(Numeral(s), 10, Pow10(i - 1));
      assert Numeral(s) / 10 == Numeral(init);
    } else {
      assert Pow10(0) == 1;
    }
  }

  /** ... and there are no others: leading zeros count nothing. */
  lemma {:induction false} NumeralBound(s: string)
    requires AllDigits(s)
    ensures Numeral(s) < Pow10(|s|)
  {
    if s != "" {
      NumeralBound(s[..|s| - 1]);
    }
  }

  // ---- stripping and searching --------------------------------------------

  predicate IsSpace(c: char) {
    c == ' ' || '\t' <= c <= '\r' || '\U{1C}' <= c <= '\U{1F}'
  }

  function StripLeft(s: string): string {
    if s != [] && IsSpace(s[0]) then StripLeft(s[1..]) else s
  }

  function StripRight(s: string): string {
    if s != [] && IsSpace(s[|s| - 1]) then StripRight(s[..|s| - 1]) else s
  }

  function Strip(s: string): string {
    StripRight(StripLeft(s))
  }

  lemma {:induction false} StripLeftShortens(s: string)
    ensures |StripLeft(s)| <= |s|
    ensures s != "" && IsSpace(s[0]) ==> |StripLeft(s)| < |s|
  {
    if s != [] && IsSpace(s[0]) {
      StripLeftShortens(s[1..]);
    }
  }

  lemma {:induction false} StripRightShortens(s: string)
    ensures |StripRight(s)| <= |s|
    ensures s != "" && IsSpace(s[|s| - 1]) ==> |StripRight(s)| < |s|
  {
    if s != [] && IsSpace(s[|s| - 1]) {
      StripRightShortens(s[..|s| - 1]);
    }
  }

  lemma StripClean(s: string)
    requires s != [] ==> !IsSpace(s[0]) && !IsSpace(s[|s| - 1])
    ensures Strip(s) == s
  {
  }

  predicate BeginsWith(s: string, part: string) {
    |part| <= |s| && s[..|part|] == part
  }

  /** s.rstrip("/"). */
  function StripTrailingSlashes(s: string): (r: string)
    ensures |r| <= |s| && r == s[..|r|]
    ensures s != [] && s[|s| - 1] != '/' ==> r == s
  {
    if s != [] && s[|s| - 1] == '/' then StripTrailingSlashes(s[..|s| - 1]) else s
  }

  /** The index of the first `x`, or the length. */
  function FirstIndex<T(==)>(s: seq<T>, x: T): (i: nat)
    ensures i <= |s| && (forall k :: 0 <= k < i ==> s[k] != x) && (i < |s| ==> s[i] == x)
  {
    if s == [] || s[0] == x then 0 else 1 + FirstIndex(s[1..], x)
  }

  lemma FirstIndexIs<T>(s: seq<T>, x: T, i: nat)
    requires i <= |s| && (i < |s| ==> s[i] == x) && forall k :: 0 <= k < i ==> s[k] != x
    ensures FirstIndex(s, x) == i
  {
  }

  // ---- splitting at slashes ---------------------------------------------------

  /** s.split("/"). */
  function Split(s: string): (segs: seq<string>)
    ensures segs != [] && forall x :: x in segs ==> '/' !in x
    decreases |s|
  {
    var i := FirstIndex(s, '/');
    if i == |s| then [s] else [s[..i]] + Split(s[i + 1..])
  }

  /** "/".join(segs). */
  function Join(segs: seq<string>): string {
    if segs == [] then ""
    else if |segs| == 1 then segs[0]
    else segs[0] + "/" + Join(segs[1..])
  }

  /** What is split off, and the rest. */
  lemma SplitCases(path: string, name: string)
    ensures
      var n := FirstIndex(path, '/');
      name in Split(path) <==> name == path[..n] || (n < |path| && name in Split(path[n + 1..]))
  {
    hide FirstIndex, Split;
    var n := FirstIndex(path, '/');
    SplitUnfolds(path);
    if n < |path| {
      InCons(path[..n], Split(path[n + 1..]), name);
    } else {
      assert path[..n] == path;
    }
  }

  lemma InCons(first: string, rest: seq<string>, name: string)
    ensures name in [first] + rest <==> name == first || name in rest
  {
  }

  lemma SplitUnfolds(s: string)
    ensures
      var i := FirstIndex(s, '/');
      Split(s) == if i == |s| then [s] else [s[..i]] + Split(s[i + 1..])
  {
    hide FirstIndex;
  }

  lemma JoinCons(first: string, rest: seq<string>)
    requires rest != []
    ensures Join([first] + rest) == first + "/" + Join(rest)
  {
    assert ([first] + rest)[1..] == rest;
  }

  lemma {:induction false} JoinOfSplit(s: string)
    ensures Join(Split(s)) == s
    decreases |s|
  {
    hide Split, FirstIndex, Join;
    var i := FirstIndex(s, '/');
    SplitUnfolds(s);
    if i < |s| {
      JoinOfSplit(s[i + 1..]);
      JoinCons(s[..i], Split(s[i + 1..]));
      assert s == s[..i] + "/" + s[i + 1..];
    } else {
      JoinOne(s);
    }
  }

  lemma JoinOne(s: string)
    ensures Join([s]) == s
  {
  }

  lemma {:induction false} SplitOfJoin(segs: seq<string>)
    requires segs != [] && forall x :: x in segs ==> '/' !in x
    ensures Split(Join(segs)) == segs
    decreases |segs|
  {
    hide Split;
    assert segs[0] in segs;
    if |segs| == 1 {
      SplitLast(segs[0]);
    } else {
      assert forall x :: x in segs[1..] ==> x in segs;
      SplitOfJoin(segs[1..]);
      SplitFirst(segs[0], Join(segs[1..]));
      assert segs == [segs[0]] + segs[1..];
    }
  }

  lemma SplitLast(s: string)
    requires '/' !in s
    ensures Split(s) == [s]
  {
  }

  lemma SplitFirst(first: string, rest: string)
    requires '/' !in first
    ensures Split(first + "/" + rest) == [first] + Split(rest)
  {
    var s := first + "/" + rest;
    FirstIndexIs(s, '/', |first|);
    assert s[..|first|] == first && s[|first| + 1..] == rest;
  }

  lemma {:induction false} JoinAppend(a: seq<string>, b: seq<string>)
    requires a != [] && b != []
    ensures Join(a + b) == Join(a) + "/" + Join(b)
    decreases |a|
  {
    if |a| == 1 {
      assert (a + b)[1..] == b;
    } else {
      assert (a + b)[1..] == a[1..] + b;
      JoinAppend(a[1..], b);
    }
  }
}

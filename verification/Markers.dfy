/** The markers that bracket a program's output, and how they are found in a byte
    stream of which only a part has arrived. */
module Markers {
  import opened Basics
  import Text

  const ESC: Byte := 0x1B
  const BACKSLASH: Byte := 0x5C
  const MINUS: Byte := 0x2D
  /** ESC _ j p */
  const INTRO: Bytes := [ESC, 0x5F, 0x6A, 0x70]

  function StartMarker(token: Bytes): Bytes {
    INTRO + token + [0x43, ESC, BACKSLASH]
  }

  function EndPrefix(token: Bytes): Bytes {
    INTRO + token + [0x44]
  }

  predicate Digit(b: Byte) {
    0x30 <= b <= 0x39
  }

  predicate AllDigits(s: Bytes) {
    forall i :: 0 <= i < |s| ==> Digit(s[i])
  }

  function Chars(s: Bytes): (r: string)
    ensures |r| == |s| && forall i :: 0 <= i < |s| ==> r[i] == s[i] as char
  {
    seq(|s|, i requires 0 <= i < |s| => s[i] as char)
  }

  /** int() of digits. */
  function Value(s: Bytes): nat
    requires AllDigits(s)
  {
    Text.Numeral(Chars(s))
  }

  /** The decimal numeral of a number as bytes. */
  function DigitBytes(n: nat): (s: Bytes)
    ensures s != [] && AllDigits(s) && Chars(s) == Text.Decimal(n)
  {
    var text := Text.Decimal(n);
    var s: Bytes := seq(|text|, i requires 0 <= i < |text| => DigitByte(text[i]));
    assert Chars(s) == text;
    s
  }

  function DigitByte(c: char): (b: Byte)
    ensures Text.IsDigit(c) ==> b as char == c && Digit(b)
  {
    if Text.IsDigit(c) then c as int else 0x30
  }

  /** Each digit counts its power of ten, and there are no others. */
  lemma ValueAt(s: Bytes, i: nat)
    requires AllDigits(s) && i < |s|
    ensures s[|s| - 1 - i] == 0x30 + Value(s) / Text.Pow10(i) % 10 && Value(s) < Text.Pow10(|s|)
  {
    Text.NumeralAt(Chars(s), i);
    Text.NumeralBound(Chars(s));
    hide Text.Numeral, Text.Pow10;
  }

  /** int() undoes printing a number. */
  lemma ValueOfDigits(n: nat)
    ensures Value(DigitBytes(n)) == n
  {
    hide DigitBytes, Text.Decimal;
    Text.NumeralOfDecimal(n);
  }

  function Signed(negative: bool, digits: Bytes): int
    requires AllDigits(digits)
  {
    var v: int := Value(digits);
    if negative then -v else v
  }

  function Sign(negative: bool): Bytes {
    if negative then [MINUS] else []
  }

  /** A complete end marker: prefix, optional minus, digits, ESC backslash. */
  ghost predicate IsEndMarker(m: Bytes, prefix: Bytes, code: int) {
    exists negative: bool, digits: Bytes ::
      && digits != [] && AllDigits(digits) && code == Signed(negative, digits)
      && m == prefix + Sign(negative) + digits + [ESC, BACKSLASH]
  }

  // ---- searching --------------------------------------------------------------

  predicate OccursAt(s: Bytes, m: Bytes, i: nat) {
    i + |m| <= |s| && s[i..i + |m|] == m
  }

  /** bytes.find. */
  function FindFrom(s: Bytes, m: Bytes, i: nat): (r: Option<nat>)
    requires i <= |s|
    ensures r.Some? ==> i <= r.value && OccursAt(s, m, r.value) && forall k :: i <= k < r.value ==> !OccursAt(s, m, k)
    ensures r.None? ==> forall k :: i <= k <= |s| ==> !OccursAt(s, m, k)
    decreases |s| - i
  {
    if OccursAt(s, m, i) then Some(i)
    else if i == |s| then None
    else FindFrom(s, m, i + 1)
  }

  function Find(s: Bytes, m: Bytes): Option<nat> {
    FindFrom(s, m, 0)
  }

  /** bytes.rfind, looking at positions below `i` only. */
  function FindLastBelow(s: Bytes, m: Bytes, i: nat): (r: Option<nat>)
    ensures r.Some? ==> r.value < i && OccursAt(s, m, r.value) && forall k :: r.value < k < i ==> !OccursAt(s, m, k)
    ensures r.None? ==> forall k :: 0 <= k < i ==> !OccursAt(s, m, k)
  {
    if i == 0 then None
    else if OccursAt(s, m, i - 1) then Some(i - 1)
    else FindLastBelow(s, m, i - 1)
  }

  /** How many digits stand at `i`. */
  function DigitRun(s: Bytes, i: nat): (n: nat)
    requires i <= |s|
    ensures i + n <= |s| && AllDigits(s[i..i + n])
    ensures i + n < |s| ==> !Digit(s[i + n])
    decreases |s| - i
  {
    if i < |s| && Digit(s[i]) then
      var n := 1 + DigitRun(s, i + 1);
      assert s[i..i + n] == [s[i]] + s[i + 1..i + n];
      n
    else 0
  }

  datatype Match = Match(start: nat, stop: nat, code: int)

  /** The end-marker expression matched at `i`. Its parts leave no choice, so one greedy
      pass finds the match if there is one. */
  function EndAt(s: Bytes, prefix: Bytes, i: nat): Option<Match> {
    if !OccursAt(s, prefix, i) then None
    else
      var j := i + |prefix|;
      var negative := j < |s| && s[j] == MINUS;
      var k := if negative then j + 1 else j;
      var n := DigitRun(s, k);
      if n > 0 && k + n + 1 < |s| && s[k + n] == ESC && s[k + n + 1] == BACKSLASH
      then Some(Match(i, k + n + 2, Signed(negative, s[k..k + n])))
      else None
  }

  /** The leftmost match from `i` on. */
  function SearchFrom(s: Bytes, prefix: Bytes, i: nat): (r: Option<Match>)
    requires i <= |s|
    ensures r.Some? ==> i <= r.value.start <= |s| && EndAt(s, prefix, r.value.start) == r
                        && forall k :: i <= k < r.value.start ==> EndAt(s, prefix, k) == None
    ensures r.None? ==> forall k :: i <= k <= |s| ==> EndAt(s, prefix, k) == None
    decreases |s| - i
  {
    if EndAt(s, prefix, i).Some? then EndAt(s, prefix, i)
    else if i == |s| then None
    else SearchFrom(s, prefix, i + 1)
  }

  function Search(s: Bytes, prefix: Bytes): Option<Match> {
    SearchFrom(s, prefix, 0)
  }

  /** The greedy pass finds exactly the complete markers. */
  lemma EndAtIsMarker(s: Bytes, prefix: Bytes, i: nat, stop: nat, code: int)
    ensures EndAt(s, prefix, i) == Some(Match(i, stop, code)) <==>
            i <= stop <= |s| && IsEndMarker(s[i..stop], prefix, code)
  {
    if EndAt(s, prefix, i) == Some(Match(i, stop, code)) {
      FoundIsMarker(s, prefix, i);
    }
    if i <= stop <= |s| && IsEndMarker(s[i..stop], prefix, code) {
      hide EndAt;
      var negative: bool, digits: Bytes :| digits != [] && AllDigits(digits) && code == Signed(negative, digits)
        && s[i..stop] == prefix + Sign(negative) + digits + [ESC, BACKSLASH];
      MarkerIsFound(s, prefix, i, negative, digits, stop);
    }
  }

  lemma FoundIsMarker(s: Bytes, prefix: Bytes, i: nat)
    requires EndAt(s, prefix, i).Some?
    ensures
      var m := EndAt(s, prefix, i).value;
      m.start == i <= m.stop <= |s| && IsEndMarker(s[i..m.stop], prefix, m.code)
  {
    hide IsEndMarker, DigitRun, Value;
    var j := i + |prefix|;
    var negative := j < |s| && s[j] == MINUS;
    var k := if negative then j + 1 else j;
    var e := k + DigitRun(s, k);
    assert s[j..k] == Sign(negative) && s[e..e + 2] == [ESC, BACKSLASH] && s[i..j] == prefix;
    FourSlices(s, i, j, k, e, e + 2);
    MarkerFromParts(s[i..e + 2], prefix, negative, s[k..e]);
  }

  lemma FourSlices(s: Bytes, i: nat, j: nat, k: nat, l: nat, m: nat)
    requires i <= j <= k <= l <= m <= |s|
    ensures s[i..m] == s[i..j] + s[j..k] + s[k..l] + s[l..m]
  {
    SliceJoin(s, i, j, k);
    SliceJoin(s, i, k, l);
    SliceJoin(s, i, l, m);
  }

  lemma MarkerFromParts(m: Bytes, prefix: Bytes, negative: bool, digits: Bytes)
    requires digits != [] && AllDigits(digits) && m == prefix + Sign(negative) + digits + [ESC, BACKSLASH]
    ensures IsEndMarker(m, prefix, Signed(negative, digits))
  {
  }

  lemma SliceJoin(s: Bytes, i: nat, j: nat, k: nat)
    requires i <= j <= k <= |s|
    ensures s[i..k] == s[i..j] + s[j..k]
  {
  }

  lemma SliceSplit(s: Bytes, i: nat, k: nat, a: Bytes, b: Bytes)
    requires i <= k <= |s| && s[i..k] == a + b
    ensures k == i + |a| + |b| && s[i..i + |a|] == a && s[i + |a|..k] == b
  {
    assert s[i..i + |a|] == s[i..k][..|a|] == a;
    assert s[i + |a|..k] == s[i..k][|a|..] == b;
  }

  lemma MarkerIsFound(s: Bytes, prefix: Bytes, i: nat, negative: bool, digits: Bytes, stop: nat)
    requires digits != [] && AllDigits(digits) && i <= stop <= |s|
    requires s[i..stop] == prefix + Sign(negative) + digits + [ESC, BACKSLASH]
    ensures EndAt(s, prefix, i) == Some(Match(i, stop, Signed(negative, digits)))
  {
    hide DigitRun, Value, EndAt;
    var j := i + |prefix|;
    var k := j + |Sign(negative)|;
    var e := k + |digits|;
    SliceSplit(s, i, stop, prefix + Sign(negative) + digits, [ESC, BACKSLASH]);
    SliceSplit(s, i, e, prefix + Sign(negative), digits);
    SliceSplit(s, i, k, prefix, Sign(negative));
    assert s[e] == s[e..stop][0] && s[e + 1] == s[e..stop][1];
    assert s[k] == s[k..e][0];
    assert negative ==> s[j] == s[j..k][0];
    RunIs(s, k, |digits|);
    EndAtParts(s, prefix, i, negative, |digits|);
  }

  lemma EndAtParts(s: Bytes, prefix: Bytes, i: nat, negative: bool, n: nat)
    requires
      var j := i + |prefix|;
      var k := j + |Sign(negative)|;
      && n > 0 && k + n + 1 < |s| && OccursAt(s, prefix, i) && (if negative then s[j] == MINUS else s[j] != MINUS)
      && DigitRun(s, k) == n && s[k + n] == ESC && s[k + n + 1] == BACKSLASH
    ensures
      var k := i + |prefix| + |Sign(negative)|;
      AllDigits(s[k..k + n]) && EndAt(s, prefix, i) == Some(Match(i, k + n + 2, Signed(negative, s[k..k + n])))
  {
    hide DigitRun, Value, OccursAt;
  }

  lemma {:induction false} RunIs(s: Bytes, k: nat, n: nat)
    requires k + n < |s| && AllDigits(s[k..k + n]) && !Digit(s[k + n])
    ensures DigitRun(s, k) == n
    decreases n
  {
    if n > 0 {
      assert s[k] == s[k..k + n][0];
      assert s[k + 1..k + n] == s[k..k + n][1..];
      RunIs(s, k + 1, n - 1);
    }
  }
}

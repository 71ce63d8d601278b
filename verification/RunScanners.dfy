/** The output filter of a remote run: everything up to the start marker is discarded,
    everything up to the end marker is passed through, the end marker carries the exit
    code. The stream arrives in arbitrary pieces. */
module RunScanners {
  import opened Basics
  import opened Markers

  // ---- incomplete end markers ---------------------------------------------------

  /** -?[0-9]*ESC? on the whole of `t`. */
  predicate EndTail(t: Bytes) {
    var j := if t != [] && t[0] == MINUS then 1 else 0;
    var e := j + DigitRun(t, j);
    e == |t| || (e + 1 == |t| && t[e] == ESC)
  }

  /** What the scanner takes for the beginning of an end marker. */
  predicate LooksPending(s: Bytes, prefix: Bytes) {
    s != [] &&
    if |s| < |prefix| then s == prefix[..|s|]
    else s[..|prefix|] == prefix && EndTail(s[|prefix|..])
  }

  /** ESC stands at the front of the prefix and nowhere else in it. */
  predicate CleanPrefix(prefix: Bytes) {
    |prefix| >= 2 && prefix[0] == ESC && forall i :: 1 <= i < |prefix| ==> prefix[i] != ESC
  }

  lemma {:induction false} RunCut(t: Bytes, j: nat, n: nat)
    requires j <= n <= |t|
    ensures DigitRun(t[..n], j) == Min(DigitRun(t, j), n - j)
    decreases n - j
  {
    if j < n {
      RunCut(t, j + 1, n);
    }
  }

  lemma EndTailCut(t: Bytes, n: nat)
    requires EndTail(t) && n <= |t|
    ensures EndTail(t[..n])
  {
    var j := if t != [] && t[0] == MINUS then 1 else 0;
    if n >= j {
      RunCut(t, j, n);
    }
  }

  lemma PendingCut(s: Bytes, prefix: Bytes, n: nat)
    requires LooksPending(s, prefix) && 0 < n <= |s|
    ensures LooksPending(s[..n], prefix)
  {
    if |s| < |prefix| {
      assert s[..n] == prefix[..|s|][..n] == prefix[..n];
    } else if n < |prefix| {
      assert s[..n] == s[..|prefix|][..n];
    } else {
      EndTailCut(s[|prefix|..], n - |prefix|);
      assert s[..n][|prefix|..] == s[|prefix|..][..n - |prefix|];
      assert s[..n][..|prefix|] == s[..|prefix|];
    }
  }

  /** A complete marker short of its last byte looks pending. */
  lemma MarkerPends(m: Bytes, prefix: Bytes, code: int)
    requires IsEndMarker(m, prefix, code)
    ensures LooksPending(m[..|m| - 1], prefix)
  {
    var negative: bool, digits: Bytes :| digits != [] && AllDigits(digits) && code == Signed(negative, digits)
      && m == prefix + Sign(negative) + digits + [ESC, BACKSLASH];
    hide EndTail, LooksPending, AllDigits, Value, DigitRun, Sign;
    MarkerTail(negative, digits);
    TailPends(prefix, Sign(negative) + digits + [ESC]);
    ShortByOne(prefix, Sign(negative), digits, ESC, BACKSLASH);
  }

  lemma ShortByOne(a: Bytes, b: Bytes, c: Bytes, x: Byte, y: Byte)
    ensures
      var m := a + b + c + [x, y];
      m[..|m| - 1] == a + (b + c + [x])
  {
    assert a + b + c + [x, y] == (a + (b + c + [x])) + [y];
  }

  lemma TailPends(prefix: Bytes, t: Bytes)
    requires t != [] && EndTail(t)
    ensures LooksPending(prefix + t, prefix)
  {
    hide EndTail;
    assert (prefix + t)[..|prefix|] == prefix && (prefix + t)[|prefix|..] == t;
  }

  lemma MarkerTail(negative: bool, digits: Bytes)
    requires digits != [] && AllDigits(digits)
    ensures EndTail(Sign(negative) + digits + [ESC])
  {
    hide DigitRun;
    var t := Sign(negative) + digits + [ESC];
    var j := |Sign(negative)|;
    assert t[j..j + |digits|] == digits;
    assert !negative ==> t[0] == digits[0];
    RunIs(t, j, |digits|);
  }

  /** A proper beginning of an end marker. */
  ghost predicate BeginsMarker(s: Bytes, prefix: Bytes) {
    s != [] && exists m: Bytes, code: int :: s < m && IsEndMarker(m, prefix, code)
  }

  lemma BeginsFromParts(s: Bytes, prefix: Bytes, negative: bool, digits: Bytes)
    requires digits != [] && AllDigits(digits) && s != [] && s < prefix + Sign(negative) + digits + [ESC, BACKSLASH]
    ensures BeginsMarker(s, prefix)
  {
    hide IsEndMarker;
    MarkerFromParts(prefix + Sign(negative) + digits + [ESC, BACKSLASH], prefix, negative, digits);
  }

  lemma BeginningPends(s: Bytes, prefix: Bytes)
    requires BeginsMarker(s, prefix)
    ensures LooksPending(s, prefix)
  {
    hide LooksPending, IsEndMarker;
    var m: Bytes, code: int :| s < m && IsEndMarker(m, prefix, code);
    MarkerPends(m, prefix, code);
    assert m[..|m| - 1][..|s|] == s;
    PendingCut(m[..|m| - 1], prefix, |s|);
  }

  /** What the scanner takes for an unfinished end marker is one that can still be finished, or the prefix and a
      sign or none with the ESC following at once: the expression for the tail allows for no digits there. */
  lemma PendingMeans(s: Bytes, prefix: Bytes)
    requires prefix != []
    ensures LooksPending(s, prefix) <==> BeginsMarker(s, prefix) || s == prefix + [ESC] || s == prefix + [MINUS, ESC]
  {
    if BeginsMarker(s, prefix) {
      BeginningPends(s, prefix);
    }
    if s == prefix + [ESC] || s == prefix + [MINUS, ESC] {
      TailPends(prefix, s[|prefix|..]);
    }
    if LooksPending(s, prefix) {
      if |s| < |prefix| {
        assert prefix[..|s|] < prefix + Sign(false) + [0x30] + [ESC, BACKSLASH];
        BeginsFromParts(s, prefix, false, [0x30]);
      } else {
        PendingBegins(prefix, s[|prefix|..]);
        assert s == prefix + s[|prefix|..];
      }
    }
  }

  lemma TailParts(t: Bytes) returns (negative: bool, digits: Bytes, rest: Bytes)
    requires EndTail(t)
    ensures t == Sign(negative) + digits + rest && AllDigits(digits) && (rest == [] || rest == [ESC])
  {
    negative := t != [] && t[0] == MINUS;
    var j := if negative then 1 else 0;
    var e := j + DigitRun(t, j);
    digits, rest := t[j..e], t[e..];
  }

  lemma ProperPart(front: Bytes, rest: Bytes)
    requires rest == [] || rest == [ESC]
    ensures front + rest < front + [ESC, BACKSLASH]
  {
  }

  lemma PendingBegins(prefix: Bytes, t: Bytes)
    requires EndTail(t) && prefix != []
    ensures BeginsMarker(prefix + t, prefix) || t == [ESC] || t == [MINUS, ESC]
  {
    hide BeginsMarker, EndTail;
    var negative, digits, rest := TailParts(t);
    Regroup(prefix, Sign(negative), digits);
    Regroup(prefix, Sign(negative) + digits, rest);
    if digits != [] {
      ProperPart(prefix + Sign(negative) + digits, rest);
      BeginsFromParts(prefix + t, prefix, negative, digits);
    } else if rest == [] {
      var whole := prefix + Sign(negative) + [0x30] + [ESC, BACKSLASH];
      assert whole[..|prefix + t|] == prefix + t;
      BeginsFromParts(prefix + t, prefix, negative, [0x30]);
    }
  }

  /** In what looks pending ESC stands only at the front and possibly at the very end. */
  lemma PendingEscapes(s: Bytes, prefix: Bytes, j: nat)
    requires LooksPending(s, prefix) && CleanPrefix(prefix) && 0 < j < |s| - 1
    ensures s[j] != ESC
  {
    if |s| < |prefix| {
      assert s[j] == prefix[..|s|][j] == prefix[j];
    } else if j < |prefix| {
      assert s[j] == s[..|prefix|][j] == prefix[j];
    } else {
      var t := s[|prefix|..];
      var x := j - |prefix|;
      var k := if t != [] && t[0] == MINUS then 1 else 0;
      var e := k + DigitRun(t, k);
      assert s[j] == t[x] && x < e;
      if x >= k {
        assert t[x] == t[k..e][x - k];
      }
    }
  }

  /** A match in a longer stream was there already, or its beginning looked pending. */
  lemma MatchWasThereOrPends(s: Bytes, x: Bytes, prefix: Bytes, i: nat)
    requires i < |s| && EndAt(s + x, prefix, i).Some?
    ensures EndAt(s, prefix, i) == EndAt(s + x, prefix, i) || LooksPending(s[i..], prefix)
  {
    hide EndAt, LooksPending, IsEndMarker;
    FoundIsMarker(s + x, prefix, i);
    var m := EndAt(s + x, prefix, i).value;
    var w := (s + x)[i..m.stop];
    if m.stop <= |s| {
      assert w == s[i..m.stop];
      EndAtIsMarker(s, prefix, i, m.stop, m.code);
    } else {
      MarkerPends(w, prefix, m.code);
      var k := |s| - i;
      assert (s + x)[..|s|] == s && w[..k] == (s + x)[..|s|][i..];
      assert w[..|w| - 1][..k] == w[..k] == s[i..];
      PendingCut(w[..|w| - 1], prefix, |s| - i);
    }
  }

  /** A match is not undone by what follows. */
  lemma MatchStays(s: Bytes, x: Bytes, prefix: Bytes, i: nat)
    requires EndAt(s, prefix, i).Some?
    ensures EndAt(s + x, prefix, i) == EndAt(s, prefix, i)
  {
    hide EndAt, IsEndMarker;
    FoundIsMarker(s, prefix, i);
    var m := EndAt(s, prefix, i).value;
    assert s[i..m.stop] == (s + x)[i..m.stop];
    EndAtIsMarker(s + x, prefix, i, m.stop, m.code);
  }

  lemma MatchHasEscapes(s: Bytes, prefix: Bytes, i: nat)
    requires EndAt(s, prefix, i).Some? && CleanPrefix(prefix)
    ensures i + 2 < |s| && s[i] == ESC && EndAt(s, prefix, i).value.start == i
  {
    assert s[i] == s[i..i + |prefix|][0];
  }

  /** The leftmost end marker of a stream stays the leftmost one. */
  lemma SearchStays(s: Bytes, x: Bytes, prefix: Bytes)
    requires Search(s, prefix).Some? && CleanPrefix(prefix)
    ensures Search(s + x, prefix) == Search(s, prefix)
  {
    hide EndAt, LooksPending;
    var m := Search(s, prefix).value;
    MatchStays(s, x, prefix, m.start);
    MatchHasEscapes(s, prefix, m.start);
    forall k | 0 <= k < m.start ensures EndAt(s + x, prefix, k) == None {
      if EndAt(s + x, prefix, k).Some? {
        MatchWasThereOrPends(s, x, prefix, k);
        PendingEscapes(s[k..], prefix, m.start - k);
      }
    }
    SearchIs(s + x, prefix, m.start);
  }

  lemma SearchIs(s: Bytes, prefix: Bytes, i: nat)
    requires i <= |s| && EndAt(s, prefix, i).Some? && forall k :: 0 <= k < i ==> EndAt(s, prefix, k) == None
    ensures Search(s, prefix) == EndAt(s, prefix, i)
  {
    hide EndAt;
  }

  // ---- how much to hold back ------------------------------------------------------

  /** The last `k` bytes of `buf` begin the marker. */
  predicate TailBegins(buf: Bytes, marker: Bytes, k: nat) {
    k <= |buf| && k <= |marker| && buf[|buf| - k..] == marker[..k]
  }

  /** The most that can be a proper beginning of the marker. */
  function Most(buf: Bytes, marker: Bytes): nat
    requires marker != []
  {
    Min(|buf|, |marker| - 1)
  }

  ghost predicate IsLongest(buf: Bytes, marker: Bytes, k: nat)
    requires marker != []
  {
    k <= Most(buf, marker) && TailBegins(buf, marker, k) && forall j :: k < j <= Most(buf, marker) ==>
        !TailBegins(buf, marker, j)
  }

  function Overlap(buf: Bytes, marker: Bytes, k: nat): nat {
    if k == 0 || TailBegins(buf, marker, k) then k else Overlap(buf, marker, k - 1)
  }

  /** The length of the longest suffix of `buf` that properly begins the marker. */
  function ProperOverlap(buf: Bytes, marker: Bytes): nat
    requires marker != []
  {
    Overlap(buf, marker, Most(buf, marker))
  }

  lemma {:induction false} OverlapIsLongest(buf: Bytes, marker: Bytes, k: nat)
    requires marker != [] && k <= Most(buf, marker)
    ensures var r := Overlap(buf, marker, k);
            r <= k && TailBegins(buf, marker, r) && forall j :: r < j <= k ==> !TailBegins(buf, marker, j)
  {
    if k > 0 {
      OverlapIsLongest(buf, marker, k - 1);
    }
  }

  lemma LongestIsUnique(buf: Bytes, marker: Bytes, k: nat)
    requires marker != []
    ensures IsLongest(buf, marker, k) <==> ProperOverlap(buf, marker) == k
  {
    OverlapIsLongest(buf, marker, Most(buf, marker));
  }

  /** _suffix_prefix_of. */
  method SuffixPrefixOf(buf: Bytes, marker: Bytes) returns (r: Bytes)
    requires marker != []
    ensures |r| == ProperOverlap(buf, marker) <= |buf| && r == buf[|buf| - |r|..]
    ensures IsLongest(buf, marker, |r|)
  {
    OverlapIsLongest(buf, marker, Most(buf, marker));
    var k := Most(buf, marker);
    while k > 0
      invariant 0 <= k <= Most(buf, marker)
      invariant Overlap(buf, marker, k) == ProperOverlap(buf, marker)
    {
      if buf[|buf| - k..] == marker[..k] {
        return buf[|buf| - k..];
      }
      k := k - 1;
    }
    r := [];
  }

  function Holdback(buf: Bytes, prefix: Bytes): (h: nat)
    requires prefix != []
    ensures h <= |buf|
  {
    OverlapIsLongest(buf, prefix, Most(buf, prefix));
    var hold := ProperOverlap(buf, prefix);
    match FindLastBelow(buf, prefix, |buf| + 1)
    case Some(i) => if EndTail(buf[i + |prefix|..]) then Max(hold, |buf| - i) else hold
    case None => hold
  }

  /** _end_holdback. */
  method EndHoldback(buf: Bytes, prefix: Bytes) returns (hold: nat)
    requires prefix != []
    ensures hold == Holdback(buf, prefix)
  {
    var tail := SuffixPrefixOf(buf, prefix);
    hold := |tail|;
    var i := FindLastBelow(buf, prefix, |buf| + 1);
    if i.Some? && EndTail(buf[i.value + |prefix|..]) {
      hold := Max(hold, |buf| - i.value);
    }
  }

  /** Every suffix that looks pending is held back, and what is held back looks pending. */
  lemma HoldbackIsExact(buf: Bytes, prefix: Bytes)
    requires CleanPrefix(prefix)
    ensures forall i :: 0 <= i < |buf| - Holdback(buf, prefix) ==> !LooksPending(buf[i..], prefix)
    ensures Holdback(buf, prefix) > 0 ==> LooksPending(buf[|buf| - Holdback(buf, prefix)..], prefix)
  {
    hide LooksPending, Holdback;
    var h := Holdback(buf, prefix);
    forall i | 0 <= i < |buf| - h ensures !LooksPending(buf[i..], prefix) {
      if LooksPending(buf[i..], prefix) {
        PendingIsHeld(buf, prefix, i);
      }
    }
    if h > 0 {
      HeldLooksPending(buf, prefix);
    }
  }

  lemma HeldLooksPending(buf: Bytes, prefix: Bytes)
    requires CleanPrefix(prefix) && Holdback(buf, prefix) > 0
    ensures LooksPending(buf[|buf| - Holdback(buf, prefix)..], prefix)
  {
    hide EndTail, FindLastBelow, Overlap;
    OverlapIsLongest(buf, prefix, Most(buf, prefix));
    if Holdback(buf, prefix) != ProperOverlap(buf, prefix) {
      var i := FindLastBelow(buf, prefix, |buf| + 1).value;
      assert buf[i..][..|prefix|] == prefix && buf[i..][|prefix|..] == buf[i + |prefix|..];
    }
  }

  lemma PendingIsHeld(buf: Bytes, prefix: Bytes, i: nat)
    requires CleanPrefix(prefix) && i < |buf| && LooksPending(buf[i..], prefix)
    ensures |buf| - i <= Holdback(buf, prefix)
  {
    var s := buf[i..];
    OverlapIsLongest(buf, prefix, Most(buf, prefix));
    if |s| < |prefix| {
      assert TailBegins(buf, prefix, |s|);
    } else {
      assert buf[i..i + |prefix|] == s[..|prefix|];
      assert OccursAt(buf, prefix, i);
      var last := FindLastBelow(buf, prefix, |buf| + 1).value;
      if last != i {
        assert buf[last] == buf[last..last + |prefix|][0] == ESC;
        assert s[last - i] == buf[last];
        PendingEscapes(s, prefix, last - i);
      }
      assert s[|prefix|..] == buf[i + |prefix|..];
    }
  }

  // ---- what a stream calls for --------------------------------------------------------

  /** The bytes after the start marker, once it has come. */
  function Output(stream: Bytes, start: Bytes): Option<Bytes> {
    match Find(stream, start)
    case None => None
    case Some(i) => Some(stream[i + |start|..])
  }

  /** Up to `e` nothing is, or can still become, the beginning of an end marker. */
  ghost predicate Passed(r: Bytes, prefix: Bytes, e: nat) {
    e <= |r| && forall i :: 0 <= i < e ==> !LooksPending(r[i..], prefix)
  }

  /** What must have been written after `stream`: nothing before the start marker; up to the
      end marker, and its code, when that is there; else everything but a suffix that looks
      like the beginning of an end marker. */
  ghost predicate Right(stream: Bytes, token: Bytes, clearSeq: Bytes, written: Bytes, held: Bytes, code: Option<int>) {
    match Output(stream, StartMarker(token))
    case None => written == [] && code == None
    case Some(r) =>
      match Search(r, EndPrefix(token))
      case Some(m) => written == clearSeq + r[..m.start] && code == Some(m.code) && held == []
      case None =>
        && |held| <= |r| && written == clearSeq + r[..|r| - |held|] && held == r[|r| - |held|..]
        && Passed(r, EndPrefix(token), |r| - |held|)
        && (held != [] ==> LooksPending(held, EndPrefix(token)))
        && code == None
  }

  /** Without the start marker only the last bytes can still matter. */
  ghost predicate Waiting(stream: Bytes, start: Bytes, held: Bytes) {
    && start != [] && Find(stream, start) == None
    && |held| <= |stream| && held == stream[|stream| - |held|..] && IsLongest(stream, start, |held|)
  }

  lemma RightMeans(stream: Bytes, token: Bytes, clearSeq: Bytes, written: Bytes, held: Bytes, code: Option<int>)
    requires Right(stream, token, clearSeq, written, held, code) && code == None
    ensures Output(stream, StartMarker(token)) == None ==> written == []
    ensures Output(stream, StartMarker(token)).Some? ==>
              var r := Output(stream, StartMarker(token)).value;
              && Search(r, EndPrefix(token)) == None
              && |held| <= |r| && written == clearSeq + r[..|r| - |held|] && held == r[|r| - |held|..]
              && Passed(r, EndPrefix(token), |r| - |held|)
  {
  }

  lemma RightIsNothing(stream: Bytes, token: Bytes, clearSeq: Bytes, held: Bytes)
    requires Output(stream, StartMarker(token)) == None
    ensures Right(stream, token, clearSeq, [], held, None)
  {
  }

  /** What one step wrote of the output `r` beyond its first `e` bytes, and what it held back. */
  ghost predicate Dealt(r: Bytes, prefix: Bytes, e: nat, out: Bytes, held: Bytes, code: Option<int>)
    requires prefix != []
  {
    match Search(r, prefix)
    case Some(m) => e <= m.start <= |r| && out == r[e..m.start] && held == [] && code == Some(m.code)
    case None =>
      && |held| + e <= |r| && out == r[e..|r| - |held|] && held == r[|r| - |held|..]
      && Passed(r, prefix, |r| - |held|) && (held != [] ==> LooksPending(held, prefix))
      && code == None
  }

  lemma DealtIsRight(
    stream: Bytes, token: Bytes, clearSeq: Bytes, r: Bytes, e: nat, before: Bytes, out: Bytes, held: Bytes,
    code: Option<int>)
    requires Output(stream, StartMarker(token)) == Some(r) && e <= |r| && before == clearSeq + r[..e]
    requires Dealt(r, EndPrefix(token), e, out, held, code)
    ensures Right(stream, token, clearSeq, before + out, held, code)
  {
    hide Passed, LooksPending, Output, Search;
    var n := match Search(r, EndPrefix(token)) case Some(m) => m.start case None => |r| - |held|;
    SliceJoin(r, 0, e, n);
    assert r[0..e] == r[..e] && r[0..n] == r[..n];
    Regroup(clearSeq, r[..e], r[e..n]);
  }

  lemma FindIs(s: Bytes, m: Bytes, i: nat)
    requires OccursAt(s, m, i) && forall k :: 0 <= k < i ==> !OccursAt(s, m, k)
    ensures Find(s, m) == Some(i)
  {
  }

  lemma OccursShift(a: Bytes, b: Bytes, m: Bytes, i: nat)
    ensures OccursAt(a + b, m, |a| + i) <==> OccursAt(b, m, i)
  {
    if i + |m| <= |b| {
      assert (a + b)[|a| + i..|a| + i + |m|] == b[i..i + |m|];
    }
  }

  /** An occurrence that needs the new bytes begins with a suffix of the old ones. */
  lemma CrossingOccurrence(stream: Bytes, x: Bytes, start: Bytes, i: nat)
    requires OccursAt(stream + x, start, i) && i <= |stream| && !OccursAt(stream, start, i)
    ensures |stream| - i < |start| && TailBegins(stream, start, |stream| - i)
  {
    var whole := stream + x;
    assert whole[..|stream|] == stream;
    var end := Min(i + |start|, |stream|);
    assert whole[i..end] == stream[i..end];
    assert whole[i..i + |start|][..end - i] == whole[i..end];
  }

  /** While waiting, an occurrence in everything is one in the held suffix and the new bytes. */
  lemma WaitingOccurrence(stream: Bytes, x: Bytes, start: Bytes, held: Bytes, k: nat)
    requires Waiting(stream, start, held) && OccursAt(stream + x, start, k)
    ensures k >= |stream| - |held| && OccursAt(held + x, start, k - (|stream| - |held|))
    ensures k <= |stream + x|
  {
    if k <= |stream| {
      CrossingOccurrence(stream, x, start, k);
    }
    var front := stream[..|stream| - |held|];
    assert stream + x == front + (held + x);
    OccursShift(front, held + x, start, k - |front|);
  }

  lemma TailOfSuffix(front: Bytes, buf: Bytes, marker: Bytes, j: nat)
    requires j <= |buf|
    ensures TailBegins(front + buf, marker, j) <==> TailBegins(buf, marker, j)
  {
    assert (front + buf)[|front + buf| - j..] == buf[|buf| - j..];
  }

  lemma TailCut(stream: Bytes, x: Bytes, marker: Bytes, j: nat)
    requires TailBegins(stream + x, marker, j) && j >= |x|
    ensures TailBegins(stream, marker, j - |x|)
  {
    var whole, n := stream + x, j - |x|;
    assert whole[|whole| - j..][..n] == stream[|stream| - n..];
    assert marker[..j][..n] == marker[..n];
  }

  lemma LongestOfWhole(stream: Bytes, x: Bytes, start: Bytes, held: Bytes, k: nat)
    requires Waiting(stream, start, held) && IsLongest(held + x, start, k)
    ensures IsLongest(stream + x, start, k)
  {
    hide TailBegins, Find;
    var front, buf := stream[..|stream| - |held|], held + x;
    assert stream + x == front + buf;
    TailOfSuffix(front, buf, start, k);
    forall j | k < j <= Most(stream + x, start) ensures !TailBegins(stream + x, start, j) {
      if j <= |buf| {
        TailOfSuffix(front, buf, start, j);
      } else if TailBegins(stream + x, start, j) {
        TailCut(stream, x, start, j);
      }
    }
  }

  lemma WaitingOn(stream: Bytes, x: Bytes, start: Bytes, held: Bytes, held': Bytes)
    requires Waiting(stream, start, held) && Find(held + x, start) == None
    requires |held'| <= |held + x| && held' == (held + x)[|held + x| - |held'|..] && IsLongest(held + x, start, |held'|)
    ensures Waiting(stream + x, start, held')
  {
    LongestOfWhole(stream, x, start, held, |held'|);
    hide IsLongest, OccursAt;
    forall k | 0 <= k <= |stream + x| ensures !OccursAt(stream + x, start, k) {
      if OccursAt(stream + x, start, k) {
        WaitingOccurrence(stream, x, start, held, k);
      }
    }
    assert stream + x == stream[..|stream| - |held|] + (held + x);
  }

  lemma StartCame(stream: Bytes, x: Bytes, start: Bytes, held: Bytes)
    requires Waiting(stream, start, held) && Find(held + x, start).Some?
    ensures Output(stream + x, start) == Output(held + x, start)
  {
    hide IsLongest, OccursAt;
    var i := Find(held + x, start).value;
    var front := stream[..|stream| - |held|];
    assert stream == front + held;
    assert stream + x == front + (held + x);
    OccursShift(front, held + x, start, i);
    forall k | 0 <= k < |front| + i ensures !OccursAt(stream + x, start, k) {
      if OccursAt(stream + x, start, k) {
        WaitingOccurrence(stream, x, start, held, k);
      }
    }
    FindIs(stream + x, start, |front| + i);
    FoundInside(held + x, start);
    FoundInside(stream + x, start);
    SuffixOfSum(front, held + x, i + |start|);
  }

  lemma SuffixOfSum(a: Bytes, b: Bytes, n: nat)
    requires n <= |b|
    ensures (a + b)[|a| + n..] == b[n..]
  {
  }

  /** Passing on all but the held suffix of what has come so far. */
  lemma PassOn(r: Bytes, x: Bytes, prefix: Bytes, e: nat)
    requires CleanPrefix(prefix) && Passed(r, prefix, e) && Search(r, prefix) == None
    ensures Seen(r + x, prefix, e)
  {
    hide EndAt, LooksPending;
    var buf := r[e..] + x;
    assert (r + x)[e..] == buf;
    var front := r[..e];
    assert r + x == front + buf;
    forall k | 0 <= k < e ensures EndAt(r + x, prefix, k) == None && !LooksPending((r + x)[k..], prefix) {
      if EndAt(r + x, prefix, k).Some? {
        MatchWasThereOrPends(r, x, prefix, k);
      }
      assert (r + x)[k..][..|r| - k] == r[k..];
      if LooksPending((r + x)[k..], prefix) {
        PendingCut((r + x)[k..], prefix, |r| - k);
      }
    }
    forall k | e <= k <= |r + x| ensures EndAt(r + x, prefix, k) == Shifted(EndAt(buf, prefix, k - e), e) {
      MatchShift(front, buf, prefix, k - e);
    }
    match Search(buf, prefix) {
      case Some(m) => SearchIs(r + x, prefix, e + m.start);
      case None =>
        HoldbackIsExact(buf, prefix);
        forall i | 0 <= i < |r + x| - Holdback(buf, prefix) ensures !LooksPending((r + x)[i..], prefix) {
          if i >= e {
            assert (r + x)[i..] == buf[i - e..];
          }
        }
        forall k | 0 <= k <= |r + x| ensures EndAt(r + x, prefix, k) == None {
          if k >= e {
            assert EndAt(buf, prefix, k - e) == None;
          }
        }
    }
  }

  function Shifted(m: Option<Match>, n: nat): Option<Match> {
    match m
    case Some(v) => Some(Match(v.start + n, v.stop + n, v.code))
    case None => None
  }

  lemma MatchShift(front: Bytes, buf: Bytes, prefix: Bytes, k: nat)
    ensures EndAt(front + buf, prefix, |front| + k) == Shifted(EndAt(buf, prefix, k), |front|)
  {
    hide EndAt, IsEndMarker;
    var s, n := front + buf, |front|;
    if EndAt(buf, prefix, k).Some? {
      FoundIsMarker(buf, prefix, k);
      var m := EndAt(buf, prefix, k).value;
      assert s[n + k..n + m.stop] == buf[k..m.stop];
      EndAtIsMarker(s, prefix, n + k, n + m.stop, m.code);
    } else if EndAt(s, prefix, n + k).Some? {
      FoundIsMarker(s, prefix, n + k);
      var m := EndAt(s, prefix, n + k).value;
      assert s[n + k..m.stop] == buf[k..m.stop - n];
      EndAtIsMarker(buf, prefix, k, m.stop - n, m.code);
    }
  }

  lemma PassFromStart(r: Bytes, prefix: Bytes)
    requires CleanPrefix(prefix)
    ensures Seen(r, prefix, 0)
  {
    assert r[0..] == r;
    HoldbackIsExact(r, prefix);
  }

  lemma WaitingHasNoOutput(stream: Bytes, start: Bytes, held: Bytes)
    requires Waiting(stream, start, held)
    ensures Output(stream, start) == None
  {
  }

  lemma FoundInside(s: Bytes, m: Bytes)
    requires Find(s, m).Some?
    ensures Find(s, m).value + |m| <= |s|
    ensures Output(s, m) == Some(s[Find(s, m).value + |m|..])
  {
  }

  lemma OutputGrows(stream: Bytes, x: Bytes, start: Bytes)
    requires Output(stream, start).Some?
    ensures Output(stream + x, start) == Some(Output(stream, start).value + x)
  {
    var i := Find(stream, start).value;
    forall k | 0 <= k <= i ensures OccursAt(stream + x, start, k) <==> OccursAt(stream, start, k) {
      assert (stream + x)[k..k + |start|] == stream[k..k + |start|];
    }
    FindIs(stream + x, start, i);
    assert (stream + x)[i + |start|..] == stream[i + |start|..] + x;
  }

  lemma NothingYet(start: Bytes)
    requires start != []
    ensures Waiting([], start, []) && Output([], start) == None
  {
  }

  // ---- the scanner -------------------------------------------------------------------------

  /** The token never contains ESC (it is a hexadecimal string). */
  predicate CleanToken(token: Bytes) {
    forall i :: 0 <= i < |token| ==> token[i] != ESC
  }

  lemma TokenPrefix(token: Bytes)
    requires CleanToken(token)
    ensures CleanPrefix(EndPrefix(token))
  {
  }

  lemma DealtUpToMarker(r: Bytes, prefix: Bytes, e: nat)
    requires e <= |r| && prefix != [] && Seen(r, prefix, e) && Search(r[e..], prefix).Some?
    ensures
      var m := Search(r[e..], prefix).value;
      m.start <= |r| - e && Dealt(r, prefix, e, r[e..][..m.start], [], Some(m.code))
  {
    hide Search;
    var m := Search(r[e..], prefix).value;
    assert r[e..][..m.start] == r[e..e + m.start];
  }

  lemma DealtUpToHeld(r: Bytes, prefix: Bytes, e: nat)
    requires e <= |r| && CleanPrefix(prefix) && Seen(r, prefix, e) && Search(r[e..], prefix) == None
    ensures
      var n := |r| - e - Holdback(r[e..], prefix);
      Dealt(r, prefix, e, r[e..][..n], r[e..][n..], None)
  {
    hide Search, Passed, LooksPending, Holdback;
    HoldbackIsExact(r[e..], prefix);
    var n := |r| - e - Holdback(r[e..], prefix);
    assert r[e..][..n] == r[e..e + n] && r[e..][n..] == r[e + n..];
  }

  class RunScanner {
    const token: Bytes
    const clearSeq: Bytes
    var exitCode: Option<int>
    var done: bool
    var streaming: bool
    var buf: Bytes
    ghost var fed: Bytes
    ghost var written: Bytes

    constructor (token: Bytes, clearSeq: Bytes)
      requires CleanToken(token)
      ensures Valid() && this.token == token && this.clearSeq == clearSeq && fed == [] && written == [] && !done
    {
      this.token, this.clearSeq := token, clearSeq;
      exitCode, done, streaming, buf, fed, written := None, false, false, [], [], [];
      new;
      NothingYet(StartMarker(token));
    }

    ghost predicate Valid()
      reads this
    {
      && CleanToken(token)
      && Right(fed, token, clearSeq, written, buf, exitCode)
      && done == exitCode.Some?
      && streaming == Output(fed, StartMarker(token)).Some?
      && (!streaming ==> Waiting(fed, StartMarker(token), buf))
    }

    /** Takes the next piece of the stream and returns what to write. */
    method Feed(data: Bytes) returns (out: Bytes)
      requires Valid() && !done
      modifies this
      ensures Valid() && fed == old(fed) + data && written == old(written) + out
    {
      hide Search, Find, Seen, Waiting, LooksPending, Passed, IsLongest, Right;
      RightMeans(fed, token, clearSeq, written, buf, exitCode);
      var start := StartMarker(token);
      ghost var was, stream := buf, fed;
      TokenPrefix(token);
      fed := fed + data;
      buf := buf + data;
      out := [];
      if !streaming {
        var i := Find(buf, start);
        if i == None {
          // discard everything but a tail that could be a partial start
          var tail := SuffixPrefixOf(buf, start);
          WaitingOn(stream, data, start, was, tail);
          WaitingHasNoOutput(fed, start, tail);
          buf := tail;
          RightIsNothing(fed, token, clearSeq, buf);
          assert written + [] == [];
          return [];
        }
        StartCame(stream, data, start, was);
        FoundInside(buf, start);
        buf := buf[i.value + |start|..];
        streaming := true;
        PassFromStart(buf, EndPrefix(token));
        assert written + clearSeq == clearSeq + buf[..0];
        out := Deliver(buf, 0, clearSeq);
      } else {
        OutputGrows(stream, data, start);
        ghost var r := Output(stream, start).value;
        PassOn(r, data, EndPrefix(token), |r| - |was|);
        assert (r + data)[|r| - |was|..] == buf && (r + data)[..|r| - |was|] == r[..|r| - |was|];
        assert written + [] == written;
        out := Deliver(r + data, |r| - |was|, []);
      }
    }

    /** Writes `lead` and what is due of the output `r`, whose first `e` bytes have been dealt with. */
    method Deliver(ghost r: Bytes, ghost e: nat, lead: Bytes) returns (out: Bytes)
      requires CleanToken(token) && e <= |r| && buf == r[e..] && Seen(r, EndPrefix(token), e)
      requires Output(fed, StartMarker(token)) == Some(r) && streaming && !done && exitCode == None
      requires written + lead == clearSeq + r[..e]
      modifies this`buf, this`exitCode, this`done, this`written
      ensures Valid() && written == old(written) + out
    {
      hide Right, Seen, Dealt, Output, Waiting;
      var more := Emit(r, e);
      out := lead + more;
      DealtIsRight(fed, token, clearSeq, r, e, written + lead, more, buf, exitCode);
      assert written + lead + more == written + out;
      written := written + out;
    }

    /** Writes what is due of the output `r`, whose first `e` bytes have been dealt with. */
    method Emit(ghost r: Bytes, ghost e: nat) returns (out: Bytes)
      requires CleanToken(token) && e <= |r| && buf == r[e..] && !done
      requires Seen(r, EndPrefix(token), e)
      modifies this`buf, this`exitCode, this`done
      ensures Dealt(r, EndPrefix(token), e, out, buf, if done then exitCode else None)
      ensures done ==> exitCode.Some?
      ensures !done ==> exitCode == old(exitCode)
    {
      hide Search, Holdback, Seen, Dealt;
      TokenPrefix(token);
      var prefix := EndPrefix(token);
      var m := Search(buf, prefix);
      if m.Some? {
        DealtUpToMarker(r, prefix, e);
        out := buf[..m.value.start];
        exitCode := Some(m.value.code);
        done := true;
        buf := [];
      } else {
        var hold := EndHoldback(buf, prefix);
        DealtUpToHeld(r, prefix, e);
        out := buf[..|buf| - hold];
        buf := buf[|buf| - hold..];
      }
    }
  }

  /** Searching from `e` on tells everything about `r`. */
  ghost predicate Seen(r: Bytes, prefix: Bytes, e: nat)
    requires e <= |r| && prefix != []
  {
    match Search(r[e..], prefix)
    case Some(m) => Search(r, prefix) == Some(Match(e + m.start, e + m.stop, m.code)) && m.start <= |r| - e
    case None => Search(r, prefix) == None && Passed(r, prefix, |r| - Holdback(r[e..], prefix))
  }

  // ---- what the scanner promises ------------------------------------------------------------

  /** What is written, and the code, are determined by the stream alone. */
  lemma WrittenIsDetermined(
    stream: Bytes, token: Bytes, clearSeq: Bytes, w1: Bytes, h1: Bytes, c1: Option<int>, w2: Bytes, h2: Bytes,
    c2: Option<int>)
    requires Right(stream, token, clearSeq, w1, h1, c1) && Right(stream, token, clearSeq, w2, h2, c2)
    ensures w1 == w2 && c1 == c2
  {
    hide LooksPending, Search, Output;
    var o := Output(stream, StartMarker(token));
    if o.Some? && Search(o.value, EndPrefix(token)) == None {
      var r := o.value;
      assert h1 == r[|r| - |h1|..] && h2 == r[|r| - |h2|..];
    }
  }

  /** Once the end marker has come, nothing that follows matters. */
  lemma FinishedStays(stream: Bytes, rest: Bytes, token: Bytes, clearSeq: Bytes, written: Bytes, held: Bytes, code: int)
    requires CleanToken(token) && Right(stream, token, clearSeq, written, held, Some(code))
    ensures Right(stream + rest, token, clearSeq, written, held, Some(code))
  {
    hide Search, LooksPending;
    TokenPrefix(token);
    OutputGrows(stream, rest, StartMarker(token));
    var r := Output(stream, StartMarker(token)).value;
    SearchStays(r, rest, EndPrefix(token));
    var m := Search(r, EndPrefix(token)).value;
    SearchInside(r, EndPrefix(token));
    assert (r + rest)[..m.start] == r[..m.start];
  }

  lemma SearchInside(s: Bytes, prefix: Bytes)
    requires Search(s, prefix).Some?
    ensures Search(s, prefix).value.start <= |s|
  {
  }

  /** No byte of the end marker is ever written: what has been written while it is still
      incomplete ends before it starts. */
  lemma MarkerIsNeverWritten(
    stream: Bytes, rest: Bytes, token: Bytes, clearSeq: Bytes, written: Bytes, held: Bytes, final: Bytes, code: int)
    requires CleanToken(token) && Right(stream, token, clearSeq, written, held, None)
    requires Right(stream + rest, token, clearSeq, final, [], Some(code))
    ensures written <= final
  {
    if Output(stream, StartMarker(token)).Some? {
      WrittenIsPrefix(stream, rest, token, clearSeq, written, held);
    }
  }

  lemma WrittenIsPrefix(stream: Bytes, rest: Bytes, token: Bytes, clearSeq: Bytes, written: Bytes, held: Bytes)
    requires CleanToken(token) && Right(stream, token, clearSeq, written, held, None)
    requires Output(stream, StartMarker(token)).Some?
    ensures Output(stream + rest, StartMarker(token)).Some?
    ensures
      var r := Output(stream + rest, StartMarker(token)).value;
      match Search(r, EndPrefix(token))
      case Some(m) => m.start <= |r| && written <= clearSeq + r[..m.start]
      case None => true
  {
    hide LooksPending, EndAt;
    TokenPrefix(token);
    OutputGrows(stream, rest, StartMarker(token));
    var prefix := EndPrefix(token);
    var r0 := Output(stream, StartMarker(token)).value;
    var r := r0 + rest;
    if Search(r, prefix).Some? {
      var m := Search(r, prefix).value;
      if m.start < |r0| {
        MatchWasThereOrPends(r0, rest, prefix, m.start);
      }
      assert |r0| - |held| <= m.start;
      assert r[..m.start][..|r0| - |held|] == r0[..|r0| - |held|];
    }
  }

  /** The pump: pieces are fed until the end marker has been seen. However the stream is cut,
      what is written is what the whole stream calls for. */
  method Pump(scanner: RunScanner, pieces: seq<Bytes>) returns (out: Bytes)
    requires scanner.Valid() && !scanner.done && scanner.fed == [] && scanner.written == []
    modifies scanner
    ensures out == scanner.written
    ensures scanner.done == scanner.exitCode.Some?
    ensures Right(Flatten(pieces), scanner.token, scanner.clearSeq, out, scanner.buf, scanner.exitCode)
  {
    hide Right, Waiting, Output;
    out := [];
    assert pieces[..0] == [];
    for i := 0 to |pieces|
      invariant scanner.Valid() && !scanner.done
      invariant scanner.fed == Flatten(pieces[..i]) && out == scanner.written
    {
      var more := scanner.Feed(pieces[i]);
      out := out + more;
      assert pieces[..i + 1] == pieces[..i] + [pieces[i]];
      FlattenSnoc(pieces[..i], pieces[i]);
      if scanner.done {
        assert pieces == pieces[..i + 1] + pieces[i + 1..];
        FlattenAppend(pieces[..i + 1], pieces[i + 1..]);
        FinishedStays(scanner.fed, Flatten(pieces[i + 1..]), scanner.token, scanner.clearSeq,
                      out, scanner.buf, scanner.exitCode.value);
        return;
      }
    }
    assert pieces[..|pieces|] == pieces;
  }

  // ---- a whole run -------------------------------------------------------------------------

  /** What the remote shell prints behind the output: ESC _ j p, the token, D, the exit code, ESC backslash. */
  function EndMarker(token: Bytes, negative: bool, n: nat): Bytes {
    [0x1B, 0x5F, 0x6A, 0x70] + token + [0x44] + (if negative then [0x2D] else []) + DigitBytes(n) + [0x1B, 0x5C]
  }

  /** ... and before it: ESC _ j p, the token, C, ESC backslash. */
  function BeginMarker(token: Bytes): Bytes {
    [0x1B, 0x5F, 0x6A, 0x70] + token + [0x43, 0x1B, 0x5C]
  }

  /** An ESC in an end marker is its first byte, or the one before the last. */
  lemma EscInMarker(m: Bytes, prefix: Bytes, code: int, j: nat)
    requires CleanPrefix(prefix) && IsEndMarker(m, prefix, code) && 0 < j < |m| && m[j] == ESC
    ensures j == |m| - 2 && m[j + 1] == BACKSLASH
  {
    hide Signed;
    var negative: bool, digits: Bytes :| digits != [] && AllDigits(digits) && code == Signed(negative, digits)
      && m == prefix + Sign(negative) + digits + [ESC, BACKSLASH];
    var k := |prefix| + |Sign(negative)|;
    assert forall i :: k <= i < |m| - 2 ==> m[i] == digits[i - k];
  }

  /** The end marker behind an output that holds none is the first one, whatever follows. */
  lemma MarkerEndsOutput(output: Bytes, token: Bytes, negative: bool, n: nat, after: Bytes)
    requires CleanToken(token) && Search(output, EndPrefix(token)) == None
    ensures
      var m := EndMarker(token, negative, n);
      Search(output + m + after, EndPrefix(token))
        == Some(Match(|output|, |output| + |m|, if negative then -(n as int) else n))
  {
    hide Search, EndAt, IsEndMarker;
    var prefix, digits, m := EndPrefix(token), DigitBytes(n), EndMarker(token, negative, n);
    var s := output + m + after;
    var stop := |output| + |m|;
    TokenPrefix(token);
    ValueOfDigits(n);
    assert s[|output|..stop] == m == prefix + Sign(negative) + digits + [ESC, BACKSLASH];
    MarkerIsFound(s, prefix, |output|, negative, digits, stop);
    forall k | 0 <= k < |output| ensures EndAt(s, prefix, k) == None {
      NoneBefore(output, m, after, prefix, k);
    }
    SearchIs(s, prefix, |output|);
  }

  lemma NoneBefore(output: Bytes, m: Bytes, after: Bytes, prefix: Bytes, k: nat)
    requires CleanPrefix(prefix) && Search(output, prefix) == None && k < |output|
    requires |m| >= 2 && m[0] == ESC && m[1] != BACKSLASH
    ensures EndAt(output + m + after, prefix, k) == None
  {
    hide EndAt, IsEndMarker;
    var s := output + m + after;
    if EndAt(s, prefix, k).Some? {
      FoundIsMarker(s, prefix, k);
      var stop, code := EndAt(s, prefix, k).value.stop, EndAt(s, prefix, k).value.code;
      var found := s[k..stop];
      if stop <= |output| {
        assert output[k..stop] == found;
        EndAtIsMarker(output, prefix, k, stop, code);
        assert false;
      } else {
        assert found[|output| - k] == s[|output|] == ESC;
        EscInMarker(found, prefix, code, |output| - k);
        assert false;
      }
    }
  }

  /** A stream with the two markers: the echo before the first is discarded, exactly the output between them
      is written, and the code in the second is the exit code. */
  lemma MarkedRun(
    stream: Bytes, token: Bytes, clearSeq: Bytes, written: Bytes, held: Bytes, code: Option<int>,
    before: Bytes, output: Bytes, negative: bool, n: nat, after: Bytes)
    requires CleanToken(token) && Right(stream, token, clearSeq, written, held, code)
    requires stream == before + BeginMarker(token) + output + EndMarker(token, negative, n) + after
    requires forall k :: 0 <= k < |before| ==> !OccursAt(before + BeginMarker(token), BeginMarker(token), k)
    requires Search(output, EndPrefix(token)) == None
    ensures written == clearSeq + output && held == []
    ensures code == Some(if negative then -(n as int) else n)
  {
    hide Search, EndMarker;
    var start, rest := StartMarker(token), output + EndMarker(token, negative, n) + after;
    assert start == BeginMarker(token);
    assert stream == before + start + rest;
    assert (before + start)[|before|..|before| + |start|] == start;
    FindIs(before + start, start, |before|);
    assert (before + start)[|before| + |start|..] == [];
    OutputGrows(before + start, rest, start);
    assert [] + rest == rest;
    MarkerEndsOutput(output, token, negative, n, after);
    assert rest[..|output|] == output;
  }

  /** The same of the running scanner, however the stream is cut into pieces. */
  method PumpRun(
    scanner: RunScanner, pieces: seq<Bytes>, ghost before: Bytes, ghost output: Bytes, ghost negative: bool,
    ghost n: nat, ghost after: Bytes) returns (out: Bytes)
    requires scanner.Valid() && !scanner.done && scanner.fed == [] && scanner.written == []
    requires Flatten(pieces)
          == before + BeginMarker(scanner.token) + output + EndMarker(scanner.token, negative, n) + after
    requires forall k :: 0 <= k < |before| ==>
        !OccursAt(before + BeginMarker(scanner.token), BeginMarker(scanner.token), k)
    requires Search(output, EndPrefix(scanner.token)) == None
    modifies scanner
    ensures out == scanner.clearSeq + output
    ensures scanner.done && scanner.exitCode == Some(if negative then -(n as int) else n)
  {
    hide Right, EndMarker, BeginMarker, Search;
    out := Pump(scanner, pieces);
    MarkedRun(
      Flatten(pieces), scanner.token, scanner.clearSeq, out, scanner.buf, scanner.exitCode, before, output, negative,
      n, after);
  }
}

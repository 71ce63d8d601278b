/** UTF-8: text as bytes, and bytes as text with replacement characters for what is not UTF-8. */
module Utf8Coding {
  import opened Basics

  function Utf8Char(c: char): (r: Bytes)
    ensures 1 <= |r| <= 4
  {
    var n := c as int;
    if n < 0x80 then [n]
    else if n < 0x800 then [0xC0 + n / 64, 0x80 + n % 64]
    else if n < 0x10000 then [0xE0 + n / 4096, 0x80 + n / 64 % 64, 0x80 + n % 64]
    else [0xF0 + n / 262144, 0x80 + n / 4096 % 64, 0x80 + n / 64 % 64, 0x80 + n % 64]
  }

  function Utf8(s: string): Bytes {
    if s == "" then [] else Utf8Char(s[0]) + Utf8(s[1..])
  }

  const REPLACEMENT: char := '\U{FFFD}'

  /** How many continuation bytes the first byte calls for; None if it cannot start a character. */
  function Wants(b: Byte): Option<nat> {
    if b < 0x80 then Some(0)
    else if 0xC2 <= b <= 0xDF then Some(1)
    else if 0xE0 <= b <= 0xEF then Some(2)
    else if 0xF0 <= b <= 0xF4 then Some(3)
    else None
  }

  /** The byte may stand at position `k` behind the first byte. */
  predicate Continues(first: Byte, k: nat, b: Byte) {
    && 0x80 <= b <= 0xBF
    && (k == 1 && first == 0xE0 ==> b >= 0xA0) && (k == 1 && first == 0xED ==> b <= 0x9F)
    && (k == 1 && first == 0xF0 ==> b >= 0x90) && (k == 1 && first == 0xF4 ==> b <= 0x8F)
  }

  /** How many of the wanted continuation bytes are there, from position `k` on. */
  function Present(s: Bytes, k: nat, wanted: nat): (n: nat)
    requires s != []
    ensures k <= wanted + 1 ==> k <= n <= wanted + 1 && (k <= |s| ==> n <= |s|)
    ensures forall i :: k <= i < n ==> i < |s| && Continues(s[0], i, s[i])
    decreases wanted + 1 - k
  {
    if k <= wanted && k < |s| && Continues(s[0], k, s[k]) then Present(s, k + 1, wanted) else k
  }

  /** The number that a first byte and its continuation bytes make up. */
  function Value(s: Bytes, w: nat): int
    requires w < |s|
  {
    if w == 0 then s[0]
    else if w == 1 then (s[0] as int - 0xC0) * 64 + (s[1] as int - 0x80)
    else if w == 2 then (s[0] as int - 0xE0) * 4096 + (s[1] as int - 0x80) * 64 + (s[2] as int - 0x80)
    else if w == 3 then
      (s[0] as int - 0xF0) * 262144 + (s[1] as int - 0x80) * 4096 + (s[2] as int - 0x80) * 64 + (s[3] as int - 0x80)
    else 0
  }

  /** The first character and the bytes it takes; an incomplete or impossible sequence gives one
      replacement character for its longest beginning. */
  function DecodeFirst(s: Bytes): (r: (char, nat))
    requires s != []
    ensures 1 <= r.1 <= |s|
  {
    match Wants(s[0])
    case None => (REPLACEMENT, 1)
    case Some(w) =>
      var n := Present(s, 1, w);
      if n <= w then (REPLACEMENT, n)
      else
        assert w >= 1 ==> Continues(s[0], 1, s[1]);
        (Value(s, w) as char, w + 1)
  }

  /** bytes.decode("utf-8", "replace"). */
  function Decode(s: Bytes): string
    decreases |s|
  {
    if s == [] then "" else [DecodeFirst(s).0] + Decode(s[DecodeFirst(s).1..])
  }

  /** The bytes of a character announce their number, continue, and make it up again. */
  lemma CharBytes(c: char)
    ensures
      var s := Utf8Char(c);
      var w := |s| - 1;
      Wants(s[0]) == Some(w) && Value(s, w) == c as int && forall k :: 1 <= k <= w ==> Continues(s[0], k, s[k])
  {
    var n := c as int;
    assert n / 4096 == n / 64 / 64 && n / 262144 == n / 4096 / 64;
    assert n == n / 64 * 64 + n % 64 && n / 64 == n / 4096 * 64 + n / 64 % 64
        && n / 4096 == n / 262144 * 64 + n / 4096 % 64;
  }

  /** The bits of a first byte and its continuation bytes, six from each of these, put together. */
  function Gathered(acc: int, s: Bytes): int
    decreases |s|
  {
    if s == [] then acc else Gathered(64 * acc + (s[0] as int - 0x80), s[1..])
  }

  /** One byte up to 7F, two up to 7FF, three up to FFFF, four beyond; the first byte tells how many, the others
      lie between 80 and BF, and the bits put together are the character's number (section 3 of RFC 3629). */
  lemma CharBits(c: char)
    ensures
      var n, s := c as int, Utf8Char(c);
      && |s| == (if n < 0x80 then 1 else if n < 0x800 then 2 else if n < 0x10000 then 3 else 4)
      && (forall k :: 1 <= k < |s| ==> 0x80 <= s[k] < 0xC0)
      && n == Gathered(s[0] as int - (if |s| == 1 then 0 else if |s| == 2 then 0xC0 else if |s| == 3 then 0xE0
          else 0xF0),
                       s[1..])
  {
    var n, s := c as int, Utf8Char(c);
    Sixes(n);
    hide Gathered;
    if |s| == 1 {
      assert s[1..] == [];
      GatheredNone(s[0]);
    } else if |s| == 2 {
      assert s[1..] == [s[1]];
      GatheredOne(s[0] as int - 0xC0, s[1]);
    } else if |s| == 3 {
      assert s[1..] == [s[1], s[2]];
      GatheredTwo(s[0] as int - 0xE0, s[1], s[2]);
    } else {
      assert s[1..] == [s[1], s[2], s[3]];
      GatheredThree(s[0] as int - 0xF0, s[1], s[2], s[3]);
    }
  }

  lemma Sixes(n: nat)
    ensures n == n / 64 * 64 + n % 64 && n / 64 == n / 4096 * 64 + n / 64 % 64
    ensures n / 4096 == n / 262144 * 64 + n / 4096 % 64
  {
  }

  lemma GatheredNone(acc: int)
    ensures Gathered(acc, []) == acc
  {
  }

  lemma GatheredOne(acc: int, a: Byte)
    ensures Gathered(acc, [a]) == 64 * acc + (a as int - 0x80)
  {
    assert [a][1..] == [];
  }

  lemma GatheredTwo(acc: int, a: Byte, b: Byte)
    ensures Gathered(acc, [a, b]) == 4096 * acc + 64 * (a as int - 0x80) + (b as int - 0x80)
  {
    assert [a, b][1..] == [b];
    GatheredOne(64 * acc + (a as int - 0x80), b);
  }

  lemma GatheredThree(acc: int, a: Byte, b: Byte, c: Byte)
    ensures Gathered(acc, [a, b, c])
        == 262144 * acc + 4096 * (a as int - 0x80) + 64 * (b as int - 0x80) + (c as int - 0x80)
  {
    assert [a, b, c][1..] == [b, c];
    GatheredTwo(64 * acc + (a as int - 0x80), b, c);
  }

  lemma DecodeOfChar(c: char, rest: Bytes)
    ensures DecodeFirst(Utf8Char(c) + rest) == (c, |Utf8Char(c)|)
  {
    hide Utf8Char, Wants, Continues;
    CharBytes(c);
    var head := Utf8Char(c);
    var s, w := head + rest, |head| - 1;
    assert forall k :: 0 <= k <= w ==> s[k] == head[k];
    AllPresent(s, 1, w);
    assert Value(s, w) == Value(head, w);
  }

  lemma {:induction false} AllPresent(s: Bytes, k: nat, wanted: nat)
    requires wanted < |s| && 1 <= k <= wanted + 1 && forall i :: k <= i <= wanted ==> Continues(s[0], i, s[i])
    ensures Present(s, k, wanted) == wanted + 1
    decreases wanted + 1 - k
  {
    if k <= wanted {
      AllPresent(s, k + 1, wanted);
    }
  }

  lemma DecodeStep(c: char, rest: Bytes)
    ensures Decode(Utf8Char(c) + rest) == [c] + Decode(rest)
  {
    DecodeOfChar(c, rest);
    hide Utf8Char, DecodeFirst;
    assert (Utf8Char(c) + rest)[|Utf8Char(c)|..] == rest;
  }

  lemma {:induction false} DecodeOfUtf8(s: string, rest: Bytes)
    ensures Decode(Utf8(s) + rest) == s + Decode(rest)
  {
    if s == "" {
      assert [] + rest == rest;
    } else {
      var head, tail := Utf8Char(s[0]), Utf8(s[1..]);
      assert Utf8(s) == head + tail && s == [s[0]] + s[1..];
      hide Utf8Char, Decode, Utf8;
      Regroup(head, tail, rest);
      Regroup([s[0]], s[1..], Decode(rest));
      DecodeStep(s[0], tail + rest);
      DecodeOfUtf8(s[1..], rest);
    }
  }

  /** Decoding loses nothing. */
  predicate IsUtf8(s: Bytes) {
    Utf8(Decode(s)) == s
  }

  /** ... exactly when the bytes are those of a text. */
  lemma IsUtf8Means(s: Bytes)
    ensures IsUtf8(s) <==> exists text :: Utf8(text) == s
  {
    if text :| Utf8(text) == s {
      DecodeOfUtf8(text, []);
      assert Utf8(text) + [] == Utf8(text) && text + "" == text;
    }
  }
}

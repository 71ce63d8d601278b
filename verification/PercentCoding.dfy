/** Percent-encoding of path segments, and its inverse. */
module PercentCoding {
  import opened Basics
  import opened Utf8Coding

  // ---- percent-encoding (section 2.1 of RFC 3986) ----------------------------------------

  predicate Unreserved(b: Byte) {
    'a' as int <= b <= 'z' as int || 'A' as int <= b <= 'Z' as int || '0' as int <= b <= '9' as int
    || b == '_' as int || b == '.' as int || b == '-' as int || b == '~' as int
  }

  function HexDigit(n: nat): char
    requires n < 16
  {
    if n < 10 then ('0' as int + n) as char else ('A' as int + n - 10) as char
  }

  function HexValue(c: char): Option<nat> {
    if '0' <= c <= '9' then Some((c - '0') as nat)
    else if 'A' <= c <= 'F' then Some((c - 'A') as nat + 10)
    else if 'a' <= c <= 'f' then Some((c - 'a') as nat + 10)
    else None
  }

  function QuoteByte(b: Byte): string {
    if Unreserved(b) then [b as char] else ['%', HexDigit(b / 16), HexDigit(b % 16)]
  }

  function QuoteBytes(s: Bytes): string {
    if s == [] then "" else QuoteByte(s[0]) + QuoteBytes(s[1..])
  }

  /** urllib.parse.quote(s, safe=""). */
  function Quote(s: string): string {
    QuoteBytes(Utf8(s))
  }

  predicate Ascii(s: string) {
    forall i :: 0 <= i < |s| ==> s[i] < '\U{80}'
  }

  /** The byte that an escape at the front stands for. */
  function Escape(s: string): Option<nat>
    requires s != ""
    ensures Escape(s).Some? ==> Escape(s).value < 256 && |s| >= 3
  {
    if s[0] != '%' || |s| < 3 then None
    else
      match (HexValue(s[1]), HexValue(s[2]))
      case (Some(h), Some(l)) => Some(16 * h + l)
      case _ => None
  }

  /** unquote_to_bytes of ASCII text; a percent sign that starts no escape stays. */
  function UnquoteBytes(s: string): Bytes
    requires Ascii(s)
  {
    if s == "" then []
    else
      match Escape(s)
      case Some(b) => [b] + UnquoteBytes(s[3..])
      case None => [s[0] as int] + UnquoteBytes(s[1..])
  }

  /** How long the ASCII text at the front is. */
  function AsciiRun(s: string): (n: nat)
    ensures n <= |s| && Ascii(s[..n]) && (Ascii(s) ==> n == |s|)
  {
    if s != "" && s[0] < '\U{80}' then
      var n := AsciiRun(s[1..]);
      assert s[..n + 1] == [s[0]] + s[1..][..n];
      assert Ascii(s) ==> Ascii(s[1..]);
      n + 1
    else 0
  }

  /** urllib.parse.unquote: runs of ASCII are decoded, other characters stay. */
  function Unquote(s: string): string
    decreases |s|
  {
    var n := AsciiRun(s);
    Decode(UnquoteBytes(s[..n])) + if n < |s| then [s[n]] + Unquote(s[n + 1..]) else ""
  }

  /** A reserved byte becomes a percent sign and its two hexadecimal digits, the higher first (section 2.1 of
      RFC 3986); any other stays. */
  lemma QuoteMeans(b: Byte)
    ensures QuoteByte(b) == [b as char] || QuoteByte(b) == ['%', "0123456789ABCDEF"[b / 16], "0123456789ABCDEF"[b % 16]]
    ensures QuoteByte(b) == [b as char] <==> Unreserved(b)
  {
  }

  lemma UnquoteOfByte(b: Byte, rest: string)
    requires Ascii(rest)
    ensures Ascii(QuoteByte(b) + rest) && UnquoteBytes(QuoteByte(b) + rest) == [b] + UnquoteBytes(rest)
  {
    var q := QuoteByte(b);
    assert (q + rest)[|q|..] == rest;
    if !Unreserved(b) {
      assert HexValue(HexDigit(b / 16)) == Some(b / 16) && HexValue(HexDigit(b % 16)) == Some(b % 16);
      assert Escape(q + rest) == Some(b);
    } else {
      assert Escape(q + rest) == None;
    }
  }

  lemma {:induction false} UnquoteOfQuote(s: Bytes, rest: string)
    requires Ascii(rest)
    ensures Ascii(QuoteBytes(s) + rest) && UnquoteBytes(QuoteBytes(s) + rest) == s + UnquoteBytes(rest)
  {
    if s == [] {
      assert "" + rest == rest;
    } else {
      var head, tail := QuoteByte(s[0]), QuoteBytes(s[1..]);
      assert QuoteBytes(s) == head + tail && s == [s[0]] + s[1..];
      hide QuoteByte, UnquoteBytes, QuoteBytes, Ascii;
      UnquoteOfQuote(s[1..], rest);
      UnquoteOfByte(s[0], tail + rest);
      Regroup(head, tail, rest);
      Regroup([s[0]], s[1..], UnquoteBytes(rest));
    }
  }

  lemma UnquoteAscii(s: string)
    requires Ascii(s)
    ensures Unquote(s) == Decode(UnquoteBytes(s))
  {
    assert s[..|s|] == s;
  }
}

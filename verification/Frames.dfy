/** RFC 6455 frames: encoding, and parsing one frame from the front of a buffer. */
module Frames {
  import opened Basics
  import opened Words

  const OP_CONT: nat := 0x0
  const OP_CLOSE: nat := 0x8
  const OP_PING: nat := 0x9
  const OP_PONG: nat := 0xA

  datatype Frame = Frame(fin: bool, opcode: nat, payload: Bytes)

  /** The payload under a repeated 4-byte key (section 5.3). */
  function Mask(payload: Bytes, key: Bytes): (r: Bytes)
    requires |key| == 4
    ensures |r| == |payload|
    ensures forall i :: 0 <= i < |r| ==> r[i] == Xor(payload[i], key[i % 4])
  {
    seq(|payload|, i requires 0 <= i < |payload| => Xor(payload[i], key[i % 4]))
  }

  lemma MaskTwice(payload: Bytes, key: Bytes)
    requires |key| == 4
    ensures Mask(Mask(payload, key), key) == payload
  {
    forall i | 0 <= i < |payload| ensures Mask(Mask(payload, key), key)[i] == payload[i] {
      XorTwice(payload[i], key[i % 4]);
    }
  }

  /** The length bytes, with the mask bit in the first (section 5.2: 7, 16 or 64 bits). */
  function LengthField(n: nat, masked: bool): Bytes
    requires n < TWO_64
  {
    var bit := if masked then 0x80 else 0;
    if n < 126 then [bit + n]
    else if n < 65536 then [bit + 126] + BigEndian(n, 2)
    else [bit + 127] + BigEndian(n, 8)
  }

  /** The same byte by byte, the longer forms in network byte order. */
  lemma LengthBytes(n: nat, masked: bool)
    requires n < TWO_64
    ensures
      var field, bit := LengthField(n, masked), if masked then 128 else 0;
      if n < 126 then field == [bit + n]
      else if n < 65536 then field == [bit + 126, n / 256, n % 256]
      else |field| == 9 && field[0] == bit + 127 && forall i :: 1 <= i < 9 ==> field[i] == WeightedByte(n, 8 - i)
  {
    var field := LengthField(n, masked);
    if 65536 <= n {
      forall i | 1 <= i < 9 ensures field[i] == WeightedByte(n, 8 - i) {
        BigEndianAt(n, 8, i - 1);
      }
    } else if 126 <= n {
      BigEndianAt(n, 2, 0);
      BigEndianAt(n, 2, 1);
      assert Pow256(0) == 1 && Pow256(1) == 256;
      assert BigEndian(n, 2) == [n / 256, n % 256];
    }
  }

  /** A frame as any peer may send it: final or not, reserved bits, masked or not. */
  function WireFrame(f: Frame, reserved: nat, key: Option<Bytes>): Bytes
    requires f.opcode < 16 && reserved < 8 && |f.payload| < TWO_64
    requires key.Some? ==> |key.value| == 4
  {
    [(if f.fin then 0x80 else 0) + 16 * reserved + f.opcode]
    + LengthField(|f.payload|, key.Some?)
    + match key
      case Some(k) => k + Mask(f.payload, k)
      case None => f.payload
  }

  /** A client frame: final and masked. None is the ValueError of a wrong key, or a length
      no 64-bit field can hold. */
  function EncodeFrame(opcode: nat, payload: Bytes, key: Bytes): Option<Bytes> {
    if |key| != 4 || |payload| >= TWO_64 then None
    else Some([0x80 + opcode % 16] + LengthField(|payload|, true) + key + Mask(payload, key))
  }

  /** What precedes the payload. */
  datatype Head = Head(fin: bool, opcode: nat, key: Option<Bytes>, start: nat, length: nat)

  function ParseHead(buf: Bytes): (h: Option<Head>)
    ensures h.Some? ==>
              2 <= h.value.start <= |buf| && (h.value.key.Some? ==> |h.value.key.value| == 4) && h.value.opcode < 16
  {
    if |buf| < 2 then None
    else
      var fin, opcode := buf[0] >= 0x80, buf[0] % 16;
      var masked, short := buf[1] >= 0x80, buf[1] % 128;
      var extended := if short == 126 then 2 else if short == 127 then 8 else 0;
      var idx := 2 + extended;
      if |buf| < idx then None
      else
        var length := if extended == 0 then short else FromBigEndian(buf[2..idx]);
        if !masked then Some(Head(fin, opcode, None, idx, length))
        else if |buf| < idx + 4 then None
        else Some(Head(fin, opcode, Some(buf[idx..idx + 4]), idx + 4, length))
  }

  /** The first frame of the buffer and how many bytes it takes; None while it is incomplete. */
  function ParseFrame(buf: Bytes): (r: Option<(Frame, nat)>)
    ensures r.Some? ==> 2 <= r.value.1 <= |buf| && |r.value.0.payload| <= r.value.1 && r.value.0.opcode < 16
  {
    match ParseHead(buf)
    case None => None
    case Some(h) =>
      if |buf| < h.start + h.length then None
      else
        var raw := buf[h.start..h.start + h.length];
        var payload := match h.key case Some(k) => Mask(raw, k) case None => raw;
        Some((Frame(h.fin, h.opcode, payload), h.start + h.length))
  }

  lemma HeadIgnoresTail(buf: Bytes, tail: Bytes)
    requires ParseHead(buf).Some?
    ensures ParseHead(buf + tail) == ParseHead(buf)
  {
    var short := buf[1] % 128;
    var idx := 2 + if short == 126 then 2 else if short == 127 then 8 else 0;
    assert (buf + tail)[2..idx] == buf[2..idx];
    if buf[1] >= 0x80 {
      assert (buf + tail)[idx..idx + 4] == buf[idx..idx + 4];
    }
  }

  /** A complete frame parses the same whatever follows it. */
  lemma ParseIgnoresTail(buf: Bytes, tail: Bytes)
    requires ParseFrame(buf).Some?
    ensures ParseFrame(buf + tail) == ParseFrame(buf)
  {
    hide ParseHead, Mask;
    HeadIgnoresTail(buf, tail);
    var h := ParseHead(buf).value;
    assert (buf + tail)[h.start..h.start + h.length] == buf[h.start..h.start + h.length];
  }

  /** No proper prefix of a frame parses. */
  lemma PrefixIsIncomplete(frame: Bytes, k: nat)
    requires ParseFrame(frame).Some? && ParseFrame(frame).value.1 == |frame| && k < |frame|
    ensures ParseFrame(frame[..k]) == None
  {
    assert frame[..k] + frame[k..] == frame;
    if ParseFrame(frame[..k]).Some? {
      ParseIgnoresTail(frame[..k], frame[k..]);
    }
  }

  lemma HeadOfField(first: Byte, n: nat, masked: bool, rest: Bytes)
    requires n < TWO_64 && (masked ==> |rest| >= 4)
    ensures
      var field := LengthField(n, masked);
      var idx := 1 + |field|;
      ParseHead([first] + field + rest)
        == Some(Head(first >= 0x80, first % 16, if masked then Some(rest[..4]) else None,
                     if masked then idx + 4 else idx, n))
  {
    Pow256Values();
    hide Pow256, BigEndian, FromBigEndian;
    var field := LengthField(n, masked);
    var buf := [first] + field + rest;
    assert buf[0] == first && buf[1] == field[0];
    if n >= 126 {
      var width := if n < 65536 then 2 else 8;
      assert buf[2..2 + width] == BigEndian(n, width);
      BigEndianRoundTrip(n, width);
    }
    if masked {
      assert buf[1 + |field|..1 + |field| + 4] == rest[..4];
    }
  }

  /** Parsing gives back any frame a peer sends, and its exact length. */
  lemma WireRoundTrip(f: Frame, reserved: nat, key: Option<Bytes>, tail: Bytes)
    requires f.opcode < 16 && reserved < 8 && |f.payload| < TWO_64
    requires key.Some? ==> |key.value| == 4
    ensures ParseFrame(WireFrame(f, reserved, key) + tail) == Some((f, |WireFrame(f, reserved, key)|))
  {
    hide ParseFrame, ParseHead, Mask, LengthField;
    var wire := WireFrame(f, reserved, key);
    match key {
      case Some(k) =>
        MaskTwice(f.payload, k);
        WholeFrame(f, reserved, key, Mask(f.payload, k), k + Mask(f.payload, k));
      case None =>
        WholeFrame(f, reserved, key, f.payload, f.payload);
    }
    hide WireFrame;
    ParseIgnoresTail(wire, tail);
  }

  /** A frame whose body is `rest`, its key first if it has one, then `raw`. */
  lemma WholeFrame(f: Frame, reserved: nat, key: Option<Bytes>, raw: Bytes, rest: Bytes)
    requires f.opcode < 16 && reserved < 8 && |raw| < TWO_64
    requires match key case Some(k) => |k| == 4 && rest == k + raw case None => rest == raw
    ensures
      var wire := [(if f.fin then 0x80 else 0) + 16 * reserved + f.opcode] + LengthField(|raw|, key.Some?) + rest;
      ParseFrame(wire) == Some((Frame(f.fin, f.opcode, match key case Some(k) => Mask(raw, k) case None => raw),
          |wire|))
  {
    hide ParseFrame, ParseHead, Mask, LengthField;
    var first: Byte := (if f.fin then 0x80 else 0) + 16 * reserved + f.opcode;
    var wire := [first] + LengthField(|raw|, key.Some?) + rest;
    HeadOfField(first, |raw|, key.Some?, rest);
    assert key.Some? ==> rest[..4] == key.value;
    BodyParses(wire, Head(f.fin, f.opcode, key, |wire| - |raw|, |raw|), raw);
  }

  lemma BodyParses(buf: Bytes, h: Head, raw: Bytes)
    requires ParseHead(buf) == Some(h) && h.start + h.length == |buf|
    requires raw == buf[h.start..]
    ensures
      ParseFrame(buf) == Some((Frame(h.fin, h.opcode, match h.key case Some(k) => Mask(raw, k) case None => raw),
          |buf|))
  {
    hide ParseHead, Mask;
    assert buf[h.start..h.start + h.length] == raw;
  }

  /** What a server sends, byte by byte: a first byte, the length in one byte or in two more behind 126, the
      payload as it is. Whatever follows, it parses as that frame. */
  lemma ServerFrame(first: Byte, payload: Bytes, tail: Bytes)
    requires |payload| < 65536
    ensures
      var length := if |payload| < 126 then [|payload|] else [126, |payload| / 256, |payload| % 256];
      ParseFrame([first] + length + payload + tail)
        == Some((Frame(first >= 128, first % 16, payload), 1 + |length| + |payload|))
  {
    LengthBytes(|payload|, false);
    hide LengthField, ParseFrame;
    var f := Frame(first >= 128, first % 16, payload);
    WireRoundTrip(f, first / 16 % 8, None, tail);
    assert WireFrame(f, first / 16 % 8, None) == [first] + LengthField(|payload|, false) + payload;
  }

  /** What a client sends, byte by byte: the first byte, the length with the mask bit set, the key, the payload
      under the key. */
  lemma ClientBytes(opcode: nat, payload: Bytes, key: Bytes)
    requires opcode < 16 && |key| == 4 && |payload| < 65536
    ensures
      var length := if |payload| < 126 then [128 + |payload|] else [254, |payload| / 256, |payload| % 256];
      && EncodeFrame(opcode, payload, key) == Some([128 + opcode] + length + key + Mask(payload, key))
      && forall i, b :: 0 <= i < |payload| && 0 <= b < 8 ==>
           (Bit(Mask(payload, key)[i], b) <==> Bit(payload[i], b) != Bit(key[i % 4], b))
  {
    LengthBytes(|payload|, true);
    hide LengthField;
    forall i, b | 0 <= i < |payload| && 0 <= b < 8
      ensures Bit(Mask(payload, key)[i], b) <==> Bit(payload[i], b) != Bit(key[i % 4], b)
    {
      XorIsBitwise(payload[i], key[i % 4], b);
    }
  }

  /** What a client encodes is final, without reserved bits, and masked. */
  lemma ClientFrame(opcode: nat, payload: Bytes, key: Bytes)
    requires opcode < 16 && |key| == 4 && |payload| < TWO_64
    ensures EncodeFrame(opcode, payload, key) == Some(WireFrame(Frame(true, opcode, payload), 0, Some(key)))
  {
    hide Mask, LengthField;
    Regroup([0x80 + opcode] + LengthField(|payload|, true), key, Mask(payload, key));
  }

  /** The client's own frames: encoding succeeds exactly for a 4-byte key and a length below
      2^64, and parsing undoes it across the three length forms. */
  lemma EncodeRoundTrip(opcode: nat, payload: Bytes, key: Bytes, tail: Bytes)
    requires opcode < 16
    ensures EncodeFrame(opcode, payload, key).Some? <==> |key| == 4 && |payload| < TWO_64
    ensures EncodeFrame(opcode, payload, key).Some? ==>
              var wire := EncodeFrame(opcode, payload, key).value;
              ParseFrame(wire + tail) == Some((Frame(true, opcode, payload), |wire|))
  {
    hide ParseFrame, WireFrame, Mask, LengthField;
    if EncodeFrame(opcode, payload, key).Some? {
      var f := Frame(true, opcode, payload);
      WireRoundTrip(f, 0, Some(key), tail);
      ClientFrame(opcode, payload, key);
    }
  }
}

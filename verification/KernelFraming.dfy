/** The v1 binary framing of kernel messages: an offset table, then the channel name and
    the message parts. */
module KernelFraming {
  import opened Basics
  import opened Utf8Coding
  import opened Words

  /** Where each blob starts when the first one starts at `pos`, and where the last one ends. */
  function Offsets(pos: nat, blobs: seq<Bytes>): (r: seq<nat>)
    ensures |r| == |blobs| + 1 && r[0] == pos
    decreases |blobs|
  {
    if blobs == [] then [pos] else [pos] + Offsets(pos + |blobs[0]|, blobs[1..])
  }

  function Table(offsets: seq<nat>): (r: Bytes)
    ensures |r| == 8 * |offsets|
  {
    if offsets == [] then [] else LittleEndian(offsets[0], 8) + Table(offsets[1..])
  }

  function HeaderLength(count: nat): nat {
    8 * (1 + count)
  }

  /** The message as bytes, its channel named by these bytes; None where an offset does not fit 64 bits. */
  function PackBlobs(channel: Bytes, parts: seq<Bytes>): Option<Bytes> {
    var blobs := [channel] + parts;
    var count := |blobs| + 1;
    var offsets := Offsets(HeaderLength(count), blobs);
    if offsets[|blobs|] >= TWO_64 then None
    else Some(LittleEndian(count, 8) + Table(offsets) + Flatten(blobs))
  }

  function PackSpec(channel: string, parts: seq<Bytes>): Option<Bytes> {
    PackBlobs(Utf8(channel), parts)
  }

  method Pack(channel: string, parts: seq<Bytes>) returns (r: Option<Bytes>)
    ensures r == PackSpec(channel, parts)
  {
    var blobs := [Utf8(channel)] + parts;
    var count := |blobs| + 1;
    var offsets: seq<nat>, pos: nat := [], HeaderLength(count);
    ghost var all := Offsets(pos, blobs);
    assert blobs[0..] == blobs;
    for i := 0 to |blobs|
      invariant offsets + Offsets(pos, blobs[i..]) == all
    {
      offsets := offsets + [pos];
      assert blobs[i..][0] == blobs[i] && blobs[i..][1..] == blobs[i + 1..];
      pos := pos + |blobs[i]|;
    }
    offsets := offsets + [pos];
    assert offsets == all;
    if pos >= TWO_64 {
      return None;
    }
    var head := PutWords(LittleEndian(count, 8), offsets);
    var out := PutBlobs(head, blobs);
    r := Some(out);
  }

  method PutWords(start: Bytes, offsets: seq<nat>) returns (out: Bytes)
    ensures out == start + Table(offsets)
  {
    out := start;
    assert offsets[0..] == offsets;
    for i := 0 to |offsets|
      invariant out + Table(offsets[i..]) == start + Table(offsets)
    {
      assert offsets[i..][0] == offsets[i] && offsets[i..][1..] == offsets[i + 1..];
      out := out + LittleEndian(offsets[i], 8);
    }
  }

  method PutBlobs(start: Bytes, blobs: seq<Bytes>) returns (out: Bytes)
    ensures out == start + Flatten(blobs)
  {
    out := start;
    assert blobs[0..] == blobs;
    for i := 0 to |blobs|
      invariant out + Flatten(blobs[i..]) == start + Flatten(blobs)
    {
      assert blobs[i..][0] == blobs[i] && blobs[i..][1..] == blobs[i + 1..];
      out := out + blobs[i];
    }
  }

  function Word(data: Bytes, i: nat): nat
    requires 8 * (i + 1) <= |data|
  {
    FromLittleEndian(data[8 * i..8 * (i + 1)])
  }

  function ReadTable(data: Bytes, count: nat): (r: seq<nat>)
    requires HeaderLength(count) <= |data|
    ensures |r| == count && forall i :: 0 <= i < count ==> r[i] == Word(data, i + 1)
  {
    seq(count, i requires 0 <= i < count => Word(data, i + 1))
  }

  predicate IsSpan(offsets: seq<nat>, i: nat, low: nat, high: nat)
    requires i + 1 < |offsets|
  {
    low <= offsets[i] <= offsets[i + 1] <= high
  }

  /** Offsets are in range and in order. */
  predicate InRange(offsets: seq<nat>, low: nat, high: nat) {
    forall i :: 0 <= i < |offsets| - 1 ==> IsSpan(offsets, i, low, high)
  }

  function Blob(data: Bytes, offsets: seq<nat>, i: nat): Bytes
    requires i + 1 < |offsets| && IsSpan(offsets, i, 0, |data|)
  {
    data[offsets[i]..offsets[i + 1]]
  }

  function Cut(data: Bytes, offsets: seq<nat>): (r: seq<Bytes>)
    requires InRange(offsets, 0, |data|)
    ensures |r| == Max(0, |offsets| - 1)
    ensures forall i :: 0 <= i < |r| ==> IsSpan(offsets, i, 0, |data|) && r[i] == Blob(data, offsets, i)
  {
    var n := Max(0, |offsets| - 1);
    seq(n, i requires 0 <= i < n && IsSpan(offsets, i, 0, |data|) => Blob(data, offsets, i))
  }

  /** The pieces of a message; None is the ProtocolError. */
  function UnpackBlobs(data: Bytes): Option<(Bytes, seq<Bytes>)> {
    if |data| < 8 then None
    else
      var count := Word(data, 0);
      if count < 3 || |data| < HeaderLength(count) then None
      else
        var offsets := ReadTable(data, count);
        if !InRange(offsets, HeaderLength(count), |data|) then None
        else
          assert forall i :: 0 <= i < |offsets| - 1 ==> IsSpan(offsets, i, HeaderLength(count), |data|) ==>
              IsSpan(offsets, i, 0, |data|);
          var blobs := Cut(data, offsets);
          Some((blobs[0], blobs[1..]))
  }

  /** The channel's name is decoded, whatever its bytes are. */
  function UnpackSpec(data: Bytes): Option<(string, seq<Bytes>)> {
    match UnpackBlobs(data)
    case None => None
    case Some((channel, parts)) => Some((Decode(channel), parts))
  }

  method Unpack(data: Bytes) returns (r: Option<(string, seq<Bytes>)>)
    ensures r == UnpackSpec(data)
  {
    hide Word, Decode, ReadTable;
    if |data| < 8 {
      return None;
    }
    var count := Word(data, 0);
    var need := HeaderLength(count);
    if count < 3 || |data| < need {
      return None;
    }
    var offsets := ReadTable(data, count);
    var blobs := [];
    for i := 0 to count - 1
      invariant |blobs| == i
      invariant forall k :: 0 <= k < i ==> IsSpan(offsets, k, need, |data|) && IsSpan(offsets, k, 0, |data|)
      invariant forall k :: 0 <= k < i ==> blobs[k] == Blob(data, offsets, k)
    {
      var start, end := offsets[i], offsets[i + 1];
      if !(need <= start <= end <= |data|) {
        assert !IsSpan(offsets, i, need, |data|);
        return None;
      }
      blobs := blobs + [data[start..end]];
    }
    assert blobs == Cut(data, offsets);
    r := Some((Decode(blobs[0]), blobs[1..]));
  }

  // ---- the offsets and the blobs describe each other -----------------------------------

  lemma {:induction false} OffsetsNext(pos: nat, blobs: seq<Bytes>, i: nat)
    requires i < |blobs|
    ensures Offsets(pos, blobs)[i + 1] == Offsets(pos, blobs)[i] + |blobs[i]|
    decreases |blobs|
  {
    if i > 0 {
      OffsetsNext(pos + |blobs[0]|, blobs[1..], i - 1);
    }
  }

  lemma {:induction false} OffsetsEnd(pos: nat, blobs: seq<Bytes>)
    ensures Offsets(pos, blobs)[|blobs|] == pos + |Flatten(blobs)|
    decreases |blobs|
  {
    if blobs != [] {
      var tail := blobs[1..];
      OffsetsEnd(pos + |blobs[0]|, tail);
      assert Flatten(blobs) == blobs[0] + Flatten(tail);
      hide Flatten;
      assert Offsets(pos, blobs)[1 + |tail|] == Offsets(pos + |blobs[0]|, tail)[|tail|];
    }
  }

  /** Offsets are the only list that starts right and advances by the blob sizes. */
  lemma {:induction false} OffsetsUnique(pos: nat, blobs: seq<Bytes>, offsets: seq<nat>)
    requires |offsets| == |blobs| + 1 && offsets[0] == pos
    requires forall i :: 0 <= i < |blobs| ==> offsets[i + 1] == offsets[i] + |blobs[i]|
    ensures Offsets(pos, blobs) == offsets
    decreases |blobs|
  {
    if blobs != [] {
      OffsetsUnique(pos + |blobs[0]|, blobs[1..], offsets[1..]);
    }
  }

  lemma {:induction false} TableEntry(offsets: seq<nat>, i: nat)
    requires i < |offsets|
    ensures Table(offsets)[8 * i..8 * (i + 1)] == LittleEndian(offsets[i], 8)
  {
    var head, tail := LittleEndian(offsets[0], 8), Table(offsets[1..]);
    assert Table(offsets) == head + tail;
    hide LittleEndian, Table;
    if i == 0 {
      assert (head + tail)[0..8] == head;
    } else {
      TableEntry(offsets[1..], i - 1);
      BehindFirst(head, tail, 8 * (i - 1));
    }
  }

  lemma BehindFirst(head: Bytes, tail: Bytes, at: nat)
    requires |head| == 8 && at + 8 <= |tail|
    ensures (head + tail)[at + 8..at + 16] == tail[at..at + 8]
  {
  }

  /** Cutting at the offsets gives the blobs back. */
  lemma {:induction false} CutAtOffset(before: Bytes, blobs: seq<Bytes>, i: nat)
    requires i < |blobs|
    ensures
      var data, o := before + Flatten(blobs), Offsets(|before|, blobs);
      |before| <= o[i] <= o[i + 1] <= |data| && data[o[i]..o[i + 1]] == blobs[i]
    decreases |blobs|
  {
    var data := before + Flatten(blobs);
    if i > 0 {
      CutAtOffset(before + blobs[0], blobs[1..], i - 1);
      assert data == before + blobs[0] + Flatten(blobs[1..]);
    }
  }

  /** Consecutive blobs, put together, are the span from the first offset to the last. */
  lemma {:induction false} FlattenCut(data: Bytes, offsets: seq<nat>)
    requires |offsets| >= 1 && InRange(offsets, 0, |data|) && offsets[0] <= |data|
    ensures offsets[0] <= offsets[|offsets| - 1] <= |data|
    ensures Flatten(Cut(data, offsets)) == data[offsets[0]..offsets[|offsets| - 1]]
    decreases |offsets|
  {
    if |offsets| > 1 {
      assert IsSpan(offsets, 0, 0, |data|);
      forall i | 0 <= i < |offsets[1..]| - 1 ensures IsSpan(offsets[1..], i, 0, |data|) {
        assert IsSpan(offsets, i + 1, 0, |data|);
      }
      FlattenCut(data, offsets[1..]);
      assert Cut(data, offsets)[1..] == Cut(data, offsets[1..]);
      var last := offsets[|offsets| - 1];
      assert data[offsets[0]..last] == data[offsets[0]..offsets[1]] + data[offsets[1]..last];
    }
  }

  // ---- the theorems -----------------------------------------------------------------------

  lemma WordInside(first: Bytes, table: Bytes, rest: Bytes, i: nat)
    requires |first| == 8 && 8 * (i + 1) <= |table|
    ensures Word(first + table + rest, i + 1) == FromLittleEndian(table[8 * i..8 * (i + 1)])
  {
    hide FromLittleEndian;
    var data := first + table + rest;
    assert data[8 * (i + 1)..8 * (i + 2)] == table[8 * i..8 * (i + 1)];
  }

  /** An entry of a table is read back, whatever stands around the table. */
  lemma WordOfTable(first: Bytes, offsets: seq<nat>, rest: Bytes, i: nat)
    requires |first| == 8 && i < |offsets| && offsets[i] < TWO_64
    ensures Word(first + Table(offsets) + rest, i + 1) == offsets[i]
  {
    hide LittleEndian, Table, FromLittleEndian, Pow256, Word;
    WordInside(first, Table(offsets), rest, i);
    TableEntry(offsets, i);
    Pow256Values();
    LittleEndianRoundTrip(offsets[i], 8);
  }

  lemma PackedWords(channel: Bytes, parts: seq<Bytes>)
    requires PackBlobs(channel, parts).Some?
    ensures
      var blobs := [channel] + parts;
      var count := |blobs| + 1;
      var data := PackBlobs(channel, parts).value;
      && |data| == HeaderLength(count) + |Flatten(blobs)|
      && Word(data, 0) == count
      && ReadTable(data, count) == Offsets(HeaderLength(count), blobs)
      && data[..HeaderLength(count)] == LittleEndian(count, 8) + Table(Offsets(HeaderLength(count), blobs))
      && data[HeaderLength(count)..] == Flatten(blobs)
  {
    var blobs := [channel] + parts;
    var count := |blobs| + 1;
    var offsets := Offsets(HeaderLength(count), blobs);
    var data := PackBlobs(channel, parts).value;
    var first := LittleEndian(count, 8);
    Pow256Values();
    OffsetsEnd(HeaderLength(count), blobs);
    LittleEndianRoundTrip(count, 8);
    hide LittleEndian, Table, FromLittleEndian, Offsets, Flatten;
    assert data == first + Table(offsets) + Flatten(blobs);
    assert data[0..8] == first;
    forall i | 0 <= i < count ensures Word(data, i + 1) == offsets[i] {
      OffsetBound(HeaderLength(count), blobs, i);
      WordOfTable(first, offsets, Flatten(blobs), i);
    }
    assert ReadTable(data, count) == offsets;
  }

  lemma {:induction false} OffsetBound(pos: nat, blobs: seq<Bytes>, i: nat)
    requires i <= |blobs|
    ensures Offsets(pos, blobs)[i] <= Offsets(pos, blobs)[|blobs|]
    decreases |blobs| - i
  {
    if i < |blobs| {
      OffsetsNext(pos, blobs, i);
      OffsetBound(pos, blobs, i + 1);
    }
  }

  lemma {:induction false} OffsetsAt(pos: nat, blobs: seq<Bytes>, k: nat)
    requires k <= |blobs|
    ensures Offsets(pos, blobs)[k] == pos + |Flatten(blobs[..k])|
    decreases k
  {
    if k > 0 {
      OffsetsAt(pos, blobs, k - 1);
      OffsetsNext(pos, blobs, k - 1);
      assert blobs[..k] == blobs[..k - 1] + [blobs[k - 1]];
      FlattenSnoc(blobs[..k - 1], blobs[k - 1]);
    }
  }

  lemma {:induction false} TableByte(offsets: seq<nat>, k: nat, i: nat)
    requires k < |offsets| && i < 8
    ensures Table(offsets)[8 * k + i] == WeightedByte(offsets[k], i)
  {
    TableEntry(offsets, k);
    LittleEndianAt(offsets[k], 8, i);
    hide LittleEndian, Table;
    assert Table(offsets)[8 * k..8 * (k + 1)][i] == Table(offsets)[8 * k + i];
  }

  /** The number that the `j`-th word of a packed message holds: how many offsets there are, then where each
      blob starts and where the last one ends. */
  function WordOf(blobs: seq<Bytes>, j: nat): nat
    requires j <= |blobs| + 1
  {
    if j == 0 then |blobs| + 1 else 8 * (|blobs| + 2) + |Flatten(blobs[..j - 1])|
  }

  lemma BehindWord(first: Bytes, table: Bytes, k: nat)
    requires |first| == 8 && k < |table|
    ensures (first + table)[8 + k] == table[k]
  {
  }

  lemma HeadByte(count: nat, offsets: seq<nat>, j: nat, i: nat)
    requires j <= |offsets| && i < 8
    ensures (LittleEndian(count, 8) + Table(offsets))[8 * j + i]
         == WeightedByte(if j == 0 then count else offsets[j - 1], i)
  {
    hide Table, LittleEndian, WeightedByte;
    var first, table := LittleEndian(count, 8), Table(offsets);
    if j == 0 {
      LittleEndianAt(count, 8, i);
      assert (first + table)[i] == first[i];
    } else {
      var k := 8 * (j - 1) + i;
      TableByte(offsets, j - 1, i);
      BehindWord(first, table, k);
      assert 8 * j + i == 8 + k;
    }
  }

  lemma WordIs(blobs: seq<Bytes>, j: nat)
    requires j <= |blobs| + 1
    ensures WordOf(blobs, j) == if j == 0 then |blobs| + 1 else Offsets(8 * (|blobs| + 2), blobs)[j - 1]
  {
    hide Offsets, Flatten;
    if j > 0 {
      OffsetsAt(8 * (|blobs| + 2), blobs, j - 1);
    }
  }

  /** A packed message byte by byte: its words of eight bytes, lowest byte first, then the channel's name and
      the parts. */
  lemma PackBytes(channel: Bytes, parts: seq<Bytes>, j: nat, i: nat)
    requires PackBlobs(channel, parts).Some? && j <= |parts| + 2 && i < 8
    ensures
      var data, behind := PackBlobs(channel, parts).value, 8 * (|parts| + 3);
      && |data| >= behind && data[behind..] == channel + Flatten(parts)
      && data[8 * j + i] == WeightedByte(WordOf([channel] + parts, j), i)
  {
    var blobs := [channel] + parts;
    PackedWords(channel, parts);
    assert blobs[1..] == parts && Flatten(blobs) == channel + Flatten(parts);
    hide PackBlobs, Table, LittleEndian, Flatten, WeightedByte, Offsets, WordOf;
    HeadByte(|blobs| + 1, Offsets(8 * (|blobs| + 2), blobs), j, i);
    WordIs(blobs, j);
    var data := PackBlobs(channel, parts).value;
    assert data[8 * j + i] == data[..8 * (|parts| + 3)][8 * j + i];
  }

  lemma BlobsOfPacked(channel: Bytes, parts: seq<Bytes>)
    requires PackBlobs(channel, parts).Some?
    ensures UnpackBlobs(PackBlobs(channel, parts).value) == if parts == [] then None else Some((channel, parts))
  {
    var blobs := [channel] + parts;
    var count := |blobs| + 1;
    var data := PackBlobs(channel, parts).value;
    PackedWords(channel, parts);
    assert data == data[..HeaderLength(count)] + Flatten(blobs);
    CutAtOffsets(data[..HeaderLength(count)], blobs);
    assert blobs[1..] == parts;
    hide PackBlobs, Offsets, Cut, InRange, ReadTable;
  }

  /** Unpacking undoes packing, for every message with at least one part that can be packed;
      a message without parts is rejected. */
  lemma UnpackOfPack(channel: string, parts: seq<Bytes>)
    requires PackSpec(channel, parts).Some?
    ensures UnpackSpec(PackSpec(channel, parts).value) == if parts == [] then None else Some((channel, parts))
  {
    hide PackBlobs, UnpackBlobs;
    BlobsOfPacked(Utf8(channel), parts);
    DecodeOfUtf8(channel, []);
    assert Utf8(channel) + [] == Utf8(channel) && channel + "" == channel;
  }

  lemma CutAtOffsets(head: Bytes, blobs: seq<Bytes>)
    ensures
      var data, offsets := head + Flatten(blobs), Offsets(|head|, blobs);
      InRange(offsets, |head|, |data|) && InRange(offsets, 0, |data|) && Cut(data, offsets) == blobs
  {
    var data, offsets := head + Flatten(blobs), Offsets(|head|, blobs);
    forall i | 0 <= i < |blobs|
      ensures IsSpan(offsets, i, |head|, |data|) && IsSpan(offsets, i, 0, |data|) && Blob(data, offsets, i) == blobs[i]
    {
      CutAtOffset(head, blobs, i);
    }
    assert Cut(data, offsets) == blobs;
  }

  /** Whatever bytes come in, what is unpacked are contiguous pieces of them, behind the table. */
  lemma UnpackIsContiguous(data: Bytes)
    requires UnpackBlobs(data).Some?
    ensures
      var (channel, parts) := UnpackBlobs(data).value;
      var count := Word(data, 0);
      var offsets := ReadTable(data, count);
      && parts != [] && count == |parts| + 2
      && HeaderLength(count) <= offsets[0] <= offsets[count - 1] <= |data|
      && Flatten([channel] + parts) == data[offsets[0]..offsets[count - 1]]
  {
    var offsets := ReadTable(data, Word(data, 0));
    assert IsSpan(offsets, 0, HeaderLength(Word(data, 0)), |data|);
    FlattenCut(data, offsets);
    var blobs := Cut(data, offsets);
    assert [blobs[0]] + blobs[1..] == blobs;
  }

  lemma SplitAt(data: Bytes, n: nat)
    requires n <= |data|
    ensures data[..n] + data[n..] == data && data[n..|data|] == data[n..]
  {
  }

  lemma BlobsRestore(data: Bytes)
    requires UnpackBlobs(data).Some? && |data| < TWO_64
    ensures
      var (channel, parts) := UnpackBlobs(data).value;
      var count := Word(data, 0);
      var offsets := ReadTable(data, count);
      PackBlobs(channel, parts) == Some(data) <==> offsets[0] == HeaderLength(count) && offsets[count - 1] == |data|
  {
    var (channel, parts) := UnpackBlobs(data).value;
    var count := Word(data, 0);
    var offsets := ReadTable(data, count);
    var blobs := [channel] + parts;
    UnpackIsContiguous(data);
    OffsetsEnd(HeaderLength(count), blobs);
    if PackBlobs(channel, parts) == Some(data) {
      PackedWords(channel, parts);
    }
    if offsets[0] == HeaderLength(count) && offsets[count - 1] == |data| {
      BlobSizes(data, offsets, blobs);
      OffsetsUnique(HeaderLength(count), blobs, offsets);
      HeaderIsTable(data, count);
      assert PackBlobs(channel, parts) == Some(LittleEndian(count, 8) + Table(offsets) + Flatten(blobs));
      SplitAt(data, HeaderLength(count));
    }
  }

  /** Packing again gives the same bytes exactly when the pieces start right behind the table, end with the
      message, and the channel's name is UTF-8. */
  lemma RepackRestores(data: Bytes)
    requires UnpackSpec(data).Some? && |data| < TWO_64
    ensures
      var (channel, parts) := UnpackSpec(data).value;
      var count := Word(data, 0);
      var offsets := ReadTable(data, count);
      && offsets[0] <= offsets[1] <= |data|
      && (PackSpec(channel, parts) == Some(data) <==>
            offsets[0] == HeaderLength(count) && offsets[count - 1] == |data| && IsUtf8(data[offsets[0]..offsets[1]]))
  {
    var (raw, parts) := UnpackBlobs(data).value;
    var offsets := ReadTable(data, Word(data, 0));
    ChannelIsFirst(data);
    hide PackBlobs, UnpackBlobs;
    if PackSpec(Decode(raw), parts) == Some(data) {
      BlobsOfPacked(Utf8(Decode(raw)), parts);
    }
    BlobsRestore(data);
  }

  lemma ChannelIsFirst(data: Bytes)
    requires UnpackBlobs(data).Some?
    ensures
      var offsets := ReadTable(data, Word(data, 0));
      offsets[0] <= offsets[1] <= |data| && UnpackBlobs(data).value.0 == data[offsets[0]..offsets[1]]
  {
    var offsets := ReadTable(data, Word(data, 0));
    assert IsSpan(offsets, 0, HeaderLength(Word(data, 0)), |data|);
  }

  lemma BlobSizes(data: Bytes, offsets: seq<nat>, blobs: seq<Bytes>)
    requires |offsets| >= 1 && InRange(offsets, 0, |data|) && blobs == Cut(data, offsets)
    ensures forall i :: 0 <= i < |blobs| ==> offsets[i + 1] == offsets[i] + |blobs[i]|
  {
  }

  /** The table from entry `i` on is the encoding of what is read there. */
  lemma {:induction false} TableIsThere(data: Bytes, count: nat, i: nat)
    requires |data| >= HeaderLength(count) && i <= count
    ensures Table(ReadTable(data, count)[i..]) == data[8 * (i + 1)..8 * (count + 1)]
    decreases count - i
  {
    var offsets := ReadTable(data, count);
    if i < count {
      TableIsThere(data, count, i + 1);
      var word := data[8 * (i + 1)..8 * (i + 2)];
      FromLittleEndianRoundTrip(word);
      assert offsets[i..][0] == Word(data, i + 1) && offsets[i..][1..] == offsets[i + 1..];
      assert data[8 * (i + 1)..8 * (count + 1)] == word + data[8 * (i + 2)..8 * (count + 1)];
    }
  }

  /** The header of a message is the encoding of what is read from it. */
  lemma HeaderIsTable(data: Bytes, count: nat)
    requires |data| >= HeaderLength(count) && count == Word(data, 0)
    ensures data[..HeaderLength(count)] == LittleEndian(count, 8) + Table(ReadTable(data, count))
  {
    var offsets := ReadTable(data, count);
    FromLittleEndianRoundTrip(data[0..8]);
    TableIsThere(data, count, 0);
    hide Table, LittleEndian, ReadTable;
    assert offsets[0..] == offsets;
    assert data[..HeaderLength(count)] == data[0..8] + data[8..8 * (count + 1)];
  }
}

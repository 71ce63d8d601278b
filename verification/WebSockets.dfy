/** The websocket client: draining the socket, reassembling messages from frames,
    answering pings, stopping at a CLOSE. */
module WebSockets {
  import opened Basics
  import opened Frames
  import opened Words

  /** The message being reassembled. */
  datatype Assembly = Assembly(frag: Bytes, op: Option<nat>)

  const IDLE := Assembly([], None)

  /** What a run over received bytes yields: messages, ping payloads to echo, the bytes
      left over, the unfinished message, and whether a CLOSE was met. */
  datatype Outcome = Outcome(messages: seq<Bytes>, pings: seq<Bytes>, rest: Bytes, asm: Assembly, closed: bool)

  function Prepend(messages: seq<Bytes>, pings: seq<Bytes>, o: Outcome): Outcome {
    o.(messages := messages + o.messages, pings := pings + o.pings)
  }

  /** One frame that is not a CLOSE: its message, its ping, the assembly after it. */
  function Absorb(f: Frame, asm: Assembly): (seq<Bytes>, seq<Bytes>, Assembly) {
    if f.opcode == OP_PING then ([], [f.payload], asm)
    else if f.opcode == OP_PONG then ([], [], asm)
    else if f.opcode == OP_CONT then
      if f.fin then ([asm.frag + f.payload], [], IDLE)
      else ([], [], asm.(frag := asm.frag + f.payload))
    else if f.fin then ([f.payload], [], asm)
    else ([], [], Assembly(f.payload, Some(f.opcode)))
  }

  /** All complete frames of a buffer, up to a CLOSE. */
  function Drive(buf: Bytes, asm: Assembly): Outcome
    decreases |buf|
  {
    match ParseFrame(buf)
    case None => Outcome([], [], buf, asm, false)
    case Some((f, n)) =>
      if f.opcode == OP_CLOSE then Outcome([], [], buf[n..], asm, true)
      else
        var (messages, pings, next) := Absorb(f, asm);
        Prepend(messages, pings, Drive(buf[n..], next))
  }

  /** Bytes arriving in pieces, one read_messages call per piece, until a CLOSE. */
  function DriveAll(buf: Bytes, asm: Assembly, chunks: seq<Bytes>): Outcome
    decreases |chunks|
  {
    if chunks == [] then Outcome([], [], buf, asm, false)
    else
      var o := Drive(buf + chunks[0], asm);
      if o.closed then o else Prepend(o.messages, o.pings, DriveAll(o.rest, o.asm, chunks[1..]))
  }

  // ---- however the bytes are cut -------------------------------------------

  lemma DriveNext(buf: Bytes, asm: Assembly, f: Frame, n: nat)
    requires ParseFrame(buf) == Some((f, n))
    ensures f.opcode == OP_CLOSE ==> Drive(buf, asm) == Outcome([], [], buf[n..], asm, true)
    ensures f.opcode != OP_CLOSE ==>
              var (messages, pings, next) := Absorb(f, asm);
              Drive(buf, asm) == Prepend(messages, pings, Drive(buf[n..], next))
  {
  }

  lemma DriveStuck(buf: Bytes, asm: Assembly)
    requires ParseFrame(buf) == None
    ensures Drive(buf, asm) == Outcome([], [], buf, asm, false)
  {
  }

  lemma PrependNothing(o: Outcome)
    ensures Prepend([], [], o) == o
  {
  }

  lemma PrependLast(messages: seq<Bytes>, pings: seq<Bytes>, rest: Bytes, asm: Assembly, closed: bool)
    ensures Prepend(messages, pings, Outcome([], [], rest, asm, closed)) == Outcome(messages, pings, rest, asm, closed)
  {
    assert messages + [] == messages && pings + [] == pings;
  }

  lemma PrependTwice(m1: seq<Bytes>, p1: seq<Bytes>, m2: seq<Bytes>, p2: seq<Bytes>, o: Outcome)
    ensures Prepend(m1, p1, Prepend(m2, p2, o)) == Prepend(m1 + m2, p1 + p2, o)
  {
  }

  /** Reading on after more bytes have come is reading the longer buffer. */
  lemma {:induction false} DriveSplit(a: Bytes, b: Bytes, asm: Assembly)
    ensures
      var o := Drive(a, asm);
      Drive(a + b, asm) == if o.closed then o.(rest := o.rest + b)
                           else Prepend(o.messages, o.pings, Drive(o.rest + b, o.asm))
    decreases |a|
  {
    hide Absorb, Drive, ParseFrame;
    match ParseFrame(a) {
      case None =>
        DriveStuck(a, asm);
        PrependNothing(Drive(a + b, asm));
      case Some((f, n)) =>
        ParseIgnoresTail(a, b);
        assert (a + b)[n..] == a[n..] + b;
        DriveNext(a, asm, f, n);
        DriveNext(a + b, asm, f, n);
        if f.opcode != OP_CLOSE {
          var (messages, pings, next) := Absorb(f, asm);
          DriveSplit(a[n..], b, next);
          var inner := Drive(a[n..], next);
          PrependTwice(messages, pings, inner.messages, inner.pings, Drive(inner.rest + b, inner.asm));
        }
    }
  }

  /** The messages, the pings and the CLOSE do not depend on how the bytes are cut into
      reads; short of a CLOSE neither do the bytes left over and the unfinished message. */
  lemma {:induction false} CutsDoNotMatter(buf: Bytes, asm: Assembly, chunks: seq<Bytes>)
    requires ParseFrame(buf) == None
    ensures
      var cut, whole := DriveAll(buf, asm, chunks), Drive(buf + Flatten(chunks), asm);
      && cut.messages == whole.messages && cut.pings == whole.pings && cut.closed == whole.closed
      && (!cut.closed ==> cut == whole)
    decreases |chunks|
  {
    if chunks == [] {
      assert buf + Flatten(chunks) == buf;
    } else {
      var o := Drive(buf + chunks[0], asm);
      var later := Flatten(chunks[1..]);
      assert buf + Flatten(chunks) == buf + chunks[0] + later;
      DriveSplit(buf + chunks[0], later, asm);
      if !o.closed {
        RestIsIncomplete(buf + chunks[0], asm);
        CutsDoNotMatter(o.rest, o.asm, chunks[1..]);
      }
    }
  }

  lemma {:induction false} RestIsIncomplete(buf: Bytes, asm: Assembly)
    ensures !Drive(buf, asm).closed ==> ParseFrame(Drive(buf, asm).rest) == None
    decreases |buf|
  {
    match ParseFrame(buf) {
      case None =>
      case Some((f, n)) =>
        if f.opcode != OP_CLOSE {
          RestIsIncomplete(buf[n..], Absorb(f, asm).2);
        }
    }
  }

  // ---- what a peer sends ----------------------------------------------------

  datatype Control = Ping(payload: Bytes) | Pong(payload: Bytes)

  /** A piece of a message, with the control frames slipped in before it. */
  datatype Fragment = Fragment(before: seq<Control>, payload: Bytes)

  /** A data message in any number of fragments. */
  datatype Message = Message(opcode: nat, head: Fragment, tail: seq<Fragment>)

  /** Neither a continuation nor a control frame this client knows (section 5.2 of RFC 6455). */
  predicate DataOpcode(op: nat) {
    op < 16 && op != 0x0 && op != 0x8 && op != 0x9 && op != 0xA
  }

  function ControlFrames(cs: seq<Control>): seq<Frame> {
    if cs == [] then []
    else [Frame(true, if cs[0].Ping? then 0x9 else 0xA, cs[0].payload)] + ControlFrames(cs[1..])
  }

  function PingPayloads(cs: seq<Control>): seq<Bytes> {
    if cs == [] then []
    else (if cs[0].Ping? then [cs[0].payload] else []) + PingPayloads(cs[1..])
  }

  function TailFrames(tail: seq<Fragment>): seq<Frame> {
    if tail == [] then []
    else ControlFrames(tail[0].before) + [Frame(|tail| == 1, 0x0, tail[0].payload)] + TailFrames(tail[1..])
  }

  function TailContent(tail: seq<Fragment>): Bytes {
    if tail == [] then [] else tail[0].payload + TailContent(tail[1..])
  }

  function TailPings(tail: seq<Fragment>): seq<Bytes> {
    if tail == [] then [] else PingPayloads(tail[0].before) + TailPings(tail[1..])
  }

  function MessageFrames(m: Message): seq<Frame> {
    ControlFrames(m.head.before) + [Frame(m.tail == [], m.opcode, m.head.payload)] + TailFrames(m.tail)
  }

  function StreamFrames(ms: seq<Message>): seq<Frame> {
    if ms == [] then [] else MessageFrames(ms[0]) + StreamFrames(ms[1..])
  }

  function Contents(ms: seq<Message>): seq<Bytes> {
    if ms == [] then [] else [ms[0].head.payload + TailContent(ms[0].tail)] + Contents(ms[1..])
  }

  function StreamPings(ms: seq<Message>): seq<Bytes> {
    if ms == [] then [] else PingPayloads(ms[0].head.before) + TailPings(ms[0].tail) + StreamPings(ms[1..])
  }

  /** The frames of a run folded through the assembly; none of them is a CLOSE. */
  function AbsorbAll(fs: seq<Frame>, asm: Assembly): (seq<Bytes>, seq<Bytes>, Assembly) {
    if fs == [] then ([], [], asm)
    else
      var (m, p, next) := Absorb(fs[0], asm);
      var rest := AbsorbAll(fs[1..], next);
      (m + rest.0, p + rest.1, rest.2)
  }

  lemma {:induction false} AbsorbAppend(a: seq<Frame>, b: seq<Frame>, asm: Assembly)
    ensures
      var x := AbsorbAll(a, asm);
      var y := AbsorbAll(b, x.2);
      AbsorbAll(a + b, asm) == (x.0 + y.0, x.1 + y.1, y.2)
  {
    hide Absorb;
    if a == [] {
      assert a + b == b;
      var y := AbsorbAll(b, asm);
      assert [] + y.0 == y.0 && [] + y.1 == y.1;
    } else {
      assert (a + b)[1..] == a[1..] + b;
      var next := Absorb(a[0], asm).2;
      AbsorbAppend(a[1..], b, next);
      var x, y := AbsorbAll(a[1..], next), AbsorbAll(b, AbsorbAll(a[1..], next).2);
      assert Absorb(a[0], asm).0 + (x.0 + y.0) == Absorb(a[0], asm).0 + x.0 + y.0;
      assert Absorb(a[0], asm).1 + (x.1 + y.1) == Absorb(a[0], asm).1 + x.1 + y.1;
    }
  }

  lemma ControlAbsorbed(c: Control, asm: Assembly)
    ensures Absorb(Frame(true, if c.Ping? then OP_PING else OP_PONG, c.payload), asm)
        == ([], if c.Ping? then [c.payload] else [], asm)
  {
  }

  lemma {:induction false} ControlsAbsorbed(cs: seq<Control>, asm: Assembly)
    ensures AbsorbAll(ControlFrames(cs), asm) == ([], PingPayloads(cs), asm)
  {
    if cs != [] {
      var f := Frame(true, if cs[0].Ping? then OP_PING else OP_PONG, cs[0].payload);
      var fs, rest := ControlFrames(cs), ControlFrames(cs[1..]);
      ControlAbsorbed(cs[0], asm);
      ControlsAbsorbed(cs[1..], asm);
      hide Absorb;
      assert fs == [f] + rest && fs[0] == f && fs[1..] == rest;
      var all := AbsorbAll(fs, asm);
      assert all.0 == Absorb(f, asm).0 + AbsorbAll(rest, asm).0 == [];
      assert all.1 == Absorb(f, asm).1 + AbsorbAll(rest, asm).1 == PingPayloads(cs);
    }
  }

  lemma OneAbsorbed(cs: seq<Control>, f: Frame, asm: Assembly)
    ensures
      var x := Absorb(f, asm);
      AbsorbAll(ControlFrames(cs) + [f], asm) == (x.0, PingPayloads(cs) + x.1, x.2)
  {
    hide Absorb;
    ControlsAbsorbed(cs, asm);
    AbsorbAppend(ControlFrames(cs), [f], asm);
    var x := Absorb(f, asm);
    assert x.0 + [] == x.0 && x.1 + [] == x.1 && [] + x.0 == x.0;
    assert AbsorbAll([f], asm) == x;
  }

  lemma {:induction false} TailAbsorbed(tail: seq<Fragment>, asm: Assembly)
    requires tail != []
    ensures AbsorbAll(TailFrames(tail), asm) == ([asm.frag + TailContent(tail)], TailPings(tail), IDLE)
  {
    var f := Frame(|tail| == 1, OP_CONT, tail[0].payload);
    var front := ControlFrames(tail[0].before) + [f];
    OneAbsorbed(tail[0].before, f, asm);
    if |tail| == 1 {
      assert tail[1..] == [] && TailFrames(tail) == front + [] == front;
      assert TailContent(tail) == tail[0].payload + [] == tail[0].payload;
      assert PingPayloads(tail[0].before) + [] == PingPayloads(tail[0].before) == TailPings(tail);
    } else {
      var next := asm.(frag := asm.frag + tail[0].payload);
      TailAbsorbed(tail[1..], next);
      AbsorbAppend(front, TailFrames(tail[1..]), asm);
      assert next.frag + TailContent(tail[1..]) == asm.frag + TailContent(tail);
      var y := AbsorbAll(TailFrames(tail[1..]), next);
      assert [] + y.0 == y.0;
      assert Absorb(f, asm) == ([], [], next);
      assert PingPayloads(tail[0].before) + [] == PingPayloads(tail[0].before);
    }
  }

  lemma MessageAbsorbed(m: Message)
    requires DataOpcode(m.opcode)
    ensures AbsorbAll(MessageFrames(m), IDLE)
         == ([m.head.payload + TailContent(m.tail)], PingPayloads(m.head.before) + TailPings(m.tail), IDLE)
  {
    var f := Frame(m.tail == [], m.opcode, m.head.payload);
    OneAbsorbed(m.head.before, f, IDLE);
    var front := ControlFrames(m.head.before) + [f];
    if m.tail == [] {
      assert MessageFrames(m) == front + [] == front;
      assert m.head.payload + TailContent(m.tail) == m.head.payload;
    } else {
      TailAbsorbed(m.tail, Assembly(m.head.payload, Some(m.opcode)));
      AbsorbAppend(front, TailFrames(m.tail), IDLE);
      var y := AbsorbAll(TailFrames(m.tail), Assembly(m.head.payload, Some(m.opcode)));
      assert [] + y.0 == y.0;
      assert Absorb(f, IDLE) == ([], [], Assembly(m.head.payload, Some(m.opcode)));
      assert PingPayloads(m.head.before) + [] == PingPayloads(m.head.before);
    }
  }

  lemma {:induction false} StreamAbsorbed(ms: seq<Message>)
    requires forall i :: 0 <= i < |ms| ==> DataOpcode(ms[i].opcode)
    ensures AbsorbAll(StreamFrames(ms), IDLE) == (Contents(ms), StreamPings(ms), IDLE)
  {
    if ms != [] {
      MessageAbsorbed(ms[0]);
      StreamAbsorbed(ms[1..]);
      AbsorbAppend(MessageFrames(ms[0]), StreamFrames(ms[1..]), IDLE);
    }
  }

  // ---- frames as bytes --------------------------------------------------------

  /** `wire` is one complete frame, in whatever form its sender chose. */
  predicate Carries(wire: Bytes, f: Frame) {
    ParseFrame(wire) == Some((f, |wire|))
  }

  lemma {:induction false} DriveFrames(wires: seq<Bytes>, fs: seq<Frame>, asm: Assembly, after: Bytes)
    requires |wires| == |fs|
    requires forall i :: 0 <= i < |fs| ==> Carries(wires[i], fs[i]) && fs[i].opcode != OP_CLOSE
    ensures
      var x := AbsorbAll(fs, asm);
      Drive(Flatten(wires) + after, asm) == Prepend(x.0, x.1, Drive(after, x.2))
    decreases |fs|
  {
    hide Absorb, Drive, ParseFrame;
    if fs == [] {
      assert Flatten(wires) + after == after;
      PrependNothing(Drive(after, asm));
    } else {
      var buf := Flatten(wires) + after;
      var later := Flatten(wires[1..]) + after;
      assert buf == wires[0] + later;
      ParseIgnoresTail(wires[0], later);
      assert buf[|wires[0]|..] == later;
      DriveNext(buf, asm, fs[0], |wires[0]|);
      var (m, p, next) := Absorb(fs[0], asm);
      DriveFrames(wires[1..], fs[1..], next, after);
      var x := AbsorbAll(fs[1..], next);
      PrependTwice(m, p, x.0, x.1, Drive(after, x.2));
    }
  }

  lemma {:induction false} ControlsDoNotClose(cs: seq<Control>)
    ensures forall f :: f in ControlFrames(cs) ==> f.opcode != OP_CLOSE
  {
    if cs != [] {
      ControlsDoNotClose(cs[1..]);
    }
  }

  lemma {:induction false} TailDoesNotClose(tail: seq<Fragment>)
    ensures forall f :: f in TailFrames(tail) ==> f.opcode != OP_CLOSE
  {
    if tail != [] {
      ControlsDoNotClose(tail[0].before);
      TailDoesNotClose(tail[1..]);
    }
  }

  lemma {:induction false} StreamDoesNotClose(ms: seq<Message>)
    requires forall i :: 0 <= i < |ms| ==> DataOpcode(ms[i].opcode)
    ensures forall f :: f in StreamFrames(ms) ==> f.opcode != OP_CLOSE
  {
    if ms != [] {
      ControlsDoNotClose(ms[0].head.before);
      TailDoesNotClose(ms[0].tail);
      StreamDoesNotClose(ms[1..]);
    }
  }

  lemma NothingParses()
    ensures ParseFrame([]) == None
  {
  }

  /** A frame on the wire, in a form its sender chose: any reserved bits, masked under any key or not. */
  ghost predicate OnWire(wire: Bytes, f: Frame) {
    && f.opcode < 16 && |f.payload| < TWO_64
    && exists reserved: nat, key: Option<Bytes> :: InForm(wire, f, reserved, key)
  }

  predicate InForm(wire: Bytes, f: Frame, reserved: nat, key: Option<Bytes>)
    requires f.opcode < 16 && |f.payload| < TWO_64
  {
    reserved < 8 && (key.Some? ==> |key.value| == 4) && wire == WireFrame(f, reserved, key)
  }

  lemma WireCarries(wire: Bytes, f: Frame)
    requires OnWire(wire, f)
    ensures Carries(wire, f)
  {
    hide ParseFrame, WireFrame;
    var reserved: nat, key: Option<Bytes> :| InForm(wire, f, reserved, key);
    WireRoundTrip(f, reserved, key, []);
    assert wire + [] == wire;
  }

  /** What a peer puts on the wire: messages, fragmented anyhow, with pings and pongs slipped in between
      the fragments and after them, each frame in whatever form, then possibly a CLOSE and anything behind it. */
  ghost predicate Speaks(
    bytes: Bytes, ms: seq<Message>, after: seq<Control>, wires: seq<Bytes>, closing: Option<(Bytes, Frame)>,
    behind: Bytes)
  {
    && (forall i :: 0 <= i < |ms| ==> DataOpcode(ms[i].opcode))
    && (var fs := StreamFrames(ms) + ControlFrames(after);
        |wires| == |fs| && forall i :: 0 <= i < |fs| ==> OnWire(wires[i], fs[i]))
    && (closing.Some? ==> OnWire(closing.value.0, closing.value.1) && closing.value.1.opcode == 0x8)
    && bytes == Flatten(wires) + if closing.Some? then closing.value.0 + behind else []
  }

  /** Taken as one buffer, these bytes yield exactly those messages in order and exactly those pings in
      order, and reading stops exactly when there was a CLOSE. */
  lemma SpokenIsHeard(
    bytes: Bytes, ms: seq<Message>, after: seq<Control>, wires: seq<Bytes>, closing: Option<(Bytes, Frame)>,
    behind: Bytes)
    requires Speaks(bytes, ms, after, wires, closing, behind)
    ensures
      var o := Drive(bytes, IDLE);
      && o.messages == Contents(ms) && o.pings == StreamPings(ms) + PingPayloads(after)
      && o.closed == closing.Some? && (!o.closed ==> o.rest == [] && o.asm == IDLE)
  {
    hide OnWire, Drive, Absorb, AbsorbAll, ParseFrame, StreamFrames, ControlFrames, Contents, StreamPings, PingPayloads,
        Flatten;
    var fs := StreamFrames(ms) + ControlFrames(after);
    var last := if closing.Some? then closing.value.0 + behind else [];
    forall i | 0 <= i < |fs| ensures Carries(wires[i], fs[i]) {
      WireCarries(wires[i], fs[i]);
    }
    StreamDoesNotClose(ms);
    ControlsDoNotClose(after);
    StreamAbsorbed(ms);
    ControlsAbsorbed(after, IDLE);
    AbsorbAppend(StreamFrames(ms), ControlFrames(after), IDLE);
    DriveFrames(wires, fs, IDLE, last);
    NothingParses();
    if closing.Some? {
      WireCarries(closing.value.0, closing.value.1);
      ParseIgnoresTail(closing.value.0, behind);
      DriveNext(last, IDLE, closing.value.1, |closing.value.0|);
    } else {
      DriveStuck(last, IDLE);
    }
    assert Contents(ms) + [] == Contents(ms);
  }

  /** ... and so they do when they are cut into reads anyhow. */
  lemma Reassembly(
    ms: seq<Message>, after: seq<Control>, wires: seq<Bytes>, closing: Option<(Bytes, Frame)>, behind: Bytes,
    chunks: seq<Bytes>)
    requires Speaks(Flatten(chunks), ms, after, wires, closing, behind)
    ensures
      var o := DriveAll([], IDLE, chunks);
      && o.messages == Contents(ms) && o.pings == StreamPings(ms) + PingPayloads(after)
      && o.closed == closing.Some? && (!o.closed ==> o.rest == [] && o.asm == IDLE)
  {
    hide Speaks, Drive, DriveAll, ParseFrame, Contents, StreamPings, PingPayloads;
    SpokenIsHeard(Flatten(chunks), ms, after, wires, closing, behind);
    NothingParses();
    CutsDoNotMatter([], IDLE, chunks);
    assert [] + Flatten(chunks) == Flatten(chunks);
  }

  // ---- the connection ---------------------------------------------------------

  /** What one recv on the non-blocking socket yields. */
  datatype Event = Chunk(data: Bytes) | WouldBlock | Broken

  /** The bytes one drain takes from the pending events, the events it leaves, and whether
      it met the end of the stream. */
  function Drained(inbox: seq<Event>): (Bytes, seq<Event>, bool) {
    if inbox == [] then ([], [], false)
    else
      match inbox[0]
      case WouldBlock => ([], inbox[1..], false)
      case Broken => ([], inbox[1..], false)
      case Chunk(data) =>
        if data == [] then ([], inbox[1..], true)
        else
          var rest := Drained(inbox[1..]);
          (data + rest.0, rest.1, rest.2)
  }

  /** `got` has been drained already. */
  predicate HalfDrained(inbox0: seq<Event>, got: Bytes, inbox: seq<Event>) {
    var rest := Drained(inbox);
    Drained(inbox0) == (got + rest.0, rest.1, rest.2)
  }

  lemma DrainStart(inbox: seq<Event>)
    ensures HalfDrained(inbox, [], inbox)
  {
    assert [] + Drained(inbox).0 == Drained(inbox).0;
  }

  lemma DrainMore(inbox0: seq<Event>, got: Bytes, inbox: seq<Event>)
    requires HalfDrained(inbox0, got, inbox) && inbox != [] && inbox[0].Chunk? && inbox[0].data != []
    ensures HalfDrained(inbox0, got + inbox[0].data, inbox[1..])
  {
    Regroup(got, inbox[0].data, Drained(inbox[1..]).0);
  }

  lemma DrainStops(inbox0: seq<Event>, got: Bytes, inbox: seq<Event>)
    requires HalfDrained(inbox0, got, inbox) && (inbox != [] && inbox[0].Chunk? ==> inbox[0].data == [])
    ensures Drained(inbox0) == (got, if inbox == [] then [] else inbox[1..], inbox != [] && inbox[0].Chunk?)
  {
    assert got + [] == got;
  }

  class Socket {
    var inbox: seq<Event>
    var sent: seq<Bytes>
    /** How often sending failed. */
    ghost var failed: nat

    constructor (inbox: seq<Event>)
      ensures this.inbox == inbox && sent == [] && failed == 0
    {
      this.inbox, sent, failed := inbox, [], 0;
    }

    /** With nothing pending the call would block. */
    method Recv() returns (e: Event)
      modifies this`inbox
      ensures if old(inbox) == [] then e == WouldBlock && inbox == []
              else e == old(inbox)[0] && inbox == old(inbox)[1..]
    {
      if inbox == [] {
        e := WouldBlock;
      } else {
        e := inbox[0];
        inbox := inbox[1..];
      }
    }

    /** Sending may fail at any time. */
    method SendAll(data: Bytes) returns (ok: bool)
      modifies this`sent, this`failed
      ensures sent == if ok then old(sent) + [data] else old(sent)
      ensures failed == old(failed) + if ok then 0 else 1
    {
      ok := *;
      if ok {
        sent := sent + [data];
      } else {
        failed := failed + 1;
      }
    }
  }

  /** os.urandom(4). */
  method RandomKey() returns (key: Bytes)
    ensures |key| == 4
  {
    var a: Byte, b: Byte, c: Byte, d: Byte := *, *, *, *;
    key := [a, b, c, d];
  }

  /** A frame as a client sends it: final, without reserved bits, masked under some key (section 5.3 of RFC 6455). */
  ghost predicate ClientSends(wire: Bytes, opcode: nat, payload: Bytes) {
    opcode < 16 && |payload| < TWO_64 && exists key: Bytes :: InForm(wire, Frame(true, opcode, payload), 0, Some(key))
  }

  /** The replies a run of frames calls for: a PONG per ping with its payload, then a CLOSE. */
  ghost predicate Answers(wires: seq<Bytes>, pings: seq<Bytes>, closed: bool) {
    && |wires| == |pings| + (if closed then 1 else 0)
    && (forall i :: 0 <= i < |pings| ==> ClientSends(wires[i], 0xA, pings[i]))
    && (closed ==> ClientSends(wires[|pings|], 0x8, []))
  }

  /** All payloads fit the length field. */
  ghost predicate Sendable(buf: Bytes) {
    |buf| < TWO_64
  }

  class WebSocket {
    const sock: Socket
    var buf: Bytes
    var frag: Bytes
    var fragOp: Option<nat>
    var closed: bool
    /** Every reply frame handed to the socket, whether or not sending it worked. */
    ghost var replies: seq<Bytes>
    /** Every byte received so far. */
    ghost var received: Bytes

    /** `rest` is what came in behind the handshake. */
    constructor (sock: Socket, rest: Bytes)
      ensures this.sock == sock && buf == received == rest && Asm() == IDLE && !closed && replies == []
    {
      this.sock := sock;
      buf, frag, fragOp, closed := rest, [], None, false;
      replies, received := [], rest;
    }

    function Asm(): Assembly
      reads this
    {
      Assembly(frag, fragOp)
    }

    method SendControl(opcode: nat, payload: Bytes) returns (ok: bool)
      requires opcode < 16 && |payload| < TWO_64
      modifies this`closed, this`replies, sock`sent, sock`failed
      ensures sock.failed == old(sock.failed) + if ok then 0 else 1
      ensures |replies| == |old(replies)| + 1 && replies[..|old(replies)|] == old(replies)
      ensures ClientSends(replies[|old(replies)|], opcode, payload)
      ensures closed == (old(closed) || !ok)
      ensures sock.sent == if ok then old(sock.sent) + [replies[|old(replies)|]] else old(sock.sent)
    {
      var key := RandomKey();
      ClientFrame(opcode, payload, key);
      var wire := EncodeFrame(opcode, payload, key).value;
      assert InForm(wire, Frame(true, opcode, payload), 0, Some(key));
      replies := replies + [wire];
      ok := sock.SendAll(wire);
      if !ok {
        closed := true;
      }
    }

    /** Pulls every byte currently readable into the buffer. */
    method Drain()
      modifies this`buf, this`closed, this`received, sock`inbox
      ensures
        var d := Drained(old(sock.inbox));
        && buf == old(buf) + d.0 && received == old(received) + d.0 && sock.inbox == d.1
        && closed == (old(closed) || d.2)
    {
      hide Drained, HalfDrained;
      ghost var got: Bytes := [];
      DrainStart(sock.inbox);
      while true
        invariant buf == old(buf) + got && received == old(received) + got && closed == old(closed)
        invariant HalfDrained(old(sock.inbox), got, sock.inbox)
        decreases |sock.inbox|
      {
        ghost var pending := sock.inbox;
        var e := sock.Recv();
        if !(e.Chunk? && e.data != []) {
          DrainStops(old(sock.inbox), got, pending);
          // the end of the stream; otherwise nothing more to be had now
          if e.Chunk? {
            closed := true;
          }
          break;
        }
        DrainMore(old(sock.inbox), got, pending);
        Regroup(old(buf), got, e.data);
        Regroup(old(received), got, e.data);
        buf := buf + e.data;
        received := received + e.data;
        got := got + e.data;
      }
    }

    /** Drains the socket and returns the complete messages, answering pings and a CLOSE.
        `failures` counts the replies the socket refused to send. */
    method ReadMessages() returns (messages: seq<Bytes>, ghost failures: nat)
      requires Sendable(buf + Drained(sock.inbox).0)
      modifies this, sock
      ensures
        var d := Drained(old(sock.inbox));
        var o := Drive(old(buf) + d.0, old(Asm()));
        && received == old(received) + d.0 && sock.inbox == d.1
        && messages == o.messages && buf == o.rest && Asm() == o.asm
        && closed == (old(closed) || d.2 || o.closed || failures > 0)
        && |replies| >= |old(replies)| && replies[..|old(replies)|] == old(replies)
        && Answers(replies[|old(replies)|..], o.pings, o.closed)
        && sock.failed == old(sock.failed) + failures
        && (failures == 0 ==> sock.sent == old(sock.sent) + replies[|old(replies)|..])
    {
      hide Drive, ParseFrame, Absorb, Answers, Drained, Prepend;
      Drain();
      messages, failures := [], 0;
      ghost var whole, pings, n0, closed0 := Drive(buf, Asm()), [], |replies|, closed;
      PrependNothing(whole);
      NoAnswersYet();
      assert replies[n0..] == [];
      while true
        invariant whole == Prepend(messages, pings, Drive(buf, Asm()))
        invariant Sendable(buf)
        invariant n0 <= |replies| && replies[..n0] == old(replies) && Answers(replies[n0..], pings, false)
        invariant closed == (closed0 || failures > 0) && sock.failed == old(sock.failed) + failures
        invariant failures == 0 ==> sock.sent == old(sock.sent) + replies[n0..]
        invariant sock.inbox == Drained(old(sock.inbox)).1 && received == old(received) + Drained(old(sock.inbox)).0
        decreases |buf|
      {
        var parsed := ParseFrame(buf);
        if parsed == None {
          DriveStuck(buf, Asm());
          PrependLast(messages, pings, buf, Asm(), false);
          break;
        }
        var (f, n) := parsed.value;
        DriveNext(buf, Asm(), f, n);
        if f.opcode == OP_CLOSE {
          buf := buf[n..];
          closed := true;
          ghost var before := replies;
          var ok := SendControl(OP_CLOSE, []);
          failures := failures + if ok then 0 else 1;
          CloseReply(before, replies, n0, pings);
          PrependLast(messages, pings, buf, Asm(), true);
          break;
        }
        ghost var step := Absorb(f, Asm());
        PrependTwice(messages, pings, step.0, step.1, Drive(buf[n..], step.2));
        buf := buf[n..];
        ghost var before := replies;
        var delivered, refused := Handle(f);
        RepliesGrow(before, replies, n0, pings, step.1);
        messages, pings, failures := messages + delivered, pings + step.1, failures + refused;
      }
    }

    /** One frame that is not a CLOSE. */
    method Handle(f: Frame) returns (messages: seq<Bytes>, ghost refused: nat)
      requires f.opcode != OP_CLOSE && f.opcode < 16 && |f.payload| < TWO_64
      modifies this`frag, this`fragOp, this`closed, this`replies, sock`sent, sock`failed
      ensures sock.failed == old(sock.failed) + refused
      ensures (messages, Asm()) == (Absorb(f, old(Asm())).0, Absorb(f, old(Asm())).2)
      ensures |replies| >= |old(replies)| && replies[..|old(replies)|] == old(replies)
      ensures Answers(replies[|old(replies)|..], Absorb(f, old(Asm())).1, false)
      ensures closed == (old(closed) || refused > 0)
      ensures refused == 0 ==> sock.sent == old(sock.sent) + replies[|old(replies)|..]
    {
      messages, refused := [], 0;
      if f.opcode == OP_PING {
        var ok := SendControl(OP_PONG, f.payload);
        refused := if ok then 0 else 1;
        assert replies[|old(replies)|..] == [replies[|old(replies)|]];
      } else if f.opcode == OP_PONG {
      } else if f.opcode == OP_CONT {
        frag := frag + f.payload;
        if f.fin {
          messages := [frag];
          frag, fragOp := [], None;
        }
      } else if f.fin {
        messages := [f.payload];
      } else {
        fragOp, frag := Some(f.opcode), f.payload;
      }
    }
  }

  lemma NoAnswersYet()
    ensures Answers([], [], false)
  {
  }

  lemma RepliesGrow(before: seq<Bytes>, after: seq<Bytes>, n0: nat, p1: seq<Bytes>, p2: seq<Bytes>)
    requires n0 <= |before| <= |after| && after[..|before|] == before
    requires Answers(before[n0..], p1, false) && Answers(after[|before|..], p2, false)
    ensures after[n0..] == before[n0..] + after[|before|..]
    ensures after[..n0] == before[..n0]
    ensures Answers(after[n0..], p1 + p2, false)
  {
  }

  lemma CloseReply(before: seq<Bytes>, after: seq<Bytes>, n0: nat, pings: seq<Bytes>)
    requires n0 <= |before| && |after| == |before| + 1 && after[..|before|] == before
    requires Answers(before[n0..], pings, false) && ClientSends(after[|before|], 0x8, [])
    ensures after[n0..] == before[n0..] + [after[|before|]]
    ensures after[..n0] == before[..n0]
    ensures Answers(after[n0..], pings, true)
  {
  }

  // ---- a whole session ----------------------------------------------------------

  /** Every byte of these events. */
  function AllBytes(inbox: seq<Event>): Bytes {
    if inbox == [] then []
    else (match inbox[0] case Chunk(data) => data case _ => []) + AllBytes(inbox[1..])
  }

  lemma {:induction false} AllBytesAppend(a: seq<Event>, b: seq<Event>)
    ensures AllBytes(a + b) == AllBytes(a) + AllBytes(b)
  {
    if a == [] {
      assert a + b == b;
    } else {
      assert (a + b)[1..] == a[1..] + b;
      AllBytesAppend(a[1..], b);
    }
  }

  /** The last of these events is the end of the stream. */
  predicate Ended(events: seq<Event>) {
    events != [] && events[|events| - 1] == Chunk([])
  }

  /** The events that one drain takes. */
  lemma {:induction false} DrainedEvents(inbox: seq<Event>) returns (taken: seq<Event>)
    ensures
      var d := Drained(inbox);
      && inbox == taken + d.1 && d.0 == AllBytes(taken) && d.2 == Ended(taken)
      && (inbox != [] ==> taken != [])
  {
    if inbox == [] {
      taken := [];
    } else if inbox[0].Chunk? && inbox[0].data != [] {
      var later := DrainedEvents(inbox[1..]);
      taken := [inbox[0]] + later;
      assert taken[1..] == later && inbox == [inbox[0]] + inbox[1..];
    } else {
      taken := [inbox[0]];
      assert taken[1..] == [];
    }
  }

  /** What has been delivered and echoed is what the received bytes call for, up to what the buffer holds. */
  ghost predicate SoFar(
    received: Bytes, messages: seq<Bytes>, pings: seq<Bytes>, sawClose: bool, buf: Bytes, asm: Assembly)
  {
    var o := Drive(received, IDLE);
    if sawClose then o.closed && o.messages == messages && o.pings == pings
    else o == Prepend(messages, pings, Drive(buf, asm))
  }

  lemma NothingSoFar(received: Bytes)
    ensures SoFar(received, [], [], false, received, IDLE)
  {
    PrependNothing(Drive(received, IDLE));
  }

  lemma FurtherSoFar(received: Bytes, messages: seq<Bytes>, pings: seq<Bytes>, buf: Bytes, asm: Assembly, more: Bytes)
    requires SoFar(received, messages, pings, false, buf, asm)
    ensures
      var o := Drive(buf + more, asm);
      SoFar(received + more, messages + o.messages, pings + o.pings, o.closed, o.rest, o.asm)
    ensures !Drive(buf + more, asm).closed ==> ParseFrame(Drive(buf + more, asm).rest) == None
  {
    hide Drive, ParseFrame;
    var o, b := Drive(buf + more, asm), Drive(buf, asm);
    DriveSplit(received, more, IDLE);
    DriveSplit(buf, more, asm);
    if !b.closed {
      PrependTwice(messages, pings, b.messages, b.pings, Drive(b.rest + more, b.asm));
    }
    assert Drive(received + more, IDLE) == Prepend(messages, pings, o);
    if !o.closed {
      RestIsIncomplete(buf + more, asm);
      DriveStuck(o.rest, o.asm);
      PrependTwice(messages, pings, o.messages, o.pings, Drive(o.rest, o.asm));
      assert o.messages + [] == o.messages && o.pings + [] == o.pings;
    }
  }

  lemma AllSoFar(received: Bytes, messages: seq<Bytes>, pings: seq<Bytes>, sawClose: bool, buf: Bytes, asm: Assembly)
    requires SoFar(received, messages, pings, sawClose, buf, asm) && (sawClose || ParseFrame(buf) == None)
    ensures
      var o := Drive(received, IDLE);
      o.messages == messages && o.pings == pings && o.closed == sawClose
  {
    hide Drive, ParseFrame;
    if !sawClose {
      DriveStuck(buf, asm);
      assert messages + [] == messages && pings + [] == pings;
    }
  }

  /** Reading again and again until the connection is closed or nothing is pending. `taken` are the events
      received by then; what has been delivered and answered over all the calls is what their bytes, taken
      as one buffer, call for; and reading stops early only at a CLOSE, at the end of the stream, or after
      the socket refused a reply. */
  method ReadAll(ws: WebSocket) returns (messages: seq<Bytes>, ghost taken: seq<Event>, ghost failures: nat)
    requires !ws.closed && ws.buf == ws.received && ws.Asm() == IDLE && ws.replies == []
    requires |ws.received| + |AllBytes(ws.sock.inbox)| < TWO_64
    modifies ws, ws.sock
    ensures old(ws.sock.inbox) == taken + ws.sock.inbox && ws.received == old(ws.received) + AllBytes(taken)
    ensures
      var o := Drive(ws.received, IDLE);
      && messages == o.messages && Answers(ws.replies, o.pings, o.closed)
      && ws.closed == (o.closed || Ended(taken) || failures > 0)
    ensures ws.closed || ws.sock.inbox == []
    ensures ws.sock.failed == old(ws.sock.failed) + failures
    ensures failures == 0 ==> ws.sock.sent == old(ws.sock.sent) + ws.replies
  {
    hide Drive, Answers, Drained, SoFar, ParseFrame, AllBytes;
    messages, taken, failures := [], [], 0;
    ghost var pings: seq<Bytes>, sawClose := [], false;
    NothingSoFar(ws.received);
    NoAnswersYet();
    NoBytes(ws.received);
    assert ws.sock.sent + [] == ws.sock.sent;
    var started := false;
    while !started || (!ws.closed && ws.sock.inbox != [])
      invariant SoFar(ws.received, messages, pings, sawClose, ws.buf, ws.Asm()) && Answers(ws.replies, pings, sawClose)
      invariant old(ws.sock.inbox) == taken + ws.sock.inbox && ws.received == old(ws.received) + AllBytes(taken)
      invariant |ws.buf| <= |ws.received| && (started ==> sawClose || ParseFrame(ws.buf) == None)
      invariant ws.closed == (sawClose || Ended(taken) || failures > 0) && (!started ==> !ws.closed)
      invariant ws.sock.failed == old(ws.sock.failed) + failures
      invariant failures == 0 ==> ws.sock.sent == old(ws.sock.sent) + ws.replies
      decreases |ws.sock.inbox| + if started then 0 else 1
    {
      ghost var more := DrainedEvents(ws.sock.inbox);
      ghost var before, d, o := ws.replies, Drained(ws.sock.inbox), Drive(ws.buf + Drained(ws.sock.inbox).0, ws.Asm());
      Regroup(taken, more, d.1);
      AllBytesAppend(taken, more);
      AllBytesAppend(taken + more, d.1);
      Regroup(old(ws.received), AllBytes(taken), d.0);
      FurtherSoFar(ws.received, messages, pings, ws.buf, ws.Asm(), d.0);
      RestIsShorter(ws.buf + d.0, ws.Asm());
      var delivered, refused := ws.ReadMessages();
      AnswersGrow(before, ws.replies, pings, o.pings, o.closed);
      EndedLast(taken, more);
      Regroup(old(ws.sock.sent), before, ws.replies[|before|..]);
      messages, pings, sawClose := messages + delivered, pings + o.pings, o.closed;
      taken, failures, started := taken + more, failures + refused, true;
    }
    AllSoFar(ws.received, messages, pings, sawClose, ws.buf, ws.Asm());
  }

  lemma NoBytes(received: Bytes)
    ensures received + AllBytes([]) == received
  {
  }

  lemma EndedLast(taken: seq<Event>, more: seq<Event>)
    ensures Ended(taken + more) == if more == [] then Ended(taken) else Ended(more)
  {
    if more == [] {
      assert taken + more == taken;
    }
  }

  lemma {:induction false} RestIsShorter(buf: Bytes, asm: Assembly)
    ensures |Drive(buf, asm).rest| <= |buf|
    decreases |buf|
  {
    match ParseFrame(buf) {
      case None =>
      case Some((f, n)) =>
        if f.opcode != OP_CLOSE {
          RestIsShorter(buf[n..], Absorb(f, asm).2);
        }
    }
  }

  lemma AnswersGrow(before: seq<Bytes>, after: seq<Bytes>, p1: seq<Bytes>, p2: seq<Bytes>, closed: bool)
    requires |before| <= |after| && after[..|before|] == before
    requires Answers(before, p1, false) && Answers(after[|before|..], p2, closed)
    ensures Answers(after, p1 + p2, closed)
  {
  }

  /** The whole of it, end to end: a peer says what it has to say, its bytes come in behind the handshake and
      in any number of events, the end of the stream at most last. Unless the socket refuses a reply, exactly
      its messages are delivered in order, exactly its pings are answered in order, and its CLOSE if there is
      one; after a refusal what was delivered is still the beginning of that. */
  method Converse(
    ws: WebSocket, ghost ms: seq<Message>, ghost after: seq<Control>, ghost wires: seq<Bytes>,
    ghost closing: Option<(Bytes, Frame)>, ghost behind: Bytes)
    returns (messages: seq<Bytes>, ghost failures: nat)
    requires !ws.closed && ws.buf == ws.received && ws.Asm() == IDLE && ws.replies == []
    requires Speaks(ws.received + AllBytes(ws.sock.inbox), ms, after, wires, closing, behind)
    requires |ws.received + AllBytes(ws.sock.inbox)| < TWO_64
    requires forall i :: 0 <= i < |ws.sock.inbox| - 1 ==> ws.sock.inbox[i] != Chunk([])
    modifies ws, ws.sock
    ensures messages <= Contents(ms) && ws.sock.failed == old(ws.sock.failed) + failures
    ensures failures == 0 ==>
              && messages == Contents(ms)
              && Answers(ws.replies, StreamPings(ms) + PingPayloads(after), closing.Some?)
              && ws.sock.sent == old(ws.sock.sent) + ws.replies
              && ws.closed == (closing.Some? || Ended(old(ws.sock.inbox)))
  {
    hide Drive, Answers, Speaks, Contents, StreamPings, PingPayloads, AllBytes;
    ghost var bytes, inbox := ws.received + AllBytes(ws.sock.inbox), ws.sock.inbox;
    SpokenIsHeard(bytes, ms, after, wires, closing, behind);
    ghost var taken;
    messages, taken, failures := ReadAll(ws);
    ghost var rest := AllBytes(ws.sock.inbox);
    AllBytesAppend(taken, ws.sock.inbox);
    Regroup(old(ws.received), AllBytes(taken), rest);
    DriveSplit(ws.received, rest, IDLE);
    if ws.sock.inbox == [] {
      assert taken == inbox;
      NoBytes(ws.received);
    } else {
      NotEndedYet(inbox, taken, ws.sock.inbox);
    }
  }

  lemma NotEndedYet(inbox: seq<Event>, taken: seq<Event>, rest: seq<Event>)
    requires inbox == taken + rest && rest != [] && forall i :: 0 <= i < |inbox| - 1 ==> inbox[i] != Chunk([])
    ensures !Ended(taken)
  {
    assert taken != [] ==> inbox[|taken| - 1] == taken[|taken| - 1];
  }
}

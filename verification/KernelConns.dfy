/** Request and reply over a kernel socket that may answer late, twice, garbled or never,
    and may drop at any time. */
module KernelConns {
  import opened Basics
  import opened KernelFraming
  import opened LiveSessions

  /** How a call ends: with a reply, or by raising RpcTimeout, ConnectionLost, or the error of
      a reply that cannot be read. */
  datatype CallResult = Answered(reply: Reply) | TimedOut | Lost | Unreadable

  datatype AttemptResult = Got(reply: Reply) | Silent | SocketFailed | Raised

  // ---- what the sockets were asked -------------------------------------------------------

  /** The ids of all requests, over one socket after the other. */
  ghost function AllSent(channels: seq<Channel>): seq<int>
    reads channels
  {
    if channels == [] then [] else AllSent(channels[..|channels| - 1]) + channels[|channels| - 1].sent
  }

  lemma LastSent(channels: seq<Channel>)
    requires channels != [] && Distinct(channels)
    ensures AllSent(channels) == AllSent(channels[..|channels| - 1]) + channels[|channels| - 1].sent
    ensures channels[|channels| - 1] !in channels[..|channels| - 1]
  {
  }

  /** The ids of a log of requests never go down. */
  ghost predicate Ordered(log: seq<int>, rid: nat) {
    && (forall i :: 0 <= i < |log| ==> 1 <= log[i] <= rid)
    && (forall i, j :: 0 <= i < j < |log| ==> log[i] <= log[j])
  }

  /** How often a request went out under this id. */
  ghost function TimesSent(log: seq<int>, id: int): nat {
    if log == [] then 0 else TimesSent(log[..|log| - 1], id) + if log[|log| - 1] == id then 1 else 0
  }

  ghost predicate WithinBudget(log: seq<int>, budget: nat) {
    forall id: int :: TimesSent(log, id) <= budget
  }

  ghost predicate Distinct(channels: seq<Channel>) {
    forall i, j :: 0 <= i < j < |channels| ==> channels[i] != channels[j]
  }

  /** Sockets on which this id was sent once, and nothing else. */
  ghost predicate OneEach(channels: seq<Channel>, id: int)
    reads channels
  {
    forall i :: 0 <= i < |channels| ==> channels[i].sent == [id]
  }

  lemma {:induction false} UnusedId(log: seq<int>, rid: nat, id: int)
    requires Ordered(log, rid) && id > rid
    ensures TimesSent(log, id) == 0
  {
    if log != [] {
      UnusedId(log[..|log| - 1], rid, id);
    }
  }

  lemma {:induction false} CallIsCounted(before: seq<int>, more: seq<int>, rid: nat, budget: nat)
    requires Ordered(before, rid) && WithinBudget(before, budget)
    requires |more| <= budget && forall i :: 0 <= i < |more| ==> more[i] == rid + 1
    ensures Ordered(before + more, rid + 1)
    ensures forall id: int :: TimesSent(before + more, id) == if id == rid + 1 then |more| else TimesSent(before, id)
    ensures WithinBudget(before + more, budget)
  {
    if more == [] {
      assert before + more == before;
      UnusedId(before, rid, rid + 1);
    } else {
      var shorter := more[..|more| - 1];
      CallIsCounted(before, shorter, rid, budget);
      assert (before + more)[..|before + more| - 1] == before + shorter;
    }
  }

  /** What further sockets add, each asked once, is as many times that id. */
  lemma {:induction false} SentOnEach(channels: seq<Channel>, added: seq<Channel>, id: int) returns (more: seq<int>)
    requires OneEach(added, id)
    ensures AllSent(channels + added) == AllSent(channels) + more
    ensures |more| == |added| && forall i :: 0 <= i < |more| ==> more[i] == id
  {
    if added == [] {
      assert channels + added == channels;
      more := [];
    } else {
      var shorter, last := added[..|added| - 1], added[|added| - 1];
      more := SentOnEach(channels, shorter, id);
      assert (channels + added)[..|channels + added| - 1] == channels + shorter;
      assert last.sent == [id];
      Regroup(AllSent(channels), more, [id]);
      more := more + [id];
    }
  }

  /** A further call: its id on the present socket and on each new one. */
  lemma LogGrows(front: seq<Channel>, ws: Channel, sent: seq<int>, added: seq<Channel>, rid: nat, budget: nat)
    requires Ordered(AllSent(front) + sent, rid) && WithinBudget(AllSent(front) + sent, budget)
    requires ws.sent == sent + [rid + 1] && OneEach(added, rid + 1) && 1 + |added| <= budget
    ensures Ordered(AllSent(front + [ws] + added), rid + 1) && WithinBudget(AllSent(front + [ws] + added), budget)
  {
    hide Ordered, WithinBudget, OneEach;
    assert (front + [ws])[..|front|] == front;
    Regroup(AllSent(front), sent, [rid + 1]);
    var more := SentOnEach(front + [ws], added, rid + 1);
    Regroup(AllSent(front) + sent, [rid + 1], more);
    CallIsCounted(AllSent(front) + sent, [rid + 1] + more, rid, budget);
  }

  // ---- what a message says -----------------------------------------------------------

  /** Its content is no object, or its reply id is no integer: reading it raises. */
  predicate Poison(raw: Bytes, decode: Bytes -> Json) {
    match UnpackSpec(raw)
    case None => false
    case Some((_, parts)) => |parts| >= 4 && (decode(parts[3]).NotObject? || decode(parts[3]).BadRid?)
  }

  /** Of a message as a kernel sends it, it is the content that raises. */
  lemma PoisonIsRead(
    channel: string, header: Bytes, parent: Bytes, metadata: Bytes, content: Bytes, buffers: seq<Bytes>,
    decode: Bytes -> Json)
    requires PackSpec(channel, [header, parent, metadata, content] + buffers).Some?
    ensures Poison(PackSpec(channel, [header, parent, metadata, content] + buffers).value, decode)
            <==> decode(content).NotObject? || decode(content).BadRid?
  {
    hide PackSpec, UnpackSpec;
    UnpackOfPack(channel, [header, parent, metadata, content] + buffers);
  }

  /** The last reply to `id` among the messages. */
  function LastReply(heard: seq<Bytes>, decode: Bytes -> Json, id: int): Option<Reply> {
    if heard == [] then None
    else
      match ReplyOf(heard[|heard| - 1], decode)
      case Some((k, reply)) => if k == id then Some(reply) else LastReply(heard[..|heard| - 1], decode, id)
      case None => LastReply(heard[..|heard| - 1], decode, id)
  }

  function Newest(heard: seq<Bytes>, decode: Bytes -> Json, id: int, before: Option<Reply>): Option<Reply> {
    var last := LastReply(heard, decode, id);
    if last.Some? then last else before
  }

  /** None of the messages raises. */
  ghost predicate Readable(heard: seq<Bytes>, decode: Bytes -> Json) {
    forall i :: 0 <= i < |heard| ==> !Poison(heard[i], decode)
  }

  /** One of the messages carries this reply under this id. */
  ghost predicate Brought(heard: seq<Bytes>, decode: Bytes -> Json, id: int, reply: Reply) {
    exists raw :: raw in heard && ReplyOf(raw, decode) == Some((id, reply))
  }

  lemma NothingHeard(decode: Bytes -> Json, id: int)
    ensures Readable([], decode) && LastReply([], decode, id) == None
  {
  }

  lemma HeardOne(heard: seq<Bytes>, raw: Bytes, decode: Bytes -> Json, id: int)
    requires Readable(heard, decode)
    ensures Readable(heard + [raw], decode) <==> !Poison(raw, decode)
    ensures LastReply(heard + [raw], decode, id)
         == match ReplyOf(raw, decode)
            case Some((k, reply)) => if k == id then Some(reply) else LastReply(heard, decode, id)
            case None => LastReply(heard, decode, id)
  {
    hide ReplyOf, Poison;
    var longer := heard + [raw];
    assert longer[..|heard|] == heard && longer[|heard|] == raw;
  }

  lemma PoisonHeard(heard: seq<Bytes>, i: nat, decode: Bytes -> Json)
    requires i < |heard| && Poison(heard[i], decode)
    ensures !Readable(heard, decode)
  {
  }

  lemma MoreBrought(a: seq<Bytes>, b: seq<Bytes>, decode: Bytes -> Json, id: int, reply: Reply)
    requires Brought(a, decode, id, reply)
    ensures Brought(a + b, decode, id, reply)
  {
    hide ReplyOf;
    var raw :| raw in a && ReplyOf(raw, decode) == Some((id, reply));
    assert raw in a + b;
  }

  // ---- how a call may end, by what its sockets delivered --------------------------------------

  /** No reply to the request among these messages. */
  ghost predicate Unanswered(heard: seq<Bytes>, decode: Bytes -> Json, id: int) {
    Readable(heard, decode) && LastReply(heard, decode, id) == None
  }

  /** What a socket had sent and delivered, and how often it had been polled, at some moment. */
  datatype Past = Past(sent: seq<int>, delivered: seq<Bytes>, polls: nat)

  const NO_PAST := Past([], [], 0)

  ghost function PastOf(c: Channel): Past
    reads c
  {
    Past(c.sent, c.delivered, c.polls)
  }

  /** One attempt: a socket, its state before and after, and whether it had broken by then. */
  datatype Use = Use(channel: Channel, past: Past, after: Past, dead: bool)

  /** It is in just that state now. */
  ghost predicate Shows(u: Use)
    reads u.channel
  {
    PastOf(u.channel) == u.after && u.dead == (u.channel.closed || u.channel.broken)
  }

  /** The id was sent once, and whatever was delivered came on top of what had been delivered. */
  predicate Asked(u: Use, id: int) {
    u.after.sent == u.past.sent + [id] && u.past.delivered <= u.after.delivered
  }

  /** What the socket delivered during the attempt. */
  function Heard(u: Use): seq<Bytes> {
    if |u.past.delivered| <= |u.after.delivered| then u.after.delivered[|u.past.delivered|..] else []
  }

  /** ... and there was no reply, though the socket was polled to the end or broke. */
  ghost predicate Spent(u: Use, id: int, decode: Bytes -> Json, maxPolls: nat) {
    Asked(u, id) && Unanswered(Heard(u), decode, id) && (u.dead || u.after.polls == u.past.polls + maxPolls)
  }

  ghost predicate AllSpent(uses: seq<Use>, id: int, decode: Bytes -> Json, maxPolls: nat) {
    forall i :: 0 <= i < |uses| ==> Spent(uses[i], id, decode, maxPolls)
  }

  /** How a request ends that was tried on one socket after the other: all but the last were given up
      without a reply. A reply that is returned was delivered by the last one; a failure means that
      it was given up, too; it raises if it delivered something that cannot be read. */
  ghost predicate EndsAs(r: CallResult, uses: seq<Use>, id: int, decode: Bytes -> Json, maxPolls: nat) {
    && uses != []
    && AllSpent(uses[..|uses| - 1], id, decode, maxPolls)
    && var u := uses[|uses| - 1];
       && Asked(u, id)
       && match r
          case Answered(reply) => Readable(Heard(u), decode) && LastReply(Heard(u), decode, id) == Some(reply)
          case Unreadable => !Readable(Heard(u), decode)
          case _ => Spent(u, id, decode, maxPolls)
  }

  /** How one attempt ends. */
  ghost predicate Concludes(a: AttemptResult, u: Use, id: int, decode: Bytes -> Json, maxPolls: nat) {
    && Asked(u, id)
    && match a
       case Got(reply) => Readable(Heard(u), decode) && LastReply(Heard(u), decode, id) == Some(reply)
       case Raised => !Readable(Heard(u), decode)
       case _ => Spent(u, id, decode, maxPolls)
  }

  /** What the call makes of the last attempt. */
  predicate Fits(r: CallResult, a: AttemptResult) {
    match a
    case Got(reply) => r == Answered(reply)
    case Raised => r == Unreadable
    case _ => r == TimedOut || r == Lost
  }

  lemma OneMoreSpent(uses: seq<Use>, a: AttemptResult, u: Use, id: int, decode: Bytes -> Json, maxPolls: nat)
    requires AllSpent(uses, id, decode, maxPolls) && Concludes(a, u, id, decode, maxPolls)
        && (a.Silent? || a.SocketFailed?)
    ensures AllSpent(uses + [u], id, decode, maxPolls)
  {
    hide Spent;
  }

  lemma EndsHere(
    r: CallResult, uses: seq<Use>, a: AttemptResult, u: Use, id: int, decode: Bytes -> Json, maxPolls: nat)
    requires AllSpent(uses, id, decode, maxPolls) && Concludes(a, u, id, decode, maxPolls) && Fits(r, a)
    ensures EndsAs(r, uses + [u], id, decode, maxPolls)
  {
    hide Spent, Asked, AllSpent, LastReply, Readable;
    assert (uses + [u])[..|uses|] == uses;
  }

  /** The sockets of these attempts but the first. */
  function Others(uses: seq<Use>): (cs: seq<Channel>)
    ensures |cs| == Max(0, |uses| - 1) && forall i :: 0 <= i < |cs| ==> cs[i] == uses[i + 1].channel
  {
    seq(Max(0, |uses| - 1), i requires 0 <= i < |uses| - 1 => uses[i + 1].channel)
  }

  lemma OthersNext(uses: seq<Use>, u: Use)
    ensures uses != [] ==> Others(uses + [u]) == Others(uses) + [u.channel]
    ensures uses == [] ==> Others(uses + [u]) == []
  {
  }

  lemma OthersLast(uses: seq<Use>)
    requires uses != []
    ensures |uses| == 1 ==> Others(uses) == []
    ensures |uses| > 1 ==> Others(uses) != [] && Others(uses)[|Others(uses)| - 1] == uses[|uses| - 1].channel
  {
  }

  /** All attempts but the first were made on new sockets. */
  ghost predicate OnNewSockets(uses: seq<Use>) {
    forall i :: 1 <= i < |uses| ==> uses[i].past == NO_PAST
  }

  ghost predicate AllShow(uses: seq<Use>)
    reads set i | 0 <= i < |uses| :: uses[i].channel
  {
    forall i :: 0 <= i < |uses| ==> Shows(uses[i])
  }

  /** These attempts began on the socket `first`, which had this past, went on on new ones, one after the
      other, and `next` is none of them. */
  ghost predicate Chain(uses: seq<Use>, first: Channel, past: Past, next: Channel) {
    && OnNewSockets(uses) && Distinct(Others(uses))
    && (if uses == [] then next == first else uses[0].channel == first && uses[0].past == past)
    && forall i :: 0 <= i < |uses| ==> uses[i].channel != next
  }

  lemma ChainOn(uses: seq<Use>, first: Channel, past: Past, u: Use, next: Channel)
    requires Chain(uses, first, past, u.channel) && u.past == if uses == [] then past else NO_PAST
    requires next != u.channel && forall i :: 0 <= i < |uses| ==> uses[i].channel != next
    ensures Chain(uses + [u], first, past, next)
  {
    ChainEnds(uses, first, past, u);
  }

  lemma ChainEnds(uses: seq<Use>, first: Channel, past: Past, u: Use)
    requires Chain(uses, first, past, u.channel) && u.past == if uses == [] then past else NO_PAST
    ensures OnNewSockets(uses + [u]) && Distinct(Others(uses + [u]))
    ensures (uses + [u])[0].channel == first && (uses + [u])[0].past == past
    ensures Others(uses + [u]) == if uses == [] then [] else Others(uses) + [u.channel]
  {
    OthersNext(uses, u);
  }

  lemma ChainIsApart(uses: seq<Use>, first: Channel, past: Past, next: Channel)
    requires Chain(uses, first, past, next)
    ensures forall i :: 0 <= i < |uses| ==> uses[i].channel != next
    ensures if uses == [] then next == first else uses[0].channel == first
  {
  }

  lemma OneMoreShows(uses: seq<Use>, u: Use)
    requires AllShow(uses) && Shows(u)
    ensures AllShow(uses + [u])
  {
  }

  lemma NoUse(first: Channel, past: Past)
    ensures Chain([], first, past, first) && AllShow([]) && Others([]) == []
  {
  }

  /** On each of the new sockets the request went out once. */
  lemma EndedSends(r: CallResult, uses: seq<Use>, id: int, decode: Bytes -> Json, maxPolls: nat)
    requires EndsAs(r, uses, id, decode, maxPolls) && OnNewSockets(uses)
    requires AllShow(uses)
    ensures uses[0].channel.sent == uses[0].past.sent + [id] && OneEach(Others(uses), id)
  {
    hide LastReply, Readable;
    forall i | 0 <= i < |uses| ensures uses[i].channel.sent == uses[i].past.sent + [id] {
      assert Shows(uses[i]);
      if i < |uses| - 1 {
        assert uses[..|uses| - 1][i] == uses[i];
      }
    }
    assert forall i :: 1 <= i < |uses| ==> uses[i].channel.sent == [id];
  }

  class KernelConn {
    const session: LiveSession?
    const maxReconnects: int
    const decode: Bytes -> Json
    var ws: Channel
    var rid: nat
    var pending: map<int, Reply>

    constructor (ws: Channel, session: LiveSession?, maxReconnects: int)
      requires ws.sent == [] && (session != null ==> session.Valid() && session.decode == ws.decode)
      requires session != null ==> session.server.sockets == [ws]
      ensures Valid() && this.ws == ws && this.session == session && this.maxReconnects == maxReconnects
      ensures decode == ws.decode && rid == 0 && pending == map[]
    {
      this.ws, this.session, this.maxReconnects, this.decode := ws, session, maxReconnects, ws.decode;
      rid, pending := 0, map[];
    }

    /** All sockets so far, as the server keeps track of them, the present one last. */
    ghost function Sockets(): seq<Channel>
      reads this`ws, if session != null then {session.server} else {}
    {
      if session == null then [ws] else session.server.sockets
    }

    /** Whatever is pending was read from the present socket, under an id sent on it. */
    ghost predicate Pending()
      reads this, ws
    {
      && ws.decode == decode && (session != null ==> session.decode == decode)
      && (forall k :: k in ws.sent ==> 1 <= k <= rid)
      && (forall k :: k in pending ==> k in ws.sent && Brought(ws.delivered, decode, k, pending[k]))
    }

    function Budget(): nat {
      1 + Max(0, maxReconnects)
    }

    /** ... over all sockets the ids never go down, and none is sent more often than the budget allows. */
    ghost predicate Valid()
      reads this, ws, session, (if session != null then {session.server} else {}), Sockets()
    {
      && (session != null ==> session.Valid())
      && Sockets() != [] && Sockets()[|Sockets()| - 1] == ws && Distinct(Sockets())
      && Pending() && Ordered(AllSent(Sockets()), rid) && WithinBudget(AllSent(Sockets()), Budget())
    }

    lemma WhatHolds()
      requires Valid()
      ensures session != null ==> session.Valid()
      ensures WithinBudget(AllSent(Sockets()), 1 + Max(0, maxReconnects))
    {
    }

    /** Files a raw message under its reply id; messages that are no replies are dropped. Two
        kinds of malformed content make it raise. */
    method Absorb(raw: Bytes) returns (ok: bool)
      requires Pending() && raw in ws.delivered && (RidOf(raw, decode).Some? ==> RidOf(raw, decode).value in ws.sent)
      modifies this`pending
      ensures Pending() && ok == !Poison(raw, decode)
      ensures pending == match ReplyOf(raw, decode)
                         case Some((id, reply)) => old(pending)[id := reply]
                         case None => old(pending)
    {
      var unpacked := UnpackSpec(raw);
      if unpacked == None {
        return true;
      }
      var parts := unpacked.value.1;
      if |parts| < 4 {
        return true;
      }
      match decode(parts[3]) {
        case NotJson => ok := true;
        case NoRid => ok := true;
        case NotObject => ok := false;
        case BadRid => ok := false;
        case Rid(id, data) =>
          pending := pending[id := Reply(data, parts[4..])];
          ok := true;
      }
    }

    function Pended(id: int): Option<Reply>
      reads this`pending
    {
      if id in pending then Some(pending[id]) else None
    }

    /** Reading more leaves what is pending as it is. */
    lemma StaysPending(sent: seq<int>, heard: seq<Bytes>, batch: seq<Bytes>)
      requires forall k :: k in pending ==> k in sent && Brought(heard, decode, k, pending[k])
      ensures forall k :: k in pending ==> k in sent && Brought(heard + batch, decode, k, pending[k])
    {
      forall k | k in pending ensures Brought(heard + batch, decode, k, pending[k]) {
        MoreBrought(heard, batch, decode, k, pending[k]);
      }
    }

    /** One poll: everything the socket has is read and filed. */
    method Poll(id: nat, ghost more: seq<Bytes>) returns (ok: bool, ghost batch: seq<Bytes>)
      requires Pending() && Readable(more, decode)
      modifies this`pending, ws`closed, ws`delivered, ws`polls
      ensures Pending() && ws.delivered == old(ws.delivered) + batch && ws.polls == old(ws.polls) + 1
      ensures ok <==> Readable(more + batch, decode)
      ensures ok ==> forall before: Option<Reply> :: old(Pended(id)) == Newest(more, decode, id, before) ==>
                       Pended(id) == Newest(more + batch, decode, id, before)
    {
      hide ReplyOf, Poison, LastReply, Readable, RidOf, Brought;
      ghost var was := ws.delivered;
      var messages := ws.ReadMessages();
      batch := messages;
      StaysPending(ws.sent, was, batch);
      assert more + messages[..0] == more;
      for i := 0 to |messages|
        invariant Pending() && ws.delivered == was + messages && ws.polls == old(ws.polls) + 1
        invariant Readable(more + messages[..i], decode)
        invariant AnswersOnly(messages, ws.sent, decode)
        invariant forall before: Option<Reply> :: old(Pended(id)) == Newest(more, decode, id, before) ==>
                    Pended(id) == Newest(more + messages[..i], decode, id, before)
      {
        HeardOne(more + messages[..i], messages[i], decode, id);
        assert messages[..i] + [messages[i]] == messages[..i + 1];
        Regroup(more, messages[..i], [messages[i]]);
        ok := Absorb(messages[i]);
        if !ok {
          assert (more + messages)[|more| + i] == messages[i];
          PoisonHeard(more + messages, |more| + i, decode);
          return;
        }
      }
      assert messages[..|messages|] == messages;
      ok := true;
    }

    /** Sends the request and polls for its reply. A reply that is heard is returned, the last one
        of its batch; silence means that the socket was polled to the end and brought none. */
    method Attempt(id: nat, maxPolls: nat) returns (r: AttemptResult, ghost more: seq<Bytes>)
      requires Pending() && 1 <= id == rid
      modifies this`pending, ws
      ensures Pending() && ws.sent == old(ws.sent) + [id] && ws.delivered == old(ws.delivered) + more
      ensures r.Raised? <==> !Readable(more, decode)
      ensures r.Got? ==> Newest(more, decode, id, old(Pended(id))) == Some(r.reply)
      ensures r.Silent? || r.SocketFailed? ==> LastReply(more, decode, id) == None
      ensures r.Silent? ==> ws.polls == old(ws.polls) + maxPolls
      ensures r.SocketFailed? ==> ws.closed || ws.broken
    {
      hide LastReply, Readable, Brought;
      more := [];
      NothingHeard(decode, id);
      assert ws.delivered + [] == ws.delivered;
      var sent := ws.SendBinary(id);
      if !sent {
        return SocketFailed, more;
      }
      for poll := 0 to maxPolls
        invariant Pending() && ws.sent == old(ws.sent) + [id] && ws.delivered == old(ws.delivered) + more
        invariant Readable(more, decode) && Pended(id) == Newest(more, decode, id, old(Pended(id)))
        invariant ws.polls == old(ws.polls) + poll
        invariant if poll > 0 then id !in pending else more == []
      {
        if id in pending {
          r := Got(pending[id]);
          pending := pending - {id};
          return;
        }
        if ws.closed {
          return SocketFailed, more;
        }
        var ok, batch := Poll(id, more);
        Regroup(old(ws.delivered), more, batch);
        more := more + batch;
        if !ok {
          return Raised, more;
        }
        if ws.closed && id !in pending {
          return SocketFailed, more;
        }
        if id in pending {
          r := Got(pending[id]);
          pending := pending - {id};
          return;
        }
      }
      r := Silent;
    }

    /** The same for a new id, as the state of the socket before and after shows it. */
    method TryOnce(id: nat, maxPolls: nat) returns (a: AttemptResult, ghost u: Use)
      requires Pending() && 1 <= id == rid && id !in pending
      modifies this`pending, ws
      ensures Pending()
      ensures Shows(u) && u.channel == ws && u.past == old(PastOf(ws))
      ensures Concludes(a, u, id, decode, maxPolls)
    {
      hide LastReply, Readable, Brought;
      ghost var past, part := PastOf(ws), [];
      a, part := Attempt(id, maxPolls);
      u := Use(ws, past, PastOf(ws), ws.closed || ws.broken);
      assert Heard(u) == part;
    }

    /** Swaps in a fresh socket; what was pending belonged to the dead one. */
    method DoReconnect() returns (ok: bool)
      requires session != null && session.Valid() && Pending()
      modifies this`ws, this`pending, session, session.server
      ensures session.Valid() && Pending()
      ensures ok ==> fresh(ws) && ws.Unused() && pending == map[] && session.failed == old(session.failed)
      ensures session.server.sockets == old(session.server.sockets) + if ok then [ws] else []
      ensures !ok ==> ws == old(ws) && pending == old(pending)
      ensures !ok ==> session.failed == old(session.failed) + 1 && !session.server.willing
    {
      var r := session.Reconnect();
      if r.None? {
        return false;
      }
      ws := r.value;
      pending := map[];
      ok := true;
    }

    /** The attempts of one request, each on a socket of its own. */
    method Tries(maxPolls: nat) returns (r: CallResult, ghost uses: seq<Use>)
      requires (session != null ==> session.Valid()) && Pending() && rid >= 1 && rid !in pending
      modifies this`ws, this`pending, ws, session, if session != null then {session.server} else {}
      ensures (session != null ==> session.Valid()) && Pending()
      ensures 1 <= |uses| <= Budget() && uses[0].channel == old(ws) && uses[0].past == old(PastOf(ws))
      ensures OnNewSockets(uses) && AllShow(uses)
      ensures uses[|uses| - 1].channel == ws && (ws == old(ws) || fresh(ws))
      ensures (forall c :: c in Others(uses) ==> fresh(c)) && Distinct(Others(uses))
      ensures session != null ==> session.server.sockets == old(session.server.sockets) + Others(uses)
      ensures session == null ==> |uses| == 1
      ensures EndsAs(r, uses, rid, decode, maxPolls)
      ensures r.TimedOut? ==> session == null
      ensures r.Lost? ==> session != null && (|uses| == Budget() || GaveOut(old(FailedSoFar())))
    {
      hide Readable, LastReply, Pending, Brought, AllSpent, EndsAs, LiveSession.Valid, Chain, AllShow, OnNewSockets,
          Distinct, Others, Shows, Concludes;
      ghost var id, past0 := rid, PastOf(ws);
      uses := [];
      NoneSpent(id, decode, maxPolls);
      NoUse(ws, past0);
      r := TimedOut;
      var attempts := 0;
      assert session != null ==> session.server.sockets + [] == session.server.sockets;
      while true
        invariant (session != null ==> session.Valid()) && Pending() && rid !in pending
        invariant 0 <= attempts <= Max(0, maxReconnects) && (attempts > 0 ==> session != null)
        invariant |uses| == attempts && AllSpent(uses, id, decode, maxPolls) && AllShow(uses)
        invariant Chain(uses, old(ws), past0, ws)
        invariant if attempts == 0 then ws == old(ws) && PastOf(ws) == past0 else fresh(ws) && PastOf(ws) == NO_PAST
        invariant forall c :: c in Others(uses) ==> fresh(c)
        invariant forall i :: 0 <= i < |uses| ==> allocated(uses[i].channel)
        invariant session != null ==>
                    session.server.sockets == old(session.server.sockets) + Others(uses)
                                               + if attempts == 0 then [] else [ws]
        invariant FailedSoFar() == old(FailedSoFar())
        decreases Max(0, maxReconnects) - attempts
      {
        ghost var more := uses;
        ChainIsApart(uses, old(ws), past0, ws);
        var a, u := TryOnce(rid, maxPolls);
        OneMoreShows(uses, u);
        ChainEnds(uses, old(ws), past0, u);
        uses := uses + [u];
        match a {
          case Got(reply) =>
            EndsHere(Answered(reply), more, a, u, id, decode, maxPolls);
            return Answered(reply), uses;
          case Raised =>
            EndsHere(Unreadable, more, a, u, id, decode, maxPolls);
            return Unreadable, uses;
          case _ =>
        }
        EndsHere(Lost, more, a, u, id, decode, maxPolls);
        EndsHere(TimedOut, more, a, u, id, decode, maxPolls);
        if session == null {
          return TimedOut, uses;
        }
        if attempts >= maxReconnects {
          return Lost, uses;
        }
        attempts := attempts + 1;
        OneMoreSpent(more, a, u, id, decode, maxPolls);
        var ok := DoReconnect();
        if !ok {
          return Lost, uses;
        }
        ChainOn(more, old(ws), past0, u, ws);
      }
    }

    /** How often the session could not come by a new kernel. */
    ghost function FailedSoFar(): nat
      reads session
    {
      if session == null then 0 else session.failed
    }

    ghost predicate GaveOut(before: nat)
      reads session
    {
      session != null && session.failed > before && !session.server.willing
    }

    /** One request. It ends within the reconnect budget, goes out once on each socket it uses, and opens no
        others. A reply that is returned carries its id and was delivered by the socket of its last sending; it
        fails only if every socket it used was given up without having delivered a reply to it, and only after
        all reconnects or when one fails. */
    method Call(maxPolls: nat) returns (r: CallResult, ghost uses: seq<Use>)
      requires Valid()
      modifies this`rid, this`ws, this`pending
      modifies ws, session, if session != null then {session.server} else {}
      ensures Valid() && rid == old(rid) + 1
      ensures 1 <= |uses| <= Budget() && uses[0].channel == old(ws) && uses[0].past == old(PastOf(ws))
      ensures OnNewSockets(uses) && AllShow(uses)
      ensures uses[|uses| - 1].channel == ws && (ws == old(ws) || fresh(ws))
      ensures Sockets() == old(Sockets()) + Others(uses) && forall c :: c in Others(uses) ==> fresh(c)
      ensures EndsAs(r, uses, rid, decode, maxPolls)
      ensures r.TimedOut? ==> session == null
      ensures r.Lost? ==> session != null && (|uses| == Budget() || GaveOut(old(FailedSoFar())))
    {
      hide Ordered, WithinBudget, EndsAs, OneEach, LiveSession.Valid, AllSent, Distinct, Others, OnNewSockets, AllShow,
          Shows, Brought;
      ghost var front := Sockets()[..|Sockets()| - 1];
      ghost var before := AllSent(front);
      LastSent(Sockets());
      rid := rid + 1;
      r, uses := Tries(maxPolls);
      EndedSends(r, uses, rid, decode, maxPolls);
      OthersLast(uses);
      assert old(Sockets()) == front + [old(ws)] && AllSent(front) == before;
      LogGrows(front, old(ws), old(ws.sent), Others(uses), old(rid), Budget());
      StillDistinct(old(Sockets()), Others(uses));
      assert Sockets() == front + [old(ws)] + Others(uses);
    }

    lemma StillDistinct(all: seq<Channel>, added: seq<Channel>)
      requires Distinct(all) && Distinct(added) && forall c :: c in added ==> c !in all
      ensures Distinct(all + added)
    {
      forall i, j | 0 <= i < j < |all + added| ensures (all + added)[i] != (all + added)[j] {
        if i < |all| <= j {
          assert (all + added)[j] in added;
        }
      }
    }
  }

  lemma NoneSpent(id: int, decode: Bytes -> Json, maxPolls: nat)
    ensures AllSpent([], id, decode, maxPolls)
  {
  }

  lemma FirstAsked(r: CallResult, uses: seq<Use>, id: int, decode: Bytes -> Json, maxPolls: nat)
    requires EndsAs(r, uses, id, decode, maxPolls)
    ensures Asked(uses[0], id)
  {
    hide Readable, LastReply, Unanswered;
    if |uses| > 1 {
      assert Spent(uses[..|uses| - 1][0], id, decode, maxPolls);
    }
  }

  /** What these sockets have sent and delivered by now. */
  ghost function StateOf(sockets: seq<Channel>): map<Channel, Past>
    reads sockets
  {
    map c | c in sockets :: PastOf(c)
  }

  /** What an attempt shows has happened to its socket. */
  ghost predicate Remains(u: Use, state: map<Channel, Past>) {
    && u.channel in state
    && u.after.sent <= state[u.channel].sent && u.after.delivered <= state[u.channel].delivered
  }

  /** What the attempts of several calls show has happened. */
  ghost predicate Happened(log: seq<seq<Use>>, state: map<Channel, Past>) {
    forall i, k :: 0 <= i < |log| && 0 <= k < |log[i]| ==> Remains(log[i][k], state)
  }

  /** Sockets only ever send and deliver more. */
  ghost predicate Extends(state: map<Channel, Past>, later: map<Channel, Past>) {
    forall c :: c in state ==>
        c in later && state[c].sent <= later[c].sent && state[c].delivered <= later[c].delivered
  }

  lemma HappenedOn(log: seq<seq<Use>>, uses: seq<Use>, state: map<Channel, Past>, later: map<Channel, Past>)
    requires Happened(log, state) && Extends(state, later)
    requires forall k :: 0 <= k < |uses| ==> Remains(uses[k], later)
    ensures Happened(log + [uses], later)
  {
    var longer := log + [uses];
    forall i, k | 0 <= i < |longer| && 0 <= k < |longer[i]| ensures Remains(longer[i][k], later) {
      if i < |log| {
        assert Remains(log[i][k], state);
      }
    }
  }

  lemma ChannelsOf(uses: seq<Use>, first: Channel, sockets: seq<Channel>, all: seq<Channel>)
    requires uses != [] && uses[0].channel == first && first in sockets && all == sockets + Others(uses)
    ensures forall k :: 0 <= k < |uses| ==> uses[k].channel in all
  {
    forall k | 0 <= k < |uses| ensures uses[k].channel in all {
      if k > 0 {
        assert uses[k].channel == Others(uses)[k - 1];
      }
    }
  }

  lemma ShownRemains(uses: seq<Use>, sockets: seq<Channel>)
    requires AllShow(uses) && forall k :: 0 <= k < |uses| ==> uses[k].channel in sockets
    ensures forall k :: 0 <= k < |uses| ==> Remains(uses[k], StateOf(sockets))
  {
    forall k | 0 <= k < |uses| ensures Remains(uses[k], StateOf(sockets)) {
      assert Shows(uses[k]);
    }
  }

  /** Only `first` has changed, and that by a request and what it delivered. */
  lemma StateExtends(before: map<Channel, Past>, first: Channel, u: Use, id: int, sockets: seq<Channel>)
    requires Asked(u, id) && Shows(u) && u.channel == first && first in before && u.past == before[first]
    requires forall c :: c in before ==> c in sockets && (c != first ==> PastOf(c) == before[c])
    ensures Extends(before, StateOf(sockets))
  {
    forall c | c in before
      ensures before[c].sent <= StateOf(sockets)[c].sent && before[c].delivered <= StateOf(sockets)[c].delivered
    {
      if c == first {
        assert u.after == PastOf(first);
      }
    }
  }

  lemma FirstShows(uses: seq<Use>)
    requires uses != [] && AllShow(uses)
    ensures Shows(uses[0])
  {
  }

  method NextCall(c: KernelConn, maxPolls: nat, ghost log: seq<seq<Use>>) returns (r: CallResult, ghost uses: seq<Use>)
    requires c.Valid() && Happened(log, StateOf(c.Sockets()))
    modifies c, c.ws, c.session, if c.session != null then {c.session.server} else {}
    ensures c.Valid() && c.rid == old(c.rid) + 1 && (c.ws == old(c.ws) || fresh(c.ws))
    ensures EndsAs(r, uses, c.rid, c.decode, maxPolls) && Happened(log + [uses], StateOf(c.Sockets()))
    ensures old(c.Sockets()) <= c.Sockets() && |c.Sockets()| <= |old(c.Sockets())| + Max(0, c.maxReconnects)
  {
    hide LiveSession.Valid, Ordered, WithinBudget, AllSent, EndsAs, Distinct, Others, AllShow, OnNewSockets, Happened,
        Asked, KernelConn.Pending, Shows, Remains, Extends;
    ghost var sockets, first := c.Sockets(), c.ws;
    ghost var state := StateOf(sockets);
    r, uses := c.Call(maxPolls);
    FirstAsked(r, uses, c.rid, c.decode, maxPolls);
    FirstShows(uses);
    ChannelsOf(uses, first, sockets, c.Sockets());
    ShownRemains(uses, c.Sockets());
    StateExtends(state, first, uses[0], c.rid, c.Sockets());
    HappenedOn(log, uses, state, StateOf(c.Sockets()));
  }

  /** Any number of calls, however they end: each ends as its attempts say, which were made under an id of its
      own on sockets the server keeps track of; over all sockets the ids never go down and no id was sent more
      often than the budget allows; and a call opens at most as many sockets as there may be reconnects. */
  method Calls(c: KernelConn, n: nat, maxPolls: nat) returns (results: seq<CallResult>, ghost log: seq<seq<Use>>)
    requires c.Valid()
    modifies c, c.ws, c.session, if c.session != null then {c.session.server} else {}
    ensures c.Valid() && |results| == |log| == n && c.rid == old(c.rid) + n
    ensures forall i :: 0 <= i < n ==> EndsAs(results[i], log[i], old(c.rid) + i + 1, c.decode, maxPolls)
    ensures Happened(log, StateOf(c.Sockets()))
    ensures old(c.Sockets()) <= c.Sockets() && |c.Sockets()| <= |old(c.Sockets())| + n * Max(0, c.maxReconnects)
  {
    hide KernelConn.Valid, EndsAs, Happened;
    results, log := [], [];
    ghost var most := Max(0, c.maxReconnects);
    NothingHappened(c.Sockets());
    for i := 0 to n
      invariant c.Valid() && |results| == |log| == i && c.rid == old(c.rid) + i
      invariant c.ws == old(c.ws) || fresh(c.ws)
      invariant forall k :: 0 <= k < i ==> EndsAs(results[k], log[k], old(c.rid) + k + 1, c.decode, maxPolls)
      invariant Happened(log, StateOf(c.Sockets()))
      invariant old(c.Sockets()) <= c.Sockets() && |c.Sockets()| <= |old(c.Sockets())| + i * most
    {
      var r, uses := NextCall(c, maxPolls, log);
      Times(i, most);
      results, log := results + [r], log + [uses];
    }
  }

  lemma NothingHappened(sockets: seq<Channel>)
    ensures Happened([], StateOf(sockets))
  {
  }

  lemma Times(i: nat, most: nat)
    ensures (i + 1) * most == i * most + most
  {
  }

  /** The whole life of a connection: established, used for any number of calls with any number of
      reconnects, cleaned up. Whatever fails on the way, of the kernels it created none is alive at the
      end, and there never were two at a time, but for those the server refused to delete; over all sockets
      to that server no request was sent more often than the budget allows, and each call ended as what
      these sockets sent and delivered says. */
  method Lifetime(server: KernelServer, decode: Bytes -> Json, maxReconnects: int, n: nat, maxPolls: nat)
    returns (results: seq<CallResult>, ghost log: seq<seq<Use>>)
    requires server.Untouched()
    modifies server
    ensures server.reliable ==> server.refused == {}
    ensures forall k :: k in server.alive ==> k in server.foreign || k in server.refused
    ensures forall i :: 0 <= i < |server.history| ==>
        AtMostOneBesides(server.history[i], server.foreign + server.refused)
    ensures WithinBudget(AllSent(server.sockets), 1 + Max(0, maxReconnects))
    ensures |server.sockets| <= 1 + n * Max(0, maxReconnects)
    ensures |results| == |log| && if server.sockets == [] then results == [] && !server.willing else |results| == n
    ensures forall i :: 0 <= i < |results| ==> EndsAs(results[i], log[i], i + 1, decode, maxPolls)
    ensures Happened(log, StateOf(server.sockets))
  {
    hide AtMostOneBesides, EndsAs, Happened, KernelConn.Valid, LiveSession.Valid, LiveSession.Tidy, WithinBudget,
        AllSent, StateOf;
    var session := new LiveSession(server, decode);
    results, log := [], [];
    NothingSent(1 + Max(0, maxReconnects));
    NothingHappened([]);
    assert server.sockets == [];
    var ok := session.Connect();
    if ok {
      assert [] + [session.ws] == [session.ws];
      var c := new KernelConn(session.ws, session, maxReconnects);
      results, log := Calls(c, n, maxPolls);
      c.WhatHolds();
      session.Cleanup();
    }
  }

  lemma NothingSent(budget: nat)
    ensures WithinBudget(AllSent([]), budget)
  {
  }
}

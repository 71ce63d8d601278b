/** Owning a kernel: creating one, replacing it on reconnect, deleting it at the end, with
    failures possible at every step. */
module LiveSessions {
  import opened Basics
  import opened KernelFraming

  // ---- the server ---------------------------------------------------------------------

  class KernelServer {
    /** The kernels that were there before and are not ours. */
    const foreign: set<nat>
    /** Deleting always works. */
    const reliable: bool
    /** Creating, connecting and sending always work. */
    const willing: bool
    var alive: set<nat>
    /** What was alive after each request, from the start. */
    ghost var history: seq<set<nat>>
    /** The kernels that a request to delete them did not delete. */
    ghost var refused: set<nat>
    /** Every socket that was opened to one of its kernels. */
    ghost var sockets: seq<Channel>

    constructor (foreign: set<nat>, reliable: bool, willing: bool)
      ensures this.foreign == foreign && this.reliable == reliable && this.willing == willing && Untouched()
    {
      this.foreign, this.reliable, this.willing := foreign, reliable, willing;
      alive, history, refused, sockets := foreign, [foreign], {}, [];
    }

    /** No request yet. */
    ghost predicate Untouched()
      reads this
    {
      alive == foreign && history == [foreign] && refused == {} && sockets == []
    }

    /** A new kernel with a new id, or a failure. */
    method Create() returns (kid: Option<nat>)
      modifies this`alive, this`history
      ensures kid.Some? ==> kid.value !in old(alive) && kid.value !in foreign && alive == old(alive) + {kid.value}
      ensures kid.None? ==> alive == old(alive)
      ensures willing ==> kid.Some?
      ensures history == old(history) + [alive]
    {
      var fails: bool := *;
      if fails && !willing {
        kid := None;
      } else {
        var id := FreshId(alive + foreign);
        alive := alive + {id};
        kid := Some(id);
      }
      history := history + [alive];
    }

    method Delete(kid: nat) returns (ok: bool)
      modifies this`alive, this`history, this`refused
      ensures alive == if ok then old(alive) - {kid} else old(alive)
      ensures refused == if ok then old(refused) else old(refused) + {kid}
      ensures reliable ==> ok
      ensures history == old(history) + [alive]
    {
      ok := *;
      ok := ok || reliable;
      if ok {
        alive := alive - {kid};
      } else {
        refused := refused + {kid};
      }
      history := history + [alive];
    }
  }

  /** An id that is not in use. */
  method FreshId(used: set<nat>) returns (id: nat)
    ensures id !in used
  {
    id := 0;
    var rest := used;
    while id in used
      invariant rest <= used && forall x :: x in used && x !in rest ==> x < id
      invariant forall x :: x in rest ==> x >= id
      decreases rest
    {
      rest := rest - {id};
      id := id + 1;
    }
  }

  // ---- the socket ------------------------------------------------------------------------

  /** What the content part of a message turns out to be: undecodable, not an object (reading
      its data raises), without a reply id, with one that is no integer (raises), or a reply. */
  datatype Json = NotJson | NotObject | NoRid | BadRid | Rid(rid: int, data: Bytes)

  datatype Reply = Reply(data: Bytes, buffers: seq<Bytes>)

  /** The reply a raw message carries, with its id. */
  function ReplyOf(raw: Bytes, decode: Bytes -> Json): Option<(int, Reply)> {
    match UnpackSpec(raw)
    case None => None
    case Some((_, parts)) =>
      if |parts| < 4 then None
      else
        match decode(parts[3])
        case Rid(id, data) => Some((id, Reply(data, parts[4..])))
        case _ => None
  }

  function RidOf(raw: Bytes, decode: Bytes -> Json): Option<int> {
    match ReplyOf(raw, decode)
    case Some((rid, _)) => Some(rid)
    case None => None
  }

  /** Of a message as a kernel sends it, the fourth part is the content and the further ones are the buffers. */
  lemma ReplyIsRead(
    channel: string, header: Bytes, parent: Bytes, metadata: Bytes, content: Bytes, buffers: seq<Bytes>,
    decode: Bytes -> Json)
    requires PackSpec(channel, [header, parent, metadata, content] + buffers).Some?
    ensures ReplyOf(PackSpec(channel, [header, parent, metadata, content] + buffers).value, decode)
         == match decode(content)
            case Rid(id, data) => Some((id, Reply(data, buffers)))
            case _ => None
  {
    hide PackSpec, UnpackSpec;
    var parts := [header, parent, metadata, content] + buffers;
    UnpackOfPack(channel, parts);
    assert parts[4..] == buffers && parts[3] == content;
  }

  /** A peer that answers only what it was asked; late, twice, out of order or garbled all the same. */
  predicate AnswersOnly(batch: seq<Bytes>, asked: seq<int>, decode: Bytes -> Json) {
    forall raw :: raw in batch && RidOf(raw, decode).Some? ==> RidOf(raw, decode).value in asked
  }

  class Channel {
    const decode: Bytes -> Json
    var closed: bool
    /** The ids of the requests sent, in order. */
    var sent: seq<int>
    /** Every message that was read, in order. */
    ghost var delivered: seq<Bytes>
    /** How often it was read. */
    ghost var polls: nat
    /** Sending has failed. */
    ghost var broken: bool

    /** A socket to a kernel of this server, who keeps track of it. */
    constructor (decode: Bytes -> Json, server: KernelServer)
      modifies server`sockets
      ensures this.decode == decode && !closed && Unused() && server.sockets == old(server.sockets) + [this]
    {
      this.decode, closed, sent := decode, false, [];
      delivered, polls, broken := [], 0, false;
      new;
      server.sockets := server.sockets + [this];
    }

    ghost predicate Unused()
      reads this
    {
      sent == [] && delivered == [] && polls == 0 && !broken
    }

    /** Sends a request; the socket may fail, and the peer may have seen the request all the same. */
    method SendBinary(rid: int) returns (ok: bool)
      modifies this`closed, this`sent, this`broken
      ensures sent == old(sent) + [rid] && broken == (old(broken) || !ok)
    {
      ok := *;
      closed := *;
      sent := sent + [rid];
      broken := broken || !ok;
    }

    method ReadMessages() returns (batch: seq<Bytes>)
      modifies this`closed, this`delivered, this`polls
      ensures AnswersOnly(batch, sent, decode)
      ensures delivered == old(delivered) + batch && polls == old(polls) + 1
    {
      closed := *;
      assert AnswersOnly([], sent, decode);
      batch :| AnswersOnly(batch, sent, decode);
      delivered, polls := delivered + batch, polls + 1;
    }
  }

  // ---- the session -------------------------------------------------------------------------

  /** Apart from these, at most one. */
  ghost predicate AtMostOneBesides(alive: set<nat>, base: set<nat>) {
    forall a, b :: a in alive && b in alive && a !in base && b !in base ==> a == b
  }

  lemma MoreExceptions(history: seq<set<nat>>, base: set<nat>, base': set<nat>)
    requires base <= base' && forall i :: 0 <= i < |history| ==> AtMostOneBesides(history[i], base)
    ensures forall i :: 0 <= i < |history| ==> AtMostOneBesides(history[i], base')
  {
  }

  class LiveSession {
    const server: KernelServer
    const decode: Bytes -> Json
    var kid: Option<nat>
    var ws: Channel?
    /** How often no new kernel could be had. */
    ghost var failed: nat

    constructor (server: KernelServer, decode: Bytes -> Json)
      requires server.Untouched()
      ensures this.server == server && this.decode == decode && kid == None && ws == null && Valid()
    {
      this.server, this.decode, kid, ws, failed := server, decode, None, null, 0;
    }

    /** Of our kernels only the current one and those that the server would not delete can be alive,
        and at no moment so far were there two others. */
    ghost predicate Valid()
      reads this, server
    {
      && (kid.Some? ==> kid.value !in server.foreign)
      && (forall k :: k in server.alive ==> k in server.foreign || k in server.refused || kid == Some(k))
      && Tidy()
    }

    ghost predicate Tidy()
      reads server
    {
      && (server.reliable ==> server.refused == {})
      && server.foreign <= server.alive
      && (forall i :: 0 <= i < |server.history| ==>
          AtMostOneBesides(server.history[i], server.foreign + server.refused))
    }

    /** None of our kernels is alive but those that the server would not delete. */
    ghost predicate NoneLeft()
      reads server
    {
      forall k :: k in server.alive ==> k in server.foreign || k in server.refused
    }

    /** Deletes a kernel, failures being ignored. */
    method DeleteQuietly(k: nat)
      requires Tidy() && k !in server.foreign
      requires forall j :: j in server.alive ==> j in server.foreign || j in server.refused || j == k
      modifies server`alive, server`history, server`refused
      ensures Tidy() && NoneLeft() && old(server.refused) <= server.refused <= old(server.refused) + {k}
      ensures server.alive == old(server.alive) || server.alive == old(server.alive) - {k}
      ensures k in server.alive ==> k in server.refused
    {
      ghost var before := server.foreign + server.refused;
      var ok := server.Delete(k);
      MoreExceptions(old(server.history), before, server.foreign + server.refused);
    }

    /** Creates a kernel, connects, and sends the two opening messages; whatever fails after the
        creation, the new kernel is deleted again. */
    method Establish() returns (r: Option<(Channel, nat)>)
      requires Tidy() && NoneLeft()
      modifies server
      ensures Tidy() && old(server.refused) <= server.refused
      ensures r.None? ==> NoneLeft() && server.sockets == old(server.sockets)
      ensures server.willing ==> r.Some?
      ensures r.Some? ==> server.sockets == old(server.sockets) + [r.value.0]
      ensures r.Some? ==> fresh(r.value.0) && r.value.0.Unused() && r.value.0.decode == decode
      ensures r.Some? ==> r.value.1 !in server.foreign && r.value.1 in server.alive
      ensures r.Some? ==> forall k :: k in server.alive ==> k in server.foreign || k in server.refused || k == r.value.1
    {
      var created := server.Create();
      if created.None? {
        return None;
      }
      var k := created.value;
      // the address, the connection, and either of the two messages may fail
      var ok := *;
      if ok || server.willing {
        var ws := new Channel(decode, server);
        return Some((ws, k));
      }
      DeleteQuietly(k);
      r := None;
    }

    /** connect_live. */
    method Connect() returns (ok: bool)
      requires Valid() && kid == None
      modifies this`kid, this`ws, server
      ensures Valid() && old(server.refused) <= server.refused
      ensures !ok ==> Tidy() && NoneLeft() && kid == None && server.sockets == old(server.sockets)
      ensures ok ==> server.sockets == old(server.sockets) + [ws]
      ensures server.willing ==> ok
      ensures ok ==> ws != null && fresh(ws) && ws.Unused() && ws.decode == decode
      ensures ok ==> kid.Some? && kid.value in server.alive
    {
      var r := Establish();
      match r {
        case None => ok := false;
        case Some((w, k)) =>
          ws, kid := w, Some(k);
          ok := true;
      }
    }

    /** The dead kernel is deleted before a fresh one is stood up. */
    method Reconnect() returns (r: Option<Channel>)
      requires Valid()
      modifies this, server
      ensures Valid() && old(server.refused) <= server.refused
      ensures r.None? ==> NoneLeft() && ws == old(ws) && kid == old(kid) && failed == old(failed) + 1 && !server.willing
      ensures server.sockets == old(server.sockets) + if r.Some? then [r.value] else []
      ensures r.Some? ==> fresh(r.value) && ws == r.value && r.value.Unused() && r.value.decode == decode
      ensures r.Some? ==> kid.Some? && kid.value in server.alive && failed == old(failed)
    {
      if kid.Some? {
        DeleteQuietly(kid.value);
      }
      var e := Establish();
      match e {
        case None =>
          failed := failed + 1;
          r := None;
        case Some((w, k)) =>
          ws, kid := w, Some(k);
          r := Some(w);
      }
    }

    method Cleanup()
      requires Valid()
      modifies server`alive, server`history, server`refused
      ensures Valid() && Tidy() && NoneLeft() && old(server.refused) <= server.refused
      ensures server.alive <= old(server.alive)
    {
      if kid.Some? {
        DeleteQuietly(kid.value);
      }
    }
  }
}

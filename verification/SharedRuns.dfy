/** Runs of the caching layer beside others: reads, stats, writes and listings in any order, others creating,
    deleting and rewriting files in between and between any two requests. */
module SharedRuns {
  import opened Basics
  import opened RemoteTree
  import opened RemoteFs
  import opened BlockStore
  import opened VfsCache
  import opened CachedRuns

  datatype Event = Act(op: Op) | Others

  predicate CanonicalEvent(e: Event) {
    e.Act? ==> CanonicalOp(e.op)
  }

  /** The event asks for the attributes of the path at this moment of the cache's clock. */
  predicate AsksAt(e: Event, path: string, at: real) {
    e == Act(StatOf(path, at))
  }

  /** None of the events asked for the attributes of the path within the last time to live. */
  ghost predicate AskedLongAgo(events: seq<Event>, path: string, now: real, ttl: real) {
    forall i, at :: 0 <= i < |events| && AsksAt(events[i], path, at) ==> at + ttl <= now
  }

  /** Every entry was there from the start or was remembered by one of the events. */
  ghost predicate FromEvents(attr0: map<string, Attr>, attr: map<string, Attr>, events: seq<Event>, ttl: real) {
    forall q :: q in attr ==>
        (q in attr0 && attr[q] == attr0[q])
        || exists i, at :: 0 <= i < |events| && AsksAt(events[i], q, at) && attr[q].expiry == at + ttl
  }

  lemma NothingRemembered(attr: map<string, Attr>, ttl: real)
    ensures FromEvents(attr, attr, [], ttl)
  {
  }

  lemma OneMoreEvent(
    attr0: map<string, Attr>, attr1: map<string, Attr>, attr2: map<string, Attr>, events: seq<Event>, e: Event,
    ttl: real)
    requires FromEvents(attr0, attr1, events, ttl)
    requires if e.Act? then Remembers(attr1, attr2, e.op, ttl) else attr2 == attr1
    ensures FromEvents(attr0, attr2, events + [e], ttl)
  {
    var longer := events + [e];
    forall q | q in attr2 && !(q in attr0 && attr2[q] == attr0[q])
      ensures exists i, at :: 0 <= i < |longer| && AsksAt(longer[i], q, at) && attr2[q].expiry == at + ttl
    {
      if q in attr1 && attr2[q] == attr1[q] {
        var i, at :| 0 <= i < |events| && AsksAt(events[i], q, at) && attr1[q].expiry == at + ttl;
        assert longer[i] == events[i];
      } else {
        assert longer[|events|] == e && AsksAt(e, q, e.op.now);
      }
    }
  }

  lemma NotFresh(
    attr0: map<string, Attr>, attr: map<string, Attr>, events: seq<Event>, ttl: real, path: string, now: real)
    requires FromEvents(attr0, attr, events, ttl) && AskedLongAgo(events, path, now, ttl)
    requires path in attr0 ==> attr0[path].expiry <= now
    ensures path in attr ==> attr[path].expiry <= now
  {
  }

  /** Any number of operations, others acting in between: every attribute and every listing served was given by
      the server less than one time to live before; and a path all of whose cached blocks were cached under a
      stamp stays one, unless the server says meanwhile that it is not there. */
  method SharedRun(c: CachingFS, events: seq<Event>) returns (replies: seq<Reply>)
    requires c.Valid() && forall i :: 0 <= i < |events| ==> CanonicalEvent(events[i])
    modifies c, c.fs
    ensures c.Valid() && |replies| == |events| && old(c.fs.log) <= c.fs.log
    ensures StaysGuarded(old(c.blocks), old(c.unguarded), c.blocks, c.unguarded, c.fs.log[|old(c.fs.log)|..])
    ensures FromEvents(old(c.attr), c.attr, events, c.attrTtl)
    ensures forall i :: 0 <= i < |events| && events[i].Act? ==> Timely(c.fs.log, events[i].op, replies[i], c.attrTtl)
  {
    hide StaysGuarded, Remembers, FromEvents, CachingFS.Valid, Moved, PlainStep, ListingsAfter, Timely;
    replies := [];
    ghost var log0, bs0, ung0 := c.fs.log, c.blocks, c.unguarded;
    FewerGuarded(bs0, bs0, ung0, []);
    assert log0[|log0|..] == [];
    NothingRemembered(c.attr, c.attrTtl);
    for i := 0 to |events|
      invariant c.Valid() && |replies| == i && log0 <= c.fs.log
      invariant StaysGuarded(bs0, ung0, c.blocks, c.unguarded, c.fs.log[|log0|..])
      invariant FromEvents(old(c.attr), c.attr, events[..i], c.attrTtl)
      invariant forall k :: 0 <= k < i && events[k].Act? ==> Timely(c.fs.log, events[k].op, replies[k], c.attrTtl)
    {
      ghost var log1, bs1, ung1, attr1 := c.fs.log, c.blocks, c.unguarded, c.attr;
      var reply := Done(Ok(()));
      match events[i] {
        case Act(op) =>
          reply := Step(c, op);
        case Others =>
          OthersAct(c);
          FewerGuarded(bs1, bs1, ung1, c.fs.log[|log1|..]);
      }
      forall k | 0 <= k < i && events[k].Act? ensures Timely(c.fs.log, events[k].op, replies[k], c.attrTtl) {
        StaysTimely(log1, c.fs.log, events[k].op, replies[k], c.attrTtl);
      }
      GuardedOn(bs0, ung0, bs1, ung1, c.blocks, c.unguarded, log1[|log0|..], c.fs.log[|log1|..]);
      assert c.fs.log[|log0|..] == log1[|log0|..] + c.fs.log[|log1|..];
      OneMoreEvent(old(c.attr), attr1, c.attr, events[..i], events[i], c.attrTtl);
      assert events[..i] + [events[i]] == events[..i + 1];
      replies := replies + [reply];
    }
    assert events[..|events|] == events;
  }

  /** The path has been there throughout, as far as the server was asked: since the cache was made, or since
      the moment `log0` at which nothing of it was cached. */
  ghost predicate ThereThroughout(c: CachingFS, path: string, bs0: Lru, log0: seq<Sighting>)
    reads c.fs`log
  {
    || c.AlwaysThere(path)
    || ((forall b :: b in bs0 ==> b.path != path) && log0 <= c.fs.log && !SaidAbsent(c.fs.log[|log0|..], path))
  }

  /** After any run, a stat that reaches the server leaves only the file's own blocks, if the path has been
      there throughout. It reaches the server if the path's attributes were not asked for within the last time
      to live. */
  method RunThenStat(c: CachingFS, events: seq<Event>, path: string, now: real)
    returns (replies: seq<Reply>, st: Result<Stat, FsError>)
    requires c.Valid() && Canonical(path) && forall i :: 0 <= i < |events| ==> CanonicalEvent(events[i])
    modifies c, c.fs
    ensures c.Valid() && |replies| == |events| && old(c.fs.log) <= c.fs.log
    ensures !old(c.FreshEntry(path, now)) && AskedLongAgo(events, path, now, c.attrTtl) ==>
              && HonestStat(c.fs.tree, path, st) && (c.fs.reliable ==> st == TrueStat(c.fs.tree, path))
              && (st.Ok? && IsFile(c.fs.tree, path) && ThereThroughout(c, path, old(c.blocks), old(c.fs.log)) ==>
                    ExactPath(c.blocks, path, c.fs.tree[path].content))
  {
    hide CachingFS.Valid, StaysGuarded, FromEvents, SaidAbsent, Guarded, ExactPath, Moved, AfterStat, HonestStat,
        TrueStat;
    ghost var log0, bs0, ung0 := c.fs.log, c.blocks, c.unguarded;
    replies := SharedRun(c, events);
    ghost var log1, bs1, stamps1 := c.fs.log, c.blocks, c.blockMtime;
    if !old(c.FreshEntry(path, now)) && AskedLongAgo(events, path, now, c.attrTtl) {
      NotFresh(old(c.attr), c.attr, events, c.attrTtl, path, now);
    }
    if forall b :: b in bs0 ==> b.path != path {
      NoneIsGuarded(bs0, ung0, path);
      GuardedSoFar(bs0, ung0, bs1, c.unguarded, log1[|log0|..], path);
    }
    st := c.Stat(path, now);
    if st.Ok? && Guarded(bs1, c.unguarded, path) {
      GuardedAfterStat(bs1, stamps1, c.unguarded, path, st.value.mtime);
    }
    if SaidAbsent(log1[|log0|..], path) {
      SaidBefore(log1, c.fs.log, |log0|, path);
    }
  }

  lemma NoneIsGuarded(bs: Lru, ung: set<Key>, path: string)
    requires forall b :: b in bs ==> b.path != path
    ensures Guarded(bs, ung, path)
  {
  }

  lemma GuardedSoFar(bs0: Lru, ung0: set<Key>, bs: Lru, ung: set<Key>, more: seq<Sighting>, path: string)
    requires StaysGuarded(bs0, ung0, bs, ung, more) && Guarded(bs0, ung0, path)
    ensures !SaidAbsent(more, path) ==> Guarded(bs, ung, path)
  {
  }

  /** ... and a read behind it, during which the file holds still, is exact. */
  method RunStatRead(c: CachingFS, events: seq<Event>, path: string, now: real, offset: nat, length: int)
    returns (replies: seq<Reply>, st: Result<Stat, FsError>, r: Result<Bytes, FsError>)
    requires c.Valid() && Canonical(path) && forall i :: 0 <= i < |events| ==> CanonicalEvent(events[i])
    modifies c, c.fs
    ensures c.Valid() && |replies| == |events| && old(c.fs.log) <= c.fs.log
    ensures !old(c.FreshEntry(path, now)) && AskedLongAgo(events, path, now, c.attrTtl)
            && st.Ok? && st.value.kind == FileKind && IsFile(c.fs.tree, path) && c.fs.tree[path].mtime == st.value.mtime
            && ThereThroughout(c, path, old(c.blocks), old(c.fs.log)) ==>
              && HonestRead(c.fs.tree, path, offset, length, r)
              && (c.fs.reliable ==> r == TrueRead(c.fs.tree, path, offset, length))
  {
    hide CachingFS.Valid, SaidAbsent, ExactPath, Moved, AskedLongAgo, KeptBy, StaysGuarded, BlocksAfter, Looked, Slice;
    replies, st := RunThenStat(c, events, path, now);
    ghost var t1, used1, log1 := c.fs.tree, c.fs.used, c.fs.log;
    c.ValidStamps();
    assert IsFile(t1, path) ==> (path, t1[path].mtime) in StampsOf(t1);
    r := c.Read(path, offset, length);
    ThereBefore(c, path, old(c.blocks), old(c.fs.log), log1);
    if IsFile(c.fs.tree, path) && (path, c.fs.tree[path].mtime) in used1 {
      OldStamp(t1, c.fs.tree, used1, path);
    }
  }

  /** What the shorter log already denies the longer one does. */
  lemma ThereBefore(c: CachingFS, path: string, bs0: Lru, log0: seq<Sighting>, log1: seq<Sighting>)
    requires log0 <= log1 <= c.fs.log
    ensures c.AlwaysThere(path) && c.born <= |log1| ==> !SaidAbsent(log1[c.born..], path)
    ensures !SaidAbsent(c.fs.log[|log0|..], path) ==> !SaidAbsent(log1[|log0|..], path)
  {
    hide SaidAbsent;
    if c.born <= |log1| && SaidAbsent(log1[c.born..], path) {
      SaidBefore(log1, c.fs.log, c.born, path);
    }
    if SaidAbsent(log1[|log0|..], path) {
      SaidBefore(log1, c.fs.log, |log0|, path);
    }
  }
}

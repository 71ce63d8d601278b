/** The caching layer in front of the remote file system: an LRU block cache with
    read-ahead, attribute and directory caches with a time to live, a negative
    cache, and invalidation on writes and on a changed modification stamp. */
module VfsCache {
  import opened Basics
  import opened RemoteTree
  import opened RemoteFs
  import opened BlockStore

  /** A cached stat answer; None records that the path was not there. */
  datatype Attr = Attr(st: Option<Stat>, expiry: real)

  datatype Listing = Listing(entries: seq<DirEntry>, expiry: real)

  /** Which block: its path and its number. */
  type Key = (string, nat)

  // ---- what the cached state means ----------------------------------------

  /** A cached block may be stale, but then the recorded stamp of its path shows it: if that is
      still the file's stamp, the block is the file's own. Except for a block in `ung`: it was
      cached while its path had no stamp. */
  ghost predicate CoherentBlock(b: Block, stamps: map<string, real>, t: Tree) {
    && b.path in stamps
    && (IsFile(t, b.path) && t[b.path].mtime == stamps[b.path] ==> b.data == BlockOf(t[b.path].content, b.no))
  }

  ghost predicate Coherent(bs: Lru, stamps: map<string, real>, ung: set<Key>, t: Tree) {
    forall b :: b in bs && (b.path, b.no) !in ung ==> CoherentBlock(b, stamps, t)
  }

  /** Recorded and cached stamps are stamps the path has had. */
  ghost predicate Stamped(stamps: map<string, real>, attr: map<string, Attr>, used: Stamps) {
    && (forall p :: p in stamps ==> (p, stamps[p]) in used)
    && (forall p :: p in attr && attr[p].st.Some? ==> (p, attr[p].st.value.mtime) in used)
  }

  /** What an entry answers while it has not expired. */
  function Answer(a: Attr): Result<Stat, FsError> {
    match a.st
    case Some(st) => Ok(st)
    case None => Err(NotFound)
  }

  /** The entries after the server has answered; a refusal is not remembered. */
  function Noted(attr: map<string, Attr>, p: string, r: Result<Stat, FsError>, expiry: real): map<string, Attr> {
    match r
    case Ok(st) => attr[p := Attr(Some(st), expiry)]
    case Err(NotFound) => attr[p := Attr(None, expiry)]
    case Err(Refused) => attr
  }

  ghost predicate ExactAttr(attr: map<string, Attr>, t: Tree) {
    forall p :: p in attr ==> HonestKindAndSize(t, p, Answer(attr[p]))
  }

  /** Every entry was given by the server exactly one time-to-live before it expires. */
  ghost predicate Sighted(attr: map<string, Attr>, dirs: map<string, Listing>, ttl: real, log: seq<Sighting>) {
    && (forall p :: p in attr ==> exists s :: s in log && IsStatSighting(s, p, attr[p], ttl))
    && (forall p :: p in dirs ==> exists s :: s in log && IsListingSighting(s, p, dirs[p], ttl))
  }

  ghost predicate IsStatSighting(s: Sighting, p: string, a: Attr, ttl: real) {
    s.SawStat? && s.path == p && s.reply == a.st && s.at + ttl == a.expiry
  }

  ghost predicate IsListingSighting(s: Sighting, p: string, d: Listing, ttl: real) {
    s.SawListing? && s.path == p && s.entries == d.entries && s.at + ttl == d.expiry
  }

  /** Everything the cached state says about the server: always coherent, and exact
      when nobody else changes the server. */
  ghost predicate Faithful(
    bs: Lru, stamps: map<string, real>, ung: set<Key>, attr: map<string, Attr>, t: Tree, used: Stamps, exclusive: bool)
  {
    && Coherent(bs, stamps, ung, t) && Stamped(stamps, attr, used)
    && (exclusive ==> ung == {} && Exact(bs, t) && ExactAttr(attr, t))
  }

  // ---- others act, the cached state keeps its meaning ----------------------

  /** The heart of coherence: because a new or rewritten file shows a stamp its path never
      had, a recorded stamp cannot come back after a change. */
  lemma MoveKeepsFaithful(
    bs: Lru, stamps: map<string, real>, ung: set<Key>, attr: map<string, Attr>, t: Tree, t': Tree, used: Stamps,
    used': Stamps, exclusive: bool)
    requires Faithful(bs, stamps, ung, attr, t, used, exclusive)
    requires Moved(t, t', used) && used <= used' && (exclusive ==> t' == t)
    ensures Faithful(bs, stamps, ung, attr, t', used', exclusive)
  {
    forall b | b in bs && (b.path, b.no) !in ung ensures CoherentBlock(b, stamps, t') {
      assert CoherentBlock(b, stamps, t);
      if IsFile(t', b.path) && t'[b.path].mtime == stamps[b.path] {
        OldStamp(t, t', used, b.path);
      }
    }
  }

  lemma StampWasShown(
    bs: Lru, stamps: map<string, real>, ung: set<Key>, attr: map<string, Attr>, t: Tree, used: Stamps, exclusive: bool,
    p: string)
    requires Faithful(bs, stamps, ung, attr, t, used, exclusive)
    ensures p in stamps ==> (p, stamps[p]) in used
  {
  }

  /** The blocks whose path had no stamp when they were cached, one more having been cached. */
  function Marked(ung: set<Key>, stamps: map<string, real>, b: Block): set<Key> {
    if b.path in stamps then ung - {(b.path, b.no)} else ung + {(b.path, b.no)}
  }

  /** What is in the cache after a block was stored. */
  lemma StoreMembers(bs: Lru, max: int, b: Block)
    ensures forall c :: c in Store(bs, max, b) ==> c == b || (c in bs && (c.path, c.no) != (b.path, b.no))
  {
    var rest := Drop(bs, OneBlock(b.path, b.no));
    forall c | c in Store(bs, max, b) ensures c == b || (c in bs && (c.path, c.no) != (b.path, b.no)) {
      SuffixMember(Evict(rest + [b], max), rest + [b], c);
      assert c == b || c in rest;
    }
  }

  lemma StoreKeepsFaithful(
    bs: Lru, max: int, stamps: map<string, real>, ung: set<Key>, attr: map<string, Attr>, t: Tree, used: Stamps,
    exclusive: bool, b: Block)
    requires Faithful(bs, stamps, ung, attr, t, used, exclusive)
    requires IsFile(t, b.path) && (exclusive ==> b.path in stamps)
    requires exclusive || (b.path in stamps && t[b.path].mtime == stamps[b.path]) ==>
        b.data == BlockOf(t[b.path].content, b.no)
    ensures Faithful(Store(bs, max, b), stamps, Marked(ung, stamps, b), attr, t, used, exclusive)
  {
    StoreMembers(bs, max, b);
    hide Store, BlockOf, HonestKindAndSize;
    var ung' := Marked(ung, stamps, b);
    forall c | c in Store(bs, max, b) && (c.path, c.no) !in ung' ensures CoherentBlock(c, stamps, t) {
      if c != b {
        assert (c.path, c.no) !in ung;
      }
    }
  }

  lemma TouchKeepsFaithful(
    bs: Lru, stamps: map<string, real>, ung: set<Key>, attr: map<string, Attr>, t: Tree, used: Stamps, exclusive: bool,
    b: Block)
    requires Faithful(bs, stamps, ung, attr, t, used, exclusive) && b in bs
    ensures Faithful(Drop(bs, OneBlock(b.path, b.no)) + [b], stamps, ung, attr, t, used, exclusive)
  {
  }

  lemma StampKeepsFaithful(
    bs: Lru, stamps: map<string, real>, ung: set<Key>, attr: map<string, Attr>, t: Tree, used: Stamps, exclusive: bool,
    p: string, m: real)
    requires Faithful(bs, stamps, ung, attr, t, used, exclusive)
    requires p !in stamps && (p, m) in used
    ensures Faithful(bs, stamps[p := m], ung, attr, t, used, exclusive)
  {
  }

  /** Forgetting cached state keeps what is left meaningful. */
  lemma ForgetKeepsFaithful(
    bs: Lru, stamps: map<string, real>, ung: set<Key>, attr: map<string, Attr>, t: Tree, used: Stamps, exclusive: bool,
    bs': Lru, stamps': map<string, real>, attr': map<string, Attr>)
    requires Faithful(bs, stamps, ung, attr, t, used, exclusive)
    requires forall b :: b in bs' ==> b in bs && (b.path in stamps ==> b.path in stamps')
    requires stamps'.Keys <= stamps.Keys && forall p :: p in stamps' ==> stamps'[p] == stamps[p]
    requires attr'.Keys <= attr.Keys && forall p :: p in attr' ==> attr'[p] == attr[p]
    ensures Faithful(bs', stamps', ung, attr', t, used, exclusive)
  {
  }

  /** A new attribute entry that is true of the tree. */
  lemma AttrKeepsFaithful(
    bs: Lru, stamps: map<string, real>, ung: set<Key>, attr: map<string, Attr>, t: Tree, used: Stamps, exclusive: bool,
    p: string, a: Attr)
    requires Faithful(bs, stamps, ung, attr, t, used, exclusive)
    requires HonestStat(t, p, Answer(a)) && StampsOf(t) <= used
    ensures Faithful(bs, stamps, ung, attr[p := a], t, used, exclusive)
  {
  }

  /** Every cached block of the path was cached while the path had a stamp. */
  ghost predicate Guarded(bs: Lru, ung: set<Key>, p: string) {
    forall b :: b in bs && b.path == p ==> (b.path, b.no) !in ung
  }

  /** After a stat that reached the server the surviving blocks of a file are its own. */
  lemma FreshStampMeansExact(
    bs: Lru, stamps: map<string, real>, ung: set<Key>, attr: map<string, Attr>, t: Tree, used: Stamps, exclusive: bool,
    p: string)
    requires Faithful(bs, stamps, ung, attr, t, used, exclusive) && Guarded(bs, ung, p)
    requires IsFile(t, p) && (p in stamps ==> stamps[p] == t[p].mtime)
    ensures ExactPath(bs, p, t[p].content)
  {
    forall b | b in bs && b.path == p ensures b.data == BlockOf(t[p].content, b.no) {
      assert CoherentBlock(b, stamps, t);
    }
  }

  /** Nothing is cached at or below these paths. */
  ghost predicate Clear(
    bs: Lru, stamps: map<string, real>, attr: map<string, Attr>, p1: string, p2: string)
  {
    && (forall b :: b in bs ==> !AtOrBelow(b.path, p1) && !AtOrBelow(b.path, p2))
    && (forall q :: q in stamps || q in attr ==> !AtOrBelow(q, p1) && !AtOrBelow(q, p2))
  }

  /** A change confined to two subtrees about which nothing is cached. */
  lemma ChangeKeepsFaithful(
    bs: Lru, stamps: map<string, real>, ung: set<Key>, attr: map<string, Attr>, t: Tree, t': Tree, used: Stamps,
    used': Stamps,
    exclusive: bool, p1: string, p2: string)
    requires Faithful(bs, stamps, ung, attr, t, used, exclusive) && used <= used'
    requires Clear(bs, stamps, attr, p1, p2)
    requires forall q :: !AtOrBelow(q, p1) && !AtOrBelow(q, p2) ==> SameNode(t, t', q)
    ensures Faithful(bs, stamps, ung, attr, t', used', exclusive)
  {
    forall b | b in bs
      ensures (b.path, b.no) in ung || CoherentBlock(b, stamps, t')
      ensures exclusive ==> IsFile(t', b.path) && b.data == BlockOf(t'[b.path].content, b.no)
    {
      assert (b.path, b.no) in ung || CoherentBlock(b, stamps, t);
      assert SameNode(t, t', b.path);
    }
    forall q | exclusive && q in attr ensures HonestKindAndSize(t', q, Answer(attr[q])) {
      assert HonestKindAndSize(t, q, Answer(attr[q])) && SameNode(t, t', q);
    }
  }

  /** What is listed are directories. */
  ghost predicate Listable(dirs: map<string, Listing>, t: Tree) {
    forall q :: q in dirs ==> IsDirectory(t, q)
  }

  lemma ChangeKeepsListable(dirs: map<string, Listing>, t: Tree, t': Tree, p1: string, p2: string)
    requires Listable(dirs, t) && forall q :: q in dirs ==> !AtOrBelow(q, p1) && !AtOrBelow(q, p2)
    requires forall q :: !AtOrBelow(q, p1) && !AtOrBelow(q, p2) ==> SameNode(t, t', q)
    ensures Listable(dirs, t')
  {
    hide AtOrBelow;
    forall q | q in dirs ensures IsDirectory(t', q) {
      assert SameNode(t, t', q);
    }
  }

  /** Everything a cache holds. */
  datatype Cached = Cached(
    blocks: Lru, stamps: map<string, real>, readEnds: map<string, nat>, attr: map<string, Attr>,
    dirs: map<string, Listing>)

  function Outside<T>(m: map<string, T>, path: string): map<string, T> {
    map q | q in m && !AtOrBelow(q, path) :: m[q]
  }

  function Without(s: Cached, path: string): Cached {
    Cached(
      Drop(Drop(s.blocks, OnePath(path)), Subtree(path)), Outside(s.stamps, path), Outside(s.readEnds, path),
      Outside(s.attr, path), Outside(s.dirs, path))
  }

  /** Nothing at or below the path is left in any of the stores, and everything else is as it was. */
  lemma WithoutMeans(s: Cached, path: string)
    ensures
      var s' := Without(s, path);
      && (forall b :: b in s'.blocks <==> b in s.blocks && !AtOrBelow(b.path, path))
      && (forall q :: q in s'.stamps <==> q in s.stamps && !AtOrBelow(q, path))
      && (forall q :: q in s'.readEnds <==> q in s.readEnds && !AtOrBelow(q, path))
      && (forall q :: q in s'.attr <==> q in s.attr && !AtOrBelow(q, path))
      && (forall q :: q in s'.dirs <==> q in s.dirs && !AtOrBelow(q, path))
      && s'.stamps.Items <= s.stamps.Items && s'.readEnds.Items <= s.readEnds.Items
      && s'.attr.Items <= s.attr.Items && s'.dirs.Items <= s.dirs.Items
  {
    hide Below, Drop;
    OutsideIsPart(s.stamps, path);
    OutsideIsPart(s.readEnds, path);
    OutsideIsPart(s.attr, path);
    OutsideIsPart(s.dirs, path);
    forall b ensures b in Without(s, path).blocks <==> b in s.blocks && !AtOrBelow(b.path, path) {
      assert AtOrBelow(b.path, path) <==> Picks(OnePath(path), b) || Picks(Subtree(path), b);
    }
  }

  lemma OutsideIsPart<T>(m: map<string, T>, path: string)
    ensures forall q :: q in Outside(m, path) <==> q in m && !AtOrBelow(q, path)
    ensures Outside(m, path).Items <= m.Items
  {
    hide AtOrBelow;
    var part := Outside(m, path);
    forall x | x in part.Items ensures x in m.Items {
      assert x.0 in m && m[x.0] == x.1;
    }
  }

  /** A longer log vouches for all that the shorter one vouched for. */
  lemma MoreSighted(
    attr: map<string, Attr>, dirs: map<string, Listing>, ttl: real, log: seq<Sighting>, more: seq<Sighting>)
    requires Sighted(attr, dirs, ttl, log)
    ensures Sighted(attr, dirs, ttl, log + more)
  {
    hide IsStatSighting, IsListingSighting;
    forall p | p in attr ensures exists x :: x in log + more && IsStatSighting(x, p, attr[p], ttl) {
      var x :| x in log && IsStatSighting(x, p, attr[p], ttl);
      assert x in log + more;
    }
    forall p | p in dirs ensures exists x :: x in log + more && IsListingSighting(x, p, dirs[p], ttl) {
      var x :| x in log && IsListingSighting(x, p, dirs[p], ttl);
      assert x in log + more;
    }
  }

  /** A sighting and the entry it justifies. */
  lemma StatSighted(
    attr: map<string, Attr>, dirs: map<string, Listing>, ttl: real, log: seq<Sighting>, s: Sighting)
    requires Sighted(attr, dirs, ttl, log) && s.SawStat? && s in log
    ensures Sighted(attr[s.path := Attr(s.reply, s.at + ttl)], dirs, ttl, log)
  {
    assert IsStatSighting(s, s.path, Attr(s.reply, s.at + ttl), ttl);
    hide IsStatSighting, IsListingSighting;
  }

  lemma ListingSighted(
    attr: map<string, Attr>, dirs: map<string, Listing>, ttl: real, log: seq<Sighting>, s: Sighting)
    requires Sighted(attr, dirs, ttl, log) && s.SawListing? && s in log
    ensures Sighted(attr, dirs[s.path := Listing(s.entries, s.at + ttl)], ttl, log)
  {
    assert IsListingSighting(s, s.path, Listing(s.entries, s.at + ttl), ttl);
    hide IsStatSighting, IsListingSighting;
  }

  lemma ForgetKeepsSighted(
    attr: map<string, Attr>, dirs: map<string, Listing>, ttl: real, log: seq<Sighting>,
    attr': map<string, Attr>, dirs': map<string, Listing>)
    requires Sighted(attr, dirs, ttl, log)
    requires attr'.Keys <= attr.Keys && forall p :: p in attr' ==> attr'[p] == attr[p]
    requires dirs'.Keys <= dirs.Keys && forall p :: p in dirs' ==> dirs'[p] == dirs[p]
    ensures Sighted(attr', dirs', ttl, log)
  {
  }

  /** The cached blocks of one path are those of this content. */
  ghost predicate ExactPath(bs: Lru, path: string, content: Bytes) {
    forall b :: b in bs && b.path == path ==> b.data == BlockOf(content, b.no)
  }

  lemma AccessKeepsExactPath(bs: Lru, max: int, path: string, content: Bytes, no: nat)
    requires ExactPath(bs, path, content)
    ensures ExactPath(Access(bs, max, Block(path, no, BlockOf(content, no))), path, content)
  {
    var b := Block(path, no, BlockOf(content, no));
    StoreMembers(bs, max, b);
    hide Store;
  }

  lemma GuardedAfterStat(bs: Lru, stamps: map<string, real>, ung: set<Key>, p: string, m: real)
    requires Guarded(bs, ung, p)
    ensures Guarded(AfterStat(bs, stamps, p, m), ung, p)
  {
  }

  // ---- the blocks that others may still make stale, exactly ------------------

  /** The cached blocks after a stat that found the path with stamp `m`. */
  function AfterStat(bs: Lru, stamps: map<string, real>, p: string, m: real): Lru {
    if p in stamps && stamps[p] != m then Drop(bs, OnePath(p)) else bs
  }

  /** Whatever others do next, a stat that then finds a file leaves none but the file's own blocks of it. */
  ghost predicate StaysExact(bs: Lru, stamps: map<string, real>, t: Tree, used: Stamps, p: string) {
    forall t': Tree :: Moved(t, t', used) && IsFile(t', p) ==>
                         ExactPath(AfterStat(bs, stamps, p, t'[p].mtime), p, t'[p].content)
  }

  /** A stamp nobody has shown yet. */
  lemma {:induction false} NewStamp(used: Stamps, p: string) returns (m: real)
    ensures forall x :: x in used ==> x.1 < m
    decreases |used|
  {
    if used == {} {
      m := 0.0;
    } else {
      var x :| x in used;
      var above := NewStamp(used - {x}, p);
      m := if above > x.1 then above else x.1 + 1.0;
      assert forall y :: y in used ==> y == x || y in used - {x};
    }
  }

  /** A file whose block is not this one. */
  lemma OtherContent(data: Bytes, no: nat) returns (content: Bytes)
    ensures BlockOf(content, no) != data
  {
    if data == [] {
      content := seq(no * BLOCK + 1, _ => 0);
      assert |BlockOf(content, no)| == 1;
    } else {
      content := [];
    }
  }

  /** A cached block without a stamp is not safe: somebody rewrites the file, the stat records the
      new stamp, and the old block stays. */
  lemma UnstampedGoesStale(bs: Lru, stamps: map<string, real>, t: Tree, used: Stamps, b: Block)
    requires b in bs && b.path !in stamps
    ensures !StaysExact(bs, stamps, t, used, b.path)
  {
    var m := NewStamp(used, b.path);
    var content := OtherContent(b.data, b.no);
    var t' := t[b.path := File(content, m)];
    forall q | q in t' ensures MovedNode(q, t, t'[q], used) {
    }
    assert Moved(t, t', used) && AfterStat(bs, stamps, b.path, m) == bs;
    assert !ExactPath(bs, b.path, content);
  }

  /** The invariant is exactly what it takes: whatever others do, a stat leaves only a file's own
      blocks if and only if each of its blocks is coherent now. */
  lemma CoherentExactly(bs: Lru, stamps: map<string, real>, t: Tree, used: Stamps, p: string)
    requires p in stamps ==> (p, stamps[p]) in used
    ensures StaysExact(bs, stamps, t, used, p) <==> forall b :: b in bs && b.path == p ==> CoherentBlock(b, stamps, t)
  {
    if forall b :: b in bs && b.path == p ==> CoherentBlock(b, stamps, t) {
      forall t': Tree | Moved(t, t', used) && IsFile(t', p)
        ensures ExactPath(AfterStat(bs, stamps, p, t'[p].mtime), p, t'[p].content)
      {
        if p in stamps && stamps[p] == t'[p].mtime {
          OldStamp(t, t', used, p);
        }
      }
    } else {
      var b :| b in bs && b.path == p && !CoherentBlock(b, stamps, t);
      if p !in stamps {
        UnstampedGoesStale(bs, stamps, t, used, b);
      } else {
        NoMove(t, used);
        assert AfterStat(bs, stamps, p, t[p].mtime) == bs;
      }
    }
  }

  /** Caching a block just fetched from a file that holds still keeps every later stat safe
      exactly if its path has a stamp by then. */
  lemma GuardedExactly(
    bs: Lru, max: int, stamps: map<string, real>, ung: set<Key>, attr: map<string, Attr>, t: Tree, used: Stamps,
    exclusive: bool, b: Block)
    requires Faithful(bs, stamps, ung, attr, t, used, exclusive) && Guarded(bs, ung, b.path)
    requires IsFile(t, b.path) && b.data == BlockOf(t[b.path].content, b.no) && b in Store(bs, max, b)
    ensures StaysExact(Store(bs, max, b), stamps, t, used, b.path) <==> b.path in stamps
  {
    hide BlockOf;
    CoherentExactly(Store(bs, max, b), stamps, t, used, b.path);
    StoreMembers(bs, max, b);
    hide Store;
  }

  /** Such a run: the path is not there when its stamp is asked for, somebody creates it, its block
      is fetched, somebody rewrites it, a stat records the new stamp. The old block is served on. */
  lemma LateCreationGoesStale(max: int)
    requires max >= 1
    ensures
      var t0: Tree := map["" := Directory(0.0)];
      var t1, t2 := t0["a" := File([1], 1.0)], t0["a" := File([2], 2.0)];
      var bs := Store([], max, Block("a", 0, BlockOf(t1["a"].content, 0)));
      && HonestStat(t0, "a", Err(NotFound)) && Moved(t0, t1, StampsOf(t0)) && Moved(t1, t2, StampsOf(t0) + StampsOf(t1))
      && AfterStat(bs, map[], "a", t2["a"].mtime) == bs == [Block("a", 0, [1])] && BlockOf(t2["a"].content, 0) == [2]
  {
    var b := Block("a", 0, [1]);
    assert Total([b]) == 1;
    assert BlockOf([1], 0) == [1] && BlockOf([2], 0) == [2];
    assert Drop([], OneBlock("a", 0)) + [b] == [b];
  }

  /** A block is unguarded only if the server has said at some moment that its path is not there. */
  ghost predicate Excused(ung: set<Key>, log: seq<Sighting>, born: nat)
    requires born <= |log|
  {
    forall k :: k in ung ==> SaidAbsent(log[born..], k.0)
  }

  lemma MoreExcused(ung: set<Key>, log: seq<Sighting>, born: nat, more: seq<Sighting>)
    requires born <= |log| && Excused(ung, log, born)
    ensures Excused(ung, log + more, born)
  {
    assert (log + more)[born..] == log[born..] + more;
  }

  lemma MarkedExcused(ung: set<Key>, log: seq<Sighting>, born: nat, stamps: map<string, real>, b: Block)
    requires born <= |log| && Excused(ung, log, born) && (b.path in stamps || SaidAbsent(log[born..], b.path))
    ensures Excused(Marked(ung, stamps, b), log, born)
  {
  }

  lemma SaidSince(log: seq<Sighting>, born: nat, later: nat, p: string)
    requires born <= later <= |log| && SaidAbsent(log[later..], p)
    ensures SaidAbsent(log[born..], p)
  {
    assert log[born..] == log[born..later] + log[later..];
  }

  lemma SaidBefore(log0: seq<Sighting>, log: seq<Sighting>, born: nat, p: string)
    requires born <= |log0| && log0 <= log && SaidAbsent(log0[born..], p)
    ensures SaidAbsent(log[born..], p)
  {
    assert log[born..] == log0[born..] + log[|log0|..];
  }

  lemma ExcusedGuards(bs: Lru, ung: set<Key>, log: seq<Sighting>, born: nat, p: string)
    requires born <= |log| && Excused(ung, log, born) && !SaidAbsent(log[born..], p)
    ensures Guarded(bs, ung, p)
  {
    hide SaidAbsent;
  }

  // ---- what reading does to blocks that were good ------------------------------

  /** From one moment to another, `p` being the path that is read: no block becomes unguarded but one of
      `p`, and none if `p` has a stamp; where every block was guarded every one still is, but for `p` without
      a stamp; and a file that is what it was and had only its own blocks still has. */
  ghost predicate KeptBy(
    bs0: Lru, ung0: set<Key>, t0: Tree, bs: Lru, ung: set<Key>, t: Tree, p: string, stamped: bool)
  {
    && (forall k :: k in ung && k !in ung0 ==> k.0 == p && !stamped)
    && (forall q :: Guarded(bs0, ung0, q) && (q == p ==> stamped) ==> Guarded(bs, ung, q))
    && StaysOwn(bs0, t0, bs, t)
  }

  /** Where every block was guarded every one still is, unless the server has said meanwhile that the path
      is not there. */
  ghost predicate StaysGuarded(bs0: Lru, ung0: set<Key>, bs: Lru, ung: set<Key>, more: seq<Sighting>) {
    forall q :: Guarded(bs0, ung0, q) && !SaidAbsent(more, q) ==> Guarded(bs, ung, q)
  }

  lemma FewerGuarded(bs0: Lru, bs: Lru, ung: set<Key>, more: seq<Sighting>)
    requires forall b :: b in bs ==> b in bs0
    ensures StaysGuarded(bs0, ung, bs, ung, more)
  {
  }

  lemma GuardedOn(
    bs0: Lru, ung0: set<Key>, bs1: Lru, ung1: set<Key>, bs2: Lru, ung2: set<Key>, a: seq<Sighting>, b: seq<Sighting>)
    requires StaysGuarded(bs0, ung0, bs1, ung1, a) && StaysGuarded(bs1, ung1, bs2, ung2, b)
    ensures StaysGuarded(bs0, ung0, bs2, ung2, a + b)
  {
    hide Guarded;
    forall q | Guarded(bs0, ung0, q) && !SaidAbsent(a + b, q) ensures Guarded(bs2, ung2, q) {
      assert forall s :: s in a || s in b ==> s in a + b;
    }
  }

  lemma KeptStaysGuarded(
    bs0: Lru, ung0: set<Key>, t0: Tree, bs: Lru, ung: set<Key>, t: Tree, p: string, stamped: bool, more: seq<Sighting>)
    requires KeptBy(bs0, ung0, t0, bs, ung, t, p, stamped)
    requires stamped || SaidAbsent(more, p) || (bs == bs0 && ung == ung0)
    ensures StaysGuarded(bs0, ung0, bs, ung, more)
    ensures ung <= ung0 || SaidAbsent(more, p)
    ensures stamped ==> ung <= ung0
  {
  }

  ghost predicate StaysOwn(bs0: Lru, t0: Tree, bs: Lru, t: Tree) {
    forall q :: SameFile(t0, t, q) && ExactPath(bs0, q, t0[q].content) ==> ExactPath(bs, q, t[q].content)
  }

  lemma FewerKept(bs0: Lru, ung: set<Key>, t0: Tree, bs: Lru, t: Tree, p: string, stamped: bool)
    requires forall b :: b in bs ==> b in bs0
    ensures KeptBy(bs0, ung, t0, bs, ung, t, p, stamped)
  {
  }

  lemma StoreKept(
    bs0: Lru, max: int, stamps: map<string, real>, ung0: set<Key>, t0: Tree, t: Tree, b: Block)
    requires SameFile(t0, t, b.path) ==> b.data == BlockOf(t[b.path].content, b.no)
    ensures KeptBy(bs0, ung0, t0, Store(bs0, max, b), Marked(ung0, stamps, b), t, b.path, b.path in stamps)
  {
    StoreMembers(bs0, max, b);
    hide Store, BlockOf;
  }

  lemma KeptOn(
    bs0: Lru, ung0: set<Key>, t0: Tree, used0: Stamps, bs1: Lru, ung1: set<Key>, t1: Tree, used1: Stamps,
    bs2: Lru, ung2: set<Key>, t2: Tree, p: string, stamped: bool)
    requires StampsOf(t0) <= used0 <= used1 && Moved(t0, t1, used0) && Moved(t1, t2, used1)
    requires KeptBy(bs0, ung0, t0, bs1, ung1, t1, p, stamped) && KeptBy(bs1, ung1, t1, bs2, ung2, t2, p, stamped)
    ensures KeptBy(bs0, ung0, t0, bs2, ung2, t2, p, stamped)
  {
    hide Moved, Guarded, ExactPath, StampsOf;
    forall q | SameFile(t0, t2, q) && ExactPath(bs0, q, t0[q].content) ensures ExactPath(bs2, q, t2[q].content) {
      MoveSteady(t0, t1, t2, used0, used1, q);
    }
  }

  /** From before a read of `p` to after it, `more` being what the server has logged meanwhile: what was good is
      kept, and a block becomes unguarded only if the server said that `p` is not there, and so none does if
      the file has been there all along, or if it has a stamp. */
  ghost predicate KeptByRead(
    bs0: Lru, ung0: set<Key>, t0: Tree, bs: Lru, ung: set<Key>, t: Tree, p: string, stamped: bool,
    more: seq<Sighting>)
  {
    && KeptBy(bs0, ung0, t0, bs, ung, t, p, stamped)
    && StaysGuarded(bs0, ung0, bs, ung, more)
    && (ung <= ung0 || SaidAbsent(more, p))
    && (stamped || SameFile(t0, t, p) ==> ung <= ung0)
  }

  /** Others act while the stamp is recorded, and then blocks are fetched, or nothing is. */
  lemma ReadKeeps(
    bs0: Lru, ung0: set<Key>, t0: Tree, used0: Stamps, t1: Tree, used1: Stamps, bs: Lru, ung: set<Key>, t: Tree,
    p: string, stamped: bool, more: seq<Sighting>)
    requires StampsOf(t0) <= used0 <= used1 && Moved(t0, t1, used0) && Moved(t1, t, used1)
    requires KeptBy(bs0, ung0, t1, bs, ung, t, p, stamped)
    requires stamped || (p !in t1 && SaidAbsent(more, p)) || (bs == bs0 && ung == ung0)
    ensures Moved(t0, t, used0) && KeptByRead(bs0, ung0, t0, bs, ung, t, p, stamped, more)
    ensures SameFile(t0, t, p) ==>
              && SameFile(t0, t1, p) && SameFile(t1, t, p)
              && IsFile(t0, p) && IsFile(t1, p) && IsFile(t, p) && t[p] == t1[p] == t0[p]
  {
    hide Moved, SaidAbsent, KeptBy, StaysGuarded, StampsOf;
    FewerKept(bs0, ung0, t0, bs0, t1, p, stamped);
    MoveTransitive(t0, t1, t, used0, used1);
    KeptOn(bs0, ung0, t0, used0, bs0, ung0, t1, used1, bs, ung, t, p, stamped);
    KeptStaysGuarded(bs0, ung0, t0, bs, ung, t, p, stamped, more);
    if SameFile(t0, t, p) {
      MoveSteady(t0, t1, t, used0, used1, p);
    }
  }

  // ---- the block loop of a read ---------------------------------------------

  datatype ReadAsk = ReadAsk(path: string, offset: nat, length: nat, max: int)

  function LastBlock(a: ReadAsk): int {
    (a.offset + a.length - 1) / BLOCK
  }

  /** How many blocks a request looks at in a file of this length. */
  function Looked(offset: nat, length: nat, size: nat): int
    requires length > 0
  {
    Max(offset / BLOCK, Min((offset + length - 1) / BLOCK, size / BLOCK)) - offset / BLOCK + 1
  }

  /** Before block `no`: if the file has held still since `t0` and its blocks were its own, the
      output is what the blocks so far hold, and cache and hits are on the way to what the
      recency model says of the whole request. */
  ghost predicate Halfway(
    a: ReadAsk, t0: Tree, t: Tree, bs0: Lru, bs: Lru, hits: int, no: nat, eof: bool, out: Bytes)
  {
    SameFile(t0, t, a.path) && ExactPath(bs0, a.path, t0[a.path].content) ==>
      var content := t[a.path].content;
      var whole := ReadBlocks(bs0, a.max, a.path, content, a.offset / BLOCK, LastBlock(a));
      var rest := ReadBlocks(bs, a.max, a.path, content, no, LastBlock(a));
      && ExactPath(bs, a.path, content)
      && eof == (no > a.offset / BLOCK && |content| < no * BLOCK)
      && (no > a.offset / BLOCK + 1 ==> |content| >= (no - 1) * BLOCK)
      && out == (if eof || no > LastBlock(a) then Slice(content, a.offset, a.length) else Before(content, a.offset, no))
      && whole == if eof then (bs, hits) else (rest.0, hits + rest.1)
  }

  lemma LookedAt(offset: nat, length: nat, size: nat, no: nat)
    requires length > 0 && offset / BLOCK < no <= (offset + length - 1) / BLOCK + 1
    requires no > offset / BLOCK + 1 ==> size >= (no - 1) * BLOCK
    requires size < no * BLOCK || no == (offset + length - 1) / BLOCK + 1
    ensures no - offset / BLOCK == Looked(offset, length, size)
  {
  }

  lemma ShortBlock(content: Bytes, no: nat)
    ensures |BlockOf(content, no)| < BLOCK <==> |content| < (no + 1) * BLOCK
  {
  }

  lemma HalfwayStart(a: ReadAsk, t0: Tree, bs0: Lru)
    requires a.length > 0
    ensures Halfway(a, t0, t0, bs0, bs0, 0, a.offset / BLOCK, false, [])
  {
    hide ReadBlocks, ExactPath;
    if SameFile(t0, t0, a.path) {
      BeforeFirst(t0[a.path].content, a.offset, a.length);
    }
  }

  lemma HalfwayStep(
    a: ReadAsk, t0: Tree, used0: Stamps, t1: Tree, used1: Stamps, t2: Tree, bs0: Lru, bs1: Lru, bs2: Lru, hits1: int,
    hits2: int,
    no: nat, out: Bytes, data: Bytes)
    requires StampsOf(t0) <= used0 <= used1 && Moved(t0, t1, used0) && Moved(t1, t2, used1)
    requires a.length > 0 && a.offset / BLOCK <= no <= LastBlock(a) && no * BLOCK < a.offset + a.length
        && a.offset < (no + 1) * BLOCK
    requires Halfway(a, t0, t1, bs0, bs1, hits1, no, false, out)
    requires bs2 == Access(bs1, a.max, Block(a.path, no, data))
    requires hits2 == hits1 + if Has(bs1, a.path, no) then 1 else 0
    requires SameFile(t1, t2, a.path) && ExactPath(bs1, a.path, t1[a.path].content) ==>
        data == BlockOf(t2[a.path].content, no)
    ensures Halfway(a, t0, t2, bs0, bs2, hits2, no + 1, |data| < BLOCK, out + Piece(data, a.offset, a.length, no))
  {
    hide Moved, Access, Has, ReadBlocks, ExactPath, Piece, Before, BlockOf, StampsOf;
    if SameFile(t0, t2, a.path) && ExactPath(bs0, a.path, t0[a.path].content) {
      var content := t2[a.path].content;
      MoveSteady(t0, t1, t2, used0, used1, a.path);
      NextPiece(content, a.offset, a.length, no);
      ShortBlock(content, no);
      AccessKeepsExactPath(bs1, a.max, a.path, content, no);
      ReadBlocksNext(bs1, a.max, a.path, content, no, LastBlock(a));
    }
  }

  lemma HalfwayDone(
    a: ReadAsk, t0: Tree, t: Tree, bs0: Lru, bs: Lru, hits: int, no: nat, eof: bool, out: Bytes)
    requires a.length > 0 && Halfway(a, t0, t, bs0, bs, hits, no, eof, out)
    requires (eof || no > LastBlock(a)) && a.offset / BLOCK <= no <= LastBlock(a) + 1
    ensures SameFile(t0, t, a.path) && ExactPath(bs0, a.path, t0[a.path].content) ==>
              && out == Slice(t[a.path].content, a.offset, a.length)
              && eof == (|t[a.path].content| < (LastBlock(a) + 1) * BLOCK)
              && (bs, hits) == Apply(bs0, a.max, t, ReadOp(a.path, a.offset, a.length))
              && no - a.offset / BLOCK == Looked(a.offset, a.length, |t[a.path].content|)
              && ExactPath(bs, a.path, t[a.path].content)
  {
    hide ExactPath, Slice, ReadBlocks, Looked;
    if SameFile(t0, t, a.path) && ExactPath(bs0, a.path, t0[a.path].content) {
      LookedAt(a.offset, a.length, |t[a.path].content|, no);
      ReadBlocksEnd(bs, a.max, a.path, t[a.path].content, no, LastBlock(a));
      assert no * BLOCK <= (LastBlock(a) + 1) * BLOCK;
    }
  }

  /** No stamp but possibly that of the path has been added, and none has been changed. */
  predicate StampAdded(stamps0: map<string, real>, stamps: map<string, real>, path: string) {
    stamps == stamps0 || (path !in stamps0 && path in stamps && stamps == stamps0[path := stamps[path]])
  }

  // ---- the read-ahead loop ----------------------------------------------------

  /** Before block `no`: what is left to store leads to what read-ahead stores altogether. */
  ghost predicate AheadSoFar(t0: Tree, t: Tree, bs0: Lru, bs: Lru, max: int, path: string, from: nat, no: nat,
      end: int) {
    SameFile(t0, t, path) ==>
      ReadAhead(bs0, max, path, t[path].content, from, end) == ReadAhead(bs, max, path, t[path].content, no, end)
  }

  lemma AheadStart(t0: Tree, bs0: Lru, max: int, path: string, from: nat, end: int)
    ensures AheadSoFar(t0, t0, bs0, bs0, max, path, from, from, end)
  {
  }

  lemma AheadFetched(
    t0: Tree, used0: Stamps, t1: Tree, used1: Stamps, t2: Tree, bs0: Lru, bs1: Lru, max: int, path: string,
    from: nat, no: nat, end: int, data: Bytes)
    requires StampsOf(t0) <= used0 <= used1 && Moved(t0, t1, used0) && Moved(t1, t2, used1)
    requires no < end && !Has(bs1, path, no) && AheadSoFar(t0, t1, bs0, bs1, max, path, from, no, end)
    requires SameFile(t1, t2, path) ==> data == BlockOf(t2[path].content, no)
    ensures
      var bs2 := Store(bs1, max, Block(path, no, data));
      if |data| < BLOCK then SameFile(t0, t2, path) ==> bs2 == ReadAhead(bs0, max, path, t2[path].content, from, end)
      else AheadSoFar(t0, t2, bs0, bs2, max, path, from, no + 1, end)
  {
    hide Moved, StampsOf, Has, Store, BlockOf;
    if SameFile(t0, t2, path) {
      MoveSteady(t0, t1, t2, used0, used1, path);
      ReadAheadNext(bs1, max, path, t2[path].content, no, end);
    }
  }

  lemma AheadSkipped(t0: Tree, t: Tree, bs0: Lru, bs: Lru, max: int, path: string, from: nat, no: nat, end: int)
    requires no < end && Has(bs, path, no) && AheadSoFar(t0, t, bs0, bs, max, path, from, no, end)
    ensures AheadSoFar(t0, t, bs0, bs, max, path, from, no + 1, end)
  {
    if SameFile(t0, t, path) {
      ReadAheadNext(bs, max, path, t[path].content, no, end);
    }
  }

  lemma AheadDone(t0: Tree, t: Tree, bs0: Lru, bs: Lru, max: int, path: string, from: nat, no: nat, end: int)
    requires no >= end && AheadSoFar(t0, t, bs0, bs, max, path, from, no, end)
    ensures SameFile(t0, t, path) ==> bs == ReadAhead(bs0, max, path, t[path].content, from, end)
  {
  }

  /** The block behind a request. */
  function NextBlock(offset: nat, length: nat): nat
    requires length > 0
  {
    (offset + length - 1) / BLOCK + 1
  }

  /** ... is the first one that begins at or behind its end. */
  lemma NextBlockIsBehind(offset: nat, length: nat, no: nat)
    requires length > 0
    ensures no >= NextBlock(offset, length) <==> no * BLOCK >= offset + length
  {
    var last := (offset + length - 1) / BLOCK;
    assert last * BLOCK <= offset + length - 1 < (last + 1) * BLOCK;
  }

  /** The read starts where the last one ended, had to fetch something, and did not reach the end. */
  predicate GoesOn(ends: map<string, nat>, path: string, offset: nat, length: nat, content: Bytes, missed: bool)
    requires length > 0
  {
    path in ends && ends[path] == offset && missed && |content| >= NextBlock(offset, length) * BLOCK
  }

  /** The blocks and the hits after a read of a file that holds still; a block was missed if there
      are fewer hits than blocks looked at. */
  function BlocksAfter(
    bs: Lru, max: int, readahead: int, ends: map<string, nat>, t: Tree, path: string, offset: nat, length: nat)
    : (Lru, nat)
    requires length > 0 && IsFile(t, path)
  {
    var (read, hits) := Apply(bs, max, t, ReadOp(path, offset, length));
    var content, next := t[path].content, NextBlock(offset, length);
    (if GoesOn(ends, path, offset, length, content, hits < Looked(offset, length, |content|))
     then ReadAhead(read, max, path, content, next, next + readahead) else read, hits)
  }

  lemma NoReadAhead(
    bs: Lru, max: int, readahead: int, ends: map<string, nat>, t: Tree, path: string, offset: nat, length: int)
    requires readahead <= 0
    ensures length > 0 && IsFile(t, path) ==>
              BlocksAfter(bs, max, readahead, ends, t, path, offset, length)
                  == Apply(bs, max, t, ReadOp(path, offset, length))
  {
    hide Apply, GoesOn, Looked;
  }

  lemma AppliesAlike(bs: Lru, max: int, t: Tree, t': Tree, path: string, offset: nat, length: int)
    requires SameFile(t, t', path)
    ensures Apply(bs, max, t, ReadOp(path, offset, length)) == Apply(bs, max, t', ReadOp(path, offset, length))
  {
  }

  class CachingFS {
    const fs: RemoteFS
    const maxBytes: int
    const attrTtl: real
    const readahead: int

    var blocks: Lru
    var cachedBytes: int
    var blockMtime: map<string, real>
    var lastReadEnd: map<string, nat>
    var attr: map<string, Attr>
    var dirs: map<string, Listing>
    var blockHits: nat
    var blockMisses: nat
    var statHits: nat
    var statMisses: nat
    /** The blocks that were cached while their path had no stamp. */
    ghost var unguarded: set<Key>
    /** How much the server's log held when this cache was made. */
    ghost const born: nat

    constructor (fs: RemoteFS, maxBytes: int, attrTtl: real, readahead: int)
      requires fs.Valid()
      ensures Valid() && this.fs == fs
      ensures this.maxBytes == maxBytes && this.attrTtl == attrTtl && this.readahead == readahead
      ensures blocks == [] && attr == map[] && dirs == map[] && unguarded == {}
      ensures born == |fs.log| && blockHits == blockMisses == statHits == statMisses == 0
    {
      this.fs, this.maxBytes, this.attrTtl, this.readahead := fs, maxBytes, attrTtl, readahead;
      blocks, cachedBytes := [], 0;
      blockMtime, lastReadEnd, attr, dirs := map[], map[], map[], map[];
      blockHits, blockMisses, statHits, statMisses := 0, 0, 0, 0;
      unguarded, born := {}, |fs.log|;
    }

    ghost predicate Counted()
      reads this`blocks, this`cachedBytes
    {
      Distinct(blocks) && cachedBytes == Total(blocks)
    }

    ghost predicate Valid()
      reads this`blocks, this`cachedBytes, this`blockMtime, this`unguarded, this`attr, this`dirs, fs
    {
      && fs.Valid()
      && Counted() && Bounded(blocks, maxBytes)
      && Faithful(blocks, blockMtime, unguarded, attr, fs.tree, fs.used, fs.exclusive)
      && Sighted(attr, dirs, attrTtl, fs.log) && (fs.exclusive ==> Listable(dirs, fs.tree))
      && born <= |fs.log| && Excused(unguarded, fs.log, born)
    }

    ghost function Cache(): Cached
      reads this
    {
      Cached(blocks, blockMtime, lastReadEnd, attr, dirs)
    }

    /** Since this cache was made the server has never said that the path is not there. */
    ghost predicate AlwaysThere(path: string)
      reads fs`log
    {
      born <= |fs.log| && !SaidAbsent(fs.log[born..], path)
    }

    lemma ThereIsGuarded(path: string)
      requires Valid() && AlwaysThere(path)
      ensures Guarded(blocks, unguarded, path)
    {
      ExcusedGuards(blocks, unguarded, fs.log, born, path);
    }

    // ---- block helpers ------------------------------------------------------

    /** Pops every block the selector picks, keeping the byte count. */
    method DropBlocks(sel: Selector)
      requires Counted()
      modifies this`blocks, this`cachedBytes
      ensures Counted() && blocks == Drop(old(blocks), sel)
    {
      ghost var was := blocks;
      ghost var seen := 0;
      var i := 0;
      DropStart(was, sel);
      hide Drop, Total, Distinct, HalfDropped;
      while i < |blocks|
        invariant HalfDropped(was, seen, sel, blocks, i)
        invariant cachedBytes == Total(blocks)
        decreases |blocks| - i
      {
        DropStep(was, seen, sel, blocks, i);
        TotalCut(blocks, i);
        if Picks(sel, blocks[i]) {
          cachedBytes := cachedBytes - |blocks[i].data|;
          blocks := blocks[..i] + blocks[i + 1..];
        } else {
          i := i + 1;
        }
        seen := seen + 1;
      }
      DropDone(was, seen, sel, blocks, i);
      DropDistinct(was, sel);
    }

    method DropPathBlocks(path: string)
      requires Counted()
      modifies this`blocks, this`cachedBytes, this`blockMtime, this`lastReadEnd
      ensures Counted() && blocks == Drop(old(blocks), OnePath(path))
      ensures blockMtime == old(blockMtime) - {path} && lastReadEnd == old(lastReadEnd) - {path}
    {
      DropBlocks(OnePath(path));
      blockMtime := blockMtime - {path};
      lastReadEnd := lastReadEnd - {path};
    }

    /** The eviction loop. */
    method EvictOldest()
      requires Counted()
      modifies this`blocks, this`cachedBytes
      ensures Counted() && blocks == Evict(old(blocks), maxBytes)
    {
      while cachedBytes > maxBytes && blocks != []
        invariant Counted() && Evict(blocks, maxBytes) == Evict(old(blocks), maxBytes)
        decreases |blocks|
      {
        cachedBytes := cachedBytes - |blocks[0].data|;
        blocks := blocks[1..];
      }
    }

    method StoreBlock(path: string, no: nat, data: Bytes)
      requires Counted()
      modifies this`blocks, this`cachedBytes
      ensures Counted() && blocks == Store(old(blocks), maxBytes, Block(path, no, data))
    {
      AddDistinct(blocks, Block(path, no, data));
      DropBlocks(OneBlock(path, no));
      TotalAppend(blocks, [Block(path, no, data)]);
      blocks := blocks + [Block(path, no, data)];
      cachedBytes := cachedBytes + |data|;
      EvictOldest();
    }

    /** Before its blocks are fetched a path has a stamp, unless the server has said that it is not there;
        with nobody else about that means that it is not. */
    ghost predicate Ready(path: string)
      reads this`blockMtime, fs`tree, fs`log
    {
      && (path in blockMtime || !AlwaysThere(path))
      && (fs.exclusive && path in fs.tree ==> path in blockMtime)
    }

    /** Reading this path since then has kept what was good. */
    ghost predicate Kept(bs0: Lru, ung0: set<Key>, t0: Tree, path: string)
      reads this`blocks, this`unguarded, this`blockMtime, fs`tree
    {
      KeptBy(bs0, ung0, t0, blocks, unguarded, fs.tree, path, path in blockMtime)
    }

    /** Fetches one block from the server and stores it. */
    method FetchBlock(path: string, no: nat) returns (r: Result<Bytes, FsError>)
      requires Valid() && Ready(path)
      modifies this`blocks, this`cachedBytes, this`unguarded, fs`tree, fs`used
      ensures Valid() && Acted(old(fs.tree), old(fs.used)) && Ready(path)
      ensures r.Ok? ==> blocks == Store(old(blocks), maxBytes, Block(path, no, r.value)) && IsFile(fs.tree, path)
      ensures r.Ok? ==> unguarded == Marked(old(unguarded), blockMtime, Block(path, no, r.value))
      ensures r.Ok? && SameFile(old(fs.tree), fs.tree, path) ==> r.value == BlockOf(fs.tree[path].content, no)
      ensures Kept(old(blocks), old(unguarded), old(fs.tree), path)
      ensures r.Err? ==> blocks == old(blocks) && unguarded == old(unguarded)
      ensures r.Err? ==> HonestRead(fs.tree, path, no * BLOCK, BLOCK, r)
      ensures fs.reliable && r.Err? ==> NoSuchFile(path, r.error)
    {
      hide Faithful, Sighted, Counted, Store, Bounded, ReadError, Moved, AllTruthful, KeptBy, Marked, Excused,
          SaidAbsent;
      StampWasShown(blocks, blockMtime, unguarded, attr, fs.tree, fs.used, fs.exclusive, path);
      r := fs.Read(path, no * BLOCK, BLOCK);
      MoveKeepsFaithful(
        blocks, blockMtime, unguarded, attr, old(fs.tree), fs.tree, old(fs.used), fs.used, fs.exclusive);
      if r.Ok? {
        if path in blockMtime && fs.tree[path].mtime == blockMtime[path] {
          OldStamp(old(fs.tree), fs.tree, old(fs.used), path);
        }
        ghost var b := Block(path, no, r.value);
        StoreKeepsFaithful(
          blocks, maxBytes, blockMtime, unguarded, attr, fs.tree, fs.used, fs.exclusive, b);
        StoreBlock(path, no, r.value);
        unguarded := Marked(unguarded, blockMtime, b);
        MarkedExcused(old(unguarded), fs.log, born, blockMtime, b);
        StoreKept(old(blocks), maxBytes, blockMtime, old(unguarded), old(fs.tree), fs.tree, b);
      } else {
        FewerKept(blocks, unguarded, old(fs.tree), blocks, fs.tree, path, path in blockMtime);
      }
    }

    /** Others may have acted since `t`, as far as they can during an operation. */
    ghost predicate Acted(t: Tree, used: Stamps)
      reads fs
    {
      used <= fs.used && Moved(t, fs.tree, used) && (fs.exclusive ==> fs.tree == t)
    }

    /** The one error a read of what is no file ends in. */
    ghost predicate NoSuchFile(path: string, e: FsError)
      reads fs
    {
      !IsFile(fs.tree, path) && e == ReadError(fs.tree, path)
    }

    /** The path's file is what it was in `t`, and `bs` held only its own blocks. */
    ghost predicate Steady(t: Tree, bs: Lru, path: string)
      reads fs
    {
      SameFile(t, fs.tree, path) && ExactPath(bs, path, t[path].content)
    }

    /** A cached block becomes the most recent one. */
    method TouchBlock(path: string, no: nat) returns (data: Bytes)
      requires Valid() && Has(blocks, path, no)
      modifies this`blocks, this`blockHits
      ensures Valid() && Block(path, no, data) in old(blocks) && blockHits == old(blockHits) + 1
      ensures blocks == Access(old(blocks), maxBytes, Block(path, no, data))
    {
      hide Faithful, Sighted, Total, Distinct, AllTruthful;
      var i := IndexOf(blocks, path, no);
      var b := blocks[i];
      DropOne(blocks, i);
      TouchTotal(blocks, b);
      AddDistinct(blocks, b);
      TouchKeepsFaithful(blocks, blockMtime, unguarded, attr, fs.tree, fs.used, fs.exclusive, b);
      blocks := blocks[..i] + blocks[i + 1..] + [b];
      blockHits := blockHits + 1;
      data := b.data;
    }

    lemma CachedIsThere(path: string, no: nat)
      requires Valid() && Has(blocks, path, no)
      ensures fs.exclusive ==> IsFile(fs.tree, path)
    {
      var i :| 0 <= i < |blocks| && Picks(OneBlock(path, no), blocks[i]);
      assert blocks[i] in blocks;
    }

    lemma HasOnlyFiles(path: string, no: nat)
      requires Valid()
      ensures fs.exclusive && !IsFile(fs.tree, path) ==> !Has(blocks, path, no)
    {
      if Has(blocks, path, no) {
        CachedIsThere(path, no);
      }
    }

    /** A cached block, touched, or a fetched one. */
    method GetBlock(path: string, no: nat) returns (r: Result<Bytes, FsError>)
      requires Valid() && Ready(path)
      modifies this`blocks, this`cachedBytes, this`unguarded, this`blockHits, this`blockMisses, fs`tree, fs`used
      ensures Valid() && Acted(old(fs.tree), old(fs.used)) && Ready(path)
      ensures Kept(old(blocks), old(unguarded), old(fs.tree), path)
      ensures blockHits + blockMisses == old(blockHits + blockMisses) + 1
      ensures blockHits == old(blockHits) + if Has(old(blocks), path, no) then 1 else 0
      ensures r.Ok? ==> blocks == Access(old(blocks), maxBytes, Block(path, no, r.value))
      ensures r.Ok? && fs.exclusive ==> IsFile(fs.tree, path)
      ensures r.Ok? && Steady(old(fs.tree), old(blocks), path) ==> r.value == BlockOf(fs.tree[path].content, no)
      ensures r.Err? ==> blocks == old(blocks) && HonestRead(fs.tree, path, no * BLOCK, BLOCK, r)
      ensures fs.reliable && r.Err? ==> NoSuchFile(path, r.error)
    {
      hide Valid, Moved, BlockOf, HonestRead, ReadError, Store, Picks, KeptBy;
      NoMove(fs.tree, fs.used);
      if Has(blocks, path, no) {
        CachedIsThere(path, no);
        var data := TouchBlock(path, no);
        FewerKept(old(blocks), unguarded, fs.tree, blocks, fs.tree, path, path in blockMtime);
        r := Ok(data);
      } else {
        blockMisses := blockMisses + 1;
        r := FetchBlock(path, no);
      }
    }

    /** Before the first block of a path is cached its stamp is recorded: from a cached
        attribute if there is one, else from the server. A path that is not there is
        left without a stamp. */
    method RecordStamp(path: string) returns (failed: Option<FsError>)
      requires Valid()
      modifies this`blockMtime, fs`tree, fs`used, fs`log
      ensures Valid() && Acted(old(fs.tree), old(fs.used)) && StatLogged(old(fs.log), path)
      ensures StampAdded(old(blockMtime), blockMtime, path)
      ensures failed == None ==> path in blockMtime || path !in fs.tree
      ensures failed == None ==> path in blockMtime || SaidAbsent(fs.log[|old(fs.log)|..], path)
      ensures path in old(blockMtime) || PositiveEntry(path) ==>
                failed == None && path in blockMtime && fs.log == old(fs.log)
      ensures failed != None ==> failed == Some(Refused)
      ensures fs.reliable && failed != None ==> NoSuchFile(path, Refused)
    {
      hide Moved;
      NoMove(fs.tree, fs.used);
      failed := None;
      if path !in blockMtime {
        if PositiveEntry(path) {
          StampKeepsFaithful(
            blocks, blockMtime, unguarded, attr, fs.tree, fs.used, fs.exclusive, path, attr[path].st.value.mtime);
          blockMtime := blockMtime[path := attr[path].st.value.mtime];
        } else {
          // a read does not look at the clock
          ghost var at: real := *;
          var st := AskStat(path, at);
          match st {
            case Ok(s) =>
              StampKeepsFaithful(
                blocks, blockMtime, unguarded, attr, fs.tree, fs.used, fs.exclusive, path, s.mtime);
              blockMtime := blockMtime[path := s.mtime];
            case Err(NotFound) =>
              assert fs.log[|old(fs.log)|..] == [SawStat(at, path, None, fs.tree)];
            case Err(Refused) => failed := Some(Refused);
          }
        }
      }
    }

    /** A cached attribute of a path that was there. */
    predicate PositiveEntry(path: string)
      reads this
    {
      path in attr && attr[path].st.Some?
    }

    /** The server's log has grown by the answer to one stat of the path at most. */
    ghost predicate StatLogged(before: seq<Sighting>, path: string)
      reads fs`log
    {
      && before <= fs.log && |fs.log| <= |before| + 1
      && forall s :: s in fs.log[|before|..] ==> s.SawStat? && s.path == path
    }

    lemma ServerIsValid()
      requires Valid()
      ensures fs.Valid()
    {
    }

    lemma ValidStamps()
      requires Valid()
      ensures StampsOf(fs.tree) <= fs.used && born <= |fs.log|
    {
    }

    /** The block loop of a read: the pieces in order, up to the last block or the end of the file. */
    method ReadPieces(path: string, offset: nat, length: nat) returns (r: Result<(Bytes, bool, bool), FsError>)
      requires Valid() && length > 0 && Ready(path)
      modifies this`blocks, this`cachedBytes, this`unguarded, this`blockHits, this`blockMisses, fs`tree, fs`used
      ensures Valid() && Acted(old(fs.tree), old(fs.used)) && Ready(path)
      ensures Kept(old(blocks), old(unguarded), old(fs.tree), path)
      ensures r.Ok? && fs.exclusive ==> IsFile(fs.tree, path)
      ensures fs.exclusive && !IsFile(fs.tree, path) ==> blocks == old(blocks) && blockHits == old(blockHits)
      ensures r.Ok? && Steady(old(fs.tree), old(blocks), path) ==>
          r.value.0 == Slice(fs.tree[path].content, offset, length)
      ensures r.Ok? && Steady(old(fs.tree), old(blocks), path) ==>
                && (blocks, blockHits - old(blockHits))
                    == Apply(old(blocks), maxBytes, fs.tree, ReadOp(path, offset, length))
                && r.value.1 == (|fs.tree[path].content| < ((offset + length - 1) / BLOCK + 1) * BLOCK)
                && blockHits + blockMisses - old(blockHits + blockMisses)
                    == Looked(offset, length, |fs.tree[path].content|)
      ensures r.Ok? ==> r.value.2 == (blockMisses > old(blockMisses)) && |r.value.0| <= length
      ensures r.Err? ==> HonestRead(fs.tree, path, offset, length, Err(r.error))
      ensures fs.reliable && r.Err? ==> NoSuchFile(path, r.error)
    {
      hide ReadError, NoSuchFile, Valid, Moved, Access, Has, Piece, BlockOf, HonestRead, ExactPath, SameFile, Halfway,
          Apply, KeptBy, Ready, Looked, Slice, Upto;
      ghost var ask := ReadAsk(path, offset, length, maxBytes);
      ghost var t0, used0, bs0, ung0, hits0 := fs.tree, fs.used, blocks, unguarded, blockHits;
      var first, last := offset / BLOCK, (offset + length - 1) / BLOCK;
      var out, eof, hadMiss, no := [], false, false, first;
      ValidStamps();
      NoMove(t0, used0);
      HalfwayStart(ask, t0, bs0);
      FewerKept(bs0, ung0, t0, bs0, t0, path, path in blockMtime);
      while no <= last && !eof
        invariant first <= no <= last + 1 && (eof ==> no > first) && hits0 <= blockHits
        invariant Valid() && Acted(t0, used0) && Ready(path) && Kept(bs0, ung0, t0, path)
        invariant no > first && fs.exclusive ==> IsFile(fs.tree, path)
        invariant no == first ==> blocks == bs0 && blockHits == hits0
        invariant |out| <= Upto(offset, length, no)
        invariant Halfway(ask, t0, fs.tree, bs0, blocks, blockHits - hits0, no, eof, out)
        invariant blockMisses >= old(blockMisses) && hadMiss == (blockMisses > old(blockMisses))
        invariant blockHits + blockMisses - old(blockHits + blockMisses) == no - first
        decreases last + 1 - no, !eof
      {
        if !Has(blocks, path, no) {
          hadMiss := true;
        }
        ghost var t1, used1, bs1, ung1, hits1 := fs.tree, fs.used, blocks, unguarded, blockHits;
        HasOnlyFiles(path, no);
        var got := GetBlock(path, no);
        MoveTransitive(t0, t1, fs.tree, used0, used1);
        KeptOn(bs0, ung0, t0, used0, bs1, ung1, t1, used1, blocks, unguarded, fs.tree, path, path in blockMtime);
        if got.Err? {
          RefusalIsHonest(fs.tree, path, offset, length, no * BLOCK, BLOCK, got.error);
          return Err(got.error);
        }
        var data := got.value;
        BlockBounds(offset, length, no);
        HalfwayStep(ask, t0, used0, t1, used1, fs.tree, bs0, bs1, blocks, hits1 - hits0, blockHits - hits0, no, out,
            data);
        PieceFits(data, offset, length, no);
        out := out + Piece(data, offset, length, no);
        if |data| < BLOCK {
          eof := true;
        }
        no := no + 1;
      }
      HalfwayDone(ask, t0, fs.tree, bs0, blocks, blockHits - hits0, no, eof, out);
      r := Ok((out, eof, hadMiss));
    }

    /** Prefetching stores further blocks and nothing else. */
    method Prefetch(path: string, from: nat) returns (failed: Option<FsError>)
      requires Valid() && Ready(path)
      modifies this`blocks, this`cachedBytes, this`unguarded, fs`tree, fs`used
      ensures Valid() && Acted(old(fs.tree), old(fs.used)) && Ready(path)
      ensures Kept(old(blocks), old(unguarded), old(fs.tree), path)
      ensures failed == None || failed == Some(Refused) || (failed == Some(NotFound) && path !in fs.tree)
      ensures readahead <= 0 ==> failed == None && blocks == old(blocks) && fs.tree == old(fs.tree)
      ensures failed == None && SameFile(old(fs.tree), fs.tree, path) ==>
                blocks == ReadAhead(old(blocks), maxBytes, path, fs.tree[path].content, from, from + readahead)
      ensures fs.reliable && failed != None ==> NoSuchFile(path, failed.value)
    {
      hide Valid, Moved, Store, Has, ReadError, BlockOf, ReadAhead, AheadSoFar, KeptBy, Marked, Ready;
      failed := None;
      ghost var t0, used0, bs0, ung0, end := fs.tree, fs.used, blocks, unguarded, from + readahead;
      FewerKept(bs0, ung0, t0, bs0, t0, path, path in blockMtime);
      ValidStamps();
      NoMove(t0, used0);
      AheadStart(t0, bs0, maxBytes, path, from, end);
      var no := from;
      while no < from + readahead
        invariant from <= no
        invariant Valid() && Acted(t0, used0) && Ready(path) && Kept(bs0, ung0, t0, path)
        invariant readahead <= 0 ==> blocks == old(blocks) && fs.tree == old(fs.tree)
        invariant AheadSoFar(t0, fs.tree, bs0, blocks, maxBytes, path, from, no, end)
        decreases from + readahead - no
      {
        ghost var t1, used1, bs1, ung1 := fs.tree, fs.used, blocks, unguarded;
        if !Has(blocks, path, no) {
          var got := FetchBlock(path, no);
          MoveTransitive(t0, t1, fs.tree, used0, used1);
          KeptOn(bs0, ung0, t0, used0, bs1, ung1, t1, used1, blocks, unguarded, fs.tree, path, path in blockMtime);
          if got.Err? {
            return Some(got.error);
          }
          AheadFetched(t0, used0, t1, used1, fs.tree, bs0, bs1, maxBytes, path, from, no, end, got.value);
          if |got.value| < BLOCK {
            return None;
          }
        } else {
          AheadSkipped(t0, t1, bs0, bs1, maxBytes, path, from, no, end);
        }
        no := no + 1;
      }
      AheadDone(t0, fs.tree, bs0, blocks, maxBytes, path, from, no, end);
    }

    /** The blocks of a request, and those behind it if it goes on from the last one. */
    method ReadOn(path: string, offset: nat, length: nat) returns (r: Result<Bytes, FsError>)
      requires Valid() && length > 0 && Ready(path)
      modifies this`blocks, this`cachedBytes, this`unguarded, this`blockHits, this`blockMisses, fs`tree, fs`used
      ensures Valid() && Acted(old(fs.tree), old(fs.used)) && Ready(path)
      ensures Kept(old(blocks), old(unguarded), old(fs.tree), path)
      ensures r.Ok? ==> |r.value| <= length
      ensures r.Ok? && fs.exclusive ==> IsFile(fs.tree, path)
      ensures fs.exclusive && !IsFile(fs.tree, path) ==> blocks == old(blocks) && blockHits == old(blockHits)
      ensures r.Ok? && Steady(old(fs.tree), old(blocks), path) ==>
                && r.value == Slice(fs.tree[path].content, offset, length)
                && (blocks, blockHits - old(blockHits))
                   == BlocksAfter(old(blocks), maxBytes, readahead, lastReadEnd, fs.tree, path, offset, length)
                && blockHits + blockMisses - old(blockHits + blockMisses)
                    == Looked(offset, length, |fs.tree[path].content|)
      ensures r.Err? ==> HonestRead(fs.tree, path, offset, length, r)
      ensures fs.reliable && r.Err? ==> NoSuchFile(path, r.error)
    {
      hide Valid, Moved, ReadBlocks, SameFile, ExactPath, ReadAhead, Apply, ReadError, KeptBy, Ready, Looked;
      ghost var t1, used1, bs1, ung1 := fs.tree, fs.used, blocks, unguarded;
      ValidStamps();
      var got := ReadPieces(path, offset, length);
      ghost var t2, used2, bs2, ung2 := fs.tree, fs.used, blocks, unguarded;
      if got.Err? {
        return Err(got.error);
      }
      var (out, eof, hadMiss) := got.value;
      if !eof && hadMiss && readahead > 0 && path in lastReadEnd && lastReadEnd[path] == offset {
        var stopped := Prefetch(path, (offset + length - 1) / BLOCK + 1);
        MoveTransitive(t1, t2, fs.tree, used1, used2);
        KeptOn(bs1, ung1, t1, used1, bs2, ung2, t2, used2, blocks, unguarded, fs.tree, path, path in blockMtime);
        if stopped != None {
          return Err(stopped.value);
        }
        if Steady(t1, bs1, path) {
          MoveSteady(t1, t2, fs.tree, used1, used2, path);
          SameFileMeans(t1, t2, path);
          SameFileMeans(t2, fs.tree, path);
          AppliesAlike(bs1, maxBytes, t2, fs.tree, path, offset, length);
        }
      } else if Steady(t1, bs1, path) {
        SameFileMeans(t1, t2, path);
        ReadAheadNext(bs2, maxBytes, path, t2[path].content, NextBlock(offset, length),
            NextBlock(offset, length) + readahead);
      }
      r := Ok(out);
    }

    /** A cached read. Nobody else changing the server, it is exactly the uncached one;
        otherwise it still is whenever the file holds still and its cached blocks are its own.
        Then the blocks it leaves are those of the recency model, with read-ahead exactly when
        the read went on where the last one ended, missed a block, and did not reach the end. */
    method Read(path: string, offset: nat, length: int) returns (r: Result<Bytes, FsError>)
      requires Valid() && Canonical(path)
      modifies this`blocks, this`cachedBytes, this`blockMtime, this`lastReadEnd, this`blockHits, this`blockMisses
      modifies this`unguarded, fs`tree, fs`used, fs`log
      ensures Valid() && Acted(old(fs.tree), old(fs.used)) && StatLogged(old(fs.log), path)
      ensures KeptByRead(
                old(blocks), old(unguarded), old(fs.tree), blocks, unguarded, fs.tree, path, path in blockMtime,
                fs.log[|old(fs.log)|..])
      ensures old(path in blockMtime || PositiveEntry(path)) ==>
                fs.log == old(fs.log) && (length > 0 ==> path in blockMtime)
      ensures length > 0 && SameFile(old(fs.tree), fs.tree, path) && (r.Ok? || fs.reliable) ==> path in blockMtime
      ensures StampAdded(old(blockMtime), blockMtime, path)
      ensures fs.exclusive && !IsFile(fs.tree, path) ==> blocks == old(blocks) && blockHits == old(blockHits)
      ensures length <= 0 ==> r == Ok([]) && blocks == old(blocks) && blockHits == old(blockHits)
      ensures r.Ok? ==> |r.value| <= Max(0, length)
      ensures fs.exclusive ==> HonestRead(fs.tree, path, offset, length, r)
      ensures fs.exclusive && fs.reliable ==> r == TrueRead(fs.tree, path, offset, length)
      ensures fs.reliable && r.Err? ==> NoSuchFile(path, r.error)
      ensures Steady(old(fs.tree), old(blocks), path) ==> HonestRead(fs.tree, path, offset, length, r)
      ensures r.Ok? && length > 0 && Steady(old(fs.tree), old(blocks), path) ==>
                && (blocks, blockHits - old(blockHits))
                   == BlocksAfter(old(blocks), maxBytes, readahead, old(lastReadEnd), fs.tree, path, offset, length)
                && blockHits + blockMisses - old(blockHits + blockMisses)
                    == Looked(offset, length, |fs.tree[path].content|)
      ensures lastReadEnd == if r.Ok? && length > 0 then old(lastReadEnd)[path := offset + |r.value|]
          else old(lastReadEnd)
    {
      hide Valid, Moved, ReadBlocks, SameFile, ExactPath, ReadAhead, Apply, BlocksAfter, ReadError, Slice, KeptBy,
          SaidAbsent, Looked, KeptByRead, StampsOf, Canonical, Faithful, Sighted, Counted, Excused, Bounded;
      NoMove(fs.tree, fs.used);
      ghost var t0, used0, bs0, ung0 := fs.tree, fs.used, blocks, unguarded;
      ValidStamps();
      if length <= 0 {
        FewerKept(bs0, ung0, t0, bs0, t0, path, path in blockMtime);
        ReadKeeps(bs0, ung0, t0, used0, t0, used0, bs0, ung0, t0, path, path in blockMtime, []);
        assert fs.log[|fs.log|..] == [];
        return Ok([]);
      }
      ExclusiveIsSteady(path);
      var failed := RecordStamp(path);
      ghost var t1, used1, more := fs.tree, fs.used, fs.log[|old(fs.log)|..];
      if SaidAbsent(more, path) {
        SaidSince(fs.log, born, |old(fs.log)|, path);
      }
      if failed == None {
        r := ReadOn(path, offset, length);
      } else {
        NoMove(t1, used1);
        FewerKept(bs0, ung0, t1, bs0, t1, path, path in blockMtime);
        r := Err(Refused);
      }
      ReadKeeps(
        bs0, ung0, t0, used0, t1, used1, blocks, unguarded, fs.tree, path, path in blockMtime, more);
      if r.Ok? {
        lastReadEnd := lastReadEnd[path := offset + |r.value|];
      }
    }

    lemma ExclusiveIsSteady(path: string)
      requires Valid()
      ensures fs.exclusive && IsFile(fs.tree, path) ==> Steady(fs.tree, blocks, path)
    {
    }

    /** The entry for the path has not expired. */
    predicate FreshEntry(path: string, now: real)
      reads this
    {
      path in attr && attr[path].expiry > now
    }

    /** The server gave this answer to a stat less than one time to live ago. */
    ghost predicate StatSeenRecently(path: string, r: Result<Stat, FsError>, now: real)
      reads this, fs
    {
      exists s :: s in fs.log && s.SawStat? && s.path == path && r == Answer(Attr(s.reply, 0.0)) && now < s.at + attrTtl
    }

    method Stat(path: string, now: real) returns (r: Result<Stat, FsError>)
      requires Valid() && Canonical(path)
      modifies this`blocks, this`cachedBytes, this`blockMtime, this`lastReadEnd, this`attr
      modifies this`statHits, this`statMisses, fs`tree, fs`used, fs`log
      ensures Valid() && Acted(old(fs.tree), old(fs.used))
      ensures statHits + statMisses == old(statHits + statMisses) + 1
      ensures statMisses == old(statMisses) + if old(FreshEntry(path, now)) then 0 else 1
      ensures fs.exclusive ==> HonestKindAndSize(fs.tree, path, r)
      ensures fs.exclusive && fs.reliable ==>
          (r.Ok? <==> path in fs.tree) && (r == Err(Refused) ==> BelowFile(fs.tree, path))
      ensures old(FreshEntry(path, now)) ==>
                && r == Answer(old(attr)[path]) && StatSeenRecently(path, r, now)
                && fs.log == old(fs.log) && fs.tree == old(fs.tree) && Cache() == old(Cache())
      ensures !old(FreshEntry(path, now)) ==>
                && HonestStat(fs.tree, path, r) && (fs.reliable ==> r == TrueStat(fs.tree, path))
                && fs.log == old(fs.log) + StatSightings(now, path, r, fs.tree)
                && attr == Noted(old(attr), path, r, now + attrTtl)
                && blocks == (if r.Ok? then AfterStat(old(blocks), old(blockMtime), path, r.value.mtime)
                    else old(blocks))
                && blockMtime == (if r.Ok? then old(blockMtime)[path := r.value.mtime] else old(blockMtime))
                && lastReadEnd == (if r.Ok? && path in old(blockMtime) && old(blockMtime)[path] != r.value.mtime
                    then old(lastReadEnd) - {path} else old(lastReadEnd))
      ensures r.Ok? ==> path in blockMtime || PositiveEntry(path)
      ensures forall b :: b in blocks ==> b in old(blocks)
      ensures !old(FreshEntry(path, now)) && r.Ok? && IsFile(fs.tree, path) && AlwaysThere(path) ==>
                ExactPath(blocks, path, fs.tree[path].content)
      ensures !old(FreshEntry(path, now)) && r.Ok? && IsFile(fs.tree, path) && Guarded(blocks, unguarded, path) ==>
                ExactPath(blocks, path, fs.tree[path].content)
    {
      hide Valid, Moved, Faithful, ExactPath, Guarded, Drop;
      NoMove(fs.tree, fs.used);
      if path in attr && attr[path].expiry > now {
        HitIsHonest(path, now);
        statHits := statHits + 1;
        return Answer(attr[path]);
      }
      statMisses := statMisses + 1;
      r := AskStat(path, now);
      match r {
        case Err(Refused) =>
        case Err(NotFound) =>
          Remember(SawStat(now, path, None, fs.tree), path, None, now);
        case Ok(st) =>
          Restamp(path, st.mtime);
          Remember(SawStat(now, path, Some(st), fs.tree), path, Some(st), now);
          if AlwaysThere(path) {
            ThereIsGuarded(path);
          }
          if IsFile(fs.tree, path) && Guarded(blocks, unguarded, path) {
            FreshIsExact(path);
          }
      }
    }

    lemma HitIsHonest(path: string, now: real)
      requires Valid() && path in attr && attr[path].expiry > now
      ensures fs.exclusive ==> HonestKindAndSize(fs.tree, path, Answer(attr[path]))
      ensures StatSeenRecently(path, Answer(attr[path]), now)
    {
      var s :| s in fs.log && IsStatSighting(s, path, attr[path], attrTtl);
    }

    lemma FreshIsExact(path: string)
      requires Valid()
      requires IsFile(fs.tree, path) && path in blockMtime && blockMtime[path] == fs.tree[path].mtime
      requires Guarded(blocks, unguarded, path)
      ensures ExactPath(blocks, path, fs.tree[path].content)
    {
      FreshStampMeansExact(blocks, blockMtime, unguarded, attr, fs.tree, fs.used, fs.exclusive, path);
    }

    /** Asks the server; the cached state is not touched. */
    method AskStat(path: string, ghost at: real) returns (r: Result<Stat, FsError>)
      requires Valid()
      modifies fs`tree, fs`used, fs`log
      ensures Valid() && Acted(old(fs.tree), old(fs.used))
      ensures HonestStat(fs.tree, path, r) && (fs.reliable ==> r == TrueStat(fs.tree, path))
      ensures fs.log == old(fs.log) + StatSightings(at, path, r, fs.tree)
      ensures r.Ok? ==> (path, r.value.mtime) in fs.used
    {
      hide Faithful, Distinct, Total, Sighted, Moved, AllTruthful, Excused;
      r := fs.Stat(path, at);
      MoreExcused(unguarded, old(fs.log), born, StatSightings(at, path, r, fs.tree));
      MoveKeepsFaithful(
        blocks, blockMtime, unguarded, attr, old(fs.tree), fs.tree, old(fs.used), fs.used, fs.exclusive);
      MoreSighted(attr, dirs, attrTtl, old(fs.log), StatSightings(at, path, r, fs.tree));
      if r.Ok? {
        assert (path, r.value.mtime) in StampsOf(fs.tree);
      }
    }

    /** A changed stamp drops the path's blocks; either way the new stamp is recorded. */
    method Restamp(path: string, m: real)
      requires Valid() && (path, m) in fs.used
      modifies this`blocks, this`cachedBytes, this`blockMtime, this`lastReadEnd
      ensures Valid() && path in blockMtime && blockMtime[path] == m
      ensures blocks == AfterStat(old(blocks), old(blockMtime), path, m)
      ensures blockMtime == old(blockMtime)[path := m]
      ensures lastReadEnd == if path in old(blockMtime) && old(blockMtime)[path] != m then old(lastReadEnd) - {path}
          else old(lastReadEnd)
    {
      hide Sighted, Excused, AllTruthful, Total, SaidAbsent, Moved;
      if path in blockMtime && blockMtime[path] != m {
        ForgetKeepsFaithful(blocks, blockMtime, unguarded, attr, fs.tree, fs.used, fs.exclusive,
                            Drop(blocks, OnePath(path)), blockMtime - {path}, attr);
        DropBounded(blocks, maxBytes, OnePath(path));
        DropPathBlocks(path);
      }
      if path in blockMtime {
        assert blockMtime == blockMtime[path := m];
      } else {
        StampKeepsFaithful(blocks, blockMtime, unguarded, attr, fs.tree, fs.used, fs.exclusive, path, m);
      }
      blockMtime := blockMtime[path := m];
    }

    /** Caches a stat answer the server has just given. */
    method Remember(ghost s: Sighting, path: string, reply: Option<Stat>, now: real)
      requires Valid() && s == SawStat(now, path, reply, fs.tree) && s in fs.log
      modifies this`attr
      ensures Valid() && attr == old(attr)[path := Attr(reply, now + attrTtl)]
    {
      AttrKeepsFaithful(
        blocks, blockMtime, unguarded, attr, fs.tree, fs.used, fs.exclusive, path, Attr(reply, now + attrTtl));
      StatSighted(attr, dirs, attrTtl, fs.log, s);
      attr := attr[path := Attr(reply, now + attrTtl)];
    }

    /** The listing of the path has not expired. */
    predicate FreshListing(path: string, now: real)
      reads this
    {
      path in dirs && dirs[path].expiry > now
    }

    /** The server gave this listing less than one time to live ago. */
    ghost predicate ListingSeenRecently(path: string, entries: seq<DirEntry>, now: real)
      reads this, fs
    {
      exists s :: s in fs.log && s.SawListing? && s.path == path && s.entries == entries && now < s.at + attrTtl
    }

    method ListDir(path: string, now: real) returns (r: Result<seq<DirEntry>, FsError>)
      requires Valid() && Canonical(path)
      modifies this`dirs, fs`tree, fs`used, fs`log
      ensures Valid() && Acted(old(fs.tree), old(fs.used))
      ensures old(FreshListing(path, now)) ==>
                && r == Ok(old(dirs)[path].entries) && ListingSeenRecently(path, r.value, now)
                && (fs.exclusive ==> IsDirectory(fs.tree, path))
                && fs.log == old(fs.log) && fs.tree == old(fs.tree) && dirs == old(dirs)
      ensures !old(FreshListing(path, now)) ==>
                && (r.Ok? ==> IsDirectory(fs.tree, path) && HonestListing(fs.tree, path, r.value))
                && (r.Err? && fs.reliable ==> !IsDirectory(fs.tree, path))
                && fs.log == old(fs.log) + ListSightings(now, path, r, fs.tree)
                && dirs == (if r.Ok? then old(dirs)[path := Listing(r.value, now + attrTtl)] else old(dirs))
    {
      hide Valid, Faithful, Moved, HonestListing;
      NoMove(fs.tree, fs.used);
      if path in dirs && dirs[path].expiry > now {
        ListingHit(path, now);
        return Ok(dirs[path].entries);
      }
      r := AskListing(path, now);
      if r.Ok? {
        RememberListing(SawListing(now, path, r.value, fs.tree), path, r.value, now);
      }
    }

    lemma ListingHit(path: string, now: real)
      requires Valid() && FreshListing(path, now)
      ensures ListingSeenRecently(path, dirs[path].entries, now) && (fs.exclusive ==> IsDirectory(fs.tree, path))
    {
      var s :| s in fs.log && IsListingSighting(s, path, dirs[path], attrTtl);
    }

    /** Asks the server; the cached state is not touched. */
    method AskListing(path: string, ghost at: real) returns (r: Result<seq<DirEntry>, FsError>)
      requires Valid()
      modifies fs`tree, fs`used, fs`log
      ensures Valid() && Acted(old(fs.tree), old(fs.used))
      ensures r.Ok? ==> IsDirectory(fs.tree, path) && HonestListing(fs.tree, path, r.value)
      ensures r.Err? && fs.reliable ==> !IsDirectory(fs.tree, path)
      ensures fs.log == old(fs.log) + ListSightings(at, path, r, fs.tree)
    {
      hide Faithful, Distinct, Total, HonestListing, Sighted, Moved, AllTruthful, Excused;
      r := fs.ListDir(path, at);
      MoreExcused(unguarded, old(fs.log), born, ListSightings(at, path, r, fs.tree));
      MoveKeepsFaithful(
        blocks, blockMtime, unguarded, attr, old(fs.tree), fs.tree, old(fs.used), fs.used, fs.exclusive);
      MoreSighted(attr, dirs, attrTtl, old(fs.log), ListSightings(at, path, r, fs.tree));
    }

    /** Caches a listing the server has just given. */
    method RememberListing(ghost s: Sighting, path: string, entries: seq<DirEntry>, now: real)
      requires Valid() && s == SawListing(now, path, entries, fs.tree) && s in fs.log && IsDirectory(fs.tree, path)
      modifies this`dirs
      ensures Valid() && dirs == old(dirs)[path := Listing(entries, now + attrTtl)]
    {
      hide Faithful;
      ListingSighted(attr, dirs, attrTtl, fs.log, s);
      dirs := dirs[path := Listing(entries, now + attrTtl)];
    }

    // ---- invalidation and writing through -----------------------------------

    lemma OutsideOf<T>(m: map<string, T>, path: string)
      ensures Outside(m - {path}, path) == Outside(m, path)
    {
    }

    /** Drops everything cached at the path and below it. */
    method InvalidateLocked(path: string)
      requires Counted()
      modifies this`blocks, this`cachedBytes, this`blockMtime, this`lastReadEnd, this`attr, this`dirs
      ensures Counted() && Cache() == Without(old(Cache()), path)
    {
      hide Drop, Total, Distinct, AtOrBelow;
      OutsideOf(blockMtime, path);
      OutsideOf(lastReadEnd, path);
      DropPathBlocks(path);
      DropBlocks(Subtree(path));
      attr := Outside(attr, path);
      dirs := Outside(dirs, path);
      blockMtime := Outside(blockMtime, path);
      lastReadEnd := Outside(lastReadEnd, path);
    }

    /** The invalidation seen from outside. */
    method Invalidate(path: string)
      requires Valid()
      modifies this`blocks, this`cachedBytes, this`blockMtime, this`lastReadEnd, this`attr, this`dirs
      ensures Valid() && Cache() == Without(old(Cache()), path)
      ensures (blocks, 0) == Apply(old(blocks), maxBytes, fs.tree, InvalidateOp(path))
      ensures forall b :: b in blocks ==> b in old(blocks)
      ensures forall q :: q in attr ==> q in old(attr) && attr[q] == old(attr)[q]
    {
      Forget(path);
    }

    /** Invalidation while the server may already have moved on: the cached state that is
        left is the old one outside the subtree. */
    method Forget(path: string)
      requires Counted() && Bounded(blocks, maxBytes) && Sighted(attr, dirs, attrTtl, fs.log)
      modifies this`blocks, this`cachedBytes, this`blockMtime, this`lastReadEnd, this`attr, this`dirs
      ensures Counted() && Bounded(blocks, maxBytes) && Sighted(attr, dirs, attrTtl, fs.log)
      ensures Cache() == Without(old(Cache()), path) && Clear(blocks, blockMtime, attr, path, path)
      ensures forall q :: q in dirs ==> !AtOrBelow(q, path)
      ensures forall t: Tree, used: Stamps ::
                Faithful(old(blocks), old(blockMtime), old(unguarded), old(attr), t, used, fs.exclusive)
                ==> Faithful(blocks, blockMtime, unguarded, attr, t, used, fs.exclusive)
    {
      DropBounded(blocks, maxBytes, OnePath(path));
      DropDistinct(blocks, OnePath(path));
      DropBounded(Drop(blocks, OnePath(path)), maxBytes, Subtree(path));
      InvalidateLocked(path);
      ForgetKeepsSighted(old(attr), old(dirs), attrTtl, fs.log, attr, dirs);
      forall t: Tree, used: Stamps |
        Faithful(old(blocks), old(blockMtime), old(unguarded), old(attr), t, used, fs.exclusive)
        ensures Faithful(blocks, blockMtime, unguarded, attr, t, used, fs.exclusive)
      {
        ForgetKeepsFaithful(old(blocks), old(blockMtime), old(unguarded), old(attr), t, used, fs.exclusive, blocks,
            blockMtime, attr);
      }
    }

    method Write(path: string, data: Bytes) returns (r: Result<nat, FsError>, ghost mid: Tree)
      requires Valid() && Canonical(path)
      modifies this`blocks, this`cachedBytes, this`blockMtime, this`lastReadEnd, this`attr, this`dirs, fs`tree, fs`used
      ensures Valid() && Moved(old(fs.tree), mid, old(fs.used)) && (fs.exclusive ==> mid == old(fs.tree))
      ensures forall b :: b in blocks ==> b in old(blocks)
      ensures forall q :: q in attr ==> q in old(attr) && attr[q] == old(attr)[q]
      ensures r.Ok? ==> WriteStep(mid, fs.tree, path, data) && r.value == |data|
      ensures Cache() == if r.Ok? then Without(old(Cache()), path) else old(Cache())
      ensures r.Ok? ==> CanWrite(mid, path)
      ensures r.Err? ==> fs.tree == mid && (fs.reliable ==> !CanWrite(mid, path))
    {
      hide Faithful, Sighted, Distinct, Total, Bounded, Drop, Below, Excused;
      r, mid := fs.Write(path, data);
      MoveKeepsFaithful(blocks, blockMtime, unguarded, attr, old(fs.tree), mid, old(fs.used), fs.used, fs.exclusive);
      if r.Ok? {
        Forget(path);
        ChangeKeepsFaithful(blocks, blockMtime, unguarded, attr, mid, fs.tree, fs.used, fs.used, fs.exclusive, path,
            path);
        if fs.exclusive {
          ChangeKeepsListable(dirs, mid, fs.tree, path, path);
        }
      }
    }

    method Mkdir(path: string) returns (r: Result<(), FsError>, ghost mid: Tree)
      requires Valid() && Canonical(path)
      modifies this`blocks, this`cachedBytes, this`blockMtime, this`lastReadEnd, this`attr, this`dirs, fs`tree, fs`used
      ensures Valid() && Moved(old(fs.tree), mid, old(fs.used)) && (fs.exclusive ==> mid == old(fs.tree))
      ensures forall b :: b in blocks ==> b in old(blocks)
      ensures forall q :: q in attr ==> q in old(attr) && attr[q] == old(attr)[q]
      ensures r.Ok? ==> MkdirStep(mid, fs.tree, path)
      ensures Cache() == if r.Ok? then Without(old(Cache()), path) else old(Cache())
      ensures r.Ok? ==> CanMkdir(mid, path)
      ensures r.Err? ==> fs.tree == mid && (fs.reliable ==> !CanMkdir(mid, path))
    {
      hide Faithful, Sighted, Distinct, Total, Bounded, Drop, Below, Excused;
      r, mid := fs.Mkdir(path);
      MoveKeepsFaithful(blocks, blockMtime, unguarded, attr, old(fs.tree), mid, old(fs.used), fs.used, fs.exclusive);
      if r.Ok? {
        Forget(path);
        ChangeKeepsFaithful(blocks, blockMtime, unguarded, attr, mid, fs.tree, fs.used, fs.used, fs.exclusive, path,
            path);
        if fs.exclusive {
          ChangeKeepsListable(dirs, mid, fs.tree, path, path);
        }
      }
    }

    method Unlink(path: string) returns (r: Result<(), FsError>, ghost mid: Tree)
      requires Valid() && Canonical(path)
      modifies this`blocks, this`cachedBytes, this`blockMtime, this`lastReadEnd, this`attr, this`dirs, fs`tree, fs`used
      ensures Valid() && Moved(old(fs.tree), mid, old(fs.used)) && (fs.exclusive ==> mid == old(fs.tree))
      ensures forall b :: b in blocks ==> b in old(blocks)
      ensures forall q :: q in attr ==> q in old(attr) && attr[q] == old(attr)[q]
      ensures r.Ok? ==> UnlinkStep(mid, fs.tree, path)
      ensures Cache() == if r.Ok? then Without(old(Cache()), path) else old(Cache())
      ensures r.Ok? ==> CanUnlink(mid, path)
      ensures r.Err? ==> fs.tree == mid && (fs.reliable ==> !CanUnlink(mid, path))
    {
      hide Faithful, Sighted, Distinct, Total, Bounded, Drop, Below, Excused;
      r, mid := fs.Unlink(path);
      MoveKeepsFaithful(blocks, blockMtime, unguarded, attr, old(fs.tree), mid, old(fs.used), fs.used, fs.exclusive);
      if r.Ok? {
        Forget(path);
        ChangeKeepsFaithful(blocks, blockMtime, unguarded, attr, mid, fs.tree, fs.used, fs.used, fs.exclusive, path,
            path);
        if fs.exclusive {
          ChangeKeepsListable(dirs, mid, fs.tree, path, path);
        }
      }
    }

    method Rmdir(path: string) returns (r: Result<(), FsError>, ghost mid: Tree)
      requires Valid() && Canonical(path)
      modifies this`blocks, this`cachedBytes, this`blockMtime, this`lastReadEnd, this`attr, this`dirs, fs`tree, fs`used
      ensures Valid() && Moved(old(fs.tree), mid, old(fs.used)) && (fs.exclusive ==> mid == old(fs.tree))
      ensures forall b :: b in blocks ==> b in old(blocks)
      ensures forall q :: q in attr ==> q in old(attr) && attr[q] == old(attr)[q]
      ensures r.Ok? ==> RmdirStep(mid, fs.tree, path)
      ensures Cache() == if r.Ok? then Without(old(Cache()), path) else old(Cache())
      ensures r.Ok? ==> CanRmdir(mid, path)
      ensures r.Err? ==> fs.tree == mid && (fs.reliable ==> !CanRmdir(mid, path))
    {
      hide Faithful, Sighted, Distinct, Total, Bounded, Drop, Below, Excused;
      r, mid := fs.Rmdir(path);
      MoveKeepsFaithful(blocks, blockMtime, unguarded, attr, old(fs.tree), mid, old(fs.used), fs.used, fs.exclusive);
      if r.Ok? {
        Forget(path);
        ChangeKeepsFaithful(blocks, blockMtime, unguarded, attr, mid, fs.tree, fs.used, fs.used, fs.exclusive, path,
            path);
        if fs.exclusive {
          ChangeKeepsListable(dirs, mid, fs.tree, path, path);
        }
      }
    }

    method Rename(src: string, dst: string) returns (r: Result<(), FsError>, ghost mid: Tree)
      requires Valid() && Canonical(src) && Canonical(dst)
      modifies this`blocks, this`cachedBytes, this`blockMtime, this`lastReadEnd, this`attr, this`dirs, fs`tree, fs`used
      ensures Valid() && Moved(old(fs.tree), mid, old(fs.used)) && (fs.exclusive ==> mid == old(fs.tree))
      ensures forall b :: b in blocks ==> b in old(blocks)
      ensures forall q :: q in attr ==> q in old(attr) && attr[q] == old(attr)[q]
      ensures r.Ok? ==> RenameStep(mid, fs.tree, src, dst)
      ensures Cache() == if r.Ok? then Without(Without(old(Cache()), src), dst) else old(Cache())
      ensures r.Ok? ==> CanRename(mid, src, dst)
      ensures r.Err? ==> fs.tree == mid && (fs.reliable ==> !CanRename(mid, src, dst))
    {
      hide Faithful, Sighted, Distinct, Total, Bounded, Drop, Below, Excused;
      r, mid := fs.Rename(src, dst);
      MoveKeepsFaithful(blocks, blockMtime, unguarded, attr, old(fs.tree), mid, old(fs.used), fs.used, fs.exclusive);
      if r.Ok? {
        Forget(src);
        Forget(dst);
        ChangeKeepsFaithful(blocks, blockMtime, unguarded, attr, mid, fs.tree, fs.used, fs.used, fs.exclusive, src,
            dst);
        if fs.exclusive {
          ChangeKeepsListable(dirs, mid, fs.tree, src, dst);
        }
      }
    }
  }
}

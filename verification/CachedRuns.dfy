/** Whole runs of the caching layer: with nobody else changing the server, every run
    through the cache is a run of the plain remote file system. */
module CachedRuns {
  import opened Basics
  import opened RemoteTree
  import opened RemoteFs
  import opened BlockStore
  import opened VfsCache

  datatype Op =
    | ReadAt(path: string, offset: nat, length: int)
    | StatOf(path: string, now: real)
    | ListOf(path: string, now: real)
    | WriteAll(path: string, data: Bytes)
    | MakeDir(path: string)
    | Move(src: string, dst: string)
    | RemoveFile(path: string)
    | RemoveDir(path: string)
    | Flush(path: string)

  datatype Reply =
    | Data(bytes: Result<Bytes, FsError>)
    | Attributes(stat: Result<Stat, FsError>)
    | Names(entries: Result<seq<DirEntry>, FsError>)
    | Size(size: Result<nat, FsError>)
    | Done(done: Result<(), FsError>)

  predicate CanonicalOp(op: Op) {
    match op
    case Move(src, dst) => Canonical(src) && Canonical(dst)
    case _ => Canonical(op.path)
  }

  /** What the plain remote file system answers and becomes. A refusal changes nothing, and on
      a reliable one whether an operation goes through is determined. Directory stamps are left
      open, and what a listing shows is said over the whole run: the cache may serve those late. */
  ghost predicate PlainStep(reliable: bool, t: Tree, op: Op, reply: Reply, t': Tree) {
    match op
    case ReadAt(path, offset, length) =>
      && reply.Data? && t' == t && HonestRead(t, path, offset, length, reply.bytes)
      && (reliable ==> reply.bytes == TrueRead(t, path, offset, length))
    case StatOf(path, _) =>
      && reply.Attributes? && t' == t && HonestKindAndSize(t, path, reply.stat)
      && (reliable ==> (reply.stat.Ok? <==> path in t))
    case ListOf(path, _) =>
      && reply.Names? && t' == t && (reply.entries.Ok? ==> IsDirectory(t, path))
      && (reliable && IsDirectory(t, path) ==> reply.entries.Ok?)
    case WriteAll(path, data) =>
      && reply.Size? && (reply.size.Ok? ==> CanWrite(t, path)) && (reliable && CanWrite(t, path) ==> reply.size.Ok?)
      && if reply.size.Ok? then WriteStep(t, t', path, data) && reply.size.value == |data| else t' == t
    case MakeDir(path) =>
      GoesThrough(reliable, reply, CanMkdir(t, path)) && if reply.done.Ok? then MkdirStep(t, t', path) else t' == t
    case Move(src, dst) =>
      && GoesThrough(reliable, reply, CanRename(t, src, dst))
      && if reply.done.Ok? then RenameStep(t, t', src, dst) else t' == t
    case RemoveFile(path) =>
      GoesThrough(reliable, reply, CanUnlink(t, path)) && if reply.done.Ok? then UnlinkStep(t, t', path) else t' == t
    case RemoveDir(path) =>
      GoesThrough(reliable, reply, CanRmdir(t, path)) && if reply.done.Ok? then RmdirStep(t, t', path) else t' == t
    case Flush(_) => reply == Done(Ok(())) && t' == t
  }

  predicate GoesThrough(reliable: bool, reply: Reply, possible: bool) {
    reply.Done? && (reply.done.Ok? ==> possible) && (reliable && possible ==> reply.done.Ok?)
  }

  /** An operation remembers an attribute only for the path that it asks for, until one time to live later. */
  predicate Remembers(attr0: map<string, Attr>, attr: map<string, Attr>, op: Op, ttl: real) {
    forall q :: q in attr ==>
        (q in attr0 && attr[q] == attr0[q]) || (op.StatOf? && op.path == q && attr[q].expiry == op.now + ttl)
  }

  /** The operation makes the cache forget what it holds of the path `q`: it has changed or flushed something at
      or above it. */
  predicate Forgets(op: Op, reply: Reply, q: string) {
    match op
    case WriteAll(path, _) => reply.Size? && reply.size.Ok? && AtOrBelow(q, path)
    case Move(src, dst) => reply.Done? && reply.done.Ok? && (AtOrBelow(q, src) || AtOrBelow(q, dst))
    case MakeDir(path) => reply.Done? && reply.done.Ok? && AtOrBelow(q, path)
    case RemoveFile(path) => reply.Done? && reply.done.Ok? && AtOrBelow(q, path)
    case RemoveDir(path) => reply.Done? && reply.done.Ok? && AtOrBelow(q, path)
    case Flush(path) => AtOrBelow(q, path)
    case _ => false
  }

  /** The remembered listings after an operation: a fresh one is served and stays, one that is asked for is true
      of the tree `t` and is remembered until one time to live later, and what is forgotten goes. */
  ghost predicate ListingsAfter(
    dirs0: map<string, Listing>, dirs: map<string, Listing>, op: Op, reply: Reply, ttl: real, t: Tree)
  {
    match op
    case ListOf(path, now) =>
      && reply.Names?
      && (if path in dirs0 && dirs0[path].expiry > now then reply.entries == Ok(dirs0[path].entries) && dirs == dirs0
          else if reply.entries.Ok? then
            && HonestListing(t, path, reply.entries.value)
            && dirs == dirs0[path := Listing(reply.entries.value, now + ttl)]
          else dirs == dirs0)
    case _ => forall q :: q in dirs ==> q in dirs0 && dirs[q] == dirs0[q] && !Forgets(op, reply, q)
  }

  /** A log vouches for a listing that it shows to be given just now or less than one time to live ago. */
  ghost predicate Vouched(log: seq<Sighting>, path: string, now: real, entries: seq<DirEntry>, ttl: real) {
    exists s :: s in log && s.SawListing? && s.path == path && s.entries == entries && (s.at == now || now < s.at + ttl)
  }

  /** The same for an answer to a stat that is no refusal. */
  ghost predicate VouchedStat(log: seq<Sighting>, path: string, now: real, r: Result<Stat, FsError>, ttl: real) {
    r == Err(Refused)
    || exists s :: s in log && s.SawStat? && s.path == path && r == Answer(Attr(s.reply, 0.0))
                   && (s.at == now || now < s.at + ttl)
  }

  /** A listing or an attribute that is served was given by the server just now or less than one time to live ago. */
  ghost predicate Timely(log: seq<Sighting>, op: Op, reply: Reply, ttl: real) {
    match op
    case StatOf(path, now) => reply.Attributes? && VouchedStat(log, path, now, reply.stat, ttl)
    case ListOf(path, now) =>
      reply.Names? && (reply.entries.Ok? ==> Vouched(log, path, now, reply.entries.value, ttl))
    case ReadAt(_, _, length) => reply.Data? && (reply.bytes.Ok? ==> |reply.bytes.value| <= Max(0, length))
    case WriteAll(_, _) => reply.Size?
    case _ => reply.Done?
  }

  lemma StaysTimely(log: seq<Sighting>, more: seq<Sighting>, op: Op, reply: Reply, ttl: real)
    requires Timely(log, op, reply, ttl) && log <= more
    ensures Timely(more, op, reply, ttl)
  {
    match op {
      case StatOf(path, now) =>
        if reply.stat != Err(Refused) {
          var s :| s in log && s.SawStat? && s.path == path && reply.stat == Answer(Attr(s.reply, 0.0))
                   && (s.at == now || now < s.at + ttl);
          assert s in more;
        }
      case ListOf(path, now) =>
        if reply.entries.Ok? {
          var s :| s in log && s.SawListing? && s.path == path && s.entries == reply.entries.value
                   && (s.at == now || now < s.at + ttl);
          assert s in more;
        }
      case _ =>
    }
  }

  /** What an operation through the cache answers and leaves. */
  twostate predicate Stepped(c: CachingFS, op: Op, reply: Reply)
    reads c, c.fs
  {
    && old(c.fs.log) <= c.fs.log
    && (c.fs.exclusive ==> PlainStep(c.fs.reliable, old(c.fs.tree), op, reply, c.fs.tree))
    && ListingsAfter(old(c.dirs), c.dirs, op, reply, c.attrTtl, c.fs.tree)
    && StaysGuarded(old(c.blocks), old(c.unguarded), c.blocks, c.unguarded, c.fs.log[|old(c.fs.log)|..])
    && (op.ReadAt? || c.unguarded == old(c.unguarded))
    && Remembers(old(c.attr), c.attr, op, c.attrTtl)
    && Timely(c.fs.log, op, reply, c.attrTtl)
  }

  method StepRead(c: CachingFS, path: string, offset: nat, length: int) returns (reply: Reply)
    requires c.Valid() && Canonical(path)
    modifies c, c.fs
    ensures c.Valid() && Stepped(c, ReadAt(path, offset, length), reply)
  {
    hide AllTruthful, Moved, CachingFS.Valid, HonestRead, TrueRead, StaysGuarded, SaidAbsent, KeptBy, BlocksAfter,
        Looked,
        ExactPath, Guarded, Canonical;
    var r := c.Read(path, offset, length);
    reply := Data(r);
  }

  method StepStat(c: CachingFS, path: string, now: real) returns (reply: Reply)
    requires c.Valid() && Canonical(path)
    modifies c, c.fs
    ensures c.Valid() && Stepped(c, StatOf(path, now), reply)
  {
    hide AllTruthful, Moved, CachingFS.Valid, StaysGuarded, SaidAbsent, AfterStat, ExactPath, Guarded, Canonical;
    var r := c.Stat(path, now);
    FewerGuarded(old(c.blocks), c.blocks, c.unguarded, c.fs.log[|old(c.fs.log)|..]);
    reply := Attributes(r);
    assert !old(c.FreshEntry(path, now)) && r != Err(Refused) ==>
        c.fs.log[|c.fs.log| - 1] == SawStat(now, path, if r.Ok? then Some(r.value) else None, c.fs.tree);
  }

  method StepList(c: CachingFS, path: string, now: real) returns (reply: Reply)
    requires c.Valid() && Canonical(path)
    modifies c, c.fs
    ensures c.Valid() && Stepped(c, ListOf(path, now), reply)
  {
    hide HonestListing, AllTruthful, Moved, CachingFS.Valid, StaysGuarded, SaidAbsent, Guarded, Canonical;
    var r := c.ListDir(path, now);
    FewerGuarded(old(c.blocks), c.blocks, c.unguarded, c.fs.log[|old(c.fs.log)|..]);
    reply := Names(r);
    assert !old(c.FreshListing(path, now)) && r.Ok? ==> SawListing(now, path, r.value, c.fs.tree) in c.fs.log;
  }

  /** What a change that went through, or a flush, leaves in the cache. */
  function AfterChange(s: Cached, op: Op, reply: Reply): Cached {
    match op
    case WriteAll(path, _) => if reply.Size? && reply.size.Ok? then Without(s, path) else s
    case MakeDir(path) => if reply.Done? && reply.done.Ok? then Without(s, path) else s
    case Move(src, dst) => if reply.Done? && reply.done.Ok? then Without(Without(s, src), dst) else s
    case RemoveFile(path) => if reply.Done? && reply.done.Ok? then Without(s, path) else s
    case RemoveDir(path) => if reply.Done? && reply.done.Ok? then Without(s, path) else s
    case Flush(path) => Without(s, path)
    case _ => s
  }

  lemma ListingsForgotten(s: Cached, op: Op, reply: Reply, ttl: real, t: Tree)
    requires !op.ListOf?
    ensures ListingsAfter(s.dirs, AfterChange(s, op, reply).dirs, op, reply, ttl, t)
  {
    hide AtOrBelow, Drop;
  }

  method Change(c: CachingFS, op: Op) returns (reply: Reply)
    requires c.Valid() && CanonicalOp(op) && !(op.ReadAt? || op.StatOf? || op.ListOf?)
    modifies c, c.fs
    ensures c.Valid() && Stepped(c, op, reply) && c.Cache() == AfterChange(old(c.Cache()), op, reply)
  {
    hide ListingsAfter, Without, AtOrBelow, AllTruthful, Moved, CachingFS.Valid, WriteStep, MkdirStep, RenameStep,
        UnlinkStep, RmdirStep, CanWrite,
        CanMkdir, CanRename, CanUnlink, CanRmdir, Canonical, StaysGuarded, Apply, Clear;
    match op {
      case WriteAll(path, data) =>
        var r, _ := c.Write(path, data);
        reply := Size(r);
      case MakeDir(path) =>
        var r, _ := c.Mkdir(path);
        reply := Done(r);
      case Move(src, dst) =>
        var r, _ := c.Rename(src, dst);
        reply := Done(r);
      case RemoveFile(path) =>
        var r, _ := c.Unlink(path);
        reply := Done(r);
      case RemoveDir(path) =>
        var r, _ := c.Rmdir(path);
        reply := Done(r);
      case Flush(path) =>
        c.Invalidate(path);
        reply := Done(Ok(()));
    }
    ListingsForgotten(old(c.Cache()), op, reply, c.attrTtl, c.fs.tree);
    FewerGuarded(old(c.blocks), c.blocks, c.unguarded, c.fs.log[|old(c.fs.log)|..]);
  }

  /** One operation through the cache. */
  method Step(c: CachingFS, op: Op) returns (reply: Reply)
    requires c.Valid() && CanonicalOp(op)
    modifies c, c.fs
    ensures c.Valid() && Stepped(c, op, reply)
  {
    hide Stepped, CachingFS.Valid, Canonical;
    match op {
      case ReadAt(path, offset, length) => reply := StepRead(c, path, offset, length);
      case StatOf(path, now) => reply := StepStat(c, path, now);
      case ListOf(path, now) => reply := StepList(c, path, now);
      case _ => reply := Change(c, op);
    }
  }

  /** No operation from `from` on, up to `to`, has changed or flushed anything at or above the path. */
  predicate Undisturbed(ops: seq<Op>, replies: seq<Reply>, path: string, from: nat, to: nat)
    requires to <= |ops| && to <= |replies|
  {
    forall k :: from <= k < to ==> !Forgets(ops[k], replies[k], path)
  }

  /** The listing that operation `i` delivered was true when an earlier (or this) operation of the run asked
      the server for it, less than one time to live ago; or the server had given it before the run. In between
      nothing at or above the path has been changed through the cache. */
  ghost predicate ListedTruly(
    ttl: real, log: seq<Sighting>, trees: seq<Tree>, ops: seq<Op>, replies: seq<Reply>, i: nat, entries: seq<DirEntry>)
    requires i < |ops| && i < |trees| && i <= |replies| && ops[i].ListOf?
  {
    || (exists j :: 0 <= j <= i && AskedAt(ttl, ops, replies, i, j) && HonestListing(trees[j], ops[i].path, entries))
    || (Undisturbed(ops, replies, ops[i].path, 0, i) && SeenBefore(ttl, log, ops[i].path, ops[i].now, entries))
  }

  ghost predicate AskedAt(ttl: real, ops: seq<Op>, replies: seq<Reply>, i: nat, j: int)
    requires i < |ops| && i <= |replies| && ops[i].ListOf?
  {
    && 0 <= j <= i && ops[j].ListOf? && ops[j].path == ops[i].path
    && (j == i || ops[i].now < ops[j].now + ttl) && Undisturbed(ops, replies, ops[i].path, j + 1, i)
  }

  ghost predicate SeenBefore(ttl: real, log: seq<Sighting>, path: string, now: real, entries: seq<DirEntry>) {
    exists s :: s in log && s.SawListing? && s.path == path && s.entries == entries
                && HonestListing(s.tree, s.path, s.entries) && now < s.at + ttl
  }

  /** Operation `j` asked for this listing, and nothing has disturbed it since. */
  ghost predicate ListedAt(
    ttl: real, trees: seq<Tree>, ops: seq<Op>, replies: seq<Reply>, n: nat, j: int, q: string, d: Listing)
    requires n <= |ops| && n <= |trees| && n <= |replies|
  {
    && 0 <= j < n && ops[j].ListOf? && ops[j].path == q && d.expiry == ops[j].now + ttl
    && HonestListing(trees[j], q, d.entries) && Undisturbed(ops, replies, q, j + 1, n)
  }

  /** Every remembered listing was there at the start or was asked for by one of the first `n` operations, and
      nothing has disturbed it since. */
  ghost predicate FromRun(
    dirs0: map<string, Listing>, dirs: map<string, Listing>, ttl: real, trees: seq<Tree>, ops: seq<Op>,
    replies: seq<Reply>, n: nat)
    requires n <= |ops| && n <= |trees| && n <= |replies|
  {
    forall q :: q in dirs ==>
        || (q in dirs0 && dirs[q] == dirs0[q] && Undisturbed(ops, replies, q, 0, n))
        || exists j :: ListedAt(ttl, trees, ops, replies, n, j, q, dirs[q])
  }

  lemma RunGoesOn(
    dirs0: map<string, Listing>, dirs: map<string, Listing>, dirs': map<string, Listing>, ttl: real, trees: seq<Tree>,
    t': Tree, ops: seq<Op>, replies: seq<Reply>, reply: Reply)
    requires |replies| < |ops| && |trees| == |replies| + 1
    requires FromRun(dirs0, dirs, ttl, trees, ops, replies, |replies|)
    requires ListingsAfter(dirs, dirs', ops[|replies|], reply, ttl, trees[|replies|])
    ensures FromRun(dirs0, dirs', ttl, trees + [t'], ops, replies + [reply], |replies| + 1)
  {
    hide HonestListing;
    var n, m, op, rs, ts := |replies|, |replies| + 1, ops[|replies|], replies + [reply], trees + [t'];
    assert rs[n] == reply && ts[n] == trees[n];
    forall q | q in dirs' && !(q in dirs0 && dirs'[q] == dirs0[q] && Undisturbed(ops, rs, q, 0, m))
      ensures exists j :: ListedAt(ttl, ts, ops, rs, m, j, q, dirs'[q])
    {
      if q in dirs && dirs'[q] == dirs[q] && !Forgets(op, reply, q) {
        if !(q in dirs0 && dirs[q] == dirs0[q] && Undisturbed(ops, replies, q, 0, n)) {
          var j :| ListedAt(ttl, trees, ops, replies, n, j, q, dirs[q]);
          assert ts[j] == trees[j];
          assert ListedAt(ttl, ts, ops, rs, m, j, q, dirs'[q]);
        }
      } else {
        assert ListedAt(ttl, ts, ops, rs, m, n, q, dirs'[q]);
      }
    }
  }

  /** What is served is what was asked for before, or is asked for now. */
  lemma ServedTruly(
    dirs0: map<string, Listing>, log: seq<Sighting>, dirs: map<string, Listing>, dirs': map<string, Listing>, ttl: real,
    trees: seq<Tree>, ops: seq<Op>, replies: seq<Reply>, reply: Reply)
    requires |replies| < |ops| && |trees| > |replies| && ops[|replies|].ListOf? && reply.Names? && reply.entries.Ok?
    requires FromRun(dirs0, dirs, ttl, trees, ops, replies, |replies|)
    requires ListingsAfter(dirs, dirs', ops[|replies|], reply, ttl, trees[|replies|])
    requires AllTruthful(log) && Sighted(map[], dirs0, ttl, log)
    ensures ListedTruly(ttl, log, trees, ops, replies, |replies|, reply.entries.value)
  {
    hide HonestListing;
    var i, op, entries := |replies|, ops[|replies|], reply.entries.value;
    if op.path in dirs && dirs[op.path].expiry > op.now {
      if exists j :: ListedAt(ttl, trees, ops, replies, i, j, op.path, dirs[op.path]) {
        var j :| ListedAt(ttl, trees, ops, replies, i, j, op.path, dirs[op.path]);
        assert AskedAt(ttl, ops, replies, i, j);
      } else {
        var s :| s in log && IsListingSighting(s, op.path, dirs0[op.path], ttl);
        assert Truthful(s);
        assert SeenBefore(ttl, log, op.path, op.now, entries);
      }
    } else {
      assert AskedAt(ttl, ops, replies, i, i);
    }
  }

  /** The trees and replies of a run of the plain remote file system, listings served up to `ttl` late. */
  ghost predicate PlainRun(
    reliable: bool, ttl: real, log: seq<Sighting>, trees: seq<Tree>, ops: seq<Op>, replies: seq<Reply>)
  {
    && |trees| == |ops| + 1 && |replies| == |ops|
    && (forall i :: 0 <= i < |ops| ==> PlainStep(reliable, trees[i], ops[i], replies[i], trees[i + 1]))
    && (forall i :: 0 <= i < |ops| && ops[i].ListOf? && replies[i].Names? && replies[i].entries.Ok? ==>
                      ListedTruly(ttl, log, trees, ops, replies, i, replies[i].entries.value))
  }

  lemma PlainRunGoesOn(
    reliable: bool, ttl: real, log: seq<Sighting>, trees: seq<Tree>, ops: seq<Op>, replies: seq<Reply>,
    op: Op, reply: Reply, t': Tree)
    requires PlainRun(reliable, ttl, log, trees, ops, replies)
    requires PlainStep(reliable, trees[|ops|], op, reply, t')
    requires op.ListOf? && reply.Names? && reply.entries.Ok? ==>
               ListedTruly(ttl, log, trees, ops + [op], replies, |ops|, reply.entries.value)
    ensures PlainRun(reliable, ttl, log, trees + [t'], ops + [op], replies + [reply])
  {
    hide PlainStep, HonestListing;
    forall i | 0 <= i < |ops| && ops[i].ListOf? && replies[i].Names? && replies[i].entries.Ok?
      ensures ListedTruly(ttl, log, trees + [t'], ops + [op], replies + [reply], i, replies[i].entries.value)
    {
      ListedStays(ttl, log, trees, ops, replies, i, replies[i].entries.value, trees + [t'], ops + [op],
          replies + [reply]);
    }
    if op.ListOf? && reply.Names? && reply.entries.Ok? {
      ListedStays(
        ttl, log, trees, ops + [op], replies, |ops|, reply.entries.value, trees + [t'], ops + [op], replies + [reply]);
    }
  }

  lemma ListedStays(
    ttl: real, log: seq<Sighting>, trees: seq<Tree>, ops: seq<Op>, replies: seq<Reply>, i: nat, entries: seq<DirEntry>,
    trees': seq<Tree>, ops': seq<Op>, replies': seq<Reply>)
    requires i < |ops| && i < |trees| && i <= |replies| && ops[i].ListOf?
    requires trees <= trees' && ops <= ops' && replies <= replies'
    requires ListedTruly(ttl, log, trees, ops, replies, i, entries)
    ensures ListedTruly(ttl, log, trees', ops', replies', i, entries)
  {
    hide HonestListing, SeenBefore;
    assert forall k :: 0 <= k < i ==> ops'[k] == ops[k] && replies'[k] == replies[k];
    if j :| 0 <= j <= i && AskedAt(ttl, ops, replies, i, j) && HonestListing(trees[j], ops[i].path, entries) {
      assert ops'[j] == ops[j] && trees'[j] == trees[j] && AskedAt(ttl, ops', replies', i, j);
    }
  }

  method Run(c: CachingFS, ops: seq<Op>) returns (replies: seq<Reply>, ghost trees: seq<Tree>)
    requires c.Valid() && c.fs.exclusive
    requires forall i :: 0 <= i < |ops| ==> CanonicalOp(ops[i])
    modifies c, c.fs
    ensures c.Valid() && PlainRun(c.fs.reliable, c.attrTtl, old(c.fs.log), trees, ops, replies)
    ensures trees[0] == old(c.fs.tree) && trees[|ops|] == c.fs.tree
  {
    hide PlainStep, ListedTruly, ListingsAfter, FromRun, Sighted, AllTruthful, StaysGuarded, Remembers, Timely;
    replies, trees := [], [c.fs.tree];
    ghost var dirs0, log0 := c.dirs, c.fs.log;
    LogIsTrue(c);
    RunStarts(dirs0, c.attrTtl, trees, ops);
    for i := 0 to |ops|
      invariant c.Valid() && |trees| == i + 1 && |replies| == i
      invariant trees[0] == old(c.fs.tree) && trees[i] == c.fs.tree
      invariant PlainRun(c.fs.reliable, c.attrTtl, log0, trees, ops[..i], replies)
      invariant FromRun(dirs0, c.dirs, c.attrTtl, trees, ops, replies, i)
    {
      ghost var dirs1 := c.dirs;
      var reply := Step(c, ops[i]);
      ListingMetTree(dirs1, c.dirs, ops[i], reply, c.fs.reliable, c.attrTtl, trees[i], c.fs.tree);
      if ops[i].ListOf? && reply.Names? && reply.entries.Ok? {
        ServedTruly(dirs0, log0, dirs1, c.dirs, c.attrTtl, trees, ops, replies, reply);
        TrulySoFar(c.attrTtl, log0, trees, ops, replies, reply.entries.value);
      }
      RunGoesOn(dirs0, dirs1, c.dirs, c.attrTtl, trees, c.fs.tree, ops, replies, reply);
      assert ops[..i] + [ops[i]] == ops[..i + 1];
      PlainRunGoesOn(c.fs.reliable, c.attrTtl, log0, trees, ops[..i], replies, ops[i], reply, c.fs.tree);
      replies, trees := replies + [reply], trees + [c.fs.tree];
    }
    assert ops[..|ops|] == ops;
  }

  lemma LogIsTrue(c: CachingFS)
    requires c.Valid()
    ensures AllTruthful(c.fs.log) && Sighted(map[], c.dirs, c.attrTtl, c.fs.log)
  {
  }

  /** A listing leaves the tree alone, so that the tree it met is the one before it. */
  lemma ListingMetTree(
    dirs: map<string, Listing>, dirs': map<string, Listing>, op: Op, reply: Reply, reliable: bool, ttl: real, t: Tree,
    t': Tree)
    requires ListingsAfter(dirs, dirs', op, reply, ttl, t') && PlainStep(reliable, t, op, reply, t')
    ensures ListingsAfter(dirs, dirs', op, reply, ttl, t)
  {
    hide HonestListing;
  }

  lemma RunStarts(dirs: map<string, Listing>, ttl: real, trees: seq<Tree>, ops: seq<Op>)
    requires |trees| == 1
    ensures FromRun(dirs, dirs, ttl, trees, ops, [], 0)
  {
  }

  lemma TrulySoFar(
    ttl: real, log: seq<Sighting>, trees: seq<Tree>, ops: seq<Op>, replies: seq<Reply>, entries: seq<DirEntry>)
    requires |replies| < |ops| && |trees| > |replies| && ops[|replies|].ListOf?
    requires ListedTruly(ttl, log, trees, ops, replies, |replies|, entries)
    ensures
      var i := |replies|;
      ListedTruly(ttl, log, trees, ops[..i] + [ops[i]], replies, i, entries)
  {
    hide HonestListing, SeenBefore;
    var i := |replies|;
    var part := ops[..i] + [ops[i]];
    assert forall k :: 0 <= k <= i ==> part[k] == ops[k];
    if j :| 0 <= j <= i && AskedAt(ttl, ops, replies, i, j) && HonestListing(trees[j], ops[i].path, entries) {
      assert AskedAt(ttl, part, replies, i, j);
    }
  }

  /** Others create, delete and rewrite files between operations: the cache stays coherent. */
  method OthersAct(c: CachingFS)
    requires c.Valid()
    modifies c.fs`tree, c.fs`used
    ensures c.Valid() && c.Acted(old(c.fs.tree), old(c.fs.used))
  {
    hide Moved, Faithful;
    c.fs.Drift();
    MoveKeepsFaithful(
      c.blocks, c.blockMtime, c.unguarded, c.attr, old(c.fs.tree), c.fs.tree, old(c.fs.used), c.fs.used,
          c.fs.exclusive);
  }

  /** A stat that reached the server, then a read during which the file holds still: whatever others did
      before, the read is exact, if the server has never said since the cache was made that the path is not
      there, or if none of its blocks was cached while it had no stamp. Where nothing is refused, neither is
      for a file that holds still. */
  method StatThenRead(c: CachingFS, path: string, now: real, offset: nat, length: int)
    returns (st: Result<Stat, FsError>, r: Result<Bytes, FsError>)
    requires c.Valid() && Canonical(path) && !c.FreshEntry(path, now)
    modifies c, c.fs
    ensures c.Valid() && old(c.fs.log) <= c.fs.log
    ensures st.Ok? && st.value.kind == FileKind && IsFile(c.fs.tree, path) && c.fs.tree[path].mtime == st.value.mtime
            && (c.AlwaysThere(path) || old(Guarded(c.blocks, c.unguarded, path))) ==>
              && HonestRead(c.fs.tree, path, offset, length, r)
              && (c.fs.reliable ==> r == TrueRead(c.fs.tree, path, offset, length))
    ensures c.fs.reliable && SameFile(old(c.fs.tree), c.fs.tree, path) ==> st == Ok(StatNode(c.fs.tree[path]))
    ensures st.Ok? ==>
              exists t: Tree :: SawStat(now, path, Some(st.value), t) in c.fs.log[|old(c.fs.log)|..]
  {
    hide CachingFS.Valid, ExactPath, Moved, Guarded, SaidAbsent, KeptBy, StaysGuarded, BlocksAfter, Looked, Slice,
        Noted, AfterStat, RemoteFS.Valid, BelowFile, Canonical;
    ghost var t0, used0, bs0, stamps0 := c.fs.tree, c.fs.used, c.blocks, c.blockMtime;
    c.ValidStamps();
    st := c.Stat(path, now);
    ghost var t1, used1, log1 := c.fs.tree, c.fs.used, c.fs.log;
    c.ValidStamps();
    assert IsFile(t1, path) ==> (path, t1[path].mtime) in StampsOf(t1);
    if st.Ok? && Guarded(bs0, c.unguarded, path) {
      GuardedAfterStat(bs0, stamps0, c.unguarded, path, st.value.mtime);
    }
    r := c.Read(path, offset, length);
    MoveTransitive(t0, t1, c.fs.tree, used0, used1);
    if SaidAbsent(log1[c.born..], path) {
      SaidBefore(log1, c.fs.log, c.born, path);
    }
    if SameFile(t0, c.fs.tree, path) {
      MoveSteady(t0, t1, c.fs.tree, used0, used1, path);
    }
    if st.Ok? {
      assert c.fs.log[|log1| - 1] == log1[|log1| - 1];
      assert c.fs.log[|old(c.fs.log)|..][0] == SawStat(now, path, Some(st.value), t1);
    }
    if st.Ok? && st.value.kind == FileKind && IsFile(c.fs.tree, path) && c.fs.tree[path].mtime == st.value.mtime {
      OldStamp(t1, c.fs.tree, used1, path);
    }
  }

  // ---- the recency model of the running cache -----------------------------------------

  /** The true answer, or a refusal where requests may be refused. */
  ghost predicate Answers(reliable: bool, t: Tree, op: CacheOp, r: Result<Bytes, FsError>) {
    match op
    case ReadOp(path, offset, length) =>
      HonestRead(t, path, offset, length, r) && (reliable ==> r == TrueRead(t, path, offset, length))
    case InvalidateOp(_) => r == Ok([])
  }

  /** No read of a file was refused. */
  ghost predicate Through(t: Tree, op: CacheOp, r: Result<Bytes, FsError>) {
    r.Ok? || !IsFile(t, op.path)
  }

  lemma ReliableGoesThrough(t: Tree, op: CacheOp, r: Result<Bytes, FsError>)
    requires Answers(true, t, op, r)
    ensures Through(t, op, r)
  {
  }

  /** One read or invalidation. A read of what is no file fails and leaves the blocks as they are. */
  method RunOne(c: CachingFS, op: CacheOp) returns (r: Result<Bytes, FsError>)
    requires c.Valid() && c.fs.exclusive && c.readahead <= 0 && Canonical(op.path)
    modifies c, c.fs
    ensures c.Valid() && c.fs.tree == old(c.fs.tree) && Answers(c.fs.reliable, c.fs.tree, op, r)
    ensures Through(c.fs.tree, op, r) ==>
              (c.blocks, c.blockHits - old(c.blockHits)) == Apply(old(c.blocks), c.maxBytes, c.fs.tree, op)
  {
    hide Apply, HonestRead, TrueRead, ExactPath, Moved, BlocksAfter, Looked, CachingFS.Valid, KeptBy, StaysGuarded,
        SaidAbsent;
    match op {
      case ReadOp(path, offset, length) =>
        c.ExclusiveIsSteady(path);
        NoReadApplies(c.blocks, c.maxBytes, c.fs.tree, path, offset, length);
        NoReadAhead(c.blocks, c.maxBytes, c.readahead, c.lastReadEnd, c.fs.tree, path, offset, length);
        r := c.Read(path, offset, length);
      case InvalidateOp(path) =>
        c.Invalidate(path);
        r := Ok([]);
    }
  }

  lemma NoReadApplies(bs: Lru, max: int, t: Tree, path: string, offset: nat, length: int)
    ensures length <= 0 || !IsFile(t, path) ==> Apply(bs, max, t, ReadOp(path, offset, length)) == (bs, 0)
  {
  }

  /** Without read-ahead, a run of reads and invalidations leaves the block cache, and counts the hits,
      exactly as the recency model says, if no read of a file was refused. */
  method RunReads(c: CachingFS, ops: seq<CacheOp>) returns (results: seq<Result<Bytes, FsError>>)
    requires c.Valid() && c.fs.exclusive && c.readahead <= 0
    requires forall i :: 0 <= i < |ops| ==> Canonical(ops[i].path)
    modifies c, c.fs
    ensures c.Valid() && c.fs.tree == old(c.fs.tree) && |results| == |ops|
    ensures forall i :: 0 <= i < |ops| ==> Answers(c.fs.reliable, c.fs.tree, ops[i], results[i])
    ensures c.fs.reliable || (forall i :: 0 <= i < |ops| ==> Through(c.fs.tree, ops[i], results[i])) ==>
              (c.blocks, c.blockHits - old(c.blockHits)) == ApplyAll(old(c.blocks), c.maxBytes, c.fs.tree, ops)
  {
    hide Apply, Answers, Through, CachingFS.Valid;
    results := [];
    ghost var whole, through := ApplyAll(c.blocks, c.maxBytes, c.fs.tree, ops), true;
    assert ops[0..] == ops;
    for i := 0 to |ops|
      invariant c.Valid() && c.fs.tree == old(c.fs.tree) && |results| == i
      invariant forall k :: 0 <= k < i ==> Answers(c.fs.reliable, c.fs.tree, ops[k], results[k])
      invariant through <==> forall k :: 0 <= k < i ==> Through(c.fs.tree, ops[k], results[k])
      invariant c.fs.reliable ==> through
      invariant through ==>
                  var rest := ApplyAll(c.blocks, c.maxBytes, c.fs.tree, ops[i..]);
                  whole == (rest.0, c.blockHits - old(c.blockHits) + rest.1)
    {
      assert ops[i..][0] == ops[i] && ops[i..][1..] == ops[i + 1..];
      var r := RunOne(c, ops[i]);
      if c.fs.reliable {
        ReliableGoesThrough(c.fs.tree, ops[i], r);
      }
      through := through && Through(c.fs.tree, ops[i], r);
      results := results + [r];
    }
    assert ops[|ops|..] == [];
  }

  /** The same reads and invalidations through two caches over one server: they answer alike, and the larger
      one ends with all that the smaller one holds, in the same order of recency, and with at least as many hits. */
  method CompareCaches(fs: RemoteFS, small: int, large: int, attrTtl: real, ops: seq<CacheOp>)
    returns (a: CachingFS, b: CachingFS, results: seq<Result<Bytes, FsError>>, others: seq<Result<Bytes, FsError>>)
    requires fs.Valid() && fs.exclusive && fs.reliable && small <= large
    requires forall i :: 0 <= i < |ops| ==> Canonical(ops[i].path)
    modifies fs
    ensures fresh(a) && fresh(b) && a.fs == b.fs == fs && a.maxBytes == small && b.maxBytes == large
    ensures fs.tree == old(fs.tree) && |results| == |ops| && others == results
    ensures forall i :: 0 <= i < |ops| ==> Answers(true, fs.tree, ops[i], results[i])
    ensures Suffix(a.blocks, b.blocks) && a.blockHits <= b.blockHits
  {
    hide ApplyAll, Answers, CachingFS.Valid;
    a := new CachingFS(fs, small, attrTtl, 0);
    results := RunReads(a, ops);
    a.ServerIsValid();
    b := new CachingFS(fs, large, attrTtl, 0);
    others := RunReads(b, ops);
    EmptyNested(small, large, fs.tree);
    LargerCacheIncludesSmaller([], [], small, large, fs.tree, ops);
    forall i | 0 <= i < |ops| ensures results[i] == others[i] {
      AnswersAlike(fs.tree, ops[i], results[i], others[i]);
    }
  }

  lemma EmptyNested(small: int, large: int, t: Tree)
    requires small <= large
    ensures Nested([], [], small, large, t)
  {
  }

  lemma AnswersAlike(t: Tree, op: CacheOp, r1: Result<Bytes, FsError>, r2: Result<Bytes, FsError>)
    requires Answers(true, t, op, r1) && Answers(true, t, op, r2)
    ensures r1 == r2
  {
  }
}

/** The client's view of the remote file system: large reads are stitched from
    agent replies, the agent stitches each reply from short operating-system reads,
    and other users may create, delete and rewrite files between two requests. */
module RemoteFs {
  import opened Basics
  import opened RemoteTree

  const MAX_READ: nat := 8 * 1024 * 1024
  const CHUNK: nat := 8 * 1024 * 1024

  /** os.read: at least one byte before the end of the file, never more than asked. */
  method OsRead(content: Bytes, pos: nat, want: nat) returns (chunk: Bytes)
    requires want > 0
    ensures |chunk| <= want && chunk == Slice(content, pos, |chunk|)
    ensures chunk == [] <==> pos >= |content|
  {
    if pos >= |content| {
      chunk := [];
    } else {
      assert 1 <= want && pos + 1 <= |content|;
      var n: nat :| 1 <= n <= want && pos + n <= |content|;
      chunk := content[pos..pos + n];
    }
  }

  /** The agent's read: capped, then looped until the length or the end of the file. */
  method AgentRead(content: Bytes, offset: int, length: int) returns (data: Bytes)
    ensures data == Slice(content, Max(0, offset), Min(length, MAX_READ))
  {
    var cap := Max(0, Min(length, MAX_READ));
    var start: nat := Max(0, offset);
    var remaining := cap;
    data := [];
    while remaining > 0
      invariant 0 <= remaining <= cap
      invariant data == Slice(content, start, cap - remaining) && |data| == cap - remaining
      decreases remaining
    {
      var chunk := OsRead(content, start + |data|, remaining);
      if chunk == [] {
        break;
      }
      data := data + chunk;
      remaining := remaining - |chunk|;
    }
    assert data == Slice(content, start, cap);
  }

  /** os.write: takes some of the bytes, at least one. */
  method OsWrite(file: Bytes, rest: Bytes) returns (file': Bytes, n: nat)
    requires rest != []
    ensures 1 <= n <= |rest| && file' == file + rest[..n]
  {
    assert 1 <= |rest|;
    n :| 1 <= n <= |rest|;
    file' := file + rest[..n];
  }

  /** The agent's write into a temporary file, looped until everything is there. */
  method AgentWrite(data: Bytes) returns (tmp: Bytes)
    ensures tmp == data
  {
    tmp := [];
    var written := 0;
    while written < |data|
      invariant written <= |data| && tmp == data[..written]
    {
      var n;
      tmp, n := OsWrite(tmp, data[written..]);
      assert data[..written] + data[written..][..n] == data[..written + n];
      written := written + n;
    }
  }

  /** The agent's directory scan, in whatever order the system yields the names. */
  method ScanDir(t: Tree, p: string) returns (entries: seq<DirEntry>)
    ensures HonestListing(t, p, entries)
  {
    var rest := set q | q in t && VisibleChild(q, p);
    var done: set<string> := {};
    entries := [];
    while rest != {}
      invariant rest !! done && rest + done == set q | q in t && VisibleChild(q, p)
      invariant forall q :: q in done ==> EntryOf(q, t[q]) in entries
      invariant forall e :: e in entries ==> exists q :: q in done && e == EntryOf(q, t[q])
      decreases rest
    {
      var q :| q in rest;
      rest, done := rest - {q}, done + {q};
      entries := entries + [EntryOf(q, t[q])];
    }
  }

  /** One more reply: it continues what has come so far, and is empty only at the end. */
  lemma SliceGrows(content: Bytes, offset: nat, out: Bytes, chunk: Bytes, want: nat)
    requires want > 0 && chunk == Slice(content, offset + |out|, want)
    requires out == [] || out == Slice(content, offset, |out|)
    ensures out + chunk == Slice(content, offset, |out| + |chunk|) && |chunk| <= want
    ensures chunk == [] ==> offset + |out| >= |content|
  {
  }

  lemma SliceEnds(content: Bytes, offset: nat, out: Bytes, length: nat)
    requires offset + |out| >= |content| && |out| <= length
    requires out == [] || out == Slice(content, offset, |out|)
    ensures out == Slice(content, offset, length)
  {
  }

  /** An answer the server gave to a request made when the client's clock read `at`, with the
      tree it gave it from; None says that the path was not there. */
  datatype Sighting =
    | SawStat(at: real, path: string, reply: Option<Stat>, tree: Tree)
    | SawListing(at: real, path: string, entries: seq<DirEntry>, tree: Tree)

  ghost predicate Truthful(s: Sighting) {
    match s
    case SawStat(_, path, Some(st), tree) => HonestStat(tree, path, Ok(st))
    case SawStat(_, path, None, tree) => HonestStat(tree, path, Err(NotFound))
    case SawListing(_, path, entries, tree) => HonestListing(tree, path, entries)
  }

  ghost predicate AllTruthful(log: seq<Sighting>) {
    forall s :: s in log ==> Truthful(s)
  }

  /** The server said at some moment that the path is not there. */
  ghost predicate SaidAbsent(log: seq<Sighting>, p: string) {
    exists s :: s in log && s.SawStat? && s.path == p && s.reply == None
  }

  lemma OneMoreSighting(log: seq<Sighting>, s: Sighting)
    requires AllTruthful(log) && Truthful(s)
    ensures AllTruthful(log + [s])
  {
    hide Truthful;
  }

  /** What an answer to a stat adds to the log; a refusal says nothing. */
  function StatSightings(at: real, path: string, r: Result<Stat, FsError>, t: Tree): seq<Sighting> {
    match r
    case Ok(st) => [SawStat(at, path, Some(st), t)]
    case Err(NotFound) => [SawStat(at, path, None, t)]
    case Err(Refused) => []
  }

  function ListSightings(at: real, path: string, r: Result<seq<DirEntry>, FsError>, t: Tree): seq<Sighting> {
    match r
    case Ok(entries) => [SawListing(at, path, entries, t)]
    case Err(_) => []
  }

  class RemoteFS {
    /** Nobody else changes the server's files. */
    const exclusive: bool
    /** No request is refused but for what it asks. */
    const reliable: bool
    var tree: Tree
    var used: Stamps
    /** Every answer given to a stat or a listing. */
    ghost var log: seq<Sighting>

    constructor (tree: Tree, exclusive: bool, reliable: bool)
      ensures Valid() && this.tree == tree && this.exclusive == exclusive && this.reliable == reliable
      ensures log == []
    {
      this.tree, this.exclusive, this.reliable, this.used := tree, exclusive, reliable, StampsOf(tree);
      log := [];
    }

    ghost predicate Valid()
      reads this
    {
      StampsOf(tree) <= used && AllTruthful(log)
    }

    /** Others act, while a request is on its way or between two operations. */
    method Drift()
      requires Valid()
      modifies this`tree, this`used
      ensures Valid() && old(used) <= used
      ensures Moved(old(tree), tree, old(used))
      ensures exclusive ==> tree == old(tree)
    {
      if !exclusive {
        NoMove(tree, used);
        var moved: Tree :| Moved(tree, moved, used);
        tree := moved;
        used := used + StampsOf(tree);
      }
    }

    /** Permissions, a read-only agent, a lost connection: any request may be refused. */
    method Refuses() returns (refused: bool)
      ensures reliable ==> !refused
    {
      refused := *;
      refused := refused && !reliable;
    }

    method Stat(path: string, ghost at: real) returns (r: Result<Stat, FsError>)
      requires Valid()
      modifies this`tree, this`used, this`log
      ensures Valid() && old(used) <= used
      ensures Moved(old(tree), tree, old(used))
      ensures exclusive ==> tree == old(tree)
      ensures HonestStat(tree, path, r)
      ensures reliable ==> r == TrueStat(tree, path)
      ensures log == old(log) + StatSightings(at, path, r, tree)
    {
      hide Moved, AllTruthful;
      Drift();
      var refused := Refuses();
      if refused {
        r := Err(Refused);
        assert log + [] == log;
      } else {
        r := if path in tree then Ok(StatNode(tree[path])) else Err(Absent(tree, path));
        if r == Err(Refused) {
          assert log + [] == log;
        } else {
          ghost var s := SawStat(at, path, if r.Ok? then Some(r.value) else None, tree);
          OneMoreSighting(log, s);
          log := log + [s];
        }
      }
    }

    /** What is not a directory, there or not, cannot be listed. */
    method ListDir(path: string, ghost at: real) returns (r: Result<seq<DirEntry>, FsError>)
      requires Valid()
      modifies this`tree, this`used, this`log
      ensures Valid() && old(used) <= used
      ensures Moved(old(tree), tree, old(used))
      ensures exclusive ==> tree == old(tree)
      ensures r.Ok? ==> IsDirectory(tree, path) && HonestListing(tree, path, r.value)
      ensures r.Err? ==> r.error == Refused && (reliable ==> !IsDirectory(tree, path))
      ensures log == old(log) + ListSightings(at, path, r, tree)
    {
      hide Moved, AllTruthful, HonestListing;
      Drift();
      var refused := Refuses();
      if refused || !IsDirectory(tree, path) {
        r := Err(Refused);
        assert log + [] == log;
      } else {
        var entries := ScanDir(tree, path);
        r := Ok(entries);
        OneMoreSighting(log, SawListing(at, path, entries, tree));
        log := log + [SawListing(at, path, entries, tree)];
      }
    }

    /** One read request answered by the agent. */
    method Request(path: string, offset: nat, length: int) returns (r: Result<Bytes, FsError>)
      requires Valid()
      modifies this`tree, this`used
      ensures Valid() && old(used) <= used
      ensures Moved(old(tree), tree, old(used))
      ensures exclusive ==> tree == old(tree)
      ensures r.Ok? ==> IsFile(tree, path) && r.value == Slice(tree[path].content, offset, Min(length, MAX_READ))
      ensures r == Err(NotFound) ==> path !in tree
      ensures reliable && r.Err? ==> !IsFile(tree, path) && r.error == ReadError(tree, path)
    {
      Drift();
      var refused := Refuses();
      if refused || (path in tree && tree[path].Directory?) {
        r := Err(Refused);
      } else if path !in tree {
        r := Err(Absent(tree, path));
      } else {
        var data := AgentRead(tree[path].content, offset, length);
        r := Ok(data);
      }
    }

    /** The stitching loop. When the file is the same before and after, nobody rewrote it
        in between, and the stitched bytes are one slice of that one file. */
    method Read(path: string, offset: nat, length: int) returns (r: Result<Bytes, FsError>)
      requires Valid()
      modifies this`tree, this`used
      ensures Valid() && old(used) <= used
      ensures Moved(old(tree), tree, old(used))
      ensures exclusive ==> tree == old(tree)
      ensures r.Ok? ==> |r.value| <= Max(0, length)
      ensures length <= 0 ==> r == Ok([]) && tree == old(tree)
      ensures r.Ok? && length > 0 ==> IsFile(tree, path)
      ensures r.Ok? && length > 0 && SameFile(old(tree), tree, path) ==> HonestRead(tree, path, offset, length, r)
      ensures r.Err? ==> HonestRead(tree, path, offset, length, r)
      ensures reliable && r.Err? ==> !IsFile(tree, path) && r.error == ReadError(tree, path)
      ensures exclusive && reliable ==> r == TrueRead(tree, path, offset, length)
    {
      hide Moved, Slice, ReadError;
      ghost var t0, used0 := tree, used;
      NoMove(t0, used0);
      var out, pos, remaining := [], offset, length;
      ghost var asked := false;
      while remaining > 0
        invariant Valid() && used0 <= used && Moved(t0, tree, used0) && (exclusive ==> tree == t0)
        invariant pos == offset + |out| && |out| + remaining == length
        invariant length > 0 ==> remaining >= 0
        invariant !asked ==> out == [] && remaining == length && tree == t0
        invariant asked ==> length > 0 && IsFile(tree, path)
        invariant asked && SameFile(t0, tree, path) ==> out == Slice(tree[path].content, offset, |out|)
        decreases remaining
      {
        var want := Min(remaining, CHUNK);
        ghost var t1, used1 := tree, used;
        var reply := Request(path, pos, want);
        MoveTransitive(t0, t1, tree, used0, used1);
        if reply.Err? {
          assert length > 0;
          return reply;
        }
        if SameFile(t0, tree, path) {
          MoveSteady(t0, t1, tree, used0, used1, path);
          SliceGrows(tree[path].content, offset, out, reply.value, Min(want, MAX_READ));
        }
        asked := true;
        var chunk := reply.value;
        if chunk == [] {
          if SameFile(t0, tree, path) {
            SliceEnds(tree[path].content, offset, out, length);
          }
          break;
        }
        out := out + chunk;
        pos := pos + |chunk|;
        remaining := remaining - |chunk|;
      }
      r := Ok(out);
    }

    // ---- changes made through the client. Each may be refused with nothing changed;
    // `mid` is the tree the request met, others having acted on the way.

    ghost predicate Applied(t: Tree, stamps: Stamps, mid: Tree)
      reads this
    {
      Valid() && stamps <= used && Moved(t, mid, stamps) && (exclusive ==> mid == t)
    }

    method Write(path: string, data: Bytes) returns (r: Result<nat, FsError>, ghost mid: Tree)
      requires Valid()
      modifies this`tree, this`used
      ensures Applied(old(tree), old(used), mid)
      ensures r.Ok? ==> CanWrite(mid, path) && WriteStep(mid, tree, path, data) && r.value == |data|
      ensures r.Err? ==> tree == mid && (reliable ==> !CanWrite(mid, path))
    {
      Drift();
      mid := tree;
      var refused := Refuses();
      if refused || path == "" {
        r := Err(Refused);
      } else if !IsDirectory(tree, Parent(path)) {
        r := Err(NotFound);
      } else if IsDirectory(tree, path) {
        r := Err(Refused);
      } else {
        var tmp := AgentWrite(data);
        var stamp: real := *;
        Settle(TouchParent(tree, path, stamp)[path := File(tmp, stamp)]);
        r := Ok(|data|);
      }
    }

    method Mkdir(path: string) returns (r: Result<(), FsError>, ghost mid: Tree)
      requires Valid()
      modifies this`tree, this`used
      ensures Applied(old(tree), old(used), mid)
      ensures r.Ok? ==> CanMkdir(mid, path) && MkdirStep(mid, tree, path)
      ensures r.Err? ==> tree == mid && (reliable ==> !CanMkdir(mid, path))
    {
      Drift();
      mid := tree;
      var refused := Refuses();
      if refused || path == "" || path in tree {
        r := Err(Refused);
      } else if !IsDirectory(tree, Parent(path)) {
        r := Err(Absent(tree, path));
      } else {
        var stamp: real := *;
        Settle(TouchParent(tree, path, stamp)[path := Directory(stamp)]);
        r := Ok(());
      }
    }

    method Unlink(path: string) returns (r: Result<(), FsError>, ghost mid: Tree)
      requires Valid()
      modifies this`tree, this`used
      ensures Applied(old(tree), old(used), mid)
      ensures r.Ok? ==> CanUnlink(mid, path) && UnlinkStep(mid, tree, path)
      ensures r.Err? ==> tree == mid && (reliable ==> !CanUnlink(mid, path))
    {
      Drift();
      mid := tree;
      var refused := Refuses();
      if refused || path == "" || IsDirectory(tree, path) {
        r := Err(Refused);
      } else if path !in tree {
        r := Err(Absent(tree, path));
      } else {
        var stamp: real := *;
        Settle(TouchParent(tree, path, stamp) - {path});
        r := Ok(());
      }
    }

    method Rmdir(path: string) returns (r: Result<(), FsError>, ghost mid: Tree)
      requires Valid()
      modifies this`tree, this`used
      ensures Applied(old(tree), old(used), mid)
      ensures r.Ok? ==> CanRmdir(mid, path) && RmdirStep(mid, tree, path)
      ensures r.Err? ==> tree == mid && (reliable ==> !CanRmdir(mid, path))
    {
      Drift();
      mid := tree;
      var refused := Refuses();
      if refused || path == "" || IsFile(tree, path) {
        r := Err(Refused);
      } else if path !in tree {
        r := Err(Absent(tree, path));
      } else if exists q :: q in tree && Below(q, path) {
        r := Err(Refused);
      } else {
        var stamp: real := *;
        Settle(TouchParent(tree, path, stamp) - {path});
        r := Ok(());
      }
    }

    method Rename(src: string, dst: string) returns (r: Result<(), FsError>, ghost mid: Tree)
      requires Valid() && Canonical(src) && Canonical(dst)
      modifies this`tree, this`used
      ensures Applied(old(tree), old(used), mid)
      ensures r.Ok? ==> CanRename(mid, src, dst) && RenameStep(mid, tree, src, dst)
      ensures r.Err? ==> tree == mid && (reliable ==> !CanRename(mid, src, dst))
    {
      Drift();
      mid := tree;
      var refused := Refuses();
      if refused || src == "" || dst == "" {
        r := Err(Refused);
      } else if src !in tree {
        r := Err(Absent(tree, src));
      } else if !IsDirectory(tree, Parent(dst)) {
        r := Err(Absent(tree, dst));
      } else if !CanRename(tree, src, dst) {
        // into itself, over something that is not empty, or over another kind
        r := Err(Refused);
      } else if src == dst {
        r := Ok(());
      } else {
        var a: real, b: real := *, *;
        var touched := TouchParent(TouchParent(tree, src, a), dst, b);
        assert forall q :: SameNode(mid, touched, q);
        RelocateIsRename(touched, src, dst);
        RenameAfterTouch(mid, touched, Relocate(touched, src, dst), src, dst);
        Settle(Relocate(touched, src, dst));
        r := Ok(());
      }
    }

    /** The server's new tree, its stamps recorded as shown. */
    method Settle(t: Tree)
      modifies this`tree, this`used
      ensures tree == t && used == old(used) + StampsOf(t)
    {
      tree := t;
      used := used + StampsOf(t);
    }
  }
}

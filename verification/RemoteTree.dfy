/** The remote file tree as a value: what one path shows, which operations change
    what, and how the tree may move under the client's feet. */
module RemoteTree {
  import opened Basics
  import opened Text

  /** A file's bytes with its modification stamp, or a directory with its own. */
  datatype Node = File(content: Bytes, mtime: real) | Directory(mtime: real)

  type Tree = map<string, Node>

  datatype Kind = FileKind | DirectoryKind

  datatype Stat = Stat(kind: Kind, size: nat, mtime: real)

  datatype DirEntry = DirEntry(name: string, kind: Kind, size: nat)

  /** NotFound is the one refusal the cache treats specially; Refused stands for every
      other exception of the remote layer (denied, read-only, lost connection, ...). */
  datatype FsError = NotFound | Refused

  // ---- path strings -------------------------------------------------------

  /** One spelling per node: no empty, hidden or dot segment and no backslash. */
  predicate Canonical(p: string) {
    && (forall i :: 0 <= i < |p| ==> p[i] != '\\')
    && (|p| > 0 ==> p[0] != '/' && p[0] != '.' && p[|p| - 1] != '/')
    && (forall i :: 0 <= i < |p| - 1 && p[i] == '/' ==> p[i + 1] != '/' && p[i + 1] != '.')
  }

  /** Strictly below `p`, by the string test the cache uses. */
  predicate Below(q: string, p: string) {
    BeginsWith(q, StripTrailingSlashes(p) + "/")
  }

  predicate AtOrBelow(q: string, p: string) {
    q == p || Below(q, p)
  }

  // ---- what a path shows --------------------------------------------------

  predicate IsFile(t: Tree, p: string) {
    p in t && t[p].File?
  }

  function StatNode(n: Node): Stat {
    match n
    case File(content, mtime) => Stat(FileKind, |content|, mtime)
    case Directory(mtime) => Stat(DirectoryKind, 0, mtime)
  }

  /** An honest answer to a stat: the truth, "not there" only when it is not there,
      or some other refusal. */
  predicate HonestStat(t: Tree, p: string, r: Result<Stat, FsError>) {
    match r
    case Ok(st) => p in t && st == StatNode(t[p])
    case Err(NotFound) => p !in t
    case Err(Refused) => true
  }

  /** The same with a directory's own stamp left open: it moves whenever a child does. */
  predicate HonestKindAndSize(t: Tree, p: string, r: Result<Stat, FsError>) {
    match r
    case Ok(st) =>
      && p in t
      && st.kind == StatNode(t[p]).kind && st.size == StatNode(t[p]).size
      && (t[p].File? ==> st.mtime == t[p].mtime)
    case Err(NotFound) => p !in t
    case Err(Refused) => true
  }

  /** An honest answer to a read: exactly the requested slice, nothing at all for an
      empty request, or a refusal. */
  predicate HonestRead(t: Tree, p: string, offset: nat, length: int, r: Result<Bytes, FsError>) {
    match r
    case Ok(data) => if length <= 0 then data == [] else IsFile(t, p) && data == Slice(t[p].content, offset, length)
    case Err(NotFound) => length > 0 && p !in t
    case Err(Refused) => length > 0
  }

  /** Something on the way to `p` is a file. */
  predicate BelowFile(t: Tree, p: string) {
    exists q :: q in t && t[q].File? && Below(p, q)
  }

  /** The error for a path that is not there: below a file it is not called "not found". */
  function Absent(t: Tree, p: string): FsError {
    if BelowFile(t, p) then Refused else NotFound
  }

  /** The one answer to a stat when nothing is refused. */
  function TrueStat(t: Tree, p: string): Result<Stat, FsError> {
    if p in t then Ok(StatNode(t[p])) else Err(Absent(t, p))
  }

  function ReadError(t: Tree, p: string): FsError {
    if p in t then Refused else Absent(t, p)
  }

  /** The one answer to a read when nothing is refused. */
  function TrueRead(t: Tree, p: string, offset: nat, length: int): Result<Bytes, FsError> {
    if length <= 0 then Ok([])
    else if IsFile(t, p) then Ok(Slice(t[p].content, offset, length))
    else Err(ReadError(t, p))
  }

  /** Where the last segment of `p` starts. */
  function NameStart(p: string): (k: nat)
    ensures k <= |p|
  {
    if p == [] || p[|p| - 1] == '/' then |p| else NameStart(p[..|p| - 1])
  }

  function Name(p: string): string {
    p[NameStart(p)..]
  }

  function Parent(p: string): string {
    p[..Max(0, NameStart(p) - 1)]
  }

  predicate VisibleChild(q: string, dir: string) {
    Name(q) != "" && Name(q)[0] != '.' && Parent(q) == dir
  }

  function EntryOf(q: string, n: Node): DirEntry {
    DirEntry(Name(q), StatNode(n).kind, StatNode(n).size)
  }

  /** A listing shows the visible children of a directory, all of them and nothing else. */
  ghost predicate HonestListing(t: Tree, dir: string, entries: seq<DirEntry>) {
    && (forall e :: e in entries ==> exists q :: q in t && VisibleChild(q, dir) && e == EntryOf(q, t[q]))
    && (forall q :: q in t && VisibleChild(q, dir) ==> EntryOf(q, t[q]) in entries)
  }

  // ---- what an operation changes ------------------------------------------

  /** `q` is there in both or in neither; files are equal, directories may differ in stamp. */
  predicate SameNode(t: Tree, t': Tree, q: string) {
    && (q in t <==> q in t')
    && (q in t ==> t[q] == t'[q] || (t[q].Directory? && t'[q].Directory?))
  }

  ghost predicate OthersKept(t: Tree, t': Tree, p: string) {
    forall q :: q != p ==> SameNode(t, t', q)
  }

  ghost predicate WriteStep(t: Tree, t': Tree, p: string, data: Bytes) {
    IsFile(t', p) && t'[p].content == data && OthersKept(t, t', p)
  }

  ghost predicate MkdirStep(t: Tree, t': Tree, p: string) {
    p !in t && p in t' && t'[p].Directory? && OthersKept(t, t', p)
  }

  ghost predicate UnlinkStep(t: Tree, t': Tree, p: string) {
    IsFile(t, p) && p !in t' && OthersKept(t, t', p)
  }

  ghost predicate RmdirStep(t: Tree, t': Tree, p: string) {
    && p in t && t[p].Directory? && (forall q :: q in t ==> !Below(q, p))
    && p !in t' && OthersKept(t, t', p)
  }

  predicate IsDirectory(t: Tree, p: string) {
    p in t && t[p].Directory?
  }

  // ---- when an operation goes through ----------------------------------------

  predicate CanWrite(t: Tree, p: string) {
    p != "" && IsDirectory(t, Parent(p)) && !IsDirectory(t, p)
  }

  predicate CanMkdir(t: Tree, p: string) {
    p != "" && IsDirectory(t, Parent(p)) && p !in t
  }

  predicate CanUnlink(t: Tree, p: string) {
    p != "" && IsFile(t, p)
  }

  predicate CanRmdir(t: Tree, p: string) {
    p != "" && IsDirectory(t, p) && forall q :: q in t ==> !Below(q, p)
  }

  /** os.rename: over a file only a file, over a directory only a directory, and only an empty one. */
  predicate CanRename(t: Tree, src: string, dst: string) {
    && src != "" && dst != "" && src in t && IsDirectory(t, Parent(dst)) && !Below(dst, src) && !Below(src, dst)
    && (src == dst || dst !in t || (t[dst].File? == t[src].File? && forall q :: q in t ==> !Below(q, dst)))
  }

  /** The path that `q` (at or below `from`) gets when `from` becomes `to`. */
  function Rebase(q: string, from: string, to: string): string
    requires |from| <= |q|
  {
    to + q[|from|..]
  }

  /** os.rename: the whole subtree of `src` appears at `dst`, replacing what was there. */
  ghost predicate RenameStep(t: Tree, t': Tree, src: string, dst: string) {
    if src == dst then forall q :: SameNode(t, t', q)
    else
      && src in t && !Below(dst, src) && !Below(src, dst)
      && (forall q :: AtOrBelow(q, dst) ==> |dst| <= |q| && SameAs(t, Rebase(q, dst, src), t', q))
      && (forall q :: AtOrBelow(q, src) ==> q !in t')
      && (forall q :: !AtOrBelow(q, src) && !AtOrBelow(q, dst) ==> SameNode(t, t', q))
  }

  ghost predicate SameAs(t: Tree, p: string, t': Tree, q: string) {
    (p in t <==> q in t') && (p in t ==> t[p] == t'[q] || (t[p].Directory? && t'[q].Directory?))
  }

  /** Changing a directory's contents moves its own stamp. */
  function TouchParent(t: Tree, p: string, stamp: real): (t': Tree)
    ensures forall q :: SameNode(t, t', q)
  {
    if Parent(p) in t && t[Parent(p)].Directory? then t[Parent(p) := Directory(stamp)] else t
  }

  lemma BelowMeans(q: string, p: string)
    requires Canonical(p) && p != ""
    ensures Below(q, p) <==> |q| > |p| && q[..|p|] == p && q[|p|] == '/'
  {
  }

  lemma RebaseStays(q: string, from: string, to: string)
    requires Canonical(from) && Canonical(to) && from != "" && to != ""
    requires AtOrBelow(q, from)
    ensures |from| <= |q| && AtOrBelow(Rebase(q, from, to), to)
    ensures Rebase(Rebase(q, from, to), to, from) == q
  {
  }

  /** The whole subtree of `src` put in place of whatever was at `dst`. */
  function Relocate(t: Tree, src: string, dst: string): Tree
    requires Canonical(src) && Canonical(dst) && src != "" && dst != ""
  {
    var stay := map q | q in t && !AtOrBelow(q, src) && !AtOrBelow(q, dst) :: t[q];
    var landing := set p | p in t && AtOrBelow(p, src) && |src| <= |p| :: Rebase(p, src, dst);
    var moved := map q | q in landing && |dst| <= |q| && Rebase(q, dst, src) in t :: t[Rebase(q, dst, src)];
    stay + moved
  }

  lemma RelocateIsRename(t: Tree, src: string, dst: string)
    requires Canonical(src) && Canonical(dst) && src != "" && dst != "" && src != dst
    requires src in t && !Below(dst, src) && !Below(src, dst)
    ensures RenameStep(t, Relocate(t, src, dst), src, dst)
  {
    var t' := Relocate(t, src, dst);
    forall q | AtOrBelow(q, dst)
      ensures |dst| <= |q| && SameAs(t, Rebase(q, dst, src), t', q)
    {
      RebaseStays(q, dst, src);
      if Rebase(q, dst, src) in t {
        assert q == Rebase(Rebase(q, dst, src), src, dst);
      }
    }
    forall q | AtOrBelow(q, src)
      ensures q !in t'
    {
      if q in t' {
        var p :| p in t && AtOrBelow(p, src) && |src| <= |p| && q == Rebase(p, src, dst);
        RebaseStays(p, src, dst);
        Disjoint(q, src, dst);
      }
    }
    forall q | !AtOrBelow(q, src) && !AtOrBelow(q, dst)
      ensures SameNode(t, t', q)
    {
      if exists p :: p in t && AtOrBelow(p, src) && |src| <= |p| && q == Rebase(p, src, dst) {
        var p :| p in t && AtOrBelow(p, src) && |src| <= |p| && q == Rebase(p, src, dst);
        RebaseStays(p, src, dst);
      }
    }
  }

  /** Two subtrees neither of which contains the other have no path in common. */
  lemma Disjoint(q: string, p1: string, p2: string)
    requires Canonical(p1) && Canonical(p2) && p1 != "" && p2 != "" && p1 != p2
    requires AtOrBelow(q, p1) && AtOrBelow(q, p2)
    ensures Below(p1, p2) || Below(p2, p1)
  {
    BelowMeans(q, p1);
    BelowMeans(q, p2);
    BelowMeans(p1, p2);
    BelowMeans(p2, p1);
    if |p1| > |p2| {
      assert p1[..|p2|] == q[..|p1|][..|p2|] == q[..|p2|];
    } else {
      assert p2[..|p1|] == q[..|p2|][..|p1|] == q[..|p1|];
    }
  }

  lemma RenameAfterTouch(t: Tree, touched: Tree, t': Tree, src: string, dst: string)
    requires forall q :: SameNode(t, touched, q)
    requires src != dst && RenameStep(touched, t', src, dst)
    ensures RenameStep(t, t', src, dst)
  {
    assert SameNode(t, touched, src);
    forall q | AtOrBelow(q, dst)
      ensures |dst| <= |q| && SameAs(t, Rebase(q, dst, src), t', q)
    {
      assert SameAs(touched, Rebase(q, dst, src), t', q);
      assert SameNode(t, touched, Rebase(q, dst, src));
    }
    forall q | !AtOrBelow(q, src) && !AtOrBelow(q, dst)
      ensures SameNode(t, t', q)
    {
      assert SameNode(t, touched, q) && SameNode(touched, t', q);
    }
  }

  // ---- changes made by others ---------------------------------------------

  /** Every (path, stamp) pair the path has shown at some moment. */
  type Stamps = set<(string, real)>

  function StampsOf(t: Tree): Stamps {
    set q | q in t :: (q, t[q].mtime)
  }

  /** Others create, delete and rewrite at will; any file that is new or rewritten carries a
      stamp its path never had. */
  predicate Moved(t: Tree, t': Tree, used: Stamps) {
    forall q :: q in t' ==> MovedNode(q, t, t'[q], used)
  }

  predicate MovedNode(q: string, t: Tree, n': Node, used: Stamps) {
    n'.File? ==> (q in t && t[q] == n') || (q, n'.mtime) !in used
  }

  lemma NoMove(t: Tree, used: Stamps)
    ensures Moved(t, t, used)
  {
  }

  lemma MoveTransitive(t0: Tree, t1: Tree, t2: Tree, used0: Stamps, used1: Stamps)
    requires used0 <= used1
    requires Moved(t0, t1, used0) && Moved(t1, t2, used1)
    ensures Moved(t0, t2, used0)
  {
  }

  ghost predicate SameFile(t: Tree, t': Tree, p: string) {
    IsFile(t, p) && IsFile(t', p) && t[p] == t'[p]
  }

  lemma SameFileMeans(t: Tree, t': Tree, p: string)
    requires SameFile(t, t', p)
    ensures IsFile(t, p) && IsFile(t', p) && t[p] == t'[p]
  {
  }

  lemma RefusalIsHonest(t: Tree, p: string, offset: nat, length: int, offset': nat, length': int, e: FsError)
    requires length > 0 && HonestRead(t, p, offset', length', Err(e))
    ensures HonestRead(t, p, offset, length, Err(e))
  {
  }

  /** A file that is the same before and after two moves was the same in between: a stamp,
      once left, does not come back. */
  lemma MoveSteady(t0: Tree, t1: Tree, t2: Tree, used0: Stamps, used1: Stamps, p: string)
    requires StampsOf(t0) <= used0 <= used1
    requires Moved(t0, t1, used0) && Moved(t1, t2, used1)
    requires SameFile(t0, t2, p)
    ensures SameFile(t0, t1, p) && SameFile(t1, t2, p)
  {
    assert (p, t0[p].mtime) in StampsOf(t0);
    assert MovedNode(p, t1, t2[p], used1) && MovedNode(p, t0, t1[p], used0);
  }

  /** A file under a stamp that its path has shown before was there under it all the time. */
  lemma OldStamp(t: Tree, t': Tree, used: Stamps, p: string)
    requires Moved(t, t', used) && IsFile(t', p) && (p, t'[p].mtime) in used
    ensures SameFile(t, t', p)
  {
    assert MovedNode(p, t, t'[p], used);
  }
}

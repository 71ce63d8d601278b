/** Deleting a remote directory: the server refuses to delete what is not empty, so the tree is
    collected first and deleted from the bottom up. */
module RmPlan {
  import opened Basics
  import opened RemoteTree
  import opened Text
  import opened Paths

  // ---- the tree -------------------------------------------------------------------------

  type Nodes = map<string, Kind>

  /** Strictly below `dir`. */
  predicate Inside(q: string, dir: string) {
    dir + "/" <= q
  }

  predicate IsChild(q: string, dir: string) {
    Inside(q, dir) && '/' !in q[|dir| + 1..]
  }

  /** `q` with everything from position `k` on cut off is a node on the way to `q`. */
  predicate EndsAt(q: string, k: nat) {
    k == |q| || (k < |q| && q[k] == '/')
  }

  /** Every node's parents are there and are directories; no path ends in a slash. */
  predicate Rooted(t: Nodes) {
    forall q :: q in t ==>
      && q != "" && q[|q| - 1] != '/'
      && forall k :: 0 < k < |q| && EndsAt(q, k) ==> q[..k] in t && t[q[..k]].DirectoryKind?
  }

  /** What the server does not list: nodes, at or above `q` and below `dir`. */
  predicate Shown(veiled: set<string>, q: string, dir: string) {
    Inside(q, dir) && forall k :: |dir| < k <= |q| && EndsAt(q, k) ==> q[..k] !in veiled
  }

  /** All that a walk from `dir` can come across. */
  function Reach(t: Nodes, veiled: set<string>, dir: string): set<string> {
    set q | q in t && Shown(veiled, q, dir)
  }

  function OfKind(t: Nodes, s: set<string>, kind: Kind): set<string> {
    set q | q in s && q in t && t[q] == kind
  }

  function Subtree(t: Nodes, dir: string): set<string> {
    set q | q in t && Inside(q, dir)
  }

  lemma InsideMeans(q: string, dir: string)
    ensures Inside(q, dir) <==> |q| > |dir| && q[..|dir|] == dir && q[|dir|] == '/'
  {
  }

  lemma InsideTransitive(q: string, c: string, dir: string)
    requires Inside(c, dir) && (q == c || Inside(q, c))
    ensures Inside(q, dir)
  {
  }

  lemma NotInsideItself(q: string)
    ensures !Inside(q, q)
  {
  }

  /** The child of `dir` on the way to `q`. */
  function Toward(q: string, dir: string): string
    requires Inside(q, dir)
  {
    q[..|dir| + 1 + FirstIndex(q[|dir| + 1..], '/')]
  }

  lemma TowardIsChild(q: string, dir: string)
    requires Inside(q, dir)
    ensures IsChild(Toward(q, dir), dir) && (q == Toward(q, dir) || Inside(q, Toward(q, dir)))
    ensures EndsAt(q, |Toward(q, dir)|) && Toward(q, dir) == q[..|Toward(q, dir)|]
  {
  }

  /** Two children of one directory have nothing in common. */
  lemma OneChild(q: string, c: string, dir: string)
    requires IsChild(c, dir) && (q == c || Inside(q, c))
    ensures Inside(q, dir) && Toward(q, dir) == c
  {
    InsideTransitive(q, c, dir);
    InsideMeans(q, c);
    InsideMeans(c, dir);
    var n := |c| - |dir| - 1;
    var rest := q[|dir| + 1..];
    assert forall k :: 0 <= k < n ==> rest[k] == c[|dir| + 1..][k];
    FirstIndexIs(rest, '/', n);
  }

  /** What is reached from `dir`: its listed children, and what is reached from them. */
  lemma ShownThrough(veiled: set<string>, q: string, dir: string)
    requires Inside(q, dir)
    ensures var c := Toward(q, dir); Shown(veiled, q, dir) <==> c !in veiled && (q == c || Shown(veiled, q, c))
  {
    TowardIsChild(q, dir);
    var c := Toward(q, dir);
    var n := FirstIndex(q[|dir| + 1..], '/');
    assert forall k :: |dir| < k < |c| ==> !EndsAt(q, k) by {
      InsideMeans(q, dir);
      forall k | |dir| < k < |c| ensures !EndsAt(q, k) {
        assert q[|dir| + 1..][k - |dir| - 1] == q[k];
      }
    }
    InsideMeans(c, dir);
  }

  // ---- depth ------------------------------------------------------------------------------

  /** path.count("/"). */
  function Slashes(s: string): nat {
    if s == "" then 0 else (if s[0] == '/' then 1 else 0) + Slashes(s[1..])
  }

  lemma DeeperInside(q: string, dir: string)
    requires Inside(q, dir)
    ensures Slashes(q) > Slashes(dir)
  {
  }

  // ---- sorting the directories ---------------------------------------------------------------

  type Dirs = seq<(nat, string)>

  function Insert(d: (nat, string), ds: Dirs): Dirs {
    if ds == [] || d.0 >= ds[0].0 then [d] + ds else [ds[0]] + Insert(d, ds[1..])
  }

  /** list.sort by depth, deepest first, equals in their old order. */
  function Sorted(ds: Dirs): Dirs {
    if ds == [] then [] else Insert(ds[0], Sorted(ds[1..]))
  }

  predicate DeepestFirst(ds: Dirs) {
    forall i, j :: 0 <= i < j < |ds| ==> ds[i].0 >= ds[j].0
  }

  /** The entries of one depth, in order. */
  function AtDepth(ds: Dirs, n: nat): Dirs {
    if ds == [] then [] else (if ds[0].0 == n then [ds[0]] else []) + AtDepth(ds[1..], n)
  }

  /** The paths alone. */
  function Names(ds: Dirs): (r: seq<string>)
    ensures |r| == |ds|
  {
    seq(|ds|, i requires 0 <= i < |ds| => ds[i].1)
  }

  lemma NamesCons(d: (nat, string), ds: Dirs)
    ensures Names([d] + ds) == [d.1] + Names(ds)
  {
  }

  lemma {:induction false} InsertBag(d: (nat, string), ds: Dirs)
    ensures multiset(Insert(d, ds)) == multiset{d} + multiset(ds)
    ensures multiset(Names(Insert(d, ds))) == multiset{d.1} + multiset(Names(ds))
  {
    if ds == [] || d.0 >= ds[0].0 {
      NamesCons(d, ds);
    } else {
      InsertBag(d, ds[1..]);
      NamesCons(ds[0], ds[1..]);
      NamesCons(ds[0], Insert(d, ds[1..]));
      assert Insert(d, ds) == [ds[0]] + Insert(d, ds[1..]);
      hide Insert, Names;
      assert ds == [ds[0]] + ds[1..];
    }
  }

  lemma {:induction false} InsertOrder(d: (nat, string), ds: Dirs)
    requires DeepestFirst(ds)
    ensures DeepestFirst(Insert(d, ds))
  {
    if ds != [] && d.0 < ds[0].0 {
      var rest := Insert(d, ds[1..]);
      InsertOrder(d, ds[1..]);
      InsertBag(d, ds[1..]);
      forall i | 0 <= i < |rest| ensures ds[0].0 >= rest[i].0 {
        assert rest[i] in multiset(rest);
        assert rest[i] == d || rest[i] in ds[1..];
      }
    }
  }

  lemma {:induction false} InsertDepth(d: (nat, string), ds: Dirs, n: nat)
    ensures AtDepth(Insert(d, ds), n) == AtDepth([d] + ds, n)
  {
    assert ([d] + ds)[1..] == ds;
    if ds != [] && d.0 < ds[0].0 {
      var rest := Insert(d, ds[1..]);
      InsertDepth(d, ds[1..], n);
      assert ([d] + ds[1..])[1..] == ds[1..] && ([ds[0]] + rest)[1..] == rest;
    }
  }

  lemma {:induction false} SortedBag(ds: Dirs)
    ensures multiset(Sorted(ds)) == multiset(ds) && multiset(Names(Sorted(ds))) == multiset(Names(ds))
  {
    if ds != [] {
      SortedBag(ds[1..]);
      InsertBag(ds[0], Sorted(ds[1..]));
      NamesCons(ds[0], ds[1..]);
      hide Insert;
      assert ds == [ds[0]] + ds[1..];
    }
  }

  /** Sorted, nothing lost or added, and stable: this leaves only one result. */
  lemma {:induction false} SortedIsStable(ds: Dirs, n: nat)
    ensures DeepestFirst(Sorted(ds)) && multiset(Sorted(ds)) == multiset(ds)
    ensures AtDepth(Sorted(ds), n) == AtDepth(ds, n)
  {
    SortedBag(ds);
    if ds != [] {
      var rest := Sorted(ds[1..]);
      SortedIsStable(ds[1..], n);
      InsertOrder(ds[0], rest);
      InsertDepth(ds[0], rest, n);
      assert ([ds[0]] + rest)[1..] == rest;
    }
  }

  // ---- the server ---------------------------------------------------------------------------

  datatype Entry = Entry(path: string, kind: Kind)

  class Contents {
    var tree: Nodes
    /** Nodes the server keeps but does not list. */
    const veiled: set<string>
    /** No request fails for a reason of its own. */
    const reliable: bool

    constructor (tree: Nodes, veiled: set<string>, reliable: bool)
      requires Rooted(tree)
      ensures this.tree == tree && this.veiled == veiled && this.reliable == reliable && Valid()
    {
      this.tree, this.veiled, this.reliable := tree, veiled, reliable;
    }

    ghost predicate Valid()
      reads this
    {
      Rooted(tree)
    }

    /** The listed children of a directory in any order, each once. None: the request failed. */
    method ListDir(path: string) returns (r: Option<seq<Entry>>)
      ensures reliable ==> r.Some?
      ensures r.Some? ==> Lists(tree, veiled, path, r.value)
    {
      var fails: bool := *;
      if !reliable && fails {
        return None;
      }
      if path !in tree {
        return Some([]);
      }
      if tree[path].FileKind? {
        return Some([Entry(path, FileKind)]);
      }
      var todo := set q | q in tree && IsChild(q, path) && q !in veiled;
      ghost var all := todo;
      var es: seq<Entry> := [];
      while todo != {}
        invariant todo <= all && forall e :: e in es ==> e.path in all - todo && e.kind == tree[e.path]
        invariant forall q :: q in all - todo ==> Entry(q, tree[q]) in es
        invariant OncePerPath(es)
        decreases todo
      {
        var q :| q in todo;
        todo := todo - {q};
        es := es + [Entry(q, tree[q])];
      }
      r := Some(es);
    }

    /** DELETE: what is not there is no error, a directory that is not empty is refused. */
    method Delete(path: string) returns (ok: bool)
      requires Valid()
      modifies this`tree
      ensures Valid()
      ensures tree == if ok then old(tree) - {path} else old(tree)
      ensures ok ==> Subtree(old(tree), path) == {}
      ensures reliable && Subtree(old(tree), path) == {} ==> ok
    {
      var fails: bool := *;
      if (!reliable && fails) || Subtree(tree, path) != {} {
        return false;
      }
      assert forall q :: q in tree ==> q !in Subtree(tree, path);
      LeafGoes(tree, path);
      tree := tree - {path};
      ok := true;
    }
  }

  predicate OncePerPath(es: seq<Entry>) {
    forall i, j :: 0 <= i < j < |es| ==> es[i].path != es[j].path
  }

  ghost predicate Lists(t: Nodes, veiled: set<string>, path: string, es: seq<Entry>) {
    if path !in t then es == []
    else if t[path].FileKind? then es == [Entry(path, FileKind)]
    else
      && OncePerPath(es)
      && forall q, k :: Entry(q, k) in es <==> q in t && t[q] == k && IsChild(q, path) && q !in veiled
  }

  lemma LeafGoes(t: Nodes, path: string)
    requires Rooted(t) && forall q :: q in t ==> !Inside(q, path)
    ensures Rooted(t - {path})
  {
    forall q, k | q in t && q != path && 0 < k < |q| && EndsAt(q, k) ensures q[..k] != path {
      InsideMeans(q, path);
    }
  }

  // ---- collecting the tree --------------------------------------------------------------------

  /** The jail lets the path through. */
  predicate Jailed(path: string, prefix: string) {
    AssertWithinPrefix(path, prefix).Some?
  }

  /** What the entries are or lead to. */
  function Through(t: Nodes, veiled: set<string>, es: seq<Entry>): set<string> {
    set q, e | e in es && q in t && (q == e.path || Shown(veiled, q, e.path)) :: q
  }

  /** From the listing of a directory everything below it is reached. */
  lemma ThroughListing(t: Nodes, veiled: set<string>, path: string, es: seq<Entry>)
    requires Rooted(t) && path in t && t[path].DirectoryKind? && Lists(t, veiled, path, es)
    ensures Through(t, veiled, es) == Reach(t, veiled, path)
  {
    forall q | q in t ensures q in Through(t, veiled, es) <==> q in Reach(t, veiled, path) {
      if Shown(veiled, q, path) {
        ShownThrough(veiled, q, path);
        TowardIsChild(q, path);
        var c := Toward(q, path);
        assert c in t;
        assert Entry(c, t[c]) in es;
      }
      if q in Through(t, veiled, es) {
        var e :| e in es && (q == e.path || Shown(veiled, q, e.path));
        assert Entry(e.path, e.kind) in es;
        OneChild(q, e.path, path);
        ShownThrough(veiled, q, path);
      }
    }
  }

  /** The next entry brings itself and what is reached from it, and nothing twice. */
  lemma ThroughNext(t: Nodes, veiled: set<string>, path: string, es: seq<Entry>, i: nat)
    requires Rooted(t) && path in t && t[path].DirectoryKind? && Lists(t, veiled, path, es) && i < |es|
    ensures es[i].path in t && t[es[i].path] == es[i].kind
    ensures Through(t, veiled, es[..i + 1]) == Through(t, veiled, es[..i]) + {es[i].path} + Reach(t, veiled, es[i].path)
    ensures es[i].path !in Through(t, veiled, es[..i]) && es[i].path !in Reach(t, veiled, es[i].path)
    ensures Through(t, veiled, es[..i]) !! Reach(t, veiled, es[i].path)
    ensures es[i].kind.FileKind? ==> Reach(t, veiled, es[i].path) == {}
    ensures Inside(es[i].path, path)
  {
    var c := es[i].path;
    assert Entry(c, es[i].kind) in es;
    assert es[..i + 1] == es[..i] + [es[i]];
    NotInsideItself(c);
    forall q | q in t && (q == c || Inside(q, c)) ensures q !in Through(t, veiled, es[..i]) {
      if q in Through(t, veiled, es[..i]) {
        var e :| e in es[..i] && (q == e.path || Shown(veiled, q, e.path));
        assert Entry(e.path, e.kind) in es;
        OneChild(q, e.path, path);
        OneChild(q, c, path);
      }
    }
    if es[i].kind.FileKind? {
      forall q | q in t ensures !Inside(q, c) {
        InsideMeans(q, c);
      }
    }
  }

  /** Walking down makes what is left below smaller. */
  lemma SubtreeShrinks(t: Nodes, c: string, path: string)
    requires c in t && Inside(c, path)
    ensures Subtree(t, c) < Subtree(t, path)
  {
    NotInsideItself(c);
    forall q | q in Subtree(t, c) ensures q in Subtree(t, path) {
      InsideTransitive(q, c, path);
    }
    assert c in Subtree(t, path) - Subtree(t, c);
  }

  /** Since `files0` and `dirs0` exactly the nodes of `s` have been added, each once, directories
      with their depth. */
  ghost predicate Gathered(t: Nodes, files0: seq<string>, dirs0: Dirs, files: seq<string>, dirs: Dirs, s: set<string>) {
    && multiset(files) == multiset(files0) + multiset(OfKind(t, s, FileKind))
    && multiset(Names(dirs)) == multiset(Names(dirs0)) + multiset(OfKind(t, s, DirectoryKind))
    && forall d :: d in dirs ==> d in dirs0 || d.0 == Slashes(d.1)
  }

  lemma GatheredNone(t: Nodes, files: seq<string>, dirs: Dirs)
    ensures Gathered(t, files, dirs, files, dirs, {})
  {
  }

  lemma GatheredFile(t: Nodes, files: seq<string>, dirs: Dirs, c: string)
    requires c in t && t[c].FileKind?
    ensures Gathered(t, files, dirs, files + [c], dirs, {c})
  {
  }

  lemma GatheredDir(t: Nodes, files: seq<string>, dirs: Dirs, c: string)
    requires c in t && t[c].DirectoryKind?
    ensures Gathered(t, files, dirs, files, dirs + [(Slashes(c), c)], {c})
  {
    assert OfKind(t, {c}, FileKind) == {} && OfKind(t, {c}, DirectoryKind) == {c};
    assert Names(dirs + [(Slashes(c), c)]) == Names(dirs) + [c];
  }

  lemma GatheredJoin(
    t: Nodes, f0: seq<string>, d0: Dirs, f1: seq<string>, d1: Dirs, f2: seq<string>, d2: Dirs, s1: set<string>,
    s2: set<string>)
    requires Gathered(t, f0, d0, f1, d1, s1) && Gathered(t, f1, d1, f2, d2, s2) && s1 !! s2
    ensures Gathered(t, f0, d0, f2, d2, s1 + s2)
  {
  }

  /** Collected, stopped at a path outside the jail, or stopped by a failed request. */
  datatype Collecting = Complete | Escape | NoAnswer

  class Collector {
    const server: Contents
    const prefix: string
    var files: seq<string>
    var dirs: Dirs

    constructor (server: Contents, prefix: string)
      ensures this.server == server && this.prefix == prefix && files == [] && dirs == []
    {
      this.server, this.prefix, files, dirs := server, prefix, [], [];
    }

    method Walk(path: string) returns (r: Collecting)
      requires server.Valid() && path in server.tree && server.tree[path].DirectoryKind?
      modifies this
      ensures r.Complete? ==> Gathered(server.tree, old(files), old(dirs), files, dirs,
          Reach(server.tree, server.veiled, path))
      ensures r.Complete? ==> forall q :: q in Reach(server.tree, server.veiled, path) ==> Jailed(q, prefix)
      ensures r.Escape? ==> exists q :: q in Reach(server.tree, server.veiled, path) && !Jailed(q, prefix)
      ensures server.reliable ==> !r.NoAnswer?
      decreases Subtree(server.tree, path)
    {
      hide Jailed, Gathered, Reach, Shown, Through, Inside, Lists, Rooted, AssertWithinPrefix, Slashes, Subtree,
          OncePerPath;
      ghost var t, veiled := server.tree, server.veiled;
      var listing := server.ListDir(path);
      if listing == None {
        return NoAnswer;
      }
      var es := listing.value;
      ThroughListing(t, veiled, path, es);
      ThroughNothing(t, veiled, es);
      GatheredNone(t, files, dirs);
      for i := 0 to |es|
        invariant Gathered(t, old(files), old(dirs), files, dirs, Through(t, veiled, es[..i]))
        invariant forall q :: q in Through(t, veiled, es[..i]) ==> Jailed(q, prefix)
      {
        var e := es[i];
        ThroughNext(t, veiled, path, es, i);
        ThroughPart(t, veiled, es, i);
        ghost var sofar := Through(t, veiled, es[..i]);
        ghost var f1, d1 := files, dirs;
        if AssertWithinPrefix(e.path, prefix) == None {
          NotJailed(e.path, prefix);
          return Escape;
        }
        IsJailed(e.path, prefix);
        if e.kind == DirectoryKind {
          dirs := dirs + [(Slashes(e.path), e.path)];
          GatheredDir(t, f1, d1, e.path);
          GatheredJoin(t, old(files), old(dirs), f1, d1, files, dirs, sofar, {e.path});
          ghost var f2, d2 := files, dirs;
          SubtreeShrinks(t, e.path, path);
          r := Walk(e.path);
          if !r.Complete? {
            return;
          }
          GatheredJoin(t, old(files), old(dirs), f2, d2, files, dirs, sofar + {e.path}, Reach(t, veiled, e.path));
        } else {
          files := files + [e.path];
          GatheredFile(t, f1, d1, e.path);
          GatheredJoin(t, old(files), old(dirs), f1, d1, files, dirs, sofar, {e.path});
          assert sofar + {e.path} + {} == sofar + {e.path};
        }
      }
      assert es[..|es|] == es;
      r := Complete;
    }
  }

  lemma NotJailed(path: string, prefix: string)
    requires AssertWithinPrefix(path, prefix) == None
    ensures !Jailed(path, prefix)
  {
  }

  lemma IsJailed(path: string, prefix: string)
    requires AssertWithinPrefix(path, prefix) != None
    ensures Jailed(path, prefix)
  {
  }

  lemma ThroughNothing(t: Nodes, veiled: set<string>, es: seq<Entry>)
    ensures Through(t, veiled, es[..0]) == {}
  {
  }

  lemma ThroughPart(t: Nodes, veiled: set<string>, es: seq<Entry>, i: nat)
    requires i < |es|
    ensures Through(t, veiled, es[..i + 1]) <= Through(t, veiled, es)
  {
  }

  // ---- the plan -----------------------------------------------------------------------------

  /** Nothing stands behind a directory it lies in. */
  ghost predicate BottomUp(plan: seq<string>) {
    forall i, j :: 0 <= i < j < |plan| ==> !Inside(plan[j], plan[i])
  }

  /** The directory and all that is reached from it, each once, the directory last. */
  ghost predicate Covers(t: Nodes, veiled: set<string>, path: string, plan: seq<string>) {
    plan != [] && plan[|plan| - 1] == path && multiset(plan) == multiset(Reach(t, veiled, path) + {path})
  }

  lemma JoinedBag(xs: seq<string>, ys: seq<string>, z: string, a: set<string>, b: set<string>)
    requires multiset(xs) == multiset(a) && multiset(ys) == multiset(b) && a !! b && z !in a && z !in b
    ensures multiset(xs + ys + [z]) == multiset(a + b + {z})
  {
  }

  lemma GatheredBags(t: Nodes, files: seq<string>, dirs: Dirs, s: set<string>)
    requires Gathered(t, [], [], files, dirs, s)
    ensures multiset(files) == multiset(OfKind(t, s, FileKind))
        && multiset(Names(dirs)) == multiset(OfKind(t, s, DirectoryKind))
  {
  }

  lemma PlanCovers(t: Nodes, veiled: set<string>, path: string, files: seq<string>, dirs: Dirs)
    requires Gathered(t, [], [], files, dirs, Reach(t, veiled, path))
    ensures Covers(t, veiled, path, files + Names(Sorted(dirs)) + [path])
  {
    hide Gathered, Names, Sorted, Reach;
    var reach := Reach(t, veiled, path);
    var a, b := OfKind(t, reach, FileKind), OfKind(t, reach, DirectoryKind);
    NotInsideItself(path);
    ReachIsThere(t, veiled, path);
    SortedBag(dirs);
    GatheredBags(t, files, dirs, reach);
    KindsSplit(t, reach);
    hide OfKind;
    JoinedBag(files, Names(Sorted(dirs)), path, a, b);
  }

  lemma KindsSplit(t: Nodes, s: set<string>)
    requires s <= t.Keys
    ensures OfKind(t, s, FileKind) + OfKind(t, s, DirectoryKind) == s
    ensures OfKind(t, s, FileKind) !! OfKind(t, s, DirectoryKind)
  {
  }

  lemma ReachIsThere(t: Nodes, veiled: set<string>, path: string)
    ensures forall q :: q in Reach(t, veiled, path) ==> q in t && Inside(q, path)
  {
  }

  lemma DirsAreSorted(t: Nodes, dirs: Dirs, s: set<string>, files: seq<string>)
    requires Gathered(t, [], [], files, dirs, s)
    ensures
      var names := Names(Sorted(dirs));
      BottomUp(names) && forall i :: 0 <= i < |names| ==> names[i] in OfKind(t, s, DirectoryKind)
  {
    SortedIsStable(dirs, 0);
    SortedBag(dirs);
    var ds := Sorted(dirs);
    hide Sorted;
    assert Names([]) == [];
    forall i | 0 <= i < |ds| ensures Names(ds)[i] in OfKind(t, s, DirectoryKind) {
      assert Names(ds)[i] in multiset(Names(ds));
      assert Names(ds)[i] in multiset(OfKind(t, s, DirectoryKind));
    }
    forall i, j | 0 <= i < j < |ds| ensures !Inside(Names(ds)[j], Names(ds)[i]) {
      assert ds[i] in multiset(ds) && ds[j] in multiset(ds);
      assert ds[i] in multiset(dirs) && ds[j] in multiset(dirs);
      if Inside(ds[j].1, ds[i].1) {
        DeeperInside(ds[j].1, ds[i].1);
      }
    }
  }

  lemma FilesAreGathered(t: Nodes, files: seq<string>, dirs: Dirs, s: set<string>)
    requires Gathered(t, [], [], files, dirs, s)
    ensures forall i :: 0 <= i < |files| ==> files[i] in OfKind(t, s, FileKind)
  {
    GatheredBags(t, files, dirs, s);
    forall i | 0 <= i < |files| ensures files[i] in OfKind(t, s, FileKind) {
      assert files[i] in multiset(files);
      assert files[i] in multiset(OfKind(t, s, FileKind));
    }
  }

  lemma PlanIsBottomUp(t: Nodes, veiled: set<string>, path: string, files: seq<string>, dirs: Dirs)
    requires Rooted(t) && path in t && Gathered(t, [], [], files, dirs, Reach(t, veiled, path))
    ensures BottomUp(files + Names(Sorted(dirs)) + [path])
  {
    hide Reach, Sorted, Names, Gathered, Inside;
    var reach := Reach(t, veiled, path);
    var names := Names(Sorted(dirs));
    var plan := files + names + [path];
    ReachIsThere(t, veiled, path);
    DirsAreSorted(t, dirs, reach, files);
    FilesAreGathered(t, files, dirs, reach);
    forall i, j | 0 <= i < j < |plan| ensures !Inside(plan[j], plan[i]) {
      if j == |plan| - 1 {
        assert plan[i] in reach by {
          if i < |files| {
            assert plan[i] == files[i];
          } else {
            assert plan[i] == names[i - |files|];
          }
        }
        assert plan[j] == path;
        NotAround(path, plan[i]);
      } else if i < |files| {
        assert plan[i] == files[i];
        assert plan[j] in t by {
          if j < |files| {
            assert plan[j] == files[j];
          } else {
            assert plan[j] == names[j - |files|];
          }
        }
        NothingInsideFile(t, plan[j], plan[i]);
      } else {
        var a, b := i - |files|, j - |files|;
        assert plan[i] == names[a] && plan[j] == names[b];
        assert !Inside(names[b], names[a]);
      }
    }
  }

  lemma NotAround(path: string, q: string)
    requires Inside(q, path)
    ensures !Inside(path, q)
  {
  }

  lemma NothingInsideFile(t: Nodes, q: string, file: string)
    requires Rooted(t) && q in t && file in t && t[file].FileKind?
    ensures !Inside(q, file)
  {
    InsideMeans(q, file);
    assert |q| > |file| && q[|file|] == '/' ==> EndsAt(q, |file|);
  }

  /** _collect_tree. */
  method CollectTree(server: Contents, prefix: string, path: string) returns (r: Collecting, plan: seq<string>)
    requires server.Valid() && path in server.tree && server.tree[path].DirectoryKind?
    ensures r.Complete? ==> Covers(server.tree, server.veiled, path, plan) && BottomUp(plan)
    ensures r.Complete? ==> forall q :: q in Reach(server.tree, server.veiled, path) ==> Jailed(q, prefix)
    ensures r.Escape? ==> exists q :: q in Reach(server.tree, server.veiled, path) && !Jailed(q, prefix)
    ensures server.reliable ==> !r.NoAnswer?
  {
    hide Jailed, Reach, Gathered, Covers, BottomUp, Sorted, Names, Rooted;
    plan := [];
    var c := new Collector(server, prefix);
    r := c.Walk(path);
    if r.Complete? {
      PlanCovers(server.tree, server.veiled, path, c.files, c.dirs);
      PlanIsBottomUp(server.tree, server.veiled, path, c.files, c.dirs);
      plan := c.files + Names(Sorted(c.dirs)) + [path];
    }
  }

  // ---- the command -----------------------------------------------------------------------------

  datatype Answer = Yes | Declined | NoTerminal

  datatype Outcome =
    /** Refused up front: not empty, outside the prefix, or nobody to confirm it. */
    | NotEmpty | Outside | Unconfirmed
    | Aborted
    | WouldDelete(plan: seq<string>)
    /** A listing failed; a delete failed or was refused; a deleted path has no index key. */
    | Unlisted | Stopped | Untracked
    | Deleted(count: nat)

  function RelUnder(prefix: string, full: string): string {
    if prefix + "/" <= full then full[|prefix| + 1..] else ""
  }

  /** The key that `Index.remove` strikes for a deleted path; it raises where there is none. */
  function KeyOf(prefix: string, full: string): Option<string> {
    match NormalizeRel(RelUnder(prefix, full))
    case Ok(key) => Some(key)
    case Err(_) => None
  }

  /** Striking this path from the index does not raise. */
  predicate Trackable(prefix: string, full: string) {
    RelUnder(prefix, full) == "" || KeyOf(prefix, full).Some?
  }

  /** The index entries of deleted paths. */
  function Rels(prefix: string, gone: set<string>): set<string> {
    set v | v in gone && KeyOf(prefix, v).Some? :: KeyOf(prefix, v).value
  }

  lemma NoRelNoKey(prefix: string, full: string)
    requires RelUnder(prefix, full) == ""
    ensures KeyOf(prefix, full) == None
  {
  }

  class Index {
    var entries: set<string>
    var saved: set<string>

    constructor (entries: set<string>)
      ensures this.entries == this.saved == entries
    {
      this.entries, this.saved := entries, entries;
    }
  }

  /** What the first `i` deletes have taken away. */
  function Gone(plan: seq<string>, i: nat): set<string>
    requires i <= |plan|
  {
    set k | 0 <= k < i :: plan[k]
  }

  lemma CoversMeans(t: Nodes, veiled: set<string>, path: string, plan: seq<string>)
    requires Covers(t, veiled, path, plan)
    ensures Gone(plan, |plan|) == Reach(t, veiled, path) + {path}
    ensures forall i, j :: 0 <= i < j < |plan| ==> plan[i] != plan[j]
  {
    var all := Reach(t, veiled, path) + {path};
    hide Reach;
    forall q ensures q in Gone(plan, |plan|) <==> q in all {
      assert q in multiset(plan) <==> q in multiset(all);
      assert q in plan <==> q in multiset(plan);
    }
    forall i, j | 0 <= i < j < |plan| ensures plan[i] != plan[j] {
      assert plan == plan[..i] + [plan[i]] + plan[i + 1..j] + [plan[j]] + plan[j + 1..];
      assert multiset(all)[plan[i]] <= 1;
    }
  }

  /** When the next delete finds its directory not empty, something in there is not in the plan. */
  lemma OnlyTheUnlistedRemains(t: Nodes, veiled: set<string>, path: string, plan: seq<string>, i: nat, q: string)
    requires Covers(t, veiled, path, plan) && BottomUp(plan) && i < |plan|
    requires q in t && q !in Gone(plan, i) && Inside(q, plan[i])
    ensures q in Subtree(t, path) && q !in Reach(t, veiled, path)
  {
    CoversMeans(t, veiled, path, plan);
    assert plan[i] in Gone(plan, |plan|);
    NotInsideItself(plan[i]);
    if plan[i] != path {
      InsideTransitive(q, plan[i], path);
    }
    forall j | 0 <= j < |plan| ensures plan[j] != q {
      if j < i {
        assert plan[j] in Gone(plan, i);
      }
    }
    assert q !in Gone(plan, |plan|);
  }

  /** How the delete loop ends. */
  datatype Ending = AllGone | NotDeleted(at: nat) | NoKey(at: nat)

  /** The delete loop: every victim is jailed once more, deleted, and struck from the index. */
  method DeleteAll(server: Contents, prefix: string, path: string, plan: seq<string>, index: Index)
    returns (end: Ending, ghost done: nat)
    requires server.Valid() && Covers(server.tree, server.veiled, path, plan) && BottomUp(plan)
    requires forall i :: 0 <= i < |plan| ==> Jailed(plan[i], prefix)
    modifies server`tree, index`entries
    ensures server.Valid() && done <= |plan|
    ensures server.tree == old(server.tree) - Gone(plan, done)
    ensures index.entries == old(index.entries) - Rels(prefix, Gone(plan, done))
    ensures forall i :: 0 <= i < done && !(end.NoKey? && i == done - 1) ==> Trackable(prefix, plan[i])
    ensures match end
            case AllGone => done == |plan| && Subtree(old(server.tree), path)
                == Reach(old(server.tree), server.veiled, path)
            case NotDeleted(at) =>
              at == done < |plan|
              && (server.reliable ==> Subtree(old(server.tree), path) != Reach(old(server.tree), server.veiled, path))
            case NoKey(at) => at + 1 == done && !Trackable(prefix, plan[at])
  {
    hide Covers, BottomUp, Reach, Rooted, Gone, Rels, Subtree, Jailed, RelUnder, Inside, KeyOf;
    ghost var t := server.tree;
    CoversLast(t, server.veiled, path, plan);
    NothingGone(t, prefix, plan, index.entries);
    done := 0;
    for i := 0 to |plan|
      invariant done == i && server.Valid()
      invariant server.tree == t - Gone(plan, i)
      invariant index.entries == old(index.entries) - Rels(prefix, Gone(plan, i))
      invariant forall k :: 0 <= k < i ==> Trackable(prefix, plan[k])
      invariant i == |plan| ==> Subtree(t - Gone(plan, |plan| - 1), path) == {}
    {
      var victim := plan[i];
      assert Jailed(victim, prefix);
      var ok := server.Delete(victim);
      if !ok {
        if server.reliable {
          SomethingUnlisted(t, server.veiled, path, plan, i);
        }
        return NotDeleted(i), i;
      }
      GoneNext(t, plan, i);
      RelsNext(prefix, Gone(plan, i), victim, old(index.entries));
      done := i + 1;
      var rel := RelUnder(prefix, victim);
      if rel == "" {
        NoRelNoKey(prefix, victim);
      } else {
        var key := KeyOf(prefix, victim);
        if key == None {
          return NoKey(i), done;
        }
        index.entries := index.entries - {key.value};
      }
    }
    AllListed(t, server.veiled, path, plan);
    end := AllGone;
  }

  lemma NothingGone(t: Nodes, prefix: string, plan: seq<string>, entries: set<string>)
    ensures t - Gone(plan, 0) == t && entries - Rels(prefix, Gone(plan, 0)) == entries
  {
  }

  lemma GoneNext(t: Nodes, plan: seq<string>, i: nat)
    requires i < |plan|
    ensures Gone(plan, i + 1) == Gone(plan, i) + {plan[i]}
    ensures t - Gone(plan, i + 1) == t - Gone(plan, i) - {plan[i]}
  {
  }

  lemma RelsNext(prefix: string, gone: set<string>, v: string, entries: set<string>)
    ensures entries - Rels(prefix, gone + {v})
         == entries - Rels(prefix, gone) - if KeyOf(prefix, v) == None then {} else {KeyOf(prefix, v).value}
  {
    hide KeyOf;
  }

  lemma SomethingUnlisted(t: Nodes, veiled: set<string>, path: string, plan: seq<string>, i: nat)
    requires Covers(t, veiled, path, plan) && BottomUp(plan) && i < |plan|
    requires Subtree(t - Gone(plan, i), plan[i]) != {}
    ensures Subtree(t, path) != Reach(t, veiled, path)
  {
    var q :| q in Subtree(t - Gone(plan, i), plan[i]);
    OnlyTheUnlistedRemains(t, veiled, path, plan, i, q);
  }

  lemma CoversLast(t: Nodes, veiled: set<string>, path: string, plan: seq<string>)
    requires Covers(t, veiled, path, plan)
    ensures plan != [] && plan[|plan| - 1] == path
  {
  }

  /** The directory itself could be deleted: everything in it had been listed. */
  lemma AllListed(t: Nodes, veiled: set<string>, path: string, plan: seq<string>)
    requires Covers(t, veiled, path, plan) && Subtree(t - Gone(plan, |plan| - 1), path) == {}
    ensures Subtree(t, path) == Reach(t, veiled, path)
  {
    CoversMeans(t, veiled, path, plan);
    NotInsideItself(path);
    forall q | q in Subtree(t, path) ensures q in Reach(t, veiled, path) {
      assert q !in Subtree(t - Gone(plan, |plan| - 1), path);
      assert q in Gone(plan, |plan|);
    }
  }

  lemma EmptyListing(t: Nodes, veiled: set<string>, path: string, es: seq<Entry>)
    requires Rooted(t) && path in t && t[path].DirectoryKind? && Lists(t, veiled, path, es)
    ensures es == [] <==> Reach(t, veiled, path) == {}
  {
    ThroughListing(t, veiled, path, es);
    if es != [] {
      assert Entry(es[0].path, es[0].kind) in es;
      assert es[0].path in Through(t, veiled, es);
    }
  }

  lemma PlanSize(t: Nodes, veiled: set<string>, path: string, plan: seq<string>)
    requires Covers(t, veiled, path, plan)
    ensures |plan| == |Reach(t, veiled, path)| + 1
  {
    NotInsideItself(path);
    assert |multiset(plan)| == |plan|;
    assert |Reach(t, veiled, path) + {path}| == |Reach(t, veiled, path)| + 1;
  }

  lemma PlanJailed(t: Nodes, veiled: set<string>, path: string, plan: seq<string>, prefix: string)
    requires Covers(t, veiled, path, plan) && Jailed(path, prefix)
    requires forall q :: q in Reach(t, veiled, path) ==> Jailed(q, prefix)
    ensures forall i :: 0 <= i < |plan| ==> Jailed(plan[i], prefix)
  {
    hide Jailed;
    CoversMeans(t, veiled, path, plan);
    forall i | 0 <= i < |plan| ensures Jailed(plan[i], prefix) {
      assert plan[i] in Gone(plan, |plan|);
    }
  }

  lemma GoneIsInside(t: Nodes, veiled: set<string>, path: string, plan: seq<string>, i: nat)
    requires Covers(t, veiled, path, plan) && i <= |plan|
    ensures Gone(plan, |plan|) == Reach(t, veiled, path) + {path}
    ensures Gone(plan, i) <= Subtree(t, path) + {path}
  {
    CoversMeans(t, veiled, path, plan);
    assert Gone(plan, i) <= Gone(plan, |plan|);
  }

  /** Deleting a directory. Nothing outside it is ever touched, and what is announced by a dry
      run is what a run deletes. On a reliable server the run goes through exactly if it may
      descend, is confirmed, everything listed is inside the prefix, nothing in the directory is
      withheld from the listings, and every name in it has an index key. */
  method RmDir(
    server: Contents, prefix: string, path: string, recursive: bool, dryRun: bool, answer: Answer, index: Index)
    returns (r: Outcome)
    requires server.Valid() && path in server.tree && server.tree[path].DirectoryKind? && Jailed(path, prefix)
    modifies server`tree, index
    ensures server.Valid()
    ensures exists gone: set<string> ::
              && gone <= Subtree(old(server.tree), path) + {path}
              && server.tree == old(server.tree) - gone
              && index.entries == old(index.entries) - Rels(prefix, gone)
    ensures !r.Deleted? && !r.Stopped? && !r.Untracked? ==>
        server.tree == old(server.tree) && index.entries == old(index.entries)
    ensures !r.Deleted? ==> index.saved == old(index.saved)
    ensures r.Deleted? ==>
              && server.tree == old(server.tree) - (Subtree(old(server.tree), path) + {path})
              && index.saved == index.entries
                  == old(index.entries) - Rels(prefix, Subtree(old(server.tree), path) + {path})
              && r.count == |Subtree(old(server.tree), path)| + 1
    ensures r.WouldDelete? ==> Covers(old(server.tree), server.veiled, path, r.plan) && BottomUp(r.plan)
    ensures
      var t := old(server.tree);
      var reach := Reach(t, server.veiled, path);
      var jailed := forall q :: q in reach ==> Jailed(q, prefix);
      var planned := (recursive || reach == {}) && jailed;
      var tracked := forall q :: q in reach + {path} ==> Trackable(prefix, q);
      server.reliable ==>
        && (r.NotEmpty? <==> !recursive && reach != {})
        && (r.Outside? <==> (recursive || reach == {}) && !jailed)
        && (r.WouldDelete? <==> planned && dryRun)
        && (r.Unconfirmed? <==> planned && !dryRun && answer.NoTerminal?)
        && (r.Aborted? <==> planned && !dryRun && answer.Declined?)
        && (r.Deleted? <==> planned && !dryRun && answer.Yes? && Subtree(t, path) == reach && tracked)
        && (r.Stopped? || r.Untracked? <==>
            planned && !dryRun && answer.Yes? && !(Subtree(t, path) == reach && tracked))
        && (r.Stopped? ==> Subtree(t, path) != reach) && (r.Untracked? ==> !tracked)
  {
    hide Trackable, Jailed, Covers, BottomUp, Reach, Rooted, Subtree, Gone, Rels, Lists;
    ghost var t, veiled := server.tree, server.veiled;
    NothingGoneAtAll(t, prefix, path, index.entries);
    var children := server.ListDir(path);
    if children == None {
      return Unlisted;
    }
    EmptyListing(t, veiled, path, children.value);
    if !recursive && children.value != [] {
      return NotEmpty;
    }
    var collected, plan := CollectTree(server, prefix, path);
    match collected {
      case Escape => return Outside;
      case NoAnswer => return Unlisted;
      case Complete =>
    }
    if dryRun {
      return WouldDelete(plan);
    }
    match answer {
      case NoTerminal => return Unconfirmed;
      case Declined => return Aborted;
      case Yes =>
    }
    PlanJailed(t, veiled, path, plan, prefix);
    PlanSize(t, veiled, path, plan);
    var end, done := DeleteAll(server, prefix, path, plan, index);
    GoneIsInside(t, veiled, path, plan, done);
    GoneMembers(prefix, plan);
    match end {
      case NotDeleted(_) => return Stopped;
      case NoKey(_) => return Untracked;
      case AllGone =>
    }
    index.saved := index.entries;
    r := Deleted(|plan|);
  }

  lemma GoneMembers(prefix: string, plan: seq<string>)
    ensures (forall i :: 0 <= i < |plan| ==> Trackable(prefix, plan[i])) <==>
            forall q :: q in Gone(plan, |plan|) ==> Trackable(prefix, q)
  {
    hide Trackable;
    forall i | 0 <= i < |plan| ensures plan[i] in Gone(plan, |plan|) {
    }
  }

  lemma NothingGoneAtAll(t: Nodes, prefix: string, path: string, entries: set<string>)
    ensures {} <= Subtree(t, path) + {path} && t - {} == t && entries - Rels(prefix, {}) == entries
  {
  }

  // ---- runs that stop in the middle -------------------------------------------------------------

  /** A plain name right below the prefix, with or without blanks around the path. */
  lemma ChildIsJailed(raw: string, prefix: string, name: string)
    requires Strip(raw) == prefix + "/" + name
    requires forall s | s in [prefix, name] :: s != "" && s[0] != '.' && '/' !in s && '\\' !in s
    ensures Jailed(raw, prefix)
  {
    var wire := prefix + "/" + name;
    SplitFirst(prefix, name);
    SplitLast(name);
    assert prefix in [prefix, name] && name in [prefix, name];
    UnbackslashNothing(wire);
    NormpathKeeps(wire);
    NotHidden(wire);
    assert prefix[0] in prefix && wire[..|prefix| + 1] == prefix + "/";
    hide Normpath, Split, Strip, Contains;
  }

  const VEILED_CHILD: Nodes := map["p" := DirectoryKind, "p/d" := DirectoryKind, "p/d/x" := FileKind]

  lemma VeiledChildTree()
    ensures Rooted(VEILED_CHILD) && Subtree(VEILED_CHILD, "p/d") == {"p/d/x"}
  {
    assert "p/d/x"[..1] == "p" && "p/d/x"[..3] == "p/d" && "p/d"[..1] == "p";
    assert Inside("p/d/x", "p/d");
  }

  /** A directory whose only child the server does not list: the plan is the directory alone, and its
      deletion is refused. */
  lemma VeiledChildStops()
    ensures Rooted(VEILED_CHILD) && Jailed("p/d", "p") && Covers(VEILED_CHILD, {"p/d/x"}, "p/d", ["p/d"])
    ensures Subtree(VEILED_CHILD, "p/d") != Reach(VEILED_CHILD, {"p/d/x"}, "p/d")
  {
    hide Jailed, Rooted;
    VeiledChildTree();
    assert EndsAt("p/d/x", 5) && "p/d/x"[..5] == "p/d/x";
    assert Reach(VEILED_CHILD, {"p/d/x"}, "p/d") <= Subtree(VEILED_CHILD, "p/d");
    assert "p/d/x" !in Reach(VEILED_CHILD, {"p/d/x"}, "p/d");
    assert Reach(VEILED_CHILD, {"p/d/x"}, "p/d") == {};
    hide Reach, Subtree, Inside, EndsAt;
    DirIsJailed();
  }

  lemma DirIsJailed()
    ensures Jailed("p/d", "p")
  {
    hide Jailed;
    StripClean("p/d");
    assert "p" + "/" + "d" == "p/d";
    ChildIsJailed("p/d", "p", "d");
  }

  lemma BlankBehind(s: string)
    requires s != "" && !IsSpace(s[0]) && !IsSpace(s[|s| - 1])
    ensures Strip(s + " ") == s == Strip(s)
  {
    var longer := s + " ";
    assert longer[..|s|] == s && longer[0] == s[0] && longer[|s|] == ' ';
    assert StripLeft(longer) == longer && StripLeft(s) == s && StripRight(s) == s;
  }

  lemma SameWhenStripped(a: string, b: string)
    requires Strip(a) == Strip(b)
    ensures NormalizeRel(a) == NormalizeRel(b)
  {
    hide Strip, Unbackslash, Normpath, Split, LooksWindowsAbsolute;
  }

  lemma RelOfChild(prefix: string, name: string)
    ensures RelUnder(prefix, prefix + "/" + name) == name
  {
    assert (prefix + "/" + name)[..|prefix| + 1] == prefix + "/" && (prefix + "/" + name)[|prefix| + 1..] == name;
  }

  /** Deleting a tracked file strikes its own index key exactly if it is not hidden: one that is stored under an
      alias keeps its key, and the key of the alias is struck. */
  lemma StrikesOwnKey(prefix: string, rel: string)
    requires Normal(rel) && Plain(rel)
    ensures WirePath(prefix, rel, true) == Some(prefix + "/" + EncodeProtected(rel))
    ensures KeyOf(prefix, prefix + "/" + EncodeProtected(rel)) == Some(EncodeProtected(rel))
    ensures EncodeProtected(rel) == rel <==> !IsHidden(rel)
  {
    hide Normal, NormalizeRel, IsHidden, EncodeProtected, RelUnder, Split;
    EncodedIsNormal(rel);
    NormalIsFixed(EncodeProtected(rel));
    RelOfChild(prefix, EncodeProtected(rel));
    NormalSplits(rel);
    if !IsHidden(rel) {
      EncodeVisible(rel);
    }
  }

  /** A file below the prefix whose name looks like a drive is deleted but has no index key: the run stops
      behind its deletion with the index unsaved. */
  lemma DriveNameIsUntracked()
    ensures Jailed("p/C:x", "p") && !Trackable("p", "p/C:x")
  {
    hide Jailed;
    assert "p" + "/" + "C:x" == "p/C:x";
    StripClean("p/C:x");
    ChildIsJailed("p/C:x", "p", "C:x");
    RelOfChild("p", "C:x");
    StripClean("C:x");
    hide Normpath, RelUnder, Strip, Split;
    assert LooksWindowsAbsolute("C:x");
  }

  lemma LetterIsNormal(s: string)
    requires |s| == 1 && IsLetter(s[0])
    ensures NormalizeRel(s) == Ok(s)
  {
    hide NormalizeRel;
    SplitLast(s);
    StripClean(s);
    NormalIsFixed(s);
  }

  /** A file whose name ends in a blank shares its key with the one without. */
  lemma BlankNameStrikesOther()
    ensures Jailed("p/a ", "p") && KeyOf("p", "p/a ") == KeyOf("p", "p/a") == Some("a")
  {
    hide Jailed, NormalizeRel, RelUnder, Strip, Split;
    assert "p" + "/" + "a" == "p/a" && "p" + "/" + "a " == "p/a " == "p/a" + " ";
    BlankBehind("p/a");
    ChildIsJailed("p/a ", "p", "a");
    RelOfChild("p", "a");
    RelOfChild("p", "a ");
    assert "a " == "a" + " ";
    BlankBehind("a");
    SameWhenStripped("a ", "a");
    LetterIsNormal("a");
  }
}

/** Serving a GET: the Range header, then one read through the cache, the stitching
    client and the agent. */
module WebDav {
  import opened Basics
  import opened Text
  import opened RemoteTree
  import opened RemoteFs
  import opened BlockStore
  import opened VfsCache
  import opened CachedRuns
  import opened SharedRuns

  /** Digits with single underscores between them, continuing a numeral worth `acc`. */
  function DigitsFrom(s: string, acc: nat): Option<nat> {
    if s == [] then Some(acc)
    else if IsDigit(s[0]) then DigitsFrom(s[1..], 10 * acc + DigitValue(s[0]))
    else if s[0] == '_' && |s| > 1 && IsDigit(s[1]) then DigitsFrom(s[1..], acc)
    else None
  }

  function Digits(s: string): Option<nat> {
    if s != [] && IsDigit(s[0]) then DigitsFrom(s, 0) else None
  }

  /** Python's int() on ASCII text; None where it raises ValueError. */
  function PyInt(text: string): Option<int> {
    var s := Strip(text);
    if s != [] && s[0] == '-' then
      match Digits(s[1..])
      case Some(n) => var v: int := n; Some(-v)
      case None => None
    else if s != [] && s[0] == '+' then
      match Digits(s[1..])
      case Some(n) => Some(n)
      case None => None
    else
      match Digits(s)
      case Some(n) => Some(n)
      case None => None
  }

  const UNIT := "bytes="

  /** The single range a header asks of a file of `total` bytes, as offset and length;
      None when the whole file is to be served. */
  function ParseRange(header: Option<string>, total: nat): Option<(int, int)> {
    if header == None || !BeginsWith(header.value, UNIT) then None
    else
      var list := header.value[|UNIT|..];
      var spec := Strip(list[..FirstIndex(list, ',')]);
      var dash := FirstIndex(spec, '-');
      if dash == |spec| then None
      else
        var first, last := spec[..dash], spec[dash + 1..];
        if first == "" then
          match PyInt(last)
          case None => None
          case Some(n) => Clamp(Max(0, total - n), total - 1, total)
        else
          match PyInt(first)
          case None => None
          case Some(start) =>
            if last == "" then Clamp(start, total - 1, total)
            else
              match PyInt(last)
              case None => None
              case Some(end) => Clamp(start, end, total)
  }

  function Clamp(start: int, end: int, total: nat): Option<(int, int)> {
    if start > end || start >= total then None else Some((start, Min(end, total - 1) - start + 1))
  }

  lemma {:induction false} StripLeftKeeps(s: string)
    ensures forall c :: c in StripLeft(s) ==> c in s
  {
    if s != [] && IsSpace(s[0]) {
      StripLeftKeeps(s[1..]);
    }
  }

  lemma {:induction false} StripRightKeeps(s: string)
    ensures forall c :: c in StripRight(s) ==> c in s
  {
    if s != [] && IsSpace(s[|s| - 1]) {
      StripRightKeeps(s[..|s| - 1]);
    }
  }

  /** Text without a minus sign is not a negative number. */
  lemma NoDashNotNegative(text: string)
    requires '-' !in text && PyInt(text).Some?
    ensures PyInt(text).value >= 0
  {
    StripLeftKeeps(text);
    StripRightKeeps(StripLeft(text));
    assert forall c :: c in Strip(text) ==> c in text;
  }

  /** Whatever the header says, a range lies inside the file and is not empty. */
  lemma RangeInside(header: Option<string>, total: nat)
    requires ParseRange(header, total).Some?
    ensures
      var (offset, length) := ParseRange(header, total).value;
      0 <= offset && 1 <= length && offset + length <= total
  {
    var list := header.value[|UNIT|..];
    var spec := Strip(list[..FirstIndex(list, ',')]);
    var first := spec[..FirstIndex(spec, '-')];
    if first != "" {
      NoDashNotNegative(first);
    }
  }

  // ---- the ranges of section 2.1 of RFC 7233 -------------------------------

  lemma {:induction false} DigitsFromSnoc(s: string, acc: nat, d: char)
    requires AllDigits(s) && IsDigit(d) && DigitsFrom(s, acc).Some?
    ensures DigitsFrom(s + [d], acc) == Some(10 * DigitsFrom(s, acc).value + DigitValue(d))
  {
    if s == [] {
      assert (s + [d])[1..] == [];
    } else {
      assert (s + [d])[1..] == s[1..] + [d];
      DigitsFromSnoc(s[1..], 10 * acc + DigitValue(s[0]), d);
    }
  }

  lemma {:induction false} DigitsFromPlain(s: string)
    requires AllDigits(s)
    ensures DigitsFrom(s, 0) == Some(Numeral(s))
  {
    if s != [] {
      DigitsFromPlain(s[..|s| - 1]);
      DigitsFromSnoc(s[..|s| - 1], 0, s[|s| - 1]);
      assert s[..|s| - 1] + [s[|s| - 1]] == s;
    }
  }

  lemma PyIntOfDecimal(n: nat)
    ensures PyInt(Decimal(n)) == Some(n)
  {
    var s := Decimal(n);
    assert IsDigit(s[0]) && IsDigit(s[|s| - 1]);
    StripClean(s);
    DigitsFromPlain(s);
    NumeralOfDecimal(n);
  }

  /** A header without a comma whose body has no blanks is taken apart at its first dash. */
  lemma PlainHeader(first: string, last: string, total: nat)
    requires AllDigits(first) && AllDigits(last) && first + last != ""
    ensures
      var spec := first + "-" + last;
      && BeginsWith(UNIT + spec, UNIT) && (UNIT + spec)[|UNIT|..] == spec
      && FirstIndex(spec, ',') == |spec| && Strip(spec[..|spec|]) == spec
      && FirstIndex(spec, '-') == |first| && spec[..|first|] == first && spec[|first| + 1..] == last
  {
    var spec := first + "-" + last;
    assert forall i :: 0 <= i < |spec| ==> IsDigit(spec[i]) || spec[i] == '-';
    StripClean(spec);
    assert spec[..|spec|] == spec;
    FirstIndexIs(spec, '-', |first|);
  }

  /** bytes=a-b, bytes=a- and bytes=-n mean what the standard says, cut to the file. */
  lemma RangeFromTo(a: nat, b: nat, total: nat)
    ensures ParseRange(Some("bytes=" + (Decimal(a) + "-" + Decimal(b))), total)
         == if a <= b && a < total then Some((a, Min(b, total - 1) - a + 1)) else None
  {
    hide Decimal, PyInt, Strip, FirstIndex;
    PlainHeader(Decimal(a), Decimal(b), total);
    PyIntOfDecimal(a);
    PyIntOfDecimal(b);
  }

  lemma RangeFrom(a: nat, total: nat)
    ensures ParseRange(Some("bytes=" + (Decimal(a) + "-" + "")), total)
         == if a < total then Some((a, total - a)) else None
  {
    hide Decimal, PyInt, Strip, FirstIndex;
    PlainHeader(Decimal(a), "", total);
    PyIntOfDecimal(a);
  }

  lemma RangeSuffix(n: nat, total: nat)
    ensures ParseRange(Some("bytes=" + ("" + "-" + Decimal(n))), total)
         == if n > 0 && total > 0 then Some((Max(0, total - n), Min(n, total))) else None
  {
    hide Decimal, PyInt, Strip, FirstIndex;
    PlainHeader("", Decimal(n), total);
    PyIntOfDecimal(n);
  }

  // ---- GET -----------------------------------------------------------------

  datatype Response =
    | Served(status: int, offset: int, length: int, total: nat, body: Bytes)
    | Missing
    | Forbidden
    | Failed

  /** Status, length and body are those of exactly the part of the file that the header selects. */
  ghost predicate ServesPart(res: Response, content: Bytes, header: Option<string>, headOnly: bool) {
    && res.Served? && res.total == |content|
    && 0 <= res.offset && 0 <= res.length && res.offset + res.length <= res.total
    && res.body == (if headOnly then [] else Slice(content, res.offset, res.length))
    && (headOnly || |res.body| == res.length)
    && (if ParseRange(header, res.total).Some?
        then res.status == 206 && Some((res.offset, res.length)) == ParseRange(header, res.total)
        else res.status == 200 && res.offset == 0 && res.length == res.total)
  }

  /** None of the file's cached blocks was cached while it had no stamp; so it is when the server has never said
      that the file is not there. */
  ghost predicate Clean(c: CachingFS, path: string)
    reads c, c.fs
  {
    c.AlwaysThere(path) || Guarded(c.blocks, c.unguarded, path)
  }

  /** The cached attribute has expired, and the file is at the end what it was at the beginning. */
  twostate predicate HeldStill(c: CachingFS, path: string, now: real)
    reads c, c.fs
  {
    old(!c.FreshEntry(path, now)) && SameFile(old(c.fs.tree), c.fs.tree, path)
  }

  /** The stat of this request reached the server, and the file has been what it saw ever since. */
  twostate predicate StillAsSeen(c: CachingFS, path: string)
    reads c, c.fs
  {
    |c.fs.log| > |old(c.fs.log)| && SameFile(c.fs.log[|c.fs.log| - 1].tree, c.fs.tree, path)
  }

  predicate IsStatAt(s: Sighting, path: string, now: real) {
    s.SawStat? && s.path == path && s.at == now
  }

  lemma CleanIsGuarded(c: CachingFS, path: string)
    requires c.Valid() && Clean(c, path)
    ensures Guarded(c.blocks, c.unguarded, path)
  {
    if c.AlwaysThere(path) {
      c.ThereIsGuarded(path);
    }
  }

  /** The body of a GET; that of a HEAD is empty. */
  method Body(c: CachingFS, path: string, offset: nat, length: nat, headOnly: bool) returns (r: Result<Bytes, FsError>)
    requires c.Valid() && Canonical(path) && (path in c.blockMtime || c.PositiveEntry(path))
    modifies c, c.fs
    ensures c.Valid() && c.Acted(old(c.fs.tree), old(c.fs.used)) && c.fs.log == old(c.fs.log) && c.attr == old(c.attr)
    ensures c.unguarded <= old(c.unguarded)
    ensures headOnly ==> r == Ok([]) && c.fs.tree == old(c.fs.tree)
    ensures !headOnly && (c.fs.exclusive || c.Steady(old(c.fs.tree), old(c.blocks), path)) ==>
              HonestRead(c.fs.tree, path, offset, length, r)
    ensures c.fs.reliable && r.Err? ==> c.NoSuchFile(path, r.error)
  {
    hide Moved, CachingFS.Valid, KeptBy, StaysGuarded, BlocksAfter, Looked, Slice, ExactPath;
    NoMove(c.fs.tree, c.fs.used);
    if headOnly {
      r := Ok([]);
    } else {
      r := c.Read(path, offset, length);
      assert c.fs.log[|old(c.fs.log)|..] == [];
    }
  }

  /** The range of a file of this size, its bytes, and the response. */
  method Deliver(c: CachingFS, path: string, header: Option<string>, headOnly: bool, total: nat) returns (res: Response)
    requires c.Valid() && Canonical(path) && (path in c.blockMtime || c.PositiveEntry(path))
    modifies c, c.fs
    ensures c.Valid() && c.Acted(old(c.fs.tree), old(c.fs.used)) && c.fs.log == old(c.fs.log) && c.attr == old(c.attr)
    ensures c.unguarded <= old(c.unguarded) && !res.Forbidden?
    ensures c.fs.reliable && IsFile(c.fs.tree, path) ==> res.Served?
    ensures (headOnly || c.fs.exclusive || c.Steady(old(c.fs.tree), old(c.blocks), path))
            && IsFile(c.fs.tree, path) && |c.fs.tree[path].content| == total ==>
              if res.Served? then ServesPart(res, c.fs.tree[path].content, header, headOnly)
              else res.Failed? && !c.fs.reliable
  {
    hide ParseRange, Moved, ExactPath, CachingFS.Valid, Canonical, Slice, SameFile;
    var range := ParseRange(header, total);
    var offset, length, status := 0, total, 200;
    if range.Some? {
      RangeInside(header, total);
      offset, length, status := range.value.0, range.value.1, 206;
    }
    var body := Body(c, path, offset, length, headOnly);
    match body {
      case Err(NotFound) => res := Missing;
      case Err(Refused) => res := Failed;
      case Ok(data) => res := Served(status, offset, length, total, data);
    }
  }

  /** A GET, or a HEAD when `headOnly`. With nobody else changing the server, and otherwise whenever the stat
      reaches the server and the file holds still, what is served is the selected part of the file. The stat
      comes first, so that no block is cached without a stamp. */
  method ServeGet(c: CachingFS, path: string, header: Option<string>, headOnly: bool, now: real) returns (res: Response)
    requires c.Valid() && Canonical(path)
    modifies c, c.fs
    ensures c.Valid() && c.Acted(old(c.fs.tree), old(c.fs.used)) && old(c.fs.log) <= c.fs.log
    ensures c.unguarded <= old(c.unguarded)
    ensures Remembers(old(c.attr), c.attr, StatOf(path, now), c.attrTtl)
    ensures c.fs.exclusive && c.fs.reliable ==>
              && (res.Served? <==> IsFile(c.fs.tree, path)) && (res.Forbidden? <==> IsDirectory(c.fs.tree, path))
              && (res.Failed? ==> BelowFile(c.fs.tree, path))
    ensures c.fs.exclusive && res.Missing? ==> path !in c.fs.tree
    ensures c.fs.exclusive && res.Forbidden? ==> IsDirectory(c.fs.tree, path)
    ensures c.fs.exclusive && res.Served? ==>
              IsFile(c.fs.tree, path) && ServesPart(res, c.fs.tree[path].content, header, headOnly)
    ensures !old(c.FreshEntry(path, now)) && c.fs.reliable && IsFile(c.fs.tree, path) ==> res.Served?
    ensures !old(c.FreshEntry(path, now)) && !res.Failed? ==>
              |c.fs.log| == |old(c.fs.log)| + 1 && IsStatAt(c.fs.log[|c.fs.log| - 1], path, now)
    ensures (HeldStill(c, path, now) || StillAsSeen(c, path)) && old(Clean(c, path)) ==>
              if res.Served? then ServesPart(res, c.fs.tree[path].content, header, headOnly)
              else res.Failed? && !c.fs.reliable
  {
    hide ParseRange, Moved, ExactPath, CachingFS.Valid, Canonical, AllTruthful, Slice, Guarded, AfterStat, BlocksAfter,
        Looked, BelowFile, CachingFS.StatSeenRecently, KeptByRead, SaidAbsent, RemoteFS.Valid;
    ghost var t0, used0, bs0, stamps0 := c.fs.tree, c.fs.used, c.blocks, c.blockMtime;
    c.ValidStamps();
    if Clean(c, path) {
      CleanIsGuarded(c, path);
    }
    var st := c.Stat(path, now);
    ghost var t1, used1 := c.fs.tree, c.fs.used;
    if st.Ok? && Guarded(bs0, c.unguarded, path) {
      GuardedAfterStat(bs0, stamps0, c.unguarded, path, st.value.mtime);
    }
    match st {
      case Err(NotFound) => return Missing;
      case Err(Refused) => return Failed;
      case Ok(_) =>
    }
    if st.value.kind == DirectoryKind {
      return Forbidden;
    }
    res := Deliver(c, path, header, headOnly, st.value.size);
    MoveTransitive(t0, t1, c.fs.tree, used0, used1);
    if SameFile(t0, c.fs.tree, path) {
      MoveSteady(t0, t1, c.fs.tree, used0, used1, path);
    }
  }

  // ---- a mounted server ---------------------------------------------------------

  /** What reaches a mounted server: a GET or HEAD; any other operation, none of which reads a file; others
      acting on the files meanwhile. */
  datatype Request =
    | Get(path: string, header: Option<string>, headOnly: bool, now: real)
    | Do(op: Op)
    | Meanwhile

  predicate Admissible(q: Request) {
    match q
    case Get(path, _, _, _) => Canonical(path)
    case Do(op) => CanonicalOp(op) && !op.ReadAt?
    case Meanwhile => true
  }

  /** A request asks for attributes as this event does. */
  function AsEvent(q: Request): Event {
    match q
    case Get(path, _, _, now) => Act(StatOf(path, now))
    case Do(op) => Act(op)
    case Meanwhile => Others
  }

  function AsEvents(qs: seq<Request>): (es: seq<Event>)
    ensures |es| == |qs| && forall i :: 0 <= i < |qs| ==> es[i] == AsEvent(qs[i])
  {
    seq(|qs|, i requires 0 <= i < |qs| => AsEvent(qs[i]))
  }

  method MountedStep(c: CachingFS, op: Op)
    requires c.Valid() && CanonicalOp(op) && !op.ReadAt?
    modifies c, c.fs
    ensures c.Valid() && c.unguarded == old(c.unguarded) && old(c.fs.log) <= c.fs.log
    ensures Remembers(old(c.attr), c.attr, op, c.attrTtl)
  {
    hide CachingFS.Valid, PlainStep, ListingsAfter, StaysGuarded, Remembers, Timely;
    var _ := Step(c, op);
  }

  /** Whatever others do, a mounted server never caches a block without a stamp: it asks for the attributes
      before it reads. */
  method Mounted(c: CachingFS, requests: seq<Request>) returns (responses: seq<Option<Response>>)
    requires c.Valid() && c.unguarded == {}
    requires forall i :: 0 <= i < |requests| ==> Admissible(requests[i])
    modifies c, c.fs
    ensures c.Valid() && c.unguarded == {} && |responses| == |requests| && old(c.fs.log) <= c.fs.log
    ensures forall i :: 0 <= i < |requests| ==> (responses[i].Some? <==> requests[i].Get?)
    ensures FromEvents(old(c.attr), c.attr, AsEvents(requests), c.attrTtl)
  {
    hide CachingFS.Valid, Stepped, Moved, FromEvents, Remembers, Clean, Guarded, HeldStill, StillAsSeen, ServesPart;
    responses := [];
    NothingRemembered(c.attr, c.attrTtl);
    assert AsEvents(requests[..0]) == [];
    for i := 0 to |requests|
      invariant c.Valid() && c.unguarded == {} && |responses| == i && old(c.fs.log) <= c.fs.log
      invariant forall k :: 0 <= k < i ==> (responses[k].Some? <==> requests[k].Get?)
      invariant FromEvents(old(c.attr), c.attr, AsEvents(requests[..i]), c.attrTtl)
    {
      ghost var attr1 := c.attr;
      var response: Option<Response> := None;
      assert Admissible(requests[i]);
      match requests[i] {
        case Get(path, header, headOnly, now) =>
          var res := ServeGet(c, path, header, headOnly, now);
          response := Some(res);
        case Do(op) =>
          MountedStep(c, op);
        case Meanwhile =>
          OthersAct(c);
      }
      OneMoreEvent(old(c.attr), attr1, c.attr, AsEvents(requests[..i]), AsEvent(requests[i]), c.attrTtl);
      assert AsEvents(requests[..i + 1]) == AsEvents(requests[..i]) + [AsEvent(requests[i])];
      responses := responses + [response];
    }
    assert requests[..|requests|] == requests;
  }

  /** The response to a GET after any requests to a freshly mounted server, whatever others did: a file that is
      there is served; and if it has been what the GET's own stat saw ever since, what is served is exactly the
      selected part of it. All it takes is that its attributes were not asked for within the last time to live. */
  method MountThenGet(
    fs: RemoteFS, maxBytes: int, attrTtl: real, readahead: int, requests: seq<Request>,
    path: string, header: Option<string>, headOnly: bool, now: real) returns (res: Response)
    requires fs.Valid() && Canonical(path) && forall i :: 0 <= i < |requests| ==> Admissible(requests[i])
    modifies fs
    ensures fs.Valid() && old(fs.log) <= fs.log
    ensures AskedLongAgo(AsEvents(requests), path, now, attrTtl) ==>
              && (fs.reliable && IsFile(fs.tree, path) ==> res.Served?)
              && (res.Served? ==>
                    && fs.log != [] && IsStatAt(fs.log[|fs.log| - 1], path, now)
                    && (SameFile(fs.log[|fs.log| - 1].tree, fs.tree, path) ==>
                          ServesPart(res, fs.tree[path].content, header, headOnly)))
  {
    hide CachingFS.Valid, FromEvents, AskedLongAgo, ServesPart, SaidAbsent, Moved, SameFile, Remembers;
    var c := new CachingFS(fs, maxBytes, attrTtl, readahead);
    var _ := Mounted(c, requests);
    if AskedLongAgo(AsEvents(requests), path, now, attrTtl) {
      NotFresh(map[], c.attr, AsEvents(requests), attrTtl, path, now);
    }
    res := ServeGet(c, path, header, headOnly, now);
    c.ServerIsValid();
  }
}

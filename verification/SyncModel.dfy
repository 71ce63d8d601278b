/** Three-way sync as values: what one file's state is called, and what push and pull do
    with a list of files, with a fault or a crash possible at every effect. */
module SyncModel {
  import opened Basics
  import opened Paths

  /** The sha256 of some content; equal exactly when the contents are. */
  datatype Digest = Digest(of: Bytes)

  /** What the server says about a file besides its content: the modification stamp, and
      whether the listing carries the size. */
  datatype Mark = Mark(stamp: string, sized: bool)

  datatype RemoteFile = RemoteFile(content: Bytes, mark: Mark)

  /** What both sides agreed on at the last successful transfer of a path. */
  datatype Entry = Entry(sha: Digest, size: nat, stamp: string)

  datatype Change =
    | Unchanged
    | LocalNew
    | LocalModified
    | RemoteNew
    | RemoteModified
    | Conflict

  // ---- classification ---------------------------------------------------------

  /** Without a download: Some(true) when stamp and size say "the same", Some(false) when the
      size differs, None when unsure. */
  function RemoteMatchesBase(base: Entry, remote: RemoteFile): Option<bool> {
    if remote.mark.sized && |remote.content| != base.size then Some(false)
    else if base.stamp != "" && base.stamp == remote.mark.stamp then Some(true)
    else None
  }

  function Classify(local: Option<Bytes>, remote: Option<RemoteFile>, base: Option<Entry>): Change {
    match base
    case None =>
      if local.Some? && remote.Some? then
        if Digest(remote.value.content) == Digest(local.value) then Unchanged else Conflict
      else if local.Some? then LocalNew
      else if remote.Some? then RemoteNew
      else Unchanged
    case Some(b) =>
      var localChanged := local.None? || Digest(local.value) != b.sha;
      var seen := if remote.None? then None
                  else if RemoteMatchesBase(b, remote.value) == Some(true) then Some(b.sha)
                  else Some(Digest(remote.value.content));
      var remoteChanged := seen.None? || seen.value != b.sha;
      if !localChanged && !remoteChanged then Unchanged
      else if localChanged && !remoteChanged then (if local.Some? then LocalModified else Unchanged)
      else if remoteChanged && !localChanged then (if remote.Some? then RemoteModified else Unchanged)
      else if local.Some? && remote.Some? && seen.value == Digest(local.value) then Unchanged
      else Conflict
  }

  /** The server reuses the recorded stamp, and no different size gives the change away: the
      one case in which the cheap comparison errs. */
  predicate Blind(base: Entry, remote: RemoteFile) {
    && base.stamp != "" && remote.mark.stamp == base.stamp && remote.content != base.sha.of
    && (remote.mark.sized ==> |remote.content| == base.size)
  }

  function BaseOf(base: Option<Entry>): Option<Bytes> {
    match base
    case None => None
    case Some(b) => Some(b.sha.of)
  }

  /** The content the server's file is taken to have: its own, unless the comparison is blind to it. */
  function Taken(remote: Option<RemoteFile>, base: Option<Entry>): Option<Bytes> {
    match remote
    case None => None
    case Some(r) => if base.Some? && Blind(base.value, r) then BaseOf(base) else Some(r.content)
  }

  /** What each change says about the contents here, on the server, and at the last transfer. */
  predicate Means(c: Change, here: Option<Bytes>, there: Option<Bytes>, base: Option<Bytes>) {
    && (c == LocalNew <==> base.None? && here.Some? && there.None?)
    && (c == RemoteNew <==> base.None? && there.Some? && here.None?)
    && (c == LocalModified <==> base.Some? && there == base && here.Some? && here != base)
    && (c == RemoteModified <==> base.Some? && here == base && there.Some? && there != base)
    && (c == Conflict <==>
          if base.None? then here.Some? && there.Some? && here != there
          else here != base && there != base && !(here.Some? && here == there))
    && (c == Unchanged <==>
          || (here.Some? && here == there)
          || (base.None? && here.None? && there.None?)
          || (base.Some? && (if here.Some? then here == base && there.None? else there == base)))
  }

  /** The classification is exactly that, whatever the server says about the file. */
  lemma ClassifyMeans(local: Option<Bytes>, remote: Option<RemoteFile>, base: Option<Entry>)
    ensures Means(Classify(local, remote, base), local, Taken(remote, base), BaseOf(base))
  {
  }

  // ---- the two trees, the index, and their history ------------------------------

  type Local = map<string, Bytes>
  type Remote = map<string, RemoteFile>
  type Index = map<string, Entry>

  function Get<T>(m: map<string, T>, p: string): Option<T> {
    if p in m then Some(m[p]) else None
  }

  /** The contents both sides hold at this moment. */
  function Common(local: Local, remote: Remote): set<(string, Bytes)> {
    set p | p in local && p in remote && local[p] == remote[p].content :: (p, local[p])
  }

  /** The stamps the server shows at this moment, with what they stand for. */
  function Shown(remote: Remote): set<(string, string, Bytes)> {
    set p | p in remote :: (p, remote[p].mark.stamp, remote[p].content)
  }

  /** Everything outside a running command. `agreed` and `shown` collect, over the whole past,
      what both sides held at one moment and what the server's stamps stood for. */
  datatype World = World(
    local: Local, remote: Remote, disk: Index, agreed: set<(string, Bytes)>, shown: set<(string, string, Bytes)>)

  /** A running command: the trees, the index in memory and on disk, and whether it has died. */
  datatype Run = Run(
    local: Local, remote: Remote, mem: Index, disk: Index,
    agreed: set<(string, Bytes)>, shown: set<(string, string, Bytes)>, crashed: bool)

  /** A command starts by loading the index. */
  function Start(w: World): Run {
    Run(w.local, w.remote, w.disk, w.disk, w.agreed, w.shown, false)
  }

  /** Whatever is in memory is gone when the command ends. */
  function Finish(r: Run): World {
    World(r.local, r.remote, r.disk, r.agreed, r.shown)
  }

  // ---- effects, each recorded in the history -------------------------------------

  function Put(r: Run, p: string, f: RemoteFile): Run {
    var remote := r.remote[p := f];
    r.(remote := remote, agreed := r.agreed + Common(r.local, remote), shown := r.shown + Shown(remote))
  }

  function WriteLocal(r: Run, p: string, data: Bytes): Run {
    var local := r.local[p := data];
    r.(local := local, agreed := r.agreed + Common(local, r.remote))
  }

  function SetEntry(r: Run, p: string, e: Entry): Run {
    r.(mem := r.mem[p := e])
  }

  function Save(r: Run): Run {
    r.(disk := r.mem)
  }

  function Crash(r: Run): Run {
    r.(crashed := true)
  }

  // ---- per-file states --------------------------------------------------------------

  datatype Config = Config(protect: bool, ignored: string -> bool)

  datatype FileState = FileState(rel: string, change: Change, hasLocal: bool, hasRemote: bool)

  /** The local scan leaves ignored files out. */
  function Scanned(cfg: Config, local: Local, p: string): Option<Bytes> {
    if cfg.ignored(p) then None else Get(local, p)
  }

  function StateOf(cfg: Config, r: Run, p: string): FileState {
    var l := Scanned(cfg, r.local, p);
    FileState(p, Classify(l, Get(r.remote, p), Get(r.mem, p)), l.Some?, p in r.remote)
  }

  /** A file's state says what the two sides and the index hold. */
  predicate Judged(cfg: Config, r: Run, s: FileState) {
    var here, base := Scanned(cfg, r.local, s.rel), Get(r.mem, s.rel);
    && s.hasLocal == here.Some? && s.hasRemote == (s.rel in r.remote)
    && Means(s.change, here, Taken(Get(r.remote, s.rel), base), BaseOf(base))
  }

  lemma StateIsJudged(cfg: Config, r: Run, p: string)
    ensures Judged(cfg, r, StateOf(cfg, r, p))
  {
    ClassifyMeans(Scanned(cfg, r.local, p), Get(r.remote, p), Get(r.mem, p));
  }

  datatype Outcome = Outcome(
    transferred: seq<string>, skippedHidden: seq<string>, conflicts: seq<string>, upToDate: seq<string>,
    failures: seq<string>)

  const NOTHING := Outcome([], [], [], [], [])

  // ---- push ---------------------------------------------------------------------------

  /** What goes wrong while one file is uploaded. A stat that fails or reports another size
      is LostStat; a stat that answers "no such file" is Unstatted. */
  datatype PushFault =
    | PushFine
    | Unstatted
    | RefusedPut
    | LostStat
    | LostSave
    | DiesBeforePut
    | DiesAfterPut
    | DiesAfterSet
    | DiesAfterSave

  function Upload(r: Run, p: string, fault: PushFault, mark: Mark, o: Outcome): (Run, Outcome) {
    var failed := o.(failures := o.failures + [p]);
    if p !in r.local || fault == RefusedPut then (r, failed)
    else if fault == DiesBeforePut then (Crash(r), o)
    else
      var data := r.local[p];
      var sent := Put(r, p, RemoteFile(data, mark));
      if fault == LostStat then (sent, failed)
      else if fault == DiesAfterPut then (Crash(sent), o)
      else
        var stamp := if fault == Unstatted then "" else mark.stamp;
        var noted := SetEntry(sent, p, Entry(Digest(data), |data|, stamp));
        if fault == LostSave then (noted, failed)
        else if fault == DiesAfterSet then (Crash(noted), o)
        else if fault == DiesAfterSave then (Crash(Save(noted)), o)
        else (Save(noted), o.(transferred := o.transferred + [p]))
  }

  /** Push's decision about one file: hidden files are skipped unless protected, conflicts are
      left alone, new and modified ones are uploaded. */
  predicate Uploads(cfg: Config, s: FileState) {
    (cfg.protect || !IsHidden(s.rel)) && (s.change == LocalNew || s.change == LocalModified)
  }

  function PushOne(
    cfg: Config, dryRun: bool, r: Run, s: FileState, fault: PushFault, mark: Mark, o: Outcome): (Run, Outcome)
  {
    if IsHidden(s.rel) && !cfg.protect then
      if s.hasLocal && (s.change == LocalNew || s.change == LocalModified || s.change == Conflict)
      then (r, o.(skippedHidden := o.skippedHidden + [s.rel]))
      else (r, o)
    else if s.change == Conflict then (r, o.(conflicts := o.conflicts + [s.rel]))
    else if s.change != LocalNew && s.change != LocalModified then
      if s.change == Unchanged && s.hasLocal then (r, o.(upToDate := o.upToDate + [s.rel])) else (r, o)
    else if dryRun then (r, o.(transferred := o.transferred + [s.rel]))
    else Upload(r, s.rel, fault, mark, o)
  }

  function PushAll(
    cfg: Config, dryRun: bool, r: Run, states: seq<FileState>, faults: string -> PushFault, marks: string -> Mark,
    o: Outcome): (Run, Outcome)
    decreases |states|
  {
    if states == [] || r.crashed then (r, o)
    else
      var s := states[0];
      var (next, o') := PushOne(cfg, dryRun, r, s, faults(s.rel), marks(s.rel), o);
      PushAll(cfg, dryRun, next, states[1..], faults, marks, o')
  }

  // ---- pull ---------------------------------------------------------------------------

  datatype PullFault =
    | PullFine
    | RefusedGet
    | LostPullSave
    | DiesBeforeWrite
    | DiesAfterWrite
    | DiesAfterPullSet
    | DiesAfterPullSave

  function Download(r: Run, p: string, fault: PullFault, o: Outcome): (Run, Outcome) {
    var failed := o.(failures := o.failures + [p]);
    if p !in r.remote || fault == RefusedGet then (r, failed)
    else if fault == DiesBeforeWrite then (Crash(r), o)
    else
      var f := r.remote[p];
      var written := WriteLocal(r, p, f.content);
      if fault == DiesAfterWrite then (Crash(written), o)
      else
        var noted := SetEntry(written, p, Entry(Digest(f.content), |f.content|, f.mark.stamp));
        if fault == LostPullSave then (noted, failed)
        else if fault == DiesAfterPullSet then (Crash(noted), o)
        else if fault == DiesAfterPullSave then (Crash(Save(noted)), o)
        else (Save(noted), o.(transferred := o.transferred + [p]))
  }

  predicate Downloads(s: FileState) {
    (s.change == RemoteNew || s.change == RemoteModified) && s.hasRemote
  }

  function PullOne(dryRun: bool, r: Run, s: FileState, fault: PullFault, o: Outcome): (Run, Outcome) {
    if s.change == Conflict then (r, o.(conflicts := o.conflicts + [s.rel]))
    else if s.change != RemoteNew && s.change != RemoteModified then
      if s.change == Unchanged && s.hasRemote && s.hasLocal then (r, o.(upToDate := o.upToDate + [s.rel])) else (r, o)
    else if !s.hasRemote then (r, o)
    else if dryRun then (r, o.(transferred := o.transferred + [s.rel]))
    else Download(r, s.rel, fault, o)
  }

  function PullAll(
    dryRun: bool, r: Run, states: seq<FileState>, faults: string -> PullFault, o: Outcome): (Run, Outcome)
    decreases |states|
  {
    if states == [] || r.crashed then (r, o)
    else
      var s := states[0];
      var (next, o') := PullOne(dryRun, r, s, faults(s.rel), o);
      PullAll(dryRun, next, states[1..], faults, o')
  }

  // ---- the scan -------------------------------------------------------------------------

  /** Every path known to one side or to the index, once, in some order. */
  ghost predicate Enumerates(cfg: Config, r: Run, rels: seq<string>) {
    && (forall i, j :: 0 <= i < j < |rels| ==> rels[i] != rels[j])
    && (forall p :: p in rels <==> Scanned(cfg, r.local, p).Some? || p in r.remote || p in r.mem)
  }

  function States(cfg: Config, r: Run, rels: seq<string>): seq<FileState> {
    seq(|rels|, i requires 0 <= i < |rels| => StateOf(cfg, r, rels[i]))
  }

  function Pushed(
    cfg: Config, dryRun: bool, w: World, rels: seq<string>, faults: string -> PushFault, marks: string -> Mark)
    : (World, Outcome)
  {
    var (r, o) := PushAll(cfg, dryRun, Start(w), States(cfg, Start(w), rels), faults, marks, NOTHING);
    (Finish(r), o)
  }

  function Pulled(
    cfg: Config, dryRun: bool, w: World, rels: seq<string>, faults: string -> PullFault): (World, Outcome)
  {
    var (r, o) := PullAll(dryRun, Start(w), States(cfg, Start(w), rels), faults, NOTHING);
    (Finish(r), o)
  }

  // ---- dry runs -----------------------------------------------------------------------------

  lemma {:induction false} DryPushKeeps(
    cfg: Config, r: Run, states: seq<FileState>, faults: string -> PushFault, marks: string -> Mark, o: Outcome)
    ensures PushAll(cfg, true, r, states, faults, marks, o).0 == r
    decreases |states|
  {
    if states != [] && !r.crashed {
      var s := states[0];
      DryPushKeeps(cfg, r, states[1..], faults, marks, PushOne(cfg, true, r, s, faults(s.rel), marks(s.rel), o).1);
    }
  }

  lemma {:induction false} DryPullKeeps(r: Run, states: seq<FileState>, faults: string -> PullFault, o: Outcome)
    ensures PullAll(true, r, states, faults, o).0 == r
    decreases |states|
  {
    if states != [] && !r.crashed {
      var s := states[0];
      DryPullKeeps(r, states[1..], faults, PullOne(true, r, s, faults(s.rel), o).1);
    }
  }
}

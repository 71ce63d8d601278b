/** No lost update: over every interleaving of edits on both sides, pushes, pulls, faults
    and crashes, push and pull delete nothing and overwrite only recorded bases. */
module SyncSafety {
  import opened Basics
  import opened Paths
  import opened SyncModel

  // ---- what the history says -------------------------------------------------------

  /** A stamp, other than the empty one, never stood for two contents of a path. */
  ghost predicate StampsMeanContent(shown: set<(string, string, Bytes)>) {
    forall x, y :: x in shown && y in shown && x.0 == y.0 && x.1 == y.1 && x.1 != "" ==> x.2 == y.2
  }

  ghost predicate RemoteShown(remote: Remote, shown: set<(string, string, Bytes)>) {
    forall p :: p in remote ==> (p, remote[p].mark.stamp, remote[p].content) in shown
  }

  /** An entry records a content both sides held at one moment, its size, and a stamp that stood for it. */
  ghost predicate Justified(p: string, e: Entry, agreed: set<(string, Bytes)>, shown: set<(string, string, Bytes)>) {
    (p, e.sha.of) in agreed && e.size == |e.sha.of| && (e.stamp != "" ==> (p, e.stamp, e.sha.of) in shown)
  }

  ghost predicate IndexJustified(index: Index, agreed: set<(string, Bytes)>, shown: set<(string, string, Bytes)>) {
    forall p :: p in index ==> Justified(p, index[p], agreed, shown)
  }

  ghost predicate Sound(w: World) {
    StampsMeanContent(w.shown) && RemoteShown(w.remote, w.shown) && IndexJustified(w.disk, w.agreed, w.shown)
  }

  ghost predicate SoundRun(r: Run) {
    && StampsMeanContent(r.shown) && RemoteShown(r.remote, r.shown)
    && IndexJustified(r.mem, r.agreed, r.shown) && IndexJustified(r.disk, r.agreed, r.shown)
  }

  /** The server gives a new version a stamp the path never had (or none at all). */
  ghost predicate NewStamp(shown: set<(string, string, Bytes)>, p: string, stamp: string) {
    stamp == "" || forall x :: x in shown ==> !(x.0 == p && x.1 == stamp)
  }

  // ---- the classification --------------------------------------------------------------

  /** The content is the path's recorded base: both sides held it at an earlier moment. */
  ghost predicate Recorded(w: World, p: string, content: Bytes) {
    p in w.disk && w.disk[p].sha == Digest(content) && (p, content) in w.agreed
  }

  /** An upload over an existing remote file overwrites exactly the base, unless the server has
      reused the stamp: an exact condition. */
  lemma UploadOverwritesBase(local: Bytes, remote: RemoteFile, base: Option<Entry>)
    requires var c := Classify(Some(local), Some(remote), base); c == LocalNew || c == LocalModified
    ensures base.Some?
    ensures Digest(remote.content) == base.value.sha <==> !Blind(base.value, remote)
  {
  }

  lemma StampsSeeEverything(shown: set<(string, string, Bytes)>, agreed: set<(string, Bytes)>, p: string, base: Entry,
      remote: RemoteFile)
    requires StampsMeanContent(shown) && (p, remote.mark.stamp, remote.content) in shown
    requires Justified(p, base, agreed, shown)
    ensures !Blind(base, remote)
  {
  }

  // ---- push ------------------------------------------------------------------------------

  lemma PutIsSound(r: Run, p: string, data: Bytes, mark: Mark)
    requires SoundRun(r) && p in r.local && r.local[p] == data && NewStamp(r.shown, p, mark.stamp)
    ensures
      var r' := Put(r, p, RemoteFile(data, mark));
      && SoundRun(r') && (p, data) in r'.agreed && r.agreed <= r'.agreed
      && r'.shown == r.shown + {(p, mark.stamp, data)}
  {
    var f := RemoteFile(data, mark);
    var r' := Put(r, p, f);
    assert (p, data) in Common(r.local, r'.remote);
    forall x | x in Shown(r'.remote) ensures x in r.shown + {(p, mark.stamp, data)} {
      var q :| q in r'.remote && x == (q, r'.remote[q].mark.stamp, r'.remote[q].content);
    }
    assert (p, mark.stamp, data) in Shown(r'.remote);
    assert r'.shown == r.shown + {(p, mark.stamp, data)};
    forall q | q in r'.remote ensures (q, r'.remote[q].mark.stamp, r'.remote[q].content) in r'.shown {
      assert (q, r'.remote[q].mark.stamp, r'.remote[q].content) in Shown(r'.remote);
    }
    assert IndexJustified(r'.mem, r'.agreed, r'.shown) by {
      forall q | q in r.mem ensures Justified(q, r.mem[q], r'.agreed, r'.shown) {
        assert Justified(q, r.mem[q], r.agreed, r.shown);
      }
    }
    assert IndexJustified(r'.disk, r'.agreed, r'.shown) by {
      forall q | q in r.disk ensures Justified(q, r.disk[q], r'.agreed, r'.shown) {
        assert Justified(q, r.disk[q], r.agreed, r.shown);
      }
    }
  }

  lemma SetIsSound(r: Run, p: string, e: Entry)
    requires SoundRun(r) && Justified(p, e, r.agreed, r.shown)
    ensures SoundRun(SetEntry(r, p, e)) && SoundRun(Save(SetEntry(r, p, e)))
  {
  }

  /** Where an upload can stop. */
  datatype Progress = Untouched | AtPut | AtSet | AtSave

  function UploadedTo(r: Run, p: string, mark: Mark, stamp: string, progress: Progress): Run
    requires p in r.local
  {
    var sent := Put(r, p, RemoteFile(r.local[p], mark));
    var noted := SetEntry(sent, p, Entry(Digest(r.local[p]), |r.local[p]|, stamp));
    match progress
    case Untouched => r
    case AtPut => sent
    case AtSet => noted
    case AtSave => Save(noted)
  }

  function ProgressOf(fault: PushFault): Progress {
    match fault
    case RefusedPut => Untouched
    case DiesBeforePut => Untouched
    case LostStat => AtPut
    case DiesAfterPut => AtPut
    case LostSave => AtSet
    case DiesAfterSet => AtSet
    case _ => AtSave
  }

  lemma UploadStops(r: Run, p: string, fault: PushFault, mark: Mark, o: Outcome)
    ensures
      var r' := Upload(r, p, fault, mark, o).0;
      if p !in r.local then r' == r
      else
        var x := UploadedTo(r, p, mark, if fault == Unstatted then "" else mark.stamp, ProgressOf(fault));
        r' == x || r' == Crash(x)
  {
    hide Put, SetEntry, Save, Crash;
  }

  /** What an upload leaves as it was, whatever goes wrong. */
  lemma UploadIsSound(r: Run, p: string, fault: PushFault, mark: Mark, o: Outcome)
    requires SoundRun(r) && NewStamp(r.shown, p, mark.stamp)
    ensures
      var r' := Upload(r, p, fault, mark, o).0;
      && SoundRun(r') && r'.local == r.local && r.agreed <= r'.agreed
      && (forall q :: q != p ==> Get(r'.remote, q) == Get(r.remote, q))
      && (forall x :: x in r'.shown ==> x in r.shown || x.0 == p)
      && (p in r.remote ==> p in r'.remote)
  {
    hide Upload;
    UploadStops(r, p, fault, mark, o);
    if p in r.local {
      var stamp := if fault == Unstatted then "" else mark.stamp;
      ProgressIsSound(r, p, mark, stamp, ProgressOf(fault));
      CrashIsSound(UploadedTo(r, p, mark, stamp, ProgressOf(fault)));
    }
  }

  lemma CrashIsSound(r: Run)
    requires SoundRun(r)
    ensures SoundRun(Crash(r))
  {
  }

  lemma ProgressIsSound(r: Run, p: string, mark: Mark, stamp: string, progress: Progress)
    requires SoundRun(r) && p in r.local && NewStamp(r.shown, p, mark.stamp) && (stamp == "" || stamp == mark.stamp)
    ensures
      var r' := UploadedTo(r, p, mark, stamp, progress);
      && SoundRun(r') && r'.local == r.local && r.agreed <= r'.agreed
      && (forall q :: q != p ==> Get(r'.remote, q) == Get(r.remote, q))
      && (forall x :: x in r'.shown ==> x in r.shown || x.0 == p)
      && (p in r.remote ==> p in r'.remote)
  {
    hide SoundRun;
    var data := r.local[p];
    PutIsSound(r, p, data, mark);
    SetIsSound(Put(r, p, RemoteFile(data, mark)), p, Entry(Digest(data), |data|, stamp));
  }

  /** The states still to be dealt with are those of the beginning, and their paths untouched. */
  ghost predicate Ahead(cfg: Config, w: World, r: Run, states: seq<FileState>) {
    && (forall i :: 0 <= i < |states| ==> states[i] == StateOf(cfg, Start(w), states[i].rel))
    && (forall i, j :: 0 <= i < j < |states| ==> states[i].rel != states[j].rel)
    && (forall i :: 0 <= i < |states| ==> Get(r.remote, states[i].rel) == Get(w.remote, states[i].rel))
    && (forall i :: 0 <= i < |states| ==> Get(r.local, states[i].rel) == Get(w.local, states[i].rel))
  }

  /** A push up to some point: nothing local has changed, no remote file is gone, and a remote
      file that is not what it was is one whose old content was recorded. */
  ghost predicate PushedSafely(w: World, r: Run) {
    && r.local == w.local
    && forall p :: p in w.remote ==>
         p in r.remote && (r.remote[p] == w.remote[p] || Recorded(w, p, w.remote[p].content))
  }

  lemma PushOneIsSafe(
    cfg: Config, dryRun: bool, w: World, r: Run, s: FileState, fault: PushFault, mark: Mark, o: Outcome)
    requires Sound(w) && SoundRun(r) && PushedSafely(w, r)
    requires s == StateOf(cfg, Start(w), s.rel) && Get(r.remote, s.rel) == Get(w.remote, s.rel)
    requires NewStamp(r.shown, s.rel, mark.stamp)
    ensures
      var r' := PushOne(cfg, dryRun, r, s, fault, mark, o).0;
      && SoundRun(r') && PushedSafely(w, r') && r.agreed <= r'.agreed
      && (forall q :: q != s.rel ==> Get(r'.remote, q) == Get(r.remote, q))
      && (forall x :: x in r'.shown ==> x in r.shown || x.0 == s.rel)
  {
    hide SoundRun;
    if Uploads(cfg, s) && !dryRun {
      UploadIsSound(r, s.rel, fault, mark, o);
      var p := s.rel;
      var r' := Upload(r, p, fault, mark, o).0;
      if p in w.remote {
        UploadIsRecorded(cfg, w, p);
      }
      forall q | q in w.remote
        ensures q in r'.remote && (r'.remote[q] == w.remote[q] || Recorded(w, q, w.remote[q].content))
      {
        if q != p {
          assert Get(r'.remote, q) == Get(r.remote, q);
        }
      }
    }
  }

  /** A file that push decides to upload over has its old content on record. */
  lemma UploadIsRecorded(cfg: Config, w: World, p: string)
    requires Sound(w) && p in w.remote
    requires var c := StateOf(cfg, Start(w), p).change; c == LocalNew || c == LocalModified
    ensures Recorded(w, p, w.remote[p].content)
  {
    var l := Scanned(cfg, w.local, p);
    assert l.Some?;
    UploadOverwritesBase(l.value, w.remote[p], Get(w.disk, p));
    StampsSeeEverything(w.shown, w.agreed, p, w.disk[p], w.remote[p]);
  }

  lemma {:induction false} PushAllIsSafe(
    cfg: Config, dryRun: bool, w: World, r: Run, states: seq<FileState>,
    faults: string -> PushFault, marks: string -> Mark, o: Outcome)
    requires Sound(w) && SoundRun(r) && PushedSafely(w, r) && Ahead(cfg, w, r, states)
    requires forall i :: 0 <= i < |states| ==> NewStamp(r.shown, states[i].rel, marks(states[i].rel).stamp)
    ensures
      var r' := PushAll(cfg, dryRun, r, states, faults, marks, o).0;
      SoundRun(r') && PushedSafely(w, r') && r.agreed <= r'.agreed
    decreases |states|
  {
    hide SoundRun, Sound, PushedSafely, PushOne;
    if states != [] && !r.crashed {
      var s := states[0];
      PushOneIsSafe(cfg, dryRun, w, r, s, faults(s.rel), marks(s.rel), o);
      var (next, o') := PushOne(cfg, dryRun, r, s, faults(s.rel), marks(s.rel), o);
      PushOneKeepsLocal(cfg, dryRun, r, s, faults(s.rel), marks(s.rel), o);
      forall i | 0 <= i < |states[1..]|
        ensures NewStamp(next.shown, states[1..][i].rel, marks(states[1..][i].rel).stamp)
      {
        assert states[1..][i] == states[i + 1] && states[i + 1].rel != s.rel;
      }
      PushAllIsSafe(cfg, dryRun, w, next, states[1..], faults, marks, o');
    }
  }

  lemma PushOneKeepsLocal(
    cfg: Config, dryRun: bool, r: Run, s: FileState, fault: PushFault, mark: Mark, o: Outcome)
    ensures PushOne(cfg, dryRun, r, s, fault, mark, o).0.local == r.local
  {
    hide Upload, IsHidden, Common, Shown;
    UploadStops(r, s.rel, fault, mark, o);
  }

  // ---- pull ------------------------------------------------------------------------------

  function DownloadedTo(r: Run, p: string, progress: Progress): Run
    requires p in r.remote
  {
    var f := r.remote[p];
    var written := WriteLocal(r, p, f.content);
    var noted := SetEntry(written, p, Entry(Digest(f.content), |f.content|, f.mark.stamp));
    match progress
    case Untouched => r
    case AtPut => written
    case AtSet => noted
    case AtSave => Save(noted)
  }

  function PullProgressOf(fault: PullFault): Progress {
    match fault
    case RefusedGet => Untouched
    case DiesBeforeWrite => Untouched
    case DiesAfterWrite => AtPut
    case LostPullSave => AtSet
    case DiesAfterPullSet => AtSet
    case _ => AtSave
  }

  lemma DownloadStops(r: Run, p: string, fault: PullFault, o: Outcome)
    ensures
      var r' := Download(r, p, fault, o).0;
      if p !in r.remote then r' == r
      else
        var x := DownloadedTo(r, p, PullProgressOf(fault));
        r' == x || r' == Crash(x)
  {
    hide WriteLocal, SetEntry, Save, Crash;
  }

  lemma WriteIsSound(r: Run, p: string)
    requires SoundRun(r) && p in r.remote
    ensures
      var r' := WriteLocal(r, p, r.remote[p].content);
      SoundRun(r') && (p, r.remote[p].content) in r'.agreed && r.agreed <= r'.agreed && r'.shown == r.shown
  {
  }

  lemma DownloadIsSound(r: Run, p: string, fault: PullFault, o: Outcome)
    requires SoundRun(r)
    ensures
      var r' := Download(r, p, fault, o).0;
      && SoundRun(r') && r'.remote == r.remote && r'.shown == r.shown && r.agreed <= r'.agreed
      && (forall q :: q != p ==> Get(r'.local, q) == Get(r.local, q))
      && (p in r.local ==> p in r'.local)
  {
    hide Download;
    DownloadStops(r, p, fault, o);
    if p in r.remote {
      DownloadProgressIsSound(r, p, PullProgressOf(fault));
      CrashIsSound(DownloadedTo(r, p, PullProgressOf(fault)));
    }
  }

  lemma DownloadProgressIsSound(r: Run, p: string, progress: Progress)
    requires SoundRun(r) && p in r.remote
    ensures
      var r' := DownloadedTo(r, p, progress);
      && SoundRun(r') && r'.remote == r.remote && r'.shown == r.shown && r.agreed <= r'.agreed
      && (forall q :: q != p ==> Get(r'.local, q) == Get(r.local, q))
      && (p in r.local ==> p in r'.local)
  {
    hide SoundRun;
    var f := r.remote[p];
    WriteIsSound(r, p);
    StampShown(r, p);
    SetIsSound(WriteLocal(r, p, f.content), p, Entry(Digest(f.content), |f.content|, f.mark.stamp));
  }

  lemma StampShown(r: Run, p: string)
    requires SoundRun(r) && p in r.remote
    ensures (p, r.remote[p].mark.stamp, r.remote[p].content) in r.shown
  {
  }

  /** A pull up to some point: nothing remote has changed, no local file is gone, and a local
      file that is not what it was is one whose old content was recorded. */
  ghost predicate PulledSafely(w: World, r: Run) {
    && r.remote == w.remote
    && forall p :: p in w.local ==>
         p in r.local && (r.local[p] == w.local[p] || Recorded(w, p, w.local[p]))
  }

  /** No local file that the ignore rules leave out of the scan exists on the server. */
  ghost predicate NoIgnoredTwin(cfg: Config, w: World) {
    forall p :: p in w.local && p in w.remote ==> !cfg.ignored(p)
  }

  /** A file that pull decides to download over has its old content on record. */
  lemma DownloadIsRecorded(cfg: Config, w: World, p: string)
    requires Sound(w) && p in w.local && !cfg.ignored(p)
    requires Downloads(StateOf(cfg, Start(w), p))
    ensures Recorded(w, p, w.local[p])
  {
    assert Justified(p, w.disk[p], w.agreed, w.shown);
  }

  lemma PullOneIsSafe(cfg: Config, dryRun: bool, w: World, r: Run, s: FileState, fault: PullFault, o: Outcome)
    requires Sound(w) && SoundRun(r) && PulledSafely(w, r) && NoIgnoredTwin(cfg, w)
    requires s == StateOf(cfg, Start(w), s.rel) && Get(r.local, s.rel) == Get(w.local, s.rel)
    ensures
      var r' := PullOne(dryRun, r, s, fault, o).0;
      && SoundRun(r') && PulledSafely(w, r') && r.agreed <= r'.agreed && r'.shown == r.shown
      && (forall q :: q != s.rel ==> Get(r'.local, q) == Get(r.local, q))
  {
    hide SoundRun, Download;
    if Downloads(s) && !dryRun {
      DownloadIsSound(r, s.rel, fault, o);
      var p := s.rel;
      var r' := Download(r, p, fault, o).0;
      if p in w.local {
        DownloadIsRecorded(cfg, w, p);
      }
      forall q | q in w.local
        ensures q in r'.local && (r'.local[q] == w.local[q] || Recorded(w, q, w.local[q]))
      {
        if q != p {
          assert Get(r'.local, q) == Get(r.local, q);
        }
      }
    }
  }

  lemma {:induction false} PullAllIsSafe(
    cfg: Config, dryRun: bool, w: World, r: Run, states: seq<FileState>, faults: string -> PullFault, o: Outcome)
    requires Sound(w) && SoundRun(r) && PulledSafely(w, r) && NoIgnoredTwin(cfg, w) && Ahead(cfg, w, r, states)
    ensures
      var r' := PullAll(dryRun, r, states, faults, o).0;
      SoundRun(r') && PulledSafely(w, r') && r.agreed <= r'.agreed && r'.shown == r.shown
    decreases |states|
  {
    hide SoundRun, Sound, PulledSafely, PullOne;
    if states != [] && !r.crashed {
      var s := states[0];
      PullOneIsSafe(cfg, dryRun, w, r, s, faults(s.rel), o);
      var (next, o') := PullOne(dryRun, r, s, faults(s.rel), o);
      RemoteKept(w, r);
      RemoteKept(w, next);
      PullAllIsSafe(cfg, dryRun, w, next, states[1..], faults, o');
    }
  }

  lemma RemoteKept(w: World, r: Run)
    requires PulledSafely(w, r)
    ensures r.remote == w.remote
  {
  }

  // ---- whole runs ---------------------------------------------------------------------------

  /** Edits happen between commands; a command may fail or die at any effect. */
  datatype Event =
    | EditLocal(path: string, content: Option<Bytes>)
    | EditRemote(path: string, file: Option<RemoteFile>)
    | PushRun(dryRun: bool, rels: seq<string>, pushFaults: string -> PushFault, marks: string -> Mark)
    | PullRun(dryRun: bool, rels: seq<string>, pullFaults: string -> PullFault)

  function Edit<T>(m: map<string, T>, p: string, v: Option<T>): map<string, T> {
    match v
    case Some(x) => m[p := x]
    case None => m - {p}
  }

  function Step(cfg: Config, w: World, e: Event): World {
    match e
    case EditLocal(p, content) =>
      var local := Edit(w.local, p, content);
      w.(local := local, agreed := w.agreed + Common(local, w.remote))
    case EditRemote(p, file) =>
      var remote := Edit(w.remote, p, file);
      w.(remote := remote, agreed := w.agreed + Common(w.local, remote), shown := w.shown + Shown(remote))
    case PushRun(dryRun, rels, faults, marks) => Pushed(cfg, dryRun, w, rels, faults, marks).0
    case PullRun(dryRun, rels, faults) => Pulled(cfg, dryRun, w, rels, faults).0
  }

  /** The server's stamps are never reused, each path is dealt with once, and nothing the
      ignore rules hide locally exists on the server. */
  ghost predicate Legal(cfg: Config, w: World, e: Event) {
    match e
    case EditLocal(_, _) => true
    case EditRemote(p, file) => file.Some? ==> NewStamp(w.shown, p, file.value.mark.stamp)
    case PushRun(_, rels, _, marks) => NoRepeats(rels) && forall p :: p in rels ==> NewStamp(w.shown, p, marks(p).stamp)
    case PullRun(_, rels, _) => NoRepeats(rels) && NoIgnoredTwin(cfg, w)
  }

  ghost predicate NoRepeats(rels: seq<string>) {
    forall i, j :: 0 <= i < j < |rels| ==> rels[i] != rels[j]
  }

  /** What a command may do to the two trees. */
  ghost predicate Safe(w: World, e: Event, w': World) {
    match e
    case PushRun(_, _, _, _) =>
      && w'.local == w.local
      && forall p :: p in w.remote ==>
           p in w'.remote && (w'.remote[p] == w.remote[p] || Recorded(w, p, w.remote[p].content))
    case PullRun(_, _, _) =>
      && w'.remote == w.remote
      && forall p :: p in w.local ==>
           p in w'.local && (w'.local[p] == w.local[p] || Recorded(w, p, w.local[p]))
    case _ => true
  }

  lemma EditIsSound(w: World, w': World)
    requires Sound(w) && w'.disk == w.disk && w.agreed <= w'.agreed && w.shown <= w'.shown
    requires StampsMeanContent(w'.shown) && RemoteShown(w'.remote, w'.shown)
    ensures Sound(w')
  {
  }

  lemma RemoteEditIsSound(cfg: Config, w: World, p: string, file: Option<RemoteFile>)
    requires Sound(w) && Legal(cfg, w, EditRemote(p, file))
    ensures Sound(Step(cfg, w, EditRemote(p, file)))
  {
    var w' := Step(cfg, w, EditRemote(p, file));
    forall x | x in Shown(w'.remote)
      ensures x in w.shown || (file.Some? && x == (p, file.value.mark.stamp, file.value.content))
    {
      var q :| q in w'.remote && x == (q, w'.remote[q].mark.stamp, w'.remote[q].content);
    }
    forall q | q in w'.remote ensures (q, w'.remote[q].mark.stamp, w'.remote[q].content) in w'.shown {
      assert (q, w'.remote[q].mark.stamp, w'.remote[q].content) in Shown(w'.remote);
    }
    EditIsSound(w, w');
  }

  lemma AheadAtStart(cfg: Config, w: World, rels: seq<string>)
    requires NoRepeats(rels)
    ensures Ahead(cfg, w, Start(w), States(cfg, Start(w), rels))
  {
  }

  /** One event keeps the history sound, and a command is safe. */
  lemma StepIsSafe(cfg: Config, w: World, e: Event)
    requires Sound(w) && Legal(cfg, w, e)
    ensures Sound(Step(cfg, w, e)) && Safe(w, e, Step(cfg, w, e)) && w.agreed <= Step(cfg, w, e).agreed
  {
    match e {
      case EditLocal(p, content) =>
        EditIsSound(w, Step(cfg, w, e));
      case EditRemote(p, file) =>
        RemoteEditIsSound(cfg, w, p, file);
      case PushRun(dryRun, rels, faults, marks) =>
        hide PushAll, Ahead;
        AheadAtStart(cfg, w, rels);
        PushAllIsSafe(cfg, dryRun, w, Start(w), States(cfg, Start(w), rels), faults, marks, NOTHING);
      case PullRun(dryRun, rels, faults) =>
        hide PullAll, Ahead;
        AheadAtStart(cfg, w, rels);
        PullAllIsSafe(cfg, dryRun, w, Start(w), States(cfg, Start(w), rels), faults, NOTHING);
    }
  }

  /** A fresh clone: no index yet, and the history holds what can be seen now. */
  predicate Fresh(w: World) {
    w.disk == map[] && w.agreed == Common(w.local, w.remote) && w.shown == Shown(w.remote)
  }

  /** The worlds of a run, one more than its events. */
  ghost predicate IsTrace(cfg: Config, ws: seq<World>, es: seq<Event>) {
    && |ws| == |es| + 1 && Fresh(ws[0])
    && forall i :: 0 <= i < |es| ==> Legal(cfg, ws[i], es[i]) && ws[i + 1] == Step(cfg, ws[i], es[i])
  }

  lemma FreshIsSound(w: World)
    requires Fresh(w)
    ensures Sound(w)
  {
  }

  lemma {:induction false} TraceIsSound(cfg: Config, ws: seq<World>, es: seq<Event>, i: nat)
    requires IsTrace(cfg, ws, es) && i <= |es|
    ensures Sound(ws[i])
  {
    if i == 0 {
      FreshIsSound(ws[0]);
    } else {
      TraceIsSound(cfg, ws, es, i - 1);
      StepIsSafe(cfg, ws[i - 1], es[i - 1]);
    }
  }

  /** Over whole runs: no push or pull deletes anything, and every content one of them
      overwrites is that path's recorded base, which both sides held at an earlier moment. */
  lemma NoLostUpdate(cfg: Config, ws: seq<World>, es: seq<Event>)
    requires IsTrace(cfg, ws, es)
    ensures forall i :: 0 <= i < |es| ==> Safe(ws[i], es[i], ws[i + 1])
  {
    forall i | 0 <= i < |es| ensures Safe(ws[i], es[i], ws[i + 1]) {
      TraceIsSound(cfg, ws, es, i);
      StepIsSafe(cfg, ws[i], es[i]);
    }
  }

  // ---- the conditions are needed ----------------------------------------------------------

  const PLAIN := Config(false, p => false)

  lemma PushAllOne(cfg: Config, r: Run, s: FileState, faults: string -> PushFault, marks: string -> Mark, o: Outcome)
    requires !r.crashed
    ensures PushAll(cfg, false, r, [s], faults, marks, o) == PushOne(cfg, false, r, s, faults(s.rel), marks(s.rel), o)
  {
  }

  lemma UploadsOne(cfg: Config, w: World, p: string, faults: string -> PushFault, marks: string -> Mark)
    requires faults(p) == PushFine
    ensures
      var w' := Pushed(cfg, false, w, [p], faults, marks).0;
      w'.remote == if Uploads(cfg, StateOf(cfg, Start(w), p)) && p in w.local
                   then w.remote[p := RemoteFile(w.local[p], marks(p))] else w.remote
  {
    hide PushAll, Upload, IsHidden, Common, Shown, Classify;
    var s := StateOf(cfg, Start(w), p);
    assert States(cfg, Start(w), [p]) == [s];
    PushAllOne(cfg, Start(w), s, faults, marks, NOTHING);
    UploadStops(Start(w), p, PushFine, marks(p), NOTHING);
  }

  /** A server that keeps stamp and size over a change makes push overwrite a content that was
      never agreed on. */
  lemma ReusedStampLosesUpdate(w: World, faults: string -> PushFault, marks: string -> Mark)
    requires w.local == map["a" := [3]] && w.remote == map["a" := RemoteFile([2], Mark("t", true))]
    requires w.disk == map["a" := Entry(Digest([1]), 1, "t")] && faults("a") == PushFine
    ensures
      var w' := Pushed(PLAIN, false, w, ["a"], faults, marks).0;
      "a" in w'.remote && w'.remote["a"].content == [3] && !Recorded(w, "a", [2])
  {
    var p := "a";
    assert !IsHidden(p);
    assert Uploads(PLAIN, StateOf(PLAIN, Start(w), p));
    hide Pushed;
    UploadsOne(PLAIN, w, p, faults, marks);
  }

  /** For one path, whatever the server does with its stamps: push overwrites a remote content that is not
      on record exactly when the local file is scanned, in scope and changed since the base, and the
      server's file looks like the base by stamp and size although its content is neither the base's
      nor the local one. */
  lemma PushOverwritesUnrecorded(
    cfg: Config, w: World, p: string, faults: string -> PushFault, marks: string -> Mark)
    requires IndexJustified(w.disk, w.agreed, w.shown) && p in w.remote && faults(p) == PushFine
    ensures
      var was, w' := w.remote[p].content, Pushed(cfg, false, w, [p], faults, marks).0;
      p in w'.remote && w'.remote[p].content != was && !Recorded(w, p, was) <==>
      && p in w.local && !cfg.ignored(p) && (cfg.protect || !IsHidden(p))
      && p in w.disk && Digest(w.local[p]) != w.disk[p].sha
      && RemoteMatchesBase(w.disk[p], w.remote[p]) == Some(true) && Digest(was) != w.disk[p].sha && was != w.local[p]
  {
    hide Pushed, IsHidden;
    UploadsOne(cfg, w, p, faults, marks);
    if p in w.disk {
      assert Justified(p, w.disk[p], w.agreed, w.shown);
    }
  }

  lemma PullAllOne(r: Run, s: FileState, faults: string -> PullFault, o: Outcome)
    requires !r.crashed
    ensures PullAll(false, r, [s], faults, o) == PullOne(false, r, s, faults(s.rel), o)
  {
  }

  lemma DownloadsOne(cfg: Config, w: World, p: string, faults: string -> PullFault)
    requires faults(p) == PullFine
    ensures
      var s := StateOf(cfg, Start(w), p);
      Pulled(cfg, false, w, [p], faults).0.local == if Downloads(s) then w.local[p := w.remote[p].content] else w.local
  {
    hide PullAll, Download;
    var s := StateOf(cfg, Start(w), p);
    assert States(cfg, Start(w), [p]) == [s];
    PullAllOne(Start(w), s, faults, NOTHING);
    DownloadStops(Start(w), p, PullFine, NOTHING);
  }

  /** For one path: pull overwrites a local content that is not on record exactly when the ignore
      rules hide a local file from the scan that also exists on the server with other content
      and has no base. */
  lemma PullOverwritesUnrecorded(cfg: Config, w: World, p: string, faults: string -> PullFault)
    requires Sound(w) && p in w.local && faults(p) == PullFine
    ensures
      var w' := Pulled(cfg, false, w, [p], faults).0;
      p in w'.local && w'.local[p] != w.local[p] && !Recorded(w, p, w.local[p]) <==>
      cfg.ignored(p) && p in w.remote && p !in w.disk && w.remote[p].content != w.local[p]
  {
    hide Pulled;
    DownloadsOne(cfg, w, p, faults);
    if !cfg.ignored(p) && Downloads(StateOf(cfg, Start(w), p)) {
      DownloadIsRecorded(cfg, w, p);
    }
  }
}

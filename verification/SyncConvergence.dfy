/** A push followed by a pull, with nothing failing and nothing in conflict, brings the two
    sides together; doing it again does nothing. */
module SyncConvergence {
  import opened Basics
  import opened Paths
  import opened SyncModel
  import opened SyncSafety

  // ---- what a command without faults does to one path ---------------------------------

  predicate UploadsPath(cfg: Config, w: World, p: string) {
    Uploads(cfg, StateOf(cfg, Start(w), p))
  }

  predicate DownloadsPath(cfg: Config, w: World, p: string) {
    Downloads(StateOf(cfg, Start(w), p))
  }

  /** The paths among `states` that are uploaded, respectively downloaded. */
  predicate PushTouches(cfg: Config, states: seq<FileState>, p: string) {
    exists i :: 0 <= i < |states| && states[i].rel == p && Uploads(cfg, states[i])
  }

  predicate PullTouches(states: seq<FileState>, p: string) {
    exists i :: 0 <= i < |states| && states[i].rel == p && Downloads(states[i])
  }

  function AgreedEntry(data: Bytes, stamp: string): Entry {
    Entry(Digest(data), |data|, stamp)
  }

  /** What a push that nothing disturbs leaves of a running command. */
  ghost predicate PushedTo(cfg: Config, r: Run, states: seq<FileState>, marks: string -> Mark, r': Run) {
    && !r'.crashed && r'.local == r.local && r'.mem == r'.disk
    && forall p :: if PushTouches(cfg, states, p) && p in r.local
                   then Get(r'.remote, p) == Some(RemoteFile(r.local[p], marks(p)))
                       && Get(r'.mem, p) == Some(AgreedEntry(r.local[p], marks(p).stamp))
                   else Get(r'.remote, p) == Get(r.remote, p) && Get(r'.mem, p) == Get(r.mem, p)
  }

  ghost predicate PulledTo(r: Run, states: seq<FileState>, r': Run) {
    && !r'.crashed && r'.remote == r.remote && r'.mem == r'.disk
    && forall p :: if PullTouches(states, p) && p in r.remote
                   then Get(r'.local, p) == Some(r.remote[p].content)
                       && Get(r'.mem, p) == Some(AgreedEntry(r.remote[p].content, r.remote[p].mark.stamp))
                   else Get(r'.local, p) == Get(r.local, p) && Get(r'.mem, p) == Get(r.mem, p)
  }

  lemma PushOneTo(cfg: Config, r: Run, s: FileState, marks: string -> Mark, o: Outcome)
    requires !r.crashed && r.mem == r.disk && (s.hasLocal ==> s.rel in r.local)
    requires Uploads(cfg, s) ==> s.hasLocal
    ensures PushedTo(cfg, r, [s], marks, PushOne(cfg, false, r, s, PushFine, marks(s.rel), o).0)
  {
    hide Upload, Common, Shown, IsHidden;
    UploadStops(r, s.rel, PushFine, marks(s.rel), o);
    if Uploads(cfg, s) {
      assert [s][0].rel == s.rel;
      UploadFineRuns(r, s.rel, marks(s.rel), o);
    }
  }

  lemma UploadFineRuns(r: Run, p: string, mark: Mark, o: Outcome)
    requires !r.crashed && p in r.local
    ensures Upload(r, p, PushFine, mark, o)
         == (UploadedTo(r, p, mark, mark.stamp, AtSave), o.(transferred := o.transferred + [p]))
  {
    hide Put, SetEntry, Save, Crash;
  }

  lemma {:induction false} PushAllTo(
    cfg: Config, r: Run, states: seq<FileState>, faults: string -> PushFault, marks: string -> Mark, o: Outcome)
    requires !r.crashed && r.mem == r.disk
    requires forall i :: 0 <= i < |states| ==> faults(states[i].rel) == PushFine
    requires forall i :: 0 <= i < |states| ==>
        (Uploads(cfg, states[i]) ==> states[i].hasLocal) && (states[i].hasLocal ==> states[i].rel in r.local)
    ensures PushedTo(cfg, r, states, marks, PushAll(cfg, false, r, states, faults, marks, o).0)
    decreases |states|
  {
    hide PushOne, Uploads, AgreedEntry;
    if states == [] {
    } else {
      hide PushTouches;
      var s := states[0];
      PushOneTo(cfg, r, s, marks, o);
      var (next, o') := PushOne(cfg, false, r, s, PushFine, marks(s.rel), o);
      PushAllTo(cfg, next, states[1..], faults, marks, o');
      var last := PushAll(cfg, false, next, states[1..], faults, marks, o').0;
      forall p ensures PushTouches(cfg, states, p) <==> PushTouches(cfg, [s], p) || PushTouches(cfg, states[1..], p) {
        TouchesSplit(cfg, states, p);
      }
    }
  }

  lemma TouchesSplit(cfg: Config, states: seq<FileState>, p: string)
    requires states != []
    ensures PushTouches(cfg, states, p) <==> PushTouches(cfg, [states[0]], p) || PushTouches(cfg, states[1..], p)
    ensures PullTouches(states, p) <==> PullTouches([states[0]], p) || PullTouches(states[1..], p)
  {
    hide Uploads, Downloads;
    assert forall i :: 1 <= i < |states| ==> states[i] == states[1..][i - 1];
    if PushTouches(cfg, [states[0]], p) {
      assert states[0].rel == p && Uploads(cfg, states[0]);
    }
    if PushTouches(cfg, states[1..], p) {
      var i :| 0 <= i < |states[1..]| && states[1..][i].rel == p && Uploads(cfg, states[1..][i]);
      assert states[i + 1].rel == p && Uploads(cfg, states[i + 1]);
    }
    if PushTouches(cfg, states, p) {
      var i :| 0 <= i < |states| && states[i].rel == p && Uploads(cfg, states[i]);
      assert i == 0 ==> [states[0]][0] == states[i];
    }
    if PullTouches([states[0]], p) {
      assert states[0].rel == p && Downloads(states[0]);
    }
    if PullTouches(states[1..], p) {
      var i :| 0 <= i < |states[1..]| && states[1..][i].rel == p && Downloads(states[1..][i]);
      assert states[i + 1].rel == p && Downloads(states[i + 1]);
    }
    if PullTouches(states, p) {
      var i :| 0 <= i < |states| && states[i].rel == p && Downloads(states[i]);
      assert i == 0 ==> [states[0]][0] == states[i];
    }
  }

  lemma DownloadFineRuns(r: Run, p: string, o: Outcome)
    requires !r.crashed && p in r.remote
    ensures Download(r, p, PullFine, o) == (DownloadedTo(r, p, AtSave), o.(transferred := o.transferred + [p]))
  {
    hide WriteLocal, SetEntry, Save, Crash;
  }

  lemma PullOneTo(r: Run, s: FileState, o: Outcome)
    requires !r.crashed && r.mem == r.disk
    ensures PulledTo(r, [s], PullOne(false, r, s, PullFine, o).0)
  {
    hide Download;
    DownloadStops(r, s.rel, PullFine, o);
    if Downloads(s) {
      assert [s][0].rel == s.rel;
      if s.rel in r.remote {
        DownloadFineRuns(r, s.rel, o);
      }
    }
  }

  lemma {:induction false} PullAllTo(r: Run, states: seq<FileState>, faults: string -> PullFault, o: Outcome)
    requires !r.crashed && r.mem == r.disk
    requires forall i :: 0 <= i < |states| ==> faults(states[i].rel) == PullFine
    ensures PulledTo(r, states, PullAll(false, r, states, faults, o).0)
    decreases |states|
  {
    hide PullOne, Downloads;
    if states != [] {
      var s := states[0];
      PullOneTo(r, s, o);
      var (next, o') := PullOne(false, r, s, PullFine, o);
      PullAllTo(next, states[1..], faults, o');
      forall p ensures PullTouches(states, p) <==> PullTouches([s], p) || PullTouches(states[1..], p) {
        TouchesSplit(Config(true, q => false), states, p);
      }
    }
  }

  // ---- one path before and after --------------------------------------------------------

  function LocalOf(cfg: Config, w: World, p: string): Option<Bytes> {
    Scanned(cfg, w.local, p)
  }

  function ChangeOf(cfg: Config, w: World, p: string): Change {
    Classify(LocalOf(cfg, w, p), Get(w.remote, p), Get(w.disk, p))
  }

  lemma StatesTouch(cfg: Config, w: World, rels: seq<string>, p: string)
    requires Enumerates(cfg, Start(w), rels)
    ensures PushTouches(cfg, States(cfg, Start(w), rels), p) <==> UploadsPath(cfg, w, p)
    ensures PullTouches(States(cfg, Start(w), rels), p) <==> DownloadsPath(cfg, w, p)
  {
    var states := States(cfg, Start(w), rels);
    assert forall i :: 0 <= i < |rels| ==> states[i] == StateOf(cfg, Start(w), rels[i]) && states[i].rel == rels[i];
    if UploadsPath(cfg, w, p) || DownloadsPath(cfg, w, p) {
      assert p in rels;
      var i :| 0 <= i < |rels| && rels[i] == p;
      assert states[i].rel == p;
    }
  }

  lemma PushPoint(cfg: Config, w: World, rels: seq<string>, faults: string -> PushFault, marks: string -> Mark,
      p: string)
    requires Enumerates(cfg, Start(w), rels) && forall q :: q in rels ==> faults(q) == PushFine
    ensures
      var w' := Pushed(cfg, false, w, rels, faults, marks).0;
      && w'.local == w.local
      && if UploadsPath(cfg, w, p)
         then p in w.local && Get(w'.remote, p) == Some(RemoteFile(w.local[p], marks(p)))
              && Get(w'.disk, p) == Some(AgreedEntry(w.local[p], marks(p).stamp))
         else Get(w'.remote, p) == Get(w.remote, p) && Get(w'.disk, p) == Get(w.disk, p)
  {
    hide PushAll;
    PushAllTo(cfg, Start(w), States(cfg, Start(w), rels), faults, marks, NOTHING);
    StatesTouch(cfg, w, rels, p);
  }

  lemma PullPoint(cfg: Config, w: World, rels: seq<string>, faults: string -> PullFault, p: string)
    requires Enumerates(cfg, Start(w), rels) && forall q :: q in rels ==> faults(q) == PullFine
    ensures
      var w' := Pulled(cfg, false, w, rels, faults).0;
      && w'.remote == w.remote
      && if DownloadsPath(cfg, w, p)
         then p in w.remote && Get(w'.local, p) == Some(w.remote[p].content)
              && Get(w'.disk, p) == Some(AgreedEntry(w.remote[p].content, w.remote[p].mark.stamp))
         else Get(w'.local, p) == Get(w.local, p) && Get(w'.disk, p) == Get(w.disk, p)
  {
    hide PullAll;
    PullAllTo(Start(w), States(cfg, Start(w), rels), faults, NOTHING);
    StatesTouch(cfg, w, rels, p);
  }

  // ---- the classification of what a transfer leaves ---------------------------------------

  lemma TransferredIsUnchanged(data: Bytes, mark: Mark)
    ensures Classify(Some(data), Some(RemoteFile(data, mark)), Some(AgreedEntry(data, mark.stamp))) == Unchanged
  {
  }

  /** Unchanged on both sides means equal, given that the cheap comparison is not blind;
      unchanged on one side means that the other one has been deleted since. */
  lemma UnchangedMeans(l: Option<Bytes>, r: Option<RemoteFile>, b: Option<Entry>)
    requires Classify(l, r, b) == Unchanged && (b.Some? && r.Some? ==> !Blind(b.value, r.value))
    ensures l.Some? && r.Some? ==> l.value == r.value.content
    ensures l.Some? != r.Some? ==> b.Some?
  {
  }

  /** A path with a base that exists on one side only is either left alone or in conflict. */
  lemma OneSided(l: Option<Bytes>, r: Option<RemoteFile>, b: Option<Entry>)
    requires l.Some? != r.Some?
    ensures b.Some? ==> Classify(l, r, b) == Unchanged || Classify(l, r, b) == Conflict
    ensures b.None? ==> Classify(l, r, b) == if l.Some? then LocalNew else RemoteNew
  {
  }

  /** Push only takes over what is hidden when dotfiles are protected. */
  predicate InScope(cfg: Config, p: string) {
    !cfg.ignored(p) && (cfg.protect || !IsHidden(p))
  }

  /** The whole story of one path: uploaded, downloaded, or left alone. */
  lemma SettledCell(cfg: Config, w: World, w1: World, w2: World, marks: string -> Mark, p: string)
    requires ChangeOf(cfg, w, p) != Conflict && (p in w1.local && p in w1.remote ==> !cfg.ignored(p))
    requires w1.local == w.local
    requires if UploadsPath(cfg, w, p)
             then p in w.local && Get(w1.remote, p) == Some(RemoteFile(w.local[p], marks(p)))
                  && Get(w1.disk, p) == Some(AgreedEntry(w.local[p], marks(p).stamp))
             else Get(w1.remote, p) == Get(w.remote, p) && Get(w1.disk, p) == Get(w.disk, p)
    requires w2.remote == w1.remote
    requires if DownloadsPath(cfg, w1, p)
             then p in w1.remote && Get(w2.local, p) == Some(w1.remote[p].content)
                  && Get(w2.disk, p) == Some(AgreedEntry(w1.remote[p].content, w1.remote[p].mark.stamp))
             else Get(w2.local, p) == Get(w1.local, p) && Get(w2.disk, p) == Get(w1.disk, p)
    ensures InScope(cfg, p) ==> ChangeOf(cfg, w2, p) == Unchanged
    ensures !UploadsPath(cfg, w2, p) && !DownloadsPath(cfg, w2, p)
    ensures InScope(cfg, p) ==>
              ((p in w2.local) != (p in w2.remote) <==> p in w.disk && (p in w.local) != (p in w.remote))
  {
    hide IsHidden;
    if UploadsPath(cfg, w, p) {
      TransferredIsUnchanged(w.local[p], marks(p));
    } else if DownloadsPath(cfg, w1, p) {
      TransferredIsUnchanged(w1.remote[p].content, w1.remote[p].mark);
    } else if LocalOf(cfg, w, p).Some? != Get(w.remote, p).Some? {
      OneSided(LocalOf(cfg, w, p), Get(w.remote, p), Get(w.disk, p));
    }
  }

  /** Where a path stands after a push and a pull that nothing disturbs. */
  lemma SettledPath(
    cfg: Config, w: World, w1: World, w2: World, rels1: seq<string>, rels2: seq<string>,
    pushFaults: string -> PushFault, marks: string -> Mark, pullFaults: string -> PullFault, p: string)
    requires Enumerates(cfg, Start(w), rels1) && forall q :: q in rels1 ==> pushFaults(q) == PushFine
    requires w1 == Pushed(cfg, false, w, rels1, pushFaults, marks).0
    requires Enumerates(cfg, Start(w1), rels2) && forall q :: q in rels2 ==> pullFaults(q) == PullFine
    requires w2 == Pulled(cfg, false, w1, rels2, pullFaults).0
    requires ChangeOf(cfg, w, p) != Conflict && NoIgnoredTwin(cfg, w1)
    ensures InScope(cfg, p) ==> ChangeOf(cfg, w2, p) == Unchanged
    ensures !UploadsPath(cfg, w2, p) && !DownloadsPath(cfg, w2, p)
    ensures InScope(cfg, p) ==>
              ((p in w2.local) != (p in w2.remote) <==> p in w.disk && (p in w.local) != (p in w.remote))
  {
    hide Pushed, Pulled, Classify;
    PushPoint(cfg, w, rels1, pushFaults, marks, p);
    PullPoint(cfg, w1, rels2, pullFaults, p);
    SettledCell(cfg, w, w1, w2, marks, p);
  }

  // ---- the theorems -------------------------------------------------------------------------

  /** A push that nothing disturbs, then a pull that nothing disturbs, with no conflict at the start. */
  ghost predicate QuietSync(
    cfg: Config, w: World, w1: World, w2: World, rels1: seq<string>, rels2: seq<string>,
    pushFaults: string -> PushFault, marks: string -> Mark, pullFaults: string -> PullFault)
  {
    && Sound(w)
    && Enumerates(cfg, Start(w), rels1) && (forall q :: q in rels1 ==> pushFaults(q) == PushFine)
    && Legal(cfg, w, PushRun(false, rels1, pushFaults, marks))
    && w1 == Pushed(cfg, false, w, rels1, pushFaults, marks).0
    && Enumerates(cfg, Start(w1), rels2) && (forall q :: q in rels2 ==> pullFaults(q) == PullFine)
    && Legal(cfg, w1, PullRun(false, rels2, pullFaults))
    && w2 == Pulled(cfg, false, w1, rels2, pullFaults).0
    && forall p :: ChangeOf(cfg, w, p) != Conflict
  }

  /** Every path in scope that both sides have is equal on both; the paths that one side lacks are
      exactly those that had a base and had been deleted on that side. */
  lemma PushThenPullConverges(
    cfg: Config, w: World, w1: World, w2: World, rels1: seq<string>, rels2: seq<string>,
    pushFaults: string -> PushFault, marks: string -> Mark, pullFaults: string -> PullFault, p: string)
    requires QuietSync(cfg, w, w1, w2, rels1, rels2, pushFaults, marks, pullFaults) && InScope(cfg, p)
    ensures p in w2.local && p in w2.remote ==> w2.local[p] == w2.remote[p].content
    ensures (p in w2.local) != (p in w2.remote) <==> p in w.disk && (p in w.local) != (p in w.remote)
  {
    hide Pushed, Pulled, Sound, Legal, Classify;
    assert NoIgnoredTwin(cfg, w1) by {
      LegalPullMeans(cfg, w1, rels2, pullFaults);
    }
    StepIsSafe(cfg, w, PushRun(false, rels1, pushFaults, marks));
    StepIsSafe(cfg, w1, PullRun(false, rels2, pullFaults));
    SettledPath(cfg, w, w1, w2, rels1, rels2, pushFaults, marks, pullFaults, p);
    NeverBlind(w2, p);
    UnchangedMeans(LocalOf(cfg, w2, p), Get(w2.remote, p), Get(w2.disk, p));
  }

  lemma LegalPullMeans(cfg: Config, w: World, rels: seq<string>, faults: string -> PullFault)
    requires Legal(cfg, w, PullRun(false, rels, faults))
    ensures NoIgnoredTwin(cfg, w)
  {
  }

  lemma NeverBlind(w: World, p: string)
    requires Sound(w)
    ensures p in w.disk && p in w.remote ==> !Blind(w.disk[p], w.remote[p])
  {
  }

  lemma {:induction false} NothingToPush(
    cfg: Config, dryRun: bool, r: Run, states: seq<FileState>, faults: string -> PushFault, marks: string -> Mark,
    o: Outcome)
    requires forall i :: 0 <= i < |states| ==> !Uploads(cfg, states[i])
    ensures
      var end := PushAll(cfg, dryRun, r, states, faults, marks, o);
      end.0 == r && end.1.transferred == o.transferred && end.1.failures == o.failures
    decreases |states|
  {
    if states != [] && !r.crashed {
      var s := states[0];
      assert !Uploads(cfg, s);
      NothingToPush(cfg, dryRun, r, states[1..], faults, marks,
          PushOne(cfg, dryRun, r, s, faults(s.rel), marks(s.rel), o).1);
    }
  }

  lemma {:induction false} NothingToPull(
    dryRun: bool, r: Run, states: seq<FileState>, faults: string -> PullFault, o: Outcome)
    requires forall i :: 0 <= i < |states| ==> !Downloads(states[i])
    ensures
      var end := PullAll(dryRun, r, states, faults, o);
      end.0 == r && end.1.transferred == o.transferred && end.1.failures == o.failures
    decreases |states|
  {
    if states != [] && !r.crashed {
      var s := states[0];
      assert !Downloads(s);
      NothingToPull(dryRun, r, states[1..], faults, PullOne(dryRun, r, s, faults(s.rel), o).1);
    }
  }

  /** A second push and a second pull, in whatever order of files and whatever would go wrong,
      transfer nothing and change neither tree nor index. */
  lemma SecondSyncDoesNothing(
    cfg: Config, w: World, w1: World, w2: World, rels1: seq<string>, rels2: seq<string>,
    pushFaults: string -> PushFault, marks: string -> Mark, pullFaults: string -> PullFault,
    rels3: seq<string>, pushFaults3: string -> PushFault, marks3: string -> Mark, pullFaults3: string -> PullFault)
    requires QuietSync(cfg, w, w1, w2, rels1, rels2, pushFaults, marks, pullFaults)
    ensures
      var push := Pushed(cfg, false, w2, rels3, pushFaults3, marks3);
      push.0 == w2 && push.1.transferred == [] && push.1.failures == []
    ensures
      var pull := Pulled(cfg, false, w2, rels3, pullFaults3);
      pull.0 == w2 && pull.1.transferred == [] && pull.1.failures == []
  {
    hide Sound, Legal, Classify, PushAll, PullAll, Enumerates;
    assert NoIgnoredTwin(cfg, w1) by {
      LegalPullMeans(cfg, w1, rels2, pullFaults);
    }
    var states := States(cfg, Start(w2), rels3);
    forall i | 0 <= i < |states| ensures !Uploads(cfg, states[i]) && !Downloads(states[i]) {
      SettledPath(cfg, w, w1, w2, rels1, rels2, pushFaults, marks, pullFaults, rels3[i]);
    }
    NothingToPush(cfg, false, Start(w2), states, pushFaults3, marks3, NOTHING);
    NothingToPull(false, Start(w2), states, pullFaults3, NOTHING);
  }

  // ---- what is transferred, from the contents alone --------------------------------------------

  /** One side's content was changed, or is new, while the other still holds what was agreed on. */
  predicate Advances(from: Option<Bytes>, to: Option<Bytes>, base: Option<Bytes>) {
    from.Some? && from != base && to == base
  }

  lemma AdvanceIsTransferred(c: Change, here: Option<Bytes>, there: Option<Bytes>, base: Option<Bytes>)
    requires Means(c, here, there, base)
    ensures c == LocalNew || c == LocalModified <==> Advances(here, there, base)
    ensures c == RemoteNew || c == RemoteModified <==> Advances(there, here, base)
  {
  }

  /** What the index says both sides held last. */
  function BaseAt(w: World, p: string): Option<Bytes> {
    BaseOf(Get(w.disk, p))
  }

  function TakenAt(w: World, p: string): Option<Bytes> {
    Taken(Get(w.remote, p), Get(w.disk, p))
  }

  /** An undisturbed push delivers exactly the files in scope that are new or changed here while the server still
      has the base, and leaves every other path as it is. */
  lemma PushDelivers(
    cfg: Config, w: World, rels: seq<string>, faults: string -> PushFault, marks: string -> Mark, p: string)
    requires Enumerates(cfg, Start(w), rels) && forall q :: q in rels ==> faults(q) == PushFine
    ensures
      var w' := Pushed(cfg, false, w, rels, faults, marks).0;
      && w'.local == w.local
      && if InScope(cfg, p) && Advances(Get(w.local, p), TakenAt(w, p), BaseAt(w, p))
         then Get(w'.remote, p) == Some(RemoteFile(w.local[p], marks(p)))
              && Get(w'.disk, p) == Some(AgreedEntry(w.local[p], marks(p).stamp))
         else Get(w'.remote, p) == Get(w.remote, p) && Get(w'.disk, p) == Get(w.disk, p)
  {
    hide Pushed, Classify, Means, IsHidden;
    PushPoint(cfg, w, rels, faults, marks, p);
    StateIsJudged(cfg, Start(w), p);
    AdvanceIsTransferred(ChangeOf(cfg, w, p), LocalOf(cfg, w, p), TakenAt(w, p), BaseAt(w, p));
  }

  /** An undisturbed pull delivers exactly the files that are new or changed on the server while the scanned
      local content is still the base. */
  lemma PullDelivers(cfg: Config, w: World, rels: seq<string>, faults: string -> PullFault, p: string)
    requires Enumerates(cfg, Start(w), rels) && forall q :: q in rels ==> faults(q) == PullFine
    ensures
      var w' := Pulled(cfg, false, w, rels, faults).0;
      && w'.remote == w.remote
      && if Advances(TakenAt(w, p), LocalOf(cfg, w, p), BaseAt(w, p))
         then p in w.remote && Get(w'.local, p) == Some(w.remote[p].content)
              && Get(w'.disk, p) == Some(AgreedEntry(w.remote[p].content, w.remote[p].mark.stamp))
         else Get(w'.local, p) == Get(w.local, p) && Get(w'.disk, p) == Get(w.disk, p)
  {
    hide Pulled, Classify, Means;
    PullPoint(cfg, w, rels, faults, p);
    StateIsJudged(cfg, Start(w), p);
    AdvanceIsTransferred(ChangeOf(cfg, w, p), LocalOf(cfg, w, p), TakenAt(w, p), BaseAt(w, p));
  }

  // ---- reports ----------------------------------------------------------------------------------

  datatype Command = Push(cfg: Config) | Pull

  /** Under which heading a command reports a file that nothing disturbs. */
  datatype Heading = Transfers | SkipsHidden | Conflicts | UpToDate

  predicate Reports(c: Command, h: Heading, s: FileState) {
    match h
    case Transfers => if c.Push? then Uploads(c.cfg, s) else Downloads(s)
    case SkipsHidden =>
      && c.Push? && IsHidden(s.rel) && !c.cfg.protect && s.hasLocal
      && (s.change == LocalNew || s.change == LocalModified || s.change == Conflict)
    case Conflicts => s.change == Conflict && (c.Push? ==> c.cfg.protect || !IsHidden(s.rel))
    case UpToDate =>
      && s.change == Unchanged && s.hasLocal
      && (if c.Push? then c.cfg.protect || !IsHidden(s.rel) else s.hasRemote)
  }

  /** The files under this heading, in the order in which they were found. */
  function Reported(c: Command, h: Heading, states: seq<FileState>): seq<string> {
    if states == [] then []
    else (if Reports(c, h, states[0]) then [states[0].rel] else []) + Reported(c, h, states[1..])
  }

  function Report(c: Command, states: seq<FileState>, o: Outcome): Outcome {
    Outcome(
      o.transferred + Reported(c, Transfers, states), o.skippedHidden + Reported(c, SkipsHidden, states),
      o.conflicts + Reported(c, Conflicts, states), o.upToDate + Reported(c, UpToDate, states), o.failures)
  }

  lemma ReportedFirst(c: Command, h: Heading, states: seq<FileState>, before: seq<string>)
    requires states != []
    ensures before + Reported(c, h, states)
         == (if Reports(c, h, states[0]) then before + [states[0].rel] else before) + Reported(c, h, states[1..])
  {
    hide Reports;
    Regroup(before, [states[0].rel], Reported(c, h, states[1..]));
    assert [] + Reported(c, h, states[1..]) == Reported(c, h, states[1..]);
  }

  /** One more file to report. */
  function ReportFirst(c: Command, s: FileState, o: Outcome): Outcome {
    Outcome(
      if Reports(c, Transfers, s) then o.transferred + [s.rel] else o.transferred,
      if Reports(c, SkipsHidden, s) then o.skippedHidden + [s.rel] else o.skippedHidden,
      if Reports(c, Conflicts, s) then o.conflicts + [s.rel] else o.conflicts,
      if Reports(c, UpToDate, s) then o.upToDate + [s.rel] else o.upToDate, o.failures)
  }

  lemma ReportNext(c: Command, states: seq<FileState>, o: Outcome)
    ensures states == [] ==> Report(c, states, o) == o
    ensures states != [] ==> Report(c, states, o) == Report(c, states[1..], ReportFirst(c, states[0], o))
  {
    if states != [] {
      ReportedFirst(c, Transfers, states, o.transferred);
      ReportedFirst(c, SkipsHidden, states, o.skippedHidden);
      ReportedFirst(c, Conflicts, states, o.conflicts);
      ReportedFirst(c, UpToDate, states, o.upToDate);
      hide Reported, Reports;
    }
  }

  /** A push, dry or undisturbed, reports each file under its heading; a dry one changes nothing. */
  lemma {:induction false} PushReports(
    cfg: Config, dryRun: bool, r: Run, states: seq<FileState>, faults: string -> PushFault, marks: string -> Mark,
    o: Outcome)
    requires !r.crashed
    requires dryRun || forall i :: 0 <= i < |states| ==> faults(states[i].rel) == PushFine
    requires dryRun || forall i :: 0 <= i < |states| ==> Uploads(cfg, states[i]) ==> states[i].rel in r.local
    ensures
      var end := PushAll(cfg, dryRun, r, states, faults, marks, o);
      end.1 == Report(Push(cfg), states, o) && !end.0.crashed && (dryRun ==> end.0 == r)
    decreases |states|
  {
    ReportNext(Push(cfg), states, o);
    if states != [] {
      var s := states[0];
      hide Report, ReportFirst, Uploads;
      var next := PushOne(cfg, dryRun, r, s, faults(s.rel), marks(s.rel), o);
      PushOneReports(cfg, dryRun, r, s, faults(s.rel), marks(s.rel), o);
      PushReports(cfg, dryRun, next.0, states[1..], faults, marks, next.1);
    }
  }

  lemma PushOneReports(
    cfg: Config, dryRun: bool, r: Run, s: FileState, fault: PushFault, mark: Mark, o: Outcome)
    requires !r.crashed && (dryRun || fault == PushFine)
    requires dryRun || (Uploads(cfg, s) ==> s.rel in r.local)
    ensures
      var end := PushOne(cfg, dryRun, r, s, fault, mark, o);
      && end.1 == ReportFirst(Push(cfg), s, o) && !end.0.crashed && end.0.local == r.local
      && (dryRun ==> end.0 == r)
  {
    hide Upload, IsHidden;
    if Uploads(cfg, s) && !dryRun {
      UploadFineRuns(r, s.rel, mark, o);
    }
  }

  /** The same for a pull. */
  lemma {:induction false} PullReports(
    dryRun: bool, r: Run, states: seq<FileState>, faults: string -> PullFault, o: Outcome)
    requires !r.crashed
    requires dryRun || forall i :: 0 <= i < |states| ==> faults(states[i].rel) == PullFine
    requires dryRun || forall i :: 0 <= i < |states| ==> Downloads(states[i]) ==> states[i].rel in r.remote
    ensures
      var end := PullAll(dryRun, r, states, faults, o);
      end.1 == Report(Pull, states, o) && !end.0.crashed && (dryRun ==> end.0 == r)
    decreases |states|
  {
    ReportNext(Pull, states, o);
    if states != [] {
      var s := states[0];
      hide Report, ReportFirst, Downloads;
      var next := PullOne(dryRun, r, s, faults(s.rel), o);
      PullOneReports(dryRun, r, s, faults(s.rel), o);
      PullReports(dryRun, next.0, states[1..], faults, next.1);
    }
  }

  lemma PullOneReports(dryRun: bool, r: Run, s: FileState, fault: PullFault, o: Outcome)
    requires !r.crashed && (dryRun || fault == PullFine)
    requires dryRun || (Downloads(s) ==> s.rel in r.remote)
    ensures
      var end := PullOne(dryRun, r, s, fault, o);
      && end.1 == ReportFirst(Pull, s, o) && !end.0.crashed && end.0.remote == r.remote
      && (dryRun ==> end.0 == r)
  {
    hide Download;
    if Downloads(s) && !dryRun {
      DownloadFineRuns(r, s.rel, o);
    }
  }

  /** A dry push changes nothing at all, and its report is that of a push that nothing disturbs. */
  lemma DryPushAnnounces(
    cfg: Config, r: Run, states: seq<FileState>, faults: string -> PushFault, quiet: string -> PushFault,
    marks: string -> Mark, o: Outcome)
    requires !r.crashed && forall i :: 0 <= i < |states| ==> quiet(states[i].rel) == PushFine
    requires forall i :: 0 <= i < |states| ==> Uploads(cfg, states[i]) ==> states[i].rel in r.local
    ensures PushAll(cfg, true, r, states, faults, marks, o) == (r, PushAll(cfg, false, r, states, quiet, marks, o).1)
  {
    PushReports(cfg, true, r, states, faults, marks, o);
    PushReports(cfg, false, r, states, quiet, marks, o);
  }

  /** The same for a dry pull. */
  lemma DryPullAnnounces(
    r: Run, states: seq<FileState>, faults: string -> PullFault, quiet: string -> PullFault, o: Outcome)
    requires !r.crashed && forall i :: 0 <= i < |states| ==> quiet(states[i].rel) == PullFine
    requires forall i :: 0 <= i < |states| ==> Downloads(states[i]) ==> states[i].rel in r.remote
    ensures PullAll(true, r, states, faults, o) == (r, PullAll(false, r, states, quiet, o).1)
  {
    PullReports(true, r, states, faults, o);
    PullReports(false, r, states, quiet, o);
  }
}

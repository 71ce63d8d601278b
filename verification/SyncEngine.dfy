/** The sync engine as it runs: scanning, then transferring file by file, each effect on
    the trees and on the index happening in its own step. */
module SyncEngine {
  import opened Basics
  import opened Paths
  import opened SyncModel

  datatype Stop = Completed | Failed | Died

  class Repository {
    const cfg: Config
    var local: Local
    var remote: Remote
    /** The index in memory, and the one on disk. */
    var entries: Index
    var saved: Index
    ghost var agreed: set<(string, Bytes)>
    ghost var shown: set<(string, string, Bytes)>

    constructor (cfg: Config, local: Local, remote: Remote, saved: Index)
      ensures this.cfg == cfg && AsWorld() == World(local, remote, saved, Common(local, remote), Shown(remote))
      ensures entries == map[]
    {
      this.cfg, this.local, this.remote, this.saved, this.entries := cfg, local, remote, saved, map[];
      agreed, shown := Common(local, remote), Shown(remote);
    }

    ghost function AsWorld(): World
      reads this
    {
      World(local, remote, saved, agreed, shown)
    }

    ghost function AsRun(died: bool): Run
      reads this
    {
      Run(local, remote, entries, saved, agreed, shown, died)
    }

    method Load()
      modifies this`entries
      ensures AsRun(false) == Start(old(AsWorld()))
    {
      entries := saved;
    }

    // ---- effects ------------------------------------------------------------------

    method PutFile(p: string, data: Bytes, mark: Mark)
      modifies this`remote, this`agreed, this`shown
      ensures AsRun(false) == Put(old(AsRun(false)), p, RemoteFile(data, mark))
    {
      remote := remote[p := RemoteFile(data, mark)];
      agreed := agreed + Common(local, remote);
      shown := shown + Shown(remote);
    }

    method WriteFile(p: string, data: Bytes)
      modifies this`local, this`agreed
      ensures AsRun(false) == WriteLocal(old(AsRun(false)), p, data)
    {
      local := local[p := data];
      agreed := agreed + Common(local, remote);
    }

    method Set(p: string, e: Entry)
      modifies this`entries
      ensures AsRun(false) == SetEntry(old(AsRun(false)), p, e)
    {
      entries := entries[p := e];
    }

    method SaveIndex()
      modifies this`saved
      ensures AsRun(false) == Save(old(AsRun(false)))
    {
      saved := entries;
    }

    // ---- analysis: nothing is written ------------------------------------------------

    /** Every path that the local scan, the remote listing or the index knows. */
    method Collect() returns (rels: seq<string>)
      ensures Enumerates(cfg, AsRun(false), rels)
    {
      var known := (set p | p in local && !cfg.ignored(p)) + remote.Keys + entries.Keys;
      var rest := known;
      rels := [];
      while rest != {}
        invariant rest <= known && forall p :: p in rels <==> p in known && p !in rest
        invariant forall i, j :: 0 <= i < j < |rels| ==> rels[i] != rels[j]
        decreases rest
      {
        var p :| p in rest;
        rest := rest - {p};
        rels := rels + [p];
      }
    }

    method Diff() returns (rels: seq<string>, states: seq<FileState>)
      ensures Enumerates(cfg, AsRun(false), rels) && states == States(cfg, AsRun(false), rels)
      ensures forall i :: 0 <= i < |rels| ==> states[i].rel == rels[i] && Judged(cfg, AsRun(false), states[i])
    {
      hide Enumerates, Classify, Means;
      rels := Collect();
      states := [];
      for i := 0 to |rels|
        invariant |states| == i
        invariant forall k :: 0 <= k < i ==> states[k] == StateOf(cfg, AsRun(false), rels[k])
        invariant forall k :: 0 <= k < i ==> Judged(cfg, AsRun(false), states[k])
      {
        var p := rels[i];
        StateIsJudged(cfg, AsRun(false), p);
        var here := if cfg.ignored(p) then None else Get(local, p);
        var change := Classify(here, Get(remote, p), Get(entries, p));
        states := states + [FileState(p, change, here.Some?, p in remote)];
      }
    }

    // ---- push --------------------------------------------------------------------------

    /** Uploads one file; `fault` is what goes wrong on the way. */
    method UploadFile(p: string, fault: PushFault, mark: Mark) returns (stop: Stop)
      modifies this`remote, this`entries, this`saved, this`agreed, this`shown
      ensures forall o: Outcome ::
                (AsRun(stop.Died?), Noted(o, p, stop)) == Upload(old(AsRun(false)), p, fault, mark, o)
    {
      hide Common, Shown;
      if p !in local || fault == RefusedPut {
        return Failed;
      }
      if fault == DiesBeforePut {
        return Died;
      }
      var data := local[p];
      PutFile(p, data, mark);
      if fault == LostStat {
        return Failed;
      }
      if fault == DiesAfterPut {
        return Died;
      }
      Set(p, Entry(Digest(data), |data|, if fault == Unstatted then "" else mark.stamp));
      if fault == LostSave {
        return Failed;
      }
      if fault == DiesAfterSet {
        return Died;
      }
      SaveIndex();
      stop := if fault == DiesAfterSave then Died else Completed;
    }

    method Push(dryRun: bool, faults: string -> PushFault, marks: string -> Mark)
      returns (o: Outcome, died: bool, ghost rels: seq<string>)
      modifies this
      ensures Enumerates(cfg, Start(old(AsWorld())), rels)
      ensures
        var r := Start(old(AsWorld()));
        var end := PushAll(cfg, dryRun, r, States(cfg, r, rels), faults, marks, NOTHING);
        AsRun(died) == end.0 && o == end.1
      ensures AsWorld() == Pushed(cfg, dryRun, old(AsWorld()), rels, faults, marks).0
      ensures dryRun ==> AsWorld() == old(AsWorld()) && !died
    {
      hide Upload, Enumerates;
      Load();
      var all, states := Diff();
      rels := all;
      o, died := NOTHING, false;
      ghost var whole := PushAll(cfg, dryRun, AsRun(false), states, faults, marks, NOTHING);
      DryPushKeeps(cfg, AsRun(false), states, faults, marks, NOTHING);
      assert states[0..] == states;
      for i := 0 to |states|
        invariant !died && whole == PushAll(cfg, dryRun, AsRun(false), states[i..], faults, marks, o)
      {
        var s := states[i];
        assert states[i..][0] == s && states[i..][1..] == states[i + 1..];
        if IsHidden(s.rel) && !cfg.protect {
          if s.hasLocal && (s.change == LocalNew || s.change == LocalModified || s.change == Conflict) {
            o := o.(skippedHidden := o.skippedHidden + [s.rel]);
          }
        } else if s.change == Conflict {
          o := o.(conflicts := o.conflicts + [s.rel]);
        } else if s.change != LocalNew && s.change != LocalModified {
          if s.change == Unchanged && s.hasLocal {
            o := o.(upToDate := o.upToDate + [s.rel]);
          }
        } else if dryRun {
          o := o.(transferred := o.transferred + [s.rel]);
        } else {
          var stop := UploadFile(s.rel, faults(s.rel), marks(s.rel));
          o := Noted(o, s.rel, stop);
          if stop.Died? {
            died := true;
            return;
          }
        }
      }
      assert states[|states|..] == [];
    }

    // ---- pull --------------------------------------------------------------------------

    method DownloadFile(p: string, fault: PullFault) returns (stop: Stop)
      modifies this`local, this`entries, this`saved, this`agreed
      ensures forall o: Outcome ::
                (AsRun(stop.Died?), Noted(o, p, stop)) == Download(old(AsRun(false)), p, fault, o)
    {
      if p !in remote || fault == RefusedGet {
        return Failed;
      }
      if fault == DiesBeforeWrite {
        return Died;
      }
      var f := remote[p];
      WriteFile(p, f.content);
      if fault == DiesAfterWrite {
        return Died;
      }
      Set(p, Entry(Digest(f.content), |f.content|, f.mark.stamp));
      if fault == LostPullSave {
        return Failed;
      }
      if fault == DiesAfterPullSet {
        return Died;
      }
      SaveIndex();
      stop := if fault == DiesAfterPullSave then Died else Completed;
    }

    method Pull(dryRun: bool, faults: string -> PullFault)
      returns (o: Outcome, died: bool, ghost rels: seq<string>)
      modifies this
      ensures Enumerates(cfg, Start(old(AsWorld())), rels)
      ensures
        var r := Start(old(AsWorld()));
        var end := PullAll(dryRun, r, States(cfg, r, rels), faults, NOTHING);
        AsRun(died) == end.0 && o == end.1
      ensures AsWorld() == Pulled(cfg, dryRun, old(AsWorld()), rels, faults).0
      ensures dryRun ==> AsWorld() == old(AsWorld()) && !died
    {
      hide Download, Enumerates;
      Load();
      var all, states := Diff();
      rels := all;
      o, died := NOTHING, false;
      ghost var whole := PullAll(dryRun, AsRun(false), states, faults, NOTHING);
      DryPullKeeps(AsRun(false), states, faults, NOTHING);
      assert states[0..] == states;
      for i := 0 to |states|
        invariant !died && whole == PullAll(dryRun, AsRun(false), states[i..], faults, o)
      {
        var s := states[i];
        assert states[i..][0] == s && states[i..][1..] == states[i + 1..];
        if s.change == Conflict {
          o := o.(conflicts := o.conflicts + [s.rel]);
        } else if s.change != RemoteNew && s.change != RemoteModified {
          if s.change == Unchanged && s.hasRemote && s.hasLocal {
            o := o.(upToDate := o.upToDate + [s.rel]);
          }
        } else if !s.hasRemote {
        } else if dryRun {
          o := o.(transferred := o.transferred + [s.rel]);
        } else {
          var stop := DownloadFile(s.rel, faults(s.rel));
          o := Noted(o, s.rel, stop);
          if stop.Died? {
            died := true;
            return;
          }
        }
      }
      assert states[|states|..] == [];
    }
  }

  /** What the report says about one attempted transfer. */
  function Noted(o: Outcome, p: string, stop: Stop): Outcome {
    match stop
    case Completed => o.(transferred := o.transferred + [p])
    case Failed => o.(failures := o.failures + [p])
    case Died => o
  }
}

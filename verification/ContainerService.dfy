/** The container service as an object over its tables and its executor (src/services/container.service.ts).
    Each method is one locked section, or one unlocked step, and is proved equal to the step function of
    Platform that the run theorems are about. */
module ContainerService {
  import opened Common
  import R = Runtime
  import opened P = Platform

  class Executor {
    var alive: set<string>
    var files: map<R.Path, R.Content>

    function Value(): R.Runtime
      reads this
    {
      R.Runtime(alive, files)
    }

    method Stop(inst: string, o: R.StopOutcome) returns (threw: bool)
      modifies this
      ensures Value() == R.Stop(old(Value()), inst, o) && threw == o.StopThrew?
    {
      if o.StopDone? {
        alive := alive - {inst};
      }
      threw := o.StopThrew?;
    }

    method Create(inst: string, o: R.CreateOutcome) returns (started: bool)
      modifies this
      ensures Value() == R.Create(old(Value()), inst, o) && started == o.Started?
    {
      var overlay := R.OverlayAt(inst);
      if overlay !in files {
        match o
        case Started(content) => files := files[overlay := content];
        case NotStarted(Some(content)) => files := files[overlay := content];
        case NotStarted(None) =>
      }
      started := o.Started?;
      if started {
        alive := alive + {inst};
      }
    }

    method Snapshot(inst: string, name: string, hasOverlay: bool, o: R.CopyOutcome) returns (copied: bool)
      modifies this
      ensures Value() == R.Copy(old(Value()), inst, name, hasOverlay, o)
      ensures copied == R.CopyWorks(old(Value()), inst, hasOverlay, o)
    {
      var dst := R.SnapshotAt(inst, name);
      var source := R.OverlayAt(inst);
      copied := o.Copied? && hasOverlay && source in files;
      if copied {
        files := files[dst := files[source]];
      } else if o.NotCopied? && o.left.Some? {
        files := files[dst := o.left.value];
      } else {
        files := files - {dst};
      }
    }

    method Restore(inst: string, snapshot: R.Path, o: R.RestoreOutcome) returns (restored: bool)
      modifies this
      ensures Value() == R.Restore(old(Value()), inst, snapshot, o)
      ensures restored == R.RestoreWorks(old(Value()), snapshot, o)
    {
      var overlay := R.OverlayAt(inst);
      restored := o.Restored? && snapshot in files;
      if restored {
        alive := alive + {inst};
        files := files[overlay := files[snapshot]];
      } else if o.NotRestored? && o.remains.LeavesNone? {
        files := files - {overlay};
      } else if o.NotRestored? && o.remains.HasSnapshot? && snapshot in files {
        files := files[overlay := files[snapshot]];
      }
    }

    method Destroy(inst: string, hasOverlay: bool, o: R.DestroyOutcome)
      modifies this
      ensures Value() == R.Destroy(old(Value()), inst, hasOverlay, o)
    {
      if o.DestroyDone? || (o.DestroyThrew? && o.stopped) {
        alive := alive - {inst};
      }
      if !o.DestroyThrew? && hasOverlay {
        files := files - {R.OverlayAt(inst)};
      }
    }

    method RemovePath(p: R.Path, ok: bool)
      modifies this
      ensures Value() == R.RemovePath(old(Value()), p, ok)
    {
      if ok {
        files := files - {p};
      }
    }
  }

  class Service {
    const executor: Executor
    var containers: seq<Container>
    var snapshots: seq<Option<Snapshot>>
    var overlays: seq<Option<OverlayRow>>
    var workspaces: seq<Option<Workspace>>
    var creates: map<nat, CreatePhase>
    var deletes: map<nat, Deletion>
    var sweeps: map<nat, Sweep>
    var renews: map<nat, Renewal>
    var clock: nat

    function Value(): State
      reads this, executor
    {
      State(containers, snapshots, overlays, workspaces, executor.Value(), creates, deletes, sweeps, renews, clock)
    }

    constructor (executor: Executor)
      ensures this.executor == executor
      ensures Value() == INITIAL.(rt := executor.Value())
    {
      this.executor := executor;
      containers, snapshots, overlays, workspaces := [], [], [], [];
      creates, deletes, sweeps, renews, clock := map[], map[], map[], map[], 0;
    }

    // ---- create: three unlocked steps ----

    method CreateInsert(user: nat, inst: string) returns (c: nat)
      modifies this
      ensures Value() == old(Value()).(
                containers := old(containers) + [Container(user, inst, Creating, false, false, 0)],
                creates := old(creates)[c := Inserted])
      ensures c == |old(containers)|
    {
      c := |containers|;
      containers := containers + [Container(user, inst, Creating, false, false, 0)];
      creates := creates[c := Inserted];
    }

    method CreateProvision(c: nat, o: R.CreateOutcome)
      requires Enabled(Value(), CreateExec(c, o))
      modifies this, executor
      ensures Value() == Step(old(Value()), CreateExec(c, o))
    {
      var started := executor.Create(containers[c].inst, o);
      creates := creates[c := if started then Provisioned else ProvisionFailed];
    }

    method CreateFinish(c: nat)
      requires Enabled(Value(), CreateMark(c))
      modifies this
      ensures Value() == Step(old(Value()), CreateMark(c))
    {
      var row := containers[c];
      if creates[c].Provisioned? {
        containers := containers[c := row.(status := Running, hasOverlay := true, lastStarted := clock / 1000)];
        overlays := overlays + [Some(OverlayRow(c, true, 0))];
      } else {
        containers := containers[c := row.(status := Error)];
        renews := renews - {c};
      }
      creates := creates - {c};
    }

    // ---- restoring a snapshot into a new container: `create`, then unlocked steps ----

    method RenewInsert(sid: nat, user: nat, inst: string) returns (c: nat)
      requires Enabled(Value(), P.RenewInsert(sid, user, inst))
      modifies this
      ensures Value() == Step(old(Value()), P.RenewInsert(sid, user, inst))
      ensures c == |old(containers)|
    {
      var snap := snapshots[sid].value;
      c := CreateInsert(user, inst);
      renews := renews[c := Waiting(snap.path, snap.size)];
    }

    method RenewRead(c: nat, image: bool)
      requires Enabled(Value(), P.RenewRead(c, image))
      modifies this
      ensures Value() == Step(old(Value()), P.RenewRead(c, image))
    {
      var r := renews[c];
      renews := renews[c := if image then RowRead(r.path, r.size, containers[c].status.Running?) else Cleaning];
    }

    /** Quiesce as far as the row that was read asks for it; a failed stop is ignored. */
    method RenewStop(c: nat, stop: R.StopOutcome)
      requires Enabled(Value(), P.RenewStop(c, stop))
      modifies this, executor
      ensures Value() == Step(old(Value()), P.RenewStop(c, stop))
    {
      var r := renews[c];
      if r.wasRunning {
        var _ := executor.Stop(containers[c].inst, stop);
      }
      renews := renews[c := Quiet(r.path, r.size)];
    }

    method RenewRestore(c: nat, o: R.RestoreOutcome)
      requires Enabled(Value(), P.RenewRestore(c, o))
      modifies this, executor
      ensures Value() == Step(old(Value()), P.RenewRestore(c, o))
    {
      var r := renews[c];
      var restored := executor.Restore(containers[c].inst, r.path, o);
      renews := renews[c := Swapped(r.size, restored)];
    }

    /** The updates after the executor returned; the status is not read again. */
    method RenewMark(c: nat)
      requires Enabled(Value(), P.RenewMark(c))
      modifies this
      ensures Value() == Step(old(Value()), P.RenewMark(c))
    {
      var row := containers[c];
      if renews[c].works {
        containers := containers[c := row.(status := Running, hasOverlay := true, lastStarted := clock / 1000)];
        overlays := DemoteOverlays(overlays, c) + [Some(OverlayRow(c, true, renews[c].size))];
        renews := renews - {c};
      } else {
        containers := containers[c := row.(status := Stopped)];
        renews := renews[c := Cleaning];
      }
    }

    /** A failed restore destroys the new container, under its lock. */
    method RenewCleanup(c: nat, stop: R.StopOutcome, o: R.DestroyOutcome)
      requires Enabled(Value(), P.RenewCleanup(c, stop, o))
      modifies this, executor
      ensures Value() == Step(old(Value()), P.RenewCleanup(c, stop, o))
    {
      var _ := Destroy(c, stop, o);
      renews := renews - {c};
    }

    // ---- the locked sections ----

    method PlainStart(c: nat, o: R.CreateOutcome) returns (reply: Reply)
      requires c < |containers|
      modifies this, executor
      ensures (Value(), reply) == P.PlainStart(old(Value()), c, o)
    {
      var row := containers[c];
      var started := executor.Create(row.inst, o);
      if started {
        containers := containers[c := row.(status := Running, hasOverlay := true, lastStarted := clock / 1000)];
        reply := Done;
      } else {
        reply := Failed;
      }
    }

    method RestoreFromSnapshot(c: nat, snap: Snapshot, image: bool, stop: R.StopOutcome, o: R.RestoreOutcome)
      returns (reply: Reply)
      requires c < |containers|
      modifies this, executor
      ensures (Value(), reply) == P.RestoreFrom(old(Value()), c, snap, image, stop, o)
    {
      if !image {
        return NotFound;
      }
      var row := containers[c];
      if row.status.Running? {
        var _ := executor.Stop(row.inst, stop);
      }
      var restored := executor.Restore(row.inst, snap.path, o);
      if restored {
        containers := containers[c := row.(status := Running, hasOverlay := true, lastStarted := clock / 1000)];
        overlays := DemoteOverlays(overlays, c) + [Some(OverlayRow(c, true, snap.size))];
        reply := Done;
      } else {
        containers := containers[c := row.(status := Stopped)];
        reply := Failed;
      }
    }

    method Start(c: nat, image: bool, o: R.CreateOutcome, ro: R.RestoreOutcome) returns (reply: Reply)
      requires c < |containers|
      modifies this, executor
      ensures (Value(), reply) == P.StartSection(old(Value()), c, image, o, ro)
    {
      var row := containers[c];
      if row.status.Running? {
        return Done;
      }
      if row.status.Destroyed? {
        return InvalidState;
      }
      if row.autoStopped && row.status.Stopped? {
        var latest := LatestAuto(snapshots, c);
        if latest.Some? {
          reply := RestoreFromSnapshot(c, snapshots[latest.value].value, image, R.StopDone, ro);
          if reply.Done? {
            containers := containers[c := containers[c].(autoStopped := false)];
          }
          return;
        }
        containers := containers[c := row.(autoStopped := false)];
      }
      if image {
        reply := PlainStart(c, o);
      } else {
        reply := NotFound;
      }
    }

    method Stop(c: nat, o: R.StopOutcome) returns (reply: Reply)
      requires c < |containers|
      modifies this, executor
      ensures (Value(), reply) == P.StopSection(old(Value()), c, o)
    {
      var row := containers[c];
      if !row.status.Running? {
        return InvalidState;
      }
      var threw := executor.Stop(row.inst, o);
      if threw {
        return Failed;
      }
      containers := containers[c := row.(status := Stopped)];
      reply := Done;
    }

    method Destroy(c: nat, stop: R.StopOutcome, o: R.DestroyOutcome) returns (reply: Reply)
      requires c < |containers|
      modifies this, executor
      ensures (Value(), reply) == P.DestroySection(old(Value()), c, stop, o)
    {
      var row := containers[c];
      if row.status.Destroyed? {
        return Done;
      }
      var threw := false;
      if row.status.Running? {
        threw := executor.Stop(row.inst, stop);
      }
      if !threw {
        executor.Destroy(row.inst, row.hasOverlay, o);
      }
      overlays := DropOverlays(overlays, c);
      containers := containers[c := row.(status := Destroyed)];
      reply := Done;
    }

    /** The `try` part of snapshot: copy, check the owner's quota, record, refresh the overlay row. */
    method CopyAndRecord(c: nat, name: string, w: SnapshotWorld) returns (reply: Reply)
      requires c < |containers|
      modifies this, executor
      ensures (Value(), reply) == P.CopyAndRecord(old(Value()), c, name, w)
    {
      var row := containers[c];
      var path := R.SnapshotAt(row.inst, name);
      var taken := if R.OverlayAt(row.inst) in executor.files then executor.files[R.OverlayAt(row.inst)] else 0;
      var used := Usage(Value(), row.user);
      var copied := executor.Snapshot(row.inst, name, row.hasOverlay, w.copy);
      if !copied {
        return Failed;
      }
      if used + w.copy.size > w.limitBytes {
        executor.RemovePath(path, w.orphanRemoved);
        return QuotaExceeded;
      }
      if UserNameTaken(snapshots, row.user, name) {
        executor.RemovePath(path, w.orphanRemoved);
        return Failed;
      }
      snapshots := snapshots + [Some(P.Snapshot.Snapshot(c, row.user, name, path, w.copy.size, taken))];
      var current := CurrentOverlay(overlays, c);
      if current.Some? {
        overlays := overlays[current.value := Some(overlays[current.value].value.(size := w.copy.size))];
      }
      reply := Done;
    }

    method TakeSnapshot(c: nat, name: string, restartAfter: bool, w: SnapshotWorld) returns (reply: Reply)
      requires c < |containers|
      modifies this, executor
      ensures (Value(), reply) == P.SnapshotSection(old(Value()), c, name, restartAfter, w)
    {
      reply := SnapshotRefusal(Value(), c, name, w);
      if !reply.Done? {
        return;
      }
      var row := containers[c];
      var wasRunning := row.status.Running?;
      if wasRunning {
        var _ := executor.Stop(row.inst, w.stop);
      }
      reply := CopyAndRecord(c, name, w);
      if wasRunning && restartAfter {
        var restarted := false;
        if w.image {
          restarted := executor.Create(row.inst, w.restart);
        }
        if !restarted {
          containers := containers[c := containers[c].(status := Stopped)];
        }
      }
    }

    method RestoreSnapshot(c: nat, sid: nat, image: bool, stop: R.StopOutcome, o: R.RestoreOutcome)
      returns (reply: Reply)
      requires c < |containers|
      modifies this, executor
      ensures (Value(), reply) == P.RestoreSection(old(Value()), c, sid, image, stop, o)
    {
      if sid < |snapshots| && snapshots[sid].Some? && snapshots[sid].value.cid == c {
        reply := RestoreFromSnapshot(c, snapshots[sid].value, image, stop, o);
      } else {
        reply := NotFound;
      }
    }

    /** The reaper's first section: re-check the row under the lock, then stop and mark it. */
    method Release(c: nat, seen: nat, o: R.StopOutcome) returns (released: bool)
      requires c < |containers|
      modifies this, executor
      ensures (Value(), released) == P.ReleaseSection(old(Value()), c, seen, o)
    {
      var row := containers[c];
      if !row.status.Running? || row.lastStarted != seen {
        return false;
      }
      var threw := executor.Stop(row.inst, o);
      if threw {
        return false;
      }
      containers := containers[c := row.(status := Stopped, autoStopped := true)];
      released := true;
    }

    // ---- snapshot deletion: three unlocked steps ----

    method DeleteSnapshotRead(d: nat, sid: nat)
      requires Enabled(Value(), DeleteRead(d, sid))
      modifies this
      ensures Value() == Step(old(Value()), DeleteRead(d, sid))
    {
      deletes := deletes[d := Deletion(sid, snapshots[sid].value.path, false)];
    }

    method DeleteSnapshotFile(d: nat, ok: bool)
      requires Enabled(Value(), DeleteFile(d, ok))
      modifies this, executor
      ensures Value() == Step(old(Value()), DeleteFile(d, ok))
    {
      executor.RemovePath(deletes[d].path, ok);
      deletes := deletes[d := deletes[d].(tried := true)];
    }

    method DeleteSnapshotRow(d: nat)
      requires Enabled(Value(), DeleteRow(d))
      modifies this
      ensures Value() == Step(old(Value()), DeleteRow(d))
    {
      snapshots := snapshots[deletes[d].sid := None];
      deletes := deletes - {d};
    }

    // ---- workspaces ----

    method UploadFile(ws: nat, bytes: nat, replaced: nat, limitBytes: int) returns (reply: Reply)
      requires ws < |workspaces| && Replaceable(workspaces[ws], replaced)
      modifies this
      ensures (Value(), reply) == P.UploadSection(old(Value()), ws, bytes, replaced, limitBytes)
    {
      if workspaces[ws].None? {
        return NotFound;
      }
      var row := workspaces[ws].value;
      if Usage(Value(), row.user) + bytes > limitBytes {
        return QuotaExceeded;
      }
      var onDisk := row.actual - replaced + bytes;
      workspaces := workspaces[ws := Some(row.(actual := onDisk, recorded := onDisk))];
      reply := Done;
    }

    /** The directory is removed first, as far as that works; `mounted` makes the row's DELETE throw. */
    method DeleteWorkspace(ws: nat, cleaned: bool, mounted: bool) returns (reply: Reply)
      requires ws < |workspaces|
      modifies this
      ensures reply == if old(workspaces)[ws].None? then NotFound else if mounted then Failed else Done
      ensures Value() == if reply.NotFound? then old(Value())
                         else Step(old(Value()), P.DeleteWorkspace(ws, cleaned, mounted))
    {
      if workspaces[ws].None? {
        return NotFound;
      }
      var row := workspaces[ws].value;
      if cleaned {
        workspaces := workspaces[ws := Some(row.(actual := 0))];
      }
      if mounted {
        return Failed;
      }
      workspaces := workspaces[ws := None];
      reply := Done;
    }
  }
}

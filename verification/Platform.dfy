/** The platform's tables and runtime, and every step that changes them: the locked lifecycle
    sections of src/services/container.service.ts, the unlocked steps of `create`, of a restore into a new
    container and of snapshot deletion, the sweeps of src/scheduler/reaper.ts, workspaces, and what guests write.
    One locked section is one step; ContainerLock proves that sections of one container never overlap. */
module Platform {
  import opened Common
  import opened R = Runtime

  datatype Status = Creating | Running | Stopped | Error | Destroyed

  /** `hasOverlay`: overlay_path is not NULL. `lastStarted`: seconds, as CURRENT_TIMESTAMP stores it. */
  datatype Container = Container(
    user: nat, inst: string, status: Status, hasOverlay: bool, autoStopped: bool, lastStarted: nat)

  /** `taken` is a history variable: what was copied when the row was recorded. */
  datatype Snapshot = Snapshot(cid: nat, user: nat, name: string, path: Path, size: nat, taken: Content)

  datatype OverlayRow = OverlayRow(cid: nat, current: bool, size: nat)

  /** `recorded` is the stored size column, `actual` the bytes on disk. */
  datatype Workspace = Workspace(user: nat, recorded: nat, actual: nat)

  /** Where an unfinished `create` stands. */
  datatype CreatePhase = Inserted | Provisioned | ProvisionFailed

  /** Where an unfinished restore of a snapshot into a new container stands: `create` under way; the new row
      read; the instance quiesced; the overlay swapped, or not; failed, with the clean-up outstanding. */
  datatype Renewal =
    | Waiting(path: Path, size: nat)
    | RowRead(path: Path, size: nat, wasRunning: bool)
    | Quiet(path: Path, size: nat)
    | Swapped(size: nat, works: bool)
    | Cleaning

  /** A snapshot deletion that has read its row and not yet deleted it; `tried`: removePath has run. */
  datatype Deletion = Deletion(sid: nat, path: Path, tried: bool)

  /** One container's turn in a reaper sweep. */
  datatype Sweep =
    | Seen(cid: nat, stamp: nat)
    | Idle(cid: nat, stamp: nat, checkedAt: nat, idleMs: nat)
    | Released(cid: nat)

  /** Tables are sequences of rows in id order; a deleted row leaves None. `clock` is in milliseconds. */
  datatype State = State(
    containers: seq<Container>,
    snapshots: seq<Option<Snapshot>>,
    overlays: seq<Option<OverlayRow>>,
    workspaces: seq<Option<Workspace>>,
    rt: Runtime,
    creates: map<nat, CreatePhase>,
    deletes: map<nat, Deletion>,
    sweeps: map<nat, Sweep>,
    renews: map<nat, Renewal>,
    clock: nat)

  const INITIAL := State([], [], [], [], Runtime({}, map[]), map[], map[], map[], map[], 0)

  datatype Reply = Done | InvalidState | BadRequest | NotFound | QuotaExceeded | Failed

  // ---- queries ----

  /** SELECT ... WHERE container_id = ? AND name LIKE 'auto-%' ORDER BY id DESC LIMIT 1 */
  function LatestAuto(snaps: seq<Option<Snapshot>>, cid: nat): (r: Option<nat>)
    ensures match r
            case Some(i) =>
              && i < |snaps| && snaps[i].Some? && snaps[i].value.cid == cid && AutoName(snaps[i].value.name)
              && forall j :: i < j < |snaps| && snaps[j].Some? && snaps[j].value.cid == cid
                             ==> !AutoName(snaps[j].value.name)
            case None =>
              forall j :: 0 <= j < |snaps| && snaps[j].Some? && snaps[j].value.cid == cid
                          ==> !AutoName(snaps[j].value.name)
  {
    if snaps == [] then None
    else
      var n := |snaps| - 1;
      if snaps[n].Some? && snaps[n].value.cid == cid && AutoName(snaps[n].value.name) then Some(n)
      else LatestAuto(snaps[..n], cid)
  }

  /** SQLite's LIKE ignores ASCII case. */
  predicate AutoName(name: string) {
    |name| >= 5
    && name[0] in {'a', 'A'} && name[1] in {'u', 'U'} && name[2] in {'t', 'T'} && name[3] in {'o', 'O'}
    && name[4] == '-'
  }

  function CountSnapshots(snaps: seq<Option<Snapshot>>, cid: nat): nat {
    if snaps == [] then 0
    else (if snaps[0].Some? && snaps[0].value.cid == cid then 1 else 0) + CountSnapshots(snaps[1..], cid)
  }

  predicate NameTaken(snaps: seq<Option<Snapshot>>, cid: nat, name: string) {
    exists i :: 0 <= i < |snaps| && snaps[i].Some? && snaps[i].value.cid == cid && snaps[i].value.name == name
  }

  /** The table's UNIQUE (user_id, name) constraint would refuse the row. */
  predicate UserNameTaken(snaps: seq<Option<Snapshot>>, user: nat, name: string) {
    exists i :: 0 <= i < |snaps| && snaps[i].Some? && snaps[i].value.user == user && snaps[i].value.name == name
  }

  predicate IsCurrent(row: Option<OverlayRow>, cid: nat) {
    row.Some? && row.value.cid == cid && row.value.current
  }

  /** The container's current overlay row: WHERE is_current = 1 ORDER BY id DESC LIMIT 1 */
  function CurrentOverlay(rows: seq<Option<OverlayRow>>, cid: nat): (r: Option<nat>)
    ensures match r
            case Some(k) =>
              && k < |rows| && IsCurrent(rows[k], cid)
              && forall i :: k < i < |rows| ==> !IsCurrent(rows[i], cid)
            case None => forall i :: 0 <= i < |rows| ==> !IsCurrent(rows[i], cid)
  {
    if rows == [] then None
    else
      var n := |rows| - 1;
      if rows[n].Some? && rows[n].value.cid == cid && rows[n].value.current then Some(n)
      else CurrentOverlay(rows[..n], cid)
  }

  function DropOverlays(rows: seq<Option<OverlayRow>>, cid: nat): seq<Option<OverlayRow>> {
    seq(|rows|, i requires 0 <= i < |rows| => if rows[i].Some? && rows[i].value.cid == cid then None else rows[i])
  }

  function DemoteOverlays(rows: seq<Option<OverlayRow>>, cid: nat): seq<Option<OverlayRow>> {
    seq(|rows|, i requires 0 <= i < |rows| =>
      if rows[i].Some? && rows[i].value.cid == cid then Some(rows[i].value.(current := false)) else rows[i])
  }

  // ---- recorded disk usage (assertAggregateDisk) ----

  function OverlayBytes(rows: seq<Option<OverlayRow>>, containers: seq<Container>, user: nat): nat {
    if rows == [] then 0
    else
      OverlayBytes(rows[..|rows| - 1], containers, user)
      + (match rows[|rows| - 1]
         case Some(o) =>
           if o.cid < |containers| && containers[o.cid].user == user && !containers[o.cid].status.Destroyed?
           then o.size else 0
         case None => 0)
  }

  function SnapshotBytes(snaps: seq<Option<Snapshot>>, user: nat): nat {
    if snaps == [] then 0
    else
      SnapshotBytes(snaps[..|snaps| - 1], user)
      + (match snaps[|snaps| - 1]
         case Some(x) => if x.user == user then x.size else 0
         case None => 0)
  }

  function WorkspaceBytes(rows: seq<Option<Workspace>>, user: nat): nat {
    if rows == [] then 0
    else
      WorkspaceBytes(rows[..|rows| - 1], user)
      + (match rows[|rows| - 1]
         case Some(x) => if x.user == user then x.recorded else 0
         case None => 0)
  }

  function Usage(s: State, user: nat): nat {
    OverlayBytes(s.overlays, s.containers, user) + SnapshotBytes(s.snapshots, user) + WorkspaceBytes(s.workspaces, user)
  }

  // ---- the sections ----

  function SetRow(s: State, c: nat, row: Container): State
    requires c < |s.containers|
  {
    s.(containers := s.containers[c := row])
  }

  /** The plain branch of `start`: bring the instance up on its existing overlay. */
  function PlainStart(s: State, c: nat, o: CreateOutcome): (State, Reply)
    requires c < |s.containers|
  {
    var row := s.containers[c];
    var t := s.(rt := Create(s.rt, row.inst, o));
    if o.Started? then
      (SetRow(t, c, row.(status := Running, hasOverlay := true, lastStarted := s.clock / 1000)), Done)
    else (t, Failed)
  }

  /** `_restoreFromSnapshot`. `image`: the image row still exists. */
  function RestoreFrom(s: State, c: nat, snap: Snapshot, image: bool, stop: StopOutcome, o: RestoreOutcome)
    : (State, Reply)
    requires c < |s.containers|
  {
    var row := s.containers[c];
    if !image then (s, NotFound)
    else
      var r1 := if row.status.Running? then Stop(s.rt, row.inst, stop) else s.rt;
      var t := s.(rt := Restore(r1, row.inst, snap.path, o));
      if RestoreWorks(r1, snap.path, o) then
        (SetRow(t, c, row.(status := Running, hasOverlay := true, lastStarted := s.clock / 1000))
          .(overlays := DemoteOverlays(s.overlays, c) + [Some(OverlayRow(c, true, snap.size))]), Done)
      else (SetRow(t, c, row.(status := Stopped)), Failed)
  }

  function ClearMarker(s: State, c: nat): State
    requires c < |s.containers|
  {
    SetRow(s, c, s.containers[c].(autoStopped := false))
  }

  /** The branch of `start` that resumes a container its reaper release marked. */
  function ResumeFrom(s: State, c: nat, snap: Snapshot, image: bool, ro: RestoreOutcome): (State, Reply)
    requires c < |s.containers|
  {
    var (t, reply) := RestoreFrom(s, c, snap, image, StopDone, ro);
    if reply.Done? then (ClearMarker(t, c), Done) else (t, reply)
  }

  function StartSection(s: State, c: nat, image: bool, o: CreateOutcome, ro: RestoreOutcome): (State, Reply)
    requires c < |s.containers|
  {
    var row := s.containers[c];
    if row.status.Running? then (s, Done)
    else if row.status.Destroyed? then (s, InvalidState)
    else if row.autoStopped && row.status.Stopped? then
      match LatestAuto(s.snapshots, c)
      case Some(sid) => ResumeFrom(s, c, s.snapshots[sid].value, image, ro)
      case None => if image then PlainStart(ClearMarker(s, c), c, o) else (ClearMarker(s, c), NotFound)
    else if image then PlainStart(s, c, o)
    else (s, NotFound)
  }

  function StopSection(s: State, c: nat, o: StopOutcome): (State, Reply)
    requires c < |s.containers|
  {
    var row := s.containers[c];
    if !row.status.Running? then (s, InvalidState)
    else if o.StopThrew? then (s, Failed)
    else (SetRow(s.(rt := Stop(s.rt, row.inst, o)), c, row.(status := Stopped)), Done)
  }

  function DestroySection(s: State, c: nat, stop: StopOutcome, o: DestroyOutcome): (State, Reply)
    requires c < |s.containers|
  {
    var row := s.containers[c];
    if row.status.Destroyed? then (s, Done)
    else
      var rt :=
        if row.status.Running? && stop.StopThrew? then s.rt
        else if row.status.Running? then Destroy(Stop(s.rt, row.inst, stop), row.inst, row.hasOverlay, o)
        else Destroy(s.rt, row.inst, row.hasOverlay, o);
      (SetRow(s.(rt := rt, overlays := DropOverlays(s.overlays, c)), c, row.(status := Destroyed)), Done)
  }

  /** What one `snapshot` call meets: quota values read, stop, copy, orphan removal, restart. */
  datatype SnapshotWorld = SnapshotWorld(
    maxSnapshots: nat, limitBytes: int, stop: StopOutcome, copy: CopyOutcome, orphanRemoved: bool,
    image: bool, restart: CreateOutcome)

  /** The checks of `snapshot` before it touches anything. */
  function SnapshotRefusal(s: State, c: nat, name: string, w: SnapshotWorld): Reply
    requires c < |s.containers|
  {
    if s.containers[c].status.Destroyed? then InvalidState
    else if CountSnapshots(s.snapshots, c) >= w.maxSnapshots then InvalidState
    else if NameTaken(s.snapshots, c, name) then BadRequest
    else Done
  }

  /** Copy, quota check, row insert and overlay bookkeeping; `s` has the instance quiesced. */
  function CopyAndRecord(s: State, c: nat, name: string, w: SnapshotWorld): (State, Reply)
    requires c < |s.containers|
  {
    var row := s.containers[c];
    var p := SnapshotAt(row.inst, name);
    var t := s.(rt := Copy(s.rt, row.inst, name, row.hasOverlay, w.copy));
    if !CopyWorks(s.rt, row.inst, row.hasOverlay, w.copy) then (t, Failed)
    else if Usage(s, row.user) + w.copy.size > w.limitBytes then
      (t.(rt := RemovePath(t.rt, p, w.orphanRemoved)), QuotaExceeded)
    else if UserNameTaken(s.snapshots, row.user, name) then
      (t.(rt := RemovePath(t.rt, p, w.orphanRemoved)), Failed)
    else
      var snap := Snapshot(c, row.user, name, p, w.copy.size, s.rt.files[OverlayAt(row.inst)]);
      var cur := CurrentOverlay(s.overlays, c);
      (t.(snapshots := s.snapshots + [Some(snap)],
          overlays := if cur.Some? then
                        s.overlays[cur.value := Some(s.overlays[cur.value].value.(size := w.copy.size))]
                      else s.overlays), Done)
  }

  /** The `finally` of `snapshot`: bring the instance back up, or mark the row stopped. */
  function RestartAfterCopy(s: State, c: nat, w: SnapshotWorld): State
    requires c < |s.containers|
  {
    var row := s.containers[c];
    if w.image then
      var t := s.(rt := Create(s.rt, row.inst, w.restart));
      if w.restart.Started? then t else SetRow(t, c, row.(status := Stopped))
    else SetRow(s, c, row.(status := Stopped))
  }

  function SnapshotSection(s: State, c: nat, name: string, restartAfter: bool, w: SnapshotWorld): (State, Reply)
    requires c < |s.containers|
  {
    var row := s.containers[c];
    var refusal := SnapshotRefusal(s, c, name, w);
    if !refusal.Done? then (s, refusal)
    else
      var wasRunning := row.status.Running?;
      var quiet := if wasRunning then s.(rt := Stop(s.rt, row.inst, w.stop)) else s;
      var (t, reply) := CopyAndRecord(quiet, c, name, w);
      (if wasRunning && restartAfter then RestartAfterCopy(t, c, w) else t, reply)
  }

  function RestoreSection(s: State, c: nat, sid: nat, image: bool, stop: StopOutcome, o: RestoreOutcome): (State, Reply)
    requires c < |s.containers|
  {
    if sid < |s.snapshots| && s.snapshots[sid].Some? && s.snapshots[sid].value.cid == c then
      RestoreFrom(s, c, s.snapshots[sid].value, image, stop, o)
    else (s, NotFound)
  }

  /** The reaper's locked section: re-read the row, stop it only if it is the run the sweep saw. */
  function ReleaseSection(s: State, c: nat, stamp: nat, o: StopOutcome): (State, bool)
    requires c < |s.containers|
  {
    var row := s.containers[c];
    if !row.status.Running? || row.lastStarted != stamp || o.StopThrew? then (s, false)
    else (SetRow(s.(rt := Stop(s.rt, row.inst, o)), c, row.(status := Stopped, autoStopped := true)), true)
  }

  // ---- events ----

  /** Renew*: restoreSnapshotToNewContainer. Its reading of the snapshot row is one step with the INSERT, which
      depends on nothing another request can change in between. SweepDone: the sweep takes no snapshot.

      `*Call` are locked sections of client calls. Drift: bytes under a workspace change without its row,
      as a container does through its output bind; Refresh recomputes the row from disk. `cleaned`: the
      directory could be removed. `mounted`: a mount row refers to the workspace, so its DELETE throws. */
  datatype Event =
    | CreateInsert(user: nat, inst: string)
    | CreateExec(c: nat, made: CreateOutcome)
    | CreateMark(c: nat)
    | StartCall(c: nat, image: bool, made: CreateOutcome, restored: RestoreOutcome)
    | StopCall(c: nat, stop: StopOutcome)
    | DestroyCall(c: nat, stop: StopOutcome, gone: DestroyOutcome)
    | SnapshotCall(c: nat, name: string, world: SnapshotWorld)
    | RestoreCall(c: nat, sid: nat, image: bool, stop: StopOutcome, restored: RestoreOutcome)
    | DeleteRead(d: nat, sid: nat)
    | DeleteFile(d: nat, ok: bool)
    | DeleteRow(d: nat)
    | SweepSee(w: nat, c: nat)
    | SweepCheck(w: nat, idleMs: nat, session: nat)
    | SweepRelease(w: nat, stop: StopOutcome)
    | SweepSnapshot(w: nat, name: string, world: SnapshotWorld)
    | SweepDone(w: nat)
    | RenewInsert(sid: nat, user: nat, inst: string)
    | RenewRead(c: nat, image: bool)
    | RenewStop(c: nat, stop: StopOutcome)
    | RenewRestore(c: nat, restored: RestoreOutcome)
    | RenewMark(c: nat)
    | RenewCleanup(c: nat, stop: StopOutcome, gone: DestroyOutcome)
    | GuestWrite(inst: string, content: Content)
    | NewWorkspace(user: nat)
    | Drift(ws: nat, actual: nat)
    | Refresh(ws: nat)
    | DeleteWorkspace(ws: nat, cleaned: bool, mounted: bool)
    | Upload(ws: nat, bytes: nat, replaced: nat, limitBytes: int)
    | Tick(ms: nat)

  predicate FreshInstance(s: State, inst: string) {
    && InstanceName(inst) && inst !in s.rt.alive
    && (forall c :: 0 <= c < |s.containers| ==> s.containers[c].inst != inst)
  }

  predicate Enabled(s: State, e: Event) {
    match e
    case CreateInsert(_, inst) => FreshInstance(s, inst)
    case CreateExec(c, _) => c < |s.containers| && c in s.creates && s.creates[c].Inserted?
    case CreateMark(c) => c < |s.containers| && c in s.creates && !s.creates[c].Inserted?
    case StartCall(c, _, _, _) => c < |s.containers|
    case StopCall(c, _) => c < |s.containers|
    case DestroyCall(c, _, _) => c < |s.containers|
    case SnapshotCall(c, _, _) => c < |s.containers|
    case RestoreCall(c, _, _, _, _) => c < |s.containers|
    case DeleteRead(d, sid) => d !in s.deletes && sid < |s.snapshots| && s.snapshots[sid].Some?
    case DeleteFile(d, _) => d in s.deletes && !s.deletes[d].tried
    case DeleteRow(d) => d in s.deletes && s.deletes[d].tried && s.deletes[d].sid < |s.snapshots|
    case SweepSee(w, c) => w !in s.sweeps && c < |s.containers| && s.containers[c].status.Running?
    case SweepCheck(w, _, _) => w in s.sweeps && s.sweeps[w].Seen?
    case SweepRelease(w, _) => w in s.sweeps && s.sweeps[w].Idle? && s.sweeps[w].cid < |s.containers|
    case SweepSnapshot(w, _, _) => w in s.sweeps && s.sweeps[w].Released? && s.sweeps[w].cid < |s.containers|
    case SweepDone(w) => w in s.sweeps && s.sweeps[w].Released?
    case RenewInsert(sid, _, inst) => FreshInstance(s, inst) && sid < |s.snapshots| && s.snapshots[sid].Some?
    case RenewRead(c, _) => c < |s.containers| && c in s.renews && s.renews[c].Waiting? && c !in s.creates
    case RenewStop(c, _) => c < |s.containers| && c in s.renews && s.renews[c].RowRead?
    case RenewRestore(c, _) => c < |s.containers| && c in s.renews && s.renews[c].Quiet?
    case RenewMark(c) => c < |s.containers| && c in s.renews && s.renews[c].Swapped?
    case RenewCleanup(c, _, _) => c < |s.containers| && c in s.renews && s.renews[c].Cleaning?
    case GuestWrite(inst, _) => inst in s.rt.alive
    case NewWorkspace(_) => true
    case Drift(ws, _) => ws < |s.workspaces| && s.workspaces[ws].Some?
    case Refresh(ws) => ws < |s.workspaces|
    case DeleteWorkspace(ws, _, _) => ws < |s.workspaces| && s.workspaces[ws].Some?
    case Upload(ws, _, replaced, _) => ws < |s.workspaces| && Replaceable(s.workspaces[ws], replaced)
    case Tick(_) => true
  }

  function MarkCreated(s: State, c: nat): State
    requires c < |s.containers| && c in s.creates
  {
    var t := s.(creates := s.creates - {c});
    var row := s.containers[c];
    if s.creates[c].Provisioned? then
      SetRow(t, c, row.(status := Running, hasOverlay := true, lastStarted := s.clock / 1000))
        .(overlays := s.overlays + [Some(OverlayRow(c, true, 0))])
    else SetRow(t.(renews := s.renews - {c}), c, row.(status := Error))
  }

  /** The INSERT of a new container's row. */
  function InsertRow(s: State, user: nat, inst: string): State {
    s.(containers := s.containers + [Container(user, inst, Creating, false, false, 0)],
       creates := s.creates[|s.containers| := Inserted])
  }

  /** What the unlocked restore writes after the executor returned, whatever the row says by now. */
  function MarkRenewed(s: State, c: nat): State
    requires c < |s.containers| && c in s.renews && s.renews[c].Swapped?
  {
    var t := s.(renews := s.renews - {c});
    var row := s.containers[c];
    if s.renews[c].works then
      SetRow(t, c, row.(status := Running, hasOverlay := true, lastStarted := s.clock / 1000))
        .(overlays := DemoteOverlays(s.overlays, c) + [Some(OverlayRow(c, true, s.renews[c].size))])
    else SetRow(s.(renews := s.renews[c := Cleaning]), c, row.(status := Stopped))
  }

  /** An upload replaces a file of at most the bytes on disk. */
  predicate Replaceable(row: Option<Workspace>, replaced: nat) {
    row.Some? ==> replaced <= row.value.actual
  }

  /** uploadFile: ownership and quota check, write, refreshStats. */
  function UploadSection(s: State, ws: nat, bytes: nat, replaced: nat, limitBytes: int): (State, Reply)
    requires ws < |s.workspaces| && Replaceable(s.workspaces[ws], replaced)
  {
    match s.workspaces[ws]
    case None => (s, NotFound)
    case Some(row) =>
      if Usage(s, row.user) + bytes > limitBytes then (s, QuotaExceeded)
      else
        var actual := row.actual - replaced + bytes;
        (s.(workspaces := s.workspaces[ws := Some(row.(actual := actual, recorded := actual))]), Done)
  }

  /** The row after its stats are recomputed; the UPDATE of a deleted row changes nothing. */
  function Refreshed(row: Option<Workspace>): Option<Workspace> {
    match row
    case None => None
    case Some(x) => Some(x.(recorded := x.actual))
  }

  /** The directory goes first, best effort; a refused DELETE leaves the row with its recorded size. */
  function AfterDelete(row: Workspace, cleaned: bool, mounted: bool): Option<Workspace> {
    if !mounted then None else Some(row.(actual := if cleaned then 0 else row.actual))
  }

  function SweepCheckStep(s: State, w: nat, idleMs: nat, session: nat): State
    requires w in s.sweeps && s.sweeps[w].Seen?
  {
    var seen := s.sweeps[w];
    var last := if session > seen.stamp * 1000 then session else seen.stamp * 1000;
    if s.clock - last < idleMs then s.(sweeps := s.sweeps - {w})
    else s.(sweeps := s.sweeps[w := Idle(seen.cid, seen.stamp, s.clock, idleMs)])
  }

  function Step(s: State, e: Event): State
    requires Enabled(s, e)
  {
    match e
    case CreateInsert(user, inst) => InsertRow(s, user, inst)
    case CreateExec(c, o) =>
      s.(rt := Create(s.rt, s.containers[c].inst, o),
         creates := s.creates[c := if o.Started? then Provisioned else ProvisionFailed])
    case CreateMark(c) => MarkCreated(s, c)
    case StartCall(c, image, o, ro) => StartSection(s, c, image, o, ro).0
    case StopCall(c, o) => StopSection(s, c, o).0
    case DestroyCall(c, stop, o) => DestroySection(s, c, stop, o).0
    case SnapshotCall(c, name, w) => SnapshotSection(s, c, name, true, w).0
    case RestoreCall(c, sid, image, stop, o) => RestoreSection(s, c, sid, image, stop, o).0
    case DeleteRead(d, sid) => s.(deletes := s.deletes[d := Deletion(sid, s.snapshots[sid].value.path, false)])
    case DeleteFile(d, ok) =>
      s.(rt := RemovePath(s.rt, s.deletes[d].path, ok), deletes := s.deletes[d := s.deletes[d].(tried := true)])
    case DeleteRow(d) =>
      s.(snapshots := s.snapshots[s.deletes[d].sid := None], deletes := s.deletes - {d})
    case SweepSee(w, c) => s.(sweeps := s.sweeps[w := Seen(c, s.containers[c].lastStarted)])
    case SweepCheck(w, idleMs, session) => SweepCheckStep(s, w, idleMs, session)
    case SweepRelease(w, o) =>
      var c := s.sweeps[w].cid;
      var (t, released) := ReleaseSection(s, c, s.sweeps[w].stamp, o);
      t.(sweeps := if released then s.sweeps[w := Released(c)] else s.sweeps - {w})
    case SweepSnapshot(w, name, world) =>
      SnapshotSection(s, s.sweeps[w].cid, name, false, world).0.(sweeps := s.sweeps - {w})
    case SweepDone(w) => s.(sweeps := s.sweeps - {w})
    case RenewInsert(sid, user, inst) =>
      var snap := s.snapshots[sid].value;
      InsertRow(s, user, inst).(renews := s.renews[|s.containers| := Waiting(snap.path, snap.size)])
    case RenewRead(c, image) =>
      var r := s.renews[c];
      s.(renews := s.renews[c := if image then RowRead(r.path, r.size, s.containers[c].status.Running?) else Cleaning])
    case RenewStop(c, stop) =>
      var r := s.renews[c];
      s.(rt := if r.wasRunning then Stop(s.rt, s.containers[c].inst, stop) else s.rt,
         renews := s.renews[c := Quiet(r.path, r.size)])
    case RenewRestore(c, o) =>
      var r := s.renews[c];
      s.(rt := Restore(s.rt, s.containers[c].inst, r.path, o),
         renews := s.renews[c := Swapped(r.size, RestoreWorks(s.rt, r.path, o))])
    case RenewMark(c) => MarkRenewed(s, c)
    case RenewCleanup(c, stop, o) => DestroySection(s, c, stop, o).0.(renews := s.renews - {c})
    case GuestWrite(inst, content) => s.(rt := s.rt.(files := s.rt.files[OverlayAt(inst) := content]))
    case NewWorkspace(user) => s.(workspaces := s.workspaces + [Some(Workspace(user, 0, 0))])
    case Drift(ws, actual) =>
      s.(workspaces := s.workspaces[ws := Some(s.workspaces[ws].value.(actual := actual))])
    case Refresh(ws) => s.(workspaces := s.workspaces[ws := Refreshed(s.workspaces[ws])])
    case DeleteWorkspace(ws, cleaned, mounted) =>
      s.(workspaces := s.workspaces[ws := AfterDelete(s.workspaces[ws].value, cleaned, mounted)])
    case Upload(ws, bytes, replaced, limitBytes) => UploadSection(s, ws, bytes, replaced, limitBytes).0
    case Tick(ms) => s.(clock := s.clock + ms)
  }

  ghost predicate Runs(s: State, es: seq<Event>)
    decreases |es|
  {
    es == [] || (Enabled(s, es[0]) && Runs(Step(s, es[0]), es[1..]))
  }

  ghost function After(s: State, es: seq<Event>): State
    requires Runs(s, es)
    decreases |es|
  {
    if es == [] then s else After(Step(s, es[0]), es[1..])
  }

  ghost predicate Reachable(s: State) {
    exists es :: Runs(INITIAL, es) && After(INITIAL, es) == s
  }

  lemma {:induction false} AfterAppend(s: State, es: seq<Event>, e: Event)
    requires Runs(s, es) && Enabled(After(s, es), e)
    ensures Runs(s, es + [e]) && After(s, es + [e]) == Step(After(s, es), e)
    decreases |es|
  {
    hide Step, Enabled;
    if es == [] {
      assert es + [e] == [e] && [e][1..] == [];
      assert Runs(Step(s, e), []) && After(Step(s, e), []) == Step(s, e);
    } else {
      AfterAppend(Step(s, es[0]), es[1..], e);
      assert (es + [e])[1..] == es[1..] + [e];
    }
  }
}

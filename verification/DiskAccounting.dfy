/** Recorded disk usage (assertAggregateDisk, src/services/quota.service.ts:250-269): every step changes it
    by a stated amount, so over any run it is conserved, and the checks bound what they admit. */
module DiskAccounting {
  import opened Common
  import opened R = Runtime
  import opened Platform
  import opened Lifecycle

  // ---- sums over the tables ----

  predicate Counted(containers: seq<Container>, c: nat, user: nat) {
    c < |containers| && containers[c].user == user && !containers[c].status.Destroyed?
  }

  function RowBytes(row: Option<OverlayRow>, containers: seq<Container>, user: nat): nat {
    if row.Some? && Counted(containers, row.value.cid, user) then row.value.size else 0
  }

  /** The recorded bytes of one container's overlay rows. */
  function ContainerBytes(rows: seq<Option<OverlayRow>>, c: nat): nat {
    if rows == [] then 0
    else
      ContainerBytes(rows[..|rows| - 1], c)
      + (if rows[|rows| - 1].Some? && rows[|rows| - 1].value.cid == c then rows[|rows| - 1].value.size else 0)
  }

  lemma OverlayAppend(rows: seq<Option<OverlayRow>>, row: Option<OverlayRow>, containers: seq<Container>, user: nat)
    ensures OverlayBytes(rows + [row], containers, user)
            == OverlayBytes(rows, containers, user) + RowBytes(row, containers, user)
  {
    assert (rows + [row])[..|rows|] == rows;
  }

  /** Rows count by size, owner and status only. */
  lemma {:induction false} OverlayFrame(
      a: seq<Option<OverlayRow>>, cs: seq<Container>, b: seq<Option<OverlayRow>>, ds: seq<Container>, user: nat)
    requires |a| == |b|
    requires forall i :: 0 <= i < |a| ==> RowBytes(a[i], cs, user) == RowBytes(b[i], ds, user)
    ensures OverlayBytes(a, cs, user) == OverlayBytes(b, ds, user)
  {
    if a != [] {
      var n := |a| - 1;
      OverlayFrame(a[..n], cs, b[..n], ds, user);
      assert RowBytes(a[n], cs, user) == RowBytes(b[n], ds, user);
    }
  }

  lemma {:induction false} OverlayUpdate(
      rows: seq<Option<OverlayRow>>, i: nat, row: Option<OverlayRow>, cs: seq<Container>, user: nat)
    requires i < |rows|
    ensures OverlayBytes(rows[i := row], cs, user)
            == OverlayBytes(rows, cs, user) - RowBytes(rows[i], cs, user) + RowBytes(row, cs, user)
  {
    var n := |rows| - 1;
    if i == n {
      assert rows[i := row][..n] == rows[..n];
    } else {
      assert rows[i := row][..n] == rows[..n][i := row];
      OverlayUpdate(rows[..n], i, row, cs, user);
    }
  }

  /** Dropping a container's rows as its status becomes destroyed takes exactly its bytes off its owner. */
  lemma {:induction false} OverlayDrop(
      rows: seq<Option<OverlayRow>>, c: nat, cs: seq<Container>, ds: seq<Container>, user: nat)
    requires c < |cs| && !cs[c].status.Destroyed? && ds == cs[c := cs[c].(status := Destroyed)]
    ensures OverlayBytes(DropOverlays(rows, c), ds, user)
            == OverlayBytes(rows, cs, user) - (if cs[c].user == user then ContainerBytes(rows, c) else 0)
  {
    if rows != [] {
      var n := |rows| - 1;
      OverlayDrop(rows[..n], c, cs, ds, user);
      assert DropOverlays(rows, c)[..n] == DropOverlays(rows[..n], c);
    }
  }

  lemma {:induction false} SnapshotUpdate(snaps: seq<Option<Snapshot>>, i: nat, user: nat)
    requires i < |snaps|
    ensures SnapshotBytes(snaps[i := None], user)
            == SnapshotBytes(snaps, user)
               - (if snaps[i].Some? && snaps[i].value.user == user then snaps[i].value.size else 0)
  {
    var n := |snaps| - 1;
    if i == n {
      assert snaps[i := None][..n] == snaps[..n];
    } else {
      assert snaps[i := None][..n] == snaps[..n][i := None];
      SnapshotUpdate(snaps[..n], i, user);
    }
  }

  lemma SnapshotAppend(snaps: seq<Option<Snapshot>>, x: Snapshot, user: nat)
    ensures SnapshotBytes(snaps + [Some(x)], user) == SnapshotBytes(snaps, user) + if x.user == user then x.size else 0
  {
    assert (snaps + [Some(x)])[..|snaps|] == snaps;
  }

  /** What a workspace row counts for its owner. */
  function WorkspaceRowBytes(row: Option<Workspace>, user: nat): nat {
    if row.Some? && row.value.user == user then row.value.recorded else 0
  }

  lemma {:induction false} WorkspaceUpdate(rows: seq<Option<Workspace>>, i: nat, row: Option<Workspace>, user: nat)
    requires i < |rows|
    ensures WorkspaceBytes(rows[i := row], user)
            == WorkspaceBytes(rows, user) - WorkspaceRowBytes(rows[i], user) + WorkspaceRowBytes(row, user)
  {
    var n := |rows| - 1;
    if i == n {
      assert rows[i := row][..n] == rows[..n];
    } else {
      assert rows[i := row][..n] == rows[..n][i := row];
      WorkspaceUpdate(rows[..n], i, row, user);
    }
  }

  // ---- the stated change of every step ----

  /** Overlay rows belong to containers that exist and are not destroyed. */
  ghost predicate OverlayRowsOk(s: State) {
    forall i :: 0 <= i < |s.overlays| && s.overlays[i].Some? ==>
      s.overlays[i].value.cid < |s.containers| && !s.containers[s.overlays[i].value.cid].status.Destroyed?
  }

  /** The size on the container's current overlay row, before the step. */
  function CurrentSize(s: State, c: nat): nat {
    match CurrentOverlay(s.overlays, c)
    case Some(i) => s.overlays[i].value.size
    case None => 0
  }

  /** A recorded snapshot adds its size, and its size again less the overlay row's old one when a row exists. */
  function SnapshotChange(s: State, c: nat, name: string, restartAfter: bool, w: SnapshotWorld): int
    requires c < |s.containers|
  {
    if SnapshotSection(s, c, name, restartAfter, w).1.Done? then
      w.copy.size + if CurrentOverlay(s.overlays, c).Some? then w.copy.size - CurrentSize(s, c) else 0
    else 0
  }

  function DestroyedBytes(s: State, c: nat): int
    requires c < |s.containers|
  {
    if s.containers[c].status.Destroyed? then 0 else 0 - ContainerBytes(s.overlays, c)
  }

  /** How a section changes the recorded usage of its container's owner. */
  function SectionChange(s: State, e: Event): int
    requires Enabled(s, e) && IsSection(e)
  {
    match e
    case StartCall(c, image, o, ro) =>
      var row := s.containers[c];
      if row.autoStopped && row.status.Stopped? && LatestAuto(s.snapshots, c).Some?
         && StartSection(s, c, image, o, ro).1.Done?
      then s.snapshots[LatestAuto(s.snapshots, c).value].value.size
      else 0
    case DestroyCall(c, _, _) => DestroyedBytes(s, c)
    case RenewCleanup(c, _, _) => DestroyedBytes(s, c)
    case RestoreCall(c, sid, image, stop, o) =>
      if RestoreSection(s, c, sid, image, stop, o).1.Done? then s.snapshots[sid].value.size else 0
    case SnapshotCall(c, name, w) => SnapshotChange(s, c, name, true, w)
    case SweepSnapshot(w, name, world) => SnapshotChange(s, s.sweeps[w].cid, name, false, world)
    case StopCall(_, _) => 0
    case SweepRelease(_, _) => 0
  }

  function Change(s: State, e: Event, user: nat): int
    requires Enabled(s, e)
  {
    if IsSection(e) then (if s.containers[Target(s, e)].user == user then SectionChange(s, e) else 0)
    else match e
      case DeleteRow(d) =>
        var x := s.snapshots[s.deletes[d].sid];
        if x.Some? && x.value.user == user then 0 - x.value.size else 0
      case Refresh(ws) =>
        var x := s.workspaces[ws];
        if x.Some? && x.value.user == user then x.value.actual - x.value.recorded else 0
      case DeleteWorkspace(ws, _, mounted) =>
        if !mounted && s.workspaces[ws].value.user == user then 0 - s.workspaces[ws].value.recorded else 0
      case Upload(ws, bytes, replaced, limitBytes) =>
        var x := s.workspaces[ws];
        if x.Some? && x.value.user == user && Usage(s, user) + bytes <= limitBytes then
          x.value.actual - replaced + bytes - x.value.recorded
        else 0
      case RenewMark(c) =>
        if s.renews[c].works && s.containers[c].user == user then s.renews[c].size else 0
      case _ => 0
  }

  // ---- section by section ----

  lemma OverlaysSame(s: State, t: State, user: nat)
    requires OverlayRowsOk(s) && t.overlays == s.overlays
    requires |t.containers| == |s.containers|
    requires forall c :: 0 <= c < |s.containers| ==>
      t.containers[c].user == s.containers[c].user
      && (!s.containers[c].status.Destroyed? ==> !t.containers[c].status.Destroyed?)
    ensures OverlayRowsOk(t)
    ensures OverlayBytes(t.overlays, t.containers, user) == OverlayBytes(s.overlays, s.containers, user)
  {
    OverlayFrame(s.overlays, s.containers, t.overlays, t.containers, user);
  }

  lemma DemoteKeepsBytes(rows: seq<Option<OverlayRow>>, c: nat, cs: seq<Container>, user: nat)
    ensures OverlayBytes(DemoteOverlays(rows, c), cs, user) == OverlayBytes(rows, cs, user)
  {
    OverlayFrame(DemoteOverlays(rows, c), cs, rows, cs, user);
  }

  /** The overlay rows after a restore: old ones demoted, a new current one of the snapshot's size. */
  lemma RestoredRows(s: State, t: State, c: nat, size: nat, user: nat)
    requires c < |s.containers| && OverlayRowsOk(s)
    requires t.overlays == DemoteOverlays(s.overlays, c) + [Some(OverlayRow(c, true, size))]
    requires |t.containers| == |s.containers| && !t.containers[c].status.Destroyed?
    requires forall d :: 0 <= d < |s.containers| ==>
      t.containers[d].user == s.containers[d].user && (d != c ==> t.containers[d].status == s.containers[d].status)
    ensures OverlayRowsOk(t)
    ensures OverlayBytes(t.overlays, t.containers, user)
            == OverlayBytes(s.overlays, s.containers, user) + if s.containers[c].user == user then size else 0
  {
    var low := DemoteOverlays(s.overlays, c);
    OverlaysSame(s, t.(overlays := s.overlays), user);
    DemoteKeepsBytes(s.overlays, c, t.containers, user);
    OverlayAppend(low, Some(OverlayRow(c, true, size)), t.containers, user);
    forall i | 0 <= i < |t.overlays| && t.overlays[i].Some?
      ensures t.overlays[i].value.cid < |t.containers| && !t.containers[t.overlays[i].value.cid].status.Destroyed?
    {
      if i < |s.overlays| {
        assert t.overlays[i] == low[i] && s.overlays[i].Some? && low[i].value.cid == s.overlays[i].value.cid;
      }
    }
  }

  lemma RestoreChange(s: State, c: nat, snap: Snapshot, image: bool, stop: StopOutcome, o: RestoreOutcome, user: nat)
    requires c < |s.containers| && OverlayRowsOk(s)
    ensures var (t, reply) := RestoreFrom(s, c, snap, image, stop, o);
      && OverlayRowsOk(t)
      && Usage(t, user) == Usage(s, user) + if reply.Done? && s.containers[c].user == user then snap.size else 0
  {
    var (t, reply) := RestoreFrom(s, c, snap, image, stop, o);
    if reply.Done? {
      RestoredRows(s, t, c, snap.size, user);
    } else {
      OverlaysSame(s, t, user);
    }
  }

  lemma ResumeChange(s: State, c: nat, snap: Snapshot, image: bool, ro: RestoreOutcome, user: nat)
    requires c < |s.containers| && OverlayRowsOk(s)
    ensures var (t, reply) := ResumeFrom(s, c, snap, image, ro);
      && OverlayRowsOk(t)
      && Usage(t, user) == Usage(s, user) + if reply.Done? && s.containers[c].user == user then snap.size else 0
  {
    RestoreChange(s, c, snap, image, StopDone, ro, user);
    OverlaysSame(RestoreFrom(s, c, snap, image, StopDone, ro).0, ResumeFrom(s, c, snap, image, ro).0, user);
  }

  lemma PlainStartKeepsUsage(s: State, c: nat, o: CreateOutcome, user: nat)
    requires c < |s.containers| && OverlayRowsOk(s) && !s.containers[c].status.Destroyed?
    ensures OverlayRowsOk(PlainStart(s, c, o).0) && Usage(PlainStart(s, c, o).0, user) == Usage(s, user)
    ensures OverlayRowsOk(ClearMarker(s, c)) && Usage(ClearMarker(s, c), user) == Usage(s, user)
  {
    OverlaysSame(s, PlainStart(s, c, o).0, user);
    OverlaysSame(s, ClearMarker(s, c), user);
  }

  lemma StartChange(s: State, c: nat, image: bool, o: CreateOutcome, ro: RestoreOutcome, user: nat)
    requires c < |s.containers| && OverlayRowsOk(s)
    ensures var t := StartSection(s, c, image, o, ro).0;
      && OverlayRowsOk(t)
      && Usage(t, user)
         == Usage(s, user) + if s.containers[c].user == user then SectionChange(s, StartCall(c, image, o, ro)) else 0
  {
    hide Usage, OverlayRowsOk, LatestAuto, PlainStart, RestoreFrom, Create, Restore;
    var row := s.containers[c];
    if row.autoStopped && row.status.Stopped? && LatestAuto(s.snapshots, c).Some? {
      ResumeChange(s, c, s.snapshots[LatestAuto(s.snapshots, c).value].value, image, ro, user);
    } else if !row.status.Destroyed? {
      PlainStartKeepsUsage(s, c, o, user);
      PlainStartKeepsUsage(ClearMarker(s, c), c, o, user);
    }
  }

  lemma DestroyChange(s: State, c: nat, stop: StopOutcome, o: DestroyOutcome, user: nat)
    requires c < |s.containers| && OverlayRowsOk(s)
    ensures var t := DestroySection(s, c, stop, o).0;
      && OverlayRowsOk(t)
      && Usage(t, user)
         == Usage(s, user) + if s.containers[c].user == user then SectionChange(s, DestroyCall(c, stop, o)) else 0
  {
    if !s.containers[c].status.Destroyed? {
      OverlayDrop(s.overlays, c, s.containers, DestroySection(s, c, stop, o).0.containers, user);
    }
  }

  lemma RecordChange(s: State, c: nat, name: string, w: SnapshotWorld, user: nat)
    requires c < |s.containers| && OverlayRowsOk(s) && !s.containers[c].status.Destroyed?
    ensures var (t, reply) := CopyAndRecord(s, c, name, w);
      && OverlayRowsOk(t) && t.containers == s.containers
      && Usage(t, user) == Usage(s, user)
         + (if reply.Done? && s.containers[c].user == user then
              w.copy.size + (if CurrentOverlay(s.overlays, c).Some? then w.copy.size - CurrentSize(s, c) else 0)
            else 0)
      && (reply.Done? ==> Usage(s, s.containers[c].user) + w.copy.size <= w.limitBytes)
  {
    var (t, reply) := CopyAndRecord(s, c, name, w);
    if reply.Done? {
      SnapshotAppend(s.snapshots, t.snapshots[|s.snapshots|].value, user);
      var cur := CurrentOverlay(s.overlays, c);
      if cur.Some? {
        OverlayUpdate(s.overlays, cur.value, t.overlays[cur.value], s.containers, user);
      }
    }
  }

  lemma RestartKeepsUsage(s: State, c: nat, w: SnapshotWorld, user: nat)
    requires c < |s.containers| && OverlayRowsOk(s)
    ensures OverlayRowsOk(RestartAfterCopy(s, c, w)) && Usage(RestartAfterCopy(s, c, w), user) == Usage(s, user)
  {
    OverlaysSame(s, RestartAfterCopy(s, c, w), user);
  }

  lemma SnapshotSectionChange(s: State, c: nat, name: string, restartAfter: bool, w: SnapshotWorld, user: nat)
    requires c < |s.containers| && OverlayRowsOk(s)
    ensures var t := SnapshotSection(s, c, name, restartAfter, w).0;
      && OverlayRowsOk(t)
      && Usage(t, user)
         == Usage(s, user) + if s.containers[c].user == user then SnapshotChange(s, c, name, restartAfter, w) else 0
    ensures SnapshotSection(s, c, name, restartAfter, w).1.Done?
            ==> Usage(s, s.containers[c].user) + w.copy.size <= w.limitBytes
  {
    hide CopyAndRecord, RestartAfterCopy, OverlayBytes, SnapshotBytes, WorkspaceBytes, CountSnapshots, NameTaken;
    var row := s.containers[c];
    if SnapshotRefusal(s, c, name, w).Done? {
      var quiet := if row.status.Running? then s.(rt := Stop(s.rt, row.inst, w.stop)) else s;
      RecordChange(quiet, c, name, w, user);
      RecordChange(quiet, c, name, w, row.user);
      RestartKeepsUsage(CopyAndRecord(quiet, c, name, w).0, c, w, user);
    }
  }

  /** What each section promises about its result. */
  ghost predicate Accounted(s: State, t: State, c: nat, change: int, user: nat)
    requires c < |s.containers|
  {
    OverlayRowsOk(t) && Usage(t, user) == Usage(s, user) + if s.containers[c].user == user then change else 0
  }

  lemma SectionAccounting(s: State, e: Event, user: nat)
    requires Enabled(s, e) && IsSection(e) && OverlayRowsOk(s)
    ensures Accounted(s, SectionResult(s, e), Target(s, e), SectionChange(s, e), user)
  {
    hide OverlayBytes, SnapshotBytes, WorkspaceBytes, SnapshotChange, OverlayRowsOk, Usage, LatestAuto, DestroyedBytes;
    hide StartSection, DestroySection, SnapshotSection, RestoreSection, StopSection, ReleaseSection;
    match e
    case StartCall(c, image, o, ro) => StartChange(s, c, image, o, ro, user);
    case DestroyCall(c, stop, o) => DestroyChange(s, c, stop, o, user);
    case RenewCleanup(c, stop, o) => DestroyChange(s, c, stop, o, user);
    case RestoreCall(c, sid, image, stop, o) => RestoreCallChange(s, c, sid, image, stop, o, user);
    case SnapshotCall(c, name, w) => SnapshotSectionChange(s, c, name, true, w, user);
    case SweepSnapshot(w, name, world) => SnapshotSectionChange(s, s.sweeps[w].cid, name, false, world, user);
    case StopCall(c, o) => StopsChange(s, c, 0, o, user);
    case SweepRelease(w, o) => StopsChange(s, s.sweeps[w].cid, s.sweeps[w].stamp, o, user);
  }

  lemma RestoreCallChange(s: State, c: nat, sid: nat, image: bool, stop: StopOutcome, o: RestoreOutcome, user: nat)
    requires c < |s.containers| && OverlayRowsOk(s)
    ensures var (t, reply) := RestoreSection(s, c, sid, image, stop, o);
      Accounted(s, t, c, if reply.Done? then s.snapshots[sid].value.size else 0, user)
  {
    hide RestoreFrom, OverlayRowsOk, Usage;
    if sid < |s.snapshots| && s.snapshots[sid].Some? {
      RestoreChange(s, c, s.snapshots[sid].value, image, stop, o, user);
    }
  }

  lemma StopsChange(s: State, c: nat, stamp: nat, o: StopOutcome, user: nat)
    requires c < |s.containers| && OverlayRowsOk(s)
    ensures Accounted(s, StopSection(s, c, o).0, c, 0, user)
    ensures Accounted(s, ReleaseSection(s, c, stamp, o).0, c, 0, user)
  {
    hide OverlayBytes, SnapshotBytes, WorkspaceBytes;
    OverlaysSame(s, StopSection(s, c, o).0, user);
    OverlaysSame(s, ReleaseSection(s, c, stamp, o).0, user);
  }

  lemma InsertAccounting(s: State, owner: nat, inst: string, user: nat)
    requires OverlayRowsOk(s)
    ensures var t := InsertRow(s, owner, inst);
      OverlayRowsOk(t) && OverlayBytes(t.overlays, t.containers, user) == OverlayBytes(s.overlays, s.containers, user)
  {
    var t := InsertRow(s, owner, inst);
    OverlayFrame(s.overlays, s.containers, t.overlays, t.containers, user);
  }

  lemma MarkAccounting(s: State, c: nat, user: nat)
    requires Enabled(s, CreateMark(c)) && OverlayRowsOk(s)
    ensures OverlayRowsOk(MarkCreated(s, c)) && Usage(MarkCreated(s, c), user) == Usage(s, user)
  {
    hide OverlayBytes, OverlayRowsOk;
    var t := MarkCreated(s, c);
    OverlaysSame(s, t.(overlays := s.overlays), user);
    if s.creates[c].Provisioned? {
      OverlayAppend(s.overlays, Some(OverlayRow(c, true, 0)), t.containers, user);
      AppendKeepsRowsOk(t.(overlays := s.overlays), t, OverlayRow(c, true, 0));
    }
  }

  lemma AppendKeepsRowsOk(s: State, t: State, row: OverlayRow)
    requires OverlayRowsOk(s) && t.containers == s.containers && t.overlays == s.overlays + [Some(row)]
    requires row.cid < |s.containers| && !s.containers[row.cid].status.Destroyed?
    ensures OverlayRowsOk(t)
  {
  }

  /** The mark of the unlocked restore adds the snapshot's size with no check, as the locked one does. */
  lemma RenewalAccounting(s: State, c: nat, user: nat)
    requires Enabled(s, RenewMark(c)) && OverlayRowsOk(s)
    ensures OverlayRowsOk(MarkRenewed(s, c))
    ensures Usage(MarkRenewed(s, c), user) == Usage(s, user) + Change(s, RenewMark(c), user)
  {
    var t := MarkRenewed(s, c);
    if s.renews[c].works {
      RestoredRows(s, t, c, s.renews[c].size, user);
    } else {
      OverlaysSame(s, t, user);
    }
  }

  predicate IsTableStep(e: Event) {
    e.DeleteRow? || e.Drift? || e.Refresh? || e.Upload? || e.NewWorkspace? || e.DeleteWorkspace?
  }

  lemma UncountedSteps(s: State, e: Event, user: nat)
    requires Enabled(s, e) && !IsSection(e) && !IsTableStep(e)
    requires !e.CreateInsert? && !e.RenewInsert? && !e.CreateMark? && !e.RenewMark?
    ensures var t := Step(s, e);
      && t.containers == s.containers && t.overlays == s.overlays
      && t.snapshots == s.snapshots && t.workspaces == s.workspaces
    ensures Change(s, e, user) == 0
  {
    hide Stop, Create, Restore, RemovePath;
  }

  lemma DeletionAccounting(s: State, d: nat, user: nat)
    requires Enabled(s, DeleteRow(d))
    ensures Usage(Step(s, DeleteRow(d)), user) == Usage(s, user) + Change(s, DeleteRow(d), user)
  {
    hide OverlayBytes, SnapshotBytes, WorkspaceBytes;
    SnapshotUpdate(s.snapshots, s.deletes[d].sid, user);
  }

  /** Only the row of workspace `ws` differs. */
  lemma WorkspaceAccounting(s: State, t: State, ws: nat, user: nat)
    requires ws < |s.workspaces| && ws < |t.workspaces|
    requires t == s.(workspaces := s.workspaces[ws := t.workspaces[ws]])
    ensures Usage(t, user)
            == Usage(s, user) - WorkspaceRowBytes(s.workspaces[ws], user) + WorkspaceRowBytes(t.workspaces[ws], user)
  {
    WorkspaceUpdate(s.workspaces, ws, t.workspaces[ws], user);
  }

  lemma TableStepsKeepRows(s: State, e: Event)
    requires Enabled(s, e) && IsTableStep(e)
    ensures Step(s, e).overlays == s.overlays && Step(s, e).containers == s.containers
  {
    hide Usage, Stop, Create, Restore, RemovePath, DemoteOverlays;
  }

  lemma TableAccounting(s: State, e: Event, user: nat)
    requires Enabled(s, e) && OverlayRowsOk(s) && IsTableStep(e)
    ensures OverlayRowsOk(Step(s, e)) && Usage(Step(s, e), user) == Usage(s, user) + Change(s, e, user)
  {
    hide OverlayBytes, SnapshotBytes, WorkspaceBytes, UploadSection, Usage;
    TableStepsKeepRows(s, e);
    match e
    case DeleteRow(d) => DeletionAccounting(s, d, user);
    case Drift(ws, actual) => DriftAccounting(s, ws, actual, user);
    case Refresh(ws) => RefreshAccounting(s, ws, user);
    case Upload(ws, bytes, replaced, limitBytes) => UploadAccounting(s, ws, bytes, replaced, limitBytes, user);
    case DeleteWorkspace(ws, cleaned, mounted) => RemovalAccounting(s, ws, cleaned, mounted, user);
    case NewWorkspace(owner) => NewWorkspaceAccounting(s, owner, user);
  }

  lemma RemovalAccounting(s: State, ws: nat, cleaned: bool, mounted: bool, user: nat)
    requires ws < |s.workspaces| && s.workspaces[ws].Some?
    ensures var e := DeleteWorkspace(ws, cleaned, mounted);
      Usage(Step(s, e), user) == Usage(s, user) + Change(s, e, user)
  {
    hide OverlayBytes, SnapshotBytes, WorkspaceBytes;
    WorkspaceAccounting(s, Step(s, DeleteWorkspace(ws, cleaned, mounted)), ws, user);
  }

  lemma DriftAccounting(s: State, ws: nat, actual: nat, user: nat)
    requires ws < |s.workspaces| && s.workspaces[ws].Some?
    ensures Usage(Step(s, Drift(ws, actual)), user) == Usage(s, user)
  {
    hide OverlayBytes, SnapshotBytes, WorkspaceBytes;
    WorkspaceAccounting(s, Step(s, Drift(ws, actual)), ws, user);
  }

  lemma RefreshAccounting(s: State, ws: nat, user: nat)
    requires ws < |s.workspaces|
    ensures Usage(Step(s, Refresh(ws)), user) == Usage(s, user) + Change(s, Refresh(ws), user)
  {
    hide OverlayBytes, SnapshotBytes, WorkspaceBytes;
    WorkspaceAccounting(s, Step(s, Refresh(ws)), ws, user);
  }

  lemma UploadAccounting(s: State, ws: nat, bytes: nat, replaced: nat, limitBytes: int, user: nat)
    requires ws < |s.workspaces| && Replaceable(s.workspaces[ws], replaced)
    ensures var e := Upload(ws, bytes, replaced, limitBytes);
      Usage(Step(s, e), user) == Usage(s, user) + Change(s, e, user)
  {
    hide OverlayBytes, SnapshotBytes, WorkspaceBytes;
    WorkspaceAccounting(s, UploadSection(s, ws, bytes, replaced, limitBytes).0, ws, user);
  }

  lemma NewWorkspaceAccounting(s: State, owner: nat, user: nat)
    ensures Usage(Step(s, NewWorkspace(owner)), user) == Usage(s, user)
  {
    assert Step(s, NewWorkspace(owner)).workspaces[..|s.workspaces|] == s.workspaces;
  }

  /** Every step changes a user's recorded usage by exactly its stated amount. */
  lemma StepAccounting(s: State, e: Event, user: nat)
    requires Enabled(s, e) && OverlayRowsOk(s)
    ensures OverlayRowsOk(Step(s, e))
    ensures Usage(Step(s, e), user) == Usage(s, user) + Change(s, e, user)
  {
    if IsSection(e) {
      SectionsAreLocal(s, e);
      SectionAccounting(s, e, user);
    } else {
      match e
      case CreateInsert(owner, inst) => InsertAccounting(s, owner, inst, user);
      case RenewInsert(_, owner, inst) => InsertAccounting(s, owner, inst, user);
      case CreateMark(c) => MarkAccounting(s, c, user);
      case RenewMark(c) => RenewalAccounting(s, c, user);
      case _ =>
        if IsTableStep(e) {
          TableAccounting(s, e, user);
        } else {
          UncountedSteps(s, e, user);
        }
    }
  }

  ghost function TotalChange(s: State, es: seq<Event>, user: nat): int
    requires Runs(s, es)
    decreases |es|
  {
    if es == [] then 0 else Change(s, es[0], user) + TotalChange(Step(s, es[0]), es[1..], user)
  }

  /** Conservation: after any run, the recorded usage is the initial usage plus the stated changes. */
  lemma {:induction false} UsageIsConserved(s: State, es: seq<Event>, user: nat)
    requires OverlayRowsOk(s) && Runs(s, es)
    ensures OverlayRowsOk(After(s, es))
    ensures Usage(After(s, es), user) == Usage(s, user) + TotalChange(s, es, user)
    decreases |es|
  {
    if es != [] {
      StepAccounting(s, es[0], user);
      UsageIsConserved(Step(s, es[0]), es[1..], user);
    }
  }

  /** From the empty platform, recorded usage is nothing but the sum of those changes. */
  lemma UsageIsTheSumOfChanges(es: seq<Event>, user: nat)
    requires Runs(INITIAL, es)
    ensures Usage(After(INITIAL, es), user) == TotalChange(INITIAL, es, user)
  {
    UsageIsConserved(INITIAL, es, user);
  }

  /** What a user first uploads to a new workspace counts for that user, and for nobody else. */
  lemma FirstUploadCounts(s: State, owner: nat, bytes: nat, limitBytes: int, user: nat)
    requires OverlayRowsOk(s) && Usage(s, owner) + bytes <= limitBytes
    ensures var s1 := Step(s, NewWorkspace(owner)); var e := Upload(|s.workspaces|, bytes, 0, limitBytes);
      && Enabled(s1, e)
      && Usage(Step(s1, e), user) == Usage(s, user) + if user == owner then bytes else 0
  {
    hide Usage;
    var s1 := Step(s, NewWorkspace(owner));
    var e := Upload(|s.workspaces|, bytes, 0, limitBytes);
    NewWorkspaceAccounting(s, owner, user);
    NewWorkspaceAccounting(s, owner, owner);
    assert s1.workspaces[|s.workspaces|] == Some(Workspace(owner, 0, 0));
    UploadAccounting(s1, |s.workspaces|, bytes, 0, limitBytes, user);
  }

  // ---- what the checks bound ----

  /** An admitted snapshot of size z over a current overlay row recording o leaves its owner at most at
      limit + z - o: the check counts the copy but not the row it is about to raise. */
  lemma AdmittedSnapshotBound(s: State, c: nat, name: string, restartAfter: bool, w: SnapshotWorld)
    requires c < |s.containers| && OverlayRowsOk(s) && CurrentOverlay(s.overlays, c).Some?
    requires SnapshotSection(s, c, name, restartAfter, w).1.Done?
    ensures var owner := s.containers[c].user; var t := SnapshotSection(s, c, name, restartAfter, w).0;
      && Usage(t, owner) == Usage(s, owner) + 2 * w.copy.size - CurrentSize(s, c)
      && Usage(t, owner) <= w.limitBytes + w.copy.size - CurrentSize(s, c)
      && (Usage(s, owner) + w.copy.size == w.limitBytes
          ==> Usage(t, owner) == w.limitBytes + w.copy.size - CurrentSize(s, c))
  {
    SnapshotSectionChange(s, c, name, restartAfter, w, s.containers[c].user);
  }

  /** An admitted upload ends within the limit plus whatever the workspace row did not know about; with
      exact stats before, it ends within the limit. */
  lemma AdmittedUploadBound(s: State, ws: nat, bytes: nat, replaced: nat, limitBytes: int)
    requires ws < |s.workspaces| && Replaceable(s.workspaces[ws], replaced)
    requires UploadSection(s, ws, bytes, replaced, limitBytes).1.Done?
    ensures s.workspaces[ws].Some?
    ensures var row := s.workspaces[ws].value; var t := UploadSection(s, ws, bytes, replaced, limitBytes).0;
      && t.workspaces[ws].Some? && t.workspaces[ws].value.recorded == t.workspaces[ws].value.actual
      && Usage(t, row.user) <= limitBytes + row.actual - row.recorded - replaced
      && (row.recorded == row.actual ==> Usage(t, row.user) <= limitBytes)
  {
    var t := UploadSection(s, ws, bytes, replaced, limitBytes).0;
    WorkspaceUpdate(s.workspaces, ws, t.workspaces[ws], s.workspaces[ws].value.user);
  }

  /** Restores are not checked and keep the demoted overlay rows: each success adds the snapshot's size
      again, with no limit in sight, until the container is destroyed. */
  lemma RestoreAddsUnchecked(s: State, c: nat, sid: nat, image: bool, stop: StopOutcome, o: RestoreOutcome)
    requires c < |s.containers| && OverlayRowsOk(s) && RestoreSection(s, c, sid, image, stop, o).1.Done?
    ensures Usage(RestoreSection(s, c, sid, image, stop, o).0, s.containers[c].user)
            == Usage(s, s.containers[c].user) + s.snapshots[sid].value.size
  {
    RestoreChange(s, c, s.snapshots[sid].value, image, stop, o, s.containers[c].user);
  }
}

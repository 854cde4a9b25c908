/** What every run of the platform keeps: running rows have live instances, recorded snapshots keep
    their content, and exactly which steps break either. */
module Lifecycle {
  import opened Common
  import opened R = Runtime
  import opened Platform

  // ---- locality: a section works on one container only ----

  /** `t` differs from `s` only in container `c`, its instance and files, its overlay rows, and appended
      snapshots of `c`. */
  ghost predicate Local(s: State, t: State, c: nat)
    requires c < |s.containers|
  {
    && |t.containers| == |s.containers|
    && (forall d :: 0 <= d < |s.containers| && d != c ==> t.containers[d] == s.containers[d])
    && t.containers[c].user == s.containers[c].user && t.containers[c].inst == s.containers[c].inst
    && LocalRuntime(s.rt, t.rt, s.containers[c].inst)
    && (t.snapshots == s.snapshots
        || (|t.snapshots| == |s.snapshots| + 1 && t.snapshots[..|s.snapshots|] == s.snapshots))
    && t.workspaces == s.workspaces && t.creates == s.creates && t.deletes == s.deletes
    && t.sweeps == s.sweeps && t.renews == s.renews && t.clock == s.clock
  }

  ghost predicate LocalRuntime(r: Runtime, q: Runtime, inst: string) {
    && (forall i :: i != inst ==> (i in q.alive <==> i in r.alive))
    && (forall p: Path :: p.inst != inst ==> SameFile(r, q, p))
  }

  ghost predicate SameFile(r: Runtime, q: Runtime, p: Path) {
    (p in q.files <==> p in r.files) && (p in r.files ==> q.files[p] == r.files[p])
  }

  lemma RuntimeOpsAreLocal(r: Runtime, inst: string)
    ensures forall o :: LocalRuntime(r, Stop(r, inst, o), inst)
    ensures forall o :: LocalRuntime(r, Create(r, inst, o), inst)
    ensures forall name, h, o :: LocalRuntime(r, Copy(r, inst, name, h, o), inst)
    ensures forall p, o :: LocalRuntime(r, Restore(r, inst, p, o), inst)
    ensures forall h, o :: LocalRuntime(r, Destroy(r, inst, h, o), inst)
    ensures forall p: Path, ok :: p.inst == inst ==> LocalRuntime(r, RemovePath(r, p, ok), inst)
  {
  }

  lemma LocalRefl(r: Runtime, inst: string)
    ensures LocalRuntime(r, r, inst)
  {
  }

  lemma LocalTrans(r: Runtime, q: Runtime, p: Runtime, inst: string)
    requires LocalRuntime(r, q, inst) && LocalRuntime(q, p, inst)
    ensures LocalRuntime(r, p, inst)
  {
    forall x: Path | x.inst != inst ensures SameFile(r, p, x) {
      assert SameFile(r, q, x) && SameFile(q, p, x);
    }
  }

  lemma RowChangeIsLocal(s: State, t: State, c: nat)
    requires c < |s.containers| && c < |t.containers|
    requires t == s.(containers := s.containers[c := t.containers[c]], rt := t.rt, overlays := t.overlays)
    requires t.containers[c].user == s.containers[c].user && t.containers[c].inst == s.containers[c].inst
    requires LocalRuntime(s.rt, t.rt, s.containers[c].inst)
    ensures Local(s, t, c) && t.snapshots == s.snapshots
  {
    hide LocalRuntime;
  }

  lemma RestoreFromIsLocal(s: State, c: nat, snap: Snapshot, image: bool, stop: StopOutcome, o: RestoreOutcome)
    requires c < |s.containers|
    ensures Local(s, RestoreFrom(s, c, snap, image, stop, o).0, c)
    ensures RestoreFrom(s, c, snap, image, stop, o).0.snapshots == s.snapshots
  {
    hide Stop, Restore, RestoreWorks, DemoteOverlays, LocalRuntime, Local;
    var inst := s.containers[c].inst;
    LocalRefl(s.rt, inst);
    StopRestoreIsLocal(s.rt, inst, s.containers[c].status.Running?, stop, snap.path, o);
    RowChangeIsLocal(s, RestoreFrom(s, c, snap, image, stop, o).0, c);
  }

  lemma StopRestoreIsLocal(r: Runtime, inst: string, running: bool, stop: StopOutcome, p: Path, o: RestoreOutcome)
    ensures LocalRuntime(r, Restore(if running then Stop(r, inst, stop) else r, inst, p, o), inst)
  {
    hide Stop, Restore;
    RuntimeOpsAreLocal(r, inst);
    var r1 := if running then Stop(r, inst, stop) else r;
    RuntimeOpsAreLocal(r1, inst);
    LocalTrans(r, r1, Restore(r1, inst, p, o), inst);
  }

  lemma PlainStartIsLocal(s: State, c: nat, o: CreateOutcome)
    requires c < |s.containers|
    ensures Local(s, PlainStart(s, c, o).0, c)
    ensures PlainStart(s, c, o).0.snapshots == s.snapshots
  {
    RuntimeOpsAreLocal(s.rt, s.containers[c].inst);
  }

  lemma LocalCompose(s: State, u: State, t: State, c: nat)
    requires c < |s.containers| && Local(s, u, c) && u.snapshots == s.snapshots && Local(u, t, c)
    ensures Local(s, t, c)
  {
    LocalTrans(s.rt, u.rt, t.rt, s.containers[c].inst);
  }

  lemma ClearMarkerIsLocal(s: State, c: nat)
    requires c < |s.containers|
    ensures Local(s, ClearMarker(s, c), c) && ClearMarker(s, c).snapshots == s.snapshots
  {
  }

  lemma ResumeIsLocal(s: State, c: nat, snap: Snapshot, image: bool, ro: RestoreOutcome)
    requires c < |s.containers|
    ensures Local(s, ResumeFrom(s, c, snap, image, ro).0, c)
    ensures ResumeFrom(s, c, snap, image, ro).0.snapshots == s.snapshots
  {
    RestoreFromIsLocal(s, c, snap, image, StopDone, ro);
    var t := RestoreFrom(s, c, snap, image, StopDone, ro).0;
    ClearMarkerIsLocal(t, c);
    LocalCompose(s, t, ClearMarker(t, c), c);
  }

  lemma UnmarkedStartIsLocal(s: State, c: nat, o: CreateOutcome)
    requires c < |s.containers|
    ensures Local(s, PlainStart(ClearMarker(s, c), c, o).0, c)
    ensures PlainStart(ClearMarker(s, c), c, o).0.snapshots == s.snapshots
  {
    ClearMarkerIsLocal(s, c);
    var u := ClearMarker(s, c);
    PlainStartIsLocal(u, c, o);
    LocalCompose(s, u, PlainStart(u, c, o).0, c);
  }

  lemma StartIsLocal(s: State, c: nat, image: bool, o: CreateOutcome, ro: RestoreOutcome)
    requires c < |s.containers|
    ensures Local(s, StartSection(s, c, image, o, ro).0, c)
    ensures StartSection(s, c, image, o, ro).0.snapshots == s.snapshots
  {
    hide PlainStart, ResumeFrom, ClearMarker, LatestAuto;
    PlainStartIsLocal(s, c, o);
    UnmarkedStartIsLocal(s, c, o);
    ClearMarkerIsLocal(s, c);
    match LatestAuto(s.snapshots, c) {
      case Some(sid) => ResumeIsLocal(s, c, s.snapshots[sid].value, image, ro);
      case None =>
    }
  }

  lemma DestroyIsLocal(s: State, c: nat, stop: StopOutcome, o: DestroyOutcome)
    requires c < |s.containers|
    ensures Local(s, DestroySection(s, c, stop, o).0, c)
    ensures DestroySection(s, c, stop, o).0.snapshots == s.snapshots
  {
    var row := s.containers[c];
    RuntimeOpsAreLocal(s.rt, row.inst);
    var r1 := Stop(s.rt, row.inst, stop);
    RuntimeOpsAreLocal(r1, row.inst);
    LocalTrans(s.rt, r1, Destroy(r1, row.inst, row.hasOverlay, o), row.inst);
  }

  lemma FileOpsKeepAlive(r: Runtime, inst: string, name: string, h: bool, o: CopyOutcome)
    ensures Copy(r, inst, name, h, o).alive == r.alive
    ensures forall p, ok :: RemovePath(r, p, ok).alive == r.alive
  {
  }

  lemma CopyIsLocal(s: State, c: nat, name: string, w: SnapshotWorld)
    requires c < |s.containers|
    ensures Local(s, CopyAndRecord(s, c, name, w).0, c)
    ensures CopyAndRecord(s, c, name, w).0.containers == s.containers
    ensures CopyAndRecord(s, c, name, w).0.rt.alive == s.rt.alive
  {
    hide Copy, RemovePath, Usage, UserNameTaken, LocalRuntime;
    var row := s.containers[c];
    RuntimeOpsAreLocal(s.rt, row.inst);
    var r1 := Copy(s.rt, row.inst, name, row.hasOverlay, w.copy);
    FileOpsKeepAlive(s.rt, row.inst, name, row.hasOverlay, w.copy);
    FileOpsKeepAlive(r1, row.inst, name, row.hasOverlay, w.copy);
    RuntimeOpsAreLocal(r1, row.inst);
    LocalTrans(s.rt, r1, RemovePath(r1, SnapshotAt(row.inst, name), w.orphanRemoved), row.inst);
  }

  lemma SnapshotIsLocal(s: State, c: nat, name: string, restartAfter: bool, w: SnapshotWorld)
    requires c < |s.containers|
    ensures Local(s, SnapshotSection(s, c, name, restartAfter, w).0, c)
  {
    hide CopyAndRecord, Create, Stop, LocalRuntime, CountSnapshots, NameTaken;
    var row := s.containers[c];
    var quiet := if row.status.Running? then s.(rt := Stop(s.rt, row.inst, w.stop)) else s;
    RuntimeOpsAreLocal(s.rt, row.inst);
    LocalRefl(s.rt, row.inst);
    CopyIsLocal(quiet, c, name, w);
    var t := CopyAndRecord(quiet, c, name, w).0;
    LocalTrans(s.rt, quiet.rt, t.rt, row.inst);
    RuntimeOpsAreLocal(t.rt, row.inst);
    LocalTrans(s.rt, t.rt, Create(t.rt, row.inst, w.restart), row.inst);
  }

  lemma ReleaseIsLocal(s: State, c: nat, stamp: nat, o: StopOutcome)
    requires c < |s.containers|
    ensures Local(s, ReleaseSection(s, c, stamp, o).0, c)
    ensures ReleaseSection(s, c, stamp, o).0.snapshots == s.snapshots
  {
    RuntimeOpsAreLocal(s.rt, s.containers[c].inst);
  }

  lemma StopIsLocal(s: State, c: nat, o: StopOutcome)
    requires c < |s.containers|
    ensures Local(s, StopSection(s, c, o).0, c)
    ensures StopSection(s, c, o).0.snapshots == s.snapshots
  {
    RuntimeOpsAreLocal(s.rt, s.containers[c].inst);
  }

  // ---- the container a step works on ----

  predicate IsSection(e: Event) {
    || e.StartCall? || e.StopCall? || e.DestroyCall? || e.SnapshotCall? || e.RestoreCall?
    || e.SweepRelease? || e.SweepSnapshot? || e.RenewCleanup?
  }

  function Target(s: State, e: Event): nat
    requires Enabled(s, e) && IsSection(e)
  {
    match e
    case SweepRelease(w, _) => s.sweeps[w].cid
    case SweepSnapshot(w, _, _) => s.sweeps[w].cid
    case _ => e.c
  }

  /** The section's result before the bookkeeping of the sweep or the restore it belongs to. */
  function SectionResult(s: State, e: Event): State
    requires Enabled(s, e) && IsSection(e)
  {
    match e
    case StartCall(c, image, o, ro) => StartSection(s, c, image, o, ro).0
    case StopCall(c, o) => StopSection(s, c, o).0
    case DestroyCall(c, stop, o) => DestroySection(s, c, stop, o).0
    case SnapshotCall(c, name, w) => SnapshotSection(s, c, name, true, w).0
    case RestoreCall(c, sid, image, stop, o) => RestoreSection(s, c, sid, image, stop, o).0
    case SweepRelease(w, o) => ReleaseSection(s, s.sweeps[w].cid, s.sweeps[w].stamp, o).0
    case SweepSnapshot(w, name, world) => SnapshotSection(s, s.sweeps[w].cid, name, false, world).0
    case RenewCleanup(c, stop, o) => DestroySection(s, c, stop, o).0
  }

  lemma SelfIsLocal(s: State, c: nat)
    requires c < |s.containers|
    ensures Local(s, s, c)
  {
  }

  lemma SectionResultIsLocal(s: State, e: Event)
    requires Enabled(s, e) && IsSection(e)
    ensures Local(s, SectionResult(s, e), Target(s, e))
  {
    hide StartSection, StopSection, DestroySection, SnapshotSection, RestoreFrom, Local;
    SelfIsLocal(s, Target(s, e));
    match e
    case StartCall(c, image, o, ro) => StartIsLocal(s, c, image, o, ro);
    case StopCall(c, o) => StopIsLocal(s, c, o);
    case DestroyCall(c, stop, o) => DestroyIsLocal(s, c, stop, o);
    case SnapshotCall(c, name, w) => SnapshotIsLocal(s, c, name, true, w);
    case RestoreCall(c, sid, image, stop, o) =>
      if sid < |s.snapshots| && s.snapshots[sid].Some? {
        RestoreFromIsLocal(s, c, s.snapshots[sid].value, image, stop, o);
      }
    case SweepRelease(w, o) => ReleaseIsLocal(s, s.sweeps[w].cid, s.sweeps[w].stamp, o);
    case SweepSnapshot(w, name, world) => SnapshotIsLocal(s, s.sweeps[w].cid, name, false, world);
    case RenewCleanup(c, stop, o) => DestroyIsLocal(s, c, stop, o);
  }

  lemma SectionsAreLocal(s: State, e: Event)
    requires Enabled(s, e) && IsSection(e)
    ensures Local(s, SectionResult(s, e), Target(s, e))
    ensures Step(s, e) == SectionResult(s, e).(sweeps := Step(s, e).sweeps, renews := Step(s, e).renews)
    ensures !(e.SweepRelease? || e.SweepSnapshot?) ==> Step(s, e).sweeps == s.sweeps
    ensures Step(s, e).renews == if e.RenewCleanup? then s.renews - {e.c} else s.renews
  {
    hide StartSection, StopSection, DestroySection, SnapshotSection, RestoreSection, LocalRuntime;
    SectionResultIsLocal(s, e);
  }

  // ---- structure ----

  ghost predicate DistinctInstances(s: State) {
    && (forall c :: 0 <= c < |s.containers| ==> InstanceName(s.containers[c].inst))
    && (forall c, d :: 0 <= c < d < |s.containers| ==> s.containers[c].inst != s.containers[d].inst)
  }

  ghost predicate SnapshotRowsOk(s: State) {
    && (forall i :: 0 <= i < |s.snapshots| && s.snapshots[i].Some? ==> SnapshotRowOk(s, s.snapshots[i].value))
    && (forall i, j :: 0 <= i < j < |s.snapshots| && s.snapshots[i].Some? && s.snapshots[j].Some?
                       ==> s.snapshots[i].value.path != s.snapshots[j].value.path)
  }

  ghost predicate SnapshotRowOk(s: State, x: Snapshot) {
    && x.cid < |s.containers| && x.user == s.containers[x.cid].user
    && x.path == SnapshotAt(s.containers[x.cid].inst, x.name)
  }

  ghost predicate Structure(s: State) {
    DistinctInstances(s) && SnapshotRowsOk(s)
  }

  /** A recorded row of a container has its container's name prefix, so the name check keeps paths distinct. */
  lemma NewPathIsFree(s: State, c: nat, name: string, i: nat)
    requires Structure(s) && c < |s.containers| && !NameTaken(s.snapshots, c, name)
    requires i < |s.snapshots| && s.snapshots[i].Some?
    ensures s.snapshots[i].value.path != SnapshotAt(s.containers[c].inst, name)
  {
    var x := s.snapshots[i].value;
    assert SnapshotRowOk(s, x);
  }

  lemma AppendKeepsStructure(s: State, t: State, c: nat)
    requires Structure(s) && c < |s.containers| && Local(s, t, c)
    requires |t.snapshots| == |s.snapshots| + 1 ==>
      && t.snapshots[|s.snapshots|].Some?
      && var x := t.snapshots[|s.snapshots|].value;
         x.cid == c && SnapshotRowOk(s, x) && !NameTaken(s.snapshots, c, x.name)
    ensures Structure(t)
  {
    var n := |s.snapshots|;
    assert forall d :: 0 <= d < |s.containers| ==>
      t.containers[d].inst == s.containers[d].inst && t.containers[d].user == s.containers[d].user;
    assert forall i :: 0 <= i < n ==> t.snapshots[i] == t.snapshots[..n][i] == s.snapshots[i];
    forall i | 0 <= i < |t.snapshots| && t.snapshots[i].Some? ensures SnapshotRowOk(t, t.snapshots[i].value) {
      assert SnapshotRowOk(s, t.snapshots[i].value);
    }
    if |t.snapshots| == n + 1 {
      forall i | 0 <= i < n && s.snapshots[i].Some? ensures s.snapshots[i].value.path != t.snapshots[n].value.path {
        NewPathIsFree(s, c, t.snapshots[n].value.name, i);
      }
    }
  }

  lemma SnapshotAppends(s: State, c: nat, name: string, restartAfter: bool, w: SnapshotWorld)
    requires c < |s.containers|
    ensures var t := SnapshotSection(s, c, name, restartAfter, w).0;
      t.snapshots == s.snapshots
      || exists x :: && t.snapshots == s.snapshots + [Some(x)] && x.cid == c
                     && SnapshotRowOk(s, x) && !NameTaken(s.snapshots, c, x.name)
  {
    hide Usage, Stop, Copy, RemovePath, CountSnapshots, Create;
    var row := s.containers[c];
    var quiet := if row.status.Running? then s.(rt := Stop(s.rt, row.inst, w.stop)) else s;
    var t := CopyAndRecord(quiet, c, name, w).0;
    if SnapshotRefusal(s, c, name, w).Done? && t.snapshots != s.snapshots {
      var x := t.snapshots[|s.snapshots|].value;
      assert t.snapshots == s.snapshots + [Some(x)] && SnapshotRowOk(s, x);
    }
  }

  lemma OthersAppendNothing(s: State, e: Event)
    requires Enabled(s, e) && IsSection(e) && !e.SnapshotCall? && !e.SweepSnapshot?
    ensures SectionResult(s, e).snapshots == s.snapshots
  {
    match e
    case StartCall(c, image, o, ro) => StartIsLocal(s, c, image, o, ro);
    case StopCall(c, o) => StopIsLocal(s, c, o);
    case DestroyCall(c, stop, o) => DestroyIsLocal(s, c, stop, o);
    case RestoreCall(c, sid, image, stop, o) =>
      if sid < |s.snapshots| && s.snapshots[sid].Some? {
        RestoreFromIsLocal(s, c, s.snapshots[sid].value, image, stop, o);
      }
    case SweepRelease(w, o) => ReleaseIsLocal(s, s.sweeps[w].cid, s.sweeps[w].stamp, o);
    case RenewCleanup(c, stop, o) => DestroyIsLocal(s, c, stop, o);
  }

  lemma SectionAppends(s: State, e: Event)
    requires Enabled(s, e) && IsSection(e)
    ensures var t := SectionResult(s, e); var c := Target(s, e);
      |t.snapshots| == |s.snapshots| + 1 ==>
        && t.snapshots[|s.snapshots|].Some?
        && var x := t.snapshots[|s.snapshots|].value;
           x.cid == c && SnapshotRowOk(s, x) && !NameTaken(s.snapshots, c, x.name)
  {
    match e
    case SnapshotCall(c, name, w) => SnapshotAppends(s, c, name, true, w);
    case SweepSnapshot(w, name, world) => SnapshotAppends(s, s.sweeps[w].cid, name, false, world);
    case _ => OthersAppendNothing(s, e);
  }

  /** Structure only looks at names, owners and recorded paths; rows may be deleted. */
  lemma StructureFrame(s: State, t: State)
    requires Structure(s)
    requires |t.containers| == |s.containers| && |t.snapshots| == |s.snapshots|
    requires forall c :: 0 <= c < |s.containers| ==>
      t.containers[c].inst == s.containers[c].inst && t.containers[c].user == s.containers[c].user
    requires forall i :: 0 <= i < |s.snapshots| ==> t.snapshots[i] == s.snapshots[i] || t.snapshots[i].None?
    ensures Structure(t)
  {
    forall i | 0 <= i < |t.snapshots| && t.snapshots[i].Some? ensures SnapshotRowOk(t, t.snapshots[i].value) {
      assert SnapshotRowOk(s, s.snapshots[i].value);
    }
  }

  lemma InsertKeepsStructure(s: State, t: State, row: Container)
    requires Structure(s) && t.containers == s.containers + [row] && t.snapshots == s.snapshots
    requires InstanceName(row.inst) && forall c :: 0 <= c < |s.containers| ==> s.containers[c].inst != row.inst
    ensures Structure(t)
  {
    forall i | 0 <= i < |t.snapshots| && t.snapshots[i].Some? ensures SnapshotRowOk(t, t.snapshots[i].value) {
      assert SnapshotRowOk(s, s.snapshots[i].value);
    }
  }

  lemma SectionKeepsStructure(s: State, e: Event)
    requires Structure(s) && Enabled(s, e) && IsSection(e)
    ensures Structure(Step(s, e))
  {
    hide Step, SectionResult;
    SectionsAreLocal(s, e);
    SectionAppends(s, e);
    AppendKeepsStructure(s, SectionResult(s, e), Target(s, e));
    StructureFrame(SectionResult(s, e), Step(s, e));
  }

  lemma StepKeepsStructure(s: State, e: Event)
    requires Structure(s) && Enabled(s, e)
    ensures Structure(Step(s, e))
  {
    hide StartSection, StopSection, DestroySection, SnapshotSection, RestoreSection, ReleaseSection, UploadSection;
    hide Structure, SectionResult, MarkCreated, MarkRenewed, SweepCheckStep;
    var t := Step(s, e);
    if IsSection(e) {
      SectionKeepsStructure(s, e);
    } else if e.CreateInsert? || e.RenewInsert? {
      InsertKeepsStructure(s, t, Container(e.user, e.inst, Creating, false, false, 0));
    } else {
      OtherStepsKeepNames(s, e);
      StructureFrame(s, t);
    }
  }

  lemma OtherStepsKeepNames(s: State, e: Event)
    requires Enabled(s, e) && !IsSection(e) && !e.CreateInsert? && !e.RenewInsert?
    ensures var t := Step(s, e);
      && |t.containers| == |s.containers| && |t.snapshots| == |s.snapshots|
      && (forall c :: 0 <= c < |s.containers| ==>
            t.containers[c].inst == s.containers[c].inst && t.containers[c].user == s.containers[c].user)
      && (forall i :: 0 <= i < |s.snapshots| ==> t.snapshots[i] == s.snapshots[i] || t.snapshots[i].None?)
  {
    hide Restore, Create, DemoteOverlays, Usage, MarkCreated, MarkRenewed;
    match e
    case CreateMark(c) => MarksKeepNames(s, c);
    case RenewMark(c) => MarksKeepNames(s, c);
    case _ =>
  }

  lemma MarksKeepNames(s: State, c: nat)
    requires c < |s.containers|
    ensures forall t :: (c in s.creates && t == MarkCreated(s, c))
                        || (c in s.renews && s.renews[c].Swapped? && t == MarkRenewed(s, c))
              ==> && t.snapshots == s.snapshots && |t.containers| == |s.containers|
                  && (forall d :: 0 <= d < |s.containers| ==>
                        t.containers[d].inst == s.containers[d].inst && t.containers[d].user == s.containers[d].user)
  {
    hide DemoteOverlays;
  }

  lemma {:induction false} RunsKeepStructure(s: State, es: seq<Event>)
    requires Structure(s) && Runs(s, es)
    ensures Structure(After(s, es))
    decreases |es|
  {
    if es != [] {
      StepKeepsStructure(s, es[0]);
      RunsKeepStructure(Step(s, es[0]), es[1..]);
    }
  }

  /** So every state the platform can reach has distinct instances, and each snapshot row its own path. */
  lemma ReachableHasStructure(s: State)
    requires Reachable(s)
    ensures Structure(s)
  {
    var es :| Runs(INITIAL, es) && After(INITIAL, es) == s;
    RunsKeepStructure(INITIAL, es);
  }

  // ---- running rows have live instances ----

  /** Whenever no lock is held: a row that says running has a live instance, but for the rows in `x`. */
  ghost predicate AliveExcept(s: State, x: set<nat>) {
    forall c :: 0 <= c < |s.containers| && c !in x && s.containers[c].status.Running?
                ==> s.containers[c].inst in s.rt.alive
  }

  ghost predicate RunningIsAlive(s: State) {
    AliveExcept(s, {})
  }

  /** The row a step leaves running without its instance, if any. A snapshot that does not restart gets past
      its checks on a running row and its stop takes effect; `create` marks a row whose instance has gone
      meanwhile; the unlocked restore into a new container stops the instance of a running row; or it marks a
      row whose instance has gone since the executor brought it up. */
  ghost function Stranded(s: State, e: Event): Option<nat>
    requires Enabled(s, e)
  {
    match e
    case SweepSnapshot(w, name, world) =>
      var c := s.sweeps[w].cid;
      if s.containers[c].status.Running? && world.stop.StopDone? && SnapshotRefusal(s, c, name, world).Done?
      then Some(c) else None
    case CreateMark(c) =>
      if s.creates[c].Provisioned? && s.containers[c].inst !in s.rt.alive then Some(c) else None
    case RenewStop(c, stop) =>
      if s.renews[c].wasRunning && stop.StopDone? && s.containers[c].status.Running? then Some(c) else None
    case RenewMark(c) =>
      if s.renews[c].works && s.containers[c].inst !in s.rt.alive then Some(c) else None
    case _ => None
  }

  lemma RestoreKeepsAlive(s: State, c: nat, snap: Snapshot, image: bool, stop: StopOutcome, o: RestoreOutcome)
    requires c < |s.containers| && (s.containers[c].status.Running? ==> s.containers[c].inst in s.rt.alive)
    ensures var t := RestoreFrom(s, c, snap, image, stop, o).0;
      t.containers[c].status.Running? ==> s.containers[c].inst in t.rt.alive
  {
  }

  lemma StartKeepsAlive(s: State, c: nat, image: bool, o: CreateOutcome, ro: RestoreOutcome)
    requires c < |s.containers| && (s.containers[c].status.Running? ==> s.containers[c].inst in s.rt.alive)
    ensures var t := StartSection(s, c, image, o, ro).0;
      |t.containers| == |s.containers| && (t.containers[c].status.Running? ==> s.containers[c].inst in t.rt.alive)
  {
    hide RestoreFrom, LatestAuto;
    StartIsLocal(s, c, image, o, ro);
    if LatestAuto(s.snapshots, c).Some? {
      var snap := s.snapshots[LatestAuto(s.snapshots, c).value].value;
      RestoreKeepsAlive(s, c, snap, image, StopDone, ro);
      RestoreFromIsLocal(s, c, snap, image, StopDone, ro);
    }
  }

  /** Every section but a snapshot leaves its own row right by itself. */
  lemma PlainSectionsKeepAlive(s: State, e: Event)
    requires Enabled(s, e) && IsSection(e) && !e.SnapshotCall? && !e.SweepSnapshot?
    requires var c := Target(s, e); s.containers[c].status.Running? ==> s.containers[c].inst in s.rt.alive
    ensures var c := Target(s, e); var t := SectionResult(s, e);
      |t.containers| == |s.containers| && (t.containers[c].status.Running? ==> s.containers[c].inst in t.rt.alive)
  {
    hide StartSection, RestoreFrom, Create, Restore, DropOverlays;
    match e
    case StartCall(c, image, o, ro) => StartKeepsAlive(s, c, image, o, ro);
    case RestoreCall(c, sid, image, stop, o) =>
      if sid < |s.snapshots| && s.snapshots[sid].Some? {
        RestoreKeepsAlive(s, c, s.snapshots[sid].value, image, stop, o);
        RestoreFromIsLocal(s, c, s.snapshots[sid].value, image, stop, o);
      }
    case StopCall(c, o) =>
    case DestroyCall(c, stop, o) =>
    case SweepRelease(w, o) =>
    case RenewCleanup(c, stop, o) =>
  }

  lemma TargetStaysAlive(s: State, e: Event)
    requires Enabled(s, e) && IsSection(e)
    requires var c := Target(s, e); s.containers[c].status.Running? ==> s.containers[c].inst in s.rt.alive
    ensures var c := Target(s, e); var t := SectionResult(s, e);
      |t.containers| == |s.containers|
      && ((t.containers[c].status.Running? ==> s.containers[c].inst in t.rt.alive) <==> Stranded(s, e).None?)
  {
    match e
    case SnapshotCall(c, name, w) => SnapshotAlive(s, c, name, true, w);
    case SweepSnapshot(w, name, world) => SnapshotAlive(s, s.sweeps[w].cid, name, false, world);
    case _ => PlainSectionsKeepAlive(s, e);
  }

  lemma SnapshotAlive(s: State, c: nat, name: string, restartAfter: bool, w: SnapshotWorld)
    requires c < |s.containers| && (s.containers[c].status.Running? ==> s.containers[c].inst in s.rt.alive)
    ensures var t := SnapshotSection(s, c, name, restartAfter, w).0;
      |t.containers| == |s.containers|
      && ((t.containers[c].status.Running? ==> s.containers[c].inst in t.rt.alive)
          <==> restartAfter || !s.containers[c].status.Running? || !w.stop.StopDone?
               || !SnapshotRefusal(s, c, name, w).Done?)
  {
    var row := s.containers[c];
    var quiet := if row.status.Running? then s.(rt := Stop(s.rt, row.inst, w.stop)) else s;
    CopyIsLocal(quiet, c, name, w);
  }

  lemma StepKeepsAliveExactly(s: State, e: Event, x: set<nat>)
    requires Structure(s) && AliveExcept(s, x) && Enabled(s, e)
    ensures AliveExcept(Step(s, e), x) <==> Stranded(s, e).None? || Stranded(s, e).value in x
  {
    hide Step, Structure;
    if IsSection(e) {
      SectionKeepsAliveExactly(s, e, x);
    } else {
      match e
      case CreateMark(c) => CreateMarkAlive(s, c, x);
      case RenewStop(c, stop) => RenewStopAlive(s, c, stop, x);
      case RenewMark(c) => RenewMarkAlive(s, c, x);
      case _ =>
        OtherStepsKeepRows(s, e);
        OtherStepsKeepAlive(s, e);
    }
  }

  /** Outside the sections only a mark changes a row; a new one has never been started. */
  lemma OtherStepsKeepRows(s: State, e: Event)
    requires Enabled(s, e) && !IsSection(e) && !e.CreateMark? && !e.RenewMark?
    ensures var t := Step(s, e);
      && |t.containers| >= |s.containers|
      && (forall c :: 0 <= c < |s.containers| ==> t.containers[c] == s.containers[c])
      && (forall c :: |s.containers| <= c < |t.containers| ==>
            t.containers[c].status.Creating? && t.containers[c].lastStarted == 0)
  {
    hide Usage, Stop, Create, Restore;
  }

  lemma OtherStepsKeepAlive(s: State, e: Event)
    requires Enabled(s, e) && !IsSection(e) && !e.CreateMark? && !e.RenewStop? && !e.RenewMark?
    ensures forall i :: i in s.rt.alive ==> i in Step(s, e).rt.alive
  {
    hide Usage;
  }

  /** A mark changes its own row only, and no instance, file or snapshot row. */
  lemma MarksKeepOthers(s: State, e: Event)
    requires Enabled(s, e) && (e.CreateMark? || e.RenewMark?)
    ensures var t := Step(s, e);
      && |t.containers| == |s.containers| && t.rt == s.rt && t.snapshots == s.snapshots && t.clock == s.clock
      && t.sweeps == s.sweeps && t.containers[e.c].lastStarted in {s.containers[e.c].lastStarted, s.clock / 1000}
      && !t.containers[e.c].status.Destroyed?
      && (forall d :: 0 <= d < |s.containers| && d != e.c ==> t.containers[d] == s.containers[d])
  {
    hide DemoteOverlays;
    match e
    case CreateMark(_) =>
    case RenewMark(_) =>
  }

  /** Changes to one row and its instance matter to that row only. */
  lemma OneRowAlive(s: State, t: State, c: nat, x: set<nat>)
    requires Structure(s) && AliveExcept(s, x) && c < |s.containers| && |t.containers| == |s.containers|
    requires forall d :: 0 <= d < |s.containers| && d != c ==> t.containers[d] == s.containers[d]
    requires forall i :: i != s.containers[c].inst ==> (i in t.rt.alive <==> i in s.rt.alive)
    requires t.containers[c].inst == s.containers[c].inst
    ensures AliveExcept(t, x)
            <==> c in x || (t.containers[c].status.Running? ==> s.containers[c].inst in t.rt.alive)
  {
    forall d | 0 <= d < |s.containers| && d != c ensures s.containers[d].inst != s.containers[c].inst {}
  }

  lemma CreateMarkAlive(s: State, c: nat, x: set<nat>)
    requires Structure(s) && AliveExcept(s, x) && Enabled(s, CreateMark(c))
    ensures AliveExcept(Step(s, CreateMark(c)), x)
            <==> Stranded(s, CreateMark(c)).None? || Stranded(s, CreateMark(c)).value in x
  {
    OneRowAlive(s, MarkCreated(s, c), c, x);
  }

  lemma RenewMarkAlive(s: State, c: nat, x: set<nat>)
    requires Structure(s) && AliveExcept(s, x) && Enabled(s, RenewMark(c))
    ensures AliveExcept(Step(s, RenewMark(c)), x)
            <==> Stranded(s, RenewMark(c)).None? || Stranded(s, RenewMark(c)).value in x
  {
    hide DemoteOverlays;
    OneRowAlive(s, MarkRenewed(s, c), c, x);
  }

  lemma RenewStopAlive(s: State, c: nat, stop: StopOutcome, x: set<nat>)
    requires Structure(s) && AliveExcept(s, x) && Enabled(s, RenewStop(c, stop))
    ensures AliveExcept(Step(s, RenewStop(c, stop)), x)
            <==> Stranded(s, RenewStop(c, stop)).None? || Stranded(s, RenewStop(c, stop)).value in x
  {
    OneRowAlive(s, Step(s, RenewStop(c, stop)), c, x);
  }

  lemma SectionKeepsAliveExactly(s: State, e: Event, x: set<nat>)
    requires Structure(s) && AliveExcept(s, x) && Enabled(s, e) && IsSection(e)
    ensures AliveExcept(Step(s, e), x) <==> Stranded(s, e).None? || Stranded(s, e).value in x
  {
    hide Structure, SectionResult;
    SectionsAreLocal(s, e);
    StrandedIsTarget(s, e);
    hide Step, Stranded;
    var c := Target(s, e);
    OneRowAlive(s, Step(s, e), c, x);
    if c !in x { TargetStaysAlive(s, e); }
  }

  lemma StrandedIsTarget(s: State, e: Event)
    requires Enabled(s, e) && IsSection(e)
    ensures Stranded(s, e).Some? ==> Stranded(s, e).value == Target(s, e)
  {
  }

  /** The exact step condition: from a state where every running row has a live instance, a step keeps
      that if and only if it is not one of the four stranding steps. */
  lemma StepKeepsRunningAliveExactly(s: State, e: Event)
    requires Structure(s) && RunningIsAlive(s) && Enabled(s, e)
    ensures RunningIsAlive(Step(s, e)) <==> Stranded(s, e).None?
  {
    StepKeepsAliveExactly(s, e, {});
  }

  // ---- runs that keep to the protocol ----

  ghost predicate ReleasedBySweep(s: State, c: nat) {
    exists w :: w in s.sweeps && s.sweeps[w].Released? && s.sweeps[w].cid == c
  }

  /** No section targets a container whose `create`, or whose restore as a new container, has not returned
      (but for that restore's own clean-up), and none lands between a sweep's release of a container and
      that sweep's own snapshot. */
  ghost predicate Allowed(s: State, e: Event)
    requires Enabled(s, e)
  {
    IsSection(e) ==>
      && Target(s, e) !in s.creates
      && (Target(s, e) in s.renews ==> e.RenewCleanup?)
      && (ReleasedBySweep(s, Target(s, e)) ==> e.SweepSnapshot?)
  }

  ghost predicate AllowedRun(s: State, es: seq<Event>)
    requires Runs(s, es)
    decreases |es|
  {
    es == [] || (Allowed(s, es[0]) && AllowedRun(Step(s, es[0]), es[1..]))
  }

  /** An unfinished `create` still owns its row, and its instance once provisioned. */
  ghost predicate CreatesOk(s: State) {
    && (forall c :: c in s.creates ==> c < |s.containers| && s.containers[c].status.Creating?)
    && (forall c :: c in s.creates && s.creates[c].Provisioned? ==>
          c < |s.containers| && s.containers[c].inst in s.rt.alive)
  }

  /** A sweep's container has been created, and between release and snapshot it does not run and is not
      being restored. */
  ghost predicate SweepOk(s: State, w: nat)
    requires w in s.sweeps
  {
    && s.sweeps[w].cid < |s.containers| && s.sweeps[w].cid !in s.creates
    && (s.sweeps[w].Released? ==> !s.containers[s.sweeps[w].cid].status.Running? && s.sweeps[w].cid !in s.renews)
  }

  ghost predicate SweepsOk(s: State) {
    && (forall w :: w in s.sweeps ==> SweepOk(s, w))
    && (forall v, w :: v in s.sweeps && w in s.sweeps && s.sweeps[v].Released? && s.sweeps[w].Released?
                       && s.sweeps[v].cid == s.sweeps[w].cid
                       ==> v == w)
  }

  /** A restore into a new container waits for its `create`, and keeps the instance it brought up until it
      has marked the row. */
  ghost predicate RenewsOk(s: State) {
    forall c :: c in s.renews ==>
      && c < |s.containers|
      && (c in s.creates ==> s.renews[c].Waiting?)
      && (s.renews[c].Swapped? && s.renews[c].works ==> s.containers[c].inst in s.rt.alive)
  }

  /** Between calls; a row being restored by the unlocked path is right again when that path is through. */
  ghost predicate ProtocolInv(s: State) {
    && Structure(s) && AliveExcept(s, s.renews.Keys)
    && CreatesOk(s) && SweepsOk(s) && RenewsOk(s)
  }

  lemma AllowedStepKeepsProtocol(s: State, e: Event)
    requires ProtocolInv(s) && Enabled(s, e) && Allowed(s, e)
    ensures ProtocolInv(Step(s, e))
  {
    StepKeepsStructure(s, e);
    AllowedStepKeepsAlive(s, e);
    if IsSection(e) {
      SectionKeepsCreates(s, e);
      SectionKeepsSweeps(s, e);
      SectionKeepsRenews(s, e);
    } else if IsCreateStep(e) {
      CreateStepKeepsOthers(s, e);
    } else if IsRenewStep(e) {
      RenewStepKeepsOthers(s, e);
    } else {
      QuietStep(s, e);
      SweepsFrame(s, Step(s, e), if IsSweepStep(e) then {e.w} else {});
    }
  }

  predicate IsCreateStep(e: Event) {
    e.CreateInsert? || e.CreateExec? || e.CreateMark? || e.RenewInsert?
  }

  predicate IsRenewStep(e: Event) {
    e.RenewRead? || e.RenewStop? || e.RenewRestore? || e.RenewMark?
  }

  predicate IsSweepStep(e: Event) {
    e.SweepSee? || e.SweepCheck? || e.SweepDone?
  }

  /** A row that leaves the set of those being restored is not running, or runs with a live instance. */
  lemma AllowedStepKeepsAlive(s: State, e: Event)
    requires ProtocolInv(s) && Enabled(s, e) && Allowed(s, e)
    ensures AliveExcept(Step(s, e), Step(s, e).renews.Keys)
  {
    AllowedStrandsOnlyRenewals(s, e);
    StepKeepsAliveExactly(s, e, s.renews.Keys);
    RenewalsLeft(s, e);
    var t := Step(s, e);
    forall c | c in s.renews && c !in t.renews && c < |t.containers| && t.containers[c].status.Running?
      ensures t.containers[c].inst in t.rt.alive
    {
      LeavingRowIsRight(s, e);
    }
  }

  /** Where a restore into a new container can come to its end. */
  predicate EndsRenewal(e: Event) {
    e.CreateMark? || e.RenewMark? || e.RenewCleanup?
  }

  lemma RenewalsLeft(s: State, e: Event)
    requires Enabled(s, e)
    ensures forall c :: c in s.renews && c !in Step(s, e).renews ==> EndsRenewal(e) && c == e.c
  {
    if IsSection(e) {
      hide Step;
      SectionsAreLocal(s, e);
    } else {
      hide Usage, Stop, Create, Restore, DemoteOverlays;
    }
  }

  lemma LeavingRowIsRight(s: State, e: Event)
    requires RenewsOk(s) && Enabled(s, e) && EndsRenewal(e) && e.c in s.renews && e.c !in Step(s, e).renews
    ensures var t := Step(s, e);
      e.c < |t.containers| && (t.containers[e.c].status.Running? ==> t.containers[e.c].inst in t.rt.alive)
  {
    hide Step;
    match e
    case CreateMark(c) => MarkedRowIsRight(s, c);
    case RenewMark(c) => RenewedRowIsRight(s, c);
    case RenewCleanup(c, stop, o) => CleanedRowIsRight(s, c, stop, o);
  }

  lemma MarkedRowIsRight(s: State, c: nat)
    requires RenewsOk(s) && Enabled(s, CreateMark(c)) && c in s.renews
    ensures var t := Step(s, CreateMark(c));
      c < |t.containers| && (c in t.renews || t.containers[c].status.Error?)
  {
  }

  lemma RenewedRowIsRight(s: State, c: nat)
    requires RenewsOk(s) && Enabled(s, RenewMark(c))
    ensures var t := Step(s, RenewMark(c));
      c < |t.containers| && (c in t.renews || t.containers[c].inst in t.rt.alive)
  {
    hide DemoteOverlays;
  }

  lemma CleanedRowIsRight(s: State, c: nat, stop: StopOutcome, o: DestroyOutcome)
    requires Enabled(s, RenewCleanup(c, stop, o))
    ensures var t := Step(s, RenewCleanup(c, stop, o));
      c < |t.containers| && t.containers[c].status.Destroyed?
  {
    hide DropOverlays, Stop, Destroy;
  }

  lemma AllowedStrandsOnlyRenewals(s: State, e: Event)
    requires ProtocolInv(s) && Enabled(s, e) && Allowed(s, e)
    ensures Stranded(s, e).None? || Stranded(s, e).value in s.renews
  {
    if e.SweepSnapshot? { assert SweepOk(s, e.w); }
  }

  /** Deletions, sweep reads, guest writes, workspaces and the clock change no container row and no instance. */
  lemma QuietStep(s: State, e: Event)
    requires Enabled(s, e) && !IsSection(e) && !IsCreateStep(e) && !IsRenewStep(e)
    ensures var t := Step(s, e);
      && t.containers == s.containers && t.creates == s.creates && t.renews == s.renews && t.rt.alive == s.rt.alive
      && (!IsSweepStep(e) ==> t.sweeps == s.sweeps)
      && (e.SweepSee? ==> t.sweeps == s.sweeps[e.w := Seen(e.c, s.containers[e.c].lastStarted)])
      && (e.SweepCheck? ==>
            || t.sweeps == s.sweeps - {e.w}
            || t.sweeps == s.sweeps[e.w := Idle(s.sweeps[e.w].cid, s.sweeps[e.w].stamp, s.clock, e.idleMs)])
      && (e.SweepDone? ==> t.sweeps == s.sweeps - {e.w})
  {
    hide Step;
    if IsSweepStep(e) {
      SweepStepEffect(s, e);
    } else {
      QuietTables(s, e);
    }
  }

  lemma QuietTables(s: State, e: Event)
    requires Enabled(s, e) && !IsSection(e) && !IsCreateStep(e) && !IsRenewStep(e) && !IsSweepStep(e)
    ensures var t := Step(s, e);
      && t.containers == s.containers && t.creates == s.creates && t.renews == s.renews && t.rt.alive == s.rt.alive
      && t.sweeps == s.sweeps
  {
    hide Usage, Stop, Create, Restore, DemoteOverlays;
  }

  lemma SweepStepEffect(s: State, e: Event)
    requires Enabled(s, e) && IsSweepStep(e)
    ensures var t := Step(s, e);
      && t == s.(sweeps := t.sweeps)
      && (e.SweepSee? ==> t.sweeps == s.sweeps[e.w := Seen(e.c, s.containers[e.c].lastStarted)])
      && (e.SweepCheck? ==>
            || t.sweeps == s.sweeps - {e.w}
            || t.sweeps == s.sweeps[e.w := Idle(s.sweeps[e.w].cid, s.sweeps[e.w].stamp, s.clock, e.idleMs)])
      && (e.SweepDone? ==> t.sweeps == s.sweeps - {e.w})
  {
    match e
    case SweepSee(_, _) =>
    case SweepCheck(_, _, _) =>
    case SweepDone(_) =>
  }

  /** The rows of sweeps in `changed` may be new, dropped or advanced, short of a release. */
  lemma SweepsFrame(s: State, t: State, changed: set<nat>)
    requires CreatesOk(s) && SweepsOk(s) && RenewsOk(s)
    requires t.containers == s.containers && t.creates == s.creates && t.renews == s.renews && t.rt.alive == s.rt.alive
    requires forall w :: w in t.sweeps && w !in changed ==> w in s.sweeps && t.sweeps[w] == s.sweeps[w]
    requires forall w :: w in t.sweeps && w in changed ==>
      && !t.sweeps[w].Released? && t.sweeps[w].cid < |s.containers|
      && ((w in s.sweeps && t.sweeps[w].cid == s.sweeps[w].cid) || s.containers[t.sweeps[w].cid].status.Running?)
    ensures CreatesOk(t) && SweepsOk(t) && RenewsOk(t)
  {
    forall w | w in t.sweeps ensures SweepOk(t, w) {
      if w in s.sweeps { assert SweepOk(s, w); }
    }
  }

  lemma CreateStepKeepsOthers(s: State, e: Event)
    requires CreatesOk(s) && SweepsOk(s) && RenewsOk(s) && Enabled(s, e) && IsCreateStep(e)
    ensures CreatesOk(Step(s, e)) && SweepsOk(Step(s, e)) && RenewsOk(Step(s, e))
  {
    hide CreatesOk, SweepsOk, RenewsOk, Create, MarkCreated, InsertRow;
    match e
    case CreateInsert(user, inst) => InsertKeepsOthers(s, e, user, inst);
    case RenewInsert(sid, user, inst) => InsertKeepsOthers(s, e, user, inst);
    case CreateExec(c, o) => ExecKeepsOthers(s, c, o);
    case CreateMark(c) => MarkKeepsOthers(s, c);
  }

  lemma MarkKeepsOthers(s: State, c: nat)
    requires CreatesOk(s) && SweepsOk(s) && RenewsOk(s) && Enabled(s, CreateMark(c))
    ensures var t := MarkCreated(s, c); CreatesOk(t) && SweepsOk(t) && RenewsOk(t)
  {
    OneRowFrame(s, MarkCreated(s, c), c);
  }

  lemma ExecKeepsOthers(s: State, c: nat, o: CreateOutcome)
    requires CreatesOk(s) && SweepsOk(s) && RenewsOk(s) && Enabled(s, CreateExec(c, o))
    ensures var t := Step(s, CreateExec(c, o)); CreatesOk(t) && SweepsOk(t) && RenewsOk(t)
  {
    OneRowFrame(s, Step(s, CreateExec(c, o)), c);
  }

  lemma InsertKeepsOthers(s: State, e: Event, user: nat, inst: string)
    requires CreatesOk(s) && SweepsOk(s) && RenewsOk(s) && Enabled(s, e)
    requires e == CreateInsert(user, inst) || (e.RenewInsert? && e.user == user && e.inst == inst)
    ensures CreatesOk(Step(s, e)) && SweepsOk(Step(s, e)) && RenewsOk(Step(s, e))
  {
    var t := Step(s, e);
    assert t.containers[|s.containers|].status.Creating?;
    OneRowFrame(s, t, |s.containers|);
  }

  lemma RenewStepKeepsOthers(s: State, e: Event)
    requires Structure(s) && CreatesOk(s) && SweepsOk(s) && RenewsOk(s) && Enabled(s, e) && IsRenewStep(e)
    ensures CreatesOk(Step(s, e)) && SweepsOk(Step(s, e)) && RenewsOk(Step(s, e))
  {
    RenewStepEffect(s, e);
    OneRowFrame(s, Step(s, e), e.c);
  }

  lemma NotBeingCreated(s: State, e: Event)
    requires RenewsOk(s) && Enabled(s, e) && IsRenewStep(e)
    ensures e.c !in s.creates
  {
  }

  lemma OtherInstance(s: State, c: nat, d: nat)
    requires Structure(s) && c < |s.containers| && d < |s.containers| && c != d
    ensures s.containers[c].inst != s.containers[d].inst
  {
  }

  lemma RenewStepEffect(s: State, e: Event)
    requires Structure(s) && CreatesOk(s) && RenewsOk(s) && Enabled(s, e) && IsRenewStep(e)
    ensures var t := Step(s, e);
      && |t.containers| == |s.containers| && t.sweeps == s.sweeps && t.creates == s.creates
      && e.c in s.renews && e.c !in s.creates
      && (forall d :: 0 <= d < |s.containers| && d != e.c ==> t.containers[d] == s.containers[d])
      && (forall d :: 0 <= d < |s.containers| && d != e.c && s.containers[d].inst in s.rt.alive
                      ==> s.containers[d].inst in t.rt.alive)
      && (forall d :: d in t.renews && d != e.c ==> d in s.renews && t.renews[d] == s.renews[d])
      && (e.c in t.renews && t.renews[e.c].Swapped? && t.renews[e.c].works ==> t.containers[e.c].inst in t.rt.alive)
  {
    hide Structure, DistinctInstances, CreatesOk, RenewsOk;
    NotBeingCreated(s, e);
    match e
    case RenewRead(c, image) =>
    case RenewStop(c, stop) =>
      forall d | 0 <= d < |s.containers| && d != c ensures s.containers[d].inst != s.containers[c].inst {
        OtherInstance(s, c, d);
      }
    case RenewRestore(c, o) =>
    case RenewMark(c) =>
  }

  /** A step of `create`, or of a restore into a new container, changes its own row and its own instance only. */
  lemma OneRowFrame(s: State, t: State, c: nat)
    requires CreatesOk(s) && SweepsOk(s) && RenewsOk(s) && (c in s.creates || c in s.renews || c == |s.containers|)
    requires |t.containers| >= |s.containers| && t.sweeps == s.sweeps && c < |t.containers|
    requires forall d :: 0 <= d < |s.containers| && d != c ==> t.containers[d] == s.containers[d]
    requires forall d :: 0 <= d < |s.containers| && d != c && s.containers[d].inst in s.rt.alive
                         ==> s.containers[d].inst in t.rt.alive
    requires forall d :: d in t.creates && d != c ==> d in s.creates && t.creates[d] == s.creates[d]
    requires forall d :: d in t.renews && d != c ==> d in s.renews && t.renews[d] == s.renews[d]
    requires c in t.creates ==> (c in s.creates || c == |s.containers|) && t.containers[c].status.Creating?
                                && (t.creates[c].Provisioned? ==> t.containers[c].inst in t.rt.alive)
    requires c in t.renews ==>
      && (c in s.renews || c == |s.containers|) && (c in t.creates ==> t.renews[c].Waiting?)
      && (t.renews[c].Swapped? && t.renews[c].works ==> t.containers[c].inst in t.rt.alive)
    ensures CreatesOk(t) && SweepsOk(t) && RenewsOk(t)
  {
    forall w | w in t.sweeps ensures SweepOk(t, w) {
      assert SweepOk(s, w);
    }
  }

  lemma SectionKeepsCreates(s: State, e: Event)
    requires ProtocolInv(s) && Enabled(s, e) && Allowed(s, e) && IsSection(e)
    ensures CreatesOk(Step(s, e))
  {
    var t := Step(s, e);
    var c := Target(s, e);
    SectionsAreLocal(s, e);
    hide Step, SectionResult;
    assert LocalRuntime(s.rt, t.rt, s.containers[c].inst);
    forall d | d in t.creates && t.creates[d].Provisioned? ensures t.containers[d].inst in t.rt.alive {
      assert s.containers[d].inst != s.containers[c].inst;
    }
  }

  lemma SectionKeepsRenews(s: State, e: Event)
    requires ProtocolInv(s) && Enabled(s, e) && Allowed(s, e) && IsSection(e)
    ensures RenewsOk(Step(s, e))
  {
    var t := Step(s, e);
    var c := Target(s, e);
    SectionsAreLocal(s, e);
    hide Step, SectionResult;
    assert LocalRuntime(s.rt, t.rt, s.containers[c].inst);
    forall d | d in t.renews && d != c && t.renews[d].Swapped? && t.renews[d].works
      ensures t.containers[d].inst in t.rt.alive
    {
      assert s.containers[d].inst != s.containers[c].inst;
    }
  }

  /** What a section does to the sweeps. */
  lemma SweepsAfterSection(s: State, e: Event)
    requires Enabled(s, e) && IsSection(e)
    ensures var t := Step(s, e); var c := Target(s, e);
      match e
      case SweepRelease(w, _) =>
        || t.sweeps == s.sweeps - {w}
        || (t.sweeps == s.sweeps[w := Released(c)] && c < |t.containers| && !t.containers[c].status.Running?)
      case SweepSnapshot(w, _, _) => t.sweeps == s.sweeps - {w}
      case _ => t.sweeps == s.sweeps
  {
    hide SnapshotSection;
    SectionsAreLocal(s, e);
  }

  lemma SectionKeepsSweeps(s: State, e: Event)
    requires ProtocolInv(s) && Enabled(s, e) && Allowed(s, e) && IsSection(e)
    ensures SweepsOk(Step(s, e))
  {
    var t := Step(s, e);
    var c := Target(s, e);
    SectionsAreLocal(s, e);
    SweepsAfterSection(s, e);
    hide Step, SectionResult, Structure, AliveExcept, RenewsOk, CreatesOk;
    forall w | w in t.sweeps ensures SweepOk(t, w) {
      assert SweepOk(s, w);
      assert s.sweeps[w].Released? && s.sweeps[w].cid == c ==> ReleasedBySweep(s, c);
    }
    forall v, w | v in t.sweeps && w in t.sweeps && t.sweeps[v].Released? && t.sweeps[w].Released?
                  && t.sweeps[v].cid == t.sweeps[w].cid
      ensures v == w
    {
      if e.SweepRelease? && t.sweeps[v].cid == c {
        assert !ReleasedBySweep(s, c);
        assert v == e.w && w == e.w;
      }
    }
  }

  lemma {:induction false} RunsKeepProtocol(s: State, es: seq<Event>)
    requires ProtocolInv(s) && Runs(s, es) && AllowedRun(s, es)
    ensures ProtocolInv(After(s, es))
    decreases |es|
  {
    if es != [] {
      AllowedStepKeepsProtocol(s, es[0]);
      RunsKeepProtocol(Step(s, es[0]), es[1..]);
    }
  }

  /** Over every run from the empty platform that keeps to the protocol, whatever the executor does: between
      steps, a row that says running and is not in the middle of an unlocked restore has a live instance. */
  lemma RunningRowsStayAlive(es: seq<Event>)
    requires Runs(INITIAL, es) && AllowedRun(INITIAL, es)
    ensures var t := After(INITIAL, es);
      forall c :: 0 <= c < |t.containers| && t.containers[c].status.Running? && c !in t.renews
                  ==> t.containers[c].inst in t.rt.alive
  {
    RunsKeepProtocol(INITIAL, es);
  }

  // ---- the provisos are needed ----

  lemma SuccessfulStartRuns(s: State, c: nat, image: bool, o: CreateOutcome, ro: RestoreOutcome)
    requires c < |s.containers| && StartSection(s, c, image, o, ro).1.Done?
    ensures StartSection(s, c, image, o, ro).0.containers[c].status.Running?
  {
  }

  /** A snapshot that does not restart strands any running row whose stop takes effect. */
  lemma SnapshotWithoutRestartStrands(s: State, c: nat, name: string, w: SnapshotWorld)
    requires c < |s.containers| && s.containers[c].status.Running? && w.stop.StopDone?
    requires SnapshotRefusal(s, c, name, w).Done?
    ensures var t := SnapshotSection(s, c, name, false, w).0;
      c < |t.containers| && t.containers[c].status.Running? && t.containers[c].inst !in t.rt.alive
  {
    var quiet := s.(rt := Stop(s.rt, s.containers[c].inst, w.stop));
    CopyIsLocal(quiet, c, name, w);
  }

  /** In the gap between release and auto snapshot a successful start makes the row run again; the
      sweep's snapshot then stops the instance and leaves the row marked running. */
  lemma StartInTheGapIsStranded(s: State, w: nat, c: nat, name: string, world: SnapshotWorld,
                                image: bool, o: CreateOutcome, ro: RestoreOutcome)
    requires w in s.sweeps && s.sweeps[w] == Released(c) && c < |s.containers| && s.containers[c].status.Stopped?
    requires StartSection(s, c, image, o, ro).1.Done?
    requires world.stop.StopDone? && c < |StartSection(s, c, image, o, ro).0.containers|
    requires SnapshotRefusal(StartSection(s, c, image, o, ro).0, c, name, world).Done?
    ensures var t := Step(s, StartCall(c, image, o, ro));
      && Enabled(t, SweepSnapshot(w, name, world))
      && var u := Step(t, SweepSnapshot(w, name, world));
         c < |u.containers| && u.containers[c].status.Running? && u.containers[c].inst !in u.rt.alive
  {
    StartIsLocal(s, c, image, o, ro);
    SuccessfulStartRuns(s, c, image, o, ro);
    SnapshotWithoutRestartStrands(StartSection(s, c, image, o, ro).0, c, name, world);
  }

  /** A destroy that lands before `create` has marked its row kills the instance; the mark then says running. */
  lemma DestroyDuringCreateIsStranded(s: State, c: nat, stop: StopOutcome)
    requires c in s.creates && s.creates[c].Provisioned? && c < |s.containers| && s.containers[c].status.Creating?
    ensures var t := Step(s, DestroyCall(c, stop, DestroyDone));
      && Enabled(t, CreateMark(c))
      && var u := Step(t, CreateMark(c));
         u.containers[c].status.Running? && u.containers[c].inst !in u.rt.alive
  {
  }

  /** The unlocked restore into a new container: a locked `stop` or `destroy` that lands after its executor
      restore is overtaken by its mark. The row ends up running, with no instance, and out of destroyed. */
  lemma CallDuringRenewalIsStranded(s: State, c: nat, e: Event)
    requires c < |s.containers| && c in s.renews && s.renews[c].Swapped? && s.renews[c].works
    requires s.containers[c].status.Running?
    requires e == StopCall(c, StopDone) || e == DestroyCall(c, StopDone, DestroyDone)
    ensures var t := Step(s, e);
      && t.containers[c].status == (if e.StopCall? then Stopped else Destroyed)
      && Enabled(t, RenewMark(c))
      && var u := Step(t, RenewMark(c));
         u.containers[c].status.Running? && u.containers[c].inst !in u.rt.alive && c !in u.renews
  {
  }
}

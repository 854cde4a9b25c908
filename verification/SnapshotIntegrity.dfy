/** A recorded snapshot's file keeps what was copied, through every later step, until the row is deleted. */
module SnapshotIntegrity {
  import opened Common
  import opened R = Runtime
  import opened Platform
  import opened Lifecycle

  ghost predicate Recorded(s: State, sid: nat) {
    sid < |s.snapshots| && s.snapshots[sid].Some?
  }

  ghost predicate BeingDeleted(s: State, sid: nat) {
    exists d :: d in s.deletes && s.deletes[d].sid == sid
  }

  ghost predicate FileIntact(s: State, sid: nat)
    requires Recorded(s, sid)
  {
    var x := s.snapshots[sid].value;
    x.path in s.rt.files && s.rt.files[x.path] == x.taken
  }

  ghost predicate Intact(s: State) {
    forall sid: nat :: Recorded(s, sid) && !BeingDeleted(s, sid) ==> FileIntact(s, sid)
  }

  /** A deletion that removes the file of another row: its own row is gone and the path was recorded anew. */
  ghost predicate StaleRemoval(s: State, e: Event)
    requires Enabled(s, e)
  {
    e.DeleteFile? && e.ok
    && exists sid: nat :: && Recorded(s, sid) && !BeingDeleted(s, sid)
                          && s.snapshots[sid].value.path == s.deletes[e.d].path
  }

  // ---- no section touches a recorded file ----

  /** Of the snapshot files, at most the one named `name` of instance `inst` differs. */
  ghost predicate OtherSnapshotFilesKept(r: Runtime, q: Runtime, inst: string, name: string) {
    forall p: Path :: p.SnapshotAt? && p != SnapshotAt(inst, name) ==> SameFile(r, q, p)
  }

  ghost predicate SnapshotFilesKept(r: Runtime, q: Runtime) {
    forall p: Path :: p.SnapshotAt? ==> SameFile(r, q, p)
  }

  lemma RuntimeKeepsSnapshotFiles(r: Runtime, inst: string)
    ensures forall o :: SnapshotFilesKept(r, Stop(r, inst, o))
    ensures forall o :: SnapshotFilesKept(r, Create(r, inst, o))
    ensures forall p, o :: SnapshotFilesKept(r, Restore(r, inst, p, o))
    ensures forall h, o :: SnapshotFilesKept(r, Destroy(r, inst, h, o))
    ensures forall name, h, o :: OtherSnapshotFilesKept(r, Copy(r, inst, name, h, o), inst, name)
    ensures forall name, ok :: OtherSnapshotFilesKept(r, RemovePath(r, SnapshotAt(inst, name), ok), inst, name)
  {
  }

  lemma RestoreFromKeepsFiles(s: State, c: nat, snap: Snapshot, image: bool, stop: StopOutcome, o: RestoreOutcome)
    requires c < |s.containers|
    ensures SnapshotFilesKept(s.rt, RestoreFrom(s, c, snap, image, stop, o).0.rt)
  {
    var inst := s.containers[c].inst;
    RuntimeKeepsSnapshotFiles(s.rt, inst);
    RuntimeKeepsSnapshotFiles(if s.containers[c].status.Running? then Stop(s.rt, inst, stop) else s.rt, inst);
  }

  lemma StartKeepsFiles(s: State, c: nat, image: bool, o: CreateOutcome, ro: RestoreOutcome)
    requires c < |s.containers|
    ensures SnapshotFilesKept(s.rt, StartSection(s, c, image, o, ro).0.rt)
  {
    RuntimeKeepsSnapshotFiles(s.rt, s.containers[c].inst);
    if LatestAuto(s.snapshots, c).Some? {
      RestoreFromKeepsFiles(s, c, s.snapshots[LatestAuto(s.snapshots, c).value].value, image, StopDone, ro);
    }
  }

  lemma PlainSectionsKeepFiles(s: State, e: Event)
    requires Enabled(s, e) && IsSection(e) && !e.SnapshotCall? && !e.SweepSnapshot?
    ensures SnapshotFilesKept(s.rt, SectionResult(s, e).rt)
    ensures SectionResult(s, e).snapshots == s.snapshots
  {
    OthersAppendNothing(s, e);
    RuntimeKeepsSnapshotFiles(s.rt, s.containers[Target(s, e)].inst);
    match e
    case StartCall(c, image, o, ro) => StartKeepsFiles(s, c, image, o, ro);
    case RestoreCall(c, sid, image, stop, o) =>
      if sid < |s.snapshots| && s.snapshots[sid].Some? {
        RestoreFromKeepsFiles(s, c, s.snapshots[sid].value, image, stop, o);
      }
    case DestroyCall(c, stop, o) =>
      RuntimeKeepsSnapshotFiles(Stop(s.rt, s.containers[c].inst, stop), s.containers[c].inst);
    case RenewCleanup(c, stop, o) =>
      RuntimeKeepsSnapshotFiles(Stop(s.rt, s.containers[c].inst, stop), s.containers[c].inst);
    case StopCall(c, o) =>
    case SweepRelease(w, o) =>
  }

  /** Copying writes one path, and a recorded copy holds exactly what the overlay held. */
  lemma CopyRecordsContent(s: State, c: nat, name: string, w: SnapshotWorld)
    requires c < |s.containers|
    ensures var (t, reply) := CopyAndRecord(s, c, name, w);
      var p := SnapshotAt(s.containers[c].inst, name);
      && OtherSnapshotFilesKept(s.rt, t.rt, s.containers[c].inst, name)
      && (t.snapshots == s.snapshots <==> !reply.Done?)
      && (reply.Done? ==>
            && OverlayAt(s.containers[c].inst) in s.rt.files
            && t.snapshots == s.snapshots + [t.snapshots[|s.snapshots|]] && t.snapshots[|s.snapshots|].Some?
            && t.snapshots[|s.snapshots|].value.path == p
            && t.snapshots[|s.snapshots|].value.name == name && t.snapshots[|s.snapshots|].value.cid == c
            && t.snapshots[|s.snapshots|].value.taken == s.rt.files[OverlayAt(s.containers[c].inst)]
            && p in t.rt.files && t.rt.files[p] == t.snapshots[|s.snapshots|].value.taken)
  {
    var row := s.containers[c];
    var p := SnapshotAt(row.inst, name);
    RuntimeKeepsSnapshotFiles(s.rt, row.inst);
    var r1 := Copy(s.rt, row.inst, name, row.hasOverlay, w.copy);
    RuntimeKeepsSnapshotFiles(r1, row.inst);
    forall x: Path | x.SnapshotAt? && x != p ensures SameFile(s.rt, RemovePath(r1, p, w.orphanRemoved), x) {
      assert SameFile(s.rt, r1, x) && SameFile(r1, RemovePath(r1, p, w.orphanRemoved), x);
    }
  }

  lemma CopyKeepsOverlay(s: State, c: nat, name: string, w: SnapshotWorld)
    requires c < |s.containers|
    ensures SameFile(s.rt, CopyAndRecord(s, c, name, w).0.rt, OverlayAt(s.containers[c].inst))
  {
    hide Usage, UserNameTaken, CurrentOverlay;
  }

  /** No other snapshot file changes, and a row that appears names the new file and holds its content. */
  ghost predicate AddsAtMostItsCopy(s: State, t: State, inst: string, name: string) {
    && OtherSnapshotFilesKept(s.rt, t.rt, inst, name)
    && (t.snapshots == s.snapshots
        || (&& |t.snapshots| == |s.snapshots| + 1 && t.snapshots == s.snapshots + [t.snapshots[|s.snapshots|]]
            && t.snapshots[|s.snapshots|].Some?
            && t.snapshots[|s.snapshots|].value.path == SnapshotAt(inst, name)
            && FileIntact(t, |s.snapshots|)))
  }

  lemma LaterFilesKept(s: State, t: State, u: State, inst: string, name: string)
    requires AddsAtMostItsCopy(s, t, inst, name) && u.snapshots == t.snapshots && SnapshotFilesKept(t.rt, u.rt)
    ensures AddsAtMostItsCopy(s, u, inst, name)
  {
    assert SameFile(t.rt, u.rt, SnapshotAt(inst, name));
    forall p: Path | p.SnapshotAt? && p != SnapshotAt(inst, name) ensures SameFile(s.rt, u.rt, p) {
      assert SameFile(s.rt, t.rt, p) && SameFile(t.rt, u.rt, p);
    }
  }

  lemma SnapshotRecordsContent(s: State, c: nat, name: string, restartAfter: bool, w: SnapshotWorld)
    requires c < |s.containers| && SnapshotRefusal(s, c, name, w).Done?
    ensures AddsAtMostItsCopy(s, SnapshotSection(s, c, name, restartAfter, w).0, s.containers[c].inst, name)
  {
    hide CopyAndRecord, CountSnapshots, NameTaken, Create, Stop, AddsAtMostItsCopy, Local;
    var row := s.containers[c];
    var quiet := if row.status.Running? then s.(rt := Stop(s.rt, row.inst, w.stop)) else s;
    RuntimeKeepsSnapshotFiles(s.rt, row.inst);
    var t := CopyAndRecord(quiet, c, name, w).0;
    QuietCopyAddsItsCopy(s, quiet, c, name, w);
    CopyIsLocal(quiet, c, name, w);
    RuntimeKeepsSnapshotFiles(t.rt, row.inst);
    LaterFilesKept(s, t, SnapshotSection(s, c, name, restartAfter, w).0, row.inst, name);
  }

  lemma QuietCopyAddsItsCopy(s: State, quiet: State, c: nat, name: string, w: SnapshotWorld)
    requires c < |s.containers| && quiet == s.(rt := quiet.rt) && SnapshotFilesKept(s.rt, quiet.rt)
    ensures AddsAtMostItsCopy(s, CopyAndRecord(quiet, c, name, w).0, s.containers[c].inst, name)
  {
    hide CopyAndRecord;
    CopyRecordsContent(quiet, c, name, w);
    var t := CopyAndRecord(quiet, c, name, w).0;
    forall p: Path | p.SnapshotAt? && p != SnapshotAt(s.containers[c].inst, name) ensures SameFile(s.rt, t.rt, p) {
      assert SameFile(s.rt, quiet.rt, p) && SameFile(quiet.rt, t.rt, p);
    }
  }

  lemma SectionsKeepRecordedFiles(s: State, e: Event, sid: nat)
    requires Structure(s) && Enabled(s, e) && IsSection(e) && Recorded(s, sid)
    ensures var t := SectionResult(s, e);
      && Recorded(t, sid) && t.snapshots[sid] == s.snapshots[sid]
      && SameFile(s.rt, t.rt, s.snapshots[sid].value.path)
  {
    assert SnapshotRowOk(s, s.snapshots[sid].value);
    if e.SnapshotCall? || e.SweepSnapshot? {
      var c := Target(s, e);
      var (name, w, restartAfter) := if e.SnapshotCall? then (e.name, e.world, true) else (e.name, e.world, false);
      if SnapshotRefusal(s, c, name, w).Done? {
        SnapshotRecordsContent(s, c, name, restartAfter, w);
        NewPathIsFree(s, c, name, sid);
      }
    } else {
      PlainSectionsKeepFiles(s, e);
    }
  }

  lemma NewRowsAreIntact(s: State, e: Event, sid: nat)
    requires Enabled(s, e) && IsSection(e)
    requires sid >= |s.snapshots| && Recorded(SectionResult(s, e), sid)
    ensures FileIntact(SectionResult(s, e), sid)
  {
    if e.SnapshotCall? || e.SweepSnapshot? {
      var c := Target(s, e);
      var (name, w, restartAfter) := if e.SnapshotCall? then (e.name, e.world, true) else (e.name, e.world, false);
      if SnapshotRefusal(s, c, name, w).Done? {
        SnapshotRecordsContent(s, c, name, restartAfter, w);
      }
    } else {
      PlainSectionsKeepFiles(s, e);
    }
  }

  /** Outside the sections only a deletion's file step touches a snapshot file, and only its own path. */
  lemma OtherStepsKeepFiles(s: State, e: Event, sid: nat)
    requires Structure(s) && Enabled(s, e) && !IsSection(e) && Recorded(s, sid)
    ensures var t := Step(s, e); var p := s.snapshots[sid].value.path;
      && |t.snapshots| == |s.snapshots|
      && (Recorded(t, sid) ==> t.snapshots[sid] == s.snapshots[sid])
      && ((e.DeleteFile? && e.ok && p == s.deletes[e.d].path) || SameFile(s.rt, t.rt, p))
  {
    assert SnapshotRowOk(s, s.snapshots[sid].value);
    OtherStepFiles(s, e);
    OtherStepRows(s, e);
    if e.CreateExec? || e.RenewStop? || e.RenewRestore? {
      RuntimeKeepsSnapshotFiles(s.rt, s.containers[e.c].inst);
    }
  }

  lemma OtherStepFiles(s: State, e: Event)
    requires Enabled(s, e) && !IsSection(e)
    ensures Step(s, e).rt
            == (match e
                case CreateExec(c, o) => Create(s.rt, s.containers[c].inst, o)
                case DeleteFile(d, ok) => RemovePath(s.rt, s.deletes[d].path, ok)
                case GuestWrite(inst, content) => s.rt.(files := s.rt.files[OverlayAt(inst) := content])
                case RenewStop(c, stop) =>
                  if s.renews[c].wasRunning then Stop(s.rt, s.containers[c].inst, stop) else s.rt
                case RenewRestore(c, o) => Restore(s.rt, s.containers[c].inst, s.renews[c].path, o)
                case _ => s.rt)
  {
    hide Usage, Stop, Create, Restore, RemovePath, DemoteOverlays;
  }

  lemma OtherStepRows(s: State, e: Event)
    requires Enabled(s, e) && !IsSection(e)
    ensures Step(s, e).snapshots
            == (match e
                case DeleteRow(d) => s.snapshots[s.deletes[d].sid := None]
                case _ => s.snapshots)
  {
    hide Usage, Stop, Create, Restore, RemovePath, DemoteOverlays;
  }

  lemma DeletionsPersist(s: State, e: Event, sid: nat)
    requires Enabled(s, e) && BeingDeleted(s, sid) && Recorded(Step(s, e), sid)
    ensures BeingDeleted(Step(s, e), sid)
  {
    var d :| d in s.deletes && s.deletes[d].sid == sid;
    var t := Step(s, e);
    hide Step;
    if IsSection(e) {
      SectionsAreLocal(s, e);
    } else {
      OtherStepDeletes(s, e);
      OtherStepRows(s, e);
    }
    assert d in t.deletes && t.deletes[d].sid == sid;
  }

  lemma NoNewDeletion(s: State, e: Event, sid: nat)
    requires Enabled(s, e) && BeingDeleted(Step(s, e), sid) && !(e.DeleteRead? && e.sid == sid)
    ensures BeingDeleted(s, sid)
  {
    var t := Step(s, e);
    hide Step;
    if IsSection(e) {
      SectionsAreLocal(s, e);
    } else {
      OtherStepDeletes(s, e);
      OtherStepRows(s, e);
    }
    var d :| d in t.deletes && t.deletes[d].sid == sid;
    assert d in s.deletes && s.deletes[d].sid == sid;
  }

  /** The exact step condition: every step keeps every recorded snapshot's content, except the removal
      step of a deletion whose path now belongs to another recorded row. */
  lemma StepKeepsIntactExactly(s: State, e: Event)
    requires Structure(s) && Intact(s) && Enabled(s, e)
    ensures Intact(Step(s, e)) <==> !StaleRemoval(s, e)
  {
    var t := Step(s, e);
    if IsSection(e) {
      SectionsAreLocal(s, e);
      forall sid: nat | Recorded(t, sid) && !BeingDeleted(t, sid) ensures FileIntact(t, sid) {
        if sid < |s.snapshots| {
          SectionsKeepRecordedFiles(s, e, sid);
          if BeingDeleted(s, sid) { DeletionsPersist(s, e, sid); }
        } else {
          NewRowsAreIntact(s, e, sid);
        }
      }
    } else {
      forall sid: nat | Recorded(t, sid) && !BeingDeleted(t, sid)
        ensures Recorded(s, sid) && !BeingDeleted(s, sid) && t.snapshots[sid] == s.snapshots[sid]
        ensures !StaleRemoval(s, e) ==> FileIntact(t, sid)
      {
        OtherStepLength(s, e);
        if BeingDeleted(s, sid) { DeletionsPersist(s, e, sid); }
        OtherStepsKeepFiles(s, e, sid);
      }
      if StaleRemoval(s, e) {
        var sid: nat :| Recorded(s, sid) && !BeingDeleted(s, sid) && s.snapshots[sid].value.path == s.deletes[e.d].path;
        if BeingDeleted(t, sid) { NoNewDeletion(s, e, sid); }
        assert Recorded(t, sid) && !FileIntact(t, sid);
      }
    }
  }

  lemma OtherStepLength(s: State, e: Event)
    requires Enabled(s, e) && !IsSection(e)
    ensures |Step(s, e).snapshots| == |s.snapshots|
    ensures forall i :: 0 <= i < |s.snapshots| && s.snapshots[i].None? ==> Step(s, e).snapshots[i].None?
  {
    hide Step;
    OtherStepRows(s, e);
  }

  // ---- whole runs ----

  /** No second deletion of a snapshot starts while one is unfinished. */
  ghost predicate OneDeletionAtATime(s: State, es: seq<Event>)
    requires Runs(s, es)
    decreases |es|
  {
    es == []
    || ((es[0].DeleteRead? ==> !BeingDeleted(s, es[0].sid)) && OneDeletionAtATime(Step(s, es[0]), es[1..]))
  }

  ghost predicate DeletionsOk(s: State) {
    && (forall d :: d in s.deletes ==>
          Recorded(s, s.deletes[d].sid) && s.deletes[d].path == s.snapshots[s.deletes[d].sid].value.path)
    && (forall d, f :: d in s.deletes && f in s.deletes && s.deletes[d].sid == s.deletes[f].sid ==> d == f)
  }

  /** A row that survives a step is unchanged by it. */
  lemma SurvivingRowUnchanged(s: State, e: Event, sid: nat)
    requires Structure(s) && Enabled(s, e) && Recorded(s, sid) && Recorded(Step(s, e), sid)
    ensures Step(s, e).snapshots[sid] == s.snapshots[sid]
  {
    if IsSection(e) {
      SectionsAreLocal(s, e);
      SectionsKeepRecordedFiles(s, e, sid);
    } else {
      OtherStepsKeepFiles(s, e, sid);
    }
  }

  lemma DeletionsFrame(s: State, t: State)
    requires DeletionsOk(s)
    requires forall d :: d in t.deletes ==>
      && d in s.deletes && t.deletes[d].sid == s.deletes[d].sid && t.deletes[d].path == s.deletes[d].path
      && Recorded(t, t.deletes[d].sid) && t.snapshots[t.deletes[d].sid] == s.snapshots[t.deletes[d].sid]
    ensures DeletionsOk(t)
  {
  }

  lemma SectionKeepsDeletions(s: State, e: Event)
    requires Structure(s) && DeletionsOk(s) && Enabled(s, e) && IsSection(e)
    ensures DeletionsOk(Step(s, e))
  {
    var t := Step(s, e);
    SectionsAreLocal(s, e);
    forall d | d in t.deletes
      ensures Recorded(t, t.deletes[d].sid) && t.snapshots[t.deletes[d].sid] == s.snapshots[t.deletes[d].sid]
    {
      SectionsKeepRecordedFiles(s, e, s.deletes[d].sid);
    }
    DeletionsFrame(s, t);
  }

  lemma ReadKeepsDeletions(s: State, d: nat, sid: nat)
    requires DeletionsOk(s) && Enabled(s, DeleteRead(d, sid)) && !BeingDeleted(s, sid)
    ensures DeletionsOk(Step(s, DeleteRead(d, sid)))
  {
    assert forall f :: f in s.deletes && s.deletes[f].sid == sid ==> BeingDeleted(s, sid);
  }

  lemma DeletionsOkStep(s: State, e: Event)
    requires Structure(s) && DeletionsOk(s) && Enabled(s, e) && (e.DeleteRead? ==> !BeingDeleted(s, e.sid))
    ensures DeletionsOk(Step(s, e))
  {
    hide Step, Structure;
    if IsSection(e) {
      SectionKeepsDeletions(s, e);
    } else if e.DeleteRead? {
      ReadKeepsDeletions(s, e.d, e.sid);
    } else {
      DeletionSteps(s, e);
      DeletionsFrame(s, Step(s, e));
    }
  }

  lemma DeletionSteps(s: State, e: Event)
    requires Enabled(s, e) && !IsSection(e) && !e.DeleteRead?
    ensures var t := Step(s, e);
      if e.DeleteRow? then
        t.deletes == s.deletes - {e.d} && t.snapshots == s.snapshots[s.deletes[e.d].sid := None]
      else if e.DeleteFile? then
        t.deletes == s.deletes[e.d := s.deletes[e.d].(tried := true)] && t.snapshots == s.snapshots
      else t.deletes == s.deletes && t.snapshots == s.snapshots
  {
    OtherStepRows(s, e);
    OtherStepDeletes(s, e);
    hide Step;
  }

  predicate IsDeletion(e: Event) {
    e.DeleteRead? || e.DeleteFile? || e.DeleteRow?
  }

  lemma OtherStepDeletes(s: State, e: Event)
    requires Enabled(s, e) && !IsSection(e)
    ensures Step(s, e).deletes
            == (match e
                case DeleteRead(d, sid) => s.deletes[d := Deletion(sid, s.snapshots[sid].value.path, false)]
                case DeleteRow(d) => s.deletes - {d}
                case DeleteFile(d, _) => s.deletes[d := s.deletes[d].(tried := true)]
                case _ => s.deletes)
  {
    if !IsDeletion(e) {
      hide Step;
      NoDeletionStep(s, e);
    }
  }

  lemma NoDeletionStep(s: State, e: Event)
    requires Enabled(s, e) && !IsSection(e) && !IsDeletion(e)
    ensures Step(s, e).deletes == s.deletes
  {
    hide Step;
    if IsSweepStep(e) {
      SweepStepEffect(s, e);
    } else if IsCreateStep(e) || IsRenewStep(e) {
      ContainerStepDeletes(s, e);
    } else {
      TableStepDeletes(s, e);
    }
  }

  lemma ContainerStepDeletes(s: State, e: Event)
    requires Enabled(s, e) && (IsCreateStep(e) || IsRenewStep(e))
    ensures Step(s, e).deletes == s.deletes
  {
    hide Stop, Create, Restore, DemoteOverlays;
    match e
    case CreateInsert(_, _) =>
    case RenewInsert(_, _, _) =>
    case CreateExec(_, _) =>
    case CreateMark(_) =>
    case RenewRead(_, _) =>
    case RenewStop(_, _) =>
    case RenewRestore(_, _) =>
    case RenewMark(_) =>
  }

  lemma TableStepDeletes(s: State, e: Event)
    requires Enabled(s, e) && !IsSection(e) && !IsDeletion(e)
    requires !IsSweepStep(e) && !IsCreateStep(e) && !IsRenewStep(e)
    ensures Step(s, e).deletes == s.deletes
  {
    hide Usage;
  }

  lemma NoStaleRemoval(s: State, e: Event)
    requires Structure(s) && DeletionsOk(s) && Enabled(s, e)
    ensures !StaleRemoval(s, e)
  {
    if e.DeleteFile? {
      var own := s.deletes[e.d].sid;
      assert BeingDeleted(s, own);
      forall sid: nat | Recorded(s, sid) && s.snapshots[sid].value.path == s.deletes[e.d].path ensures sid == own {}
    }
  }

  ghost predicate IntegrityInv(s: State) {
    Structure(s) && Intact(s) && DeletionsOk(s)
  }

  lemma StepKeepsIntegrity(s: State, e: Event)
    requires IntegrityInv(s) && Enabled(s, e) && (e.DeleteRead? ==> !BeingDeleted(s, e.sid))
    ensures IntegrityInv(Step(s, e))
  {
    StepKeepsStructure(s, e);
    DeletionsOkStep(s, e);
    NoStaleRemoval(s, e);
    StepKeepsIntactExactly(s, e);
  }

  lemma {:induction false} RunsKeepIntegrity(s: State, es: seq<Event>)
    requires IntegrityInv(s) && Runs(s, es) && OneDeletionAtATime(s, es)
    ensures IntegrityInv(After(s, es))
    decreases |es|
  {
    if es != [] {
      StepKeepsIntegrity(s, es[0]);
      RunsKeepIntegrity(Step(s, es[0]), es[1..]);
    }
  }

  lemma {:induction false} RecordedRowsUnchanged(s: State, es: seq<Event>, sid: nat)
    requires IntegrityInv(s) && Runs(s, es) && OneDeletionAtATime(s, es)
    requires Recorded(s, sid) && Recorded(After(s, es), sid)
    ensures After(s, es).snapshots[sid] == s.snapshots[sid]
    decreases |es|
  {
    if es != [] {
      var u := Step(s, es[0]);
      StepKeepsIntegrity(s, es[0]);
      StepKeepsLength(s, es[0]);
      RowsOnlyLeave(u, es[1..], sid);
      SurvivingRowUnchanged(s, es[0], sid);
      RecordedRowsUnchanged(u, es[1..], sid);
    }
  }

  /** Over every run from the empty platform in which no snapshot is deleted twice at once: a snapshot
      recorded at some point and still recorded and not under deletion later has an unchanged row, and its
      file holds exactly what was copied when it was taken. */
  lemma RecordedSnapshotsKeepContent(past: seq<Event>, es: seq<Event>, sid: nat)
    requires Runs(INITIAL, past) && OneDeletionAtATime(INITIAL, past)
    requires Runs(After(INITIAL, past), es) && OneDeletionAtATime(After(INITIAL, past), es)
    requires Recorded(After(INITIAL, past), sid)
    requires var t := After(After(INITIAL, past), es); Recorded(t, sid) && !BeingDeleted(t, sid)
    ensures var s := After(INITIAL, past); var t := After(s, es);
      && t.snapshots[sid] == s.snapshots[sid]
      && s.snapshots[sid].value.path in t.rt.files
      && t.rt.files[s.snapshots[sid].value.path] == s.snapshots[sid].value.taken
  {
    var s := After(INITIAL, past);
    RunsKeepIntegrity(INITIAL, past);
    RunsKeepIntegrity(s, es);
    RecordedRowsUnchanged(s, es, sid);
    assert FileIntact(After(s, es), sid);
  }

  lemma StepKeepsLength(s: State, e: Event)
    requires Enabled(s, e)
    ensures |Step(s, e).snapshots| >= |s.snapshots|
    ensures forall i :: 0 <= i < |s.snapshots| && s.snapshots[i].None? ==> Step(s, e).snapshots[i].None?
  {
    if IsSection(e) {
      SectionsAreLocal(s, e);
      var t := Step(s, e);
      forall i | 0 <= i < |s.snapshots| ensures t.snapshots[i] == s.snapshots[i] {
        assert t.snapshots[i] == t.snapshots[..|s.snapshots|][i];
      }
    } else {
      OtherStepLength(s, e);
    }
  }

  /** A row absent or deleted at an id already given out never comes back. */
  lemma {:induction false} RowsOnlyLeave(s: State, es: seq<Event>, sid: nat)
    requires Runs(s, es) && sid < |s.snapshots|
    ensures sid < |After(s, es).snapshots|
    ensures Recorded(After(s, es), sid) ==> Recorded(s, sid)
    decreases |es|
  {
    if es != [] {
      StepKeepsLength(s, es[0]);
      RowsOnlyLeave(Step(s, es[0]), es[1..], sid);
    }
  }

  /** The condition is needed: with two deletions of one snapshot under way, the first may finish, the
      name may be taken again by a new snapshot, and the second then removes the new snapshot's file. */
  lemma OverlappingDeletionsLoseASnapshot(s: State, d: nat, f: nat, c: nat, name: string, w: SnapshotWorld)
    requires d != f && d in s.deletes && f in s.deletes && s.deletes[d].sid == s.deletes[f].sid
    requires s.deletes[d].tried && !s.deletes[f].tried && Recorded(s, s.deletes[d].sid)
    requires c < |s.containers| && s.deletes[f].path == SnapshotAt(s.containers[c].inst, name)
    requires SnapshotSection(Step(s, DeleteRow(d)), c, name, true, w).1.Done?
    requires |s.snapshots| !in set x | x in s.deletes :: s.deletes[x].sid
    ensures var t := Step(Step(s, DeleteRow(d)), SnapshotCall(c, name, w));
      && Enabled(t, DeleteFile(f, true))
      && Recorded(t, |s.snapshots|) && !BeingDeleted(t, |s.snapshots|)
      && !FileIntact(Step(t, DeleteFile(f, true)), |s.snapshots|)
  {
    hide Usage, UserNameTaken, CurrentOverlay, CountSnapshots, NameTaken, Create, CopyAndRecord, SameFile;
    var s1 := Step(s, DeleteRow(d));
    SnapshotIsLocal(s1, c, name, true, w);
    SnapshotRecordsContent(s1, c, name, true, w);
    var t := Step(s1, SnapshotCall(c, name, w));
    var row := s1.containers[c];
    var quiet := if row.status.Running? then s1.(rt := Stop(s1.rt, row.inst, w.stop)) else s1;
    CopyRecordsContent(quiet, c, name, w);
    forall x | x in t.deletes ensures t.deletes[x].sid != |s.snapshots| {
      assert s.deletes[x].sid in set y | y in s.deletes :: s.deletes[y].sid;
    }
  }
}

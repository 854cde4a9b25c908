/** The restore of a snapshot into a new container, from the row it reads to the mark of the new one
    (restoreSnapshotToNewContainer, src/services/container.service.ts:562-587 and 640-686), whatever other
    requests do between its steps. */
module Renewal {
  import opened Common
  import opened R = Runtime
  import opened Platform
  import opened Lifecycle
  import opened SnapshotIntegrity
  import opened SectionEffects
  import Reaper

  /** The restore under way for container `c` still has to do with the given snapshot file. */
  ghost predicate Remembers(s: State, c: nat, path: Path, size: nat) {
    && c < |s.containers|
    && (c in s.renews ==>
          match s.renews[c]
          case Waiting(p, z) => p == path && z == size
          case RowRead(p, z, _) => p == path && z == size
          case Quiet(p, z) => p == path && z == size
          case Swapped(z, _) => z == size
          case Cleaning => true)
  }

  lemma StepRemembers(s: State, e: Event, c: nat, path: Path, size: nat)
    requires Remembers(s, c, path, size) && Enabled(s, e)
    ensures Remembers(Step(s, e), c, path, size)
  {
    if IsSection(e) {
      hide Step;
      SectionsAreLocal(s, e);
    } else {
      OtherStepRenews(s, e, c);
    }
  }

  predicate Advances(a: Renewal, b: Renewal) {
    match (a, b)
    case (Waiting(p, z), RowRead(q, y, _)) => p == q && z == y
    case (RowRead(p, z, _), Quiet(q, y)) => p == q && z == y
    case (Quiet(_, z), Swapped(y, _)) => z == y
    case (_, Cleaning) => true
    case _ => false
  }

  /** What a step outside the sections does to one restore under way. */
  lemma OtherStepRenews(s: State, e: Event, c: nat)
    requires Enabled(s, e) && !IsSection(e) && c < |s.containers|
    ensures var t := Step(s, e);
      && c < |t.containers|
      && (c in t.renews && !(IsRenewStep(e) && e.c == c) ==> c in s.renews && t.renews[c] == s.renews[c])
      && (c in t.renews && IsRenewStep(e) && e.c == c ==> c in s.renews && Advances(s.renews[c], t.renews[c]))
  {
    hide Step;
    if IsCreateStep(e) {
      CreateStepRenews(s, e, c);
    } else if IsRenewStep(e) {
      RenewStepRenews(s, e, c);
    } else {
      QuietStep(s, e);
    }
  }

  lemma CreateStepRenews(s: State, e: Event, c: nat)
    requires Enabled(s, e) && IsCreateStep(e) && c < |s.containers|
    ensures var t := Step(s, e);
      c < |t.containers| && (c in t.renews ==> c in s.renews && t.renews[c] == s.renews[c])
  {
    hide Create;
    match e
    case CreateInsert(_, _) =>
    case RenewInsert(_, _, _) =>
    case CreateExec(_, _) =>
    case CreateMark(_) =>
  }

  lemma RenewStepRenews(s: State, e: Event, c: nat)
    requires Enabled(s, e) && IsRenewStep(e) && c < |s.containers|
    ensures var t := Step(s, e);
      && c < |t.containers|
      && (c in t.renews && e.c != c ==> c in s.renews && t.renews[c] == s.renews[c])
      && (c in t.renews && e.c == c ==> c in s.renews && Advances(s.renews[c], t.renews[c]))
  {
    hide Stop, Restore, DemoteOverlays;
    match e
    case RenewRead(_, _) =>
    case RenewStop(_, _) =>
    case RenewRestore(_, _) =>
    case RenewMark(_) =>
  }

  lemma {:induction false} RunRemembers(s: State, es: seq<Event>, c: nat, path: Path, size: nat)
    requires Remembers(s, c, path, size) && Runs(s, es)
    ensures Remembers(After(s, es), c, path, size)
    decreases |es|
  {
    if es != [] {
      StepRemembers(s, es[0], c, path, size);
      RunRemembers(Step(s, es[0]), es[1..], c, path, size);
    }
  }

  /** The steps of one such restore: `past`, the read and INSERT, `mid`, the executor's restore, `late`, the
      mark. Anybody may do anything in `mid`; in `late` others leave the new container alone. */
  ghost predicate RestoresAnew(past: seq<Event>, sid: nat, user: nat, inst: string,
                               mid: seq<Event>, o: RestoreOutcome, late: seq<Event>) {
    Runs(INITIAL, past)
    && var s0 := After(INITIAL, past);
       var c := |s0.containers|;
    && Enabled(s0, RenewInsert(sid, user, inst))
    && var s1 := Step(s0, RenewInsert(sid, user, inst));
    && Runs(s1, mid)
    && var s2 := After(s1, mid);
    && Enabled(s2, RenewRestore(c, o))
    && var s3 := Step(s2, RenewRestore(c, o));
    && Runs(s3, late) && c < |s3.containers| && Reaper.ElsewhereRun(s3, late, c)
    && Enabled(After(s3, late), RenewMark(c))
  }

  ghost function Before(past: seq<Event>, sid: nat, user: nat, inst: string, mid: seq<Event>): State
    requires Runs(INITIAL, past) && Enabled(After(INITIAL, past), RenewInsert(sid, user, inst))
    requires Runs(Step(After(INITIAL, past), RenewInsert(sid, user, inst)), mid)
  {
    After(Step(After(INITIAL, past), RenewInsert(sid, user, inst)), mid)
  }

  lemma InsertRemembers(s: State, sid: nat, user: nat, inst: string)
    requires Enabled(s, RenewInsert(sid, user, inst))
    ensures var x := s.snapshots[sid].value;
      Remembers(Step(s, RenewInsert(sid, user, inst)), |s.containers|, x.path, x.size)
  {
  }

  /** The unlocked restore brings up the snapshot it was asked for: when it ends in success, exactly because
      the executor allowed it and the file of the snapshot named in the insert was there, the new container
      is up, and its overlay holds what that file held at the executor's restore. Otherwise it is marked
      stopped and left to the clean-up. */
  lemma RenewalBringsTheSnapshot(past: seq<Event>, sid: nat, user: nat, inst: string,
                                 mid: seq<Event>, o: RestoreOutcome, late: seq<Event>)
    requires RestoresAnew(past, sid, user, inst, mid, o, late)
    ensures var s0 := After(INITIAL, past); var c := |s0.containers|;
      var path := s0.snapshots[sid].value.path;
      var s2 := Before(past, sid, user, inst, mid);
      var t := Step(After(Step(s2, RenewRestore(c, o)), late), RenewMark(c));
      && c < |t.containers|
      && (t.containers[c].status.Running? <==> o.Restored? && path in s2.rt.files)
      && (if t.containers[c].status.Running? then
            && Up(t, c) && t.containers[c].hasOverlay && OverlayHolds(t, c, s2.rt.files[path]) && c !in t.renews
            && NewCurrentRow(After(Step(s2, RenewRestore(c, o)), late), t, c, s0.snapshots[sid].value.size)
          else t.containers[c].status.Stopped? && c in t.renews && t.renews[c].Cleaning?)
  {
    var s0 := After(INITIAL, past);
    var c, x := |s0.containers|, s0.snapshots[sid].value;
    var s1 := Step(s0, RenewInsert(sid, user, inst));
    InsertRemembers(s0, sid, user, inst);
    RunRemembers(s1, mid, c, x.path, x.size);
    var s2 := After(s1, mid);
    var s3 := Step(s2, RenewRestore(c, o));
    RunsKeepStructure(INITIAL, past);
    StepKeepsStructure(s0, RenewInsert(sid, user, inst));
    RunsKeepStructure(s1, mid);
    StepKeepsStructure(s2, RenewRestore(c, o));
    Reaper.ElsewhereRunsKeepContainer(s3, late, c);
    SwapStays(s3, late, c);
    SwapThenMark(s2, o, After(s3, late), c);
  }

  /** Only its own mark ends a restore whose executor has returned. */
  lemma {:induction false} SwapStays(s: State, es: seq<Event>, c: nat)
    requires Structure(s) && Runs(s, es) && c < |s.containers| && Reaper.ElsewhereRun(s, es, c)
    requires c in s.renews && s.renews[c].Swapped?
    ensures c in After(s, es).renews && After(s, es).renews[c] == s.renews[c]
    decreases |es|
  {
    if es != [] {
      var u := Step(s, es[0]);
      SwapStaysOneStep(s, es[0], c);
      StepKeepsStructure(s, es[0]);
      SwapStays(u, es[1..], c);
    }
  }

  lemma SwapStaysOneStep(s: State, e: Event, c: nat)
    requires Enabled(s, e) && c < |s.containers| && Reaper.Elsewhere(s, e, c)
    requires c in s.renews && s.renews[c].Swapped?
    ensures c in Step(s, e).renews && Step(s, e).renews[c] == s.renews[c] && c < |Step(s, e).containers|
  {
    if IsSection(e) {
      hide Step;
      SectionsAreLocal(s, e);
    } else {
      hide Step;
      OtherStepRenews(s, e, c);
      RenewalsLeft(s, e);
    }
  }

  lemma SwapThenMark(s: State, o: RestoreOutcome, u: State, c: nat)
    requires Enabled(s, RenewRestore(c, o)) && Enabled(u, RenewMark(c))
    requires Reaper.SameContainer(Step(s, RenewRestore(c, o)), u, c)
    requires u.renews[c] == Step(s, RenewRestore(c, o)).renews[c]
    ensures var path := s.renews[c].path; var t := Step(u, RenewMark(c));
      && c < |t.containers|
      && (t.containers[c].status.Running? <==> o.Restored? && path in s.rt.files)
      && (if t.containers[c].status.Running? then
            && Up(t, c) && t.containers[c].hasOverlay && OverlayHolds(t, c, s.rt.files[path]) && c !in t.renews
            && NewCurrentRow(u, t, c, s.renews[c].size)
          else t.containers[c].status.Stopped? && c in t.renews && t.renews[c].Cleaning?)
  {
    hide DemoteOverlays, NewCurrentRow;
    var v := Step(s, RenewRestore(c, o));
    if s.renews[c].Quiet? && u.renews[c].works {
      DemotedRows(u, Step(u, RenewMark(c)), c, u.renews[c].size);
    }
    assert SameFile(v.rt, u.rt, OverlayAt(s.containers[c].inst));
  }

  /** And that is what was copied when the snapshot was taken, if no snapshot is deleted twice at once and
      this one is not under deletion by then. */
  lemma RenewalBringsWhatWasTaken(past: seq<Event>, sid: nat, user: nat, inst: string,
                                  mid: seq<Event>, late: seq<Event>)
    requires RestoresAnew(past, sid, user, inst, mid, Restored, late)
    requires OneDeletionAtATime(INITIAL, past)
    requires OneDeletionAtATime(Step(After(INITIAL, past), RenewInsert(sid, user, inst)), mid)
    requires var s2 := Before(past, sid, user, inst, mid); Recorded(s2, sid) && !BeingDeleted(s2, sid)
    ensures var s0 := After(INITIAL, past); var c := |s0.containers|;
      var s2 := Before(past, sid, user, inst, mid);
      var t := Step(After(Step(s2, RenewRestore(c, Restored)), late), RenewMark(c));
      Up(t, c) && OverlayHolds(t, c, s0.snapshots[sid].value.taken)
  {
    var s0 := After(INITIAL, past);
    var e := RenewInsert(sid, user, inst);
    var s1 := Step(s0, e);
    RunsKeepIntegrity(INITIAL, past);
    StepKeepsIntegrity(s0, e);
    assert Recorded(s1, sid) && s1.snapshots == s0.snapshots;
    RunsKeepIntegrity(s1, mid);
    RecordedRowsUnchanged(s1, mid, sid);
    assert FileIntact(After(s1, mid), sid);
    RenewalBringsTheSnapshot(past, sid, user, inst, mid, Restored, late);
  }
}

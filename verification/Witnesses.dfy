/** The failures named in the other modules are reached from the empty platform: one short run for each. */
module Witnesses {
  import opened Common
  import opened R = Runtime
  import opened Platform
  import opened Lifecycle
  import opened SnapshotIntegrity

  const A := "sb-aaaaaaaaaaaa"
  const B := "sb-bbbbbbbbbbbb"

  /** Room for snapshots, and every operation works. */
  const FINE := SnapshotWorld(10, 1000, StopDone, Copied(0), true, true, Started(1))

  /** A container that has been created and started, and the state with just that one. */
  const UP := Container(0, A, Running, true, false, 0)
  const ROW := Some(OverlayRow(0, true, 0))
  const DISK := Runtime({A}, map[OverlayAt(A) := 1])
  const ONE := State([UP], [], [ROW], [], DISK, map[], map[], map[], map[], 0)

  lemma Reaches(s: State, e: Event, t: State)
    requires Reachable(s) && Enabled(s, e) && Step(s, e) == t
    ensures Reachable(t)
  {
    var es :| Runs(INITIAL, es) && After(INITIAL, es) == s;
    AfterAppend(INITIAL, es, e);
    assert Runs(INITIAL, es + [e]) && After(INITIAL, es + [e]) == t;
  }

  lemma InitialIsReachable()
    ensures Reachable(INITIAL)
  {
    assert Runs(INITIAL, []) && After(INITIAL, []) == INITIAL;
  }

  lemma NamesAreProper()
    ensures InstanceName(A) && InstanceName(B) && A != B
  {
    assert A[..3] == PREFIX && B[..3] == PREFIX && A[3] != B[3];
  }

  const NEW := Container(0, A, Creating, false, false, 0)
  const INSERTED := INITIAL.(containers := [NEW], creates := map[0 := Inserted])
  const CREATING := INSERTED.(rt := DISK, creates := map[0 := Provisioned])

  lemma CreatingReached()
    ensures Reachable(CREATING)
  {
    InitialIsReachable();
    NamesAreProper();
    Reaches(INITIAL, CreateInsert(0, A), INSERTED);
    assert {} + {A} == {A};
    Reaches(INSERTED, CreateExec(0, Started(1)), CREATING);
  }

  lemma OneReached()
    ensures Reachable(ONE)
  {
    CreatingReached();
    Reaches(CREATING, CreateMark(0), ONE);
  }

  /** The condition of RunningRowsStayAlive fails although nothing is under way any more. */
  ghost predicate StrandedAtRest(s: State) {
    Reachable(s) && s.creates == map[] && s.sweeps == map[] && s.renews == map[] && !RunningIsAlive(s)
  }

  /** A destroy that lands before `create` has returned. */
  lemma DestroyDuringCreateIsReached()
    ensures exists s :: StrandedAtRest(s)
  {
    CreatingReached();
    var gone := CREATING.(containers := [NEW.(status := Destroyed)], rt := DISK.(alive := {}));
    assert DropOverlays([], 0) == [];
    Reaches(CREATING, DestroyCall(0, StopDone, DestroyDone), gone);
    var dead := ONE.(rt := gone.rt);
    Reaches(gone, CreateMark(0), dead);
    assert dead.containers[0].status.Running? && dead.containers[0].inst !in dead.rt.alive;
    assert StrandedAtRest(dead);
  }

  const MARKED := UP.(status := Stopped, autoStopped := true)
  const RELEASED := ONE.(containers := [MARKED], rt := DISK.(alive := {}), sweeps := map[0 := Released(0)])

  lemma SweepChecks(s: State)
    requires Reachable(s) && s.containers == [UP] && s.sweeps == map[] && s.clock == 0
    ensures Reachable(s.(sweeps := map[0 := Idle(0, 0, 0, 0)]))
  {
    var t := s.(sweeps := map[0 := Seen(0, 0)]);
    Reaches(s, SweepSee(0, 0), t);
    Reaches(t, SweepCheck(0, 0, 0), s.(sweeps := map[0 := Idle(0, 0, 0, 0)]));
  }

  lemma SweepReleases(s: State)
    requires Reachable(s) && s.containers == [UP] && s.rt.alive == {A} && s.sweeps == map[] && s.clock == 0
    ensures Reachable(s.(containers := [MARKED], rt := s.rt.(alive := {}), sweeps := map[0 := Released(0)]))
  {
    SweepChecks(s);
    Reaches(s.(sweeps := map[0 := Idle(0, 0, 0, 0)]), SweepRelease(0, StopDone),
            s.(containers := [MARKED], rt := s.rt.(alive := {}), sweeps := map[0 := Released(0)]));
  }

  lemma ReleasedReached()
    ensures Reachable(RELEASED)
  {
    OneReached();
    SweepReleases(ONE);
  }

  function Taken(name: string): Snapshot {
    Snapshot.Snapshot(0, 0, name, SnapshotAt(A, name), 0, 1)
  }

  /** A start in the gap between a sweep's release and its snapshot. */
  lemma StartInTheGapIsReached()
    ensures exists s :: StrandedAtRest(s)
  {
    ReleasedReached();
    var s := ONE.(sweeps := map[0 := Released(0)]);
    Reaches(RELEASED, StartCall(0, true, Started(1), Restored), s);
    var t := Step(s, SweepSnapshot(0, "auto-1", FINE));
    Reaches(s, SweepSnapshot(0, "auto-1", FINE), t);
    SnapshotWithoutRestartStrands(s, 0, "auto-1", FINE);
    assert StrandedAtRest(t);
  }

  /** ONE with its snapshot `name`. */
  function Snapped(name: string): State {
    ONE.(snapshots := [Some(Taken(name))], rt := DISK.(files := DISK.files[SnapshotAt(A, name) := 1]))
  }

  lemma SnapshotTaken(s: State, name: string)
    requires s.containers == [UP] && s.overlays == [ROW] && s.rt.alive == {A} && s.workspaces == []
    requires OverlayAt(A) in s.rt.files && s.rt.files[OverlayAt(A)] == 1
    requires forall i :: 0 <= i < |s.snapshots| ==> s.snapshots[i].None?
    ensures Step(s, SnapshotCall(0, name, FINE))
            == s.(snapshots := s.snapshots + [Some(Taken(name))],
                  rt := s.rt.(files := s.rt.files[SnapshotAt(A, name) := 1]))
  {
    NoRowsCount(s.snapshots, 0);
    var quiet := s.(rt := Stop(s.rt, A, StopDone));
    assert [ROW][..0] == [];
    assert OverlayBytes([ROW], s.containers, 0) == 0;
    assert Usage(quiet, 0) == 0;
    assert CurrentOverlay(s.overlays, 0) == Some(0);
    assert s.overlays[0 := ROW] == s.overlays;
    assert (s.rt.alive - {A}) + {A} == s.rt.alive;
  }

  lemma {:induction false} NoRowsCount(snaps: seq<Option<Snapshot>>, c: nat)
    requires forall i :: 0 <= i < |snaps| ==> snaps[i].None?
    ensures CountSnapshots(snaps, c) == 0 && SnapshotBytes(snaps, c) == 0
  {
    if snaps != [] {
      NoRowsCount(snaps[1..], c);
      NoRowsCount(snaps[..|snaps| - 1], c);
    }
  }

  lemma SnappedReached(name: string)
    ensures Reachable(Snapped(name))
  {
    OneReached();
    SnapshotTaken(ONE, name);
    Reaches(ONE, SnapshotCall(0, name, FINE), Snapped(name));
  }

  /** Two containers, the second one made to take snapshot "s" of the first. */
  const FROM := SnapshotAt(A, "s")
  const FILES := map[OverlayAt(A) := 1, FROM := 1, OverlayAt(B) := 1]
  const TWO := State([UP, UP.(inst := B)], [Some(Taken("s"))], [ROW, Some(OverlayRow(1, true, 0))], [],
                     Runtime({A, B}, FILES), map[], map[], map[], map[], 0)

  function Renewing(r: Renewal): State {
    TWO.(renews := map[1 := r])
  }

  lemma WaitingReached()
    ensures Reachable(Renewing(Waiting(FROM, 0)))
  {
    var s := Snapped("s");
    SnappedReached("s");
    NamesAreProper();
    var s1 := s.(containers := [UP, NEW.(inst := B)], creates := map[1 := Inserted],
                 renews := map[1 := Waiting(FROM, 0)]);
    Reaches(s, RenewInsert(0, 0, B), s1);
    var s2 := s1.(rt := Runtime({A, B}, FILES), creates := map[1 := Provisioned]);
    Reaches(s1, CreateExec(1, Started(1)), s2);
    MarkSecond(s2);
  }

  lemma MarkSecond(s: State)
    requires Reachable(s) && s.containers == [UP, NEW.(inst := B)] && s.creates == map[1 := Provisioned]
    requires s == Renewing(Waiting(FROM, 0)).(containers := s.containers, creates := s.creates, overlays := [ROW])
    ensures Reachable(Renewing(Waiting(FROM, 0)))
  {
    assert map[1 := Provisioned] - {1} == map[];
    Reaches(s, CreateMark(1), Renewing(Waiting(FROM, 0)));
  }

  lemma SwappedReached()
    ensures Reachable(Renewing(Swapped(0, true)))
  {
    WaitingReached();
    NamesAreProper();
    Reaches(Renewing(Waiting(FROM, 0)), RenewRead(1, true), Renewing(RowRead(FROM, 0, true)));
    var quiet := Renewing(Quiet(FROM, 0)).(rt := Runtime({A}, FILES));
    assert {A, B} - {B} == {A};
    Reaches(Renewing(RowRead(FROM, 0, true)), RenewStop(1, StopDone), quiet);
    assert FILES[OverlayAt(B) := FILES[FROM]] == FILES;
    Reaches(quiet, RenewRestore(1, Restored), Renewing(Swapped(0, true)));
  }

  /** A destroy between the executor's restore into a new container and its mark. */
  lemma DestroyDuringRenewalIsReached()
    ensures exists s :: StrandedAtRest(s)
  {
    SwappedReached();
    var s := Renewing(Swapped(0, true));
    var e := DestroyCall(1, StopDone, DestroyDone);
    var t := Step(s, e);
    Reaches(s, e, t);
    CallDuringRenewalIsStranded(s, 1, e);
    DestroyIsLocal(s, 1, StopDone, DestroyDone);
    var u := Step(t, RenewMark(1));
    Reaches(t, RenewMark(1), u);
    assert u.renews == map[];
    assert StrandedAtRest(u);
  }

  const SECOND := Deletion(0, FROM, false)

  lemma DeletionsReadTwice()
    ensures Reachable(Snapped("s").(deletes := map[0 := SECOND, 1 := SECOND]))
  {
    var s := Snapped("s");
    SnappedReached("s");
    Reaches(s, DeleteRead(0, 0), s.(deletes := map[0 := SECOND]));
    Reaches(s.(deletes := map[0 := SECOND]), DeleteRead(1, 0), s.(deletes := map[0 := SECOND, 1 := SECOND]));
  }

  lemma OnceDeletedReached()
    ensures Reachable(ONE.(snapshots := [None], deletes := map[1 := SECOND]))
  {
    DeletionsReadTwice();
    var s := Snapped("s").(deletes := map[0 := SECOND.(tried := true), 1 := SECOND], rt := DISK);
    Reaches(Snapped("s").(deletes := map[0 := SECOND, 1 := SECOND]), DeleteFile(0, true), s);
    Reaches(s, DeleteRow(0), ONE.(snapshots := [None], deletes := map[1 := SECOND]));
  }

  /** Two deletions of one snapshot at once, and the name taken again. */
  lemma OverlappingDeletionsAreReached()
    ensures exists s, sid: nat :: Reachable(s) && Recorded(s, sid) && !BeingDeleted(s, sid) && !FileIntact(s, sid)
  {
    var s4 := ONE.(snapshots := [None], deletes := map[1 := SECOND]);
    OnceDeletedReached();
    var s5 := Snapped("s").(snapshots := [None, Some(Taken("s"))], deletes := map[1 := SECOND]);
    SnapshotTaken(s4, "s");
    Reaches(s4, SnapshotCall(0, "s", FINE), s5);
    var s6 := s5.(deletes := map[1 := SECOND.(tried := true)], rt := DISK);
    Reaches(s5, DeleteFile(1, true), s6);
    assert Recorded(s6, 1) && !BeingDeleted(s6, 1) && !FileIntact(s6, 1);
  }

  /** Released and snapshotted by a sweep, restored by hand, written to and stopped. */
  const KEPT := Snapped("auto-1").rt.(alive := {})
  const WORKED := Snapped("auto-1").(
    containers := [MARKED],
    overlays := [Some(OverlayRow(0, false, 0)), ROW],
    rt := KEPT.(files := KEPT.files[OverlayAt(A) := 7]))

  lemma SweptReached()
    ensures Reachable(Snapped("auto-1").(containers := [MARKED], rt := KEPT))
  {
    ReleasedReached();
    assert [ROW][..0] == [];
    assert OverlayBytes([ROW], [MARKED], 0) == 0;
    assert Usage(RELEASED, 0) == 0;
    assert CurrentOverlay([ROW], 0) == Some(0);
    Reaches(RELEASED, SweepSnapshot(0, "auto-1", FINE), Snapped("auto-1").(containers := [MARKED], rt := KEPT));
  }

  lemma RestoredByHandReached()
    ensures Reachable(WORKED.(containers := [MARKED.(status := Running)], rt := Snapped("auto-1").rt))
  {
    SweptReached();
    assert KEPT.files[OverlayAt(A) := 1] == KEPT.files;
    assert DemoteOverlays([ROW], 0) == [Some(OverlayRow(0, false, 0))];
    Reaches(Snapped("auto-1").(containers := [MARKED], rt := KEPT), RestoreCall(0, 0, true, StopDone, Restored),
            WORKED.(containers := [MARKED.(status := Running)], rt := Snapped("auto-1").rt));
  }

  lemma WorkedReached()
    ensures Reachable(WORKED)
  {
    RestoredByHandReached();
    var s := WORKED.(containers := [MARKED.(status := Running)], rt := Snapped("auto-1").rt);
    var t := s.(rt := s.rt.(files := s.rt.files[OverlayAt(A) := 7]));
    Reaches(s, GuestWrite(A, 7), t);
    Reaches(t, StopCall(0, StopDone), WORKED);
  }

  /** What was written after a manual restore, 7, is gone at the next start, which brings back 1. */
  lemma StaleMarkerIsReached()
    ensures Reachable(WORKED) && OverlayAt(A) in WORKED.rt.files && WORKED.rt.files[OverlayAt(A)] == 7
    ensures var (t, reply) := StartSection(WORKED, 0, true, Started(1), Restored);
      reply.Done? && OverlayAt(A) in t.rt.files && t.rt.files[OverlayAt(A)] == 1
  {
    WorkedReached();
    assert LatestAuto(WORKED.snapshots, 0) == Some(0);
  }

  const FULL := Snapped("auto-1").(containers := [MARKED], rt := KEPT.(files := KEPT.files[OverlayAt(A) := 7]))

  lemma RefusedReached()
    ensures Reachable(FULL)
  {
    SnappedReached("auto-1");
    var s := FULL.(containers := [UP], rt := FULL.rt.(alive := {A}));
    Reaches(Snapped("auto-1"), GuestWrite(A, 7), s);
    SweepReleases(s);
    RefusedEnds();
  }

  lemma RefusedEnds()
    requires Reachable(FULL.(sweeps := map[0 := Released(0)]))
    ensures Reachable(FULL)
  {
    Reaches(FULL.(sweeps := map[0 := Released(0)]), SweepSnapshot(0, "auto-2", FINE.(maxSnapshots := 1)), FULL);
  }

  /** A container released with content 7, whose sweep's snapshot is refused by the limit of one: the next
      start brings back 1 from an older auto-named snapshot. */
  lemma RefusedSnapshotRollsBack()
    ensures Reachable(FULL) && FULL.rt.files[OverlayAt(A)] == 7
    ensures var (t, reply) := StartSection(FULL, 0, true, Started(1), Restored);
      reply.Done? && OverlayAt(A) in t.rt.files && t.rt.files[OverlayAt(A)] == 1
  {
    RefusedReached();
    assert LatestAuto(FULL.snapshots, 0) == Some(0);
  }
}

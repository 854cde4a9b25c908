/** The idle reaper (src/scheduler/reaper.ts:90-155): what a release stops, what the next start brings
    back, and when a stale marker rolls a container back. */
module Reaper {
  import opened Common
  import opened R = Runtime
  import opened Platform
  import opened Lifecycle
  import opened SnapshotIntegrity

  // ---- a sweep stops only what has been idle for the whole threshold ----

  /** What a sweep remembers about the container it found idle. */
  ghost predicate SweepTimesOk(s: State) {
    forall w :: w in s.sweeps && s.sweeps[w].Idle? ==>
      s.sweeps[w].checkedAt <= s.clock && s.sweeps[w].stamp * 1000 + s.sweeps[w].idleMs <= s.sweeps[w].checkedAt
  }

  lemma SweepTimesStep(s: State, e: Event)
    requires SweepTimesOk(s) && Enabled(s, e)
    ensures SweepTimesOk(Step(s, e))
  {
    var t := Step(s, e);
    SweepsAfter(s, e);
    forall w | w in t.sweeps && t.sweeps[w].Idle?
      ensures t.sweeps[w].checkedAt <= t.clock && t.sweeps[w].stamp * 1000 + t.sweeps[w].idleMs <= t.sweeps[w].checkedAt
    {
      if !(e.SweepCheck? && w == e.w) {
        assert w in s.sweeps && s.sweeps[w] == t.sweeps[w];
      }
    }
  }

  lemma SweepsAfter(s: State, e: Event)
    requires Enabled(s, e)
    ensures var t := Step(s, e);
      && t.clock >= s.clock
      && (e.SweepCheck? ==> t.sweeps == SweepCheckStep(s, e.w, e.idleMs, e.session).sweeps && t.clock == s.clock)
      && (!e.SweepCheck? ==>
            forall w :: w in t.sweeps && t.sweeps[w].Idle? ==> w in s.sweeps && t.sweeps[w] == s.sweeps[w])
  {
    if IsSection(e) {
      SectionsAreLocal(s, e);
    }
  }

  lemma {:induction false} SweepTimesHold(s: State, es: seq<Event>)
    requires SweepTimesOk(s) && Runs(s, es)
    ensures SweepTimesOk(After(s, es))
    decreases |es|
  {
    if es != [] {
      SweepTimesStep(s, es[0]);
      SweepTimesHold(Step(s, es[0]), es[1..]);
    }
  }

  ghost predicate Releases(s: State, w: nat, o: StopOutcome)
    requires Enabled(s, SweepRelease(w, o))
  {
    ReleaseSection(s, s.sweeps[w].cid, s.sweeps[w].stamp, o).1
  }

  /** The idle check passes exactly when both the start the sweep read and the container's latest session lie
      at least the threshold back. */
  lemma CheckPassesExactlyWhenIdle(s: State, w: nat, idleMs: nat, session: nat)
    requires Enabled(s, SweepCheck(w, idleMs, session))
    ensures var t := Step(s, SweepCheck(w, idleMs, session)); var seen := s.sweeps[w];
      && t == s.(sweeps := t.sweeps) && t.sweeps - {w} == s.sweeps - {w}
      && (w in t.sweeps <==> seen.stamp * 1000 + idleMs <= s.clock && session + idleMs <= s.clock)
      && (w in t.sweeps ==> t.sweeps[w] == Idle(seen.cid, seen.stamp, s.clock, idleMs))
  {
  }

  /** Sweep `w` stands at `i` from here to the end of the run. */
  ghost predicate Stays(s: State, es: seq<Event>, w: nat, i: Sweep)
    requires Runs(s, es)
    decreases |es|
  {
    w in s.sweeps && s.sweeps[w] == i && (es == [] || Stays(Step(s, es[0]), es[1..], w, i))
  }

  /** Somewhere in the run the sweep made its idle check, with a start and a session both at least the
      threshold before, and has stood there since. */
  ghost predicate CheckedIdle(s: State, es: seq<Event>, w: nat, i: Sweep)
    requires Runs(s, es) && i.Idle?
    decreases |es|
  {
    es != []
    && (|| CheckedIdle(Step(s, es[0]), es[1..], w, i)
        || (&& es[0].SweepCheck? && es[0].w == w && es[0].idleMs == i.idleMs
            && i.checkedAt == s.clock
            && i.stamp * 1000 + i.idleMs <= s.clock && es[0].session + i.idleMs <= s.clock
            && Stays(Step(s, es[0]), es[1..], w, i)))
  }

  lemma {:induction false} IdleWasChecked(s: State, es: seq<Event>, w: nat)
    requires Runs(s, es) && w in After(s, es).sweeps && After(s, es).sweeps[w].Idle?
    ensures var i := After(s, es).sweeps[w]; Stays(s, es, w, i) || CheckedIdle(s, es, w, i)
    decreases |es|
  {
    if es != [] {
      var i := After(s, es).sweeps[w];
      IdleWasChecked(Step(s, es[0]), es[1..], w);
      if Stays(Step(s, es[0]), es[1..], w, i) {
        SweepsAfter(s, es[0]);
        if es[0].SweepCheck? {
          CheckPassesExactlyWhenIdle(s, es[0].w, es[0].idleMs, es[0].session);
          assert es[0].w != w ==> w in s.sweeps - {es[0].w} && (s.sweeps - {es[0].w})[w] == i;
        }
      }
    }
  }

  /** In every run: whenever a sweep's locked section stops a container, the run it stops began at least the
      idle threshold ago, and the session time that the sweep's own idle check used lay at least that long
      before the check. That time is the latest end, or start of a session still open. */
  lemma ReleasesOnlyIdleRuns(es: seq<Event>, w: nat, o: StopOutcome)
    requires Runs(INITIAL, es) && Enabled(After(INITIAL, es), SweepRelease(w, o))
    requires Releases(After(INITIAL, es), w, o)
    ensures var s := After(INITIAL, es);
      && s.containers[s.sweeps[w].cid].lastStarted * 1000 + s.sweeps[w].idleMs <= s.clock
      && CheckedIdle(INITIAL, es, w, s.sweeps[w])
  {
    SweepTimesHold(INITIAL, es);
    IdleWasChecked(INITIAL, es, w);
  }

  /** An idle container is reaped: when its row runs, and after some time its start and latest session lie at
      least the threshold back, a sweep that sees, checks and releases it stops and marks it, unless the
      executor throws. */
  lemma IdleContainerIsReleased(s: State, ms: nat, w: nat, c: nat, idleMs: nat, session: nat, o: StopOutcome)
    requires Enabled(s, SweepSee(w, c)) && !o.StopThrew?
    requires s.containers[c].lastStarted * 1000 + idleMs <= s.clock + ms && session + idleMs <= s.clock + ms
    ensures var s0 := Step(s, Tick(ms));
      && Enabled(s0, SweepSee(w, c))
      && var s1 := Step(s0, SweepSee(w, c));
      && Enabled(s1, SweepCheck(w, idleMs, session))
      && var s2 := Step(s1, SweepCheck(w, idleMs, session));
      && Enabled(s2, SweepRelease(w, o))
      && var t := Step(s2, SweepRelease(w, o));
      && w in t.sweeps && t.sweeps[w] == Released(c) && c < |t.containers|
      && t.containers[c] == s.containers[c].(status := Stopped, autoStopped := true)
      && (s.containers[c].inst in t.rt.alive <==> s.containers[c].inst in s.rt.alive && !o.StopDone?)
  {
    var s1 := Step(Step(s, Tick(ms)), SweepSee(w, c));
    CheckPassesExactlyWhenIdle(s1, w, idleMs, session);
    assert s1.sweeps[w] == Seen(c, s.containers[c].lastStarted);
  }

  // ---- a restarted container and the sweep that saw it before ----

  /** No row was started after now, and no sweep has read a later start. */
  ghost predicate StampsOk(s: State) {
    && (forall c :: 0 <= c < |s.containers| ==> s.containers[c].lastStarted * 1000 <= s.clock)
    && (forall w :: w in s.sweeps && s.sweeps[w].Seen? ==> s.sweeps[w].stamp * 1000 <= s.clock)
  }

  /** A row's start stamp stays or becomes the current second. */
  lemma LastStartedStep(s: State, e: Event, c: nat)
    requires Enabled(s, e) && c < |s.containers|
    ensures var t := Step(s, e);
      && c < |t.containers|
      && t.containers[c].lastStarted in {s.containers[c].lastStarted, s.clock / 1000}
  {
    hide Step, SectionResult;
    if IsSection(e) {
      SectionsAreLocal(s, e);
      if Target(s, e) == c { TargetLastStarted(s, e); }
    } else if e.CreateMark? || e.RenewMark? {
      MarksKeepOthers(s, e);
    } else {
      OtherStepsKeepRows(s, e);
    }
  }

  lemma TargetLastStarted(s: State, e: Event)
    requires Enabled(s, e) && IsSection(e)
    ensures var c := Target(s, e); var t := SectionResult(s, e);
      && c < |t.containers|
      && t.containers[c].lastStarted in {s.containers[c].lastStarted, s.clock / 1000}
  {
    hide Stop, Create, Restore, Destroy, DemoteOverlays, DropOverlays, StartSection, RestoreFrom, SnapshotSection;
    match e
    case StartCall(c, image, o, ro) => StartLastStarted(s, c, image, o, ro);
    case RestoreCall(c, sid, image, stop, o) =>
      if sid < |s.snapshots| && s.snapshots[sid].Some? {
        RestoreLastStarted(s, c, s.snapshots[sid].value, image, stop, o);
      }
    case StopCall(c, o) =>
    case DestroyCall(c, stop, o) =>
    case RenewCleanup(c, stop, o) =>
    case SnapshotCall(c, name, w) => SnapshotLastStarted(s, c, name, true, w);
    case SweepRelease(w, o) =>
    case SweepSnapshot(w, name, world) => SnapshotLastStarted(s, s.sweeps[w].cid, name, false, world);
  }

  lemma RestoreLastStarted(s: State, c: nat, snap: Snapshot, image: bool, stop: StopOutcome, o: RestoreOutcome)
    requires c < |s.containers|
    ensures var (t, reply) := RestoreFrom(s, c, snap, image, stop, o);
      && c < |t.containers|
      && t.containers[c].lastStarted == (if reply.Done? then s.clock / 1000 else s.containers[c].lastStarted)
      && (reply.Done? ==> t.containers[c].status.Running?)
  {
    hide Stop, Restore, RestoreWorks, DemoteOverlays;
  }

  lemma StartLastStarted(s: State, c: nat, image: bool, o: CreateOutcome, ro: RestoreOutcome)
    requires c < |s.containers|
    ensures var (t, reply) := StartSection(s, c, image, o, ro);
      && c < |t.containers|
      && t.containers[c].lastStarted
         == (if reply.Done? && !s.containers[c].status.Running? then s.clock / 1000 else s.containers[c].lastStarted)
      && (reply.Done? ==> t.containers[c].status.Running?)
  {
    hide Create, RestoreFrom, LatestAuto;
    if LatestAuto(s.snapshots, c).Some? {
      RestoreLastStarted(s, c, s.snapshots[LatestAuto(s.snapshots, c).value].value, image, StopDone, ro);
    }
  }

  lemma SnapshotLastStarted(s: State, c: nat, name: string, restartAfter: bool, w: SnapshotWorld)
    requires c < |s.containers|
    ensures var t := SnapshotSection(s, c, name, restartAfter, w).0;
      c < |t.containers| && t.containers[c].lastStarted == s.containers[c].lastStarted
  {
    var row := s.containers[c];
    var quiet := if row.status.Running? then s.(rt := Stop(s.rt, row.inst, w.stop)) else s;
    CopyIsLocal(quiet, c, name, w);
    hide CopyAndRecord, Create, Stop;
  }

  lemma StampsStep(s: State, e: Event)
    requires StampsOk(s) && Enabled(s, e)
    ensures StampsOk(Step(s, e)) && Step(s, e).clock >= s.clock
  {
    var t := Step(s, e);
    SeenAfter(s, e);
    NewRowsNeverStarted(s, e);
    hide Step;
    forall c | 0 <= c < |t.containers| ensures t.containers[c].lastStarted * 1000 <= t.clock {
      if c < |s.containers| { LastStartedStep(s, e, c); }
    }
  }

  lemma SeenAfter(s: State, e: Event)
    requires Enabled(s, e)
    ensures var t := Step(s, e);
      && t.clock >= s.clock
      && (forall w :: w in t.sweeps && t.sweeps[w].Seen? ==>
            || (w in s.sweeps && t.sweeps[w] == s.sweeps[w])
            || (e.SweepSee? && e.c < |s.containers| && t.sweeps[w].stamp == s.containers[e.c].lastStarted))
  {
    if IsSection(e) { SectionsAreLocal(s, e); }
  }

  lemma NewRowsNeverStarted(s: State, e: Event)
    requires Enabled(s, e)
    ensures forall c :: |s.containers| <= c < |Step(s, e).containers| ==> Step(s, e).containers[c].lastStarted == 0
  {
    hide Step, SectionResult;
    if IsSection(e) {
      SectionsAreLocal(s, e);
    } else if e.CreateMark? || e.RenewMark? {
      MarksKeepOthers(s, e);
    } else {
      OtherStepsKeepRows(s, e);
    }
  }

  lemma {:induction false} StampsHold(s: State, es: seq<Event>)
    requires StampsOk(s) && Runs(s, es)
    ensures StampsOk(After(s, es)) && After(s, es).clock >= s.clock
    decreases |es|
  {
    if es != [] {
      StampsStep(s, es[0]);
      StampsHold(Step(s, es[0]), es[1..]);
    }
  }

  lemma {:induction false} LastStartedNeverFalls(s: State, es: seq<Event>, c: nat)
    requires StampsOk(s) && Runs(s, es) && c < |s.containers|
    ensures c < |After(s, es).containers|
    ensures After(s, es).containers[c].lastStarted >= s.containers[c].lastStarted
    decreases |es|
  {
    if es != [] {
      StampsStep(s, es[0]);
      LastStartedStep(s, es[0], c);
      LastStartedNeverFalls(Step(s, es[0]), es[1..], c);
    }
  }

  /** The step brings container `c` up and stamps its row: a start that was needed, a restore, locked or
      not, and the end of `create`. */
  ghost predicate Restarts(s: State, e: Event, c: nat)
    requires Enabled(s, e)
  {
    match e
    case StartCall(d, image, o, ro) =>
      d == c && !s.containers[d].status.Running? && StartSection(s, d, image, o, ro).1.Done?
    case RestoreCall(d, sid, image, stop, o) => d == c && RestoreSection(s, d, sid, image, stop, o).1.Done?
    case CreateMark(d) => d == c && s.creates[d].Provisioned?
    case RenewMark(d) => d == c && s.renews[d].works
    case _ => false
  }

  lemma RestartStamps(s: State, e: Event, c: nat)
    requires Enabled(s, e) && Restarts(s, e, c)
    ensures var t := Step(s, e);
      && c < |t.containers| && t.containers[c].status.Running? && t.containers[c].lastStarted == s.clock / 1000
      && t.sweeps == s.sweeps && t.clock == s.clock
  {
    hide Stop, Create, Restore, DemoteOverlays, StartSection, RestoreFrom, LatestAuto;
    match e
    case StartCall(_, image, o, ro) =>
      StartLastStarted(s, c, image, o, ro);
      SectionsAreLocal(s, e);
    case RestoreCall(_, sid, image, stop, o) =>
      RestoreLastStarted(s, c, s.snapshots[sid].value, image, stop, o);
      SectionsAreLocal(s, e);
    case CreateMark(_) =>
    case RenewMark(_) =>
  }

  /** However the platform goes on from `s`, no sweep that read `stamp` from container `c` releases it. */
  ghost predicate NeverReleases(s: State, c: nat, stamp: nat) {
    forall es, w, o ::
      Runs(s, es) && Enabled(After(s, es), SweepRelease(w, o))
      && After(s, es).sweeps[w].cid == c && After(s, es).sweeps[w].stamp == stamp
      ==> !Releases(After(s, es), w, o)
  }

  /** The stamp has whole seconds: a container restarted after a sweep read its row is safe from that sweep
      for good if and only if the clock second has moved on since the run it saw began. After the idle check,
      any threshold of a second or more guarantees that. */
  lemma RestartSparesExactlyInALaterSecond(past: seq<Event>, w: nat, e: Event)
    requires Runs(INITIAL, past)
    requires var s := After(INITIAL, past);
      && w in s.sweeps && !s.sweeps[w].Released? && Enabled(s, e) && Restarts(s, e, s.sweeps[w].cid)
    ensures var s := After(INITIAL, past); var c := s.sweeps[w].cid; var stamp := s.sweeps[w].stamp;
      && (NeverReleases(Step(s, e), c, stamp) <==> stamp < s.clock / 1000)
      && (s.sweeps[w].Idle? && s.sweeps[w].idleMs >= 1000 ==> NeverReleases(Step(s, e), c, stamp))
  {
    var s := After(INITIAL, past);
    var c, stamp := s.sweeps[w].cid, s.sweeps[w].stamp;
    StampsHold(INITIAL, past);
    SweepTimesHold(INITIAL, past);
    RestartStamps(s, e, c);
    if stamp < s.clock / 1000 {
      StampsStep(s, e);
      LaterStampSpares(Step(s, e), c, stamp);
    } else {
      SameSecondIsReleased(s, e, w);
    }
  }

  lemma LaterStampSpares(t: State, c: nat, stamp: nat)
    requires StampsOk(t) && c < |t.containers| && stamp < t.containers[c].lastStarted
    ensures NeverReleases(t, c, stamp)
  {
    hide StampsOk;
    forall es, w, o | Runs(t, es) && Enabled(After(t, es), SweepRelease(w, o))
                      && After(t, es).sweeps[w].cid == c && After(t, es).sweeps[w].stamp == stamp
      ensures !Releases(After(t, es), w, o)
    {
      LastStartedNeverFalls(t, es, c);
    }
  }

  lemma SameSecondIsReleased(s: State, e: Event, w: nat)
    requires StampsOk(s) && SweepTimesOk(s) && w in s.sweeps && !s.sweeps[w].Released?
    requires Enabled(s, e) && Restarts(s, e, s.sweeps[w].cid) && s.sweeps[w].stamp >= s.clock / 1000
    ensures !NeverReleases(Step(s, e), s.sweeps[w].cid, s.sweeps[w].stamp)
  {
    var t := Step(s, e);
    RestartStamps(s, e, s.sweeps[w].cid);
    hide Step, Restarts;
    assert s.sweeps[w].stamp == s.clock / 1000;
    if s.sweeps[w].Idle? {
      ReleasedNow(t, [], w);
    } else {
      CheckPasses(t, w);
      ReleasedNow(t, [SweepCheck(w, 0, 0)], w);
    }
  }

  lemma CheckPasses(t: State, w: nat)
    requires w in t.sweeps && t.sweeps[w].Seen? && t.sweeps[w].stamp * 1000 <= t.clock
    ensures Runs(t, [SweepCheck(w, 0, 0)])
    ensures After(t, [SweepCheck(w, 0, 0)])
            == t.(sweeps := t.sweeps[w := Idle(t.sweeps[w].cid, t.sweeps[w].stamp, t.clock, 0)])
  {
    var e := SweepCheck(w, 0, 0);
    assert [e][1..] == [];
    assert After(Step(t, e), []) == Step(t, e);
  }

  lemma ReleasedNow(t: State, es: seq<Event>, w: nat)
    requires Runs(t, es)
    requires var u := After(t, es);
      && w in u.sweeps && u.sweeps[w].Idle? && u.sweeps[w].cid < |u.containers|
      && u.containers[u.sweeps[w].cid].status.Running?
      && u.containers[u.sweeps[w].cid].lastStarted == u.sweeps[w].stamp
    ensures !NeverReleases(t, After(t, es).sweeps[w].cid, After(t, es).sweeps[w].stamp)
  {
    assert Enabled(After(t, es), SweepRelease(w, StopDone)) && Releases(After(t, es), w, StopDone);
  }

  // ---- what the rest of the platform leaves alone ----

  /** Step `e` is somebody else's: it neither works on container `c` nor writes or deletes its files. */
  ghost predicate Elsewhere(s: State, e: Event, c: nat)
    requires Enabled(s, e) && c < |s.containers|
  {
    && (IsSection(e) ==> Target(s, e) != c)
    && (e.CreateExec? || e.CreateMark? || IsRenewStep(e) ==> e.c != c)
    && (e.GuestWrite? ==> e.inst != s.containers[c].inst)
    && (e.DeleteFile? ==> s.deletes[e.d].path.inst != s.containers[c].inst)
    && (e.DeleteRow? ==> s.snapshots[s.deletes[e.d].sid].Some? ==> s.snapshots[s.deletes[e.d].sid].value.cid != c)
  }

  ghost predicate ElsewhereRun(s: State, es: seq<Event>, c: nat)
    requires Runs(s, es)
    decreases |es|
  {
    es == [] || (c < |s.containers| && Elsewhere(s, es[0], c) && ElsewhereRun(Step(s, es[0]), es[1..], c))
  }

  ghost predicate RowOf(snaps: seq<Option<Snapshot>>, i: nat, c: nat) {
    i < |snaps| && snaps[i].Some? && snaps[i].value.cid == c
  }

  /** `t` has the container, its files, its liveness and its snapshot rows exactly as `s` has them. */
  ghost predicate SameContainer(s: State, t: State, c: nat) {
    && c < |s.containers| && c < |t.containers| && t.containers[c] == s.containers[c]
    && (s.containers[c].inst in t.rt.alive <==> s.containers[c].inst in s.rt.alive)
    && (forall p: Path :: p.inst == s.containers[c].inst ==> SameFile(s.rt, t.rt, p))
    && (forall i: nat :: RowOf(t.snapshots, i, c) <==> RowOf(s.snapshots, i, c))
    && (forall i: nat :: RowOf(s.snapshots, i, c) ==> t.snapshots[i] == s.snapshots[i])
  }

  lemma SameContainerTrans(s: State, t: State, u: State, c: nat)
    requires SameContainer(s, t, c) && SameContainer(t, u, c)
    ensures SameContainer(s, u, c)
  {
    forall p: Path | p.inst == s.containers[c].inst ensures SameFile(s.rt, u.rt, p) {
      assert SameFile(s.rt, t.rt, p) && SameFile(t.rt, u.rt, p);
    }
    forall i: nat ensures RowOf(u.snapshots, i, c) <==> RowOf(s.snapshots, i, c) {
      assert RowOf(t.snapshots, i, c) <==> RowOf(s.snapshots, i, c);
    }
  }

  lemma SectionElsewhere(s: State, e: Event, c: nat)
    requires Structure(s) && Enabled(s, e) && c < |s.containers| && IsSection(e) && Elsewhere(s, e, c)
    ensures SameContainer(s, Step(s, e), c)
  {
    var t := Step(s, e);
    var d := Target(s, e);
    SectionsAreLocal(s, e);
    SectionAppends(s, e);
    assert s.containers[c].inst != s.containers[d].inst;
    assert LocalRuntime(s.rt, t.rt, s.containers[d].inst);
    forall i | 0 <= i < |s.snapshots| ensures t.snapshots[i] == s.snapshots[i] {
      assert t.snapshots[i] == t.snapshots[..|s.snapshots|][i];
    }
    forall i: nat ensures RowOf(t.snapshots, i, c) <==> RowOf(s.snapshots, i, c) {
      if i == |s.snapshots| && i < |t.snapshots| {
        assert t.snapshots[i].value.cid == d;
      }
    }
  }

  lemma OtherElsewhere(s: State, e: Event, c: nat)
    requires Structure(s) && Enabled(s, e) && c < |s.containers| && !IsSection(e) && Elsewhere(s, e, c)
    ensures SameContainer(s, Step(s, e), c)
  {
    hide Step;
    var t := Step(s, e);
    OtherStepFiles(s, e);
    OtherStepRows(s, e);
    if e.CreateMark? || e.RenewMark? {
      MarksKeepOthers(s, e);
    } else {
      OtherStepsKeepRows(s, e);
    }
    if e.CreateExec? || e.RenewStop? || e.RenewRestore? {
      assert s.containers[c].inst != s.containers[e.c].inst;
      RuntimeOpsAreLocal(s.rt, s.containers[e.c].inst);
      assert LocalRuntime(s.rt, t.rt, s.containers[e.c].inst);
    }
  }

  lemma {:induction false} ElsewhereRunsKeepContainer(s: State, es: seq<Event>, c: nat)
    requires Structure(s) && Runs(s, es) && c < |s.containers| && ElsewhereRun(s, es, c)
    ensures SameContainer(s, After(s, es), c) && Structure(After(s, es))
    decreases |es|
  {
    if es != [] {
      var u := Step(s, es[0]);
      if IsSection(es[0]) {
        SectionElsewhere(s, es[0], c);
      } else {
        OtherElsewhere(s, es[0], c);
      }
      StepKeepsStructure(s, es[0]);
      ElsewhereRunsKeepContainer(u, es[1..], c);
      SameContainerTrans(s, u, After(s, es), c);
    }
  }

  lemma SameLatestAuto(a: seq<Option<Snapshot>>, b: seq<Option<Snapshot>>, c: nat)
    requires forall i: nat :: RowOf(b, i, c) <==> RowOf(a, i, c)
    requires forall i: nat :: RowOf(a, i, c) ==> i < |b| && b[i] == a[i]
    ensures LatestAuto(b, c) == LatestAuto(a, c)
  {
    hide LatestAuto, AutoName;
    var x, y := LatestAuto(a, c), LatestAuto(b, c);
    if x.Some? {
      assert RowOf(a, x.value, c);
      assert RowOf(b, x.value, c);
    }
    if y.Some? {
      assert RowOf(b, y.value, c);
      assert RowOf(a, y.value, c);
    }
  }

  // ---- resuming ----

  /** The file whose content `start` brings up: the latest auto-named snapshot of a marked container that has
      one, else the overlay as it stands. */
  ghost function StartPath(s: State, c: nat): Path
    requires c < |s.containers|
  {
    var row := s.containers[c];
    var auto := LatestAuto(s.snapshots, c);
    if row.autoStopped && row.status.Stopped? && auto.Some? then s.snapshots[auto.value].value.path
    else OverlayAt(row.inst)
  }

  lemma ResumeSource(s: State, c: nat, snap: Snapshot, image: bool, ro: RestoreOutcome)
    requires c < |s.containers| && !s.containers[c].status.Running? && ResumeFrom(s, c, snap, image, ro).1.Done?
    ensures var t := ResumeFrom(s, c, snap, image, ro).0; var p := OverlayAt(s.containers[c].inst);
      && c < |t.containers| && t.containers[c].status.Running? && !t.containers[c].autoStopped
      && s.containers[c].inst in t.rt.alive
      && snap.path in s.rt.files && p in t.rt.files && t.rt.files[p] == s.rt.files[snap.path]
  {
    hide DemoteOverlays;
  }

  lemma PlainSource(s: State, c: nat, o: CreateOutcome)
    requires c < |s.containers| && PlainStart(s, c, o).1.Done?
    ensures var t := PlainStart(s, c, o).0; var p := OverlayAt(s.containers[c].inst);
      && c < |t.containers| && t.containers[c].status.Running?
      && t.containers[c].autoStopped == s.containers[c].autoStopped && s.containers[c].inst in t.rt.alive
      && p in t.rt.files && (p in s.rt.files ==> t.rt.files[p] == s.rt.files[p])
  {
  }

  /** A successful start brings up that content, alive, and clears the marker of a stopped container. */
  lemma StartSource(s: State, c: nat, image: bool, o: CreateOutcome, ro: RestoreOutcome)
    requires c < |s.containers| && !s.containers[c].status.Running?
    requires StartSection(s, c, image, o, ro).1.Done?
    ensures var t := StartSection(s, c, image, o, ro).0; var row := s.containers[c];
      var p := OverlayAt(row.inst); var from := StartPath(s, c);
      && c < |t.containers| && t.containers[c].status.Running? && row.inst in t.rt.alive && p in t.rt.files
      && (row.status.Stopped? ==> !t.containers[c].autoStopped)
      && (from in s.rt.files ==> t.rt.files[p] == s.rt.files[from])
      && (from !in s.rt.files ==> from == p)
  {
    hide PlainStart, ResumeFrom, LatestAuto;
    var row := s.containers[c];
    if row.autoStopped && row.status.Stopped? {
      match LatestAuto(s.snapshots, c)
      case Some(sid) => ResumeSource(s, c, s.snapshots[sid].value, image, ro);
      case None => PlainSource(ClearMarker(s, c), c, o);
    } else {
      PlainSource(s, c, o);
    }
  }

  /** An appended row is the latest auto snapshot of its container if its name is an auto name, else nothing. */
  lemma LatestAfterAppend(snaps: seq<Option<Snapshot>>, x: Snapshot)
    ensures LatestAuto(snaps + [Some(x)], x.cid) == if AutoName(x.name) then Some(|snaps|) else LatestAuto(snaps, x.cid)
  {
    hide AutoName;
    assert (snaps + [Some(x)])[..|snaps|] == snaps;
  }

  /** A release that takes effect, seen from its container. */
  lemma ReleaseEffect(s: State, w: nat, stop: StopOutcome)
    requires Enabled(s, SweepRelease(w, stop)) && Releases(s, w, stop)
    ensures var c := s.sweeps[w].cid; var t := Step(s, SweepRelease(w, stop));
      && t.rt.files == s.rt.files && t.snapshots == s.snapshots
      && t.sweeps == s.sweeps[w := Released(c)]
      && t.containers == s.containers[c := s.containers[c].(status := Stopped, autoStopped := true)]
  {
  }

  /** How a sweep ends: with its own snapshot, however that goes and whatever it is named, or with none. */
  ghost predicate EndsSweep(e: Event, w: nat) {
    (e.SweepSnapshot? && e.w == w) || e == SweepDone(w)
  }

  /** The sweep's snapshot got past the limits and the quota, its copy worked, and the configured tier makes
      its name one that `start` looks for. */
  ghost predicate RecordedAuto(s: State, e: Event)
    requires Enabled(s, e)
  {
    e.SweepSnapshot? && AutoName(e.name) && SnapshotSection(s, s.sweeps[e.w].cid, e.name, false, e.world).1.Done?
  }

  /** `t` resumes container `c` from a file with the overlay content of `s`, or from where `s` would. */
  ghost predicate ResumePoint(s: State, t: State, c: nat, recorded: bool) {
    && c < |s.containers| && t.containers == s.containers
    && var p := OverlayAt(s.containers[c].inst);
       if recorded then
         p in s.rt.files && StartPath(t, c) in t.rt.files && t.rt.files[StartPath(t, c)] == s.rt.files[p]
       else
         StartPath(t, c) == StartPath(s, c) && SameFile(s.rt, t.rt, StartPath(s, c))
  }

  /** The end of a sweep over a stopped container: a snapshot recorded under an auto name is the one the next
      start resumes from and holds the overlay's content; otherwise that start resumes from where it would
      have before. */
  lemma SweepEndEffect(s: State, w: nat, e: Event)
    requires Structure(s) && Enabled(s, e) && EndsSweep(e, w) && s.sweeps[w].cid < |s.containers|
    requires var row := s.containers[s.sweeps[w].cid]; row.status.Stopped? && row.autoStopped
    ensures ResumePoint(s, Step(s, e), s.sweeps[w].cid, RecordedAuto(s, e))
  {
    var c := s.sweeps[w].cid;
    if e.SweepSnapshot? && SnapshotRefusal(s, c, e.name, e.world).Done? {
      SweepSnapshotEffect(s, c, e.name, e.world);
    }
  }

  lemma SweepSnapshotEffect(s: State, c: nat, name: string, world: SnapshotWorld)
    requires Structure(s) && c < |s.containers| && SnapshotRefusal(s, c, name, world).Done?
    requires s.containers[c].status.Stopped? && s.containers[c].autoStopped
    ensures var (t, reply) := SnapshotSection(s, c, name, false, world);
      ResumePoint(s, t, c, reply.Done? && AutoName(name))
  {
    hide LatestAuto, AutoName, NameTaken, CountSnapshots, CopyAndRecord;
    CopyRecordsContent(s, c, name, world);
    CopyIsLocal(s, c, name, world);
    var (t, reply) := CopyAndRecord(s, c, name, world);
    if reply.Done? {
      LatestAfterAppend(s.snapshots, t.snapshots[|s.snapshots|].value);
    }
    OldStartPathIsFree(s, c, name);
    CopyKeepsOverlay(s, c, name, world);
  }

  lemma OldStartPathIsFree(s: State, c: nat, name: string)
    requires Structure(s) && c < |s.containers| && !NameTaken(s.snapshots, c, name)
    ensures StartPath(s, c) != SnapshotAt(s.containers[c].inst, name) && StartPath(s, c).inst == s.containers[c].inst
  {
    hide NameTaken, AutoName;
    var auto := LatestAuto(s.snapshots, c);
    if auto.Some? {
      NewPathIsFree(s, c, name, auto.value);
      assert SnapshotRowOk(s, s.snapshots[auto.value].value);
    }
  }

  lemma SameStartPath(s: State, t: State, c: nat)
    requires SameContainer(s, t, c) && Structure(s)
    ensures StartPath(t, c) == StartPath(s, c) && SameFile(s.rt, t.rt, StartPath(s, c))
  {
    SameLatestAuto(s.snapshots, t.snapshots, c);
    var auto := LatestAuto(s.snapshots, c);
    if auto.Some? {
      assert RowOf(s.snapshots, auto.value, c) && SnapshotRowOk(s, s.snapshots[auto.value].value);
    }
  }

  /** The older auto snapshot, if there is one, holds just what the overlay holds. */
  ghost predicate NoOlderContent(s: State, c: nat)
    requires c < |s.containers|
  {
    match LatestAuto(s.snapshots, c)
    case None => true
    case Some(i) =>
      var older := s.snapshots[i].value.path;
      var p := OverlayAt(s.containers[c].inst);
      older in s.rt.files && p in s.rt.files && s.rt.files[older] == s.rt.files[p]
  }

  /** A sweep releases a container and ends, with its snapshot recorded under any name, refused or failed, or
      with none taken; other containers do whatever they do before and after. The next successful start leaves the
      container alive with the marker cleared, and it brings back the overlay content of the moment of release
      if and only if the snapshot was recorded under an auto name or there was no older auto snapshot with
      other content. */
  lemma ResumesWhereItWasExactly(
      s: State, w: nat, stop: StopOutcome, gap: seq<Event>, e: Event, rest: seq<Event>,
      image: bool, o: CreateOutcome, ro: RestoreOutcome)
    requires Reachable(s) && Enabled(s, SweepRelease(w, stop)) && Releases(s, w, stop)
    requires OverlayAt(s.containers[s.sweeps[w].cid].inst) in s.rt.files
    requires var s1 := Step(s, SweepRelease(w, stop)); var c := s.sweeps[w].cid;
      && Runs(s1, gap) && ElsewhereRun(s1, gap, c)
      && var s2 := After(s1, gap);
      && Enabled(s2, e) && EndsSweep(e, w) && s2.sweeps[w].cid == c
      && var s3 := Step(s2, e);
      && Runs(s3, rest) && ElsewhereRun(s3, rest, c)
      && c < |After(s3, rest).containers|
      && StartSection(After(s3, rest), c, image, o, ro).1.Done?
    ensures var c := s.sweeps[w].cid;
      var s2 := After(Step(s, SweepRelease(w, stop)), gap);
      var t := StartSection(After(Step(s2, e), rest), c, image, o, ro).0;
      var p := OverlayAt(s.containers[c].inst);
      && c < |t.containers| && t.containers[c].status.Running? && !t.containers[c].autoStopped
      && t.containers[c].inst == s.containers[c].inst && s.containers[c].inst in t.rt.alive
      && p in t.rt.files && (t.rt.files[p] == s.rt.files[p] <==> RecordedAuto(s2, e) || NoOlderContent(s, c))
  {
    hide SnapshotSection, StartSection, Step, LatestAuto;
    var c := s.sweeps[w].cid;
    var p := OverlayAt(s.containers[c].inst);
    var s1 := Step(s, SweepRelease(w, stop));
    ReachableHasStructure(s);
    ReleaseEffect(s, w, stop);
    StepKeepsStructure(s, SweepRelease(w, stop));
    var s2 := After(s1, gap);
    ElsewhereRunsKeepContainer(s1, gap, c);
    SameStartPath(s1, s2, c);
    assert SameFile(s1.rt, s2.rt, p);
    var s3 := Step(s2, e);
    SweepEndEffect(s2, w, e);
    StepKeepsStructure(s2, e);
    var s4 := After(s3, rest);
    ElsewhereRunsKeepContainer(s3, rest, c);
    SameStartPath(s3, s4, c);
    StartSource(s4, c, image, o, ro);
    StartIsLocal(s4, c, image, o, ro);
  }

  // ---- the marker outlives a manual restore ----

  /** `restoreSnapshot` brings the chosen snapshot up but leaves the marker as it was. */
  lemma RestoreKeepsMarker(s: State, c: nat, sid: nat, image: bool, stop: StopOutcome, ro: RestoreOutcome)
    requires c < |s.containers|
    ensures var t := RestoreSection(s, c, sid, image, stop, ro).0;
      c < |t.containers| && t.containers[c].autoStopped == s.containers[c].autoStopped
  {
  }

  /** So work done after a manual restore is lost at the next stop and start: for any marked container
      with an auto snapshot, restore anything, write anything, stop, and a successful start puts the auto
      snapshot's content back over what the guest wrote. */
  lemma StaleMarkerRollsBack(s: State, c: nat, sid: nat, stop: StopOutcome, work: Content,
                             image: bool, o: CreateOutcome, ro: RestoreOutcome)
    requires c < |s.containers| && s.containers[c].autoStopped && LatestAuto(s.snapshots, c).Some?
    requires RestoreSection(s, c, sid, true, stop, Restored).1.Done?
    requires var auto := s.snapshots[LatestAuto(s.snapshots, c).value].value;
      auto.path != OverlayAt(s.containers[c].inst) && auto.path in s.rt.files
    requires var t1 := RestoreSection(s, c, sid, true, stop, Restored).0;
      && Enabled(t1, GuestWrite(s.containers[c].inst, work))
      && var t2 := Step(t1, GuestWrite(s.containers[c].inst, work));
      && c < |t2.containers| && StopSection(t2, c, StopDone).1.Done?
      && c < |StopSection(t2, c, StopDone).0.containers|
      && StartSection(StopSection(t2, c, StopDone).0, c, image, o, ro).1.Done?
    ensures var inst := s.containers[c].inst;
      var t1 := RestoreSection(s, c, sid, true, stop, Restored).0;
      var t2 := Step(t1, GuestWrite(inst, work));
      var t3 := StopSection(t2, c, StopDone).0;
      var t4 := StartSection(t3, c, image, o, ro).0;
      && OverlayAt(inst) in t3.rt.files && t3.rt.files[OverlayAt(inst)] == work
      && OverlayAt(inst) in t4.rt.files
      && t4.rt.files[OverlayAt(inst)] == s.rt.files[s.snapshots[LatestAuto(s.snapshots, c).value].value.path]
  {
    var inst := s.containers[c].inst;
    var auto := s.snapshots[LatestAuto(s.snapshots, c).value].value;
    RestoreFromIsLocal(s, c, s.snapshots[sid].value, true, stop, Restored);
    RestoreKeepsMarker(s, c, sid, true, stop, Restored);
    var t1 := RestoreSection(s, c, sid, true, stop, Restored).0;
    assert SameFile(s.rt, t1.rt, auto.path);
    var t2 := Step(t1, GuestWrite(inst, work));
    var t3 := StopSection(t2, c, StopDone).0;
    assert t3.snapshots == s.snapshots && t3.rt.files == t2.rt.files && StartPath(t3, c) == auto.path;
    StartSource(t3, c, image, o, ro);
  }

  // ---- destroyed rows ----

  /** Destroyed is final for every step but three: a destroyed row changes status exactly when a restore
      of one of its own snapshots gets as far as the executor (`restoreSnapshot` has no destroyed check),
      when its interrupted `create` marks it, or when the unlocked restore that made it does. */
  lemma DestroyedIsFinalExceptForRestore(s: State, e: Event, c: nat)
    requires Enabled(s, e) && c < |s.containers| && s.containers[c].status.Destroyed?
    ensures var t := Step(s, e);
      c < |t.containers|
      && (!t.containers[c].status.Destroyed? <==>
            || (e.RestoreCall? && e.c == c && e.image && RowOf(s.snapshots, e.sid, c))
            || (e.CreateMark? && e.c == c)
            || (e.RenewMark? && e.c == c))
  {
    hide Step, SectionResult;
    if IsSection(e) {
      SectionsAreLocal(s, e);
      if Target(s, e) == c {
        DestroyedTarget(s, e);
      }
    } else if e.CreateMark? || e.RenewMark? {
      MarksKeepOthers(s, e);
    } else {
      OtherStepsKeepRows(s, e);
    }
  }

  lemma DestroyedTarget(s: State, e: Event)
    requires Enabled(s, e) && IsSection(e) && s.containers[Target(s, e)].status.Destroyed?
    ensures var c := Target(s, e); var t := SectionResult(s, e);
      c < |t.containers|
      && (!t.containers[c].status.Destroyed? <==> e.RestoreCall? && e.image && RowOf(s.snapshots, e.sid, c))
  {
    hide Stop, Restore, Create, DemoteOverlays, DropOverlays, LatestAuto;
    match e
    case RestoreCall(c, sid, image, stop, o) =>
    case StartCall(c, image, o, ro) =>
    case StopCall(c, o) =>
    case DestroyCall(c, stop, o) =>
    case RenewCleanup(c, stop, o) =>
    case SnapshotCall(c, name, w) =>
    case SweepRelease(w, o) =>
    case SweepSnapshot(w, name, world) =>
  }
}

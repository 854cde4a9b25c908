/** What each call does to its own container, said of its row, its instance and its files: when it succeeds,
    what it then leaves, and what a refusal or a failure leaves (src/services/container.service.ts). */
module SectionEffects {
  import opened Common
  import opened R = Runtime
  import opened Platform
  import opened Lifecycle
  import opened SnapshotIntegrity

  ghost predicate Up(s: State, c: nat) {
    c < |s.containers| && s.containers[c].status.Running? && s.containers[c].inst in s.rt.alive
  }

  ghost predicate OverlayHolds(s: State, c: nat, content: Content) {
    c < |s.containers|
    && OverlayAt(s.containers[c].inst) in s.rt.files && s.rt.files[OverlayAt(s.containers[c].inst)] == content
  }

  ghost predicate OverlayKept(s: State, t: State, c: nat)
    requires c < |s.containers|
  {
    SameFile(s.rt, t.rt, OverlayAt(s.containers[c].inst))
  }

  ghost predicate AliveIff(s: State, t: State, c: nat, alive: bool)
    requires c < |s.containers|
  {
    s.containers[c].inst in t.rt.alive <==> alive
  }

  // ---- auto names ----

  function Lower(c: char): char {
    if 'A' <= c <= 'Z' then c - 'A' + 'a' else c
  }

  /** SQL's LIKE: `%` stands for any text, `_` for any character, and ASCII letters match in either case. */
  predicate Like(s: string, pattern: string)
    decreases |pattern|
  {
    if pattern == "" then s == ""
    else if pattern[0] == '%' then exists k :: 0 <= k <= |s| && Like(s[k..], pattern[1..])
    else s != "" && (pattern[0] == '_' || Lower(s[0]) == Lower(pattern[0])) && Like(s[1..], pattern[1..])
  }

  lemma EverythingIsLikePercent(s: string)
    ensures Like(s, "%")
  {
    assert s[|s|..] == "" && "%"[1..] == "";
    assert Like(s[|s|..], "%"[1..]);
  }

  lemma LikeFirst(s: string, c: char, rest: string)
    requires c != '%' && c != '_'
    ensures Like(s, [c] + rest) <==> s != "" && Lower(s[0]) == Lower(c) && Like(s[1..], rest)
  {
    assert ([c] + rest)[1..] == rest;
  }

  /** The names `start` looks for. */
  lemma AutoNameIsLike(name: string)
    ensures AutoName(name) <==> Like(name, "auto-%")
  {
    hide Like;
    LikeFirst(name, 'a', "uto-%");
    if name != "" { LikeFirst(name[1..], 'u', "to-%"); }
    if |name| >= 2 { LikeFirst(name[2..], 't', "o-%"); }
    if |name| >= 3 { LikeFirst(name[3..], 'o', "-%"); }
    if |name| >= 4 { LikeFirst(name[4..], '-', "%"); }
    if |name| >= 5 { EverythingIsLikePercent(name[5..]); }
    assert "auto-%" == ['a'] + "uto-%" && "uto-%" == ['u'] + "to-%" && "to-%" == ['t'] + "o-%";
    assert "o-%" == ['o'] + "-%" && "-%" == ['-'] + "%";
  }

  // ---- restoring ----

  ghost predicate OwnSnapshot(s: State, c: nat, sid: nat) {
    Recorded(s, sid) && s.snapshots[sid].value.cid == c
  }

  /** The newest overlay row is the container's only current one, and has the given size; rows of other
      containers are as they were, and its own keep their size. */
  ghost predicate NewCurrentRow(s: State, t: State, c: nat, size: nat) {
    var n := |s.overlays|;
    && |t.overlays| == n + 1 && t.overlays[n] == Some(OverlayRow(c, true, size))
    && forall i :: 0 <= i < n ==>
         && !IsCurrent(t.overlays[i], c)
         && t.overlays[i] == if s.overlays[i].Some? && s.overlays[i].value.cid == c
                             then Some(s.overlays[i].value.(current := false)) else s.overlays[i]
  }

  lemma DemotedRows(s: State, t: State, c: nat, size: nat)
    requires t.overlays == DemoteOverlays(s.overlays, c) + [Some(OverlayRow(c, true, size))]
    ensures NewCurrentRow(s, t, c, size)
  {
  }

  /** A restore succeeds exactly for one of the container's own snapshots whose file is there, when image and
      executor allow it. Then the container is up, and its overlay holds exactly what the snapshot's file held. */
  lemma RestoreBringsTheSnapshot(s: State, c: nat, sid: nat, image: bool, stop: StopOutcome, o: RestoreOutcome)
    requires c < |s.containers|
    ensures var (t, reply) := RestoreSection(s, c, sid, image, stop, o);
      && (reply.Done? <==>
            OwnSnapshot(s, c, sid) && image && o.Restored? && s.snapshots[sid].value.path in s.rt.files)
      && (reply.Done? ==>
            && Up(t, c) && OverlayHolds(t, c, s.rt.files[s.snapshots[sid].value.path])
            && t.containers[c] == s.containers[c].(
                 status := Running, hasOverlay := true, lastStarted := s.clock / 1000)
            && NewCurrentRow(s, t, c, s.snapshots[sid].value.size))
      && (reply.NotFound? <==> !OwnSnapshot(s, c, sid) || !image)
      && (reply.NotFound? ==> t == s)
      && (!reply.Done? && !reply.NotFound? ==>
            && reply.Failed? && c < |t.containers| && t.containers[c] == s.containers[c].(status := Stopped)
            && AliveIff(s, t, c, s.containers[c].inst in s.rt.alive
                                 && !(s.containers[c].status.Running? && stop.StopDone?))
            && t.overlays == s.overlays && FailedSwap(s, t, c, s.snapshots[sid].value.path, o))
  {
    hide RestoreFrom, NewCurrentRow, FailedSwap;
    if OwnSnapshot(s, c, sid) {
      RestoreFromOutcome(s, c, s.snapshots[sid].value, image, stop, o);
    }
  }

  /** What a restore that fails leaves at the overlay. */
  ghost predicate FailedSwap(s: State, t: State, c: nat, path: Path, o: RestoreOutcome)
    requires c < |s.containers|
  {
    if o.NotRestored? && o.remains.LeavesNone? then OverlayAt(s.containers[c].inst) !in t.rt.files
    else if o.NotRestored? && o.remains.HasSnapshot? && path in s.rt.files then OverlayHolds(t, c, s.rt.files[path])
    else OverlayKept(s, t, c)
  }

  lemma RestoreFromOutcome(s: State, c: nat, snap: Snapshot, image: bool, stop: StopOutcome, o: RestoreOutcome)
    requires c < |s.containers|
    ensures var (t, reply) := RestoreFrom(s, c, snap, image, stop, o);
      && reply == (if !image then NotFound else if o.Restored? && snap.path in s.rt.files then Done else Failed)
      && (reply.NotFound? ==> t == s)
      && (reply.Done? ==>
            && Up(t, c) && OverlayHolds(t, c, s.rt.files[snap.path])
            && t.containers[c] == s.containers[c].(
                 status := Running, hasOverlay := true, lastStarted := s.clock / 1000)
            && NewCurrentRow(s, t, c, snap.size))
      && (reply.Failed? ==>
            && c < |t.containers| && t.containers[c] == s.containers[c].(status := Stopped)
            && AliveIff(s, t, c, s.containers[c].inst in s.rt.alive
                                 && !(s.containers[c].status.Running? && stop.StopDone?))
            && t.overlays == s.overlays && FailedSwap(s, t, c, snap.path, o))
  {
    hide DemoteOverlays, NewCurrentRow;
    var (t, reply) := RestoreFrom(s, c, snap, image, stop, o);
    if reply.Done? {
      DemotedRows(s, t, c, snap.size);
    }
  }

  // ---- starting and stopping ----

  ghost predicate Resumes(s: State, c: nat)
    requires c < |s.containers|
  {
    s.containers[c].autoStopped && s.containers[c].status.Stopped? && LatestAuto(s.snapshots, c).Some?
  }

  /** What a start leaves of the row and the instance when it does not bring the container up. */
  ghost predicate LeftDown(s: State, t: State, c: nat)
    requires c < |s.containers|
  {
    && c < |t.containers| && t.containers[c].status == s.containers[c].status
    && t.containers[c].hasOverlay == s.containers[c].hasOverlay
    && AliveIff(s, t, c, s.containers[c].inst in s.rt.alive)
  }

  ghost predicate BroughtUp(s: State, t: State, c: nat) {
    Up(t, c) && t.containers[c].hasOverlay && t.containers[c].lastStarted == s.clock / 1000
  }

  lemma ResumeOutcome(s: State, c: nat, snap: Snapshot, image: bool, ro: RestoreOutcome)
    requires c < |s.containers| && s.containers[c].status.Stopped?
    ensures var (t, reply) := ResumeFrom(s, c, snap, image, ro);
      && reply == (if !image then NotFound else if RestoreWorks(s.rt, snap.path, ro) then Done else Failed)
      && (if reply.Done? then BroughtUp(s, t, c) else LeftDown(s, t, c))
      && c < |t.containers| && (t.containers[c].autoStopped <==> s.containers[c].autoStopped && !reply.Done?)
  {
    hide DemoteOverlays;
  }

  lemma PlainOutcome(s: State, c: nat, o: CreateOutcome)
    requires c < |s.containers| && !s.containers[c].status.Running?
    ensures var (t, reply) := PlainStart(s, c, o);
      && reply == (if o.Started? then Done else Failed)
      && (if reply.Done? then BroughtUp(s, t, c) else LeftDown(s, t, c))
      && c < |t.containers| && t.containers[c].autoStopped == s.containers[c].autoStopped
  {
  }

  /** Start: a running container is left alone and a destroyed one refused. Otherwise it comes up exactly when
      the image is there and the executor brings it up; a failed resume leaves it stopped with its marker, so
      that the next start tries again, and a failed plain start leaves its status. */
  lemma StartOutcome(s: State, c: nat, image: bool, o: CreateOutcome, ro: RestoreOutcome)
    requires c < |s.containers|
    ensures var (t, reply) := StartSection(s, c, image, o, ro); var row := s.containers[c];
      && (row.status.Running? ==> reply.Done? && t == s)
      && (row.status.Destroyed? ==> reply.InvalidState? && t == s)
      && (!row.status.Running? && !row.status.Destroyed? ==>
            && (reply.NotFound? <==> !image)
            && (reply.Done? <==> image && if Resumes(s, c) then
                  RestoreWorks(s.rt, s.snapshots[LatestAuto(s.snapshots, c).value].value.path, ro) else o.Started?)
            && (reply.Done? || reply.NotFound? || reply.Failed?)
            && (if reply.Done? then BroughtUp(s, t, c) else LeftDown(s, t, c))
            && c < |t.containers|
            && (t.containers[c].autoStopped <==>
                  row.autoStopped && (!row.status.Stopped? || (Resumes(s, c) && !reply.Done?))))
  {
    hide PlainStart, ResumeFrom, LatestAuto, RestoreWorks, BroughtUp, LeftDown;
    var row := s.containers[c];
    if !row.status.Running? && !row.status.Destroyed? {
      StaysDown(s, c);
      if Resumes(s, c) {
        ResumeOutcome(s, c, s.snapshots[LatestAuto(s.snapshots, c).value].value, image, ro);
      } else {
        PlainOutcome(s, c, o);
        PlainOutcome(ClearMarker(s, c), c, o);
        ClearedIsAlike(s, c, PlainStart(ClearMarker(s, c), c, o).0);
      }
    }
  }

  lemma StaysDown(s: State, c: nat)
    requires c < |s.containers|
    ensures LeftDown(s, s, c) && LeftDown(s, ClearMarker(s, c), c)
  {
  }

  lemma ClearedIsAlike(s: State, c: nat, t: State)
    requires c < |s.containers|
    ensures LeftDown(ClearMarker(s, c), t, c) <==> LeftDown(s, t, c)
    ensures BroughtUp(ClearMarker(s, c), t, c) <==> BroughtUp(s, t, c)
  {
  }

  /** Stop: exactly a running container is stopped, unless the executor throws; its files stay. */
  lemma StopOutcomeExactly(s: State, c: nat, o: StopOutcome)
    requires c < |s.containers|
    ensures var (t, reply) := StopSection(s, c, o); var row := s.containers[c];
      && (reply.InvalidState? <==> !row.status.Running?)
      && (reply.Done? <==> row.status.Running? && !o.StopThrew?)
      && (!reply.Done? ==> t == s)
      && (reply.Done? ==>
            && t == s.(containers := s.containers[c := row.(status := Stopped)], rt := t.rt)
            && t.rt.files == s.rt.files && AliveIff(s, t, c, row.inst in s.rt.alive && !o.StopDone?))
  {
  }

  /** Release: the reaper stops and marks exactly the run its sweep saw, unless the executor throws. */
  lemma ReleaseOutcomeExactly(s: State, c: nat, stamp: nat, o: StopOutcome)
    requires c < |s.containers|
    ensures var (t, released) := ReleaseSection(s, c, stamp, o); var row := s.containers[c];
      && (released <==> row.status.Running? && row.lastStarted == stamp && !o.StopThrew?)
      && (!released ==> t == s)
      && (released ==>
            && t == s.(containers := s.containers[c := row.(status := Stopped, autoStopped := true)], rt := t.rt)
            && t.rt.files == s.rt.files && AliveIff(s, t, c, row.inst in s.rt.alive && !o.StopDone?))
  {
  }

  // ---- destroying ----

  /** The executor's destroy is called, since the stop before it did not throw. */
  predicate DestroyReached(s: State, c: nat, stop: StopOutcome)
    requires c < |s.containers|
  {
    !(s.containers[c].status.Running? && stop.StopThrew?)
  }

  predicate KilledByDestroy(o: DestroyOutcome) {
    o.DestroyDone? || (o.DestroyThrew? && o.stopped)
  }

  /** Destroy: the row is destroyed and its overlay rows are gone whatever the executor does; instance and
      overlay file are gone exactly as far as the executor got; snapshots, rows and files, stay. */
  lemma DestroyOutcomeExactly(s: State, c: nat, stop: StopOutcome, o: DestroyOutcome)
    requires c < |s.containers|
    ensures var (t, reply) := DestroySection(s, c, stop, o); var row := s.containers[c];
      && reply.Done?
      && (row.status.Destroyed? ==> t == s)
      && (!row.status.Destroyed? ==>
            && t.containers == s.containers[c := row.(status := Destroyed)]
            && t.snapshots == s.snapshots && SnapshotFilesKept(s.rt, t.rt)
            && AliveIff(s, t, c, && row.inst in s.rt.alive && !(row.status.Running? && stop.StopDone?)
                                 && !(DestroyReached(s, c, stop) && KilledByDestroy(o)))
            && (OverlayAt(row.inst) in t.rt.files <==>
                  && OverlayAt(row.inst) in s.rt.files
                  && !(DestroyReached(s, c, stop) && !o.DestroyThrew? && row.hasOverlay))
            && |t.overlays| == |s.overlays|
            && forall i :: 0 <= i < |s.overlays| ==>
                 t.overlays[i] == if s.overlays[i].Some? && s.overlays[i].value.cid == c then None else s.overlays[i])
  {
  }

  // ---- snapshots ----

  ghost function RowsOf(snaps: seq<Option<Snapshot>>, c: nat): set<nat> {
    set i: nat | i < |snaps| && snaps[i].Some? && snaps[i].value.cid == c
  }

  lemma {:induction false} CountIsNumberOfRows(snaps: seq<Option<Snapshot>>, c: nat)
    ensures CountSnapshots(snaps, c) == |RowsOf(snaps, c)|
  {
    if snaps != [] {
      var rest := snaps[1..];
      CountIsNumberOfRows(rest, c);
      var shifted := set i | i in RowsOf(rest, c) :: i + 1;
      SameSize(RowsOf(rest, c), shifted);
      var first: set<nat> := if snaps[0].Some? && snaps[0].value.cid == c then {0} else {};
      assert RowsOf(snaps, c) == first + shifted by {
        forall i: nat ensures i in RowsOf(snaps, c) <==> i in first + shifted {
          if i in RowsOf(snaps, c) && i > 0 {
            assert rest[i - 1] == snaps[i] && i - 1 in RowsOf(rest, c);
          }
        }
      }
    }
  }

  lemma {:induction false} SameSize(xs: set<nat>, ys: set<nat>)
    requires ys == set x | x in xs :: x + 1
    ensures |ys| == |xs|
    decreases |xs|
  {
    if xs != {} {
      var x :| x in xs;
      var less := set y | y in xs - {x} :: y + 1;
      assert ys - {x + 1} == less by {
        forall y ensures y in ys - {x + 1} <==> y in less {
          if y in ys - {x + 1} {
            assert y - 1 in xs - {x};
          }
        }
      }
      SameSize(xs - {x}, less);
    }
  }

  /** The checks before anything is touched. */
  ghost predicate SnapshotAllowed(s: State, c: nat, name: string, w: SnapshotWorld)
    requires c < |s.containers|
  {
    && !s.containers[c].status.Destroyed?
    && |RowsOf(s.snapshots, c)| < w.maxSnapshots
    && forall i :: i in RowsOf(s.snapshots, c) ==> s.snapshots[i].value.name != name
  }

  lemma RefusedExactly(s: State, c: nat, name: string, w: SnapshotWorld)
    requires c < |s.containers|
    ensures var refusal := SnapshotRefusal(s, c, name, w);
      && (refusal.Done? <==> SnapshotAllowed(s, c, name, w))
      && (refusal.BadRequest? <==>
            && !s.containers[c].status.Destroyed? && |RowsOf(s.snapshots, c)| < w.maxSnapshots
            && !SnapshotAllowed(s, c, name, w))
      && (refusal.Done? || refusal.BadRequest? || refusal.InvalidState?)
  {
    CountIsNumberOfRows(s.snapshots, c);
    if NameTaken(s.snapshots, c, name) {
      var i :| 0 <= i < |s.snapshots| && s.snapshots[i].Some?
               && s.snapshots[i].value.cid == c && s.snapshots[i].value.name == name;
      assert i in RowsOf(s.snapshots, c);
    }
  }

  /** The copy the executor makes of the quiesced overlay. */
  predicate CopyMade(s: State, c: nat, w: SnapshotWorld)
    requires c < |s.containers|
  {
    w.copy.Copied? && s.containers[c].hasOverlay && OverlayAt(s.containers[c].inst) in s.rt.files
  }

  /** Copying and recording: recorded exactly when the copy is made, the owner's usage with it stays within
      the limit, and no container of the owner uses the name. */
  ghost predicate RecordsCopy(s: State, t: State, reply: Reply, c: nat, name: string, w: SnapshotWorld)
    requires c < |s.containers|
  {
    var row := s.containers[c];
    var p := SnapshotAt(row.inst, name);
    && (reply.Done? <==>
          && CopyMade(s, c, w) && Usage(s, row.user) + w.copy.size <= w.limitBytes
          && !UserNameTaken(s.snapshots, row.user, name))
    && (reply.QuotaExceeded? <==> CopyMade(s, c, w) && Usage(s, row.user) + w.copy.size > w.limitBytes)
    && (reply.Done? || reply.QuotaExceeded? || reply.Failed?)
    && (reply.Done? ==>
          && t.snapshots == s.snapshots + [Some(Snapshot.Snapshot(
               c, row.user, name, p, w.copy.size, s.rt.files[OverlayAt(row.inst)]))]
          && p in t.rt.files && t.rt.files[p] == s.rt.files[OverlayAt(row.inst)])
    && (!reply.Done? ==> t.snapshots == s.snapshots)
    && (CopyMade(s, c, w) && !reply.Done? && w.orphanRemoved ==> p !in t.rt.files)
    && (!CopyMade(s, c, w) ==> (p in t.rt.files <==> w.copy.NotCopied? && w.copy.left.Some?))
  }

  lemma CopyOutcome(s: State, c: nat, name: string, w: SnapshotWorld)
    requires c < |s.containers|
    ensures var (t, reply) := CopyAndRecord(s, c, name, w); RecordsCopy(s, t, reply, c, name, w)
  {
    hide Usage, UserNameTaken, CurrentOverlay;
  }

  /** Snapshot: refused without effect exactly by its checks. Otherwise it is recorded exactly when the copy
      is made, the owner's usage with it stays within the limit, and no container of the owner uses the name;
      then the row describes the copy, and its file holds what the overlay held. A copy that is not recorded
      is removed. */
  lemma SnapshotOutcome(s: State, c: nat, name: string, restartAfter: bool, w: SnapshotWorld)
    requires c < |s.containers|
    ensures var (t, reply) := SnapshotSection(s, c, name, restartAfter, w);
      && (!SnapshotAllowed(s, c, name, w) ==>
            && t == s && (reply.InvalidState? || reply.BadRequest?)
            && (reply.BadRequest? <==>
                  !s.containers[c].status.Destroyed? && |RowsOf(s.snapshots, c)| < w.maxSnapshots))
      && (SnapshotAllowed(s, c, name, w) ==> RecordsCopy(s, t, reply, c, name, w))
  {
    RefusedExactly(s, c, name, w);
    if SnapshotAllowed(s, c, name, w) {
      hide SnapshotAllowed, CopyAndRecord, SnapshotSection, SnapshotRefusal;
      var row := s.containers[c];
      var quiet := if row.status.Running? then s.(rt := Stop(s.rt, row.inst, w.stop)) else s;
      QuietCopy(s, c, name, restartAfter, w);
      CopyOutcome(quiet, c, name, w);
      assert SameFile(CopyAndRecord(quiet, c, name, w).0.rt, SnapshotSection(s, c, name, restartAfter, w).0.rt,
                      SnapshotAt(row.inst, name));
    }
  }

  lemma QuietCopy(s: State, c: nat, name: string, restartAfter: bool, w: SnapshotWorld)
    requires c < |s.containers| && SnapshotRefusal(s, c, name, w).Done?
    ensures var row := s.containers[c];
      var quiet := if row.status.Running? then s.(rt := Stop(s.rt, row.inst, w.stop)) else s;
      var (u, reply) := CopyAndRecord(quiet, c, name, w);
      var (t, r) := SnapshotSection(s, c, name, restartAfter, w);
      && r == reply && t.snapshots == u.snapshots && SnapshotFilesKept(u.rt, t.rt)
      && Usage(quiet, row.user) == Usage(s, row.user) && quiet.rt.files == s.rt.files
      && quiet.snapshots == s.snapshots && quiet.containers == s.containers
  {
    hide CopyAndRecord, Usage;
    var row := s.containers[c];
    var quiet := if row.status.Running? then s.(rt := Stop(s.rt, row.inst, w.stop)) else s;
    CopyIsLocal(quiet, c, name, w);
    RuntimeKeepsSnapshotFiles(CopyAndRecord(quiet, c, name, w).0.rt, row.inst);
    SameUsage(s, quiet, row.user);
  }

  lemma SameUsage(s: State, t: State, user: nat)
    requires t.overlays == s.overlays && t.containers == s.containers
    requires t.snapshots == s.snapshots && t.workspaces == s.workspaces
    ensures Usage(t, user) == Usage(s, user)
  {
  }

  predicate Restarted(w: SnapshotWorld) {
    w.image && w.restart.Started?
  }

  /** Whatever becomes of the copy: the overlay keeps its content; a container that was not running is left
      as it is; a running one is brought up again, or marked stopped when that fails; without a restart its
      row is left as it is. */
  lemma SnapshotLeavesContainer(s: State, c: nat, name: string, restartAfter: bool, w: SnapshotWorld)
    requires c < |s.containers| && SnapshotAllowed(s, c, name, w)
    ensures var t := SnapshotSection(s, c, name, restartAfter, w).0; var row := s.containers[c];
      && c < |t.containers|
      && (OverlayAt(row.inst) in s.rt.files ==> OverlayKept(s, t, c))
      && var stopped := row.status.Running? && w.stop.StopDone?;
         var again := row.status.Running? && restartAfter && Restarted(w);
         && AliveIff(s, t, c, (row.inst in s.rt.alive && !stopped) || again)
         && t.containers[c] == if row.status.Running? && restartAfter && !Restarted(w)
                               then row.(status := Stopped) else row
  {
    RefusedExactly(s, c, name, w);
    hide CopyAndRecord, SnapshotAllowed;
    var row := s.containers[c];
    var quiet := if row.status.Running? then s.(rt := Stop(s.rt, row.inst, w.stop)) else s;
    CopyIsLocal(quiet, c, name, w);
    CopyKeepsOverlay(quiet, c, name, w);
  }

  // ---- creating ----

  /** Create, when nobody comes between its steps: the new container belongs to its user; it is up, on the
      overlay made for it, and counts no bytes yet, exactly when the executor started it, and else in error. */
  lemma CreateOutcomeExactly(s: State, user: nat, inst: string, o: CreateOutcome)
    requires Enabled(s, CreateInsert(user, inst))
    ensures var c := |s.containers|; var s1 := Step(s, CreateInsert(user, inst));
      && Enabled(s1, CreateExec(c, o))
      && var s2 := Step(s1, CreateExec(c, o));
      && Enabled(s2, CreateMark(c))
      && var t := Step(s2, CreateMark(c));
      && |t.containers| == c + 1 && t.containers[..c] == s.containers && c !in t.creates
      && t.containers[c].user == user && t.containers[c].inst == inst && !t.containers[c].autoStopped
      && if o.Started? then
           && Up(t, c) && t.containers[c].hasOverlay && t.containers[c].lastStarted == s.clock / 1000
           && OverlayHolds(t, c, if OverlayAt(inst) in s.rt.files then s.rt.files[OverlayAt(inst)] else o.content)
           && t.overlays == s.overlays + [Some(OverlayRow(c, true, 0))]
         else
           && t.containers[c].status.Error? && inst !in t.rt.alive && t.overlays == s.overlays
           && (OverlayAt(inst) in t.rt.files <==> OverlayAt(inst) in s.rt.files || o.left.Some?)
  {
  }
}

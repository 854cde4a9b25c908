/** The file swap inside a restore, step by step with failures and crashes: the command-line executor's
    (src/executors/apptainer-cli-executor.ts) and the SSH executor's shell line (src/executors/ssh-executor.ts). */
module OverlaySwap {

  /** What a path holds: a file or directory tree, whole or only part of it, or a directory into which
      another entry was moved or copied. */
  datatype Entry = Missing | Node(content: nat, whole: bool, dir: bool) | Nested(outer: Entry, inner: Entry)

  predicate IsDir(e: Entry) {
    e.Nested? || (e.Node? && e.dir)
  }

  /** The overlay path and its `.restore-tmp` and `.restore-old` siblings. */
  datatype Disk = Disk(overlay: Entry, tmp: Entry, aside: Entry)

  datatype Step = RemoveTmp | RemoveOld | Copy | MoveAside | MoveIn | DropOld

  /** A step succeeds, fails, or the host dies in it; a removal or copy may by then have done part of its work. */
  datatype Outcome = Done | Failed(partial: bool) | Crashed(partial: bool)

  datatype Variant = Cli | Ssh

  datatype Ending = Completed | Raised | Died

  function Plan(v: Variant): (p: seq<Step>)
    ensures |p| == 6
  {
    match v
    case Cli => [RemoveTmp, RemoveOld, Copy, MoveAside, MoveIn, DropOld]
    case Ssh => [RemoveTmp, Copy, RemoveOld, MoveAside, MoveIn, DropOld]
  }

  /** Failures the code goes on after: `.catch` on the rename; `;` and `|| true` in the shell line. */
  predicate Tolerated(v: Variant, s: Step) {
    s == MoveAside || (v == Ssh && (s == RemoveTmp || s == RemoveOld))
  }

  // ---- effects ----

  function Part(e: Entry): Entry {
    match e
    case Missing => Missing
    case Node(c, _, dir) => Node(c, false, dir)
    case Nested(_, _) => Node(0, false, true)
  }

  function Removed(e: Entry, o: Outcome): Entry {
    if o.Done? then Missing else if o.partial then Part(e) else e
  }

  /** `cp -a` into an existing directory copies beneath it. */
  function Copied(e: Entry, copy: Entry): Entry {
    if IsDir(e) then Nested(e, copy) else copy
  }

  predicate CanCopy(e: Entry, source: Entry) {
    e.Missing? || IsDir(e) || !IsDir(source)
  }

  /** rename(2) replaces its target, a file by a file or a directory by a directory; whether the latter is
      empty, as it must be, is left to the outcome. mv moves beneath an existing directory. */
  predicate CanMove(v: Variant, a: Entry, b: Entry) {
    !a.Missing? && (b.Missing? || (v == Ssh && IsDir(b)) || IsDir(a) == IsDir(b))
  }

  function Moved(v: Variant, a: Entry, b: Entry): Entry {
    if v == Ssh && IsDir(b) then Nested(b, a) else a
  }

  /** A success the files do not allow is a failure without effect. */
  function Actual(v: Variant, d: Disk, snap: Entry, s: Step, o: Outcome): Outcome {
    if !o.Done? then o
    else
      match s
      case Copy => if CanCopy(d.tmp, snap) then o else Failed(false)
      case MoveAside => if CanMove(v, d.overlay, d.aside) then o else Failed(false)
      case MoveIn => if CanMove(v, d.tmp, d.overlay) then o else Failed(false)
      case _ => o
  }

  function Effect(v: Variant, d: Disk, snap: Entry, s: Step, o: Outcome): Disk {
    match s
    case RemoveTmp => d.(tmp := Removed(d.tmp, o))
    case RemoveOld => d.(aside := Removed(d.aside, o))
    case DropOld => d.(aside := Removed(d.aside, o))
    case Copy =>
      if o.Done? then d.(tmp := Copied(d.tmp, snap))
      else if o.partial && CanCopy(d.tmp, snap) then d.(tmp := Copied(d.tmp, Part(snap)))
      else d
    case MoveAside =>
      if o.Done? then d.(overlay := Missing, aside := Moved(v, d.overlay, d.aside)) else d
    case MoveIn =>
      if o.Done? then d.(tmp := Missing, overlay := Moved(v, d.tmp, d.overlay)) else d
  }

  /** The disk and how the call ended, from step `k` on, under the given outcomes. */
  function RunFrom(v: Variant, k: nat, d: Disk, snap: Entry, os: seq<Outcome>): (Disk, Ending)
    requires k <= 6 && |os| == 6
    decreases 6 - k
  {
    if k == 6 then (d, Completed)
    else
      var s := Plan(v)[k];
      var o := Actual(v, d, snap, s, os[k]);
      var e := Effect(v, d, snap, s, o);
      if o.Crashed? then (e, Died)
      else if o.Failed? && !Tolerated(v, s) then (e, Raised)
      else RunFrom(v, k + 1, e, snap, os)
  }

  function Run(v: Variant, d: Disk, snap: Entry, os: seq<Outcome>): (Disk, Ending)
    requires |os| == 6
  {
    RunFrom(v, 0, d, snap, os)
  }

  /** The command-line executor's swap as it acts on the three paths. */
  class OverlayFiles {
    var overlay: Entry
    var tmp: Entry
    var aside: Entry

    ghost function Value(): Disk
      reads this
    {
      Disk(overlay, tmp, aside)
    }

    constructor (d: Disk)
      ensures Value() == d
    {
      overlay, tmp, aside := d.overlay, d.tmp, d.aside;
    }

    method Restore(snap: Entry, os: seq<Outcome>) returns (ending: Ending)
      requires |os| == 6
      modifies this
      ensures (Value(), ending) == Run(Cli, old(Value()), snap, os)
    {
      ghost var d0 := Value();
      tmp := Removed(tmp, os[0]);
      if !os[0].Done? {
        return if os[0].Failed? then Raised else Died;
      }
      ghost var d1 := Value();
      assert Run(Cli, d0, snap, os) == RunFrom(Cli, 1, d1, snap, os);
      aside := Removed(aside, os[1]);
      if !os[1].Done? {
        return if os[1].Failed? then Raised else Died;
      }
      ghost var d2 := Value();
      assert RunFrom(Cli, 1, d1, snap, os) == RunFrom(Cli, 2, d2, snap, os);
      if !os[2].Done? {
        if os[2].partial {
          tmp := Part(snap);
        }
        return if os[2].Failed? then Raised else Died;
      }
      tmp := snap;
      ghost var d3 := Value();
      assert RunFrom(Cli, 2, d2, snap, os) == RunFrom(Cli, 3, d3, snap, os);
      if os[3].Done? && CanMove(Cli, overlay, aside) {
        overlay, aside := Missing, overlay;
      } else if os[3].Crashed? {
        return Died;
      }
      ghost var d4 := Value();
      assert RunFrom(Cli, 3, d3, snap, os) == RunFrom(Cli, 4, d4, snap, os);
      if !os[4].Done? || !CanMove(Cli, tmp, overlay) {
        return if os[4].Crashed? then Died else Raised;
      }
      overlay, tmp := tmp, Missing;
      ghost var d5 := Value();
      assert RunFrom(Cli, 4, d4, snap, os) == RunFrom(Cli, 5, d5, snap, os);
      aside := Removed(aside, os[5]);
      if !os[5].Done? {
        return if os[5].Failed? then Raised else Died;
      }
      assert RunFrom(Cli, 5, d5, snap, os) == (Value(), Completed);
      ending := Completed;
    }
  }

  // ---- the command-line executor's swap ----

  predicate Whole(e: Entry) {
    e.Node? && e.whole
  }

  /** The old content is in place or set aside, or the complete snapshot is in place. */
  predicate Safe(d: Disk, live: Entry, snap: Entry) {
    d.overlay == live || d.aside == live || d.overlay == snap
  }

  predicate CliInv(k: nat, d: Disk, live: Entry, snap: Entry) {
    && Safe(d, live, snap)
    && (k <= 3 ==> d.overlay == live)
    && (1 <= k <= 2 ==> d.tmp.Missing?)
    && (3 <= k <= 4 ==> d.tmp == snap)
    && (k >= 5 ==> d.overlay == snap)
  }

  lemma {:induction false} CliStaysSafe(k: nat, d: Disk, live: Entry, snap: Entry, os: seq<Outcome>)
    requires k <= 6 && |os| == 6 && CliInv(k, d, live, snap)
    ensures Safe(RunFrom(Cli, k, d, snap, os).0, live, snap)
    decreases 6 - k
  {
    if k < 6 {
      var s := Plan(Cli)[k];
      var o := Actual(Cli, d, snap, s, os[k]);
      var e := Effect(Cli, d, snap, s, o);
      assert Safe(e, live, snap);
      if o.Done? || (o.Failed? && Tolerated(Cli, s)) {
        CliStaysSafe(k + 1, e, live, snap, os);
      }
    }
  }

  /** The swap is crash-safe from a disk exactly when the live content is at the overlay path: then, after any
      prefix of the steps and any failing step, it is still there or set aside, or the snapshot is in place;
      otherwise some failure loses it, even when it survived as `.restore-old`. */
  lemma CliSafeExactlyWhenLiveInPlace(d: Disk, live: Entry, snap: Entry)
    requires Whole(live) && Whole(snap)
    ensures (forall os: seq<Outcome> :: |os| == 6 ==> Safe(Run(Cli, d, snap, os).0, live, snap)) <==> d.overlay == live
  {
    if d.overlay == live {
      forall os: seq<Outcome> | |os| == 6 ensures Safe(Run(Cli, d, snap, os).0, live, snap) {
        CliStaysSafe(0, d, live, snap, os);
      }
    } else {
      // Fail in the copy, after `.restore-old` was removed; or, with the snapshot already in place, in the
      // move that puts it back.
      var copyFails := [Done, Done, Failed(false), Done, Done, Done];
      var moveFails := [Done, Done, Done, Done, Failed(false), Done];
      CopyFailure(d, snap, copyFails);
      if d.overlay == snap {
        MoveFailure(d, snap, moveFails);
      }
      assert !Safe(Run(Cli, d, snap, copyFails).0, live, snap) || !Safe(Run(Cli, d, snap, moveFails).0, live, snap);
    }
  }

  lemma CopyFailure(d: Disk, snap: Entry, os: seq<Outcome>)
    requires os == [Done, Done, Failed(false), Done, Done, Done]
    ensures Run(Cli, d, snap, os) == (Disk(d.overlay, Missing, Missing), Raised)
  {
    var d2 := Disk(d.overlay, Missing, Missing);
    assert RunFrom(Cli, 2, d2, snap, os) == (d2, Raised);
    assert RunFrom(Cli, 1, d.(tmp := Missing), snap, os) == (d2, Raised);
  }

  lemma MoveFailure(d: Disk, snap: Entry, os: seq<Outcome>)
    requires |os| == 6 && os[..4] == [Done, Done, Done, Done] && !os[4].Done? && !d.overlay.Missing?
    ensures Run(Cli, d, snap, os) == (Disk(Missing, snap, d.overlay), if os[4].Failed? then Raised else Died)
  {
    var d2 := Disk(d.overlay, Missing, Missing);
    var d4 := Disk(Missing, snap, d.overlay);
    var r := (d4, if os[4].Failed? then Raised else Died);
    assert os[0] == os[..4][0] && os[1] == os[..4][1] && os[2] == os[..4][2] && os[3] == os[..4][3];
    assert RunFrom(Cli, 4, d4, snap, os) == r;
    assert RunFrom(Cli, 3, d2.(tmp := snap), snap, os) == r;
    assert RunFrom(Cli, 2, d2, snap, os) == r;
    assert RunFrom(Cli, 1, d.(tmp := Missing), snap, os) == r;
  }

  /** From any disk, a completed swap leaves exactly the snapshot, and nothing beside it. */
  lemma CompletedCliSwapLeavesSnapshot(d: Disk, snap: Entry, os: seq<Outcome>)
    requires |os| == 6 && Run(Cli, d, snap, os).1 == Completed
    ensures Run(Cli, d, snap, os).0 == Disk(snap, Missing, Missing)
  {
  }

  /** The swap completes exactly when every step but the move aside succeeds, and that one at least does not
      kill the host; left in place, the old overlay must be of the snapshot's kind to be replaced. */
  lemma CliCompletesExactly(d: Disk, snap: Entry, os: seq<Outcome>)
    requires |os| == 6 && Whole(snap)
    ensures Run(Cli, d, snap, os).1 == Completed
            <==> && os[0].Done? && os[1].Done? && os[2].Done? && !os[3].Crashed? && os[4].Done? && os[5].Done?
                 && (os[3].Done? || d.overlay.Missing? || IsDir(d.overlay) == IsDir(snap))
  {
    if os[0].Done? && os[1].Done? && os[2].Done? {
      var d2 := Disk(d.overlay, Missing, Missing);
      assert Run(Cli, d, snap, os) == RunFrom(Cli, 1, d.(tmp := Missing), snap, os);
      assert RunFrom(Cli, 1, d.(tmp := Missing), snap, os) == RunFrom(Cli, 2, d2, snap, os);
      assert RunFrom(Cli, 2, d2, snap, os) == RunFrom(Cli, 3, d2.(tmp := snap), snap, os);
      MovesComplete(d2.(tmp := snap), snap, os);
    } else if os[0].Done? && os[1].Done? {
      assert Run(Cli, d, snap, os) == RunFrom(Cli, 1, d.(tmp := Missing), snap, os);
    }
  }

  lemma MovesComplete(d: Disk, snap: Entry, os: seq<Outcome>)
    requires |os| == 6 && Whole(snap) && d.tmp == snap && d.aside.Missing?
    ensures RunFrom(Cli, 3, d, snap, os).1 == Completed
            <==> && !os[3].Crashed? && os[4].Done? && os[5].Done?
                 && (os[3].Done? || d.overlay.Missing? || IsDir(d.overlay) == IsDir(snap))
  {
    var s := Plan(Cli)[3];
    var o := Actual(Cli, d, snap, s, os[3]);
    var d4 := Effect(Cli, d, snap, s, o);
    if !os[3].Crashed? {
      assert RunFrom(Cli, 3, d, snap, os) == RunFrom(Cli, 4, d4, snap, os);
      assert d4.tmp == snap && (d4.overlay.Missing? <==> os[3].Done? || d.overlay.Missing?);
      if os[4].Done? && CanMove(Cli, d4.tmp, d4.overlay) {
        var d5 := d4.(tmp := Missing, overlay := snap);
        assert RunFrom(Cli, 4, d4, snap, os) == RunFrom(Cli, 5, d5, snap, os);
        assert os[5].Done? ==> RunFrom(Cli, 5, d5, snap, os) == (d5.(aside := Missing), Completed);
      }
    }
  }

  ghost predicate TwoRunsLose(live: Entry, first: Entry, second: Entry, os1: seq<Outcome>, os2: seq<Outcome>) {
    && |os1| == 6 && |os2| == 6
    && var d1 := Run(Cli, Disk(live, Missing, Missing), first, os1).0;
       d1.aside == live && Run(Cli, d1, second, os2).0 == Disk(Missing, Missing, Missing)
  }

  /** A crash between the two moves, then a restore whose copy fails: the second run removed the only copy
      of the live content that the first had set aside. */
  lemma SecondRestoreLosesTheOldContent(live: Entry, first: Entry, second: Entry)
    requires Whole(live) && Whole(first) && Whole(second)
    ensures exists os1: seq<Outcome>, os2: seq<Outcome> :: TwoRunsLose(live, first, second, os1, os2)
  {
    var os1 := [Done, Done, Done, Done, Crashed(false), Done];
    var os2 := [Done, Done, Failed(false), Done, Done, Done];
    var d0 := Disk(live, Missing, Missing);
    MoveFailure(d0, first, os1);
    CopyFailure(Run(Cli, d0, first, os1).0, second, os2);
    assert TwoRunsLose(live, first, second, os1, os2);
  }

  // ---- the SSH executor's shell line ----

  /** The entry, or one side of a directory something was moved into. */
  predicate Keeps(e: Entry, live: Entry) {
    e == live || (e.Nested? && (e.outer == live || e.inner == live))
  }

  predicate SshSafe(d: Disk, live: Entry, snap: Entry) {
    Keeps(d.overlay, live) || Keeps(d.aside, live) || d.overlay == snap
  }

  predicate SshInv(k: nat, d: Disk, live: Entry, snap: Entry) {
    && (k <= 3 ==> d.overlay == live)
    && (k <= 1 ==> !IsDir(d.tmp) || snap == live)
    && (2 <= k <= 4 ==> d.tmp == snap || (snap == live && d.tmp.Nested? && d.tmp.inner == snap))
    && (k == 4 ==> d.overlay == live || (d.overlay.Missing? && Keeps(d.aside, live)))
    && (k >= 5 ==> d.overlay == snap || Keeps(d.overlay, live))
  }

  lemma {:induction false} SshStaysSafe(k: nat, d: Disk, live: Entry, snap: Entry, os: seq<Outcome>)
    requires k <= 6 && |os| == 6 && SshInv(k, d, live, snap)
    ensures SshSafe(RunFrom(Ssh, k, d, snap, os).0, live, snap)
    decreases 6 - k
  {
    if k < 6 {
      var s := Plan(Ssh)[k];
      var o := Actual(Ssh, d, snap, s, os[k]);
      var e := Effect(Ssh, d, snap, s, o);
      assert SshSafe(e, live, snap);
      if o.Done? || (o.Failed? && Tolerated(Ssh, s)) {
        SshStaysSafe(k + 1, e, live, snap, os);
      }
    }
  }

  /** The shell line goes on when it cannot clear `.restore-tmp`. From live content in place it is crash-safe
      exactly when no directory is left there: the copy then lands beneath the leftover, which is moved in. */
  lemma SshSafeExactlyWithoutLeftover(d: Disk, live: Entry, snap: Entry)
    requires Whole(live) && Whole(snap) && d.overlay == live
    ensures (forall os: seq<Outcome> :: |os| == 6 ==> SshSafe(Run(Ssh, d, snap, os).0, live, snap))
            <==> !IsDir(d.tmp) || snap == live
  {
    if !IsDir(d.tmp) || snap == live {
      forall os: seq<Outcome> | |os| == 6 ensures SshSafe(Run(Ssh, d, snap, os).0, live, snap) {
        SshStaysSafe(0, d, live, snap, os);
      }
    } else {
      var os := [Failed(true), Done, Done, Done, Done, Done];
      var junk := Part(d.tmp);
      var d1 := d.(tmp := junk);
      var d2 := d.(tmp := Nested(junk, snap));
      var d3 := d2.(aside := Missing);
      var d4 := Disk(Missing, Nested(junk, snap), live);
      var d5 := Disk(Nested(junk, snap), Missing, live);
      var d6 := Disk(Nested(junk, snap), Missing, Missing);
      assert RunFrom(Ssh, 5, d5, snap, os) == (d6, Completed);
      assert RunFrom(Ssh, 4, d4, snap, os) == (d6, Completed);
      assert RunFrom(Ssh, 3, d3, snap, os) == (d6, Completed);
      assert RunFrom(Ssh, 2, d2, snap, os) == (d6, Completed);
      assert RunFrom(Ssh, 1, d1, snap, os) == (d6, Completed);
      assert !SshSafe(Run(Ssh, d, snap, os).0, live, snap);
    }
  }

  predicate AsideWorks(d: Disk, os: seq<Outcome>)
    requires |os| == 6
  {
    os[3].Done? && CanMove(Ssh, d.overlay, Removed(d.aside, os[2]))
  }

  /** With no leftover directory, the shell line reports success exactly when copy, move in and the last
      removal succeed and what is left in place does not stand in the way of a directory: a failed clearing and
      a failed move aside go unnoticed. */
  lemma SshCompletesExactly(d: Disk, snap: Entry, os: seq<Outcome>)
    requires |os| == 6 && Whole(snap) && !IsDir(d.tmp)
    ensures Run(Ssh, d, snap, os).1 == Completed
            <==> && !os[0].Crashed? && os[1].Done? && !os[2].Crashed? && !os[3].Crashed?
                 && os[4].Done? && os[5].Done?
                 && (IsDir(snap) ==> os[0].Done? || d.tmp.Missing?)
                 && (IsDir(snap) ==> AsideWorks(d, os) || d.overlay.Missing? || IsDir(d.overlay))
  {
    var d1 := d.(tmp := Removed(d.tmp, os[0]));
    if !os[0].Crashed? {
      assert Run(Ssh, d, snap, os) == RunFrom(Ssh, 1, d1, snap, os);
      if os[1].Done? && CanCopy(d1.tmp, snap) {
        assert !IsDir(d1.tmp);
        var d2 := d1.(tmp := snap);
        assert RunFrom(Ssh, 1, d1, snap, os) == RunFrom(Ssh, 2, d2, snap, os);
        var d3 := d2.(aside := Removed(d.aside, os[2]));
        if !os[2].Crashed? {
          assert RunFrom(Ssh, 2, d2, snap, os) == RunFrom(Ssh, 3, d3, snap, os);
          SshMovesComplete(d3, snap, os);
        }
      }
    }
  }

  lemma SshMovesComplete(d: Disk, snap: Entry, os: seq<Outcome>)
    requires |os| == 6 && Whole(snap) && d.tmp == snap
    ensures RunFrom(Ssh, 3, d, snap, os).1 == Completed
            <==> && !os[3].Crashed? && os[4].Done? && os[5].Done?
                 && (IsDir(snap) ==>
                       (os[3].Done? && CanMove(Ssh, d.overlay, d.aside)) || d.overlay.Missing? || IsDir(d.overlay))
  {
    var s := Plan(Ssh)[3];
    var o := Actual(Ssh, d, snap, s, os[3]);
    var d4 := Effect(Ssh, d, snap, s, o);
    if !os[3].Crashed? {
      assert RunFrom(Ssh, 3, d, snap, os) == RunFrom(Ssh, 4, d4, snap, os);
      assert d4.tmp == snap;
      if os[4].Done? && CanMove(Ssh, d4.tmp, d4.overlay) {
        var d5 := d4.(tmp := Missing, overlay := Moved(Ssh, snap, d4.overlay));
        assert RunFrom(Ssh, 4, d4, snap, os) == RunFrom(Ssh, 5, d5, snap, os);
        assert os[5].Done? ==> RunFrom(Ssh, 5, d5, snap, os) == (d5.(aside := Missing), Completed);
      }
    }
  }

  /** With no leftover directory, a shell line that reports success has put the snapshot in place exactly
      when the old overlay was moved aside or is not a directory; otherwise the old content stays in place
      with the snapshot beneath it. */
  lemma CompletedSshSwap(d: Disk, snap: Entry, os: seq<Outcome>)
    requires |os| == 6 && Whole(snap) && !IsDir(d.tmp) && Run(Ssh, d, snap, os).1 == Completed
    ensures var overlay := Run(Ssh, d, snap, os).0.overlay;
      && (overlay == snap <==> AsideWorks(d, os) || !IsDir(d.overlay))
      && (overlay != snap ==> overlay == Nested(d.overlay, snap))
  {
    var d1 := d.(tmp := Removed(d.tmp, os[0]));
    assert Run(Ssh, d, snap, os) == RunFrom(Ssh, 1, d1, snap, os);
    var d2 := d1.(tmp := snap);
    assert RunFrom(Ssh, 1, d1, snap, os) == RunFrom(Ssh, 2, d2, snap, os);
    var d3 := d2.(aside := Removed(d.aside, os[2]));
    assert RunFrom(Ssh, 2, d2, snap, os) == RunFrom(Ssh, 3, d3, snap, os);
    var d4 := if AsideWorks(d, os) then d3.(overlay := Missing, aside := Moved(Ssh, d.overlay, d3.aside)) else d3;
    assert RunFrom(Ssh, 3, d3, snap, os) == RunFrom(Ssh, 4, d4, snap, os);
    var d5 := d4.(tmp := Missing, overlay := Moved(Ssh, snap, d4.overlay));
    assert RunFrom(Ssh, 4, d4, snap, os) == RunFrom(Ssh, 5, d5, snap, os);
    assert RunFrom(Ssh, 5, d5, snap, os).0 == d5.(aside := Missing);
  }
}

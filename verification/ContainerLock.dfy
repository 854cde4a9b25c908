/** The per-container promise-chain mutex (src/services/container-lock.ts).

    Every call of `withContainerLock` creates one section. Its promise chain is
    `prev.then(fn, fn)` (the section's run), the run's tail, and a clean-up job on
    the tail. JavaScript runs those jobs one at a time; the model lets every enabled
    job run next, so its runs include all orders a real scheduler can produce. */
module ContainerLock {
  import opened Common

  /** Queued: `prev` not settled yet or `fn` not called. Running: `fn` was called.
      Returned: the run promise resolved or rejected. Settled: the tail resolved.
      Cleaned: the clean-up job of the tail has run. */
  datatype Phase = Queued | Running | Returned(ok: bool) | Settled | Cleaned

  /** `prev` is the section whose tail the call found in the map, if any. */
  datatype Section = Section(cid: nat, prev: Option<nat>, phase: Phase) {
    predicate TailSettled() {
      phase.Settled? || phase.Cleaned?
    }
  }

  /** Sections are numbered in call order; `locks` maps a container to the section
      whose tail is its current map entry. */
  datatype State = State(sections: seq<Section>, locks: map<nat, nat>)

  datatype Event = Call(cid: nat) | Start(k: nat) | Return(k: nat, ok: bool) | Settle(k: nat) | Cleanup(k: nat)

  const INITIAL := State([], map[])

  predicate Enabled(s: State, e: Event) {
    match e
    case Call(_) => true
    case Start(k) =>
      && k < |s.sections|
      && s.sections[k].phase.Queued?
      && (s.sections[k].prev.Some? ==>
            s.sections[k].prev.value < |s.sections| && s.sections[s.sections[k].prev.value].TailSettled())
    case Return(k, _) => k < |s.sections| && s.sections[k].phase.Running?
    case Settle(k) => k < |s.sections| && s.sections[k].phase.Returned?
    case Cleanup(k) => k < |s.sections| && s.sections[k].phase.Settled?
  }

  function SetPhase(s: State, k: nat, p: Phase): State
    requires k < |s.sections|
  {
    s.(sections := s.sections[k := s.sections[k].(phase := p)])
  }

  function Step(s: State, e: Event): State
    requires Enabled(s, e)
  {
    match e
    case Call(c) =>
      State(s.sections + [Section(c, if c in s.locks then Some(s.locks[c]) else None, Queued)],
            s.locks[c := |s.sections|])
    case Start(k) => SetPhase(s, k, Running)
    case Return(k, ok) => SetPhase(s, k, Returned(ok))
    case Settle(k) => SetPhase(s, k, Settled)
    case Cleanup(k) =>
      var c := s.sections[k].cid;
      var t := SetPhase(s, k, Cleaned);
      if c in s.locks && s.locks[c] == k then t.(locks := s.locks - {c}) else t
  }

  ghost predicate Runs(s: State, es: seq<Event>)
    decreases |es|
  {
    es == [] || (Enabled(s, es[0]) && Runs(Step(s, es[0]), es[1..]))
  }

  ghost function After(s: State, es: seq<Event>): State
    requires Runs(s, es)
    decreases |es|
  {
    if es == [] then s else After(Step(s, es[0]), es[1..])
  }

  // ---- the state as the module-level map sees it ----

  /** The lock table: the module-level map and the promises it chains. */
  class LockTable {
    var sections: seq<Section>
    var locks: map<nat, nat>

    ghost function Value(): State
      reads this
    {
      State(sections, locks)
    }

    constructor ()
      ensures Value() == INITIAL
    {
      sections, locks := [], map[];
    }

    /** The synchronous part of withContainerLock: chain on the current tail, become the tail. */
    method WithContainerLock(cid: nat) returns (k: nat)
      modifies this
      ensures k == |old(sections)|
      ensures Value() == Step(old(Value()), Call(cid))
    {
      var prev := if cid in locks then Some(locks[cid]) else None;
      k := |sections|;
      sections := sections + [Section(cid, prev, Queued)];
      locks := locks[cid := k];
    }

    /** The section's own promise moves on: `fn` is called, the run settles, the tail resolves. */
    method Advance(e: Event)
      requires Enabled(Value(), e) && (e.Start? || e.Return? || e.Settle?)
      modifies this`sections
      ensures Value() == Step(old(Value()), e)
    {
      match e
      case Start(k) => sections := sections[k := sections[k].(phase := Running)];
      case Return(k, ok) => sections := sections[k := sections[k].(phase := Returned(ok))];
      case Settle(k) => sections := sections[k := sections[k].(phase := Settled)];
    }

    /** The clean-up job: delete the entry only if this tail is still the current one. */
    method CleanUp(k: nat)
      requires Enabled(Value(), Cleanup(k))
      modifies this
      ensures Value() == Step(old(Value()), Cleanup(k))
    {
      var c := sections[k].cid;
      sections := sections[k := sections[k].(phase := Cleaned)];
      if c in locks && locks[c] == k {
        locks := locks - {c};
      }
    }
  }

  // ---- the invariant ----

  /** Every section of k's container called before k has a settled tail. */
  ghost predicate EarlierSettled(s: State, k: nat)
    requires k < |s.sections|
  {
    forall j :: 0 <= j < k && s.sections[j].cid == s.sections[k].cid ==> s.sections[j].TailSettled()
  }

  /** j is the section of its container called directly before k. */
  ghost predicate DirectlyBefore(s: State, j: nat, k: nat)
    requires k < |s.sections|
  {
    && j < k && s.sections[j].cid == s.sections[k].cid
    && forall m :: j < m < k ==> s.sections[m].cid != s.sections[k].cid
  }

  ghost predicate LinkOk(s: State, k: nat)
    requires k < |s.sections|
  {
    match s.sections[k].prev
    case None => EarlierSettled(s, k)
    case Some(j) => DirectlyBefore(s, j, k)
  }

  /** The map entry of a container is its last section, not yet cleaned; a container without an
      entry has only settled sections, the last of them cleaned. */
  ghost predicate EntryOk(s: State, c: nat) {
    if c in s.locks then
      && s.locks[c] < |s.sections|
      && s.sections[s.locks[c]].cid == c && !s.sections[s.locks[c]].phase.Cleaned?
      && forall m :: s.locks[c] < m < |s.sections| ==> s.sections[m].cid != c
    else
      && (forall m :: 0 <= m < |s.sections| && s.sections[m].cid == c ==> s.sections[m].TailSettled())
      && (forall m :: 0 <= m < |s.sections| && s.sections[m].cid == c
                      && (forall n :: m < n < |s.sections| ==> s.sections[n].cid != c)
                      ==> s.sections[m].phase.Cleaned?)
  }

  ghost predicate Inv(s: State) {
    && (forall k :: 0 <= k < |s.sections| ==> LinkOk(s, k))
    && (forall k :: 0 <= k < |s.sections| && !s.sections[k].phase.Queued? ==> EarlierSettled(s, k))
    && (forall c :: EntryOk(s, c))
  }

  lemma SettledChain(s: State, k: nat)
    requires Inv(s) && k < |s.sections|
    requires s.sections[k].prev.Some? ==>
      s.sections[k].prev.value < |s.sections| && s.sections[s.sections[k].prev.value].TailSettled()
    ensures EarlierSettled(s, k)
  {
    assert LinkOk(s, k);
    match s.sections[k].prev
    case None =>
    case Some(j) =>
      assert DirectlyBefore(s, j, k);
      assert EarlierSettled(s, j);
  }

  lemma CallKeepsInv(s: State, c: nat)
    requires Inv(s)
    ensures Inv(Step(s, Call(c)))
  {
    var t := Step(s, Call(c));
    var n := |s.sections|;
    assert forall k :: 0 <= k < n ==> t.sections[k] == s.sections[k];
    assert EntryOk(s, c);
    forall k | 0 <= k < |t.sections| ensures LinkOk(t, k) {
      if k < n {
        assert LinkOk(s, k);
      }
    }
    forall k | 0 <= k < |t.sections| && !t.sections[k].phase.Queued? ensures EarlierSettled(t, k) {
      assert EarlierSettled(s, k);
    }
    forall d ensures EntryOk(t, d) {
      assert EntryOk(s, d);
    }
  }

  /** Call order survives any step that unsettles no tail and changes no link. */
  lemma SettlingKeepsOrder(s: State, t: State)
    requires forall k :: 0 <= k < |s.sections| ==> LinkOk(s, k)
    requires |t.sections| == |s.sections|
    requires forall k :: 0 <= k < |s.sections| && !t.sections[k].phase.Queued? ==> EarlierSettled(s, k)
    requires forall j :: 0 <= j < |s.sections| ==>
      && t.sections[j].cid == s.sections[j].cid && t.sections[j].prev == s.sections[j].prev
      && (s.sections[j].TailSettled() ==> t.sections[j].TailSettled())
    ensures forall k :: 0 <= k < |t.sections| ==> LinkOk(t, k)
    ensures forall k :: 0 <= k < |t.sections| && !t.sections[k].phase.Queued? ==> EarlierSettled(t, k)
  {
    forall k | 0 <= k < |t.sections| && EarlierSettled(s, k) ensures EarlierSettled(t, k) {}
    forall k | 0 <= k < |t.sections| ensures LinkOk(t, k) {
      assert LinkOk(s, k);
    }
  }

  lemma PhaseStepKeepsInv(s: State, e: Event)
    requires Inv(s) && Enabled(s, e) && (e.Start? || e.Return? || e.Settle?)
    ensures Inv(Step(s, e))
  {
    var t := Step(s, e);
    var k := e.k;
    assert forall j :: 0 <= j < |s.sections| && j != k ==> t.sections[j] == s.sections[j];
    if e.Start? {
      SettledChain(s, k);
    }
    assert EarlierSettled(s, k);
    SettlingKeepsOrder(s, t);
    forall d ensures EntryOk(t, d) {
      assert EntryOk(s, d);
    }
  }

  lemma CleanupKeepsInv(s: State, k: nat)
    requires Inv(s) && Enabled(s, Cleanup(k))
    ensures Inv(Step(s, Cleanup(k)))
  {
    var t := Step(s, Cleanup(k));
    var c := s.sections[k].cid;
    assert forall j :: 0 <= j < |s.sections| && j != k ==> t.sections[j] == s.sections[j];
    assert EarlierSettled(s, k);
    SettlingKeepsOrder(s, t);
    forall d ensures EntryOk(t, d) {
      assert EntryOk(s, d);
      if d == c {
        if c in s.locks && s.locks[c] == k {
          forall m | 0 <= m < |t.sections| && t.sections[m].cid == c ensures m <= k && t.sections[m].TailSettled() {}
        }
      }
    }
  }

  lemma {:induction false} RunsKeepInv(s: State, es: seq<Event>)
    requires Inv(s) && Runs(s, es)
    ensures Inv(After(s, es))
    decreases |es|
  {
    if es != [] {
      match es[0] {
        case Call(c) => CallKeepsInv(s, c);
        case Cleanup(k) => CleanupKeepsInv(s, k);
        case _ => PhaseStepKeepsInv(s, es[0]);
      }
      RunsKeepInv(Step(s, es[0]), es[1..]);
    }
  }

  ghost predicate Reachable(s: State) {
    exists es :: Runs(INITIAL, es) && After(INITIAL, es) == s
  }

  lemma ReachableInv(s: State)
    requires Reachable(s)
    ensures Inv(s)
  {
    var es :| Runs(INITIAL, es) && After(INITIAL, es) == s;
    RunsKeepInv(INITIAL, es);
  }

  // ---- what the lock promises ----

  /** Two sections of one container are never inside `fn` together. */
  lemma MutualExclusion(s: State, j: nat, k: nat)
    requires Reachable(s) && j < |s.sections| && k < |s.sections|
    requires s.sections[j].phase.Running? && s.sections[k].phase.Running?
    requires s.sections[j].cid == s.sections[k].cid
    ensures j == k
  {
    ReachableInv(s);
    assert EarlierSettled(s, j) && EarlierSettled(s, k);
  }

  /** A queued section may start exactly when every section of its container called before it has
      settled, whether those resolved or rejected: sections start in call order, and none is skipped. */
  lemma StartsExactlyInCallOrder(s: State, k: nat)
    requires Reachable(s) && k < |s.sections| && s.sections[k].phase.Queued?
    ensures Enabled(s, Start(k)) <==> EarlierSettled(s, k)
  {
    ReachableInv(s);
    assert LinkOk(s, k);
    if Enabled(s, Start(k)) {
      SettledChain(s, k);
    }
  }

  lemma {:induction false} FirstUnsettled(s: State, c: nat, k: nat) returns (j: nat)
    requires k < |s.sections| && s.sections[k].cid == c && !s.sections[k].TailSettled()
    ensures j <= k && s.sections[j].cid == c && !s.sections[j].TailSettled() && EarlierSettled(s, j)
    decreases k
  {
    if EarlierSettled(s, k) {
      j := k;
    } else {
      var m :| 0 <= m < k && s.sections[m].cid == c && !s.sections[m].TailSettled();
      j := FirstUnsettled(s, c, m);
    }
  }

  /** The lock never gets stuck: while some section of a container is unsettled, its first unsettled
      section can move (its `fn` is called, or is already running and may return, or its tail settles). */
  lemma NeverStuck(s: State, c: nat, k: nat)
    requires Reachable(s) && k < |s.sections| && s.sections[k].cid == c && !s.sections[k].TailSettled()
    ensures exists j: nat :: j <= k && s.sections[j].cid == c
                             && (Enabled(s, Start(j)) || Enabled(s, Return(j, true)) || Enabled(s, Settle(j)))
  {
    var j := FirstUnsettled(s, c, k);
    ReachableInv(s);
    if s.sections[j].phase.Queued? {
      StartsExactlyInCallOrder(s, j);
    }
    assert Enabled(s, Start(j)) || Enabled(s, Return(j, true)) || Enabled(s, Settle(j));
  }

  function Rank(p: Phase): nat {
    match p
    case Queued => 4
    case Running => 3
    case Returned(_) => 2
    case Settled => 1
    case Cleaned => 0
  }

  function Work(sections: seq<Section>): (w: nat)
    ensures w <= 4 * |sections|
  {
    if sections == [] then 0 else Rank(sections[0].phase) + Work(sections[1..])
  }

  lemma {:induction false} WorkUpdate(sections: seq<Section>, k: nat, p: Phase)
    requires k < |sections|
    ensures Work(sections[k := sections[k].(phase := p)]) == Work(sections) - Rank(sections[k].phase) + Rank(p)
  {
    var u := sections[k := sections[k].(phase := p)];
    if k == 0 {
      assert u[1..] == sections[1..];
    } else {
      assert u[1..] == sections[1..][k - 1 := sections[1..][k - 1].(phase := p)];
      WorkUpdate(sections[1..], k - 1, p);
    }
  }

  /** With no further calls, every run is short: each job lowers the remaining work by one. */
  lemma {:induction false} DrainsWithoutNewCalls(s: State, es: seq<Event>)
    requires Runs(s, es) && (forall i :: 0 <= i < |es| ==> !es[i].Call?)
    ensures |es| + Work(After(s, es).sections) == Work(s.sections)
    decreases |es|
  {
    if es != [] {
      var e := es[0];
      assert !e.Call?;
      WorkUpdate(s.sections, e.k, Step(s, e).sections[e.k].phase);
      DrainsWithoutNewCalls(Step(s, e), es[1..]);
    }
  }

  /** The map entry of a container is gone exactly when its last section's clean-up has run, so an
      entry is never deleted under a queued section, and a drained lock leaves no entry behind. */
  lemma EntryGoneExactlyWhenDrained(s: State, c: nat, last: nat)
    requires Reachable(s) && last < |s.sections| && s.sections[last].cid == c
    requires forall m :: last < m < |s.sections| ==> s.sections[m].cid != c
    ensures c !in s.locks <==> s.sections[last].phase.Cleaned?
    ensures c !in s.locks ==>
              forall m :: 0 <= m < |s.sections| && s.sections[m].cid == c ==> s.sections[m].TailSettled()
  {
    ReachableInv(s);
    assert EntryOk(s, c);
  }

  /** Once no job is left to run, every section has finished and the whole map is empty: nothing leaks. */
  lemma QuiescentMeansEmpty(s: State)
    requires Reachable(s)
    requires forall e: Event :: Enabled(s, e) ==> e.Call?
    ensures forall k :: 0 <= k < |s.sections| ==> s.sections[k].phase.Cleaned?
    ensures s.locks == map[]
  {
    ReachableInv(s);
    forall k | 0 <= k < |s.sections| ensures s.sections[k].phase.Cleaned? {
      if !s.sections[k].TailSettled() {
        NeverStuck(s, s.sections[k].cid, k);
        assert false;
      }
      assert !Enabled(s, Cleanup(k));
    }
    forall c ensures c !in s.locks {
      assert EntryOk(s, c);
    }
  }

  // ---- nesting ----

  /** A run in which section `k` returns only after section `j` has settled: the body of `k` awaits `j`. */
  ghost predicate AwaitsInside(s: State, es: seq<Event>, k: nat, j: nat)
    requires Runs(s, es)
    decreases |es|
  {
    es == []
    || (&& (es[0].Return? && es[0].k == k ==> j < |s.sections| && s.sections[j].TailSettled())
        && AwaitsInside(Step(s, es[0]), es[1..], k, j))
  }

  /** The lock is not reentrant: if a running section awaits a section of the same container called
      after it, then in every continuation the first never returns and the second never starts. */
  lemma {:induction false} NestingDeadlocks(s: State, es: seq<Event>, k: nat, j: nat)
    requires Inv(s) && Runs(s, es) && k < j < |s.sections|
    requires s.sections[k].cid == s.sections[j].cid
    requires s.sections[k].phase.Running? && s.sections[j].phase.Queued?
    requires AwaitsInside(s, es, k, j)
    ensures var t := After(s, es);
      k < j < |t.sections| && t.sections[k].phase.Running? && t.sections[j].phase.Queued?
    decreases |es|
  {
    if es != [] {
      var e := es[0];
      RunsKeepInv(s, [e]);
      assert After(s, [e]) == Step(s, e);
      if e == Start(j) {
        SettledChain(s, j);
        assert false;
      }
      NestingDeadlocks(Step(s, e), es[1..], k, j);
    }
  }
}

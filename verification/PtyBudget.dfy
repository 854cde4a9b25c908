/** Terminal sessions (src/routes/pty.ts): the input budget of one session and the per-container
    session counters. */
module PtyBudget {
  import opened Common

  // ---- the input budget ----

  /** `perSecond` and `total` are the configured byte limits. */
  datatype Limits = Limits(perSecond: nat, total: nat)

  /** One input frame: its UTF-8 size and the clock in milliseconds. */
  datatype Frame = Frame(size: nat, time: nat)

  /** inputWindowStart, inputWindowBytes, bytesIn */
  datatype Budget = Budget(start: nat, used: nat, taken: nat)

  const FRESH := Budget(0, 0, 0)

  function Offer(l: Limits, b: Budget, f: Frame): (r: (Budget, bool))
    requires b.start <= f.time
  {
    var reset := f.time - b.start >= 1000;
    var start := if reset then f.time else b.start;
    var used := (if reset then 0 else b.used) + f.size;
    var ok := used <= l.perSecond && b.taken + f.size <= l.total;
    (Budget(start, used, if ok then b.taken + f.size else b.taken), ok)
  }

  class InputBudget {
    const limits: Limits
    var inputWindowStart: nat
    var inputWindowBytes: nat
    var bytesIn: nat

    ghost function Value(): Budget
      reads this
    {
      Budget(inputWindowStart, inputWindowBytes, bytesIn)
    }

    constructor (limits: Limits)
      ensures this.limits == limits && Value() == FRESH
    {
      this.limits := limits;
      inputWindowStart, inputWindowBytes, bytesIn := 0, 0, 0;
    }

    method InputAllowed(n: nat, now: nat) returns (allowed: bool)
      requires inputWindowStart <= now
      modifies this`inputWindowStart, this`inputWindowBytes
      ensures allowed == Offer(limits, old(Value()), Frame(n, now)).1
      ensures Value().(taken := 0) == Offer(limits, old(Value()), Frame(n, now)).0.(taken := 0)
    {
      if now - inputWindowStart >= 1000 {
        inputWindowStart := now;
        inputWindowBytes := 0;
      }
      inputWindowBytes := inputWindowBytes + n;
      allowed := inputWindowBytes <= limits.perSecond && bytesIn + n <= limits.total;
    }

    /** The `input` branch of the message handler; a refused frame closes the socket, but frames already
        received are still handled. */
    method OnInput(n: nat, now: nat) returns (written: bool)
      requires inputWindowStart <= now
      modifies this
      ensures (Value(), written) == Offer(limits, old(Value()), Frame(n, now))
    {
      written := InputAllowed(n, now);
      if written {
        bytesIn := bytesIn + n;
      }
    }
  }

  // ---- which frames pass, from the frames alone ----

  predicate Ticking(fs: seq<Frame>) {
    forall i, j :: 0 <= i < j < |fs| ==> fs[i].time <= fs[j].time
  }

  /** The start of the window a trace ends in: frames of a second belong to the window the first one opened. */
  function WindowOf(fs: seq<Frame>): nat {
    if fs == [] then 0
    else
      var n := |fs| - 1;
      var w := WindowOf(fs[..n]);
      if fs[n].time >= w + 1000 then fs[n].time else w
  }

  /** All bytes offered in that window, whether they passed or not. */
  function OfferedBytes(fs: seq<Frame>): nat {
    if fs == [] then 0
    else
      var n := |fs| - 1;
      fs[n].size + if WindowOf(fs) == WindowOf(fs[..n]) then OfferedBytes(fs[..n]) else 0
  }

  /** The last frame passes: everything offered in its window, itself included, is within the rate, and
      everything that passed before, with it, is within the session's total. */
  predicate Passes(l: Limits, fs: seq<Frame>)
    requires fs != []
    decreases |fs|, 0
  {
    OfferedBytes(fs) <= l.perSecond && PassedBytes(l, fs[..|fs| - 1]) + fs[|fs| - 1].size <= l.total
  }

  function PassedBytes(l: Limits, fs: seq<Frame>): nat
    decreases |fs|, 1
  {
    if fs == [] then 0
    else PassedBytes(l, fs[..|fs| - 1]) + if Passes(l, fs) then fs[|fs| - 1].size else 0
  }

  /** The budget after a trace of frames. */
  function AfterFrames(l: Limits, fs: seq<Frame>): (b: Budget)
    requires Ticking(fs)
    ensures b.start <= if fs == [] then 0 else fs[|fs| - 1].time
  {
    if fs == [] then FRESH
    else
      var n := |fs| - 1;
      assert n > 0 ==> fs[n - 1].time <= fs[n].time;
      Offer(l, AfterFrames(l, fs[..n]), fs[n]).0
  }

  /** The counters say no more and no less than that, after any trace with a clock that does not go back: a
      frame refused still counts in its window, and only what passed counts for the session. */
  lemma {:induction false} FramePassesExactly(l: Limits, fs: seq<Frame>)
    requires Ticking(fs)
    ensures AfterFrames(l, fs) == Budget(WindowOf(fs), OfferedBytes(fs), PassedBytes(l, fs))
    ensures fs != [] ==> AfterFrames(l, fs[..|fs| - 1]).start <= fs[|fs| - 1].time
    ensures fs != [] ==> Offer(l, AfterFrames(l, fs[..|fs| - 1]), fs[|fs| - 1]).1 == Passes(l, fs)
  {
    if fs != [] {
      var n := |fs| - 1;
      FramePassesExactly(l, fs[..n]);
      assert n > 0 ==> fs[n - 1].time <= fs[n].time;
    }
  }

  /** An accepted frame, with the start of the window it was charged to. */
  datatype Charge = Charge(time: nat, size: nat, window: nat)

  predicate ClockFrom(fs: seq<Frame>, from: nat) {
    fs == [] || (from <= fs[0].time && ClockFrom(fs[1..], fs[0].time))
  }

  ghost function Accepted(l: Limits, b: Budget, fs: seq<Frame>, now: nat): seq<Charge>
    requires b.start <= now && ClockFrom(fs, now)
    decreases |fs|
  {
    if fs == [] then []
    else
      var (b', ok) := Offer(l, b, fs[0]);
      (if ok then [Charge(fs[0].time, fs[0].size, b'.start)] else []) + Accepted(l, b', fs[1..], fs[0].time)
  }

  ghost function SumWhere(cs: seq<Charge>, keep: Charge -> bool): nat {
    if cs == [] then 0 else (if keep(cs[0]) then cs[0].size else 0) + SumWhere(cs[1..], keep)
  }

  ghost function InWindow(w: nat): Charge -> bool {
    (c: Charge) => c.window == w
  }

  ghost function InSpan(t: nat): Charge -> bool {
    (c: Charge) => t <= c.time < t + 1000
  }

  /** Each charge lies within the second of its window; windows start at `start` or at least a second later,
      and distinct ones are at least a second apart, in order. */
  ghost predicate Apart(cs: seq<Charge>, start: nat) {
    && (forall c <- cs :: c.window == start || start + 1000 <= c.window)
    && (forall c <- cs :: c.window <= c.time < c.window + 1000)
    && (forall i, j :: 0 <= i < j < |cs| ==> cs[i].window == cs[j].window || cs[i].window + 1000 <= cs[j].window)
  }

  lemma {:induction false} WindowsAreApart(l: Limits, b: Budget, fs: seq<Frame>, now: nat)
    requires b.start <= now && ClockFrom(fs, now)
    ensures Apart(Accepted(l, b, fs, now), b.start)
    decreases |fs|
  {
    if fs != [] {
      var r := Offer(l, b, fs[0]);
      WindowsAreApart(l, r.0, fs[1..], fs[0].time);
      var rest := Accepted(l, r.0, fs[1..], fs[0].time);
      ApartFromEarlier(rest, b.start, r.0.start);
      if r.1 {
        ApartCons(Charge(fs[0].time, fs[0].size, r.0.start), rest, b.start);
      } else {
        assert Accepted(l, b, fs, now) == rest;
      }
    }
  }

  lemma ApartFromEarlier(cs: seq<Charge>, start: nat, later: nat)
    requires Apart(cs, later) && (later == start || start + 1000 <= later)
    ensures Apart(cs, start)
  {
  }

  lemma ApartCons(c: Charge, cs: seq<Charge>, start: nat)
    requires Apart(cs, c.window) && Apart(cs, start)
    requires (c.window == start || start + 1000 <= c.window) && c.window <= c.time < c.window + 1000
    ensures Apart([c] + cs, start)
  {
    var all := [c] + cs;
    forall i, j | 0 <= i < j < |all|
      ensures all[i].window == all[j].window || all[i].window + 1000 <= all[j].window
    {
      assert all[j] == cs[j - 1] && all[j] in cs;
      assert 0 < i ==> all[i] == cs[i - 1];
    }
  }

  /** No window is charged more than the rate; what the current one can still take shrinks as it fills. */
  lemma {:induction false} WindowWithinRate(l: Limits, b: Budget, fs: seq<Frame>, now: nat, w: nat)
    requires b.start <= now && ClockFrom(fs, now)
    ensures SumWhere(Accepted(l, b, fs, now), InWindow(w))
            <= if w == b.start then (if b.used <= l.perSecond then l.perSecond - b.used else 0) else l.perSecond
    decreases |fs|
  {
    if fs != [] {
      var (b', ok) := Offer(l, b, fs[0]);
      var rest := Accepted(l, b', fs[1..], fs[0].time);
      var cs := Accepted(l, b, fs, now);
      WindowWithinRate(l, b', fs[1..], fs[0].time, w);
      if ok {
        assert cs[1..] == rest;
      } else {
        assert cs == rest;
      }
      if w == b.start && b'.start != b.start {
        WindowsAreApart(l, b', fs[1..], fs[0].time);
        forall i | 0 <= i < |rest| ensures !InWindow(w)(rest[i]) {
          assert rest[i] in rest;
        }
        NothingKept(rest, InWindow(w));
      }
    }
  }

  lemma {:induction false} NothingKept(cs: seq<Charge>, keep: Charge -> bool)
    requires forall i :: 0 <= i < |cs| ==> !keep(cs[i])
    ensures SumWhere(cs, keep) == 0
  {
    if cs != [] {
      NothingKept(cs[1..], keep);
    }
  }

  lemma {:induction false} SplitSum(cs: seq<Charge>, all: Charge -> bool, a: Charge -> bool, b: Charge -> bool)
    requires forall i :: 0 <= i < |cs| && all(cs[i]) ==> a(cs[i]) || b(cs[i])
    ensures SumWhere(cs, all) <= SumWhere(cs, a) + SumWhere(cs, b)
  {
    if cs != [] {
      SplitSum(cs[1..], all, a, b);
    }
  }

  /** The charges of span `t` whose window opened at or before `t`, or after it: either way one window. */
  ghost function SpanPart(t: nat, before: bool): Charge -> bool {
    (c: Charge) => t <= c.time < t + 1000 && (c.window <= t <==> before)
  }

  lemma PartIsOneWindow(cs: seq<Charge>, t: nat, before: bool, rate: nat)
    requires Apart(cs, 0)
    requires forall w: nat :: SumWhere(cs, InWindow(w)) <= rate
    ensures SumWhere(cs, SpanPart(t, before)) <= rate
  {
    var part := SpanPart(t, before);
    if k :| 0 <= k < |cs| && part(cs[k]) {
      var w := cs[k].window;
      forall i | 0 <= i < |cs| && part(cs[i]) ensures InWindow(w)(cs[i]) {
        assert cs[i] in cs && cs[k] in cs;
        assert i < k || i == k || k < i;
      }
      Subsum(cs, part, InWindow(w));
    } else {
      NothingKept(cs, part);
    }
  }

  lemma {:induction false} Subsum(cs: seq<Charge>, a: Charge -> bool, b: Charge -> bool)
    requires forall i :: 0 <= i < |cs| && a(cs[i]) ==> b(cs[i])
    ensures SumWhere(cs, a) <= SumWhere(cs, b)
  {
    if cs != [] {
      Subsum(cs[1..], a, b);
    }
  }

  /** For any trace of frames with a nondecreasing clock, whatever is accepted in any half-open second is
      at most twice the per-second limit. */
  lemma AnySecondWithinTwiceTheRate(l: Limits, fs: seq<Frame>, t: nat)
    requires ClockFrom(fs, 0)
    ensures SumWhere(Accepted(l, FRESH, fs, 0), InSpan(t)) <= 2 * l.perSecond
  {
    var cs := Accepted(l, FRESH, fs, 0);
    WindowsAreApart(l, FRESH, fs, 0);
    forall w: nat ensures SumWhere(cs, InWindow(w)) <= l.perSecond {
      WindowWithinRate(l, FRESH, fs, 0, w);
    }
    PartIsOneWindow(cs, t, true, l.perSecond);
    PartIsOneWindow(cs, t, false, l.perSecond);
    SplitSum(cs, InSpan(t), SpanPart(t, true), SpanPart(t, false));
  }

  /** The factor two is reached: fill one window at its end and the next at its start. */
  lemma TwiceTheRateIsReached(l: Limits)
    requires l.total >= 2 * l.perSecond
    ensures var fs := [Frame(0, 1000), Frame(l.perSecond, 1999), Frame(l.perSecond, 2000)];
      ClockFrom(fs, 0) && SumWhere(Accepted(l, FRESH, fs, 0), InSpan(1999)) == 2 * l.perSecond
  {
    var f0, f1, f2 := Frame(0, 1000), Frame(l.perSecond, 1999), Frame(l.perSecond, 2000);
    var fs := [f0, f1, f2];
    assert fs[1..] == [f1, f2] && [f1, f2][1..] == [f2] && [f2][1..] == [];
    assert ClockFrom([f2], 1999) && ClockFrom([f1, f2], 1000);
    var b1, b2 := Budget(1000, 0, 0), Budget(1000, l.perSecond, l.perSecond);
    var c0, c1, c2 := Charge(1000, 0, 1000), Charge(1999, l.perSecond, 1000), Charge(2000, l.perSecond, 2000);
    assert Accepted(l, b2, [f2], 1999) == [c2] + [];
    assert Accepted(l, b1, [f1, f2], 1000) == [c1] + [c2];
    var cs := Accepted(l, FRESH, fs, 0);
    assert cs == [c0] + ([c1] + [c2]);
    assert cs[1..] == [c1, c2] && [c1, c2][1..] == [c2] && [c2][1..] == [];
    assert SumWhere([c2], InSpan(1999)) == l.perSecond;
    assert SumWhere([c1, c2], InSpan(1999)) == 2 * l.perSecond;
  }

  ghost function Everything(): Charge -> bool {
    (c: Charge) => true
  }

  lemma {:induction false} SessionTotalFrom(l: Limits, b: Budget, fs: seq<Frame>, now: nat)
    requires b.start <= now && ClockFrom(fs, now) && b.taken <= l.total
    ensures b.taken + SumWhere(Accepted(l, b, fs, now), Everything()) <= l.total
    decreases |fs|
  {
    if fs != [] {
      var (b', ok) := Offer(l, b, fs[0]);
      var rest := Accepted(l, b', fs[1..], fs[0].time);
      SessionTotalFrom(l, b', fs[1..], fs[0].time);
      assert ok ==> Accepted(l, b, fs, now)[1..] == rest;
      assert !ok ==> Accepted(l, b, fs, now) == rest;
    }
  }

  /** The session never accepts more than its total. */
  lemma SessionWithinTotal(l: Limits, fs: seq<Frame>)
    requires ClockFrom(fs, 0)
    ensures SumWhere(Accepted(l, FRESH, fs, 0), Everything()) <= l.total
  {
    SessionTotalFrom(l, FRESH, fs, 0);
  }

  // ---- the per-container counters ----

  /** A session counts from the upgrade until the first of its many ends. */
  datatype Session = Session(cid: nat, settled: bool)

  function Unsettled(ss: seq<Session>, cid: nat): nat {
    if ss == [] then 0
    else Unsettled(ss[..|ss| - 1], cid) + (if ss[|ss| - 1].cid == cid && !ss[|ss| - 1].settled then 1 else 0)
  }

  /** Counters and sessions; a missing entry means zero. */
  datatype Counters = Counters(open: map<nat, nat>, sessions: seq<Session>)

  datatype Event = Upgrade(cid: nat) | End(k: nat)

  function Open(c: Counters, cid: nat): nat {
    if cid in c.open then c.open[cid] else 0
  }

  /** Upgrade: limit check, then increment before anything asynchronous. End: any of exit, close, error,
      idle timeout or a failed open; only the first takes effect. */
  function Apply(limit: nat, c: Counters, e: Event): Counters {
    match e
    case Upgrade(cid) =>
      if Open(c, cid) >= limit then c
      else Counters(c.open[cid := Open(c, cid) + 1], c.sessions + [Session(cid, false)])
    case End(k) =>
      if k >= |c.sessions| || c.sessions[k].settled then c
      else
        var cid := c.sessions[k].cid;
        var count: int := if cid in c.open then c.open[cid] else 1;
        var n := count - 1;
        Counters(if n <= 0 then c.open - {cid} else c.open[cid := n], c.sessions[k := Session(cid, true)])
  }

  class PtyServer {
    const maxPerContainer: nat
    var openPerContainer: map<nat, nat>
    var sessions: seq<Session>

    ghost function Value(): Counters
      reads this
    {
      Counters(openPerContainer, sessions)
    }

    constructor (maxPerContainer: nat)
      ensures this.maxPerContainer == maxPerContainer && Value() == Counters(map[], [])
    {
      this.maxPerContainer := maxPerContainer;
      openPerContainer, sessions := map[], [];
    }

    method Accept(cid: nat) returns (accepted: bool)
      modifies this
      ensures Value() == Apply(maxPerContainer, old(Value()), Upgrade(cid))
      ensures accepted <==> |sessions| > |old(sessions)|
    {
      var open := if cid in openPerContainer then openPerContainer[cid] else 0;
      if open >= maxPerContainer {
        return false;
      }
      openPerContainer := openPerContainer[cid := open + 1];
      sessions := sessions + [Session(cid, false)];
      accepted := true;
    }

    method Settle(k: nat)
      requires k < |sessions|
      modifies this
      ensures Value() == Apply(maxPerContainer, old(Value()), End(k))
    {
      if sessions[k].settled {
        return;
      }
      var cid := sessions[k].cid;
      sessions := sessions[k := Session(cid, true)];
      var count: int := if cid in openPerContainer then openPerContainer[cid] else 1;
      var n := count - 1;
      if n <= 0 {
        openPerContainer := openPerContainer - {cid};
      } else {
        openPerContainer := openPerContainer[cid := n];
      }
    }
  }

  /** An upgrade is accepted exactly while the container has fewer unsettled sessions than the limit; then it
      adds one, unsettled. */
  lemma UpgradeAcceptedExactlyBelowLimit(limit: nat, c: Counters, cid: nat)
    requires CountersOk(limit, c)
    ensures var d := Apply(limit, c, Upgrade(cid));
      if Unsettled(c.sessions, cid) < limit then d.sessions == c.sessions + [Session(cid, false)] else d == c
  {
    assert Open(c, cid) == Unsettled(c.sessions, cid);
  }

  /** Any end of a session settles that session and no other; a second end changes nothing. */
  lemma EndSettlesOne(limit: nat, c: Counters, k: nat)
    requires k < |c.sessions|
    ensures var d := Apply(limit, c, End(k));
      && d.sessions == c.sessions[k := c.sessions[k].(settled := true)]
      && (c.sessions[k].settled ==> d == c)
      && Apply(limit, d, End(k)) == d
      && forall cid :: cid != c.sessions[k].cid ==> Open(d, cid) == Open(c, cid)
  {
  }

  function ApplyAll(limit: nat, c: Counters, es: seq<Event>): Counters
    decreases |es|
  {
    if es == [] then c else ApplyAll(limit, Apply(limit, c, es[0]), es[1..])
  }

  ghost predicate CountersOk(limit: nat, c: Counters) {
    forall cid: nat ::
      && Open(c, cid) == Unsettled(c.sessions, cid) <= limit
      && (cid in c.open ==> c.open[cid] > 0)
  }

  lemma {:induction false} SettleOne(ss: seq<Session>, k: nat, cid: nat)
    requires k < |ss| && !ss[k].settled
    ensures Unsettled(ss[k := Session(ss[k].cid, true)], cid) == Unsettled(ss, cid) - if ss[k].cid == cid then 1 else 0
  {
    var u := ss[k := Session(ss[k].cid, true)];
    var n := |ss| - 1;
    if k == n {
      assert u[..n] == ss[..n];
    } else {
      assert u[..n] == ss[..n][k := Session(ss[k].cid, true)];
      SettleOne(ss[..n], k, cid);
    }
  }

  lemma ApplyKeepsCounters(limit: nat, c: Counters, e: Event)
    requires CountersOk(limit, c)
    ensures CountersOk(limit, Apply(limit, c, e))
  {
    var d := Apply(limit, c, e);
    forall cid: nat
      ensures Open(d, cid) == Unsettled(d.sessions, cid) <= limit && (cid in d.open ==> d.open[cid] > 0)
    {
      assert Open(c, cid) == Unsettled(c.sessions, cid) <= limit;
      match e {
        case Upgrade(x) => assert (c.sessions + [Session(x, false)])[..|c.sessions|] == c.sessions;
        case End(k) =>
          if k < |c.sessions| && !c.sessions[k].settled {
            SettleOne(c.sessions, k, cid);
            assert Open(c, c.sessions[k].cid) == Unsettled(c.sessions, c.sessions[k].cid);
          }
      }
    }
  }

  /** After any upgrades and any number of end events per session, each container's counter is exactly its
      number of unsettled sessions, never above the limit, and zero counters leave no entry. */
  lemma {:induction false} CountersAreExact(limit: nat, c: Counters, es: seq<Event>)
    requires CountersOk(limit, c)
    ensures CountersOk(limit, ApplyAll(limit, c, es))
    decreases |es|
  {
    if es != [] {
      ApplyKeepsCounters(limit, c, es[0]);
      CountersAreExact(limit, Apply(limit, c, es[0]), es[1..]);
    }
  }
}

/** Refresh-token rotation (src/services/auth.service.ts).

    Each statement on the token table is one step, and so are the two statements on the user table that
    decide how a login and a password change meet: the SELECT that reads the stored hash and the UPDATE
    that stores a new one. The steps of different requests interleave freely. A token is named by its jti;
    the hash column is injective on jtis, so `token_hash = ?` selects by jti. */
module RefreshRotation {
  import opened Common

  /** A refresh_tokens row; its id is its position. */
  datatype Row = Row(user: nat, token: nat, family: nat, revoked: bool)

  /** What an unfinished request still has to do. */
  datatype Pending =
    | LoggingIn(user: nat)                             // stored hash read, its check and the INSERT outstanding
    | Refreshing(row: nat)                             // SELECT saw a live row, conditional UPDATE outstanding
    | Won(user: nat, family: nat)                      // conditional UPDATE changed the row, INSERT outstanding
    | Replayed(family: nat)                            // replay detected, family UPDATE outstanding
    | LoggingOut(row: nat)                             // SELECT found the row, UPDATE outstanding
    | ChangingPassword(user: nat)                      // new password stored, UPDATE by user outstanding

  /** `issued` holds every jti ever drawn. */
  datatype State = State(rows: seq<Row>, requests: map<nat, Pending>, issued: set<nat>)

  const INITIAL := State([], map[], {})

  /** `r` names a request. BeginLogin reads the user's row for a login that will pass against the hash it
      read; any other login inserts nothing. BeginChange stores the new hash. Fail ends a request at an
      await: a failed user check, a database error, a crash. */
  datatype Event =
    | BeginLogin(r: nat, user: nat)
    | FinishLogin(r: nat, jti: nat)
    | BeginRefresh(r: nat, token: nat)
    | Rotate(r: nat)
    | FinishRefresh(r: nat, jti: nat)
    | RevokeFamily(r: nat)
    | BeginLogout(r: nat, token: nat)
    | FinishLogout(r: nat)
    | BeginChange(r: nat, user: nat)
    | FinishChange(r: nat)
    | Fail(r: nat)

  predicate Enabled(s: State, e: Event) {
    match e
    case BeginLogin(r, _) => r !in s.requests
    case FinishLogin(r, jti) => r in s.requests && s.requests[r].LoggingIn? && jti !in s.issued
    case BeginRefresh(r, _) => r !in s.requests
    case Rotate(r) => r in s.requests && s.requests[r].Refreshing? && s.requests[r].row < |s.rows|
    case FinishRefresh(r, jti) => r in s.requests && s.requests[r].Won? && jti !in s.issued
    case RevokeFamily(r) => r in s.requests && s.requests[r].Replayed?
    case BeginLogout(r, _) => r !in s.requests
    case FinishLogout(r) => r in s.requests && s.requests[r].LoggingOut? && s.requests[r].row < |s.rows|
    case BeginChange(r, _) => r !in s.requests
    case FinishChange(r) => r in s.requests && s.requests[r].ChangingPassword?
    case Fail(r) => r in s.requests
  }

  /** SELECT ... WHERE token_hash = ? */
  function Select(rows: seq<Row>, token: nat): (found: Option<nat>)
    ensures match found
            case Some(i) => i < |rows| && rows[i].token == token
            case None => forall i :: 0 <= i < |rows| ==> rows[i].token != token
  {
    if rows == [] then None
    else if rows[|rows| - 1].token == token then Some(|rows| - 1)
    else Select(rows[..|rows| - 1], token)
  }

  function RevokeRow(rows: seq<Row>, i: nat): seq<Row>
    requires i < |rows|
  {
    rows[i := rows[i].(revoked := true)]
  }

  function RevokeByFamily(rows: seq<Row>, family: nat): seq<Row> {
    seq(|rows|, i requires 0 <= i < |rows| => if rows[i].family == family then rows[i].(revoked := true) else rows[i])
  }

  function RevokeByUser(rows: seq<Row>, user: nat): seq<Row> {
    seq(|rows|, i requires 0 <= i < |rows| => if rows[i].user == user then rows[i].(revoked := true) else rows[i])
  }

  function Step(s: State, e: Event): State
    requires Enabled(s, e)
  {
    match e
    case BeginLogin(r, user) => s.(requests := s.requests[r := LoggingIn(user)])
    case FinishLogin(r, jti) =>
      State(s.rows + [Row(s.requests[r].user, jti, jti, false)], s.requests - {r}, s.issued + {jti})
    case BeginRefresh(r, token) =>
      (match Select(s.rows, token)
       case None => s
       case Some(i) =>
         s.(requests := s.requests[r := if s.rows[i].revoked then Replayed(s.rows[i].family) else Refreshing(i)]))
    case Rotate(r) =>
      var i := s.requests[r].row;
      if s.rows[i].revoked then s.(requests := s.requests[r := Replayed(s.rows[i].family)])
      else State(RevokeRow(s.rows, i), s.requests[r := Won(s.rows[i].user, s.rows[i].family)], s.issued)
    case FinishRefresh(r, jti) =>
      State(s.rows + [Row(s.requests[r].user, jti, s.requests[r].family, false)], s.requests - {r}, s.issued + {jti})
    case RevokeFamily(r) =>
      State(RevokeByFamily(s.rows, s.requests[r].family), s.requests - {r}, s.issued)
    case BeginLogout(r, token) =>
      (match Select(s.rows, token)
       case None => s
       case Some(i) => s.(requests := s.requests[r := LoggingOut(i)]))
    case FinishLogout(r) => State(RevokeRow(s.rows, s.requests[r].row), s.requests - {r}, s.issued)
    case BeginChange(r, user) => s.(requests := s.requests[r := ChangingPassword(user)])
    case FinishChange(r) =>
      State(RevokeByUser(s.rows, s.requests[r].user), s.requests - {r}, s.issued)
    case Fail(r) => s.(requests := s.requests - {r})
  }

  ghost predicate Runs(s: State, es: seq<Event>)
    decreases |es|
  {
    es == [] || (Enabled(s, es[0]) && Runs(Step(s, es[0]), es[1..]))
  }

  ghost function After(s: State, es: seq<Event>): State
    requires Runs(s, es)
    decreases |es|
  {
    if es == [] then s else After(Step(s, es[0]), es[1..])
  }

  ghost predicate Reachable(s: State) {
    exists es :: Runs(INITIAL, es) && After(INITIAL, es) == s
  }

  // ---- the service, one method per database statement ----

  class AuthService {
    var rows: seq<Row>
    var requests: map<nat, Pending>
    ghost var issued: set<nat>

    ghost function Value(): State
      reads this
    {
      State(rows, requests, issued)
    }

    constructor ()
      ensures Value() == INITIAL
    {
      rows, requests, issued := [], map[], {};
    }

    /** issueTokenPair: a login opens a family named by its own jti, a rotation stays in its family. */
    method IssueTokenPair(r: nat, jti: nat)
      requires r in requests && (requests[r].LoggingIn? || requests[r].Won?) && jti !in issued
      modifies this
      ensures Value() == Step(old(Value()),
                              if old(requests)[r].LoggingIn? then FinishLogin(r, jti) else FinishRefresh(r, jti))
    {
      var family := if requests[r].Won? then requests[r].family else jti;
      rows := rows + [Row(requests[r].user, jti, family, false)];
      requests := requests - {r};
      issued := issued + {jti};
    }

    /** The SELECT of refresh: unknown token, replay, or a live row to rotate. */
    method RefreshSelect(r: nat, token: nat) returns (known: bool)
      requires r !in requests
      modifies this
      ensures Value() == Step(old(Value()), BeginRefresh(r, token))
      ensures known <==> exists i :: 0 <= i < |rows| && rows[i].token == token
    {
      var stored := Select(rows, token);
      match stored
      case None => known := false;
      case Some(i) =>
        known := true;
        requests := requests[r := if rows[i].revoked then Replayed(rows[i].family) else Refreshing(i)];
    }

    /** The conditional revoke: exactly one concurrent request sees `changes == 1`. */
    method RefreshRotate(r: nat) returns (changes: nat)
      requires Enabled(Value(), Rotate(r))
      modifies this
      ensures Value() == Step(old(Value()), Rotate(r))
      ensures changes == if old(rows)[old(requests)[r].row].revoked then 0 else 1
    {
      var i := requests[r].row;
      if rows[i].revoked {
        changes := 0;
        requests := requests[r := Replayed(rows[i].family)];
      } else {
        changes := 1;
        requests := requests[r := Won(rows[i].user, rows[i].family)];
        rows := rows[i := rows[i].(revoked := true)];
      }
    }

    method RevokeWholeFamily(r: nat)
      requires Enabled(Value(), RevokeFamily(r))
      modifies this
      ensures Value() == Step(old(Value()), RevokeFamily(r))
    {
      rows := RevokeByFamily(rows, requests[r].family);
      requests := requests - {r};
    }

    method Logout(r: nat)
      requires Enabled(Value(), FinishLogout(r))
      modifies this
      ensures Value() == Step(old(Value()), FinishLogout(r))
    {
      var i := requests[r].row;
      rows := rows[i := rows[i].(revoked := true)];
      requests := requests - {r};
    }

    /** The last statement of changePassword, also issued by the admin password reset and disable routes. */
    method RevokeUserTokens(r: nat)
      requires Enabled(Value(), FinishChange(r))
      modifies this
      ensures Value() == Step(old(Value()), FinishChange(r))
    {
      rows := RevokeByUser(rows, requests[r].user);
      requests := requests - {r};
    }
  }

  // ---- the invariant ----

  ghost predicate LiveRow(s: State, i: nat, family: nat) {
    i < |s.rows| && s.rows[i].family == family && !s.rows[i].revoked
  }

  ghost predicate InFlight(s: State, r: nat, family: nat) {
    r in s.requests && s.requests[r].Won? && s.requests[r].family == family
  }

  ghost predicate RequestOk(s: State, r: nat)
    requires r in s.requests
  {
    match s.requests[r]
    case Refreshing(i) => i < |s.rows|
    case LoggingOut(i) => i < |s.rows|
    case Replayed(f) => f in s.issued
    case Won(u, f) => f in s.issued && exists i :: 0 <= i < |s.rows| && s.rows[i].family == f && s.rows[i].user == u
    case _ => true
  }

  ghost predicate Inv(s: State) {
    && (forall i :: 0 <= i < |s.rows| ==> s.rows[i].token in s.issued && s.rows[i].family in s.issued)
    && (forall i, j :: 0 <= i < j < |s.rows| ==> s.rows[i].token != s.rows[j].token)
    && (forall i, j :: 0 <= i < j < |s.rows| && s.rows[i].family == s.rows[j].family
                       ==> s.rows[i].user == s.rows[j].user)
    && (forall r :: r in s.requests ==> RequestOk(s, r))
    && (forall f, i, j :: LiveRow(s, i, f) && LiveRow(s, j, f) ==> i == j)
    && (forall f, q, r :: InFlight(s, q, f) && InFlight(s, r, f) ==> q == r)
    && (forall f, i, r :: LiveRow(s, i, f) && InFlight(s, r, f) ==> false)
  }

  lemma IssueKeepsInv(s: State, e: Event)
    requires Inv(s) && Enabled(s, e) && (e.FinishLogin? || e.FinishRefresh?)
    ensures Inv(Step(s, e))
  {
    var t := Step(s, e);
    var n := |s.rows|;
    assert forall i :: 0 <= i < n ==> t.rows[i] == s.rows[i];
    assert RequestOk(s, e.r);
    assert e.FinishRefresh? ==> InFlight(s, e.r, t.rows[n].family);
    forall f, i: nat | LiveRow(t, i, f) && i < n ensures LiveRow(s, i, f) {}
    forall f, r | InFlight(t, r, f) ensures InFlight(s, r, f) && r != e.r {}
    forall r | r in t.requests ensures RequestOk(t, r) {
      assert RequestOk(s, r);
    }
    forall f, r | InFlight(s, r, f) ensures f in s.issued {
      assert RequestOk(s, r);
    }
  }

  lemma RevokeKeepsInv(s: State, rows: seq<Row>, requests: map<nat, Pending>)
    requires Inv(s) && |rows| == |s.rows|
    requires forall i :: 0 <= i < |rows| ==> rows[i] == s.rows[i] || rows[i] == s.rows[i].(revoked := true)
    requires forall r :: r in requests ==> r in s.requests && requests[r] == s.requests[r]
    ensures Inv(State(rows, requests, s.issued))
  {
    var t := State(rows, requests, s.issued);
    forall f, i | LiveRow(t, i, f) ensures LiveRow(s, i, f) {}
    forall f, r | InFlight(t, r, f) ensures InFlight(s, r, f) {}
    forall r | r in t.requests ensures RequestOk(t, r) {
      assert RequestOk(s, r);
    }
  }

  lemma BeginKeepsInv(s: State, r: nat, p: Pending)
    requires Inv(s) && r !in s.requests && !p.Won?
    requires (p.Refreshing? || p.LoggingOut?) ==> p.row < |s.rows|
    requires p.Replayed? ==> p.family in s.issued
    ensures Inv(s.(requests := s.requests[r := p]))
  {
    var t := s.(requests := s.requests[r := p]);
    forall f, i | LiveRow(t, i, f) ensures LiveRow(s, i, f) {}
    forall f, q | InFlight(t, q, f) ensures InFlight(s, q, f) {}
    forall q | q in t.requests ensures RequestOk(t, q) {
      if q != r { assert RequestOk(s, q); }
    }
  }

  lemma RotateKeepsInv(s: State, r: nat)
    requires Inv(s) && Enabled(s, Rotate(r))
    ensures Inv(Step(s, Rotate(r)))
  {
    var t := Step(s, Rotate(r));
    var i := s.requests[r].row;
    var f0 := s.rows[i].family;
    forall f, j | LiveRow(t, j, f) ensures LiveRow(s, j, f) && (!s.rows[i].revoked ==> j != i) {}
    forall f, q | InFlight(t, q, f) ensures InFlight(s, q, f) || (q == r && f == f0 && LiveRow(s, i, f0)) {}
    forall q | q in t.requests ensures RequestOk(t, q) {
      if q != r { assert RequestOk(s, q); }
      assert t.rows[i].family == f0 && t.rows[i].user == s.rows[i].user;
      if t.requests[q].Won? && q != r {
        var j :| 0 <= j < |s.rows| && s.rows[j].family == t.requests[q].family && s.rows[j].user == t.requests[q].user;
        assert t.rows[j].family == s.rows[j].family;
      }
    }
  }

  lemma StepKeepsInv(s: State, e: Event)
    requires Inv(s) && Enabled(s, e)
    ensures Inv(Step(s, e))
  {
    match e
    case BeginLogin(r, user) => BeginKeepsInv(s, r, LoggingIn(user));
    case BeginChange(r, user) => BeginKeepsInv(s, r, ChangingPassword(user));
    case BeginRefresh(r, token) =>
      match Select(s.rows, token) {
        case None =>
        case Some(i) => BeginKeepsInv(s, r, if s.rows[i].revoked then Replayed(s.rows[i].family) else Refreshing(i));
      }
    case BeginLogout(r, token) =>
      match Select(s.rows, token) {
        case None =>
        case Some(i) => BeginKeepsInv(s, r, LoggingOut(i));
      }
    case Rotate(r) => RotateKeepsInv(s, r);
    case FinishLogin(_, _) => IssueKeepsInv(s, e);
    case FinishRefresh(_, _) => IssueKeepsInv(s, e);
    case RevokeFamily(_) => RevokeKeepsInv(s, Step(s, e).rows, Step(s, e).requests);
    case FinishLogout(_) => RevokeKeepsInv(s, Step(s, e).rows, Step(s, e).requests);
    case FinishChange(_) => RevokeKeepsInv(s, Step(s, e).rows, Step(s, e).requests);
    case Fail(_) => RevokeKeepsInv(s, s.rows, Step(s, e).requests);
  }

  lemma {:induction false} RunsKeepInv(s: State, es: seq<Event>)
    requires Inv(s) && Runs(s, es)
    ensures Inv(After(s, es))
    decreases |es|
  {
    if es != [] {
      StepKeepsInv(s, es[0]);
      RunsKeepInv(Step(s, es[0]), es[1..]);
    }
  }

  lemma ReachableInv(s: State)
    requires Reachable(s)
    ensures Inv(s)
  {
    var es :| Runs(INITIAL, es) && After(INITIAL, es) == s;
    RunsKeepInv(INITIAL, es);
  }

  // ---- one live token or one rotation in flight, never more ----

  ghost function LiveRows(s: State, family: nat): set<nat> {
    set i: nat | i < |s.rows| && s.rows[i].family == family && !s.rows[i].revoked
  }

  ghost function RotationsInFlight(s: State, family: nat): set<nat> {
    set r | r in s.requests && s.requests[r].Won? && s.requests[r].family == family
  }

  lemma AtMostOne(xs: set<nat>)
    requires forall x, y :: x in xs && y in xs ==> x == y
    ensures |xs| <= 1
  {
    if xs != {} {
      var x :| x in xs;
      assert xs == {x};
    }
  }

  /** In every interleaving, a family's live tokens plus its rotations that won the conditional
      revoke but have not inserted yet are at most one. */
  lemma FamilyHoldsAtMostOne(s: State, family: nat)
    requires Reachable(s)
    ensures |LiveRows(s, family)| + |RotationsInFlight(s, family)| <= 1
  {
    ReachableInv(s);
    forall i, j | i in LiveRows(s, family) && j in LiveRows(s, family) ensures i == j {
      assert LiveRow(s, i, family) && LiveRow(s, j, family);
    }
    forall q, r | q in RotationsInFlight(s, family) && r in RotationsInFlight(s, family) ensures q == r {
      assert InFlight(s, q, family) && InFlight(s, r, family);
    }
    AtMostOne(LiveRows(s, family));
    AtMostOne(RotationsInFlight(s, family));
    if LiveRows(s, family) != {} && RotationsInFlight(s, family) != {} {
      var i :| i in LiveRows(s, family);
      var r :| r in RotationsInFlight(s, family);
      assert LiveRow(s, i, family) && InFlight(s, r, family);
      assert false;
    }
  }

  // ---- each token is exchanged at most once ----

  /** How many of the run's conditional revokes succeed on row `i`. */
  ghost function Exchanges(s: State, es: seq<Event>, i: nat): nat
    requires Runs(s, es)
    decreases |es|
  {
    if es == [] then 0
    else
      (if es[0].Rotate? && s.requests[es[0].r].row == i && !s.rows[i].revoked then 1 else 0)
      + Exchanges(Step(s, es[0]), es[1..], i)
  }

  /** A revoked row stays revoked and keeps its owner, token and family. */
  lemma RowsOnlyAge(s: State, e: Event, i: nat)
    requires Enabled(s, e) && i < |s.rows|
    ensures var t := Step(s, e); i < |t.rows| && (t.rows[i] == s.rows[i] || t.rows[i] == s.rows[i].(revoked := true))
  {
  }

  lemma {:induction false} ExchangedOnceFrom(s: State, es: seq<Event>, i: nat)
    requires Runs(s, es)
    ensures Exchanges(s, es, i) <= if i < |s.rows| && s.rows[i].revoked then 0 else 1
    decreases |es|
  {
    if es != [] {
      if i < |s.rows| {
        RowsOnlyAge(s, es[0], i);
      }
      ExchangedOnceFrom(Step(s, es[0]), es[1..], i);
    }
  }

  lemma EachTokenExchangedAtMostOnce(es: seq<Event>, i: nat)
    requires Runs(INITIAL, es)
    ensures Exchanges(INITIAL, es, i) <= 1
  {
    ExchangedOnceFrom(INITIAL, es, i);
  }

  // ---- families die for good ----

  ghost predicate NoLiveToken(s: State, family: nat) {
    forall i :: !LiveRow(s, i, family)
  }

  ghost predicate NoRotationInFlight(s: State, family: nat) {
    forall r :: !InFlight(s, r, family)
  }

  ghost predicate Dead(s: State, family: nat) {
    family in s.issued && NoLiveToken(s, family) && NoRotationInFlight(s, family)
  }

  /** No continuation of `s` ever gives the family a live token again. */
  ghost predicate NeverLiveAgain(s: State, family: nat) {
    forall es :: Runs(s, es) ==> NoLiveToken(After(s, es), family)
  }

  lemma DeadStep(s: State, e: Event, family: nat)
    requires Dead(s, family) && Enabled(s, e)
    ensures Dead(Step(s, e), family)
  {
    var t := Step(s, e);
    forall i: nat | LiveRow(t, i, family) ensures false {
      if i < |s.rows| {
        RowsOnlyAge(s, e, i);
        assert LiveRow(s, i, family);
      } else {
        assert InFlight(s, e.r, family);
      }
    }
    forall r | InFlight(t, r, family) ensures false {
      if e.Rotate? && e.r == r {
        assert LiveRow(s, s.requests[r].row, family);
      } else {
        assert InFlight(s, r, family);
      }
    }
  }

  lemma {:induction false} DeadForever(s: State, es: seq<Event>, family: nat)
    requires Dead(s, family) && Runs(s, es)
    ensures Dead(After(s, es), family)
    decreases |es|
  {
    if es != [] {
      DeadStep(s, es[0], family);
      DeadForever(Step(s, es[0]), es[1..], family);
    }
  }

  lemma {:induction false} FreshJti(xs: set<nat>) returns (x: nat)
    ensures x !in xs && forall y :: y in xs ==> y < x
  {
    if xs == {} {
      x := 0;
    } else {
      var y :| y in xs;
      var z := FreshJti(xs - {y});
      x := if z <= y then y + 1 else z;
      forall w | w in xs ensures w < x {
        assert w == y || w in xs - {y};
      }
    }
  }

  /** A family never has a live token again exactly when it has none now and no rotation in flight. */
  lemma NeverLiveAgainExactlyWhenDead(s: State, family: nat)
    requires family in s.issued
    ensures NeverLiveAgain(s, family) <==> NoLiveToken(s, family) && NoRotationInFlight(s, family)
  {
    if NoLiveToken(s, family) && NoRotationInFlight(s, family) {
      forall es | Runs(s, es) ensures NoLiveToken(After(s, es), family) {
        DeadForever(s, es, family);
      }
    }
    if NeverLiveAgain(s, family) {
      var none: seq<Event> := [];
      assert Runs(s, none) && After(s, none) == s;
      forall r | InFlight(s, r, family) ensures false {
        var jti := FreshJti(s.issued);
        var t := Step(s, FinishRefresh(r, jti));
        OneStepRun(s, FinishRefresh(r, jti));
        assert LiveRow(t, |s.rows|, family);
      }
    }
  }

  lemma OneStepRun(s: State, e: Event)
    requires Enabled(s, e)
    ensures Runs(s, [e]) && After(s, [e]) == Step(s, e)
  {
    var t := Step(s, e);
    assert [e][1..] == [];
    hide Step, Enabled;
    assert Runs(t, []) && After(t, []) == t;
  }

  /** Replay detection: the family revoke ends the family for good exactly when no rotation of the
      family is in flight at that moment. A winner whose INSERT is outstanding survives it. */
  lemma ReplayKillsFamilyExactlyWhenNoRotation(s: State, r: nat)
    requires Inv(s) && Enabled(s, RevokeFamily(r))
    ensures NeverLiveAgain(Step(s, RevokeFamily(r)), s.requests[r].family)
            <==> NoRotationInFlight(s, s.requests[r].family)
  {
    var f := s.requests[r].family;
    var t := Step(s, RevokeFamily(r));
    assert RequestOk(s, r);
    NeverLiveAgainExactlyWhenDead(t, f);
    forall i ensures !LiveRow(t, i, f) {}
    forall q ensures InFlight(s, q, f) <==> InFlight(t, q, f) {}
  }

  /** The rows of `t` are those of `s`, with exactly the rows in `gone` revoked besides. */
  ghost predicate RevokesExactly(s: State, t: State, gone: iset<nat>) {
    |t.rows| == |s.rows|
    && forall i :: 0 <= i < |s.rows| ==> t.rows[i] == s.rows[i].(revoked := s.rows[i].revoked || i in gone)
  }

  /** All that request `r` can do next is `e`, if it is not cut short. */
  ghost predicate NextStepIs(s: State, r: nat, e: Event) {
    Enabled(s, e) && forall f: Event :: Enabled(s, f) && f.r == r ==> f == e || f == Fail(r)
  }

  lemma TokenNamesItsRow(s: State, i: nat)
    requires Inv(s) && i < |s.rows|
    ensures Select(s.rows, s.rows[i].token) == Some(i)
  {
  }

  /** Presenting a revoked token leads to the revocation of its whole family, which leaves no other family
      changed; presenting a live one leads to the exchange of exactly that token. */
  lemma PresentedTokenDecides(s: State, r: nat, i: nat)
    requires Inv(s) && r !in s.requests && i < |s.rows|
    ensures var row := s.rows[i]; var t := Step(s, BeginRefresh(r, row.token));
      && t.rows == s.rows
      && if row.revoked then
           && NextStepIs(t, r, RevokeFamily(r))
           && var u := Step(t, RevokeFamily(r));
              && NoLiveToken(u, row.family) && r !in u.requests
              && RevokesExactly(s, u, iset j | 0 <= j < |s.rows| && s.rows[j].family == row.family)
         else
           && NextStepIs(t, r, Rotate(r))
           && var u := Step(t, Rotate(r));
              && RevokesExactly(s, u, iset{i}) && u.requests[r] == Won(row.user, row.family)
              && forall jti :: jti !in u.issued ==> Enabled(u, FinishRefresh(r, jti))
  {
    TokenNamesItsRow(s, i);
  }

  /** So a reused token ends its session for good exactly when no rotation of the family is in flight. */
  lemma ReusedTokenEndsFamilyExactlyWhenNoRotation(s: State, r: nat, i: nat)
    requires Inv(s) && r !in s.requests && i < |s.rows| && s.rows[i].revoked
    ensures var t := Step(s, BeginRefresh(r, s.rows[i].token)); var family := s.rows[i].family;
      && Enabled(t, RevokeFamily(r))
      && (NeverLiveAgain(Step(t, RevokeFamily(r)), family) <==> NoRotationInFlight(s, family))
  {
    var t := Step(s, BeginRefresh(r, s.rows[i].token));
    PresentedTokenDecides(s, r, i);
    StepKeepsInv(s, BeginRefresh(r, s.rows[i].token));
    ReplayKillsFamilyExactlyWhenNoRotation(t, r);
    forall q ensures InFlight(t, q, s.rows[i].family) <==> InFlight(s, q, s.rows[i].family) {}
  }

  lemma UnknownTokenChangesNothing(s: State, r: nat, token: nat)
    requires r !in s.requests && forall i :: 0 <= i < |s.rows| ==> s.rows[i].token != token
    ensures Step(s, BeginRefresh(r, token)) == s && Step(s, BeginLogout(r, token)) == s
  {
  }

  /** A rotation that finds its row revoked meanwhile is a replay as well: it goes on to the family revoke. */
  lemma LosingRotationRevokesFamily(s: State, r: nat)
    requires Inv(s) && Enabled(s, Rotate(r)) && s.rows[s.requests[r].row].revoked
    ensures var family := s.rows[s.requests[r].row].family; var t := Step(s, Rotate(r));
      && t.rows == s.rows && NextStepIs(t, r, RevokeFamily(r))
      && NoLiveToken(Step(t, RevokeFamily(r)), family)
      && RevokesExactly(s, Step(t, RevokeFamily(r)), iset j | 0 <= j < |s.rows| && s.rows[j].family == family)
  {
  }

  /** Logout revokes exactly the presented token's row; a password change exactly the user's rows. */
  lemma LogoutAndChangeRevokeExactly(s: State, r: nat, i: nat, user: nat)
    requires Inv(s) && r !in s.requests && i < |s.rows|
    ensures var t := Step(s, BeginLogout(r, s.rows[i].token));
      t.rows == s.rows && NextStepIs(t, r, FinishLogout(r)) && RevokesExactly(s, Step(t, FinishLogout(r)), iset{i})
    ensures var t := Step(s, BeginChange(r, user));
      && t.rows == s.rows && NextStepIs(t, r, FinishChange(r))
      && RevokesExactly(s, Step(t, FinishChange(r)), iset j | 0 <= j < |s.rows| && s.rows[j].user == user)
  {
    TokenNamesItsRow(s, i);
  }

  /** A login or a rotation that finishes adds one live row, owned by its user, under the fresh token. */
  lemma IssuedRow(s: State, r: nat, jti: nat)
    requires Enabled(s, FinishLogin(r, jti)) || Enabled(s, FinishRefresh(r, jti))
    ensures var p := s.requests[r];
      var t := Step(s, if p.LoggingIn? then FinishLogin(r, jti) else FinishRefresh(r, jti));
      && t.rows[..|s.rows|] == s.rows && |t.rows| == |s.rows| + 1 && r !in t.requests
      && var row := t.rows[|s.rows|];
         row.token == jti && !row.revoked && row.user == p.user && row.family == if p.Won? then p.family else jti
  {
  }

  /** The gap is reachable: two requests present one token, both pass the SELECT, the loser's family
      revoke runs between the winner's UPDATE and its INSERT, and the family lives on. */
  lemma ReplayCanMissAWinner()
    ensures exists s: State, r: nat :: Reachable(s) && Enabled(s, RevokeFamily(r))
                                      && !NeverLiveAgain(Step(s, RevokeFamily(r)), s.requests[r].family)
  {
    InitialReachable();
    hide Reachable, NeverLiveAgain, Inv, Runs;
    var s1 := State([], map[0 := LoggingIn(7)], {});
    ReachableStep(INITIAL, BeginLogin(0, 7), s1);
    var s2 := State([Row(7, 5, 5, false)], map[], {5});
    ReachableStep(s1, FinishLogin(0, 5), s2);
    var s3 := State(s2.rows, map[1 := Refreshing(0)], {5});
    ReachableStep(s2, BeginRefresh(1, 5), s3);
    var s4 := State(s2.rows, map[1 := Refreshing(0), 2 := Refreshing(0)], {5});
    ReachableStep(s3, BeginRefresh(2, 5), s4);
    var s5 := State([Row(7, 5, 5, true)], map[1 := Won(7, 5), 2 := Refreshing(0)], {5});
    ReachableStep(s4, Rotate(1), s5);
    var s6 := State([Row(7, 5, 5, true)], map[1 := Won(7, 5), 2 := Replayed(5)], {5});
    ReachableStep(s5, Rotate(2), s6);
    ReachableInv(s6);
    ReplayKillsFamilyExactlyWhenNoRotation(s6, 2);
    assert InFlight(s6, 1, 5);
  }

  lemma InitialReachable()
    ensures Reachable(INITIAL)
  {
    var none: seq<Event> := [];
    assert Runs(INITIAL, none) && After(INITIAL, none) == INITIAL;
  }

  lemma {:induction false} AfterAppend(s: State, es: seq<Event>, e: Event)
    requires Runs(s, es) && Enabled(After(s, es), e)
    ensures Runs(s, es + [e]) && After(s, es + [e]) == Step(After(s, es), e)
    decreases |es|
  {
    if es == [] {
      assert [e][1..] == [];
    } else {
      AfterAppend(Step(s, es[0]), es[1..], e);
      assert (es + [e])[1..] == es[1..] + [e];
    }
  }

  lemma ReachableStep(s: State, e: Event, t: State)
    requires Reachable(s) && Enabled(s, e) && t == Step(s, e)
    ensures Reachable(t)
  {
    var es :| Runs(INITIAL, es) && After(INITIAL, es) == s;
    AfterAppend(INITIAL, es, e);
    assert Runs(INITIAL, es + [e]) && After(INITIAL, es + [e]) == t;
  }

  /** Logout ends the session's family for good exactly when the presented token is the family's live
      one, or the family was dead before: logging out with an already rotated token revokes nothing. */
  lemma LogoutEndsFamilyExactlyWhenTokenLive(s: State, r: nat)
    requires Inv(s) && Enabled(s, FinishLogout(r))
    ensures var row := s.rows[s.requests[r].row];
      NeverLiveAgain(Step(s, FinishLogout(r)), row.family) <==> !row.revoked || Dead(s, row.family)
  {
    var i := s.requests[r].row;
    var f := s.rows[i].family;
    var t := Step(s, FinishLogout(r));
    NeverLiveAgainExactlyWhenDead(t, f);
    forall q ensures InFlight(s, q, f) <==> InFlight(t, q, f) {}
    forall j ensures LiveRow(t, j, f) <==> LiveRow(s, j, f) && j != i {}
    if !s.rows[i].revoked {
      assert LiveRow(s, i, f);
    }
  }

  ghost predicate OwnsFamily(s: State, user: nat, family: nat) {
    exists i :: 0 <= i < |s.rows| && s.rows[i].family == family && s.rows[i].user == user
  }

  lemma OwnerIsUnique(s: State, i: nat, user: nat, family: nat)
    requires Inv(s) && OwnsFamily(s, user, family) && i < |s.rows| && s.rows[i].family == family
    ensures s.rows[i].user == user
  {
  }

  /** changePassword leaves the user no live token, and ends every family the user had for good
      exactly when none of the user's rotations is in flight. */
  lemma PasswordChangeEndsFamiliesExactlyWhenNoRotation(s: State, r: nat)
    requires Inv(s) && Enabled(s, FinishChange(r))
    ensures var user := s.requests[r].user;
            var t := Step(s, FinishChange(r));
      && (forall i :: 0 <= i < |t.rows| && t.rows[i].user == user ==> t.rows[i].revoked)
      && ((forall f :: OwnsFamily(s, user, f) ==> NeverLiveAgain(t, f))
          <==> forall q :: q in s.requests && s.requests[q].Won? ==> s.requests[q].user != user)
  {
    var user := s.requests[r].user;
    var t := Step(s, FinishChange(r));
    forall f | OwnsFamily(s, user, f)
      ensures NeverLiveAgain(t, f) <==> NoRotationInFlight(s, f)
    {
      NeverLiveAgainExactlyWhenDead(t, f);
      forall i: nat ensures !LiveRow(t, i, f) {
        if i < |s.rows| && s.rows[i].family == f {
          OwnerIsUnique(s, i, user, f);
        }
      }
      forall q ensures InFlight(s, q, f) <==> InFlight(t, q, f) {}
    }
    forall q | q in s.requests && s.requests[q].Won?
      ensures s.requests[q].user == user <==> OwnsFamily(s, user, s.requests[q].family)
      ensures InFlight(s, q, s.requests[q].family)
    {
      assert RequestOk(s, q);
      var i :| 0 <= i < |s.rows| && s.rows[i].family == s.requests[q].family && s.rows[i].user == s.requests[q].user;
      if OwnsFamily(s, user, s.requests[q].family) {
        OwnerIsUnique(s, i, user, s.requests[q].family);
      }
    }
    forall f, q | OwnsFamily(s, user, f) && InFlight(s, q, f) ensures s.requests[q].user == user {}
  }

  /** A login that read the stored hash before the change, whether or not it has checked the password
      against it yet, still inserts a live token after the change. */
  lemma LoginInFlightSurvivesPasswordChange(s: State, login: nat, change: nat, jti: nat)
    requires Enabled(s, FinishChange(change)) && Enabled(s, FinishLogin(login, jti))
    requires s.requests[login].user == s.requests[change].user
    ensures var t := Step(s, FinishChange(change));
      Enabled(t, FinishLogin(login, jti))
      && exists i: nat :: LiveRow(Step(t, FinishLogin(login, jti)), i, jti)
                     && Step(t, FinishLogin(login, jti)).rows[i].user == s.requests[change].user
  {
    var t := Step(s, FinishChange(change));
    assert LiveRow(Step(t, FinishLogin(login, jti)), |t.rows|, jti);
  }

  ghost predicate UserLive(s: State, user: nat) {
    exists i :: 0 <= i < |s.rows| && s.rows[i].user == user && !s.rows[i].revoked
  }

  /** A request of the user that has read what lets it in, the stored hash or a live token it has won, and
      will insert a token. */
  ghost predicate AboutToInsert(s: State, user: nat) {
    exists q :: q in s.requests && (s.requests[q].Won? || s.requests[q].LoggingIn?) && s.requests[q].user == user
  }

  ghost predicate NoLoginOf(es: seq<Event>, user: nat) {
    forall i :: 0 <= i < |es| && es[i].BeginLogin? ==> es[i].user != user
  }

  /** Without a new login, no continuation gives the user a live token. */
  ghost predicate SessionsOver(s: State, user: nat) {
    forall es :: Runs(s, es) && NoLoginOf(es, user) ==> !UserLive(After(s, es), user)
  }

  lemma OverStep(s: State, e: Event, user: nat)
    requires Enabled(s, e) && (e.BeginLogin? ==> e.user != user)
    requires !UserLive(s, user) && !AboutToInsert(s, user)
    ensures !UserLive(Step(s, e), user) && !AboutToInsert(Step(s, e), user)
  {
    var t := Step(s, e);
    forall i | 0 <= i < |t.rows| && t.rows[i].user == user ensures t.rows[i].revoked {
      if i < |s.rows| {
        RowsOnlyAge(s, e, i);
        assert s.rows[i].user == user;
      }
    }
    forall q | q in t.requests && (t.requests[q].Won? || t.requests[q].LoggingIn?) ensures t.requests[q].user != user {
      if q in s.requests && t.requests[q] == s.requests[q] {
        assert s.requests[q].user != user;
      } else if e.Rotate? {
        assert !s.rows[s.requests[e.r].row].revoked;
      }
    }
  }

  lemma {:induction false} OverForever(s: State, es: seq<Event>, user: nat)
    requires Runs(s, es) && NoLoginOf(es, user) && !UserLive(s, user) && !AboutToInsert(s, user)
    ensures !UserLive(After(s, es), user)
    decreases |es|
  {
    if es != [] {
      assert NoLoginOf(es[1..], user);
      OverStep(s, es[0], user);
      OverForever(Step(s, es[0]), es[1..], user);
    }
  }

  /** changePassword leaves the user no session, and none comes back without a login that reads the stored
      hash after it, exactly when no request of the user is about to insert: neither a rotation in flight nor
      a login that has read the stored hash and not inserted yet, even if its password check is still to come. */
  lemma PasswordChangeEndsSessionsExactlyWhenNoneInFlight(s: State, r: nat)
    requires Enabled(s, FinishChange(r))
    ensures var user := s.requests[r].user;
      SessionsOver(Step(s, FinishChange(r)), user) <==> !AboutToInsert(s, user)
  {
    var user := s.requests[r].user;
    var t := Step(s, FinishChange(r));
    assert !UserLive(t, user);
    assert AboutToInsert(t, user) <==> AboutToInsert(s, user) by {
      forall q | q in s.requests && (s.requests[q].Won? || s.requests[q].LoggingIn?) ensures q in t.requests {}
    }
    if !AboutToInsert(t, user) {
      forall es | Runs(t, es) && NoLoginOf(es, user) ensures !UserLive(After(t, es), user) {
        OverForever(t, es, user);
      }
    } else {
      var q :| q in t.requests && (t.requests[q].Won? || t.requests[q].LoggingIn?) && t.requests[q].user == user;
      var jti := FreshJti(t.issued);
      var e := if t.requests[q].Won? then FinishRefresh(q, jti) else FinishLogin(q, jti);
      OneStepRun(t, e);
      var u := Step(t, e);
      assert u.rows[|t.rows|].user == user && !u.rows[|t.rows|].revoked;
      assert NoLoginOf([e], user) && UserLive(After(t, [e]), user);
    }
  }

  /** A login reads the old hash; the new one is stored and the user's tokens are revoked; the login then
      passes its check and inserts. */
  const STALE_LOGIN := [BeginLogin(0, 1), BeginChange(1, 1), FinishChange(1), FinishLogin(0, 7)]

  lemma OldPasswordLoginOutlivesChange()
    ensures Runs(INITIAL, STALE_LOGIN) && UserLive(After(INITIAL, STALE_LOGIN), 1)
  {
    var s1 := State([], map[0 := LoggingIn(1)], {});
    var s2 := State([], map[0 := LoggingIn(1), 1 := ChangingPassword(1)], {});
    var s4 := State([Row(1, 7, 7, false)], map[], {7});
    OneMore(INITIAL, STALE_LOGIN, s1);
    OneMore(s1, STALE_LOGIN[1..], s2);
    OneMore(s2, STALE_LOGIN[2..], s1);
    OneMore(s1, STALE_LOGIN[3..], s4);
    assert s4.rows[0].user == 1;
  }

  lemma OneMore(s: State, es: seq<Event>, t: State)
    requires es != [] && Enabled(s, es[0]) && Step(s, es[0]) == t
    ensures Runs(s, es) <==> Runs(t, es[1..])
    ensures Runs(s, es) ==> After(s, es) == After(t, es[1..])
  {
  }
}

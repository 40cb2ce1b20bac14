/**
  `refresh` and `login` of `auth/auth.service.ts` taken apart into what they read and what they write later, without a
  transaction around the two: what overlapping calls, and a password reset in their midst, can do that calls one at a
  time cannot.
 */
module AuthRaces {
  import opened Prelude
  import Lockout
  import Sessions

  type Proc = nat
  type UserId = nat
  type Token = nat
  type Tokens = map<Token, Sessions.RefreshToken>

  // ---------------------------------------------------------------------------------------------
  // Refreshes of one token
  // ---------------------------------------------------------------------------------------------

  /**
    A refresh: begun, past the checks on the row it read, past the revocation, answered with a pair, or turned away.
   */
  datatype Stage = Begun | Passed | Rotated | Paired(minted: Token) | Turned

  datatype Refresh = Refresh(token: Token, stage: Stage)

  /** A login that has found the password right, and the session it opens, if it has got so far. */
  datatype Login = Login(user: UserId, session: Option<Token>)

  datatype Sys = Sys(tokens: Tokens, refreshes: map<Proc, Refresh>, logins: map<Proc, Login>)

  datatype Step =
    | Begin(p: Proc, token: Token)
    | Check(p: Proc, at: Time)
    | Revoke(p: Proc, at: Time)
    | Issue(p: Proc, minted: Token, expiresAt: Time)
    | Logout(token: Token, at: Time)
    | Compare(p: Proc, user: UserId)
    | Open(p: Proc, minted: Token, expiresAt: Time)
    | EndAll(user: UserId, at: Time)

  predicate At(s: Sys, p: Proc, stage: Stage) {
    p in s.refreshes && s.refreshes[p].stage == stage
  }

  function Move(s: Sys, p: Proc, stage: Stage): Sys
    requires p in s.refreshes
  {
    s.(refreshes := s.refreshes[p := s.refreshes[p].(stage := stage)])
  }

  function RevokeRow(tokens: Tokens, token: Token, at: Time): Tokens {
    if token in tokens then tokens[token := tokens[token].(revokedAt := Some(at))] else tokens
  }

  function Exec(s: Sys, step: Step): Sys {
    match step
    case Begin(p, token) => if p in s.refreshes then s else s.(refreshes := s.refreshes[p := Refresh(token, Begun)])
    case Check(p, at) =>
      if !At(s, p, Begun) then s else
      var t := s.refreshes[p].token;
      Move(s, p, if t in s.tokens && !Sessions.Dead(s.tokens[t], at) then Passed else Turned)
    case Revoke(p, at) =>
      if !At(s, p, Passed) then s else Move(s, p, Rotated).(tokens := RevokeRow(s.tokens, s.refreshes[p].token, at))
    case Issue(p, minted, expiresAt) =>
      if !At(s, p, Rotated) || s.refreshes[p].token !in s.tokens || minted in s.tokens then s else
      var user := s.tokens[s.refreshes[p].token].user;
      Move(s, p, Paired(minted)).(tokens := s.tokens[minted := Sessions.RefreshToken(user, expiresAt, None)])
    case Logout(token, at) => s.(tokens := RevokeRow(s.tokens, token, at))
    case Compare(p, user) => if p in s.logins then s else s.(logins := s.logins[p := Login(user, None)])
    case Open(p, minted, expiresAt) =>
      if p !in s.logins || s.logins[p].session.Some? || minted in s.tokens then s else
      var user := s.logins[p].user;
      s.(logins := s.logins[p := Login(user, Some(minted))],
         tokens := s.tokens[minted := Sessions.RefreshToken(user, expiresAt, None)])
    case EndAll(user, at) => s.(tokens := Sessions.RevokeUser(s.tokens, user, at))
  }

  function Before(init: Sys, steps: seq<Step>, n: nat): Sys
    requires n <= |steps|
  {
    if n == 0 then init else Exec(Before(init, steps, n - 1), steps[n - 1])
  }

  /** The refresh of this token got past the checks. */
  predicate GotPast(s: Sys, p: Proc, token: Token) {
    p in s.refreshes && s.refreshes[p].token == token && s.refreshes[p].stage != Begun && s.refreshes[p].stage != Turned
  }

  predicate Pairs(s: Sys, p: Proc, token: Token) {
    p in s.refreshes && s.refreshes[p].token == token && s.refreshes[p].stage.Paired?
  }

  /** Two refreshes of the token are between check and revocation at once. */
  predicate Overlap(s: Sys, p: Proc, q: Proc, token: Token) {
    && p != q && At(s, p, Passed) && At(s, q, Passed)
    && s.refreshes[p].token == token && s.refreshes[q].token == token
  }

  ghost predicate EverOverlap(init: Sys, steps: seq<Step>, n: nat, token: Token)
    requires n <= |steps|
  {
    exists k: nat, p, q :: k <= n && Overlap(Before(init, steps, k), p, q, token)
  }

  /** A token whose refresh has got beyond the revocation stays revoked. */
  ghost predicate RotatedIsRevoked(s: Sys, token: Token) {
    forall p | GotPast(s, p, token) && s.refreshes[p].stage != Passed :: token in s.tokens ==>
        s.tokens[token].revokedAt.Some?
  }

  /** Every refresh past the checks is of a token on record. */
  ghost predicate OnRecord(s: Sys, token: Token) {
    forall p | GotPast(s, p, token) :: token in s.tokens
  }

  ghost predicate AtMostOne(s: Sys, token: Token) {
    forall p, q | GotPast(s, p, token) && GotPast(s, q, token) :: p == q
  }

  /** How a refresh comes to be past the checks: it was, or this step checked it and found the token live. */
  lemma GotPastStep(s: Sys, step: Step, p: Proc, token: Token)
    requires GotPast(Exec(s, step), p, token)
    ensures GotPast(s, p, token) || (step.Check? && step.p == p && token in s.tokens && s.tokens[token].revokedAt.None?
                                     && Exec(s, step).refreshes[p].stage == Passed)
    ensures GotPast(s, p, token) && s.refreshes[p].stage == Passed && Exec(s, step).refreshes[p].stage != Passed ==>
              step.Revoke? && step.p == p
  {
  }

  /** No row goes away, and no revoked row comes back to life. */
  lemma RowStep(s: Sys, step: Step, token: Token)
    requires token in s.tokens
    ensures token in Exec(s, step).tokens
    ensures s.tokens[token].revokedAt.Some? ==> Exec(s, step).tokens[token].revokedAt.Some?
    ensures step.Revoke? && At(s, step.p, Passed) && s.refreshes[step.p].token == token ==>
            Exec(s, step).tokens[token].revokedAt.Some?
  {
  }

  lemma StepKeepsRevoked(s: Sys, step: Step, token: Token)
    requires RotatedIsRevoked(s, token) && OnRecord(s, token)
    ensures RotatedIsRevoked(Exec(s, step), token) && OnRecord(Exec(s, step), token)
  {
    forall p | GotPast(Exec(s, step), p, token)
      ensures token in Exec(s, step).tokens
      ensures Exec(s, step).refreshes[p].stage != Passed ==> Exec(s, step).tokens[token].revokedAt.Some?
    {
      GotPastStep(s, step, p, token);
      RowStep(s, step, token);
    }
  }

  lemma StepKeepsOne(s: Sys, step: Step, token: Token)
    requires RotatedIsRevoked(s, token) && OnRecord(s, token) && AtMostOne(s, token)
    requires forall p, q :: !Overlap(Exec(s, step), p, q, token)
    ensures AtMostOne(Exec(s, step), token)
  {
    forall p, q | GotPast(Exec(s, step), p, token) && GotPast(Exec(s, step), q, token) ensures p == q {
      GotPastStep(s, step, p, token);
      GotPastStep(s, step, q, token);
      assert !Overlap(Exec(s, step), p, q, token) && !Overlap(Exec(s, step), q, p, token);
    }
  }

  lemma {:induction false} OneWithoutOverlap(init: Sys, steps: seq<Step>, n: nat, token: Token)
    requires n <= |steps| && init.refreshes == map[] && !EverOverlap(init, steps, n, token)
    ensures var s := Before(init, steps, n); RotatedIsRevoked(s, token) && OnRecord(s, token) && AtMostOne(s, token)
  {
    if n > 0 {
      OneWithoutOverlap(init, steps, n - 1, token);
      StepKeepsRevoked(Before(init, steps, n - 1), steps[n - 1], token);
      assert Before(init, steps, n) == Exec(Before(init, steps, n - 1), steps[n - 1]);
      forall p, q ensures !Overlap(Before(init, steps, n), p, q, token) {}
      hide Exec;
      StepKeepsOne(Before(init, steps, n - 1), steps[n - 1], token);
    }
  }

  lemma {:induction false} PastStays(init: Sys, steps: seq<Step>, k: nat, n: nat, p: Proc, token: Token)
    requires k <= n <= |steps| && GotPast(Before(init, steps, k), p, token)
    ensures GotPast(Before(init, steps, n), p, token)
  {
    hide Exec;
    if k < n {
      PastStays(init, steps, k, n - 1, p, token);
      PastStep(Before(init, steps, n - 1), steps[n - 1], p, token);
    }
  }

  lemma PastStep(s: Sys, step: Step, p: Proc, token: Token)
    requires GotPast(s, p, token)
    ensures GotPast(Exec(s, step), p, token)
  {
  }

  ghost predicate TwoPairs(s: Sys, token: Token) {
    exists p, q :: p != q && Pairs(s, p, token) && Pairs(s, q, token)
  }

  predicate AllDone(s: Sys) {
    forall p | p in s.refreshes :: s.refreshes[p].stage.Paired? || s.refreshes[p].stage.Turned?
  }

  /**
    One refresh token, one pair, exactly without overlap: when all refreshes of a run are done, two of them got a pair
    for the same token if and only if at some moment two of its refreshes were both between their check and their
    revocation.
   */
  lemma TwoPairsExactlyByOverlap(init: Sys, steps: seq<Step>, n: nat, token: Token)
    requires n <= |steps| && init.refreshes == map[] && AllDone(Before(init, steps, n))
    ensures TwoPairs(Before(init, steps, n), token) <==> EverOverlap(init, steps, n, token)
  {
    var s := Before(init, steps, n);
    if EverOverlap(init, steps, n, token) {
      var k: nat, p, q :| k <= n && Overlap(Before(init, steps, k), p, q, token);
      PastStays(init, steps, k, n, p, token);
      PastStays(init, steps, k, n, q, token);
      assert p != q && Pairs(s, p, token) && Pairs(s, q, token);
    } else {
      OneWithoutOverlap(init, steps, n, token);
      forall p, q | p != q ensures !(Pairs(s, p, token) && Pairs(s, q, token)) {
        assert GotPast(s, p, token) && GotPast(s, q, token) ==> p == q;
      }
    }
  }

  /** From any live token it can happen: both refreshes check before either revokes. */
  lemma BothCanPass(tokens: Tokens, token: Token, now: Time)
    requires token in tokens && !Sessions.Dead(tokens[token], now)
    ensures var steps := [Begin(0, token), Begin(1, token), Check(0, now), Check(1, now)];
            EverOverlap(Sys(tokens, map[], map[]), steps, 4, token)
  {
    var (init, steps) := (Sys(tokens, map[], map[]), [Begin(0, token), Begin(1, token), Check(0, now), Check(1, now)]);
    assert Before(init, steps, 0) == init;
    var s2 := Sys(tokens, map[0 := Refresh(token, Begun), 1 := Refresh(token, Begun)], map[]);
    assert Before(init, steps, 1) == Sys(tokens, map[0 := Refresh(token, Begun)], map[]);
    assert Before(init, steps, 2) == s2;
    assert Before(init, steps, 3) == Move(s2, 0, Passed);
    assert Before(init, steps, 4) == Move(Move(s2, 0, Passed), 1, Passed);
    assert Overlap(Before(init, steps, 4), 0, 1, token);
  }

  // ---------------------------------------------------------------------------------------------
  // Sessions and a reset
  // ---------------------------------------------------------------------------------------------

  /** The step revokes this token: its logout, its rotation, or the end of all its owner's sessions. */
  predicate Revokes(s: Sys, step: Step, t: Token) {
    && t in s.tokens
    && match step
       case Logout(token, _) => token == t
       case Revoke(p, _) => At(s, p, Passed) && s.refreshes[p].token == t
       case EndAll(user, _) => s.tokens[t].user == user
       case _ => false
  }

  /** Step `i` issues session `t`. */
  predicate Issues(init: Sys, steps: seq<Step>, i: nat, t: Token) {
    i < |steps| && t !in Before(init, steps, i).tokens && t in Exec(Before(init, steps, i), steps[i]).tokens
  }

  lemma TokenStep(s: Sys, step: Step, t: Token)
    requires t in s.tokens
    ensures t in Exec(s, step).tokens && Exec(s, step).tokens[t].user == s.tokens[t].user
    ensures Exec(s, step).tokens[t].revokedAt.None? <==> s.tokens[t].revokedAt.None? && !Revokes(s, step, t)
  {
  }

  lemma IssueStep(s: Sys, step: Step, t: Token)
    requires t !in s.tokens && t in Exec(s, step).tokens
    ensures Exec(s, step).tokens[t].revokedAt.None?
  {
  }

  /** A session is live exactly if no step after the one that issued it has revoked it. */
  lemma {:induction false} LiveExactly(init: Sys, steps: seq<Step>, i: nat, n: nat, t: Token)
    requires i < n <= |steps| && Issues(init, steps, i, t)
    ensures t in Before(init, steps, n).tokens
    ensures Before(init, steps, n).tokens[t].revokedAt.None?
            <==> forall j | i < j < n :: !Revokes(Before(init, steps, j), steps[j], t)
  {
    hide Exec, Revokes;
    assert Before(init, steps, n) == Exec(Before(init, steps, n - 1), steps[n - 1]);
    if n == i + 1 {
      IssueStep(Before(init, steps, i), steps[i], t);
    } else {
      LiveExactly(init, steps, i, n - 1, t);
      TokenStep(Before(init, steps, n - 1), steps[n - 1], t);
    }
  }

  /**
    A password reset revokes what has been issued, not what is being issued: of a session not revoked otherwise, and in
    particular of one whose refresh or login was checked before the reset, it holds that it is live after the reset
    exactly if its issue comes after the revocation.
   */
  lemma LiveAfterResetExactly(init: Sys, steps: seq<Step>, r: nat, i: nat, n: nat, t: Token)
    requires i < n <= |steps| && r < n && Issues(init, steps, i, t) && steps[r].EndAll?
    requires t in Before(init, steps, n).tokens ==> steps[r].user == Before(init, steps, n).tokens[t].user
    requires forall j | i < j < n && j != r :: !Revokes(Before(init, steps, j), steps[j], t)
    ensures t in Before(init, steps, n).tokens && (Before(init, steps, n).tokens[t].revokedAt.None? <==> r < i)
  {
    hide Exec, Before, Revokes;
    LiveExactly(init, steps, i, n, t);
    EndAllIssuesNothing(Before(init, steps, r), steps[r], t);
    if i < r {
      OwnerStays(init, steps, r, n, t, i);
      EndAllRevokes(Before(init, steps, r), steps[r], t);
    }
  }

  lemma EndAllIssuesNothing(s: Sys, step: Step, t: Token)
    requires step.EndAll?
    ensures t !in s.tokens ==> t !in Exec(s, step).tokens
  {
  }

  lemma EndAllRevokes(s: Sys, step: Step, t: Token)
    requires step.EndAll? && t in s.tokens && s.tokens[t].user == step.user
    ensures Revokes(s, step, t)
  {
  }

  lemma {:induction false} OwnerStays(init: Sys, steps: seq<Step>, k: nat, n: nat, t: Token, i: nat)
    requires i < k <= n <= |steps| && Issues(init, steps, i, t)
    ensures t in Before(init, steps, k).tokens && t in Before(init, steps, n).tokens
    ensures Before(init, steps, n).tokens[t].user == Before(init, steps, k).tokens[t].user
  {
    hide Exec, Revokes;
    LiveExactly(init, steps, i, k, t);
    if k < n {
      OwnerStays(init, steps, k, n - 1, t, i);
      TokenStep(Before(init, steps, n - 1), steps[n - 1], t);
    }
  }

  /** From any live token: a refresh checked and a login compared before a reset both leave live sessions. */
  lemma SessionsSurviveReset(tokens: Tokens, token: Token, now: Time, user: UserId, a: Token, b: Token)
    requires token in tokens && !Sessions.Dead(tokens[token], now) && tokens[token].user == user
    requires a !in tokens && b !in tokens && a != b
    ensures var steps := [Begin(0, token), Check(0, now), Compare(1, user), EndAll(user, now), Revoke(0, now),
                          Issue(0, a, now + 1), Open(1, b, now + 1)];
            var s := Before(Sys(tokens, map[], map[]), steps, 7);
            && a in s.tokens && s.tokens[a] == Sessions.RefreshToken(user, now + 1, None)
            && b in s.tokens && s.tokens[b] == Sessions.RefreshToken(user, now + 1, None)
  {
    var init := Sys(tokens, map[], map[]);
    var steps := [Begin(0, token), Check(0, now), Compare(1, user), EndAll(user, now), Revoke(0, now),
                  Issue(0, a, now + 1), Open(1, b, now + 1)];
    hide Before, Exec;
    CheckedBeforeReset(tokens, token, now, user);
    IssuedAfterReset(tokens, token, now, user, a, b);
    Unfolds(init, steps, 1);
    Unfolds(init, steps, 2);
    Unfolds(init, steps, 3);
    Unfolds(init, steps, 4);
    Unfolds(init, steps, 5);
    Unfolds(init, steps, 6);
    Unfolds(init, steps, 7);
  }

  /** A refresh of `token` has passed its check, a login its comparison, and the user's sessions have been ended. */
  function CaughtByReset(tokens: Tokens, token: Token, now: Time, user: UserId): Sys {
    Sys(Sessions.RevokeUser(tokens, user, now), map[0 := Refresh(token, Passed)], map[1 := Login(user, None)])
  }

  lemma CheckedBeforeReset(tokens: Tokens, token: Token, now: Time, user: UserId)
    requires token in tokens && !Sessions.Dead(tokens[token], now) && tokens[token].user == user
    ensures var init := Sys(tokens, map[], map[]);
            var passed := Exec(Exec(init, Begin(0, token)), Check(0, now));
            Exec(Exec(passed, Compare(1, user)), EndAll(user, now)) == CaughtByReset(tokens, token, now, user)
  {
    var begun := Exec(Sys(tokens, map[], map[]), Begin(0, token));
    assert begun == Sys(tokens, map[0 := Refresh(token, Begun)], map[]);
    assert Exec(begun, Check(0, now)) == Sys(tokens, map[0 := Refresh(token, Passed)], map[]);
    hide Sessions.RevokeUser;
  }

  lemma IssuedAfterReset(tokens: Tokens, token: Token, now: Time, user: UserId, a: Token, b: Token)
    requires token in tokens && tokens[token].user == user && a !in tokens && b !in tokens && a != b
    ensures var rotated := Exec(Exec(CaughtByReset(tokens, token, now, user), Revoke(0, now)), Issue(0, a, now + 1));
            var s := Exec(rotated, Open(1, b, now + 1));
            && a in s.tokens && s.tokens[a] == Sessions.RefreshToken(user, now + 1, None)
            && b in s.tokens && s.tokens[b] == Sessions.RefreshToken(user, now + 1, None)
  {
  }

  lemma Unfolds(init: Sys, steps: seq<Step>, n: nat)
    requires 0 < n <= |steps|
    ensures Before(init, steps, n) == Exec(Before(init, steps, n - 1), steps[n - 1])
    ensures Before(init, steps, 0) == init
  {
  }

  // ---------------------------------------------------------------------------------------------
  // Wrong passwords for one account
  // ---------------------------------------------------------------------------------------------

  /** The guard as the database has it, and the guards that logins with a wrong password have read but not acted on. */
  datatype Account = Account(guard: Lockout.Guard, seen: seq<Lockout.Guard>)

  const FRESH := Account(Lockout.OPEN_GUARD, [])

  /** Read the guard; unless it says locked, the password is then compared. */
  function LoginRead(a: Account, now: Time): Account {
    if Lockout.Locked(a.guard, now) then a else a.(seen := a.seen + [a.guard])
  }

  /** Some login writes one more failure than it read; the lock is written only from the fifth on. */
  function LoginWrite(a: Account, i: nat, now: Time): Account {
    if i >= |a.seen| then a else
    var failed := a.seen[i].failed + 1;
    var lock := if failed >= Lockout.MAX_FAILED_LOGINS then Some(now + Lockout.LOCKOUT_MS) else a.guard.lockedUntil;
    Account(Lockout.Guard(failed, lock), a.seen[..i] + a.seen[i + 1..])
  }

  /** With nothing in between, reading and writing are one login with a wrong password. */
  lemma LoginAlone(a: Account, now: Time)
    ensures LoginWrite(LoginRead(a, now), |a.seen|, now) == a.(guard := Lockout.Login(a.guard, now, false).0)
  {
  }

  /** One write: the wrong password is counted exactly if the counter still stands where its login read it. */
  lemma CountedExactly(a: Account, i: nat, now: Time)
    requires i < |a.seen|
    ensures LoginWrite(a, i, now).guard.failed == a.guard.failed + 1 <==> a.guard.failed == a.seen[i].failed
    ensures LoginWrite(a, i, now).guard.failed == a.seen[i].failed + 1
  {
  }

  /** `k` wrong passwords one after the other. */
  function Tries(a: Account, now: Time, k: nat): Account
    decreases k
  {
    if k == 0 then a else
    var before := Tries(a, now, k - 1);
    LoginWrite(LoginRead(before, now), |before.seen|, now)
  }

  lemma {:induction false} TriesCount(a: Account, now: Time, k: nat)
    requires a.guard.lockedUntil.None? && a.guard.failed + k < Lockout.MAX_FAILED_LOGINS
    ensures Tries(a, now, k) == a.(guard := Lockout.Guard(a.guard.failed + k, None))
    decreases k
  {
    if k > 0 {
      TriesCount(a, now, k - 1);
      LoginAlone(Tries(a, now, k - 1), now);
    }
  }

  /**
    So with only two logins in flight the lock can be put off: one reads a fresh account's guard and waits, four others
    fail, and then its late write takes the counter back to one. Eight passwords have been compared in vain after three
    more, and the account is still open.
   */
  lemma LateWriteForgets(now: Time)
    ensures var held := LoginRead(FRESH, now);
            var late := LoginWrite(Tries(held, now, 4), 0, now);
            && late.guard.failed == 1
            && Tries(late, now, 3).guard.failed == 4 && !Lockout.Locked(Tries(late, now, 3).guard, now)
  {
    var held := LoginRead(FRESH, now);
    TriesCount(held, now, 4);
    TriesCount(LoginWrite(Tries(held, now, 4), 0, now), now, 3);
  }

  // ----- Runs of reads and writes -----

  datatype LoginStep = Reads(at: Time) | Writes(i: nat, at: Time)

  function ExecLogin(a: Account, step: LoginStep): Account {
    match step
    case Reads(at) => LoginRead(a, at)
    case Writes(i, at) => LoginWrite(a, i, at)
  }

  function AccountAfter(a: Account, steps: seq<LoginStep>): Account {
    if steps == [] then a else ExecLogin(AccountAfter(a, steps[..|steps| - 1]), steps[|steps| - 1])
  }

  predicate Effective(a: Account, step: LoginStep) {
    step.Writes? && step.i < |a.seen|
  }

  /** How many wrong passwords have been acted on. */
  function Written(a: Account, steps: seq<LoginStep>): nat {
    if steps == [] then 0 else
    var before := steps[..|steps| - 1];
    Written(a, before) + Count(Effective(AccountAfter(a, before), steps[|steps| - 1]))
  }

  /** Every write found the counter where its login had read it. */
  predicate AllFound(a: Account, steps: seq<LoginStep>) {
    steps != [] ==>
      var (reached, last) := (AccountAfter(a, steps[..|steps| - 1]), steps[|steps| - 1]);
      && AllFound(a, steps[..|steps| - 1])
      && (Effective(reached, last) ==> reached.seen[last.i].failed == reached.guard.failed)
  }

  lemma {:induction false} CounterAgainstWrites(steps: seq<LoginStep>)
    ensures var (a, w) := (AccountAfter(FRESH, steps), Written(FRESH, steps));
            && a.guard.failed <= w && (a.guard.failed == w <==> AllFound(FRESH, steps))
            && (forall i | 0 <= i < |a.seen| ::
                  a.seen[i].failed <= w && (a.seen[i].failed == w ==> AllFound(FRESH, steps)))
  {
    if steps != [] {
      var (before, last) := (steps[..|steps| - 1], steps[|steps| - 1]);
      CounterAgainstWrites(before);
      if Effective(AccountAfter(FRESH, before), last) { CountedExactly(AccountAfter(FRESH, before), last.i, last.at); }
    }
  }

  /**
    A run of overlapping logins, all with a wrong password: the counter never exceeds the failures acted on, and equals
    them exactly if every write found the counter where its login had read it.
   */
  lemma CountedOverRun(steps: seq<LoginStep>)
    ensures AccountAfter(FRESH, steps).guard.failed <= Written(FRESH, steps)
    ensures AccountAfter(FRESH, steps).guard.failed == Written(FRESH, steps) <==> AllFound(FRESH, steps)
  {
    CounterAgainstWrites(steps);
  }

  /** How many of the steps read an open guard and so compared a password, all of them wrong. */
  function Compared(a: Account, steps: seq<LoginStep>): nat {
    if steps == [] then 0 else
    var (before, last) := (steps[..|steps| - 1], steps[|steps| - 1]);
    Compared(a, before) + Count(last.Reads? && !Lockout.Locked(AccountAfter(a, before).guard, last.at))
  }

  /** Nobody has locked the account yet, and at most `m` logins are in flight, throughout. */
  predicate OpenThroughout(a: Account, steps: seq<LoginStep>, m: nat) {
    && AccountAfter(a, steps).guard.lockedUntil.None? && |AccountAfter(a, steps).seen| <= m
    && (steps != [] ==> OpenThroughout(a, steps[..|steps| - 1], m))
  }

  // ----- At most so many comparisons before the lock -----

  /** In how many ways `r` places can be spread over `j + 1` values: the binomial coefficient C(r + j, j). */
  function Ways(j: nat, r: nat): nat
    decreases j + r
  {
    if j == 0 || r == 0 then 1 else Ways(j - 1, r) + Ways(j, r - 1)
  }

  /** Of the ways to spread `r` places over `j + 2` values, those with fewer than `n` at the first. */
  function Fewer(n: nat, j: nat, r: nat): nat
    requires n <= r + 1
  {
    if n == 0 then 0 else Fewer(n - 1, j, r) + Ways(j, r - (n - 1))
  }

  lemma {:induction false} FewerShifts(n: nat, j: nat, r: nat)
    requires 0 < r && n <= r
    ensures Fewer(n + 1, j, r) == Ways(j, r) + Fewer(n, j, r - 1)
    decreases n
  {
    if n > 0 { FewerShifts(n - 1, j, r); }
  }

  lemma {:induction false} FewerAddUp(j: nat, r: nat)
    ensures Fewer(r + 1, j, r) == Ways(j + 1, r)
    decreases r
  {
    if r > 0 {
      FewerShifts(r, j, r);
      FewerAddUp(j, r - 1);
    } else {
      assert Fewer(0, j, 0) == 0;
    }
  }

  lemma {:induction false} FewerGrows(n: nat, m: nat, j: nat, r: nat)
    requires n <= m <= r + 1
    ensures Fewer(n, j, r) <= Fewer(m, j, r)
    decreases m
  {
    if n < m { FewerGrows(n, m - 1, j, r); }
  }

  function Sum(ns: seq<nat>): nat {
    if ns == [] then 0 else ns[0] + Sum(ns[1..])
  }

  /** The place of a spread among all, in the order that looks at the first value first. */
  function Rank(ns: seq<nat>, r: nat): nat
    requires Sum(ns) <= r
  {
    if ns == [] then 0 else Fewer(ns[0], |ns| - 1, r) + Rank(ns[1..], r - ns[0])
  }

  lemma {:induction false} RankBound(ns: seq<nat>, r: nat)
    requires Sum(ns) <= r
    ensures Rank(ns, r) < Ways(|ns|, r)
    decreases |ns|
  {
    if ns != [] {
      RankBound(ns[1..], r - ns[0]);
      FewerGrows(ns[0] + 1, r + 1, |ns| - 1, r);
      FewerAddUp(|ns| - 1, r);
    }
  }

  /** A spread with less at the first value where it differs comes earlier. */
  lemma {:induction false} RankOrder(ns: seq<nat>, ms: seq<nat>, r: nat, t: nat)
    requires |ns| == |ms| && Sum(ns) <= r && Sum(ms) <= r
    requires t < |ns| && ns[..t] == ms[..t] && ms[t] < ns[t]
    ensures Rank(ms, r) < Rank(ns, r)
    decreases t
  {
    if t == 0 {
      RankBound(ms[1..], r - ms[0]);
      FewerGrows(ms[0] + 1, ns[0], |ns| - 1, r);
    } else {
      assert ns[0] == ns[..t][0] == ms[..t][0] == ms[0];
      assert ns[1..][..t - 1] == ns[..t][1..] && ms[1..][..t - 1] == ms[..t][1..];
      RankOrder(ns[1..], ms[1..], r - ns[0], t - 1);
    }
  }

  /** How many logins in flight have read this count. */
  function Holding(seen: seq<Lockout.Guard>, v: nat): nat {
    if seen == [] then 0 else Holding(seen[..|seen| - 1], v) + Count(seen[|seen| - 1].failed == v)
  }

  /** The same with the free places counted as having read the counter as it stands. */
  function Standing(a: Account, m: nat, v: nat): nat
    requires |a.seen| <= m
  {
    Holding(a.seen, v) + if a.guard.failed == v then m - |a.seen| else 0
  }

  function Spread(a: Account, m: nat): seq<nat>
    requires |a.seen| <= m
  {
    [Standing(a, m, 0), Standing(a, m, 1), Standing(a, m, 2), Standing(a, m, 3)]
  }

  predicate Below5(a: Account) {
    a.guard.failed < 5 && forall i | 0 <= i < |a.seen| :: a.seen[i].failed < 5
  }

  lemma {:induction false} HoldingAddsUp(seen: seq<Lockout.Guard>)
    requires forall i | 0 <= i < |seen| :: seen[i].failed < 5
    ensures Holding(seen, 0) + Holding(seen, 1) + Holding(seen, 2) + Holding(seen, 3) + Holding(seen, 4) == |seen|
  {
    if seen != [] { HoldingAddsUp(seen[..|seen| - 1]); }
  }

  lemma SumOfFour(a: nat, b: nat, c: nat, d: nat)
    ensures Sum([a, b, c, d]) == a + b + c + d
  {
    var (s1, s2, s3, s4) := ([d], [c, d], [b, c, d], [a, b, c, d]);
    assert s1[1..] == [] && s2[1..] == s1 && s3[1..] == s2 && s4[1..] == s3;
    assert Sum(s1) == d && Sum(s2) == c + Sum(s1) && Sum(s3) == b + Sum(s2) && Sum(s4) == a + Sum(s3);
  }

  lemma SpreadFits(a: Account, m: nat)
    requires |a.seen| <= m && Below5(a)
    ensures Sum(Spread(a, m)) <= m
  {
    HoldingAddsUp(a.seen);
    SumOfFour(Standing(a, m, 0), Standing(a, m, 1), Standing(a, m, 2), Standing(a, m, 3));
    hide Holding, Sum;
  }

  lemma {:induction false} HoldingWithout(seen: seq<Lockout.Guard>, i: nat, v: nat)
    requires i < |seen|
    ensures Holding(seen, v) == Holding(seen[..i] + seen[i + 1..], v) + Count(seen[i].failed == v)
  {
    var (n, rest) := (|seen| - 1, seen[..i] + seen[i + 1..]);
    if i < n {
      HoldingWithout(seen[..n], i, v);
      assert rest[..n - 1] == seen[..n][..i] + seen[..n][i + 1..] && rest[n - 1] == seen[n];
    } else {
      assert rest == seen[..n];
    }
  }

  /** What a write does to the spread: it moves its own place, and with it all free ones, to one more than was read. */
  lemma WriteMoves(a: Account, i: nat, now: Time, m: nat, v: nat)
    requires i < |a.seen| <= m
    ensures var (a', read) := (LoginWrite(a, i, now), a.seen[i].failed);
            && |a'.seen| == |a.seen| - 1
            && Standing(a', m, v) == Holding(a.seen, v) - Count(read == v)
                                     + if read + 1 == v then m - |a.seen| + 1 else 0
  {
    HoldingWithout(a.seen, i, v);
  }

  /** So every write that does not lock makes the spread come earlier. */
  lemma WriteDescends(a: Account, i: nat, now: Time, m: nat)
    requires i < |a.seen| <= m && Below5(a) && a.seen[i].failed < 4
    ensures Below5(LoginWrite(a, i, now))
    ensures |LoginWrite(a, i, now).seen| <= m && Sum(Spread(a, m)) <= m && Sum(Spread(LoginWrite(a, i, now), m)) <= m
    ensures Rank(Spread(LoginWrite(a, i, now), m), m) < Rank(Spread(a, m), m)
  {
    var (a', read) := (LoginWrite(a, i, now), a.seen[i].failed);
    forall v ensures Standing(a', m, v) == Holding(a.seen, v) - Count(read == v)
                                           + if read + 1 == v then m - |a.seen| + 1 else 0
    {
      WriteMoves(a, i, now, m, v);
    }
    HoldingSome(a.seen, i);
    hide Holding;
    SpreadFits(a, m);
    assert Below5(a') && |a'.seen| <= m;
    SpreadFits(a', m);
    var t := if a.guard.failed < read && |a.seen| < m then a.guard.failed else read;
    SpreadsDiffer(Spread(a, m), Spread(a', m), t);
    RankOrder(Spread(a, m), Spread(a', m), m, t);
  }

  lemma {:induction false} HoldingSome(seen: seq<Lockout.Guard>, i: nat)
    requires i < |seen|
    ensures Holding(seen, seen[i].failed) > 0
  {
    HoldingWithout(seen, i, seen[i].failed);
  }

  lemma SpreadsDiffer(ns: seq<nat>, ms: seq<nat>, t: nat)
    requires |ns| == |ms| == 4 && t < 4
    requires forall v | 0 <= v < t :: ms[v] == ns[v]
    ensures ns[..t] == ms[..t]
  {
  }

  /** Comparisons are failures acted on and logins in flight, and each failure acted on uses up a spread. */
  lemma {:induction false} ComparedIsPaid(steps: seq<LoginStep>, m: nat)
    requires OpenThroughout(FRESH, steps, m)
    ensures var a := AccountAfter(FRESH, steps);
            && Below5(a) && |a.seen| <= m && Sum(Spread(a, m)) <= m
            && Compared(FRESH, steps) == Written(FRESH, steps) + |a.seen|
            && Written(FRESH, steps) + Rank(Spread(a, m), m) < Ways(4, m)
  {
    var a := AccountAfter(FRESH, steps);
    if steps == [] {
      SpreadFits(a, m);
      RankBound(Spread(a, m), m);
    } else {
      ComparedIsPaid(steps[..|steps| - 1], m);
      LoginStepPays(AccountAfter(FRESH, steps[..|steps| - 1]), steps[|steps| - 1], m);
      hide Rank, Spread, Sum, Ways, ExecLogin, Below5;
    }
  }

  lemma LoginStepPays(a: Account, step: LoginStep, m: nat)
    requires Below5(a) && |a.seen| <= m && a.guard.lockedUntil.None? && Sum(Spread(a, m)) <= m
    requires ExecLogin(a, step).guard.lockedUntil.None? && |ExecLogin(a, step).seen| <= m
    ensures var a' := ExecLogin(a, step);
            && Below5(a') && Sum(Spread(a', m)) <= m
            && |a'.seen| == |a.seen| + Count(step.Reads?) - Count(Effective(a, step))
            && Rank(Spread(a', m), m) + Count(Effective(a, step)) <= Rank(Spread(a, m), m)
  {
    match step
    case Reads(at) => ReadKeepsSpread(a, at, m);
    case Writes(i, at) => if i < |a.seen| { WriteDescends(a, i, at, m); }
  }

  lemma ReadKeepsSpread(a: Account, now: Time, m: nat)
    requires a.guard.lockedUntil.None? && |a.seen| < m && Below5(a)
    ensures Below5(LoginRead(a, now)) && Spread(LoginRead(a, now), m) == Spread(a, m)
  {
    var a' := LoginRead(a, now);
    assert (a.seen + [a.guard])[..|a.seen|] == a.seen;
    forall v ensures Standing(a', m, v) == Standing(a, m, v) {}
  }

  /**
    With at most `m` logins in flight at a time, at most C(m + 4, 4) + m - 1 wrong passwords are compared before the
    account is first locked, whatever the interleaving: five if there is never more than one, sixteen with two.
   */
  lemma MostComparedBeforeLock(steps: seq<LoginStep>, m: nat)
    requires OpenThroughout(FRESH, steps, m)
    ensures Compared(FRESH, steps) <= Ways(4, m) + m - 1
    ensures 24 * Ways(4, m) == (m + 1) * (m + 2) * (m + 3) * (m + 4)
  {
    ComparedIsPaid(steps, m);
    WaysClosed4(m);
  }

  lemma {:induction false} WaysClosed1(r: nat)
    ensures Ways(1, r) == r + 1
  {
    if r > 0 { WaysClosed1(r - 1); }
  }

  lemma {:induction false} WaysClosed2(r: nat)
    ensures 2 * Ways(2, r) == (r + 1) * (r + 2)
  {
    if r > 0 { WaysClosed2(r - 1); WaysClosed1(r); }
  }

  lemma {:induction false} WaysClosed3(r: nat)
    ensures 6 * Ways(3, r) == (r + 1) * (r + 2) * (r + 3)
  {
    if r > 0 {
      WaysClosed3(r - 1);
      WaysClosed2(r);
      var p := (r + 1) * (r + 2);
      Pascal(p, r, 3);
      assert r * p == r * (r + 1) * (r + 2);
    }
  }

  lemma {:induction false} WaysClosed4(r: nat)
    ensures 24 * Ways(4, r) == (r + 1) * (r + 2) * (r + 3) * (r + 4)
  {
    if r > 0 {
      WaysClosed4(r - 1);
      WaysClosed3(r);
      var p := (r + 1) * (r + 2) * (r + 3);
      Pascal(p, r, 4);
      FourFactors(r);
    }
  }

  lemma Pascal(p: int, r: int, k: int)
    ensures p * (r + k) == k * p + r * p
  {
  }

  lemma FourFactors(r: int)
    ensures r * ((r + 1) * (r + 2) * (r + 3)) == r * (r + 1) * (r + 2) * (r + 3)
  {
    var q := (r + 1) * (r + 2);
    assert r * (q * (r + 3)) == (r * q) * (r + 3);
    assert r * q == r * (r + 1) * (r + 2);
  }

  // ----- And just so many can be made -----

  /** `n` reads at the same moment. */
  function ReadAll(n: nat, now: Time): seq<LoginStep> {
    if n == 0 then [] else ReadAll(n - 1, now) + [Reads(now)]
  }

  /**
    With the counter at 4 - j, `r` places free and `base` taken: read in all places, then let the logins write one by
    one, last come first, and use the places that have become free all over again at each higher count.
   */
  function Exhaust(j: nat, r: nat, base: nat, now: Time): seq<LoginStep>
    decreases j, r + 1
  {
    if j == 0 then [] else ReadAll(r, now) + WriteEach(j, r, r, base, now)
  }

  /** The last `i` of the `r` logins of this count write, each followed by all that its place allows. */
  function WriteEach(j: nat, i: nat, r: nat, base: nat, now: Time): seq<LoginStep>
    requires i <= r && j > 0
    decreases j, i
  {
    if i == 0 then [] else
    WriteEach(j, i - 1, r, base, now) + ([Writes(base + r - i, now)] + Exhaust(j - 1, i, base + r - i, now))
  }

  lemma {:induction false} RunAppends(a: Account, first: seq<LoginStep>, second: seq<LoginStep>, m: nat)
    ensures AccountAfter(a, first + second) == AccountAfter(AccountAfter(a, first), second)
    ensures Compared(a, first + second) == Compared(a, first) + Compared(AccountAfter(a, first), second)
    ensures OpenThroughout(a, first, m) && OpenThroughout(AccountAfter(a, first), second, m) ==>
              OpenThroughout(a, first + second, m)
    decreases |second|
  {
    if second == [] {
      assert first + second == first;
    } else {
      var n := |second| - 1;
      assert (first + second)[..|first| + n] == first + second[..n];
      RunAppends(a, first, second[..n], m);
    }
  }

  predicate Stands(a: Account, failed: nat, taken: nat) {
    a.guard == Lockout.Guard(failed, None) && |a.seen| == taken
  }

  lemma {:induction false} ReadAllRuns(a: Account, n: nat, now: Time, m: nat)
    requires a.guard.lockedUntil.None? && |a.seen| + n <= m
    ensures var a' := AccountAfter(a, ReadAll(n, now));
            && a'.guard == a.guard && |a'.seen| == |a.seen| + n && a'.seen[..|a.seen|] == a.seen
            && (forall i | |a.seen| <= i < |a'.seen| :: a'.seen[i] == a.guard)
            && Compared(a, ReadAll(n, now)) == n && OpenThroughout(a, ReadAll(n, now), m)
  {
    if n > 0 {
      ReadAllRuns(a, n - 1, now, m);
      assert ReadAll(n, now)[..|ReadAll(n, now)| - 1] == ReadAll(n - 1, now);
    }
  }

  /** C(1 + j, j) + ... + C(i + j, j). */
  function SumWays(j: nat, i: nat): nat {
    if i == 0 then 0 else SumWays(j, i - 1) + Ways(j, i)
  }

  lemma {:induction false} SumWaysAddUp(j: nat, r: nat)
    ensures SumWays(j, r) + 1 == Ways(j + 1, r)
    decreases r
  {
    if r > 0 { SumWaysAddUp(j, r - 1); }
  }

  lemma LastWrites(a: Account, now: Time, m: nat)
    requires a.seen != [] && |a.seen| <= m && a.guard.lockedUntil.None? && a.seen[|a.seen| - 1].failed < 4
    ensures var steps := [Writes(|a.seen| - 1, now)];
            && AccountAfter(a, steps)
               == Account(Lockout.Guard(a.seen[|a.seen| - 1].failed + 1, None), a.seen[..|a.seen| - 1])
            && Compared(a, steps) == 0 && OpenThroughout(a, steps, m)
  {
    assert [Writes(|a.seen| - 1, now)][..0] == [];
    assert a.seen[..|a.seen| - 1] + a.seen[|a.seen|..] == a.seen[..|a.seen| - 1];
  }

  /** Exhausting `r` free places from count 4 - j leaves the counter at 4 and the places free, after C(r + j, j) - 1. */
  lemma {:induction false} ExhaustRuns(a: Account, j: nat, r: nat, base: nat, now: Time, m: nat)
    requires j <= 4 && r > 0 && base + r <= m && Stands(a, 4 - j, base)
    ensures var steps := Exhaust(j, r, base, now);
            && AccountAfter(a, steps) == a.(guard := Lockout.Guard(4, None))
            && Compared(a, steps) + 1 == Ways(j, r) && OpenThroughout(a, steps, m)
    decreases j, r + 1
  {
    hide AccountAfter, Compared, OpenThroughout, Exhaust, WriteEach, ReadAll, Ways, SumWays;
    ExhaustSplits(j, r, base, now);
    if j > 0 {
      var full := AccountAfter(a, ReadAll(r, now));
      ReadAllRuns(a, r, now, m);
      WriteEachRuns(full, j, r, r, base, now, m);
      RunAppends(a, ReadAll(r, now), WriteEach(j, r, r, base, now), m);
      SumWaysAddUp(j - 1, r);
      assert full.seen[..base] == a.seen;
    } else {
      EmptyRun(a, m);
      NoChoice(r);
    }
  }

  lemma ExhaustSplits(j: nat, r: nat, base: nat, now: Time)
    ensures Exhaust(j, r, base, now) == if j == 0 then [] else ReadAll(r, now) + WriteEach(j, r, r, base, now)
  {
  }

  lemma EmptyRun(a: Account, m: nat)
    requires a.guard.lockedUntil.None? && |a.seen| <= m
    ensures AccountAfter(a, []) == a && Compared(a, []) == 0 && OpenThroughout(a, [], m)
  {
  }

  lemma NoChoice(r: nat)
    ensures Ways(0, r) == 1
  {
  }

  lemma WriteEachSplits(j: nat, i: nat, r: nat, base: nat, now: Time)
    requires 0 < i <= r && 0 < j
    ensures WriteEach(j, i, r, base, now)
         == WriteEach(j, i - 1, r, base, now) + ([Writes(base + r - i, now)] + Exhaust(j - 1, i, base + r - i, now))
    ensures WriteEach(j, 0, r, base, now) == []
    ensures SumWays(j - 1, i) == SumWays(j - 1, i - 1) + Ways(j - 1, i) && SumWays(j - 1, 0) == 0
  {
  }

  lemma {:induction false} WriteEachRuns(a: Account, j: nat, i: nat, r: nat, base: nat, now: Time, m: nat)
    requires 0 < j <= 4 && 0 < i <= r && base + r <= m && Stands(a, 4 - j, base + r)
    requires forall k | base <= k < base + r :: a.seen[k] == Lockout.Guard(4 - j, None)
    ensures var steps := WriteEach(j, i, r, base, now);
            && AccountAfter(a, steps) == Account(Lockout.Guard(4, None), a.seen[..base + r - i])
            && Compared(a, steps) + i == SumWays(j - 1, i) && OpenThroughout(a, steps, m)
    decreases j, i
  {
    hide AccountAfter, Compared, OpenThroughout, Exhaust, WriteEach, Ways, SumWays;
    var (before, write, rest) := (WriteEach(j, i - 1, r, base, now), [Writes(base + r - i, now)],
                                  Exhaust(j - 1, i, base + r - i, now));
    WriteEachSplits(j, i, r, base, now);
    EmptyRun(a, m);
    if i > 1 { WriteEachRuns(a, j, i - 1, r, base, now, m); }
    var b := AccountAfter(a, before);
    assert b.guard.lockedUntil.None? && b.seen == a.seen[..base + r - i + 1];
    assert a.seen[..base + r - i + 1][..base + r - i] == a.seen[..base + r - i];
    LastWrites(b, now, m);
    var c := AccountAfter(b, write);
    assert c == Account(Lockout.Guard(5 - j, None), a.seen[..base + r - i]);
    ExhaustRuns(c, j - 1, i, base + r - i, now, m);
    RunAppends(b, write, rest, m);
    RunAppends(a, before, write + rest, m);
  }

  /** The bound is reached, for every number of logins in flight. */
  lemma MostIsReached(m: nat, now: Time)
    requires m > 0
    ensures var steps := Exhaust(4, m, 0, now) + ReadAll(m, now);
            OpenThroughout(FRESH, steps, m) && Compared(FRESH, steps) == Ways(4, m) + m - 1
  {
    ExhaustRuns(FRESH, 4, m, 0, now, m);
    hide AccountAfter, Compared, OpenThroughout, Ways;
    ReadAllRuns(AccountAfter(FRESH, Exhaust(4, m, 0, now)), m, now, m);
    RunAppends(FRESH, Exhaust(4, m, 0, now), ReadAll(m, now), m);
  }
}

/**
  Password resets among all calls of the authentication service: which link changes a password.
 */
module AuthResets {
  import opened Prelude
  import opened AuthRuns
  import Lockout
  import Sessions

  /** The first `n` calls as the session tables see them. */
  ghost function SessionCalls(init: Db, lifetime: int, calls: seq<Call>, n: nat): seq<Sessions.Call>
    requires n <= |calls|
  {
    if n == 0 then [] else
    var shadow := Shadow(Before(init, lifetime, calls, n - 1), lifetime, calls[n - 1]);
    SessionCalls(init, lifetime, calls, n - 1) + if shadow.Some? then [shadow.value] else []
  }

  lemma {:induction false} BeforePrefix(init: Sessions.Store, prefix: seq<Sessions.Call>, calls: seq<Sessions.Call>,
      n: nat)
    requires prefix <= calls && n <= |prefix|
    ensures Sessions.Before(init, prefix, n) == Sessions.Before(init, calls, n)
  {
    hide Sessions.Exec;
    if n > 0 { BeforePrefix(init, prefix, calls, n - 1); }
  }

  lemma {:induction false} StoreOverRun(init: Db, lifetime: int, calls: seq<Call>, n: nat)
    requires n <= |calls|
    ensures var sessions := SessionCalls(init, lifetime, calls, n);
            Store(Before(init, lifetime, calls, n)) == Sessions.Before(Store(init), sessions, |sessions|)
  {
    hide Exec, Sessions.Exec, Shadow, Store;
    if n > 0 {
      var sessions := SessionCalls(init, lifetime, calls, n - 1);
      StoreOverRun(init, lifetime, calls, n - 1);
      StoreStep(Before(init, lifetime, calls, n - 1), lifetime, calls[n - 1]);
      if Shadow(Before(init, lifetime, calls, n - 1), lifetime, calls[n - 1]).Some? {
        BeforePrefix(Store(init), sessions, SessionCalls(init, lifetime, calls, n), |sessions|);
      } else {
        assert SessionCalls(init, lifetime, calls, n) == sessions;
      }
    }
  }

  /** Every reset link drawn is a new one. */
  predicate LinksDiffer(calls: seq<Call>) {
    forall i, j | 0 <= i < j < |calls| && calls[i].ForgotPassword? && calls[j].ForgotPassword? ::
      calls[i].minted != calls[j].minted
  }

  lemma ShadowIsCall(db: Db, lifetime: int, call: Call)
    ensures var shadow := Shadow(db, lifetime, call);
            && (shadow.Some? ==> shadow.value.at == call.at)
            && (shadow.Some? && shadow.value.ForgotPassword? ==>
                  call.ForgotPassword? && call.minted == shadow.value.minted)
            && (call.ResetPassword? ==> shadow == Some(Sessions.ResetPassword(call.at, call.token)))
  {
    hide Exec, FindByEmail;
  }

  lemma {:induction false} SessionCallsInOrder(init: Db, lifetime: int, calls: seq<Call>, n: nat)
    requires n <= |calls| && Ordered(calls) && LinksDiffer(calls)
    ensures var sessions := SessionCalls(init, lifetime, calls, n);
            && Sessions.InOrder(sessions) && Sessions.LinksDiffer(sessions)
            && (forall c | c in sessions :: n > 0 && c.at <= calls[n - 1].at)
            && (forall c | c in sessions && c.ForgotPassword? ::
                  exists i :: 0 <= i < n && calls[i].ForgotPassword? && calls[i].minted == c.minted)
  {
    hide Shadow, Before;
    if n > 0 {
      SessionCallsInOrder(init, lifetime, calls, n - 1);
      ShadowIsCall(Before(init, lifetime, calls, n - 1), lifetime, calls[n - 1]);
      var (before, sessions) := (SessionCalls(init, lifetime, calls, n - 1), SessionCalls(init, lifetime, calls, n));
      forall c | c in sessions && c.ForgotPassword?
        ensures exists i :: 0 <= i < n && calls[i].ForgotPassword? && calls[i].minted == c.minted
      {
        if c !in before { assert calls[n - 1].ForgotPassword? && calls[n - 1].minted == c.minted; }
      }
      forall i | 0 <= i < |before| ensures before[i] in before {}
    }
  }

  /** Call `n` uses the user's latest link, unused and less than an hour old. */
  ghost predicate UsesLatestLink(init: Db, lifetime: int, calls: seq<Call>, n: nat, user: UserId)
    requires n < |calls| && calls[n].ResetPassword?
  {
    var sessions := SessionCalls(init, lifetime, calls, n);
    exists k: nat ::
      && Sessions.LatestLink(Store(init), sessions, k, |sessions|, user) && sessions[k].ForgotPassword?
      && sessions[k].minted == calls[n].token && calls[n].at < sessions[k].at + Sessions.PASSWORD_RESET_EXPIRY_MS
  }

  /**
    Which reset link changes a password, in any run of all calls with clean-up jobs at any moments: exactly the latest
    one sent to the account, used once, within the hour, while the account is live. It puts the given password in force,
    opens the guard and ends every session of the account.
   */
  lemma ResetLinkInService(init: Db, lifetime: int, calls: seq<Call>, n: nat, user: UserId)
    requires n < |calls| && calls[n].ResetPassword? && Ordered(calls) && LinksDiffer(calls)
    requires forall u | u in init.users :: init.users[u].resetToken.None?
    ensures var (db, db') := (Before(init, lifetime, calls, n),
                              Exec(Before(init, lifetime, calls, n), lifetime, calls[n]).0);
            && (Resets(db, lifetime, calls[n], user)
                <==> user in db.users && !db.users[user].deleted && UsesLatestLink(init, lifetime, calls, n, user))
            && (Resets(db, lifetime, calls[n], user) ==>
                  && user in db'.users && db'.users[user].password == calls[n].password
                  && db'.users[user].guard == Lockout.OPEN_GUARD
                  && forall t | t in db'.tokens && db'.tokens[t].user == user :: db'.tokens[t].revokedAt.Some?)
  {
    var (db, sessions) := (Before(init, lifetime, calls, n), SessionCalls(init, lifetime, calls, n));
    var all := sessions + [Sessions.ResetPassword(calls[n].at, calls[n].token)];
    ResetAnswers(db, lifetime, calls[n], user);
    StoreOverRun(init, lifetime, calls, n);
    BeforePrefix(Store(init), sessions, all, |sessions|);
    OneMoreInOrder(init, lifetime, calls, n);
    StoreHasNoLinks(init);
    Sessions.LinkWorksExactly(Store(init), all, |sessions|, user);
    AccountInStore(db, user);
    hide Exec, Before, Store, Sessions.Exec, Sessions.ResetsUser, Resets, SessionCalls;
    forall k: nat ensures Sessions.LatestLink(Store(init), all, k, |sessions|, user)
                          == Sessions.LatestLink(Store(init), sessions, k, |sessions|, user)
    {
      LatestLinkPrefix(Store(init), sessions, all, k, user);
    }
    hide Sessions.LatestLink;
  }

  lemma OneMoreInOrder(init: Db, lifetime: int, calls: seq<Call>, n: nat)
    requires n < |calls| && calls[n].ResetPassword? && Ordered(calls) && LinksDiffer(calls)
    ensures var all := SessionCalls(init, lifetime, calls, n)
                       + [Sessions.ResetPassword(calls[n].at, calls[n].token)];
            Sessions.InOrder(all) && Sessions.LinksDiffer(all)
  {
    hide Shadow, Before;
    SessionCallsInOrder(init, lifetime, calls, n);
    var sessions := SessionCalls(init, lifetime, calls, n);
    hide SessionCalls;
    forall i | 0 <= i < |sessions| ensures sessions[i].at <= calls[n].at { assert sessions[i] in sessions; }
  }

  lemma StoreHasNoLinks(init: Db)
    requires forall u | u in init.users :: init.users[u].resetToken.None?
    ensures Sessions.NoLinks(Store(init))
  {
  }

  lemma AccountInStore(db: Db, user: UserId)
    ensures user in db.users <==> user in Store(db).accounts
    ensures user in db.users ==> Store(db).accounts[user].deleted == db.users[user].deleted
  {
  }

  lemma LatestLinkPrefix(init: Sessions.Store, prefix: seq<Sessions.Call>, calls: seq<Sessions.Call>, k: nat,
      user: UserId)
    requires prefix <= calls
    ensures Sessions.LatestLink(init, calls, k, |prefix|, user) == Sessions.LatestLink(init, prefix, k, |prefix|, user)
  {
    hide Sessions.Exec, Sessions.Sends, Sessions.ResetsUser;
    forall j: nat | j <= |prefix| ensures Sessions.Before(init, prefix, j) == Sessions.Before(init, calls, j) {
      BeforePrefix(init, prefix, calls, j);
    }
    hide Sessions.Before;
  }

  /** A reset of the service is a reset of the session tables, with the new password and an open guard besides. */
  lemma ResetAnswers(db: Db, lifetime: int, call: Call, user: UserId)
    requires call.ResetPassword?
    ensures var (db', reset) := (Exec(db, lifetime, call).0, Sessions.ResetPassword(call.at, call.token));
            && (Resets(db, lifetime, call, user) <==> Sessions.ResetsUser(Store(db), reset, user))
            && (Resets(db, lifetime, call, user) ==>
                  && user in db'.users && db'.users[user].password == call.password
                  && db'.users[user].guard == Lockout.OPEN_GUARD
                  && forall t | t in db'.tokens && db'.tokens[t].user == user :: db'.tokens[t].revokedAt.Some?)
  {
  }
}

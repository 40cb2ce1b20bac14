/**
  `auth/auth.service.ts` and `auth/auth.cleanup.service.ts` as they run, over one user table and one refresh-token
  table. Each method is proved to be one call of AuthRuns. A call happens at one instant.
 */
module AuthService {
  import opened Prelude
  import opened AuthRuns
  import Lockout
  import PhoneOtp
  import EmailChange
  import Sessions

  class AuthService {
    var users: Users
    var tokens: Tokens
    var pending: multiset<Rehashing>
    const refreshLifetime: int

    constructor (refreshLifetime: int)
      ensures users == map[] && tokens == map[] && pending == multiset{} && this.refreshLifetime == refreshLifetime
    {
      users, tokens, pending, this.refreshLifetime := map[], map[], multiset{}, refreshLifetime;
    }

    ghost predicate UniqueEmails()
      reads this
    {
      EmailChange.DistinctEmails(EmailView(users))
    }

    ghost function State(): Db
      reads this
    {
      Db(users, tokens, pending)
    }

    method FindByEmail(email: string) returns (r: Option<UserId>)
      ensures r.Some? ==> r.value in users && users[r.value].email == email
      ensures r.None? ==> forall u | u in users :: users[u].email != email
    {
      if u :| u in users && users[u].email == email { r := Some(u); } else { r := None; }
    }

    method IssueTokenPair(user: UserId, now: Time, minted: Token) returns (r: Sessions.Reply)
      modifies this`tokens
      ensures (SessionView(users, tokens), r)
              == Sessions.Mint(SessionView(users, old(tokens)), user, minted, now + refreshLifetime)
    {
      if minted in tokens { return Sessions.TokenClash; }
      tokens := tokens[minted := Sessions.RefreshToken(user, now + refreshLifetime, None)];
      return Sessions.Pair(minted);
    }

    method Login(email: string, now: Time, password: nat, minted: Token) returns (r: Reply)
      requires UniqueEmails()
      modifies this
      ensures var (db, reply) := Exec(old(State()), refreshLifetime, Call.Login(now, email, password, minted));
              users == db.users && tokens == db.tokens && pending == db.pending && r == reply
    {
      var found := FindByEmail(email);
      OwnerIsFound(users, email, found);
      hide AuthRuns.FindByEmail, EmailChange.DistinctEmails, SessionView;
      if found.None? { return InvalidCredentials; }
      var u := users[found.value];
      if u.deleted { return InvalidCredentials; }
      var g := u.guard;
      if g.lockedUntil.Some? && g.lockedUntil.value > now {
        assert users == users[found.value := u.(guard := g)];
        return Locked((g.lockedUntil.value - now + 59_999) / 60_000);
      }
      if u.password != password {
        var failed := g.failed + 1;
        var lockedUntil := if failed >= Lockout.MAX_FAILED_LOGINS then Some(now + Lockout.LOCKOUT_MS)
          else g.lockedUntil;
        users := users[found.value := u.(guard := Lockout.Guard(failed, lockedUntil))];
        return InvalidCredentials;
      }
      if u.cost > BCRYPT_ROUNDS {
        pending := pending + multiset{Rehashing(found.value, password)};
      }
      if g.failed > 0 || g.lockedUntil.Some? {
        users := users[found.value := u.(guard := Lockout.Guard(0, None))];
      }
      assert users == old(users)[found.value := u.(guard := Lockout.Login(g, now, true).0)];
      StoreOfTokens(users, tokens, map[]);
      var pair := IssueTokenPair(found.value, now, minted);
      StoreOfTokens(users, tokens, map[]);
      return Welcome(pair);
    }

    /** The end of a re-hash that a login has left running. */
    method LandRehash(user: UserId, password: nat, now: Time)
      requires Rehashing(user, password) in pending && user in users
      modifies this`users, this`pending
      ensures var db := Exec(old(State()), refreshLifetime, Rehash(now, user, password)).0;
              users == db.users && tokens == db.tokens && pending == db.pending
    {
      pending := pending - multiset{Rehashing(user, password)};
      users := users[user := users[user].(password := password, cost := BCRYPT_ROUNDS)];
    }

    method Refresh(token: Token, now: Time, minted: Token) returns (r: Sessions.Reply)
      modifies this`tokens
      ensures var (db, reply) := Exec(old(State()), refreshLifetime, Call.Refresh(now, token, minted));
              users == db.users && tokens == db.tokens && pending == db.pending && SessionReply(r) == reply
    {
      ResetsShow(users, tokens);
      if token !in tokens || tokens[token].revokedAt.Some? || tokens[token].expiresAt < now {
        return Sessions.InvalidRefresh;
      }
      var stored := tokens[token];
      if stored.user !in users || users[stored.user].deleted { return Sessions.AccountGone; }
      tokens := tokens[token := stored.(revokedAt := Some(now))];
      r := IssueTokenPair(stored.user, now, minted);
    }

    method Logout(token: Token, now: Time) returns (r: Sessions.Reply)
      modifies this`tokens
      ensures var (db, reply) := Exec(old(State()), refreshLifetime, Call.Logout(now, token));
              users == db.users && tokens == db.tokens && pending == db.pending && SessionReply(r) == reply
    {
      ResetsShow(users, tokens);
      if token in tokens && tokens[token].revokedAt.None? {
        tokens := tokens[token := tokens[token].(revokedAt := Some(now))];
      }
      assert token in old(tokens) ==> tokens == old(tokens)[token := Sessions.Revoke(old(tokens)[token], now)];
      return Sessions.LoggedOut;
    }

    /** `refreshToken.updateMany`: every session of the user that is not revoked yet. */
    method RevokeSessions(user: UserId, now: Time)
      modifies this`tokens
      ensures tokens == Sessions.RevokeUser(old(tokens), user, now)
    {
      tokens := map t | t in tokens ::
                  if tokens[t].user == user && tokens[t].revokedAt.None? then tokens[t].(revokedAt := Some(now))
                    else tokens[t];
    }

    method SendOtp(user: UserId, now: Time, phone: Option<PhoneOtp.Phone>, code: nat) returns (r: Reply)
      modifies this`users
      ensures var (db, reply) := Exec(old(State()), refreshLifetime, Call.SendOtp(now, user, phone, code));
              users == db.users && tokens == db.tokens && pending == db.pending && r == reply
    {
      if user !in users { return NoSuchUser; }
      var o := users[user].otp;
      assert users == users[user := users[user].(otp := o)];
      if o.verified { return SendReply(PhoneOtp.SendToVerified); }
      if o.sentAt.Some? {
        var elapsed := now - o.sentAt.value;
        if elapsed < PhoneOtp.OTP_COOLDOWN_MS {
          return SendReply(PhoneOtp.PleaseWait((PhoneOtp.OTP_COOLDOWN_MS - elapsed + 999) / 1000));
        }
      }
      if PhoneOtp.Given(phone) {
        o := o.(phone := phone);
        users := users[user := users[user].(otp := o)];
      }
      if !PhoneOtp.Given(o.phone) { return SendReply(PhoneOtp.NoPhone); }
      o := o.(code := Some(code), expiresAt := Some(now + PhoneOtp.OTP_EXPIRY_MS), sentAt := Some(now), attempts := 0);
      users := users[user := users[user].(otp := o)];
      assert users == old(users)[user := old(users)[user].(otp := o)];
      return SendReply(PhoneOtp.Sent);
    }

    method VerifyOtp(user: UserId, now: Time, matches: bool) returns (r: Reply)
      modifies this`users
      ensures var (db, reply) := Exec(old(State()), refreshLifetime, Call.VerifyOtp(now, user, matches));
              users == db.users && tokens == db.tokens && pending == db.pending && r == reply
    {
      if user !in users { return NoSuchUser; }
      var u := users[user];
      assert users == users[user := u.(otp := u.otp)];
      if u.otp.verified { return VerifyReply(PhoneOtp.AlreadyVerified); }
      if u.otp.code.None? { return VerifyReply(PhoneOtp.NoOtp); }
      if u.otp.expiresAt.Some? && u.otp.expiresAt.value < now { return VerifyReply(PhoneOtp.Expired); }
      if u.otp.attempts >= PhoneOtp.MAX_OTP_ATTEMPTS {
        users := users[user := u.(otp := u.otp.(code := None, expiresAt := None, attempts := 0))];
        return VerifyReply(PhoneOtp.TooManyAttempts);
      }
      if !matches {
        users := users[user := u.(otp := u.otp.(attempts := u.otp.attempts + 1))];
        return VerifyReply(PhoneOtp.InvalidOtp);
      }
      users := users[user := u.(otp := u.otp.(verified := true, code := None, expiresAt := None, attempts := 0,
          sentAt := None))];
      return VerifyReply(PhoneOtp.Verified);
    }

    method ForgotPassword(email: string, now: Time, minted: Token) returns (r: Sessions.Reply)
      requires UniqueEmails()
      modifies this`users
      ensures var (db, reply) := Exec(old(State()), refreshLifetime, Call.ForgotPassword(now, email, minted));
              users == db.users && tokens == db.tokens && pending == db.pending && SessionReply(r) == reply
    {
      hide Exec, EmailView, SessionView, WithResets, Sessions.FindFirst, Sessions.ByEmail;
      SessionCallRuns(State(), refreshLifetime, Call.ForgotPassword(now, email, minted));
      var found := FindByEmail(email);
      OwnerIsFound(users, email, found);
      ResetsShow(users, tokens);
      if found.Some? {
        ResetShows(users, tokens, found.value, Some(Sessions.Sha256(minted)),
            Some(now + Sessions.PASSWORD_RESET_EXPIRY_MS));
      }
      if found.Some? && !users[found.value].deleted {
        var u := users[found.value];
        users := users[found.value := u.(resetToken := Some(Sessions.Sha256(minted)),
                                         resetExpiry := Some(now + Sessions.PASSWORD_RESET_EXPIRY_MS))];
      }
      return Sessions.LinkSentIfRegistered;
    }

    /** Tokens are random: no two accounts have the same one. */
    method ResetPassword(token: Token, now: Time, password: nat) returns (r: Sessions.Reply)
      requires forall u, v | u in users && v in users
                             && users[u].resetToken.Some? && users[u].resetToken == users[v].resetToken :: u == v
      modifies this
      ensures var (db, reply) := Exec(old(State()), refreshLifetime, Call.ResetPassword(now, token, password));
              users == db.users && tokens == db.tokens && pending == db.pending && SessionReply(r) == reply
    {
      hide Exec, SessionView, WithResets;
      SessionCallRuns(State(), refreshLifetime, Call.ResetPassword(now, token, password));
      ResetsShow(users, tokens);
      if user :| user in users && users[user].resetToken == Some(Sessions.Sha256(token))
                 && users[user].resetExpiry.Some? && users[user].resetExpiry.value > now && !users[user].deleted
      {
        LinkIsFound(users, tokens, token, now, Some(user));
        ResetShows(users, tokens, user, None, None);
        var u := users[user];
        users := users[user := u.(password := password, cost := BCRYPT_ROUNDS, resetToken := None, resetExpiry := None,
            guard := Lockout.Guard(0, None))];
        RevokeSessions(user, now);
        assert users == WithPassword(old(users)[user := u.(resetToken := None, resetExpiry := None)], user, password);
        return Sessions.PasswordChanged(user);
      } else {
        LinkIsFound(users, tokens, token, now, None);
        return Sessions.InvalidReset;
      }
    }

    method RequestEmailChange(user: UserId, now: Time, otp: nat) returns (r: EmailChange.Reply)
      modifies this`users
      ensures var (db, reply) := Exec(old(State()), refreshLifetime, Call.RequestEmailChange(now, user, otp));
              users == db.users && tokens == db.tokens && pending == db.pending && EmailReply(r) == reply
    {
      hide Exec, EmailView, WithEmails;
      EmailCallRuns(State(), refreshLifetime, Call.RequestEmailChange(now, user, otp));
      ViewRoundTrip(users);
      if user in users { ChangesShow(users, user); }
      if user !in users || users[user].deleted { return EmailChange.Refused(EmailChange.UserNotFound); }
      var u := users[user];
      if u.change.otpSentAt.Some? {
        var elapsed := now - u.change.otpSentAt.value;
        if elapsed < EmailChange.OTP_COOLDOWN_MS {
          return EmailChange.Refused(EmailChange.PleaseWait((EmailChange.OTP_COOLDOWN_MS - elapsed + 999) / 1000));
        }
      }
      users := users[user := u.(change := EmailChange.Change(
          None, None, None, Some(otp), Some(now + EmailChange.OTP_EXPIRY_MS), Some(now), 0))];
      return EmailChange.Done;
    }

    method VerifyCurrentEmailOtp(user: UserId, now: Time, matches: bool, minted: Token) returns (r: EmailChange.Reply)
      modifies this`users
      ensures var (db, reply) :=
              Exec(old(State()), refreshLifetime, Call.VerifyCurrentEmail(now, user, matches, minted));
              users == db.users && tokens == db.tokens && pending == db.pending && EmailReply(r) == reply
    {
      hide Exec, EmailView, WithEmails;
      EmailCallRuns(State(), refreshLifetime, Call.VerifyCurrentEmail(now, user, matches, minted));
      ViewRoundTrip(users);
      if user in users { ChangesShow(users, user); }
      if user !in users || users[user].deleted { return EmailChange.Refused(EmailChange.UserNotFound); }
      var (u, c) := (users[user], users[user].change);
      if c.otp.None? { return EmailChange.Refused(EmailChange.NotRequested); }
      if EmailChange.Past(c.otpExpiry, now) { return EmailChange.Refused(EmailChange.OtpExpired); }
      if c.attempts >= EmailChange.MAX_ATTEMPTS {
        users := users[user := u.(change := c.(otp := None, otpExpiry := None, attempts := 0))];
        return EmailChange.Refused(EmailChange.TooManyAttempts);
      }
      if !matches {
        users := users[user := u.(change := c.(attempts := c.attempts + 1))];
        return EmailChange.Refused(EmailChange.InvalidOtp);
      }
      users := users[user := u.(change := c.(
          token := Some(EmailChange.Sha256(minted)), tokenExpiry := Some(now + EmailChange.TOKEN_EXPIRY_MS),
          otp := None, otpExpiry := None, attempts := 0, otpSentAt := None))];
      return EmailChange.TokenIssued(minted);
    }

    method SetNewEmail(user: UserId, now: Time, token: Token, newEmail: string, otp: nat) returns (r: EmailChange.Reply)
      modifies this`users
      ensures var (db, reply) := Exec(old(State()), refreshLifetime, Call.SetNewEmail(now, user, token, newEmail, otp));
              users == db.users && tokens == db.tokens && pending == db.pending && EmailReply(r) == reply
    {
      hide Exec, EmailView, WithEmails;
      EmailCallRuns(State(), refreshLifetime, Call.SetNewEmail(now, user, token, newEmail, otp));
      ViewRoundTrip(users);
      if user in users { ChangesShow(users, user); }
      if user !in users || users[user].deleted { return EmailChange.Refused(EmailChange.UserNotFound); }
      var (u, c) := (users[user], users[user].change);
      if c.token.None? { return EmailChange.Refused(EmailChange.NoSession); }
      if c.token != Some(EmailChange.Sha256(token)) { return EmailChange.Refused(EmailChange.InvalidToken); }
      if EmailChange.Past(c.tokenExpiry, now) { return EmailChange.Refused(EmailChange.SessionExpired); }
      var lower := EmailChange.Lower(newEmail);
      var conflict := exists v | v in users :: !users[v].deleted && users[v].email == lower;
      assert conflict == EmailChange.InUse(EmailView(users), lower, None) by { ViewKeepsConflicts(users, lower, user); }
      if conflict { return EmailChange.Refused(EmailChange.EmailInUse); }
      users := users[user := u.(change := c.(
          pending := Some(lower), otp := Some(otp), otpExpiry := Some(now + EmailChange.OTP_EXPIRY_MS),
          otpSentAt := Some(now), attempts := 0))];
      return EmailChange.Done;
    }

    method ConfirmNewEmail(user: UserId, now: Time, token: Token, matches: bool) returns (r: EmailChange.Reply)
      modifies this`users, this`tokens
      ensures var (db, reply) := Exec(old(State()), refreshLifetime, Call.ConfirmNewEmail(now, user, token, matches));
              users == db.users && tokens == db.tokens && pending == db.pending && EmailReply(r) == reply
    {
      hide Exec, EmailView, WithEmails, EmailChange.Finish, Sessions.RevokeUser, EmailChange.Lower;
      EmailCallRuns(State(), refreshLifetime, Call.ConfirmNewEmail(now, user, token, matches));
      ViewRoundTrip(users);
      if user !in users || users[user].deleted { return EmailChange.Refused(EmailChange.UserNotFound); }
      var (u, c) := (users[user], users[user].change);
      if c.token.None? || c.pending.None? { return EmailChange.Refused(EmailChange.NothingPending); }
      if c.token != Some(EmailChange.Sha256(token)) { return EmailChange.Refused(EmailChange.InvalidToken); }
      if EmailChange.Past(c.tokenExpiry, now) { return EmailChange.Refused(EmailChange.SessionExpired); }
      if c.otp.None? { return EmailChange.Refused(EmailChange.NoOtp); }
      if EmailChange.Past(c.otpExpiry, now) { return EmailChange.Refused(EmailChange.OtpExpired); }
      if c.attempts >= EmailChange.MAX_ATTEMPTS {
        ChangeShows(users, user, u.email, c.(otp := None, otpExpiry := None, attempts := 0));
        users := users[user := u.(change := c.(otp := None, otpExpiry := None, attempts := 0))];
        return EmailChange.Refused(EmailChange.TooManyAttempts);
      }
      if !matches {
        ChangeShows(users, user, u.email, c.(attempts := c.attempts + 1));
        users := users[user := u.(change := c.(attempts := c.attempts + 1))];
        return EmailChange.Refused(EmailChange.InvalidOtp);
      }
      r := WriteNewEmail(user, now, c.pending.value);
    }

    /** The end of `confirmNewEmail`: the race guard, then address and sessions in one transaction. */
    method WriteNewEmail(user: UserId, now: Time, email: string) returns (r: EmailChange.Reply)
      requires user in users
      modifies this`users, this`tokens
      ensures var (accounts, reply) := EmailChange.Finish(EmailView(old(users)), user, email);
              && r == reply && users == WithEmails(old(users), accounts)
              && tokens == if reply == EmailChange.Changed then Sessions.RevokeUser(old(tokens), user, now)
                else old(tokens)
    {
      var u := users[user];
      FinishShows(users, user, email);
      hide WithEmails, EmailView, EmailChange.Finish;
      var taken := exists v | v in users :: !users[v].deleted && users[v].email == email && v != user;
      var indexed := exists v | v in users :: users[v].email == email && v != user;
      if taken {
        users := users[user := u.(change := EmailChange.Change(None, None, None, None, None, None, 0))];
        return EmailChange.Refused(EmailChange.EmailJustTaken);
      }
      if indexed {
        return EmailChange.Refused(EmailChange.ConstraintViolation);
      }
      users := users[user := u.(email := email, change := EmailChange.Change(None, None, None, None, None, None, 0))];
      RevokeSessions(user, now);
      return EmailChange.Changed;
    }

    method CleanExpiredTokens(now: Time)
      modifies this`tokens
      ensures var db := Exec(old(State()), refreshLifetime, CleanTokens(now)).0;
              users == db.users && tokens == db.tokens && pending == db.pending
    {
      ResetsShow(users, tokens);
      var cutoff := now - Sessions.CLEANUP_GRACE_MS;
      tokens := map t | t in tokens
                        && !(tokens[t].expiresAt < cutoff
                            || (tokens[t].revokedAt.Some? && tokens[t].revokedAt.value < cutoff))
                      :: tokens[t];
    }

    method CleanExpiredPasswordResets(now: Time)
      modifies this`users
      ensures var db := Exec(old(State()), refreshLifetime, CleanResets(now)).0;
              users == db.users && tokens == db.tokens && pending == db.pending
    {
      hide Exec, Sessions.Exec;
      SessionCallRuns(State(), refreshLifetime, CleanResets(now));
      CleanResetsRuns(SessionView(users, tokens), now);
      users := map u | u in users ::
                 if users[u].resetExpiry.Some? && users[u].resetExpiry.value < now && users[u].resetToken.Some?
                 then users[u].(resetToken := None, resetExpiry := None) else users[u];
    }
  }

  lemma CleanResetsRuns(s: Sessions.Store, now: Time)
    ensures Sessions.Exec(s, Sessions.CleanExpiredResets(now)) == (Sessions.CleanResets(s, now), Sessions.Done)
  {
  }

  lemma EmailCallRuns(db: Db, lifetime: int, call: Call)
    requires EmailCall(call).Some? && !call.Register? && !call.SoftDelete?
    ensures Exec(db, lifetime, call) == ExecEmail(db, EmailCall(call).value)
  {
    hide ExecEmail;
  }

  lemma SessionCallRuns(db: Db, lifetime: int, call: Call)
    requires SessionCall(lifetime, call).Some?
    ensures Exec(db, lifetime, call)
            == ExecSession(db, SessionCall(lifetime, call).value, if call.ResetPassword? then call.password else 0)
  {
    hide ExecSession;
  }

  lemma LinkIsFound(users: Users, tokens: Tokens, token: Token, now: Time, found: Option<UserId>)
    requires forall u, v | u in users && v in users
                           && users[u].resetToken.Some? && users[u].resetToken == users[v].resetToken :: u == v
    requires found.Some? ==>
               found.value in users && Sessions.Resettable(Slot(users[found.value]), Sessions.Sha256(token), now)
    requires found.None? ==> forall u | u in users :: !Sessions.Resettable(Slot(users[u]), Sessions.Sha256(token), now)
    ensures Sessions.FindFirst(Sessions.ByResetToken(SessionView(users, tokens).accounts, Sessions.Sha256(token), now))
            == found
  {
    var matches := Sessions.ByResetToken(SessionView(users, tokens).accounts, Sessions.Sha256(token), now);
    if found.Some? { assert found.value in matches; } else { assert matches == {}; }
  }

  lemma ViewKeepsConflicts(users: Users, email: string, user: UserId)
    ensures EmailChange.InUse(EmailView(users), email, None)
            <==> exists v | v in users :: !users[v].deleted && users[v].email == email
    ensures EmailChange.InUse(EmailView(users), email, Some(user))
            <==> exists v | v in users :: !users[v].deleted && users[v].email == email && v != user
    ensures EmailChange.Indexed(EmailView(users), email, user)
            <==> exists v | v in users :: users[v].email == email && v != user
  {
    forall v | v in users ensures v in EmailView(users) && EmailView(users)[v].email == users[v].email
                                  && EmailView(users)[v].deleted == users[v].deleted {}
  }

  /** The end of a confirmation, seen through the view and back. */
  lemma FinishShows(users: Users, user: UserId, email: string)
    requires user in users
    ensures var (accounts, reply) := EmailChange.Finish(EmailView(users), user, email);
            if exists v | v in users :: !users[v].deleted && users[v].email == email && v != user then
              WithEmails(users, accounts) == users[user := users[user].(change := EmailChange.NO_CHANGE)]
              && reply == EmailChange.Refused(EmailChange.EmailJustTaken)
            else if exists v | v in users :: users[v].email == email && v != user then
              WithEmails(users, accounts) == users && reply == EmailChange.Refused(EmailChange.ConstraintViolation)
            else
              WithEmails(users, accounts)
              == users[user := users[user].(email := email, change := EmailChange.NO_CHANGE)]
              && reply == EmailChange.Changed
  {
    ViewRoundTrip(users);
    ViewKeepsConflicts(users, email, user);
    ChangeShows(users, user, users[user].email, EmailChange.NO_CHANGE);
    ChangeShows(users, user, email, EmailChange.NO_CHANGE);
    hide WithEmails, EmailView, EmailChange.InUse, EmailChange.Indexed;
  }

  lemma ResetsShow(users: Users, tokens: Tokens)
    ensures WithResets(users, SessionView(users, tokens).accounts) == users
            && SessionView(users, tokens).tokens == tokens
    ensures SessionView(users, tokens).accounts.Keys == users.Keys
    ensures forall u | u in users ::
      SessionView(users, tokens).accounts[u]
      == Sessions.Account(users[u].email, users[u].deleted, users[u].resetToken, users[u].resetExpiry)
  {
  }

  /** One account's new reset columns, seen through the view and back. */
  lemma ResetShows(
    users: Users, tokens: Tokens, user: UserId, token: Option<Sessions.Digest>, expiry: Option<Time>)
    requires user in users
    ensures WithResets(users, SessionView(users, tokens).accounts[
              user := Sessions.Account(users[user].email, users[user].deleted, token, expiry)])
         == users[user := users[user].(resetToken := token, resetExpiry := expiry)]
  {
  }
}

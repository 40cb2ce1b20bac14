/**
  All calls of `auth/auth.service.ts` over one user table and one refresh-token table, and runs in which they interleave
  with each other, with registrations and deletions, and with the jobs of `auth/auth.cleanup.service.ts`.
 */
module AuthRuns {
  import opened Prelude
  import Lockout
  import PhoneOtp
  import EmailChange
  import Sessions

  type UserId = nat
  type Token = nat
  type Tokens = map<Token, Sessions.RefreshToken>

  const BCRYPT_ROUNDS: nat := 10

  /**
    `password` and `cost` stand for the stored hash: a comparison succeeds exactly for the password it was made from,
    and the cost is part of it.
   */
  datatype User = User(
    email: string, deleted: bool, password: nat, cost: nat, guard: Lockout.Guard, otp: PhoneOtp.Otp,
    resetToken: Option<Sessions.Digest>, resetExpiry: Option<Time>, change: EmailChange.Change)

  type Users = map<UserId, User>

  /** A login with this password found a costly hash and has a cheaper one being computed, to be written later. */
  datatype Rehashing = Rehashing(user: UserId, password: nat)

  datatype Db = Db(users: Users, tokens: Tokens, pending: multiset<Rehashing>)

  // ----- The columns each part works on -----

  function EmailView(users: Users): EmailChange.Accounts {
    map u | u in users :: EmailChange.Account(users[u].email, users[u].deleted, users[u].change)
  }

  /** The user table with addresses and change columns taken from `accounts`. */
  function WithEmails(users: Users, accounts: EmailChange.Accounts): Users {
    map u | u in users ::
      if u in accounts then users[u].(email := accounts[u].email, change := accounts[u].change) else users[u]
  }

  function Slot(u: User): Sessions.Account {
    Sessions.Account(u.email, u.deleted, u.resetToken, u.resetExpiry)
  }

  function SessionView(users: Users, tokens: Tokens): Sessions.Store {
    Sessions.Store(map u | u in users :: Slot(users[u]), tokens)
  }

  /** The user table with reset columns taken from `accounts`. */
  function WithResets(users: Users, accounts: map<UserId, Sessions.Account>): Users {
    map u | u in users ::
      if u in accounts then users[u].(resetToken := accounts[u].resetToken, resetExpiry := accounts[u].resetExpiry)
      else users[u]
  }

  /** What completing a password reset does besides the reset columns: a new password and an open guard. */
  function WithPassword(users: Users, user: UserId, password: nat): Users
    requires user in users
  {
    users[user := users[user].(password := password, cost := BCRYPT_ROUNDS, guard := Lockout.OPEN_GUARD)]
  }

  function Newcomer(email: string, password: nat, cost: nat): User {
    User(email, false, password, cost, Lockout.OPEN_GUARD, PhoneOtp.Otp(false, None, None, None, None, 0), None, None,
        EmailChange.NO_CHANGE)
  }

  // ----- Calls -----

  datatype Call =
    | Register(at: Time, user: UserId, email: string, password: nat, cost: nat)
    | Rehash(at: Time, user: UserId, password: nat)
    | SoftDelete(at: Time, user: UserId)
    | Login(at: Time, email: string, password: nat, minted: Token)
    | Refresh(at: Time, token: Token, minted: Token)
    | Logout(at: Time, token: Token)
    | SendOtp(at: Time, user: UserId, phone: Option<PhoneOtp.Phone>, code: nat)
    | VerifyOtp(at: Time, user: UserId, matches: bool)
    | ForgotPassword(at: Time, email: string, minted: Token)
    | ResetPassword(at: Time, token: Token, password: nat)
    | RequestEmailChange(at: Time, user: UserId, otp: nat)
    | VerifyCurrentEmail(at: Time, user: UserId, matches: bool, minted: Token)
    | SetNewEmail(at: Time, user: UserId, token: Token, email: string, otp: nat)
    | ConfirmNewEmail(at: Time, user: UserId, token: Token, matches: bool)
    | CleanTokens(at: Time)
    | CleanResets(at: Time)

  datatype Reply =
    | InvalidCredentials | Locked(waitMinutes: int) | Welcome(pair: Sessions.Reply)
    | SessionReply(session: Sessions.Reply) | EmailReply(email: EmailChange.Reply)
    | NoSuchUser | SendReply(send: PhoneOtp.SendReply) | VerifyReply(verify: PhoneOtp.VerifyReply)
    | EmailTaken | Done

  /** `findUnique` by address: the index on addresses leaves at most one row. */
  ghost function FindByEmail(users: Users, email: string): Option<UserId> {
    Sessions.FindFirst(Sessions.ByEmail(SessionView(users, map[]).accounts, email))
  }

  ghost function LoginCall(db: Db, lifetime: int, now: Time, email: string, password: nat, minted: Token): (Db, Reply) {
    var who := FindByEmail(db.users, email);
    if who.None? || who.value !in db.users || db.users[who.value].deleted then (db, InvalidCredentials) else
    var u := db.users[who.value];
    var (guard, reply) := Lockout.Login(u.guard, now, u.password == password);
    var users := db.users[who.value := u.(guard := guard)];
    match reply
    case LockedOut(wait) => (db.(users := users), Locked(wait))
    case WrongPassword => (db.(users := users), InvalidCredentials)
    case LoggedIn =>
      var (store, pair) := Sessions.Mint(SessionView(users, db.tokens), who.value, minted, now + lifetime);
      (Db(users, store.tokens, db.pending + Started(who.value, u)), Welcome(pair))
  }

  /** The re-hash that a successful login on a costly hash leaves behind. */
  function Started(user: UserId, u: User): multiset<Rehashing> {
    if u.cost > BCRYPT_ROUNDS then multiset{Rehashing(user, u.password)} else multiset{}
  }

  /** A finished re-hash is written, whatever has been written since it was started. */
  function RehashCall(db: Db, user: UserId, password: nat): Db {
    if Rehashing(user, password) !in db.pending || user !in db.users then db
    else Db(db.users[user := db.users[user].(password := password, cost := BCRYPT_ROUNDS)], db.tokens,
            db.pending - multiset{Rehashing(user, password)})
  }

  function OtpCall(db: Db, call: Call): (Db, Reply)
    requires call.SendOtp? || call.VerifyOtp?
  {
    if call.user !in db.users then (db, NoSuchUser) else
    var u := db.users[call.user];
    if call.SendOtp? then
      var (otp, reply) := PhoneOtp.SendOtp(u.otp, call.at, call.phone, call.code);
      (db.(users := db.users[call.user := u.(otp := otp)]), SendReply(reply))
    else
      var (otp, reply) := PhoneOtp.VerifyOtp(u.otp, call.at, call.matches);
      (db.(users := db.users[call.user := u.(otp := otp)]), VerifyReply(reply))
  }

  /** The call as the session tables see it, if it is one that works on nothing else. */
  function SessionCall(lifetime: int, call: Call): Option<Sessions.Call> {
    match call
    case Refresh(at, token, minted) => Some(Sessions.Refresh(at, token, minted, lifetime))
    case Logout(at, token) => Some(Sessions.Logout(at, token))
    case ForgotPassword(at, email, minted) => Some(Sessions.ForgotPassword(at, email, minted))
    case ResetPassword(at, token, _) => Some(Sessions.ResetPassword(at, token))
    case CleanTokens(at) => Some(Sessions.CleanExpiredTokens(at))
    case CleanResets(at) => Some(Sessions.CleanExpiredResets(at))
    case _ => None
  }

  /** The call as the address columns see it, if it touches them. */
  function EmailCall(call: Call): Option<EmailChange.Call> {
    match call
    case Register(at, user, email, _, _) => Some(EmailChange.RegisterCall(user, at, email))
    case SoftDelete(at, user) => Some(EmailChange.DeleteCall(user, at))
    case RequestEmailChange(at, user, otp) => Some(EmailChange.RequestCall(user, at, otp))
    case VerifyCurrentEmail(at, user, matches, minted) => Some(EmailChange.VerifyCall(user, at, matches, minted))
    case SetNewEmail(at, user, token, email, otp) => Some(EmailChange.SetNewCall(user, at, token, email, otp))
    case ConfirmNewEmail(at, user, token, matches) => Some(EmailChange.ConfirmCall(user, at, token, matches))
    case _ => None
  }

  ghost function ExecSession(db: Db, call: Sessions.Call, password: nat): (Db, Reply) {
    var (store, reply) := Sessions.Exec(SessionView(db.users, db.tokens), call);
    var users := WithResets(db.users, store.accounts);
    (Db(if reply.PasswordChanged? && reply.user in users then WithPassword(users, reply.user, password) else users,
        store.tokens, db.pending),
     SessionReply(reply))
  }

  /** A step of the address change; a confirmation that went through revokes the user's sessions with it. */
  function ExecEmail(db: Db, call: EmailChange.Call): (Db, Reply) {
    var (accounts, reply) := EmailChange.Exec(EmailView(db.users), call);
    (Db(WithEmails(db.users, accounts),
        if reply == EmailChange.Changed then Sessions.RevokeUser(db.tokens, call.user, call.at) else db.tokens,
        db.pending),
     EmailReply(reply))
  }

  ghost function Exec(db: Db, lifetime: int, call: Call): (Db, Reply) {
    if call.Register? then
      if call.user in db.users || exists u | u in db.users :: db.users[u].email == call.email then (db, EmailTaken)
      else (db.(users := db.users[call.user := Newcomer(call.email, call.password, call.cost)]), Done)
    else if call.SoftDelete? then
      if call.user !in db.users then (db, NoSuchUser)
      else (db.(users := db.users[call.user := db.users[call.user].(deleted := true)]), Done)
    else if call.Rehash? then (RehashCall(db, call.user, call.password), Done)
    else if call.Login? then LoginCall(db, lifetime, call.at, call.email, call.password, call.minted)
    else if call.SendOtp? || call.VerifyOtp? then OtpCall(db, call)
    else
      var session := SessionCall(lifetime, call);
      if session.Some? then ExecSession(db, session.value, if call.ResetPassword? then call.password else 0)
      else ExecEmail(db, EmailCall(call).value)
  }

  /** The tables just before call number `n`. */
  ghost function Before(init: Db, lifetime: int, calls: seq<Call>, n: nat): Db
    requires n <= |calls|
  {
    if n == 0 then init else Exec(Before(init, lifetime, calls, n - 1), lifetime, calls[n - 1]).0
  }

  ghost function ReplyTo(init: Db, lifetime: int, calls: seq<Call>, n: nat): Reply
    requires n < |calls|
  {
    Exec(Before(init, lifetime, calls, n), lifetime, calls[n]).1
  }

  // ----- What one call does to one account -----

  /** The call's password comparison, or completed reset, on this account. */
  ghost function GuardEvent(db: Db, lifetime: int, call: Call, user: UserId): Option<Lockout.Event> {
    if call.Login? && user in db.users && !db.users[user].deleted
        && FindByEmail(db.users, call.email) == Some(user) then
      Some(Lockout.Attempt(call.at, db.users[user].password == call.password))
    else if Resets(db, lifetime, call, user) then Some(Lockout.Reset(call.at))
    else None
  }

  function GuardAfterEvent(g: Lockout.Guard, e: Option<Lockout.Event>): Lockout.Guard {
    match e
    case None => g
    case Some(Attempt(at, matches)) => Lockout.Login(g, at, matches).0
    case Some(Reset(_)) => Lockout.OPEN_GUARD
  }

  function PhoneCall(call: Call, user: UserId): Option<PhoneOtp.Call> {
    if call.SendOtp? && call.user == user then Some(PhoneOtp.Send(call.at, call.phone, call.code))
    else if call.VerifyOtp? && call.user == user then Some(PhoneOtp.Verify(call.at, call.matches))
    else None
  }

  /** The call writes this account's password: a completed reset, or a re-hash that lands. */
  ghost function Writes(db: Db, lifetime: int, call: Call, user: UserId): Option<nat> {
    if Resets(db, lifetime, call, user) || Lands(db, call, user) then Some(call.password) else None
  }

  ghost predicate Resets(db: Db, lifetime: int, call: Call, user: UserId) {
    call.ResetPassword? && Exec(db, lifetime, call).1 == SessionReply(Sessions.PasswordChanged(user))
  }

  predicate Lands(db: Db, call: Call, user: UserId) {
    call.Rehash? && call.user == user && user in db.users && Rehashing(user, call.password) in db.pending
  }

  /** Guard, password and phone columns move by their own calls alone. */
  predicate Moves(u: User, u': User, guard: Option<Lockout.Event>, written: Option<nat>, phone: Option<PhoneOtp.Call>) {
    && u'.guard == GuardAfterEvent(u.guard, guard)
    && u'.password == (if written.Some? then written.value else u.password)
    && u'.cost == (if written.Some? then BCRYPT_ROUNDS else u.cost)
    && u'.otp == if phone.Some? then PhoneOtp.Exec(u.otp, phone.value) else u.otp
  }

  lemma SessionStep(db: Db, call: Sessions.Call, password: nat, user: UserId)
    requires user in db.users
    ensures var (db', reply) := ExecSession(db, call, password);
            && user in db'.users && db'.users[user].otp == db.users[user].otp
            && db'.pending == db.pending
            && (reply == SessionReply(Sessions.PasswordChanged(user)) ==>
                  && db'.users[user].guard == Lockout.OPEN_GUARD
                  && db'.users[user].password == password && db'.users[user].cost == BCRYPT_ROUNDS)
            && (reply != SessionReply(Sessions.PasswordChanged(user)) ==>
                  && db'.users[user].guard == db.users[user].guard
                  && db'.users[user].password == db.users[user].password && db'.users[user].cost == db.users[user].cost)
  {
    hide SessionView, Sessions.Exec;
  }

  lemma OnlyResetsAnswerSo(s: Sessions.Store, call: Sessions.Call)
    ensures Sessions.Exec(s, call).1.PasswordChanged? ==> call.ResetPassword?
  {
  }

  lemma EmailStepKeeps(db: Db, call: EmailChange.Call, user: UserId)
    requires user in db.users
    ensures var db' := ExecEmail(db, call).0;
            && user in db'.users && db'.users[user].otp == db.users[user].otp
            && db'.users[user].guard == db.users[user].guard
            && db'.users[user].password == db.users[user].password && db'.users[user].cost == db.users[user].cost
  {
    hide EmailView, EmailChange.Exec, Sessions.RevokeUser;
  }

  lemma LoginStep(db: Db, lifetime: int, call: Call, user: UserId)
    requires user in db.users && call.Login?
    ensures var db' := LoginCall(db, lifetime, call.at, call.email, call.password, call.minted).0;
            && user in db'.users
            && Moves(db.users[user], db'.users[user], GuardEvent(db, lifetime, call, user), None, None)
  {
    hide FindByEmail, Sessions.Mint, SessionView;
  }

  lemma SessionCallMoves(db: Db, lifetime: int, call: Call, user: UserId)
    requires user in db.users && SessionCall(lifetime, call).Some?
    ensures var db' := Exec(db, lifetime, call).0;
            user in db'.users
            && Moves(db.users[user], db'.users[user], GuardEvent(db, lifetime, call, user),
                     Writes(db, lifetime, call, user), PhoneCall(call, user))
  {
    hide ExecSession, ExecEmail, LoginCall, FindByEmail, Sessions.Exec, SessionView;
    SessionStep(db, SessionCall(lifetime, call).value, if call.ResetPassword? then call.password else 0, user);
    SessionReplies(db, SessionCall(lifetime, call).value, if call.ResetPassword? then call.password else 0);
  }

  lemma EmailCallMoves(db: Db, lifetime: int, call: Call, user: UserId)
    requires user in db.users && EmailCall(call).Some? && !call.Register? && !call.SoftDelete?
    ensures var db' := Exec(db, lifetime, call).0;
            user in db'.users
            && Moves(db.users[user], db'.users[user], GuardEvent(db, lifetime, call, user),
                     Writes(db, lifetime, call, user), PhoneCall(call, user))
  {
    hide ExecSession, ExecEmail, LoginCall, FindByEmail, Sessions.Exec, SessionView;
    EmailStepKeeps(db, EmailCall(call).value, user);
  }

  lemma LoginCallMoves(db: Db, lifetime: int, call: Call, user: UserId)
    requires user in db.users && call.Login?
    ensures var db' := Exec(db, lifetime, call).0;
            user in db'.users
            && Moves(db.users[user], db'.users[user], GuardEvent(db, lifetime, call, user),
                     Writes(db, lifetime, call, user), PhoneCall(call, user))
  {
    hide ExecSession, ExecEmail, LoginCall, FindByEmail, Sessions.Exec, SessionView;
    LoginStep(db, lifetime, call, user);
  }

  lemma OwnRowMoves(db: Db, lifetime: int, call: Call, user: UserId)
    requires user in db.users
    requires call.Register? || call.SoftDelete? || call.Rehash? || call.SendOtp? || call.VerifyOtp?
    ensures var db' := Exec(db, lifetime, call).0;
            user in db'.users
            && Moves(db.users[user], db'.users[user], GuardEvent(db, lifetime, call, user),
                     Writes(db, lifetime, call, user), PhoneCall(call, user))
  {
    hide ExecSession, ExecEmail, LoginCall, FindByEmail, PhoneOtp.SendOtp, PhoneOtp.VerifyOtp;
  }

  lemma AccountStep(db: Db, lifetime: int, call: Call, user: UserId)
    requires user in db.users
    ensures var db' := Exec(db, lifetime, call).0;
            user in db'.users
            && Moves(db.users[user], db'.users[user], GuardEvent(db, lifetime, call, user),
                     Writes(db, lifetime, call, user), PhoneCall(call, user))
  {
    hide Exec, Moves, GuardEvent, Writes, PhoneCall;
    if call.Login? {
      LoginCallMoves(db, lifetime, call, user);
    } else if call.Register? || call.SoftDelete? || call.Rehash? || call.SendOtp? || call.VerifyOtp? {
      OwnRowMoves(db, lifetime, call, user);
    } else if SessionCall(lifetime, call).Some? {
      SessionCallMoves(db, lifetime, call, user);
    } else if EmailCall(call).Some? && !call.Register? && !call.SoftDelete? {
      EmailCallMoves(db, lifetime, call, user);
    }
  }

  lemma SessionReplies(db: Db, call: Sessions.Call, password: nat)
    ensures var reply := ExecSession(db, call, password).1;
            reply.SessionReply? && (reply.session.PasswordChanged? ==> call.ResetPassword?)
  {
    OnlyResetsAnswerSo(SessionView(db.users, db.tokens), call);
    hide SessionView, Sessions.Exec;
  }

  // ----- Each part of the service, in runs of all of it -----

  /** What concerns an account's guard in the first `n` calls. */
  ghost function GuardEvents(init: Db, lifetime: int, calls: seq<Call>, n: nat, user: UserId): seq<Lockout.Event>
    requires n <= |calls|
  {
    if n == 0 then [] else
    var e := GuardEvent(Before(init, lifetime, calls, n - 1), lifetime, calls[n - 1], user);
    GuardEvents(init, lifetime, calls, n - 1, user) + if e.Some? then [e.value] else []
  }

  predicate Ordered(calls: seq<Call>) {
    forall i, j | 0 <= i < j < |calls| :: calls[i].at <= calls[j].at
  }

  ghost predicate StartsOpen(init: Db, user: UserId) {
    user in init.users ==> init.users[user].guard == Lockout.OPEN_GUARD
  }

  /** A call that makes the account leaves its guard open; no call removes an account's row. */
  lemma NewAccountStep(db: Db, lifetime: int, call: Call, user: UserId)
    requires user !in db.users
    ensures GuardEvent(db, lifetime, call, user).None?
    ensures user in Exec(db, lifetime, call).0.users ==>
              call.Register? && call.user == user
                  && Exec(db, lifetime, call).0.users[user] == Newcomer(call.email, call.password, call.cost)
  {
  }

  lemma GuardSnoc(events: seq<Lockout.Event>, e: Lockout.Event)
    ensures Lockout.GuardAfter(events + [e]) == GuardAfterEvent(Lockout.GuardAfter(events), Some(e))
  {
    assert (events + [e])[..|events|] == events;
  }

  lemma {:induction false} GuardOverRun(init: Db, lifetime: int, calls: seq<Call>, n: nat, user: UserId)
    requires n <= |calls| && StartsOpen(init, user) && Ordered(calls)
    ensures GuardIsHistory(Before(init, lifetime, calls, n), GuardEvents(init, lifetime, calls, n, user), user)
    ensures var events := GuardEvents(init, lifetime, calls, n, user);
            Lockout.Ordered(events) && (events != [] ==> n > 0 && events[|events| - 1].at <= calls[n - 1].at)
  {
    hide Exec, GuardEvent, Lockout.GuardAfter, GuardIsHistory;
    if n == 0 {
      StartIsHistory(init, user);
    } else {
      var (db, call) := (Before(init, lifetime, calls, n - 1), calls[n - 1]);
      assert Before(init, lifetime, calls, n) == Exec(db, lifetime, call).0;
      GuardOverRun(init, lifetime, calls, n - 1, user);
      HistoryStep(db, lifetime, call, GuardEvents(init, lifetime, calls, n - 1, user), user);
      EventIsCall(db, lifetime, call, user);
    }
  }

  /** An account's guard is what its own history of comparisons and resets makes it. */
  predicate GuardIsHistory(db: Db, events: seq<Lockout.Event>, user: UserId) {
    if user in db.users then db.users[user].guard == Lockout.GuardAfter(events) else events == []
  }

  lemma StartIsHistory(init: Db, user: UserId)
    requires StartsOpen(init, user)
    ensures GuardIsHistory(init, [], user)
  {
  }

  lemma HistoryStep(db: Db, lifetime: int, call: Call, events: seq<Lockout.Event>, user: UserId)
    requires GuardIsHistory(db, events, user)
    ensures var e := GuardEvent(db, lifetime, call, user);
            GuardIsHistory(Exec(db, lifetime, call).0, events + if e.Some? then [e.value] else [], user)
  {
    hide Exec, GuardEvent, Lockout.Login;
    var e := GuardEvent(db, lifetime, call, user);
    if user in db.users {
      AccountStep(db, lifetime, call, user);
      if e.Some? { GuardSnoc(events, e.value); }
    } else {
      NewAccountStep(db, lifetime, call, user);
      assert Lockout.GuardAfter([]) == Lockout.OPEN_GUARD;
    }
    assert events + [] == events;
    hide Lockout.GuardAfter;
  }

  lemma EventIsCall(db: Db, lifetime: int, call: Call, user: UserId)
    ensures var e := GuardEvent(db, lifetime, call, user); e.Some? ==> e.value.at == call.at
  {
    hide Exec, FindByEmail;
  }

  /**
    Lockout in the whole service. Whatever other calls interleave (refreshes, codes, address changes, resets of other
    accounts, clean-up), the k-th wrong password compared for an account since its last success or reset, k > 5, comes
    no sooner than (k - 5) lockouts after the fifth; and a login that finds the account is turned away uncompared
    exactly within a lockout of the latest of five or more failures, and told the minutes after which, and not a minute
    sooner, the account is open.
   */
  lemma LockoutInService(init: Db, lifetime: int, calls: seq<Call>, n: nat, user: UserId, k: nat)
    requires n < |calls| && StartsOpen(init, user) && Ordered(calls)
    ensures var wrong := Lockout.WrongSince(GuardEvents(init, lifetime, calls, n, user));
            Lockout.MAX_FAILED_LOGINS < k <= |wrong| ==>
              wrong[k - 1] >= wrong[Lockout.MAX_FAILED_LOGINS - 1]
              + (k - Lockout.MAX_FAILED_LOGINS) * Lockout.LOCKOUT_MS
    ensures var (db, call, reply) := (Before(init, lifetime, calls, n), calls[n], ReplyTo(init, lifetime, calls, n));
            var wrong := Lockout.WrongSince(GuardEvents(init, lifetime, calls, n, user));
            call.Login? && GuardEvent(db, lifetime, call, user).Some? ==>
              && user in db.users
              && (reply.Locked? <==> Lockout.Closed(wrong, call.at))
              && (reply.Locked? ==>
                    && Lockout.Locked(db.users[user].guard, call.at + (reply.waitMinutes - 1) * 60_000)
                    && !Lockout.Locked(db.users[user].guard, call.at + reply.waitMinutes * 60_000))
  {
    hide Before, GuardEvents, GuardEvent, Lockout.GuardAfter, Lockout.WrongSince, Exec, Lockout.Login, Ordered,
        StartsOpen, Lockout.Closed;
    var (db, call) := (Before(init, lifetime, calls, n), calls[n]);
    GuardOverRun(init, lifetime, calls, n, user);
    Lockout.LockoutBound(GuardEvents(init, lifetime, calls, n, user), k, call.at);
    if call.Login? && GuardEvent(db, lifetime, call, user).Some? {
      LoginAnswers(db, lifetime, call, user);
      if ReplyTo(init, lifetime, calls, n).Locked? {
        WaitIsExact(db.users[user].guard, call.at, db.users[user].password == call.password);
      }
    }
  }

  lemma WaitIsExact(g: Lockout.Guard, now: Time, matches: bool)
    ensures var reply := Lockout.Login(g, now, matches).1;
            reply.LockedOut? ==>
              && Lockout.Locked(g, now + (reply.waitMinutes - 1) * 60_000)
              && !Lockout.Locked(g, now + reply.waitMinutes * 60_000)
  {
    if Lockout.Locked(g, now) { Lockout.WaitCoversLock(g, now, matches); }
  }

  lemma LoginAnswers(db: Db, lifetime: int, call: Call, user: UserId)
    requires call.Login? && GuardEvent(db, lifetime, call, user).Some?
    ensures user in db.users && user in Exec(db, lifetime, call).0.users
    ensures var (reply, matches) := (Exec(db, lifetime, call).1, db.users[user].password == call.password);
            var (g, answer) := Lockout.Login(db.users[user].guard, call.at, matches);
            && (reply.Locked? <==> answer.LockedOut?)
            && (reply.Locked? ==> answer == Lockout.LockedOut(reply.waitMinutes))
            && (reply.Welcome? <==> answer.LoggedIn?) && (reply == InvalidCredentials <==> answer.WrongPassword?)
            && (reply.Welcome? ==> matches && !Lockout.Locked(db.users[user].guard, call.at))
            && Exec(db, lifetime, call).0.users[user].guard == g
  {
    hide FindByEmail, Sessions.Mint, SessionView;
  }

  lemma OneOwner(users: Users, email: string, owner: UserId)
    requires owner in users && users[owner].email == email
    ensures EmailChange.DistinctEmails(EmailView(users)) ==>
            forall u | u in users && users[u].email == email :: u == owner
  {
    assert EmailView(users)[owner].email == email;
    forall u | u in users && users[u].email == email && EmailChange.DistinctEmails(EmailView(users))
      ensures u == owner
    {
      assert EmailView(users)[u].email == email;
    }
  }

  lemma OwnerIsFound(users: Users, email: string, found: Option<UserId>)
    requires EmailChange.DistinctEmails(EmailView(users))
    requires found.Some? ==> found.value in users && users[found.value].email == email
    requires found.None? ==> forall u | u in users :: users[u].email != email
    ensures FindByEmail(users, email) == found
    ensures forall tokens: Tokens ::
            Sessions.FindFirst(Sessions.ByEmail(SessionView(users, tokens).accounts, email)) == found
  {
    var matches := Sessions.ByEmail(SessionView(users, map[]).accounts, email);
    forall tokens: Tokens ensures Sessions.ByEmail(SessionView(users, tokens).accounts, email) == matches {}
    if found.Some? {
      OneOwner(users, email, found.value);
      assert found.value in matches;
    } else {
      assert matches == {};
    }
  }

  /** The call is a login to this live account. */
  predicate LoginTo(db: Db, call: Call, user: UserId) {
    call.Login? && user in db.users && !db.users[user].deleted && db.users[user].email == call.email
  }

  /**
    What decides a login to a live account, in any run of all calls. Closed, by five or more failures of which the
    latest is less than a lockout old, the account turns every password down. Otherwise the password in force is always
    welcome and opens the guard, however many have failed before; and any other one is refused.
   */
  lemma RightPasswordIsWelcome(init: Db, lifetime: int, calls: seq<Call>, n: nat, user: UserId)
    requires n < |calls| && StartsOpen(init, user) && Ordered(calls)
             && EmailChange.DistinctEmails(EmailView(init.users))
    requires LoginTo(Before(init, lifetime, calls, n), calls[n], user)
    ensures var (db, call, reply) := (Before(init, lifetime, calls, n), calls[n], ReplyTo(init, lifetime, calls, n));
            var db' := Exec(db, lifetime, call).0;
            var closed := Lockout.Closed(Lockout.WrongSince(GuardEvents(init, lifetime, calls, n, user)), call.at);
            && (reply.Locked? <==> closed)
            && (reply.Welcome? <==> !closed && call.password == db.users[user].password)
            && (reply.Welcome? ==> user in db'.users && db'.users[user].guard == Lockout.OPEN_GUARD)
            && (reply == InvalidCredentials <==> !closed && call.password != db.users[user].password)
  {
    hide Before, GuardEvents, Lockout.GuardAfter, Lockout.WrongSince, Exec, Lockout.Login, Ordered, StartsOpen,
        EmailView, EmailChange.DistinctEmails, FindByEmail, Lockout.Closed;
    var (db, call) := (Before(init, lifetime, calls, n), calls[n]);
    GuardOverRun(init, lifetime, calls, n, user);
    AddressesStayUnique(init, lifetime, calls, n);
    OwnerIsFound(db.users, call.email, Some(user));
    Lockout.LoginDecides(GuardEvents(init, lifetime, calls, n, user), call.at, call.password
        == db.users[user].password);
    LoginAnswers(db, lifetime, call, user);
  }

  // ----- Phone codes in the whole service -----

  function PhoneCalls(calls: seq<Call>, n: nat, user: UserId): seq<PhoneOtp.Call>
    requires n <= |calls|
  {
    if n == 0 then [] else
    PhoneCalls(calls, n - 1, user) + if PhoneCall(calls[n - 1], user).Some? then [PhoneCall(calls[n - 1], user).value]
      else []
  }

  /** Calls among the first `n` that were told "invalid code" for this account, no later than `until`. */
  ghost function InvalidCodes(init: Db, lifetime: int, calls: seq<Call>, n: nat, user: UserId, until: Time): nat
    requires n <= |calls|
  {
    if n == 0 then 0 else
    var (call, reply) := (calls[n - 1], ReplyTo(init, lifetime, calls, n - 1));
    InvalidCodes(init, lifetime, calls, n - 1, user, until)
    + Count(call.VerifyOtp? && call.user == user && call.at <= until && reply == VerifyReply(PhoneOtp.InvalidOtp))
  }

  lemma {:induction false} GuessesSnoc(o: PhoneOtp.Otp, calls: seq<PhoneOtp.Call>, call: PhoneOtp.Call, until: Time)
    ensures PhoneOtp.WrongGuesses(o, calls + [call], until)
         == PhoneOtp.WrongGuesses(o, calls, until)
         + Count(PhoneOtp.WrongGuess(PhoneOtp.After(o, calls), call) && call.at <= until)
    decreases |calls|
  {
    hide PhoneOtp.Exec, PhoneOtp.WrongGuess;
    if calls == [] {
      assert ([call])[1..] == [];
    } else {
      var o' := PhoneOtp.Exec(o, calls[0]);
      assert (calls + [call])[1..] == calls[1..] + [call];
      GuessesSnoc(o', calls[1..], call, until);
      OtpAfterHead(o, calls);
    }
  }

  lemma {:induction false} OtpAfterHead(o: PhoneOtp.Otp, calls: seq<PhoneOtp.Call>)
    requires calls != []
    ensures PhoneOtp.After(o, calls) == PhoneOtp.After(PhoneOtp.Exec(o, calls[0]), calls[1..])
    decreases |calls|
  {
    if |calls| > 1 {
      var before := calls[..|calls| - 1];
      OtpAfterHead(o, before);
      assert calls[1..][..|calls| - 2] == before[1..];
    }
  }

  lemma OtpAfterSnoc(o: PhoneOtp.Otp, calls: seq<PhoneOtp.Call>, call: PhoneOtp.Call)
    ensures PhoneOtp.After(o, calls + [call]) == PhoneOtp.Exec(PhoneOtp.After(o, calls), call)
  {
    assert (calls + [call])[..|calls|] == calls;
  }

  lemma VerifyAnswers(db: Db, lifetime: int, call: Call, user: UserId)
    requires user in db.users
    ensures call.VerifyOtp? && call.user == user && Exec(db, lifetime, call).1 == VerifyReply(PhoneOtp.InvalidOtp)
            <==> PhoneCall(call, user).Some? && PhoneOtp.WrongGuess(db.users[user].otp, PhoneCall(call, user).value)
    ensures PhoneCall(call, user).Some? ==> PhoneCall(call, user).value.at == call.at
  {
  }

  lemma {:induction false} PhoneOverRun(init: Db, lifetime: int, calls: seq<Call>, n: nat, user: UserId, until: Time)
    requires n <= |calls| && user in init.users
    ensures var (db, phone) := (Before(init, lifetime, calls, n), PhoneCalls(calls, n, user));
            && user in db.users && db.users[user].otp == PhoneOtp.After(init.users[user].otp, phone)
            && InvalidCodes(init, lifetime, calls, n, user, until)
            == PhoneOtp.WrongGuesses(init.users[user].otp, phone, until)
  {
    hide Exec, PhoneOtp.Exec, PhoneOtp.WrongGuess, GuardEvent;
    if n > 0 {
      var (o, db, call, phone) :=
          (init.users[user].otp, Before(init, lifetime, calls, n - 1), calls[n - 1], PhoneCalls(calls, n - 1, user));
      PhoneOverRun(init, lifetime, calls, n - 1, user, until);
      AccountStep(db, lifetime, call, user);
      VerifyAnswers(db, lifetime, call, user);
      hide PhoneOtp.WrongGuesses, PhoneOtp.After, GuardAfterEvent;
      assert phone + [] == phone;
      if PhoneCall(call, user).Some? {
        OtpAfterSnoc(o, phone, PhoneCall(call, user).value);
        GuessesSnoc(o, phone, PhoneCall(call, user).value, until);
      }
    }
  }

  lemma {:induction false} PhoneCallsInOrder(calls: seq<Call>, n: nat, user: UserId, start: Time)
    requires n <= |calls| && Ordered(calls) && forall i | 0 <= i < |calls| :: start <= calls[i].at
    ensures var phone := PhoneCalls(calls, n, user);
            PhoneOtp.OrderedFrom(start, phone) && forall i | 0 <= i < |phone| :: n > 0 && phone[i].at <= calls[n - 1].at
  {
    if n > 0 { PhoneCallsInOrder(calls, n - 1, user, start); }
  }

  /**
    The bound on code guesses in the whole service: whatever else goes on, an account that has not asked for a code yet
    is told "invalid code" at most 5 * (1 + span / 60 s) times within `span` of the first code sent, and never before.
   */
  lemma OtpBoundInService(init: Db, lifetime: int, calls: seq<Call>, n: nat, user: UserId, span: nat, start: Time)
    requires n <= |calls| && user in init.users && PhoneOtp.Unasked(init.users[user].otp)
    requires Ordered(calls) && forall i | 0 <= i < |calls| :: start <= calls[i].at
    ensures match PhoneOtp.FirstSend(init.users[user].otp, PhoneCalls(calls, n, user))
            case None => forall until :: InvalidCodes(init, lifetime, calls, n, user, until) == 0
            case Some(t) =>
              InvalidCodes(init, lifetime, calls, n, user, t + span)
              <= PhoneOtp.MAX_OTP_ATTEMPTS * (1 + span / PhoneOtp.OTP_COOLDOWN_MS)
  {
    hide InvalidCodes, PhoneCalls, PhoneOtp.WrongGuesses, PhoneOtp.OrderedFrom, Ordered;
    PhoneCallsInOrder(calls, n, user, start);
    PhoneOtp.OtpGuessBound(init.users[user].otp, PhoneCalls(calls, n, user), span, start);
    forall until ensures InvalidCodes(init, lifetime, calls, n, user, until)
                      == PhoneOtp.WrongGuesses(init.users[user].otp, PhoneCalls(calls, n, user), until)
    {
      PhoneOverRun(init, lifetime, calls, n, user, until);
    }
  }

  /**
    Phone numbers in the whole service: the number of an account that has not asked for a code yet ends up verified
    exactly if some call of the account gave the right code within ten minutes of the latest code sent to it, after
    fewer than five wrong guesses at that code.
   */
  lemma PhoneVerifiedInService(init: Db, lifetime: int, calls: seq<Call>, n: nat, user: UserId)
    requires n <= |calls| && user in init.users && PhoneOtp.Unasked(init.users[user].otp)
    ensures user in Before(init, lifetime, calls, n).users
    ensures Before(init, lifetime, calls, n).users[user].otp.verified
            <==> exists v: nat, s: nat ::
                   PhoneOtp.VerifiedBy(init.users[user].otp, PhoneCalls(calls, n, user), v, s)
  {
    hide Before, PhoneCalls, PhoneOtp.VerifiedBy, PhoneOtp.After, PhoneOtp.Unasked;
    PhoneOverRun(init, lifetime, calls, n, user, 0);
    PhoneOtp.VerifiedExactly(init.users[user].otp, PhoneCalls(calls, n, user));
  }

  // ----- Address changes in the whole service -----

  function EmailCalls(calls: seq<Call>, n: nat): seq<EmailChange.Call>
    requires n <= |calls|
  {
    if n == 0 then [] else
    EmailCalls(calls, n - 1) + if EmailCall(calls[n - 1]).Some? then [EmailCall(calls[n - 1]).value] else []
  }

  /** The four steps keep every account and its deletion mark. */
  lemma EmailExecKeeps(accounts: EmailChange.Accounts, call: EmailChange.Call)
    requires !call.RegisterCall? && !call.DeleteCall?
    ensures var accounts' := EmailChange.Exec(accounts, call).0;
            accounts'.Keys == accounts.Keys && forall u | u in accounts :: accounts'[u].deleted == accounts[u].deleted
  {
    hide EmailChange.InUse, EmailChange.Indexed, EmailChange.Lower, EmailChange.Past;
  }

  lemma ViewOfWithEmails(users: Users, accounts: EmailChange.Accounts)
    requires accounts.Keys == users.Keys && forall u | u in users :: accounts[u].deleted == users[u].deleted
    ensures EmailView(WithEmails(users, accounts)) == accounts
  {
  }

  lemma ViewOfWithResets(users: Users, accounts: map<UserId, Sessions.Account>)
    ensures EmailView(WithResets(users, accounts)) == EmailView(users)
  {
  }

  lemma ViewOfUpdate(users: Users, user: UserId, u: User)
    requires user in users && u.email == users[user].email && u.deleted == users[user].deleted
             && u.change == users[user].change
    ensures EmailView(users[user := u]) == EmailView(users)
  {
  }

  lemma SessionKeepsEmails(db: Db, call: Sessions.Call, password: nat)
    ensures EmailView(ExecSession(db, call, password).0.users) == EmailView(db.users)
  {
    hide EmailView, SessionView, Sessions.Exec, WithResets;
    var (store, reply) := Sessions.Exec(SessionView(db.users, db.tokens), call);
    ViewOfWithResets(db.users, store.accounts);
    var users := WithResets(db.users, store.accounts);
    if reply.PasswordChanged? && reply.user in users {
      ViewOfUpdate(users, reply.user,
          users[reply.user].(password := password, cost := BCRYPT_ROUNDS, guard := Lockout.OPEN_GUARD));
    }
  }

  lemma LoginKeepsEmails(db: Db, lifetime: int, now: Time, email: string, password: nat, minted: Token)
    ensures EmailView(LoginCall(db, lifetime, now, email, password, minted).0.users) == EmailView(db.users)
  {
    hide EmailView, SessionView, Sessions.Mint, FindByEmail;
    var who := FindByEmail(db.users, email);
    if who.Some? && who.value in db.users && !db.users[who.value].deleted {
      var u := db.users[who.value];
      ViewOfUpdate(db.users, who.value, u.(guard := Lockout.Login(u.guard, now, u.password == password).0));
    }
  }

  lemma OtpKeepsEmails(db: Db, call: Call)
    requires call.SendOtp? || call.VerifyOtp?
    ensures EmailView(OtpCall(db, call).0.users) == EmailView(db.users)
  {
    hide EmailView, PhoneOtp.SendOtp, PhoneOtp.VerifyOtp;
    if call.user in db.users { ViewOfUpdate(db.users, call.user, OtpCall(db, call).0.users[call.user]); }
  }

  lemma AccountsComeAndGo(db: Db, lifetime: int, call: Call)
    requires call.Register? || call.SoftDelete?
    ensures EmailView(Exec(db, lifetime, call).0.users)
            == EmailChange.Exec(EmailView(db.users), EmailCall(call).value).0
  {
    var users' := Exec(db, lifetime, call).0.users;
    if call.Register? {
      assert EmailChange.Indexed(EmailView(db.users), call.email, call.user) && call.user !in db.users
             <==> call.user !in db.users && exists u | u in db.users :: db.users[u].email == call.email by
      {
        forall u | u in db.users
          ensures u in EmailView(db.users) && EmailView(db.users)[u].email == db.users[u].email {}
      }
    }
  }

  /** To the address columns, every call is a call of the address change or nothing at all, with the same answer. */
  lemma EmailStep(db: Db, lifetime: int, call: Call)
    ensures EmailView(Exec(db, lifetime, call).0.users)
         == match EmailCall(call)
            case None => EmailView(db.users)
            case Some(e) => EmailChange.Exec(EmailView(db.users), e).0
    ensures EmailCall(call).Some? && !call.Register? && !call.SoftDelete? ==>
              Exec(db, lifetime, call).1 == EmailReply(EmailChange.Exec(EmailView(db.users), EmailCall(call).value).1)
  {
    hide EmailView, LoginCall, OtpCall, ExecSession, EmailChange.Exec, WithEmails;
    if call.Register? || call.SoftDelete? {
      AccountsComeAndGo(db, lifetime, call);
    } else if call.Login? {
      LoginKeepsEmails(db, lifetime, call.at, call.email, call.password, call.minted);
    } else if call.SendOtp? || call.VerifyOtp? {
      OtpKeepsEmails(db, call);
    } else if SessionCall(lifetime, call).Some? {
      SessionKeepsEmails(db, SessionCall(lifetime, call).value, if call.ResetPassword? then call.password else 0);
    } else if call.Rehash? {
      if call.user in db.users {
        var u := db.users[call.user];
        ViewOfUpdate(db.users, call.user, u.(password := call.password, cost := BCRYPT_ROUNDS));
      }
    } else {
      FourStepsShow(db, EmailCall(call).value);
    }
  }

  lemma FourStepsShow(db: Db, call: EmailChange.Call)
    requires !call.RegisterCall? && !call.DeleteCall?
    ensures EmailView(ExecEmail(db, call).0.users) == EmailChange.Exec(EmailView(db.users), call).0
  {
    EmailExecKeeps(EmailView(db.users), call);
    ViewOfWithEmails(db.users, EmailChange.Exec(EmailView(db.users), call).0);
    hide EmailChange.Exec, WithEmails;
  }

  lemma {:induction false} EmailOverRun(init: Db, lifetime: int, calls: seq<Call>, n: nat)
    requires n <= |calls|
    ensures var emails := EmailCalls(calls, n);
            EmailView(Before(init, lifetime, calls, n).users)
            == EmailChange.Before(EmailView(init.users), emails, |emails|)
  {
    hide Exec, EmailChange.Exec, EmailView;
    if n > 0 {
      EmailOverRun(init, lifetime, calls, n - 1);
      EmailStep(Before(init, lifetime, calls, n - 1), lifetime, calls[n - 1]);
      var emails := EmailCalls(calls, n - 1);
      if EmailCall(calls[n - 1]).Some? {
        BeforePrefix(EmailView(init.users), emails, EmailCalls(calls, n), |emails|);
      } else {
        assert EmailCalls(calls, n) == emails;
      }
    }
  }

  lemma {:induction false} BeforePrefix(init: EmailChange.Accounts, prefix: seq<EmailChange.Call>,
      calls: seq<EmailChange.Call>, n: nat)
    requires prefix <= calls && n <= |prefix|
    ensures EmailChange.Before(init, prefix, n) == EmailChange.Before(init, calls, n)
  {
    hide EmailChange.Exec;
    if n > 0 { BeforePrefix(init, prefix, calls, n - 1); }
  }

  /** The uniqueness of addresses, which a lookup by address relies on, survives every run. */
  lemma AddressesStayUnique(init: Db, lifetime: int, calls: seq<Call>, n: nat)
    requires n <= |calls| && EmailChange.DistinctEmails(EmailView(init.users))
    ensures EmailChange.DistinctEmails(EmailView(Before(init, lifetime, calls, n).users))
  {
    hide EmailChange.DistinctEmails, EmailView;
    EmailOverRun(init, lifetime, calls, n);
    EmailChange.EmailsStayDistinct(EmailView(init.users), EmailCalls(calls, n), |EmailCalls(calls, n)|);
  }

  /**
    Address changes among all calls of the authentication service. Whatever interleaves: if a call changes an account's
    address, it is the owner's confirmation with a right code under a change token issued to the owner at most fifteen
    minutes before, to the address of the owner's latest `setNewEmail`, made under that token at most ten minutes
    before; and it revokes every session of the owner. `emails` are the calls of the run that concern addresses.
   */
  lemma AddressChangeInService(init: Db, lifetime: int, calls: seq<Call>, n: nat, user: UserId)
    requires n < |calls| && EmailChange.NoneInProgress(EmailView(init.users))
    requires user in Before(init, lifetime, calls, n).users
    ensures user in Exec(Before(init, lifetime, calls, n), lifetime, calls[n]).0.users
    ensures var (db, db') := (Before(init, lifetime, calls, n),
            Exec(Before(init, lifetime, calls, n), lifetime, calls[n]).0);
            var (emails, k) := (EmailCalls(calls, n + 1), |EmailCalls(calls, n)|);
            db'.users[user].email != db.users[user].email ==>
              && calls[n].ConfirmNewEmail? && calls[n].user == user && calls[n].matches
              && k < |emails|
              && (exists issued, submitted ::
                    EmailChange.ConfirmsLatest(EmailView(init.users), emails, k, user, issued, submitted,
                        db'.users[user].email))
              && (forall t | t in db'.tokens && db'.tokens[t].user == user :: db'.tokens[t].revokedAt.Some?)
  {
    var (db, call) := (Before(init, lifetime, calls, n), calls[n]);
    EmailOverRun(init, lifetime, calls, n);
    EmailOverRun(init, lifetime, calls, n + 1);
    EmailStep(db, lifetime, call);
    AccountStep(db, lifetime, call, user);
    assert db.users[user].email == EmailView(db.users)[user].email;
    var db' := Exec(db, lifetime, call).0;
    assert db'.users[user].email == EmailView(db'.users)[user].email;
    if db'.users[user].email != db.users[user].email {
      hide EmailChange.Exec, EmailView, Exec;
      var (emails, before) := (EmailCalls(calls, n + 1), EmailCalls(calls, n));
      assert emails == before + [EmailCall(call).value];
      BeforePrefix(EmailView(init.users), before, emails, |before|);
      EmailChange.EmailChangeOrigin(EmailView(init.users), emails, |before|, |emails|, user);
      assert emails[|before|].ConfirmCall? && emails[|before|].matches;
      hide EmailChange.ConfirmsLatest;
      ConfirmationRevokes(db, lifetime, call, user);
    }
  }

  /**
    And the other way round: from the rows alone, a confirmation by a live account with a pending address, under the
    right token in time, with a code on record that may still be tried. The right code gives the account the address
    and ends its sessions, if nobody has the address; a wrong one costs an attempt and nothing more.
   */
  lemma ConfirmationInService(db: Db, lifetime: int, call: Call)
    requires call.ConfirmNewEmail? && call.user in db.users && !db.users[call.user].deleted
    ensures var ((db', reply), u) := (Exec(db, lifetime, call), db.users[call.user]);
            var ready := u.change.pending.Some? && EmailChange.TokenGood(u.change, call.token, call.at)
                         && EmailChange.CodeAlive(u.change, call.at);
            && (reply == EmailReply(EmailChange.Changed) <==>
                  && ready && call.matches
                  && forall v | v in db.users && v != call.user :: db.users[v].email != u.change.pending.value)
            && (reply == EmailReply(EmailChange.Changed) ==>
                  && db'.users == db.users[call.user := u.(email := u.change.pending.value,
                      change := EmailChange.NO_CHANGE)]
                  && db'.tokens.Keys == db.tokens.Keys
                  && forall t | t in db'.tokens && db'.tokens[t].user == call.user :: db'.tokens[t].revokedAt.Some?)
            && (reply == EmailReply(EmailChange.Refused(EmailChange.InvalidOtp)) <==> ready && !call.matches)
            && (reply == EmailReply(EmailChange.Refused(EmailChange.InvalidOtp)) ==>
                  db' == db.(users := db.users[call.user := u.(change := u.change.(attempts := u.change.attempts
                      + 1))]))
  {
    hide EmailChange.Exec, EmailView, WithEmails, EmailChange.TokenGood, EmailChange.CodeAlive, EmailChange.FreeFor,
        EmailChange.LiveOwner, Sessions.RevokeUser;
    var u := db.users[call.user];
    ViewRoundTrip(db.users);
    EmailChange.ConfirmationDecides(EmailView(db.users), call.user, call.at, call.token, call.matches);
    if u.change.pending.Some? { FreeShows(db.users, call.user, u.change.pending.value); }
    RevocationShows(db.tokens, call.user, call.at);
    if u.change.pending.Some? { ChangeShows(db.users, call.user, u.change.pending.value, EmailChange.NO_CHANGE); }
    ChangeShows(db.users, call.user, u.email, u.change.(attempts := u.change.attempts + 1));
  }

  lemma FreeShows(users: Users, user: UserId, email: string)
    ensures EmailChange.FreeFor(EmailView(users), email, user)
            <==> forall v | v in users && v != user :: users[v].email != email
  {
    forall v | v in users ensures v in EmailView(users) && EmailView(users)[v].email == users[v].email {}
  }

  lemma RevocationShows(tokens: Tokens, user: UserId, now: Time)
    ensures var tokens' := Sessions.RevokeUser(tokens, user, now);
            && tokens'.Keys == tokens.Keys
            && forall t | t in tokens' && tokens'[t].user == user :: tokens'[t].revokedAt.Some?
  {
  }

  lemma ViewRoundTrip(users: Users)
    ensures WithEmails(users, EmailView(users)) == users && EmailView(users).Keys == users.Keys
    ensures forall u | u in users ::
            EmailView(users)[u] == EmailChange.Account(users[u].email, users[u].deleted, users[u].change)
  {
  }

  lemma ChangesShow(users: Users, user: UserId)
    requires user in users
    ensures forall email, change ::
      WithEmails(users, EmailView(users)[user := EmailChange.Account(email, users[user].deleted, change)])
      == users[user := users[user].(email := email, change := change)]
  {
    forall email, change
      ensures WithEmails(users, EmailView(users)[user := EmailChange.Account(email, users[user].deleted, change)])
           == users[user := users[user].(email := email, change := change)]
    {
      ChangeShows(users, user, email, change);
    }
  }

  /** One account's new address and change columns, seen through the view and back. */
  lemma ChangeShows(users: Users, user: UserId, email: string, change: EmailChange.Change)
    requires user in users
    ensures WithEmails(users, EmailView(users)[user := EmailChange.Account(email, users[user].deleted, change)])
         == users[user := users[user].(email := email, change := change)]
  {
  }

  lemma ConfirmationRevokes(db: Db, lifetime: int, call: Call, user: UserId)
    requires call.ConfirmNewEmail? && call.user == user && Exec(db, lifetime, call).1 == EmailReply(EmailChange.Changed)
    ensures var db' := Exec(db, lifetime, call).0;
            forall t | t in db'.tokens && db'.tokens[t].user == user :: db'.tokens[t].revokedAt.Some?
  {
    hide EmailChange.Exec, EmailView, WithEmails;
  }

  // ----- Where sessions come from -----

  /** A session of the user that has not been revoked. */
  predicate Live(tokens: Tokens, t: Token, user: UserId) {
    t in tokens && tokens[t].revokedAt.None? && tokens[t].user == user
  }

  /** The call logs the user in: right password, account not locked. */
  ghost predicate LogsIn(db: Db, lifetime: int, call: Call, user: UserId) {
    call.Login? && GuardEvent(db, lifetime, call, user).Some? && Exec(db, lifetime, call).1.Welcome?
  }

  /** The call completes the user's password reset or address change. */
  ghost predicate EndsAll(db: Db, lifetime: int, call: Call, user: UserId) {
    || Resets(db, lifetime, call, user)
    || (call.ConfirmNewEmail? && call.user == user && Exec(db, lifetime, call).1 == EmailReply(EmailChange.Changed))
  }

  /** How a token can be live after a call: it was before, or a login or a refresh of a live token has just made it. */
  ghost predicate Descends(db: Db, lifetime: int, call: Call, t: Token, user: UserId) {
    || (Live(db.tokens, t, user) && !EndsAll(db, lifetime, call, user))
    || LogsIn(db, lifetime, call, user)
    || (call.Refresh? && Live(db.tokens, call.token, user))
  }

  lemma SessionTokens(db: Db, call: Sessions.Call, password: nat, t: Token, user: UserId)
    requires Live(ExecSession(db, call, password).0.tokens, t, user)
    ensures || (Live(db.tokens, t, user)
            && ExecSession(db, call, password).1 != SessionReply(Sessions.PasswordChanged(user)))
            || call.IssuePair?
            || (call.Refresh? && Live(db.tokens, call.token, user))
  {
    hide WithResets;
  }

  lemma LoginTokens(db: Db, lifetime: int, call: Call, t: Token, user: UserId)
    requires call.Login? && Live(Exec(db, lifetime, call).0.tokens, t, user)
    ensures Live(db.tokens, t, user) || LogsIn(db, lifetime, call, user)
  {
    hide FindByEmail;
  }

  lemma TokenStep(db: Db, lifetime: int, call: Call, t: Token, user: UserId)
    requires Live(Exec(db, lifetime, call).0.tokens, t, user)
    ensures Descends(db, lifetime, call, t, user)
  {
    if call.Login? {
      LoginTokens(db, lifetime, call, t, user);
      hide Exec;
    } else {
      hide ExecSession, EmailChange.Exec, PhoneOtp.SendOtp, PhoneOtp.VerifyOtp, LoginCall, LogsIn, WithEmails,
          EmailView;
      if SessionCall(lifetime, call).Some? {
        SessionTokens(db, SessionCall(lifetime, call).value, if call.ResetPassword? then call.password else 0, t, user);
      }
    }
  }

  // ----- Which password is in force -----

  /** What is running for a user is all of one password, and of the one in force while its hash is still costly. */
  ghost predicate OnePending(db: Db, user: UserId) {
    && (forall p, q | Rehashing(user, p) in db.pending && Rehashing(user, q) in db.pending :: p == q)
    && (forall p | Rehashing(user, p) in db.pending ::
          user in db.users && (db.users[user].cost > BCRYPT_ROUNDS ==> db.users[user].password == p))
  }

  lemma PendingStays(db: Db, lifetime: int, call: Call)
    requires !call.Login? && !call.Rehash?
    ensures Exec(db, lifetime, call).0.pending == db.pending
  {
    hide EmailChange.Exec, Sessions.Exec, PhoneOtp.SendOtp, PhoneOtp.VerifyOtp;
  }

  /** A re-hash is running after a call if it was before, or the call is a login on a costly hash of that password. */
  lemma PendingStep(db: Db, lifetime: int, call: Call, user: UserId, p: nat)
    ensures Rehashing(user, p) in Exec(db, lifetime, call).0.pending ==>
              || Rehashing(user, p) in db.pending
              || (user in db.users && db.users[user].cost > BCRYPT_ROUNDS && db.users[user].password == p)
  {
    if call.Login? {
      hide FindByEmail, Sessions.Mint, SessionView, Lockout.Login;
    } else if !call.Rehash? {
      PendingStays(db, lifetime, call);
      hide Exec;
    }
  }

  lemma StepKeepsPending(db: Db, lifetime: int, call: Call, user: UserId)
    requires OnePending(db, user)
    ensures OnePending(Exec(db, lifetime, call).0, user)
  {
    forall p ensures Rehashing(user, p) in Exec(db, lifetime, call).0.pending ==>
                       || Rehashing(user, p) in db.pending
                       || (user in db.users && db.users[user].cost > BCRYPT_ROUNDS && db.users[user].password == p)
    {
      PendingStep(db, lifetime, call, user, p);
    }
    if user in db.users { AccountStep(db, lifetime, call, user); }
    hide Exec, Resets, GuardEvent, GuardAfterEvent, PhoneOtp.Exec, PhoneCall;
  }

  lemma {:induction false} PendingOverRun(init: Db, lifetime: int, calls: seq<Call>, n: nat, user: UserId)
    requires n <= |calls| && OnePending(init, user)
    ensures OnePending(Before(init, lifetime, calls, n), user)
  {
    hide OnePending, Exec;
    if n > 0 {
      PendingOverRun(init, lifetime, calls, n - 1, user);
      StepKeepsPending(Before(init, lifetime, calls, n - 1), lifetime, calls[n - 1], user);
    }
  }

  /** The password a call brings along, if any. */
  function PasswordIn(call: Call): nat {
    if call.Register? || call.Rehash? || call.Login? || call.ResetPassword? then call.password else 0
  }

  /** Call `j` lands a re-hash of another password than `password`. */
  ghost predicate Overwrites(init: Db, lifetime: int, calls: seq<Call>, j: nat, user: UserId, password: nat)
    requires j < |calls|
  {
    Lands(Before(init, lifetime, calls, j), calls[j], user) && PasswordIn(calls[j]) != password
  }

  ghost predicate Overwritten(init: Db, lifetime: int, calls: seq<Call>, k: nat, n: nat, user: UserId, password: nat)
    requires n <= |calls|
  {
    exists j | k < j < n :: Overwrites(init, lifetime, calls, j, user, password)
  }

  /** Since call `k`, which left `password` in force, it has stayed so but for re-hashes begun before that call. */
  ghost predicate InForceSince(init: Db, lifetime: int, calls: seq<Call>, k: nat, n: nat, user: UserId, password: nat)
    requires k < n <= |calls|
  {
    var (db, start) := (Before(init, lifetime, calls, n), Before(init, lifetime, calls, k));
    && user in db.users
    && (db.users[user].cost > BCRYPT_ROUNDS ==> db.users[user].password == password)
    && (forall p | p != password && Rehashing(user, p) in db.pending :: Rehashing(user, p) in start.pending)
    && (db.users[user].password != password ==> Rehashing(user, password) !in db.pending)
    && (db.users[user].password != password <==> Overwritten(init, lifetime, calls, k, n, user, password))
  }

  /** The password call `k` leaves in force: its own, if it resets the password or logs in with it. */
  ghost predicate Leaves(db: Db, lifetime: int, call: Call, user: UserId) {
    user in db.users && (Resets(db, lifetime, call, user) || LogsIn(db, lifetime, call, user))
  }

  lemma LeavesItsPassword(db: Db, lifetime: int, call: Call, user: UserId)
    requires Leaves(db, lifetime, call, user)
    ensures var db' := Exec(db, lifetime, call).0;
            && user in db'.users && db'.users[user].password == PasswordIn(call)
            && forall p | p != PasswordIn(call) && Rehashing(user, p) in db'.pending :: Rehashing(user, p) in db.pending
  {
    AccountStep(db, lifetime, call, user);
    forall p ensures Rehashing(user, p) in Exec(db, lifetime, call).0.pending ==>
                       || Rehashing(user, p) in db.pending
                       || (db.users[user].cost > BCRYPT_ROUNDS && db.users[user].password == p)
    {
      PendingStep(db, lifetime, call, user, p);
    }
    if call.Login? {
      LoginAnswers(db, lifetime, call, user);
    } else {
      PendingStays(db, lifetime, call);
    }
    hide Exec, GuardEvent, GuardAfterEvent, PhoneOtp.Exec, PhoneCall;
  }

  /** What a call that does not reset the password does to it and to what is running. */
  lemma PasswordStep(db: Db, lifetime: int, call: Call, user: UserId)
    requires user in db.users && !Resets(db, lifetime, call, user)
    ensures var db' := Exec(db, lifetime, call).0;
            && user in db'.users
            && (Lands(db, call, user) ==>
                  && db'.users[user].password == call.password && db'.users[user].cost == BCRYPT_ROUNDS
                  && Rehashing(user, call.password) in db.pending
                  && forall p | Rehashing(user, p) in db'.pending :: Rehashing(user, p) in db.pending)
            && (!Lands(db, call, user) ==>
                  && db'.users[user].password == db.users[user].password && db'.users[user].cost == db.users[user].cost
                  && forall p | Rehashing(user, p) in db'.pending ::
                       Rehashing(user, p) in db.pending
                       || (db.users[user].cost > BCRYPT_ROUNDS && db.users[user].password == p))
  {
    AccountStep(db, lifetime, call, user);
    forall p ensures Rehashing(user, p) in Exec(db, lifetime, call).0.pending ==>
                       || Rehashing(user, p) in db.pending
                       || (db.users[user].cost > BCRYPT_ROUNDS && db.users[user].password == p)
    {
      PendingStep(db, lifetime, call, user, p);
    }
    if Lands(db, call, user) { assert Exec(db, lifetime, call).0 == RehashCall(db, user, call.password); }
    hide Exec, Resets, GuardEvent, GuardAfterEvent, PhoneOtp.Exec, PhoneCall;
  }

  lemma OverwrittenStep(init: Db, lifetime: int, calls: seq<Call>, k: nat, n: nat, m: nat, user: UserId, password: nat)
    requires k < n < |calls| && m == n + 1
    ensures Overwritten(init, lifetime, calls, k, m, user, password)
            <==> Overwritten(init, lifetime, calls, k, n, user, password)
                 || Overwrites(init, lifetime, calls, n, user, password)
  {
    hide Overwrites;
  }

  lemma InForceStep(init: Db, lifetime: int, calls: seq<Call>, k: nat, n: nat, m: nat, user: UserId, password: nat)
    requires k < n < |calls| && m == n + 1 && InForceSince(init, lifetime, calls, k, n, user, password)
    requires OnePending(Before(init, lifetime, calls, n), user)
    requires !Resets(Before(init, lifetime, calls, n), lifetime, calls[n], user)
    ensures InForceSince(init, lifetime, calls, k, m, user, password)
  {
    hide Exec, Resets, Overwritten;
    var (db, call) := (Before(init, lifetime, calls, n), calls[n]);
    PasswordStep(db, lifetime, call, user);
    OverwrittenStep(init, lifetime, calls, k, n, m, user, password);
    assert Before(init, lifetime, calls, m) == Exec(db, lifetime, call).0;
    hide Before;
  }

  lemma InForceAtOnce(init: Db, lifetime: int, calls: seq<Call>, k: nat, n: nat, user: UserId)
    requires k < |calls| && n == k + 1 && Leaves(Before(init, lifetime, calls, k), lifetime, calls[k], user)
    ensures InForceSince(init, lifetime, calls, k, n, user, PasswordIn(calls[k]))
  {
    hide Exec, Leaves, Overwrites;
    LeavesItsPassword(Before(init, lifetime, calls, k), lifetime, calls[k], user);
    assert Before(init, lifetime, calls, n) == Exec(Before(init, lifetime, calls, k), lifetime, calls[k]).0;
  }

  lemma {:induction false} InForceOverRun(init: Db, lifetime: int, calls: seq<Call>, k: nat, n: nat, user: UserId)
    requires k < n <= |calls| && Leaves(Before(init, lifetime, calls, k), lifetime, calls[k], user)
    requires OnePending(init, user)
    requires forall j | k < j < n :: !Resets(Before(init, lifetime, calls, j), lifetime, calls[j], user)
    ensures InForceSince(init, lifetime, calls, k, n, user, PasswordIn(calls[k]))
  {
    hide Exec, Leaves, InForceSince, OnePending, Resets;
    if n == k + 1 {
      InForceAtOnce(init, lifetime, calls, k, n, user);
    } else {
      InForceOverRun(init, lifetime, calls, k, n - 1, user);
      PendingOverRun(init, lifetime, calls, n - 1, user);
      InForceStep(init, lifetime, calls, k, n - 1, n, user, PasswordIn(calls[k]));
    }
  }

  /** Whatever overwrites the password was being computed before it was set. */
  lemma OverwriterIsOlder(init: Db, lifetime: int, calls: seq<Call>, k: nat, j: nat, user: UserId, password: nat)
    requires k < j < |calls| && InForceSince(init, lifetime, calls, k, j, user, password)
    requires Overwrites(init, lifetime, calls, j, user, password)
    ensures Rehashing(user, PasswordIn(calls[j])) in Before(init, lifetime, calls, k).pending
  {
    hide Before, Overwritten;
  }

  /**
    A reset can be undone. From the reset of a password to the next one, in runs of all calls, the new password is in
    force except exactly when a re-hash of another password, left running by a login before the reset, lands after it.
   */
  lemma ResetUndoneByRehash(init: Db, lifetime: int, calls: seq<Call>, r: nat, n: nat, user: UserId)
    requires r < n <= |calls| && OnePending(init, user) && user in Before(init, lifetime, calls, r).users
    requires Resets(Before(init, lifetime, calls, r), lifetime, calls[r], user)
    requires forall j | r < j < n :: !Resets(Before(init, lifetime, calls, j), lifetime, calls[j], user)
    ensures var db := Before(init, lifetime, calls, n);
            user in db.users && (db.users[user].password != PasswordIn(calls[r])
                                 <==> Overwritten(init, lifetime, calls, r, n, user, PasswordIn(calls[r])))
    ensures forall j | r < j < n && Overwrites(init, lifetime, calls, j, user, PasswordIn(calls[r])) ::
              Rehashing(user, PasswordIn(calls[j])) in Before(init, lifetime, calls, r).pending
  {
    assert Leaves(Before(init, lifetime, calls, r), lifetime, calls[r], user);
    hide Exec, Resets, OnePending, Before, Overwritten, Overwrites, Leaves;
    InForceOverRun(init, lifetime, calls, r, n, user);
    forall j | r < j < n && Overwrites(init, lifetime, calls, j, user, PasswordIn(calls[r]))
      ensures Rehashing(user, PasswordIn(calls[j])) in Before(init, lifetime, calls, r).pending
    {
      InForceOverRun(init, lifetime, calls, r, j, user);
      OverwriterIsOlder(init, lifetime, calls, r, j, user, PasswordIn(calls[r]));
    }
  }

  /** Call `k` was the user's login, and nothing has ended the user's sessions since. */
  ghost predicate RootedAt(init: Db, lifetime: int, calls: seq<Call>, n: nat, user: UserId, k: nat)
    requires n <= |calls|
  {
    && k < n && user in Before(init, lifetime, calls, k).users
    && LogsIn(Before(init, lifetime, calls, k), lifetime, calls[k], user)
    && Before(init, lifetime, calls, k).users[user].password == PasswordIn(calls[k])
    && forall j | k < j < n :: !EndsAll(Before(init, lifetime, calls, j), lifetime, calls[j], user)
  }

  lemma LoginRoots(init: Db, lifetime: int, calls: seq<Call>, n: nat, m: nat, user: UserId)
    requires n < |calls| && m == n + 1 && LogsIn(Before(init, lifetime, calls, n), lifetime, calls[n], user)
    ensures RootedAt(init, lifetime, calls, m, user, n)
  {
    LoginAnswers(Before(init, lifetime, calls, n), lifetime, calls[n], user);
    hide Exec, GuardEvent, EndsAll, Before;
  }

  lemma RootStays(init: Db, lifetime: int, calls: seq<Call>, n: nat, m: nat, user: UserId, k: nat)
    requires n < |calls| && m == n + 1 && RootedAt(init, lifetime, calls, n, user, k)
    requires !EndsAll(Before(init, lifetime, calls, n), lifetime, calls[n], user)
    ensures RootedAt(init, lifetime, calls, m, user, k)
  {
    hide Exec, EndsAll, LogsIn, Before;
  }

  lemma {:induction false} SessionsAreRooted(init: Db, lifetime: int, calls: seq<Call>, n: nat, t: Token, user: UserId)
    requires n <= |calls| && (forall token, owner :: !Live(init.tokens, token, owner))
    requires Live(Before(init, lifetime, calls, n).tokens, t, user)
    ensures exists k: nat :: RootedAt(init, lifetime, calls, n, user, k)
  {
    hide Exec, EndsAll, LogsIn, Live, RootedAt;
    assert n > 0;
    var (db, call) := (Before(init, lifetime, calls, n - 1), calls[n - 1]);
    assert Before(init, lifetime, calls, n) == Exec(db, lifetime, call).0;
    TokenStep(db, lifetime, call, t, user);
    if LogsIn(db, lifetime, call, user) {
      LoginRoots(init, lifetime, calls, n - 1, n, user);
    } else {
      var kept := Live(db.tokens, t, user) && !EndsAll(db, lifetime, call, user);
      SessionsAreRooted(init, lifetime, calls, n - 1, if kept then t else call.token, user);
      var k: nat :| RootedAt(init, lifetime, calls, n - 1, user, k);
      if call.Refresh? { RefreshEndsNothing(db, lifetime, call, user); }
      RootStays(init, lifetime, calls, n - 1, n, user, k);
    }
  }

  lemma RefreshEndsNothing(db: Db, lifetime: int, call: Call, user: UserId)
    requires call.Refresh?
    ensures !EndsAll(db, lifetime, call, user)
  {
  }

  /** A session's root, with the password it was opened with, and when that is not the one now in force. */
  ghost predicate Explains(init: Db, lifetime: int, calls: seq<Call>, n: nat, user: UserId, k: nat)
    requires n <= |calls|
  {
    && RootedAt(init, lifetime, calls, n, user, k)
    && user in Before(init, lifetime, calls, n).users
    && (Before(init, lifetime, calls, n).users[user].password != PasswordIn(calls[k])
        <==> Overwritten(init, lifetime, calls, k, n, user, PasswordIn(calls[k])))
    && (forall j | k < j < n && Overwrites(init, lifetime, calls, j, user, PasswordIn(calls[k])) ::
          Rehashing(user, PasswordIn(calls[j])) in Before(init, lifetime, calls, k).pending)
  }

  /**
    Every live session goes back to a password. In any run of all calls, started without live sessions: whoever a live
    refresh token belongs to has logged in, unlocked, with the password then in force, and has neither reset the
    password nor changed the address since; all that lies between is rotation. That password is the one in force now,
    except exactly when a re-hash of another one, running since before that login, has landed after it.
   */
  lemma SessionsNeedThePassword(init: Db, lifetime: int, calls: seq<Call>, n: nat, t: Token, user: UserId)
    requires n <= |calls| && (forall token, owner :: !Live(init.tokens, token, owner)) && OnePending(init, user)
    requires Live(Before(init, lifetime, calls, n).tokens, t, user)
    ensures exists k: nat :: Explains(init, lifetime, calls, n, user, k)
  {
    SessionsAreRooted(init, lifetime, calls, n, t, user);
    var k: nat :| RootedAt(init, lifetime, calls, n, user, k);
    RootExplains(init, lifetime, calls, n, user, k);
  }

  lemma RootExplains(init: Db, lifetime: int, calls: seq<Call>, n: nat, user: UserId, k: nat)
    requires n <= |calls| && OnePending(init, user) && RootedAt(init, lifetime, calls, n, user, k)
    ensures Explains(init, lifetime, calls, n, user, k)
  {
    hide Exec, Resets, LogsIn, OnePending, Before, Overwritten, Overwrites;
    assert Leaves(Before(init, lifetime, calls, k), lifetime, calls[k], user);
    InForceOverRun(init, lifetime, calls, k, n, user);
    forall j | k < j < n && Overwrites(init, lifetime, calls, j, user, PasswordIn(calls[k]))
      ensures Rehashing(user, PasswordIn(calls[j])) in Before(init, lifetime, calls, k).pending
    {
      InForceOverRun(init, lifetime, calls, k, j, user);
      OverwriterIsOlder(init, lifetime, calls, k, j, user, PasswordIn(calls[k]));
    }
  }

  /** In particular, whoever gets a refresh through holds a session with such a login behind it. */
  lemma RefreshNeedsThePassword(init: Db, lifetime: int, calls: seq<Call>, n: nat)
    requires n < |calls| && (forall token, owner :: !Live(init.tokens, token, owner)) && calls[n].Refresh?
    requires forall user :: OnePending(init, user)
    requires ReplyTo(init, lifetime, calls, n).SessionReply? && ReplyTo(init, lifetime, calls, n).session.Pair?
    ensures exists user, k: nat :: Live(Before(init, lifetime, calls, n).tokens, calls[n].token, user)
                                   && Explains(init, lifetime, calls, n, user, k)
  {
    var db := Before(init, lifetime, calls, n);
    RefreshTakesLive(db, lifetime, calls[n]);
    var user := db.tokens[calls[n].token].user;
    assert Live(db.tokens, calls[n].token, user);
    hide Live, Explains, Before, ReplyTo, OnePending;
    SessionsNeedThePassword(init, lifetime, calls, n, calls[n].token, user);
  }

  lemma RefreshTakesLive(db: Db, lifetime: int, call: Call)
    requires call.Refresh? && Exec(db, lifetime, call).1.SessionReply? && Exec(db, lifetime, call).1.session.Pair?
    ensures call.token in db.tokens && db.tokens[call.token].revokedAt.None?
  {
  }

  // ----- Clean-up in the whole service -----

  function CleanupCall(call: Call): bool {
    call.CleanTokens? || call.CleanResets?
  }

  /** What the session tables see of a call. */
  ghost function Shadow(db: Db, lifetime: int, call: Call): Option<Sessions.Call> {
    var (db', reply) := Exec(db, lifetime, call);
    match call
    case Register(at, user, email, _, _) => if reply == Done then Some(Sessions.Register(at, user, email)) else None
    case SoftDelete(at, user) => Some(Sessions.SoftDelete(at, user))
    case Login(at, email, _, minted) =>
      if reply.Welcome? then Some(Sessions.IssuePair(at, FindByEmail(db.users, email).value, minted, lifetime))
        else None
    case ConfirmNewEmail(at, user, _, _) =>
      if reply == EmailReply(EmailChange.Changed) && user in db'.users then
        Some(Sessions.ChangeEmail(at, user, db'.users[user].email))
      else None
    case _ => SessionCall(lifetime, call)
  }

  function Store(db: Db): Sessions.Store {
    SessionView(db.users, db.tokens)
  }

  /** The calls that work on reset slots and tokens leave addresses and deletion marks alone. */
  lemma SlotCallsKeep(s: Sessions.Store, call: Sessions.Call)
    requires !call.ChangeEmail? && !call.Register? && !call.SoftDelete?
    ensures var s' := Sessions.Exec(s, call).0;
            && s'.accounts.Keys == s.accounts.Keys
            && forall u | u in s.accounts ::
                 s'.accounts[u].email == s.accounts[u].email && s'.accounts[u].deleted == s.accounts[u].deleted
  {
    hide Sessions.Mint, Sessions.RefreshCall, Sessions.RevokeUser;
    match call
    case Refresh(at, token, minted, lifetime) => RefreshKeepsAccounts(s, at, token, minted, lifetime);
    case IssuePair(at, user, minted, lifetime) => MintKeepsAccounts(s, user, minted, at + lifetime);
    case _ =>
  }

  lemma MintKeepsAccounts(s: Sessions.Store, user: UserId, minted: Token, expiresAt: Time)
    ensures Sessions.Mint(s, user, minted, expiresAt).0.accounts == s.accounts
  {
  }

  lemma RefreshKeepsAccounts(s: Sessions.Store, now: Time, token: Token, minted: Token, lifetime: int)
    ensures Sessions.RefreshCall(s, now, token, minted, lifetime).0.accounts == s.accounts
  {
  }

  lemma StoreOfWithResets(users: Users, store: Sessions.Store)
    requires store.accounts.Keys == users.Keys
    requires forall u | u in users ::
               store.accounts[u].email == users[u].email && store.accounts[u].deleted == users[u].deleted
    ensures SessionView(WithResets(users, store.accounts), store.tokens) == store
  {
  }

  lemma StoreOfUpdate(users: Users, tokens: Tokens, user: UserId, u: User)
    requires user in users && Slot(u) == Slot(users[user])
    ensures SessionView(users[user := u], tokens) == SessionView(users, tokens)
  {
  }

  lemma StoreOfTokens(users: Users, tokens: Tokens, tokens': Tokens)
    ensures SessionView(users, tokens') == SessionView(users, tokens).(tokens := tokens')
    ensures SessionView(users, tokens).tokens == tokens
  {
  }

  lemma StoreOfSession(db: Db, call: Sessions.Call, password: nat)
    requires !call.ChangeEmail? && !call.Register? && !call.SoftDelete?
    ensures Store(ExecSession(db, call, password).0) == Sessions.Exec(Store(db), call).0
  {
    SlotCallsKeep(Store(db), call);
    var (store, reply) := Sessions.Exec(Store(db), call);
    hide Sessions.Exec;
    StoreOfWithResets(db.users, store);
    var users := WithResets(db.users, store.accounts);
    if reply.PasswordChanged? && reply.user in users {
      StoreOfUpdate(users, store.tokens, reply.user,
          users[reply.user].(password := password, cost := BCRYPT_ROUNDS, guard := Lockout.OPEN_GUARD));
    }
  }

  lemma StoreOfLogin(db: Db, lifetime: int, call: Call)
    requires call.Login?
    ensures Store(Exec(db, lifetime, call).0)
         == match Shadow(db, lifetime, call) case None => Store(db) case Some(c) => Sessions.Exec(Store(db), c).0
  {
    hide FindByEmail, SessionView;
    var who := FindByEmail(db.users, call.email);
    if who.Some? && who.value in db.users && !db.users[who.value].deleted {
      var u := db.users[who.value];
      var u' := u.(guard := Lockout.Login(u.guard, call.at, u.password == call.password).0);
      StoreOfUpdate(db.users, db.tokens, who.value, u');
      MintKeepsAccounts(Store(db), who.value, call.minted, call.at + lifetime);
      StoreOfTokens(db.users[who.value := u'], db.tokens, Exec(db, lifetime, call).0.tokens);
    }
  }

  /** Of the four steps only a confirmation that went through changes an address, and only its user's. */
  lemma EmailExecEmails(accounts: EmailChange.Accounts, call: EmailChange.Call)
    requires !call.RegisterCall? && !call.DeleteCall?
    ensures var (accounts', reply) := EmailChange.Exec(accounts, call);
            && accounts'.Keys == accounts.Keys
            && (reply == EmailChange.Changed ==> call.ConfirmCall? && call.user in accounts)
            && forall u | u in accounts && !(reply == EmailChange.Changed && u == call.user) ::
                 accounts'[u].email == accounts[u].email
  {
    hide EmailChange.InUse, EmailChange.Indexed, EmailChange.Lower, EmailChange.Past;
  }

  lemma StoreOfEmail(db: Db, call: EmailChange.Call)
    requires !call.RegisterCall? && !call.DeleteCall?
    ensures var (db', reply) := ExecEmail(db, call);
            if reply == EmailReply(EmailChange.Changed) then
              call.user in db'.users
              && Store(db') == Sessions.Exec(Store(db),
                  Sessions.ChangeEmail(call.at, call.user, db'.users[call.user].email)).0
            else Store(db') == Store(db)
  {
    EmailExecEmails(EmailView(db.users), call);
    EmailExecKeeps(EmailView(db.users), call);
    hide EmailChange.Exec, Sessions.RevokeUser;
  }

  lemma StoreOfAccounts(db: Db, lifetime: int, call: Call)
    requires call.Register? || call.SoftDelete?
    ensures Store(Exec(db, lifetime, call).0)
         == match Shadow(db, lifetime, call) case None => Store(db) case Some(c) => Sessions.Exec(Store(db), c).0
  {
  }

  lemma StoreOfOtp(db: Db, call: Call)
    requires call.SendOtp? || call.VerifyOtp?
    ensures Store(OtpCall(db, call).0) == Store(db)
  {
    hide SessionView, PhoneOtp.SendOtp, PhoneOtp.VerifyOtp;
    if call.user in db.users { StoreOfUpdate(db.users, db.tokens, call.user, OtpCall(db, call).0.users[call.user]); }
  }

  lemma StoreOfRehash(db: Db, user: UserId, password: nat)
    ensures Store(RehashCall(db, user, password)) == Store(db)
  {
    hide SessionView;
    if user in db.users {
      StoreOfUpdate(db.users, db.tokens, user, db.users[user].(password := password, cost := BCRYPT_ROUNDS));
    }
  }

  /** To the session tables, every call is one of the session calls or nothing at all. */
  lemma StoreStep(db: Db, lifetime: int, call: Call)
    ensures Store(Exec(db, lifetime, call).0)
         == match Shadow(db, lifetime, call) case None => Store(db) case Some(c) => Sessions.Exec(Store(db), c).0
  {
    hide Store, LoginCall, OtpCall, ExecSession, ExecEmail, Sessions.Exec, FindByEmail;
    if call.Login? {
      StoreOfLogin(db, lifetime, call);
    } else if call.Register? || call.SoftDelete? {
      StoreOfAccounts(db, lifetime, call);
    } else if call.SendOtp? || call.VerifyOtp? {
      StoreOfOtp(db, call);
    } else if SessionCall(lifetime, call).Some? {
      StoreOfSession(db, SessionCall(lifetime, call).value, if call.ResetPassword? then call.password else 0);
    } else if call.Rehash? {
      StoreOfRehash(db, call.user, call.password);
    } else {
      StoreOfEmail(db, EmailCall(call).value);
      ChangedIsConfirm(EmailView(db.users), EmailCall(call).value);
      EmailReplies(db, EmailCall(call).value);
    }
  }

  lemma ChangedIsConfirm(accounts: EmailChange.Accounts, call: EmailChange.Call)
    ensures EmailChange.Exec(accounts, call).1 == EmailChange.Changed ==> call.ConfirmCall?
  {
  }

  lemma EmailReplies(db: Db, call: EmailChange.Call)
    ensures ExecEmail(db, call).1 == EmailReply(EmailChange.Exec(EmailView(db.users), call).1)
  {
  }

  /** The two tables differ in reset slots and token rows only, and there as clean-up may make them differ. */
  ghost predicate Twins(full: Db, clean: Db, now: Time) {
    && Sessions.Matches(Store(full), Store(clean), now) && AllSameColumns(full.users, clean.users)
    && full.pending == clean.pending
  }

  predicate SameColumns(u: User, v: User) {
    v == u.(resetToken := v.resetToken, resetExpiry := v.resetExpiry)
  }

  ghost predicate AllSameColumns(full: Users, clean: Users) {
    full.Keys == clean.Keys && forall u | u in full :: SameColumns(full[u], clean[u])
  }

  lemma TwinLogin(full: Db, clean: Db, lifetime: int, call: Call)
    requires Twins(full, clean, call.at) && call.Login? && call.minted !in full.tokens
    ensures Exec(clean, lifetime, call).1 == Exec(full, lifetime, call).1
    ensures AllSameColumns(Exec(full, lifetime, call).0.users, Exec(clean, lifetime, call).0.users)
    ensures Exec(clean, lifetime, call).0.pending == Exec(full, lifetime, call).0.pending
    ensures Shadow(clean, lifetime, call) == Shadow(full, lifetime, call)
  {
    hide FindByEmail, LoginCall, AllSameColumns;
    TwinsFind(full, clean, call.at, call.email);
    assert call.minted !in clean.tokens;
    TwinLoginCall(full, clean, lifetime, call.at, call.email, call.password, call.minted);
    hide Store, Sessions.Matches;
  }

  lemma TwinLoginCall(full: Db, clean: Db, lifetime: int, now: Time, email: string, password: nat, minted: Token)
    requires AllSameColumns(full.users, clean.users)
             && FindByEmail(full.users, email) == FindByEmail(clean.users, email)
    requires minted !in full.tokens && minted !in clean.tokens && full.pending == clean.pending
    ensures LoginCall(clean, lifetime, now, email, password, minted).0.pending
            == LoginCall(full, lifetime, now, email, password, minted).0.pending
    ensures LoginCall(clean, lifetime, now, email, password, minted).1
            == LoginCall(full, lifetime, now, email, password, minted).1
    ensures AllSameColumns(LoginCall(full, lifetime, now, email, password, minted).0.users,
                           LoginCall(clean, lifetime, now, email, password, minted).0.users)
  {
    hide FindByEmail, Sessions.Mint, SessionView, Lockout.Login;
    TwinLoginUsers(full, clean, lifetime, now, email, password, minted);
    hide AllSameColumns;
    TwinLoginReplies(full, clean, lifetime, now, email, password, minted);
    hide LoginCall;
  }

  lemma TwinLoginReplies(full: Db, clean: Db, lifetime: int, now: Time, email: string, password: nat, minted: Token)
    requires AllSameColumns(full.users, clean.users)
             && FindByEmail(full.users, email) == FindByEmail(clean.users, email)
    requires minted !in full.tokens && minted !in clean.tokens && full.pending == clean.pending
    ensures LoginCall(clean, lifetime, now, email, password, minted).0.pending
            == LoginCall(full, lifetime, now, email, password, minted).0.pending
    ensures LoginCall(clean, lifetime, now, email, password, minted).1
            == LoginCall(full, lifetime, now, email, password, minted).1
  {
    hide FindByEmail, Sessions.Mint, SessionView, Lockout.Login;
    MintsPair(minted, full.tokens);
    MintsPair(minted, clean.tokens);
  }

  lemma TwinLoginUsers(full: Db, clean: Db, lifetime: int, now: Time, email: string, password: nat, minted: Token)
    requires AllSameColumns(full.users, clean.users)
             && FindByEmail(full.users, email) == FindByEmail(clean.users, email)
    ensures AllSameColumns(LoginCall(full, lifetime, now, email, password, minted).0.users,
                           LoginCall(clean, lifetime, now, email, password, minted).0.users)
  {
    hide FindByEmail, Sessions.Mint, SessionView, Lockout.Login;
  }

  lemma MintsPair(minted: Token, tokens: Tokens)
    requires minted !in tokens
    ensures forall users, user, expiresAt ::
            Sessions.Mint(SessionView(users, tokens), user, minted, expiresAt).1 == Sessions.Pair(minted)
  {
  }

  lemma TwinsFind(full: Db, clean: Db, now: Time, email: string)
    requires Twins(full, clean, now)
    ensures FindByEmail(clean.users, email) == FindByEmail(full.users, email)
  {
    StoreOfTokens(full.users, full.tokens, map[]);
    StoreOfTokens(clean.users, clean.tokens, map[]);
    Sessions.SameCandidates(Store(full), Store(clean), now, email, Sessions.Sha256(0));
    hide Sessions.ByEmail, Sessions.Matches;
  }

  lemma TwinOtp(full: Db, clean: Db, call: Call)
    requires AllSameColumns(full.users, clean.users) && (call.SendOtp? || call.VerifyOtp?)
    ensures OtpCall(clean, call).1 == OtpCall(full, call).1
    ensures AllSameColumns(OtpCall(full, call).0.users, OtpCall(clean, call).0.users)
  {
    hide PhoneOtp.SendOtp, PhoneOtp.VerifyOtp;
  }

  lemma TwinAccounts(full: Db, clean: Db, lifetime: int, call: Call)
    requires AllSameColumns(full.users, clean.users) && (call.Register? || call.SoftDelete?)
    ensures Exec(clean, lifetime, call).1 == Exec(full, lifetime, call).1
    ensures AllSameColumns(Exec(full, lifetime, call).0.users, Exec(clean, lifetime, call).0.users)
  {
    assert forall u | u in full.users :: clean.users[u].email == full.users[u].email;
  }

  lemma TwinRehash(full: Db, clean: Db, user: UserId, password: nat)
    requires AllSameColumns(full.users, clean.users) && full.pending == clean.pending
    ensures AllSameColumns(RehashCall(full, user, password).users, RehashCall(clean, user, password).users)
    ensures RehashCall(full, user, password).pending == RehashCall(clean, user, password).pending
  {
  }

  lemma TwinEmail(full: Db, clean: Db, call: EmailChange.Call)
    requires AllSameColumns(full.users, clean.users) && !call.RegisterCall? && !call.DeleteCall?
    ensures ExecEmail(clean, call).1 == ExecEmail(full, call).1
    ensures AllSameColumns(ExecEmail(full, call).0.users, ExecEmail(clean, call).0.users)
  {
    assert EmailView(clean.users) == EmailView(full.users);
    EmailExecKeeps(EmailView(full.users), call);
    hide EmailChange.Exec, EmailView;
  }

  lemma TwinSession(full: Db, clean: Db, call: Sessions.Call, password: nat)
    requires Twins(full, clean, call.at)
    requires call.Refresh? || call.Logout? || call.ForgotPassword? || call.ResetPassword?
    requires call.Refresh? ==> call.minted !in full.tokens
    ensures ExecSession(clean, call, password).1 == ExecSession(full, call, password).1
    ensures AllSameColumns(ExecSession(full, call, password).0.users, ExecSession(clean, call, password).0.users)
  {
    if call.Refresh? || call.Logout? {
      Sessions.SessionCallMatches(Store(full), Store(clean), call);
    } else {
      Sessions.AccountCallMatches(Store(full), Store(clean), call);
    }
    hide Sessions.Exec, Sessions.Matches, Store;
    var ((full', reply), clean') := (Sessions.Exec(Store(full), call), Sessions.Exec(Store(clean), call).0);
    StoreIsView(full);
    StoreIsView(clean);
    ResetColumns(full.users, clean.users, full'.accounts, clean'.accounts);
    hide SessionView, WithResets, AllSameColumns;
    var (users, users') := (WithResets(full.users, full'.accounts), WithResets(clean.users, clean'.accounts));
    SameUsers(users, users');
    if reply.PasswordChanged? && reply.user in users { PasswordColumns(users, users', reply.user, password); }
  }

  lemma StoreIsView(db: Db)
    ensures Store(db) == SessionView(db.users, db.tokens)
  {
  }

  lemma SameUsers(full: Users, clean: Users)
    requires AllSameColumns(full, clean)
    ensures full.Keys == clean.Keys
  {
  }

  lemma ResetColumns(full: Users, clean: Users, a: map<UserId, Sessions.Account>, b: map<UserId, Sessions.Account>)
    requires AllSameColumns(full, clean)
    ensures AllSameColumns(WithResets(full, a), WithResets(clean, b))
  {
  }

  lemma PasswordColumns(full: Users, clean: Users, user: UserId, password: nat)
    requires AllSameColumns(full, clean) && user in full && user in clean
    ensures AllSameColumns(WithPassword(full, user, password), WithPassword(clean, user, password))
  {
  }

  /** A call whose tokens are new is answered alike by both, and keeps them twins. */
  lemma CallTwins(full: Db, clean: Db, lifetime: int, call: Call)
    requires Twins(full, clean, call.at) && !CleanupCall(call)
    requires call.Login? || call.Refresh? ==> call.minted !in full.tokens
    ensures Exec(clean, lifetime, call).1 == Exec(full, lifetime, call).1
    ensures Twins(Exec(full, lifetime, call).0, Exec(clean, lifetime, call).0, call.at)
  {
    CallColumns(full, clean, lifetime, call);
    StoreStep(full, lifetime, call);
    StoreStep(clean, lifetime, call);
    ShadowKind(full, lifetime, call);
    assert Store(full).tokens == full.tokens;
    var shadow := Shadow(full, lifetime, call);
    hide Exec, Shadow, Store, Sessions.Exec, Sessions.Matches, SameColumns;
    if shadow.Some? {
      if shadow.value.IssuePair? || shadow.value.Refresh? || shadow.value.Logout? {
        Sessions.SessionCallMatches(Store(full), Store(clean), shadow.value);
      } else {
        Sessions.AccountCallMatches(Store(full), Store(clean), shadow.value);
      }
    }
  }

  lemma ShadowKind(db: Db, lifetime: int, call: Call)
    requires !CleanupCall(call)
    ensures var shadow := Shadow(db, lifetime, call);
            shadow.Some? ==>
              && shadow.value.at == call.at && !Sessions.Cleanup(shadow.value)
              && (shadow.value.IssuePair? ==> call.Login? && shadow.value.minted == call.minted)
              && (shadow.value.Refresh? ==> call.Refresh? && shadow.value.minted == call.minted)
  {
    hide Exec;
  }

  lemma CallColumns(full: Db, clean: Db, lifetime: int, call: Call)
    requires Twins(full, clean, call.at) && !CleanupCall(call)
    requires call.Login? || call.Refresh? ==> call.minted !in full.tokens
    ensures Exec(clean, lifetime, call).1 == Exec(full, lifetime, call).1
    ensures AllSameColumns(Exec(full, lifetime, call).0.users, Exec(clean, lifetime, call).0.users)
    ensures Exec(clean, lifetime, call).0.pending == Exec(full, lifetime, call).0.pending
    ensures Shadow(clean, lifetime, call) == Shadow(full, lifetime, call)
  {
    hide LoginCall, OtpCall, ExecSession, ExecEmail, Sessions.Matches, Store, FindByEmail;
    assert AllSameColumns(full.users, clean.users);
    if !call.Login? && !call.Rehash? {
      PendingStays(full, lifetime, call);
      PendingStays(clean, lifetime, call);
    }
    if call.Login? {
      TwinLogin(full, clean, lifetime, call);
    } else if call.Register? || call.SoftDelete? {
      TwinAccounts(full, clean, lifetime, call);
    } else if call.SendOtp? || call.VerifyOtp? {
      TwinOtp(full, clean, call);
    } else if SessionCall(lifetime, call).Some? {
      TwinSession(full, clean, SessionCall(lifetime, call).value, if call.ResetPassword? then call.password else 0);
    } else if call.Rehash? {
      TwinRehash(full, clean, call.user, call.password);
    } else {
      TwinEmail(full, clean, EmailCall(call).value);
    }
  }

  lemma CleanupKeepsTwins(full: Db, clean: Db, lifetime: int, call: Call)
    requires Twins(full, clean, call.at) && CleanupCall(call)
    ensures Twins(full, Exec(clean, lifetime, call).0, call.at)
  {
    hide Exec, Sessions.Exec, Sessions.Matches, Store, ExecSession, AllSameColumns, Shadow;
    var session := SessionCall(lifetime, call).value;
    CleanupIsSession(clean, lifetime, call);
    StoreStep(clean, lifetime, call);
    Sessions.CleanupKeepsMatch(Store(full), Store(clean), session);
    CleanupColumns(clean, session);
    PendingStays(clean, lifetime, call);
    SameColumnsChain(full.users, clean.users, ExecSession(clean, session, 0).0.users);
  }

  lemma CleanupIsSession(db: Db, lifetime: int, call: Call)
    requires CleanupCall(call)
    ensures Exec(db, lifetime, call) == ExecSession(db, SessionCall(lifetime, call).value, 0)
    ensures Shadow(db, lifetime, call) == SessionCall(lifetime, call)
  {
    hide ExecSession;
  }

  lemma SameColumnsChain(a: Users, b: Users, c: Users)
    requires AllSameColumns(a, b) && AllSameColumns(b, c)
    ensures AllSameColumns(a, c)
  {
  }

  lemma CleanupColumns(db: Db, call: Sessions.Call)
    requires Sessions.Cleanup(call)
    ensures AllSameColumns(db.users, ExecSession(db, call, 0).0.users)
  {
  }

  /** The answers along a run, clean-up jobs aside. */
  ghost function Replies(db: Db, lifetime: int, calls: seq<Call>): seq<Reply>
    decreases |calls|
  {
    if calls == [] then [] else
    var (db', reply) := Exec(db, lifetime, calls[0]);
    (if CleanupCall(calls[0]) then [] else [reply]) + Replies(db', lifetime, calls[1..])
  }

  function WithoutCleanup(calls: seq<Call>): seq<Call> {
    if calls == [] then [] else (if CleanupCall(calls[0]) then [] else [calls[0]]) + WithoutCleanup(calls[1..])
  }

  predicate InOrder(start: Time, calls: seq<Call>)
    decreases |calls|
  {
    calls != [] ==> start <= calls[0].at && InOrder(calls[0].at, calls[1..])
  }

  /** Every refresh token drawn along the run is new. */
  ghost predicate FreshTokens(db: Db, lifetime: int, calls: seq<Call>)
    decreases |calls|
  {
    calls != [] ==>
      && (calls[0].Login? || calls[0].Refresh? ==> calls[0].minted !in db.tokens)
      && FreshTokens(Exec(db, lifetime, calls[0]).0, lifetime, calls[1..])
  }

  lemma TwinsLater(full: Db, clean: Db, now: Time, later: Time)
    requires Twins(full, clean, now) && now <= later
    ensures Twins(full, clean, later)
  {
    Sessions.MatchesLater(Store(full), Store(clean), now, later);
    hide Sessions.Matches, Store;
  }

  /**
    The clean-up jobs are invisible to the whole service: run at arbitrary moments, they change no answer of any call,
    be it a login, a refresh, a code, a password reset or an address change.
   */
  lemma {:induction false} CleanupIsInvisibleToAll(full: Db, clean: Db, lifetime: int, calls: seq<Call>, now: Time)
    requires Twins(full, clean, now) && InOrder(now, calls) && FreshTokens(full, lifetime, WithoutCleanup(calls))
    ensures Replies(clean, lifetime, calls) == Replies(full, lifetime, WithoutCleanup(calls))
    decreases |calls|
  {
    hide Exec, Twins;
    if calls != [] {
      var (call, rest) := (calls[0], calls[1..]);
      var kept := WithoutCleanup(rest);
      TwinsLater(full, clean, now, call.at);
      if CleanupCall(call) {
        assert WithoutCleanup(calls) == kept;
        CleanupKeepsTwins(full, clean, lifetime, call);
        CleanupIsInvisibleToAll(full, Exec(clean, lifetime, call).0, lifetime, rest, call.at);
      } else {
        assert WithoutCleanup(calls) == [call] + kept;
        assert ([call] + kept)[0] == call && ([call] + kept)[1..] == kept;
        CallTwins(full, clean, lifetime, call);
        CleanupIsInvisibleToAll(Exec(full, lifetime, call).0, Exec(clean, lifetime, call).0, lifetime, rest, call.at);
      }
    }
  }

  // ----- A reset undone -----

  /**
    It happens, with calls that do not overlap: a student with a costly hash logs in, resets the password, logs in with
    the new one, and the re-hash of the first login lands. The new session is live, and the old password is in force.
   */
  lemma ResetCanBeUndone(lifetime: int)
    ensures var u := Newcomer("a", 1, 12).(resetToken := Some(Sessions.Sha256(5)), resetExpiry := Some(100));
            var init := Db(map[7 := u], map[], multiset{});
            var calls := [Login(10, "a", 1, 11), ResetPassword(20, 5, 2), Login(30, "a", 2, 12), Rehash(40, 7, 1)];
            && OnePending(init, 7) && Live(Before(init, lifetime, calls, 4).tokens, 12, 7)
            && ReplyTo(init, lifetime, calls, 1) == SessionReply(Sessions.PasswordChanged(7))
            && 7 in Before(init, lifetime, calls, 4).users && Before(init, lifetime, calls, 4).users[7].password == 1
  {
    var u := Newcomer("a", 1, 12).(resetToken := Some(Sessions.Sha256(5)), resetExpiry := Some(100));
    var init := Db(map[7 := u], map[], multiset{});
    var calls := [Login(10, "a", 1, 11), ResetPassword(20, 5, 2), Login(30, "a", 2, 12), Rehash(40, 7, 1)];
    assert Before(init, lifetime, calls, 0) == init;
    LoneLogin(init, lifetime, u, calls[0]);
    var db1 := Db(map[7 := u], map[11 := Sessions.RefreshToken(7, 10 + lifetime, None)], multiset{Rehashing(7, 1)});
    assert Before(init, lifetime, calls, 1) == db1;
    LoneReset(db1, lifetime, u, calls[1]);
    var v := u.(password := 2, cost := BCRYPT_ROUNDS, resetToken := None, resetExpiry := None);
    var db2 := Before(init, lifetime, calls, 2);
    assert db2 == Exec(db1, lifetime, calls[1]).0;
    LoneLogin(db2, lifetime, v, calls[2]);
    var db3 := Before(init, lifetime, calls, 3);
    assert db3 == Exec(db2, lifetime, calls[2]).0;
    assert Before(init, lifetime, calls, 4) == Exec(db3, lifetime, calls[3]).0;
  }

  lemma LoneLogin(db: Db, lifetime: int, u: User, call: Call)
    requires db.users == map[7 := u] && !u.deleted && u.guard == Lockout.OPEN_GUARD
    requires call.Login? && call.email == u.email && call.password == u.password && call.minted !in db.tokens
    ensures Exec(db, lifetime, call).0
         == Db(db.users, db.tokens[call.minted := Sessions.RefreshToken(7, call.at + lifetime, None)],
               db.pending + Started(7, u))
  {
    assert Sessions.ByEmail(SessionView(db.users, map[]).accounts, call.email) == {7};
    assert FindByEmail(db.users, call.email) == Some(7);
    assert db.users[7 := u] == db.users;
    hide FindByEmail;
  }

  lemma LoneReset(db: Db, lifetime: int, u: User, call: Call)
    requires db.users == map[7 := u] && !u.deleted && u.guard == Lockout.OPEN_GUARD && call.ResetPassword?
    requires u.resetToken == Some(Sessions.Sha256(call.token)) && u.resetExpiry.Some? && u.resetExpiry.value > call.at
    ensures var v := u.(password := call.password, cost := BCRYPT_ROUNDS, resetToken := None, resetExpiry := None);
            var db' := Exec(db, lifetime, call).0;
            && db'.users == map[7 := v] && db'.tokens.Keys == db.tokens.Keys && db'.pending == db.pending
            && Exec(db, lifetime, call).1 == SessionReply(Sessions.PasswordChanged(7))
  {
    var store := SessionView(db.users, db.tokens);
    assert Sessions.ByResetToken(store.accounts, Sessions.Sha256(call.token), call.at) == {7};
    assert Sessions.FindFirst(Sessions.ByResetToken(store.accounts, Sessions.Sha256(call.token), call.at)) == Some(7);
  }
}

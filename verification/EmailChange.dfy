/**
  The four-step e-mail change (`requestEmailChange`, `verifyCurrentEmailOtp`, `setNewEmail`, `confirmNewEmail` in
  `auth/auth.service.ts`). One set of OTP columns serves both the old and the new address.
 */
module EmailChange {
  import opened Prelude

  const OTP_COOLDOWN_MS: nat := 60 * 1000
  const OTP_EXPIRY_MS: nat := 10 * 60 * 1000
  const TOKEN_EXPIRY_MS: nat := 15 * 60 * 1000
  const MAX_ATTEMPTS: nat := 5

  type UserId = nat
  type Email = string
  type Token = nat

  /** A stored digest; distinct tokens have distinct digests. */
  datatype Digest = Sha256(raw: Token)

  datatype Change = Change(
    token: Option<Digest>, tokenExpiry: Option<Time>, pending: Option<Email>,
    otp: Option<nat>, otpExpiry: Option<Time>, otpSentAt: Option<Time>, attempts: nat)

  const NO_CHANGE := Change(None, None, None, None, None, None, 0)

  datatype Account = Account(email: Email, deleted: bool, change: Change)

  type Accounts = map<UserId, Account>

  datatype Refusal =
    | UserNotFound | PleaseWait(seconds: int) | NotRequested | OtpExpired | TooManyAttempts | InvalidOtp
    | NoSession | InvalidToken | SessionExpired | EmailInUse | NothingPending | NoOtp | EmailJustTaken
    | ConstraintViolation

  datatype Reply = Done | TokenIssued(token: Token) | Changed | Refused(why: Refusal)

  function LowerChar(c: char): char {
    if 'A' <= c <= 'Z' then c - 'A' + 'a' else c
  }

  function Lower(s: string): (r: string)
    ensures |r| == |s|
  {
    seq(|s|, i requires 0 <= i < |s| => LowerChar(s[i]))
  }

  predicate Live(accounts: Accounts, user: UserId) {
    user in accounts && !accounts[user].deleted
  }

  /** `findFirst({ email, deletedAt: null })`, optionally passing over one account. */
  predicate InUse(accounts: Accounts, email: Email, except: Option<UserId>) {
    exists u | u in accounts :: !accounts[u].deleted && accounts[u].email == email && except != Some(u)
  }

  /** The unique index on `email` spans deleted accounts too. */
  predicate Indexed(accounts: Accounts, email: Email, except: UserId) {
    exists u | u in accounts :: accounts[u].email == email && u != except
  }

  predicate Past(expiry: Option<Time>, now: Time) {
    expiry.Some? && expiry.value < now
  }

  function WithChange(accounts: Accounts, user: UserId, change: Change): Accounts
    requires user in accounts
  {
    accounts[user := accounts[user].(change := change)]
  }

  function DropOtp(c: Change): Change {
    c.(otp := None, otpExpiry := None, attempts := 0)
  }

  function Request(accounts: Accounts, user: UserId, now: Time, otp: nat): (Accounts, Reply) {
    if !Live(accounts, user) then (accounts, Refused(UserNotFound)) else
    var c := accounts[user].change;
    if c.otpSentAt.Some? && now - c.otpSentAt.value < OTP_COOLDOWN_MS then
      (accounts, Refused(PleaseWait((OTP_COOLDOWN_MS - (now - c.otpSentAt.value) + 999) / 1000)))
    else
      (WithChange(accounts, user, Change(None, None, None, Some(otp), Some(now + OTP_EXPIRY_MS), Some(now), 0)), Done)
  }

  function VerifyCurrent(accounts: Accounts, user: UserId, now: Time, matches: bool, minted: Token): (Accounts, Reply) {
    if !Live(accounts, user) then (accounts, Refused(UserNotFound)) else
    var c := accounts[user].change;
    if c.otp.None? then (accounts, Refused(NotRequested))
    else if Past(c.otpExpiry, now) then (accounts, Refused(OtpExpired))
    else if c.attempts >= MAX_ATTEMPTS then (WithChange(accounts, user, DropOtp(c)), Refused(TooManyAttempts))
    else if !matches then (WithChange(accounts, user, c.(attempts := c.attempts + 1)), Refused(InvalidOtp))
    else (WithChange(accounts, user,
                     DropOtp(c).(token := Some(Sha256(minted)), tokenExpiry := Some(now + TOKEN_EXPIRY_MS),
                         otpSentAt := None)),
          TokenIssued(minted))
  }

  function SetNew(accounts: Accounts, user: UserId, now: Time, token: Token, newEmail: Email,
      otp: nat): (Accounts, Reply) {
    if !Live(accounts, user) then (accounts, Refused(UserNotFound)) else
    var c := accounts[user].change;
    if c.token.None? then (accounts, Refused(NoSession))
    else if c.token != Some(Sha256(token)) then (accounts, Refused(InvalidToken))
    else if Past(c.tokenExpiry, now) then (accounts, Refused(SessionExpired))
    else if InUse(accounts, Lower(newEmail), None) then (accounts, Refused(EmailInUse))
    else (WithChange(accounts, user,
                     c.(pending := Some(Lower(newEmail)), otp := Some(otp), otpExpiry := Some(now + OTP_EXPIRY_MS),
                        otpSentAt := Some(now), attempts := 0)),
          Done)
  }

  /** The last step of a confirmation: the address must still be free. */
  function Finish(accounts: Accounts, user: UserId, email: Email): (Accounts, Reply)
    requires user in accounts
  {
    if InUse(accounts, email, Some(user)) then (WithChange(accounts, user, NO_CHANGE), Refused(EmailJustTaken))
    else if Indexed(accounts, email, user) then (accounts, Refused(ConstraintViolation))
    else (accounts[user := accounts[user].(email := email, change := NO_CHANGE)], Changed)
  }

  function Confirm(accounts: Accounts, user: UserId, now: Time, token: Token, matches: bool): (Accounts, Reply) {
    if !Live(accounts, user) then (accounts, Refused(UserNotFound)) else
    var c := accounts[user].change;
    if c.token.None? || c.pending.None? then (accounts, Refused(NothingPending))
    else if c.token != Some(Sha256(token)) then (accounts, Refused(InvalidToken))
    else if Past(c.tokenExpiry, now) then (accounts, Refused(SessionExpired))
    else if c.otp.None? then (accounts, Refused(NoOtp))
    else if Past(c.otpExpiry, now) then (accounts, Refused(OtpExpired))
    else if c.attempts >= MAX_ATTEMPTS then (WithChange(accounts, user, DropOtp(c)), Refused(TooManyAttempts))
    else if !matches then (WithChange(accounts, user, c.(attempts := c.attempts + 1)), Refused(InvalidOtp))
    else Finish(accounts, user, c.pending.value)
  }

  /** The four steps, and the two outside events that decide whether an address is free. */
  datatype Call =
    | RequestCall(user: UserId, at: Time, otp: nat)
    | VerifyCall(user: UserId, at: Time, matches: bool, minted: Token)
    | SetNewCall(user: UserId, at: Time, token: Token, newEmail: Email, otp: nat)
    | ConfirmCall(user: UserId, at: Time, token: Token, matches: bool)
    | RegisterCall(user: UserId, at: Time, email: Email)
    | DeleteCall(user: UserId, at: Time)

  function Exec(accounts: Accounts, call: Call): (Accounts, Reply) {
    match call
    case RequestCall(u, at, otp) => Request(accounts, u, at, otp)
    case VerifyCall(u, at, matches, minted) => VerifyCurrent(accounts, u, at, matches, minted)
    case SetNewCall(u, at, token, newEmail, otp) => SetNew(accounts, u, at, token, newEmail, otp)
    case ConfirmCall(u, at, token, matches) => Confirm(accounts, u, at, token, matches)
    case RegisterCall(u, _, email) =>
      if u in accounts || Indexed(accounts, email, u) then (accounts, Refused(EmailInUse))
      else (accounts[u := Account(email, false, NO_CHANGE)], Done)
    case DeleteCall(u, _) =>
      if Live(accounts, u) then (accounts[u := accounts[u].(deleted := true)], Done)
        else (accounts, Refused(UserNotFound))
  }

  /** The accounts just before call number `n` of the run. */
  function Before(init: Accounts, calls: seq<Call>, n: nat): Accounts
    requires n <= |calls|
  {
    if n == 0 then init else Exec(Before(init, calls, n - 1), calls[n - 1]).0
  }

  function ReplyTo(init: Accounts, calls: seq<Call>, n: nat): Reply
    requires n < |calls|
  {
    Exec(Before(init, calls, n), calls[n]).1
  }

  /** Call `n` is a verification by `user` that handed out `token`. */
  predicate Issues(init: Accounts, calls: seq<Call>, n: nat, user: UserId, token: Token) {
    n < |calls| && calls[n].VerifyCall? && calls[n].user == user && ReplyTo(init, calls, n) == TokenIssued(token)
  }

  /** Call `n` is a successful `setNewEmail` by `user`. */
  predicate Submits(init: Accounts, calls: seq<Call>, n: nat, user: UserId) {
    n < |calls| && calls[n].SetNewCall? && calls[n].user == user && ReplyTo(init, calls, n) == Done
  }

  /** Where an OTP held together with a change token came from: the latest `setNewEmail`, made under that token. */
  ghost predicate PendingFrom(init: Accounts, calls: seq<Call>, n: nat, user: UserId, c: Change, submitted: nat)
    requires n <= |calls|
  {
    && submitted < n && Submits(init, calls, submitted, user)
    && c.token == Some(Sha256(calls[submitted].token))
    && c.pending == Some(Lower(calls[submitted].newEmail))
    && c.otpExpiry == Some(calls[submitted].at + OTP_EXPIRY_MS)
    && forall k | submitted < k < n :: !Submits(init, calls, k, user)
  }

  ghost predicate TokenFrom(init: Accounts, calls: seq<Call>, n: nat, user: UserId, c: Change, issued: nat)
    requires n <= |calls|
  {
    && issued < n && calls[issued].VerifyCall?
    && c.token == Some(Sha256(calls[issued].minted)) && Issues(init, calls, issued, user, calls[issued].minted)
    && c.tokenExpiry == Some(calls[issued].at + TOKEN_EXPIRY_MS)
    && (c.otp.Some? ==> exists submitted :: issued < submitted && PendingFrom(init, calls, n, user, c, submitted))
  }

  /** Every change token on record comes from a verification in the run. */
  ghost predicate Sourced(init: Accounts, calls: seq<Call>, n: nat, user: UserId)
    requires n <= |calls|
  {
    var accounts := Before(init, calls, n);
    user in accounts && accounts[user].change.token.Some? ==>
      exists issued :: TokenFrom(init, calls, n, user, accounts[user].change, issued)
  }

  ghost predicate NoneInProgress(accounts: Accounts) {
    forall u | u in accounts :: accounts[u].change.token.None?
  }

  /** The token and the live OTP of `c'` are those of `c`. */
  predicate Inherits(c: Change, c': Change) {
    && c'.token == c.token && c'.tokenExpiry == c.tokenExpiry
    && (c'.otp.Some? ==> c.otp.Some? && c'.pending == c.pending && c'.otpExpiry == c.otpExpiry)
  }

  lemma SourceKept(init: Accounts, calls: seq<Call>, n: nat, m: nat, user: UserId, c: Change, c': Change, issued: nat)
    requires n < |calls| && m == n + 1 && !Submits(init, calls, n, user) && Inherits(c, c')
    requires TokenFrom(init, calls, n, user, c, issued)
    ensures TokenFrom(init, calls, m, user, c', issued)
  {
    hide Submits, Issues;
    if c'.otp.Some? {
      var submitted :| issued < submitted && PendingFrom(init, calls, n, user, c, submitted);
      assert PendingFrom(init, calls, m, user, c', submitted);
    }
  }

  lemma SourceRenewed(init: Accounts, calls: seq<Call>, n: nat, m: nat, user: UserId, c: Change, c': Change,
      issued: nat)
    requires n < |calls| && m == n + 1 && Submits(init, calls, n, user)
    requires TokenFrom(init, calls, n, user, c, issued)
    requires c'.token == c.token == Some(Sha256(calls[n].token)) && c'.tokenExpiry == c.tokenExpiry
    requires c'.pending == Some(Lower(calls[n].newEmail)) && c'.otpExpiry == Some(calls[n].at + OTP_EXPIRY_MS)
    ensures TokenFrom(init, calls, m, user, c', issued)
  {
    hide ReplyTo, Lower;
    assert PendingFrom(init, calls, m, user, c', n);
  }

  /** What a call can do to the change columns of a user who holds a token afterwards. */
  lemma TokenEffectsInRun(init: Accounts, calls: seq<Call>, n: nat, m: nat, user: UserId)
    requires n < |calls| && m == n + 1
    requires user in Before(init, calls, m) && Before(init, calls, m)[user].change.token.Some?
    ensures user in Before(init, calls, n)
    ensures var (c, c', call) := (Before(init, calls, n)[user].change, Before(init, calls, m)[user].change, calls[n]);
            if call.VerifyCall? && Issues(init, calls, n, user, call.minted) then
              c'.token == Some(Sha256(call.minted)) && c'.tokenExpiry == Some(call.at + TOKEN_EXPIRY_MS) && c'.otp.None?
            else if Submits(init, calls, n, user) then
              && c'.token == c.token == Some(Sha256(call.token)) && c'.tokenExpiry == c.tokenExpiry
              && c'.pending == Some(Lower(call.newEmail)) && c'.otpExpiry == Some(call.at + OTP_EXPIRY_MS)
            else Inherits(c, c')
  {
  }

  lemma StepSourced(init: Accounts, calls: seq<Call>, n: nat, m: nat, user: UserId)
    requires n < |calls| && m == n + 1 && Sourced(init, calls, n, user)
    ensures Sourced(init, calls, m, user)
  {
    hide Before, Issues, Submits, Lower, PendingFrom;
    if user in Before(init, calls, m) && Before(init, calls, m)[user].change.token.Some? {
      TokenEffectsInRun(init, calls, n, m, user);
      var (c, c', call) := (Before(init, calls, n)[user].change, Before(init, calls, m)[user].change, calls[n]);
      if call.VerifyCall? && Issues(init, calls, n, user, call.minted) {
        assert TokenFrom(init, calls, m, user, c', n);
      } else {
        assert c.token.Some?;
        var issued :| TokenFrom(init, calls, n, user, c, issued);
        if Submits(init, calls, n, user) {
          SourceRenewed(init, calls, n, m, user, c, c', issued);
        } else {
          SourceKept(init, calls, n, m, user, c, c', issued);
        }
      }
    }
  }

  lemma {:induction false} RunSourced(init: Accounts, calls: seq<Call>, n: nat, user: UserId)
    requires n <= |calls| && NoneInProgress(init)
    ensures Sourced(init, calls, n, user)
  {
    if n > 0 {
      RunSourced(init, calls, n - 1, user);
      StepSourced(init, calls, n - 1, n, user);
    }
  }

  /** A call that changes an existing account's address is a confirmation by its owner that passed every check. */
  lemma OnlyConfirmChanges(accounts: Accounts, call: Call, user: UserId)
    requires user in accounts
    ensures var (accounts', reply) := Exec(accounts, call);
            && user in accounts'
            && (accounts'[user].email != accounts[user].email ==>
                call.ConfirmCall? && call.user == user && reply == Changed)
            && (call.ConfirmCall? && call.user == user && reply == Changed ==>
                  var c := accounts[user].change;
                  && call.matches && c.token == Some(Sha256(call.token)) && !Past(c.tokenExpiry, call.at)
                  && c.otp.Some? && !Past(c.otpExpiry, call.at)
                  && c.pending == Some(accounts'[user].email))
  {
  }

  /**
    Call `n` confirms, with the right code and in time, the address of the latest `setNewEmail` under a verified
    token.
   */
  ghost predicate ConfirmsLatest(init: Accounts, calls: seq<Call>, n: nat, user: UserId, issued: nat, submitted: nat,
      email: Email)
    requires n < |calls|
  {
    && calls[n].ConfirmCall? && calls[n].user == user && calls[n].matches
    && issued < submitted < n && calls[issued].VerifyCall? && calls[issued].matches
    && Issues(init, calls, issued, user, calls[n].token) && calls[n].at <= calls[issued].at + TOKEN_EXPIRY_MS
    && Submits(init, calls, submitted, user) && calls[submitted].token == calls[n].token
    && calls[n].at <= calls[submitted].at + OTP_EXPIRY_MS
    && (forall k | submitted < k < n :: !Submits(init, calls, k, user))
    && email == Lower(calls[submitted].newEmail)
  }

  /** Call `n` is a confirmation by `user` that was answered with success. */
  predicate Confirms(init: Accounts, calls: seq<Call>, n: nat, user: UserId) {
    n < |calls| && calls[n].ConfirmCall? && calls[n].user == user && ReplyTo(init, calls, n) == Changed
  }

  lemma ConfirmationOrigin(init: Accounts, calls: seq<Call>, n: nat, user: UserId, email: Email)
    requires Confirms(init, calls, n, user) && Sourced(init, calls, n, user) && user in Before(init, calls, n)
             && calls[n].matches
    requires var c := Before(init, calls, n)[user].change;
             && c.token == Some(Sha256(calls[n].token)) && !Past(c.tokenExpiry, calls[n].at)
             && c.otp.Some? && !Past(c.otpExpiry, calls[n].at) && c.pending == Some(email)
    ensures exists issued, submitted :: ConfirmsLatest(init, calls, n, user, issued, submitted, email)
  {
    hide Before, Submits, Issues, ReplyTo, Lower;
    var c := Before(init, calls, n)[user].change;
    var issued :| TokenFrom(init, calls, n, user, c, issued);
    var submitted :| issued < submitted && PendingFrom(init, calls, n, user, c, submitted);
    IssuedToken(init, calls, issued, user);
    assert ConfirmsLatest(init, calls, n, user, issued, submitted, email);
  }

  lemma IssuedToken(init: Accounts, calls: seq<Call>, n: nat, user: UserId)
    requires n < |calls| && calls[n].VerifyCall? && Issues(init, calls, n, user, calls[n].minted)
    ensures calls[n].matches && forall t | Issues(init, calls, n, user, t) :: t == calls[n].minted
  {
  }

  /**
    Over every run of the four steps, in any order, by any users, with failures, lockouts and restarts: if some call
    changes an account's address, or answers its owner that it did, that call is the owner's confirmation with a right
    code under a change token; that token was issued by a verification of the owner, with a right code too, no more than
    fifteen minutes before; and the address is the one given to the owner's latest `setNewEmail`, made after that
    verification, under the same token, no more than ten minutes before.
   */
  lemma EmailChangeOrigin(init: Accounts, calls: seq<Call>, n: nat, m: nat, user: UserId)
    requires n < |calls| && m == n + 1 && NoneInProgress(init)
    requires user in Before(init, calls, n)
    ensures user in Before(init, calls, m)
    ensures Before(init, calls, m)[user].email != Before(init, calls, n)[user].email ==> Confirms(init, calls, n, user)
    ensures Confirms(init, calls, n, user) ==>
              exists issued, submitted ::
                ConfirmsLatest(init, calls, n, user, issued, submitted, Before(init, calls, m)[user].email)
  {
    RunSourced(init, calls, n, user);
    var accounts := Before(init, calls, n);
    OnlyConfirmChanges(accounts, calls[n], user);
    assert Before(init, calls, m) == Exec(accounts, calls[n]).0;
    assert ReplyTo(init, calls, n) == Exec(accounts, calls[n]).1;
    hide Exec, Before, ReplyTo, Sourced, ConfirmsLatest;
    if Confirms(init, calls, n, user) {
      ConfirmationOrigin(init, calls, n, user, Before(init, calls, m)[user].email);
    }
  }

  // ----- What decides each step -----

  /** Addresses are compared in lower case: ASCII capitals are replaced by their small letters, all else is kept. */
  lemma LoweringFolds(s: Email, i: nat)
    requires i < |s|
    ensures Lower(s)[i] == if 'A' <= s[i] <= 'Z' then (s[i] as int + 32) as char else s[i]
    ensures !('A' <= Lower(s)[i] <= 'Z') && Lower(Lower(s)) == Lower(s)
  {
  }

  /** None of the four steps does anything for a missing or deleted account. */
  lemma OnlyForLiveAccounts(accounts: Accounts, call: Call)
    requires !call.RegisterCall? && !call.DeleteCall?
    requires call.user !in accounts || accounts[call.user].deleted
    ensures Exec(accounts, call) == (accounts, Refused(UserNotFound))
  {
  }

  /** A code is on record that may still be tried. */
  predicate CodeAlive(c: Change, now: Time) {
    c.otp.Some? && (c.otpExpiry.Some? ==> now <= c.otpExpiry.value) && c.attempts < MAX_ATTEMPTS
  }

  /** The change was begun under this token, which has not run out. */
  predicate TokenGood(c: Change, token: Token, now: Time) {
    c.token == Some(Sha256(token)) && (c.tokenExpiry.Some? ==> now <= c.tokenExpiry.value)
  }

  /** Nobody else, deleted accounts included, has the address. */
  predicate FreeFor(accounts: Accounts, email: Email, user: UserId) {
    forall u | u in accounts && u != user :: accounts[u].email != email
  }

  predicate LiveOwner(accounts: Accounts, email: Email, user: UserId) {
    exists u | u in accounts && u != user :: accounts[u].email == email && !accounts[u].deleted
  }

  /**
    What decides a confirmation. With the token good, an address pending and the code alive, the code decides: a wrong
    one costs an attempt and nothing else; the right one gives the account the pending address and an empty change, if
    the address is free, and otherwise nobody's address changes. With any of them missing nobody's address changes.
   */
  lemma ConfirmationDecides(accounts: Accounts, user: UserId, at: Time, token: Token, matches: bool)
    requires Live(accounts, user)
    ensures var (accounts', reply) := Exec(accounts, ConfirmCall(user, at, token, matches));
            var c := accounts[user].change;
            var ready := c.pending.Some? && TokenGood(c, token, at) && CodeAlive(c, at);
            && (reply == Changed <==> ready && matches && FreeFor(accounts, c.pending.value, user))
            && (reply == Changed ==> accounts' == accounts[user := Account(c.pending.value, false, NO_CHANGE)])
            && (reply == Refused(InvalidOtp) <==> ready && !matches)
            && (reply == Refused(InvalidOtp) ==>
                  accounts' == accounts[user := accounts[user].(change := c.(attempts := c.attempts + 1))])
            && (reply == Refused(EmailJustTaken) <==> ready && matches && LiveOwner(accounts, c.pending.value, user))
            && (reply == Refused(EmailJustTaken) ==>
                  accounts' == accounts[user := accounts[user].(change := NO_CHANGE)])
            && (reply == Refused(ConstraintViolation) <==>
                  && ready && matches && !FreeFor(accounts, c.pending.value, user)
                  && !LiveOwner(accounts, c.pending.value, user))
            && (reply == Refused(ConstraintViolation) ==> accounts' == accounts)
            && (!ready ==>
                  || accounts' == accounts
                  || accounts' == accounts[user := accounts[user].(change :=
                       c.(otp := None, otpExpiry := None, attempts := 0))])
            && (!CodeAlive(c, at) ==> !CodeAlive(accounts'[user].change, at))
            && (reply != Changed ==>
                  && accounts'.Keys == accounts.Keys
                  && forall u | u in accounts :: accounts'[u].email == accounts[u].email)
  {
  }

  /** What decides the check of the current address, and what it leaves: the code, if it is alive. */
  lemma VerificationDecides(accounts: Accounts, user: UserId, at: Time, matches: bool, minted: Token)
    requires Live(accounts, user)
    ensures var (accounts', reply) := Exec(accounts, VerifyCall(user, at, matches, minted));
            var c := accounts[user].change;
            && (reply == TokenIssued(minted) <==> CodeAlive(c, at) && matches)
            && (reply.TokenIssued? ==>
                  && accounts'[user].change == Change(Some(Sha256(minted)), Some(at + TOKEN_EXPIRY_MS), c.pending,
                        None, None, None, 0)
                  && TokenGood(accounts'[user].change, minted, at + TOKEN_EXPIRY_MS)
                  && !TokenGood(accounts'[user].change, minted, at + TOKEN_EXPIRY_MS + 1))
            && (reply == Refused(InvalidOtp) <==> CodeAlive(c, at) && !matches)
            && (reply == Refused(InvalidOtp) ==>
                  accounts'[user].change == c.(attempts := c.attempts + 1))
            && (!CodeAlive(c, at) ==> !CodeAlive(accounts'[user].change, at))
            && accounts' == accounts[user := accounts[user].(change := accounts'[user].change)]
  {
    assert accounts == accounts[user := accounts[user].(change := accounts[user].change)];
  }

  /** A request is refused exactly within a minute of the last code, and else starts over with a fresh code. */
  lemma RequestDecides(accounts: Accounts, user: UserId, at: Time, otp: nat)
    requires Live(accounts, user)
    ensures var (accounts', reply) := Exec(accounts, RequestCall(user, at, otp));
            var c := accounts[user].change;
            && (reply == Done <==> (c.otpSentAt.Some? ==> at >= c.otpSentAt.value + OTP_COOLDOWN_MS))
            && (reply == Done ==>
                  && accounts' == accounts[user := accounts[user].(change := accounts'[user].change)]
                  && accounts'[user].change.token.None? && accounts'[user].change.pending.None?
                  && accounts'[user].change.otp == Some(otp)
                  && CodeAlive(accounts'[user].change, at + OTP_EXPIRY_MS)
                  && !CodeAlive(accounts'[user].change, at + OTP_EXPIRY_MS + 1))
            && (reply != Done ==>
                  && accounts' == accounts && reply.Refused? && reply.why.PleaseWait?
                  && at + reply.why.seconds * 1000 >= c.otpSentAt.value + OTP_COOLDOWN_MS
                  && at + (reply.why.seconds - 1) * 1000 < c.otpSentAt.value + OTP_COOLDOWN_MS)
  {
  }

  /** A new address is taken exactly under a good token and if no live account has it, the user's own included. */
  lemma SubmissionDecides(accounts: Accounts, user: UserId, at: Time, token: Token, newEmail: Email, otp: nat)
    requires Live(accounts, user)
    ensures var (accounts', reply) := Exec(accounts, SetNewCall(user, at, token, newEmail, otp));
            var c := accounts[user].change;
            && (reply == Done <==>
                  && TokenGood(c, token, at)
                  && forall u | u in accounts && !accounts[u].deleted :: accounts[u].email != Lower(newEmail))
            && (reply == Done ==>
                  && accounts' == accounts[user := accounts[user].(change := accounts'[user].change)]
                  && accounts'[user].change.pending == Some(Lower(newEmail))
                  && accounts'[user].change.token == c.token && accounts'[user].change.tokenExpiry == c.tokenExpiry
                  && accounts'[user].change.otp == Some(otp)
                  && CodeAlive(accounts'[user].change, at + OTP_EXPIRY_MS)
                  && !CodeAlive(accounts'[user].change, at + OTP_EXPIRY_MS + 1))
            && (reply != Done ==> accounts' == accounts)
  {
    hide Lower;
  }

  // ----- Where a code was sent -----

  /** Call `n` sends a code: a successful request to the address on record, or `setNewEmail` to the new one. */
  predicate SendsCode(init: Accounts, calls: seq<Call>, n: nat, user: UserId) {
    n < |calls| && (calls[n].RequestCall? || calls[n].SetNewCall?) && calls[n].user == user
    && ReplyTo(init, calls, n) == Done
  }

  ghost predicate LastSender(init: Accounts, calls: seq<Call>, k: nat, n: nat, user: UserId) {
    k < n && SendsCode(init, calls, k, user) && forall j | k < j < n :: !SendsCode(init, calls, j, user)
  }

  /** The code now on record was sent by call `k`, to the address that is now the user's own, or pending. */
  ghost predicate SentBy(init: Accounts, calls: seq<Call>, k: nat, n: nat, user: UserId)
    requires n <= |calls|
  {
    && LastSender(init, calls, k, n, user) && k < |calls| && user in Before(init, calls, n)
    && user in Before(init, calls, k)
    && Before(init, calls, k)[user].email == Before(init, calls, n)[user].email
    && (calls[k].SetNewCall? ==> Before(init, calls, n)[user].change.pending == Some(Lower(calls[k].newEmail)))
  }

  lemma CodeStep(accounts: Accounts, call: Call, user: UserId)
    requires user in Exec(accounts, call).0 && Exec(accounts, call).0[user].change.otp.Some?
    ensures user in accounts && Exec(accounts, call).0[user].email == accounts[user].email
    ensures var (sends, c, c') := ((call.RequestCall? || call.SetNewCall?) && call.user == user
                                   && Exec(accounts, call).1 == Done,
                                   accounts[user].change, Exec(accounts, call).0[user].change);
            && (!sends ==> c.otp.Some? && c'.pending == c.pending)
            && (sends && call.SetNewCall? ==> c'.pending == Some(Lower(call.newEmail)))
  {
    hide Lower, InUse, Indexed, Past;
  }

  lemma {:induction false} CodeIsSent(init: Accounts, calls: seq<Call>, n: nat, user: UserId)
    requires n <= |calls| && (user in init ==> init[user].change.otp.None?)
    requires user in Before(init, calls, n) && Before(init, calls, n)[user].change.otp.Some?
    ensures exists k: nat :: SentBy(init, calls, k, n, user)
  {
    hide Exec, Lower;
    assert n > 0;
    var m := n - 1;
    assert Before(init, calls, n) == Exec(Before(init, calls, m), calls[m]).0;
    CodeStep(Before(init, calls, m), calls[m], user);
    if SendsCode(init, calls, m, user) {
      assert SentBy(init, calls, m, n, user);
    } else {
      CodeIsSent(init, calls, m, user);
      var k: nat :| SentBy(init, calls, k, m, user);
      assert SentBy(init, calls, k, n, user);
    }
  }

  /** Call `r` is the user's latest successful request before call `n`. */
  ghost predicate LatestRequest(init: Accounts, calls: seq<Call>, r: nat, n: nat, user: UserId) {
    && r < n && SendsCode(init, calls, r, user) && calls[r].RequestCall?
    && forall j | r < j < n :: !(SendsCode(init, calls, j, user) && calls[j].RequestCall?)
  }

  /** No `setNewEmail` of the user has succeeded since the latest request. */
  ghost predicate OnlyRequested(init: Accounts, calls: seq<Call>, n: nat, user: UserId) {
    exists r: nat :: LatestRequest(init, calls, r, n, user) && forall j | r < j < n :: !Submits(init, calls, j, user)
  }

  /**
    What `verifyCurrentEmailOtp` has verified when it hands out a change token: a code sent to the user's present
    address exactly if no `setNewEmail` has succeeded since the latest request; otherwise one sent to the new, pending
    address.
   */
  lemma VerifiedAddress(init: Accounts, calls: seq<Call>, n: nat, user: UserId, token: Token)
    requires (user in init ==> init[user].change.otp.None?) && Issues(init, calls, n, user, token)
    ensures exists k: nat :: SentBy(init, calls, k, n, user)
                             && (calls[k].RequestCall? <==> OnlyRequested(init, calls, n, user))
  {
    IssuedFromCode(Before(init, calls, n), calls[n]);
    hide Exec, Before, Lower;
    CodeIsSent(init, calls, n, user);
    var k: nat :| SentBy(init, calls, k, n, user);
    if calls[k].RequestCall? {
      assert LatestRequest(init, calls, k, n, user);
      forall j | k < j < n ensures !Submits(init, calls, j, user) { assert !SendsCode(init, calls, j, user); }
    } else {
      assert Submits(init, calls, k, user);
      forall r: nat | LatestRequest(init, calls, r, n, user) ensures r < k {
        assert SendsCode(init, calls, r, user) && r != k;
      }
    }
  }

  lemma IssuedFromCode(accounts: Accounts, call: Call)
    requires call.VerifyCall? && Exec(accounts, call).1.TokenIssued?
    ensures call.user in accounts && accounts[call.user].change.otp.Some?
  {
  }

  /** So a change can be kept going from the new address alone: its code buys a token for fifteen more minutes. */
  lemma NewAddressCodeRenewsToken(
    accounts: Accounts, user: UserId, at: Time, token: Token, newEmail: Email, otp: nat, later: Time, minted: Token)
    requires SetNew(accounts, user, at, token, newEmail, otp).1 == Done && later <= at + OTP_EXPIRY_MS
    ensures var between := SetNew(accounts, user, at, token, newEmail, otp).0;
            var (accounts', reply) := VerifyCurrent(between, user, later, true, minted);
            && reply == TokenIssued(minted) && user in accounts'
            && accounts'[user].change.token == Some(Sha256(minted))
            && accounts'[user].change.tokenExpiry == Some(later + TOKEN_EXPIRY_MS)
  {
  }

  ghost predicate DistinctEmails(accounts: Accounts) {
    forall u, v | u in accounts && v in accounts && accounts[u].email == accounts[v].email :: u == v
  }

  /** No run ever leaves two accounts, deleted ones included, with the same address. */
  lemma {:induction false} EmailsStayDistinct(init: Accounts, calls: seq<Call>, n: nat)
    requires n <= |calls| && DistinctEmails(init)
    ensures DistinctEmails(Before(init, calls, n))
  {
    if n > 0 {
      EmailsStayDistinct(init, calls, n - 1);
      StepKeepsEmailsDistinct(Before(init, calls, n - 1), calls[n - 1]);
    }
  }

  lemma StepKeepsEmailsDistinct(accounts: Accounts, call: Call)
    requires DistinctEmails(accounts)
    ensures DistinctEmails(Exec(accounts, call).0)
  {
  }
}

/**
  Refresh tokens and password resets (`refresh`, `logout`, `forgotPassword`, `resetPassword` in `auth/auth.service.ts`)
  together with the nightly jobs of `auth/auth.cleanup.service.ts`, which delete rows that should no longer matter.
 */
module Sessions {
  import opened Prelude

  const PASSWORD_RESET_EXPIRY_MS: nat := 60 * 60 * 1000
  const CLEANUP_GRACE_MS: nat := 24 * 60 * 60 * 1000

  type UserId = nat
  type Email = string
  type Token = nat

  /** Distinct reset tokens have distinct digests. */
  datatype Digest = Sha256(raw: Token)

  datatype Account = Account(email: Email, deleted: bool, resetToken: Option<Digest>, resetExpiry: Option<Time>)

  datatype RefreshToken = RefreshToken(user: UserId, expiresAt: Time, revokedAt: Option<Time>)

  datatype Store = Store(accounts: map<UserId, Account>, tokens: map<Token, RefreshToken>)

  /** `lifetime` is the configured life of a refresh token; `minted` is the random token a call draws. */
  datatype Call =
    | IssuePair(at: Time, user: UserId, minted: Token, lifetime: int)
    | Refresh(at: Time, token: Token, minted: Token, lifetime: int)
    | Logout(at: Time, token: Token)
    | ForgotPassword(at: Time, email: Email, minted: Token)
    | ResetPassword(at: Time, token: Token)
    | ChangeEmail(at: Time, user: UserId, email: Email)
    | Register(at: Time, user: UserId, email: Email)
    | SoftDelete(at: Time, user: UserId)
    | CleanExpiredTokens(at: Time)
    | CleanExpiredResets(at: Time)

  datatype Reply =
    | Pair(token: Token) | TokenClash | InvalidRefresh | AccountGone | LoggedOut
    | LinkSentIfRegistered | InvalidReset | PasswordChanged(user: UserId) | Done

  predicate Cleanup(call: Call) {
    call.CleanExpiredTokens? || call.CleanExpiredResets?
  }

  predicate Dead(row: RefreshToken, now: Time) {
    row.revokedAt.Some? || row.expiresAt < now
  }

  function Mint(s: Store, user: UserId, minted: Token, expiresAt: Time): (Store, Reply) {
    if minted in s.tokens then (s, TokenClash)
    else (s.(tokens := s.tokens[minted := RefreshToken(user, expiresAt, None)]), Pair(minted))
  }

  function Revoke(row: RefreshToken, now: Time): RefreshToken {
    if row.revokedAt.None? then row.(revokedAt := Some(now)) else row
  }

  function RevokeUser(tokens: map<Token, RefreshToken>, user: UserId, now: Time): map<Token, RefreshToken> {
    map t | t in tokens :: if tokens[t].user == user then Revoke(tokens[t], now) else tokens[t]
  }

  /** `findFirst`: some match, and the same one whenever the matches are the same. */
  ghost function FindFirst(matches: set<UserId>): (r: Option<UserId>)
    ensures r.Some? ==> r.value in matches
    ensures r.None? ==> matches == {}
  {
    if u :| u in matches then Some(u) else None
  }

  function ByEmail(accounts: map<UserId, Account>, email: Email): set<UserId> {
    set u | u in accounts && accounts[u].email == email
  }

  predicate Resettable(a: Account, digest: Digest, now: Time) {
    a.resetToken == Some(digest) && a.resetExpiry.Some? && a.resetExpiry.value > now && !a.deleted
  }

  function ByResetToken(accounts: map<UserId, Account>, digest: Digest, now: Time): set<UserId> {
    set u | u in accounts && Resettable(accounts[u], digest, now)
  }

  function RefreshCall(s: Store, now: Time, token: Token, minted: Token, lifetime: int): (Store, Reply) {
    if token !in s.tokens || Dead(s.tokens[token], now) then (s, InvalidRefresh)
    else if s.tokens[token].user !in s.accounts || s.accounts[s.tokens[token].user].deleted then (s, AccountGone)
    else
      var revoked := s.tokens[token := s.tokens[token].(revokedAt := Some(now))];
      Mint(s.(tokens := revoked), s.tokens[token].user, minted, now + lifetime)
  }

  function LogoutCall(s: Store, now: Time, token: Token): (Store, Reply) {
    (if token in s.tokens then s.(tokens := s.tokens[token := Revoke(s.tokens[token], now)]) else s, LoggedOut)
  }

  ghost function ForgotCall(s: Store, now: Time, email: Email, minted: Token): (Store, Reply) {
    var u := FindFirst(ByEmail(s.accounts, email));
    if u.None? || s.accounts[u.value].deleted then (s, LinkSentIfRegistered)
    else
      var a := s.accounts[u.value].(resetToken := Some(Sha256(minted)),
          resetExpiry := Some(now + PASSWORD_RESET_EXPIRY_MS));
      (s.(accounts := s.accounts[u.value := a]), LinkSentIfRegistered)
  }

  ghost function ResetCall(s: Store, now: Time, token: Token): (Store, Reply) {
    var u := FindFirst(ByResetToken(s.accounts, Sha256(token), now));
    if u.None? then (s, InvalidReset)
    else
      var a := s.accounts[u.value].(resetToken := None, resetExpiry := None);
      (Store(s.accounts[u.value := a], RevokeUser(s.tokens, u.value, now)), PasswordChanged(u.value))
  }

  /** Rows that expired or were revoked more than a day ago. */
  predicate Stale(row: RefreshToken, now: Time) {
    row.expiresAt < now - CLEANUP_GRACE_MS || (row.revokedAt.Some? && row.revokedAt.value < now - CLEANUP_GRACE_MS)
  }

  function CleanTokens(s: Store, now: Time): Store {
    s.(tokens := map t | t in s.tokens && !Stale(s.tokens[t], now) :: s.tokens[t])
  }

  function CleanSlot(a: Account, now: Time): Account {
    if a.resetExpiry.Some? && a.resetExpiry.value < now && a.resetToken.Some? then
        a.(resetToken := None, resetExpiry := None) else a
  }

  function CleanResets(s: Store, now: Time): Store {
    s.(accounts := map u | u in s.accounts :: CleanSlot(s.accounts[u], now))
  }

  ghost function Exec(s: Store, call: Call): (Store, Reply) {
    match call
    case IssuePair(at, user, minted, lifetime) => Mint(s, user, minted, at + lifetime)
    case Refresh(at, token, minted, lifetime) => RefreshCall(s, at, token, minted, lifetime)
    case Logout(at, token) => LogoutCall(s, at, token)
    case ForgotPassword(at, email, minted) => ForgotCall(s, at, email, minted)
    case ResetPassword(at, token) => ResetCall(s, at, token)
    case ChangeEmail(at, user, email) =>
      if user !in s.accounts then (s, Done)
      else (Store(s.accounts[user := s.accounts[user].(email := email)], RevokeUser(s.tokens, user, at)), Done)
    case Register(_, user, email) =>
      if user in s.accounts then (s, Done)
        else (s.(accounts := s.accounts[user := Account(email, false, None, None)]), Done)
    case SoftDelete(_, user) =>
      if user in s.accounts then (s.(accounts := s.accounts[user := s.accounts[user].(deleted := true)]), Done)
        else (s, Done)
    case CleanExpiredTokens(at) => (CleanTokens(s, at), Done)
    case CleanExpiredResets(at) => (CleanResets(s, at), Done)
  }

  /** The replies a client sees over a run, one for each call that is not a cleanup job. */
  ghost function Replies(s: Store, calls: seq<Call>): seq<Reply>
    decreases |calls|
  {
    if calls == [] then []
    else (if Cleanup(calls[0]) then [] else [Exec(s, calls[0]).1]) + Replies(Exec(s, calls[0]).0, calls[1..])
  }

  function WithoutCleanup(calls: seq<Call>): seq<Call> {
    if calls == [] then [] else (if Cleanup(calls[0]) then [] else [calls[0]]) + WithoutCleanup(calls[1..])
  }

  predicate OrderedFrom(start: Time, calls: seq<Call>)
    decreases |calls|
  {
    calls != [] ==> start <= calls[0].at && OrderedFrom(calls[0].at, calls[1..])
  }

  /** Every refresh token drawn along the run is new, also among the rows ever deleted. */
  ghost predicate FreshTokens(s: Store, calls: seq<Call>)
    decreases |calls|
  {
    calls != [] ==>
      && (calls[0].IssuePair? || calls[0].Refresh? ==> calls[0].minted !in s.tokens)
      && FreshTokens(Exec(s, calls[0]).0, calls[1..])
  }

  // ---------------------------------------------------------------------------------------------
  // Cleaned and uncleaned stores side by side
  // ---------------------------------------------------------------------------------------------

  /** The same account, but for a reset slot that has run out and may have been emptied. */
  predicate SlotMatches(full: Account, clean: Account, now: Time) {
    || full == clean
    || (clean == full.(resetToken := None, resetExpiry := None) && full.resetExpiry.Some?
        && full.resetExpiry.value <= now)
  }

  /** The cleaned store lacks only dead token rows and expired reset slots. */
  ghost predicate Matches(full: Store, clean: Store, now: Time) {
    && full.accounts.Keys == clean.accounts.Keys
    && (forall u | u in full.accounts :: SlotMatches(full.accounts[u], clean.accounts[u], now))
    && (forall t | t in clean.tokens :: t in full.tokens && full.tokens[t] == clean.tokens[t])
    && (forall t | t in full.tokens && t !in clean.tokens :: Dead(full.tokens[t], now))
  }

  lemma MatchesLater(full: Store, clean: Store, now: Time, later: Time)
    requires Matches(full, clean, now) && now <= later
    ensures Matches(full, clean, later)
  {
  }

  lemma CleanupKeepsMatch(full: Store, clean: Store, call: Call)
    requires Matches(full, clean, call.at) && Cleanup(call)
    ensures Matches(full, Exec(clean, call).0, call.at)
  {
  }

  lemma SameCandidates(full: Store, clean: Store, now: Time, email: Email, digest: Digest)
    requires Matches(full, clean, now)
    ensures ByEmail(full.accounts, email) == ByEmail(clean.accounts, email)
    ensures ByResetToken(full.accounts, digest, now) == ByResetToken(clean.accounts, digest, now)
  {
  }

  lemma SessionCallMatches(full: Store, clean: Store, call: Call)
    requires Matches(full, clean, call.at)
    requires call.IssuePair? || call.Refresh? || call.Logout?
    requires call.IssuePair? || call.Refresh? ==> call.minted !in full.tokens
    ensures Exec(clean, call).1 == Exec(full, call).1
    ensures Matches(Exec(full, call).0, Exec(clean, call).0, call.at)
  {
  }

  lemma AccountCallMatches(full: Store, clean: Store, call: Call)
    requires Matches(full, clean, call.at)
    requires call.ForgotPassword? || call.ResetPassword? || call.SoftDelete? || call.ChangeEmail? || call.Register?
    ensures Exec(clean, call).1 == Exec(full, call).1
    ensures Matches(Exec(full, call).0, Exec(clean, call).0, call.at)
  {
    if call.ForgotPassword? { SameCandidates(full, clean, call.at, call.email, Sha256(0)); }
    if call.ResetPassword? { SameCandidates(full, clean, call.at, "", Sha256(call.token)); }
  }

  /** One call of a run, with both stores in step before and after it. */
  lemma CallMatches(full: Store, clean: Store, calls: seq<Call>)
    requires calls != [] && Matches(full, clean, calls[0].at) && FreshTokens(full, WithoutCleanup(calls))
    ensures var (call, rest) := (calls[0], calls[1..]);
            var full' := if Cleanup(call) then full else Exec(full, call).0;
            && Matches(full', Exec(clean, call).0, call.at) && FreshTokens(full', WithoutCleanup(rest))
            && (!Cleanup(call) ==>
                  && Exec(clean, call).1 == Exec(full, call).1
                  && WithoutCleanup(calls) == [call] + WithoutCleanup(rest)
                  && (call.IssuePair? || call.Refresh? ==> call.minted !in full.tokens))
  {
    var (call, rest) := (calls[0], calls[1..]);
    if Cleanup(call) {
      CleanupKeepsMatch(full, clean, call);
      assert WithoutCleanup(calls) == WithoutCleanup(rest);
    } else {
      var kept := WithoutCleanup(rest);
      assert WithoutCleanup(calls) == [call] + kept;
      assert ([call] + kept)[1..] == kept;
      if call.IssuePair? || call.Refresh? || call.Logout? {
        SessionCallMatches(full, clean, call);
      } else {
        AccountCallMatches(full, clean, call);
      }
    }
  }

  /**
    Running the cleanup jobs at arbitrary moments is invisible: a run with them and the same run without them give
    every refresh, logout, forgot-password and reset-password call the same answer.
   */
  lemma {:induction false} CleanupIsInvisible(full: Store, clean: Store, calls: seq<Call>, now: Time)
    requires Matches(full, clean, now) && OrderedFrom(now, calls) && FreshTokens(full, WithoutCleanup(calls))
    ensures Replies(clean, calls) == Replies(full, WithoutCleanup(calls))
    decreases |calls|
  {
    hide Exec, Matches, FreshTokens;
    if calls != [] {
      var (call, rest) := (calls[0], calls[1..]);
      MatchesLater(full, clean, now, call.at);
      CallMatches(full, clean, calls);
      var kept := WithoutCleanup(rest);
      if Cleanup(call) {
        assert WithoutCleanup(calls) == kept;
        CleanupIsInvisible(full, Exec(clean, call).0, rest, call.at);
      } else {
        assert ([call] + kept)[0] == call && ([call] + kept)[1..] == kept;
        CleanupIsInvisible(Exec(full, call).0, Exec(clean, call).0, rest, call.at);
      }
    }
  }

  // ---------------------------------------------------------------------------------------------
  // A session chain never forks
  // ---------------------------------------------------------------------------------------------

  /** Some refresh with `token` succeeds along the run. */
  ghost predicate RefreshesWith(s: Store, calls: seq<Call>, token: Token)
    decreases |calls|
  {
    && calls != []
    && ((calls[0].Refresh? && calls[0].token == token && Exec(s, calls[0]).1.Pair?)
        || RefreshesWith(Exec(s, calls[0]).0, calls[1..], token))
  }

  lemma DeadStaysDead(s: Store, call: Call, token: Token)
    requires token in s.tokens && Dead(s.tokens[token], call.at) && !Cleanup(call)
    requires call.IssuePair? || call.Refresh? ==> call.minted !in s.tokens
    ensures token in Exec(s, call).0.tokens && Dead(Exec(s, call).0.tokens[token], call.at)
    ensures call.Refresh? && call.token == token ==> Exec(s, call).1 == InvalidRefresh
  {
  }

  /**
    A token that is revoked or expired once is never honoured again, whether or not cleanup has removed its row: `full`
    is the store as it would be without the jobs, and the run is over any store they made of it.
   */
  lemma {:induction false} DeadIsFinal(full: Store, clean: Store, calls: seq<Call>, token: Token, now: Time)
    requires Matches(full, clean, now) && OrderedFrom(now, calls) && FreshTokens(full, WithoutCleanup(calls))
    requires token in full.tokens && Dead(full.tokens[token], now)
    ensures !RefreshesWith(clean, calls, token)
    decreases |calls|
  {
    hide Exec, Matches, FreshTokens;
    if calls != [] {
      var (call, rest) := (calls[0], calls[1..]);
      MatchesLater(full, clean, now, call.at);
      CallMatches(full, clean, calls);
      if Cleanup(call) {
        DeadIsFinal(full, Exec(clean, call).0, rest, token, call.at);
      } else {
        DeadStaysDead(full, call, token);
        DeadIsFinal(Exec(full, call).0, Exec(clean, call).0, rest, token, call.at);
      }
    }
  }

  /** The call ends the session of `token`: rotation, logout, or its owner's password reset or address change. */
  ghost predicate Ends(s: Store, call: Call, token: Token) {
    token in s.tokens
    && match call
       case Refresh(_, t, _, _) => t == token && Exec(s, call).1.Pair?
       case Logout(_, t) => t == token
       case ChangeEmail(_, user, _) => user == s.tokens[token].user && user in s.accounts
       case ResetPassword(_, _) => Exec(s, call).1 == PasswordChanged(s.tokens[token].user)
       case _ => false
  }

  lemma EndsKills(s: Store, call: Call, token: Token)
    requires Ends(s, call, token) && (call.Refresh? ==> call.minted !in s.tokens)
    ensures token in Exec(s, call).0.tokens && Dead(Exec(s, call).0.tokens[token], call.at)
  {
  }

  /**
    Rotation, logout, password reset and address change end a session for good: after such a call its token never works
    again, with cleanup jobs running at any moments before or after.
   */
  lemma SessionEnds(full: Store, clean: Store, calls: seq<Call>, token: Token)
    requires calls != [] && Ends(full, calls[0], token) && Matches(full, clean, calls[0].at)
    requires OrderedFrom(calls[0].at, calls) && FreshTokens(full, WithoutCleanup(calls))
    ensures !RefreshesWith(Exec(clean, calls[0]).0, calls[1..], token)
  {
    CallMatches(full, clean, calls);
    EndsKills(full, calls[0], token);
    DeadIsFinal(Exec(full, calls[0]).0, Exec(clean, calls[0]).0, calls[1..], token, calls[0].at);
  }

  // ---------------------------------------------------------------------------------------------
  // What decides a call
  // ---------------------------------------------------------------------------------------------

  /** The token still stands for a session of its owner: on record, not revoked, not run out. */
  predicate Good(s: Store, token: Token, now: Time) {
    token in s.tokens && s.tokens[token].revokedAt.None? && now <= s.tokens[token].expiresAt
  }

  /**
    A refresh goes through exactly with a good token of a live account; it swaps the token and nothing else. Should the
    token drawn be taken, the old one is gone and there is no new one.
   */
  lemma RefreshDecides(s: Store, at: Time, token: Token, minted: Token, lifetime: int)
    ensures var (s', reply) := Exec(s, Refresh(at, token, minted, lifetime));
            var ready := && Good(s, token, at)
                         && s.tokens[token].user in s.accounts && !s.accounts[s.tokens[token].user].deleted;
            && (reply == Pair(minted) <==> ready && minted !in s.tokens)
            && (reply == TokenClash <==> ready && minted in s.tokens)
            && (reply == TokenClash ==> s' == s.(tokens := s.tokens[token := s.tokens[token].(revokedAt := Some(at))]))
            && (reply == Pair(minted) ==>
                  && s'.accounts == s.accounts && s'.tokens.Keys == s.tokens.Keys + {minted}
                  && s'.tokens[minted] == RefreshToken(s.tokens[token].user, at + lifetime, None)
                  && s'.tokens[token] == s.tokens[token].(revokedAt := Some(at))
                  && forall t | t in s.tokens && t != token :: s'.tokens[t] == s.tokens[t])
            && (!ready ==> s' == s)
            && (reply == InvalidRefresh <==> !Good(s, token, at))
  {
  }

  /** A logout always answers the same; it ends that one session if there is one. */
  lemma LogoutDecides(s: Store, at: Time, token: Token)
    ensures var (s', reply) := Exec(s, Logout(at, token));
            && reply == LoggedOut && s'.accounts == s.accounts && s'.tokens.Keys == s.tokens.Keys
            && (token in s.tokens ==> s'.tokens[token].revokedAt.Some?)
            && forall t | t in s.tokens && (t != token || s.tokens[t].revokedAt.Some?) :: s'.tokens[t] == s.tokens[t]
  {
  }

  /**
    Asking for a reset link tells nobody whether the address is known, and touches one account's reset slot at most.
   */
  lemma ForgotDecides(s: Store, at: Time, email: Email, minted: Token)
    ensures var (s', reply) := Exec(s, ForgotPassword(at, email, minted));
            && reply == LinkSentIfRegistered && s'.tokens == s.tokens && s'.accounts.Keys == s.accounts.Keys
            && (forall u | u in s.accounts && s'.accounts[u] != s.accounts[u] ::
                  && s.accounts[u].email == email && !s.accounts[u].deleted
                  && s'.accounts[u] == s.accounts[u].(resetToken := Some(Sha256(minted)),
                                                      resetExpiry := Some(at + PASSWORD_RESET_EXPIRY_MS)))
            && (s' == s <==> forall u | FindFirst(ByEmail(s.accounts, email)) == Some(u) ::
                  s.accounts[u].deleted || (s.accounts[u].resetToken == Some(Sha256(minted))
                                            && s.accounts[u].resetExpiry == Some(at + PASSWORD_RESET_EXPIRY_MS)))
  {
  }

  // ---------------------------------------------------------------------------------------------
  // A reset link works once, within the hour, if it is the latest
  // ---------------------------------------------------------------------------------------------

  /** The store just before call number `n`. */
  ghost function Before(init: Store, calls: seq<Call>, n: nat): Store
    requires n <= |calls|
  {
    if n == 0 then init else Exec(Before(init, calls, n - 1), calls[n - 1]).0
  }

  predicate InOrder(calls: seq<Call>) {
    forall i, j | 0 <= i < j < |calls| :: calls[i].at <= calls[j].at
  }

  /** No two reset links drawn along the run are the same. */
  predicate LinksDiffer(calls: seq<Call>) {
    forall i, j | 0 <= i < j < |calls| && calls[i].ForgotPassword? && calls[j].ForgotPassword? ::
      calls[i].minted != calls[j].minted
  }

  /** The call sends the user a reset link: it names the address of the live account. */
  ghost predicate Sends(s: Store, call: Call, user: UserId) {
    && call.ForgotPassword? && FindFirst(ByEmail(s.accounts, call.email)) == Some(user)
    && user in s.accounts && !s.accounts[user].deleted
  }

  ghost predicate ResetsUser(s: Store, call: Call, user: UserId) {
    call.ResetPassword? && Exec(s, call).1 == PasswordChanged(user)
  }

  /** Call `k` sent the user's latest link before call `n`, and no reset has used it since. */
  ghost predicate LatestLink(init: Store, calls: seq<Call>, k: nat, n: nat, user: UserId)
    requires n <= |calls|
  {
    && k < n && Sends(Before(init, calls, k), calls[k], user)
    && forall j | k < j < n ::
         !Sends(Before(init, calls, j), calls[j], user) && !ResetsUser(Before(init, calls, j), calls[j], user)
  }

  /** What one call does to one account's reset slot. */
  lemma SlotStep(s: Store, call: Call, user: UserId)
    requires user in Exec(s, call).0.accounts
    ensures var s' := Exec(s, call).0;
            && (user !in s.accounts ==>
                  !Sends(s, call, user) && !ResetsUser(s, call, user) && s'.accounts[user].resetToken.None?)
            && (Sends(s, call, user) ==>
                  && s'.accounts[user].resetToken == Some(Sha256(call.minted))
                  && s'.accounts[user].resetExpiry == Some(call.at + PASSWORD_RESET_EXPIRY_MS))
            && (ResetsUser(s, call, user) ==> s'.accounts[user].resetToken.None?)
            && (user in s.accounts && !Sends(s, call, user) && !ResetsUser(s, call, user) ==>
                  var (a, a') := (s.accounts[user], s'.accounts[user]);
                  || (a'.resetToken == a.resetToken && a'.resetExpiry == a.resetExpiry)
                  || (a'.resetToken.None? && a.resetExpiry.Some? && a.resetExpiry.value < call.at))
  {
  }

  lemma AccountsRemain(s: Store, call: Call, user: UserId)
    requires user in s.accounts
    ensures user in Exec(s, call).0.accounts
  {
  }

  /** The user's slot holds the link of call `k`. */
  predicate SlotIsFrom(a: Account, calls: seq<Call>, k: nat) {
    && k < |calls| && calls[k].ForgotPassword?
    && a.resetToken == Some(Sha256(calls[k].minted)) && a.resetExpiry == Some(calls[k].at + PASSWORD_RESET_EXPIRY_MS)
  }

  ghost predicate NoLinks(init: Store) {
    forall u | u in init.accounts :: init.accounts[u].resetToken.None?
  }

  /** A link on record is the latest one sent. */
  lemma {:induction false} SlotIsLatest(init: Store, calls: seq<Call>, n: nat, user: UserId)
    requires n <= |calls| && NoLinks(init)
    requires user in Before(init, calls, n).accounts && Before(init, calls, n).accounts[user].resetToken.Some?
    ensures exists k: nat :: LatestLink(init, calls, k, n, user)
                             && SlotIsFrom(Before(init, calls, n).accounts[user], calls, k)
  {
    hide Exec, Sends, ResetsUser;
    if n > 0 {
      var s := Before(init, calls, n - 1);
      SlotStep(s, calls[n - 1], user);
      if Sends(s, calls[n - 1], user) {
        assert calls[n - 1].ForgotPassword? by { SendsByForgot(s, calls[n - 1], user); }
        assert LatestLink(init, calls, n - 1, n, user);
      } else {
        SlotIsLatest(init, calls, n - 1, user);
        var k: nat :| LatestLink(init, calls, k, n - 1, user) && SlotIsFrom(s.accounts[user], calls, k);
        assert LatestLink(init, calls, k, n, user);
      }
    }
  }

  lemma SendsByForgot(s: Store, call: Call, user: UserId)
    requires Sends(s, call, user)
    ensures call.ForgotPassword?
  {
  }

  /** The latest link stays on record for its hour, whenever the clean-up jobs run. */
  lemma {:induction false} LatestStays(init: Store, calls: seq<Call>, k: nat, n: nat, user: UserId, now: Time)
    requires n <= |calls| && LatestLink(init, calls, k, n, user) && now <= calls[k].at + PASSWORD_RESET_EXPIRY_MS
    requires forall j | 0 <= j < n :: calls[j].at <= now
    ensures user in Before(init, calls, n).accounts && SlotIsFrom(Before(init, calls, n).accounts[user], calls, k)
  {
    var s := Before(init, calls, n - 1);
    if k < n - 1 {
      LatestStays(init, calls, k, n - 1, user, now);
    }
    hide Exec, ResetsUser;
    AccountsRemain(s, calls[n - 1], user);
    SlotStep(s, calls[n - 1], user);
  }

  /**
    A reset link works exactly if it is its user's latest, not used yet, less than an hour old, and the user still has
    an account. Over every run, with clean-up jobs at any moments: a reset changes the user's password if and only if
    its token is that of such a link.
   */
  lemma LinkWorksExactly(init: Store, calls: seq<Call>, n: nat, user: UserId)
    requires n < |calls| && calls[n].ResetPassword? && NoLinks(init) && InOrder(calls) && LinksDiffer(calls)
    ensures ResetsUser(Before(init, calls, n), calls[n], user)
            <==> && user in Before(init, calls, n).accounts && !Before(init, calls, n).accounts[user].deleted
                 && exists k: nat ::
                      && LatestLink(init, calls, k, n, user) && calls[k].ForgotPassword?
                      && calls[k].minted == calls[n].token && calls[n].at < calls[k].at + PASSWORD_RESET_EXPIRY_MS
  {
    var (s, call) := (Before(init, calls, n), calls[n]);
    hide Before, LatestLink;
    ResetLooksUp(s, call, user);
    if user in s.accounts && Resettable(s.accounts[user], Sha256(call.token), call.at) {
      SlotIsLatest(init, calls, n, user);
      SlotIsFromOne(init, calls, n, user);
    }
    if k: nat :| LatestLink(init, calls, k, n, user) && calls[k].ForgotPassword?
                 && calls[k].minted == call.token && call.at < calls[k].at + PASSWORD_RESET_EXPIRY_MS
                 && user in s.accounts && !s.accounts[user].deleted
    {
      LatestStays(init, calls, k, n, user, call.at);
      SlotIsFromOne(init, calls, n, user);
    }
  }

  /** A reset goes to an account whose slot holds the token, and to some such account if there is one. */
  lemma ResetLooksUp(s: Store, call: Call, user: UserId)
    requires call.ResetPassword?
    ensures ResetsUser(s, call, user) ==>
            user in s.accounts && Resettable(s.accounts[user], Sha256(call.token), call.at)
    ensures (forall u | u in s.accounts && Resettable(s.accounts[u], Sha256(call.token), call.at) :: u == user)
            && user in s.accounts && Resettable(s.accounts[user], Sha256(call.token), call.at) ==>
              ResetsUser(s, call, user)
  {
    if user in s.accounts && Resettable(s.accounts[user], Sha256(call.token), call.at) {
      assert user in ByResetToken(s.accounts, Sha256(call.token), call.at);
    }
  }

  /** No two accounts hold the same link. */
  lemma SlotIsFromOne(init: Store, calls: seq<Call>, n: nat, user: UserId)
    requires n <= |calls| && NoLinks(init) && LinksDiffer(calls)
    requires user in Before(init, calls, n).accounts && Before(init, calls, n).accounts[user].resetToken.Some?
    ensures var accounts := Before(init, calls, n).accounts;
            forall u | u in accounts && accounts[u].resetToken == accounts[user].resetToken :: u == user
  {
    hide Exec;
    var accounts := Before(init, calls, n).accounts;
    SlotIsLatest(init, calls, n, user);
    var k: nat :| LatestLink(init, calls, k, n, user) && SlotIsFrom(accounts[user], calls, k);
    forall u | u in accounts && accounts[u].resetToken == accounts[user].resetToken ensures u == user {
      SlotIsLatest(init, calls, n, u);
      var l: nat :| LatestLink(init, calls, l, n, u) && SlotIsFrom(accounts[u], calls, l);
      assert k == l;
    }
  }
}

/**
  Phone verification (`sendOtp`, `verifyOtp` in `auth/auth.service.ts`): a one-minute pause between codes and five
  guesses per code.
 */
module PhoneOtp {
  import opened Prelude

  const OTP_COOLDOWN_MS: nat := 60 * 1000
  const OTP_EXPIRY_MS: nat := 10 * 60 * 1000
  const MAX_OTP_ATTEMPTS: nat := 5

  type Phone = string

  /** The columns of a user that phone verification works on. `code` is a stored hash. */
  datatype Otp = Otp(
    verified: bool, phone: Option<Phone>, code: Option<nat>, expiresAt: Option<Time>, sentAt: Option<Time>,
        attempts: nat)

  datatype SendReply = SendToVerified | PleaseWait(seconds: int) | NoPhone | Sent

  datatype VerifyReply = AlreadyVerified | NoOtp | Expired | TooManyAttempts | InvalidOtp | Verified

  /** An absent and an empty number count the same. */
  predicate Given(phone: Option<Phone>) {
    phone.Some? && phone.value != ""
  }

  function SendOtp(o: Otp, now: Time, phone: Option<Phone>, code: nat): (Otp, SendReply) {
    if o.verified then (o, SendToVerified)
    else if o.sentAt.Some? && now - o.sentAt.value < OTP_COOLDOWN_MS then
      (o, PleaseWait((OTP_COOLDOWN_MS - (now - o.sentAt.value) + 999) / 1000))
    else
      var o' := if Given(phone) then o.(phone := phone) else o;
      if !Given(o'.phone) then (o', NoPhone)
      else (o'.(code := Some(code), expiresAt := Some(now + OTP_EXPIRY_MS), sentAt := Some(now), attempts := 0), Sent)
  }

  /** `matches` is the comparison with the stored hash, reached only past every other check. */
  function VerifyOtp(o: Otp, now: Time, matches: bool): (Otp, VerifyReply) {
    if o.verified then (o, AlreadyVerified)
    else if o.code.None? then (o, NoOtp)
    else if o.expiresAt.Some? && o.expiresAt.value < now then (o, Expired)
    else if o.attempts >= MAX_OTP_ATTEMPTS then (o.(code := None, expiresAt := None, attempts := 0), TooManyAttempts)
    else if !matches then (o.(attempts := o.attempts + 1), InvalidOtp)
    else (o.(verified := true, code := None, expiresAt := None, attempts := 0, sentAt := None), Verified)
  }

  datatype Call = Send(at: Time, phone: Option<Phone>, code: nat) | Verify(at: Time, matches: bool)

  function Exec(o: Otp, call: Call): Otp {
    match call
    case Send(at, phone, code) => SendOtp(o, at, phone, code).0
    case Verify(at, matches) => VerifyOtp(o, at, matches).0
  }

  predicate WrongGuess(o: Otp, call: Call) {
    call.Verify? && VerifyOtp(o, call.at, call.matches).1.InvalidOtp?
  }

  predicate GoesOut(o: Otp, call: Call) {
    call.Send? && SendOtp(o, call.at, call.phone, call.code).1.Sent?
  }

  /** Wrong guesses that reach the comparison no later than `until`. */
  function WrongGuesses(o: Otp, calls: seq<Call>, until: Time): nat
    decreases |calls|
  {
    if calls == [] then 0
    else Count(WrongGuess(o, calls[0]) && calls[0].at <= until) + WrongGuesses(Exec(o, calls[0]), calls[1..], until)
  }

  /** When the first code went out, if one did. */
  function FirstSend(o: Otp, calls: seq<Call>): Option<Time>
    decreases |calls|
  {
    if calls == [] then None
    else if GoesOut(o, calls[0]) then Some(calls[0].at)
    else FirstSend(Exec(o, calls[0]), calls[1..])
  }

  predicate OrderedFrom(start: Time, calls: seq<Call>) {
    && (forall i | 0 <= i < |calls| :: start <= calls[i].at)
    && (forall i, j | 0 <= i < j < |calls| :: calls[i].at <= calls[j].at)
  }

  /** An unverified user who has not asked for a code yet. */
  predicate Unasked(o: Otp) {
    !o.verified && o.code.None? && o.sentAt.None?
  }

  /** Guesses still possible up to `until`: what is left of the code in force, and five for each code to come. */
  function Budget(o: Otp, until: Time): nat
    requires o.sentAt.Some?
  {
    Max(0, if o.code.Some? then MAX_OTP_ATTEMPTS - o.attempts else 0)
    + MAX_OTP_ATTEMPTS * (Max(0, until - o.sentAt.value) / OTP_COOLDOWN_MS)
  }

  lemma {:induction false} NoGuessesAfter(o: Otp, calls: seq<Call>, until: Time)
    requires forall i | 0 <= i < |calls| :: calls[i].at > until
    ensures WrongGuesses(o, calls, until) == 0
    decreases |calls|
  {
    if calls != [] { NoGuessesAfter(Exec(o, calls[0]), calls[1..], until); }
  }

  lemma {:induction false} NoGuessesOnceVerified(o: Otp, calls: seq<Call>, until: Time)
    requires o.verified
    ensures WrongGuesses(o, calls, until) == 0
    decreases |calls|
  {
    if calls != [] { NoGuessesOnceVerified(Exec(o, calls[0]), calls[1..], until); }
  }

  /** A call up to `until` by an unverified user spends at least as much of the budget as it makes guesses. */
  lemma BudgetPays(o: Otp, call: Call, until: Time)
    requires o.sentAt.Some? && !o.verified && o.sentAt.value <= call.at <= until
    ensures var o' := Exec(o, call);
            && (o'.verified ==> !WrongGuess(o, call))
            && (!o'.verified ==>
                  && o'.sentAt.Some? && o'.sentAt.value <= call.at
                  && Count(WrongGuess(o, call)) + Budget(o', until) <= Budget(o, until))
  {
  }

  lemma {:induction false} GuessesWithinBudget(o: Otp, calls: seq<Call>, until: Time)
    requires o.sentAt.Some? && !o.verified && OrderedFrom(o.sentAt.value, calls)
    ensures WrongGuesses(o, calls, until) <= Budget(o, until)
    decreases |calls|
  {
    if calls == [] {
    } else if calls[0].at > until {
      NoGuessesAfter(o, calls, until);
    } else {
      var o' := Exec(o, calls[0]);
      BudgetPays(o, calls[0], until);
      hide Exec, Budget, WrongGuess;
      if o'.verified {
        NoGuessesOnceVerified(o', calls[1..], until);
      } else {
        GuessesWithinBudget(o', calls[1..], until);
      }
    }
  }

  /**
    Over every run of `sendOtp` and `verifyOtp`: before a first code has gone out nothing is compared, and within
    `span` of that moment at most 5 * (1 + span / 60 s) wrong guesses are.
   */
  lemma {:induction false} OtpGuessBound(o: Otp, calls: seq<Call>, span: nat, start: Time)
    requires Unasked(o) && OrderedFrom(start, calls)
    ensures match FirstSend(o, calls)
            case None => forall until :: WrongGuesses(o, calls, until) == 0
            case Some(t) => WrongGuesses(o, calls, t + span) <= MAX_OTP_ATTEMPTS * (1 + span / OTP_COOLDOWN_MS)
    decreases |calls|
  {
    if calls != [] {
      var o' := Exec(o, calls[0]);
      if GoesOut(o, calls[0]) {
        GuessesWithinBudget(o', calls[1..], calls[0].at + span);
      } else {
        OtpGuessBound(o', calls[1..], span, start);
      }
    }
  }

  // ----- What decides a call -----

  /** A code is on record that may still be tried. */
  predicate CodeAlive(o: Otp, now: Time) {
    o.code.Some? && (o.expiresAt.Some? ==> now <= o.expiresAt.value) && o.attempts < MAX_OTP_ATTEMPTS
  }

  /** While a code of an unverified number is alive the comparison decides; otherwise nothing is compared. */
  lemma VerificationDecides(o: Otp, now: Time, matches: bool)
    ensures var (o', reply) := VerifyOtp(o, now, matches);
            && (reply == Verified <==> !o.verified && CodeAlive(o, now) && matches)
            && (reply == InvalidOtp <==> !o.verified && CodeAlive(o, now) && !matches)
            && (reply == Verified ==> o' == Otp(true, o.phone, None, None, None, 0))
            && (reply == InvalidOtp ==> o' == o.(attempts := o.attempts + 1))
            && (reply != Verified ==> o'.verified == o.verified && o'.phone == o.phone && o'.sentAt == o.sentAt)
  {
  }

  /** A code goes out exactly to an unverified number that is known or given, a minute after the last one. */
  lemma SendingDecides(o: Otp, now: Time, phone: Option<Phone>, code: nat)
    ensures var (o', reply) := SendOtp(o, now, phone, code);
            var number := if phone.Some? && phone.value != "" then phone else o.phone;
            && (reply == Sent <==>
                  && !o.verified && number.Some? && number.value != ""
                  && (o.sentAt.Some? ==> now >= o.sentAt.value + OTP_COOLDOWN_MS))
            && (reply == Sent ==>
                  && o' == Otp(false, number, Some(code), Some(now + OTP_EXPIRY_MS), Some(now), 0)
                  && CodeAlive(o', now + OTP_EXPIRY_MS) && !CodeAlive(o', now + OTP_EXPIRY_MS + 1))
            && (reply != Sent ==> o' == o)
            && (reply.PleaseWait? ==>
                  && now + reply.seconds * 1000 >= o.sentAt.value + OTP_COOLDOWN_MS
                  && now + (reply.seconds - 1) * 1000 < o.sentAt.value + OTP_COOLDOWN_MS)
  {
  }

  // ----- When a number becomes verified -----

  function After(o: Otp, calls: seq<Call>): Otp {
    if calls == [] then o else Exec(After(o, calls[..|calls| - 1]), calls[|calls| - 1])
  }

  /** Call `k` sends a code. */
  predicate SendsAt(o: Otp, calls: seq<Call>, k: nat) {
    k < |calls| && GoesOut(After(o, calls[..k]), calls[k])
  }

  /** Wrong guesses among the calls from number `k` up to, not including, number `n`. */
  function WrongFrom(o: Otp, calls: seq<Call>, k: nat, n: nat): nat
    requires k <= n <= |calls|
  {
    if k == n then 0
    else WrongFrom(o, calls, k, n - 1) + Count(WrongGuess(After(o, calls[..n - 1]), calls[n - 1]))
  }

  /** Call `s` sent the latest code before call `n`. */
  ghost predicate LatestCode(o: Otp, calls: seq<Call>, s: nat, n: nat) {
    s < n <= |calls| && SendsAt(o, calls, s) && forall j | s < j < n :: !SendsAt(o, calls, j)
  }

  /** The code on record is that of call `s`, and the attempts are the wrong guesses since. */
  ghost predicate Holds(o: Otp, calls: seq<Call>, s: nat, n: nat) {
    && LatestCode(o, calls, s, n)
    && var x := After(o, calls[..n]);
       && x.code.Some? && !x.verified && x.expiresAt == Some(calls[s].at + OTP_EXPIRY_MS)
       && x.phone == After(o, calls[..s + 1]).phone && x.attempts == WrongFrom(o, calls, s + 1, n)
  }

  /**
    Call `v` gives the right code, within ten minutes of the latest one sent, after fewer than five wrong guesses at
    that code.
   */
  ghost predicate VerifiedBy(o: Otp, calls: seq<Call>, v: nat, s: nat) {
    && v < |calls| && calls[v].Verify? && calls[v].matches
    && LatestCode(o, calls, s, v) && calls[v].at <= calls[s].at + OTP_EXPIRY_MS
    && WrongFrom(o, calls, s + 1, v) < MAX_OTP_ATTEMPTS
  }

  lemma AfterStep(o: Otp, calls: seq<Call>, n: nat, m: nat)
    requires n < |calls| && m == n + 1
    ensures After(o, calls[..m]) == Exec(After(o, calls[..n]), calls[n])
  {
    assert calls[..m][..n] == calls[..n];
  }

  /** One call, by what it does to the code on record. */
  lemma CodeStep(o: Otp, call: Call)
    ensures var o' := Exec(o, call);
            && (GoesOut(o, call) ==>
                  o'.code.Some? && !o'.verified && o'.attempts == 0 && o'.expiresAt == Some(call.at + OTP_EXPIRY_MS))
            && (!GoesOut(o, call) ==> o'.phone == o.phone)
            && (!GoesOut(o, call) && o'.code.Some? ==>
                  && o.code.Some? && o'.expiresAt == o.expiresAt && o'.verified == o.verified
                  && o'.attempts == o.attempts + Count(WrongGuess(o, call)))
            && (o.verified ==> o'.verified && !GoesOut(o, call) && !WrongGuess(o, call))
            && (o'.verified && !o.verified ==>
                  call.Verify? && call.matches && CodeAlive(o, call.at) && !WrongGuess(o, call))
            && (!o.verified && CodeAlive(o, call.at) && call.Verify? && call.matches ==> o'.verified)
            && (!o.verified && o.code.Some? && o'.code.None? ==> o'.verified || o.attempts >= MAX_OTP_ATTEMPTS)
  {
  }

  lemma HeldNext(o: Otp, calls: seq<Call>, s: nat, n: nat, m: nat)
    requires n < |calls| && m == n + 1 && After(o, calls[..m]).code.Some?
    requires if SendsAt(o, calls, n) then s == n else Holds(o, calls, s, n)
    ensures Holds(o, calls, s, m)
  {
    hide Exec, GoesOut, WrongGuess, After;
    AfterStep(o, calls, n, m);
    CodeStep(After(o, calls[..n]), calls[n]);
  }

  /** Whatever code is on record was sent by the latest call that sent one, and has been guessed at so often. */
  lemma {:induction false} CodeIsHeld(o: Otp, calls: seq<Call>, n: nat)
    requires n <= |calls| && Unasked(o) && After(o, calls[..n]).code.Some? && !After(o, calls[..n]).verified
    ensures exists s: nat :: Holds(o, calls, s, n)
  {
    hide Exec, GoesOut, WrongGuess, Holds;
    if n > 0 {
      var m := n - 1;
      AfterStep(o, calls, m, n);
      CodeStep(After(o, calls[..m]), calls[m]);
      if SendsAt(o, calls, m) {
        HeldNext(o, calls, m, m, n);
      } else {
        CodeIsHeld(o, calls, m);
        var s: nat :| Holds(o, calls, s, m);
        HeldNext(o, calls, s, m, n);
      }
    }
  }

  /** A code that has been guessed at less than five times stays on record until it is used or replaced. */
  lemma {:induction false} CodeStays(o: Otp, calls: seq<Call>, s: nat, n: nat)
    requires LatestCode(o, calls, s, n) && WrongFrom(o, calls, s + 1, n) < MAX_OTP_ATTEMPTS
    ensures After(o, calls[..n]).verified || Holds(o, calls, s, n)
  {
    hide Exec, GoesOut, WrongGuess;
    var m := n - 1;
    AfterStep(o, calls, m, n);
    CodeStep(After(o, calls[..m]), calls[m]);
    hide After;
    if m == s {
      HeldNext(o, calls, s, m, n);
    } else {
      CodeStays(o, calls, s, m);
      if After(o, calls[..n]).code.Some? && !After(o, calls[..m]).verified { HeldNext(o, calls, s, m, n); }
    }
  }

  lemma {:induction false} StaysVerified(o: Otp, calls: seq<Call>, n: nat, m: nat)
    requires n <= m <= |calls| && After(o, calls[..n]).verified
    ensures After(o, calls[..m]).verified && After(o, calls[..m]).phone == After(o, calls[..n]).phone
  {
    if n < m {
      StaysVerified(o, calls, n, m - 1);
      AfterStep(o, calls, m - 1, m);
    }
  }

  lemma RightCodeVerifies(o: Otp, calls: seq<Call>, v: nat, s: nat)
    requires VerifiedBy(o, calls, v, s)
    ensures After(o, calls).verified
  {
    hide Exec, GoesOut, WrongGuess, After;
    CodeStays(o, calls, s, v);
    AfterStep(o, calls, v, v + 1);
    CodeStep(After(o, calls[..v]), calls[v]);
    StaysVerified(o, calls, v + 1, |calls|);
    assert calls[..|calls|] == calls;
  }

  lemma {:induction false} VerifiedSomewhere(o: Otp, calls: seq<Call>, n: nat)
    requires n <= |calls| && Unasked(o) && After(o, calls[..n]).verified
    ensures exists v: nat, s: nat :: v < n && VerifiedBy(o, calls, v, s)
                                     && After(o, calls[..n]).phone == After(o, calls[..s + 1]).phone
  {
    hide Exec, GoesOut, WrongGuess;
    var m := n - 1;
    AfterStep(o, calls, m, n);
    CodeStep(After(o, calls[..m]), calls[m]);
    if After(o, calls[..m]).verified {
      VerifiedSomewhere(o, calls, m);
      StaysVerified(o, calls, m, n);
    } else {
      CodeIsHeld(o, calls, m);
      var s: nat :| Holds(o, calls, s, m);
      assert VerifiedBy(o, calls, m, s);
    }
  }

  /**
    A number becomes verified exactly by a right code in time. Over every run from a user who has not asked for a code:
    the number ends up verified if and only if some call gave the right code within ten minutes of the latest code sent
    and after fewer than five wrong guesses at it; and then it is the number that this code was sent to.
   */
  lemma VerifiedExactly(o: Otp, calls: seq<Call>)
    requires Unasked(o)
    ensures After(o, calls).verified <==> exists v: nat, s: nat :: VerifiedBy(o, calls, v, s)
    ensures After(o, calls).verified ==>
              exists v: nat, s: nat :: VerifiedBy(o, calls, v, s)
                  && After(o, calls).phone == After(o, calls[..s + 1]).phone
  {
    assert calls[..|calls|] == calls;
    if After(o, calls).verified { VerifiedSomewhere(o, calls, |calls|); }
    if v: nat, s: nat :| VerifiedBy(o, calls, v, s) { RightCodeVerifies(o, calls, v, s); }
  }
}

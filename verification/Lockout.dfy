/**
  Login lockout (`login` in `auth/auth.service.ts`): five wrong passwords close the account for fifteen minutes,
  and from then on each further wrong password closes it again.
 */
module Lockout {
  import opened Prelude

  const MAX_FAILED_LOGINS: nat := 5
  const LOCKOUT_MS: nat := 15 * 60 * 1000

  /** The two columns the lockout lives in. */
  datatype Guard = Guard(failed: nat, lockedUntil: Option<Time>)

  const OPEN_GUARD := Guard(0, None)

  datatype LoginReply = LockedOut(waitMinutes: int) | WrongPassword | LoggedIn

  predicate Locked(g: Guard, now: Time) {
    g.lockedUntil.Some? && g.lockedUntil.value > now
  }

  function Ceil(ms: int, unit: nat): int
    requires unit > 0
  {
    (ms + unit - 1) / unit
  }

  /** One login by an existing account; `matches` is the password comparison, which a locked account never reaches. */
  function Login(g: Guard, now: Time, matches: bool): (Guard, LoginReply) {
    if Locked(g, now) then (g, LockedOut(Ceil(g.lockedUntil.value - now, 60_000)))
    else if !matches then
      var failed := g.failed + 1;
      (Guard(failed, if failed >= MAX_FAILED_LOGINS then Some(now + LOCKOUT_MS) else g.lockedUntil), WrongPassword)
    else (if g.failed > 0 || g.lockedUntil.Some? then OPEN_GUARD else g, LoggedIn)
  }

  /** A login attempt, or a completed password reset, which clears the guard as well. */
  datatype Event = Attempt(at: Time, matches: bool) | Reset(at: Time)

  predicate Ordered(events: seq<Event>) {
    forall i, j | 0 <= i < j < |events| :: events[i].at <= events[j].at
  }

  function GuardAfter(events: seq<Event>): Guard {
    if events == [] then OPEN_GUARD else
    var (g, last) := (GuardAfter(events[..|events| - 1]), events[|events| - 1]);
    if last.Reset? then OPEN_GUARD else Login(g, last.at, last.matches).0
  }

  /** The rule, in terms of what has happened: five or more failures, the latest of them less than a lockout ago. */
  predicate Closed(wrong: seq<Time>, now: Time) {
    |wrong| >= MAX_FAILED_LOGINS && now < wrong[|wrong| - 1] + LOCKOUT_MS
  }

  /**
    The times of the failures since the last success or reset, from the attempts' times and passwords alone: an attempt
    while the account is closed counts for nothing, otherwise a right password starts afresh and a wrong one is one
    more.
   */
  function WrongSince(events: seq<Event>): seq<Time> {
    if events == [] then [] else
    var (wrong, last) := (WrongSince(events[..|events| - 1]), events[|events| - 1]);
    if last.Reset? then []
    else if Closed(wrong, last.at) then wrong
    else if last.matches then [] else wrong + [last.at]
  }

  /** From the fifth wrong password on, each comes at least a full lockout after the one before it. */
  predicate Spaced(wrong: seq<Time>) {
    forall k | MAX_FAILED_LOGINS <= k < |wrong| :: wrong[k] >= wrong[k - 1] + LOCKOUT_MS
  }

  /** What the two columns remember, exactly: how many failures, and until when the last one closes the account. */
  predicate Remembers(g: Guard, wrong: seq<Time>) {
    && g.failed == |wrong|
    && g.lockedUntil == if |wrong| >= MAX_FAILED_LOGINS then Some(wrong[|wrong| - 1] + LOCKOUT_MS) else None
  }

  lemma {:induction false} GuardRemembers(events: seq<Event>)
    requires Ordered(events)
    ensures Remembers(GuardAfter(events), WrongSince(events)) && Spaced(WrongSince(events))
    ensures forall t | t in WrongSince(events) :: events != [] && t <= events[|events| - 1].at
  {
    if events != [] {
      var (before, last) := (events[..|events| - 1], events[|events| - 1]);
      GuardRemembers(before);
      var (g, wrong) := (GuardAfter(before), WrongSince(before));
      assert forall k | 0 <= k < |wrong| :: (wrong + [last.at])[k] == wrong[k];
    }
  }

  lemma {:induction false} SpacingAddsUp(wrong: seq<Time>, i: nat, k: nat)
    requires Spaced(wrong) && MAX_FAILED_LOGINS - 1 <= i <= k < |wrong|
    ensures wrong[k] >= wrong[i] + (k - i) * LOCKOUT_MS
  {
    if i < k { SpacingAddsUp(wrong, i, k - 1); }
  }

  /**
    How a login is answered after any ordered history: while the account is closed it is turned away whatever the
    password, and nothing changes; otherwise the password alone decides, and the right one leaves an open guard however
    many have failed.
   */
  lemma LoginDecides(events: seq<Event>, now: Time, matches: bool)
    requires Ordered(events)
    ensures var (g, reply) := Login(GuardAfter(events), now, matches);
            var closed := Closed(WrongSince(events), now);
            && (reply.LockedOut? <==> closed) && (closed ==> g == GuardAfter(events))
            && (reply.LoggedIn? <==> !closed && matches) && (reply.LoggedIn? ==> g == OPEN_GUARD)
            && (reply.WrongPassword? <==> !closed && !matches)
            && (reply.WrongPassword? ==>
                  && g.failed == |WrongSince(events)| + 1
                  && (Locked(g, now) <==> g.failed >= MAX_FAILED_LOGINS))
  {
    GuardRemembers(events);
  }

  /**
    After any ordered history: the k-th wrong password since the last success or reset (k > 5) was compared no sooner
    than (k - 5) lockouts after the fifth; the counter equals their number, whether or not a lock has run out since;
    and an attempt is turned away without a comparison exactly when five or more have failed and the latest failure
    is less than a lockout old.
   */
  lemma LockoutBound(events: seq<Event>, k: nat, now: Time)
    requires Ordered(events)
    ensures GuardAfter(events).failed == |WrongSince(events)|
    ensures MAX_FAILED_LOGINS < k <= |WrongSince(events)| ==>
              WrongSince(events)[k - 1]
              >= WrongSince(events)[MAX_FAILED_LOGINS - 1] + (k - MAX_FAILED_LOGINS) * LOCKOUT_MS
    ensures forall matches :: Login(GuardAfter(events), now, matches).1.LockedOut? <==> Closed(WrongSince(events), now)
  {
    GuardRemembers(events);
    if MAX_FAILED_LOGINS < k <= |WrongSince(events)| {
      SpacingAddsUp(WrongSince(events), MAX_FAILED_LOGINS - 1, k - 1);
    }
  }

  /** Hence within `span` of the fifth failure at most `span / 15 min` more passwords can be tried in vain. */
  lemma GuessesAfterFifth(events: seq<Event>, span: nat, k: nat)
    requires Ordered(events) && MAX_FAILED_LOGINS <= k <= |WrongSince(events)|
    requires WrongSince(events)[k - 1] <= WrongSince(events)[MAX_FAILED_LOGINS - 1] + span
    ensures k <= MAX_FAILED_LOGINS + span / LOCKOUT_MS
  {
    LockoutBound(events, k, 0);
    assert (k - MAX_FAILED_LOGINS) * LOCKOUT_MS <= span;
  }

  /** The wait shown to a locked-out user covers the rest of the lock and overshoots it by less than a minute. */
  lemma WaitCoversLock(g: Guard, now: Time, matches: bool)
    requires Locked(g, now)
    ensures var reply := Login(g, now, matches).1;
            reply.LockedOut? && reply.waitMinutes >= 1
            && !Locked(g, now + reply.waitMinutes * 60_000) && Locked(g, now + (reply.waitMinutes - 1) * 60_000)
  {
  }
}

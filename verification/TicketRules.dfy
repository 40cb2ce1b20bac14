/**
  Who gets a ticket and who gets in: for each ticketing call, what decides it, in terms of the rows alone; and for whole
  runs, on what grounds every ticket was issued and every scan went through.
 */
module TicketRules {
  import opened Prelude
  import opened TicketTables
  import opened TicketRuns
  import TicketSafety

  // ---------------------------------------------------------------------------------------------
  // What decides a call
  // ---------------------------------------------------------------------------------------------

  predicate HasNone(db: Db, user: UserId, event: EventId) {
    forall id | id in db.tickets :: db.tickets[id].user != user || db.tickets[id].event != event
  }

  /** The tables with one more ticket, and one seat less of its type, which is closed at the last seat. */
  ghost predicate OneMore(db: Db, db': Db, id: TicketId, user: UserId, event: EventId, ty: TypeId) {
    && ty in db.types && db'.events == db.events && db'.users == db.users
    && db'.tickets == db.tickets[id := Ticket(user, event, ty, Issued, None)]
    && db'.types.Keys == db.types.Keys && (forall other | other in db.types && other != ty ::
                                             db'.types[other] == db.types[other])
    && db'.types[ty].remaining == db.types[ty].remaining - 1
    && (db'.types[ty].soldOut <==> db.types[ty].soldOut || db'.types[ty].remaining == 0)
    && SameOffer(db.types[ty], db'.types[ty])
  }

  /** A claim goes through exactly for a free, open type of an internal event that the user has no ticket for. */
  lemma ClaimDecides(db: Db, id: TicketId, user: UserId, event: EventId, ty: TypeId)
    ensures var (db', r) := Claim(db, id, user, event, ty);
            && (r.Ok? ==> r.value == id)
            && (r.Ok? <==>
                  && OnSale(db, event, ty) && HasNone(db, user, event) && user in db.users
                  && db.types[ty].remaining > 0 && !db.types[ty].soldOut)
            && (r.Ok? ==> OneMore(db, db', id, user, event, ty) && db'.vouchers == db.vouchers)
            && (r.Err? ==> db' == db)
            && (r == Err(ExternalEvent) ==> event in db.events && db.events[event].external)
            && (r == Err(NotFree) ==> ty in db.types && db.types[ty].price != 0)
            && (r == Err(AlreadyHasTicket) ==> !HasNone(db, user, event))
            && (r == Err(SoldOut) ==> ty in db.types && (db.types[ty].remaining <= 0 || db.types[ty].soldOut))
  {
  }

  /** A student belongs to the event's school or a connected one, and shows a linked card where one is asked for. */
  predicate MayAttend(db: Db, event: EventId, user: UserId) {
    && event in db.events && !db.events[event].external
    && (user in db.users && db.users[user].student ==>
          var (u, e) := (db.users[user], db.events[event]);
          && u.school.Some? && (u.school.value == e.school || u.school.value in e.connectedSchools)
          && (e.restrictToCardHolders && e.linkedCards != {} ==> exists c :: c in u.usedCards && c in e.linkedCards))
  }

  /** An open type meant for the user: a connected school's own for its students, the host's for everybody else. */
  predicate Suits(db: Db, e: Event, user: UserId, ty: TypeId) {
    && ty in db.types && db.types[ty].remaining > 0 && !db.types[ty].soldOut
    && db.types[ty].connectedSchool
       == if user in db.users && db.users[user].school.Some? && db.users[user].school.value in e.connectedSchools
          then db.users[user].school else None
  }

  /** The first type in the event's order that suits the user. */
  predicate FirstChoice(db: Db, event: EventId, user: UserId, ty: TypeId) {
    && event in db.events
    && exists i :: 0 <= i < |db.events[event].ticketTypes| && ChosenAt(db, db.events[event], user, ty, i)
  }

  predicate ChosenAt(db: Db, e: Event, user: UserId, ty: TypeId, i: nat)
    requires i < |e.ticketTypes|
  {
    e.ticketTypes[i] == ty && Suits(db, e, user, ty) && forall j | 0 <= j < i :: !Suits(db, e, user, e.ticketTypes[j])
  }

  lemma {:induction false} FirstOpenIsFirst(db: Db, order: seq<TypeId>, school: Option<SchoolId>)
    ensures var choice := FirstOpen(db, order, school);
            choice.Some? ==> exists i :: 0 <= i < |order| && order[i] == choice.value
                                         && forall j | 0 <= j < i && order[j] in db.types ::
                                              !Eligible(db.types[order[j]], school) || !Open(db.types[order[j]])
  {
    var choice := FirstOpen(db, order, school);
    if choice.Some? && choice != Some(order[0]) {
      FirstOpenIsFirst(db, order[1..], school);
      var i :| 0 <= i < |order[1..]| && order[1..][i] == choice.value
               && forall j | 0 <= j < i && order[1..][j] in db.types ::
                    !Eligible(db.types[order[1..][j]], school) || !Open(db.types[order[1..][j]]);
      forall j | 0 <= j < i + 1 && order[j] in db.types
        ensures !Eligible(db.types[order[j]], school) || !Open(db.types[order[j]])
      {
        if j > 0 { assert order[1..][j - 1] == order[j]; }
          else { assert FirstOpen(db, order, school) != Some(order[0]); }
      }
      assert order[i + 1] == choice.value;
    }
  }

  lemma RsvpChoice(db: Db, event: EventId, user: UserId)
    requires event in db.events
    ensures var choice := RsvpType(db, event, user);
            if choice.Some? then FirstChoice(db, event, user, choice.value)
            else forall ty | ty in db.events[event].ticketTypes :: !Suits(db, db.events[event], user, ty)
  {
    var e := db.events[event];
    var school := if ConnectedStudent(db, e, user) then db.users[user].school else None;
    forall ty ensures Suits(db, e, user, ty)
        <==> ty in db.types && Eligible(db.types[ty], school) && Open(db.types[ty]) {}
    FirstOpenIsFirst(db, e.ticketTypes, school);
    var choice := RsvpType(db, event, user);
    if choice.Some? {
      var i :| 0 <= i < |e.ticketTypes| && e.ticketTypes[i] == choice.value
               && forall j | 0 <= j < i && e.ticketTypes[j] in db.types ::
                    !Eligible(db.types[e.ticketTypes[j]], school) || !Open(db.types[e.ticketTypes[j]]);
      assert ChosenAt(db, e, user, choice.value, i);
    }
  }

  lemma RsvpCheckDecides(db: Db, event: EventId, user: UserId)
    ensures RsvpPrecheck(db, event, user).None? <==> MayAttend(db, event, user)
    ensures RsvpPrecheck(db, event, user) != Some(AlreadyHasTicket)
  {
    if event in db.events && Student(db, user) {
      var both := db.users[user].usedCards * db.events[event].linkedCards;
      assert both == {} <==> !exists c :: c in db.users[user].usedCards && c in db.events[event].linkedCards by {
        if c :| c in db.users[user].usedCards && c in db.events[event].linkedCards { assert c in both; }
        if c :| c in both { assert c in db.users[user].usedCards; }
      }
    }
  }

  /** An RSVP goes through exactly for who may attend, has no ticket, and finds an open type; it is the first such. */
  lemma RsvpDecides(db: Db, id: TicketId, event: EventId, user: UserId)
    ensures var (db', r) := Rsvp(db, id, event, user);
            && (r.Ok? ==> r.value == id)
            && (r.Ok? <==>
                  && MayAttend(db, event, user) && user in db.users && HasNone(db, user, event)
                  && exists ty :: ty in db.events[event].ticketTypes && Suits(db, db.events[event], user, ty))
            && (r.Ok? ==>
                  && db'.vouchers == db.vouchers
                  && exists ty :: FirstChoice(db, event, user, ty) && OneMore(db, db', id, user, event, ty))
            && (r.Err? ==> db' == db)
            && (r == Err(WrongSchool) || r == Err(NeedsCard) ==> !MayAttend(db, event, user))
            && (r == Err(AlreadyHasTicket) ==> !HasNone(db, user, event))
  {
    RsvpCheckDecides(db, event, user);
    hide MayAttend, RsvpPrecheck, Suits, FirstChoice, RsvpType;
    if event in db.events {
      RsvpChoice(db, event, user);
      var choice := RsvpType(db, event, user);
      if choice.Some? {
        ChoiceSuits(db, event, user, choice.value);
        if Rsvp(db, id, event, user).1.Ok? {
          assert OneMore(db, Rsvp(db, id, event, user).0, id, user, event, choice.value);
        }
      }
    } else {
      assert !MayAttend(db, event, user) by { NoEventNoEntry(db, event, user); }
    }
  }

  lemma NoEventNoEntry(db: Db, event: EventId, user: UserId)
    requires event !in db.events
    ensures !MayAttend(db, event, user)
  {
  }

  lemma ChoiceSuits(db: Db, event: EventId, user: UserId, ty: TypeId)
    requires FirstChoice(db, event, user, ty)
    ensures event in db.events && ty in db.events[event].ticketTypes && Suits(db, db.events[event], user, ty)
    ensures ty in db.types
  {
    var i :| 0 <= i < |db.events[event].ticketTypes| && ChosenAt(db, db.events[event], user, ty, i);
  }

  /** The voucher is unused, in date, the user's own or anybody's, and for an internal event. */
  predicate Redeemable(db: Db, code: VoucherId, user: UserId, now: Time) {
    && code in db.vouchers
    && var v := db.vouchers[code];
       && !v.used && (v.expiresAt.Some? ==> now <= v.expiresAt.value)
       && (v.assignedTo == None || v.assignedTo == Some(user))
       && (v.event in db.events ==> !db.events[v.event].external)
  }

  /** A voucher is good exactly for a user without a ticket, while its type has seats; it is used up by that user. */
  lemma RedeemDecides(db: Db, id: TicketId, code: VoucherId, user: UserId, now: Time)
    ensures var (db', r) := Redeem(db, id, code, user, now);
            && (r.Ok? ==> r.value == id)
            && (r.Ok? <==>
                  && Redeemable(db, code, user, now) && user in db.users && HasNone(db, user, db.vouchers[code].event)
                  && db.vouchers[code].ticketType in db.types
                  && db.types[db.vouchers[code].ticketType].remaining > 0)
            && (r.Ok? ==>
                  && OneMore(db, db', id, user, db.vouchers[code].event, db.vouchers[code].ticketType)
                  && db'.vouchers == db.vouchers[code := db.vouchers[code].(used := true, redeemedBy := Some(user),
                      redeemedAt := Some(now))])
            && (r.Err? ==> db' == db)
            && (r == Err(VoucherExpired) ==>
                  && code in db.vouchers && db.vouchers[code].expiresAt.Some?
                  && db.vouchers[code].expiresAt.value < now)
            && (r == Err(VoucherOfAnother) ==>
                  && code in db.vouchers && db.vouchers[code].assignedTo.Some?
                  && db.vouchers[code].assignedTo != Some(user))
  {
  }

  /** Voiding is refused exactly for what is void already; an unused ticket's seat goes back, a used one's does not. */
  lemma VoidDecides(db: Db, id: TicketId)
    requires id in db.tickets ==> db.tickets[id].ticketType in db.types
    ensures var (db', r) := VoidTicket(db, id);
            && (r.Ok? <==> id in db.tickets && db.tickets[id].status != Void)
            && (r.Err? ==> db' == db && (r == Err(AlreadyVoid) <==> id in db.tickets))
            && (r.Ok? ==>
                  && db'.tickets == db.tickets[id := db.tickets[id].(status := Void)]
                  && (db.tickets[id].status == CheckedIn ==> db' == db.(tickets := db'.tickets))
                  && (db.tickets[id].status == Issued ==> SeatBack(db, db', db.tickets[id].ticketType)))
  {
  }

  /** One seat more of the type, which is open again; otherwise tickets alone differ. */
  ghost predicate SeatBack(db: Db, db': Db, ty: TypeId) {
    && ty in db.types && db' == db.(tickets := db'.tickets, types := db'.types)
    && db'.types == db.types[ty := db.types[ty].(remaining := db.types[ty].remaining + 1, soldOut := false)]
  }

  /** Cancelling is refused exactly without a ticket or after check-in; the seat goes back, a void ticket's included. */
  lemma CancelDecides(db: Db, user: UserId, event: EventId)
    requires UniqueTickets(db.tickets) && forall id | id in db.tickets :: db.tickets[id].ticketType in db.types
    ensures var (db', r) := Cancel(db, user, event);
            && (r == Err(TicketNotFound) <==> HasNone(db, user, event))
            && (r.Err? ==> db' == db)
            && forall id | id in db.tickets && db.tickets[id].user == user && db.tickets[id].event == event ::
                 && (r.Ok? <==> db.tickets[id].status != CheckedIn)
                 && (r.Ok? ==>
                       && db'.tickets == db.tickets[id := db.tickets[id].(status := Void)]
                       && SeatBack(db, db', db.tickets[id].ticketType))
  {
  }

  /** A manual check-in goes through exactly for an issued ticket, and is noted with its time. */
  lemma CheckInDecides(db: Db, id: TicketId, now: Time)
    ensures var (db', r) := CheckIn(db, id, now);
            && (r.Ok? <==> id in db.tickets && db.tickets[id].status == Issued)
            && (r.Ok? ==>
                  db' == db.(tickets := db.tickets[id := db.tickets[id].(status := CheckedIn,
                      checkedInAt := Some(now))]))
            && (r.Err? ==> db' == db)
            && (r == Err(AlreadyUsed) <==> id in db.tickets && db.tickets[id].status == CheckedIn)
            && (r == Err(AlreadyVoid) <==> id in db.tickets && db.tickets[id].status == Void)
  {
  }

  /** A new type starts with all its seats, open, last in its event's order, and free unless the event is external. */
  lemma CreationDecides(db: Db, ty: TypeId, event: EventId, price: int, school: Option<SchoolId>, total: int)
    requires event in db.events && ty !in db.types
    ensures var (db', e) := (NewType(db, ty, event, price, school, total), db.events[event]);
            && db' == db.(types := db'.types, events := db'.events)
            && db'.types.Keys == db.types.Keys + {ty} && (forall t | t in db.types :: db'.types[t] == db.types[t])
            && db'.types[ty].event == event && db'.types[ty].connectedSchool == school
            && db'.types[ty].total == db'.types[ty].remaining == total && !db'.types[ty].soldOut
            && db'.types[ty].price == (if e.external then price else 0)
            && db'.events == db.events[event := e.(ticketTypes := e.ticketTypes + [ty])]
  {
  }

  /** An administrator's mark is refused exactly for a type of another event, and writes the flag alone. */
  lemma MarkingDecides(db: Db, event: EventId, ty: TypeId, soldOut: bool)
    ensures var (db', r) := MarkSoldOut(db, event, ty, soldOut);
            && (r.Ok? <==> ty in db.types && db.types[ty].event == event)
            && (r.Ok? ==> db' == db.(types := db.types[ty := db.types[ty].(soldOut := soldOut)]))
            && (r.Err? ==> db' == db && r.error == TypeOfOtherEvent)
  {
  }

  // ---------------------------------------------------------------------------------------------
  // At the door
  // ---------------------------------------------------------------------------------------------

  /** The ticket's event is on record, not called off, and not over. */
  predicate DoorOpen(db: Db, id: TicketId, now: Time) {
    && id in db.tickets && db.tickets[id].event in db.events
    && !db.events[db.tickets[id].event].cancelled && now <= db.events[db.tickets[id].event].endsAt
  }

  /** What a scan finds at its first look. */
  lemma LookDecides(db: Db, id: TicketId, now: Time)
    ensures var refused := ScanPrecheck(db, id, now);
            && (refused == None <==> DoorOpen(db, id, now) && db.tickets[id].status == Issued)
            && (refused == Some(TicketNotFound) <==> id !in db.tickets)
            && (refused == Some(EventNotFound) <==> id in db.tickets && db.tickets[id].event !in db.events)
            && (refused == Some(EventCancelled) <==>
                  && id in db.tickets && db.tickets[id].event in db.events
                  && db.events[db.tickets[id].event].cancelled)
            && (refused == Some(EventEnded) <==>
                  && id in db.tickets && db.tickets[id].event in db.events
                  && !db.events[db.tickets[id].event].cancelled && now > db.events[db.tickets[id].event].endsAt)
            && (refused == Some(AlreadyVoid) <==> DoorOpen(db, id, now) && db.tickets[id].status == Void)
            && (refused == Some(AlreadyUsed) <==> DoorOpen(db, id, now) && db.tickets[id].status == CheckedIn)
  {
  }

  /** The scan has had its first look and was not refused by it. */
  predicate LetPass(s: Sys, p: Proc) {
    p in s.scans && (s.scans[p].stage.SeenIssued? || s.scans[p].stage.Valid? || Succeeded(s.scans[p]))
  }

  /** Step `k` of the run is the scan's first look, at an issued ticket of an event under way. */
  ghost predicate LooksAt(s: Sys, steps: seq<Step>, k: nat, p: Proc, id: TicketId) {
    && k < |steps| && steps[k].ScanStep? && steps[k].p == p
    && var before := Run(s, steps[..k]);
       && p in before.scans && before.scans[p].stage.Arrived? && before.scans[p].ticket == id
       && DoorOpen(before.db, id, steps[k].now) && before.db.tickets[id].status == Issued
  }

  lemma PassStep(s: Sys, step: Step, p: Proc)
    requires !LetPass(s, p)
    ensures LetPass(Exec(s, step), p)
            <==> && step.ScanStep? && step.p == p && p in s.scans && s.scans[p].stage.Arrived?
                 && DoorOpen(s.db, s.scans[p].ticket, step.now) && s.db.tickets[s.scans[p].ticket].status == Issued
    ensures LetPass(Exec(s, step), p) ==> Exec(s, step).scans[p].ticket == s.scans[p].ticket
  {
    if step.ScanStep? && step.p == p && p in s.scans { LookDecides(s.db, s.scans[p].ticket, step.now); }
    hide ScanPrecheck, DoorOpen, CheckIn, VoidTicket, Cancel, Rsvp, Redeem, StepClaim, Holds, FreshTicket, PendingKey,
        RsvpPrecheck, RedeemPrecheck, RsvpType;
  }

  /** A prefix of the run of the rest, from here. */
  lemma RunShift(s: Sys, steps: seq<Step>, k: nat)
    requires steps != [] && k < |steps|
    ensures Run(s, steps[..k + 1]) == Run(Exec(s, steps[0]), steps[1..][..k])
  {
    assert steps[..k + 1][1..] == steps[1..][..k];
  }

  /**
    Nobody is let in outside an event: in every interleaving, revisions of the event included, a scan that was not under
    way at the start and has gone through, or only verified, had its first look at a moment when its event was on
    record, not called off and not past its end, and its ticket issued.
   */
  lemma {:induction false} EveryAdmissionAtTheDoor(s: Sys, steps: seq<Step>, p: Proc)
    requires !LetPass(s, p) && LetPass(Run(s, steps), p)
    ensures p in Run(s, steps).scans
    ensures exists k: nat :: LooksAt(s, steps, k, p, Run(s, steps).scans[p].ticket)
    decreases |steps|
  {
    hide Exec, LetPass, DoorOpen;
    var (s', rest) := (Exec(s, steps[0]), steps[1..]);
    PassStep(s, steps[0], p);
    if LetPass(s', p) {
      assert Run(s, steps[..0]) == s;
      PassingScans(s', p);
      TicketSafety.ScansStayPut(s', rest, p);
      assert LooksAt(s, steps, 0, p, s'.scans[p].ticket);
    } else {
      EveryAdmissionAtTheDoor(s', rest, p);
      PassingScans(Run(s', rest), p);
      var k: nat :| LooksAt(s', rest, k, p, Run(s', rest).scans[p].ticket);
      RunShift(s, steps, k);
      assert LooksAt(s, steps, k + 1, p, Run(s', rest).scans[p].ticket);
    }
  }

  /** It is that first look alone: an event called off after it does not stop the scan. */
  lemma AdmittedAfterCalledOff(s: Sys, p: Proc, id: TicketId, now: Time, later: Time)
    requires p !in s.scans && DoorOpen(s.db, id, now) && s.db.tickets[id].status == Issued
    ensures var event := s.db.tickets[id].event;
            var looked := Exec(Exec(s, BeginScan(p, id, false)), ScanStep(p, now));
            var s' := Exec(Exec(looked, ReviseCall(event, true, s.db.events[event].endsAt)), ScanStep(p, later));
            && s'.db.events[event].cancelled && p in s'.scans && Succeeded(s'.scans[p])
            && s'.db.tickets[id] == s.db.tickets[id].(status := CheckedIn, checkedInAt := Some(later))
  {
  }

  lemma PassingScans(s: Sys, p: Proc)
    requires LetPass(s, p)
    ensures p in s.scans
  {
  }

  /** A scan that is only to verify has not got beyond verifying. */
  predicate OnlyVerifies(s: Sys, p: Proc) {
    p in s.scans && s.scans[p].verifyOnly ==> !s.scans[p].stage.SeenIssued? && !Succeeded(s.scans[p])
  }

  lemma VerifyingStep(s: Sys, step: Step, p: Proc)
    requires OnlyVerifies(s, p)
    ensures OnlyVerifies(Exec(s, step), p)
  {
    hide ScanPrecheck, CheckIn, VoidTicket, Cancel, Rsvp, Redeem, ClaimPrecheck, Holds, FreshTicket, PendingKey,
        RsvpPrecheck, RedeemPrecheck, RsvpType;
  }

  /** Verifying admits nobody, in any interleaving. */
  lemma {:induction false} VerifyingAdmitsNobody(s: Sys, steps: seq<Step>, p: Proc)
    requires OnlyVerifies(s, p)
    ensures OnlyVerifies(Run(s, steps), p)
    decreases |steps|
  {
    hide Exec, OnlyVerifies;
    if steps != [] {
      VerifyingStep(s, steps[0], p);
      VerifyingAdmitsNobody(Exec(s, steps[0]), steps[1..], p);
    }
  }

  // ---------------------------------------------------------------------------------------------
  // On what grounds tickets are issued
  // ---------------------------------------------------------------------------------------------

  /** Every claim past its first check is for a free type of an internal event. */
  ghost predicate Checked(s: Sys) {
    forall p | p in s.claims && !s.claims[p].stage.Begun? && !s.claims[p].stage.Lost? ::
      OnSale(s.db, s.claims[p].event, s.claims[p].ticketType)
  }

  /** No step moves an event inside or outside, and only a revision calls it off or moves its end. */
  lemma EventsStay(s: Sys, step: Step, event: EventId)
    requires event in s.db.events
    ensures var s' := Exec(s, step);
            && event in s'.db.events
            && var (e, e') := (s.db.events[event], s'.db.events[event]);
               && e' == e.(ticketTypes := e'.ticketTypes, cancelled := e'.cancelled, endsAt := e'.endsAt)
               && (!step.ReviseCall? ==> e'.cancelled == e.cancelled && e'.endsAt == e.endsAt)
  {
    hide ScanPrecheck, ClaimPrecheck, Holds, FreshTicket, PendingKey, RsvpPrecheck, RedeemPrecheck, RsvpType;
  }

  lemma OfferStays(s: Sys, step: Step, event: EventId, ty: TypeId)
    requires Inv(s) && OnSale(s.db, event, ty)
    ensures OnSale(Exec(s, step).db, event, ty)
  {
    StepKeepsInv(s, step);
    EventsStay(s, step, event);
    hide Inv, Exec;
  }

  /** Which claims a step moves, and how far. */
  lemma ClaimsMove(s: Sys, step: Step, p: Proc)
    requires p in Exec(s, step).claims
    ensures var c := Exec(s, step).claims[p];
            && (p !in s.claims ==> c.stage.Begun?)
            && (p in s.claims ==>
                  && c.event == s.claims[p].event && c.ticketType == s.claims[p].ticketType
                  && (!c.stage.Begun? && !c.stage.Lost? && !s.claims[p].stage.Lost? && s.claims[p].stage.Begun? ==>
                        ClaimPrecheck(s.db, c.event, c.ticketType).None?)
                  && (s.claims[p].stage.Lost? ==> c.stage.Lost?))
  {
    hide ScanPrecheck, ClaimPrecheck, Holds, FreshTicket, PendingKey, RsvpPrecheck, RedeemPrecheck, RsvpType,
        StepScan, CheckIn, StepVoid, StepCancel, StepRsvp, StepRedeem;
    if !step.BeginClaim? && !step.ClaimStep? && !step.AbortClaim? { OtherStepsKeepClaims(s, step); }
  }

  lemma OtherStepsKeepClaims(s: Sys, step: Step)
    requires !step.BeginClaim? && !step.ClaimStep? && !step.AbortClaim?
    ensures Exec(s, step).claims == s.claims
  {
    hide ScanPrecheck, Holds, FreshTicket, PendingKey, RsvpPrecheck, RedeemPrecheck, RsvpType;
  }

  lemma OfferIsChecked(db: Db, event: EventId, ty: TypeId)
    ensures ClaimPrecheck(db, event, ty).None? <==> OnSale(db, event, ty)
  {
  }

  lemma StepKeepsChecked(s: Sys, step: Step)
    requires Inv(s) && Checked(s)
    ensures Checked(Exec(s, step))
  {
    var s' := Exec(s, step);
    hide Inv, Exec, OnSale;
    forall p | p in s'.claims && !s'.claims[p].stage.Begun? && !s'.claims[p].stage.Lost?
      ensures OnSale(s'.db, s'.claims[p].event, s'.claims[p].ticketType)
    {
      ClaimsMove(s, step, p);
      OfferIsChecked(s.db, s'.claims[p].event, s'.claims[p].ticketType);
      OfferStays(s, step, s'.claims[p].event, s'.claims[p].ticketType);
    }
  }

  /** The step issues ticket `id`, on the grounds that its kind of call asks for. */
  ghost predicate IssuedBy(s: Sys, step: Step, id: TicketId, t: Ticket) {
    && HasNone(s.db, t.user, t.event) && t.user in s.db.users
    && match step
       case ClaimStep(p, _) =>
         && p in s.claims && s.claims[p].user == t.user && s.claims[p].event == t.event
         && s.claims[p].ticketType == t.ticketType && OnSale(s.db, t.event, t.ticketType)
       case RsvpCall(event, user, _) =>
         && event == t.event && user == t.user
         && MayAttend(s.db, event, user) && FirstChoice(s.db, event, user, t.ticketType)
       case RedeemCall(code, user, now, _) =>
         && user == t.user && Redeemable(s.db, code, user, now)
         && s.db.vouchers[code].event == t.event && s.db.vouchers[code].ticketType == t.ticketType
       case _ => false
  }

  lemma ClaimIssues(s: Sys, p: Proc, i: TicketId, id: TicketId)
    requires Inv(s) && Checked(s) && id !in s.db.tickets && id in StepClaim(s, p, i).db.tickets
    ensures IssuedBy(s, ClaimStep(p, i), id, StepClaim(s, p, i).db.tickets[id])
  {
    hide DbInv, ScansStamped, LocksMatch, RowsMatch, WinnersHold, ClaimPrecheck, OnSale;
    assert p in s.claims && s.claims[p].stage.Inserted?;
    assert OnSale(s.db, s.claims[p].event, s.claims[p].ticketType);
  }

  lemma RsvpIssues(s: Sys, event: EventId, user: UserId, i: TicketId, id: TicketId)
    requires id !in s.db.tickets && id in StepRsvp(s, event, user, i).db.tickets
    ensures IssuedBy(s, RsvpCall(event, user, i), id, StepRsvp(s, event, user, i).db.tickets[id])
  {
    RsvpDecides(s.db, i, event, user);
    hide RsvpPrecheck, RsvpType, MayAttend, FirstChoice, FreshTicket, PendingKey, Rsvp;
    var ty :| FirstChoice(s.db, event, user, ty) && OneMore(s.db, Rsvp(s.db, i, event, user).0, i, user, event, ty);
  }

  lemma RedeemIssues(s: Sys, code: VoucherId, user: UserId, now: Time, i: TicketId, id: TicketId)
    requires id !in s.db.tickets && id in StepRedeem(s, code, user, now, i).db.tickets
    ensures IssuedBy(s, RedeemCall(code, user, now, i), id, StepRedeem(s, code, user, now, i).db.tickets[id])
  {
    RedeemDecides(s.db, i, code, user, now);
    hide RedeemPrecheck, Redeemable, FreshTicket, PendingKey, Redeem;
  }

  lemma OthersIssueNothing(s: Sys, step: Step)
    requires !step.ClaimStep? && !step.RsvpCall? && !step.RedeemCall?
    ensures Exec(s, step).db.tickets.Keys == s.db.tickets.Keys
  {
    hide ScanPrecheck, Holds;
  }

  lemma StepIssues(s: Sys, step: Step, id: TicketId)
    requires Inv(s) && Checked(s) && id !in s.db.tickets && id in Exec(s, step).db.tickets
    ensures IssuedBy(s, step, id, Exec(s, step).db.tickets[id])
  {
    hide Inv, Checked, StepClaim, StepRsvp, StepRedeem, StepVoid, StepCancel, StepScan, CheckIn, IssuedBy;
    match step
    case ClaimStep(p, i) => ClaimIssues(s, p, i, id);
    case RsvpCall(event, user, i) => RsvpIssues(s, event, user, i, id);
    case RedeemCall(code, user, now, i) => RedeemIssues(s, code, user, now, i, id);
    case _ => OthersIssueNothing(s, step);
  }

  /** Step `k` of the run issues the ticket. */
  ghost predicate IssuedAt(s: Sys, steps: seq<Step>, k: nat, id: TicketId, t: Ticket) {
    k < |steps| && IssuedBy(Run(s, steps[..k]), steps[k], id, t)
  }

  /**
    Every ticket was due. In every interleaving, for each ticket that comes into being there is the step that issued it,
    to a known user without a ticket for the event: a claim of a free type of an internal event; or an RSVP by somebody
    who may attend, of the first open type meant for the user; or a voucher for just that type and event, unused, in
    date and the user's to redeem.
   */
  lemma {:induction false} EveryTicketWasDue(s: Sys, steps: seq<Step>, id: TicketId)
    requires Inv(s) && Checked(s) && id !in s.db.tickets && id in Run(s, steps).db.tickets
    ensures exists k: nat :: IssuedAt(s, steps, k, id, Run(s, steps).db.tickets[id])
    decreases |steps|
  {
    hide Exec, Inv, Checked, IssuedBy;
    var (s', rest) := (Exec(s, steps[0]), steps[1..]);
    StepKeepsInv(s, steps[0]);
    StepKeepsChecked(s, steps[0]);
    if id in s'.db.tickets {
      StepIssues(s, steps[0], id);
      TicketSafety.RunKeepsInv(s', rest);
      SameGrounds(s, steps[0], id, s'.db.tickets[id], Run(s, steps).db.tickets[id]);
      assert Run(s, steps[..0]) == s;
      assert IssuedAt(s, steps, 0, id, Run(s, steps).db.tickets[id]);
    } else {
      EveryTicketWasDue(s', rest, id);
      var k: nat :| IssuedAt(s', rest, k, id, Run(s', rest).db.tickets[id]);
      RunShift(s, steps, k);
      assert IssuedAt(s, steps, k + 1, id, Run(s', rest).db.tickets[id]);
    }
  }

  lemma SameGrounds(s: Sys, step: Step, id: TicketId, t: Ticket, t': Ticket)
    requires IssuedBy(s, step, id, t) && Evolves(t, t')
    ensures IssuedBy(s, step, id, t')
  {
  }
}

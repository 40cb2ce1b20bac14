/**
  The sold-out flag and vouchers over runs: what moves a ticket type's row, when the flag tells the truth, who gets past
  a type closed by hand, and how often a voucher can be redeemed.
 */
module TicketFlags {
  import opened Prelude
  import opened TicketTables
  import opened TicketRuns
  import opened TicketSafety

  // ---------------------------------------------------------------------------------------------
  // What a step does to a type's row
  // ---------------------------------------------------------------------------------------------

  /** The step gives a seat of `ty` back: an unused ticket is voided, or a ticket not checked in is cancelled. */
  ghost predicate Returns(s: Sys, step: Step, ty: TypeId) {
    && ty !in s.locks
    && match step
       case VoidCall(id) => id in s.db.tickets && s.db.tickets[id].status == Issued && s.db.tickets[id].ticketType == ty
       case CancelCall(user, event) =>
         Holds(s.db.tickets, user, event)
         && var t := s.db.tickets[TicketOf(s.db, user, event)]; t.status != CheckedIn && t.ticketType == ty
       case _ => false
  }

  /** The step issues a ticket of type `ty`. */
  predicate Takes(s: Sys, step: Step, ty: TypeId) {
    match step
    case ClaimStep(p, _) => p in s.claims && s.claims[p].stage.Inserted? && s.claims[p].ticketType == ty
    case RsvpCall(event, user, id) =>
      StepRsvp(s, event, user, id) != s && RsvpPrecheck(s.db, event, user).None?
          && RsvpType(s.db, event, user) == Some(ty)
    case RedeemCall(code, user, now, id) =>
      StepRedeem(s, code, user, now, id) != s && code in s.db.vouchers && s.db.vouchers[code].ticketType == ty
    case _ => false
  }

  /** An administrator's mark on `ty` gets through. */
  predicate Marks(s: Sys, step: Step, ty: TypeId) {
    step.MarkCall? && step.ty == ty && ty !in s.locks && ty in s.db.types && s.db.types[ty].event == step.event
  }

  ghost function RowAfter(s: Sys, step: Step, ty: TypeId): TicketType
    requires ty in s.db.types
  {
    var row := s.db.types[ty];
    if Returns(s, step, ty) then ReturnSeat(row)
    else if Takes(s, step, ty) then TakeSeat(row)
    else if Marks(s, step, ty) then row.(soldOut := step.soldOut)
    else row
  }

  lemma ClaimMovesRow(s: Sys, p: Proc, id: TicketId, ty: TypeId)
    requires Inv(s) && ty in s.db.types
    ensures ty in StepClaim(s, p, id).db.types && StepClaim(s, p, id).db.types[ty] == RowAfter(s, ClaimStep(p, id), ty)
    ensures Takes(s, ClaimStep(p, id), ty) ==> Open(s.db.types[ty])
  {
    hide PendingDistinct, WinnersHold, LocksMatch, DbInv, ScansStamped, ClaimPrecheck, Holds;
    if p in s.claims && s.claims[p].stage.Inserted? { CommitIssues(s, p); }
  }

  lemma RsvpMovesRow(s: Sys, event: EventId, user: UserId, id: TicketId, ty: TypeId)
    requires ty in s.db.types
    ensures ty in StepRsvp(s, event, user, id).db.types
    ensures StepRsvp(s, event, user, id).db.types[ty] == RowAfter(s, RsvpCall(event, user, id), ty)
    ensures Takes(s, RsvpCall(event, user, id), ty) ==> Open(s.db.types[ty])
  {
    hide RsvpPrecheck, FreshTicket, PendingKey, Holds;
  }

  lemma RedeemMovesRow(s: Sys, code: VoucherId, user: UserId, now: Time, id: TicketId, ty: TypeId)
    requires ty in s.db.types
    ensures ty in StepRedeem(s, code, user, now, id).db.types
    ensures StepRedeem(s, code, user, now, id).db.types[ty] == RowAfter(s, RedeemCall(code, user, now, id), ty)
    ensures Takes(s, RedeemCall(code, user, now, id), ty) ==> s.db.types[ty].remaining > 0
  {
    hide FreshTicket, PendingKey, Holds;
  }

  lemma VoidMovesRow(s: Sys, id: TicketId, ty: TypeId)
    requires SoundRows(s.db.types, s.db.tickets) && ty in s.db.types
    ensures ty in StepVoid(s, id).db.types && StepVoid(s, id).db.types[ty] == RowAfter(s, VoidCall(id), ty)
    ensures Returns(s, VoidCall(id), ty) ==> s.db.types[ty].remaining >= 0
  {
    if id in s.db.tickets { assert s.db.tickets[id].ticketType in s.db.types; }
  }

  lemma CancelMovesRow(s: Sys, user: UserId, event: EventId, ty: TypeId)
    requires SoundRows(s.db.types, s.db.tickets) && ty in s.db.types
    ensures ty in StepCancel(s, user, event).db.types
    ensures StepCancel(s, user, event).db.types[ty] == RowAfter(s, CancelCall(user, event), ty)
    ensures Returns(s, CancelCall(user, event), ty) ==> s.db.types[ty].remaining >= 0
  {
    hide Holds;
    if Holds(s.db.tickets, user, event) { assert s.db.tickets[TicketOf(s.db, user, event)].ticketType in s.db.types; }
  }

  /**
    The exact new row of any type after any step; seats are taken only while there are some, and only vouchers pass a
    closed type.
   */
  lemma StepMovesRow(s: Sys, step: Step, ty: TypeId)
    requires Inv(s) && ty in s.db.types
    ensures ty in Exec(s, step).db.types && Exec(s, step).db.types[ty] == RowAfter(s, step, ty)
    ensures Takes(s, step, ty) ==> s.db.types[ty].remaining > 0 && (!step.RedeemCall? ==> Open(s.db.types[ty]))
    ensures Returns(s, step, ty) ==> s.db.types[ty].remaining >= 0
  {
    hide StepClaim, StepRsvp, StepRedeem, StepVoid, StepCancel, StepScan, CheckIn, ClaimsInv, ScansStamped;
    hide UniqueTickets, Stamped, SoundRows, RowAfter, StepMark, Revise, NewType, Rollback, Holds, TicketOf;
    match step
    case ClaimStep(p, id) => ClaimMovesRow(s, p, id, ty);
    case RsvpCall(event, user, id) => RsvpMovesRow(s, event, user, id, ty);
    case RedeemCall(code, user, now, id) => RedeemMovesRow(s, code, user, now, id, ty);
    case VoidCall(id) => VoidMovesRow(s, id, ty);
    case CancelCall(user, event) => CancelMovesRow(s, user, event, ty);
    case _ => OtherStepMovesRow(s, step, ty);
  }

  lemma OtherStepMovesRow(s: Sys, step: Step, ty: TypeId)
    requires ty in s.db.types && !step.ClaimStep? && !step.RsvpCall? && !step.RedeemCall? && !step.VoidCall?
             && !step.CancelCall?
    ensures ty in Exec(s, step).db.types && Exec(s, step).db.types[ty] == RowAfter(s, step, ty)
    ensures !Takes(s, step, ty) && !Returns(s, step, ty)
  {
    hide StepScan, CheckIn, Exec;
    if step.CreateType? || step.MarkCall? { NewRow(s, step, ty); } else { QuietStep(s, step); }
  }

  lemma NewRow(s: Sys, step: Step, ty: TypeId)
    requires ty in s.db.types && (step.CreateType? || step.MarkCall?)
    ensures ty in Exec(s, step).db.types && Exec(s, step).db.types[ty] == RowAfter(s, step, ty)
  {
    hide StepScan, CheckIn, StepClaim, StepRsvp, StepRedeem, StepVoid, StepCancel;
  }

  lemma QuietStep(s: Sys, step: Step)
    requires step.BeginClaim? || step.AbortClaim? || step.CheckInCall? || step.BeginScan? || step.ScanStep?
             || step.ReviseCall?
    ensures Exec(s, step).db.types == s.db.types
  {
    hide StepScan, CheckIn, StepClaim, StepRsvp, StepRedeem, StepVoid, StepCancel;
    match step
    case CheckInCall(id, now) => CheckInMovesNoRow(s.db, id, now);
    case ScanStep(p, now) => ScanMovesNoRow(s, p, now);
    case _ =>
  }

  // ---------------------------------------------------------------------------------------------
  // When the flag tells the truth
  // ---------------------------------------------------------------------------------------------

  /** The flag says whether the seats have run out; a type put on sale with none is never flagged. */
  predicate FlagTells(row: TicketType) {
    (row.soldOut ==> row.remaining == 0) && (row.remaining == 0 && row.total != 0 ==> row.soldOut)
  }

  ghost predicate FlagsTell(types: map<TypeId, TicketType>) {
    forall ty | ty in types :: FlagTells(types[ty])
  }

  /** Without a mark by hand, every step keeps the flags true. */
  lemma StepKeepsFlags(s: Sys, step: Step)
    requires Inv(s) && FlagsTell(s.db.types) && !step.MarkCall?
    ensures FlagsTell(Exec(s, step).db.types)
  {
    hide Exec, Inv, Returns, Takes;
    var types := Exec(s, step).db.types;
    forall ty | ty in types ensures FlagTells(types[ty]) {
      if ty in s.db.types {
        StepMovesRow(s, step, ty);
      } else {
        TypesAreCreated(s, step, ty);
      }
    }
  }

  predicate Unmarked(steps: seq<Step>) {
    forall step | step in steps :: !step.MarkCall?
  }

  /** If the flags tell the truth at the start and nobody marks a type by hand, they do after every interleaving. */
  lemma {:induction false} FlagsOverRun(s: Sys, steps: seq<Step>)
    requires Inv(s) && FlagsTell(s.db.types) && Unmarked(steps)
    ensures FlagsTell(Run(s, steps).db.types)
    decreases |steps|
  {
    hide Inv, Exec, FlagsTell;
    if steps != [] {
      StepKeepsInv(s, steps[0]);
      StepKeepsFlags(s, steps[0]);
      FlagsOverRun(Exec(s, steps[0]), steps[1..]);
    }
  }

  // ---------------------------------------------------------------------------------------------
  // Closed types
  // ---------------------------------------------------------------------------------------------

  /** A closed type is opened exactly by a returned seat or a mark, and while closed only vouchers draw from it. */
  lemma ClosedTypeStep(s: Sys, step: Step, ty: TypeId)
    requires Inv(s) && ty in s.db.types && s.db.types[ty].soldOut
    ensures ty in Exec(s, step).db.types
    ensures Exec(s, step).db.types[ty].soldOut <==> !(Returns(s, step, ty) || (Marks(s, step, ty) && !step.soldOut))
    ensures Takes(s, step, ty) ==> step.RedeemCall?
  {
    StepMovesRow(s, step, ty);
    hide Exec, Inv, Returns, Takes;
  }

  /**
    `redeem` looks at the counter alone: it issues from a type that is not open exactly when one was closed with
    seats left.
   */
  lemma RedeemGap(db: Db, id: TicketId, code: VoucherId, user: UserId, now: Time)
    requires code in db.vouchers && db.vouchers[code].ticketType in db.types
    ensures var row := db.types[db.vouchers[code].ticketType];
            && (Redeem(db, id, code, user, now).1.Ok? && !Open(row) <==>
                  RedeemPrecheck(db, code, user, now).None? && InsertAllowed(db, user, db.vouchers[code].event)
                  && row.soldOut && row.remaining > 0)
            && (FlagTells(row) && Redeem(db, id, code, user, now).1.Ok? ==> Open(row))
  {
  }

  /** It happens: a type with two seats, closed by hand, turns a claim down and then lets a voucher through. */
  lemma RedeemFromClosedType()
    ensures var user := User(Some(0), true, {});
            var db := Db(map[1 := Event(false, 0, {}, [], false, {}, false, 100)], map[7 := user], map[], map[],
                         map[5 := Voucher(1, 3, None, None, false, None, None)]);
            var closed := MarkSoldOut(NewType(db, 3, 1, 0, None, 2), 1, 3, true).0;
            && Claim(closed, 9, 7, 1, 3).1 == Err(SoldOut)
            && Redeem(closed, 9, 5, 7, 50).1 == Ok(9) && Redeem(closed, 9, 5, 7, 50).0.types[3].remaining == 1
  {
  }

  // ---------------------------------------------------------------------------------------------
  // Vouchers
  // ---------------------------------------------------------------------------------------------

  /** The step redeems this voucher, with a ticket. */
  predicate Redeems(s: Sys, step: Step, code: VoucherId) {
    step.RedeemCall? && step.code == code && StepRedeem(s, code, step.user, step.now, step.id) != s
  }

  lemma ClaimMovesNoVoucher(s: Sys, p: Proc, id: TicketId)
    ensures StepClaim(s, p, id).db.vouchers == s.db.vouchers
  {
    hide ClaimPrecheck, Holds, FreshTicket, PendingKey;
  }

  /** A redemption uses up a voucher that was unused and gives its user a ticket; no other step touches a voucher. */
  lemma VoucherStep(s: Sys, step: Step, code: VoucherId)
    requires code in s.db.vouchers
    ensures var (v, s') := (s.db.vouchers[code], Exec(s, step));
            && code in s'.db.vouchers
            && if Redeems(s, step, code) then
                 && !v.used && s'.db.vouchers[code]
                 == v.(used := true, redeemedBy := Some(step.user), redeemedAt := Some(step.now))
                 && step.id !in s.db.tickets && step.id in s'.db.tickets
                 && s'.db.tickets[step.id] == IssuedTicket(step.user, v.event, v.ticketType)
               else s'.db.vouchers[code] == v
  {
    hide StepClaim, StepScan, CheckIn, Holds, PendingKey;
    match step
    case ClaimStep(p, id) => ClaimMovesNoVoucher(s, p, id);
    case ScanStep(p, now) => ScanMovesNoRow(s, p, now);
    case CheckInCall(id, now) => CheckInMovesNoRow(s.db, id, now);
    case _ =>
  }

  ghost function Redemptions(s: Sys, steps: seq<Step>, code: VoucherId): nat
    decreases |steps|
  {
    if steps == [] then 0 else Count(Redeems(s, steps[0], code)) + Redemptions(Exec(s, steps[0]), steps[1..], code)
  }

  /** Whoever a voucher was redeemed by holds a ticket for its event. */
  ghost predicate Honoured(db: Db, code: VoucherId) {
    code in db.vouchers
    && (db.vouchers[code].redeemedBy.Some? ==>
        Holds(db.tickets, db.vouchers[code].redeemedBy.value, db.vouchers[code].event))
  }

  lemma StepKeepsHonoured(s: Sys, step: Step, code: VoucherId)
    requires Inv(s) && Honoured(s.db, code)
    ensures Honoured(Exec(s, step).db, code)
  {
    StepKeepsInv(s, step);
    VoucherStep(s, step, code);
    hide Exec, Inv, Redeems;
    var (v, db') := (s.db.vouchers[code], Exec(s, step).db);
    if db'.vouchers[code] == v && v.redeemedBy.Some? {
      var id :| id in s.db.tickets && s.db.tickets[id].user == v.redeemedBy.value && s.db.tickets[id].event == v.event;
      assert Evolves(s.db.tickets[id], db'.tickets[id]);
    }
  }

  /**
    In every interleaving a voucher issues at most one ticket, and none if it was used; once used it stays used by the
    same user, who holds a ticket for its event.
   */
  lemma {:induction false} VoucherOverRun(s: Sys, steps: seq<Step>, code: VoucherId)
    requires Inv(s) && Honoured(s.db, code)
    ensures Honoured(Run(s, steps).db, code)
    ensures Redemptions(s, steps, code) == Count(Run(s, steps).db.vouchers[code].used) - Count(s.db.vouchers[code].used)
    ensures s.db.vouchers[code].used ==> Run(s, steps).db.vouchers[code] == s.db.vouchers[code]
    decreases |steps|
  {
    if steps != [] {
      StepKeepsInv(s, steps[0]);
      StepKeepsHonoured(s, steps[0], code);
      VoucherStep(s, steps[0], code);
      hide Inv, Exec, Redeems, Honoured;
      assert code in Exec(s, steps[0]).db.vouchers;
      VoucherOverRun(Exec(s, steps[0]), steps[1..], code);
    }
  }
}

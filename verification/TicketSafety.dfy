/**
  What holds over every run of the ticketing machine: seats are conserved, the event page counts exactly the consumed
  seats, a ticket is admitted at most once and never after it was voided.
 */
module TicketSafety {
  import opened Prelude
  import opened TicketTables
  import opened TicketRuns

  lemma {:induction false} RunKeepsInv(s: Sys, steps: seq<Step>)
    requires Inv(s)
    ensures Inv(Run(s, steps)) && Grows(s.db, Run(s, steps).db)
    decreases |steps|
  {
    hide DbInv, Claims, ScansStamped;
    if steps != [] {
      StepKeepsInv(s, steps[0]);
      RunKeepsInv(Exec(s, steps[0]), steps[1..]);
      GrowsTransitive(s.db, Exec(s, steps[0]).db, Run(s, steps).db);
    }
  }

  lemma GrowsTransitive(a: Db, b: Db, c: Db)
    requires Grows(a, b) && Grows(b, c)
    ensures Grows(a, c)
  {
  }

  // ---------------------------------------------------------------------------------------------
  // Seats
  // ---------------------------------------------------------------------------------------------

  function Reservations(s: Sys, ty: TypeId): set<Proc> {
    set p | p in s.claims && Holding(s.claims[p]) && s.claims[p].ticketType == ty
  }

  /** The newest version of a type's row: the private one of the claim that holds its lock, else the committed one. */
  function Latest(s: Sys, ty: TypeId): TicketType
    requires ty in s.db.types
  {
    if ty in s.locks && s.locks[ty] in s.claims && Holding(s.claims[s.locks[ty]]) then s.claims[s.locks[ty]].stage.row
    else s.db.types[ty]
  }

  /** Every seat there is to account for: free, reserved by an open claim, or consumed by a committed ticket. */
  function Seats(s: Sys, ty: TypeId): int
    requires ty in s.db.types
  {
    Latest(s, ty).remaining + |Reservations(s, ty)| + |ConsumedTickets(s.db.tickets, ty)|
  }

  function CommittedSeats(db: Db, ty: TypeId): int
    requires ty in db.types
  {
    db.types[ty].remaining + |ConsumedTickets(db.tickets, ty)|
  }

  /** An open reservation is one seat below the committed counter, so both ways of counting agree. */
  lemma SeatsAreCommitted(s: Sys, ty: TypeId)
    requires Inv(s) && ty in s.db.types
    ensures Seats(s, ty) == CommittedSeats(s.db, ty)
    ensures |Reservations(s, ty)| == if ty in s.locks then 1 else 0
  {
    if ty in s.locks {
      assert Reservations(s, ty) == {s.locks[ty]};
    } else {
      assert Reservations(s, ty) == {};
    }
  }

  /** The step cancels a ticket of type `ty` that is already void. */
  ghost predicate CancelsVoid(s: Sys, step: Step, ty: TypeId) {
    && step.CancelCall?
    && Holds(s.db.tickets, step.user, step.event)
    && var t := s.db.tickets[TicketOf(s.db, step.user, step.event)];
       t.status == Void && t.ticketType == ty && ty !in s.locks
  }

  lemma IssueMovesSeat(db: Db, id: TicketId, user: UserId, event: EventId, ty: TypeId, other: TypeId)
    requires ty in db.types && other in db.types && id !in db.tickets
    ensures CommittedSeats(Issue(db, id, user, event, ty), other) == CommittedSeats(db, other)
  {
    var before := ConsumedTickets(db.tickets, other);
    var after := ConsumedTickets(Issue(db, id, user, event, ty).tickets, other);
    if ty == other {
      assert after == before + {id};
    } else {
      assert after == before;
    }
  }

  /** Voiding an issued ticket frees its seat; a used or already void one frees nothing by itself. */
  lemma VoidMovesSeat(db: Db, id: TicketId, other: TypeId)
    requires Stamped(db.tickets) && id in db.tickets && other in db.types && db.tickets[id].ticketType in db.types
    ensures CommittedSeats(SetStatus(db, id, Void), other)
         == CommittedSeats(db, other) - Count(db.tickets[id].ticketType == other && db.tickets[id].status == Issued)
    ensures CommittedSeats(GiveBack(SetStatus(db, id, Void), db.tickets[id].ticketType), other)
         == CommittedSeats(db, other) + Count(db.tickets[id].ticketType == other && db.tickets[id].status != Issued)
  {
    var before := ConsumedTickets(db.tickets, other);
    var after := ConsumedTickets(SetStatus(db, id, Void).tickets, other);
    if db.tickets[id].ticketType == other && db.tickets[id].status == Issued {
      assert before == after + {id};
    } else {
      assert after == before;
    }
  }

  lemma StampMovesNoSeat(db: Db, id: TicketId, now: Time, other: TypeId)
    requires id in db.tickets && db.tickets[id].status == Issued && other in db.types
    ensures CommittedSeats(Stamp(db, id, now), other) == CommittedSeats(db, other)
  {
    assert ConsumedTickets(Stamp(db, id, now).tickets, other) == ConsumedTickets(db.tickets, other);
  }

  lemma CallMovesSeats(s: Sys, step: Step, ty: TypeId)
    requires Inv(s) && ty in s.db.types
    requires step.VoidCall? || step.CancelCall? || step.CheckInCall?
    ensures CommittedSeats(Exec(s, step).db, ty) == CommittedSeats(s.db, ty) + Count(CancelsVoid(s, step, ty))
  {
    hide CommittedSeats, Claims, ScansStamped, UniqueTickets;
    match step
    case VoidCall(id) => if id in s.db.tickets { VoidMovesSeat(s.db, id, ty); }
    case CancelCall(user, event) =>
      if Holds(s.db.tickets, user, event) { VoidMovesSeat(s.db, TicketOf(s.db, user, event), ty); }
    case CheckInCall(id, now) => if CheckIn(s.db, id, now).0 != s.db { StampMovesNoSeat(s.db, id, now, ty); }
  }

  lemma IssuingCallMovesNoSeat(s: Sys, step: Step, ty: TypeId)
    requires ty in s.db.types && (step.RsvpCall? || step.RedeemCall?)
    ensures CommittedSeats(Exec(s, step).db, ty) == CommittedSeats(s.db, ty)
  {
    match step
    case RsvpCall(event, user, id) =>
      if StepRsvp(s, event, user, id) != s {
        IssueMovesSeat(s.db, id, user, event, RsvpType(s.db, event, user).value, ty);
      }
    case RedeemCall(code, user, now, id) =>
      if StepRedeem(s, code, user, now, id) != s {
        IssueMovesSeat(s.db, id, user, s.db.vouchers[code].event, s.db.vouchers[code].ticketType, ty);
      }
  }

  lemma ScanMovesNoSeat(s: Sys, p: Proc, now: Time, ty: TypeId)
    requires ty in s.db.types
    ensures CommittedSeats(StepScan(s, p, now).db, ty) == CommittedSeats(s.db, ty)
  {
    if p in s.scans && StepScan(s, p, now).db != s.db { StampMovesNoSeat(s.db, s.scans[p].ticket, now, ty); }
  }

  lemma TypesStay(s: Sys, step: Step, ty: TypeId)
    requires Inv(s) && ty in s.db.types
    ensures ty in Exec(s, step).db.types && SameOffer(s.db.types[ty], Exec(s, step).db.types[ty])
  {
    StepKeepsInv(s, step);
    hide Exec, Inv;
  }

  lemma StepMovesSeats(s: Sys, step: Step, ty: TypeId)
    requires Inv(s) && ty in s.db.types
    ensures ty in Exec(s, step).db.types
    ensures CommittedSeats(Exec(s, step).db, ty) == CommittedSeats(s.db, ty) + Count(CancelsVoid(s, step, ty))
  {
    TypesStay(s, step, ty);
    hide CommittedSeats, Inv, StepClaim, StepScan, StepRsvp, StepRedeem, StepVoid, StepCancel, CheckIn, Holds;
    match step
    case CreateType(_, _, _, _, _) => CreateMovesNoSeat(s, step, ty);
    case BeginClaim(_, _, _, _) =>
    case ClaimStep(p, id) => CommitMovesSeats(s, p, id, ty);
    case AbortClaim(_) =>
    case RsvpCall(_, _, _) => IssuingCallMovesNoSeat(s, step, ty);
    case RedeemCall(_, _, _, _) => IssuingCallMovesNoSeat(s, step, ty);
    case VoidCall(_) => CallMovesSeats(s, step, ty);
    case CancelCall(_, _) => CallMovesSeats(s, step, ty);
    case CheckInCall(_, _) => CallMovesSeats(s, step, ty);
    case MarkCall(_, _, _) => MarkMovesNoSeat(s, step, ty);
    case ReviseCall(_, _, _) => MarkMovesNoSeat(s, step, ty);
    case BeginScan(_, _, _) =>
    case ScanStep(p, now) => ScanMovesNoSeat(s, p, now, ty);
  }

  lemma MarkMovesNoSeat(s: Sys, step: Step, ty: TypeId)
    requires (step.MarkCall? || step.ReviseCall?) && ty in s.db.types
    ensures CommittedSeats(Exec(s, step).db, ty) == CommittedSeats(s.db, ty)
  {
  }

  lemma CreateMovesNoSeat(s: Sys, step: Step, ty: TypeId)
    requires step.CreateType? && ty in s.db.types
    ensures CommittedSeats(Exec(s, step).db, ty) == CommittedSeats(s.db, ty)
  {
  }

  lemma CommitMovesSeats(s: Sys, p: Proc, id: TicketId, ty: TypeId)
    requires Inv(s) && ty in s.db.types
    ensures ty in StepClaim(s, p, id).db.types
    ensures CommittedSeats(StepClaim(s, p, id).db, ty) == CommittedSeats(s.db, ty)
  {
    if p in s.claims && s.claims[p].stage.Inserted? {
      var c := s.claims[p];
      CommitIssues(s, p);
      IssueMovesSeat(s.db, c.stage.id, c.user, c.event, c.ticketType, ty);
    }
  }

  /** How many calls of the run cancelled a ticket of type `ty` that was already void. */
  ghost function VoidCancels(s: Sys, steps: seq<Step>, ty: TypeId): nat
    decreases |steps|
  {
    if steps == [] then 0 else Count(CancelsVoid(s, steps[0], ty)) + VoidCancels(Exec(s, steps[0]), steps[1..], ty)
  }

  /**
    Seats over a run. Whatever interleaves, a type's free, reserved and consumed seats change by exactly one for each
    cancellation of an already void ticket and by nothing else; no counter goes below zero and no user ends up with
    two tickets for one event.
   */
  lemma {:induction false} SeatsOverRun(s: Sys, steps: seq<Step>, ty: TypeId)
    requires Inv(s) && ty in s.db.types
    ensures ty in Run(s, steps).db.types && Run(s, steps).db.types[ty].total == s.db.types[ty].total
    ensures Seats(Run(s, steps), ty) == Seats(s, ty) + VoidCancels(s, steps, ty)
    ensures s.db.types[ty].total >= 0 ==> Latest(Run(s, steps), ty).remaining >= 0
    ensures UniqueTickets(Run(s, steps).db.tickets)
    decreases |steps|
  {
    RunKeepsInv(s, steps);
    if s.db.types[ty].total >= 0 { LatestNeverNegative(Run(s, steps), ty); }
    hide Inv, Seats, Latest, CommittedSeats, Exec, UniqueTickets, CancelsVoid;
    SeatsAreCommitted(s, ty);
    if steps != [] {
      StepKeepsInv(s, steps[0]);
      StepMovesSeats(s, steps[0], ty);
      SeatsAreCommitted(Exec(s, steps[0]), ty);
      SeatsOverRun(Exec(s, steps[0]), steps[1..], ty);
    }
  }

  lemma LatestNeverNegative(s: Sys, ty: TypeId)
    requires Inv(s) && ty in s.db.types && s.db.types[ty].total >= 0
    ensures Latest(s, ty).remaining >= 0
  {
  }

  /** A claim that ends after its reservation, by the unique constraint or otherwise, hands its seat back. */
  lemma RollbackReturnsSeat(s: Sys, p: Proc, why: Refusal)
    requires Inv(s) && p in s.claims && Holding(s.claims[p])
    ensures var (s', ty) := (Rollback(s, p, why), s.claims[p].ticketType);
            && ty in s.db.types
            && Latest(s', ty).remaining == Latest(s, ty).remaining + 1
            && Latest(s', ty) == s.db.types[ty] && Open(s.db.types[ty])
            && |Reservations(s', ty)| == |Reservations(s, ty)| - 1
            && s'.db == s.db
  {
    RollbackKeepsClaims(s, p, why);
    SeatsAreCommitted(s, s.claims[p].ticketType);
    SeatsAreCommitted(Rollback(s, p, why), s.claims[p].ticketType);
  }

  /**
    An event with one type of one seat, created, claimed, and cancelled twice: two seats are left of one, and both
    cancellations were answered with success.
   */
  lemma CancelTwiceAddsSeat()
    ensures var db := Db(map[1 := Event(false, 0, {}, [], false, {}, false, 100)], map[7 := User(Some(0), true, {})],
                         map[], map[], map[]);
            var sold := Claim(NewType(db, 3, 1, 0, None, 1), 9, 7, 1, 3);
            var once := Cancel(sold.0, 7, 1);
            var twice := Cancel(once.0, 7, 1);
            && sold.1 == Ok(9) && once.1.Ok? && twice.1.Ok?
            && CommittedSeats(sold.0, 3) == 1 && CommittedSeats(once.0, 3) == 1
            && twice.0.types[3].total == 1 && twice.0.types[3].remaining == 2
  {
    var db := Db(map[1 := Event(false, 0, {}, [], false, {}, false, 100)], map[7 := User(Some(0), true, {})],
                 map[], map[], map[]);
    var sold := Claim(NewType(db, 3, 1, 0, None, 1), 9, 7, 1, 3).0;
    assert ConsumedTickets(sold.tickets, 3) == {9};
    assert sold.tickets[9].user == 7 && Holds(sold.tickets, 7, 1) && TicketOf(sold, 7, 1) == 9;
    var once := Cancel(sold, 7, 1).0;
    assert ConsumedTickets(once.tickets, 3) == {};
    assert once.tickets[9].user == 7 && Holds(once.tickets, 7, 1) && TicketOf(once, 7, 1) == 9;
  }

  // ---------------------------------------------------------------------------------------------
  // The event page
  // ---------------------------------------------------------------------------------------------

  /** `soldTickets` of `findOne`, over the ticket types the viewer is shown. */
  function SoldFigure(db: Db, shown: seq<TypeId>): int
    requires forall ty | ty in shown :: ty in db.types
  {
    if shown == [] then 0
    else db.types[shown[0]].total - db.types[shown[0]].remaining + SoldFigure(db, shown[1..])
  }

  function ConsumedAmong(tickets: map<TicketId, Ticket>, shown: seq<TypeId>): set<TicketId> {
    set id | id in tickets && tickets[id].ticketType in shown && Consumes(tickets[id])
  }

  /** By how much the seats of the types shown exceed what was put on sale. */
  function Surplus(db: Db, shown: seq<TypeId>): int
    requires forall ty | ty in shown :: ty in db.types
  {
    if shown == [] then 0
    else CommittedSeats(db, shown[0]) - db.types[shown[0]].total + Surplus(db, shown[1..])
  }

  lemma ConsumedAmongSplits(tickets: map<TicketId, Ticket>, shown: seq<TypeId>)
    requires shown != [] && NoDuplicates(shown)
    ensures NoDuplicates(shown[1..])
    ensures |ConsumedAmong(tickets, shown)| == |ConsumedTickets(tickets, shown[0])|
            + |ConsumedAmong(tickets, shown[1..])|
  {
    var (head, tail) := (ConsumedTickets(tickets, shown[0]), ConsumedAmong(tickets, shown[1..]));
    assert shown == [shown[0]] + shown[1..];
    assert ConsumedAmong(tickets, shown) == head + tail;
    assert head !! tail;
  }

  lemma {:induction false} SoldFigureLessSurplus(db: Db, shown: seq<TypeId>)
    requires NoDuplicates(shown) && forall ty | ty in shown :: ty in db.types
    ensures SoldFigure(db, shown) == |ConsumedAmong(db.tickets, shown)| - Surplus(db, shown)
  {
    if shown == [] {
      assert ConsumedAmong(db.tickets, shown) == {};
    } else {
      ConsumedAmongSplits(db.tickets, shown);
      hide NoDuplicates, ConsumedAmong, ConsumedTickets;
      SoldFigureLessSurplus(db, shown[1..]);
    }
  }

  ghost function VoidCancelsAmong(s: Sys, steps: seq<Step>, shown: seq<TypeId>): nat {
    if shown == [] then 0 else VoidCancels(s, steps, shown[0]) + VoidCancelsAmong(s, steps, shown[1..])
  }

  lemma {:induction false} SurplusOverRun(s: Sys, steps: seq<Step>, shown: seq<TypeId>)
    requires Inv(s)
    requires forall ty | ty in shown :: ty in s.db.types && Seats(s, ty) == s.db.types[ty].total
    ensures forall ty | ty in shown :: ty in Run(s, steps).db.types
    ensures Surplus(Run(s, steps).db, shown) == VoidCancelsAmong(s, steps, shown)
    decreases |shown|
  {
    hide Run, Inv;
    if shown != [] {
      SeatsOverRun(s, steps, shown[0]);
      FinalSeats(s, steps, shown[0]);
      SurplusOverRun(s, steps, shown[1..]);
      forall ty | ty in shown ensures ty in Run(s, steps).db.types { FinalSeats(s, steps, ty); }
    }
  }

  /**
    Started from types whose seats add up, every run leaves the page's sold figure equal to the number of consumed
    tickets of the types shown, less one for each cancellation of an already void ticket.
   */
  lemma SoldFigureCountsConsumed(s: Sys, steps: seq<Step>, shown: seq<TypeId>)
    requires Inv(s)
    requires forall ty | ty in shown :: ty in s.db.types && Seats(s, ty) == s.db.types[ty].total
    requires NoDuplicates(shown)
    ensures forall ty | ty in shown :: ty in Run(s, steps).db.types
    ensures SoldFigure(Run(s, steps).db, shown)
         == |ConsumedAmong(Run(s, steps).db.tickets, shown)| - VoidCancelsAmong(s, steps, shown)
  {
    hide Run, Inv;
    SurplusOverRun(s, steps, shown);
    SoldFigureLessSurplus(Run(s, steps).db, shown);
  }

  lemma FinalSeats(s: Sys, steps: seq<Step>, ty: TypeId)
    requires Inv(s) && ty in s.db.types
    ensures Inv(Run(s, steps)) && ty in Run(s, steps).db.types
    ensures Seats(Run(s, steps), ty) == CommittedSeats(Run(s, steps).db, ty)
  {
    RunKeepsInv(s, steps);
    SeatsAreCommitted(Run(s, steps), ty);
  }

  /** A new type's seats are all free. */
  lemma NewTypeIsBalanced(s: Sys, ty: TypeId, event: EventId, price: int, school: Option<SchoolId>, total: int)
    requires Inv(s) && ty !in s.db.types && event in s.db.events
    ensures var db' := NewType(s.db, ty, event, price, school, total);
            CommittedSeats(db', ty) == total && db'.types[ty].total == total
  {
    assert ConsumedTickets(s.db.tickets, ty) == {};
  }

  lemma CheckInMovesNoRow(db: Db, id: TicketId, now: Time)
    ensures CheckIn(db, id, now).0.types == db.types && CheckIn(db, id, now).0.vouchers == db.vouchers
  {
  }

  lemma ScanMovesNoRow(s: Sys, p: Proc, now: Time)
    ensures StepScan(s, p, now).db.types == s.db.types && StepScan(s, p, now).db.vouchers == s.db.vouchers
  {
    hide ScanPrecheck;
  }

  lemma VoidAddsNoType(db: Db, id: TicketId)
    ensures VoidTicket(db, id).0.types.Keys == db.types.Keys
  {
  }

  lemma CancelAddsNoType(db: Db, user: UserId, event: EventId)
    ensures Cancel(db, user, event).0.types.Keys == db.types.Keys
  {
  }

  /** Types come from creation alone. */
  lemma TypesAreCreated(s: Sys, step: Step, ty: TypeId)
    requires Inv(s) && ty !in s.db.types && ty in Exec(s, step).db.types
    ensures step.CreateType? && step.ty == ty && step.event in s.db.events
    ensures Exec(s, step).db == NewType(s.db, ty, step.event, step.price, step.school, step.total)
  {
    hide DbInv, ScansStamped, Holds, ScanPrecheck, RsvpPrecheck, RedeemPrecheck, FreshTicket, PendingKey;
    hide LocksMatch, PendingDistinct, WinnersHold, CheckIn, StepScan, Cancel, VoidTicket;
    match step
    case ClaimStep(p, _) => if p in s.claims && s.claims[p].stage.Inserted? { CommitIssues(s, p); }
    case ScanStep(p, now) => ScanMovesNoRow(s, p, now);
    case CheckInCall(id, now) => CheckInMovesNoRow(s.db, id, now);
    case VoidCall(id) => VoidAddsNoType(s.db, id);
    case CancelCall(user, event) => CancelAddsNoType(s.db, user, event);
    case _ =>
  }

  lemma NoTicketsOfNoType(s: Sys, step: Step, ty: TypeId)
    requires SoundRows(s.db.types, s.db.tickets) && ty !in s.db.types
    ensures !CancelsVoid(s, step, ty)
  {
  }

  /**
    So no assumption is needed for types that come into being during a run: from any state, a type created on the way
    ends with its free, reserved and consumed seats adding up to what was put on sale, plus one per cancelled void
    ticket.
   */
  lemma {:induction false} CreatedTypesBalance(s: Sys, steps: seq<Step>, ty: TypeId)
    requires Inv(s) && ty !in s.db.types && ty in Run(s, steps).db.types
    ensures Seats(Run(s, steps), ty) == Run(s, steps).db.types[ty].total + VoidCancels(s, steps, ty)
    decreases |steps|
  {
    if steps != [] {
      var s' := Exec(s, steps[0]);
      StepKeepsInv(s, steps[0]);
      NoTicketsOfNoType(s, steps[0], ty);
      hide Inv, Exec, Seats, CommittedSeats, CancelsVoid, NewType;
      if ty in s'.db.types {
        TypesAreCreated(s, steps[0], ty);
        NewTypeIsBalanced(s, ty, steps[0].event, steps[0].price, steps[0].school, steps[0].total);
        SeatsAreCommitted(s', ty);
        SeatsOverRun(s', steps[1..], ty);
      } else {
        CreatedTypesBalance(s', steps[1..], ty);
      }
    }
  }

  // ---------------------------------------------------------------------------------------------
  // Admission
  // ---------------------------------------------------------------------------------------------

  predicate Admits(s: Sys, p: Proc, id: TicketId) {
    p in s.scans && s.scans[p].ticket == id && Succeeded(s.scans[p])
  }

  lemma ScanStaysPut(s: Sys, step: Step, p: Proc)
    requires p in s.scans
    ensures var s' := Exec(s, step);
            p in s'.scans && s'.scans[p].ticket == s.scans[p].ticket
                && (Succeeded(s.scans[p]) ==> Succeeded(s'.scans[p]))
  {
  }

  lemma {:induction false} ScansStayPut(s: Sys, steps: seq<Step>, p: Proc)
    requires p in s.scans
    ensures p in Run(s, steps).scans && Run(s, steps).scans[p].ticket == s.scans[p].ticket
    ensures Succeeded(s.scans[p]) ==> Succeeded(Run(s, steps).scans[p])
    decreases |steps|
  {
    hide Exec, Succeeded;
    if steps != [] {
      ScanStaysPut(s, steps[0], p);
      ScansStayPut(Exec(s, steps[0]), steps[1..], p);
    }
  }

  /** A scan can only succeed on a ticket that is still issued at that moment. */
  lemma {:induction false} NoAdmissionUnlessIssued(s: Sys, steps: seq<Step>, p: Proc, id: TicketId)
    requires Inv(s) && id in s.db.tickets && s.db.tickets[id].status != Issued
    requires !Admits(s, p, id)
    ensures !Admits(Run(s, steps), p, id)
    decreases |steps|
  {
    if steps != [] {
      var s' := Exec(s, steps[0]);
      StepKeepsInv(s, steps[0]);
      NoAdmissionStep(s, steps[0], p, id);
      hide Inv, Exec, Admits;
      assert Evolves(s.db.tickets[id], s'.db.tickets[id]);
      NoAdmissionUnlessIssued(s', steps[1..], p, id);
    }
  }

  lemma NoAdmissionStep(s: Sys, step: Step, p: Proc, id: TicketId)
    requires id in s.db.tickets && s.db.tickets[id].status != Issued && !Admits(s, p, id)
    ensures !Admits(Exec(s, step), p, id)
  {
  }

  /**
    Admission over a run. In any interleaving of scans with voids, cancels, manual check-ins and claims: two successful
    scans of one ticket are the same scan; the ticket carries that scan's time for good, so no manual check-in
    succeeded besides it; and a scan that had not succeeded when the ticket was void (or used) never does.
   */
  lemma AdmissionOverRun(s: Sys, steps: seq<Step>, p: Proc, q: Proc, id: TicketId)
    requires Inv(s)
    ensures Admits(Run(s, steps), p, id) && Admits(Run(s, steps), q, id) ==> p == q
    ensures Admits(Run(s, steps), p, id) ==>
              id in Run(s, steps).db.tickets
              && Run(s, steps).db.tickets[id].checkedInAt == Some(Run(s, steps).scans[p].stage.at)
    ensures id in s.db.tickets && s.db.tickets[id].status != Issued && !Admits(s, p, id) ==>
            !Admits(Run(s, steps), p, id)
    ensures id in s.db.tickets ==>
              id in Run(s, steps).db.tickets && Evolves(s.db.tickets[id], Run(s, steps).db.tickets[id])
  {
    RunKeepsInv(s, steps);
    if id in s.db.tickets && s.db.tickets[id].status != Issued && !Admits(s, p, id) {
      NoAdmissionUnlessIssued(s, steps, p, id);
    }
    hide DbInv, Claims, Run;
    if Admits(Run(s, steps), p, id) { AdmissionNow(Run(s, steps), p, q, id); }
  }

  lemma AdmissionNow(s: Sys, p: Proc, q: Proc, id: TicketId)
    requires ScansStamped(s.db.tickets, s.scans) && Admits(s, p, id)
    ensures id in s.db.tickets && s.db.tickets[id].checkedInAt == Some(s.scans[p].stage.at)
    ensures Admits(s, q, id) ==> p == q
  {
  }

  // ---------------------------------------------------------------------------------------------
  // What a successful scan answers
  // ---------------------------------------------------------------------------------------------

  /** The ticket is voided before scan `p` takes its next step. */
  predicate VoidedFirst(steps: seq<Step>, p: Proc, id: TicketId) {
    && steps != []
    && (steps[0] == VoidCall(id) || (!(steps[0].ScanStep? && steps[0].p == p) && VoidedFirst(steps[1..], p, id)))
  }

  lemma UsedTicketClaim(s: Sys, p: Proc, t: TicketId, id: TicketId)
    requires Claims(s) && id in s.db.tickets
    ensures var s' := StepClaim(s, p, t);
            id in s'.db.tickets && s'.db.tickets[id] == s.db.tickets[id] && s'.scans == s.scans
  {
    hide LocksMatch, RowsMatch, WinnersHold, ClaimPrecheck, PendingKey, Holds;
  }

  lemma UsedTicketScan(s: Sys, q: Proc, now: Time, p: Proc, id: TicketId)
    requires id in s.db.tickets && s.db.tickets[id].status != Issued
    ensures var s' := StepScan(s, q, now);
            && id in s'.db.tickets && s'.db.tickets[id] == s.db.tickets[id]
            && (p in s.scans && p != q ==> p in s'.scans && s'.scans[p] == s.scans[p])
  {
    hide ScanPrecheck;
  }

  lemma UsedTicketIssue(s: Sys, step: Step, id: TicketId)
    requires id in s.db.tickets && (step.RsvpCall? || step.RedeemCall?)
    ensures var s' := Exec(s, step); id in s'.db.tickets && s'.scans == s.scans && s'.db.tickets[id] == s.db.tickets[id]
  {
    hide RsvpPrecheck, RedeemPrecheck, PendingKey, Holds;
  }

  lemma UsedTicketCall(s: Sys, step: Step, id: TicketId)
    requires id in s.db.tickets && s.db.tickets[id].status != Issued
    requires step.VoidCall? || step.CancelCall? || step.CheckInCall?
    ensures var s' := Exec(s, step);
            && id in s'.db.tickets && s'.scans == s.scans
            && s'.db.tickets[id].status == if step == VoidCall(id) then Void else s.db.tickets[id].status
  {
    hide Holds, VoidTicket, StepCancel, CheckIn;
    match step
    case VoidCall(other) => UsedTicketVoid(s.db, other, id);
    case CheckInCall(other, now) => UsedTicketCheckIn(s.db, other, now, id);
    case CancelCall(user, event) => UsedTicketCancel(s, user, event, id);
  }

  lemma UsedTicketVoid(db: Db, other: TicketId, id: TicketId)
    requires id in db.tickets && db.tickets[id].status != Issued
    ensures var db' := VoidTicket(db, other).0;
            && id in db'.tickets
            && db'.tickets[id].status == if other == id then Void else db.tickets[id].status
  {
    hide ReturnSeat;
  }

  lemma UsedTicketCheckIn(db: Db, other: TicketId, now: Time, id: TicketId)
    requires id in db.tickets && db.tickets[id].status != Issued
    ensures var db' := CheckIn(db, other, now).0;
            id in db'.tickets && db'.tickets[id].status == db.tickets[id].status
  {
  }

  lemma UsedTicketCancel(s: Sys, user: UserId, event: EventId, id: TicketId)
    requires id in s.db.tickets && s.db.tickets[id].status != Issued
    ensures var s' := StepCancel(s, user, event);
            && id in s'.db.tickets && s'.scans == s.scans && s'.db.tickets[id].status == s.db.tickets[id].status
  {
    hide Holds;
  }

  /** A ticket that was used or voided moves only by being voided, and a scan moves only by its own steps. */
  lemma UsedTicketStep(s: Sys, step: Step, p: Proc, id: TicketId)
    requires Inv(s) && id in s.db.tickets && s.db.tickets[id].status != Issued && p in s.scans
    ensures id in Exec(s, step).db.tickets
    ensures Exec(s, step).db.tickets[id].status == if step == VoidCall(id) then Void else s.db.tickets[id].status
    ensures p in Exec(s, step).scans
    ensures !(step.ScanStep? && step.p == p) ==> Exec(s, step).scans[p] == s.scans[p]
  {
    hide DbInv, ClaimsInv, ScansStamped, StepClaim, StepScan, StepRsvp, StepRedeem, StepVoid, StepCancel, CheckIn;
    match step
    case ClaimStep(q, t) => UsedTicketClaim(s, q, t, id);
    case ScanStep(q, now) => UsedTicketScan(s, q, now, p, id); ScanStaysPut(s, step, p);
    case RsvpCall(_, _, _) => UsedTicketIssue(s, step, id);
    case RedeemCall(_, _, _, _) => UsedTicketIssue(s, step, id);
    case VoidCall(_) => UsedTicketCall(s, step, id);
    case CancelCall(_, _) => UsedTicketCall(s, step, id);
    case CheckInCall(_, _) => UsedTicketCall(s, step, id);
    case _ =>
  }

  lemma ReportIsFinal(s: Sys, step: Step, p: Proc)
    requires p in s.scans && s.scans[p].stage.Admitted?
    ensures p in Exec(s, step).scans && Exec(s, step).scans[p] == s.scans[p]
  {
  }

  lemma {:induction false} ReportStays(s: Sys, steps: seq<Step>, p: Proc)
    requires p in s.scans && s.scans[p].stage.Admitted?
    ensures p in Run(s, steps).scans && Run(s, steps).scans[p] == s.scans[p]
    decreases |steps|
  {
    hide Exec;
    if steps != [] {
      ReportIsFinal(s, steps[0], p);
      ReportStays(Exec(s, steps[0]), steps[1..], p);
    }
  }

  /**
    From the moment a scan's conditional update has gone through: once it has read the row back, it reports VOID exactly
    if the ticket was voided in between, and CHECKED_IN otherwise; what happens after the read-back changes nothing.
   */
  lemma {:induction false} ReplyTellsVoid(s: Sys, steps: seq<Step>, p: Proc)
    requires Inv(s) && p in s.scans && s.scans[p].stage.Updated?
    requires p in Run(s, steps).scans && Run(s, steps).scans[p].stage.Admitted?
    ensures s.scans[p].ticket in s.db.tickets
    ensures var (id, status) := (s.scans[p].ticket, s.db.tickets[s.scans[p].ticket].status);
            Run(s, steps).scans[p].stage.reported == if status == Void || VoidedFirst(steps, p, id) then Void
              else CheckedIn
    decreases |steps|
  {
    UpdatedIsStamped(s, p);
    hide Inv;
    var id := s.scans[p].ticket;
    if steps != [] {
      var s' := Exec(s, steps[0]);
      StepKeepsInv(s, steps[0]);
      UsedTicketStep(s, steps[0], p, id);
      if steps[0].ScanStep? && steps[0].p == p {
        assert s'.scans[p].stage == Admitted(s.scans[p].stage.at, s.db.tickets[id].status);
        ReportStays(s', steps[1..], p);
      } else {
        hide Exec;
        ReplyTellsVoid(s', steps[1..], p);
      }
    }
  }

  lemma UpdatedIsStamped(s: Sys, p: Proc)
    requires Inv(s) && p in s.scans && s.scans[p].stage.Updated?
    ensures s.scans[p].ticket in s.db.tickets && s.db.tickets[s.scans[p].ticket].status != Issued
  {
    assert Went(s.scans, p);
    assert Explained(s.db.tickets, s.scans[p]);
  }

  /**
    And it can happen to every scan at the door: from any state in which it has seen its ticket unused, an update, a
    void and the read-back make it answer VOID.
   */
  lemma EveryScanCanAnswerVoid(s: Sys, p: Proc, at: Time, later: Time)
    requires p in s.scans && s.scans[p].stage.SeenIssued?
    requires s.scans[p].ticket in s.db.tickets && s.db.tickets[s.scans[p].ticket].status == Issued
    ensures var s' := Run(s, [ScanStep(p, at), VoidCall(s.scans[p].ticket), ScanStep(p, later)]);
            p in s'.scans && s'.scans[p].stage == Admitted(at, Void)
  {
    var id := s.scans[p].ticket;
    var steps := [ScanStep(p, at), VoidCall(id), ScanStep(p, later)];
    var s1 := Exec(s, steps[0]);
    var s2 := Exec(s1, steps[1]);
    assert s1.db.tickets[id].status == CheckedIn && s1.scans[p] == s.scans[p].(stage := Updated(at));
    assert s2.db.tickets[id].status == Void && s2.scans == s1.scans;
    var s3 := Exec(s2, steps[2]);
    assert s3.scans[p].stage == Admitted(at, Void);
    hide Exec;
    RunsOn(s, steps);
    RunsOn(s1, steps[1..]);
    RunsOn(s2, steps[2..]);
    assert steps[1..][1..] == steps[2..];
  }

  lemma RunsOn(s: Sys, steps: seq<Step>)
    requires steps != []
    ensures Run(s, steps) == Run(Exec(s, steps[0]), steps[1..])
    ensures |steps| == 1 ==> Run(s, steps) == Exec(s, steps[0])
  {
    hide Exec;
  }
}

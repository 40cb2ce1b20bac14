/**
  The ticketing services as they run, statement by statement over the shared tables. Each call is proved to do, when
  nothing else runs, what its entry in TicketTables says; TicketRuns takes the claims and scans apart again.
 */
module TicketServices {
  import opened Prelude
  import opened TicketTables
  import opened TicketRuns
  import opened TicketRules

  /** The database client: one field per table. */
  class Prisma {
    var events: map<EventId, Event>
    var users: map<UserId, User>
    var types: map<TypeId, TicketType>
    var tickets: map<TicketId, Ticket>
    var vouchers: map<VoucherId, Voucher>

    ghost function State(): Db
      reads this
    {
      Db(events, users, types, tickets, vouchers)
    }

    /** The schema's constraints together with what the services maintain. */
    ghost predicate Valid()
      reads this
    {
      DbInv(State())
    }

    method FindTicket(user: UserId, event: EventId) returns (r: Option<TicketId>)
      ensures r.Some? <==> Holds(tickets, user, event)
      ensures r.Some? ==> r.value in tickets && tickets[r.value].user == user && tickets[r.value].event == event
    {
      if id :| id in tickets && tickets[id].user == user && tickets[id].event == event {
        r := Some(id);
      } else {
        r := None;
      }
    }

    /** `updateMany ... where quantityRemaining > 0 and not isSoldOut`: test and decrement in one statement. */
    method ReserveSeat(ty: TypeId) returns (count: nat)
      modifies this`types
      ensures count == if ty in old(types) && Open(old(types)[ty]) then 1 else 0
      ensures types == if count == 1 then old(types)[ty := old(types)[ty].(remaining := old(types)[ty].remaining - 1)]
              else old(types)
    {
      count := 0;
      if ty in types && types[ty].remaining > 0 && !types[ty].soldOut {
        types := types[ty := types[ty].(remaining := types[ty].remaining - 1)];
        count := 1;
      }
    }

    method MarkSoldOutAtZero(ty: TypeId)
      requires ty in types
      modifies this`types
      ensures types == old(types)[ty := old(types)[ty].(soldOut := old(types)[ty].soldOut
              || old(types)[ty].remaining == 0)]
    {
      if types[ty].remaining == 0 {
        types := types[ty := types[ty].(soldOut := true)];
      }
    }

    method CreateTicket(id: TicketId, user: UserId, event: EventId, ty: TypeId) returns (ok: bool)
      requires id !in tickets
      modifies this`tickets
      ensures ok <==> user in users && !Holds(old(tickets), user, event)
      ensures tickets == if ok then old(tickets)[id := IssuedTicket(user, event, ty)] else old(tickets)
    {
      var clash := FindTicket(user, event);
      ok := user in users && clash.None?;
      if ok {
        tickets := tickets[id := Ticket(user, event, ty, Issued, None)];
      }
    }

    /**
      The transaction shared by RSVP and voucher redemption: take a seat that was seen to be there, close the type at
      zero, create the ticket; a violated constraint rolls all of it back.
     */
    method IssueAgainst(id: TicketId, user: UserId, event: EventId, ty: TypeId) returns (ok: bool)
      requires Valid() && id !in tickets && ty in types && types[ty].remaining > 0
      modifies this`types, this`tickets
      ensures ok <==> InsertAllowed(old(State()), user, event)
      ensures State() == if ok then Issue(old(State()), id, user, event, ty) else old(State())
      ensures Valid()
    {
      var snapshot := types;
      types := types[ty := types[ty].(remaining := types[ty].remaining - 1)];
      MarkSoldOutAtZero(ty);
      ok := CreateTicket(id, user, event, ty);
      if ok {
        assert types == snapshot[ty := TakeSeat(snapshot[ty])];
        IssueKeepsDb(old(State()), id, user, event, ty);
      } else {
        types := snapshot;
      }
    }

    method RestoreSeat(ty: TypeId)
      requires ty in types
      modifies this`types
      ensures types == old(types)[ty := ReturnSeat(old(types)[ty])]
    {
      types := types[ty := types[ty].(remaining := types[ty].remaining + 1, soldOut := false)];
    }
  }

  class TicketsService {
    const prisma: Prisma

    constructor (prisma: Prisma)
      ensures this.prisma == prisma
    {
      this.prisma := prisma;
    }

    method ClaimFreeTicket(id: TicketId, user: UserId, event: EventId, ty: TypeId) returns (r: Outcome<TicketId>)
      requires prisma.Valid() && id !in prisma.tickets
      modifies prisma
      ensures (prisma.State(), r) == Claim(old(prisma.State()), id, user, event, ty)
      ensures prisma.Valid()
    {
      if ty !in prisma.types { return Err(TypeNotFound); }
      if prisma.types[ty].event != event { return Err(TypeOfOtherEvent); }
      if event !in prisma.events { return Err(EventNotFound); }
      if prisma.events[event].external { return Err(ExternalEvent); }
      if prisma.types[ty].price != 0 { return Err(NotFree); }
      ghost var start := prisma.State();
      var snapshot := prisma.types;
      var existing := prisma.FindTicket(user, event);
      if existing.Some? { return Err(AlreadyHasTicket); }
      var reserved := prisma.ReserveSeat(ty);
      if reserved == 0 { return Err(SoldOut); }
      prisma.MarkSoldOutAtZero(ty);
      var created := prisma.CreateTicket(id, user, event, ty);
      if !created {
        prisma.types := snapshot;
        return Err(ConstraintViolation);
      }
      assert prisma.types == start.types[ty := TakeSeat(start.types[ty])];
      IssueKeepsDb(start, id, user, event, ty);
      return Ok(id);
    }

    method VoidTicket(id: TicketId) returns (r: Outcome<()>)
      requires prisma.Valid()
      modifies prisma
      ensures (prisma.State(), r) == TicketTables.VoidTicket(old(prisma.State()), id)
      ensures prisma.Valid()
    {
      if id !in prisma.tickets { return Err(TicketNotFound); }
      var ticket := prisma.tickets[id];
      if ticket.status == Void { return Err(AlreadyVoid); }
      GiveBackKeepsDb(prisma.State(), id);
      prisma.tickets := prisma.tickets[id := ticket.(status := Void)];
      if ticket.status != CheckedIn {
        prisma.RestoreSeat(ticket.ticketType);
      }
      return Ok(());
    }

    method CancelTicket(user: UserId, event: EventId) returns (r: Outcome<()>)
      requires prisma.Valid()
      modifies prisma
      ensures (prisma.State(), r) == Cancel(old(prisma.State()), user, event)
      ensures prisma.Valid()
    {
      var found := prisma.FindTicket(user, event);
      if found.None? { return Err(TicketNotFound); }
      var ticket := prisma.tickets[found.value];
      if ticket.status == CheckedIn { return Err(AlreadyUsed); }
      assert found.value == TicketOf(prisma.State(), user, event);
      GiveBackKeepsDb(prisma.State(), found.value);
      prisma.tickets := prisma.tickets[found.value := ticket.(status := Void)];
      prisma.RestoreSeat(ticket.ticketType);
      return Ok(());
    }

    method CheckIn(id: TicketId, now: Time) returns (r: Outcome<()>)
      requires prisma.Valid()
      modifies prisma
      ensures (prisma.State(), r) == TicketTables.CheckIn(old(prisma.State()), id, now)
      ensures prisma.Valid()
    {
      if id !in prisma.tickets { return Err(TicketNotFound); }
      var ticket := prisma.tickets[id];
      if ticket.status == Void { return Err(AlreadyVoid); }
      if ticket.status == CheckedIn { return Err(AlreadyUsed); }
      StampKeepsDb(prisma.State(), id, now);
      prisma.tickets := prisma.tickets[id := ticket.(status := CheckedIn, checkedInAt := Some(now))];
      return Ok(());
    }
  }

  class EventsService {
    const prisma: Prisma

    constructor (prisma: Prisma)
      ensures this.prisma == prisma
    {
      this.prisma := prisma;
    }

    method CreateTicketType(ty: TypeId, event: EventId, price: int, school: Option<SchoolId>,
        total: int) returns (r: Outcome<TypeId>)
      requires prisma.Valid() && ty !in prisma.types
      modifies prisma
      ensures if event in old(prisma.events)
              then r == Ok(ty) && prisma.State() == NewType(old(prisma.State()), ty, event, price, school, total)
              else r == Err(EventNotFound) && prisma.State() == old(prisma.State())
      ensures prisma.Valid()
    {
      if event !in prisma.events { return Err(EventNotFound); }
      var e := prisma.events[event];
      prisma.types := prisma.types[ty := TicketType(event, if e.external then price
        else 0, school, total, total, false)];
      prisma.events := prisma.events[event := e.(ticketTypes := e.ticketTypes + [ty])];
      return Ok(ty);
    }

    method MarkTicketTypeSoldOut(event: EventId, ty: TypeId, isSoldOut: bool) returns (r: Outcome<()>)
      requires prisma.Valid()
      modifies prisma
      ensures (prisma.State(), r) == MarkSoldOut(old(prisma.State()), event, ty, isSoldOut)
      ensures prisma.Valid()
    {
      if ty !in prisma.types || prisma.types[ty].event != event { return Err(TypeOfOtherEvent); }
      prisma.types := prisma.types[ty := prisma.types[ty].(soldOut := isSoldOut)];
      return Ok(());
    }

    method CancelEvent(event: EventId) returns (r: Outcome<()>)
      requires prisma.Valid()
      modifies prisma
      ensures r.Ok? <==> event in old(prisma.events) && !old(prisma.events)[event].cancelled
      ensures prisma.State() == if r.Ok? then Revise(old(prisma.State()), event, true, old(prisma.events)[event].endsAt)
              else old(prisma.State())
      ensures prisma.Valid()
    {
      if event !in prisma.events { return Err(EventNotFound); }
      if prisma.events[event].cancelled { return Err(EventCancelled); }
      prisma.events := prisma.events[event := prisma.events[event].(cancelled := true)];
      return Ok(());
    }

    method FetchFreeTicket(id: TicketId, event: EventId, user: UserId) returns (r: Outcome<TicketId>)
      requires prisma.Valid() && id !in prisma.tickets
      modifies prisma
      ensures (prisma.State(), r) == Rsvp(old(prisma.State()), id, event, user)
      ensures prisma.Valid()
    {
      if event !in prisma.events { return Err(EventNotFound); }
      var e := prisma.events[event];
      if e.external { return Err(ExternalEvent); }
      var known := user in prisma.users;
      var host := known && prisma.users[user].school == Some(e.school);
      var connected := known && prisma.users[user].school.Some?
          && prisma.users[user].school.value in e.connectedSchools;
      if known && prisma.users[user].student && !host && !connected { return Err(WrongSchool); }
      if e.restrictToCardHolders && e.linkedCards != {} && known && prisma.users[user].student {
        if prisma.users[user].usedCards * e.linkedCards == {} { return Err(NeedsCard); }
      }
      var school := if connected then prisma.users[user].school else None;
      var choice := FirstOpen(Db(prisma.events, prisma.users, prisma.types, prisma.tickets, prisma.vouchers),
          e.ticketTypes, school);
      if choice.None? { return Err(NoneAvailable); }
      var existing := prisma.FindTicket(user, event);
      if existing.Some? { return Err(AlreadyHasTicket); }
      var created := prisma.IssueAgainst(id, user, event, choice.value);
      if !created { return Err(ConstraintViolation); }
      return Ok(id);
    }
  }

  class VouchersService {
    const prisma: Prisma

    constructor (prisma: Prisma)
      ensures this.prisma == prisma
    {
      this.prisma := prisma;
    }

    method Redeem(id: TicketId, code: VoucherId, user: UserId, now: Time) returns (r: Outcome<TicketId>)
      requires prisma.Valid() && id !in prisma.tickets
      modifies prisma
      ensures (prisma.State(), r) == TicketTables.Redeem(old(prisma.State()), id, code, user, now)
      ensures prisma.Valid()
    {
      if code !in prisma.vouchers { return Err(VoucherNotFound); }
      var v := prisma.vouchers[code];
      if v.used { return Err(VoucherUsed); }
      if v.expiresAt.Some? && now > v.expiresAt.value { return Err(VoucherExpired); }
      if v.assignedTo.Some? && v.assignedTo.value != user { return Err(VoucherOfAnother); }
      if v.event in prisma.events && prisma.events[v.event].external { return Err(ExternalEvent); }
      if v.ticketType !in prisma.types || prisma.types[v.ticketType].remaining <= 0 { return Err(SoldOut); }
      var existing := prisma.FindTicket(user, v.event);
      if existing.Some? { return Err(AlreadyHasTicket); }
      var created := prisma.IssueAgainst(id, user, v.event, v.ticketType);
      if !created { return Err(ConstraintViolation); }
      prisma.vouchers := prisma.vouchers[code := v.(used := true, redeemedBy := Some(user), redeemedAt := Some(now))];
      return Ok(id);
    }
  }

  datatype EventStats = EventStats(scanned: int, remainingEntries: int, totalCapacity: int, occupancyRate: int)

  function WithStatus(tickets: map<TicketId, Ticket>, event: EventId, statuses: set<Status>): set<TicketId> {
    set id | id in tickets && tickets[id].event == event && tickets[id].status in statuses
  }

  function StatsOf(tickets: map<TicketId, Ticket>, event: EventId): EventStats {
    var (live, used) := (|WithStatus(tickets, event, {Issued, CheckedIn})|, |WithStatus(tickets, event, {CheckedIn})|);
    EventStats(used, live - used, live, if live > 0 then Percent(used, live) else 0)
  }

  /** The figures shown at the door: entries left are the issued tickets, the rate the nearest percentage. */
  lemma StatsAreConsistent(tickets: map<TicketId, Ticket>, event: EventId)
    ensures var s := StatsOf(tickets, event);
            && s.remainingEntries == |set id | id in tickets && tickets[id].event == event
            && tickets[id].status == Issued|
            && s.scanned == |set id | id in tickets && tickets[id].event == event && tickets[id].status == CheckedIn|
            && s.scanned + s.remainingEntries == s.totalCapacity
            && 0 <= s.occupancyRate <= 100
            && (s.scanned == s.totalCapacity > 0 ==> s.occupancyRate == 100)
            && (if s.totalCapacity == 0 then s.occupancyRate == 0 else
                  && 200 * s.scanned < 2 * (s.totalCapacity * s.occupancyRate) + s.totalCapacity
                  && 2 * (s.totalCapacity * s.occupancyRate) <= 200 * s.scanned + s.totalCapacity)
  {
    LiveIsIssuedOrUsed(tickets, event);
    assert WithStatus(tickets, event, {Issued})
        == set id | id in tickets && tickets[id].event == event && tickets[id].status == Issued;
    assert WithStatus(tickets, event, {CheckedIn})
        == set id | id in tickets && tickets[id].event == event && tickets[id].status == CheckedIn;
    hide WithStatus;
    var (live, used) := (|WithStatus(tickets, event, {Issued, CheckedIn})|, |WithStatus(tickets, event, {CheckedIn})|);
    if live > 0 {
      PercentInRange(used, live);
      PercentIsNearest(used, live);
      hide Percent;
    }
  }

  lemma LiveIsIssuedOrUsed(tickets: map<TicketId, Ticket>, event: EventId)
    ensures |WithStatus(tickets, event, {Issued, CheckedIn})|
         == |WithStatus(tickets, event, {Issued})| + |WithStatus(tickets, event, {CheckedIn})|
  {
    var (issued, used) := (WithStatus(tickets, event, {Issued}), WithStatus(tickets, event, {CheckedIn}));
    assert WithStatus(tickets, event, {Issued, CheckedIn}) == issued + used;
    assert issued !! used;
  }

  datatype ScanReply = ScanReply(status: Status, checkedInAt: Option<Time>, stats: EventStats)

  class ScannerService {
    const prisma: Prisma

    constructor (prisma: Prisma)
      ensures this.prisma == prisma
    {
      this.prisma := prisma;
    }

    /** The conditional update: only a row still `ISSUED` is touched. */
    method CheckInIfIssued(id: TicketId, now: Time) returns (count: nat)
      modifies prisma`tickets
      ensures count == if id in old(prisma.tickets) && old(prisma.tickets)[id].status == Issued then 1 else 0
      ensures prisma.State() == if count == 1 then Stamp(old(prisma.State()), id, now) else old(prisma.State())
    {
      count := 0;
      if id in prisma.tickets && prisma.tickets[id].status == Issued {
        prisma.tickets := prisma.tickets[id := prisma.tickets[id].(status := CheckedIn, checkedInAt := Some(now))];
        count := 1;
      }
    }

    method ScanTicket(id: TicketId, verifyOnly: bool, now: Time) returns (r: Outcome<ScanReply>)
      requires prisma.Valid()
      modifies prisma
      ensures r.Ok? <==> DoorOpen(old(prisma.State()), id, now) && old(prisma.tickets)[id].status == Issued
      ensures r == Err(TicketNotFound) <==> id !in old(prisma.tickets)
      ensures r == Err(EventNotFound) <==>
                id in old(prisma.tickets) && old(prisma.tickets)[id].event !in old(prisma.events)
      ensures r == Err(EventCancelled) <==>
                && id in old(prisma.tickets) && old(prisma.tickets)[id].event in old(prisma.events)
                && old(prisma.events)[old(prisma.tickets)[id].event].cancelled
      ensures r == Err(EventEnded) <==>
                && id in old(prisma.tickets) && old(prisma.tickets)[id].event in old(prisma.events)
                && !old(prisma.events)[old(prisma.tickets)[id].event].cancelled
                && now > old(prisma.events)[old(prisma.tickets)[id].event].endsAt
      ensures r == Err(AlreadyVoid) <==>
                DoorOpen(old(prisma.State()), id, now) && old(prisma.tickets)[id].status == Void
      ensures r == Err(AlreadyUsed) <==>
                DoorOpen(old(prisma.State()), id, now) && old(prisma.tickets)[id].status == CheckedIn
      ensures r.Ok? ==> id in prisma.tickets && r.value.stats == StatsOf(prisma.tickets, prisma.tickets[id].event)
      ensures r.Ok? && !verifyOnly ==>
                && prisma.State() == old(prisma.State()).(tickets := prisma.tickets)
                && prisma.tickets == old(prisma.tickets)[id := old(prisma.tickets)[id].(status := CheckedIn,
                    checkedInAt := Some(now))]
                && r.value.status == CheckedIn && r.value.checkedInAt == Some(now)
      ensures r.Ok? && verifyOnly ==> r.value.status == Issued && r.value.checkedInAt == None
      ensures r.Err? || verifyOnly ==> prisma.State() == old(prisma.State())
      ensures prisma.Valid()
    {
      if id !in prisma.tickets { return Err(TicketNotFound); }
      var ticket := prisma.tickets[id];
      if ticket.event !in prisma.events { return Err(EventNotFound); }
      if prisma.events[ticket.event].cancelled { return Err(EventCancelled); }
      if now > prisma.events[ticket.event].endsAt { return Err(EventEnded); }
      if ticket.status == Void { return Err(AlreadyVoid); }
      if ticket.status == CheckedIn { return Err(AlreadyUsed); }
      if verifyOnly {
        return Ok(ScanReply(ticket.status, ticket.checkedInAt, StatsOf(prisma.tickets, ticket.event)));
      }
      StampKeepsDb(prisma.State(), id, now);
      var count := CheckInIfIssued(id, now);
      if count == 0 { return Err(AlreadyUsed); }
      var updated := prisma.tickets[id];
      return Ok(ScanReply(updated.status, updated.checkedInAt, StatsOf(prisma.tickets, ticket.event)));
    }
  }
}

/**
  The rows that ticketing reads and writes, and what each service call does to them when it runs alone.
  `tickets/tickets.service.ts`, `events/events.service.ts`, `vouchers/vouchers.service.ts` and
  `scanner/scanner.service.ts` all work on these tables.
 */
module TicketTables {
  import opened Prelude

  type UserId = nat
  type SchoolId = nat
  type CardId = nat
  type EventId = nat
  type TypeId = nat
  type TicketId = nat
  type VoucherId = nat

  datatype Status = Issued | CheckedIn | Void

  datatype Ticket = Ticket(user: UserId, event: EventId, ticketType: TypeId, status: Status, checkedInAt: Option<Time>)

  datatype TicketType = TicketType(
    event: EventId, price: int, connectedSchool: Option<SchoolId>, total: int, remaining: int, soldOut: bool)

  datatype Event = Event(
    external: bool, school: SchoolId, connectedSchools: set<SchoolId>, ticketTypes: seq<TypeId>,
    restrictToCardHolders: bool, linkedCards: set<CardId>, cancelled: bool, endsAt: Time)

  datatype User = User(school: Option<SchoolId>, student: bool, usedCards: set<CardId>)

  datatype Voucher = Voucher(
    event: EventId, ticketType: TypeId, assignedTo: Option<UserId>, expiresAt: Option<Time>,
    used: bool, redeemedBy: Option<UserId>, redeemedAt: Option<Time>)

  datatype Db = Db(
    events: map<EventId, Event>, users: map<UserId, User>, types: map<TypeId, TicketType>,
    tickets: map<TicketId, Ticket>, vouchers: map<VoucherId, Voucher>)

  /** Why a call was turned down. */
  datatype Refusal =
    | TypeNotFound | TypeOfOtherEvent | EventNotFound | ExternalEvent | NotFree
    | AlreadyHasTicket | SoldOut | ConstraintViolation | Aborted
    | TicketNotFound | AlreadyVoid | AlreadyUsed | WrongSchool | NeedsCard | NoneAvailable
    | VoucherNotFound | VoucherUsed | VoucherExpired | VoucherOfAnother
    | EventCancelled | EventEnded

  type Outcome<T> = Result<T, Refusal>

  predicate Holds(tickets: map<TicketId, Ticket>, user: UserId, event: EventId) {
    exists id | id in tickets :: tickets[id].user == user && tickets[id].event == event
  }

  /** `ticket.create`: the foreign key to the user and the unique (user, event) pair are both enforced. */
  predicate InsertAllowed(db: Db, user: UserId, event: EventId) {
    user in db.users && !Holds(db.tickets, user, event)
  }

  /** A seat is consumed by a ticket that is live, or that was voided only after it had been used. */
  predicate Consumes(t: Ticket) {
    t.status != Void || t.checkedInAt.Some?
  }

  function ConsumedTickets(tickets: map<TicketId, Ticket>, ty: TypeId): set<TicketId> {
    set id | id in tickets && tickets[id].ticketType == ty && Consumes(tickets[id])
  }

  function IssuedTicket(user: UserId, event: EventId, ty: TypeId): Ticket {
    Ticket(user, event, ty, Issued, None)
  }

  /** The type row after one seat is taken: the counter drops, and reaching zero closes the type. */
  function TakeSeat(row: TicketType): TicketType {
    row.(remaining := row.remaining - 1, soldOut := row.soldOut || row.remaining == 1)
  }

  function ReturnSeat(row: TicketType): TicketType {
    row.(remaining := row.remaining + 1, soldOut := false)
  }

  function Issue(db: Db, id: TicketId, user: UserId, event: EventId, ty: TypeId): Db
    requires ty in db.types
  {
    db.(types := db.types[ty := TakeSeat(db.types[ty])],
        tickets := db.tickets[id := IssuedTicket(user, event, ty)])
  }

  /** A free type of an internal event: what may be claimed at all. */
  predicate OnSale(db: Db, event: EventId, ty: TypeId) {
    && ty in db.types && db.types[ty].event == event && db.types[ty].price == 0
    && event in db.events && !db.events[event].external
  }

  /** Checks made by `claimFreeTicket` before its transaction opens. */
  function ClaimPrecheck(db: Db, event: EventId, ty: TypeId): Option<Refusal> {
    if ty !in db.types then Some(TypeNotFound)
    else if db.types[ty].event != event then Some(TypeOfOtherEvent)
    else if event !in db.events then Some(EventNotFound)
    else if db.events[event].external then Some(ExternalEvent)
    else if db.types[ty].price != 0 then Some(NotFree)
    else None
  }

  /** `claimFreeTicket` when nothing else runs. */
  function Claim(db: Db, id: TicketId, user: UserId, event: EventId, ty: TypeId): (Db, Outcome<TicketId>) {
    var refused := ClaimPrecheck(db, event, ty);
    if refused.Some? then (db, Err(refused.value))
    else if Holds(db.tickets, user, event) then (db, Err(AlreadyHasTicket))
    else if db.types[ty].remaining <= 0 || db.types[ty].soldOut then (db, Err(SoldOut))
    else if user !in db.users then (db, Err(ConstraintViolation))
    else (Issue(db, id, user, event, ty), Ok(id))
  }

  predicate Open(row: TicketType) {
    row.remaining > 0 && !row.soldOut
  }

  /** Host students draw from host types, students of a connected school from that school's own types. */
  predicate Eligible(row: TicketType, connectedSchool: Option<SchoolId>) {
    row.connectedSchool == connectedSchool
  }

  function FirstOpen(db: Db, order: seq<TypeId>, school: Option<SchoolId>): (r: Option<TypeId>)
    ensures r.Some? ==>
              && r.value in db.types && r.value in order
              && Eligible(db.types[r.value], school) && Open(db.types[r.value])
    ensures r.None? ==>
              forall ty | ty in order && ty in db.types :: !Eligible(db.types[ty], school) || !Open(db.types[ty])
  {
    if order == [] then None
    else if order[0] in db.types && Eligible(db.types[order[0]], school) && Open(db.types[order[0]]) then Some(order[0])
    else FirstOpen(db, order[1..], school)
  }

  predicate HostStudent(db: Db, event: Event, user: UserId) {
    user in db.users && db.users[user].school == Some(event.school)
  }

  predicate ConnectedStudent(db: Db, event: Event, user: UserId) {
    user in db.users && db.users[user].school.Some? && db.users[user].school.value in event.connectedSchools
  }

  predicate Student(db: Db, user: UserId) {
    user in db.users && db.users[user].student
  }

  function RsvpPrecheck(db: Db, event: EventId, user: UserId): Option<Refusal> {
    if event !in db.events then Some(EventNotFound) else
    var e := db.events[event];
    if e.external then Some(ExternalEvent)
    else if Student(db, user) && !HostStudent(db, e, user) && !ConnectedStudent(db, e, user) then Some(WrongSchool)
    else if e.restrictToCardHolders && e.linkedCards != {} && Student(db, user)
            && db.users[user].usedCards * e.linkedCards == {} then Some(NeedsCard)
    else None
  }

  /** The type `fetchFreeTicket` settles on: the first open one the student may draw from. */
  function RsvpType(db: Db, event: EventId, user: UserId): Option<TypeId>
    requires event in db.events
  {
    var e := db.events[event];
    FirstOpen(db, e.ticketTypes, if ConnectedStudent(db, e, user) then db.users[user].school else None)
  }

  /** `fetchFreeTicket`, also reached as `rsvp`. */
  function Rsvp(db: Db, id: TicketId, event: EventId, user: UserId): (Db, Outcome<TicketId>) {
    var refused := RsvpPrecheck(db, event, user);
    if refused.Some? then (db, Err(refused.value)) else
    var choice := RsvpType(db, event, user);
    if choice.None? then (db, Err(NoneAvailable))
    else if Holds(db.tickets, user, event) then (db, Err(AlreadyHasTicket))
    else if user !in db.users then (db, Err(ConstraintViolation))
    else (Issue(db, id, user, event, choice.value), Ok(id))
  }

  function RedeemPrecheck(db: Db, code: VoucherId, user: UserId, now: Time): Option<Refusal> {
    if code !in db.vouchers then Some(VoucherNotFound) else
    var v := db.vouchers[code];
    if v.used then Some(VoucherUsed)
    else if v.expiresAt.Some? && now > v.expiresAt.value then Some(VoucherExpired)
    else if v.assignedTo.Some? && v.assignedTo.value != user then Some(VoucherOfAnother)
    else if v.event in db.events && db.events[v.event].external then Some(ExternalEvent)
    else None
  }

  /** `redeem` looks at the counter only, never at the sold-out flag. */
  function Redeem(db: Db, id: TicketId, code: VoucherId, user: UserId, now: Time): (Db, Outcome<TicketId>) {
    var refused := RedeemPrecheck(db, code, user, now);
    if refused.Some? then (db, Err(refused.value)) else
    var v := db.vouchers[code];
    if v.ticketType !in db.types || db.types[v.ticketType].remaining <= 0 then (db, Err(SoldOut))
    else if Holds(db.tickets, user, v.event) then (db, Err(AlreadyHasTicket))
    else if user !in db.users then (db, Err(ConstraintViolation))
    else (Issue(db, id, user, v.event, v.ticketType)
            .(vouchers := db.vouchers[code := v.(used := true, redeemedBy := Some(user), redeemedAt := Some(now))]),
          Ok(id))
  }

  function SetStatus(db: Db, id: TicketId, status: Status): Db
    requires id in db.tickets
  {
    db.(tickets := db.tickets[id := db.tickets[id].(status := status)])
  }

  function GiveBack(db: Db, ty: TypeId): Db
    requires ty in db.types
  {
    db.(types := db.types[ty := ReturnSeat(db.types[ty])])
  }

  /** `voidTicket`: an unused seat goes back, a used one stays consumed. */
  function VoidTicket(db: Db, id: TicketId): (Db, Outcome<()>) {
    if id !in db.tickets then (db, Err(TicketNotFound)) else
    var t := db.tickets[id];
    if t.status == Void then (db, Err(AlreadyVoid))
    else if t.status == CheckedIn then (SetStatus(db, id, Void), Ok(()))
    else if t.ticketType !in db.types then (db, Err(ConstraintViolation))
    else (GiveBack(SetStatus(db, id, Void), t.ticketType), Ok(()))
  }

  /** `findFirst({ userId, eventId })`; the unique constraint leaves at most one row to find. */
  ghost function TicketOf(db: Db, user: UserId, event: EventId): (id: TicketId)
    requires Holds(db.tickets, user, event)
    ensures id in db.tickets && db.tickets[id].user == user && db.tickets[id].event == event
  {
    var id :| id in db.tickets && db.tickets[id].user == user && db.tickets[id].event == event;
    id
  }

  /** `cancelTicket` and `cancelRsvp`: only a checked-in ticket is turned down, a void one is not. */
  ghost function Cancel(db: Db, user: UserId, event: EventId): (Db, Outcome<()>) {
    if !Holds(db.tickets, user, event) then (db, Err(TicketNotFound)) else
    var id := TicketOf(db, user, event);
    var t := db.tickets[id];
    if t.status == CheckedIn then (db, Err(AlreadyUsed))
    else if t.ticketType !in db.types then (db, Err(ConstraintViolation))
    else (GiveBack(SetStatus(db, id, Void), t.ticketType), Ok(()))
  }

  function Stamp(db: Db, id: TicketId, now: Time): Db
    requires id in db.tickets
  {
    db.(tickets := db.tickets[id := db.tickets[id].(status := CheckedIn, checkedInAt := Some(now))])
  }

  /** `checkIn`, the manual door list. */
  function CheckIn(db: Db, id: TicketId, now: Time): (Db, Outcome<()>) {
    if id !in db.tickets then (db, Err(TicketNotFound)) else
    var t := db.tickets[id];
    if t.status == Void then (db, Err(AlreadyVoid))
    else if t.status == CheckedIn then (db, Err(AlreadyUsed))
    else (Stamp(db, id, now), Ok(()))
  }

  /** `markTicketTypeSoldOut`: an administrator writes the flag and nothing else. */
  function MarkSoldOut(db: Db, event: EventId, ty: TypeId, soldOut: bool): (Db, Outcome<()>) {
    if ty !in db.types || db.types[ty].event != event then (db, Err(TypeOfOtherEvent))
    else (db.(types := db.types[ty := db.types[ty].(soldOut := soldOut)]), Ok(()))
  }
}

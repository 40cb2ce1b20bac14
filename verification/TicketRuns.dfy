/**
  Tickets under concurrency. Free claims and scans are split at every database statement and interleave freely;
  the calls that read first and then write unconditionally are each one step. A claim locks the ticket type's row
  when its conditional decrement succeeds, and keeps the new row to itself until it commits.
 */
module TicketRuns {
  import opened Prelude
  import opened TicketTables

  type Proc = nat

  datatype ClaimStage =
    | Begun
    | Validated
    | DupChecked
    | Reserved(row: TicketType)
    | Marked(row: TicketType)
    | Inserted(row: TicketType, id: TicketId)
    | Won(id: TicketId)
    | Lost(why: Refusal)

  datatype ClaimProc = ClaimProc(user: UserId, event: EventId, ticketType: TypeId, stage: ClaimStage)

  datatype ScanStage =
    | Arrived
    | SeenIssued
    | Updated(at: Time)
    | Admitted(at: Time, reported: Status)
    | Valid
    | Refused(why: Refusal)

  datatype ScanProc = ScanProc(ticket: TicketId, verifyOnly: bool, stage: ScanStage)

  /** `locks[ty]` is the claim holding the row lock of type `ty`. The tables in `db` hold committed rows. */
  datatype Sys = Sys(db: Db, locks: map<TypeId, Proc>, claims: map<Proc, ClaimProc>, scans: map<Proc, ScanProc>)

  datatype Step =
    | CreateType(ty: TypeId, event: EventId, price: int, school: Option<SchoolId>, total: int)
    | BeginClaim(p: Proc, user: UserId, event: EventId, ty: TypeId)
    | ClaimStep(p: Proc, id: TicketId)
    | AbortClaim(p: Proc)
    | RsvpCall(event: EventId, user: UserId, id: TicketId)
    | RedeemCall(code: VoucherId, user: UserId, now: Time, id: TicketId)
    | VoidCall(id: TicketId)
    | CancelCall(user: UserId, event: EventId)
    | CheckInCall(id: TicketId, now: Time)
    | MarkCall(event: EventId, ty: TypeId, soldOut: bool)
    | ReviseCall(event: EventId, cancelled: bool, endsAt: Time)
    | BeginScan(p: Proc, id: TicketId, verifyOnly: bool)
    | ScanStep(p: Proc, now: Time)

  // ---------------------------------------------------------------------------------------------
  // Claims, statement by statement
  // ---------------------------------------------------------------------------------------------

  predicate Holding(c: ClaimProc) {
    c.stage.Reserved? || c.stage.Marked? || c.stage.Inserted?
  }

  predicate Finished(c: ClaimProc) {
    c.stage.Won? || c.stage.Lost?
  }

  function SetStage(s: Sys, p: Proc, stage: ClaimStage): Sys
    requires p in s.claims
  {
    s.(claims := s.claims[p := s.claims[p].(stage := stage)])
  }

  /** The claim's transaction ends without a trace: its private row and ticket vanish and the lock is freed. */
  function Rollback(s: Sys, p: Proc, why: Refusal): Sys
    requires p in s.claims
  {
    var s' := SetStage(s, p, Lost(why));
    if Holding(s.claims[p]) then s'.(locks := s.locks - {s.claims[p].ticketType}) else s'
  }

  function Commit(s: Sys, p: Proc): Sys
    requires p in s.claims && s.claims[p].stage.Inserted?
  {
    var c := s.claims[p];
    var db' := s.db.(types := s.db.types[c.ticketType := c.stage.row],
                     tickets := s.db.tickets[c.stage.id := IssuedTicket(c.user, c.event, c.ticketType)]);
    SetStage(s, p, Won(c.stage.id)).(db := db', locks := s.locks - {c.ticketType})
  }

  /** Some other claim has inserted a ticket for the same user and event and has not committed it yet. */
  predicate PendingKey(s: Sys, user: UserId, event: EventId) {
    exists q | q in s.claims :: s.claims[q].stage.Inserted? && s.claims[q].user == user && s.claims[q].event == event
  }

  predicate FreshTicket(s: Sys, id: TicketId) {
    id !in s.db.tickets && forall q | q in s.claims && s.claims[q].stage.Inserted? :: s.claims[q].stage.id != id
  }

  /** One statement of claim `p`. A statement that waits for a lock leaves the system as it is. */
  function StepClaim(s: Sys, p: Proc, id: TicketId): Sys {
    if p !in s.claims then s else
    var c := s.claims[p];
    match c.stage
    case Begun =>
      var refused := ClaimPrecheck(s.db, c.event, c.ticketType);
      SetStage(s, p, if refused.Some? then Lost(refused.value) else Validated)
    case Validated =>
      if Holds(s.db.tickets, c.user, c.event) then Rollback(s, p, AlreadyHasTicket) else SetStage(s, p, DupChecked)
    case DupChecked =>
      if c.ticketType in s.locks then s
      else if c.ticketType !in s.db.types || !Open(s.db.types[c.ticketType]) then Rollback(s, p, SoldOut)
      else
        var row := s.db.types[c.ticketType];
        SetStage(s, p, Reserved(row.(remaining := row.remaining - 1))).(locks := s.locks[c.ticketType := p])
    case Reserved(row) =>
      SetStage(s, p, Marked(if row.remaining == 0 then row.(soldOut := true) else row))
    case Marked(row) =>
      if PendingKey(s, c.user, c.event) || !FreshTicket(s, id) then s
      else if !InsertAllowed(s.db, c.user, c.event) then Rollback(s, p, ConstraintViolation)
      else SetStage(s, p, Inserted(row, id))
    case Inserted(_, _) => Commit(s, p)
    case Won(_) => s
    case Lost(_) => s
  }

  // ---------------------------------------------------------------------------------------------
  // Scans, statement by statement
  // ---------------------------------------------------------------------------------------------

  function SetScan(s: Sys, p: Proc, stage: ScanStage): Sys
    requires p in s.scans
  {
    s.(scans := s.scans[p := s.scans[p].(stage := stage)])
  }

  function ScanPrecheck(db: Db, id: TicketId, now: Time): Option<Refusal> {
    if id !in db.tickets then Some(TicketNotFound) else
    var t := db.tickets[id];
    if t.event !in db.events then Some(EventNotFound)
    else if db.events[t.event].cancelled then Some(EventCancelled)
    else if now > db.events[t.event].endsAt then Some(EventEnded)
    else if t.status == Void then Some(AlreadyVoid)
    else if t.status == CheckedIn then Some(AlreadyUsed)
    else None
  }

  function StepScan(s: Sys, p: Proc, now: Time): Sys {
    if p !in s.scans then s else
    var c := s.scans[p];
    match c.stage
    case Arrived =>
      var refused := ScanPrecheck(s.db, c.ticket, now);
      SetScan(s, p, if refused.Some? then Refused(refused.value) else if c.verifyOnly then Valid else SeenIssued)
    case SeenIssued =>
      if c.ticket in s.db.tickets && s.db.tickets[c.ticket].status == Issued then
        SetScan(s, p, Updated(now)).(db := Stamp(s.db, c.ticket, now))
      else SetScan(s, p, Refused(AlreadyUsed))
    case Updated(at) =>
      if c.ticket in s.db.tickets then SetScan(s, p, Admitted(at, s.db.tickets[c.ticket].status)) else s
    case Admitted(_, _) => s
    case Valid => s
    case Refused(_) => s
  }

  function Rank(status: Status): nat {
    match status case Issued => 0 case CheckedIn => 1 case Void => 2
  }

  predicate Succeeded(c: ScanProc) {
    c.stage.Updated? || c.stage.Admitted?
  }

  // ---------------------------------------------------------------------------------------------
  // Whole calls: one step each, waiting while a row they must write is locked
  // ---------------------------------------------------------------------------------------------

  function NewType(db: Db, ty: TypeId, event: EventId, price: int, school: Option<SchoolId>, total: int): Db
    requires event in db.events
  {
    var e := db.events[event];
    db.(types := db.types[ty := TicketType(event, if e.external then price else 0, school, total, total, false)],
        events := db.events[event := e.(ticketTypes := e.ticketTypes + [ty])])
  }

  function StepRsvp(s: Sys, event: EventId, user: UserId, id: TicketId): Sys {
    if RsvpPrecheck(s.db, event, user).Some? then s else
    var choice := RsvpType(s.db, event, user);
    if choice.None? || choice.value in s.locks || PendingKey(s, user, event) || !FreshTicket(s, id) then s
    else s.(db := Rsvp(s.db, id, event, user).0)
  }

  function StepRedeem(s: Sys, code: VoucherId, user: UserId, now: Time, id: TicketId): Sys {
    if RedeemPrecheck(s.db, code, user, now).Some? then s else
    var v := s.db.vouchers[code];
    if v.ticketType in s.locks || PendingKey(s, user, v.event) || !FreshTicket(s, id) then s
    else s.(db := Redeem(s.db, id, code, user, now).0)
  }

  /** Only voiding an unused ticket writes the type's row, and so waits for its lock. */
  function StepVoid(s: Sys, id: TicketId): Sys {
    if id in s.db.tickets && s.db.tickets[id].status == Issued && s.db.tickets[id].ticketType in s.locks then s
    else s.(db := VoidTicket(s.db, id).0)
  }

  ghost function StepCancel(s: Sys, user: UserId, event: EventId): Sys {
    if !Holds(s.db.tickets, user, event) || s.db.tickets[TicketOf(s.db, user, event)].ticketType in s.locks then s
    else s.(db := Cancel(s.db, user, event).0)
  }

  /** An event is called off, or moved. */
  function Revise(db: Db, event: EventId, cancelled: bool, endsAt: Time): Db {
    if event !in db.events then db
    else db.(events := db.events[event := db.events[event].(cancelled := cancelled, endsAt := endsAt)])
  }

  function StepMark(s: Sys, event: EventId, ty: TypeId, soldOut: bool): Sys {
    if ty in s.locks then s else s.(db := MarkSoldOut(s.db, event, ty, soldOut).0)
  }

  ghost function Exec(s: Sys, step: Step): Sys {
    match step
    case CreateType(ty, event, price, school, total) =>
      if ty in s.db.types || event !in s.db.events then s
      else s.(db := NewType(s.db, ty, event, price, school, total))
    case BeginClaim(p, user, event, ty) =>
      if p in s.claims then s else s.(claims := s.claims[p := ClaimProc(user, event, ty, Begun)])
    case ClaimStep(p, id) => StepClaim(s, p, id)
    case AbortClaim(p) => if p in s.claims && !Finished(s.claims[p]) then Rollback(s, p, Aborted) else s
    case RsvpCall(event, user, id) => StepRsvp(s, event, user, id)
    case RedeemCall(code, user, now, id) => StepRedeem(s, code, user, now, id)
    case VoidCall(id) => StepVoid(s, id)
    case CancelCall(user, event) => StepCancel(s, user, event)
    case CheckInCall(id, now) => s.(db := CheckIn(s.db, id, now).0)
    case MarkCall(event, ty, soldOut) => StepMark(s, event, ty, soldOut)
    case ReviseCall(event, cancelled, endsAt) => s.(db := Revise(s.db, event, cancelled, endsAt))
    case BeginScan(p, id, verifyOnly) =>
      if p in s.scans then s else s.(scans := s.scans[p := ScanProc(id, verifyOnly, Arrived)])
    case ScanStep(p, now) => StepScan(s, p, now)
  }

  ghost function Run(s: Sys, steps: seq<Step>): Sys
    decreases |steps|
  {
    if steps == [] then s else Run(Exec(s, steps[0]), steps[1..])
  }

  // ---------------------------------------------------------------------------------------------
  // What every step keeps
  // ---------------------------------------------------------------------------------------------

  ghost predicate LocksMatch(locks: map<TypeId, Proc>, claims: map<Proc, ClaimProc>) {
    && (forall ty | ty in locks ::
          locks[ty] in claims && Holding(claims[locks[ty]]) && claims[locks[ty]].ticketType == ty)
    && (forall p | p in claims && Holding(claims[p]) ::
          claims[p].ticketType in locks && locks[claims[p].ticketType] == p)
  }

  /** The private row of an open claim, in terms of the committed row it was read from. */
  predicate PrivateRow(base: TicketType, stage: ClaimStage) {
    && Open(base)
    && (stage.Reserved? ==> stage.row == base.(remaining := base.remaining - 1))
    && (stage.Marked? || stage.Inserted? ==> stage.row == TakeSeat(base))
  }

  ghost predicate RowsMatch(types: map<TypeId, TicketType>, claims: map<Proc, ClaimProc>) {
    forall p | p in claims && Holding(claims[p]) ::
      claims[p].ticketType in types && PrivateRow(types[claims[p].ticketType], claims[p].stage)
  }

  /** The schema's unique (user, event) pair, over committed tickets. */
  ghost predicate UniqueTickets(tickets: map<TicketId, Ticket>) {
    forall i, j | i in tickets && j in tickets
      && tickets[i].user == tickets[j].user && tickets[i].event == tickets[j].event :: i == j
  }

  /** No uncommitted ticket clashes with a committed one or with another uncommitted one. */
  ghost predicate PendingDistinct(
    users: map<UserId, User>, tickets: map<TicketId, Ticket>, claims: map<Proc, ClaimProc>)
  {
    && (forall p | p in claims && claims[p].stage.Inserted? ::
          claims[p].stage.id !in tickets && claims[p].user in users && !Holds(tickets, claims[p].user, claims[p].event))
    && (forall p, q | p in claims && q in claims && claims[p].stage.Inserted? && claims[q].stage.Inserted?
          && (claims[p].stage.id == claims[q].stage.id
              || (claims[p].user == claims[q].user && claims[p].event == claims[q].event)) :: p == q)
  }

  /** A type never goes below zero seats. */
  predicate SoundRow(row: TicketType) {
    if row.total >= 0 then row.remaining >= 0 else row.remaining == row.total
  }

  ghost predicate SoundRows(types: map<TypeId, TicketType>, tickets: map<TicketId, Ticket>) {
    && (forall ty | ty in types :: SoundRow(types[ty]))
    && (forall id | id in tickets :: tickets[id].ticketType in types && types[tickets[id].ticketType].total >= 0)
  }

  /** A check-in time is on the row of every used ticket and of no issued one. */
  ghost predicate Stamped(tickets: map<TicketId, Ticket>) {
    forall id | id in tickets ::
      && (tickets[id].status == CheckedIn ==> tickets[id].checkedInAt.Some?)
      && (tickets[id].status == Issued ==> tickets[id].checkedInAt.None?)
  }

  /**
    A scan that went through: its ticket carries the time of this very scan, and what it read back still explains the
    row.
   */
  predicate Explained(tickets: map<TicketId, Ticket>, c: ScanProc) {
    && c.ticket in tickets
    && (Succeeded(c) ==> tickets[c.ticket].checkedInAt == Some(c.stage.at))
    && (c.stage.Admitted? ==> c.stage.reported != Issued && Rank(c.stage.reported) <= Rank(tickets[c.ticket].status))
  }

  predicate Went(scans: map<Proc, ScanProc>, p: Proc) {
    p in scans && Succeeded(scans[p])
  }

  /** Each successful scan is the one that stamped its ticket. */
  ghost predicate ScansStamped(tickets: map<TicketId, Ticket>, scans: map<Proc, ScanProc>) {
    && (forall p | Went(scans, p) :: Explained(tickets, scans[p]))
    && (forall p, q | Went(scans, p) && Went(scans, q) && scans[p].ticket == scans[q].ticket :: p == q)
  }

  ghost predicate DbInv(db: Db) {
    UniqueTickets(db.tickets) && SoundRows(db.types, db.tickets) && Stamped(db.tickets)
  }

  /** A claim that reported success has its ticket on record. */
  ghost predicate WinnersHold(tickets: map<TicketId, Ticket>, claims: map<Proc, ClaimProc>) {
    forall p | p in claims && claims[p].stage.Won? :: TicketFor(tickets, claims[p].stage.id, claims[p])
  }

  predicate TicketFor(tickets: map<TicketId, Ticket>, id: TicketId, c: ClaimProc) {
    && id in tickets
    && tickets[id].user == c.user && tickets[id].event == c.event && tickets[id].ticketType == c.ticketType
  }

  ghost predicate ClaimsInv(db: Db, locks: map<TypeId, Proc>, claims: map<Proc, ClaimProc>) {
    && LocksMatch(locks, claims) && RowsMatch(db.types, claims)
    && PendingDistinct(db.users, db.tickets, claims) && WinnersHold(db.tickets, claims)
  }

  ghost predicate Claims(s: Sys) {
    ClaimsInv(s.db, s.locks, s.claims)
  }

  ghost predicate Inv(s: Sys) {
    DbInv(s.db) && Claims(s) && ScansStamped(s.db.tickets, s.scans)
  }

  /** A ticket never changes hands, is never un-stamped, and never goes back to an earlier status. */
  predicate Evolves(t: Ticket, t': Ticket) {
    && t'.user == t.user && t'.event == t.event && t'.ticketType == t.ticketType
    && Rank(t.status) <= Rank(t'.status)
    && (t.checkedInAt.Some? ==> t'.checkedInAt == t.checkedInAt)
  }

  predicate SameOffer(row: TicketType, row': TicketType) {
    row'.(remaining := row.remaining, soldOut := row.soldOut) == row
  }

  ghost predicate Grows(before: Db, after: Db) {
    && (forall id | id in before.tickets :: id in after.tickets && Evolves(before.tickets[id], after.tickets[id]))
    && (forall ty | ty in before.types :: ty in after.types && SameOffer(before.types[ty], after.types[ty]))
  }

  lemma UnchangedGrows(db: Db)
    ensures Grows(db, db)
  {
  }

  // Tables alone.

  lemma IssueKeepsDb(db: Db, id: TicketId, user: UserId, event: EventId, ty: TypeId)
    requires DbInv(db) && id !in db.tickets && ty in db.types && db.types[ty].remaining > 0
             && !Holds(db.tickets, user, event)
    ensures DbInv(Issue(db, id, user, event, ty)) && Grows(db, Issue(db, id, user, event, ty))
  {
  }

  lemma GiveBackKeepsDb(db: Db, id: TicketId)
    requires DbInv(db) && id in db.tickets
    ensures DbInv(SetStatus(db, id, Void)) && Grows(db, SetStatus(db, id, Void))
    ensures DbInv(GiveBack(SetStatus(db, id, Void), db.tickets[id].ticketType))
    ensures Grows(db, GiveBack(SetStatus(db, id, Void), db.tickets[id].ticketType))
  {
  }

  lemma StampKeepsDb(db: Db, id: TicketId, now: Time)
    requires DbInv(db) && id in db.tickets && db.tickets[id].status == Issued
    ensures DbInv(Stamp(db, id, now)) && Grows(db, Stamp(db, id, now))
  {
  }

  // Claims, one kind of move at a time.

  lemma QuietKeepsClaims(s: Sys, p: Proc, stage: ClaimStage)
    requires Claims(s) && p in s.claims && !Holding(s.claims[p])
    requires !Holding(s.claims[p].(stage := stage)) && !stage.Won?
    ensures Claims(SetStage(s, p, stage))
  {
  }

  lemma ReserveKeepsClaims(s: Sys, p: Proc)
    requires Claims(s) && p in s.claims && s.claims[p].stage.DupChecked? && s.claims[p].ticketType !in s.locks
    requires s.claims[p].ticketType in s.db.types && Open(s.db.types[s.claims[p].ticketType])
    ensures Claims(StepClaim(s, p, 0))
  {
  }

  lemma MarkKeepsClaims(s: Sys, p: Proc)
    requires Claims(s) && p in s.claims && s.claims[p].stage.Reserved?
    ensures Claims(StepClaim(s, p, 0))
  {
  }

  lemma InsertKeepsClaims(s: Sys, p: Proc, id: TicketId)
    requires Claims(s) && p in s.claims && s.claims[p].stage.Marked? && FreshTicket(s, id)
    requires InsertAllowed(s.db, s.claims[p].user, s.claims[p].event)
             && !PendingKey(s, s.claims[p].user, s.claims[p].event)
    ensures Claims(SetStage(s, p, Inserted(s.claims[p].stage.row, id)))
  {
  }

  /** The end of a transaction frees its own lock and leaves the others with their holders. */
  lemma LocksAfterEnd(locks: map<TypeId, Proc>, claims: map<Proc, ClaimProc>, p: Proc, end: ClaimStage)
    requires LocksMatch(locks, claims) && p in claims && !Holding(claims[p].(stage := end))
    ensures LocksMatch(if Holding(claims[p]) then locks - {claims[p].ticketType}
            else locks, claims[p := claims[p].(stage := end)])
  {
  }

  lemma PendingAfterRollback(s: Sys, p: Proc, why: Refusal)
    requires PendingDistinct(s.db.users, s.db.tickets, s.claims) && p in s.claims
    ensures PendingDistinct(s.db.users, s.db.tickets, Rollback(s, p, why).claims)
  {
    hide Holds;
  }

  lemma RollbackKeepsClaims(s: Sys, p: Proc, why: Refusal)
    requires Claims(s) && p in s.claims
    ensures Claims(Rollback(s, p, why))
  {
    LocksAfterEnd(s.locks, s.claims, p, Lost(why));
    PendingAfterRollback(s, p, why);
    hide LocksMatch, PendingDistinct;
  }

  lemma PendingAfterCommit(s: Sys, p: Proc)
    requires PendingDistinct(s.db.users, s.db.tickets, s.claims) && p in s.claims && s.claims[p].stage.Inserted?
    ensures PendingDistinct(s.db.users, Commit(s, p).db.tickets, Commit(s, p).claims)
  {
  }

  lemma WinnersAfterCommit(s: Sys, p: Proc)
    requires PendingDistinct(s.db.users, s.db.tickets, s.claims) && WinnersHold(s.db.tickets, s.claims)
    requires p in s.claims && s.claims[p].stage.Inserted?
    ensures WinnersHold(Commit(s, p).db.tickets, Commit(s, p).claims)
  {
    hide Holds;
  }

  lemma CommitKeepsClaims(s: Sys, p: Proc)
    requires Claims(s) && p in s.claims && s.claims[p].stage.Inserted?
    ensures Claims(Commit(s, p))
  {
    LocksAfterEnd(s.locks, s.claims, p, Won(s.claims[p].stage.id));
    PendingAfterCommit(s, p);
    WinnersAfterCommit(s, p);
    hide PendingDistinct, WinnersHold;
  }

  /** A whole call as the open claims see it: locked rows stay, and a new ticket clashes with no uncommitted one. */
  ghost predicate CallFits(s: Sys, db': Db) {
    && db'.users == s.db.users
    && (forall ty | ty in s.db.types && ty in s.locks :: ty in db'.types && db'.types[ty] == s.db.types[ty])
    && (forall id | id in db'.tickets && id !in s.db.tickets ::
          FreshTicket(s, id) && !PendingKey(s, db'.tickets[id].user, db'.tickets[id].event))
  }

  lemma CallKeepsClaims(s: Sys, db': Db)
    requires Claims(s) && CallFits(s, db') && Grows(s.db, db')
    ensures Claims(s.(db := db'))
  {
  }

  lemma CallKeepsScans(s: Sys, db': Db)
    requires ScansStamped(s.db.tickets, s.scans) && Grows(s.db, db')
    ensures ScansStamped(db'.tickets, s.scans)
  {
  }

  lemma CallKeepsInv(s: Sys, db': Db)
    requires Inv(s) && DbInv(db') && CallFits(s, db') && Grows(s.db, db')
    ensures Inv(s.(db := db'))
  {
    hide DbInv, ClaimsInv, ScansStamped;
    CallKeepsClaims(s, db');
    CallKeepsScans(s, db');
  }

  /** What a commit does to the tables is exactly one ticket issued against one seat. */
  lemma CommitIssues(s: Sys, p: Proc)
    requires Claims(s) && p in s.claims && s.claims[p].stage.Inserted?
    ensures s.claims[p].ticketType in s.db.types
    ensures Commit(s, p).db == Issue(s.db, s.claims[p].stage.id, s.claims[p].user, s.claims[p].event,
            s.claims[p].ticketType)
  {
  }

  lemma ClaimStepKeepsClaims(s: Sys, p: Proc, id: TicketId)
    requires Claims(s) && p in s.claims
    ensures Claims(StepClaim(s, p, id))
  {
    var c := s.claims[p];
    match c.stage
    case Begun => QuietKeepsClaims(s, p, StepClaim(s, p, id).claims[p].stage);
    case Validated => QuietKeepsClaims(s, p, DupChecked); RollbackKeepsClaims(s, p, AlreadyHasTicket);
    case DupChecked =>
      RollbackKeepsClaims(s, p, SoldOut);
      if c.ticketType !in s.locks && c.ticketType in s.db.types && Open(s.db.types[c.ticketType]) {
        ReserveKeepsClaims(s, p);
      }
    case Reserved(row) => MarkKeepsClaims(s, p);
    case Marked(row) =>
      RollbackKeepsClaims(s, p, ConstraintViolation);
      if !PendingKey(s, c.user, c.event) && FreshTicket(s, id) && InsertAllowed(s.db, c.user, c.event) {
        InsertKeepsClaims(s, p, id);
      }
    case Inserted(row, t) => CommitKeepsClaims(s, p);
    case Won(_) =>
    case Lost(_) =>
  }

  lemma CommitKeepsDb(s: Sys, p: Proc)
    requires Claims(s) && DbInv(s.db) && p in s.claims && s.claims[p].stage.Inserted?
    ensures DbInv(Commit(s, p).db) && Grows(s.db, Commit(s, p).db)
  {
  }

  lemma ClaimStepKeepsInv(s: Sys, p: Proc, id: TicketId)
    requires Inv(s)
    ensures Inv(StepClaim(s, p, id)) && Grows(s.db, StepClaim(s, p, id).db)
  {
    hide DbInv, Claims, Grows, ScansStamped;
    UnchangedGrows(s.db);
    if p in s.claims {
      ClaimStepKeepsClaims(s, p, id);
      if s.claims[p].stage.Inserted? {
        CommitKeepsDb(s, p);
        CallKeepsScans(s, Commit(s, p).db);
      }
    }
  }

  /** The scan that wins its conditional update stamps the ticket, so no earlier scan can have won it. */
  lemma WinKeepsScans(s: Sys, p: Proc, now: Time)
    requires ScansStamped(s.db.tickets, s.scans) && Stamped(s.db.tickets) && p in s.scans
             && s.scans[p].stage.SeenIssued?
    requires s.scans[p].ticket in s.db.tickets && s.db.tickets[s.scans[p].ticket].status == Issued
    ensures StepScan(s, p, now).db == Stamp(s.db, s.scans[p].ticket, now)
    ensures ScansStamped(StepScan(s, p, now).db.tickets, StepScan(s, p, now).scans)
  {
  }

  lemma QuietScanKeepsScans(s: Sys, p: Proc, now: Time)
    requires ScansStamped(s.db.tickets, s.scans) && Stamped(s.db.tickets) && p in s.scans
             && StepScan(s, p, now).db == s.db
    ensures ScansStamped(s.db.tickets, StepScan(s, p, now).scans)
  {
  }

  lemma ScanStepKeepsInv(s: Sys, p: Proc, now: Time)
    requires Inv(s)
    ensures Inv(StepScan(s, p, now)) && Grows(s.db, StepScan(s, p, now).db)
  {
    hide ClaimsInv, ScansStamped;
    if p in s.scans {
      var (id, s') := (s.scans[p].ticket, StepScan(s, p, now));
      if s.scans[p].stage.SeenIssued? && id in s.db.tickets && s.db.tickets[id].status == Issued {
        WinKeepsScans(s, p, now);
        hide DbInv;
        StampKeepsDb(s.db, id, now);
        assert CallFits(s, s'.db);
        CallKeepsClaims(s, s'.db);
      } else {
        QuietScanKeepsScans(s, p, now);
      }
    }
  }

  lemma IssueCallKeepsInv(s: Sys, id: TicketId, user: UserId, event: EventId, ty: TypeId)
    requires Inv(s) && FreshTicket(s, id) && !PendingKey(s, user, event) && !Holds(s.db.tickets, user, event)
    requires ty in s.db.types && ty !in s.locks && s.db.types[ty].remaining > 0
    ensures Inv(s.(db := Issue(s.db, id, user, event, ty))) && Grows(s.db, Issue(s.db, id, user, event, ty))
  {
    hide DbInv, Claims, ScansStamped, Grows, Holds;
    IssueKeepsDb(s.db, id, user, event, ty);
    CallKeepsInv(s, Issue(s.db, id, user, event, ty));
  }

  lemma VouchersIrrelevant(s: Sys, vouchers: map<VoucherId, Voucher>)
    requires Inv(s)
    ensures Inv(s.(db := s.db.(vouchers := vouchers)))
  {
  }

  lemma RsvpKeepsInv(s: Sys, event: EventId, user: UserId, id: TicketId)
    requires Inv(s)
    ensures Inv(StepRsvp(s, event, user, id)) && Grows(s.db, StepRsvp(s, event, user, id).db)
  {
    hide DbInv, Claims, ScansStamped, Grows, FreshTicket, PendingKey, Holds;
    UnchangedGrows(s.db);
    if StepRsvp(s, event, user, id) != s {
      IssueCallKeepsInv(s, id, user, event, RsvpType(s.db, event, user).value);
    }
  }

  lemma RedeemKeepsInv(s: Sys, code: VoucherId, user: UserId, now: Time, id: TicketId)
    requires Inv(s)
    ensures Inv(StepRedeem(s, code, user, now, id)) && Grows(s.db, StepRedeem(s, code, user, now, id).db)
  {
    hide DbInv, Claims, ScansStamped, FreshTicket, PendingKey, Holds;
    var s' := StepRedeem(s, code, user, now, id);
    if s' != s {
      var v := s.db.vouchers[code];
      IssueCallKeepsInv(s, id, user, v.event, v.ticketType);
      VouchersIrrelevant(s.(db := Issue(s.db, id, user, v.event, v.ticketType)), s'.db.vouchers);
    }
  }

  lemma VoidKeepsInv(s: Sys, id: TicketId)
    requires Inv(s)
    ensures Inv(StepVoid(s, id)) && Grows(s.db, StepVoid(s, id).db)
  {
    hide DbInv, Claims, ScansStamped, Grows;
    UnchangedGrows(s.db);
    if id in s.db.tickets {
      GiveBackKeepsDb(s.db, id);
      var (t, db') := (s.db.tickets[id], SetStatus(s.db, id, Void));
      if t.status == CheckedIn {
        CallKeepsInv(s, db');
      } else if t.ticketType !in s.locks && t.status == Issued && t.ticketType in s.db.types {
        CallKeepsInv(s, GiveBack(db', t.ticketType));
      }
    }
  }

  lemma CancelKeepsInv(s: Sys, user: UserId, event: EventId)
    requires Inv(s)
    ensures Inv(StepCancel(s, user, event)) && Grows(s.db, StepCancel(s, user, event).db)
  {
    hide DbInv, Claims, ScansStamped, Grows;
    UnchangedGrows(s.db);
    if StepCancel(s, user, event) != s {
      GiveBackKeepsDb(s.db, TicketOf(s.db, user, event));
      CallKeepsInv(s, StepCancel(s, user, event).db);
    }
  }

  lemma CheckInKeepsInv(s: Sys, id: TicketId, now: Time)
    requires Inv(s)
    ensures Inv(s.(db := CheckIn(s.db, id, now).0)) && Grows(s.db, CheckIn(s.db, id, now).0)
  {
    hide DbInv, ClaimsInv, ScansStamped;
    if CheckIn(s.db, id, now).0 != s.db {
      StampKeepsDb(s.db, id, now);
      CallKeepsInv(s, Stamp(s.db, id, now));
    }
  }

  lemma MarkKeepsInv(s: Sys, event: EventId, ty: TypeId, soldOut: bool)
    requires Inv(s)
    ensures Inv(StepMark(s, event, ty, soldOut)) && Grows(s.db, StepMark(s, event, ty, soldOut).db)
  {
    hide ClaimsInv, ScansStamped;
    if StepMark(s, event, ty, soldOut) != s { CallKeepsInv(s, MarkSoldOut(s.db, event, ty, soldOut).0); }
  }

  lemma ReviseKeepsInv(s: Sys, event: EventId, cancelled: bool, endsAt: Time)
    requires Inv(s)
    ensures Inv(s.(db := Revise(s.db, event, cancelled, endsAt))) && Grows(s.db, Revise(s.db, event, cancelled, endsAt))
  {
    UnchangedGrows(s.db);
  }

  lemma CreateKeepsInv(s: Sys, ty: TypeId, event: EventId, price: int, school: Option<SchoolId>, total: int)
    requires Inv(s) && ty !in s.db.types && event in s.db.events
    ensures Inv(s.(db := NewType(s.db, ty, event, price, school, total)))
  {
    CallKeepsInv(s, NewType(s.db, ty, event, price, school, total));
  }

  lemma StepKeepsInv(s: Sys, step: Step)
    requires Inv(s)
    ensures Inv(Exec(s, step)) && Grows(s.db, Exec(s, step).db)
  {
    hide DbInv, ClaimsInv, ScansStamped;
    match step
    case CreateType(ty, event, price, school, total) =>
      if ty !in s.db.types && event in s.db.events { CreateKeepsInv(s, ty, event, price, school, total); }
    case BeginClaim(p, user, event, ty) => BeginKeepsInv(s, p, ClaimProc(user, event, ty, Begun),
        ScanProc(0, false, Arrived));
    case ClaimStep(p, id) => ClaimStepKeepsInv(s, p, id);
    case AbortClaim(p) => if p in s.claims { RollbackKeepsClaims(s, p, Aborted); }
    case RsvpCall(event, user, id) => RsvpKeepsInv(s, event, user, id);
    case RedeemCall(code, user, now, id) => RedeemKeepsInv(s, code, user, now, id);
    case VoidCall(id) => VoidKeepsInv(s, id);
    case CancelCall(user, event) => CancelKeepsInv(s, user, event);
    case CheckInCall(id, now) => CheckInKeepsInv(s, id, now);
    case MarkCall(event, ty, soldOut) => MarkKeepsInv(s, event, ty, soldOut);
    case ReviseCall(event, cancelled, endsAt) => ReviseKeepsInv(s, event, cancelled, endsAt);
    case BeginScan(p, id, verifyOnly) => BeginKeepsInv(s, p, ClaimProc(0, 0, 0, Begun),
        ScanProc(id, verifyOnly, Arrived));
    case ScanStep(p, now) => ScanStepKeepsInv(s, p, now);
  }

  lemma BeginKeepsInv(s: Sys, p: Proc, claim: ClaimProc, scan: ScanProc)
    requires Inv(s) && claim.stage.Begun? && scan.stage.Arrived?
    ensures p !in s.claims ==> Inv(s.(claims := s.claims[p := claim]))
    ensures p !in s.scans ==> Inv(s.(scans := s.scans[p := scan]))
  {
    hide DbInv;
  }
}

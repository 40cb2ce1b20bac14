/**
  The sell-out race: distinct users claim one open type at the same time. Whatever the interleaving, the number who
  end up with a ticket is fixed by the numbers of users and seats alone.
 */
module ClaimRace {
  import opened Prelude
  import opened TicketTables
  import opened TicketRuns

  /** Steps that neither take a seat outside a claim nor give one back. */
  predicate Neutral(step: Step) {
    step.ClaimStep? || step.BeginScan? || step.ScanStep? || step.CheckInCall?
  }

  function Winners(s: Sys): set<Proc> {
    set p | p in s.claims && s.claims[p].stage.Won?
  }

  predicate Contender(db: Db, c: ClaimProc, event: EventId, ty: TypeId) {
    c.event == event && c.ticketType == ty && c.user in db.users
  }

  ghost predicate DistinctUsers(claims: map<Proc, ClaimProc>) {
    forall p, q | p in claims && q in claims && claims[p].user == claims[q].user :: p == q
  }

  /** The start: every claim is new, for the same open type, by a different user without a ticket. */
  ghost predicate Start(s: Sys, event: EventId, ty: TypeId) {
    && Inv(s) && OnSale(s.db, event, ty) && !s.db.types[ty].soldOut && s.db.types[ty].remaining >= 0
    && DistinctUsers(s.claims)
    && forall p | p in s.claims ::
         s.claims[p].stage.Begun? && Contender(s.db, s.claims[p], event, ty)
             && !Holds(s.db.tickets, s.claims[p].user, event)
  }

  /** What holds throughout a race over `seats` seats. */
  ghost predicate Racing(s: Sys, event: EventId, ty: TypeId, seats: nat) {
    && OnSale(s.db, event, ty) && DistinctUsers(s.claims)
    && (forall p | p in s.claims :: Contender(s.db, s.claims[p], event, ty))
    && (forall p | p in s.claims && !s.claims[p].stage.Won? :: !Holds(s.db.tickets, s.claims[p].user, event))
    && s.db.types[ty].remaining == seats - |Winners(s)| && s.db.types[ty].remaining >= 0
    && (s.db.types[ty].soldOut <==> s.db.types[ty].remaining == 0 && seats > 0)
    && (forall p | p in s.claims && s.claims[p].stage.Lost? ::
          s.claims[p].stage.why == SoldOut && s.db.types[ty].remaining == 0)
  }

  lemma StartRaces(s: Sys, event: EventId, ty: TypeId)
    requires Start(s, event, ty)
    ensures Racing(s, event, ty, s.db.types[ty].remaining)
  {
  }

  lemma CommitRaces(s: Sys, p: Proc, event: EventId, ty: TypeId, seats: nat)
    requires Claims(s) && Racing(s, event, ty, seats) && p in s.claims && s.claims[p].stage.Inserted?
    ensures Racing(Commit(s, p), event, ty, seats)
  {
    hide LocksMatch, PendingDistinct, WinnersHold;
    var (c, s') := (s.claims[p], Commit(s, p));
    assert Winners(s') == Winners(s) + {p};
    forall q | q in s'.claims && !s'.claims[q].stage.Won?
      ensures !Holds(s'.db.tickets, s'.claims[q].user, event)
    {
      assert s.claims[q].user != c.user;
    }
  }

  lemma MoveRaces(s: Sys, p: Proc, stage: ClaimStage, locks: map<TypeId, Proc>, event: EventId, ty: TypeId, seats: nat)
    requires Racing(s, event, ty, seats) && p in s.claims && !s.claims[p].stage.Won? && !stage.Won?
    requires stage.Lost? ==> stage.why == SoldOut && s.db.types[ty].remaining == 0
    ensures Racing(SetStage(s, p, stage).(locks := locks), event, ty, seats)
  {
    assert Winners(SetStage(s, p, stage)) == Winners(s);
  }

  lemma ClaimStepRaces(s: Sys, p: Proc, id: TicketId, event: EventId, ty: TypeId, seats: nat)
    requires Racing(s, event, ty, seats) && p in s.claims && !s.claims[p].stage.Inserted?
    ensures Racing(StepClaim(s, p, id), event, ty, seats)
    ensures StepClaim(s, p, id).claims.Keys == s.claims.Keys
  {
    var s' := StepClaim(s, p, id);
    ClaimStepMoves(s, p, id, event, ty, seats);
    hide Racing, StepClaim;
    if s' != s {
      MoveRaces(s, p, s'.claims[p].stage, s'.locks, event, ty, seats);
    }
  }

  /** In a race a claim is turned down for one reason only: the seats are gone. */
  lemma ClaimStepMoves(s: Sys, p: Proc, id: TicketId, event: EventId, ty: TypeId, seats: nat)
    requires Racing(s, event, ty, seats) && p in s.claims && !s.claims[p].stage.Inserted?
    ensures var s' := StepClaim(s, p, id);
            s' == s || (&& p in s'.claims && var stage := s'.claims[p].stage;
                        && !s.claims[p].stage.Won? && !stage.Won?
                        && (stage.Lost? ==> stage.why == SoldOut && s.db.types[ty].remaining == 0)
                        && s' == SetStage(s, p, stage).(locks := s'.locks))
  {
  }

  lemma NeutralStepRaces(s: Sys, step: Step, event: EventId, ty: TypeId, seats: nat)
    requires Claims(s) && Racing(s, event, ty, seats) && Neutral(step)
    ensures Racing(Exec(s, step), event, ty, seats) && Exec(s, step).claims.Keys == s.claims.Keys
  {
    hide ClaimsInv, Racing, ScanPrecheck;
    if !step.ClaimStep? {
      OthersRace(s, Exec(s, step), event, ty, seats);
    } else if step.p in s.claims {
      if s.claims[step.p].stage.Inserted? {
        assert StepClaim(s, step.p, step.id) == Commit(s, step.p);
        CommitRaces(s, step.p, event, ty, seats);
      } else {
        ClaimStepRaces(s, step.p, step.id, event, ty, seats);
      }
    }
  }

  lemma OthersRace(s: Sys, s': Sys, event: EventId, ty: TypeId, seats: nat)
    requires Racing(s, event, ty, seats)
    requires s'.claims == s.claims && s'.db.types == s.db.types && s'.db.users == s.db.users
             && s'.db.events == s.db.events
    requires s'.db.tickets.Keys == s.db.tickets.Keys
    requires forall id | id in s.db.tickets ::
      s'.db.tickets[id].user == s.db.tickets[id].user && s'.db.tickets[id].event == s.db.tickets[id].event
    ensures Racing(s', event, ty, seats)
  {
  }

  lemma {:induction false} RunRaces(s: Sys, steps: seq<Step>, event: EventId, ty: TypeId, seats: nat)
    requires Inv(s) && Racing(s, event, ty, seats) && forall step | step in steps :: Neutral(step)
    ensures Inv(Run(s, steps)) && Racing(Run(s, steps), event, ty, seats) && Run(s, steps).claims.Keys == s.claims.Keys
    decreases |steps|
  {
    hide DbInv, Claims, ScansStamped, Racing, Exec;
    if steps != [] {
      StepKeepsInv(s, steps[0]);
      NeutralStepRaces(s, steps[0], event, ty, seats);
      RunRaces(Exec(s, steps[0]), steps[1..], event, ty, seats);
    }
  }

  /**
    When n distinct users without a ticket have all finished claiming a type that started open with r seats, exactly
    min(n, r) of them succeeded, a user holds a ticket exactly if that user's claim succeeded, everyone else was told
    "sold out", and the type is marked sold out exactly if its seats ran out.
   */
  lemma RaceOutcome(s: Sys, steps: seq<Step>, event: EventId, ty: TypeId)
    requires Start(s, event, ty) && forall step | step in steps :: Neutral(step)
    requires forall p | p in Run(s, steps).claims :: Finished(Run(s, steps).claims[p])
    ensures var (s', n, r) := (Run(s, steps), |s.claims|, s.db.types[ty].remaining);
            && s'.claims.Keys == s.claims.Keys && ty in s'.db.types
            && |Winners(s')| == Min(n, r)
            && s'.db.types[ty].remaining == r - Min(n, r)
            && (s'.db.types[ty].soldOut <==> 0 < r <= n)
            && forall p | p in s'.claims ::
                 && (Holds(s'.db.tickets, s'.claims[p].user, event) <==> s'.claims[p].stage.Won?)
                 && (!s'.claims[p].stage.Won? ==> s'.claims[p].stage == Lost(SoldOut))
  {
    StartRaces(s, event, ty);
    RunRaces(s, steps, event, ty, s.db.types[ty].remaining);
    hide Run, Start;
    FinishedRace(Run(s, steps), event, ty, s.db.types[ty].remaining);
    assert |s.claims| == |s.claims.Keys| == |Run(s, steps).claims.Keys|;
  }

  lemma FinishedRace(s: Sys, event: EventId, ty: TypeId, seats: nat)
    requires Claims(s) && Racing(s, event, ty, seats) && forall p | p in s.claims :: Finished(s.claims[p])
    ensures |Winners(s)| == Min(|s.claims.Keys|, seats)
    ensures s.db.types[ty].soldOut <==> 0 < seats <= |s.claims.Keys|
    ensures forall p | p in s.claims :: Holds(s.db.tickets, s.claims[p].user, event) <==> s.claims[p].stage.Won?
  {
    hide LocksMatch, RowsMatch, PendingDistinct;
    SubsetSize(Winners(s), s.claims.Keys);
    if forall p | p in s.claims :: s.claims[p].stage.Won? {
      assert Winners(s) == s.claims.Keys;
    }
    forall p | p in s.claims && s.claims[p].stage.Won? ensures Holds(s.db.tickets, s.claims[p].user, event) {
      assert TicketFor(s.db.tickets, s.claims[p].stage.id, s.claims[p]);
    }
  }

  // ---------------------------------------------------------------------------------------------
  // Progress
  // ---------------------------------------------------------------------------------------------

  /** Statements a claim has left at most. */
  function Work(c: ClaimProc): nat {
    match c.stage
    case Begun => 6 case Validated => 5 case DupChecked => 4 case Reserved(_) => 3
    case Marked(_) => 2 case Inserted(_, _) => 1 case Won(_) => 0 case Lost(_) => 0
  }

  /** Claims never wait in a circle: while one is unfinished, it or the claim it waits for can move towards its end. */
  lemma NoDeadlock(s: Sys, p: Proc, id: TicketId)
    requires Inv(s) && p in s.claims && !Finished(s.claims[p]) && FreshTicket(s, id)
    ensures exists q | q in s.claims ::
              q in StepClaim(s, q, id).claims && Work(StepClaim(s, q, id).claims[q]) < Work(s.claims[q])
  {
    var c := s.claims[p];
    if c.stage.DupChecked? && c.ticketType in s.locks {
      HolderMoves(s, s.locks[c.ticketType], id);
    } else if Holding(c) {
      HolderMoves(s, p, id);
    } else {
      assert Work(StepClaim(s, p, id).claims[p]) < Work(c);
    }
  }

  lemma HolderMoves(s: Sys, p: Proc, id: TicketId)
    requires p in s.claims && Holding(s.claims[p]) && FreshTicket(s, id)
    ensures exists q | q in s.claims ::
              q in StepClaim(s, q, id).claims && Work(StepClaim(s, q, id).claims[q]) < Work(s.claims[q])
  {
    var c := s.claims[p];
    if c.stage.Marked? && PendingKey(s, c.user, c.event) {
      var q :| q in s.claims && s.claims[q].stage.Inserted?;
      assert Work(StepClaim(s, q, id).claims[q]) < Work(s.claims[q]);
    } else {
      assert Work(StepClaim(s, p, id).claims[p]) < Work(c);
    }
  }

  // ---------------------------------------------------------------------------------------------
  // A claim that runs alone
  // ---------------------------------------------------------------------------------------------

  function Repeat(s: Sys, p: Proc, id: TicketId, n: nat): Sys
    decreases n
  {
    if n == 0 then s else Repeat(StepClaim(s, p, id), p, id, n - 1)
  }

  lemma {:induction false} RepeatFinished(s: Sys, p: Proc, id: TicketId, n: nat)
    requires p in s.claims && Finished(s.claims[p])
    ensures Repeat(s, p, id, n) == s
    decreases n
  {
    if n > 0 { RepeatFinished(s, p, id, n - 1); }
  }

  lemma RepeatTwice(s: Sys, p: Proc, id: TicketId)
    ensures Repeat(s, p, id, 6) == Repeat(StepClaim(StepClaim(s, p, id), p, id), p, id, 4)
    ensures Repeat(s, p, id, 4) == Repeat(StepClaim(StepClaim(s, p, id), p, id), p, id, 2)
    ensures Repeat(s, p, id, 2) == StepClaim(StepClaim(s, p, id), p, id)
  {
  }

  /** The first half: checks and the duplicate lookup, both outside the row lock. */
  lemma AloneChecks(s: Sys, p: Proc, id: TicketId)
    requires p in s.claims && s.claims[p].stage.Begun?
    ensures var (c, s2) := (s.claims[p], StepClaim(StepClaim(s, p, id), p, id));
            var refused := ClaimPrecheck(s.db, c.event, c.ticketType);
            s2 == SetStage(s, p, if refused.Some? then Lost(refused.value)
                                 else if Holds(s.db.tickets, c.user, c.event) then Lost(AlreadyHasTicket)
                                   else DupChecked)
  {
  }

  lemma AloneReserves(s: Sys, p: Proc, id: TicketId)
    requires p in s.claims && s.claims[p].stage.DupChecked? && s.claims[p].ticketType !in s.locks
    requires s.claims[p].ticketType in s.db.types
    ensures var (c, row, s2) :=
            (s.claims[p], s.db.types[s.claims[p].ticketType], StepClaim(StepClaim(s, p, id), p, id));
            s2 == if Open(row) then SetStage(s, p, Marked(TakeSeat(row))).(locks := s.locks[c.ticketType := p])
                  else SetStage(s, p, Lost(SoldOut))
  {
  }

  lemma AloneIssues(s: Sys, p: Proc, id: TicketId)
    requires p in s.claims && s.claims[p].stage.Marked? && FreshTicket(s, id)
    requires !PendingKey(s, s.claims[p].user, s.claims[p].event)
    ensures var (c, s2) := (s.claims[p], StepClaim(StepClaim(s, p, id), p, id));
            s2 == if InsertAllowed(s.db, c.user, c.event)
                  then Commit(SetStage(s, p, Inserted(c.stage.row, id)), p)
                  else Rollback(s, p, ConstraintViolation)
  {
  }

  /** Six uninterrupted statements do to the tables, and answer, what the call does in one piece. */
  lemma ClaimAlone(s: Sys, p: Proc, id: TicketId)
    requires p in s.claims && s.claims[p].stage.Begun? && FreshTicket(s, id)
    requires s.claims[p].ticketType !in s.locks && !PendingKey(s, s.claims[p].user, s.claims[p].event)
    ensures var (s', c) := (Repeat(s, p, id, 6), s.claims[p]);
            var (db', answer) := Claim(s.db, id, c.user, c.event, c.ticketType);
            && s'.db == db' && s'.locks == s.locks
            && s'.claims == s.claims[p := c.(stage := if answer.Ok? then Won(id) else Lost(answer.error))]
  {
    var c := s.claims[p];
    var s2 := StepClaim(StepClaim(s, p, id), p, id);
    var s4 := StepClaim(StepClaim(s2, p, id), p, id);
    AloneChecks(s, p, id);
    RepeatTwice(s, p, id);
    RepeatTwice(s2, p, id);
    RepeatTwice(s4, p, id);
    hide StepClaim, Repeat;
    if s2.claims[p].stage.DupChecked? {
      AloneReserves(s2, p, id);
      if Open(s.db.types[c.ticketType]) {
        assert s4.locks - {c.ticketType} == s.locks;
        PendingUnmoved(s, s4, p, id);
        AloneIssues(s4, p, id);
      } else {
        RepeatFinished(s4, p, id, 2);
      }
    } else {
      RepeatFinished(s2, p, id, 4);
    }
  }

  /** Moving one claim to a stage without an uncommitted ticket adds no uncommitted ticket. */
  lemma PendingUnmoved(s: Sys, s': Sys, p: Proc, id: TicketId)
    requires p in s.claims && s'.db == s.db && s'.claims.Keys == s.claims.Keys && !s'.claims[p].stage.Inserted?
    requires forall q | q in s.claims && q != p :: s'.claims[q] == s.claims[q]
    ensures FreshTicket(s, id) ==> FreshTicket(s', id)
    ensures forall u, e | !PendingKey(s, u, e) :: !PendingKey(s', u, e)
  {
  }
}

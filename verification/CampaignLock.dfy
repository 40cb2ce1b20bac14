/**
  Campaign dispatch (`campaigns/campaigns.service.ts`, `campaigns/campaign.scheduler.ts`): manual triggers and scheduler
  ticks, from any number of instances, compete for a status lock; whoever takes it queues the job that sends.
 */
module CampaignLock {
  import opened Prelude

  type Id = nat
  type SchoolId = nat
  type CallerId = nat

  datatype Status = Draft | Scheduled | Processing | Sent | Failed

  datatype Channel = Push | Email | Sms | OtherChannel

  /** `school` is the school the segment filters name, if any. */
  datatype Campaign = Campaign(status: Status, school: Option<SchoolId>, channel: Channel, scheduledAt: Option<Time>,
      sentCount: nat)

  datatype Quota = Quota(granted: nat, used: nat)

  datatype Allocation = Allocation(push: Quota, email: Quota, sms: Quota)

  /** `jobs` holds every send job ever queued, oldest first. */
  datatype Db = Db(campaigns: map<Id, Campaign>, allocations: map<SchoolId, Allocation>, jobs: seq<Id>)

  /** A user's call; the scheduler's calls come without one. */
  datatype Requester = Requester(schoolAdmin: bool, school: Option<SchoolId>)

  datatype Refusal =
    | NotFound | AdminWithoutSchool | ForeignCampaign | AlreadySent | InProgress | NoQuota | NotLocked | QueueDown

  datatype Reply = Started | Refused(why: Refusal)

  predicate Open(status: Status) {
    status == Draft || status == Scheduled
  }

  // ----- Quotas -----

  function QuotaFor(a: Allocation, channel: Channel): Quota
    requires channel != OtherChannel
  {
    match channel
    case Push => a.push
    case Email => a.email
    case Sms => a.sms
  }

  /** No allocation on record means no limit; otherwise some of the channel's quota must be left. */
  predicate QuotaLeft(allocations: map<SchoolId, Allocation>, school: SchoolId, channel: Channel)
    requires channel != OtherChannel
  {
    school in allocations ==>
        QuotaFor(allocations[school], channel).used < QuotaFor(allocations[school], channel).granted
  }

  function Spend(q: Quota, count: nat): Quota {
    q.(used := q.used + count)
  }

  /** The usage upsert: a school without a record gets one, with nothing allocated. */
  function AddUsage(allocations: map<SchoolId, Allocation>, school: SchoolId, channel: Channel,
      count: nat): map<SchoolId, Allocation>
    requires channel != OtherChannel
  {
    var none := Quota(0, 0);
    var a := if school in allocations then allocations[school] else Allocation(none, none, none);
    allocations[school :=
      match channel
      case Push => a.(push := Spend(a.push, count))
      case Email => a.(email := Spend(a.email, count))
      case Sms => a.(sms := Spend(a.sms, count))]
  }

  /**
    After a campaign is charged, its school may send on a channel exactly if that channel was granted more than it
    has used.
   */
  lemma QuotaAfterSend(allocations: map<SchoolId, Allocation>, school: SchoolId, channel: Channel, count: nat,
      next: Channel)
    requires channel != OtherChannel && next != OtherChannel
    ensures QuotaLeft(AddUsage(allocations, school, channel, count), school, next) <==>
              && school in allocations
              && var q := QuotaFor(allocations[school], next);
                 q.used + (if next == channel then count else 0) < q.granted
  {
  }

  // ----- One trigger, alone -----

  /** The checks made before the lock. */
  function Objection(db: Db, id: Id, who: Option<Requester>): (r: Option<Refusal>)
    ensures r.Some? ==> r.value != NotLocked && r.value != QueueDown
  {
    if id !in db.campaigns then Some(NotFound) else
    var c := db.campaigns[id];
    if who.Some? && who.value.schoolAdmin && who.value.school.None? then Some(AdminWithoutSchool)
    else if who.Some? && who.value.schoolAdmin && c.school.Some? && c.school != who.value.school then
        Some(ForeignCampaign)
    else if c.status == Sent then Some(AlreadySent)
    else if c.status == Processing then Some(InProgress)
    else if c.school.Some? && c.channel != OtherChannel && !QuotaLeft(db.allocations, c.school.value, c.channel) then
        Some(NoQuota)
    else None
  }

  function TakeLock(db: Db, id: Id): Db
    requires id in db.campaigns
  {
    db.(campaigns := db.campaigns[id := db.campaigns[id].(status := Processing)])
  }

  predicate Lockable(db: Db, id: Id) {
    id in db.campaigns && Open(db.campaigns[id].status)
  }

  /** `triggerSend` with nothing else running; `queueUp` says whether the job queue takes the job. */
  function Trigger(db: Db, id: Id, who: Option<Requester>, queueUp: bool): (Db, Reply) {
    var objection := Objection(db, id, who);
    if objection.Some? then (db, Refused(objection.value))
    else if !Lockable(db, id) then (db, Refused(NotLocked))
    else if queueUp then (TakeLock(db, id).(jobs := db.jobs + [id]), Started)
    else (TakeLock(db, id), Refused(QueueDown))
  }

  /** The school may still send on the channel: it has no record, or has used less than it was granted. */
  predicate MaySend(db: Db, c: Campaign) {
    c.school.Some? && c.channel != OtherChannel && c.school.value in db.allocations ==>
      var q := QuotaFor(db.allocations[c.school.value], c.channel);
      q.used < q.granted
  }

  /**
    Whose campaign it is to send: everybody's but a school admin's, who has a school and no other school's campaign.
   */
  predicate Entitled(c: Campaign, who: Option<Requester>) {
    who.Some? && who.value.schoolAdmin ==>
      who.value.school.Some? && (c.school == None || c.school == who.value.school)
  }

  /**
    What decides a trigger with nothing else running: it starts exactly a draft or scheduled campaign of a requester
    entitled to it, with quota left and the queue up; then the campaign is processing and its job is the last one
    queued.
   */
  lemma TriggerDecides(db: Db, id: Id, who: Option<Requester>, queueUp: bool)
    ensures var (db', reply) := Trigger(db, id, who, queueUp);
            var ready := && id in db.campaigns && Entitled(db.campaigns[id], who) && MaySend(db, db.campaigns[id])
                         && (db.campaigns[id].status == Draft || db.campaigns[id].status == Scheduled);
            && (reply == Started <==> ready && queueUp)
            && (reply == Refused(QueueDown) <==> ready && !queueUp)
            && (ready ==>
                  && db'.campaigns == db.campaigns[id := db.campaigns[id].(status := Processing)]
                  && db'.allocations == db.allocations
                  && db'.jobs == if queueUp then db.jobs + [id] else db.jobs)
            && (!ready ==> db' == db)
            && (reply == Refused(NoQuota) ==> id in db.campaigns && !MaySend(db, db.campaigns[id]))
            && (reply == Refused(ForeignCampaign) || reply == Refused(AdminWithoutSchool) ==>
                  id in db.campaigns && !Entitled(db.campaigns[id], who))
            && (reply == Refused(AlreadySent) ==> id in db.campaigns && db.campaigns[id].status == Sent)
            && (reply == Refused(InProgress) ==> id in db.campaigns && db.campaigns[id].status == Processing)
  {
  }

  // ----- What a send job leaves behind -----

  /** `broke` says whether the loop over the users threw, `usageBroke` whether charging the school did. */
  datatype Outcome = Outcome(total: nat, broke: bool, usageBroke: bool)

  function FinishSend(db: Db, id: Id, o: Outcome): Db
    requires id in db.campaigns
  {
    var c := db.campaigns[id];
    if o.broke then db.(campaigns := db.campaigns[id := c.(status := Failed)]) else
    var charge := c.school.Some? && o.total > 0 && c.channel != OtherChannel;
    if charge && o.usageBroke then db.(campaigns := db.campaigns[id := c.(status := Failed, sentCount := o.total)])
    else Db(db.campaigns[id := c.(status := Sent, sentCount := o.total)],
            if charge then AddUsage(db.allocations, c.school.value, c.channel, o.total) else db.allocations, db.jobs)
  }

  /** The usage of one school on one channel is up by `count`; no grant and no other usage has changed. */
  ghost predicate ChargedTo(before: map<SchoolId, Allocation>, after: map<SchoolId, Allocation>, school: SchoolId,
      channel: Channel, count: nat) {
    && after.Keys == before.Keys + {school}
    && (forall s | s in before && s != school :: after[s] == before[s])
    && forall ch | ch != OtherChannel ::
         var q := if school in before then QuotaFor(before[school], ch) else Quota(0, 0);
         QuotaFor(after[school], ch) == Quota(q.granted, q.used + if ch == channel then count else 0)
  }

  /**
    What a send leaves behind: a campaign that is sent exactly if its pages went through and no charge that was due
    failed, and failed otherwise; the number delivered if the pages went through; the school charged exactly if a charge
    was due and worked; and nothing else changed.
   */
  lemma FinishDecides(db: Db, id: Id, o: Outcome)
    requires id in db.campaigns
    ensures var (db', c) := (FinishSend(db, id, o), db.campaigns[id]);
            var due := !o.broke && c.school.Some? && o.total > 0 && c.channel != OtherChannel;
            && db'.jobs == db.jobs && db'.campaigns.Keys == db.campaigns.Keys
            && (forall x | x in db.campaigns && x != id :: db'.campaigns[x] == db.campaigns[x])
            && db'.campaigns[id] == c.(status := if !o.broke && !(due && o.usageBroke) then Sent else Failed,
                                       sentCount := if o.broke then c.sentCount else o.total)
            && (due && !o.usageBroke ==> ChargedTo(db.allocations, db'.allocations, c.school.value, c.channel, o.total))
            && (!due || o.usageBroke ==> db'.allocations == db.allocations)
  {
  }

  // ----- Competing callers -----

  datatype Phase = Reading | Locking | Adding

  /** Someone with campaigns still to trigger, the first of them under way. */
  datatype Caller = Caller(todo: seq<Id>, phase: Phase, who: Option<Requester>)

  /** `lost` counts campaigns whose caller took the lock and then failed to queue the job. */
  datatype Sys = Sys(db: Db, callers: map<CallerId, Caller>, lost: multiset<Id>)

  datatype Step =
    | Manual(caller: CallerId, id: Id, who: Option<Requester>)
    | Tick(caller: CallerId, now: Time, due: seq<Id>)
    | Read(caller: CallerId)
    | Lock(caller: CallerId)
    | Add(caller: CallerId, queueUp: bool)
    | Work(id: Id, outcome: Outcome)
    | Delete(id: Id)

  predicate Idle(s: Sys, c: CallerId) {
    c in s.callers ==> s.callers[c].todo == []
  }

  predicate At(s: Sys, c: CallerId, phase: Phase) {
    c in s.callers && s.callers[c].todo != [] && s.callers[c].phase == phase
  }

  predicate IsDue(db: Db, now: Time, id: Id) {
    && id in db.campaigns && db.campaigns[id].status == Scheduled
    && db.campaigns[id].scheduledAt.Some? && db.campaigns[id].scheduledAt.value <= now
  }

  /** `findMany` over the due campaigns, in some order. */
  ghost predicate AllDue(db: Db, now: Time, due: seq<Id>) {
    && (forall id :: id in due <==> IsDue(db, now, id))
    && NoDuplicates(due)
  }

  function Next(c: Caller): Caller
    requires c.todo != []
  {
    c.(todo := c.todo[1..], phase := Reading)
  }

  function With(s: Sys, c: CallerId, caller: Caller): Sys {
    s.(callers := s.callers[c := caller])
  }

  ghost function Exec(s: Sys, step: Step): Sys {
    match step
    case Manual(c, id, who) => if Idle(s, c) then With(s, c, Caller([id], Reading, who)) else s
    case Tick(c, now, due) => if Idle(s, c) && AllDue(s.db, now, due) then With(s, c, Caller(due, Reading, None)) else s
    case Read(c) =>
      if !At(s, c, Reading) then s else
      var caller := s.callers[c];
      With(s, c, if Objection(s.db, caller.todo[0], caller.who).Some? then Next(caller) else caller.(phase := Locking))
    case Lock(c) =>
      if !At(s, c, Locking) then s else
      var caller := s.callers[c];
      if Lockable(s.db, caller.todo[0]) then With(s, c, caller.(phase := Adding)).(db := TakeLock(s.db, caller.todo[0]))
      else With(s, c, Next(caller))
    case Add(c, queueUp) =>
      if !At(s, c, Adding) then s else
      var id := s.callers[c].todo[0];
      var s' := With(s, c, Next(s.callers[c]));
      if queueUp then s'.(db := s.db.(jobs := s.db.jobs + [id])) else s'.(lost := s.lost + multiset{id})
    case Work(id, outcome) =>
      if id in s.db.jobs && id in s.db.campaigns then s.(db := FinishSend(s.db, id, outcome)) else s
    case Delete(id) => s.(db := s.db.(campaigns := s.db.campaigns - {id}))
  }

  /** The system just before step number `n`. */
  ghost function Before(init: Sys, steps: seq<Step>, n: nat): Sys
    requires n <= |steps|
  {
    if n == 0 then init else Exec(Before(init, steps, n - 1), steps[n - 1])
  }

  /** The caller holds the lock of `id` and has yet to queue its job. */
  predicate AddingOn(c: Caller, id: Id) {
    c.todo != [] && c.phase == Adding && c.todo[0] == id
  }

  function Adders(callers: map<CallerId, Caller>, id: Id): set<CallerId> {
    set c | c in callers && AddingOn(callers[c], id)
  }

  /** Jobs queued, about to be queued, or lost, for one campaign. */
  function Dispatches(s: Sys, id: Id): nat {
    multiset(s.db.jobs)[id] + |Adders(s.callers, id)| + s.lost[id]
  }

  /** A campaign has been dispatched once if it has left draft and scheduled, and never otherwise. */
  predicate Accounted(s: Sys, id: Id) {
    && Dispatches(s, id) <= 1
    && (id in s.db.campaigns ==> Dispatches(s, id) == Count(!Open(s.db.campaigns[id].status)))
  }

  ghost predicate Inv(s: Sys) {
    forall id :: Accounted(s, id)
  }

  lemma FreshStart(s: Sys)
    requires s.db.jobs == [] && s.callers == map[] && s.lost == multiset{}
    requires forall id | id in s.db.campaigns :: Open(s.db.campaigns[id].status)
    ensures Inv(s)
  {
  }

  lemma AddersAfter(callers: map<CallerId, Caller>, c: CallerId, caller: Caller, id: Id)
    ensures |Adders(callers[c := caller], id)|
         == |Adders(callers, id)| - Count(c in callers && AddingOn(callers[c], id)) + Count(AddingOn(caller, id))
  {
    hide AddingOn;
    var rest := Adders(callers, id) - {c};
    assert Adders(callers, id) == if c in callers && AddingOn(callers[c], id) then rest + {c} else rest;
    assert Adders(callers[c := caller], id) == if AddingOn(caller, id) then rest + {c} else rest;
  }

  /** A step that moves one caller and neither queues nor loses a job. */
  lemma MoveKeepsAccount(s: Sys, s': Sys, c: CallerId, caller: Caller, id: Id)
    requires Accounted(s, id) && s'.callers == s.callers[c := caller] && s'.lost == s.lost && s'.db.jobs == s.db.jobs
    requires !(c in s.callers && AddingOn(s.callers[c], id))
    requires id in s'.db.campaigns ==> id in s.db.campaigns
    requires id in s'.db.campaigns ==>
               Count(!Open(s'.db.campaigns[id].status)) == Count(!Open(s.db.campaigns[id].status))
               + Count(AddingOn(caller, id))
    requires AddingOn(caller, id) ==> Lockable(s.db, id)
    ensures Accounted(s', id)
  {
    AddersAfter(s.callers, c, caller, id);
    hide Adders, AddingOn;
  }

  /** The step that queues or loses the job of a held lock. */
  lemma AddKeepsAccount(s: Sys, c: CallerId, queueUp: bool, id: Id)
    requires Accounted(s, id) && At(s, c, Adding)
    ensures Accounted(Exec(s, Add(c, queueUp)), id)
  {
    AddersAfter(s.callers, c, Next(s.callers[c]), id);
    hide Adders;
    var (x, s') := (s.callers[c].todo[0], Exec(s, Add(c, queueUp)));
    assert AddingOn(s.callers[c], id) <==> x == id;
    assert !AddingOn(Next(s.callers[c]), id);
    assert multiset(s.db.jobs + [x])[id] == multiset(s.db.jobs)[id] + Count(x == id);
  }

  lemma StepKeepsAccount(s: Sys, step: Step, id: Id)
    requires Inv(s)
    ensures Accounted(Exec(s, step), id)
  {
    assert Accounted(s, id);
    var s' := Exec(s, step);
    match step
    case Work(x, outcome) =>
      if x in s.db.jobs && x in s.db.campaigns { FinishOnly(s.db, x, outcome); }
      hide FinishSend, Adders;
      assert Accounted(s, x);
    case Delete(_) =>
    case Add(c, queueUp) =>
      if At(s, c, Adding) { AddKeepsAccount(s, c, queueUp, id); }
    case _ =>
      hide Adders, Objection, AllDue, Accounted, Dispatches, Inv;
      if s' != s { MoveKeepsAccount(s, s', step.caller, s'.callers[step.caller], id); }
  }

  lemma FinishOnly(db: Db, id: Id, o: Outcome)
    requires id in db.campaigns
    ensures var db' := FinishSend(db, id, o);
            && db'.jobs == db.jobs && db'.campaigns.Keys == db.campaigns.Keys && !Open(db'.campaigns[id].status)
            && forall x | x in db.campaigns && x != id :: db'.campaigns[x] == db.campaigns[x]
  {
  }

  lemma {:induction false} RunKeepsInv(init: Sys, steps: seq<Step>, n: nat)
    requires n <= |steps| && Inv(init)
    ensures Inv(Before(init, steps, n))
  {
    if n > 0 {
      RunKeepsInv(init, steps, n - 1);
      forall id ensures Accounted(Before(init, steps, n), id) {
        StepKeepsAccount(Before(init, steps, n - 1), steps[n - 1], id);
      }
    }
  }

  lemma StepKeepsClosed(s: Sys, step: Step, id: Id)
    requires !Lockable(s.db, id)
    ensures !Lockable(Exec(s, step).db, id)
  {
  }

  /** Once a campaign has left draft and scheduled it never returns, in any interleaving. */
  lemma {:induction false} NeverReopens(init: Sys, steps: seq<Step>, n: nat, m: nat, id: Id)
    requires n <= m <= |steps| && !Lockable(Before(init, steps, n).db, id)
    ensures !Lockable(Before(init, steps, m).db, id)
  {
    hide Exec, Lockable;
    if n < m {
      NeverReopens(init, steps, n, m - 1, id);
      StepKeepsClosed(Before(init, steps, m - 1), steps[m - 1], id);
    }
  }

  /** Step `n` is some caller's attempt to lock `id`. */
  ghost predicate TriesLock(init: Sys, steps: seq<Step>, n: nat, id: Id) {
    n < |steps| && steps[n].Lock?
    && At(Before(init, steps, n), steps[n].caller, Locking)
    && Before(init, steps, n).callers[steps[n].caller].todo[0] == id
  }

  lemma AfterTryNotLockable(init: Sys, steps: seq<Step>, n: nat, m: nat, id: Id)
    requires m == n + 1 && TriesLock(init, steps, n, id)
    ensures !Lockable(Before(init, steps, m).db, id)
  {
  }

  /**
    However manual triggers, scheduler ticks, workers and deletions interleave: at most one job is ever queued for a
    campaign. Once anyone has tried to lock it, and no caller is between taking the lock and queueing, exactly one of
    these holds: its one job is queued, its one job was lost to the queue being down, or the campaign was deleted.
    Before any job exists or is under way, it is still draft or scheduled.
   */
  lemma OneJobPerCampaign(init: Sys, steps: seq<Step>, n: nat, m: nat, id: Id)
    requires n <= m <= |steps| && Inv(init)
    ensures var s := Before(init, steps, m);
            && multiset(s.db.jobs)[id] + s.lost[id] <= 1
            && (TriesLock(init, steps, n, id) && n < m && id in s.db.campaigns && Adders(s.callers, id) == {} ==>
                  multiset(s.db.jobs)[id] + s.lost[id] == 1)
            && (id in s.db.campaigns && multiset(s.db.jobs)[id] + s.lost[id] == 0 && Adders(s.callers, id) == {} ==>
                  Open(s.db.campaigns[id].status))
  {
    RunKeepsInv(init, steps, m);
    assert Accounted(Before(init, steps, m), id);
    if TriesLock(init, steps, n, id) && n < m {
      AfterTryNotLockable(init, steps, n, n + 1, id);
      NeverReopens(init, steps, n + 1, m, id);
    }
  }

  /** With no one in between, the three steps of a caller are one trigger. */
  lemma TriggerAlone(s: Sys, c: CallerId, id: Id, who: Option<Requester>, queueUp: bool)
    requires Idle(s, c)
    ensures var s' := Exec(Exec(Exec(Exec(s, Manual(c, id, who)), Read(c)), Lock(c)), Add(c, queueUp));
            var (db, reply) := Trigger(s.db, id, who, queueUp);
            s'.db == db && Idle(s', c) && s'.lost == if reply == Refused(QueueDown) then s.lost + multiset{id}
              else s.lost
  {
    hide Objection;
    assert [id][0] == id && [id][1..] == [];
    var s1 := Exec(s, Manual(c, id, who));
    var s2 := Exec(s1, Read(c));
    assert s2.db == s.db && At(s2, c, Locking) == Objection(s.db, id, who).None? == !Idle(s2, c);
    var s3 := Exec(s2, Lock(c));
    assert !Idle(s2, c) ==> At(s3, c, Adding) == Lockable(s.db, id) == !Idle(s3, c);
  }

  // ----- A scheduler tick, alone -----

  /** The loop of a tick: each campaign in turn, whatever became of the ones before. */
  function TriggerEach(db: Db, due: seq<Id>, queueUp: Id -> bool): Db
    decreases |due|
  {
    if due == [] then db else TriggerEach(Trigger(db, due[0], None, queueUp(due[0])).0, due[1..], queueUp)
  }

  /** Only the quota can stop a due campaign from being locked by the scheduler. */
  predicate Affordable(c: Campaign, allocations: map<SchoolId, Allocation>) {
    c.school.Some? && c.channel != OtherChannel ==> QuotaLeft(allocations, c.school.value, c.channel)
  }

  predicate AllScheduled(db: Db, due: seq<Id>) {
    && NoDuplicates(due)
    && forall id | id in due :: id in db.campaigns && db.campaigns[id].status == Scheduled
  }

  /** What is left to do after the first trigger of a tick. */
  lemma RestOfTick(db: Db, due: seq<Id>, queueUp: Id -> bool)
    requires due != [] && AllScheduled(db, due)
    ensures var (mid, c) := (Trigger(db, due[0], None, queueUp(due[0])).0, db.campaigns[due[0]]);
            && AllScheduled(mid, due[1..]) && due[0] !in due[1..] && mid.allocations == db.allocations
            && mid.campaigns == db.campaigns[due[0] := if Affordable(c, db.allocations) then c.(status := Processing)
              else c]
            && mid.jobs == db.jobs + (if Affordable(c, db.allocations) && queueUp(due[0]) then [due[0]] else [])
            && forall id | id in due[1..] ::
                 id in db.campaigns && id in mid.campaigns && mid.campaigns[id] == db.campaigns[id]
  {
  }

  lemma {:induction false} TickLocks(db: Db, due: seq<Id>, queueUp: Id -> bool)
    requires AllScheduled(db, due)
    ensures var db' := TriggerEach(db, due, queueUp);
            && db'.allocations == db.allocations && db'.campaigns.Keys == db.campaigns.Keys
            && forall id | id in db.campaigns ::
                 var c := db.campaigns[id];
                 db'.campaigns[id] == if id in due && Affordable(c, db.allocations) then c.(status := Processing) else c
    decreases |due|
  {
    if due != [] {
      hide Trigger, Affordable;
      RestOfTick(db, due, queueUp);
      hide AllScheduled;
      TickLocks(Trigger(db, due[0], None, queueUp(due[0])).0, due[1..], queueUp);
      assert due == [due[0]] + due[1..];
    }
  }

  /** The campaigns a tick queues: those the school can pay for and the queue takes, in the order listed. */
  function Queued(db: Db, due: seq<Id>, queueUp: Id -> bool): seq<Id>
    requires forall id | id in due :: id in db.campaigns
  {
    if due == [] then [] else
    (if Affordable(db.campaigns[due[0]], db.allocations) && queueUp(due[0]) then [due[0]] else [])
    + Queued(db, due[1..], queueUp)
  }

  lemma {:induction false} QueuedElsewhere(db: Db, db': Db, due: seq<Id>, queueUp: Id -> bool)
    requires db'.allocations == db.allocations
    requires forall id | id in due :: id in db.campaigns && id in db'.campaigns && db'.campaigns[id] == db.campaigns[id]
    ensures Queued(db', due, queueUp) == Queued(db, due, queueUp)
  {
    if due != [] { QueuedElsewhere(db, db', due[1..], queueUp); }
  }

  lemma {:induction false} TickQueues(db: Db, due: seq<Id>, queueUp: Id -> bool)
    requires AllScheduled(db, due)
    ensures TriggerEach(db, due, queueUp).jobs == db.jobs + Queued(db, due, queueUp)
    decreases |due|
  {
    if due != [] {
      hide Trigger, Affordable;
      RestOfTick(db, due, queueUp);
      hide AllScheduled;
      var mid := Trigger(db, due[0], None, queueUp(due[0])).0;
      TickQueues(mid, due[1..], queueUp);
      QueuedElsewhere(db, mid, due[1..], queueUp);
    }
  }

  /**
    A tick on its own: every due campaign that its school can pay for is locked, and queued if the queue takes it; the
    rest stay scheduled; nothing else changes; and the jobs are queued once each, in order.
   */
  lemma TickDispatchesAllDue(db: Db, now: Time, due: seq<Id>, queueUp: Id -> bool)
    requires AllDue(db, now, due)
    ensures var db' := TriggerEach(db, due, queueUp);
            && db'.allocations == db.allocations && db'.campaigns.Keys == db.campaigns.Keys
            && (forall id | id in db.campaigns ::
                  var c := db.campaigns[id];
                  var due := c.status == Scheduled && c.scheduledAt.Some? && c.scheduledAt.value <= now;
                  db'.campaigns[id] == if due && MaySend(db, c) then c.(status := Processing) else c)
            && db'.jobs == db.jobs + Queued(db, due, queueUp)
  {
    TickLocks(db, due, queueUp);
    TickQueues(db, due, queueUp);
    hide TriggerEach, Affordable, Queued;
  }
}

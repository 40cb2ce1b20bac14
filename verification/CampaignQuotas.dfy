/**
  Communication quotas over runs of the dispatch protocol (`communication/communication-usage.service.ts`,
  `campaigns/campaigns.service.ts`). The quota is looked at when a campaign is triggered and charged when its send has
  ended, so what is under way in between decides how far it can be overdrawn.
 */
module CampaignQuotas {
  import opened Prelude
  import opened CampaignLock

  ghost predicate Spent(db: Db, school: SchoolId, channel: Channel) {
    channel != OtherChannel && !QuotaLeft(db.allocations, school, channel)
  }

  /** A campaign whose sends the school pays for on the channel. */
  ghost predicate Metered(db: Db, id: Id, school: SchoolId, channel: Channel) {
    && id in db.campaigns && db.campaigns[id].school == Some(school)
    && db.campaigns[id].channel == channel && channel != OtherChannel
  }

  // ----- A spent quota stays spent -----

  lemma FinishKeepsSpent(db: Db, id: Id, o: Outcome, school: SchoolId, channel: Channel)
    requires id in db.campaigns && Spent(db, school, channel)
    ensures Spent(FinishSend(db, id, o), school, channel)
  {
  }

  /** No step of the protocol grants a quota or takes usage back. */
  lemma StepKeepsSpent(s: Sys, step: Step, school: SchoolId, channel: Channel)
    requires Spent(s.db, school, channel)
    ensures Spent(Exec(s, step).db, school, channel)
  {
    hide Objection, AllDue, Lockable;
    if step.Work? && step.id in s.db.campaigns { FinishKeepsSpent(s.db, step.id, step.outcome, school, channel); }
    hide FinishSend, QuotaLeft;
  }

  lemma {:induction false} SpentForGood(init: Sys, steps: seq<Step>, n: nat, m: nat, school: SchoolId, channel: Channel)
    requires n <= m <= |steps| && Spent(Before(init, steps, n).db, school, channel)
    ensures Spent(Before(init, steps, m).db, school, channel)
  {
    hide Exec, Spent;
    if n < m {
      SpentForGood(init, steps, n, m - 1, school, channel);
      StepKeepsSpent(Before(init, steps, m - 1), steps[m - 1], school, channel);
    }
  }

  // ----- What still starts once the quota is spent -----

  /** The caller's checks of `id`, the quota's among them, are behind it; its attempt at the lock is still to come. */
  predicate WaitsToLock(s: Sys, c: CallerId, id: Id) {
    At(s, c, Locking) && s.callers[c].todo[0] == id
  }

  /** Step `n` moves `id` from draft or scheduled to processing. */
  ghost predicate Starts(init: Sys, steps: seq<Step>, n: nat, id: Id)
    requires n < |steps|
  {
    var (s, s') := (Before(init, steps, n), Exec(Before(init, steps, n), steps[n]));
    Lockable(s.db, id) && id in s'.db.campaigns && s'.db.campaigns[id].status == Processing
  }

  lemma StartsByLock(init: Sys, steps: seq<Step>, n: nat, id: Id)
    requires n < |steps|
    ensures Starts(init, steps, n, id)
            <==> Lockable(Before(init, steps, n).db, id) && steps[n].Lock?
                 && WaitsToLock(Before(init, steps, n), steps[n].caller, id)
  {
    hide Before, Objection, AllDue;
  }

  /** While the quota is spent nobody gets past the check for it; who is past it stays so until its attempt. */
  lemma StepOfWaiter(s: Sys, step: Step, c: CallerId, id: Id, school: SchoolId, channel: Channel)
    requires Spent(s.db, school, channel) && Metered(Exec(s, step).db, id, school, channel)
    ensures Metered(s.db, id, school, channel)
    ensures WaitsToLock(Exec(s, step), c, id) <==> WaitsToLock(s, c, id) && step != Lock(c)
  {
    StepOfMetered(s, step, id, school, channel);
    hide AllDue, FinishSend, QuotaLeft, Open;
  }

  lemma StepOfMetered(s: Sys, step: Step, id: Id, school: SchoolId, channel: Channel)
    requires Metered(Exec(s, step).db, id, school, channel)
    ensures Metered(s.db, id, school, channel)
  {
    hide AllDue, Objection, AddUsage, Open;
  }

  lemma {:induction false} WaitersOverRun(init: Sys, steps: seq<Step>, n: nat, m: nat, c: CallerId, id: Id,
      school: SchoolId, channel: Channel)
    requires n <= m <= |steps| && Spent(Before(init, steps, n).db, school, channel)
             && Metered(Before(init, steps, m).db, id, school, channel)
    ensures Metered(Before(init, steps, n).db, id, school, channel)
    ensures WaitsToLock(Before(init, steps, m), c, id)
            <==> WaitsToLock(Before(init, steps, n), c, id) && Lock(c) !in steps[n..m]
  {
    hide Exec, Spent, Metered, WaitsToLock;
    if n < m {
      SpentForGood(init, steps, n, m - 1, school, channel);
      StepOfWaiter(Before(init, steps, m - 1), steps[m - 1], c, id, school, channel);
      WaitersOverRun(init, steps, n, m - 1, c, id, school, channel);
      assert steps[n..m] == steps[n..m - 1] + [steps[m - 1]];
    }
  }

  /**
    From the moment a school's quota for a channel is spent, a campaign that would use it is started by a step exactly
    if it is still draft or scheduled there and the step is the first attempt of a caller whose check of it was already
    behind it at that moment.
   */
  lemma StartsOnSpentQuota(init: Sys, steps: seq<Step>, n: nat, m: nat, id: Id, school: SchoolId, channel: Channel)
    requires n <= m < |steps| && Spent(Before(init, steps, n).db, school, channel)
             && Metered(Before(init, steps, m).db, id, school, channel)
    ensures Starts(init, steps, m, id)
            <==> && Lockable(Before(init, steps, m).db, id) && steps[m].Lock?
                 && WaitsToLock(Before(init, steps, n), steps[m].caller, id)
                 && Lock(steps[m].caller) !in steps[n..m]
  {
    hide Starts, Spent, Metered, WaitsToLock, Lockable;
    StartsByLock(init, steps, m, id);
    if steps[m].Lock? { WaitersOverRun(init, steps, n, m, steps[m].caller, id, school, channel); }
  }

  // ----- The first charge -----

  /** The send that step `n` ends is charged to a school: it got through to somebody, and charging worked. */
  ghost predicate Charges(init: Sys, steps: seq<Step>, n: nat, school: SchoolId)
    requires n < |steps|
  {
    var (db, step) := (Before(init, steps, n).db, steps[n]);
    && step.Work? && step.id in db.jobs && step.id in db.campaigns
    && db.campaigns[step.id].school == Some(school) && db.campaigns[step.id].channel != OtherChannel
    && step.outcome.total > 0 && !step.outcome.broke && !step.outcome.usageBroke
  }

  lemma ChargeSpends(init: Sys, steps: seq<Step>, n: nat, m: nat, school: SchoolId, channel: Channel)
    requires n < |steps| && m == n + 1 && Charges(init, steps, n, school)
             && school !in Before(init, steps, n).db.allocations
    requires channel != OtherChannel
    ensures Spent(Before(init, steps, m).db, school, channel)
    ensures Before(init, steps, m).callers == Before(init, steps, n).callers
  {
    var s := Before(init, steps, n);
    var c := s.db.campaigns[steps[n].id];
    assert Before(init, steps, m) == s.(db := FinishSend(s.db, steps[n].id, steps[n].outcome));
    QuotaAfterSend(s.db.allocations, school, c.channel, steps[n].outcome.total, channel);
    hide Before, Exec, AddUsage, QuotaLeft;
  }

  lemma NoRecordNoObjection(db: Db, school: SchoolId, next: Id, who: Option<Requester>)
    requires school !in db.allocations
    ensures next in db.campaigns && db.campaigns[next].school == Some(school) ==>
              Objection(db, next, who) != Some(NoQuota)
  {
  }

  /**
    A school without a quota record is unlimited only until its first charged campaign. Before the charge its quota
    turns no trigger down. After it, however the run goes on, a campaign of the school on a metered channel is started
    by a step exactly if it is still draft or scheduled there and the step is the first attempt since the charge of a
    caller whose checks of it were behind it when the charge was made.
   */
  lemma FirstChargeEndsUnlimited(init: Sys, steps: seq<Step>, n: nat, m: nat, school: SchoolId, next: Id,
      who: Option<Requester>)
    requires n < m < |steps| && Charges(init, steps, n, school) && school !in Before(init, steps, n).db.allocations
    ensures var db := Before(init, steps, n).db;
            next in db.campaigns && db.campaigns[next].school == Some(school) ==>
              Objection(db, next, who) != Some(NoQuota)
    ensures var db := Before(init, steps, m).db;
            next in db.campaigns && db.campaigns[next].school == Some(school)
            && db.campaigns[next].channel != OtherChannel ==>
              (Starts(init, steps, m, next)
               <==> && Lockable(db, next) && steps[m].Lock?
                    && WaitsToLock(Before(init, steps, n), steps[m].caller, next)
                    && Lock(steps[m].caller) !in steps[n + 1..m])
  {
    hide Exec, Objection, Starts, Lockable, Charges;
    NoRecordNoObjection(Before(init, steps, n).db, school, next, who);
    var db := Before(init, steps, m).db;
    if next in db.campaigns && db.campaigns[next].school == Some(school) && db.campaigns[next].channel != OtherChannel {
      ChargeSpends(init, steps, n, n + 1, school, db.campaigns[next].channel);
      StartsOnSpentQuota(init, steps, n + 1, m, next, school, db.campaigns[next].channel);
    }
  }

  /** Two campaigns of a school without a record: one's job is queued, the other is a draft. */
  function JobAndDraft(): Sys {
    var c := Campaign(Processing, Some(1), Push, None, 0);
    Sys(Db(map[10 := c, 20 := c.(status := Draft)], map[], [10]), map[], multiset{})
  }

  /** The draft is triggered, and between its quota check and its lock the other campaign is charged. */
  function ChargeInBetween(): seq<Step> {
    [Manual(0, 20, None), Read(0), Work(10, Outcome(5, false, false)), Lock(0), Add(0, true)]
  }

  /** The draft starts although the charge before its lock has ended the school's quota, and has its job in the end. */
  lemma StartedOnSpentQuota()
    ensures var (init, steps) := (JobAndDraft(), ChargeInBetween());
            && Inv(init) && Charges(init, steps, 2, 1) && 1 !in Before(init, steps, 2).db.allocations
            && Spent(Before(init, steps, 3).db, 1, Push) && Starts(init, steps, 3, 20)
            && Before(init, steps, 5).db.jobs == [10, 20]
  {
    hide Before, Exec, Adders, AllDue, Inv;
    var (init, steps) := (JobAndDraft(), ChargeInBetween());
    JobAndDraftIsAccounted();
    Unfolds(init, steps, 1);
    Unfolds(init, steps, 2);
    DraftIsChecked();
    Unfolds(init, steps, 3);
    Unfolds(init, steps, 4);
    Unfolds(init, steps, 5);
    CheckedDraftStarts();
  }

  /** The draft's trigger has been checked. */
  function DraftChecked(): Sys {
    JobAndDraft().(callers := map[0 := Caller([20], Locking, None)])
  }

  lemma DraftIsChecked()
    ensures Exec(Exec(JobAndDraft(), Manual(0, 20, None)), Read(0)) == DraftChecked()
  {
    hide AllDue;
    assert Exec(JobAndDraft(), Manual(0, 20, None)).callers == map[0 := Caller([20], Reading, None)];
  }

  lemma CheckedDraftStarts()
    ensures var s3 := Exec(DraftChecked(), Work(10, Outcome(5, false, false)));
            var s4 := Exec(s3, Lock(0));
            && Spent(s3.db, 1, Push) && Lockable(s3.db, 20)
            && 20 in s4.db.campaigns && s4.db.campaigns[20].status == Processing
            && Exec(s4, Add(0, true)).db.jobs == [10, 20]
  {
    hide AllDue, Objection;
  }

  lemma JobAndDraftIsAccounted()
    ensures Inv(JobAndDraft())
  {
    forall id ensures Accounted(JobAndDraft(), id) { assert multiset([10])[id] == Count(id == 10); }
  }

  lemma Unfolds(init: Sys, steps: seq<Step>, n: nat)
    requires 0 < n <= |steps|
    ensures Before(init, steps, n) == Exec(Before(init, steps, n - 1), steps[n - 1])
    ensures Before(init, steps, 0) == init
  {
  }

  // ----- How far a quota is overdrawn -----

  function Used(db: Db, school: SchoolId, channel: Channel): nat
    requires channel != OtherChannel
  {
    if school in db.allocations then QuotaFor(db.allocations[school], channel).used else 0
  }

  /** What step `n` charges to the school on the channel. */
  ghost function Charge(init: Sys, steps: seq<Step>, n: nat, school: SchoolId, channel: Channel): nat
    requires n < |steps|
  {
    if Charges(init, steps, n, school) && Before(init, steps, n).db.campaigns[steps[n].id].channel == channel
    then steps[n].outcome.total else 0
  }

  ghost function Charged(init: Sys, steps: seq<Step>, n: nat, m: nat, school: SchoolId, channel: Channel): nat
    requires n <= m <= |steps|
    decreases m
  {
    if n == m then 0
    else Charged(init, steps, n, m - 1, school, channel) + Charge(init, steps, m - 1, school, channel)
  }

  lemma StepCharges(init: Sys, steps: seq<Step>, n: nat, school: SchoolId, channel: Channel)
    requires n < |steps| && channel != OtherChannel
    ensures var (db, db') := (Before(init, steps, n).db, Exec(Before(init, steps, n), steps[n]).db);
            && Used(db', school, channel) == Used(db, school, channel) + Charge(init, steps, n, school, channel)
            && (school in db.allocations ==>
                  && school in db'.allocations
                  && (Charge(init, steps, n, school, channel) == 0 ==>
                        Spent(db', school, channel) == Spent(db, school, channel))
                  && QuotaFor(db'.allocations[school], channel).granted
                     == QuotaFor(db.allocations[school], channel).granted)
  {
    hide Before, AllDue, Objection, Lockable;
  }

  /** Over every stretch of every run, a school's usage grows by exactly what was charged to it. */
  lemma {:induction false} UsageIsWhatWasCharged(init: Sys, steps: seq<Step>, n: nat, m: nat, school: SchoolId,
      channel: Channel)
    requires n <= m <= |steps| && channel != OtherChannel
    ensures Used(Before(init, steps, m).db, school, channel)
         == Used(Before(init, steps, n).db, school, channel) + Charged(init, steps, n, m, school, channel)
  {
    hide Exec, Used, Charge;
    if n < m {
      UsageIsWhatWasCharged(init, steps, n, m - 1, school, channel);
      StepCharges(init, steps, m - 1, school, channel);
    }
  }

  /** The campaign's job is queued, or a caller past the quota check may still queue it. */
  predicate UnderWay(s: Sys, id: Id) {
    id in s.db.jobs || exists c :: c in s.callers && PastCheck(s.callers[c], id)
  }

  predicate PastCheck(c: Caller, id: Id) {
    c.todo != [] && c.phase != Reading && c.todo[0] == id
  }

  /** The school's campaigns on the channel that are under way. */
  ghost function InFlight(s: Sys, school: SchoolId, channel: Channel): set<Id> {
    set id | id in s.db.campaigns && Metered(s.db, id, school, channel) && UnderWay(s, id)
  }

  lemma StepOfCaller(s: Sys, step: Step, c: CallerId, id: Id, school: SchoolId, channel: Channel)
    requires Spent(s.db, school, channel) && Metered(s.db, id, school, channel)
    requires c in Exec(s, step).callers && PastCheck(Exec(s, step).callers[c], id)
    ensures c in s.callers && PastCheck(s.callers[c], id)
  {
    hide AllDue, FinishSend, QuotaLeft, Lockable;
  }

  lemma StepOfJob(s: Sys, step: Step, id: Id)
    requires id in Exec(s, step).db.jobs
    ensures UnderWay(s, id)
  {
    hide AllDue, Objection, Lockable;
  }

  /** While the quota is spent, nothing that would use it comes under way. */
  lemma StepOfFlight(s: Sys, step: Step, school: SchoolId, channel: Channel)
    requires Spent(s.db, school, channel)
    ensures InFlight(Exec(s, step), school, channel) <= InFlight(s, school, channel)
  {
    var s' := Exec(s, step);
    hide Exec, Spent, PastCheck;
    forall id | id in InFlight(s', school, channel) ensures id in InFlight(s, school, channel) {
      StepOfMetered(s, step, id, school, channel);
      if id in s'.db.jobs {
        StepOfJob(s, step, id);
      } else {
        var c :| c in s'.callers && PastCheck(s'.callers[c], id);
        StepOfCaller(s, step, c, id, school, channel);
      }
    }
  }

  lemma {:induction false} FlightOverRun(init: Sys, steps: seq<Step>, n: nat, m: nat, school: SchoolId,
      channel: Channel)
    requires n <= m <= |steps| && Spent(Before(init, steps, n).db, school, channel)
    ensures InFlight(Before(init, steps, m), school, channel) <= InFlight(Before(init, steps, n), school, channel)
  {
    hide Exec, Spent, InFlight;
    if n < m {
      FlightOverRun(init, steps, n, m - 1, school, channel);
      SpentForGood(init, steps, n, m - 1, school, channel);
      StepOfFlight(Before(init, steps, m - 1), steps[m - 1], school, channel);
    }
  }

  /** The campaigns whose sends are charged to the school on the channel by steps `n` to `m`. */
  ghost function ChargedFor(init: Sys, steps: seq<Step>, n: nat, m: nat, school: SchoolId, channel: Channel): set<Id>
    requires n <= m <= |steps|
    decreases m
  {
    if n == m then {}
    else
      ChargedFor(init, steps, n, m - 1, school, channel)
      + if Charge(init, steps, m - 1, school, channel) > 0 then {steps[m - 1].id} else {}
  }

  lemma ChargeIsInFlight(init: Sys, steps: seq<Step>, n: nat, school: SchoolId, channel: Channel)
    requires n < |steps| && Charge(init, steps, n, school, channel) > 0
    ensures steps[n].Work? && steps[n].id in InFlight(Before(init, steps, n), school, channel)
    ensures InFlight(Exec(Before(init, steps, n), steps[n]), school, channel)
            <= InFlight(Before(init, steps, n), school, channel)
  {
    var (s, step) := (Before(init, steps, n), steps[n]);
    hide Before, PastCheck;
    FinishOnly(s.db, step.id, step.outcome);
    assert Exec(s, step) == s.(db := FinishSend(s.db, step.id, step.outcome));
    forall id | id in InFlight(Exec(s, step), school, channel) ensures id in InFlight(s, school, channel) {
      StepOfMetered(s, step, id, school, channel);
      hide FinishSend, Exec;
    }
  }

  /** The step that spends a quota, and every later charge on it, is for a campaign under way before that step. */
  lemma {:induction false} ChargesWereInFlight(init: Sys, steps: seq<Step>, n: nat, m: nat, school: SchoolId,
      channel: Channel)
    requires n < m <= |steps| && channel != OtherChannel && school in Before(init, steps, n).db.allocations
    requires !Spent(Before(init, steps, n).db, school, channel)
             && Spent(Exec(Before(init, steps, n), steps[n]).db, school, channel)
    ensures ChargedFor(init, steps, n, m, school, channel) <= InFlight(Before(init, steps, n), school, channel)
  {
    hide Exec, Spent, InFlight, Charge;
    StepCharges(init, steps, n, school, channel);
    ChargeIsInFlight(init, steps, n, school, channel);
    if n + 1 < m {
      ChargesWereInFlight(init, steps, n, m - 1, school, channel);
      if Charge(init, steps, m - 1, school, channel) > 0 {
        assert Before(init, steps, n + 1) == Exec(Before(init, steps, n), steps[n]);
        FlightOverRun(init, steps, n + 1, m - 1, school, channel);
        ChargeIsInFlight(init, steps, m - 1, school, channel);
      }
    }
  }

  /** Steps `n` to `m` run each campaign's job once at most. */
  ghost predicate WorkedOnce(steps: seq<Step>, n: nat, m: nat)
    requires m <= |steps|
  {
    forall i, j | n <= i < j < m && steps[i].Work? && steps[j].Work? :: steps[i].id != steps[j].id
  }

  ghost predicate SendsAtMost(steps: seq<Step>, audience: nat) {
    forall i | 0 <= i < |steps| && steps[i].Work? :: steps[i].outcome.total <= audience
  }

  lemma {:induction false} ChargedWasWorked(init: Sys, steps: seq<Step>, n: nat, m: nat, school: SchoolId,
      channel: Channel, id: Id)
    requires n <= m <= |steps| && id in ChargedFor(init, steps, n, m, school, channel)
    ensures exists i :: n <= i < m && steps[i].Work? && steps[i].id == id
  {
    hide Before;
    if n < m && id in ChargedFor(init, steps, n, m - 1, school, channel) {
      ChargedWasWorked(init, steps, n, m - 1, school, channel, id);
    }
  }

  lemma {:induction false} ChargedPerCampaign(init: Sys, steps: seq<Step>, n: nat, m: nat, school: SchoolId,
      channel: Channel, audience: nat)
    requires n <= m <= |steps| && WorkedOnce(steps, n, m) && SendsAtMost(steps, audience)
    ensures Charged(init, steps, n, m, school, channel)
         <= audience * |ChargedFor(init, steps, n, m, school, channel)|
  {
    hide Before, Charges;
    if n < m {
      ChargedPerCampaign(init, steps, n, m - 1, school, channel, audience);
      var before := ChargedFor(init, steps, n, m - 1, school, channel);
      var charge := Charge(init, steps, m - 1, school, channel);
      if charge > 0 {
        WorkCharges(init, steps, m - 1, school, channel);
        var id := steps[m - 1].id;
        if id in before { ChargedWasWorked(init, steps, n, m - 1, school, channel, id); }
        OneMore(before, id, audience);
      }
    }
  }

  lemma WorkCharges(init: Sys, steps: seq<Step>, n: nat, school: SchoolId, channel: Channel)
    requires n < |steps| && Charge(init, steps, n, school, channel) > 0
    ensures steps[n].Work? && Charge(init, steps, n, school, channel) == steps[n].outcome.total
  {
  }

  lemma OneMore(ids: set<Id>, id: Id, audience: nat)
    requires id !in ids
    ensures audience * |ids + {id}| == audience * |ids| + audience
  {
    assert |ids + {id}| == |ids| + 1;
  }

  lemma ScaleUp(audience: nat, a: nat, b: nat)
    requires a <= b
    ensures audience * a <= audience * b
  {
  }

  lemma SubsetSize(a: set<Id>, b: set<Id>)
    requires a <= b
    ensures |a| <= |b|
  {
    assert b == a + (b - a);
  }

  /**
    How far a quota is overdrawn, in any run: if step `n` is the one that spends it and every send reaches `audience`
    users at most, then while each campaign's job runs once, the usage stays below the grant plus one audience for every
    campaign of the school on the channel that was under way at that step; and all charges from it on are for those.
   */
  lemma OverdrawnBy(init: Sys, steps: seq<Step>, n: nat, m: nat, school: SchoolId, channel: Channel, audience: nat)
    requires n < m <= |steps| && channel != OtherChannel && school in Before(init, steps, n).db.allocations
    requires !Spent(Before(init, steps, n).db, school, channel)
             && Spent(Exec(Before(init, steps, n), steps[n]).db, school, channel)
    requires WorkedOnce(steps, n, m) && SendsAtMost(steps, audience)
    ensures var s := Before(init, steps, n);
            && ChargedFor(init, steps, n, m, school, channel) <= InFlight(s, school, channel)
            && Used(Before(init, steps, m).db, school, channel)
               < QuotaFor(s.db.allocations[school], channel).granted + audience * |InFlight(s, school, channel)|
  {
    var (a, b) := (ChargedFor(init, steps, n, m, school, channel), InFlight(Before(init, steps, n), school, channel));
    ChargesWereInFlight(init, steps, n, m, school, channel);
    UsageIsWhatWasCharged(init, steps, n, m, school, channel);
    ChargedPerCampaign(init, steps, n, m, school, channel, audience);
    SubsetSize(a, b);
    ScaleUp(audience, |a|, |b|);
    hide Exec, Before, InFlight, Charged, ChargedFor, WorkedOnce, SendsAtMost;
  }

  function UpTo(n: nat): seq<Id> {
    seq(n, i => i)
  }

  lemma {:induction false} UpToOnce(n: nat, id: Id)
    ensures multiset(UpTo(n))[id] == Count(id < n)
  {
    if n > 0 {
      UpToOnce(n - 1, id);
      assert UpTo(n) == UpTo(n - 1) + [n - 1];
    }
  }

  lemma {:induction false} UpToSize(n: nat)
    ensures |set id | id in UpTo(n)| == n
  {
    if n > 0 {
      UpToSize(n - 1);
      var before := UpTo(n - 1);
      assert UpTo(n) == before + [n - 1];
      assert (set id | id in UpTo(n)) == (set id | id in before) + {n - 1};
    }
  }

  /** School 1 may send one more push message; the jobs of `queued` campaigns of it are waiting. */
  function OneLeft(granted: nat, queued: nat): Sys
    requires granted > 0
  {
    var (c, none) := (Campaign(Processing, Some(1), Push, None, 0), Quota(0, 0));
    Sys(Db(map id | id in UpTo(queued) :: c, map[1 := Allocation(Quota(granted, granted - 1), none, none)],
      UpTo(queued)), map[], multiset{})
  }

  function WorkAll(queued: nat, audience: nat): seq<Step> {
    seq(queued, (i: nat) => Work(i, Outcome(audience, false, false)))
  }

  lemma OneSend(db: Db, id: Id, audience: nat)
    requires Metered(db, id, 1, Push) && 1 in db.allocations && audience > 0
    ensures var db' := FinishSend(db, id, Outcome(audience, false, false));
            && db'.jobs == db.jobs && 1 in db'.allocations
            && db'.allocations[1].push == Spend(db.allocations[1].push, audience)
            && forall x | Metered(db, x, 1, Push) :: Metered(db', x, 1, Push)
  {
  }

  lemma {:induction false} WorkedOff(granted: nat, queued: nat, audience: nat, n: nat)
    requires granted > 0 && audience > 0 && n <= queued
    ensures var s := Before(OneLeft(granted, queued), WorkAll(queued, audience), n);
            && s.db.jobs == UpTo(queued) && 1 in s.db.allocations
            && s.db.allocations[1].push == Quota(granted, granted - 1 + n * audience)
            && forall id | id in UpTo(queued) :: Metered(s.db, id, 1, Push)
  {
    if n > 0 {
      WorkedOff(granted, queued, audience, n - 1);
      assert n * audience == (n - 1) * audience + audience;
      var (s, step) := (Before(OneLeft(granted, queued), WorkAll(queued, audience), n - 1),
                        WorkAll(queued, audience)[n - 1]);
      assert UpTo(queued)[n - 1] == n - 1;
      OneSend(s.db, n - 1, audience);
      hide FinishSend, UpTo;
    }
  }

  /** The bound is met, whatever the grant, the audience and the number of campaigns under way. */
  lemma OverdraftIsReached(granted: nat, queued: nat, audience: nat)
    requires granted > 0 && queued > 0 && audience > 0
    ensures var (init, steps) := (OneLeft(granted, queued), WorkAll(queued, audience));
            && Inv(init) && !Spent(init.db, 1, Push) && Spent(Exec(init, steps[0]).db, 1, Push)
            && WorkedOnce(steps, 0, queued) && SendsAtMost(steps, audience)
            && |InFlight(init, 1, Push)| == queued
            && Used(Before(init, steps, queued).db, 1, Push) == granted - 1 + audience * queued
  {
    var (init, steps) := (OneLeft(granted, queued), WorkAll(queued, audience));
    UpToSize(queued);
    forall id ensures Accounted(init, id) { UpToOnce(queued, id); }
    WorkedOff(granted, queued, audience, 0);
    WorkedOff(granted, queued, audience, 1);
    WorkedOff(granted, queued, audience, queued);
    assert Before(init, steps, 1) == Exec(init, steps[0]);
    assert InFlight(init, 1, Push) == set id | id in UpTo(queued);
    hide Exec, Before, Inv;
  }
}

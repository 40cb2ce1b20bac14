/**
  The campaign service and its scheduler as they run: `triggerSend`, `runSend` with its paging loop, `sendBatch`, and
  `handleScheduledCampaigns`. Delivery, the job queue and failing queries enter as parameters.
 */
module CampaignServices {
  import opened Prelude
  import opened CampaignLock
  import opened CampaignSend

  class CampaignsService {
    var campaigns: map<Id, Campaign>
    var allocations: map<SchoolId, Allocation>
    var jobs: seq<Id>
    var filters: map<Id, Filters>
    var users: seq<User>

    ghost function State(): Db
      reads this
    {
      Db(campaigns, allocations, jobs)
    }

    /** Every campaign has its filters, users are in id order. */
    ghost predicate Valid()
      reads this
    {
      Sorted(users) && forall id | id in campaigns :: id in filters && filters[id].school == campaigns[id].school
    }

    method SetStatus(id: Id, status: Status)
      requires id in campaigns
      modifies this`campaigns
      ensures campaigns == old(campaigns)[id := old(campaigns)[id].(status := status)]
    {
      campaigns := campaigns[id := campaigns[id].(status := status)];
    }

    /** `updateMany ... where status in (draft, scheduled)`: test and lock in one statement. */
    method LockForSending(id: Id) returns (count: nat)
      modifies this`campaigns
      ensures count == Count(Lockable(old(State()), id))
      ensures campaigns == if count == 1 then TakeLock(old(State()), id).campaigns else old(campaigns)
    {
      count := 0;
      if id in campaigns && (campaigns[id].status == Draft || campaigns[id].status == Scheduled) {
        SetStatus(id, Processing);
        count := 1;
      }
    }

    method TriggerSend(id: Id, who: Option<Requester>, queueUp: bool) returns (r: Reply)
      modifies this`campaigns, this`jobs
      ensures (State(), r) == Trigger(old(State()), id, who, queueUp)
    {
      if id !in campaigns { return Refused(NotFound); }
      var campaign := campaigns[id];
      if who.Some? && who.value.schoolAdmin {
        if who.value.school.None? { return Refused(AdminWithoutSchool); }
        if campaign.school.Some? && campaign.school != who.value.school { return Refused(ForeignCampaign); }
      }
      if campaign.status == Sent { return Refused(AlreadySent); }
      if campaign.status == Processing { return Refused(InProgress); }
      if campaign.school.Some? && campaign.channel != OtherChannel
         && !QuotaLeft(allocations, campaign.school.value, campaign.channel) {
        return Refused(NoQuota);
      }
      var count := LockForSending(id);
      if count == 0 { return Refused(NotLocked); }
      if !queueUp { return Refused(QueueDown); }
      jobs := jobs + [id];
      return Started;
    }

    method SendBatch(channel: Channel, batch: seq<User>, ok: UserId -> bool) returns (sent: nat)
      ensures sent == Delivered(batch, channel, ok)
    {
      sent := 0;
      if channel == Push {
        var messages := WithToken(batch);
        TokensDeliver(batch, ok);
        TokensOnly(batch);
        for i := 0 to |messages|
          invariant sent == Delivered(messages[..i], Push, ok)
        {
          assert messages[..i + 1][..i] == messages[..i] && messages[i] in messages;
          if ok(messages[i].id) { sent := sent + 1; }
        }
        assert messages[..|messages|] == messages;
      } else if channel == Email {
        for i := 0 to |batch|
          invariant sent == Delivered(batch[..i], Email, ok)
        {
          assert batch[..i + 1][..i] == batch[..i];
          if batch[i].hasEmail && ok(batch[i].id) { sent := sent + 1; }
        }
        assert batch[..|batch|] == batch;
      } else {
        NothingDelivered(batch, channel, ok);
      }
    }

    /**
      The loop of `runSend`; `breaks(k)` says that page k's query or client fails. Unless one does, every matching user
      is visited exactly once, in id order, and the total is that of one pass over all of them.
     */
    method SendPages(channel: Channel, baseWhere: Filters, ok: UserId -> bool, breaks: nat -> bool)
      returns (visited: seq<User>, totalSent: nat, broke: bool)
      requires Sorted(users)
      ensures visited <= Selected(users, baseWhere, None) && totalSent == Delivered(visited, channel, ok)
      ensures if broke then breaks(PagesFor(visited)) else visited == Selected(users, baseWhere, None)
      ensures broke <==> exists k :: 0 <= k <= PagesFor(Selected(users, baseWhere, None)) && breaks(k)
    {
      hide Page, Selected, Sorted, Delivered, Take, PagesFor, CursorAfter, Visited;
      visited, totalSent, broke := [], 0, false;
      ghost var all := Selected(users, baseWhere, None);
      var cursor := None;
      var page := 0;
      NothingVisited(all, channel, ok);
      while true
        invariant Visited(all, visited, page, cursor)
        invariant totalSent == Delivered(visited, channel, ok)
        invariant forall k | 0 <= k < page :: !breaks(k)
        decreases |all| - |visited|
      {
        PagesLeft(all, visited, page, cursor);
        if breaks(page) {
          return visited, totalSent, true;
        }
        var batch := Page(users, baseWhere, cursor);
        PageFollows(users, baseWhere, |visited|);
        if batch == [] { break; }
        NextBatch(all, visited, batch, page, cursor);
        cursor := Some(batch[|batch| - 1].id);
        var sent := SendBatch(channel, batch, ok);
        DeliveredAddsUp(visited, batch, channel, ok);
        visited, totalSent, page := visited + batch, totalSent + sent, page + 1;
      }
    }

    method RunSend(id: Id, ok: UserId -> bool, breaks: nat -> bool, usageBroke: bool) returns (visited: seq<User>)
      requires Valid()
      modifies this`campaigns, this`allocations
      ensures Valid()
      ensures id !in old(campaigns) ==> visited == [] && State() == old(State())
      ensures id in old(campaigns) ==>
                var channel := old(campaigns)[id].channel;
                var all := Selected(users, BuildUserWhere(filters[id], channel), None);
                var broke := exists k :: 0 <= k <= PagesFor(all) && breaks(k);
                && visited <= all && (!broke ==> visited == all)
                && State() == FinishSend(old(State()), id, Outcome(Delivered(visited, channel, ok), broke, usageBroke))
      ensures id in old(campaigns) ==>
                var c := old(campaigns)[id];
                var all := Selected(users, BuildUserWhere(filters[id], c.channel), None);
                var broke := exists k :: 0 <= k <= PagesFor(all) && breaks(k);
                var total := |Reached(all, c.channel, ok)|;
                var due := !broke && c.school.Some? && total > 0 && c.channel != OtherChannel;
                && campaigns.Keys == old(campaigns).Keys
                && (forall x | x in campaigns && x != id :: campaigns[x] == old(campaigns)[x])
                && campaigns[id] == c.(status := if !broke && !(due && usageBroke) then Sent else Failed,
                                       sentCount := if broke then c.sentCount else total)
                && (due && !usageBroke ==>
                      ChargedTo(old(allocations), allocations, c.school.value, c.channel, total))
                && (!due || usageBroke ==> allocations == old(allocations))
    {
      hide Selected, Delivered, Sorted, BuildUserWhere, PagesFor, AddUsage, ChargedTo, Reached;
      if id !in campaigns { return []; }
      var campaign := campaigns[id];
      var totalSent, broke;
      visited, totalSent, broke :=
          SendPages(campaign.channel, BuildUserWhere(filters[id], campaign.channel), ok, breaks);
      FinishDecides(State(), id, Outcome(totalSent, broke, usageBroke));
      DeliveredCounts(visited, campaign.channel, ok);
      if broke {
        SetStatus(id, Failed);
        return;
      }
      campaigns := campaigns[id := campaign.(status := Sent, sentCount := totalSent)];
      if campaign.school.Some? && totalSent > 0 && campaign.channel != OtherChannel {
        if usageBroke {
          SetStatus(id, Failed);
          return;
        }
        allocations := AddUsage(allocations, campaign.school.value, campaign.channel, totalSent);
      }
    }
  }

  function PagesFor(users: seq<User>): nat {
    (|users| + BATCH_SIZE - 1) / BATCH_SIZE
  }

  /** After `page` pages the first `visited` of all users are done; only the last page can be short. */
  ghost predicate Visited(all: seq<User>, visited: seq<User>, page: nat, cursor: Option<UserId>) {
    && visited <= all && cursor == CursorAfter(all, |visited|)
    && page == PagesFor(visited) && (visited == all || |visited| == page * BATCH_SIZE)
  }

  lemma NothingVisited(all: seq<User>, channel: Channel, ok: UserId -> bool)
    ensures Delivered([], channel, ok) == 0 && Visited(all, [], 0, None)
  {
  }

  lemma NextBatch(all: seq<User>, visited: seq<User>, batch: seq<User>, page: nat, cursor: Option<UserId>)
    requires Visited(all, visited, page, cursor) && batch == Take(all[|visited|..], BATCH_SIZE) && batch != []
    ensures Visited(all, visited + batch, page + 1, Some(batch[|batch| - 1].id))
    ensures |visited + batch| <= |all|
  {
  }

  lemma PagesLeft(all: seq<User>, visited: seq<User>, page: nat, cursor: Option<UserId>)
    requires Visited(all, visited, page, cursor)
    ensures visited <= all && cursor == CursorAfter(all, |visited|) && page == PagesFor(visited) <= PagesFor(all)
    ensures Take(all[|visited|..], BATCH_SIZE) == [] <==> visited == all
  {
  }

  lemma {:induction false} NothingDelivered(users: seq<User>, channel: Channel, ok: UserId -> bool)
    requires channel != Push && channel != Email
    ensures Delivered(users, channel, ok) == 0
  {
    if users != [] { NothingDelivered(users[..|users| - 1], channel, ok); }
  }

  class CampaignScheduler {
    const campaignsService: CampaignsService

    constructor (campaignsService: CampaignsService)
      ensures this.campaignsService == campaignsService
    {
      this.campaignsService := campaignsService;
    }

    /** `due` is the answer to the query for due campaigns. */
    method HandleScheduledCampaigns(now: Time, due: seq<Id>, queueUp: Id -> bool)
      requires AllDue(campaignsService.State(), now, due)
      modifies campaignsService
      ensures campaignsService.State() == TriggerEach(old(campaignsService.State()), due, queueUp)
    {
      for i := 0 to |due|
        invariant TriggerEach(campaignsService.State(), due[i..], queueUp)
                  == TriggerEach(old(campaignsService.State()), due, queueUp)
      {
        var _ := campaignsService.TriggerSend(due[i], None, queueUp(due[i]));
        assert due[i..][1..] == due[i + 1..];
      }
    }
  }
}

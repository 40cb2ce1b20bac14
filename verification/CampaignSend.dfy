/**
  The campaign send (`campaigns/campaigns.service.ts`): who a campaign reaches, and the loop that reaches them a hundred
  at a time with a cursor.
 */
module CampaignSend {
  import opened Prelude
  import opened CampaignLock

  type UserId = nat

  const BATCH_SIZE: nat := 100

  datatype User = User(
    id: UserId, deleted: bool, school: Option<SchoolId>, class_: Option<string>, gender: Option<string>, role: string,
    marketing: bool, partner: bool, notifPush: bool, notifEmail: bool, notifSms: bool, age: Option<int>,
    going: set<nat>, fetched: set<nat>, cards: set<nat>, hasEmail: bool, hasPushToken: bool)

  /** A campaign's stored segment filters; an absent filter does not restrict. */
  datatype Filters = Filters(
    school: Option<SchoolId>, class_: Option<string>, gender: Option<string>, role: Option<string>,
    marketing: Option<bool>, partner: Option<bool>, push: Option<bool>, email: Option<bool>, sms: Option<bool>,
    minAge: Option<int>, maxAge: Option<int>, goingTo: Option<nat>, card: Option<nat>, fetchedFor: Option<nat>)

  /** The where clause: the filters with the channel's opt-in written over its own filter. */
  function BuildUserWhere(f: Filters, channel: Channel): Filters {
    var f := if channel == Push then f.(push := Some(true)) else f;
    var f := if channel == Sms then f.(sms := Some(true)) else f;
    if channel == Email then f.(email := Some(true)) else f
  }

  predicate Asks(filter: Option<bool>, value: bool) {
    filter.Some? ==> filter.value == value
  }

  predicate Matches(w: Filters, u: User) {
    && !u.deleted
    && (w.school.Some? ==> u.school == w.school) && (w.class_.Some? ==> u.class_ == w.class_)
    && (w.gender.Some? ==> u.gender == w.gender) && (w.role.Some? ==> u.role == w.role.value)
    && Asks(w.marketing, u.marketing) && Asks(w.partner, u.partner)
    && Asks(w.push, u.notifPush) && Asks(w.email, u.notifEmail) && Asks(w.sms, u.notifSms)
    && (w.minAge.Some? ==> u.age.Some? && u.age.value >= w.minAge.value)
    && (w.maxAge.Some? ==> u.age.Some? && u.age.value <= w.maxAge.value)
    && (w.goingTo.Some? ==> w.goingTo.value in u.going) && (w.card.Some? ==> w.card.value in u.cards)
    && (w.fetchedFor.Some? ==> w.fetchedFor.value in u.fetched)
  }

  const NO_FILTERS := Filters(None, None, None, None, None, None, None, None, None, None, None, None, None, None)

  lemma FiltersByPerson(f: Filters, u: User)
    ensures f.school.Some? ==> (Matches(f, u) <==> Matches(f.(school := None), u) && u.school == f.school)
    ensures f.class_.Some? ==> (Matches(f, u) <==> Matches(f.(class_ := None), u) && u.class_ == f.class_)
    ensures f.gender.Some? ==> (Matches(f, u) <==> Matches(f.(gender := None), u) && u.gender == f.gender)
    ensures f.role.Some? ==> (Matches(f, u) <==> Matches(f.(role := None), u) && u.role == f.role.value)
  {
  }

  lemma FiltersByConsent(f: Filters, u: User)
    ensures f.marketing.Some? ==>
              (Matches(f, u) <==> Matches(f.(marketing := None), u) && u.marketing == f.marketing.value)
    ensures f.partner.Some? ==> (Matches(f, u) <==> Matches(f.(partner := None), u) && u.partner == f.partner.value)
    ensures f.push.Some? ==> (Matches(f, u) <==> Matches(f.(push := None), u) && u.notifPush == f.push.value)
    ensures f.email.Some? ==> (Matches(f, u) <==> Matches(f.(email := None), u) && u.notifEmail == f.email.value)
    ensures f.sms.Some? ==> (Matches(f, u) <==> Matches(f.(sms := None), u) && u.notifSms == f.sms.value)
  {
  }

  lemma FiltersByAge(f: Filters, u: User)
    ensures f.minAge.Some? ==>
              (Matches(f, u) <==> Matches(f.(minAge := None), u) && u.age.Some? && f.minAge.value <= u.age.value)
    ensures f.maxAge.Some? ==>
              (Matches(f, u) <==> Matches(f.(maxAge := None), u) && u.age.Some? && u.age.value <= f.maxAge.value)
  {
  }

  lemma FiltersByRelation(f: Filters, u: User)
    ensures f.goingTo.Some? ==> (Matches(f, u) <==> Matches(f.(goingTo := None), u) && f.goingTo.value in u.going)
    ensures f.card.Some? ==> (Matches(f, u) <==> Matches(f.(card := None), u) && f.card.value in u.cards)
    ensures f.fetchedFor.Some? ==>
              (Matches(f, u) <==> Matches(f.(fetchedFor := None), u) && f.fetchedFor.value in u.fetched)
  {
  }

  /** No filter at all asks for everybody who is not deleted, and each filter set narrows that by its own condition. */
  lemma FiltersAddUp(f: Filters, u: User)
    ensures Matches(NO_FILTERS, u) <==> !u.deleted
    ensures f.school.Some? ==> (Matches(f, u) <==> Matches(f.(school := None), u) && u.school == f.school)
    ensures f.class_.Some? ==> (Matches(f, u) <==> Matches(f.(class_ := None), u) && u.class_ == f.class_)
    ensures f.gender.Some? ==> (Matches(f, u) <==> Matches(f.(gender := None), u) && u.gender == f.gender)
    ensures f.role.Some? ==> (Matches(f, u) <==> Matches(f.(role := None), u) && u.role == f.role.value)
    ensures f.marketing.Some? ==>
              (Matches(f, u) <==> Matches(f.(marketing := None), u) && u.marketing == f.marketing.value)
    ensures f.partner.Some? ==> (Matches(f, u) <==> Matches(f.(partner := None), u) && u.partner == f.partner.value)
    ensures f.push.Some? ==> (Matches(f, u) <==> Matches(f.(push := None), u) && u.notifPush == f.push.value)
    ensures f.email.Some? ==> (Matches(f, u) <==> Matches(f.(email := None), u) && u.notifEmail == f.email.value)
    ensures f.sms.Some? ==> (Matches(f, u) <==> Matches(f.(sms := None), u) && u.notifSms == f.sms.value)
    ensures f.minAge.Some? ==>
              (Matches(f, u) <==> Matches(f.(minAge := None), u) && u.age.Some? && f.minAge.value <= u.age.value)
    ensures f.maxAge.Some? ==>
              (Matches(f, u) <==> Matches(f.(maxAge := None), u) && u.age.Some? && u.age.value <= f.maxAge.value)
    ensures f.goingTo.Some? ==> (Matches(f, u) <==> Matches(f.(goingTo := None), u) && f.goingTo.value in u.going)
    ensures f.card.Some? ==> (Matches(f, u) <==> Matches(f.(card := None), u) && f.card.value in u.cards)
    ensures f.fetchedFor.Some? ==>
              (Matches(f, u) <==> Matches(f.(fetchedFor := None), u) && f.fetchedFor.value in u.fetched)
  {
    FiltersByPerson(f, u);
    FiltersByConsent(f, u);
    FiltersByAge(f, u);
    FiltersByRelation(f, u);
    assert Matches(NO_FILTERS, u) <==> !u.deleted;
    hide Matches;
  }

  predicate OptedIn(u: User, channel: Channel) {
    match channel
    case Push => u.notifPush
    case Email => u.notifEmail
    case Sms => u.notifSms
    case OtherChannel => true
  }

  /** The channel filter a campaign stores for the channel it is sent on. */
  function OwnFilter(f: Filters, channel: Channel): Option<bool> {
    match channel
    case Push => f.push
    case Email => f.email
    case Sms => f.sms
    case OtherChannel => None
  }

  /**
    Consent always wins: whatever the filters say, only users who are not deleted and opted in to the channel match; and
    the clause means the filters plus that consent, except that a filter asking for users who opted out is overruled.
   */
  lemma ConsentWins(f: Filters, channel: Channel, u: User)
    ensures Matches(BuildUserWhere(f, channel), u) ==> !u.deleted && OptedIn(u, channel)
    ensures OwnFilter(f, channel) != Some(false) ==>
              (Matches(BuildUserWhere(f, channel), u) <==> Matches(f, u) && OptedIn(u, channel))
  {
  }

  // ----- Pages -----

  /** The table in id order; ids are unique. */
  predicate Sorted(table: seq<User>) {
    forall i, j | 0 <= i < j < |table| :: table[i].id < table[j].id
  }

  predicate FromCursor(cursor: Option<UserId>, u: User) {
    cursor.Some? ==> u.id >= cursor.value
  }

  /** The matching users at or after the cursor, in id order. */
  function Selected(table: seq<User>, w: Filters, cursor: Option<UserId>): seq<User> {
    if table == [] then [] else
    (if Matches(w, table[0]) && FromCursor(cursor, table[0]) then [table[0]] else []) + Selected(table[1..], w, cursor)
  }

  function Take(s: seq<User>, n: nat): seq<User> {
    if |s| <= n then s else s[..n]
  }

  predicate HasRow(table: seq<User>, id: UserId) {
    exists u :: u in table && u.id == id
  }

  /**
    One query: from the cursor's row on, skipping one row if there is a cursor, at most a hundred rows. Where the
    cursor's row is found it need not match; a cursor without a row finds nothing.
   */
  function Page(table: seq<User>, w: Filters, cursor: Option<UserId>): seq<User> {
    if cursor.Some? && !HasRow(table, cursor.value) then [] else
    var rows := Selected(table, w, cursor);
    var rest := if cursor.Some? && rows != [] then rows[1..] else rows;
    Take(rest, BATCH_SIZE)
  }

  /** One unpaged query is exact: every matching user of the table, once, in id order. */
  lemma {:induction false} SelectedIsExact(table: seq<User>, w: Filters, cursor: Option<UserId>)
    requires Sorted(table)
    ensures Sorted(Selected(table, w, cursor))
    ensures forall u :: u in Selected(table, w, cursor) <==> u in table && Matches(w, u) && FromCursor(cursor, u)
  {
    hide Matches;
    if table != [] {
      SelectedIsExact(table[1..], w, cursor);
      assert table == [table[0]] + table[1..];
      forall u | u in table[1..] ensures table[0].id < u.id {}
    }
  }

  /**
    Whom a campaign reaches, whatever its filters say: users of the table who are not deleted and opted in to the
    channel, each once; and, unless the filters ask for users who opted out, exactly those of them the filters describe.
   */
  lemma OnlyConsentingAreReached(table: seq<User>, f: Filters, channel: Channel)
    requires Sorted(table)
    ensures var reached := Selected(table, BuildUserWhere(f, channel), None);
            && Sorted(reached)
            && (forall u | u in reached :: u in table && !u.deleted && OptedIn(u, channel))
            && (OwnFilter(f, channel) != Some(false) ==>
                  forall u :: u in reached <==> u in table && Matches(f, u) && OptedIn(u, channel))
  {
    SelectedIsExact(table, BuildUserWhere(f, channel), None);
    forall u ensures Matches(BuildUserWhere(f, channel), u) ==> !u.deleted && OptedIn(u, channel)
             ensures OwnFilter(f, channel) != Some(false) ==>
                       (Matches(BuildUserWhere(f, channel), u) <==> Matches(f, u) && OptedIn(u, channel))
    {
      ConsentWins(f, channel, u);
    }
    hide Matches, OptedIn, BuildUserWhere, OwnFilter, Selected, Sorted;
  }

  /** A cursor that sits on a matching user selects that user and everyone after. */
  lemma {:induction false} SelectedFromRow(table: seq<User>, w: Filters, k: nat)
    requires Sorted(table) && k < |Selected(table, w, None)|
    ensures var all := Selected(table, w, None);
            Selected(table, w, Some(all[k].id)) == all[k..]
  {
    hide Matches;
    var (all, rest) := (Selected(table, w, None), table[1..]);
    assert table == [table[0]] + rest && Sorted(rest);
    if !Matches(w, table[0]) {
      assert all == Selected(rest, w, None);
      SelectedFromRow(rest, w, k);
    } else if k > 0 {
      assert all == [table[0]] + Selected(rest, w, None);
      LaterThanHead(table, w, k - 1);
      SelectedFromRow(rest, w, k - 1);
    } else {
      SelectedFromBelow(rest, w, table[0].id);
    }
  }

  lemma LaterThanHead(table: seq<User>, w: Filters, k: nat)
    requires Sorted(table) && table != [] && k < |Selected(table[1..], w, None)|
    ensures table[0].id < Selected(table[1..], w, None)[k].id
  {
    SelectedIsExact(table[1..], w, None);
    assert Selected(table[1..], w, None)[k] in table[1..];
  }

  lemma {:induction false} SelectedFromBelow(table: seq<User>, w: Filters, id: UserId)
    requires forall i | 0 <= i < |table| :: id <= table[i].id
    ensures Selected(table, w, Some(id)) == Selected(table, w, None)
  {
    if table != [] { SelectedFromBelow(table[1..], w, id); }
  }

  /** The cursor once the first `done` users have been visited. */
  function CursorAfter(all: seq<User>, done: nat): Option<UserId>
    requires done <= |all|
  {
    if done == 0 then None else Some(all[done - 1].id)
  }

  /** With the last user of the previous page as cursor, the next page is the next hundred of the unpaged query. */
  lemma PageFollows(table: seq<User>, w: Filters, done: nat)
    requires Sorted(table) && done <= |Selected(table, w, None)|
    ensures var all := Selected(table, w, None);
            Page(table, w, CursorAfter(all, done)) == Take(all[done..], BATCH_SIZE)
  {
    SelectedIsExact(table, w, None);
    if done > 0 {
      SelectedFromRow(table, w, done - 1);
      assert Selected(table, w, None)[done - 1] in table;
    }
    hide Selected, Matches;
  }

  /** The matching users strictly after an id. */
  function Later(table: seq<User>, w: Filters, id: UserId): seq<User> {
    Selected(table, w, Some(id + 1))
  }

  lemma {:induction false} SelectedSplits(table: seq<User>, w: Filters, id: UserId)
    requires Sorted(table)
    ensures Selected(table, w, Some(id)) == Later(table, w, id)
            || (Selected(table, w, Some(id)) != [] && Selected(table, w, Some(id))[0].id == id
                && Selected(table, w, Some(id))[1..] == Later(table, w, id))
  {
    hide Matches;
    if table != [] {
      assert table == [table[0]] + table[1..];
      if table[0].id < id {
        SelectedSplits(table[1..], w, id);
      } else if table[0].id == id {
        SelectedAllLater(table[1..], w, id);
      } else {
        SelectedAllLater(table, w, id);
      }
    }
  }

  lemma {:induction false} SelectedAllLater(table: seq<User>, w: Filters, id: UserId)
    requires forall i | 0 <= i < |table| :: id < table[i].id
    ensures Selected(table, w, Some(id)) == Later(table, w, id)
  {
    if table != [] { SelectedAllLater(table[1..], w, id); }
  }

  /**
    The next page after the table has changed. While the cursor's user matches, it continues without a gap; while the
    user is there without matching, it misses exactly the first who should come next; once the user's row is gone it is
    empty, which ends the send, and everybody left is missed. So it continues without a gap exactly if the cursor's user
    still matches or nobody is left.
   */
  lemma PageAfterChange(table: seq<User>, w: Filters, cursor: UserId)
    requires Sorted(table)
    ensures var (page, later) := (Page(table, w, Some(cursor)), Later(table, w, cursor));
            && (page == Take(later, BATCH_SIZE)
                <==> (exists u :: u in table && u.id == cursor && Matches(w, u)) || later == [])
            && ((exists u :: u in table && u.id == cursor && !Matches(w, u)) && later != [] ==>
                  page == Take(later[1..], BATCH_SIZE))
            && (!HasRow(table, cursor) ==> page == [])
  {
    hide Selected, Matches, Sorted, Take;
    var (rows, later) := (Selected(table, w, Some(cursor)), Later(table, w, cursor));
    SelectedSplits(table, w, cursor);
    SelectedIsExact(table, w, Some(cursor));
    SelectedIsExact(table, w, Some(cursor + 1));
    OneRow(table, cursor);
    TakeSome(later);
    if u :| u in table && u.id == cursor {
      assert HasRow(table, cursor);
      if Matches(w, u) {
        assert u in rows && u !in later;
      } else {
        assert rows == later by { assert rows != [] ==> rows[0] in rows; }
        if later != [] { SkippingShows(later); }
      }
    } else {
      assert !HasRow(table, cursor);
    }
  }

  lemma TakeSome(s: seq<User>)
    ensures Take(s, BATCH_SIZE) == [] <==> s == []
  {
  }

  lemma OneRow(table: seq<User>, id: UserId)
    requires Sorted(table)
    ensures forall u, v | u in table && v in table && u.id == id && v.id == id :: u == v
  {
  }

  /** Skipping the first of some users always changes the page. */
  lemma SkippingShows(later: seq<User>)
    requires Sorted(later) && later != []
    ensures Take(later[1..], BATCH_SIZE) != Take(later, BATCH_SIZE)
  {
    assert Take(later, BATCH_SIZE)[0] == later[0];
    if |later| > 1 { assert Take(later[1..], BATCH_SIZE)[0] == later[1] && later[0].id < later[1].id; }
  }

  // ----- Counting -----

  /** Whether the channel has an address for the user at all; nothing is ever sent by SMS. */
  predicate Reachable(u: User, channel: Channel) {
    (channel == Push && u.hasPushToken) || (channel == Email && u.hasEmail)
  }

  /** How many of `users` get the message; `ok` says whose delivery succeeds, should it be tried. */
  function Delivered(users: seq<User>, channel: Channel, ok: UserId -> bool): nat {
    if users == [] then 0 else
    var last := users[|users| - 1];
    Delivered(users[..|users| - 1], channel, ok) + Count(Reachable(last, channel) && ok(last.id))
  }

  /** The places of the users whom the channel reaches and whose delivery succeeds. */
  function Reached(users: seq<User>, channel: Channel, ok: UserId -> bool): set<nat> {
    set i: nat | i < |users| && ok(users[i].id)
                 && ((channel == Push && users[i].hasPushToken) || (channel == Email && users[i].hasEmail))
  }

  /** The total is how many users are reached. */
  lemma {:induction false} DeliveredCounts(users: seq<User>, channel: Channel, ok: UserId -> bool)
    ensures Delivered(users, channel, ok) == |Reached(users, channel, ok)|
  {
    if users != [] {
      var n := |users| - 1;
      DeliveredCounts(users[..n], channel, ok);
      ReachedSplits(users, n, channel, ok);
      hide Reached, Reachable;
    }
  }

  lemma ReachedSplits(users: seq<User>, n: nat, channel: Channel, ok: UserId -> bool)
    requires |users| == n + 1
    ensures n !in Reached(users[..n], channel, ok)
    ensures Reached(users, channel, ok)
         == Reached(users[..n], channel, ok) + if Reachable(users[n], channel) && ok(users[n].id) then {n} else {}
  {
    var (all, before) := (Reached(users, channel, ok), Reached(users[..n], channel, ok));
    forall i: nat | i < n ensures i in all <==> i in before { assert users[..n][i] == users[i]; }
  }

  lemma {:induction false} DeliveredAddsUp(first: seq<User>, second: seq<User>, channel: Channel, ok: UserId -> bool)
    ensures Delivered(first + second, channel, ok) == Delivered(first, channel, ok) + Delivered(second, channel, ok)
  {
    if second == [] {
      assert first + second == first;
    } else {
      var n := |second| - 1;
      assert (first + second)[..|first| + n] == first + second[..n];
      DeliveredAddsUp(first, second[..n], channel, ok);
    }
  }

  /** The users with a push token, in order. */
  function WithToken(users: seq<User>): seq<User> {
    if users == [] then [] else
    WithToken(users[..|users| - 1]) + if users[|users| - 1].hasPushToken then [users[|users| - 1]] else []
  }

  lemma OneDelivery(u: User, channel: Channel, ok: UserId -> bool)
    ensures Delivered([u], channel, ok) == Count(Reachable(u, channel) && ok(u.id))
    ensures channel == Push && !u.hasPushToken ==> !Reachable(u, channel)
  {
  }

  /** Sending to the tokens reaches whom sending to the batch would. */
  lemma {:induction false} TokensDeliver(users: seq<User>, ok: UserId -> bool)
    ensures Delivered(users, Push, ok) == Delivered(WithToken(users), Push, ok)
  {
    if users != [] {
      var (before, last) := (users[..|users| - 1], users[|users| - 1]);
      TokensDeliver(before, ok);
      OneDelivery(last, Push, ok);
      hide Reachable;
      if last.hasPushToken {
        DeliveredAddsUp(WithToken(before), [last], Push, ok);
      } else {
        assert WithToken(users) == WithToken(before);
      }
    }
  }

  lemma {:induction false} TokensOnly(users: seq<User>)
    ensures forall u | u in WithToken(users) :: u.hasPushToken
  {
    if users != [] { TokensOnly(users[..|users| - 1]); }
  }
}

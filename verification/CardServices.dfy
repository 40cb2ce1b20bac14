/**
  The calls on card codes as they run, over shared tables: `assignCards` and `remove` of the users service,
  `generateCodes` and `claimCard` of the cards service, `activateCard` of the wallet service. Run alone, each does what
  its entry in CardCodes says.
 */
module CardServices {
  import opened Prelude
  import opened CardCodes

  class Prisma {
    var cards: map<CardId, Card>
    var users: map<UserId, User>
    var codes: Codes
    const pick: Picker

    ghost function State(): Db
      reads this
    {
      Db(cards, users, codes)
    }

    ghost predicate Valid()
      reads this
    {
      Picks(pick) && Linked(State())
    }

    /** `findFirst` among the card's codes that nobody holds and nobody used. */
    method FindFree(card: CardId) returns (r: Option<Code>)
      requires Picks(pick)
      ensures r == if Free(codes, card) == {} then None else Some(pick(Free(codes, card)))
    {
      var free := Free(codes, card);
      if free == {} { return None; }
      return Some(pick(free));
    }

    /** The transaction of `assignCards`, the same in both modes. */
    method AssignEach(card: CardId, toAssign: seq<UserId>, now: Time) returns (r: Option<nat>)
      requires Picks(pick)
      modifies this`codes
      ensures match Allocate(old(codes), card, toAssign, now, pick)
              case None => r == None && codes == old(codes)
              case Some(after) => r == Some(|toAssign|) && codes == after
    {
      var snapshot := codes;
      var served := 0;
      while served < |toAssign|
        invariant served <= |toAssign|
        invariant Allocate(codes, card, toAssign[served..], now, pick) == Allocate(snapshot, card, toAssign, now, pick)
      {
        var available := FindFree(card);
        if available.None? {
          codes := snapshot;
          return None;
        }
        var row := codes[available.value];
        codes := codes[available.value := row.(user := Some(toAssign[served]), assignedAt := Some(now))];
        assert toAssign[served..][1..] == toAssign[served + 1..];
        served := served + 1;
      }
      return Some(served);
    }
  }

  class UsersService {
    const prisma: Prisma

    constructor (prisma: Prisma)
      ensures this.prisma == prisma
    {
      this.prisma := prisma;
    }

    method AssignCards(card: CardId, ids: seq<UserId>, now: Time) returns (r: Reply)
      requires prisma.Valid()
      modifies prisma
      ensures (prisma.State(), r) == CardCodes.AssignCards(old(prisma.State()), card, ids, now, prisma.pick)
      ensures prisma.Valid()
    {
      CallKeepsLinks(prisma.State(), AssignCall(card, ids, now), prisma.pick);
      hide Free, ToAssign, AlreadyAssigned, Allocate, Found, Foreign, Linked;
      if card !in prisma.cards { return Refused(CardNotFound); }
      var found := Found(ids, prisma.users);
      if |found| != |ids| { return Refused(UsersNotFound); }
      var invalid := Foreign(found, prisma.users, prisma.cards[card].school);
      if invalid != {} { return Refused(NotInSchool(|invalid|)); }
      var batch := prisma.cards[card].batch;
      var availableCount := |Free(prisma.codes, card)|;
      var alreadyAssigned := AlreadyAssigned(prisma.codes, card, ids);
      var toAssign := ToAssign(prisma.codes, card, ids);
      if toAssign == [] { return Assigned(0, |ids|); }
      if batch && availableCount < |toAssign| { return Refused(PoolTooSmall(availableCount, |toAssign|)); }
      var served := prisma.AssignEach(card, toAssign, now);
      if served.None? { return Refused(if batch then PoolExhausted else NoUnusedCode); }
      return Assigned(served.value, |alreadyAssigned|);
    }

    /** The part of a student's removal that touches card codes. */
    method Remove(user: UserId) returns (r: Reply)
      requires prisma.Valid()
      modifies prisma
      ensures (prisma.State(), r) == CardCodes.Remove(old(prisma.State()), user)
      ensures prisma.Valid()
    {
      if user !in prisma.users { return Refused(UserNotFound); }
      prisma.codes := map c | c in prisma.codes ::
        if prisma.codes[c].user == Some(user) then
            prisma.codes[c].(user := None, used := false, assignedAt := None, usedAt := None)
        else prisma.codes[c];
      assert prisma.codes == Release(old(prisma.codes), user);
      prisma.users := prisma.users - {user};
      return Done;
    }
  }

  class CardsService {
    const prisma: Prisma

    constructor (prisma: Prisma)
      ensures this.prisma == prisma
    {
      this.prisma := prisma;
    }

    /** `digits(i)` are the twelve random digits of the i-th code. */
    method GenerateCodes(card: CardId, count: nat, digits: int -> seq<char>) returns (r: Reply, minted: seq<Code>)
      requires prisma.Valid() && forall i :: |digits(i)| == 12 && forall k | 0 <= k < 12 :: IsDigit(digits(i)[k])
      modifies prisma
      ensures minted == seq(if card in prisma.cards then count else 0, i => Formatted(digits(i)))
      ensures (prisma.State(), r) == Generate(old(prisma.State()), card, minted)
      ensures forall c | c in minted :: IsValidCode(c)
      ensures prisma.Valid()
    {
      minted := [];
      if card !in prisma.cards { return Refused(CardNotFound), minted; }
      for i := 0 to count
        invariant minted == seq(i, k => Formatted(digits(k)))
        invariant prisma.State() == old(prisma.State())
        invariant forall c | c in minted :: IsValidCode(c)
      {
        FormattedIsValid(digits(i));
        minted := minted + [Formatted(digits(i))];
      }
      if !NoDuplicates(minted) || exists c :: c in minted && c in prisma.codes {
        return Refused(DuplicateCode), minted;
      }
      prisma.codes := prisma.codes + map c | c in minted :: CardCode(card, None, false, None, None);
      return Generated(|minted|), minted;
    }

    method ClaimCard(user: UserId, code: Code, now: Time) returns (r: Reply)
      requires prisma.Valid()
      modifies prisma
      ensures (prisma.State(), r) == Claim(old(prisma.State()), user, code, now)
      ensures prisma.Valid()
    {
      if !IsValidCode(code) { return Refused(InvalidFormat); }
      if user !in prisma.users { return Refused(UserNotFound); }
      if code !in prisma.codes { return Refused(InvalidCode); }
      var row := prisma.codes[code];
      if row.user.Some? && row.user != Some(user) { return Refused(AssignedToAnother); }
      if prisma.users[user].school != Some(prisma.cards[row.card].school) { return Refused(OtherSchool); }
      if HoldsAnother(prisma.codes, user, code) { return Refused(AlreadyHasCard); }
      if row.used { return Refused(AlreadyUsed); }
      prisma.codes := prisma.codes[code := row.(used := true, user := Some(user), usedAt := Some(now))];
      prisma.users := prisma.users[user := prisma.users[user].(cardActive := true)];
      return Done;
    }
  }

  class WalletService {
    const prisma: Prisma

    constructor (prisma: Prisma)
      ensures this.prisma == prisma
    {
      this.prisma := prisma;
    }

    method ActivateCard(user: UserId, code: Code, now: Time) returns (r: Reply)
      requires prisma.Valid()
      modifies prisma
      ensures (prisma.State(), r) == Activate(old(prisma.State()), user, code, now)
      ensures prisma.Valid()
    {
      if code !in prisma.codes { return Refused(InvalidCode); }
      var row := prisma.codes[code];
      if row.used { return Refused(AlreadyUsed); }
      if prisma.cards[row.card].blocked { return Refused(CardBlocked); }
      if now > prisma.cards[row.card].validUntil { return Refused(CardExpired); }
      if user !in prisma.users { return Refused(UserNotFound); }
      prisma.codes := prisma.codes[code := row.(used := true, usedAt := Some(now), user := Some(user))];
      return Done;
    }
  }
}

/**
  The pool of card codes: codes are generated for a card, assigned to students in batch or one at a time, claimed or
  activated by their owner, and released when the owner is removed (`users/users.service.ts`,
  `cards/cards.service.ts`, `wallet/wallet.service.ts`).
 */
module CardCodes {
  import opened Prelude

  type CardId = nat
  type UserId = nat
  type SchoolId = nat

  /** A code's text, which is unique and stands for its row. */
  type Code = string

  datatype CardCode = CardCode(card: CardId, user: Option<UserId>, used: bool, assignedAt: Option<Time>,
      usedAt: Option<Time>)

  datatype Card = Card(school: SchoolId, batch: bool, blocked: bool, validUntil: Time)

  datatype User = User(school: Option<SchoolId>, cardActive: bool)

  type Codes = map<Code, CardCode>

  datatype Db = Db(cards: map<CardId, Card>, users: map<UserId, User>, codes: Codes)

  datatype Refusal =
    | CardNotFound | UsersNotFound | NotInSchool(count: nat) | PoolTooSmall(available: nat, requested: nat)
    | PoolExhausted | NoUnusedCode | DuplicateCode
    | InvalidFormat | UserNotFound | InvalidCode | AssignedToAnother | OtherSchool | AlreadyHasCard | AlreadyUsed
    | CardBlocked | CardExpired

  datatype Reply = Assigned(served: nat, skipped: nat) | Generated(count: nat) | Done | Refused(why: Refusal)

  // ----- Reading the table -----

  predicate IsFree(row: CardCode, card: CardId) {
    row.card == card && row.user.None? && !row.used
  }

  function Free(codes: Codes, card: CardId): set<Code> {
    set c | c in codes && IsFree(codes[c], card)
  }

  predicate Holds(codes: Codes, card: CardId, user: UserId) {
    exists c :: c in codes && codes[c].card == card && codes[c].user == Some(user)
  }

  // ----- Assigning -----

  /** The ids, in order, that hold no code of the card yet. */
  function ToAssign(codes: Codes, card: CardId, ids: seq<UserId>): seq<UserId> {
    if ids == [] then [] else
    (if Holds(codes, card, ids[0]) then [] else [ids[0]]) + ToAssign(codes, card, ids[1..])
  }

  /** The users among the ids who already hold a code of the card. */
  function AlreadyAssigned(codes: Codes, card: CardId, ids: seq<UserId>): set<UserId> {
    set u | u in ids && Holds(codes, card, u)
  }

  /** Which of the matching rows `findFirst` returns: some row, the same one for the same rows. */
  type Picker = set<Code> -> Code

  ghost predicate Picks(pick: Picker) {
    forall s | s != {} :: pick(s) in s
  }

  function Give(codes: Codes, code: Code, user: UserId, now: Time): Codes
    requires code in codes
  {
    codes[code := codes[code].(user := Some(user), assignedAt := Some(now))]
  }

  /** The loop inside the transaction: each user in turn takes a free code; running out undoes everything. */
  function Allocate(codes: Codes, card: CardId, users: seq<UserId>, now: Time, pick: Picker): Option<Codes>
    requires Picks(pick)
  {
    if users == [] then Some(codes) else
    var free := Free(codes, card);
    if free == {} then None else
    Allocate(Give(codes, pick(free), users[0], now), card, users[1..], now, pick)
  }

  /** The users the ids name; a repeated id still finds one row. */
  function Found(ids: seq<UserId>, users: map<UserId, User>): set<UserId> {
    set u | u in ids && u in users
  }

  function Foreign(found: set<UserId>, users: map<UserId, User>, school: SchoolId): set<UserId>
    requires found <= users.Keys
  {
    set u | u in found && users[u].school != Some(school)
  }

  function AssignCards(db: Db, card: CardId, ids: seq<UserId>, now: Time, pick: Picker): (Db, Reply)
    requires Picks(pick)
  {
    if card !in db.cards then (db, Refused(CardNotFound)) else
    var found := Found(ids, db.users);
    if |found| != |ids| then (db, Refused(UsersNotFound)) else
    var invalid := Foreign(found, db.users, db.cards[card].school);
    if invalid != {} then (db, Refused(NotInSchool(|invalid|))) else
    var toAssign := ToAssign(db.codes, card, ids);
    if toAssign == [] then (db, Assigned(0, |ids|))
    else if db.cards[card].batch && |Free(db.codes, card)| < |toAssign| then
      (db, Refused(PoolTooSmall(|Free(db.codes, card)|, |toAssign|)))
    else
      match Allocate(db.codes, card, toAssign, now, pick)
      case None => (db, Refused(if db.cards[card].batch then PoolExhausted else NoUnusedCode))
      case Some(codes) => (db.(codes := codes), Assigned(|toAssign|, |AlreadyAssigned(db.codes, card, ids)|))
  }

  // ----- The other calls -----

  predicate IsDigit(c: char) {
    '0' <= c <= '9'
  }

  /** Four groups of three digits, separated by dashes. */
  predicate IsValidCode(code: Code) {
    |code| == 15 && forall i | 0 <= i < 15 :: if i % 4 == 3 then code[i] == '-' else IsDigit(code[i])
  }

  /** Twelve digits in four groups. */
  function Formatted(digits: seq<char>): Code
    requires |digits| == 12
  {
    digits[0..3] + "-" + digits[3..6] + "-" + digits[6..9] + "-" + digits[9..12]
  }

  lemma FormattedIsValid(digits: seq<char>)
    requires |digits| == 12 && forall k | 0 <= k < 12 :: IsDigit(digits[k])
    ensures IsValidCode(Formatted(digits))
  {
  }

  function DigitsOf(code: Code): seq<char>
    requires |code| == 15
  {
    code[0..3] + code[4..7] + code[8..11] + code[12..15]
  }

  predicate TwelveDigits(digits: seq<char>) {
    |digits| == 12 && forall k | 0 <= k < 12 :: digits[k] in "0123456789"
  }

  lemma DigitsAt(code: Code, k: nat)
    requires |code| == 15 && k < 12
    ensures |DigitsOf(code)| == 12 && DigitsOf(code)[k] == code[k + k / 3]
  {
  }

  lemma FormattedAgain(code: Code)
    requires |code| == 15 && code[3] == code[7] == code[11] == '-'
    ensures code == Formatted(DigitsOf(code))
  {
    assert code == code[0..3] + "-" + code[4..7] + "-" + code[8..11] + "-" + code[12..15];
  }

  /** A code is valid exactly if it is twelve digits so formatted. */
  lemma ValidCodesAreFormatted(code: Code)
    ensures IsValidCode(code)
            <==> |code| == 15 && TwelveDigits(DigitsOf(code)) && code == Formatted(DigitsOf(code))
  {
    hide IsDigit, DigitsOf, Formatted;
    forall c ensures IsDigit(c) <==> c in "0123456789" { DigitIsListed(c); }
    if IsValidCode(code) {
      FormattedAgain(code);
      forall k | 0 <= k < 12 ensures |DigitsOf(code)| == 12 && IsDigit(DigitsOf(code)[k]) { DigitsAt(code, k); }
      DigitsAt(code, 0);
    } else if |code| == 15 && TwelveDigits(DigitsOf(code)) && code == Formatted(DigitsOf(code)) {
      FormattedIsValid(DigitsOf(code));
    }
  }

  lemma DigitIsListed(c: char)
    ensures IsDigit(c) <==> c in "0123456789"
  {
    if IsDigit(c) { assert "0123456789"[c as int - '0' as int] == c; }
  }

  /** `createMany`: every row or, when a code is taken or repeated, none. */
  function Generate(db: Db, card: CardId, minted: seq<Code>): (Db, Reply) {
    if card !in db.cards then (db, Refused(CardNotFound))
    else if !NoDuplicates(minted) || exists c :: c in minted && c in db.codes then (db, Refused(DuplicateCode))
    else (db.(codes := db.codes + map c | c in minted :: CardCode(card, None, false, None, None)), Generated(|minted|))
  }

  function Use(codes: Codes, code: Code, user: UserId, now: Time): Codes
    requires code in codes
  {
    codes[code := codes[code].(used := true, user := Some(user), usedAt := Some(now))]
  }

  predicate HoldsAnother(codes: Codes, user: UserId, code: Code)
    requires code in codes
  {
    exists c :: c in codes && codes[c].card == codes[code].card && codes[c].user == Some(user) && c != code
  }

  function Claim(db: Db, user: UserId, code: Code, now: Time): (Db, Reply)
    requires Linked(db)
  {
    if !IsValidCode(code) then (db, Refused(InvalidFormat))
    else if user !in db.users then (db, Refused(UserNotFound))
    else if code !in db.codes then (db, Refused(InvalidCode))
    else
      var row := db.codes[code];
      if row.user.Some? && row.user != Some(user) then (db, Refused(AssignedToAnother))
      else if db.users[user].school != Some(db.cards[row.card].school) then (db, Refused(OtherSchool))
      else if HoldsAnother(db.codes, user, code) then (db, Refused(AlreadyHasCard))
      else if row.used then (db, Refused(AlreadyUsed))
      else (db.(codes := Use(db.codes, code, user, now),
          users := db.users[user := db.users[user].(cardActive := true)]), Done)
  }

  function Activate(db: Db, user: UserId, code: Code, now: Time): (Db, Reply)
    requires Linked(db)
  {
    if code !in db.codes then (db, Refused(InvalidCode))
    else
      var (row, card) := (db.codes[code], db.cards[db.codes[code].card]);
      if row.used then (db, Refused(AlreadyUsed))
      else if card.blocked then (db, Refused(CardBlocked))
      else if now > card.validUntil then (db, Refused(CardExpired))
      else if user !in db.users then (db, Refused(UserNotFound))
      else (db.(codes := Use(db.codes, code, user, now)), Done)
  }

  /** A removed user's codes go back to the pool. */
  function Release(codes: Codes, user: UserId): Codes {
    map c | c in codes :: if codes[c].user == Some(user) then CardCode(codes[c].card, None, false, None, None)
      else codes[c]
  }

  function Remove(db: Db, user: UserId): (Db, Reply) {
    if user !in db.users then (db, Refused(UserNotFound))
    else (db.(codes := Release(db.codes, user), users := db.users - {user}), Done)
  }

  /** Every code's card exists, and so does its user; a used code has a user. */
  predicate Linked(db: Db) {
    forall c | c in db.codes :: RowLinked(db.codes[c], db.cards.Keys, db.users.Keys)
  }

  predicate RowLinked(row: CardCode, cards: set<CardId>, users: set<UserId>) {
    row.card in cards && (row.user.Some? ==> row.user.value in users) && (row.used ==> row.user.Some?)
  }

  // ----- One assignment -----

  /** Comparing lengths alone establishes that every id names a user and that none is repeated. */
  lemma LengthCheck(ids: seq<UserId>, users: map<UserId, User>)
    ensures |Found(ids, users)| == |ids| <==> NoDuplicates(ids) && forall u | u in ids :: u in users
  {
    MembersSize(ids);
    SubsetSize(Found(ids, users), Members(ids));
    hide NoDuplicates;
    if |Found(ids, users)| == |ids| {
      SubsetOfSameSize(Found(ids, users), Members(ids));
      forall u | u in ids ensures u in users { assert u in Members(ids); }
    }
    if forall u | u in ids :: u in users { assert Found(ids, users) == Members(ids); }
  }

  lemma {:induction false} ToAssignMembers(codes: Codes, card: CardId, ids: seq<UserId>)
    ensures forall u :: u in ToAssign(codes, card, ids) <==> u in ids && !Holds(codes, card, u)
  {
    hide Holds;
    if ids != [] {
      ToAssignMembers(codes, card, ids[1..]);
      assert ids == [ids[0]] + ids[1..];
    }
  }

  lemma TailNoDuplicates<T>(s: seq<T>)
    requires s != [] && NoDuplicates(s)
    ensures NoDuplicates(s[1..]) && s[0] !in s[1..]
  {
  }

  lemma HeadNoDuplicates<T>(head: T, tail: seq<T>)
    requires NoDuplicates(tail) && head !in tail
    ensures NoDuplicates([head] + tail)
  {
  }

  /** Who is to be served and who already is: together the ids, each once. */
  lemma {:induction false} ToAssignIsTheRest(codes: Codes, card: CardId, ids: seq<UserId>)
    ensures forall u :: u in ToAssign(codes, card, ids) <==> u in ids && !Holds(codes, card, u)
    ensures NoDuplicates(ids) ==> NoDuplicates(ToAssign(codes, card, ids))
    ensures NoDuplicates(ids) ==> |ToAssign(codes, card, ids)| + |AlreadyAssigned(codes, card, ids)| == |ids|
  {
    hide Holds, NoDuplicates;
    ToAssignMembers(codes, card, ids);
    if ids == [] {
      EmptyNoDuplicates<UserId>();
    } else if NoDuplicates(ids) {
      var (head, tail) := (ids[0], ids[1..]);
      TailNoDuplicates(ids);
      ToAssignIsTheRest(codes, card, tail);
      assert ids == [head] + tail;
      if Holds(codes, card, head) {
        assert ToAssign(codes, card, ids) == ToAssign(codes, card, tail);
        assert AlreadyAssigned(codes, card, ids) == {head} + AlreadyAssigned(codes, card, tail);
      } else {
        assert AlreadyAssigned(codes, card, ids) == AlreadyAssigned(codes, card, tail);
        HeadNoDuplicates(head, ToAssign(codes, card, tail));
      }
    }
  }

  lemma EmptyNoDuplicates<T>()
    ensures NoDuplicates<T>([])
  {
  }

  /** Between `codes` and `codes'`, user `u` got the free code `c` and nothing else about it changed. */
  predicate Got(codes: Codes, codes': Codes, card: CardId, now: Time, u: UserId, c: Code) {
    && c in codes && IsFree(codes[c], card)
    && c in codes' && codes'[c] == codes[c].(user := Some(u), assignedAt := Some(now))
  }

  /** Each of `users` got one free code of the card, no two the same, and every other code is as it was. */
  ghost predicate Served(codes: Codes, codes': Codes, card: CardId, users: seq<UserId>, now: Time) {
    && codes'.Keys == codes.Keys
    && (forall u | u in users :: exists c :: Got(codes, codes', card, now, u, c))
    && (forall u, c, d | Got(codes, codes', card, now, u, c) && Got(codes, codes', card, now, u, d) :: c == d)
    && (forall c | c in codes :: codes'[c] == codes[c] || exists u :: u in users && Got(codes, codes', card, now, u, c))
  }

  lemma GiveServes(codes: Codes, card: CardId, code: Code, user: UserId, now: Time)
    requires code in Free(codes, card)
    ensures Free(Give(codes, code, user, now), card) == Free(codes, card) - {code}
    ensures forall u :: Holds(Give(codes, code, user, now), card, u) <==> Holds(codes, card, u) || u == user
  {
    var given := Give(codes, code, user, now);
    forall u ensures Holds(given, card, u) <==> Holds(codes, card, u) || u == user {
      if Holds(codes, card, u) {
        var c :| c in codes && codes[c].card == card && codes[c].user == Some(u);
        assert given[c].card == card && given[c].user == Some(u);
      }
      assert given[code].card == card && given[code].user == Some(user);
    }
  }

  lemma ServedOneMore(codes: Codes, codes': Codes, card: CardId, code: Code, users: seq<UserId>, now: Time)
    requires users != [] && NoDuplicates(users) && code in Free(codes, card)
    requires Served(Give(codes, code, users[0], now), codes', card, users[1..], now)
    ensures Served(codes, codes', card, users, now)
  {
    var given := Give(codes, code, users[0], now);
    var rest := users[1..];
    assert users == [users[0]] + rest && users[0] !in rest;
    assert Got(codes, codes', card, now, users[0], code);
    forall u, c | Got(given, codes', card, now, u, c) ensures Got(codes, codes', card, now, u, c) && c != code {}
    forall u, c | Got(codes, codes', card, now, u, c)
      ensures if c == code then u == users[0] else u in rest && Got(given, codes', card, now, u, c)
    {
      if c != code { assert codes'[c] != given[c]; }
    }
  }

  /** The loop serves everyone if the pool is large enough, and otherwise fails. */
  lemma {:induction false} AllocateServes(codes: Codes, card: CardId, users: seq<UserId>, now: Time, pick: Picker)
    requires Picks(pick) && NoDuplicates(users)
    ensures Allocate(codes, card, users, now, pick).None? <==> |Free(codes, card)| < |users|
    ensures var r := Allocate(codes, card, users, now, pick);
            r.Some? ==>
              Served(codes, r.value, card, users, now) && |Free(r.value, card)| == |Free(codes, card)| - |users|
  {
    var free := Free(codes, card);
    if users != [] && free != {} {
      var code := pick(free);
      GiveServes(codes, card, code, users[0], now);
      AllocateServes(Give(codes, code, users[0], now), card, users[1..], now, pick);
      hide Served, Free;
      var r := Allocate(codes, card, users, now, pick);
      if r.Some? { ServedOneMore(codes, r.value, card, code, users, now); }
    }
  }

  /** What a caller can check before assigning. */
  ghost predicate Assignable(db: Db, card: CardId, ids: seq<UserId>) {
    && card in db.cards
    && NoDuplicates(ids)
    && (forall u | u in ids :: u in db.users && db.users[u].school == Some(db.cards[card].school))
    && |ToAssign(db.codes, card, ids)| <= |Free(db.codes, card)|
  }

  lemma AssignCardsCases(db: Db, card: CardId, ids: seq<UserId>, now: Time, pick: Picker)
    requires Picks(pick)
    ensures var (db', reply) := AssignCards(db, card, ids, now, pick);
            if Assignable(db, card, ids) then
              var toAssign := ToAssign(db.codes, card, ids);
              && reply.Assigned? && reply.served == |toAssign| && reply.served + reply.skipped == |ids|
              && db' == db.(codes := db'.codes)
              && Served(db.codes, db'.codes, card, toAssign, now)
              && |Free(db'.codes, card)| == |Free(db.codes, card)| - |toAssign|
            else db' == db && reply.Refused? && reply.why != PoolExhausted
  {
    hide Free, ToAssign, AlreadyAssigned, Served, NoDuplicates, Holds;
    if card in db.cards {
      LengthCheck(ids, db.users);
      ToAssignIsTheRest(db.codes, card, ids);
      if |Found(ids, db.users)| == |ids| {
        NoneForeign(Found(ids, db.users), db.users, db.cards[card].school);
        hide Found, Foreign;
        var toAssign := ToAssign(db.codes, card, ids);
        AllocateServes(db.codes, card, toAssign, now, pick);
      }
    }
  }

  lemma NoneForeign(found: set<UserId>, users: map<UserId, User>, school: SchoolId)
    requires found <= users.Keys
    ensures Foreign(found, users, school) == {} <==> forall u | u in found :: users[u].school == Some(school)
  {
    if Foreign(found, users, school) == {} {
      forall u | u in found ensures users[u].school == Some(school) { assert u !in Foreign(found, users, school); }
    }
  }

  /**
    An assignment, in either mode, succeeds exactly when the ids are distinct users of the card's school and the pool
    covers those who hold no code yet. Then every id holds a code; those who held none got one free code each, no two
    the same, and nothing else changed; the two counts add up to the number of ids; the pool shrank by the first. When
    it does not succeed, nothing changed, and the loop never ran dry after the batch pre-flight passed.
   */
  lemma AssignAllOrNothing(db: Db, card: CardId, ids: seq<UserId>, now: Time, pick: Picker)
    requires Picks(pick)
    ensures var (db', reply) := AssignCards(db, card, ids, now, pick);
            && (reply.Assigned? <==> Assignable(db, card, ids))
            && (reply.Assigned? ==>
                  && reply.served + reply.skipped == |ids| && reply.served == |ToAssign(db.codes, card, ids)|
                  && (forall u | u in ids :: Holds(db'.codes, card, u))
                  && Served(db.codes, db'.codes, card, ToAssign(db.codes, card, ids), now)
                  && |Free(db'.codes, card)| == |Free(db.codes, card)| - reply.served
                  && db'.users == db.users && db'.cards == db.cards)
            && (!reply.Assigned? ==> reply.Refused? && db' == db)
            && reply != Refused(PoolExhausted)
  {
    AssignCardsCases(db, card, ids, now, pick);
    ToAssignIsTheRest(db.codes, card, ids);
    var codes' := AssignCards(db, card, ids, now, pick).0.codes;
    hide AssignCards, Free, ToAssign;
    if Assignable(db, card, ids) {
      forall u | u in ids ensures Holds(codes', card, u) {
        ServedHold(db.codes, codes', card, ToAssign(db.codes, card, ids), now, u);
      }
    }
  }

  lemma ServedHold(codes: Codes, codes': Codes, card: CardId, users: seq<UserId>, now: Time, u: UserId)
    requires Served(codes, codes', card, users, now) && (u in users || Holds(codes, card, u))
    ensures Holds(codes', card, u)
  {
  }

  /** The two modes accept the same inputs and leave the same table. */
  lemma ModesAgree(db: Db, card: CardId, ids: seq<UserId>, now: Time, pick: Picker, other: Db)
    requires Picks(pick) && card in db.cards
    requires other == db.(cards := db.cards[card := db.cards[card].(batch := !db.cards[card].batch)])
    ensures var ((db1, r1), (db2, r2)) :=
            (AssignCards(db, card, ids, now, pick), AssignCards(other, card, ids, now, pick));
            db1.codes == db2.codes && db1.users == db2.users
            && (r1.Assigned? <==> r2.Assigned?) && (r1.Assigned? ==> r1 == r2)
  {
    AssignCardsCases(db, card, ids, now, pick);
    AssignCardsCases(other, card, ids, now, pick);
    hide Free, ToAssign, Served, Found, NoDuplicates, Allocate;
  }

  // ----- Runs -----

  datatype Call =
    | GenerateCall(card: CardId, minted: seq<Code>)
    | AssignCall(card: CardId, ids: seq<UserId>, at: Time)
    | ClaimCall(user: UserId, code: Code, at: Time)
    | ActivateCall(user: UserId, code: Code, at: Time)
    | RemoveCall(user: UserId)

  function Exec(db: Db, call: Call, pick: Picker): (Db, Reply)
    requires Linked(db) && Picks(pick)
  {
    match call
    case GenerateCall(card, minted) => Generate(db, card, minted)
    case AssignCall(card, ids, at) => AssignCards(db, card, ids, at, pick)
    case ClaimCall(user, code, at) => Claim(db, user, code, at)
    case ActivateCall(user, code, at) => Activate(db, user, code, at)
    case RemoveCall(user) => Remove(db, user)
  }

  lemma CallKeepsLinks(db: Db, call: Call, pick: Picker)
    requires Linked(db) && Picks(pick)
    ensures Linked(Exec(db, call, pick).0)
  {
    if call.AssignCall? {
      AssignCardsCases(db, call.card, call.ids, call.at, pick);
      ToAssignIsTheRest(db.codes, call.card, call.ids);
      hide AssignCards, ToAssign, Free;
    }
  }

  /** The tables just before call number `n`. */
  function Before(init: Db, calls: seq<Call>, pick: Picker, n: nat): (db: Db)
    requires n <= |calls| && Linked(init) && Picks(pick)
    ensures Linked(db)
  {
    if n == 0 then init else
    var db := Before(init, calls, pick, n - 1);
    CallKeepsLinks(db, calls[n - 1], pick);
    Exec(db, calls[n - 1], pick).0
  }

  predicate SameHolding(a: CardCode, b: CardCode) {
    a.card == b.card && a.user.Some? && a.user == b.user
  }

  /** No user holds two codes of one card. */
  ghost predicate OneCodeEach(codes: Codes) {
    forall c, d | c in codes && d in codes && SameHolding(codes[c], codes[d]) :: c == d
  }

  lemma ServedKeepsOne(codes: Codes, codes': Codes, card: CardId, users: seq<UserId>, now: Time)
    requires Served(codes, codes', card, users, now) && OneCodeEach(codes)
             && forall u | u in users :: !Holds(codes, card, u)
    ensures OneCodeEach(codes')
  {
  }

  lemma UseKeepsOne(codes: Codes, code: Code, user: UserId, now: Time)
    requires code in codes && OneCodeEach(codes)
    ensures OneCodeEach(Use(codes, code, user, now)) <==> !HoldsAnother(codes, user, code)
  {
    var codes' := Use(codes, code, user, now);
    if HoldsAnother(codes, user, code) {
      var c :| c in codes && codes[c].card == codes[code].card && codes[c].user == Some(user) && c != code;
      assert SameHolding(codes'[c], codes'[code]);
    } else {
      forall c, d | c in codes' && d in codes' && SameHolding(codes'[c], codes'[d]) ensures c == d {
        if c != code && d != code { assert SameHolding(codes[c], codes[d]); }
      }
    }
  }

  lemma CallKeepsOne(db: Db, call: Call, pick: Picker)
    requires Linked(db) && Picks(pick) && OneCodeEach(db.codes) && !call.ActivateCall?
    ensures OneCodeEach(Exec(db, call, pick).0.codes)
  {
    var codes' := Exec(db, call, pick).0.codes;
    match call
    case AssignCall(card, ids, at) =>
      AssignCardsCases(db, card, ids, at, pick);
      ToAssignIsTheRest(db.codes, card, ids);
      hide AssignCards, ToAssign, Served, OneCodeEach, Holds;
      if Assignable(db, card, ids) { ServedKeepsOne(db.codes, codes', card, ToAssign(db.codes, card, ids), at); }
    case ClaimCall(user, code, at) =>
      if code in db.codes { UseKeepsOne(db.codes, code, user, at); }
    case GenerateCall(_, _) =>
      forall c, d | c in codes' && d in codes' && SameHolding(codes'[c], codes'[d]) ensures c == d {
        assert SameHolding(db.codes[c], db.codes[d]);
      }
    case RemoveCall(_) =>
      forall c, d | c in codes' && d in codes' && SameHolding(codes'[c], codes'[d]) ensures c == d {
        assert SameHolding(db.codes[c], db.codes[d]);
      }
  }

  /** Over every run of generating, assigning, claiming and removing, no user ever holds two codes of one card. */
  lemma {:induction false} RunKeepsOneCodeEach(init: Db, calls: seq<Call>, pick: Picker, n: nat)
    requires n <= |calls| && Linked(init) && Picks(pick) && OneCodeEach(init.codes)
    requires forall k | 0 <= k < n :: !calls[k].ActivateCall?
    ensures OneCodeEach(Before(init, calls, pick, n).codes)
  {
    if n > 0 {
      RunKeepsOneCodeEach(init, calls, pick, n - 1);
      CallKeepsOne(Before(init, calls, pick, n - 1), calls[n - 1], pick);
    }
  }

  /** What a caller of `activateCard` can check beforehand. */
  predicate Activatable(db: Db, user: UserId, code: Code, now: Time)
    requires Linked(db)
  {
    && code in db.codes && !db.codes[code].used && user in db.users
    && !db.cards[db.codes[code].card].blocked && now <= db.cards[db.codes[code].card].validUntil
  }

  /**
    `activateCard` keeps that property exactly when the code cannot be activated or its caller holds no other code of
    the card.
   */
  lemma ActivateKeepsOneExactly(db: Db, user: UserId, code: Code, now: Time)
    requires Linked(db) && OneCodeEach(db.codes)
    ensures OneCodeEach(Activate(db, user, code, now).0.codes)
            <==> !(Activatable(db, user, code, now) && HoldsAnother(db.codes, user, code))
  {
    if code in db.codes { UseKeepsOne(db.codes, code, user, now); }
  }

  /** And it does break it: a student with an assigned code activates another code of the same card. */
  lemma ActivateMakesSecond()
    ensures var (first, second) := ("111-111-111-111", "222-222-222-222");
            var db := Db(map[0 := Card(0, true, false, 10)], map[7 := User(Some(0), false)],
                         map[first := CardCode(0, Some(7), false, Some(1), None),
                             second := CardCode(0, None, false, None, None)]);
            && IsValidCode(first) && IsValidCode(second) && Linked(db) && OneCodeEach(db.codes)
            && Activate(db, 7, second, 5).1 == Done && !OneCodeEach(Activate(db, 7, second, 5).0.codes)
  {
    var (first, second) := ("111-111-111-111", "222-222-222-222");
    assert first[0] != second[0];
    var db := Db(map[0 := Card(0, true, false, 10)], map[7 := User(Some(0), false)],
                 map[first := CardCode(0, Some(7), false, Some(1), None),
                     second := CardCode(0, None, false, None, None)]);
    var codes' := Activate(db, 7, second, 5).0.codes;
    assert SameHolding(codes'[first], codes'[second]);
  }

  predicate HeldBy(codes: Codes, code: Code, user: UserId) {
    code in codes && codes[code].user == Some(user)
  }

  /** The call takes a held code from its holder: the holder is removed, or somebody else activates it unused. */
  predicate TakesAway(db: Db, call: Call, code: Code, user: UserId)
    requires Linked(db)
  {
    || call == RemoveCall(user)
    || (call.ActivateCall? && call.code == code && call.user != user && Activatable(db, call.user, code, call.at))
  }

  /** `activateCard` does not ask whose code it is: a holder loses a code exactly by such a call. */
  lemma HolderLosesExactly(db: Db, call: Call, pick: Picker, code: Code, user: UserId)
    requires Linked(db) && Picks(pick) && HeldBy(db.codes, code, user)
    ensures HeldBy(Exec(db, call, pick).0.codes, code, user) <==> !TakesAway(db, call, code, user)
  {
    if call.AssignCall? {
      AssignCardsCases(db, call.card, call.ids, call.at, pick);
      hide AssignCards, ToAssign, Free;
    }
  }

  /** So through every run an assigned code stays with its holder, used or not, until a call that takes it away. */
  lemma {:induction false} HolderKeepsCode(init: Db, calls: seq<Call>, pick: Picker, n: nat, m: nat, code: Code,
      user: UserId)
    requires n <= m <= |calls| && Linked(init) && Picks(pick) && HeldBy(Before(init, calls, pick, n).codes, code, user)
    requires forall k | n <= k < m :: !TakesAway(Before(init, calls, pick, k), calls[k], code, user)
    ensures HeldBy(Before(init, calls, pick, m).codes, code, user)
  {
    if n < m {
      HolderKeepsCode(init, calls, pick, n, m - 1, code, user);
      HolderLosesExactly(Before(init, calls, pick, m - 1), calls[m - 1], pick, code, user);
    }
  }

  /** `code` was used by `user` at time `at`. */
  predicate UsedBy(codes: Codes, code: Code, user: UserId, at: Option<Time>) {
    code in codes && codes[code].used && codes[code].user == Some(user) && codes[code].usedAt == at
  }

  lemma CallKeepsUsed(db: Db, call: Call, pick: Picker, code: Code, user: UserId, at: Option<Time>)
    requires Linked(db) && Picks(pick) && UsedBy(db.codes, code, user, at)
    ensures var codes' := Exec(db, call, pick).0.codes;
            if call == RemoveCall(user) then code in codes' && IsFree(codes'[code], db.codes[code].card)
            else UsedBy(codes', code, user, at)
  {
    if call.AssignCall? {
      AssignCardsCases(db, call.card, call.ids, call.at, pick);
      hide AssignCards, ToAssign, Free;
    }
  }

  /** A used code keeps its owner and its activation time through every call until that owner is removed. */
  lemma {:induction false} UsedCodeKeepsOwner(
    init: Db, calls: seq<Call>, pick: Picker, n: nat, m: nat, code: Code, user: UserId, at: Option<Time>)
    requires n <= m <= |calls| && Linked(init) && Picks(pick)
    requires UsedBy(Before(init, calls, pick, n).codes, code, user, at)
    requires forall k | n <= k < m :: calls[k] != RemoveCall(user)
    ensures UsedBy(Before(init, calls, pick, m).codes, code, user, at)
    ensures m < |calls| && calls[m] == RemoveCall(user) ==>
              var codes' := Before(init, calls, pick, m + 1).codes;
              code in codes' && codes'[code].user.None? && !codes'[code].used
  {
    if n < m {
      UsedCodeKeepsOwner(init, calls, pick, n, m - 1, code, user, at);
      CallKeepsUsed(Before(init, calls, pick, m - 1), calls[m - 1], pick, code, user, at);
    }
    if m < |calls| { CallKeepsUsed(Before(init, calls, pick, m), calls[m], pick, code, user, at); }
  }

  /**
    What is generated can be claimed: right after codes have been generated for a card from digits, a student of the
    card's school who holds no code of it can claim any one of them, and nobody else can.
   */
  lemma GeneratedCodesAreClaimable(db: Db, card: CardId, digits: seq<seq<char>>, i: nat, user: UserId, now: Time)
    requires Linked(db) && i < |digits| && user in db.users
    requires forall d | d in digits :: |d| == 12 && forall k | 0 <= k < 12 :: IsDigit(d[k])
    requires Generate(db, card, FormattedAll(digits)).1.Generated?
    ensures var db' := Generate(db, card, FormattedAll(digits)).0;
            Linked(db') && (Claim(db', user, FormattedAll(digits)[i], now).1 == Done <==>
              db.users[user].school == Some(db.cards[card].school) && !Holds(db.codes, card, user))
  {
    hide Formatted, NoDuplicates, IsValidCode, IsDigit;
    FormattedIsValid(digits[i]);
    var (code, db') := (FormattedAll(digits)[i], Generate(db, card, FormattedAll(digits)).0);
    assert code in FormattedAll(digits);
    assert Linked(db') by { hide Claim, Holds, HoldsAnother; }
    if Holds(db.codes, card, user) {
      var c :| c in db.codes && db.codes[c].card == card && db.codes[c].user == Some(user);
      assert c in db'.codes && db'.codes[c] == db.codes[c];
    }
  }

  function FormattedAll(digits: seq<seq<char>>): seq<Code>
    requires forall d | d in digits :: |d| == 12
  {
    seq(|digits|, i requires 0 <= i < |digits| => Formatted(digits[i]))
  }

  // ----- Every code of a card is accounted for -----

  function CodesOf(codes: Codes, card: CardId): set<Code> {
    set c | c in codes && codes[c].card == card
  }

  function HeldCodes(codes: Codes, card: CardId): set<Code> {
    set c | c in codes && codes[c].card == card && codes[c].user.Some?
  }

  function Holders(db: Db, card: CardId): set<UserId> {
    set u | u in db.users && Holds(db.codes, card, u)
  }

  lemma {:induction false} SameSize<A, B>(a: set<A>, b: set<B>, f: A -> B)
    requires forall x | x in a :: f(x) in b
    requires forall x, y | x in a && y in a && f(x) == f(y) :: x == y
    requires forall z | z in b :: exists x :: x in a && f(x) == z
    ensures |a| == |b|
    decreases |a|
  {
    if x :| x in a {
      SameSize(a - {x}, b - {f(x)}, f);
    } else {
      assert b == {};
    }
  }

  function GeneratedFor(init: Db, calls: seq<Call>, pick: Picker, n: nat, card: CardId): nat
    requires n <= |calls| && Linked(init) && Picks(pick)
  {
    if n == 0 then 0 else
    GeneratedFor(init, calls, pick, n - 1, card) + MintedBy(Before(init, calls, pick, n - 1), calls[n - 1], pick, card)
  }

  /** How many codes a call adds to a card. */
  function MintedBy(db: Db, call: Call, pick: Picker, card: CardId): nat
    requires Linked(db) && Picks(pick)
  {
    var reply := Exec(db, call, pick).1;
    if reply.Generated? && call.GenerateCall? && call.card == card then reply.count else 0
  }

  lemma GenerateMintsCodes(db: Db, to: CardId, minted: seq<Code>, card: CardId)
    requires Generate(db, to, minted).1.Generated?
    ensures |CodesOf(Generate(db, to, minted).0.codes, card)| == |CodesOf(db.codes, card)| + if card == to then |minted|
            else 0
  {
    hide NoDuplicates;
    var codes' := Generate(db, to, minted).0.codes;
    MembersSize(minted);
    if card == to {
      assert CodesOf(codes', card) == CodesOf(db.codes, card) + Members(minted);
    } else {
      assert CodesOf(codes', card) == CodesOf(db.codes, card);
    }
  }

  /** Only generating adds or drops rows, and no call moves a code to another card. */
  lemma CallKeepsCards(db: Db, call: Call, pick: Picker)
    requires Linked(db) && Picks(pick)
    ensures var (db', reply) := Exec(db, call, pick);
            !(call.GenerateCall? && reply.Generated?) ==>
              db'.codes.Keys == db.codes.Keys && forall c | c in db.codes :: db'.codes[c].card == db.codes[c].card
    ensures Exec(db, call, pick).1.Generated? ==> call.GenerateCall? && Exec(db, call, pick).1.count == |call.minted|
  {
    if call.AssignCall? {
      AssignCardsCases(db, call.card, call.ids, call.at, pick);
      hide AssignCards, ToAssign, Free;
    }
  }

  lemma CallMintsCodes(db: Db, call: Call, pick: Picker, card: CardId)
    requires Linked(db) && Picks(pick)
    ensures |CodesOf(Exec(db, call, pick).0.codes, card)| == |CodesOf(db.codes, card)| + MintedBy(db, call, pick, card)
  {
    hide Generate, AssignCards, Claim, Activate, Remove;
    CallKeepsCards(db, call, pick);
    if Exec(db, call, pick).1.Generated? {
      GenerateMintsCodes(db, call.card, call.minted, card);
    } else {
      assert CodesOf(Exec(db, call, pick).0.codes, card) == CodesOf(db.codes, card);
    }
  }

  lemma {:induction false} GeneratedAddUp(init: Db, calls: seq<Call>, pick: Picker, n: nat, card: CardId)
    requires n <= |calls| && Linked(init) && Picks(pick)
    ensures |CodesOf(Before(init, calls, pick, n).codes, card)|
         == |CodesOf(init.codes, card)| + GeneratedFor(init, calls, pick, n, card)
  {
    hide Exec, CodesOf, Linked, Picks, MintedBy;
    if n > 0 {
      var (db, call) := (Before(init, calls, pick, n - 1), calls[n - 1]);
      assert Before(init, calls, pick, n) == Exec(db, call, pick).0;
      assert GeneratedFor(init, calls, pick, n, card) == GeneratedFor(init, calls, pick, n - 1, card)
          + MintedBy(db, call, pick, card);
      hide Before, GeneratedFor;
      GeneratedAddUp(init, calls, pick, n - 1, card);
      CallMintsCodes(db, call, pick, card);
    }
  }

  lemma PoolIsFreeAndHeld(db: Db, card: CardId)
    requires Linked(db) && OneCodeEach(db.codes)
    ensures |Free(db.codes, card)| + |Holders(db, card)| == |CodesOf(db.codes, card)|
  {
    var (codes, held) := (db.codes, HeldCodes(db.codes, card));
    assert CodesOf(codes, card) == Free(codes, card) + held;
    var owner := c => if c in codes && codes[c].user.Some? then codes[c].user.value else 0;
    forall c, d | c in held && d in held && owner(c) == owner(d) ensures c == d {
      assert SameHolding(codes[c], codes[d]);
    }
    forall u | u in Holders(db, card) ensures exists c :: c in held && owner(c) == u {
      var c :| c in codes && codes[c].card == card && codes[c].user == Some(u);
      assert c in held && owner(c) == u;
    }
    forall c | c in held ensures owner(c) in Holders(db, card) {
      assert Holds(codes, card, owner(c));
    }
    SameSize(held, Holders(db, card), owner);
  }

  /** After every run without `activateCard`, a card's free codes and its holders add up to the codes it ever got. */
  lemma PoolAccounts(init: Db, calls: seq<Call>, pick: Picker, n: nat, card: CardId)
    requires n <= |calls| && Linked(init) && Picks(pick) && OneCodeEach(init.codes)
    requires forall k | 0 <= k < n :: !calls[k].ActivateCall?
    ensures var db := Before(init, calls, pick, n);
            |Free(db.codes, card)| + |Holders(db, card)| == |CodesOf(init.codes, card)|
            + GeneratedFor(init, calls, pick, n, card)
  {
    RunKeepsOneCodeEach(init, calls, pick, n);
    PoolIsFreeAndHeld(Before(init, calls, pick, n), card);
    GeneratedAddUp(init, calls, pick, n, card);
  }

  // ----- What decides a call, and on what grounds codes are held -----

  /**
    What a student can check before claiming: a free or own unused code, of a card of the own school, and the first.
   */
  ghost predicate Claimable(db: Db, user: UserId, code: Code)
    requires Linked(db)
  {
    && IsValidCode(code) && code in db.codes && user in db.users
    && !db.codes[code].used && (db.codes[code].user == None || db.codes[code].user == Some(user))
    && db.users[user].school == Some(db.cards[db.codes[code].card].school)
    && forall c | c in db.codes && c != code && db.codes[c].card == db.codes[code].card ::
         db.codes[c].user != Some(user)
  }

  /** Only this code has changed: it is now used, by this user, since now. */
  predicate UsedNow(codes: Codes, codes': Codes, code: Code, user: UserId, now: Time) {
    code in codes
    && codes' == codes[code := CardCode(codes[code].card, Some(user), true, codes[code].assignedAt, Some(now))]
  }

  lemma ClaimDecides(db: Db, user: UserId, code: Code, now: Time)
    requires Linked(db)
    ensures var (db', reply) := Claim(db, user, code, now);
            && (reply == Done <==> Claimable(db, user, code))
            && (reply == Done ==>
                  && UsedNow(db.codes, db'.codes, code, user, now) && db'.cards == db.cards
                  && db'.users == db.users[user := db.users[user].(cardActive := true)])
            && (reply != Done ==> reply.Refused? && db' == db)
            && (reply == Refused(AssignedToAnother) ==>
                  code in db.codes && db.codes[code].user.Some? && db.codes[code].user != Some(user))
            && (reply == Refused(AlreadyHasCard) ==> code in db.codes && HoldsAnother(db.codes, user, code))
            && (reply == Refused(AlreadyUsed) ==> code in db.codes && db.codes[code].used)
  {
    hide IsValidCode;
  }

  lemma ActivateDecides(db: Db, user: UserId, code: Code, now: Time)
    requires Linked(db)
    ensures var (db', reply) := Activate(db, user, code, now);
            && (reply == Done <==> Activatable(db, user, code, now))
            && (reply == Done ==>
                  UsedNow(db.codes, db'.codes, code, user, now) && db'.cards == db.cards && db'.users == db.users)
            && (reply != Done ==> reply.Refused? && db' == db)
            && (reply == Refused(CardBlocked) ==> code in db.codes && db.cards[db.codes[code].card].blocked)
            && (reply == Refused(CardExpired) ==> code in db.codes && now > db.cards[db.codes[code].card].validUntil)
  {
  }

  /** Generating adds one free code per text, exactly if the card exists and no text is repeated or taken. */
  lemma GenerateDecides(db: Db, card: CardId, minted: seq<Code>)
    ensures var (db', reply) := Generate(db, card, minted);
            && (reply == Generated(|minted|)
                <==> card in db.cards && NoDuplicates(minted) && forall c | c in minted :: c !in db.codes)
            && (reply.Generated? ==>
                  && db' == db.(codes := db'.codes)
                  && (forall c :: c in db'.codes <==> c in db.codes || c in minted)
                  && (forall c | c in db.codes :: db'.codes[c] == db.codes[c])
                  && forall c | c in minted :: IsFree(db'.codes[c], card) && db'.codes[c].assignedAt == None)
            && (!reply.Generated? ==> reply.Refused? && db' == db)
  {
    hide NoDuplicates;
  }

  /** A removal takes the account and frees exactly its codes; refused exactly without such an account. */
  lemma RemovalDecides(db: Db, user: UserId)
    ensures var (db', reply) := Remove(db, user);
            && (reply == Done <==> user in db.users) && (reply != Done ==> reply == Refused(UserNotFound) && db' == db)
            && (reply == Done ==>
                  && db'.cards == db.cards && db'.users == db.users - {user} && db'.codes.Keys == db.codes.Keys
                  && forall c | c in db.codes ::
                       if db.codes[c].user == Some(user) then
                         IsFree(db'.codes[c], db.codes[c].card)
                             && db'.codes[c].assignedAt == db'.codes[c].usedAt == None
                       else db'.codes[c] == db.codes[c])
  {
  }

  /** The call gives the user the code, on the grounds that its kind of call asks for. */
  ghost predicate GivenBy(db: Db, call: Call, code: Code, user: UserId)
    requires Linked(db)
  {
    code in db.codes
    && match call
       case AssignCall(card, ids, _) =>
         && Assignable(db, card, ids) && user in ids && !Holds(db.codes, card, user) && IsFree(db.codes[code], card)
       case ClaimCall(u, c, _) => u == user && c == code && Claimable(db, user, code)
       case ActivateCall(u, c, at) => u == user && c == code && Activatable(db, user, code, at)
       case _ => false
  }

  lemma GivingStep(db: Db, call: Call, pick: Picker, code: Code, user: UserId)
    requires Linked(db) && Picks(pick)
    requires !HeldBy(db.codes, code, user) && HeldBy(Exec(db, call, pick).0.codes, code, user)
    ensures GivenBy(db, call, code, user)
  {
    match call
    case AssignCall(card, ids, at) =>
      AssignCardsCases(db, card, ids, at, pick);
      ToAssignMembers(db.codes, card, ids);
      hide AssignCards, ToAssign, Free, Holds, Linked;
      var u :| u in ToAssign(db.codes, card, ids) && Got(db.codes, Exec(db, call, pick).0.codes, card, at, u, code);
    case ClaimCall(u, c, at) => ClaimDecides(db, u, c, at); hide Claim, Claimable;
    case ActivateCall(u, c, at) => ActivateDecides(db, u, c, at); hide Activate, Activatable;
    case GenerateCall(card, minted) => GenerateDecides(db, card, minted); hide Generate, NoDuplicates;
    case RemoveCall(_) =>
  }

  /**
    Every code is held on good grounds. In every run, for a code that somebody has come to hold there is the call that
    gave it: an assignment of a free code to an id among distinct students of the card's school who held none; a claim,
    in valid form, of a free or own unused code by a student of the card's school without another; or an activation of
    an unused code of a card that is neither blocked nor expired.
   */
  lemma {:induction false} EveryCodeWasDue(init: Db, calls: seq<Call>, pick: Picker, n: nat, code: Code, user: UserId)
    requires n <= |calls| && Linked(init) && Picks(pick)
    requires !HeldBy(init.codes, code, user) && HeldBy(Before(init, calls, pick, n).codes, code, user)
    ensures exists k: nat :: k < n && GivenBy(Before(init, calls, pick, k), calls[k], code, user)
  {
    hide Exec, Linked, Picks, HeldBy, GivenBy;
    if n > 0 {
      var db := Before(init, calls, pick, n - 1);
      if HeldBy(db.codes, code, user) {
        EveryCodeWasDue(init, calls, pick, n - 1, code, user);
      } else {
        GivingStep(db, calls[n - 1], pick, code, user);
        assert GivenBy(Before(init, calls, pick, n - 1), calls[n - 1], code, user);
      }
    }
  }
}

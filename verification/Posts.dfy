/**
  Posts and polls (`posts/posts.service.ts`): how a stored post is formatted, what poll percentages promise, and the
  overlay that adds one user's vote to posts read from a shared cache.
 */
module Posts {
  import opened Prelude

  type PostId = string
  type UserId = nat
  type OptionId = nat
  type CommentId = nat

  datatype Kind = Text | Countdown | Poll

  /** A post's own columns; its options never change after creation. `scheduledAt` is when it is to be published. */
  datatype Post = Post(kind: Kind, body: string, scheduledAt: Option<Time>, expiresAt: Option<Time>,
      options: seq<OptionId>)

  /** The schema allows one vote per post and user, which makes the pair the key of a vote. */
  datatype Ballot = Ballot(post: PostId, user: UserId)

  type Votes = map<Ballot, OptionId>

  datatype Db = Db(posts: map<PostId, Post>, likes: set<Ballot>, comments: map<CommentId, PostId>, votes: Votes)

  /** Every vote is for an option of its post, and no option belongs to two posts or appears twice. */
  ghost predicate DbInv(db: Db) {
    && (forall b | b in db.votes :: b.post in db.posts && db.votes[b] in db.posts[b.post].options)
    && OptionsApart(db.posts)
  }

  ghost predicate OptionsApart(posts: map<PostId, Post>) {
    forall p, q, i, j | p in posts && q in posts && 0 <= i < |posts[p].options| && 0 <= j < |posts[q].options|
                        && posts[p].options[i] == posts[q].options[j] :: p == q && i == j
  }

  // ----- What a query returns -----

  datatype RawOption = RawOption(id: OptionId, votes: nat)

  /** A post with its counts, and without anyone's own vote: the part that may be shared between users. */
  datatype Raw = Raw(id: PostId, kind: Kind, body: string, scheduledAt: Option<Time>, expiresAt: Option<Time>,
      likes: nat, comments: nat, options: seq<RawOption>)

  function Voters(votes: Votes, post: PostId): set<UserId> {
    set b | b in votes && b.post == post :: b.user
  }

  function BallotsFor(votes: Votes, option: OptionId): set<Ballot> {
    set b | b in votes && votes[b] == option
  }

  function CountOptions(votes: Votes, options: seq<OptionId>): seq<RawOption> {
    seq(|options|, i requires 0 <= i < |options| => RawOption(options[i], |BallotsFor(votes, options[i])|))
  }

  function LikesOf(db: Db, id: PostId): set<Ballot> {
    set b | b in db.likes && b.post == id
  }

  function LikeCount(db: Db, id: PostId): nat {
    |LikesOf(db, id)|
  }

  function CommentsOf(db: Db, id: PostId): set<CommentId> {
    set c | c in db.comments && db.comments[c] == id
  }

  function CommentCount(db: Db, id: PostId): nat {
    |CommentsOf(db, id)|
  }

  function RawOf(db: Db, id: PostId): Raw
    requires id in db.posts
  {
    var p := db.posts[id];
    Raw(id, p.kind, p.body, p.scheduledAt, p.expiresAt, LikeCount(db, id), CommentCount(db, id),
        CountOptions(db.votes, p.options))
  }

  // ----- Formatting -----

  datatype OptionView = OptionView(id: OptionId, votes: nat, percentage: nat)

  datatype PollView = PollView(expiresAt: Option<Time>, expired: bool, options: seq<OptionView>,
      voted: Option<OptionId>, total: nat)

  datatype View = View(id: PostId, kind: Kind, body: string, scheduledAt: Option<Time>, likes: nat, comments: nat,
      poll: Option<PollView>)

  function TotalVotes(options: seq<RawOption>): nat {
    if options == [] then 0 else TotalVotes(options[..|options| - 1]) + options[|options| - 1].votes
  }

  function OptionViews(options: seq<RawOption>): seq<OptionView> {
    var total := TotalVotes(options);
    seq(|options|, i requires 0 <= i < |options| =>
      OptionView(options[i].id, options[i].votes, if total > 0 then Percent(options[i].votes, total) else 0))
  }

  /** `formatPost`: only a poll shows options, and among them the user's own vote. */
  function FormatPost(raw: Raw, own: Option<OptionId>, now: Time): View {
    View(raw.id, raw.kind, raw.body, raw.scheduledAt, raw.likes, raw.comments,
         if raw.kind != Poll then None else
         Some(PollView(raw.expiresAt, raw.expiresAt.Some? && raw.expiresAt.value < now, OptionViews(raw.options), own,
                       TotalVotes(raw.options))))
  }

  // ----- What a view shows -----

  /** `p` is the whole percentage nearest to votes / total, a half rounding up, and 0 without any votes. */
  predicate Nearest(p: nat, votes: nat, total: nat) {
    if total == 0 then p == 0
    else 200 * votes < 2 * (total * p) + total && 2 * (total * p) <= 200 * votes + total
  }

  /** The figures of a poll: for each option, in order, its votes and the nearest percentage. */
  predicate Figures(shown: seq<OptionView>, options: seq<RawOption>) {
    && |shown| == |options|
    && forall i | 0 <= i < |shown| ::
         && shown[i].id == options[i].id && shown[i].votes == options[i].votes
         && Nearest(shown[i].percentage, options[i].votes, TotalVotes(options))
  }

  /**
    What a reader with this vote of their own is to see of a post: its columns and counts; and for a poll, and only for
    a poll, that vote, whether it is over, the total and the figures.
   */
  predicate Shows(view: View, raw: Raw, own: Option<OptionId>, now: Time) {
    && view.id == raw.id && view.kind == raw.kind && view.body == raw.body && view.scheduledAt == raw.scheduledAt
    && view.likes == raw.likes && view.comments == raw.comments
    && (view.poll.Some? <==> raw.kind == Poll)
    && (view.poll.Some? ==>
          var poll := view.poll.value;
          && poll.voted == own && poll.total == TotalVotes(raw.options) && Figures(poll.options, raw.options)
          && poll.expiresAt == raw.expiresAt
          && (poll.expired <==> raw.expiresAt.Some? && raw.expiresAt.value < now))
  }

  /** There is one such view, and it is what `formatPost` makes. */
  lemma ViewIsExact(view: View, raw: Raw, own: Option<OptionId>, now: Time)
    ensures Shows(view, raw, own, now) <==> view == FormatPost(raw, own, now)
  {
    FiguresAreExact(OptionViews(raw.options), raw.options);
    if view.poll.Some? { FiguresAreExact(view.poll.value.options, raw.options); }
    hide Figures, OptionViews, TotalVotes;
  }

  lemma FiguresAreExact(shown: seq<OptionView>, options: seq<RawOption>)
    ensures Figures(shown, options) <==> shown == OptionViews(options)
  {
    var (total, views) := (TotalVotes(options), OptionViews(options));
    hide TotalVotes, Percent, Nearest;
    forall i | 0 <= i < |options| ensures Nearest(views[i].percentage, options[i].votes, total) {
      PercentageIsNearest(views[i].percentage, options[i].votes, total);
    }
    if Figures(shown, options) {
      forall i | 0 <= i < |options| ensures shown[i] == views[i] {
        PercentageIsNearest(shown[i].percentage, options[i].votes, total);
      }
    }
  }

  lemma PercentageIsNearest(p: nat, votes: nat, total: nat)
    ensures Nearest(p, votes, total) <==> p == if total > 0 then Percent(votes, total) else 0
  {
    if total > 0 {
      PercentIsNearest(votes, total);
      var q := Percent(votes, total);
      hide Percent;
      if p < q { LargerProduct(total, p, q); }
      if q < p { LargerProduct(total, q, p); }
    }
  }

  // ----- Poll figures -----

  function SumPercent(options: seq<RawOption>, total: nat): nat
    requires total > 0
  {
    if options == [] then 0 else
    SumPercent(options[..|options| - 1], total) + Percent(options[|options| - 1].votes, total)
  }

  lemma {:induction false} SumIsNear(options: seq<RawOption>, total: nat)
    requires total > 0
    ensures 2 * (total * SumPercent(options, total)) <= 200 * TotalVotes(options) + |options| * total
    ensures 200 * TotalVotes(options) <= 2 * (total * SumPercent(options, total)) + |options| * total
  {
    if options != [] {
      var (before, last) := (options[..|options| - 1], options[|options| - 1]);
      SumIsNear(before, total);
      PercentIsNearest(last.votes, total);
      hide Percent;
      OneMoreIsNear(total, SumPercent(before, total), Percent(last.votes, total), TotalVotes(before), last.votes,
          |before|);
    }
  }

  lemma OneMoreIsNear(total: nat, sum: nat, p: nat, votes: nat, more: nat, n: nat)
    requires 2 * (total * sum) <= 200 * votes + n * total && 200 * votes <= 2 * (total * sum) + n * total
    requires 200 * more < 2 * (total * p) + total && 2 * (total * p) <= 200 * more + total
    ensures 2 * (total * (sum + p)) <= 200 * (votes + more) + (n + 1) * total
    ensures 200 * (votes + more) <= 2 * (total * (sum + p)) + (n + 1) * total
  {
  }

  lemma {:induction false} NoMoreThanTotal(options: seq<RawOption>, i: nat)
    requires i < |options|
    ensures options[i].votes <= TotalVotes(options)
  {
    if i < |options| - 1 { NoMoreThanTotal(options[..|options| - 1], i); }
  }

  lemma LargerProduct(factor: nat, small: int, large: int)
    requires small < large
    ensures factor * small + factor <= factor * large
  {
    ProductGrows(factor, small + 1, large);
  }

  lemma PercentGrows(a: nat, b: nat, total: nat)
    requires a <= b && total > 0
    ensures Percent(a, total) <= Percent(b, total)
  {
    PercentIsNearest(a, total);
    PercentIsNearest(b, total);
    hide Percent;
    if Percent(a, total) > Percent(b, total) { LargerProduct(total, Percent(b, total), Percent(a, total)); }
  }

  /**
    For every poll with votes: each percentage is between 0 and 100, more votes never show a smaller one, and over n
    options they add up to 100 give or take n / 2. Without votes all are 0.
   */
  lemma PollPercentages(options: seq<RawOption>)
    ensures var (total, views) := (TotalVotes(options), OptionViews(options));
            && |views| == |options|
            && (forall i | 0 <= i < |views| ::
                  views[i].id == options[i].id && views[i].votes == options[i].votes && views[i].percentage <= 100)
            && (forall i, j | 0 <= i < |views| && 0 <= j < |views| && views[i].votes <= views[j].votes ::
                  views[i].percentage <= views[j].percentage)
            && (total > 0 ==> -|options| <= 2 * SumPercent(options, total) - 200 <= |options|)
            && (total == 0 ==> forall i | 0 <= i < |views| :: views[i].percentage == 0)
  {
    var total := TotalVotes(options);
    if total > 0 {
      hide Percent, SumPercent, TotalVotes;
      forall i | 0 <= i < |options| ensures Percent(options[i].votes, total) <= 100 {
        NoMoreThanTotal(options, i);
        PercentInRange(options[i].votes, total);
      }
      forall i, j | 0 <= i < |options| && 0 <= j < |options| && options[i].votes <= options[j].votes
        ensures Percent(options[i].votes, total) <= Percent(options[j].votes, total)
      {
        PercentGrows(options[i].votes, options[j].votes, total);
      }
      SumWithinHalfEach(options);
    }
  }

  lemma SumWithinHalfEach(options: seq<RawOption>)
    requires TotalVotes(options) > 0
    ensures -|options| <= 2 * SumPercent(options, TotalVotes(options)) - 200 <= |options|
  {
    var total := TotalVotes(options);
    SumIsNear(options, total);
    hide SumPercent, TotalVotes;
    var off := 2 * SumPercent(options, total) - 200;
    assert total * off == 2 * (total * SumPercent(options, total)) - 200 * total;
    DivideOut(total, off, |options|);
  }

  lemma DivideOut(factor: nat, a: int, b: int)
    requires factor > 0 && -(factor * b) <= factor * a <= factor * b
    ensures -b <= a <= b
  {
  }

  /** The bound on the sum is reached: one vote against 199 shows 1 % and 100 %. */
  lemma PercentagesCanMissByHalfPerOption()
    ensures var options := [RawOption(0, 1), RawOption(1, 199)];
            TotalVotes(options) == 200 && 2 * SumPercent(options, 200) - 200 == |options|
  {
  }

  // ----- The total is the number of voters -----

  function BallotsForAny(votes: Votes, options: seq<OptionId>): set<Ballot> {
    set b | b in votes && votes[b] in options
  }

  lemma {:induction false} TotalCountsBallots(votes: Votes, options: seq<OptionId>)
    requires NoDuplicates(options)
    ensures TotalVotes(CountOptions(votes, options)) == |BallotsForAny(votes, options)|
  {
    if options != [] {
      var (before, last) := (options[..|options| - 1], options[|options| - 1]);
      TotalCountsBallots(votes, before);
      assert CountOptions(votes, options)[..|options| - 1] == CountOptions(votes, before);
      assert options == before + [last] && last !in before;
      assert BallotsForAny(votes, options) == BallotsForAny(votes, before) + BallotsFor(votes, last);
      assert BallotsForAny(votes, before) !! BallotsFor(votes, last);
    }
  }

  lemma {:induction false} OneBallotPerUser(ballots: set<Ballot>, post: PostId)
    requires forall b | b in ballots :: b.post == post
    ensures |ballots| == |set b | b in ballots :: b.user|
    decreases |ballots|
  {
    if b :| b in ballots {
      var rest := ballots - {b};
      OneBallotPerUser(rest, post);
      assert (set x | x in ballots :: x.user) == (set x | x in rest :: x.user) + {b.user};
    }
  }

  /** A poll's total is the number of distinct users who voted on it. */
  lemma TotalIsVoters(db: Db, id: PostId)
    requires DbInv(db) && id in db.posts
    ensures TotalVotes(RawOf(db, id).options) == |Voters(db.votes, id)|
  {
    var options := db.posts[id].options;
    TotalCountsBallots(db.votes, options);
    var ballots := BallotsForAny(db.votes, options);
    assert forall b | b in ballots :: b.post == id;
    OneBallotPerUser(ballots, id);
    assert Voters(db.votes, id) == set b | b in ballots :: b.user;
  }

  // ----- One user's votes laid over shared posts -----

  /** The direct query: the user's own vote on the post. */
  function Direct(votes: Votes, post: PostId, user: UserId): Option<OptionId> {
    if Ballot(post, user) in votes then Some(votes[Ballot(post, user)]) else None
  }

  function OptionIds(raw: Raw): seq<OptionId> {
    seq(|raw.options|, i requires 0 <= i < |raw.options| => raw.options[i].id)
  }

  function AllOptionIds(raws: seq<Raw>): seq<OptionId> {
    if raws == [] then [] else AllOptionIds(raws[..|raws| - 1]) + OptionIds(raws[|raws| - 1])
  }

  /** The rows of `pollVote.findMany({ userId, optionId in options })`, by option. */
  function VotesAmong(votes: Votes, user: UserId, options: seq<OptionId>): set<OptionId> {
    set b | b in votes && b.user == user && votes[b] in options :: votes[b]
  }

  /** A shared copy still names its post's options; once the post is gone nobody votes on them. */
  ghost predicate FitsDb(db: Db, raw: Raw) {
    if raw.id in db.posts then OptionIds(raw) == db.posts[raw.id].options
    else forall b | b in db.votes :: db.votes[b] !in OptionIds(raw)
  }

  /** A vote for an option of a shared post is a vote on that post. */
  lemma VoteTellsPost(db: Db, raw: Raw, b: Ballot)
    requires DbInv(db) && FitsDb(db, raw) && b in db.votes && db.votes[b] in OptionIds(raw)
    ensures raw.id == b.post
  {
  }

  /** What a user's own vote on a shared post is found to be, by searching the post's options: the direct query. */
  lemma VotesAmongIsDirect(db: Db, raw: Raw, user: UserId)
    requires DbInv(db) && FitsDb(db, raw)
    ensures VotesAmong(db.votes, user, OptionIds(raw))
         == match Direct(db.votes, raw.id, user) case None => {} case Some(option) => {option}
  {
    var found := VotesAmong(db.votes, user, OptionIds(raw));
    forall b | b in db.votes && b.user == user && db.votes[b] in OptionIds(raw) ensures b == Ballot(raw.id, user) {
      VoteTellsPost(db, raw, b);
    }
    var own := Ballot(raw.id, user);
    if own in db.votes { assert db.votes[own] in OptionIds(raw); }
  }
}

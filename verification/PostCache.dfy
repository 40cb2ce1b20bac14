/**
  The shared cache in front of posts (`cache/cache.service.ts`, `cache/cache-keys.ts` and the reads, writes and
  invalidations of `posts/posts.service.ts`): entries that expire, writes that delete the entries they outdate, and runs
  of both in which any deletion may be lost.
 */
module PostCache {
  import opened Prelude
  import opened Posts

  type Key = string

  const FEED_TTL_MS: nat := 30 * 1000
  const LIST_TTL_MS: nat := 60 * 1000
  const POST_TTL_MS: nat := 60 * 1000

  const BASE_PREFIX: string := "posts:base:"
  const FEED_PREFIX: string := "feed:base:"
  const LIST_PREFIX: string := "posts:list:"

  function PostBase(id: PostId): Key {
    BASE_PREFIX + id
  }

  /** The keys of feed pages and post lists; `rest` names the school and page, or digests the parameters. */
  function PageKey(feed: bool, rest: string): Key {
    (if feed then FEED_PREFIX else LIST_PREFIX) + rest
  }

  predicate HasPrefix(key: Key, prefix: string) {
    prefix <= key
  }

  predicate IsPageKey(key: Key) {
    HasPrefix(key, FEED_PREFIX) || HasPrefix(key, LIST_PREFIX)
  }

  lemma KeysTell(id: PostId, other: PostId, feed: bool, rest: string)
    ensures PostBase(id) == PostBase(other) ==> id == other
    ensures !IsPageKey(PostBase(id)) && IsPageKey(PageKey(feed, rest))
  {
    assert PostBase(id)[11..] == id && PostBase(other)[11..] == other;
    assert PostBase(id)[0] == 'p' && PostBase(id)[6] == 'b';
    assert FEED_PREFIX[0] == 'f' && LIST_PREFIX[6] == 'l';
  }

  datatype Cached = One(raw: Raw) | Many(total: nat, posts: seq<Raw>)

  datatype Entry = Entry(value: Cached, deadline: Time)

  type Cache = map<Key, Entry>

  function Get(cache: Cache, key: Key, now: Time): Option<Cached> {
    if key in cache && now <= cache[key].deadline then Some(cache[key].value) else None
  }

  // ----- Calls -----

  /**
    One call of the posts service or one run of the publishing job, taken whole. `up` says whether a read reaches the
    cache; `answer` is what the query behind a feed page or list selects.
   */
  datatype Call =
    | ReadOne(id: PostId, up: bool)
    | ReadPage(feed: bool, rest: string, total: nat, answer: seq<PostId>, up: bool)
    | Create(id: PostId, post: Post)
    | Update(id: PostId, kind: Kind, body: string, scheduledAt: Option<Time>)
    | Remove(id: PostId)
    | Like(id: PostId, user: UserId)
    | AddComment(id: PostId, comment: CommentId)
    | DeleteComment(comment: CommentId)
    | Vote(id: PostId, user: UserId, option: OptionId)
    | Publish(now: Time)

  /** A call, its instant, and the cache keys whose deletion fails during it. */
  datatype Step = Step(call: Call, at: Time, lost: set<Key>)

  datatype Sys = Sys(db: Db, cache: Cache)

  predicate AllExist(db: Db, answer: seq<PostId>) {
    forall i | 0 <= i < |answer| :: answer[i] in db.posts
  }

  function RawsOf(db: Db, answer: seq<PostId>): seq<Raw>
    requires AllExist(db, answer)
  {
    seq(|answer|, i requires 0 <= i < |answer| => RawOf(db, answer[i]))
  }

  /** What the database answers to a read, if it finds anything. */
  function FromDb(db: Db, call: Call): Option<Cached> {
    match call
    case ReadOne(id, _) => if id in db.posts then Some(One(RawOf(db, id))) else None
    case ReadPage(_, _, total, answer, _) => if AllExist(db, answer) then Some(Many(total, RawsOf(db, answer)))
      else None
    case _ => None
  }

  function KeyOf(call: Call): Key
    requires call.ReadOne? || call.ReadPage?
  {
    if call.ReadOne? then PostBase(call.id) else PageKey(call.feed, call.rest)
  }

  function Ttl(call: Call): nat {
    if call.ReadOne? then POST_TTL_MS else if call.ReadPage? && call.feed then FEED_TTL_MS else LIST_TTL_MS
  }

  /** Cached value if alive, else the database's, which is then stored. */
  function Read(s: Sys, call: Call, now: Time): (Cache, Option<Cached>)
    requires call.ReadOne? || call.ReadPage?
  {
    var hit := if call.up then Get(s.cache, KeyOf(call), now) else None;
    if hit.Some? then (s.cache, hit) else
    var found := FromDb(s.db, call);
    (if call.up && found.Some? then s.cache[KeyOf(call) := Entry(found.value, now + Ttl(call))] else s.cache, found)
  }

  /** Whether a creation is what the service and the database allow: a new id, and new options. */
  ghost predicate NewPost(db: Db, id: PostId, post: Post) {
    && id !in db.posts
    && NoDuplicates(post.options)
    && (forall p, o | p in db.posts && o in db.posts[p].options :: o !in post.options)
    && (forall b | b in db.likes :: b.post != id) && (forall c | c in db.comments :: db.comments[c] != id)
  }

  predicate Due(post: Post, now: Time) {
    post.scheduledAt.Some? && post.scheduledAt.value <= now
  }

  predicate MayVote(db: Db, id: PostId, user: UserId, option: OptionId, now: Time) {
    && id in db.posts && db.posts[id].kind == Poll
    && !(db.posts[id].expiresAt.Some? && db.posts[id].expiresAt.value < now)
    && option in db.posts[id].options && Ballot(id, user) !in db.votes
  }

  /** Whether a write gets past the service's checks and the schema's constraints; who may write is not modelled. */
  ghost predicate Accepted(db: Db, call: Call, now: Time) {
    match call
    case ReadOne(_, _) => false
    case ReadPage(_, _, _, _, _) => false
    case Create(id, post) => NewPost(db, id, post)
    case Update(id, _, _, _) => id in db.posts
    case Remove(id) => id in db.posts
    case Like(id, _) => id in db.posts
    case AddComment(id, comment) => id in db.posts && comment !in db.comments
    case DeleteComment(comment) => comment in db.comments
    case Vote(id, user, option) => MayVote(db, id, user, option, now)
    case Publish(_) => true
  }

  /** A post after the publishing job: visible for good if it was due. */
  function Published(post: Post, now: Time): Post {
    if Due(post, now) then post.(scheduledAt := None) else post
  }

  /** The database after an accepted write. */
  function Write(db: Db, call: Call): Db {
    match call
    case ReadOne(_, _) => db
    case ReadPage(_, _, _, _, _) => db
    case Create(id, post) => db.(posts := db.posts[id := post])
    case Update(id, kind, body, scheduledAt) =>
      if id !in db.posts then db else
      db.(posts := db.posts[id := db.posts[id].(kind := kind, body := body, scheduledAt := scheduledAt)])
    case Remove(id) =>
      Db(db.posts - {id}, set b | b in db.likes && b.post != id, map c | c in db.comments
          && db.comments[c] != id :: db.comments[c],
         map b | b in db.votes && b.post != id :: db.votes[b])
    case Like(id, user) =>
      db.(likes := if Ballot(id, user) in db.likes then db.likes - {Ballot(id, user)}
        else db.likes + {Ballot(id, user)})
    case AddComment(id, comment) => db.(comments := db.comments[comment := id])
    case DeleteComment(comment) => db.(comments := db.comments - {comment})
    case Vote(id, user, option) => db.(votes := db.votes[Ballot(id, user) := option])
    case Publish(now) => db.(posts := map id | id in db.posts :: Published(db.posts[id], now))
  }

  /** Whether a successful call deletes this key: its own post's entry, and for some calls every page and list. */
  predicate Outdates(call: Call, key: Key) {
    match call
    case Create(_, _) => IsPageKey(key)
    case Update(id, _, _, _) => key == PostBase(id) || IsPageKey(key)
    case Remove(id) => key == PostBase(id) || IsPageKey(key)
    case Vote(id, _, _) => key == PostBase(id) || IsPageKey(key)
    case Like(id, _) => key == PostBase(id)
    case AddComment(id, _) => key == PostBase(id)
    case _ => false
  }

  /** The writes that delete no key although cached copies show what they change. */
  predicate Unannounced(call: Call) {
    call.DeleteComment? || call.Publish?
  }

  function Invalidate(cache: Cache, call: Call, lost: set<Key>): Cache {
    map key | key in cache && (Outdates(call, key) ==> key in lost) :: cache[key]
  }

  predicate IsRead(call: Call) {
    call.ReadOne? || call.ReadPage?
  }

  ghost function Exec(s: Sys, step: Step): Sys {
    if IsRead(step.call) then Sys(s.db, Read(s, step.call, step.at).0)
    else if Accepted(s.db, step.call, step.at) then
        Sys(Write(s.db, step.call), Invalidate(s.cache, step.call, step.lost))
    else s
  }

  /** Database and cache just before step number `n`. */
  ghost function Before(init: Sys, steps: seq<Step>, n: nat): Sys
    requires n <= |steps|
  {
    if n == 0 then init else Exec(Before(init, steps, n - 1), steps[n - 1])
  }

  // ----- How old an answer can be -----

  /** Step `k` read this value from the database, and a copy of it kept under the key expires at the deadline. */
  ghost predicate ReadAt(init: Sys, steps: seq<Step>, k: nat, key: Key, value: Cached, deadline: Time) {
    && k < |steps| && IsRead(steps[k].call) && KeyOf(steps[k].call) == key
    && FromDb(Before(init, steps, k).db, steps[k].call) == Some(value)
    && deadline == steps[k].at + Ttl(steps[k].call)
  }

  ghost predicate Dated(init: Sys, steps: seq<Step>, n: nat, key: Key, e: Entry) {
    exists k | 0 <= k < n :: ReadAt(init, steps, k, key, e.value, e.deadline)
  }

  lemma {:induction false} EntriesAreDated(init: Sys, steps: seq<Step>, n: nat, key: Key)
    requires n <= |steps| && init.cache == map[] && key in Before(init, steps, n).cache
    ensures Dated(init, steps, n, key, Before(init, steps, n).cache[key])
  {
    var (s, step, s') := (Before(init, steps, n - 1), steps[n - 1], Before(init, steps, n));
    assert s' == Exec(s, step);
    hide Before, FromDb;
    if key in s.cache && s'.cache[key] == s.cache[key] {
      EntriesAreDated(init, steps, n - 1, key);
      var k :| 0 <= k < n - 1 && ReadAt(init, steps, k, key, s.cache[key].value, s.cache[key].deadline);
      hide ReadAt;
    } else {
      assert ReadAt(init, steps, n - 1, key, s'.cache[key].value, s'.cache[key].deadline);
    }
  }

  /** What read number `n` answers. */
  ghost function Answer(init: Sys, steps: seq<Step>, n: nat): Option<Cached>
    requires n < |steps| && IsRead(steps[n].call)
  {
    Read(Before(init, steps, n), steps[n].call, steps[n].at).1
  }

  /**
    Whatever is written and whichever deletions are lost, comment deletions included: every answer is what the database
    held at some earlier read of the same page, list or post, no more than its lifetime ago (30 s for a feed page, 60 s
    for a list or a single post).
   */
  lemma AnswersAreRecent(init: Sys, steps: seq<Step>, n: nat)
    requires n < |steps| && init.cache == map[] && IsRead(steps[n].call) && Answer(init, steps, n).Some?
    ensures exists k | 0 <= k <= n ::
              && IsRead(steps[k].call) && KeyOf(steps[k].call) == KeyOf(steps[n].call)
              && FromDb(Before(init, steps, k).db, steps[k].call) == Answer(init, steps, n)
              && steps[n].at <= steps[k].at + Ttl(steps[n].call)
  {
    var (s, call) := (Before(init, steps, n), steps[n].call);
    hide FromDb, Before;
    var key := KeyOf(call);
    if call.up && Get(s.cache, key, steps[n].at).Some? {
      EntriesAreDated(init, steps, n, key);
      var k :| 0 <= k < n && ReadAt(init, steps, k, key, s.cache[key].value, s.cache[key].deadline);
      SameKeySameTtl(steps[k].call, call);
    }
  }

  lemma SameKeySameTtl(a: Call, b: Call)
    requires IsRead(a) && IsRead(b) && KeyOf(a) == KeyOf(b)
    ensures Ttl(a) == Ttl(b)
  {
    assert forall c: Call | IsRead(c) :: KeyOf(c)[0] == if c.ReadPage? && c.feed then 'f' else 'p';
  }

  // ----- When nothing is lost, entries agree with the database -----

  /**
    A shared copy of a post that may only overstate its comments and call a published post scheduled, and not even that
    if `strict`.
   */
  predicate UpToDate(db: Db, raw: Raw, strict: bool) {
    && raw.id in db.posts
    && var now := RawOf(db, raw.id);
       && raw.(comments := now.comments, scheduledAt := now.scheduledAt) == now && now.comments <= raw.comments
       && (raw.scheduledAt == now.scheduledAt || now.scheduledAt.None?)
       && (strict ==> raw == now)
  }

  /** What may not lag inside a page or list: all but likes, comments and the schedule. */
  function Settled(raw: Raw): Raw {
    raw.(likes := 0, comments := 0, scheduledAt := None)
  }

  /** A copy inside a page or list: it has the votes and the contents of its post. */
  predicate SameVotes(db: Db, raw: Raw) {
    raw.id in db.posts && Settled(raw) == Settled(RawOf(db, raw.id))
  }

  predicate Fits(db: Db, key: Key, value: Cached, strict: bool) {
    match value
    case One(raw) => key == PostBase(raw.id) && UpToDate(db, raw, strict)
    case Many(_, posts) => IsPageKey(key) && forall p | p in posts :: SameVotes(db, p)
  }

  ghost predicate Coherent(s: Sys, strict: bool) {
    forall key | key in s.cache :: Fits(s.db, key, s.cache[key].value, strict)
  }

  /** What a write can do to a post it is not about. */
  lemma OtherPostUnchanged(db: Db, call: Call, now: Time, id: PostId)
    requires DbInv(db) && Accepted(db, call, now) && id in db.posts
    requires !(call.Create? || call.Update? || call.Remove? || call.Like? || call.AddComment? || call.Vote?)
             || call.id != id
    ensures var db' := Write(db, call);
            && id in db'.posts
            && db'.posts[id] == (if call.Publish? then Published(db.posts[id], call.now) else db.posts[id])
            && LikeCount(db', id) == LikeCount(db, id)
            && CountOptions(db'.votes, db.posts[id].options) == CountOptions(db.votes, db.posts[id].options)
            && CommentCount(db', id) <= CommentCount(db, id)
            && (!call.DeleteComment? ==> CommentCount(db', id) == CommentCount(db, id))
  {
    var db' := Write(db, call);
    assert LikesOf(db', id) == LikesOf(db, id);
    forall o | o in db.posts[id].options ensures BallotsFor(db'.votes, o) == BallotsFor(db.votes, o) {}
    if call.DeleteComment? {
      SubsetSize(CommentsOf(db', id), CommentsOf(db, id));
    } else {
      assert CommentsOf(db', id) == CommentsOf(db, id);
    }
  }

  lemma WriteKeepsDb(db: Db, call: Call, now: Time)
    requires DbInv(db) && Accepted(db, call, now)
    ensures DbInv(Write(db, call))
  {
    if call.Create? {
      var posts := Write(db, call).posts;
      forall p, q, i, j | p in posts && q in posts && 0 <= i < |posts[p].options| && 0 <= j < |posts[q].options|
                          && posts[p].options[i] == posts[q].options[j]
        ensures p == q && i == j
      {
        assert posts[p].options[i] in posts[p].options && posts[q].options[j] in posts[q].options;
      }
    }
  }

  /** A single-post entry that a write does not delete stays right; only the unannounced writes make it lag. */
  lemma OneStaysRight(db: Db, call: Call, now: Time, raw: Raw, strict: bool)
    requires DbInv(db) && Accepted(db, call, now) && UpToDate(db, raw, strict) && !Outdates(call, PostBase(raw.id))
    requires strict ==> !Unannounced(call)
    ensures UpToDate(Write(db, call), raw, strict)
  {
    OtherPostUnchanged(db, call, now, raw.id);
    hide DbInv, Accepted, Write, LikeCount, CommentCount, CountOptions;
  }

  /** A page's or list's copy that a write does not delete still shows the right votes. */
  lemma PageStaysRight(db: Db, call: Call, now: Time, key: Key, raw: Raw)
    requires DbInv(db) && Accepted(db, call, now) && SameVotes(db, raw) && IsPageKey(key) && !Outdates(call, key)
    ensures SameVotes(Write(db, call), raw)
  {
  }

  lemma ReadFits(db: Db, call: Call, strict: bool)
    requires IsRead(call) && FromDb(db, call).Some?
    ensures Fits(db, KeyOf(call), FromDb(db, call).value, strict)
  {
  }

  lemma StepKeepsCoherent(s: Sys, step: Step, strict: bool)
    requires DbInv(s.db) && Coherent(s, strict) && step.lost == {}
    requires strict ==> !Unannounced(step.call)
    ensures DbInv(Exec(s, step).db) && Coherent(Exec(s, step), strict)
  {
    var s' := Exec(s, step);
    if IsRead(step.call) {
      hide Fits;
      if FromDb(s.db, step.call).Some? { ReadFits(s.db, step.call, strict); }
    } else if Accepted(s.db, step.call, step.at) {
      WriteKeepsDb(s.db, step.call, step.at);
      forall key | key in s'.cache ensures Fits(s'.db, key, s'.cache[key].value, strict) {
        KeptEntryFits(s, step, strict, key);
      }
    }
  }

  lemma KeptEntryFits(s: Sys, step: Step, strict: bool, key: Key)
    requires DbInv(s.db) && Coherent(s, strict) && step.lost == {} && Accepted(s.db, step.call, step.at)
    requires strict ==> !Unannounced(step.call)
    requires key in s.cache && !Outdates(step.call, key)
    ensures Fits(Write(s.db, step.call), key, s.cache[key].value, strict)
  {
    assert Fits(s.db, key, s.cache[key].value, strict);
    hide DbInv, Accepted, Outdates, Write, UpToDate, SameVotes, IsPageKey, Coherent;
    match s.cache[key].value
    case One(raw) => OneStaysRight(s.db, step.call, step.at, raw, strict);
    case Many(_, posts) =>
      forall p | p in posts ensures SameVotes(Write(s.db, step.call), p) {
        PageStaysRight(s.db, step.call, step.at, key, p);
      }
  }

  ghost predicate NothingLost(steps: seq<Step>, n: nat, strict: bool)
    requires n <= |steps|
  {
    forall k | 0 <= k < n :: steps[k].lost == {} && (strict ==> !Unannounced(steps[k].call))
  }

  lemma {:induction false} RunKeepsCoherent(init: Sys, steps: seq<Step>, n: nat, strict: bool)
    requires n <= |steps| && DbInv(init.db) && Coherent(init, strict) && NothingLost(steps, n, strict)
    ensures DbInv(Before(init, steps, n).db) && Coherent(Before(init, steps, n), strict)
  {
    hide DbInv, Coherent, Exec;
    if n > 0 {
      RunKeepsCoherent(init, steps, n - 1, strict);
      StepKeepsCoherent(Before(init, steps, n - 1), steps[n - 1], strict);
    }
  }

  /**
    When no deletion is lost, in every run: a single-post read has the database's contents, likes and votes, never fewer
    comments, and the database's schedule unless the post has been published; without comment deletions and publishing
    it is exactly the database's answer. A feed page or list shows only posts that exist, each with the database's
    contents and votes.
   */
  lemma CachedReadsAgree(init: Sys, steps: seq<Step>, n: nat, strict: bool)
    requires n < |steps| && init.cache == map[] && DbInv(init.db) && NothingLost(steps, n, strict)
             && IsRead(steps[n].call)
    ensures var (db, answer) := (Before(init, steps, n).db, Answer(init, steps, n));
            && (steps[n].call.ReadOne? && steps[n].call.id !in db.posts ==> answer.None?)
            && (steps[n].call.ReadOne? && steps[n].call.id in db.posts ==>
                  && answer.Some? && answer.value.One? && answer.value.raw.id == steps[n].call.id
                  && UpToDate(db, answer.value.raw, strict))
            && (steps[n].call.ReadOne? && strict ==> answer == FromDb(db, steps[n].call))
            && (steps[n].call.ReadPage? && answer.Some? ==>
                  answer.value.Many? && forall p | p in answer.value.posts :: SameVotes(db, p))
  {
    RunKeepsCoherent(init, steps, n, strict);
    AnswerFits(Before(init, steps, n), steps[n].call, steps[n].at, strict);
    hide Before, Fits;
  }

  lemma AnswerFits(s: Sys, call: Call, now: Time, strict: bool)
    requires IsRead(call) && Coherent(s, strict)
    ensures var answer := Read(s, call, now).1;
            && (call.ReadOne? && call.id !in s.db.posts ==> answer.None?)
            && (call.ReadOne? && call.id in s.db.posts ==>
                  answer.Some? && answer.value.One? && answer.value.raw.id == call.id
                      && UpToDate(s.db, answer.value.raw, strict))
            && (call.ReadOne? && strict ==> answer == FromDb(s.db, call))
            && (call.ReadPage? && answer.Some? ==>
                  answer.value.Many? && forall p | p in answer.value.posts :: SameVotes(s.db, p))
  {
    var key := KeyOf(call);
    var answer := Read(s, call, now).1;
    if FromDb(s.db, call).Some? { ReadFits(s.db, call, strict); }
    if key in s.cache { assert Fits(s.db, key, s.cache[key].value, strict); }
    hide Coherent, RawOf;
    if call.ReadOne? {
      if answer.Some? && answer.value.One? { KeysTell(call.id, answer.value.raw.id, true, ""); }
      KeysTell(call.id, call.id, true, "");
    } else {
      KeysTell("", "", call.feed, call.rest);
      if answer.Some? && answer.value.One? { KeysTell(answer.value.raw.id, "", call.feed, call.rest); }
    }
  }

  // ----- How far a copy is off -----

  /** The step deletes a comment of the post. */
  ghost predicate DropsComment(s: Sys, step: Step, id: PostId) {
    step.call.DeleteComment? && step.call.comment in s.db.comments && s.db.comments[step.call.comment] == id
  }

  /** Comments of the post deleted by the steps from number `k` up to, not including, number `n`. */
  ghost function DeletedSince(init: Sys, steps: seq<Step>, k: nat, n: nat, id: PostId): nat
    requires k <= n <= |steps|
  {
    if k == n then 0 else
    DeletedSince(init, steps, k, n - 1, id) + Count(DropsComment(Before(init, steps, n - 1), steps[n - 1], id))
  }

  /** The step publishes the post: it was due. */
  ghost predicate PublishesPost(s: Sys, step: Step, id: PostId) {
    step.call.Publish? && id in s.db.posts && Due(s.db.posts[id], step.call.now)
  }

  /** One of the steps from number `k` up to, not including, number `n` publishes the post. */
  ghost predicate PublishedSince(init: Sys, steps: seq<Step>, k: nat, n: nat, id: PostId)
    requires k <= n <= |steps|
  {
    k < n
    && (PublishedSince(init, steps, k, n - 1, id) || PublishesPost(Before(init, steps, n - 1), steps[n - 1], id))
  }

  /** The step is a write that deletes this key. */
  ghost predicate Drops(s: Sys, step: Step, key: Key) {
    Accepted(s.db, step.call, step.at) && Outdates(step.call, key)
  }

  lemma WriteMovesComments(db: Db, call: Call, now: Time, id: PostId)
    requires id in db.posts && Accepted(db, call, now) && !Outdates(call, PostBase(id))
    ensures !call.DeleteComment? ==> CommentsOf(Write(db, call), id) == CommentsOf(db, id)
    ensures call.DeleteComment? ==> CommentsOf(Write(db, call), id) == CommentsOf(db, id) - {call.comment}
  {
    match call
    case Create(_, _) =>
    case Update(_, _, _, _) =>
    case Remove(other) => assert other != id;
    case Like(_, _) =>
    case AddComment(other, _) => assert other != id;
    case DeleteComment(_) =>
    case Vote(_, _, _) =>
    case Publish(_) =>
  }

  /** A step that leaves a post's entry alone changes its comment count only by deleting one of them. */
  lemma CommentsMove(s: Sys, step: Step, id: PostId)
    requires id in s.db.posts && !Drops(s, step, PostBase(id))
    ensures CommentCount(Exec(s, step).db, id) + Count(DropsComment(s, step, id)) == CommentCount(s.db, id)
  {
    if !IsRead(step.call) && Accepted(s.db, step.call, step.at) {
      WriteMovesComments(s.db, step.call, step.at, id);
      hide Write, Outdates, NewPost, MayVote, Read;
      if DropsComment(s, step, id) { assert step.call.comment in CommentsOf(s.db, id); }
    }
  }

  /** A step that leaves a post's entry alone changes its schedule only by publishing it. */
  lemma ScheduleMoves(s: Sys, step: Step, id: PostId)
    requires DbInv(s.db) && id in s.db.posts && !Drops(s, step, PostBase(id))
    ensures var (post, db') := (s.db.posts[id], Exec(s, step).db);
            && id in db'.posts
            && db'.posts[id].scheduledAt == if PublishesPost(s, step, id) then None else post.scheduledAt
  {
    if !IsRead(step.call) && Accepted(s.db, step.call, step.at) {
      OtherPostUnchanged(s.db, step.call, step.at, id);
      hide DbInv, Accepted, Write, LikeCount, CommentCount, CountOptions;
    }
  }

  /** The schedule that a copy read at step `k` shows, against the post's own. */
  ghost predicate ScheduleAccounted(init: Sys, steps: seq<Step>, k: nat, n: nat, raw: Raw)
    requires k <= n <= |steps|
  {
    var db := Before(init, steps, n).db;
    && raw.id in db.posts
    && if PublishedSince(init, steps, k, n, raw.id)
       then raw.scheduledAt.Some? && db.posts[raw.id].scheduledAt.None?
       else raw.scheduledAt == db.posts[raw.id].scheduledAt
  }

  /**
    The entry was read at step `k`, overstates its post's comments by just those deleted since, and calls the post
    scheduled just if it was then and has been published since.
   */
  ghost predicate AccountedFrom(init: Sys, steps: seq<Step>, k: nat, n: nat, raw: Raw, deadline: Time)
    requires n <= |steps|
  {
    && k < n && ReadAt(init, steps, k, PostBase(raw.id), One(raw), deadline)
    && raw.comments == CommentCount(Before(init, steps, n).db, raw.id) + DeletedSince(init, steps, k, n, raw.id)
    && ScheduleAccounted(init, steps, k, n, raw)
  }

  lemma FilledIsAccounted(init: Sys, steps: seq<Step>, n: nat, m: nat, id: PostId)
    requires n < |steps| && m == n + 1 && steps[n].call.ReadOne? && steps[n].call.id == id
    requires id in Before(init, steps, n).db.posts
    ensures AccountedFrom(init, steps, n, m, RawOf(Before(init, steps, n).db, id), steps[n].at + POST_TTL_MS)
  {
    assert Before(init, steps, m).db == Before(init, steps, n).db;
    assert DeletedSince(init, steps, n, n, id) == 0;
    assert DeletedSince(init, steps, n, m, id) == 0;
    assert !PublishedSince(init, steps, n, n, id);
  }

  lemma KeptIsAccounted(init: Sys, steps: seq<Step>, k: nat, n: nat, m: nat, raw: Raw, deadline: Time)
    requires n < |steps| && m == n + 1 && AccountedFrom(init, steps, k, n, raw, deadline)
    requires DbInv(Before(init, steps, n).db) && raw.id in Before(init, steps, n).db.posts
             && !Drops(Before(init, steps, n), steps[n], PostBase(raw.id))
    ensures AccountedFrom(init, steps, k, m, raw, deadline)
  {
    CommentsMove(Before(init, steps, n), steps[n], raw.id);
    ScheduleMoves(Before(init, steps, n), steps[n], raw.id);
    assert Before(init, steps, m) == Exec(Before(init, steps, n), steps[n]);
    hide DbInv, Exec, Drops, CommentCount, DropsComment, ReadAt, Before;
  }

  /**
    What a step does to a single-post entry when no deletion is lost: fill it from the database, or keep it, or drop
    it.
   */
  lemma EntryStep(s: Sys, step: Step, id: PostId)
    requires step.lost == {} && PostBase(id) in Exec(s, step).cache
    ensures var (key, e) := (PostBase(id), Exec(s, step).cache[PostBase(id)]);
            if step.call == ReadOne(id, true) && id in s.db.posts && Get(s.cache, key, step.at).None?
            then e == Entry(One(RawOf(s.db, id)), step.at + POST_TTL_MS)
            else key in s.cache && s.cache[key] == e && !Drops(s, step, key)
  {
    if step.call.ReadOne? { KeysTell(id, step.call.id, true, ""); }
    if step.call.ReadPage? { KeysTell(id, id, step.call.feed, step.call.rest); }
    hide RawOf, RawsOf, IsPageKey, PostBase, PageKey, Accepted, Write;
  }

  lemma {:induction false} EntriesAreAccounted(init: Sys, steps: seq<Step>, n: nat, id: PostId)
    requires n <= |steps| && init.cache == map[] && DbInv(init.db) && NothingLost(steps, n, false)
    requires PostBase(id) in Before(init, steps, n).cache
    ensures var e := Before(init, steps, n).cache[PostBase(id)];
            e.value.One? && e.value.raw.id == id
                && exists k: nat :: AccountedFrom(init, steps, k, n, e.value.raw, e.deadline)
  {
    var m := n - 1;
    var (s, step) := (Before(init, steps, m), steps[m]);
    assert Before(init, steps, n) == Exec(s, step);
    RunKeepsCoherent(init, steps, m, false);
    EntryStep(s, step, id);
    hide Exec, RawOf, Before, DbInv;
    var (key, e) := (PostBase(id), Before(init, steps, n).cache[PostBase(id)]);
    if step.call == ReadOne(id, true) && id in s.db.posts && Get(s.cache, key, step.at).None? {
      FilledIsAccounted(init, steps, m, n, id);
      RawCounts(s.db, id);
    } else {
      EntriesAreAccounted(init, steps, m, id);
      assert Fits(s.db, key, s.cache[key].value, false);
      hide AccountedFrom, Drops;
      var k: nat :| AccountedFrom(init, steps, k, m, e.value.raw, e.deadline);
      KeptIsAccounted(init, steps, k, m, n, e.value.raw, e.deadline);
    }
  }

  /** Read number `k` gave the answer of single-post read number `n`, and accounts for its comments and schedule. */
  ghost predicate AccountsFor(init: Sys, steps: seq<Step>, n: nat, k: nat)
    requires n < |steps| && steps[n].call.ReadOne?
  {
    var (db, answer, id) := (Before(init, steps, n).db, Answer(init, steps, n), steps[n].call.id);
    && k <= n && steps[k].call.ReadOne? && steps[k].call.id == id
    && answer == FromDb(Before(init, steps, k).db, steps[k].call) && steps[n].at <= steps[k].at + POST_TTL_MS
    && answer.Some? && answer.value.One?
    && answer.value.raw.id == id && ScheduleAccounted(init, steps, k, n, answer.value.raw)
    && answer.value.raw.comments == CommentCount(db, id) + DeletedSince(init, steps, k, n, id)
    && (answer == FromDb(db, steps[n].call)
        <==> DeletedSince(init, steps, k, n, id) == 0 && !PublishedSince(init, steps, k, n, id))
  }

  /**
    The exact account of a single-post read when no deletion is lost. The answer was read from the database no more than
    a minute before; its comment count is today's plus the comments of this post deleted since that read; its schedule
    is today's unless the post has been published since; and it is the database's present answer exactly if no comment
    of the post was deleted and the post was not published since.
   */
  lemma SinglePostAccount(init: Sys, steps: seq<Step>, n: nat)
    requires n < |steps| && init.cache == map[] && DbInv(init.db) && NothingLost(steps, n, false)
    requires steps[n].call.ReadOne? && steps[n].call.id in Before(init, steps, n).db.posts
    ensures exists k: nat :: AccountsFor(init, steps, n, k)
  {
    var (s, call, key) := (Before(init, steps, n), steps[n].call, PostBase(steps[n].call.id));
    RunKeepsCoherent(init, steps, n, false);
    if call.up && Get(s.cache, key, steps[n].at).Some? {
      CachedAccount(init, steps, n);
    } else {
      hide DbInv, Coherent, RawOf, Before;
      assert DeletedSince(init, steps, n, n, call.id) == 0 && !PublishedSince(init, steps, n, n, call.id);
      assert Answer(init, steps, n) == FromDb(s.db, call) == Some(One(RawOf(s.db, call.id)));
      RawCounts(s.db, call.id);
      assert AccountsFor(init, steps, n, n);
    }
  }

  lemma RawCounts(db: Db, id: PostId)
    requires id in db.posts
    ensures RawOf(db, id).id == id && RawOf(db, id).comments == CommentCount(db, id)
            && RawOf(db, id).scheduledAt == db.posts[id].scheduledAt
  {
  }

  /** An up-to-date copy is the database's own exactly if its comment count and its schedule are. */
  lemma UpToDateExactly(db: Db, raw: Raw)
    requires UpToDate(db, raw, false)
    ensures raw == RawOf(db, raw.id)
            <==> raw.comments == CommentCount(db, raw.id) && raw.scheduledAt == db.posts[raw.id].scheduledAt
  {
    hide LikeCount, CommentCount, CountOptions;
  }

  lemma AccountedExactly(init: Sys, steps: seq<Step>, k: nat, n: nat, raw: Raw, deadline: Time)
    requires n <= |steps| && AccountedFrom(init, steps, k, n, raw, deadline)
             && UpToDate(Before(init, steps, n).db, raw, false)
    ensures raw == RawOf(Before(init, steps, n).db, raw.id)
            <==> DeletedSince(init, steps, k, n, raw.id) == 0 && !PublishedSince(init, steps, k, n, raw.id)
  {
    UpToDateExactly(Before(init, steps, n).db, raw);
    hide UpToDate, Before, ReadAt, PublishedSince, DeletedSince, RawOf;
  }

  lemma CachedAccount(init: Sys, steps: seq<Step>, n: nat)
    requires n < |steps| && init.cache == map[] && DbInv(init.db) && NothingLost(steps, n, false)
    requires steps[n].call.ReadOne? && steps[n].call.id in Before(init, steps, n).db.posts
    requires steps[n].call.up && Get(Before(init, steps, n).cache, PostBase(steps[n].call.id), steps[n].at).Some?
    ensures Answer(init, steps, n).Some? && Answer(init, steps, n).value.One?
    ensures exists k: nat :: AccountsFor(init, steps, n, k)
  {
    var (s, call, key) := (Before(init, steps, n), steps[n].call, PostBase(steps[n].call.id));
    RunKeepsCoherent(init, steps, n, false);
    EntriesAreAccounted(init, steps, n, call.id);
    hide DbInv, Before, RawOf, DeletedSince, CommentCount;
    var raw := s.cache[key].value.raw;
    assert Fits(s.db, key, s.cache[key].value, false);
    assert UpToDate(s.db, raw, false);
    hide UpToDate, Coherent, Fits, ScheduleAccounted, PublishedSince;
    var k: nat :| AccountedFrom(init, steps, k, n, raw, s.cache[key].deadline);
    AccountedExactly(init, steps, k, n, raw, s.cache[key].deadline);
    ReadOfPost(steps[k].call, call.id);
    assert AccountsFor(init, steps, n, k);
  }

  lemma ReadOfPost(call: Call, id: PostId)
    requires IsRead(call) && KeyOf(call) == PostBase(id)
    ensures call.ReadOne? && call.id == id
  {
    if call.ReadOne? { KeysTell(id, call.id, true, ""); } else { KeysTell(id, id, call.feed, call.rest); }
  }

  /** One step of it: deleting a comment puts the cache out of step exactly if its post is in the cache. */
  lemma DeleteCommentExactly(s: Sys, comment: CommentId, at: Time)
    requires DbInv(s.db) && Coherent(s, true) && comment in s.db.comments
    ensures Coherent(Exec(s, Step(DeleteComment(comment), at, {})), true)
            <==> PostBase(s.db.comments[comment]) !in s.cache
  {
    var (step, id) := (Step(DeleteComment(comment), at, {}), s.db.comments[comment]);
    var s' := Exec(s, step);
    assert s'.cache == s.cache;
    if PostBase(id) in s.cache {
      assert Fits(s.db, PostBase(id), s.cache[PostBase(id)].value, true);
      KeysTell(id, if s.cache[PostBase(id)].value.One? then s.cache[PostBase(id)].value.raw.id else id, true, "");
      CommentsMove(s, step, id);
      assert !Fits(s'.db, PostBase(id), s.cache[PostBase(id)].value, true);
    } else {
      forall key | key in s.cache ensures Fits(s'.db, key, s.cache[key].value, true) {
        OtherEntryFits(s, step, key);
      }
    }
  }

  lemma OtherEntryFits(s: Sys, step: Step, key: Key)
    requires DbInv(s.db) && Coherent(s, true) && step.call.DeleteComment? && key in s.cache
    requires step.call.comment in s.db.comments && key != PostBase(s.db.comments[step.call.comment])
    ensures Fits(Exec(s, step).db, key, s.cache[key].value, true)
  {
    var db' := Exec(s, step).db;
    assert Fits(s.db, key, s.cache[key].value, true);
    hide Coherent, LikeCount, CommentCount, CountOptions;
    match s.cache[key].value
    case One(raw) =>
      OtherPostUnchanged(s.db, step.call, step.at, raw.id);
      CommentsMove(s, step, raw.id);
    case Many(_, posts) =>
      forall p | p in posts ensures SameVotes(db', p) { PageStaysRight(s.db, step.call, step.at, key, p); }
  }

  /** Likewise publishing puts the cache out of step exactly if a post that was due is in the cache. */
  lemma PublishExactly(s: Sys, now: Time, at: Time)
    requires DbInv(s.db) && Coherent(s, true)
    ensures Coherent(Exec(s, Step(Publish(now), at, {})), true)
            <==> forall id | id in s.db.posts && Due(s.db.posts[id], now) :: PostBase(id) !in s.cache
  {
    var call := Publish(now);
    var s' := Exec(s, Step(call, at, {}));
    assert s'.cache == s.cache && s'.db == Write(s.db, call);
    hide DbInv, Write, Accepted, Invalidate;
    forall id | id in s.db.posts && Due(s.db.posts[id], now) && PostBase(id) in s.cache ensures !Coherent(s', true) {
      assert Fits(s.db, PostBase(id), s.cache[PostBase(id)].value, true);
      DueEntryIsOutdated(s.db, now, at, id, s.cache[PostBase(id)].value);
    }
    if forall id | id in s.db.posts && Due(s.db.posts[id], now) :: PostBase(id) !in s.cache {
      forall key | key in s.cache ensures Fits(s'.db, key, s.cache[key].value, true) {
        NotDueEntryFits(s, now, at, key);
      }
    }
  }

  lemma DueEntryIsOutdated(db: Db, now: Time, at: Time, id: PostId, value: Cached)
    requires DbInv(db) && id in db.posts && Due(db.posts[id], now) && Fits(db, PostBase(id), value, true)
    ensures !Fits(Write(db, Publish(now)), PostBase(id), value, true)
  {
    OtherPostUnchanged(db, Publish(now), at, id);
    KeysTell(id, if value.One? then value.raw.id else id, true, "");
    hide DbInv, Write, LikeCount, CommentCount, CountOptions, IsPageKey, PostBase;
  }

  lemma NotDueEntryFits(s: Sys, now: Time, at: Time, key: Key)
    requires DbInv(s.db) && Coherent(s, true) && key in s.cache
    requires forall id | id in s.db.posts && Due(s.db.posts[id], now) :: PostBase(id) !in s.cache
    ensures Fits(Write(s.db, Publish(now)), key, s.cache[key].value, true)
  {
    assert Fits(s.db, key, s.cache[key].value, true);
    hide Coherent, LikeCount, CommentCount, CountOptions;
    match s.cache[key].value
    case One(raw) =>
      OtherPostUnchanged(s.db, Publish(now), at, raw.id);
      hide DbInv, Write;
    case Many(_, posts) =>
      forall p | p in posts ensures SameVotes(Write(s.db, Publish(now)), p) {
        PageStaysRight(s.db, Publish(now), at, key, p);
      }
  }

  /** A copy that shows the right votes names its post's options, which is what the overlay needs. */
  lemma RightCopiesFit(db: Db, raw: Raw)
    requires SameVotes(db, raw)
    ensures FitsDb(db, raw)
  {
  }

  // ----- What a write makes the next read show -----

  /** The post a write is about. */
  predicate IsAbout(db: Db, call: Call, id: PostId) {
    match call
    case Create(p, _) => p == id
    case Update(p, _, _, _) => p == id
    case Remove(p) => p == id
    case Like(p, _) => p == id
    case AddComment(p, _) => p == id
    case DeleteComment(c) => c in db.comments && db.comments[c] == id
    case Vote(p, _, _) => p == id
    case _ => false
  }

  /** The votes shown with one more for the option. */
  function OneVoteMore(options: seq<RawOption>, option: OptionId): seq<RawOption> {
    seq(|options|, i requires 0 <= i < |options| =>
      if options[i].id == option then options[i].(votes := options[i].votes + 1) else options[i])
  }

  function Unvoted(options: seq<OptionId>): seq<RawOption> {
    seq(|options|, i requires 0 <= i < |options| => RawOption(options[i], 0))
  }

  function ReadBack(db: Db, id: PostId): Option<Raw> {
    if id in db.posts then Some(RawOf(db, id)) else None
  }

  /** What an accepted write makes of a post as it is read, in terms of what was read before. */
  ghost predicate Changes(db: Db, call: Call, id: PostId, after: Option<Raw>) {
    if call.Create? && call.id == id then
      after == Some(Raw(id, call.post.kind, call.post.body, call.post.scheduledAt, call.post.expiresAt, 0, 0,
                        Unvoted(call.post.options)))
    else if id !in db.posts || (call.Remove? && call.id == id) then after == None
    else after.Some? && ChangesPost(db, call, id, RawOf(db, id), after.value)
  }

  ghost predicate ChangesPost(db: Db, call: Call, id: PostId, raw: Raw, after: Raw)
    requires id in db.posts
  {
    if !IsAbout(db, call, id) then
      after == if call.Publish? && raw.scheduledAt.Some? && raw.scheduledAt.value <= call.now then
        raw.(scheduledAt := None) else raw
    else match call
      case Update(_, kind, body, at) => after == raw.(kind := kind, body := body, scheduledAt := at)
      case Like(_, user) =>
        && after == raw.(likes := after.likes)
        && after.likes == if Ballot(id, user) in db.likes then raw.likes - 1 else raw.likes + 1
      case AddComment(_, _) => after == raw.(comments := raw.comments + 1)
      case DeleteComment(_) => after == raw.(comments := after.comments) && after.comments == raw.comments - 1
      case Vote(_, _, option) => after == raw.(options := OneVoteMore(raw.options, option))
      case _ => false
  }

  lemma LikeChanges(db: Db, id: PostId, user: UserId)
    requires id in db.posts
    ensures ChangesPost(db, Like(id, user), id, RawOf(db, id), RawOf(Write(db, Like(id, user)), id))
  {
    var (b, db') := (Ballot(id, user), Write(db, Like(id, user)));
    if b in db.likes {
      assert LikesOf(db', id) == LikesOf(db, id) - {b};
      assert b in LikesOf(db, id);
    } else {
      assert LikesOf(db', id) == LikesOf(db, id) + {b};
    }
    hide CountOptions;
  }

  lemma AddedCommentChanges(db: Db, id: PostId, comment: CommentId)
    requires id in db.posts && comment !in db.comments
    ensures ChangesPost(db, AddComment(id, comment), id, RawOf(db, id), RawOf(Write(db, AddComment(id, comment)), id))
  {
    hide CountOptions, LikeCount;
    var db' := Write(db, AddComment(id, comment));
    assert CommentsOf(db', id) == CommentsOf(db, id) + {comment};
    SameLikes(db, db', id);
    hide CommentsOf;
  }

  lemma DeletedCommentChanges(db: Db, id: PostId, comment: CommentId)
    requires id in db.posts && comment in db.comments && db.comments[comment] == id
    ensures ChangesPost(db, DeleteComment(comment), id, RawOf(db, id), RawOf(Write(db, DeleteComment(comment)), id))
  {
    hide CountOptions, LikeCount;
    var db' := Write(db, DeleteComment(comment));
    assert CommentsOf(db', id) == CommentsOf(db, id) - {comment} && comment in CommentsOf(db, id);
    SameLikes(db, db', id);
    hide CommentsOf;
  }

  lemma SameLikes(db: Db, db': Db, id: PostId)
    requires db'.likes == db.likes
    ensures LikeCount(db', id) == LikeCount(db, id)
  {
  }

  lemma BallotsAfterVote(votes: Votes, b: Ballot, option: OptionId, other: OptionId)
    requires b !in votes
    ensures |BallotsFor(votes[b := option], other)| == |BallotsFor(votes, other)| + Count(other == option)
  {
    if other == option {
      assert BallotsFor(votes[b := option], other) == BallotsFor(votes, other) + {b};
    } else {
      assert BallotsFor(votes[b := option], other) == BallotsFor(votes, other);
    }
  }

  lemma CountsAfterVote(votes: Votes, b: Ballot, option: OptionId, options: seq<OptionId>)
    requires b !in votes
    ensures CountOptions(votes[b := option], options) == OneVoteMore(CountOptions(votes, options), option)
  {
    hide BallotsFor;
    forall i | 0 <= i < |options|
      ensures |BallotsFor(votes[b := option], options[i])|
           == |BallotsFor(votes, options[i])| + Count(options[i] == option)
    {
      BallotsAfterVote(votes, b, option, options[i]);
    }
  }

  lemma VoteChanges(db: Db, id: PostId, user: UserId, option: OptionId, now: Time)
    requires MayVote(db, id, user, option, now)
    ensures var call := Vote(id, user, option);
            ChangesPost(db, call, id, RawOf(db, id), RawOf(Write(db, call), id))
  {
    CountsAfterVote(db.votes, Ballot(id, user), option, db.posts[id].options);
    hide CountOptions, OneVoteMore;
    assert LikesOf(Write(db, Vote(id, user, option)), id) == LikesOf(db, id);
  }

  lemma CreateChanges(db: Db, id: PostId, post: Post)
    requires DbInv(db) && NewPost(db, id, post)
    ensures Changes(db, Create(id, post), id, ReadBack(Write(db, Create(id, post)), id))
  {
    var db' := Write(db, Create(id, post));
    assert LikesOf(db', id) == {} && CommentsOf(db', id) == {};
    forall i | 0 <= i < |post.options| ensures BallotsFor(db'.votes, post.options[i]) == {} {
      assert post.options[i] in post.options;
    }
    assert CountOptions(db'.votes, post.options) == Unvoted(post.options);
  }

  /** Every accepted write makes of every post exactly what it is for. */
  lemma WriteChanges(db: Db, call: Call, now: Time, id: PostId)
    requires DbInv(db) && Accepted(db, call, now)
    ensures Changes(db, call, id, ReadBack(Write(db, call), id))
  {
    if call.Create? && call.id == id {
      CreateChanges(db, id, call.post);
    } else if id in db.posts {
      if !IsAbout(db, call, id) {
        OtherPostUnchanged(db, call, now, id);
        if call.DeleteComment? { assert CommentsOf(Write(db, call), id) == CommentsOf(db, id); }
        hide DbInv, Accepted, Write, LikeCount, CommentCount, CountOptions;
      } else {
        match call
        case Like(_, user) => LikeChanges(db, id, user);
        case AddComment(_, comment) => AddedCommentChanges(db, id, comment);
        case DeleteComment(comment) => DeletedCommentChanges(db, id, comment);
        case Vote(_, user, option) => VoteChanges(db, id, user, option, now);
        case Update(_, _, _, _) => hide LikesOf, CommentsOf, CountOptions;
        case _ =>
      }
    }
  }

  /**
    Read your writes: after a write about a post whose deletions reach the cache, the next read of that post, by
    anybody, through the cache or past it, shows exactly what the write made of it.
   */
  lemma NextReadShows(s: Sys, step: Step, id: PostId, later: Time, up: bool)
    requires DbInv(s.db) && Coherent(s, false) && Accepted(s.db, step.call, step.at) && step.lost == {}
    requires IsAbout(s.db, step.call, id) && !step.call.DeleteComment?
    ensures var read := Read(Exec(s, step), ReadOne(id, up), later).1;
            && (read.Some? ==> read.value.One?)
            && Changes(s.db, step.call, id, if read.Some? then Some(read.value.raw) else None)
  {
    WriteChanges(s.db, step.call, step.at, id);
    KeysTell(id, id, true, "");
    if PostBase(id) in s.cache && step.call.Create? {
      assert Fits(s.db, PostBase(id), s.cache[PostBase(id)].value, false);
      KeysTell(id, if s.cache[PostBase(id)].value.One? then s.cache[PostBase(id)].value.raw.id else id, true, "");
    }
    hide DbInv, Coherent, Accepted, Write, RawOf, Changes, IsPageKey, PostBase;
    assert PostBase(id) !in Exec(s, step).cache;
  }
}

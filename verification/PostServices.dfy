/**
  The cache service and the posts service as they run: a key-value store with expiry and a scanning deletion, and the
  reads and writes of posts over it.
 */
module PostServices {
  import opened Prelude
  import opened Posts
  import opened PostCache

  /** One reply of SCAN: the keys it returns. Cursor 0 follows the last. */
  type ScanPages = seq<seq<Key>>

  class CacheService {
    var store: Cache

    constructor ()
      ensures store == map[]
    {
      store := map[];
    }

    /** `up` says whether Redis answers; a failed read is a miss. */
    method Get(key: Key, now: Time, up: bool) returns (r: Option<Cached>)
      ensures r == if up then PostCache.Get(store, key, now) else None
    {
      if !up || key !in store || store[key].deadline < now { return None; }
      return Some(store[key].value);
    }

    method Set(key: Key, value: Cached, ttlMs: nat, now: Time, up: bool)
      modifies this
      ensures store == if up then old(store)[key := Entry(value, now + ttlMs)] else old(store)
    {
      if up { store := store[key := Entry(value, now + ttlMs)]; }
    }

    method Del(key: Key, up: bool)
      modifies this
      ensures store == if up then old(store) - {key} else old(store)
    {
      if up { store := store - {key}; }
    }

    /**
      Deletes by pattern `prefix*`, page by page until the cursor returns to 0. A full scan returns every key present
      throughout at least once, perhaps several times and among others; `failsAt` is the page whose command fails.
      Only keys with the prefix are deleted, and unless a command fails, all of them are.
     */
    method DelByPattern(prefix: string, pages: ScanPages, failsAt: Option<nat>)
      requires pages != []
      requires forall key | key in store && HasPrefix(key, prefix) :: exists i :: 0 <= i < |pages| && key in pages[i]
      modifies this
      ensures store.Keys <= old(store.Keys) && forall key | key in store :: store[key] == old(store)[key]
      ensures forall key | key in old(store) && key !in store :: HasPrefix(key, prefix)
      ensures (failsAt.Some? ==> failsAt.value >= |pages|) ==> forall key | key in store :: !HasPrefix(key, prefix)
    {
      var cursor := 0;
      while true
        invariant 0 <= cursor < |pages| && (failsAt.Some? ==> cursor <= failsAt.value)
        invariant store == map key | key in old(store)
                                     && !(HasPrefix(key, prefix) && exists i :: 0 <= i < cursor && key in pages[i]) ::
                                         old(store)[key]
        decreases |pages| - cursor
      {
        if failsAt == Some(cursor) { return; }
        var keys := Matching(pages[cursor], prefix);
        store := store - Members(keys);
        if cursor + 1 == |pages| { break; }
        cursor := cursor + 1;
      }
    }
  }

  function Matching(keys: seq<Key>, prefix: string): (r: seq<Key>)
    ensures forall key :: key in r <==> key in keys && HasPrefix(key, prefix)
  {
    if keys == [] then [] else
    Matching(keys[..|keys| - 1], prefix) + if HasPrefix(keys[|keys| - 1], prefix) then [keys[|keys| - 1]] else []
  }

  ghost predicate Covers(pages: ScanPages, store: Cache) {
    pages != [] && forall key | key in store :: exists i :: 0 <= i < |pages| && key in pages[i]
  }

  datatype Refusal = PostNotFound | NotAPoll | PollExpired | InvalidOption | AlreadyVoted | CommentNotFound

  /** What the overlay must find: for each post shown, the user's own vote on it. */
  ghost predicate OverlayIsDirect(votes: Votes, user: UserId, raws: seq<Raw>, voteByPost: map<PostId, OptionId>) {
    forall p | p in raws :: Direct(votes, p.id, user) == if p.id in voteByPost then Some(voteByPost[p.id]) else None
  }

  /** Each option among the posts that somebody voted for is filed under that vote's post. */
  ghost predicate Filed(votes: Votes, options: seq<OptionId>, owner: map<OptionId, PostId>) {
    forall b | b in votes && votes[b] in options :: votes[b] in owner && owner[votes[b]] == b.post
  }

  lemma OwnVoteIsListed(db: Db, raws: seq<Raw>, p: Raw, user: UserId)
    requires DbInv(db) && FitsDb(db, p) && p in raws
    ensures Ballot(p.id, user) in db.votes ==> db.votes[Ballot(p.id, user)] in AllOptionIds(raws)
  {
  }

  class PostsService {
    var posts: map<PostId, Post>
    var likes: set<Ballot>
    var comments: map<CommentId, PostId>
    var votes: Votes
    const cache: CacheService

    constructor (cache: CacheService)
      requires cache.store == map[]
      ensures this.cache == cache && Valid()
    {
      posts, likes, comments, votes, this.cache := map[], {}, map[], map[], cache;
    }

    ghost function State(): Db
      reads this
    {
      Db(posts, likes, comments, votes)
    }

    ghost function System(): Sys
      reads this, cache
    {
      Sys(State(), cache.store)
    }

    ghost predicate Valid()
      reads this, cache
    {
      DbInv(State()) && Coherent(System(), false)
    }

    /** `pollVote.findMany` for one user among some options; the rows come in any order. */
    method FindVotes(user: UserId, options: seq<OptionId>) returns (found: seq<OptionId>)
      ensures forall o :: o in found <==> o in VotesAmong(votes, user, options)
    {
      found := [];
      var left := VotesAmong(votes, user, options);
      while left != {}
        invariant forall o :: o in VotesAmong(votes, user, options) <==> o in left || o in found
        decreases |left|
      {
        var o :| o in left;
        found, left := found + [o], left - {o};
      }
    }

    /** Which post each option belongs to, filled post by post and option by option. */
    method FileOptions(raws: seq<Raw>) returns (owner: map<OptionId, PostId>)
      requires DbInv(State()) && forall p | p in raws :: FitsDb(State(), p)
      ensures Filed(votes, AllOptionIds(raws), owner)
    {
      hide DbInv, FitsDb;
      owner := map[];
      for i := 0 to |raws|
        invariant Filed(votes, AllOptionIds(raws[..i]), owner)
      {
        var options := OptionIds(raws[i]);
        assert raws[..i + 1][..i] == raws[..i] && raws[i] in raws;
        forall b | b in votes && votes[b] in options ensures b.post == raws[i].id {
          VoteTellsPost(State(), raws[i], b);
        }
        ghost var before := AllOptionIds(raws[..i]);
        for j := 0 to |options|
          invariant Filed(votes, before + options[..j], owner)
        {
          assert options[..j + 1] == options[..j] + [options[j]];
          owner := owner[options[j] := raws[i].id];
        }
        assert AllOptionIds(raws[..i + 1]) == before + options && options[..|options|] == options;
      }
      assert raws[..|raws|] == raws;
    }

    /** The overlay of feed and list: one query for all posts, sorted into posts by two lookup tables. */
    method Overlay(raws: seq<Raw>, user: UserId) returns (voteByPost: map<PostId, OptionId>)
      requires DbInv(State()) && forall p | p in raws :: FitsDb(State(), p)
      ensures OverlayIsDirect(votes, user, raws, voteByPost)
    {
      voteByPost := map[];
      var allOptionIds := AllOptionIds(raws);
      if |allOptionIds| > 0 {
        var found := FindVotes(user, allOptionIds);
        var owner := FileOptions(raws);
        for i := 0 to |found|
          invariant forall p | p in voteByPost :: Direct(votes, p, user) == Some(voteByPost[p])
          invariant forall k | 0 <= k < i :: found[k] in owner && owner[found[k]] in voteByPost
        {
          assert found[i] in VotesAmong(votes, user, allOptionIds);
          var b :| b in votes && b.user == user && votes[b] in allOptionIds && votes[b] == found[i];
          assert owner[found[i]] == b.post && b == Ballot(b.post, user);
          voteByPost := voteByPost[owner[found[i]] := found[i]];
        }
        forall p | p in raws && Direct(votes, p.id, user).Some? ensures p.id in voteByPost {
          OwnVoteIsListed(State(), raws, p, user);
          assert votes[Ballot(p.id, user)] in found;
        }
      } else {
        forall p | p in raws ensures Direct(votes, p.id, user).None? {
          OwnVoteIsListed(State(), raws, p, user);
        }
      }
    }

    method FindOne(id: PostId, user: Option<UserId>, now: Time, up: bool) returns (r: Result<View, Refusal>)
      requires Valid()
      modifies cache
      ensures System() == Exec(old(System()), Step(ReadOne(id, up), now, {})) && Valid()
      ensures r.Ok? <==> id in posts
      ensures r.Ok? ==>
                var answer := Read(old(System()), ReadOne(id, up), now).1;
                && answer.Some? && answer.value.One? && UpToDate(State(), answer.value.raw, false)
                && Shows(r.value, answer.value.raw, if user.Some? then Direct(votes, id, user.value) else None, now)
    {
      ghost var answer := Read(System(), ReadOne(id, up), now).1;
      AnswerFits(System(), ReadOne(id, up), now, false);
      StepKeepsCoherent(System(), Step(ReadOne(id, up), now, {}), false);
      hide DbInv, Coherent, UpToDate, RawOf, FitsDb;
      var cached := cache.Get(PostBase(id), now, up);
      if cached.None? {
        if id !in posts { return Err(PostNotFound); }
        cached := Some(One(RawOf(Db(posts, likes, comments, votes), id)));
        cache.Set(PostBase(id), cached.value, POST_TTL_MS, now, up);
      }
      assert cached == answer;
      var raw := cached.value.raw;
      if user.None? {
        ViewIsExact(FormatPost(raw, None, now), raw, None, now);
        return Ok(FormatPost(raw, None, now));
      }
      var own := None;
      UpToDateFits(State(), raw);
      VotesAmongIsDirect(State(), raw, user.value);
      var options := OptionIds(raw);
      if |options| > 0 {
        var found := VotesAmong(votes, user.value, options);
        if o :| o in found { own := Some(o); }
      } else {
        NoOptionsNoVote(votes, user.value);
      }
      ViewIsExact(FormatPost(raw, own, now), raw, own, now);
      return Ok(FormatPost(raw, own, now));
    }

    /** The shared part of feed and list: the cached page, or the query's, which is then cached. */
    method LoadPage(feed: bool, rest: string, total: nat, answer: seq<PostId>, now: Time,
        up: bool) returns (page: Cached)
      requires Valid() && AllExist(State(), answer)
      modifies cache
      ensures System() == Exec(old(System()), Step(ReadPage(feed, rest, total, answer, up), now, {})) && Valid()
      ensures Read(old(System()), ReadPage(feed, rest, total, answer, up), now).1 == Some(page)
      ensures page.Many? && forall p | p in page.posts :: SameVotes(State(), p)
    {
      ghost var call := ReadPage(feed, rest, total, answer, up);
      AnswerFits(System(), call, now, false);
      StepKeepsCoherent(System(), Step(call, now, {}), false);
      hide DbInv, Coherent, SameVotes, RawOf;
      var cached := cache.Get(PageKey(feed, rest), now, up);
      if cached.None? {
        cached := Some(Many(total, RawsOf(Db(posts, likes, comments, votes), answer)));
        cache.Set(PageKey(feed, rest), cached.value, if feed then FEED_TTL_MS else LIST_TTL_MS, now, up);
      }
      return cached.value;
    }

    method OverlayAndFormat(raws: seq<Raw>, user: UserId, now: Time) returns (views: seq<View>)
      requires DbInv(State()) && forall p | p in raws :: SameVotes(State(), p)
      ensures ShowsDirect(votes, raws, user, now, views)
    {
      forall p | p in raws ensures FitsDb(State(), p) { RightCopiesFit(State(), p); }
      var voteByPost := Overlay(raws, user);
      hide FormatPost, Shows;
      views := seq(|raws|, i requires 0 <= i < |raws| =>
        FormatPost(raws[i], if raws[i].id in voteByPost then Some(voteByPost[raws[i].id]) else None, now));
      forall i | 0 <= i < |raws| ensures Shows(views[i], raws[i], Direct(votes, raws[i].id, user), now) {
        assert raws[i] in raws;
        ViewIsExact(views[i], raws[i], Direct(votes, raws[i].id, user), now);
      }
    }

    /** `getFeed`: every post of the cached page as if it had been joined with the user's own vote. */
    method GetFeed(user: UserId, rest: string, total: nat, answer: seq<PostId>, now: Time, up: bool) returns (r: Page)
      requires Valid() && AllExist(State(), answer)
      modifies cache
      ensures System() == Exec(old(System()), Step(ReadPage(true, rest, total, answer, up), now, {})) && Valid()
      ensures var page := Read(old(System()), ReadPage(true, rest, total, answer, up), now).1;
              && page.Some? && page.value.Many? && r.total == page.value.total
              && (forall p | p in page.value.posts :: SameVotes(State(), p))
              && ShowsDirect(votes, page.value.posts, user, now, r.data)
    {
      hide DbInv, Coherent, SameVotes, ShowsDirect, Read, Exec;
      var page := LoadPage(true, rest, total, answer, now, up);
      var views := OverlayAndFormat(page.posts, user, now);
      return Page(views, page.total);
    }

    /** `findAll`: the same over a list, and without a user's vote when nobody asks. */
    method FindAll(user: Option<UserId>, rest: string, answer: seq<PostId>, now: Time,
        up: bool) returns (views: seq<View>)
      requires Valid() && AllExist(State(), answer)
      modifies cache
      ensures System() == Exec(old(System()), Step(ReadPage(false, rest, 0, answer, up), now, {})) && Valid()
      ensures var page := Read(old(System()), ReadPage(false, rest, 0, answer, up), now).1;
              && page.Some? && page.value.Many?
              && (forall p | p in page.value.posts :: SameVotes(State(), p))
              && (user.Some? ==> ShowsDirect(votes, page.value.posts, user.value, now, views))
              && (user.None? ==>
                    && |views| == |page.value.posts|
                    && forall i | 0 <= i < |views| :: Shows(views[i], page.value.posts[i], None, now))
    {
      hide DbInv, Coherent, SameVotes, ShowsDirect, Read, Exec, FormatPost, Shows;
      var page := LoadPage(false, rest, 0, answer, now, up);
      if user.None? {
        views := seq(|page.posts|, i requires 0 <= i < |page.posts| => FormatPost(page.posts[i], None, now));
        forall i | 0 <= i < |views| ensures Shows(views[i], page.posts[i], None, now) {
          ViewIsExact(views[i], page.posts[i], None, now);
        }
        return;
      }
      views := OverlayAndFormat(page.posts, user.value, now);
    }

    // ----- Writes -----

    /** Drop every feed page and list. */
    method InvalidatePostListCaches(feedScan: ScanPages, listScan: ScanPages, up: bool)
      requires Covers(feedScan, cache.store) && Covers(listScan, cache.store)
      modifies cache
      ensures cache.store == if up then map key | key in old(cache.store) && !IsPageKey(key) :: old(cache.store)[key]
                             else old(cache.store)
    {
      if up {
        cache.DelByPattern(FEED_PREFIX, feedScan, None);
        cache.DelByPattern(LIST_PREFIX, listScan, None);
      }
    }

    method InvalidatePostCaches(id: PostId, feedScan: ScanPages, listScan: ScanPages, up: bool)
      requires Covers(feedScan, cache.store) && Covers(listScan, cache.store)
      modifies cache
      ensures cache.store == if !up then old(cache.store) else
                map key | key in old(cache.store) && key != PostBase(id) && !IsPageKey(key) :: old(cache.store)[key]
    {
      cache.Del(PostBase(id), up);
      InvalidatePostListCaches(feedScan, listScan, up);
    }

    /** `up` tells whether the deletions reach the cache; `lost` in the matching step then is empty, or everything. */
    ghost function Lost(up: bool): set<Key>
      reads cache
    {
      if up then {} else cache.store.Keys
    }

    method ToggleLike(id: PostId, user: UserId, now: Time, up: bool) returns (r: Result<bool, Refusal>)
      modifies this`likes, cache
      ensures System() == Exec(old(System()), Step(Like(id, user), now, old(Lost(up))))
      ensures r == if id in posts then Ok(Ballot(id, user) in likes) else Err(PostNotFound)
    {
      if id !in posts { return Err(PostNotFound); }
      var like := Ballot(id, user);
      if like in likes {
        likes := likes - {like};
        cache.Del(PostBase(id), up);
        return Ok(false);
      }
      likes := likes + {like};
      cache.Del(PostBase(id), up);
      return Ok(true);
    }

    method AddComment(id: PostId, comment: CommentId, now: Time, up: bool) returns (r: Result<CommentId, Refusal>)
      requires comment !in comments
      modifies this`comments, cache
      ensures System() == Exec(old(System()), Step(Call.AddComment(id, comment), now, old(Lost(up))))
      ensures r == if id in posts then Ok(comment) else Err(PostNotFound)
    {
      if id !in posts { return Err(PostNotFound); }
      comments := comments[comment := id];
      cache.Del(PostBase(id), up);
      return Ok(comment);
    }

    /** Deletes the row and leaves the cache as it is. */
    method DeleteComment(comment: CommentId, now: Time) returns (r: Result<CommentId, Refusal>)
      modifies this`comments
      ensures System() == Exec(old(System()), Step(Call.DeleteComment(comment), now, {}))
      ensures r == if comment in old(comments) then Ok(comment) else Err(CommentNotFound)
    {
      if comment !in comments { return Err(CommentNotFound); }
      comments := comments - {comment};
      return Ok(comment);
    }

    /** The publishing job: the posts that are due lose their schedule, and the cache is left as it is. */
    method PublishScheduledPosts(now: Time)
      modifies this`posts
      ensures System() == Exec(old(System()), Step(Publish(now), now, {}))
    {
      var due := set id | id in posts && Due(posts[id], now);
      if due == {} {
        forall id | id in posts ensures Published(posts[id], now) == posts[id] { assert id !in due; }
        assert posts == map id | id in posts :: Published(posts[id], now);
        return;
      }
      posts := map id | id in posts :: if id in due then posts[id].(scheduledAt := None) else posts[id];
    }

    /** `vote`: one vote per user and post, on an option of an unexpired poll. */
    method CastVote(id: PostId, user: UserId, option: OptionId, now: Time, feedScan: ScanPages, listScan: ScanPages,
        up: bool)
      returns (r: Option<Refusal>)
      requires Covers(feedScan, cache.store) && Covers(listScan, cache.store)
      modifies this`votes, cache
      ensures System() == Exec(old(System()), Step(Call.Vote(id, user, option), now, old(Lost(up))))
      ensures r.None? <==> MayVote(old(State()), id, user, option, now)
    {
      if id !in posts { return Some(PostNotFound); }
      var post := posts[id];
      if post.kind != Poll { return Some(NotAPoll); }
      if post.expiresAt.Some? && post.expiresAt.value < now { return Some(PollExpired); }
      if option !in post.options { return Some(InvalidOption); }
      if Ballot(id, user) in votes { return Some(AlreadyVoted); }
      votes := votes[Ballot(id, user) := option];
      InvalidatePostCaches(id, feedScan, listScan, up);
      return None;
    }

    /** And the answer is the post as it then is, with that vote. */
    method Vote(id: PostId, user: UserId, option: OptionId, now: Time, feedScan: ScanPages, listScan: ScanPages)
      returns (r: Result<View, Refusal>)
      requires Valid() && Covers(feedScan, cache.store) && Covers(listScan, cache.store)
      modifies this`votes, cache
      ensures Valid()
      ensures r.Ok? <==>
                && id in old(posts) && old(posts)[id].kind == Poll && option in old(posts)[id].options
                && (old(posts)[id].expiresAt.Some? ==> now <= old(posts)[id].expiresAt.value)
                && Ballot(id, user) !in old(votes)
      ensures r.Ok? ==> id in posts && Shows(r.value, RawOf(State(), id), Some(option), now)
      ensures State() == old(State()).(votes := votes)
      ensures votes == if r.Ok? then old(votes)[Ballot(id, user) := option] else old(votes)
    {
      StepKeepsCoherent(System(), Step(Call.Vote(id, user, option), now, {}), false);
      hide DbInv, Coherent, UpToDate, RawOf;
      var refusal := CastVote(id, user, option, now, feedScan, listScan, true);
      if refusal.Some? { return Err(refusal.value); }
      assert PostBase(id) !in cache.store;
      r := FindOne(id, Some(user), now, true);
    }
  }

  datatype Page = Page(data: seq<View>, total: nat)

  /** Each post is shown as it was read, with the user's own vote on it. */
  ghost predicate ShowsDirect(votes: Votes, raws: seq<Raw>, user: UserId, now: Time, views: seq<View>) {
    |views| == |raws| && forall i | 0 <= i < |raws| ::
        Shows(views[i], raws[i], Direct(votes, raws[i].id, user), now)
  }

  lemma UpToDateFits(db: Db, raw: Raw)
    requires UpToDate(db, raw, false)
    ensures FitsDb(db, raw)
  {
  }

  lemma NoOptionsNoVote(votes: Votes, user: UserId)
    ensures VotesAmong(votes, user, []) == {}
  {
  }
}

/** The read-only queries behind the timelines and the per-request context:
    tweets filtered by a visibility rule and ordered by `-created_at`, the
    sets of liked and retweeted tweet ids, and pagination. */
module Feeds {
  import opened Wrappers
  import opened Models
  import opened Seqs
  import opened Sorting

  /** The tweets table in primary-key order. */
  function TweetRows(s: State): seq<Tweet> {
    InKeyOrder(s.tweets, s.nextTweetId)
  }

  /** `order_by('-created_at')`: a tweet may come before any tweet that is not
      newer than it. */
  const NewestFirst: (Tweet, Tweet) -> bool := (a: Tweet, b: Tweet) => a.createdAt >= b.createdAt

  ghost predicate IsNewestFirst(ts: seq<Tweet>) {
    forall i, j :: 0 <= i < j < |ts| ==> ts[i].createdAt >= ts[j].createdAt
  }

  /** `t` is a row of the tweets table. */
  predicate Stored(s: State, t: Tweet) {
    t.id in s.tweets && s.tweets[t.id] == t
  }

  lemma NewestFirstIsPreorder()
    ensures Total(NewestFirst) && Transitive(NewestFirst)
  {
  }

  lemma TweetRowsExact(s: State)
    requires TweetsValid(s)
    ensures forall t | t in TweetRows(s) :: Stored(s, t)
    ensures forall id | id in s.tweets :: s.tweets[id] in TweetRows(s)
    ensures NoDuplicates(TweetRows(s))
  {
    forall id | id in s.tweets ensures s.tweets[id] in TweetRows(s) {
      assert TweetValid(s, id);
    }
    forall t | t in TweetRows(s) ensures Stored(s, t) {
      var k :| k < s.nextTweetId && k in s.tweets && s.tweets[k] == t;
      assert TweetValid(s, k);
    }
    forall a, b | a in s.tweets && b in s.tweets && s.tweets[a] == s.tweets[b] ensures a == b {
      assert TweetValid(s, a) && TweetValid(s, b);
    }
    InKeyOrderNoDuplicates(s.tweets, s.nextTweetId);
  }

  /** The stored tweets that satisfy `p`, each once, newest first. */
  function Select(s: State, p: Tweet -> bool): (r: seq<Tweet>)
    requires TweetsValid(s)
    ensures forall t | t in r :: Stored(s, t) && p(t)
    ensures forall id | id in s.tweets && p(s.tweets[id]) :: s.tweets[id] in r
    ensures IsNewestFirst(r)
    ensures NoDuplicates(r)
  {
    var rows := Filter(TweetRows(s), p);
    TweetRowsExact(s);
    FilterKeepsNoDuplicates(TweetRows(s), p);
    NewestFirstIsPreorder();
    SortBySorted(rows, NewestFirst);
    SortBySameElements(rows, NewestFirst);
    SortBy(rows, NewestFirst)
  }

  /** The home timeline: the requester's own tweets and the tweets of every
      user the requester follows, newest first. */
  function HomeFeed(s: State, u: UserId): (r: seq<Tweet>)
    requires TweetsValid(s)
    ensures forall t | t in r :: Stored(s, t) && (t.user == u || IsFollowing(s, u, t.user))
    ensures forall id | id in s.tweets && (s.tweets[id].user == u || IsFollowing(s, u, s.tweets[id].user)) ::
              s.tweets[id] in r
    ensures IsNewestFirst(r)
    ensures NoDuplicates(r)
  {
    Select(s, (t: Tweet) => t.user == u || IsFollowing(s, u, t.user))
  }

  /** The explore timeline: every tweet, newest first. */
  function ExploreFeed(s: State): (r: seq<Tweet>)
    requires TweetsValid(s)
    ensures forall t | t in r :: Stored(s, t)
    ensures forall id | id in s.tweets :: s.tweets[id] in r
    ensures IsNewestFirst(r)
    ensures NoDuplicates(r)
  {
    Select(s, (t: Tweet) => true)
  }

  /** A profile's tweets: exactly that user's tweets, newest first. */
  function ProfileTweets(s: State, u: UserId): (r: seq<Tweet>)
    requires TweetsValid(s)
    ensures forall t | t in r :: Stored(s, t) && t.user == u
    ensures forall id | id in s.tweets && s.tweets[id].user == u :: s.tweets[id] in r
    ensures IsNewestFirst(r)
    ensures NoDuplicates(r)
  {
    Select(s, (t: Tweet) => t.user == u)
  }

  /** The retweets of a tweet: exactly the tweets whose parent it is, newest
      first. */
  function RetweetList(s: State, t: TweetId): (r: seq<Tweet>)
    requires TweetsValid(s)
    ensures forall x | x in r :: Stored(s, x) && x.parent == Some(t)
    ensures forall id | id in s.tweets && s.tweets[id].parent == Some(t) :: s.tweets[id] in r
    ensures IsNewestFirst(r)
    ensures NoDuplicates(r)
  {
    Select(s, (x: Tweet) => x.parent == Some(t))
  }

  /** `liked_tweets`: the ids of the tweets the user has liked. */
  function LikedTweetIds(s: State, u: UserId): (r: set<TweetId>)
    ensures forall t :: t in r <==> HasLike(s, u, t)
  {
    set l | l in s.likes && l.user == u :: l.tweet
  }

  /** `retweeted_tweets`: the parent ids of the user's retweets. */
  function RetweetedTweetIds(s: State, u: UserId): (r: set<TweetId>)
    ensures forall t :: t in r <==> HasRetweet(s, u, t)
  {
    set id | id in s.tweets && s.tweets[id].user == u && s.tweets[id].parent.Some? :: s.tweets[id].parent.value
  }

  /** `following`: the ids of the users the requester follows. */
  function FollowingIds(s: State, u: UserId): (r: set<UserId>)
    ensures forall v :: v in r <==> IsFollowing(s, u, v)
  {
    set f | f in s.follows && f.follower == u :: f.following
  }

  /** The users table in primary-key order. */
  function UserRows(s: State): seq<User> {
    InKeyOrder(s.users, s.nextUserId)
  }

  /** The key of a user row. */
  const UserKey: User -> int := (x: User) => x.id

  /** The stored users that satisfy `p`, by increasing primary key. */
  function UsersWhere(s: State, p: User -> bool): (r: seq<User>)
    requires UsersValid(s)
    ensures forall x | x in r :: x.id in s.users && s.users[x.id] == x && p(x)
    ensures forall id | id in s.users && p(s.users[id]) :: s.users[id] in r
    ensures Increasing(r, UserKey)
  {
    forall x | x in UserRows(s) ensures x.id in s.users && s.users[x.id] == x {
      var k :| k < s.nextUserId && k in s.users && s.users[k] == x;
    }
    InKeyOrderIncreasing(s.users, s.nextUserId, UserKey);
    FilterKeepsIncreasing(UserRows(s), p, UserKey);
    Filter(UserRows(s), p)
  }

  // ---------------------------------------------------------------------
  // Pagination

  /** `paginate_by` of the home and explore timelines. */
  const TimelinePageSize: nat := 6

  /** `paginate_by` of the user list. */
  const UsersPageSize: nat := 10

  /** The paginator's page count: an empty list still has one (empty) page. */
  function NumPages(count: nat, size: nat): nat
    requires size > 0
  {
    if count == 0 then 1 else (count + size - 1) / size
  }

  lemma PageStartInRange(count: nat, size: nat, number: int)
    requires size > 0 && 1 <= number <= NumPages(count, size)
    ensures (number - 1) * size <= count
    ensures count > 0 ==> (number - 1) * size < count
  {
    if count > 0 {
      assert number * size <= count + size - 1;
    }
  }

  /** Page `number` (counting from 1) of `items`; `None` is the 404 the list
      views answer for a page outside the range. */
  function Page<T>(items: seq<T>, number: int, size: nat): (r: Option<seq<T>>)
    requires size > 0
    ensures r.Some? <==> 1 <= number <= NumPages(|items|, size)
    ensures r.Some? ==> var lo := (number - 1) * size;
      lo <= |items| &&
      |r.value| == (if lo + size < |items| then size else |items| - lo) &&
      forall k :: 0 <= k < |r.value| ==> r.value[k] == items[lo + k]
  {
    if 1 <= number <= NumPages(|items|, size) then
      PageStartInRange(|items|, size, number);
      var lo := (number - 1) * size;
      var hi := if lo + size < |items| then lo + size else |items|;
      Some(items[lo..hi])
    else None
  }

  lemma MulCancelLess(x: nat, y: nat, size: nat)
    requires size > 0 && x * size < y * size
    ensures x < y
  {
    if x >= y {
      MulMono(y, x, size);
    }
  }

  lemma MulMono(x: nat, y: nat, size: nat)
    requires x <= y
    ensures x * size <= y * size
  {
  }

  lemma DivLowerBound(a: nat, m: nat, size: nat)
    requires size > 0 && m * size <= a
    ensures m <= a / size
  {
    var d := a / size;
    assert a == d * size + a % size;
    assert a < d * size + size;
    assert (d + 1) * size == d * size + size;
    MulCancelLess(m, d + 1, size);
  }

  /** Every item is on exactly the page its position says. */
  lemma PageCovers<T>(items: seq<T>, i: nat, size: nat)
    requires size > 0 && i < |items|
    ensures var p := Page(items, i / size + 1, size);
      p.Some? && i % size < |p.value| && p.value[i % size] == items[i]
  {
    var q, rem := i / size, i % size;
    assert i == q * size + rem;
    assert (q + 1) * size == q * size + size;
    DivLowerBound(|items| + size - 1, q + 1, size);
  }

  /** `p` is page `number` of `items`: the window of `size` items that starts
      at `(number - 1) * size`, cut short only at the end of the list. */
  ghost predicate IsPageOf<T>(p: seq<T>, items: seq<T>, number: int, size: nat) {
    var lo := (number - 1) * size;
    && 0 <= lo <= |items|
    && |p| == (if lo + size < |items| then size else |items| - lo)
    && forall k :: 0 <= k < |p| ==> p[k] == items[lo + k]
  }

  lemma PageIsWindow<T>(items: seq<T>, number: int, size: nat)
    requires size > 0 && Page(items, number, size).Some?
    ensures IsPageOf(Page(items, number, size).value, items, number, size)
  {
  }

  /** A page holds only items of the list it is cut from. */
  lemma PageWithin<T>(items: seq<T>, number: int, size: nat)
    requires size > 0 && Page(items, number, size).Some?
    ensures forall x | x in Page(items, number, size).value :: x in items
  {
    var p := Page(items, number, size).value;
    var lo := (number - 1) * size;
    forall x | x in p ensures x in items {
      var k :| 0 <= k < |p| && p[k] == x;
      assert x == items[lo + k];
    }
  }

  /** A page keeps the newest-first order of its list. */
  lemma PageKeepsOrder(items: seq<Tweet>, number: int, size: nat)
    requires size > 0 && Page(items, number, size).Some? && IsNewestFirst(items)
    ensures IsNewestFirst(Page(items, number, size).value)
  {
    var p := Page(items, number, size).value;
    var lo := (number - 1) * size;
    forall i, j | 0 <= i < j < |p| ensures p[i].createdAt >= p[j].createdAt {
      assert p[i] == items[lo + i] && p[j] == items[lo + j];
    }
  }
}

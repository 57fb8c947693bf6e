/** The request handlers of the `apps` tree: the timeline and list queries
    with their template context, and the like, retweet and follow toggles. The
    requester is always authenticated (every handler requires a login). */
module AppsViews {
  import opened Wrappers
  import opened Models
  import opened Seqs
  import opened Sorting
  import opened Text
  import opened Feeds
  import Store
  import Toggles

  /** `Http404` from `get_object_or_404`, and `PermissionDenied`. */
  datatype ViewError = NotFound | PermissionDenied

  /** `TweetContextMixin`: which tweets the requester liked and which tweets
      the requester retweeted, for the like and retweet buttons. */
  datatype TweetContext = TweetContext(likedTweets: set<TweetId>, retweetedTweets: set<TweetId>)

  function ContextFor(s: State, u: UserId): (r: TweetContext)
    ensures forall t :: t in r.likedTweets <==> HasLike(s, u, t)
    ensures forall t :: t in r.retweetedTweets <==> HasRetweet(s, u, t)
  {
    TweetContext(LikedTweetIds(s, u), RetweetedTweetIds(s, u))
  }

  /** `HomeView`: page `number` of the requester's timeline, six tweets a
      page; `None` is the 404 for a page out of range. */
  function HomePage(s: State, u: UserId, number: int): (r: Option<seq<Tweet>>)
    requires TweetsValid(s)
    ensures r.Some? <==> 1 <= number <= NumPages(|HomeFeed(s, u)|, TimelinePageSize)
    ensures r.Some? ==> |r.value| <= TimelinePageSize
    ensures r.Some? ==> IsPageOf(r.value, HomeFeed(s, u), number, TimelinePageSize)
    ensures r.Some? ==> forall t | t in r.value :: Stored(s, t) && (t.user == u || IsFollowing(s, u, t.user))
    ensures r.Some? ==> IsNewestFirst(r.value)
  {
    var r := Page(HomeFeed(s, u), number, TimelinePageSize);
    if r.Some? then
      PageIsWindow(HomeFeed(s, u), number, TimelinePageSize);
      PageWithin(HomeFeed(s, u), number, TimelinePageSize);
      PageKeepsOrder(HomeFeed(s, u), number, TimelinePageSize);
      r
    else r
  }

  /** `ExploreView`: page `number` of all tweets, six a page. */
  function ExplorePage(s: State, number: int): (r: Option<seq<Tweet>>)
    requires TweetsValid(s)
    ensures r.Some? <==> 1 <= number <= NumPages(|ExploreFeed(s)|, TimelinePageSize)
    ensures r.Some? ==> |r.value| <= TimelinePageSize
    ensures r.Some? ==> IsPageOf(r.value, ExploreFeed(s), number, TimelinePageSize)
    ensures r.Some? ==> forall t | t in r.value :: Stored(s, t)
    ensures r.Some? ==> IsNewestFirst(r.value)
  {
    var r := Page(ExploreFeed(s), number, TimelinePageSize);
    if r.Some? then
      PageIsWindow(ExploreFeed(s), number, TimelinePageSize);
      PageWithin(ExploreFeed(s), number, TimelinePageSize);
      PageKeepsOrder(ExploreFeed(s), number, TimelinePageSize);
      r
    else r
  }

  /** Every tweet of the home timeline is shown on the page its position
      gives it. */
  lemma HomeFeedPaged(s: State, u: UserId, i: nat)
    requires TweetsValid(s) && i < |HomeFeed(s, u)|
    ensures var p := HomePage(s, u, i / TimelinePageSize + 1);
      p.Some? && HomeFeed(s, u)[i] in p.value
  {
    PageCovers(HomeFeed(s, u), i, TimelinePageSize);
  }

  /** Every tweet of the explore list is shown on the page its position
      gives it. */
  lemma ExploreFeedPaged(s: State, i: nat)
    requires TweetsValid(s) && i < |ExploreFeed(s)|
    ensures var p := ExplorePage(s, i / TimelinePageSize + 1);
      p.Some? && ExploreFeed(s)[i] in p.value
  {
    PageCovers(ExploreFeed(s), i, TimelinePageSize);
  }

  /** `order_by("username")`, compared by code point. */
  const ByUsername: (User, User) -> bool := (a: User, b: User) => LexLe(a.username, b.username)

  lemma ByUsernameIsPreorder()
    ensures Total(ByUsername) && Transitive(ByUsername)
  {
    forall a: User, b: User ensures ByUsername(a, b) || ByUsername(b, a) {
      LexLeTotal(a.username, b.username);
    }
    forall a: User, b: User, c: User | ByUsername(a, b) && ByUsername(b, c) ensures ByUsername(a, c) {
      LexLeTransitive(a.username, b.username, c.username);
    }
  }

  /** `UsersListView.get_queryset`: every user except the requester, by
      username. The `search` parameter is only echoed back to the template. */
  function UsersQueryset(s: State, u: UserId): (r: seq<User>)
    requires UsersValid(s)
    ensures forall x | x in r :: x.id in s.users && s.users[x.id] == x && x.id != u
    ensures forall id | id in s.users && id != u :: s.users[id] in r
    ensures forall i, j :: 0 <= i < j < |r| ==> LexLe(r[i].username, r[j].username)
    ensures NoDuplicates(r)
  {
    var others := UsersWhere(s, (x: User) => x.id != u);
    IncreasingNoDuplicates(others, UserKey);
    ByUsernameIsPreorder();
    SortBySorted(others, ByUsername);
    SortBySameElements(others, ByUsername);
    SortBy(others, ByUsername)
  }

  /** Page `number` of the user list, ten users a page, with the ids the
      requester follows. */
  function UsersPage(s: State, u: UserId, number: int): (r: Option<(seq<User>, set<UserId>)>)
    requires UsersValid(s)
    ensures r.Some? <==> 1 <= number <= NumPages(|UsersQueryset(s, u)|, UsersPageSize)
    ensures r.Some? ==> |r.value.0| <= UsersPageSize
    ensures r.Some? ==> IsPageOf(r.value.0, UsersQueryset(s, u), number, UsersPageSize)
    ensures r.Some? ==> forall x | x in r.value.0 :: x in UsersQueryset(s, u) && x.id != u
    ensures r.Some? ==> forall i, j :: 0 <= i < j < |r.value.0| ==> LexLe(r.value.0[i].username, r.value.0[j].username)
    ensures r.Some? ==> forall v :: v in r.value.1 <==> IsFollowing(s, u, v)
  {
    var users := UsersQueryset(s, u);
    match Page(users, number, UsersPageSize)
    case None => None
    case Some(p) =>
      PageIsWindow(users, number, UsersPageSize);
      PageWithin(users, number, UsersPageSize);
      WindowKeepsUsernameOrder(p, users, number);
      Some((p, FollowingIds(s, u)))
  }

  /** A window of a list in username order is in username order. */
  lemma WindowKeepsUsernameOrder(p: seq<User>, users: seq<User>, number: int)
    requires IsPageOf(p, users, number, UsersPageSize)
    requires forall i, j :: 0 <= i < j < |users| ==> LexLe(users[i].username, users[j].username)
    ensures forall i, j :: 0 <= i < j < |p| ==> LexLe(p[i].username, p[j].username)
  {
    var lo := (number - 1) * UsersPageSize;
    forall i, j | 0 <= i < j < |p| ensures LexLe(p[i].username, p[j].username) {
      assert p[i] == users[lo + i] && p[j] == users[lo + j];
    }
  }

  /** Every user of the list is shown on the page its position gives it. */
  lemma UsersListPaged(s: State, u: UserId, i: nat)
    requires UsersValid(s) && i < |UsersQueryset(s, u)|
    ensures var p := UsersPage(s, u, i / UsersPageSize + 1);
      p.Some? && UsersQueryset(s, u)[i] in p.value.0
  {
    PageCovers(UsersQueryset(s, u), i, UsersPageSize);
  }

  /** `TweetDetailView`: the tweet, the button context, and the tweet's
      retweets newest first. */
  datatype TweetDetail = TweetDetail(tweet: Tweet, context: TweetContext, retweets: seq<Tweet>)

  function TweetDetailContext(s: State, u: UserId, id: TweetId): (r: Option<TweetDetail>)
    requires TweetsValid(s)
    ensures r.Some? <==> id in s.tweets
    ensures r.Some? ==> r.value.tweet == s.tweets[id] && r.value.context == ContextFor(s, u)
    ensures r.Some? ==> forall x | x in r.value.retweets :: Stored(s, x) && x.parent == Some(id)
    ensures r.Some? ==> forall x | x in s.tweets && s.tweets[x].parent == Some(id) :: s.tweets[x] in r.value.retweets
    ensures r.Some? ==> IsNewestFirst(r.value.retweets) && NoDuplicates(r.value.retweets)
  {
    if id in s.tweets then Some(TweetDetail(s.tweets[id], ContextFor(s, u), RetweetList(s, id))) else None
  }

  /** The rendered tweet card: the tweet and the button context. */
  datatype TweetCard = TweetCard(tweet: Tweet, context: TweetContext)

  /** `LikeTweetView.get`: 404 for an unknown tweet; otherwise toggle the
      requester's like and render the card with the context read afterwards. */
  method LikeTweet(store: Store.Store, u: UserId, id: TweetId, now: int) returns (r: Result<TweetCard, ViewError>)
    requires store.Valid() && u in store.users
    modifies store
    ensures store.Valid()
    ensures id !in old(store.tweets) ==> r == Failure(NotFound) && store.Snapshot() == old(store.Snapshot())
    ensures id in old(store.tweets) ==>
      && store.Snapshot() == ToggleLike(old(store.Snapshot()), u, id, now)
      && r == Success(TweetCard(old(store.tweets[id]), ContextFor(store.Snapshot(), u)))
      && (id in r.value.context.likedTweets <==> !HasLike(old(store.Snapshot()), u, id))
  {
    var tweet := store.GetTweet(id);
    if tweet.None? {
      return Failure(NotFound);
    }
    Toggles.ToggleLikeEffect(store.Snapshot(), u, id, now);
    var like, created := store.GetOrCreateLike(u, id, now);
    if !created {
      store.DeleteLike(like);
    }
    r := Success(TweetCard(tweet.value, ContextFor(store.Snapshot(), u)));
  }

  /** What `send_retweet_notification.delay` schedules. */
  datatype Notification = Notification(tweetId: TweetId, retweeterUsername: string)

  /** The task queue: scheduling appends; delivering the email is outside
      this model. */
  class TaskQueue {
    var pending: seq<Notification>

    constructor ()
      ensures pending == []
    {
      pending := [];
    }

    method Delay(n: Notification)
      modifies this
      ensures pending == old(pending) + [n]
    {
      pending := pending + [n];
    }
  }

  /** `RetweetView.post`: 404 for an unknown tweet; a requester who holds no
      retweet of it gets one (content and image copied from the original)
      and exactly one notification is scheduled; one who holds it loses it
      and nothing is scheduled. */
  method Retweet(store: Store.Store, queue: TaskQueue, u: UserId, id: TweetId, now: int) returns (r: Option<ViewError>)
    requires store.Valid() && u in store.users
    modifies store, queue
    ensures store.Valid()
    ensures id !in old(store.tweets) ==>
      r == Some(NotFound) && store.Snapshot() == old(store.Snapshot()) && queue.pending == old(queue.pending)
    ensures id in old(store.tweets) ==>
      && r.None?
      && store.Snapshot() == ToggleRetweet(old(store.Snapshot()), u, id, now, old(store.tweets[id].image))
      && queue.pending == old(queue.pending) +
           (if HasRetweet(old(store.Snapshot()), u, id) then [] else [Notification(id, old(store.users[u].username))])
  {
    var original := store.GetTweet(id);
    if original.None? {
      return Some(NotFound);
    }
    var existing := store.FindRetweet(u, id);
    if existing.None? {
      assert TweetValid(store.Snapshot(), id);
      var retweet := store.InsertTweet(u, original.value.content, original.value.image, Some(id), now);
      queue.Delay(Notification(id, store.users[u].username));
    } else {
      store.DeleteTweet(existing.value.id);
    }
    r := None;
  }

  /** `FollowUserView.post`: 404 for an unknown username; `PermissionDenied`
      and no change when it names the requester; otherwise toggle the
      (requester, user) follow. */
  method FollowUser(store: Store.Store, u: UserId, username: string, now: int) returns (r: Option<ViewError>)
    requires store.Valid() && u in store.users
    modifies store
    ensures store.Valid()
    ensures (forall id | id in old(store.users) :: old(store.users)[id].username != username) ==>
      r == Some(NotFound) && store.Snapshot() == old(store.Snapshot())
    ensures forall id | id in old(store.users) && old(store.users)[id].username == username ::
      && (id == u ==> r == Some(PermissionDenied) && store.Snapshot() == old(store.Snapshot()))
      && (id != u ==> r.None? && store.Snapshot() == ToggleFollow(old(store.Snapshot()), u, id, now))
  {
    var target := store.GetUserByUsername(username);
    if target.None? {
      return Some(NotFound);
    }
    if target.value.id == u {
      return Some(PermissionDenied);
    }
    var follow, created := store.GetOrCreateFollow(u, target.value.id, now);
    if !created {
      store.DeleteFollow(follow);
    }
    r := None;
  }
}

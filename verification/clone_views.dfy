/** The request handlers of the `twitter_clone` tree. Handlers that do not
    require a login take the requester as `Option<UserId>`, `None` for an
    anonymous visitor; the others take an authenticated requester. */
module CloneViews {
  import opened Wrappers
  import opened Models
  import opened Seqs
  import opened Text
  import opened Feeds
  import Store
  import Toggles
  import Forms

  /** `Http404`, and the refused self-follow (a warning and a redirect). */
  datatype ViewError = NotFound | SelfFollowRefused

  /** `liked_tweets`: empty for an anonymous visitor. */
  function LikedFor(s: State, requester: Option<UserId>): (r: set<TweetId>)
    ensures requester.None? ==> r == {}
    ensures requester.Some? ==> forall t :: t in r <==> HasLike(s, requester.value, t)
  {
    if requester.Some? then LikedTweetIds(s, requester.value) else {}
  }

  /** A timeline as the templates receive it. */
  datatype Timeline = Timeline(tweets: seq<Tweet>, likedTweets: set<TweetId>)

  /** `home` (GET): the requester's tweets and those of the users they
      follow, newest first, with the requester's likes. */
  function Home(s: State, u: UserId): (r: Timeline)
    requires TweetsValid(s)
    ensures forall t | t in r.tweets :: Stored(s, t) && (t.user == u || IsFollowing(s, u, t.user))
    ensures forall id | id in s.tweets && (s.tweets[id].user == u || IsFollowing(s, u, s.tweets[id].user)) ::
              s.tweets[id] in r.tweets
    ensures IsNewestFirst(r.tweets) && NoDuplicates(r.tweets)
    ensures forall t :: t in r.likedTweets <==> HasLike(s, u, t)
  {
    Timeline(HomeFeed(s, u), LikedFor(s, Some(u)))
  }

  /** `home` (POST): a valid form adds one tweet by the requester with the
      cleaned content and image; an invalid one changes nothing and its
      errors are shown again. */
  method HomePost(store: Store.Store, u: UserId, data: map<string, string>, files: map<string, ImageRef>, now: int)
    returns (r: Result<Tweet, set<Forms.FieldError>>)
    requires store.Valid() && u in store.users
    modifies store
    ensures store.Valid()
    ensures Forms.Clean(data, files).Failure? ==>
      r == Failure(Forms.Clean(data, files).error) && store.Snapshot() == old(store.Snapshot())
    ensures Forms.Clean(data, files).Success? ==>
      var input := Forms.Clean(data, files).value;
      && r == Success(Tweet(old(store.nextTweetId), u, input.content, input.image, now, None))
      && store.Snapshot() == AddTweet(old(store.Snapshot()), u, input.content, input.image, None, now)
  {
    var form := new Forms.TweetForm(data, files, None);
    var draft := form.Save(store, false, now);
    if draft.Failure? {
      return Failure(form.Cleaned().error);
    }
    var tweet := store.InsertTweet(u, draft.value.content, draft.value.image, None, now);
    r := Success(tweet);
  }

  /** `explore`: every tweet, newest first. */
  function Explore(s: State, requester: Option<UserId>): (r: Timeline)
    requires TweetsValid(s)
    ensures forall t | t in r.tweets :: Stored(s, t)
    ensures forall id | id in s.tweets :: s.tweets[id] in r.tweets
    ensures IsNewestFirst(r.tweets) && NoDuplicates(r.tweets)
    ensures r.likedTweets == LikedFor(s, requester)
  {
    Timeline(ExploreFeed(s), LikedFor(s, requester))
  }

  /** A search hit: the username or the email contains the query, ignoring
      case. */
  predicate Matches(x: User, query: string) {
    IContains(x.username, query) || IContains(x.email, query)
  }

  /** Whether `users_list` shows a user. */
  predicate Listed(x: User, requester: Option<UserId>, query: string) {
    (requester.None? || x.id != requester.value) && (query == [] || Matches(x, query))
  }

  datatype UsersListing = UsersListing(users: seq<User>, following: set<UserId>, searchQuery: string)

  /** `users_list`: every user but an authenticated requester, narrowed by a
      non-empty search query, in primary-key order, with the ids the
      requester follows. */
  function UsersList(s: State, requester: Option<UserId>, query: string): (r: UsersListing)
    requires UsersValid(s)
    ensures forall x | x in r.users :: x.id in s.users && s.users[x.id] == x
    ensures forall x | x in r.users :: requester.Some? ==> x.id != requester.value
    ensures forall x | x in r.users :: query != [] ==> Matches(x, query)
    ensures forall id | id in s.users && (requester.None? || id != requester.value)
                        && (query == [] || Matches(s.users[id], query)) :: s.users[id] in r.users
    ensures Increasing(r.users, UserKey)
    ensures requester.None? ==> r.following == {}
    ensures requester.Some? ==> forall v :: v in r.following <==> IsFollowing(s, requester.value, v)
    ensures r.searchQuery == query
  {
    var users := UsersWhere(s, (x: User) => Listed(x, requester, query));
    var following := if requester.Some? then FollowingIds(s, requester.value) else {};
    UsersListing(users, following, query)
  }

  /** The search does not depend on the case of the query. */
  lemma SearchIgnoresQueryCase(s: State, requester: Option<UserId>, query: string)
    requires UsersValid(s)
    ensures UsersList(s, requester, query).users == UsersList(s, requester, LowerStr(query)).users
  {
    forall x: User ensures Listed(x, requester, query) == Listed(x, requester, LowerStr(query)) {
      IContainsIgnoresQueryCase(x.username, query);
      IContainsIgnoresQueryCase(x.email, query);
    }
    FilterAgreeing(UserRows(s), (x: User) => Listed(x, requester, query),
                   (x: User) => Listed(x, requester, LowerStr(query)));
  }

  datatype TweetDetail = TweetDetail(tweet: Tweet, liked: bool)

  /** `tweet_detail`: 404 for an unknown tweet; `liked` is false for an
      anonymous visitor and otherwise whether the requester likes it. */
  function TweetDetailContext(s: State, requester: Option<UserId>, id: TweetId): (r: Option<TweetDetail>)
    ensures r.Some? <==> id in s.tweets
    ensures r.Some? ==> r.value.tweet == s.tweets[id]
    ensures r.Some? ==> (r.value.liked <==> requester.Some? && id in LikedTweetIds(s, requester.value))
  {
    if id in s.tweets then Some(TweetDetail(s.tweets[id], IsLikedBy(s, id, requester))) else None
  }

  /** The tweet card a toggle renders. */
  datatype TweetCard = TweetCard(tweet: Tweet, likedTweets: set<TweetId>, retweetedTweets: set<TweetId>)

  /** `like_tweet`: 404 for an unknown tweet; otherwise toggle the like.
      `liked` is whether the like exists afterwards, so it flips on every
      call; the view computes it but the rendered template does not use it.
      The card's retweet set is always empty. */
  method LikeTweet(store: Store.Store, u: UserId, id: TweetId, now: int) returns (r: Result<(bool, TweetCard), ViewError>)
    requires store.Valid() && u in store.users
    modifies store
    ensures store.Valid()
    ensures id !in old(store.tweets) ==> r == Failure(NotFound) && store.Snapshot() == old(store.Snapshot())
    ensures id in old(store.tweets) ==>
      && store.Snapshot() == ToggleLike(old(store.Snapshot()), u, id, now)
      && r.Success?
      && r.value.0 == HasLike(store.Snapshot(), u, id)
      && r.value.0 == !HasLike(old(store.Snapshot()), u, id)
      && r.value.1 == TweetCard(old(store.tweets[id]), LikedTweetIds(store.Snapshot(), u), {})
  {
    var tweet := store.GetTweet(id);
    if tweet.None? {
      return Failure(NotFound);
    }
    Toggles.ToggleLikeEffect(store.Snapshot(), u, id, now);
    var like, created := store.GetOrCreateLike(u, id, now);
    var liked: bool;
    if !created {
      store.DeleteLike(like);
      liked := false;
    } else {
      liked := true;
    }
    r := Success((liked, TweetCard(tweet.value, LikedTweetIds(store.Snapshot(), u), {})));
  }

  /** An image field is truthy when it names a file. */
  predicate HasImage(t: Tweet) {
    t.image.Some? && t.image.value != []
  }

  /** The image a new retweet receives: the original's, only when it has one. */
  function CopiedImage(t: Tweet): (r: Option<ImageRef>)
    ensures HasImage(t) ==> r == t.image
    ensures !HasImage(t) ==> r.None?
  {
    if HasImage(t) then t.image else None
  }

  /** `retweet`: 404 for an unknown tweet; a requester holding a retweet of
      it loses that one (the only one, and so the first in any order);
      otherwise a retweet with the original's content, parent and image (when
      it has one) is saved. The card lists the requester's likes and, for
      this tweet, whether it is now retweeted. The returned flag is computed
      by the view and not rendered by the template. */
  method Retweet(store: Store.Store, u: UserId, id: TweetId, now: int) returns (r: Result<(bool, TweetCard), ViewError>)
    requires store.Valid() && u in store.users
    modifies store
    ensures store.Valid()
    ensures id !in old(store.tweets) ==> r == Failure(NotFound) && store.Snapshot() == old(store.Snapshot())
    ensures id in old(store.tweets) ==>
      && store.Snapshot() == ToggleRetweet(old(store.Snapshot()), u, id, now, CopiedImage(old(store.tweets[id])))
      && r.Success?
      && r.value.0 == !HasRetweet(old(store.Snapshot()), u, id)
      && r.value.0 == HasRetweet(store.Snapshot(), u, id)
      && r.value.1 == TweetCard(old(store.tweets[id]), LikedTweetIds(store.Snapshot(), u),
                                if r.value.0 then {id} else {})
  {
    var original := store.GetTweet(id);
    if original.None? {
      return Failure(NotFound);
    }
    var image := CopiedImage(original.value);
    var existing := store.FindRetweet(u, id);
    var retweeted: bool;
    if existing.Some? {
      Toggles.RetweetDeleteEffect(store.Snapshot(), u, id, now, image);
      store.DeleteTweet(existing.value.id);
      retweeted := false;
    } else {
      Toggles.RetweetCreateEffect(store.Snapshot(), u, id, now, image);
      assert TweetValid(store.Snapshot(), id);
      var retweet := store.InsertTweet(u, original.value.content, image, Some(id), now);
      retweeted := true;
    }
    var stillHeld := store.FindRetweet(u, id);
    var retweetedTweets: set<TweetId> := if stillHeld.Some? then {id} else {};
    r := Success((retweeted, TweetCard(original.value, LikedTweetIds(store.Snapshot(), u), retweetedTweets)));
  }

  datatype ProfilePage = ProfilePage(profileUser: User, tweets: seq<Tweet>, isFollowing: bool, likedTweets: set<TweetId>)

  /** `profile`: 404 for an unknown username; otherwise exactly that user's
      tweets newest first, whether the requester follows them (false for an
      anonymous visitor), and the requester's likes. */
  function Profile(s: State, requester: Option<UserId>, username: string): (r: Option<ProfilePage>)
    requires UsersValid(s) && TweetsValid(s)
    ensures r.Some? <==> exists id | id in s.users :: s.users[id].username == username
    ensures r.Some? ==> var p := r.value;
      && p.profileUser.id in s.users && s.users[p.profileUser.id] == p.profileUser
      && p.profileUser.username == username
      && (forall t | t in p.tweets :: Stored(s, t) && t.user == p.profileUser.id)
      && (forall id | id in s.tweets && s.tweets[id].user == p.profileUser.id :: s.tweets[id] in p.tweets)
      && IsNewestFirst(p.tweets) && NoDuplicates(p.tweets)
      && (p.isFollowing <==> requester.Some? && IsFollowing(s, requester.value, p.profileUser.id))
      && p.likedTweets == LikedFor(s, requester)
  {
    if exists id | id in s.users :: s.users[id].username == username then
      var id :| id in s.users && s.users[id].username == username;
      var isFollowing := requester.Some? && IsFollowing(s, requester.value, id);
      Some(ProfilePage(s.users[id], ProfileTweets(s, id), isFollowing, LikedFor(s, requester)))
    else None
  }

  /** The JSON answer to an XHR follow request. */
  datatype FollowResponse = FollowResponse(isFollowing: bool, followersCount: nat)

  /** `follow_user`: 404 for an unknown username; the requester's own name
      is refused and changes nothing; otherwise the (requester, user) follow
      is toggled and the new state and follower count are answered. */
  method FollowUser(store: Store.Store, u: UserId, username: string, now: int) returns (r: Result<FollowResponse, ViewError>)
    requires store.Valid() && u in store.users
    modifies store
    ensures store.Valid()
    ensures (forall id | id in old(store.users) :: old(store.users)[id].username != username) ==>
      r == Failure(NotFound) && store.Snapshot() == old(store.Snapshot())
    ensures forall id | id in old(store.users) && old(store.users)[id].username == username ::
      && (id == u ==> r == Failure(SelfFollowRefused) && store.Snapshot() == old(store.Snapshot()))
      && (id != u ==>
            && store.Snapshot() == ToggleFollow(old(store.Snapshot()), u, id, now)
            && r.Success?
            && r.value.isFollowing == IsFollowing(store.Snapshot(), u, id)
            && r.value.isFollowing == !IsFollowing(old(store.Snapshot()), u, id)
            && r.value.followersCount == FollowersCount(store.Snapshot(), id))
  {
    var target := store.GetUserByUsername(username);
    if target.None? {
      return Failure(NotFound);
    }
    var id := target.value.id;
    if id == u {
      return Failure(SelfFollowRefused);
    }
    Toggles.ToggleFollowEffect(store.Snapshot(), u, id, now);
    var follow, created := store.GetOrCreateFollow(u, id, now);
    var isFollowing: bool;
    if !created {
      store.DeleteFollow(follow);
      isFollowing := false;
    } else {
      isFollowing := true;
    }
    r := Success(FollowResponse(isFollowing, FollowersCount(store.Snapshot(), id)));
  }
}

/** The data model of the microblog: users, tweets (a retweet is a tweet with
    a parent), like edges and follow edges, held together as one store state.
    The `unique_together` constraints, the foreign keys with `on_delete=CASCADE`
    and the invariants the request handlers keep are stated in `Valid`; the
    count and existence helpers of the models are functions over the state. */
module Models {
  import opened Wrappers

  type UserId = nat
  type TweetId = nat
  /** An uploaded image, known only by its stored file name. */
  type ImageRef = string

  /** `Tweet.content` is declared with `max_length=280`. */
  const MaxContentLength: nat := 280

  datatype User = User(id: UserId, username: string, email: string)

  datatype Tweet = Tweet(
    id: TweetId,
    user: UserId,
    content: string,
    image: Option<ImageRef>,
    createdAt: int,
    parent: Option<TweetId>)

  datatype Like = Like(user: UserId, tweet: TweetId, createdAt: int)

  datatype Follow = Follow(follower: UserId, following: UserId, createdAt: int)

  /** The database: every table keyed or listed as the ORM sees it. Primary
      keys are handed out in increasing order, so every stored key is below
      the next one to be handed out. */
  datatype State = State(
    users: map<UserId, User>,
    nextUserId: UserId,
    tweets: map<TweetId, Tweet>,
    nextTweetId: TweetId,
    likes: set<Like>,
    follows: set<Follow>)

  // ---------------------------------------------------------------------
  // Invariants

  ghost predicate UsersValid(s: State) {
    && (forall id | id in s.users :: id < s.nextUserId && s.users[id].id == id)
    && (forall a, b | a in s.users && b in s.users && s.users[a].username == s.users[b].username :: a == b)
  }

  /** A stored tweet: its own key, an existing author, content within the
      bound and, for a retweet, an existing parent created before it. */
  ghost predicate TweetValid(s: State, id: TweetId)
    requires id in s.tweets
  {
    var t := s.tweets[id];
    && id < s.nextTweetId
    && t.id == id
    && t.user in s.users
    && |t.content| <= MaxContentLength
    && (t.parent.Some? ==> t.parent.value < id && t.parent.value in s.tweets)
  }

  ghost predicate TweetsValid(s: State) {
    forall id | id in s.tweets :: TweetValid(s, id)
  }

  /** A user holds at most one retweet of a given tweet. */
  ghost predicate RetweetsUnique(s: State) {
    forall a, b | a in s.tweets && b in s.tweets && s.tweets[a].parent.Some?
                  && s.tweets[a].parent == s.tweets[b].parent && s.tweets[a].user == s.tweets[b].user :: a == b
  }

  /** Likes reference existing rows; `unique_together = ('user', 'tweet')`. */
  ghost predicate LikesValid(s: State) {
    && (forall l | l in s.likes :: l.user in s.users && l.tweet in s.tweets)
    && (forall l, m | l in s.likes && m in s.likes && l.user == m.user && l.tweet == m.tweet :: l == m)
  }

  /** Follows reference existing users and never a user's own self;
      `unique_together = ('follower', 'following')`. */
  ghost predicate FollowsValid(s: State) {
    && (forall f | f in s.follows :: f.follower in s.users && f.following in s.users && f.follower != f.following)
    && (forall f, g | f in s.follows && g in s.follows && f.follower == g.follower && f.following == g.following :: f == g)
  }

  ghost predicate Valid(s: State) {
    UsersValid(s) && TweetsValid(s) && RetweetsUnique(s) && LikesValid(s) && FollowsValid(s)
  }

  // ---------------------------------------------------------------------
  // Existence checks and counts

  predicate HasLike(s: State, u: UserId, t: TweetId) {
    exists l | l in s.likes :: l.user == u && l.tweet == t
  }

  predicate IsFollowing(s: State, follower: UserId, following: UserId) {
    exists f | f in s.follows :: f.follower == follower && f.following == following
  }

  predicate HasRetweet(s: State, u: UserId, t: TweetId) {
    exists id | id in s.tweets :: s.tweets[id].user == u && s.tweets[id].parent == Some(t)
  }

  function LikesOf(s: State, t: TweetId): set<Like> {
    set l | l in s.likes && l.tweet == t
  }

  /** `Tweet.get_likes_count`. */
  function LikesCount(s: State, t: TweetId): nat {
    |LikesOf(s, t)|
  }

  function RetweetsOf(s: State, t: TweetId): set<TweetId> {
    set id | id in s.tweets && s.tweets[id].parent == Some(t)
  }

  /** `Tweet.get_retweets_count`. */
  function RetweetsCount(s: State, t: TweetId): nat {
    |RetweetsOf(s, t)|
  }

  function FollowingOf(s: State, u: UserId): set<Follow> {
    set f | f in s.follows && f.follower == u
  }

  function FollowersOf(s: State, u: UserId): set<Follow> {
    set f | f in s.follows && f.following == u
  }

  function TweetsOf(s: State, u: UserId): set<TweetId> {
    set id | id in s.tweets && s.tweets[id].user == u
  }

  /** `Profile.get_following_count`. */
  function FollowingCount(s: State, u: UserId): nat {
    |FollowingOf(s, u)|
  }

  /** `Profile.get_followers_count`. */
  function FollowersCount(s: State, u: UserId): nat {
    |FollowersOf(s, u)|
  }

  /** `Profile.get_tweets_count`. */
  function TweetsCount(s: State, u: UserId): nat {
    |TweetsOf(s, u)|
  }

  /** `Tweet.is_retweet`. */
  predicate IsRetweet(t: Tweet) {
    t.parent.Some?
  }

  /** `Tweet.is_liked_by`: an anonymous visitor (`None`) has liked nothing. */
  function IsLikedBy(s: State, t: TweetId, user: Option<UserId>): (r: bool)
    ensures user.None? ==> !r
    ensures user.Some? ==> (r <==> exists l | l in LikesOf(s, t) :: l.user == user.value)
    ensures r ==> LikesCount(s, t) > 0
  {
    user.Some? && HasLike(s, user.value, t)
  }

  // ---------------------------------------------------------------------
  // Row insertions and deletions

  function AddLike(s: State, u: UserId, t: TweetId, now: int): State {
    s.(likes := s.likes + {Like(u, t, now)})
  }

  function RemoveLike(s: State, u: UserId, t: TweetId): State {
    s.(likes := set l | l in s.likes && !(l.user == u && l.tweet == t))
  }

  /** The like toggle: create the (user, tweet) like when absent, delete it
      when present. */
  function ToggleLike(s: State, u: UserId, t: TweetId, now: int): State {
    if HasLike(s, u, t) then RemoveLike(s, u, t) else AddLike(s, u, t, now)
  }

  function AddFollow(s: State, a: UserId, b: UserId, now: int): State {
    s.(follows := s.follows + {Follow(a, b, now)})
  }

  function RemoveFollow(s: State, a: UserId, b: UserId): State {
    s.(follows := set f | f in s.follows && !(f.follower == a && f.following == b))
  }

  /** The follow toggle, once the self-follow guard has passed. */
  function ToggleFollow(s: State, a: UserId, b: UserId, now: int): State {
    if IsFollowing(s, a, b) then RemoveFollow(s, a, b) else AddFollow(s, a, b, now)
  }

  /** Saving a new tweet: it receives the next primary key and the current
      time as `created_at`. */
  function AddTweet(s: State, user: UserId, content: string, image: Option<ImageRef>,
                    parent: Option<TweetId>, now: int): State
  {
    var id := s.nextTweetId;
    s.(tweets := s.tweets[id := Tweet(id, user, content, image, now, parent)], nextTweetId := id + 1)
  }

  /** The tweets removed with `root` by the cascading parent key, among the
      keys below `k`: the root, and every tweet whose parent is removed.
      Parents have smaller keys than their children, so one pass in key
      order reaches every descendant. */
  function Subtree(s: State, root: TweetId, k: nat): set<TweetId>
    decreases k
  {
    if k == 0 then {root}
    else
      var d := Subtree(s, root, k - 1);
      var id := k - 1;
      if id in s.tweets && s.tweets[id].parent.Some? && s.tweets[id].parent.value in d then d + {id} else d
  }

  function Doomed(s: State, root: TweetId): set<TweetId> {
    Subtree(s, root, s.nextTweetId)
  }

  /** `tweet.delete()`: the tweet, all tweets below it through `parent`, and
      every like on any of them. */
  function DeleteTweet(s: State, root: TweetId): State {
    var d := Doomed(s, root);
    s.(tweets := s.tweets - d, likes := set l | l in s.likes && l.tweet !in d)
  }

  /** The retweet of `t` held by `u` (unique in a valid state). */
  ghost function RetweetOf(s: State, u: UserId, t: TweetId): (r: TweetId)
    requires HasRetweet(s, u, t)
    ensures r in s.tweets && s.tweets[r].user == u && s.tweets[r].parent == Some(t)
  {
    var id :| id in s.tweets && s.tweets[id].user == u && s.tweets[id].parent == Some(t); id
  }

  /** The retweet toggle: delete the user's retweet of `t` when there is one,
      otherwise save a new tweet by the user with parent `t` and `t`'s
      content; `image` is what the handler copies from `t`. */
  ghost function ToggleRetweet(s: State, u: UserId, t: TweetId, now: int, image: Option<ImageRef>): State
    requires t in s.tweets
  {
    if HasRetweet(s, u, t) then DeleteTweet(s, RetweetOf(s, u, t))
    else AddTweet(s, u, s.tweets[t].content, image, Some(t), now)
  }
}

/** The read-only JSON API: the follow-scoped tweet list of the viewset and
    the fields the tweet serializer derives for each row. */
module Api {
  import opened Wrappers
  import opened Models
  import opened Seqs
  import opened Feeds

  /** `TweetViewSet.get_queryset` for an authenticated requester: their own
      tweets and those of the users they follow, in the model's default
      `-created_at` order. A function of the state: the viewset only reads. */
  function FeedQueryset(s: State, u: UserId): (r: seq<Tweet>)
    requires TweetsValid(s)
    ensures forall t | t in r :: Stored(s, t) && (t.user == u || IsFollowing(s, u, t.user))
    ensures forall id | id in s.tweets && (s.tweets[id].user == u || IsFollowing(s, u, s.tweets[id].user)) ::
              s.tweets[id] in r
    ensures IsNewestFirst(r)
    ensures NoDuplicates(r)
  {
    HomeFeed(s, u)
  }

  /** A requester who follows nobody sees exactly their own tweets. */
  lemma FollowsNobodySeesOwnTweets(s: State, u: UserId)
    requires TweetsValid(s) && FollowingCount(s, u) == 0
    ensures forall t | t in FeedQueryset(s, u) :: t.user == u
    ensures forall id | id in s.tweets && s.tweets[id].user == u :: s.tweets[id] in FeedQueryset(s, u)
  {
    assert FollowingOf(s, u) == {};
    assert forall f | f in s.follows :: (f in FollowingOf(s, u) <==> f.follower == u);
  }

  /** `serializer.context`: built by the viewset with the request, or
      without one when the serializer is used on its own; a request's user
      is `None` when anonymous. */
  datatype SerializerContext = NoRequest | WithRequest(user: Option<UserId>)

  /** `TweetSerializer.get_is_liked`. */
  function GetIsLiked(s: State, t: TweetId, ctx: SerializerContext): (r: bool)
    ensures (ctx.NoRequest? || ctx.user.None?) ==> !r
    ensures ctx.WithRequest? && ctx.user.Some? ==> (r <==> t in LikedTweetIds(s, ctx.user.value))
  {
    if ctx.WithRequest? && ctx.user.Some? then IsLikedBy(s, t, ctx.user) else false
  }

  /** One serialized tweet, with the fields of `Meta.fields`. */
  datatype TweetData = TweetData(
    id: TweetId,
    username: string,
    content: string,
    image: Option<ImageRef>,
    createdAt: int,
    likesCount: nat,
    retweetsCount: nat,
    isLiked: bool,
    isRetweet: bool,
    parent: Option<TweetId>)

  /** `TweetSerializer(tweet).data`: the stored columns, the author's
      username, and the derived read-only fields. */
  function Serialize(s: State, t: Tweet, ctx: SerializerContext): (r: TweetData)
    requires t.user in s.users
    ensures r.id == t.id && r.content == t.content && r.image == t.image
         && r.createdAt == t.createdAt && r.parent == t.parent
    ensures r.username == s.users[t.user].username
    ensures r.likesCount == LikesCount(s, t.id) && r.retweetsCount == RetweetsCount(s, t.id)
    ensures r.isRetweet <==> t.parent.Some?
    ensures r.isLiked == GetIsLiked(s, t.id, ctx)
  {
    TweetData(t.id, s.users[t.user].username, t.content, t.image, t.createdAt,
              LikesCount(s, t.id), RetweetsCount(s, t.id), GetIsLiked(s, t.id, ctx), IsRetweet(t), t.parent)
  }

  /** The serialized list the viewset answers with (for the queryset
      `FeedQueryset(s, u)` and the context `WithRequest(Some(u))`): one entry
      per row, in the queryset's order. */
  function SerializeList(s: State, ts: seq<Tweet>, ctx: SerializerContext): (r: seq<TweetData>)
    requires TweetsValid(s) && forall t | t in ts :: Stored(s, t)
    ensures |r| == |ts|
    ensures forall i :: 0 <= i < |r| ==> ts[i].user in s.users && r[i] == Serialize(s, ts[i], ctx)
  {
    if ts == [] then []
    else
      assert ts[0] in ts;
      assert Stored(s, ts[0]);
      assert ts[0].id in s.tweets;
      assert TweetValid(s, ts[0].id);
      [Serialize(s, ts[0], ctx)] + SerializeList(s, ts[1..], ctx)
  }

  /** A set and its image under a map that is one-to-one on it have the same
      size. */
  lemma {:induction false} InjectiveImageSize<A, B>(xs: set<A>, ys: set<B>, f: A -> B)
    requires forall x, y | x in xs && y in xs && f(x) == f(y) :: x == y
    requires forall x | x in xs :: f(x) in ys
    requires forall y | y in ys :: exists x :: x in xs && f(x) == y
    ensures |ys| == |xs|
  {
    if xs != {} {
      var x :| x in xs;
      var xs', ys' := xs - {x}, ys - {f(x)};
      forall y | y in ys' ensures exists x' :: x' in xs' && f(x') == y {
        var x' :| x' in xs && f(x') == y;
      }
      InjectiveImageSize(xs', ys', f);
    }
  }

  /** `likes_count` is the number of distinct users who liked the tweet. */
  lemma LikesCountCountsLikers(s: State, t: TweetId)
    requires LikesValid(s)
    ensures var likers := set l | l in LikesOf(s, t) :: l.user;
      && LikesCount(s, t) == |likers|
      && forall u :: u in likers <==> HasLike(s, u, t)
  {
    var likers := set l | l in LikesOf(s, t) :: l.user;
    InjectiveImageSize(LikesOf(s, t), likers, (l: Like) => l.user);
  }

  /** `retweets_count` is the number of distinct users who retweeted the
      tweet. */
  lemma RetweetsCountCountsRetweeters(s: State, t: TweetId)
    requires RetweetsUnique(s)
    ensures var retweeters := set id | id in RetweetsOf(s, t) :: s.tweets[id].user;
      && RetweetsCount(s, t) == |retweeters|
      && forall u :: u in retweeters <==> HasRetweet(s, u, t)
  {
    var retweeters := set id | id in RetweetsOf(s, t) :: s.tweets[id].user;
    InjectiveImageSize(RetweetsOf(s, t), retweeters, (id: TweetId) => if id in s.tweets then s.tweets[id].user else 0);
  }
}

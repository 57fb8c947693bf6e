/** The database as one object whose tables the request handlers change in
    place through the ORM: `get_or_create`, `save` and `delete` on rows. */
module Store {
  import opened Wrappers
  import opened Models
  import Cascade
  import Toggles

  class Store {
    var users: map<UserId, User>
    var nextUserId: UserId
    var tweets: map<TweetId, Tweet>
    var nextTweetId: TweetId
    var likes: set<Like>
    var follows: set<Follow>

    /** The tables as a value. */
    function Snapshot(): State
      reads this
    {
      State(users, nextUserId, tweets, nextTweetId, likes, follows)
    }

    ghost predicate Valid()
      reads this
    {
      Models.Valid(Snapshot())
    }

    /** A database with the given accounts and no tweets, likes or follows. */
    constructor (users: map<UserId, User>, nextUserId: UserId)
      requires UsersValid(State(users, nextUserId, map[], 0, {}, {}))
      ensures Valid()
      ensures Snapshot() == State(users, nextUserId, map[], 0, {}, {})
    {
      this.users := users;
      this.nextUserId := nextUserId;
      this.tweets := map[];
      this.nextTweetId := 0;
      this.likes := {};
      this.follows := {};
    }

    /** `get_object_or_404(Tweet, id=...)`: `None` stands for the 404. */
    method GetTweet(id: TweetId) returns (r: Option<Tweet>)
      ensures r.Some? <==> id in tweets
      ensures r.Some? ==> r.value == tweets[id]
    {
      if id in tweets {
        r := Some(tweets[id]);
      } else {
        r := None;
      }
    }

    /** `get_object_or_404(User, username=...)`: `None` stands for the 404. */
    method GetUserByUsername(username: string) returns (r: Option<User>)
      requires Valid()
      ensures r.Some? <==> exists id | id in users :: users[id].username == username
      ensures r.Some? ==> r.value.id in users && users[r.value.id] == r.value && r.value.username == username
    {
      if exists id | id in users :: users[id].username == username {
        var id :| id in users && users[id].username == username;
        r := Some(users[id]);
      } else {
        r := None;
      }
    }

    /** `Like.objects.get_or_create(user=u, tweet=t)`. */
    method GetOrCreateLike(u: UserId, t: TweetId, now: int) returns (like: Like, created: bool)
      requires Valid() && u in users && t in tweets
      modifies this
      ensures Valid()
      ensures created == !HasLike(old(Snapshot()), u, t)
      ensures like.user == u && like.tweet == t && like in likes
      ensures Snapshot() == if created then AddLike(old(Snapshot()), u, t, now) else old(Snapshot())
    {
      if exists l | l in likes :: l.user == u && l.tweet == t {
        like :| like in likes && like.user == u && like.tweet == t;
        created := false;
      } else {
        Toggles.ToggleLikeEffect(Snapshot(), u, t, now);
        like := Like(u, t, now);
        likes := likes + {like};
        created := true;
      }
    }

    /** `like.delete()`: by the uniqueness of (user, tweet), the one like of
        that pair. */
    method DeleteLike(like: Like)
      requires Valid() && like in likes
      modifies this
      ensures Valid()
      ensures Snapshot() == RemoveLike(old(Snapshot()), like.user, like.tweet)
    {
      Toggles.ToggleLikeEffect(Snapshot(), like.user, like.tweet, like.createdAt);
      likes := likes - {like};
      assert likes == RemoveLike(old(Snapshot()), like.user, like.tweet).likes;
    }

    /** `Follow.objects.get_or_create(follower=a, following=b)`. */
    method GetOrCreateFollow(a: UserId, b: UserId, now: int) returns (follow: Follow, created: bool)
      requires Valid() && a in users && b in users && a != b
      modifies this
      ensures Valid()
      ensures created == !IsFollowing(old(Snapshot()), a, b)
      ensures follow.follower == a && follow.following == b && follow in follows
      ensures Snapshot() == if created then AddFollow(old(Snapshot()), a, b, now) else old(Snapshot())
    {
      if exists f | f in follows :: f.follower == a && f.following == b {
        follow :| follow in follows && follow.follower == a && follow.following == b;
        created := false;
      } else {
        Toggles.ToggleFollowEffect(Snapshot(), a, b, now);
        follow := Follow(a, b, now);
        follows := follows + {follow};
        created := true;
      }
    }

    /** `follow.delete()`: by the uniqueness of (follower, following), the one
        edge of that pair. */
    method DeleteFollow(follow: Follow)
      requires Valid() && follow in follows
      modifies this
      ensures Valid()
      ensures Snapshot() == RemoveFollow(old(Snapshot()), follow.follower, follow.following)
    {
      Toggles.ToggleFollowEffect(Snapshot(), follow.follower, follow.following, follow.createdAt);
      follows := follows - {follow};
      assert follows == RemoveFollow(old(Snapshot()), follow.follower, follow.following).follows;
    }

    /** `Tweet(...).save()` of a new row: the next key and `created_at = now`.
        A retweet may only be saved by a user who does not hold one yet. */
    method InsertTweet(user: UserId, content: string, image: Option<ImageRef>, parent: Option<TweetId>, now: int)
      returns (t: Tweet)
      requires Valid() && user in users && |content| <= MaxContentLength
      requires parent.Some? ==> parent.value in tweets && !HasRetweet(Snapshot(), user, parent.value)
      modifies this
      ensures Valid()
      ensures Snapshot() == AddTweet(old(Snapshot()), user, content, image, parent, now)
      ensures t == Tweet(old(nextTweetId), user, content, image, now, parent)
    {
      Toggles.AddTweetValid(Snapshot(), user, content, image, parent, now);
      t := Tweet(nextTweetId, user, content, image, now, parent);
      tweets := tweets[nextTweetId := t];
      nextTweetId := nextTweetId + 1;
    }

    /** `Tweet.objects.filter(parent=t, user=u)`: at most one row, the user's
        retweet of `t`, when there is one. */
    method FindRetweet(u: UserId, t: TweetId) returns (r: Option<Tweet>)
      requires Valid()
      ensures r.Some? <==> HasRetweet(Snapshot(), u, t)
      ensures r.Some? ==> r.value.id == RetweetOf(Snapshot(), u, t) && r.value.id in tweets
                          && tweets[r.value.id] == r.value
    {
      if exists id | id in tweets :: tweets[id].user == u && tweets[id].parent == Some(t) {
        var id :| id in tweets && tweets[id].user == u && tweets[id].parent == Some(t);
        Toggles.RetweetUnique(Snapshot(), u, t);
        assert TweetValid(Snapshot(), id);
        r := Some(tweets[id]);
      } else {
        r := None;
      }
    }

    /** `tweet.delete()`, with the cascades on `Tweet.parent` and `Like.tweet`. */
    method DeleteTweet(id: TweetId)
      requires Valid() && id in tweets
      modifies this
      ensures Valid()
      ensures Snapshot() == Models.DeleteTweet(old(Snapshot()), id)
    {
      var after := Models.DeleteTweet(Snapshot(), id);
      Cascade.DeleteTweetKeepsValid(Snapshot(), id);
      tweets, likes := after.tweets, after.likes;
    }
  }
}

/** The three toggles as two-state machines keyed by (actor, target): what
    one call changes, what it leaves alone, the counts it moves, and what two
    or more calls in a row amount to. */
module Toggles {
  import opened Wrappers
  import opened Models
  import opened Cascade

  // ---------------------------------------------------------------------
  // Like

  /** One like toggle keeps the store valid, flips the (user, tweet) like and
      no other, and touches no other table. */
  lemma ToggleLikeEffect(s: State, u: UserId, t: TweetId, now: int)
    requires Valid(s) && u in s.users && t in s.tweets
    ensures var s' := ToggleLike(s, u, t, now);
      && Valid(s')
      && s'.users == s.users && s'.tweets == s.tweets && s'.nextTweetId == s.nextTweetId && s'.follows == s.follows
      && HasLike(s', u, t) == !HasLike(s, u, t)
      && (forall v, x | v != u || x != t :: HasLike(s', v, x) == HasLike(s, v, x))
  {
    var s' := ToggleLike(s, u, t, now);
    if HasLike(s, u, t) {
      assert !HasLike(s', u, t);
    } else {
      var l0 := Like(u, t, now);
      assert l0 in s'.likes;
      forall l, m | l in s'.likes && m in s'.likes && l.user == m.user && l.tweet == m.tweet
        ensures l == m
      {
        if l == l0 || m == l0 {
          assert l in s.likes ==> l == l0;
          assert m in s.likes ==> m == l0;
        }
      }
    }
  }

  lemma LikesCountAfterRemove(s: State, u: UserId, t: TweetId)
    requires LikesValid(s) && HasLike(s, u, t)
    ensures LikesCount(RemoveLike(s, u, t), t) == LikesCount(s, t) - 1
  {
    var l0 :| l0 in s.likes && l0.user == u && l0.tweet == t;
    assert LikesOf(RemoveLike(s, u, t), t) == LikesOf(s, t) - {l0};
  }

  lemma LikesCountAfterAdd(s: State, u: UserId, t: TweetId, now: int)
    requires !HasLike(s, u, t)
    ensures LikesCount(AddLike(s, u, t, now), t) == LikesCount(s, t) + 1
  {
    var l0 := Like(u, t, now);
    assert l0 !in s.likes;
    assert LikesOf(AddLike(s, u, t, now), t) == LikesOf(s, t) + {l0};
  }

  /** `get_likes_count` of the toggled tweet moves by one in the direction of
      the toggle; every other tweet's count stays. */
  lemma ToggleLikeCount(s: State, u: UserId, t: TweetId, now: int)
    requires Valid(s) && u in s.users && t in s.tweets
    ensures var s' := ToggleLike(s, u, t, now);
      && LikesCount(s', t) == (if HasLike(s, u, t) then LikesCount(s, t) - 1 else LikesCount(s, t) + 1)
      && (forall x | x != t :: LikesCount(s', x) == LikesCount(s, x))
  {
    var s' := ToggleLike(s, u, t, now);
    if HasLike(s, u, t) {
      LikesCountAfterRemove(s, u, t);
    } else {
      LikesCountAfterAdd(s, u, t, now);
    }
    forall x | x != t ensures LikesCount(s', x) == LikesCount(s, x) {
      assert LikesOf(s', x) == LikesOf(s, x);
    }
  }

  /** Two like toggles in a row restore every (user, tweet) like and the
      count; starting from "not liked" they restore the store exactly. */
  lemma ToggleLikeTwice(s: State, u: UserId, t: TweetId, now1: int, now2: int)
    requires Valid(s) && u in s.users && t in s.tweets
    ensures var s2 := ToggleLike(ToggleLike(s, u, t, now1), u, t, now2);
      && Valid(s2)
      && s2.users == s.users && s2.tweets == s.tweets && s2.follows == s.follows
      && (forall v, x :: HasLike(s2, v, x) == HasLike(s, v, x))
      && LikesCount(s2, t) == LikesCount(s, t)
      && (!HasLike(s, u, t) ==> s2 == s)
  {
    var s1 := ToggleLike(s, u, t, now1);
    ToggleLikeEffect(s, u, t, now1);
    ToggleLikeEffect(s1, u, t, now2);
    ToggleLikeCount(s, u, t, now1);
    ToggleLikeCount(s1, u, t, now2);
    if !HasLike(s, u, t) {
      var s2 := ToggleLike(s1, u, t, now2);
      assert s2.likes == s.likes;
    }
  }

  // ---------------------------------------------------------------------
  // Follow

  /** One follow toggle between two different users keeps the store valid,
      flips that edge and no other, and touches no other table. */
  lemma ToggleFollowEffect(s: State, a: UserId, b: UserId, now: int)
    requires Valid(s) && a in s.users && b in s.users && a != b
    ensures var s' := ToggleFollow(s, a, b, now);
      && Valid(s')
      && s'.users == s.users && s'.tweets == s.tweets && s'.nextTweetId == s.nextTweetId && s'.likes == s.likes
      && IsFollowing(s', a, b) == !IsFollowing(s, a, b)
      && (forall x, y | x != a || y != b :: IsFollowing(s', x, y) == IsFollowing(s, x, y))
  {
    var s' := ToggleFollow(s, a, b, now);
    if IsFollowing(s, a, b) {
      assert !IsFollowing(s', a, b);
    } else {
      var f0 := Follow(a, b, now);
      assert f0 in s'.follows;
      forall f, g | f in s'.follows && g in s'.follows && f.follower == g.follower && f.following == g.following
        ensures f == g
      {
        if f == f0 || g == f0 {
          assert f in s.follows ==> f == f0;
          assert g in s.follows ==> g == f0;
        }
      }
    }
  }

  lemma FollowCountsAfterRemove(s: State, a: UserId, b: UserId)
    requires FollowsValid(s) && IsFollowing(s, a, b)
    ensures FollowersCount(RemoveFollow(s, a, b), b) == FollowersCount(s, b) - 1
    ensures FollowingCount(RemoveFollow(s, a, b), a) == FollowingCount(s, a) - 1
  {
    var s' := RemoveFollow(s, a, b);
    var f0 :| f0 in s.follows && f0.follower == a && f0.following == b;
    assert FollowersOf(s', b) == FollowersOf(s, b) - {f0};
    assert FollowingOf(s', a) == FollowingOf(s, a) - {f0};
  }

  lemma FollowCountsAfterAdd(s: State, a: UserId, b: UserId, now: int)
    requires !IsFollowing(s, a, b)
    ensures FollowersCount(AddFollow(s, a, b, now), b) == FollowersCount(s, b) + 1
    ensures FollowingCount(AddFollow(s, a, b, now), a) == FollowingCount(s, a) + 1
  {
    var s' := AddFollow(s, a, b, now);
    var f0 := Follow(a, b, now);
    assert f0 !in s.follows;
    assert FollowersOf(s', b) == FollowersOf(s, b) + {f0};
    assert FollowingOf(s', a) == FollowingOf(s, a) + {f0};
  }

  /** The follower count of the target and the following count of the actor
      move by one in the direction of the toggle; all other counts stay. */
  lemma ToggleFollowCounts(s: State, a: UserId, b: UserId, now: int)
    requires Valid(s) && a in s.users && b in s.users && a != b
    ensures var s' := ToggleFollow(s, a, b, now);
      && FollowersCount(s', b) == (if IsFollowing(s, a, b) then FollowersCount(s, b) - 1 else FollowersCount(s, b) + 1)
      && FollowingCount(s', a) == (if IsFollowing(s, a, b) then FollowingCount(s, a) - 1 else FollowingCount(s, a) + 1)
      && (forall w | w != b :: FollowersCount(s', w) == FollowersCount(s, w))
      && (forall w | w != a :: FollowingCount(s', w) == FollowingCount(s, w))
  {
    var s' := ToggleFollow(s, a, b, now);
    if IsFollowing(s, a, b) {
      FollowCountsAfterRemove(s, a, b);
    } else {
      FollowCountsAfterAdd(s, a, b, now);
    }
    forall w | w != b ensures FollowersCount(s', w) == FollowersCount(s, w) {
      assert FollowersOf(s', w) == FollowersOf(s, w);
    }
    forall w | w != a ensures FollowingCount(s', w) == FollowingCount(s, w) {
      assert FollowingOf(s', w) == FollowingOf(s, w);
    }
  }

  /** The follow toggle applied once per timestamp in `nows`. */
  function ToggleFollowRepeatedly(s: State, a: UserId, b: UserId, nows: seq<int>): State
    decreases |nows|
  {
    if nows == [] then s
    else ToggleFollowRepeatedly(ToggleFollow(s, a, b, nows[0]), a, b, nows[1..])
  }

  /** After an odd number of follow toggles the edge is flipped, after an even
      number (zero included) it is as it was; the store stays valid. */
  lemma {:induction false} ToggleFollowParity(s: State, a: UserId, b: UserId, nows: seq<int>)
    requires Valid(s) && a in s.users && b in s.users && a != b
    ensures var s' := ToggleFollowRepeatedly(s, a, b, nows);
      && Valid(s')
      && IsFollowing(s', a, b) == (IsFollowing(s, a, b) != (|nows| % 2 == 1))
    decreases |nows|
  {
    if nows != [] {
      var s1 := ToggleFollow(s, a, b, nows[0]);
      ToggleFollowEffect(s, a, b, nows[0]);
      assert Valid(s1) && s1.users == s.users;
      assert IsFollowing(s1, a, b) == !IsFollowing(s, a, b);
      ToggleFollowParity(s1, a, b, nows[1..]);
      assert ToggleFollowRepeatedly(s, a, b, nows) == ToggleFollowRepeatedly(s1, a, b, nows[1..]);
      assert (|nows[1..]| % 2 == 1) == (|nows| % 2 != 1);
    }
  }

  // ---------------------------------------------------------------------
  // Tweets and retweets

  lemma AddTweetValid(s: State, user: UserId, content: string, image: Option<ImageRef>,
                      parent: Option<TweetId>, now: int)
    requires Valid(s) && user in s.users && |content| <= MaxContentLength
    requires parent.Some? ==> parent.value in s.tweets && !HasRetweet(s, user, parent.value)
    ensures s.nextTweetId !in s.tweets
    ensures Valid(AddTweet(s, user, content, image, parent, now))
  {
    var s' := AddTweet(s, user, content, image, parent, now);
    var id := s.nextTweetId;
    assert id !in s.tweets;
    forall x | x in s'.tweets ensures TweetValid(s', x) {
      if x != id { assert TweetValid(s, x); }
    }
  }

  lemma AddTweetCounts(s: State, user: UserId, content: string, image: Option<ImageRef>,
                       parent: Option<TweetId>, now: int)
    requires s.nextTweetId !in s.tweets
    ensures var s' := AddTweet(s, user, content, image, parent, now);
      && TweetsCount(s', user) == TweetsCount(s, user) + 1
      && (parent.Some? ==> RetweetsCount(s', parent.value) == RetweetsCount(s, parent.value) + 1)
  {
    var s' := AddTweet(s, user, content, image, parent, now);
    var id := s.nextTweetId;
    assert TweetsOf(s', user) == TweetsOf(s, user) + {id};
    if parent.Some? {
      assert RetweetsOf(s', parent.value) == RetweetsOf(s, parent.value) + {id};
    }
  }

  /** Saving a new tweet keeps the store valid, adds exactly that row under the
      next key, and raises the author's tweet count (and the parent's retweet
      count, for a retweet) by one. */
  lemma AddTweetEffect(s: State, user: UserId, content: string, image: Option<ImageRef>,
                       parent: Option<TweetId>, now: int)
    requires Valid(s) && user in s.users && |content| <= MaxContentLength
    requires parent.Some? ==> parent.value in s.tweets && !HasRetweet(s, user, parent.value)
    ensures var s' := AddTweet(s, user, content, image, parent, now);
      var id := s.nextTweetId;
      && Valid(s')
      && id !in s.tweets && s'.tweets.Keys == s.tweets.Keys + {id}
      && s'.tweets[id] == Tweet(id, user, content, image, now, parent)
      && (forall x | x in s.tweets :: s'.tweets[x] == s.tweets[x])
      && s'.users == s.users && s'.likes == s.likes && s'.follows == s.follows
      && TweetsCount(s', user) == TweetsCount(s, user) + 1
      && (parent.Some? ==> RetweetsCount(s', parent.value) == RetweetsCount(s, parent.value) + 1)
  {
    AddTweetValid(s, user, content, image, parent, now);
    AddTweetCounts(s, user, content, image, parent, now);
  }

  /** A user's retweet of a tweet is the only one they hold. */
  lemma RetweetUnique(s: State, u: UserId, t: TweetId)
    requires Valid(s) && HasRetweet(s, u, t)
    ensures forall id | id in s.tweets && s.tweets[id].user == u && s.tweets[id].parent == Some(t) ::
              id == RetweetOf(s, u, t)
  {
  }

  /** Retweeting when not yet retweeted adds one tweet by the user whose parent
      is the original and whose content is the original's, and nothing else. */
  lemma RetweetCreateEffect(s: State, u: UserId, t: TweetId, now: int, image: Option<ImageRef>)
    requires Valid(s) && u in s.users && t in s.tweets && !HasRetweet(s, u, t)
    ensures var s' := ToggleRetweet(s, u, t, now, image);
      var id := s.nextTweetId;
      && Valid(s')
      && s'.tweets.Keys == s.tweets.Keys + {id} && id !in s.tweets
      && s'.tweets[id].user == u && s'.tweets[id].parent == Some(t)
      && s'.tweets[id].content == s.tweets[t].content && s'.tweets[id].image == image
      && s'.tweets[id].createdAt == now
      && (forall x | x in s.tweets :: s'.tweets[x] == s.tweets[x])
      && s'.users == s.users && s'.likes == s.likes && s'.follows == s.follows
      && HasRetweet(s', u, t)
      && RetweetsCount(s', t) == RetweetsCount(s, t) + 1
  {
    assert TweetValid(s, t);
    AddTweetEffect(s, u, s.tweets[t].content, image, Some(t), now);
  }

  /** Retweeting when already retweeted deletes that retweet (with what
      cascades from it), creates no tweet, keeps the original, and lowers the
      original's retweet count by one. */
  lemma RetweetDeleteEffect(s: State, u: UserId, t: TweetId, now: int, image: Option<ImageRef>)
    requires Valid(s) && t in s.tweets && HasRetweet(s, u, t)
    ensures var s' := ToggleRetweet(s, u, t, now, image);
      && Valid(s')
      && RetweetOf(s, u, t) !in s'.tweets
      && s'.tweets.Keys <= s.tweets.Keys && s'.nextTweetId == s.nextTweetId
      && t in s'.tweets
      && !HasRetweet(s', u, t)
      && RetweetsCount(s', t) == RetweetsCount(s, t) - 1
  {
    var r := RetweetOf(s, u, t);
    var s' := DeleteTweet(s, r);
    DeleteTweetEffect(s, r);
    SubtreeClosed(s, r);
    SubtreeAbove(s, r, s.nextTweetId);
    assert TweetValid(s, r);
    assert t in s'.tweets;
    assert RetweetsOf(s', t) == RetweetsOf(s, t) - {r};
  }

  /** Deleting the tweet just added removes it alone and restores every
      table; only the key counter has moved on. */
  lemma DeleteNewestUndoesAdd(s: State, user: UserId, content: string, image: Option<ImageRef>,
                              parent: Option<TweetId>, now: int)
    requires Valid(s) && user in s.users && |content| <= MaxContentLength
    requires parent.Some? ==> parent.value in s.tweets && !HasRetweet(s, user, parent.value)
    ensures DeleteTweet(AddTweet(s, user, content, image, parent, now), s.nextTweetId) == s.(nextTweetId := s.nextTweetId + 1)
  {
    AddTweetKeepsTweetsValid(s, user, content, image, parent, now);
    DeleteOnlyNewRow(s, user, content, image, parent, now);
  }

  /** The tweet table stays well formed when a row is saved under the next key. */
  lemma AddTweetKeepsTweetsValid(s: State, user: UserId, content: string, image: Option<ImageRef>,
                                 parent: Option<TweetId>, now: int)
    requires TweetsValid(s) && user in s.users && |content| <= MaxContentLength
    requires parent.Some? ==> parent.value in s.tweets
    ensures TweetsValid(AddTweet(s, user, content, image, parent, now))
  {
    var s' := AddTweet(s, user, content, image, parent, now);
    var id := s.nextTweetId;
    forall x | x in s'.tweets ensures TweetValid(s', x) {
      if x != id { assert TweetValid(s, x); }
    }
  }

  /** Removing exactly the row just added restores the tables, since no like
      of the earlier state points at the new key. */
  lemma DeleteOnlyNewRow(s: State, user: UserId, content: string, image: Option<ImageRef>,
                         parent: Option<TweetId>, now: int)
    requires TweetsValid(s) && (forall l | l in s.likes :: l.tweet in s.tweets)
    requires TweetsValid(AddTweet(s, user, content, image, parent, now))
    ensures DeleteTweet(AddTweet(s, user, content, image, parent, now), s.nextTweetId)
            == s.(nextTweetId := s.nextTweetId + 1)
  {
    var id := s.nextTweetId;
    var s1 := AddTweet(s, user, content, image, parent, now);
    NewestDoomedAlone(s1, id);
    assert forall x | x in s.tweets :: x < id by {
      forall x | x in s.tweets ensures x < id { assert TweetValid(s, x); }
    }
    var s2 := DeleteTweet(s1, id);
    assert s2.tweets == s.tweets;
    assert s2.likes == s.likes;
  }

  /** Retweeting and then un-retweeting restores every table; only the key
      counter has moved on. */
  lemma RetweetThenUndo(s: State, u: UserId, t: TweetId, now1: int, now2: int,
                        image1: Option<ImageRef>, image2: Option<ImageRef>)
    requires Valid(s) && u in s.users && t in s.tweets && !HasRetweet(s, u, t)
    ensures var s1 := ToggleRetweet(s, u, t, now1, image1);
      t in s1.tweets && ToggleRetweet(s1, u, t, now2, image2) == s.(nextTweetId := s.nextTweetId + 1)
  {
    var s1 := ToggleRetweet(s, u, t, now1, image1);
    RetweetCreateEffect(s, u, t, now1, image1);
    RetweetUnique(s1, u, t);
    assert RetweetOf(s1, u, t) == s.nextTweetId;
    assert TweetValid(s, t);
    DeleteNewestUndoesAdd(s, u, s.tweets[t].content, image1, Some(t), now1);
  }
}

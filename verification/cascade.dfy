/** What `on_delete=CASCADE` on `Tweet.parent` and `Like.tweet` does when a
    tweet is deleted: the removed set is the root and, recursively, every
    tweet whose parent is removed; the likes on removed tweets go with them. */
module Cascade {
  import opened Wrappers
  import opened Models

  lemma {:induction false} SubtreeShape(s: State, root: TweetId, k: nat)
    ensures root in Subtree(s, root, k)
    ensures forall x | x in Subtree(s, root, k) :: x == root || (x < k && x in s.tweets)
  {
    if k > 0 {
      SubtreeShape(s, root, k - 1);
    }
  }

  /** Later steps of the pass never change the verdict on a smaller key. */
  lemma {:induction false} SubtreeStable(s: State, root: TweetId, j: nat, k: nat)
    requires j <= k
    ensures forall y | y < j :: y in Subtree(s, root, j) <==> y in Subtree(s, root, k)
  {
    if j < k {
      SubtreeStable(s, root, j, k - 1);
    }
  }

  /** Only the root and tweets created after it are removed. */
  lemma {:induction false} SubtreeAbove(s: State, root: TweetId, k: nat)
    requires TweetsValid(s)
    ensures forall x | x in Subtree(s, root, k) :: x >= root
  {
    if k > 0 {
      SubtreeAbove(s, root, k - 1);
      var id := k - 1;
      if id in s.tweets && s.tweets[id].parent.Some? && s.tweets[id].parent.value in Subtree(s, root, k - 1) {
        assert TweetValid(s, id);
      }
    }
  }

  /** The newest tweet has no descendants: deleting it removes it alone. */
  lemma NewestDoomedAlone(s: State, id: TweetId)
    requires TweetsValid(s) && id + 1 == s.nextTweetId
    ensures Doomed(s, id) == {id}
  {
    SubtreeShape(s, id, s.nextTweetId);
    SubtreeAbove(s, id, s.nextTweetId);
  }

  /** The removed set is exactly the root plus the tweets whose parent is
      removed: closed under "child of" and containing nothing else. */
  lemma SubtreeClosed(s: State, root: TweetId)
    requires TweetsValid(s)
    ensures root in Doomed(s, root)
    ensures forall x | x in s.tweets ::
              x in Doomed(s, root) <==> x == root || (s.tweets[x].parent.Some? && s.tweets[x].parent.value in Doomed(s, root))
  {
    var n := s.nextTweetId;
    SubtreeShape(s, root, n);
    forall x | x in s.tweets
      ensures x in Doomed(s, root) <==> x == root || (s.tweets[x].parent.Some? && s.tweets[x].parent.value in Doomed(s, root))
    {
      assert TweetValid(s, x);
      if x != root {
        SubtreeStable(s, root, x + 1, n);
        SubtreeShape(s, root, x);
        assert x !in Subtree(s, root, x);
        if s.tweets[x].parent.Some? {
          SubtreeStable(s, root, x, n);
        }
      }
    }
  }

  /** Deleting a stored tweet keeps the store valid, removes the tweet, keeps
      every other row that survives unchanged, removes a tweet exactly when it
      is the root or its parent was removed, and removes exactly the likes on
      removed tweets. */
  lemma DeleteTweetEffect(s: State, root: TweetId)
    requires Valid(s) && root in s.tweets
    ensures var s' := DeleteTweet(s, root);
      && Valid(s')
      && root !in s'.tweets
      && s'.users == s.users && s'.follows == s.follows && s'.nextTweetId == s.nextTweetId
      && (forall x | x in s'.tweets :: x in s.tweets && s'.tweets[x] == s.tweets[x])
      && (forall x | x in s.tweets ::
            x !in s'.tweets <==> x == root || (s.tweets[x].parent.Some? && s.tweets[x].parent.value !in s'.tweets))
      && (forall l :: l in s'.likes <==> l in s.likes && l.tweet in s'.tweets)
  {
    var d := Doomed(s, root);
    var s' := DeleteTweet(s, root);
    SubtreeClosed(s, root);
    forall x | x in s.tweets
      ensures x !in s'.tweets <==> x == root || (s.tweets[x].parent.Some? && s.tweets[x].parent.value !in s'.tweets)
    {
      assert TweetValid(s, x);
    }
    forall id | id in s'.tweets ensures TweetValid(s', id) {
      assert TweetValid(s, id);
    }
  }

  /** Deleting a stored tweet keeps the store valid. */
  lemma DeleteTweetKeepsValid(s: State, root: TweetId)
    requires Valid(s) && root in s.tweets
    ensures Valid(DeleteTweet(s, root))
  {
    DeleteTweetEffect(s, root);
  }
}

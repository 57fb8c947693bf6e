# Microblog store and request handlers, in Dafny

This project models the core of a small Django microblog that exists in two
parallel trees, `apps/` and `twitter_clone/`. Users post tweets (up to 280
characters, with an optional image). They like tweets, follow each other and
retweet: a retweet is a child tweet that copies its parent's content. The
request handlers of both trees read and change one shared store:

- a user table;
- a tweet table, with a primary-key counter, `created_at`, and a `parent` key
  that deletes in cascade;
- a like table and a follow table, each unique per pair.

The model is organised as follows:

- `Models` (models.dfy) holds the store as one value (`State`) and its
  integrity invariant (`Valid`: keys in range, parents older than their
  children, one like per (user, tweet), one follow per (follower,
  following), no self-follow, one retweet per (user, parent), unique
  usernames). It also holds the count and exists helpers of the ORM models,
  and the toggles and the cascade delete as functions on `State`.
- `Store` (store.dfy) is the database as a class. Its tables are fields and
  its methods are the ORM calls the handlers make (`get_or_create`,
  `delete`, `save`, `filter(...).first()`). Each method is specified
  against the `Models` function it performs and keeps `Valid()`.
- `Toggles` and `Cascade` prove what the toggles and the cascade do. They
  keep the invariant, and the counts move by one. A like or follow toggle
  changes only its own pair. Un-retweeting is a cascade delete: with the
  retweet go other users' likes on it and their retweets of it (and
  everything below those). Two like toggles starting without the like
  restore the store exactly; starting with it, they restore only which likes
  exist and the count, because the re-created row has a new `created_at`.
  Two retweet toggles starting without a retweet restore every table, and
  only the key counter has moved; starting with one is not claimed, because
  the new retweet gets a new key and the cascade does not come back. After n
  follow toggles, the edge is present exactly when it started present xor n
  is odd.
- `Feeds` holds the querysets. A feed is the tweet table filtered by a
  predicate and ordered newest first (`-created_at`). A user list is in
  primary-key order. Django's paginator appears as `Page`.
- `AppsViews` and `CloneViews` model the class-based views of `apps/` and
  the function views of `twitter_clone/`. The queries are functions. The
  handlers that change rows (like, retweet, follow, posting a tweet) are
  methods on the store.
- `Forms` models `TweetForm`: field cleaning (strip, required, 280
  characters, no NUL character) and `save(commit)`.
- `Api` models the REST viewset's feed and `TweetSerializer`.
- `CustomFilters` models the template filters `split`,
  `get_liked_tweets_list`, `format_username` and `format_tweet_content`.
- `Seqs`, `Sorting` and `Text` hold generic sequence, sorting and string
  helpers: filter, insertion sort, ASCII case folding, substring search,
  whitespace strip and code-point order.

The two trees differ in a few places, and the model keeps each one's own
behaviour:

- `apps` `UsersListView` orders users by username and never applies the
  `search` parameter; it only echoes it back. `twitter_clone` `users_list`
  applies the search (username or e-mail, case-insensitive) and keeps the
  table's order.
- A retweet in `apps` copies the image verbatim. `twitter_clone` copies it
  only when the original has one.
- Self-follow in `apps` raises `PermissionDenied`. `twitter_clone` answers
  with a warning and a redirect. Neither changes the follow table.
- `twitter_clone` `like_tweet` always renders an empty
  `retweeted_tweets` list.

## Model

| member | source | states |
|---|---|---|
| Models.Valid | twitter_clone/core/models.py:26-74 | the store invariant: every tweet's author exists, its content has at most 280 characters and its parent is an older stored tweet; likes and follows reference stored rows and are unique per pair (`unique_together`); nobody follows themselves; a user holds at most one retweet of a tweet; usernames are unique. Kept by `Toggles.ToggleLikeEffect`, `Toggles.ToggleFollowEffect`, `Toggles.AddTweetValid` and `Cascade.DeleteTweetKeepsValid` |
| Models.LikesCount | twitter_clone/core/models.py:39-40 | the number of likes whose tweet is the given one; it equals the number of distinct likers (`Api.LikesCountCountsLikers`) and moves by one per toggle (`Toggles.ToggleLikeCount`) |
| Models.RetweetsCount | twitter_clone/core/models.py:42-43 | the number of tweets whose parent is the given one; it equals the number of distinct retweeters (`Api.RetweetsCountCountsRetweeters`) and moves by one on retweet and un-retweet (`Toggles.RetweetCreateEffect`, `Toggles.RetweetDeleteEffect`) |
| Models.FollowingCount | twitter_clone/core/models.py:16-17 | the number of follow edges whose follower is the user; it moves by one per follow toggle (`Toggles.ToggleFollowCounts`) |
| Models.FollowersCount | twitter_clone/core/models.py:19-20 | the number of follow edges whose target is the user; it moves by one per follow toggle (`Toggles.ToggleFollowCounts`) and is the `followers_count` of `CloneViews.FollowUser` |
| Models.TweetsCount | twitter_clone/core/models.py:22-23 | the number of tweets authored by the user; a new tweet raises it by one (`Toggles.AddTweetCounts`) |
| Models.IsRetweet | twitter_clone/core/models.py:45-46 | holds exactly when the tweet has a parent; the serializer's `is_retweet` agrees with it (`Api.Serialize`) |
| Models.ToggleLike | apps/core/views.py:141-145 | deletes the (user, tweet) like when there is one and creates it otherwise; its effect, counts and involution are proved in `Toggles.ToggleLikeEffect`, `Toggles.ToggleLikeCount` and `Toggles.ToggleLikeTwice` |
| Models.ToggleFollow | apps/core/views.py:205-209 | deletes the (follower, following) edge when there is one and creates it otherwise; proved in `Toggles.ToggleFollowEffect`, `Toggles.ToggleFollowCounts` and `Toggles.ToggleFollowParity` |
| Models.AddTweet | twitter_clone/core/models.py:26-34 | saves a row under the next primary key with `created_at` = now; proved in `Toggles.AddTweetValid`, `Toggles.AddTweetEffect` and `Toggles.AddTweetCounts` |
| Models.ToggleRetweet | apps/core/views.py:152-165 | deletes the user's retweet of the tweet when there is one, otherwise saves a child tweet with the original's content and the copied image; proved in `Toggles.RetweetCreateEffect`, `Toggles.RetweetDeleteEffect` and `Toggles.RetweetThenUndo` |
| Models.Subtree | twitter_clone/core/models.py:31 | the root plus every tweet, scanned in key order below a bound, whose parent is already in the set; characterised by `Cascade.SubtreeShape`, `Cascade.SubtreeStable` and `Cascade.SubtreeAbove` |
| Models.Doomed | twitter_clone/core/models.py:31 | the tweets a delete of the root removes through the cascading parent key; `Cascade.SubtreeClosed` proves it is the root plus exactly the tweets whose parent is removed |
| Models.DeleteTweet | twitter_clone/core/models.py:54-56 | removes the doomed tweets and every like on them; proved in `Cascade.DeleteTweetEffect` and `Cascade.DeleteTweetKeepsValid` |
| Models.IsLikedBy | twitter_clone/core/models.py:48-51 | an anonymous user has liked nothing; otherwise true exactly when one of the tweet's likes is by that user, and then the like count is positive |
| Store.Store.GetTweet | apps/core/views.py:151 | finds the row with that primary key, or reports that there is none (404) |
| Store.Store.GetUserByUsername | apps/core/views.py:200 | finds the one user with that username, or reports that no user has it |
| Store.Store.GetOrCreateLike | apps/core/views.py:141 | `created` holds exactly when the pair had no like; the like is added only then; the returned like is the pair's row; the store stays valid |
| Store.Store.DeleteLike | apps/core/views.py:145 | removes the like of that (user, tweet) pair and nothing else; the store stays valid |
| Store.Store.GetOrCreateFollow | apps/core/views.py:205 | `created` holds exactly when the pair had no follow; the follow is added only then; the store stays valid |
| Store.Store.DeleteFollow | apps/core/views.py:209 | removes the follow of that (follower, following) pair and nothing else; the store stays valid |
| Store.Store.InsertTweet | twitter_clone/core/views.py:148-151 | saves the tweet under the next primary key with the given fields, `created_at` = now, and keeps the store valid |
| Store.Store.FindRetweet | twitter_clone/core/views.py:142 | returns a row exactly when the user has retweeted the tweet, and then it is the user's one retweet of it |
| Store.Store.DeleteTweet | twitter_clone/core/models.py:31 | deleting a tweet is the cascading delete of its subtree and their likes, and the store stays valid |
| Toggles.ToggleLikeEffect | apps/core/views.py:139-146 | the like toggle flips the presence of the (user, tweet) like, leaves every other pair's like and every other table as it was, and keeps the store valid |
| Toggles.LikesCountAfterRemove | twitter_clone/core/models.py:39-40 | deleting a present like lowers the tweet's like count by one |
| Toggles.LikesCountAfterAdd | twitter_clone/core/models.py:39-40 | adding an absent like raises the tweet's like count by one |
| Toggles.ToggleLikeCount | twitter_clone/core/models.py:39-40 | a toggle moves the tweet's like count by exactly one, in the direction of the toggle, and no other tweet's count changes |
| Toggles.ToggleLikeTwice | apps/core/views.py:141-145 | liking twice restores every (user, tweet) like and the count; starting from no like, it restores the store exactly |
| Toggles.ToggleFollowEffect | apps/core/views.py:205-209 | the follow toggle flips the (follower, following) edge, leaves every other edge and table alone, and keeps the store valid |
| Toggles.FollowCountsAfterRemove | twitter_clone/core/models.py:16-20 | removing an edge lowers the target's followers count and the follower's following count by one |
| Toggles.FollowCountsAfterAdd | twitter_clone/core/models.py:16-20 | adding an edge raises both counts by one |
| Toggles.ToggleFollowCounts | twitter_clone/core/models.py:16-20 | a toggle moves the two users' counts by one in the toggle's direction, and every other user's counts stay put |
| Toggles.ToggleFollowParity | twitter_clone/core/views.py:219-227 | after n toggles of one pair the edge is present exactly when it started present xor n is odd, and the store stays valid |
| Toggles.AddTweetValid | twitter_clone/core/models.py:26-34 | saving a tweet by an existing user, with at most 280 characters and an existing parent not already retweeted by that user, keeps every invariant |
| Toggles.AddTweetCounts | twitter_clone/core/models.py:22-23 | a new tweet raises its author's tweet count by one, and for a retweet the parent's retweet count by one |
| Toggles.AddTweetEffect | twitter_clone/core/views.py:38-40 | a saved tweet occupies exactly the next key with the given fields; the earlier rows, users, likes and follows are unchanged; the author's count rises by one |
| Toggles.RetweetUnique | apps/core/views.py:152-156 | in a valid store a user's retweet of a tweet is the only tweet with that (user, parent), so `get_or_create` finds a single row |
| Toggles.RetweetCreateEffect | apps/core/views.py:152-162 | with no existing retweet, a new tweet appears under the next key with author = user, parent = original, the original's content and the given image; the retweet count rises by one; the other rows are unchanged |
| Toggles.RetweetDeleteEffect | apps/core/views.py:163-165 | with an existing retweet, it is deleted, no tweet is created, the original stays, the user no longer holds a retweet and the retweet count falls by one |
| Toggles.AddTweetKeepsTweetsValid | twitter_clone/core/models.py:27-31 | the tweet table stays well formed when a row by an existing user is saved under the next key |
| Toggles.DeleteOnlyNewRow | twitter_clone/core/models.py:56 | deleting the newest row removes only it and no earlier like, so the tables are restored |
| Toggles.DeleteNewestUndoesAdd | twitter_clone/core/models.py:31 | deleting a just-saved tweet restores every table; only the key counter has advanced |
| Toggles.RetweetThenUndo | apps/core/views.py:150-165 | retweeting and then un-retweeting restores every table; only the key counter has advanced |
| Cascade.SubtreeShape | twitter_clone/core/models.py:31 | the cascade set holds the root, and otherwise only stored tweets below the bound |
| Cascade.SubtreeStable | twitter_clone/core/models.py:31 | extending the scan bound does not change membership of keys already scanned |
| Cascade.SubtreeAbove | twitter_clone/core/models.py:31 | every tweet removed with a root has a key at least the root's |
| Cascade.NewestDoomedAlone | twitter_clone/core/models.py:31 | the newest tweet has no descendants, so deleting it removes it alone |
| Cascade.SubtreeClosed | twitter_clone/core/models.py:31 | a stored tweet is removed exactly when it is the root or its parent is removed, so the cascade reaches every descendant and nothing else |
| Cascade.DeleteTweetEffect | twitter_clone/core/models.py:31 | after a delete the root is gone; a tweet is gone exactly when it is the root or its parent is gone; surviving rows are unchanged; the likes are exactly the old likes on surviving tweets; the store stays valid |
| Cascade.DeleteTweetKeepsValid | twitter_clone/core/models.py:54-60 | the cascading delete keeps every invariant, including likes pointing only at stored tweets |
| Feeds.NewestFirstIsPreorder | twitter_clone/core/models.py:33-34 | ordering by `-created_at` is total and transitive, so sorting by it yields a newest-first sequence |
| Feeds.TweetRowsExact | twitter_clone/core/models.py:26-34 | reading the tweet table yields each stored row exactly once and nothing else |
| Feeds.Select | twitter_clone/core/models.py:33-34 | a filtered queryset holds exactly the stored tweets meeting the filter, without duplicates, with `created_at` non-increasing |
| Feeds.HomeFeed | apps/core/views.py:54-56 | the home feed holds exactly the tweets by the requester or by users they follow, once each, newest first |
| Feeds.ExploreFeed | apps/core/views.py:78-79 | the explore feed holds every stored tweet exactly once, newest first |
| Feeds.ProfileTweets | twitter_clone/core/views.py:169 | a profile lists exactly that user's tweets, newest first |
| Feeds.RetweetList | apps/core/views.py:113 | a tweet's retweets are exactly the tweets whose parent it is, newest first |
| Feeds.LikedTweetIds | apps/core/views.py:41 | `liked_tweets` holds a tweet id exactly when the user has a like on it |
| Feeds.RetweetedTweetIds | apps/core/views.py:42-44 | `retweeted_tweets` holds an id exactly when the user authored a tweet whose parent is it |
| Feeds.FollowingIds | apps/core/views.py:100 | `following` holds a user exactly when the requester follows them |
| Feeds.UsersWhere | twitter_clone/core/views.py:67-80 | a filtered user queryset holds exactly the stored users meeting the filter, in increasing primary-key order |
| Feeds.PageStartInRange | apps/core/views.py:52 | an existing page starts within the list, and before its end when the list is not empty |
| Feeds.Page | apps/core/views.py:52 | page n exists exactly when 1 <= n <= the page count (one page for an empty list); it is the n-th window of the list, of full size except possibly the last |
| Feeds.PageCovers | apps/core/views.py:52 | every item of the list appears on page i / size + 1, at position i mod size |
| Feeds.PageWithin | apps/core/views.py:52 | a page only holds items of the list |
| Feeds.PageIsWindow | apps/core/views.py:52 | a page that exists is exactly the n-th window of the list: its start (n-1)*size is within the list, its length is size or what remains, and entry k is list entry (n-1)*size+k |
| Feeds.PageKeepsOrder | apps/core/views.py:76 | a page of a newest-first list is newest first |
| Api.FeedQueryset | apps/core/api/views.py:17-27 | the API feed holds exactly the tweets by the requester or by users they follow, in the model's default newest-first order |
| Api.FollowsNobodySeesOwnTweets | apps/core/api/views.py:22-24 | a requester who follows nobody gets exactly their own tweets |
| Api.GetIsLiked | apps/core/api/serializers.py:29-33 | `is_liked` is false without a request or for an anonymous user, and otherwise holds exactly when the user liked the tweet |
| Api.Serialize | apps/core/api/serializers.py:6-27 | the serialized tweet carries the row's fields, the author's username, `likes_count` and `retweets_count` equal to the model counts, `is_retweet` exactly when there is a parent, and `is_liked` from `get_is_liked` |
| Api.SerializeList | apps/core/api/views.py:9-14 | the list response serializes each tweet of the queryset, in order, one entry per tweet |
| Api.LikesCountCountsLikers | twitter_clone/core/models.py:39-40 | because likes are unique per pair, the like count is the number of distinct users who liked the tweet |
| Api.RetweetsCountCountsRetweeters | twitter_clone/core/models.py:42-43 | because retweets are unique per (user, parent), the retweet count is the number of distinct users who retweeted |
| AppsViews.ContextFor | apps/core/views.py:38-45 | the context's `liked_tweets` and `retweeted_tweets` are exactly the ids the user liked and retweeted |
| AppsViews.HomePage | apps/core/views.py:52-56 | a home page exists exactly for numbers 1..page count; it is exactly the n-th window of six tweets of the home feed (`Feeds.IsPageOf`: its length is min(6, feed length - (n-1)*6) and entry k is feed entry (n-1)*6+k), so it holds at most 6 tweets, all by the requester or followed users, newest first |
| AppsViews.ExplorePage | apps/core/views.py:76-79 | an explore page exists exactly for numbers 1..page count; it is exactly the n-th window of six tweets of the explore feed (`Feeds.IsPageOf`: exact length and entries), so it holds at most 6 stored tweets, newest first |
| AppsViews.HomeFeedPaged | apps/core/views.py:52-56 | every tweet of the home feed is shown on some page |
| AppsViews.ExploreFeedPaged | apps/core/views.py:76-79 | every tweet of the explore feed, so every stored tweet, is shown on some page |
| AppsViews.ByUsernameIsPreorder | apps/core/views.py:95 | code-point order on usernames is total and transitive |
| AppsViews.UsersQueryset | apps/core/views.py:94-95 | the users list holds every user but the requester, and only them, each once, in ascending username order |
| AppsViews.UsersPage | apps/core/views.py:92-102 | a users page exists exactly for numbers 1..page count; it is exactly the n-th window of ten users of the username-sorted list (`Feeds.IsPageOf`: exact length and entries), so it holds at most 10 users other than the requester, in username order; `following` is exactly the set the requester follows |
| AppsViews.UsersListPaged | apps/core/views.py:92-95 | every user of the list is shown on some page |
| AppsViews.TweetDetailContext | apps/core/views.py:110-114 | the detail page exists exactly for a stored tweet; it carries the tweet, the user's context, and exactly its retweets, each once, newest first |
| AppsViews.LikeTweet | apps/core/views.py:139-146 | a missing tweet is 404 and changes nothing; otherwise the like is toggled, and the re-rendered card's `liked_tweets` contains the tweet exactly when it was not liked before |
| AppsViews.TaskQueue.constructor | apps/core/views.py:162 | the notification queue starts empty |
| AppsViews.TaskQueue.Delay | apps/core/views.py:162 | scheduling appends exactly that notification |
| AppsViews.Retweet | apps/core/views.py:150-166 | a missing tweet is 404 and changes nothing; otherwise the retweet is toggled with the original's image copied verbatim, and exactly one notification is scheduled when and only when a retweet was created |
| AppsViews.FollowUser | apps/core/views.py:199-211 | an unknown username is 404; following oneself is `PermissionDenied` with the store unchanged; otherwise the (requester, target) edge is toggled |
| CloneViews.LikedFor | twitter_clone/core/views.py:31-33 | an anonymous visitor's liked set is empty; otherwise it holds exactly the ids the requester liked |
| CloneViews.Home | twitter_clone/core/views.py:26-33 | the timeline holds exactly the tweets by the requester or followed users, each once, newest first, with the requester's liked ids |
| CloneViews.HomePost | twitter_clone/core/views.py:35-42 | an invalid form changes nothing and returns its errors; a valid one saves exactly one tweet by the requester with the cleaned content and image, no parent, under the next key |
| CloneViews.Explore | twitter_clone/core/views.py:54-62 | the explore page holds every stored tweet, each once, newest first, with the visitor's liked ids |
| CloneViews.UsersList | twitter_clone/core/views.py:65-87 | the list excludes an authenticated requester and no one else; a non-empty query keeps exactly the users whose username or e-mail contains it case-insensitively; an empty query filters nothing; `following` is the requester's follow set, empty when anonymous |
| CloneViews.SearchIgnoresQueryCase | twitter_clone/core/views.py:76-80 | searching with a query and with its lower-cased form lists the same users |
| CloneViews.TweetDetailContext | twitter_clone/core/views.py:90-98 | the page exists exactly for a stored tweet, and `liked` is false when anonymous and otherwise holds exactly when the requester liked it |
| CloneViews.LikeTweet | twitter_clone/core/views.py:116-134 | a missing tweet is 404; otherwise the like is toggled, the returned `liked` equals the new presence of the like (the opposite of before; the view computes it but the rendered template does not use it), and the card carries the updated liked ids and an empty retweeted list |
| CloneViews.CopiedImage | twitter_clone/core/views.py:148-150 | a retweet takes the original's image when it has one, and none otherwise |
| CloneViews.Retweet | twitter_clone/core/views.py:137-164 | a missing tweet is 404; otherwise the user's existing retweet is deleted, or a new one created with the copied image; `retweeted` equals the new presence of a retweet (computed by the view, not rendered by the template); the card's retweeted set is {id} or empty accordingly |
| CloneViews.Profile | twitter_clone/core/views.py:167-186 | the page exists exactly when a user has that username; it lists exactly that user's tweets, each once, newest first; `is_following` holds exactly when an authenticated requester follows them |
| CloneViews.FollowUser | twitter_clone/core/views.py:211-240 | an unknown username is 404; self-follow is refused with the store unchanged; otherwise the edge is toggled, `is_following` is its new presence, and `followers_count` is the target's follower count after the toggle |
| Forms.CleanContent | apps/core/forms.py:28-32 | content is accepted exactly when present and its stripped value is non-empty, at most 280 characters and free of NUL; a missing or blank value fails with `required` only; otherwise `max_length` and the NUL error are reported each exactly when it applies |
| Forms.Clean | apps/core/forms.py:27-37 | the form is valid exactly when its content is; the cleaned data holds the stripped content and the uploaded image, if any |
| Forms.TooLongRejected | apps/core/forms.py:28-32 | content longer than 280 characters after stripping is rejected with the `max_length` error |
| Forms.NoImageAccepted | apps/core/forms.py:33 | a submission without an image is valid exactly when its content is, and then has no image |
| Forms.CleanReadsOnlyItsFields | apps/core/forms.py:37 | the form's outcome depends only on the `content` and `image` inputs; no other field is taken from the submission |
| Forms.CleanContentIdempotent | apps/core/forms.py:28-32 | re-cleaning cleaned content gives the same result |
| Forms.TweetForm.constructor | apps/core/forms.py:39-41 | the form keeps its data, its files and the user it was given |
| Forms.TweetForm.Save | apps/core/forms.py:43-48 | an invalid form saves nothing; `commit=False` returns an unsaved tweet whose author is the form's user; `commit=True` saves the tweet under the next key with that author and the cleaned fields, and fails with nothing saved when there is no such user |
| Text.Strip | apps/core/forms.py:28-32 | stripping removes exactly the leading and trailing whitespace: the result is a slice of the input with whitespace only outside it and no whitespace at its ends |
| Text.StripIdempotent | apps/core/forms.py:28-32 | stripping twice is the same as stripping once |
| Text.IContainsIgnoresQueryCase | twitter_clone/core/views.py:78-79 | a case-insensitive containment test gives the same answer for a query and its lower-cased form |
| Text.LexLeTotal | apps/core/views.py:95 | any two usernames are comparable in code-point order |
| Text.LexLeTransitive | apps/core/views.py:95 | code-point order on usernames is transitive |
| CustomFilters.Pieces | apps/core/templatetags/custom_filters.py:8-14 | splitting on a non-empty delimiter always yields at least one piece |
| CustomFilters.Split | apps/core/templatetags/custom_filters.py:8-14 | `split` fails (Python's `ValueError`) exactly on an empty delimiter, and otherwise yields at least one piece |
| CustomFilters.SplitJoinRoundTrip | apps/core/templatetags/custom_filters.py:8-14 | joining the pieces with the delimiter gives back the value |
| CustomFilters.SplitPiecesAvoidDelimiter | twitter_clone/core/templatetags/custom_filters.py:5-11 | no piece contains the delimiter |
| CustomFilters.SplitPieceCount | apps/core/templatetags/custom_filters.py:8-14 | the number of pieces is the number of non-overlapping occurrences of the delimiter plus one |
| CustomFilters.LikedTweetsList | apps/core/templatetags/custom_filters.py:17-24 | the list is [1] for true and [] for false (the same filter exists at twitter_clone/core/templatetags/custom_filters.py:13-20) |
| CustomFilters.FormatUsername | apps/core/templatetags/custom_filters.py:27-31 | the result is "@" followed by the value, one character longer |
| CustomFilters.FormatUsernameInjective | apps/core/templatetags/custom_filters.py:27-31 | different usernames format differently |
| CustomFilters.FormatTweetContent | apps/core/templatetags/custom_filters.py:34-37 | the output has no newline and is three characters longer per newline of the input |
| CustomFilters.FormatWithoutNewlines | apps/core/templatetags/custom_filters.py:34-37 | text without newlines is left unchanged |
| CustomFilters.FormatTweetContentIdempotent | apps/core/templatetags/custom_filters.py:34-37 | formatting twice is the same as formatting once |
| CustomFilters.FormatTweetContentReplaces | apps/core/templatetags/custom_filters.py:34-37 | the output is the input split on newlines and joined with `<br>`, that is, each newline replaced by `<br>` |

## Left out

- Concurrency: every handler is one sequential, atomic step. The race between two simultaneous toggles (`get_or_create` followed by `delete`) is not modelled.
- E-mail and Celery: sending the retweet notification (apps/core/tasks.py is not part of this model). Scheduling is an append to `AppsViews.TaskQueue`.
- Authentication, sessions, `LoginRequiredMixin`, `login_required` and the API-key permission class: the requester of a login-only view is an existing user, given as a parameter. An API request carrying only a key, with no user, is not modelled.
- Templates, redirects, `HTTP_REFERER` handling, flash messages, logging, the HTMX template switch and the `time.sleep` spinner delay: presentation and I/O only.
- URL routing, admin registration, the static JavaScript, and Django signal wiring. Every user is assumed to have a profile.
- Registration and profile-edit forms and views; the `apps` `ProfileView`, whose `is_followed_by` lives in a user model that is not part of this model.
- Deleting users, with its cascades to tweets, likes and follows: no handler in the model deletes users.
- Image files: an image is an opaque reference. A falsy (empty) image field is represented as no image. Image validation is not modelled.
- Paginator details beyond page size and range: the `last` page keyword, non-numeric page strings and orphans.
- The serializer's write path: the viewset is read-only, so `user` and `created_at` are only ever output.
- The database collation: ordering by username is code-point order, and `icontains` is ASCII case folding.
- Tweets with equal `created_at`: their relative order in a feed is the stable insertion-sort order of the model. The database leaves it unspecified.
- CloneViews.UsersList: `twitter_clone` leaves this queryset without an explicit order; the model lists users in primary-key order.
- Models.AddTweet: `content` `max_length` on the `TextField` is not enforced on save; the form enforces it, and the store invariant requires it.
- Models.RetweetsUnique: a user holding two retweets of the same tweet is excluded by the store invariant, which the handlers keep; the database has no such constraint. Such a state could arise only from concurrent requests or the admin site. There, `apps`' `get_or_create` would raise `MultipleObjectsReturned`, and `twitter_clone`'s `.first()` would delete only the newest (twitter_clone/core/views.py:142). Neither behaviour is modelled.
- Models.FollowsValid: "no one follows themselves" is kept by the follow handlers (the requester's own profile is refused); the database has no such constraint. A self-follow created through the admin site is not modelled.

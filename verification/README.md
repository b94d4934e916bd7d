# twitter_orm2 in Dafny

A model of the small Flask/SQLAlchemy "twitter" application: users
register and log in, post, edit and delete short messages, like messages
and follow each other, and each user's dashboard shows their own messages
and those of the users they follow.

The model has three parts.

- **Registration check and email matcher** (`registration.dfy`, `email.dfy`).
  `find_registration_errors` runs five checks in a fixed order. `EMAIL_REGEX`
  is a hand matcher: split at the first `@`, then at the last dot after
  it. It is proved equal to a reference definition that spells out the
  pattern's concatenation `local @ domain . tld`. Python's `$` also
  matches before one final newline, and `EmailAccepted` models that.
- **The store** (`social.dfy`). It holds the `users` and `tweets` tables
  as maps from id to row, and the `followers` and `likes` edge tables as
  sets of id pairs. `Valid` says that every reference names an existing
  row. New ids follow SQLite's rule for an INTEGER PRIMARY KEY: one more
  than the largest id, or 1 in an empty table.
- **Operations** (`identity.dfy`, `graph.dfy`, `tweets.dfy`). These are pure
  store transformers taken from the route bodies: register, post, edit,
  delete, like and follow. The read-side decisions are also here: the
  login check, the dashboard feed and `full_name`. `scenarios.dfy` relates
  several operations to each other.

The logged-in user from the session is an explicit `cur` parameter. The
password hasher is a pair of function parameters: `hash` makes the stored
credential and `check` verifies a password against it. Where a property
needs it, `HasherSound` states that `check(hash(p), p)` always holds.

The code enforces none of the following, and the model follows the code:

- No message length bound of 140 is enforced anywhere. The `String(140)`
  column type is not checked by SQLite, so any non-empty message is posted
  or accepted as an edit.
- Edit and delete do not check that the acting user is the author. The
  model's `UpdateTweet` and `DeleteTweet` take no acting user.
- Follow and like do not reject self-edges.
- Delete does not remove the tweet row. See Findings.

## Model

| member | source | states |
|---|---|---|
| Email.MatchesEmailPattern | twitter_orm2/app.py:118 | the hand matcher (first `@`, last dot after it) accepts exactly the strings `local@domain.tld` with a non-empty local part over `[A-Za-z0-9.+_-]`, a non-empty domain over `[A-Za-z0-9._-]` and a non-empty all-letter label |
| Email.ShapeFixesSplit | twitter_orm2/app.py:118 | a string has at most one way to match the pattern: its `@` is the first one and its dot is the last dot after the `@` |
| Email.ShapeHasOneAt | twitter_orm2/app.py:118 | a matching address contains exactly one `@` |
| Email.EmailAccepted | twitter_orm2/app.py:118 | `EMAIL_REGEX.match` with `$` accepts exactly the pattern's strings and those strings followed by one newline |
| Email.AcceptedHasNoInnerNewline | twitter_orm2/app.py:118 | an accepted address holds no newline except possibly a final one |
| Registration.FailedAmong | twitter_orm2/app.py:62-72 | running the checks in order keeps exactly the failed ones, in the order they were run |
| Registration.FindRegistrationErrors | twitter_orm2/app.py:61-73 | the error list holds exactly the failed checks (first name < 3, last name < 3, email, password vs confirmation, password < 8) in that order, is empty iff all five pass, and has at most 5 entries |
| Registration.Messages | twitter_orm2/app.py:63-72 | each failed check becomes its flashed message, in the same order; the five messages are distinct, so two entries share a message iff they are the same check and the flashed list tells exactly which checks failed |
| Registration.ErrorListIsDetermined | twitter_orm2/app.py:61-73 | any list of exactly the failed checks in run order is the returned list |
| Social.NextId | twitter_orm2/app.py:31 | a new row's id is fresh and above every existing id: one more than the largest, or 1 in an empty table |
| Identity.AddNewUser | twitter_orm2/app.py:49-58 | adds one user under a fresh id, with the hashed password, and leaves every other row and edge unchanged |
| Identity.RegisterNewUser | twitter_orm2/app.py:76-83 | status is good iff every check passes, and only then is a user added; on bad, the store is unchanged and the data is the 1 to 5 error messages in check order |
| Identity.UsersWithEmail | twitter_orm2/app.py:156 | the email query returns only existing users, and returns exactly {id} iff id is the sole owner of the email, the fact the login decision rests on |
| Identity.LoginValid | twitter_orm2/app.py:156-157 | login is valid iff exactly one user has the email and the password verifies against that user's hash |
| Identity.FullName | twitter_orm2/app.py:45-46 | the full name is the first name, a space, then the last name; splitting it at the first name's length gives back both names |
| Identity.FullNameSplits | twitter_orm2/app.py:45-46 | equal full names with first names of equal length come from equal first and last names |
| Identity.FullNameAmbiguous | twitter_orm2/app.py:45-46 | without that length the names are not recoverable: ("ab c", "de") and ("ab", "c de") give the same full name |
| Graph.Following | twitter_orm2/app.py:37-41 | `following` of u holds exactly the existing users v with an edge (u, v) |
| Graph.Followers | twitter_orm2/app.py:37-41 | `followers` of u holds exactly the existing users v with an edge (v, u) |
| Graph.Likers | twitter_orm2/app.py:92 | the likers of a tweet are exactly the existing users with a like edge on it |
| Graph.LikedTweets | twitter_orm2/app.py:36 | a user's liked tweets are exactly the existing tweets with a like edge from that user |
| Graph.FollowUser | twitter_orm2/app.py:246-249 | following adds exactly the ordered edge (cur, target), so target is in cur's following and cur is in target's followers; no other user's following or followers changes |
| Graph.AddLike | twitter_orm2/app.py:205-208 | liking adds exactly the edge (tweet, cur); no other tweet's likers and no other user's liked tweets change |
| Graph.FollowingFollowersDual | twitter_orm2/app.py:37-41 | b is in a's following iff a is in b's followers |
| Graph.LikedTweetsLikersDual | twitter_orm2/app.py:36 | t is in u's liked tweets iff u is among t's likers: both relationships read the one `likes` table |
| Graph.FollowIdempotent | twitter_orm2/app.py:23-27 | following the same user twice leaves one edge, the same store as following once |
| Graph.LikeIdempotent | twitter_orm2/app.py:17-21 | liking the same tweet twice leaves one edge, the same store as liking once |
| Graph.FollowIsDirected | twitter_orm2/app.py:37-41 | a following b does not make b follow a |
| Tweets.TweetsOf | twitter_orm2/app.py:91 | a user's `tweets` are the tweets whose author column names them; in a valid store an unknown user owns none |
| Tweets.TweetsOfDisjoint | twitter_orm2/app.py:90-91 | two different users' `tweets` collections share no tweet: the one-to-many backref puts each tweet in at most one collection |
| Tweets.Feed | twitter_orm2/app.py:147-149 | a tweet is in v's feed iff its author is v, or is an existing user that v follows |
| Tweets.AddTweet | twitter_orm2/app.py:179-187 | a tweet is stored, under a fresh id and authored by cur, iff the message is non-empty; otherwise the store is unchanged |
| Tweets.UpdateTweet | twitter_orm2/app.py:224-231 | the message is replaced iff the new one is non-empty; the author never changes; every other tweet, and the store on refusal, stay as they were; an empty edit of an unknown id is refused without touching the store |
| Tweets.DeleteTweetAsWritten | twitter_orm2/app.py:194-197 | as written, delete only clears the author column: the tweet leaves its author's `tweets`, and its row and likes remain |
| Tweets.DeleteTweet | twitter_orm2/app.py:194-197 | intended delete: the row and exactly the like edges on it go; it leaves its author's `tweets`; all other rows and edges stay |
| Tweets.OwnTweetsInFeed | twitter_orm2/app.py:148-149 | a user's own tweets are always in their feed |
| Tweets.PostReachesFollowers | twitter_orm2/app.py:148-149 | a posted tweet appears in the poster's feed and in every follower's feed |
| Tweets.DeletedTweetLeavesFeeds | twitter_orm2/app.py:194-197 | after either delete, the tweet is in no feed and every feed keeps its other tweets |
| Tweets.DeleteAsWrittenKeepsTweet | twitter_orm2/app.py:194-197 | the delete as written keeps the tweet row and its likers; the intended delete keeps neither |
| Tweets.DeleteAsWrittenWitness | twitter_orm2/app.py:194-197 | a one-user, one-tweet, one-like store on which the two deletes give different stores |
| Scenarios.RegisterThenLogin | twitter_orm2/app.py:156-157 | registering with an acceptable form and an unused email, then logging in with the same email and password, succeeds when the hasher is sound |
| Scenarios.SharedEmailBlocksLogin | twitter_orm2/app.py:156-157 | if two users share an email, login with that email fails whatever the password |
| Scenarios.RejectedRegistrationKeepsLogins | twitter_orm2/app.py:76-83 | a rejected registration changes no login decision |
| Scenarios.PostThenEdit | twitter_orm2/app.py:224-231 | post then edit with a non-empty message: reading the tweet back gives the new message, still authored by the poster |
| Scenarios.PostLikeThenDelete | twitter_orm2/app.py:194-197 | post, like, then the intended delete: the tweet is gone, no like points at it, and the tweets table is as before the post |
| Scenarios.FollowChangesOnlyFollowerFeed | twitter_orm2/app.py:148-149 | following b adds exactly b's tweets to the follower's feed and changes no other user's feed |
| Scenarios.FollowScenario | twitter_orm2/app.py:148-149 | a does not see b's tweet until a follows b; after that a does, and b's feed is unchanged |

## Findings

| source | as written | input that shows it | evidently intended | confidence | as-written member | corrected member |
|---|---|---|---|---|---|---|
| twitter_orm2/app.py:194-197 | `delete_tweet` removes the tweet from `author.tweets`. The `tweets` relationship has no delete-orphan cascade, so this only sets the tweet's `author_id` to NULL. The row and its like edges stay. | user 1 wrote tweet 7 and liked it. After delete, tweet 7 is still in the tweets table with no author, and the like edge (7, 1) remains. | the tweet row is deleted together with the like edges that point at it | medium (depends on SQLAlchemy's default cascade behaviour), not executed | Tweets.DeleteTweetAsWritten, Tweets.DeleteAsWrittenKeepsTweet | Tweets.DeleteTweet |

Both deletes take the tweet out of every feed. The rest of the model uses
the corrected `DeleteTweet`. A simple fix with `session.delete(tweet)`
would not reach the intended behaviour, because `Tweet.author` carries
`cascade="all"`, so the delete would cascade to the author's user row.
`DeleteTweet` keeps the author.

## Left out

- HTTP routing, the session, `flash`, `redirect` and templates are left out. This includes `logout`, `show_users` and `show_edit`, which only read or clear session state and render.
- bcrypt is an external primitive. Hashing and verification are function parameters, so the model cannot state that a stored credential differs from the plaintext password or that hashing is salted.
- SQLAlchemy, SQLite and migrations are replaced by the immutable `Store` value. Each route is one atomic transformer.
- The `created_at`/`updated_at` timestamps and `Tweet.age` depend on the clock and are left out.
- The `Follow` model class is never used and declares its columns twice, so it is left out.
- The session-building lines of `login` (app.py:159-163) are left out. `user` there is the query's result list, so reading `user.first_name` raises AttributeError and a valid login never reaches the redirect. Only the validity decision at :157 is modelled, and the login that `Scenarios.RegisterThenLogin` calls successful is that decision.
- Missing rows are handled as preconditions where the code would fail. `Query.get` returns None for an unknown id. Like and follow then fail when the None is appended or its attribute read, so they require their tweet and users to exist, and the feed requires its viewer to exist. Edit reads the tweet only when the new message is non-empty, so it requires the tweet only then; an empty edit of an unknown id just flashes and renders, and the model refuses it with the store unchanged. The as-written delete also requires the tweet to have an author. The corrected `DeleteTweet` needs only the tweet.
- A duplicate follow or like edge is either not inserted or rejected by the composite key (app.py:18-19, :24-25); either way the table keeps one row for the pair, which is set union, so edges are sets and the error path is not modelled.
- The `String(100)`, `String(140)` and `String(200)` column widths are not modelled, because SQLite does not enforce them and no code path checks them.
- Tweets.AddTweet: stores the session's user id without checking that the user exists, as the route does. `Valid` is only promised when `cur` is an existing user.
- Tweets.Feed: a set, not a list. The query applies no ordering.
- Identity.RegisterNewUser: the `Good` outcome carries the new id and row, not an ORM object.

/**
 Tweets: the dashboard feed and the post, edit and delete routes, each
 as a transformer of the store.
 */
module Tweets {
  import opened Wrappers
  import opened Social
  import Graph

  /** `User.tweets`: the tweets whose author column names `u`. */
  function TweetsOf(st: Store, u: UserId): (r: set<TweetId>)
    ensures forall t :: t in r <==> t in st.tweets && st.tweets[t].author == Some(u)
    ensures Valid(st) && u !in st.users ==> r == {}
  {
    set t | t in st.tweets && st.tweets[t].author == Some(u)
  }

  /** Each tweet has one author column, so it is in at most one user's `tweets`. */
  lemma TweetsOfDisjoint(st: Store, u: UserId, v: UserId)
    requires u != v
    ensures TweetsOf(st, u) !! TweetsOf(st, v)
  {
  }

  /**
   The dashboard: tweets whose author is among the viewer's followed users
   or the viewer. A tweet without an author is in no feed.
   */
  function Feed(st: Store, viewer: UserId): (r: set<TweetId>)
    requires viewer in st.users
    ensures forall t :: t in r <==>
              && t in st.tweets && st.tweets[t].author.Some?
              && var a := st.tweets[t].author.value;
                 a == viewer || (a in st.users && FollowEdge(viewer, a) in st.follows)
  {
    var approved := Graph.Following(st, viewer) + {viewer};
    set t | t in st.tweets && st.tweets[t].author.Some? && st.tweets[t].author.value in approved
  }

  /** Outcome of posting: the new tweet's id, or a refusal of the empty message. */
  datatype PostOutcome = Posted(id: TweetId) | EmptyMessage

  /**
   The logged-in user `cur` posts `message`. A non-empty message becomes a
   new tweet authored by `cur`; an empty one changes nothing.
   */
  function AddTweet(st: Store, cur: UserId, message: string): (out: (PostOutcome, Store))
    ensures out.0.Posted? <==> |message| > 0
    ensures out.0.Posted? ==>
              && out.0.id !in st.tweets
              && out.1.tweets == st.tweets[out.0.id := Tweet(message, Some(cur))]
              && out.1.users == st.users && out.1.follows == st.follows && out.1.likes == st.likes
    ensures out.0.EmptyMessage? ==> out.1 == st
    ensures Valid(st) && cur in st.users ==> Valid(out.1)
  {
    if |message| > 0 then
      var id := NextId(st.tweets.Keys);
      (Posted(id), st.(tweets := st.tweets[id := Tweet(message, Some(cur))]))
    else
      (EmptyMessage, st)
  }

  /** Outcome of editing: replaced, or a refusal of the empty message. */
  datatype EditOutcome = Updated | EmptyEdit

  /**
   Tweet `t` gets the message `message` if that is non-empty; its author
   never changes, and an empty message leaves the store as it was. Only
   the non-empty case reads the tweet, so only it needs `t` to exist.
   */
  function UpdateTweet(st: Store, t: TweetId, message: string): (out: (EditOutcome, Store))
    requires |message| > 0 ==> t in st.tweets
    ensures out.0.Updated? <==> |message| > 0
    ensures t in st.tweets ==> t in out.1.tweets && out.1.tweets[t].author == st.tweets[t].author
    ensures out.0.Updated? ==> out.1.tweets[t].message == message
    ensures out.0.EmptyEdit? ==> out.1 == st
    ensures out.1.tweets.Keys == st.tweets.Keys
    ensures forall t' :: t' in st.tweets && t' != t ==> out.1.tweets[t'] == st.tweets[t']
    ensures out.1.users == st.users && out.1.follows == st.follows && out.1.likes == st.likes
    ensures Valid(st) ==> Valid(out.1)
  {
    if |message| > 0 then
      (Updated, st.(tweets := st.tweets[t := st.tweets[t].(message := message)]))
    else
      (EmptyEdit, st)
  }

  /**
   The delete route as written: removing the tweet from its author's
   `tweets` collection, with no delete-orphan cascade, only clears the
   tweet's author column. The row and its like edges stay.
   */
  function DeleteTweetAsWritten(st: Store, t: TweetId): (out: Store)
    requires t in st.tweets && st.tweets[t].author.Some? && st.tweets[t].author.value in st.users
    ensures out.tweets.Keys == st.tweets.Keys
    ensures out.tweets[t] == Tweet(st.tweets[t].message, None)
    ensures forall t' :: t' in st.tweets && t' != t ==> out.tweets[t'] == st.tweets[t']
    ensures forall u :: TweetsOf(out, u) == TweetsOf(st, u) - {t}
    ensures out.users == st.users && out.follows == st.follows && out.likes == st.likes
    ensures Valid(st) ==> Valid(out)
  {
    st.(tweets := st.tweets[t := st.tweets[t].(author := None)])
  }

  /**
   Deleting tweet `t` as intended: the row goes, and so do the like edges
   that point at it. Every other row and edge stays.
   */
  function DeleteTweet(st: Store, t: TweetId): (out: Store)
    requires t in st.tweets
    ensures out.tweets.Keys == st.tweets.Keys - {t}
    ensures forall t' :: t' in out.tweets ==> out.tweets[t'] == st.tweets[t']
    ensures forall l :: l in out.likes <==> l in st.likes && l.tweet != t
    ensures forall u :: TweetsOf(out, u) == TweetsOf(st, u) - {t}
    ensures out.users == st.users && out.follows == st.follows
    ensures Valid(st) ==> Valid(out)
  {
    Store(st.users, st.tweets - {t}, st.follows, set l | l in st.likes && l.tweet != t)
  }

  /** A user's own tweets are always in their feed. */
  lemma OwnTweetsInFeed(st: Store, v: UserId)
    requires v in st.users
    ensures TweetsOf(st, v) <= Feed(st, v)
  {
  }

  /** Posting a message puts it in the poster's feed and in the feed of every follower. */
  lemma PostReachesFollowers(st: Store, cur: UserId, message: string, v: UserId)
    requires cur in st.users && v in st.users && |message| > 0
    requires v == cur || FollowEdge(v, cur) in st.follows
    ensures AddTweet(st, cur, message).0.id in Feed(AddTweet(st, cur, message).1, v)
  {
  }

  /** After either delete, the tweet is in nobody's feed and every other feed entry stays. */
  lemma DeletedTweetLeavesFeeds(st: Store, t: TweetId, v: UserId)
    requires t in st.tweets && v in st.users
    ensures Feed(DeleteTweet(st, t), v) == Feed(st, v) - {t}
    ensures st.tweets[t].author.Some? && st.tweets[t].author.value in st.users ==>
              Feed(DeleteTweetAsWritten(st, t), v) == Feed(st, v) - {t}
  {
  }

  /**
   The delete route as written keeps the "deleted" tweet: the row is still
   there and so is every like on it, so it can still be fetched, edited
   and liked by id; the intended delete leaves neither.
   */
  lemma DeleteAsWrittenKeepsTweet(st: Store, t: TweetId, u: UserId)
    requires t in st.tweets && st.tweets[t].author.Some? && st.tweets[t].author.value in st.users
    requires u in st.users && LikeEdge(t, u) in st.likes
    ensures t in DeleteTweetAsWritten(st, t).tweets
    ensures u in Graph.Likers(DeleteTweetAsWritten(st, t), t)
    ensures t !in DeleteTweet(st, t).tweets
    ensures u !in Graph.Likers(DeleteTweet(st, t), t)
  {
  }

  /** A concrete store on which the two deletes differ. */
  lemma DeleteAsWrittenWitness()
    ensures var alice := User("alice", "smith", "alice@example.com", "h");
            var st := Store(map[1 := alice], map[7 := Tweet("hello", Some(1))], {}, {LikeEdge(7, 1)});
            && DeleteTweetAsWritten(st, 7).tweets == map[7 := Tweet("hello", None)]
            && DeleteTweetAsWritten(st, 7).likes == {LikeEdge(7, 1)}
            && DeleteTweet(st, 7).tweets == map[]
            && DeleteTweet(st, 7).likes == {}
  {
  }
}

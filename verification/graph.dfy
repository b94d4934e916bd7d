/**
 The social graph: the `followers` edge table, read through the
 `following`/`followers` relationships, and the `likes` edge table, read
 through `liked_tweets`/`likers`.
 */
module Graph {
  import opened Social

  /** `User.following`: the users `u` follows (edges with `u` as follower). */
  function Following(st: Store, u: UserId): (r: set<UserId>)
    ensures forall v :: v in r <==> v in st.users && FollowEdge(u, v) in st.follows
  {
    set e | e in st.follows && e.follower == u && e.followed in st.users :: e.followed
  }

  /** `User.followers`: the users following `u` (edges with `u` as followed). */
  function Followers(st: Store, u: UserId): (r: set<UserId>)
    ensures forall v :: v in r <==> v in st.users && FollowEdge(v, u) in st.follows
  {
    set e | e in st.follows && e.followed == u && e.follower in st.users :: e.follower
  }

  /** `Tweet.likers`: the users who liked tweet `t`. */
  function Likers(st: Store, t: TweetId): (r: set<UserId>)
    ensures forall u :: u in r <==> u in st.users && LikeEdge(t, u) in st.likes
  {
    set l | l in st.likes && l.tweet == t && l.user in st.users :: l.user
  }

  /** `User.liked_tweets`: the tweets `u` liked. */
  function LikedTweets(st: Store, u: UserId): (r: set<TweetId>)
    ensures forall t :: t in r <==> t in st.tweets && LikeEdge(t, u) in st.likes
  {
    set l | l in st.likes && l.user == u && l.tweet in st.tweets :: l.tweet
  }

  /**
   The logged-in user `cur` follows `target`: appending `cur` to the
   target's followers inserts the one edge (cur, target).
   */
  function FollowUser(st: Store, cur: UserId, target: UserId): (out: Store)
    requires cur in st.users && target in st.users
    ensures forall e :: e in out.follows <==> e in st.follows || e == FollowEdge(cur, target)
    ensures target in Following(out, cur) && cur in Followers(out, target)
    ensures forall u :: u != cur ==> Following(out, u) == Following(st, u)
    ensures forall u :: u != target ==> Followers(out, u) == Followers(st, u)
    ensures out.users == st.users && out.tweets == st.tweets && out.likes == st.likes
    ensures Valid(st) ==> Valid(out)
  {
    st.(follows := st.follows + {FollowEdge(cur, target)})
  }

  /** The logged-in user `cur` likes tweet `t`: one edge (t, cur) is inserted. */
  function AddLike(st: Store, cur: UserId, t: TweetId): (out: Store)
    requires t in st.tweets && cur in st.users
    ensures forall l :: l in out.likes <==> l in st.likes || l == LikeEdge(t, cur)
    ensures cur in Likers(out, t) && t in LikedTweets(out, cur)
    ensures forall t' :: t' != t ==> Likers(out, t') == Likers(st, t')
    ensures forall u :: u != cur ==> LikedTweets(out, u) == LikedTweets(st, u)
    ensures out.users == st.users && out.tweets == st.tweets && out.follows == st.follows
    ensures Valid(st) ==> Valid(out)
  {
    st.(likes := st.likes + {LikeEdge(t, cur)})
  }

  /** `following` and `followers` read the same edges in opposite directions. */
  lemma FollowingFollowersDual(st: Store, a: UserId, b: UserId)
    requires a in st.users && b in st.users
    ensures b in Following(st, a) <==> a in Followers(st, b)
  {
  }

  /** `liked_tweets` and `likers` read the same `likes` edges from opposite ends. */
  lemma LikedTweetsLikersDual(st: Store, u: UserId, t: TweetId)
    requires u in st.users && t in st.tweets
    ensures t in LikedTweets(st, u) <==> u in Likers(st, t)
  {
  }

  /** Following twice leaves the same store as following once: one edge per pair. */
  lemma FollowIdempotent(st: Store, cur: UserId, target: UserId)
    requires cur in st.users && target in st.users
    ensures FollowUser(FollowUser(st, cur, target), cur, target) == FollowUser(st, cur, target)
  {
  }

  /** Liking twice leaves the same store as liking once: one edge per pair. */
  lemma LikeIdempotent(st: Store, cur: UserId, t: TweetId)
    requires t in st.tweets && cur in st.users
    ensures AddLike(AddLike(st, cur, t), cur, t) == AddLike(st, cur, t)
  {
  }

  /** Following is directed: a new edge (a, b) makes no one follow `a`. */
  lemma FollowIsDirected(st: Store, a: UserId, b: UserId)
    requires a in st.users && b in st.users && a != b
    ensures a !in Following(st, b) ==> a !in Following(FollowUser(st, a, b), b)
  {
  }
}

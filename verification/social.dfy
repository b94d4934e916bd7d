/**
 The shared relational store: the `users` and `tweets` tables keyed by
 their integer ids, and the two edge tables `followers` and `likes`, each
 keyed by the pair of ids it joins.
 */
module Social {
  import opened Wrappers

  type UserId = nat
  type TweetId = nat

  /** A `users` row; `passwordHash` is whatever the password hasher produced. */
  datatype User = User(firstName: string, lastName: string, email: string, passwordHash: string)

  /** A `tweets` row; `author` is the nullable `author_id` column. */
  datatype Tweet = Tweet(message: string, author: Option<UserId>)

  /** A `followers` row: `follower` follows `followed`. */
  datatype FollowEdge = FollowEdge(follower: UserId, followed: UserId)

  /** A `likes` row: `user` liked `tweet`. */
  datatype LikeEdge = LikeEdge(tweet: TweetId, user: UserId)

  /**
   The whole store. The edge tables are sets because each is keyed by its
   pair of ids: one row per ordered pair at most.
   */
  datatype Store = Store(
    users: map<UserId, User>,
    tweets: map<TweetId, Tweet>,
    follows: set<FollowEdge>,
    likes: set<LikeEdge>)

  const EmptyStore := Store(map[], map[], {}, {})

  /** Every reference held by a row or an edge names an existing row. */
  predicate Valid(st: Store) {
    && (forall t :: t in st.tweets && st.tweets[t].author.Some? ==> st.tweets[t].author.value in st.users)
    && (forall e :: e in st.follows ==> e.follower in st.users && e.followed in st.users)
    && (forall l :: l in st.likes ==> l.tweet in st.tweets && l.user in st.users)
  }

  /** Largest id of a non-empty set of ids. */
  function MaxId(ids: set<nat>): (m: nat)
    requires ids != {}
    ensures m in ids
    ensures forall k :: k in ids ==> k <= m
  {
    HasMaximum(ids);
    var m :| IsMaximum(m, ids);
    m
  }

  /** A finite non-empty set of naturals has a largest element. */
  lemma {:induction false} HasMaximum(ids: set<nat>)
    requires ids != {}
    ensures exists m :: IsMaximum(m, ids)
  {
    var x :| x in ids;
    var rest := ids - {x};
    if rest == {} {
      assert ids == {x};
      assert IsMaximum(x, ids);
    } else {
      HasMaximum(rest);
      var m :| IsMaximum(m, rest);
      var top := if x <= m then m else x;
      forall k | k in ids
        ensures k <= top
      {
        if k != x {
          assert k in rest;
        }
      }
      assert IsMaximum(top, ids);
    }
  }

  /** `m` belongs to `ids` and no element exceeds it. */
  predicate IsMaximum(m: nat, ids: set<nat>) {
    m in ids && forall k :: k in ids ==> k <= m
  }

  /**
   The id the store gives a new row of a table whose ids are `ids`: one
   more than the largest, or 1 for an empty table (SQLite's rule for an
   INTEGER PRIMARY KEY column).
   */
  function NextId(ids: set<nat>): (r: nat)
    ensures r !in ids
    ensures r >= 1
    ensures forall k :: k in ids ==> k < r
    ensures ids == {} ==> r == 1
    ensures ids != {} ==> r - 1 in ids
  {
    if ids == {} then 1 else MaxId(ids) + 1
  }
}

/**
 Properties that relate several operations: registration followed by
 login, post followed by edit or delete, and how following shapes feeds.
 */
module Scenarios {
  import opened Wrappers
  import opened Social
  import Registration
  import Identity
  import Graph
  import Tweets

  /**
   A successful registration with an email nobody else uses can log in
   with the same password, provided the hasher's own hashes verify.
   */
  lemma RegisterThenLogin(st: Store, f: Registration.Form,
                          hash: string -> string, check: (string, string) -> bool)
    requires Registration.Acceptable(f)
    requires forall id :: id in st.users ==> st.users[id].email != f.email
    requires Identity.HasherSound(hash, check)
    ensures Identity.RegisterNewUser(st, f, hash).0.Good?
    ensures Identity.LoginValid(Identity.RegisterNewUser(st, f, hash).1, f.email, f.password, check)
  {
  }

  /** Two users with the same email lock each other out, whatever the password. */
  lemma SharedEmailBlocksLogin(st: Store, u1: UserId, u2: UserId, password: string,
                               check: (string, string) -> bool)
    requires u1 in st.users && u2 in st.users && u1 != u2
    requires st.users[u1].email == st.users[u2].email
    ensures !Identity.LoginValid(st, st.users[u1].email, password, check)
  {
  }

  /** A rejected registration leaves login decisions exactly as they were. */
  lemma RejectedRegistrationKeepsLogins(st: Store, f: Registration.Form, hash: string -> string,
                                        email: string, password: string,
                                        check: (string, string) -> bool)
    requires !Registration.Acceptable(f)
    ensures Identity.LoginValid(Identity.RegisterNewUser(st, f, hash).1, email, password, check)
            == Identity.LoginValid(st, email, password, check)
  {
  }

  /** Post, then edit with a non-empty message: reading the tweet back gives the edit. */
  lemma PostThenEdit(st: Store, cur: UserId, m1: string, m2: string)
    requires |m1| > 0 && |m2| > 0
    ensures var (posted, st1) := Tweets.AddTweet(st, cur, m1);
            var (_, st2) := Tweets.UpdateTweet(st1, posted.id, m2);
            posted.id in st2.tweets && st2.tweets[posted.id] == Tweet(m2, Some(cur))
  {
  }

  /** Post, like, then delete: the tweet is gone and so is every like on it. */
  lemma PostLikeThenDelete(st: Store, cur: UserId, liker: UserId, m: string)
    requires cur in st.users && liker in st.users && |m| > 0
    ensures var (posted, st1) := Tweets.AddTweet(st, cur, m);
            var st3 := Tweets.DeleteTweet(Graph.AddLike(st1, liker, posted.id), posted.id);
            && posted.id !in st3.tweets
            && (forall l :: l in st3.likes ==> l.tweet != posted.id)
            && st3.tweets == st.tweets
  {
  }

  /**
   Following `b` adds exactly `b`'s tweets to the follower's feed and
   leaves every other user's feed as it was; in particular `b` does not
   start seeing the follower's tweets.
   */
  lemma FollowChangesOnlyFollowerFeed(st: Store, a: UserId, b: UserId, v: UserId)
    requires a in st.users && b in st.users && v in st.users
    ensures Tweets.Feed(Graph.FollowUser(st, a, b), a) == Tweets.Feed(st, a) + Tweets.TweetsOf(st, b)
    ensures v != a ==> Tweets.Feed(Graph.FollowUser(st, a, b), v) == Tweets.Feed(st, v)
  {
  }

  /**
   The dashboard scenario: with no edge between them, `a` does not see
   `b`'s tweet; once `a` follows `b` it does, while `b`'s feed gains nothing.
   */
  lemma FollowScenario(st: Store, a: UserId, b: UserId, t: TweetId)
    requires a in st.users && b in st.users && a != b
    requires FollowEdge(a, b) !in st.follows
    requires t in st.tweets && st.tweets[t].author == Some(b)
    ensures t !in Tweets.Feed(st, a)
    ensures t in Tweets.Feed(Graph.FollowUser(st, a, b), a)
    ensures Tweets.Feed(Graph.FollowUser(st, a, b), b) == Tweets.Feed(st, b)
  {
    FollowChangesOnlyFollowerFeed(st, a, b, b);
  }
}

/**
 Users: creating a row at registration, the login decision and the
 display name. The password hasher and its verifier are parameters:
 `hash` turns a password into the stored credential and `check` tells
 whether a password matches a stored credential.
 */
module Identity {
  import opened Wrappers
  import opened Social
  import Registration

  /** What the hasher promises: a password always verifies against its own hash. */
  ghost predicate HasherSound(hash: string -> string, check: (string, string) -> bool) {
    forall p :: check(hash(p), p)
  }

  /** Result of registration: the new user, or the flashed error messages. */
  datatype RegisterOutcome = Good(id: UserId, user: User) | Bad(errors: seq<string>)

  /** Stores a new user built from the form, with the password replaced by its hash. */
  function AddNewUser(st: Store, f: Registration.Form, hash: string -> string): (out: (UserId, Store))
    ensures out.0 !in st.users
    ensures out.1.users.Keys == st.users.Keys + {out.0}
    ensures forall id :: id in st.users ==> out.1.users[id] == st.users[id]
    ensures out.1.users[out.0] == User(f.firstName, f.lastName, f.email, hash(f.password))
    ensures out.1.tweets == st.tweets && out.1.follows == st.follows && out.1.likes == st.likes
    ensures Valid(st) ==> Valid(out.1)
  {
    var id := NextId(st.users.Keys);
    var user := User(f.firstName, f.lastName, f.email, hash(f.password));
    (id, st.(users := st.users[id := user]))
  }

  /**
   Runs the form check; only a form with no error adds a user. A rejected
   form leaves the store as it was and reports the messages in check order.
   */
  function RegisterNewUser(st: Store, f: Registration.Form, hash: string -> string): (out: (RegisterOutcome, Store))
    ensures out.0.Good? <==> Registration.Acceptable(f)
    ensures out.0.Good? ==>
              && out.0.id !in st.users
              && out.1.users == st.users[out.0.id := out.0.user]
              && out.0.user == User(f.firstName, f.lastName, f.email, hash(f.password))
              && out.1.tweets == st.tweets && out.1.follows == st.follows && out.1.likes == st.likes
    ensures out.0.Bad? ==>
              && out.1 == st
              && 1 <= |out.0.errors| <= 5
              && out.0.errors == Registration.Messages(Registration.FindRegistrationErrors(f))
    ensures Valid(st) ==> Valid(out.1)
  {
    var errors := Registration.FindRegistrationErrors(f);
    if |errors| == 0 then
      var (id, st') := AddNewUser(st, f, hash);
      (Good(id, st'.users[id]), st')
    else
      (Bad(Registration.Messages(errors)), st)
  }

  /**
   The ids of the users whose email is exactly `email`. The query returns
   just `id` exactly when `id` is the sole owner of that email.
   */
  function UsersWithEmail(st: Store, email: string): (ids: set<UserId>)
    ensures ids <= st.users.Keys
    ensures forall id :: id in ids <==> id in st.users && st.users[id].email == email
    ensures forall id: UserId :: SoleOwner(st, email, id) <==> ids == {id}
  {
    var ids := set id | id in st.users && st.users[id].email == email;
    assert forall id: UserId :: SoleOwner(st, email, id) ==> ids == {id};
    ids
  }

  /** `id` is the one and only user whose email is `email`. */
  ghost predicate SoleOwner(st: Store, email: string, id: UserId) {
    && id in st.users && st.users[id].email == email
    && forall other :: other in st.users && st.users[other].email == email ==> other == id
  }

  /**
   The login decision: the email query must return exactly one user, and
   the password must verify against that user's stored hash.
   */
  function LoginValid(st: Store, email: string, password: string,
                      check: (string, string) -> bool): (valid: bool)
    ensures valid <==> exists id :: SoleOwner(st, email, id) && check(st.users[id].passwordHash, password)
  {
    var matches := UsersWithEmail(st, email);
    SingletonIff(matches);
    |matches| == 1 && forall id :: id in matches ==> check(st.users[id].passwordHash, password)
  }


  /** A set has exactly one element iff it is a singleton display. */
  lemma SingletonIff(s: set<UserId>)
    ensures |s| == 1 <==> exists x :: s == {x}
  {
    if |s| == 1 {
      var x :| x in s;
      assert |s - {x}| == 0;
      assert s == {x};
    }
  }

  /** The display name: first name, one space, last name. */
  function FullName(u: User): (r: string)
    ensures |r| == |u.firstName| + 1 + |u.lastName|
    ensures r[..|u.firstName|] == u.firstName
    ensures r[|u.firstName|] == ' '
    ensures r[|u.firstName| + 1..] == u.lastName
  {
    u.firstName + " " + u.lastName
  }

  /**
   Two users with the same display name and first names of the same
   length have the same first and last names. Without the length the
   names are not recoverable, since names may contain spaces.
   */
  lemma FullNameSplits(u: User, v: User)
    requires FullName(u) == FullName(v) && |u.firstName| == |v.firstName|
    ensures u.firstName == v.firstName && u.lastName == v.lastName
  {
  }

  /** ("ab c", "de") and ("ab", "c de") share the display name "ab c de". */
  lemma FullNameAmbiguous()
    ensures FullName(User("ab c", "de", "", "")) == FullName(User("ab", "c de", "", ""))
  {
  }
}

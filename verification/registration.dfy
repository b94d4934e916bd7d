/**
 The registration form check: five independent tests run in a fixed order,
 each failed test contributing one message.
 */
module Registration {
  import Email

  /** The submitted form; `confirm` is the password confirmation field. */
  datatype Form = Form(firstName: string, lastName: string, email: string,
                       password: string, confirm: string)

  /** The five checks, in the order they are run. */
  datatype Check = FirstNameTooShort | LastNameTooShort | InvalidEmail
                 | PasswordMismatch | PasswordTooShort

  /** Position of a check in the run order. */
  function Rank(c: Check): nat {
    match c
    case FirstNameTooShort => 0
    case LastNameTooShort => 1
    case InvalidEmail => 2
    case PasswordMismatch => 3
    case PasswordTooShort => 4
  }

  /** The message flashed for a failed check. */
  function Message(c: Check): string {
    match c
    case FirstNameTooShort => "first name is not long enough"
    case LastNameTooShort => "last name is not long enough"
    case InvalidEmail => "invalid email"
    case PasswordMismatch => "password dont match"
    case PasswordTooShort => "password isn't long enough"
  }

  /** Whether the form fails check `c`. */
  predicate Fails(f: Form, c: Check) {
    match c
    case FirstNameTooShort => |f.firstName| < 3
    case LastNameTooShort => |f.lastName| < 3
    case InvalidEmail => !Email.EmailAccepted(f.email)
    case PasswordMismatch => f.password != f.confirm
    case PasswordTooShort => |f.password| < 8
  }

  /** A form every check passes. */
  predicate Acceptable(f: Form) {
    && |f.firstName| >= 3
    && |f.lastName| >= 3
    && Email.EmailAccepted(f.email)
    && f.password == f.confirm
    && |f.password| >= 8
  }

  /** The checks of `errs` appear in strictly increasing run order. */
  predicate InRunOrder(errs: seq<Check>) {
    forall i, j :: 0 <= i < j < |errs| ==> Rank(errs[i]) < Rank(errs[j])
  }

  /** All five checks, in the order the form check runs them. */
  const RunOrder: seq<Check> :=
    [FirstNameTooShort, LastNameTooShort, InvalidEmail, PasswordMismatch, PasswordTooShort]

  /** Every check is run, once, in run order. */
  lemma RunOrderCoversAllChecks()
    ensures forall c :: c in RunOrder
    ensures InRunOrder(RunOrder)
  {
    forall c
      ensures c in RunOrder
    {
      assert RunOrder[Rank(c)] == c;
    }
    assert forall i :: 0 <= i < |RunOrder| ==> Rank(RunOrder[i]) == i;
  }

  /** Runs `checks` in order, keeping each one the form fails. */
  function FailedAmong(f: Form, checks: seq<Check>): (errs: seq<Check>)
    ensures forall c :: c in errs <==> c in checks && Fails(f, c)
    ensures InRunOrder(checks) ==> InRunOrder(errs)
    ensures |errs| <= |checks|
  {
    if checks == [] then []
    else
      var rest := FailedAmong(f, checks[1..]);
      var head := if Fails(f, checks[0]) then [checks[0]] else [];
      assert InRunOrder(checks) ==> InRunOrder(head + rest) by {
        if InRunOrder(checks) {
          assert InRunOrder(checks[1..]);
          assert forall c :: c in rest ==> Rank(checks[0]) < Rank(c);
        }
      }
      head + rest
  }

  /** The failed checks, in run order: the list the form check returns. */
  function FindRegistrationErrors(f: Form): (errs: seq<Check>)
    ensures forall c :: c in errs <==> Fails(f, c)
    ensures InRunOrder(errs)
    ensures errs == [] <==> Acceptable(f)
    ensures |errs| <= 5
  {
    RunOrderCoversAllChecks();
    var errs := FailedAmong(f, RunOrder);
    assert forall c :: c in errs <==> Fails(f, c);
    assert errs == [] <==> Acceptable(f) by {
      assert errs != [] ==> Fails(f, errs[0]);
      assert Acceptable(f) <==>
        !Fails(f, FirstNameTooShort) && !Fails(f, LastNameTooShort) && !Fails(f, InvalidEmail)
        && !Fails(f, PasswordMismatch) && !Fails(f, PasswordTooShort);
    }
    errs
  }

  /**
   The messages for a list of failed checks, in the same order. The five
   messages are distinct, so the flashed list tells which checks failed.
   */
  function Messages(errs: seq<Check>): (ms: seq<string>)
    ensures |ms| == |errs|
    ensures forall i :: 0 <= i < |errs| ==> ms[i] == Message(errs[i])
    ensures forall i, j :: 0 <= i < |errs| && 0 <= j < |errs| ==> (ms[i] == ms[j] <==> errs[i] == errs[j])
  {
    seq(|errs|, i requires 0 <= i < |errs| => Message(errs[i]))
  }

  /**
   Membership and run order pin the list down: any list of exactly the
   failed checks in run order is the one the form check returns.
   */
  lemma ErrorListIsDetermined(f: Form, errs: seq<Check>)
    requires forall c :: c in errs <==> Fails(f, c)
    requires InRunOrder(errs)
    ensures errs == FindRegistrationErrors(f)
  {
    SameMembersSameOrder(errs, FindRegistrationErrors(f));
  }

  /** Two lists in strict run order with the same members are equal. */
  lemma {:induction false} SameMembersSameOrder(xs: seq<Check>, ys: seq<Check>)
    requires InRunOrder(xs) && InRunOrder(ys)
    requires forall c :: c in xs <==> c in ys
    ensures xs == ys
    decreases |xs| + |ys|
  {
    assert xs != [] ==> xs[0] in ys;
    assert ys != [] ==> ys[0] in xs;
    if xs != [] && ys != [] {
      // The head of each list has the smallest rank, so the heads agree.
      var i :| 0 <= i < |ys| && ys[i] == xs[0];
      var j :| 0 <= j < |xs| && xs[j] == ys[0];
      assert Rank(ys[0]) <= Rank(ys[i]) == Rank(xs[0]);
      assert Rank(xs[0]) <= Rank(xs[j]) == Rank(ys[0]);
      assert xs[0] == ys[0];
      forall c
        ensures c in xs[1..] <==> c in ys[1..]
      {
        if c in xs[1..] {
          var k :| 1 <= k < |xs| && xs[k] == c;
          assert Rank(xs[0]) < Rank(c);
          assert c in ys;
        }
        if c in ys[1..] {
          var k :| 1 <= k < |ys| && ys[k] == c;
          assert Rank(ys[0]) < Rank(c);
          assert c in xs;
        }
      }
      SameMembersSameOrder(xs[1..], ys[1..]);
    }
  }
}

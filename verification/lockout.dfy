/** The account-lockout defence: a login prompt that allows a bounded number of
    wrong passwords. The passwords typed at the prompt are given up front as a
    sequence; the loop is a fold over it. */
module Lockout {

  import opened Matcher

  /** The bound the menu uses when it starts the lockout demonstration. */
  const DefaultMaxAttempts := 5

  /** How a session ends: the password was accepted, the account was locked,
      or the input ran out while attempts were still allowed (Python's
      `input()` then raises `EOFError`). */
  datatype Outcome = LoggedIn | Locked | InputClosed

  /** The line printed after a wrong password: the number of attempts left
      while any are, and a bare "wrong password" after the last one. */
  datatype Feedback = WrongWithRemaining(remaining: nat) | Wrong

  /** A whole session: how it ended, the feedback printed after each wrong
      password in order, and how many passwords were compared. */
  datatype Session = Session(outcome: Outcome, feedback: seq<Feedback>, comparisons: nat)

  /** The loop guard `attempts < max_attempts`, tested before each prompt. */
  predicate LoopContinues(attempts: nat, maxAttempts: int) {
    attempts < maxAttempts
  }

  /** Number of comparisons the loop allows: the guard holds for exactly the
      attempt counts below it, so it is `max_attempts`, or none when that is
      not positive. */
  function Limit(maxAttempts: int): (r: nat)
    ensures forall a: nat :: LoopContinues(a, maxAttempts) <==> a < r
  {
    if maxAttempts <= 0 then 0 else maxAttempts
  }

  /** `simulated_login_with_lockout`, where `budget` is `max_attempts` minus the
      attempts already made: the loop runs while it is positive, and after a
      wrong password the remaining count printed is the new budget. A session
      compares at most `Limit(budget)` passwords, succeeds exactly when one of
      the first `Limit(budget)` inputs is the secret (stopping at the first), and
      locks exactly when that many inputs are given and all are wrong. */
  function LoginWithLockout(secret: string, budget: int, inputs: seq<string>): (r: Session)
    ensures r.comparisons <= Limit(budget) && r.comparisons <= |inputs|
    ensures r.outcome == LoggedIn ==> r.comparisons >= 1 && inputs[r.comparisons - 1] == secret
    ensures r.outcome == LoggedIn ==> forall i :: 0 <= i < r.comparisons - 1 ==> inputs[i] != secret
    ensures r.outcome != LoggedIn ==> forall i :: 0 <= i < r.comparisons ==> inputs[i] != secret
    ensures r.outcome == Locked ==> r.comparisons == Limit(budget)
    ensures r.outcome == InputClosed ==> r.comparisons == |inputs| < budget
    ensures |r.feedback| == if r.outcome == LoggedIn then r.comparisons - 1 else r.comparisons
    ensures forall j :: 0 <= j < |r.feedback| ==> (r.feedback[j] == Wrong <==> j + 1 == budget)
    ensures forall j :: 0 <= j < |r.feedback| && r.feedback[j].WrongWithRemaining? ==>
              r.feedback[j].remaining == budget - (j + 1)
    decreases |inputs|
  {
    if budget <= 0 then Session(Locked, [], 0)
    else if |inputs| == 0 then Session(InputClosed, [], 0)
    else if CheckLogin(secret, inputs[0]) then Session(LoggedIn, [], 1)
    else
      var remaining := budget - 1;
      var note := if remaining > 0 then WrongWithRemaining(remaining) else Wrong;
      var rest := LoginWithLockout(secret, remaining, inputs[1..]);
      assert forall i :: 1 <= i < |inputs| ==> inputs[1..][i - 1] == inputs[i];
      Session(rest.outcome, [note] + rest.feedback, rest.comparisons + 1)
  }

  /** The session the menu starts, which relies on the default bound of
      `DefaultMaxAttempts` wrong passwords. */
  function DefaultLockoutLogin(secret: string, inputs: seq<string>): (r: Session)
    ensures r.comparisons <= DefaultMaxAttempts
    ensures r.outcome == LoggedIn <==>
              exists i :: 0 <= i < |inputs| && i < DefaultMaxAttempts && inputs[i] == secret
    ensures r.outcome == Locked <==>
              DefaultMaxAttempts <= |inputs| && forall i :: 0 <= i < DefaultMaxAttempts ==> inputs[i] != secret
  {
    LoginWithLockoutOutcome(secret, DefaultMaxAttempts, inputs);
    LoginWithLockout(secret, DefaultMaxAttempts, inputs)
  }

  /** The session succeeds exactly when one of the first `Limit(budget)` inputs
      is the secret, and locks exactly when that many inputs are given and all
      of them are wrong. */
  lemma LoginWithLockoutOutcome(secret: string, budget: int, inputs: seq<string>)
    ensures var r := LoginWithLockout(secret, budget, inputs);
      && (r.outcome == LoggedIn <==> exists i :: 0 <= i < |inputs| && i < budget && inputs[i] == secret)
      && (r.outcome == Locked <==>
            Limit(budget) <= |inputs| && forall i :: 0 <= i < Limit(budget) ==> inputs[i] != secret)
  {
    var r := LoginWithLockout(secret, budget, inputs);
    if r.outcome == LoggedIn {
      var i := r.comparisons - 1;
      assert 0 <= i < |inputs| && i < budget && inputs[i] == secret;
    }
  }

  /** One wrong password: the session continues with one attempt fewer and
      the feedback for this attempt is printed first. */
  lemma WrongPasswordStep(secret: string, budget: int, inputs: seq<string>)
    requires budget > 0 && |inputs| > 0 && inputs[0] != secret
    ensures var rest := LoginWithLockout(secret, budget - 1, inputs[1..]);
      LoginWithLockout(secret, budget, inputs)
        == Session(rest.outcome, [if budget > 1 then WrongWithRemaining(budget - 1) else Wrong] + rest.feedback,
                   rest.comparisons + 1)
  {
  }

  lemma TailOfAppend<T>(a: seq<T>, b: seq<T>)
    requires |a| > 0
    ensures (a + b)[0] == a[0] && (a + b)[1..] == a[1..] + b
  {
  }

  /** Once a session has ended by login or lockout, later inputs are never
      read: appending more of them changes nothing. */
  lemma {:induction false} LaterInputsIgnored(secret: string, budget: int, inputs: seq<string>, more: seq<string>)
    requires LoginWithLockout(secret, budget, inputs).outcome != InputClosed
    ensures LoginWithLockout(secret, budget, inputs + more) == LoginWithLockout(secret, budget, inputs)
    decreases |inputs|, 1
  {
    if budget > 0 {
      assert |inputs| > 0;
      if inputs[0] != secret {
        LaterInputsIgnoredAfterWrong(secret, budget, inputs, more);
      }
    }
  }

  /** The step of `LaterInputsIgnored` after a wrong first password. */
  lemma {:induction false} LaterInputsIgnoredAfterWrong(secret: string, budget: int, inputs: seq<string>, more: seq<string>)
    requires budget > 0 && |inputs| > 0 && inputs[0] != secret
    requires LoginWithLockout(secret, budget, inputs).outcome != InputClosed
    ensures LoginWithLockout(secret, budget, inputs + more) == LoginWithLockout(secret, budget, inputs)
    decreases |inputs|, 0
  {
    var xs := inputs + more;
    TailOfAppend(inputs, more);
    WrongPasswordStep(secret, budget, inputs);
    WrongPasswordStep(secret, budget, xs);
    LaterInputsIgnored(secret, budget - 1, inputs[1..], more);
  }

  /** `maxAttempts` wrong passwords in a row lock the account: exactly that
      many are compared, whatever follows is never read, and the feedback counts
      down from `maxAttempts - 1` to a bare "wrong password". With one attempt
      allowed, a single failure locks. */
  lemma LockedAfterMaxFailures(secret: string, maxAttempts: int, inputs: seq<string>)
    requires 1 <= maxAttempts <= |inputs|
    requires forall i :: 0 <= i < maxAttempts ==> inputs[i] != secret
    ensures var r := LoginWithLockout(secret, maxAttempts, inputs);
      && r.outcome == Locked
      && r.comparisons == maxAttempts
      && |r.feedback| == maxAttempts
      && (forall j :: 0 <= j < maxAttempts - 1 ==> r.feedback[j] == WrongWithRemaining(maxAttempts - (j + 1)))
      && r.feedback[maxAttempts - 1] == Wrong
  {
    var r := LoginWithLockout(secret, maxAttempts, inputs);
    LoginWithLockoutOutcome(secret, maxAttempts, inputs);
    forall j | 0 <= j < maxAttempts - 1
      ensures r.feedback[j] == WrongWithRemaining(maxAttempts - (j + 1))
    {
      assert r.feedback[j] != Wrong;
    }
  }
}

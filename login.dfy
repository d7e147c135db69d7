/**
 * Login: the attempt budget of `login`. The console is a sequence of lines;
 * each attempt reads a username line (stripped) and then a password line.
 * `LoginFrom` is the specification, `Login` the method with the source's loop.
 */
module Login {
  import opened Wrappers
  import opened Text
  import Accounts

  const MaxAttempts: nat := 3

  datatype LoginOutcome =
    | LoggedIn(username: string)
    | Quit              // the `q` sentinel at the username prompt
    | TooManyAttempts   // "Too many failed attempts."
    | InputExhausted

  /**
   * One call of `login`: how it ended, how many lines it read, and the
   * counts shown in each "Invalid credentials! N attempts remaining." message.
   */
  datatype LoginRun = LoginRun(outcome: LoginOutcome, consumed: nat, remaining: seq<nat>)

  /** What `login` returns to its caller: the username, or None. */
  function Returned(o: LoginOutcome): (r: Option<string>)
    requires !o.InputExhausted?
    ensures r.Some? <==> o.LoggedIn?
    ensures r.Some? ==> r.value == o.username
  {
    match o
    case LoggedIn(name) => Some(name)
    case Quit => None
    case TooManyAttempts => None
  }

  /** The only test `login` applies to a username and password. */
  predicate Authentic(users: Accounts.Store, name: string, password: string) {
    name in users && users[name] == password
  }

  function After(n: nat, shown: seq<nat>, r: LoginRun): LoginRun {
    r.(consumed := n + r.consumed, remaining := shown + r.remaining)
  }

  lemma AfterAfter(n: nat, ns: seq<nat>, m: nat, ms: seq<nat>, r: LoginRun)
    ensures After(n, ns, After(m, ms, r)) == After(n + m, ns + ms, r)
  {
    assert ns + (ms + r.remaining) == (ns + ms) + r.remaining;
  }

  /** The `while attempts > 0` loop entered with `attempts` left. */
  function LoginFrom(users: Accounts.Store, lines: seq<string>, attempts: nat): LoginRun
    decreases |lines|
  {
    if attempts == 0 then LoginRun(TooManyAttempts, 0, [])
    else if lines == [] then LoginRun(InputExhausted, 0, [])
    else
      var name := Strip(lines[0]);
      if IsQuit(name) then LoginRun(Quit, 1, [])
      else if |lines| == 1 then LoginRun(InputExhausted, 1, [])
      else if Authentic(users, name, lines[1]) then LoginRun(LoggedIn(name), 2, [])
      else
        var left := attempts - 1;
        After(2, if left > 0 then [left] else [], LoginFrom(users, lines[2..], left))
  }

  /** A failed attempt: the budget drops by one and the next attempt starts two lines on. */
  lemma LoginStepFailed(users: Accounts.Store, lines: seq<string>, attempts: nat)
    requires attempts > 0 && |lines| >= 2
    requires !IsQuit(Strip(lines[0])) && !Authentic(users, Strip(lines[0]), lines[1])
    ensures LoginFrom(users, lines, attempts)
         == After(2, if attempts - 1 > 0 then [attempts - 1] else [], LoginFrom(users, lines[2..], attempts - 1))
  {
  }

  /** `login` on the loaded store `users`, reading from `lines`. */
  method Login(users: Accounts.Store, lines: seq<string>)
    returns (outcome: LoginOutcome, consumed: nat, remaining: seq<nat>)
    ensures LoginRun(outcome, consumed, remaining) == LoginFrom(users, lines, MaxAttempts)
  {
    remaining := [];
    var attempts := MaxAttempts;
    var i := 0;
    while attempts > 0
      invariant i <= |lines|
      invariant After(i, remaining, LoginFrom(users, lines[i..], attempts)) == LoginFrom(users, lines, MaxAttempts)
      decreases attempts
    {
      if i == |lines| {
        assert remaining + [] == remaining;
        return InputExhausted, i, remaining;
      }
      var username := Strip(lines[i]);
      ghost var rest := lines[i..];
      i := i + 1;
      if IsQuit(username) {
        assert remaining + [] == remaining;
        return Quit, i, remaining;
      }
      if i == |lines| {
        assert remaining + [] == remaining;
        return InputExhausted, i, remaining;
      }
      var password := lines[i];
      i := i + 1;
      if username in users && users[username] == password {
        assert remaining + [] == remaining;
        return LoggedIn(username), i, remaining;   // "Login successful!"
      }
      assert rest[2..] == lines[i..];
      LoginStepFailed(users, rest, attempts);
      attempts := attempts - 1;
      var shown := if attempts > 0 then [attempts] else [];
      AfterAfter(i - 2, remaining, 2, shown, LoginFrom(users, lines[i..], attempts));
      remaining := remaining + shown;
    }
    assert remaining + [] == remaining;
    return TooManyAttempts, i, remaining;
  }

  /** The counts a run can show from a budget of `attempts`: attempts-1, ..., 1. */
  function Countdown(attempts: nat): (r: seq<nat>)
    ensures |r| == if attempts == 0 then 0 else attempts - 1
  {
    if attempts <= 1 then [] else [attempts - 1] + Countdown(attempts - 1)
  }

  /**
   * Whatever the input, a run reads at most two lines per attempt, shows
   * a prefix of the countdown (every shown count positive, one fewer each
   * time), and gives up only after reading exactly two lines per attempt.
   */
  lemma {:induction false} LoginBudget(users: Accounts.Store, lines: seq<string>, attempts: nat)
    ensures var r := LoginFrom(users, lines, attempts);
      && r.consumed <= |lines| && r.consumed <= 2 * attempts
      && r.remaining <= Countdown(attempts)
      && (r.outcome == TooManyAttempts ==> r.consumed == 2 * attempts && r.remaining == Countdown(attempts))
  {
    if attempts > 0 && |lines| >= 2 && !IsQuit(Strip(lines[0])) && !Authentic(users, Strip(lines[0]), lines[1]) {
      LoginBudget(users, lines[2..], attempts - 1);
    }
  }

  /** Every count shown in a "remaining" message is positive and below the budget. */
  lemma RemainingPositive(users: Accounts.Store, lines: seq<string>)
    ensures forall n | n in LoginFrom(users, lines, MaxAttempts).remaining :: 0 < n < MaxAttempts
  {
    LoginBudget(users, lines, MaxAttempts);
    assert Countdown(MaxAttempts) == [2, 1];
  }

  /**
   * A login succeeds only with a username that is a key of the store and
   * the exact password stored for it, read as the last two lines.
   */
  lemma {:induction false} LoginSucceedsOnlyOnMatch(users: Accounts.Store, lines: seq<string>, attempts: nat)
    ensures var r := LoginFrom(users, lines, attempts);
      r.outcome.LoggedIn? ==>
        && 2 <= r.consumed <= |lines|
        && r.outcome.username == Strip(lines[r.consumed - 2])
        && Authentic(users, r.outcome.username, lines[r.consumed - 1])
  {
    if attempts > 0 && |lines| >= 2 && !IsQuit(Strip(lines[0])) && !Authentic(users, Strip(lines[0]), lines[1]) {
      var tail := LoginFrom(users, lines[2..], attempts - 1);
      LoginSucceedsOnlyOnMatch(users, lines[2..], attempts - 1);
      if tail.outcome.LoggedIn? {
        assert lines[2..][tail.consumed - 2] == lines[tail.consumed];
        assert lines[2..][tail.consumed - 1] == lines[tail.consumed + 1];
      }
    }
  }

  /**
   * On any attempt, the pair entered logs in at once if and only if the
   * username is a key of the store and the stored password equals the entered one.
   */
  lemma LoginAttemptIff(users: Accounts.Store, lines: seq<string>, attempts: nat)
    requires attempts > 0 && |lines| >= 2 && !IsQuit(Strip(lines[0]))
    ensures var r := LoginFrom(users, lines, attempts);
      (r.outcome.LoggedIn? && r.consumed == 2) <==> Authentic(users, Strip(lines[0]), lines[1])
  {
    if !Authentic(users, Strip(lines[0]), lines[1]) {
      LoginSucceedsOnlyOnMatch(users, lines[2..], attempts - 1);
    }
  }

  /** Three failed attempts in a row: `login` gives up and returns None. */
  lemma {:induction false} FailuresExhaustBudget(users: Accounts.Store, lines: seq<string>, attempts: nat)
    requires |lines| >= 2 * attempts
    requires forall k | 0 <= k < attempts ::
      !IsQuit(Strip(lines[2 * k])) && !Authentic(users, Strip(lines[2 * k]), lines[2 * k + 1])
    ensures LoginFrom(users, lines, attempts) == LoginRun(TooManyAttempts, 2 * attempts, Countdown(attempts))
  {
    if attempts > 0 {
      assert !IsQuit(Strip(lines[2 * 0])) && !Authentic(users, Strip(lines[2 * 0]), lines[2 * 0 + 1]);
      forall k | 0 <= k < attempts - 1
        ensures !IsQuit(Strip(lines[2..][2 * k])) && !Authentic(users, Strip(lines[2..][2 * k]), lines[2..][2 * k + 1])
      {
        assert lines[2..][2 * k] == lines[2 * (k + 1)];
        assert lines[2..][2 * k + 1] == lines[2 * (k + 1) + 1];
      }
      FailuresExhaustBudget(users, lines[2..], attempts - 1);
    }
  }

  lemma ThreeFailuresReturnNone(users: Accounts.Store, lines: seq<string>)
    requires |lines| >= 6
    requires forall k | 0 <= k < 3 ::
      !IsQuit(Strip(lines[2 * k])) && !Authentic(users, Strip(lines[2 * k]), lines[2 * k + 1])
    ensures var r := LoginFrom(users, lines, MaxAttempts);
      r == LoginRun(TooManyAttempts, 6, [2, 1]) && Returned(r.outcome) == None
  {
    FailuresExhaustBudget(users, lines, MaxAttempts);
  }

  /**
   * No username enumeration: an unknown username and a known username with
   * a wrong password (indeed any two failing pairs) lead to the same run.
   */
  lemma FailedPairsIndistinguishable(users: Accounts.Store, a: string, p: string, b: string, q: string,
                                     rest: seq<string>, attempts: nat)
    requires attempts > 0
    requires !IsQuit(Strip(a)) && !Authentic(users, Strip(a), p)
    requires !IsQuit(Strip(b)) && !Authentic(users, Strip(b), q)
    ensures LoginFrom(users, [a, p] + rest, attempts) == LoginFrom(users, [b, q] + rest, attempts)
  {
    assert ([a, p] + rest)[2..] == rest;
    assert ([b, q] + rest)[2..] == rest;
  }

  /** The quit sentinel returns None without spending an attempt, whatever the budget left. */
  lemma QuitSpendsNoAttempt(users: Accounts.Store, line: string, rest: seq<string>, attempts: nat)
    requires attempts > 0 && IsQuit(Strip(line))
    ensures LoginFrom(users, [line] + rest, attempts) == LoginRun(Quit, 1, [])
    ensures Returned(Quit) == None
  {
  }
}

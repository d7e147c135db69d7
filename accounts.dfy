/**
 * Sign-up: the username and password prompts of `signup` and the single
 * insertion into the in-memory username -> password store.
 *
 * The console is a sequence of lines; every `input`/`getpass` call consumes
 * the next one. `SignupFrom` is the specification of one call of `signup`,
 * `Signup` is the method with the source's two nested loops, proved equal to it.
 */
module Accounts {
  import opened Wrappers
  import opened Text

  /** The user database: username -> password, stored verbatim. */
  type Store = map<string, string>

  const MinUsernameLength: nat := 3
  const MinPasswordLength: nat := 6

  /** A username the sign-up rules admit: long enough and letters and digits only. */
  predicate ValidUsername(name: string) {
    |name| >= MinUsernameLength && IsAlnum(name)
  }

  predicate ValidPassword(password: string) {
    |password| >= MinPasswordLength
  }

  /** Every account in the store obeys the sign-up rules. */
  predicate ValidStore(users: Store) {
    forall name | name in users :: ValidUsername(name) && ValidPassword(users[name])
  }

  /** The message shown before a prompt is repeated. */
  datatype Notice =
    | DuplicateUsername        // "Username already exists!"
    | UsernameTooShort         // "Username must be at least 3 characters long!"
    | UsernameNotAlphanumeric  // "Username must contain only letters and numbers!"
    | PasswordTooShort         // "Password must be at least 6 characters long!"
    | PasswordMismatch         // "Passwords do not match!"

  /** The username rules after the quit test, in the source's order; `None` when all pass. */
  function CheckUsername(users: Store, name: string): (r: Option<Notice>)
    ensures r == None <==> name !in users && ValidUsername(name)
    ensures r == Some(DuplicateUsername) <==> name in users
    ensures r == Some(UsernameTooShort) <==> name !in users && |name| < MinUsernameLength
    ensures r == Some(UsernameNotAlphanumeric) <==> name !in users && |name| >= MinUsernameLength && !IsAlnum(name)
    ensures r != Some(PasswordTooShort) && r != Some(PasswordMismatch)
  {
    if name in users then Some(DuplicateUsername)
    else if |name| < MinUsernameLength then Some(UsernameTooShort)
    else if !IsAlnum(name) then Some(UsernameNotAlphanumeric)
    else None
  }

  /**
   * Python truthiness of what `save_users` hands back. `Option<bool>` is the
   * type of what a caller of it could receive: `None`, or a boolean had the
   * function returned one. It never does.
   */
  predicate Truthy(v: Option<bool>) {
    v == Some(true)
  }

  /**
   * `save_users`: writes the store, or prints the I/O error when the write
   * fails. It has no `return` statement, so on both paths the caller gets `None`.
   */
  function SaveUsers(users: Store, writeSucceeds: bool): (r: Option<bool>)
    ensures !Truthy(r)
  {
    if writeSucceeds then
      None  // the `with open(...)` path: the dump succeeds and control falls off the end
    else
      None  // the `except IOError` path: the error is printed and control falls off the end
  }

  datatype SignupOutcome =
    | Cancelled   // the quit sentinel at the username prompt
    | AccountAdded(username: string, password: string, reportedCreated: bool)
    | InputExhausted

  /** One call of `signup`: how it ended, the store afterwards, lines read, notices shown. */
  datatype SignupRun = SignupRun(outcome: SignupOutcome, users: Store, consumed: nat, notices: seq<Notice>)

  /** `r`, seen from a point `n` lines and `ns` notices earlier. */
  function After(n: nat, ns: seq<Notice>, r: SignupRun): SignupRun {
    r.(consumed := n + r.consumed, notices := ns + r.notices)
  }

  lemma AfterAfter(n: nat, ns: seq<Notice>, m: nat, ms: seq<Notice>, r: SignupRun)
    ensures After(n, ns, After(m, ms, r)) == After(n + m, ns + ms, r)
  {
    assert ns + (ms + r.notices) == (ns + ms) + r.notices;
  }

  /** The outer loop: read a username, re-prompt on the first failing rule. */
  function SignupFrom(users: Store, lines: seq<string>, writeSucceeds: bool): SignupRun
    decreases |lines|
  {
    if lines == [] then SignupRun(InputExhausted, users, 0, [])
    else
      var name := Strip(lines[0]);
      if IsQuit(name) then SignupRun(Cancelled, users, 1, [])
      else match CheckUsername(users, name)
        case Some(notice) => After(1, [notice], SignupFrom(users, lines[1..], writeSucceeds))
        case None => After(1, [], PasswordFrom(users, name, lines[1..], writeSucceeds))
  }

  /** The inner loop for an accepted `name`: password, then confirmation, then the insert. */
  function PasswordFrom(users: Store, name: string, lines: seq<string>, writeSucceeds: bool): SignupRun
    decreases |lines|
  {
    if lines == [] then SignupRun(InputExhausted, users, 0, [])
    else if |lines[0]| < MinPasswordLength then
      After(1, [PasswordTooShort], PasswordFrom(users, name, lines[1..], writeSucceeds))
    else if |lines| == 1 then SignupRun(InputExhausted, users, 1, [])
    else if lines[0] != lines[1] then
      After(2, [PasswordMismatch], PasswordFrom(users, name, lines[2..], writeSucceeds))
    else
      var updated := users[name := lines[0]];
      SignupRun(AccountAdded(name, lines[0], Truthy(SaveUsers(updated, writeSucceeds))), updated, 2, [])
  }

  /** The outer loop on the quit sentinel. */
  lemma SignupStepQuit(users: Store, lines: seq<string>, writeSucceeds: bool)
    requires lines != [] && IsQuit(Strip(lines[0]))
    ensures SignupFrom(users, lines, writeSucceeds) == SignupRun(Cancelled, users, 1, [])
  {
  }

  /** One turn of the outer loop on a username that fails a rule. */
  lemma SignupStepRejected(users: Store, lines: seq<string>, writeSucceeds: bool, notice: Notice)
    requires lines != [] && !IsQuit(Strip(lines[0])) && CheckUsername(users, Strip(lines[0])) == Some(notice)
    ensures SignupFrom(users, lines, writeSucceeds) == After(1, [notice], SignupFrom(users, lines[1..], writeSucceeds))
  {
  }

  /** One turn of the outer loop on a username that passes every rule. */
  lemma SignupStepAccepted(users: Store, lines: seq<string>, writeSucceeds: bool)
    requires lines != [] && !IsQuit(Strip(lines[0])) && CheckUsername(users, Strip(lines[0])) == None
    ensures SignupFrom(users, lines, writeSucceeds) == After(1, [], PasswordFrom(users, Strip(lines[0]), lines[1..], writeSucceeds))
  {
  }

  /** The inner loop once a password of the right length is confirmed: the insert. */
  lemma PasswordStepAdded(users: Store, name: string, lines: seq<string>, writeSucceeds: bool)
    requires |lines| >= 2 && |lines[0]| >= MinPasswordLength && lines[0] == lines[1]
    ensures PasswordFrom(users, name, lines, writeSucceeds)
         == SignupRun(AccountAdded(name, lines[0], false), users[name := lines[0]], 2, [])
  {
  }

  /** A password shorter than six characters is refused after one line, with its own notice. */
  lemma PasswordRejectedShort(users: Store, name: string, line: string, rest: seq<string>, writeSucceeds: bool)
    requires |line| < MinPasswordLength
    ensures PasswordFrom(users, name, [line] + rest, writeSucceeds)
         == After(1, [PasswordTooShort], PasswordFrom(users, name, rest, writeSucceeds))
  {
    assert ([line] + rest)[1..] == rest;
  }

  /** A long enough password whose confirmation differs is refused after two lines, with its own notice. */
  lemma PasswordRejectedMismatch(users: Store, name: string, password: string, confirmation: string,
                                 rest: seq<string>, writeSucceeds: bool)
    requires |password| >= MinPasswordLength && password != confirmation
    ensures PasswordFrom(users, name, [password, confirmation] + rest, writeSucceeds)
         == After(2, [PasswordMismatch], PasswordFrom(users, name, rest, writeSucceeds))
  {
    assert ([password, confirmation] + rest)[2..] == rest;
  }

  /**
   * The rest of `signup` once `username` has passed every rule: the password
   * loop, the insert, the save and the report. It reads `lines` from `start` on
   * and `consumed` counts the lines it read.
   */
  method FinishSignup(users: Store, username: string, lines: seq<string>, start: nat, writeSucceeds: bool)
    returns (outcome: SignupOutcome, store: Store, consumed: nat, notices: seq<Notice>)
    requires start <= |lines|
    ensures SignupRun(outcome, store, consumed, notices) == PasswordFrom(users, username, lines[start..], writeSucceeds)
  {
    notices := [];
    var i := start;
    var password := "";
    while true
      invariant start <= i <= |lines|
      invariant After(i - start, notices, PasswordFrom(users, username, lines[i..], writeSucceeds))
             == PasswordFrom(users, username, lines[start..], writeSucceeds)
      decreases |lines| - i
    {
      if i == |lines| {
        assert notices + [] == notices;
        return InputExhausted, users, i - start, notices;
      }
      password := lines[i];
      ghost var rest := lines[i..];
      assert rest[1..] == lines[i + 1..];
      i := i + 1;
      if |password| < MinPasswordLength {
        AfterAfter(i - 1 - start, notices, 1, [PasswordTooShort], PasswordFrom(users, username, lines[i..], writeSucceeds));
        notices := notices + [PasswordTooShort];
        continue;
      }
      if i == |lines| {
        assert notices + [] == notices;
        return InputExhausted, users, i - start, notices;
      }
      var confirm := lines[i];
      assert rest[2..] == lines[i + 1..];
      i := i + 1;
      if password != confirm {
        AfterAfter(i - 2 - start, notices, 2, [PasswordMismatch], PasswordFrom(users, username, lines[i..], writeSucceeds));
        notices := notices + [PasswordMismatch];
        continue;
      }
      PasswordStepAdded(users, username, rest, writeSucceeds);
      break;
    }

    assert notices + [] == notices;
    store := users;
    store := store[username := password];
    var saved := SaveUsers(store, writeSucceeds);
    if Truthy(saved) {
      outcome := AccountAdded(username, password, true);   // "Account created successfully!"
    } else {
      outcome := AccountAdded(username, password, false);  // "Error creating account."
    }
    consumed := i - start;
  }

  /**
   * `signup` on the loaded store `users`, reading from `lines`; `writeSucceeds`
   * says whether the file write inside `save_users` goes through.
   */
  method Signup(users: Store, lines: seq<string>, writeSucceeds: bool)
    returns (outcome: SignupOutcome, store: Store, consumed: nat, notices: seq<Notice>)
    ensures SignupRun(outcome, store, consumed, notices) == SignupFrom(users, lines, writeSucceeds)
  {
    notices := [];
    var i := 0;
    while i < |lines|
      invariant i <= |lines|
      invariant After(i, notices, SignupFrom(users, lines[i..], writeSucceeds)) == SignupFrom(users, lines, writeSucceeds)
      decreases |lines| - i
    {
      var username := Strip(lines[i]);
      ghost var tail := lines[i..];
      assert tail[1..] == lines[i + 1..];
      i := i + 1;
      if IsQuit(username) {
        SignupStepQuit(users, tail, writeSucceeds);
        assert notices + [] == notices;
        return Cancelled, users, i, notices;
      }
      // the duplicate, length and letters-and-digits rules, in that order
      var rejection := CheckUsername(users, username);
      if rejection.Some? {
        SignupStepRejected(users, tail, writeSucceeds, rejection.value);
        AfterAfter(i - 1, notices, 1, [rejection.value], SignupFrom(users, lines[i..], writeSucceeds));
        notices := notices + [rejection.value];
        continue;
      }
      SignupStepAccepted(users, tail, writeSucceeds);
      var more: seq<Notice>;
      outcome, store, consumed, more := FinishSignup(users, username, lines, i, writeSucceeds);
      AfterAfter(i - 1, notices, 1, [], PasswordFrom(users, username, lines[i..], writeSucceeds));
      assert notices + [] == notices;
      return outcome, store, i + consumed, notices + more;
    }
    assert notices + [] == notices;
    return InputExhausted, users, i, notices;
  }

  /** What the inner loop does to the store: nothing, or one insertion of a fresh valid account. */
  lemma {:induction false} PasswordEffect(users: Store, name: string, lines: seq<string>, writeSucceeds: bool)
    requires name !in users && ValidUsername(name)
    ensures var r := PasswordFrom(users, name, lines, writeSucceeds);
      && r.consumed <= |lines|
      && (r.outcome.AccountAdded? ==>
            && r.outcome.username == name && ValidPassword(r.outcome.password)
            && r.users == users[name := r.outcome.password]
            && !r.outcome.reportedCreated
            && 2 <= r.consumed && lines[r.consumed - 2] == lines[r.consumed - 1] == r.outcome.password)
      && (!r.outcome.AccountAdded? ==> r.users == users && r.outcome.InputExhausted?)
  {
    if lines == [] {
    } else if |lines[0]| < MinPasswordLength {
      PasswordEffect(users, name, lines[1..], writeSucceeds);
    } else if |lines| == 1 {
    } else if lines[0] != lines[1] {
      PasswordEffect(users, name, lines[2..], writeSucceeds);
    }
  }

  /**
   * A call of `signup` either leaves the store alone or adds exactly one
   * entry, for a username that is one of the lines read, stripped, was absent
   * and obeys the username rules, with a password of at least six characters that was typed twice in a row.
   */
  lemma {:induction false} SignupEffect(users: Store, lines: seq<string>, writeSucceeds: bool)
    ensures var r := SignupFrom(users, lines, writeSucceeds);
      && r.consumed <= |lines|
      && (r.outcome.AccountAdded? ==>
            && r.outcome.username !in users
            && (exists j :: 0 <= j < r.consumed - 2 && r.outcome.username == Strip(lines[j]))
            && ValidUsername(r.outcome.username) && ValidPassword(r.outcome.password)
            && r.users == users[r.outcome.username := r.outcome.password]
            && 2 <= r.consumed && lines[r.consumed - 2] == lines[r.consumed - 1] == r.outcome.password)
      && (!r.outcome.AccountAdded? ==> r.users == users)
  {
    if lines != [] {
      var name := Strip(lines[0]);
      if !IsQuit(name) {
        match CheckUsername(users, name)
        case Some(n) =>
          var r' := SignupFrom(users, lines[1..], writeSucceeds);
          SignupEffect(users, lines[1..], writeSucceeds);
          assert SignupFrom(users, lines, writeSucceeds) == After(1, [n], r');
          if r'.outcome.AccountAdded? {
            assert lines[1..][r'.consumed - 2] == lines[r'.consumed - 1];
            assert lines[1..][r'.consumed - 1] == lines[r'.consumed];
            var j :| 0 <= j < r'.consumed - 2 && r'.outcome.username == Strip(lines[1..][j]);
            assert lines[1..][j] == lines[j + 1];
          }
        case None =>
          var r' := PasswordFrom(users, name, lines[1..], writeSucceeds);
          PasswordEffect(users, name, lines[1..], writeSucceeds);
          assert SignupFrom(users, lines, writeSucceeds) == After(1, [], r');
          if r'.outcome.AccountAdded? {
            assert lines[1..][r'.consumed - 2] == lines[r'.consumed - 1];
            assert lines[1..][r'.consumed - 1] == lines[r'.consumed];
            assert r'.outcome.username == Strip(lines[0]);
          }
      }
    }
  }

  /** Every account stored before a sign-up is still there with the same password. */
  lemma SignupNeverOverwrites(users: Store, lines: seq<string>, writeSucceeds: bool)
    ensures forall name | name in users ::
      name in SignupFrom(users, lines, writeSucceeds).users
      && SignupFrom(users, lines, writeSucceeds).users[name] == users[name]
  {
    SignupEffect(users, lines, writeSucceeds);
  }

  /** Sign-up keeps the store invariant. */
  lemma SignupPreservesValidStore(users: Store, lines: seq<string>, writeSucceeds: bool)
    requires ValidStore(users)
    ensures ValidStore(SignupFrom(users, lines, writeSucceeds).users)
  {
    SignupEffect(users, lines, writeSucceeds);
  }

  /**
   * Because `save_users` returns `None`, `signup` never reports success:
   * every added account is followed by "Error creating account", whether or
   * not the file was written.
   */
  lemma {:induction false} SignupNeverReportsCreated(users: Store, lines: seq<string>, writeSucceeds: bool)
    ensures var r := SignupFrom(users, lines, writeSucceeds);
      r.outcome.AccountAdded? ==> !r.outcome.reportedCreated
  {
    if lines != [] {
      var name := Strip(lines[0]);
      if !IsQuit(name) {
        match CheckUsername(users, name)
        case Some(_) =>
          SignupNeverReportsCreated(users, lines[1..], writeSucceeds);
        case None =>
          PasswordEffect(users, name, lines[1..], writeSucceeds);
      }
    }
  }

  /**
   * A username line that fails a rule is answered by the notice of the first
   * failing rule and a fresh username prompt, with the store untouched.
   */
  lemma RejectedUsername(users: Store, line: string, rest: seq<string>, writeSucceeds: bool)
    requires !IsQuit(Strip(line)) && CheckUsername(users, Strip(line)).Some?
    ensures SignupFrom(users, [line] + rest, writeSucceeds)
         == After(1, [CheckUsername(users, Strip(line)).value], SignupFrom(users, rest, writeSucceeds))
  {
    assert ([line] + rest)[1..] == rest;
  }

  /** The quit sentinel ends sign-up at once, before any rule is checked. */
  lemma QuitLeavesStore(users: Store, line: string, rest: seq<string>, writeSucceeds: bool)
    requires IsQuit(Strip(line))
    ensures SignupFrom(users, [line] + rest, writeSucceeds) == SignupRun(Cancelled, users, 1, [])
  {
  }
}

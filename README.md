# Currency converter with account gate — Dafny model

This project models the decision logic of a terminal currency converter
(`convert.py`). A user signs up or logs in against a username → password
store, then converts amounts between ten currencies through a fixed table of
rates relative to the US dollar.

Three pieces are modelled:

- **Sign-up** (`Accounts`). The username prompt checks the rules in a fixed order:
  1. the quit sentinel `q`, tested after stripping and case-insensitively;
  2. the username is already taken;
  3. it has fewer than 3 characters;
  4. it is not letters and digits only.

  The password prompt then wants at least 6 characters and an identical confirmation. On success the account is inserted into the in-memory map, and `save_users` is called.
- **Login** (`Login`): a budget of 3 attempts. An attempt succeeds only when the username is a key of the store and the stored password is equal to the one entered. Each failure costs one attempt. The quit sentinel costs none.
- **Conversion** (`Conversion`): the shipped rate table, `convert_currency` (to dollars, then to the target) and the "popular conversions" fan-out over USD, EUR, GBP.

The console is modelled as a sequence of input lines. Every `input`/`getpass`
call consumes the next line. Each prompt loop has two forms. One is a
specification function over the lines (`SignupFrom`, `PasswordFrom`,
`LoginFrom`, `FanOut`). The other is a method with the source's loop
(`Signup`, `FinishSignup`, `Login`, `PopularConversions`), proved equal to that
function. The properties are lemmas about the specification functions.
`Text` models `str.strip()`, the `lower() == 'q'` test and `str.isalnum()`.

## Behaviour worth noting

- `save_users` (convert.py:216-222) has no `return` statement, so `if save_users(users)` in `signup` (convert.py:196-203) is always false. Every sign-up that inserts an account therefore ends with "Error creating account", whether or not the file was written.
- `convert_currency` (convert.py:46-56) answers `None` both for a code missing from the table and for a zero source rate; the caller cannot tell the two apart.
- `login` shows "N attempts remaining" only while N is positive (convert.py:243-245); no such message follows the third failure.

## Model

| member | source | states |
|---|---|---|
| Text.StripSpec | convert.py:162 | `strip()` keeps a contiguous piece of the line that starts and ends with a non-space, and drops only whitespace on either side |
| Text.StripIdempotent | convert.py:162 | stripping a stripped username changes nothing |
| Text.QuitAfterStrip | convert.py:162-164 | `q` or `Q` surrounded by any whitespace is recognised as the quit sentinel |
| Accounts.CheckUsername | convert.py:166-179 | the rules are checked in the source's order and the first failing one is named: "already exists" exactly for a taken name; "too short" exactly for an absent name under 3 characters; "letters and numbers only" exactly for an absent name of 3 or more characters that is not alphanumeric; no notice exactly when all pass |
| Accounts.SaveUsers | convert.py:216-222 | on both paths (write succeeded, I/O error caught) the value handed back is not truthy |
| Accounts.FinishSignup | convert.py:181-203 | the password loop, insert, save and report compute exactly `PasswordFrom` on the remaining lines |
| Accounts.Signup | convert.py:155-203 | the whole sign-up loop computes exactly `SignupFrom`: outcome, resulting store, lines read and notices shown |
| Accounts.PasswordEffect | convert.py:181-195 | the password stage either runs out of input with the store unchanged or inserts `name` with a password of at least 6 characters that equals the next line, its confirmation |
| Accounts.PasswordRejectedShort | convert.py:181-184 | a password under 6 characters gets the "at least 6 characters" notice after one line, and the password prompt repeats for the same username and store |
| Accounts.PasswordRejectedMismatch | convert.py:186-189 | a password of 6 or more characters followed by a different confirmation gets the "do not match" notice after two lines, and the password prompt repeats for the same username and store |
| Accounts.SignupEffect | convert.py:161-195 | a sign-up leaves the store unchanged unless it adds an account. Then it adds exactly one entry, username → password. The username is one of the lines read, stripped; it was absent and obeys the rules, and the password has at least 6 characters and equals its confirmation |
| Accounts.SignupNeverOverwrites | convert.py:166-169 | every account stored before a sign-up keeps its password afterwards |
| Accounts.SignupPreservesValidStore | convert.py:171-195 | if every stored account obeys the username and password rules, it still holds after a sign-up |
| Accounts.SignupNeverReportsCreated | convert.py:196-203 | a sign-up that adds an account never takes the "Account created successfully!" branch |
| Accounts.RejectedUsername | convert.py:166-179 | a username that fails a rule gets the notice of the first failing rule, and the prompt repeats with the store untouched |
| Accounts.QuitLeavesStore | convert.py:162-164 | the quit sentinel ends sign-up after one line, before any rule, with the store unchanged |
| Login.Returned | convert.py:234-250 | `login` returns a value exactly when the outcome is a successful login, and that value is the username |
| Login.LoginStepFailed | convert.py:238-245 | a failed pair costs one attempt. The message shows the new count if it is positive, and the next attempt reads two lines on |
| Login.Login | convert.py:224-250 | the `while attempts > 0` loop starting from 3 computes exactly `LoginFrom` |
| Login.LoginBudget | convert.py:230-250 | a run reads at most two lines per attempt. The counts it shows are a prefix of 2, 1. Giving up happens only after exactly two lines per attempt, with all of 2, 1 shown |
| Login.RemainingPositive | convert.py:243-245 | every count shown in "N attempts remaining" is between 1 and 2 |
| Login.LoginSucceedsOnlyOnMatch | convert.py:238-241 | a successful login returns the stripped username of the last pair read, which is a key of the store whose stored password equals the password read |
| Login.LoginAttemptIff | convert.py:238-243 | a pair logs in at once if and only if the username is in the store and the stored password equals the entered one |
| Login.FailuresExhaustBudget | convert.py:230-250 | as many failing pairs as attempts left exhaust the budget: "too many attempts" after two lines per attempt |
| Login.ThreeFailuresReturnNone | convert.py:230-250 | three failing pairs give "too many attempts" after 6 lines, having shown 2 and 1, and `login` returns None |
| Login.FailedPairsIndistinguishable | convert.py:238-245 | an unknown username and a wrong password (any two failing pairs) lead to identical runs |
| Login.QuitSpendsNoAttempt | convert.py:232-234 | the quit sentinel returns None after one line, whatever the remaining budget |
| Conversion.Convert | convert.py:46-56 | the result is None exactly when either code is missing or the source rate is zero |
| Conversion.ConvertKeepsValue | convert.py:50-52 | result × source rate = amount × target rate |
| Conversion.ConvertIdentity | convert.py:46-52 | converting a currency to itself returns the amount |
| Conversion.ConvertRoundTrip | convert.py:46-52 | with both rates non-zero, converting there and back returns the amount (exact over the reals) |
| Conversion.ConvertLinear | convert.py:46-52 | converting k × amount gives k times the conversion of amount |
| Conversion.ShippedRatesPositive | convert.py:9-21 | the table has exactly the ten codes, every rate is positive, and USD, EUR and GBP are in it |
| Conversion.ShippedExamples | convert.py:46-56 | 100 USD is 91 EUR, 100 EUR is 10000/91 USD, and a code missing from the table gives None |
| Conversion.PopularConversions | convert.py:101-106 | the `for curr in popular_currencies` loop computes exactly `FanOut` |
| Conversion.FanOutSound | convert.py:101-106 | every line shown is for a target other than the source, with the value `convert_currency` gives |
| Conversion.FanOutComplete | convert.py:101-106 | every target other than the source that converts is shown |
| Conversion.FanOutAllKnown | convert.py:101-106 | with all codes known, the fan-out is the target list without the source, in order, each priced by the two-step formula |
| Conversion.PopularShipped | convert.py:101-106 | with the shipped table, the popular list shows the other two or three of USD, EUR and GBP, in that order and priced |

## Left out

- `load_users` and the file and JSON side of `save_users` (convert.py:206-222): the store is a map passed in. Whether the file write succeeds is a parameter of `SaveUsers`, and only its missing return value is modelled.
- Accounts.Signup: the store it returns is the in-memory dictionary after the insert. In the source that dictionary is local to `signup` and discarded. What survives is the file written by `save_users`, which is not modelled.
- Accounts.FinishSignup: the source's inner `while True` password loop is nested inside the username loop. The model makes it a separate method called from the outer loop, with the same reads and branches.
- Terminal effects: screen clearing, `print_slow`, `time.sleep` and message texts. The notices and "attempts remaining" counts stand for the messages.
- Running out of input: the source's `input`/`getpass` would raise `EOFError`, which nothing catches. The model ends the run with `InputExhausted` instead.
- `main`, `authenticated_menu`, the settings and help stubs, and the `KeyboardInterrupt` handler.
- The rest of `currency_converter`'s prompt loop: upper-casing of codes, the `Q` sentinel, table membership, `float` parsing with its `ValueError`, and the negative-amount check. Only the fan-out loop and `convert_currency` are modelled.
- `format_currency` and the `display_currencies` grid: presentation only.
- Floating point: rates and amounts are reals. Conversion.ConvertIdentity, Conversion.ConvertRoundTrip and Conversion.ConvertLinear hold exactly over the reals. Under IEEE rounding the source satisfies them only approximately.
- `str.isalnum()` (modelled by `Text.IsAlnum`) is approximated by ASCII letters and digits, so non-ASCII letters and digits that Python accepts are rejected by the model. `strip()` uses Python's full whitespace set.
- Conversion.PopularConversions: the loop takes its target list as a parameter. The source always passes USD, EUR, GBP (`PopularCurrencies`).

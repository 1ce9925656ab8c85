# Verified model of the testing curriculum's small cores

This repository teaches unit and integration testing with a handful of small
programs. This Dafny project models the ones with stateable behaviour and
proves properties of them:

- **Banking ledger** (`day-2/demos/banking-app/banking-api/server.js`).
  Two objects sit behind the Express routes: `users` (username to password)
  and `accounts` (username to `{ balance }`). Module `Ledger` turns
  `authenticateUser` and the `/register`, `/login`, `/balance` and
  `/transfer` handlers into pure functions. Each one maps the request fields
  and a `Ledger` value to a `Reply` and the ledger after it. A `Reply` is the
  status and message the handler sends. `Totals` sums the balances, so
  conservation of money can be stated.
- **In-memory user registry** (`userManager.js`). The code is the same in
  `day-2/demos/integration-testing-practice/userManager.js` and in the
  integration-testing template, lines 23-80. Module `Registry` models
  `registerUser`, `loginUser`, `getUserCount` and `clearUsers` over
  `_usersDb`. A thrown `Error` becomes `Js.Result.Throws`.
- **Registry with welcome email** (`day-2/demos/mocks-and-stubs/userManager.js`).
  Module `WelcomeRegistry` models it. The `sendWelcomeEmail(username)` call
  becomes a `WelcomeEmail` event appended to a trace of sent emails.
- **Helper functions** (`functions.js`). The code is the same in
  `day-1/exercises/unit-testing/Cal-and-Harry/functions.js` and in the
  unit-testing template, lines 27-68. Module `Helpers` models `add`,
  `isEven`, `capitalise` and `reverseString`. Their arguments are dynamically
  typed `Js.JsValue`s.
- **FizzBuzz** (`day-1/demos/tdd/fizzbuzz.js`), in module `FizzBuzz`.

Module `Js` holds the JavaScript behaviour these programs depend on:
- the truncating `%`;
- `String(n)` for integers, with its inverse;
- own-key truthiness of `obj[key]`;
- the keys every object literal inherits from `Object.prototype`.

Modelling choices:
- Numbers are exact reals. Integers are used where only integers make sense:
  the FizzBuzz input and string indices.
- A missing request field is the empty string. Both are falsy in JavaScript.
- `users[u]` is truthy when `u` is an own key with a non-empty password.
  `Ledger.Valid` and `Registry.WellFormed` are the invariants that every
  reachable state keeps. Under them, truthiness is just membership.

The transfer handler checks the sender's password before it checks for a
self-transfer (`server.js:294-300`). A self-transfer with a wrong password
therefore gets 401, not the self-transfer 400. `Ledger.TransferPrecedence`
states this order.

## Model

| member | source | states |
|---|---|---|
| `Js.Rem` | day-1/exercises/unit-testing/Cal-and-Harry/functions.js:26 | `x % y` with a positive divisor keeps the dividend's sign: the remainder lies in [0, y) for a non-negative dividend and in (-y, 0] for a negative one; for any non-zero divisor, `x - r` is a whole multiple of `y`, so the remainder is the one left by a whole quotient |
| `Js.IntRem` | day-1/demos/tdd/fizzbuzz.js:3-4 | `input % 3` and `input % 5` on integers: the result lies strictly between -b and b, follows the dividend's sign (the Euclidean remainder for a non-negative dividend, at most 0 for a negative one), and `a - r` is a multiple of b |
| `Js.IntRemZeroIffDivides` | day-1/demos/tdd/fizzbuzz.js:3-4 | `input % 3 === 0` (truncating remainder, `-0 === 0`) holds exactly when 3 divides the input, negatives included |
| `Js.DecimalString` | day-1/demos/tdd/fizzbuzz.js:8 | agrees with `String(n)` for n of absolute value at most 2^53, where JavaScript prints every digit exactly: the text is never empty, holds only digits after an optional leading minus sign, and has no leading zero and no "-0"; with `Js.DecimalRoundTrip` this fixes the text |
| `Js.DecimalRoundTrip` | day-1/demos/tdd/fizzbuzz.js:8 | `String(n)` loses nothing: parsing the text gives `n` back |
| `FizzBuzz.FizzBuzz` | day-1/demos/tdd/fizzbuzz.js:1-11 | the three sequential assignments give "FizzBuzz" when divisible by 3 and 5, "Fizz" by 3 only, "Buzz" by 5 only, and the number's decimal text otherwise |
| `FizzBuzz.FizzBuzzNonEmpty` | day-1/demos/tdd/fizzbuzz.js:2-10 | the output is never empty |
| `FizzBuzz.FizzBuzzCasesExclusive` | day-1/demos/tdd/fizzbuzz.js:3-8 | each word is produced exactly in its own divisibility case (both directions), so the four cases are disjoint and the output identifies the case; the number text parses back to the input |
| `FizzBuzz.FizzBuzzExamples` | day-1/demos/tdd/fizzbuzz.test.js:4-42 | 1 → "1", 2 → "2", 3 → "Fizz", 5 → "Buzz", 15 → "FizzBuzz" |
| `Helpers.Add` | day-1/exercises/unit-testing/Cal-and-Harry/functions.js:10-15 | returns exactly when both arguments are numbers, and then their sum; otherwise throws "Inputs must be numbers." |
| `Helpers.AddCommutes` | day-1/templates/unit-testing-template.js:27-32 | swapping the arguments changes neither the sum nor the error |
| `Helpers.IsEven` | day-1/exercises/unit-testing/Cal-and-Harry/functions.js:22-27 | returns exactly for numbers; any other value throws "Input must be a number." |
| `Helpers.RemTwoZeroIffEven` | day-1/exercises/unit-testing/Cal-and-Harry/functions.js:26 | `n % 2 === 0` with the truncating remainder holds exactly for even whole numbers, including 0 and negatives, and fails for fractions |
| `Helpers.IsEvenIffEvenInteger` | day-1/templates/unit-testing-template.js:39-44 | `isEven(n)` returns true exactly when `n` is an even whole number |
| `Helpers.UpperAscii` | day-1/exercises/unit-testing/Cal-and-Harry/functions.js:38 | `toUpperCase` on one ASCII character: lower-case letters shift by 32, everything else is kept, and no lower-case letter remains |
| `Helpers.Capitalise` | day-1/exercises/unit-testing/Cal-and-Harry/functions.js:34-39 | a non-string or "" gives ""; otherwise the length is kept, the first character is upper-cased and every later character is unchanged |
| `Helpers.CapitaliseIdempotent` | day-1/exercises/unit-testing/Cal-and-Harry/functions.js:38 | capitalising twice equals capitalising once |
| `Helpers.CapitaliseKeepsNonLowerStart` | day-1/templates/unit-testing-template.js:51-56 | a string already starting with a capital, a digit or a symbol comes back unchanged |
| `Helpers.Reverse` | day-1/exercises/unit-testing/Cal-and-Harry/functions.js:50 | `split('').reverse().join('')` keeps the length and puts character `|s|-1-i` at position `i` |
| `Helpers.ReverseString` | day-1/exercises/unit-testing/Cal-and-Harry/functions.js:46-51 | returns exactly for strings (the reversal); other values throw "Input must be a string." |
| `Helpers.ReverseInvolution` | day-1/exercises/unit-testing/Cal-and-Harry/functions.js:46-51 | reversing twice is the identity |
| `Helpers.ReverseStringInvolution` | day-1/templates/unit-testing-template.js:63-68 | `reverseString` of its own result returns the original string |
| `Registry.RegisterUser` | day-2/demos/integration-testing-practice/userManager.js:15-24 | throws exactly on an empty username or password; on any outcome but true the store is unchanged; on true exactly the new name is added with its password and every other entry is kept |
| `Registry.LoginUser` | day-2/demos/integration-testing-practice/userManager.js:32-37 | a successful login means the name is stored with exactly that password |
| `Registry.UserCount` | day-2/demos/integration-testing-practice/userManager.js:43-45 | `getUserCount()` is the number of own keys of the store, and 0 exactly when the store is empty |
| `Registry.ClearUsers` | day-2/demos/integration-testing-practice/userManager.js:51-55 | deleting the keys one at a time empties the store; the count is 0 and nobody can log in |
| `Registry.RegisterPreservesWellFormed` | day-2/demos/integration-testing-practice/userManager.js:15-24 | registration never stores an empty name or password |
| `Registry.RegisterEmptyThrows` | day-2/demos/integration-testing-practice/userManager.js:16-18 | empty credentials throw "Username and password cannot be empty." and the store and count are unchanged |
| `Registry.RegisterDuplicateRefused` | day-2/demos/integration-testing-practice/userManager.js:19-21 | a stored name returns false and the store and count are unchanged |
| `Registry.RegisterFreshAccepted` | day-2/demos/integration-testing-practice/userManager.js:22-23 | a new non-empty name returns true, the count grows by exactly one and that user can log in |
| `Registry.RegisterNeverOverwrites` | day-2/demos/integration-testing-practice/userManager.js:19-22 | every stored user keeps its password, whatever registration is attempted |
| `Registry.LoginExactMatch` | day-2/templates/integration-testing.js:49-54 | login succeeds exactly when the name is stored with exactly the given password |
| `Registry.LoginEmptyFails` | day-2/demos/integration-testing-practice/userManager.test.js:82-92 | an empty username or an empty password never logs in |
| `Registry.RegisterThenLogin` | day-2/demos/integration-testing-practice/userManager.test.js:97-109 | whenever registration returns true, login with the same credentials succeeds |
| `Registry.RegisterTestScenarios` | day-2/templates/integration-testing.js:99-126 | from a cleared store: a fresh registration gives true and count 1; a repeated one gives false and count 1; an empty username or password throws and the count stays 0 |
| `Registry.LoginTestScenarios` | day-2/templates/integration-testing.js:146-172 | with "validuser" stored: the right password logs in; a wrong password, an unknown name, an empty name or an empty password do not |
| `Registry.RegisterUserAsWritten` | day-2/templates/integration-testing.js:36-38 | with the prototype-aware lookup, behaviour equals `RegisterUser` for every name except the inherited ones, and those are refused as duplicates even on a store that lacks them |
| `Registry.InheritedNameRefusedAsWritten` | day-2/demos/integration-testing-practice/userManager.js:19-21 | as written, "constructor" on an empty store returns false; the intended registration accepts it and the count becomes 1 |
| `WelcomeRegistry.RegisterUserWithEmailAsWritten` | day-2/demos/mocks-and-stubs/userManager.js:13-24 | the source's lookup: same outcome and store as `Registry.RegisterUserAsWritten`, one `WelcomeEmail(username)` exactly on true, and equal to the intended version away from inherited names |
| `WelcomeRegistry.InheritedNameNotWelcomedAsWritten` | day-2/demos/mocks-and-stubs/userManager.js:17-22 | as written, "constructor" on an empty session returns false with no email, while the intended version sends one |
| `WelcomeRegistry.RegisterUserWithEmail` | day-2/demos/mocks-and-stubs/userManager.js:13-24 | same outcome and store as the plain registry; on true exactly one `WelcomeEmail(username)` is appended, after the user is stored; otherwise no email |
| `WelcomeRegistry.SuccessSendsOneEmail` | day-2/demos/mocks-and-stubs/userManager.test.js:29-44 | a successful registration adds exactly one email, addressed to that username |
| `WelcomeRegistry.DuplicateSendsNoEmail` | day-2/demos/mocks-and-stubs/userManager.js:17-19 | a duplicate returns false, sends no email and changes neither store nor count |
| `WelcomeRegistry.EmptyCredentialsSendNoEmail` | day-2/demos/mocks-and-stubs/userManager.js:14-16 | empty credentials throw, send no email and store nothing |
| `WelcomeRegistry.WelcomedUserLogsIn` | day-2/demos/mocks-and-stubs/userManager.js:26-31 | after a successful registration, login succeeds with exactly the registered password |
| `WelcomeRegistry.RegisterKeepsConsistent` | day-2/demos/mocks-and-stubs/userManager.js:20-22 | every registration keeps "the emailed names are exactly the stored names, one email each" |
| `WelcomeRegistry.ReplayConsistent` | day-2/demos/mocks-and-stubs/userManager.js:13-24 | any run of registrations from a consistent session ends consistent, so every emailed user is registered and emailed exactly once |
| `WelcomeRegistry.EmptySessionConsistent` | day-2/demos/mocks-and-stubs/userManager.js:37-41 | the state after `clearUsers` (and the tests' `mockClear`) is consistent |
| `WelcomeRegistry.EmailTestScenarios` | day-2/demos/mocks-and-stubs/userManager.test.js:29-67 | the three email tests: one email to "newuser", none for a duplicate, none for an empty username |
| `Ledger.Status` | day-2/demos/banking-app/banking-api/server.js:204-323 | every error reply is sent with a 4xx status and every success with a 2xx one; 201 is sent exactly for a registration |
| `Ledger.Message` | day-2/demos/banking-app/banking-api/server.js:204-312 | every error message is non-empty and ends with a full stop |
| `Ledger.MessagesDistinct` | day-2/demos/banking-app/banking-api/server.js:204-312 | two failures share a message only when they are the same failure, across all four handlers |
| `Ledger.Authenticate` | day-2/demos/banking-app/banking-api/server.js:185-187 | success means the user is stored with exactly that (non-empty) password |
| `Ledger.AuthenticateExact` | day-2/demos/banking-app/banking-api/server.js:185-187 | on a valid ledger, authentication holds exactly when the user is registered with exactly that password |
| `Ledger.Register` | day-2/demos/banking-app/banking-api/server.js:201-218 | 400 exactly on an empty field; any failure leaves both maps unchanged; 201 adds exactly `u ↦ p` to `users` and `u ↦ 1000` to `accounts` |
| `Ledger.RegisterTakenConflicts` | day-2/demos/banking-app/banking-api/server.js:208-210 | a registered name gets 409 and both maps stay unchanged, so its password and balance are never overwritten |
| `Ledger.RegisterCreates` | day-2/demos/banking-app/banking-api/server.js:212-217 | 201 happens exactly for a fresh name with non-empty fields; the ledger stays valid (same key sets); the new user authenticates; the total grows by 1000 |
| `Ledger.RegisterTwiceConflicts` | day-2/demos/banking-app/banking-api/server.js:208-213 | registering the same name again gives 409 and the account keeps its starting balance |
| `Ledger.Login` | day-2/demos/banking-app/banking-api/server.js:229-242 | 400 exactly on an empty field; 200 exactly when authentication succeeds; otherwise 401 |
| `Ledger.Balance` | day-2/demos/banking-app/banking-api/server.js:254-270 | a reported balance is the user's stored balance |
| `Ledger.BalancePrecedence` | day-2/demos/banking-app/banking-api/server.js:257-269 | 400, 401, 404 and 200 are each sent exactly when every earlier check passed and their own failed |
| `Ledger.BalanceFoundWhenValid` | day-2/demos/banking-app/banking-api/server.js:265-267 | on a valid ledger the 404 is unreachable and no reported balance is negative |
| `Ledger.Transfer` | day-2/demos/banking-app/banking-api/server.js:287-324 | `users` is never changed; every failure leaves the ledger unchanged; success implies every check passed, the sender is debited by the amount, the receiver is credited by it, and all other accounts are unchanged |
| `Ledger.TransferPrecedence` | day-2/demos/banking-app/banking-api/server.js:290-312 | the checks run in a fixed order: invalid details 400, authentication 401, self-transfer 400, sender 404, receiver 404, insufficient funds 400. Each is sent exactly when all earlier checks passed and it failed, and 200 exactly when all pass |
| `Ledger.SenderAlwaysFoundWhenValid` | day-2/demos/banking-app/banking-api/server.js:302-304 | on a valid ledger the "sender not found" reply is unreachable |
| `Ledger.TransferConservesTotal` | day-2/demos/banking-app/banking-api/server.js:314-316 | the sum of all balances is the same after any transfer |
| `Ledger.TransferPreservesValid` | day-2/demos/banking-app/banking-api/server.js:310-316 | a transfer keeps the ledger valid: same key sets, and no balance goes negative |
| `Ledger.TransferFailuresDistinguishable` | day-2/demos/banking-app/banking-api/server.js:290-312 | any two different transfer failures differ in status or message |
| `Ledger.Handle` | day-2/demos/banking-app/banking-api/server.js:201-324 | login and balance requests never change the ledger |
| `Ledger.HandleInvariant` | day-2/demos/banking-app/banking-api/server.js:201-324 | every request keeps the ledger valid, and the total changes only by the 1000 a successful registration adds |
| `Ledger.RunPreservesValid` | day-2/demos/banking-app/banking-api/server.js:12-14 | any sequence of requests from a valid ledger, including the empty one, ends valid |
| `Ledger.AliceAndBobScenario` | day-2/demos/banking-app/banking-api/server.js:287-324 | alice and bob start with 1000 each. Sending 300 leaves 700/1300. Sending 1500 is "insufficient funds" with nothing changed. bob's name with alice's password is a 401 |
| `Ledger.RegisterAsWritten` | day-2/demos/banking-app/banking-api/server.js:208 | with the prototype-aware lookup, behaviour equals `Register` for every non-inherited name, and inherited names get 409 even when absent |
| `Ledger.InheritedNameConflictsAsWritten` | day-2/demos/banking-app/banking-api/server.js:208-210 | as written, "constructor" gets 409 on an empty ledger; the intended handler creates it |
| `Ledger.TransferAsWritten` | day-2/demos/banking-app/banking-api/server.js:302-316 | with the prototype-aware lookups, behaviour equals `Transfer` whenever neither name is an inherited one |
| `Ledger.TransferToInheritedNameLosesMoney` | day-2/demos/banking-app/banking-api/server.js:306-316 | as written, alice's transfer of 300 to "constructor" returns 200, debits her and lowers the total by 300; the intended handler answers 404 |

## Findings

| source | as written | input that shows it | evidently intended | confidence | as-written member | corrected member |
|---|---|---|---|---|---|---|
| day-2/demos/integration-testing-practice/userManager.js:19-21 | `if (_usersDb[username])` reads inherited `Object.prototype` members, so a name like "constructor" or "toString" counts as already registered (the same code is in the template) | `registerUser("constructor", "pw")` on an empty store returns false | return true and store the user | high; not executed | `Registry.RegisterUserAsWritten` (witness: `Registry.InheritedNameRefusedAsWritten`) | `Registry.RegisterUser` (proved: `Registry.RegisterFreshAccepted`) |
| day-2/demos/mocks-and-stubs/userManager.js:17-22 | the same `if (_usersDb[username])` lookup decides whether `sendWelcomeEmail` is called, so an inherited name is refused and never welcomed | `registerUser("constructor", "pw")` on an empty store returns false and sends no email | return true, store the user and send one welcome email | high; not executed | `WelcomeRegistry.RegisterUserWithEmailAsWritten` (witness: `WelcomeRegistry.InheritedNameNotWelcomedAsWritten`) | `WelcomeRegistry.RegisterUserWithEmail` (proved: `WelcomeRegistry.SuccessSendsOneEmail`, `WelcomeRegistry.ReplayConsistent`) |
| day-2/demos/banking-app/banking-api/server.js:208-210 | `if (users[username])` sees inherited members, so such names get 409 "Username already exists." | POST /register `{username: "constructor", password: "pw"}` on an empty ledger gets 409 | 201 and a new account | high; not executed | `Ledger.RegisterAsWritten` (witness: `Ledger.InheritedNameConflictsAsWritten`) | `Ledger.Register` (proved: `Ledger.RegisterCreates`) |
| day-2/demos/banking-app/banking-api/server.js:306-316 | `if (!accounts[receiverUsername])` passes for an inherited name. The sender is then debited, and `+= amount` lands on a shared prototype member instead of an account | alice (balance 1000) sends 300 to "constructor": 200, alice has 700, and the ledger total drops by 300 | 404 "Receiver account not found." and no change | high; not executed | `Ledger.TransferAsWritten` (witness: `Ledger.TransferToInheritedNameLosesMoney`) | `Ledger.Transfer` (proved: `Ledger.TransferConservesTotal`, `Ledger.TransferPrecedence`) |

## Left out

- Express routing, `body-parser`, CORS, and the Ajv schemas with `validateRequestBody` / `validateAndSendResponse` (`server.js:16-142`) are HTTP and library glue. The routes shown do not install these validators. Only each handler's status, message and state change are modelled.
- `readDb`, `writeDb` and `startServer` (`server.js:150-182, 328-336`) are file I/O and JSON encoding, so the load/save round trip is not modelled. `Ledger.RunPreservesValid` starts from any valid ledger, the empty one included. On a read error other than "file not found" the server only logs and keeps empty state. A failed write after a mutation is only logged. Neither is modelled.
- JavaScript floating point: numbers are exact reals, and NaN and Infinity are not representable. In the ledger, NaN passes `amount <= 0`, Infinity is accepted, and repeated transfers can drift. `add(0.1, 0.2)` returns 0.30000000000000004 in JavaScript and exactly 0.3 in the model. `isEven(NaN)` and `isEven(Infinity)` return false in JavaScript, and the model has no such inputs.
- `Js.DecimalString`: agrees with `String(n)` only for absolute values at most 2^53 (`Number.MAX_SAFE_INTEGER` is 2^53 - 1). Above 2^53 not every integer is a JavaScript number, and JavaScript prints the shortest digits that read back to the same double, padded with zeros (`String(2**64)` is "18446744073709552000", while the model prints "18446744073709551616"). From 10^21 on it prints exponent form (`String(2**70)` is "1.1805916207174113e+21").
- `FizzBuzz.FizzBuzz`: for the same reason its fourth case matches JavaScript only for absolute values at most 2^53.
- A request field that is present but not a string, such as a number used as a key, is not modelled. Fields are strings, and "missing" is "".
- `__proto__` assignment semantics, and the mutation of the shared prototype object that the as-written transfer performs. `Ledger.TransferAsWritten` records only the effect on own entries.
- `Ledger.TransferAsWritten`: its contract says only that it agrees with `Transfer` away from inherited names. Its behaviour on inherited names is exhibited by `Ledger.TransferToInheritedNameLosesMoney`.
- Concurrency: the server runs on one event loop, and each handler changes the maps before its only `await`. A handler is therefore modelled as one atomic step.
- `sendWelcomeEmail`'s body only logs, and its return value is unused. The call is an abstract trace event, and the stubbed return value in the mocks test is not modelled.
- `userManager.component.test.js` expects `getUser` and `emailFailed`. No `userManager.js` shown implements them.
- Full Unicode: `capitalise` models ASCII upper-casing only. A non-ASCII first character is returned unchanged, while `toUpperCase` maps 'é' to 'É' and 'ß' to "SS". Strings are sequences of characters, not UTF-16 code units, so surrogate pairs in `charAt(0)` and `split('')` are not modelled.
- `fizzBuzz` on a non-integer or non-number input (for example `String(1.5)`) is not modelled. The input is an `int`.
- All React UI is left out: the banking frontend, the greeting form, and the buggy task list. `apiSchemas.js` is schema data and is left out too.

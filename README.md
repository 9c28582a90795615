# Nubank token session decision

A Dafny model of the token session logic of the Nubank step of ynab-sync-nubank
(`src/nubank/index.js`). Each run resolves the username and looks up its stored
login token in the `nubankTokens` collection of the local database. If the token's
`refresh_before` instant lies strictly before now, every record for that
username is removed. Then the stored token is either handed to the Nubank
client unchanged, or a password is asked for and exchanged for a new token.
A reply carrying `error` is thrown and nothing is written. Any other reply is
appended to the collection as `{ username, token }`. The two prompt validators
are modelled too: the username must be eleven digits and the password must not
be empty.

Files:
- `wrappers.dfy`: `Option`, standing for `undefined` from a lookup.
- `validation.dfy`: the username and password validators.
- `store.dfy`: tokens and records; `find` and `remove` of the collection as
  functions on `seq<Record>`; `push` as the method `TokenDb.Push`, which
  appends to the sequence; the `TokenDb` class whose methods mutate the
  collection; counting and uniqueness lemmas.
- `flow.dfy`: the expiry classification; `Acquire` and `Flow`, the
  specification functions of one run; the methods `RequestNewToken` and
  `ExecuteNubankFlow`, which run it step by step against a `TokenDb`.
- `laws.dfy`: the reuse, expiry, missing and failure laws, and the
  one-record-per-username invariant.

Modelling choices:
- "Now" is an integer parameter. `refresh_before` is an integer instant.
- The token exchange (`NuBank.getLoginToken`) is a total function parameter
  `(login, password) -> Issued(token) | Refused(reason)`.
- The password the prompt returns is an input.
- The trace of `Step`s records store writes and calls to collaborators:
  `LoginTokenSet` stands for `NuBank.setLoginToken`. This is what makes "no
  password is asked on reuse" and "the removal comes before the exchange"
  statable.
- The thrown `Error(token.error)` is the outcome `Failed(reason)`.

Two behaviours of the code worth noting:
- Expiry is `refresh_before < now`, so a token whose `refresh_before` equals now
  is reused, not refreshed (`SessionLaws.RefreshBeforeNowIsReused`).
- A new record is appended only when `find` found nothing or after `remove`
  deleted every match, and that alone keeps one record per username
  (`SessionLaws.FlowPreservesUniqueness`).

## Model

| member | source | states |
|---|---|---|
| `Validation.AllDigits` | src/nubank/index.js:14 | holds exactly when every character is in `[0-9]` |
| `Validation.ValidateUsername` | src/nubank/index.js:13-18 | accepts exactly the strings of length 11 made only of ASCII digits; every other answer gets the invalid-username message |
| `Validation.ValidatePassword` | src/nubank/index.js:28-33 | accepts exactly the non-empty answers; the empty answer gets the missing-password message |
| `TokenStore.FindFirst` | src/nubank/index.js:67-69 | absent exactly when no record has the username; otherwise a record with that username at a position with no earlier match |
| `TokenStore.RemoveAll` | src/nubank/index.js:73-75 | no record of the username survives, and the result is no longer than the input |
| `TokenStore.RemoveAllMembers` | src/nubank/index.js:73-75 | a record survives exactly when it was stored and belongs to another username |
| `TokenStore.RemoveAllConcat` | src/nubank/index.js:73-75 | removal distributes over concatenation, so survivors keep their relative order |
| `TokenStore.RemoveAllAbsent` | src/nubank/index.js:73-75 | removing a username that has no records leaves the store unchanged |
| `TokenStore.RemoveAllIdempotent` | src/nubank/index.js:73-75 | removing twice is the same as removing once |
| `TokenStore.CountForRemoveAll` | src/nubank/index.js:73-75 | after removal the username has no records and every other username's count is unchanged |
| `TokenStore.UniqueIffCounts` | src/nubank/index.js:67-85 | "no two records share a username" is equivalent to "every username counts at most once" |
| `TokenStore.TokenDb.Remove` | src/nubank/index.js:73-75 | the collection becomes its old value with every record of the username removed; none remain |
| `TokenStore.TokenDb.Push` | src/nubank/index.js:46-48 | the collection becomes its old value with the record appended; that username's count grows by one |
| `NubankFlow.ResolveUsername` | src/nubank/index.js:62-65 | a non-empty username from the action is kept; an absent or empty one is replaced by the prompted one, which is non-empty once validated |
| `NubankFlow.Classify` | src/nubank/index.js:67-72 | missing exactly when no record has the username; otherwise the first match, expired exactly when `refresh_before < now` and usable exactly when `now <= refresh_before` |
| `NubankFlow.RequestNewToken` | src/nubank/index.js:38-49 | an error reply fails with its reason and leaves the collection unchanged; a token is appended as `{ username, token }` and returned; outcome, steps and new store agree with `Acquire` |
| `NubankFlow.ExecuteNubankFlow` | src/nubank/index.js:61-86 | the resolved username, the outcome, the steps and the new collection are those of `Flow` on the old collection |
| `SessionLaws.AcquireAppendsOnlyOnSuccess` | src/nubank/index.js:38-49 | the trace is exactly one password prompt, then one exchange, then an append only on success; on success exactly one record is appended at the end and all earlier ones are unchanged; on an error reply nothing is written |
| `SessionLaws.ReuseLaw` | src/nubank/index.js:80-83 | a found record with `now <= refresh_before` gives its token unchanged, no store write, no password prompt and no exchange |
| `SessionLaws.ReuseIgnoresCredentials` | src/nubank/index.js:80-83 | on the reuse path the run is the same whatever the password and the exchange |
| `SessionLaws.RefreshBeforeNowIsReused` | src/nubank/index.js:72 | a record whose `refresh_before` equals now is reused and the store is untouched |
| `SessionLaws.ExpiryLaw` | src/nubank/index.js:72-78 | an expired record makes the run remove the username's records first and then perform exactly the steps of acquiring on the reduced store, with one exchange; the store ends as the other users' records, plus the new record on success |
| `SessionLaws.MissingLaw` | src/nubank/index.js:84-85 | with no record the run exchanges exactly once; success appends after all existing records; an error reply leaves the store unchanged |
| `SessionLaws.FailureLaw` | src/nubank/index.js:42-44 | the run fails exactly when the record was missing or expired and the exchange refused; it reports that reason and leaves no record for the username and the others in order |
| `SessionLaws.SuccessLaw` | src/nubank/index.js:46-48 | an acquired token is the exchange's token, stored as the last record and the only one for its username |
| `SessionLaws.OtherUsersUntouched` | src/nubank/index.js:67-85 | whatever the path, the records of other usernames are kept, in their original order |
| `SessionLaws.OtherCountsUnchanged` | src/nubank/index.js:67-85 | every other username has as many records after the run as before |
| `SessionLaws.FlowPreservesUniqueness` | src/nubank/index.js:67-85 | a store with at most one record per username keeps that property across a run |
| `SessionLaws.AcquiredTokenIsReusedNext` | src/nubank/index.js:46-48 | a freshly stored token is what the next run finds and reuses while its `refresh_before` has not passed |
| `SessionLaws.EmptyStoreRefused` | src/nubank/index.js:42-44 | an empty store and an error reply: the run fails with that reason and the store stays empty |

## Left out
- The `inquirer` prompts (`askForNubankUsername`, `askForNubankPassword`): interactive input. The prompted username and password are inputs, and only the validators are modelled.
- `askForFilterTransactions`, `NuBank.getBillByMonth`, the `line_items` extraction and the returned action object: data fetching after the session decision.
- `NuBank.getLoginToken` and `NuBank.setLoginToken`: a network client with global state. The exchange is a function parameter, and setting the token is the `LoginTokenSet` step with the `Reused` outcome. On the acquire path the client keeps the token it returned itself; the model returns it as `Acquired`.
- The `chalk`/`console.log` message on reuse: output only.
- The `../db` module is not part of this model: `find` is taken to return the first match, `remove` to delete every match in place, `push` to append, and `.write()` to persist at once. Durability and the on-disk format are not modelled.
- `new Date(...)` parsing of `refresh_before`, including an invalid date that compares false: dates are integer instants.
- `RequestNewToken`: a reply whose `error` is the empty string is falsy in JavaScript and would be stored as a token; the exchange reply is modelled as an explicit success or error instead.
- A username carried by the action is used without validation, as in the code; only prompted usernames pass the validator.
- async/await sequencing: the flow is straight-line and single-threaded.

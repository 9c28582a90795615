/**
 * The token session decision of the Nubank flow: look up the stored token
 * for a username, drop it when its `refresh_before` instant lies strictly
 * before now, and then either hand the stored token to the client or ask
 * for a password, exchange it for a new token and append that token to the
 * store. A token exchange that reports an error ends the flow and writes
 * nothing.
 *
 * The password prompt and the Nubank client are collaborators: the password
 * is an input, and the exchange is a function from (login, password) to its
 * reply. `Flow` is the specification of one run; `ExecuteNubankFlow` runs
 * it step by step against the mutable `TokenDb`.
 */
module NubankFlow {
  import opened Wrappers
  import opened Validation
  import opened TokenStore

  /** The reply of `getLoginToken`: a token, or a token object carrying `error`. */
  datatype Exchange = Issued(token: Token) | Refused(reason: string)

  /** How a run ends: the stored token reused, a new token acquired, or the error thrown. */
  datatype Outcome = Reused(token: Token) | Acquired(token: Token) | Failed(reason: string)

  /** The observable steps of a run, in order: store writes and calls to collaborators. */
  datatype Step =
    | RemovedAll(username: string)
    | PasswordAsked(username: string)
    | CredentialsExchanged(username: string, password: string)
    | Appended(record: Record)
    | LoginTokenSet(token: Token)

  /** What the lookup found: nothing, an expired record, or a record still usable. */
  datatype Phase = Missing | Expired(record: Record) | Fresh(record: Record)

  /** The result of a run together with the store it leaves and the steps it took. */
  datatype Run = Run(outcome: Outcome, records: seq<Record>, trace: seq<Step>)

  /**
   * `if (!username) username = await askForNubankUsername()`: a username
   * carried by the action is used unless it is absent or empty; otherwise the
   * prompted one is.
   */
  function ResolveUsername(given: Option<string>, asked: string): (username: string)
    ensures given.Some? && given.value != "" ==> username == given.value
    ensures given.None? || given.value == "" ==> username == asked
    ensures ValidateUsername(asked) == Accepted ==> |username| > 0
  {
    if given.Some? && given.value != "" then given.value else asked
  }

  /** The number of token exchanges in a trace. */
  function ExchangeCount(trace: seq<Step>): (n: nat)
    ensures n <= |trace|
    ensures n == 0 <==> forall k :: 0 <= k < |trace| ==> !trace[k].CredentialsExchanged?
  {
    if trace == [] then 0
    else (if trace[0].CredentialsExchanged? then 1 else 0) + ExchangeCount(trace[1..])
  }

  /** The expiry test: a found record is expired exactly when `refresh_before < now`. */
  function Classify(records: seq<Record>, username: string, now: int): (p: Phase)
    ensures p.Missing? <==> forall i :: 0 <= i < |records| ==> records[i].username != username
    ensures !p.Missing? ==> FindFirst(records, username) == Some(p.record)
    ensures p.Expired? <==> !p.Missing? && p.record.token.refreshBefore < now
    ensures p.Fresh? <==> !p.Missing? && now <= p.record.token.refreshBefore
  {
    match FindFirst(records, username)
    case None => Missing
    case Some(record) => if record.token.refreshBefore < now then Expired(record) else Fresh(record)
  }

  /** `requestNewToken`: ask for the password, exchange it, and append the token unless it is an error. */
  function Acquire(records: seq<Record>, username: string, password: string,
                   exchange: (string, string) -> Exchange): Run
  {
    var asked := [PasswordAsked(username), CredentialsExchanged(username, password)];
    match exchange(username, password)
    case Refused(reason) => Run(Failed(reason), records, asked)
    case Issued(token) =>
      Run(Acquired(token), records + [Record(username, token)], asked + [Appended(Record(username, token))])
  }

  /** The session decision of `executeNubankFlow`, from lookup to the token handed to the client. */
  function Flow(records: seq<Record>, username: string, now: int, password: string,
                exchange: (string, string) -> Exchange): Run
  {
    match Classify(records, username, now)
    case Fresh(record) => Run(Reused(record.token), records, [LoginTokenSet(record.token)])
    case Missing => Acquire(records, username, password, exchange)
    case Expired(_) =>
      var run := Acquire(RemoveAll(records, username), username, password, exchange);
      Run(run.outcome, run.records, [RemovedAll(username)] + run.trace)
  }

  /** `requestNewToken` against the database. */
  method RequestNewToken(db: TokenDb, username: string, password: string,
                         exchange: (string, string) -> Exchange)
    returns (outcome: Outcome, trace: seq<Step>)
    modifies db
    ensures var run := Acquire(old(db.nubankTokens), username, password, exchange);
            outcome == run.outcome && trace == run.trace && db.nubankTokens == run.records
    ensures exchange(username, password).Refused? ==>
              outcome == Failed(exchange(username, password).reason) && db.nubankTokens == old(db.nubankTokens)
    ensures exchange(username, password).Issued? ==>
              outcome == Acquired(exchange(username, password).token)
              && db.nubankTokens == old(db.nubankTokens) + [Record(username, exchange(username, password).token)]
  {
    trace := [PasswordAsked(username)];
    var reply := exchange(username, password);
    trace := trace + [CredentialsExchanged(username, password)];
    match reply
    case Refused(reason) =>
      outcome := Failed(reason);
    case Issued(token) =>
      db.Push(Record(username, token));
      trace := trace + [Appended(Record(username, token))];
      outcome := Acquired(token);
  }

  /** The session part of `executeNubankFlow` against the database. */
  method ExecuteNubankFlow(db: TokenDb, given: Option<string>, asked: string, now: int, password: string,
                           exchange: (string, string) -> Exchange)
    returns (username: string, outcome: Outcome, trace: seq<Step>)
    modifies db
    ensures username == ResolveUsername(given, asked)
    ensures var run := Flow(old(db.nubankTokens), username, now, password, exchange);
            outcome == run.outcome && trace == run.trace && db.nubankTokens == run.records
  {
    username := ResolveUsername(given, asked);
    var record := FindFirst(db.nubankTokens, username);
    trace := [];
    if record.Some? && record.value.token.refreshBefore < now {
      db.Remove(username);
      trace := [RemovedAll(username)];
      record := None;
    }
    if record.Some? {
      outcome := Reused(record.value.token);
      trace := trace + [LoginTokenSet(record.value.token)];
    } else {
      var steps;
      outcome, steps := RequestNewToken(db, username, password, exchange);
      trace := trace + steps;
    }
  }
}

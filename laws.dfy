/**
 * Properties of one run of the session decision: what each path does to the
 * store and which collaborators it calls, and the invariant that a store with
 * at most one record per username keeps it.
 */
module SessionLaws {
  import opened Wrappers
  import opened TokenStore
  import opened NubankFlow

  /** `find` looks past a prefix that holds no record for the username. */
  lemma {:induction false} FindFirstPastAbsent(a: seq<Record>, b: seq<Record>, username: string)
    requires forall i :: 0 <= i < |a| ==> a[i].username != username
    ensures FindFirst(a + b, username) == FindFirst(b, username)
  {
    if a == [] {
      assert a + b == b;
    } else {
      assert (a + b)[1..] == a[1..] + b;
      FindFirstPastAbsent(a[1..], b, username);
    }
  }

  /** The exchange counter adds up over a concatenated trace. */
  lemma {:induction false} ExchangeCountConcat(a: seq<Step>, b: seq<Step>)
    ensures ExchangeCount(a + b) == ExchangeCount(a) + ExchangeCount(b)
  {
    if a == [] {
      assert a + b == b;
    } else {
      assert (a + b)[1..] == a[1..] + b;
      ExchangeCountConcat(a[1..], b);
    }
  }

  /**
   * Acquiring asks for the password once, exchanges it once, and on success
   * appends exactly one record at the end, leaving every earlier record in
   * place; an error reply writes nothing.
   */
  lemma AcquireAppendsOnlyOnSuccess(records: seq<Record>, username: string, password: string,
                                    exchange: (string, string) -> Exchange)
    ensures var run := Acquire(records, username, password, exchange);
            && ExchangeCount(run.trace) == 1
            && run.trace == [PasswordAsked(username), CredentialsExchanged(username, password)]
                            + (if exchange(username, password).Issued?
                               then [Appended(Record(username, exchange(username, password).token))]
                               else [])
            && (exchange(username, password).Refused? ==>
                  run.outcome == Failed(exchange(username, password).reason) && run.records == records)
            && (exchange(username, password).Issued? ==>
                  && run.outcome == Acquired(exchange(username, password).token)
                  && |run.records| == |records| + 1
                  && run.records[..|records|] == records
                  && run.records[|records|] == Record(username, exchange(username, password).token))
  {
  }

  /**
   * Reuse: a found record with `refresh_before` at or after now is handed to
   * the client unchanged, the store is not written, and neither the password
   * prompt nor the exchange is used.
   */
  lemma ReuseLaw(records: seq<Record>, username: string, now: int, password: string,
                 exchange: (string, string) -> Exchange, record: Record)
    requires FindFirst(records, username) == Some(record) && now <= record.token.refreshBefore
    ensures var run := Flow(records, username, now, password, exchange);
            && run.outcome == Reused(record.token)
            && run.records == records
            && run.trace == [LoginTokenSet(record.token)]
            && ExchangeCount(run.trace) == 0
            && forall k :: 0 <= k < |run.trace| ==> !run.trace[k].PasswordAsked?
  {
  }

  /** On the reuse path the run does not depend on the password or the exchange at all. */
  lemma ReuseIgnoresCredentials(records: seq<Record>, username: string, now: int,
                                password: string, exchange: (string, string) -> Exchange,
                                otherPassword: string, otherExchange: (string, string) -> Exchange)
    requires Classify(records, username, now).Fresh?
    ensures Flow(records, username, now, password, exchange) == Flow(records, username, now, otherPassword, otherExchange)
  {
  }

  /** The boundary instant: a token whose `refresh_before` equals now is reused, not refreshed. */
  lemma RefreshBeforeNowIsReused(records: seq<Record>, username: string, now: int, password: string,
                                 exchange: (string, string) -> Exchange, record: Record)
    requires FindFirst(records, username) == Some(record) && record.token.refreshBefore == now
    ensures Flow(records, username, now, password, exchange).outcome == Reused(record.token)
    ensures Flow(records, username, now, password, exchange).records == records
  {
  }

  /**
   * Expiry: a found record with `refresh_before` strictly before now makes the
   * run first remove every record of that username, then exchange credentials
   * exactly once; the store afterwards is the other users' records, in their
   * original order, followed by the new record when the exchange succeeded.
   */
  lemma ExpiryLaw(records: seq<Record>, username: string, now: int, password: string,
                  exchange: (string, string) -> Exchange, record: Record)
    requires FindFirst(records, username) == Some(record) && record.token.refreshBefore < now
    ensures var run := Flow(records, username, now, password, exchange);
            && run.trace[0] == RemovedAll(username)
            && ExchangeCount(run.trace) == 1
            && run.trace[1..] == Acquire(RemoveAll(records, username), username, password, exchange).trace
            && (exchange(username, password).Refused? ==>
                  run.outcome == Failed(exchange(username, password).reason)
                  && run.records == RemoveAll(records, username))
            && (exchange(username, password).Issued? ==>
                  run.outcome == Acquired(exchange(username, password).token)
                  && run.records == RemoveAll(records, username) + [Record(username, exchange(username, password).token)])
  {
    var rest := RemoveAll(records, username);
    var acquired := Acquire(rest, username, password, exchange);
    AcquireAppendsOnlyOnSuccess(rest, username, password, exchange);
    ExchangeCountConcat([RemovedAll(username)], acquired.trace);
  }

  /**
   * Missing: with no record for the username the run exchanges credentials
   * exactly once and, on success, appends the new record after all the
   * existing ones; an error reply leaves the store as it was.
   */
  lemma MissingLaw(records: seq<Record>, username: string, now: int, password: string,
                   exchange: (string, string) -> Exchange)
    requires FindFirst(records, username) == None
    ensures var run := Flow(records, username, now, password, exchange);
            && ExchangeCount(run.trace) == 1
            && (exchange(username, password).Refused? ==>
                  run.outcome == Failed(exchange(username, password).reason) && run.records == records)
            && (exchange(username, password).Issued? ==>
                  run.outcome == Acquired(exchange(username, password).token)
                  && run.records == records + [Record(username, exchange(username, password).token)])
  {
  }

  /**
   * Failure: a run fails exactly when the record was missing or expired and
   * the exchange replied with an error; it then reports that reason, and the
   * store holds no record for the username while every other record is kept
   * in order.
   */
  lemma FailureLaw(records: seq<Record>, username: string, now: int, password: string,
                   exchange: (string, string) -> Exchange)
    ensures var run := Flow(records, username, now, password, exchange);
            run.outcome.Failed? <==> !Classify(records, username, now).Fresh? && exchange(username, password).Refused?
    ensures var run := Flow(records, username, now, password, exchange);
            run.outcome.Failed? ==>
              && run.outcome.reason == exchange(username, password).reason
              && CountFor(run.records, username) == 0
              && run.records == RemoveAll(records, username)
  {
  }

  /**
   * Success: an acquired token ends up as the last record of the store, the
   * only one for its username, after the other users' records in their
   * original order.
   */
  lemma SuccessLaw(records: seq<Record>, username: string, now: int, password: string,
                   exchange: (string, string) -> Exchange)
    ensures var run := Flow(records, username, now, password, exchange);
            run.outcome.Acquired? ==>
              && run.outcome.token == exchange(username, password).token
              && run.records == RemoveAll(records, username) + [Record(username, run.outcome.token)]
              && CountFor(run.records, username) == 1
  {
    var run := Flow(records, username, now, password, exchange);
    if run.outcome.Acquired? {
      if Classify(records, username, now).Missing? {
        RemoveAllAbsent(records, username);
      }
      CountForConcat(RemoveAll(records, username), [Record(username, run.outcome.token)], username);
      CountForRemoveAll(records, username, username);
    }
  }

  /** Whatever the path, the records of other usernames are kept, in their original order. */
  lemma OtherUsersUntouched(records: seq<Record>, username: string, now: int, password: string,
                            exchange: (string, string) -> Exchange)
    ensures RemoveAll(Flow(records, username, now, password, exchange).records, username) == RemoveAll(records, username)
  {
    var run := Flow(records, username, now, password, exchange);
    SuccessLaw(records, username, now, password, exchange);
    FailureLaw(records, username, now, password, exchange);
    match run.outcome
    case Reused(_) =>
    case Failed(_) =>
      RemoveAllIdempotent(records, username);
    case Acquired(token) =>
      var appended := Record(username, token);
      RemoveAllConcat(RemoveAll(records, username), [appended], username);
      RemoveAllIdempotent(records, username);
      assert RemoveAll([appended], username) == [];
  }

  /** After a run, each other username has exactly as many records as before. */
  lemma OtherCountsUnchanged(records: seq<Record>, username: string, now: int, password: string,
                             exchange: (string, string) -> Exchange, other: string)
    requires other != username
    ensures CountFor(Flow(records, username, now, password, exchange).records, other) == CountFor(records, other)
  {
    var after := Flow(records, username, now, password, exchange).records;
    OtherUsersUntouched(records, username, now, password, exchange);
    CountForRemoveAll(after, username, other);
    CountForRemoveAll(records, username, other);
  }

  /** Invariant: a store with at most one record per username keeps that property across a run. */
  lemma FlowPreservesUniqueness(records: seq<Record>, username: string, now: int, password: string,
                                exchange: (string, string) -> Exchange)
    requires UniquePerUser(records)
    ensures UniquePerUser(Flow(records, username, now, password, exchange).records)
  {
    var run := Flow(records, username, now, password, exchange);
    UniqueIffCounts(records);
    forall u ensures CountFor(run.records, u) <= 1 {
      if u != username {
        OtherCountsUnchanged(records, username, now, password, exchange, u);
      } else {
        SuccessLaw(records, username, now, password, exchange);
        FailureLaw(records, username, now, password, exchange);
      }
    }
    UniqueIffCounts(run.records);
  }

  /**
   * A freshly acquired token is what the next run finds: while its
   * `refresh_before` is not yet passed, that run reuses it and writes nothing.
   */
  lemma AcquiredTokenIsReusedNext(records: seq<Record>, username: string, now: int, password: string,
                                  exchange: (string, string) -> Exchange, later: int,
                                  nextPassword: string, nextExchange: (string, string) -> Exchange)
    requires Flow(records, username, now, password, exchange).outcome.Acquired?
    requires later <= Flow(records, username, now, password, exchange).outcome.token.refreshBefore
    ensures var run := Flow(records, username, now, password, exchange);
            Flow(run.records, username, later, nextPassword, nextExchange)
              == Run(Reused(run.outcome.token), run.records, [LoginTokenSet(run.outcome.token)])
  {
    var run := Flow(records, username, now, password, exchange);
    var rest := RemoveAll(records, username);
    SuccessLaw(records, username, now, password, exchange);
    FindFirstPastAbsent(rest, [Record(username, run.outcome.token)], username);
  }

  /** An empty store and an error reply: the run fails with that reason and the store stays empty. */
  lemma EmptyStoreRefused(username: string, now: int, password: string, reason: string)
    ensures var run := Flow([], username, now, password, (login, secret) => Refused(reason));
            run.outcome == Failed(reason) && run.records == []
  {
  }
}

/**
 * The `nubankTokens` collection of the local database: an ordered list of
 * `{ username, token }` records, read with `find`, shrunk with `remove` and
 * grown with `push`, each mutation written back at once.
 */
module TokenStore {
  import opened Wrappers

  /**
   * A login token as the Nubank client returns it. Only `refresh_before` is
   * inspected (as an integer instant); every other field is carried in
   * `payload` and handed back unchanged.
   */
  datatype Token = Token(refreshBefore: int, payload: string)

  datatype Record = Record(username: string, token: Token)

  /** `find({ username })`: the first record whose username matches, if any. */
  function FindFirst(records: seq<Record>, username: string): (r: Option<Record>)
    ensures r.None? <==> forall i :: 0 <= i < |records| ==> records[i].username != username
    ensures r.Some? ==> exists i :: 0 <= i < |records| && records[i] == r.value
                                    && r.value.username == username
                                    && forall j :: 0 <= j < i ==> records[j].username != username
  {
    if records == [] then None
    else if records[0].username == username then Some(records[0])
    else
      var r := FindFirst(records[1..], username);
      assert r.Some? ==> exists i :: 0 <= i < |records| && records[i] == r.value
                                      && r.value.username == username
                                      && forall j :: 0 <= j < i ==> records[j].username != username by {
        if r.Some? {
          var k :| 0 <= k < |records[1..]| && records[1..][k] == r.value
                   && forall j :: 0 <= j < k ==> records[1..][j].username != username;
          assert records[k + 1] == r.value;
          assert forall j :: 0 <= j < k + 1 ==> records[j].username != username by {
            forall j | 0 <= j < k + 1 ensures records[j].username != username {
              if j > 0 { assert records[j] == records[1..][j - 1]; }
            }
          }
        }
      }
      r
  }

  /** `remove({ username })`: drop every record with that username, keeping the rest in order. */
  function RemoveAll(records: seq<Record>, username: string): (r: seq<Record>)
    ensures |r| <= |records|
    ensures forall k :: 0 <= k < |r| ==> r[k].username != username
  {
    if records == [] then []
    else if records[0].username == username then RemoveAll(records[1..], username)
    else [records[0]] + RemoveAll(records[1..], username)
  }

  /** The number of records stored for `username`. */
  function CountFor(records: seq<Record>, username: string): (n: nat)
    ensures n <= |records|
    ensures n == 0 <==> forall i :: 0 <= i < |records| ==> records[i].username != username
  {
    if records == [] then 0
    else (if records[0].username == username then 1 else 0) + CountFor(records[1..], username)
  }

  /** No two records of the store share a username. */
  ghost predicate UniquePerUser(records: seq<Record>)
  {
    forall i, j :: 0 <= i < |records| && 0 <= j < |records| && records[i].username == records[j].username ==> i == j
  }

  /** A record survives removal exactly when it was stored and belongs to another username. */
  lemma {:induction false} RemoveAllMembers(records: seq<Record>, username: string)
    ensures forall rec :: rec in RemoveAll(records, username) <==> rec in records && rec.username != username
  {
    if records != [] {
      RemoveAllMembers(records[1..], username);
      assert records == [records[0]] + records[1..];
    }
  }

  /** Removing distributes over concatenation, so the survivors keep their relative order. */
  lemma {:induction false} RemoveAllConcat(a: seq<Record>, b: seq<Record>, username: string)
    ensures RemoveAll(a + b, username) == RemoveAll(a, username) + RemoveAll(b, username)
  {
    if a == [] {
      assert a + b == b;
    } else {
      assert (a + b)[1..] == a[1..] + b;
      RemoveAllConcat(a[1..], b, username);
    }
  }

  /** A store without records for `username` is left as it is. */
  lemma {:induction false} RemoveAllAbsent(records: seq<Record>, username: string)
    requires forall i :: 0 <= i < |records| ==> records[i].username != username
    ensures RemoveAll(records, username) == records
  {
    if records != [] {
      RemoveAllAbsent(records[1..], username);
    }
  }

  /** Removing twice is removing once. */
  lemma RemoveAllIdempotent(records: seq<Record>, username: string)
    ensures RemoveAll(RemoveAll(records, username), username) == RemoveAll(records, username)
  {
  }

  /** Counting is additive over concatenation. */
  lemma {:induction false} CountForConcat(a: seq<Record>, b: seq<Record>, username: string)
    ensures CountFor(a + b, username) == CountFor(a, username) + CountFor(b, username)
  {
    if a == [] {
      assert a + b == b;
    } else {
      assert (a + b)[1..] == a[1..] + b;
      CountForConcat(a[1..], b, username);
    }
  }

  /** Removing one username leaves none of its records and every other username's count as it was. */
  lemma {:induction false} CountForRemoveAll(records: seq<Record>, removed: string, username: string)
    ensures CountFor(RemoveAll(records, removed), username) == if username == removed then 0 else CountFor(records, username)
  {
    if records != [] {
      CountForRemoveAll(records[1..], removed, username);
      if records[0].username != removed {
        assert [records[0]] + RemoveAll(records[1..], removed) == RemoveAll(records, removed);
        CountForConcat([records[0]], RemoveAll(records[1..], removed), username);
      }
    }
  }

  /** Two distinct positions holding the same username make its count at least two. */
  lemma {:induction false} CountForTwo(records: seq<Record>, i: nat, j: nat)
    requires i < j < |records| && records[i].username == records[j].username
    ensures CountFor(records, records[i].username) >= 2
  {
    var u := records[i].username;
    if i == 0 {
      assert records[1..][j - 1] == records[j];
      assert CountFor(records[1..], u) != 0;
    } else {
      assert records[1..][i - 1] == records[i] && records[1..][j - 1] == records[j];
      CountForTwo(records[1..], i - 1, j - 1);
    }
  }

  /** A store whose usernames are unique holds at most one record per username. */
  lemma {:induction false} UniqueCountsAtMostOne(records: seq<Record>, username: string)
    requires UniquePerUser(records)
    ensures CountFor(records, username) <= 1
  {
    if records != [] {
      var rest := records[1..];
      assert UniquePerUser(rest) by {
        forall i, j | 0 <= i < |rest| && 0 <= j < |rest| && rest[i].username == rest[j].username
          ensures i == j
        {
          assert records[i + 1] == rest[i] && records[j + 1] == rest[j];
        }
      }
      UniqueCountsAtMostOne(rest, username);
      if records[0].username == username {
        forall k | 0 <= k < |rest| ensures rest[k].username != username {
          assert records[k + 1] == rest[k];
        }
      }
    }
  }

  /** Uniqueness of usernames is exactly "every username counts at most once". */
  lemma UniqueIffCounts(records: seq<Record>)
    ensures UniquePerUser(records) <==> forall u :: CountFor(records, u) <= 1
  {
    if UniquePerUser(records) {
      forall u ensures CountFor(records, u) <= 1 {
        UniqueCountsAtMostOne(records, u);
      }
    } else {
      var i, j :| 0 <= i < |records| && 0 <= j < |records| && records[i].username == records[j].username && i != j;
      if i < j {
        CountForTwo(records, i, j);
      } else {
        CountForTwo(records, j, i);
      }
    }
  }

  /** The database handle, holding the current value of `nubankTokens`. */
  class TokenDb {
    var nubankTokens: seq<Record>

    constructor (records: seq<Record>)
      ensures nubankTokens == records
    {
      nubankTokens := records;
    }

    /** `db.get('nubankTokens').remove({ username }).write()` */
    method Remove(username: string)
      modifies this
      ensures nubankTokens == RemoveAll(old(nubankTokens), username)
      ensures CountFor(nubankTokens, username) == 0
    {
      nubankTokens := RemoveAll(nubankTokens, username);
    }

    /** `db.get('nubankTokens').push(record).write()` */
    method Push(record: Record)
      modifies this
      ensures nubankTokens == old(nubankTokens) + [record]
      ensures CountFor(nubankTokens, record.username) == CountFor(old(nubankTokens), record.username) + 1
    {
      CountForConcat(nubankTokens, [record], record.username);
      nubankTokens := nubankTokens + [record];
    }
  }
}

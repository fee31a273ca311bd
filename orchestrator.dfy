/**
 * `anonymize_records` of redacty/redacty.py: validate the age threshold,
 * rewrite every fetched record, stage an UPDATE for each body that
 * changed, then commit after one confirmation, roll back, or report that
 * there was nothing to do.
 *
 * The database is a Connection holding the committed table (id to text)
 * and the writes of the open transaction. The rows the SELECT returns, or
 * its failure, the user's reply to the prompt and today's date are inputs.
 */
module Orchestrator {
  import opened Strings
  import opened Rewriter

  /** A fetched row: its id and the text of the redacted column. */
  datatype Record = Record(id: int, body: string)

  /** What the SELECT produced: the rows, or the driver's error message. */
  datatype Fetch = Fetched(records: seq<Record>) | FetchFailed(message: string)

  /** The largest day count a `timedelta` holds. */
  const MaxDays: nat := 999999999

  /** The ordinal of the last `date` Python can represent, 9999-12-31; the first, 0001-01-01, is 1. */
  const MaxOrdinal: nat := 3652059

  /**
   * `today - timedelta(days=days)` raises OverflowError: the day count is
   * beyond timedelta's range, or the threshold would fall before 0001-01-01.
   */
  predicate ThresholdOverflows(today: nat, days: int)
  {
    days > MaxDays || today - days < 1
  }

  /**
   * Since no date lies beyond 9999-12-31, the threshold overflows exactly
   * when the age reaches back to today's ordinal or further.
   */
  lemma OverflowIsDateBound(today: nat, days: int)
    requires 1 <= today <= MaxOrdinal
    ensures ThresholdOverflows(today, days) <==> days >= today
  {
  }

  /** How a run ends; each case but DateOverflow is one message the source prints. */
  datatype Outcome =
    | InvalidDays                    // the ValueError for days <= 0
    | DateOverflow                   // the OverflowError of the threshold, which no handler catches
    | DatabaseError(message: string) // a psycopg2.Error
    | Anonymized(total: nat)         // committed after an affirmative reply
    | Cancelled                      // rolled back
    | NoRecords                      // nothing fetched; no commit, no rollback

  /** One record's write: the rewritten body under its id, when it changed and the row exists. */
  function StageOne(table: map<int, string>, pending: map<int, string>, r: Record, excluded: string): map<int, string>
  {
    var body := Rewrite(r.body, excluded);
    if body != r.body && r.id in table then pending[r.id := body] else pending
  }

  /** The transaction's writes after processing records in order. */
  function Staged(table: map<int, string>, pending: map<int, string>, records: seq<Record>, excluded: string): map<int, string>
    decreases |records|
  {
    if records == [] then pending
    else Staged(table, StageOne(table, pending, records[0], excluded), records[1..], excluded)
  }

  /** The number of records whose rewritten body differs, i.e. the UPDATE statements issued. */
  function Changed(records: seq<Record>, excluded: string): nat
    decreases |records|
  {
    if records == [] then 0
    else (if Rewrite(records[0].body, excluded) != records[0].body then 1 else 0) + Changed(records[1..], excluded)
  }

  predicate DistinctIds(records: seq<Record>)
  {
    forall i, j :: 0 <= i < j < |records| ==> records[i].id != records[j].id
  }

  /** Writes stay within the rows of the table. */
  lemma {:induction false} StagedWithinTable(table: map<int, string>, pending: map<int, string>, records: seq<Record>, excluded: string)
    requires pending.Keys <= table.Keys
    ensures Staged(table, pending, records, excluded).Keys <= table.Keys
    decreases |records|
  {
    if records != [] {
      StagedWithinTable(table, StageOne(table, pending, records[0], excluded), records[1..], excluded);
    }
  }

  /** Records with other ids leave the entry for k as it was. */
  lemma {:induction false} StagedUntouched(table: map<int, string>, pending: map<int, string>, records: seq<Record>, excluded: string, k: int)
    requires forall i :: 0 <= i < |records| ==> records[i].id != k
    ensures k in Staged(table, pending, records, excluded) <==> k in pending
    ensures k in pending ==> Staged(table, pending, records, excluded)[k] == pending[k]
    decreases |records|
  {
    if records != [] {
      StagedUntouched(table, StageOne(table, pending, records[0], excluded), records[1..], excluded, k);
    }
  }

  /**
   * With distinct ids and no earlier writes, an update is staged for a
   * record exactly when its row exists and its rewritten body differs from
   * the fetched body, and the staged value is the rewritten body.
   */
  lemma {:induction false} StagedExactly(table: map<int, string>, records: seq<Record>, excluded: string, i: nat)
    requires DistinctIds(records)
    requires i < |records|
    ensures var r := records[i];
      var staged := Staged(table, map[], records, excluded);
      (r.id in staged <==> r.id in table && Rewrite(r.body, excluded) != r.body) &&
      (r.id in staged ==> staged[r.id] == Rewrite(r.body, excluded))
  {
    StagedAt(table, map[], records, excluded, i);
  }

  lemma {:induction false} StagedAt(table: map<int, string>, pending: map<int, string>, records: seq<Record>, excluded: string, i: nat)
    requires DistinctIds(records)
    requires i < |records|
    requires records[i].id !in pending
    ensures var r := records[i];
      var staged := Staged(table, pending, records, excluded);
      (r.id in staged <==> r.id in table && Rewrite(r.body, excluded) != r.body) &&
      (r.id in staged ==> staged[r.id] == Rewrite(r.body, excluded))
    decreases |records|
  {
    var p1 := StageOne(table, pending, records[0], excluded);
    if i == 0 {
      forall j | 0 <= j < |records[1..]| ensures records[1..][j].id != records[0].id {
        assert records[1..][j] == records[j + 1];
      }
      StagedUntouched(table, p1, records[1..], excluded, records[0].id);
    } else {
      assert records[1..][i - 1] == records[i];
      assert records[i].id != records[0].id;
      assert DistinctIds(records[1..]) by {
        forall a, b | 0 <= a < b < |records[1..]| ensures records[1..][a].id != records[1..][b].id {
          assert records[1..][a] == records[a + 1] && records[1..][b] == records[b + 1];
        }
      }
      StagedAt(table, p1, records[1..], excluded, i - 1);
    }
  }

  /** Every staged id belongs to an earlier write or to one of the records. */
  lemma {:induction false} StagedOnlyRecords(table: map<int, string>, pending: map<int, string>, records: seq<Record>, excluded: string, k: int)
    requires k in Staged(table, pending, records, excluded)
    ensures k in pending || exists i :: 0 <= i < |records| && records[i].id == k
    decreases |records|
  {
    if records != [] {
      var p1 := StageOne(table, pending, records[0], excluded);
      StagedOnlyRecords(table, p1, records[1..], excluded, k);
      if k !in pending && k !in p1 {
        var i :| 0 <= i < |records[1..]| && records[1..][i].id == k;
        assert records[i + 1].id == k;
      }
    }
  }

  /** No more UPDATE statements than records. */
  lemma {:induction false} ChangedAtMost(records: seq<Record>, excluded: string)
    ensures Changed(records, excluded) <= |records|
    decreases |records|
  {
    if records != [] {
      ChangedAtMost(records[1..], excluded);
    }
  }

  /** ASCII lower-casing, as `str.lower` does on the characters that matter here. */
  function Lower(s: string): string
  {
    seq(|s|, i requires 0 <= i < |s| => if 'A' <= s[i] <= 'Z' then (s[i] as int + 32) as char else s[i])
  }

  /** `confirm.lower() == 'y'`. */
  predicate IsYes(reply: string)
  {
    Lower(reply) == "y"
  }

  /** The affirmative replies are exactly "y" and "Y". */
  lemma IsYesExactly(reply: string)
    ensures IsYes(reply) <==> reply == "y" || reply == "Y"
  {
    if IsYes(reply) {
      assert |reply| == 1;
      assert Lower(reply)[0] == 'y';
    }
  }

  /**
   * The database connection: the committed table and the writes of the
   * open transaction, which commit publishes and rollback discards, and
   * the number of statements the cursor has executed.
   */
  class Connection {
    var committed: map<int, string>
    var pending: map<int, string>
    var executed: nat

    /** Only existing rows have pending writes. */
    ghost predicate Valid()
      reads this
    {
      pending.Keys <= committed.Keys
    }

    constructor (table: map<int, string>)
      ensures Valid()
      ensures committed == table && pending == map[] && executed == 0
    {
      committed := table;
      pending := map[];
      executed := 0;
    }

    /** `cursor.execute` of the SELECT: one statement, no change to the rows. */
    method Select()
      requires Valid()
      modifies this
      ensures Valid()
      ensures committed == old(committed) && pending == old(pending)
      ensures executed == old(executed) + 1
    {
      executed := executed + 1;
    }

    /** `UPDATE table SET column = body WHERE id = id`: a row that does not exist is not written. */
    method Update(id: int, body: string)
      requires Valid()
      modifies this
      ensures Valid()
      ensures committed == old(committed)
      ensures pending == if id in old(committed) then old(pending)[id := body] else old(pending)
      ensures executed == old(executed) + 1
    {
      if id in committed {
        pending := pending[id := body];
      }
      executed := executed + 1;
    }

    /** `conn.commit()`: the transaction's writes become the table. */
    method Commit()
      requires Valid()
      modifies this
      ensures Valid()
      ensures committed == old(committed) + old(pending) && pending == map[]
      ensures committed.Keys == old(committed).Keys
      ensures executed == old(executed)
    {
      committed := committed + pending;
      pending := map[];
    }

    /** `conn.rollback()`: the transaction's writes are discarded. */
    method Rollback()
      requires Valid()
      modifies this
      ensures Valid()
      ensures committed == old(committed) && pending == map[]
      ensures executed == old(executed)
    {
      pending := map[];
    }
  }

  /**
   * `anonymize_records(conn, table, column, days, excluded_domain)` with
   * the SELECT's result and the reply to the confirmation prompt given.
   */
  method AnonymizeRecords(conn: Connection, today: nat, days: int, excluded: string, fetch: Fetch, reply: string)
    returns (outcome: Outcome)
    requires conn.Valid()
    requires 1 <= today <= MaxOrdinal
    modifies conn
    ensures conn.Valid()
    ensures days <= 0 ==>
      outcome == InvalidDays &&
      conn.committed == old(conn.committed) && conn.pending == old(conn.pending) &&
      conn.executed == old(conn.executed)
    ensures days > 0 && ThresholdOverflows(today, days) ==>
      outcome == DateOverflow &&
      conn.committed == old(conn.committed) && conn.pending == old(conn.pending) &&
      conn.executed == old(conn.executed)
    ensures days > 0 && !ThresholdOverflows(today, days) && fetch.FetchFailed? ==>
      outcome == DatabaseError(fetch.message) &&
      conn.committed == old(conn.committed) && conn.pending == old(conn.pending) &&
      conn.executed == old(conn.executed) + 1
    ensures days > 0 && !ThresholdOverflows(today, days) && fetch.Fetched? ==>
      var records := fetch.records;
      var staged := Staged(old(conn.committed), old(conn.pending), records, excluded);
      conn.executed == old(conn.executed) + 1 + Changed(records, excluded) &&
      (|records| == 0 ==>
        outcome == NoRecords && conn.committed == old(conn.committed) && conn.pending == old(conn.pending)) &&
      (|records| > 0 && IsYes(reply) ==>
        outcome == Anonymized(|records|) && conn.committed == old(conn.committed) + staged && conn.pending == map[]) &&
      (|records| > 0 && !IsYes(reply) ==>
        outcome == Cancelled && conn.committed == old(conn.committed) && conn.pending == map[])
  {
    if days <= 0 {
      return InvalidDays;
    }
    if ThresholdOverflows(today, days) {
      return DateOverflow;
    }
    conn.Select();
    if fetch.FetchFailed? {
      return DatabaseError(fetch.message);
    }
    var records := fetch.records;
    var total := 0;
    for i := 0 to |records|
      invariant conn.Valid()
      invariant total == i
      invariant conn.committed == old(conn.committed)
      invariant Staged(conn.committed, conn.pending, records[i..], excluded)
             == Staged(old(conn.committed), old(conn.pending), records, excluded)
      invariant conn.executed + Changed(records[i..], excluded) == old(conn.executed) + 1 + Changed(records, excluded)
    {
      assert records[i..][1..] == records[i + 1..];
      total := total + 1;
      var record := records[i];
      var matches := FindAll(record.body, excluded);
      var body := ReplaceMatches(matches, excluded, record.body);
      if body != record.body {
        conn.Update(record.id, body);
      }
    }
    assert records[|records|..] == [];
    if total > 0 {
      if IsYes(reply) {
        conn.Commit();
        outcome := Anonymized(total);
      } else {
        conn.Rollback();
        outcome := Cancelled;
      }
    } else {
      outcome := NoRecords;
    }
  }

  /** Decimal digits of n, as `f"{n}"` prints them. */
  function Decimal(n: nat): (d: string)
    ensures |d| > 0 && forall i :: 0 <= i < |d| ==> IsAsciiDigit(d[i])
    decreases n
  {
    var digit := ['0' + (n % 10) as char];
    if n < 10 then digit else Decimal(n / 10) + digit
  }

  /** The number a string of decimal digits denotes. */
  function DigitsValue(d: string): nat
    requires forall i :: 0 <= i < |d| ==> IsAsciiDigit(d[i])
    decreases |d|
  {
    if d == [] then 0
    else
      var last := d[|d| - 1];
      assert IsAsciiDigit(last);
      10 * DigitsValue(d[..|d| - 1]) + (last as int - '0' as int)
  }

  /** The printed count reads back as the count, with no leading zero. */
  lemma {:induction false} DecimalRoundTrip(n: nat)
    ensures DigitsValue(Decimal(n)) == n
    ensures Decimal(n)[0] == '0' ==> n == 0
    decreases n
  {
    var d := Decimal(n);
    if n >= 10 {
      DecimalRoundTrip(n / 10);
      assert d[..|d| - 1] == Decimal(n / 10);
    }
  }

  /**
   * The line the run prints for each outcome. The OverflowError leaves the
   * function, so the function itself prints nothing for it.
   */
  function Message(outcome: Outcome): string
  {
    match outcome
    case InvalidDays => "ValueError: Number of days must be greater than zero."
    case DateOverflow => ""
    case DatabaseError(message) => "Database error: " + message
    case Anonymized(total) => Decimal(total) + " records anonymized."
    case Cancelled => "Anonymization cancelled."
    case NoRecords => "No records to anonymize."
  }
}

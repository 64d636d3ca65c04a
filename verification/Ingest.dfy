/** Resumable ingest of a trade list: batched commits, skipping of keys already stored. */
module Ingest {
  import opened Common

  /** A datetime to the second: what its clock shows, and its offset from UTC if it carries one. */
  datatype Stamp = Stamp(wall: int, zone: Option<int>)

  /** What the database driver hands back for a stored timestamp column. */
  datatype Fetched =
    | Moment(stamp: Stamp)
    | Text(wall: int, separator: char)  // a string: date, separator, time of day
    | Missing

  /** The first nineteen characters of a rendered timestamp, fixed by the second and the separator. */
  datatype KeyTime = NoTime | Prefix(wall: int, separator: char)

  datatype Key = Key(symbol: string, side: string, time: KeyTime)

  /** Duplicate-detection key. An offset is dropped, not converted, and ISO text separates with 'T'. */
  function IngestKey(symbol: string, side: string, t: Fetched): Key {
    match t
    case Missing => Key(symbol, side, NoTime)
    case Moment(stamp) => Key(symbol, side, Prefix(stamp.wall, 'T'))
    case Text(wall, separator) => Key(symbol, side, Prefix(wall, separator))
  }

  /** Where, if anywhere, a malformed trade raises while its row is prepared. */
  datatype Fault = Sound | BeforeKeyCheck | AfterKeyCheck

  datatype Trade = Trade(side: string, entry: Stamp, profit: real, fault: Fault)

  datatype Row = Row(symbol: string, side: string, entry: Stamp, win: bool, pnl: real)

  function RowOf(symbol: string, t: Trade): Row {
    Row(symbol, t.side, t.entry, t.profit > 0.0, t.profit)
  }

  function TradeKey(symbol: string, t: Trade): Key { IngestKey(symbol, t.side, Moment(t.entry)) }

  function RowKey(r: Row): Key { IngestKey(r.symbol, r.side, Moment(r.entry)) }

  /** Keys of rows as the running process computed them when it inserted them. */
  function WrittenKeys(rows: seq<Row>): set<Key> { set r | r in rows :: RowKey(r) }

  /** Keys of rows as a later process computes them from what the driver returns. */
  function RereadKeys(rows: seq<Row>, reread: Stamp -> Fetched): set<Key> {
    set r | r in rows :: IngestKey(r.symbol, r.side, reread(r.entry))
  }

  datatype Outcome = Inserted | Skipped | Failed

  function OutcomeOf(symbol: string, t: Trade, skipExisting: bool, existing: set<Key>): Outcome {
    if t.fault.BeforeKeyCheck? then Failed
    else if skipExisting && TradeKey(symbol, t) in existing then Skipped
    else if t.fault.AfterKeyCheck? then Failed
    else Inserted
  }

  /** What a run has done so far: the rows it inserted and its two other tallies. */
  datatype Progress = Progress(added: seq<Row>, skipped: nat, errors: nat)

  function Next(symbol: string, skipExisting: bool, known: set<Key>, p: Progress, t: Trade): Progress {
    match OutcomeOf(symbol, t, skipExisting, known + WrittenKeys(p.added))
    case Inserted => p.(added := p.added + [RowOf(symbol, t)])
    case Skipped => p.(skipped := p.skipped + 1)
    case Failed => p.(errors := p.errors + 1)
  }

  /** A run over `trades` that starts out knowing the keys `known`. */
  function Run(symbol: string, trades: seq<Trade>, skipExisting: bool, known: set<Key>): Progress {
    if trades == [] then Progress([], 0, 0)
    else
      var init := Run(symbol, trades[..|trades| - 1], skipExisting, known);
      Next(symbol, skipExisting, known, init, trades[|trades| - 1])
  }

  /** The rows such a run inserts. */
  function Fresh(symbol: string, trades: seq<Trade>, skipExisting: bool, known: set<Key>): seq<Row> {
    Run(symbol, trades, skipExisting, known).added
  }

  /** The keys a run starts out with. */
  function Known(rows: seq<Row>, skipExisting: bool, reread: Stamp -> Fetched): set<Key> {
    if skipExisting then RereadKeys(rows, reread) else {}
  }

  /** Rows stored after a full run over a table holding `base`. */
  function FullRun(base: seq<Row>, symbol: string, trades: seq<Trade>, skipExisting: bool, reread: Stamp -> Fetched)
    : seq<Row>
  {
    base + Fresh(symbol, trades, skipExisting, Known(base, skipExisting, reread))
  }

  /** Rows stored after a run that dies having handled `cut` trades: whole batches only. */
  function CutRun(base: seq<Row>, symbol: string, trades: seq<Trade>, skipExisting: bool, reread: Stamp -> Fetched,
                  cut: nat, batch: nat): seq<Row>
    requires cut <= |trades| && batch >= 1
  {
    var rows := Fresh(symbol, trades[..cut], skipExisting, Known(base, skipExisting, reread));
    base + rows[..|rows| - |rows| % batch]
  }

  /** The table the ingest writes to. Only committed rows survive the process. */
  class Database {
    var rows: seq<Row>
    const reread: Stamp -> Fetched

    constructor (reread: Stamp -> Fetched)
      ensures rows == [] && this.reread == reread
    {
      rows := [];
      this.reread := reread;
    }

    /** Insert one row pair in the open transaction; every `batch` insertions the transaction is committed. */
    method Insert(row: Row, count: nat, pending: seq<Row>, batch: nat) returns (inserted: nat, uncommitted: seq<Row>)
      requires InBatch(count, |pending|, batch)
      modifies this`rows
      ensures inserted == count + 1 && InBatch(inserted, |uncommitted|, batch)
      ensures rows + uncommitted == old(rows) + pending + [row]
    {
      InBatchStep(count, |pending|, batch);
      uncommitted := pending + [row];
      inserted := count + 1;
      if inserted % batch == 0 {
        rows := rows + uncommitted;  // commit
        uncommitted := [];
      }
    }

    /** One turn of the row loop; `p` and `p'` are what the run has done before and after it. */
    method Handle(symbol: string, t: Trade, skipExisting: bool, batch: nat, existing: set<Key>, pending: seq<Row>,
                  inserted: nat, skipped: nat, errors: nat, ghost base: seq<Row>, ghost known: set<Key>,
                  ghost p: Progress)
      returns (existing': set<Key>, pending': seq<Row>, inserted': nat, skipped': nat, errors': nat)
      requires Tracks(existing, pending, inserted, skipped, errors, rows, base, known, p, batch)
      modifies this`rows
      ensures Tracks(existing', pending', inserted', skipped', errors', rows, base, known,
                     Next(symbol, skipExisting, known, p, t), batch)
      ensures inserted' + skipped' + errors' == inserted + skipped + errors + 1
    {
      existing', pending', inserted', skipped', errors' := existing, pending, inserted, skipped, errors;
      if t.fault.BeforeKeyCheck? {
        errors' := errors + 1;
        return;
      }
      var key := TradeKey(symbol, t);
      if skipExisting && key in existing {
        skipped' := skipped + 1;
        return;
      }
      if t.fault.AfterKeyCheck? {
        errors' := errors + 1;
        return;
      }
      existing' := existing + {key};
      WrittenKeysAppend(p.added, RowOf(symbol, t));
      inserted', pending' := Insert(RowOf(symbol, t), inserted, pending, batch);
    }

    /** The row loop over the first `limit` trades; returns the rows not yet committed and the tallies. */
    method Process(symbol: string, trades: seq<Trade>, skipExisting: bool, batch: nat, limit: nat)
      returns (pending: seq<Row>, inserted: nat, skipped: nat, errors: nat)
      requires batch >= 1 && limit <= |trades|
      modifies this`rows
      ensures var known := Known(old(rows), skipExisting, reread);
              var run := Run(symbol, trades[..limit], skipExisting, known);
              && rows + pending == old(rows) + run.added
              && inserted == |run.added| && InBatch(inserted, |pending|, batch)
              && skipped == run.skipped && errors == run.errors
      ensures inserted + skipped + errors == limit
    {
      ghost var base, known := rows, Known(rows, skipExisting, reread);
      var existing := if skipExisting then RereadKeys(rows, reread) else {};
      pending, inserted, skipped, errors := [], 0, 0, 0;
      for i := 0 to limit
        invariant Tracks(existing, pending, inserted, skipped, errors, rows, base, known,
                         Run(symbol, trades[..i], skipExisting, known), batch)
        invariant inserted + skipped + errors == i
      {
        assert trades[..i + 1][..i] == trades[..i];
        existing, pending, inserted, skipped, errors :=
          Handle(symbol, trades[i], skipExisting, batch, existing, pending, inserted, skipped, errors,
                 base, known, Run(symbol, trades[..i], skipExisting, known));
      }
    }

    /** One run. `crashAt` is the number of trades handled when the connection dies, if it does. */
    method Save(symbol: string, trades: seq<Trade>, skipExisting: bool, batch: nat, crashAt: Option<nat>)
      returns (inserted: nat, skipped: nat, errors: nat)
      requires batch >= 1
      requires crashAt.Some? ==> crashAt.value <= |trades|
      modifies this`rows
      ensures crashAt.None? ==> rows == FullRun(old(rows), symbol, trades, skipExisting, reread)
      ensures crashAt.Some? ==>
                rows == CutRun(old(rows), symbol, trades, skipExisting, reread, crashAt.value, batch)
      ensures var known := Known(old(rows), skipExisting, reread);
              var run := Run(symbol, trades, skipExisting, known);
              crashAt.None? ==>
                && inserted == |run.added| && skipped == run.skipped && errors == run.errors
                && inserted + skipped + errors == |trades|
      ensures crashAt.None? && skipExisting && (old(rows) == [] || reread == AsWritten) ==>
                rows == old(rows) + Firsts(old(rows), symbol, trades) && errors == Failing(old(rows), symbol, trades)
    {
      RunAddsFirsts(rows, symbol, trades, reread);
      var pending: seq<Row>;
      if crashAt.None? {
        pending, inserted, skipped, errors := Process(symbol, trades, skipExisting, batch, |trades|);
        assert trades[..|trades|] == trades;
        rows := rows + pending;  // final commit
      } else {
        ghost var base := rows;
        pending, inserted, skipped, errors := Process(symbol, trades, skipExisting, batch, crashAt.value);
        CommittedPrefix(base, Fresh(symbol, trades[..crashAt.value], skipExisting, Known(base, skipExisting, reread)),
                        rows, pending);
      }
    }
  }

  /** The number of rows not yet committed, out of `inserted` so far. */
  ghost predicate InBatch(inserted: nat, uncommitted: nat, batch: nat) {
    batch >= 1 && uncommitted < batch && uncommitted <= inserted && inserted % batch == uncommitted
  }

  /** The loop's variables and the table reflect what the run has done. */
  ghost predicate Tracks(existing: set<Key>, pending: seq<Row>, inserted: nat, skipped: nat, errors: nat,
                         rows: seq<Row>, base: seq<Row>, known: set<Key>, p: Progress, batch: nat) {
    && existing == known + WrittenKeys(p.added)
    && rows + pending == base + p.added
    && inserted == |p.added| && InBatch(inserted, |pending|, batch)
    && skipped == p.skipped && errors == p.errors
  }

  lemma InBatchStep(inserted: nat, uncommitted: nat, batch: nat)
    requires InBatch(inserted, uncommitted, batch)
    ensures (inserted + 1) % batch == 0 <==> uncommitted + 1 == batch
    ensures InBatch(inserted + 1, if uncommitted + 1 == batch then 0 else uncommitted + 1, batch)
  {
    var q := inserted / batch;
    if uncommitted + 1 == batch {
      assert inserted + 1 == (q + 1) * batch;
      DivModUnique(inserted + 1, batch, q + 1, 0);
    } else {
      DivModUnique(inserted + 1, batch, q, uncommitted + 1);
    }
  }

  lemma CommittedPrefix(base: seq<Row>, added: seq<Row>, rows: seq<Row>, pending: seq<Row>)
    requires rows + pending == base + added && |pending| <= |added|
    ensures rows == base + added[..|added| - |pending|]
  {
    assert rows == (rows + pending)[..|rows|];
  }

  lemma WrittenKeysAppend(rows: seq<Row>, r: Row)
    ensures WrittenKeys(rows + [r]) == WrittenKeys(rows) + {RowKey(r)}
  {
    assert forall x :: x in rows + [r] <==> x in rows || x == r;
  }

  lemma WrittenKeysConcat(a: seq<Row>, b: seq<Row>)
    ensures WrittenKeys(a + b) == WrittenKeys(a) + WrittenKeys(b)
  {
    assert forall x :: x in a + b <==> x in a || x in b;
  }

  lemma RereadKeysConcat(a: seq<Row>, b: seq<Row>, reread: Stamp -> Fetched)
    ensures RereadKeys(a + b, reread) == RereadKeys(a, reread) + RereadKeys(b, reread)
  {
    assert forall x :: x in a + b <==> x in a || x in b;
  }

  /** What the last trade adds. */
  function LastAdds(symbol: string, t: Trade, known: set<Key>): seq<Row> {
    if OutcomeOf(symbol, t, true, known).Inserted? then [RowOf(symbol, t)] else []
  }

  lemma FreshStep(symbol: string, trades: seq<Trade>, known: set<Key>)
    requires trades != []
    ensures var before := Fresh(symbol, trades[..|trades| - 1], true, known);
            Fresh(symbol, trades, true, known)
            == before + LastAdds(symbol, trades[|trades| - 1], known + WrittenKeys(before))
  {
  }

  /** Knowing the first k fresh rows of all but the last trade, a run goes on with what the last one adds. */
  lemma ResumeWithOneMore(symbol: string, trades: seq<Trade>, known: set<Key>, k: nat)
    requires trades != []
    requires var before := Fresh(symbol, trades[..|trades| - 1], true, known);
             && k <= |before|
             && Fresh(symbol, trades[..|trades| - 1], true, known + WrittenKeys(before[..k])) == before[k..]
    ensures var all := Fresh(symbol, trades, true, known);
            k <= |all| && Fresh(symbol, trades, true, known + WrittenKeys(all[..k])) == all[k..]
  {
    var before, all := Fresh(symbol, trades[..|trades| - 1], true, known), Fresh(symbol, trades, true, known);
    var more := known + WrittenKeys(before[..k]);
    FreshStep(symbol, trades, known);
    FreshStep(symbol, trades, more);
    assert all[..k] == before[..k];
    assert more + WrittenKeys(before[k..]) == known + WrittenKeys(before) by {
      WrittenKeysConcat(before[..k], before[k..]);
      assert before[..k] + before[k..] == before;
    }
  }

  /** Starting with the keys of the first `k` fresh rows known, a run inserts exactly the remaining ones. */
  lemma {:induction false} ResumeFromPrefix(symbol: string, trades: seq<Trade>, known: set<Key>, k: nat)
    requires k <= |Fresh(symbol, trades, true, known)|
    ensures var all := Fresh(symbol, trades, true, known);
            Fresh(symbol, trades, true, known + WrittenKeys(all[..k])) == all[k..]
  {
    if trades != [] {
      var init := trades[..|trades| - 1];
      if k <= |Fresh(symbol, init, true, known)| {
        ResumeFromPrefix(symbol, init, known, k);
        ResumeWithOneMore(symbol, trades, known, k);
      } else {
        var all := Fresh(symbol, trades, true, known);
        assert k == |all| && all[..k] == all && all[k..] == [];
        SoundKeysCovered(symbol, trades, known);
        NothingFreshIff(symbol, trades, known + WrittenKeys(all));
      }
    }
  }

  /** Every sound trade's key is known or written by the run. */
  lemma {:induction false} SoundKeysCovered(symbol: string, trades: seq<Trade>, known: set<Key>)
    ensures forall t :: t in trades && t.fault.Sound? ==>
              TradeKey(symbol, t) in known + WrittenKeys(Fresh(symbol, trades, true, known))
  {
    if trades != [] {
      var init, t := trades[..|trades| - 1], trades[|trades| - 1];
      SoundKeysCovered(symbol, init, known);
      WrittenKeysAppend(Fresh(symbol, init, true, known), RowOf(symbol, t));
      assert forall u :: u in trades <==> u in init || u == t;
    }
  }

  /** A run inserts nothing exactly when every sound trade's key is known at its start. */
  lemma {:induction false} NothingFreshIff(symbol: string, trades: seq<Trade>, known: set<Key>)
    ensures Fresh(symbol, trades, true, known) == [] <==>
            forall t :: t in trades && t.fault.Sound? ==> TradeKey(symbol, t) in known
  {
    if trades != [] {
      var init, t := trades[..|trades| - 1], trades[|trades| - 1];
      NothingFreshIff(symbol, init, known);
      assert forall u :: u in trades <==> u in init || u == t;
    }
  }

  /** What a dying run commits is a prefix of what an uninterrupted run inserts. */
  lemma {:induction false} FreshPrefix(symbol: string, trades: seq<Trade>, skipExisting: bool, known: set<Key>,
                                       cut: nat)
    requires cut <= |trades|
    ensures Fresh(symbol, trades[..cut], skipExisting, known) <= Fresh(symbol, trades, skipExisting, known)
  {
    if cut == |trades| {
      assert trades[..cut] == trades;
    } else {
      assert trades[..|trades| - 1][..cut] == trades[..cut];
      FreshPrefix(symbol, trades[..|trades| - 1], skipExisting, known, cut);
    }
  }

  /** The driver returns timestamps of these rows that yield the key they were written under. */
  ghost predicate ComeBack(rows: seq<Row>, reread: Stamp -> Fetched) {
    forall r :: r in rows ==> IngestKey(r.symbol, r.side, reread(r.entry)) == RowKey(r)
  }

  lemma {:induction false} FreshRowsComeFromTrades(symbol: string, trades: seq<Trade>, skipExisting: bool,
                                                   known: set<Key>)
    ensures forall r :: r in Fresh(symbol, trades, skipExisting, known) ==>
              exists t :: t in trades && t.fault.Sound? && r == RowOf(symbol, t)
  {
    if trades != [] {
      var init, t := trades[..|trades| - 1], trades[|trades| - 1];
      FreshRowsComeFromTrades(symbol, init, skipExisting, known);
      forall r | r in Fresh(symbol, trades, skipExisting, known)
        ensures exists u :: u in trades && u.fault.Sound? && r == RowOf(symbol, u)
      {
        if r in Fresh(symbol, init, skipExisting, known) {
          var u :| u in init && u.fault.Sound? && r == RowOf(symbol, u);
          assert u in trades;
        } else {
          assert t in trades && r == RowOf(symbol, t);
        }
      }
    }
  }

  /** One interrupted attempt: where it dies and its batch size. */
  datatype Attempt = Attempt(cut: nat, batch: nat)

  ghost predicate ValidAttempts(attempts: seq<Attempt>, trades: seq<Trade>) {
    forall a :: a in attempts ==> a.cut <= |trades| && a.batch >= 1
  }

  /** Rows stored after a series of interrupted attempts. */
  ghost function AfterAttempts(base: seq<Row>, symbol: string, trades: seq<Trade>, reread: Stamp -> Fetched,
                               attempts: seq<Attempt>): seq<Row>
    requires ValidAttempts(attempts, trades)
  {
    if attempts == [] then base
    else
      var a := attempts[|attempts| - 1];
      var rows := AfterAttempts(base, symbol, trades, reread, attempts[..|attempts| - 1]);
      CutRun(rows, symbol, trades, true, reread, a.cut, a.batch)
  }

  /** After any attempts, the table holds the base and a prefix of what one full run would have added. */
  lemma {:induction false} AttemptsLeavePrefix(base: seq<Row>, symbol: string, trades: seq<Trade>,
                                               reread: Stamp -> Fetched, attempts: seq<Attempt>) returns (k: nat)
    requires ComeBack(Fresh(symbol, trades, true, RereadKeys(base, reread)), reread) && ValidAttempts(attempts, trades)
    ensures var all := Fresh(symbol, trades, true, RereadKeys(base, reread));
            k <= |all| && AfterAttempts(base, symbol, trades, reread, attempts) == base + all[..k]
  {
    var known := RereadKeys(base, reread);
    var all := Fresh(symbol, trades, true, known);
    if attempts == [] {
      k := 0;
      assert base == base + all[..0];
    } else {
      var j := AttemptsLeavePrefix(base, symbol, trades, reread, attempts[..|attempts| - 1]);
      var a := attempts[|attempts| - 1];
      var m := CutRunFromPrefix(base, symbol, trades, reread, j, a);
      k := j + m;
    }
  }

  /** From a table holding a prefix of the fresh rows, a run inserts exactly the rest. */
  lemma ResumeState(base: seq<Row>, symbol: string, trades: seq<Trade>, reread: Stamp -> Fetched, k: nat)
    requires ComeBack(Fresh(symbol, trades, true, RereadKeys(base, reread)), reread)
    requires k <= |Fresh(symbol, trades, true, RereadKeys(base, reread))|
    ensures var all := Fresh(symbol, trades, true, RereadKeys(base, reread));
            Fresh(symbol, trades, true, RereadKeys(base + all[..k], reread)) == all[k..]
  {
    var known := RereadKeys(base, reread);
    var all := Fresh(symbol, trades, true, known);
    RereadKeysConcat(base, all[..k], reread);
    assert RereadKeys(all[..k], reread) == WrittenKeys(all[..k]);
    ResumeFromPrefix(symbol, trades, known, k);
  }

  /** One interrupted attempt advances a table holding a prefix of the fresh rows to a longer prefix. */
  lemma CutRunFromPrefix(base: seq<Row>, symbol: string, trades: seq<Trade>, reread: Stamp -> Fetched,
                         j: nat, a: Attempt) returns (m: nat)
    requires ComeBack(Fresh(symbol, trades, true, RereadKeys(base, reread)), reread)
    requires a.cut <= |trades| && a.batch >= 1
    requires j <= |Fresh(symbol, trades, true, RereadKeys(base, reread))|
    ensures var all := Fresh(symbol, trades, true, RereadKeys(base, reread));
            && j + m <= |all|
            && CutRun(base + all[..j], symbol, trades, true, reread, a.cut, a.batch) == base + all[..j + m]
  {
    var all := Fresh(symbol, trades, true, RereadKeys(base, reread));
    var known := RereadKeys(base + all[..j], reread);
    ResumeState(base, symbol, trades, reread, j);
    FreshPrefix(symbol, trades, true, known, a.cut);
    var added := Fresh(symbol, trades[..a.cut], true, known);
    m := WholeBatches(|added|, a.batch);
    PrefixOfRest(base, all, added, j, m);
  }

  lemma WholeBatches(n: nat, batch: nat) returns (m: nat)
    requires batch >= 1
    ensures m == n - n % batch && m <= n
  {
    m := n - n % batch;
    assert n == batch * (n / batch) + n % batch;
  }

  lemma PrefixOfRest<T>(base: seq<T>, all: seq<T>, added: seq<T>, j: nat, m: nat)
    requires j <= |all| && added <= all[j..] && m <= |added|
    ensures j + m <= |all| && base + all[..j] + added[..m] == base + all[..j + m]
  {
  }

  /** Crash-resume equivalence: any attempts followed by one full run store what a single full run stores. */
  lemma CrashResumeEquivalence(base: seq<Row>, symbol: string, trades: seq<Trade>, reread: Stamp -> Fetched,
                               attempts: seq<Attempt>)
    requires ComeBack(Fresh(symbol, trades, true, RereadKeys(base, reread)), reread) && ValidAttempts(attempts, trades)
    ensures FullRun(AfterAttempts(base, symbol, trades, reread, attempts), symbol, trades, true, reread)
            == FullRun(base, symbol, trades, true, reread)
  {
    var k := AttemptsLeavePrefix(base, symbol, trades, reread, attempts);
    ResumeState(base, symbol, trades, reread, k);
    var all := Fresh(symbol, trades, true, RereadKeys(base, reread));
    assert base + all[..k] + all[k..] == base + all;
  }

  /** Every prefix of the inserted rows is what some cut leaves. */
  lemma {:induction false} CutAt(symbol: string, trades: seq<Trade>, known: set<Key>, n: nat) returns (cut: nat)
    requires n <= |Fresh(symbol, trades, true, known)|
    ensures cut <= |trades| && Fresh(symbol, trades[..cut], true, known) == Fresh(symbol, trades, true, known)[..n]
  {
    var all := Fresh(symbol, trades, true, known);
    if n == |all| {
      cut := |trades|;
      assert trades[..cut] == trades && all[..n] == all;
    } else {
      var init := trades[..|trades| - 1];
      cut := CutAt(symbol, init, known, n);
      assert init[..cut] == trades[..cut];
      assert Fresh(symbol, init, true, known)[..n] == all[..n];
    }
  }

  /** The key of a fresh row that comes back under another key is unknown to the next run. */
  lemma LostKey(base: seq<Row>, symbol: string, trades: seq<Trade>, reread: Stamp -> Fetched, k: nat)
    requires k < |Fresh(symbol, trades, true, RereadKeys(base, reread))|
    requires var all := Fresh(symbol, trades, true, RereadKeys(base, reread));
             ComeBack(all[..k], reread) && !ComeBack([all[k]], reread)
    ensures var all := Fresh(symbol, trades, true, RereadKeys(base, reread));
            RowKey(all[k]) !in RereadKeys(base + all[..k + 1], reread)
  {
    var known := RereadKeys(base, reread);
    var all := Fresh(symbol, trades, true, known);
    FreshKeysUnique(symbol, trades, known);
    assert all[..k + 1] == all[..k] + [all[k]];
    RereadKeysConcat(base, all[..k + 1], reread);
    RereadKeysConcat(all[..k], [all[k]], reread);
    forall r | r in all[..k] ensures IngestKey(r.symbol, r.side, reread(r.entry)) != RowKey(all[k]) {
      var i :| 0 <= i < k && all[..k][i] == r;
      assert all[i] == r;
    }
  }

  /** An attempt that dies right after such a row leads to a different table. */
  lemma LostKeyBreaksResume(base: seq<Row>, symbol: string, trades: seq<Trade>, reread: Stamp -> Fetched, k: nat)
    returns (attempts: seq<Attempt>)
    requires k < |Fresh(symbol, trades, true, RereadKeys(base, reread))|
    requires var all := Fresh(symbol, trades, true, RereadKeys(base, reread));
             ComeBack(all[..k], reread) && !ComeBack([all[k]], reread)
    ensures ValidAttempts(attempts, trades)
    ensures FullRun(AfterAttempts(base, symbol, trades, reread, attempts), symbol, trades, true, reread)
            != FullRun(base, symbol, trades, true, reread)
  {
    var known := RereadKeys(base, reread);
    var all := Fresh(symbol, trades, true, known);
    var cut := CutAt(symbol, trades, known, k + 1);
    attempts := [Attempt(cut, 1)];
    var mid := base + all[..k + 1];
    assert attempts[..0] == [];
    assert all[..k + 1][..|all[..k + 1]| - |all[..k + 1]| % 1] == all[..k + 1];
    assert AfterAttempts(base, symbol, trades, reread, attempts) == mid;
    LostKey(base, symbol, trades, reread, k);
    SecondCopy(symbol, trades, known, RereadKeys(mid, reread), k);
    var again := Fresh(symbol, trades, true, RereadKeys(mid, reread));
    SameRest(base, all, again, k + 1);
  }

  lemma SameRest<T>(base: seq<T>, all: seq<T>, rest: seq<T>, n: nat)
    requires n <= |all|
    ensures base + all[..n] + rest == base + all <==> rest == all[n..]
  {
    assert base + all == base + all[..n] + all[n..];
    assert (base + all[..n] + rest)[|base| + n..] == rest;
    assert (base + all)[|base| + n..] == all[n..];
  }

  /** A run that does not know the key of fresh row k inserts a row with that key, which the rows after k lack. */
  lemma SecondCopy(symbol: string, trades: seq<Trade>, known: set<Key>, other: set<Key>, k: nat)
    requires k < |Fresh(symbol, trades, true, known)| && RowKey(Fresh(symbol, trades, true, known)[k]) !in other
    ensures Fresh(symbol, trades, true, other) != Fresh(symbol, trades, true, known)[k + 1..]
  {
    var all, again := Fresh(symbol, trades, true, known), Fresh(symbol, trades, true, other);
    FreshRowsComeFromTrades(symbol, trades, true, known);
    assert all[k] in all;
    var t :| t in trades && t.fault.Sound? && all[k] == RowOf(symbol, t);
    SoundKeysCovered(symbol, trades, other);
    assert RowKey(all[k]) in WrittenKeys(again);
    var r :| r in again && RowKey(r) == RowKey(all[k]);
    FreshKeysUnique(symbol, trades, known);
    forall x | x in all[k + 1..] ensures RowKey(x) != RowKey(all[k]) {
      var i :| 0 <= i < |all| - k - 1 && all[k + 1..][i] == x;
      assert all[k + 1 + i] == x;
    }
    assert r !in all[k + 1..];
  }

  /** The first row that comes back under another key. */
  lemma {:induction false} FirstLost(rows: seq<Row>, reread: Stamp -> Fetched) returns (k: nat)
    requires !ComeBack(rows, reread)
    ensures k < |rows| && ComeBack(rows[..k], reread) && !ComeBack([rows[k]], reread)
  {
    var n := |rows| - 1;
    if ComeBack(rows[..n], reread) {
      k := n;
      assert rows == rows[..n] + [rows[n]];
    } else {
      k := FirstLost(rows[..n], reread);
      assert rows[..n][..k] == rows[..k];
    }
  }

  /** Whatever attempts die, and wherever, one full run then completes the table. */
  ghost predicate Resumes(base: seq<Row>, symbol: string, trades: seq<Trade>, reread: Stamp -> Fetched) {
    forall attempts :: ValidAttempts(attempts, trades) ==>
      FullRun(AfterAttempts(base, symbol, trades, reread, attempts), symbol, trades, true, reread)
      == FullRun(base, symbol, trades, true, reread)
  }

  /** The protocol resumes correctly exactly when every row the ingest has to add comes back under the key it
      is written with. */
  lemma CrashResumeIff(base: seq<Row>, symbol: string, trades: seq<Trade>, reread: Stamp -> Fetched)
    ensures Resumes(base, symbol, trades, reread) <==>
            ComeBack(Fresh(symbol, trades, true, RereadKeys(base, reread)), reread)
  {
    var all := Fresh(symbol, trades, true, RereadKeys(base, reread));
    if ComeBack(all, reread) {
      forall attempts | ValidAttempts(attempts, trades)
        ensures FullRun(AfterAttempts(base, symbol, trades, reread, attempts), symbol, trades, true, reread)
                == FullRun(base, symbol, trades, true, reread)
      {
        CrashResumeEquivalence(base, symbol, trades, reread, attempts);
      }
    } else {
      var k := FirstLost(all, reread);
      var attempts := LostKeyBreaksResume(base, symbol, trades, reread, k);
    }
  }

  /** The rows a run adds carry pairwise different keys, none of them known before. */
  lemma {:induction false} FreshKeysUnique(symbol: string, trades: seq<Trade>, known: set<Key>)
    ensures var all := Fresh(symbol, trades, true, known);
            && (forall i :: 0 <= i < |all| ==> RowKey(all[i]) !in known)
            && (forall i, j :: 0 <= i < j < |all| ==> RowKey(all[i]) != RowKey(all[j]))
  {
    if trades != [] {
      var init := trades[..|trades| - 1];
      FreshKeysUnique(symbol, init, known);
      var before := Fresh(symbol, init, true, known);
      assert forall i :: 0 <= i < |before| ==> before[i] in before && RowKey(before[i]) in WrittenKeys(before);
    }
  }

  /** Every trade of a run ends in exactly one of the three tallies. */
  lemma {:induction false} TalliesAddUp(symbol: string, trades: seq<Trade>, skipExisting: bool, known: set<Key>)
    ensures var run := Run(symbol, trades, skipExisting, known);
            |run.added| + run.skipped + run.errors == |trades|
  {
    if trades != [] {
      TalliesAddUp(symbol, trades[..|trades| - 1], skipExisting, known);
    }
  }

  /** Rerunning a finished ingest adds nothing exactly when the keys of the rows it had to add are among those
      they come back under. */
  lemma RerunAddsNothingIff(base: seq<Row>, symbol: string, trades: seq<Trade>, reread: Stamp -> Fetched)
    ensures var done := FullRun(base, symbol, trades, true, reread);
            var all := Fresh(symbol, trades, true, RereadKeys(base, reread));
            FullRun(done, symbol, trades, true, reread) == done <==> WrittenKeys(all) <= RereadKeys(all, reread)
  {
    var known := RereadKeys(base, reread);
    var all := Fresh(symbol, trades, true, known);
    var done := base + all;
    var again := Fresh(symbol, trades, true, RereadKeys(done, reread));
    RereadKeysConcat(base, all, reread);
    NothingFreshIff(symbol, trades, RereadKeys(done, reread));
    SoundKeysCovered(symbol, trades, known);
    if again == [] { KeysNeedReturn(symbol, trades, known, RereadKeys(all, reread)); }
    assert done + again == done <==> again == [] by {
      assert |done + again| == |done| + |again|;
    }
  }

  lemma KeysNeedReturn(symbol: string, trades: seq<Trade>, known: set<Key>, returned: set<Key>)
    requires forall t :: t in trades && t.fault.Sound? ==> TradeKey(symbol, t) in known + returned
    ensures WrittenKeys(Fresh(symbol, trades, true, known)) <= returned
  {
    var all := Fresh(symbol, trades, true, known);
    FreshKeysUnique(symbol, trades, known);
    FreshRowsComeFromTrades(symbol, trades, true, known);
    forall r | r in all ensures RowKey(r) in returned {
      var i :| 0 <= i < |all| && all[i] == r;
      var t :| t in trades && t.fault.Sound? && r == RowOf(symbol, t);
      assert RowKey(r) == TradeKey(symbol, t);
    }
  }

  /** A store that hands timestamps back as text with a blank between date and time. */
  function SpacedText(t: Stamp): Fetched { Text(t.wall, ' ') }

  /** A store that converts to UTC before handing timestamps back. */
  function InUtc(t: Stamp): Fetched {
    Moment(Stamp(t.wall - (if t.zone.Some? then t.zone.value else 0), Some(0)))
  }

  // ---- What a full run stores, in terms of the trades' own fields ----

  /** Two trades of one symbol are taken for duplicates exactly when side and second agree; offsets do not count.
      Trades of different symbols never are. */
  lemma KeysCollideIff(symbol: string, t: Trade, other: string, u: Trade)
    ensures TradeKey(symbol, t) == TradeKey(other, u) <==>
            symbol == other && t.side == u.side && t.entry.wall == u.entry.wall
  {
  }

  /** Some row has the symbol, side and second. */
  ghost predicate RowAt(rows: seq<Row>, symbol: string, side: string, wall: int) {
    exists r :: r in rows && r.symbol == symbol && r.side == side && r.entry.wall == wall
  }

  /** Some sound trade has the side and second. */
  ghost predicate SoundAt(trades: seq<Trade>, side: string, wall: int) {
    exists t :: t in trades && t.fault.Sound? && t.side == side && t.entry.wall == wall
  }

  lemma SoundAtAppend(trades: seq<Trade>, t: Trade, side: string, wall: int)
    ensures SoundAt(trades + [t], side, wall) <==>
            SoundAt(trades, side, wall) || (t.fault.Sound? && t.side == side && t.entry.wall == wall)
  {
    if u :| u in trades && u.fault.Sound? && u.side == side && u.entry.wall == wall { assert u in trades + [t]; }
    assert t in trades + [t];
  }

  /** The table, or an earlier sound trade, has the side and second of trade t. */
  ghost predicate Seen(base: seq<Row>, symbol: string, earlier: seq<Trade>, t: Trade) {
    RowAt(base, symbol, t.side, t.entry.wall) || SoundAt(earlier, t.side, t.entry.wall)
  }

  /** A row for the first sound trade of every side and second that the table does not have, in order. */
  ghost function Firsts(base: seq<Row>, symbol: string, trades: seq<Trade>): seq<Row> {
    if trades == [] then []
    else
      var n := |trades| - 1;
      var t := trades[n];
      Firsts(base, symbol, trades[..n])
      + if t.fault.Sound? && !Seen(base, symbol, trades[..n], trades[n])
        then [Row(symbol, t.side, t.entry, t.profit > 0.0, t.profit)] else []
  }

  /** Number of trades that fail: malformed before the key check, or after it and not skipped. */
  ghost function Failing(base: seq<Row>, symbol: string, trades: seq<Trade>): nat {
    if trades == [] then 0
    else
      var n := |trades| - 1;
      var f := trades[n].fault;
      Failing(base, symbol, trades[..n])
      + if f.BeforeKeyCheck? || (f.AfterKeyCheck? && !Seen(base, symbol, trades[..n], trades[n])) then 1 else 0
  }

  lemma RowKeyAt(rows: seq<Row>, symbol: string, t: Trade)
    ensures TradeKey(symbol, t) in WrittenKeys(rows) <==> RowAt(rows, symbol, t.side, t.entry.wall)
  {
    if TradeKey(symbol, t) in WrittenKeys(rows) {
      var r :| r in rows && RowKey(r) == TradeKey(symbol, t);
      assert r.symbol == symbol && r.side == t.side && r.entry.wall == t.entry.wall;
    }
    if r :| r in rows && r.symbol == symbol && r.side == t.side && r.entry.wall == t.entry.wall {
      assert RowKey(r) == TradeKey(symbol, t);
    }
  }

  /** A trade's key is known after some trades exactly when it was seen. */
  lemma KnownIffSeen(base: seq<Row>, symbol: string, trades: seq<Trade>, t: Trade)
    ensures TradeKey(symbol, t) in WrittenKeys(base) + WrittenKeys(Fresh(symbol, trades, true, WrittenKeys(base))) <==>
            Seen(base, symbol, trades, t)
  {
    var known := WrittenKeys(base);
    var all := Fresh(symbol, trades, true, known);
    RowKeyAt(base, symbol, t);
    RowKeyAt(all, symbol, t);
    SoundKeysCovered(symbol, trades, known);
    FreshRowsComeFromTrades(symbol, trades, true, known);
    if r :| r in all && r.symbol == symbol && r.side == t.side && r.entry.wall == t.entry.wall {
      var u :| u in trades && u.fault.Sound? && r == RowOf(symbol, u);
      assert SoundAt(trades, t.side, t.entry.wall);
    }
    if u :| u in trades && u.fault.Sound? && u.side == t.side && u.entry.wall == t.entry.wall {
      assert TradeKey(symbol, u) == TradeKey(symbol, t);
    }
  }

  /** Starting out with the keys of the table's rows, a run inserts exactly those rows, and fails that often. */
  lemma {:induction false} RunStoresFirsts(base: seq<Row>, symbol: string, trades: seq<Trade>)
    ensures var run := Run(symbol, trades, true, WrittenKeys(base));
            run.added == Firsts(base, symbol, trades) && run.errors == Failing(base, symbol, trades)
  {
    if trades != [] {
      var n := |trades| - 1;
      RunStoresFirsts(base, symbol, trades[..n]);
      KnownIffSeen(base, symbol, trades[..n], trades[n]);
      assert trades == trades[..n] + [trades[n]];
    }
  }

  /** A store that hands timestamps back as they were written. */
  function AsWritten(t: Stamp): Fetched { Moment(t) }

  /** A full run adds, for every side and second not in the table yet, the row of its first sound trade: into an
      empty table whatever the store returns, and into any table of a store that returns what was written. */
  lemma RunAddsFirsts(base: seq<Row>, symbol: string, trades: seq<Trade>, reread: Stamp -> Fetched)
    ensures base == [] || reread == AsWritten ==>
              var run := Run(symbol, trades, true, Known(base, true, reread));
              run.added == Firsts(base, symbol, trades) && run.errors == Failing(base, symbol, trades)
  {
    RunStoresFirsts(base, symbol, trades);
    assert reread == AsWritten ==> RereadKeys(base, reread) == WrittenKeys(base);
    assert base == [] ==> RereadKeys(base, reread) == WrittenKeys(base);
  }

  function At(side: string, wall: int): Row -> bool { (r: Row) => r.side == side && r.entry.wall == wall }

  /** Exactly one of the added rows has a given side and second if a sound trade has them and no stored row does,
      and none otherwise: nothing is added twice, and no sound trade is lost. */
  lemma {:induction false} FirstsCoverAll(base: seq<Row>, symbol: string, trades: seq<Trade>, side: string, wall: int)
    ensures HowMany(Firsts(base, symbol, trades), At(side, wall))
         == if SoundAt(trades, side, wall) && !RowAt(base, symbol, side, wall) then 1 else 0
  {
    if trades == [] {
      HowManyNone(At(side, wall));
    } else {
      var n := |trades| - 1;
      var init, t := trades[..n], trades[n];
      FirstsCoverAll(base, symbol, init, side, wall);
      assert trades == init + [t];
      SoundAtAppend(init, t, side, wall);
      var row := Row(symbol, t.side, t.entry, t.profit > 0.0, t.profit);
      if t.fault.Sound? && !Seen(base, symbol, init, t) {
        assert Firsts(base, symbol, trades) == Firsts(base, symbol, init) + [row];
        HowManySnoc(Firsts(base, symbol, init), row, At(side, wall));
        assert At(side, wall)(row) <==> t.side == side && t.entry.wall == wall;
      } else {
        assert Firsts(base, symbol, trades) == Firsts(base, symbol, init);
      }
    }
  }

  /** With spaced text the protocol resumes correctly, and a rerun adds nothing, only when there was nothing to
      add; converting to UTC is harmless for resuming exactly when no row to add has a non-zero offset. */
  lemma ResumeOnStores(base: seq<Row>, symbol: string, trades: seq<Trade>)
    ensures var all := Fresh(symbol, trades, true, RereadKeys(base, SpacedText));
            var done := FullRun(base, symbol, trades, true, SpacedText);
            && (Resumes(base, symbol, trades, SpacedText) <==> all == [])
            && (FullRun(done, symbol, trades, true, SpacedText) == done <==> all == [])
    ensures Resumes(base, symbol, trades, InUtc) <==>
            forall r :: r in Fresh(symbol, trades, true, RereadKeys(base, InUtc)) ==>
              r.entry.zone.None? || r.entry.zone.value == 0
  {
    CrashResumeIff(base, symbol, trades, SpacedText);
    CrashResumeIff(base, symbol, trades, InUtc);
    RerunAddsNothingIff(base, symbol, trades, SpacedText);
    var all := Fresh(symbol, trades, true, RereadKeys(base, SpacedText));
    SpacedNeverReturns(all);
    UtcReturnsIff(Fresh(symbol, trades, true, RereadKeys(base, InUtc)));
  }

  lemma SpacedNeverReturns(rows: seq<Row>)
    ensures ComeBack(rows, SpacedText) <==> rows == []
    ensures WrittenKeys(rows) <= RereadKeys(rows, SpacedText) <==> rows == []
  {
    if rows != [] {
      var r := rows[0];
      assert r in rows && IngestKey(r.symbol, r.side, SpacedText(r.entry)) != RowKey(r);
      assert RowKey(r) in WrittenKeys(rows);
      forall x | x in rows ensures IngestKey(x.symbol, x.side, SpacedText(x.entry)) != RowKey(r) {
      }
    }
  }

  lemma UtcReturnsIff(rows: seq<Row>)
    ensures ComeBack(rows, InUtc) <==> forall r :: r in rows ==> r.entry.zone.None? || r.entry.zone.value == 0
  {
    forall r: Row
      ensures IngestKey(r.symbol, r.side, InUtc(r.entry)) == RowKey(r) <==>
              r.entry.zone.None? || r.entry.zone.value == 0
    {
    }
  }
}

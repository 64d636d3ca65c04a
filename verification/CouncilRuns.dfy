/** The bulk lookup of council summaries: three passes over the tables against one declarative rule. */
module CouncilRuns {
  import opened Common

  /** A row of ai_runs, newest first; it may lack a signal id. Absent text is "". */
  datatype RunRow = RunRow(signalId: Option<int>, correlation: string, recommendation: string, confidence: real,
                           votes: string)

  /** A row of pipeline_traces; an absent signal id is 0, which the lookup treats alike. */
  datatype TraceRow = TraceRow(signalId: int, correlation: string)

  /** A stored score column: missing, a number, or something that does not convert. */
  datatype Score = Missing | Number(value: real) | NotANumber

  datatype SignalRow = SignalRow(id: int, score: Score, aiConfidence: Score)

  datatype Summary = Summary(recommendation: string, confidence: real, votes: string, pending: bool, fromScore: bool)

  function LowerChar(c: char): (l: char)
    ensures if 'A' <= c <= 'Z' then 'a' <= l <= 'z' && l as int - 'a' as int == c as int - 'A' as int else l == c
  {
    if 'A' <= c <= 'Z' then (c as int + 32) as char else c
  }

  function Lower(s: string): (r: string)
    ensures |r| == |s| && forall i :: 0 <= i < |s| ==> r[i] == LowerChar(s[i])
  {
    seq(|s|, i requires 0 <= i < |s| => LowerChar(s[i]))
  }

  function RunSummary(row: RunRow): Summary {
    var rec := Lower(if row.recommendation == "" then "allow" else row.recommendation);
    Summary(rec, row.confidence, row.votes, rec == "pending", false)
  }

  predicate IsPending(row: RunRow) { Lower(row.recommendation) == "pending" }

  lemma PendingSummary(row: RunRow)
    ensures RunSummary(row).pending <==> IsPending(row)
  {
    if row.recommendation == "" {
      assert Lower("allow")[0] == 'a';
      assert |Lower("")| == 0;
    }
  }

  type Runs = map<int, Summary>

  /** Keep completed rows ahead of pending placeholders. */
  function Prefer(runs: Runs, sid: int, row: RunRow): Runs {
    if sid in runs && !runs[sid].pending then runs
    else if !RunSummary(row).pending || sid !in runs then runs[sid := RunSummary(row)]
    else runs
  }

  function ScoreSummary(row: SignalRow): Option<Summary> {
    var raw := if row.score.Missing? then row.aiConfidence else row.score;
    match raw
    case Number(v) =>
      var c := RoundHalfEven(v);
      Some(Summary("allow", (if c < 0 then 0 else if c > 100 then 100 else c) as real, "", false, true))
    case _ => None
  }

  /** The summary of a run carries its columns; a blank recommendation counts as "allow", and exactly the
      recommendation "pending", in any case, marks a placeholder. */
  lemma RunSummaryMeaning(row: RunRow)
    ensures var s := RunSummary(row);
            && s.confidence == row.confidence && s.votes == row.votes && !s.fromScore
            && (row.recommendation == "" ==> s.recommendation == "allow")
            && (row.recommendation != "" ==> SameLetters(s.recommendation, row.recommendation))
            && (s.pending <==> SameLetters("pending", row.recommendation))
  {
    LowerIs("allow");
    PendingSummary(row);
    LowerPending(row.recommendation);
  }

  lemma LowerPending(s: string)
    ensures Lower(s) == "pending" <==> SameLetters("pending", s)
  {
    if SameLetters("pending", s) {
      assert Lower(s) == "pending";
    }
  }

  /** `low` is `s` with the letters A to Z in lower case. */
  ghost predicate SameLetters(low: string, s: string) {
    |low| == |s| && forall i :: 0 <= i < |s| ==> low[i] == LowerChar(s[i])
  }

  lemma LowerIs(s: string)
    requires forall i :: 0 <= i < |s| ==> !('A' <= s[i] <= 'Z')
    ensures Lower(s) == s
  {
  }

  /** The number in the columns: the score, or the AI confidence if there is no score. */
  function StoredNumber(row: SignalRow): Option<real> {
    if row.score.Number? then Some(row.score.value)
    else if row.score.Missing? && row.aiConfidence.Number? then Some(row.aiConfidence.value)
    else None
  }

  /** The fallback exists exactly when a number is stored; its confidence is that number, rounded half to even and
      kept within 0 to 100. */
  lemma ScoreSummaryMeaning(row: SignalRow)
    ensures ScoreSummary(row).Some? <==> StoredNumber(row).Some?
    ensures ScoreSummary(row).Some? ==>
              var s, v := ScoreSummary(row).value, StoredNumber(row).value;
              && s.recommendation == "allow" && s.votes == "" && !s.pending && s.fromScore
              && (v < 0.0 ==> s.confidence == 0.0) && (v > 100.0 ==> s.confidence == 100.0)
              && (0.0 <= v <= 100.0 ==> exists n: int :: IsNearest(n, v) && s.confidence == n as real)
  {
    if ScoreSummary(row).Some? {
      var v := StoredNumber(row).value;
      RoundInteger(0);
      RoundInteger(100);
      if v <= 100.0 { RoundMonotone(v, 100.0); } else { RoundMonotone(100.0, v); }
      if v <= 0.0 { RoundMonotone(v, 0.0); } else { RoundMonotone(0.0, v); }
      assert IsNearest(RoundHalfEven(v), v);
    }
  }

  /** Requested ids without a completed summary so far. */
  predicate StillOpen(runs: Runs, sid: int) { sid !in runs || runs[sid].pending }

  function OpenIds(runs: Runs, ids: set<int>): set<int> { set sid | sid in ids && StillOpen(runs, sid) }

  // ---- The queries ----

  predicate Numbered(rows: seq<RunRow>) { forall i :: 0 <= i < |rows| ==> rows[i].signalId.Some? }

  function DirectRows(table: seq<RunRow>, ids: set<int>): (rows: seq<RunRow>)
    ensures Numbered(rows)
  {
    if table == [] then []
    else
      var r := table[|table| - 1];
      DirectRows(table[..|table| - 1], ids) + if r.signalId.Some? && r.signalId.value in ids then [r] else []
  }

  function RowsByCorrelation(table: seq<RunRow>, owner: map<string, int>): seq<RunRow> {
    if table == [] then []
    else
      var r := table[|table| - 1];
      RowsByCorrelation(table[..|table| - 1], owner) + if r.correlation in owner then [r] else []
  }

  /** Which open signal a correlation id belongs to: the last trace naming it decides. */
  function Owners(traces: seq<TraceRow>, open: set<int>): map<string, int> {
    if traces == [] then map[]
    else
      var t := traces[|traces| - 1];
      var before := Owners(traces[..|traces| - 1], open);
      if t.signalId in open && t.correlation != "" && t.signalId != 0 then before[t.correlation := t.signalId]
      else before
  }

  // ---- The passes ----

  function PassOne(rows: seq<RunRow>): Runs
    requires Numbered(rows)
  {
    if rows == [] then map[]
    else Prefer(PassOne(rows[..|rows| - 1]), rows[|rows| - 1].signalId.value, rows[|rows| - 1])
  }

  function PassTwo(runs: Runs, rows: seq<RunRow>, owner: map<string, int>): Runs {
    if rows == [] then runs
    else
      var before, r := PassTwo(runs, rows[..|rows| - 1], owner), rows[|rows| - 1];
      if r.correlation != "" && r.correlation in owner && !IsPending(r)
      then Prefer(before, owner[r.correlation], r)
      else before
  }

  function PassThree(runs: Runs, signals: seq<SignalRow>, open: set<int>): Runs {
    if signals == [] then runs
    else
      var before, s := PassThree(runs, signals[..|signals| - 1], open), signals[|signals| - 1];
      if s.id in open && ScoreSummary(s).Some? then before[s.id := ScoreSummary(s).value] else before
  }

  /** The whole lookup. `tracesOk` is false when a query of the second pass fails, which is swallowed. */
  function Lookup(ids: set<int>, runRows: seq<RunRow>, traces: seq<TraceRow>, signals: seq<SignalRow>,
                  tracesOk: bool): Runs
  {
    var one := PassOne(DirectRows(runRows, ids));
    var owner := Owners(traces, OpenIds(one, ids));
    var two := if tracesOk then PassTwo(one, RowsByCorrelation(runRows, owner), owner) else one;
    PassThree(two, signals, OpenIds(two, ids))
  }

  method GetRunsBulk(ids: seq<int>, runRows: seq<RunRow>, traces: seq<TraceRow>, signals: seq<SignalRow>,
                     tracesOk: bool) returns (runs: Runs)
    ensures runs == Lookup((set i | i in ids), runRows, traces, signals, tracesOk)
  {
    var wanted := set i | i in ids;
    runs := map[];
    var direct := DirectRows(runRows, wanted);
    for i := 0 to |direct|
      invariant runs == PassOne(direct[..i])
    {
      assert direct[..i + 1][..i] == direct[..i];
      runs := Prefer(runs, direct[i].signalId.value, direct[i]);
    }
    assert direct[..|direct|] == direct;

    var missing := OpenIds(runs, wanted);
    if missing != {} && tracesOk {
      runs := AddTraced(runs, runRows, traces, missing);
    } else if tracesOk {
      NoOwners(traces, missing);
      NoRows(runRows);
    }
    runs := FillScores(runs, signals, OpenIds(runs, wanted));
  }

  /** The second pass: which open signal each correlation id belongs to, then the runs with those ids. */
  method AddTraced(given: Runs, runRows: seq<RunRow>, traces: seq<TraceRow>, missing: set<int>) returns (runs: Runs)
    ensures var owner := Owners(traces, missing);
            runs == PassTwo(given, RowsByCorrelation(runRows, owner), owner)
  {
    runs := given;
    var owner: map<string, int> := map[];
    for i := 0 to |traces|
      invariant owner == Owners(traces[..i], missing)
    {
      assert traces[..i + 1][..i] == traces[..i];
      var t := traces[i];
      if t.signalId in missing && t.correlation != "" && t.signalId != 0 {
        owner := owner[t.correlation := t.signalId];
      }
    }
    assert traces[..|traces|] == traces;
    var rows := RowsByCorrelation(runRows, owner);
    for i := 0 to |rows|
      invariant runs == PassTwo(given, rows[..i], owner)
    {
      assert rows[..i + 1][..i] == rows[..i];
      var r := rows[i];
      if r.correlation != "" && r.correlation in owner && !IsPending(r) {
        runs := Prefer(runs, owner[r.correlation], r);
      }
    }
    assert rows[..|rows|] == rows;
  }

  /** The third pass: the score fallback of the signals still open. */
  method FillScores(given: Runs, signals: seq<SignalRow>, open: set<int>) returns (runs: Runs)
    ensures runs == PassThree(given, signals, open)
  {
    runs := given;
    for i := 0 to |signals|
      invariant runs == PassThree(given, signals[..i], open)
    {
      assert signals[..i + 1][..i] == signals[..i];
      var s := signals[i];
      if s.id in open {
        var summary := ScoreSummary(s);
        if summary.Some? { runs := runs[s.id := summary.value]; }
      }
    }
    assert signals[..|signals|] == signals;
  }

  lemma {:induction false} NoOwners(traces: seq<TraceRow>, open: set<int>)
    requires open == {}
    ensures Owners(traces, open) == map[]
  {
    if traces != [] { NoOwners(traces[..|traces| - 1], open); }
  }

  lemma {:induction false} NoRows(table: seq<RunRow>)
    ensures RowsByCorrelation(table, map[]) == []
  {
    if table != [] { NoRows(table[..|table| - 1]); }
  }

  // ---- The declarative rule ----

  /** The first row of a signal that is (or is not) a pending placeholder. */
  function FirstDirect(rows: seq<RunRow>, sid: int, pending: bool): Option<RunRow> {
    if rows == [] then None
    else
      var before, r := FirstDirect(rows[..|rows| - 1], sid, pending), rows[|rows| - 1];
      if before.Some? then before else if r.signalId == Some(sid) && IsPending(r) == pending then Some(r) else None
  }

  /** The signal a correlation id leads to: the last trace that names it, among those of signals without a
      completed direct run. */
  function TraceOwner(traces: seq<TraceRow>, correlation: string, open: set<int>): Option<int> {
    if traces == [] then None
    else
      var t := traces[|traces| - 1];
      if t.correlation == correlation && t.correlation != "" && t.signalId in open && t.signalId != 0
      then Some(t.signalId)
      else TraceOwner(traces[..|traces| - 1], correlation, open)
  }

  /** The first completed run that leads to the signal by its correlation id. */
  function FirstTraced(rows: seq<RunRow>, traces: seq<TraceRow>, sid: int, open: set<int>): Option<RunRow> {
    if rows == [] then None
    else
      var before, r := FirstTraced(rows[..|rows| - 1], traces, sid, open), rows[|rows| - 1];
      if before.Some? then before
      else if !IsPending(r) && TraceOwner(traces, r.correlation, open) == Some(sid) then Some(r) else None
  }

  /** The stored score of a signal, if it has one. */
  function StoredScore(signals: seq<SignalRow>, sid: int): Option<Summary> {
    if signals == [] then None
    else
      var s := signals[|signals| - 1];
      if s.id == sid && ScoreSummary(s).Some? then ScoreSummary(s) else StoredScore(signals[..|signals| - 1], sid)
  }

  function Undecided(ids: set<int>, runRows: seq<RunRow>): set<int> {
    set sid | sid in ids && FirstDirect(runRows, sid, false).None?
  }

  /** First completed direct run; else first completed run via its trace; else the stored score; else the
      first pending direct run; else absent. */
  function Rule(sid: int, ids: set<int>, runRows: seq<RunRow>, traces: seq<TraceRow>, signals: seq<SignalRow>,
                tracesOk: bool): Option<Summary>
  {
    var complete := FirstDirect(runRows, sid, false);
    var traced := FirstTraced(runRows, traces, sid, Undecided(ids, runRows));
    var pending := FirstDirect(runRows, sid, true);
    if complete.Some? then Some(RunSummary(complete.value))
    else if tracesOk && traced.Some? then Some(RunSummary(traced.value))
    else if StoredScore(signals, sid).Some? then StoredScore(signals, sid)
    else if pending.Some? then Some(RunSummary(pending.value))
    else None
  }

  function At(runs: Runs, sid: int): Option<Summary> { if sid in runs then Some(runs[sid]) else None }

  /** First completed direct run, else first pending one. */
  function Direct(rows: seq<RunRow>, sid: int): Option<Summary> {
    var complete, pending := FirstDirect(rows, sid, false), FirstDirect(rows, sid, true);
    if complete.Some? then Some(RunSummary(complete.value))
    else if pending.Some? then Some(RunSummary(pending.value)) else None
  }

  lemma {:induction false} FirstDirectIs(rows: seq<RunRow>, sid: int, pending: bool)
    ensures FirstDirect(rows, sid, pending).Some? ==>
              RunSummary(FirstDirect(rows, sid, pending).value).pending == pending
  {
    if rows != [] {
      FirstDirectIs(rows[..|rows| - 1], sid, pending);
      PendingSummary(rows[|rows| - 1]);
    }
  }

  lemma {:induction false} PassOneSnoc(rows: seq<RunRow>, r: RunRow)
    requires Numbered(rows) && r.signalId.Some?
    ensures Numbered(rows + [r]) && PassOne(rows + [r]) == Prefer(PassOne(rows), r.signalId.value, r)
  {
    assert (rows + [r])[..|rows|] == rows;
  }

  /** What one more row makes of a signal's summary. */
  function AfterRow(before: Option<Summary>, r: RunRow, sid: int): Option<Summary> {
    if r.signalId == Some(sid) && (before.None? || (before.value.pending && !RunSummary(r).pending))
    then Some(RunSummary(r)) else before
  }

  lemma PreferAt(runs: Runs, r: RunRow, sid: int)
    requires r.signalId.Some?
    ensures At(Prefer(runs, r.signalId.value, r), sid) == AfterRow(At(runs, sid), r, sid)
  {
  }

  /** One more row: it decides if nothing completed is there yet and it is completed, or nothing is there at all. */
  lemma {:induction false} DirectSnoc(rows: seq<RunRow>, r: RunRow, sid: int)
    ensures Direct(rows + [r], sid) == AfterRow(Direct(rows, sid), r, sid)
  {
    assert (rows + [r])[..|rows|] == rows;
    FirstDirectIs(rows, sid, false);
    FirstDirectIs(rows, sid, true);
    PendingSummary(r);
  }

  /** What the first pass leaves for a signal. */
  lemma PassOneMeaning(table: seq<RunRow>, ids: set<int>, sid: int)
    ensures At(PassOne(DirectRows(table, ids)), sid) == if sid in ids then Direct(table, sid) else None
  {
    PassOneIsDirect(table, ids, sid);
  }

  ghost predicate LeavesDirect(table: seq<RunRow>, ids: set<int>, sid: int) {
    At(PassOne(DirectRows(table, ids)), sid) == if sid in ids then Direct(table, sid) else None
  }

  lemma {:induction false} PassOneIsDirect(table: seq<RunRow>, ids: set<int>, sid: int)
    ensures LeavesDirect(table, ids, sid)
  {
    if table == [] {
      PassOneOfNothing(ids, sid);
    } else {
      var init, r := table[..|table| - 1], table[|table| - 1];
      PassOneIsDirect(init, ids, sid);
      PassOneGrows(init, r, ids, sid);
      assert table == init + [r];
    }
  }

  lemma PassOneOfNothing(ids: set<int>, sid: int)
    ensures LeavesDirect([], ids, sid)
  {
  }

  lemma {:induction false} PassOneGrows(table: seq<RunRow>, r: RunRow, ids: set<int>, sid: int)
    requires LeavesDirect(table, ids, sid)
    ensures LeavesDirect(table + [r], ids, sid)
  {
    var rows := DirectRows(table, ids);
    DirectSnoc(table, r, sid);
    assert (table + [r])[..|table|] == table;
    if r.signalId.Some? && r.signalId.value in ids {
      assert DirectRows(table + [r], ids) == rows + [r];
      PassOneSnoc(rows, r);
      PreferAt(PassOne(rows), r, sid);
    } else {
      assert DirectRows(table + [r], ids) == rows;
    }
  }

  lemma {:induction false} OwnersMeaning(traces: seq<TraceRow>, open: set<int>, correlation: string)
    ensures var owner := Owners(traces, open);
            TraceOwner(traces, correlation, open)
            == if correlation in owner then Some(owner[correlation]) else None
    ensures correlation in Owners(traces, open) ==> correlation != "" && Owners(traces, open)[correlation] in open
  {
    if traces != [] { OwnersMeaning(traces[..|traces| - 1], open, correlation); }
  }

  /** What the second pass adds: the first completed traced run of each signal still open, nothing else. */
  lemma {:induction false} PassTwoMeaning(runs: Runs, table: seq<RunRow>, traces: seq<TraceRow>, open: set<int>,
                                          sid: int)
    requires forall s :: s in open ==> StillOpen(runs, s)
    ensures var owner := Owners(traces, open);
            var traced := FirstTraced(table, traces, sid, open);
            At(PassTwo(runs, RowsByCorrelation(table, owner), owner), sid)
            == if traced.Some? then Some(RunSummary(traced.value)) else At(runs, sid)
    ensures FirstTraced(table, traces, sid, open).Some? ==>
              sid in open && !RunSummary(FirstTraced(table, traces, sid, open).value).pending
  {
    if table != [] {
      var init, r := table[..|table| - 1], table[|table| - 1];
      var owner := Owners(traces, open);
      PassTwoMeaning(runs, init, traces, open, sid);
      PendingSummary(r);
      OwnersMeaning(traces, open, r.correlation);
      if r.correlation in owner {
        var rows := RowsByCorrelation(init, owner);
        assert (rows + [r])[..|rows|] == rows;
      } else {
        assert RowsByCorrelation(table, owner) == RowsByCorrelation(init, owner);
      }
    }
  }

  lemma {:induction false} PassThreeMeaning(runs: Runs, signals: seq<SignalRow>, open: set<int>, sid: int)
    ensures var score := StoredScore(signals, sid);
            At(PassThree(runs, signals, open), sid) == if sid in open && score.Some? then score else At(runs, sid)
  {
    if signals != [] { PassThreeMeaning(runs, signals[..|signals| - 1], open, sid); }
  }

  /** The direct result is a completed one exactly when some direct run is completed. */
  lemma DirectIsCompleted(rows: seq<RunRow>, sid: int)
    ensures var direct := Direct(rows, sid);
            FirstDirect(rows, sid, false).Some? <==> direct.Some? && !direct.value.pending
  {
    FirstDirectIs(rows, sid, false);
    FirstDirectIs(rows, sid, true);
  }

  lemma OpenIsUndecided(ids: set<int>, runRows: seq<RunRow>)
    ensures OpenIds(PassOne(DirectRows(runRows, ids)), ids) == Undecided(ids, runRows)
  {
    forall sid | sid in ids
      ensures sid in OpenIds(PassOne(DirectRows(runRows, ids)), ids) <==> sid in Undecided(ids, runRows)
    {
      PassOneMeaning(runRows, ids, sid);
      DirectIsCompleted(runRows, sid);
    }
  }

  /** The three passes compute the rule for every requested signal, and nothing for any other. */
  lemma LookupIsRule(ids: set<int>, runRows: seq<RunRow>, traces: seq<TraceRow>, signals: seq<SignalRow>,
                     tracesOk: bool, sid: int)
    ensures At(Lookup(ids, runRows, traces, signals, tracesOk), sid)
            == if sid in ids then Rule(sid, ids, runRows, traces, signals, tracesOk) else None
  {
    var one := PassOne(DirectRows(runRows, ids));
    var open := OpenIds(one, ids);
    var owner := Owners(traces, open);
    OpenIsUndecided(ids, runRows);
    PassOneMeaning(runRows, ids, sid);
    DirectIsCompleted(runRows, sid);
    PassTwoMeaning(one, runRows, traces, open, sid);
    var two := if tracesOk then PassTwo(one, RowsByCorrelation(runRows, owner), owner) else one;
    PassThreeMeaning(two, signals, OpenIds(two, ids), sid);
  }

  /** A completed entry is never overwritten by a later pass. */
  lemma CompletedKept(runs: Runs, table: seq<RunRow>, traces: seq<TraceRow>, signals: seq<SignalRow>, ids: set<int>,
                      sid: int)
    requires sid in runs && !runs[sid].pending
    ensures var owner := Owners(traces, OpenIds(runs, ids));
            var two := PassTwo(runs, RowsByCorrelation(table, owner), owner);
            && At(two, sid) == At(runs, sid)
            && At(PassThree(two, signals, OpenIds(two, ids)), sid) == At(runs, sid)
  {
    var open := OpenIds(runs, ids);
    PassTwoMeaning(runs, table, traces, open, sid);
    var owner := Owners(traces, open);
    var two := PassTwo(runs, RowsByCorrelation(table, owner), owner);
    PassThreeMeaning(two, signals, OpenIds(two, ids), sid);
  }
}

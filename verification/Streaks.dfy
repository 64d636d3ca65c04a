/** Win/loss streaks of the analytics endpoint and losing streaks of the account endpoint. */
module Streaks {
  import opened Common

  datatype Kind = Win | Loss

  datatype Signal = Signal(pnl: real, created: string)

  function KindOf(pnl: real): (k: Option<Kind>)
    ensures (k == Some(Win) <==> pnl > 0.0) && (k == Some(Loss) <==> pnl < 0.0)
  {
    if pnl > 0.0 then Some(Win) else if pnl < 0.0 then Some(Loss) else None
  }

  /** A streak in progress or finished; its exact PnL, not yet rounded. */
  datatype Run = Run(kind: Kind, count: nat, pnl: real, start: string)

  /** Extend the last run or open a new one. */
  function Extend(runs: seq<Run>, k: Kind, s: Signal): seq<Run> {
    var n := |runs|;
    if n > 0 && runs[n - 1].kind == k
    then runs[..n - 1] + [runs[n - 1].(count := runs[n - 1].count + 1, pnl := runs[n - 1].pnl + s.pnl)]
    else runs + [Run(k, 1, s.pnl, s.created)]
  }

  /** All runs of equal non-zero sign, zeros skipped. */
  function RunsOf(signals: seq<Signal>): seq<Run> {
    if signals == [] then []
    else
      var runs, s := RunsOf(signals[..|signals| - 1]), signals[|signals| - 1];
      match KindOf(s.pnl)
      case None => runs
      case Some(k) => Extend(runs, k, s)
  }

  datatype Streak = Streak(kind: Kind, count: nat, pnl: real, start: string, end: string)

  /** What has been reported so far. */
  datatype Tally = Tally(streaks: seq<Streak>, maxWin: nat, maxLoss: nat)

  function Report(r: Run, end: string): Streak { Streak(r.kind, r.count, Round2(r.pnl), r.start, end) }

  function Larger(a: nat, b: nat): nat { if a < b then b else a }

  /** Report a finished run. */
  function Save(t: Tally, r: Run, end: string): Tally {
    Tally(t.streaks + [Report(r, end)],
          if r.kind.Win? then Larger(t.maxWin, r.count) else t.maxWin,
          if r.kind.Loss? then Larger(t.maxLoss, r.count) else t.maxLoss)
  }

  /** Report all runs. A run's end date is the start of the next one; the last one's is `lastDate`. */
  function TallyOf(runs: seq<Run>, lastDate: string): Tally {
    if runs == [] then Tally([], 0, 0)
    else
      var r := runs[|runs| - 1];
      Save(TallyOf(runs[..|runs| - 1], r.start), r, lastDate)
  }

  datatype Response = Response(maxWin: nat, maxLoss: nat, current: nat, currentKind: Option<Kind>, streaks: seq<Streak>)

  function LastFifty(s: seq<Streak>): seq<Streak> { if |s| > 50 then s[|s| - 50..] else s }

  function LastDate(signals: seq<Signal>): string {
    if signals == [] then "" else signals[|signals| - 1].created
  }

  function Respond(runs: seq<Run>, lastDate: string): Response {
    var t := TallyOf(runs, lastDate);
    var current := if runs == [] then 0 else runs[|runs| - 1].count;
    var kind := if runs == [] then None else Some(runs[|runs| - 1].kind);
    Response(t.maxWin, t.maxLoss, current, kind, LastFifty(t.streaks))
  }

  /** The loop's state: what is reported and the run in progress
      (current_type, current_count, current_pnl and streak_start). */
  datatype Scanner = Scanner(t: Tally, open: Option<Run>)

  function Scan1(sc: Scanner, s: Signal): Scanner {
    match KindOf(s.pnl)
    case None => sc
    case Some(k) =>
      if sc.open.Some? && sc.open.value.kind == k then
        var r := sc.open.value;
        sc.(open := Some(r.(count := r.count + 1, pnl := r.pnl + s.pnl)))
      else
        Scanner(if sc.open.Some? then Save(sc.t, sc.open.value, s.created) else sc.t,
                Some(Run(k, 1, s.pnl, s.created)))
  }

  function ScanAll(signals: seq<Signal>): Scanner {
    if signals == [] then Scanner(Tally([], 0, 0), None)
    else Scan1(ScanAll(signals[..|signals| - 1]), signals[|signals| - 1])
  }

  method GetStreaks(signals: seq<Signal>) returns (r: Response)
    ensures r == Respond(RunsOf(signals), LastDate(signals))
    ensures Answers(r, RunsOf(signals), if signals == [] then "" else signals[|signals| - 1].created)
  {
    var t := Tally([], 0, 0);
    var open: Option<Run> := None;
    for i := 0 to |signals|
      invariant Scanner(t, open) == ScanAll(signals[..i])
    {
      assert signals[..i + 1][..i] == signals[..i];
      var s := signals[i];
      var kind := KindOf(s.pnl);
      if kind.None? { continue; }
      if open.Some? && kind.value == open.value.kind {
        open := Some(open.value.(count := open.value.count + 1, pnl := open.value.pnl + s.pnl));
      } else {
        if open.Some? { t := Save(t, open.value, s.created); }
        open := Some(Run(kind.value, 1, s.pnl, s.created));
      }
    }
    assert signals[..|signals|] == signals;
    ScannerMeaning(signals);
    FinishedTally(Scanner(t, open), RunsOf(signals), LastDate(signals));
    if open.Some? { t := Save(t, open.value, LastDate(signals)); }
    r := Response(t.maxWin, t.maxLoss, if open.Some? then open.value.count else 0,
                  if open.Some? then Some(open.value.kind) else None, LastFifty(t.streaks));
    RespondMeaning(RunsOf(signals), LastDate(signals));
  }

  /** The streak reports run j; it ends where the next run starts, the last one at `lastDate`. */
  ghost predicate ReportsRun(s: Streak, runs: seq<Run>, j: int, lastDate: string)
    requires 0 <= j < |runs|
  {
    && s.kind == runs[j].kind && s.count == runs[j].count && s.pnl == Round2(runs[j].pnl)
    && s.start == runs[j].start && s.end == if j + 1 < |runs| then runs[j + 1].start else lastDate
  }

  /** The longest run of each kind, the last run as the current one, and the last fifty runs in order. */
  ghost predicate Answers(r: Response, runs: seq<Run>, lastDate: string) {
    && IsLongest(r.maxWin, Win, runs) && IsLongest(r.maxLoss, Loss, runs)
    && r.current == (if runs == [] then 0 else runs[|runs| - 1].count)
    && r.currentKind == (if runs == [] then None else Some(runs[|runs| - 1].kind))
    && |r.streaks| == (if |runs| < 50 then |runs| else 50)
    && forall i :: 0 <= i < |r.streaks| ==> ReportsRun(r.streaks[i], runs, |runs| - |r.streaks| + i, lastDate)
  }

  /** Every run is reported, in order. */
  ghost predicate ReportsAll(streaks: seq<Streak>, runs: seq<Run>, lastDate: string) {
    |streaks| == |runs| && forall i :: 0 <= i < |streaks| ==> ReportsRun(streaks[i], runs, i, lastDate)
  }

  lemma LastFiftyReported(streaks: seq<Streak>, runs: seq<Run>, lastDate: string)
    requires ReportsAll(streaks, runs, lastDate)
    ensures var last := LastFifty(streaks);
            && |last| == (if |runs| < 50 then |runs| else 50)
            && forall i :: 0 <= i < |last| ==> ReportsRun(last[i], runs, |runs| - |last| + i, lastDate)
  {
    var last := LastFifty(streaks);
    forall i | 0 <= i < |last| ensures ReportsRun(last[i], runs, |runs| - |last| + i, lastDate) {
      assert last[i] == streaks[|runs| - |last| + i];
    }
  }

  lemma RespondMeaning(runs: seq<Run>, lastDate: string)
    ensures Answers(Respond(runs, lastDate), runs, lastDate)
  {
    TallyMeaning(runs, lastDate);
    LastFiftyReported(TallyOf(runs, lastDate).streaks, runs, lastDate);
  }

  /** The run in progress is the last of the runs so far, and all others are reported. */
  ghost predicate Tracks(sc: Scanner, runs: seq<Run>) {
    if runs == [] then sc == Scanner(Tally([], 0, 0), None)
    else
      var r := runs[|runs| - 1];
      sc == Scanner(TallyOf(runs[..|runs| - 1], r.start), Some(r))
  }

  lemma FinishedTally(sc: Scanner, runs: seq<Run>, lastDate: string)
    requires Tracks(sc, runs)
    ensures TallyOf(runs, lastDate) == if sc.open.Some? then Save(sc.t, sc.open.value, lastDate) else sc.t
    ensures sc.open == if runs == [] then None else Some(runs[|runs| - 1])
  {
  }

  lemma {:induction false} ScannerMeaning(signals: seq<Signal>)
    ensures Tracks(ScanAll(signals), RunsOf(signals))
  {
    if signals != [] {
      var init, s := signals[..|signals| - 1], signals[|signals| - 1];
      ScannerMeaning(init);
      if KindOf(s.pnl).Some? { TracksStep(ScanAll(init), RunsOf(init), s); }
    }
  }

  lemma {:induction false} TracksStep(sc: Scanner, runs: seq<Run>, s: Signal)
    requires Tracks(sc, runs) && KindOf(s.pnl).Some?
    ensures Tracks(Scan1(sc, s), Extend(runs, KindOf(s.pnl).value, s))
  {
    var n, runs' := |runs|, Extend(runs, KindOf(s.pnl).value, s);
    if n > 0 && runs[n - 1].kind == KindOf(s.pnl).value {
      assert runs'[..n - 1] == runs[..n - 1];
    } else {
      assert runs'[..n] == runs;
    }
  }

  // ---- Run-length encoding ----

  function NonZero(signals: seq<Signal>): seq<Signal> {
    if signals == [] then []
    else
      var init, s := NonZero(signals[..|signals| - 1]), signals[|signals| - 1];
      if KindOf(s.pnl).Some? then init + [s] else init
  }

  function TotalPnl(signals: seq<Signal>): real {
    if signals == [] then 0.0 else TotalPnl(signals[..|signals| - 1]) + signals[|signals| - 1].pnl
  }

  /** Run r is made of exactly these signals. */
  ghost predicate IsRun(r: Run, part: seq<Signal>) {
    && part != [] && r.count == |part| && r.pnl == TotalPnl(part) && r.start == part[0].created
    && forall i :: 0 <= i < |part| ==> KindOf(part[i].pnl) == Some(r.kind)
  }

  /** `runs` cuts the non-zero signals into consecutive parts of one sign, neighbours differing in sign. */
  ghost predicate Encodes(runs: seq<Run>, nz: seq<Signal>) {
    if runs == [] then nz == []
    else
      var r, before := runs[|runs| - 1], runs[..|runs| - 1];
      && r.count <= |nz|
      && IsRun(r, nz[|nz| - r.count..])
      && Encodes(before, nz[..|nz| - r.count])
      && (before != [] ==> before[|before| - 1].kind != r.kind)
  }

  /** The single pass computes a run-length encoding of the non-zero PnL signs. */
  lemma {:induction false} RunsEncode(signals: seq<Signal>)
    ensures Encodes(RunsOf(signals), NonZero(signals))
  {
    if signals != [] {
      var init, s := signals[..|signals| - 1], signals[|signals| - 1];
      RunsEncode(init);
      if KindOf(s.pnl).Some? {
        ExtendEncodes(RunsOf(init), NonZero(init), s);
      }
    }
  }

  lemma {:induction false} ExtendEncodes(runs: seq<Run>, nz: seq<Signal>, s: Signal)
    requires Encodes(runs, nz) && KindOf(s.pnl).Some?
    ensures Encodes(Extend(runs, KindOf(s.pnl).value, s), nz + [s])
  {
    var k, n := KindOf(s.pnl).value, |runs|;
    if n > 0 && runs[n - 1].kind == k {
      var r := runs[n - 1];
      assert nz == nz[..|nz| - r.count] + nz[|nz| - r.count..];
      GrowEncodes(runs[..n - 1], r, nz[..|nz| - r.count], nz[|nz| - r.count..], s);
    } else {
      OpenEncodes(runs, nz, s);
    }
  }

  lemma {:induction false} IsRunGrows(r: Run, part: seq<Signal>, s: Signal)
    requires IsRun(r, part) && KindOf(s.pnl) == Some(r.kind)
    ensures IsRun(r.(count := r.count + 1, pnl := r.pnl + s.pnl), part + [s])
  {
    assert (part + [s])[..|part|] == part;
  }

  lemma {:induction false} EncodesSnoc(before: seq<Run>, r: Run, rest: seq<Signal>, part: seq<Signal>)
    requires Encodes(before, rest) && IsRun(r, part)
    requires before != [] ==> before[|before| - 1].kind != r.kind
    ensures Encodes(before + [r], rest + part)
  {
    var runs, nz := before + [r], rest + part;
    assert runs[..|runs| - 1] == before && runs[|runs| - 1] == r;
    assert nz[|nz| - r.count..] == part && nz[..|nz| - r.count] == rest;
  }

  lemma {:induction false} GrowEncodes(before: seq<Run>, r: Run, rest: seq<Signal>, part: seq<Signal>, s: Signal)
    requires Encodes(before, rest) && IsRun(r, part) && KindOf(s.pnl) == Some(r.kind)
    requires before != [] ==> before[|before| - 1].kind != r.kind
    ensures Encodes(before + [r.(count := r.count + 1, pnl := r.pnl + s.pnl)], (rest + part) + [s])
  {
    IsRunGrows(r, part, s);
    EncodesSnoc(before, r.(count := r.count + 1, pnl := r.pnl + s.pnl), rest, part + [s]);
    assert (rest + part) + [s] == rest + (part + [s]);
  }

  lemma {:induction false} OpenEncodes(runs: seq<Run>, nz: seq<Signal>, s: Signal)
    requires Encodes(runs, nz) && KindOf(s.pnl).Some?
    requires runs != [] ==> runs[|runs| - 1].kind != KindOf(s.pnl).value
    ensures Encodes(runs + [Run(KindOf(s.pnl).value, 1, s.pnl, s.created)], nz + [s])
  {
    var r := Run(KindOf(s.pnl).value, 1, s.pnl, s.created);
    assert [s][..0] == [] && TotalPnl([s]) == TotalPnl([]) + s.pnl;
    assert IsRun(r, [s]);
    EncodesSnoc(runs, r, nz, [s]);
  }

  /** There is only one such encoding, so the pass computes the maximal runs. */
  lemma {:induction false} EncodingUnique(a: seq<Run>, b: seq<Run>, nz: seq<Signal>)
    requires Encodes(a, nz) && Encodes(b, nz)
    ensures a == b
  {
    if a != [] && b != [] {
      LastRunNotShorter(a, b, nz);
      LastRunNotShorter(b, a, nz);
      var r, r' := a[|a| - 1], b[|b| - 1];
      LastKind(a, nz);
      LastKind(b, nz);
      assert r == r';
      EncodingUnique(a[..|a| - 1], b[..|b| - 1], nz[..|nz| - r.count]);
      assert a == a[..|a| - 1] + [r] && b == b[..|b| - 1] + [r];
    }
  }

  lemma LastKind(runs: seq<Run>, nz: seq<Signal>)
    requires Encodes(runs, nz) && runs != []
    ensures nz != [] && KindOf(nz[|nz| - 1].pnl) == Some(runs[|runs| - 1].kind)
  {
    var r := runs[|runs| - 1];
    var part := nz[|nz| - r.count..];
    assert part[|part| - 1] == nz[|nz| - 1];
  }

  lemma LastRunNotShorter(a: seq<Run>, b: seq<Run>, nz: seq<Signal>)
    requires Encodes(a, nz) && Encodes(b, nz) && a != [] && b != []
    ensures a[|a| - 1].count >= b[|b| - 1].count
  {
    var r, r' := a[|a| - 1], b[|b| - 1];
    LastKind(a, nz);
    LastKind(b, nz);
    var before, rest := a[..|a| - 1], nz[..|nz| - r.count];
    if before != [] {
      LastKind(before, rest);
      assert rest[|rest| - 1] == nz[|rest| - 1];
      KindInside(b, nz, |rest| - 1);
    }
  }

  lemma KindInside(runs: seq<Run>, nz: seq<Signal>, i: nat)
    requires Encodes(runs, nz) && runs != [] && i < |nz|
    ensures var r := runs[|runs| - 1];
            i >= |nz| - r.count ==> KindOf(nz[i].pnl) == Some(r.kind)
  {
    var r := runs[|runs| - 1];
    var part := nz[|nz| - r.count..];
    if i >= |nz| - r.count { assert part[i - (|nz| - r.count)] == nz[i]; }
  }

  /** The unrounded run totals add up to the total PnL of all signals, zeros included. */
  lemma {:induction false} RunTotalsAddUp(signals: seq<Signal>)
    ensures RunTotal(RunsOf(signals)) == TotalPnl(signals)
  {
    if signals != [] {
      var init, s := signals[..|signals| - 1], signals[|signals| - 1];
      RunTotalsAddUp(init);
      if KindOf(s.pnl).Some? {
        var runs := RunsOf(init);
        var runs' := Extend(runs, KindOf(s.pnl).value, s);
        if |runs| == |runs'| {
          assert runs'[..|runs| - 1] == runs[..|runs| - 1];
        } else {
          assert runs'[..|runs|] == runs;
        }
      }
    }
  }

  function RunTotal(runs: seq<Run>): real {
    if runs == [] then 0.0 else RunTotal(runs[..|runs| - 1]) + runs[|runs| - 1].pnl
  }

  /** `m` is the length of the longest run of kind k, zero if there is none. */
  ghost predicate IsLongest(m: nat, k: Kind, runs: seq<Run>) {
    && (forall i :: 0 <= i < |runs| && runs[i].kind == k ==> runs[i].count <= m)
    && (m == 0 || exists i :: 0 <= i < |runs| && runs[i].kind == k && runs[i].count == m)
  }

  /** What is reported: every run in order with the right end date, and the longest run of each kind. */
  lemma TallyMeaning(runs: seq<Run>, lastDate: string)
    ensures var t := TallyOf(runs, lastDate);
            && ReportsAll(t.streaks, runs, lastDate)
            && IsLongest(t.maxWin, Win, runs) && IsLongest(t.maxLoss, Loss, runs)
  {
    AllReported(runs, lastDate);
    LongestReported(runs, lastDate);
  }

  lemma {:induction false} AllReported(runs: seq<Run>, lastDate: string)
    ensures ReportsAll(TallyOf(runs, lastDate).streaks, runs, lastDate)
  {
    if runs != [] {
      var init, r := runs[..|runs| - 1], runs[|runs| - 1];
      AllReported(init, r.start);
      OneMoreReported(TallyOf(init, r.start).streaks, init, r, runs, lastDate);
    }
  }

  lemma OneMoreReported(streaks: seq<Streak>, runs: seq<Run>, r: Run, more: seq<Run>, lastDate: string)
    requires ReportsAll(streaks, runs, r.start) && more == runs + [r]
    ensures ReportsAll(streaks + [Report(r, lastDate)], more, lastDate)
  {
    var all := streaks + [Report(r, lastDate)];
    forall i | 0 <= i < |all| ensures ReportsRun(all[i], more, i, lastDate) {
      if i < |runs| { assert ReportsRun(streaks[i], runs, i, r.start); }
    }
  }

  lemma {:induction false} LongestReported(runs: seq<Run>, lastDate: string)
    ensures IsLongest(TallyOf(runs, lastDate).maxWin, Win, runs)
    ensures IsLongest(TallyOf(runs, lastDate).maxLoss, Loss, runs)
  {
    if runs != [] {
      var init, r := runs[..|runs| - 1], runs[|runs| - 1];
      LongestReported(init, r.start);
      assert runs == init + [r];
      LongestExtends(TallyOf(init, r.start).maxWin, Win, init, r);
      LongestExtends(TallyOf(init, r.start).maxLoss, Loss, init, r);
    }
  }

  lemma LongestExtends(m: nat, k: Kind, runs: seq<Run>, r: Run)
    requires IsLongest(m, k, runs)
    ensures IsLongest(if r.kind == k then Larger(m, r.count) else m, k, runs + [r])
  {
    var runs' := runs + [r];
    if r.kind == k && m < r.count {
      assert runs'[|runs|] == r;
    } else if m > 0 {
      var i :| 0 <= i < |runs| && runs[i].kind == k && runs[i].count == m;
      assert runs'[i] == runs[i];
    }
  }

  // ---- Losing streaks of one account ----

  datatype Trade = Trade(symbol: string, pnl: real, exit: string)

  datatype LosingStreak = LosingStreak(start: string, end: string, length: nat, totalLoss: real,
                                       symbols: seq<string>, active: bool)

  /** A half-open range of trade indices. */
  datatype Span = Span(lo: nat, hi: nat)

  /** All maximal stretches of losing trades. */
  function LossSpans(trades: seq<Trade>): (spans: seq<Span>)
    ensures forall i :: 0 <= i < |spans| ==> spans[i].lo < spans[i].hi <= |trades|
  {
    if trades == [] then []
    else
      var n := |trades| - 1;
      var spans := LossSpans(trades[..n]);
      if trades[n].pnl >= 0.0 then spans
      else if spans != [] && spans[|spans| - 1].hi == n then spans[|spans| - 1 := Span(spans[|spans| - 1].lo, n + 1)]
      else spans + [Span(n, n + 1)]
  }

  ghost predicate MaximalLoss(trades: seq<Trade>, lo: nat, hi: nat) {
    && lo < hi <= |trades|
    && (forall i :: lo <= i < hi ==> trades[i].pnl < 0.0)
    && (lo > 0 ==> trades[lo - 1].pnl >= 0.0)
    && (hi < |trades| ==> trades[hi].pnl >= 0.0)
  }

  ghost predicate Ordered(spans: seq<Span>) {
    forall i, j :: 0 <= i < j < |spans| ==> spans[i].hi < spans[j].lo
  }

  ghost predicate ListsMaximal(spans: seq<Span>, trades: seq<Trade>) {
    forall lo: nat, hi: nat :: Span(lo, hi) in spans <==> MaximalLoss(trades, lo, hi)
  }

  lemma {:induction false} LossSpansOrdered(trades: seq<Trade>)
    ensures Ordered(LossSpans(trades))
  {
    if trades != [] {
      LossSpansOrdered(trades[..|trades| - 1]);
    }
  }

  /** The spans are exactly the maximal losing stretches, in order of time. */
  lemma {:induction false} LossSpansAreMaximal(trades: seq<Trade>)
    ensures Ordered(LossSpans(trades)) && ListsMaximal(LossSpans(trades), trades)
  {
    LossSpansOrdered(trades);
    if trades != [] {
      LossSpansAreMaximal(trades[..|trades| - 1]);
      forall lo: nat, hi: nat ensures Span(lo, hi) in LossSpans(trades) <==> MaximalLoss(trades, lo, hi) {
        SpanStep(trades, lo, hi);
      }
    }
  }

  lemma {:induction false} SpanStep(trades: seq<Trade>, lo: nat, hi: nat)
    requires trades != []
    requires var init := trades[..|trades| - 1];
             Ordered(LossSpans(init)) && ListsMaximal(LossSpans(init), init)
    ensures Span(lo, hi) in LossSpans(trades) <==> MaximalLoss(trades, lo, hi)
  {
    var n := |trades| - 1;
    var init := trades[..n];
    var before := LossSpans(init);
    MaximalStep(trades, lo, hi);
    assert Span(lo, hi) in before <==> MaximalLoss(init, lo, hi);
    assert Span(lo, n) in before <==> MaximalLoss(init, lo, n);
    if trades[n].pnl < 0.0 {
      if n > 0 { SpanEndsAtLoss(init); }
      ReachingSpan(before, n, lo);
      LossSpansGrow(trades, Span(lo, hi));
    }
  }

  /** The members of the list after a losing trade. */
  lemma {:induction false} LossSpansGrow(trades: seq<Trade>, s: Span)
    requires trades != [] && trades[|trades| - 1].pnl < 0.0
    requires Ordered(LossSpans(trades[..|trades| - 1]))
    ensures var n := |trades| - 1;
            var before := LossSpans(trades[..n]);
            s in LossSpans(trades) <==>
              if before != [] && before[|before| - 1].hi == n
              then (s in before && s.hi < n) || s == Span(before[|before| - 1].lo, n + 1)
              else s in before || s == Span(n, n + 1)
  {
    var n := |trades| - 1;
    var before := LossSpans(trades[..n]);
    if before != [] && before[|before| - 1].hi == n {
      ReplaceLast(before, n, s);
    } else {
      assert LossSpans(trades) == before + [Span(n, n + 1)];
    }
  }

  /** Only the last of ordered spans can reach position n. */
  lemma ReachingSpan(spans: seq<Span>, n: nat, lo: nat)
    requires Ordered(spans) && forall i :: 0 <= i < |spans| ==> spans[i].lo < spans[i].hi <= n
    ensures Span(lo, n) in spans <==> spans != [] && spans[|spans| - 1] == Span(lo, n)
  {
    assert forall i :: 0 <= i < |spans| - 1 ==> spans[i].hi < spans[|spans| - 1].lo;
  }

  lemma ReplaceLast(spans: seq<Span>, n: nat, s: Span)
    requires Ordered(spans) && spans != [] && spans[|spans| - 1].hi == n
    requires forall i :: 0 <= i < |spans| ==> spans[i].lo < spans[i].hi <= n
    ensures s in spans[|spans| - 1 := Span(spans[|spans| - 1].lo, n + 1)] <==>
            (s in spans && s.hi < n) || s == Span(spans[|spans| - 1].lo, n + 1)
  {
    var last := |spans| - 1;
    assert spans[last := Span(spans[last].lo, n + 1)] == spans[..last] + [Span(spans[last].lo, n + 1)];
    assert spans == spans[..last] + [spans[last]];
    assert forall i :: 0 <= i < last ==> spans[i].hi < spans[last].lo < n;
  }

  /** How the maximal stretches change when one trade is appended. */
  lemma MaximalStep(trades: seq<Trade>, lo: nat, hi: nat)
    requires trades != []
    ensures var n := |trades| - 1;
            var init := trades[..n];
            MaximalLoss(trades, lo, hi) <==>
              if hi < n then MaximalLoss(init, lo, hi)
              else if hi == n then MaximalLoss(init, lo, n) && trades[n].pnl >= 0.0
              else hi == n + 1 && trades[n].pnl < 0.0 &&
                   ((lo == n && (n == 0 || trades[n - 1].pnl >= 0.0)) || MaximalLoss(init, lo, n))
  {
    var n := |trades| - 1;
    var init := trades[..n];
    assert forall i :: 0 <= i < n ==> init[i] == trades[i];
    if hi == n + 1 && MaximalLoss(trades, lo, hi) && lo < n {
      assert MaximalLoss(init, lo, n);
    }
  }

  /** The last span reaches the end exactly when the last trade lost. */
  lemma SpanEndsAtLoss(trades: seq<Trade>)
    requires trades != []
    ensures var spans := LossSpans(trades);
            trades[|trades| - 1].pnl < 0.0 <==> spans != [] && spans[|spans| - 1].hi == |trades|
  {
    var n := |trades| - 1;
    assert forall i :: 0 <= i < |LossSpans(trades[..n])| ==> LossSpans(trades[..n])[i].hi <= n;
  }

  function TotalLoss(trades: seq<Trade>): real {
    if trades == [] then 0.0 else TotalLoss(trades[..|trades| - 1]) + trades[|trades| - 1].pnl
  }

  /** Symbols in order of first appearance. */
  function Symbols(trades: seq<Trade>): seq<string> {
    if trades == [] then []
    else
      var earlier, t := Symbols(trades[..|trades| - 1]), trades[|trades| - 1];
      if t.symbol in earlier then earlier else earlier + [t.symbol]
  }

  /** What is reported for a stretch; it is still active if it reaches the last trade. */
  function StreakOf(trades: seq<Trade>, s: Span): LosingStreak
    requires s.lo < s.hi <= |trades|
  {
    var part := trades[s.lo..s.hi];
    LosingStreak(trades[s.lo].exit, trades[s.hi - 1].exit, s.hi - s.lo, TotalLoss(part), Symbols(part),
                 s.hi == |trades|)
  }

  /** The reported streaks: every stretch of at least the minimum length, in order. */
  function Reports(trades: seq<Trade>, spans: seq<Span>, minLength: int): seq<LosingStreak>
    requires forall i :: 0 <= i < |spans| ==> spans[i].lo < spans[i].hi <= |trades|
  {
    if spans == [] then []
    else
      var s := spans[|spans| - 1];
      Reports(trades, spans[..|spans| - 1], minLength)
      + if s.hi - s.lo >= minLength then [StreakOf(trades, s)] else []
  }

  /** The spans of at least the minimum length. */
  function LongSpans(spans: seq<Span>, minLength: int): seq<Span> {
    if spans == [] then []
    else
      var s := spans[|spans| - 1];
      LongSpans(spans[..|spans| - 1], minLength) + if s.hi - s.lo >= minLength then [s] else []
  }

  /** The symbols of some trades, each once, in order of first appearance. */
  ghost predicate ListsSymbols(symbols: seq<string>, part: seq<Trade>) {
    && Distinct(symbols)
    && (forall x :: x in symbols <==> exists i :: 0 <= i < |part| && part[i].symbol == x)
    && (forall a, b :: 0 <= a < b < |symbols| ==> Precedes(symbols[a], symbols[b], part))
  }

  /** Symbol x appears at a point where y has not appeared yet. */
  ghost predicate Precedes(x: string, y: string, part: seq<Trade>) {
    exists i :: 0 <= i < |part| && part[i].symbol == x && forall j :: 0 <= j <= i ==> part[j].symbol != y
  }

  /** The streak describes the stretch. */
  ghost predicate Describes(k: LosingStreak, trades: seq<Trade>, s: Span) {
    && s.lo < s.hi <= |trades|
    && k.start == trades[s.lo].exit && k.end == trades[s.hi - 1].exit && k.length == s.hi - s.lo
    && k.totalLoss == TotalLoss(trades[s.lo..s.hi]) && ListsSymbols(k.symbols, trades[s.lo..s.hi])
    && (k.active <==> s.hi == |trades|)
  }

  /** The streaks describe, in order, exactly the maximal losing stretches of at least the minimum length. */
  ghost predicate ReportsStretches(streaks: seq<LosingStreak>, trades: seq<Trade>, long: seq<Span>, minLength: int) {
    && |streaks| == |long| && (forall i :: 0 <= i < |long| ==> Describes(streaks[i], trades, long[i]))
    && Ordered(long)
    && forall lo: nat, hi: nat :: Span(lo, hi) in long <==> MaximalLoss(trades, lo, hi) && hi - lo >= minLength
  }

  lemma {:induction false} SymbolsListed(part: seq<Trade>)
    ensures ListsSymbols(Symbols(part), part)
  {
    if part != [] {
      var init, t := part[..|part| - 1], part[|part| - 1];
      SymbolsListed(init);
      assert part == init + [t];
      SymbolsGrow(Symbols(init), init, t, Symbols(part), part);
    }
  }

  lemma SymbolsGrow(symbols: seq<string>, part: seq<Trade>, t: Trade, grown: seq<string>, more: seq<Trade>)
    requires ListsSymbols(symbols, part)
    requires grown == (if t.symbol in symbols then symbols else symbols + [t.symbol]) && more == part + [t]
    ensures ListsSymbols(grown, more)
  {
    forall x ensures x in grown <==> exists i :: 0 <= i < |more| && more[i].symbol == x {
      if x in symbols {
        var i :| 0 <= i < |part| && part[i].symbol == x;
        assert more[i].symbol == x;
      }
      assert more[|part|] == t;
      assert forall i :: 0 <= i < |part| ==> more[i] == part[i];
    }
    forall a, b | 0 <= a < b < |grown| ensures Precedes(grown[a], grown[b], more) {
      if b < |symbols| {
        assert Precedes(symbols[a], symbols[b], part);
        var i :| 0 <= i < |part| && part[i].symbol == symbols[a]
                 && forall j :: 0 <= j <= i ==> part[j].symbol != symbols[b];
        assert more[i].symbol == grown[a] && forall j :: 0 <= j <= i ==> more[j] == part[j];
      } else {
        assert symbols[a] in symbols;
        var i :| 0 <= i < |part| && part[i].symbol == symbols[a];
        assert more[i].symbol == grown[a];
        assert forall j :: 0 <= j <= i ==> more[j] == part[j] && part[j].symbol in symbols;
      }
    }
  }

  lemma {:induction false} LongSpansMeaning(spans: seq<Span>, minLength: int)
    requires Ordered(spans)
    ensures Ordered(LongSpans(spans, minLength))
    ensures forall s :: s in LongSpans(spans, minLength) <==> s in spans && s.hi - s.lo >= minLength
  {
    if spans != [] {
      var init, last := spans[..|spans| - 1], spans[|spans| - 1];
      LongSpansMeaning(init, minLength);
      assert spans == init + [last];
      var long := LongSpans(init, minLength);
      forall i | 0 <= i < |long| ensures long[i].hi < last.lo {
        assert long[i] in init;
      }
    }
  }

  lemma StreakDescribes(trades: seq<Trade>, s: Span)
    requires s.lo < s.hi <= |trades|
    ensures Describes(StreakOf(trades, s), trades, s)
  {
    SymbolsListed(trades[s.lo..s.hi]);
  }

  lemma {:induction false} ReportsDescribe(trades: seq<Trade>, spans: seq<Span>, minLength: int)
    requires forall i :: 0 <= i < |spans| ==> spans[i].lo < spans[i].hi <= |trades|
    ensures var long, reports := LongSpans(spans, minLength), Reports(trades, spans, minLength);
            |reports| == |long| && forall i :: 0 <= i < |long| ==> Describes(reports[i], trades, long[i])
  {
    if spans != [] {
      ReportsDescribe(trades, spans[..|spans| - 1], minLength);
      StreakDescribes(trades, spans[|spans| - 1]);
    }
  }

  /** What the account endpoint reports. */
  lemma ReportsMeaning(trades: seq<Trade>, minLength: int)
    ensures ReportsStretches(Reports(trades, LossSpans(trades), minLength), trades,
                             LongSpans(LossSpans(trades), minLength), minLength)
  {
    LossSpansAreMaximal(trades);
    LongSpansMeaning(LossSpans(trades), minLength);
    ReportsDescribe(trades, LossSpans(trades), minLength);
  }

  /** The loop's state: streaks reported so far and the one in progress. */
  datatype Scan = Scan(streaks: seq<LosingStreak>, current: Option<LosingStreak>)

  function Opened(t: Trade): LosingStreak { LosingStreak(t.exit, t.exit, 1, t.pnl, [t.symbol], false) }

  function Continued(c: LosingStreak, t: Trade): LosingStreak {
    LosingStreak(c.start, t.exit, c.length + 1, c.totalLoss + t.pnl,
                 if t.symbol in c.symbols then c.symbols else c.symbols + [t.symbol], false)
  }

  function Closed(s: Scan, minLength: int, active: bool): seq<LosingStreak> {
    if s.current.Some? && s.current.value.length >= minLength
    then s.streaks + [s.current.value.(active := active)]
    else s.streaks
  }

  function Advance(s: Scan, t: Trade, minLength: int): Scan {
    if t.pnl < 0.0
    then s.(current := Some(if s.current.None? then Opened(t) else Continued(s.current.value, t)))
    else Scan(Closed(s, minLength, false), None)
  }

  function ScanOf(trades: seq<Trade>, minLength: int): Scan {
    if trades == [] then Scan([], None)
    else Advance(ScanOf(trades[..|trades| - 1], minLength), trades[|trades| - 1], minLength)
  }

  method GetLosingStreaks(trades: seq<Trade>, minLength: int) returns (streaks: seq<LosingStreak>)
    ensures streaks == Reports(trades, LossSpans(trades), minLength)
    ensures ReportsStretches(streaks, trades, LongSpans(LossSpans(trades), minLength), minLength)
  {
    ReportsMeaning(trades, minLength);
    if |trades| == 0 || |trades| < minLength {
      NoneLongEnough(trades, LossSpans(trades), minLength);
      return [];
    }
    streaks := [];
    var current: Option<LosingStreak> := None;
    for i := 0 to |trades|
      invariant Scan(streaks, current) == ScanOf(trades[..i], minLength)
    {
      assert trades[..i + 1][..i] == trades[..i];
      var t := trades[i];
      if t.pnl < 0.0 {
        current := Some(if current.None? then Opened(t) else Continued(current.value, t));
      } else {
        if current.Some? && current.value.length >= minLength {
          streaks := streaks + [current.value.(active := false)];
        }
        current := None;
      }
    }
    assert trades[..|trades|] == trades;
    ScanMeaning(trades, |trades|, minLength);
    if current.Some? && current.value.length >= minLength {
      streaks := streaks + [current.value.(active := true)];
    }
  }

  /** After i trades `current` is the stretch ending there and all others are reported. */
  ghost predicate Scanned(trades: seq<Trade>, i: nat, minLength: int, s: Scan)
    requires i <= |trades|
  {
    var spans := LossSpans(trades[..i]);
    var n := |spans|;
    if s.current.None? then
      (n == 0 || spans[n - 1].hi < i) && s.streaks == Reports(trades, spans, minLength)
    else
      && n > 0 && spans[n - 1].hi == i
      && s.streaks == Reports(trades, spans[..n - 1], minLength)
      && s.current.value == StreakOf(trades, spans[n - 1]).(active := false)
  }

  lemma {:induction false} ScanMeaning(trades: seq<Trade>, i: nat, minLength: int)
    requires i <= |trades|
    ensures Scanned(trades, i, minLength, ScanOf(trades[..i], minLength))
  {
    if i > 0 {
      ScanMeaning(trades, i - 1, minLength);
      assert trades[..i][..i - 1] == trades[..i - 1];
      ScanStep(trades, i - 1, minLength, ScanOf(trades[..i - 1], minLength));
    }
  }

  lemma {:induction false} ScanStep(trades: seq<Trade>, i: nat, minLength: int, s: Scan)
    requires i < |trades| && Scanned(trades, i, minLength, s)
    ensures Scanned(trades, i + 1, minLength, Advance(s, trades[i], minLength))
  {
    if trades[i].pnl >= 0.0 {
      ScanBreaks(trades, i, minLength, s);
    } else if s.current.None? {
      ScanOpens(trades, i, minLength, s);
    } else {
      ScanContinues(trades, i, minLength, s);
    }
  }

  lemma {:induction false} ScanBreaks(trades: seq<Trade>, i: nat, minLength: int, s: Scan)
    requires i < |trades| && trades[i].pnl >= 0.0 && Scanned(trades, i, minLength, s)
    ensures Scanned(trades, i + 1, minLength, Advance(s, trades[i], minLength))
  {
    var spans := LossSpans(trades[..i]);
    assert trades[..i + 1][..i] == trades[..i];
    assert LossSpans(trades[..i + 1]) == spans;
    if s.current.Some? {
      ReportsLast(trades, spans, minLength, s);
    }
  }

  lemma {:induction false} ReportsLast(trades: seq<Trade>, spans: seq<Span>, minLength: int, s: Scan)
    requires spans != [] && forall i :: 0 <= i < |spans| ==> spans[i].lo < spans[i].hi <= |trades|
    requires s.current == Some(StreakOf(trades, spans[|spans| - 1]).(active := false))
    requires s.streaks == Reports(trades, spans[..|spans| - 1], minLength)
    ensures Closed(s, minLength, spans[|spans| - 1].hi == |trades|) == Reports(trades, spans, minLength)
  {
  }

  lemma {:induction false} ScanOpens(trades: seq<Trade>, i: nat, minLength: int, s: Scan)
    requires i < |trades| && trades[i].pnl < 0.0 && s.current.None? && Scanned(trades, i, minLength, s)
    ensures Scanned(trades, i + 1, minLength, Advance(s, trades[i], minLength))
  {
    var spans := LossSpans(trades[..i]);
    assert trades[..i + 1][..i] == trades[..i];
    assert LossSpans(trades[..i + 1]) == spans + [Span(i, i + 1)];
    assert (spans + [Span(i, i + 1)])[..|spans|] == spans;
    OpenedIsStreak(trades, i);
  }

  lemma OpenedIsStreak(trades: seq<Trade>, i: nat)
    requires i < |trades|
    ensures StreakOf(trades, Span(i, i + 1)).(active := false) == Opened(trades[i])
  {
    var t := trades[i];
    assert trades[i..i + 1] == [t] && [t][..0] == [];
    assert TotalLoss([t]) == TotalLoss([]) + t.pnl && Symbols([t]) == [t.symbol];
  }

  lemma {:induction false} ScanContinues(trades: seq<Trade>, i: nat, minLength: int, s: Scan)
    requires i < |trades| && trades[i].pnl < 0.0 && s.current.Some? && Scanned(trades, i, minLength, s)
    ensures Scanned(trades, i + 1, minLength, Advance(s, trades[i], minLength))
  {
    var spans := LossSpans(trades[..i]);
    var last := |spans| - 1;
    var lo := spans[last].lo;
    assert trades[..i + 1][..i] == trades[..i];
    assert LossSpans(trades[..i + 1]) == spans[last := Span(lo, i + 1)];
    assert spans[last := Span(lo, i + 1)][..last] == spans[..last];
    StreakGrows(trades, lo, i);
  }

  lemma StreakGrows(trades: seq<Trade>, lo: nat, i: nat)
    requires lo < i < |trades|
    ensures StreakOf(trades, Span(lo, i + 1)).(active := false)
            == Continued(StreakOf(trades, Span(lo, i)).(active := false), trades[i])
  {
    assert trades[lo..i + 1][..i - lo] == trades[lo..i];
  }

  lemma {:induction false} NoneLongEnough(trades: seq<Trade>, spans: seq<Span>, minLength: int)
    requires forall i :: 0 <= i < |spans| ==> spans[i].lo < spans[i].hi <= |trades|
    requires |trades| == 0 || |trades| < minLength
    ensures Reports(trades, spans, minLength) == []
  {
    if spans != [] { NoneLongEnough(trades, spans[..|spans| - 1], minLength); }
  }

  // ---- The two endpoints compared ----

  /** Length and total of a run. */
  datatype Size = Size(length: nat, total: real)

  /** The analytics loss runs. */
  function LossSizes(runs: seq<Run>): seq<Size> {
    if runs == [] then []
    else
      var r := runs[|runs| - 1];
      LossSizes(runs[..|runs| - 1]) + if r.kind.Loss? then [Size(r.count, r.pnl)] else []
  }

  /** The account endpoint's stretches, of any length. */
  function SpanSizes(trades: seq<Trade>, spans: seq<Span>): seq<Size>
    requires forall i :: 0 <= i < |spans| ==> spans[i].lo < spans[i].hi <= |trades|
  {
    if spans == [] then []
    else
      var s := spans[|spans| - 1];
      SpanSizes(trades, spans[..|spans| - 1]) + [Size(s.hi - s.lo, TotalLoss(trades[s.lo..s.hi]))]
  }

  ghost predicate SamePnl(trades: seq<Trade>, signals: seq<Signal>) {
    |trades| == |signals| && forall i :: 0 <= i < |trades| ==> trades[i].pnl == signals[i].pnl
  }

  /** Two losses with break-even trades, and nothing else, between them. */
  ghost predicate BridgedByZeros(trades: seq<Trade>, i: nat, j: nat) {
    && i + 1 < j < |trades| && trades[i].pnl < 0.0 && trades[j].pnl < 0.0
    && forall k :: i < k < j ==> trades[k].pnl == 0.0
  }

  ghost predicate BridgeTo(trades: seq<Trade>, j: nat) { exists i: nat :: BridgedByZeros(trades, i, j) }

  /** The losses a bridge leads to, one for every bridge. */
  ghost function BridgeEnds(trades: seq<Trade>): set<int> { set j | 0 <= j < |trades| && BridgeTo(trades, j) }

  ghost function Bridges(trades: seq<Trade>): nat { |BridgeEnds(trades)| }

  lemma {:induction false} BridgeStep(trades: seq<Trade>)
    requires trades != []
    ensures var n := |trades| - 1;
            Bridges(trades) == Bridges(trades[..n]) + if BridgeTo(trades, n) then 1 else 0
  {
    var n := |trades| - 1;
    assert forall k :: 0 <= k < n ==> trades[..n][k] == trades[k];
    forall j: nat | j < n ensures BridgeTo(trades, j) <==> BridgeTo(trades[..n], j) {
      if BridgeTo(trades, j) {
        var i: nat :| BridgedByZeros(trades, i, j);
        assert BridgedByZeros(trades[..n], i, j);
      }
      if BridgeTo(trades[..n], j) {
        var i: nat :| BridgedByZeros(trades[..n], i, j);
        assert BridgedByZeros(trades, i, j);
      }
    }
    assert BridgeEnds(trades) == BridgeEnds(trades[..n]) + if BridgeTo(trades, n) then {n} else {};
  }

  /** Signal m has the given sign and only break-even signals follow it. */
  ghost predicate LastSign(signals: seq<Signal>, m: nat, k: Kind) {
    m < |signals| && KindOf(signals[m].pnl) == Some(k) && forall j :: m < j < |signals| ==> signals[j].pnl == 0.0
  }

  ghost predicate EndsWith(signals: seq<Signal>, k: Kind) { exists m: nat :: LastSign(signals, m, k) }

  lemma LastSignStays(signals: seq<Signal>, s: Signal, m: nat, k: Kind)
    requires LastSign(signals, m, k) && s.pnl == 0.0
    ensures LastSign(signals + [s], m, k)
  {
  }

  /** The kind of the last run is the sign of the last non-zero signal. */
  lemma {:induction false} LastRunKind(signals: seq<Signal>)
    ensures var runs := RunsOf(signals);
            if runs == [] then forall i :: 0 <= i < |signals| ==> signals[i].pnl == 0.0
            else EndsWith(signals, runs[|runs| - 1].kind)
  {
    if signals != [] {
      var n := |signals| - 1;
      LastRunKind(signals[..n]);
      var runs := RunsOf(signals);
      assert signals == signals[..n] + [signals[n]];
      if KindOf(signals[n].pnl).Some? {
        assert LastSign(signals, n, runs[|runs| - 1].kind);
      } else if runs != [] {
        var m: nat :| LastSign(signals[..n], m, runs[|runs| - 1].kind);
        LastSignStays(signals[..n], signals[n], m, runs[|runs| - 1].kind);
      }
    }
  }

  lemma {:induction false} LossSizesExtend(runs: seq<Run>, k: Kind, s: Signal)
    ensures var a, b, n := LossSizes(runs), LossSizes(Extend(runs, k, s)), |runs|;
            if k.Win? then b == a
            else if n > 0 && runs[n - 1].kind.Loss?
            then a != [] && b == Grown(a, s.pnl)
            else b == a + [Size(1, s.pnl)]
  {
    var n, runs' := |runs|, Extend(runs, k, s);
    if n > 0 && runs[n - 1].kind == k {
      assert runs'[..n - 1] == runs[..n - 1];
    } else {
      assert runs'[..n] == runs;
    }
  }

  lemma {:induction false} SpanSizesPrefix(trades: seq<Trade>, spans: seq<Span>, n: nat)
    requires n <= |trades| && forall i :: 0 <= i < |spans| ==> spans[i].lo < spans[i].hi <= n
    ensures SpanSizes(trades[..n], spans) == SpanSizes(trades, spans)
  {
    if spans != [] {
      var s := spans[|spans| - 1];
      SpanSizesPrefix(trades, spans[..|spans| - 1], n);
      assert trades[..n][s.lo..s.hi] == trades[s.lo..s.hi];
    }
  }

  function StretchSize(trades: seq<Trade>, s: Span): Size
    requires s.lo < s.hi <= |trades|
  {
    Size(s.hi - s.lo, TotalLoss(trades[s.lo..s.hi]))
  }

  /** A list of sizes after one more losing trade: the last size grows, or a new one is opened. */
  function Grown(a: seq<Size>, x: real): seq<Size>
    requires a != []
  {
    a[..|a| - 1] + [Size(a[|a| - 1].length + 1, a[|a| - 1].total + x)]
  }

  lemma {:induction false} StretchGrows(trades: seq<Trade>, lo: nat, n: nat)
    requires lo < n < |trades|
    ensures StretchSize(trades, Span(lo, n + 1))
            == Size(n - lo + 1, TotalLoss(trades[lo..n]) + trades[n].pnl)
  {
    assert trades[lo..n + 1][..n - lo] == trades[lo..n];
  }

  /** The stretches after one more trade. */
  lemma {:induction false} LossSpansAfter(trades: seq<Trade>)
    requires trades != []
    ensures var n := |trades| - 1;
            var before, spans := LossSpans(trades[..n]), LossSpans(trades);
            if trades[n].pnl >= 0.0 then spans == before
            else if n > 0 && trades[n - 1].pnl < 0.0
            then && before != [] && before[|before| - 1].hi == n
                 && spans == before[..|before| - 1] + [Span(before[|before| - 1].lo, n + 1)]
            else spans == before + [Span(n, n + 1)]
  {
    var n := |trades| - 1;
    if n > 0 { SpanEndsAtLoss(trades[..n]); }
  }

  lemma {:induction false} SizesGrow(trades: seq<Trade>, spans: seq<Span>, n: nat)
    requires spans != [] && spans[|spans| - 1].hi == n < |trades|
    requires forall i :: 0 <= i < |spans| ==> spans[i].lo < spans[i].hi <= n
    ensures var last := |spans| - 1;
            SpanSizes(trades, spans) != [] &&
            SpanSizes(trades, spans[..last] + [Span(spans[last].lo, n + 1)])
            == Grown(SpanSizes(trades, spans), trades[n].pnl)
  {
    var last := |spans| - 1;
    StretchGrows(trades, spans[last].lo, n);
    SpanSizesSnoc(trades, spans[..last], Span(spans[last].lo, n + 1));
    SpanSizesSnoc(trades, spans[..last], spans[last]);
    assert spans == spans[..last] + [spans[last]];
  }

  lemma {:induction false} SizeOfOne(trades: seq<Trade>, n: nat)
    requires n < |trades|
    ensures StretchSize(trades, Span(n, n + 1)) == Size(1, trades[n].pnl)
  {
    assert trades[n..n + 1] == [trades[n]] && [trades[n]][..0] == [];
    assert TotalLoss([trades[n]]) == TotalLoss([]) + trades[n].pnl;
  }

  /** The account endpoint's sizes, after one more trade. */
  lemma {:induction false} SpanSizesExtend(trades: seq<Trade>)
    requires trades != []
    ensures var n := |trades| - 1;
            var init := trades[..n];
            var a, b := SpanSizes(init, LossSpans(init)), SpanSizes(trades, LossSpans(trades));
            if trades[n].pnl >= 0.0 then b == a
            else if n > 0 && trades[n - 1].pnl < 0.0 then a != [] && b == Grown(a, trades[n].pnl)
            else b == a + [Size(1, trades[n].pnl)]
  {
    var n := |trades| - 1;
    var before := LossSpans(trades[..n]);
    LossSpansAfter(trades);
    SpanSizesPrefix(trades, before, n);
    if trades[n].pnl < 0.0 {
      if n > 0 && trades[n - 1].pnl < 0.0 {
        SizesGrow(trades, before, n);
      } else {
        SpanSizesSnoc(trades, before, Span(n, n + 1));
        SizeOfOne(trades, n);
      }
    }
  }

  lemma {:induction false} SpanSizesSnoc(trades: seq<Trade>, spans: seq<Span>, s: Span)
    requires forall i :: 0 <= i < |spans| ==> spans[i].lo < spans[i].hi <= |trades|
    requires s.lo < s.hi <= |trades|
    ensures SpanSizes(trades, spans + [s]) == SpanSizes(trades, spans) + [StretchSize(trades, s)]
  {
    assert (spans + [s])[..|spans|] == spans;
  }

  /** The account endpoint's list `a` against the analytics list `b`, given the number of bridges. */
  ghost predicate Compared(a: seq<Size>, b: seq<Size>, bridges: nat) {
    |a| == |b| + bridges && (bridges == 0 ==> a == b)
  }

  /** Both lists after one more losing trade: each either grows its last run or opens a new one. */
  lemma LossAdded(a: seq<Size>, b: seq<Size>, a': seq<Size>, b': seq<Size>, x: real, aGrows: bool, bGrows: bool,
                  before: nat, after: nat)
    requires Compared(a, b, before) && (aGrows ==> bGrows) && after == before + if bGrows && !aGrows then 1 else 0
    requires if aGrows then a != [] && a' == Grown(a, x) else a' == a + [Size(1, x)]
    requires if bGrows then b != [] && b' == Grown(b, x) else b' == b + [Size(1, x)]
    ensures Compared(a', b', after)
  {
  }

  /** The account endpoint's sizes and the analytics sizes. */
  function AccountSizes(trades: seq<Trade>): seq<Size> { SpanSizes(trades, LossSpans(trades)) }

  function AnalyticsSizes(signals: seq<Signal>): seq<Size> { LossSizes(RunsOf(signals)) }

  /** The comparison after one more losing trade. */
  lemma {:induction false} LosingTradeCompared(trades: seq<Trade>, signals: seq<Signal>)
    requires SamePnl(trades, signals) && trades != [] && trades[|trades| - 1].pnl < 0.0
    requires var init := trades[..|trades| - 1];
             Compared(AccountSizes(init), AnalyticsSizes(signals[..|trades| - 1]), Bridges(init))
    ensures Compared(AccountSizes(trades), AnalyticsSizes(signals), Bridges(trades))
  {
    var n := |trades| - 1;
    var before, runs := trades[..n], RunsOf(signals[..n]);
    SpanSizesExtend(trades);
    BridgeStep(trades);
    LossSizesExtend(runs, Loss, signals[n]);
    BridgeToLast(trades, signals, runs);
    LossAdded(AccountSizes(before), LossSizes(runs), AccountSizes(trades), AnalyticsSizes(signals), trades[n].pnl,
              n > 0 && trades[n - 1].pnl < 0.0, runs != [] && runs[|runs| - 1].kind.Loss?,
              Bridges(before), Bridges(trades));
  }

  /** A trade that does not lose changes neither list and ends no bridge. */
  lemma {:induction false} OtherTradeCompared(trades: seq<Trade>, signals: seq<Signal>)
    requires SamePnl(trades, signals) && trades != [] && trades[|trades| - 1].pnl >= 0.0
    ensures var n := |trades| - 1;
            && AccountSizes(trades) == AccountSizes(trades[..n])
            && AnalyticsSizes(signals) == AnalyticsSizes(signals[..n]) && Bridges(trades) == Bridges(trades[..n])
  {
    var n := |trades| - 1;
    SpanSizesExtend(trades);
    BridgeStep(trades);
    if trades[n].pnl > 0.0 { LossSizesExtend(RunsOf(signals[..n]), Win, signals[n]); }
  }

  /** How the two lists of loss runs differ: the account endpoint lists exactly one more for every bridge. */
  lemma {:induction false} LossRunsCompared(trades: seq<Trade>, signals: seq<Signal>)
    requires SamePnl(trades, signals)
    ensures Compared(AccountSizes(trades), AnalyticsSizes(signals), Bridges(trades))
  {
    if trades == [] {
      assert BridgeEnds(trades) == {};
    } else {
      var n := |trades| - 1;
      LossRunsCompared(trades[..n], signals[..n]);
      if trades[n].pnl < 0.0 {
        LosingTradeCompared(trades, signals);
      } else {
        OtherTradeCompared(trades, signals);
      }
    }
  }

  /** A losing trade closes a bridge exactly when a loss run is open but the trade before did not lose. */
  lemma {:induction false} BridgeToLast(trades: seq<Trade>, signals: seq<Signal>, runs: seq<Run>)
    requires SamePnl(trades, signals) && trades != [] && trades[|trades| - 1].pnl < 0.0
    requires runs == RunsOf(signals[..|trades| - 1])
    ensures var n := |trades| - 1;
            && (BridgeTo(trades, n) <==> runs != [] && runs[|runs| - 1].kind.Loss? && trades[n - 1].pnl >= 0.0)
            && (n > 0 && trades[n - 1].pnl < 0.0 ==> runs != [] && runs[|runs| - 1].kind.Loss?)
  {
    var n := |trades| - 1;
    var init := signals[..n];
    LastRunKind(init);
    assert forall k :: 0 <= k < n ==> init[k].pnl == trades[k].pnl;
    if runs != [] {
      var m: nat :| LastSign(init, m, runs[|runs| - 1].kind);
      assert forall k :: m < k < n ==> trades[k].pnl == init[k].pnl;
      if runs[|runs| - 1].kind.Loss? && trades[n - 1].pnl >= 0.0 {
        assert BridgedByZeros(trades, m, n);
      }
      forall i: nat | BridgedByZeros(trades, i, n) ensures i == m {
      }
    }
  }

  /** On the same PnLs the endpoints agree on the loss runs exactly when no two losses have only
      break-even trades between them; in particular on data without zeros. */
  lemma LossRunsAgreeIff(trades: seq<Trade>, signals: seq<Signal>)
    requires SamePnl(trades, signals)
    ensures AccountSizes(trades) == AnalyticsSizes(signals) <==> (forall j: nat :: !BridgeTo(trades, j))
  {
    LossRunsCompared(trades, signals);
    if j: nat :| BridgeTo(trades, j) { assert j in BridgeEnds(trades); }
    if j :| j in BridgeEnds(trades) { assert BridgeTo(trades, j); }
  }
}

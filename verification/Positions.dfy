/** Closing positions in full, in part, or because the broker no longer has them. Sizes are in hundredths of a lot. */
module Positions {
  import opened Common

  datatype Signal = Signal(status: string, size: real, brokerOrderId: string)

  /** Statuses the close endpoints look for, and those the stale clean-up looks for. */
  predicate Closable(status: string) { status in {"OPEN", "active", "executed"} }

  predicate Cleanable(status: string) { status in {"OPEN", "open", "active", "executed"} }

  datatype PartialResult =
    | NotFound
    | NoSize
    | TooSmall
    | Accepted(closed: int, remaining: int)

  /** Volume to close and volume left, each rounded to the 0.01 grid. */
  function PartialVolume(size: real, percent: real): int { RoundHalfEven(size * (percent / 100.0)) }

  function Remaining(size: real, percent: real): int {
    RoundHalfEven(size - PartialVolume(size, percent) as real)
  }

  function PartialOutcome(s: Signal, percent: real): PartialResult {
    if !Closable(s.status) then NotFound
    else if s.size <= 0.0 then NoSize
    else if PartialVolume(s.size, percent) <= 0 then TooSmall
    else Accepted(PartialVolume(s.size, percent), Remaining(s.size, percent))
  }

  /** The row after a partial close; a failed write is only logged. */
  function AfterPartial(s: Signal, percent: real, persisted: bool): Signal {
    match PartialOutcome(s, percent)
    case Accepted(_, remaining) =>
      if !persisted then s
      else if remaining <= 0 then s.(status := "CLOSED", size := 0.0)
      else s.(size := remaining as real)
    case _ => s
  }

  function AfterClose(s: Signal, persisted: bool): Signal {
    if Closable(s.status) && persisted then s.(status := "CLOSED") else s
  }

  predicate Stale(s: Signal, live: set<string>) {
    Cleanable(s.status) && s.brokerOrderId != "" && s.brokerOrderId !in live
  }

  function AfterCleanup(s: Signal, live: set<string>, persisted: bool): Signal {
    if Stale(s, live) && persisted then s.(status := "CLOSED") else s
  }

  /** The requested share of a position is at most half a grid step. */
  predicate ShareTooSmall(size: real, percent: real) { size * (percent / 100.0) <= 0.5 }

  /** `closed` is the requested share and `remaining` the rest, each rounded to the grid, half to even. */
  predicate SharesOut(size: real, percent: real, closed: int, remaining: int) {
    && !ShareTooSmall(size, percent) && IsNearest(closed, size * (percent / 100.0))
    && IsNearest(remaining, size - closed as real) && remaining >= 0
  }

  /** The answer to a partial close and the row it leaves, in terms of the row before it. */
  ghost predicate ClosesShare(before: Signal, percent: real, persisted: bool, r: PartialResult, after: Signal) {
    var open := before.status in {"OPEN", "active", "executed"};
    match r
    case NotFound => !open && after == before
    case NoSize => open && before.size <= 0.0 && after == before
    case TooSmall => open && before.size > 0.0 && ShareTooSmall(before.size, percent) && after == before
    case Accepted(closed, remaining) =>
      && open && before.size > 0.0 && SharesOut(before.size, percent, closed, remaining)
      && after == if !persisted then before
                  else if remaining == 0 then Signal("CLOSED", 0.0, before.brokerOrderId)
                  else Signal(before.status, remaining as real, before.brokerOrderId)
  }

  /** The trading_signals table; a row's id is its position. */
  class SignalTable {
    var rows: seq<Signal>

    constructor (rows: seq<Signal>)
      ensures this.rows == rows
    {
      this.rows := rows;
    }

    /** Close `percent` of a position. `persisted` tells whether the row update succeeds. */
    method PartialClose(id: int, percent: real, persisted: bool) returns (r: PartialResult)
      requires 1.0 <= percent <= 100.0
      modifies this
      ensures 0 <= id < |old(rows)| ==> && r == PartialOutcome(old(rows)[id], percent)
                                        && rows == old(rows)[id := AfterPartial(old(rows)[id], percent, persisted)]
      ensures 0 <= id < |old(rows)| ==> && |rows| == |old(rows)|
                                        && ClosesShare(old(rows)[id], percent, persisted, r, rows[id])
                                        && forall k :: 0 <= k < |rows| && k != id ==> rows[k] == old(rows)[k]
      ensures !(0 <= id < |old(rows)|) ==> r == NotFound && rows == old(rows)
    {
      if 0 <= id < |rows| { PartialMeaning(rows[id], percent, persisted); }
      if !(0 <= id < |rows|) || !Closable(rows[id].status) { return NotFound; }
      var fullSize := rows[id].size;
      if fullSize <= 0.0 { return NoSize; }
      var partialVolume := PartialVolume(fullSize, percent);
      var remaining := Remaining(fullSize, percent);
      if partialVolume <= 0 { return TooSmall; }
      // the order for `partialVolume` goes to the broker here; its outcome does not change what follows
      if persisted {
        if remaining <= 0 {
          rows := rows[id := rows[id].(status := "CLOSED", size := 0.0)];
        } else {
          rows := rows[id := rows[id].(size := remaining as real)];
        }
      }
      return Accepted(partialVolume, remaining);
    }

    /** Close a position; returns the size sent to the broker. */
    method ClosePosition(id: int, persisted: bool) returns (sent: Option<real>)
      modifies this
      ensures 0 <= id < |old(rows)| && old(rows)[id].status in {"OPEN", "active", "executed"} ==>
                && sent == Some(old(rows)[id].size)
                && rows == if persisted then old(rows)[id := old(rows)[id].(status := "CLOSED")] else old(rows)
      ensures 0 <= id < |old(rows)| && old(rows)[id].status !in {"OPEN", "active", "executed"} ==>
                sent == None && rows == old(rows)
      ensures 0 <= id < |old(rows)| ==> rows == old(rows)[id := AfterClose(old(rows)[id], persisted)]
      ensures !(0 <= id < |old(rows)|) ==> sent == None && rows == old(rows)
    {
      if !(0 <= id < |rows|) || !Closable(rows[id].status) { return None; }
      sent := Some(rows[id].size);
      if persisted { rows := rows[id := rows[id].(status := "CLOSED")]; }
    }

    /** Close every row whose broker position is gone. `persisted[i]` tells whether row i's update succeeds. */
    method CleanupStale(live: set<string>, persisted: seq<bool>) returns (closed: seq<int>)
      requires |persisted| == |rows|
      modifies this
      ensures |rows| == |old(rows)|
      ensures forall i :: 0 <= i < |rows| ==> rows[i] == AfterCleanup(old(rows)[i], live, persisted[i])
      ensures forall i :: i in closed <==>
                && 0 <= i < |rows| && persisted[i] && old(rows)[i].status in {"OPEN", "open", "active", "executed"}
                && old(rows)[i].brokerOrderId != "" && old(rows)[i].brokerOrderId !in live
      ensures forall i :: 0 <= i < |rows| ==>
                rows[i] == if i in closed then old(rows)[i].(status := "CLOSED") else old(rows)[i]
      ensures forall i, j :: 0 <= i < j < |closed| ==> closed[i] < closed[j]
    {
      closed := [];
      for i := 0 to |rows|
        invariant |rows| == |old(rows)|
        invariant forall k :: 0 <= k < i ==> rows[k] == AfterCleanup(old(rows)[k], live, persisted[k])
        invariant forall k :: i <= k < |rows| ==> rows[k] == old(rows)[k]
        invariant forall k :: k in closed <==> 0 <= k < i && Stale(old(rows)[k], live) && persisted[k]
        invariant forall a :: 0 <= a < |closed| ==> closed[a] < i
        invariant forall a, b :: 0 <= a < b < |closed| ==> closed[a] < closed[b]
      {
        if Cleanable(rows[i].status) && rows[i].brokerOrderId != "" && rows[i].brokerOrderId !in live {
          if persisted[i] {
            rows := rows[i := rows[i].(status := "CLOSED")];
            closed := closed + [i];
          }
        }
      }
    }
  }

  // ---- Whole runs against one position ----

  datatype Request =
    | Partial(percent: real, persisted: bool)
    | Close(persisted: bool)
    | Cleanup(live: set<string>, persisted: bool)

  function Apply(s: Signal, r: Request): Signal {
    match r
    case Partial(percent, persisted) => AfterPartial(s, percent, persisted)
    case Close(persisted) => AfterClose(s, persisted)
    case Cleanup(live, persisted) => AfterCleanup(s, live, persisted)
  }

  ghost predicate ValidRequest(r: Request) { r.Partial? ==> 1.0 <= r.percent <= 100.0 }

  ghost predicate ValidRun(requests: seq<Request>) { forall i :: 0 <= i < |requests| ==> ValidRequest(requests[i]) }

  function AfterRun(s: Signal, requests: seq<Request>): Signal {
    if requests == [] then s else Apply(AfterRun(s, requests[..|requests| - 1]), requests[|requests| - 1])
  }

  /** Volume a request reports as partially closed, and whether its write was lost. */
  function ReportedBy(s: Signal, r: Request): int {
    if r.Partial? && PartialOutcome(s, r.percent).Accepted? then PartialOutcome(s, r.percent).closed else 0
  }

  function LostBy(s: Signal, r: Request): int { if r.Partial? && !r.persisted then ReportedBy(s, r) else 0 }

  /** Total volume reported closed over a run, the part of it never written back, and the number of
      accepted and written partial closes. */
  datatype Totals = Totals(reported: int, lost: int, writes: nat)

  function TotalsOf(s: Signal, requests: seq<Request>): Totals {
    if requests == [] then Totals(0, 0, 0)
    else
      var init, r := requests[..|requests| - 1], requests[|requests| - 1];
      var t, row := TotalsOf(s, init), AfterRun(s, init);
      Totals(t.reported + ReportedBy(row, r), t.lost + LostBy(row, r),
             t.writes + if Writes(row, r) then 1 else 0)
  }

  predicate Writes(s: Signal, r: Request) { r.Partial? && r.persisted && PartialOutcome(s, r.percent).Accepted? }

  predicate OnGrid(size: real) { size.Floor as real == size }

  lemma ShareBounds(size: real, percent: real)
    requires size >= 0.0 && 0.0 <= percent <= 100.0
    ensures 0.0 <= size * (percent / 100.0) <= size
  {
    var f := percent / 100.0;
    assert size * (1.0 - f) == size - size * f;
    NonNegativeProduct(size, f);
    NonNegativeProduct(size, 1.0 - f);
  }

  lemma NonNegativeProduct(a: real, b: real)
    requires a >= 0.0 && b >= 0.0
    ensures a * b >= 0.0
  {
  }

  /** Rounding a share and then what it leaves. */
  lemma SplitArithmetic(size: real, share: real)
    requires size > 0.0 && 0.0 <= share <= size
    ensures var p := RoundHalfEven(share);
            var rest := RoundHalfEven(size - p as real);
            && 0 <= p && 0 <= rest
            && -0.5 <= (p + rest) as real - size <= 0.5
            && (OnGrid(size) ==> (p + rest) as real == size)
            && (p > 0 ==> rest as real <= size - 0.5 && (OnGrid(size) ==> rest as real <= size - 1.0))
  {
    var p := RoundHalfEven(share);
    RoundMonotone(0.0, share);
    RoundMonotone(share, size);
    RoundInteger(0);
    if OnGrid(size) {
      RoundInteger(size.Floor);
      RoundInteger(size.Floor - p);
    } else {
      RoundMonotone(-0.5, size - p as real);
    }
  }

  /** The arithmetic of one accepted partial close. */
  lemma PartialArithmetic(size: real, percent: real)
    requires size > 0.0 && 1.0 <= percent <= 100.0
    ensures var p, rest := PartialVolume(size, percent), Remaining(size, percent);
            && 0 <= p && 0 <= rest
            && -0.5 <= (p + rest) as real - size <= 0.5
            && (OnGrid(size) ==> (p + rest) as real == size)
            && (p > 0 ==> rest as real <= size - 0.5 && (OnGrid(size) ==> rest as real <= size - 1.0))
  {
    ShareBounds(size, percent);
    SplitArithmetic(size, size * (percent / 100.0));
  }

  /** A partial close is refused as too small exactly when its exact volume is at most half a grid step. */
  lemma TooSmallIff(s: Signal, percent: real)
    requires Closable(s.status) && s.size > 0.0 && 1.0 <= percent <= 100.0
    ensures PartialOutcome(s, percent).TooSmall? <==> s.size * (percent / 100.0) <= 0.5
  {
    RoundsToNothingIff(s.size * (percent / 100.0));
  }

  lemma RoundsToNothingIff(x: real)
    ensures RoundHalfEven(x) <= 0 <==> x <= 0.5
  {
    if x <= 0.5 { RoundMonotone(x, 0.5); }
  }

  lemma RoundIsNearest(x: real)
    ensures IsNearest(RoundHalfEven(x), x)
  {
  }

  lemma VolumesShareOut(size: real, percent: real)
    requires size > 0.0 && 1.0 <= percent <= 100.0
    ensures PartialVolume(size, percent) <= 0 <==> ShareTooSmall(size, percent)
    ensures PartialVolume(size, percent) > 0 ==>
              SharesOut(size, percent, PartialVolume(size, percent), Remaining(size, percent))
  {
    RoundsToNothingIff(size * (percent / 100.0));
    RoundIsNearest(size * (percent / 100.0));
    RoundIsNearest(size - PartialVolume(size, percent) as real);
    PartialArithmetic(size, percent);
  }

  /** An accepted partial close closes the requested share rounded to the grid and leaves the rounded rest; once
      written, the row is closed exactly when nothing is left. */
  lemma PartialMeaning(s: Signal, percent: real, persisted: bool)
    requires 1.0 <= percent <= 100.0
    ensures ClosesShare(s, percent, persisted, PartialOutcome(s, percent), AfterPartial(s, percent, persisted))
  {
    if s.size > 0.0 { VolumesShareOut(s.size, percent); }
  }

  /** CLOSED is terminal: no request changes a closed row, and none is accepted on it. */
  lemma {:induction false} ClosedIsTerminal(s: Signal, requests: seq<Request>)
    requires s.status == "CLOSED"
    ensures AfterRun(s, requests) == s && TotalsOf(s, requests) == Totals(0, 0, 0)
  {
    if requests != [] { ClosedIsTerminal(s, requests[..|requests| - 1]); }
  }

  /** What holds of the balance `reported - lost + size - start` after every run. */
  ghost predicate Balanced(start: real, t: Totals, size: real) {
    && size >= 0.0
    && (if t.writes == 0 then size == start && t.reported == t.lost
        else && OnGrid(size)
             && -0.5 <= (t.reported - t.lost) as real + size - start <= 0.5)
    && (OnGrid(start) ==> OnGrid(size) && (t.reported - t.lost) as real + size == start)
  }

  lemma BalancedStep(start: real, t: Totals, s: Signal, r: Request)
    requires ValidRequest(r) && Balanced(start, t, s.size)
    ensures var t' := Totals(t.reported + ReportedBy(s, r), t.lost + LostBy(s, r),
                             t.writes + if Writes(s, r) then 1 else 0);
            Balanced(start, t', Apply(s, r).size)
  {
    if r.Partial? && s.size > 0.0 { PartialArithmetic(s.size, r.percent); }
  }

  /** Conservation over whole runs: what is reported closed and was written back, plus the size left, is the
      starting size -- exactly on the 0.01 grid, and within half a grid step (0.005 lot) in total off it. */
  lemma {:induction false} VolumeConserved(s: Signal, requests: seq<Request>)
    requires s.size >= 0.0 && ValidRun(requests)
    ensures Balanced(s.size, TotalsOf(s, requests), AfterRun(s, requests).size)
  {
    if requests != [] {
      var init := requests[..|requests| - 1];
      VolumeConserved(s, init);
      BalancedStep(s.size, TotalsOf(s, init), AfterRun(s, init), requests[|requests| - 1]);
    }
  }

  /** So on the grid, reported volume and remaining size add up exactly when no accepted close lost its write. */
  lemma ConservedIffNothingLost(s: Signal, requests: seq<Request>)
    requires s.size >= 0.0 && OnGrid(s.size) && ValidRun(requests)
    ensures TotalsOf(s, requests).reported as real + AfterRun(s, requests).size == s.size <==>
            TotalsOf(s, requests).lost == 0
  {
    VolumeConserved(s, requests);
  }

  /** Runs terminate: each accepted and written partial close takes off at least half a grid step,
      on the grid a whole one. */
  lemma {:induction false} WritesBounded(s: Signal, requests: seq<Request>)
    requires s.size >= 0.0 && ValidRun(requests)
    ensures var t, row := TotalsOf(s, requests), AfterRun(s, requests);
            && t.writes as real * 0.5 + row.size <= s.size
            && (OnGrid(s.size) ==> t.writes as real + row.size <= s.size)
  {
    if requests != [] {
      var init, r := requests[..|requests| - 1], requests[|requests| - 1];
      WritesBounded(s, init);
      VolumeConserved(s, init);
      var row := AfterRun(s, init);
      if r.Partial? && row.size > 0.0 { PartialArithmetic(row.size, r.percent); }
    }
  }
}

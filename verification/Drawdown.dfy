/** The equity curve's running-peak drawdown, and the evaluation module's drawdown on the same trades. */
module Drawdown {
  import opened Common

  /** Equity before any trade and after each one. */
  function Curve(start: real, pnls: seq<real>): (e: seq<real>)
    ensures |e| == |pnls| + 1 && e[0] == start
  {
    if pnls == [] then [start]
    else
      var e := Curve(start, pnls[..|pnls| - 1]);
      e + [e[|e| - 1] + pnls[|pnls| - 1]]
  }

  /** The largest of a non-empty sequence. */
  function Max(e: seq<real>): (m: real)
    requires e != []
    ensures m in e && forall i :: 0 <= i < |e| ==> e[i] <= m
  {
    if |e| == 1 then e[0]
    else
      var m := Max(e[..|e| - 1]);
      if m < e[|e| - 1] then e[|e| - 1] else m
  }

  /** Distance below the peak as a percentage of it, when the peak is positive. */
  function PctOf(peak: real, current: real): (pct: real)
    ensures peak <= 0.0 ==> pct == 0.0
  {
    if peak > 0.0 then (peak - current) / peak * 100.0 else 0.0
  }

  function PctAt(e: seq<real>, j: nat): real
    requires j < |e|
  {
    PctOf(Max(e[..j + 1]), e[j])
  }

  /** What the loop carries; the two maxima start at zero. */
  datatype Running = Running(equity: real, peak: real, maxPct: real, maxAmt: real)

  function Step(r: Running, pnl: real): Running {
    var equity := r.equity + pnl;
    var peak := MaxR(r.peak, equity);
    Running(equity, peak, MaxR(r.maxPct, PctOf(peak, equity)), MaxR(r.maxAmt, peak - equity))
  }

  function Fold(start: real, pnls: seq<real>): Running {
    if pnls == [] then Running(start, start, 0.0, 0.0)
    else Step(Fold(start, pnls[..|pnls| - 1]), pnls[|pnls| - 1])
  }

  datatype Point = Point(equity: real, drawdownPct: real, peak: real)

  /** One entry of the underwater plot. */
  function Plot(equity: real, peak: real): Point {
    Point(Round2(equity), Round2(-PctOf(peak, equity)), Round2(peak))
  }

  /** The first n points of the plot. */
  ghost predicate Plotted(data: seq<Point>, e: seq<real>, n: nat) {
    |data| == n < |e| && forall k :: 0 <= k < n ==> ShowsPoint(data[k], e, k)
  }

  /** Equity, minus the drawdown percentage, and the peak after trade k, each rounded. */
  ghost predicate ShowsPoint(p: Point, e: seq<real>, k: int)
    requires 0 <= k && k + 1 < |e|
  {
    && p.equity == Round2(e[k + 1]) && p.peak == Round2(Max(e[..k + 2]))
    && p.drawdownPct == Round2(-PctAt(e, k + 1))
  }

  lemma PlottedStep(data: seq<Point>, e: seq<real>, n: nat, equity: real, peak: real)
    requires Plotted(data, e, n) && n + 1 < |e| && equity == e[n + 1] && peak == Max(e[..n + 2])
    ensures Plotted(data + [Plot(equity, peak)], e, n + 1)
  {
  }

  datatype Response = Response(data: seq<Point>, maxPct: real, maxAmt: real)

  /** The single pass. */
  method GetDrawdown(accountBalance: real, pnls: seq<real>) returns (r: Response)
    ensures r.maxPct == Round2(Fold(accountBalance, pnls).maxPct)
    ensures r.maxAmt == Round2(Fold(accountBalance, pnls).maxAmt)
    ensures Plotted(r.data, Curve(accountBalance, pnls), |pnls|)
  {
    var equity, peak := accountBalance, accountBalance;
    var maxPct, maxAmt := 0.0, 0.0;
    var data: seq<Point> := [];
    ghost var e := Curve(accountBalance, pnls);
    for i := 0 to |pnls|
      invariant Running(equity, peak, maxPct, maxAmt) == Fold(accountBalance, pnls[..i])
      invariant Plotted(data, e, i)
    {
      ghost var run := Running(equity, peak, maxPct, maxAmt);
      assert pnls[..i + 1][..i] == pnls[..i];
      equity := equity + pnls[i];
      peak := MaxR(peak, equity);
      var ddAmt := peak - equity;
      var ddPct := PctOf(peak, equity);
      maxPct := MaxR(maxPct, ddPct);
      maxAmt := MaxR(maxAmt, ddAmt);
      assert Running(equity, peak, maxPct, maxAmt) == Step(run, pnls[i]);
      PrefixState(accountBalance, pnls, i + 1);
      PlottedStep(data, e, i, equity, peak);
      data := data + [Plot(equity, peak)];
    }
    assert pnls[..|pnls|] == pnls;
    r := Response(data, Round2(maxPct), Round2(maxAmt));
  }

  /** After j trades the loop's equity and peak are those of the curve up to point j. */
  lemma PrefixState(start: real, pnls: seq<real>, j: nat)
    requires j <= |pnls|
    ensures var f, e := Fold(start, pnls[..j]), Curve(start, pnls);
            f.equity == e[j] && f.peak == Max(e[..j + 1])
  {
    FoldTracksCurve(start, pnls[..j]);
    CurvePrefix(start, pnls, j);
  }

  lemma {:induction false} CurvePrefix(start: real, pnls: seq<real>, j: nat)
    requires j <= |pnls|
    ensures Curve(start, pnls[..j]) == Curve(start, pnls)[..j + 1]
  {
    if j < |pnls| {
      CurvePrefix(start, pnls[..|pnls| - 1], j);
      assert pnls[..|pnls| - 1][..j] == pnls[..j];
    } else {
      assert pnls[..j] == pnls;
    }
  }

  /** The fall from point i to point j, in money and as a percentage of point i when that is positive. */
  function Fall(e: seq<real>, i: nat, j: nat): real
    requires i <= j < |e|
  {
    e[i] - e[j]
  }

  function FallPct(e: seq<real>, i: nat, j: nat): real
    requires i <= j < |e|
  {
    PctOf(e[i], e[j])
  }

  /** `m` is the largest fall over all pairs of points, earlier to later. */
  ghost predicate LargestFall(e: seq<real>, m: real) {
    && (exists i: nat, j: nat :: i <= j < |e| && Fall(e, i, j) == m)
    && (forall i: nat, j: nat :: i <= j < |e| ==> Fall(e, i, j) <= m)
  }

  ghost predicate LargestFallPct(e: seq<real>, m: real) {
    && (exists i: nat, j: nat :: i <= j < |e| && FallPct(e, i, j) == m)
    && (forall i: nat, j: nat :: i <= j < |e| ==> FallPct(e, i, j) <= m)
  }

  lemma {:induction false} FoldTracksCurve(start: real, pnls: seq<real>)
    ensures var f, e := Fold(start, pnls), Curve(start, pnls);
            f.equity == e[|pnls|] && f.peak == Max(e)
  {
    if pnls != [] {
      FoldTracksCurve(start, pnls[..|pnls| - 1]);
      var e := Curve(start, pnls);
      assert e[..|e| - 1] == Curve(start, pnls[..|pnls| - 1]);
    }
  }

  lemma StepMaxima(start: real, pnls: seq<real>)
    requires pnls != []
    ensures var before, f := Fold(start, pnls[..|pnls| - 1]), Fold(start, pnls);
            && f.maxAmt == MaxR(before.maxAmt, f.peak - f.equity)
            && f.maxPct == MaxR(before.maxPct, PctOf(f.peak, f.equity))
  {
  }

  lemma CurveExtends(start: real, pnls: seq<real>)
    requires pnls != []
    ensures var e' := Curve(start, pnls);
            e' == Curve(start, pnls[..|pnls| - 1]) + [e'[|pnls|]]
  {
  }

  /** Extending the curve by one point: the largest fall is the old one or the new distance below the peak. */
  lemma LargestFallExtends(e: seq<real>, x: real, m: real)
    requires e != [] && LargestFall(e, m)
    ensures LargestFall(e + [x], MaxR(m, Max(e + [x]) - x))
  {
    var e' := e + [x];
    var n := |e|;
    var top := MaxR(m, Max(e') - x);
    forall i: nat, j: nat | i <= j < |e'| ensures Fall(e', i, j) <= top {
      if j < n { assert Fall(e', i, j) == Fall(e, i, j); }
    }
    if top == m {
      var i: nat, j: nat :| i <= j < |e| && Fall(e, i, j) == m;
      assert Fall(e', i, j) == m;
    } else {
      var i :| 0 <= i < |e'| && e'[i] == Max(e');
      assert Fall(e', i, n) == top;
    }
  }

  /** The single-pass maximum drop is the largest fall between any two points of the curve, start included. */
  lemma {:induction false} MaxDropIsAllPairs(start: real, pnls: seq<real>)
    ensures LargestFall(Curve(start, pnls), Fold(start, pnls).maxAmt)
  {
    if pnls == [] {
      assert Fall(Curve(start, pnls), 0, 0) == 0.0;
    } else {
      var init := pnls[..|pnls| - 1];
      MaxDropIsAllPairs(start, init);
      StepMaxima(start, pnls);
      CurveExtends(start, pnls);
      FoldTracksCurve(start, pnls);
      LargestFallExtends(Curve(start, init), Curve(start, pnls)[|pnls|], Fold(start, init).maxAmt);
    }
  }

  /** A higher reference point gives the larger percentage exactly while the current equity is not negative. */
  lemma PctMonotone(low: real, high: real, current: real)
    requires 0.0 < low < high
    ensures PctOf(low, current) <= PctOf(high, current) <==> current >= 0.0
  {
    assert PctOf(low, current) == 100.0 - current / low * 100.0 by { PctShape(low, current); }
    assert PctOf(high, current) == 100.0 - current / high * 100.0 by { PctShape(high, current); }
    QuotientOrder(low, high, current);
  }

  lemma PctShape(peak: real, current: real)
    requires peak > 0.0
    ensures PctOf(peak, current) == 100.0 - current / peak * 100.0
  {
    var q := current / peak;
    assert (1.0 - q) * peak == peak - q * peak == peak - current;
    QuotientUnique(1.0 - q, peak - current, peak);
  }

  lemma QuotientUnique(x: real, a: real, p: real)
    requires p > 0.0 && x * p == a
    ensures x == a / p
  {
    var y := a / p;
    assert (x - y) * p == x * p - y * p;
    SignOfProduct(x - y, p);
  }

  lemma SignOfProduct(x: real, p: real)
    requires p > 0.0
    ensures (x * p > 0.0 <==> x > 0.0) && (x * p == 0.0 <==> x == 0.0)
  {
  }

  lemma QuotientOrder(low: real, high: real, c: real)
    requires 0.0 < low < high
    ensures c / high <= c / low <==> c >= 0.0
  {
    var a, b := c / low, c / high;
    assert a * low == c && b * high == c;
    if c >= 0.0 {
      if b > a { ProductsOrdered(low, high, a, b); }
    } else {
      assert b < 0.0;
      if b <= a { NegativeProducts(low, high, a, b); }
    }
  }

  lemma ProductsOrdered(low: real, high: real, a: real, b: real)
    requires 0.0 < low < high && b > a && a * low >= 0.0
    ensures b * high > a * low
  {
    assert a >= 0.0;
    assert b * high > b * low > a * low;
  }

  lemma NegativeProducts(low: real, high: real, a: real, b: real)
    requires 0.0 < low < high && b <= a && b < 0.0
    ensures b * high < a * low
  {
    assert b * high < b * low <= a * low;
  }

  /** At one point of the curve, the reported percentage is the largest over all earlier reference points
      exactly when the equity there is not negative, or every positive earlier point is the peak itself. */
  lemma PointPctIsLargestIff(e: seq<real>, j: nat)
    requires j < |e|
    ensures (forall i: nat :: i <= j ==> FallPct(e, i, j) <= PctAt(e, j)) <==>
            (e[j] >= 0.0 || forall i: nat :: i <= j && e[i] > 0.0 ==> e[i] == Max(e[..j + 1]))
    ensures exists i: nat :: i <= j && FallPct(e, i, j) == PctAt(e, j)
  {
    var peak := Max(e[..j + 1]);
    var p :| 0 <= p < j + 1 && e[..j + 1][p] == peak;
    assert FallPct(e, p, j) == PctAt(e, j);
    assert e[..j + 1][j] == e[j];
    forall i: nat | i <= j
      ensures 0.0 < e[i] < peak ==> (FallPct(e, i, j) <= PctAt(e, j) <==> e[j] >= 0.0)
      ensures e[i] <= 0.0 ==> FallPct(e, i, j) <= PctAt(e, j)
      ensures e[i] <= peak
    {
      assert e[..j + 1][i] == e[i];
      if 0.0 < e[i] < peak { PctMonotone(e[i], peak, e[j]); }
      PctNonNegative(peak, e[j]);
    }
  }

  lemma PctNonNegative(peak: real, current: real)
    requires current <= peak
    ensures PctOf(peak, current) >= 0.0
  {
    if peak > 0.0 { assert (peak - current) / peak >= 0.0; }
  }

  /** `m` is the largest of the percentages shown at the points of the curve. */
  ghost predicate LargestPct(e: seq<real>, m: real) {
    && (forall j: nat :: j < |e| ==> PctAt(e, j) <= m)
    && (exists j: nat :: j < |e| && PctAt(e, j) == m)
  }

  lemma PctAtExtends(e: seq<real>, x: real, j: nat)
    requires j < |e|
    ensures PctAt(e + [x], j) == PctAt(e, j)
  {
    assert (e + [x])[..j + 1] == e[..j + 1];
  }

  lemma LargestPctExtends(e: seq<real>, x: real, m: real)
    requires e != [] && LargestPct(e, m)
    ensures LargestPct(e + [x], MaxR(m, PctOf(Max(e + [x]), x)))
  {
    var e' := e + [x];
    var top := MaxR(m, PctOf(Max(e'), x));
    LastPct(e, x);
    forall j: nat | j < |e'| ensures PctAt(e', j) <= top {
      if j < |e| { PctAtExtends(e, x, j); }
    }
    if top == m {
      var k: nat :| k < |e| && PctAt(e, k) == m;
      PctAtExtends(e, x, k);
    }
  }

  lemma LastPct(e: seq<real>, x: real)
    ensures PctAt(e + [x], |e|) == PctOf(Max(e + [x]), x)
  {
    assert (e + [x])[..|e| + 1] == e + [x];
  }

  /** The reported maximum percentage is the largest over all points of the curve. */
  lemma {:induction false} MaxPctIsLargestPoint(start: real, pnls: seq<real>)
    ensures LargestPct(Curve(start, pnls), Fold(start, pnls).maxPct)
  {
    if pnls == [] {
      assert [start][..1] == [start];
      assert PctAt(Curve(start, pnls), 0) == 0.0 by {
        if start > 0.0 { assert (start - start) / start == 0.0; }
      }
    } else {
      var init := pnls[..|pnls| - 1];
      MaxPctIsLargestPoint(start, init);
      StepMaxima(start, pnls);
      CurveExtends(start, pnls);
      FoldTracksCurve(start, pnls);
      LargestPctExtends(Curve(start, init), Curve(start, pnls)[|pnls|], Fold(start, init).maxPct);
    }
  }

  /** The smallest positive element. */
  function Low(e: seq<real>): (r: Option<real>)
    ensures r.None? ==> forall i :: 0 <= i < |e| ==> e[i] <= 0.0
    ensures r.Some? ==> r.value in e && r.value > 0.0 && forall i :: 0 <= i < |e| && e[i] > 0.0 ==> r.value <= e[i]
  {
    if e == [] then None
    else
      var low, x := Low(e[..|e| - 1]), e[|e| - 1];
      if x > 0.0 && (low.None? || x < low.value) then Some(x) else low
  }

  /** If equity at point j is negative, its fall from the smallest positive point so far is no larger than
      some percentage that is shown. */
  ghost predicate Covered(e: seq<real>, j: nat)
    requires j < |e|
  {
    e[j] < 0.0 && Low(e[..j + 1]).Some? ==>
      exists k: nat :: k < |e| && PctAt(e, k) >= PctOf(Low(e[..j + 1]).value, e[j])
  }

  /** No fall to point j exceeds the one from the smallest positive point, when equity at j is negative. */
  lemma DeepestFromLow(e: seq<real>, i: nat, j: nat)
    requires i <= j < |e| && e[j] < 0.0
    ensures FallPct(e, i, j) <= if Low(e[..j + 1]).Some? then PctOf(Low(e[..j + 1]).value, e[j]) else 0.0
  {
    var low := Low(e[..j + 1]);
    assert e[..j + 1][i] == e[i];
    if low.Some? {
      PctNonNegative(low.value, e[j]);
      if e[i] > low.value { PctMonotone(low.value, e[i], e[j]); }
    }
  }

  lemma FallsWithin(e: seq<real>, m: real, j: nat)
    requires LargestPct(e, m) && j < |e| && Covered(e, j)
    ensures forall i: nat :: i <= j ==> FallPct(e, i, j) <= m
  {
    forall i: nat | i <= j ensures FallPct(e, i, j) <= m {
      assert PctAt(e, j) <= m;
      if e[j] >= 0.0 {
        PointPctIsLargestIff(e, j);
      } else {
        DeepestFromLow(e, i, j);
        assert e[..j + 1][j] == e[j];
        PctNonNegative(Max(e[..j + 1]), e[j]);
      }
    }
  }

  lemma AllPairsFromPointsIff(e: seq<real>, m: real)
    requires LargestPct(e, m)
    ensures LargestFallPct(e, m) <==> forall j: nat :: j < |e| ==> Covered(e, j)
  {
    var k: nat :| k < |e| && PctAt(e, k) == m;
    PointPctIsLargestIff(e, k);
    var p: nat :| p <= k && FallPct(e, p, k) == PctAt(e, k);
    assert FallPct(e, p, k) == m;
    if forall j: nat :: j < |e| ==> Covered(e, j) {
      forall i: nat, j: nat | i <= j < |e| ensures FallPct(e, i, j) <= m {
        FallsWithin(e, m, j);
      }
    }
    if LargestFallPct(e, m) {
      forall j: nat | j < |e| ensures Covered(e, j) {
        var low := Low(e[..j + 1]);
        if low.Some? {
          var i :| 0 <= i < j + 1 && e[..j + 1][i] == low.value;
          assert FallPct(e, i, j) == PctOf(low.value, e[j]) <= m;
          assert PctAt(e, k) >= PctOf(low.value, e[j]);
        }
      }
    }
  }

  /** The reported percentage is the largest over all pairs exactly when at every point with negative equity
      the fall from the smallest positive point so far is covered by a percentage shown somewhere. */
  lemma MaxPctIsAllPairsIff(start: real, pnls: seq<real>)
    ensures LargestFallPct(Curve(start, pnls), Fold(start, pnls).maxPct) <==>
            forall j: nat :: j <= |pnls| ==> Covered(Curve(start, pnls), j)
  {
    MaxPctIsLargestPoint(start, pnls);
    AllPairsFromPointsIff(Curve(start, pnls), Fold(start, pnls).maxPct);
  }

  /** In particular while equity never falls below zero. */
  lemma MaxPctIsAllPairs(start: real, pnls: seq<real>)
    requires forall k :: 0 <= k < |Curve(start, pnls)| ==> Curve(start, pnls)[k] >= 0.0
    ensures LargestFallPct(Curve(start, pnls), Fold(start, pnls).maxPct)
  {
    MaxPctIsAllPairsIff(start, pnls);
  }

  /** With negative equity the reported percentage can fall short: 125 % is reported here, while the fall
      from the starting balance is 150 %. */
  lemma MaxPctFallsShort()
    ensures var pnls := [100.0, -250.0];
            Fold(100.0, pnls).maxPct == 125.0 && FallPct(Curve(100.0, pnls), 0, 2) == 150.0
  {
    var pnls := [100.0, -250.0];
    assert pnls[..1] == [100.0] && [100.0][..0] == [];
    assert Fold(100.0, [100.0]) == Step(Fold(100.0, []), 100.0);
    assert (200.0 - 200.0) / 200.0 == 0.0 && (200.0 - -50.0) / 200.0 == 1.25 && (100.0 - -50.0) / 100.0 == 1.5;
    var one := Fold(100.0, pnls[..1]);
    assert one.equity == 200.0 && one.peak == 200.0 && one.maxPct == 0.0;
    assert Curve(100.0, pnls)[1] == 200.0;
  }

  // ---- The evaluation module ----

  /** Balance after each trade; the starting balance itself is not listed. */
  method CurrentDrawdown(accountBalance: real, pnls: seq<real>) returns (pct: real)
    ensures pct == EvaluationPct(accountBalance, pnls)
    ensures pnls == [] ==> pct == 0.0
    ensures pnls != [] ==>
              var e := Curve(accountBalance, pnls);
              var peak := Max(e[1..]);
              pct == if peak > 0.0 then (peak - e[|pnls|]) / peak * 100.0 else 0.0
  {
    var cumulative: seq<real> := [];
    var running := accountBalance;
    ghost var e := [accountBalance];
    for i := 0 to |pnls|
      invariant e == Curve(accountBalance, pnls[..i])
      invariant e == [accountBalance] + cumulative && running == e[i] && |cumulative| == i
    {
      assert pnls[..i + 1][..i] == pnls[..i];
      running := running + pnls[i];
      cumulative := cumulative + [running];
      e := e + [running];
    }
    assert pnls[..|pnls|] == pnls;
    if cumulative != [] {
      assert cumulative == e[1..];
      var peak, current := Max(cumulative), cumulative[|cumulative| - 1];
      pct := PctOf(peak, current);
    } else {
      pct := 0.0;
    }
  }

  function EvaluationPct(start: real, pnls: seq<real>): real {
    var e := Curve(start, pnls);
    if pnls == [] then 0.0 else PctOf(Max(e[1..]), e[|pnls|])
  }

  /** The evaluation's drawdown stays within the analytics curve's final drawdown exactly when the balance
      is not negative, or its own peak is not positive, or the start was never the peak. */
  lemma EvaluationWithinAnalyticsIff(start: real, pnls: seq<real>)
    requires pnls != []
    ensures var e := Curve(start, pnls);
            EvaluationPct(start, pnls) <= PctAt(e, |pnls|) <==>
            e[|pnls|] >= 0.0 || Max(e[1..]) <= 0.0 || Max(e[1..]) >= start
  {
    var e := Curve(start, pnls);
    var n := |pnls|;
    var own := Max(e[1..]);
    assert e[..n + 1] == e;
    assert Max(e) == MaxR(start, own) by {
      assert forall i :: 0 < i < |e| ==> e[i] == e[1..][i - 1];
      var k :| 0 <= k < |e| && e[k] == Max(e);
      assert k > 0 ==> e[1..][k - 1] == e[k];
      var o :| 0 <= o < |e[1..]| && e[1..][o] == own;
      assert e[o + 1] == own;
    }
    assert e[1..][n - 1] == e[n];
    PctNonNegative(Max(e), e[n]);
    if 0.0 < own < start { PctMonotone(own, start, e[n]); }
  }
}

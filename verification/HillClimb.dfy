/** One-parameter-at-a-time hill climbing; the chart's measurements are given as a table of scores. */
module HillClimb {
  import opened Common

  /** A parameter and the values to try, in order. */
  datatype Param<V> = Param(name: string, values: seq<V>)

  /** scores[p][v]: what was measured when value v of parameter p was tried. */
  ghost predicate Fits<V>(params: seq<Param<V>>, scores: seq<seq<real>>) {
    && |scores| == |params|
    && (forall p :: 0 <= p < |params| ==> |scores[p]| == |params[p].values|)
    && (forall p, q :: 0 <= p < q < |params| ==> params[p].name != params[q].name)
  }

  function Flatten(scores: seq<seq<real>>): seq<real> {
    if scores == [] then [] else Flatten(scores[..|scores| - 1]) + scores[|scores| - 1]
  }

  function TotalTests<V>(params: seq<Param<V>>): nat {
    if params == [] then 0 else TotalTests(params[..|params| - 1]) + |params[|params| - 1].values|
  }

  /** The largest of a starting bar and some scores. */
  function Best(bar: real, scores: seq<real>): (m: real)
    ensures bar <= m && forall i :: 0 <= i < |scores| ==> scores[i] <= m
    ensures m == bar || m in scores
  {
    if scores == [] then bar else MaxR(Best(bar, scores[..|scores| - 1]), scores[|scores| - 1])
  }

  lemma {:induction false} BestConcat(bar: real, a: seq<real>, b: seq<real>)
    ensures Best(bar, a + b) == Best(Best(bar, a), b)
  {
    if b == [] {
      assert a + b == a;
    } else {
      BestConcat(bar, a, b[..|b| - 1]);
      assert (a + b)[..|a + b| - 1] == a + b[..|b| - 1];
    }
  }

  /** Everything measured before parameter p, the baseline included, as its best score. */
  function BestBefore(baseline: real, scores: seq<seq<real>>, p: nat): real
    requires p <= |scores|
  {
    Best(baseline, Flatten(scores[..p]))
  }

  /** Value k of parameter p beats everything measured before p, is its parameter's best, and the first such. */
  ghost predicate KeptValue(baseline: real, scores: seq<seq<real>>, p: nat, k: nat)
    requires p < |scores|
  {
    && k < |scores[p]| && scores[p][k] > BestBefore(baseline, scores, p)
    && (forall v :: 0 <= v < |scores[p]| ==> scores[p][v] <= scores[p][k])
    && (forall v :: 0 <= v < k ==> scores[p][v] < scores[p][k])
  }

  /** The kept settings are exactly the kept values of the first n parameters. */
  ghost predicate Keeps<V(!new)>(kept: map<string, V>, baseline: real, params: seq<Param<V>>, scores: seq<seq<real>>,
                                 n: nat)
    requires Fits(params, scores) && n <= |params|
  {
    && (forall p: nat, k: nat :: p < n && k < |scores[p]| && KeptValue(baseline, scores, p, k) ==>
          params[p].name in kept && kept[params[p].name] == params[p].values[k])
    && (forall name :: name in kept ==> exists p: nat, k: nat :: p < n && KeptValue(baseline, scores, p, k)
                                                                 && params[p].name == name)
  }

  /** The inner loop over one parameter's values. */
  method TryValues(bar: real, scores: seq<real>) returns (best: real, at: Option<nat>)
    ensures best == Best(bar, scores)
    ensures at.None? <==> best == bar
    ensures at.Some? ==> && at.value < |scores| && scores[at.value] == best > bar
                         && forall v :: 0 <= v < at.value ==> scores[v] < best
  {
    best, at := bar, None;
    for v := 0 to |scores|
      invariant best == Best(bar, scores[..v])
      invariant at.None? <==> best == bar
      invariant at.Some? ==> && at.value < v && scores[at.value] == best > bar
                             && forall u :: 0 <= u < at.value ==> scores[u] < best
    {
      assert scores[..v + 1][..v] == scores[..v];
      assert forall u :: 0 <= u < v ==> scores[u] == scores[..v][u];
      if scores[v] > best { best, at := scores[v], Some(v); }
    }
    assert scores[..|scores|] == scores;
  }

  /** The score of the returned result: what was read back after the last parameter that raised the best score. */
  function Reported(baseline: real, scores: seq<seq<real>>, rereads: seq<real>): real
    requires |rereads| == |scores|
  {
    if scores == [] then baseline
    else
      var n := |scores| - 1;
      if Best(BestBefore(baseline, scores, n), scores[n]) > BestBefore(baseline, scores, n) then rereads[n]
      else Reported(baseline, scores[..n], rereads[..n])
  }

  /** Parameter p is the last one to raise the best score. */
  ghost predicate LastRaise(baseline: real, scores: seq<seq<real>>, p: nat) {
    && p < |scores|
    && BestBefore(baseline, scores, p) < BestBefore(baseline, scores, p + 1) == BestBefore(baseline, scores, |scores|)
  }

  lemma {:induction false} BestBeforeStep(baseline: real, scores: seq<seq<real>>, p: nat)
    requires p < |scores|
    ensures BestBefore(baseline, scores, p + 1) == Best(BestBefore(baseline, scores, p), scores[p])
  {
    assert scores[..p + 1][..p] == scores[..p];
    BestConcat(baseline, Flatten(scores[..p]), scores[p]);
  }

  /** The returned score is the baseline's if nothing was kept, and otherwise the one read back for the last
      parameter that raised the best score. */
  lemma {:induction false} ReportedMeaning(baseline: real, scores: seq<seq<real>>, rereads: seq<real>)
    requires |rereads| == |scores|
    ensures if BestBefore(baseline, scores, |scores|) == baseline then Reported(baseline, scores, rereads) == baseline
            else exists p: nat :: LastRaise(baseline, scores, p) && Reported(baseline, scores, rereads) == rereads[p]
  {
    if scores == [] {
      assert scores[..0] == [];
    } else {
      var n := |scores| - 1;
      BestBeforeStep(baseline, scores, n);
      if BestBefore(baseline, scores, n + 1) > BestBefore(baseline, scores, n) {
        assert LastRaise(baseline, scores, n);
      } else {
        ReportedMeaning(baseline, scores[..n], rereads[..n]);
        assert forall q :: 0 <= q <= n ==> scores[..n][..q] == scores[..q];
        if BestBefore(baseline, scores, n + 1) != baseline {
          var p: nat :| LastRaise(baseline, scores[..n], p)
                        && Reported(baseline, scores[..n], rereads[..n]) == rereads[..n][p];
          assert scores[..n][..p + 1] == scores[..p + 1];
          assert LastRaise(baseline, scores, p) && Reported(baseline, scores, rereads) == rereads[p];
        }
      }
    }
  }

  /** That score need not be the best one: the chart may read differently when the value is applied again. */
  lemma ReportedBelowBest()
    ensures Reported(1.0, [[2.0]], [1.5]) == 1.5 && Best(1.0, Flatten([[2.0]])) == 2.0
  {
    var scores: seq<seq<real>> := [[2.0]];
    assert scores[..0] == [] && [2.0][..0] == [];
    assert Flatten(scores) == Flatten([]) + [2.0] == [2.0];
    assert Best(1.0, [2.0]) == MaxR(Best(1.0, []), 2.0) == 2.0;
    assert BestBefore(1.0, scores, 0) == 1.0;
  }

  /** What holds after n parameters. */
  ghost predicate Climbed<V(!new)>(n: nat, bestScore: real, improved: map<string, V>, results: seq<real>,
                                   testCount: nat, reported: real, baseline: real, params: seq<Param<V>>,
                                   scores: seq<seq<real>>, rereads: seq<real>)
    requires Fits(params, scores) && |rereads| == |params| && n <= |params|
  {
    && bestScore == BestBefore(baseline, scores, n)
    && results == Flatten(scores[..n]) && testCount == |results| == TotalTests(params[..n])
    && Keeps(improved, baseline, params, scores, n)
    && (improved == map[] <==> bestScore == baseline)
    && reported == Reported(baseline, scores[..n], rereads[..n])
  }

  lemma TestsStep<V>(params: seq<Param<V>>, scores: seq<seq<real>>, p: nat)
    requires p < |params| && |scores| == |params|
    ensures TotalTests(params[..p + 1]) == TotalTests(params[..p]) + |params[p].values|
    ensures Flatten(scores[..p + 1]) == Flatten(scores[..p]) + scores[p]
  {
    assert scores[..p + 1][..p] == scores[..p] && params[..p + 1][..p] == params[..p];
  }

  lemma ReportedStep(baseline: real, scores: seq<seq<real>>, rereads: seq<real>, p: nat)
    requires p < |scores| && |rereads| == |scores|
    ensures Reported(baseline, scores[..p + 1], rereads[..p + 1])
            == if Best(BestBefore(baseline, scores, p), scores[p]) > BestBefore(baseline, scores, p) then rereads[p]
               else Reported(baseline, scores[..p], rereads[..p])
  {
    assert scores[..p + 1][..p] == scores[..p] && rereads[..p + 1][..p] == rereads[..p];
  }

  /** The climb. `rereads[p]` is the score read back after re-applying parameter p's kept value. */
  method OptimizePairSmart<V(!new)>(baseline: real, params: seq<Param<V>>, scores: seq<seq<real>>, rereads: seq<real>)
    returns (bestScore: real, improved: map<string, V>, results: seq<real>, testCount: nat, reported: real)
    requires Fits(params, scores) && |rereads| == |params|
    ensures bestScore == Best(baseline, Flatten(scores))
    ensures results == Flatten(scores) && testCount == |results| == TotalTests(params)
    ensures Keeps(improved, baseline, params, scores, |params|)
    ensures improved == map[] <==> bestScore == baseline
    ensures reported == Reported(baseline, scores, rereads)
  {
    bestScore, improved, results, testCount, reported := baseline, map[], [], 0, baseline;
    for p := 0 to |params|
      invariant Climbed(p, bestScore, improved, results, testCount, reported, baseline, params, scores, rereads)
    {
      var paramBest, at := TryValues(bestScore, scores[p]);
      ghost var before := improved;
      results := results + scores[p];
      testCount := testCount + |params[p].values|;
      if at.Some? && paramBest > bestScore {
        bestScore := paramBest;
        improved := improved[params[p].name := params[p].values[at.value]];
        reported := rereads[p];
        assert params[p].name in improved;
      }
      BestBeforeStep(baseline, scores, p);
      TestsStep(params, scores, p);
      ReportedStep(baseline, scores, rereads, p);
      KeepsStep(before, improved, baseline, params, scores, p, at);
    }
    assert scores[..|params|] == scores && params[..|params|] == params && rereads[..|params|] == rereads;
  }

  lemma KeepsStep<V(!new)>(before: map<string, V>, after: map<string, V>, baseline: real, params: seq<Param<V>>,
                     scores: seq<seq<real>>, p: nat, at: Option<nat>)
    requires Fits(params, scores) && p < |params| && Keeps(before, baseline, params, scores, p)
    requires at.None? ==>
               after == before && forall v :: 0 <= v < |scores[p]| ==> scores[p][v] <= BestBefore(baseline, scores, p)
    requires at.Some? ==> KeptValue(baseline, scores, p, at.value)
                          && after == before[params[p].name := params[p].values[at.value]]
    ensures Keeps(after, baseline, params, scores, p + 1)
  {
    forall q: nat, k: nat | q < p + 1 && k < |scores[q]| && KeptValue(baseline, scores, q, k)
      ensures params[q].name in after && after[params[q].name] == params[q].values[k]
    {
      if q == p { assert k == at.value; }
    }
    forall name | name in after
      ensures exists q: nat, k: nat :: q < p + 1 && KeptValue(baseline, scores, q, k) && params[q].name == name
    {
      if name in before {
        var q: nat, k: nat :| q < p && KeptValue(baseline, scores, q, k) && params[q].name == name;
      } else {
        assert KeptValue(baseline, scores, p, at.value);
      }
    }
  }
}

/** Small value types and the rounding function shared by the ledger modules. */
module Common {

  datatype Option<+T> = None | Some(value: T)

  ghost predicate Distinct<T>(xs: seq<T>) { forall i, j :: 0 <= i < j < |xs| ==> xs[i] != xs[j] }

  function MaxR(a: real, b: real): real { if a < b then b else a }

  /** Python's round-to-even on an exact number: the nearest integer, the even one on a tie. */
  function RoundHalfEven(x: real): (r: int)
    ensures -0.5 <= r as real - x <= 0.5
    ensures r as real - x == 0.5 || r as real - x == -0.5 ==> r % 2 == 0
  {
    var f := x.Floor;
    var d := x - f as real;
    if d < 0.5 then f
    else if d > 0.5 then f + 1
    else if f % 2 == 0 then f else f + 1
  }

  /** `n` is the integer nearest to `x`, the even one on a tie. */
  predicate IsNearest(n: int, x: real) {
    && -0.5 <= n as real - x <= 0.5
    && (n as real - x == 0.5 || n as real - x == -0.5 ==> n % 2 == 0)
  }

  lemma RoundMonotone(x: real, y: real)
    requires x <= y
    ensures RoundHalfEven(x) <= RoundHalfEven(y)
  {
  }

  lemma RoundInteger(n: int)
    ensures RoundHalfEven(n as real) == n
  {
  }

  /** Two-decimal rounding of an exact amount. */
  function Round2(x: real): real { RoundHalfEven(x * 100.0) as real / 100.0 }

  /** Amounts are rounded to hundredths. */
  lemma Round2IsHundredths(x: real) returns (cents: int)
    ensures Round2(x) == cents as real / 100.0 && IsNearest(cents, x * 100.0)
    ensures -0.005 <= Round2(x) - x <= 0.005
  {
    cents := RoundHalfEven(x * 100.0);
  }

  /** Three-decimal rounding of an exact amount. */
  function Round3(x: real): real { RoundHalfEven(x * 1000.0) as real / 1000.0 }

  /** Durations are rounded to thousandths. */
  lemma Round3IsThousandths(x: real) returns (n: int)
    ensures Round3(x) == n as real / 1000.0 && IsNearest(n, x * 1000.0)
    ensures -0.0005 <= Round3(x) - x <= 0.0005
  {
    n := RoundHalfEven(x * 1000.0);
  }

  lemma Round3Monotone(x: real, y: real)
    requires x <= y
    ensures Round3(x) <= Round3(y)
  {
    RoundMonotone(x * 1000.0, y * 1000.0);
  }

  /** Number of entries satisfying `p`. */
  ghost function HowMany<T>(xs: seq<T>, p: T -> bool): nat { |set i | 0 <= i < |xs| && p(xs[i])| }

  lemma HowManySnoc<T>(xs: seq<T>, x: T, p: T -> bool)
    ensures HowMany(xs + [x], p) == HowMany(xs, p) + if p(x) then 1 else 0
  {
    var n, more := |xs|, xs + [x];
    assert (set i | 0 <= i < |more| && p(more[i]))
        == (set i | 0 <= i < n && p(xs[i])) + if p(x) then {n} else {};
  }

  lemma HowManyNone<T>(p: T -> bool)
    ensures HowMany([], p) == 0
  {
  }

  /** Quotient and remainder are unique. */
  lemma DivModUnique(n: int, b: int, q: int, r: int)
    requires b > 0 && n == q * b + r && 0 <= r < b
    ensures n / b == q && n % b == r
  {
    var d := n / b;
    assert n == d * b + n % b;
    if d > q {
      assert (d - q) * b >= b by { MulAtLeast(d - q, b); }
    } else if d < q {
      assert (q - d) * b >= b by { MulAtLeast(q - d, b); }
    }
  }

  lemma MulAtLeast(k: int, b: int)
    requires k >= 1 && b > 0
    ensures k * b >= b
  {
  }

  /** A number not in use. */
  lemma {:induction false} FreeName(used: set<int>) returns (r: int)
    ensures forall u :: u in used ==> u < r
  {
    if x :| x in used {
      var r0 := FreeName(used - {x});
      r := if x < r0 then r0 else x + 1;
      assert forall u :: u in used ==> u == x || u in used - {x};
    } else {
      r := 0;
    }
  }
}

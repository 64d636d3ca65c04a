/** All combinations of a parameter grid, generated through one shared dictionary, and the grid search over them. */
module ParamGrid {
  import opened Common

  /** A parameter grid: distinct keys in order, each with its list of values. */
  datatype Grid<V> = Grid(keys: seq<string>, values: seq<seq<V>>)

  ghost predicate ValidGrid<V>(g: Grid<V>) {
    |g.keys| == |g.values| && forall i, j :: 0 <= i < j < |g.keys| ==> g.keys[i] != g.keys[j]
  }

  /** Settings for the keys from `idx` on: the product, first key slowest. */
  function Product<V>(g: Grid<V>, idx: nat): seq<map<string, V>>
    requires |g.keys| == |g.values| && idx <= |g.keys|
    decreases |g.keys| - idx, 0
  {
    if idx == |g.keys| then [map[]] else Branches(g, idx, |g.values[idx]|)
  }

  /** The part of the product whose value for key `idx` is one of the first n. */
  function Branches<V>(g: Grid<V>, idx: nat, n: nat): seq<map<string, V>>
    requires |g.keys| == |g.values| && idx < |g.keys| && n <= |g.values[idx]|
    decreases |g.keys| - idx, 0, n
  {
    if n == 0 then []
    else
      Branches(g, idx, n - 1) + Prefixed(g.keys[idx], g.values[idx][n - 1], Product(g, idx + 1))
  }

  /** The same setting added to each of the dictionaries. */
  function Prefixed<V>(key: string, value: V, rest: seq<map<string, V>>): (r: seq<map<string, V>>)
    ensures |r| == |rest| && forall m :: 0 <= m < |rest| ==> r[m] == map[key := value] + rest[m]
  {
    seq(|rest|, m requires 0 <= m < |rest| => map[key := value] + rest[m])
  }

  /** Dictionaries laid over a base, the later settings winning. */
  function Over<V>(base: map<string, V>, tails: seq<map<string, V>>): (r: seq<map<string, V>>)
    ensures |r| == |tails| && forall m :: 0 <= m < |tails| ==> r[m] == base + tails[m]
  {
    seq(|tails|, m requires 0 <= m < |tails| => base + tails[m])
  }

  /** The two dictionaries agree on every key outside `keys[from..]`. */
  ghost predicate AgreeBefore<V>(a: map<string, V>, b: map<string, V>, keys: seq<string>, from: nat)
    requires from <= |keys|
  {
    forall k :: k !in keys[from..] ==> (k in a <==> k in b) && (k in a ==> a[k] == b[k])
  }

  function KeySet<V>(g: Grid<V>, idx: nat): set<string>
    requires idx <= |g.keys|
  {
    set k | k in g.keys[idx..]
  }

  lemma {:induction false} ProductKeys<V>(g: Grid<V>, idx: nat)
    requires |g.keys| == |g.values| && idx <= |g.keys|
    ensures forall m :: 0 <= m < |Product(g, idx)| ==> Product(g, idx)[m].Keys == KeySet(g, idx)
    decreases |g.keys| - idx, 0
  {
    if idx < |g.keys| { BranchesKeys(g, idx, |g.values[idx]|); }
  }

  lemma {:induction false} BranchesKeys<V>(g: Grid<V>, idx: nat, n: nat)
    requires |g.keys| == |g.values| && idx < |g.keys| && n <= |g.values[idx]|
    ensures forall m :: 0 <= m < |Branches(g, idx, n)| ==> Branches(g, idx, n)[m].Keys == KeySet(g, idx)
    decreases |g.keys| - idx, 0, n
  {
    if n > 0 {
      BranchesKeys(g, idx, n - 1);
      ProductKeys(g, idx + 1);
      assert g.keys[idx..] == [g.keys[idx]] + g.keys[idx + 1..];
    }
  }

  /** Leftover settings of deeper keys are harmless: the tail overwrites all of them. */
  lemma OverAgrees<V>(a: map<string, V>, b: map<string, V>, g: Grid<V>, idx: nat)
    requires |g.keys| == |g.values| && idx <= |g.keys| && AgreeBefore(a, b, g.keys, idx)
    ensures Over(a, Product(g, idx)) == Over(b, Product(g, idx))
  {
    ProductKeys(g, idx);
    forall m | 0 <= m < |Product(g, idx)| ensures a + Product(g, idx)[m] == b + Product(g, idx)[m] {
    }
  }

  lemma OverPrefixed<V>(base: map<string, V>, key: string, value: V, tails: seq<map<string, V>>)
    ensures Over(base[key := value], tails) == Over(base, Prefixed(key, value, tails))
  {
    forall m | 0 <= m < |tails| ensures base[key := value] + tails[m] == base + (map[key := value] + tails[m]) {
    }
  }

  lemma OverUnit<V>(base: map<string, V>)
    ensures Over(base, [map[]]) == [base]
  {
    assert base + map[] == base;
  }

  lemma Reassociate<T>(a: seq<T>, b: seq<T>, c: seq<T>)
    ensures (a + b) + c == a + (b + c)
  {
  }

  lemma OverConcat<V>(base: map<string, V>, a: seq<map<string, V>>, b: seq<map<string, V>>)
    ensures Over(base, a + b) == Over(base, a) + Over(base, b)
  {
  }

  /** The generator: one dictionary shared by all recursion levels, and the list of finished copies. */
  class Generator<V> {
    var current: map<string, V>
    var combos: seq<map<string, V>>

    constructor ()
      ensures current == map[] && combos == []
    {
      current, combos := map[], [];
    }

    method Recurse(g: Grid<V>, idx: nat)
      requires ValidGrid(g) && idx <= |g.keys|
      modifies this
      ensures combos == old(combos) + Over(old(current), Product(g, idx))
      ensures AgreeBefore(current, old(current), g.keys, idx)
      decreases |g.keys| - idx, 1
    {
      if idx == |g.keys| {
        OverUnit(current);
        combos := combos + [current];
        return;
      }
      ghost var base, start := current, combos;
      for n := 0 to |g.values[idx]|
        invariant combos == start + Over(base, Branches(g, idx, n))
        invariant AgreeBefore(current, base, g.keys, idx)
      {
        ghost var tails := Prefixed(g.keys[idx], g.values[idx][n], Product(g, idx + 1));
        OverConcat(base, Branches(g, idx, n), tails);
        Branch(g, idx, g.values[idx][n], base);
        Reassociate(start, Over(base, Branches(g, idx, n)), Over(base, tails));
      }
    }

    /** One turn of the loop over the values of key `idx`: set it in the shared dictionary and go deeper. */
    method Branch(g: Grid<V>, idx: nat, value: V, ghost base: map<string, V>)
      requires ValidGrid(g) && idx < |g.keys| && AgreeBefore(current, base, g.keys, idx)
      modifies this
      ensures combos == old(combos) + Over(base, Prefixed(g.keys[idx], value, Product(g, idx + 1)))
      ensures AgreeBefore(current, base, g.keys, idx)
      decreases |g.keys| - idx, 0
    {
      AgreeDeeper(current, base, g, idx, value);
      current := current[g.keys[idx] := value];
      ghost var entered := current;
      Recurse(g, idx + 1);
      BranchAdds(entered, base, g, idx, value);
      AgreeAfter(current, entered, base, g, idx, value);
    }

    /** The parameter combinations, in order. */
    method Generate(g: Grid<V>) returns (result: seq<map<string, V>>)
      requires ValidGrid(g) && current == map[] && combos == []
      modifies this
      ensures result == Product(g, 0)
    {
      Recurse(g, 0);
      result := combos;
      assert forall m :: 0 <= m < |Product(g, 0)| ==> map[] + Product(g, 0)[m] == Product(g, 0)[m];
    }
  }

  lemma AgreeDeeper<V>(current: map<string, V>, base: map<string, V>, g: Grid<V>, idx: nat, value: V)
    requires ValidGrid(g) && idx < |g.keys| && AgreeBefore(current, base, g.keys, idx)
    ensures AgreeBefore(current[g.keys[idx] := value], base[g.keys[idx] := value], g.keys, idx + 1)
  {
    assert g.keys[idx..] == [g.keys[idx]] + g.keys[idx + 1..];
  }

  /** What the deeper levels append, seen from the dictionary the branch started with. */
  lemma BranchAdds<V>(entered: map<string, V>, base: map<string, V>, g: Grid<V>, idx: nat, value: V)
    requires ValidGrid(g) && idx < |g.keys| && AgreeBefore(entered, base[g.keys[idx] := value], g.keys, idx + 1)
    ensures Over(entered, Product(g, idx + 1)) == Over(base, Prefixed(g.keys[idx], value, Product(g, idx + 1)))
  {
    OverAgrees(entered, base[g.keys[idx] := value], g, idx + 1);
    OverPrefixed(base, g.keys[idx], value, Product(g, idx + 1));
  }

  lemma AgreeAfter<V>(after: map<string, V>, entered: map<string, V>, base: map<string, V>, g: Grid<V>, idx: nat,
                      value: V)
    requires ValidGrid(g) && idx < |g.keys|
    requires AgreeBefore(after, entered, g.keys, idx + 1)
    requires AgreeBefore(entered, base[g.keys[idx] := value], g.keys, idx + 1)
    ensures AgreeBefore(after, base, g.keys, idx)
  {
    assert g.keys[idx..] == [g.keys[idx]] + g.keys[idx + 1..];
  }

  // ---- What the generated list is ----

  /** Number of settings for the keys from `idx` on. */
  function Weight<V>(g: Grid<V>, idx: nat): nat
    requires |g.keys| == |g.values| && idx <= |g.keys|
    decreases |g.keys| - idx
  {
    if idx == |g.keys| then 1 else |g.values[idx]| * Weight(g, idx + 1)
  }

  lemma {:induction false} ProductLength<V>(g: Grid<V>, idx: nat)
    requires |g.keys| == |g.values| && idx <= |g.keys|
    ensures |Product(g, idx)| == Weight(g, idx)
    decreases |g.keys| - idx, 0
  {
    if idx < |g.keys| { BranchesLength(g, idx, |g.values[idx]|); }
  }

  lemma {:induction false} BranchesLength<V>(g: Grid<V>, idx: nat, n: nat)
    requires |g.keys| == |g.values| && idx < |g.keys| && n <= |g.values[idx]|
    ensures |Branches(g, idx, n)| == n * Weight(g, idx + 1)
    decreases |g.keys| - idx, 0, n
  {
    if n > 0 {
      BranchesLength(g, idx, n - 1);
      ProductLength(g, idx + 1);
      assert n * Weight(g, idx + 1) == (n - 1) * Weight(g, idx + 1) + Weight(g, idx + 1);
    }
  }

  lemma BlockBounds(a: nat, n: nat, w: nat, r: nat)
    requires a < n && r < w
    ensures 0 <= a * w + r < n * w && a * w + r < (a + 1) * w <= n * w
  {
    assert (a + 1) * w == a * w + w;
    if a + 1 < n { MulAtLeast(n - a - 1, w); }
    assert n * w == (a + 1) * w + (n - a - 1) * w;
  }

  /** Entry a * w + r takes value number a for its key and entry r of the deeper product. */
  lemma {:induction false} BranchesEntry<V>(g: Grid<V>, idx: nat, n: nat, a: nat, r: nat)
    requires |g.keys| == |g.values| && idx < |g.keys| && a < n <= |g.values[idx]| && r < Weight(g, idx + 1)
    ensures var w := Weight(g, idx + 1);
            && |Branches(g, idx, n)| == n * w && 0 <= a * w + r < n * w && |Product(g, idx + 1)| == w
            && Branches(g, idx, n)[a * w + r] == map[g.keys[idx] := g.values[idx][a]] + Product(g, idx + 1)[r]
    decreases n
  {
    var w := Weight(g, idx + 1);
    BranchesLength(g, idx, n);
    BranchesLength(g, idx, n - 1);
    ProductLength(g, idx + 1);
    BlockBounds(a, n, w, r);
    if a < n - 1 {
      BlockBounds(a, n - 1, w, r);
      BranchesEntry(g, idx, n - 1, a, r);
    } else {
      assert a * w + r - (n - 1) * w == r;
    }
  }

  /** Splitting an entry number into the value number of the first key and the entry of the rest. */
  lemma SplitEntry<V>(g: Grid<V>, idx: nat, m: nat) returns (a: nat, r: nat)
    requires |g.keys| == |g.values| && idx < |g.keys| && m < Weight(g, idx)
    ensures var w := Weight(g, idx + 1);
            && a < |g.values[idx]| && r < w && m == a * w + r && a == m / w && r == m % w
            && |Product(g, idx)| == Weight(g, idx) && |Product(g, idx + 1)| == w
            && Product(g, idx)[m] == map[g.keys[idx] := g.values[idx][a]] + Product(g, idx + 1)[r]
  {
    var w, n := Weight(g, idx + 1), |g.values[idx]|;
    WeightPositive(n, w, m);
    a, r := m / w, m % w;
    assert m == a * w + r;
    if a >= n {
      QuotientTooLarge(a, n, w);
      assert false;
    }
    BranchesEntry(g, idx, n, a, r);
    ProductLength(g, idx);
  }

  lemma WeightPositive(n: nat, w: nat, m: nat)
    requires m < n * w
    ensures w > 0
  {
  }

  lemma QuotientTooLarge(a: nat, n: nat, w: nat)
    requires a >= n
    ensures a * w >= n * w
  {
    assert a * w == n * w + (a - n) * w;
  }

  /** The digit of m for key i in the mixed-radix system of the value-list lengths. */
  function Digit<V>(g: Grid<V>, m: nat, i: nat): nat
    requires |g.keys| == |g.values| && i < |g.keys| && Weight(g, i + 1) > 0 && |g.values[i]| > 0
  {
    m / Weight(g, i + 1) % |g.values[i]|
  }

  /** The weight of a shallower key is a multiple of every deeper one's. */
  lemma {:induction false} WeightDivides<V>(g: Grid<V>, idx: nat, i: nat) returns (c: nat)
    requires |g.keys| == |g.values| && idx <= i <= |g.keys|
    ensures Weight(g, idx) == c * Weight(g, i)
    decreases i - idx
  {
    if idx == i {
      c := 1;
    } else {
      var d := WeightDivides(g, idx + 1, i);
      c := |g.values[idx]| * d;
      MulAssoc(|g.values[idx]|, d, Weight(g, i));
    }
  }

  lemma MulAssoc(a: int, b: int, c: int)
    ensures a * (b * c) == (a * b) * c
  {
  }

  /** Adding a multiple of l * w to r does not change the digit (r / w) % l. */
  lemma DigitStable(r: nat, k: nat, l: nat, w: nat)
    requires l > 0 && w > 0
    ensures (k * (l * w) + r) / w % l == r / w % l
  {
    var q, s := r / w, r % w;
    assert r == q * w + s;
    assert k * (l * w) + r == (k * l + q) * w + s by {
      MulAssoc(k, l, w);
      assert (k * l + q) * w == (k * l) * w + q * w;
    }
    DivModUnique(k * (l * w) + r, w, k * l + q, s);
    var e, f := q / l, q % l;
    assert q == e * l + f;
    assert k * l + q == (k + e) * l + f by { assert (k + e) * l == k * l + e * l; }
    DivModUnique(k * l + q, l, k + e, f);
  }

  /** Entry m is the mixed-radix decoding of m: key i gets the value its digit selects. */
  lemma {:induction false} EntryDecodes<V>(g: Grid<V>, idx: nat, m: nat, i: nat)
    requires ValidGrid(g) && idx <= i < |g.keys| && m < Weight(g, idx)
    ensures Weight(g, i + 1) > 0 && |g.values[i]| > 0 && |Product(g, idx)| == Weight(g, idx)
    ensures g.keys[i] in Product(g, idx)[m] && Product(g, idx)[m][g.keys[i]] == g.values[i][Digit(g, m, i)]
    decreases |g.keys| - idx
  {
    var a, r := SplitEntry(g, idx, m);
    if i == idx {
      SmallMod(a, |g.values[idx]|);
      ProductKeys(g, idx + 1);
      assert g.keys[idx] !in g.keys[idx + 1..];
    } else {
      EntryDecodes(g, idx + 1, r, i);
      DigitOfRest(g, idx, a, r, i);
      assert g.keys[i] in Product(g, idx + 1)[r];
    }
  }

  lemma DigitOfRest<V>(g: Grid<V>, idx: nat, a: nat, r: nat, i: nat)
    requires |g.keys| == |g.values| && idx < i < |g.keys| && Weight(g, i + 1) > 0 && |g.values[i]| > 0
    ensures Digit(g, a * Weight(g, idx + 1) + r, i) == Digit(g, r, i)
  {
    var c := WeightDivides(g, idx + 1, i);
    MulAssoc(a, c, Weight(g, i));
    DigitStable(r, a * c, |g.values[i]|, Weight(g, i + 1));
  }

  lemma SmallMod(a: nat, n: nat)
    requires a < n
    ensures a % n == a
  {
  }

  /** Every dictionary that picks one listed value per key is generated. */
  lemma {:induction false} EveryChoiceGenerated<V>(g: Grid<V>, idx: nat, choice: map<string, V>)
    requires ValidGrid(g) && idx <= |g.keys|
    requires choice.Keys == KeySet(g, idx)
    requires forall i :: idx <= i < |g.keys| ==> g.keys[i] in choice && choice[g.keys[i]] in g.values[i]
    ensures choice in Product(g, idx)
    decreases |g.keys| - idx
  {
    if idx == |g.keys| {
      assert choice == map[];
    } else {
      var key := g.keys[idx];
      assert key in choice && choice[key] in g.values[idx];
      var a :| 0 <= a < |g.values[idx]| && g.values[idx][a] == choice[key];
      var rest := choice - {key};
      RestOfChoice(g, idx, choice);
      EveryChoiceGenerated(g, idx + 1, rest);
      var r :| 0 <= r < |Product(g, idx + 1)| && Product(g, idx + 1)[r] == rest;
      ProductLength(g, idx + 1);
      ChoiceEntry(g, idx, choice, a, r);
    }
  }

  lemma ChoiceEntry<V>(g: Grid<V>, idx: nat, choice: map<string, V>, a: nat, r: nat)
    requires |g.keys| == |g.values| && idx < |g.keys| && a < |g.values[idx]| && r < Weight(g, idx + 1)
    requires |Product(g, idx + 1)| == Weight(g, idx + 1) && Product(g, idx + 1)[r] == choice - {g.keys[idx]}
    requires g.keys[idx] in choice && choice[g.keys[idx]] == g.values[idx][a]
    ensures choice in Product(g, idx)
  {
    BranchesEntry(g, idx, |g.values[idx]|, a, r);
    assert choice == map[g.keys[idx] := choice[g.keys[idx]]] + (choice - {g.keys[idx]});
  }

  lemma RestOfChoice<V>(g: Grid<V>, idx: nat, choice: map<string, V>)
    requires ValidGrid(g) && idx < |g.keys| && choice.Keys == KeySet(g, idx)
    ensures (choice - {g.keys[idx]}).Keys == KeySet(g, idx + 1)
    ensures forall i :: idx < i < |g.keys| ==> g.keys[i] in choice - {g.keys[idx]}
  {
    assert g.keys[idx..] == [g.keys[idx]] + g.keys[idx + 1..];
    assert g.keys[idx] !in g.keys[idx + 1..];
    forall i | idx < i < |g.keys| ensures g.keys[i] in choice - {g.keys[idx]} {
      assert g.keys[i] == g.keys[idx + 1..][i - idx - 1];
    }
  }

  /** With distinct values per key no combination is generated twice. */
  lemma {:induction false} NoDuplicates<V>(g: Grid<V>, idx: nat, m: nat, m': nat)
    requires ValidGrid(g) && idx <= |g.keys| && m < Weight(g, idx) && m' < Weight(g, idx)
    requires forall i :: 0 <= i < |g.values| ==> Distinct(g.values[i])
    requires |Product(g, idx)| == Weight(g, idx) && Product(g, idx)[m] == Product(g, idx)[m']
    ensures m == m'
    decreases |g.keys| - idx
  {
    if idx < |g.keys| {
      var a, r := SplitEntry(g, idx, m);
      var a', r' := SplitEntry(g, idx, m');
      ProductKeys(g, idx + 1);
      assert g.keys[idx] !in g.keys[idx + 1..];
      SplitUnion(g.keys[idx], g.values[idx][a], g.values[idx][a'], Product(g, idx + 1)[r], Product(g, idx + 1)[r']);
      assert Distinct(g.values[idx]);
      NoDuplicates(g, idx + 1, r, r');
    }
  }

  lemma SplitUnion<V>(key: string, v: V, v': V, t: map<string, V>, t': map<string, V>)
    requires key !in t && key !in t' && map[key := v] + t == map[key := v'] + t'
    ensures v == v' && t == t'
  {
    var u := map[key := v] + t;
    var u' := map[key := v'] + t';
    assert u[key] == v && u'[key] == v';
    assert t == u - {key} && t' == u' - {key};
  }

  // ---- Grid search ----

  datatype Result<V> = Result(params: map<string, V>, score: real)

  /** The measured results, in order, of the combinations that could be applied. */
  function Measured<V>(combos: seq<map<string, V>>, scores: seq<Option<real>>): seq<Result<V>>
    requires |scores| == |combos|
  {
    if combos == [] then []
    else
      var n := |combos| - 1;
      Measured(combos[..n], scores[..n]) + if scores[n].Some? then [Result(combos[n], scores[n].value)] else []
  }

  /** The first entry with the maximum score, among the first n. */
  ghost predicate EarliestBest(scores: seq<Option<real>>, n: nat, best: nat) {
    && best < n <= |scores| && scores[best].Some?
    && (forall i :: 0 <= i < n && scores[i].Some? ==> scores[i].value <= scores[best].value)
    && (forall i :: 0 <= i < best && scores[i].Some? ==> scores[i].value < scores[best].value)
  }

  /** One pass over the combinations; `scores[i]` is what applying combination i yields, None if it fails. */
  method OptimizePair<V>(combos: seq<map<string, V>>, scores: seq<Option<real>>)
    returns (best: Option<Result<V>>, results: seq<Result<V>>)
    requires |scores| == |combos|
    ensures results == Measured(combos, scores)
    ensures best.None? <==> forall i :: 0 <= i < |scores| ==> scores[i].None?
    ensures best.Some? ==>
              exists i: nat :: EarliestBest(scores, |scores|, i) && best.value == Result(combos[i], scores[i].value)
  {
    best, results := None, [];
    ghost var at: nat := 0;
    for i := 0 to |combos|
      invariant results == Measured(combos[..i], scores[..i])
      invariant best.None? <==> forall j :: 0 <= j < i ==> scores[j].None?
      invariant best.Some? ==> EarliestBest(scores, i, at) && best.value == Result(combos[at], scores[at].value)
    {
      assert combos[..i + 1][..i] == combos[..i] && scores[..i + 1][..i] == scores[..i];
      if scores[i].None? { continue; }
      var result := Result(combos[i], scores[i].value);
      results := results + [result];
      if best.None? || result.score > best.value.score {
        best, at := Some(result), i;
      }
    }
    assert combos[..|combos|] == combos && scores[..|combos|] == scores;
  }
}

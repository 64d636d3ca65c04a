/** The two PnL backfills compared, and the matching of database trades to broker deals. */
module BackfillPnl {
  import opened Common

  datatype EntryKind = In | Out | OutBy | InOut | Other

  /** A broker deal. Absent text is "", an unreadable or absent time is None. */
  datatype Deal = Deal(position: string, order: string, symbol: string, time: Option<real>, kind: EntryKind,
                       profit: real, commission: real, swap: real)

  predicate Closing(d: Deal) { d.kind.Out? || d.kind.OutBy? }

  /** Sums over the deals of one position, and the number and profit of its closing deals. */
  datatype Sums = Sums(profit: real, commission: real, swap: real, closing: nat, closingProfit: real)

  function SumsOf(deals: seq<Deal>, pid: string): Sums {
    if deals == [] then Sums(0.0, 0.0, 0.0, 0, 0.0)
    else
      AddDeal(SumsOf(deals[..|deals| - 1], pid), deals[|deals| - 1], pid)
  }

  function AddDeal(s: Sums, d: Deal, pid: string): Sums {
    if d.position != pid then s
    else Sums(s.profit + d.profit, s.commission + d.commission, s.swap + d.swap,
              s.closing + (if Closing(d) then 1 else 0), s.closingProfit + if Closing(d) then d.profit else 0.0)
  }

  // ---- Script: enriched closing deals ----

  /** A closing deal carrying the round-trip commission and swap of its whole position. */
  function Enriched(all: seq<Deal>, d: Deal): Deal {
    if d.position == "" then d
    else d.(commission := SumsOf(all, d.position).commission, swap := SumsOf(all, d.position).swap)
  }

  function EnrichedClosing(all: seq<Deal>, deals: seq<Deal>): seq<Deal> {
    if deals == [] then []
    else
      var d := deals[|deals| - 1];
      EnrichedClosing(all, deals[..|deals| - 1]) + if Closing(d) then [Enriched(all, d)] else []
  }

  function OfPosition(deals: seq<Deal>, pid: string): seq<Deal> {
    if deals == [] then []
    else
      var d := deals[|deals| - 1];
      OfPosition(deals[..|deals| - 1], pid) + if d.position == pid then [d] else []
  }

  /** Commission and swap summed over a list of deals. */
  method Fees(deals: seq<Deal>, ghost pid: string) returns (commission: real, swap: real)
    requires forall i :: 0 <= i < |deals| ==> deals[i].position == pid
    ensures commission == SumsOf(deals, pid).commission && swap == SumsOf(deals, pid).swap
  {
    commission, swap := 0.0, 0.0;
    for i := 0 to |deals|
      invariant commission == SumsOf(deals[..i], pid).commission && swap == SumsOf(deals[..i], pid).swap
    {
      assert deals[..i + 1][..i] == deals[..i];
      commission, swap := commission + deals[i].commission, swap + deals[i].swap;
    }
    assert deals[..|deals|] == deals;
  }

  /** Sum of one field over the deals of one position. */
  function Total(deals: seq<Deal>, pid: string, field: Deal -> real): real {
    if deals == [] then 0.0
    else
      var d := deals[|deals| - 1];
      Total(deals[..|deals| - 1], pid, field) + if d.position == pid then field(d) else 0.0
  }

  function Profit(): Deal -> real { (d: Deal) => d.profit }

  function Commission(): Deal -> real { (d: Deal) => d.commission }

  function Swap(): Deal -> real { (d: Deal) => d.swap }

  function ClosingProfit(): Deal -> real { (d: Deal) => if d.kind.Out? || d.kind.OutBy? then d.profit else 0.0 }

  function Closes(pid: string): Deal -> bool { (d: Deal) => d.position == pid && (d.kind.Out? || d.kind.OutBy?) }

  function ClosingOf(deals: seq<Deal>): seq<Deal> {
    if deals == [] then []
    else
      var d := deals[|deals| - 1];
      ClosingOf(deals[..|deals| - 1]) + if d.kind.Out? || d.kind.OutBy? then [d] else []
  }

  /** `e` is deal `d` with the commission and the swap of its whole position, or `d` itself if it has none. */
  predicate CarriesFees(e: Deal, d: Deal, all: seq<Deal>) {
    e == if d.position == "" then d
         else d.(commission := Total(all, d.position, Commission()), swap := Total(all, d.position, Swap()))
  }

  /** The sums kept for a position are those of its deals' fields, over all its deals or its closing ones. */
  lemma {:induction false} SumsAre(deals: seq<Deal>, pid: string)
    ensures SumsOf(deals, pid)
         == Sums(Total(deals, pid, Profit()), Total(deals, pid, Commission()), Total(deals, pid, Swap()),
                 HowMany(deals, Closes(pid)), Total(deals, pid, ClosingProfit()))
  {
    if deals == [] {
      HowManyNone(Closes(pid));
    } else {
      var init, d := deals[..|deals| - 1], deals[|deals| - 1];
      SumsAre(init, pid);
      assert deals == init + [d];
      HowManySnoc(init, d, Closes(pid));
    }
  }

  /** The enriched deals are the closing ones, in order, each with its position's fees. */
  lemma {:induction false} ClosingCarryFees(all: seq<Deal>, deals: seq<Deal>)
    ensures var enriched, closing := EnrichedClosing(all, deals), ClosingOf(deals);
            |enriched| == |closing| && forall i :: 0 <= i < |closing| ==> CarriesFees(enriched[i], closing[i], all)
  {
    if deals != [] {
      ClosingCarryFees(all, deals[..|deals| - 1]);
      SumsAre(all, deals[|deals| - 1].position);
    }
  }

  /** Group by position, then enrich every closing deal. */
  method FetchBrokerDeals(all: seq<Deal>) returns (closing: seq<Deal>)
    ensures closing == EnrichedClosing(all, all)
    ensures |closing| == |ClosingOf(all)|
    ensures forall i :: 0 <= i < |closing| ==> CarriesFees(closing[i], ClosingOf(all)[i], all)
  {
    ClosingCarryFees(all, all);
    var byPosition: map<string, seq<Deal>> := map[];
    for i := 0 to |all|
      invariant GroupedBy(byPosition, all[..i])
    {
      assert all[..i + 1][..i] == all[..i];
      GroupStep(byPosition, all[..i], all[i]);
      assert all[..i] + [all[i]] == all[..i + 1];
      var pid := all[i].position;
      if pid != "" {
        byPosition := byPosition[pid := (if pid in byPosition then byPosition[pid] else []) + [all[i]]];
      }
    }
    assert all[..|all|] == all;
    closing := [];
    for i := 0 to |all|
      invariant closing == EnrichedClosing(all, all[..i])
    {
      assert all[..i + 1][..i] == all[..i];
      var d := all[i];
      if !Closing(d) { continue; }
      GroupLookup(byPosition, all, d, i);
      var group := if d.position in byPosition then byPosition[d.position] else [d];
      var commission, swap := Fees(group, d.position);
      SumsOfGroup(all, d.position);
      closing := closing + [d.(commission := commission, swap := swap)];
    }
  }

  ghost predicate GroupedBy(groups: map<string, seq<Deal>>, deals: seq<Deal>) {
    && "" !in groups
    && (forall pid :: pid in groups ==> groups[pid] == OfPosition(deals, pid))
    && (forall pid :: pid != "" && pid !in groups ==> OfPosition(deals, pid) == [])
  }

  lemma {:induction false} GroupStep(groups: map<string, seq<Deal>>, deals: seq<Deal>, d: Deal)
    requires GroupedBy(groups, deals)
    ensures d.position == "" ==> GroupedBy(groups, deals + [d])
    ensures d.position != "" ==>
              var earlier := if d.position in groups then groups[d.position] else [];
              GroupedBy(groups[d.position := earlier + [d]], deals + [d])
  {
    assert (deals + [d])[..|deals|] == deals;
    assert forall pid :: OfPosition(deals + [d], pid) == OfPosition(deals, pid) + if d.position == pid then [d] else [];
  }

  lemma {:induction false} OfPositionHas(deals: seq<Deal>, pid: string, i: nat)
    requires i < |deals| && deals[i].position == pid
    ensures OfPosition(deals, pid) != []
  {
    if i < |deals| - 1 { OfPositionHas(deals[..|deals| - 1], pid, i); }
  }

  lemma {:induction false} OfPositionOnly(deals: seq<Deal>, pid: string)
    ensures forall i :: 0 <= i < |OfPosition(deals, pid)| ==> OfPosition(deals, pid)[i].position == pid
  {
    if deals != [] { OfPositionOnly(deals[..|deals| - 1], pid); }
  }

  lemma {:induction false} SumsOfGroup(deals: seq<Deal>, pid: string)
    ensures SumsOf(OfPosition(deals, pid), pid) == SumsOf(deals, pid)
  {
    if deals != [] {
      var init, d := deals[..|deals| - 1], deals[|deals| - 1];
      SumsOfGroup(init, pid);
      if d.position == pid {
        var g := OfPosition(init, pid);
        assert (g + [d])[..|g|] == g;
      } else {
        assert OfPosition(deals, pid) == OfPosition(init, pid);
      }
    }
  }

  lemma {:induction false} GroupLookup(groups: map<string, seq<Deal>>, all: seq<Deal>, d: Deal, i: nat)
    requires GroupedBy(groups, all) && i < |all| && all[i] == d
    ensures d.position != "" ==> d.position in groups && groups[d.position] == OfPosition(all, d.position)
    ensures d.position == "" ==>
              SumsOf([d], d.position).commission == d.commission && SumsOf([d], d.position).swap == d.swap
    ensures forall k :: 0 <= k < |OfPosition(all, d.position)| ==> OfPosition(all, d.position)[k].position == d.position
  {
    OfPositionHas(all, d.position, i);
    OfPositionOnly(all, d.position);
    assert [d][..0] == [];
  }

  // ---- Endpoint: one total per position ----

  /** The net the endpoint stores: profit, commission and swap of all the position's deals, provided one of
      them is an exit. */
  function PositionNet(deals: seq<Deal>, pid: string): Option<real> {
    var s := SumsOf(deals, pid);
    if HasExit(deals, pid) then Some(s.profit + s.commission + s.swap) else None
  }

  predicate HasExit(deals: seq<Deal>, pid: string) {
    exists i :: 0 <= i < |deals| && deals[i].position == pid && (Closing(deals[i]) || deals[i].kind.InOut?)
  }

  method BackfillPosition(deals: seq<Deal>, pid: string) returns (net: Option<real>)
    ensures net == PositionNet(deals, pid)
    ensures net.Some? <==>
            exists d :: d in deals && d.position == pid && (d.kind.Out? || d.kind.OutBy? || d.kind.InOut?)
    ensures net.Some? ==>
              net.value == Total(deals, pid, Profit()) + Total(deals, pid, Commission()) + Total(deals, pid, Swap())
  {
    SumsAre(deals, pid);
    var pnl, commission, swap := 0.0, 0.0, 0.0;
    var exits := 0;
    for i := 0 to |deals|
      invariant var s := SumsOf(deals[..i], pid);
                pnl == s.profit && commission == s.commission && swap == s.swap
      invariant exits >= 0 && (exits > 0 <==> HasExit(deals[..i], pid))
    {
      assert deals[..i + 1][..i] == deals[..i];
      ExitStep(deals, pid, i);
      if deals[i].position == pid {
        pnl, commission, swap := pnl + deals[i].profit, commission + deals[i].commission, swap + deals[i].swap;
        if Closing(deals[i]) || deals[i].kind.InOut? { exits := exits + 1; }
      }
    }
    assert deals[..|deals|] == deals;
    return if exits == 0 then None else Some(pnl + commission + swap);
  }

  lemma ExitStep(deals: seq<Deal>, pid: string, i: nat)
    requires i < |deals|
    ensures HasExit(deals[..i + 1], pid) <==>
            HasExit(deals[..i], pid) || (deals[i].position == pid && (Closing(deals[i]) || deals[i].kind.InOut?))
  {
    var a, b := deals[..i], deals[..i + 1];
    assert b == a + [deals[i]];
    if HasExit(a, pid) {
      var k :| 0 <= k < |a| && a[k].position == pid && (Closing(a[k]) || a[k].kind.InOut?);
      assert b[k] == a[k];
    }
    if deals[i].position == pid && (Closing(deals[i]) || deals[i].kind.InOut?) { assert b[i] == deals[i]; }
  }

  // ---- The two against each other ----

  function Net(d: Deal): real { d.profit + d.commission + d.swap }

  function NetSum(deals: seq<Deal>, pid: string): real {
    if deals == [] then 0.0
    else NetSum(deals[..|deals| - 1], pid) + if deals[|deals| - 1].position == pid then Net(deals[|deals| - 1]) else 0.0
  }

  /** n times x, by repeated addition. */
  function Times(n: nat, x: real): real { if n == 0 then 0.0 else Times(n - 1, x) + x }

  lemma {:induction false} TimesIsProduct(n: nat, x: real)
    ensures Times(n, x) == n as real * x
  {
    if n > 0 {
      TimesIsProduct(n - 1, x);
      OneMore((n - 1) as real, x);
      assert n as real == (n - 1) as real + 1.0;
    }
  }

  lemma OneMore(k: real, x: real)
    ensures (k + 1.0) * x == k * x + x
  {
  }

  lemma NetSumSnoc(deals: seq<Deal>, d: Deal, pid: string)
    ensures NetSum(deals + [d], pid) == NetSum(deals, pid) + if d.position == pid then Net(d) else 0.0
  {
    assert (deals + [d])[..|deals|] == deals;
  }

  lemma {:induction false} EnrichedNetSum(all: seq<Deal>, deals: seq<Deal>, pid: string)
    requires pid != ""
    ensures var s, t := SumsOf(deals, pid), SumsOf(all, pid);
            NetSum(EnrichedClosing(all, deals), pid) == s.closingProfit + Times(s.closing, t.commission + t.swap)
  {
    if deals != [] {
      var init, d := deals[..|deals| - 1], deals[|deals| - 1];
      var e := EnrichedClosing(all, init);
      EnrichedNetSum(all, init, pid);
      if Closing(d) {
        NetSumSnoc(e, Enriched(all, d), pid);
      } else {
        assert EnrichedClosing(all, deals) == e;
      }
    }
  }

  /** How far the enriched nets exceed the per-position net. */
  function Surplus(deals: seq<Deal>, pid: string): real
    requires PositionNet(deals, pid).Some?
  {
    NetSum(EnrichedClosing(deals, deals), pid) - PositionNet(deals, pid).value
  }

  /** The profit booked on deals that do not close the position. */
  function OtherProfit(deals: seq<Deal>, pid: string): real {
    SumsOf(deals, pid).profit - SumsOf(deals, pid).closingProfit
  }

  /** Commission and swap of all deals of the position. */
  function RoundTripFees(deals: seq<Deal>, pid: string): real {
    if deals == [] then 0.0
    else
      var d := deals[|deals| - 1];
      RoundTripFees(deals[..|deals| - 1], pid) + if d.position == pid then d.commission + d.swap else 0.0
  }

  lemma {:induction false} FeesAreSums(deals: seq<Deal>, pid: string)
    ensures RoundTripFees(deals, pid) == SumsOf(deals, pid).commission + SumsOf(deals, pid).swap
  {
    if deals != [] { FeesAreSums(deals[..|deals| - 1], pid); }
  }

  lemma BackfillsDifferByTimes(deals: seq<Deal>, pid: string)
    requires pid != "" && SumsOf(deals, pid).closing >= 1
    ensures PositionNet(deals, pid).Some?
    ensures Surplus(deals, pid)
         == Times(SumsOf(deals, pid).closing - 1, RoundTripFees(deals, pid)) - OtherProfit(deals, pid)
  {
    EnrichedNetSum(deals, deals, pid);
    ClosingIsExit(deals, pid);
    FeesAreSums(deals, pid);
  }

  /** The surplus is n times the fees, less `other`. */
  predicate Exceeds(surplus: real, n: nat, fees: real, other: real) { surplus == n as real * fees - other }

  lemma AsProduct(surplus: real, n: nat, fees: real, other: real)
    requires surplus == Times(n, fees) - other
    ensures Exceeds(surplus, n, fees, other)
  {
    TimesIsProduct(n, fees);
  }

  /** With k closing deals, the enriched nets exceed the per-position net by k - 1 times the position's fees,
      less the profit booked on deals that do not close. */
  lemma BackfillsDiffer(deals: seq<Deal>, pid: string)
    requires pid != "" && SumsOf(deals, pid).closing >= 1
    ensures PositionNet(deals, pid).Some?
    ensures Exceeds(Surplus(deals, pid), SumsOf(deals, pid).closing - 1, RoundTripFees(deals, pid),
                    OtherProfit(deals, pid))
  {
    BackfillsDifferByTimes(deals, pid);
    AsProduct(Surplus(deals, pid), SumsOf(deals, pid).closing - 1, RoundTripFees(deals, pid), OtherProfit(deals, pid));
  }

  lemma {:induction false} ClosingIsExit(deals: seq<Deal>, pid: string)
    requires SumsOf(deals, pid).closing >= 1
    ensures HasExit(deals, pid)
  {
    var n := |deals| - 1;
    if !(deals[n].position == pid && Closing(deals[n])) {
      ClosingIsExit(deals[..n], pid);
      var k :| 0 <= k < n && deals[..n][k].position == pid && (Closing(deals[..n][k]) || deals[..n][k].kind.InOut?);
      assert deals[k] == deals[..n][k];
    }
  }

  /** n times the fees is the other deals' profit. */
  predicate Balances(n: nat, fees: real, other: real) { n as real * fees == other }

  lemma BalancesIff(surplus: real, n: nat, fees: real, other: real)
    requires surplus == Times(n, fees) - other
    ensures surplus == 0.0 <==> Balances(n, fees, other)
    ensures n == 0 ==> (surplus == 0.0 <==> other == 0.0)
  {
    TimesIsProduct(n, fees);
  }

  /** They agree exactly when the surplus fees equal the profit on non-closing deals; with a single closing
      deal, exactly when the other deals carry no profit in total. */
  lemma BackfillsAgreeIff(deals: seq<Deal>, pid: string)
    requires pid != "" && SumsOf(deals, pid).closing >= 1
    ensures PositionNet(deals, pid).Some?
    ensures Surplus(deals, pid) == 0.0 <==>
            Balances(SumsOf(deals, pid).closing - 1, RoundTripFees(deals, pid), OtherProfit(deals, pid))
    ensures SumsOf(deals, pid).closing == 1 ==> (Surplus(deals, pid) == 0.0 <==> OtherProfit(deals, pid) == 0.0)
  {
    BackfillsDifferByTimes(deals, pid);
    BalancesIff(Surplus(deals, pid), SumsOf(deals, pid).closing - 1, RoundTripFees(deals, pid),
                OtherProfit(deals, pid));
  }

  // ---- Matching a database trade to a deal ----

  datatype Trade = Trade(symbol: string, closedAt: Option<real>, positionId: string, orderId: string)

  predicate ById(t: Trade, d: Deal) {
    || (t.positionId != "" && d.position == t.positionId)
    || (t.orderId != "" && (d.position == t.orderId || d.order == t.orderId))
  }

  predicate ByTime(t: Trade, d: Deal) {
    && t.symbol != "" && d.symbol == t.symbol && t.closedAt.Some? && d.time.Some?
    && -300.0 < d.time.value - t.closedAt.value < 300.0
  }

  /** The deal has the trade's position id, or its order id as either of its own, or its symbol less than five
      minutes from its close. */
  ghost predicate Matches(t: Trade, d: Deal) {
    || (t.positionId != "" && t.positionId == d.position)
    || (t.orderId != "" && t.orderId in {d.position, d.order})
    || (t.symbol != "" && t.symbol == d.symbol
        && exists a, b :: t.closedAt == Some(a) && d.time == Some(b) && b < a + 300.0 && a < b + 300.0)
  }

  /** The first deal that matches in any way. */
  method MatchTradeToDeal(t: Trade, deals: seq<Deal>) returns (at: Option<nat>)
    ensures at == FirstMatch(t, deals)
    ensures at.None? ==> forall i :: 0 <= i < |deals| ==> !Matches(t, deals[i])
    ensures at.Some? ==> && at.value < |deals| && Matches(t, deals[at.value])
                         && forall i :: 0 <= i < at.value ==> !Matches(t, deals[i])
  {
    FirstMatchMeaning(t, deals);
    for i := 0 to |deals|
      invariant FirstMatch(t, deals)
             == if FirstMatch(t, deals[i..]).Some? then Some(i + FirstMatch(t, deals[i..]).value) else None
    {
      var d := deals[i];
      assert deals[i..][1..] == deals[i + 1..];
      if t.positionId != "" && d.position == t.positionId { return Some(i); }
      if t.orderId != "" && d.position == t.orderId { return Some(i); }
      if t.orderId != "" && d.order == t.orderId { return Some(i); }
      if t.symbol != "" && d.symbol == t.symbol && t.closedAt.Some? && d.time.Some? {
        var difference := d.time.value - t.closedAt.value;
        if difference < 0.0 { difference := -difference; }
        if difference < 300.0 { return Some(i); }
      }
    }
    return None;
  }

  function FirstMatch(t: Trade, deals: seq<Deal>): Option<nat> {
    if deals == [] then None
    else if ById(t, deals[0]) || ByTime(t, deals[0]) then Some(0)
    else
      match FirstMatch(t, deals[1..])
      case None => None
      case Some(k) => Some(k + 1)
  }

  lemma {:induction false} FirstMatchMeaning(t: Trade, deals: seq<Deal>)
    ensures match FirstMatch(t, deals)
            case None => forall i :: 0 <= i < |deals| ==> !ById(t, deals[i]) && !ByTime(t, deals[i])
            case Some(k) => && k < |deals| && (ById(t, deals[k]) || ByTime(t, deals[k]))
                            && forall i :: 0 <= i < k ==> !ById(t, deals[i]) && !ByTime(t, deals[i])
  {
    if deals != [] {
      FirstMatchMeaning(t, deals[1..]);
      assert forall i :: 1 <= i < |deals| ==> deals[i] == deals[1..][i - 1];
    }
  }

  /** The documented order of the four tests; 5 is no match. */
  function Rank(t: Trade, d: Deal): (rank: nat)
    ensures 1 <= rank <= 5 && (rank <= 3 <==> ById(t, d)) && (rank <= 4 <==> ById(t, d) || ByTime(t, d))
    ensures rank <= 1 <==> d.position == t.positionId != ""
    ensures rank <= 2 <==> d.position != "" && d.position in {t.positionId, t.orderId}
  {
    if t.positionId != "" && d.position == t.positionId then 1
    else if t.orderId != "" && d.position == t.orderId then 2
    else if t.orderId != "" && d.order == t.orderId then 3
    else if ByTime(t, d) then 4
    else 5
  }

  /** The deal at `best` is the first one of the best rank there is. */
  ghost predicate BestRanked(t: Trade, deals: seq<Deal>, best: nat) {
    && best < |deals| && Rank(t, deals[best]) <= 4
    && (forall i :: 0 <= i < |deals| ==> Rank(t, deals[best]) <= Rank(t, deals[i]))
    && (forall i :: 0 <= i < best ==> Rank(t, deals[best]) < Rank(t, deals[i]))
  }

  /** The documented order of the tests is respected exactly when no deal before the best-ranked one matches in
      any way. */
  lemma RankedMatchIff(t: Trade, deals: seq<Deal>, best: nat)
    requires BestRanked(t, deals, best)
    ensures FirstMatch(t, deals) == Some(best) <==> forall i :: 0 <= i < best ==> Rank(t, deals[i]) == 5
  {
    FirstMatchMeaning(t, deals);
    assert forall i :: 0 <= i < |deals| ==> (Rank(t, deals[i]) <= 4 <==> ById(t, deals[i]) || ByTime(t, deals[i]));
  }

  /** A deal of another position is matched although the trade's own deal is listed. */
  lemma IdMatchCanLose()
    ensures var t := Trade("EURUSD", Some(1000.0), "p1", "");
            var other := Deal("p2", "", "EURUSD", Some(900.0), Out, 5.0, 0.0, 0.0);
            var own := Deal("p1", "", "EURUSD", Some(1000.0), Out, 7.0, 0.0, 0.0);
            ById(t, own) && !ById(t, other) && FirstMatch(t, [other, own]) == Some(0)
  {
  }

  /** A deal with the trade's order id is matched although the deal with its position id is listed. */
  lemma OrderIdCanWin()
    ensures var t := Trade("", None, "p2", "o1");
            var byOrder := Deal("p1", "o1", "", None, Out, 5.0, 0.0, 0.0);
            var byPosition := Deal("p2", "", "", None, Out, 7.0, 0.0, 0.0);
            Rank(t, byOrder) == 3 && Rank(t, byPosition) == 1 && FirstMatch(t, [byOrder, byPosition]) == Some(0)
  {
  }
}

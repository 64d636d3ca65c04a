/** One account's trade history: database rows merged with the broker's historical positions. */
module TradeHistory {
  import opened Common

  /** A completed signal row. An absent id is 0, an absent time 0, absent text "". Times are in seconds. */
  datatype DbRow = DbRow(id: int, symbol: string, brokerOrderId: string, executed: bool, net: Option<real>,
                         commission: real, swap: real, exitTime: nat, closeTime: nat, closedAt: nat, entryTime: nat)

  datatype DealKind = In | InOut | Out | OutBy | Other

  datatype Deal = Deal(position: string, time: nat, kind: DealKind, symbol: string, profit: real, swap: real,
                       commission: real)

  datatype Outcome = Win | Loss

  datatype Source = Database | Broker

  /** A line of the history; `position` is set for broker lines only. */
  datatype Trade = Trade(source: Source, id: int, position: string, symbol: string, pnl: Option<real>, executed: bool,
                         outcome: Option<Outcome>, entry: nat, exit: nat)

  /** Symbol, minute of the exit (0 when it is absent) and net PnL in cents. */
  datatype Fingerprint = Fingerprint(symbol: string, minute: nat, cents: int)

  function OutcomeOf(gross: real): (o: Outcome)
    ensures o.Win? <==> gross >= 0.0
  {
    if gross >= 0.0 then Win else Loss
  }

  function FirstTime(a: nat, b: nat): nat { if a != 0 then a else b }

  function Minute(t: nat): nat { if t == 0 then 0 else t / 60 + 1 }

  function DbTrade(r: DbRow): Trade {
    var gross := if r.net.Some? then Some(r.net.value - r.commission - r.swap) else None;
    Trade(Database, r.id, "", r.symbol, gross, r.executed,
          if r.executed && gross.Some? then Some(OutcomeOf(gross.value)) else None,
          r.entryTime, FirstTime(r.closeTime, FirstTime(r.closedAt, r.exitTime)))
  }

  function DbFingerprint(r: DbRow): Option<Fingerprint> {
    var exit := FirstTime(r.exitTime, r.closedAt);
    if exit == 0 || r.symbol == "" then None
    else Some(Fingerprint(r.symbol, Minute(exit), RoundHalfEven((if r.net.Some? then r.net.value else 0.0) * 100.0)))
  }

  /** Ids of the first query's rows. */
  function Ids(rows: seq<DbRow>): set<int> { set r | r in rows && r.id != 0 :: r.id }

  function NotIn(rows: seq<DbRow>, ids: set<int>): seq<DbRow> {
    if rows == [] then []
    else NotIn(rows[..|rows| - 1], ids) + if rows[|rows| - 1].id !in ids then [rows[|rows| - 1]] else []
  }

  /** Rows of the account plus legacy rows of its broker profile that are not among them. */
  function DbRows(primary: seq<DbRow>, legacy: seq<DbRow>): seq<DbRow> { primary + NotIn(legacy, Ids(primary)) }

  function DbTrades(rows: seq<DbRow>): seq<Trade> {
    if rows == [] then [] else DbTrades(rows[..|rows| - 1]) + [DbTrade(rows[|rows| - 1])]
  }

  function PositionIds(rows: seq<DbRow>): set<string> { set r | r in rows && r.brokerOrderId != "" :: r.brokerOrderId }

  function Fingerprints(rows: seq<DbRow>): set<Fingerprint> {
    set r | r in rows && DbFingerprint(r).Some? :: DbFingerprint(r).value
  }

  // ---- Broker positions ----

  /** Position ids in order of first appearance. */
  function Positions(deals: seq<Deal>): seq<string> {
    if deals == [] then []
    else
      var ps, d := Positions(deals[..|deals| - 1]), deals[|deals| - 1];
      if d.position == "" || d.position in ps then ps else ps + [d.position]
  }

  function DealsOf(deals: seq<Deal>, position: string): seq<Deal> {
    if deals == [] then []
    else
      DealsOf(deals[..|deals| - 1], position)
      + if deals[|deals| - 1].position == position then [deals[|deals| - 1]] else []
  }

  /** Stable insertion by time. */
  function InsertByTime(ds: seq<Deal>, d: Deal): seq<Deal> {
    if ds == [] || ds[|ds| - 1].time <= d.time then ds + [d]
    else InsertByTime(ds[..|ds| - 1], d) + [ds[|ds| - 1]]
  }

  function ByTime(ds: seq<Deal>): seq<Deal> {
    if ds == [] then [] else InsertByTime(ByTime(ds[..|ds| - 1]), ds[|ds| - 1])
  }

  predicate Opens(d: Deal) { d.kind.In? || d.kind.InOut? }

  predicate Closes(d: Deal) { d.kind.Out? || d.kind.OutBy? }

  function LastOpening(ds: seq<Deal>): Option<Deal> {
    if ds == [] then None
    else if Opens(ds[|ds| - 1]) then Some(ds[|ds| - 1]) else LastOpening(ds[..|ds| - 1])
  }

  function LastClosing(ds: seq<Deal>): Option<Deal> {
    if ds == [] then None
    else if Closes(ds[|ds| - 1]) then Some(ds[|ds| - 1]) else LastClosing(ds[..|ds| - 1])
  }

  function BrokerFingerprint(entry: Deal, exit: Deal): Fingerprint {
    Fingerprint(entry.symbol, Minute(exit.time), RoundHalfEven((exit.profit + exit.swap + exit.commission) * 100.0))
  }

  /** The line for the deals of one position, unless it is still open or its fingerprint is known. */
  function Converted(group: seq<Deal>, position: string, fps: set<Fingerprint>): Option<Trade> {
    var ds := ByTime(group);
    var entry, exit := LastOpening(ds), LastClosing(ds);
    if entry.None? || exit.None? then None
    else if BrokerFingerprint(entry.value, exit.value) in fps then None
    else Some(Trade(Broker, 0, position, entry.value.symbol, Some(exit.value.profit), true,
                    Some(OutcomeOf(exit.value.profit)), entry.value.time, exit.value.time))
  }

  /** The line for one broker position, unless the database has its id. */
  function BrokerTrade(deals: seq<Deal>, position: string, known: set<string>, fps: set<Fingerprint>): Option<Trade> {
    if position in known then None else Converted(DealsOf(deals, position), position, fps)
  }

  function BrokerTrades(deals: seq<Deal>, positions: seq<string>, known: set<string>, fps: set<Fingerprint>)
    : seq<Trade>
  {
    if positions == [] then []
    else
      var t := BrokerTrade(deals, positions[|positions| - 1], known, fps);
      BrokerTrades(deals, positions[..|positions| - 1], known, fps) + if t.Some? then [t.value] else []
  }

  // ---- Merge, filter, sort, statistics ----

  datatype Filter = All | OnlyWins | OnlyLosses

  predicate Passes(f: Filter, t: Trade) {
    f.All? || (f.OnlyWins? && t.outcome == Some(Win)) || (f.OnlyLosses? && t.outcome == Some(Loss))
  }

  function Select(ts: seq<Trade>, f: Filter): seq<Trade> {
    if ts == [] then []
    else Select(ts[..|ts| - 1], f) + if Passes(f, ts[|ts| - 1]) then [ts[|ts| - 1]] else []
  }

  function SortKey(t: Trade): (k: nat)
    ensures k == if t.exit != 0 then t.exit else t.entry
  {
    FirstTime(t.exit, t.entry)
  }

  /** Stable insertion in descending order. */
  function InsertDesc(ts: seq<Trade>, t: Trade): seq<Trade> {
    if ts == [] || SortKey(ts[|ts| - 1]) >= SortKey(t) then ts + [t]
    else InsertDesc(ts[..|ts| - 1], t) + [ts[|ts| - 1]]
  }

  function SortDesc(ts: seq<Trade>): seq<Trade> {
    if ts == [] then [] else InsertDesc(SortDesc(ts[..|ts| - 1]), ts[|ts| - 1])
  }

  function Pnl(t: Trade): real { if t.pnl.Some? then t.pnl.value else 0.0 }

  /** Profit of the executed winners and the (non-positive) sum of the other executed trades. */
  datatype Stats = Stats(profit: real, lossSum: real, wins: nat, executed: nat)

  function Count(s: Stats, executed: bool, pnl: real): Stats {
    if !executed then s
    else if pnl > 0.0 then s.(profit := s.profit + pnl, wins := s.wins + 1, executed := s.executed + 1)
    else s.(lossSum := s.lossSum + pnl, executed := s.executed + 1)
  }

  function StatsOf(ts: seq<Trade>): Stats {
    if ts == [] then Stats(0.0, 0.0, 0, 0)
    else Count(StatsOf(ts[..|ts| - 1]), ts[|ts| - 1].executed, Pnl(ts[|ts| - 1]))
  }

  function AbsR(x: real): real { if x < 0.0 then -x else x }

  /** Gross profit minus gross loss, before the final rounding. */
  function NetOf(s: Stats): real { s.profit - AbsR(s.lossSum) }

  datatype History = History(trades: seq<Trade>, stats: Stats, net: real)

  /** Everything before filtering. */
  function Merged(primary: seq<DbRow>, legacy: seq<DbRow>, deals: seq<Deal>): seq<Trade> {
    var rows := DbRows(primary, legacy);
    DbTrades(rows) + BrokerTrades(deals, Positions(deals), PositionIds(rows), Fingerprints(rows))
  }

  method GetTradeHistory(primary: seq<DbRow>, legacy: seq<DbRow>, deals: seq<Deal>, filter: Filter) returns (h: History)
    ensures h.trades == SortDesc(Select(Merged(primary, legacy, deals), filter))
    ensures h.stats == StatsOf(h.trades) && h.net == Round2(NetOf(h.stats))
    ensures Shows(h, Merged(primary, legacy, deals), filter)
  {
    var rows := MergeRows(primary, legacy);
    var dbTrades, known, fps := ScanRows(rows);
    var brokerTrades := FetchBroker(deals, known, fps);
    var all := SortDesc(Select(dbTrades + brokerTrades, filter));
    var s := StatsOf(all);
    var net := NetOf(s);
    h := History(all, s, Round2(net));
    HistoryMeaning(primary, legacy, deals, filter);
  }

  /** Append the legacy rows whose id the first query did not return. */
  method MergeRows(primary: seq<DbRow>, legacy: seq<DbRow>) returns (rows: seq<DbRow>)
    ensures rows == DbRows(primary, legacy)
  {
    var existing := Ids(primary);
    rows := primary;
    for i := 0 to |legacy|
      invariant rows == primary + NotIn(legacy[..i], existing)
    {
      assert legacy[..i + 1][..i] == legacy[..i];
      if legacy[i].id !in existing { rows := rows + [legacy[i]]; }
    }
    assert legacy[..|legacy|] == legacy;
  }

  /** Transform the rows, and note the position ids and fingerprints they cover. */
  method ScanRows(rows: seq<DbRow>) returns (ts: seq<Trade>, known: set<string>, fps: set<Fingerprint>)
    ensures ts == DbTrades(rows) && known == PositionIds(rows) && fps == Fingerprints(rows)
  {
    ts, known, fps := [], {}, {};
    for i := 0 to |rows|
      invariant ts == DbTrades(rows[..i]) && known == PositionIds(rows[..i]) && fps == Fingerprints(rows[..i])
    {
      assert rows[..i + 1][..i] == rows[..i];
      var fp := DbFingerprint(rows[i]);
      KnownStep(rows[..i], rows[i]);
      assert rows[..i] + [rows[i]] == rows[..i + 1];
      ts := ts + [DbTrade(rows[i])];
      if rows[i].brokerOrderId != "" { known := known + {rows[i].brokerOrderId}; }
      if fp.Some? { fps := fps + {fp.value}; }
    }
    assert rows[..|rows|] == rows;
  }

  lemma KnownStep(rows: seq<DbRow>, r: DbRow)
    ensures PositionIds(rows + [r]) == PositionIds(rows) + if r.brokerOrderId != "" then {r.brokerOrderId} else {}
    ensures Fingerprints(rows + [r])
         == Fingerprints(rows) + if DbFingerprint(r).Some? then {DbFingerprint(r).value} else {}
  {
    assert forall x :: x in rows + [r] <==> x in rows || x == r;
  }

  /** A dictionary from position id to deals, with its insertion order. */
  datatype Groups = Groups(order: seq<string>, of: map<string, seq<Deal>>)

  function AddDeal(g: Groups, d: Deal): Groups {
    var p := d.position;
    if p == "" then g
    else if p in g.of then g.(of := g.of[p := g.of[p] + [d]])
    else Groups(g.order + [p], g.of[p := [d]])
  }

  function GroupsOf(deals: seq<Deal>): Groups {
    if deals == [] then Groups([], map[]) else AddDeal(GroupsOf(deals[..|deals| - 1]), deals[|deals| - 1])
  }

  method GroupDeals(deals: seq<Deal>) returns (order: seq<string>, groups: map<string, seq<Deal>>)
    ensures Groups(order, groups) == GroupsOf(deals)
  {
    order, groups := [], map[];
    for i := 0 to |deals|
      invariant Groups(order, groups) == GroupsOf(deals[..i])
    {
      assert deals[..i + 1][..i] == deals[..i];
      var p := deals[i].position;
      if p == "" { continue; }
      if p in groups {
        groups := groups[p := groups[p] + [deals[i]]];
      } else {
        order, groups := order + [p], groups[p := [deals[i]]];
      }
    }
    assert deals[..|deals|] == deals;
  }

  predicate Listed(g: Groups, deals: seq<Deal>, p: string) {
    && (p in g.order <==> p in g.of)
    && (p in g.of ==> g.of[p] == DealsOf(deals, p))
    && (p in g.of <==> p != "" && DealsOf(deals, p) != [])
  }

  /** The dictionary holds, under every position id, that position's deals in arrival order. */
  lemma {:induction false} GroupsMeaning(deals: seq<Deal>, p: string)
    ensures GroupsOf(deals).order == Positions(deals) && Listed(GroupsOf(deals), deals, p)
  {
    if deals != [] {
      GroupsMeaning(deals[..|deals| - 1], p);
      GroupsMeaning(deals[..|deals| - 1], deals[|deals| - 1].position);
    }
  }

  /** Turn each closed, unknown position into a trade. */
  method FetchBroker(deals: seq<Deal>, known: set<string>, fps: set<Fingerprint>) returns (ts: seq<Trade>)
    ensures ts == BrokerTrades(deals, Positions(deals), known, fps)
  {
    var order, groups := GroupDeals(deals);
    GroupsMeaning(deals, "");
    ts := [];
    for i := 0 to |order|
      invariant ts == BrokerTrades(deals, order[..i], known, fps)
    {
      assert order[..i + 1][..i] == order[..i];
      var position := order[i];
      GroupsMeaning(deals, position);
      if position in known { continue; }
      var t := ConvertPosition(groups[position], position, fps);
      assert t == BrokerTrade(deals, position, known, fps);
      if t.Some? { ts := ts + [t.value]; }
    }
    assert order[..|order|] == order;
  }

  method ConvertPosition(group: seq<Deal>, position: string, fps: set<Fingerprint>) returns (t: Option<Trade>)
    ensures t == Converted(group, position, fps)
  {
    var ds := ByTime(group);
    var entry, exit: Option<Deal> := None, None;
    for i := 0 to |ds|
      invariant entry == LastOpening(ds[..i]) && exit == LastClosing(ds[..i])
    {
      assert ds[..i + 1][..i] == ds[..i];
      if Opens(ds[i]) {
        entry := Some(ds[i]);
      } else if Closes(ds[i]) {
        exit := Some(ds[i]);
      }
    }
    assert ds[..|ds|] == ds;
    if entry.None? || exit.None? { return None; }
    if BrokerFingerprint(entry.value, exit.value) in fps { return None; }
    var gross := exit.value.profit;
    t := Some(Trade(Broker, 0, position, entry.value.symbol, Some(gross), true, Some(OutcomeOf(gross)),
                    entry.value.time, exit.value.time));
  }

  // ---- What the history contains ----

  /** What identifies a line: the id of its row, or its broker position. */
  datatype Key = RowId(id: int) | Position(position: string)

  function KeyOf(t: Trade): Key { if t.source.Database? then RowId(t.id) else Position(t.position) }

  /** Number of lines with key `k`. */
  function Lines(ts: seq<Trade>, k: Key): nat {
    if ts == [] then 0 else Lines(ts[..|ts| - 1], k) + if KeyOf(ts[|ts| - 1]) == k then 1 else 0
  }

  lemma {:induction false} LinesConcat(a: seq<Trade>, b: seq<Trade>, k: Key)
    ensures Lines(a + b, k) == Lines(a, k) + Lines(b, k)
  {
    if b == [] {
      assert a + b == a;
    } else {
      assert (a + b)[..|a + b| - 1] == a + b[..|b| - 1];
      LinesConcat(a, b[..|b| - 1], k);
    }
  }

  lemma {:induction false} SelectSnoc(ts: seq<Trade>, t: Trade, f: Filter)
    ensures Select(ts + [t], f) == if Passes(f, t) then Select(ts, f) + [t] else Select(ts, f)
  {
    assert (ts + [t])[..|ts|] == ts;
  }

  lemma {:induction false} LinesSnoc(ts: seq<Trade>, t: Trade, k: Key)
    ensures Lines(ts + [t], k) == Lines(ts, k) + if KeyOf(t) == k then 1 else 0
  {
    assert (ts + [t])[..|ts|] == ts;
  }

  lemma {:induction false} SelectAll(ts: seq<Trade>)
    ensures Select(ts, All) == ts
  {
    if ts != [] {
      var init, t := ts[..|ts| - 1], ts[|ts| - 1];
      SelectAll(init);
      SelectSnoc(init, t, All);
      assert ts == init + [t];
    }
  }

  lemma {:induction false} LinesSelect(ts: seq<Trade>, f: Filter, k: Key)
    ensures Lines(Select(ts, f), k) <= Lines(ts, k)
  {
    if ts != [] {
      var init, t := ts[..|ts| - 1], ts[|ts| - 1];
      assert ts == init + [t];
      LinesSelect(init, f, k);
      SelectSnoc(init, t, f);
      LinesSnoc(init, t, k);
      LinesSnoc(Select(init, f), t, k);
    }
  }

  lemma {:induction false} LinesInsert(ts: seq<Trade>, t: Trade, k: Key)
    ensures Lines(InsertDesc(ts, t), k) == Lines(ts, k) + if KeyOf(t) == k then 1 else 0
  {
    if ts == [] || SortKey(ts[|ts| - 1]) >= SortKey(t) {
      LinesSnoc(ts, t, k);
    } else {
      var init, last := ts[..|ts| - 1], ts[|ts| - 1];
      LinesInsert(init, t, k);
      LinesSnoc(InsertDesc(init, t), last, k);
      LinesSnoc(init, last, k);
      assert ts == init + [last];
    }
  }

  lemma {:induction false} LinesSort(ts: seq<Trade>, k: Key)
    ensures Lines(SortDesc(ts), k) == Lines(ts, k)
  {
    if ts != [] {
      LinesSort(ts[..|ts| - 1], k);
      LinesInsert(SortDesc(ts[..|ts| - 1]), ts[|ts| - 1], k);
    }
  }

  // Database lines.

  predicate HasId(rows: seq<DbRow>, id: int) { exists i :: 0 <= i < |rows| && rows[i].id == id }

  /** No two rows of one query share an id; an absent id (0) may recur. */
  predicate DistinctIds(rows: seq<DbRow>) {
    forall i, j :: 0 <= i < j < |rows| && rows[i].id != 0 ==> rows[i].id != rows[j].id
  }

  /** With distinct ids, an id has one line when its row was returned and none otherwise. */
  lemma {:induction false} RowLines(rows: seq<DbRow>, id: int)
    requires DistinctIds(rows) && id != 0
    ensures Lines(DbTrades(rows), RowId(id)) == if HasId(rows, id) then 1 else 0
  {
    if rows != [] {
      var init, last := rows[..|rows| - 1], rows[|rows| - 1];
      assert DistinctIds(init);
      RowLines(init, id);
      LinesConcat(DbTrades(init), [DbTrade(last)], RowId(id));
      assert KeyOf(DbTrade(last)) == RowId(last.id);
      HasIdAppend(init, last, id);
      assert rows == init + [last];
    }
  }

  lemma HasIdAppend(rows: seq<DbRow>, r: DbRow, id: int)
    ensures HasId(rows + [r], id) <==> HasId(rows, id) || r.id == id
  {
    if HasId(rows, id) {
      var i :| 0 <= i < |rows| && rows[i].id == id;
      assert (rows + [r])[i].id == id;
    }
    assert (rows + [r])[|rows|] == r;
  }

  /** Row lines carry no position, broker lines no row id. */
  lemma {:induction false} RowsHoldNoPosition(rows: seq<DbRow>, p: string)
    ensures Lines(DbTrades(rows), Position(p)) == 0
  {
    if rows != [] {
      RowsHoldNoPosition(rows[..|rows| - 1], p);
      LinesConcat(DbTrades(rows[..|rows| - 1]), [DbTrade(rows[|rows| - 1])], Position(p));
    }
  }

  lemma {:induction false} DistinctAfterMerge(legacy: seq<DbRow>, ids: set<int>)
    requires DistinctIds(legacy)
    ensures DistinctIds(NotIn(legacy, ids))
    ensures forall r :: r in NotIn(legacy, ids) <==> r in legacy && r.id !in ids
  {
    if legacy != [] {
      var init, last := legacy[..|legacy| - 1], legacy[|legacy| - 1];
      assert DistinctIds(init);
      DistinctAfterMerge(init, ids);
      assert legacy == init + [last];
      assert forall r :: r in init ==> r.id == 0 || r.id != last.id;
    }
  }

  /** The rows of both queries together have distinct ids, and every id of either query. */
  lemma MergedRowsDistinct(primary: seq<DbRow>, legacy: seq<DbRow>, id: int)
    requires DistinctIds(primary) && DistinctIds(legacy) && id != 0
    ensures DistinctIds(DbRows(primary, legacy))
    ensures HasId(DbRows(primary, legacy), id) <==> HasId(primary, id) || HasId(legacy, id)
  {
    var rest := NotIn(legacy, Ids(primary));
    DistinctAfterMerge(legacy, Ids(primary));
    forall i, j | 0 <= i < |primary| && 0 <= j < |rest| && primary[i].id != 0
      ensures primary[i].id != rest[j].id
    {
      assert primary[i] in primary && rest[j] in rest;
    }
    HasIdIn(primary + rest, id);
    HasIdIn(primary, id);
    HasIdIn(legacy, id);
    HasIdIn(rest, id);
  }

  lemma HasIdIn(rows: seq<DbRow>, id: int)
    ensures HasId(rows, id) <==> exists r :: r in rows && r.id == id
  {
    if HasId(rows, id) {
      var i :| 0 <= i < |rows| && rows[i].id == id;
      assert rows[i] in rows;
    }
  }

  // Broker lines.

  /** `d` is the latest deal of `ds` satisfying `opening`. */
  predicate IsLatest(ds: seq<Deal>, d: Deal, opening: bool) {
    d in ds && Fits(d, opening) && forall x :: x in ds && Fits(x, opening) ==> x.time <= d.time
  }

  predicate Fits(d: Deal, opening: bool) { if opening then Opens(d) else Closes(d) }

  predicate TimeOrdered(ds: seq<Deal>) { forall i, j :: 0 <= i < j < |ds| ==> ds[i].time <= ds[j].time }

  lemma {:induction false} InsertOrdered(ds: seq<Deal>, d: Deal)
    requires TimeOrdered(ds)
    ensures TimeOrdered(InsertByTime(ds, d))
    ensures forall x :: x in InsertByTime(ds, d) <==> x in ds || x == d
  {
    if ds != [] && ds[|ds| - 1].time > d.time {
      InsertOrdered(ds[..|ds| - 1], d);
      var r := InsertByTime(ds[..|ds| - 1], d);
      assert ds == ds[..|ds| - 1] + [ds[|ds| - 1]];
      forall i | 0 <= i < |r| ensures r[i].time <= ds[|ds| - 1].time {
        assert r[i] in r;
      }
    }
  }

  lemma {:induction false} ByTimeOrdered(ds: seq<Deal>)
    ensures TimeOrdered(ByTime(ds)) && forall x :: x in ByTime(ds) <==> x in ds
  {
    if ds != [] {
      ByTimeOrdered(ds[..|ds| - 1]);
      InsertOrdered(ByTime(ds[..|ds| - 1]), ds[|ds| - 1]);
      assert ds == ds[..|ds| - 1] + [ds[|ds| - 1]];
    }
  }

  function LastFitting(ds: seq<Deal>, opening: bool): Option<Deal> {
    if opening then LastOpening(ds) else LastClosing(ds)
  }

  lemma {:induction false} LastIsLatest(ds: seq<Deal>, opening: bool)
    requires TimeOrdered(ds)
    ensures LastFitting(ds, opening).None? ==> forall x :: x in ds ==> !Fits(x, opening)
    ensures LastFitting(ds, opening).Some? ==> IsLatest(ds, LastFitting(ds, opening).value, opening)
  {
    if ds != [] {
      var init, last := ds[..|ds| - 1], ds[|ds| - 1];
      LastIsLatest(init, opening);
      assert ds == init + [last];
    }
  }

  /** The deal a line takes its opening (or closing) side from. */
  function LatestDeal(ds: seq<Deal>, opening: bool): Option<Deal> { LastFitting(ByTime(ds), opening) }

  lemma LatestMeaning(ds: seq<Deal>, opening: bool)
    ensures match LatestDeal(ds, opening)
            case None => forall d :: d in ds ==> !Fits(d, opening)
            case Some(d) => IsLatest(ds, d, opening)
  {
    ByTimeOrdered(ds);
    LastIsLatest(ByTime(ds), opening);
  }

  predicate IsClosed(ds: seq<Deal>) { LatestDeal(ds, true).Some? && LatestDeal(ds, false).Some? }

  function PositionFingerprint(ds: seq<Deal>): Fingerprint
    requires IsClosed(ds)
  {
    BrokerFingerprint(LatestDeal(ds, true).value, LatestDeal(ds, false).value)
  }

  function BrokerLine(p: string, entry: Deal, exit: Deal): Trade {
    Trade(Broker, 0, p, entry.symbol, Some(exit.profit), true, Some(OutcomeOf(exit.profit)), entry.time, exit.time)
  }

  /**
   * A position has a line exactly when the database does not list it, it was both opened and closed, and the
   * fingerprint of its latest opening and latest closing deals is not a database row's.
   */
  lemma ReportedIff(deals: seq<Deal>, p: string, known: set<string>, fps: set<Fingerprint>)
    returns (entry: Option<Deal>, exit: Option<Deal>)
    ensures entry.None? ==> forall d :: d in DealsOf(deals, p) ==> !Fits(d, true)
    ensures entry.Some? ==> IsLatest(DealsOf(deals, p), entry.value, true)
    ensures exit.None? ==> forall d :: d in DealsOf(deals, p) ==> !Fits(d, false)
    ensures exit.Some? ==> IsLatest(DealsOf(deals, p), exit.value, false)
    ensures BrokerTrade(deals, p, known, fps).Some? ==>
              && entry.Some? && exit.Some?
              && ShowsPosition(BrokerTrade(deals, p, known, fps).value, p, entry.value, exit.value)
    ensures BrokerTrade(deals, p, known, fps)
         == if p !in known && entry.Some? && exit.Some? && BrokerFingerprint(entry.value, exit.value) !in fps
            then Some(BrokerLine(p, entry.value, exit.value)) else None
  {
    LatestMeaning(DealsOf(deals, p), true);
    LatestMeaning(DealsOf(deals, p), false);
    entry, exit := LatestDeal(DealsOf(deals, p), true), LatestDeal(DealsOf(deals, p), false);
  }

  lemma {:induction false} PositionsOnce(deals: seq<Deal>)
    ensures Distinct(Positions(deals))
  {
    if deals != [] {
      PositionsOnce(deals[..|deals| - 1]);
    }
  }

  /** Every listed position contributes its line once. */
  lemma {:induction false} PositionLines(deals: seq<Deal>, ps: seq<string>, known: set<string>,
                                         fps: set<Fingerprint>, p: string)
    requires Distinct(ps)
    ensures Lines(BrokerTrades(deals, ps, known, fps), Position(p))
         == if p in ps && BrokerTrade(deals, p, known, fps).Some? then 1 else 0
  {
    if ps != [] {
      var init, last := ps[..|ps| - 1], ps[|ps| - 1];
      PositionLines(deals, init, known, fps, p);
      assert ps == init + [last];
      var t := BrokerTrade(deals, last, known, fps);
      if t.Some? {
        LinesConcat(BrokerTrades(deals, init, known, fps), [t.value], Position(p));
        assert KeyOf(t.value) == Position(last);
        assert Lines([t.value], Position(p)) == if last == p then 1 else 0;
      } else {
        assert BrokerTrades(deals, ps, known, fps) == BrokerTrades(deals, init, known, fps);
      }
    }
  }

  lemma {:induction false} BrokerHoldsNoRow(deals: seq<Deal>, ps: seq<string>, known: set<string>,
                                            fps: set<Fingerprint>, id: int)
    ensures Lines(BrokerTrades(deals, ps, known, fps), RowId(id)) == 0
  {
    if ps != [] {
      var init := ps[..|ps| - 1];
      BrokerHoldsNoRow(deals, init, known, fps, id);
      var t := BrokerTrade(deals, ps[|ps| - 1], known, fps);
      if t.Some? {
        LinesConcat(BrokerTrades(deals, init, known, fps), [t.value], RowId(id));
      } else {
        assert BrokerTrades(deals, ps, known, fps) == BrokerTrades(deals, init, known, fps);
      }
    }
  }

  /** A reported position is one of the listed ones. */
  lemma ReportedIsListed(deals: seq<Deal>, p: string, known: set<string>, fps: set<Fingerprint>)
    requires p != "" && BrokerTrade(deals, p, known, fps).Some?
    ensures p in Positions(deals)
  {
    GroupsMeaning(deals, p);
  }

  lemma {:induction false} NoUnnamedPosition(deals: seq<Deal>)
    ensures "" !in Positions(deals)
  {
    if deals != [] {
      NoUnnamedPosition(deals[..|deals| - 1]);
    }
  }

  /** Everything, unfiltered. */
  function AllLines(primary: seq<DbRow>, legacy: seq<DbRow>, deals: seq<Deal>): seq<Trade> {
    SortDesc(Select(Merged(primary, legacy, deals), All))
  }

  lemma PositionLinesExact(primary: seq<DbRow>, legacy: seq<DbRow>, deals: seq<Deal>, p: string)
    ensures var rows := DbRows(primary, legacy);
            Lines(AllLines(primary, legacy, deals), Position(p))
            == if p != "" && BrokerTrade(deals, p, PositionIds(rows), Fingerprints(rows)).Some? then 1 else 0
  {
    var rows := DbRows(primary, legacy);
    MergedLines(rows, deals, Position(p));
    RowsHoldNoPosition(rows, p);
    PositionsOnce(deals);
    NoUnnamedPosition(deals);
    PositionLines(deals, Positions(deals), PositionIds(rows), Fingerprints(rows), p);
    if p != "" && BrokerTrade(deals, p, PositionIds(rows), Fingerprints(rows)).Some? {
      ReportedIsListed(deals, p, PositionIds(rows), Fingerprints(rows));
    }
  }

  /**
   * Unfiltered, every row id of either query has exactly one line, and every broker position has one line
   * when it is to be reported and none otherwise.
   */
  lemma HistoryIsExact(primary: seq<DbRow>, legacy: seq<DbRow>, deals: seq<Deal>, id: int, p: string)
    requires DistinctIds(primary) && DistinctIds(legacy) && id != 0
    ensures var ts, rows := AllLines(primary, legacy, deals), DbRows(primary, legacy);
            && Lines(ts, RowId(id)) == (if HasId(primary, id) || HasId(legacy, id) then 1 else 0)
            && (Lines(ts, Position(p))
                == if p != "" && BrokerTrade(deals, p, PositionIds(rows), Fingerprints(rows)).Some? then 1 else 0)
  {
    var rows := DbRows(primary, legacy);
    MergedRowsDistinct(primary, legacy, id);
    MergedLines(rows, deals, RowId(id));
    RowLines(rows, id);
    BrokerHoldsNoRow(deals, Positions(deals), PositionIds(rows), Fingerprints(rows), id);
    PositionLinesExact(primary, legacy, deals, p);
  }

  lemma MergedLines(rows: seq<DbRow>, deals: seq<Deal>, k: Key)
    ensures var broker := BrokerTrades(deals, Positions(deals), PositionIds(rows), Fingerprints(rows));
            Lines(SortDesc(Select(DbTrades(rows) + broker, All)), k) == Lines(DbTrades(rows), k) + Lines(broker, k)
  {
    var broker := BrokerTrades(deals, Positions(deals), PositionIds(rows), Fingerprints(rows));
    SelectAll(DbTrades(rows) + broker);
    LinesSort(DbTrades(rows) + broker, k);
    LinesConcat(DbTrades(rows), broker, k);
  }

  /** Under any filter, no row id and no broker position has two lines. */
  lemma NoTradeTwice(primary: seq<DbRow>, legacy: seq<DbRow>, deals: seq<Deal>, f: Filter, id: int, p: string)
    requires DistinctIds(primary) && DistinctIds(legacy) && id != 0
    ensures Lines(SortDesc(Select(Merged(primary, legacy, deals), f)), RowId(id)) <= 1
    ensures Lines(SortDesc(Select(Merged(primary, legacy, deals), f)), Position(p)) <= 1
  {
    var all := Merged(primary, legacy, deals);
    HistoryIsExact(primary, legacy, deals, id, p);
    FilterDropsLines(all, f, RowId(id));
    FilterDropsLines(all, f, Position(p));
  }

  lemma FilterDropsLines(ts: seq<Trade>, f: Filter, k: Key)
    ensures Lines(SortDesc(Select(ts, f)), k) <= Lines(SortDesc(Select(ts, All)), k)
  {
    LinesSelect(ts, f, k);
    SelectAll(ts);
    LinesSort(Select(ts, f), k);
    LinesSort(ts, k);
  }

  // ---- When a row and a position are both listed ----

  /** Row `r` stands for position `p` whose latest deals have fingerprint `f`. */
  predicate Covers(r: DbRow, p: string, f: Fingerprint) { r.brokerOrderId == p || DbFingerprint(r) == Some(f) }

  ghost predicate NoneCovers(rows: seq<DbRow>, p: string, f: Fingerprint) { forall r :: r in rows ==> !Covers(r, p, f) }

  lemma DroppedIffCovered(rows: seq<DbRow>, p: string, f: Fingerprint)
    requires p != ""
    ensures p in PositionIds(rows) || f in Fingerprints(rows) <==> !NoneCovers(rows, p, f)
  {
  }

  /**
   * A named position has a line exactly when it was opened and closed and no row covers it: neither by its id
   * nor by the fingerprint of its latest opening and latest closing deal.
   */
  lemma ListedIff(primary: seq<DbRow>, legacy: seq<DbRow>, deals: seq<Deal>, p: string)
    requires p != ""
    ensures var ds := DealsOf(deals, p);
            Lines(AllLines(primary, legacy, deals), Position(p)) > 0 <==>
            IsClosed(ds) && NoneCovers(DbRows(primary, legacy), p, PositionFingerprint(ds))
  {
    var ds, rows := DealsOf(deals, p), DbRows(primary, legacy);
    PositionLinesExact(primary, legacy, deals, p);
    if IsClosed(ds) { DroppedIffCovered(rows, p, PositionFingerprint(ds)); }
  }

  function Cents(amount: real): int { RoundHalfEven(amount * 100.0) }

  /** The row carries the position's id, or the symbol, exit minute and rounded net of its two latest deals. */
  predicate Recognised(r: DbRow, p: string, entry: Deal, exit: Deal) {
    || r.brokerOrderId == p
    || (&& r.symbol != "" && r.symbol == entry.symbol
        && SameMinute(if r.exitTime != 0 then r.exitTime else r.closedAt, exit.time)
        && Cents(if r.net.Some? then r.net.value else 0.0) == Cents(DealNet(exit)))
  }

  /** Both times are there and lie in the same minute. */
  predicate SameMinute(a: nat, b: nat) { a != 0 && b != 0 && a / 60 == b / 60 }

  function DealNet(d: Deal): real { d.profit + d.swap + d.commission }

  lemma RecognisedIsCovered(r: DbRow, p: string, entry: Deal, exit: Deal)
    ensures Recognised(r, p, entry, exit) <==> Covers(r, p, BrokerFingerprint(entry, exit))
  {
  }

  /** For a single row and a closed position: the row is listed, and the position beside it exactly when the
      row is not recognised as its own. */
  lemma ListedBesideIff(r: DbRow, deals: seq<Deal>, p: string)
    requires p != "" && IsClosed(DealsOf(deals, p))
    ensures var entry, exit := LatestDeal(DealsOf(deals, p), true).value, LatestDeal(DealsOf(deals, p), false).value;
            Lines(AllLines([r], [], deals), Position(p)) > 0 <==> !Recognised(r, p, entry, exit)
  {
    var ds := DealsOf(deals, p);
    ListedIff([r], [], deals, p);
    assert DbRows([r], []) == [r] && r in [r];
    assert NoneCovers([r], p, PositionFingerprint(ds)) <==> !Covers(r, p, PositionFingerprint(ds));
    RecognisedIsCovered(r, p, LatestDeal(ds, true).value, LatestDeal(ds, false).value);
  }

  /** Profit, swap and commission of all deals, as the backfill stores it. */
  function NetOfDeals(ds: seq<Deal>): real {
    if ds == [] then 0.0 else NetOfDeals(ds[..|ds| - 1]) + DealNet(ds[|ds| - 1])
  }

  /** A row that holds its own position's full net and exit time, but not its id, is recognised exactly when
      the full net rounds to the cents of the last closing deal alone. */
  lemma FullNetListedBesideIff(r: DbRow, deals: seq<Deal>, p: string)
    requires p != "" && IsClosed(DealsOf(deals, p)) && r.brokerOrderId != p
    requires r.symbol != "" && r.symbol == LatestDeal(DealsOf(deals, p), true).value.symbol
    requires r.exitTime == LatestDeal(DealsOf(deals, p), false).value.time != 0
    requires r.net == Some(NetOfDeals(DealsOf(deals, p)))
    ensures Lines(AllLines([r], [], deals), Position(p)) > 0 <==>
            Cents(NetOfDeals(DealsOf(deals, p))) != Cents(DealNet(LatestDeal(DealsOf(deals, p), false).value))
  {
    ListedBesideIff(r, deals, p);
  }

  /** One opening and one closing deal of a position. */
  predicate IsPair(entry: Deal, exit: Deal) {
    entry.kind.In? && exit.kind.Out? && entry.time <= exit.time && entry.position == exit.position != ""
  }

  lemma {:induction false} PairGrouped(entry: Deal, exit: Deal)
    requires IsPair(entry, exit)
    ensures Positions([entry, exit]) == [entry.position] && DealsOf([entry, exit], entry.position) == [entry, exit]
  {
    assert [entry, exit][..1] == [entry] && [entry][..0] == [];
    assert Positions([entry]) == [entry.position];
    assert DealsOf([entry], entry.position) == [entry];
  }

  lemma {:induction false} PairSides(entry: Deal, exit: Deal)
    requires IsPair(entry, exit)
    ensures ByTime([entry, exit]) == [entry, exit]
    ensures LastOpening([entry, exit]) == Some(entry) && LastClosing([entry, exit]) == Some(exit)
  {
    assert [entry, exit][..1] == [entry] && [entry][..0] == [];
    assert ByTime([entry]) == [entry];
    assert LastOpening([entry]) == Some(entry);
  }

  lemma {:induction false} PairReported(entry: Deal, exit: Deal, known: set<string>, fps: set<Fingerprint>)
    requires IsPair(entry, exit) && entry.position !in known && BrokerFingerprint(entry, exit) !in fps
    ensures BrokerTrades([entry, exit], Positions([entry, exit]), known, fps)
         == [BrokerLine(entry.position, entry, exit)]
  {
    var deals, p := [entry, exit], entry.position;
    PairGrouped(entry, exit);
    PairSides(entry, exit);
    assert BrokerTrade(deals, p, known, fps) == Some(BrokerLine(p, entry, exit));
    assert [p][..0] == [];
  }

  lemma PairDropped(entry: Deal, exit: Deal, known: set<string>, fps: set<Fingerprint>)
    requires IsPair(entry, exit) && (entry.position in known || BrokerFingerprint(entry, exit) in fps)
    ensures BrokerTrades([entry, exit], Positions([entry, exit]), known, fps) == []
  {
    var deals, p := [entry, exit], entry.position;
    PairGrouped(entry, exit);
    PairSides(entry, exit);
    assert BrokerTrade(deals, p, known, fps) == None;
    assert [p][..0] == [];
  }

  /** What an executed row and its position add to the history: the row's PnL once, and the position's beside
      it exactly when the row is not recognised as its own. */
  lemma PairCountedIff(r: DbRow, entry: Deal, exit: Deal)
    requires IsPair(entry, exit) && r.executed
    ensures var beside := if Recognised(r, entry.position, entry, exit) then []
                          else [BrokerLine(entry.position, entry, exit)];
            && Merged([r], [], [entry, exit]) == [DbTrade(r)] + beside
            && ExecutedPnl(Merged([r], [], [entry, exit]))
               == Pnl(DbTrade(r)) + if Recognised(r, entry.position, entry, exit) then 0.0 else exit.profit
  {
    var p := entry.position;
    assert DbRows([r], []) == [r];
    assert DbTrades([r]) == [DbTrade(r)];
    RecognisedIsCovered(r, p, entry, exit);
    DroppedIffCovered([r], p, BrokerFingerprint(entry, exit));
    ExecutedAppend([], DbTrade(r));
    assert [] + [DbTrade(r)] == [DbTrade(r)];
    if Recognised(r, p, entry, exit) {
      assert r in [r];
      PairDropped(entry, exit, PositionIds([r]), Fingerprints([r]));
      assert [DbTrade(r)] + [] == [DbTrade(r)];
    } else {
      PairReported(entry, exit, PositionIds([r]), Fingerprints([r]));
      ExecutedAppend([DbTrade(r)], BrokerLine(p, entry, exit));
    }
  }

  /** A row without broker id whose only exit time is `close_time` is never recognised: its profit counts twice. */
  lemma CountedTwice(r: DbRow, entry: Deal, exit: Deal)
    requires r.brokerOrderId == "" && r.exitTime == 0 && r.closedAt == 0 && r.closeTime == exit.time
    requires r.executed && r.symbol == entry.symbol && r.net == Some(exit.profit + exit.swap + exit.commission)
    requires r.commission == exit.commission && r.swap == exit.swap
    requires IsPair(entry, exit)
    ensures Merged([r], [], [entry, exit]) == [DbTrade(r), BrokerLine(entry.position, entry, exit)]
    ensures ExecutedPnl(Merged([r], [], [entry, exit])) == 2.0 * exit.profit
  {
    PairCountedIff(r, entry, exit);
  }

  /** A commission of 3 booked on the opening deal is enough for a row with the full net and the right time. */
  lemma EntryFeeCountedTwice()
    ensures var entry := Deal("p1", 60, In, "EURUSD", 0.0, 0.0, -3.0);
            var exit := Deal("p1", 120, Out, "EURUSD", 10.0, 0.0, 0.0);
            var r := DbRow(1, "EURUSD", "", true, Some(7.0), -3.0, 0.0, 120, 0, 0, 60);
            && r.net == Some(DealNet(entry) + DealNet(exit))
            && ExecutedPnl(Merged([r], [], [entry, exit])) == 20.0
  {
    var entry := Deal("p1", 60, In, "EURUSD", 0.0, 0.0, -3.0);
    var exit := Deal("p1", 120, Out, "EURUSD", 10.0, 0.0, 0.0);
    var r := DbRow(1, "EURUSD", "", true, Some(7.0), -3.0, 0.0, 120, 0, 0, 60);
    RoundInteger(700);
    RoundInteger(1000);
    assert Cents(7.0) == 700 && Cents(DealNet(exit)) == 1000;
    PairCountedIff(r, entry, exit);
  }

  // ---- What the endpoint answers, in terms of the lines' own fields ----

  /** A line belongs under a filter: every line unfiltered, and otherwise executed lines by the sign of their PnL. */
  predicate Belongs(t: Trade, f: Filter) {
    match f
    case All => true
    case OnlyWins => t.executed && t.pnl.Some? && t.pnl.value >= 0.0
    case OnlyLosses => t.executed && t.pnl.Some? && t.pnl.value < 0.0
  }

  function IsExecuted(): Trade -> bool { (t: Trade) => t.executed }

  function IsWin(): Trade -> bool { (t: Trade) => t.executed && t.pnl.Some? && t.pnl.value > 0.0 }

  /** Sum of the positive PnLs of executed lines, and of the others. */
  function GainOf(ts: seq<Trade>, positive: bool): real {
    if ts == [] then 0.0
    else
      var t := ts[|ts| - 1];
      GainOf(ts[..|ts| - 1], positive)
      + if t.executed && t.pnl.Some? && (t.pnl.value > 0.0) == positive then t.pnl.value else 0.0
  }

  /** Exactly the lines that belong, newest exit (or else entry) first, counted and summed. */
  ghost predicate Shows(h: History, lines: seq<Trade>, f: Filter) {
    && (forall t :: t in h.trades <==> t in lines && Belongs(t, f))
    && (forall i, j :: 0 <= i < j < |h.trades| ==> NotBefore(h.trades[i], h.trades[j]))
    && h.stats.executed == HowMany(h.trades, IsExecuted()) && h.stats.wins == HowMany(h.trades, IsWin())
    && h.stats.profit == GainOf(h.trades, true) && h.stats.lossSum == GainOf(h.trades, false)
    && h.net == Round2(ExecutedPnl(h.trades))
  }

  predicate NotBefore(t: Trade, u: Trade) {
    (if t.exit != 0 then t.exit else t.entry) >= (if u.exit != 0 then u.exit else u.entry)
  }

  lemma {:induction false} SelectMembers(ts: seq<Trade>, f: Filter)
    ensures forall t :: t in Select(ts, f) <==> t in ts && Passes(f, t)
  {
    if ts != [] {
      var init, last := ts[..|ts| - 1], ts[|ts| - 1];
      SelectMembers(init, f);
      SelectSnoc(init, last, f);
      assert ts == init + [last];
    }
  }

  lemma {:induction false} SortMembers(ts: seq<Trade>)
    ensures Descending(SortDesc(ts)) && forall t :: t in SortDesc(ts) <==> t in ts
  {
    if ts != [] {
      SortMembers(ts[..|ts| - 1]);
      InsertDescends(SortDesc(ts[..|ts| - 1]), ts[|ts| - 1]);
      assert ts == ts[..|ts| - 1] + [ts[|ts| - 1]];
    }
  }

  lemma PassesIffBelongs(t: Trade, f: Filter)
    requires OutcomeRight(t)
    ensures Passes(f, t) <==> Belongs(t, f)
  {
  }

  /** An executed line with a PnL has the outcome of its sign, any other line none. */
  predicate OutcomeRight(t: Trade) {
    if t.executed && t.pnl.Some? then t.outcome.Some? && (t.outcome.value.Win? <==> t.pnl.value >= 0.0)
    else t.outcome.None?
  }

  lemma {:induction false} RowsAreRight(rows: seq<DbRow>)
    ensures forall t :: t in DbTrades(rows) ==> OutcomeRight(t)
  {
    if rows != [] {
      RowsAreRight(rows[..|rows| - 1]);
      assert OutcomeRight(DbTrade(rows[|rows| - 1]));
    }
  }

  lemma {:induction false} PositionsAreRight(deals: seq<Deal>, ps: seq<string>, known: set<string>,
                                             fps: set<Fingerprint>)
    ensures forall t :: t in BrokerTrades(deals, ps, known, fps) ==> OutcomeRight(t)
  {
    if ps != [] {
      PositionsAreRight(deals, ps[..|ps| - 1], known, fps);
      var t := BrokerTrade(deals, ps[|ps| - 1], known, fps);
      assert t.Some? ==> OutcomeRight(t.value);
    }
  }

  /** Under a filter the history lists exactly the executed lines with a PnL of that sign, zero counting as a win. */
  lemma FilteredIff(primary: seq<DbRow>, legacy: seq<DbRow>, deals: seq<Deal>, f: Filter, t: Trade)
    ensures t in SortDesc(Select(Merged(primary, legacy, deals), f)) <==>
            t in Merged(primary, legacy, deals) && Belongs(t, f)
  {
    var rows := DbRows(primary, legacy);
    RowsAreRight(rows);
    PositionsAreRight(deals, Positions(deals), PositionIds(rows), Fingerprints(rows));
    var all := Merged(primary, legacy, deals);
    SelectMembers(all, f);
    SortMembers(Select(all, f));
    if t in all { PassesIffBelongs(t, f); }
  }

  lemma {:induction false} StatsCount(ts: seq<Trade>)
    ensures StatsOf(ts).executed == HowMany(ts, IsExecuted()) && StatsOf(ts).wins == HowMany(ts, IsWin())
    ensures StatsOf(ts).profit == GainOf(ts, true) && StatsOf(ts).lossSum == GainOf(ts, false)
  {
    if ts == [] {
      HowManyNone(IsExecuted());
      HowManyNone(IsWin());
    } else {
      var init, t := ts[..|ts| - 1], ts[|ts| - 1];
      StatsCount(init);
      assert ts == init + [t];
      HowManySnoc(init, t, IsExecuted());
      HowManySnoc(init, t, IsWin());
    }
  }

  lemma HistoryMeaning(primary: seq<DbRow>, legacy: seq<DbRow>, deals: seq<Deal>, f: Filter)
    ensures var all := Merged(primary, legacy, deals);
            var ts := SortDesc(Select(all, f));
            Shows(History(ts, StatsOf(ts), Round2(NetOf(StatsOf(ts)))), all, f)
  {
    var ts := SortDesc(Select(Merged(primary, legacy, deals), f));
    forall t ensures t in ts <==> t in Merged(primary, legacy, deals) && Belongs(t, f) {
      FilteredIff(primary, legacy, deals, f, t);
    }
    SortMembers(Select(Merged(primary, legacy, deals), f));
    assert forall i, j :: 0 <= i < j < |ts| ==> NotBefore(ts[i], ts[j]);
    StatsCount(ts);
    NetIsExecutedSum(ts);
  }

  lemma {:induction false} SameSign(ts: seq<Trade>, f: Filter)
    requires forall t :: t in ts ==> Belongs(t, f)
    ensures f.OnlyWins? ==> ExecutedPnl(ts) >= 0.0
    ensures f.OnlyLosses? ==> ExecutedPnl(ts) <= 0.0
  {
    if ts != [] {
      assert ts[|ts| - 1] in ts && forall t :: t in ts[..|ts| - 1] ==> t in ts;
      SameSign(ts[..|ts| - 1], f);
    }
  }

  /** The net under the win filter is not negative, and under the loss filter not positive. */
  lemma FilteredNetSigns(primary: seq<DbRow>, legacy: seq<DbRow>, deals: seq<Deal>)
    ensures NetUnder(primary, legacy, deals, OnlyLosses) <= 0.0 <= NetUnder(primary, legacy, deals, OnlyWins)
  {
    var all := Merged(primary, legacy, deals);
    var wins, losses := SortDesc(Select(all, OnlyWins)), SortDesc(Select(all, OnlyLosses));
    forall t ensures (t in wins ==> Belongs(t, OnlyWins)) && (t in losses ==> Belongs(t, OnlyLosses)) {
      FilteredIff(primary, legacy, deals, OnlyWins, t);
      FilteredIff(primary, legacy, deals, OnlyLosses, t);
    }
    SameSign(wins, OnlyWins);
    SameSign(losses, OnlyLosses);
    NetIsExecutedSum(wins);
    NetIsExecutedSum(losses);
  }

  /** What a row's line shows: its PnL is gross, the net without commission and swap, and its exit time prefers
      `close_time`, then `closed_at`. */
  ghost predicate ShowsRow(t: Trade, r: DbRow) {
    && t.source.Database? && t.id == r.id && t.symbol == r.symbol && t.executed == r.executed && t.entry == r.entryTime
    && (t.pnl.Some? <==> r.net.Some?)
    && (t.pnl.Some? ==> t.pnl.value + r.commission + r.swap == r.net.value)
    && t.exit == if r.closeTime != 0 then r.closeTime else if r.closedAt != 0 then r.closedAt else r.exitTime
  }

  /** What a position's line shows. */
  ghost predicate ShowsPosition(t: Trade, p: string, entry: Deal, exit: Deal) {
    && t.source.Broker? && t.position == p && t.symbol == entry.symbol && t.executed
    && t.pnl == Some(exit.profit) && t.entry == entry.time && t.exit == exit.time
  }

  lemma {:induction false} RowLinesShown(rows: seq<DbRow>)
    ensures |DbTrades(rows)| == |rows| && forall i :: 0 <= i < |rows| ==> ShowsRow(DbTrades(rows)[i], rows[i])
  {
    if rows != [] { RowLinesShown(rows[..|rows| - 1]); }
  }

  /** The merged list starts with one line per row, in order, and the rest are broker lines. */
  lemma MergedLinesShown(primary: seq<DbRow>, legacy: seq<DbRow>, deals: seq<Deal>)
    ensures var rows, all := DbRows(primary, legacy), Merged(primary, legacy, deals);
            && |rows| <= |all| && (forall i :: 0 <= i < |rows| ==> ShowsRow(all[i], rows[i]))
            && forall i :: |rows| <= i < |all| ==> all[i].source.Broker?
  {
    var rows := DbRows(primary, legacy);
    RowLinesShown(rows);
    BrokerLinesOnly(deals, Positions(deals), PositionIds(rows), Fingerprints(rows));
  }

  lemma {:induction false} BrokerLinesOnly(deals: seq<Deal>, ps: seq<string>, known: set<string>, fps: set<Fingerprint>)
    ensures forall t :: t in BrokerTrades(deals, ps, known, fps) ==> t.source.Broker?
  {
    if ps != [] { BrokerLinesOnly(deals, ps[..|ps| - 1], known, fps); }
  }

  // ---- A line's profit against its position's ----

  function ProfitOf(ds: seq<Deal>): real {
    if ds == [] then 0.0 else ProfitOf(ds[..|ds| - 1]) + ds[|ds| - 1].profit
  }

  lemma {:induction false} ProfitWithout(ds: seq<Deal>, i: nat)
    requires i < |ds|
    ensures ProfitOf(ds) == ProfitOf(ds[..i] + ds[i + 1..]) + ds[i].profit
  {
    var n := |ds| - 1;
    if i == n {
      assert ds[..i] + ds[i + 1..] == ds[..n];
    } else {
      ProfitWithout(ds[..n], i);
      var less := ds[..i] + ds[i + 1..];
      assert less[..n - 1] == ds[..n][..i] + ds[..n][i + 1..];
      assert less[n - 1] == ds[n];
    }
  }

  /** A line's PnL is the profit of the position's latest closing deal: that of the whole position exactly when
      its other deals make no profit in total. */
  lemma LineProfitIff(deals: seq<Deal>, p: string, known: set<string>, fps: set<Fingerprint>) returns (i: nat)
    requires BrokerTrade(deals, p, known, fps).Some?
    ensures var ds := DealsOf(deals, p);
            && i < |ds| && IsLatest(ds, ds[i], false)
            && BrokerTrade(deals, p, known, fps).value.pnl == Some(ds[i].profit)
            && (ds[i].profit == ProfitOf(ds) <==> ProfitOf(ds[..i] + ds[i + 1..]) == 0.0)
  {
    var ds := DealsOf(deals, p);
    LatestMeaning(ds, false);
    i :| 0 <= i < |ds| && ds[i] == LatestDeal(ds, false).value;
    ProfitWithout(ds, i);
  }

  // ---- Order ----

  predicate Descending(ts: seq<Trade>) { forall i, j :: 0 <= i < j < |ts| ==> SortKey(ts[i]) >= SortKey(ts[j]) }

  /** The lines sharing one sort key, in order. */
  function AtKey(ts: seq<Trade>, key: nat): seq<Trade> {
    if ts == [] then []
    else AtKey(ts[..|ts| - 1], key) + if SortKey(ts[|ts| - 1]) == key then [ts[|ts| - 1]] else []
  }

  lemma {:induction false} AtKeyAppend(ts: seq<Trade>, t: Trade, key: nat)
    ensures AtKey(ts + [t], key) == if SortKey(t) == key then AtKey(ts, key) + [t] else AtKey(ts, key)
  {
    assert (ts + [t])[..|ts|] == ts;
  }

  lemma {:induction false} InsertDescends(ts: seq<Trade>, t: Trade)
    requires Descending(ts)
    ensures Descending(InsertDesc(ts, t))
    ensures forall x :: x in InsertDesc(ts, t) <==> x in ts || x == t
  {
    if ts != [] && SortKey(ts[|ts| - 1]) < SortKey(t) {
      var init, last := ts[..|ts| - 1], ts[|ts| - 1];
      InsertDescends(init, t);
      assert ts == init + [last];
      var r := InsertDesc(init, t);
      forall i | 0 <= i < |r| ensures SortKey(r[i]) >= SortKey(last) {
        assert r[i] in r;
      }
    }
  }

  lemma {:induction false} InsertIsStable(ts: seq<Trade>, t: Trade, key: nat)
    requires Descending(ts)
    ensures AtKey(InsertDesc(ts, t), key) == if SortKey(t) == key then AtKey(ts, key) + [t] else AtKey(ts, key)
  {
    if ts == [] || SortKey(ts[|ts| - 1]) >= SortKey(t) {
      AtKeyAppend(ts, t, key);
    } else {
      var init, last := ts[..|ts| - 1], ts[|ts| - 1];
      InsertIsStable(init, t, key);
      AtKeyAppend(InsertDesc(init, t), last, key);
    }
  }

  /** The history is sorted newest first, holds exactly the selected lines, and keeps ties in merge order. */
  lemma {:induction false} SortedStably(ts: seq<Trade>, key: nat)
    ensures Descending(SortDesc(ts)) && AtKey(SortDesc(ts), key) == AtKey(ts, key)
  {
    if ts != [] {
      SortedStably(ts[..|ts| - 1], key);
      InsertDescends(SortDesc(ts[..|ts| - 1]), ts[|ts| - 1]);
      InsertIsStable(SortDesc(ts[..|ts| - 1]), ts[|ts| - 1], key);
    }
  }

  // ---- Profit and loss ----

  /** Sum over the executed lines. */
  function ExecutedPnl(ts: seq<Trade>): real {
    if ts == [] then 0.0
    else ExecutedPnl(ts[..|ts| - 1]) + if ts[|ts| - 1].executed then Pnl(ts[|ts| - 1]) else 0.0
  }

  predicate Signed(s: Stats) { s.lossSum <= 0.0 <= s.profit }

  /** Gross profit less gross loss is the sum over the executed lines. */
  lemma {:induction false} NetIsExecutedSum(ts: seq<Trade>)
    ensures Signed(StatsOf(ts)) && NetOf(StatsOf(ts)) == ExecutedPnl(ts)
  {
    if ts == [] {
    } else {
      var init := ts[..|ts| - 1];
      NetIsExecutedSum(init);
      NetStep(StatsOf(init), StatsOf(ts), ts[|ts| - 1].executed, Pnl(ts[|ts| - 1]));
    }
  }

  lemma NetStep(s: Stats, s': Stats, executed: bool, pnl: real)
    requires Signed(s) && s' == Count(s, executed, pnl)
    ensures Signed(s') && NetOf(s') == NetOf(s) + if executed then pnl else 0.0
  {
  }

  lemma {:induction false} ExecutedAppend(ts: seq<Trade>, t: Trade)
    ensures ExecutedPnl(ts + [t]) == ExecutedPnl(ts) + if t.executed then Pnl(t) else 0.0
  {
    assert (ts + [t])[..|ts|] == ts;
  }

  lemma {:induction false} ExecutedInsert(ts: seq<Trade>, t: Trade)
    ensures ExecutedPnl(InsertDesc(ts, t)) == ExecutedPnl(ts) + if t.executed then Pnl(t) else 0.0
  {
    if ts == [] || SortKey(ts[|ts| - 1]) >= SortKey(t) {
      ExecutedAppend(ts, t);
    } else {
      ExecutedInsert(ts[..|ts| - 1], t);
      ExecutedAppend(InsertDesc(ts[..|ts| - 1], t), ts[|ts| - 1]);
    }
  }

  lemma {:induction false} ExecutedSort(ts: seq<Trade>)
    ensures ExecutedPnl(SortDesc(ts)) == ExecutedPnl(ts)
  {
    if ts != [] {
      ExecutedSort(ts[..|ts| - 1]);
      ExecutedInsert(SortDesc(ts[..|ts| - 1]), ts[|ts| - 1]);
    }
  }

  /** What a line adds to the executed sum under a filter. */
  function Part(t: Trade, f: Filter): real { if Passes(f, t) && t.executed then Pnl(t) else 0.0 }

  lemma {:induction false} ExecutedSelect(ts: seq<Trade>, f: Filter, t: Trade)
    ensures ExecutedPnl(Select(ts + [t], f))
         == ExecutedPnl(Select(ts, f)) + Part(t, f)
  {
    SelectSnoc(ts, t, f);
    if Passes(f, t) { ExecutedAppend(Select(ts, f), t); }
  }

  lemma OneSideTakes(t: Trade)
    requires OutcomeRight(t) && t.executed && Pnl(t) != 0.0
    ensures Passes(OnlyWins, t) <==> !Passes(OnlyLosses, t)
  {
    match t.outcome.value {
      case Win => assert t.outcome == Some(Win);
      case Loss => assert t.outcome == Some(Loss);
    }
  }

  lemma PartsAddUp(t: Trade)
    requires OutcomeRight(t)
    ensures Part(t, OnlyWins) + Part(t, OnlyLosses) == if t.executed then Pnl(t) else 0.0
  {
    if t.executed && Pnl(t) != 0.0 { OneSideTakes(t); }
  }

  lemma {:induction false} SelectSplits(ts: seq<Trade>)
    requires forall t :: t in ts ==> OutcomeRight(t)
    ensures ExecutedPnl(Select(ts, OnlyWins)) + ExecutedPnl(Select(ts, OnlyLosses)) == ExecutedPnl(ts)
  {
    if ts != [] {
      var init, t := ts[..|ts| - 1], ts[|ts| - 1];
      assert t in ts && ts == init + [t];
      SelectSplits(init);
      ExecutedSelect(init, OnlyWins, t);
      ExecutedSelect(init, OnlyLosses, t);
      PartsAddUp(t);
    }
  }

  /** The unrounded net of a history under filter `f`. */
  function NetUnder(primary: seq<DbRow>, legacy: seq<DbRow>, deals: seq<Deal>, f: Filter): real {
    NetOf(StatsOf(SortDesc(Select(Merged(primary, legacy, deals), f))))
  }

  /** The unfiltered net is the sum over all executed trades, and the two filtered nets add up to it. */
  lemma FiltersSplitNet(primary: seq<DbRow>, legacy: seq<DbRow>, deals: seq<Deal>)
    ensures NetUnder(primary, legacy, deals, All) == ExecutedPnl(Merged(primary, legacy, deals))
    ensures NetUnder(primary, legacy, deals, OnlyWins) + NetUnder(primary, legacy, deals, OnlyLosses)
         == NetUnder(primary, legacy, deals, All)
  {
    var all, rows := Merged(primary, legacy, deals), DbRows(primary, legacy);
    RowsAreRight(rows);
    PositionsAreRight(deals, Positions(deals), PositionIds(rows), Fingerprints(rows));
    SelectSplits(all);
    SelectAll(all);
    NetAfterSort(Select(all, All));
    NetAfterSort(Select(all, OnlyWins));
    NetAfterSort(Select(all, OnlyLosses));
  }

  lemma NetAfterSort(ts: seq<Trade>)
    ensures NetOf(StatsOf(SortDesc(ts))) == ExecutedPnl(ts)
  {
    NetIsExecutedSum(SortDesc(ts));
    ExecutedSort(ts);
  }
}

/** Day-grouped PnL and the equity curve built from it. */
module DailyPnl {
  import opened Common

  /** A closed trade and the day it closed, if its date can be read. */
  datatype Trade = Trade(pnl: real, day: Option<int>)

  /** Which trades a total covers. */
  datatype Window = On(day: int) | UpTo(day: int) | Dated

  predicate Covers(w: Window, t: Trade) {
    t.day.Some? && (w.On? ==> t.day.value == w.day) && (w.UpTo? ==> t.day.value <= w.day)
  }

  /** PnL and number of trades. */
  datatype Tally = Tally(pnl: real, trades: nat)

  function Add(a: Tally, t: Trade): Tally { Tally(a.pnl + t.pnl, a.trades + 1) }

  function Total(trades: seq<Trade>, w: Window): Tally {
    if trades == [] then Tally(0.0, 0)
    else
      var init, t := Total(trades[..|trades| - 1], w), trades[|trades| - 1];
      if Covers(w, t) then Add(init, t) else init
  }

  function Days(trades: seq<Trade>): set<int> { set t | t in trades && t.day.Some? :: t.day.value }

  predicate Increasing(s: seq<int>) { forall i, j :: 0 <= i < j < |s| ==> s[i] < s[j] }

  /** Insert a day into an increasing list that does not have it yet. */
  function InsertDay(d: int, s: seq<int>): seq<int> {
    if s == [] || d < s[0] then [d] + s else if d == s[0] then s else [s[0]] + InsertDay(d, s[1..])
  }

  lemma {:induction false} InsertDayElements(d: int, s: seq<int>)
    ensures forall x :: x in InsertDay(d, s) <==> x == d || x in s
  {
    if s != [] {
      InsertDayElements(d, s[1..]);
      assert s == [s[0]] + s[1..];
    }
  }

  lemma {:induction false} InsertDayMeaning(d: int, s: seq<int>)
    requires Increasing(s)
    ensures Increasing(InsertDay(d, s)) && forall x :: x in InsertDay(d, s) <==> x == d || x in s
  {
    InsertDayElements(d, s);
    if s != [] && d > s[0] {
      InsertDayMeaning(d, s[1..]);
      var rest := InsertDay(d, s[1..]);
      forall i | 0 <= i < |rest| ensures s[0] < rest[i] {
        assert rest[i] in rest;
      }
    }
  }

  /** The keys of a dictionary in increasing order. */
  function SortedDays(keys: seq<int>): seq<int> {
    if keys == [] then [] else InsertDay(keys[|keys| - 1], SortedDays(keys[..|keys| - 1]))
  }

  lemma {:induction false} SortedDaysMeaning(keys: seq<int>)
    ensures Increasing(SortedDays(keys)) && forall x :: x in SortedDays(keys) <==> x in keys
  {
    if keys != [] {
      SortedDaysMeaning(keys[..|keys| - 1]);
      InsertDayMeaning(keys[|keys| - 1], SortedDays(keys[..|keys| - 1]));
      assert keys == keys[..|keys| - 1] + [keys[|keys| - 1]];
    }
  }

  /** The days in order of first appearance, as the dictionary lists its keys. */
  function DayKeys(trades: seq<Trade>): seq<int> {
    if trades == [] then []
    else
      var keys, t := DayKeys(trades[..|trades| - 1]), trades[|trades| - 1];
      if t.day.Some? && t.day.value !in keys then keys + [t.day.value] else keys
  }

  /** The dates of the curve. */
  function CurveDays(trades: seq<Trade>): seq<int> { SortedDays(DayKeys(trades)) }

  lemma {:induction false} DayKeysMeaning(trades: seq<Trade>)
    ensures forall d :: d in DayKeys(trades) <==> d in Days(trades)
  {
    if trades != [] {
      var init, t := trades[..|trades| - 1], trades[|trades| - 1];
      DayKeysMeaning(init);
      assert forall x :: x in trades <==> x in init || x == t;
    }
  }

  /** The curve's dates strictly increase and are exactly the days with a trade. */
  lemma CurveDaysMeaning(trades: seq<Trade>)
    ensures Increasing(CurveDays(trades)) && forall d :: d in CurveDays(trades) <==> d in Days(trades)
  {
    DayKeysMeaning(trades);
    SortedDaysMeaning(DayKeys(trades));
  }

  datatype Entry = Entry(date: int, pnl: real, balance: real, trades: nat)

  /** The entry of one day: that day's PnL and trades, and the balance after everything up to it. */
  function EntryOf(trades: seq<Trade>, start: real, day: int): Entry {
    MakeEntry(day, Total(trades, On(day)), start + Total(trades, UpTo(day)).pnl)
  }

  function MakeEntry(day: int, t: Tally, balance: real): Entry {
    Entry(day, Round2(t.pnl), Round2(balance), t.trades)
  }

  /** The entry shows the day, its rounded PnL and number of trades, and the rounded balance after it. */
  ghost predicate Shows(e: Entry, trades: seq<Trade>, start: real, day: int) {
    && e.date == day && e.pnl == Round2(Total(trades, On(day)).pnl) && e.trades == Total(trades, On(day)).trades
    && e.balance == Round2(start + Total(trades, UpTo(day)).pnl)
  }

  /** A total starts at nothing; a trade adds its PnL and one if it has a readable date in the window. */
  lemma {:induction false} TotalGrows(trades: seq<Trade>, t: Trade, w: Window)
    ensures Total([], w).pnl == 0.0 && Total([], w).trades == 0
    ensures var inside := match t.day
                          case None => false
                          case Some(day) => (match w
                                             case On(d) => day == d
                                             case UpTo(d) => day <= d
                                             case Dated => true);
            && Total(trades + [t], w).pnl == Total(trades, w).pnl + (if inside then t.pnl else 0.0)
            && Total(trades + [t], w).trades == Total(trades, w).trades + if inside then 1 else 0
  {
    assert (trades + [t])[..|trades|] == trades;
  }

  method GetDailyPnl(trades: seq<Trade>, startingBalance: real) returns (curve: seq<Entry>)
    ensures var days := CurveDays(trades);
            |curve| == |days| && forall i :: 0 <= i < |days| ==> curve[i] == EntryOf(trades, startingBalance, days[i])
    ensures forall i :: 0 <= i < |curve| ==> Shows(curve[i], trades, startingBalance, CurveDays(trades)[i])
  {
    var daily, keys := Group(trades);
    var days := SortedDays(keys);
    CurveDaysMeaning(trades);
    curve := [];
    var balance := startingBalance;
    for i := 0 to |days|
      invariant balance == startingBalance + if i == 0 then 0.0 else Total(trades, UpTo(days[i - 1])).pnl
      invariant |curve| == i && forall k :: 0 <= k < i ==> curve[k] == EntryOf(trades, startingBalance, days[k])
    {
      assert days[i] in days && days[i] in daily;
      BalanceStep(trades, days, i);
      var t := daily[days[i]];
      balance := balance + t.pnl;
      curve := curve + [MakeEntry(days[i], t, balance)];
    }
  }

  /** The grouping loop: the dictionary and its keys in order of insertion. */
  method Group(trades: seq<Trade>) returns (daily: map<int, Tally>, keys: seq<int>)
    ensures Grouped(daily, trades) && keys == DayKeys(trades)
  {
    daily, keys := map[], [];
    for i := 0 to |trades|
      invariant Grouped(daily, trades[..i]) && keys == DayKeys(trades[..i])
    {
      assert trades[..i + 1][..i] == trades[..i];
      GroupStep(daily, trades[..i], trades[i]);
      DayKeysMeaning(trades[..i]);
      assert trades[..i] + [trades[i]] == trades[..i + 1];
      if trades[i].day.Some? {
        var d := trades[i].day.value;
        if d !in daily { keys := keys + [d]; }
        daily := daily[d := Add(if d in daily then daily[d] else Tally(0.0, 0), trades[i])];
      }
    }
    assert trades[..|trades|] == trades;
  }

  /** The dictionary holds exactly the days that occur, each with its total. */
  ghost predicate Grouped(daily: map<int, Tally>, trades: seq<Trade>) {
    daily.Keys == Days(trades) && forall d :: d in daily ==> daily[d] == Total(trades, On(d))
  }

  lemma {:induction false} EmptyDay(trades: seq<Trade>, day: int)
    requires day !in Days(trades)
    ensures Total(trades, On(day)) == Tally(0.0, 0)
  {
    if trades != [] {
      var init := trades[..|trades| - 1];
      assert trades[|trades| - 1] in trades;
      assert forall t :: t in init ==> t in trades;
      EmptyDay(init, day);
    }
  }

  lemma {:induction false} GroupStep(daily: map<int, Tally>, trades: seq<Trade>, t: Trade)
    requires Grouped(daily, trades)
    ensures t.day.None? ==> Grouped(daily, trades + [t])
    ensures t.day.Some? ==> var d := t.day.value;
              Grouped(daily[d := Add(if d in daily then daily[d] else Tally(0.0, 0), t)], trades + [t])
  {
    var more := trades + [t];
    assert more[..|trades|] == trades;
    assert forall x :: x in more <==> x in trades || x == t;
    if t.day.Some? && t.day.value !in daily { EmptyDay(trades, t.day.value); }
  }

  /** No trade lies strictly between two days: the totals up to them differ by the later day's total. */
  lemma {:induction false} UpToStep(trades: seq<Trade>, a: int, b: int)
    requires a < b && forall t :: t in trades && t.day.Some? ==> !(a < t.day.value < b)
    ensures var p, q, d := Total(trades, UpTo(a)), Total(trades, UpTo(b)), Total(trades, On(b));
            q.pnl == p.pnl + d.pnl && q.trades == p.trades + d.trades
  {
    if trades != [] {
      assert trades[|trades| - 1] in trades;
      assert forall t :: t in trades[..|trades| - 1] ==> t in trades;
      UpToStep(trades[..|trades| - 1], a, b);
    }
  }

  lemma {:induction false} NothingBefore(trades: seq<Trade>, a: int)
    requires forall t :: t in trades && t.day.Some? ==> a < t.day.value
    ensures Total(trades, UpTo(a)) == Tally(0.0, 0)
  {
    if trades != [] {
      assert trades[|trades| - 1] in trades;
      assert forall t :: t in trades[..|trades| - 1] ==> t in trades;
      NothingBefore(trades[..|trades| - 1], a);
    }
  }

  /** One step along the sorted days. */
  lemma BalanceStep(trades: seq<Trade>, days: seq<int>, i: nat)
    requires i < |days| && Increasing(days) && forall d :: d in days <==> d in Days(trades)
    ensures var before := if i == 0 then Tally(0.0, 0) else Total(trades, UpTo(days[i - 1]));
            var here, upTo := Total(trades, On(days[i])), Total(trades, UpTo(days[i]));
            upTo.pnl == before.pnl + here.pnl && upTo.trades == before.trades + here.trades
  {
    var low := if i == 0 then days[0] - 1 else days[i - 1];
    forall t | t in trades && t.day.Some? ensures !(low < t.day.value < days[i]) && (i == 0 ==> low < t.day.value) {
      assert t.day.value in Days(trades);
      var k :| 0 <= k < |days| && days[k] == t.day.value;
      assert k < i || k == i || k > i;
    }
    if i == 0 { NothingBefore(trades, low); }
    UpToStep(trades, low, days[i]);
  }

  function CountSum(trades: seq<Trade>, days: seq<int>): nat {
    if days == [] then 0
    else CountSum(trades, days[..|days| - 1]) + Total(trades, On(days[|days| - 1])).trades
  }

  lemma {:induction false} CountSumIsUpTo(trades: seq<Trade>, days: seq<int>, n: nat)
    requires n <= |days| && Increasing(days) && forall d :: d in days <==> d in Days(trades)
    ensures CountSum(trades, days[..n]) == if n == 0 then 0 else Total(trades, UpTo(days[n - 1])).trades
  {
    if n > 0 {
      CountSumIsUpTo(trades, days, n - 1);
      BalanceStep(trades, days, n - 1);
      assert days[..n][..n - 1] == days[..n - 1];
    }
  }

  lemma {:induction false} AllUpToLast(trades: seq<Trade>, last: int)
    requires forall t :: t in trades && t.day.Some? ==> t.day.value <= last
    ensures Total(trades, UpTo(last)) == Total(trades, Dated)
  {
    if trades != [] {
      assert trades[|trades| - 1] in trades;
      assert forall t :: t in trades[..|trades| - 1] ==> t in trades;
      AllUpToLast(trades[..|trades| - 1], last);
    }
  }

  /** The curve accounts for every trade with a readable date exactly once: the counts add up to their number
      and the last balance is the starting balance plus all of their PnL. */
  lemma CurveAccountsForAll(trades: seq<Trade>)
    ensures var days := CurveDays(trades);
            && CountSum(trades, days) == Total(trades, Dated).trades
            && (days != [] ==> Total(trades, UpTo(days[|days| - 1])) == Total(trades, Dated))
  {
    var days := CurveDays(trades);
    CurveDaysMeaning(trades);
    CountSumIsUpTo(trades, days, |days|);
    assert days[..|days|] == days;
    forall t | t in trades && t.day.Some? ensures days != [] && t.day.value <= days[|days| - 1] {
      assert t.day.value in Days(trades);
      var k :| 0 <= k < |days| && days[k] == t.day.value;
    }
    if days != [] {
      AllUpToLast(trades, days[|days| - 1]);
    } else {
      AllUpToLast(trades, 0);
      NothingBefore(trades, 0);
    }
  }

  /** Removing one trade from a list takes its share off the total. */
  lemma {:induction false} TotalWithout(trades: seq<Trade>, i: nat, w: Window)
    requires i < |trades|
    ensures var rest := Total(trades[..i] + trades[i + 1..], w);
            Total(trades, w) == if Covers(w, trades[i]) then Add(rest, trades[i]) else rest
  {
    var n := |trades| - 1;
    if i == n {
      assert trades[..i] + trades[i + 1..] == trades[..n];
    } else {
      var less := trades[..n][..i] + trades[..n][i + 1..];
      TotalWithout(trades[..n], i, w);
      TotalSnoc(less, trades[n], w);
      assert trades[..i] + trades[i + 1..] == less + [trades[n]];
      AddSwaps(Total(less, w), trades[i], trades[n]);
    }
  }

  lemma {:induction false} TotalSnoc(trades: seq<Trade>, t: Trade, w: Window)
    ensures Total(trades + [t], w) == if Covers(w, t) then Add(Total(trades, w), t) else Total(trades, w)
  {
    assert (trades + [t])[..|trades|] == trades;
  }

  lemma AddSwaps(a: Tally, t: Trade, u: Trade)
    ensures Add(Add(a, t), u) == Add(Add(a, u), t)
  {
  }

  lemma {:induction false} TotalOrderIrrelevant(a: seq<Trade>, b: seq<Trade>, w: Window)
    requires multiset(a) == multiset(b)
    ensures Total(a, w) == Total(b, w)
  {
    if a == [] {
      assert |multiset(b)| == 0;
      assert b == [];
    } else {
      var n := |a| - 1;
      assert a == a[..n] + [a[n]];
      assert a[n] in multiset(b);
      var i :| 0 <= i < |b| && b[i] == a[n];
      WithoutElement(b, i);
      WithoutElement(a, n);
      assert a[..n] + a[n + 1..] == a[..n];
      TotalOrderIrrelevant(a[..n], b[..i] + b[i + 1..], w);
      TotalWithout(b, i, w);
    }
  }

  lemma WithoutElement(s: seq<Trade>, i: nat)
    requires i < |s|
    ensures multiset(s[..i] + s[i + 1..]) == multiset(s) - multiset{s[i]}
  {
    assert s == s[..i] + [s[i]] + s[i + 1..];
  }

  /** In exact arithmetic the curve does not depend on the order of the trades. */
  lemma CurveOrderIrrelevant(a: seq<Trade>, b: seq<Trade>, start: real, day: int)
    requires multiset(a) == multiset(b)
    ensures CurveDays(a) == CurveDays(b) && EntryOf(a, start, day) == EntryOf(b, start, day)
  {
    forall t ensures t in a <==> t in b {
      assert t in a <==> t in multiset(a);
      assert t in b <==> t in multiset(b);
    }
    assert Days(a) == Days(b);
    CurveDaysMeaning(a);
    CurveDaysMeaning(b);
    IncreasingUnique(CurveDays(a), CurveDays(b));
    TotalOrderIrrelevant(a, b, On(day));
    TotalOrderIrrelevant(a, b, UpTo(day));
  }

  /** An increasing list is determined by its elements. */
  lemma {:induction false} IncreasingUnique(a: seq<int>, b: seq<int>)
    requires Increasing(a) && Increasing(b) && forall x :: x in a <==> x in b
    ensures a == b
  {
    assert b == [] || b[0] in b;
    if a != [] {
      assert a[0] in a;
      assert a[0] in b && b != [] && b[0] in a;
      assert a[0] == b[0];
      forall x ensures x in a[1..] <==> x in b[1..] {
        assert x in a[1..] <==> x in a && x != a[0];
        assert x in b[1..] <==> x in b && x != b[0];
      }
      IncreasingUnique(a[1..], b[1..]);
      assert a == [a[0]] + a[1..] && b == [b[0]] + b[1..];
    }
  }
}

# Trade ledger: a verified model

This project models the algorithms and small state machines inside a trading back end, and proves what
they promise. There is one module per component:

| module | component |
|---|---|
| `Ingest` | the resumable, batch-committing import of a trade list, as a crash/restart protocol |
| `Money` | the locale-tolerant money parser of that import, against the printers it is meant to read |
| `TradeHistory`, `Reconcile`, `BackfillPnl` | database rows against broker deals and positions: the merged history, the reconciliation counts, the two PnL backfills |
| `Positions` | closing positions in full, in part, or because the broker no longer has them |
| `Drawdown`, `Streaks`, `DailyPnl`, `Percentile` | one-pass statistics against their definitions |
| `ParamGrid`, `HillClimb` | the backtracking parameter grid, grid search and hill climbing |
| `ModeCache`, `TtlCache` | the time-limited caches, over all interleavings of readers and writers |
| `Base64Url`, `OAuthState` | the signed connect state and the text codec under it |
| `CouncilRuns` | the three-pass council lookup against one declarative rule |
| `BrokerProfiles` | the broker-profile table under every endpoint that writes it |
| `Common` | options, maxima and Python's round-half-even on exact numbers |

Loops and stateful endpoints are methods (on a class where the source keeps state), each proved equal to a
specification function; the theorems are lemmas about those functions. Money is a `real`, lot sizes are in
hundredths of a lot, time is a `real` or an integer, tables are sequences or maps of rows. A request or loop
body is one atomic step, except where interleaving is the point (`ModeCache`, `TtlCache`, and the two-call
activation in `BrokerProfiles`). Clocks, query results and broker answers are parameters.

## Where the code departs from what one would expect

Each of these is a lemma, with the exact condition under which the expectation does hold.

- An interrupted ingest resumes correctly only if timestamps come back under the key they were written with,
  for every row that was to be added (`Ingest.CrashResumeIff`). A store that returns text with a blank between
  date and time never qualifies; one that converts to UTC does only for stamps without an offset
  (`Ingest.ResumeOnStores`).
- A whole amount of 1000 or more, grouped with a comma or point and printed without decimals, is read as
  thousandths: "1,234" becomes 1.234 (`Money.ReadsBackIff`).
- With negative equity the reported maximum drawdown percentage can fall short of the largest fall between
  two points (`Drawdown.MaxPctFallsShort`). It is the largest exactly when, at every point with negative equity,
  the fall from the smallest positive point so far is covered by some shown percentage
  (`Drawdown.MaxPctIsAllPairsIff`), in particular while equity is never negative (`Drawdown.MaxPctIsAllPairs`).
- Two losses separated only by break-even trades are in one streak of the analytics endpoint and in two of the
  account endpoint, which therefore lists exactly one more for every such gap (`Streaks.LossRunsCompared`,
  `Streaks.LossRunsAgreeIff`).
- Two rows claiming one live position hide an unclaimed one: the mismatch flag stays clear
  (`Reconcile.MissingIsUnclaimedIff`, `Reconcile.DoubleClaimHidesMissing`).
- A broker trade is listed beside its own database row, and both count, exactly when the row has neither the
  position's id nor the symbol, exit minute and rounded net of its latest opening and closing deals
  (`TradeHistory.ListedIff`, `TradeHistory.ListedBesideIff`, `TradeHistory.PairCountedIff`). That happens when
  `close_time` is the row's only exit time (`TradeHistory.CountedTwice`), and also when the row holds the
  position's full net and the last closing deal alone nets something else: with fees on the opening deal, or
  with several closing deals (`TradeHistory.FullNetListedBesideIff`, `TradeHistory.EntryFeeCountedTwice`).
- A broker line carries the profit of the latest closing deal, which is the position's exactly when its other
  deals make none in total (`TradeHistory.LineProfitIff`).
- The documentation of `match_trade_to_deal` ranks its four tests; the code returns the first deal in the list
  that matches in any way, which is the best-ranked one exactly when no deal before that one matches at all
  (`BackfillPnl.RankedMatchIff`, `BackfillPnl.IdMatchCanLose`, `BackfillPnl.OrderIdCanWin`).
- After a completed mode change, later reads can still return something else, in two ways. A reader that
  fetched before the change can store its value afterwards; if none such is in flight, and only then, every later
  read in every interleaving returns the new mode or the fallback of a query that failed after the change and
  less than 30 seconds before (`ModeCache.ReadsAfterChangeIff`). The second way remains: one failed query is
  remembered for 30 seconds and hides the change from reads that would have succeeded
  (`ModeCache.FailedReadIsServed`); without failures the new mode is returned (`ModeCache.ReadsReturnNewMode`).
- The age bound of the account caches counts from the arrival of an answer;
  it bounds the age of what the answer describes exactly when no answer that can still be served took time to
  arrive (`TtlCache.AgeBoundIff`).
- An activation leaves an inactive profile selected exactly when, between its two database calls, an accepted
  update deactivates the profile, none reactivates it later, and it is not deleted
  (`BrokerProfiles.ActivationRaceIff`).
- A partial close whose row update fails is still reported, so volume is then counted twice
  (`Positions.ConservedIffNothingLost`).
- The result hill climbing returns carries the score read back for the last parameter it kept, which need not be
  the best score found (`HillClimb.ReportedMeaning`, `HillClimb.ReportedBelowBest`).

## Model

| member | source | states |
|---|---|---|
| Ingest.Database.Insert | ml/ingest_tv_export.py:789-793 | an insertion joins the open batch, and the batch is committed exactly when the running count reaches a multiple of the batch size; committed plus open rows grow by this row |
| Ingest.Database.Handle | ml/ingest_tv_export.py:664-799 | one turn of the row loop inserts, skips or fails its trade as the run function says, and moves exactly one of the three tallies by one |
| Ingest.Database.Process | ml/ingest_tv_export.py:661-799 | with the keys read back at the start, the row loop inserts, skips and fails trades as the run function says, keeps committed plus open rows equal to the old table plus the inserted rows, and its three tallies add up to the trades handled |
| Ingest.Database.Save | ml/ingest_tv_export.py:614-805 | a run that dies after any number of trades leaves exactly the whole batches of what it had inserted; one that finishes stores the full run, and, skipping known trades into an empty table or one that returns what was written, adds exactly one row for every side and second of a sound trade not stored yet, that of the first such trade, and counts as errors exactly the failing trades that were still to insert |
| Ingest.KeysCollideIff | ml/ingest_tv_export.py:605-611 | two trades are duplicates if and only if symbol, side and wall-clock second agree; offsets do not count |
| Ingest.RunAddsFirsts | ml/ingest_tv_export.py:651-799 | a full run adds exactly the rows of the first sound trade of every side and second not stored yet, in order |
| Ingest.FirstsCoverAll | ml/ingest_tv_export.py:651-799 | for every side and second exactly one row is added if a sound trade has them and no stored row does, and none otherwise |
| Ingest.FreshKeysUnique | ml/ingest_tv_export.py:651-660 | the rows a run adds carry pairwise different keys, none of them known before |
| Ingest.SoundKeysCovered | ml/ingest_tv_export.py:664-799 | after a run every well-formed trade's key is known or stored |
| Ingest.NothingFreshIff | ml/ingest_tv_export.py:664-799 | a run inserts nothing if and only if every well-formed trade's key was known at its start |
| Ingest.FreshPrefix | ml/ingest_tv_export.py:664-804 | what a run has inserted when it dies is a prefix of what it would have inserted |
| Ingest.ResumeFromPrefix | ml/ingest_tv_export.py:651-660 | a run that starts out knowing the keys of the first k fresh rows inserts exactly the others, in order |
| Ingest.AttemptsLeavePrefix | ml/ingest_tv_export.py:651-804 | after any series of runs cut off anywhere, with any batch sizes, the table holds its old rows and a prefix of one full run's additions |
| Ingest.CrashResumeIff | ml/ingest_tv_export.py:605-611 | over any table, every series of interrupted runs followed by a full one stores the same row sequence as one uninterrupted run if and only if every row the ingest has to add comes back under the key it is written with |
| Ingest.LostKeyBreaksResume | ml/ingest_tv_export.py:651-660 | otherwise, a run that dies right after the first row that does not gives a different table |
| Ingest.TalliesAddUp | ml/ingest_tv_export.py:661-805 | inserted, skipped and failed trades of a full run add up to the number of trades |
| Ingest.RerunAddsNothingIff | ml/ingest_tv_export.py:605-611 | rerunning a finished ingest adds nothing if and only if the keys of the rows it had to add are among those they come back under |
| Ingest.ResumeOnStores | ml/ingest_tv_export.py:605-611 | for any table and trades: with text timestamps separated by a blank, resuming and rerunning work if and only if nothing had to be added; with conversion to UTC, resuming works if and only if no row to add has a non-zero offset |
| Money.ParseInvertsPrint | ml/ingest_tv_export.py:143-160 | for every amount with at least one decimal, printed with US, EU, blank or no grouping, currency signs anywhere around it, and a leading minus or parentheses, the parser returns that amount |
| Money.ParseOfWholePrint | ml/ingest_tv_export.py:143-160 | what the parser returns for amounts printed without decimals: the amount, or its thousandth part when it is grouped with comma or point |
| Money.ReadsBackIff | ml/ingest_tv_export.py:143-160 | an amount reads back as itself if and only if it has decimals, is below a thousand, or is not grouped with comma or point |
| Money.NoAmount | ml/ingest_tv_export.py:143-149 | absent or blank text, and a dash, an em dash or "N/A" between blanks, are no amount |
| Money.DigitlessIsNoAmount | ml/ingest_tv_export.py:143-160 | text without digits and letters, such as a lone currency sign, sign or point, is no amount |
| TradeHistory.GetTradeHistory | src/api_portfolio_control.py:2043-2304 | under the win filter exactly the merged executed lines with a PnL of zero or more are listed, under the loss filter those below zero, unfiltered all; newest exit (else entry) first, ties in merge order; the statistics count and sum the listed executed lines, and the net is their rounded total PnL |
| TradeHistory.FilteredIff | src/api_portfolio_control.py:2265-2274 | a trade is listed under a filter if and only if it is a merged line and, for a filter, executed with a PnL of that sign, zero counting as a win |
| TradeHistory.HistoryMeaning | src/api_portfolio_control.py:2265-2304 | members, order, counts of executed and winning lines, profit, loss and net of the history, on the lines and their PnL |
| TradeHistory.MergedLinesShown | src/api_portfolio_control.py:2077-2115 | the merged list starts with one line per row, in order, showing its columns, its PnL net of commission and swap, and the first exit time it has; all others are broker lines |
| TradeHistory.MergeRows | src/api_portfolio_control.py:2043-2049 | legacy rows are appended unless the first query returned their id |
| TradeHistory.ScanRows | src/api_portfolio_control.py:2051-2132 | the lines of the rows, and exactly the position ids and fingerprints the rows carry |
| TradeHistory.GroupDeals | src/api_portfolio_control.py:2175-2183 | the dictionary of deals per position and its insertion order |
| TradeHistory.GroupsMeaning | src/api_portfolio_control.py:2175-2183 | that dictionary lists exactly the named positions with a deal, each with its deals in arrival order |
| TradeHistory.FetchBroker | src/api_portfolio_control.py:2185-2263 | one line for each position that is to be reported, in order of first appearance |
| TradeHistory.ConvertPosition | src/api_portfolio_control.py:2190-2263 | the line of one group of deals, from its last opening and last closing deal in time order |
| TradeHistory.MergedRowsDistinct | src/api_portfolio_control.py:2043-2049 | with distinct ids per query the merged rows have distinct ids, and exactly the ids of both queries |
| TradeHistory.ReportedIff | src/api_portfolio_control.py:2185-2263 | a position has a line if and only if the database does not list it, it has an opening and a closing deal, and the fingerprint of the latest of each is no database row's; the line is then made of those two deals |
| TradeHistory.ListedIff | src/api_portfolio_control.py:2120-2235 | in the unfiltered history a named position has a line if and only if it was opened and closed and no row of either query has its id as broker order id or its fingerprint, taken from its latest opening and latest closing deal |
| TradeHistory.LatestMeaning | src/api_portfolio_control.py:2190-2203 | the deal a side of a line is taken from is a latest one of its kind, and is missing if and only if there is none |
| TradeHistory.ListedBesideIff | src/api_portfolio_control.py:2123-2132 | a closed position is listed beside a row if and only if the row has neither its id nor its symbol, exit minute and rounded net |
| TradeHistory.FullNetListedBesideIff | src/api_portfolio_control.py:2212-2235 | a row with the position's full net and exit time but not its id is listed beside it if and only if the full net and that of the last closing deal alone round to different cents |
| TradeHistory.PairCountedIff | src/api_portfolio_control.py:2123-2132 | a row and its position of two deals give one line and count once if the row is recognised as the position's, and give two lines and count both otherwise |
| TradeHistory.EntryFeeCountedTwice | src/api_portfolio_control.py:2212-2235 | a commission on the opening deal is enough for the profit to count twice |
| TradeHistory.LineProfitIff | src/api_portfolio_control.py:2204-2216 | a line's PnL is the profit of the position's latest closing deal, and that of the whole position if and only if its other deals make none in total |
| TradeHistory.HistoryIsExact | src/api_portfolio_control.py:2043-2304 | unfiltered, every row id of either query has exactly one line, and every broker position one line when it is to be reported and none otherwise |
| TradeHistory.NoTradeTwice | src/api_portfolio_control.py:2265-2280 | under every filter no row id and no broker position has two lines |
| TradeHistory.SortedStably | src/api_portfolio_control.py:2276-2280 | the output is in descending order of exit (else entry) time, and lines with equal times are exactly the given ones in their given order |
| TradeHistory.NetIsExecutedSum | src/api_portfolio_control.py:2285-2294 | gross profit minus gross loss is the sum of the PnL of the executed lines |
| TradeHistory.FiltersSplitNet | src/api_portfolio_control.py:2265-2294 | the unfiltered unrounded net is the sum over all executed trades, and the nets under the win and loss filters add up to it |
| TradeHistory.FilteredNetSigns | src/api_portfolio_control.py:2265-2294 | the net under the win filter is never negative, and under the loss filter never positive |
| Reconcile.ActivePositions | src/api_positions.py:255-457 | matched counts the rows one of whose references is a live id, stale those that have a reference but no live one, missing the excess of live positions over matched rows, and the flag is set if and only if one of the last two is positive |
| Reconcile.CountsMeaning | src/api_positions.py:352-358 | the counts made through the two dictionaries are the numbers of rows with a live reference, and of rows with references none of which is live |
| Reconcile.IndexMeaning | src/api_positions.py:255-262 | the two dictionaries list exactly the live positions with an id |
| Reconcile.ClaimMeaning | src/api_positions.py:323-347 | a row claims a live position it references, of its own profile if there is such a one, and claims none if and only if no live position has one of its references |
| Reconcile.ClaimedCount | src/api_positions.py:352-358 | the claimed positions never outnumber the matched rows, and equal them if and only if no two rows claim the same one |
| Reconcile.MissingIsUnclaimedIff | src/api_positions.py:444-448 | missing_in_db never exceeds the number of unclaimed live positions, and equals it if and only if no two rows claim the same position or every position is claimed |
| Reconcile.MismatchFlagIff | src/api_positions.py:444-457 | the flag is clear if and only if every referencing row is live and the matched rows reach the number of live positions; with one-to-one claims: every live position is claimed |
| Reconcile.DoubleClaimHidesMissing | src/api_positions.py:444-457 | two rows on one position and an unclaimed second position give no mismatch |
| Reconcile.AccountPositions | src/api_portfolio_control.py:1008-1068 | matched counts the broker ids some row refers to, orphaned the others, pending is the rows minus matched, and each row is tagged matched if and only if its order id, or without one its position id, is a live id |
| Reconcile.CountDistinct | src/api_portfolio_control.py:1008-1025 | in a list without repetitions the members counted in a set are the common elements |
| Reconcile.PendingOffBy | src/api_portfolio_control.py:1048-1068 | by how much the pending total exceeds the number of rows tagged pending, for any ids |
| Reconcile.PendingIsTagged | src/api_portfolio_control.py:1048-1068 | with distinct ids on both sides the pending total is the number of rows tagged pending |
| BackfillPnl.FetchBrokerDeals | scripts/backfill_actual_pnl.py:130-152 | the closing deals in order, each with its own profit, and with the commission and the swap of its whole position in the respective field |
| BackfillPnl.BackfillPosition | src/api_positions.py:819-847 | profit, commission and swap of all the position's deals, or nothing without an exit deal |
| BackfillPnl.SumsAre | src/api_positions.py:826-836 | profit, commission and swap of a position, and number and profit of its closing deals, are the sums and the count over its own deals |
| BackfillPnl.EnrichedNetSum | scripts/backfill_actual_pnl.py:138-152 | the enriched closing deals of a position net their profits plus, once per closing deal, all its fees |
| BackfillPnl.BackfillsDiffer | scripts/backfill_actual_pnl.py:321-325 | with k closing deals the enriched nets exceed the per-position net by k - 1 times the position's commission and swap, less the profit on other deals |
| BackfillPnl.BackfillsAgreeIff | scripts/backfill_actual_pnl.py:321-325 | they agree if and only if these two amounts are equal; with one closing deal, if and only if the other deals carry no profit |
| BackfillPnl.MatchTradeToDeal | scripts/backfill_actual_pnl.py:173-227 | the index of the first deal with the trade's position id, with its order id as position or order id, or with its symbol less than five minutes from its close |
| BackfillPnl.FirstMatchMeaning | scripts/backfill_actual_pnl.py:198-227 | that deal matches and no earlier one does; none is returned if and only if none matches |
| BackfillPnl.RankedMatchIff | scripts/backfill_actual_pnl.py:174-182 | the first deal of the best documented rank present is the one returned if and only if no deal before it matches in any of the four ways |
| BackfillPnl.IdMatchCanLose | scripts/backfill_actual_pnl.py:198-227 | a trade is matched to another position's deal although its own is listed |
| BackfillPnl.OrderIdCanWin | scripts/backfill_actual_pnl.py:198-227 | a deal that matches by order id is returned although the deal with the trade's position id is listed |
| Positions.SignalTable.PartialClose | src/api_positions.py:633-673 | an accepted close closes the requested share rounded half to even to the 0.01 grid and leaves the rest rounded likewise; once written the row is closed if and only if nothing is left, and otherwise holds the rest; each refusal exactly when the status, the size or the share demands it, without any change; other rows stay |
| Positions.PartialMeaning | src/api_positions.py:637-673 | the same of the specification the runs below are made of |
| Positions.SignalTable.ClosePosition | src/api_positions.py:471-512 | an open row's own size is sent to the broker and the row is closed if its update succeeds; nothing is sent or changed otherwise; other rows stay |
| Positions.SignalTable.CleanupStale | src/api_positions.py:728-762 | exactly the rows whose broker position is gone and whose update succeeds are closed and listed, in order |
| Positions.PartialArithmetic | src/api_positions.py:633-650 | rounded closed volume plus rounded remainder is the size on the 0.01 grid and within 0.005 of it off the grid, neither is negative, and the size strictly shrinks |
| Positions.TooSmallIff | src/api_positions.py:640-650 | a partial close is refused as too small if and only if its exact volume is at most 0.005 |
| Positions.ClosedIsTerminal | src/api_positions.py:471-512 | no run of requests changes a closed row or is accepted on it |
| Positions.VolumeConserved | src/api_positions.py:633-673 | over every run, volume reported and written back plus the size left is the starting size: exactly on the grid, within 0.005 in total off it |
| Positions.ConservedIffNothingLost | src/api_positions.py:655-673 | on the grid, all reported volume plus the size left is the starting size if and only if no accepted close lost its write |
| Positions.WritesBounded | src/api_positions.py:633-673 | the number of accepted and written partial closes is bounded by the starting size, so runs terminate |
| Drawdown.GetDrawdown | src/api_analytics.py:430-466 | the single pass reports the rounded maxima, and one plot point per trade with the curve's equity, its running peak and the negated drawdown percentage |
| Drawdown.FoldTracksCurve | src/api_analytics.py:436-444 | the loop's equity and peak are the last point and the maximum of the equity curve |
| Drawdown.MaxDropIsAllPairs | src/api_analytics.py:436-447 | the maximum amount is the largest fall from an earlier to a later point, starting balance included |
| Drawdown.MaxPctIsLargestPoint | src/api_analytics.py:436-447 | the maximum percentage is the largest of those shown at the points of the curve |
| Drawdown.PointPctIsLargestIff | src/api_analytics.py:442-444 | at a point the percentage is the largest over all earlier reference points if and only if equity there is not negative or every positive earlier point equals the peak; some earlier point always attains it |
| Drawdown.MaxPctIsAllPairsIff | src/api_analytics.py:436-447 | the maximum percentage is the largest fall over all pairs if and only if, at every point with negative equity, the fall from the smallest positive point so far is covered by a percentage shown somewhere; in particular while equity stays non-negative |
| Drawdown.MaxPctFallsShort | src/api_analytics.py:442-447 | with negative equity it can be smaller than the fall between two points |
| Drawdown.CurrentDrawdown | src/api_evaluation.py:111-123 | the percentage below the highest balance after any trade |
| Drawdown.EvaluationWithinAnalyticsIff | src/api_evaluation.py:111-123 | it stays within the analytics curve's final drawdown if and only if the balance is not negative, its own peak is not positive, or the start was never above that peak |
| Streaks.GetStreaks | src/api_analytics.py:355-418 | the longest winning and losing run, count and kind of the last run, and the last fifty runs in order, each with kind, count, rounded PnL, start, and the next run's start as its end |
| Streaks.ScannerMeaning | src/api_analytics.py:355-398 | the loop's open streak is the last run so far and every other run is reported |
| Streaks.RunsEncode | src/api_analytics.py:364-398 | the runs cut the non-zero PnLs into consecutive parts of one sign, neighbours alternating, each with its count, exact PnL and start |
| Streaks.EncodingUnique | src/api_analytics.py:364-398 | there is only one such encoding |
| Streaks.RunTotalsAddUp | src/api_analytics.py:364-398 | the unrounded run totals add up to the total PnL |
| Streaks.TallyMeaning | src/api_analytics.py:377-418 | every run is reported in order with its end date, and the maxima are the longest win and loss runs |
| Streaks.GetLosingStreaks | src/api_portfolio_control.py:1837-1881 | exactly the maximal losing stretches of at least the minimum length, in order, each with its first and last exit date, length, total loss, the symbols in order of first appearance, and flagged active if and only if it reaches the last trade |
| Streaks.ScanMeaning | src/api_portfolio_control.py:1841-1874 | after every trade the streak in progress is the stretch ending there and all earlier ones are reported |
| Streaks.LossSpansAreMaximal | src/api_portfolio_control.py:1845-1874 | the stretches are exactly the maximal runs of losses, in order |
| Streaks.LossRunsCompared | src/api_portfolio_control.py:1845-1881 | on the same PnLs the account endpoint has exactly one loss run more than the analytics endpoint for every gap of break-even trades between two losses, and the same runs if there is none |
| Streaks.LossRunsAgreeIff | src/api_portfolio_control.py:1845-1881 | the loss runs agree if and only if no two losses have only break-even trades between them |
| DailyPnl.GetDailyPnl | src/api_funding.py:112-142 | one entry per day with that day's rounded PnL and count, and as its balance the starting balance plus the PnL of everything dated up to it |
| DailyPnl.TotalGrows | src/api_funding.py:118-128 | a trade adds its PnL and one to the totals of its day and of every later horizon, and to no others; without a readable date it adds nothing |
| DailyPnl.CurveDaysMeaning | src/api_funding.py:118-134 | the dates strictly increase and are exactly the days with a trade |
| DailyPnl.Group | src/api_funding.py:114-128 | the dictionary holds exactly the days that occur, each with its total, in insertion order |
| DailyPnl.BalanceStep | src/api_funding.py:136-142 | along the sorted days the total up to a day is the one before plus that day's |
| DailyPnl.CurveAccountsForAll | src/api_funding.py:112-142 | the counts add up to the trades with a readable date, and the last balance covers all of their PnL |
| DailyPnl.TotalOrderIrrelevant | src/api_funding.py:118-128 | every day's totals are the same for permuted trades |
| DailyPnl.CurveOrderIrrelevant | src/api_funding.py:112-142 | the whole curve does not depend on the order of the trades |
| Percentile.Collect | src/api_traces.py:225-246 | the five buckets, named after their stages, hold the durations between the two stamps of their hop, in order |
| Percentile.DurationsExact | src/api_traces.py:235-246 | a duration is collected if and only if it is non-negative and some trace has both stamps of the hop that far apart |
| Percentile.SortSorted | src/api_traces.py:158-158 | sorting sorts |
| Percentile.SortedUnique | src/api_traces.py:158-158 | a sorted list is determined by its elements |
| Percentile.PercentileMonotone | src/api_traces.py:155-161 | percentiles are ordered even after rounding, across order statistics, so p50 <= p95 <= p99 |
| Percentile.RawWithinData | src/api_traces.py:155-161 | the unrounded percentile lies within any bounds of the data |
| Percentile.RawIsInterpolated | src/api_traces.py:159-161 | between two neighbouring order statistics the percentile lies on the straight line joining them, at the fractional position of the index |
| Percentile.RawIsAffine | src/api_traces.py:159-161 | for three percentages within one such interval the unrounded percentiles are in proportion |
| Percentile.PercentileIsRounded | src/api_traces.py:155-161 | the reported percentile is the unrounded one to three decimals, and there is none if and only if there is no data |
| Percentile.PercentileWithinData | src/api_traces.py:155-161 | the rounded percentile lies within the rounded bounds |
| Percentile.PercentileAtOrderStatistic | src/api_traces.py:159-161 | at an integer index the percentile is that order statistic |
| Percentile.PercentileOrderIrrelevant | src/api_traces.py:158-161 | the order of the measurements is irrelevant |
| ParamGrid.Generator.Recurse | scripts/optimize_pairs.py:819-825 | through the one shared dictionary, each level appends its settings laid over the dictionary it found, and disturbs only the keys it owns |
| ParamGrid.Generator.Branch | scripts/optimize_pairs.py:823-825 | the same for one value of one key, however the dictionary was left by the value before |
| ParamGrid.Generator.Generate | scripts/optimize_pairs.py:813-828 | the generated list is the product of the value lists, first key slowest |
| ParamGrid.ProductLength | scripts/optimize_pairs.py:813-828 | its length is the product of the list lengths |
| ParamGrid.EntryDecodes | scripts/optimize_pairs.py:813-828 | entry m takes, for every key, the value at the mixed-radix digit of m |
| ParamGrid.EveryChoiceGenerated | scripts/optimize_pairs.py:813-828 | every choice of one value per key is in the list |
| ParamGrid.NoDuplicates | scripts/optimize_pairs.py:813-828 | with distinct values per key no combination occurs twice |
| ParamGrid.OptimizePair | scripts/optimize_pairs.py:327-347 | the recorded results are the applied combinations in order, and the returned one is the earliest with the maximum score among them; none if and only if none could be applied |
| HillClimb.TryValues | scripts/optimize_pairs.py:690-715 | the best of the bar and the measured scores, and the first value that attains it when it beats the bar |
| HillClimb.OptimizePairSmart | scripts/optimize_pairs.py:657-746 | the best score is the maximum of the baseline and every score measured; the kept values are exactly the first maxima that beat everything measured before their parameter; as many results are recorded as announced; the returned result's score is that of ReportedMeaning |
| HillClimb.ReportedMeaning | scripts/optimize_pairs.py:717-722 | the returned score is the baseline's if nothing raised the best score, and otherwise the one read back for the last parameter that did |
| HillClimb.ReportedBelowBest | scripts/optimize_pairs.py:717-746 | the returned score can be lower than the best score found |
| HillClimb.BestConcat | scripts/optimize_pairs.py:681-722 | climbing parameter by parameter reaches the maximum over everything measured |
| ModeCache.Cache.GetMode | src/api.py:78-101 | a fresh non-empty entry is returned unchanged; otherwise the database value or the fallback is stored with the time the read began, and returned |
| ModeCache.Cache.Invalidate | src/api_config.py:26-32 | only the load time is reset |
| ModeCache.UninterruptedRead | src/api.py:78-101 | the begin, fetch and store steps of the state machine, uninterrupted, amount to one call of GetMode |
| ModeCache.InvariantStep | src/api.py:74-101 | what is cached, in flight or returned stays justified by an instant at which it was in force, under every step of readers, writers and time |
| ModeCache.EveryReadFresh | src/api.py:74-101 | over all interleavings every returned mode was the database value, or the fallback of a failed read, less than 30 seconds before the read began or during it |
| ModeCache.SettledRun | src/api_config.py:167-178 | once a change is complete and no stale fetch is in flight, whatever reads, failed queries, waiting and invalidations follow, everything cached, in flight or newly returned is the new mode or the fallback of a query that failed after the change |
| ModeCache.DangerousIsServed | src/api.py:80-99 | a stale fetch in flight is stored after the change and served to the next reader, without any failed query |
| ModeCache.ReadsAfterChangeIff | src/api_config.py:167-178 | after a completed change, in every interleaving of reads, failed queries and time, every later read returns the new mode, or the fallback of a query that failed after the change less than 30 seconds before the read began or during it, if and only if no overlapping read still holds another value fetched recently |
| ModeCache.ReadsReturnNewMode | src/api_config.py:167-178 | under that condition every later read returns the new mode as long as no query has failed since the change |
| ModeCache.FailedReadIsServed | src/api.py:95-100 | one failed query after the change hides it from any read in the following 30 seconds, with the database holding the new mode |
| TtlCache.KeysSharedIff | src/api_positions.py:27-38 | two requests share an entry if and only if they are of one kind and one account, or one names the account "default" and the other none |
| TtlCache.Cache.Lookup | src/api_positions.py:27-30 | a value is returned if and only if the entry has not expired, and then it stems from an answer for the same account and kind that arrived less than one TTL ago |
| TtlCache.Cache.Put | src/api_positions.py:31-33 | an answer is stored under its own key for one TTL from its arrival, whatever other requests did since the look-up; every entry stays backed by an answer for its own key |
| TtlCache.InvariantStep | src/api_positions.py:25-44 | look-ups, broker calls, stores, failures and the clean-up's refresh, in any order, keep every entry and every served value explained |
| TtlCache.EveryServedExplained | src/api_positions.py:707-715 | over all interleavings, the clean-up's write-through included, every served value comes from an answer for the same account and kind that arrived less than that kind's TTL before |
| TtlCache.AgeBoundIff | src/api_positions.py:25-44 | everything that will be served from the cache is younger than its TTL, counted from the instant it describes, if and only if no answer that can still be served took time to arrive |
| TtlCache.DelayedIsServedOld | src/api_positions.py:25-33 | an entry whose answer took time to arrive is served, asked for late enough, when what it describes is a whole TTL old |
| TtlCache.DelayedAnswerReachable | src/api_positions.py:25-33 | such entries occur, for every account, kind and delay |
| Base64Url.PaddedShape | src/api_ctrader.py:77-78 | padded text is unpadded alphabet text and as many pads as make its length a multiple of four |
| Base64Url.DecodePadded | src/api_ctrader.py:81-83 | decoding padded text of any bytes yields those bytes |
| Base64Url.DecodeInvertsEncode | src/api_ctrader.py:77-83 | stripping and re-adding the padding loses nothing: decoding inverts encoding for every byte string, and encoded text has no separator |
| Base64Url.AlphabetIs | src/api_ctrader.py:77-83 | the characters are the URL-safe alphabet of RFC 4648, section 5 |
| Base64Url.GroupBits | src/api_ctrader.py:77-83 | four sextets hold the bits of three bytes, most significant first |
| Base64Url.SextetOfIff | src/api_ctrader.py:81-83 | the decoder reads exactly the alphabet, with the standard alphabet's plus and slash beside its last two characters |
| Base64Url.DecodableIff | src/api_ctrader.py:81-83 | unpadded text of the alphabet decodes if and only if its length does not leave a remainder of one modulo four, to three bytes for four characters |
| OAuthState.VerifyInvertsSign | src/api_ctrader.py:102-130 | a signed payload verifies to itself if its timestamp is positive and not too old, and is reported expired otherwise |
| OAuthState.AcceptedIff | src/api_ctrader.py:108-130 | a payload is accepted if and only if its timestamp is in range and the state splits at its first separator into a body that loads to it and the digest of that body |
| CouncilRuns.GetRunsBulk | src/api_ai_runs.py:178-244 | the three passes over the query results |
| CouncilRuns.RunSummaryMeaning | src/api_ai_runs.py:26-33 | a run's summary has its columns; a blank recommendation is "allow", and exactly "pending", in any case of letters, marks a placeholder |
| CouncilRuns.ScoreSummaryMeaning | src/api_ai_runs.py:50-68 | the fallback exists if and only if the score, or without one the AI confidence, is a number; its confidence is that number rounded half to even, kept within 0 to 100 |
| CouncilRuns.PassOneMeaning | src/api_ai_runs.py:36-47 | the first pass leaves the first completed direct run, else the first pending one, of each requested signal |
| CouncilRuns.OwnersMeaning | src/api_ai_runs.py:211-223 | a correlation id leads to the last open signal whose trace names it |
| CouncilRuns.PassTwoMeaning | src/api_ai_runs.py:204-243 | the second pass adds the first completed traced run of each open signal and changes nothing else |
| CouncilRuns.PassThreeMeaning | src/api_ai_runs.py:71-95 | the third pass sets the score fallback of each signal still open and changes nothing else |
| CouncilRuns.LookupIsRule | src/api_ai_runs.py:190-246 | for every requested signal: first completed direct run, else first completed traced run, else the score fallback, else the first pending run, else nothing; nothing for other signals |
| CouncilRuns.CompletedKept | src/api_ai_runs.py:36-47 | a completed entry is never overwritten by a later pass |
| BrokerProfiles.Table.CreateProfile | src/api_broker_profiles.py:375-431 | accepts exactly a MetaApi profile with account id and token, a cTrader profile, and an exchange profile with both keys; the new row has an unused id, holds the credentials of its venue only, is active unless cTrader, is not selected; keeps the invariants, and no other row changes |
| BrokerProfiles.Table.UpdateProfile | src/api_broker_profiles.py:455-520 | accepts exactly an update that provides something and no credential foreign to the venue; then every provided column has the new value, every other one the old, and deactivation deselects; keeps the invariants, and no other row changes |
| BrokerProfiles.Table.RemoveProfile | src/api_broker_profiles.py:539-555 | keeps the invariants; afterwards no row has the id, which is used up, and no other row changes |
| BrokerProfiles.Table.ActivateProfile | src/api_broker_profiles.py:564-590 | keeps the invariants; afterwards the profile is selected and active if it was active, and otherwise nothing has changed |
| BrokerProfiles.Table.OpenAccount | src/api_portfolio_control.py:1203-1245 | keeps the invariants; afterwards some row has the given account id, with the token if one was given: the row found, or a new active MetaApi row; all others are as before |
| BrokerProfiles.Table.SaveChallenge | src/api_portfolio_control.py:1460-1499 | keeps the invariants; at most one row is added, under an unused id, active but not selected, and no other row changes |
| BrokerProfiles.Table.StartConnect | src/api_ctrader.py:267-284 | keeps the invariants; every existing profile a connect state was handed out for is a cTrader one, and no row changes |
| BrokerProfiles.Table.ConnectCallback | src/api_ctrader.py:306-325 | keeps the invariants; accepts exactly the states handed out; the refresh token lands in the row of the state, a cTrader one, and nothing else changes |
| BrokerProfiles.Table.TestCtrader | src/api_ctrader.py:395-428 | keeps the invariants; only a connected cTrader row changes, and it keeps a token |
| BrokerProfiles.Table.RotateStored | src/adapters/execution/ctrader_adapter.py:228-236 | keeps the invariants; the rows with the account id, and no others, get the new token, and nothing else in them changes; exchange rows are out of reach |
| BrokerProfiles.RequestKeepsInvariant | src/api_broker_profiles.py:411-520 | every request keeps: selected implies active, supported venues, MetaApi and cTrader rows without exchange keys, exchange rows without token or MetaApi account id, and never changes a venue or reuses an id |
| BrokerProfiles.ReachableStates | src/api_broker_profiles.py:411-590 | these hold after any run of requests that starts where they hold, the empty table included, and over the whole run no venue changes and no deleted id returns |
| BrokerProfiles.ActivationRaceIff | src/api_broker_profiles.py:574-590 | with other requests between its check and its write, an activation breaks the invariants if and only if an accepted update among them deactivates the profile, none after it reactivates it, and none deletes it |
| BrokerProfiles.ActivationRaceExists | src/api_broker_profiles.py:574-590 | a deactivation in between breaks them |
| Common.Round2IsHundredths | src/api_analytics.py:455-465 | a rounded amount is the nearest number of hundredths, the even one on a tie |

## Left out

- Row errors after a trade's first insert statement (`ml/ingest_tv_export.py:700-799`): a fault is modelled before the key check or between it and the insert, so a trade never leaves half a row pair.
- Rows whose signal id comes back falsy, and the feature columns of the inserted rows.
- `parse_tv_csv` (joining entry and exit lines of the exported file): its column guessing is text matching.
- Money.ParseInvertsPrint: float literals with exponents, underscores, "inf" and "nan" and non-ASCII digits are not parsed here, and the result is the exact decimal, not the nearest IEEE float; no printer produces those forms.
- IEEE rounding everywhere: sums, percentages and rounding are exact. Sharpe and Sortino ratios and the score formula of a backtest are left out; scores are given numbers.
- HillClimb.OptimizePairSmart: scores are a table of what was measured; the chart's settings are not modelled, because the branch without improvement only cancels a dialog, so no claim is made that they end at the baseline plus the kept values.
- Driving the browser and the pages, and reading results off them.
- ModeCache.InvariantStep: the lookup, and the store of value and load time, are single steps, where the source has two dictionary accesses each.
- ModeCache.ReadsAfterChangeIff: the wall clock is assumed not to run backwards and to stand at least 30 seconds past the epoch when the mode changes.
- OAuthState.VerifyInvertsSign: the serializer, the keyed digest and the timestamp field are given functions, with loading assumed to invert dumping; payloads that are not dictionaries are not modelled.
- Base64Url decoding of text outside the alphabet follows the lenient decoder (other characters are skipped); non-ASCII text, which raises, is not modelled.
- CouncilRuns.GetRunsBulk: a failing query of the second pass is modelled; a failing first or third query (an error response), the parsing of the id list and the single-signal endpoint are not.
- BrokerProfiles.ReachableStates: requests are atomic, except for the activation race. Database defaults are assumed (a new row is not selected), and rows made outside the endpoints are not covered. The query by account id is taken to return a row that has it, if there is one.
- Connection tests, masking of secrets, inferred account types and the challenge fields of a profile: they write none of the modelled columns.
- TradeHistory.GetTradeHistory: R multiples, prices, sizes, sides and the time-range filter of the queries are not modelled; win rate and profit factor are quotients of modelled totals. A failing broker fetch is an empty deal list. Times are seconds rather than text, so the order and the minute of a time are those of one clock.
- Reconcile.ActivePositions: live PnL, prices and account names of the listed positions.
- BackfillPnl: the significance thresholds and the row updates of the two backfills.
- Positions.SignalTable.PartialClose: the broker's answer to the order is ignored by the source before it writes the row, so it does not appear; price, exit type and close time of the row are not modelled.
- Streaks, Drawdown and DailyPnl: date labels, and the queries that select and order the signals. A `None` PnL counts as zero, as in the source.
- Percentile.Collect: a pair of readable stamps of which only one carries an offset raises in the source and is skipped; here readable stamps are numbers that always compare.
- REST routing, request validation, authentication, notifications and all other endpoints: plumbing, or easy members only.

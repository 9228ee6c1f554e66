/** The queries over the ledger: period filtering, summary statistics, fee
    statistics, the per-pair ranking, the most recent trades and the rows of
    the CSV export. The clock reading `now` is a parameter. */
module Aggregation {
  import opened Base
  import opened PyText
  import opened Trades
  import opened StableSort
  import LedgerStore

  const SecondsPerHour: int := 3600
  const SecondsPerDay: int := 86400

  // ---------------------------------------------------------------------
  // Folds over a sequence of trades

  /** `sum(f(t) for t in ts)` */
  function Sum(ts: seq<Trade>, f: Trade -> real): real {
    if |ts| == 0 then 0.0 else Sum(ts[..|ts| - 1], f) + f(ts[|ts| - 1])
  }

  /** `len([t for t in ts if p(t)])` */
  function Count(ts: seq<Trade>, p: Trade -> bool): (n: nat)
    ensures n <= |ts|
    ensures n == |ts| <==> forall k :: 0 <= k < |ts| ==> p(ts[k])
    ensures n == 0 <==> forall k :: 0 <= k < |ts| ==> !p(ts[k])
  {
    if |ts| == 0 then 0 else Count(ts[..|ts| - 1], p) + (if p(ts[|ts| - 1]) then 1 else 0)
  }

  predicate Succeeded(t: Trade) { t.success }
  predicate Failed(t: Trade) { !t.success }
  function Fees(t: Trade): real { t.txFee + t.jitoTip }
  function JitoTip(t: Trade): real { t.jitoTip }
  function TxFee(t: Trade): real { t.txFee }

  /** Every trade either succeeded or failed. */
  lemma {:induction false} SuccessesAndFailuresPartition(ts: seq<Trade>)
    ensures Count(ts, Succeeded) + Count(ts, Failed) == |ts|
  {
    if |ts| > 0 {
      SuccessesAndFailuresPartition(ts[..|ts| - 1]);
    }
  }

  /** The fee total is the tip total plus the base-fee total. */
  lemma {:induction false} FeesSplit(ts: seq<Trade>)
    ensures Sum(ts, Fees) == Sum(ts, JitoTip) + Sum(ts, TxFee)
  {
    if |ts| > 0 {
      FeesSplit(ts[..|ts| - 1]);
    }
  }

  /** A sum of terms between `lo` and `hi` lies between `n * lo` and `n * hi`. */
  lemma {:induction false} SumBetween(ts: seq<Trade>, f: Trade -> real, lo: real, hi: real)
    requires forall k :: 0 <= k < |ts| ==> lo <= f(ts[k]) <= hi
    ensures lo * |ts| as real <= Sum(ts, f) <= hi * |ts| as real
  {
    if |ts| > 0 {
      var init := ts[..|ts| - 1];
      assert forall k :: 0 <= k < |init| ==> init[k] == ts[k];
      SumBetween(init, f, lo, hi);
      assert lo * |ts| as real == lo * |init| as real + lo;
      assert hi * |ts| as real == hi * |init| as real + hi;
    }
  }

  /** `max(NetProfit(t) for t in ts)` */
  function BestNet(ts: seq<Trade>): (b: real)
    requires |ts| > 0
    ensures forall k :: 0 <= k < |ts| ==> NetProfit(ts[k]) <= b
    ensures exists k :: 0 <= k < |ts| && NetProfit(ts[k]) == b
  {
    if |ts| == 1 then NetProfit(ts[0])
    else
      var init := ts[..|ts| - 1];
      var m := BestNet(init);
      assert forall k :: 0 <= k < |init| ==> init[k] == ts[k];
      var last := NetProfit(ts[|ts| - 1]);
      if last > m then last else m
  }

  /** `min(NetProfit(t) for t in ts)` */
  function WorstNet(ts: seq<Trade>): (w: real)
    requires |ts| > 0
    ensures forall k :: 0 <= k < |ts| ==> w <= NetProfit(ts[k])
    ensures exists k :: 0 <= k < |ts| && NetProfit(ts[k]) == w
  {
    if |ts| == 1 then NetProfit(ts[0])
    else
      var init := ts[..|ts| - 1];
      var m := WorstNet(init);
      assert forall k :: 0 <= k < |init| ==> init[k] == ts[k];
      var last := NetProfit(ts[|ts| - 1]);
      if last < m then last else m
  }

  // ---------------------------------------------------------------------
  // Periods

  /** The length of the unit a period ends in: an hour for `h`, a day for
      `d`; `None` for any other ending, and for the empty string. */
  function UnitSeconds(period: string): (u: Option<int>)
    ensures u.Some? <==> |period| > 0 && (period[|period| - 1] == 'h' || period[|period| - 1] == 'd')
    ensures u.Some? ==> u.value > 0
  {
    if |period| == 0 then None
    else if period[|period| - 1] == 'h' then Some(SecondsPerHour)
    else if period[|period| - 1] == 'd' then Some(SecondsPerDay)
    else None
  }

  /** The largest day count a `timedelta` holds. */
  const MaxDeltaDays: int := 999999999

  /** `timedelta(seconds=span)` exists: it normalises to whole days (rounded
      down) plus a remainder, and the days must not exceed `MaxDeltaDays`
      in magnitude. */
  predicate TimedeltaFits(span: int) {
    -MaxDeltaDays <= span / SecondsPerDay <= MaxDeltaDays
  }

  /** `now - timedelta(seconds=span)` neither overflows the `timedelta` nor
      leaves the calendar `datetime` covers. */
  predicate CutoffRepresentable(span: int, now: int) {
    TimedeltaFits(span) && InDatetimeRange(now - span)
  }

  /** The earliest timestamp a period admits: `None` when it filters nothing
      (no period, or one with another ending); `Raised` with `InvalidPeriod`
      when the count in front of the unit is not an integer, and with
      `PeriodOverflow` when the span or the cutoff is out of range. */
  function PeriodCutoff(period: Option<string>, now: int): (r: Result<Option<int>>)
    ensures period.None? ==> r == Ok(None)
    ensures period.Some? && UnitSeconds(period.value).None? ==> r == Ok(None)
    ensures r.Raised? <==>
      && period.Some? && UnitSeconds(period.value).Some?
      && (ParseInt(period.value[..|period.value| - 1]).None? ||
          !CutoffRepresentable(ParseInt(period.value[..|period.value| - 1]).value * UnitSeconds(period.value).value, now))
    ensures r.Raised? ==>
      r.error == if ParseInt(period.value[..|period.value| - 1]).None? then InvalidPeriod(period.value)
                 else PeriodOverflow(period.value)
    ensures r.Ok? && r.value.Some? ==>
      && r.value.value == now - ParseInt(period.value[..|period.value| - 1]).value * UnitSeconds(period.value).value
      && InDatetimeRange(r.value.value)
  {
    match period
    case None => Ok(None)
    case Some(p) =>
      match UnitSeconds(p)
      case None => Ok(None)
      case Some(u) =>
        match ParseInt(p[..|p| - 1])
        case None => Raised(InvalidPeriod(p))
        case Some(n) =>
          if CutoffRepresentable(n * u, now) then Ok(Some(now - n * u)) else Raised(PeriodOverflow(p))
  }

  /** The seconds in the unit a period letter names. */
  function UnitOf(unit: char): int {
    if unit == 'h' then SecondsPerHour else SecondsPerDay
  }

  /** A period written as a count and a unit admits exactly the last `count`
      hours or days, unless that span reaches outside what `timedelta` and
      `datetime` can hold, where it raises `OverflowError`. */
  lemma WrittenPeriod(count: int, unit: char, now: int)
    requires unit == 'h' || unit == 'd'
    ensures var span := count * UnitOf(unit);
      PeriodCutoff(Some(IntToString(count) + [unit]), now)
        == if CutoffRepresentable(span, now) then Ok(Some(now - span))
           else Raised(PeriodOverflow(IntToString(count) + [unit]))
  {
    var u := UnitOf(unit);
    var p := IntToString(count) + [unit];
    assert UnitSeconds(p) == Some(u) && p[..|p| - 1] == IntToString(count) by {
      UnitAfterCount(IntToString(count), unit);
    }
    assert ParseInt(p[..|p| - 1]) == Some(count) by {
      ParseIntOfIntToString(count);
    }
    CutoffOfCount(p, now, count, u);
  }

  /** A count of days or hours that reaches back past 0001-01-01 raises,
      however the clock reads: the cutoff would precede the calendar. */
  lemma BeforeCalendarRaises(count: int, unit: char, now: int)
    requires unit == 'h' || unit == 'd'
    requires count * UnitOf(unit) > now
    ensures PeriodCutoff(Some(IntToString(count) + [unit]), now) == Raised(PeriodOverflow(IntToString(count) + [unit]))
  {
    WrittenPeriod(count, unit, now);
  }

  /** A count followed by a unit letter: the unit is that letter's, and
      dropping the last character gives the count back. */
  lemma UnitAfterCount(s: string, unit: char)
    requires unit == 'h' || unit == 'd'
    ensures UnitSeconds(s + [unit]) == Some(UnitOf(unit))
    ensures (s + [unit])[..|s + [unit]| - 1] == s
  {
  }

  lemma CutoffOfCount(p: string, now: int, n: int, u: int)
    requires UnitSeconds(p) == Some(u) && ParseInt(p[..|p| - 1]) == Some(n)
    ensures PeriodCutoff(Some(p), now)
      == if CutoffRepresentable(n * u, now) then Ok(Some(now - n * u)) else Raised(PeriodOverflow(p))
  {
  }

  /** `[t for t in ts if t.timestamp >= cutoff]` */
  function Since(ts: seq<Trade>, cutoff: int): (r: seq<Trade>)
    ensures |r| <= |ts|
    ensures forall k :: 0 <= k < |r| ==> r[k].timestamp >= cutoff
    ensures forall t :: multiset(r)[t] == if t.timestamp >= cutoff then multiset(ts)[t] else 0
  {
    if |ts| == 0 then []
    else
      var init := ts[..|ts| - 1];
      var last := ts[|ts| - 1];
      assert ts == init + [last];
      if last.timestamp >= cutoff then Since(init, cutoff) + [last] else Since(init, cutoff)
  }

  /** Filtering keeps relative order: it distributes over concatenation. */
  lemma {:induction false} SinceConcat(a: seq<Trade>, b: seq<Trade>, cutoff: int)
    ensures Since(a + b, cutoff) == Since(a, cutoff) + Since(b, cutoff)
  {
    if |b| > 0 {
      var b' := b[..|b| - 1];
      SinceConcat(a, b', cutoff);
      assert (a + b)[..|a + b| - 1] == a + b';
    } else {
      assert a + b == a;
    }
  }

  /** `_filter_by_period`: the whole ledger, or the trades inside the period in
      ledger order. */
  function FilterByPeriod(ledger: seq<Trade>, period: Option<string>, now: int): (r: Result<seq<Trade>>)
    ensures r.Raised? <==> PeriodCutoff(period, now).Raised?
    ensures PeriodCutoff(period, now) == Ok(None) ==> r == Ok(ledger)
    ensures PeriodCutoff(period, now).Ok? && PeriodCutoff(period, now).value.Some? ==>
      var c := PeriodCutoff(period, now).value.value;
      && r == Ok(Since(ledger, c))
      && (forall t :: multiset(r.value)[t] == if t.timestamp >= c then multiset(ledger)[t] else 0)
  {
    match PeriodCutoff(period, now)
    case Raised(e) => Raised(e)
    case Ok(None) => Ok(ledger)
    case Ok(Some(c)) => Ok(Since(ledger, c))
  }

  // ---------------------------------------------------------------------
  // get_stats

  datatype Stats = Stats(
    totalTrades: nat,
    successfulTrades: nat,
    failedTrades: nat,
    successRate: real,
    grossProfit: real,
    totalFees: real,
    netProfit: real,
    avgProfitPerTrade: real,
    bestTrade: real,
    worstTrade: real)

  const NoStats := Stats(0, 0, 0, 0.0, 0.0, 0.0, 0.0, 0.0, 0.0, 0.0)

  /** `total / n` */
  function Average(total: real, n: nat): (a: real)
    requires n > 0
    ensures a * n as real == total
  {
    total / n as real
  }

  /** `(part / whole) * 100` */
  function Percent(part: nat, whole: nat): (p: real)
    requires whole > 0
    ensures p * whole as real == 100.0 * part as real
    ensures part <= whole ==> 0.0 <= p <= 100.0
  {
    assert part <= whole ==> part as real / whole as real <= 1.0;
    (part as real / whole as real) * 100.0
  }

  /** An average of terms between `lo` and `hi` lies between them. */
  lemma AverageBetween(total: real, n: nat, lo: real, hi: real)
    requires n > 0 && lo * n as real <= total <= hi * n as real
    ensures lo <= Average(total, n) <= hi
  {
  }

  /** The average of terms between `lo` and `hi` lies between them. */
  lemma AverageOfSumBetween(ts: seq<Trade>, f: Trade -> real, lo: real, hi: real)
    requires |ts| > 0
    requires forall k :: 0 <= k < |ts| ==> lo <= f(ts[k]) <= hi
    ensures lo <= Average(Sum(ts, f), |ts|) <= hi
  {
    SumBetween(ts, f, lo, hi);
    AverageBetween(Sum(ts, f), |ts|, lo, hi);
  }

  /** The statistics of a non-empty selection. */
  function SummarizeSome(ts: seq<Trade>): (r: Stats)
    requires |ts| > 0
    ensures r.totalTrades == |ts|
    ensures r.successfulTrades == Count(ts, Succeeded) && r.failedTrades == Count(ts, Failed)
    ensures r.successfulTrades + r.failedTrades == r.totalTrades
    ensures r.grossProfit == Sum(ts, GrossProfit)
    ensures r.totalFees == Sum(ts, Fees)
    ensures r.netProfit == Sum(ts, NetProfit)
    ensures 0.0 <= r.successRate <= 100.0
    ensures r.successRate == Percent(r.successfulTrades, |ts|)
    ensures r.avgProfitPerTrade == Average(r.netProfit, |ts|)
    ensures r.worstTrade <= r.avgProfitPerTrade <= r.bestTrade
    ensures forall k :: 0 <= k < |ts| ==> r.worstTrade <= NetProfit(ts[k]) <= r.bestTrade
    ensures exists k :: 0 <= k < |ts| && NetProfit(ts[k]) == r.bestTrade
    ensures exists k :: 0 <= k < |ts| && NetProfit(ts[k]) == r.worstTrade
  {
    var successful := Count(ts, Succeeded);
    var net := Sum(ts, NetProfit);
    var worst, best := WorstNet(ts), BestNet(ts);
    assert successful + Count(ts, Failed) == |ts| by { SuccessesAndFailuresPartition(ts); }
    assert worst <= Average(net, |ts|) <= best by { AverageOfSumBetween(ts, NetProfit, worst, best); }
    Stats(|ts|, successful, Count(ts, Failed), Percent(successful, |ts|), Sum(ts, GrossProfit), Sum(ts, Fees),
          net, Average(net, |ts|), best, worst)
  }

  /** The statistics of `get_stats` over already filtered trades: all zero
      for no trades. */
  function Summarize(ts: seq<Trade>): (r: Stats)
    ensures |ts| == 0 ==> r == NoStats
    ensures |ts| > 0 ==> r == SummarizeSome(ts)
    ensures r.totalTrades == |ts|
  {
    if |ts| == 0 then NoStats else SummarizeSome(ts)
  }

  /** `get_stats(period)`: the statistics of the trades inside the period. */
  function GetStats(ledger: seq<Trade>, period: Option<string>, now: int): (r: Result<Stats>)
    ensures r.Raised? <==> PeriodCutoff(period, now).Raised?
    ensures FilterByPeriod(ledger, period, now) == Ok([]) ==> r == Ok(NoStats)
    ensures r.Ok? ==> var ts := FilterByPeriod(ledger, period, now).value;
      && r.value.totalTrades == |ts|
      && r.value.successfulTrades == Count(ts, Succeeded)
      && r.value.failedTrades == Count(ts, Failed)
      && r.value.grossProfit == Sum(ts, GrossProfit)
      && r.value.totalFees == Sum(ts, Fees)
      && r.value.netProfit == Sum(ts, NetProfit)
    ensures r.Ok? && |FilterByPeriod(ledger, period, now).value| > 0 ==>
      r.value == SummarizeSome(FilterByPeriod(ledger, period, now).value)
  {
    match FilterByPeriod(ledger, period, now)
    case Raised(e) => Raised(e)
    case Ok(ts) => Ok(Summarize(ts))
  }

  // ---------------------------------------------------------------------
  // get_fee_stats

  datatype FeeStats = FeeStats(
    totalFees: real,
    totalJitoTips: real,
    totalTxFees: real,
    avgFeesPerTrade: real,
    avgJitoTip: real,
    avgTxFee: real,
    totalTrades: nat)

  const NoFeeStats := FeeStats(0.0, 0.0, 0.0, 0.0, 0.0, 0.0, 0)

  /** The average of a sum is the sum of the averages. */
  lemma AverageOfSum(a: real, b: real, n: nat)
    requires n > 0
    ensures Average(a + b, n) == Average(a, n) + Average(b, n)
  {
  }

  /** The fee breakdown of `get_fee_stats` over already filtered trades. */
  function SummarizeFees(ts: seq<Trade>): (r: FeeStats)
    ensures |ts| == 0 ==> r == NoFeeStats
    ensures r.totalTrades == |ts|
    ensures r.totalFees == Sum(ts, Fees)
    ensures r.totalJitoTips == Sum(ts, JitoTip) && r.totalTxFees == Sum(ts, TxFee)
    ensures r.totalFees == r.totalJitoTips + r.totalTxFees
    ensures r.avgFeesPerTrade == r.avgJitoTip + r.avgTxFee
    ensures |ts| > 0 ==> r.avgFeesPerTrade == Average(r.totalFees, |ts|)
    ensures |ts| > 0 ==> r.avgJitoTip * |ts| as real == r.totalJitoTips
    ensures |ts| > 0 ==> r.avgTxFee * |ts| as real == r.totalTxFees
    ensures r.totalFees == Summarize(ts).totalFees
  {
    if |ts| == 0 then NoFeeStats
    else
      var fees := Sum(ts, Fees);
      var tips := Sum(ts, JitoTip);
      var tx := Sum(ts, TxFee);
      FeesSplit(ts);
      AverageOfSum(tips, tx, |ts|);
      FeeStats(fees, tips, tx, Average(fees, |ts|), Average(tips, |ts|), Average(tx, |ts|), |ts|)
  }

  /** `get_fee_stats(period)`. */
  function GetFeeStats(ledger: seq<Trade>, period: Option<string>, now: int): (r: Result<FeeStats>)
    ensures r.Raised? <==> PeriodCutoff(period, now).Raised?
    ensures FilterByPeriod(ledger, period, now) == Ok([]) ==> r == Ok(NoFeeStats)
    ensures r.Ok? ==> var ts := FilterByPeriod(ledger, period, now).value;
      && r.value.totalTrades == |ts|
      && r.value.totalFees == Sum(ts, Fees)
      && r.value.totalJitoTips == Sum(ts, JitoTip)
      && r.value.totalTxFees == Sum(ts, TxFee)
      && (|ts| > 0 ==> r.value.avgFeesPerTrade == Average(Sum(ts, Fees), |ts|))
      && (|ts| > 0 ==> r.value.avgJitoTip == Average(Sum(ts, JitoTip), |ts|))
      && (|ts| > 0 ==> r.value.avgTxFee == Average(Sum(ts, TxFee), |ts|))
    ensures r.Ok? ==> r.value == SummarizeFees(FilterByPeriod(ledger, period, now).value)
  {
    match FilterByPeriod(ledger, period, now)
    case Raised(e) => Raised(e)
    case Ok(ts) => Ok(SummarizeFees(ts))
  }

  /** The two summaries of one period agree on the trade count and fee total. */
  lemma StatsAgreeWithFeeStats(ledger: seq<Trade>, period: Option<string>, now: int)
    ensures GetStats(ledger, period, now).Ok? <==> GetFeeStats(ledger, period, now).Ok?
    ensures GetStats(ledger, period, now).Ok? ==>
      && GetStats(ledger, period, now).value.totalFees == GetFeeStats(ledger, period, now).value.totalFees
      && GetStats(ledger, period, now).value.totalTrades == GetFeeStats(ledger, period, now).value.totalTrades
  {
  }

  // ---------------------------------------------------------------------
  // get_top_pairs

  /** The running totals `get_top_pairs` keeps per pair. */
  datatype PairGroup = PairGroup(pair: string, count: nat, totalProfit: real, successCount: nat)

  /** One entry of the ranking. */
  datatype PairSummary = PairSummary(pair: string, count: nat, totalProfit: real, avgProfit: real, successRate: real)

  /** `[t for t in ts if t.pair == p]` */
  function OfPair(ts: seq<Trade>, p: string): (r: seq<Trade>)
    ensures |r| <= |ts|
    ensures forall k :: 0 <= k < |r| ==> r[k].pair == p
    ensures (forall k :: 0 <= k < |ts| ==> ts[k].pair != p) ==> r == []
  {
    if |ts| == 0 then []
    else
      var rest := OfPair(ts[..|ts| - 1], p);
      if ts[|ts| - 1].pair == p then rest + [ts[|ts| - 1]] else rest
  }

  /** The index of the first element whose key is `p`, or `|xs|` when there is none. */
  function IndexOfKey<T>(xs: seq<T>, key: T -> string, p: string): (i: nat)
    ensures i <= |xs|
    ensures forall k :: 0 <= k < i ==> key(xs[k]) != p
    ensures i < |xs| ==> key(xs[i]) == p
  {
    if |xs| == 0 || key(xs[0]) == p then 0 else 1 + IndexOfKey(xs[1..], key, p)
  }

  /** The index of the first trade with pair `p`, or `|ts|` when there is none. */
  function FirstIndex(ts: seq<Trade>, p: string): (i: nat)
    ensures i <= |ts|
    ensures forall k :: 0 <= k < i ==> ts[k].pair != p
    ensures i < |ts| ==> ts[i].pair == p
  {
    IndexOfKey(ts, (t: Trade) => t.pair, p)
  }

  /** The position of the group for `p`, or `|gs|` when there is none. */
  function GroupIndex(gs: seq<PairGroup>, p: string): (i: nat)
    ensures i <= |gs|
    ensures forall k :: 0 <= k < i ==> gs[k].pair != p
    ensures i < |gs| ==> gs[i].pair == p
  {
    IndexOfKey(gs, (g: PairGroup) => g.pair, p)
  }

  /** One iteration of the grouping loop: a pair seen before updates its
      group in place; a new pair opens a group at the end (dictionaries keep
      insertion order). */
  function AddToGroups(gs: seq<PairGroup>, t: Trade): seq<PairGroup> {
    var i := GroupIndex(gs, t.pair);
    var won := if t.success then 1 else 0;
    if i == |gs| then gs + [PairGroup(t.pair, 1, NetProfit(t), won)]
    else gs[i := PairGroup(t.pair, gs[i].count + 1, gs[i].totalProfit + NetProfit(t), gs[i].successCount + won)]
  }

  function GroupByPair(ts: seq<Trade>): seq<PairGroup> {
    if |ts| == 0 then [] else AddToGroups(GroupByPair(ts[..|ts| - 1]), ts[|ts| - 1])
  }

  /** What a group holds: the number, net total and successes of the trades
      with its pair. */
  predicate GroupIsExact(g: PairGroup, ts: seq<Trade>) {
    && g.count == |OfPair(ts, g.pair)| && g.count >= 1
    && g.totalProfit == Sum(OfPair(ts, g.pair), NetProfit)
    && g.successCount == Count(OfPair(ts, g.pair), Succeeded)
  }

  predicate GroupsExact(gs: seq<PairGroup>, ts: seq<Trade>) {
    forall i :: 0 <= i < |gs| ==> GroupIsExact(gs[i], ts)
  }

  /** Each group's pair occurs among the trades, and the groups are in the
      order their pairs were first met. */
  predicate GroupsInFirstSeenOrder(gs: seq<PairGroup>, ts: seq<Trade>) {
    && (forall i :: 0 <= i < |gs| ==> FirstIndex(ts, gs[i].pair) < |ts|)
    && (forall i, j :: 0 <= i < j < |gs| ==> FirstIndex(ts, gs[i].pair) < FirstIndex(ts, gs[j].pair))
  }

  /** Every trade's pair has a group. */
  predicate GroupsCover(gs: seq<PairGroup>, ts: seq<Trade>) {
    forall k :: 0 <= k < |ts| ==> GroupIndex(gs, ts[k].pair) < |gs|
  }

  /** The groups are exact, one per pair, in first-encounter order, and
      every trade's pair has one. */
  predicate GroupsCorrect(gs: seq<PairGroup>, ts: seq<Trade>) {
    GroupsExact(gs, ts) && GroupsInFirstSeenOrder(gs, ts) && GroupsCover(gs, ts)
  }

  lemma OfPairSnoc(ts: seq<Trade>, t: Trade, p: string)
    ensures OfPair(ts + [t], p) == if t.pair == p then OfPair(ts, p) + [t] else OfPair(ts, p)
  {
    assert (ts + [t])[..|ts|] == ts;
  }

  lemma SumSnoc(ts: seq<Trade>, t: Trade, f: Trade -> real)
    ensures Sum(ts + [t], f) == Sum(ts, f) + f(t)
  {
    assert (ts + [t])[..|ts|] == ts;
  }

  lemma CountSnoc(ts: seq<Trade>, t: Trade, p: Trade -> bool)
    ensures Count(ts + [t], p) == Count(ts, p) + if p(t) then 1 else 0
  {
    assert (ts + [t])[..|ts|] == ts;
  }

  /** Appending a trade leaves the first occurrence of a pair already present
      where it was, and puts a new pair's first occurrence at the end. */
  lemma FirstIndexSnoc(ts: seq<Trade>, t: Trade, p: string)
    ensures FirstIndex(ts, p) < |ts| ==> FirstIndex(ts + [t], p) == FirstIndex(ts, p)
    ensures FirstIndex(ts, p) == |ts| && t.pair == p ==> FirstIndex(ts + [t], p) == |ts|
    ensures FirstIndex(ts, p) == |ts| && t.pair != p ==> FirstIndex(ts + [t], p) == |ts| + 1
  {
    var s := ts + [t];
    var i := FirstIndex(ts, p);
    assert forall k :: 0 <= k < |ts| ==> s[k] == ts[k];
    var j := FirstIndex(s, p);
    if i < |ts| {
      assert j <= i;
      assert j >= i;
    } else {
      assert s[|ts|] == t;
    }
  }

  /** Groups in first-encounter order name each pair once. */
  lemma GroupPairsDistinct(gs: seq<PairGroup>, ts: seq<Trade>)
    requires GroupsInFirstSeenOrder(gs, ts)
    ensures forall a, b :: 0 <= a < b < |gs| ==> gs[a].pair != gs[b].pair
  {
  }

  /** A pair without a group does not occur among the trades. */
  lemma NewPairUnseen(gs: seq<PairGroup>, ts: seq<Trade>, p: string)
    requires GroupsCover(gs, ts)
    requires GroupIndex(gs, p) == |gs|
    ensures FirstIndex(ts, p) == |ts|
    ensures OfPair(ts, p) == []
  {
    forall k | 0 <= k < |ts| ensures ts[k].pair != p {
      assert GroupIndex(gs, ts[k].pair) < |gs|;
    }
  }

  /** The group of the added trade's pair, extended by that trade, is exact. */
  lemma ExtendedGroupExact(g: PairGroup, ts: seq<Trade>, t: Trade)
    requires GroupIsExact(g, ts) && g.pair == t.pair
    ensures GroupIsExact(PairGroup(t.pair, g.count + 1, g.totalProfit + NetProfit(t),
                                   g.successCount + if t.success then 1 else 0), ts + [t])
  {
    OfPairSnoc(ts, t, t.pair);
    SumSnoc(OfPair(ts, t.pair), t, NetProfit);
    CountSnoc(OfPair(ts, t.pair), t, Succeeded);
  }

  /** A group opened for a pair not seen before is exact. */
  lemma FreshGroupExact(ts: seq<Trade>, t: Trade)
    requires OfPair(ts, t.pair) == []
    ensures GroupIsExact(PairGroup(t.pair, 1, NetProfit(t), if t.success then 1 else 0), ts + [t])
  {
    OfPairSnoc(ts, t, t.pair);
    SumSnoc([], t, NetProfit);
    CountSnoc([], t, Succeeded);
  }

  /** A group of another pair is not affected by the added trade. */
  lemma UntouchedGroupExact(g: PairGroup, ts: seq<Trade>, t: Trade)
    requires GroupIsExact(g, ts) && g.pair != t.pair
    ensures GroupIsExact(g, ts + [t])
  {
    OfPairSnoc(ts, t, g.pair);
  }

  lemma AddKeepsExact(gs: seq<PairGroup>, ts: seq<Trade>, t: Trade)
    requires GroupsExact(gs, ts)
    requires forall a, b :: 0 <= a < b < |gs| ==> gs[a].pair != gs[b].pair
    requires GroupIndex(gs, t.pair) == |gs| ==> OfPair(ts, t.pair) == []
    ensures GroupsExact(AddToGroups(gs, t), ts + [t])
  {
    var gs' := AddToGroups(gs, t);
    var i := GroupIndex(gs, t.pair);
    forall j | 0 <= j < |gs'| ensures GroupIsExact(gs'[j], ts + [t]) {
      if j == i && i < |gs| {
        ExtendedGroupExact(gs[i], ts, t);
      } else if j == i {
        FreshGroupExact(ts, t);
      } else {
        assert gs'[j] == gs[j] && gs[j].pair != t.pair;
        UntouchedGroupExact(gs[j], ts, t);
      }
    }
  }

  /** Adding a trade keeps the existing groups' pairs in place and opens a
      group at the end exactly when the trade's pair had none. */
  lemma AddKeepsPairs(gs: seq<PairGroup>, t: Trade)
    ensures GroupIndex(gs, t.pair) < |gs| ==> |AddToGroups(gs, t)| == |gs|
    ensures GroupIndex(gs, t.pair) == |gs| ==> |AddToGroups(gs, t)| == |gs| + 1 && AddToGroups(gs, t)[|gs|].pair == t.pair
    ensures forall j :: 0 <= j < |gs| ==> AddToGroups(gs, t)[j].pair == gs[j].pair
  {
  }

  lemma AddKeepsFirstSeen(gs: seq<PairGroup>, ts: seq<Trade>, t: Trade)
    requires GroupsInFirstSeenOrder(gs, ts)
    requires GroupIndex(gs, t.pair) == |gs| ==> FirstIndex(ts, t.pair) == |ts|
    ensures GroupsInFirstSeenOrder(AddToGroups(gs, t), ts + [t])
  {
    var ts', gs' := ts + [t], AddToGroups(gs, t);
    AddKeepsPairs(gs, t);
    var first := seq(|gs'|, j requires 0 <= j < |gs'| => FirstIndex(ts', gs'[j].pair));
    forall j | 0 <= j < |gs| ensures first[j] == FirstIndex(ts, gs[j].pair) {
      FirstIndexSnoc(ts, t, gs[j].pair);
    }
    if GroupIndex(gs, t.pair) == |gs| {
      FirstIndexSnoc(ts, t, t.pair);
      assert first[|gs|] == |ts|;
    }
    assert forall a, b :: 0 <= a < b < |gs'| ==> first[a] < first[b];
  }

  lemma AddKeepsCover(gs: seq<PairGroup>, ts: seq<Trade>, t: Trade)
    requires GroupsCover(gs, ts)
    ensures GroupsCover(AddToGroups(gs, t), ts + [t])
  {
    var ts' := ts + [t];
    forall k | 0 <= k < |ts'| ensures GroupIndex(AddToGroups(gs, t), ts'[k].pair) < |AddToGroups(gs, t)| {
      if k < |ts| {
        assert ts'[k] == ts[k];
        assert GroupIndex(gs, ts[k].pair) < |gs|;
        GroupIndexStable(gs, t, ts[k].pair);
      } else {
        GroupIndexStable(gs, t, t.pair);
      }
    }
  }

  /** One step of the grouping loop keeps the groups correct. */
  lemma AddToGroupsCorrect(gs: seq<PairGroup>, ts: seq<Trade>, t: Trade)
    requires GroupsCorrect(gs, ts)
    ensures GroupsCorrect(AddToGroups(gs, t), ts + [t])
  {
    GroupPairsDistinct(gs, ts);
    if GroupIndex(gs, t.pair) == |gs| {
      NewPairUnseen(gs, ts, t.pair);
    }
    AddKeepsExact(gs, ts, t);
    AddKeepsFirstSeen(gs, ts, t);
    AddKeepsCover(gs, ts, t);
  }

  /** The grouping loop yields exactly one correct group per pair, in the
      order the pairs were first met. */
  lemma {:induction false} GroupByPairCorrect(ts: seq<Trade>)
    ensures GroupsCorrect(GroupByPair(ts), ts)
  {
    if |ts| > 0 {
      var init := ts[..|ts| - 1];
      assert ts == init + [ts[|ts| - 1]];
      GroupByPairCorrect(init);
      AddToGroupsCorrect(GroupByPair(init), init, ts[|ts| - 1]);
    }
  }

  /** After adding a trade, every pair that had a group still has one, and so does the trade's. */
  lemma GroupIndexStable(gs: seq<PairGroup>, t: Trade, p: string)
    requires GroupIndex(gs, p) < |gs| || p == t.pair
    ensures GroupIndex(AddToGroups(gs, t), p) < |AddToGroups(gs, t)|
  {
    var gs' := AddToGroups(gs, t);
    var i := GroupIndex(gs, t.pair);
    var j := if p == t.pair then (if i < |gs| then i else |gs|) else GroupIndex(gs, p);
    assert gs'[j].pair == p;
  }

  /** The ranking entry of a group. */
  function Summary(g: PairGroup): PairSummary
    requires g.count >= 1
  {
    PairSummary(g.pair, g.count, g.totalProfit, Average(g.totalProfit, g.count), Percent(g.successCount, g.count))
  }

  function TotalProfitOf(s: PairSummary): real { s.totalProfit }

  /** The entries in group order; groups of the real loop never have count 0,
      so the guard below never fires. */
  function Summaries(gs: seq<PairGroup>): (r: seq<PairSummary>)
    ensures |r| == |gs|
    ensures forall i :: 0 <= i < |gs| && gs[i].count >= 1 ==> r[i] == Summary(gs[i])
    ensures forall i :: 0 <= i < |gs| ==> r[i].pair == gs[i].pair
  {
    if |gs| == 0 then []
    else
      var g := gs[|gs| - 1];
      var s := if g.count >= 1 then Summary(g) else PairSummary(g.pair, 0, g.totalProfit, 0.0, 0.0);
      Summaries(gs[..|gs| - 1]) + [s]
  }

  /** What an entry of the ranking states about the trades it summarises. */
  predicate EntryIsExact(e: PairSummary, ts: seq<Trade>) {
    && e.count == |OfPair(ts, e.pair)| && e.count >= 1
    && e.totalProfit == Sum(OfPair(ts, e.pair), NetProfit)
    && e.avgProfit == Average(e.totalProfit, e.count)
    && e.successRate == Percent(Count(OfPair(ts, e.pair), Succeeded), e.count)
    && 0.0 <= e.successRate <= 100.0
    && FirstIndex(ts, e.pair) < |ts|
  }

  function FirstSeen(ts: seq<Trade>): PairSummary -> int {
    (e: PairSummary) => FirstIndex(ts, e.pair)
  }

  /** The ranking of already filtered trades: one entry per pair, sorted by
      total net profit, highest first, cut to `limit`. */
  function RankPairs(ts: seq<Trade>, limit: int): seq<PairSummary> {
    Take(SortDesc(Summaries(GroupByPair(ts)), TotalProfitOf), limit)
  }

  /** Before sorting, every entry is exact. */
  lemma EntriesExact(ts: seq<Trade>)
    ensures forall i :: 0 <= i < |Summaries(GroupByPair(ts))| ==> EntryIsExact(Summaries(GroupByPair(ts))[i], ts)
  {
    var gs := GroupByPair(ts);
    GroupByPairCorrect(ts);
    var entries := Summaries(gs);
    forall i | 0 <= i < |entries| ensures EntryIsExact(entries[i], ts) {
      EntryOfExactGroup(gs[i], ts);
    }
  }

  lemma EntryOfExactGroup(g: PairGroup, ts: seq<Trade>)
    requires GroupIsExact(g, ts) && FirstIndex(ts, g.pair) < |ts|
    ensures EntryIsExact(Summary(g), ts)
  {
    assert g.successCount <= g.count;
  }

  /** Before sorting, the entries are in the order their pairs were first met. */
  lemma EntriesInFirstSeenOrder(ts: seq<Trade>)
    ensures RankIncreasing(Summaries(GroupByPair(ts)), FirstSeen(ts))
  {
    var gs := GroupByPair(ts);
    GroupByPairCorrect(ts);
    var entries := Summaries(gs);
    forall a, b | 0 <= a < b < |entries| ensures FirstSeen(ts)(entries[a]) < FirstSeen(ts)(entries[b]) {
      assert entries[a].pair == gs[a].pair && entries[b].pair == gs[b].pair;
    }
  }

  /** Sorting only reorders the entries, so every sorted entry is exact. */
  lemma SortedEntriesExact(ts: seq<Trade>)
    ensures forall x :: x in SortDesc(Summaries(GroupByPair(ts)), TotalProfitOf) ==> EntryIsExact(x, ts)
  {
    var entries := Summaries(GroupByPair(ts));
    EntriesExact(ts);
    forall x | x in SortDesc(entries, TotalProfitOf) ensures EntryIsExact(x, ts) {
      assert x in multiset(entries);
    }
  }

  /** Every pair of the trades has an entry before sorting. */
  lemma EntriesCoverPairs(ts: seq<Trade>)
    ensures forall k :: 0 <= k < |ts| ==>
      var g := GroupIndex(GroupByPair(ts), ts[k].pair);
      g < |Summaries(GroupByPair(ts))| && Summaries(GroupByPair(ts))[g].pair == ts[k].pair
  {
    GroupByPairCorrect(ts);
  }

  /** A position at which an element of a sequence occurs. */
  lemma PositionOf<T>(s: seq<T>, x: T) returns (i: nat)
    requires x in multiset(s)
    ensures i < |s| && s[i] == x
  {
    i :| 0 <= i < |s| && s[i] == x;
  }

  /** With a limit of at least the number of trades, every pair of the trades is listed. */
  lemma RankingCoversPairs(ts: seq<Trade>, limit: int)
    requires limit >= |ts|
    ensures forall k :: 0 <= k < |ts| ==>
      exists i :: 0 <= i < |RankPairs(ts, limit)| && RankPairs(ts, limit)[i].pair == ts[k].pair
  {
    var gs := GroupByPair(ts);
    var entries := Summaries(gs);
    var sorted := SortDesc(entries, TotalProfitOf);
    GroupsAtMostTrades(ts);
    assert RankPairs(ts, limit) == sorted;
    EntriesCoverPairs(ts);
    forall k | 0 <= k < |ts| ensures exists i :: 0 <= i < |sorted| && sorted[i].pair == ts[k].pair {
      var g := GroupIndex(gs, ts[k].pair);
      var i := PositionOf(sorted, entries[g]);
    }
  }

  /** Some entry of `r` is for pair `p`. */
  predicate ListsPair(r: seq<PairSummary>, p: string) {
    exists j :: 0 <= j < |r| && r[j].pair == p
  }

  /** `r` names each pair at most once. */
  predicate PairsDistinct(r: seq<PairSummary>) {
    forall i, j :: 0 <= i < j < |r| ==> r[i].pair != r[j].pair
  }

  /** No pair left out of `r` beats a listed one: every traded pair without
      an entry has a net total at most that of each entry, and on an equal
      total it was first met later. */
  predicate KeepsTopPairs(r: seq<PairSummary>, ts: seq<Trade>) {
    forall k, i :: 0 <= k < |ts| && 0 <= i < |r| && !ListsPair(r, ts[k].pair) ==>
      && Sum(OfPair(ts, ts[k].pair), NetProfit) <= r[i].totalProfit
      && (Sum(OfPair(ts, ts[k].pair), NetProfit) == r[i].totalProfit ==>
            FirstIndex(ts, r[i].pair) < FirstIndex(ts, ts[k].pair))
  }

  /** Two exact entries for the same pair are the same entry. */
  lemma ExactEntryUnique(a: PairSummary, b: PairSummary, ts: seq<Trade>)
    requires EntryIsExact(a, ts) && EntryIsExact(b, ts) && a.pair == b.pair
    ensures a == b
  {
  }

  /** The sorted entries have no repetitions. */
  lemma SortedEntriesDistinct(ts: seq<Trade>)
    ensures Distinct(SortDesc(Summaries(GroupByPair(ts)), TotalProfitOf))
  {
    var gs := GroupByPair(ts);
    var entries := Summaries(gs);
    GroupByPairCorrect(ts);
    GroupPairsDistinct(gs, ts);
    assert Distinct(entries) by {
      forall a, b | 0 <= a < b < |entries| ensures entries[a] != entries[b] {
        assert entries[a].pair == gs[a].pair && entries[b].pair == gs[b].pair;
      }
    }
    SortDescKeepsDistinct(entries, TotalProfitOf);
  }

  /** The ranking names each pair once. */
  lemma RankPairsDistinct(ts: seq<Trade>, limit: int)
    ensures PairsDistinct(RankPairs(ts, limit))
  {
    var sorted := SortDesc(Summaries(GroupByPair(ts)), TotalProfitOf);
    SortedEntriesDistinct(ts);
    SortedEntriesExact(ts);
    var r := RankPairs(ts, limit);
    forall i, j | 0 <= i < j < |r| ensures r[i].pair != r[j].pair {
      assert r[i] == sorted[i] && r[j] == sorted[j];
      assert sorted[i] in sorted && sorted[j] in sorted;
      if r[i].pair == r[j].pair {
        ExactEntryUnique(sorted[i], sorted[j], ts);
      }
    }
  }

  /** The entry of a traded pair sits in the sorted entries at or after the
      cut when the ranking does not list that pair. */
  lemma UnlistedEntryAfterCut(ts: seq<Trade>, limit: int, k: nat) returns (q: nat)
    requires k < |ts| && !ListsPair(RankPairs(ts, limit), ts[k].pair)
    ensures var sorted := SortDesc(Summaries(GroupByPair(ts)), TotalProfitOf);
      && |RankPairs(ts, limit)| <= q < |sorted|
      && sorted[q].pair == ts[k].pair && EntryIsExact(sorted[q], ts)
  {
    var gs := GroupByPair(ts);
    var entries := Summaries(gs);
    var sorted := SortDesc(entries, TotalProfitOf);
    var r := RankPairs(ts, limit);
    EntriesCoverPairs(ts);
    EntriesExact(ts);
    var g := GroupIndex(gs, ts[k].pair);
    q := PositionOf(sorted, entries[g]);
  }

  /** The ranking keeps the pairs with the highest totals. */
  lemma RankPairsSelects(ts: seq<Trade>, limit: int)
    ensures KeepsTopPairs(RankPairs(ts, limit), ts)
  {
    var entries := Summaries(GroupByPair(ts));
    var sorted := SortDesc(entries, TotalProfitOf);
    var r := RankPairs(ts, limit);
    EntriesInFirstSeenOrder(ts);
    SortDescIsStable(entries, TotalProfitOf, FirstSeen(ts));
    forall k, i | 0 <= k < |ts| && 0 <= i < |r| && !ListsPair(r, ts[k].pair)
      ensures Sum(OfPair(ts, ts[k].pair), NetProfit) <= r[i].totalProfit
      ensures Sum(OfPair(ts, ts[k].pair), NetProfit) == r[i].totalProfit ==>
                FirstIndex(ts, r[i].pair) < FirstIndex(ts, ts[k].pair)
    {
      var q := UnlistedEntryAfterCut(ts, limit, k);
      assert r[i] == sorted[i];
      assert TotalProfitOf(sorted[i]) >= TotalProfitOf(sorted[q]);
    }
  }

  /** The ranking has `min(limit, number of pairs)` entries. */
  lemma RankPairsLength(ts: seq<Trade>, limit: int)
    ensures limit >= 0 ==>
      |RankPairs(ts, limit)| == if limit < |GroupByPair(ts)| then limit else |GroupByPair(ts)|
  {
  }

  /** What the ranking promises: `min(limit, number of pairs)` entries, one
      per pair, highest total first, none left out that beats a listed one,
      each entry exact for its pair, equal totals in the order the pairs
      were first met, and every pair listed when the limit allows. */
  lemma RankPairsCorrect(ts: seq<Trade>, limit: int)
    ensures limit >= 0 ==>
      |RankPairs(ts, limit)| == if limit < |GroupByPair(ts)| then limit else |GroupByPair(ts)|
    ensures PairsDistinct(RankPairs(ts, limit))
    ensures KeepsTopPairs(RankPairs(ts, limit), ts)
    ensures NonIncreasing(RankPairs(ts, limit), TotalProfitOf)
    ensures forall i :: 0 <= i < |RankPairs(ts, limit)| ==> EntryIsExact(RankPairs(ts, limit)[i], ts)
    ensures TiesInRankOrder(RankPairs(ts, limit), TotalProfitOf, FirstSeen(ts))
    ensures limit >= |ts| ==> forall k :: 0 <= k < |ts| ==>
      exists i :: 0 <= i < |RankPairs(ts, limit)| && RankPairs(ts, limit)[i].pair == ts[k].pair
  {
    var entries := Summaries(GroupByPair(ts));
    var sorted := SortDesc(entries, TotalProfitOf);
    EntriesInFirstSeenOrder(ts);
    SortDescIsStable(entries, TotalProfitOf, FirstSeen(ts));
    SortedEntriesExact(ts);
    TakeKeepsOrder(sorted, limit, TotalProfitOf, FirstSeen(ts));
    var r := RankPairs(ts, limit);
    assert forall i :: 0 <= i < |r| ==> r[i] == sorted[i];
    if limit >= |ts| {
      RankingCoversPairs(ts, limit);
    }
    RankPairsLength(ts, limit);
    RankPairsDistinct(ts, limit);
    RankPairsSelects(ts, limit);
  }

  /** There are never more groups than trades. */
  lemma {:induction false} GroupsAtMostTrades(ts: seq<Trade>)
    ensures |GroupByPair(ts)| <= |ts|
  {
    if |ts| > 0 {
      GroupsAtMostTrades(ts[..|ts| - 1]);
    }
  }

  /** `get_top_pairs(limit, period)`. */
  function GetTopPairs(ledger: seq<Trade>, limit: int, period: Option<string>, now: int): (r: Result<seq<PairSummary>>)
    ensures r.Raised? <==> PeriodCutoff(period, now).Raised?
    ensures r.Ok? && limit >= 0 ==>
      var pairs := |GroupByPair(FilterByPeriod(ledger, period, now).value)|;
      |r.value| == if limit < pairs then limit else pairs
    ensures r.Ok? && limit < 0 ==>
      var pairs := |GroupByPair(FilterByPeriod(ledger, period, now).value)|;
      |r.value| == if pairs + limit > 0 then pairs + limit else 0
    ensures r.Ok? ==> PairsDistinct(r.value) && KeepsTopPairs(r.value, FilterByPeriod(ledger, period, now).value)
    ensures r.Ok? ==> NonIncreasing(r.value, TotalProfitOf)
    ensures r.Ok? ==> TiesInRankOrder(r.value, TotalProfitOf, FirstSeen(FilterByPeriod(ledger, period, now).value))
    ensures r.Ok? ==> forall i :: 0 <= i < |r.value| ==> EntryIsExact(r.value[i], FilterByPeriod(ledger, period, now).value)
    ensures FilterByPeriod(ledger, period, now) == Ok([]) ==> r == Ok([])
  {
    match FilterByPeriod(ledger, period, now)
    case Raised(e) => Raised(e)
    case Ok(ts) => RankPairsCorrect(ts, limit); Ok(RankPairs(ts, limit))
  }

  // ---------------------------------------------------------------------
  // get_recent_trades

  /** A trade together with its position in the ledger. */
  type Placed = (Trade, nat)

  function PlacedTime(p: Placed): real { p.0.timestamp as real }
  function PlacedPosition(p: Placed): int { p.1 }

  function Place(ledger: seq<Trade>): (r: seq<Placed>)
    ensures |r| == |ledger|
    ensures forall k :: 0 <= k < |r| ==> r[k] == (ledger[k], k)
  {
    seq(|ledger|, k requires 0 <= k < |ledger| => (ledger[k], k))
  }

  /** The most recent trades with their ledger positions. */
  function RecentPlaced(ledger: seq<Trade>, limit: int): seq<Placed> {
    Take(SortDesc(Place(ledger), PlacedTime), limit)
  }

  /** Sorting the placed trades keeps each one at its true ledger position. */
  lemma SortedPlacesValid(ledger: seq<Trade>)
    ensures forall x: Placed :: x in SortDesc(Place(ledger), PlacedTime) ==> x.1 < |ledger| && ledger[x.1] == x.0
  {
    var placed := Place(ledger);
    forall x: Placed | x in SortDesc(placed, PlacedTime) ensures x.1 < |ledger| && ledger[x.1] == x.0 {
      assert x in multiset(placed);
    }
  }

  /** No ledger position occurs twice after sorting. */
  lemma SortedPlacesDistinct(ledger: seq<Trade>)
    ensures forall i, j :: 0 <= i < j < |SortDesc(Place(ledger), PlacedTime)| ==>
      SortDesc(Place(ledger), PlacedTime)[i].1 != SortDesc(Place(ledger), PlacedTime)[j].1
  {
    var placed := Place(ledger);
    assert Distinct(placed);
    SortDescKeepsDistinct<Placed>(placed, PlacedTime);
    SortedPlacesValid(ledger);
    var sorted := SortDesc(placed, PlacedTime);
    forall i, j | 0 <= i < j < |sorted| ensures sorted[i].1 != sorted[j].1 {
      assert sorted[i] in sorted && sorted[j] in sorted;
    }
  }

  /** Some kept entry comes from ledger position `k`. */
  predicate KeepsPosition(r: seq<Placed>, k: int) {
    exists j :: 0 <= j < |r| && r[j].1 == k
  }

  /** No ledger entry left out of `r` is newer than a kept one, and one left
      out with an equal timestamp lies later in the ledger. */
  predicate KeepsNewest(r: seq<Placed>, ledger: seq<Trade>) {
    forall k, i :: 0 <= k < |ledger| && 0 <= i < |r| && !KeepsPosition(r, k) ==>
      && ledger[k].timestamp <= r[i].0.timestamp
      && (ledger[k].timestamp == r[i].0.timestamp ==> r[i].1 < k)
  }

  /** The sorted placed trades, newest first, ties in ledger order. */
  lemma SortedPlacesOrdered(ledger: seq<Trade>)
    ensures NonIncreasing(SortDesc(Place(ledger), PlacedTime), PlacedTime)
    ensures TiesInRankOrder(SortDesc(Place(ledger), PlacedTime), PlacedTime, PlacedPosition)
  {
    SortDescIsStable<Placed>(Place(ledger), PlacedTime, PlacedPosition);
  }

  /** A ledger position that is not kept sits in the sorted sequence at or
      after the cut. */
  lemma UnkeptAfterCut(ledger: seq<Trade>, limit: int, k: nat) returns (q: nat)
    requires k < |ledger| && !KeepsPosition(RecentPlaced(ledger, limit), k)
    ensures var sorted := SortDesc(Place(ledger), PlacedTime);
      |RecentPlaced(ledger, limit)| <= q < |sorted| && sorted[q] == (ledger[k], k)
  {
    var placed := Place(ledger);
    var sorted := SortDesc(placed, PlacedTime);
    assert placed[k] == (ledger[k], k);
    assert (ledger[k], k) in multiset(sorted);
    q := PositionOf(sorted, (ledger[k], k));
  }

  /** The recent trades are the newest ones. */
  lemma RecentPlacedSelects(ledger: seq<Trade>, limit: int)
    ensures KeepsNewest(RecentPlaced(ledger, limit), ledger)
  {
    var sorted := SortDesc(Place(ledger), PlacedTime);
    var r := RecentPlaced(ledger, limit);
    SortedPlacesOrdered(ledger);
    forall k, i | 0 <= k < |ledger| && 0 <= i < |r| && !KeepsPosition(r, k)
      ensures ledger[k].timestamp <= r[i].0.timestamp
      ensures ledger[k].timestamp == r[i].0.timestamp ==> r[i].1 < k
    {
      var q := UnkeptAfterCut(ledger, limit, k);
      assert r[i] == sorted[i];
      assert PlacedTime(sorted[i]) >= PlacedTime(sorted[q]);
    }
  }

  /** The recent trades are `limit` distinct ledger entries (or all of them),
      newest first, none left out newer than a kept one, and trades with the
      same timestamp in ledger order. */
  lemma RecentPlacedCorrect(ledger: seq<Trade>, limit: int)
    ensures limit >= 0 ==> |RecentPlaced(ledger, limit)| == if limit < |ledger| then limit else |ledger|
    ensures limit < 0 ==> |RecentPlaced(ledger, limit)| == if |ledger| + limit > 0 then |ledger| + limit else 0
    ensures NonIncreasing(RecentPlaced(ledger, limit), PlacedTime)
    ensures TiesInRankOrder(RecentPlaced(ledger, limit), PlacedTime, PlacedPosition)
    ensures KeepsNewest(RecentPlaced(ledger, limit), ledger)
    ensures forall i :: 0 <= i < |RecentPlaced(ledger, limit)| ==>
      var x := RecentPlaced(ledger, limit)[i]; x.1 < |ledger| && ledger[x.1] == x.0
    ensures forall i, j :: 0 <= i < j < |RecentPlaced(ledger, limit)| ==>
      RecentPlaced(ledger, limit)[i].1 != RecentPlaced(ledger, limit)[j].1
  {
    var placed := Place(ledger);
    var sorted := SortDesc(placed, PlacedTime);
    SortedPlacesOrdered(ledger);
    TakeKeepsOrder<Placed>(sorted, limit, PlacedTime, PlacedPosition);
    SortedPlacesValid(ledger);
    SortedPlacesDistinct(ledger);
    RecentPlacedSelects(ledger, limit);
    var r := RecentPlaced(ledger, limit);
    assert forall i :: 0 <= i < |r| ==> r[i] == sorted[i];
  }

  function TradeOf(p: Placed): Trade { p.0 }

  /** Sorting the placed trades permutes the ledger's trades. */
  lemma SortedTradesPermuteLedger(ledger: seq<Trade>)
    ensures multiset(Map(SortDesc(Place(ledger), PlacedTime), TradeOf)) == multiset(ledger)
  {
    var placed := Place(ledger);
    assert Map(placed, TradeOf) == ledger;
    MapPermutation(SortDesc(placed, PlacedTime), placed, TradeOf);
  }

  /** The recent trades are drawn from the ledger without repetition: every
      trade occurs in them at most as often as in the ledger, and exactly as
      often when the limit covers the whole ledger. */
  lemma RecentTradesFromLedger(ledger: seq<Trade>, limit: int)
    ensures multiset(Map(RecentPlaced(ledger, limit), TradeOf)) <= multiset(ledger)
    ensures limit >= |ledger| ==> multiset(Map(RecentPlaced(ledger, limit), TradeOf)) == multiset(ledger)
  {
    var sorted := SortDesc(Place(ledger), PlacedTime);
    var r := RecentPlaced(ledger, limit);
    SortedTradesPermuteLedger(ledger);
    assert sorted == r + sorted[|r|..];
    MapConcat(r, sorted[|r|..], TradeOf);
  }

  /** The trade at a kept ledger position is among the recent trades. */
  lemma KeptPositionListed(ledger: seq<Trade>, limit: int, k: nat)
    requires k < |ledger|
    ensures KeepsPosition(RecentPlaced(ledger, limit), k) ==> ledger[k] in Map(RecentPlaced(ledger, limit), TradeOf)
  {
    var placed := RecentPlaced(ledger, limit);
    if KeepsPosition(placed, k) {
      RecentPlacedCorrect(ledger, limit);
      var j :| 0 <= j < |placed| && placed[j].1 == k;
      assert Map(placed, TradeOf)[j] == ledger[k];
    }
  }

  /** A ledger trade missing from the recent trades is no newer than any of them. */
  lemma RecentTradesAreNewest(ledger: seq<Trade>, limit: int)
    ensures var r := Map(RecentPlaced(ledger, limit), TradeOf);
      forall t, i :: t in ledger && t !in r && 0 <= i < |r| ==> t.timestamp <= r[i].timestamp
  {
    var placed := RecentPlaced(ledger, limit);
    var r := Map(placed, TradeOf);
    RecentPlacedSelects(ledger, limit);
    forall t, i | t in ledger && t !in r && 0 <= i < |r| ensures t.timestamp <= r[i].timestamp {
      var k :| 0 <= k < |ledger| && ledger[k] == t;
      KeptPositionListed(ledger, limit, k);
    }
  }

  /** `get_recent_trades(limit)`: the whole ledger, newest first, cut to `limit`. */
  function GetRecentTrades(ledger: seq<Trade>, limit: int): (r: seq<Trade>)
    ensures limit >= 0 ==> |r| == if limit < |ledger| then limit else |ledger|
    ensures limit < 0 ==> |r| == if |ledger| + limit > 0 then |ledger| + limit else 0
    ensures forall i, j :: 0 <= i < j < |r| ==> r[i].timestamp >= r[j].timestamp
    ensures multiset(r) <= multiset(ledger)
    ensures limit >= |ledger| ==> multiset(r) == multiset(ledger)
    ensures forall t, i :: t in ledger && t !in r && 0 <= i < |r| ==> t.timestamp <= r[i].timestamp
  {
    RecentPlacedCorrect(ledger, limit);
    RecentTradesFromLedger(ledger, limit);
    RecentTradesAreNewest(ledger, limit);
    Map(RecentPlaced(ledger, limit), TradeOf)
  }

  // ---------------------------------------------------------------------
  // export_csv

  /** The rows `export_csv(period)` writes after its header, one per trade
      inside the period, in ledger order. */
  function ExportRows(ledger: seq<Trade>, period: Option<string>, now: int): (r: Result<seq<LedgerStore.Fields>>)
    ensures r.Raised? <==> PeriodCutoff(period, now).Raised?
    ensures r.Ok? ==> var ts := FilterByPeriod(ledger, period, now).value;
      |r.value| == |ts| && forall k :: 0 <= k < |ts| ==> r.value[k] == LedgerStore.CsvRow(ts[k])
    ensures PeriodCutoff(period, now) == Ok(None) ==> r.Ok? && |r.value| == |ledger|
  {
    match FilterByPeriod(ledger, period, now)
    case Raised(e) => Raised(e)
    case Ok(ts) => Ok(seq(|ts|, k requires 0 <= k < |ts| => LedgerStore.CsvRow(ts[k])))
  }
}

/** The trade record and the three figures derived from it. */
module Trades {
  import opened Base

  /** `tx_fee` of a trade that does not say otherwise: 0.000005 SOL. */
  const DefaultTxFee: real := 0.000005

  /** `jito_tip` of a trade that does not say otherwise. */
  const DefaultJitoTip: real := 0.0

  /** A timestamp counts whole seconds from 0001-01-01T00:00:00, where
      Python's proleptic Gregorian calendar starts; `datetime` can hold
      every second up to 9999-12-31T23:59:59, the 3652059th day's last. */
  const MinTimestamp: int := 0
  const MaxTimestamp: int := 3652059 * 86400 - 1

  /** The instants a naive `datetime` can represent, to the second. */
  predicate InDatetimeRange(t: int) {
    MinTimestamp <= t <= MaxTimestamp
  }

  /** One trade attempt. `timestamp` counts seconds; `netOverride` is the
      net figure a log line reported directly (`None` when it did not). */
  datatype Trade = Trade(
    timestamp: int,
    pair: string,
    amountIn: real,
    amountOut: real,
    route: string,
    success: bool,
    jitoTip: real,
    txFee: real,
    netOverride: Option<real>)

  /** Profit before fees: nothing for a failed trade, proceeds minus cost otherwise. */
  function GrossProfit(t: Trade): (g: real)
    ensures !t.success ==> g == 0.0
    ensures t.success ==> t.amountIn + g == t.amountOut
  {
    if !t.success then 0.0 else t.amountOut - t.amountIn
  }

  /** Profit after fees. A reported figure wins outright; without one the
      net is always gross minus both fees, which for a failed trade is the
      negated fee total. */
  function NetProfit(t: Trade): (n: real)
    ensures t.netOverride.Some? ==> n == t.netOverride.value
    ensures t.netOverride.None? ==> n == GrossProfit(t) - t.txFee - t.jitoTip
    ensures t.netOverride.None? && !t.success ==> n == -(t.txFee + t.jitoTip)
  {
    if t.netOverride.Some? then t.netOverride.value
    else if !t.success then -t.txFee - t.jitoTip
    else GrossProfit(t) - t.txFee - t.jitoTip
  }

  /** Net profit as a percentage of the amount put in; zero when nothing was put in. */
  function ProfitPercent(t: Trade): (p: real)
    ensures t.amountIn == 0.0 ==> p == 0.0
    ensures t.amountIn != 0.0 ==> p * t.amountIn == 100.0 * NetProfit(t)
  {
    if t.amountIn == 0.0 then 0.0 else (NetProfit(t) / t.amountIn) * 100.0
  }

  /** Two trades reporting the same net figure have the same net profit,
      whatever their outcome, amounts and fees. */
  lemma OverrideDecidesNet(a: Trade, b: Trade)
    requires a.netOverride.Some? && a.netOverride == b.netOverride
    ensures NetProfit(a) == NetProfit(b)
  {
  }
}

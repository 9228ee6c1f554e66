/** The ledger snapshot: a trade as a field map (`to_dict`), saving the whole
    ledger, loading it back, and the rows written by the CSV export. The JSON
    and CSV text encodings themselves are not modelled; a document is the
    value `json.load` would return. */
module LedgerStore {
  import opened Base
  import opened Trades

  /** A JSON value. `Stamp(t)` is the ISO-8601 text that `isoformat()`
      writes for instant `t`; any other text is `Text`. */
  datatype Value = Num(n: real) | Text(s: string) | Flag(b: bool) | Null | Stamp(t: int)

  type Fields = map<string, Value>

  /** An element of the snapshot list: an object, or anything else (a string,
      number, list, ...), on which `item['timestamp']` raises. */
  datatype Item = Object(fields: Fields) | NotAnObject

  /** The snapshot file. `Unparsable` is a file `json.load` rejects or whose
      top-level value cannot be iterated; a top-level value that can be is
      `Items` of what iterating it yields. */
  datatype Document = Absent | Unparsable | Items(items: seq<Item>)

  /** What `load_history` leaves in the ledger, and whether it printed its warning. */
  datatype Loaded = Loaded(trades: seq<Trade>, warned: bool)

  /** `Trade.to_dict()`: the stored fields plus the three derived figures. */
  function ToDict(t: Trade): Fields {
    map[
      "timestamp" := Stamp(t.timestamp),
      "pair" := Text(t.pair),
      "amount_in" := Num(t.amountIn),
      "amount_out" := Num(t.amountOut),
      "route" := Text(t.route),
      "success" := Flag(t.success),
      "jito_tip" := Num(t.jitoTip),
      "tx_fee" := Num(t.txFee),
      "gross_profit" := Num(GrossProfit(t)),
      "net_profit" := Num(NetProfit(t)),
      "profit_percent" := Num(ProfitPercent(t))
    ]
  }

  /** `save_history`: the list written to the snapshot, one object per trade in ledger order. */
  function SaveHistory(trades: seq<Trade>): (items: seq<Item>)
    ensures |items| == |trades|
    ensures forall k :: 0 <= k < |trades| ==> items[k] == Object(ToDict(trades[k]))
  {
    if |trades| == 0 then [] else SaveHistory(trades[..|trades| - 1]) + [Object(ToDict(trades[|trades| - 1]))]
  }

  // Field readers used by the loader; `None` is the exception the read raises.

  function TextField(f: Fields, key: string): Option<string> {
    if key in f && f[key].Text? then Some(f[key].s) else None
  }

  function NumField(f: Fields, key: string): Option<real> {
    if key in f && f[key].Num? then Some(f[key].n) else None
  }

  /** `item.get(key, default)` for a number. */
  function NumFieldOr(f: Fields, key: string, default: real): Option<real> {
    if key !in f then Some(default) else NumField(f, key)
  }

  /** `item.get('net_profit')`: a missing key and `null` both mean no override. */
  function OverrideField(f: Fields): Option<Option<real>> {
    if "net_profit" !in f || f["net_profit"].Null? then Some(None)
    else if f["net_profit"].Num? then Some(Some(f["net_profit"].n))
    else None
  }

  /** The keys the loader reads with `item[key]`. */
  const RequiredKeys: set<string> := {"timestamp", "pair", "amount_in", "amount_out", "route", "success"}

  /** An object the loader can build a trade from: every required key holds
      a value of its field's type, and each optional key is absent or holds
      a number (`net_profit` may also be `null`). */
  predicate WellTyped(f: Fields) {
    && RequiredKeys <= f.Keys
    && f["timestamp"].Stamp? && f["pair"].Text? && f["amount_in"].Num?
    && f["amount_out"].Num? && f["route"].Text? && f["success"].Flag?
    && ("jito_tip" in f ==> f["jito_tip"].Num?)
    && ("tx_fee" in f ==> f["tx_fee"].Num?)
    && ("net_profit" in f ==> f["net_profit"].Num? || f["net_profit"].Null?)
  }

  /** Every field of `t` is the value stored under its key, or the default
      when an optional key is absent; a stored `null` net figure means none. */
  predicate BuiltFrom(f: Fields, t: Trade) {
    && RequiredKeys <= f.Keys
    && f["timestamp"] == Stamp(t.timestamp) && f["pair"] == Text(t.pair)
    && f["amount_in"] == Num(t.amountIn) && f["amount_out"] == Num(t.amountOut)
    && f["route"] == Text(t.route) && f["success"] == Flag(t.success)
    && (if "jito_tip" in f then f["jito_tip"] == Num(t.jitoTip) else t.jitoTip == DefaultJitoTip)
    && (if "tx_fee" in f then f["tx_fee"] == Num(t.txFee) else t.txFee == DefaultTxFee)
    && (if "net_profit" in f && f["net_profit"].Num? then t.netOverride == Some(f["net_profit"].n)
        else t.netOverride.None?)
  }

  /** One iteration of the loader loop: the trade built from an item, or
      `None` when building it raises. */
  function ItemToTrade(item: Item): (r: Option<Trade>)
    ensures r.Some? <==> item.Object? && WellTyped(item.fields)
    ensures item.Object? && !(RequiredKeys <= item.fields.Keys) ==> r.None?
    ensures r.Some? ==> BuiltFrom(item.fields, r.value)
  {
    if item.NotAnObject? then None
    else
      var f := item.fields;
      if "timestamp" !in f || !f["timestamp"].Stamp? then None
      else
        var pair := TextField(f, "pair");
        var amountIn := NumField(f, "amount_in");
        var amountOut := NumField(f, "amount_out");
        var route := TextField(f, "route");
        var jito := NumFieldOr(f, "jito_tip", DefaultJitoTip);
        var fee := NumFieldOr(f, "tx_fee", DefaultTxFee);
        var net := OverrideField(f);
        if "success" in f && f["success"].Flag? && pair.Some? && amountIn.Some? && amountOut.Some?
           && route.Some? && jito.Some? && fee.Some? && net.Some?
        then
          Some(Trade(f["timestamp"].t, pair.value, amountIn.value, amountOut.value, route.value,
                     f["success"].b, jito.value, fee.value, net.value))
        else None
  }

  /** The loader loop: items are turned into trades in order until the first
      one that raises; the trades built before it are kept. */
  function LoadItems(items: seq<Item>): (r: Loaded)
    ensures |r.trades| <= |items|
    ensures forall k :: 0 <= k < |r.trades| ==> ItemToTrade(items[k]) == Some(r.trades[k])
    ensures r.warned <==> |r.trades| < |items|
    ensures r.warned ==> ItemToTrade(items[|r.trades|]).None?
  {
    if |items| == 0 then Loaded([], false)
    else
      match ItemToTrade(items[0])
      case None => Loaded([], true)
      case Some(t) =>
        var rest := LoadItems(items[1..]);
        Loaded([t] + rest.trades, rest.warned)
  }

  /** `load_history`: appends what the snapshot yields to the ledger; an absent
      file adds nothing silently, an unreadable one adds nothing and warns. */
  function LoadHistory(ledger: seq<Trade>, doc: Document): (r: Loaded)
    ensures ledger <= r.trades
    ensures doc.Absent? ==> r == Loaded(ledger, false)
    ensures doc.Unparsable? ==> r == Loaded(ledger, true)
  {
    match doc
    case Absent => Loaded(ledger, false)
    case Unparsable => Loaded(ledger, true)
    case Items(items) =>
      var l := LoadItems(items);
      Loaded(ledger + l.trades, l.warned)
  }

  /** The trade that reloading `t` yields: the same record, with its net
      profit now held as a reported figure. */
  function Reloaded(t: Trade): Trade {
    t.(netOverride := Some(NetProfit(t)))
  }

  /** A reloaded trade keeps every stored field and every derived figure. */
  predicate SameFigures(a: Trade, b: Trade) {
    && a.timestamp == b.timestamp && a.pair == b.pair
    && a.amountIn == b.amountIn && a.amountOut == b.amountOut
    && a.route == b.route && a.success == b.success
    && a.jitoTip == b.jitoTip && a.txFee == b.txFee
    && GrossProfit(a) == GrossProfit(b)
    && NetProfit(a) == NetProfit(b)
    && ProfitPercent(a) == ProfitPercent(b)
  }

  lemma ReloadedItem(t: Trade)
    ensures ItemToTrade(Object(ToDict(t))) == Some(Reloaded(t))
    ensures SameFigures(Reloaded(t), t)
  {
    ReadsBackEveryField(t);
    KeepsFigures(t);
  }

  lemma ReadsBackEveryField(t: Trade)
    ensures ItemToTrade(Object(ToDict(t))) == Some(Reloaded(t))
  {
    var f := ToDict(t);
    assert f["timestamp"] == Stamp(t.timestamp);
    assert TextField(f, "pair") == Some(t.pair);
    assert NumField(f, "amount_in") == Some(t.amountIn);
    assert NumField(f, "amount_out") == Some(t.amountOut);
    assert TextField(f, "route") == Some(t.route);
    assert f["success"] == Flag(t.success);
    assert NumFieldOr(f, "jito_tip", DefaultJitoTip) == Some(t.jitoTip);
    assert NumFieldOr(f, "tx_fee", DefaultTxFee) == Some(t.txFee);
    assert OverrideField(f) == Some(Some(NetProfit(t)));
  }

  lemma KeepsFigures(t: Trade)
    ensures SameFigures(Reloaded(t), t)
  {
  }

  /** Every trade of a ledger in its reloaded form, in order. */
  function ReloadedAll(trades: seq<Trade>): (r: seq<Trade>)
    ensures |r| == |trades|
    ensures forall k :: 0 <= k < |trades| ==> r[k] == Reloaded(trades[k])
  {
    if |trades| == 0 then [] else ReloadedAll(trades[..|trades| - 1]) + [Reloaded(trades[|trades| - 1])]
  }

  /** Saving a ledger and loading the snapshot into an empty ledger gives back
      every trade, in order, with the same fields and figures, and no warning. */
  lemma SaveThenLoad(trades: seq<Trade>)
    ensures LoadHistory([], Items(SaveHistory(trades))) == Loaded(ReloadedAll(trades), false)
    ensures forall k :: 0 <= k < |trades| ==> SameFigures(LoadHistory([], Items(SaveHistory(trades))).trades[k], trades[k])
  {
    SavedLedgerLoads(trades);
    forall k | 0 <= k < |trades| ensures SameFigures(ReloadedAll(trades)[k], trades[k]) {
      ReloadedItem(trades[k]);
    }
  }

  lemma SavedLedgerLoads(trades: seq<Trade>)
    ensures LoadItems(SaveHistory(trades)) == Loaded(ReloadedAll(trades), false)
  {
    SavedItemsLoad(trades);
    AllLoad(SaveHistory(trades), ReloadedAll(trades));
  }

  lemma {:induction false} AllLoad(items: seq<Item>, ts: seq<Trade>)
    requires |items| == |ts|
    requires forall k :: 0 <= k < |items| ==> ItemToTrade(items[k]) == Some(ts[k])
    ensures LoadItems(items) == Loaded(ts, false)
  {
    if |items| > 0 {
      AllLoad(items[1..], ts[1..]);
      assert ts == [ts[0]] + ts[1..];
    }
  }

  lemma ReloadedDict(t: Trade)
    ensures ToDict(Reloaded(t)) == ToDict(t)
  {
    ReloadedItem(t);
  }

  /** A snapshot that has been loaded once is saved back unchanged: saving,
      loading and saving again writes the same document. */
  lemma SaveIsStable(trades: seq<Trade>)
    ensures SaveHistory(LoadHistory([], Items(SaveHistory(trades))).trades) == SaveHistory(trades)
  {
    SaveThenLoad(trades);
    var back := LoadHistory([], Items(SaveHistory(trades))).trades;
    var a := SaveHistory(back);
    var b := SaveHistory(trades);
    forall k | 0 <= k < |trades| ensures a[k] == b[k] {
      assert back[k] == Reloaded(trades[k]);
      ReloadedDict(trades[k]);
    }
  }

  lemma {:induction false} LoadStopsAt(items: seq<Item>, ts: seq<Trade>)
    requires |ts| < |items|
    requires forall k :: 0 <= k < |ts| ==> ItemToTrade(items[k]) == Some(ts[k])
    requires ItemToTrade(items[|ts|]).None?
    ensures LoadItems(items) == Loaded(ts, true)
  {
    if |ts| > 0 {
      LoadStopsAt(items[1..], ts[1..]);
      assert ts == [ts[0]] + ts[1..];
    }
  }

  /** A malformed item ends loading: the trades of the items before it are
      kept and the warning is printed, whatever follows. */
  lemma MalformedItemStopsLoad(ledger: seq<Trade>, good: seq<Trade>, bad: Item, rest: seq<Item>)
    requires ItemToTrade(bad).None?
    ensures LoadHistory(ledger, Items(SaveHistory(good) + [bad] + rest)) == Loaded(ledger + ReloadedAll(good), true)
  {
    LoadStopsAtBad(good, bad, rest);
  }

  lemma LoadStopsAtBad(good: seq<Trade>, bad: Item, rest: seq<Item>)
    requires ItemToTrade(bad).None?
    ensures LoadItems(SaveHistory(good) + [bad] + rest) == Loaded(ReloadedAll(good), true)
  {
    var saved := SaveHistory(good);
    var items := saved + [bad] + rest;
    var ts := ReloadedAll(good);
    SavedItemsLoad(good);
    forall k | 0 <= k < |good| ensures ItemToTrade(items[k]) == Some(ts[k]) {
      assert items[k] == saved[k];
    }
    assert items[|good|] == bad;
    LoadStopsAt(items, ts);
  }

  /** Each saved object loads as the reloaded form of its trade. */
  lemma SavedItemsLoad(trades: seq<Trade>)
    ensures forall k :: 0 <= k < |trades| ==> ItemToTrade(SaveHistory(trades)[k]) == Some(Reloaded(trades[k]))
  {
    forall k | 0 <= k < |trades| ensures ItemToTrade(SaveHistory(trades)[k]) == Some(Reloaded(trades[k])) {
      ReloadedItem(trades[k]);
    }
  }

  // ---------------------------------------------------------------------
  // CSV export rows

  /** The export's header, in column order. */
  const CsvColumns: seq<string> :=
    ["timestamp", "pair", "amount_in", "amount_out", "route", "success", "net_profit", "profit_percent"]

  /** The row `export_csv` writes for one trade. */
  function CsvRow(t: Trade): (row: Fields)
    ensures row.Keys == set c | c in CsvColumns
  {
    map[
      "timestamp" := Stamp(t.timestamp),
      "pair" := Text(t.pair),
      "amount_in" := Num(t.amountIn),
      "amount_out" := Num(t.amountOut),
      "route" := Text(t.route),
      "success" := Flag(t.success),
      "net_profit" := Num(NetProfit(t)),
      "profit_percent" := Num(ProfitPercent(t))
    ]
  }

  /** An export row carries the same values as the snapshot object of the
      same trade, restricted to the export's columns. */
  lemma CsvRowIsDictProjection(t: Trade)
    ensures forall c :: c in CsvColumns ==> c in ToDict(t) && CsvRow(t)[c] == ToDict(t)[c]
  {
  }
}

/** The trade extractor of `parse_log_line`: two regular expressions run by
    `re.search` over the lowered line, written out as scanners, and the
    declarative meaning of each pattern they are proved to implement. */
module Extractor {
  import opened Base
  import opened PyText
  import opened Trades

  // ---------------------------------------------------------------------
  // Scanning helpers

  /** The end of the longest run of characters satisfying `p` that starts at `i`. */
  function SpanEnd(s: string, i: nat, p: char -> bool): (j: nat)
    requires i <= |s|
    decreases |s| - i
    ensures i <= j <= |s|
    ensures forall k :: i <= k < j ==> p(s[k])
    ensures j < |s| ==> !p(s[j])
  {
    if i < |s| && p(s[i]) then SpanEnd(s, i + 1, p) else i
  }

  /** The class `[:\s]`. */
  predicate IsSeparator(c: char) {
    c == ':' || IsSpace(c)
  }

  predicate IsSign(c: char) {
    c == '+' || c == '-'
  }

  predicate AllDigits(w: string) {
    forall k :: 0 <= k < |w| ==> IsDigit(w[k])
  }

  /** 1 when `w` starts with a sign, else 0. */
  function SignLen(w: string): (b: nat)
    ensures b <= 1 && b <= |w|
  {
    if |w| > 0 && IsSign(w[0]) then 1 else 0
  }

  /** `w` is an optional sign, the digits up to `d`, and then either nothing
      or a point followed by digits. */
  predicate TokenSplitAt(w: string, d: int) {
    && SignLen(w) < d <= |w|
    && AllDigits(w[SignLen(w)..d])
    && (d == |w| || (w[d] == '.' && AllDigits(w[d + 1..])))
  }

  /** The strings the group `([+\-]?\d+\.?\d*)` matches in full. */
  ghost predicate IsNumberToken(w: string) {
    exists d :: TokenSplitAt(w, d)
  }

  // ---------------------------------------------------------------------
  // `profit[:\s]+([+\-]?\d+\.?\d*)`

  const ProfitWord: string := "profit"

  /** The regular expression matches at `i` in some way: the word, one or
      more separators, then a number. */
  ghost predicate ProfitPatternAt(s: string, i: int) {
    exists k, e :: ProfitShape(s, i, k, e)
  }

  /** The word at `i`, separators up to `k` and the number `s[k..e]` match
      the profit pattern. */
  ghost predicate ProfitShape(s: string, i: int, k: int, e: int) {
    && OccursAt(s, ProfitWord, i)
    && i + 6 < k <= e <= |s|
    && (forall m :: i + 6 <= m < k ==> IsSeparator(s[m]))
    && IsNumberToken(s[k..e])
  }

  /** Where the number that `[+\-]?\d+\.?\d*` matches greedily from `k` ends;
      `None` when no number starts at `k`. */
  function NumberEnd(s: string, k: nat): (r: Option<nat>)
    requires k <= |s|
    ensures r.Some? ==> k < r.value <= |s|
  {
    var m := if k < |s| && IsSign(s[k]) then k + 1 else k;
    var d := SpanEnd(s, m, IsDigit);
    if d == m then None
    else Some(if d < |s| && s[d] == '.' then SpanEnd(s, d + 1, IsDigit) else d)
  }

  /** The group the search captures when its match starts at `i`, as bounds
      `(k, e)`: separators are taken greedily, then the number. `None` when
      there is no match at `i`. */
  function CaptureAt(s: string, i: nat): (r: Option<(nat, nat)>)
    ensures r.Some? ==> i + 6 < r.value.0 < r.value.1 <= |s| && OccursAt(s, ProfitWord, i)
  {
    if !OccursAt(s, ProfitWord, i) then None
    else
      var k := SpanEnd(s, i + 6, IsSeparator);
      if k == i + 6 then None
      else
        match NumberEnd(s, k)
        case None => None
        case Some(e) => Some((k, e))
  }

  /** A number token splits where its first run of digits ends: after it
      comes either the end or a point followed only by digits. */
  lemma TokenSplit(w: string)
    requires IsNumberToken(w)
    ensures TokenSplitAt(w, SpanEnd(w, SignLen(w), IsDigit))
  {
    var d' :| TokenSplitAt(w, d');
    DigitRunReaches(w, SignLen(w), d');
  }

  /** A run of digits from `b` to `d'` that is not followed by a digit is
      exactly the run `SpanEnd` measures. */
  lemma DigitRunReaches(w: string, b: nat, d': nat)
    requires b <= d' <= |w| && AllDigits(w[b..d'])
    requires d' < |w| ==> !IsDigit(w[d'])
    ensures SpanEnd(w, b, IsDigit) == d'
    decreases d' - b
  {
    if b < d' {
      assert w[b..d'][0] == w[b];
      assert w[b + 1..d'] == w[b..d'][1..];
      DigitRunReaches(w, b + 1, d');
    }
  }

  /** A slice of a slice is a slice of the whole. */
  lemma SliceOfSlice(s: string, k: nat, e: nat, i: nat, j: nat)
    requires k <= e <= |s| && i <= j <= e - k
    ensures s[k..e][i..j] == s[k + i..k + j]
  {
    var a, b := s[k..e][i..j], s[k + i..k + j];
    assert |a| == |b|;
    forall t | 0 <= t < |a| ensures a[t] == b[t] {
      assert a[t] == s[k..e][i + t] == s[k + i + t];
    }
  }

  /** What `NumberEnd` delimits is a number token. */
  lemma NumberEndIsToken(s: string, k: nat)
    requires k <= |s| && NumberEnd(s, k).Some?
    ensures IsNumberToken(s[k..NumberEnd(s, k).value])
  {
    var m := if k < |s| && IsSign(s[k]) then k + 1 else k;
    var d := SpanEnd(s, m, IsDigit);
    var e := NumberEnd(s, k).value;
    assert e == if d < |s| && s[d] == '.' then SpanEnd(s, d + 1, IsDigit) else d;
    var w := s[k..e];
    var b := m - k;
    var D := d - k;
    assert b == SignLen(w);
    assert d <= e;
    SliceOfSlice(s, k, e, b, D);
    if e != d {
      assert w[D] == s[d];
      SliceOfSlice(s, k, e, D + 1, |w|);
      assert w[D + 1..] == w[D + 1..|w|];
    }
    assert TokenSplitAt(w, D);
  }

  /** A string whose first digit run is empty, or is followed by something
      other than the end or a point and digits, is not a number token. */
  lemma NotNumberToken(w: string)
    requires !TokenSplitAt(w, SpanEnd(w, SignLen(w), IsDigit))
    ensures !IsNumberToken(w)
  {
    if IsNumberToken(w) {
      TokenSplit(w);
    }
  }

  /** Digits up to `D`, then a character that is no digit, and a last
      character that is no digit either (nor a point right at `D`): no number token. */
  lemma BlockedIsNotToken(w: string, b: nat, D: nat)
    requires b == SignLen(w)
    requires b < D < |w| && AllDigits(w[b..D]) && !IsDigit(w[D])
    requires !IsDigit(w[|w| - 1])
    requires D + 1 == |w| ==> w[D] != '.'
    ensures !IsNumberToken(w)
  {
    DigitRunReaches(w, b, D);
    if D + 1 < |w| {
      assert w[D + 1..][|w| - D - 2] == w[|w| - 1];
    }
    NotNumberToken(w);
  }

  /** The number `NumberEnd` delimits is the longest: the next character
      cannot extend it. */
  lemma NumberEndIsLongest(s: string, k: nat)
    requires k <= |s| && NumberEnd(s, k).Some?
    ensures NumberEnd(s, k).value < |s| ==> !IsNumberToken(s[k..NumberEnd(s, k).value + 1])
  {
    var m := if k < |s| && IsSign(s[k]) then k + 1 else k;
    var d := SpanEnd(s, m, IsDigit);
    var e := NumberEnd(s, k).value;
    assert e == if d < |s| && s[d] == '.' then SpanEnd(s, d + 1, IsDigit) else d;
    if e < |s| {
      var w := s[k..e + 1];
      var b := m - k;
      var D := d - k;
      assert b == SignLen(w);
      SliceOfSlice(s, k, e + 1, b, D);
      assert w[D] == s[d];
      assert w[|w| - 1] == s[e];
      BlockedIsNotToken(w, b, D);
    }
  }

  /** The captured text is a number that follows the word and at least one
      separator, and it is the longest such: the next character cannot
      extend it. */
  lemma CaptureIsGreedyNumber(s: string, i: nat)
    requires CaptureAt(s, i).Some?
    ensures var (k, e) := CaptureAt(s, i).value;
      && (forall m :: i + 6 <= m < k ==> IsSeparator(s[m]))
      && IsNumberToken(s[k..e])
      && (e < |s| ==> !IsNumberToken(s[k..e + 1]))
  {
    var k := SpanEnd(s, i + 6, IsSeparator);
    NumberEndIsToken(s, k);
    NumberEndIsLongest(s, k);
  }

  /** A number token starts with a sign or a digit, so no separator, and
      `NumberEnd` finds a number there. */
  lemma TokenStart(s: string, k: nat, e: nat)
    requires k <= e <= |s| && IsNumberToken(s[k..e])
    ensures k < |s| && !IsSeparator(s[k]) && NumberEnd(s, k).Some?
  {
    var w := s[k..e];
    TokenSplit(w);
    var b := SignLen(w);
    assert w[b..SpanEnd(w, b, IsDigit)][0] == w[b];
    assert w[0] == s[k] && w[b] == s[k + b];
    var m := if k < |s| && IsSign(s[k]) then k + 1 else k;
    assert m == k + b;
  }

  /** The scanner finds a match at `i` exactly when the pattern can match there. */
  lemma CaptureIffPattern(s: string, i: nat)
    ensures CaptureAt(s, i).Some? <==> ProfitPatternAt(s, i)
  {
    if CaptureAt(s, i).Some? {
      CaptureIsGreedyNumber(s, i);
      var (k, e) := CaptureAt(s, i).value;
      assert ProfitShape(s, i, k, e);
    }
    if ProfitPatternAt(s, i) {
      var k, e :| ProfitShape(s, i, k, e);
      TokenStart(s, k, e);
      assert SpanEnd(s, i + 6, IsSeparator) == k;
      assert CaptureAt(s, i).Some?;
    }
  }

  /** `re.search`'s scan for the profit pattern: the first start position at
      or after `from` where it matches. */
  function FindProfit(s: string, from: nat): (r: Option<nat>)
    decreases |s| - from
    ensures r.Some? ==> from <= r.value && CaptureAt(s, r.value).Some?
    ensures r.Some? ==> forall j :: from <= j < r.value ==> CaptureAt(s, j).None?
    ensures r.None? ==> forall j :: from <= j ==> CaptureAt(s, j).None?
  {
    if from >= |s| then None
    else if CaptureAt(s, from).Some? then Some(from)
    else FindProfit(s, from + 1)
  }

  // ---------------------------------------------------------------------
  // `([a-z0-9]+)[/-]([a-z0-9]+)`

  predicate IsPairSeparator(c: char) {
    c == '/' || c == '-'
  }

  /** `s[i..j]`, the separator `s[j]` and `s[j + 1..e]` match the pair pattern. */
  predicate PairShape(s: string, i: int, j: int, e: int) {
    && 0 <= i < j && j + 1 < e <= |s|
    && (forall m :: i <= m < j ==> IsLowerAlnum(s[m]))
    && IsPairSeparator(s[j])
    && (forall m :: j + 1 <= m < e ==> IsLowerAlnum(s[m]))
  }

  /** The pair pattern can match at `i`. */
  ghost predicate PairPatternAt(s: string, i: int) {
    exists j, e :: PairShape(s, i, j, e)
  }

  /** The two groups the search captures when its match starts at `i`, as
      the bounds `(i, j)` and `(j + 1, e)`; both runs are taken greedily. */
  function PairAt(s: string, i: nat): (r: Option<(nat, nat)>)
    ensures r.Some? ==> i < r.value.0 && r.value.0 + 1 < r.value.1 <= |s|
  {
    if i >= |s| || !IsLowerAlnum(s[i]) then None
    else
      var j := SpanEnd(s, i, IsLowerAlnum);
      if j + 1 < |s| && IsPairSeparator(s[j]) && IsLowerAlnum(s[j + 1]) then
        Some((j, SpanEnd(s, j + 1, IsLowerAlnum)))
      else None
  }

  /** The scanner finds a pair at `i` exactly when the pattern can match there,
      and its groups are maximal runs of `[a-z0-9]`. */
  lemma PairAtIffPattern(s: string, i: nat)
    ensures PairAt(s, i).Some? <==> PairPatternAt(s, i)
    ensures PairAt(s, i).Some? ==> var (j, e) := PairAt(s, i).value;
      && (forall m :: i <= m < j ==> IsLowerAlnum(s[m]))
      && IsPairSeparator(s[j])
      && (forall m :: j + 1 <= m < e ==> IsLowerAlnum(s[m]))
      && (e < |s| ==> !IsLowerAlnum(s[e]))
  {
    if PairAt(s, i).Some? {
      var (j, e) := PairAt(s, i).value;
      assert PairShape(s, i, j, e);
    }
    if PairPatternAt(s, i) {
      var j, e :| PairShape(s, i, j, e);
      assert IsLowerAlnum(s[i]);
      assert !IsLowerAlnum(s[j]);
      assert SpanEnd(s, i, IsLowerAlnum) == j;
      assert IsLowerAlnum(s[j + 1]);
      assert PairAt(s, i).Some?;
    }
  }

  /** `re.search`'s scan for the pair pattern. */
  function FindPair(s: string, from: nat): (r: Option<nat>)
    decreases |s| - from
    ensures r.Some? ==> from <= r.value && PairAt(s, r.value).Some?
    ensures r.Some? ==> forall j :: from <= j < r.value ==> PairAt(s, j).None?
    ensures r.None? ==> forall j :: from <= j ==> PairAt(s, j).None?
  {
    if from >= |s| then None
    else if PairAt(s, from).Some? then Some(from)
    else FindPair(s, from + 1)
  }

  /** The pair name recorded for a lowered line: the first match's groups,
      upper-cased and joined by `-`, or `"Unknown"`. */
  function PairName(s: string): (name: string)
    ensures FindPair(s, 0).None? ==> name == "Unknown"
    ensures FindPair(s, 0).Some? ==>
      exists i, j, e ::
        && PairShape(s, i, j, e) && (e == |s| || !IsLowerAlnum(s[e]))
        && (forall m :: 0 <= m < i ==> !PairPatternAt(s, m))
        && name == Upper(s[i..j]) + "-" + Upper(s[j + 1..e])
  {
    match FindPair(s, 0)
    case None => "Unknown"
    case Some(i) =>
      var (j, e) := PairAt(s, i).value;
      PairAtIffPattern(s, i);
      FirstPairMatch(s);
      assert PairShape(s, i, j, e);
      Upper(s[i..j]) + "-" + Upper(s[j + 1..e])
  }

  // ---------------------------------------------------------------------
  // `float()` of the captured text

  /** The value of a string of decimal digits. */
  function DigitsValue(w: string): (v: nat)
    requires AllDigits(w)
  {
    if |w| == 0 then 0 else 10 * DigitsValue(w[..|w| - 1]) + DigitValue(w[|w| - 1])
  }

  function Pow10(n: nat): (p: nat)
    ensures p >= 1
  {
    if n == 0 then 1 else 10 * Pow10(n - 1)
  }

  /** `float(w)` for a captured number, as an exact rational. */
  function DecimalValue(w: string): (v: real)
    requires IsNumberToken(w)
    ensures |w| > 0 && w[0] == '-' ==> v <= 0.0
    ensures !(|w| > 0 && w[0] == '-') ==> v >= 0.0
  {
    var b := SignLen(w);
    var d := SpanEnd(w, b, IsDigit);
    var whole := DigitsValue(w[b..d]);
    var frac := if d < |w| then w[d + 1..] else "";
    TokenSplit(w);
    assert AllDigits(w[b..d]);
    var magnitude := whole as real + DigitsValue(frac) as real / Pow10(|frac|) as real;
    if b == 1 && w[0] == '-' then -magnitude else magnitude
  }

  /** Appending digits shifts the value of the digits before them. */
  lemma {:induction false} DigitsValueConcat(a: string, f: string)
    requires AllDigits(a) && AllDigits(f)
    ensures AllDigits(a + f)
    ensures DigitsValue(a + f) == DigitsValue(a) * Pow10(|f|) + DigitsValue(f)
  {
    if |f| == 0 {
      assert a + f == a;
    } else {
      var f' := f[..|f| - 1];
      var x, y, z, c := DigitsValue(a), Pow10(|f'|), DigitsValue(f'), DigitValue(f[|f| - 1]);
      assert AllDigits(a + f);
      assert DigitsValue(a + f) == 10 * DigitsValue(a + f') + c by {
        assert (a + f)[..|a + f| - 1] == a + f';
        assert (a + f)[|a + f| - 1] == f[|f| - 1];
      }
      assert DigitsValue(a + f') == x * y + z by {
        DigitsValueConcat(a, f');
      }
      assert DigitsValue(f) == 10 * z + c;
      assert Pow10(|f|) == 10 * y;
      ShiftDigit(x, y, z, c);
    }
  }

  lemma ShiftDigit(x: int, y: int, z: int, c: int)
    ensures 10 * (x * y + z) + c == x * (10 * y) + (10 * z + c)
  {
  }

  /** The fraction digits of a number token split at `d`: empty without a point. */
  function Fraction(w: string, d: nat): string
    requires d <= |w|
  {
    if d < |w| then w[d + 1..] else ""
  }

  /** The value of a captured number is the integer its digits spell with
      the point removed, over ten to the number of fraction digits, negated
      after a `-`. */
  lemma {:induction false} DecimalValueScaled(w: string, d: nat)
    requires TokenSplitAt(w, d)
    ensures AllDigits(w[SignLen(w)..d] + Fraction(w, d))
    ensures DecimalValue(w)
      == Signed(w[0] == '-', DigitsValue(w[SignLen(w)..d] + Fraction(w, d)) as real / Pow10(|Fraction(w, d)|) as real)
  {
    var b, f := SignLen(w), Fraction(w, d);
    DecimalValueAt(w, d);
    DigitsValueConcat(w[b..d], f);
    SignedFraction(w[0] == '-', DigitsValue(w[b..d]), DigitsValue(f), Pow10(|f|), DigitsValue(w[b..d] + f));
  }

  /** `DecimalValue` read at a known split point `d`. */
  lemma {:induction false} DecimalValueAt(w: string, d: nat)
    requires TokenSplitAt(w, d)
    ensures AllDigits(w[SignLen(w)..d]) && AllDigits(Fraction(w, d))
    ensures DecimalValue(w) == Signed(w[0] == '-', DigitsValue(w[SignLen(w)..d]) as real
      + DigitsValue(Fraction(w, d)) as real / Pow10(|Fraction(w, d)|) as real)
  {
    DigitRunReaches(w, SignLen(w), d);
  }

  /** A signed `whole + fr / p` as one fraction over `p`. */
  lemma SignedFraction(neg: bool, whole: int, fr: int, p: int, total: int)
    requires p > 0 && total == whole * p + fr
    ensures Signed(neg, whole as real + fr as real / p as real) == Signed(neg, total as real / p as real)
  {
    assert total as real == whole as real * p as real + fr as real;
  }

  /** `x`, negated when `neg`. */
  function Signed(neg: bool, x: real): real {
    if neg then -x else x
  }

  // ---------------------------------------------------------------------
  // The extractor

  /** The part of `parse_log_line` that decides whether a line yields a trade
      and builds it; `now` is the clock reading the trade is stamped with. */
  function ExtractTrade(line: string, now: int): (r: Option<Trade>)
    ensures var low := Lower(line);
      r.Some? <==> Contains(low, "profit") && Contains(low, "sol") && FindProfit(low, 0).Some?
    ensures r.Some? ==> var t := r.value;
      && t.timestamp == now && t.success && t.route == "Unknown"
      && t.amountIn == 0.0 && t.amountOut == 0.0
      && t.txFee == DefaultTxFee && t.jitoTip == DefaultJitoTip
      && t.pair == PairName(Lower(line))
      && t.netOverride.Some? && NetProfit(t) == t.netOverride.value
  {
    var low := Lower(line);
    if !(Contains(low, "profit") && Contains(low, "sol")) then None
    else
      match FindProfit(low, 0)
      case None => None
      case Some(i) =>
        var (k, e) := CaptureAt(low, i).value;
        CaptureIsGreedyNumber(low, i);
        var profit := DecimalValue(low[k..e]);
        Some(Trade(now, PairName(low), 0.0, 0.0, "Unknown", true, DefaultJitoTip, DefaultTxFee, Some(profit)))
  }

  /** A line yields a trade exactly when, lowered, it holds both `profit` and
      `sol` and the profit pattern matches somewhere; the trade's net profit
      is the number the leftmost match captures. */
  lemma ExtractTradeMeaning(line: string, now: int)
    ensures var low := Lower(line);
      ExtractTrade(line, now).Some? <==>
        Contains(low, "profit") && Contains(low, "sol") && exists i :: 0 <= i && ProfitPatternAt(low, i)
    ensures var low := Lower(line);
      ExtractTrade(line, now).Some? ==>
        exists i, k, e :: 0 <= i && CaptureAt(low, i) == Some((k, e))
          && (forall j :: 0 <= j < i ==> !ProfitPatternAt(low, j))
          && IsNumberToken(low[k..e])
          && NetProfit(ExtractTrade(line, now).value) == DecimalValue(low[k..e])
  {
    var low := Lower(line);
    var r := FindProfit(low, 0);
    if r.Some? {
      var i := r.value;
      CaptureIffPattern(low, i);
      forall j | 0 <= j < i ensures !ProfitPatternAt(low, j) {
        CaptureIffPattern(low, j);
      }
      CaptureIsGreedyNumber(low, i);
    } else {
      forall i | 0 <= i ensures !ProfitPatternAt(low, i) {
        CaptureIffPattern(low, i);
      }
    }
  }

  /** The pair search finds the leftmost position where the pattern can
      match, and finds nothing exactly when it can match nowhere. */
  lemma FirstPairMatch(s: string)
    ensures FindPair(s, 0).None? <==> forall i :: 0 <= i ==> !PairPatternAt(s, i)
    ensures FindPair(s, 0).Some? ==> PairPatternAt(s, FindPair(s, 0).value)
    ensures FindPair(s, 0).Some? ==> forall j :: 0 <= j < FindPair(s, 0).value ==> !PairPatternAt(s, j)
  {
    forall i | 0 <= i ensures PairAt(s, i).Some? <==> PairPatternAt(s, i) {
      PairAtIffPattern(s, i);
    }
  }
}

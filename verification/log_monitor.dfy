/** The dashboard's log view: choosing which log to tail, and colouring
    each line of it by a priority-ordered keyword table. */
module LogMonitor {
  import opened Base
  import opened PyText

  // ---------------------------------------------------------------------
  // Icons, colours and the keyword groups

  const CheckMark: string := "\U{2705}"
  const CrossMark: string := "\U{274C}"
  const WarningSign: string := "\U{26A0}\U{FE0F}"
  const Magnifier: string := "\U{1F50D}"

  /** A formatted line: `(icon, color, text)`. */
  datatype Entry = Entry(icon: string, colour: string, text: string)

  const SuccessWords: seq<string> := ["success", "executed", "profit"]
  const ErrorWords: seq<string> := ["error", "failed", "exception"]
  const WarningWords: seq<string> := ["warn", "warning", "slippage"]
  const InfoWords: seq<string> := ["opportunity", "found", "scanning"]

  /** `any(word in low for word in words)`. */
  function AnyIn(words: seq<string>, low: string): (b: bool)
    ensures b <==> exists i :: 0 <= i < |words| && Contains(low, words[i])
  {
    if |words| == 0 then false
    else Contains(low, words[0]) || AnyIn(words[1..], low)
  }

  lemma AnyOfThree(a: string, b: string, c: string, low: string)
    ensures AnyIn([a, b, c], low) <==> Contains(low, a) || Contains(low, b) || Contains(low, c)
  {
    var ws := [a, b, c];
    assert ws[0] == a && ws[1] == b && ws[2] == c;
  }

  /** The icon and colour of a non-blank line: the groups are tried in
      order and the first whose keywords occur in the lowered line decides. */
  function Style(line: string): (string, string) {
    var low := Lower(line);
    if AnyIn(SuccessWords, low) then
      if Contains(low, "profit") && '+' in line then (CheckMark, "green")
      else if Contains(low, "success") then (CheckMark, "green")
      else ("", "white")
    else if AnyIn(ErrorWords, low) then (CrossMark, "red")
    else if AnyIn(WarningWords, low) then (WarningSign, "yellow")
    else if AnyIn(InfoWords, low) then (Magnifier, "cyan")
    else ("", "white")
  }

  /** The decision table, one row per outcome, each an if-and-only-if.
      Keywords are looked for in the lowered line, the `+` in the line as
      it is; a line with a success-group keyword is never tested against
      the lower groups. */
  lemma StyleTable(line: string)
    ensures var low := Lower(line);
      var r := Style(line);
      var success := Contains(low, "success") || Contains(low, "executed") || Contains(low, "profit");
      var error := Contains(low, "error") || Contains(low, "failed") || Contains(low, "exception");
      var warning := Contains(low, "warn") || Contains(low, "warning") || Contains(low, "slippage");
      var info := Contains(low, "opportunity") || Contains(low, "found") || Contains(low, "scanning");
      && (r == (CheckMark, "green") <==> (Contains(low, "profit") && '+' in line) || Contains(low, "success"))
      && (r == (CrossMark, "red") <==> !success && error)
      && (r == (WarningSign, "yellow") <==> !success && !error && warning)
      && (r == (Magnifier, "cyan") <==> !success && !error && !warning && info)
      && (r == ("", "white") <==>
            (success && !Contains(low, "success") && !(Contains(low, "profit") && '+' in line))
            || (!success && !error && !warning && !info))
  {
    var low := Lower(line);
    AnyOfThree("success", "executed", "profit", low);
    AnyOfThree("error", "failed", "exception", low);
    AnyOfThree("warn", "warning", "slippage", low);
    AnyOfThree("opportunity", "found", "scanning", low);
  }

  /** Lowering changes letters only, so it keeps every `+`. */
  lemma LowerKeepsPlus(s: string)
    ensures '+' in Lower(s) <==> '+' in s
  {
    if '+' in s {
      var i :| 0 <= i < |s| && s[i] == '+';
      assert Lower(s)[i] == '+';
    }
    if '+' in Lower(s) {
      var i :| 0 <= i < |s| && Lower(s)[i] == '+';
      assert s[i] == '+';
    }
  }

  /** The style depends on the line only through its lowered form: two
      lines that differ only in the case of their letters look alike. */
  lemma StyleIgnoresCase(a: string, b: string)
    requires Lower(a) == Lower(b)
    ensures Style(a) == Style(b)
  {
    LowerKeepsPlus(a);
    LowerKeepsPlus(b);
  }

  /** A line with a success-group keyword never reaches the lower groups:
      its style is decided by the `success` and `profit`-with-`+` tests
      alone, whatever error, warning or info keywords it also holds. */
  lemma SuccessGroupComesFirst(a: string, b: string)
    requires var la, lb := Lower(a), Lower(b);
      && (Contains(la, "success") || Contains(la, "executed") || Contains(la, "profit"))
      && (Contains(lb, "success") || Contains(lb, "executed") || Contains(lb, "profit"))
      && (Contains(la, "success") <==> Contains(lb, "success"))
      && (Contains(la, "profit") && '+' in a <==> Contains(lb, "profit") && '+' in b)
    ensures Style(a) == Style(b)
  {
    StyleTable(a);
    StyleTable(b);
  }

  // ---------------------------------------------------------------------
  // format_lines

  /** The lines `format_lines` keeps: the non-blank ones, in order. */
  function NonBlank(lines: seq<string>): (r: seq<string>)
    ensures |r| <= |lines|
    ensures forall k :: 0 <= k < |r| ==> r[k] in lines && !IsBlank(r[k])
  {
    if |lines| == 0 then []
    else
      var last := lines[|lines| - 1];
      NonBlank(lines[..|lines| - 1]) + if IsBlank(last) then [] else [last]
  }

  /** Nothing but blank lines is dropped: every non-blank line is kept as
      often as it occurs, and a blank one never is. */
  lemma {:induction false} NonBlankComplete(lines: seq<string>)
    ensures forall x :: multiset(NonBlank(lines))[x] == if IsBlank(x) then 0 else multiset(lines)[x]
    ensures forall k :: 0 <= k < |lines| && !IsBlank(lines[k]) ==> lines[k] in NonBlank(lines)
  {
    if |lines| > 0 {
      var init, last := lines[..|lines| - 1], lines[|lines| - 1];
      NonBlankComplete(init);
      assert lines == init + [last];
      var tail := if IsBlank(last) then [] else [last];
      assert NonBlank(lines) == NonBlank(init) + tail;
      assert multiset(NonBlank(lines)) == multiset(NonBlank(init)) + multiset(tail);
      assert multiset(lines) == multiset(init) + multiset{last};
      forall k | 0 <= k < |lines| && !IsBlank(lines[k]) ensures lines[k] in NonBlank(lines) {
        assert multiset(lines)[lines[k]] > 0;
      }
    }
  }

  /** The entries one line contributes when lines are styled by `style`:
      none when it is blank, otherwise one that carries the line unchanged. */
  function FormatLineBy(style: string -> (string, string), line: string): (r: seq<Entry>)
    ensures |r| <= 1
    ensures |r| == 0 <==> IsBlank(line)
    ensures |r| == 1 ==> r[0] == Entry(style(line).0, style(line).1, line)
  {
    StripEmptyIffBlank(line);
    if Strip(line) == "" then [] else [Entry(style(line).0, style(line).1, line)]
  }

  function LineFormatter(style: string -> (string, string)): string -> seq<Entry> {
    (line: string) => FormatLineBy(style, line)
  }

  /** The loop of `format_lines`, for any styling of the lines: one entry
      per non-blank line, in order, carrying the line and its style. */
  function FormatLinesBy(style: string -> (string, string), lines: seq<string>): (r: seq<Entry>)
    ensures |r| == |NonBlank(lines)|
    ensures forall k :: 0 <= k < |r| ==>
      r[k].text == NonBlank(lines)[k] && (r[k].icon, r[k].colour) == style(r[k].text)
  {
    FormatsNonBlank(style, lines);
    FlatMap(lines, LineFormatter(style))
  }

  lemma {:induction false} FormatsNonBlank(style: string -> (string, string), lines: seq<string>)
    ensures var r := FlatMap(lines, LineFormatter(style));
      && |r| == |NonBlank(lines)|
      && forall k :: 0 <= k < |r| ==>
        r[k].text == NonBlank(lines)[k] && (r[k].icon, r[k].colour) == style(r[k].text)
  {
    if |lines| > 0 {
      var init, last := lines[..|lines| - 1], lines[|lines| - 1];
      FormatsNonBlank(style, init);
      var f := LineFormatter(style);
      var e := FormatLineBy(style, last);
      assert f(last) == e;
      var r, r' := FlatMap(lines, f), FlatMap(init, f);
      var n, n' := NonBlank(lines), NonBlank(init);
      assert r == r' + e;
      assert n == n' + if IsBlank(last) then [] else [last];
      forall k | 0 <= k < |r|
        ensures r[k].text == n[k] && (r[k].icon, r[k].colour) == style(r[k].text)
      {
        if k < |r'| {
          assert r[k] == r'[k] && n[k] == n'[k];
        } else {
          assert r[k] == e[0] && n[k] == last;
        }
      }
    }
  }

  /** `format_lines`. */
  function FormatLines(lines: seq<string>): (r: seq<Entry>)
    ensures |r| == |NonBlank(lines)|
    ensures forall k :: 0 <= k < |r| ==>
      r[k].text == NonBlank(lines)[k] && (r[k].icon, r[k].colour) == Style(r[k].text)
  {
    FormatLinesBy(Style, lines)
  }

  /** Formatting goes line by line, so it keeps the order of the lines. */
  lemma FormatLinesConcat(a: seq<string>, b: seq<string>)
    ensures FormatLines(a + b) == FormatLines(a) + FormatLines(b)
  {
    FlatMapConcat(a, b, LineFormatter(Style));
  }

  /** Without blank lines every line yields its own entry, in place. */
  lemma FormatLinesKeepsNonBlank(lines: seq<string>)
    requires forall i :: 0 <= i < |lines| ==> !IsBlank(lines[i])
    ensures |FormatLines(lines)| == |lines|
    ensures forall k :: 0 <= k < |lines| ==> FormatLines(lines)[k].text == lines[k]
  {
    NonBlankKeepsAll(lines);
  }

  lemma {:induction false} NonBlankKeepsAll(lines: seq<string>)
    requires forall i :: 0 <= i < |lines| ==> !IsBlank(lines[i])
    ensures NonBlank(lines) == lines
  {
    if |lines| > 0 {
      NonBlankKeepsAll(lines[..|lines| - 1]);
      assert lines == lines[..|lines| - 1] + [lines[|lines| - 1]];
    }
  }

  /** Blank lines yield nothing. */
  lemma {:induction false} FormatLinesDropsBlank(lines: seq<string>)
    requires forall i :: 0 <= i < |lines| ==> IsBlank(lines[i])
    ensures NonBlank(lines) == []
    ensures FormatLines(lines) == []
  {
    if |lines| > 0 {
      FormatLinesDropsBlank(lines[..|lines| - 1]);
    }
  }

  // ---------------------------------------------------------------------
  // tail_logs

  /** The two logs a monitor knows. */
  datatype Monitor = Monitor(botLog: string, jupiterLog: string)

  const DefaultMonitor: Monitor := Monitor("logs/notarb.log", "logs/jupiter.log")

  /** What looking at a log file gives: it does not exist, running `tail`
      on it raises with a message, or `tail` prints some text. */
  datatype TailRun = NotFound | TailRaised(message: string) | Printed(stdout: string)

  /** The log a source name selects. */
  function LogFileOf(m: Monitor, source: string): (r: Option<string>)
    ensures source == "bot" ==> r == Some(m.botLog)
    ensures r.None? <==> source != "bot" && source != "jupiter"
    ensures source == "jupiter" ==> r == Some(m.jupiterLog)
  {
    if source == "bot" then Some(m.botLog)
    else if source == "jupiter" then Some(m.jupiterLog)
    else None
  }

  /** `tail_logs(source, lines)`: `run(path, lines)` is what the file system
      and `tail -n lines path` yield for the selected log. */
  function TailLogs(m: Monitor, source: string, count: int, run: (string, int) -> TailRun): (r: seq<Entry>)
    ensures source != "bot" && source != "jupiter" ==> r == []
    ensures LogFileOf(m, source).Some? && run(LogFileOf(m, source).value, count).NotFound? ==>
      r == [Entry(WarningSign, "yellow", "Log file not found: " + LogFileOf(m, source).value)]
    ensures LogFileOf(m, source).Some? && run(LogFileOf(m, source).value, count).TailRaised? ==>
      r == [Entry(CrossMark, "red", "Error reading logs: " + run(LogFileOf(m, source).value, count).message)]
    ensures LogFileOf(m, source).Some? && run(LogFileOf(m, source).value, count).Printed? ==>
      r == FormatLines(SplitLines(Strip(run(LogFileOf(m, source).value, count).stdout)))
  {
    match LogFileOf(m, source)
    case None => []
    case Some(path) =>
      match run(path, count)
      case NotFound => [Entry(WarningSign, "yellow", "Log file not found: " + path)]
      case TailRaised(message) => [Entry(CrossMark, "red", "Error reading logs: " + message)]
      case Printed(stdout) => FormatLines(SplitLines(Strip(stdout)))
  }

  /** Output of `tail` that is empty or only whitespace gives no entries. */
  lemma TailOfBlankOutput(m: Monitor, source: string, count: int, run: (string, int) -> TailRun)
    requires LogFileOf(m, source).Some?
    requires run(LogFileOf(m, source).value, count).Printed?
    requires IsBlank(run(LogFileOf(m, source).value, count).stdout)
    ensures TailLogs(m, source, count, run) == []
  {
    var out := run(LogFileOf(m, source).value, count).stdout;
    StripEmptyIffBlank(out);
    assert SplitLines(Strip(out)) == [""];
    assert IsBlank("");
    FormatLinesDropsBlank([""]);
  }
}

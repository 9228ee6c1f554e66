/** The tracker's state machine: adding trades, the cursor file, and the
    incremental `update` that reads what was appended to the log since the
    last call. Files are values in a `Disk`; the outcome of each operating
    system call that can fail is a field of `Poll`. */
module Tracker {
  import opened Base
  import opened PyText
  import opened Trades
  import opened LedgerStore
  import Extractor

  /** The cursor file `monitor.state`: absent, present but unreadable,
      holding the text `_save_last_pos` writes for a position, or holding
      any other text. */
  datatype StateFile = Missing | Unreadable | Saved(pos: int) | Content(text: string)

  /** The files the tracker uses. `log` is the text of the bot's log, one
      character per byte, `None` when the file does not exist. */
  datatype Disk = Disk(history: Document, cursor: StateFile, log: Option<string>)

  /** A tracker: the in-memory ledger and the files it shares with other processes. */
  datatype Tracker = Tracker(trades: seq<Trade>, disk: Disk)

  /** What the lock-file call does: opening the lock file fails, the
      non-blocking exclusive lock is granted, or another process holds it. */
  datatype Lock = LockFileError | Acquired | WouldBlock

  /** How writing the cursor file ends. `open(..., 'w')` truncates the file
      before anything is written, so a write can fail in two places: at the
      open, leaving the old file, or after it, leaving an empty file. */
  datatype CursorWrite = Written | RefusedAtOpen | FailedAfterTruncate

  /** How the operating system answers during one `update`: the lock, whether
      opening the log succeeds, whether reading and decoding it succeeds, and
      how writing the cursor file ends; `now` is the clock reading the new
      trades are stamped with. */
  datatype Poll = Poll(lock: Lock, logOpens: bool, logReads: bool, cursorWrite: CursorWrite, now: int)

  /** Why an update stopped after the lock was taken. */
  datatype Fault = OpenFault | NegativeSeek | ReadFault | CursorWriteFault

  /** How `update` ended. `LockFileFailed` is the one exception that escapes
      to the caller; the others are caught inside. */
  datatype Outcome =
    | NoLog
    | LockFileFailed
    | Contended
    | NothingNew
    | Consumed(lines: nat)
    | Failed(fault: Fault)

  // ---------------------------------------------------------------------
  // Ledger and snapshot

  /** `ProfitTracker(...)`: an empty ledger filled from the snapshot. */
  function Open(disk: Disk): (r: Tracker)
    ensures r.disk == disk
    ensures disk.history.Absent? || disk.history.Unparsable? ==> r.trades == []
  {
    Tracker(LoadHistory([], disk.history).trades, disk)
  }

  /** The snapshot on disk holds exactly the in-memory ledger. */
  predicate SnapshotCurrent(tr: Tracker) {
    tr.disk.history == Items(SaveHistory(tr.trades))
  }

  /** `add_trade`: append and rewrite the snapshot with the whole ledger. */
  function AddTrade(tr: Tracker, t: Trade): (r: Tracker)
    ensures r.trades == tr.trades + [t]
    ensures r.disk.cursor == tr.disk.cursor && r.disk.log == tr.disk.log
    ensures SnapshotCurrent(r)
  {
    var trades := tr.trades + [t];
    Tracker(trades, tr.disk.(history := Items(SaveHistory(trades))))
  }

  /** The trades a line contributes: the one the extractor finds, or none. */
  function LineTrades(line: string, now: int): (r: seq<Trade>)
    ensures |r| <= 1
    ensures |r| == 1 <==> Extractor.ExtractTrade(line, now).Some?
  {
    match Extractor.ExtractTrade(line, now)
    case None => []
    case Some(t) => [t]
  }

  /** `LineTrades` at clock reading `now`, as a function of the line. */
  function LineTradesAt(now: int): string -> seq<Trade> {
    (line: string) => LineTrades(line, now)
  }

  /** The trades a batch of lines contributes, in line order. */
  function Extracted(lines: seq<string>, now: int): (r: seq<Trade>)
    ensures |r| <= |lines|
    ensures forall k :: 0 <= k < |r| ==>
      exists i :: 0 <= i < |lines| && Extractor.ExtractTrade(lines[i], now) == Some(r[k])
    ensures forall k :: 0 <= k < |r| ==> r[k].timestamp == now && r[k].success && r[k].route == "Unknown"
  {
    FlatMapOrigin(lines, LineTradesAt(now));
    FlatMap(lines, LineTradesAt(now))
  }

  lemma ExtractedSnoc(lines: seq<string>, now: int)
    requires |lines| > 0
    ensures Extracted(lines, now) == Extracted(lines[..|lines| - 1], now) + LineTrades(lines[|lines| - 1], now)
  {
    assert LineTradesAt(now)(lines[|lines| - 1]) == LineTrades(lines[|lines| - 1], now);
  }

  /** Extraction works line by line: a batch contributes what its parts do. */
  lemma ExtractedConcat(a: seq<string>, b: seq<string>, now: int)
    ensures Extracted(a + b, now) == Extracted(a, now) + Extracted(b, now)
  {
    FlatMapConcat(a, b, LineTradesAt(now));
  }

  /** `parse_log_line`: a line that yields a trade adds it; any other line,
      and any exception while parsing, leaves the tracker unchanged. */
  function ParseLogLine(tr: Tracker, line: string, now: int): Tracker {
    match Extractor.ExtractTrade(line, now)
    case None => tr
    case Some(t) => AddTrade(tr, t)
  }

  /** The loop over the new lines. */
  function ParseLines(tr: Tracker, lines: seq<string>, now: int): Tracker {
    if |lines| == 0 then tr
    else ParseLogLine(ParseLines(tr, lines[..|lines| - 1], now), lines[|lines| - 1], now)
  }

  /** Parsing a batch appends exactly its extracted trades; the snapshot is
      rewritten with the whole ledger when there was any, and the cursor and
      log are not touched. */
  lemma {:induction false} ParseLinesAppends(tr: Tracker, lines: seq<string>, now: int)
    ensures ParseLines(tr, lines, now).trades == tr.trades + Extracted(lines, now)
    ensures ParseLines(tr, lines, now).disk.cursor == tr.disk.cursor
    ensures ParseLines(tr, lines, now).disk.log == tr.disk.log
    ensures |Extracted(lines, now)| == 0 ==> ParseLines(tr, lines, now).disk.history == tr.disk.history
    ensures |Extracted(lines, now)| > 0 ==> SnapshotCurrent(ParseLines(tr, lines, now))
  {
    if |lines| > 0 {
      var init, last := lines[..|lines| - 1], lines[|lines| - 1];
      ParseLinesAppends(tr, init, now);
      var mid := ParseLines(tr, init, now);
      assert ParseLines(tr, lines, now) == ParseLogLine(mid, last, now);
      ExtractedSnoc(lines, now);
      match Extractor.ExtractTrade(last, now)
      case None =>
        assert LineTrades(last, now) == [];
      case Some(t) =>
        assert LineTrades(last, now) == [t];
    } else {
      assert Extracted(lines, now) == [];
    }
  }

  /** The loop as `update` runs it. */
  method ConsumeLines(tr: Tracker, lines: seq<string>, now: int) returns (r: Tracker)
    ensures r.trades == tr.trades + Extracted(lines, now)
    ensures r.disk.cursor == tr.disk.cursor && r.disk.log == tr.disk.log
    ensures |Extracted(lines, now)| > 0 ==> r.disk.history == Items(SaveHistory(r.trades))
    ensures r == ParseLines(tr, lines, now)
  {
    r := tr;
    var i := 0;
    while i < |lines|
      invariant 0 <= i <= |lines|
      invariant r == ParseLines(tr, lines[..i], now)
    {
      assert lines[..i + 1][..i] == lines[..i];
      r := ParseLogLine(r, lines[i], now);
      i := i + 1;
    }
    assert lines[..i] == lines;
    ParseLinesAppends(tr, lines, now);
  }

  // ---------------------------------------------------------------------
  // The cursor file

  /** The text of a readable cursor file: a saved position is its decimal
      numeral. */
  function Text(f: StateFile): string
    requires f.Saved? || f.Content?
  {
    if f.Saved? then IntToString(f.pos) else f.text
  }

  /** `_get_last_pos`: the integer the file's stripped text spells, or 0
      when the file is missing, unreadable or does not hold an integer. */
  function GetLastPos(f: StateFile): (pos: int)
    ensures f.Missing? || f.Unreadable? ==> pos == 0
    ensures f.Content? && pos != 0 ==> ParseInt(Strip(f.text)) == Some(pos)
    ensures f.Content? && ParseInt(Strip(f.text)).Some? ==> pos == ParseInt(Strip(f.text)).value
  {
    match f
    case Saved(p) => p
    case Content(text) =>
      (match ParseInt(Strip(text))
       case Some(n) => n
       case None => 0)
    case _ => 0
  }

  /** `_save_last_pos`: the file holding the position's decimal text. */
  function SaveLastPos(pos: int): StateFile {
    Saved(pos)
  }

  /** A saved position reads back as itself, and reading it takes the same
      path as reading its text: strip it and parse it as an integer. */
  lemma SavedPosReadsBack(pos: int)
    ensures GetLastPos(SaveLastPos(pos)) == pos
    ensures GetLastPos(Content(Text(SaveLastPos(pos)))) == pos
  {
    var text := IntToString(pos);
    StripUntrimmed(text);
    ParseIntOfIntToString(pos);
  }

  /** The cursor file after `_save_last_pos(pos)` ends as `w` says: the new
      position, the old file untouched, or the empty file the truncating
      open left behind. */
  function WriteCursor(f: StateFile, pos: int, w: CursorWrite): (r: StateFile)
    ensures w.Written? ==> GetLastPos(r) == pos
    ensures w.RefusedAtOpen? ==> r == f
    ensures w.FailedAfterTruncate? ==> r.Content? && Strip(r.text) == [] && GetLastPos(r) == 0
  {
    SavedPosReadsBack(pos);
    match w
    case Written => SaveLastPos(pos)
    case RefusedAtOpen => f
    case FailedAfterTruncate => Content("")
  }

  // ---------------------------------------------------------------------
  // update

  /** The position reading resumes from: the stored cursor, or 0 when the
      log is now shorter than it (the log was rotated). */
  function ResumeFrom(last: int, size: nat): (p: int)
    ensures size < last ==> p == 0
    ensures last <= size ==> p == last
  {
    if size < last then 0 else last
  }

  /** The log exists, the lock is granted and the log opens. */
  predicate Ready(tr: Tracker, poll: Poll) {
    tr.disk.log.Some? && poll.lock == Acquired && poll.logOpens
  }

  /** Where an update of `tr` starts reading. */
  function Start(tr: Tracker): int
    requires tr.disk.log.Some?
  {
    ResumeFrom(GetLastPos(tr.disk.cursor), |tr.disk.log.value|)
  }

  /** `update` as written. After a rotation to an empty log the reset cursor
      is only held in memory: the method returns before saving it. */
  function UpdateAsWritten(tr: Tracker, poll: Poll): (r: (Tracker, Outcome))
    ensures tr.trades <= r.0.trades
    ensures r.0.disk.log == tr.disk.log
    ensures !r.1.Consumed? && !r.1.Failed? ==> r.0 == tr
    ensures r.1.Failed? && !poll.cursorWrite.FailedAfterTruncate? ==> r.0.disk.cursor == tr.disk.cursor
    ensures r.1.Failed? ==> r.0.disk.cursor == tr.disk.cursor || r.0.disk.cursor == Content("")
    ensures Ready(tr, poll) && Start(tr) != |tr.disk.log.value| ==> r == ReadFrom(tr, poll, Start(tr))
    ensures Ready(tr, poll) && Start(tr) == |tr.disk.log.value| ==> r.0 == tr && r.1 == NothingNew
  {
    var disk := tr.disk;
    if disk.log.None? then (tr, NoLog)
    else if poll.lock == LockFileError then (tr, LockFileFailed)
    else if poll.lock == WouldBlock then (tr, Contended)
    else if !poll.logOpens then (tr, Failed(OpenFault))
    else
      var log := disk.log.value;
      var last := ResumeFrom(GetLastPos(disk.cursor), |log|);
      if |log| == last then (tr, NothingNew)
      else ReadFrom(tr, poll, last)
  }

  /** `update` with the rotation reset saved: when a rotation leaves nothing
      to read, the cursor file is rewritten to 0 before returning. */
  function Update(tr: Tracker, poll: Poll): (r: (Tracker, Outcome))
    ensures tr.trades <= r.0.trades
    ensures r.0.disk.log == tr.disk.log
    ensures !r.1.Consumed? ==> r.0.trades == tr.trades || r.1 == Failed(CursorWriteFault)
    ensures r.1.Failed? && !poll.cursorWrite.FailedAfterTruncate? ==> r.0.disk.cursor == tr.disk.cursor
    ensures r.1.Failed? ==> r.0.disk.cursor == tr.disk.cursor || r.0.disk.cursor == Content("")
    ensures r.1.Consumed? ==> tr.disk.log.Some? && r.0.disk.cursor == SaveLastPos(|tr.disk.log.value|)
    ensures r.1 == NothingNew ==> (tr.disk.log.Some? && r.0.trades == tr.trades
      && (r.0.disk.cursor == tr.disk.cursor || r.0.disk.cursor == SaveLastPos(0)))
    ensures SnapshotCurrent(tr) ==> SnapshotCurrent(r.0)
    ensures Ready(tr, poll) && Start(tr) != |tr.disk.log.value| ==> r == ReadFrom(tr, poll, Start(tr))
    ensures Ready(tr, poll) && Start(tr) == |tr.disk.log.value| == GetLastPos(tr.disk.cursor) ==> r.0 == tr && r.1 == NothingNew
    ensures Ready(tr, poll) && Start(tr) == |tr.disk.log.value| != GetLastPos(tr.disk.cursor) && poll.cursorWrite.Written? ==>
      r.1 == NothingNew && r.0.trades == tr.trades && r.0.disk.cursor == SaveLastPos(0)
  {
    var disk := tr.disk;
    if disk.log.None? then (tr, NoLog)
    else if poll.lock == LockFileError then (tr, LockFileFailed)
    else if poll.lock == WouldBlock then (tr, Contended)
    else if !poll.logOpens then (tr, Failed(OpenFault))
    else
      var log := disk.log.value;
      var stored := GetLastPos(disk.cursor);
      var last := ResumeFrom(stored, |log|);
      if |log| == last then
        if last != stored then
          (Tracker(tr.trades, disk.(cursor := WriteCursor(disk.cursor, 0, poll.cursorWrite))),
           if poll.cursorWrite.Written? then NothingNew else Failed(CursorWriteFault))
        else (tr, NothingNew)
      else ReadFrom(tr, poll, last)
  }

  /** The rest of `update` once there is something to read from `last`:
      seek, read the remaining lines, parse them, and save the new cursor. */
  function ReadFrom(tr: Tracker, poll: Poll, last: int): (r: (Tracker, Outcome))
    requires tr.disk.log.Some? && last != |tr.disk.log.value| && last <= |tr.disk.log.value|
    ensures tr.trades <= r.0.trades
    ensures r.0.disk.log == tr.disk.log
    ensures r.1.Consumed? ==> r.0.disk.cursor == SaveLastPos(|tr.disk.log.value|)
    ensures SnapshotCurrent(tr) ==> SnapshotCurrent(r.0)
    ensures r.1.Failed? && !poll.cursorWrite.FailedAfterTruncate? ==> r.0.disk.cursor == tr.disk.cursor
    ensures r.1.Failed? ==> r.0.disk.cursor == tr.disk.cursor || r.0.disk.cursor == Content("")
    ensures last < 0 ==> r == (tr, Failed(NegativeSeek))
    ensures 0 <= last && !poll.logReads ==> r == (tr, Failed(ReadFault))
    ensures 0 <= last && poll.logReads ==>
      var lines := ReadLines(tr.disk.log.value[last..]);
      && r.0.trades == tr.trades + Extracted(lines, poll.now)
      && (poll.cursorWrite.Written? ==> r.1 == Consumed(|lines|) && r.0.disk.cursor == SaveLastPos(|tr.disk.log.value|))
      && (poll.cursorWrite.RefusedAtOpen? ==> r.1 == Failed(CursorWriteFault) && r.0.disk.cursor == tr.disk.cursor)
      && (poll.cursorWrite.FailedAfterTruncate? ==> r.1 == Failed(CursorWriteFault) && r.0.disk.cursor == Content(""))
  {
    var log := tr.disk.log.value;
    if last < 0 then (tr, Failed(NegativeSeek))
    else if !poll.logReads then (tr, Failed(ReadFault))
    else
      var lines := ReadLines(log[last..]);
      var parsed := ParseLines(tr, lines, poll.now);
      ParseLinesAppends(tr, lines, poll.now);
      assert SnapshotCurrent(tr) && |Extracted(lines, poll.now)| == 0 ==> parsed.trades == tr.trades;
      var cursor := WriteCursor(parsed.disk.cursor, |log|, poll.cursorWrite);
      (Tracker(parsed.trades, parsed.disk.(cursor := cursor)),
       if poll.cursorWrite.Written? then Consumed(|lines|) else Failed(CursorWriteFault))
  }

  // ---------------------------------------------------------------------
  // Properties of update

  /** Every call the update makes succeeds. */
  predicate Smooth(poll: Poll) {
    poll.lock == Acquired && poll.logOpens && poll.logReads && poll.cursorWrite.Written?
  }

  /** The outcomes that leave the tracker untouched, in both versions: no
      log, the lock refused or unavailable, the log not opening. */
  lemma UpdateGuards(tr: Tracker, poll: Poll)
    ensures tr.disk.log.None? <==> Update(tr, poll).1 == NoLog
    ensures Update(tr, poll).1 == Contended <==> tr.disk.log.Some? && poll.lock == WouldBlock
    ensures Update(tr, poll).1 == LockFileFailed <==> tr.disk.log.Some? && poll.lock == LockFileError
    ensures tr.disk.log.None? || poll.lock != Acquired || !poll.logOpens ==>
      Update(tr, poll).0 == tr && UpdateAsWritten(tr, poll) == Update(tr, poll)
  {
  }

  /** With every call succeeding and a non-negative stored cursor, `update`
      appends the trades of the lines written after the resume point, in
      order, and moves the cursor to the end of the log; when nothing was
      written after it, the ledger is unchanged. */
  lemma UpdateReadsAppendedText(tr: Tracker, poll: Poll)
    requires tr.disk.log.Some? && Smooth(poll) && GetLastPos(tr.disk.cursor) >= 0
    ensures var log := tr.disk.log.value;
      var start := ResumeFrom(GetLastPos(tr.disk.cursor), |log|);
      var lines := ReadLines(log[start..]);
      var r := Update(tr, poll);
      && (start < |log| ==> r.1 == Consumed(|lines|) && r.0.trades == tr.trades + Extracted(lines, poll.now))
      && (start == |log| ==> r.1 == NothingNew && r.0.trades == tr.trades)
      && GetLastPos(r.0.disk.cursor) == |log|
  {
    if Start(tr) < |tr.disk.log.value| {
      UpdateReadsToEnd(tr, poll);
    } else {
      UpdateFindsNothingNew(tr, poll);
    }
  }

  /** The case of `UpdateReadsAppendedText` where nothing follows the resume point. */
  lemma UpdateFindsNothingNew(tr: Tracker, poll: Poll)
    requires tr.disk.log.Some? && Smooth(poll) && GetLastPos(tr.disk.cursor) >= 0
    requires Start(tr) >= |tr.disk.log.value|
    ensures Update(tr, poll).1 == NothingNew && Update(tr, poll).0.trades == tr.trades
    ensures GetLastPos(Update(tr, poll).0.disk.cursor) == |tr.disk.log.value|
  {
    if Start(tr) != GetLastPos(tr.disk.cursor) {
      assert |tr.disk.log.value| == 0;
      SavedPosReadsBack(0);
    }
  }

  /** The case of `UpdateReadsAppendedText` where there is text to read. */
  lemma UpdateReadsToEnd(tr: Tracker, poll: Poll)
    requires tr.disk.log.Some? && Smooth(poll) && GetLastPos(tr.disk.cursor) >= 0
    requires Start(tr) < |tr.disk.log.value|
    ensures var log := tr.disk.log.value;
      var lines := ReadLines(log[Start(tr)..]);
      var r := Update(tr, poll);
      && r.1 == Consumed(|lines|) && r.0.trades == tr.trades + Extracted(lines, poll.now)
      && GetLastPos(r.0.disk.cursor) == |log|
  {
    var log := tr.disk.log.value;
    assert Update(tr, poll) == ReadFrom(tr, poll, Start(tr));
    SavedPosReadsBack(|log|);
  }

  /** After an update that reports success, the stored cursor lies inside
      the log, so the next update resumes from a point of the current log. */
  lemma UpdateKeepsCursorInLog(tr: Tracker, poll: Poll)
    requires Update(tr, poll).1 == NothingNew || Update(tr, poll).1.Consumed?
    ensures tr.disk.log.Some?
    ensures 0 <= GetLastPos(Update(tr, poll).0.disk.cursor) <= |tr.disk.log.value|
  {
    var r := Update(tr, poll);
    assert tr.disk.log.Some? && poll.lock == Acquired && poll.logOpens;
    var log := tr.disk.log.value;
    var stored := GetLastPos(tr.disk.cursor);
    var last := ResumeFrom(stored, |log|);
    if |log| != last {
      assert r == ReadFrom(tr, poll, last);
    } else if last != stored {
      assert r.0.disk.cursor == SaveLastPos(0);
    } else {
      assert r.0 == tr;
    }
  }

  /** A consumed log is not read again: the next update over the same log
      finds nothing new and changes nothing. */
  lemma UpdateIsIdempotent(tr: Tracker, poll: Poll, next: Poll)
    requires Update(tr, poll).1.Consumed?
    requires next.lock == Acquired && next.logOpens
    ensures Update(Update(tr, poll).0, next) == (Update(tr, poll).0, NothingNew)
  {
    var a := Update(tr, poll).0;
    var log := tr.disk.log.value;
    assert a.disk.cursor == SaveLastPos(|log|) && a.disk.log == Some(log);
    assert GetLastPos(a.disk.cursor) == |log|;
    assert ResumeFrom(|log|, |log|) == |log|;
  }

  /** The two versions differ only when the stored cursor is positive and
      the log is empty. */
  lemma UpdateAgreesUnlessRotatedToEmpty(tr: Tracker, poll: Poll)
    requires !(tr.disk.log == Some("") && GetLastPos(tr.disk.cursor) > 0)
    ensures UpdateAsWritten(tr, poll) == Update(tr, poll)
  {
    if tr.disk.log.Some? && poll.lock == Acquired && poll.logOpens {
      var log := tr.disk.log.value;
      var stored := GetLastPos(tr.disk.cursor);
      var last := ResumeFrom(stored, |log|);
      if |log| == last {
        assert last == stored;
      } else {
        assert UpdateAsWritten(tr, poll) == ReadFrom(tr, poll, last);
        assert Update(tr, poll) == ReadFrom(tr, poll, last);
      }
    }
  }

  /** What the two versions do when the log has been emptied below a
      positive stored cursor: as written, report nothing new and keep the
      stale cursor; corrected, save the reset cursor and change nothing
      else (or report that saving it failed). */
  lemma RotatedToEmpty(tr: Tracker, poll: Poll)
    requires Ready(tr, poll) && tr.disk.log == Some("") && GetLastPos(tr.disk.cursor) > 0
    ensures UpdateAsWritten(tr, poll).0 == tr && UpdateAsWritten(tr, poll).1 == NothingNew
    ensures poll.cursorWrite.Written? ==> var r := Update(tr, poll);
      && r.1 == NothingNew && r.0.trades == tr.trades && r.0.disk.cursor == SaveLastPos(0)
      && r.0.disk.history == tr.disk.history && r.0.disk.log == tr.disk.log
    ensures poll.cursorWrite.RefusedAtOpen? ==> Update(tr, poll).0 == tr && Update(tr, poll).1 == Failed(CursorWriteFault)
    ensures poll.cursorWrite.FailedAfterTruncate? ==> var r := Update(tr, poll);
      && r.1 == Failed(CursorWriteFault) && r.0.trades == tr.trades && GetLastPos(r.0.disk.cursor) == 0
  {
    assert Start(tr) == 0;
    assert UpdateAsWritten(tr, poll) == (tr, NothingNew);
    RotatedToEmptySaves(tr, poll);
  }

  /** The corrected update on a log rotated to empty writes the cursor 0 and
      nothing else. */
  lemma RotatedToEmptySaves(tr: Tracker, poll: Poll)
    requires Ready(tr, poll) && tr.disk.log == Some("") && GetLastPos(tr.disk.cursor) > 0
    ensures Update(tr, poll) == (Tracker(tr.trades, tr.disk.(cursor := WriteCursor(tr.disk.cursor, 0, poll.cursorWrite))),
      if poll.cursorWrite.Written? then NothingNew else Failed(CursorWriteFault))
  {
    assert Start(tr) == 0;
  }

  /** As written, a rotation to an empty log is reported as nothing new and
      leaves the old cursor on disk, past the end of the log. When the log
      grows past it again, the next update reads only what follows the old
      cursor: the first `n` characters of the new log are never read. */
  lemma RotationToEmptySkipsNewText(tr: Tracker, poll: Poll, n: nat, grown: string)
    requires Smooth(poll)
    requires GetLastPos(tr.disk.cursor) == n && 0 < n < |grown|
    requires tr.disk.log == Some("")
    ensures UpdateAsWritten(tr, poll).0 == tr && UpdateAsWritten(tr, poll).1 == NothingNew
    ensures GetLastPos(UpdateAsWritten(tr, poll).0.disk.cursor) > |tr.disk.log.value|
    ensures var after := UpdateAsWritten(tr, poll).0;
      UpdateAsWritten(after.(disk := after.disk.(log := Some(grown))), poll).0.trades
        == tr.trades + Extracted(ReadLines(grown[n..]), poll.now)
  {
    RotatedToEmpty(tr, poll);
    var g := tr.(disk := tr.disk.(log := Some(grown)));
    assert Start(g) == n;
    assert UpdateAsWritten(g, poll) == ReadFrom(g, poll, n);
  }

  /** Corrected, the same rotation saves the reset cursor, and the next
      update after the log grows reads the whole new log. */
  lemma RotationToEmptyRereadsNewLog(tr: Tracker, poll: Poll, grown: string)
    requires Smooth(poll)
    requires GetLastPos(tr.disk.cursor) > 0 && |grown| > 0
    requires tr.disk.log == Some("")
    ensures Update(tr, poll).1 == NothingNew
    ensures GetLastPos(Update(tr, poll).0.disk.cursor) == 0
    ensures var after := Update(tr, poll).0;
      Update(after.(disk := after.disk.(log := Some(grown))), poll).0.trades
        == tr.trades + Extracted(ReadLines(grown), poll.now)
  {
    RotatedToEmpty(tr, poll);
    var c := Update(tr, poll).0;
    SavedPosReadsBack(0);
    var g := c.(disk := c.disk.(log := Some(grown)));
    assert Start(g) == 0;
    UpdateReadsToEnd(g, poll);
    assert grown[0..] == grown;
  }

  /** When saving the cursor fails after the lines were parsed, their trades
      stay in the ledger but the cursor does not move, so the next update
      parses the same lines and appends their trades a second time. */
  lemma CursorWriteFailureRepeatsTrades(tr: Tracker, poll: Poll, next: Poll)
    requires tr.disk.log.Some? && GetLastPos(tr.disk.cursor) >= 0
    requires ResumeFrom(GetLastPos(tr.disk.cursor), |tr.disk.log.value|) < |tr.disk.log.value|
    requires poll.lock == Acquired && poll.logOpens && poll.logReads && poll.cursorWrite.RefusedAtOpen?
    requires Smooth(next)
    ensures var log := tr.disk.log.value;
      var lines := ReadLines(log[ResumeFrom(GetLastPos(tr.disk.cursor), |log|)..]);
      && Update(tr, poll).1 == Failed(CursorWriteFault)
      && Update(Update(tr, poll).0, next).0.trades
        == tr.trades + Extracted(lines, poll.now) + Extracted(lines, next.now)
  {
    var log := tr.disk.log.value;
    var start := ResumeFrom(GetLastPos(tr.disk.cursor), |log|);
    var a := Update(tr, poll).0;
    assert a.disk.cursor == tr.disk.cursor && a.disk.log == tr.disk.log;
    assert Start(a) == start;
  }

  /** When saving the cursor fails after `open(..., 'w')` has emptied the
      file, the empty cursor reads as 0: the next update reads the whole log
      again and appends the trades of every line in it a second time, not
      just those of the last batch. */
  lemma CursorTruncationRereadsLog(tr: Tracker, poll: Poll, next: Poll)
    requires tr.disk.log.Some? && GetLastPos(tr.disk.cursor) >= 0
    requires Start(tr) < |tr.disk.log.value|
    requires poll.lock == Acquired && poll.logOpens && poll.logReads && poll.cursorWrite.FailedAfterTruncate?
    requires Smooth(next)
    ensures var log := tr.disk.log.value;
      var r := UpdateAsWritten(tr, poll);
      && r.1 == Failed(CursorWriteFault)
      && r.0.trades == tr.trades + Extracted(ReadLines(log[Start(tr)..]), poll.now)
      && GetLastPos(r.0.disk.cursor) == 0
      && UpdateAsWritten(r.0, next).0.trades
        == r.0.trades + Extracted(ReadLines(log), next.now)
  {
    var log := tr.disk.log.value;
    var a := UpdateAsWritten(tr, poll).0;
    assert UpdateAsWritten(tr, poll) == ReadFrom(tr, poll, Start(tr));
    assert a.disk.cursor == Content("") && a.disk.log == tr.disk.log;
    assert Start(a) == 0;
    assert UpdateAsWritten(a, next) == ReadFrom(a, next, 0);
    assert log[0..] == log;
  }

  /** A ledger whose snapshot is current keeps it current through an
      update, so reopening the files afterwards gives back every trade the
      update left in memory, with the same figures. */
  lemma UpdateKeepsSnapshot(tr: Tracker, poll: Poll)
    requires SnapshotCurrent(tr)
    ensures SnapshotCurrent(Update(tr, poll).0)
    ensures var after := Update(tr, poll).0;
      && |Open(after.disk).trades| == |after.trades|
      && forall k :: 0 <= k < |after.trades| ==> SameFigures(Open(after.disk).trades[k], after.trades[k])
  {
    var after := Update(tr, poll).0;
    SaveThenLoad(after.trades);
  }
}

/** The last lines of an SSH session. */
module SshHistory {
  import opened CString

  const HISTORY_ROWS: nat := 16
  const ROW_SIZE: nat := 512

  function Last(lines: seq<string>): string { if lines == [] then "" else lines[|lines| - 1] }

  /** An empty line and one that repeats the last entry are not kept. */
  function Push(log: seq<string>, line: string): seq<string> {
    if line == "" || (log != [] && Last(log) == line) then log else log + [Truncate(line, ROW_SIZE)]
  }

  function PushAll(log: seq<string>, lines: seq<string>): seq<string>
    decreases |lines|
  {
    if lines == [] then log else PushAll(Push(log, lines[0]), lines[1..])
  }

  /** The newest entries of a log that never forgets. */
  function Newest(log: seq<string>): (h: seq<string>)
    ensures |h| <= HISTORY_ROWS && (log != [] ==> h != [] && Last(h) == Last(log))
  {
    if |log| <= HISTORY_ROWS then log else log[|log| - HISTORY_ROWS..]
  }

  /** What a full or partly filled table becomes. */
  function Add(rows: seq<string>, line: string): seq<string> {
    if line == "" || (rows != [] && Last(rows) == line) then rows
    else if |rows| < HISTORY_ROWS then rows + [Truncate(line, ROW_SIZE)]
    else rows[1..] + [Truncate(line, ROW_SIZE)]
  }

  lemma AddIsNewest(log: seq<string>, line: string)
    ensures Add(Newest(log), line) == Newest(Push(log, line))
  {}

  function AddAll(rows: seq<string>, lines: seq<string>): seq<string>
    decreases |lines|
  {
    if lines == [] then rows else AddAll(Add(rows, lines[0]), lines[1..])
  }

  /** The lines other than the empty ones and those equal to the one kept before. */
  function Distinct(previous: string, lines: seq<string>): seq<string>
    decreases |lines|
  {
    if lines == [] then []
    else if lines[0] == "" || lines[0] == previous then Distinct(previous, lines[1..])
    else [lines[0]] + Distinct(lines[0], lines[1..])
  }

  /** After any lines the table holds the newest entries of the whole log. */
  lemma {:induction false} TableIsNewest(log: seq<string>, lines: seq<string>)
    ensures AddAll(Newest(log), lines) == Newest(PushAll(log, lines))
    decreases |lines|
  {
    if lines != [] {
      AddIsNewest(log, lines[0]);
      TableIsNewest(Push(log, lines[0]), lines[1..]);
    }
  }

  lemma OneEntryMore(log: seq<string>, line: string, rest: seq<string>)
    ensures log + [line] + rest == log + ([line] + rest)
  {}

  /** Lines that fit a row are logged without adjacent repetitions. */
  lemma {:induction false} LogIsDistinct(log: seq<string>, lines: seq<string>)
    requires forall k :: 0 <= k < |lines| ==> |lines[k]| < ROW_SIZE
    requires "" !in log
    ensures PushAll(log, lines) == log + Distinct(Last(log), lines)
    decreases |lines|
  {
    if lines == [] {
      assert log + [] == log;
    } else {
      var next := Push(log, lines[0]);
      LogIsDistinct(next, lines[1..]);
      if next != log {
        assert Last(next) == lines[0];
        OneEntryMore(log, lines[0], Distinct(lines[0], lines[1..]));
      }
    }
  }

  /** A line too long for a row is kept cut, and again when it is repeated. */
  lemma LongLine(log: seq<string>, line: string)
    requires |line| >= 512 && forall k :: 0 <= k < |log| ==> |log[k]| < 512
    ensures PushAll(log, [line]) == log + [line[..511]]
    ensures PushAll(log, [line, line]) == log + [line[..511], line[..511]]
  {
    assert [line][1..] == [] && [line, line][1..] == [line];
    var next := log + [line[..511]];
    assert Push(log, line) == next && PushAll(next, []) == next;
    assert Push(next, line) == next + [line[..511]] == log + [line[..511], line[..511]];
    assert PushAll(Push(next, line), []) == Push(next, line);
  }

  /** From an empty table: the last sixteen of the lines without empty ones and adjacent
      repetitions. */
  lemma HistoryOfLines(lines: seq<string>)
    requires forall k :: 0 <= k < |lines| ==> |lines[k]| < ROW_SIZE
    ensures AddAll([], lines) == Newest(Distinct("", lines))
  {
    TableIsNewest([], lines);
    LogIsDistinct([], lines);
    assert [] + Distinct("", lines) == Distinct("", lines);
  }

  class ConnectionHistory {
    const rows: array<string>
    var count: nat

    ghost predicate Valid()
      reads this
    {
      rows.Length == HISTORY_ROWS && count <= HISTORY_ROWS
    }

    ghost function Entries(): seq<string>
      requires Valid()
      reads this, rows
    {
      rows[..count]
    }

    constructor ()
      ensures Valid() && Entries() == [] && fresh(rows)
    {
      rows := new string[HISTORY_ROWS](_ => "");
      count := 0;
    }

    method AddHistory(line: string)
      requires Valid()
      modifies this, rows
      ensures Valid() && Entries() == Add(old(Entries()), line)
    {
      if line == "" {
        return;
      }
      if count > 0 && rows[count - 1] == line {
        return;
      }
      if count < HISTORY_ROWS {
        rows[count] := Truncate(line, ROW_SIZE);
        count := count + 1;
        return;
      }
      Shift();
      rows[HISTORY_ROWS - 1] := Truncate(line, ROW_SIZE);
      assert rows[..HISTORY_ROWS] == rows[..HISTORY_ROWS - 1] + [rows[HISTORY_ROWS - 1]];
    }

    /** Every row takes the place of the one before it. */
    method Shift()
      requires rows.Length == HISTORY_ROWS
      modifies rows
      ensures rows[..HISTORY_ROWS - 1] == old(rows[1..HISTORY_ROWS])
    {
      for i := 1 to HISTORY_ROWS
        invariant forall k :: 0 <= k < i - 1 ==> rows[k] == old(rows[k + 1])
        invariant forall k :: i <= k < HISTORY_ROWS ==> rows[k] == old(rows[k])
      {
        rows[i - 1] := rows[i];
      }
    }
  }
}

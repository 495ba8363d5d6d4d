/** The bytes of a session key by key, and the lines that the history keys show. */
module SshKeys {
  import opened CString
  import opened SshLine

  const ESC := '\U{1b}'

  lemma Behind(a: string, rest: string)
    requires a != ""
    ensures (a + rest)[0] == a[0] && (a + rest)[1..] == a[1..] + rest
  {}

  /** The bytes that stand for a key by themselves. */
  lemma SingleBytes(c: char, rest: string)
    requires c != ESC
    ensures NextKey([c] + rest) ==
            (if c == '\r' || c == '\n' then Enter
             else if c == '\U{08}' || c == '\U{7f}' then Backspace
             else if c == '\t' then Tab
             else if ' ' <= c <= '~' then Char(c)
             else Ignored, rest)
  {
    Behind([c], rest);
  }

  /** Sequences of three bytes: the arrows, Home and End. */
  lemma ThreeBytes(c: char, rest: string)
    requires !IsDigit(c)
    ensures NextKey([ESC, '[', c] + rest) ==
            (match c
             case 'A' => Up
             case 'B' => Down
             case 'C' => Right
             case 'D' => Left
             case 'H' => Home
             case 'F' => End
             case _ => Ignored, rest)
  {
    var t := [ESC, '[', c] + rest;
    assert t[1..] == ['[', c] + rest && t[1..][2..] == rest;
  }

  /** Sequences of four bytes: Delete, and Home and End in two forms each. */
  lemma FourBytes(digit: char, c: char, rest: string)
    requires IsDigit(digit)
    ensures NextKey([ESC, '[', digit, c] + rest) ==
            (if c != '~' then Ignored
             else if digit == '3' then Delete
             else if digit == '1' || digit == '7' then Home
             else if digit == '4' || digit == '8' then End
             else Ignored, rest)
  {
    var t := [ESC, '[', digit, c] + rest;
    assert t[1..] == ['[', digit, c] + rest && t[1..][3..] == rest;
  }

  /** An escape in front of anything but a bracket takes one byte with it, and one that is
      cut off takes all that is left. */
  lemma LostBytes(c: char, rest: string, digit: char)
    requires c != '[' && IsDigit(digit)
    ensures NextKey([ESC, c] + rest) == (Ignored, rest)
    ensures NextKey([ESC]) == NextKey([ESC, '[']) == NextKey([ESC, '[', digit]) == (Ignored, "")
  {
    var t := [ESC, c] + rest;
    assert t[1..] == [c] + rest && t[1..][1..] == rest;
    assert [ESC, '[', digit][1..] == ['[', digit] && [ESC, '['][1..] == ['['];
  }

  // ----- completion ----------------------------------------------------------

  /** A completion goes in front of the cursor when one more character would fit behind it. */
  lemma TabCompletes(l: Line, history: seq<string>, size: nat, complete: string -> string)
    requires l.Valid(history, size)
    ensures var r, word := Press(l, Tab, history, size, complete), complete(l.text);
      && r.cursor <= |r.text| && r.index == l.index && r.saved == l.saved && r.draft == l.draft
      && GapOf(r) == if |l.text| + |word| + 1 < size then Gap(GapOf(l).before + word, GapOf(l).after) else GapOf(l)
  {
    var word := complete(l.text);
    assert GapOf(l).before + "" == GapOf(l).before;
  }

  // ----- recalled lines --------------------------------------------------------

  lemma FittingRow(text: string, size: nat)
    requires |text| + 1 < size
    ensures Truncate(text, size) == text
  {}

  /** Up shows the rows of the history one by one, the cursor at the end, and keeps what
      was typed, cut to 511 characters, as the draft. */
  lemma UpsShow(l: Line, n: nat, history: seq<string>, size: nat, complete: string -> string)
    requires l.Valid(history, size) && Open(l, size) && 0 < n <= l.index
    requires RowsFit(history, l.index - n, l.index, size)
    ensures var row := history[l.index - n];
      var draft := if l.saved then l.draft else if |l.text| < 512 then l.text else l.text[..511];
      Run(l, Times(Up, n), history, size, complete) == Some(Line(row, |row|, l.index - n, true, draft))
  {
    Ups(l, n, history, size, complete);
    FittingRow(history[l.index - n], size);
  }

  /** Up at the oldest row only keeps what was typed. */
  lemma UpAtOldest(l: Line, n: nat, history: seq<string>, size: nat, complete: string -> string)
    requires l.Valid(history, size) && Open(l, size) && 0 < n && l.index == 0
    ensures var r := Run(l, Times(Up, n), history, size, complete);
      r.Some? && GapOf(r.value) == GapOf(l) && r.value.index == 0 && r.value.saved
  {
    Ups(l, n, history, size, complete);
  }

  /** Down shows the later rows, and the draft behind the last. */
  lemma DownsShow(l: Line, n: nat, history: seq<string>, size: nat, complete: string -> string)
    requires l.Valid(history, size) && Open(l, size) && 0 < n && l.index < |history|
    requires RowsFit(history, l.index + 1, l.index + n + 1, size)
    ensures Run(l, Times(Down, n), history, size, complete) ==
      if l.index + n < |history| then
        var row := history[l.index + n];
        Some(Line(row, |row|, l.index + n, l.saved, l.draft))
      else Some(Line(l.draft, |l.draft|, |history|, l.saved, l.draft))
  {
    Downs(l, n, history, size, complete);
    if l.index + n < |history| { FittingRow(history[l.index + n], size); } else { FittingRow(l.draft, size); }
  }

  lemma DownAtNewest(l: Line, n: nat, history: seq<string>, size: nat, complete: string -> string)
    requires l.Valid(history, size) && Open(l, size) && l.index == |history|
    ensures Run(l, Times(Down, n), history, size, complete) == Some(l)
  {
    Downs(l, n, history, size, complete);
  }
}

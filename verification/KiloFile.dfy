/** The file form of a document: what Save writes and what Open makes of bytes. */
module KiloFile {
  import opened KiloView
  import opened KiloText

  /** A carriage return in front of a newline belongs to the line end. */
  function StripCr(line: string): string {
    if line != "" && line[|line| - 1] == '\r' then line[..|line| - 1] else line
  }

  /** The rows of the bytes `s` when `line` was already read of the current line. */
  function Lines(line: string, s: string): seq<string>
    decreases |s|
  {
    if s == "" then (if line == "" then [] else [line])
    else if s[0] == '\n' then [StripCr(line)] + Lines("", s[1..])
    else Lines(line + [s[0]], s[1..])
  }

  predicate PlainRow(row: string) {
    '\n' !in row && (row == "" || row[|row| - 1] != '\r')
  }

  lemma {:induction false} LinesOfRow(line: string, row: string, rest: string)
    requires '\n' !in row
    ensures Lines(line, row + ['\n'] + rest) == [StripCr(line + row)] + Lines("", rest)
    decreases |row|
  {
    var s := row + ['\n'] + rest;
    if row == "" {
      assert s[1..] == rest && line + row == line;
    } else {
      assert s[1..] == row[1..] + ['\n'] + rest;
      LinesOfRow(line + [row[0]], row[1..], rest);
      assert line + [row[0]] + row[1..] == line + row;
    }
  }

  lemma {:induction false} LinesHoldNoNewline(line: string, s: string)
    requires '\n' !in line
    ensures forall k :: 0 <= k < |Lines(line, s)| ==> '\n' !in Lines(line, s)[k]
    decreases |s|
  {
    if s != "" {
      if s[0] == '\n' {
        LinesHoldNoNewline("", s[1..]);
      } else {
        LinesHoldNoNewline(line + [s[0]], s[1..]);
      }
    }
  }

  lemma {:induction false} LinesOfFlatten(rows: seq<string>)
    requires forall k :: 0 <= k < |rows| ==> '\n' !in rows[k]
    ensures |Lines("", Flatten(rows))| == |rows|
    ensures forall k :: 0 <= k < |rows| ==> Lines("", Flatten(rows))[k] == StripCr(rows[k])
  {
    if rows != [] {
      var back := Lines("", Flatten(rows[1..]));
      LinesOfFlatten(rows[1..]);
      LinesOfRow("", rows[0], Flatten(rows[1..]));
      assert "" + rows[0] == rows[0];
      assert Lines("", Flatten(rows)) == [StripCr(rows[0])] + back;
    }
  }

  /** Opening what Save wrote gives back the rows exactly when no row holds a newline or
      ends in a carriage return. */
  lemma OpenAfterSave(rows: seq<string>)
    ensures Lines("", Flatten(rows)) == rows <==> forall k :: 0 <= k < |rows| ==> PlainRow(rows[k])
  {
    var back := Lines("", Flatten(rows));
    LinesHoldNoNewline("", Flatten(rows));
    if forall k :: 0 <= k < |rows| ==> '\n' !in rows[k] {
      LinesOfFlatten(rows);
      forall k | 0 <= k < |rows|
        ensures back[k] == rows[k] <==> PlainRow(rows[k])
      {
        assert back[k] == StripCr(rows[k]);
      }
    }
  }

  // ----- any text ----------------------------------------------------------

  /** A finished line is its own row, without one carriage return at its end. */
  lemma FirstRow(row: string, rest: string)
    requires '\n' !in row
    ensures Lines("", row + "\r\n" + rest) == [row] + Lines("", rest)
    ensures PlainRow(row) ==> Lines("", row + "\n" + rest) == [row] + Lines("", rest)
  {
    var line := row + ['\r'];
    assert '\n' !in line && line[..|line| - 1] == row;
    LinesOfRow("", line, rest);
    assert "" + line == line && line + ['\n'] + rest == row + "\r\n" + rest;
    LinesOfRow("", row, rest);
    assert "" + row == row;
  }

  lemma {:induction false} UnfinishedRow(line: string, tail: string)
    requires '\n' !in tail && line + tail != ""
    ensures Lines(line, tail) == [line + tail]
    decreases |tail|
  {
    if tail == "" {
      assert line + tail == line;
    } else {
      assert tail[0] in tail && '\n' !in tail[1..];
      assert line + [tail[0]] + tail[1..] == line + tail;
      UnfinishedRow(line + [tail[0]], tail[1..]);
    }
  }

  lemma Nothing(s: string)
    ensures "" + s == s
  {}

  lemma Regroup(a: string, b: string, c: string)
    ensures (a + b) + c == a + (b + c)
  {}

  lemma RegroupRows(rows: seq<string>, more: seq<string>)
    requires rows != []
    ensures rows + more == [rows[0]] + (rows[1..] + more)
  {}

  lemma FlattenTail(rows: seq<string>, tail: string)
    requires rows != []
    ensures Flatten(rows) + tail == rows[0] + "\n" + (Flatten(rows[1..]) + tail)
  {
    Regroup(rows[0] + "\n", Flatten(rows[1..]), tail);
  }

  /** An unfinished last line is a row as it stands. */
  lemma {:induction false} LinesWithTail(rows: seq<string>, tail: string)
    requires (forall k :: 0 <= k < |rows| ==> PlainRow(rows[k])) && '\n' !in tail && tail != ""
    ensures Lines("", Flatten(rows) + tail) == rows + [tail]
  {
    if rows == [] {
      UnfinishedRow("", tail);
      Nothing(tail);
    } else {
      var rest := Flatten(rows[1..]) + tail;
      LinesWithTail(rows[1..], tail);
      FirstRow(rows[0], rest);
      FlattenTail(rows, tail);
      RegroupRows(rows, [tail]);
    }
  }

  predicate HasCrLf(s: string) {
    exists i :: 0 <= i < |s| - 1 && s[i] == '\r' && s[i + 1] == '\n'
  }

  predicate CleanText(s: string) {
    !HasCrLf(s) && (s == "" || s[|s| - 1] == '\n')
  }

  lemma SaveOfFirstLine(line: string, rest: string)
    requires '\n' !in line
    ensures var t := line + ['\n'] + rest;
            Flatten([StripCr(line)] + Lines("", rest)) == t <==>
            StripCr(line) == line && Flatten(Lines("", rest)) == rest
  {
    var t := line + ['\n'] + rest;
    var u := Flatten([StripCr(line)] + Lines("", rest));
    assert ([StripCr(line)] + Lines("", rest))[1..] == Lines("", rest);
    assert u == StripCr(line) + ['\n'] + Flatten(Lines("", rest));
    if StripCr(line) == line {
      assert t[|line| + 1..] == rest && u[|line| + 1..] == Flatten(Lines("", rest));
    } else {
      assert t[|line| - 1] == '\r' && u[|line| - 1] == '\n';
    }
  }

  lemma CleanAfterFirstLine(line: string, rest: string)
    requires '\n' !in line
    ensures CleanText(line + ['\n'] + rest) <==> StripCr(line) == line && CleanText(rest)
  {
    var t := line + ['\n'] + rest;
    if StripCr(line) == line {
      NoCrLfInLine(line, rest);
      assert t[|t| - 1] == if rest == "" then '\n' else rest[|rest| - 1];
    } else {
      assert t[|line| - 1] == '\r' && t[|line|] == '\n';
    }
  }

  lemma UnfinishedLine(line: string)
    requires '\n' !in line
    ensures Flatten(Lines(line, "")) == line <==> CleanText(line)
  {
    if line != "" {
      FlattenOne(line);
      assert line[|line| - 1] in line;
      assert |Flatten([line])| == |line| + 1;
    }
  }

  /** The same for a text `t` of whose first line `line` was already read. */
  lemma {:induction false} SaveOfLines(line: string, s: string, t: string)
    requires '\n' !in line && t == line + s
    ensures Flatten(Lines(line, s)) == t <==> CleanText(t)
    decreases |s|
  {
    if s == "" {
      UnfinishedLine(line);
    } else if s[0] == '\n' {
      SaveOfLines("", s[1..], s[1..]);
      SaveOfFirstLine(line, s[1..]);
      CleanAfterFirstLine(line, s[1..]);
      assert t == line + ['\n'] + s[1..];
    } else {
      SaveOfLines(line + [s[0]], s[1..], t);
    }
  }

  lemma NoCrLfInLine(line: string, rest: string)
    requires '\n' !in line && StripCr(line) == line
    ensures HasCrLf(line + ['\n'] + rest) <==> HasCrLf(rest)
  {
    var t := line + ['\n'] + rest;
    if HasCrLf(rest) {
      var i :| 0 <= i < |rest| - 1 && rest[i] == '\r' && rest[i + 1] == '\n';
      assert t[|line| + 1 + i] == '\r' && t[|line| + 1 + i + 1] == '\n';
    }
    if HasCrLf(t) {
      var i :| 0 <= i < |t| - 1 && t[i] == '\r' && t[i + 1] == '\n';
      assert forall h :: 0 <= h < |line| ==> t[h] != '\n';
      assert i >= |line| + 1;
      assert rest[i - |line| - 1] == '\r' && rest[i - |line| - 1 + 1] == '\n';
    }
  }

  /** Saving what Open read writes the same bytes exactly when the file has no CR LF pair
      and is empty or ends in a newline. */
  lemma SaveAfterOpen(s: string)
    ensures Flatten(Lines("", s)) == s <==> CleanText(s)
  {
    SaveOfLines("", s, s);
  }
}

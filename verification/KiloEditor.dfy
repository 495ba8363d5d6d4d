/** The editor itself: the EditorConfig record and the functions that change it. */
module KiloEditor {
  import opened CString
  import opened Errno
  import opened KiloView
  import opened KiloRender
  import opened KiloSyntax
  import opened KiloRows
  import opened KiloColour
  import opened KiloEdits
  import opened KiloFile
  import opened PathSpec
  import KiloLanguages
  import C = KiloCursor
  import E = KiloEdits
  import K = KiloKeyColours
  import R = KiloRows
  import V = KiloView

  const FS_PATH_SIZE := 160
  const FILENAME_SIZE := 128

  /** What Open finds under a path: a failed lookup, no entry, a directory, a file that
      cannot be opened, or one with reads and the status of the last of them. */
  datatype Lookup =
    | LookupFailed(code: Failure)
    | Missing
    | Directory
    | OpenFailed(code: Failure)
    | Opened(chunks: seq<string>, status: Status)

  function StatusOf(found: Lookup): int {
    match found
    case LookupFailed(code) => code
    case Missing => 0
    case Directory => -EISDIR
    case OpenFailed(code) => code
    case Opened(_, status) => status
  }

  /** The bytes of the file; a missing one is opened like an empty one. */
  function Content(found: Lookup): string {
    if found.Opened? then Concat(found.chunks) else ""
  }

  /** A file that takes `room` bytes in all; a write past them is cut short, or fails
      with `error` and writes nothing when that is not 0. */
  datatype Medium = Medium(room: nat, error: Status)

  /** A file that Open has found is saved under its own path exactly when its name is not
      cut to the filename buffer. */
  lemma SavedWhereOpened(path: string)
    requires Managed(path, FS_PATH_SIZE).Ok?
    ensures Managed(Truncate(path, FILENAME_SIZE), FS_PATH_SIZE) == Managed(path, FS_PATH_SIZE)
        <==> |path| < FILENAME_SIZE
  {}

  class EditorConfig {
    var filename: string
    var cx: int
    var cy: int
    var rowoff: int
    var coloff: int
    var screenrows: int
    var screencols: int
    var numrows: int
    var row: seq<EditorRow>
    var dirty: int
    var syntax: Option<EditorSyntax>

    ghost predicate Consistent()
      reads this
    {
      numrows == |row| && Ready(syntax, row)
    }

    function View(): V.View
      reads this
    {
      V.View(Chars(row), cx, cy, rowoff, coloff, screenrows, screencols)
    }

    constructor (rows: int, cols: int)
      ensures Consistent() && View().Valid() && row == [] && dirty == 0 && syntax == None
      ensures screenrows == (if rows > 3 then rows - 2 else 22) && screencols == (if cols > 10 then cols else 80)
    {
      filename, cx, cy, rowoff, coloff := "", 0, 0, 0, 0;
      screenrows := if rows > 3 then rows - 2 else 22;
      screencols := if cols > 10 then cols else 80;
      numrows, row, dirty, syntax := 0, [], 0, None;
    }

    // ----- colours -------------------------------------------------------

    /** The keyword loop of the scan: paints the first keyword of the table found at `i`. */
    static method PaintKeyword(syn: EditorSyntax, s: string, i: nat, hl: array<Highlight>) returns (klen: nat)
      requires syn.Valid() && i < |s| == hl.Length
      modifies hl
      ensures var k := FindKeyword(syn, 0, s, i);
              if k < |syn.keywords| then
                && klen == KeywordLength(syn.keywords[k])
                && hl[..] == Paint(old(hl[..]), i, klen, if IsTypeKeyword(syn.keywords[k]) then Keyword2 else Keyword1)
              else klen == 0 && hl[..] == old(hl[..])
    {
      for j := 0 to |syn.keywords|
        invariant hl[..] == old(hl[..])
        invariant FindKeyword(syn, j, s, i) == FindKeyword(syn, 0, s, i)
      {
        if KeywordAt(syn.keywords[j], s, i) {
          klen := KeywordLength(syn.keywords[j]);
          var colour := if IsTypeKeyword(syn.keywords[j]) then Keyword2 else Keyword1;
          forall k | i <= k < i + klen { hl[k] := colour; }
          return;
        }
      }
      klen := 0;
    }

    /** One round of the scan loop at a character that starts no line comment. */
    static method ScanRound(syn: EditorSyntax, s: string, st: Scan, hl: array<Highlight>) returns (next: Scan)
      requires syn.Valid() && st.i < |s| == hl.Length
      modifies hl
      ensures (next, hl[..]) == Step(syn, s, st, old(hl[..]))
    {
      var i, c, d := st.i, At(s, st.i), At(s, st.i + 1);
      if st.inComment {
        hl[i] := MlComment;
        if c == syn.mce.0 && d == syn.mce.1 && i + 1 < |s| {
          hl[i + 1] := MlComment;
          assert hl[..] == Paint(old(hl[..]), i, 2, MlComment);
          return st.(i := i + 2, inComment := false, prevSep := true);
        }
        return st.(i := i + 1, prevSep := false);
      }
      if c == syn.mcs.0 && d == syn.mcs.1 && i + 1 < |s| {
        hl[i] := MlComment;
        hl[i + 1] := MlComment;
        assert hl[..] == Paint(old(hl[..]), i, 2, MlComment);
        return st.(i := i + 2, inComment := true, prevSep := false);
      }
      if syn.highlightStrings {
        if st.inString != NUL {
          hl[i] := String;
          if c == '\\' && d != NUL && i + 1 < |s| {
            hl[i + 1] := String;
            assert hl[..] == Paint(old(hl[..]), i, 2, String);
            return st.(i := i + 2, prevSep := false);
          }
          next := st.(i := i + 1, prevSep := false);
          if c == st.inString {
            next := next.(inString := NUL);
          }
          return;
        }
        if c == '"' || c == '\'' {
          hl[i] := String;
          return st.(i := i + 1, inString := c, prevSep := false);
        }
      }
      if !IsPrint(c) {
        hl[i] := NonPrint;
        return st.(i := i + 1, prevSep := false);
      }
      if syn.highlightNumbers
        && ((IsDigit(c) && (st.prevSep || (i > 0 && hl[i - 1] == Number)))
            || (c == '.' && i > 0 && hl[i - 1] == Number)) {
        hl[i] := Number;
        return st.(i := i + 1, prevSep := false);
      }
      if st.prevSep {
        var klen := PaintKeyword(syn, s, i, hl);
        if klen > 0 {
          return st.(i := i + klen, prevSep := false);
        }
      }
      next := st.(i := i + 1, prevSep := IsSeparator(c));
    }

    /** One row's scan, writing colours into a buffer of exactly the row's length. */
    static method ScanColours(syn: EditorSyntax, s: string, startsInComment: bool)
      returns (colours: seq<Highlight>, lineComment: bool)
      requires syn.Valid()
      ensures var out := ScanRow(syn, s, startsInComment); colours == out.hl && lineComment == out.lineComment
    {
      var hl := new Highlight[|s|](_ => Normal);
      var i := 0;
      while At(s, i) != NUL && IsSpace(At(s, i))
        invariant i <= |s| && FirstVisible(s, i) == FirstVisible(s, 0)
        decreases |s| - i
      {
        i := i + 1;
      }
      var st := Scan(i, true, NUL, startsInComment);
      assert hl[..] == AllNormal(|s|);
      while At(s, st.i) != NUL
        invariant st.i <= |s| == hl.Length
        invariant ScanFrom(syn, s, st, hl[..]) == ScanRow(syn, s, startsInComment)
        decreases |s| - st.i
      {
        if st.prevSep && At(s, st.i) == syn.scs.0 && At(s, st.i + 1) == syn.scs.1 {
          ghost var was := hl[..];
          forall j | st.i <= j < |s| { hl[j] := Comment; }
          assert hl[..] == Paint(was, st.i, |s| - st.i, Comment);
          return hl[..], true;
        }
        st := ScanRound(syn, s, st, hl);
      }
      colours, lineComment := hl[..], false;
    }

    /** The scan of row k, begun as the row above ends. */
    method PaintRow(k: nat) returns (lineComment: bool)
      requires k < |row| && row[k].idx == k && PaintedAbove(row, k) && syntax.Some? && syntax.value.Valid()
      modifies `row
      ensures var out := ScanRow(syntax.value, old(row)[k].render, StartsInComment(old(row), k));
              row == old(row)[k := old(row)[k].(hl := out.hl)] && lineComment == out.lineComment
    {
      var inComment := row[k].idx > 0 && RowOpen(row[row[k].idx - 1]);
      var colours;
      colours, lineComment := ScanColours(syntax.value, row[k].render, inComment);
      row := row[k := row[k].(hl := colours)];
    }

    method UpdateSyntax(k: nat)
      requires k < |row| && 0 <= numrows <= |row| && PaintedAbove(row, k)
      requires forall j :: k <= j < |row| ==> row[j].idx == j
      requires syntax.Some? ==> syntax.value.Valid()
      modifies `row
      ensures row == R.UpdateSyntax(syntax, old(row), k, numrows)
      decreases |row| - k, 1
    {
      ghost var rows := row;
      row := row[k := row[k].(hl := AllNormal(|row[k].render|))];
      if syntax == None {
        return;
      }
      var lineComment := PaintRow(k);
      assert row == rows[k := rows[k].(hl := ScanRow(syntax.value, rows[k].render, StartsInComment(rows, k)).hl)];
      if lineComment {
        return;
      }
      PassOn(k);
    }

    /** The row below follows when the flag of row k changes; the flag is stored last. */
    method PassOn(k: nat)
      requires k < |row| && 0 <= numrows <= |row| && |row[k].hl| == |row[k].render|
      requires forall j :: k <= j < |row| ==> row[j].idx == j
      requires syntax.Some? && syntax.value.Valid()
      modifies `row
      ensures var open := RowOpen(old(row)[k]);
              var below := if old(row)[k].hlOpenComment != open && k + 1 < numrows
                           then Recolour(syntax.value, old(row), k + 1, numrows) else old(row);
              row == below[k := below[k].(hlOpenComment := open)]
      decreases |row| - k, 0
    {
      var open := RowOpen(row[k]);
      if row[k].hlOpenComment != open && row[k].idx + 1 < numrows {
        UpdateSyntax(k + 1);
      }
      row := row[k := row[k].(hlOpenComment := open)];
    }

    // ----- rows ----------------------------------------------------------

    /** The spaces of one tab, up to the next stop. */
    static method RenderTab(buffer: array<char>, start: nat) returns (idx: nat)
      requires start + TabWidth(start) < buffer.Length
      modifies buffer
      ensures idx == start + TabWidth(start)
      ensures buffer[..start] == old(buffer[..start]) && buffer[start..idx] == Spaces(TabWidth(start))
    {
      idx := start;
      buffer[idx] := ' ';
      idx := idx + 1;
      while (idx + 1) % 8 != 0
        invariant start < idx <= start + TabWidth(start)
        invariant buffer[..start] == old(buffer[..start])
        invariant forall i :: start <= i < idx ==> buffer[i] == ' '
        decreases start + TabWidth(start) - idx
      {
        TabStopsBetween(start, idx);
        buffer[idx] := ' ';
        idx := idx + 1;
      }
      TabStopsBetween(start, idx);
    }

    /** The tab expansion, written into a buffer of the size UpdateRow allocates. */
    static method RenderRow(chars: string) returns (render: string)
      ensures render == Expand(chars)
    {
      var tabs := 0;
      for j := 0 to |chars|
        invariant tabs == TabCount(chars[..j])
      {
        assert chars[..j + 1][..j] == chars[..j];
        if chars[j] == TAB { tabs := tabs + 1; }
      }
      assert chars[..|chars|] == chars;
      var buffer := new char[|chars| + tabs * 8 + 1];
      var idx := 0;
      for j := 0 to |chars|
        invariant idx < buffer.Length && buffer[..idx] == Expand(chars[..j])
      {
        ExpandOneMore(chars, j);
        if chars[j] == TAB {
          ghost var start := idx;
          idx := RenderTab(buffer, idx);
          assert buffer[..idx] == buffer[..start] + buffer[start..idx];
        } else {
          buffer[idx] := chars[j];
          idx := idx + 1;
        }
      }
      buffer[idx] := NUL;
      render := buffer[..idx];
    }

    static lemma ExpandOneMore(chars: string, j: nat)
      requires j < |chars|
      ensures var head := Expand(chars[..j]);
              && Expand(chars[..j + 1]) == head + (if chars[j] == TAB then Spaces(TabWidth(|head|)) else [chars[j]])
              && |Expand(chars[..j + 1])| < |chars| + TabCount(chars) * 8 + 1
    {
      assert chars[..j + 1][..j] == chars[..j];
      ExpandFits(chars[..j + 1]);
      TabCountPrefix(chars, j + 1);
    }

    static lemma TabStopsBetween(start: nat, idx: nat)
      requires start < idx <= start + TabWidth(start)
      ensures (idx + 1) % 8 == 0 <==> idx == start + TabWidth(start)
    {
      if idx < start + TabWidth(start) { TabStopsAtFirst(start, idx - start); }
    }

    method UpdateRow(k: nat)
      requires k < |row| && 0 <= numrows <= |row| && PaintedAbove(row, k)
      requires forall j :: k <= j < |row| ==> row[j].idx == j
      requires syntax.Some? ==> syntax.value.Valid()
      modifies `row
      ensures row == SetChars(syntax, old(row), k, numrows, old(row[k].chars))
    {
      var render := RenderRow(row[k].chars);
      row := row[k := row[k].(render := render)];
      UpdateSyntax(k);
    }

    /** InsertRow's memmove and renumbering. */
    method OpenRow(at: nat)
      requires at <= |row|
      modifies `row
      ensures row == Shifted(old(row), at)
    {
      ghost var rows := row;
      row := row[..at] + [EditorRow(at, "", "", [], false)] + row[at..];
      for j := at + 1 to |row|
        invariant |row| == |rows| + 1
        invariant forall i :: 0 <= i < j ==> row[i] == Shifted(rows, at)[i]
        invariant forall i :: j <= i < |row| ==> row[i] == rows[i - 1]
      {
        row := row[j := row[j].(idx := row[j].idx + 1)];
      }
    }

    method InsertRow(at: int, s: string)
      requires Consistent()
      modifies `row, `numrows, `dirty
      ensures Consistent()
      ensures 0 <= at <= old(numrows) ==>
        && row == Added(syntax, old(row), at, s)
        && Chars(row) == InsertAt(old(Chars(row)), at, [s])
        && dirty == old(dirty) + 1
      ensures !(0 <= at <= old(numrows)) ==> row == old(row) && dirty == old(dirty)
    {
      if at < 0 || at > numrows {
        return;
      }
      CachedIsPainted(row);
      InsertedKeepsCaches(syntax, row, at, s);
      ghost var rows := row;
      OpenRow(at);
      ghost var shifted := row;
      row := row[at := row[at].(chars := s)];
      assert at > 0 ==> row[at - 1] == rows[at - 1];
      UpdateRow(at);
      assert shifted[at := shifted[at].(chars := s)][at := shifted[at].(chars := s, render := Expand(s))]
          == shifted[at := shifted[at].(chars := s, render := Expand(s))];
      numrows := numrows + 1;
      dirty := dirty + 1;
    }

    method DeleteRow(at: int)
      requires Consistent()
      modifies `row, `numrows, `dirty
      ensures Consistent()
      ensures 0 <= at < old(numrows) ==>
        && row == Removed(syntax, old(row), at)
        && Chars(row) == RemoveAt(old(Chars(row)), at)
        && dirty == old(dirty) + 1
      ensures !(0 <= at < old(numrows)) ==> row == old(row) && dirty == old(dirty)
    {
      if at < 0 || at >= numrows {
        return;
      }
      ghost var rows := row;
      CachedIsPainted(row);
      row := row[..at] + row[at + 1..];
      for j := at to numrows - 1
        invariant |row| == |rows| - 1 && numrows == |rows| && dirty == old(dirty)
        invariant forall i :: 0 <= i < |row| ==> row[i] == rows[if i < at then i else i + 1].(idx := row[i].idx)
        invariant forall i :: 0 <= i < j ==> row[i].idx == i
        invariant forall i :: 0 <= i < at ==> row[i] == rows[i]
      {
        row := row[j := row[j].(idx := j)];
      }
      forall i | 0 <= i < |row|
        ensures RowCached(row, i)
      {
        assert RowCached(rows, if i < at then i else i + 1);
      }
      numrows := numrows - 1;
      dirty := dirty + 1;
    }

    /** What the three in-row changes share: new characters for row k, then UpdateRow. */
    method ChangeRow(k: nat, chars: string)
      requires Consistent() && k < numrows
      modifies `row, `dirty
      ensures Consistent() && numrows == |row| && dirty == old(dirty) + 1
      ensures row == Changed(syntax, old(row), k, chars) && Chars(row) == old(Chars(row))[k := chars]
    {
      CachedIsPainted(row);
      ghost var rows := row;
      SetCharsKeepsCaches(syntax, row, k, numrows, chars);
      row := row[k := row[k].(chars := chars)];
      UpdateRow(k);
      assert rows[k := rows[k].(chars := chars)][k := rows[k].(chars := chars, render := Expand(chars))]
          == rows[k := rows[k].(chars := chars, render := Expand(chars))];
      dirty := dirty + 1;
    }

    method RowInsertChar(k: nat, at: int, c: char)
      requires Consistent() && k < numrows && 0 <= at
      modifies `row, `dirty
      ensures Consistent() && dirty == old(dirty) + 1
      ensures var chars := InsertInRow(old(row)[k].chars, at, c);
        row == Changed(syntax, old(row), k, chars) && Chars(row) == old(Chars(row))[k := chars]
    {
      var column := if at > |row[k].chars| then |row[k].chars| else at;
      ChangeRow(k, row[k].chars[..column] + [c] + row[k].chars[column..]);
    }

    method RowAppendString(k: nat, s: string)
      requires Consistent() && k < numrows
      modifies `row, `dirty
      ensures Consistent() && dirty == old(dirty) + 1
      ensures var chars := old(row)[k].chars + s;
        row == Changed(syntax, old(row), k, chars) && Chars(row) == old(Chars(row))[k := chars]
    {
      ChangeRow(k, row[k].chars + s);
    }

    method RowDeleteChar(k: nat, at: int)
      requires Consistent() && k < numrows
      modifies `row, `dirty
      ensures Consistent()
      ensures 0 <= at < |old(row)[k].chars| ==>
        var chars := RemoveAt(old(row)[k].chars, at);
        && row == Changed(syntax, old(row), k, chars)
        && Chars(row) == old(Chars(row))[k := chars] && dirty == old(dirty) + 1
      ensures !(0 <= at < |old(row)[k].chars|) ==> row == old(row) && dirty == old(dirty)
    {
      if at < 0 || at >= |row[k].chars| {
        return;
      }
      ChangeRow(k, row[k].chars[..at] + row[k].chars[at + 1..]);
    }

    // ----- the cursor ----------------------------------------------------

    method ScrollScreen()
      modifies `cy, `rowoff, `coloff
      ensures View() == V.Scroll(old(View()))
    {
      if cy < 0 { cy := 0; }
      if cy >= screenrows { cy := screenrows - 1; }
      var filerow := rowoff + cy;
      if filerow < rowoff { rowoff := filerow; }
      if filerow >= rowoff + screenrows { rowoff := filerow - screenrows + 1; }
      var filecol := coloff + cx;
      if filecol < coloff { coloff := filecol; }
      if filecol >= coloff + screencols { coloff := filecol - screencols + 1; }
    }

    method MoveLeft()
      requires Consistent() && View().Sane() && LeftIsInArray(View())
      modifies `cx, `cy, `coloff
      ensures View() == StepLeft(old(View()))
    {
      var filerow := rowoff + cy;
      if cx == 0 {
        if coloff > 0 {
          coloff := coloff - 1;
        } else if filerow > 0 {
          cy := cy - 1;
          cx := |row[filerow - 1].chars|;
          if cx > screencols - 1 {
            coloff := cx - screencols + 1;
            cx := screencols - 1;
          }
        }
      } else {
        cx := cx - 1;
      }
    }

    method MoveRight()
      requires Consistent() && View().Sane()
      modifies `cx, `cy, `rowoff, `coloff
      ensures View() == StepRight(old(View()))
    {
      var filerow, filecol := rowoff + cy, coloff + cx;
      if filerow < numrows && filecol < |row[filerow].chars| {
        if cx == screencols - 1 { coloff := coloff + 1; } else { cx := cx + 1; }
      } else if filerow < numrows && filecol == |row[filerow].chars| {
        cx, coloff := 0, 0;
        if cy == screenrows - 1 { rowoff := rowoff + 1; } else { cy := cy + 1; }
      }
    }

    method MoveVertically(key: Key)
      requires Consistent() && View().Sane() && (key == Up || key == Down)
      modifies `cy, `rowoff
      ensures View() == if key == Up then StepUp(old(View())) else StepDown(old(View()))
    {
      var filerow := rowoff + cy;
      if key == Up {
        if cy == 0 {
          if rowoff > 0 { rowoff := rowoff - 1; }
        } else {
          cy := cy - 1;
        }
      } else {
        if filerow < numrows {
          if cy == screenrows - 1 { rowoff := rowoff + 1; } else { cy := cy + 1; }
        }
      }
    }

    method ClampCursor()
      requires Consistent() && 0 <= View().FileRow()
      modifies `cx, `coloff
      ensures View() == ClampColumn(old(View()))
    {
      var filerow, filecol := rowoff + cy, coloff + cx;
      var rowlen := if filerow >= numrows then 0 else |row[filerow].chars|;
      if filecol > rowlen {
        cx := cx - (filecol - rowlen);
        if cx < 0 {
          coloff := coloff + cx;
          cx := 0;
        }
      }
    }

    method MoveCursor(key: Key)
      requires Consistent() && View().Sane() && (key == Left ==> LeftIsInArray(View()))
      modifies `cx, `cy, `rowoff, `coloff
      ensures View() == V.MoveCursor(old(View()), key)
    {
      match key {
        case Left => MoveLeft();
        case Right => MoveRight();
        case Up => MoveVertically(key);
        case Down => MoveVertically(key);
        case _ =>
      }
      ClampCursor();
    }

    // ----- editing -------------------------------------------------------

    /** Empty rows until row `filerow` exists. */
    method PadRows(filerow: nat)
      requires Consistent()
      modifies `row, `numrows, `dirty
      ensures Consistent() && row == PaddedRows(syntax, old(row), filerow + 1)
      ensures dirty == old(dirty) + |row| - |old(row)|
    {
      while numrows <= filerow
        invariant Consistent() && dirty == old(dirty) + |row| - |old(row)|
        invariant PaddedRows(syntax, row, filerow + 1) == PaddedRows(syntax, old(row), filerow + 1)
      {
        InsertRow(numrows, "");
      }
    }

    method AdvanceCursor()
      modifies `cx, `coloff
      ensures View() == AdvanceColumn(old(View()))
    {
      if cx == screencols - 1 { coloff := coloff + 1; } else { cx := cx + 1; }
    }

    method InsertChar(c: char)
      requires Consistent() && View().Sane()
      modifies `row, `numrows, `dirty, `cx, `coloff
      ensures Consistent() && View() == V.InsertChar(old(View()), c)
      ensures row == TypedRows(syntax, old(row), old(View()).FileRow(), old(View()).FileCol(), c)
      ensures dirty > old(dirty) && Chars(row) != old(Chars(row))
    {
      TypeInto(rowoff + cy, coloff + cx, c);
      AdvanceCursor();
    }

    /** The row part of InsertChar. */
    method TypeInto(filerow: nat, filecol: nat, c: char)
      requires Consistent()
      modifies `row, `numrows, `dirty
      ensures Consistent() && row == TypedRows(syntax, old(row), filerow, filecol, c)
      ensures var padded := Padded(old(Chars(row)), filerow + 1);
        Chars(row) == padded[filerow := InsertInRow(padded[filerow], filecol, c)]
      ensures dirty > old(dirty) && Chars(row) != old(Chars(row))
    {
      TypedChars(syntax, row, filerow, filecol, c);
      TypingChanges(Chars(row), filerow, filecol, c);
      PadRows(filerow);
      RowInsertChar(filerow, filecol, c);
    }

    static lemma TypingChanges(rows: seq<string>, r: nat, col: nat, c: char)
      ensures var padded := Padded(rows, r + 1); padded[r := InsertInRow(padded[r], col, c)] != rows
    {
      var padded := Padded(rows, r + 1);
      assert r < |rows| ==> |padded[r := InsertInRow(padded[r], col, c)][r]| == |rows[r]| + 1;
    }

    method AdvanceToNextRow()
      modifies `cx, `cy, `rowoff, `coloff
      ensures View() == StepDownOneRow(old(View())).(cx := 0, coloff := 0)
    {
      if cy == screenrows - 1 { rowoff := rowoff + 1; } else { cy := cy + 1; }
      cx, coloff := 0, 0;
    }

    /** The part of row `filerow` from `filecol` on becomes a row of its own. */
    method SplitRow(filerow: nat, filecol: nat)
      requires Consistent() && filerow < numrows && filecol <= |row[filerow].chars|
      modifies `row, `numrows, `dirty
      ensures Consistent() && dirty == old(dirty) + 1
      ensures row == E.SplitRows(syntax, old(row), filerow, filecol)
    {
      ghost var before := Chars(row);
      InsertRow(filerow + 1, row[filerow].chars[filecol..]);
      assert Chars(row)[filerow] == before[filerow];
      CutRow(filerow, filecol);
    }

    /** The end of row `filerow` is cut off in place, without marking a change. */
    method CutRow(filerow: nat, filecol: nat)
      requires Consistent() && filerow < numrows && filecol <= |row[filerow].chars|
      modifies `row
      ensures Consistent() && row == Changed(syntax, old(row), filerow, old(row)[filerow].chars[..filecol])
    {
      CachedIsPainted(row);
      ghost var rows, head := row, row[filerow].chars[..filecol];
      SetCharsKeepsCaches(syntax, row, filerow, numrows, head);
      row := row[filerow := row[filerow].(chars := row[filerow].chars[..filecol])];
      UpdateRow(filerow);
      assert rows[filerow := rows[filerow].(chars := head)]
                 [filerow := rows[filerow].(chars := head, render := Expand(head))]
          == rows[filerow := rows[filerow].(chars := head, render := Expand(head))];
    }

    method InsertNewline()
      requires Consistent() && View().Sane()
      modifies `row, `numrows, `dirty, `cx, `cy, `rowoff, `coloff
      ensures Consistent() && View() == V.InsertNewline(old(View()))
      ensures row == BrokenRows(syntax, old(row), old(View()).FileRow(), old(View()).FileCol())
      ensures dirty >= old(dirty) && (dirty > old(dirty) <==> Chars(row) != old(Chars(row)))
    {
      BreakRow(rowoff + cy, coloff + cx);
      AdvanceToNextRow();
    }

    /** The row part of InsertNewline. */
    method BreakRow(filerow: nat, column: nat)
      requires Consistent()
      modifies `row, `numrows, `dirty
      ensures Consistent() && row == BrokenRows(syntax, old(row), filerow, column)
      ensures Chars(row) == BrokenAt(old(Chars(row)), filerow, column)
      ensures dirty >= old(dirty) && (dirty > old(dirty) <==> Chars(row) != old(Chars(row)))
    {
      BrokenChars(syntax, row, filerow, column);
      BreakingChanges(Chars(row), filerow, column);
      var filecol := column;
      if filerow >= numrows {
        if filerow == numrows {
          InsertRow(filerow, "");
        }
      } else {
        if filecol > |row[filerow].chars| {
          filecol := |row[filerow].chars|;
        }
        if filecol == 0 {
          InsertRow(filerow, "");
        } else {
          SplitRow(filerow, filecol);
        }
      }
    }

    static lemma BreakingChanges(rows: seq<string>, r: nat, column: nat)
      ensures |BrokenAt(rows, r, column)| == if r <= |rows| then |rows| + 1 else |rows|
      ensures BrokenAt(rows, r, column) == rows <==> r > |rows|
    {}

    /** Row `filerow` is appended to the row above and removed. */
    method JoinRow(filerow: nat)
      requires Consistent() && 0 < filerow < numrows
      modifies `row, `numrows, `dirty
      ensures Consistent() && dirty == old(dirty) + 2
      ensures row == E.JoinedRows(syntax, old(row), filerow)
      ensures Chars(row) == JoinWithPrevious(old(Chars(row)), filerow)
    {
      E.JoinedChars(syntax, row, filerow);
      RowAppendString(filerow - 1, row[filerow].chars);
      DeleteRow(filerow);
    }

    method DeleteChar()
      requires Consistent() && View().Sane()
      modifies `row, `numrows, `dirty, `cx, `cy, `rowoff, `coloff
      ensures Consistent() && View() == V.DeleteChar(old(View()))
      ensures row == ErasedRows(syntax, old(row), old(View()).FileRow(), old(View()).FileCol())
      ensures dirty >= old(dirty) && (dirty > old(dirty) <==> Chars(row) != old(Chars(row)))
    {
      var filerow, filecol := rowoff + cy, coloff + cx;
      if filerow >= numrows || (filecol == 0 && filerow == 0) {
        return;
      }
      if filecol == 0 {
        JoinUp();
      } else {
        EraseHere();
      }
    }

    /** DeleteChar behind the start of a row. */
    method EraseHere()
      requires Consistent() && View().Sane() && View().FileRow() < |row| && 0 < View().FileCol()
      modifies `row, `dirty, `cx, `coloff
      ensures Consistent() && View() == V.DeleteChar(old(View()))
      ensures row == ErasedRows(syntax, old(row), old(View()).FileRow(), old(View()).FileCol())
      ensures dirty >= old(dirty) && (dirty > old(dirty) <==> Chars(row) != old(Chars(row)))
    {
      EraseInRow(rowoff + cy, coloff + cx);
      BackOneColumn();
    }

    method BackOneColumn()
      modifies `cx, `coloff
      ensures View() == BackOne(old(View()))
    {
      if cx == 0 && coloff > 0 { coloff := coloff - 1; } else { cx := cx - 1; }
    }

    /** DeleteChar inside a row, or behind its end, where it only moves the cursor. */
    method EraseInRow(filerow: nat, filecol: nat)
      requires Consistent() && filerow < numrows && 0 < filecol
      modifies `row, `dirty
      ensures Consistent() && row == ErasedRows(syntax, old(row), filerow, filecol)
      ensures var chars := old(row)[filerow].chars;
        Chars(row) == old(Chars(row))[filerow := if filecol <= |chars| then RemoveAt(chars, filecol - 1) else chars]
      ensures dirty >= old(dirty) && (dirty > old(dirty) <==> Chars(row) != old(Chars(row)))
    {
      ghost var before := Chars(row);
      RowDeleteChar(filerow, filecol - 1);
      assert filecol <= |before[filerow]| ==> |Chars(row)[filerow]| < |before[filerow]|;
    }

    /** DeleteChar at the start of a row. */
    method JoinUp()
      requires Consistent() && View().Sane() && 0 < View().FileRow() < |row| && View().FileCol() == 0
      modifies `row, `numrows, `dirty, `cx, `cy, `rowoff, `coloff
      ensures Consistent() && View() == V.DeleteChar(old(View()))
      ensures row == E.JoinedRows(syntax, old(row), old(View()).FileRow())
      ensures dirty > old(dirty) && Chars(row) != old(Chars(row))
    {
      var filerow := rowoff + cy;
      var filecol := |row[filerow - 1].chars|;
      JoinRow(filerow);
      MoveToJoint(filecol);
    }

    method MoveToJoint(filecol: nat)
      modifies `cx, `cy, `rowoff, `coloff
      ensures View() == ToJoint(old(View()), filecol)
    {
      if cy == 0 { rowoff := rowoff - 1; } else { cy := cy - 1; }
      cx := filecol;
      if cx >= screencols {
        var shift := cx - screencols + 1;
        cx := cx - shift;
        coloff := coloff + shift;
      }
    }

    // ----- keys ----------------------------------------------------------

    method EndOfLine()
      requires Consistent() && View().Sane()
      modifies `cx, `coloff
      ensures View() == EndOfRow(old(View()))
    {
      var filerow := rowoff + cy;
      if filerow < numrows {
        cx := |row[filerow].chars|;
        if cx >= screencols {
          coloff := cx - screencols + 1;
          cx := screencols - 1;
        } else {
          coloff := 0;
        }
      }
    }

    static lemma RepeatFirst(v: V.View, move: Key, times: nat)
      requires v.Sane() && (move == Up || move == Down) && times > 0
      ensures V.MoveCursor(v, move).Sane()
      ensures Repeat(v, move, times) == Repeat(V.MoveCursor(v, move), move, times - 1)
    {}

    method RepeatMove(move: Key, count: nat)
      requires Consistent() && View().Sane() && (move == Up || move == Down)
      modifies `cx, `cy, `rowoff, `coloff
      ensures View() == Repeat(old(View()), move, count)
    {
      var times: nat := count;
      while times > 0
        invariant times <= count && View().Sane()
        invariant Repeat(View(), move, times) == Repeat(old(View()), move, count)
      {
        RepeatFirst(View(), move, times);
        MoveCursor(move);
        times := times - 1;
      }
    }

    method Page(key: Key)
      requires Consistent() && View().Sane() && (key == PageUp || key == PageDown)
      modifies `cx, `cy, `rowoff, `coloff
      ensures View() == Press(old(View()), key)
    {
      cy := if key == PageUp then 0 else screenrows - 1;
      RepeatMove(if key == PageUp then Up else Down, screenrows);
    }

    method ProcessKeypress(key: Key)
      requires Consistent() && View().Sane() && (key == Left ==> LeftIsInArray(View()))
      modifies `row, `numrows, `dirty, `cx, `cy, `rowoff, `coloff
      ensures Consistent() && View() == Press(old(View()), key)
      ensures row == RowsAfter(syntax, old(row), old(View()), key)
      ensures dirty >= old(dirty) && (dirty > old(dirty) <==> Chars(row) != old(Chars(row)))
    {
      match key {
        case Enter => InsertNewline();
        case Backspace => DeleteChar();
        case Delete => DeleteForward();
        case Byte(c) => if IsPrint(c) || c == TAB { InsertChar(c); }
        case _ => MoveByKey(key);
      }
    }

    method DeleteForward()
      requires Consistent() && View().Sane()
      modifies `row, `numrows, `dirty, `cx, `cy, `rowoff, `coloff
      ensures Consistent() && View() == Press(old(View()), Delete)
      ensures row == RowsAfter(syntax, old(row), old(View()), Delete)
      ensures dirty >= old(dirty) && (dirty > old(dirty) <==> Chars(row) != old(Chars(row)))
    {
      ghost var before := View();
      MoveCursor(Right);
      DeleteInSteps(syntax, row, before, View());
      DeleteChar();
    }

    /** The keys that only move the cursor. */
    method MoveByKey(key: Key)
      requires Consistent() && View().Sane() && (key == Left ==> LeftIsInArray(View()))
      requires !key.Byte? && key != Enter && key != Backspace && key != Delete
      modifies `cx, `cy, `rowoff, `coloff
      ensures View() == Press(old(View()), key)
    {
      match key {
        case PageUp => Page(key);
        case PageDown => Page(key);
        case Home => cx, coloff := 0, 0;
        case End => EndOfLine();
        case Left => MoveCursor(key);
        case Right => MoveCursor(key);
        case Up => MoveCursor(key);
        case Down => MoveCursor(key);
        case Ignored =>
      }
    }

    /** The loop of Run, from a screen just refreshed to the refresh after the last key. */
    method RunKeys(keys: seq<Key>)
      requires Consistent() && View().Sane() && C.InArrayRun(View(), keys)
      modifies `row, `numrows, `dirty, `cx, `cy, `rowoff, `coloff
      ensures Consistent() && View() == C.Run(old(View()), keys)
      ensures row == K.RowsAfterRun(syntax, old(row), old(View()), keys)
      ensures dirty >= old(dirty) && (Chars(row) != old(Chars(row)) ==> dirty > old(dirty))
      ensures syntax.Some? && AllRight(syntax.value, old(row)) ==>
        K.RunFallsShort(syntax.value, old(row), old(View()), keys) || AllRight(syntax.value, row)
    {
      ghost var start, rows := View(), row;
      assert keys[0..] == keys;
      for i := 0 to |keys|
        invariant Consistent() && View().Sane() && C.InArrayRun(View(), keys[i..])
        invariant C.Run(View(), keys[i..]) == C.Run(start, keys)
        invariant K.RowsAfterRun(syntax, row, View(), keys[i..]) == K.RowsAfterRun(syntax, rows, start, keys)
        invariant dirty >= old(dirty) && (Chars(row) != old(Chars(row)) ==> dirty > old(dirty))
      {
        K.RunStep(syntax, row, View(), keys, i);
        ProcessKeypress(keys[i]);
        ScrollScreen();
      }
      if syntax.Some? && AllRight(syntax.value, rows) && !K.RunFallsShort(syntax.value, rows, start, keys) {
        K.RunEndsRight(syntax.value, rows, start, keys);
      }
    }

    /** RefreshScreen's column for the terminal cursor; behind its row each place is one wide. */
    method CursorColumn() returns (column: int)
      requires Consistent() && View().Sane()
      ensures View().FileRow() < numrows ==>
        var at := View().FileCol();
        column == ComputedColumn(SpacedTo(row[View().FileRow()].chars, at), coloff, at)
      ensures View().FileRow() >= numrows ==> column == 1
    {
      column := 1;
      var filerow := rowoff + cy;
      if filerow < numrows {
        column := ColumnOf(row[filerow].chars, coloff, coloff + cx);
      }
    }

    static method ColumnOf(chars: string, first: nat, end: nat) returns (column: int)
      requires first <= end
      ensures column == ComputedColumn(SpacedTo(chars, end), first, end)
    {
      ghost var spaced := SpacedTo(chars, end);
      column := 1;
      for j := first to end
        invariant column == 1 + Columns(0, spaced[first..j])
      {
        OneColumnMore(spaced, first, j);
        if j < |chars| && chars[j] == TAB {
          column := column + (7 - column % 8);
        }
        column := column + 1;
      }
    }

    static lemma OneColumnMore(s: string, first: nat, j: nat)
      requires first <= j < |s|
      ensures var col := Columns(0, s[first..j]);
        Columns(0, s[first..j + 1]) == if s[j] == TAB then col + TabWidth(col) else col + 1
    {
      assert s[first..j + 1][..j - first] == s[first..j];
    }

    // ----- files ---------------------------------------------------------

    /** Highlighting by file name: choose the syntax, then colour every row. */
    method SelectSyntaxHighlight(filename: string)
      requires Consistent() && FreshFrom(row, 0)
      modifies `row, `syntax
      ensures Consistent() && Chars(row) == old(Chars(row))
      ensures syntax == KiloLanguages.SyntaxFor(filename)
      ensures syntax.Some? ==> AllRight(syntax.value, row)
      ensures syntax == None ==> row == old(row)
    {
      syntax := None;
      var i := 0;
      while i < |KiloLanguages.C_EXTENSIONS|
        invariant i <= |KiloLanguages.C_EXTENSIONS|
        invariant forall k :: 0 <= k < i ==> !KiloLanguages.PatternMatches(filename, KiloLanguages.C_EXTENSIONS[k])
        invariant syntax == None && row == old(row)
      {
        if KiloLanguages.PatternMatches(filename, KiloLanguages.C_EXTENSIONS[i]) {
          KiloLanguages.CSyntaxIsRegular();
          syntax := Some(KiloLanguages.C_SYNTAX);
          ColourAllRows();
          return;
        }
        i := i + 1;
      }
    }

    method ColourAllRows()
      requires Consistent() && FreshFrom(row, 0) && syntax.Some?
      modifies `row
      ensures Consistent() && Chars(row) == old(Chars(row))
      ensures AllRight(syntax.value, row)
    {
      CachedIsPainted(row);
      ghost var rows, syn := row, syntax.value;
      for k := 0 to numrows
        invariant |row| == |rows| && row == FullPass(syn, rows, k)
      {
        FullPassStep(syn, rows, k);
        UpdateSyntax(k);
      }
      PassOverAll(syn, rows);
    }

    static lemma PassOverAll(syn: EditorSyntax, rows: seq<EditorRow>)
      requires syn.Valid() && Cached(rows) && Painted(rows) && FreshFrom(rows, 0)
      ensures var r := FullPass(syn, rows, |rows|);
        AllRight(syn, r) && Cached(r) && Chars(r) == Chars(rows)
    {
      FullPassIsRight(syn, rows);
      FullPassKeepsCaches(syn, rows);
    }

    method ClearEditor()
      requires syntax.Some? ==> syntax.value.Valid()
      modifies `row, `numrows, `dirty, `cx, `cy, `rowoff, `coloff
      ensures Consistent() && row == [] && dirty == 0
      ensures cx == 0 && cy == 0 && rowoff == 0 && coloff == 0
    {
      row, numrows, dirty := [], 0, 0;
      cx, cy, rowoff, coloff := 0, 0, 0, 0;
    }

    /** Open. `found` is what the file system answers for the path. */
    method Open(path: string, found: Lookup) returns (rc: int)
      requires syntax == None
      modifies this
      ensures rc == if Managed(path, FS_PATH_SIZE).Err? then Managed(path, FS_PATH_SIZE).code else StatusOf(found)
      ensures Consistent() && dirty == 0 && cx == cy == rowoff == coloff == 0
      ensures screenrows == old(screenrows) && screencols == old(screencols)
      ensures filename == Truncate(path, FILENAME_SIZE)
      ensures rc == 0 ==> Chars(row) == Lines("", Content(found)) && syntax == KiloLanguages.SyntaxFor(filename)
      ensures rc == 0 && syntax.Some? ==> AllRight(syntax.value, row)
      ensures rc != 0 ==> row == [] && syntax == None
    {
      ClearEditor();
      filename := Truncate(path, FILENAME_SIZE);
      var target := Managed(path, FS_PATH_SIZE);
      if target.Err? {
        return target.code;
      }
      match found {
        case LookupFailed(code) => rc := code;
        case Missing =>
          SelectSyntaxHighlight(filename);
          rc := 0;
        case Directory => rc := -EISDIR;
        case OpenFailed(code) => rc := code;
        case Opened(chunks, status) =>
          rc := ReadFile(chunks, status);
          if rc == 0 {
            dirty := 0;
            SelectSyntaxHighlight(filename);
          }
      }
    }

    /** Open on a file whose reads return `chunks` one after the other and then `status`,
        0 for the end of the file. The line buffer doubles whenever a character and its
        terminator would not fit. */
    method ReadFile(chunks: seq<string>, status: Status) returns (rc: int)
      requires Consistent() && row == [] && syntax == None && dirty == 0 && cx == cy == rowoff == coloff == 0
      modifies `row, `numrows, `dirty, `cx, `cy, `rowoff, `coloff
      ensures rc == status && cx == cy == rowoff == coloff == 0
      ensures Consistent() && FreshFrom(row, 0)
      ensures rc == 0 ==> Chars(row) == Lines("", Concat(chunks))
      ensures rc != 0 ==> row == [] && dirty == 0
    {
      var line := new char[256];
      var len: nat := 0;
      assert chunks[0..] == chunks && line[..0] == "";
      for k := 0 to |chunks|
        invariant line.Length >= 256 && len < line.Length && fresh(line)
        invariant Consistent() && FreshFrom(row, 0) && cx == cy == rowoff == coloff == 0
        invariant Chars(row) + Lines(line[..len], Concat(chunks[k..])) == Lines("", Concat(chunks))
      {
        assert chunks[k..][0] == chunks[k] && chunks[k..][1..] == chunks[k + 1..];
        line, len := ReadChunk(chunks[k], line, len, Concat(chunks[k + 1..]));
      }
      assert chunks[|chunks|..] == [];
      assert Chars(row) + Lines(line[..len], "") == Lines("", Concat(chunks));
      if status != 0 {
        ClearEditor();
        return status;
      }
      if len > 0 {
        AppendFreshRow(line[..len]);
      }
      rc := 0;
    }

    /** The characters of one read, with `later` still to come. */
    method ReadChunk(chunk: string, buffer: array<char>, length: nat, ghost later: string)
      returns (line: array<char>, len: nat)
      requires Consistent() && FreshFrom(row, 0) && syntax == None
      requires 256 <= buffer.Length && length < buffer.Length
      modifies `row, `numrows, `dirty, buffer
      ensures Consistent() && FreshFrom(row, 0)
      ensures 256 <= line.Length && len < line.Length && (line == buffer || fresh(line))
      ensures Chars(row) + Lines(line[..len], later) == old(Chars(row)) + Lines(old(buffer[..length]), chunk + later)
    {
      line, len := buffer, length;
      assert chunk[0..] + later == chunk + later;
      for i := 0 to |chunk|
        invariant Consistent() && FreshFrom(row, 0)
        invariant 256 <= line.Length && len < line.Length && (line == buffer || fresh(line))
        invariant Chars(row) + Lines(line[..len], chunk[i..] + later)
               == old(Chars(row)) + Lines(old(buffer[..length]), chunk + later)
      {
        ghost var rest := chunk[i + 1..] + later;
        assert chunk[i..] + later == [chunk[i]] + rest;
        line, len := ReadChar(chunk[i], line, len, rest);
      }
      assert chunk[|chunk|..] + later == later;
    }

    /** One character of them. */
    method ReadChar(ch: char, buffer: array<char>, length: nat, ghost rest: string)
      returns (line: array<char>, len: nat)
      requires Consistent() && FreshFrom(row, 0) && syntax == None
      requires 256 <= buffer.Length && length < buffer.Length
      modifies `row, `numrows, `dirty, buffer
      ensures Consistent() && FreshFrom(row, 0)
      ensures 256 <= line.Length && len < line.Length && (line == buffer || fresh(line))
      ensures Chars(row) + Lines(line[..len], rest) == old(Chars(row)) + Lines(old(buffer[..length]), [ch] + rest)
    {
      line, len := buffer, length;
      ghost var soFar := line[..len];
      assert ([ch] + rest)[1..] == rest;
      if ch == '\n' {
        if len > 0 && line[len - 1] == '\r' {
          len := len - 1;
        }
        assert line[..len] == StripCr(soFar);
        AppendFreshRow(line[..len]);
        len := 0;
        return;
      }
      if len + 1 >= line.Length {
        line := GrownBuffer(line, len);
      }
      line[len] := ch;
      len := len + 1;
      line[len] := NUL;
      assert line[..len] == soFar + [ch];
    }

    static method GrownBuffer(line: array<char>, len: nat) returns (next: array<char>)
      requires len < line.Length
      ensures fresh(next) && next.Length == 2 * line.Length && next[..len] == line[..len]
    {
      next := new char[line.Length * 2];
      for j := 0 to len
        invariant next[..j] == line[..j]
      {
        next[j] := line[j];
      }
    }

    method AppendFreshRow(chars: string)
      requires Consistent() && FreshFrom(row, 0) && syntax == None
      modifies `row, `numrows, `dirty
      ensures Consistent() && FreshFrom(row, 0) && Chars(row) == old(Chars(row)) + [chars]
    {
      ghost var before := Chars(row);
      InsertRow(numrows, chars);
      assert Chars(row) == before + [chars];
    }

    /** Save. `dirsRc` is the status of creating the directories above the file, `openRc` that of
        opening it; `written` is what the file then holds. */
    method Save(dirsRc: Status, openRc: Status, medium: Medium) returns (rc: int, written: string)
      requires Consistent()
      modifies `dirty
      ensures var target, text := Managed(filename, FS_PATH_SIZE), Flatten(Chars(row));
        && rc == (if target.Err? then target.code
                  else if dirsRc != 0 then dirsRc
                  else if openRc != 0 then openRc
                  else if |text| <= medium.room then 0
                  else if medium.error != 0 then medium.error
                  else -EIO)
        && written <= text
        && (rc == 0 ==> written == text && dirty == 0)
        && (rc != 0 ==> dirty == old(dirty))
        && (target.Ok? && dirsRc == 0 && openRc == 0 && rc != 0 && medium.error == 0 ==> |written| == medium.room)
    {
      var target := Managed(filename, FS_PATH_SIZE);
      if target.Err? {
        return target.code, "";
      }
      if dirsRc != 0 {
        return dirsRc, "";
      }
      if openRc != 0 {
        return openRc, "";
      }
      rc, written := WriteRows(medium);
      if rc == 0 {
        dirty := 0;
      }
    }

    /** A write that does not return its length ends the writing. */
    method WriteRows(medium: Medium) returns (rc: int, written: string)
      requires Consistent()
      ensures var text := Flatten(Chars(row));
        && rc == (if |text| <= medium.room then 0 else if medium.error != 0 then medium.error else -EIO)
        && written <= text
        && (rc == 0 ==> written == text)
        && (rc != 0 && medium.error == 0 ==> |written| == medium.room)
    {
      written := "";
      ghost var rows := Chars(row);
      for i := 0 to numrows
        invariant |written| <= medium.room
        invariant Flatten(rows) == written + Flatten(rows[i..])
      {
        ghost var before := written;
        RowInFront(before, rows, i);
        if |row[i].chars| > 0 {
          var count;
          count, written := WriteBytes(written, row[i].chars, medium);
          if count != |row[i].chars| {
            CutShort(before, rows[i], written, Flatten(rows));
            return if count < 0 then count else -EIO, written;
          }
        }
        assert written == before + rows[i];
        var count;
        count, written := WriteBytes(written, ['\n'], medium);
        if count != 1 {
          return if count < 0 then count else -EIO, written;
        }
      }
      rc := 0;
    }

    /** fs_write on a file that already holds `file`. */
    static method WriteBytes(file: string, bytes: string, medium: Medium) returns (count: int, written: string)
      requires |file| <= medium.room && bytes != ""
      ensures var room := medium.room - |file|;
        if |bytes| <= room then count == |bytes| && written == file + bytes
        else if medium.error != 0 then count == medium.error && written == file
        else count == room && written == file + bytes[..room]
    {
      var room := medium.room - |file|;
      if |bytes| <= room {
        return |bytes|, file + bytes;
      }
      if medium.error != 0 {
        return medium.error, file;
      }
      return room, file + bytes[..room];
    }

    static lemma RowInFront(before: string, rows: seq<string>, i: nat)
      requires i < |rows| && Flatten(rows) == before + Flatten(rows[i..])
      ensures Flatten(rows) == before + rows[i] + ['\n'] + Flatten(rows[i + 1..])
    {
      assert rows[i..][0] == rows[i] && rows[i..][1..] == rows[i + 1..];
    }

    static lemma CutShort(before: string, chars: string, written: string, text: string)
      requires before + chars <= text && before <= written <= before + chars
      ensures written <= text
    {}
  }
}

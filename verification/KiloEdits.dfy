/** What each key does to the row array, colours and flags included. */
module KiloEdits {
  import opened CString
  import opened KiloView
  import opened KiloSyntax
  import opened KiloRows

  lemma CachedIsPainted(rows: seq<EditorRow>)
    requires Cached(rows)
    ensures Painted(rows) && forall k :: 0 <= k < |rows| ==> rows[k].idx == k
  {
    forall k | 0 <= k < |rows|
      ensures |rows[k].hl| == |rows[k].render| && rows[k].idx == k
    {
      assert RowCached(rows, k);
    }
  }

  lemma InsertedKeepsCaches(syntax: Option<EditorSyntax>, rows: seq<EditorRow>, at: nat, chars: string)
    requires (syntax.Some? ==> syntax.value.Valid()) && at <= |rows| && Cached(rows) && Painted(rows)
    ensures var r := Inserted(syntax, rows, at, chars);
            && Cached(r)
            && Chars(r) == InsertAt(Chars(rows), at, [chars])
  {
    var shifted := Shifted(rows, at);
    ShiftedRows(rows, at);
    assert PaintedAbove(shifted, at) by {
      assert at > 0 ==> shifted[at - 1] == rows[at - 1];
    }
    SetCharsKeepsCaches(syntax, shifted, at, |rows|, chars);
    ShiftedChars(rows, at);
    assert Chars(shifted)[at := chars] == InsertAt(Chars(rows), at, [chars]);
  }

  lemma ShiftedRows(rows: seq<EditorRow>, at: nat)
    requires at <= |rows| && Cached(rows)
    ensures forall j :: 0 <= j <= |rows| && j != at ==> RowCached(Shifted(rows, at), j)
  {
    forall j | 0 <= j <= |rows| && j != at
      ensures RowCached(Shifted(rows, at), j)
    {
      assert RowCached(rows, if j < at then j else j - 1);
    }
  }

  lemma ShiftedChars(rows: seq<EditorRow>, at: nat)
    requires at <= |rows|
    ensures Chars(Shifted(rows, at)) == InsertAt(Chars(rows), at, [""])
  {
    var c, d := Chars(Shifted(rows, at)), InsertAt(Chars(rows), at, [""]);
    assert |c| == |d|;
    forall j | 0 <= j < |c|
      ensures c[j] == d[j]
    {
      assert j < at ==> d[j] == rows[j].chars;
      assert j > at ==> d[j] == rows[j - 1].chars;
    }
  }

  lemma DeletedKeepsCaches(rows: seq<EditorRow>, at: nat)
    requires at < |rows| && Cached(rows)
    ensures Cached(Deleted(rows, at)) && Chars(Deleted(rows, at)) == RemoveAt(Chars(rows), at)
  {
    var r := Deleted(rows, at);
    forall i | 0 <= i < |r|
      ensures RowCached(r, i)
    {
      assert RowCached(rows, if i < at then i else i + 1);
    }
  }

  // ----- the edits of one row ----------------------------------------------

  predicate Ready(syntax: Option<EditorSyntax>, rows: seq<EditorRow>) {
    (syntax.Some? ==> syntax.value.Valid()) && Cached(rows)
  }

  /** New characters for row k. */
  function Changed(syntax: Option<EditorSyntax>, rows: seq<EditorRow>, k: nat, chars: string): (r: seq<EditorRow>)
    requires Ready(syntax, rows) && k < |rows|
    ensures |r| == |rows| && Ready(syntax, r)
  {
    CachedIsPainted(rows);
    SetCharsKeepsCaches(syntax, rows, k, |rows|, chars);
    SetChars(syntax, rows, k, |rows|, chars)
  }

  lemma ChangedChars(syntax: Option<EditorSyntax>, rows: seq<EditorRow>, k: nat, chars: string)
    requires Ready(syntax, rows) && k < |rows|
    ensures Chars(Changed(syntax, rows, k, chars)) == Chars(rows)[k := chars]
  {
    CachedIsPainted(rows);
    SetCharsKeepsCaches(syntax, rows, k, |rows|, chars);
  }

  /** A new row in front of row `at`, or behind the last. */
  function Added(syntax: Option<EditorSyntax>, rows: seq<EditorRow>, at: nat, chars: string): (r: seq<EditorRow>)
    requires Ready(syntax, rows) && at <= |rows|
    ensures |r| == |rows| + 1 && Ready(syntax, r)
  {
    CachedIsPainted(rows);
    InsertedKeepsCaches(syntax, rows, at, chars);
    Inserted(syntax, rows, at, chars)
  }

  lemma AddedChars(syntax: Option<EditorSyntax>, rows: seq<EditorRow>, at: nat, chars: string)
    requires Ready(syntax, rows) && at <= |rows|
    ensures Chars(Added(syntax, rows, at, chars)) == InsertAt(Chars(rows), at, [chars])
  {
    CachedIsPainted(rows);
    InsertedKeepsCaches(syntax, rows, at, chars);
  }

  lemma AppendedChars(syntax: Option<EditorSyntax>, rows: seq<EditorRow>, chars: string)
    requires Ready(syntax, rows)
    ensures Chars(Added(syntax, rows, |rows|, chars)) == Chars(rows) + [chars]
  {
    AddedChars(syntax, rows, |rows|, chars);
  }

  /** Row `at` taken out. */
  function Removed(syntax: Option<EditorSyntax>, rows: seq<EditorRow>, at: nat): (r: seq<EditorRow>)
    requires Ready(syntax, rows) && at < |rows|
    ensures |r| == |rows| - 1 && Ready(syntax, r)
  {
    DeletedKeepsCaches(rows, at);
    Deleted(rows, at)
  }

  // ----- the edits of the keys ---------------------------------------------

  /** Empty rows until there are `n`. */
  function PaddedRows(syntax: Option<EditorSyntax>, rows: seq<EditorRow>, n: nat): (r: seq<EditorRow>)
    requires Ready(syntax, rows)
    ensures |r| >= n && Ready(syntax, r)
    decreases n - |rows|
  {
    if |rows| >= n then rows else PaddedRows(syntax, Added(syntax, rows, |rows|, ""), n)
  }

  lemma {:induction false} PaddedChars(syntax: Option<EditorSyntax>, rows: seq<EditorRow>, n: nat)
    requires Ready(syntax, rows)
    ensures Chars(PaddedRows(syntax, rows, n)) == Padded(Chars(rows), n)
    decreases n - |rows|
  {
    if |rows| < n {
      AppendedChars(syntax, rows, "");
      PaddedChars(syntax, Added(syntax, rows, |rows|, ""), n);
    }
  }

  function TypedRows(syntax: Option<EditorSyntax>, rows: seq<EditorRow>, r: nat, col: nat, c: char): (w: seq<EditorRow>)
    requires Ready(syntax, rows)
    ensures Ready(syntax, w)
  {
    var padded := PaddedRows(syntax, rows, r + 1);
    Changed(syntax, padded, r, InsertInRow(padded[r].chars, col, c))
  }

  lemma TypedChars(syntax: Option<EditorSyntax>, rows: seq<EditorRow>, r: nat, col: nat, c: char)
    requires Ready(syntax, rows)
    ensures var padded := Padded(Chars(rows), r + 1);
      Chars(TypedRows(syntax, rows, r, col, c)) == padded[r := InsertInRow(padded[r], col, c)]
  {
    var padded := PaddedRows(syntax, rows, r + 1);
    PaddedChars(syntax, rows, r + 1);
    ChangedChars(syntax, padded, r, InsertInRow(padded[r].chars, col, c));
  }

  /** The part of row r from `col` on becomes a row of its own. */
  function SplitRows(syntax: Option<EditorSyntax>, rows: seq<EditorRow>, r: nat, col: nat): (w: seq<EditorRow>)
    requires Ready(syntax, rows) && r < |rows| && col <= |rows[r].chars|
    ensures |w| == |rows| + 1 && Ready(syntax, w)
  {
    Changed(syntax, Added(syntax, rows, r + 1, rows[r].chars[col..]), r, rows[r].chars[..col])
  }

  function BrokenRows(syntax: Option<EditorSyntax>, rows: seq<EditorRow>, r: nat, column: nat): (w: seq<EditorRow>)
    requires Ready(syntax, rows)
    ensures Ready(syntax, w)
  {
    if r > |rows| then rows
    else if r == |rows| then Added(syntax, rows, r, "")
    else
      var col := if column > |rows[r].chars| then |rows[r].chars| else column;
      if col == 0 then Added(syntax, rows, r, "") else SplitRows(syntax, rows, r, col)
  }

  lemma BrokenChars(syntax: Option<EditorSyntax>, rows: seq<EditorRow>, r: nat, column: nat)
    requires Ready(syntax, rows)
    ensures Chars(BrokenRows(syntax, rows, r, column)) == BrokenAt(Chars(rows), r, column)
  {
    if r == |rows| {
      AppendedChars(syntax, rows, "");
    } else if r < |rows| {
      var col := if column > |rows[r].chars| then |rows[r].chars| else column;
      if col == 0 {
        AddedChars(syntax, rows, r, "");
      } else {
        AddedChars(syntax, rows, r + 1, rows[r].chars[col..]);
        ChangedChars(syntax, Added(syntax, rows, r + 1, rows[r].chars[col..]), r, rows[r].chars[..col]);
      }
    }
  }

  /** Row r is appended to the row above and removed. */
  function JoinedRows(syntax: Option<EditorSyntax>, rows: seq<EditorRow>, r: nat): (w: seq<EditorRow>)
    requires Ready(syntax, rows) && 0 < r < |rows|
    ensures |w| == |rows| - 1 && Ready(syntax, w)
  {
    Removed(syntax, Changed(syntax, rows, r - 1, rows[r - 1].chars + rows[r].chars), r)
  }

  function ErasedRows(syntax: Option<EditorSyntax>, rows: seq<EditorRow>, r: nat, col: nat): (w: seq<EditorRow>)
    requires Ready(syntax, rows)
    ensures Ready(syntax, w)
  {
    if r >= |rows| || (col == 0 && r == 0) then rows
    else if col == 0 then JoinedRows(syntax, rows, r)
    else if col <= |rows[r].chars| then Changed(syntax, rows, r, RemoveAt(rows[r].chars, col - 1))
    else rows
  }

  lemma JoinedChars(syntax: Option<EditorSyntax>, rows: seq<EditorRow>, r: nat)
    requires Ready(syntax, rows) && 0 < r < |rows|
    ensures Chars(JoinedRows(syntax, rows, r)) == JoinWithPrevious(Chars(rows), r)
  {
    var both := rows[r - 1].chars + rows[r].chars;
    ChangedChars(syntax, rows, r - 1, both);
    DeletedKeepsCaches(Changed(syntax, rows, r - 1, both), r);
  }

  lemma ErasedChars(syntax: Option<EditorSyntax>, rows: seq<EditorRow>, v: View)
    requires Ready(syntax, rows) && v.Sane() && v.rows == Chars(rows)
    ensures Chars(ErasedRows(syntax, rows, v.FileRow(), v.FileCol())) == DeleteChar(v).rows
  {
    var r, col := v.FileRow(), v.FileCol();
    if r < |rows| && col == 0 && r > 0 {
      JoinedChars(syntax, rows, r);
    } else if r < |rows| && 0 < col <= |rows[r].chars| {
      ChangedChars(syntax, rows, r, RemoveAt(rows[r].chars, col - 1));
    } else if r < |rows| && col > 0 {
      assert v.rows[r := v.rows[r]] == v.rows;
    }
  }

  /** The rows after a key, for a cursor as in the view. */
  function RowsAfter(syntax: Option<EditorSyntax>, rows: seq<EditorRow>, v: View, key: Key): (w: seq<EditorRow>)
    requires Ready(syntax, rows) && v.Sane()
    ensures Ready(syntax, w)
  {
    match key
    case Byte(c) =>
      if IsPrint(c) || c == TAB then TypedRows(syntax, rows, v.FileRow(), v.FileCol(), c) else rows
    case Enter => BrokenRows(syntax, rows, v.FileRow(), v.FileCol())
    case Backspace => ErasedRows(syntax, rows, v.FileRow(), v.FileCol())
    case Delete =>
      var w := MoveCursor(v, Right);
      ErasedRows(syntax, rows, w.FileRow(), w.FileCol())
    case _ => rows
  }

  /** The characters of the rows are those of the view after the key. */
  lemma RowsAfterKey(syntax: Option<EditorSyntax>, rows: seq<EditorRow>, v: View, key: Key)
    requires Ready(syntax, rows) && v.rows == Chars(rows)
    requires v.Sane() && (key == Left ==> LeftIsInArray(v))
    ensures Chars(RowsAfter(syntax, rows, v, key)) == Press(v, key).rows
  {
    match key {
      case Byte(c) => RowsAfterByte(syntax, rows, v, c);
      case Enter => RowsAfterEnter(syntax, rows, v);
      case Backspace => ErasedChars(syntax, rows, v);
      case Delete => RowsAfterDelete(syntax, rows, v);
      case _ => KeyMovesOnly(v, key);
    }
  }

  lemma RowsAfterByte(syntax: Option<EditorSyntax>, rows: seq<EditorRow>, v: View, c: char)
    requires Ready(syntax, rows) && v.rows == Chars(rows) && v.Sane()
    ensures Chars(RowsAfter(syntax, rows, v, Byte(c))) == Press(v, Byte(c)).rows
  {
    if IsPrint(c) || c == TAB { TypedChars(syntax, rows, v.FileRow(), v.FileCol(), c); }
  }

  lemma RowsAfterEnter(syntax: Option<EditorSyntax>, rows: seq<EditorRow>, v: View)
    requires Ready(syntax, rows) && v.rows == Chars(rows) && v.Sane()
    ensures Chars(RowsAfter(syntax, rows, v, Enter)) == Press(v, Enter).rows
  {
    BrokenChars(syntax, rows, v.FileRow(), v.FileCol());
  }

  /** Delete is a step to the right and Backspace from there. */
  lemma DeleteInSteps(syntax: Option<EditorSyntax>, rows: seq<EditorRow>, v: View, w: View)
    requires Ready(syntax, rows) && v.Sane() && w == MoveCursor(v, Right)
    ensures w.Sane() && Press(v, Delete) == DeleteChar(w)
    ensures RowsAfter(syntax, rows, v, Delete) == ErasedRows(syntax, rows, w.FileRow(), w.FileCol())
  {}

  lemma RowsAfterDelete(syntax: Option<EditorSyntax>, rows: seq<EditorRow>, v: View)
    requires Ready(syntax, rows) && v.rows == Chars(rows) && v.Sane()
    ensures Chars(RowsAfter(syntax, rows, v, Delete)) == Press(v, Delete).rows
  {
    ErasedChars(syntax, rows, MoveCursor(v, Right));
  }

  lemma KeyMovesOnly(v: View, key: Key)
    requires v.Sane() && (key == Left ==> LeftIsInArray(v))
    requires !key.Byte? && key != Enter && key != Backspace && key != Delete
    ensures Press(v, key).rows == v.rows
  {}

  // ----- without a syntax --------------------------------------------------

  /** Nothing in the document is coloured. */
  predicate Plain(rows: seq<EditorRow>) {
    forall k :: 0 <= k < |rows| ==> PlainRow(rows[k])
  }

  predicate PlainRow(row: EditorRow) {
    !row.hlOpenComment && |row.hl| == |row.render| && forall i :: 0 <= i < |row.hl| ==> row.hl[i] == Normal
  }

  lemma ChangedStaysPlain(rows: seq<EditorRow>, k: nat, chars: string)
    requires Ready(None, rows) && Plain(rows) && k < |rows|
    ensures Plain(Changed(None, rows, k, chars))
  {}

  lemma AddedStaysPlain(rows: seq<EditorRow>, at: nat, chars: string)
    requires Ready(None, rows) && Plain(rows) && at <= |rows|
    ensures Plain(Added(None, rows, at, chars))
  {}

  lemma {:induction false} PaddedStaysPlain(rows: seq<EditorRow>, n: nat)
    requires Ready(None, rows) && Plain(rows)
    ensures Plain(PaddedRows(None, rows, n))
    decreases n - |rows|
  {
    if |rows| < n {
      AddedStaysPlain(rows, |rows|, "");
      PaddedStaysPlain(Added(None, rows, |rows|, ""), n);
    }
  }

  lemma BrokenStaysPlain(rows: seq<EditorRow>, r: nat, column: nat)
    requires Ready(None, rows) && Plain(rows)
    ensures Plain(BrokenRows(None, rows, r, column))
  {
    if r < |rows| {
      var col := if column > |rows[r].chars| then |rows[r].chars| else column;
      if col == 0 {
        AddedStaysPlain(rows, r, "");
      } else {
        AddedStaysPlain(rows, r + 1, rows[r].chars[col..]);
        ChangedStaysPlain(Added(None, rows, r + 1, rows[r].chars[col..]), r, rows[r].chars[..col]);
      }
    } else if r == |rows| {
      AddedStaysPlain(rows, r, "");
    }
  }

  lemma ErasedStaysPlain(rows: seq<EditorRow>, r: nat, col: nat)
    requires Ready(None, rows) && Plain(rows)
    ensures Plain(ErasedRows(None, rows, r, col))
  {
    if r < |rows| && col == 0 && r > 0 {
      var both := rows[r - 1].chars + rows[r].chars;
      ChangedStaysPlain(rows, r - 1, both);
      RemovedStaysPlain(Changed(None, rows, r - 1, both), r);
    } else if r < |rows| && 0 < col <= |rows[r].chars| {
      ChangedStaysPlain(rows, r, RemoveAt(rows[r].chars, col - 1));
    }
  }

  lemma RemovedStaysPlain(rows: seq<EditorRow>, at: nat)
    requires Ready(None, rows) && Plain(rows) && at < |rows|
    ensures Plain(Removed(None, rows, at))
  {
    var r := Removed(None, rows, at);
    forall k | 0 <= k < |r|
      ensures PlainRow(r[k])
    {
      assert PlainRow(rows[if k < at then k else k + 1]);
    }
  }

  /** In a file of no known language no key colours anything. */
  lemma KeyStaysPlain(rows: seq<EditorRow>, v: View, key: Key)
    requires Ready(None, rows) && Plain(rows) && v.Sane()
    ensures Plain(RowsAfter(None, rows, v, key))
  {
    var r, col := v.FileRow(), v.FileCol();
    match key {
      case Byte(c) =>
        PaddedStaysPlain(rows, r + 1);
        var padded := PaddedRows(None, rows, r + 1);
        ChangedStaysPlain(padded, r, InsertInRow(padded[r].chars, col, c));
      case Enter => BrokenStaysPlain(rows, r, col);
      case Backspace => ErasedStaysPlain(rows, r, col);
      case Delete =>
        var w := MoveCursor(v, Right);
        ErasedStaysPlain(rows, w.FileRow(), w.FileCol());
      case _ =>
    }
  }
}

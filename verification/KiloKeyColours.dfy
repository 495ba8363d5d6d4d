/** Which keys keep a rightly coloured document rightly coloured, and over which runs. */
module KiloKeyColours {
  import opened CString
  import opened KiloView
  import opened KiloSyntax
  import opened KiloRows
  import opened KiloColour
  import opened KiloEdits
  import opened KiloMending
  import opened KiloSplitting
  import opened KiloJoining
  import opened KiloCursor

  // ----- typing ------------------------------------------------------------

  lemma EmptyRowBehind(syn: EditorSyntax, rows: seq<EditorRow>)
    requires Ready(Some(syn), rows) && AllRight(syn, rows)
    ensures AllRight(syn, Added(Some(syn), rows, |rows|, ""))
  {
    AddKeepsColours(syn, rows, |rows|, "");
  }

  lemma {:induction false} PaddingKeepsColours(syn: EditorSyntax, rows: seq<EditorRow>, n: nat)
    requires Ready(Some(syn), rows) && AllRight(syn, rows)
    ensures AllRight(syn, PaddedRows(Some(syn), rows, n))
    decreases n - |rows|
  {
    if |rows| < n {
      EmptyRowBehind(syn, rows);
      PaddingKeepsColours(syn, Added(Some(syn), rows, |rows|, ""), n);
    }
  }

  /** An in-row edit of the last row of a right document, its flag not set. */
  lemma LastRowEdit(syn: EditorSyntax, rows: seq<EditorRow>, chars: string)
    requires Ready(Some(syn), rows) && AllRight(syn, rows) && rows != [] && !rows[|rows| - 1].hlOpenComment
    ensures AllRight(syn, Changed(Some(syn), rows, |rows| - 1, chars))
  {
    EditKeepsColours(syn, rows, |rows| - 1, chars);
  }

  predicate TypingFallsShort(syn: EditorSyntax, rows: seq<EditorRow>, r: nat, col: nat, c: char)
    requires Ready(Some(syn), rows)
  {
    r < |rows| && PassFallsShort(syn, WithChars(syn, rows, r, InsertInRow(rows[r].chars, col, c)), r, |rows|)
  }

  /** Behind the document nothing is below the new row, so that nothing can go wrong. */
  lemma TypingKeepsColours(syn: EditorSyntax, rows: seq<EditorRow>, r: nat, col: nat, c: char)
    requires Ready(Some(syn), rows) && AllRight(syn, rows)
    ensures AllRight(syn, TypedRows(Some(syn), rows, r, col, c)) <==> !TypingFallsShort(syn, rows, r, col, c)
  {
    var padded := PaddedRows(Some(syn), rows, r + 1);
    var chars := InsertInRow(Chars(padded)[r], col, c);
    if r < |rows| {
      ChangeKeepsColours(syn, rows, r, chars);
    } else {
      PaddingKeepsColours(syn, rows, r + 1);
      PaddedLastRow(syn, rows, r + 1);
      LastRowEdit(syn, padded, chars);
    }
  }

  lemma {:induction false} PaddedLastRow(syn: EditorSyntax, rows: seq<EditorRow>, n: nat)
    requires Ready(Some(syn), rows) && |rows| < n
    ensures |PaddedRows(Some(syn), rows, n)| == n
    ensures !PaddedRows(Some(syn), rows, n)[n - 1].hlOpenComment
    decreases n - |rows|
  {
    var more := Added(Some(syn), rows, |rows|, "");
    if |rows| + 1 < n {
      PaddedLastRow(syn, more, n);
    } else {
      CachedIsPainted(rows);
      InsertedIsRecoloured(syn, rows, |rows|, "");
    }
  }

  // ----- Enter ------------------------------------------------------------

  predicate BrokenFallsShort(syn: EditorSyntax, rows: seq<EditorRow>, r: nat, column: nat)
    requires Ready(Some(syn), rows)
  {
    && r < |rows|
    && if column == 0 || rows[r].chars == "" then
         var before := WithRow(syn, rows, r, "");
         InsertFallsShort(syn, before, r, |before| - 1)
       else SplitFallsShort(syn, rows, r, if column > |rows[r].chars| then |rows[r].chars| else column)
  }

  lemma BreakingKeepsColours(syn: EditorSyntax, rows: seq<EditorRow>, r: nat, column: nat)
    requires Ready(Some(syn), rows) && AllRight(syn, rows)
    ensures AllRight(syn, BrokenRows(Some(syn), rows, r, column)) <==> !BrokenFallsShort(syn, rows, r, column)
  {
    if r == |rows| {
      EmptyRowBehind(syn, rows);
    } else if r < |rows| {
      var col := if column > |rows[r].chars| then |rows[r].chars| else column;
      if col == 0 {
        AddKeepsColours(syn, rows, r, "");
      } else {
        SplitKeepsColours(syn, rows, r, col);
      }
    }
  }

  // ----- Backspace and Delete ------------------------------------------------

  predicate ErasedFallsShort(syn: EditorSyntax, rows: seq<EditorRow>, r: nat, col: nat)
    requires Ready(Some(syn), rows)
  {
    && r < |rows|
    && if col == 0 then r > 0 && JoinFallsShort(syn, rows, r)
       else col <= |rows[r].chars| &&
            PassFallsShort(syn, WithChars(syn, rows, r, RemoveAt(rows[r].chars, col - 1)), r, |rows|)
  }

  lemma ErasingKeepsColours(syn: EditorSyntax, rows: seq<EditorRow>, r: nat, col: nat)
    requires Ready(Some(syn), rows) && AllRight(syn, rows)
    ensures AllRight(syn, ErasedRows(Some(syn), rows, r, col)) <==> !ErasedFallsShort(syn, rows, r, col)
  {
    if r < |rows| && col == 0 && r > 0 {
      JoinKeepsColours(syn, rows, r);
    } else if r < |rows| && 0 < col <= |rows[r].chars| {
      ChangeKeepsColours(syn, rows, r, RemoveAt(rows[r].chars, col - 1));
    }
  }

  // ----- every key -----------------------------------------------------------

  /** The pass or passes that a key starts fall short. */
  predicate KeyFallsShort(syn: EditorSyntax, rows: seq<EditorRow>, v: View, key: Key)
    requires Ready(Some(syn), rows) && v.Sane()
  {
    match key
    case Byte(c) => (IsPrint(c) || c == TAB) && TypingFallsShort(syn, rows, v.FileRow(), v.FileCol(), c)
    case Enter => BrokenFallsShort(syn, rows, v.FileRow(), v.FileCol())
    case Backspace => ErasedFallsShort(syn, rows, v.FileRow(), v.FileCol())
    case Delete =>
      var w := MoveCursor(v, Right);
      ErasedFallsShort(syn, rows, w.FileRow(), w.FileCol())
    case _ => false
  }

  /** A key keeps a rightly coloured document rightly coloured exactly when its passes do
      not fall short. */
  lemma KeyKeepsColours(syn: EditorSyntax, rows: seq<EditorRow>, v: View, key: Key)
    requires Ready(Some(syn), rows) && AllRight(syn, rows) && v.Sane()
    ensures AllRight(syn, RowsAfter(Some(syn), rows, v, key)) <==> !KeyFallsShort(syn, rows, v, key)
  {
    match key {
      case Byte(c) => if IsPrint(c) || c == TAB { TypingKeepsColours(syn, rows, v.FileRow(), v.FileCol(), c); }
      case Enter => BreakingKeepsColours(syn, rows, v.FileRow(), v.FileCol());
      case Backspace => ErasingKeepsColours(syn, rows, v.FileRow(), v.FileCol());
      case Delete =>
        var w := MoveCursor(v, Right);
        ErasingKeepsColours(syn, rows, w.FileRow(), w.FileCol());
      case _ =>
    }
  }

  // ----- runs ----------------------------------------------------------------

  /** The rows after a run of keys, with the screen refreshed after each. */
  function RowsAfterRun(syntax: Option<EditorSyntax>, rows: seq<EditorRow>, v: View, keys: seq<Key>)
    : (w: seq<EditorRow>)
    requires Ready(syntax, rows) && v.Sane() && InArrayRun(v, keys)
    ensures Ready(syntax, w)
    decreases |keys|
  {
    if keys == [] then rows
    else
      PressStaysSane(v, keys[0]);
      RowsAfterRun(syntax, RowsAfter(syntax, rows, v, keys[0]), Scroll(Press(v, keys[0])), keys[1..])
  }

  lemma RunStep(syntax: Option<EditorSyntax>, rows: seq<EditorRow>, v: View, keys: seq<Key>, i: nat)
    requires Ready(syntax, rows) && i < |keys| && v.Sane() && InArrayRun(v, keys[i..])
    ensures keys[i] == Left ==> LeftIsInArray(v)
    ensures var w := Scroll(Press(v, keys[i]));
      && w.Sane() && InArrayRun(w, keys[i + 1..])
      && Run(w, keys[i + 1..]) == Run(v, keys[i..])
      && RowsAfterRun(syntax, RowsAfter(syntax, rows, v, keys[i]), w, keys[i + 1..])
          == RowsAfterRun(syntax, rows, v, keys[i..])
  {
    assert keys[i..][0] == keys[i] && keys[i..][1..] == keys[i + 1..];
    PressStaysSane(v, keys[i]);
  }

  /** Some key of the run falls short. */
  predicate RunFallsShort(syn: EditorSyntax, rows: seq<EditorRow>, v: View, keys: seq<Key>)
    requires Ready(Some(syn), rows) && v.Sane() && InArrayRun(v, keys)
    decreases |keys|
  {
    && keys != []
    && (PressStaysSane(v, keys[0]);
        || KeyFallsShort(syn, rows, v, keys[0])
        || RunFallsShort(syn, RowsAfter(Some(syn), rows, v, keys[0]), Scroll(Press(v, keys[0])), keys[1..]))
  }

  lemma RunPrefix(v: View, keys: seq<Key>, n: nat)
    requires v.Sane() && InArrayRun(v, keys) && n <= |keys|
    ensures InArrayRun(v, keys[..n])
    decreases n
  {
    if n > 0 {
      PressStaysSane(v, keys[0]);
      RunPrefix(Scroll(Press(v, keys[0])), keys[1..], n - 1);
      assert keys[..n][1..] == keys[1..][..n - 1];
    }
  }

  /** The document on the screen after the first n keys of a run. */
  function RowsAt(syn: EditorSyntax, rows: seq<EditorRow>, v: View, keys: seq<Key>, n: nat): seq<EditorRow>
    requires Ready(Some(syn), rows) && v.Sane() && InArrayRun(v, keys) && n <= |keys|
  {
    RunPrefix(v, keys, n);
    RowsAfterRun(Some(syn), rows, v, keys[..n])
  }

  lemma RowsAtNext(syn: EditorSyntax, rows: seq<EditorRow>, v: View, keys: seq<Key>, n: nat)
    requires Ready(Some(syn), rows) && v.Sane() && InArrayRun(v, keys) && 0 < n <= |keys|
    ensures var w := Scroll(Press(v, keys[0]));
      && w.Sane() && InArrayRun(w, keys[1..])
      && RowsAt(syn, rows, v, keys, n)
          == RowsAt(syn, RowsAfter(Some(syn), rows, v, keys[0]), w, keys[1..], n - 1)
  {
    PressStaysSane(v, keys[0]);
    RunPrefix(v, keys, n);
    assert keys[..n][1..] == keys[1..][..n - 1];
  }

  /** Every document that the run shows is rightly coloured. */
  predicate RightThroughout(syn: EditorSyntax, rows: seq<EditorRow>, v: View, keys: seq<Key>)
    requires Ready(Some(syn), rows) && v.Sane() && InArrayRun(v, keys)
  {
    forall n :: 0 <= n <= |keys| ==> AllRight(syn, RowsAt(syn, rows, v, keys, n))
  }

  lemma RightOnceMore(syn: EditorSyntax, rows: seq<EditorRow>, v: View, keys: seq<Key>)
    requires Ready(Some(syn), rows) && v.Sane() && InArrayRun(v, keys) && keys != []
    ensures var w := Scroll(Press(v, keys[0]));
      && w.Sane() && InArrayRun(w, keys[1..])
      && (RightThroughout(syn, rows, v, keys) <==>
          AllRight(syn, rows) && RightThroughout(syn, RowsAfter(Some(syn), rows, v, keys[0]), w, keys[1..]))
  {
    var next, w := RowsAfter(Some(syn), rows, v, keys[0]), Scroll(Press(v, keys[0]));
    PressStaysSane(v, keys[0]);
    assert RowsAt(syn, rows, v, keys, 0) == rows;
    forall n | 0 < n <= |keys|
      ensures RowsAt(syn, rows, v, keys, n) == RowsAt(syn, next, w, keys[1..], n - 1)
    {
      RowsAtNext(syn, rows, v, keys, n);
    }
    if RightThroughout(syn, rows, v, keys) {
      forall n | 0 <= n <= |keys[1..]|
        ensures AllRight(syn, RowsAt(syn, next, w, keys[1..], n))
      {
        assert RowsAt(syn, rows, v, keys, n + 1) == RowsAt(syn, next, w, keys[1..], n);
      }
    }
  }

  /** Over a run, every document that is shown is rightly coloured exactly when no key
      falls short. */
  lemma {:induction false} RunKeepsColours(syn: EditorSyntax, rows: seq<EditorRow>, v: View, keys: seq<Key>)
    requires Ready(Some(syn), rows) && AllRight(syn, rows) && v.Sane() && InArrayRun(v, keys)
    ensures RightThroughout(syn, rows, v, keys) <==> !RunFallsShort(syn, rows, v, keys)
    decreases |keys|
  {
    if keys != [] {
      var next, w := RowsAfter(Some(syn), rows, v, keys[0]), Scroll(Press(v, keys[0]));
      PressStaysSane(v, keys[0]);
      KeyKeepsColours(syn, rows, v, keys[0]);
      RightOnceMore(syn, rows, v, keys);
      if AllRight(syn, next) {
        RunKeepsColours(syn, next, w, keys[1..]);
      } else {
        assert RowsAt(syn, next, w, keys[1..], 0) == next;
      }
    }
  }

  lemma RunEndsRight(syn: EditorSyntax, rows: seq<EditorRow>, v: View, keys: seq<Key>)
    requires Ready(Some(syn), rows) && AllRight(syn, rows) && v.Sane() && InArrayRun(v, keys)
    requires !RunFallsShort(syn, rows, v, keys)
    ensures AllRight(syn, RowsAfterRun(Some(syn), rows, v, keys))
  {
    RunKeepsColours(syn, rows, v, keys);
    assert keys[..|keys|] == keys;
    assert AllRight(syn, RowsAt(syn, rows, v, keys, |keys|));
  }
}

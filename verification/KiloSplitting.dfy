/** Enter inside a row: the tail is inserted as a row of its own, whose pass goes by the
old row count, and then the head is re-coloured by a second pass. When both together leave
a rightly coloured document right. */
module KiloSplitting {
  import opened CString
  import opened KiloSyntax
  import opened KiloRows
  import opened KiloColour
  import opened KiloEdits
  import opened KiloMending

  /** The pass over a row inserted at `at` falls short, and so does the pass from the row
      above it that follows: it stops before it is below the new row, or on its way back
      through the rows that the first one has turned. */
  predicate BothFallShort(syn: EditorSyntax, before: seq<EditorRow>, at: nat, edited: seq<EditorRow>)
    requires syn.Valid() && 0 < at < |before| == |edited| && Painted(before) && Painted(edited)
  {
    || StopsAt(syn, edited, at - 1)
    || StopsAt(syn, PaintedAt(syn, edited, at - 1), at)
    || TailIsCut(syn, before, at)
  }

  /** The document `before` has the new row, `edited` is what the first pass leaves, with
      other characters in the row above the new one. */
  predicate PassesFallShort(syn: EditorSyntax, before: seq<EditorRow>, at: nat, edited: seq<EditorRow>)
    requires syn.Valid() && 0 < at < |before| == |edited| && Painted(before) && Painted(edited)
  {
    if InsertFallsShort(syn, before, at, |before| - 1) then BothFallShort(syn, before, at, edited)
    else PassFallsShort(syn, edited, at - 1, |edited|)
  }

  /** The document between the two passes. */
  function Between(syn: EditorSyntax, rows: seq<EditorRow>, f: nat, col: nat): (r: seq<EditorRow>)
    requires Ready(Some(syn), rows) && f < |rows| && col <= |rows[f].chars|
    ensures Painted(r) && |r| == |rows| + 1
  {
    WithChars(syn, Added(Some(syn), rows, f + 1, rows[f].chars[col..]), f, rows[f].chars[..col])
  }

  predicate SplitFallsShort(syn: EditorSyntax, rows: seq<EditorRow>, f: nat, col: nat)
    requires Ready(Some(syn), rows) && f < |rows| && col <= |rows[f].chars|
  {
    PassesFallShort(syn, WithRow(syn, rows, f + 1, rows[f].chars[col..]), f + 1, Between(syn, rows, f, col))
  }

  lemma SplitKeepsColours(syn: EditorSyntax, rows: seq<EditorRow>, f: nat, col: nat)
    requires Ready(Some(syn), rows) && AllRight(syn, rows) && f < |rows| && col <= |rows[f].chars|
    ensures AllRight(syn, SplitRows(Some(syn), rows, f, col)) <==> !SplitFallsShort(syn, rows, f, col)
  {
    var tail := rows[f].chars[col..];
    SplitIsRecoloured(syn, rows, f, col);
    AddedIsRecoloured(syn, rows, f + 1, tail);
    ShiftedIsSplit(syn, rows, f + 1, tail);
    TwoPasses(syn, WithRow(syn, rows, f + 1, tail), f + 1, Added(Some(syn), rows, f + 1, tail), rows[f].chars[..col]);
  }

  lemma SplitInTwo(syn: EditorSyntax, rows: seq<EditorRow>, f: nat, col: nat)
    requires Ready(Some(syn), rows) && f < |rows| && col <= |rows[f].chars|
    ensures SplitRows(Some(syn), rows, f, col)
         == Changed(Some(syn), Added(Some(syn), rows, f + 1, rows[f].chars[col..]), f, rows[f].chars[..col])
  {}

  lemma SplitIsRecoloured(syn: EditorSyntax, rows: seq<EditorRow>, f: nat, col: nat)
    requires Ready(Some(syn), rows) && f < |rows| && col <= |rows[f].chars|
    ensures var edited := Between(syn, rows, f, col);
      SplitRows(Some(syn), rows, f, col) == Recolour(syn, edited, f, |edited|)
  {
    SplitInTwo(syn, rows, f, col);
    ChangedIsRecoloured(syn, Added(Some(syn), rows, f + 1, rows[f].chars[col..]), f, rows[f].chars[..col]);
  }

  /** A pass that starts where the row above left it finds nothing to change. */
  lemma SameStartNeverShort(syn: EditorSyntax, rows: seq<EditorRow>, k: nat, n: nat)
    requires syn.Valid() && k < |rows| && n <= |rows| && Painted(rows) && ColouredAt(syn, rows, k) && FlagAt(rows, k)
    ensures !PassFallsShort(syn, rows, k, n)
  {
    if EndsInLineComment(syn, rows, k) { LineCommentRowIsClosed(syn, rows, k); }
  }

  /** A row inserted at `at`, and the pass of its insertion has fallen short. */
  predicate FellShort(syn: EditorSyntax, before: seq<EditorRow>, at: nat)
    requires syn.Valid()
  {
    0 < at < |before| && SplitAt(syn, before, at) && InsertFallsShort(syn, before, at, |before| - 1)
  }

  /** What the pass leaves behind then: the new row and its flag are right, and it ends
      otherwise than the row above it. */
  lemma FirstPass(syn: EditorSyntax, before: seq<EditorRow>, at: nat)
    requires syn.Valid() && FellShort(syn, before, at)
    ensures var painted := PaintedAt(syn, before, at);
            var inserted := Recolour(syn, before, at, |before| - 1);
            && Painted(inserted) && at + 1 < |before|
            && RowOpen(painted[at]) != RowOpen(before[at - 1])
            && inserted[at] == painted[at].(hlOpenComment := RowOpen(painted[at]))
            && (forall j :: at < j < |inserted| ==> inserted[j] == Below(syn, painted, at)[j])
  {
    var painted := PaintedAt(syn, before, at);
    if EndsInLineComment(syn, before, at) { LineCommentRowIsClosed(syn, before, at); }
    if RowOpen(painted[at]) && at + 1 < |before| - 1 && RowOpen(before[at - 1]) {
      assert FlagAt(before, at + 1) && FlagAt(painted, at + 1);
      assert ColouredAt(syn, painted, at + 1);
      SameStartNeverShort(syn, painted, at + 1, |before| - 1);
    }
  }

  /** The rows below the inserted one after its pass. */
  function Below(syn: EditorSyntax, painted: seq<EditorRow>, at: nat): (r: seq<EditorRow>)
    requires syn.Valid() && at < |painted| && Painted(painted)
    ensures |r| == |painted|
  {
    if RowOpen(painted[at]) && at + 1 < |painted| - 1 then Recolour(syn, painted, at + 1, |painted| - 1) else painted
  }

  lemma WrongBelow(syn: EditorSyntax, before: seq<EditorRow>, at: nat)
    requires syn.Valid() && FellShort(syn, before, at)
    ensures var inserted := Recolour(syn, before, at, |before| - 1);
      Painted(inserted) && at < |before| && !RightBelow(syn, inserted, at + 1)
  {
    OnlyBelow(syn, before, at);
    SplitPassIsRight(syn, before, at, |before| - 1);
  }

  /** Whatever is wrong after the pass is below the new row. */
  lemma OnlyBelow(syn: EditorSyntax, before: seq<EditorRow>, at: nat)
    requires syn.Valid() && FellShort(syn, before, at)
    ensures var inserted := Recolour(syn, before, at, |before| - 1);
      Painted(inserted) && at < |before| && (RightBelow(syn, inserted, at + 1) ==> RightFrom(syn, inserted, at))
  {
    FirstPass(syn, before, at);
    AboveIsRight(syn, before, at, Recolour(syn, before, at, |before| - 1));
  }

  lemma AboveIsRight(syn: EditorSyntax, before: seq<EditorRow>, at: nat, inserted: seq<EditorRow>)
    requires syn.Valid() && 0 < at < |before| == |inserted| && Painted(inserted) && SplitAt(syn, before, at)
    requires forall j :: 0 <= j < at ==> inserted[j] == before[j]
    requires inserted[at].render == before[at].render && FlagAt(inserted, at)
    requires inserted[at].hl == ScanRow(syn, before[at].render, StartsInComment(before, at)).hl
    ensures RightBelow(syn, inserted, at + 1) ==> RightFrom(syn, inserted, at)
  {
    forall j | 0 <= j < at
      ensures ColouredAt(syn, inserted, j)
    {
      assert ColouredAt(syn, before, j);
    }
  }

  /** The rows below it, once the new row ends as the row above it does. */
  lemma BelowTheTail(syn: EditorSyntax, before: seq<EditorRow>, at: nat, again: seq<EditorRow>)
    requires syn.Valid() && FellShort(syn, before, at) && |again| == |before| && Painted(again)
    requires forall j :: at < j < |again| ==> again[j] == Recolour(syn, before, at, |before| - 1)[j]
    requires RowOpen(again[at]) == RowOpen(before[at - 1])
    ensures at + 1 < |before|
    ensures Mends(syn, again, at + 1, |before|) <==> !TailIsCut(syn, before, at)
  {
    FirstPass(syn, before, at);
    var painted := PaintedAt(syn, before, at);
    if RowOpen(painted[at]) && at + 1 < |before| - 1 {
      TurnedRows(syn, before, at, again);
    } else {
      SplitBelow(syn, before, at, again);
      RightMends(syn, again, at + 1, |before|);
    }
  }

  /** The pass went below the new row. */
  lemma TurnedRows(syn: EditorSyntax, before: seq<EditorRow>, at: nat, again: seq<EditorRow>)
    requires syn.Valid() && FellShort(syn, before, at) && |again| == |before| && Painted(again)
    requires at + 1 < |before| - 1 && RowOpen(PaintedAt(syn, before, at)[at])
    requires var painted := PaintedAt(syn, before, at);
      forall j :: at < j < |again| ==> again[j] == Recolour(syn, painted, at + 1, |before| - 1)[j]
    requires RowOpen(again[at]) == RowOpen(before[at - 1]) != RowOpen(PaintedAt(syn, before, at)[at])
    ensures Mends(syn, again, at + 1, |before|) <==> !TailIsCut(syn, before, at)
  {
    TurnedTail(syn, before, at);
    WayBack(syn, PaintedAt(syn, before, at), at + 1, |before| - 1, again);
  }

  /** The pass of the insertion went below the new row, and the way back is cut. */
  predicate TailIsCut(syn: EditorSyntax, before: seq<EditorRow>, at: nat)
    requires syn.Valid() && at < |before| && Painted(before)
  {
    var painted := PaintedAt(syn, before, at);
    RowOpen(painted[at]) && at + 1 < |before| - 1 && WayBackIsCut(syn, painted, at + 1, |before| - 1)
  }

  lemma TurnedTail(syn: EditorSyntax, before: seq<EditorRow>, at: nat)
    requires syn.Valid() && 0 < at && at + 1 < |before| && SplitAt(syn, before, at)
    requires RowOpen(PaintedAt(syn, before, at)[at]) != StartsInComment(before, at)
    ensures Turned(syn, PaintedAt(syn, before, at), at + 1)
  {
    var painted := PaintedAt(syn, before, at);
    forall j | at < j < |before|
      ensures FlagAt(painted, j) && (j > at + 1 ==> ColouredAt(syn, painted, j))
    {
      assert FlagAt(before, j) && (j > at + 1 ==> ColouredAt(syn, before, j));
    }
  }

  lemma SplitBelow(syn: EditorSyntax, before: seq<EditorRow>, at: nat, again: seq<EditorRow>)
    requires syn.Valid() && 0 < at && at + 1 < |before| == |again| && SplitAt(syn, before, at) && Painted(again)
    requires forall j :: at < j < |again| ==> again[j] == before[j]
    requires RowOpen(again[at]) == StartsInComment(before, at)
    ensures RightBelow(syn, again, at + 1)
  {
    forall j | at < j < |again|
      ensures ColouredAt(syn, again, j) && FlagAt(again, j)
    {
      assert FlagAt(before, j) && (j > at + 1 ==> ColouredAt(syn, before, j));
    }
  }

  /** The new row and what is below it, with other colours above. */
  lemma TailAgain(syn: EditorSyntax, before: seq<EditorRow>, at: nat, once: seq<EditorRow>)
    requires syn.Valid() && FellShort(syn, before, at) && |once| == |before| && Painted(once)
    requires forall j :: at <= j < |once| ==> once[j] == Recolour(syn, before, at, |before| - 1)[j]
    ensures Mends(syn, once, at, |before|) <==> !StopsAt(syn, once, at) && !TailIsCut(syn, before, at)
  {
    var inserted := Recolour(syn, before, at, |before| - 1);
    var twice := PaintedAt(syn, once, at);
    FirstPass(syn, before, at);
    WrongBelow(syn, before, at);
    if EndsInLineComment(syn, once, at) {
      LineCommentRowIsClosed(syn, once, at);
    }
    if RowOpen(twice[at]) == once[at].hlOpenComment {
      SameBelow(syn, inserted, twice, at + 1);
    } else if !EndsInLineComment(syn, once, at) {
      BelowTheTail(syn, before, at, twice);
    }
  }

  lemma SecondPassMends(syn: EditorSyntax, before: seq<EditorRow>, at: nat, edited: seq<EditorRow>)
    requires syn.Valid() && FellShort(syn, before, at) && |edited| == |before| && Painted(edited)
    requires forall j :: at <= j < |edited| ==> edited[j] == Recolour(syn, before, at, |before| - 1)[j]
    requires edited[at - 1].hlOpenComment == RowOpen(before[at - 1])
    ensures Mends(syn, edited, at - 1, |before|) <==> !BothFallShort(syn, before, at, edited)
  {
    var once := PaintedAt(syn, edited, at - 1);
    WrongBelow(syn, before, at);
    if StopsAt(syn, edited, at - 1) {
      SameBelow(syn, Recolour(syn, before, at, |before| - 1), once, at + 1);
      if RightBelow(syn, once, at) { assert RightBelow(syn, once, at + 1); }
    } else {
      TailAgain(syn, before, at, once);
    }
  }

  /** Both passes on the row array. */
  lemma TwoPasses(syn: EditorSyntax, before: seq<EditorRow>, at: nat, inserted: seq<EditorRow>, head: string)
    requires syn.Valid() && 0 < at < |before| && SplitAt(syn, before, at)
    requires inserted == Recolour(syn, before, at, |before| - 1)
    ensures var edited := Edited(inserted, at - 1, head);
      && Painted(edited)
      && (AllRight(syn, Recolour(syn, edited, at - 1, |edited|)) <==> !PassesFallShort(syn, before, at, edited))
  {
    var edited := Edited(inserted, at - 1, head);
    SplitPassKeepsColours(syn, before, at, |before| - 1);
    if AllRight(syn, inserted) {
      SecondPassAlone(syn, inserted, at - 1, head);
    } else {
      SecondPass(syn, before, at, edited);
    }
  }

  lemma SecondPassAlone(syn: EditorSyntax, rows: seq<EditorRow>, k: nat, chars: string)
    requires syn.Valid() && AllRight(syn, rows) && k < |rows|
    ensures var edited := Edited(rows, k, chars);
      && Painted(edited)
      && (AllRight(syn, Recolour(syn, edited, k, |edited|)) <==> !PassFallsShort(syn, edited, k, |edited|))
  {
    EditKeepsColours(syn, rows, k, chars);
    SetIsRecoloured(syn, rows, k, chars);
  }

  lemma SecondPass(syn: EditorSyntax, before: seq<EditorRow>, at: nat, edited: seq<EditorRow>)
    requires syn.Valid() && FellShort(syn, before, at) && |edited| == |before| && Painted(edited)
    requires forall j :: at <= j < |edited| ==> edited[j] == Recolour(syn, before, at, |before| - 1)[j]
    requires forall j :: 0 <= j < at - 1 ==> edited[j] == before[j]
    requires edited[at - 1].hlOpenComment == before[at - 1].hlOpenComment
    ensures AllRight(syn, Recolour(syn, edited, at - 1, |edited|)) <==> !BothFallShort(syn, before, at, edited)
  {
    forall j | 0 <= j < at - 1
      ensures ColouredAt(syn, edited, j) && FlagAt(edited, j)
    {
      assert ColouredAt(syn, before, j) && FlagAt(before, j);
    }
    assert FlagAt(before, at - 1);
    RecolourMends(syn, edited, at - 1, |edited|);
    FlagsAbove(syn, edited, Recolour(syn, edited, at - 1, |edited|), at - 1);
    SecondPassMends(syn, before, at, edited);
  }
}

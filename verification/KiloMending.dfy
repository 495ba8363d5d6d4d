/** What a re-colouring pass makes of a document that is not yet right below the row it
starts at, as the second pass of a split row meets it. */
module KiloMending {
  import opened CString
  import opened KiloSyntax
  import opened KiloRows
  import opened KiloColour
  import opened KiloEdits

  predicate RightAbove(syn: EditorSyntax, rows: seq<EditorRow>, k: nat)
    requires syn.Valid() && k <= |rows|
  {
    Painted(rows) && forall j :: 0 <= j < k ==> ColouredAt(syn, rows, j)
  }

  predicate RightBelow(syn: EditorSyntax, rows: seq<EditorRow>, k: nat)
    requires syn.Valid() && k <= |rows|
  {
    Painted(rows) && forall j :: k <= j < |rows| ==> ColouredAt(syn, rows, j) && FlagAt(rows, j)
  }

  predicate EndsInLineComment(syn: EditorSyntax, rows: seq<EditorRow>, k: nat)
    requires syn.Valid() && k < |rows| && PaintedAbove(rows, k)
  {
    ScanRow(syn, rows[k].render, StartsInComment(rows, k)).lineComment
  }

  /** The pass does not look at the row below. */
  predicate StopsAt(syn: EditorSyntax, rows: seq<EditorRow>, k: nat)
    requires syn.Valid() && k < |rows| && Painted(rows)
  {
    EndsInLineComment(syn, rows, k) || rows[k].hlOpenComment == RowOpen(PaintedAt(syn, rows, k)[k])
  }

  /** The pass from row k leaves everything right, whatever it finds below. */
  predicate Mends(syn: EditorSyntax, rows: seq<EditorRow>, k: nat, n: nat)
    requires syn.Valid() && k < |rows| && n <= |rows| && Painted(rows)
    decreases |rows| - k
  {
    var painted := PaintedAt(syn, rows, k);
    if EndsInLineComment(syn, rows, k) then !rows[k].hlOpenComment && RightBelow(syn, painted, k + 1)
    else if rows[k].hlOpenComment != RowOpen(painted[k]) && k + 1 < n then Mends(syn, painted, k + 1, n)
    else RightBelow(syn, painted, k + 1)
  }

  lemma PaintedIsRightAbove(syn: EditorSyntax, rows: seq<EditorRow>, k: nat)
    requires syn.Valid() && k < |rows| && RightAbove(syn, rows, k)
    ensures RightAbove(syn, PaintedAt(syn, rows, k), k + 1)
  {
    PaintedIsColoured(syn, rows, k);
  }

  lemma RightFromBelow(syn: EditorSyntax, rows: seq<EditorRow>, k: nat)
    requires syn.Valid() && k <= |rows| && RightAbove(syn, rows, k)
    ensures RightFrom(syn, rows, k) <==> RightBelow(syn, rows, k)
  {
    if RightBelow(syn, rows, k) {
      forall j | 0 <= j < |rows| ensures ColouredAt(syn, rows, j) {}
    }
  }

  lemma {:induction false} RecolourMends(syn: EditorSyntax, rows: seq<EditorRow>, k: nat, n: nat)
    requires syn.Valid() && k < |rows| && n <= |rows| && RightAbove(syn, rows, k)
    ensures RightFrom(syn, Recolour(syn, rows, k, n), k) <==> Mends(syn, rows, k, n)
    decreases |rows| - k
  {
    var painted := PaintedAt(syn, rows, k);
    PaintedIsRightAbove(syn, rows, k);
    RightFromBelow(syn, painted, k + 1);
    if EndsInLineComment(syn, rows, k) {
      LineCommentRowIsClosed(syn, rows, k);
      StoppedFlag(syn, painted, k);
    } else {
      var open := RowOpen(painted[k]);
      if rows[k].hlOpenComment != open && k + 1 < n {
        RecolourMends(syn, painted, k + 1, n);
        FlagFromBelow(syn, Recolour(syn, painted, k + 1, n), k, open);
      } else {
        FlagFromBelow(syn, painted, k, open);
      }
    }
  }

  lemma StoppedFlag(syn: EditorSyntax, painted: seq<EditorRow>, k: nat)
    requires syn.Valid() && k < |painted| && Painted(painted) && !RowOpen(painted[k])
    ensures RightFrom(syn, painted, k) <==> !painted[k].hlOpenComment && RightFrom(syn, painted, k + 1)
  {
    if RightFrom(syn, painted, k) { assert FlagAt(painted, k); }
  }

  lemma RightMends(syn: EditorSyntax, rows: seq<EditorRow>, k: nat, n: nat)
    requires syn.Valid() && k < |rows| && n <= |rows| && RightBelow(syn, rows, k)
    ensures Mends(syn, rows, k, n)
  {
    assert ColouredAt(syn, rows, k) && FlagAt(rows, k);
    assert PaintedAt(syn, rows, k) == rows;
    if EndsInLineComment(syn, rows, k) { LineCommentRowIsClosed(syn, rows, k); }
  }

  /** What is below row k is as right as it is in a document that agrees from row k on and
      whose row k starts the same way. */
  lemma SameBelow(syn: EditorSyntax, rows: seq<EditorRow>, other: seq<EditorRow>, k: nat)
    requires syn.Valid() && k <= |rows| == |other| && Painted(rows) && Painted(other)
    requires forall j :: k <= j < |rows| ==> other[j] == rows[j]
    requires k < |rows| ==> StartsInComment(other, k) == StartsInComment(rows, k)
    ensures RightBelow(syn, other, k) <==> RightBelow(syn, rows, k)
  {
    forall j | k <= j < |rows|
      ensures ColouredAt(syn, other, j) <==> ColouredAt(syn, rows, j)
      ensures FlagAt(other, j) <==> FlagAt(rows, j)
    {}
  }

  // ----- going back over a pass that fell short ------------------------------

  /** Row k was right, and the rows below are, but row k now starts the other way. */
  predicate Turned(syn: EditorSyntax, rows: seq<EditorRow>, k: nat)
    requires syn.Valid() && k < |rows|
  {
    && Painted(rows)
    && rows[k].hl == ScanRow(syn, rows[k].render, !StartsInComment(rows, k)).hl
    && (forall j :: k <= j < |rows| ==> FlagAt(rows, j))
    && (forall j :: k < j < |rows| ==> ColouredAt(syn, rows, j))
  }

  /** A row that the pass goes through, rather than stops at, ends in a line comment when it
      starts as it did before. */
  predicate WayBackIsCut(syn: EditorSyntax, rows: seq<EditorRow>, k: nat, n: nat)
    requires syn.Valid() && k < |rows| && n <= |rows| && Painted(rows)
    decreases |rows| - k
  {
    && !EndsInLineComment(syn, rows, k)
    && (|| ScanRow(syn, rows[k].render, !StartsInComment(rows, k)).lineComment
        || (k + 1 < n && WayBackIsCut(syn, PaintedAt(syn, rows, k), k + 1, n)))
  }

  /** The document after the pass, with the start turned back. */
  predicate TurnedBack(syn: EditorSyntax, rows: seq<EditorRow>, k: nat, n: nat, back: seq<EditorRow>)
    requires syn.Valid() && k < |rows| && n <= |rows| && Painted(rows)
  {
    && |back| == |rows| && Painted(back)
    && (forall j :: k <= j < |rows| ==> back[j] == Recolour(syn, rows, k, n)[j])
    && StartsInComment(back, k) == !StartsInComment(rows, k)
  }

  lemma RowBack(syn: EditorSyntax, rows: seq<EditorRow>, k: nat, n: nat, back: seq<EditorRow>)
    requires syn.Valid() && k < |rows| && n <= |rows| && Turned(syn, rows, k) && TurnedBack(syn, rows, k, n, back)
    ensures var again := PaintedAt(syn, back, k);
      && Painted(again) && again[k].hl == rows[k].hl && again[k].render == rows[k].render
      && RowOpen(again[k]) == rows[k].hlOpenComment
    ensures EndsInLineComment(syn, back, k) <==> ScanRow(syn, rows[k].render, !StartsInComment(rows, k)).lineComment
    ensures EndsInLineComment(syn, back, k) ==> !rows[k].hlOpenComment
  {
    assert FlagAt(rows, k);
    assert back[k].render == rows[k].render;
    if EndsInLineComment(syn, back, k) { LineCommentRowIsClosed(syn, back, k); }
  }

  /** Rows that stayed as they were, under a row that is as it was. */
  lemma RightAgain(syn: EditorSyntax, rows: seq<EditorRow>, k: nat, again: seq<EditorRow>)
    requires syn.Valid() && k < |rows| == |again| && Turned(syn, rows, k) && Painted(again)
    requires again[k].hl == rows[k].hl && again[k].render == rows[k].render
    requires forall j :: k < j < |rows| ==> again[j] == rows[j]
    ensures RightBelow(syn, again, k + 1)
  {
    forall j | k < j < |rows|
      ensures ColouredAt(syn, again, j) && FlagAt(again, j)
    {
      assert ColouredAt(syn, rows, j) && FlagAt(rows, j);
    }
  }

  lemma TurnedBelow(syn: EditorSyntax, rows: seq<EditorRow>, k: nat)
    requires syn.Valid() && k + 1 < |rows| && Turned(syn, rows, k)
    requires RowOpen(PaintedAt(syn, rows, k)[k]) != rows[k].hlOpenComment
    ensures Turned(syn, PaintedAt(syn, rows, k), k + 1)
  {
    var next := PaintedAt(syn, rows, k);
    assert FlagAt(rows, k) && ColouredAt(syn, rows, k + 1);
    forall j | k < j < |rows|
      ensures FlagAt(next, j) && (j > k + 1 ==> ColouredAt(syn, next, j))
    {
      assert FlagAt(rows, j) && ColouredAt(syn, rows, j);
    }
  }

  /** The last row, which the first pass did not reach. */
  lemma LastRowAgain(syn: EditorSyntax, rows: seq<EditorRow>, k: nat, again: seq<EditorRow>)
    requires syn.Valid() && k + 2 == |rows| == |again| && Turned(syn, rows, k) && Painted(again)
    requires again[k].hl == rows[k].hl && again[k].render == rows[k].render && again[k + 1] == rows[k + 1]
    ensures Mends(syn, again, k + 1, k + 2)
  {
    assert ColouredAt(syn, rows, k + 1) && FlagAt(rows, k + 1);
    if EndsInLineComment(syn, again, k + 1) { LineCommentRowIsClosed(syn, again, k + 1); }
  }

  /** A second pass from the old start undoes a first one that fell short, unless a row on
      its way ends in a line comment, which stops it on a flag the first pass has set. */
  lemma {:induction false} WayBack(syn: EditorSyntax, rows: seq<EditorRow>, k: nat, n: nat, back: seq<EditorRow>)
    requires syn.Valid() && k < |rows| == n + 1 && Turned(syn, rows, k) && TurnedBack(syn, rows, k, n, back)
    requires PassFallsShort(syn, rows, k, n)
    ensures Mends(syn, back, k, n + 1) <==> !WayBackIsCut(syn, rows, k, n)
    decreases |rows| - k
  {
    var next, again := PaintedAt(syn, rows, k), PaintedAt(syn, back, k);
    RowBack(syn, rows, k, n, back);
    if EndsInLineComment(syn, rows, k) {
      RightAgain(syn, rows, k, again);
    } else if !EndsInLineComment(syn, back, k) {
      TurnedBelow(syn, rows, k);
      if k + 1 < n {
        WayBack(syn, next, k + 1, n, again);
      } else {
        LastRowAgain(syn, rows, k, again);
      }
    }
  }

  // ----- edits before their pass ----------------------------------------------

  lemma InsertedPainted(syn: EditorSyntax, rows: seq<EditorRow>, at: nat, chars: string)
    requires Ready(Some(syn), rows) && at <= |rows|
    ensures Painted(Edited(Shifted(rows, at), at, chars))
  {
    CachedIsPainted(rows);
  }

  /** The document with the new row in it, before InsertRow's pass. */
  function WithRow(syn: EditorSyntax, rows: seq<EditorRow>, at: nat, chars: string): (r: seq<EditorRow>)
    requires Ready(Some(syn), rows) && at <= |rows|
    ensures Painted(r) && |r| == |rows| + 1
  {
    InsertedPainted(syn, rows, at, chars);
    Edited(Shifted(rows, at), at, chars)
  }

  /** The document with new characters in row k, before their pass. */
  function WithChars(syn: EditorSyntax, rows: seq<EditorRow>, k: nat, chars: string): (r: seq<EditorRow>)
    requires Ready(Some(syn), rows) && k < |rows|
    ensures Painted(r) && |r| == |rows|
  {
    CachedIsPainted(rows);
    Edited(rows, k, chars)
  }

  lemma ChangedIsRecoloured(syn: EditorSyntax, rows: seq<EditorRow>, k: nat, chars: string)
    requires Ready(Some(syn), rows) && k < |rows|
    ensures var edited := WithChars(syn, rows, k, chars);
      Changed(Some(syn), rows, k, chars) == Recolour(syn, edited, k, |edited|)
  {
    CachedIsPainted(rows);
    SetIsRecoloured(syn, rows, k, chars);
  }

  lemma ChangeKeepsColours(syn: EditorSyntax, rows: seq<EditorRow>, k: nat, chars: string)
    requires Ready(Some(syn), rows) && AllRight(syn, rows) && k < |rows|
    ensures AllRight(syn, Changed(Some(syn), rows, k, chars)) <==>
      !PassFallsShort(syn, WithChars(syn, rows, k, chars), k, |WithChars(syn, rows, k, chars)|)
  {
    EditKeepsColours(syn, rows, k, chars);
  }

  lemma AddKeepsColours(syn: EditorSyntax, rows: seq<EditorRow>, at: nat, chars: string)
    requires Ready(Some(syn), rows) && AllRight(syn, rows) && at <= |rows|
    ensures AllRight(syn, Added(Some(syn), rows, at, chars)) <==>
      !InsertFallsShort(syn, WithRow(syn, rows, at, chars), at, |WithRow(syn, rows, at, chars)| - 1)
  {
    InsertKeepsColours(syn, rows, at, chars);
  }

  lemma AddedIsRecoloured(syn: EditorSyntax, rows: seq<EditorRow>, at: nat, chars: string)
    requires Ready(Some(syn), rows) && at <= |rows|
    ensures var before := WithRow(syn, rows, at, chars);
      Added(Some(syn), rows, at, chars) == Recolour(syn, before, at, |before| - 1)
  {
    CachedIsPainted(rows);
    InsertedIsRecoloured(syn, rows, at, chars);
  }
}

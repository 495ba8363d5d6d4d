/** Backspace at the start of a row: the row is appended to the one above, whose pass may
run on through it and below, and is then deleted, after which nothing is coloured again.
When the two together leave a rightly coloured document right. */
module KiloJoining {
  import opened CString
  import opened KiloSyntax
  import opened KiloRows
  import opened KiloColour
  import opened KiloEdits
  import opened KiloMending

  /** Right but for row f, and with row f + 1 coloured as if it stood behind row f - 1. */
  predicate RightBut(syn: EditorSyntax, rows: seq<EditorRow>, f: nat)
    requires syn.Valid() && 0 < f < |rows| && Painted(rows)
  {
    && (forall j :: 0 <= j < |rows| && j != f && j != f + 1 ==> ColouredAt(syn, rows, j))
    && (forall j :: 0 <= j < |rows| && j != f ==> FlagAt(rows, j))
    && (f + 1 < |rows| ==> rows[f + 1].hl == ScanRow(syn, rows[f + 1].render, RowOpen(rows[f - 1])).hl)
  }

  lemma RightWithout(syn: EditorSyntax, rows: seq<EditorRow>, f: nat)
    requires syn.Valid() && 0 < f < |rows| && Painted(rows)
    ensures AllRight(syn, Deleted(rows, f)) <==> RightBut(syn, rows, f)
  {
    var r := Deleted(rows, f);
    forall j | 0 <= j < |rows| && j != f
      ensures FlagAt(rows, j) <==> FlagAt(r, if j < f then j else j - 1)
      ensures j != f + 1 ==> (ColouredAt(syn, rows, j) <==> ColouredAt(syn, r, if j < f then j else j - 1))
    {}
    assert f + 1 < |rows| ==> (ColouredAt(syn, r, f) <==>
      rows[f + 1].hl == ScanRow(syn, rows[f + 1].render, RowOpen(rows[f - 1])).hl);
    if AllRight(syn, r) {
      forall j | 0 <= j < |rows| && j != f
        ensures FlagAt(rows, j) && (j != f + 1 ==> ColouredAt(syn, rows, j))
      {
        var i := if j < f then j else j - 1;
        assert FlagAt(r, i) && ColouredAt(syn, r, i);
      }
    } else if RightBut(syn, rows, f) {
      forall i | 0 <= i < |r|
        ensures ColouredAt(syn, r, i) && FlagAt(r, i)
      {
        var j := if i < f then i else i + 1;
        assert FlagAt(rows, j);
        assert j != f + 1 ==> ColouredAt(syn, rows, j);
      }
    }
  }

  /** The row below f, coloured as from `was`, has other colours when it starts as `now`. */
  predicate Mismatch(syn: EditorSyntax, rows: seq<EditorRow>, f: nat, was: bool, now: bool)
    requires syn.Valid()
  {
    f + 1 < |rows| && was != now && !ScansAlike(syn, rows[f + 1].render)
  }

  /** `edited` has the characters of both rows in row f - 1, before the pass from there; row
      f, which goes afterwards, ends in a comment or not as `open` says. */
  predicate JoinedFallsShort(syn: EditorSyntax, edited: seq<EditorRow>, f: nat, open: bool)
    requires syn.Valid() && 0 < f < |edited| && Painted(edited)
  {
    var first := PaintedAt(syn, edited, f - 1);
    var second := PaintedAt(syn, first, f);
    if StopsAt(syn, edited, f - 1) then
      || (EndsInLineComment(syn, edited, f - 1) && edited[f - 1].hlOpenComment)
      || Mismatch(syn, edited, f, open, RowOpen(first[f - 1]))
    else if StopsAt(syn, first, f) || f + 1 == |edited| then
      Mismatch(syn, edited, f, open, RowOpen(first[f - 1]))
    else
      || PassFallsShort(syn, second, f + 1, |edited|)
      || Mismatch(syn, edited, f, RowOpen(second[f]), RowOpen(first[f - 1]))
  }

  predicate JoinFallsShort(syn: EditorSyntax, rows: seq<EditorRow>, f: nat)
    requires Ready(Some(syn), rows) && 0 < f < |rows|
  {
    CachedIsPainted(rows);
    JoinedFallsShort(syn, WithChars(syn, rows, f - 1, rows[f - 1].chars + rows[f].chars), f, RowOpen(rows[f]))
  }

  /** Right but for row k, whose characters have changed. */
  predicate EditedAt(syn: EditorSyntax, rows: seq<EditorRow>, k: nat, open: bool)
    requires syn.Valid() && k + 1 < |rows|
  {
    && Painted(rows)
    && (forall j :: 0 <= j < |rows| && j != k && j != k + 1 ==> ColouredAt(syn, rows, j))
    && (forall j :: 0 <= j < |rows| && j != k ==> FlagAt(rows, j))
    && open == RowOpen(rows[k + 1])
  }

  lemma JoinedPass(syn: EditorSyntax, edited: seq<EditorRow>, f: nat, open: bool)
    requires syn.Valid() && 0 < f < |edited| && EditedAt(syn, edited, f - 1, open)
    ensures AllRight(syn, Deleted(Recolour(syn, edited, f - 1, |edited|), f)) <==>
      !JoinedFallsShort(syn, edited, f, open)
  {
    var first := PaintedAt(syn, edited, f - 1);
    var changed := Recolour(syn, edited, f - 1, |edited|);
    RightWithout(syn, changed, f);
    if StopsAt(syn, edited, f - 1) {
      FirstRowOnly(syn, edited, f, open);
    } else if StopsAt(syn, first, f) || f + 1 == |edited| {
      BothRowsOnly(syn, edited, f, open);
    } else {
      BothRowsAndMore(syn, edited, f, open);
    }
  }

  lemma FirstRowOnly(syn: EditorSyntax, edited: seq<EditorRow>, f: nat, open: bool)
    requires syn.Valid() && 0 < f < |edited| && EditedAt(syn, edited, f - 1, open) && StopsAt(syn, edited, f - 1)
    ensures RightBut(syn, Recolour(syn, edited, f - 1, |edited|), f) <==> !JoinedFallsShort(syn, edited, f, open)
  {
    var first := PaintedAt(syn, edited, f - 1);
    var changed := Recolour(syn, edited, f - 1, |edited|);
    assert first[f - 1 := first[f - 1].(hlOpenComment := first[f - 1].hlOpenComment)] == first;
    assert changed == first;
    if EndsInLineComment(syn, edited, f - 1) { LineCommentRowIsClosed(syn, edited, f - 1); }
    FirstIsRight(syn, edited, f, open);
    RowBelowWas(syn, edited, f, open);
    assert FlagAt(changed, f - 1) <==> !(EndsInLineComment(syn, edited, f - 1) && edited[f - 1].hlOpenComment);
  }

  lemma FirstIsRight(syn: EditorSyntax, edited: seq<EditorRow>, f: nat, open: bool)
    requires syn.Valid() && 0 < f < |edited| && EditedAt(syn, edited, f - 1, open)
    ensures var first := PaintedAt(syn, edited, f - 1);
      && (forall j :: 0 <= j < |edited| && j != f ==> ColouredAt(syn, first, j))
      && (forall j :: 0 <= j < |edited| && j != f - 1 ==> FlagAt(first, j))
  {
    var first := PaintedAt(syn, edited, f - 1);
    forall j | 0 <= j < |edited|
      ensures j != f ==> ColouredAt(syn, first, j)
      ensures j != f - 1 ==> FlagAt(first, j)
    {
      assert j != f - 1 ==> FlagAt(edited, j);
      assert j != f - 1 && j != f ==> ColouredAt(syn, edited, j);
    }
  }

  lemma RowBelowWas(syn: EditorSyntax, edited: seq<EditorRow>, f: nat, open: bool)
    requires syn.Valid() && 0 < f < |edited| && EditedAt(syn, edited, f - 1, open)
    ensures f + 1 < |edited| ==> edited[f + 1].hl == ScanRow(syn, edited[f + 1].render, open).hl
  {
    if f + 1 < |edited| { assert ColouredAt(syn, edited, f + 1); }
  }

  lemma BothRowsOnly(syn: EditorSyntax, edited: seq<EditorRow>, f: nat, open: bool)
    requires syn.Valid() && 0 < f < |edited| && EditedAt(syn, edited, f - 1, open) && !StopsAt(syn, edited, f - 1)
    requires StopsAt(syn, PaintedAt(syn, edited, f - 1), f) || f + 1 == |edited|
    ensures RightBut(syn, Recolour(syn, edited, f - 1, |edited|), f) <==> !JoinedFallsShort(syn, edited, f, open)
  {
    var changed := Recolour(syn, edited, f - 1, |edited|);
    BothRowsKept(syn, edited, f);
    FirstIsRight(syn, edited, f, open);
    RowBelowWas(syn, edited, f, open);
    BothRowsRight(syn, PaintedAt(syn, edited, f - 1), changed, f);
  }

  /** But for row f, the pass only paints the first row and stores its flag. */
  lemma BothRowsKept(syn: EditorSyntax, edited: seq<EditorRow>, f: nat)
    requires syn.Valid() && 0 < f < |edited| && Painted(edited) && !StopsAt(syn, edited, f - 1)
    requires StopsAt(syn, PaintedAt(syn, edited, f - 1), f) || f + 1 == |edited|
    ensures var first, changed := PaintedAt(syn, edited, f - 1), Recolour(syn, edited, f - 1, |edited|);
      && Painted(changed)
      && changed[f - 1] == first[f - 1].(hlOpenComment := RowOpen(first[f - 1]))
      && forall j :: 0 <= j < |edited| && j != f && j != f - 1 ==> changed[j] == first[j]
  {
    var first := PaintedAt(syn, edited, f - 1);
    var below := Recolour(syn, first, f, |edited|);
    assert forall j :: 0 <= j < |edited| && j != f ==> below[j] == first[j];
  }

  lemma BothRowsRight(syn: EditorSyntax, first: seq<EditorRow>, changed: seq<EditorRow>, f: nat)
    requires syn.Valid() && 0 < f < |first| == |changed| && Painted(first) && Painted(changed)
    requires forall j :: 0 <= j < |first| && j != f ==> ColouredAt(syn, first, j)
    requires forall j :: 0 <= j < |first| && j != f - 1 ==> FlagAt(first, j)
    requires changed[f - 1] == first[f - 1].(hlOpenComment := RowOpen(first[f - 1]))
    requires forall j :: 0 <= j < |first| && j != f && j != f - 1 ==> changed[j] == first[j]
    ensures forall j :: 0 <= j < |first| && j != f ==> FlagAt(changed, j)
    ensures forall j :: 0 <= j < |first| && j != f && j != f + 1 ==> ColouredAt(syn, changed, j)
  {
    forall j | 0 <= j < |first| && j != f
      ensures FlagAt(changed, j)
      ensures j != f + 1 ==> ColouredAt(syn, changed, j)
    {
      assert j != f - 1 ==> FlagAt(first, j);
      assert ColouredAt(syn, first, j);
    }
  }

  /** Both rows painted, and row f + 1 about to follow. */
  lemma BothRowsPainted(syn: EditorSyntax, edited: seq<EditorRow>, f: nat, open: bool)
    requires syn.Valid() && 0 < f && f + 1 < |edited| && EditedAt(syn, edited, f - 1, open)
    ensures ReadyAt(syn, PaintedAt(syn, PaintedAt(syn, edited, f - 1), f), f + 1)
  {
    var first := PaintedAt(syn, edited, f - 1);
    var second := PaintedAt(syn, first, f);
    FirstIsRight(syn, edited, f, open);
    forall j | 0 <= j < |edited|
      ensures j != f + 1 ==> ColouredAt(syn, second, j)
      ensures j > f ==> FlagAt(second, j)
    {
      assert j != f - 1 ==> FlagAt(first, j);
      assert j != f ==> ColouredAt(syn, first, j);
    }
    if f + 2 < |edited| { assert ColouredAt(syn, second, f + 2) && FlagAt(second, f + 1); }
  }

  /** What the pass through both rows makes of the document. */
  function BothAndBelow(syn: EditorSyntax, edited: seq<EditorRow>, f: nat): (r: seq<EditorRow>)
    requires syn.Valid() && 0 < f && f + 1 < |edited| && Painted(edited)
    ensures |r| == |edited| && Painted(r)
  {
    var first := PaintedAt(syn, edited, f - 1);
    var second := PaintedAt(syn, first, f);
    var below := Recolour(syn, second, f + 1, |edited|);
    below[f := below[f].(hlOpenComment := RowOpen(second[f]))]
         [f - 1 := below[f - 1].(hlOpenComment := RowOpen(first[f - 1]))]
  }

  lemma PassThroughBoth(syn: EditorSyntax, edited: seq<EditorRow>, f: nat)
    requires syn.Valid() && 0 < f && f + 1 < |edited| && Painted(edited)
    requires !StopsAt(syn, edited, f - 1) && !StopsAt(syn, PaintedAt(syn, edited, f - 1), f)
    ensures Recolour(syn, edited, f - 1, |edited|) == BothAndBelow(syn, edited, f)
  {
    var first := PaintedAt(syn, edited, f - 1);
    var second := PaintedAt(syn, first, f);
    var below := Recolour(syn, second, f + 1, |edited|);
    assert Recolour(syn, first, f, |edited|) == below[f := below[f].(hlOpenComment := RowOpen(second[f]))];
  }

  lemma BothRowsAndMore(syn: EditorSyntax, edited: seq<EditorRow>, f: nat, open: bool)
    requires syn.Valid() && 0 < f && f + 1 < |edited| && EditedAt(syn, edited, f - 1, open)
    requires !StopsAt(syn, edited, f - 1) && !StopsAt(syn, PaintedAt(syn, edited, f - 1), f)
    ensures RightBut(syn, Recolour(syn, edited, f - 1, |edited|), f) <==> !JoinedFallsShort(syn, edited, f, open)
  {
    var first := PaintedAt(syn, edited, f - 1);
    var second := PaintedAt(syn, first, f);
    var below := Recolour(syn, second, f + 1, |edited|);
    var changed := BothAndBelow(syn, edited, f);
    PassThroughBoth(syn, edited, f);
    BothRowsPainted(syn, edited, f, open);
    RecolourRestores(syn, second, f + 1, |edited|);
    AboveThem(syn, edited, f, open);
    StoredFlags(syn, below, f, RowOpen(first[f - 1]), RowOpen(second[f]));
    MoreBelow(syn, changed, below, f);
  }

  lemma AboveThem(syn: EditorSyntax, edited: seq<EditorRow>, f: nat, open: bool)
    requires syn.Valid() && 0 < f && f + 1 < |edited| && EditedAt(syn, edited, f - 1, open)
    ensures var below := Recolour(syn, PaintedAt(syn, PaintedAt(syn, edited, f - 1), f), f + 1, |edited|);
      forall j :: 0 <= j <= f + 1 ==> ColouredAt(syn, below, j)
    ensures forall j :: 0 <= j < f ==> FlagAt(BothAndBelow(syn, edited, f), j)
  {
    var second := PaintedAt(syn, PaintedAt(syn, edited, f - 1), f);
    var below := Recolour(syn, second, f + 1, |edited|);
    BothRowsPainted(syn, edited, f, open);
    RecolourPaintsItsRow(syn, second, f + 1, |edited|);
    forall j | 0 <= j < f
      ensures FlagAt(BothAndBelow(syn, edited, f), j)
    {
      assert j < f - 1 ==> FlagAt(edited, j);
    }
    forall j | 0 <= j <= f
      ensures ColouredAt(syn, below, j)
    {
      assert ColouredAt(syn, second, j);
    }
  }

  /** The two flags stored on the way back up change no colour. */
  lemma StoredFlags(syn: EditorSyntax, below: seq<EditorRow>, f: nat, upper: bool, lower: bool)
    requires syn.Valid() && 0 < f < |below| && Painted(below)
    ensures var r := below[f := below[f].(hlOpenComment := lower)][f - 1 := below[f - 1].(hlOpenComment := upper)];
      && Painted(r)
      && (forall j :: 0 <= j < |below| ==> (ColouredAt(syn, r, j) <==> ColouredAt(syn, below, j)))
      && (forall j :: f < j < |below| ==> (FlagAt(r, j) <==> FlagAt(below, j)))
  {}

  lemma MoreBelow(syn: EditorSyntax, rows: seq<EditorRow>, below: seq<EditorRow>, f: nat)
    requires syn.Valid() && 0 < f && f + 1 < |rows| == |below| && Painted(rows) && Painted(below)
    requires forall j :: 0 <= j < |rows| ==> (ColouredAt(syn, rows, j) <==> ColouredAt(syn, below, j))
    requires forall j :: f < j < |rows| ==> (FlagAt(rows, j) <==> FlagAt(below, j))
    requires (forall j :: 0 <= j < f ==> FlagAt(rows, j)) && (forall j :: 0 <= j <= f + 1 ==> ColouredAt(syn, below, j))
    ensures RightBut(syn, rows, f) <==>
      RightFrom(syn, below, f + 1) && !Mismatch(syn, rows, f, RowOpen(rows[f]), RowOpen(rows[f - 1]))
  {
    assert ColouredAt(syn, below, f + 1);
    assert ColouredAt(syn, rows, f + 1);
    if RightBut(syn, rows, f) {
      forall j | 0 <= j < |rows|
        ensures ColouredAt(syn, below, j)
      {
        assert j > f + 1 ==> ColouredAt(syn, rows, j);
      }
    } else if RightFrom(syn, below, f + 1) {
      forall j | 0 <= j < |rows|
        ensures ColouredAt(syn, rows, j) && (j > f ==> FlagAt(rows, j))
      {
        assert ColouredAt(syn, below, j);
      }
    }
  }

  lemma JoinKeepsColours(syn: EditorSyntax, rows: seq<EditorRow>, f: nat)
    requires Ready(Some(syn), rows) && AllRight(syn, rows) && 0 < f < |rows|
    ensures AllRight(syn, JoinedRows(Some(syn), rows, f)) <==> !JoinFallsShort(syn, rows, f)
  {
    var both := rows[f - 1].chars + rows[f].chars;
    var edited := WithChars(syn, rows, f - 1, both);
    ChangedIsRecoloured(syn, rows, f - 1, both);
    EditedRow(syn, rows, edited, f);
    JoinedPass(syn, edited, f, RowOpen(rows[f]));
  }

  lemma EditedRow(syn: EditorSyntax, rows: seq<EditorRow>, edited: seq<EditorRow>, f: nat)
    requires syn.Valid() && AllRight(syn, rows) && 0 < f < |rows| == |edited| && Painted(edited)
    requires forall j :: 0 <= j < |rows| && j != f - 1 ==> edited[j] == rows[j]
    ensures EditedAt(syn, edited, f - 1, RowOpen(rows[f]))
  {
    forall j | 0 <= j < |rows|
      ensures j != f - 1 && j != f ==> ColouredAt(syn, edited, j)
      ensures j != f - 1 ==> FlagAt(edited, j)
    {
      assert ColouredAt(syn, rows, j) && FlagAt(rows, j);
    }
  }
}

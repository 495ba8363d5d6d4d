/** Colours of a whole document: after loading, and across edits inside a row. */
module KiloColour {
  import opened CString
  import opened KiloRender
  import opened KiloSyntax
  import opened KiloRows

  // ----- loading ---------------------------------------------------------

  /** The rows after SelectSyntaxHighlight has called UpdateSyntax on rows 0..k. */
  function FullPass(syn: EditorSyntax, rows: seq<EditorRow>, k: nat): (r: seq<EditorRow>)
    requires syn.Valid() && k <= |rows| && Painted(rows)
    ensures |r| == |rows| && Painted(r)
    ensures forall j :: 0 <= j < |rows| ==>
      r[j].idx == rows[j].idx && r[j].chars == rows[j].chars && r[j].render == rows[j].render
  {
    if k == 0 then rows else Recolour(syn, FullPass(syn, rows, k - 1), k - 1, |rows|)
  }

  lemma {:induction false} FullPassColours(syn: EditorSyntax, rows: seq<EditorRow>, k: nat)
    requires syn.Valid() && k <= |rows| && Painted(rows)
    ensures forall j :: 0 <= j < k ==> ColouredAt(syn, FullPass(syn, rows, k), j)
  {
    if k > 0 {
      FullPassColours(syn, rows, k - 1);
      OneRowColoured(syn, FullPass(syn, rows, k - 1), k - 1, |rows|);
    }
  }

  lemma OneRowColoured(syn: EditorSyntax, before: seq<EditorRow>, k: nat, n: nat)
    requires syn.Valid() && k < |before| == n && Painted(before)
    requires forall j :: 0 <= j < k ==> ColouredAt(syn, before, j)
    ensures forall j :: 0 <= j <= k ==> ColouredAt(syn, Recolour(syn, before, k, n), j)
  {
    var after := Recolour(syn, before, k, n);
    forall j | 0 <= j <= k
      ensures ColouredAt(syn, after, j)
    {
      if j < k {
        assert ColouredAt(syn, before, j) && after[j] == before[j];
        SameAbove(syn, before, after, j);
      } else {
        RecolourPaintsItsRow(syn, before, k, n);
      }
    }
  }

  lemma SameAbove(syn: EditorSyntax, before: seq<EditorRow>, after: seq<EditorRow>, j: nat)
    requires syn.Valid() && j < |before| == |after| && Painted(before) && Painted(after)
    requires ColouredAt(syn, before, j) && after[j] == before[j] && (j > 0 ==> after[j - 1] == before[j - 1])
    ensures ColouredAt(syn, after, j)
  {}

  lemma RecolourPaintsItsRow(syn: EditorSyntax, rows: seq<EditorRow>, k: nat, n: nat)
    requires syn.Valid() && k < |rows| && n <= |rows| && Painted(rows)
    ensures ColouredAt(syn, Recolour(syn, rows, k, n), k)
  {}

  /** Rows from k on have never been scanned since they were inserted. */
  predicate FreshFrom(rows: seq<EditorRow>, k: nat) {
    forall j :: k <= j < |rows| ==> !rows[j].hlOpenComment
  }

  /** The pass from the first unscanned row leaves everything it scanned right, and the
      rows it did not reach unscanned. */
  lemma {:induction false} RecolourAdvances(syn: EditorSyntax, rows: seq<EditorRow>, k: nat) returns (m: nat)
    requires syn.Valid() && k < |rows| && Painted(rows) && FreshFrom(rows, k)
    requires forall j :: 0 <= j < k ==> ColouredAt(syn, rows, j)
    ensures var r := Recolour(syn, rows, k, |rows|);
            && k < m <= |rows| && FreshFrom(r, m)
            && (forall j :: 0 <= j < m ==> ColouredAt(syn, r, j))
            && (forall j :: k <= j < m ==> FlagAt(r, j))
    decreases |rows| - k
  {
    var out := ScanRow(syn, rows[k].render, StartsInComment(rows, k));
    var painted := rows[k := rows[k].(hl := out.hl)];
    PaintedIsColoured(syn, rows, k);
    m := k + 1;
    if out.lineComment {
      LineCommentRowIsClosed(syn, rows, k);
    } else {
      var open := RowOpen(painted[k]);
      var below := painted;
      if open && k + 1 < |rows| {
        m := RecolourAdvances(syn, painted, k + 1);
        below := Recolour(syn, painted, k + 1, |rows|);
      }
      StoreFlag(syn, below, k, m, open);
    }
  }

  lemma PaintedIsColoured(syn: EditorSyntax, rows: seq<EditorRow>, k: nat)
    requires syn.Valid() && k < |rows| && Painted(rows)
    requires forall j :: 0 <= j < k ==> ColouredAt(syn, rows, j)
    ensures var painted := rows[k := rows[k].(hl := ScanRow(syn, rows[k].render, StartsInComment(rows, k)).hl)];
            Painted(painted) && forall j :: 0 <= j <= k ==> ColouredAt(syn, painted, j)
  {
    var painted := rows[k := rows[k].(hl := ScanRow(syn, rows[k].render, StartsInComment(rows, k)).hl)];
    forall j | 0 <= j <= k
      ensures ColouredAt(syn, painted, j)
    {
      if j < k { assert ColouredAt(syn, rows, j); }
    }
  }

  lemma StoreFlag(syn: EditorSyntax, below: seq<EditorRow>, k: nat, m: nat, open: bool)
    requires syn.Valid() && k < m <= |below| && Painted(below) && open == RowOpen(below[k])
    requires forall j :: 0 <= j < m ==> ColouredAt(syn, below, j)
    requires forall j :: k < j < m ==> FlagAt(below, j)
    ensures var r := below[k := below[k].(hlOpenComment := open)];
            && Painted(r)
            && (forall j :: 0 <= j < m ==> ColouredAt(syn, r, j))
            && (forall j :: k <= j < m ==> FlagAt(r, j))
  {
    StoredFlagKeepsColours(syn, below, k, open);
    var r := below[k := below[k].(hlOpenComment := open)];
    forall j | k <= j < m
      ensures FlagAt(r, j)
    {
      if j > k { assert FlagAt(below, j); }
    }
  }

  lemma StoredFlagKeepsColours(syn: EditorSyntax, rows: seq<EditorRow>, k: nat, open: bool)
    requires syn.Valid() && k < |rows| && Painted(rows)
    ensures var r := rows[k := rows[k].(hlOpenComment := open)];
            Painted(r) && forall j :: 0 <= j < |rows| ==> (ColouredAt(syn, r, j) <==> ColouredAt(syn, rows, j))
  {}

  /** A row that is right stays as it is when it is scanned again. */
  lemma RecolourRightRow(syn: EditorSyntax, rows: seq<EditorRow>, k: nat)
    requires syn.Valid() && k < |rows| && Painted(rows) && ColouredAt(syn, rows, k) && FlagAt(rows, k)
    ensures Recolour(syn, rows, k, |rows|) == rows
  {
    assert rows[k := rows[k].(hl := rows[k].hl)] == rows;
  }

  /** The first m rows are right, and the others as they were loaded. */
  predicate RightUpTo(syn: EditorSyntax, rows: seq<EditorRow>, m: nat)
    requires syn.Valid()
  {
    && m <= |rows| && Painted(rows) && FreshFrom(rows, m)
    && forall j :: 0 <= j < m ==> ColouredAt(syn, rows, j) && FlagAt(rows, j)
  }

  lemma {:induction false} FullPassFlags(syn: EditorSyntax, rows: seq<EditorRow>, k: nat)
    returns (m: nat, r: seq<EditorRow>)
    requires syn.Valid() && k <= |rows| && Painted(rows) && FreshFrom(rows, 0)
    ensures r == FullPass(syn, rows, k) && k <= m && RightUpTo(syn, r, m)
  {
    m, r := 0, rows;
    if k > 0 {
      var before;
      m, before := FullPassFlags(syn, rows, k - 1);
      m, r := PassOneRow(syn, before, k - 1, m, |rows|);
      OnePassMore(syn, rows, k, before, r);
    }
  }

  lemma OnePassMore(syn: EditorSyntax, rows: seq<EditorRow>, k: nat, before: seq<EditorRow>, after: seq<EditorRow>)
    requires syn.Valid() && 0 < k <= |rows| && Painted(rows) && before == FullPass(syn, rows, k - 1)
    requires after == Recolour(syn, before, k - 1, |rows|)
    ensures after == FullPass(syn, rows, k)
  {}

  /** The first m0 rows are right, at least k; so are more than k after the pass from row k. */
  lemma PassOneRow(syn: EditorSyntax, before: seq<EditorRow>, k: nat, m0: nat, n: nat)
    returns (m: nat, r: seq<EditorRow>)
    requires syn.Valid() && k < |before| == n && k <= m0 && RightUpTo(syn, before, m0)
    ensures r == Recolour(syn, before, k, n) && k < m && RightUpTo(syn, r, m)
  {
    r := Recolour(syn, before, k, n);
    if k < m0 {
      RecolourRightRow(syn, before, k);
      m := m0;
    } else {
      m := RecolourAdvances(syn, before, k);
      FlagsKept(before, r, k);
    }
  }

  lemma FlagsKept(before: seq<EditorRow>, r: seq<EditorRow>, k: nat)
    requires k <= |before| == |r| && Painted(before) && Painted(r)
    requires forall j :: 0 <= j < k ==> FlagAt(before, j) && r[j] == before[j]
    ensures forall j :: 0 <= j < k ==> FlagAt(r, j)
  {
    forall j | 0 <= j < k
      ensures FlagAt(r, j)
    {
      assert FlagAt(before, j);
    }
  }

  /** Loading: from freshly inserted rows the pass over the document leaves every row with
      the colours of a scan that starts as the row above ends, and with the right flag. */
  lemma FullPassIsRight(syn: EditorSyntax, rows: seq<EditorRow>)
    requires syn.Valid() && Painted(rows) && FreshFrom(rows, 0)
    ensures var r := FullPass(syn, rows, |rows|); AllRight(syn, r)
  {
    var _, _ := FullPassFlags(syn, rows, |rows|);
  }

  lemma FullPassStep(syn: EditorSyntax, rows: seq<EditorRow>, k: nat)
    requires syn.Valid() && k < |rows| && Cached(rows) && Painted(rows)
    ensures var before := FullPass(syn, rows, k);
            && FullPass(syn, rows, k + 1) == Recolour(syn, before, k, |rows|)
            && forall j :: k <= j < |rows| ==> before[j].idx == j
  {
    var before := FullPass(syn, rows, k);
    forall j | k <= j < |rows|
      ensures before[j].idx == j
    {
      assert RowCached(rows, j);
    }
  }

  lemma FullPassKeepsCaches(syn: EditorSyntax, rows: seq<EditorRow>)
    requires syn.Valid() && Cached(rows) && Painted(rows)
    ensures Cached(FullPass(syn, rows, |rows|)) && Chars(FullPass(syn, rows, |rows|)) == Chars(rows)
  {
    var r := FullPass(syn, rows, |rows|);
    forall j | 0 <= j < |rows|
      ensures RowCached(r, j)
    {
      assert RowCached(rows, j);
    }
  }

  // ----- edits inside a row ----------------------------------------------

  lemma RecolourIgnoresOldColours(syn: EditorSyntax, rows: seq<EditorRow>, k: nat, n: nat, hl: seq<Highlight>)
    requires syn.Valid() && k < |rows| && n <= |rows| && PaintedAbove(rows, k)
    ensures Recolour(syn, rows[k := rows[k].(hl := hl)], k, n) == Recolour(syn, rows, k, n)
  {
    var other := rows[k := rows[k].(hl := hl)];
    var out := ScanRow(syn, rows[k].render, StartsInComment(rows, k));
    assert other[k := other[k].(hl := out.hl)] == rows[k := rows[k].(hl := out.hl)];
  }

  function Edited(rows: seq<EditorRow>, k: nat, chars: string): seq<EditorRow>
    requires k < |rows|
  {
    var render := Expand(chars);
    rows[k := rows[k].(chars := chars, render := render, hl := AllNormal(|render|))]
  }

  lemma SetIsRecoloured(syn: EditorSyntax, rows: seq<EditorRow>, k: nat, chars: string)
    requires syn.Valid() && k < |rows| && Painted(rows)
    ensures var edited := Edited(rows, k, chars);
      && Painted(edited)
      && SetChars(Some(syn), rows, k, |rows|, chars) == Recolour(syn, edited, k, |edited|)
  {
    var plain := rows[k := rows[k].(chars := chars, render := Expand(chars))];
    RecolourIgnoresOldColours(syn, plain, k, |rows|, AllNormal(|Expand(chars)|));
    assert plain[k := plain[k].(hl := AllNormal(|Expand(chars)|))] == Edited(rows, k, chars);
  }

  lemma EditedIsReady(syn: EditorSyntax, rows: seq<EditorRow>, k: nat, chars: string)
    requires syn.Valid() && k < |rows| && AllRight(syn, rows)
    ensures ReadyAt(syn, Edited(rows, k, chars), k)
  {
    var edited := Edited(rows, k, chars);
    forall j | 0 <= j < |rows| && j != k
      ensures j > k ==> FlagAt(edited, j)
      ensures j != k + 1 ==> ColouredAt(syn, edited, j)
    {
      assert FlagAt(rows, j) && ColouredAt(syn, rows, j);
    }
    if k + 1 < |rows| {
      assert ColouredAt(syn, rows, k + 1) && FlagAt(rows, k);
    }
  }

  /** Rows whose flags above k have not been touched. */
  lemma FlagsAbove(syn: EditorSyntax, rows: seq<EditorRow>, r: seq<EditorRow>, k: nat)
    requires syn.Valid() && k <= |rows| == |r| && Painted(rows)
    requires forall j :: 0 <= j < k ==> r[j] == rows[j] && FlagAt(rows, j)
    ensures AllRight(syn, r) <==> RightFrom(syn, r, k)
  {
    if RightFrom(syn, r, k) {
      forall j | 0 <= j < |r|
        ensures FlagAt(r, j)
      {
        if j < k { assert FlagAt(rows, j); }
      }
    }
  }

  /** An edit inside a row of a rightly coloured document keeps the whole document rightly
      coloured exactly when its pass does not fall short, that is, is not stopped on a stale flag. */
  lemma EditKeepsColours(syn: EditorSyntax, rows: seq<EditorRow>, k: nat, chars: string)
    requires syn.Valid() && k < |rows| && AllRight(syn, rows)
    ensures var r := SetChars(Some(syn), rows, k, |rows|, chars);
            AllRight(syn, r) <==> !PassFallsShort(syn, Edited(rows, k, chars), k, |rows|)
  {
    var edited := Edited(rows, k, chars);
    SetIsRecoloured(syn, rows, k, chars);
    EditedIsReady(syn, rows, k, chars);
    RecolourRestores(syn, edited, k, |edited|);
    FlagsAbove(syn, rows, Recolour(syn, edited, k, |edited|), k);
  }

  // ----- whole rows ------------------------------------------------------

  /** InsertRow's pass leaves something wrong when the pass through the rows below falls
      short, or when it does not look below although the new row changes how the row
      below starts. */
  predicate InsertFallsShort(syn: EditorSyntax, rows: seq<EditorRow>, at: nat, n: nat)
    requires syn.Valid() && at < |rows| == n + 1 && PaintedAbove(rows, at)
  {
    var row := rows[at].(hl := ScanRow(syn, rows[at].render, StartsInComment(rows, at)).hl);
    if RowOpen(row) && at + 1 < n then PassFallsShort(syn, rows[at := row], at + 1, n)
    else at < n && RowOpen(row) != StartsInComment(rows, at) && !ScansAlike(syn, rows[at + 1].render)
  }

  /** The document around a row inserted at `at`, before its pass. */
  predicate SplitAt(syn: EditorSyntax, rows: seq<EditorRow>, at: nat)
    requires syn.Valid() && at < |rows|
  {
    && Painted(rows) && !rows[at].hlOpenComment
    && (forall j :: 0 <= j < at ==> ColouredAt(syn, rows, j) && FlagAt(rows, j))
    && (forall j :: at < j < |rows| ==> FlagAt(rows, j))
    && (forall j :: at + 1 < j < |rows| ==> ColouredAt(syn, rows, j))
    && (at + 1 < |rows| ==>
          rows[at + 1].hl == ScanRow(syn, rows[at + 1].render, StartsInComment(rows, at)).hl)
  }

  lemma SplitPassIsRight(syn: EditorSyntax, rows: seq<EditorRow>, at: nat, n: nat)
    requires syn.Valid() && at < |rows| == n + 1 && SplitAt(syn, rows, at)
    ensures RightFrom(syn, Recolour(syn, rows, at, n), at) <==> !InsertFallsShort(syn, rows, at, n)
  {
    var out := ScanRow(syn, rows[at].render, StartsInComment(rows, at));
    var row := rows[at].(hl := out.hl);
    var painted := rows[at := row];
    PaintedSplit(syn, rows, at);
    if out.lineComment {
      LineCommentRowIsClosed(syn, rows, at);
    }
    if RowOpen(row) && at + 1 < n {
      RecolourRestores(syn, painted, at + 1, n);
      FlagFromBelow(syn, Recolour(syn, painted, at + 1, n), at, true);
    } else {
      FlagFromBelow(syn, painted, at, RowOpen(row));
      assert out.lineComment ==> painted[at := painted[at].(hlOpenComment := RowOpen(row))] == painted;
    }
  }

  lemma SplitPassKeepsColours(syn: EditorSyntax, rows: seq<EditorRow>, at: nat, n: nat)
    requires syn.Valid() && at < |rows| == n + 1 && SplitAt(syn, rows, at)
    ensures AllRight(syn, Recolour(syn, rows, at, n)) <==> !InsertFallsShort(syn, rows, at, n)
  {
    SplitPassIsRight(syn, rows, at, n);
    FlagsAbove(syn, rows, Recolour(syn, rows, at, n), at);
  }

  lemma PaintedSplit(syn: EditorSyntax, rows: seq<EditorRow>, at: nat)
    requires syn.Valid() && at < |rows| && SplitAt(syn, rows, at)
    ensures var row := rows[at].(hl := ScanRow(syn, rows[at].render, StartsInComment(rows, at)).hl);
            var painted := rows[at := row];
            && Painted(painted)
            && (at + 1 < |rows| ==> ReadyAt(syn, painted, at + 1))
            && (RightFrom(syn, painted, at + 1) <==>
                (at + 1 < |rows| ==> rows[at + 1].hl == ScanRow(syn, rows[at + 1].render, RowOpen(row)).hl))
  {
    var row := rows[at].(hl := ScanRow(syn, rows[at].render, StartsInComment(rows, at)).hl);
    var painted := rows[at := row];
    PaintedIsColoured(syn, rows, at);
    forall j | at < j < |rows|
      ensures FlagAt(painted, j) && (at + 1 < j ==> ColouredAt(syn, painted, j))
    {
      assert FlagAt(rows, j);
      assert at + 1 < j ==> ColouredAt(syn, rows, j);
    }
    if at + 2 < |rows| {
      assert ColouredAt(syn, rows, at + 2) && FlagAt(rows, at + 1);
    }
    assert at + 1 < |rows| ==> (ColouredAt(syn, painted, at + 1) <==>
      rows[at + 1].hl == ScanRow(syn, rows[at + 1].render, RowOpen(row)).hl);
  }

  /** A row inserted into a rightly coloured document keeps all of it right exactly when
      the insertion does not fall short. */
  lemma InsertKeepsColours(syn: EditorSyntax, rows: seq<EditorRow>, at: nat, chars: string)
    requires syn.Valid() && at <= |rows| && AllRight(syn, rows)
    ensures var r := Inserted(Some(syn), rows, at, chars);
            var before := Edited(Shifted(rows, at), at, chars);
            && PaintedAbove(before, at)
            && (AllRight(syn, r) <==> !InsertFallsShort(syn, before, at, |rows|))
  {
    var before := Edited(Shifted(rows, at), at, chars);
    InsertedIsRecoloured(syn, rows, at, chars);
    ShiftedIsSplit(syn, rows, at, chars);
    SplitPassKeepsColours(syn, before, at, |rows|);
  }

  lemma InsertedIsRecoloured(syn: EditorSyntax, rows: seq<EditorRow>, at: nat, chars: string)
    requires syn.Valid() && at <= |rows| && Painted(rows)
    ensures var before := Edited(Shifted(rows, at), at, chars);
            && PaintedAbove(before, at)
            && Inserted(Some(syn), rows, at, chars) == Recolour(syn, before, at, |rows|)
  {
    var shifted := Shifted(rows, at);
    assert at > 0 ==> shifted[at - 1] == rows[at - 1];
    var plain := shifted[at := shifted[at].(chars := chars, render := Expand(chars))];
    RecolourIgnoresOldColours(syn, plain, at, |rows|, AllNormal(|Expand(chars)|));
    assert plain[at := plain[at].(hl := AllNormal(|Expand(chars)|))] == Edited(shifted, at, chars);
  }

  lemma ShiftedIsSplit(syn: EditorSyntax, rows: seq<EditorRow>, at: nat, chars: string)
    requires syn.Valid() && at <= |rows| && AllRight(syn, rows)
    ensures SplitAt(syn, Edited(Shifted(rows, at), at, chars), at)
  {
    var before := Edited(Shifted(rows, at), at, chars);
    forall j | 0 <= j < at
      ensures ColouredAt(syn, before, j) && FlagAt(before, j)
    {
      assert ColouredAt(syn, rows, j) && FlagAt(rows, j);
    }
    forall j | at < j < |before|
      ensures FlagAt(before, j) && (j > at + 1 ==> ColouredAt(syn, before, j))
    {
      assert FlagAt(rows, j - 1) && ColouredAt(syn, rows, j - 1);
    }
    if at < |rows| {
      assert ColouredAt(syn, rows, at);
      assert at > 0 ==> before[at - 1] == rows[at - 1];
    }
  }

  /** A row deleted from a rightly coloured document leaves it right exactly when it was the
      last one, or a comment was open behind it just if one was in front of it, or the row
      below looks the same either way. */
  lemma DeleteKeepsColours(syn: EditorSyntax, rows: seq<EditorRow>, at: nat)
    requires syn.Valid() && at < |rows| && AllRight(syn, rows)
    ensures var r := Deleted(rows, at);
            AllRight(syn, r) <==>
            at + 1 == |rows| || RowOpen(rows[at]) == StartsInComment(rows, at) || ScansAlike(syn, rows[at + 1].render)
  {
    var r := Deleted(rows, at);
    forall j | 0 <= j < |r|
      ensures FlagAt(r, j) && (j != at ==> ColouredAt(syn, r, j))
    {
      var i := if j < at then j else j + 1;
      assert FlagAt(rows, i) && ColouredAt(syn, rows, i);
    }
    if at < |r| {
      assert ColouredAt(syn, rows, at + 1);
      assert ColouredAt(syn, r, at) <==>
        rows[at + 1].hl == ScanRow(syn, rows[at + 1].render, StartsInComment(rows, at)).hl;
    }
  }
}

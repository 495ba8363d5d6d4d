/** The row array: cached renderings, cached colours, and the re-colouring that runs
down the document until a row's open-comment flag stops changing. */
module KiloRows {
  import opened CString
  import opened KiloRender
  import opened KiloSyntax

  datatype EditorRow = EditorRow(
    idx: int, chars: string, render: string, hl: seq<Highlight>, hlOpenComment: bool)

  function Chars(rows: seq<EditorRow>): (t: seq<string>)
    ensures |t| == |rows| && forall k :: 0 <= k < |rows| ==> t[k] == rows[k].chars
  {
    seq(|rows|, k requires 0 <= k < |rows| => rows[k].chars)
  }

  /** Row k knows its number, its rendering is its tab expansion, and every character of
      the rendering has a colour. */
  predicate RowCached(rows: seq<EditorRow>, k: nat)
    requires k < |rows|
  {
    && rows[k].idx == k
    && rows[k].render == Expand(rows[k].chars)
    && |rows[k].hl| == |rows[k].render|
  }

  predicate Cached(rows: seq<EditorRow>) {
    forall k :: 0 <= k < |rows| ==> RowCached(rows, k)
  }

  predicate Painted(rows: seq<EditorRow>) {
    forall k :: 0 <= k < |rows| ==> |rows[k].hl| == |rows[k].render|
  }

  predicate PaintedAbove(rows: seq<EditorRow>, k: nat)
    requires k < |rows|
  {
    k > 0 ==> |rows[k - 1].hl| == |rows[k - 1].render|
  }

  predicate RowOpen(row: EditorRow)
    requires |row.hl| == |row.render|
  {
    HasOpenComment(row.render, row.hl)
  }

  /** Whether row k starts inside a comment, going by the colours of the row above. */
  predicate StartsInComment(rows: seq<EditorRow>, k: nat)
    requires k < |rows| && PaintedAbove(rows, k)
  {
    k > 0 && RowOpen(rows[k - 1])
  }

  // ----- UpdateSyntax ----------------------------------------------------

  /** Re-colour row k. A row that ends in a line comment stops the pass and keeps its
      flag; otherwise the row below follows if the flag changes. `n` is the row count the
      pass goes by, which InsertRow has not raised yet when it calls it. */
  function Recolour(syn: EditorSyntax, rows: seq<EditorRow>, k: nat, n: nat): (r: seq<EditorRow>)
    requires syn.Valid() && k < |rows| && n <= |rows| && PaintedAbove(rows, k)
    ensures |r| == |rows|
    ensures forall j :: 0 <= j < k ==> r[j] == rows[j]
    ensures forall j :: k <= j < |rows| ==>
      && r[j].idx == rows[j].idx && r[j].chars == rows[j].chars && r[j].render == rows[j].render
      && (|rows[j].hl| == |rows[j].render| || j == k ==> |r[j].hl| == |r[j].render|)
    decreases |rows| - k
  {
    var out := ScanRow(syn, rows[k].render, StartsInComment(rows, k));
    var row := rows[k].(hl := out.hl);
    var painted := rows[k := row];
    if out.lineComment then painted
    else
      var open := RowOpen(row);
      var below := if row.hlOpenComment != open && k + 1 < n then Recolour(syn, painted, k + 1, n) else painted;
      below[k := below[k].(hlOpenComment := open)]
  }

  /** Without a syntax every character gets the normal colour. */
  function UpdateSyntax(syntax: Option<EditorSyntax>, rows: seq<EditorRow>, k: nat, n: nat): (r: seq<EditorRow>)
    requires syntax.Some? ==> syntax.value.Valid()
    requires k < |rows| && n <= |rows| && PaintedAbove(rows, k)
    ensures |r| == |rows|
  {
    match syntax
    case None => rows[k := rows[k].(hl := AllNormal(|rows[k].render|))]
    case Some(syn) => Recolour(syn, rows, k, n)
  }

  /** UpdateRow after the characters of row k became `chars`. */
  function SetChars(syntax: Option<EditorSyntax>, rows: seq<EditorRow>, k: nat, n: nat, chars: string)
    : (r: seq<EditorRow>)
    requires syntax.Some? ==> syntax.value.Valid()
    requires k < |rows| && n <= |rows| && PaintedAbove(rows, k)
    ensures |r| == |rows|
  {
    UpdateSyntax(syntax, rows[k := rows[k].(chars := chars, render := Expand(chars))], k, n)
  }

  lemma SetCharsKeepsCaches(syntax: Option<EditorSyntax>, rows: seq<EditorRow>, k: nat, n: nat, chars: string)
    requires syntax.Some? ==> syntax.value.Valid()
    requires k < |rows| && n <= |rows| && rows[k].idx == k && PaintedAbove(rows, k)
    requires forall j :: 0 <= j < |rows| && j != k ==> RowCached(rows, j)
    ensures var r := SetChars(syntax, rows, k, n, chars);
            && Cached(r)
            && Chars(r) == Chars(rows)[k := chars]
  {
    var r := SetChars(syntax, rows, k, n, chars);
    forall j | 0 <= j < |rows|
      ensures RowCached(r, j)
    {
      if j != k { assert RowCached(rows, j); }
    }
  }

  // ----- InsertRow and DeleteRow -----------------------------------------

  /** Row `at` of `rows` after InsertRow: the rows below move down and are renumbered. */
  function Shifted(rows: seq<EditorRow>, at: nat): (r: seq<EditorRow>)
    requires at <= |rows|
    ensures |r| == |rows| + 1
    ensures forall j {:trigger r[j]} :: 0 <= j < at ==> r[j] == rows[j]
    ensures r[at] == EditorRow(at, "", "", [], false)
    ensures forall j :: at < j < |r| ==> r[j] == rows[j - 1].(idx := rows[j - 1].idx + 1)
  {
    rows[..at] + [EditorRow(at, "", "", [], false)]
      + seq(|rows| - at, j requires 0 <= j < |rows| - at => rows[at + j].(idx := rows[at + j].idx + 1))
  }

  function Inserted(syntax: Option<EditorSyntax>, rows: seq<EditorRow>, at: nat, chars: string): seq<EditorRow>
    requires (syntax.Some? ==> syntax.value.Valid()) && at <= |rows| && Painted(rows)
  {
    assert at > 0 ==> Shifted(rows, at)[at - 1] == rows[at - 1];
    SetChars(syntax, Shifted(rows, at), at, |rows|, chars)
  }

  /** The rows after DeleteRow: the rows below move up and are renumbered. */
  function Deleted(rows: seq<EditorRow>, at: nat): (r: seq<EditorRow>)
    requires at < |rows|
    ensures |r| == |rows| - 1
    ensures forall j {:trigger r[j]} :: 0 <= j < at ==> r[j] == rows[j]
    ensures forall j :: at <= j < |r| ==> r[j] == rows[j + 1].(idx := j)
  {
    rows[..at] + seq(|rows| - at - 1, j requires 0 <= j < |rows| - at - 1 => rows[at + 1 + j].(idx := at + j))
  }

  // ----- colours of a whole document -------------------------------------

  predicate ColouredAt(syn: EditorSyntax, rows: seq<EditorRow>, k: nat)
    requires syn.Valid() && k < |rows| && Painted(rows)
  {
    rows[k].hl == ScanRow(syn, rows[k].render, StartsInComment(rows, k)).hl
  }

  predicate Coloured(syn: EditorSyntax, rows: seq<EditorRow>)
    requires syn.Valid()
  {
    Painted(rows) && forall k :: 0 <= k < |rows| ==> ColouredAt(syn, rows, k)
  }

  predicate FlagAt(rows: seq<EditorRow>, k: nat)
    requires k < |rows| && Painted(rows)
  {
    rows[k].hlOpenComment == RowOpen(rows[k])
  }

  predicate Flagged(rows: seq<EditorRow>) {
    Painted(rows) && forall k :: 0 <= k < |rows| ==> FlagAt(rows, k)
  }

  /** All colours and all stored flags are right. */
  predicate AllRight(syn: EditorSyntax, rows: seq<EditorRow>)
    requires syn.Valid()
  {
    Coloured(syn, rows) && Flagged(rows)
  }

  /** Row k is about to be re-coloured: the rows above are coloured, the rows below are
      coloured going by the flags, and row k + 1 by row k's stored flag. */
  predicate ReadyAt(syn: EditorSyntax, rows: seq<EditorRow>, k: nat)
    requires syn.Valid() && k < |rows|
  {
    && Painted(rows)
    && (forall j :: 0 <= j < k ==> ColouredAt(syn, rows, j))
    && (forall j :: k < j < |rows| ==> FlagAt(rows, j))
    && (forall j :: k + 1 < j < |rows| ==> ColouredAt(syn, rows, j))
    && (k + 1 < |rows| ==> rows[k + 1].hl == ScanRow(syn, rows[k + 1].render, rows[k].hlOpenComment).hl)
  }

  /** The text gets the same colours whether or not it starts inside a comment. */
  predicate ScansAlike(syn: EditorSyntax, text: string)
    requires syn.Valid()
  {
    ScanRow(syn, text, false).hl == ScanRow(syn, text, true).hl
  }

  /** How a pass started at row k can leave something wrong: it is stopped by a line
      comment in a row whose stored flag says that a block comment was open, or it ends
      at row n - 1 with a changed flag that gives the row below other colours. */
  predicate PassFallsShort(syn: EditorSyntax, rows: seq<EditorRow>, k: nat, n: nat)
    requires syn.Valid() && k < |rows| && n <= |rows| && PaintedAbove(rows, k)
    decreases |rows| - k
  {
    var out := ScanRow(syn, rows[k].render, StartsInComment(rows, k));
    var row := rows[k].(hl := out.hl);
    if out.lineComment then row.hlOpenComment
    else if row.hlOpenComment == RowOpen(row) then false
    else if k + 1 < n then PassFallsShort(syn, rows[k := row], k + 1, n)
    else k + 1 < |rows| && !ScansAlike(syn, rows[k + 1].render)
  }

  /** The rows from k on carry the right flag, and all rows the right colours. */
  predicate RightFrom(syn: EditorSyntax, rows: seq<EditorRow>, k: nat)
    requires syn.Valid()
  {
    Coloured(syn, rows) && forall j :: k <= j < |rows| ==> FlagAt(rows, j)
  }

  /** Storing a flag changes no colour and no other flag. */
  lemma FlagsDoNotColour(syn: EditorSyntax, rows: seq<EditorRow>, k: nat, open: bool)
    requires syn.Valid() && k < |rows| && Painted(rows)
    ensures var r := rows[k := rows[k].(hlOpenComment := open)];
            && Painted(r)
            && (Coloured(syn, r) <==> Coloured(syn, rows))
            && (forall j :: 0 <= j < |rows| && j != k ==> (FlagAt(r, j) <==> FlagAt(rows, j)))
            && (FlagAt(r, k) <==> open == RowOpen(rows[k]))
  {
    var r := rows[k := rows[k].(hlOpenComment := open)];
    forall j | 0 <= j < |rows|
      ensures ColouredAt(syn, r, j) <==> ColouredAt(syn, rows, j)
    {}
  }

  lemma AfterPainting(syn: EditorSyntax, rows: seq<EditorRow>, k: nat)
    requires syn.Valid() && k < |rows| && ReadyAt(syn, rows, k)
    ensures var row := rows[k].(hl := ScanRow(syn, rows[k].render, StartsInComment(rows, k)).hl);
            var painted := rows[k := row];
            && Painted(painted)
            && (forall j :: 0 <= j <= k ==> ColouredAt(syn, painted, j))
            && (forall j :: k < j < |rows| ==> FlagAt(painted, j))
            && (forall j :: k + 1 < j < |rows| ==> ColouredAt(syn, painted, j))
            && (row.hlOpenComment == RowOpen(row) && k + 1 < |rows| ==> ColouredAt(syn, painted, k + 1))
            && (k + 1 < |rows| ==> ReadyAt(syn, painted, k + 1))
  {
    var row := rows[k].(hl := ScanRow(syn, rows[k].render, StartsInComment(rows, k)).hl);
    var painted := rows[k := row];
    forall j | 0 <= j <= k
      ensures ColouredAt(syn, painted, j)
    {
      if j < k { assert ColouredAt(syn, rows, j); }
    }
    forall j | k < j < |rows|
      ensures FlagAt(painted, j)
    {
      assert FlagAt(rows, j);
    }
    forall j | k + 1 < j < |rows|
      ensures ColouredAt(syn, painted, j)
    {
      assert ColouredAt(syn, rows, j);
    }
    if k + 2 < |rows| {
      assert ColouredAt(syn, rows, k + 2) && FlagAt(rows, k + 1);
    }
  }

  lemma StoppedAtLineComment(syn: EditorSyntax, rows: seq<EditorRow>, k: nat, n: nat)
    requires syn.Valid() && k < |rows| && n <= |rows| && ReadyAt(syn, rows, k)
    requires ScanRow(syn, rows[k].render, StartsInComment(rows, k)).lineComment
    ensures RightFrom(syn, Recolour(syn, rows, k, n), k) <==> !rows[k].hlOpenComment
  {
    AfterPainting(syn, rows, k);
    LineCommentRowIsClosed(syn, rows, k);
    var r := Recolour(syn, rows, k, n);
    assert FlagAt(r, k) <==> !rows[k].hlOpenComment;
  }

  lemma LineCommentRowIsClosed(syn: EditorSyntax, rows: seq<EditorRow>, k: nat)
    requires syn.Valid() && k < |rows| && PaintedAbove(rows, k)
    requires ScanRow(syn, rows[k].render, StartsInComment(rows, k)).lineComment
    ensures !HasOpenComment(rows[k].render, ScanRow(syn, rows[k].render, StartsInComment(rows, k)).hl)
  {
    var s := rows[k].render;
    LineCommentIsClosed(syn, s, Scan(FirstVisible(s, 0), true, NUL, StartsInComment(rows, k)), AllNormal(|s|));
  }

  /** Row k with its new colours. */
  function PaintedAt(syn: EditorSyntax, rows: seq<EditorRow>, k: nat): (r: seq<EditorRow>)
    requires syn.Valid() && k < |rows| && PaintedAbove(rows, k)
    ensures |r| == |rows|
  {
    rows[k := rows[k].(hl := ScanRow(syn, rows[k].render, StartsInComment(rows, k)).hl)]
  }

  /** The flag of row k changes and the pass goes on below. */
  lemma PassGoesOn(syn: EditorSyntax, rows: seq<EditorRow>, k: nat, n: nat)
    requires syn.Valid() && k < |rows| && n <= |rows| && ReadyAt(syn, rows, k) && k + 1 < n
    requires !ScanRow(syn, rows[k].render, StartsInComment(rows, k)).lineComment
    requires var painted := PaintedAt(syn, rows, k);
      && Painted(painted) && rows[k].hlOpenComment != RowOpen(painted[k])
      && (RightFrom(syn, Recolour(syn, painted, k + 1, n), k + 1) <==> !PassFallsShort(syn, painted, k + 1, n))
    ensures RightFrom(syn, Recolour(syn, rows, k, n), k) <==> !PassFallsShort(syn, rows, k, n)
  {
    var painted := PaintedAt(syn, rows, k);
    var below := Recolour(syn, painted, k + 1, n);
    FlagFromBelow(syn, below, k, RowOpen(painted[k]));
  }

  /** It does not change, or there is no row below by the row count. */
  lemma PassEnds(syn: EditorSyntax, rows: seq<EditorRow>, k: nat, n: nat)
    requires syn.Valid() && k < |rows| && n <= |rows| && ReadyAt(syn, rows, k)
    requires !ScanRow(syn, rows[k].render, StartsInComment(rows, k)).lineComment
    requires var painted := PaintedAt(syn, rows, k);
      Painted(painted) && (rows[k].hlOpenComment == RowOpen(painted[k]) || k + 1 >= n)
    ensures RightFrom(syn, Recolour(syn, rows, k, n), k) <==> !PassFallsShort(syn, rows, k, n)
  {
    var painted := PaintedAt(syn, rows, k);
    FlagFromBelow(syn, painted, k, RowOpen(painted[k]));
    RightBelowPainted(syn, rows, k);
  }

  lemma RightBelowPainted(syn: EditorSyntax, rows: seq<EditorRow>, k: nat)
    requires syn.Valid() && k < |rows| && ReadyAt(syn, rows, k)
    ensures var painted := PaintedAt(syn, rows, k);
      && Painted(painted)
      && (RightFrom(syn, painted, k + 1) <==>
          (k + 1 < |rows| ==> rows[k + 1].hl == ScanRow(syn, rows[k + 1].render, RowOpen(painted[k])).hl))
  {
    AfterPainting(syn, rows, k);
    var painted := PaintedAt(syn, rows, k);
    assert k + 1 < |rows| ==> (ColouredAt(syn, painted, k + 1) <==>
      rows[k + 1].hl == ScanRow(syn, rows[k + 1].render, RowOpen(painted[k])).hl);
  }

  /** The early-stopping pass leaves all colours and the flags from row k on right exactly
      when it does not fall short. */
  lemma {:induction false} RecolourRestores(syn: EditorSyntax, rows: seq<EditorRow>, k: nat, n: nat)
    requires syn.Valid() && k < |rows| && n <= |rows| && ReadyAt(syn, rows, k)
    ensures RightFrom(syn, Recolour(syn, rows, k, n), k) <==> !PassFallsShort(syn, rows, k, n)
    decreases |rows| - k
  {
    var painted := PaintedAt(syn, rows, k);
    AfterPainting(syn, rows, k);
    if ScanRow(syn, rows[k].render, StartsInComment(rows, k)).lineComment {
      StoppedAtLineComment(syn, rows, k, n);
    } else if rows[k].hlOpenComment != RowOpen(painted[k]) && k + 1 < n {
      RecolourRestores(syn, painted, k + 1, n);
      PassGoesOn(syn, rows, k, n);
    } else {
      PassEnds(syn, rows, k, n);
    }
  }

  lemma FlagFromBelow(syn: EditorSyntax, below: seq<EditorRow>, k: nat, open: bool)
    requires syn.Valid() && k < |below| && Painted(below) && open == RowOpen(below[k])
    ensures RightFrom(syn, below[k := below[k].(hlOpenComment := open)], k) <==> RightFrom(syn, below, k + 1)
  {
    FlagsDoNotColour(syn, below, k, open);
    var r := below[k := below[k].(hlOpenComment := open)];
    if RightFrom(syn, below, k + 1) {
      forall j | k <= j < |r| ensures FlagAt(r, j) {}
    }
    if RightFrom(syn, r, k) {
      forall j | k + 1 <= j < |r|
        ensures FlagAt(below, j)
      {
        assert FlagAt(r, j);
      }
    }
  }
}

/** The open-comment flag is read off a row's colours and last two characters. This is
when that agrees with the state the scan itself ended in. */
module KiloComments {
  import opened CString
  import opened KiloSyntax
  import opened KiloRows
  import opened KiloColour
  import opened KiloRender

  predicate CComments(syn: EditorSyntax) {
    && syn.Valid() && syn.scs == ('/', '/') && syn.mcs == ('/', '*') && syn.mce == ('*', '/')
    && forall j :: 0 <= j < |syn.keywords| ==> NUL !in syn.keywords[j]
  }

  /** How the scan last came by a block comment: it opened one with its last step, or
      after opening one it read just a slash. */
  datatype Trail = Elsewhere | JustOpened | OpenedThenSlash

  function NextTrail(s: string, st: Scan, next: Scan, trail: Trail): Trail
    requires st.i < |s|
  {
    if !st.inComment && next.inComment then JustOpened
    else if st.inComment && next.inComment && trail == JustOpened && s[st.i] == '/' then OpenedThenSlash
    else Elsewhere
  }

  function EndTrail(syn: EditorSyntax, s: string, st: Scan, hl: seq<Highlight>, trail: Trail): Trail
    requires syn.Valid() && st.i <= |s| == |hl|
    decreases |s| - st.i
  {
    if At(s, st.i) == NUL || StartsLineComment(syn, s, st) then trail
    else
      var (st', hl') := Step(syn, s, st, hl);
      EndTrail(syn, s, st', hl', NextTrail(s, st, st', trail))
  }

  /** The row ends in slash, star, slash, the first two opening a comment: read backwards
      the last two look like the end of one. */
  predicate EndsInOpenedSlash(syn: EditorSyntax, s: string, inComment: bool)
    requires syn.Valid()
  {
    EndTrail(syn, s, Scan(FirstVisible(s, 0), true, NUL, inComment), AllNormal(|s|), Elsewhere) == OpenedThenSlash
  }

  predicate StarSlashBefore(s: string, i: nat) {
    2 <= i <= |s| && s[i - 2] == '*' && s[i - 1] == '/'
  }

  predicate TrailHolds(s: string, start: nat, st: Scan, hl: seq<Highlight>, trail: Trail)
    requires st.i <= |s| == |hl|
  {
    && start <= st.i
    && (forall j :: st.i <= j < |hl| ==> hl[j] == Normal)
    && (start > 0 ==> IsSpace(s[start - 1]) && hl[start - 1] == Normal)
    && (st.i == start ==> trail == Elsewhere)
    && (st.i > start && st.inComment ==>
          && hl[st.i - 1] == MlComment
          && (trail == JustOpened ==> s[st.i - 1] == '*')
          && (trail != JustOpened && s[st.i - 1] == '*' ==> At(s, st.i) != '/')
          && (trail == OpenedThenSlash <==> StarSlashBefore(s, st.i)))
    && (st.i > start && !st.inComment && hl[st.i - 1] == MlComment ==> StarSlashBefore(s, st.i))
    && (!st.inComment ==> trail == Elsewhere)
  }

  lemma TrailKept(syn: EditorSyntax, s: string, start: nat, st: Scan, hl: seq<Highlight>, trail: Trail)
    requires CComments(syn) && st.i < |s| == |hl| && TrailHolds(s, start, st, hl, trail)
    ensures var (st', hl') := Step(syn, s, st, hl);
            TrailHolds(s, start, st', hl', NextTrail(s, st, st', trail))
  {}

  /** No round of the scan passes over a terminator. */
  lemma StepPassesNoNul(syn: EditorSyntax, s: string, st: Scan, hl: seq<Highlight>)
    requires CComments(syn) && st.i < |s| == |hl| && s[st.i] != NUL
    ensures NUL !in s[st.i..Step(syn, s, st, hl).0.i]
  {
    var next := Step(syn, s, st, hl).0;
    var k := FindKeyword(syn, 0, s, st.i);
    if next.i > st.i + 1 && k < |syn.keywords| && next.i == st.i + KeywordLength(syn.keywords[k]) {
      assert forall j :: st.i <= j < next.i && next.i > st.i + 2 ==> s[j] == s[st.i..next.i][j - st.i];
    }
  }

  lemma {:induction false} EndOfScan(
    syn: EditorSyntax, s: string, start: nat, st: Scan, hl: seq<Highlight>, trail: Trail)
    requires CComments(syn) && st.i <= |s| == |hl| && NUL !in s[..st.i] && TrailHolds(s, start, st, hl, trail)
    requires !ScanFrom(syn, s, st, hl).lineComment
    ensures var out := ScanFrom(syn, s, st, hl);
            HasOpenComment(s, out.hl) <==>
            && NUL !in s
            && out.inComment && start < |s| && EndTrail(syn, s, st, hl, trail) != OpenedThenSlash
    decreases |s| - st.i
  {
    if At(s, st.i) != NUL {
      TrailKept(syn, s, start, st, hl, trail);
      StepPassesNoNul(syn, s, st, hl);
      var (st', hl') := Step(syn, s, st, hl);
      assert s[..st'.i] == s[..st.i] + s[st.i..st'.i];
      EndOfScan(syn, s, start, st', hl', NextTrail(s, st, st', trail));
    } else if st.i == |s| {
      assert s[..st.i] == s;
    }
  }

  lemma {:induction false} SpacesBefore(s: string, i: nat)
    requires i <= |s| && (i > 0 ==> IsSpace(s[i - 1]))
    ensures var k := FirstVisible(s, i); k > 0 ==> IsSpace(s[k - 1])
    decreases |s| - i
  {
    if i < |s| && s[i] != NUL && IsSpace(s[i]) { SpacesBefore(s, i + 1); }
  }

  /** For a row without line comment the flag says that the scan ended inside a block
      comment, except in exactly three cases: a row of only white space below an open
      comment, a row that ends in an opening "slash star" and one more slash, and a row
      with a terminator in it, behind which nothing is coloured. */
  lemma FlagAgreesWithScan(syn: EditorSyntax, s: string, inComment: bool)
    requires CComments(syn) && !ScanRow(syn, s, inComment).lineComment
    ensures var out := ScanRow(syn, s, inComment);
            HasOpenComment(s, out.hl) <==>
            && NUL !in s
            && out.inComment && FirstVisible(s, 0) < |s| && !EndsInOpenedSlash(syn, s, inComment)
  {
    var start := FirstVisible(s, 0);
    TrailHoldsAtStart(s, inComment);
    NoNulInFront(s, 0);
    EndOfScan(syn, s, start, Scan(start, true, NUL, inComment), AllNormal(|s|), Elsewhere);
  }

  lemma TrailHoldsAtStart(s: string, inComment: bool)
    ensures var start := FirstVisible(s, 0);
      TrailHolds(s, start, Scan(start, true, NUL, inComment), AllNormal(|s|), Elsewhere)
  {
    SpacesBefore(s, 0);
  }

  lemma {:induction false} NoNulInFront(s: string, i: nat)
    requires i <= |s| && NUL !in s[..i]
    ensures NUL !in s[..FirstVisible(s, i)]
    decreases |s| - i
  {
    if i < |s| && s[i] != NUL && IsSpace(s[i]) {
      assert s[..i + 1] == s[..i] + [s[i]];
      NoNulInFront(s, i + 1);
    }
  }

  // ----- one scan over the whole document ---------------------------------

  /** Whether row k starts inside a comment for a scan that goes on from row to row. */
  predicate Carried(syn: EditorSyntax, rows: seq<EditorRow>, k: nat)
    requires syn.Valid() && k <= |rows|
  {
    k > 0 && ScanRow(syn, rows[k - 1].render, Carried(syn, rows, k - 1)).inComment
  }

  /** A row that leaves a comment open and does not look like it: it starts a line comment
      inside the block comment, or is one of the three cases of FlagAgreesWithScan. */
  predicate HidesComment(syn: EditorSyntax, s: string, inComment: bool)
    requires syn.Valid()
  {
    var out := ScanRow(syn, s, inComment);
    && out.inComment
    && (out.lineComment || NUL in s || FirstVisible(s, 0) == |s| || EndsInOpenedSlash(syn, s, inComment))
  }

  lemma OpenUnlessHidden(syn: EditorSyntax, s: string, inComment: bool)
    requires CComments(syn)
    ensures var out := ScanRow(syn, s, inComment);
      (HasOpenComment(s, out.hl) <==> out.inComment) <==> !HidesComment(syn, s, inComment)
  {
    if ScanRow(syn, s, inComment).lineComment {
      LineCommentIsClosed(syn, s, Scan(FirstVisible(s, 0), true, NUL, inComment), AllNormal(|s|));
    } else {
      FlagAgreesWithScan(syn, s, inComment);
    }
  }

  predicate StartsAsCarried(syn: EditorSyntax, rows: seq<EditorRow>, k: nat)
    requires syn.Valid() && k < |rows| && Painted(rows)
  {
    StartsInComment(rows, k) == Carried(syn, rows, k)
  }

  lemma CarriedOn(syn: EditorSyntax, rows: seq<EditorRow>, k: nat)
    requires CComments(syn) && k + 1 < |rows| && Coloured(syn, rows) && StartsAsCarried(syn, rows, k)
    ensures StartsAsCarried(syn, rows, k + 1) <==> !HidesComment(syn, rows[k].render, Carried(syn, rows, k))
  {
    assert ColouredAt(syn, rows, k);
    OpenUnlessHidden(syn, rows[k].render, Carried(syn, rows, k));
  }

  predicate AllStartAsCarried(syn: EditorSyntax, rows: seq<EditorRow>, n: nat)
    requires syn.Valid() && n <= |rows| && Painted(rows)
  {
    forall k :: 0 <= k < n ==> StartsAsCarried(syn, rows, k)
  }

  predicate NoneHides(syn: EditorSyntax, rows: seq<EditorRow>, n: nat)
    requires syn.Valid() && n <= |rows|
  {
    forall k :: 0 <= k < n ==> !HidesComment(syn, rows[k].render, Carried(syn, rows, k))
  }

  /** In a rightly coloured document the rows up to number n start as the one scan comes to
      them exactly when none in front of it hides a comment. */
  lemma {:induction false} RowsStartAsCarried(syn: EditorSyntax, rows: seq<EditorRow>, n: nat)
    requires CComments(syn) && n < |rows| && Coloured(syn, rows)
    ensures AllStartAsCarried(syn, rows, n + 1) <==> NoneHides(syn, rows, n)
  {
    if n == 0 {
      assert StartsAsCarried(syn, rows, 0);
    } else {
      RowsStartAsCarried(syn, rows, n - 1);
      OneRowMore(syn, rows, n);
      HiddenOrCarried(syn, rows, n - 1);
    }
  }

  lemma HiddenOrCarried(syn: EditorSyntax, rows: seq<EditorRow>, k: nat)
    requires CComments(syn) && k + 1 < |rows| && Coloured(syn, rows)
    ensures StartsAsCarried(syn, rows, k) ==>
      (StartsAsCarried(syn, rows, k + 1) <==> !HidesComment(syn, rows[k].render, Carried(syn, rows, k)))
  {
    if StartsAsCarried(syn, rows, k) { CarriedOn(syn, rows, k); }
  }

  lemma OneRowMore(syn: EditorSyntax, rows: seq<EditorRow>, n: nat)
    requires syn.Valid() && 0 < n < |rows| && Painted(rows)
    ensures AllStartAsCarried(syn, rows, n + 1) <==>
      AllStartAsCarried(syn, rows, n) && StartsAsCarried(syn, rows, n)
    ensures AllStartAsCarried(syn, rows, n) ==> StartsAsCarried(syn, rows, n - 1)
    ensures NoneHides(syn, rows, n) <==>
      NoneHides(syn, rows, n - 1) && !HidesComment(syn, rows[n - 1].render, Carried(syn, rows, n - 1))
  {}

  predicate ColouredAsCarried(syn: EditorSyntax, rows: seq<EditorRow>, k: nat)
    requires syn.Valid() && k < |rows|
  {
    rows[k].hl == ScanRow(syn, rows[k].render, Carried(syn, rows, k)).hl
  }

  predicate AllColouredAsCarried(syn: EditorSyntax, rows: seq<EditorRow>)
    requires syn.Valid()
  {
    forall k :: 0 <= k < |rows| ==> ColouredAsCarried(syn, rows, k)
  }

  lemma ColouredIfAlike(syn: EditorSyntax, rows: seq<EditorRow>, k: nat)
    requires syn.Valid() && k < |rows| && Coloured(syn, rows)
    ensures ColouredAsCarried(syn, rows, k) <==> StartsAsCarried(syn, rows, k) || ScansAlike(syn, rows[k].render)
  {
    assert ColouredAt(syn, rows, k);
  }

  /** The colours of a rightly coloured document are those of the one scan exactly when
      every row that starts otherwise looks the same either way. */
  lemma ColoursAreCarried(syn: EditorSyntax, rows: seq<EditorRow>)
    requires CComments(syn) && Coloured(syn, rows)
    ensures AllColouredAsCarried(syn, rows) <==>
      forall k :: 0 <= k < |rows| ==> StartsAsCarried(syn, rows, k) || ScansAlike(syn, rows[k].render)
  {
    forall k | 0 <= k < |rows|
      ensures ColouredAsCarried(syn, rows, k) <==> StartsAsCarried(syn, rows, k) || ScansAlike(syn, rows[k].render)
    {
      ColouredIfAlike(syn, rows, k);
    }
  }

  /** In particular when no row but the last hides a comment; */
  lemma NoneHiddenIsCarried(syn: EditorSyntax, rows: seq<EditorRow>)
    requires CComments(syn) && Coloured(syn, rows) && (rows != [] ==> NoneHides(syn, rows, |rows| - 1))
    ensures AllColouredAsCarried(syn, rows)
  {
    if rows != [] { RowsStartAsCarried(syn, rows, |rows| - 1); }
    forall k | 0 <= k < |rows|
      ensures ColouredAsCarried(syn, rows, k)
    {
      ColouredIfAlike(syn, rows, k);
    }
  }

  /** and the first row that does shows in the one below it, unless that looks the same
      either way. */
  lemma FirstHiddenShows(syn: EditorSyntax, rows: seq<EditorRow>, k: nat)
    requires CComments(syn) && Coloured(syn, rows) && k + 1 < |rows| && NoneHides(syn, rows, k)
    requires HidesComment(syn, rows[k].render, Carried(syn, rows, k))
    ensures ColouredAsCarried(syn, rows, k + 1) <==> ScansAlike(syn, rows[k + 1].render)
  {
    RowsStartAsCarried(syn, rows, k);
    assert StartsAsCarried(syn, rows, k);
    CarriedOn(syn, rows, k);
    ColouredIfAlike(syn, rows, k + 1);
  }

  /** So it is after loading. */
  lemma FullPassIsCarried(syn: EditorSyntax, rows: seq<EditorRow>, loaded: seq<EditorRow>)
    requires CComments(syn) && Painted(rows) && FreshFrom(rows, 0) && loaded == FullPass(syn, rows, |rows|)
    requires loaded != [] ==> NoneHides(syn, loaded, |loaded| - 1)
    ensures Coloured(syn, loaded) && AllColouredAsCarried(syn, loaded)
  {
    assert Coloured(syn, loaded) by { FullPassIsRight(syn, rows); }
    NoneHiddenIsCarried(syn, loaded);
  }

  // Rows that hide a comment.

  /** An empty row below an open comment. */
  lemma EmptyRowHides(syn: EditorSyntax)
    requires CComments(syn)
    ensures HidesComment(syn, "", true) && !HasOpenComment("", ScanRow(syn, "", true).hl)
  {}

  lemma OpenedSlashHides(syn: EditorSyntax)
    requires CComments(syn)
    ensures ScanRow(syn, "/*/", false).inComment && HidesComment(syn, "/*/", false)
    ensures !HasOpenComment("/*/", ScanRow(syn, "/*/", false).hl)
  {
    var s := "/*/";
    assert FirstVisible(s, 0) == 0;
    var st0 := Scan(0, true, NUL, false);
    assert !StartsLineComment(syn, s, st0);
    var (st1, hl1) := Step(syn, s, st0, AllNormal(3));
    assert st1 == Scan(2, false, NUL, true) && NextTrail(s, st0, st1, Elsewhere) == JustOpened;
    var (st2, hl2) := Step(syn, s, st1, hl1);
    assert st2 == Scan(3, false, NUL, true) && NextTrail(s, st1, st2, JustOpened) == OpenedThenSlash;
    assert ScanFrom(syn, s, st2, hl2) == Outcome(hl2, false, true);
    assert ScanFrom(syn, s, st1, hl1) == ScanFrom(syn, s, st2, hl2);
    assert EndTrail(syn, s, st2, hl2, OpenedThenSlash) == OpenedThenSlash;
    assert EndTrail(syn, s, st1, hl1, JustOpened) == OpenedThenSlash;
    OpenUnlessHidden(syn, s, false);
  }

  /** A line comment at the start of a row inside a block comment. */
  lemma LineCommentHides(syn: EditorSyntax)
    requires CComments(syn)
    ensures HidesComment(syn, "//", true)
  {
    assert FirstVisible("//", 0) == 0;
    assert StartsLineComment(syn, "//", Scan(0, true, NUL, true));
  }

  // ----- documents on which the colours go wrong -------------------------

  /** A block comment over two rows. */
  function OpenComment(): seq<EditorRow> {
    [EditorRow(0, "/*", "/*", [MlComment, MlComment], true),
     EditorRow(1, "x", "x", [MlComment], true)]
  }

  lemma ScanBlockComment(syn: EditorSyntax)
    requires CComments(syn)
    ensures ScanRow(syn, "/*", false) == Outcome([MlComment, MlComment], false, true)
    ensures ScanRow(syn, "x", true) == Outcome([MlComment], false, true)
  {
    var hl := AllNormal(2);
    assert FirstVisible("/*", 0) == 0 && FirstVisible("x", 0) == 0;
    assert !StartsLineComment(syn, "/*", Scan(0, true, NUL, false));
    var (st, hl') := Step(syn, "/*", Scan(0, true, NUL, false), hl);
    assert st == Scan(2, false, NUL, true) && hl' == [MlComment, MlComment];
    assert ScanFrom(syn, "/*", st, hl') == Outcome(hl', false, true);
    var (st1, hl1) := Step(syn, "x", Scan(0, true, NUL, true), AllNormal(1));
    assert st1 == Scan(1, false, NUL, true) && hl1 == [MlComment];
  }

  lemma OpenCommentIsRight(syn: EditorSyntax)
    requires CComments(syn)
    ensures Coloured(syn, OpenComment()) && Flagged(OpenComment())
  {
    var rows := OpenComment();
    ScanBlockComment(syn);
    assert ColouredAt(syn, rows, 0) && ColouredAt(syn, rows, 1) && FlagAt(rows, 0) && FlagAt(rows, 1);
  }

  /** Typing a slash in front of the comment start makes the first row a line comment; its
      flag stays set and the second row keeps comment colours although no block comment is
      open above it. */
  lemma LineCommentLeavesStaleColours(syn: EditorSyntax)
    requires CComments(syn)
    ensures Coloured(syn, OpenComment()) && Flagged(OpenComment())
    ensures var r := SetChars(Some(syn), OpenComment(), 0, 2, "//*");
            !AllRight(syn, r) && r[1].hl == [MlComment] && !StartsInComment(r, 1)
  {
    var rows := OpenComment();
    OpenCommentIsRight(syn);
    EditKeepsColours(syn, rows, 0, "//*");
    ExpandHasNoTabs("//*");
    var s := "//*";
    assert FirstVisible(s, 0) == 0;
    assert StartsLineComment(syn, s, Scan(0, true, NUL, false));
    LineCommentRowIsClosed(syn, Edited(rows, 0, s), 0);
  }

  lemma ScanPlainLetter(syn: EditorSyntax)
    requires CComments(syn)
    ensures ScanRow(syn, "x", false).hl[0] != MlComment
  {
    assert FirstVisible("x", 0) == 0;
    assert !StartsLineComment(syn, "x", Scan(0, true, NUL, false));
    var (st, hl) := Step(syn, "x", Scan(0, true, NUL, false), AllNormal(1));
    assert hl[0] != MlComment;
    ScanKeepsPrefix(syn, "x", st, hl);
  }

  /** Enter in front of the second row puts an empty row above it, behind which no comment
      is open, and keeps its comment colours. */
  lemma EmptyRowLeavesStaleColours(syn: EditorSyntax)
    requires CComments(syn)
    ensures var r := Inserted(Some(syn), OpenComment(), 1, ""); !AllRight(syn, r)
  {
    var before := Edited(Shifted(OpenComment(), 1), 1, "");
    OpenCommentIsRight(syn);
    ScanBlockComment(syn);
    ScanPlainLetter(syn);
    InsertKeepsColours(syn, OpenComment(), 1, "");
    assert before[0] == OpenComment()[0] && before[2].render == "x";
    assert !ScansAlike(syn, "x");
    assert InsertFallsShort(syn, before, 1, 2);
  }

  /** Without its first row the second one still has the colours of a comment. */
  lemma DeletedRowLeavesStaleColours(syn: EditorSyntax)
    requires CComments(syn)
    ensures var r := Deleted(OpenComment(), 0); !AllRight(syn, r)
  {
    OpenCommentIsRight(syn);
    ScanBlockComment(syn);
    ScanPlainLetter(syn);
    DeleteKeepsColours(syn, OpenComment(), 0);
    assert RowOpen(OpenComment()[0]) && !ScansAlike(syn, OpenComment()[1].render);
  }
}

/** The colouring of one row: a left-to-right scan of its rendering, started inside a
comment when the row above left one open. */
module KiloSyntax {
  import opened CString

  datatype Highlight =
    | Normal | NonPrint | Comment | MlComment | Keyword1 | Keyword2 | String | Number

  datatype EditorSyntax = EditorSyntax(
    keywords: seq<string>,
    scs: (char, char), mcs: (char, char), mce: (char, char),
    highlightStrings: bool, highlightNumbers: bool)
  {
    /** Every keyword is at least one character long, also without its type mark. */
    predicate Valid() {
      forall j :: 0 <= j < |keywords| ==> keywords[j] != "" && KeywordLength(keywords[j]) > 0
    }
  }

  predicate IsSeparator(c: char) { c == NUL || IsSpace(c) || c in ",.()+-/*=~%[];" }

  // ----- keywords --------------------------------------------------------

  predicate IsTypeKeyword(kw: string)
    requires kw != ""
  {
    kw[|kw| - 1] == '|'
  }

  function KeywordLength(kw: string): nat
    requires kw != ""
  {
    if IsTypeKeyword(kw) then |kw| - 1 else |kw|
  }

  predicate KeywordAt(kw: string, s: string, i: nat)
    requires kw != ""
  {
    var n := KeywordLength(kw);
    i + n <= |s| && s[i..i + n] == kw[..n] && IsSeparator(At(s, i + n))
  }

  /** The first keyword of the table that stands at `i`, or the table's size. */
  function FindKeyword(syn: EditorSyntax, j: nat, s: string, i: nat): (k: nat)
    requires syn.Valid() && j <= |syn.keywords|
    ensures j <= k <= |syn.keywords|
    ensures k < |syn.keywords| ==> KeywordAt(syn.keywords[k], s, i)
    ensures forall h :: j <= h < k ==> !KeywordAt(syn.keywords[h], s, i)
    decreases |syn.keywords| - j
  {
    if j == |syn.keywords| then j
    else if KeywordAt(syn.keywords[j], s, i) then j
    else FindKeyword(syn, j + 1, s, i)
  }

  // ----- the scan --------------------------------------------------------

  datatype Scan = Scan(i: nat, prevSep: bool, inString: char, inComment: bool)

  /** `lineComment` says that the scan ended early, at a line comment. */
  datatype Outcome = Outcome(hl: seq<Highlight>, lineComment: bool, inComment: bool)

  function Paint(hl: seq<Highlight>, from: nat, n: nat, colour: Highlight): (r: seq<Highlight>)
    requires from + n <= |hl|
    ensures |r| == |hl|
    ensures forall k :: 0 <= k < |hl| ==> r[k] == if from <= k < from + n then colour else hl[k]
  {
    seq(|hl|, k requires 0 <= k < |hl| => if from <= k < from + n then colour else hl[k])
  }

  predicate Pair(s: string, i: nat, p: (char, char)) {
    At(s, i) == p.0 && At(s, i + 1) == p.1
  }

  predicate IsNumberAt(hl: seq<Highlight>, s: string, st: Scan)
    requires st.i < |s| == |hl|
  {
    || (IsDigit(s[st.i]) && (st.prevSep || (st.i > 0 && hl[st.i - 1] == Number)))
    || (s[st.i] == '.' && st.i > 0 && hl[st.i - 1] == Number)
  }

  /** One round of the scan, at a character that does not start a line comment. */
  function Step(syn: EditorSyntax, s: string, st: Scan, hl: seq<Highlight>): (r: (Scan, seq<Highlight>))
    requires syn.Valid() && st.i < |s| == |hl|
    ensures |r.1| == |hl| && st.i < r.0.i <= |s|
  {
    var i, c := st.i, s[st.i];
    if st.inComment then
      if Pair(s, i, syn.mce) && i + 1 < |s| then
        (Scan(i + 2, true, st.inString, false), Paint(hl, i, 2, MlComment))
      else
        (Scan(i + 1, false, st.inString, true), hl[i := MlComment])
    else if Pair(s, i, syn.mcs) && i + 1 < |s| then
      (Scan(i + 2, false, st.inString, true), Paint(hl, i, 2, MlComment))
    else if syn.highlightStrings && st.inString != NUL then
      if c == '\\' && At(s, i + 1) != NUL && i + 1 < |s| then
        (Scan(i + 2, false, st.inString, false), Paint(hl, i, 2, String))
      else
        (Scan(i + 1, false, if c == st.inString then NUL else st.inString, false), hl[i := String])
    else if syn.highlightStrings && (c == '"' || c == '\'') then
      (Scan(i + 1, false, c, false), hl[i := String])
    else if !IsPrint(c) then
      (Scan(i + 1, false, st.inString, false), hl[i := NonPrint])
    else if syn.highlightNumbers && IsNumberAt(hl, s, st) then
      (Scan(i + 1, false, st.inString, false), hl[i := Number])
    else
      var k := if st.prevSep then FindKeyword(syn, 0, s, i) else |syn.keywords|;
      if k < |syn.keywords| then
        var n := KeywordLength(syn.keywords[k]);
        (Scan(i + n, false, st.inString, false),
         Paint(hl, i, n, if IsTypeKeyword(syn.keywords[k]) then Keyword2 else Keyword1))
      else
        (Scan(i + 1, IsSeparator(c), st.inString, false), hl)
  }

  predicate StartsLineComment(syn: EditorSyntax, s: string, st: Scan) {
    st.prevSep && Pair(s, st.i, syn.scs)
  }

  function ScanFrom(syn: EditorSyntax, s: string, st: Scan, hl: seq<Highlight>): (r: Outcome)
    requires syn.Valid() && st.i <= |s| == |hl|
    ensures |r.hl| == |hl|
    decreases |s| - st.i
  {
    if At(s, st.i) == NUL then Outcome(hl, false, st.inComment)
    else if StartsLineComment(syn, s, st) then
      Outcome(Paint(hl, st.i, |s| - st.i, Comment), true, st.inComment)
    else
      var (st', hl') := Step(syn, s, st, hl);
      ScanFrom(syn, s, st', hl')
  }

  /** Leading white space is not looked at. */
  function FirstVisible(s: string, i: nat): (k: nat)
    requires i <= |s|
    ensures i <= k <= |s|
    decreases |s| - i
  {
    if i < |s| && s[i] != NUL && IsSpace(s[i]) then FirstVisible(s, i + 1) else i
  }

  function AllNormal(n: nat): (hl: seq<Highlight>)
    ensures |hl| == n && forall k :: 0 <= k < n ==> hl[k] == Normal
  {
    seq(n, _ => Normal)
  }

  function ScanRow(syn: EditorSyntax, s: string, inComment: bool): (r: Outcome)
    requires syn.Valid()
    ensures |r.hl| == |s|
  {
    ScanFrom(syn, s, Scan(FirstVisible(s, 0), true, NUL, inComment), AllNormal(|s|))
  }

  /** RowHasOpenComment: what the colours and the last two characters of a row say. */
  predicate HasOpenComment(s: string, hl: seq<Highlight>)
    requires |s| == |hl|
  {
    var n := |s|;
    n > 0 && hl[n - 1] == MlComment && (n < 2 || s[n - 2] != '*' || s[n - 1] != '/')
  }

  // ----- facts about the scan --------------------------------------------

  /** The scan writes only from its position on. */
  lemma {:induction false} ScanKeepsPrefix(syn: EditorSyntax, s: string, st: Scan, hl: seq<Highlight>)
    requires syn.Valid() && st.i <= |s| == |hl|
    ensures ScanFrom(syn, s, st, hl).hl[..st.i] == hl[..st.i]
    decreases |s| - st.i
  {
    if At(s, st.i) != NUL && !StartsLineComment(syn, s, st) {
      var (st', hl') := Step(syn, s, st, hl);
      ScanKeepsPrefix(syn, s, st', hl');
      assert ScanFrom(syn, s, st', hl').hl[..st.i] == hl'[..st'.i][..st.i];
      assert hl'[..st.i] == hl[..st.i];
    }
  }

  /** A row that ends in a line comment does not leave a block comment open. */
  lemma {:induction false} LineCommentIsClosed(syn: EditorSyntax, s: string, st: Scan, hl: seq<Highlight>)
    requires syn.Valid() && st.i <= |s| == |hl|
    requires ScanFrom(syn, s, st, hl).lineComment
    ensures !HasOpenComment(s, ScanFrom(syn, s, st, hl).hl)
    decreases |s| - st.i
  {
    if At(s, st.i) != NUL && !StartsLineComment(syn, s, st) {
      var (st', hl') := Step(syn, s, st, hl);
      LineCommentIsClosed(syn, s, st', hl');
    }
  }
}

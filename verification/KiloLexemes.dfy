/** The colours of a row, said of what the row is put together from: separators, words,
numbers, string literals and comments. */
module KiloLexemes {
  import opened CString
  import opened KiloSyntax
  import opened KiloComments

  /** The last three run to the end of the row. */
  datatype Lexeme =
    | Mark(c: char)
    | Word(text: string)
    | Numeral(text: string)
    | Literal(quote: char, body: string)
    | Odd(c: char)
    | Block(body: string)
    | OpenLiteral(quote: char, body: string)
    | OpenBlock(body: string)
    | LineComment(body: string)

  function Spelling(x: Lexeme): (s: string)
    ensures s != "" || x.Word? || x.Numeral?
  {
    match x
    case Mark(c) => [c]
    case Word(text) => text
    case Numeral(text) => text
    case Literal(quote, body) => [quote] + (body + [quote])
    case Odd(c) => [c]
    case Block(body) => "/*" + (body + "*/")
    case OpenLiteral(quote, body) => [quote] + body
    case OpenBlock(body) => "/*" + body
    case LineComment(body) => "//" + body
  }

  /** The text from number `k` on; `end` follows: nothing, or text behind a terminator. */
  function Text(xs: seq<Lexeme>, end: string, k: nat): string
    requires k <= |xs|
    decreases |xs| - k
  {
    if k == |xs| then end else Spelling(xs[k]) + Text(xs, end, k + 1)
  }

  // ----- colours ---------------------------------------------------------

  /** The first entry of the table decides; a bar marks the name of a type. */
  function WordColour(keywords: seq<string>, word: string): Highlight
    requires word != ""
  {
    if keywords == [] then Normal
    else if keywords[0] == word + "|" then Keyword2
    else if keywords[0] == word && word[|word| - 1] != '|' then Keyword1
    else WordColour(keywords[1..], word)
  }

  /** A word is looked up only between separators. */
  function Colour(syn: EditorSyntax, x: Lexeme, afterMark: bool, rest: string): Highlight {
    match x
    case Mark(_) => Normal
    case Word(text) =>
      if afterMark && text != "" && IsSeparator(At(rest, 0)) then WordColour(syn.keywords, text) else Normal
    case Numeral(_) => Number
    case Literal(_, _) => String
    case Odd(_) => NonPrint
    case Block(_) => MlComment
    case OpenLiteral(_, _) => String
    case OpenBlock(_) => MlComment
    case LineComment(_) => Comment
  }

  function All(colour: Highlight, n: nat): (hl: seq<Highlight>)
    ensures |hl| == n && forall k :: 0 <= k < n ==> hl[k] == colour
  {
    seq(n, _ => colour)
  }

  predicate EndsWord(x: Lexeme) { x.Mark? || x.Block? }

  /** A row starts as if behind a separator. */
  predicate AfterMark(xs: seq<Lexeme>, k: nat)
    requires k <= |xs|
  {
    k == 0 || EndsWord(xs[k - 1])
  }

  predicate AfterNumber(xs: seq<Lexeme>, k: nat)
    requires k <= |xs|
  {
    k > 0 && xs[k - 1].Numeral?
  }

  function ColourAt(syn: EditorSyntax, xs: seq<Lexeme>, end: string, k: nat): Highlight
    requires k < |xs|
  {
    Colour(syn, xs[k], AfterMark(xs, k), Text(xs, end, k + 1))
  }

  function Colours(syn: EditorSyntax, xs: seq<Lexeme>, end: string, k: nat): (hl: seq<Highlight>)
    requires k <= |xs|
    ensures |hl| == |Text(xs, end, k)|
    decreases |xs| - k
  {
    if k == |xs| then All(Normal, |end|)
    else All(ColourAt(syn, xs, end, k), |Spelling(xs[k])|) + Colours(syn, xs, end, k + 1)
  }

  // ----- which rows are meant ----------------------------------------------

  predicate IsQuote(c: char) { c == '"' || c == '\'' }

  predicate IsWordChar(syn: EditorSyntax, c: char) {
    IsPrint(c) && !IsSeparator(c) && !(syn.highlightStrings && IsQuote(c))
  }

  predicate AllWordChars(syn: EditorSyntax, w: string) { forall k :: 0 <= k < |w| ==> IsWordChar(syn, w[k]) }

  /** A language with the comment marks of C whose keywords are words. */
  predicate Regular(syn: EditorSyntax) {
    && CComments(syn)
    && forall j :: 0 <= j < |syn.keywords| ==> AllWordChars(syn, syn.keywords[j])
  }

  /** Text of a literal in which nothing closes it and no block comment starts. */
  predicate Inside(body: string, quote: char) {
    body == "" ||
      (if body[0] == '\\' then |body| >= 2 && body[1] != NUL && Inside(body[2..], quote)
       else body[0] != quote && body[0] != NUL && !(body[0] == '/' && At(body, 1) == '*') && Inside(body[1..], quote))
  }

  /** One that is not closed may also end in a single backslash. */
  predicate Unclosed(body: string, quote: char) {
    Inside(body, quote) || (body != "" && body[|body| - 1] == '\\' && Inside(body[..|body| - 1], quote))
  }

  predicate InBlock(body: string) {
    NUL !in body && forall k :: 0 <= k < |body| - 1 ==> !(body[k] == '*' && body[k + 1] == '/')
  }

  predicate InNumber(c: char) { IsDigit(c) || c == '.' }

  /** `x` can stand behind a separator or not, behind a number or not, in front of `rest`. */
  predicate Fits(syn: EditorSyntax, x: Lexeme, afterMark: bool, afterNumber: bool, rest: string) {
    match x
    case Mark(c) =>
      && IsSeparator(c) && IsPrint(c) && !(afterNumber && c == '.')
      && !(c == '/' && (At(rest, 0) == '*' || (afterMark && At(rest, 0) == '/')))
    case Word(text) =>
      && text != "" && AllWordChars(syn, text) && !IsWordChar(syn, At(rest, 0))
      && (IsDigit(text[0]) ==> !syn.highlightNumbers || (!afterMark && !afterNumber))
    case Numeral(text) =>
      && syn.highlightNumbers && afterMark && text != "" && IsDigit(text[0])
      && (forall k :: 0 <= k < |text| ==> InNumber(text[k])) && !InNumber(At(rest, 0))
    case Literal(quote, body) => syn.highlightStrings && IsQuote(quote) && Inside(body, quote)
    case Odd(c) => !IsPrint(c) && c != NUL
    case Block(body) => InBlock(body)
    case OpenLiteral(quote, body) => syn.highlightStrings && IsQuote(quote) && Unclosed(body, quote)
    case OpenBlock(body) => InBlock(body)
    case LineComment(_) => afterMark
  }

  predicate Last(x: Lexeme) { x.OpenLiteral? || x.OpenBlock? || x.LineComment? }

  predicate FitsAt(syn: EditorSyntax, xs: seq<Lexeme>, end: string, k: nat)
    requires k < |xs|
  {
    && Fits(syn, xs[k], AfterMark(xs, k), AfterNumber(xs, k), Text(xs, end, k + 1))
    && (Last(xs[k]) ==> k == |xs| - 1)
    && (xs[k].LineComment? ==> end == "")
  }

  predicate Lexed(syn: EditorSyntax, xs: seq<Lexeme>, end: string) {
    At(end, 0) == NUL && forall k :: 0 <= k < |xs| ==> FitsAt(syn, xs, end, k)
  }

  // ----- text ahead of the scan --------------------------------------------

  lemma AtOf(s: string, i: nat)
    requires i <= |s|
    ensures At(s, i) == At(s[i..], 0) && At(s, i + 1) == At(s[i..], 1)
  {}

  lemma Ahead(s: string, i: nat, a: string, rest: string)
    requires i <= |s| && s[i..] == a + rest
    ensures i + |a| <= |s| && s[i + |a|..] == rest
    ensures forall k :: 0 <= k < |a| ==> s[i + k] == a[k]
    ensures At(s, i + |a|) == At(rest, 0) && At(s, i + |a| + 1) == At(rest, 1)
  {
    assert |s| - i == |a| + |rest|;
    assert forall k :: 0 <= k < |a| ==> s[i + k] == s[i..][k];
    assert s[i..][|a|..] == rest && s[i..][|a|..] == s[i + |a|..];
    AtOf(s, i + |a|);
  }

  lemma Ahead1(s: string, i: nat, a: string, rest: string)
    requires i <= |s| && a != "" && s[i..] == a + rest
    ensures i < |s| && s[i] == a[0] && s[i + 1..] == a[1..] + rest
    ensures At(s, i + 1) == At(a[1..] + rest, 0)
  {
    assert (a + rest)[1..] == a[1..] + rest;
    assert s[i..][1..] == s[i + 1..];
    assert s[i..][0] == s[i];
    if i + 1 < |s| { assert s[i + 1..][0] == s[i + 1]; }
  }

  lemma PaintNone(hl: seq<Highlight>, i: nat, colour: Highlight)
    requires i <= |hl|
    ensures Paint(hl, i, 0, colour) == hl
  {}

  lemma PaintNormal(hl: seq<Highlight>, i: nat, n: nat)
    requires i + n <= |hl| && forall k :: i <= k < i + n ==> hl[k] == Normal
    ensures Paint(hl, i, n, Normal) == hl
  {}

  lemma PaintOne(hl: seq<Highlight>, i: nat, colour: Highlight)
    requires i < |hl|
    ensures Paint(hl, i, 1, colour) == hl[i := colour]
  {}

  lemma PaintMore(hl: seq<Highlight>, i: nat, m: nat, n: nat, colour: Highlight)
    requires i + m + n <= |hl|
    ensures Paint(Paint(hl, i, m, colour), i + m, n, colour) == Paint(hl, i, m + n, colour)
  {}

  ghost predicate Ends(syn: EditorSyntax, s: string, st: Scan, hl: seq<Highlight>, out: Outcome)
    requires syn.Valid() && st.i <= |s| == |hl|
  {
    ScanFrom(syn, s, st, hl) == out
  }

  /** The scan gets from one state to another: it ends as it does from there. */
  ghost predicate Leads(syn: EditorSyntax, s: string, st: Scan, hl: seq<Highlight>, st1: Scan, hl1: seq<Highlight>)
    requires syn.Valid()
  {
    && st.i <= |s| == |hl| && st1.i <= |s| == |hl1|
    && forall out :: Ends(syn, s, st1, hl1, out) ==> Ends(syn, s, st, hl, out)
  }

  lemma Then(syn: EditorSyntax, s: string, a: Scan, hl: seq<Highlight>, b: Scan, hl1: seq<Highlight>,
      c: Scan, hl2: seq<Highlight>)
    requires syn.Valid() && Leads(syn, s, a, hl, b, hl1) && Leads(syn, s, b, hl1, c, hl2)
    ensures Leads(syn, s, a, hl, c, hl2)
  {}

  // ----- string literals ---------------------------------------------------

  lemma OneInside(syn: EditorSyntax, s: string, i: nat, hl: seq<Highlight>, quote: char)
    requires CComments(syn) && syn.highlightStrings && quote != NUL && i < |s| == |hl|
    requires s[i] != quote && s[i] != NUL && s[i] != '\\' && !(s[i] == '/' && At(s, i + 1) == '*')
    ensures Leads(syn, s, Scan(i, false, quote, false), hl, Scan(i + 1, false, quote, false), Paint(hl, i, 1, String))
  {
    PaintOne(hl, i, String);
  }

  lemma EscapeInside(syn: EditorSyntax, s: string, i: nat, hl: seq<Highlight>, quote: char)
    requires CComments(syn) && syn.highlightStrings && quote != NUL && i + 1 < |s| == |hl|
    requires s[i] == '\\' && s[i + 1] != NUL
    ensures Leads(syn, s, Scan(i, false, quote, false), hl, Scan(i + 2, false, quote, false), Paint(hl, i, 2, String))
  {}

  lemma LastInside(syn: EditorSyntax, s: string, i: nat, hl: seq<Highlight>, quote: char)
    requires CComments(syn) && syn.highlightStrings && IsQuote(quote) && i < |s| == |hl|
    requires s[i] == quote || (s[i] == '\\' && At(s, i + 1) == NUL)
    ensures Leads(syn, s, Scan(i, false, quote, false), hl,
                  Scan(i + 1, false, if s[i] == quote then NUL else quote, false), Paint(hl, i, 1, String))
  {
    PaintOne(hl, i, String);
  }

  /** From inside a string literal the scan paints up to what does not close it. */
  lemma {:induction false} ScanInside(syn: EditorSyntax, s: string, i: nat, hl: seq<Highlight>, body: string,
      quote: char, rest: string)
    requires CComments(syn) && syn.highlightStrings && quote != NUL && Inside(body, quote)
    requires i <= |s| == |hl| && s[i..] == body + rest && At(rest, 0) != '*'
    ensures i + |body| <= |s|
    ensures Leads(syn, s, Scan(i, false, quote, false), hl,
                  Scan(i + |body|, false, quote, false), Paint(hl, i, |body|, String))
    decreases |body|
  {
    Ahead(s, i, body, rest);
    if body == "" {
      PaintNone(hl, i, String);
    } else {
      Ahead1(s, i, body, rest);
      if body[0] == '\\' {
        Ahead1(s, i + 1, body[1..], rest);
        EscapeInside(syn, s, i, hl, quote);
        ScanInside(syn, s, i + 2, Paint(hl, i, 2, String), body[2..], quote, rest);
        PaintMore(hl, i, 2, |body| - 2, String);
      } else {
        OneInside(syn, s, i, hl, quote);
        ScanInside(syn, s, i + 1, Paint(hl, i, 1, String), body[1..], quote, rest);
        PaintMore(hl, i, 1, |body| - 1, String);
      }
    }
  }

  lemma QuoteAfter(syn: EditorSyntax, s: string, i: nat, hl: seq<Highlight>, n: nat, quote: char)
    requires CComments(syn) && syn.highlightStrings && IsQuote(quote) && i + n < |s| == |hl| && s[i + n] == quote
    requires Leads(syn, s, Scan(i, false, quote, false), hl,
                   Scan(i + n, false, quote, false), Paint(hl, i, n, String))
    ensures Leads(syn, s, Scan(i, false, quote, false), hl,
                  Scan(i + n + 1, false, NUL, false), Paint(hl, i, n + 1, String))
  {
    LastInside(syn, s, i + n, Paint(hl, i, n, String), quote);
    PaintMore(hl, i, n, 1, String);
  }

  /** From inside a string literal, its closing quote ends it. */
  lemma ScanToQuote(syn: EditorSyntax, s: string, i: nat, hl: seq<Highlight>, body: string, quote: char, rest: string)
    requires CComments(syn) && syn.highlightStrings && IsQuote(quote) && Inside(body, quote)
    requires i <= |s| == |hl| && s[i..] == body + ([quote] + rest)
    ensures i + |body| < |s|
    ensures Leads(syn, s, Scan(i, false, quote, false), hl,
                  Scan(i + |body| + 1, false, NUL, false), Paint(hl, i, |body| + 1, String))
  {
    Ahead(s, i, body, [quote] + rest);
    ScanInside(syn, s, i, hl, body, quote, [quote] + rest);
    QuoteAfter(syn, s, i, hl, |body|, quote);
  }

  /** What is coloured when the scan comes to a lexeme: everything in front of it. */
  ghost predicate Ready(s: string, i: nat, hl: seq<Highlight>, x: Lexeme, rest: string) {
    i <= |s| == |hl| && s[i..] == Spelling(x) + rest && forall k :: i <= k < |hl| ==> hl[k] == Normal
  }

  /** The scan passes `n` characters, which come out in this colour. */
  ghost predicate Passes(syn: EditorSyntax, s: string, i: nat, afterMark: bool, hl: seq<Highlight>, n: nat,
      ends: bool, colour: Highlight)
    requires CComments(syn)
  {
    && i + n <= |s| == |hl|
    && Leads(syn, s, Scan(i, afterMark, NUL, false), hl, Scan(i + n, ends, NUL, false), Paint(hl, i, n, colour))
  }

  lemma OpensString(syn: EditorSyntax, s: string, i: nat, afterMark: bool, hl: seq<Highlight>)
    requires CComments(syn) && syn.highlightStrings && i < |s| == |hl| && IsQuote(s[i])
    ensures Leads(syn, s, Scan(i, afterMark, NUL, false), hl, Scan(i + 1, false, s[i], false), Paint(hl, i, 1, String))
  {
    PaintOne(hl, i, String);
  }

  lemma QuoteBefore(syn: EditorSyntax, s: string, i: nat, afterMark: bool, hl: seq<Highlight>, n: nat)
    requires CComments(syn) && syn.highlightStrings && i + n < |s| == |hl| && IsQuote(s[i])
    requires Leads(syn, s, Scan(i + 1, false, s[i], false), Paint(hl, i, 1, String),
                   Scan(i + n + 1, false, NUL, false), Paint(Paint(hl, i, 1, String), i + 1, n, String))
    ensures Leads(syn, s, Scan(i, afterMark, NUL, false), hl,
                  Scan(i + n + 1, false, NUL, false), Paint(hl, i, n + 1, String))
  {
    OpensString(syn, s, i, afterMark, hl);
    PaintMore(hl, i, 1, n, String);
  }

  lemma ScanQuoted(syn: EditorSyntax, s: string, i: nat, afterMark: bool, hl: seq<Highlight>, quote: char,
      body: string, rest: string, n: nat)
    requires CComments(syn) && syn.highlightStrings && IsQuote(quote) && Inside(body, quote)
    requires i < |s| == |hl| && s[i] == quote && s[i + 1..] == body + ([quote] + rest) && n == |body| + 2
    ensures Passes(syn, s, i, afterMark, hl, n, false, String)
  {
    ScanToQuote(syn, s, i + 1, Paint(hl, i, 1, String), body, quote, rest);
    QuoteBefore(syn, s, i, afterMark, hl, |body| + 1);
  }

  lemma LiteralAhead(s: string, i: nat, quote: char, body: string, rest: string)
    requires i <= |s| && s[i..] == Spelling(Literal(quote, body)) + rest
    ensures i + |body| + 2 <= |s| && |Spelling(Literal(quote, body))| == |body| + 2
    ensures s[i] == quote && s[i + 1..] == body + ([quote] + rest)
  {
    assert s[i..] == [quote] + (body + ([quote] + rest));
    Ahead(s, i, [quote], body + ([quote] + rest));
  }

  lemma ScanLiteral(syn: EditorSyntax, s: string, i: nat, afterMark: bool, hl: seq<Highlight>, quote: char,
      body: string, rest: string, n: nat)
    requires CComments(syn) && syn.highlightStrings && IsQuote(quote) && Inside(body, quote)
    requires Ready(s, i, hl, Literal(quote, body), rest) && n == |Spelling(Literal(quote, body))|
    ensures Passes(syn, s, i, afterMark, hl, n, false, String)
  {
    LiteralAhead(s, i, quote, body, rest);
    ScanQuoted(syn, s, i, afterMark, hl, quote, body, rest, n);
  }

  // ----- comments ----------------------------------------------------------

  lemma OneInBlock(syn: EditorSyntax, s: string, i: nat, hl: seq<Highlight>, quote: char)
    requires CComments(syn) && i < |s| == |hl| && s[i] != NUL && !(s[i] == '*' && At(s, i + 1) == '/')
    ensures Leads(syn, s, Scan(i, false, quote, true), hl, Scan(i + 1, false, quote, true), Paint(hl, i, 1, MlComment))
  {
    PaintOne(hl, i, MlComment);
  }

  lemma {:induction false} ScanInBlock(syn: EditorSyntax, s: string, i: nat, hl: seq<Highlight>, quote: char,
      body: string, rest: string)
    requires CComments(syn) && InBlock(body) && At(rest, 0) != '/'
    requires i <= |s| == |hl| && s[i..] == body + rest
    ensures i + |body| <= |s|
    ensures Leads(syn, s, Scan(i, false, quote, true), hl,
                  Scan(i + |body|, false, quote, true), Paint(hl, i, |body|, MlComment))
    decreases |body|
  {
    Ahead(s, i, body, rest);
    if body == "" {
      PaintNone(hl, i, MlComment);
    } else {
      Ahead1(s, i, body, rest);
      assert InBlock(body[1..]);
      OneInBlock(syn, s, i, hl, quote);
      ScanInBlock(syn, s, i + 1, Paint(hl, i, 1, MlComment), quote, body[1..], rest);
      PaintMore(hl, i, 1, |body| - 1, MlComment);
    }
  }

  /** From inside a block comment, its end is that of the first star and slash. */
  lemma ScanToBlockEnd(syn: EditorSyntax, s: string, i: nat, hl: seq<Highlight>, quote: char,
      body: string, rest: string)
    requires CComments(syn) && InBlock(body)
    requires i <= |s| == |hl| && s[i..] == body + ("*/" + rest)
    ensures i + |body| + 2 <= |s|
    ensures Leads(syn, s, Scan(i, false, quote, true), hl,
                  Scan(i + |body| + 2, true, quote, false), Paint(hl, i, |body| + 2, MlComment))
  {
    ScanInBlock(syn, s, i, hl, quote, body, "*/" + rest);
    Ahead(s, i, body, "*/" + rest);
    Ahead(s, i + |body|, "*/", rest);
    PaintMore(hl, i, |body|, 2, MlComment);
  }

  lemma OpensBlock(syn: EditorSyntax, s: string, i: nat, afterMark: bool, hl: seq<Highlight>, quote: char)
    requires CComments(syn) && i + 1 < |s| == |hl| && s[i] == '/' && s[i + 1] == '*'
    ensures Leads(syn, s, Scan(i, afterMark, quote, false), hl,
                  Scan(i + 2, false, quote, true), Paint(hl, i, 2, MlComment))
  {}

  lemma BlockBefore(syn: EditorSyntax, s: string, i: nat, afterMark: bool, hl: seq<Highlight>, quote: char,
      n: nat)
    requires CComments(syn) && i + 2 + n <= |s| == |hl| && s[i] == '/' && s[i + 1] == '*'
    requires Leads(syn, s, Scan(i + 2, false, quote, true), Paint(hl, i, 2, MlComment),
                   Scan(i + 2 + n, true, quote, false), Paint(Paint(hl, i, 2, MlComment), i + 2, n, MlComment))
    ensures Leads(syn, s, Scan(i, afterMark, quote, false), hl,
                  Scan(i + 2 + n, true, quote, false), Paint(hl, i, 2 + n, MlComment))
  {
    OpensBlock(syn, s, i, afterMark, hl, quote);
    PaintMore(hl, i, 2, n, MlComment);
  }

  lemma BlockAhead(s: string, i: nat, body: string, rest: string)
    requires i <= |s| && s[i..] == Spelling(Block(body)) + rest
    ensures i + |body| + 4 <= |s| && |Spelling(Block(body))| == |body| + 4
    ensures s[i] == '/' && s[i + 1] == '*' && s[i + 2..] == body + ("*/" + rest)
  {
    assert s[i..] == "/*" + (body + ("*/" + rest));
    Ahead(s, i, "/*", body + ("*/" + rest));
  }

  /** A block comment; inside a string literal, too, which goes on behind it. */
  lemma ScanCommented(syn: EditorSyntax, s: string, i: nat, afterMark: bool, hl: seq<Highlight>, quote: char,
      body: string, rest: string, n: nat)
    requires CComments(syn) && InBlock(body) && n == |body| + 4 && i + n <= |s| == |hl|
    requires s[i] == '/' && s[i + 1] == '*' && s[i + 2..] == body + ("*/" + rest)
    ensures Leads(syn, s, Scan(i, afterMark, quote, false), hl,
                  Scan(i + n, true, quote, false), Paint(hl, i, n, MlComment))
  {
    ScanToBlockEnd(syn, s, i + 2, Paint(hl, i, 2, MlComment), quote, body, rest);
    BlockBefore(syn, s, i, afterMark, hl, quote, |body| + 2);
  }

  lemma ScanBlock(syn: EditorSyntax, s: string, i: nat, afterMark: bool, hl: seq<Highlight>, body: string,
      rest: string, n: nat)
    requires CComments(syn) && InBlock(body) && Ready(s, i, hl, Block(body), rest) && n == |Spelling(Block(body))|
    ensures Passes(syn, s, i, afterMark, hl, n, true, MlComment)
  {
    BlockAhead(s, i, body, rest);
    ScanCommented(syn, s, i, afterMark, hl, NUL, body, rest, n);
  }

  // ----- single characters -------------------------------------------------

  lemma ScanOdd(syn: EditorSyntax, s: string, i: nat, afterMark: bool, hl: seq<Highlight>, c: char, rest: string)
    requires CComments(syn) && !IsPrint(c) && c != NUL && Ready(s, i, hl, Odd(c), rest)
    ensures Passes(syn, s, i, afterMark, hl, 1, false, NonPrint)
  {
    Ahead(s, i, [c], rest);
    PaintOne(hl, i, NonPrint);
  }

  predicate BehindNumber(i: nat, hl: seq<Highlight>)
    requires i <= |hl|
  {
    i > 0 && hl[i - 1] == Number
  }

  lemma KeywordStands(syn: EditorSyntax, s: string, i: nat, kw: string)
    requires kw != "" && AllWordChars(syn, kw) && KeywordAt(kw, s, i)
    ensures var n := KeywordLength(kw);
      i + n <= |s| && IsSeparator(At(s, i + n)) && forall k :: i <= k < i + n ==> IsWordChar(syn, s[k])
  {
    var n := KeywordLength(kw);
    assert forall k :: i <= k < i + n ==> s[k] == s[i..i + n][k - i] == kw[k - i];
  }

  lemma KeywordsAreWords(syn: EditorSyntax, s: string, i: nat)
    requires Regular(syn) && i < |s| && !IsWordChar(syn, s[i])
    ensures FindKeyword(syn, 0, s, i) == |syn.keywords|
  {
    var k := FindKeyword(syn, 0, s, i);
    if k < |syn.keywords| {
      KeywordStands(syn, s, i, syn.keywords[k]);
    }
  }

  lemma ScanMark(syn: EditorSyntax, s: string, i: nat, afterMark: bool, hl: seq<Highlight>, c: char, rest: string)
    requires Regular(syn) && Ready(s, i, hl, Mark(c), rest)
    requires Fits(syn, Mark(c), afterMark, BehindNumber(i, hl), rest)
    ensures Passes(syn, s, i, afterMark, hl, 1, true, Normal)
  {
    Ahead(s, i, [c], rest);
    MarkAt(syn, s, i, afterMark, hl);
    PaintNormal(hl, i, 1);
  }

  lemma MarkAt(syn: EditorSyntax, s: string, i: nat, afterMark: bool, hl: seq<Highlight>)
    requires Regular(syn) && i < |s| == |hl| && IsSeparator(s[i]) && IsPrint(s[i])
    requires BehindNumber(i, hl) ==> s[i] != '.'
    requires s[i] == '/' ==> At(s, i + 1) != '*' && (afterMark ==> At(s, i + 1) != '/')
    ensures Leads(syn, s, Scan(i, afterMark, NUL, false), hl, Scan(i + 1, true, NUL, false), hl)
  {
    KeywordsAreWords(syn, s, i);
  }

  // ----- numbers -----------------------------------------------------------

  lemma OneOfNumber(syn: EditorSyntax, s: string, i: nat, afterMark: bool, hl: seq<Highlight>)
    requires CComments(syn) && syn.highlightNumbers && i < |s| == |hl| && InNumber(s[i])
    requires BehindNumber(i, hl) || (afterMark && IsDigit(s[i]))
    ensures Leads(syn, s, Scan(i, afterMark, NUL, false), hl, Scan(i + 1, false, NUL, false), Paint(hl, i, 1, Number))
  {
    PaintOne(hl, i, Number);
  }

  lemma {:induction false} ScanNumber(syn: EditorSyntax, s: string, i: nat, afterMark: bool, hl: seq<Highlight>,
      text: string, rest: string)
    requires CComments(syn) && syn.highlightNumbers && text != "" && forall k :: 0 <= k < |text| ==> InNumber(text[k])
    requires i <= |s| == |hl| && s[i..] == text + rest
    requires BehindNumber(i, hl) || (afterMark && IsDigit(text[0]))
    ensures Passes(syn, s, i, afterMark, hl, |text|, false, Number)
    decreases |text|
  {
    Ahead(s, i, text, rest);
    Ahead1(s, i, text, rest);
    OneOfNumber(syn, s, i, afterMark, hl);
    if |text| > 1 {
      ScanNumber(syn, s, i + 1, false, Paint(hl, i, 1, Number), text[1..], rest);
      PaintMore(hl, i, 1, |text| - 1, Number);
    }
  }

  // ----- words -------------------------------------------------------------

  lemma {:induction false} ScanWordOn(syn: EditorSyntax, s: string, i: nat, hl: seq<Highlight>, text: string,
      rest: string)
    requires CComments(syn) && AllWordChars(syn, text)
    requires i <= |s| == |hl| && s[i..] == text + rest && (forall k :: i <= k < |hl| ==> hl[k] == Normal)
    requires text != "" && syn.highlightNumbers && IsDigit(text[0]) ==> !BehindNumber(i, hl)
    ensures i + |text| <= |s|
    ensures Leads(syn, s, Scan(i, false, NUL, false), hl, Scan(i + |text|, false, NUL, false), hl)
    decreases |text|
  {
    if text != "" {
      Ahead1(s, i, text, rest);
      assert IsWordChar(syn, s[i]);
      ScanWordOn(syn, s, i + 1, hl, text[1..], rest);
    }
  }

  /** Where a whole word stands, a keyword stands exactly when it is that word. */
  lemma KeywordIsWord(syn: EditorSyntax, s: string, i: nat, kw: string, text: string, rest: string)
    requires kw != "" && KeywordLength(kw) > 0 && AllWordChars(syn, kw)
    requires text != "" && AllWordChars(syn, text) && !IsWordChar(syn, At(rest, 0))
    requires i <= |s| && s[i..] == text + rest
    ensures KeywordAt(kw, s, i) <==> IsSeparator(At(rest, 0)) && kw[..KeywordLength(kw)] == text
  {
    Ahead(s, i, text, rest);
    if KeywordAt(kw, s, i) { KeywordStands(syn, s, i, kw); }
    assert s[i..i + |text|] == text;
  }

  lemma BareKeyword(kw: string, text: string)
    requires kw != "" && KeywordLength(kw) > 0 && text != ""
    ensures kw[..KeywordLength(kw)] == text <==> kw == text + "|" || (kw == text && text[|text| - 1] != '|')
    ensures kw == text + "|" ==> IsTypeKeyword(kw)
    ensures kw == text && text[|text| - 1] != '|' ==> !IsTypeKeyword(kw)
  {
    if IsTypeKeyword(kw) {
      assert kw == kw[..|kw| - 1] + "|";
    }
  }

  /** The colour of a keyword found, or none. */
  function ColourFound(syn: EditorSyntax, k: nat): Highlight
    requires syn.Valid() && k <= |syn.keywords|
  {
    if k == |syn.keywords| then Normal else if IsTypeKeyword(syn.keywords[k]) then Keyword2 else Keyword1
  }

  lemma {:induction false} FoundWord(syn: EditorSyntax, j: nat, s: string, i: nat, text: string, rest: string)
    requires Regular(syn) && j <= |syn.keywords|
    requires text != "" && AllWordChars(syn, text) && !IsWordChar(syn, At(rest, 0))
    requires i <= |s| && s[i..] == text + rest
    ensures var k := FindKeyword(syn, j, s, i);
      && (k < |syn.keywords| ==> KeywordLength(syn.keywords[k]) == |text|)
      && ColourFound(syn, k) == if IsSeparator(At(rest, 0)) then WordColour(syn.keywords[j..], text) else Normal
    decreases |syn.keywords| - j
  {
    if j < |syn.keywords| {
      var kw := syn.keywords[j];
      assert kw == syn.keywords[j..][0] && syn.keywords[j..][1..] == syn.keywords[j + 1..];
      KeywordIsWord(syn, s, i, kw, text, rest);
      BareKeyword(kw, text);
      FoundWord(syn, j + 1, s, i, text, rest);
    }
  }

  lemma StartsWord(syn: EditorSyntax, s: string, i: nat, hl: seq<Highlight>)
    requires Regular(syn) && i < |s| == |hl| && IsWordChar(syn, s[i]) && (IsDigit(s[i]) ==> !syn.highlightNumbers)
    requires FindKeyword(syn, 0, s, i) == |syn.keywords|
    ensures Leads(syn, s, Scan(i, true, NUL, false), hl, Scan(i + 1, false, NUL, false), hl)
  {}

  lemma StartsKeyword(syn: EditorSyntax, s: string, i: nat, hl: seq<Highlight>, k: nat, n: nat, colour: Highlight)
    requires Regular(syn) && i < |s| == |hl| && IsWordChar(syn, s[i]) && (IsDigit(s[i]) ==> !syn.highlightNumbers)
    requires k == FindKeyword(syn, 0, s, i) && k < |syn.keywords|
    requires n == KeywordLength(syn.keywords[k]) && colour == ColourFound(syn, k)
    ensures i + n <= |s|
    ensures Leads(syn, s, Scan(i, true, NUL, false), hl, Scan(i + n, false, NUL, false), Paint(hl, i, n, colour))
  {}

  lemma KeywordAhead(syn: EditorSyntax, s: string, i: nat, text: string, rest: string, k: nat)
    requires Regular(syn) && i <= |s| && s[i..] == text + rest && Fits(syn, Word(text), true, false, rest)
    requires k == FindKeyword(syn, 0, s, i) && k < |syn.keywords|
    ensures KeywordLength(syn.keywords[k]) == |text| && i < |s| && s[i] == text[0]
  {
    Ahead1(s, i, text, rest);
    FoundWord(syn, 0, s, i, text, rest);
  }

  lemma ScanKeyword(syn: EditorSyntax, s: string, i: nat, hl: seq<Highlight>, text: string, rest: string, k: nat)
    requires Regular(syn) && Ready(s, i, hl, Word(text), rest) && Fits(syn, Word(text), true, false, rest)
    requires k == FindKeyword(syn, 0, s, i) && k < |syn.keywords|
    ensures Passes(syn, s, i, true, hl, |text|, false, ColourFound(syn, k))
  {
    KeywordAhead(syn, s, i, text, rest, k);
    StartsKeyword(syn, s, i, hl, k, |text|, ColourFound(syn, k));
  }

  lemma ScanNoKeyword(syn: EditorSyntax, s: string, i: nat, hl: seq<Highlight>, text: string, rest: string)
    requires Regular(syn) && Ready(s, i, hl, Word(text), rest) && Fits(syn, Word(text), true, false, rest)
    requires FindKeyword(syn, 0, s, i) == |syn.keywords|
    ensures Passes(syn, s, i, true, hl, |text|, false, Normal)
  {
    Ahead1(s, i, text, rest);
    StartsWord(syn, s, i, hl);
    ScanWordOn(syn, s, i + 1, hl, text[1..], rest);
    PaintNormal(hl, i, |text|);
    Then(syn, s, Scan(i, true, NUL, false), hl, Scan(i + 1, false, NUL, false), hl,
      Scan(i + |text|, false, NUL, false), hl);
  }

  lemma WordColourFound(syn: EditorSyntax, s: string, i: nat, text: string, rest: string)
    requires Regular(syn) && i <= |s| && s[i..] == text + rest && Fits(syn, Word(text), true, false, rest)
    ensures ColourFound(syn, FindKeyword(syn, 0, s, i)) == Colour(syn, Word(text), true, rest)
  {
    FoundWord(syn, 0, s, i, text, rest);
    assert syn.keywords[0..] == syn.keywords;
  }

  lemma ScanWordAfterMark(syn: EditorSyntax, s: string, i: nat, hl: seq<Highlight>, text: string, rest: string)
    requires Regular(syn) && Ready(s, i, hl, Word(text), rest) && Fits(syn, Word(text), true, false, rest)
    ensures Passes(syn, s, i, true, hl, |text|, false, Colour(syn, Word(text), true, rest))
  {
    WordColourFound(syn, s, i, text, rest);
    var k := FindKeyword(syn, 0, s, i);
    if k < |syn.keywords| {
      ScanKeyword(syn, s, i, hl, text, rest, k);
    } else {
      ScanNoKeyword(syn, s, i, hl, text, rest);
    }
  }

  lemma ScanWord(syn: EditorSyntax, s: string, i: nat, hl: seq<Highlight>, text: string, rest: string)
    requires Regular(syn) && Ready(s, i, hl, Word(text), rest)
    requires Fits(syn, Word(text), false, BehindNumber(i, hl), rest)
    ensures Passes(syn, s, i, false, hl, |text|, false, Normal)
  {
    ScanWordOn(syn, s, i, hl, text, rest);
    PaintNormal(hl, i, |text|);
  }

  // ----- the last lexeme ---------------------------------------------------

  /** The scan ends behind `n` characters, which come out in this colour. */
  ghost predicate Stops(syn: EditorSyntax, s: string, i: nat, afterMark: bool, hl: seq<Highlight>, n: nat,
      colour: Highlight, line: bool, comment: bool)
    requires CComments(syn)
  {
    && i + n <= |s| == |hl|
    && Ends(syn, s, Scan(i, afterMark, NUL, false), hl, Outcome(Paint(hl, i, n, colour), line, comment))
  }

  lemma AtTerminator(syn: EditorSyntax, s: string, st: Scan, hl: seq<Highlight>)
    requires CComments(syn) && st.i <= |s| == |hl| && At(s, st.i) == NUL
    ensures Ends(syn, s, st, hl, Outcome(hl, false, st.inComment))
  {}

  lemma ScanUnclosed(syn: EditorSyntax, s: string, i: nat, hl: seq<Highlight>, body: string, quote: char, end: string)
    requires CComments(syn) && syn.highlightStrings && IsQuote(quote) && Unclosed(body, quote) && At(end, 0) == NUL
    requires i <= |s| == |hl| && s[i..] == body + end
    ensures i + |body| <= |s|
    ensures Ends(syn, s, Scan(i, false, quote, false), hl, Outcome(Paint(hl, i, |body|, String), false, false))
  {
    Ahead(s, i, body, end);
    if Inside(body, quote) {
      ScanInside(syn, s, i, hl, body, quote, end);
      AtTerminator(syn, s, Scan(i + |body|, false, quote, false), Paint(hl, i, |body|, String));
    } else {
      var n := |body| - 1;
      assert body + end == body[..n] + (['\\'] + end);
      ScanInside(syn, s, i, hl, body[..n], quote, ['\\'] + end);
      LastInside(syn, s, i + n, Paint(hl, i, n, String), quote);
      PaintMore(hl, i, n, 1, String);
      AtTerminator(syn, s, Scan(i + |body|, false, quote, false), Paint(hl, i, |body|, String));
    }
  }

  lemma ScanOpenLiteral(syn: EditorSyntax, s: string, i: nat, afterMark: bool, hl: seq<Highlight>, quote: char,
      body: string, end: string)
    requires CComments(syn) && syn.highlightStrings && IsQuote(quote) && Unclosed(body, quote) && At(end, 0) == NUL
    requires i <= |s| == |hl| && s[i..] == Spelling(OpenLiteral(quote, body)) + end
    ensures Stops(syn, s, i, afterMark, hl, |body| + 1, String, false, false)
  {
    assert s[i..] == [quote] + (body + end);
    Ahead(s, i, [quote], body + end);
    OpensString(syn, s, i, afterMark, hl);
    ScanUnclosed(syn, s, i + 1, Paint(hl, i, 1, String), body, quote, end);
    PaintMore(hl, i, 1, |body|, String);
  }

  lemma ScanOpenBlock(syn: EditorSyntax, s: string, i: nat, afterMark: bool, hl: seq<Highlight>, body: string,
      end: string)
    requires CComments(syn) && InBlock(body) && At(end, 0) == NUL
    requires i <= |s| == |hl| && s[i..] == Spelling(OpenBlock(body)) + end
    ensures Stops(syn, s, i, afterMark, hl, |body| + 2, MlComment, false, true)
  {
    assert s[i..] == "/*" + (body + end);
    Ahead(s, i, "/*", body + end);
    assert s[i] == '/' && s[i + 1] == '*';
    OpensBlock(syn, s, i, afterMark, hl, NUL);
    Ahead(s, i + 2, body, end);
    ScanInBlock(syn, s, i + 2, Paint(hl, i, 2, MlComment), NUL, body, end);
    PaintMore(hl, i, 2, |body|, MlComment);
    AtTerminator(syn, s, Scan(i + 2 + |body|, false, NUL, true), Paint(hl, i, |body| + 2, MlComment));
  }

  lemma ScanLineComment(syn: EditorSyntax, s: string, i: nat, hl: seq<Highlight>, body: string,
      end: string)
    requires CComments(syn) && i <= |s| == |hl| && s[i..] == Spelling(LineComment(body)) + end && end == ""
    ensures Stops(syn, s, i, true, hl, |body| + 2, Comment, true, false)
  {
    assert s[i..] == "//" + body;
    Ahead(s, i, "//", body);
    assert s[i] == '/' && s[i + 1] == '/';
  }

  lemma ScanLast(syn: EditorSyntax, s: string, i: nat, afterMark: bool, hl: seq<Highlight>, x: Lexeme, end: string,
      n: nat, colour: Highlight)
    requires Regular(syn) && Ready(s, i, hl, x, end) && Fits(syn, x, afterMark, BehindNumber(i, hl), end) && Last(x)
    requires At(end, 0) == NUL && (x.LineComment? ==> end == "")
    requires n == |Spelling(x)| && colour == Colour(syn, x, afterMark, end)
    ensures Stops(syn, s, i, afterMark, hl, n, colour, x.LineComment?, x.OpenBlock?)
  {
    match x {
      case OpenLiteral(quote, body) => ScanOpenLiteral(syn, s, i, afterMark, hl, quote, body, end);
      case OpenBlock(body) => ScanOpenBlock(syn, s, i, afterMark, hl, body, end);
      case LineComment(body) => ScanLineComment(syn, s, i, hl, body, end);
    }
  }

  // ----- whole rows --------------------------------------------------------

  lemma ScanLexeme(syn: EditorSyntax, s: string, i: nat, afterMark: bool, hl: seq<Highlight>, x: Lexeme, rest: string,
      n: nat, ends: bool, colour: Highlight)
    requires Regular(syn) && Ready(s, i, hl, x, rest) && Fits(syn, x, afterMark, BehindNumber(i, hl), rest) && !Last(x)
    requires n == |Spelling(x)| && ends == EndsWord(x) && colour == Colour(syn, x, afterMark, rest)
    ensures Passes(syn, s, i, afterMark, hl, n, ends, colour)
  {
    match x {
      case Mark(c) => ScanMark(syn, s, i, afterMark, hl, c, rest);
      case Word(text) =>
        if afterMark {
          ScanWordAfterMark(syn, s, i, hl, text, rest);
        } else {
          ScanWord(syn, s, i, hl, text, rest);
        }
      case Numeral(text) => ScanNumber(syn, s, i, afterMark, hl, text, rest);
      case Literal(quote, body) => ScanLiteral(syn, s, i, afterMark, hl, quote, body, rest, n);
      case Odd(c) => ScanOdd(syn, s, i, afterMark, hl, c, rest);
      case Block(body) => ScanBlock(syn, s, i, afterMark, hl, body, rest, n);
    }
  }

  predicate EndsInLine(xs: seq<Lexeme>) { xs != [] && xs[|xs| - 1].LineComment? }

  predicate EndsInBlock(xs: seq<Lexeme>) { xs != [] && xs[|xs| - 1].OpenBlock? }

  /** The scan of a row as a function of where it stands. */
  type Scanner = (Scan, seq<Highlight>) -> Outcome

  ghost predicate Scans(scan: Scanner, syn: EditorSyntax, s: string)
    requires syn.Valid()
  {
    forall st: Scan, hl: seq<Highlight> {:trigger ScanFrom(syn, s, st, hl)} ::
      st.i <= |s| == |hl| ==> scan(st, hl) == ScanFrom(syn, s, st, hl)
  }

  lemma PaintedFirst(hl: seq<Highlight>, i: nat, n: nat, colour: Highlight, more: seq<Highlight>,
      colours: seq<Highlight>)
    requires i + n <= |hl| && colours == All(colour, n) + more
    ensures Paint(hl, i, n, colour)[..i + n] + more == hl[..i] + colours
  {}

  lemma PaintedLast(hl: seq<Highlight>, i: nat, n: nat, colour: Highlight, m: nat, colours: seq<Highlight>)
    requires |hl| == i + n + m && (forall k :: i <= k < |hl| ==> hl[k] == Normal)
    requires colours == All(colour, n) + All(Normal, m)
    ensures Paint(hl, i, n, colour) == hl[..i] + colours
  {}

  lemma NumberBehind(syn: EditorSyntax, x: Lexeme, afterMark: bool, afterNumber: bool, rest: string, i: nat,
      hl: seq<Highlight>, n: nat)
    requires Fits(syn, x, afterMark, afterNumber, rest) && n == |Spelling(x)| && i + n <= |hl|
    ensures BehindNumber(i + n, Paint(hl, i, n, Colour(syn, x, afterMark, rest))) <==> x.Numeral?
  {
    if x.Word? { NoNumber(syn.keywords, x.text); }
  }

  lemma {:induction false} NoNumber(keywords: seq<string>, word: string)
    requires word != ""
    ensures WordColour(keywords, word) != Number
  {
    if keywords != [] { NoNumber(keywords[1..], word); }
  }

  /** The scan stands in front of lexeme number `k`, and nothing behind is coloured. */
  ghost predicate StandsAt(s: string, i: nat, hl: seq<Highlight>, xs: seq<Lexeme>, end: string, k: nat)
    requires k <= |xs|
  {
    && i <= |s| == |hl| && s[i..] == Text(xs, end, k) && (forall j :: i <= j < |hl| ==> hl[j] == Normal)
    && (BehindNumber(i, hl) <==> AfterNumber(xs, k))
  }

  lemma NothingLeft(scan: Scanner, syn: EditorSyntax, s: string, i: nat, hl: seq<Highlight>, xs: seq<Lexeme>,
      end: string)
    requires Regular(syn) && Scans(scan, syn, s) && At(end, 0) == NUL && StandsAt(s, i, hl, xs, end, |xs|)
    ensures scan(Scan(i, AfterMark(xs, |xs|), NUL, false), hl) ==
            Outcome(hl[..i] + Colours(syn, xs, end, |xs|), false, false)
  {
    AtOf(s, i);
    AtTerminator(syn, s, Scan(i, AfterMark(xs, |xs|), NUL, false), hl);
    assert hl == hl[..i] + Colours(syn, xs, end, |xs|);
  }

  lemma ScanFinal(scan: Scanner, syn: EditorSyntax, s: string, i: nat, afterMark: bool, hl: seq<Highlight>, x: Lexeme,
      end: string, n: nat, colour: Highlight)
    requires Regular(syn) && Scans(scan, syn, s) && Ready(s, i, hl, x, end)
    requires Fits(syn, x, afterMark, BehindNumber(i, hl), end) && Last(x)
    requires At(end, 0) == NUL && (x.LineComment? ==> end == "")
    requires n == |Spelling(x)| && i + n <= |s| && colour == Colour(syn, x, afterMark, end)
    ensures scan(Scan(i, afterMark, NUL, false), hl) == Outcome(Paint(hl, i, n, colour), x.LineComment?, x.OpenBlock?)
  {
    ScanLast(syn, s, i, afterMark, hl, x, end, n, colour);
  }

  lemma ScanFirst(scan: Scanner, syn: EditorSyntax, s: string, i: nat, afterMark: bool, hl: seq<Highlight>, x: Lexeme,
      rest: string, n: nat, colour: Highlight)
    requires Regular(syn) && Scans(scan, syn, s) && Ready(s, i, hl, x, rest)
    requires Fits(syn, x, afterMark, BehindNumber(i, hl), rest) && !Last(x)
    requires n == |Spelling(x)| && i + n <= |s| && colour == Colour(syn, x, afterMark, rest)
    ensures scan(Scan(i, afterMark, NUL, false), hl) ==
            scan(Scan(i + n, EndsWord(x), NUL, false), Paint(hl, i, n, colour))
  {
    var st, st1, hl1 := Scan(i, afterMark, NUL, false), Scan(i + n, EndsWord(x), NUL, false), Paint(hl, i, n, colour);
    ScanLexeme(syn, s, i, afterMark, hl, x, rest, n, EndsWord(x), colour);
    assert Ends(syn, s, st1, hl1, ScanFrom(syn, s, st1, hl1));
  }

  lemma ScanOne(scan: Scanner, syn: EditorSyntax, s: string, i: nat, hl: seq<Highlight>, xs: seq<Lexeme>,
      end: string, k: nat) returns (i1: nat, hl1: seq<Highlight>)
    requires Regular(syn) && Scans(scan, syn, s) && k < |xs| && FitsAt(syn, xs, end, k) && !Last(xs[k])
    requires StandsAt(s, i, hl, xs, end, k)
    ensures i <= i1 && StandsAt(s, i1, hl1, xs, end, k + 1)
    ensures scan(Scan(i, AfterMark(xs, k), NUL, false), hl) == scan(Scan(i1, AfterMark(xs, k + 1), NUL, false), hl1)
    ensures hl1[..i1] + Colours(syn, xs, end, k + 1) == hl[..i] + Colours(syn, xs, end, k)
  {
    var x, rest, colour := xs[k], Text(xs, end, k + 1), ColourAt(syn, xs, end, k);
    var n := |Spelling(x)|;
    i1 := i + n;
    Ahead(s, i, Spelling(x), rest);
    hl1 := Paint(hl, i, n, colour);
    PaintedFirst(hl, i, n, colour, Colours(syn, xs, end, k + 1), Colours(syn, xs, end, k));
    NumberBehind(syn, x, AfterMark(xs, k), AfterNumber(xs, k), rest, i, hl, n);
    ScanFirst(scan, syn, s, i, AfterMark(xs, k), hl, x, rest, n, colour);
  }

  lemma ScanEnd(scan: Scanner, syn: EditorSyntax, s: string, i: nat, hl: seq<Highlight>, xs: seq<Lexeme>,
      end: string, k: nat)
    requires Regular(syn) && Scans(scan, syn, s) && At(end, 0) == NUL && k == |xs| - 1
    requires FitsAt(syn, xs, end, k) && Last(xs[k]) && StandsAt(s, i, hl, xs, end, k)
    ensures scan(Scan(i, AfterMark(xs, k), NUL, false), hl) ==
            Outcome(hl[..i] + Colours(syn, xs, end, k), EndsInLine(xs), EndsInBlock(xs))
  {
    var x, n, colour := xs[k], |Spelling(xs[k])|, ColourAt(syn, xs, end, k);
    Ahead(s, i, Spelling(x), end);
    assert Colours(syn, xs, end, k + 1) == All(Normal, |end|);
    PaintedLast(hl, i, n, colour, |end|, Colours(syn, xs, end, k));
    ScanFinal(scan, syn, s, i, AfterMark(xs, k), hl, x, end, n, colour);
  }

  /** The scan of what is put together from lexemes colours each of them. */
  lemma {:induction false} ScanLexemes(scan: Scanner, syn: EditorSyntax, s: string, i: nat, hl: seq<Highlight>,
      xs: seq<Lexeme>, end: string, k: nat)
    requires Regular(syn) && Scans(scan, syn, s) && Lexed(syn, xs, end) && k <= |xs|
    requires StandsAt(s, i, hl, xs, end, k) && (k > 0 ==> !Last(xs[k - 1]))
    ensures scan(Scan(i, AfterMark(xs, k), NUL, false), hl) ==
            Outcome(hl[..i] + Colours(syn, xs, end, k), EndsInLine(xs), EndsInBlock(xs))
    decreases |xs| - k
  {
    if k == |xs| {
      NothingLeft(scan, syn, s, i, hl, xs, end);
    } else {
      assert FitsAt(syn, xs, end, k);
      if Last(xs[k]) {
        ScanEnd(scan, syn, s, i, hl, xs, end, k);
      } else {
        var i1, hl1 := ScanOne(scan, syn, s, i, hl, xs, end, k);
        ScanLexemes(scan, syn, s, i1, hl1, xs, end, k + 1);
      }
    }
  }

  // ----- the row as a whole ------------------------------------------------

  predicate Blank(s: string) { forall k :: 0 <= k < |s| ==> IsSpace(s[k]) }

  /** Neither white space nor, behind white space, more of it. */
  predicate StartsVisibly(s: string) { s == "" || !IsSpace(s[0]) }

  lemma {:induction false} FirstVisibleIs(lead: string, s: string, i: nat)
    requires i <= |lead| && Blank(lead) && StartsVisibly(s)
    ensures FirstVisible(lead + s, i) == |lead|
    decreases |lead| - i
  {
    var t := lead + s;
    if i < |lead| {
      assert t[i] == lead[i] && IsSpace(lead[i]);
      FirstVisibleIs(lead, s, i + 1);
    } else if s != "" {
      assert t[i] == s[0];
    }
  }

  function TheScan(syn: EditorSyntax, s: string): Scanner
    requires syn.Valid()
  {
    (st: Scan, hl: seq<Highlight>) =>
      if st.i <= |s| == |hl| then ScanFrom(syn, s, st, hl) else Outcome(hl, false, false)
  }

  /** A row outside a comment is coloured as what it is put together from. */
  lemma RowOfLexemes(syn: EditorSyntax, lead: string, xs: seq<Lexeme>, end: string)
    requires Regular(syn) && Lexed(syn, xs, end) && Blank(lead) && StartsVisibly(Text(xs, end, 0))
    ensures ScanRow(syn, lead + Text(xs, end, 0), false) ==
            Outcome(All(Normal, |lead|) + Colours(syn, xs, end, 0), EndsInLine(xs), EndsInBlock(xs))
  {
    var s, hl := lead + Text(xs, end, 0), AllNormal(|lead + Text(xs, end, 0)|);
    FirstVisibleIs(lead, Text(xs, end, 0), 0);
    assert s[|lead|..] == Text(xs, end, 0);
    ScanLexemes(TheScan(syn, s), syn, s, |lead|, hl, xs, end, 0);
    assert hl[..|lead|] == All(Normal, |lead|);
  }

  /** At the start of a row inside a comment only two slashes end it. */
  lemma StartsInBlock(syn: EditorSyntax, s: string, i: nat, hl: seq<Highlight>)
    requires CComments(syn) && i <= |s| == |hl| && !(At(s, i) == '/' && At(s, i + 1) == '/')
    ensures Leads(syn, s, Scan(i, true, NUL, true), hl, Scan(i, false, NUL, true), hl)
  {}

  predicate StartsLine(s: string) { At(s, 0) == '/' && At(s, 1) == '/' }

  lemma ToBlockEnd(syn: EditorSyntax, s: string, i: nat, hl: seq<Highlight>, body: string, rest: string, n: nat)
    requires CComments(syn) && InBlock(body) && !StartsLine(body) && n == |body| + 2
    requires i <= |s| == |hl| && s[i..] == body + ("*/" + rest)
    ensures i + n <= |s| && s[i + n..] == rest
    ensures Leads(syn, s, Scan(i, true, NUL, true), hl, Scan(i + n, true, NUL, false), Paint(hl, i, n, MlComment))
  {
    Ahead(s, i, body, "*/" + rest);
    Ahead(s, i + |body|, "*/", rest);
    AtOf(s, i);
    StartsInBlock(syn, s, i, hl);
    ScanToBlockEnd(syn, s, i, hl, NUL, body, rest);
  }

  lemma LeadsScan(scan: Scanner, syn: EditorSyntax, s: string, st: Scan, hl: seq<Highlight>, st1: Scan,
      hl1: seq<Highlight>)
    requires syn.Valid() && Scans(scan, syn, s) && Leads(syn, s, st, hl, st1, hl1)
    ensures scan(st, hl) == scan(st1, hl1)
  {
    assert Ends(syn, s, st1, hl1, ScanFrom(syn, s, st1, hl1));
  }

  lemma ScanToLexemes(scan: Scanner, syn: EditorSyntax, s: string, i: nat, hl: seq<Highlight>, body: string,
      xs: seq<Lexeme>, end: string) returns (i1: nat, hl1: seq<Highlight>)
    requires Regular(syn) && Scans(scan, syn, s) && InBlock(body) && !StartsLine(body)
    requires i <= |s| && s[i..] == body + ("*/" + Text(xs, end, 0)) && hl == AllNormal(|s|)
    ensures i1 == i + |body| + 2 <= |s| && hl1 == Paint(hl, i, |body| + 2, MlComment)
    ensures scan(Scan(i, true, NUL, true), hl) == scan(Scan(i1, true, NUL, false), hl1)
    ensures StandsAt(s, i1, hl1, xs, end, 0)
  {
    var n := |body| + 2;
    ToBlockEnd(syn, s, i, hl, body, Text(xs, end, 0), n);
    i1, hl1 := i + n, Paint(hl, i, n, MlComment);
    LeadsScan(scan, syn, s, Scan(i, true, NUL, true), hl, Scan(i1, true, NUL, false), hl1);
  }

  lemma ScanOutOfBlock(scan: Scanner, syn: EditorSyntax, s: string, i: nat, hl: seq<Highlight>, body: string,
      xs: seq<Lexeme>, end: string)
    requires Regular(syn) && Scans(scan, syn, s) && Lexed(syn, xs, end) && InBlock(body) && !StartsLine(body)
    requires i <= |s| && s[i..] == body + ("*/" + Text(xs, end, 0)) && hl == AllNormal(|s|)
    ensures scan(Scan(i, true, NUL, true), hl) ==
            Outcome(hl[..i] + (All(MlComment, |body| + 2) + Colours(syn, xs, end, 0)), EndsInLine(xs), EndsInBlock(xs))
  {
    var more := Colours(syn, xs, end, 0);
    var i1, hl1 := ScanToLexemes(scan, syn, s, i, hl, body, xs, end);
    ScanLexemes(scan, syn, s, i1, hl1, xs, end, 0);
    PaintedFirst(hl, i, |body| + 2, MlComment, more, All(MlComment, |body| + 2) + more);
  }

  /** A row that starts inside a comment: the comment up to its end, then lexemes. */
  lemma RowOutOfBlock(syn: EditorSyntax, lead: string, body: string, xs: seq<Lexeme>, end: string)
    requires Regular(syn) && Lexed(syn, xs, end) && Blank(lead)
    requires InBlock(body) && !StartsLine(body) && StartsVisibly(body)
    ensures ScanRow(syn, lead + (body + ("*/" + Text(xs, end, 0))), true) ==
            Outcome(All(Normal, |lead|) + (All(MlComment, |body| + 2) + Colours(syn, xs, end, 0)),
                    EndsInLine(xs), EndsInBlock(xs))
  {
    var m, rest := |lead|, body + ("*/" + Text(xs, end, 0));
    var s := lead + rest;
    FirstVisibleIs(lead, rest, 0);
    assert s[m..] == rest;
    ScanOutOfBlock(TheScan(syn, s), syn, s, m, AllNormal(|s|), body, xs, end);
    assert AllNormal(|s|)[..m] == All(Normal, m);
  }

  /** Or all of it is comment. */
  lemma RowInBlock(syn: EditorSyntax, lead: string, body: string, end: string)
    requires CComments(syn) && Blank(lead) && At(end, 0) == NUL
    requires InBlock(body) && !StartsLine(body) && StartsVisibly(body + end)
    ensures ScanRow(syn, lead + (body + end), true) ==
            Outcome(All(Normal, |lead|) + (All(MlComment, |body|) + All(Normal, |end|)), false, true)
  {
    var s := lead + (body + end);
    var m, hl := |lead|, AllNormal(|s|);
    FirstVisibleIs(lead, body + end, 0);
    Ahead(s, m, body, end);
    AtOf(s, m);
    StartsInBlock(syn, s, m, hl);
    ScanInBlock(syn, s, m, hl, NUL, body, end);
    AtTerminator(syn, s, Scan(m + |body|, false, NUL, true), Paint(hl, m, |body|, MlComment));
    assert Paint(hl, m, |body|, MlComment) == All(Normal, m) + (All(MlComment, |body|) + All(Normal, |end|));
  }
}

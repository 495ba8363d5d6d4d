/** Every row in which no block comment starts is put together from lexemes. */
module KiloLexing {
  import opened CString
  import opened KiloSyntax
  import opened KiloLexemes

  predicate NoBlock(s: string) { forall k :: 0 <= k < |s| - 1 ==> !(s[k] == '/' && s[k + 1] == '*') }

  // ----- one lexeme --------------------------------------------------------

  /** The word or number that starts here. */
  lemma {:induction false} LongestRun(s: string, ok: char -> bool) returns (n: nat)
    ensures n <= |s| && (forall k :: 0 <= k < n ==> ok(s[k])) && (n < |s| ==> !ok(s[n]))
    ensures s != "" && ok(s[0]) ==> n > 0
  {
    if s != "" && ok(s[0]) {
      var m := LongestRun(s[1..], ok);
      n := m + 1;
      assert forall k :: 0 < k < n ==> s[k] == s[1..][k - 1];
      if n < |s| { assert s[n] == s[1..][m]; }
    } else {
      n := 0;
    }
  }

  /** How far a literal goes in which nothing closes it. */
  lemma {:induction false} LongestInside(t: string, quote: char) returns (n: nat)
    requires NoBlock(t) && IsQuote(quote)
    ensures n <= |t| && Inside(t[..n], quote)
    ensures At(t, n) == NUL || t[n] == quote || (t[n] == '\\' && At(t, n + 1) == NUL)
    decreases |t|
  {
    if At(t, 0) == NUL || t[0] == quote || (t[0] == '\\' && At(t, 1) == NUL) {
      n := 0;
    } else {
      var step := if t[0] == '\\' then 2 else 1;
      var m := LongestInside(t[step..], quote);
      n := m + step;
      assert t[..n][step..] == t[step..][..m];
      assert At(t, n) == At(t[step..], m) && At(t, n + 1) == At(t[step..], m + 1);
    }
  }

  /** `x` stands at the start of `s`, in front of `rest`. */
  ghost predicate Begins(syn: EditorSyntax, s: string, afterMark: bool, afterNumber: bool, x: Lexeme, rest: string) {
    && s == Spelling(x) + rest && |rest| < |s| && Fits(syn, x, afterMark, afterNumber, rest)
    && (Last(x) ==> At(rest, 0) == NUL) && (x.LineComment? ==> rest == "")
  }

  lemma ClosedLiteral(s: string, t: string, n: nat, quote: char)
    requires s == [quote] + t && n < |t| && t[n] == quote
    ensures s == Spelling(Literal(quote, t[..n])) + t[n + 1..]
  {
    assert t == t[..n] + ([quote] + t[n + 1..]);
  }

  lemma UnclosedLiteral(s: string, t: string, n: nat, quote: char)
    requires s == [quote] + t && n <= |t|
    ensures s == Spelling(OpenLiteral(quote, t[..n])) + t[n..]
  {}

  lemma TrailingBackslash(t: string, n: nat, quote: char)
    requires n < |t| && t[n] == '\\' && Inside(t[..n], quote)
    ensures Unclosed(t[..n + 1], quote)
  {
    assert t[..n + 1][..n] == t[..n];
  }

  lemma BeginsLiteral(syn: EditorSyntax, s: string, afterMark: bool, afterNumber: bool)
    returns (x: Lexeme, rest: string)
    requires NoBlock(s) && s != "" && syn.highlightStrings && IsQuote(s[0])
    ensures Begins(syn, s, afterMark, afterNumber, x, rest)
  {
    var quote, t := s[0], s[1..];
    var n := LongestInside(t, quote);
    if n < |t| && t[n] == quote {
      ClosedLiteral(s, t, n, quote);
      x, rest := Literal(quote, t[..n]), t[n + 1..];
    } else {
      if At(t, n) != NUL {
        TrailingBackslash(t, n, quote);
        n := n + 1;
      }
      UnclosedLiteral(s, t, n, quote);
      x, rest := OpenLiteral(quote, t[..n]), t[n..];
    }
  }

  lemma BeginsWord(syn: EditorSyntax, s: string, afterMark: bool, afterNumber: bool) returns (x: Lexeme, rest: string)
    requires s != "" && IsWordChar(syn, s[0])
    requires IsDigit(s[0]) ==> !syn.highlightNumbers || (!afterMark && !afterNumber)
    ensures Begins(syn, s, afterMark, afterNumber, x, rest)
  {
    var n := LongestRun(s, c => IsWordChar(syn, c));
    x, rest := Word(s[..n]), s[n..];
    assert s == s[..n] + rest;
  }

  lemma BeginsNumber(syn: EditorSyntax, s: string, afterNumber: bool) returns (x: Lexeme, rest: string)
    requires s != "" && IsDigit(s[0]) && syn.highlightNumbers
    ensures Begins(syn, s, true, afterNumber, x, rest)
  {
    var n := LongestRun(s, c => InNumber(c));
    x, rest := Numeral(s[..n]), s[n..];
    assert s == s[..n] + rest;
  }

  lemma BeginsWithChar(syn: EditorSyntax, s: string, afterMark: bool, afterNumber: bool)
    returns (x: Lexeme, rest: string)
    requires NoBlock(s) && s != "" && s[0] != NUL && (IsPrint(s[0]) ==> IsSeparator(s[0]))
    requires afterNumber ==> !InNumber(s[0])
    requires !(afterMark && StartsLine(s))
    ensures Begins(syn, s, afterMark, afterNumber, x, rest)
  {
    x, rest := if IsPrint(s[0]) then Mark(s[0]) else Odd(s[0]), s[1..];
    assert s == [s[0]] + rest;
  }

  lemma BeginsLine(syn: EditorSyntax, s: string, afterNumber: bool) returns (x: Lexeme, rest: string)
    requires StartsLine(s)
    ensures Begins(syn, s, true, afterNumber, x, rest)
  {
    x, rest := LineComment(s[2..]), "";
    assert s == "//" + s[2..];
  }

  lemma NextLexeme(syn: EditorSyntax, s: string, afterMark: bool, afterNumber: bool) returns (x: Lexeme, rest: string)
    requires NoBlock(s) && At(s, 0) != NUL && (afterNumber ==> !InNumber(s[0]))
    ensures Begins(syn, s, afterMark, afterNumber, x, rest)
  {
    if afterMark && StartsLine(s) {
      x, rest := BeginsLine(syn, s, afterNumber);
    } else if syn.highlightStrings && IsQuote(s[0]) {
      x, rest := BeginsLiteral(syn, s, afterMark, afterNumber);
    } else if !IsPrint(s[0]) || IsSeparator(s[0]) {
      x, rest := BeginsWithChar(syn, s, afterMark, afterNumber);
    } else if afterMark && IsDigit(s[0]) && syn.highlightNumbers {
      x, rest := BeginsNumber(syn, s, afterNumber);
    } else {
      x, rest := BeginsWord(syn, s, afterMark, afterNumber);
    }
  }

  // ----- all of them -------------------------------------------------------

  lemma {:induction false} TextOfMore(xs: seq<Lexeme>, x: Lexeme, end: string, k: nat)
    requires k <= |xs|
    ensures Text(xs + [x], end, k) == Text(xs, Spelling(x) + end, k)
    decreases |xs| - k
  {
    var ys := xs + [x];
    if k < |xs| {
      assert ys[k] == xs[k];
      TextOfMore(xs, x, end, k + 1);
    } else {
      assert ys[k] == x && Text(ys, end, k + 1) == end;
    }
  }

  /** What is read so far, none of it the last lexeme of a row. */
  ghost predicate ReadSoFar(syn: EditorSyntax, xs: seq<Lexeme>, s: string) {
    forall k :: 0 <= k < |xs| ==>
      Fits(syn, xs[k], AfterMark(xs, k), AfterNumber(xs, k), Text(xs, s, k + 1)) && !Last(xs[k])
  }

  lemma TextBehind(xs: seq<Lexeme>, x: Lexeme, end: string)
    ensures Text(xs + [x], end, |xs| + 1) == end
  {}

  lemma StillFits(syn: EditorSyntax, xs: seq<Lexeme>, s: string, x: Lexeme, rest: string, k: nat)
    requires k < |xs| && s == Spelling(x) + rest
    ensures var ys := xs + [x];
      Fits(syn, ys[k], AfterMark(ys, k), AfterNumber(ys, k), Text(ys, rest, k + 1)) <==>
      Fits(syn, xs[k], AfterMark(xs, k), AfterNumber(xs, k), Text(xs, s, k + 1))
  {
    TextOfMore(xs, x, rest, k + 1);
  }

  /** The lexemes read so far stay what they are. */
  lemma AllStillFit(syn: EditorSyntax, xs: seq<Lexeme>, s: string, x: Lexeme, rest: string, ys: seq<Lexeme>)
    requires ReadSoFar(syn, xs, s) && s == Spelling(x) + rest && ys == xs + [x]
    ensures forall k :: 0 <= k < |xs| ==>
      Fits(syn, ys[k], AfterMark(ys, k), AfterNumber(ys, k), Text(ys, rest, k + 1)) && !Last(ys[k])
  {
    forall k | 0 <= k < |xs|
      ensures Fits(syn, ys[k], AfterMark(ys, k), AfterNumber(ys, k), Text(ys, rest, k + 1)) && !Last(ys[k])
    {
      StillFits(syn, xs, s, x, rest, k);
    }
  }

  lemma NewOneFits(syn: EditorSyntax, xs: seq<Lexeme>, x: Lexeme, rest: string, ys: seq<Lexeme>, afterMark: bool,
      afterNumber: bool)
    requires Fits(syn, x, afterMark, afterNumber, rest) && ys == xs + [x]
    requires afterMark == AfterMark(xs, |xs|) && afterNumber == AfterNumber(xs, |xs|)
    ensures Fits(syn, ys[|xs|], AfterMark(ys, |xs|), AfterNumber(ys, |xs|), Text(ys, rest, |xs| + 1))
  {
    TextBehind(xs, x, rest);
  }

  lemma ReadOn(syn: EditorSyntax, xs: seq<Lexeme>, s: string, x: Lexeme, rest: string)
    requires ReadSoFar(syn, xs, s) && Begins(syn, s, AfterMark(xs, |xs|), AfterNumber(xs, |xs|), x, rest)
    ensures Text(xs + [x], rest, 0) == Text(xs, s, 0)
    ensures if Last(x) then Lexed(syn, xs + [x], rest) else ReadSoFar(syn, xs + [x], rest)
  {
    var ys := xs + [x];
    TextOfMore(xs, x, rest, 0);
    AllStillFit(syn, xs, s, x, rest, ys);
    NewOneFits(syn, xs, x, rest, ys, AfterMark(xs, |xs|), AfterNumber(xs, |xs|));
  }

  lemma {:induction false} ReadAll(syn: EditorSyntax, xs: seq<Lexeme>, s: string) returns (ys: seq<Lexeme>, end: string)
    requires ReadSoFar(syn, xs, s) && NoBlock(s) && (AfterNumber(xs, |xs|) ==> !InNumber(At(s, 0)))
    ensures Lexed(syn, ys, end) && Text(ys, end, 0) == Text(xs, s, 0)
    decreases |s|
  {
    if At(s, 0) == NUL {
      ys, end := xs, s;
    } else {
      var x, rest := NextLexeme(syn, s, AfterMark(xs, |xs|), AfterNumber(xs, |xs|));
      ReadOn(syn, xs, s, x, rest);
      if Last(x) {
        ys, end := xs + [x], rest;
      } else {
        assert rest == s[|Spelling(x)|..];
        ys, end := ReadAll(syn, xs + [x], rest);
      }
    }
  }

  lemma {:induction false} BlankUpToVisible(s: string, i: nat)
    requires i <= |s| && Blank(s[..i])
    ensures var n := FirstVisible(s, i); Blank(s[..n]) && (n < |s| ==> !IsSpace(s[n]))
    decreases |s| - i
  {
    if i < |s| && s[i] != NUL && IsSpace(s[i]) {
      BlankUpToVisible(s, i + 1);
    }
  }

  /** Every row without the start of a block comment is put together from lexemes, and so
      has the colours of these. */
  lemma RowIsLexed(syn: EditorSyntax, s: string) returns (lead: string, xs: seq<Lexeme>, end: string)
    requires Regular(syn) && NoBlock(s)
    ensures s == lead + Text(xs, end, 0) && Blank(lead) && Lexed(syn, xs, end) && StartsVisibly(Text(xs, end, 0))
    ensures ScanRow(syn, s, false) ==
            Outcome(All(Normal, |lead|) + Colours(syn, xs, end, 0), EndsInLine(xs), EndsInBlock(xs))
  {
    var n := FirstVisible(s, 0);
    lead := s[..n];
    BlankUpToVisible(s, 0);
    xs, end := ReadAll(syn, [], s[n..]);
    assert s == lead + Text(xs, end, 0);
    RowOfLexemes(syn, lead, xs, end);
  }
}

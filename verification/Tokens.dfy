/** Splitting a command line into words in place, and joining words back into a line. */
module Tokens {
  import opened CBuffer
  import opened CString
  import opened Errno

  predicate IsQuote(c: char) { c == '"' || c == '\'' }

  /** What ends a word: its own quote, or for a word without one any space. */
  predicate Ends(c: char, quote: char) { if quote != NUL then c == quote else IsSpace(c) }

  function WordLength(t: string, quote: char): (n: nat)
    ensures n <= |t|
  {
    if t == "" || Ends(t[0], quote) then 0 else 1 + WordLength(t[1..], quote)
  }

  /** A word without quotes goes up to the first white space, a quoted one to its quote. */
  lemma {:induction false} WordEnds(t: string, quote: char)
    ensures var n := WordLength(t, quote);
      && (n < |t| ==> if quote == NUL then IsSpace(t[n]) else t[n] == quote)
      && (quote == NUL ==> forall i :: 0 <= i < n ==> !IsSpace(t[i]))
      && (quote != NUL ==> quote !in t[..n])
  {
    if t != "" && !Ends(t[0], quote) {
      WordEnds(t[1..], quote);
      var n := WordLength(t, quote);
      assert t[..n] == [t[0]] + t[1..][..n - 1];
      assert forall i :: 0 < i < n ==> t[i] == t[1..][i - 1];
    }
  }

  function Quote(t: string): char { if t != "" && IsQuote(t[0]) then t[0] else NUL }

  function Body(t: string): (b: string)
    ensures |b| <= |t| && (t != "" && b == t ==> !IsQuote(t[0]))
  {
    if Quote(t) != NUL then t[1..] else t
  }

  function First(t: string): string { Body(t)[..WordLength(Body(t), Quote(t))] }

  function Rest(t: string): (r: string)
    ensures |r| <= |t| && (t != "" && !IsSpace(t[0]) ==> |r| < |t|)
  {
    var n := WordLength(Body(t), Quote(t));
    if n < |Body(t)| then Body(t)[n + 1..] else ""
  }

  /** The words of a line. A quote at the start of a word runs to its next occurrence, or to
      the end of the line; elsewhere it is an ordinary character. */
  function Words(t: string): seq<string>
    decreases |t|
  {
    var u := SkipSpaces(t);
    if u == "" then [] else [First(u)] + Words(Rest(u))
  }

  function Spaced(t: string): string { " " + t }

  function Join(words: seq<string>): string {
    if words == [] then ""
    else if |words| == 1 then words[0]
    else words[0] + Spaced(Join(words[1..]))
  }

  // ----- the words of a joined line --------------------------------------

  predicate Plain(w: string) {
    w != "" && !IsQuote(w[0]) && forall i :: 0 <= i < |w| ==> !IsSpace(w[i])
  }

  predicate AllPlain(words: seq<string>) { forall k :: 0 <= k < |words| ==> Plain(words[k]) }

  lemma {:induction false} PlainWordLength(w: string, rest: string)
    requires forall i :: 0 <= i < |w| ==> !IsSpace(w[i])
    requires rest == "" || IsSpace(rest[0])
    ensures WordLength(w + rest, NUL) == |w|
  {
    if w == "" {
      assert w + rest == rest;
    } else {
      assert (w + rest)[1..] == w[1..] + rest;
      PlainWordLength(w[1..], rest);
    }
  }

  lemma PlainFirst(w: string, rest: string)
    requires Plain(w) && (rest == "" || IsSpace(rest[0]))
    ensures SkipSpaces(w + rest) == w + rest && First(w + rest) == w
    ensures Rest(w + rest) == if rest == "" then "" else rest[1..]
  {
    var t := w + rest;
    assert t[0] == w[0];
    PlainWordLength(w, rest);
    assert t[..|w|] == w;
    if rest != "" {
      assert t[|w| + 1..] == rest[1..];
    }
  }

  lemma PlainThenWords(w: string, line: string)
    requires Plain(w)
    ensures Words(w + Spaced(line)) == [w] + Words(line)
  {
    var rest := Spaced(line);
    PlainFirst(w, rest);
    assert rest[1..] == line;
  }

  lemma PlainAlone(w: string)
    requires Plain(w)
    ensures Words(w) == [w]
  {
    PlainFirst(w, "");
    assert w + "" == w;
  }

  lemma {:induction false} WordsOfPlain(words: seq<string>)
    requires AllPlain(words)
    ensures Words(Join(words)) == words
  {
    if |words| == 1 {
      PlainAlone(words[0]);
    } else if |words| > 1 {
      WordsOfPlain(words[1..]);
      PlainThenWords(words[0], Join(words[1..]));
      assert words == [words[0]] + words[1..];
    }
  }

  /** A line is at least as long as its words joined, and longer when one of them was
      quoted, which is what becomes of a word that is not plain. */
  lemma {:induction false} WordsCost(t: string)
    ensures |Join(Words(t))| <= |t|
    ensures !AllPlain(Words(t)) ==> |Join(Words(t))| < |t|
    decreases |t|
  {
    var u := SkipSpaces(t);
    if u != "" {
      var w, rest := First(u), Words(Rest(u));
      WordsCost(Rest(u));
      assert ([w] + rest)[1..] == rest;
      if rest == [] {
        assert Join([w]) == w;
      }
      if Quote(u) == NUL {
        UnquotedIsPlain(u);
        if AllPlain(rest) {
          assert AllPlain([w] + rest);
        }
      }
    }
  }

  lemma UnquotedIsPlain(u: string)
    requires u != "" && !IsSpace(u[0]) && Quote(u) == NUL
    ensures Plain(First(u))
  {
    WordEnds(u, NUL);
    assert First(u)[0] == u[0];
  }

  /** Splitting undoes joining for exactly the lists of plain words. */
  lemma WordsOfJoin(words: seq<string>)
    ensures Words(Join(words)) == words <==> AllPlain(words)
  {
    if AllPlain(words) {
      WordsOfPlain(words);
    }
    WordsCost(Join(words));
  }

  // ----- quoted words ------------------------------------------------------

  lemma {:induction false} QuotedWordLength(w: string, rest: string, quote: char)
    requires quote != NUL && quote !in w && (rest == "" || rest[0] == quote)
    ensures WordLength(w + rest, quote) == |w|
  {
    if w == "" {
      assert w + rest == rest;
    } else {
      assert (w + rest)[1..] == w[1..] + rest && w[0] in w;
      QuotedWordLength(w[1..], rest, quote);
    }
  }

  /** A quoted word keeps its blanks, and the next one may follow its quote at once. */
  lemma QuotedThenWords(w: string, quote: char, rest: string)
    requires IsQuote(quote) && quote !in w
    ensures Words([quote] + (w + ([quote] + rest))) == [w] + Words(rest)
  {
    var body := w + ([quote] + rest);
    var t := [quote] + body;
    QuotedWordLength(w, [quote] + rest, quote);
    assert t[0] == quote && t[1..] == body;
    assert body[..|w|] == w && body[|w| + 1..] == rest;
    assert SkipSpaces(t) == t && First(t) == w && Rest(t) == rest;
  }

  /** Without its second quote it runs to the end of the line. */
  lemma UnclosedWord(w: string, quote: char)
    requires IsQuote(quote) && quote !in w
    ensures Words([quote] + w) == [w]
  {
    var t := [quote] + w;
    QuotedWordLength(w, "", quote);
    assert w + "" == w && w[..|w|] == w;
    assert t[0] == quote && t[1..] == w;
    assert SkipSpaces(t) == t && First(t) == w && Rest(t) == "";
  }

  lemma BlanksBetween(c: char, t: string)
    requires IsSpace(c)
    ensures Words([c] + t) == Words(t)
  {
    assert ([c] + t)[1..] == t;
  }

  /** An argument as it can be typed. */
  datatype Typed = Bare(word: string) | InQuotes(word: string, quote: char)
  {
    predicate Valid() {
      match this
      case Bare(_) =>
        word != "" && word[0] != '"' && word[0] != '\'' && forall i :: 0 <= i < |word| ==> !IsSpace(word[i])
      case InQuotes(_, _) => (quote == '"' || quote == '\'') && quote !in word
    }

    function Text(rest: string): string {
      match this
      case Bare(_) => word + rest
      case InQuotes(_, _) => [quote] + (word + ([quote] + rest))
    }
  }

  function LineOf(args: seq<Typed>): string {
    if args == [] then "" else args[0].Text(if |args| == 1 then "" else Spaced(LineOf(args[1..])))
  }

  function Arguments(args: seq<Typed>): seq<string> {
    if args == [] then [] else [args[0].word] + Arguments(args[1..])
  }

  /** Any list of arguments can be typed and comes out as it is, those in quotes with
      blanks and the other quote in them. */
  lemma {:induction false} TypedWords(args: seq<Typed>)
    requires forall k :: 0 <= k < |args| ==> args[k].Valid()
    ensures Words(LineOf(args)) == Arguments(args)
  {
    if args != [] {
      TypedWords(args[1..]);
      FirstTyped(args[0], LineOf(args[1..]), |args| > 1);
      if |args| == 1 { assert args[1..] == []; }
    }
  }

  lemma FirstTyped(arg: Typed, more: string, another: bool)
    requires arg.Valid()
    ensures Words(arg.Text(if another then Spaced(more) else "")) == [arg.word] + if another then Words(more) else []
  {
    BlanksBetween(' ', more);
    match arg {
      case Bare(word) =>
        if another {
          PlainThenWords(word, more);
        } else {
          PlainAlone(word);
          assert word + "" == word;
        }
      case InQuotes(word, quote) =>
        QuotedThenWords(word, quote, if another then Spaced(more) else "");
    }
  }

  lemma {:induction false} JoinSnoc(words: seq<string>, w: string)
    requires words != []
    ensures Join(words + [w]) == Join(words) + Spaced(w)
  {
    if |words| == 1 {
      assert (words + [w])[1..] == [w];
    } else {
      assert (words + [w])[1..] == words[1..] + [w];
      JoinSnoc(words[1..], w);
      assert words[0] + Spaced(Join(words[1..]) + Spaced(w)) == words[0] + Spaced(Join(words[1..])) + Spaced(w);
    }
  }

  lemma {:induction false} JoinGrows(words: seq<string>, k: nat)
    requires k <= |words|
    ensures |Join(words[..k])| <= |Join(words)|
    decreases |words| - k
  {
    if k == |words| {
      assert words[..k] == words;
    } else {
      assert words[..k + 1] == words[..k] + [words[k]];
      if k > 0 { JoinSnoc(words[..k], words[k]); }
      JoinGrows(words, k + 1);
    }
  }

  // ----- the two functions -----------------------------------------------

  lemma JoinOneMore(argv: seq<string>, start: nat, i: nat)
    requires start <= i < |argv|
    ensures Join(argv[start..i + 1]) == Join(argv[start..i]) + if i == start then argv[i] else Spaced(argv[i])
    ensures |Join(argv[start..i + 1])| <= |Join(argv[start..])|
  {
    assert argv[start..i + 1] == argv[start..i] + [argv[i]];
    if i > start { JoinSnoc(argv[start..i], argv[i]); }
    assert argv[start..i + 1] == argv[start..][..i + 1 - start];
    JoinGrows(argv[start..], i + 1 - start);
  }

  /** Refuses an empty first word as well as a line that does not fit. */
  method JoinTokens(buffer: array<char>, argv: seq<string>, start: nat) returns (rc: int)
    modifies buffer
    ensures rc == if buffer.Length == 0 || start >= |argv| then -EINVAL
                  else if argv[start] != "" && |Join(argv[start..])| < buffer.Length then 0
                  else -ENOSPC
    ensures rc == 0 ==>
      var line := Join(argv[start..]);
      buffer[..|line|] == line && buffer[|line|] == NUL
    ensures rc == -EINVAL ==> buffer[..] == old(buffer[..])
  {
    if buffer.Length == 0 || start >= |argv| {
      return -EINVAL;
    }
    var offset: nat := 0;
    buffer[0] := NUL;
    for i := start to |argv|
      invariant offset < buffer.Length && buffer[..offset] == Join(argv[start..i]) && buffer[offset] == NUL
      invariant i > start ==> argv[start] != ""
    {
      var text := if i == start then argv[i] else Spaced(argv[i]);
      JoinOneMore(argv, start, i);
      var fits := Print(buffer, offset, text);
      if text == "" || !fits {
        return -ENOSPC;
      }
      offset := offset + |text|;
    }
    assert argv[start..|argv|] == argv[start..];
    rc := 0;
  }

  /** The buffer holds `text` and its terminator. */
  ghost predicate Holds(line: seq<char>, text: string) {
    |text| < |line| && line[..|text|] == text && line[|text|] == NUL && NUL !in text
  }

  /** A C string starting at `at` is the word. */
  ghost predicate PointsAt(line: seq<char>, at: nat, word: string) {
    && at + |word| < |line| && line[at + |word|] == NUL
    && forall k :: 0 <= k < |word| ==> line[at + k] == word[k]
  }

  /** The pointers stand at the words, one behind the other, all before `end`. */
  ghost predicate Placed(line: seq<char>, argv: seq<nat>, words: seq<string>, end: nat) {
    && |argv| == |words|
    && (forall i :: 0 <= i < |words| ==> PointsAt(line, argv[i], words[i]) && argv[i] + |words[i]| < end)
    && (forall i, j :: 0 <= i < j < |words| ==> argv[i] + |words[i]| < argv[j])
  }

  /** Cutting one more word leaves the earlier ones alone. */
  lemma PlacedOneMore(line: seq<char>, line1: seq<char>, argv: seq<nat>, words: seq<string>, cursor: nat,
      at: nat, word: string, end: nat)
    requires Placed(line, argv, words, cursor) && cursor <= at && at + |word| < end
    requires |line1| == |line| && (forall k :: 0 <= k < |line| && k < cursor ==> line1[k] == line[k])
    requires PointsAt(line1, at, word)
    ensures Placed(line1, argv + [at], words + [word], end)
  {
    var argv1, words1 := argv + [at], words + [word];
    forall i | 0 <= i < |words1|
      ensures PointsAt(line1, argv1[i], words1[i]) && argv1[i] + |words1[i]| < end
    {
      if i < |words| { assert PointsAt(line, argv[i], words[i]); }
    }
  }

  method SkipBlanks(line: array<char>, cursor: nat, ghost text: string) returns (next: nat)
    requires cursor <= |text| < line.Length && line[|text|] == NUL && NUL !in text
    requires forall k :: cursor <= k < |text| ==> line[k] == text[k]
    ensures cursor <= next <= |text| && text[next..] == SkipSpaces(text[cursor..])
    ensures line[next] == NUL <==> next == |text|
    ensures next < |text| ==> !IsSpace(text[next])
  {
    next := cursor;
    while line[next] != NUL && IsSpace(line[next])
      invariant cursor <= next <= |text| && SkipSpaces(text[next..]) == SkipSpaces(text[cursor..])
      decreases |text| - next
    {
      assert text[next..][1..] == text[next + 1..];
      next := next + 1;
    }
  }

  /** Runs to the end of a word and overwrites what ended it with a terminator. */
  method CutWord(line: array<char>, at: nat, quote: char, ghost text: string) returns (next: nat)
    requires at <= |text| < line.Length && line[|text|] == NUL && NUL !in text
    requires forall k :: at <= k < |text| ==> line[k] == text[k]
    modifies line
    ensures var n := WordLength(text[at..], quote);
      && next == (if at + n < |text| then at + n + 1 else |text|)
      && line[at + n] == NUL
      && forall k :: 0 <= k < line.Length && k != at + n ==> line[k] == old(line[k])
  {
    ghost var n := WordLength(text[at..], quote);
    next := at;
    while line[next] != NUL
      invariant at <= next <= |text| && at + n == next + WordLength(text[next..], quote)
      invariant forall k :: 0 <= k < line.Length ==> line[k] == old(line[k])
      decreases |text| - next
    {
      assert text[next..][0] == line[next] && text[next..][1..] == text[next + 1..];
      if Ends(line[next], quote) {
        line[next] := NUL;
        return next + 1;
      }
      next := next + 1;
    }
  }

  function OpeningQuote(c: char): char { if IsQuote(c) then c else NUL }

  function Start(text: string, cursor: nat): (at: nat)
    requires cursor < |text|
    ensures cursor <= at <= |text|
  {
    if IsQuote(text[cursor]) then cursor + 1 else cursor
  }

  function Length(text: string, cursor: nat): (n: nat)
    requires cursor < |text|
    ensures Start(text, cursor) + n <= |text|
  {
    WordLength(text[Start(text, cursor)..], OpeningQuote(text[cursor]))
  }

  function Behind(text: string, end: nat): (next: nat)
    requires end <= |text|
    ensures end <= next <= |text|
  {
    if end < |text| then end + 1 else end
  }

  /** The word at the cursor ends at a separator or at the end of the text. */
  lemma WordIsSeparated(text: string, cursor: nat)
    requires cursor < |text|
    ensures var end := Start(text, cursor) + Length(text, cursor);
      end < |text| ==> IsSpace(text[end]) || IsQuote(text[end])
  {
    var at, n := Start(text, cursor), Length(text, cursor);
    if at + n < |text| {
      WordEnds(text[at..], OpeningQuote(text[cursor]));
      assert text[at..][n] == text[at + n];
    }
  }

  /** Where it stands in the line, and what is behind it. */
  lemma FirstStands(text: string, cursor: nat)
    requires cursor < |text|
    ensures var at, n := Start(text, cursor), Length(text, cursor);
      && First(text[cursor..]) == text[at..at + n]
      && Rest(text[cursor..]) == text[Behind(text, at + n)..]
  {
    var u, at, n := text[cursor..], Start(text, cursor), Length(text, cursor);
    assert u[0] == text[cursor];
    assert text[at..] == Body(u);
    assert text[at..][..n] == text[at..at + n];
    assert at + n < |text| ==> text[at..][n + 1..] == text[at + n + 1..];
  }

  ghost predicate SameElsewhere(was: seq<char>, line: seq<char>, end: nat) {
    |line| == |was| && forall k :: 0 <= k < |was| && k != end ==> line[k] == was[k]
  }

  /** The word at the cursor, terminated where it stands. */
  method TakeWord(line: array<char>, cursor: nat, ghost text: string) returns (at: nat, next: nat)
    requires cursor < |text| < line.Length && line[|text|] == NUL && NUL !in text
    requires forall k :: cursor <= k < |text| ==> line[k] == text[k]
    modifies line
    ensures at == Start(text, cursor)
    ensures var n := Length(text, cursor);
      && next == Behind(text, at + n) && PointsAt(line[..], at, text[at..at + n])
      && SameElsewhere(old(line[..]), line[..], at + n)
  {
    var quote := NUL;
    at := cursor;
    if IsQuote(line[at]) {
      quote := line[at];
      at := at + 1;
    }
    next := CutWord(line, at, quote, text);
  }

  /** The words from number `argc` on are those of the text from the cursor on. */
  ghost predicate Left(text: string, cursor: nat, all: seq<string>, argc: nat) {
    cursor <= |text| && argc <= |all| && all[argc..] == Words(text[cursor..])
  }

  /** Either no word is left, or the next one starts behind the blanks. */
  lemma LeftBehindBlanks(text: string, cursor: nat, start: nat, all: seq<string>, argc: nat)
    requires Left(text, cursor, all, argc)
    requires cursor <= start <= |text| && text[start..] == SkipSpaces(text[cursor..])
    ensures start == |text| ==> argc == |all| && Left(text, start, all, argc)
    ensures start < |text| ==>
      var at, n := Start(text, start), Length(text, start);
      && argc < |all| && all[..argc + 1] == all[..argc] + [text[at..at + n]]
      && Left(text, Behind(text, at + n), all, argc + 1)
  {
    if start < |text| {
      FirstStands(text, start);
      assert all[argc] == all[argc..][0];
      assert all[argc + 1..] == all[argc..][1..];
    }
  }

  /** Only separators and closing quotes are overwritten, and only by terminators. */
  ghost predicate Cut(text: string, was: seq<char>, line: seq<char>) {
    && |line| == |was|
    && forall k :: 0 <= k < |line| && line[k] != was[k] ==>
         k < |text| && (IsSpace(text[k]) || IsQuote(text[k])) && line[k] == NUL
  }

  lemma CutOneMore(text: string, was: seq<char>, line: seq<char>, line1: seq<char>, end: nat)
    requires Cut(text, was, line) && end < |line1|
    requires line1[end] == NUL && (end < |text| ==> IsSpace(text[end]) || IsQuote(text[end]))
    requires SameElsewhere(line, line1, end) && (end >= |text| ==> line[end] == NUL)
    ensures Cut(text, was, line1)
  {}

  /** What the loop has done when it stands at the cursor. */
  ghost predicate Progress(text: string, was: seq<char>, line: seq<char>, argv: seq<nat>, words: seq<string>,
      cursor: nat)
  {
    && cursor <= |text| < |line| && line[|text|] == NUL
    && Placed(line, argv, words, if cursor < |text| then cursor else |text| + 1)
    && (forall k :: cursor <= k < |text| ==> line[k] == text[k])
    && Cut(text, was, line)
  }

  lemma ProgressOneMore(text: string, was: seq<char>, line: seq<char>, line1: seq<char>, argv: seq<nat>,
      words: seq<string>, cursor: nat, at: nat, word: string)
    requires Progress(text, was, line, argv, words, cursor) && cursor <= at && cursor < |text|
    requires at + |word| <= |text|
    requires at + |word| < |text| ==> IsSpace(text[at + |word|]) || IsQuote(text[at + |word|])
    requires PointsAt(line1, at, word) && SameElsewhere(line, line1, at + |word|)
    ensures Progress(text, was, line1, argv + [at], words + [word], Behind(text, at + |word|))
  {
    CutOneMore(text, was, line, line1, at + |word|);
    var next := Behind(text, at + |word|);
    PlacedOneMore(line, line1, argv, words, cursor, at, word, if next < |text| then next else |text| + 1);
  }

  /** One more pointer, to the word behind the blanks, and its terminator. */
  method PlaceWord(line: array<char>, argv: array<nat>, argc: nat, start: nat, ghost text: string,
      ghost was: seq<char>, ghost words: seq<string>, ghost cursor: nat) returns (next: nat)
    requires argc < argv.Length && cursor <= start < |text| && !IsSpace(text[start]) && NUL !in text
    requires Progress(text, was, line[..], argv[..argc], words, cursor)
    modifies line, argv
    ensures var at, n := Start(text, start), Length(text, start);
      && next == Behind(text, at + n)
      && Progress(text, was, line[..], argv[..argc + 1], words + [text[at..at + n]], next)
  {
    ghost var before, pointers := line[..], argv[..argc];
    WordIsSeparated(text, start);
    var at;
    at, next := TakeWord(line, start, text);
    ghost var after, word := line[..], text[at..at + Length(text, start)];
    ProgressOneMore(text, was, before, after, pointers, words, cursor, at, word);
    argv[argc] := at;
    assert argv[..argc + 1] == pointers + [at] && line[..] == after;
  }

  /** Splits the line in place: a pointer to each word, a terminator behind it. */
  method Tokenize(line: array<char>, argv: array<nat>, ghost text: string) returns (rc: int)
    requires Holds(line[..], text)
    modifies line, argv
    ensures rc == if argv.Length == 0 then -EINVAL
                  else if |Words(text)| > argv.Length then -ENOSPC
                  else |Words(text)|
    ensures rc >= 0 ==> Placed(line[..], argv[..rc], Words(text), |text| + 1)
    ensures Cut(text, old(line[..]), line[..])
  {
    if argv.Length == 0 {
      return -EINVAL;
    }
    var argc: nat, cursor: nat := 0, 0;
    ghost var all := Words(text);
    assert text[0..] == text;
    while line[cursor] != NUL
      invariant cursor <= |text| && argc <= argv.Length && Left(text, cursor, all, argc)
      invariant Progress(text, old(line[..]), line[..], argv[..argc], all[..argc], cursor)
      decreases |text| - cursor
    {
      var start := SkipBlanks(line, cursor, text);
      LeftBehindBlanks(text, cursor, start, all, argc);
      if line[start] == NUL {
        cursor := start;
        break;
      }
      if argc >= argv.Length {
        return -ENOSPC;
      }
      var next := PlaceWord(line, argv, argc, start, text, old(line[..]), all[..argc], cursor);
      argc, cursor := argc + 1, next;
    }
    assert argc == |all| && all[..argc] == all;
    rc := argc;
  }
}

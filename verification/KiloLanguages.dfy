/** The syntax table: one language, chosen by the end of the file name. */
module KiloLanguages {
  import opened CString
  import opened KiloSyntax
  import opened KiloLexemes

  const C_EXTENSIONS: seq<string> := [".c", ".h", ".cpp", ".hpp", ".cc"]

  const C_WORDS: seq<string> := [
    "auto", "break", "case", "continue", "default", "do", "else", "enum", "extern", "for", "goto", "if"
  ]

  const C_WORDS_ON: seq<string> := [
    "register", "return", "sizeof", "static", "struct", "switch", "typedef", "union", "volatile", "while",
    "NULL"
  ]

  const CPP_WORDS: seq<string> := [
    "alignas", "alignof", "and", "and_eq", "asm", "bitand", "bitor", "class", "compl", "constexpr",
    "const_cast", "decltype", "delete", "dynamic_cast", "explicit", "export"
  ]

  const CPP_WORDS_ON: seq<string> := [
    "false", "friend", "inline", "mutable", "namespace", "new", "noexcept", "not", "not_eq", "nullptr",
    "operator", "or", "or_eq", "private", "protected"
  ]

  const CPP_WORDS_LAST: seq<string> := [
    "public", "reinterpret_cast", "static_assert", "static_cast", "template", "this", "thread_local", "throw",
    "true", "try", "typeid", "typename", "virtual", "xor", "xor_eq"
  ]

  const TYPE_WORDS: seq<string> := [
    "int|", "long|", "double|", "float|", "char|", "unsigned|", "signed|", "void|", "short|", "auto|",
    "const|", "bool|"
  ]

  const C_KEYWORDS := C_WORDS + C_WORDS_ON + CPP_WORDS + CPP_WORDS_ON + CPP_WORDS_LAST + TYPE_WORDS

  const C_SYNTAX := EditorSyntax(C_KEYWORDS, ('/', '/'), ('/', '*'), ('*', '/'), true, true)

  predicate Letter(c: char) { 'a' <= c <= 'z' || 'A' <= c <= 'Z' || c == '_' || c == '|' }

  lemma LettersMakeWords(syn: EditorSyntax, c: char)
    requires Letter(c)
    ensures IsWordChar(syn, c)
  {}

  predicate Words(words: seq<string>) {
    forall j :: 0 <= j < |words| ==> |words[j]| >= 2 && forall k :: 0 <= k < |words[j]| ==> Letter(words[j][k])
  }

  lemma WordsConcat(a: seq<string>, b: seq<string>)
    requires Words(a) && Words(b)
    ensures Words(a + b)
  {}

  lemma CWords() ensures Words(C_WORDS) {}

  lemma CWordsOn() ensures Words(C_WORDS_ON) {}

  lemma CppWords() ensures Words(CPP_WORDS) {}

  lemma CppWordsOn() ensures Words(CPP_WORDS_ON) {}

  lemma CppWordsLast() ensures Words(CPP_WORDS_LAST) {}

  lemma TypeWords() ensures Words(TYPE_WORDS) {}

  lemma CKeywords()
    ensures Words(C_KEYWORDS)
  {
    CWords();
    CWordsOn();
    CppWords();
    CppWordsOn();
    CppWordsLast();
    TypeWords();
    var words := C_WORDS;
    WordsConcat(words, C_WORDS_ON);
    words := words + C_WORDS_ON;
    WordsConcat(words, CPP_WORDS);
    words := words + CPP_WORDS;
    WordsConcat(words, CPP_WORDS_ON);
    words := words + CPP_WORDS_ON;
    WordsConcat(words, CPP_WORDS_LAST);
    words := words + CPP_WORDS_LAST;
    WordsConcat(words, TYPE_WORDS);
    words := words + TYPE_WORDS;
  }

  lemma CSyntaxIsRegular()
    ensures Regular(C_SYNTAX)
  {
    CKeywords();
    KeywordsAreValid(C_SYNTAX);
  }

  lemma KeywordsAreValid(syn: EditorSyntax)
    requires Words(syn.keywords)
    ensures syn.Valid()
    ensures forall j :: 0 <= j < |syn.keywords| ==>
      NUL !in syn.keywords[j] && AllWordChars(syn, syn.keywords[j])
  {
    forall c: char | Letter(c)
      ensures IsWordChar(syn, c)
    {
      LettersMakeWords(syn, c);
    }
  }

  /** A pattern that starts with a dot must end the name at its first occurrence. */
  predicate PatternMatches(filename: string, pattern: string)
    requires pattern != ""
  {
    match StrStr(filename, pattern)
    case None => false
    case Some(found) => pattern[0] != '.' || |found| == |pattern|
  }

  function SyntaxFor(filename: string): Option<EditorSyntax> {
    if exists k :: 0 <= k < |C_EXTENSIONS| && PatternMatches(filename, C_EXTENSIONS[k]) then Some(C_SYNTAX) else None
  }

  // ----- which names are meant ---------------------------------------------

  predicate OccursAt(t: string, p: string, i: nat) { i + |p| <= |t| && t[i..i + |p|] == p }

  lemma OccursBehind(t: string, p: string, i: nat)
    requires t != ""
    ensures OccursAt(t[1..], p, i) <==> OccursAt(t, p, i + 1)
  {
    if i + 1 + |p| <= |t| { assert t[1..][i..i + |p|] == t[i + 1..i + 1 + |p|]; }
  }

  /** The search gives the first occurrence. */
  lemma {:induction false} StrStrIsFirst(t: string, p: string)
    ensures match StrStr(t, p)
            case None => forall i: nat :: !OccursAt(t, p, i)
            case Some(u) =>
              |u| <= |t| && OccursAt(t, p, |t| - |u|) && forall i :: 0 <= i < |t| - |u| ==> !OccursAt(t, p, i)
  {
    if StartsWith(t, p) {
      assert t[0..|p|] == p;
    } else if t != "" {
      StrStrIsFirst(t[1..], p);
      forall i: nat
        ensures OccursAt(t, p, i) ==> i > 0 && OccursAt(t[1..], p, i - 1)
      {
        if i > 0 { OccursBehind(t, p, i - 1); }
      }
      if StrStr(t, p).Some? {
        OccursBehind(t, p, |t| - 1 - |StrStr(t, p).value|);
      }
    }
  }

  /** The name ends in the pattern, which it has nowhere before. */
  predicate OnlyAtEnd(filename: string, pattern: string) {
    && |pattern| <= |filename| && OccursAt(filename, pattern, |filename| - |pattern|)
    && forall i :: 0 <= i < |filename| - |pattern| ==> !OccursAt(filename, pattern, i)
  }

  lemma DotPattern(filename: string, pattern: string)
    requires pattern != "" && pattern[0] == '.'
    ensures PatternMatches(filename, pattern) <==> OnlyAtEnd(filename, pattern)
  {
    StrStrIsFirst(filename, pattern);
  }

  /** A file is shown as C exactly when its name ends in one of the five endings and has
      that ending nowhere before. */
  lemma SyntaxByEnding(filename: string)
    ensures SyntaxFor(filename) == Some(C_SYNTAX) <==>
            exists k :: 0 <= k < |C_EXTENSIONS| && OnlyAtEnd(filename, C_EXTENSIONS[k])
    ensures SyntaxFor(filename) == None || SyntaxFor(filename) == Some(C_SYNTAX)
  {
    forall k | 0 <= k < |C_EXTENSIONS|
      ensures PatternMatches(filename, C_EXTENSIONS[k]) <==> OnlyAtEnd(filename, C_EXTENSIONS[k])
    {
      DotPattern(filename, C_EXTENSIONS[k]);
    }
  }
}

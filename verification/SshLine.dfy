/** The command line of an SSH session: keys, the edited text, and the history. */
module SshLine {
  import opened CString

  const DRAFT_SIZE: nat := 512

  datatype Key =
    | Enter | Char(c: char) | Backspace | Tab | Delete | Home | End | Up | Down | Right | Left | Ignored

  datatype Line = Line(text: string, cursor: nat, index: nat, saved: bool, draft: string) {
    /** The text leaves room for its terminator; whoever is inside the history has saved
        what was typed before. */
    predicate Valid(history: seq<string>, size: nat) {
      && cursor <= |text| < size && index <= |history| && |draft| < DRAFT_SIZE
      && (index < |history| ==> saved) && (saved ==> |draft| + 1 < size)
    }
  }

  /** An empty line, below the history. */
  function Start(history: seq<string>): Line { Line("", 0, |history|, false, "") }

  lemma StartIsValid(history: seq<string>, size: nat)
    requires size >= 2
    ensures Start(history).Valid(history, size) && Open(Start(history), size)
  {}

  // ----- keys --------------------------------------------------------------

  function Final(c: char): Key {
    if c == 'A' then Up else if c == 'B' then Down else if c == 'C' then Right else if c == 'D' then Left
    else if c == 'H' then Home else if c == 'F' then End else Ignored
  }

  function Numbered(digit: char, end: char): Key {
    if end != '~' then Ignored
    else if digit == '3' then Delete
    else if digit == '1' || digit == '7' then Home
    else if digit == '4' || digit == '8' then End
    else Ignored
  }

  /** The next key of the input and what is left. A sequence the input cuts off is lost. */
  function NextKey(input: string): (r: (Key, string))
    requires input != ""
    ensures |r.1| < |input|
  {
    var c, rest := input[0], input[1..];
    if c == '\r' || c == '\n' then (Enter, rest)
    else if c == '\U{1b}' then
      if rest == "" then (Ignored, "")
      else if rest[0] != '[' then (Ignored, rest[1..])
      else if |rest| == 1 then (Ignored, "")
      else if IsDigit(rest[1]) then
        if |rest| == 2 then (Ignored, "") else (Numbered(rest[1], rest[2]), rest[3..])
      else (Final(rest[1]), rest[2..])
    else if c == '\U{7f}' || c == '\U{08}' then (Backspace, rest)
    else if c == '\t' then (Tab, rest)
    else if IsPrint(c) then (Char(c), rest)
    else (Ignored, rest)
  }

  /** One encoding of every key. */
  function Bytes(key: Key): string
    requires key.Char? ==> IsPrint(key.c)
  {
    match key
    case Enter => "\r"
    case Char(c) => [c]
    case Backspace => "\U{7f}"
    case Tab => "\t"
    case Delete => "\U{1b}[3~"
    case Home => "\U{1b}[H"
    case End => "\U{1b}[F"
    case Up => "\U{1b}[A"
    case Down => "\U{1b}[B"
    case Right => "\U{1b}[C"
    case Left => "\U{1b}[D"
    case Ignored => "\U{00}"
  }

  lemma NextKeyOfBytes(key: Key, rest: string)
    requires key.Char? ==> IsPrint(key.c)
    ensures Bytes(key) + rest != "" && NextKey(Bytes(key) + rest) == (key, rest)
  {
    var input := Bytes(key) + rest;
    assert input[|Bytes(key)|..] == rest;
    if |Bytes(key)| > 1 {
      assert input[1..][|Bytes(key)| - 1..] == rest;
    }
  }

  // ----- what a key does -----------------------------------------------------

  function Show(l: Line, index: nat, text: string, size: nat): Line
    requires size > 0
  {
    l.(index := index, text := Truncate(text, size), cursor := |Truncate(text, size)|)
  }

  function Saved(l: Line): Line {
    if l.saved then l else l.(saved := true, draft := Truncate(l.text, DRAFT_SIZE))
  }

  function Press(l: Line, key: Key, history: seq<string>, size: nat, complete: string -> string): Line
    requires l.Valid(history, size)
  {
    var before, after := l.text[..l.cursor], l.text[l.cursor..];
    match key
    case Char(c) => l.(text := before + [c] + after, cursor := l.cursor + 1)
    case Backspace => if l.cursor > 0 then l.(text := before[..l.cursor - 1] + after, cursor := l.cursor - 1) else l
    case Delete => if after != "" then l.(text := before + after[1..]) else l
    case Home => l.(cursor := 0)
    case End => l.(cursor := |l.text|)
    case Left => if l.cursor > 0 then l.(cursor := l.cursor - 1) else l
    case Right => if after != "" then l.(cursor := l.cursor + 1) else l
    case Up => if l.index > 0 then Show(Saved(l), l.index - 1, history[l.index - 1], size) else Saved(l)
    case Down =>
      if l.index == |history| then l
      else if l.index + 1 == |history| then Show(l, l.index + 1, l.draft, size)
      else Show(l, l.index + 1, history[l.index + 1], size)
    case Tab =>
      var word := complete(l.text);
      if word != "" && |l.text| + |word| < size - 1 then
        l.(text := before + word + after, cursor := l.cursor + |word|)
      else l
    case _ => l
  }

  /** The line still has room for one more character; otherwise it is taken as it is. */
  predicate Open(l: Line, size: nat) { |l.text| + 1 < size }

  lemma PressKeepsValid(l: Line, key: Key, history: seq<string>, size: nat, complete: string -> string)
    requires l.Valid(history, size) && Open(l, size)
    ensures Press(l, key, history, size, complete).Valid(history, size)
  {}

  /** The whole input: the line that Enter, or the last free byte, ends; None when the
      input ends first. */
  function Read(l: Line, input: string, history: seq<string>, size: nat, complete: string -> string): Option<string>
    requires l.Valid(history, size)
    decreases |input|
  {
    if !Open(l, size) then Some(l.text)
    else if input == "" then None
    else
      var (key, rest) := NextKey(input);
      if key == Enter then Some(l.text)
      else
        PressKeepsValid(l, key, history, size, complete);
        Read(Press(l, key, history, size, complete), rest, history, size, complete)
  }

  // ----- runs of keys ----------------------------------------------------------

  /** The line after the keys; None when it was taken before the last of them. */
  function Run(l: Line, keys: seq<Key>, history: seq<string>, size: nat, complete: string -> string): (r: Option<Line>)
    requires l.Valid(history, size)
    ensures r.Some? ==> r.value.Valid(history, size)
    decreases |keys|
  {
    if keys == [] then Some(l)
    else if !Open(l, size) then None
    else
      PressKeepsValid(l, keys[0], history, size, complete);
      Run(Press(l, keys[0], history, size, complete), keys[1..], history, size, complete)
  }

  predicate Sendable(keys: seq<Key>) {
    forall k :: 0 <= k < |keys| ==> keys[k] != Enter && (keys[k].Char? ==> IsPrint(keys[k].c))
  }

  function BytesOf(keys: seq<Key>): string
    requires Sendable(keys)
  {
    if keys == [] then "" else Bytes(keys[0]) + BytesOf(keys[1..])
  }

  lemma BytesInFront(keys: seq<Key>, rest: string)
    requires Sendable(keys) && keys != []
    ensures BytesOf(keys) + rest == Bytes(keys[0]) + (BytesOf(keys[1..]) + rest)
  {}

  /** Reading the bytes of keys is pressing them. */
  lemma {:induction false} ReadIsRun(l: Line, keys: seq<Key>, rest: string, history: seq<string>, size: nat,
      complete: string -> string)
    requires l.Valid(history, size) && Sendable(keys) && Run(l, keys, history, size, complete).Some?
    ensures Read(l, BytesOf(keys) + rest, history, size, complete)
         == Read(Run(l, keys, history, size, complete).value, rest, history, size, complete)
    decreases |keys|
  {
    if keys == [] {
      assert BytesOf(keys) + rest == rest;
    } else {
      NextKeyOfBytes(keys[0], BytesOf(keys[1..]) + rest);
      BytesInFront(keys, rest);
      PressKeepsValid(l, keys[0], history, size, complete);
      ReadIsRun(Press(l, keys[0], history, size, complete), keys[1..], rest, history, size, complete);
    }
  }

  lemma {:induction false} RunConcat(l: Line, a: seq<Key>, b: seq<Key>, history: seq<string>, size: nat,
      complete: string -> string)
    requires l.Valid(history, size) && Run(l, a, history, size, complete).Some?
    ensures Run(l, a + b, history, size, complete)
         == Run(Run(l, a, history, size, complete).value, b, history, size, complete)
    decreases |a|
  {
    if a == [] {
      assert a + b == b;
    } else {
      assert (a + b)[1..] == a[1..] + b;
      PressKeepsValid(l, a[0], history, size, complete);
      RunConcat(Press(l, a[0], history, size, complete), a[1..], b, history, size, complete);
    }
  }

  // ----- the history -----------------------------------------------------------

  function Times(key: Key, n: nat): (keys: seq<Key>)
    ensures |keys| == n
  {
    if n == 0 then [] else [key] + Times(key, n - 1)
  }

  /** The history rows from number `first` up to `end` leave room for one more character. */
  predicate RowsFit(history: seq<string>, first: int, end: int, size: nat) {
    forall j :: 0 <= j < |history| && first <= j < end ==> |history[j]| + 1 < size
  }

  lemma TruncatedFits(text: string, size: nat)
    requires size > 0
    ensures |Truncate(text, size)| + 1 < size <==> |text| + 1 < size
  {}

  function AfterUps(l: Line, n: nat, history: seq<string>, size: nat): Line
    requires l.Valid(history, size)
  {
    if n == 0 then l
    else if l.index == 0 then Saved(l)
    else
      var index := if n < l.index then l.index - n else 0;
      Show(Saved(l), index, history[index], size)
  }

  /** Any number of Ups, exactly when the line and every row but the last they come to
      leave room; one that does not is taken before the next key. */
  lemma {:induction false} Ups(l: Line, n: nat, history: seq<string>, size: nat, complete: string -> string)
    requires l.Valid(history, size)
    ensures Run(l, Times(Up, n), history, size, complete) ==
      if n == 0 || (Open(l, size) && RowsFit(history, l.index - n + 1, l.index, size))
      then Some(AfterUps(l, n, history, size)) else None
    decreases n
  {
    if n > 0 && Open(l, size) {
      var m := Press(l, Up, history, size, complete);
      PressKeepsValid(l, Up, history, size, complete);
      Ups(m, n - 1, history, size, complete);
      assert Times(Up, n)[1..] == Times(Up, n - 1);
      UpFits(l, n, m, history, size, complete);
    }
  }

  lemma UpFits(l: Line, n: nat, m: Line, history: seq<string>, size: nat, complete: string -> string)
    requires l.Valid(history, size) && Open(l, size) && n > 0 && m == Press(l, Up, history, size, complete)
    ensures m.Valid(history, size) && AfterUps(m, n - 1, history, size) == AfterUps(l, n, history, size)
    ensures (n - 1 == 0 || (Open(m, size) && RowsFit(history, m.index - (n - 1) + 1, m.index, size))) <==>
      RowsFit(history, l.index - n + 1, l.index, size)
  {
    PressKeepsValid(l, Up, history, size, complete);
    if l.index > 0 { TruncatedFits(history[l.index - 1], size); }
  }

  function AfterDowns(l: Line, n: nat, history: seq<string>, size: nat): Line
    requires l.Valid(history, size)
  {
    if n == 0 || l.index == |history| then l
    else if l.index + n >= |history| then Show(l, |history|, l.draft, size)
    else Show(l, l.index + n, history[l.index + n], size)
  }

  /** Any number of Downs, likewise. */
  lemma {:induction false} Downs(l: Line, n: nat, history: seq<string>, size: nat, complete: string -> string)
    requires l.Valid(history, size)
    ensures Run(l, Times(Down, n), history, size, complete) ==
      if n == 0 || (Open(l, size) && RowsFit(history, l.index + 1, l.index + n, size))
      then Some(AfterDowns(l, n, history, size)) else None
    decreases n
  {
    if n > 0 && Open(l, size) {
      var m := Press(l, Down, history, size, complete);
      PressKeepsValid(l, Down, history, size, complete);
      Downs(m, n - 1, history, size, complete);
      assert Times(Down, n)[1..] == Times(Down, n - 1);
      DownFits(l, n, m, history, size, complete);
    }
  }

  lemma DownFits(l: Line, n: nat, m: Line, history: seq<string>, size: nat, complete: string -> string)
    requires l.Valid(history, size) && Open(l, size) && n > 0 && m == Press(l, Down, history, size, complete)
    ensures m.Valid(history, size) && AfterDowns(m, n - 1, history, size) == AfterDowns(l, n, history, size)
    ensures (n - 1 == 0 || (Open(m, size) && RowsFit(history, m.index + 1, m.index + (n - 1), size))) <==>
      RowsFit(history, l.index + 1, l.index + n, size)
  {
    PressKeepsValid(l, Down, history, size, complete);
    if l.index + 1 < |history| { TruncatedFits(history[l.index + 1], size); }
    TruncatedFits(l.draft, size);
  }

  lemma {:induction false} RunStops(l: Line, a: seq<Key>, b: seq<Key>, history: seq<string>, size: nat,
      complete: string -> string)
    requires l.Valid(history, size) && Run(l, a, history, size, complete) == None
    ensures Run(l, a + b, history, size, complete) == None
    decreases |a|
  {
    if Open(l, size) {
      assert (a + b)[1..] == a[1..] + b;
      PressKeepsValid(l, a[0], history, size, complete);
      RunStops(Press(l, a[0], history, size, complete), a[1..], b, history, size, complete);
    }
  }

  /** No row that `n` Ups come to fills the line. */
  predicate ExcursionFits(history: seq<string>, n: nat, size: nat) {
    RowsFit(history, |history| - n, |history|, size)
  }

  /** From below the history, any number of Ups and as many Downs come back to the draft:
      that of the first excursion, which later ones do not renew. They do exactly when no
      row on the way fills the line, which would then be taken as it is. */
  lemma UpsThenDowns(l: Line, n: nat, history: seq<string>, size: nat, complete: string -> string)
    requires l.Valid(history, size) && Open(l, size) && l.index == |history|
    ensures Run(l, Times(Up, n) + Times(Down, n), history, size, complete) ==
      if !ExcursionFits(history, n, size) then None
      else Some(if n == 0 then l else if history == [] then Saved(l)
                else Show(Saved(l), |history|, Saved(l).draft, size))
  {
    Ups(l, n, history, size, complete);
    if n == 0 || RowsFit(history, l.index - n + 1, l.index, size) {
      RunConcat(l, Times(Up, n), Times(Down, n), history, size, complete);
      Downs(AfterUps(l, n, history, size), n, history, size, complete);
      TopFits(l, n, history, size);
    } else {
      RunStops(l, Times(Up, n), Times(Down, n), history, size, complete);
    }
  }

  lemma TopFits(l: Line, n: nat, history: seq<string>, size: nat)
    requires l.Valid(history, size) && Open(l, size) && l.index == |history|
    requires n == 0 || RowsFit(history, l.index - n + 1, l.index, size)
    ensures var m := AfterUps(l, n, history, size);
      (n == 0 || (Open(m, size) && RowsFit(history, m.index + 1, m.index + n, size))) <==>
      ExcursionFits(history, n, size)
  {
    var top := if n < |history| then |history| - n else 0;
    if n > 0 && history != [] { TruncatedFits(history[top], size); }
  }

  /** The text is given back exactly when no draft had been saved before, or the same one. */
  lemma DraftComesBack(l: Line, n: nat, history: seq<string>, size: nat, complete: string -> string)
    requires l.Valid(history, size) && Open(l, size) && l.index == |history| && size <= DRAFT_SIZE
    ensures var r := Run(l, Times(Up, n) + Times(Down, n), history, size, complete);
      && (r.Some? <==> ExcursionFits(history, n, size))
      && (r.Some? ==>
            && r.value.index == |history|
            && (r.value.text == l.text <==> n == 0 || history == [] || !l.saved || l.draft == l.text))
  {
    UpsThenDowns(l, n, history, size, complete);
  }

  /** A row that fills the line is taken by the Up that recalls it. */
  lemma UpTakesFullRow(l: Line, rest: string, history: seq<string>, size: nat, complete: string -> string)
    requires l.Valid(history, size) && Open(l, size) && l.index > 0
    requires |history[l.index - 1]| + 1 >= size
    ensures Read(l, Bytes(Up) + rest, history, size, complete) == Some(Truncate(history[l.index - 1], size))
  {
    NextKeyOfBytes(Up, rest);
    PressKeepsValid(l, Up, history, size, complete);
    TruncatedFits(history[l.index - 1], size);
  }

  // ----- the text in front of the cursor and behind it ---------------------------

  datatype Gap = Gap(before: string, after: string)

  function GapOf(l: Line): Gap
    requires l.cursor <= |l.text|
  {
    Gap(l.text[..l.cursor], l.text[l.cursor..])
  }

  function DropLast(s: string): string { if s == "" then s else s[..|s| - 1] }

  function LastPart(s: string): string { if s == "" then s else s[|s| - 1..] }

  predicate Edits(key: Key) { !key.Up? && !key.Down? && !key.Tab? }

  function PressGap(g: Gap, key: Key): Gap {
    match key
    case Char(c) => Gap(g.before + [c], g.after)
    case Backspace => Gap(DropLast(g.before), g.after)
    case Delete => Gap(g.before, if g.after == "" then "" else g.after[1..])
    case Home => Gap("", g.before + g.after)
    case End => Gap(g.before + g.after, "")
    case Left => Gap(DropLast(g.before), LastPart(g.before) + g.after)
    case Right => if g.after == "" then g else Gap(g.before + [g.after[0]], g.after[1..])
    case _ => g
  }

  lemma EraseOnGap(l: Line, key: Key, history: seq<string>, size: nat, complete: string -> string)
    requires l.Valid(history, size) && (key == Backspace || key == Delete)
    ensures var r := Press(l, key, history, size, complete);
      r.cursor <= |r.text| && GapOf(r) == PressGap(GapOf(l), key)
  {}

  lemma MoveOnGap(l: Line, key: Key, history: seq<string>, size: nat, complete: string -> string)
    requires l.Valid(history, size) && (key == Home || key == End || key == Left || key == Right)
    ensures var r := Press(l, key, history, size, complete);
      r.cursor <= |r.text| && GapOf(r) == PressGap(GapOf(l), key)
  {
    var t, c := l.text, l.cursor;
    match key {
      case Home => assert t[0..] == t[..c] + t[c..];
      case End => assert t[..|t|] == t[..c] + t[c..] && t[|t|..] == "";
      case Left => if c > 0 { StepBack(t, c); }
      case Right => if c < |t| { StepOn(t, c); }
    }
  }

  lemma StepBack(t: string, c: nat)
    requires 0 < c <= |t|
    ensures t[..c - 1] == DropLast(t[..c]) && t[c - 1..] == LastPart(t[..c]) + t[c..]
  {}

  lemma StepOn(t: string, c: nat)
    requires c < |t|
    ensures t[..c + 1] == t[..c] + [t[c]] && t[c + 1..] == t[c..][1..] && t[c..][0] == t[c]
  {}

  lemma PressOnGap(l: Line, key: Key, history: seq<string>, size: nat, complete: string -> string)
    requires l.Valid(history, size) && Edits(key)
    ensures var r := Press(l, key, history, size, complete);
      r.cursor <= |r.text| && GapOf(r) == PressGap(GapOf(l), key)
      && r.index == l.index && r.saved == l.saved && r.draft == l.draft
  {
    match key {
      case Backspace | Delete => EraseOnGap(l, key, history, size, complete);
      case Home | End | Left | Right => MoveOnGap(l, key, history, size, complete);
      case _ =>
    }
  }

  function RunGap(g: Gap, keys: seq<Key>): Gap
    decreases |keys|
  {
    if keys == [] then g else RunGap(PressGap(g, keys[0]), keys[1..])
  }

  lemma {:induction false} RunOnGap(l: Line, keys: seq<Key>, history: seq<string>, size: nat,
      complete: string -> string)
    requires l.Valid(history, size) && (forall k :: 0 <= k < |keys| ==> Edits(keys[k]))
    requires Run(l, keys, history, size, complete).Some?
    ensures var r := Run(l, keys, history, size, complete).value;
      GapOf(r) == RunGap(GapOf(l), keys) && r.index == l.index && r.saved == l.saved && r.draft == l.draft
    decreases |keys|
  {
    if keys != [] {
      PressOnGap(l, keys[0], history, size, complete);
      PressKeepsValid(l, keys[0], history, size, complete);
      RunOnGap(Press(l, keys[0], history, size, complete), keys[1..], history, size, complete);
    }
  }

  function Typed(w: string): (keys: seq<Key>)
    ensures |keys| == |w| && forall k :: 0 <= k < |w| ==> keys[k] == Char(w[k])
  {
    seq(|w|, k requires 0 <= k < |w| => Char(w[k]))
  }

  /** Typing puts the word in front of the cursor as long as there is room. */
  lemma WordGoesOn(before: string, w: string)
    requires w != ""
    ensures before + [w[0]] + w[1..] == before + w
  {
    assert w == [w[0]] + w[1..];
  }

  lemma {:induction false} Typing(l: Line, w: string, history: seq<string>, size: nat, complete: string -> string)
    requires l.Valid(history, size) && |l.text| + |w| < size
    ensures var r := Run(l, Typed(w), history, size, complete);
      r.Some? && GapOf(r.value) == Gap(GapOf(l).before + w, GapOf(l).after)
      && r.value.index == l.index && r.value.saved == l.saved && r.value.draft == l.draft
    decreases |w|
  {
    if w != "" {
      PressOnGap(l, Char(w[0]), history, size, complete);
      PressKeepsValid(l, Char(w[0]), history, size, complete);
      Typing(Press(l, Char(w[0]), history, size, complete), w[1..], history, size, complete);
      assert Typed(w)[1..] == Typed(w[1..]);
      WordGoesOn(GapOf(l).before, w);
    } else {
      assert GapOf(l).before + w == GapOf(l).before;
    }
  }

  lemma {:induction false} Erasing(l: Line, n: nat, history: seq<string>, size: nat, complete: string -> string)
    requires l.Valid(history, size) && Open(l, size) && n <= l.cursor
    ensures var r := Run(l, Times(Backspace, n), history, size, complete);
      r.Some? && GapOf(r.value) == Gap(l.text[..l.cursor - n], GapOf(l).after)
      && r.value.index == l.index && r.value.saved == l.saved && r.value.draft == l.draft
    decreases n
  {
    if n > 0 {
      PressOnGap(l, Backspace, history, size, complete);
      PressKeepsValid(l, Backspace, history, size, complete);
      var m := Press(l, Backspace, history, size, complete);
      Erasing(m, n - 1, history, size, complete);
      assert Times(Backspace, n)[1..] == Times(Backspace, n - 1);
      assert m.text[..m.cursor - (n - 1)] == l.text[..l.cursor - n];
    }
  }

  lemma GapJoins(l: Line)
    requires l.cursor <= |l.text|
    ensures l.text == GapOf(l).before + GapOf(l).after && |GapOf(l).before| == l.cursor
  {
    assert l.text == l.text[..l.cursor] + l.text[l.cursor..];
  }

  /** The two strings and what is not text determine the line. */
  lemma GapIsLine(l: Line, m: Line)
    requires l.cursor <= |l.text| && m.cursor <= |m.text| && GapOf(l) == GapOf(m)
    requires l.index == m.index && l.saved == m.saved && l.draft == m.draft
    ensures l == m
  {
    GapJoins(l);
    GapJoins(m);
  }

  lemma WordErased(m: Line, before: string, w: string)
    requires m.cursor <= |m.text| && GapOf(m).before == before + w
    ensures |w| <= m.cursor && m.text[..m.cursor - |w|] == before
  {
    assert m.text[..m.cursor] == before + w;
    assert m.text[..m.cursor - |w|] == m.text[..m.cursor][..|before|];
  }

  /** As many Backspaces take a typed word away again, unless it filled the line. */
  lemma TypeThenErase(l: Line, w: string, history: seq<string>, size: nat, complete: string -> string)
    requires l.Valid(history, size) && |l.text| + |w| + 1 < size
    ensures Run(l, Typed(w) + Times(Backspace, |w|), history, size, complete) == Some(l)
  {
    Typing(l, w, history, size, complete);
    var m := Run(l, Typed(w), history, size, complete).value;
    RoomBehind(l, m, w);
    WordErased(m, GapOf(l).before, w);
    Erasing(m, |w|, history, size, complete);
    RunConcat(l, Typed(w), Times(Backspace, |w|), history, size, complete);
    GapIsLine(l, Run(m, Times(Backspace, |w|), history, size, complete).value);
  }

  lemma RoomBehind(l: Line, m: Line, w: string)
    requires l.cursor <= |l.text| && m.cursor <= |m.text|
    requires GapOf(m) == Gap(GapOf(l).before + w, GapOf(l).after)
    ensures |m.text| == |l.text| + |w|
  {
    GapJoins(m);
  }

  // ----- from an empty line --------------------------------------------------------

  function Excursion(w: string, n: nat): seq<Key> { Typed(w) + (Times(Up, n) + Times(Down, n)) }

  /** The first excursion into the history gives the typed text back, cursor at its end,
      exactly when no row on the way fills the line. */
  lemma FirstExcursion(w: string, n: nat, history: seq<string>, size: nat, complete: string -> string)
    requires |w| + 1 < size <= DRAFT_SIZE
    ensures Start(history).Valid(history, size)
    ensures var r := Run(Start(history), Excursion(w, n), history, size, complete);
      && (r.Some? <==> ExcursionFits(history, n, size))
      && (r.Some? ==>
            && r.value.text == w && r.value.cursor == |w| && r.value.index == |history|
            && (n > 0 && history != [] ==> r.value.saved && r.value.draft == w))
  {
    var l := Start(history);
    Typing(l, w, history, size, complete);
    var m := Run(l, Typed(w), history, size, complete).value;
    GapJoins(m);
    RunConcat(l, Typed(w), Times(Up, n) + Times(Down, n), history, size, complete);
    UpsThenDowns(m, n, history, size, complete);
  }

  /** What is typed after it is lost by the second one, which gives the same text back. */
  lemma SecondExcursion(w: string, n: nat, v: string, m: nat, history: seq<string>, size: nat,
      complete: string -> string)
    requires |w| + |v| + 1 < size <= DRAFT_SIZE && history != [] && n > 0 && m > 0
    ensures Start(history).Valid(history, size)
    ensures var r := Run(Start(history), Excursion(w, n) + Excursion(v, m), history, size, complete);
      && (r.Some? <==> ExcursionFits(history, n, size) && ExcursionFits(history, m, size))
      && (r.Some? ==> r.value.text == w)
  {
    FirstExcursion(w, n, history, size, complete);
    if ExcursionFits(history, n, size) {
      var l := Run(Start(history), Excursion(w, n), history, size, complete).value;
      RunConcat(Start(history), Excursion(w, n), Excursion(v, m), history, size, complete);
      ExcursionFrom(l, v, m, history, size, complete);
    } else {
      RunStops(Start(history), Excursion(w, n), Excursion(v, m), history, size, complete);
    }
  }

  lemma ExcursionFrom(l: Line, v: string, m: nat, history: seq<string>, size: nat, complete: string -> string)
    requires l.Valid(history, size) && l.index == |history| && l.saved && |l.text| + |v| + 1 < size <= DRAFT_SIZE
    requires history != [] && m > 0
    ensures var r := Run(l, Excursion(v, m), history, size, complete);
      (r.Some? <==> ExcursionFits(history, m, size)) && (r.Some? ==> r.value.text == l.draft)
  {
    Typing(l, v, history, size, complete);
    var k := Run(l, Typed(v), history, size, complete).value;
    GapJoins(k);
    RunConcat(l, Typed(v), Times(Up, m) + Times(Down, m), history, size, complete);
    UpsThenDowns(k, m, history, size, complete);
  }

  lemma {:induction false} TimesIs(key: Key, n: nat)
    ensures forall k :: 0 <= k < n ==> Times(key, n)[k] == key
  {
    if n > 0 { TimesIs(key, n - 1); }
  }

  /** When the line is taken before the last key, what is taken fills the buffer. */
  lemma {:induction false} TakenIsFull(l: Line, keys: seq<Key>, rest: string, history: seq<string>, size: nat,
      complete: string -> string)
    requires l.Valid(history, size) && Sendable(keys) && Run(l, keys, history, size, complete) == None
    ensures var r := Read(l, BytesOf(keys) + rest, history, size, complete); r.Some? && |r.value| + 1 == size
    decreases |keys|
  {
    if Open(l, size) {
      NextKeyOfBytes(keys[0], BytesOf(keys[1..]) + rest);
      BytesInFront(keys, rest);
      PressKeepsValid(l, keys[0], history, size, complete);
      TakenIsFull(Press(l, keys[0], history, size, complete), keys[1..], rest, history, size, complete);
    }
  }

  /** Read from the bytes of a session: what Enter then returns is what was typed, exactly
      when no row on the way fills the line. */
  lemma FirstExcursionIsRead(w: string, n: nat, history: seq<string>, size: nat, complete: string -> string)
    requires |w| + 1 < size <= DRAFT_SIZE && forall k :: 0 <= k < |w| ==> IsPrint(w[k])
    ensures Sendable(Excursion(w, n)) && Start(history).Valid(history, size)
    ensures Read(Start(history), BytesOf(Excursion(w, n)) + "\r", history, size, complete) == Some(w) <==>
      ExcursionFits(history, n, size)
  {
    TimesIs(Up, n);
    TimesIs(Down, n);
    FirstExcursion(w, n, history, size, complete);
    if ExcursionFits(history, n, size) {
      ReadIsRun(Start(history), Excursion(w, n), "\r", history, size, complete);
    } else {
      TakenIsFull(Start(history), Excursion(w, n), "\r", history, size, complete);
    }
  }

  lemma {:induction false} BytesOfTyped(w: string)
    requires forall k :: 0 <= k < |w| ==> IsPrint(w[k])
    ensures Sendable(Typed(w)) && BytesOf(Typed(w)) == w
  {
    if w != "" {
      BytesOfTyped(w[1..]);
      assert Typed(w)[1..] == Typed(w[1..]);
      assert w == [w[0]] + w[1..];
    }
  }

  /** Such rows come about: a line that fills the buffer is taken without Enter, whole. */
  lemma FullLineIsTaken(w: string, rest: string, history: seq<string>, size: nat, complete: string -> string)
    requires |w| + 1 == size && size >= 2 && forall k :: 0 <= k < |w| ==> IsPrint(w[k])
    ensures Read(Start(history), w + rest, history, size, complete) == Some(w)
  {
    BytesOfTyped(w);
    Typing(Start(history), w, history, size, complete);
    var m := Run(Start(history), Typed(w), history, size, complete).value;
    GapJoins(m);
    assert m.text == w;
    ReadIsRun(Start(history), Typed(w), rest, history, size, complete);
  }
}

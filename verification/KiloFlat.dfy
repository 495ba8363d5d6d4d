/** The editor refines a flat one: a text, a position, and keys that are splices.

The flat editor knows nothing of rows, of the screen or of scrolling. */
module KiloFlat {
  import opened CString
  import opened KiloView
  import opened KiloText
  import opened KiloCursor

  datatype Flat = Flat(text: string, pos: nat)

  function Abstract(v: View): Flat
    requires v.Valid()
  {
    Flat(Text(v), Pos(v))
  }

  predicate IsFlatKey(key: Key) {
    key == Left || key == Right || key == Enter || key == Backspace || key == Delete || key.Byte?
      || key == Ignored
  }

  /** At the end of the text a typed character brings its own newline, and the newline
      that ends the text cannot be erased from behind it. */
  function FlatPress(f: Flat, key: Key): (g: Flat)
    requires f.pos <= |f.text|
    ensures g.pos <= |g.text|
  {
    match key
    case Left => if f.pos == 0 then f else f.(pos := f.pos - 1)
    case Right => if f.pos == |f.text| then f else f.(pos := f.pos + 1)
    case Enter => Flat(InsertAt(f.text, f.pos, ['\n']), f.pos + 1)
    case Byte(c) =>
      if !IsPrint(c) && c != TAB then f
      else if f.pos == |f.text| then Flat(f.text + [c, '\n'], f.pos + 1)
      else Flat(InsertAt(f.text, f.pos, [c]), f.pos + 1)
    case Backspace =>
      if f.pos == 0 || f.pos == |f.text| then f
      else Flat(RemoveAt(f.text, f.pos - 1), f.pos - 1)
    case Delete =>
      if f.pos == |f.text| then f
      else if f.pos + 1 == |f.text| then f.(pos := f.pos + 1)
      else Flat(RemoveAt(f.text, f.pos), f.pos)
    case _ => f
  }

  function FlatRun(f: Flat, keys: seq<Key>): (g: Flat)
    requires f.pos <= |f.text|
    ensures g.pos <= |g.text|
    decreases |keys|
  {
    if keys == [] then f else FlatRun(FlatPress(f, keys[0]), keys[1..])
  }

  lemma AfterTextIsTextEnd(v: View)
    requires v.Valid()
    ensures Pos(v) <= |Text(v)|
    ensures Pos(v) == |Text(v)| <==> v.FileRow() == |v.rows|
  {
    var _, _ := PosSplits(v);
  }

  lemma ByteRefinesFlat(v: View, c: char)
    requires v.Valid()
    ensures Pos(v) <= |Text(v)|
    ensures var w := Press(v, Byte(c)); w.Valid() && Abstract(w) == FlatPress(Abstract(v), Byte(c))
  {
    AfterTextIsTextEnd(v);
    if v.FileRow() < |v.rows| { InsertCharIsSplice(v, c); } else { InsertCharAfterText(v, c); }
  }

  lemma BackspaceRefinesFlat(v: View)
    requires v.Valid()
    ensures Pos(v) <= |Text(v)|
    ensures var w := Press(v, Backspace); w.Valid() && Abstract(w) == FlatPress(Abstract(v), Backspace)
  {
    AfterTextIsTextEnd(v);
    if v.FileRow() < |v.rows| && Pos(v) > 0 { DeleteCharIsSplice(v); } else { DeleteCharNothing(v); }
  }

  lemma PressRefinesFlat(v: View, key: Key)
    requires v.Valid() && IsFlatKey(key)
    requires key == Left ==> !LeftRunsOffScreen(v)
    ensures Pos(v) <= |Text(v)|
    ensures var w := Scroll(Press(v, key)); w.Valid() && Abstract(w) == FlatPress(Abstract(v), key)
  {
    AfterTextIsTextEnd(v);
    match key {
      case Left => LeftGoesBack(v);
      case Right => RightGoesForward(v);
      case Enter => InsertNewlineIsSplice(v);
      case Backspace => BackspaceRefinesFlat(v);
      case Delete => DeleteKey(v);
      case Byte(c) => ByteRefinesFlat(v, c);
      case Ignored =>
    }
  }

  /** No Left of the run is pressed where it would run off the top of the screen. */
  predicate StaysOnScreen(v: View, keys: seq<Key>)
    requires v.Valid() && forall key :: key in keys ==> IsFlatKey(key)
    decreases |keys|
  {
    keys == [] ||
    (&& (keys[0] == Left ==> !LeftRunsOffScreen(v))
     && (PressRefinesFlat(v, keys[0]);
         StaysOnScreen(Scroll(Press(v, keys[0])), keys[1..])))
  }

  function EditorRun(v: View, keys: seq<Key>): (w: View)
    requires v.Valid() && (forall key :: key in keys ==> IsFlatKey(key)) && StaysOnScreen(v, keys)
    ensures w.Valid()
    decreases |keys|
  {
    if keys == [] then v
    else
      PressRefinesFlat(v, keys[0]);
      EditorRun(Scroll(Press(v, keys[0])), keys[1..])
  }

  /** It is what the editor does on the run. */
  lemma {:induction false} EditorRunIsRun(v: View, keys: seq<Key>)
    requires v.Valid() && (forall key :: key in keys ==> IsFlatKey(key)) && StaysOnScreen(v, keys)
    ensures InArrayRun(v, keys) && Run(v, keys) == EditorRun(v, keys)
    decreases |keys|
  {
    if keys != [] {
      PressRefinesFlat(v, keys[0]);
      EditorRunIsRun(Scroll(Press(v, keys[0])), keys[1..]);
    }
  }

  /** Every run of editing and left/right keys does to the rows and the scrolled cursor
      what the flat editor does to its text and position. */
  lemma {:induction false} RunRefinesFlat(v: View, keys: seq<Key>)
    requires v.Valid() && (forall key :: key in keys ==> IsFlatKey(key)) && StaysOnScreen(v, keys)
    ensures Pos(v) <= |Text(v)|
    ensures Abstract(EditorRun(v, keys)) == FlatRun(Abstract(v), keys)
    decreases |keys|
  {
    PosInText(v);
    if keys != [] {
      PressRefinesFlat(v, keys[0]);
      RunRefinesFlat(Scroll(Press(v, keys[0])), keys[1..]);
    }
  }

  // ----- typing a text and erasing it again ------------------------------

  predicate Typable(s: string) {
    forall i :: 0 <= i < |s| ==> IsPrint(s[i]) || s[i] == TAB || s[i] == '\n'
  }

  function KeyFor(c: char): Key { if c == '\n' then Enter else Byte(c) }

  function KeysFor(s: string): (keys: seq<Key>)
    ensures |keys| == |s| && forall key :: key in keys ==> key == Enter || key.Byte?
  {
    seq(|s|, i requires 0 <= i < |s| => KeyFor(s[i]))
  }

  function Backspaces(n: nat): (keys: seq<Key>)
    ensures |keys| == n && forall key :: key in keys ==> key == Backspace
  {
    seq(n, _ => Backspace)
  }

  lemma InsertOneMore(t: string, p: nat, s: string)
    requires p <= |t| && s != ""
    ensures InsertAt(InsertAt(t, p, [s[0]]), p + 1, s[1..]) == InsertAt(t, p, s)
  {
    var u := InsertAt(t, p, [s[0]]);
    assert u[..p + 1] == t[..p] + [s[0]] && u[p + 1..] == t[p..];
    assert [s[0]] + s[1..] == s;
  }

  lemma {:induction false} TypingInserts(f: Flat, s: string)
    requires f.pos < |f.text| && Typable(s)
    ensures FlatRun(f, KeysFor(s)) == Flat(InsertAt(f.text, f.pos, s), f.pos + |s|)
    decreases |s|
  {
    if s == "" {
      assert InsertAt(f.text, f.pos, s) == f.text;
    } else {
      var g := FlatPress(f, KeyFor(s[0]));
      assert KeysFor(s)[1..] == KeysFor(s[1..]);
      TypingInserts(g, s[1..]);
      InsertOneMore(f.text, f.pos, s);
    }
  }

  lemma {:induction false} ErasingRemoves(f: Flat, n: nat)
    requires n <= f.pos < |f.text|
    ensures FlatRun(f, Backspaces(n)) == Flat(f.text[..f.pos - n] + f.text[f.pos..], f.pos - n)
    decreases n
  {
    if n > 0 {
      var g := FlatPress(f, Backspace);
      assert Backspaces(n)[1..] == Backspaces(n - 1);
      ErasingRemoves(g, n - 1);
      assert g.text[..g.pos - (n - 1)] + g.text[g.pos..] == f.text[..f.pos - n] + f.text[f.pos..];
    } else {
      assert f.text[..f.pos] + f.text[f.pos..] == f.text;
    }
  }

  lemma {:induction false} NoLeftStaysOnScreen(v: View, keys: seq<Key>)
    requires v.Valid() && forall key :: key in keys ==> IsFlatKey(key) && key != Left
    ensures StaysOnScreen(v, keys)
    decreases |keys|
  {
    if keys != [] {
      PressRefinesFlat(v, keys[0]);
      NoLeftStaysOnScreen(Scroll(Press(v, keys[0])), keys[1..]);
    }
  }

  lemma CutOutInserted(t: string, p: nat, s: string)
    requires p <= |t|
    ensures var u := InsertAt(t, p, s); u[..p] + u[p + |s|..] == t
  {
    var u := InsertAt(t, p, s);
    assert u[..p] == t[..p];
    assert u[p + |s|..] == t[p..];
  }

  lemma EraseInserted(f: Flat, s: string)
    requires f.pos < |f.text|
    ensures FlatRun(Flat(InsertAt(f.text, f.pos, s), f.pos + |s|), Backspaces(|s|)) == f
  {
    CutOutInserted(f.text, f.pos, s);
    ErasingRemoves(Flat(InsertAt(f.text, f.pos, s), f.pos + |s|), |s|);
  }

  lemma EraseTyped(v: View, f: Flat, s: string)
    requires v.Valid() && f.pos < |f.text|
    requires Abstract(v) == Flat(InsertAt(f.text, f.pos, s), f.pos + |s|)
    ensures StaysOnScreen(v, Backspaces(|s|)) && Abstract(EditorRun(v, Backspaces(|s|))) == f
  {
    NoLeftStaysOnScreen(v, Backspaces(|s|));
    RunRefinesFlat(v, Backspaces(|s|));
    EraseInserted(f, s);
  }

  /** Typing any text anywhere before the end of the document inserts that text at the
      cursor; as many Backspaces bring back the text and the cursor. */
  lemma TypeThenErase(v: View, s: string)
    requires v.Valid() && v.FileRow() < |v.rows| && Typable(s)
    ensures StaysOnScreen(v, KeysFor(s))
    ensures var w := EditorRun(v, KeysFor(s));
            && Pos(v) <= |Text(v)| && Text(w) == InsertAt(Text(v), Pos(v), s)
            && StaysOnScreen(w, Backspaces(|s|))
            && Abstract(EditorRun(w, Backspaces(|s|))) == Abstract(v)
  {
    AfterTextIsTextEnd(v);
    NoLeftStaysOnScreen(v, KeysFor(s));
    RunRefinesFlat(v, KeysFor(s));
    TypingInserts(Abstract(v), s);
    EraseTyped(EditorRun(v, KeysFor(s)), Abstract(v), s);
  }
}

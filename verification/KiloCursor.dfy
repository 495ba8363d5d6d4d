/** Where the movement keys take the cursor, and which runs of keys keep it valid. */
module KiloCursor {
  import opened CString
  import opened KiloView
  import opened KiloText

  lemma ScrollKeepsCursorOnScreen(v: View)
    requires 0 < v.screenrows && 0 < v.screencols
    ensures Scroll(v) == v <==> 0 <= v.cy < v.screenrows && 0 <= v.cx < v.screencols
  {}

  /** Two valid cursors in the same text at the same position are in the same row and
      column: the position is the cursor, only the scrolling may differ. */
  lemma PosDeterminesCursor(v: View, w: View)
    requires v.Valid() && w.Valid() && v.rows == w.rows && Pos(v) == Pos(w)
    ensures v.FileRow() == w.FileRow() && v.FileCol() == w.FileCol()
  {
    if v.FileRow() < w.FileRow() {
      EarlierRowIsEarlier(v, w);
    } else if w.FileRow() < v.FileRow() {
      EarlierRowIsEarlier(w, v);
    }
  }

  lemma EarlierRowIsEarlier(v: View, w: View)
    requires v.Valid() && w.Valid() && v.rows == w.rows && v.FileRow() < w.FileRow()
    ensures Pos(v) < Pos(w)
  {
    var r := v.FileRow();
    var above := w.rows[..w.FileRow()];
    FlattenAround(above, r);
    assert above[..r] == v.rows[..r];
  }

  lemma RowStart(rows: seq<string>, r: nat)
    requires r < |rows|
    ensures |Flatten(rows[..r + 1])| == |Flatten(rows[..r])| + |rows[r]| + 1
  {
    assert rows[..r + 1] == rows[..r] + [rows[r]];
    FlattenConcat(rows[..r], [rows[r]]);
    FlattenOne(rows[r]);
  }

  // ----- left and right --------------------------------------------------

  /** At the first column of the top screen row of a scrolled document, Left moves the
      cursor off the screen instead of scrolling. */
  predicate LeftRunsOffScreen(v: View) {
    v.cx == 0 && v.coloff == 0 && v.cy == 0 && v.rowoff > 0
  }

  /** Left goes back by one character, stopping at the start of the text, exactly when
      it does not run off the top of the screen. */
  lemma LeftGoesBack(v: View)
    requires v.Valid()
    ensures var w := Scroll(Press(v, Left));
            (w.Valid() && Pos(w) == (if Pos(v) == 0 then 0 else Pos(v) - 1)) <==> !LeftRunsOffScreen(v)
  {
    RowStartPositive(v);
    if LeftRunsOffScreen(v) {
      LeftOffScreenLands(v);
    } else if v.FileCol() == 0 && v.FileRow() > 0 {
      LeftToRowAbove(v);
    }
  }

  lemma LeftToRowAbove(v: View)
    requires v.Valid() && v.FileCol() == 0 && v.FileRow() > 0 && !LeftRunsOffScreen(v)
    ensures var w := Scroll(Press(v, Left)); w.Valid() && Pos(w) == Pos(v) - 1
  {
    RowStart(v.rows, v.FileRow() - 1);
  }

  /** Running off the screen leaves the cursor in the same row at the column of the end
      of the row above, which is valid exactly when the row is long enough. */
  lemma LeftOffScreenLands(v: View)
    requires v.Valid() && LeftRunsOffScreen(v)
    ensures var w := Scroll(Press(v, Left));
            && w.FileRow() == v.FileRow()
            && w.FileCol() == |v.rows[v.FileRow() - 1]|
            && (w.Valid() <==> |v.rows[v.FileRow() - 1]| <= v.RowLen())
  {}

  lemma RightGoesForward(v: View)
    requires v.Valid()
    ensures var w := Press(v, Right);
            w.Valid() && Pos(w) == (if Pos(v) == |Text(v)| then Pos(v) else Pos(v) + 1)
  {
    var before, after := PosSplits(v);
    if v.FileRow() < |v.rows| {
      assert after != "";
      if v.FileCol() == |v.rows[v.FileRow()]| { RightToNextRow(v); }
    }
  }

  lemma RightToNextRow(v: View)
    requires v.Valid() && v.FileRow() < |v.rows| && v.FileCol() == |v.rows[v.FileRow()]|
    ensures var w := Press(v, Right); w.Valid() && Pos(w) == Pos(v) + 1
  {
    RowStart(v.rows, v.FileRow());
  }

  /** Left undoes Right wherever Right moves and Left stays on the screen. */
  lemma RightThenLeft(v: View)
    requires v.Valid() && Pos(v) < |Text(v)|
    requires !LeftRunsOffScreen(Press(v, Right))
    ensures var w := Scroll(Press(Press(v, Right), Left));
            w.Valid() && w.FileRow() == v.FileRow() && w.FileCol() == v.FileCol()
  {
    RightGoesForward(v);
    var u := Press(v, Right);
    LeftGoesBack(u);
    PosDeterminesCursor(v, Scroll(Press(u, Left)));
  }

  // ----- other movement --------------------------------------------------

  function LengthOf(rows: seq<string>, r: nat): nat {
    if r < |rows| then |rows[r]| else 0
  }

  function Min(a: int, b: int): int { if a < b then a else b }

  lemma VerticalKeys(v: View, key: Key)
    requires v.Valid() && (key == Up || key == Down)
    ensures var w := Press(v, key);
            && w.Valid()
            && w.FileRow() == (if key == Up then (if v.FileRow() == 0 then 0 else v.FileRow() - 1)
                               else Min(v.FileRow() + 1, |v.rows|))
            && w.FileCol() == Min(v.FileCol(), LengthOf(v.rows, w.FileRow()))
  {}

  lemma RowEndKeys(v: View, key: Key)
    requires v.Valid() && (key == Home || key == End)
    ensures var w := Press(v, key);
            w.Valid() && w.FileRow() == v.FileRow() && w.FileCol() == (if key == Home then 0 else v.RowLen())
  {}

  // ----- scrolling -------------------------------------------------------

  /** The offset nearest to `offset` that shows row or column `at`. */
  function Nearest(offset: int, at: int, size: int): int {
    if at < offset then at else if at >= offset + size then at - size + 1 else offset
  }

  predicate ScrolledLeast(v: View, w: View) {
    && w.rowoff == Nearest(v.rowoff, w.FileRow(), v.screenrows)
    && w.coloff == Nearest(v.coloff, w.FileCol(), v.screencols)
  }

  predicate ScrollsLeast(v: View, key: Key) {
    key == Right || key == Up || key == Down || key == Home || key == Enter || key == Backspace || key.Byte?
    || (key == Left && !LeftRunsOffScreen(v))
  }

  /** These keys scroll no further than the new place of the cursor makes them. */
  lemma KeyScrollsLeast(v: View, key: Key)
    requires v.Valid() && ScrollsLeast(v, key)
    ensures ScrolledLeast(v, Scroll(Press(v, key)))
  {
    match key {
      case Up => VerticalScrollsLeast(v, key);
      case Down => VerticalScrollsLeast(v, key);
      case Left => LeftScrollsLeast(v);
      case Right => RightScrollsLeast(v);
      case Enter => EnterScrollsLeast(v);
      case Backspace => BackspaceScrollsLeast(v);
      case Byte(c) => ByteScrollsLeast(v, c);
      case Home =>
    }
  }

  lemma VerticalScrollsLeast(v: View, key: Key)
    requires v.Valid() && (key == Up || key == Down)
    ensures ScrolledLeast(v, Scroll(Press(v, key)))
  {}

  lemma LeftScrollsLeast(v: View)
    requires v.Valid() && !LeftRunsOffScreen(v)
    ensures ScrolledLeast(v, Scroll(Press(v, Left)))
  {}

  lemma RightScrollsLeast(v: View)
    requires v.Valid()
    ensures ScrolledLeast(v, Scroll(Press(v, Right)))
  {}

  lemma EnterScrollsLeast(v: View)
    requires v.Valid()
    ensures ScrolledLeast(v, Scroll(Press(v, Enter)))
  {}

  lemma BackspaceScrollsLeast(v: View)
    requires v.Valid()
    ensures ScrolledLeast(v, Scroll(Press(v, Backspace)))
  {}

  lemma ByteScrollsLeast(v: View, c: char)
    requires v.Valid()
    ensures ScrolledLeast(v, Scroll(Press(v, Byte(c))))
  {}

  /** End shows as much of the row in front of its end as fits. */
  lemma EndScrolls(v: View)
    requires v.Valid() && v.FileRow() < |v.rows|
    ensures var w := Press(v, End);
      w.rowoff == v.rowoff && w.coloff == if v.RowLen() < v.screencols then 0 else v.RowLen() - v.screencols + 1
  {}

  lemma {:induction false} RepeatUp(v: View, times: nat)
    requires v.Sane() && v.cy == 0 && v.cx < v.screencols && v.rowoff <= |v.rows|
    requires times == 0 ==> v.Valid()
    ensures Repeat(v, Up, times).Valid() && Repeat(v, Up, times).cy == 0
    ensures Repeat(v, Up, times).rowoff == if v.rowoff < times then 0 else v.rowoff - times
    decreases times
  {
    if times > 0 {
      RepeatUp(MoveCursor(v, Up), times - 1);
    }
  }

  lemma PageUpScrollsOnePage(v: View)
    requires v.Valid()
    ensures var w := Press(v, PageUp);
            w.Valid() && w.cy == 0 && w.rowoff == (if v.rowoff < v.screenrows then 0 else v.rowoff - v.screenrows)
  {
    RepeatUp(v.(cy := 0), v.screenrows);
  }

  lemma {:induction false} RepeatDown(v: View, times: nat)
    requires v.Sane() && v.cy == v.screenrows - 1 && v.cx < v.screencols && 0 < times
    ensures var w := Repeat(v, Down, times);
            && (w.Valid() <==> v.FileRow() <= |v.rows|)
            && w.FileRow() == (if v.FileRow() > |v.rows| then v.FileRow() else Min(v.FileRow() + times, |v.rows|))
            && w.cy == v.screenrows - 1
    decreases times
  {
    var w := MoveCursor(v, Down);
    if times > 1 {
      RepeatDown(w, times - 1);
    } else {
      assert Repeat(w, Down, 0) == w;
    }
  }

  /** Page Down keeps the cursor valid exactly when the screen's last row is at or before
      the row after the text; it then stops there. */
  lemma PageDownValid(v: View)
    requires v.Valid()
    ensures var w := Press(v, PageDown); var bottom := v.rowoff + v.screenrows - 1;
            && (w.Valid() <==> bottom <= |v.rows|)
            && w.FileRow() == (if bottom > |v.rows| then bottom else Min(bottom + v.screenrows, |v.rows|))
            && w.cy == v.screenrows - 1
  {
    RepeatDown(v.(cy := v.screenrows - 1), v.screenrows);
  }

  /** Delete removes the character at the cursor and leaves the cursor there, except that
      the newline ending the text is only stepped over. */
  lemma DeleteKey(v: View)
    requires v.Valid()
    ensures var w := Press(v, Delete);
            && w.Valid()
            && Pos(v) <= |Text(v)|
            && Text(w) == (if Pos(v) + 1 < |Text(v)| then RemoveAt(Text(v), Pos(v)) else Text(v))
            && Pos(w) == (if Pos(v) + 1 == |Text(v)| then Pos(v) + 1 else Pos(v))
  {
    var u := Press(v, Right);
    RightGoesForward(v);
    var before, after := PosSplits(v);
    if Pos(v) < |Text(v)| {
      assert v.FileRow() < |v.rows|;
      LastRowEnd(v);
      if u.FileRow() < |u.rows| {
        DeleteCharIsSplice(u);
      }
      RightOfText(v);
    }
  }

  lemma RightOfText(v: View)
    requires v.Valid() && v.FileRow() < |v.rows|
    ensures var u := Press(v, Right);
      u.rows == v.rows && (u.FileRow() < |u.rows| <==> !(v.FileRow() == |v.rows| - 1 && v.FileCol() == v.RowLen()))
  {}

  /** The step before the end of the text is taken at the end of the last row. */
  lemma LastRowEnd(v: View)
    requires v.Valid() && v.FileRow() < |v.rows|
    ensures Pos(v) + 1 <= |Text(v)|
    ensures Pos(v) + 1 == |Text(v)| <==> v.FileRow() == |v.rows| - 1 && v.FileCol() == v.RowLen()
  {
    var r := v.FileRow();
    FlattenAround(v.rows, r);
    if r + 1 < |v.rows| {
      FlattenAround(v.rows[r + 1..], 0);
    } else {
      assert v.rows[r + 1..] == [];
    }
  }

  // ----- runs ------------------------------------------------------------

  /** The two moves that lose the cursor, by the guards a caller can look at. */
  predicate Keeps(v: View, key: Key)
    requires v.Valid()
  {
    match key
    case Left => !LeftRunsOffScreen(v) || |v.rows[v.FileRow() - 1]| <= v.RowLen()
    case PageDown => v.rowoff + v.screenrows - 1 <= |v.rows|
    case _ => true
  }

  /** One key press followed by the redraw leaves a valid cursor exactly when the key
      keeps it. */
  lemma KeyKeepsCursor(v: View, key: Key)
    requires v.Valid()
    ensures Scroll(Press(v, key)).Valid() <==> Keeps(v, key)
  {
    match key {
      case Left => LeftKeepsCursor(v);
      case Right => RightGoesForward(v);
      case Up => VerticalKeys(v, key);
      case Down => VerticalKeys(v, key);
      case Home => RowEndKeys(v, key);
      case End => RowEndKeys(v, key);
      case PageUp => PageUpScrollsOnePage(v);
      case PageDown => PageDownValid(v); PageDownOnScreen(v);
      case Enter => InsertNewlineIsSplice(v);
      case Backspace => BackspaceKeepsCursor(v);
      case Delete => DeleteKey(v);
      case Byte(c) => ByteKeepsCursor(v, c);
      case Ignored =>
    }
    if key != Left && Press(v, key).Valid() { ValidIsScrolled(Press(v, key)); }
  }

  lemma ValidIsScrolled(v: View)
    requires v.Valid()
    ensures Scroll(v) == v
  {}

  lemma LeftKeepsCursor(v: View)
    requires v.Valid()
    ensures Scroll(Press(v, Left)).Valid() <==> Keeps(v, Left)
  {
    if LeftRunsOffScreen(v) { LeftOffScreenLands(v); } else { LeftGoesBack(v); }
  }

  lemma BackspaceKeepsCursor(v: View)
    requires v.Valid()
    ensures Press(v, Backspace).Valid()
  {
    if v.FileRow() < |v.rows| && Pos(v) > 0 { DeleteCharIsSplice(v); } else { DeleteCharNothing(v); }
  }

  lemma ByteKeepsCursor(v: View, c: char)
    requires v.Valid()
    ensures Press(v, Byte(c)).Valid()
  {
    if v.FileRow() < |v.rows| { InsertCharIsSplice(v, c); } else { InsertCharAfterText(v, c); }
  }

  lemma {:induction false} RepeatDownOnScreen(v: View, times: nat)
    requires v.Sane() && v.cy < v.screenrows && v.cx < v.screencols
    ensures Repeat(v, Down, times).cy < v.screenrows && Repeat(v, Down, times).cx < v.screencols
    decreases times
  {
    if times > 0 {
      RepeatDownOnScreen(MoveCursor(v, Down), times - 1);
    }
  }

  lemma PageDownOnScreen(v: View)
    requires v.Valid()
    ensures Scroll(Press(v, PageDown)) == Press(v, PageDown)
  {
    RepeatDownOnScreen(v.(cy := v.screenrows - 1), v.screenrows);
  }

  /** Sane but for a cursor above the screen, where Left can put it. */
  predicate NearlySane(v: View) {
    0 < v.screenrows && 0 < v.screencols && 0 <= v.cx && 0 <= v.rowoff && 0 <= v.coloff
  }

  lemma ScrollMakesSane(v: View)
    requires NearlySane(v)
    ensures Scroll(v).Sane()
  {}

  lemma MoveStaysSane(v: View, key: Key)
    requires v.Sane() && (key == Left ==> LeftIsInArray(v))
    ensures NearlySane(MoveCursor(v, key)) && (key != Left ==> MoveCursor(v, key).Sane())
  {}

  lemma EditStaysSane(v: View, c: char)
    requires v.Sane()
    ensures NearlySane(InsertChar(v, c)) && NearlySane(InsertNewline(v))
  {}

  lemma EraseStaysSane(v: View)
    requires v.Sane()
    ensures NearlySane(DeleteChar(v))
  {}

  lemma PressStaysSane(v: View, key: Key)
    requires v.Sane() && (key == Left ==> LeftIsInArray(v))
    ensures Scroll(Press(v, key)).Sane()
  {
    match key {
      case Enter => EditStaysSane(v, NUL);
      case Byte(c) => EditStaysSane(v, c);
      case Backspace => EraseStaysSane(v);
      case Delete => MoveStaysSane(v, Right); EraseStaysSane(MoveCursor(v, Right));
      case Left => MoveStaysSane(v, key);
      case Right => MoveStaysSane(v, key);
      case Up => MoveStaysSane(v, key);
      case Down => MoveStaysSane(v, key);
      case _ =>
    }
    ScrollMakesSane(Press(v, key));
  }

  /** A run in which no Left reads outside the row array. */
  predicate InArrayRun(v: View, keys: seq<Key>)
    requires v.Sane()
    decreases |keys|
  {
    keys == [] || (
      && (keys[0] == Left ==> LeftIsInArray(v))
      && (PressStaysSane(v, keys[0]);
          InArrayRun(Scroll(Press(v, keys[0])), keys[1..])))
  }

  /** The editor's loop, from a screen just refreshed to the refresh after the last key. */
  function Run(v: View, keys: seq<Key>): View
    requires v.Sane() && InArrayRun(v, keys)
    decreases |keys|
  {
    if keys == [] then v
    else
      PressStaysSane(v, keys[0]);
      Run(Scroll(Press(v, keys[0])), keys[1..])
  }

  /** A run in which every key keeps the cursor. */
  predicate SafeRun(v: View, keys: seq<Key>)
    requires v.Valid()
    decreases |keys|
  {
    keys == [] || (
      KeyKeepsCursor(v, keys[0]);
      Keeps(v, keys[0]) && SafeRun(Scroll(Press(v, keys[0])), keys[1..]))
  }

  lemma {:induction false} SafeRunKeepsCursor(v: View, keys: seq<Key>)
    requires v.Valid() && SafeRun(v, keys)
    ensures InArrayRun(v, keys) && Run(v, keys).Valid()
    decreases |keys|
  {
    if keys != [] {
      KeyKeepsCursor(v, keys[0]);
      SafeRunKeepsCursor(Scroll(Press(v, keys[0])), keys[1..]);
    }
  }

  // ----- Left and the row array ----------------------------------------------

  /** The row whose length Left reads, as an index of the row array. */
  function RowReadByLeft(v: View): Option<int> {
    if v.cx == 0 && v.coloff == 0 && v.FileRow() > 0 then Some(v.FileRow() - 1) else None
  }

  /** Left reads inside the row array exactly when LeftIsInArray. */
  lemma LeftReadsInArray(v: View)
    requires v.Sane()
    ensures (RowReadByLeft(v).Some? ==> 0 <= RowReadByLeft(v).value < |v.rows|) <==> LeftIsInArray(v)
  {}

  /** The bottom row of the screen is further down than the row behind the text. */
  predicate BottomBehindText(v: View) { v.rowoff + v.screenrows - 1 > |v.rows| }

  lemma {:induction false} DownBehindText(v: View, times: nat)
    requires v.Sane() && v.FileRow() > |v.rows| && times > 0
    ensures var w := Repeat(v, Down, times); w.FileRow() == v.FileRow() && w.cx == w.coloff == 0
    decreases times
  {
    var w := MoveCursor(v, Down);
    assert w.FileRow() == v.FileRow() && w.cx == w.coloff == 0;
    if times > 1 {
      DownBehindText(w, times - 1);
    } else {
      assert Repeat(w, Down, 0) == w;
    }
  }

  lemma PageDownBehindText(v: View)
    requires v.Valid() && BottomBehindText(v)
    ensures !LeftIsInArray(Scroll(Press(v, PageDown)))
  {
    PageDownOnScreen(v);
    DownBehindText(v.(cy := v.screenrows - 1), v.screenrows);
  }

  /** From a valid cursor one key leads to where Left would read outside the row array
      exactly when it is Page Down and the screen reaches further down than the text. */
  lemma KeyKeepsLeftInArray(v: View, key: Key)
    requires v.Valid()
    ensures LeftIsInArray(Scroll(Press(v, key))) <==> !(key == PageDown && BottomBehindText(v))
  {
    KeyKeepsCursor(v, key);
    if key == PageDown {
      if BottomBehindText(v) { PageDownBehindText(v); }
    } else if key == Left && LeftRunsOffScreen(v) {
      LeftOffScreenLands(v);
    }
  }

  /** Two keys from the start: in the empty document, Page Down and then Left. */
  lemma EmptyDocumentLeftOutside(v: View)
    requires v.rows == [] && v.cx == v.cy == v.rowoff == v.coloff == 0 && 1 < v.screenrows && 0 < v.screencols
    ensures v.Valid() && !LeftIsInArray(Scroll(Press(v, PageDown))) && !InArrayRun(v, [PageDown, Left])
  {
    PageDownBehindText(v);
    assert [PageDown, Left][1..] == [Left];
  }

  // ----- runs inside the document --------------------------------------------

  /** On the screen and not behind the row after the text; the column may be. */
  predicate InDocument(v: View) {
    v.Sane() && v.cy < v.screenrows && v.cx < v.screencols && v.FileRow() <= |v.rows|
  }

  lemma {:induction false} RepeatInDocument(v: View, key: Key, times: nat)
    requires InDocument(v) && (key == Up || key == Down)
    ensures InDocument(Repeat(v, key, times))
    decreases times
  {
    if times > 0 {
      RepeatInDocument(MoveCursor(v, key), key, times - 1);
    }
  }

  lemma LeftInDocument(v: View)
    requires InDocument(v)
    ensures InDocument(Scroll(Press(v, Left)))
  {}

  lemma RightInDocument(v: View)
    requires InDocument(v)
    ensures InDocument(Press(v, Right)) && Scroll(Press(v, Right)) == Press(v, Right)
  {}

  lemma VerticalInDocument(v: View, key: Key)
    requires InDocument(v) && (key == Up || key == Down)
    ensures InDocument(Scroll(Press(v, key)))
  {}

  lemma EditInDocument(v: View, key: Key)
    requires InDocument(v) && (key == Enter || key == Backspace || key.Byte?)
    ensures InDocument(Scroll(Press(v, key)))
  {}

  /** Only Page Down can leave the document. */
  lemma KeyStaysInDocument(v: View, key: Key)
    requires InDocument(v) && !(key == PageDown && BottomBehindText(v))
    ensures InDocument(Scroll(Press(v, key)))
  {
    match key {
      case PageUp => RepeatInDocument(v.(cy := 0), Up, v.screenrows);
      case PageDown => RepeatInDocument(v.(cy := v.screenrows - 1), Down, v.screenrows);
      case Delete => RightInDocument(v); EditInDocument(MoveCursor(v, Right), Backspace);
      case Enter => EditInDocument(v, key);
      case Backspace => EditInDocument(v, key);
      case Byte(c) => EditInDocument(v, key);
      case Left => LeftInDocument(v);
      case Right => RightInDocument(v);
      case Up => VerticalInDocument(v, key);
      case Down => VerticalInDocument(v, key);
      case _ =>
    }
  }

  /** No Page Down of the run is pressed while the screen reaches further down than the text. */
  predicate PagesInText(v: View, keys: seq<Key>)
    requires InDocument(v)
    decreases |keys|
  {
    keys == [] || (
      && !(keys[0] == PageDown && BottomBehindText(v))
      && (KeyStaysInDocument(v, keys[0]);
          PagesInText(Scroll(Press(v, keys[0])), keys[1..])))
  }

  /** Then no Left of it reads outside the row array. */
  lemma {:induction false} PagedRunIsInArray(v: View, keys: seq<Key>)
    requires InDocument(v) && PagesInText(v, keys)
    ensures InArrayRun(v, keys) && InDocument(Run(v, keys))
    decreases |keys|
  {
    if keys != [] {
      KeyStaysInDocument(v, keys[0]);
      PagedRunIsInArray(Scroll(Press(v, keys[0])), keys[1..]);
    }
  }

  // ----- keys that lose the cursor -------------------------------------------

  function Times(key: Key, n: nat): (keys: seq<Key>)
    ensures |keys| == n
  {
    if n == 0 then [] else [key] + Times(key, n - 1)
  }

  /** Pressing Up or Down several times is a run. */
  lemma {:induction false} RepeatIsRun(v: View, key: Key, n: nat)
    requires v.Valid() && (key == Up || key == Down)
    ensures var keys := Times(key, n);
      && SafeRun(v, keys) && InArrayRun(v, keys)
      && Run(v, keys) == Repeat(v, key, n) && Repeat(v, key, n).Valid()
    decreases n
  {
    if n > 0 {
      var w := MoveCursor(v, key);
      VerticalStep(v, key, w);
      RepeatIsRun(w, key, n - 1);
      FirstOfRun(v, key, w, Times(key, n - 1));
    }
  }

  lemma FirstOfRun(v: View, key: Key, w: View, rest: seq<Key>)
    requires v.Valid() && w.Valid() && w == Scroll(Press(v, key)) && Keeps(v, key) && SafeRun(w, rest)
    ensures InArrayRun(w, rest) && SafeRun(v, [key] + rest) && InArrayRun(v, [key] + rest)
    ensures Run(v, [key] + rest) == Run(w, rest)
  {
    assert ([key] + rest)[1..] == rest;
    SafeRunKeepsCursor(v, [key] + rest);
    SafeRunKeepsCursor(w, rest);
  }

  lemma VerticalStep(v: View, key: Key, w: View)
    requires v.Valid() && (key == Up || key == Down) && w == MoveCursor(v, key)
    ensures w.Valid() && Scroll(Press(v, key)) == w && Keeps(v, key)
  {
    VerticalKeys(v, key);
    ValidIsScrolled(w);
  }

  /** The view with its cursor in the first column of screen row `cy`. */
  function AtRow(v: View, rowoff: nat, cy: nat): View {
    v.(cx := 0, coloff := 0, rowoff := rowoff, cy := cy)
  }

  lemma DownOne(v: View, cy: nat)
    requires 0 < v.screencols && cy < v.screenrows <= |v.rows|
    ensures MoveCursor(AtRow(v, 0, cy), Down) == if cy + 1 < v.screenrows then AtRow(v, 0, cy + 1) else AtRow(v, 1, cy)
  {}

  lemma {:induction false} Descend(v: View, cy: nat, n: nat)
    requires 0 < v.screencols && cy + n == v.screenrows <= |v.rows| && n > 0
    ensures Repeat(AtRow(v, 0, cy), Down, n) == AtRow(v, 1, v.screenrows - 1)
    decreases n
  {
    DownOne(v, cy);
    if n > 1 {
      Descend(v, cy + 1, n - 1);
    } else {
      assert Repeat(AtRow(v, 1, cy), Down, 0) == AtRow(v, 1, cy);
    }
  }

  lemma {:induction false} Ascend(v: View, n: nat)
    requires 0 < v.screencols && n < v.screenrows <= |v.rows|
    ensures Repeat(AtRow(v, 1, n), Up, n) == AtRow(v, 1, 0)
    decreases n
  {
    if n > 0 {
      assert MoveCursor(AtRow(v, 1, n), Up) == AtRow(v, 1, n - 1);
      Ascend(v, n - 1);
    }
  }

  /** At the start of a text that fills the screen. */
  predicate AtStart(v: View) {
    v.cx == v.cy == v.rowoff == v.coloff == 0 && 0 < v.screencols && 0 < v.screenrows <= |v.rows|
  }

  /** Down to the bottom of the screen and one row further. */
  lemma DownByScreen(v: View)
    requires AtStart(v)
    ensures var keys := Times(Down, v.screenrows);
      v.Valid() && SafeRun(v, keys) && InArrayRun(v, keys) && Run(v, keys) == AtRow(v, 1, v.screenrows - 1)
  {
    assert AtRow(v, 0, 0) == v;
    Descend(v, 0, v.screenrows);
    RepeatIsRun(v, Down, v.screenrows);
  }

  /** And up again to its top. */
  lemma UpByScreen(v: View)
    requires AtStart(v)
    ensures var bottom, keys := AtRow(v, 1, v.screenrows - 1), Times(Up, v.screenrows - 1);
      bottom.Valid() && SafeRun(bottom, keys) && InArrayRun(bottom, keys) && Run(bottom, keys) == AtRow(v, 1, 0)
  {
    Ascend(v, v.screenrows - 1);
    RepeatIsRun(AtRow(v, 1, v.screenrows - 1), Up, v.screenrows - 1);
  }

  /** There, on a screen of any height, Left puts the cursor behind the end of its row when
      the first row is longer than the second. */
  lemma LeftLosesCursor(v: View)
    requires AtStart(v) && |v.rows[0]| > LengthOf(v.rows, 1)
    ensures var top := AtRow(v, 1, 0); top.Valid() && !Scroll(Press(top, Left)).Valid()
  {
    LeftOffScreenLands(AtRow(v, 1, 0));
  }

  /** Page Down in the empty document that the editor starts with. */
  lemma PageDownLosesCursor(v: View)
    requires v.rows == [] && v.cx == v.cy == v.rowoff == v.coloff == 0 && 1 < v.screenrows && 0 < v.screencols
    ensures v.Valid() && !Press(v, PageDown).Valid()
  {
    PageDownValid(v);
  }
}

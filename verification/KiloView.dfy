/** The editor as a sequence of text rows and a scrolled cursor.

The cursor is kept the way the editor keeps it: (cx, cy) is a cell of the
screen, (coloff, rowoff) is the part of the document scrolled away to the left
and above. Every editing key is a function on this view; the lemmas relate each
of them to one flat text and one position in it. */
module KiloView {
  import opened CString

  datatype View = View(
    rows: seq<string>,
    cx: int, cy: int, rowoff: int, coloff: int,
    screenrows: int, screencols: int)
  {
    function FileRow(): int { rowoff + cy }

    function FileCol(): int { coloff + cx }

    /** Length of the row under the cursor; the row after the last one is empty. */
    function RowLen(): nat
      requires 0 <= FileRow()
    {
      if FileRow() < |rows| then |rows[FileRow()]| else 0
    }

    /** What every state between two key presses satisfies: the screen has room and
        nothing is negative. */
    predicate Sane() {
      && 0 < screenrows && 0 < screencols
      && 0 <= cx && 0 <= cy && 0 <= rowoff && 0 <= coloff
    }

    /** The cursor is inside the screen and on a character, a row end, or the empty
        row after the text. */
    predicate Valid() {
      && Sane()
      && cx < screencols && cy < screenrows
      && FileRow() <= |rows|
      && FileCol() <= RowLen()
    }
  }

  /** The document as Save writes it: every row followed by a newline. */
  function Flatten(rows: seq<string>): string {
    if rows == [] then "" else rows[0] + ['\n'] + Flatten(rows[1..])
  }

  function Text(v: View): string { Flatten(v.rows) }

  /** The cursor as one position in the flat text. */
  function Pos(v: View): nat
    requires v.Sane() && v.FileRow() <= |v.rows|
  {
    |Flatten(v.rows[..v.FileRow()])| + v.FileCol()
  }

  // ----- keys ------------------------------------------------------------

  datatype Key =
    | Left | Right | Up | Down | Home | End | PageUp | PageDown
    | Enter | Backspace | Delete
    | Byte(c: char)
    | Ignored

  const TAB := '\t'

  function Scroll(v: View): (w: View) {
    var cy1 := if v.cy < 0 then 0 else v.cy;
    var cy2 := if cy1 >= v.screenrows then v.screenrows - 1 else cy1;
    var filerow := v.rowoff + cy2;
    var rowoff1 := if filerow < v.rowoff then filerow else v.rowoff;
    var rowoff2 := if filerow >= rowoff1 + v.screenrows then filerow - v.screenrows + 1 else rowoff1;
    var filecol := v.coloff + v.cx;
    var coloff1 := if filecol < v.coloff then filecol else v.coloff;
    var coloff2 := if filecol >= coloff1 + v.screencols then filecol - v.screencols + 1 else coloff1;
    v.(cy := cy2, rowoff := rowoff2, coloff := coloff2)
  }

  /** MoveCursor's last step: pull the cursor back to the end of its row. */
  function ClampColumn(v: View): View
    requires 0 <= v.FileRow()
  {
    var over := v.FileCol() - v.RowLen();
    if over > 0 then
      if v.cx - over < 0 then v.(coloff := v.coloff + (v.cx - over), cx := 0)
      else v.(cx := v.cx - over)
    else v
  }

  /** Left at the first column reads the row above, which is outside the row array when
      the cursor is more than one row past the text. */
  predicate LeftIsInArray(v: View) {
    v.cx == 0 && v.coloff == 0 ==> v.FileRow() <= |v.rows|
  }

  function StepLeft(v: View): View
    requires v.Sane() && LeftIsInArray(v)
  {
    if v.cx > 0 then v.(cx := v.cx - 1)
    else if v.coloff > 0 then v.(coloff := v.coloff - 1)
    else if v.FileRow() > 0 then
      var size := |v.rows[v.FileRow() - 1]|;
      if size > v.screencols - 1 then
        v.(cy := v.cy - 1, coloff := size - v.screencols + 1, cx := v.screencols - 1)
      else
        v.(cy := v.cy - 1, cx := size)
    else v
  }

  function StepDownOneRow(v: View): View {
    if v.cy == v.screenrows - 1 then v.(rowoff := v.rowoff + 1) else v.(cy := v.cy + 1)
  }

  function StepRight(v: View): View
    requires v.Sane()
  {
    if v.FileRow() >= |v.rows| then v
    else if v.FileCol() < |v.rows[v.FileRow()]| then
      if v.cx == v.screencols - 1 then v.(coloff := v.coloff + 1) else v.(cx := v.cx + 1)
    else if v.FileCol() == |v.rows[v.FileRow()]| then
      StepDownOneRow(v.(cx := 0, coloff := 0))
    else v
  }

  function StepUp(v: View): View {
    if v.cy == 0 then
      if v.rowoff > 0 then v.(rowoff := v.rowoff - 1) else v
    else v.(cy := v.cy - 1)
  }

  function StepDown(v: View): View {
    if v.FileRow() < |v.rows| then StepDownOneRow(v) else v
  }

  function MoveCursor(v: View, key: Key): (w: View)
    requires v.Sane() && (key == Left ==> LeftIsInArray(v))
    ensures w.rows == v.rows
  {
    var moved :=
      match key
      case Left => StepLeft(v)
      case Right => StepRight(v)
      case Up => StepUp(v)
      case Down => StepDown(v)
      case _ => v;
    ClampColumn(moved)
  }

  function InsertAt<T>(s: seq<T>, at: nat, x: seq<T>): seq<T>
    requires at <= |s|
  {
    s[..at] + x + s[at..]
  }

  function RemoveAt<T>(s: seq<T>, at: nat): seq<T>
    requires at < |s|
  {
    s[..at] + s[at + 1..]
  }

  /** RowInsertChar clamps a column past the end of the row to the end. */
  function InsertInRow(row: string, at: nat, c: char): string {
    InsertAt(row, if at > |row| then |row| else at, [c])
  }

  function Padded(rows: seq<string>, n: nat): (r: seq<string>)
    ensures |r| >= n && |r| >= |rows|
    ensures |rows| >= n ==> r == rows
    decreases n - |rows|
  {
    if |rows| >= n then rows else Padded(rows + [""], n)
  }

  function AdvanceColumn(v: View): View {
    if v.cx == v.screencols - 1 then v.(coloff := v.coloff + 1) else v.(cx := v.cx + 1)
  }

  function InsertChar(v: View, c: char): View
    requires v.Sane()
  {
    var r := v.FileRow();
    var rows := Padded(v.rows, r + 1);
    AdvanceColumn(v.(rows := rows[r := InsertInRow(rows[r], v.FileCol(), c)]))
  }

  /** The rows with row r broken in two; one empty row is added right behind the last. */
  function BrokenAt(rows: seq<string>, r: nat, column: nat): seq<string> {
    if r > |rows| then rows
    else if r == |rows| then rows + [""]
    else
      var col := if column > |rows[r]| then |rows[r]| else column;
      if col == 0 then InsertAt(rows, r, [""])
      else InsertAt(rows, r + 1, [rows[r][col..]])[r := rows[r][..col]]
  }

  function InsertNewline(v: View): View
    requires v.Sane()
  {
    StepDownOneRow(v.(rows := BrokenAt(v.rows, v.FileRow(), v.FileCol()))).(cx := 0, coloff := 0)
  }

  function JoinWithPrevious(rows: seq<string>, r: nat): seq<string>
    requires 0 < r < |rows|
  {
    RemoveAt(rows[r - 1 := rows[r - 1] + rows[r]], r)
  }

  /** The cursor where row r was joined, whose upper part has `col` characters. */
  function ToJoint(v: View, col: nat): View {
    var w := if v.cy == 0 then v.(rowoff := v.rowoff - 1) else v.(cy := v.cy - 1);
    if col >= v.screencols then
      var shift := col - v.screencols + 1;
      w.(cx := col - shift, coloff := w.coloff + shift)
    else w.(cx := col)
  }

  function BackOne(v: View): View {
    if v.cx == 0 && v.coloff > 0 then v.(coloff := v.coloff - 1) else v.(cx := v.cx - 1)
  }

  function DeleteChar(v: View): View
    requires v.Sane()
  {
    var r := v.FileRow();
    if r >= |v.rows| || (v.FileCol() == 0 && r == 0) then v
    else if v.FileCol() == 0 then ToJoint(v.(rows := JoinWithPrevious(v.rows, r)), |v.rows[r - 1]|)
    else
      var at := v.FileCol() - 1;
      var row := if at < |v.rows[r]| then RemoveAt(v.rows[r], at) else v.rows[r];
      BackOne(v.(rows := v.rows[r := row]))
  }

  /** Screen-height many vertical moves, as Page Up and Page Down make them. */
  function Repeat(v: View, key: Key, times: nat): (w: View)
    requires v.Sane() && (key == Up || key == Down)
    ensures w.Sane() && w.rows == v.rows
    ensures w.screenrows == v.screenrows && w.screencols == v.screencols
    decreases times
  {
    if times == 0 then v else Repeat(MoveCursor(v, key), key, times - 1)
  }

  function EndOfRow(v: View): View
    requires v.Sane()
  {
    if v.FileRow() < |v.rows| then
      var size := |v.rows[v.FileRow()]|;
      if size >= v.screencols then v.(coloff := size - v.screencols + 1, cx := v.screencols - 1)
      else v.(cx := size, coloff := 0)
    else v
  }

  /** One key press. */
  function Press(v: View, key: Key): View
    requires v.Sane() && (key == Left ==> LeftIsInArray(v))
  {
    match key
    case Left | Right | Up | Down => MoveCursor(v, key)
    case Home => v.(cx := 0, coloff := 0)
    case End => EndOfRow(v)
    case PageUp => Repeat(v.(cy := 0), Up, v.screenrows)
    case PageDown => Repeat(v.(cy := v.screenrows - 1), Down, v.screenrows)
    case Enter => InsertNewline(v)
    case Backspace => DeleteChar(v)
    case Delete => DeleteChar(MoveCursor(v, Right))
    case Byte(c) => if IsPrint(c) || c == TAB then InsertChar(v, c) else v
    case Ignored => v
  }
}

/** Every editing key, seen on the flat text that Save writes and on one position
in it. */
module KiloText {
  import opened KiloView

  // ----- flat text -------------------------------------------------------

  lemma {:induction false} FlattenConcat(a: seq<string>, b: seq<string>)
    ensures Flatten(a + b) == Flatten(a) + Flatten(b)
  {
    if a == [] {
      assert a + b == b;
    } else {
      FlattenConcat(a[1..], b);
      assert (a + b)[1..] == a[1..] + b;
    }
  }

  lemma FlattenAround(rows: seq<string>, r: nat)
    requires r < |rows|
    ensures Flatten(rows) == Flatten(rows[..r]) + (rows[r] + ['\n'] + Flatten(rows[r + 1..]))
  {
    assert rows == rows[..r] + rows[r..];
    FlattenConcat(rows[..r], rows[r..]);
    assert rows[r..][1..] == rows[r + 1..];
  }

  /** A change of one row into the rows `mid` is a splice of the flat text. */
  lemma FlattenReplace(rows: seq<string>, r: nat, mid: seq<string>)
    requires r < |rows|
    ensures Flatten(rows[..r] + mid + rows[r + 1..]) ==
            Flatten(rows[..r]) + Flatten(mid) + Flatten(rows[r + 1..])
  {
    FlattenConcat(rows[..r] + mid, rows[r + 1..]);
    FlattenConcat(rows[..r], mid);
  }

  lemma FlattenOne(row: string)
    ensures Flatten([row]) == row + ['\n']
  {}

  lemma FlattenTwo(a: string, b: string)
    ensures Flatten([a, b]) == a + ['\n'] + b + ['\n']
  {
    assert [a, b][1..] == [b];
    FlattenOne(b);
  }

  /** The position of a valid cursor lies inside the flat text, in front of the rest of
      its row; in the row after the text it is the end of the text. */
  lemma PosSplits(v: View) returns (before: string, after: string)
    requires v.Valid()
    ensures Text(v) == before + after && |before| == Pos(v)
    ensures v.FileRow() < |v.rows| ==>
              && before == Flatten(v.rows[..v.FileRow()]) + v.rows[v.FileRow()][..v.FileCol()]
              && after == v.rows[v.FileRow()][v.FileCol()..] + ['\n'] + Flatten(v.rows[v.FileRow() + 1..])
    ensures v.FileRow() == |v.rows| ==> after == ""
  {
    var r, c := v.FileRow(), v.FileCol();
    if r < |v.rows| {
      FlattenAround(v.rows, r);
      assert v.rows[r] == v.rows[r][..c] + v.rows[r][c..];
      before := Flatten(v.rows[..r]) + v.rows[r][..c];
      after := v.rows[r][c..] + ['\n'] + Flatten(v.rows[r + 1..]);
    } else {
      assert v.rows[..r] == v.rows;
      before, after := Text(v), "";
    }
  }

  lemma PosInText(v: View)
    requires v.Valid()
    ensures Pos(v) <= |Text(v)|
  {
    var _, _ := PosSplits(v);
  }

  lemma InsertBetween(t: string, a: string, b: string, x: string)
    requires t == a + b
    ensures InsertAt(t, |a|, x) == a + x + b
  {}

  lemma RemoveBetween(t: string, a: string, x: char, b: string)
    requires t == a + [x] + b
    ensures |a| < |t| && RemoveAt(t, |a|) == a + b
  {}

  // ----- typing ----------------------------------------------------------

  lemma RegroupInserted(pre: string, a: string, x: char, b: string, post: string)
    ensures var t := (pre + a) + (b + ['\n'] + post);
            InsertAt(t, |pre + a|, [x]) == pre + ((a + [x] + b) + ['\n']) + post
  {
    InsertBetween((pre + a) + (b + ['\n'] + post), pre + a, b + ['\n'] + post, [x]);
  }

  lemma TypedRow(v: View, c: char)
    requires v.Valid() && v.FileRow() < |v.rows|
    ensures var r, col := v.FileRow(), v.FileCol();
            InsertChar(v, c).rows == v.rows[..r] + [v.rows[r][..col] + [c] + v.rows[r][col..]] + v.rows[r + 1..]
  {}

  lemma InsertCharIsSplice(v: View, c: char)
    requires v.Valid() && v.FileRow() < |v.rows|
    ensures InsertChar(v, c).Valid() && InsertChar(v, c).FileRow() < |InsertChar(v, c).rows|
    ensures Pos(v) <= |Text(v)|
    ensures Text(InsertChar(v, c)) == InsertAt(Text(v), Pos(v), [c])
    ensures Pos(InsertChar(v, c)) == Pos(v) + 1
  {
    TypedText(v, c);
    assert InsertChar(v, c).rows[..v.FileRow()] == v.rows[..v.FileRow()];
  }

  lemma TypedText(v: View, c: char)
    requires v.Valid() && v.FileRow() < |v.rows|
    ensures Pos(v) <= |Text(v)|
    ensures Text(InsertChar(v, c)) == InsertAt(Text(v), Pos(v), [c])
  {
    var r, col := v.FileRow(), v.FileCol();
    var a, b := v.rows[r][..col], v.rows[r][col..];
    var before, after := PosSplits(v);
    TypedRow(v, c);
    FlattenReplace(v.rows, r, [a + [c] + b]);
    FlattenOne(a + [c] + b);
    RegroupInserted(Flatten(v.rows[..r]), a, c, b, Flatten(v.rows[r + 1..]));
  }

  /** In the empty row after the text, typing first creates that row. */
  lemma InsertCharAfterText(v: View, c: char)
    requires v.Valid() && v.FileRow() == |v.rows|
    ensures InsertChar(v, c).Valid() && InsertChar(v, c).FileRow() < |InsertChar(v, c).rows|
    ensures Text(InsertChar(v, c)) == Text(v) + [c, '\n']
    ensures Pos(InsertChar(v, c)) == Pos(v) + 1 == |Text(v)| + 1
  {
    var w := InsertChar(v, c);
    var n := |v.rows|;
    assert Padded(v.rows, n + 1) == v.rows + [""];
    assert InsertInRow("", 0, c) == [c];
    assert w.rows == v.rows + [[c]];
    FlattenConcat(v.rows, [[c]]);
    FlattenOne([c]);
    assert w.rows[..n] == v.rows && v.rows[..n] == v.rows;
  }

  lemma RegroupSplit(pre: string, a: string, b: string, post: string)
    ensures pre + (a + ['\n'] + b + ['\n']) + post == (pre + a) + ['\n'] + (b + ['\n'] + post)
  {}

  lemma SplitRowIsSplice(v: View)
    requires v.Valid() && v.FileRow() < |v.rows|
    ensures Pos(v) <= |Text(v)|
    ensures Text(InsertNewline(v)) == InsertAt(Text(v), Pos(v), ['\n'])
  {
    var r, col := v.FileRow(), v.FileCol();
    var a, b := v.rows[r][..col], v.rows[r][col..];
    var before, after := PosSplits(v);
    SplitRows(v);
    FlattenReplace(v.rows, r, [a, b]);
    FlattenTwo(a, b);
    RegroupSplit(Flatten(v.rows[..r]), a, b, Flatten(v.rows[r + 1..]));
    InsertBetween(Text(v), before, after, ['\n']);
  }

  lemma SplitRows(v: View)
    requires v.Valid() && v.FileRow() < |v.rows|
    ensures var r, col := v.FileRow(), v.FileCol();
            InsertNewline(v).rows == v.rows[..r] + [v.rows[r][..col], v.rows[r][col..]] + v.rows[r + 1..]
  {
    if v.FileCol() == 0 {
      assert v.rows[v.FileRow()][0..] == v.rows[v.FileRow()];
    }
  }

  lemma SplitRowMovesOn(v: View)
    requires v.Valid() && v.FileRow() < |v.rows|
    ensures var w := InsertNewline(v); w.Valid() && w.FileRow() < |w.rows| && Pos(w) == Pos(v) + 1
  {
    var r, a := v.FileRow(), v.rows[v.FileRow()][..v.FileCol()];
    SplitRows(v);
    assert InsertNewline(v).rows[..r + 1] == v.rows[..r] + [a];
    FlattenConcat(v.rows[..r], [a]);
    FlattenOne(a);
  }

  lemma NewRowAfterText(v: View)
    requires v.Valid() && v.FileRow() == |v.rows|
    ensures Pos(v) == |Text(v)|
    ensures Text(InsertNewline(v)) == Text(v) + ['\n']
    ensures InsertNewline(v).Valid() && Pos(InsertNewline(v)) == Pos(v) + 1
  {
    var w := InsertNewline(v);
    FlattenConcat(v.rows, [""]);
    FlattenOne("");
    assert w.rows[..|w.rows|] == w.rows && v.rows[..|v.rows|] == v.rows;
  }

  lemma InsertNewlineIsSplice(v: View)
    requires v.Valid()
    ensures InsertNewline(v).Valid()
    ensures Pos(v) <= |Text(v)|
    ensures Text(InsertNewline(v)) == InsertAt(Text(v), Pos(v), ['\n'])
    ensures Pos(InsertNewline(v)) == Pos(v) + 1
    ensures v.FileRow() < |v.rows| ==> InsertNewline(v).FileRow() < |InsertNewline(v).rows|
  {
    if v.FileRow() < |v.rows| {
      SplitRowIsSplice(v);
      SplitRowMovesOn(v);
    } else {
      NewRowAfterText(v);
    }
  }

  // ----- erasing ---------------------------------------------------------

  lemma RegroupRemoved(pre: string, a: string, x: char, b: string, post: string)
    ensures var t := pre + ((a + [x] + b) + ['\n'] + post);
            |pre + a| < |t| && RemoveAt(t, |pre + a|) == pre + (a + b + ['\n']) + post
  {
    var t := pre + ((a + [x] + b) + ['\n'] + post);
    assert t == (pre + a) + [x] + (b + ['\n'] + post);
    RemoveBetween(t, pre + a, x, b + ['\n'] + post);
  }

  lemma ErasedRow(v: View)
    requires v.Valid() && v.FileRow() < |v.rows| && 0 < v.FileCol()
    ensures var r, col := v.FileRow(), v.FileCol();
      DeleteChar(v).rows == v.rows[..r] + [v.rows[r][..col - 1] + v.rows[r][col..]] + v.rows[r + 1..]
  {}

  lemma DeleteInRow(v: View)
    requires v.Valid() && v.FileRow() < |v.rows| && 0 < v.FileCol()
    ensures 0 < Pos(v) <= |Text(v)|
    ensures Text(DeleteChar(v)) == RemoveAt(Text(v), Pos(v) - 1)
  {
    var r, col := v.FileRow(), v.FileCol();
    var a, x, b := v.rows[r][..col - 1], v.rows[r][col - 1], v.rows[r][col..];
    FlattenAround(v.rows, r);
    assert v.rows[r] == a + [x] + b;
    ErasedRow(v);
    FlattenReplace(v.rows, r, [a + b]);
    FlattenOne(a + b);
    RegroupRemoved(Flatten(v.rows[..r]), a, x, b, Flatten(v.rows[r + 1..]));
  }

  lemma DeleteInRowMovesBack(v: View)
    requires v.Valid() && v.FileRow() < |v.rows| && 0 < v.FileCol()
    ensures var w := DeleteChar(v); w.Valid() && w.FileRow() < |w.rows| && Pos(w) == Pos(v) - 1
  {
    assert DeleteChar(v).rows[..v.FileRow()] == v.rows[..v.FileRow()];
  }

  lemma RegroupJoined(pre: string, p: string, q: string, post: string)
    ensures var t := (pre + (p + ['\n'])) + (q + ['\n'] + post);
            |pre + p| < |t| && RemoveAt(t, |pre + p|) == pre + (p + q + ['\n']) + post
  {
    var t := (pre + (p + ['\n'])) + (q + ['\n'] + post);
    assert t == (pre + p) + ['\n'] + (q + ['\n'] + post);
    RemoveBetween(t, pre + p, '\n', q + ['\n'] + post);
  }

  lemma RowsAbove(rows: seq<string>, r: nat)
    requires 0 < r <= |rows|
    ensures Flatten(rows[..r]) == Flatten(rows[..r - 1]) + (rows[r - 1] + ['\n'])
  {
    assert rows[..r] == rows[..r - 1] + [rows[r - 1]];
    FlattenConcat(rows[..r - 1], [rows[r - 1]]);
    FlattenOne(rows[r - 1]);
  }

  lemma DeleteJoinsRows(v: View)
    requires v.Valid() && v.FileRow() < |v.rows| && v.FileCol() == 0 && 0 < v.FileRow()
    ensures 0 < Pos(v) <= |Text(v)|
    ensures Text(DeleteChar(v)) == RemoveAt(Text(v), Pos(v) - 1)
  {
    var r := v.FileRow();
    RowsAbove(v.rows, r);
    FlattenAround(v.rows, r);
    JoinedRows(v.rows, r);
    RegroupJoined(Flatten(v.rows[..r - 1]), v.rows[r - 1], v.rows[r], Flatten(v.rows[r + 1..]));
  }

  lemma DeleteJoinMovesBack(v: View)
    requires v.Valid() && v.FileRow() < |v.rows| && v.FileCol() == 0 && 0 < v.FileRow()
    ensures var w := DeleteChar(v); w.Valid() && w.FileRow() < |w.rows| && Pos(w) == Pos(v) - 1
  {
    var r := v.FileRow();
    RowsAbove(v.rows, r);
    assert DeleteChar(v).rows[..r - 1] == v.rows[..r - 1];
  }

  lemma JoinedRows(rows: seq<string>, r: nat)
    requires 0 < r < |rows|
    ensures Flatten(JoinWithPrevious(rows, r)) ==
            Flatten(rows[..r - 1]) + (rows[r - 1] + rows[r] + ['\n']) + Flatten(rows[r + 1..])
  {
    var both := rows[r - 1] + rows[r];
    assert JoinWithPrevious(rows, r) == rows[..r - 1] + [both] + rows[r + 1..];
    FlattenConcat(rows[..r - 1] + [both], rows[r + 1..]);
    FlattenConcat(rows[..r - 1], [both]);
    FlattenOne(both);
  }

  lemma RowStartPositive(v: View)
    requires v.Valid() && v.FileRow() <= |v.rows|
    ensures Pos(v) == 0 <==> v.FileRow() == 0 && v.FileCol() == 0
  {
    var above := v.rows[..v.FileRow()];
    if v.FileRow() == 0 {
      assert above == [];
    } else {
      FlattenAround(above, 0);
    }
  }

  lemma DeleteCharIsSplice(v: View)
    requires v.Valid() && v.FileRow() < |v.rows| && 0 < Pos(v)
    ensures DeleteChar(v).Valid() && DeleteChar(v).FileRow() < |DeleteChar(v).rows|
    ensures Pos(v) <= |Text(v)|
    ensures Text(DeleteChar(v)) == RemoveAt(Text(v), Pos(v) - 1)
    ensures Pos(DeleteChar(v)) == Pos(v) - 1
  {
    RowStartPositive(v);
    if v.FileCol() == 0 {
      DeleteJoinsRows(v);
      DeleteJoinMovesBack(v);
    } else {
      DeleteInRow(v);
      DeleteInRowMovesBack(v);
    }
  }

  /** Backspace changes nothing exactly at the start of the text and in the empty row
      after it. */
  lemma DeleteCharNothing(v: View)
    requires v.Valid()
    ensures DeleteChar(v) == v <==> Pos(v) == 0 || v.FileRow() == |v.rows|
  {
    RowStartPositive(v);
    if v.FileRow() < |v.rows| && Pos(v) != 0 {
      DeleteCharIsSplice(v);
    }
  }
}

/** The line editor's operations on the stored lines: each is a segment of the text that
ends with its newline, except that the last one may lack it. */
module LineText {
  import opened CString
  import opened Errno

  const BUFFER_SIZE: nat := 2048

  /** The position of the first newline, or the length. */
  function LineLength(s: string): (n: nat)
    ensures n <= |s|
  {
    if s == "" || s[0] == '\n' then 0 else 1 + LineLength(s[1..])
  }

  lemma {:induction false} LineEnds(s: string)
    ensures var n := LineLength(s); (n < |s| ==> s[n] == '\n') && '\n' !in s[..n]
  {
    if s != "" && s[0] != '\n' {
      LineEnds(s[1..]);
      var n := LineLength(s);
      assert s[..n] == [s[0]] + s[1..][..n - 1];
    }
  }

  function SegmentLength(s: string): (n: nat)
    ensures n <= |s| && (s != "" ==> n > 0)
  {
    if LineLength(s) < |s| then LineLength(s) + 1 else |s|
  }

  function Segments(s: string): seq<string> {
    if s == "" then [] else [s[..SegmentLength(s)]] + Segments(s[SegmentLength(s)..])
  }

  predicate Terminated(seg: string) { seg != "" && seg[|seg| - 1] == '\n' }

  function Body(seg: string): string { if Terminated(seg) then seg[..|seg| - 1] else seg }

  /** What can follow in a text: a whole segment, and only the last unterminated. */
  predicate IsSegment(seg: string, last: bool) {
    seg != "" && '\n' !in Body(seg) && (Terminated(seg) || last)
  }

  predicate AreSegments(segs: seq<string>) {
    forall k :: 0 <= k < |segs| ==> IsSegment(segs[k], k == |segs| - 1)
  }

  lemma SegmentInFront(s: string)
    requires s != ""
    ensures var n := SegmentLength(s); IsSegment(s[..n], s[n..] == "") && s == s[..n] + s[n..]
  {
    var n := SegmentLength(s);
    LineEnds(s);
    assert Terminated(s[..n]) ==> Body(s[..n]) == s[..n - 1];
  }

  lemma SegmentsCons(seg: string, segs: seq<string>)
    requires IsSegment(seg, segs == []) && AreSegments(segs)
    ensures AreSegments([seg] + segs) && Concat([seg] + segs) == seg + Concat(segs)
  {
    assert ([seg] + segs)[1..] == segs;
    forall k | 0 < k < |segs| + 1
      ensures IsSegment(([seg] + segs)[k], k == |segs|)
    {
      assert IsSegment(segs[k - 1], k - 1 == |segs| - 1);
    }
  }

  lemma {:induction false} SegmentsOfText(s: string)
    ensures Concat(Segments(s)) == s && AreSegments(Segments(s))
    decreases |s|
  {
    if s != "" {
      var n := SegmentLength(s);
      SegmentsOfText(s[n..]);
      SegmentInFront(s);
      SegmentsCons(s[..n], Segments(s[n..]));
    }
  }

  lemma FirstSegment(seg: string, rest: string)
    requires IsSegment(seg, rest == "")
    ensures SegmentLength(seg + rest) == |seg|
    ensures Segments(seg + rest) == [seg] + Segments(rest)
  {
    var s := seg + rest;
    LineEnds(s);
    assert Terminated(seg) ==> s[|seg| - 1] == '\n';
    assert !Terminated(seg) ==> s == seg;
    assert s[..|seg|] == seg && s[|seg|..] == rest;
  }

  lemma {:induction false} SegmentsOfConcat(segs: seq<string>)
    requires AreSegments(segs)
    ensures Segments(Concat(segs)) == segs
  {
    if segs != [] {
      SegmentsOfConcat(segs[1..]);
      if |segs| > 1 {
        assert IsSegment(segs[1], |segs| == 2);
        assert Concat(segs[1..]) == segs[1] + Concat(segs[1..][1..]);
      }
      FirstSegment(segs[0], Concat(segs[1..]));
    }
  }

  lemma {:induction false} ConcatAppend(a: seq<string>, b: seq<string>)
    ensures Concat(a + b) == Concat(a) + Concat(b)
  {
    if a == [] {
      assert a + b == b;
    } else {
      assert (a + b)[1..] == a[1..] + b;
      ConcatAppend(a[1..], b);
    }
  }

  // ----- the operations --------------------------------------------------

  /** What the copying loop demands in front of a piece: its length for the edited one, one
      byte more than its line and a newline for every other. */
  function Needed(piece: string, edited: bool): nat { if edited then |piece| else |Body(piece)| + 2 }

  predicate Room(pieces: seq<string>, edited: nat, i: nat, dst: nat)
    requires i <= |pieces|
    decreases |pieces| - i
  {
    || i == |pieces|
    || (dst + Needed(pieces[i], i == edited) < BUFFER_SIZE && Room(pieces, edited, i + 1, dst + |pieces[i]|))
  }

  datatype Outcome = Outcome(rc: int, text: string)

  function Rewritten(text: string, pieces: seq<string>, edited: nat): Outcome {
    if Room(pieces, edited, 0, 0) then Outcome(0, Concat(pieces)) else Outcome(-ENOSPC, text)
  }

  /** Segment number `k` replaced by `piece`. */
  function Changed(text: string, k: nat, piece: string): Outcome {
    var segs := Segments(text);
    if k < |segs| then Rewritten(text, segs[k := piece], k)
    else if Room(segs, k, 0, 0) then Outcome(-ENOENT, text)
    else Outcome(-ENOSPC, text)
  }

  function Terminator(seg: string): string { if Terminated(seg) then "\n" else "" }

  function Replace(text: string, lineNo: nat, line: string): Outcome {
    if lineNo == 0 then Outcome(-EINVAL, text)
    else
      var segs := Segments(text);
      Changed(text, lineNo - 1, line + if lineNo <= |segs| then Terminator(segs[lineNo - 1]) else "")
  }

  function Delete(text: string, lineNo: nat): Outcome {
    if lineNo == 0 then Outcome(-EINVAL, text) else Changed(text, lineNo - 1, "")
  }

  function Append(text: string, line: string): Outcome {
    var added := (if text != "" && !Terminated(text) then "\n" else "") + line;
    if |text| + |added| + 1 > BUFFER_SIZE then Outcome(-ENOSPC, text) else Outcome(0, text + added)
  }

  /** One more than there are newlines, counting an empty line behind a last newline. */
  function LineCount(text: string): nat {
    if text == "" then 0 else |Segments(text)| + if Terminated(text) then 1 else 0
  }

  function Inserted(segs: seq<string>, k: nat, piece: string): seq<string>
    requires k <= |segs|
  {
    segs[..k] + [piece] + segs[k..]
  }

  function Insert(text: string, lineNo: nat, line: string): Outcome {
    var segs := Segments(text);
    if lineNo == 0 then Outcome(-EINVAL, text)
    else if lineNo == 1 && text == "" then Append(text, line)
    else if lineNo > LineCount(text) then Outcome(-ENOENT, text)
    else if lineNo > |segs| then Rewritten(text, segs, |segs|)
    else Rewritten(text, Inserted(segs, lineNo - 1, line + "\n"), lineNo - 1)
  }

  // ----- what they do to the segments --------------------------------------

  lemma OneSegment(line: string)
    requires '\n' !in line
    ensures IsSegment(line + "\n", false) && Terminated(line + "\n") && Body(line + "\n") == line
    ensures !Terminated(line) && Body(line) == line
  {}

  lemma ConcatWithout(segs: seq<string>, k: nat)
    requires k < |segs|
    ensures Concat(segs[k := ""]) == Concat(segs[..k] + segs[k + 1..])
  {
    assert segs[k := ""] == segs[..k] + ([""] + segs[k + 1..]);
    ConcatAppend(segs[..k], [""] + segs[k + 1..]);
    ConcatAppend([""], segs[k + 1..]);
    ConcatAppend(segs[..k], segs[k + 1..]);
    assert ([""] + segs[k + 1..])[1..] == segs[k + 1..];
  }

  /** A successful replacement replaces one segment and keeps its terminator, unless an empty
      line replaces an unterminated last one. */
  lemma ReplaceReplaces(text: string, lineNo: nat, line: string)
    requires '\n' !in line && Replace(text, lineNo, line).rc == 0
    ensures 1 <= lineNo <= |Segments(text)|
    ensures var segs, k := Segments(text), lineNo - 1;
      var piece := line + Terminator(segs[k]);
      Segments(Replace(text, lineNo, line).text) == if piece != "" then segs[k := piece] else segs[..k]
  {
    var segs, k := Segments(text), lineNo - 1;
    SegmentsOfText(text);
    OneSegment(line);
    var piece := line + Terminator(segs[k]);
    if piece != "" {
      assert line + "" == line;
      SegmentsOfConcat(segs[k := piece]);
    } else {
      ConcatWithout(segs, k);
      assert segs[..k] + segs[k + 1..] == segs[..k];
      SegmentsOfConcat(segs[..k]);
    }
  }

  /** A successful deletion removes one segment. */
  lemma DeleteRemoves(text: string, lineNo: nat)
    requires Delete(text, lineNo).rc == 0
    ensures 1 <= lineNo <= |Segments(text)|
    ensures Segments(Delete(text, lineNo).text) == Segments(text)[..lineNo - 1] + Segments(text)[lineNo..]
  {
    var segs, k := Segments(text), lineNo - 1;
    SegmentsOfText(text);
    ConcatWithout(segs, k);
    SegmentsOfConcat(segs[..k] + segs[k + 1..]);
  }

  lemma InsertedSegments(segs: seq<string>, k: nat, piece: string)
    requires AreSegments(segs) && k < |segs| && IsSegment(piece, false)
    ensures AreSegments(Inserted(segs, k, piece))
  {
    var all := Inserted(segs, k, piece);
    forall j | 0 <= j < |all|
      ensures IsSegment(all[j], j == |all| - 1)
    {
      if j < k { assert IsSegment(segs[j], j == |segs| - 1); }
      if j > k { assert IsSegment(segs[j - 1], j - 1 == |segs| - 1); }
    }
  }

  /** The pieces a successful insertion in front of a stored segment writes. */
  lemma InsertWrites(text: string, lineNo: nat, line: string)
    requires Insert(text, lineNo, line).rc == 0 && lineNo <= |Segments(text)|
    ensures 1 <= lineNo
    ensures var all := Inserted(Segments(text), lineNo - 1, line + "\n");
      Insert(text, lineNo, line).text == Concat(all) && Room(all, lineNo - 1, 0, 0)
  {}

  lemma SegmentsOfInserted(segs: seq<string>, k: nat, line: string)
    requires AreSegments(segs) && k < |segs| && '\n' !in line
    ensures Segments(Concat(Inserted(segs, k, line + "\n"))) == Inserted(segs, k, line + "\n")
  {
    OneSegment(line);
    InsertedSegments(segs, k, line + "\n");
    SegmentsOfConcat(Inserted(segs, k, line + "\n"));
  }

  /** A successful insertion in front of a stored segment adds one segment there. */
  lemma InsertAdds(text: string, lineNo: nat, line: string)
    requires '\n' !in line && Insert(text, lineNo, line).rc == 0 && lineNo <= |Segments(text)|
    ensures 1 <= lineNo
    ensures Segments(Insert(text, lineNo, line).text) == Inserted(Segments(text), lineNo - 1, line + "\n")
  {
    InsertWrites(text, lineNo, line);
    SegmentsOfText(text);
    SegmentsOfInserted(Segments(text), lineNo - 1, line);
  }

  // ----- undoing an insertion ----------------------------------------------

  lemma {:induction false} RoomShrinks(pieces: seq<string>, edited: nat, i: nat, dst: nat, dst1: nat)
    requires edited < |pieces| && i <= |pieces| && dst1 <= dst && Room(pieces, edited, i, dst)
    ensures Room(pieces[edited := ""], edited, i, dst1)
    decreases |pieces| - i
  {
    if i < |pieces| {
      RoomShrinks(pieces, edited, i + 1, dst + |pieces[i]|, dst1 + |pieces[edited := ""][i]|);
    }
  }

  lemma WithoutInserted(segs: seq<string>, k: nat, piece: string)
    requires k <= |segs|
    ensures Concat(Inserted(segs, k, piece)[k := ""]) == Concat(segs)
  {
    var all := Inserted(segs, k, piece);
    ConcatWithout(all, k);
    assert all[..k] == segs[..k] && all[k + 1..] == segs[k..];
    assert segs[..k] + segs[k..] == segs;
  }

  /** The inserted line alone comes off again, and there is room for that. */
  lemma InsertedIsDeleted(segs: seq<string>, k: nat, line: string)
    requires AreSegments(segs) && k < |segs| && '\n' !in line && Room(Inserted(segs, k, line + "\n"), k, 0, 0)
    ensures Delete(Concat(Inserted(segs, k, line + "\n")), k + 1) == Outcome(0, Concat(segs))
  {
    SegmentsOfInserted(segs, k, line);
    RoomShrinks(Inserted(segs, k, line + "\n"), k, 0, 0, 0);
    WithoutInserted(segs, k, line + "\n");
  }

  lemma SegmentsBehind(front: seq<string>, s: string)
    requires s != "" && forall k :: 0 <= k < |front| ==> IsSegment(front[k], false)
    ensures Segments(Concat(front) + s) == front + Segments(s)
  {
    SegmentsOfText(s);
    var back := Segments(s);
    var all := front + back;
    forall k | 0 <= k < |all| ensures IsSegment(all[k], k == |all| - 1) {
      if k >= |front| { assert IsSegment(back[k - |front|], k - |front| == |back| - 1); }
    }
    ConcatAppend(front, back);
    SegmentsOfConcat(all);
  }

  lemma LengthWithout(segs: seq<string>, k: nat)
    requires k < |segs|
    ensures |Concat(segs[k := ""])| + |segs[k]| == |Concat(segs)|
  {
    ConcatWithout(segs, k);
    ConcatAppend(segs[..k], segs[k + 1..]);
    ConcatAppend(segs[..k], segs[k..]);
    assert segs == segs[..k] + segs[k..];
    assert segs[k..] == [segs[k]] + segs[k + 1..];
  }

  lemma {:induction false} LineEndsBy(s: string, i: nat)
    requires i < |s| && s[i] == '\n'
    ensures LineLength(s) <= i
  {
    if s[0] != '\n' { LineEndsBy(s[1..], i - 1); }
  }

  /** Of a text with a newline inside only the first piece comes off. */
  lemma FirstPieceOnly(front: seq<string>, line: string, behind: string)
    requires '\n' in line && forall k :: 0 <= k < |front| ==> IsSegment(front[k], false)
    ensures var segs := Segments(Concat(front) + (line + "\n" + behind));
      |front| < |segs| && |segs[|front|]| <= |line|
  {
    var s := line + "\n" + behind;
    SegmentsBehind(front, s);
    var i :| 0 <= i < |line| && line[i] == '\n';
    LineEndsBy(s, i);
  }

  /** A change of the text's length. */
  lemma DeleteShortens(text: string, k: nat)
    requires k < |Segments(text)|
    ensures |Delete(text, k + 1).text| >= |text| - |Segments(text)[k]|
  {
    SegmentsOfText(text);
    LengthWithout(Segments(text), k);
  }

  lemma PiecesStay(segs: seq<string>, k: nat, line: string)
    requires AreSegments(segs) && k < |segs| && '\n' in line
    ensures |Delete(Concat(Inserted(segs, k, line + "\n")), k + 1).text| > |Concat(segs)|
  {
    var front, behind := segs[..k], Concat(segs[k..]);
    ConcatInserted(segs, k, line + "\n");
    forall j | 0 <= j < |front| ensures IsSegment(front[j], false) { assert IsSegment(segs[j], j == |segs| - 1); }
    FirstPieceOnly(front, line, behind);
    DeleteShortens(Concat(front) + (line + "\n" + behind), k);
  }

  /** Inserting in front of a stored line and deleting at the same number succeeds and gives
      the text back for exactly the lines without a newline. */
  lemma InsertThenDelete(text: string, lineNo: nat, line: string)
    requires Insert(text, lineNo, line).rc == 0 && lineNo <= |Segments(text)|
    ensures Delete(Insert(text, lineNo, line).text, lineNo) == Outcome(0, text) <==> '\n' !in line
    ensures Delete(Insert(text, lineNo, line).text, lineNo).text == text <==> '\n' !in line
  {
    var segs := Segments(text);
    InsertWrites(text, lineNo, line);
    SegmentsOfText(text);
    if '\n' !in line {
      InsertedIsDeleted(segs, lineNo - 1, line);
    } else {
      PiecesStay(segs, lineNo - 1, line);
    }
  }

  lemma ConcatInserted(segs: seq<string>, k: nat, piece: string)
    requires k <= |segs|
    ensures Concat(Inserted(segs, k, piece)) == Concat(segs[..k]) + (piece + Concat(segs[k..]))
    ensures |Concat(Inserted(segs, k, piece))| == |Concat(segs)| + |piece|
  {
    ConcatAppend(segs[..k] + [piece], segs[k..]);
    ConcatAppend(segs[..k], [piece]);
    ConcatAppend(segs[..k], segs[k..]);
    assert segs == segs[..k] + segs[k..];
    assert Concat([piece]) == piece;
  }

  /** An insertion reported as done that stored nothing: the number was that of the empty
      line behind a last newline, or nothing was put into an empty text. */
  lemma InsertStoresNothing(text: string, lineNo: nat, line: string)
    requires Insert(text, lineNo, line).rc == 0
    ensures Insert(text, lineNo, line).text == text <==> if text == "" then line == "" else lineNo > |Segments(text)|
  {
    SegmentsOfText(text);
    var segs := Segments(text);
    if text != "" && lineNo <= |segs| {
      ConcatInserted(segs, lineNo - 1, line + "\n");
    }
  }

  /** Inserting in front of the empty line behind a last newline. */
  lemma NothingStored()
    ensures var o := Insert("a\n", 2, "b"); o.rc == 0 && o.text == "a\n"
  {
    assert "a\n"[1..] == "\n" && "\n"[1..] == "";
    SegmentsOfText("a\n");
    InsertStoresNothing("a\n", 2, "b");
  }

  // ----- counting lines ----------------------------------------------------

  function Newlines(s: string): nat {
    if s == "" then 0 else (if s[0] == '\n' then 1 else 0) + Newlines(s[1..])
  }

  lemma SegmentsOfTail(s: string)
    requires |s| > 1
    ensures |Segments(s)| == |Segments(s[1..])| + if s[0] == '\n' then 1 else 0
  {
    var n := SegmentLength(s);
    if s[0] != '\n' {
      assert s[1..][SegmentLength(s[1..])..] == s[n..];
    }
  }

  lemma {:induction false} LinesAreNewlines(s: string)
    ensures s != "" ==> LineCount(s) == 1 + Newlines(s)
  {
    if |s| > 1 {
      LinesAreNewlines(s[1..]);
      SegmentsOfTail(s);
    } else if |s| == 1 {
      assert SegmentLength(s) == 1 && s[1..] == "" && s[..1] == s;
      assert Segments(s) == [s] + Segments("");
    }
  }

  // ----- reading one line --------------------------------------------------

  /** Line number `n` without its newline. Behind a last newline, and in an empty text, there
      is one more, empty line. */
  function LineOf(s: string, n: nat): Option<string> {
    var segs := Segments(s);
    if 1 <= n <= |segs| then Some(Body(segs[n - 1]))
    else if n == |segs| + 1 && (s == "" || Terminated(s)) then Some("")
    else None
  }

  /** The same found character by character. */
  function LineAt(s: string, n: nat): Option<string> {
    if n == 0 then None
    else if n == 1 then Some(s[..LineLength(s)])
    else if s == "" then None
    else LineAt(s[1..], if s[0] == '\n' then n - 1 else n)
  }

  lemma SegmentsBehindFirst(s: string, n: nat)
    requires s != "" && n >= 2
    ensures LineOf(s, n) == LineOf(s[1..], if s[0] == '\n' then n - 1 else n)
  {
    var segs, tail := Segments(s), Segments(s[1..]);
    if s[0] == '\n' {
      assert s[..1] == "\n" && SegmentLength(s) == 1;
      assert segs == ["\n"] + tail;
    } else if |s| == 1 {
      assert SegmentLength(s) == 1 && s[..1] == s && s[1..] == "";
      assert segs == [s] + tail;
    } else {
      var m := SegmentLength(s);
      assert s[1..][m - 1..] == s[m..];
      assert segs[1..] == tail[1..];
      if n <= |segs| { assert segs[n - 1] == segs[1..][n - 2]; }
    }
  }

  lemma {:induction false} LineAtIsLineOf(s: string, n: nat)
    ensures LineAt(s, n) == LineOf(s, n)
  {
    if n == 1 {
      LineEnds(s);
      if s != "" { SegmentInFront(s); }
      assert s[..LineLength(s)] == Body(s[..SegmentLength(s)]);
    } else if n > 1 && s != "" {
      SegmentsBehindFirst(s, n);
      LineAtIsLineOf(s[1..], if s[0] == '\n' then n - 1 else n);
    }
  }
}

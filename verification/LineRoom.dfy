/** When the line editor has room: the exact lengths up to which its operations succeed. */
module LineRoom {
  import opened CString
  import opened Errno
  import opened LineText

  /** What the copying loop wants to have left behind the last stored line. */
  function Slack(text: string): nat { if text == "" then 0 else if Terminated(text) then 1 else 2 }

  /** The pieces other than the edited one are stored segments. */
  predicate OthersAreSegments(pieces: seq<string>, edited: nat) {
    forall j :: 0 <= j < |pieces| && j != edited ==> IsSegment(pieces[j], j == |pieces| - 1)
  }

  lemma ConcatFrom(pieces: seq<string>, i: nat)
    requires i < |pieces|
    ensures Concat(pieces[i..]) == pieces[i] + Concat(pieces[i + 1..])
  {
    assert pieces[i..][1..] == pieces[i + 1..];
  }

  lemma NeededBySegment(pieces: seq<string>, edited: nat, i: nat)
    requires OthersAreSegments(pieces, edited) && i < |pieces| && i != edited
    ensures pieces[i] != ""
    ensures Needed(pieces[i], false) == |pieces[i]| + if Terminated(pieces[i]) then 1 else 2
    ensures i < |pieces| - 1 ==> Terminated(pieces[i])
  {
    assert IsSegment(pieces[i], i == |pieces| - 1);
  }

  /** With a stored segment last, only the whole length matters. */
  lemma {:induction false} RoomForAll(pieces: seq<string>, edited: nat, i: nat, dst: nat)
    requires OthersAreSegments(pieces, edited) && i < |pieces| && edited != |pieces| - 1
    ensures Room(pieces, edited, i, dst) <==>
            dst + |Concat(pieces[i..])| + (if Terminated(pieces[|pieces| - 1]) then 1 else 2) < 2048
    decreases |pieces| - i
  {
    var last := |pieces| - 1;
    ConcatFrom(pieces, i);
    NeededBySegment(pieces, edited, last);
    if i != edited { NeededBySegment(pieces, edited, i); }
    if i < last {
      RoomForAll(pieces, edited, i + 1, dst + |pieces[i]|);
      NotEmptyBehind(pieces, edited, i + 1);
    } else {
      assert pieces[i + 1..] == [];
    }
  }

  lemma {:induction false} NotEmptyBehind(pieces: seq<string>, edited: nat, i: nat)
    requires OthersAreSegments(pieces, edited) && i < |pieces| && edited != |pieces| - 1
    ensures |Concat(pieces[i..])| > 0
    decreases |pieces| - i
  {
    ConcatFrom(pieces, i);
    if i < |pieces| - 1 {
      NotEmptyBehind(pieces, edited, i + 1);
    } else {
      NeededBySegment(pieces, edited, i);
    }
  }

  /** With the edited piece last, what is in front of it fits anyway. */
  lemma {:induction false} RoomForLast(pieces: seq<string>, i: nat, dst: nat)
    requires pieces != [] && OthersAreSegments(pieces, |pieces| - 1) && i < |pieces|
    requires dst + |Concat(pieces[i..|pieces| - 1])| + 1 < 2048
    ensures Room(pieces, |pieces| - 1, i, dst) <==> dst + |Concat(pieces[i..])| < 2048
    decreases |pieces| - i
  {
    var last := |pieces| - 1;
    ConcatFrom(pieces, i);
    if i < last {
      ConcatFrom(pieces[..last], i);
      assert pieces[..last][i..] == pieces[i..last] && pieces[..last][i + 1..] == pieces[i + 1..last];
      NeededBySegment(pieces, last, i);
      RoomForLast(pieces, i + 1, dst + |pieces[i]|);
    } else {
      assert pieces[i + 1..] == [] && pieces[i..last] == [];
    }
  }

  lemma {:induction false} LastOfText(segs: seq<string>)
    requires AreSegments(segs) && segs != []
    ensures Concat(segs) != "" && (Terminated(Concat(segs)) <==> Terminated(segs[|segs| - 1]))
  {
    assert IsSegment(segs[0], |segs| == 1);
    if |segs| > 1 {
      forall k | 0 <= k < |segs| - 1
        ensures IsSegment(segs[1..][k], k == |segs| - 2)
      {
        assert IsSegment(segs[k + 1], k + 1 == |segs| - 1);
      }
      LastOfText(segs[1..]);
      LastOfConcat(segs[0], Concat(segs[1..]));
    } else {
      assert segs[0] + "" == segs[0];
    }
  }

  lemma LastOfConcat(a: string, b: string)
    requires b != ""
    ensures Terminated(a + b) <==> Terminated(b)
  {}

  lemma LengthWith(segs: seq<string>, k: nat, piece: string)
    requires k < |segs|
    ensures |Concat(segs[k := piece])| == |Concat(segs)| - |segs[k]| + |piece|
    ensures |Concat(segs[..k])| <= |Concat(segs)| - |segs[k]|
  {
    LengthWithout(segs, k);
    LengthWithout(segs[k := piece], k);
    assert segs[k := piece][k := ""] == segs[k := ""];
    ConcatWithout(segs, k);
    ConcatAppend(segs[..k], segs[k + 1..]);
  }

  // ----- changing a stored line ----------------------------------------------

  /** The outcome of putting `piece` in the place of segment number `k`. */
  function ChangeCode(text: string, k: nat, piece: string): int {
    var segs := Segments(text);
    if k >= |segs| then (if text == "" || |text| + Slack(text) < 2048 then -ENOENT else -ENOSPC)
    else
      var length := |text| - |segs[k]| + |piece|;
      if length + (if k == |segs| - 1 then 0 else Slack(text)) < 2048 then 0 else -ENOSPC
  }

  lemma OthersStay(segs: seq<string>, k: nat, piece: string)
    requires AreSegments(segs) && k < |segs|
    ensures OthersAreSegments(segs[k := piece], k)
  {
    var all := segs[k := piece];
    forall j | 0 <= j < |all| && j != k
      ensures IsSegment(all[j], j == |segs| - 1)
    {
      assert IsSegment(segs[j], j == |segs| - 1);
    }
  }

  lemma RoomForChange(segs: seq<string>, k: nat, piece: string, length: nat, slack: nat)
    requires AreSegments(segs) && k < |segs| - 1 && length == |Concat(segs[k := piece])|
    requires slack == if Terminated(segs[|segs| - 1]) then 1 else 2
    ensures Room(segs[k := piece], k, 0, 0) <==> length + slack < 2048
  {
    var all := segs[k := piece];
    OthersStay(segs, k, piece);
    assert all[0..] == all;
    RoomForAll(all, k, 0, 0);
  }

  lemma RoomForLastChange(segs: seq<string>, piece: string, length: nat)
    requires AreSegments(segs) && segs != [] && length == |Concat(segs[|segs| - 1 := piece])| && |Concat(segs)| < 2048
    ensures Room(segs[|segs| - 1 := piece], |segs| - 1, 0, 0) <==> length < 2048
  {
    var k := |segs| - 1;
    var all := segs[k := piece];
    OthersStay(segs, k, piece);
    assert all[0..] == all && all[0..k] == segs[..k];
    assert IsSegment(segs[k], true);
    LengthWith(segs, k, piece);
    RoomForLast(all, 0, 0);
  }

  lemma ChangeHasRoom(text: string, k: nat, piece: string)
    requires |text| < 2048 && k < |Segments(text)|
    ensures Room(Segments(text)[k := piece], k, 0, 0) <==> ChangeCode(text, k, piece) == 0
  {
    var segs := Segments(text);
    SegmentsOfText(text);
    LastOfText(segs);
    LengthWith(segs, k, piece);
    if k == |segs| - 1 {
      RoomForLastChange(segs, piece, |Concat(segs[k := piece])|);
    } else {
      RoomForChange(segs, k, piece, |Concat(segs[k := piece])|, Slack(text));
    }
  }

  lemma NoSuchLine(text: string, k: nat)
    requires k >= |Segments(text)| && text != ""
    ensures Room(Segments(text), k, 0, 0) <==> |text| + Slack(text) < 2048
  {
    var segs := Segments(text);
    SegmentsOfText(text);
    LastOfText(segs);
    assert segs[0..] == segs;
    RoomForAll(segs, k, 0, 0);
  }

  lemma ChangedOutcome(text: string, k: nat, piece: string)
    requires |text| < 2048
    ensures Changed(text, k, piece).rc == ChangeCode(text, k, piece)
  {
    if k < |Segments(text)| {
      ChangeHasRoom(text, k, piece);
    } else if text != "" {
      NoSuchLine(text, k);
    }
  }

  /** A replacement or removal in a text the editor holds succeeds exactly for the number of
      a stored line when the new text is short enough: shorter than the buffer when it is
      the last line, by one or two bytes more when stored lines follow. */
  lemma WhenChanged(text: string, lineNo: nat, line: string)
    requires |text| < 2048
    ensures Delete(text, lineNo).rc == if lineNo == 0 then -EINVAL else ChangeCode(text, lineNo - 1, "")
    ensures Replace(text, lineNo, line).rc ==
            if lineNo == 0 then -EINVAL
            else
              var n := if lineNo <= |Segments(text)| && Terminated(Segments(text)[lineNo - 1]) then 1 else 0;
              ChangeCode(text, lineNo - 1, line + if n == 1 then "\n" else "")
  {
    if lineNo > 0 {
      ChangedOutcome(text, lineNo - 1, "");
      var end := if lineNo <= |Segments(text)| then Terminator(Segments(text)[lineNo - 1]) else "";
      ChangedOutcome(text, lineNo - 1, line + end);
    }
  }

  // ----- adding a line ---------------------------------------------------------

  lemma OthersMove(segs: seq<string>, k: nat, piece: string)
    requires AreSegments(segs) && k < |segs|
    ensures OthersAreSegments(Inserted(segs, k, piece), k)
  {
    var all := Inserted(segs, k, piece);
    forall j | 0 <= j < |all| && j != k
      ensures IsSegment(all[j], j == |segs|)
    {
      if j < k {
        assert IsSegment(segs[j], j == |segs| - 1);
      } else {
        assert IsSegment(segs[j - 1], j - 1 == |segs| - 1);
      }
    }
  }

  lemma RoomForInserted(segs: seq<string>, k: nat, piece: string)
    requires AreSegments(segs) && k < |segs|
    ensures Room(Inserted(segs, k, piece), k, 0, 0) <==>
            |Concat(segs)| + |piece| + (if Terminated(segs[|segs| - 1]) then 1 else 2) < 2048
  {
    var all := Inserted(segs, k, piece);
    ConcatInserted(segs, k, piece);
    assert all[|segs|] == segs[|segs| - 1] && all[0..] == all;
    OthersMove(segs, k, piece);
    RoomForAll(all, k, 0, 0);
  }

  lemma InsertHasRoom(text: string, k: nat, line: string)
    requires k < |Segments(text)|
    ensures Room(Inserted(Segments(text), k, line + "\n"), k, 0, 0) <==> |text| + |line| + 1 + Slack(text) < 2048
  {
    SegmentsOfText(text);
    LastOfText(Segments(text));
    RoomForInserted(Segments(text), k, line + "\n");
  }

  /** An insertion succeeds exactly for a line number up to the count when the new text
      leaves as much room behind it; into an empty text it is an appended line. */
  lemma WhenInserted(text: string, lineNo: nat, line: string)
    requires |text| < 2048 && text != ""
    ensures Insert(text, lineNo, line).rc ==
            if lineNo == 0 then -EINVAL
            else if lineNo > 1 + Newlines(text) then -ENOENT
            else
              var added := if lineNo <= |Segments(text)| then |line| + 1 else 0;
              if |text| + added + Slack(text) < 2048 then 0 else -ENOSPC
  {
    LinesAreNewlines(text);
    if 0 < lineNo <= |Segments(text)| {
      InsertHasRoom(text, lineNo - 1, line);
    } else if lineNo > 0 {
      NoSuchLine(text, |Segments(text)|);
    }
  }

  /** The stored segments, the last one given a newline when it has none. */
  function Closed(text: string): seq<string> {
    var segs := Segments(text);
    if text == "" || Terminated(text) then segs else segs[..|segs| - 1] + [segs[|segs| - 1] + "\n"]
  }

  /** A line is appended behind a newline, its own or the one the text ends in, and gets
      none at its end; it succeeds exactly when the new text fits the buffer. */
  lemma WhenAppended(text: string, line: string)
    requires '\n' !in line
    ensures Append(text, line).rc == 0 || Append(text, line) == Outcome(-ENOSPC, text)
    ensures var more := if text == "" || text[|text| - 1] == '\n' then |line| else |line| + 1;
      Append(text, line).rc == 0 <==> |text| + more < 2048
    ensures Append(text, line).rc == 0 ==>
      Segments(Append(text, line).text) == Closed(text) + if line == "" then [] else [line]
  {
    if Append(text, line).rc == 0 {
      AppendedToClosed(text, line);
      ClosedText(text);
      AppendedSegments(Closed(text), line);
    }
  }

  lemma Regroup(a: string, b: string, c: string)
    ensures (a + b) + c == a + (b + c)
  {}

  lemma AppendedToClosed(text: string, line: string)
    requires Append(text, line).rc == 0
    ensures Append(text, line).text == Concat(Closed(text)) + line
  {
    ClosedText(text);
    Regroup(text, "\n", line);
    Regroup(text, "", line);
  }

  lemma AppendedSegments(closed: seq<string>, line: string)
    requires '\n' !in line && forall k :: 0 <= k < |closed| ==> IsSegment(closed[k], false)
    ensures Segments(Concat(closed) + line) == closed + if line == "" then [] else [line]
  {
    if line != "" {
      SegmentsBehind(closed, line);
      OneSegment(line);
      FirstSegment(line, "");
      assert line + "" == line && Segments(line) == [line];
    } else {
      assert Concat(closed) + line == Concat(closed) && closed + [] == closed;
      SegmentsOfConcat(closed);
    }
  }

  lemma ClosedText(text: string)
    ensures Concat(Closed(text)) == text + if text != "" && !Terminated(text) then "\n" else ""
    ensures forall k :: 0 <= k < |Closed(text)| ==> IsSegment(Closed(text)[k], false)
  {
    SegmentsOfText(text);
    if text == "" {
    } else if Terminated(text) {
      LastOfText(Segments(text));
      StoredAreClosed(Segments(text));
      assert text + "" == text;
    } else {
      var segs := Segments(text);
      assert segs == segs[..|segs| - 1] + [segs[|segs| - 1]];
      OpenText(text, segs[..|segs| - 1], segs[|segs| - 1]);
    }
  }

  lemma OpenText(text: string, front: seq<string>, last: string)
    requires Segments(text) == front + [last] && text != "" && !Terminated(text)
    ensures Concat(front + [last + "\n"]) == text + "\n"
    ensures forall k :: 0 <= k < |front| + 1 ==> IsSegment((front + [last + "\n"])[k], false)
  {
    SegmentsOfText(text);
    LastOfText(front + [last]);
    ClosedLast(front, last);
    FrontIsClosed(front, last);
  }

  lemma StoredAreClosed(segs: seq<string>)
    requires AreSegments(segs) && (segs != [] ==> Terminated(segs[|segs| - 1]))
    ensures forall k :: 0 <= k < |segs| ==> IsSegment(segs[k], false)
  {
    forall k | 0 <= k < |segs|
      ensures IsSegment(segs[k], false)
    {
      assert IsSegment(segs[k], k == |segs| - 1);
    }
  }

  lemma FrontIsClosed(front: seq<string>, last: string)
    requires AreSegments(front + [last]) && !Terminated(last)
    ensures forall k :: 0 <= k < |front| + 1 ==> IsSegment((front + [last + "\n"])[k], false)
  {
    var segs, closed := front + [last], front + [last + "\n"];
    forall k | 0 <= k < |closed|
      ensures IsSegment(closed[k], false)
    {
      assert IsSegment(segs[k], k == |front|);
      if k == |front| { OneSegment(last); }
    }
  }

  lemma ClosedLast(front: seq<string>, last: string)
    ensures Concat(front + [last + "\n"]) == Concat(front + [last]) + "\n"
  {
    ConcatAppend(front, [last]);
    ConcatAppend(front, [last + "\n"]);
    assert Concat([last]) == last && Concat([last + "\n"]) == last + "\n";
    Regroup(Concat(front), last, "\n");
  }
}

/** The line editor: one fixed buffer, rebuilt by every operation on a line. The scratch
buffer of an operation is the string of the bytes written to it so far. */
module LineEditor {
  import opened CBuffer
  import opened CString
  import opened Errno
  import opened LineText
  import P = PathSpec

  /** The first `i` pieces, written one behind the other. */
  function Written(pieces: seq<string>, i: nat): string
    requires i <= |pieces|
  {
    if i == 0 then "" else Written(pieces, i - 1) + pieces[i - 1]
  }

  lemma {:induction false} WrittenIsConcat(pieces: seq<string>, i: nat)
    requires i <= |pieces|
    ensures Written(pieces, i) == Concat(pieces[..i])
  {
    if i > 0 {
      WrittenIsConcat(pieces, i - 1);
      assert pieces[..i] == pieces[..i - 1] + [pieces[i - 1]];
      ConcatAppend(pieces[..i - 1], [pieces[i - 1]]);
      assert Concat([pieces[i - 1]]) == pieces[i - 1];
    }
  }

  lemma AllWritten(pieces: seq<string>)
    ensures Written(pieces, |pieces|) == Concat(pieces)
  {
    WrittenIsConcat(pieces, |pieces|);
    assert pieces[..|pieces|] == pieces;
  }

  function EndOfSegment(text: string, src: nat): (next: nat)
    requires src <= |text|
    ensures src <= next <= |text|
  {
    src + SegmentLength(text[src..])
  }

  lemma SegmentAt(text: string, src: nat)
    requires src < |text|
    ensures var end, next := src + LineLength(text[src..]), EndOfSegment(text, src);
      && next == (if end < |text| then end + 1 else end) && Body(text[src..next]) == text[src..end]
      && (Terminated(text[src..next]) <==> end < |text|)
  {
    var s := text[src..];
    var len, next := LineLength(s), EndOfSegment(text, src);
    SegmentInFront(s);
    LineEnds(s);
    assert s[..SegmentLength(s)] == text[src..next] && s[..len] == text[src..src + len];
    assert len < |s| ==> s[len] == text[src + len];
    assert len == |s| ==> text[src..next] == s[..len];
  }

  lemma SplitOff(s: string, segs: seq<string>, i: nat)
    requires i < |segs| && Segments(s) == segs[i..]
    ensures segs[i] == s[..SegmentLength(s)] && Segments(s[SegmentLength(s)..]) == segs[i + 1..]
  {
    assert segs[i..][0] == segs[i] && segs[i..][1..] == segs[i + 1..];
  }

  ghost predicate BehindStand(text: string, segs: seq<string>, src: nat, i: nat) {
    i <= |segs| && src <= |text| && Segments(text[src..]) == segs[i..]
  }

  lemma BehindStandStep(text: string, segs: seq<string>, src: nat, i: nat)
    requires i < |segs| && BehindStand(text, segs, src, i)
    ensures BehindStand(text, segs, src + |segs[i]|, i + 1)
  {
    SplitOff(text[src..], segs, i);
    assert text[src..][|segs[i]|..] == text[src + |segs[i]|..];
  }

  /** Segment `i` stands behind those before it. */
  lemma {:induction false} SegmentsFrom(text: string, segs: seq<string>, i: nat)
    requires BehindStand(text, segs, 0, 0) && i <= |segs|
    ensures BehindStand(text, segs, |Written(segs, i)|, i)
  {
    if i > 0 {
      SegmentsFrom(text, segs, i - 1);
      BehindStandStep(text, segs, |Written(segs, i - 1)|, i - 1);
    }
  }

  /** Where the segments start, and where the last one ends. */
  ghost predicate Starts(text: string, segs: seq<string>, starts: seq<nat>) {
    && |starts| == |segs| + 1 && starts[0] == 0
    && (forall i :: 0 <= i <= |segs| ==> starts[i] <= |text| && (starts[i] == |text| <==> i == |segs|))
    && (forall i :: 0 <= i < |segs| ==> StandsAt(text, segs[i], starts[i], starts[i + 1]))
  }

  ghost predicate StandsAt(text: string, seg: string, src: nat, next: nat) {
    src < |text| && next == EndOfSegment(text, src) && seg == text[src..next]
  }

  lemma StartAt(text: string, segs: seq<string>, starts: seq<nat>, i: nat)
    requires Starts(text, segs, starts) && i <= |segs|
    ensures starts[i] <= |text| && (starts[i] == |text| <==> i == |segs|)
    ensures i < |segs| ==> StandsAt(text, segs[i], starts[i], starts[i + 1])
  {}

  lemma SegmentStands(text: string, segs: seq<string>, i: nat)
    requires segs == Segments(text) && i <= |segs|
    ensures var src := |Written(segs, i)|; src <= |text| && (src == |text| <==> i == |segs|)
    ensures i < |segs| ==> StandsAt(text, segs[i], |Written(segs, i)|, |Written(segs, i + 1)|)
  {
    assert text[0..] == text;
    SegmentsFrom(text, segs, i);
    if i < |segs| {
      var src := |Written(segs, i)|;
      SplitOff(text[src..], segs, i);
      assert text[src..][..SegmentLength(text[src..])] == text[src..EndOfSegment(text, src)];
    }
  }

  lemma SegmentsStart(text: string) returns (starts: seq<nat>)
    ensures Starts(text, Segments(text), starts)
  {
    var segs := Segments(text);
    starts := seq(|segs| + 1, i requires 0 <= i <= |segs| => |Written(segs, i)|);
    forall i | 0 <= i <= |segs|
      ensures starts[i] <= |text| && (starts[i] == |text| <==> i == |segs|)
      ensures i < |segs| ==> StandsAt(text, segs[i], starts[i], starts[i + 1])
    {
      SegmentStands(text, segs, i);
    }
  }

  lemma {:induction false} CharInConcat(pieces: seq<string>, c: char)
    ensures c in Concat(pieces) <==> exists j :: 0 <= j < |pieces| && c in pieces[j]
  {
    if pieces != [] {
      CharInConcat(pieces[1..], c);
      assert forall j :: 0 < j < |pieces| ==> pieces[j] == pieces[1..][j - 1];
    }
  }

  lemma NoNul(text: string, pieces: seq<string>)
    requires NUL !in text
    requires forall j :: 0 <= j < |pieces| ==> pieces[j] in Segments(text) || NUL !in pieces[j]
    ensures NUL !in Concat(pieces)
  {
    SegmentsOfText(text);
    CharInConcat(Segments(text), NUL);
    CharInConcat(pieces, NUL);
  }

  /** The number of segment `i` among the pieces, one put in before segment `k`. */
  function Moved(i: nat, k: nat): nat { if i >= k then i + 1 else i }

  /** What a segment becomes when a line is replaced or removed. */
  function PieceFor(seg: string, edited: bool, line: string, remove: bool): string {
    if !edited then seg else if remove then "" else line + Terminator(seg)
  }

  ghost predicate IsChanged(segs: seq<string>, k: nat, line: string, remove: bool, pieces: seq<string>) {
    |pieces| == |segs| && forall i :: 0 <= i < |segs| ==> pieces[i] == PieceFor(segs[i], i == k, line, remove)
  }

  /** How many pieces are written when the loop stands at segment `i`. */
  function Shifted(i: nat, k: nat): nat { if i > k then i + 1 else i }

  /** The pieces of an insertion; none is inserted behind the last segment. */
  ghost predicate IsInserted(segs: seq<string>, k: nat, piece: string, pieces: seq<string>) {
    && k <= |segs| && |pieces| == |segs| + (if k < |segs| then 1 else 0)
    && (k < |segs| ==> pieces[k] == piece)
    && forall i :: 0 <= i < |segs| ==> pieces[Moved(i, k)] == segs[i]
  }

  lemma PieceAt(segs: seq<string>, k: nat, piece: string, pieces: seq<string>, i: nat)
    requires IsInserted(segs, k, piece, pieces) && i < |segs|
    ensures Moved(i, k) < |pieces| && pieces[Moved(i, k)] == segs[i] && (i == k ==> pieces[k] == piece)
  {}

  /** The pieces the copying loop writes when segment `k` becomes `piece`. */
  function Pieces(segs: seq<string>, k: nat, piece: string): seq<string> {
    if k < |segs| then segs[k := piece] else segs
  }

  lemma InsertedAreInserted(segs: seq<string>, k: nat, piece: string)
    requires k <= |segs|
    ensures IsInserted(segs, k, piece, if k < |segs| then Inserted(segs, k, piece) else segs)
  {}

  /** What an insertion into a text with lines comes to. */
  lemma InsertPlan(text: string, lineNo: nat, line: string) returns (segs: seq<string>, pieces: seq<string>)
    requires 0 < lineNo <= LineCount(text) && NUL !in text && NUL !in line
    ensures segs == Segments(text) && lineNo <= |segs| + 1
    ensures IsInserted(segs, lineNo - 1, line + "\n", pieces)
    ensures Insert(text, lineNo, line) == Rewritten(text, pieces, lineNo - 1)
    ensures NUL !in Concat(pieces)
  {
    segs := Segments(text);
    pieces := if lineNo <= |segs| then Inserted(segs, lineNo - 1, line + "\n") else segs;
    InsertedAreInserted(segs, lineNo - 1, line + "\n");
    NoNul(text, pieces);
    assert lineNo <= |segs| + 1;
  }

  /** The copying loop in front of piece `i`: what it wrote, and whether there is room for
      all that it will write. */
  ghost predicate Copied(pieces: seq<string>, edited: nat, room: bool, i: nat, updated: string) {
    && i <= |pieces| && |updated| < BUFFER_SIZE && updated == Written(pieces, i)
    && (room <==> Room(pieces, edited, i, |updated|))
  }

  lemma CopiedOneMore(pieces: seq<string>, edited: nat, room: bool, i: nat, updated: string)
    requires i < |pieces| && Copied(pieces, edited, room, i, updated)
    ensures |updated| + Needed(pieces[i], i == edited) < BUFFER_SIZE ==>
      Copied(pieces, edited, room, i + 1, updated + pieces[i])
    ensures |updated| + Needed(pieces[i], i == edited) >= BUFFER_SIZE ==> !room
  {}

  const MAX_PATH := 128

  class LineEditor {
    const buffer: array<char>
    var open: bool
    var dirty: bool
    ghost var text: string

    /** The buffer holds the text and its terminator. */
    ghost predicate Valid()
      reads this, buffer
    {
      && buffer.Length == BUFFER_SIZE && |text| < BUFFER_SIZE && NUL !in text
      && buffer[|text|] == NUL && forall k :: 0 <= k < |text| ==> buffer[k] == text[k]
    }

    constructor ()
      ensures Valid() && fresh(buffer) && !open && !dirty && text == ""
    {
      buffer := new char[BUFFER_SIZE](_ => NUL);
      open, dirty, text := false, false, "";
    }

    /** Open, where `file` is what looking up and reading the resolved path gives: its bytes, of
        which the editor sees those before the first NUL, or an error. A missing file is empty. */
    method Open(path: string, file: Result<string>) returns (rc: int)
      requires Valid() && (file.Err? ==> file.code < 0)
      modifies this, buffer
      ensures Valid()
      ensures rc == if path == "" then -EINVAL
                    else if P.Managed(path, MAX_PATH).Err? then P.Managed(path, MAX_PATH).code
                    else match file
                         case Ok(bytes) => if |bytes| + 1 > BUFFER_SIZE then -ENOSPC else 0
                         case Err(code) => if code == -ENOENT then 0 else code
      ensures rc == 0 ==> open && !dirty && text == if file.Ok? then CText(file.value) else ""
      ensures rc != 0 ==> open == old(open) && dirty == old(dirty) && text == old(text)
    {
      if path == "" {
        return -EINVAL;
      }
      var resolved := P.Managed(path, MAX_PATH);
      if resolved.Err? {
        return resolved.code;
      }
      match file {
        case Ok(bytes) =>
          if |bytes| + 1 > BUFFER_SIZE {
            return -ENOSPC;
          }
          ReadInto(bytes);
        case Err(code) =>
          if code != -ENOENT {
            return code;
          }
          buffer[0] := NUL;
          text := "";
      }
      open, dirty := true, false;
      rc := 0;
    }

    /** The bytes of a file and a terminator behind them. */
    method ReadInto(bytes: string)
      requires buffer.Length == BUFFER_SIZE && |bytes| < BUFFER_SIZE
      modifies `text, buffer
      ensures Valid() && text == CText(bytes)
    {
      var fits := Print(buffer, 0, bytes);
      CTextHasNoNul(bytes);
      CTextIsPrefix(bytes);
      assert forall k :: 0 <= k < |bytes| ==> buffer[k] == buffer[..0 + |bytes|][k];
      text := CText(bytes);
    }

    method EndOfLine(from: nat) returns (end: nat)
      requires Valid() && from <= |text|
      ensures end == from + LineLength(text[from..])
      ensures buffer[end] == (if end < |text| then '\n' else NUL)
    {
      end := from;
      while buffer[end] != NUL && buffer[end] != '\n'
        invariant from <= end <= |text| && end + LineLength(text[end..]) == from + LineLength(text[from..])
        decreases |text| - end
      {
        assert text[end..][0] == buffer[end] && text[end..][1..] == text[end + 1..];
        end := end + 1;
      }
      assert end < |text| ==> text[end..][0] == buffer[end];
    }

    /** The new line of a replacement or insertion. */
    static method PutLine(updated: string, line: string, newline: bool) returns (fits: bool, updated1: string)
      requires |updated| < BUFFER_SIZE
      ensures fits <==> |updated| + |line| + (if newline then 1 else 0) < BUFFER_SIZE
      ensures fits ==> updated1 == updated + (line + if newline then "\n" else "")
    {
      fits, updated1 := |line| < BUFFER_SIZE - |updated|, updated + line;
      if fits && newline {
        if |updated1| + 1 >= BUFFER_SIZE {
          return false, updated;
        }
        updated1 := updated1 + "\n";
      }
    }

    /** A line that stays, with its newline if it has one. */
    method CopyLine(updated: string, from: nat, len: nat, newline: bool) returns (fits: bool, updated1: string)
      requires Valid() && from + len + (if newline then 1 else 0) <= |text|
      requires newline ==> text[from + len] == '\n'
      ensures fits <==> |updated| + len + 2 < BUFFER_SIZE
      ensures fits ==> updated1 == updated + text[from..from + len + if newline then 1 else 0]
    {
      if |updated| + len + 2 >= BUFFER_SIZE {
        return false, updated;
      }
      fits, updated1 := true, updated + buffer[from..from + len];
      if newline {
        updated1 := updated1 + "\n";
      }
    }

    /** The rebuilt text takes the place of the old one. */
    method Install(updated: string)
      requires buffer.Length == BUFFER_SIZE && |updated| < BUFFER_SIZE && NUL !in updated
      modifies this, buffer
      ensures Valid() && open == old(open) && dirty && text == updated
    {
      var fits := Print(buffer, 0, updated);
      assert forall k :: 0 <= k < |updated| ==> buffer[k] == buffer[..0 + |updated|][k];
      dirty, text := true, updated;
    }

    /** One round of a copying loop: the segment at `src` is changed or copied. */
    method CopySegment(updated: string, src: nat, edited: bool, line: string, remove: bool)
      returns (fits: bool, updated1: string, next: nat)
      requires Valid() && |updated| < BUFFER_SIZE && src < |text|
      ensures next == EndOfSegment(text, src)
      ensures var seg := text[src..next];
        var piece := PieceFor(seg, edited, line, remove);
        && (fits <==> |updated| + Needed(piece, edited) < BUFFER_SIZE)
        && (fits ==> updated1 == updated + piece)
    {
      SegmentAt(text, src);
      var end := EndOfLine(src);
      var hasNewline := buffer[end] == '\n';
      next := if hasNewline then end + 1 else end;
      fits, updated1 := true, updated;
      if edited {
        if !remove {
          fits, updated1 := PutLine(updated, line, hasNewline);
        }
      } else {
        fits, updated1 := CopyLine(updated, src, end - src, hasNewline);
      }
    }

    /** One round, with what the loop knows before and after it: segment `seg`
        becomes piece `j`. */
    method CopyNext(updated: string, src: nat, edited: bool, line: string, remove: bool,
        ghost seg: string, ghost behind: nat, ghost pieces: seq<string>, ghost k: nat, ghost room: bool, ghost j: nat)
      returns (fits: bool, updated1: string, next: nat)
      requires Valid() && StandsAt(text, seg, src, behind) && Copied(pieces, k, room, j, updated)
      requires j < |pieces| && (edited <==> j == k)
      requires pieces[j] == PieceFor(seg, edited, line, remove)
      ensures fits ==> next == behind && Copied(pieces, k, room, j + 1, updated1)
      ensures !fits ==> !room
    {
      CopiedOneMore(pieces, k, room, j, updated);
      fits, updated1, next := CopySegment(updated, src, edited, line, remove);
    }

    /** The copying loop of a replacement or deletion. */
    method Rebuild(lineNo: nat, line: string, remove: bool,
        ghost segs: seq<string>, ghost starts: seq<nat>, ghost pieces: seq<string>, ghost room: bool)
      returns (fits: bool, updated: string, touched: bool)
      requires Valid() && lineNo > 0 && Starts(text, segs, starts)
      requires Copied(pieces, lineNo - 1, room, 0, "")
      requires IsChanged(segs, lineNo - 1, line, remove, pieces)
      ensures fits <==> room
      ensures fits ==>
        |updated| < BUFFER_SIZE && updated == Written(pieces, |pieces|) && (touched <==> lineNo <= |pieces|)
    {
      var src: nat, current: nat := 0, 1;
      ghost var i: nat := 0;
      updated, touched := "", false;
      while buffer[src] != NUL
        invariant current == i + 1 && i <= |segs| && src == starts[i]
        invariant Copied(pieces, lineNo - 1, room, i, updated)
        invariant touched <==> lineNo <= i
        decreases |segs| - i
      {
        fits, updated, src := CopyNext(updated, src, current == lineNo, line, remove,
          segs[i], starts[i + 1], pieces, lineNo - 1, room, i);
        if !fits {
          return;
        }
        if current == lineNo { touched := true; }
        i := i + 1;
        current := current + 1;
      }
      fits := true;
    }

    /** Only called to replace a line or to remove it. */
    method Rewrite(lineNo: nat, line: string, remove: bool) returns (rc: int)
      requires Valid() && NUL !in line
      modifies this, buffer
      ensures Valid() && open == old(open) && dirty == (old(dirty) || rc == 0)
      ensures Outcome(rc, text) ==
        if !open then Outcome(-EINVAL, old(text))
        else if remove then Delete(old(text), lineNo)
        else Replace(old(text), lineNo, line)
    {
      if !open || lineNo == 0 {
        return -EINVAL;
      }
      ghost var segs := Segments(text);
      ghost var piece := if remove || lineNo > |segs| then "" else line + Terminator(segs[lineNo - 1]);
      ghost var pieces := Pieces(segs, lineNo - 1, piece);
      ghost var starts := SegmentsStart(text);
      var fits, updated, touched := Rebuild(lineNo, line, remove, segs, starts, pieces, Room(pieces, lineNo - 1, 0, 0));
      if !fits {
        return -ENOSPC;
      }
      if !touched {
        return -ENOENT;
      }
      AllWritten(pieces);
      NoNul(text, pieces);
      Install(updated);
      rc := 0;
    }

    method ReplaceLine(lineNo: nat, line: string) returns (rc: int)
      requires Valid() && NUL !in line
      modifies this, buffer
      ensures Valid() && open == old(open) && dirty == (old(dirty) || rc == 0)
      ensures Outcome(rc, text) == if open then Replace(old(text), lineNo, line) else Outcome(-EINVAL, old(text))
    {
      rc := Rewrite(lineNo, line, false);
    }

    method DeleteLine(lineNo: nat) returns (rc: int)
      requires Valid()
      modifies this, buffer
      ensures Valid() && open == old(open) && dirty == (old(dirty) || rc == 0)
      ensures Outcome(rc, text) == if open then Delete(old(text), lineNo) else Outcome(-EINVAL, old(text))
    {
      rc := Rewrite(lineNo, "", true);
    }

    method AppendLine(line: string) returns (rc: int)
      requires Valid() && NUL !in line
      modifies this, buffer
      ensures Valid() && open == old(open) && dirty == (old(dirty) || rc == 0)
      ensures Outcome(rc, text) == if open then Append(old(text), line) else Outcome(-EINVAL, old(text))
    {
      if !open {
        return -EINVAL;
      }
      var currentLen := StrLen();
      var needsNewline := currentLen > 0 && buffer[currentLen - 1] != '\n';
      ghost var added := (if needsNewline then "\n" else "") + line;
      if currentLen + |line| + (if needsNewline then 1 else 0) + 1 > BUFFER_SIZE {
        return -ENOSPC;
      }
      if needsNewline {
        buffer[currentLen] := '\n';
        currentLen := currentLen + 1;
      }
      ghost var front := buffer[..currentLen];
      assert front == text + if needsNewline then "\n" else "";
      var fits := Print(buffer, currentLen, line);
      assert buffer[..currentLen + |line|] == front + line == text + added;
      dirty, text := true, text + added;
      rc := 0;
    }

    method StrLen() returns (len: nat)
      requires Valid()
      ensures len == |text|
    {
      len := 0;
      while buffer[len] != NUL
        invariant len <= |text|
        decreases |text| - len
      {
        len := len + 1;
      }
    }

    method GetLineCount() returns (lines: nat)
      requires Valid()
      ensures lines == if open then LineCount(text) else 0
    {
      if !open || buffer[0] == NUL {
        return 0;
      }
      lines := 1;
      var i: nat := 0;
      assert text[0..] == text;
      while buffer[i] != NUL
        invariant i <= |text| && lines + Newlines(text[i..]) == 1 + Newlines(text)
        decreases |text| - i
      {
        assert text[i..][0] == buffer[i] && text[i..][1..] == text[i + 1..];
        if buffer[i] == '\n' {
          lines := lines + 1;
        }
        i := i + 1;
      }
      LinesAreNewlines(text);
    }

    /** One round of the inserting loop: the new line, when segment `i` is the one it goes in
        front of, and the segment. */
    method InsertNext(updated: string, src: nat, here: bool, line: string,
        ghost seg: string, ghost behind: nat, ghost pieces: seq<string>, ghost k: nat, ghost room: bool, ghost i: nat)
      returns (fits: bool, updated1: string, next: nat)
      requires Valid() && StandsAt(text, seg, src, behind) && Copied(pieces, k, room, Shifted(i, k), updated)
      requires here <==> i == k
      requires Moved(i, k) < |pieces| && pieces[Moved(i, k)] == seg && (here ==> pieces[k] == line + "\n")
      ensures fits ==> next == behind && Copied(pieces, k, room, Shifted(i + 1, k), updated1)
      ensures !fits ==> !room
    {
      updated1, next := updated, src;
      if here {
        CopiedOneMore(pieces, k, room, k, updated);
        fits, updated1 := PutLine(updated, line, true);
        if !fits {
          return;
        }
      }
      fits, updated1, next := CopyNext(updated1, src, false, line, false, seg, behind, pieces, k, room, Moved(i, k));
    }

    method RebuildWith(lineNo: nat, line: string,
        ghost segs: seq<string>, ghost starts: seq<nat>, ghost pieces: seq<string>, ghost room: bool)
      returns (fits: bool, updated: string)
      requires Valid() && 0 < lineNo <= |segs| + 1 && Copied(pieces, lineNo - 1, room, 0, "")
      requires Starts(text, segs, starts) && IsInserted(segs, lineNo - 1, line + "\n", pieces)
      ensures fits <==> room
      ensures fits ==> |updated| < BUFFER_SIZE && updated == Written(pieces, |pieces|)
    {
      var src: nat, current: nat := 0, 1;
      ghost var i: nat := 0;
      updated := "";
      while buffer[src] != NUL
        invariant current == i + 1 && i <= |segs| && src == starts[i]
        invariant Copied(pieces, lineNo - 1, room, Shifted(i, lineNo - 1), updated)
        decreases |segs| - i
      {
        StartAt(text, segs, starts, i);
        PieceAt(segs, lineNo - 1, line + "\n", pieces, i);
        fits, updated, src := InsertNext(updated, src, current == lineNo, line,
          segs[i], starts[i + 1], pieces, lineNo - 1, room, i);
        if !fits {
          return;
        }
        i := i + 1;
        current := current + 1;
      }
      fits := true;
    }

    method InsertLine(lineNo: nat, line: string) returns (rc: int)
      requires Valid() && NUL !in line
      modifies this, buffer
      ensures Valid() && open == old(open) && dirty == (old(dirty) || rc == 0)
      ensures Outcome(rc, text) == if open then Insert(old(text), lineNo, line) else Outcome(-EINVAL, old(text))
    {
      if !open || lineNo == 0 {
        return -EINVAL;
      }
      var count := GetLineCount();
      if lineNo == 1 && count == 0 {
        rc := AppendLine(line);
        return;
      }
      if lineNo > count {
        return -ENOENT;
      }
      ghost var starts := SegmentsStart(text);
      ghost var segs, pieces := InsertPlan(text, lineNo, line);
      var fits, updated := RebuildWith(lineNo, line, segs, starts, pieces, Room(pieces, lineNo - 1, 0, 0));
      if !fits {
        return -ENOSPC;
      }
      AllWritten(pieces);
      Install(updated);
      rc := 0;
    }

    /** One line, cut to the buffer it is read into. */
    method CopyLineRange(dst: array<char>, lineIndex: nat) returns (rc: int, len: nat)
      requires Valid() && dst != buffer
      modifies dst
      ensures rc == if !open || dst.Length == 0 then -EINVAL else if LineOf(text, lineIndex) == None then -ENOENT else 0
      ensures rc == 0 ==>
        var line := LineOf(text, lineIndex).value;
        && len == (if |line| < dst.Length then |line| else dst.Length - 1)
        && dst[..len] == line[..len] && dst[len] == NUL
      ensures rc != 0 ==> dst[..] == old(dst[..])
    {
      if !open || dst.Length == 0 {
        return -EINVAL, 0;
      }
      LineAtIsLineOf(text, lineIndex);
      var current: nat, src: nat := 1, 0;
      assert text[0..] == text;
      while buffer[src] != NUL && current < lineIndex
        invariant src <= |text| && 1 <= current && (lineIndex > 0 ==> current <= lineIndex)
        invariant lineIndex > 0 ==> LineAt(text[src..], lineIndex - current + 1) == LineAt(text, lineIndex)
        decreases |text| - src
      {
        assert text[src..][0] == buffer[src] && text[src..][1..] == text[src + 1..];
        if buffer[src] == '\n' {
          current := current + 1;
        }
        src := src + 1;
      }
      if current != lineIndex {
        return -ENOENT, 0;
      }
      rc, len := CopyToNewline(dst, src);
    }

    method CopyToNewline(dst: array<char>, from: nat) returns (rc: int, len: nat)
      requires Valid() && dst != buffer && dst.Length > 0 && from <= |text|
      modifies dst
      ensures rc == 0
      ensures len == if LineLength(text[from..]) < dst.Length then LineLength(text[from..]) else dst.Length - 1
      ensures dst[..len] == text[from..][..len] && dst[len] == NUL
    {
      len := 0;
      while buffer[from + len] != NUL && buffer[from + len] != '\n' && len + 1 < dst.Length
        invariant from + len <= |text| && len < dst.Length
        invariant forall k :: 0 <= k < len ==> dst[k] == text[from + k]
        invariant len + LineLength(text[from + len..]) == LineLength(text[from..])
        decreases |text| - from - len
      {
        ghost var rest := text[from + len..];
        assert rest[0] == buffer[from + len] && rest[1..] == text[from + len + 1..];
        dst[len] := buffer[from + len];
        len := len + 1;
      }
      if len >= dst.Length {
        return -ENOSPC, len;
      }
      ghost var rest := text[from + len..];
      assert rest != "" ==> rest[0] == buffer[from + len];
      dst[len] := NUL;
      rc := 0;
    }
  }
}

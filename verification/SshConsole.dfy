/** Reading a command line: the keys' edits, made in place in the caller's buffer. */
module SshConsole {
  import opened CBuffer
  import opened CString
  import opened Errno
  import opened SshLine

  lemma Spliced(was: string, at: nat, word: string, now: string)
    requires at <= |was| && |now| == |was| + |word|
    requires forall k {:trigger now[k]} :: 0 <= k < |now| ==>
      now[k] == if k < at then was[k] else if k < at + |word| then word[k - at] else was[k - |word|]
    ensures now == was[..at] + word + was[at..]
  {}

  class CommandLine {
    const buffer: array<char>
    const history: seq<string>
    const complete: string -> string
    var offset: nat
    var cursor: nat
    var historyIndex: nat
    var draftSaved: bool
    var draft: string

    ghost function Text(): string
      requires offset <= buffer.Length
      reads this, buffer
    {
      buffer[..offset]
    }

    ghost function Content(): Line
      requires offset <= buffer.Length
      reads this, buffer
    {
      Line(Text(), cursor, historyIndex, draftSaved, draft)
    }

    ghost predicate Valid()
      reads this, buffer
    {
      offset < buffer.Length && Content().Valid(history, buffer.Length) && buffer[offset] == NUL
    }

    constructor (buffer: array<char>, history: seq<string>, complete: string -> string)
      requires buffer.Length >= 2
      modifies buffer
      ensures this.buffer == buffer && this.history == history && this.complete == complete
      ensures Valid() && Content() == Start(history)
    {
      this.buffer, this.history, this.complete := buffer, history, complete;
      offset, cursor, historyIndex, draftSaved, draft := 0, 0, |history|, false, "";
      new;
      buffer[0] := NUL;
      StartIsValid(history, buffer.Length);
      assert Text() == "";
    }

    /** memmove within the buffer. */
    method Move(to: nat, from: nat, count: nat)
      requires to + count <= buffer.Length && from + count <= buffer.Length
      modifies buffer
      ensures forall k :: 0 <= k < buffer.Length ==>
        buffer[k] == if to <= k < to + count then old(buffer[from + k - to]) else old(buffer[k])
    {
      forall k | 0 <= k < count {
        buffer[to + k] := buffer[from + k];
      }
    }

    /** memcpy into the buffer. */
    method Put(at: nat, word: string)
      requires at + |word| <= buffer.Length
      modifies buffer
      ensures forall k :: 0 <= k < buffer.Length ==>
        buffer[k] == if at <= k < at + |word| then word[k - at] else old(buffer[k])
    {
      forall k | 0 <= k < |word| {
        buffer[at + k] := word[k];
      }
    }

    /** Makes room at the cursor and puts a word there. */
    method Splice(word: string)
      requires Valid() && offset + |word| < buffer.Length
      modifies `offset, `cursor, buffer
      ensures offset == old(offset) + |word| < buffer.Length && buffer[offset] == NUL && cursor == old(cursor) + |word|
      ensures Text() == old(Text())[..old(cursor)] + word + old(Text())[old(cursor)..]
    {
      ghost var was, at := Text(), cursor;
      Move(cursor + |word|, cursor, offset - cursor + 1);
      Put(cursor, word);
      cursor, offset := cursor + |word|, offset + |word|;
      Spliced(was, at, word, Text());
    }

    /** Closes the gap that a removed character leaves. */
    method RemoveAt(at: nat)
      requires Valid() && at < offset
      modifies `offset, buffer
      ensures offset == old(offset) - 1 && buffer[offset] == NUL
      ensures Text() == old(Text())[..at] + old(Text())[at + 1..]
    {
      Move(at, at + 1, offset - at);
      offset := offset - 1;
      buffer[offset] := NUL;
    }

    /** snprintf of a whole line. */
    method Show(index: nat, text: string)
      requires Valid() && index <= |history| && (index < |history| ==> draftSaved)
      modifies `offset, `cursor, `historyIndex, buffer
      ensures Valid() && Content() == SshLine.Show(old(Content()), index, text, buffer.Length)
    {
      var fits := Print(buffer, 0, text);
      offset := if fits then |text| else buffer.Length - 1;
      assert buffer[..0 + offset] == Truncate(text, buffer.Length) by {
        assert buffer[0..buffer.Length - 1] == buffer[..buffer.Length - 1];
      }
      cursor, historyIndex := offset, index;
    }

    method InsertChar(ch: char)
      requires Valid() && Open(Content(), buffer.Length)
      modifies `offset, `cursor, buffer
      ensures Valid() && Content() == Press(old(Content()), Char(ch), history, buffer.Length, complete)
    {
      Splice([ch]);
    }

    method Backspace()
      requires Valid() && Open(Content(), buffer.Length)
      modifies `offset, `cursor, buffer
      ensures Valid() && Content() == Press(old(Content()), Key.Backspace, history, buffer.Length, complete)
    {
      if cursor > 0 {
        RemoveAt(cursor - 1);
        cursor := cursor - 1;
      }
    }

    method Delete()
      requires Valid() && Open(Content(), buffer.Length)
      modifies `offset, buffer
      ensures Valid() && Content() == Press(old(Content()), Key.Delete, history, buffer.Length, complete)
    {
      if cursor < offset {
        RemoveAt(cursor);
      }
    }

    method Complete()
      requires Valid() && Open(Content(), buffer.Length)
      modifies `offset, `cursor, buffer
      ensures Valid() && Content() == Press(old(Content()), Tab, history, buffer.Length, complete)
    {
      var word := complete(buffer[..offset]);
      if word != "" && offset + |word| < buffer.Length - 1 {
        Splice(word);
      }
    }

    method SaveDraft()
      requires Valid() && Open(Content(), buffer.Length)
      modifies `draftSaved, `draft
      ensures Valid() && Content() == Saved(old(Content()))
    {
      if !draftSaved {
        draftSaved, draft := true, Truncate(buffer[..offset], DRAFT_SIZE);
      }
    }

    method Up()
      requires Valid() && Open(Content(), buffer.Length)
      modifies this, buffer
      ensures Valid() && Content() == Press(old(Content()), Key.Up, history, buffer.Length, complete)
    {
      SaveDraft();
      if historyIndex > 0 {
        Show(historyIndex - 1, history[historyIndex - 1]);
      }
    }

    method Down()
      requires Valid() && Open(Content(), buffer.Length)
      modifies this, buffer
      ensures Valid() && Content() == Press(old(Content()), Key.Down, history, buffer.Length, complete)
    {
      if historyIndex < |history| {
        var index := historyIndex + 1;
        if index == |history| && draftSaved {
          Show(index, draft);
        } else {
          Show(index, history[index]);
        }
      }
    }

    method MoveCursor(key: Key)
      requires Valid() && Open(Content(), buffer.Length)
      requires key.Home? || key.End? || key.Left? || key.Right? || key.Ignored?
      modifies `cursor
      ensures Valid() && Content() == Press(old(Content()), key, history, buffer.Length, complete)
    {
      match key {
        case Home => cursor := 0;
        case End => cursor := offset;
        case Right => if cursor < offset { cursor := cursor + 1; }
        case Left => if cursor > 0 { cursor := cursor - 1; }
        case _ =>
      }
    }

    /** One key other than Enter. */
    method HandleKey(key: Key)
      requires Valid() && Open(Content(), buffer.Length) && key != Enter
      modifies this, buffer
      ensures Valid() && Content() == Press(old(Content()), key, history, buffer.Length, complete)
    {
      match key {
        case Char(c) => InsertChar(c);
        case Backspace => Backspace();
        case Delete => Delete();
        case Tab => Complete();
        case Up => Up();
        case Down => Down();
        case Home | End | Left | Right | Ignored => MoveCursor(key);
      }
    }

    /** The reading loop: bytes until a line is complete. When they run out, the stream
        answers `status` from then on. */
    method ReadKeys(input: string, status: int) returns (rc: int)
      requires Valid() && status <= 0
      modifies this, buffer
      ensures var r := Read(old(Content()), input, history, buffer.Length, complete);
        && (r == None ==> rc == if status == 0 then -EIO else status)
        && (r.Some? ==> rc == |r.value| < buffer.Length && buffer[..rc] == r.value && buffer[rc] == NUL)
    {
      var rest := input;
      while offset + 1 < buffer.Length
        invariant Valid()
        invariant Read(Content(), rest, history, buffer.Length, complete)
               == Read(old(Content()), input, history, buffer.Length, complete)
        decreases |rest|
      {
        if rest == "" {
          return if status == 0 then -EIO else status;
        }
        var (key, behind) := NextKey(rest);
        if key == Enter {
          break;
        }
        HandleKey(key);
        rest := behind;
      }
      rc := offset;
    }
  }

  /** ReadCommandLine on the caller's buffer: the line as a C string in it, and its length. */
  method ReadCommandLine(buffer: array<char>, history: seq<string>, complete: string -> string,
      input: string, status: int)
    returns (rc: int)
    requires status <= 0
    modifies buffer
    ensures buffer.Length < 2 ==> rc == -EINVAL && buffer[..] == old(buffer[..])
    ensures buffer.Length >= 2 ==>
      var r := Read(Start(history), input, history, buffer.Length, complete);
      && (r == None ==> rc == if status == 0 then -EIO else status)
      && (r.Some? ==> rc == |r.value| < buffer.Length && buffer[..rc] == r.value && buffer[rc] == NUL)
  {
    if buffer.Length < 2 {
      return -EINVAL;
    }
    var line := new CommandLine(buffer, history, complete);
    rc := line.ReadKeys(input, status);
  }
}

/** ResolvePath and the cd command, on the buffers they work in. */
module PathResolver {
  import opened CBuffer
  import opened CString
  import opened Errno
  import opened PathSpec

  const CWD_SIZE: nat := 128

  /** The text before it is split, cut to the scratch buffer. */
  method Combine(cwd: string, input: string) returns (rc: int, scratch: string)
    ensures Combined(cwd, input).Err? ==> rc == Combined(cwd, input).code
    ensures Combined(cwd, input).Ok? ==> rc == 0 && scratch == Truncate(Combined(cwd, input).value, COMBINED_SIZE)
  {
    var source := if input == "" then cwd else input;
    var text := "";
    if source != "" && source[0] == '/' {
      text := source;
    } else if source != "" && source[0] == '~' {
      if |source| == 1 {
        text := "/root";
      } else if source[1] == '/' {
        text := "/root/" + source[2..];
      } else {
        return -EINVAL, "";
      }
    } else if cwd == "/" {
      text := "/" + source;
    } else {
      text := cwd + "/" + source;
    }
    var combined := new char[COMBINED_SIZE];
    var fits := Print(combined, 0, text);
    assert fits ==> combined[..|text|] == text;
    assert !fits ==> combined[..COMBINED_SIZE - 1] == combined[0..COMBINED_SIZE - 1];
    rc, scratch := 0, combined[..if fits then |text| else COMBINED_SIZE - 1];
  }

  /** strtok: the next piece from `start` on, and the position behind it. */
  method NextToken(scratch: string, start: nat) returns (token: string, next: nat)
    requires start <= |scratch|
    ensures start <= next <= |scratch|
    ensures token == "" ==> Tokens("", scratch[start..]) == []
    ensures token != "" ==> start < next && Tokens("", scratch[start..]) == [token] + Tokens("", scratch[next..])
  {
    var from := start;
    while from < |scratch| && scratch[from] == '/'
      invariant start <= from <= |scratch| && Tokens("", scratch[from..]) == Tokens("", scratch[start..])
    {
      assert scratch[from..][1..] == scratch[from + 1..];
      assert [] + Tokens("", scratch[from + 1..]) == Tokens("", scratch[from + 1..]);
      from := from + 1;
    }
    next := from;
    assert scratch[from..from] == "";
    while next < |scratch| && scratch[next] != '/'
      invariant from <= next <= |scratch|
      invariant Tokens(scratch[from..next], scratch[next..]) == Tokens("", scratch[start..])
    {
      assert scratch[next..][1..] == scratch[next + 1..];
      assert scratch[from..next + 1] == scratch[from..next] + [scratch[next]];
      next := next + 1;
    }
    token := scratch[from..next];
    if next < |scratch| {
      assert scratch[next..][1..] == scratch[next + 1..];
      assert [] + Tokens("", scratch[next + 1..]) == Tokens("", scratch[next..]);
    } else {
      assert [token] + [] == [token];
    }
  }

  /** The loop over the pieces: a stack of at most sixteen names in a fixed array. */
  method WalkSegments(scratch: string) returns (rc: int, names: seq<string>)
    ensures Walk([], Tokens("", scratch)).Err? ==> rc == -ENOSPC
    ensures Walk([], Tokens("", scratch)).Ok? ==> rc == 0 && Walk([], Tokens("", scratch)) == Ok(names)
  {
    var segments := new string[MAX_SEGMENTS](_ => "");
    var count := 0;
    var cursor := 0;
    assert scratch[0..] == scratch;
    while true
      invariant count <= MAX_SEGMENTS && cursor <= |scratch|
      invariant Walk(segments[..count], Tokens("", scratch[cursor..])) == Walk([], Tokens("", scratch))
      decreases |scratch| - cursor
    {
      var token, next := NextToken(scratch, cursor);
      if token == "" {
        break;
      }
      ghost var stack, rest := segments[..count], Tokens("", scratch[next..]);
      assert ([token] + rest)[1..] == rest;
      cursor := next;
      if token == "." {
        continue;
      }
      if token == ".." {
        if count > 0 {
          count := count - 1;
        }
        assert segments[..count] == if stack == [] then [] else stack[..|stack| - 1];
        continue;
      }
      if count >= MAX_SEGMENTS {
        return -ENOSPC, [];
      }
      segments[count] := token;
      count := count + 1;
      assert segments[..count] == stack + [token];
    }
    rc, names := 0, segments[..count];
  }

  lemma {:induction false} JoinSnoc(names: seq<string>, last: string)
    ensures Join(names + [last]) == Join(names) + (if names == [] then "" else "/") + last
  {
    if names == [] {
      assert names + [last] == [last];
    } else {
      assert (names + [last])[1..] == names[1..] + [last];
      JoinSnoc(names[1..], last);
      if names[1..] == [] {
        assert Join(names) == names[0] + "";
      }
    }
  }

  lemma {:induction false} JoinGrows(names: seq<string>, i: nat)
    requires i <= |names|
    ensures |Join(names[..i])| <= |Join(names)|
    decreases |names| - i
  {
    if i == |names| {
      assert names[..i] == names;
    } else {
      assert names[..i + 1] == names[..i] + [names[i]];
      JoinSnoc(names[..i], names[i]);
      JoinGrows(names, i + 1);
    }
  }

  /** Writes the names behind a slash; the buffer needs room for the slash and the end. */
  method WriteOut(names: seq<string>, output: array<char>) returns (rc: int)
    requires output.Length >= 2 && Names(names)
    modifies output
    ensures rc == 0 <==> |Render(names)| < output.Length
    ensures rc == 0 ==> output[..|Render(names)|] == Render(names) && output[|Render(names)|] == NUL
    ensures rc != 0 ==> rc == -ENOSPC
  {
    output[0] := '/';
    output[1] := NUL;
    var offset := 1;
    for i := 0 to |names|
      invariant offset == |Render(names[..i])| < output.Length
      invariant output[..offset] == Render(names[..i]) && output[offset] == NUL
    {
      assert names[..i + 1] == names[..i] + [names[i]];
      JoinSnoc(names[..i], names[i]);
      JoinGrows(names, i + 1);
      var text := (if i == 0 then "" else "/") + names[i];
      assert Render(names[..i]) + text == Render(names[..i + 1]);
      var fits := Print(output, offset, text);
      if !fits {
        return -ENOSPC;
      }
      offset := offset + |text|;
    }
    assert names[..|names|] == names;
    rc := 0;
  }

  /** `len` is the length of the C string in the output. An output of one byte, which no
      caller passes, would be overrun. */
  method ResolvePath(cwd: string, input: string, output: array<char>) returns (rc: int, len: nat)
    requires output.Length != 1
    modifies output
    ensures rc == 0 <==> Resolve(cwd, input, output.Length).Ok?
    ensures rc == 0 ==>
      var path := Resolve(cwd, input, output.Length).value;
      len == |path| < output.Length && output[..len] == path && output[len] == NUL && Canonical(path)
    ensures rc != 0 ==> Resolve(cwd, input, output.Length) == Err(rc)
  {
    if output.Length == 0 {
      return -EINVAL, 0;
    }
    var scratch;
    len := 0;
    rc, scratch := Combine(cwd, input);
    if rc != 0 {
      return;
    }
    var names;
    rc, names := WalkSegments(scratch);
    if rc != 0 {
      return;
    }
    TokensArePieces("", scratch);
    WalkKeepsNames([], Tokens("", scratch));
    rc := WriteOut(names, output);
    len := if rc == 0 then |Render(names)| else 0;
  }

  // ----- cd --------------------------------------------------------------

  /** The text of the C string in a buffer whose length is known. */
  class Shell {
    var cwd: string

    ghost predicate Valid()
      reads this
    {
      Canonical(cwd) && |cwd| < CWD_SIZE
    }

    constructor ()
      ensures Valid() && cwd == "/root"
    {
      cwd := "/root";
      new;
      assert Render(["root"]) == "/root" && Names(["root"]);
    }

    /** `openRc` is what opening the directory returns. On any failure the working directory
        stays as it was. */
    method HandleCd(path: string, openRc: int) returns (rc: int)
      requires Valid()
      modifies this
      ensures Valid()
      ensures rc == 0 <==>
        && Resolve(old(cwd), path, CWD_SIZE).Ok?
        && Managed(Resolve(old(cwd), path, CWD_SIZE).value, CWD_SIZE).Ok?
        && openRc == 0
      ensures rc == 0 ==> Resolve(old(cwd), path, CWD_SIZE) == Ok(cwd)
      ensures rc != 0 ==> cwd == old(cwd)
    {
      var resolved := new char[CWD_SIZE];
      var len;
      rc, len := ResolvePath(cwd, path, resolved);
      if rc != 0 {
        return;
      }
      match Managed(resolved[..len], CWD_SIZE) {
        case Err(code) => return code;
        case Ok(_) =>
      }
      if openRc != 0 {
        return openRc;
      }
      cwd := resolved[..len];
    }
  }
}

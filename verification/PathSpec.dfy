/** What a path typed in a directory means: the stack of names it walks to. */
module PathSpec {
  import opened CString
  import opened Errno

  const COMBINED_SIZE: nat := 192
  const MAX_SEGMENTS: nat := 16

  function Flush(name: string): seq<string> { if name == "" then [] else [name] }

  /** The non-empty pieces between slashes, `name` being the piece already begun. */
  function Tokens(name: string, s: string): seq<string>
    decreases |s|
  {
    if s == "" then Flush(name)
    else if s[0] == '/' then Flush(name) + Tokens("", s[1..])
    else Tokens(name + [s[0]], s[1..])
  }

  /** Walks the names from the stack; None when a seventeenth name would be pushed. */
  function Walk(stack: seq<string>, names: seq<string>): (r: Result<seq<string>>)
    ensures r.Ok? && |stack| <= MAX_SEGMENTS ==> |r.value| <= MAX_SEGMENTS
    ensures r.Err? ==> r.code == -ENOSPC
    decreases |names|
  {
    if names == [] then Ok(stack)
    else if names[0] == "." then Walk(stack, names[1..])
    else if names[0] == ".." then Walk(if stack == [] then [] else stack[..|stack| - 1], names[1..])
    else if |stack| >= MAX_SEGMENTS then Err(-ENOSPC)
    else Walk(stack + [names[0]], names[1..])
  }

  function Join(names: seq<string>): string {
    if names == [] then "" else names[0] + (if |names| == 1 then "" else "/" + Join(names[1..]))
  }

  function Render(names: seq<string>): string { "/" + Join(names) }

  /** The text that is split, before it is cut to the buffer. An empty input means the
      working directory; a tilde stands for the home directory only by itself or in front
      of a slash. */
  function Combined(cwd: string, input: string): Result<string> {
    var source := if input == "" then cwd else input;
    if source != "" && source[0] == '/' then Ok(source)
    else if source != "" && source[0] == '~' then
      if |source| == 1 then Ok("/root")
      else if source[1] == '/' then Ok("/root/" + source[2..])
      else Err(-EINVAL)
    else if cwd == "/" then Ok("/" + source)
    else Ok(cwd + "/" + source)
  }

  function Resolve(cwd: string, input: string, size: nat): Result<string> {
    if size == 0 then Err(-EINVAL)
    else match Combined(cwd, input)
         case Err(code) => Err(code)
         case Ok(text) =>
           match Walk([], Tokens("", Truncate(text, COMBINED_SIZE)))
           case Err(code) => Err(code)
           case Ok(names) => if |Render(names)| < size then Ok(Render(names)) else Err(-ENOSPC)
  }

  // ----- canonical paths -------------------------------------------------

  predicate Name(s: string) { s != "" && '/' !in s && s != "." && s != ".." }

  predicate Names(names: seq<string>) { forall i :: 0 <= i < |names| ==> Name(names[i]) }

  /** Absolute, and no segment is empty, a dot or two dots. */
  ghost predicate Canonical(path: string) {
    exists names :: Names(names) && path == Render(names)
  }

  predicate Pieces(names: seq<string>) {
    forall i :: 0 <= i < |names| ==> names[i] != "" && '/' !in names[i]
  }

  lemma {:induction false} TokensArePieces(name: string, s: string)
    requires '/' !in name
    ensures Pieces(Tokens(name, s))
    decreases |s|
  {
    if s != "" {
      if s[0] == '/' {
        TokensArePieces("", s[1..]);
      } else {
        TokensArePieces(name + [s[0]], s[1..]);
      }
    }
  }

  lemma {:induction false} WalkKeepsNames(stack: seq<string>, names: seq<string>)
    requires Names(stack) && Pieces(names)
    ensures var r := Walk(stack, names); r.Ok? ==> Names(r.value)
    decreases |names|
  {
    if names != [] {
      if names[0] == "." {
        WalkKeepsNames(stack, names[1..]);
      } else if names[0] == ".." {
        WalkKeepsNames(if stack == [] then [] else stack[..|stack| - 1], names[1..]);
      } else if |stack| < MAX_SEGMENTS {
        WalkKeepsNames(stack + [names[0]], names[1..]);
      }
    }
  }

  lemma ResolvedIsCanonical(cwd: string, input: string, size: nat)
    requires Resolve(cwd, input, size).Ok?
    ensures Canonical(Resolve(cwd, input, size).value)
  {
    var text := Truncate(Combined(cwd, input).value, COMBINED_SIZE);
    TokensArePieces("", text);
    WalkKeepsNames([], Tokens("", text));
    var names := Walk([], Tokens("", text)).value;
    assert Names(names) && Resolve(cwd, input, size).value == Render(names);
  }

  // ----- splitting what was joined ---------------------------------------

  lemma {:induction false} TokensOfName(begun: string, name: string, rest: string)
    requires '/' !in name
    ensures Tokens(begun, name + rest) == Tokens(begun + name, rest)
    decreases |name|
  {
    if name == "" {
      assert name + rest == rest && begun + name == begun;
    } else {
      assert (name + rest)[1..] == name[1..] + rest;
      assert name[0] in name;
      TokensOfName(begun + [name[0]], name[1..], rest);
      assert begun + [name[0]] + name[1..] == begun + name;
    }
  }

  lemma {:induction false} TokensOfJoin(names: seq<string>)
    requires Pieces(names)
    ensures Tokens("", Join(names)) == names
    decreases |names|
  {
    if names != [] {
      var rest := if |names| == 1 then "" else "/" + Join(names[1..]);
      TokensOfName("", names[0], rest);
      assert "" + names[0] == names[0];
      if |names| > 1 {
        assert rest[1..] == Join(names[1..]);
        TokensOfJoin(names[1..]);
      }
    }
  }

  lemma TokensOfRender(names: seq<string>)
    requires Pieces(names)
    ensures Tokens("", Render(names)) == names
  {
    TokensOfJoin(names);
    assert Render(names)[1..] == Join(names);
    assert [] + Tokens("", Join(names)) == Tokens("", Join(names));
  }

  lemma {:induction false} WalkNames(stack: seq<string>, names: seq<string>)
    requires Names(names) && |stack| + |names| <= MAX_SEGMENTS
    ensures Walk(stack, names) == Ok(stack + names)
    decreases |names|
  {
    if names == [] {
      assert stack + [] == stack;
    } else {
      assert Name(names[0]);
      WalkNames(stack + [names[0]], names[1..]);
      assert stack + [names[0]] + names[1..] == stack + names;
    }
  }

  lemma ResolvedNames(cwd: string, input: string, size: nat) returns (names: seq<string>)
    requires Resolve(cwd, input, size).Ok?
    ensures Names(names) && Pieces(names) && |names| <= MAX_SEGMENTS
    ensures Resolve(cwd, input, size) == Ok(Render(names)) && |Render(names)| < size
    ensures Walk([], Tokens("", Truncate(Combined(cwd, input).value, COMBINED_SIZE))) == Ok(names)
  {
    var text := Truncate(Combined(cwd, input).value, COMBINED_SIZE);
    TokensArePieces("", text);
    WalkKeepsNames([], Tokens("", text));
    names := Walk([], Tokens("", text)).value;
  }

  /** A resolved path resolves to itself, in whatever directory. */
  lemma ResolveIsIdempotent(cwd: string, input: string, size: nat, other: string)
    requires size <= COMBINED_SIZE && Resolve(cwd, input, size).Ok?
    ensures Resolve(other, Resolve(cwd, input, size).value, size) == Resolve(cwd, input, size)
  {
    var names := ResolvedNames(cwd, input, size);
    TokensOfRender(names);
    WalkNames([], names);
    assert [] + names == names;
  }

  // ----- resolving in steps ----------------------------------------------

  lemma {:induction false} TokensOfSlash(begun: string, a: string, b: string)
    ensures Tokens(begun, a + "/" + b) == Tokens(begun, a) + Tokens("", b)
    decreases |a|
  {
    var t := a + "/" + b;
    if a == "" {
      assert t[1..] == b;
    } else if a[0] == '/' {
      assert t[1..] == a[1..] + "/" + b;
      TokensOfSlash("", a[1..], b);
      assert Flush(begun) + (Tokens("", a[1..]) + Tokens("", b)) == Flush(begun) + Tokens("", a[1..]) + Tokens("", b);
    } else {
      assert t[1..] == a[1..] + "/" + b;
      TokensOfSlash(begun + [a[0]], a[1..], b);
    }
  }

  lemma {:induction false} WalkConcat(stack: seq<string>, a: seq<string>, b: seq<string>)
    ensures Walk(stack, a + b) == match Walk(stack, a) case Err(code) => Err(code) case Ok(names) => Walk(names, b)
    decreases |a|
  {
    if a == [] {
      assert a + b == b;
    } else {
      assert (a + b)[1..] == a[1..] + b;
      if a[0] == "." {
        WalkConcat(stack, a[1..], b);
      } else if a[0] == ".." {
        WalkConcat(if stack == [] then [] else stack[..|stack| - 1], a[1..], b);
      } else if |stack| < MAX_SEGMENTS {
        WalkConcat(stack + [a[0]], a[1..], b);
      }
    }
  }

  predicate Relative(b: string) { b != "" && b[0] != '/' && b[0] != '~' }

  lemma CombinedOfSlash(cwd: string, a: string, b: string)
    requires a != "" && Combined(cwd, a).Ok?
    ensures Combined(cwd, a + "/" + b) == Ok(Combined(cwd, a).value + "/" + b)
  {
    var t := a + "/" + b;
    assert t[0] == a[0];
    if a[0] == '/' {
    } else if a[0] == '~' {
      if |a| == 1 {
        assert t[1] == '/' && t[2..] == b;
        assert "/root/" + b == "/root" + "/" + b;
      } else {
        assert t[1] == a[1] && t[2..] == a[2..] + "/" + b;
        assert "/root/" + (a[2..] + "/" + b) == "/root/" + a[2..] + "/" + b;
      }
    } else if cwd == "/" {
      assert "/" + t == "/" + a + "/" + b;
    } else {
      assert cwd + "/" + t == cwd + "/" + a + "/" + b;
    }
  }

  /** The text a relative path is resolved from in the directory with these names. */
  lemma CombinedInDirectory(names: seq<string>, b: string)
    requires Pieces(names) && Relative(b)
    ensures Combined(Render(names), b).Ok?
    ensures Tokens("", Combined(Render(names), b).value) == names + Tokens("", b)
    ensures |Combined(Render(names), b).value| <= |Render(names)| + 1 + |b|
  {
    var dir := Render(names);
    if dir == "/" {
      assert names == [];
      assert ("/" + b)[1..] == b;
    } else {
      TokensOfSlash("", dir, b);
      TokensOfRender(names);
    }
  }

  /** Resolving `a` and then a relative `b` from there is resolving `a/b`, errors included,
      when nothing is cut to the buffer. */
  lemma ResolveInSteps(cwd: string, a: string, b: string, size: nat)
    requires a != "" && Relative(b) && size <= COMBINED_SIZE && Resolve(cwd, a, size).Ok?
    requires |Combined(cwd, a).value| + 1 + |b| < COMBINED_SIZE
    requires |Resolve(cwd, a, size).value| + 1 + |b| < COMBINED_SIZE
    ensures Resolve(Resolve(cwd, a, size).value, b, size) == Resolve(cwd, a + "/" + b, size)
  {
    var names := ResolvedNames(cwd, a, size);
    var text := Combined(cwd, a).value;
    CombinedInDirectory(names, b);
    CombinedOfSlash(cwd, a, b);
    TokensOfSlash("", text, b);
    WalkConcat([], Tokens("", text), Tokens("", b));
    WalkConcat([], names, Tokens("", b));
    WalkNames([], names);
    assert [] + names == names;
  }

  // ----- one step ----------------------------------------------------------

  predicate Fits(names: seq<string>, size: nat) {
    |names| <= MAX_SEGMENTS && |Render(names)| < size
  }

  lemma {:induction false} JoinOneMore(names: seq<string>, n: string)
    ensures Join(names + [n]) == Join(names) + (if names == [] then n else "/" + n)
  {
    if |names| == 1 {
      assert (names + [n])[1..] == [n];
    } else if |names| > 1 {
      assert (names + [n])[1..] == names[1..] + [n];
      JoinOneMore(names[1..], n);
    }
  }

  /** Walking from a directory the steps of a relative path. */
  lemma ResolveFrom(names: seq<string>, b: string, size: nat)
    requires Names(names) && |names| <= MAX_SEGMENTS && Relative(b)
    requires size > 0 && |Render(names)| + 1 + |b| < COMBINED_SIZE
    ensures Resolve(Render(names), b, size) ==
            match Walk(names, Tokens("", b))
            case Err(code) => Err(code)
            case Ok(there) => if |Render(there)| < size then Ok(Render(there)) else Err(-ENOSPC)
  {
    CombinedInDirectory(names, b);
    WalkConcat([], names, Tokens("", b));
    WalkNames([], names);
    assert [] + names == names;
  }

  lemma OneToken(b: string)
    requires b != "" && '/' !in b
    ensures Tokens("", b) == [b]
  {
    TokensOfName("", b, "");
    assert b + "" == b && "" + b == b;
  }

  /** Two dots lead to the directory above, and nowhere from the root. */
  lemma ResolveUp(names: seq<string>, n: string, size: nat)
    requires Names(names + [n]) && Fits(names + [n], size) && |Render(names + [n])| + 3 < COMBINED_SIZE
    ensures Resolve(Render(names + [n]), "..", size) == Ok(Render(names))
  {
    var here := names + [n];
    ResolveFrom(here, "..", size);
    OneToken("..");
    assert here[..|here| - 1] == names;
    JoinOneMore(names, n);
  }

  lemma ResolveUpFromRoot(size: nat)
    requires size > 1
    ensures Resolve(Render([]), "..", size) == Ok(Render([]))
  {
    ResolveFrom([], "..", size);
    OneToken("..");
  }

  /** A dot leads nowhere. */
  lemma ResolveHere(names: seq<string>, size: nat)
    requires Names(names) && Fits(names, size) && |Render(names)| + 2 < COMBINED_SIZE
    ensures Resolve(Render(names), ".", size) == Ok(Render(names))
  {
    ResolveFrom(names, ".", size);
    OneToken(".");
  }

  /** A name leads into the directory of that name, up to sixteen deep. */
  lemma ResolveDown(names: seq<string>, n: string, size: nat)
    requires Names(names) && Name(n) && n[0] != '~' && |names| <= MAX_SEGMENTS
    requires size > 0 && |Render(names)| + 1 + |n| < COMBINED_SIZE
    ensures Resolve(Render(names), n, size) ==
            if |names| < 16 && |Render(names + [n])| < size then Ok(Render(names + [n])) else Err(-ENOSPC)
  {
    ResolveFrom(names, n, size);
    OneToken(n);
  }

  lemma ResolveText(cwd: string, input: string, size: nat, text: string, names: seq<string>)
    requires Combined(cwd, input) == Ok(text) && |text| < COMBINED_SIZE && Tokens("", text) == names
    requires Names(names) && Fits(names, size)
    ensures Resolve(cwd, input, size) == Ok(Render(names))
  {
    WalkNames([], names);
    assert [] + names == names;
  }

  /** A path from the root means the same everywhere, and no path the working directory. */
  lemma ResolveAbsolute(cwd: string, names: seq<string>, size: nat)
    requires Names(names) && Fits(names, size) && |Render(names)| < COMBINED_SIZE
    ensures Resolve(cwd, Render(names), size) == Ok(Render(names)) == Resolve(Render(names), "", size)
  {
    TokensOfRender(names);
    ResolveText(cwd, Render(names), size, Render(names), names);
    ResolveText(Render(names), "", size, Render(names), names);
  }

  lemma CombinedHome(cwd: string, rest: string)
    ensures Combined(cwd, "~/" + rest) == Ok("/root/" + rest)
  {
    assert ("~/" + rest)[2..] == rest;
  }

  lemma TokensBelowHome(names: seq<string>)
    requires Names(names)
    ensures Tokens("", "/root/" + Join(names)) == ["root"] + names && Tokens("", "/root") == ["root"]
  {
    assert "/root/" + Join(names) == "/root" + "/" + Join(names);
    TokensOfSlash("", "/root", Join(names));
    TokensOfJoin(names);
    TokensOfRender(["root"]);
    assert Render(["root"]) == "/root";
  }

  /** A tilde is the home directory, by itself or in front of a slash. */
  lemma ResolveHome(cwd: string, names: seq<string>, size: nat)
    requires Names(names) && Fits(["root"] + names, size) && |Join(names)| + 6 < COMBINED_SIZE
    ensures Resolve(cwd, "~/" + Join(names), size) == Ok(Render(["root"] + names))
    ensures names == [] ==> Resolve(cwd, "~", size) == Ok(Render(["root"]))
  {
    CombinedHome(cwd, Join(names));
    TokensBelowHome(names);
    ResolveText(cwd, "~/" + Join(names), size, "/root/" + Join(names), ["root"] + names);
    if names == [] {
      assert ["root"] + names == ["root"];
      ResolveText(cwd, "~", size, "/root", ["root"]);
    }
  }

  lemma ResolveOtherHome(cwd: string, rest: string, size: nat)
    requires rest != "" && rest[0] != '/'
    ensures Resolve(cwd, "~" + rest, size) == Err(-EINVAL)
  {
    assert ("~" + rest)[1] == rest[0];
  }

  /** A long path is cut to 191 characters. */
  lemma ResolveCut(cwd: string, rest: string, size: nat)
    requires |rest| >= 191
    ensures Resolve(cwd, "/" + rest, size) == Resolve(cwd, ("/" + rest)[..191], size)
  {
    assert ("/" + rest)[..191][0] == '/';
  }

  // ----- the storage path ------------------------------------------------

  const MOUNT_POINT := "/lfs"

  predicate HasDotDot(s: string) { exists i :: 0 <= i < |s| - 1 && s[i] == '.' && s[i + 1] == '.' }

  /** ResolveManagedPath. */
  function Managed(path: string, size: nat): Result<string> {
    var clean := if path == "" then "/" else path;
    if HasDotDot(clean) || '\\' in clean then Err(-EINVAL)
    else
      var full := MOUNT_POINT + (if clean[0] == '/' then clean else "/" + clean);
      if |full| < size then Ok(full) else Err(-ENOSPC)
  }

  /** A path that does not start with a slash is one from the root, and none is the root. */
  lemma ManagedFromRoot(path: string, size: nat)
    requires path == "" || path[0] != '/'
    ensures Managed(path, size) == Managed("/" + path, size)
  {
    if path != "" {
      RefusedAcrossSlash("", path);
      assert "" + ("/" + path) == "/" + path;
    } else {
      assert "/" + path == "/";
    }
  }

  lemma ManagedRoot(size: nat)
    ensures Managed("", size) == if size > 5 then Ok("/lfs/") else Err(-ENOSPC)
  {
    var root := "/";
    assert !HasDotDot(root) && '\\' !in root && MOUNT_POINT + root == "/lfs/";
  }

  /** A name that ResolveManagedPath does not let through. */
  predicate Refused(name: string) { HasDotDot(name) || '\\' in name }

  lemma DotDotAcrossSlash(a: string, b: string)
    ensures HasDotDot(a + ("/" + b)) <==> HasDotDot(a) || HasDotDot(b)
  {
    var s := a + ("/" + b);
    assert s[|a|] == '/';
    assert forall i :: 0 <= i < |a| ==> s[i] == a[i];
    assert forall i :: 0 <= i < |b| ==> s[|a| + 1 + i] == b[i];
    if HasDotDot(b) {
      var i :| 0 <= i < |b| - 1 && b[i] == '.' && b[i + 1] == '.';
      assert s[|a| + 1 + i] == '.' && s[|a| + 1 + i + 1] == '.';
    }
    if HasDotDot(s) {
      var i :| 0 <= i < |s| - 1 && s[i] == '.' && s[i + 1] == '.';
      if i > |a| {
        assert b[i - |a| - 1] == '.' && b[i - |a|] == '.';
      }
    }
  }

  lemma RefusedAcrossSlash(a: string, b: string)
    ensures Refused(a + ("/" + b)) <==> Refused(a) || Refused(b)
  {
    DotDotAcrossSlash(a, b);
  }

  lemma {:induction false} RefusedJoin(names: seq<string>)
    ensures Refused(Join(names)) <==> exists i :: 0 <= i < |names| && Refused(names[i])
  {
    if |names| == 1 {
      assert names[0] + "" == names[0];
    } else if |names| > 1 {
      RefusedJoin(names[1..]);
      RefusedAcrossSlash(names[0], Join(names[1..]));
      assert forall i :: 0 < i < |names| ==> names[i] == names[1..][i - 1];
    }
  }

  /** A resolved path is refused exactly when one of its names is, or when it does not fit;
      otherwise it is kept below the mount point as it is. */
  lemma ManagedResolved(cwd: string, input: string, size: nat, fsSize: nat)
    requires Resolve(cwd, input, size).Ok?
    ensures var path := Resolve(cwd, input, size).value;
            var names := Tokens("", path);
            Managed(path, fsSize) ==
              if exists i :: 0 <= i < |names| && Refused(names[i]) then Err(-EINVAL)
              else if |MOUNT_POINT| + |path| < fsSize then Ok(MOUNT_POINT + path) else Err(-ENOSPC)
  {
    var names := ResolvedNames(cwd, input, size);
    TokensOfRender(names);
    RefusedJoin(names);
    RefusedAcrossSlash("", Join(names));
    assert "" + ("/" + Join(names)) == Render(names);
  }
}

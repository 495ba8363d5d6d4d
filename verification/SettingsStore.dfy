/** The settings store's functions: loops over C strings that write into buffers.

A C string is its text without the terminator; a cursor into it is a position, and the
text it points at is what JsonText calls a cursor. */
module SettingsStore {
  import opened CBuffer
  import opened CString
  import opened Errno
  import opened JsonText
  import opened JsonStrings
  import opened NtpJson
  import opened AppJson

  // ----- scanning --------------------------------------------------------

  method SkipWhitespace(json: string, cursor: nat) returns (next: nat)
    requires cursor <= |json|
    ensures cursor <= next <= |json| && json[next..] == SkipSpaces(json[cursor..])
  {
    next := cursor;
    while next < |json| && IsSpace(json[next])
      invariant cursor <= next <= |json| && SkipSpaces(json[next..]) == SkipSpaces(json[cursor..])
    {
      assert json[next..][1..] == json[next + 1..];
      next := next + 1;
    }
  }

  method FindText(json: string, from: nat, pattern: string) returns (found: bool, at: nat)
    requires from <= |json| && pattern != ""
    ensures found ==> from <= at <= |json| && StrStr(json[from..], pattern) == Some(json[at..])
    ensures !found ==> StrStr(json[from..], pattern) == None
  {
    at := from;
    while at + |pattern| <= |json|
      invariant from <= at <= |json| && StrStr(json[at..], pattern) == StrStr(json[from..], pattern)
      decreases |json| - at
    {
      assert json[at..][..|pattern|] == json[at..at + |pattern|];
      if json[at..at + |pattern|] == pattern {
        return true, at;
      }
      assert json[at..][1..] == json[at + 1..];
      at := at + 1;
    }
    TooShort(json[at..], pattern);
    found := false;
  }

  lemma {:induction false} TooShort(t: string, pattern: string)
    requires |t| < |pattern|
    ensures StrStr(t, pattern) == None
  {
    if t != "" { TooShort(t[1..], pattern); }
  }

  method FindChar(json: string, from: nat, c: char) returns (found: bool, at: nat)
    requires from <= |json|
    ensures found ==> from <= at < |json| && json[at] == c && StrChr(json[from..], c) == Some(json[at..])
    ensures !found ==> StrChr(json[from..], c) == None
  {
    at := from;
    while at < |json|
      invariant from <= at <= |json| && StrChr(json[at..], c) == StrChr(json[from..], c)
    {
      if json[at] == c {
        return true, at;
      }
      assert json[at..][1..] == json[at + 1..];
      at := at + 1;
    }
    found := false;
  }

  lemma DropDrop(t: string, i: nat, n: nat)
    requires i + n <= |t|
    ensures t[i..][n..] == t[i + n..]
  {}

  method FindBehind(json: string, from: nat, pattern: string) returns (found: bool, behind: nat)
    requires from <= |json| && pattern != ""
    ensures found <==> StrStr(json[from..], pattern).Some?
    ensures found ==>
      from <= behind <= |json| && json[behind..] == StrStr(json[from..], pattern).value[|pattern|..]
  {
    var at;
    found, at := FindText(json, from, pattern);
    if !found {
      return false, 0;
    }
    behind := at + |pattern|;
    DropDrop(json, at, |pattern|);
  }

  /** strstr, then strchr, then white space. */
  method FindKey(json: string, from: nat, key: string) returns (found: bool, value: nat)
    requires from <= |json|
    ensures found <==> FindJsonKey(json[from..], key).Some?
    ensures found ==> from <= value <= |json| && FindJsonKey(json[from..], key) == Some(json[value..])
  {
    var behind;
    found, behind := FindBehind(json, from, Quoted(key));
    if !found {
      return false, 0;
    }
    assert AfterKey(json[from..], key) == Some(json[behind..]);
    var at;
    found, at := FindChar(json, behind, ':');
    if !found {
      return false, 0;
    }
    DropDrop(json, at, 1);
    value := SkipWhitespace(json, at + 1);
  }

  // ----- strings ---------------------------------------------------------

  /** A prefix already read in front of what the rest of the text reads as. */
  function Prepend(done: string, rest: Option<string>): Option<string> {
    match rest
    case None => None
    case Some(s) => Some(done + s)
  }

  lemma PrependNothing(r: Option<string>)
    ensures Prepend("", r) == r
  {
    if r.Some? { assert "" + r.value == r.value; }
  }

  lemma PrependMore(done: string, c: char, rest: Option<string>)
    ensures Prepend(done, Prepend([c], rest)) == Prepend(done + [c], rest)
  {
    if rest.Some? { assert done + ([c] + rest.value) == done + [c] + rest.value; }
  }

  lemma PlainCharacter(t: string, room: nat)
    requires t != "" && t[0] != '"' && t[0] != '\\' && room > 0
    ensures ParseStringBody(t, room) == Prepend([t[0]], ParseStringBody(t[1..], room - 1))
  {}

  function Unescaped(c: char): Option<char> {
    if c == 'n' then Some('\n') else if c == 'r' then Some('\r') else if c == 't' then Some('\t')
    else if c == '"' || c == '\\' || c == '/' then Some(c) else None
  }

  lemma EscapedCharacter(t: string, room: nat)
    requires |t| >= 2 && t[0] == '\\' && room > 0
    ensures ParseStringBody(t, room) ==
      if Unescaped(t[1]).Some? then Prepend([Unescaped(t[1]).value], ParseStringBody(t[2..], room - 1)) else None
  {}

  /** The character behind a backslash, written to `out` when there is such an escape. */
  method PutUnescaped(out: array<char>, pos: nat, c: char) returns (ok: bool)
    requires pos < out.Length
    modifies out
    ensures ok <==> Unescaped(c).Some?
    ensures ok ==> out[..pos + 1] == old(out[..pos]) + [Unescaped(c).value]
  {
    match c {
      case '"' => out[pos] := c;
      case '\\' => out[pos] := c;
      case '/' => out[pos] := c;
      case 'n' => out[pos] := '\n';
      case 'r' => out[pos] := '\r';
      case 't' => out[pos] := '\t';
      case _ => return false;
    }
    ok := true;
  }

  /** Reads a string into `out`, terminator included; `len` is its length. */
  method ParseJsonStringAt(json: string, value: nat, out: array<char>) returns (ok: bool, len: nat)
    requires value <= |json| && out.Length > 0
    modifies out
    ensures ok <==> ParseString(json[value..], out.Length).Some?
    ensures ok ==> len < out.Length && out[len] == NUL && ParseString(json[value..], out.Length) == Some(out[..len])
    ensures !ok ==> len == 0
  {
    if value >= |json| || json[value] != '"' {
      return false, 0;
    }
    var pos, cursor := 0, value + 1;
    assert json[value..][1..] == json[cursor..];
    ghost var target := ParseString(json[value..], out.Length);
    ghost var room: nat := out.Length - 1;
    PrependNothing(target);
    while cursor < |json| && json[cursor] != '"' && pos + 1 < out.Length
      invariant cursor <= |json| && pos + room + 1 == out.Length
      invariant target == Prepend(out[..pos], ParseStringBody(json[cursor..], room))
      decreases |json| - cursor
    {
      ghost var done, t := out[..pos], json[cursor..];
      if json[cursor] == '\\' {
        cursor := cursor + 1;
        if cursor >= |json| {
          return false, 0;
        }
        assert t[1] == json[cursor] && t[2..] == json[cursor + 1..];
        EscapedCharacter(t, room);
        var known := PutUnescaped(out, pos, json[cursor]);
        if !known {
          return false, 0;
        }
        PrependMore(done, Unescaped(t[1]).value, ParseStringBody(t[2..], room - 1));
        pos, cursor, room := pos + 1, cursor + 1, room - 1;
        continue;
      }
      assert t[1..] == json[cursor + 1..];
      out[pos] := json[cursor];
      PlainCharacter(t, room);
      PrependMore(done, out[pos], ParseStringBody(t[1..], room - 1));
      assert out[..pos + 1] == done + [out[pos]];
      pos, cursor, room := pos + 1, cursor + 1, room - 1;
    }
    if cursor >= |json| || json[cursor] != '"' {
      return false, 0;
    }
    assert out[..pos] + "" == out[..pos];
    out[pos] := NUL;
    ok, len := true, pos;
  }

  /** From behind an opening quote to behind the next quote without a backslash. */
  method SkipString(json: string, start: nat) returns (cursor: nat)
    requires 0 < start <= |json|
    ensures start <= cursor <= |json| && json[cursor..] == AfterQuote(json[start - 1], json[start..])
  {
    cursor := start;
    while cursor < |json|
      invariant start <= cursor <= |json|
      invariant AfterQuote(json[cursor - 1], json[cursor..]) == AfterQuote(json[start - 1], json[start..])
      decreases |json| - cursor
    {
      assert json[cursor..][1..] == json[cursor + 1..];
      if json[cursor] == '"' && json[cursor - 1] != '\\' {
        cursor := cursor + 1;
        return;
      }
      cursor := cursor + 1;
    }
  }

  function PrependItems(done: seq<string>, rest: Option<seq<string>>): Option<seq<string>> {
    match rest
    case None => None
    case Some(items) => Some(done + items)
  }

  /** One element: its text, and the position behind its closing quote as SkipString
      finds it. */
  method ParseElement(json: string, cursor: nat) returns (ok: bool, item: string, behind: nat)
    requires cursor <= |json|
    ensures ok <==> ParseString(json[cursor..], SERVER_SIZE).Some?
    ensures ok ==>
      && ParseString(json[cursor..], SERVER_SIZE) == Some(item)
      && cursor < behind <= |json|
      && json[behind..] == AfterQuote('"', json[cursor..][1..])
  {
    var out := new char[SERVER_SIZE];
    var len;
    ok, len := ParseJsonStringAt(json, cursor, out);
    if !ok {
      return false, "", 0;
    }
    item := out[..len];
    DropDrop(json, cursor, 1);
    behind := SkipString(json, cursor + 1);
  }

  lemma PrependItemsMore(done: seq<string>, item: string, rest: Option<seq<string>>)
    ensures PrependItems(done, PrependItems([item], rest)) == PrependItems(done + [item], rest)
  {
    if rest.Some? { assert done + ([item] + rest.value) == done + [item] + rest.value; }
  }

  /** An element in front of what is left of the list. */
  lemma OneItem(t: string, u: string, room: nat, item: string, behind: string)
    requires u == SkipSpaces(t) && (u != "" ==> u[0] != ']') && room > 0
    requires ParseString(u, SERVER_SIZE) == Some(item) && behind == AfterQuote('"', u[1..])
    ensures ParseItems(t, room) == PrependItems([item], NextItems(behind, room - 1))
  {}

  /** Behind an element: at a comma `more` says to go on from `next`. */
  method ParseSeparator(json: string, behind: nat) returns (ok: bool, more: bool, next: nat)
    requires behind <= |json|
    ensures behind <= next <= |json|
    ensures forall room: nat :: NextItems(json[behind..], room) ==
              if !ok then None else if more then ParseItems(json[next..], room) else Some([])
    ensures more ==> ok && behind < next
  {
    next := SkipWhitespace(json, behind);
    if next < |json| && json[next] == ',' {
      DropDrop(json, next, 1);
      return true, true, next + 1;
    }
    ok, more := next < |json| && json[next] == ']', false;
  }

  method ParseJsonStringArrayAt(json: string, value: nat, max: nat) returns (ok: bool, items: seq<string>)
    requires value <= |json|
    ensures ok <==> ParseArray(json[value..], max).Some?
    ensures ok ==> ParseArray(json[value..], max) == Some(items)
  {
    var cursor := SkipWhitespace(json, value);
    items := [];
    if cursor >= |json| || json[cursor] != '[' {
      return false, items;
    }
    DropDrop(json, cursor, 1);
    cursor := cursor + 1;
    ghost var target := ParseArray(json[value..], max);
    PrependNoItems(target);
    ghost var room: nat := max;
    while true
      invariant cursor <= |json| && |items| + room == max
      invariant target == PrependItems(items, ParseItems(json[cursor..], room))
      decreases |json| - cursor
    {
      ghost var unread := json[cursor..];
      cursor := SkipWhitespace(json, cursor);
      if cursor < |json| && json[cursor] == ']' {
        assert items + [] == items;
        return true, items;
      }
      if |items| >= max {
        return false, items;
      }
      var parsed, item, behind := ParseElement(json, cursor);
      if !parsed {
        return false, items;
      }
      OneItem(unread, json[cursor..], room, item, json[behind..]);
      PrependItemsMore(items, item, NextItems(json[behind..], room - 1));
      items, room := items + [item], room - 1;
      var separated, more;
      separated, more, cursor := ParseSeparator(json, behind);
      if !more {
        assert items + [] == items;
        return separated, items;
      }
    }
  }

  lemma PrependNoItems(r: Option<seq<string>>)
    ensures PrependItems([], r) == r
  {
    if r.Some? { assert [] + r.value == r.value; }
  }

  /** One character of EscapeJsonString's loop; `next` is the new length. */
  method PutEscaped(dst: array<char>, out: nat, c: char) returns (next: nat)
    requires out + 2 < dst.Length
    modifies dst
    ensures next == out + |EscapeChar(c)| && dst[..next] == old(dst[..out]) + EscapeChar(c)
  {
    if c == '"' || c == '\\' {
      dst[out], dst[out + 1] := '\\', c;
      next := out + 2;
    } else if c == '\n' {
      dst[out], dst[out + 1] := '\\', 'n';
      next := out + 2;
    } else if c == '\r' {
      dst[out], dst[out + 1] := '\\', 'r';
      next := out + 2;
    } else if c == '\t' {
      dst[out], dst[out + 1] := '\\', 't';
      next := out + 2;
    } else {
      dst[out] := if c < ' ' then '_' else c;
      next := out + 1;
    }
  }

  lemma EscapeStep(done: string, src: string, i: nat, out: nat, size: nat)
    requires i < |src| && out + 2 < size
    ensures var e := EscapeChar(src[i]);
            done + EscapeInto(src[i..], out, size) == done + e + EscapeInto(src[i + 1..], out + |e|, size)
  {
    assert src[i..][1..] == src[i + 1..];
  }

  method EscapeJsonString(src: string, dst: array<char>) returns (len: nat)
    requires dst.Length > 0
    modifies dst
    ensures len < dst.Length && dst[len] == NUL && dst[..len] == EscapeInto(src, 0, dst.Length)
  {
    len := 0;
    var i := 0;
    assert src[0..] == src && dst[..0] == "";
    while i < |src| && len + 2 < dst.Length
      invariant i <= |src| && len < dst.Length
      invariant dst[..len] + EscapeInto(src[i..], len, dst.Length) == EscapeInto(src, 0, dst.Length)
    {
      EscapeStep(dst[..len], src, i, len, dst.Length);
      len := PutEscaped(dst, len, src[i]);
      i := i + 1;
    }
    assert dst[..len] + "" == dst[..len];
    dst[len] := NUL;
  }

  // ----- printing --------------------------------------------------------

  function ServerText(first: bool, server: string): string {
    (if first then "" else ", ") + (['"'] + Escape(server) + ['"'])
  }

  /** The text of the first `n` servers as the printing loop leaves it. */
  function Listed(servers: seq<string>, n: nat): string
    requires n <= |servers|
  {
    if n == 0 then "" else Listed(servers, n - 1) + ServerText(n == 1, servers[n - 1])
  }

  lemma {:induction false} ListedIsElements(servers: seq<string>, n: nat, tail: string)
    requires n <= |servers|
    ensures Elements(servers[..n], tail) == Listed(servers, n) + tail
  {
    if n == 0 {
      assert "" + tail == tail;
    } else {
      var text := ServerText(n == 1, servers[n - 1]);
      assert servers[..n] == servers[..n - 1] + [servers[n - 1]];
      ElementsSnoc(servers[..n - 1], servers[n - 1], tail);
      ListedIsElements(servers, n - 1, text + tail);
      assert Listed(servers, n - 1) + (text + tail) == Listed(servers, n - 1) + text + tail;
    }
  }

  lemma {:induction false} ElementsSnoc(init: seq<string>, last: string, tail: string)
    ensures Elements(init + [last], tail) ==
            Elements(init, ServerText(init == [], last) + tail)
    decreases |init|
  {
    var quoted := ['"'] + Escape(last) + ['"'];
    if init == [] {
      assert init + [last] == [last];
      assert Items([last], tail) == "" + quoted + tail;
    } else {
      var after := (if init[1..] == [] then "" else ", ") + quoted + tail;
      ElementsSnoc(init[1..], last, tail);
      assert (init + [last])[1..] == init[1..] + [last];
      MoreSnoc(init[1..], last, tail);
    }
  }

  lemma MoreSnoc(init: seq<string>, last: string, tail: string)
    requires var quoted := ['"'] + Escape(last) + ['"'];
             Elements(init + [last], tail) == Elements(init, (if init == [] then "" else ", ") + quoted + tail)
    ensures More(init + [last], tail) == More(init, ", " + (['"'] + Escape(last) + ['"']) + tail)
  {
    var quoted := ['"'] + Escape(last) + ['"'];
    if init == [] {
      assert init + [last] == [last];
      assert "" + quoted + tail == quoted + tail;
      assert [',', ' '] + (quoted + tail) == ", " + quoted + tail;
    }
  }

  function DhcpHead(c: NtpConfig): string {
    Quoted("use_dhcp_server") + (": " + (BoolText(c.useDhcpServer) + (",\n  " + (Quoted("servers") + (": " + "[")))))
  }

  function NtpHead(c: NtpConfig): string {
    "{\n  " + (Quoted("enabled") + (": " + (BoolText(c.enabled) + (",\n  " + DhcpHead(c)))))
  }

  lemma Regroup(a: string, b: string, c: string, d: string, e: string, rest: string)
    ensures a + (b + (c + (d + (e + rest)))) == (a + (b + (c + (d + e)))) + rest
  {}

  lemma DhcpHeadInFront(c: NtpConfig)
    ensures DhcpField(c) == DhcpHead(c) + Elements(c.servers, Tail(c))
  {
    var rest := Elements(c.servers, Tail(c));
    var list := Quoted("servers") + (": " + "[");
    assert ServersField(c) == list + rest;
    Regroup(Quoted("use_dhcp_server"), ": ", BoolText(c.useDhcpServer), ",\n  ", list, rest);
  }

  lemma NtpTextParts(c: NtpConfig)
    ensures NtpText(c) == NtpHead(c) + Listed(c.servers, |c.servers|) + Tail(c)
  {
    DhcpHeadInFront(c);
    NtpHeadInFront(c, DhcpHead(c), Elements(c.servers, Tail(c)));
    var n := |c.servers|;
    assert c.servers[..n] == c.servers;
    ListedIsElements(c.servers, n, Tail(c));
    assert NtpHead(c) + (Listed(c.servers, n) + Tail(c)) == NtpHead(c) + Listed(c.servers, n) + Tail(c);
  }

  lemma NtpHeadInFront(c: NtpConfig, head: string, rest: string)
    requires DhcpField(c) == head + rest && head == DhcpHead(c)
    ensures NtpText(c) == NtpHead(c) + rest
  {
    Regroup(Quoted("enabled"), ": ", BoolText(c.enabled), ",\n  ", head, rest);
    Behind("{\n  ", Quoted("enabled") + (": " + (BoolText(c.enabled) + (",\n  " + head))), rest);
  }

  lemma Behind(a: string, b: string, c: string)
    ensures a + (b + c) == (a + b) + c
  {}

  lemma {:induction false} ListedGrows(servers: seq<string>, i: nat, n: nat)
    requires i <= n <= |servers|
    ensures |Listed(servers, i)| <= |Listed(servers, n)|
    decreases n
  {
    if i < n { ListedGrows(servers, i, n - 1); }
  }

  /** One round of the printing loop, when `offset` is what the first `i` servers end at. */
  method PrintServer(servers: seq<string>, i: nat, json: array<char>, offset: nat) returns (fits: bool, next: nat)
    requires i < |servers| && |servers[i]| < SERVER_SIZE && |Listed(servers, i)| <= offset < json.Length
    modifies json
    ensures var start := offset - |Listed(servers, i)|;
      && (fits <==> start + |Listed(servers, i + 1)| < json.Length)
      && (fits ==> next == start + |Listed(servers, i + 1)|)
      && (fits ==> json[..next] == old(json[..offset]) + ServerText(i == 0, servers[i]))
  {
    var server := new char[128];
    var len := EscapeJsonString(servers[i], server);
    EscapeFits(servers[i], 0, 128);
    var text := (if i == 0 then "" else ", ") + (['"'] + server[..len] + ['"']);
    fits := Print(json, offset, text);
    next := offset + |text|;
  }

  lemma ListedStep(before: string, servers: seq<string>, i: nat)
    requires i < |servers|
    ensures before + Listed(servers, i) + ServerText(i == 0, servers[i]) == before + Listed(servers, i + 1)
  {
    assert before + Listed(servers, i) + ServerText(i == 0, servers[i])
        == before + (Listed(servers, i) + ServerText(i == 0, servers[i]));
  }

  /** The printing loop over the servers, from `start` on. */
  method PrintServers(servers: seq<string>, json: array<char>, start: nat) returns (fits: bool, offset: nat)
    requires Fit(servers) && start < json.Length
    modifies json
    ensures fits <==> start + |Listed(servers, |servers|)| < json.Length
    ensures fits ==>
      && offset == start + |Listed(servers, |servers|)|
      && json[..offset] == old(json[..start]) + Listed(servers, |servers|)
  {
    offset := start;
    for i := 0 to |servers|
      invariant offset == start + |Listed(servers, i)| < json.Length
      invariant json[..offset] == old(json[..start]) + Listed(servers, i)
    {
      ListedGrows(servers, i + 1, |servers|);
      ListedStep(old(json[..start]), servers, i);
      fits, offset := PrintServer(servers, i, json, offset);
      if !fits {
        return;
      }
    }
    fits := true;
  }

  /** Prints the configuration; refuses exactly when text and terminator do not fit. */
  method BuildNtpJson(config: NtpConfig, json: array<char>) returns (rc: int)
    requires Fit(config.servers)
    modifies json
    ensures rc == 0 <==> |NtpText(config)| < json.Length
    ensures rc == 0 ==> json[..|NtpText(config)|] == NtpText(config) && json[|NtpText(config)|] == NUL
    ensures rc != 0 ==> rc == if json.Length == 0 then -EINVAL else -ENOSPC
  {
    NtpTextParts(config);
    if json.Length == 0 {
      return -EINVAL;
    }
    rc := PrintParts(json, NtpHead(config), config.servers, Tail(config));
  }

  method PrintParts(json: array<char>, head: string, servers: seq<string>, tail: string) returns (rc: int)
    requires Fit(servers) && json.Length > 0
    modifies json
    ensures var text := head + Listed(servers, |servers|) + tail;
      && (rc == 0 <==> |text| < json.Length)
      && (rc == 0 ==> json[..|text|] == text && json[|text|] == NUL)
      && (rc != 0 ==> rc == -ENOSPC)
  {
    ghost var text := head + Listed(servers, |servers|) + tail;
    assert |text| == |head| + |Listed(servers, |servers|)| + |tail|;
    var fits := Print(json, 0, head);
    if !fits {
      return -ENOSPC;
    }
    var offset;
    fits, offset := PrintServers(servers, json, |head|);
    if !fits {
      return -ENOSPC;
    }
    fits := Print(json, offset, tail);
    rc := if fits then 0 else -ENOSPC;
  }

  // ----- reading configurations ------------------------------------------

  method GetBool(json: string, from: nat, key: string) returns (value: Option<bool>)
    requires from <= |json|
    ensures value == ReadBool(json[from..], key)
  {
    var found, pos := FindKey(json, from, key);
    value := if found then ParseBool(json[pos..]) else None;
  }

  method GetInt(json: string, from: nat, key: string) returns (value: Option<int>)
    requires from <= |json|
    ensures value == ReadInt(json[from..], key)
  {
    var found, pos := FindKey(json, from, key);
    value := if found then ParseInt(json[pos..]) else None;
  }

  method GetServers(json: string) returns (ok: bool, servers: seq<string>)
    ensures ok <==> ReadServers(json).Some?
    ensures ok ==> ReadServers(json) == Some(servers)
  {
    assert json[0..] == json;
    servers := NTP_DEFAULTS.servers;
    var found, pos := FindKey(json, 0, "servers");
    if found {
      ok, servers := ParseJsonStringArrayAt(json, pos, MAX_NTP_SERVERS);
      return;
    }
    found, pos := FindKey(json, 0, "server");
    if found {
      var out := new char[SERVER_SIZE];
      var parsed, len := ParseJsonStringAt(json, pos, out);
      return parsed, [out[..len]];
    }
    ok := true;
  }

  method GetDhcp(json: string) returns (dhcp: Option<bool>)
    ensures dhcp == ReadDhcp(json)
  {
    assert json[0..] == json;
    var found, _ := FindKey(json, 0, "use_dhcp_server");
    if !found {
      return Some(true);
    }
    dhcp := GetBool(json, 0, "use_dhcp_server");
  }

  /** On any error the given configuration is left as it was. */
  method ParseNtpJson(json: string, config: NtpConfig) returns (rc: int, result: NtpConfig)
    ensures rc == 0 <==> ParseNtp(json).Some?
    ensures rc == 0 ==> ParseNtp(json) == Some(result)
    ensures rc != 0 ==> rc == -EINVAL && result == config
  {
    assert json[0..] == json;
    result := config;
    var enabled := GetBool(json, 0, "enabled");
    if enabled == None {
      return -EINVAL, config;
    }
    var dhcp := GetDhcp(json);
    if dhcp == None {
      return -EINVAL, config;
    }
    var ok, servers := GetServers(json);
    if !ok {
      return -EINVAL, config;
    }
    var port := GetInt(json, 0, PORT);
    if port == None || port.value < 1 || port.value > 65535 {
      return -EINVAL, config;
    }
    var hours := GetInt(json, 0, HOURS);
    if hours == None || hours.value < 1 || hours.value > 720 {
      return -EINVAL, config;
    }
    if !dhcp.value && |servers| == 0 {
      return -EINVAL, config;
    }
    rc, result := 0, NtpConfig(enabled.value, dhcp.value, servers, port.value, hours.value);
  }

  // ----- the application configuration -----------------------------------

  method GetFan(json: string, name: string) returns (fan: Option<FanConfig>)
    ensures fan == ReadFan(json, name)
  {
    assert json[0..] == json;
    var found, section := FindKey(json, 0, name);
    if !found {
      return None;
    }
    var enabled := GetBool(json, section, "enabled");
    if enabled == None {
      return None;
    }
    var percent := GetInt(json, section, "percent");
    if percent == None || percent.value < 0 || percent.value > 100 {
      return None;
    }
    var adc := Some(false);
    var present, _ := FindKey(json, section, "use_adc_target");
    if present {
      adc := GetBool(json, section, "use_adc_target");
      if adc == None {
        return None;
      }
    }
    fan := Some(FanConfig(enabled.value, percent.value, adc.value));
  }

  method GetHost(json: string) returns (host: Option<(bool, nat)>)
    ensures host == ReadHost(json)
  {
    assert json[0..] == json;
    var found, section := FindKey(json, 0, "host");
    if !found {
      return Some((false, 5000));
    }
    var check := GetBool(json, section, "alive_check_enabled");
    if check == None {
      return None;
    }
    var timeout := GetInt(json, section, "alive_timeout_ms");
    if timeout == None || timeout.value < 500 || timeout.value > 600000 {
      return None;
    }
    host := Some((check.value, timeout.value));
  }

  method ParseJson(json: string, config: AppConfig) returns (rc: int, result: AppConfig)
    ensures rc == 0 <==> ParseApp(json).Some?
    ensures rc == 0 ==> ParseApp(json) == Some(result)
    ensures rc != 0 ==> rc == -EINVAL && result == config
  {
    result := config;
    var host := GetHost(json);
    if host == None {
      return -EINVAL, config;
    }
    var fan1 := GetFan(json, "fan1");
    if fan1 == None {
      return -EINVAL, config;
    }
    var fan2 := GetFan(json, "fan2");
    if fan2 == None {
      return -EINVAL, config;
    }
    rc, result := 0, AppConfig(host.value.0, host.value.1, fan1.value, fan2.value);
  }

  method PrintAll(json: array<char>, text: string) returns (rc: int)
    modifies json
    ensures rc == 0 <==> |text| < json.Length
    ensures rc == 0 ==> json[..|text|] == text && json[|text|] == NUL
    ensures rc != 0 ==> rc == if json.Length == 0 then -EINVAL else -ENOSPC
  {
    if json.Length == 0 {
      return -EINVAL;
    }
    var fits := Print(json, 0, text);
    rc := if fits then 0 else -ENOSPC;
  }

  method BuildJson(config: AppConfig, json: array<char>) returns (rc: int)
    modifies json
    ensures rc == 0 <==> |AppText(config)| < json.Length
    ensures rc == 0 ==> json[..|AppText(config)|] == AppText(config) && json[|AppText(config)|] == NUL
    ensures rc != 0 ==> rc == if json.Length == 0 then -EINVAL else -ENOSPC
  {
    rc := PrintAll(json, AppText(config));
  }

  const CONFIG_SIZE := 1024
  const NTP_SIZE := 768

  lemma {:induction false} DecimalLength(n: nat, digits: nat)
    requires 0 < digits && n < Power10(digits)
    ensures |Decimal(n)| <= digits
  {
    if n >= 10 {
      DecimalLength(n / 10, digits - 1);
    }
  }

  function Power10(n: nat): (p: nat)
    ensures p > 0
  {
    if n == 0 then 1 else 10 * Power10(n - 1)
  }

  lemma FieldLength(name: string, value: string, gap: string, rest: string)
    ensures |Field(name, value, gap, rest)| == |name| + 4 + |value| + |gap| + |rest|
  {}

  lemma FanLength(name: string, f: FanConfig, end: string, rest: string)
    requires f.percent <= 100
    ensures |Fan(name, f, end, rest)| <= |name| + |end| + |rest| + 82
  {
    assert Power10(3) == 1000;
    DecimalLength(f.percent, 3);
    var adc := Field("use_adc_target", BoolText(f.useAdcTarget), end, rest);
    FieldLength("use_adc_target", BoolText(f.useAdcTarget), end, rest);
    var percent := Field("percent", PrintInt(f.percent), FAN_GAP, adc);
    FieldLength("percent", PrintInt(f.percent), FAN_GAP, adc);
    FieldLength("enabled", BoolText(f.enabled), FAN_GAP, percent);
    FieldLength(name, "{\n      ", "", FanFields(f, end, rest));
  }

  /** The store's buffer always holds the text of a configuration in range. */
  lemma AppTextFits(c: AppConfig)
    requires c.InRange()
    ensures |AppText(c)| < CONFIG_SIZE
  {
    FanLength("fan2", c.fan2, FAN2_END, "");
    FanLength("fan1", c.fan1, FAN1_END, TextFrom(c, 0));
    FieldLength("fans", "{\n    ", "", TextFrom(c, 1));
    HostLength(c.hostAliveCheck, c.hostAliveTimeoutMs, TextFrom(c, 2));
    assert TextFrom(c, 3) == Host(c.hostAliveCheck, c.hostAliveTimeoutMs, TextFrom(c, 2));
  }

  lemma HostLength(check: bool, timeout: nat, rest: string)
    requires timeout <= 600000
    ensures |Version(Host(check, timeout, rest))| <= |rest| + 150
  {
    assert Power10(6) == 1000000 by {
      assert Power10(3) == 1000;
    }
    DecimalLength(timeout, 6);
    var inner := Field("alive_timeout_ms", PrintInt(timeout), "\n  },\n  ", rest);
    FieldLength("alive_timeout_ms", PrintInt(timeout), "\n  },\n  ", rest);
    FieldLength("alive_check_enabled", BoolText(check), ",\n    ", inner);
    FieldLength("host", "{\n    ", "", HostFields(check, timeout, rest));
    FieldLength("version", "1", ",\n  ", Host(check, timeout, rest));
  }

  // ----- the files -----------------------------------------------------------

  /** What becomes of writing a file: it is not opened, or truncated and then the write
      fails, or at most `room` bytes are written. */
  datatype Write = NotOpened(code: Failure) | WriteFailed(code: Failure) | Written(room: nat)

  /** The status of WriteTextFile. */
  function WriteStatus(text: string, w: Write): int {
    match w
    case NotOpened(code) => code
    case WriteFailed(code) => code
    case Written(room) => if |text| <= room then 0 else -EIO
  }

  /** What the file then holds. */
  function FileAfter(file: Option<string>, text: string, w: Write): Option<string> {
    match w
    case NotOpened(_) => file
    case WriteFailed(_) => Some("")
    case Written(room) => Some(if |text| <= room then text else text[..room])
  }

  /** Reported as done, the file holds the text; otherwise it is as it was or holds a
      proper part of the text, which is empty when the write failed at once. */
  lemma WriteOutcome(file: Option<string>, text: string, w: Write)
    ensures var rc, after := WriteStatus(text, w), FileAfter(file, text, w);
      && rc <= 0
      && (rc == 0 ==> after == Some(text))
      && (rc != 0 ==> after == file || after == Some("") || (after.Some? && after.value < text))
      && (rc == 0 <==> w.Written? && |text| <= w.room)
  {}

  lemma AcceptedNtp(text: string)
    requires ParseNtp(text).Some?
    ensures var c := ParseNtp(text).value;
      && Fit(c.servers) && CText(NtpText(c)) == NtpText(c)
      && (ParseNtp(NtpText(c)) == ParseNtp(text) <==> Storable(c))
  {
    ParsedIsValid(text);
    StoreKeepsAccepted(text);
    NtpTextHasNoNul(ParseNtp(text).value);
    CTextHasNoNul(NtpText(ParseNtp(text).value));
  }

  lemma AcceptedApp(text: string)
    requires ParseApp(text).Some?
    ensures var c := ParseApp(text).value;
      |AppText(c)| < CONFIG_SIZE && CText(AppText(c)) == AppText(c) && ParseApp(AppText(c)) == ParseApp(text)
  {
    AppTextFits(ParseApp(text).value);
    AppTextHasNoNul(ParseApp(text).value);
    CTextHasNoNul(AppText(ParseApp(text).value));
    StoredTextIsFixed(text);
  }

  /** The C string in a buffer that holds a text without NUL. */
  method TextIn(buffer: array<char>, ghost text: string) returns (s: string)
    requires |text| < buffer.Length && buffer[..|text|] == text && buffer[|text|] == NUL && NUL !in text
    ensures s == text
  {
    var len := StrLen(buffer, |text|);
    assert forall k :: 0 <= k < |text| ==> buffer[k] == buffer[..|text|][k] && text[k] in text;
    s := buffer[..len];
  }

  /** The two configuration files, as far as there are any. */
  class Store {
    var config: Option<string>
    var ntp: Option<string>

    constructor ()
      ensures config == None && ntp == None
    {
      config, ntp := None, None;
    }

    method SaveConfig(c: AppConfig, w: Write) returns (rc: int)
      modifies `config
      ensures var fits := |AppText(c)| < CONFIG_SIZE;
        && rc == (if fits then WriteStatus(AppText(c), w) else -ENOSPC)
        && config == if fits then FileAfter(old(config), AppText(c), w) else old(config)
    {
      var buffer := new char[CONFIG_SIZE];
      rc := BuildJson(c, buffer);
      if rc != 0 {
        return;
      }
      AppTextHasNoNul(c);
      var text := TextIn(buffer, AppText(c));
      rc, config := WriteStatus(text, w), FileAfter(config, text, w);
    }

    method SaveNtpConfig(c: NtpConfig, w: Write) returns (rc: int)
      requires Fit(c.servers)
      modifies `ntp
      ensures var fits := |NtpText(c)| < NTP_SIZE;
        && rc == (if fits then WriteStatus(NtpText(c), w) else -ENOSPC)
        && ntp == if fits then FileAfter(old(ntp), NtpText(c), w) else old(ntp)
    {
      var buffer := new char[NTP_SIZE];
      rc := BuildNtpJson(c, buffer);
      if rc != 0 {
        return;
      }
      NtpTextHasNoNul(c);
      var text := TextIn(buffer, NtpText(c));
      rc, ntp := WriteStatus(text, w), FileAfter(ntp, text, w);
    }

    /** Accepts exactly the bodies that fit and parse, up to their first NUL, if the file is
        written. Its text then parses to the accepted configuration, and storing it again
        stores the same. */
    method WriteConfigJson(json: array<char>, jsonLen: nat, w: Write) returns (rc: int)
      requires jsonLen <= json.Length
      modifies `config
      ensures var c := ParseApp(CText(json[..jsonLen]));
        && rc == (if jsonLen == 0 then -EINVAL else if jsonLen >= CONFIG_SIZE then -ENOSPC
                  else if c == None then -EINVAL else WriteStatus(AppText(c.value), w))
        && config == (if jsonLen == 0 || jsonLen >= CONFIG_SIZE || c == None then old(config)
                      else FileAfter(old(config), AppText(c.value), w))
        && (rc == 0 ==> config.Some? && CText(config.value) == config.value && ParseApp(config.value) == c)
    {
      if jsonLen == 0 {
        return -EINVAL;
      }
      if jsonLen >= CONFIG_SIZE {
        return -ENOSPC;
      }
      var text := TextOfBytes(json, jsonLen, CONFIG_SIZE);
      rc := StoreText(text, w);
    }

    /** The part of WriteConfigJson that works on the C string. */
    method StoreText(text: string, w: Write) returns (rc: int)
      modifies `config
      ensures var c := ParseApp(text);
        && rc == (if c == None then -EINVAL else WriteStatus(AppText(c.value), w))
        && config == (if c == None then old(config) else FileAfter(old(config), AppText(c.value), w))
        && (rc == 0 ==> config.Some? && CText(config.value) == config.value && ParseApp(config.value) == c)
    {
      var fan := FanConfig(true, 40, false);
      var parsed;
      rc, parsed := ParseJson(text, AppConfig(false, 5000, fan, fan));
      if rc != 0 {
        return;
      }
      AcceptedApp(text);
      rc := SaveConfig(parsed, w);
    }

    /** Accepts exactly the bodies that fit and parse, up to their first NUL, and whose
        configuration prints in the buffer, if the file is written. Loading then gives the
        accepted configuration exactly when it is storable. */
    method WriteNtpConfigJson(json: array<char>, jsonLen: nat, w: Write) returns (rc: int)
      requires jsonLen <= json.Length
      modifies `ntp
      ensures var c := ParseNtp(CText(json[..jsonLen]));
        && rc == (if jsonLen == 0 then -EINVAL else if jsonLen >= NTP_SIZE then -ENOSPC
                  else if c == None then -EINVAL else if |NtpText(c.value)| >= NTP_SIZE then -ENOSPC
                  else WriteStatus(NtpText(c.value), w))
        && ntp == (if jsonLen == 0 || jsonLen >= NTP_SIZE || c == None || |NtpText(c.value)| >= NTP_SIZE then old(ntp)
                   else FileAfter(old(ntp), NtpText(c.value), w))
        && (rc == 0 ==> ntp.Some? && CText(ntp.value) == ntp.value && (ParseNtp(ntp.value) == c <==> Storable(c.value)))
    {
      if jsonLen == 0 {
        return -EINVAL;
      }
      if jsonLen >= NTP_SIZE {
        return -ENOSPC;
      }
      var text := TextOfBytes(json, jsonLen, NTP_SIZE);
      rc := StoreNtpText(text, w);
    }

    /** The part of WriteNtpConfigJson that works on the C string. */
    method StoreNtpText(text: string, w: Write) returns (rc: int)
      modifies `ntp
      ensures var c := ParseNtp(text);
        && rc == (if c == None then -EINVAL else if |NtpText(c.value)| >= NTP_SIZE then -ENOSPC
                  else WriteStatus(NtpText(c.value), w))
        && ntp == (if c == None || |NtpText(c.value)| >= NTP_SIZE then old(ntp)
                   else FileAfter(old(ntp), NtpText(c.value), w))
        && (rc == 0 ==> ntp.Some? && CText(ntp.value) == ntp.value && (ParseNtp(ntp.value) == c <==> Storable(c.value)))
    {
      var parsed;
      rc, parsed := ParseNtpJson(text, NTP_DEFAULTS);
      if rc != 0 {
        return;
      }
      AcceptedNtp(text);
      rc := SaveNtpConfig(parsed, w);
    }
  }
}

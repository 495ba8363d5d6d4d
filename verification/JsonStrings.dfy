/** JSON strings and arrays of strings as the settings store prints and reads them. The
escapes are those of section 7 of RFC 8259 without \u, \b and \f. */
module JsonStrings {
  import opened CString

  /** Control characters without an escape of their own are printed as an underscore. */
  predicate Lossy(c: char) { c < ' ' && c != '\n' && c != '\r' && c != '\t' }

  function EscapeChar(c: char): (e: string)
    ensures 1 <= |e| <= 2
  {
    if c == '"' || c == '\\' then ['\\', c]
    else if c == '\n' then "\\n"
    else if c == '\r' then "\\r"
    else if c == '\t' then "\\t"
    else if c < ' ' then "_"
    else [c]
  }

  function Escape(s: string): string {
    if s == "" then "" else EscapeChar(s[0]) + Escape(s[1..])
  }

  /** EscapeJsonString into a buffer of `size` bytes of which `out` are used: it stops when
      two more characters might not fit. */
  function EscapeInto(s: string, out: nat, size: nat): string {
    if s == "" || out + 2 >= size then "" else EscapeChar(s[0]) + EscapeInto(s[1..], out + |EscapeChar(s[0])|, size)
  }

  lemma {:induction false} EscapeFits(s: string, out: nat, size: nat)
    requires out + 2 * |s| < size
    ensures EscapeInto(s, out, size) == Escape(s)
  {
    if s != "" {
      EscapeFits(s[1..], out + |EscapeChar(s[0])|, size);
    }
  }

  function Clean(s: string): (t: string)
    ensures |t| == |s|
    ensures t == s <==> forall i :: 0 <= i < |s| ==> !Lossy(s[i])
  {
    if s == "" then ""
    else
      var rest := Clean(s[1..]);
      assert s == [s[0]] + s[1..];
      [if Lossy(s[0]) then '_' else s[0]] + rest
  }

  // ----- reading ---------------------------------------------------------

  /** The rest of a string after its opening quote, into a buffer with room for `room`
      more characters and the terminator. */
  function ParseStringBody(t: string, room: nat): Option<string> {
    if t == "" then None
    else if t[0] == '"' then Some("")
    else if room == 0 then None
    else if t[0] == '\\' then
      if |t| < 2 then None
      else
        var c := t[1];
        var plain := if c == 'n' then '\n' else if c == 'r' then '\r' else if c == 't' then '\t' else c;
        if c == '"' || c == '\\' || c == '/' || c == 'n' || c == 'r' || c == 't' then
          match ParseStringBody(t[2..], room - 1)
          case None => None
          case Some(s) => Some([plain] + s)
        else None
    else
      match ParseStringBody(t[1..], room - 1)
      case None => None
      case Some(s) => Some([t[0]] + s)
  }

  function ParseString(t: string, size: nat): Option<string>
    requires size > 0
  {
    if t == "" || t[0] != '"' then None else ParseStringBody(t[1..], size - 1)
  }

  /** The text behind the next quote that has no backslash in front of it; `before` is the
      character in front of `t`. */
  function AfterQuote(before: char, t: string): (u: string)
    ensures |u| <= |t|
    decreases |t|
  {
    if t == "" then ""
    else if t[0] == '"' && before != '\\' then t[1..]
    else AfterQuote(t[0], t[1..])
  }

  const SERVER_SIZE := 64

  /** The elements of an array from its opening bracket or from behind a comma. */
  function ParseItems(t: string, room: nat): Option<seq<string>>
    decreases |t|, 1
  {
    var u := SkipSpaces(t);
    if u != "" && u[0] == ']' then Some([])
    else if room == 0 || u == "" then None
    else
      match ParseString(u, SERVER_SIZE)
      case None => None
      case Some(s) =>
        match NextItems(AfterQuote('"', u[1..]), room - 1)
        case None => None
        case Some(rest) => Some([s] + rest)
  }

  /** What comes behind an element. */
  function NextItems(t: string, room: nat): Option<seq<string>>
    decreases |t|, 0
  {
    var u := SkipSpaces(t);
    if u != "" && u[0] == ',' then ParseItems(u[1..], room)
    else if u != "" && u[0] == ']' then Some([])
    else None
  }

  function ParseArray(t: string, max: nat): Option<seq<string>> {
    var u := SkipSpaces(t);
    if u == "" || u[0] != '[' then None else ParseItems(u[1..], max)
  }

  // ----- printing --------------------------------------------------------

  /** The elements of an array in front of the text `tail`. */
  function Items(servers: seq<string>, tail: string): string
    requires servers != []
    decreases |servers|, 0
  {
    ['"'] + (Escape(servers[0]) + (['"'] + More(servers[1..], tail)))
  }

  function More(servers: seq<string>, tail: string): string
    decreases |servers|, 1
  {
    if servers == [] then tail else [',', ' '] + Items(servers, tail)
  }

  function Elements(servers: seq<string>, tail: string): string {
    if servers == [] then tail else Items(servers, tail)
  }

  // ----- one string ------------------------------------------------------

  lemma {:induction false} ParseEscaped(s: string, b: string, room: nat)
    requires |s| <= room
    ensures ParseStringBody(Escape(s) + (['"'] + b), room) == Some(Clean(s))
    decreases |s|
  {
    var t := Escape(s) + (['"'] + b);
    if s != "" {
      var e, rest := EscapeChar(s[0]), Escape(s[1..]) + (['"'] + b);
      assert t == e + rest;
      assert t[|e|..] == rest;
      ParseEscaped(s[1..], b, room - 1);
    }
  }

  // ----- what a string spells ----------------------------------------------

  /** A character of a string and how the text spells it. */
  datatype Spelled = Spelled(text: string, c: char)
  {
    predicate Valid() {
      || (text == [c] && c != '"' && c != '\\')
      || (text == "\\\"" && c == '"') || (text == "\\\\" && c == '\\') || (text == "\\/" && c == '/')
      || (text == "\\n" && c == '\n') || (text == "\\r" && c == '\r') || (text == "\\t" && c == '\t')
    }
  }

  predicate AllSpelled(ps: seq<Spelled>) { forall i :: 0 <= i < |ps| ==> ps[i].Valid() }

  function TextOf(ps: seq<Spelled>): string { if ps == [] then "" else ps[0].text + TextOf(ps[1..]) }

  function MeaningOf(ps: seq<Spelled>): (s: string)
    ensures |s| == |ps|
  {
    if ps == [] then "" else [ps[0].c] + MeaningOf(ps[1..])
  }

  /** What is printed for a character spells it, or is an underscore. */
  lemma EscapeSpells(c: char)
    ensures Spelled(EscapeChar(c), if Lossy(c) then '_' else c).Valid()
  {}

  /** What follows the opening quote: spelled characters and the quote, when they fit. */
  lemma {:induction false} ParseSpelled(ps: seq<Spelled>, b: string, room: nat)
    requires AllSpelled(ps)
    ensures ParseStringBody(TextOf(ps) + (['"'] + b), room) == if |ps| <= room then Some(MeaningOf(ps)) else None
    decreases |ps|
  {
    if ps != [] {
      var rest := TextOf(ps[1..]) + (['"'] + b);
      SpelledFirst(ps[0], rest, room);
      assert TextOf(ps) + (['"'] + b) == ps[0].text + rest;
      if room > 0 { ParseSpelled(ps[1..], b, room - 1); }
    }
  }

  lemma SpelledFirst(p: Spelled, rest: string, room: nat)
    requires p.Valid()
    ensures ParseStringBody(p.text + rest, room) ==
            if room == 0 then None
            else match ParseStringBody(rest, room - 1)
                 case None => None
                 case Some(s) => Some([p.c] + s)
  {
    var t := p.text + rest;
    assert |p.text| == 1 ==> t[1..] == rest;
    assert |p.text| == 2 ==> t[2..] == rest;
  }

  /** Any other escape refuses the string, and so does its end without a quote. */
  lemma {:induction false} ParseMisspelled(ps: seq<Spelled>, b: string, room: nat)
    requires AllSpelled(ps)
    requires b == "" || b == "\\" || (|b| > 1 && b[0] == '\\' && b[1] !in "\"\\/nrt")
    ensures ParseStringBody(TextOf(ps) + b, room) == None
    decreases |ps|
  {
    if ps == [] {
      assert TextOf(ps) + b == b;
    } else {
      var rest := TextOf(ps[1..]) + b;
      SpelledFirst(ps[0], rest, room);
      assert TextOf(ps) + b == ps[0].text + rest;
      if room > 0 { ParseMisspelled(ps[1..], b, room - 1); }
    }
  }

  predicate EndsInBackslash(before: char, s: string) {
    (if s == "" then before else s[|s| - 1]) == '\\'
  }

  /** Skipping a string by its closing quote works unless the string ends in a backslash:
      then the closing quote is taken for an escaped one. */
  lemma {:induction false} SkipEscaped(before: char, s: string, b: string)
    ensures AfterQuote(before, Escape(s) + (['"'] + b)) ==
            if EndsInBackslash(before, s) then AfterQuote('"', b) else b
    decreases |s|
  {
    var t := Escape(s) + (['"'] + b);
    if s == "" {
      assert t == ['"'] + b && t[1..] == b;
    } else {
      var e, rest := EscapeChar(s[0]), Escape(s[1..]) + (['"'] + b);
      assert t == e + rest;
      SkipEscaped(e[|e| - 1], s[1..], b);
      SkipEscapeOf(before, s[0], rest);
    }
  }

  lemma SkipEscapeOf(before: char, c: char, rest: string)
    ensures var e := EscapeChar(c); AfterQuote(before, e + rest) == AfterQuote(e[|e| - 1], rest)
    ensures var e := EscapeChar(c); e[|e| - 1] == '\\' <==> c == '\\'
  {
    var e := EscapeChar(c);
    var t := e + rest;
    if |e| == 2 {
      assert t[1..] == [e[1]] + rest && t[1..][1..] == rest;
    } else {
      assert t[1..] == rest;
    }
  }

  // ----- arrays ----------------------------------------------------------

  predicate Fit(servers: seq<string>) {
    forall i :: 0 <= i < |servers| ==> |servers[i]| < SERVER_SIZE
  }

  predicate Readable(s: string) {
    Clean(s) == s && !EndsInBackslash('"', s)
  }

  predicate AllReadable(servers: seq<string>) {
    forall i :: 0 <= i < |servers| ==> Readable(servers[i])
  }

  /** A tail that closes the array and goes on with a key on the next line. */
  predicate ClosesArray(tail: string) {
    |tail| > 6 && tail[..6] == "],\n  \"" && tail[6] != ',' && tail[6] != ']' && !IsSpace(tail[6])
  }

  function Body(s: string, after: string): string { Escape(s) + (['"'] + after) }

  lemma ItemsAreBodies(servers: seq<string>, tail: string)
    requires servers != []
    ensures Items(servers, tail) == ['"'] + Body(servers[0], More(servers[1..], tail))
  {}

  /** Space skipped inside a printed string is space of the string itself. */
  lemma {:induction false} SkipInBody(s: string, after: string) returns (rest: string)
    ensures SkipSpaces(Body(s, after)) == Body(rest, after)
    ensures |rest| <= |s| && (rest != s ==> s[0] == ' ')
    ensures rest != "" ==> Body(rest, after)[0] != '"' && (Body(rest, after)[0] == ',' ==> rest[0] == ',')
    decreases |s|
  {
    var t := Body(s, after);
    if s == "" {
      rest := s;
      assert t[0] == '"';
    } else {
      assert t == EscapeChar(s[0]) + Body(s[1..], after);
      if s[0] == ' ' {
        assert t[1..] == Body(s[1..], after);
        rest := SkipInBody(s[1..], after);
      } else {
        rest := s;
        assert t[0] == EscapeChar(s[0])[0];
      }
    }
  }

  lemma BodyTail(s: string, after: string)
    requires s != "" && s[0] == ','
    ensures Body(s, after)[0] == ',' && Body(s, after)[1..] == Body(s[1..], after)
  {
    assert Body(s, after) == [','] + Body(s[1..], after);
  }

  /** Text without quotes and backslashes. */
  predicate Unescaped(p: string) {
    forall i :: 0 <= i < |p| ==> p[i] != '"' && p[i] != '\\'
  }

  lemma {:induction false} ParseUnescaped(p: string, b: string, room: nat)
    requires Unescaped(p) && |p| <= room
    ensures ParseStringBody(p + (['"'] + b), room) == Some(p)
    decreases |p|
  {
    var t := p + (['"'] + b);
    if p != "" {
      assert t[1..] == p[1..] + (['"'] + b);
      ParseUnescaped(p[1..], b, room - 1);
      assert p == [p[0]] + p[1..];
    }
  }

  lemma {:induction false} SkipUnescaped(before: char, p: string, b: string)
    requires Unescaped(p) && (p == "" ==> before != '\\')
    ensures AfterQuote(before, p + (['"'] + b)) == b
    decreases |p|
  {
    var t := p + (['"'] + b);
    if p == "" {
      assert t[1..] == b;
    } else {
      assert t[1..] == p[1..] + (['"'] + b);
      SkipUnescaped(p[0], p[1..], b);
    }
  }

  /** The text between a closing quote and the next quote, and what follows that. */
  function Gap(rest: seq<string>): string {
    if rest == [] then "],\n  " else ", "
  }

  lemma MoreIsGap(rest: seq<string>, tail: string)
    requires ClosesArray(tail)
    ensures rest == [] ==> More(rest, tail) == Gap(rest) + (['"'] + tail[6..])
    ensures rest != [] ==> More(rest, tail) == Gap(rest) + (['"'] + Body(rest[0], More(rest[1..], tail)))
  {
    if rest == [] {
      assert tail == tail[..6] + tail[6..];
    }
  }

  /** A string read from a closing quote on is the gap; skipping it ends behind the next
      opening quote. */
  lemma FromClosingQuote(rest: seq<string>, tail: string)
    requires ClosesArray(tail)
    ensures ParseStringBody(More(rest, tail), 63) == Some(Gap(rest))
    ensures AfterQuote('"', More(rest, tail)) ==
            if rest == [] then tail[6..] else Body(rest[0], More(rest[1..], tail))
  {
    MoreIsGap(rest, tail);
    var b := if rest == [] then tail[6..] else Body(rest[0], More(rest[1..], tail));
    ParseUnescaped(Gap(rest), b, 63);
    SkipUnescaped('"', Gap(rest), b);
  }

  /** A reader that stands inside the next string instead of behind its predecessor never
      reads the remaining elements. */
  lemma {:induction false} MisreadsRest(servers: seq<string>, tail: string, room: nat)
    requires servers != [] && ClosesArray(tail)
    ensures NextItems(Body(servers[0], More(servers[1..], tail)), room) != Some(servers)
    decreases |servers|
  {
    var m := More(servers[1..], tail);
    var s := SkipInBody(servers[0], m);
    if s != "" && s[0] == ',' {
      BodyTail(s, m);
      var s1 := SkipInBody(s[1..], m);
      if s1 == "" && room > 0 {
        assert Body(s1, m) == ['"'] + m;
        MisreadsElement(servers, tail, room, Body(s[1..], m));
      }
    }
  }

  /** The same, when the string read starts at the closing quote of the first element. */
  lemma MisreadsElement(servers: seq<string>, tail: string, room: nat, t: string)
    requires servers != [] && ClosesArray(tail) && room > 0
    requires servers[0] != "" && (servers[0][0] == ' ' || servers[0][0] == ',')
    requires SkipSpaces(t) == ['"'] + More(servers[1..], tail)
    ensures ParseItems(t, room) != Some(servers)
    decreases |servers|, 0
  {
    var rest := servers[1..];
    var m := More(rest, tail);
    FromClosingQuote(rest, tail);
    assert (['"'] + m)[1..] == m;
    if rest != [] {
      MisreadsRest(rest, tail, room - 1);
    }
    ConsEquals(Gap(rest), NextItems(AfterQuote('"', m), room - 1), servers);
  }

  lemma OneElement(servers: seq<string>, tail: string, room: nat)
    requires servers != [] && |servers[0]| < SERVER_SIZE && ClosesArray(tail) && room > 0
    ensures var rest := More(servers[1..], tail);
            var next := if EndsInBackslash('"', servers[0]) then AfterQuote('"', rest) else rest;
            ParseItems(Items(servers, tail), room) ==
              match NextItems(next, room - 1)
              case None => None
              case Some(others) => Some([Clean(servers[0])] + others)
  {
    var t, rest := Items(servers, tail), More(servers[1..], tail);
    ItemsAreBodies(servers, tail);
    assert t[1..] == Body(servers[0], rest);
    ParseEscaped(servers[0], rest, 63);
    SkipEscaped('"', servers[0], rest);
  }

  lemma BackslashMisreads(servers: seq<string>, tail: string, room: nat)
    requires servers != [] && |servers[0]| < SERVER_SIZE && ClosesArray(tail) && room > 0
    requires EndsInBackslash('"', servers[0])
    ensures ParseItems(Elements(servers, tail), room) != Some(servers)
  {
    var rest := servers[1..];
    OneElement(servers, tail, room);
    FromClosingQuote(rest, tail);
    if rest != [] {
      MisreadsRest(rest, tail, room - 1);
    }
    ConsEquals(Clean(servers[0]), NextItems(AfterQuote('"', More(rest, tail)), room - 1), servers);
  }

  lemma FirstThenRest(servers: seq<string>, tail: string, room: nat)
    requires servers != [] && |servers[0]| < SERVER_SIZE && ClosesArray(tail) && room > 0
    requires !EndsInBackslash('"', servers[0])
    ensures ParseItems(Elements(servers, tail), room) == Some(servers) <==>
            Clean(servers[0]) == servers[0] && ParseItems(Elements(servers[1..], tail), room - 1) == Some(servers[1..])
  {
    var rest := servers[1..];
    OneElement(servers, tail, room);
    BehindElement(rest, tail, room - 1);
    if rest == [] {
      NoElements(tail, room - 1);
    }
    ConsEquals(Clean(servers[0]), NextItems(More(rest, tail), room - 1), servers);
  }

  lemma BackslashUnreadable(servers: seq<string>)
    requires servers != [] && EndsInBackslash('"', servers[0])
    ensures !AllReadable(servers)
  {
    assert !Readable(servers[0]);
  }

  lemma NoElements(tail: string, room: nat)
    requires ClosesArray(tail)
    ensures ParseItems(Elements([], tail), room) == Some([])
  {
    assert tail[0] == tail[..6][0];
  }

  lemma ArrayStep(servers: seq<string>, tail: string, room: nat)
    requires servers != [] && |servers[0]| < SERVER_SIZE && ClosesArray(tail) && room > 0
    requires !EndsInBackslash('"', servers[0])
    requires ParseItems(Elements(servers[1..], tail), room - 1) == Some(servers[1..]) <==> AllReadable(servers[1..])
    ensures ParseItems(Elements(servers, tail), room) == Some(servers) <==> AllReadable(servers)
  {
    FirstThenRest(servers, tail, room);
    AllReadableStep(servers);
  }

  /** The array of the printed strings is read back exactly when every string reads back
      and none ends in a backslash. */
  lemma {:induction false} ArrayRoundTrip(servers: seq<string>, tail: string, room: nat)
    requires Fit(servers) && |servers| <= room && ClosesArray(tail)
    ensures ParseItems(Elements(servers, tail), room) == Some(servers) <==> AllReadable(servers)
    decreases |servers|
  {
    if servers == [] {
      NoElements(tail, room);
    } else if EndsInBackslash('"', servers[0]) {
      BackslashMisreads(servers, tail, room);
      BackslashUnreadable(servers);
    } else {
      ArrayRoundTrip(servers[1..], tail, room - 1);
      ArrayStep(servers, tail, room);
    }
  }

  lemma ConsEquals(x: string, others: Option<seq<string>>, servers: seq<string>)
    requires servers != []
    ensures (match others case None => None case Some(o) => Some([x] + o)) == Some(servers) <==>
            x == servers[0] && others == Some(servers[1..])
  {
    if others.Some? {
      assert ([x] + others.value)[1..] == others.value;
      if x == servers[0] && others.value == servers[1..] {
        assert [x] + others.value == servers;
      }
    }
  }

  lemma BehindElement(rest: seq<string>, tail: string, room: nat)
    requires ClosesArray(tail)
    ensures NextItems(More(rest, tail), room) == if rest == [] then Some([]) else ParseItems(Elements(rest, tail), room)
  {
    if rest == [] {
      assert tail[0] == tail[..6][0];
    } else {
      var m := More(rest, tail);
      assert m[1..] == [' '] + Items(rest, tail) && ([' '] + Items(rest, tail))[1..] == Items(rest, tail);
      assert SkipSpaces(m) == m && SkipSpaces(m[1..]) == SkipSpaces(Items(rest, tail));
    }
  }

  lemma AllReadableStep(servers: seq<string>)
    requires servers != []
    ensures AllReadable(servers) <==> Readable(servers[0]) && AllReadable(servers[1..])
  {
    if Readable(servers[0]) && AllReadable(servers[1..]) {
      forall i | 0 <= i < |servers|
        ensures Readable(servers[i])
      {
        assert i > 0 ==> Readable(servers[1..][i - 1]);
      }
    }
  }

  // ----- no terminator is printed ------------------------------------------

  lemma {:induction false} EscapeHasNoNul(s: string)
    ensures NUL !in Escape(s)
  {
    if s != "" {
      assert NUL !in EscapeChar(s[0]);
      EscapeHasNoNul(s[1..]);
    }
  }

  lemma {:induction false} MoreHasNoNul(servers: seq<string>, tail: string)
    requires NUL !in tail
    ensures NUL !in More(servers, tail) && NUL !in Elements(servers, tail)
    decreases |servers|
  {
    if servers != [] {
      EscapeHasNoNul(servers[0]);
      MoreHasNoNul(servers[1..], tail);
      assert NUL !in Items(servers, tail);
    }
  }
}

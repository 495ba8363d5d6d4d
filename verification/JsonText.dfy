/** Scanning JSON text as the settings store does: a cursor is the text that is left,
and keys are looked for by searching the text for the quoted name. */
module JsonText {

  import opened CString

  function Quoted(name: string): string { ['"'] + name + ['"'] }

  /** What follows the first occurrence of the quoted key. */
  function AfterKey(t: string, key: string): Option<string> {
    match StrStr(t, Quoted(key))
    case None => None
    case Some(u) => Some(u[|Quoted(key)|..])
  }

  /** The text behind the first colon, leading space skipped. */
  function AfterColon(t: string): Option<string> {
    match StrChr(t, ':')
    case None => None
    case Some(u) => Some(SkipSpaces(u[1..]))
  }

  function FindJsonKey(t: string, key: string): Option<string> {
    match AfterKey(t, key)
    case None => None
    case Some(u) => AfterColon(u)
  }

  // ----- values ----------------------------------------------------------

  function ParseBool(t: string): Option<bool> {
    if StartsWith(t, "true") then Some(true)
    else if StartsWith(t, "false") then Some(false)
    else None
  }

  const LONG_MAX := 0x7fff_ffff
  const LONG_MIN := -0x8000_0000

  /** The digits at the start of `t`, as a number that starts with `value`. */
  function Digits(t: string, value: nat): nat {
    if t != "" && IsDigit(t[0]) then Digits(t[1..], value * 10 + (t[0] - '0') as nat) else value
  }

  function Saturate(n: int): int {
    if n > LONG_MAX then LONG_MAX else if n < LONG_MIN then LONG_MIN else n
  }

  /** strtol in base ten: space, a sign, digits; out of range values saturate. */
  function ParseInt(t: string): Option<int> {
    var u := SkipSpaces(t);
    var negative := u != "" && u[0] == '-';
    var v := if u != "" && (u[0] == '-' || u[0] == '+') then u[1..] else u;
    if v == "" || !IsDigit(v[0]) then None
    else
      var n: int := Digits(v, 0);
      Some(Saturate(if negative then -n else n))
  }

  /** The text of a number, as %d and %u print one that is not negative. */
  function Decimal(n: nat): (s: string)
    ensures s != "" && forall i :: 0 <= i < |s| ==> IsDigit(s[i])
  {
    if n < 10 then [DigitChar(n)] else Decimal(n / 10) + [DigitChar(n % 10)]
  }

  function DigitChar(d: nat): (c: char)
    requires d < 10
    ensures IsDigit(c) && (c - '0') as nat == d
  {
    '0' + d as char
  }

  lemma {:induction false} DigitsOfConcat(a: string, b: string, value: nat)
    requires forall i :: 0 <= i < |a| ==> IsDigit(a[i])
    ensures Digits(a + b, value) == Digits(b, Digits(a, value))
    decreases |a|
  {
    if a == "" {
      assert a + b == b;
    } else {
      assert (a + b)[1..] == a[1..] + b;
      DigitsOfConcat(a[1..], b, value * 10 + (a[0] - '0') as nat);
    }
  }

  lemma {:induction false} DigitsOfDecimal(n: nat)
    ensures Digits(Decimal(n), 0) == n
  {
    if n >= 10 {
      DigitsOfDecimal(n / 10);
      var last := [DigitChar(n % 10)];
      DigitsOfConcat(Decimal(n / 10), last, 0);
      assert last[1..] == "";
      assert Digits(last, n / 10) == n / 10 * 10 + n % 10;
    } else {
      assert Decimal(n)[1..] == "";
    }
  }

  /** Reading a printed number gives it back, whatever follows that is no digit, or the
      largest number there is. */
  lemma IntRoundTrip(n: nat, rest: string)
    requires rest != "" ==> !IsDigit(rest[0])
    ensures ParseInt(Decimal(n) + rest) == Some(Saturate(n))
  {
    DigitsOfConcat(Decimal(n), rest, 0);
    DigitsOfDecimal(n);
    assert (Decimal(n) + rest)[0] == Decimal(n)[0];
  }

  lemma ParseSigned(sign: char, digits: string)
    requires sign == '-' || sign == '+'
    requires digits != "" && IsDigit(digits[0])
    ensures ParseInt([sign] + digits) ==
            Some(Saturate(if sign == '-' then 0 - Digits(digits, 0) else Digits(digits, 0) as int))
    ensures ParseInt(digits) == Some(Saturate(Digits(digits, 0)))
  {
    assert ([sign] + digits)[1..] == digits;
  }

  /** A number of either sign, with the limits of 32 bits. */
  lemma SignedRoundTrip(n: nat, rest: string)
    requires rest != "" ==> !IsDigit(rest[0])
    ensures ParseInt(['+'] + (Decimal(n) + rest)) == Some(if n > 0x7fff_ffff then 0x7fff_ffff else n as int)
    ensures ParseInt(['-'] + (Decimal(n) + rest)) == Some(if n > 0x8000_0000 then -0x8000_0000 else 0 - n)
  {
    DigitsOfConcat(Decimal(n), rest, 0);
    DigitsOfDecimal(n);
    assert (Decimal(n) + rest)[0] == Decimal(n)[0];
    ParseSigned('+', Decimal(n) + rest);
    ParseSigned('-', Decimal(n) + rest);
  }

  lemma {:induction false} BlanksBefore(blanks: string, t: string)
    requires forall i :: 0 <= i < |blanks| ==> IsSpace(blanks[i])
    ensures ParseInt(blanks + t) == ParseInt(t)
  {
    if blanks == "" {
      assert blanks + t == t;
    } else {
      assert (blanks + t)[1..] == blanks[1..] + t;
      BlanksBefore(blanks[1..], t);
    }
  }

  /** Only a number reads as one. */
  lemma NoNumber(t: string)
    requires t != "" && !IsSpace(t[0]) && !IsDigit(t[0]) && t[0] != '-' && t[0] != '+'
    ensures ParseInt(t) == None
  {}

  // ----- searching text that is put together from pieces ------------------

  /** Text without quotes, colons, or anything that is escaped. */
  predicate Plain(name: string) {
    forall i :: 0 <= i < |name| ==> name[i] >= ' ' && name[i] != '"' && name[i] != '\\' && name[i] != ':'
  }

  /** A key that text can be searched for. */
  predicate SearchKey(key: string) { Plain(key) && key != "" && key[0] != ':' }

  lemma {:induction false} SkipUnquoted(a: string, b: string, key: string)
    requires '"' !in a
    ensures AfterKey(a + b, key) == AfterKey(b, key)
  {
    if a == "" {
      assert a + b == b;
    } else {
      assert (a + b)[1..] == a[1..] + b;
      assert Quoted(key)[0] == '"' && (a + b)[0] == a[0] && a[0] in a;
      SkipUnquoted(a[1..], b, key);
    }
  }

  lemma QuotedStart(t: string, key: string)
    ensures StartsWith(t, Quoted(key)) <==> t != "" && t[0] == '"' && StartsWith(t[1..], key + ['"'])
  {
    var p := key + ['"'];
    assert Quoted(key) == ['"'] + p;
    if |p| < |t| {
      assert t[..|Quoted(key)|] == [t[0]] + t[1..][..|p|];
    }
  }

  /** A name ends where its quote is: two plain names followed by a quote agree or differ
      before it. */
  lemma NameStart(name: string, b: string, key: string)
    requires Plain(name) && Plain(key)
    ensures StartsWith(name + ['"'] + b, key + ['"']) <==> name == key
  {
    var t := name + ['"'] + b;
    var p := key + ['"'];
    if StartsWith(t, p) {
      assert forall i :: 0 <= i < |p| ==> t[i] == t[..|p|][i] == p[i];
      assert t[|name|] == '"' && p[|key|] == '"';
      assert |name| == |key|;
      assert forall i :: 0 <= i < |name| ==> name[i] == t[i] && key[i] == p[i];
      assert name == key;
    }
  }

  /** Past a quoted name that is not the key, when what follows cannot start the key. */
  lemma SkipName(name: string, b: string, key: string)
    requires Plain(name) && Plain(key) && key != "" && name != key
    requires b == "" || b[0] != key[0]
    ensures AfterKey(Quoted(name) + b, key) == AfterKey(b, key)
  {
    var t := Quoted(name) + b;
    assert t[1..] == name + (['"'] + b);
    assert name + ['"'] + b == t[1..];
    NameStart(name, b, key);
    QuotedStart(t, key);
    StrStrStep(t, key);
    SkipUnquoted(name, ['"'] + b, key);
    SkipQuote(b, key);
  }

  lemma StrStrStep(t: string, key: string)
    requires t != "" && !StartsWith(t, Quoted(key))
    ensures AfterKey(t, key) == AfterKey(t[1..], key)
  {}

  lemma SkipQuote(b: string, key: string)
    requires key != "" && (b == "" || b[0] != key[0])
    ensures AfterKey(['"'] + b, key) == AfterKey(b, key)
  {
    var t := ['"'] + b;
    assert t[1..] == b;
    QuotedStart(t, key);
    StrStrStep(t, key);
  }

  lemma HitName(key: string, b: string)
    ensures AfterKey(Quoted(key) + b, key) == Some(b)
  {
    var t := Quoted(key) + b;
    assert t[..|Quoted(key)|] == Quoted(key);
    assert t[|Quoted(key)|..] == b;
  }

  /** A field of an object: the quoted name, a colon and a space, the value. */
  lemma FieldFound(key: string, value: string, b: string)
    requires value + b != "" && !IsSpace((value + b)[0])
    ensures FindJsonKey(Quoted(key) + (": " + (value + b)), key) == Some(value + b)
  {
    HitName(key, ": " + (value + b));
    var t := ": " + (value + b);
    assert t[0] == ':' && t[1..] == " " + (value + b);
    assert (" " + (value + b))[1..] == value + b;
    assert SkipSpaces(" " + (value + b)) == value + b;
  }

  lemma {:induction false} NoColonBefore(a: string, b: string)
    requires ':' !in a
    ensures AfterColon(a + b) == AfterColon(b)
  {
    if a == "" {
      assert a + b == b;
    } else {
      assert (a + b)[1..] == a[1..] + b;
      assert a[0] in a;
      NoColonBefore(a[1..], b);
    }
  }

  /** A field that is not the key's is passed over, given a value without quotes. */
  lemma SkipField(name: string, value: string, b: string, key: string)
    requires Plain(name) && Plain(key) && key != "" && name != key && key[0] != ':' && '"' !in value
    ensures AfterKey(Quoted(name) + (": " + (value + b)), key) == AfterKey(b, key)
  {
    SkipName(name, ": " + (value + b), key);
    SkipUnquoted(": ", value + b, key);
    SkipUnquoted(value, b, key);
  }

  /** The same with the text between the value and the next field. */
  lemma PassField(name: string, value: string, gap: string, b: string, key: string)
    requires Plain(name) && Plain(key) && key != "" && name != key && key[0] != ':'
    requires '"' !in value && '"' !in gap
    ensures AfterKey(Quoted(name) + (": " + (value + (gap + b))), key) == AfterKey(b, key)
  {
    SkipField(name, value, gap + b, key);
    SkipUnquoted(gap, b, key);
  }

  function BoolText(b: bool): string { if b then "true" else "false" }

  lemma BoolRoundTrip(v: bool, b: string)
    ensures ParseBool(BoolText(v) + b) == Some(v)
  {
    assert (BoolText(v) + b)[..|BoolText(v)|] == BoolText(v);
    if !v {
      assert (BoolText(v) + b)[..4][0] == 'f';
    }
  }

  /** Nothing else reads as a truth value. */
  lemma BoolReads(t: string, v: bool)
    ensures ParseBool(t) == Some(v) <==> exists rest :: t == BoolText(v) + rest
  {
    var k := |BoolText(v)|;
    if ParseBool(t) == Some(v) {
      assert t == BoolText(v) + t[k..];
    }
    if exists rest :: t == BoolText(v) + rest {
      var rest :| t == BoolText(v) + rest;
      BoolRoundTrip(v, rest);
    }
  }

  function PrintInt(n: int): string { if n < 0 then ['-'] + Decimal(-n) else Decimal(n) }

  lemma PrintedInt(n: nat)
    ensures PrintInt(n) != "" && IsDigit(PrintInt(n)[0]) && '"' !in PrintInt(n)
  {}

  function ReadInt(t: string, key: string): Option<int> {
    match FindJsonKey(t, key)
    case None => None
    case Some(u) => ParseInt(u)
  }

  function ReadBool(t: string, key: string): Option<bool> {
    match FindJsonKey(t, key)
    case None => None
    case Some(u) => ParseBool(u)
  }

  lemma ReadsPrintedInt(key: string, n: nat, b: string)
    requires b != "" && !IsDigit(b[0])
    ensures ReadInt(Quoted(key) + (": " + (PrintInt(n) + b)), key) == Some(Saturate(n))
  {
    PrintedInt(n);
    assert (PrintInt(n) + b)[0] == PrintInt(n)[0];
    FieldFound(key, PrintInt(n), b);
    IntRoundTrip(n, b);
  }

  lemma ReadsPrintedBool(key: string, v: bool, b: string)
    ensures ReadBool(Quoted(key) + (": " + (BoolText(v) + b)), key) == Some(v)
    ensures FindJsonKey(Quoted(key) + (": " + (BoolText(v) + b)), key) != None
  {
    assert (BoolText(v) + b)[0] == BoolText(v)[0];
    FieldFound(key, BoolText(v), b);
    BoolRoundTrip(v, b);
  }
}

/** Texts put together from fields whose values are truth values, numbers or sections, in
any order, and what is read from them. */
module JsonEntries {
  import opened CString
  import opened JsonText

  datatype Value = Flag(b: bool) | Number(n: int) | Section

  datatype Entry = Entry(name: string, value: Value)

  function ValueText(v: Value): string {
    match v
    case Flag(b) => BoolText(b)
    case Number(n) => PrintInt(n)
    case Section => "{"
  }

  function Gap(v: Value): string { if v.Section? then "\n" else ",\n" }

  /** The entries one behind the other, and the closing braces. */
  function Written(es: seq<Entry>): string {
    if es == [] then "\n}}}\n"
    else Quoted(es[0].name) + (": " + (ValueText(es[0].value) + (Gap(es[0].value) + Written(es[1..]))))
  }

  predicate Names(es: seq<Entry>) { forall i :: 0 <= i < |es| ==> Plain(es[i].name) }

  // ----- the meaning of the entries ----------------------------------------

  /** The entries from the first of this name on. */
  function From(es: seq<Entry>, name: string): (r: seq<Entry>)
    ensures r != [] ==> r[0].name == name
    ensures |r| <= |es| && (Names(es) ==> Names(r))
    ensures r == [] <==> forall i :: 0 <= i < |es| ==> es[i].name != name
  {
    if es == [] || es[0].name == name then es else From(es[1..], name)
  }

  function FlagOf(es: seq<Entry>, name: string): Option<bool> {
    var r := From(es, name);
    if r != [] && r[0].value.Flag? then Some(r[0].value.b) else None
  }

  function NumberOf(es: seq<Entry>, name: string): Option<int> {
    var r := From(es, name);
    if r != [] && r[0].value.Number? then Some(Saturate(r[0].value.n)) else None
  }

  predicate InRange(n: Option<int>, low: int, high: int) { n.Some? && low <= n.value <= high }

  // ----- searching ---------------------------------------------------------

  lemma ValueIsText(v: Value)
    ensures var t := ValueText(v); t != "" && !IsSpace(t[0]) && '"' !in t && '"' !in Gap(v)
  {
    if v.Number? && v.n < 0 {
      assert '"' !in ['-'] + Decimal(-v.n);
    }
  }

  /** The text from the value of the first entry on. */
  function ValueOn(es: seq<Entry>): string
    requires es != []
  {
    ValueText(es[0].value) + (Gap(es[0].value) + Written(es[1..]))
  }

  ghost predicate Finds(t: string, key: string, r: seq<Entry>) {
    FindJsonKey(t, key) == if r == [] then None else Some(ValueOn(r))
  }

  /** The search finds the value of the first entry of the name. */
  lemma {:induction false} FindsEntry(es: seq<Entry>, key: string)
    requires Names(es) && SearchKey(key)
    ensures Finds(Written(es), key, From(es, key))
  {
    if es == [] {
      SkipUnquoted("\n}}}\n", "", key);
      assert "\n}}}\n" + "" == "\n}}}\n";
    } else {
      var e, rest := es[0], Written(es[1..]);
      ValueIsText(e.value);
      if e.name == key {
        FieldFound(key, ValueText(e.value), Gap(e.value) + rest);
      } else {
        PassField(e.name, ValueText(e.value), Gap(e.value), rest, key);
        FindsEntry(es[1..], key);
      }
    }
  }

  /** So it does from inside a section. */
  lemma FindsBehind(own: seq<Entry>, key: string)
    requires own != [] && Names(own) && SearchKey(key) && own[0].name != key
    ensures Finds(ValueOn(own), key, From(own, key))
  {
    var e, rest := own[0], Written(own[1..]);
    ValueIsText(e.value);
    SkipUnquoted(ValueText(e.value), Gap(e.value) + rest, key);
    SkipUnquoted(Gap(e.value), rest, key);
    FindsEntry(own[1..], key);
  }

  lemma FlagParses(b: bool, more: string)
    ensures ParseBool(BoolText(b) + more) == Some(b) && ParseInt(BoolText(b) + more) == None
  {
    BoolRoundTrip(b, more);
    assert (BoolText(b) + more)[0] == BoolText(b)[0];
    NoNumber(BoolText(b) + more);
  }

  lemma NumberParses(n: int, more: string)
    requires more != "" && !IsDigit(more[0])
    ensures ParseBool(PrintInt(n) + more) == None && ParseInt(PrintInt(n) + more) == Some(Saturate(n))
  {
    assert (PrintInt(n) + more)[0] == PrintInt(n)[0];
    NoBool(PrintInt(n) + more);
    if n < 0 {
      NegativeParses(-n, more);
    } else {
      IntRoundTrip(n, more);
    }
  }

  lemma NegativeParses(n: nat, more: string)
    requires more != "" && !IsDigit(more[0])
    ensures ParseInt((['-'] + Decimal(n)) + more) == Some(Saturate(0 - n))
  {
    SignedRoundTrip(n, more);
    assert (['-'] + Decimal(n)) + more == ['-'] + (Decimal(n) + more);
  }

  lemma NoBool(t: string)
    requires t != "" && t[0] != 't' && t[0] != 'f'
    ensures ParseBool(t) == None
  {
    assert |t| >= 4 ==> t[..4][0] == t[0];
    assert |t| >= 5 ==> t[..5][0] == t[0];
  }

  lemma SectionParses(more: string)
    ensures ParseBool("{" + more) == None && ParseInt("{" + more) == None
  {
    NoBool("{" + more);
    NoNumber("{" + more);
  }

  lemma ValueParses(v: Value, more: string)
    requires more != "" && !IsDigit(more[0])
    ensures ParseBool(ValueText(v) + more) == if v.Flag? then Some(v.b) else None
    ensures ParseInt(ValueText(v) + more) == if v.Number? then Some(Saturate(v.n)) else None
  {
    match v {
      case Flag(b) => FlagParses(b, more);
      case Number(n) => NumberParses(n, more);
      case Section => SectionParses(more);
    }
  }

  /** What is read under a key in a section that starts with the entries `own`. */
  ghost predicate Reads(t: string, own: seq<Entry>, key: string) {
    && ReadBool(t, key) == FlagOf(own, key) && ReadInt(t, key) == NumberOf(own, key)
    && (FindJsonKey(t, key) == None <==> From(own, key) == [])
  }

  lemma ReadsEntry(es: seq<Entry>, key: string)
    requires Names(es) && SearchKey(key)
    ensures Reads(Written(es), es, key)
  {
    FindsEntry(es, key);
    ReadsValue(From(es, key));
  }

  lemma ReadsValue(r: seq<Entry>)
    ensures r != [] ==> ParseBool(ValueOn(r)) == if r[0].value.Flag? then Some(r[0].value.b) else None
    ensures r != [] ==> ParseInt(ValueOn(r)) == if r[0].value.Number? then Some(Saturate(r[0].value.n)) else None
  {
    if r != [] {
      ValueParses(r[0].value, Gap(r[0].value) + Written(r[1..]));
    }
  }

  lemma ReadsBehind(own: seq<Entry>, key: string)
    requires own != [] && Names(own) && SearchKey(key) && own[0].name != key
    ensures Reads(ValueOn(own), own, key)
  {
    FindsBehind(own, key);
    ReadsValue(From(own, key));
  }
}

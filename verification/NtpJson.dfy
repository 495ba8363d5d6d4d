/** The NTP configuration as JSON text, and what is read back from that text. */
module NtpJson {
  import opened CString
  import opened JsonText
  import opened JsonStrings

  const MAX_NTP_SERVERS := 6

  datatype NtpConfig = NtpConfig(
    enabled: bool, useDhcpServer: bool, servers: seq<string>, port: int, syncIntervalHours: int)
  {
    /** What fits into the configuration record and passes the parser's range checks. */
    predicate Valid() {
      && |servers| <= MAX_NTP_SERVERS && Fit(servers)
      && 1 <= port <= 65535 && 1 <= syncIntervalHours <= 720
      && (useDhcpServer || servers != [])
    }
  }

  const PORT := "port"
  const HOURS := "sync_interval_hours"

  const NTP_DEFAULTS :=
    NtpConfig(true, true, ["223.5.5.5", "114.114.114.114", "120.25.115.20", "pool.ntp.org"], 123, 24)

  // ----- printing --------------------------------------------------------

  function HoursField(c: NtpConfig): string {
    Quoted(HOURS) + (": " + (PrintInt(c.syncIntervalHours) + "\n}\n"))
  }

  function PortField(c: NtpConfig): string {
    Quoted(PORT) + (": " + (PrintInt(c.port) + (",\n  " + HoursField(c))))
  }

  function Tail(c: NtpConfig): string { "],\n  " + PortField(c) }

  function ServersField(c: NtpConfig): string {
    Quoted("servers") + (": " + ("[" + Elements(c.servers, Tail(c))))
  }

  function DhcpField(c: NtpConfig): string {
    Quoted("use_dhcp_server") + (": " + (BoolText(c.useDhcpServer) + (",\n  " + ServersField(c))))
  }

  function NtpText(c: NtpConfig): string {
    "{\n  " + (Quoted("enabled") + (": " + (BoolText(c.enabled) + (",\n  " + DhcpField(c)))))
  }

  // ----- reading ---------------------------------------------------------

  /** The server list: an array under "servers", else one string under "server", else the
      defaults; None when what is there does not parse. */
  function ReadServers(t: string): Option<seq<string>> {
    match FindJsonKey(t, "servers")
    case Some(u) => ParseArray(u, MAX_NTP_SERVERS)
    case None =>
      match FindJsonKey(t, "server")
      case None => Some(NTP_DEFAULTS.servers)
      case Some(u) =>
        match ParseString(u, SERVER_SIZE)
        case None => None
        case Some(s) => Some([s])
  }

  /** The flag is optional and on by default. */
  function ReadDhcp(t: string): Option<bool> {
    if FindJsonKey(t, "use_dhcp_server") == None then Some(true) else ReadBool(t, "use_dhcp_server")
  }

  /** ParseNtpJson; None is its error return. */
  function ParseNtp(t: string): Option<NtpConfig> {
    var enabled := ReadBool(t, "enabled");
    var dhcp := ReadDhcp(t);
    var servers := ReadServers(t);
    var port := ReadInt(t, PORT);
    var hours := ReadInt(t, HOURS);
    if enabled == None || dhcp == None || servers == None || port == None || hours == None then None
    else if !(1 <= port.value <= 65535) || !(1 <= hours.value <= 720) then None
    else if !dhcp.value && servers.value == [] then None
    else Some(NtpConfig(enabled.value, dhcp.value, servers.value, port.value, hours.value))
  }

  // ----- what a key finds in the server list -------------------------------

  /** The text between the quotes of the printed string can be taken for the key. */
  predicate EndsQuoted(s: string, key: string) {
    |key| < |s| && s[|s| - |key| - 1] == '"' && s[|s| - |key|..] == key
  }

  predicate Hit(s: string, key: string) { s == key || EndsQuoted(s, key) }

  lemma {:induction false} KeyInBodyStart(s: string, b: string, key: string)
    requires Plain(key) && Clean(s) == s
    ensures StartsWith(Body(s, b), key + ['"']) <==> s == key
    decreases |s|
  {
    var t, p := Body(s, b), key + ['"'];
    if s == "" {
      assert t[0] == '"' && p[0] == if key == "" then '"' else key[0];
      assert key == "" ==> t[..1] == p;
      if StartsWith(t, p) { assert t[..|p|][0] == p[0]; }
    } else {
      var e := EscapeChar(s[0]);
      assert t == e + Body(s[1..], b);
      assert !Lossy(s[0]);
      assert Clean(s[1..]) == s[1..];
      if key == "" {
        assert t[0] != '"' && p == ['"'] + "";
        StartsWithCons(t, '"', "");
      } else {
        KeyInBodyStart(s[1..], b, key[1..]);
        assert p == [key[0]] + (key[1..] + ['"']);
        StartsWithCons(t, key[0], key[1..] + ['"']);
        assert t[0] == key[0] ==> |e| == 1 && t[1..] == Body(s[1..], b);
        assert s == key <==> s[0] == key[0] && s[1..] == key[1..] by {
          assert s == [s[0]] + s[1..] && key == [key[0]] + key[1..];
        }
      }
    }
  }

  lemma StartsWithCons(t: string, c: char, p: string)
    requires t != ""
    ensures StartsWith(t, [c] + p) <==> t[0] == c && StartsWith(t[1..], p)
  {
    if |p| < |t| {
      assert t[..|p| + 1] == [t[0]] + t[1..][..|p|];
    }
  }

  lemma {:induction false} KeyInBody(s: string, b: string, key: string)
    requires Plain(key) && key != "" && Clean(s) == s && b != "" && b[0] != key[0]
    ensures AfterKey(Body(s, b), key) == if EndsQuoted(s, key) then Some(b) else AfterKey(b, key)
    decreases |s|
  {
    if s == "" {
      assert Body(s, b) == ['"'] + b;
      SkipQuote(b, key);
    } else {
      assert !Lossy(s[0]) && Clean(s[1..]) == s[1..];
      KeyInBody(s[1..], b, key);
      EndsQuotedStep(s, key);
      KeyBehindChar(s, b, key);
    }
  }

  lemma KeyBehindChar(s: string, b: string, key: string)
    requires Plain(key) && key != "" && s != "" && Clean(s[1..]) == s[1..]
    ensures AfterKey(Body(s, b), key) ==
            if s[0] == '"' && s[1..] == key then Some(b) else AfterKey(Body(s[1..], b), key)
  {
    var e, rest := EscapeChar(s[0]), Body(s[1..], b);
    assert Body(s, b) == e + rest;
    if s[0] == '"' {
      BackslashInFront(e, rest, key);
      KeyBehindQuote(s[1..], b, key);
    } else {
      SkipUnquoted(e, rest, key);
    }
  }

  lemma BackslashInFront(e: string, rest: string, key: string)
    requires Plain(key) && key != "" && e == ['\\', '"']
    ensures AfterKey(e + rest, key) == AfterKey(['"'] + rest, key)
  {
    assert e + rest == ['\\'] + (['"'] + rest);
    SkipUnquoted(['\\'], ['"'] + rest, key);
  }

  lemma EndsQuotedStep(s: string, key: string)
    requires s != ""
    ensures EndsQuoted(s, key) <==> (s[0] == '"' && s[1..] == key) || EndsQuoted(s[1..], key)
  {
    if |key| < |s[1..]| {
      assert s[1..][|s[1..]| - |key|..] == s[|s| - |key|..];
    } else if |key| == |s[1..]| {
      assert s[1..] == s[|s| - |key|..];
    }
  }

  /** A quote in front of a printed string starts the key exactly when the string is it. */
  lemma KeyBehindQuote(s: string, b: string, key: string)
    requires Plain(key) && key != "" && Clean(s) == s
    ensures AfterKey(['"'] + Body(s, b), key) == if s == key then Some(b) else AfterKey(Body(s, b), key)
  {
    var t := ['"'] + Body(s, b);
    assert t[1..] == Body(s, b);
    KeyInBodyStart(s, b, key);
    QuotedStart(t, key);
    if s == key {
      KeyItself(b, key);
    } else {
      StrStrStep(t, key);
    }
  }

  lemma KeyItself(b: string, key: string)
    requires Plain(key) && key != ""
    ensures AfterKey(['"'] + Body(key, b), key) == Some(b)
  {
    PlainEscape(key);
    assert ['"'] + Body(key, b) == Quoted(key) + b;
    HitName(key, b);
  }

  lemma PlainChar(s: string)
    requires Plain(s) && s != ""
    ensures EscapeChar(s[0]) == [s[0]] && Plain(s[1..])
  {}

  lemma {:induction false} PlainEscape(s: string)
    requires Plain(s)
    ensures Escape(s) == s
  {
    if s != "" {
      PlainChar(s);
      PlainEscape(s[1..]);
      assert s == [s[0]] + s[1..];
    }
  }

  lemma KeyInItem(s: string, b: string, key: string)
    requires Plain(key) && key != "" && Clean(s) == s && b != "" && b[0] != key[0]
    ensures AfterKey(['"'] + Body(s, b), key) == if Hit(s, key) then Some(b) else AfterKey(b, key)
  {
    KeyBehindQuote(s, b, key);
    KeyInBody(s, b, key);
  }

  /** What follows the first occurrence of the key in the printed list and its tail. */
  function KeyTail(servers: seq<string>, tail: string, key: string): Option<string> {
    if servers == [] then AfterKey(tail, key)
    else if Hit(servers[0], key) then Some(More(servers[1..], tail))
    else KeyTail(servers[1..], tail, key)
  }

  predicate AllClean(servers: seq<string>) {
    forall i :: 0 <= i < |servers| ==> Clean(servers[i]) == servers[i]
  }

  lemma {:induction false} KeyInElements(servers: seq<string>, tail: string, key: string)
    requires Plain(key) && key != "" && key[0] != ',' && key[0] != ' ' && AllClean(servers)
    requires tail != "" && tail[0] != key[0]
    ensures AfterKey(Elements(servers, tail), key) == KeyTail(servers, tail, key)
    decreases |servers|
  {
    if servers != [] {
      var rest := servers[1..];
      ItemsAreBodies(servers, tail);
      KeyInItem(servers[0], More(rest, tail), key);
      if rest != [] {
        SkipUnquoted([',', ' '], Items(rest, tail), key);
      }
      KeyInElements(rest, tail, key);
    }
  }

  // ----- what a colon finds in the server list -----------------------------

  function AfterFirstColon(s: string): string
    requires ':' in s
  {
    if s[0] == ':' then s[1..] else AfterFirstColon(s[1..])
  }

  /** The integer read behind the first colon in the servers, or else behind the first
      colon of the tail, which is the port's. */
  function ReadColon(servers: seq<string>, port: int): Option<int> {
    if servers == [] then Some(port)
    else if ':' in servers[0] then ParseInt(Escape(AfterFirstColon(servers[0])) + ['"'])
    else ReadColon(servers[1..], port)
  }

  /** The integer read for a key whose own value is `own`. */
  function ReadKey(servers: seq<string>, key: string, own: int, port: int): Option<int> {
    if servers == [] then Some(own)
    else if Hit(servers[0], key) then ReadColon(servers[1..], port)
    else ReadKey(servers[1..], key, own, port)
  }

  lemma {:induction false} ColonInBody(s: string, b: string)
    requires ':' in s
    ensures AfterColon(Body(s, b)) == Some(SkipSpaces(Body(AfterFirstColon(s), b)))
  {
    var e := EscapeChar(s[0]);
    assert Body(s, b) == e + Body(s[1..], b);
    if s[0] == ':' {
      assert (e + Body(s[1..], b))[1..] == Body(s[1..], b);
    } else {
      assert ':' !in e;
      NoColonBefore(e, Body(s[1..], b));
      ColonInBody(s[1..], b);
    }
  }

  lemma {:induction false} NoColonInEscape(s: string)
    requires ':' !in s
    ensures ':' !in Escape(s)
  {
    if s != "" {
      assert s[0] in s;
      assert ':' !in s[1..];
      assert ':' !in EscapeChar(s[0]);
      NoColonInEscape(s[1..]);
    }
  }

  lemma {:induction false} SpacesBeforeQuote(x: string, b: string)
    ensures SkipSpaces(x + (['"'] + b)) == SkipSpaces(x + ['"']) + b
    ensures SkipSpaces(x + ['"']) != ""
  {
    var t, u := x + (['"'] + b), x + ['"'];
    assert t == u + b;
    if x != "" && IsSpace(x[0]) {
      assert t[1..] == x[1..] + (['"'] + b) && u[1..] == x[1..] + ['"'];
      SpacesBeforeQuote(x[1..], b);
    } else {
      assert u[0] == t[0];
    }
  }

  lemma {:induction false} DigitsStop(u: string, b: string, value: nat)
    requires u != "" && !IsDigit(u[|u| - 1])
    ensures Digits(u + b, value) == Digits(u, value)
  {
    if IsDigit(u[0]) {
      assert (u + b)[1..] == u[1..] + b;
      DigitsStop(u[1..], b, value * 10 + (u[0] - '0') as nat);
    }
  }

  /** The rest of a printed string parses as an integer whatever follows its quote. */
  lemma IntStopsAtQuote(x: string, b: string)
    ensures ParseInt(x + (['"'] + b)) == ParseInt(x + ['"'])
    ensures ParseInt(SkipSpaces(x + (['"'] + b))) == ParseInt(x + ['"'])
  {
    SpacesBeforeQuote(x, b);
    var t := x + (['"'] + b);
    assert SkipSpaces(SkipSpaces(t)) == SkipSpaces(t);
    var u := SkipSpaces(x + ['"']);
    LastCharStays(x);
    assert u + b == SkipSpaces(t);
    if u[0] == '-' || u[0] == '+' {
      assert |u| > 1;
      assert (u + b)[1..] == u[1..] + b;
      DigitsStop(u[1..], b, 0);
    } else {
      DigitsStop(u, b, 0);
    }
  }

  lemma {:induction false} LastCharStays(x: string)
    ensures var u := SkipSpaces(x + ['"']); u != "" && u[|u| - 1] == '"'
  {
    if x != "" && IsSpace(x[0]) {
      assert (x + ['"'])[1..] == x[1..] + ['"'];
      LastCharStays(x[1..]);
    }
  }

  lemma ColonInItem(s: string, rest: string)
    ensures ':' in s ==>
      && AfterColon([',', ' ', '"'] + Body(s, rest)).Some?
      && ParseInt(AfterColon([',', ' ', '"'] + Body(s, rest)).value) == ParseInt(Escape(AfterFirstColon(s)) + ['"'])
    ensures ':' !in s ==> AfterColon([',', ' ', '"'] + Body(s, rest)) == AfterColon(rest)
  {
    NoColonBefore([',', ' ', '"'], Body(s, rest));
    if ':' in s {
      ColonInBody(s, rest);
      IntStopsAtQuote(Escape(AfterFirstColon(s)), rest);
    } else {
      NoColonInEscape(s);
      assert Body(s, rest) == (Escape(s) + ['"']) + rest;
      NoColonBefore(Escape(s) + ['"'], rest);
    }
  }

  lemma ColonInFirst(servers: seq<string>, tail: string)
    requires servers != []
    ensures var u, rest := AfterColon(More(servers, tail)), More(servers[1..], tail);
      if ':' in servers[0] then u.Some? && ParseInt(u.value) == ParseInt(Escape(AfterFirstColon(servers[0])) + ['"'])
      else u == AfterColon(rest)
  {
    ItemsAreBodies(servers, tail);
    assert More(servers, tail) == [',', ' ', '"'] + Body(servers[0], More(servers[1..], tail));
    ColonInItem(servers[0], More(servers[1..], tail));
  }

  lemma {:induction false} ColonInMore(servers: seq<string>, tail: string, port: int)
    requires AfterColon(tail).Some? && ParseInt(AfterColon(tail).value) == Some(port)
    ensures var u := AfterColon(More(servers, tail)); u.Some? && ParseInt(u.value) == ReadColon(servers, port)
    decreases |servers|
  {
    if servers != [] {
      ColonInFirst(servers, tail);
      ColonInMore(servers[1..], tail, port);
    }
  }

  /** The integer that a key reads from the printed list and its tail. */
  lemma {:induction false} KeyReads(servers: seq<string>, tail: string, key: string, own: int, port: int)
    requires AfterColon(tail).Some? && ParseInt(AfterColon(tail).value) == Some(port)
    requires ReadInt(tail, key) == Some(own)
    ensures var u := KeyTail(servers, tail, key);
            && u.Some? && AfterColon(u.value).Some?
            && ParseInt(AfterColon(u.value).value) == ReadKey(servers, key, own, port)
  {
    if servers != [] {
      if Hit(servers[0], key) {
        ColonInMore(servers[1..], tail, port);
      } else {
        KeyReads(servers[1..], tail, key, own, port);
      }
    }
  }

  // ----- the whole text ----------------------------------------------------

  lemma TailReadsPort(c: NtpConfig)
    requires c.Valid()
    ensures ReadInt(Tail(c), PORT) == Some(c.port)
  {
    SkipUnquoted("],\n  ", PortField(c), PORT);
    ReadsPrintedInt(PORT, c.port, ",\n  " + HoursField(c));
  }

  lemma TailReadsHours(c: NtpConfig)
    requires c.Valid()
    ensures ReadInt(Tail(c), HOURS) == Some(c.syncIntervalHours)
  {
    SkipUnquoted("],\n  ", PortField(c), HOURS);
    SkipPort(c.port, HoursField(c));
    ReadsPrintedInt(HOURS, c.syncIntervalHours, "\n}\n");
  }

  lemma SkipPort(port: nat, rest: string)
    ensures AfterKey(Quoted(PORT) + (": " + (PrintInt(port) + (",\n  " + rest))), HOURS) == AfterKey(rest, HOURS)
  {
    PrintedInt(port);
    KeysAreTailKeys();
    PassField(PORT, PrintInt(port), ",\n  ", rest, HOURS);
  }

  lemma TailColon(c: NtpConfig)
    requires c.Valid()
    ensures AfterColon(Tail(c)).Some? && ParseInt(AfterColon(Tail(c)).value) == Some(c.port)
  {
    var v := PrintInt(c.port) + (",\n  " + HoursField(c));
    NoColonBefore("],\n  ", PortField(c));
    NoColonBefore(Quoted(PORT), ": " + v);
    ReadsPrintedInt(PORT, c.port, ",\n  " + HoursField(c));
    HitName(PORT, ": " + v);
  }

  lemma TailCloses(c: NtpConfig)
    ensures ClosesArray(Tail(c)) && Tail(c)[0] == ']'
  {
    assert Tail(c)[..6] == "],\n  \"";
    assert Tail(c)[6] == PORT[0];
  }

  // Passing over the two flags and the name of the list.

  lemma SkipEnabled(c: NtpConfig, key: string)
    requires SearchKey(key) && key != "enabled"
    ensures AfterKey(NtpText(c), key) == AfterKey(DhcpField(c), key)
  {
    var enabled := Quoted("enabled") + (": " + (BoolText(c.enabled) + (",\n  " + DhcpField(c))));
    SkipUnquoted("{\n  ", enabled, key);
    PassField("enabled", BoolText(c.enabled), ",\n  ", DhcpField(c), key);
  }

  lemma SkipDhcp(c: NtpConfig, key: string)
    requires SearchKey(key) && key != "use_dhcp_server"
    ensures AfterKey(DhcpField(c), key) == AfterKey(ServersField(c), key)
  {
    PassField("use_dhcp_server", BoolText(c.useDhcpServer), ",\n  ", ServersField(c), key);
  }

  lemma SkipListName(c: NtpConfig, key: string)
    requires SearchKey(key) && key != "servers"
    ensures AfterKey(ServersField(c), key) == AfterKey(Elements(c.servers, Tail(c)), key)
  {
    SkipField("servers", "[", Elements(c.servers, Tail(c)), key);
  }

  lemma SkipHead(c: NtpConfig, key: string)
    requires SearchKey(key) && key != "enabled" && key != "use_dhcp_server" && key != "servers"
    ensures AfterKey(NtpText(c), key) == AfterKey(Elements(c.servers, Tail(c)), key)
  {
    SkipEnabled(c, key);
    SkipDhcp(c, key);
    SkipListName(c, key);
  }

  lemma EnabledReads(c: NtpConfig)
    ensures ReadBool(NtpText(c), "enabled") == Some(c.enabled)
  {
    var enabled := Quoted("enabled") + (": " + (BoolText(c.enabled) + (",\n  " + DhcpField(c))));
    SkipUnquoted("{\n  ", enabled, "enabled");
    ReadsPrintedBool("enabled", c.enabled, ",\n  " + DhcpField(c));
  }

  lemma DhcpReads(c: NtpConfig)
    ensures ReadBool(NtpText(c), "use_dhcp_server") == Some(c.useDhcpServer)
    ensures FindJsonKey(NtpText(c), "use_dhcp_server") != None
  {
    SkipEnabled(c, "use_dhcp_server");
    ReadsPrintedBool("use_dhcp_server", c.useDhcpServer, ",\n  " + ServersField(c));
  }

  lemma ServersFound(c: NtpConfig)
    ensures FindJsonKey(NtpText(c), "servers") == Some("[" + Elements(c.servers, Tail(c)))
  {
    SkipEnabled(c, "servers");
    SkipDhcp(c, "servers");
    FieldFound("servers", "[", Elements(c.servers, Tail(c)));
  }

  lemma ServersRead(c: NtpConfig)
    requires c.Valid()
    ensures ReadServers(NtpText(c)) == Some(c.servers) <==> AllReadable(c.servers)
  {
    ServersFound(c);
    var elements := Elements(c.servers, Tail(c));
    assert ("[" + elements)[1..] == elements;
    TailCloses(c);
    ArrayRoundTrip(c.servers, Tail(c), MAX_NTP_SERVERS);
    assert ReadServers(NtpText(c)) == ParseItems(elements, MAX_NTP_SERVERS);
  }

  lemma ReadableIsClean(servers: seq<string>)
    requires AllReadable(servers)
    ensures AllClean(servers)
  {
    forall i | 0 <= i < |servers|
      ensures Clean(servers[i]) == servers[i]
    {
      assert Readable(servers[i]);
    }
  }

  /** The same in a text that only the list and its tail can hold the key in. */
  lemma KeyReadsFrom(t: string, servers: seq<string>, tail: string, key: string, own: int, port: int)
    requires Plain(key) && key != "" && key[0] != ',' && key[0] != ' '
    requires AllClean(servers) && tail != "" && tail[0] != key[0]
    requires AfterKey(t, key) == AfterKey(Elements(servers, tail), key)
    requires AfterColon(tail).Some? && ParseInt(AfterColon(tail).value) == Some(port)
    requires ReadInt(tail, key) == Some(own)
    ensures ReadInt(t, key) == ReadKey(servers, key, own, port)
  {
    KeyInElements(servers, tail, key);
    KeyReads(servers, tail, key, own, port);
  }

  /** A key the head of the text does not hold. */
  predicate TailKey(key: string) {
    && Plain(key) && key != "" && key[0] !in ",: []"
    && key != "enabled" && key != "use_dhcp_server" && key != "servers"
  }

  lemma KeysAreTailKeys()
    ensures TailKey(PORT) && TailKey(HOURS)
  {
    assert PORT[0] == 'p' && HOURS[0] == 's' && HOURS[1] == 'y';
  }

  lemma KeyReadsNumber(c: NtpConfig, key: string, own: int)
    requires c.Valid() && AllReadable(c.servers) && TailKey(key)
    requires ReadInt(Tail(c), key) == Some(own)
    ensures ReadInt(NtpText(c), key) == ReadKey(c.servers, key, own, c.port)
  {
    ReadableIsClean(c.servers);
    TailColon(c);
    TailCloses(c);
    SkipHead(c, key);
    KeyReadsFrom(NtpText(c), c.servers, Tail(c), key, own, c.port);
  }

  lemma NumbersRead(c: NtpConfig)
    requires c.Valid() && AllReadable(c.servers)
    ensures ReadInt(NtpText(c), PORT) == ReadKey(c.servers, PORT, c.port, c.port)
    ensures ReadInt(NtpText(c), HOURS) == ReadKey(c.servers, HOURS, c.syncIntervalHours, c.port)
  {
    KeysAreTailKeys();
    TailReadsPort(c);
    KeyReadsNumber(c, PORT, c.port);
    TailReadsHours(c);
    KeyReadsNumber(c, HOURS, c.syncIntervalHours);
  }

  /** What a caller can check before storing a configuration: every server reads back, and
      no server misleads the search for the two keys that follow the list. */
  predicate Storable(c: NtpConfig) {
    && AllReadable(c.servers)
    && ReadKey(c.servers, PORT, c.port, c.port) == Some(c.port)
    && ReadKey(c.servers, HOURS, c.syncIntervalHours, c.port) == Some(c.syncIntervalHours)
  }

  /** The printed text of a valid configuration reads back as that configuration exactly
      when it is storable. */
  lemma NtpRoundTrip(c: NtpConfig)
    requires c.Valid()
    ensures ParseNtp(NtpText(c)) == Some(c) <==> Storable(c)
  {
    EnabledReads(c);
    DhcpReads(c);
    ServersRead(c);
    if AllReadable(c.servers) {
      NumbersRead(c);
    }
  }

  /** A key that no server is equal to, or ends in behind a quote, reads its own value. */
  lemma {:induction false} NoHitsStorable(servers: seq<string>, key: string, own: int, port: int)
    requires forall i :: 0 <= i < |servers| ==> !Hit(servers[i], key)
    ensures ReadKey(servers, key, own, port) == Some(own)
  {
    if servers != [] {
      NoHitsStorable(servers[1..], key, own, port);
    }
  }

  /** Readable servers that hit neither key are storable. */
  lemma NoHitsRoundTrip(c: NtpConfig)
    requires c.Valid() && AllReadable(c.servers)
    requires forall i :: 0 <= i < |c.servers| ==> !Hit(c.servers[i], PORT) && !Hit(c.servers[i], HOURS)
    ensures ParseNtp(NtpText(c)) == Some(c)
  {
    NoHitsStorable(c.servers, PORT, c.port, c.port);
    NoHitsStorable(c.servers, HOURS, c.syncIntervalHours, c.port);
    NtpRoundTrip(c);
  }

  // ----- accepted texts ----------------------------------------------------

  lemma {:induction false} ParsedStringFits(t: string, room: nat)
    ensures var r := ParseStringBody(t, room); r.Some? ==> |r.value| <= room
    decreases |t|
  {
    if t != "" && t[0] != '"' && room > 0 {
      ParsedStringFits(t[1..], room - 1);
      if t[0] == '\\' && |t| >= 2 { ParsedStringFits(t[2..], room - 1); }
    }
  }

  lemma {:induction false} ParsedItemsFit(t: string, room: nat)
    ensures var r := ParseItems(t, room); r.Some? ==> |r.value| <= room && Fit(r.value)
    decreases |t|
  {
    var u := SkipSpaces(t);
    if u != "" && u[0] == '"' && room > 0 {
      ParsedStringFits(u[1..], SERVER_SIZE - 1);
      var v := SkipSpaces(AfterQuote('"', u[1..]));
      if v != "" {
        ParsedItemsFit(v[1..], room - 1);
      }
    }
  }

  lemma ParsedServersFit(t: string)
    ensures var r := ReadServers(t); r.Some? ==> |r.value| <= MAX_NTP_SERVERS && Fit(r.value)
  {
    match FindJsonKey(t, "servers") {
      case Some(u) => if SkipSpaces(u) != "" { ParsedItemsFit(SkipSpaces(u)[1..], MAX_NTP_SERVERS); }
      case None =>
        match FindJsonKey(t, "server") {
          case Some(u) => if u != "" { ParsedStringFits(u[1..], SERVER_SIZE - 1); }
          case None => DefaultServersFit();
        }
    }
  }

  lemma DefaultServersFit()
    ensures |NTP_DEFAULTS.servers| == 4 && Fit(NTP_DEFAULTS.servers)
  {}

  lemma ParsedIsValid(t: string)
    ensures var r := ParseNtp(t); r.Some? ==> r.value.Valid()
  {
    ParsedServersFit(t);
  }

  /** Storing any accepted text keeps the configuration it was parsed to exactly when that
      configuration is storable. */
  lemma StoreKeepsAccepted(t: string)
    requires ParseNtp(t).Some?
    ensures var c := ParseNtp(t).value; ParseNtp(NtpText(c)) == ParseNtp(t) <==> Storable(c)
  {
    ParsedIsValid(t);
    NtpRoundTrip(ParseNtp(t).value);
  }

  lemma TailHasNoNul(c: NtpConfig)
    ensures NUL !in Tail(c)
  {
    assert NUL !in HoursField(c);
    assert NUL !in PortField(c);
  }

  lemma ServersHaveNoNul(c: NtpConfig)
    ensures NUL !in ServersField(c)
  {
    TailHasNoNul(c);
    MoreHasNoNul(c.servers, Tail(c));
  }

  /** What is stored is read to its end. */
  lemma NtpTextHasNoNul(c: NtpConfig)
    ensures NUL !in NtpText(c)
  {
    ServersHaveNoNul(c);
    assert NUL !in DhcpField(c);
  }
}

/** Texts that the parser accepts, and that lose their configuration when it is stored. */
module NtpAccepted {
  import opened CString
  import opened JsonText
  import opened JsonStrings
  import opened JsonEntries
  import opened NtpJson

  // A text with the two numbers first and one server, under its own key, last.

  function ServerPart(s: string): string {
    Quoted("server") + (": " + (['"'] + Body(s, "\n}\n")))
  }

  function HoursPart(c: NtpConfig, s: string): string {
    Quoted(HOURS) + (": " + (PrintInt(c.syncIntervalHours) + (",\n  " + ServerPart(s))))
  }

  function PortPart(c: NtpConfig, s: string): string {
    Quoted(PORT) + (": " + (PrintInt(c.port) + (",\n  " + HoursPart(c, s))))
  }

  function DhcpPart(c: NtpConfig, s: string): string {
    Quoted("use_dhcp_server") + (": " + (BoolText(c.useDhcpServer) + (",\n  " + PortPart(c, s))))
  }

  function ServerText(c: NtpConfig, s: string): string {
    "{\n  " + (Quoted("enabled") + (": " + (BoolText(c.enabled) + (",\n  " + DhcpPart(c, s)))))
  }

  lemma PassEnabled(c: NtpConfig, s: string, key: string)
    requires SearchKey(key) && key != "enabled"
    ensures AfterKey(ServerText(c, s), key) == AfterKey(DhcpPart(c, s), key)
  {
    SkipUnquoted("{\n  ", Quoted("enabled") + (": " + (BoolText(c.enabled) + (",\n  " + DhcpPart(c, s)))), key);
    PassField("enabled", BoolText(c.enabled), ",\n  ", DhcpPart(c, s), key);
  }

  lemma PassDhcp(c: NtpConfig, s: string, key: string)
    requires SearchKey(key) && key != "use_dhcp_server"
    ensures AfterKey(DhcpPart(c, s), key) == AfterKey(PortPart(c, s), key)
  {
    PassField("use_dhcp_server", BoolText(c.useDhcpServer), ",\n  ", PortPart(c, s), key);
  }

  /** A key behind the two flags. */
  predicate NumberKey(key: string) { SearchKey(key) && key != "enabled" && key != "use_dhcp_server" }

  lemma PassFlags(c: NtpConfig, s: string, key: string)
    requires NumberKey(key)
    ensures AfterKey(ServerText(c, s), key) == AfterKey(PortPart(c, s), key)
  {
    PassEnabled(c, s, key);
    PassDhcp(c, s, key);
  }

  lemma PassPort(c: NtpConfig, s: string, key: string)
    requires c.Valid() && SearchKey(key) && key != PORT
    ensures AfterKey(PortPart(c, s), key) == AfterKey(HoursPart(c, s), key)
  {
    KeysAreTailKeys();
    PrintedInt(c.port);
    PassField(PORT, PrintInt(c.port), ",\n  ", HoursPart(c, s), key);
  }

  lemma PassHours(c: NtpConfig, s: string, key: string)
    requires c.Valid() && SearchKey(key) && key != HOURS
    ensures AfterKey(HoursPart(c, s), key) == AfterKey(ServerPart(s), key)
  {
    KeysAreTailKeys();
    PrintedInt(c.syncIntervalHours);
    PassField(HOURS, PrintInt(c.syncIntervalHours), ",\n  ", ServerPart(s), key);
  }

  /** A key behind the numbers too. */
  predicate LastKey(key: string) { NumberKey(key) && key != PORT && key != HOURS }

  lemma PassNumbers(c: NtpConfig, s: string, key: string)
    requires c.Valid() && LastKey(key)
    ensures AfterKey(ServerText(c, s), key) == AfterKey(ServerPart(s), key)
  {
    PassFlags(c, s, key);
    PassPort(c, s, key);
    PassHours(c, s, key);
  }

  lemma LastKeys()
    ensures NumberKey(PORT) && NumberKey(HOURS) && HOURS != PORT
    ensures LastKey("server") && LastKey("servers") && "servers" != "server" && "servers"[0] != '\n'
  {
    KeysAreTailKeys();
    assert HOURS[0] == 's' && HOURS[1] == 'y' && PORT[0] == 'p';
  }

  lemma EnabledAccepted(c: NtpConfig, s: string)
    ensures ReadBool(ServerText(c, s), "enabled") == Some(c.enabled)
  {
    SkipUnquoted("{\n  ", Quoted("enabled") + (": " + (BoolText(c.enabled) + (",\n  " + DhcpPart(c, s)))), "enabled");
    ReadsPrintedBool("enabled", c.enabled, ",\n  " + DhcpPart(c, s));
  }

  lemma DhcpAccepted(c: NtpConfig, s: string)
    ensures ReadDhcp(ServerText(c, s)) == Some(c.useDhcpServer)
  {
    PassEnabled(c, s, "use_dhcp_server");
    ReadsPrintedBool("use_dhcp_server", c.useDhcpServer, ",\n  " + PortPart(c, s));
  }

  lemma NumbersAccepted(c: NtpConfig, s: string)
    requires c.Valid()
    ensures ReadInt(ServerText(c, s), PORT) == Some(c.port)
    ensures ReadInt(ServerText(c, s), HOURS) == Some(c.syncIntervalHours)
  {
    LastKeys();
    PassFlags(c, s, PORT);
    ReadsPrintedInt(PORT, c.port, ",\n  " + HoursPart(c, s));
    PassFlags(c, s, HOURS);
    PassPort(c, s, HOURS);
    ReadsPrintedInt(HOURS, c.syncIntervalHours, ",\n  " + ServerPart(s));
  }

  lemma NoListFound(c: NtpConfig, s: string)
    requires c.Valid() && Clean(s) == s && !Hit(s, "servers")
    ensures FindJsonKey(ServerText(c, s), "servers") == None
  {
    LastKeys();
    NotFound(c, s, "servers");
  }

  lemma NotFound(c: NtpConfig, s: string, key: string)
    requires c.Valid() && LastKey(key) && key[0] != '\n' && key != "server" && Clean(s) == s && !Hit(s, key)
    ensures FindJsonKey(ServerText(c, s), key) == None
  {
    PassNumbers(c, s, key);
    NoListInServer(s, key);
  }

  lemma NoListInServer(s: string, key: string)
    requires SearchKey(key) && key[0] != '\n' && key != "server" && Clean(s) == s && !Hit(s, key)
    ensures AfterKey(ServerPart(s), key) == None
  {
    var value := ['"'] + Body(s, "\n}\n");
    SkipName("server", ": " + value, key);
    SkipUnquoted(": ", value, key);
    KeyInItem(s, "\n}\n", key);
    NoKeyWithoutQuote("\n}\n", key);
  }

  lemma NoKeyWithoutQuote(t: string, key: string)
    requires '"' !in t
    ensures AfterKey(t, key) == None
  {
    assert t + "" == t;
    SkipUnquoted(t, "", key);
  }

  lemma ServerFound(c: NtpConfig, s: string)
    requires c.Valid()
    ensures FindJsonKey(ServerText(c, s), "server") == Some(['"'] + Body(s, "\n}\n"))
  {
    LastKeys();
    PassNumbers(c, s, "server");
    FieldFound("server", ['"'], Body(s, "\n}\n"));
  }

  lemma ServerReads(s: string, after: string)
    requires Clean(s) == s && |s| < SERVER_SIZE
    ensures ParseString(['"'] + Body(s, after), SERVER_SIZE) == Some(s)
  {
    ParseEscaped(s, after, SERVER_SIZE - 1);
    assert (['"'] + Body(s, after))[1..] == Body(s, after);
  }

  lemma ServersAccepted(c: NtpConfig, s: string)
    requires c.Valid() && c.servers == [s] && Clean(s) == s && !Hit(s, "servers")
    ensures ReadServers(ServerText(c, s)) == Some(c.servers)
  {
    NoListFound(c, s);
    ServerFound(c, s);
    assert |c.servers[0]| < SERVER_SIZE;
    ServerReads(s, "\n}\n");
  }

  /** Whatever printable server a configuration has, some text is parsed to it. */
  lemma ServerAccepted(c: NtpConfig, s: string)
    requires c.Valid() && c.servers == [s] && Clean(s) == s && !Hit(s, "servers")
    ensures ParseNtp(ServerText(c, s)) == Some(c)
  {
    EnabledAccepted(c, s);
    DhcpAccepted(c, s);
    NumbersAccepted(c, s);
    ServersAccepted(c, s);
  }

  // ----- texts without servers -----------------------------------------------

  lemma NoServers(es: seq<Entry>, key: string)
    requires Names(es) && SearchKey(key)
    ensures match FindJsonKey(Written(es), key)
            case None => From(es, key) == []
            case Some(u) =>
              From(es, key) != [] && ParseArray(u, MAX_NTP_SERVERS) == None && ParseString(u, SERVER_SIZE) == None
  {
    FindsEntry(es, key);
    var r := From(es, key);
    if r != [] {
      ValueIsText(r[0].value);
      assert ValueOn(r)[0] == ValueText(r[0].value)[0];
    }
  }

  lemma DefaultServers(es: seq<Entry>, list: string, one: string)
    requires Names(es) && list == "servers" && one == "server" && SearchKey(list) && SearchKey(one)
    ensures ReadServers(Written(es)) ==
            if From(es, list) == [] && From(es, one) == [] then
              Some(["223.5.5.5", "114.114.114.114", "120.25.115.20", "pool.ntp.org"])
            else None
  {
    NoServers(es, list);
    NoServers(es, one);
  }

  lemma DhcpDefault(es: seq<Entry>, key: string)
    requires Names(es) && key == "use_dhcp_server" && SearchKey(key)
    ensures ReadDhcp(Written(es)) == if From(es, key) == [] then Some(true) else FlagOf(es, key)
  {
    ReadsEntry(es, key);
  }

  lemma HeadKeys()
    ensures SearchKey("enabled") && SearchKey("use_dhcp_server") && SearchKey("servers") && SearchKey("server")
  {}

  /** A text of truth values and numbers, in whatever order, is read as it says, with the
      four default servers, and DHCP on when it does not say. */
  lemma ServerlessIsRead(es: seq<Entry>)
    requires Names(es)
    ensures
      var enabled, port, hours := FlagOf(es, "enabled"), NumberOf(es, PORT), NumberOf(es, HOURS);
      var dhcp := if From(es, "use_dhcp_server") == [] then Some(true) else FlagOf(es, "use_dhcp_server");
      ParseNtp(Written(es)) ==
        if enabled.Some? && dhcp.Some? && InRange(port, 1, 65535) && InRange(hours, 1, 720)
           && From(es, "servers") == [] && From(es, "server") == []
        then Some(NtpConfig(enabled.value, dhcp.value,
               ["223.5.5.5", "114.114.114.114", "120.25.115.20", "pool.ntp.org"], port.value, hours.value))
        else None
  {
    HeadKeys();
    LastKeys();
    ReadsEntry(es, "enabled");
    DhcpDefault(es, "use_dhcp_server");
    DefaultServers(es, "servers", "server");
    ReadsEntry(es, PORT);
    ReadsEntry(es, HOURS);
  }

  // ----- what storing loses --------------------------------------------------

  lemma PlainAccepted(c: NtpConfig, s: string)
    requires c.Valid() && c.servers == [s] && Plain(s) && s != "servers"
    ensures ParseNtp(ServerText(c, s)) == Some(c)
  {
    ServerAccepted(c, s);
  }

  lemma PlainIsReadable(c: NtpConfig, s: string)
    requires c.servers == [s] && Plain(s)
    ensures AllReadable(c.servers)
  {
    assert Readable(s);
  }

  /** A server with the name of the second key: what is stored is read back with the port
      for the interval. */
  lemma KeyNameIsNotKept(c: NtpConfig)
    requires c.Valid() && c.servers == [HOURS]
    ensures ParseNtp(ServerText(c, HOURS)) == Some(c)
    ensures ReadInt(NtpText(c), HOURS) == Some(c.port)
  {
    KeysAreTailKeys();
    PlainAccepted(c, HOURS);
    ReadsThePort(c);
  }

  lemma ReadsThePort(c: NtpConfig)
    requires c.Valid() && c.servers == [HOURS]
    ensures ReadInt(NtpText(c), HOURS) == Some(c.port)
  {
    KeysAreTailKeys();
    PlainIsReadable(c, HOURS);
    NumbersRead(c);
    assert c.servers[1..] == [];
  }

  /** A server that ends in a backslash: what is stored is refused or read as another. */
  lemma BackslashIsNotKept(c: NtpConfig, s: string)
    requires c.Valid() && c.servers == [s] && Clean(s) == s && EndsInBackslash('"', s)
    ensures ParseNtp(ServerText(c, s)) == Some(c)
    ensures ParseNtp(NtpText(c)) != Some(c)
  {
    ServerAccepted(c, s);
    assert !Readable(c.servers[0]);
    NtpRoundTrip(c);
  }

  /** So there is an accepted text that is not kept. */
  lemma NotAllIsKept() returns (t: string)
    ensures ParseNtp(t).Some? && ParseNtp(NtpText(ParseNtp(t).value)) != ParseNtp(t)
  {
    var s := "\\";
    var c := NtpConfig(true, true, [s], 123, 24);
    BackslashIsNotKept(c, s);
    t := ServerText(c, s);
  }
}

/** What is read from configuration texts that the store did not print. */
module AppAccepted {
  import opened CString
  import opened JsonText
  import opened JsonEntries
  import opened AppJson

  // ----- the meaning of the entries ----------------------------------------

  /** A fan has a truth value for enabling, a percentage, and a truth value for the ADC
      mode or none, which means off. */
  function FanOf(own: seq<Entry>): Option<FanConfig> {
    var enabled, percent := FlagOf(own, "enabled"), NumberOf(own, "percent");
    var adc := if From(own, "use_adc_target") == [] then Some(false) else FlagOf(own, "use_adc_target");
    if own != [] && enabled.Some? && InRange(percent, 0, 100) && adc.Some?
    then Some(FanConfig(enabled.value, percent.value, adc.value))
    else None
  }

  /** Without a host section the check is off. */
  function HostOf(own: seq<Entry>): Option<(bool, nat)> {
    var check, timeout := FlagOf(own, "alive_check_enabled"), NumberOf(own, "alive_timeout_ms");
    if own == [] then Some((false, 5000))
    else if check.Some? && InRange(timeout, 500, 600000) then Some((check.value, timeout.value))
    else None
  }

  lemma FanReadIn(t: string, name: string, section: string, own: seq<Entry>)
    requires own != [] && FindJsonKey(t, name) == Some(section)
    requires Reads(section, own, "enabled") && Reads(section, own, "percent") && Reads(section, own, "use_adc_target")
    ensures ReadFan(t, name) == FanOf(own)
  {}

  lemma FieldNames()
    ensures SearchKey("enabled") && SearchKey("percent") && SearchKey("use_adc_target")
    ensures SearchKey("alive_check_enabled") && SearchKey("alive_timeout_ms")
  {}

  lemma FanReads(own: seq<Entry>, section: string)
    requires own != [] && Names(own) && FanKey(own[0].name) && section == ValueOn(own)
    ensures Reads(section, own, "enabled") && Reads(section, own, "percent") && Reads(section, own, "use_adc_target")
  {
    FieldNames();
    ReadsBehind(own, "enabled");
    ReadsBehind(own, "percent");
    ReadsBehind(own, "use_adc_target");
  }

  lemma FanIsRead(t: string, es: seq<Entry>, name: string)
    requires Names(es) && FanKey(name) && t == Written(es)
    ensures ReadFan(t, name) == FanOf(From(es, name))
  {
    FindsEntry(es, name);
    var own := From(es, name);
    if own != [] {
      var section := ValueOn(own);
      FanReads(own, section);
      FanReadIn(t, name, section, own);
    }
  }

  lemma HostReadIn(t: string, section: string, own: seq<Entry>)
    requires own != [] && FindJsonKey(t, "host") == Some(section)
    requires Reads(section, own, "alive_check_enabled") && Reads(section, own, "alive_timeout_ms")
    ensures ReadHost(t) == HostOf(own)
  {}

  predicate HostKey(key: string) {
    SearchKey(key) && key != "alive_check_enabled" && key != "alive_timeout_ms"
  }

  lemma HostReads(own: seq<Entry>, section: string)
    requires own != [] && Names(own) && HostKey(own[0].name) && section == ValueOn(own)
    ensures Reads(section, own, "alive_check_enabled") && Reads(section, own, "alive_timeout_ms")
  {
    FieldNames();
    ReadsBehind(own, "alive_check_enabled");
    ReadsBehind(own, "alive_timeout_ms");
  }

  lemma HostIsRead(t: string, es: seq<Entry>, host: string)
    requires Names(es) && host == "host" && HostKey(host) && t == Written(es)
    ensures ReadHost(t) == HostOf(From(es, host))
  {
    FindsEntry(es, host);
    var own := From(es, host);
    if own != [] {
      var section := ValueOn(own);
      HostReads(own, section);
      HostReadIn(t, section, own);
    }
  }

  /** Every text made of such entries, in whatever order, is read as its entries say: a
      fan's fields are looked for from its name on to the end of the text. */
  lemma EntriesAreRead(es: seq<Entry>)
    requires Names(es)
    ensures var host, fan1, fan2 := HostOf(From(es, "host")), FanOf(From(es, "fan1")), FanOf(From(es, "fan2"));
      ParseApp(Written(es)) ==
        if host.Some? && fan1.Some? && fan2.Some?
        then Some(AppConfig(host.value.0, host.value.1, fan1.value, fan2.value))
        else None
  {
    FanNames();
    HostName();
    HostIsRead(Written(es), es, "host");
    FanIsRead(Written(es), es, "fan1");
    FanIsRead(Written(es), es, "fan2");
  }

  // ----- what is missing ---------------------------------------------------

  lemma NotInFans(c: AppConfig, key: string)
    requires FanKey(key) && key != "fan1" && key != "fan2"
    ensures AfterKey(TextFrom(c, 1), key) == AfterKey(TextFrom(c, 0), key)
  {
    PassFan("fan1", c.fan1, FAN1_END, TextFrom(c, 0), key);
  }

  lemma NotInLastFan(c: AppConfig, key: string)
    requires FanKey(key) && key != "fan1" && key != "fan2"
    ensures AfterKey(TextFrom(c, 0), key) == None
  {
    PassFan("fan2", c.fan2, FAN2_END, "", key);
  }

  lemma HostName()
    ensures FanKey("host") && HostKey("host")
    ensures "host" != "version" && "host" != "fans" && "host" != "fan1" && "host" != "fan2"
  {}

  lemma NoHostFound(c: AppConfig, host: string)
    requires FanKey(host) && host != "version" && host != "fans" && host != "fan1" && host != "fan2"
    ensures AfterKey(Version(TextFrom(c, 2)), host) == None
  {
    PassVersion(TextFrom(c, 2), host);
    FansFrom(c, host);
    NotInFans(c, host);
    NotInLastFan(c, host);
  }

  lemma FansWithoutHost(c: AppConfig, key: string)
    requires FanName(key)
    ensures AfterKey(Version(TextFrom(c, 2)), key) == AfterKey(AppText(c), key)
  {
    PassVersion(TextFrom(c, 2), key);
    FansFrom(c, key);
    FansPart(c, key);
  }

  lemma FirstFanWithoutHost(c: AppConfig)
    ensures ReadFan(Version(TextFrom(c, 2)), "fan1") == if c.fan1.percent <= 100 then Some(c.fan1) else None
  {
    FanNames();
    FansWithoutHost(c, "fan1");
    FansPart(c, "fan1");
    AppJson.FanReads(Version(TextFrom(c, 2)), "fan1", c.fan1, FAN1_END, TextFrom(c, 0));
  }

  lemma SecondFanWithoutHost(c: AppConfig)
    ensures ReadFan(Version(TextFrom(c, 2)), "fan2") == if c.fan2.percent <= 100 then Some(c.fan2) else None
  {
    FanNames();
    FansWithoutHost(c, "fan2");
    FansPart(c, "fan2");
    SecondFanFrom(c);
    AppJson.FanReads(Version(TextFrom(c, 2)), "fan2", c.fan2, FAN2_END, "");
  }

  /** A printed configuration without its host section is the one with the check off and
      five seconds. */
  lemma WithoutHost(c: AppConfig)
    requires c.fan1.percent <= 100 && c.fan2.percent <= 100
    ensures ParseApp(Version(TextFrom(c, 2))) == Some(c.(hostAliveCheck := false, hostAliveTimeoutMs := 5000))
  {
    HostName();
    NoHostFound(c, "host");
    FirstFanWithoutHost(c);
    SecondFanWithoutHost(c);
  }

  lemma Borrowed(enabled1: bool, second: seq<Entry>, es: seq<Entry>, name: string, field: string)
    requires es == [Entry(name, Section), Entry(field, Flag(enabled1))] + second
    requires name != field
    ensures From(es, name) == es && From(es, field) == es[1..]
    ensures forall key :: key != name && key != field ==> From(es, key) == From(second, key)
  {
    assert es[1..][1..] == second;
  }

  lemma FieldsDiffer(name: string)
    requires name == "fan1" || name == "enabled"
    ensures name != "host" && name != "fan2" && name != "percent" && name != "use_adc_target" && Plain(name)
  {}

  lemma FanWithOwnFlag(es: seq<Entry>, second: seq<Entry>, enabled1: bool)
    requires es != [] && second != [] && FlagOf(es, "enabled") == Some(enabled1)
    requires From(es, "percent") == From(second, "percent")
    requires From(es, "use_adc_target") == From(second, "use_adc_target")
    ensures FanOf(second).Some? ==> FanOf(es) == Some(FanOf(second).value.(enabled := enabled1))
  {}

  lemma BorrowedFan(enabled1: bool, second: seq<Entry>, es: seq<Entry>, fan1: string, enabled: string)
    requires es == [Entry(fan1, Section), Entry(enabled, Flag(enabled1))] + second && second != []
    requires fan1 == "fan1" && enabled == "enabled"
    ensures FanOf(second).Some? ==> FanOf(From(es, fan1)) == Some(FanOf(second).value.(enabled := enabled1))
  {
    FieldsDiffer(fan1);
    FieldsDiffer(enabled);
    Borrowed(enabled1, second, es, fan1, enabled);
    assert es[1..][0] == Entry(enabled, Flag(enabled1));
    FanWithOwnFlag(es, second, enabled1);
  }

  lemma BorrowedRest(enabled1: bool, second: seq<Entry>, es: seq<Entry>, fan1: string, enabled: string)
    requires es == [Entry(fan1, Section), Entry(enabled, Flag(enabled1))] + second
    requires fan1 == "fan1" && enabled == "enabled" && Names(second)
    requires second != [] && second[0].name == "fan2" && From(second, "host") == []
    ensures HostOf(From(es, "host")) == Some((false, 5000)) && FanOf(From(es, "fan2")) == FanOf(second)
    ensures Names(es)
  {
    FieldsDiffer(fan1);
    FieldsDiffer(enabled);
    Borrowed(enabled1, second, es, fan1, enabled);
    assert From(second, "fan2") == second;
  }

  /** A field that the first fan lacks is taken from the second. */
  lemma FirstFanBorrows(enabled1: bool, second: seq<Entry>)
    requires Names(second) && second != [] && second[0].name == "fan2"
    requires forall i :: 0 <= i < |second| ==> second[i].name != "host"
    ensures var es := [Entry("fan1", Section), Entry("enabled", Flag(enabled1))] + second;
      ParseApp(Written(es)) ==
        match FanOf(second)
        case None => None
        case Some(fan2) => Some(AppConfig(false, 5000, fan2.(enabled := enabled1), fan2))
  {
    var es := [Entry("fan1", Section), Entry("enabled", Flag(enabled1))] + second;
    BorrowedFan(enabled1, second, es, "fan1", "enabled");
    BorrowedRest(enabled1, second, es, "fan1", "enabled");
    EntriesAreRead(es);
  }
}

/** The application configuration as JSON text, and what is read back from any text. */
module AppJson {
  import opened CString
  import opened JsonText

  datatype FanConfig = FanConfig(enabled: bool, percent: nat, useAdcTarget: bool)

  datatype AppConfig = AppConfig(
    hostAliveCheck: bool, hostAliveTimeoutMs: nat, fan1: FanConfig, fan2: FanConfig)
  {
    /** The ranges ParseJson checks. */
    predicate InRange() {
      500 <= hostAliveTimeoutMs <= 600000 && fan1.percent <= 100 && fan2.percent <= 100
    }
  }

  // ----- printing: each piece in front of the text that follows it ---------

  function Field(name: string, value: string, gap: string, rest: string): string {
    Quoted(name) + (": " + (value + (gap + rest)))
  }

  const FAN_GAP := ",\n      "
  const FAN1_END := "\n    },\n    "
  const FAN2_END := "\n    }\n  }\n}\n"

  function FanFields(f: FanConfig, end: string, rest: string): string {
    Field("enabled", BoolText(f.enabled), FAN_GAP,
      Field("percent", PrintInt(f.percent), FAN_GAP,
        Field("use_adc_target", BoolText(f.useAdcTarget), end, rest)))
  }

  function Fan(name: string, f: FanConfig, end: string, rest: string): string {
    Field(name, "{\n      ", "", FanFields(f, end, rest))
  }

  function HostFields(check: bool, timeout: nat, rest: string): string {
    Field("alive_check_enabled", BoolText(check), ",\n    ",
      Field("alive_timeout_ms", PrintInt(timeout), "\n  },\n  ", rest))
  }

  function Host(check: bool, timeout: nat, rest: string): string {
    Field("host", "{\n    ", "", HostFields(check, timeout, rest))
  }

  function Version(rest: string): string { "{\n  " + Field("version", "1", ",\n  ", rest) }

  function Fans(rest: string): string { Field("fans", "{\n    ", "", rest) }

  /** The text from its last but `n`-th piece on: the second fan, the first fan, the
      opening of the fans, the host section, the version. */
  function TextFrom(c: AppConfig, n: nat): string {
    if n == 0 then Fan("fan2", c.fan2, FAN2_END, "")
    else
      var rest := TextFrom(c, n - 1);
      if n == 1 then Fan("fan1", c.fan1, FAN1_END, rest)
      else if n == 2 then Fans(rest)
      else if n == 3 then Host(c.hostAliveCheck, c.hostAliveTimeoutMs, rest)
      else Version(rest)
  }

  function AppText(c: AppConfig): string { TextFrom(c, 4) }

  // ----- reading ---------------------------------------------------------

  function ReadFan(t: string, name: string): Option<FanConfig> {
    match FindJsonKey(t, name)
    case None => None
    case Some(section) =>
      var enabled := ReadBool(section, "enabled");
      var percent := ReadInt(section, "percent");
      var adc := if FindJsonKey(section, "use_adc_target") == None then Some(false)
                 else ReadBool(section, "use_adc_target");
      if enabled == None || percent == None || adc == None || !(0 <= percent.value <= 100) then None
      else Some(FanConfig(enabled.value, percent.value, adc.value))
  }

  /** The keepalive settings; they are optional as a whole. */
  function ReadHost(t: string): Option<(bool, nat)> {
    match FindJsonKey(t, "host")
    case None => Some((false, 5000))
    case Some(section) =>
      var check := ReadBool(section, "alive_check_enabled");
      var timeout := ReadInt(section, "alive_timeout_ms");
      if check == None || timeout == None || !(500 <= timeout.value <= 600000) then None
      else Some((check.value, timeout.value))
  }

  /** ParseJson; None is its error return. */
  function ParseApp(t: string): (r: Option<AppConfig>)
    ensures r.Some? ==> r.value.InRange()
  {
    var host, fan1, fan2 := ReadHost(t), ReadFan(t, "fan1"), ReadFan(t, "fan2");
    if host == None || fan1 == None || fan2 == None then None
    else Some(AppConfig(host.value.0, host.value.1, fan1.value, fan2.value))
  }

  // ----- round trip ------------------------------------------------------

  /** A plain key that no separator can start. */
  lemma Pass(name: string, value: string, gap: string, rest: string, key: string)
    requires Plain(name) && SearchKey(key) && name != key && '"' !in value && '"' !in gap
    ensures AfterKey(Field(name, value, gap, rest), key) == AfterKey(rest, key)
  {
    PassField(name, value, gap, rest, key);
  }

  lemma FieldReadsBool(name: string, v: bool, gap: string, rest: string)
    ensures FindJsonKey(Field(name, BoolText(v), gap, rest), name) != None
    ensures ReadBool(Field(name, BoolText(v), gap, rest), name) == Some(v)
  {
    ReadsPrintedBool(name, v, gap + rest);
  }

  lemma FieldReadsInt(name: string, n: nat, gap: string, rest: string)
    requires gap != "" && !IsDigit(gap[0])
    ensures ReadInt(Field(name, PrintInt(n), gap, rest), name) == Some(Saturate(n))
  {
    ReadsPrintedInt(name, n, gap + rest);
  }

  lemma FieldEnters(name: string, open: string, rest: string)
    requires open != "" && !IsSpace(open[0])
    ensures FindJsonKey(Field(name, open, "", rest), name) == Some(open + rest)
  {
    assert "" + rest == rest;
    FieldFound(name, open, rest);
  }

  // ----- inside a fan ----------------------------------------------------

  function AdcField(f: FanConfig, end: string, rest: string): string {
    Field("use_adc_target", BoolText(f.useAdcTarget), end, rest)
  }

  lemma PassEnabled(f: FanConfig, end: string, rest: string, key: string)
    requires SearchKey(key) && key != "enabled"
    ensures AfterKey(FanFields(f, end, rest), key) ==
            AfterKey(Field("percent", PrintInt(f.percent), FAN_GAP, AdcField(f, end, rest)), key)
  {
    Pass("enabled", BoolText(f.enabled), FAN_GAP,
      Field("percent", PrintInt(f.percent), FAN_GAP, AdcField(f, end, rest)), key);
  }

  lemma PassPercent(f: FanConfig, after: string, key: string)
    requires SearchKey(key) && key != "percent"
    ensures AfterKey(Field("percent", PrintInt(f.percent), FAN_GAP, after), key) == AfterKey(after, key)
  {
    PrintedInt(f.percent);
    Pass("percent", PrintInt(f.percent), FAN_GAP, after, key);
  }

  lemma PassAdc(f: FanConfig, end: string, rest: string, key: string)
    requires SearchKey(key) && key != "use_adc_target" && '"' !in end
    ensures AfterKey(AdcField(f, end, rest), key) == AfterKey(rest, key)
  {
    Pass("use_adc_target", BoolText(f.useAdcTarget), end, rest, key);
  }

  predicate FanKey(key: string) {
    SearchKey(key) && key != "enabled" && key != "percent" && key != "use_adc_target"
  }

  lemma PassFanFields(f: FanConfig, end: string, rest: string, key: string)
    requires FanKey(key) && '"' !in end
    ensures AfterKey(FanFields(f, end, rest), key) == AfterKey(rest, key)
  {
    PassEnabled(f, end, rest, key);
    PassPercent(f, AdcField(f, end, rest), key);
    PassAdc(f, end, rest, key);
  }

  /** A key that is no field of a fan is not found inside one. */
  lemma PassFan(name: string, f: FanConfig, end: string, rest: string, key: string)
    requires FanKey(key) && key != name && Plain(name) && '"' !in end
    ensures AfterKey(Fan(name, f, end, rest), key) == AfterKey(rest, key)
  {
    Pass(name, "{\n      ", "", FanFields(f, end, rest), key);
    PassFanFields(f, end, rest, key);
  }

  function Section(f: FanConfig, end: string, rest: string): string { "{\n      " + FanFields(f, end, rest) }

  lemma EnterSection(fields: string, key: string)
    ensures AfterKey("{\n      " + fields, key) == AfterKey(fields, key)
  {
    SkipUnquoted("{\n      ", fields, key);
  }

  lemma EnabledReads(f: FanConfig, end: string, rest: string)
    ensures ReadBool(Section(f, end, rest), "enabled") == Some(f.enabled)
  {
    EnterSection(FanFields(f, end, rest), "enabled");
    FieldReadsBool("enabled", f.enabled, FAN_GAP,
      Field("percent", PrintInt(f.percent), FAN_GAP, AdcField(f, end, rest)));
  }

  lemma PercentReads(f: FanConfig, end: string, rest: string)
    ensures ReadInt(Section(f, end, rest), "percent") == Some(Saturate(f.percent))
  {
    EnterSection(FanFields(f, end, rest), "percent");
    PassEnabled(f, end, rest, "percent");
    FieldReadsInt("percent", f.percent, FAN_GAP, AdcField(f, end, rest));
  }

  lemma AdcReads(f: FanConfig, end: string, rest: string)
    ensures FindJsonKey(Section(f, end, rest), "use_adc_target") != None
    ensures ReadBool(Section(f, end, rest), "use_adc_target") == Some(f.useAdcTarget)
  {
    EnterSection(FanFields(f, end, rest), "use_adc_target");
    PassEnabled(f, end, rest, "use_adc_target");
    PassPercent(f, AdcField(f, end, rest), "use_adc_target");
    FieldReadsBool("use_adc_target", f.useAdcTarget, end, rest);
  }

  lemma FanReads(t: string, name: string, f: FanConfig, end: string, rest: string)
    requires AfterKey(t, name) == AfterKey(Fan(name, f, end, rest), name)
    ensures ReadFan(t, name) == if f.percent <= 100 then Some(f) else None
  {
    FieldEnters(name, "{\n      ", FanFields(f, end, rest));
    assert FindJsonKey(t, name) == Some(Section(f, end, rest));
    EnabledReads(f, end, rest);
    PercentReads(f, end, rest);
    AdcReads(f, end, rest);
  }

  // ----- the host section, and the way past it ---------------------------

  lemma PassVersion(rest: string, key: string)
    requires SearchKey(key) && key != "version"
    ensures AfterKey(Version(rest), key) == AfterKey(rest, key)
  {
    SkipUnquoted("{\n  ", Field("version", "1", ",\n  ", rest), key);
    Pass("version", "1", ",\n  ", rest, key);
  }

  function TimeoutField(timeout: nat, rest: string): string {
    Field("alive_timeout_ms", PrintInt(timeout), "\n  },\n  ", rest)
  }

  lemma PassCheck(check: bool, timeout: nat, rest: string, key: string)
    requires SearchKey(key) && key != "alive_check_enabled"
    ensures AfterKey(HostFields(check, timeout, rest), key) == AfterKey(TimeoutField(timeout, rest), key)
  {
    Pass("alive_check_enabled", BoolText(check), ",\n    ", TimeoutField(timeout, rest), key);
  }

  lemma PassTimeout(timeout: nat, rest: string, key: string)
    requires SearchKey(key) && key != "alive_timeout_ms"
    ensures AfterKey(TimeoutField(timeout, rest), key) == AfterKey(rest, key)
  {
    PrintedInt(timeout);
    Pass("alive_timeout_ms", PrintInt(timeout), "\n  },\n  ", rest, key);
  }

  lemma PassHost(check: bool, timeout: nat, rest: string, key: string)
    requires SearchKey(key) && key != "host" && key != "alive_check_enabled" && key != "alive_timeout_ms"
    ensures AfterKey(Host(check, timeout, rest), key) == AfterKey(rest, key)
  {
    Pass("host", "{\n    ", "", HostFields(check, timeout, rest), key);
    PassCheck(check, timeout, rest, key);
    PassTimeout(timeout, rest, key);
  }

  function HostSection(check: bool, timeout: nat, rest: string): string { "{\n    " + HostFields(check, timeout, rest) }

  lemma CheckReads(check: bool, timeout: nat, rest: string)
    ensures ReadBool(HostSection(check, timeout, rest), "alive_check_enabled") == Some(check)
  {
    SkipUnquoted("{\n    ", HostFields(check, timeout, rest), "alive_check_enabled");
    FieldReadsBool("alive_check_enabled", check, ",\n    ", TimeoutField(timeout, rest));
  }

  lemma PassToTimeout(check: bool, timeout: nat, rest: string, key: string)
    requires SearchKey(key) && key != "alive_check_enabled"
    ensures AfterKey(HostSection(check, timeout, rest), key) == AfterKey(TimeoutField(timeout, rest), key)
  {
    SkipUnquoted("{\n    ", HostFields(check, timeout, rest), key);
    PassCheck(check, timeout, rest, key);
  }

  lemma TimeoutReads(check: bool, timeout: nat, rest: string)
    ensures ReadInt(HostSection(check, timeout, rest), "alive_timeout_ms") == Some(Saturate(timeout))
  {
    PassToTimeout(check, timeout, rest, "alive_timeout_ms");
    FieldReadsInt("alive_timeout_ms", timeout, "\n  },\n  ", rest);
  }

  lemma HostReads(check: bool, timeout: nat, rest: string)
    ensures ReadHost(Version(Host(check, timeout, rest))) ==
            if 500 <= timeout <= 600000 then Some((check, timeout)) else None
  {
    PassVersion(Host(check, timeout, rest), "host");
    FieldEnters("host", "{\n    ", HostFields(check, timeout, rest));
    CheckReads(check, timeout, rest);
    TimeoutReads(check, timeout, rest);
  }

  // ----- the whole text --------------------------------------------------

  lemma HostOf(c: AppConfig)
    ensures ReadHost(AppText(c)) ==
            if 500 <= c.hostAliveTimeoutMs <= 600000 then Some((c.hostAliveCheck, c.hostAliveTimeoutMs)) else None
  {
    var rest := TextFrom(c, 2);
    var check, timeout := c.hostAliveCheck, c.hostAliveTimeoutMs;
    HostIsFirst(c);
    HostReads(check, timeout, rest);
  }

  lemma HostFrom(c: AppConfig, key: string)
    requires SearchKey(key) && key != "version"
    ensures AfterKey(TextFrom(c, 4), key) == AfterKey(TextFrom(c, 3), key)
  {
    PassVersion(TextFrom(c, 3), key);
  }

  lemma OpeningFrom(c: AppConfig, key: string)
    requires SearchKey(key) && key != "host" && key != "alive_check_enabled" && key != "alive_timeout_ms"
    ensures AfterKey(TextFrom(c, 3), key) == AfterKey(TextFrom(c, 2), key)
  {
    PassHost(c.hostAliveCheck, c.hostAliveTimeoutMs, TextFrom(c, 2), key);
  }

  lemma PassFans(rest: string, key: string)
    requires SearchKey(key) && key != "fans"
    ensures AfterKey(Fans(rest), key) == AfterKey(rest, key)
  {
    Pass("fans", "{\n    ", "", rest, key);
  }

  lemma FansFrom(c: AppConfig, key: string)
    requires SearchKey(key) && key != "fans"
    ensures AfterKey(TextFrom(c, 2), key) == AfterKey(TextFrom(c, 1), key)
  {
    PassFans(TextFrom(c, 1), key);
  }

  /** A key that only the fans' part of the text has. */
  predicate FanName(key: string) {
    && SearchKey(key) && key != "version" && key != "host" && key != "fans"
    && key != "alive_check_enabled" && key != "alive_timeout_ms"
  }

  lemma FansPart(c: AppConfig, key: string)
    requires FanName(key)
    ensures AfterKey(AppText(c), key) == AfterKey(TextFrom(c, 1), key)
  {
    HostFrom(c, key);
    OpeningFrom(c, key);
    FansFrom(c, key);
  }

  lemma FanNames()
    ensures FanName("fan1") && FanName("fan2")
  {}

  lemma SecondFanFrom(c: AppConfig)
    ensures AfterKey(TextFrom(c, 1), "fan2") == AfterKey(TextFrom(c, 0), "fan2")
  {
    PassFan("fan1", c.fan1, FAN1_END, TextFrom(c, 0), "fan2");
  }

  lemma Fan1Of(c: AppConfig)
    ensures ReadFan(AppText(c), "fan1") == if c.fan1.percent <= 100 then Some(c.fan1) else None
  {
    FanNames();
    FansPart(c, "fan1");
    FanReads(AppText(c), "fan1", c.fan1, FAN1_END, TextFrom(c, 0));
  }

  lemma Fan2Of(c: AppConfig)
    ensures ReadFan(AppText(c), "fan2") == if c.fan2.percent <= 100 then Some(c.fan2) else None
  {
    FanNames();
    FansPart(c, "fan2");
    SecondFanFrom(c);
    FanReads(AppText(c), "fan2", c.fan2, FAN2_END, "");
  }

  /** The printed text of a configuration reads back as that configuration exactly when it
      is in range, and is refused otherwise. */
  lemma AppRoundTrip(c: AppConfig)
    ensures ParseApp(AppText(c)) == if c.InRange() then Some(c) else None
  {
    HostOf(c);
    Fan1Of(c);
    Fan2Of(c);
  }

  /** What is stored for an accepted text parses to the same configuration, so that
      storing the stored text again changes nothing. */
  lemma StoredTextIsFixed(t: string)
    requires ParseApp(t).Some?
    ensures var stored := AppText(ParseApp(t).value);
            ParseApp(stored) == ParseApp(t) && AppText(ParseApp(stored).value) == stored
  {
    AppRoundTrip(ParseApp(t).value);
  }

  lemma FieldHasNoNul(name: string, value: string, gap: string, rest: string)
    requires NUL !in name && NUL !in value && NUL !in gap && NUL !in rest
    ensures NUL !in Field(name, value, gap, rest)
  {}

  lemma FanHasNoNul(name: string, f: FanConfig, end: string, rest: string)
    requires NUL !in name && NUL !in end && NUL !in rest
    ensures NUL !in Fan(name, f, end, rest)
  {
    var adc := Field("use_adc_target", BoolText(f.useAdcTarget), end, rest);
    FieldHasNoNul("use_adc_target", BoolText(f.useAdcTarget), end, rest);
    FieldHasNoNul("percent", PrintInt(f.percent), FAN_GAP, adc);
    FieldHasNoNul("enabled", BoolText(f.enabled), FAN_GAP, Field("percent", PrintInt(f.percent), FAN_GAP, adc));
    FieldHasNoNul(name, "{\n      ", "", FanFields(f, end, rest));
  }

  lemma HostHasNoNul(check: bool, timeout: nat, rest: string)
    requires NUL !in rest
    ensures NUL !in Version(Host(check, timeout, rest))
  {
    FieldHasNoNul("alive_timeout_ms", PrintInt(timeout), "\n  },\n  ", rest);
    FieldHasNoNul("alive_check_enabled", BoolText(check), ",\n    ", TimeoutField(timeout, rest));
    FieldHasNoNul("host", "{\n    ", "", HostFields(check, timeout, rest));
    FieldHasNoNul("version", "1", ",\n  ", Host(check, timeout, rest));
  }

  /** What is stored is read to its end. */
  lemma AppTextHasNoNul(c: AppConfig)
    ensures NUL !in AppText(c)
  {
    FanHasNoNul("fan2", c.fan2, FAN2_END, "");
    FanHasNoNul("fan1", c.fan1, FAN1_END, TextFrom(c, 0));
    FieldHasNoNul("fans", "{\n    ", "", TextFrom(c, 1));
    HostHasNoNul(c.hostAliveCheck, c.hostAliveTimeoutMs, TextFrom(c, 2));
    HostIsFirst(c);
  }

  lemma HostIsFirst(c: AppConfig)
    ensures AppText(c) == Version(Host(c.hostAliveCheck, c.hostAliveTimeoutMs, TextFrom(c, 2)))
  {
    assert TextFrom(c, 3) == Host(c.hostAliveCheck, c.hostAliveTimeoutMs, TextFrom(c, 2));
  }
}

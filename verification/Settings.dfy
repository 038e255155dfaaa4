/** The numbers of the configuration file: printed and read back, missing, or unreadable. */
module Settings {
  import opened Text
  import opened Rules

  /** `std::to_string` of an `int`. */
  function ShowInt(n: int): string {
    if n < 0 then "-" + Decimal(-n) else Decimal(n)
  }

  /** A printed number is read back if it fits an `int`, and otherwise nothing is read. */
  lemma ReadShown(n: int)
    ensures FromChars(ShowInt(n)) == if -2147483648 <= n <= 2147483647 then Some(n) else None
  {
    var m := if n < 0 then -n else n;
    var d := Decimal(m);
    DecimalValue(m);
    SpanConcat(d, "", IsDigit);
    assert d + "" == d && d[..|d|] == d && IsDigit(d[0]);
    if n < 0 {
      assert ("-" + d)[1..] == d;
    }
  }

  /** The settings as the file names them. */
  function SettingsFor(c: RuleConfig): map<string, string> {
    map["window_seconds" := ShowInt(c.sshWindowSeconds),
        "threshold" := ShowInt(c.sshThreshold),
        "cooldown_seconds" := ShowInt(c.sshCooldownSeconds),
        "scan_window_seconds" := ShowInt(c.scanWindowSeconds),
        "scan_threshold" := ShowInt(c.scanThreshold),
        "scan_cooldown_seconds" := ShowInt(c.scanCooldownSeconds),
        "priv_history_hours" := ShowInt(c.privHistoryHours),
        "priv_cooldown_seconds" := ShowInt(c.privCooldownSeconds),
        "multi_window_seconds" := ShowInt(c.multiWindowSeconds),
        "multi_min_services" := ShowInt(c.multiMinServices),
        "multi_cooldown_seconds" := ShowInt(c.multiCooldownSeconds)]
  }

  predicate Int32(n: int) {
    -2147483648 <= n <= 2147483647
  }

  predicate Fits(c: RuleConfig) {
    && Int32(c.sshWindowSeconds) && Int32(c.sshThreshold) && Int32(c.sshCooldownSeconds)
    && Int32(c.scanWindowSeconds) && Int32(c.scanThreshold) && Int32(c.scanCooldownSeconds)
    && Int32(c.privHistoryHours) && Int32(c.privCooldownSeconds)
    && Int32(c.multiWindowSeconds) && Int32(c.multiMinServices) && Int32(c.multiCooldownSeconds)
  }

  lemma ReadSetting(m: map<string, string>, key: string, n: int, default: int)
    requires key in m && m[key] == ShowInt(n) && Int32(n)
    ensures ToInt(m, key, default) == n
  {
    ReadShown(n);
    hide FromChars, ShowInt;
  }

  /** Every setting is read from its own key: a configuration written out is read back. */
  lemma {:induction false} SettingsBack(c: RuleConfig)
    requires Fits(c)
    ensures FromYaml(SettingsFor(c)) == c
  {
    hide ToInt, ShowInt;
    var m := SettingsFor(c);
    ReadSetting(m, "window_seconds", c.sshWindowSeconds, 60);
    ReadSetting(m, "threshold", c.sshThreshold, 10);
    ReadSetting(m, "cooldown_seconds", c.sshCooldownSeconds, 120);
    ReadSetting(m, "scan_window_seconds", c.scanWindowSeconds, 30);
    ReadSetting(m, "scan_threshold", c.scanThreshold, 15);
    ReadSetting(m, "scan_cooldown_seconds", c.scanCooldownSeconds, 60);
    ReadSetting(m, "priv_history_hours", c.privHistoryHours, 24);
    ReadSetting(m, "priv_cooldown_seconds", c.privCooldownSeconds, 300);
    ReadSetting(m, "multi_window_seconds", c.multiWindowSeconds, 300);
    ReadSetting(m, "multi_min_services", c.multiMinServices, 2);
    ReadSetting(m, "multi_cooldown_seconds", c.multiCooldownSeconds, 180);
  }

  /** A file that names none of the settings, or none readably, leaves the defaults. */
  lemma {:induction false} DefaultSettings(m: map<string, string>)
    requires forall k :: k in m && k in SettingsFor(RuleConfig()) ==> FromChars(m[k]).None?
    ensures FromYaml(m) == RuleConfig(60, 10, 120, 30, 15, 60, 24, 300, 300, 2, 180)
  {
    hide FromChars, ShowInt;
  }
}

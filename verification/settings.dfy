/** The numeric settings both variants read from the environment with the
    idiom `parseInt(process.env.X) || default`. A variable's text is an
    `Option<string>`, `None` when it is unset. */
module Settings {
  import opened Options
  import opened Text
  import opened Numbers
  import Cooldown

  /** `parsed || fallback`: NaN and 0 are both falsy, so both fall back. */
  function OrDefault(parsed: Option<int>, fallback: int): (v: int)
    ensures parsed.Some? && parsed.value != 0 ==> v == parsed.value
    ensures parsed == None || parsed == Some(0) ==> v == fallback
  {
    match parsed
    case Some(n) => if n != 0 then n else fallback
    case None => fallback
  }

  /** With a truthy default the result is always truthy, so applying the
      idiom to its own result changes nothing. */
  lemma OrDefaultSettles(parsed: Option<int>, fallback: int)
    requires fallback != 0
    ensures OrDefault(parsed, fallback) != 0
    ensures OrDefault(Some(OrDefault(parsed, fallback)), fallback) == OrDefault(parsed, fallback)
  {
  }

  /** `parseInt` reads back a count written plainly in decimal. */
  lemma ReadsPlainDecimal(n: nat)
    ensures ParseInt(Some(Decimal(n))) == Some(n)
  {
    ParseIntReadsDecimal([], n, []);
    assert [] + Decimal(n) + [] == Decimal(n);
  }

  /** `parseInt(process.env.X) || fallback`. */
  function Setting(raw: Option<string>, fallback: int): (v: int)
    ensures raw.None? ==> v == fallback
    ensures ParseInt(raw).Some? && ParseInt(raw).value != 0 ==> v == ParseInt(raw).value
    ensures ParseInt(raw).None? || ParseInt(raw) == Some(0) ==> v == fallback
    ensures forall n: nat :: raw == Some(Decimal(n)) ==> v == (if n != 0 then n else fallback)
  {
    assert forall n: nat :: raw == Some(Decimal(n)) ==> ParseInt(raw) == Some(n) by {
      forall n: nat | raw == Some(Decimal(n))
        ensures ParseInt(raw) == Some(n)
      {
        ReadsPlainDecimal(n);
      }
    }
    OrDefault(ParseInt(raw), fallback)
  }

  /** index.js's defaults: a ten-minute cooldown and a report at 12:00. */
  const DefaultCooldown: int := 600000
  const DefaultReportHour: int := 12

  /** index.js `DAILY_REPORT_HOUR` as written: `parseInt(...) || 12`. */
  function ReportHourAsWritten(raw: Option<string>): (h: int)
    ensures raw.None? || ParseInt(raw).None? ==> h == DefaultReportHour
    ensures raw == Some("0") ==> h == DefaultReportHour
    ensures forall n: nat :: 0 < n && raw == Some(Decimal(n)) ==> h == n
  {
    assert Decimal(0) == "0";
    Setting(raw, DefaultReportHour)
  }

  /** Hour 0 is a valid setting, but `|| 12` treats it as missing: asking for
      the report at midnight schedules it at noon. */
  lemma MidnightReportHourLost()
    ensures ReportHourAsWritten(Some("0")) == 12
    ensures exists h: nat :: h < 24 && ReportHourAsWritten(Some(Decimal(h))) != h
  {
    assert Decimal(0) == "0";
    assert ReportHourAsWritten(Some(Decimal(0))) != 0;
  }

  /** `DAILY_REPORT_HOUR` with only NaN falling back to 12. */
  function ReportHour(raw: Option<string>): (h: int)
    ensures ParseInt(raw).Some? ==> h == ParseInt(raw).value
    ensures raw.None? || ParseInt(raw).None? ==> h == DefaultReportHour
    ensures forall n: nat :: raw == Some(Decimal(n)) ==> h == n
  {
    assert forall n: nat :: raw == Some(Decimal(n)) ==> ParseInt(raw) == Some(n) by {
      forall n: nat | raw == Some(Decimal(n))
        ensures ParseInt(raw) == Some(n)
      {
        ReadsPlainDecimal(n);
      }
    }
    ParseInt(raw).GetOr(DefaultReportHour)
  }

  /** Every hour of the day, midnight included, can be chosen for the report. */
  lemma EveryHourSelectable()
    ensures forall h: nat :: h < 24 ==> ReportHour(Some(Decimal(h))) == h
  {
  }

  /** The correction changes exactly one reading: a setting that parses to 0. */
  lemma ReportHourFixesOnlyZero(raw: Option<string>)
    ensures ReportHour(raw) != ReportHourAsWritten(raw) <==> ParseInt(raw) == Some(0)
  {
  }

  /** The strategy index.js runs with, as written. */
  function StrategyFromEnv(cooldown: Option<string>, reportHour: Option<string>): (s: Cooldown.Strategy)
    ensures ParseInt(cooldown).Some? && ParseInt(cooldown).value != 0 ==> s.cooldown == ParseInt(cooldown).value
    ensures ParseInt(cooldown).None? || ParseInt(cooldown) == Some(0) ==> s.cooldown == DefaultCooldown
    ensures ParseInt(reportHour).Some? && ParseInt(reportHour).value != 0 ==> s.reportHour == ParseInt(reportHour).value
    ensures ParseInt(reportHour).None? || ParseInt(reportHour) == Some(0) ==> s.reportHour == DefaultReportHour
    ensures reportHour == Some("0") ==> s.reportHour == DefaultReportHour
  {
    Cooldown.Strategy(Setting(cooldown, DefaultCooldown), ReportHourAsWritten(reportHour))
  }

  /** The strategy with the report hour read as evidently intended. */
  function IntendedStrategyFromEnv(cooldown: Option<string>, reportHour: Option<string>): (s: Cooldown.Strategy)
    ensures ParseInt(cooldown).Some? && ParseInt(cooldown).value != 0 ==> s.cooldown == ParseInt(cooldown).value
    ensures ParseInt(cooldown).None? || ParseInt(cooldown) == Some(0) ==> s.cooldown == DefaultCooldown
    ensures ParseInt(reportHour).Some? ==> s.reportHour == ParseInt(reportHour).value
    ensures ParseInt(reportHour).None? ==> s.reportHour == DefaultReportHour
  {
    Cooldown.Strategy(Setting(cooldown, DefaultCooldown), ReportHour(reportHour))
  }

  /** The two strategies agree except when the report hour parses to 0. */
  lemma StrategiesDifferOnlyAtMidnight(cooldown: Option<string>, reportHour: Option<string>)
    ensures (StrategyFromEnv(cooldown, reportHour) != IntendedStrategyFromEnv(cooldown, reportHour))
            <==> ParseInt(reportHour) == Some(0)
  {
    ReportHourFixesOnlyZero(reportHour);
  }
}

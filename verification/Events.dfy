/**
 The records that travel through the pipeline.  Times are integer nanoseconds; a
 duration given in seconds is multiplied by `SECOND`.
 */
module Events {
  const SECOND: int := 1_000_000_000
  const DAY: int := 24 * 3600 * SECOND

  datatype LogLevel =
    | UNKNOWN_LEVEL | DEBUG | INFO | NOTICE | WARN | ERROR | CRITICAL_LEVEL | ALERT | EMERG
  {
    /** The numeric code of the level in the source's enumeration. */
    function Code(): nat {
      match this
      case UNKNOWN_LEVEL => 0
      case DEBUG => 1
      case INFO => 2
      case NOTICE => 3
      case WARN => 4
      case ERROR => 5
      case CRITICAL_LEVEL => 6
      case ALERT => 7
      case EMERG => 8
    }
  }

  datatype LogFormat = UNKNOWN_FORMAT | SYSLOG | KV_PAIRS

  datatype LogEvent = LogEvent(
    timestamp: int,
    sourceHost: string,
    logSource: string,
    pid: int,
    level: LogLevel,
    format: LogFormat,
    rawLine: string,
    message: string,
    fields: map<string, string>)

  datatype Severity = LOW | MEDIUM | HIGH | CRITICAL {
    function Rank(): nat {
      match this
      case LOW => 1
      case MEDIUM => 2
      case HIGH => 3
      case CRITICAL => 4
    }
  }

  datatype Alert = Alert(
    timestamp: int,
    sourceHost: string,
    ruleId: string,
    severity: Severity,
    anomalyScore: real,
    metadata: map<string, string>)
}

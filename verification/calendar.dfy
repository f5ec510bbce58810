/**
 * The broken-down date and time that both timestamp encoders read. The
 * `time` crate's `OffsetDateTime` and chrono's `DateTime<Local>` each report
 * these fields after the value has been put into its offset.
 */
module Calendar {

  /**
   * A calendar year in astronomical numbering (1 BC is year 0), month 1-12,
   * day of month, hour, minute, second, and the nanoseconds past the second.
   */
  datatype DateTime = DateTime(year: int, month: nat, day: nat, hour: nat, minute: nat, second: nat,
                               nanosecond: nat)

  /** The ranges both crates guarantee for the fields of a datetime. */
  predicate InRange(dt: DateTime) {
    && 1 <= dt.month <= 12 && 1 <= dt.day <= 31
    && dt.hour < 24 && dt.minute < 60 && dt.second < 60
    && dt.nanosecond < 1_000_000_000
  }

  /** `millisecond()` / `timestamp_subsec_millis()`: whole milliseconds past the second. */
  function Millisecond(dt: DateTime): nat {
    dt.nanosecond / 1_000_000
  }

  /** `microsecond()`: whole microseconds past the second. */
  function Microsecond(dt: DateTime): nat {
    dt.nanosecond / 1_000
  }
}

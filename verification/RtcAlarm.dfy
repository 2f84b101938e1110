/** BSP_Rtc_Alarm_StartMs of bsp_rtc.c: a delay in milliseconds added to a calendar time whose seconds are
    counted down in 1024 steps. The integer types make every under- and overflow an error. */
module RtcAlarm {

  newtype uint16 = x: int | 0 <= x < 0x10000
  newtype uint32 = x: int | 0 <= x < 0x1_0000_0000

  const SECOND_FRACTION: uint32 := 1023

  /** A reading or a setting of the clock; the sub-seconds run from 1023 down to 0. */
  datatype Time = Time(hours: uint16, minutes: uint16, seconds: uint16, subSeconds: uint32) {
    predicate Valid() {
      hours < 24 && minutes < 60 && seconds < 60 && subSeconds <= SECOND_FRACTION
    }

    /** The time of day in 1/128 ms, of which a sub-second has exactly 125. */
    function Units(): int {
      SECOND * (3600 * hours as int + 60 * minutes as int + seconds as int) + SUB_SECOND * (1023 - subSeconds as int)
    }
  }

  const MS := 128
  const SUB_SECOND := 125
  const SECOND := 128000
  const DAY := 86400 * SECOND

  /** The milliseconds of a reading, rounded down. */
  lemma ReadRounds(f: int, b: int)
    requires 0 <= f <= 1023 && b == 1000 * f / 1024
    ensures 0 <= b < 1000 && 0 <= SUB_SECOND * f - MS * b < MS
  {
  }

  /** The sub-seconds of a setting, rounded up. */
  lemma SetRounds(ms: int, a: int, b: int)
    requires 0 <= ms < 1000 && a == 1023000 - 1024 * ms && b == a / 1000
    ensures 0 <= a && 0 <= b <= 1023 && 0 <= SUB_SECOND * (1023 - b) - MS * ms < MS
  {
  }

  /** Carrying from milliseconds to hours keeps the sum. */
  lemma Carry(ms: int, seconds: int, minutes: int, hours: int)
    requires ms >= 0 && seconds >= 0 && minutes >= 0 && hours >= 0
    ensures var s := seconds + ms / 1000;
      var m := minutes + s / 60;
      var h := hours + m / 60;
      SECOND * (3600 * hours + 60 * minutes + seconds) + MS * ms
      == DAY * (h / 24) + SECOND * (3600 * (h % 24) + 60 * (m % 60) + s % 60) + MS * (ms % 1000)
  {
  }

  /** A delay of less than a day, in its parts. */
  method Split(elapse: int) returns (hours: uint16, minutes: uint16, seconds: uint16, ms: uint32)
    requires 0 <= elapse < 86400000
    ensures hours < 24 && minutes < 60 && seconds < 60 && ms < 1000
    ensures MS * elapse == SECOND * (3600 * hours as int + 60 * minutes as int + seconds as int) + MS * ms as int
  {
    var u32Elapse: uint32 := (elapse / 1000) as uint32;
    hours := (u32Elapse / 3600) as uint16;
    var rest: uint16 := (u32Elapse % 3600) as uint16;
    minutes := rest / 60;
    seconds := rest % 60;
    ms := (elapse - (u32Elapse as int) * 1000) as uint32;
  }

  /** The programmed alarm is less than 1 ms away from the time that is asked for, on the 24-hour dial. */
  method StartMs(now: Time, elapse: int) returns (alarm: Time, ghost days: int)
    requires now.Valid() && 0 <= elapse < 86400000
    ensures alarm.Valid() && 0 <= days <= 1
    ensures -MS < alarm.Units() + DAY * days - (now.Units() + MS * elapse) < MS
  {
    var hours, minutes, seconds, ms := Split(elapse);
    var a: uint32 := (SECOND_FRACTION - now.subSeconds) * 1000;
    var b: uint32 := a / (SECOND_FRACTION + 1);
    ReadRounds(1023 - now.subSeconds as int, b as int);
    ms := ms + b;
    Carry(ms as int, seconds as int + now.seconds as int, minutes as int + now.minutes as int, hours as int + now.hours as int);
    seconds := seconds + now.seconds + (ms / 1000) as uint16;
    minutes := minutes + now.minutes + seconds / 60;
    hours := hours + now.hours + minutes / 60;
    ms := ms % 1000;
    a := SECOND_FRACTION * 1000 - ms * (SECOND_FRACTION + 1);
    b := a / 1000;
    SetRounds(ms as int, a as int, b as int);
    alarm := Time(hours % 24, minutes % 60, seconds % 60, b);
    days := (hours / 24) as int;
  }
}

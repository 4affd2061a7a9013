/**
 * The meridiem converter (`time_conversion::to_minutes`): a 12-hour reading and an "AM"/"PM"
 * indicator become minutes since midnight.
 */
module TimeConversion {
  import opened Types

  const MINUTES_PER_DAY: nat := 1440
  const NOON: nat := 720

  predicate ValidClock(c: Clock) {
    1 <= c.hour <= 12 && c.minute <= 59 && (c.meridiem == "AM" || c.meridiem == "PM")
  }

  /**
   * Reference reading of a 12-hour clock: the hour counts modulo 12 (so 12 o'clock is hour 0 of
   * its half-day) and the afternoon half starts twelve hours after midnight.
   */
  function MinuteOfDay(c: Clock): nat {
    (c.hour % 12 + (if c.meridiem == "PM" then 12 else 0)) * 60 + c.minute
  }

  /**
   * Converts hour, minute and indicator to minutes since midnight. Any indicator other than
   * exactly "AM" or "PM" is refused; for a valid reading the result is the reference minute of the
   * day, which lies within one day.
   */
  function ToMinutes(hour12: nat, minute: nat, indicator: string): (r: Result<nat>)
    ensures r.Err? <==> indicator != "AM" && indicator != "PM"
    ensures r.Err? ==> r.error == InternalIndicatorError(indicator)
    ensures r.Ok? && 1 <= hour12 <= 12 ==> r.value == MinuteOfDay(Clock(hour12, minute, indicator))
    ensures r.Ok? && 1 <= hour12 <= 12 && minute <= 59 ==> r.value < MINUTES_PER_DAY
  {
    if indicator == "AM" then
      var hour24 := if hour12 == 12 then 0 else hour12;
      Ok(hour24 * 60 + minute)
    else if indicator == "PM" then
      var hour24 := if hour12 != 12 then hour12 + 12 else hour12;
      Ok(hour24 * 60 + minute)
    else
      Err(InternalIndicatorError(indicator))
  }

  /** The 12-hour reading of a minute of the day. */
  function FromMinutes(t: nat): (c: Clock)
    requires t < MINUTES_PER_DAY
    ensures ValidClock(c)
    ensures c.meridiem == (if t < NOON then "AM" else "PM")
  {
    var h := (t / 60) % 12;
    Clock(if h == 0 then 12 else h, t % 60, if t < NOON then "AM" else "PM")
  }

  /** Every minute of the day has a 12-hour reading that converts back to it. */
  lemma ToMinutesOfFromMinutes(t: nat)
    requires t < MINUTES_PER_DAY
    ensures var c := FromMinutes(t); ToMinutes(c.hour, c.minute, c.meridiem) == Ok(t)
  {
    var c := FromMinutes(t);
    var q := t / 60;
    assert t == q * 60 + t % 60;
    assert 0 <= q < 24;
    if q < 12 {
      assert c.meridiem == "AM";
      assert q % 12 == q;
    } else {
      assert c.meridiem == "PM";
      assert q % 12 == q - 12;
    }
  }

  /** Conversion is one-to-one on valid readings: the reading is recovered from the minute it denotes. */
  lemma FromMinutesOfToMinutes(c: Clock)
    requires ValidClock(c)
    ensures ToMinutes(c.hour, c.minute, c.meridiem).Ok?
    ensures FromMinutes(ToMinutes(c.hour, c.minute, c.meridiem).value) == c
  {
    var t := ToMinutes(c.hour, c.minute, c.meridiem).value;
    var h := c.hour % 12 + (if c.meridiem == "PM" then 12 else 0);
    assert t == h * 60 + c.minute;
    assert t / 60 == h && t % 60 == c.minute;
  }

  /** Twelve o'clock AM is midnight and twelve o'clock PM is noon. */
  lemma MidnightAndNoon()
    ensures ToMinutes(12, 0, "AM") == Ok(0)
    ensures ToMinutes(12, 0, "PM") == Ok(NOON)
  {
  }

  /** The same reading in the afternoon is exactly twelve hours after the morning one, for every hour 1..12. */
  lemma PmIsTwelveHoursLater(hour12: nat, minute: nat)
    requires 1 <= hour12 <= 12
    ensures ToMinutes(hour12, minute, "PM").Ok? && ToMinutes(hour12, minute, "AM").Ok?
    ensures ToMinutes(hour12, minute, "PM").value == ToMinutes(hour12, minute, "AM").value + NOON
  {
  }

  /** Morning readings fall before noon and afternoon readings from noon on. */
  lemma HalvesOfTheDay(c: Clock)
    requires ValidClock(c)
    ensures ToMinutes(c.hour, c.minute, c.meridiem).Ok?
    ensures c.meridiem == "AM" ==> ToMinutes(c.hour, c.minute, c.meridiem).value < NOON
    ensures c.meridiem == "PM" ==> NOON <= ToMinutes(c.hour, c.minute, c.meridiem).value
  {
  }

  /** The conversions the repository's unit tests check. */
  lemma ConversionExamples()
    ensures ToMinutes(9, 0, "AM") == Ok(9 * 60)
    ensures ToMinutes(12, 0, "AM") == Ok(0)
    ensures ToMinutes(5, 30, "PM") == Ok(17 * 60 + 30)
    ensures ToMinutes(12, 0, "PM") == Ok(12 * 60)
  {
  }
}

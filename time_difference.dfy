/**
 * The range difference calculator (`time_difference::calculate`): a range "start-end" is split
 * on '-', both sides are parsed, their meridiems are resolved by the ambiguity policy, and the
 * elapsed time from start to end is returned. The model returns whole minutes; the source
 * divides them by 60 to report hours (see `Hours`).
 */
module TimeDifference {
  import opened Types
  import opened Text
  import opened TimeParsing
  import opened TimeConversion

  /**
   * The ambiguity policy: both sides keep their own meridiem, or, when neither has one, the
   * start is read as AM and the end as PM; a range where only one side has one is refused.
   */
  function ResolveMeridiems(start: Option<string>, end: Option<string>): (r: Option<(string, string)>)
    ensures r.None? <==> start.Some? != end.Some?
  {
    match (start, end)
    case (Some(s), Some(e)) => Some((s, e))
    case (None, None) => Some(("AM", "PM"))
    case _ => None
  }

  predicate WellFormed(c: Components) {
    InRange(c) && c.meridiem in {None, Some("AM"), Some("PM")}
  }

  /**
   * The second half of the calculation, once both sides are parsed: resolve the meridiems,
   * convert both sides and refuse an end before the start.
   */
  function Elapsed(rawStart: string, start: Components, rawEnd: string, end: Components): (r: Result<nat>)
    requires WellFormed(start) && WellFormed(end)
    ensures r.Ok? ==> r.value < MINUTES_PER_DAY
    ensures r.Err? ==> r.error.AmbiguityError? || r.error.OrderingError?
  {
    match ResolveMeridiems(start.meridiem, end.meridiem)
    case None => Err(AmbiguityError)
    case Some((startMeridiem, endMeridiem)) =>
      match ToMinutes(start.hour, start.minute, startMeridiem)
      case Err(e) => Err(e)
      case Ok(startMinutes) =>
        match ToMinutes(end.hour, end.minute, endMeridiem)
        case Err(e) => Err(e)
        case Ok(endMinutes) =>
          if endMinutes < startMinutes then
            Err(OrderingError(rawEnd, Clock(end.hour, end.minute, endMeridiem),
                              rawStart, Clock(start.hour, start.minute, startMeridiem)))
          else
            Ok(endMinutes - startMinutes)
  }

  /** Parses both (trimmed, non-empty) sides and measures the range between them; a parse error is passed on unchanged. */
  function Difference(rawStart: string, rawEnd: string): (r: Result<nat>)
    requires IsAscii(rawStart) && IsAscii(rawEnd)
    ensures r.Ok? ==> r.value < MINUTES_PER_DAY
    ensures r.Err? ==> r.error.FormatError? || r.error.ValueError? || r.error.AmbiguityError? || r.error.OrderingError?
  {
    match ParseTimeComponents(rawStart)
    case Err(e) => Err(e)
    case Ok(start) =>
      match ParseTimeComponents(rawEnd)
      case Err(e) => Err(e)
      case Ok(end) => Elapsed(rawStart, start, rawEnd, end)
  }

  /** Minutes from the start of the range to its end, or the error that stops the computation. */
  function Calculate(rangeStr: string): (r: Result<nat>)
    requires IsAscii(rangeStr)
    ensures r.Ok? ==> r.value < MINUTES_PER_DAY
    ensures r.Err? ==> r.error.FormatError? || r.error.ValueError? || r.error.AmbiguityError? || r.error.OrderingError?
  {
    var parts := Split(rangeStr, '-');
    if |parts| != 2 then Err(FormatError(RangeSeparator))
    else
      JoinedAscii(parts, '-');
      var rawStart, rawEnd := Trim(parts[0]), Trim(parts[1]);
      if rawStart == [] || rawEnd == [] then Err(FormatError(EmptySide))
      else Difference(rawStart, rawEnd)
  }

  /** The source's result: elapsed hours, a real number that is the minutes divided by sixty. */
  function Hours(minutes: nat): (hours: real)
    ensures hours * 60.0 == minutes as real
    ensures hours >= 0.0
  {
    minutes as real / 60.0
  }
}

module RangePolicy {
  import opened Types
  import opened Text
  import opened TimeParsing
  import opened TimeGrammar
  import opened TimeConversion
  import opened TimeDifference

  /** A range is refused unless it holds exactly one '-'. */
  lemma {:induction false} CalculateNeedsOneSeparator(rangeStr: string)
    requires IsAscii(rangeStr) && multiset(rangeStr)['-'] != 1
    ensures Calculate(rangeStr) == Err(FormatError(RangeSeparator))
  {
    SplitCount(rangeStr, '-');
  }

  /** Every range with exactly one '-' is its text before the '-', the '-', and its text after it. */
  lemma RangeHasTwoSides(rangeStr: string) returns (a: string, b: string)
    requires multiset(rangeStr)['-'] == 1
    ensures '-' !in a && '-' !in b && rangeStr == a + "-" + b
  {
    SplitCount(rangeStr, '-');
    var parts := Split(rangeStr, '-');
    a, b := parts[0], parts[1];
    assert parts[1..] == [b];
    assert Join(parts[1..], '-') == b;
  }

  lemma RangeIsAscii(a: string, b: string)
    requires IsAscii(a) && IsAscii(b)
    ensures IsAscii(a + "-" + b)
  {
    var s := a + "-" + b;
    forall i | 0 <= i < |s| ensures s[i] as int < 128 {
      if i < |a| { assert s[i] == a[i]; }
      else if i > |a| { assert s[i] == b[i - |a| - 1]; }
    }
  }

  /** The two sides of a range with one '-' are what lies before and after it. */
  lemma SidesOfRange(a: string, b: string)
    requires '-' !in a && '-' !in b
    ensures Split(a + "-" + b, '-') == [a, b]
  {
    assert a + "-" + b == a + ['-'] + b;
    SplitTwo(a, '-', b);
  }

  /** A range with one '-' and two non-empty sides is measured between its trimmed sides. */
  lemma CalculateSides(a: string, b: string)
    requires IsAscii(a) && IsAscii(b) && '-' !in a && '-' !in b
    requires Trim(a) != [] && Trim(b) != []
    ensures IsAscii(a + "-" + b)
    ensures Calculate(a + "-" + b) == Difference(Trim(a), Trim(b))
  {
    RangeIsAscii(a, b);
    SidesOfRange(a, b);
  }

  /** A side that is empty after trimming is a format error. */
  lemma CalculateEmptySide(a: string, b: string)
    requires IsAscii(a) && IsAscii(b) && '-' !in a && '-' !in b
    requires Trim(a) == [] || Trim(b) == []
    ensures IsAscii(a + "-" + b)
    ensures Calculate(a + "-" + b) == Err(FormatError(EmptySide))
  {
    RangeIsAscii(a, b);
    SidesOfRange(a, b);
  }

  /** An error parsing the start is returned unchanged. */
  lemma CalculatePassesStartError(a: string, b: string)
    requires IsAscii(a) && IsAscii(b) && '-' !in a && '-' !in b
    requires Trim(a) != [] && Trim(b) != []
    requires ParseTimeComponents(a).Err?
    ensures IsAscii(a + "-" + b)
    ensures Calculate(a + "-" + b) == Err(ParseTimeComponents(a).error)
  {
    RangeIsAscii(a, b);
    ParseIgnoresTrim(a);
    CalculateSides(a, b);
  }

  /** When the start parses, an error parsing the end is returned unchanged. */
  lemma CalculatePassesEndError(a: string, b: string)
    requires IsAscii(a) && IsAscii(b) && '-' !in a && '-' !in b
    requires Trim(a) != [] && Trim(b) != []
    requires ParseTimeComponents(a).Ok? && ParseTimeComponents(b).Err?
    ensures IsAscii(a + "-" + b)
    ensures Calculate(a + "-" + b) == Err(ParseTimeComponents(b).error)
  {
    RangeIsAscii(a, b);
    ParseIgnoresTrim(a);
    ParseIgnoresTrim(b);
    CalculateSides(a, b);
  }

  /** When exactly one side names its meridiem the range is ambiguous and refused. */
  lemma CalculateAmbiguous(a: string, b: string)
    requires IsAscii(a) && IsAscii(b) && '-' !in a && '-' !in b
    requires ParseTimeComponents(a).Ok? && ParseTimeComponents(b).Ok?
    requires ParseTimeComponents(a).value.meridiem.Some? != ParseTimeComponents(b).value.meridiem.Some?
    ensures IsAscii(a + "-" + b)
    ensures Calculate(a + "-" + b) == Err(AmbiguityError)
  {
    RangeIsAscii(a, b);
    ParseIgnoresTrim(a);
    ParseIgnoresTrim(b);
    CalculateSides(a, b);
    DifferenceOfParsed(Trim(a), Trim(b));
    ElapsedAmbiguous(Trim(a), ParseTimeComponents(a).value, Trim(b), ParseTimeComponents(b).value);
  }

  /** The clock a parsed side stands for, given the meridiem it defaults to when it names none. */
  function Resolved(c: Components, default: string): Clock {
    Clock(c.hour, c.minute, if c.meridiem.Some? then c.meridiem.value else default)
  }

  /** Reference outcome for two resolved clocks: the minutes from start to end, unless the end comes first. */
  function Measure(rawStart: string, start: Clock, rawEnd: string, end: Clock): Result<nat> {
    if MinuteOfDay(start) <= MinuteOfDay(end) then Ok(MinuteOfDay(end) - MinuteOfDay(start))
    else Err(OrderingError(rawEnd, end, rawStart, start))
  }

  lemma DifferenceOfParsed(rawStart: string, rawEnd: string)
    requires IsAscii(rawStart) && IsAscii(rawEnd)
    requires ParseTimeComponents(rawStart).Ok? && ParseTimeComponents(rawEnd).Ok?
    ensures Difference(rawStart, rawEnd)
            == Elapsed(rawStart, ParseTimeComponents(rawStart).value, rawEnd, ParseTimeComponents(rawEnd).value)
  {
  }

  lemma ElapsedAmbiguous(rawStart: string, start: Components, rawEnd: string, end: Components)
    requires WellFormed(start) && WellFormed(end)
    requires start.meridiem.Some? != end.meridiem.Some?
    ensures Elapsed(rawStart, start, rawEnd, end) == Err(AmbiguityError)
  {
  }

  lemma ElapsedResolved(rawStart: string, start: Components, rawEnd: string, end: Components)
    requires WellFormed(start) && WellFormed(end)
    requires start.meridiem.Some? == end.meridiem.Some?
    ensures Elapsed(rawStart, start, rawEnd, end)
            == Measure(rawStart, Resolved(start, "AM"), rawEnd, Resolved(end, "PM"))
  {
  }

  /**
   * When both sides parse and agree on naming a meridiem, each side is read with its own
   * meridiem, or the start as AM and the end as PM when neither names one; the range succeeds
   * exactly when the end is not before the start, and then measures the minutes between them.
   * Otherwise the error reports both trimmed sides with the clocks they were read as.
   */
  lemma CalculateResolved(a: string, b: string)
    requires IsAscii(a) && IsAscii(b) && '-' !in a && '-' !in b
    requires ParseTimeComponents(a).Ok? && ParseTimeComponents(b).Ok?
    requires ParseTimeComponents(a).value.meridiem.Some? == ParseTimeComponents(b).value.meridiem.Some?
    ensures IsAscii(a + "-" + b)
    ensures Calculate(a + "-" + b)
            == Measure(Trim(a), Resolved(ParseTimeComponents(a).value, "AM"),
                       Trim(b), Resolved(ParseTimeComponents(b).value, "PM"))
  {
    RangeIsAscii(a, b);
    SidesOfRange(a, b);
    ParseIgnoresTrim(a);
    ParseIgnoresTrim(b);
    var cs, ce := ParseTimeComponents(a).value, ParseTimeComponents(b).value;
    CalculateSides(a, b);
    DifferenceOfParsed(Trim(a), Trim(b));
    ElapsedResolved(Trim(a), cs, Trim(b), ce);
  }

  /** A range with no meridiem on either side always succeeds: an AM start is before any PM end. */
  lemma ImplicitRangeIsOrdered(a: string, b: string)
    requires IsAscii(a) && IsAscii(b) && '-' !in a && '-' !in b
    requires ParseTimeComponents(a).Ok? && ParseTimeComponents(b).Ok?
    requires ParseTimeComponents(a).value.meridiem.None? && ParseTimeComponents(b).value.meridiem.None?
    ensures IsAscii(a + "-" + b)
    ensures Calculate(a + "-" + b).Ok? && Calculate(a + "-" + b).value > 0
  {
    CalculateResolved(a, b);
  }

  /** A range from a time with a meridiem to itself lasts zero minutes. */
  lemma CalculateSameTime(a: string)
    requires IsAscii(a) && '-' !in a
    requires ParseTimeComponents(a).Ok? && ParseTimeComponents(a).value.meridiem.Some?
    ensures IsAscii(a + "-" + a)
    ensures Calculate(a + "-" + a) == Ok(0)
  {
    CalculateResolved(a, a);
    var c := ParseTimeComponents(a).value;
    assert Resolved(c, "AM") == Resolved(c, "PM");
    MeasureSame(Trim(a), Resolved(c, "AM"));
  }

  lemma MeasureSame(raw: string, k: Clock)
    ensures Measure(raw, k, raw, k) == Ok(0)
  {
  }

  /** The same bare time on both sides reads as AM to PM: twelve hours. */
  lemma CalculateSameBareTime(a: string)
    requires IsAscii(a) && '-' !in a
    requires ParseTimeComponents(a).Ok? && ParseTimeComponents(a).value.meridiem.None?
    ensures IsAscii(a + "-" + a)
    ensures Calculate(a + "-" + a) == Ok(NOON)
  {
    CalculateResolved(a, a);
    var c := ParseTimeComponents(a).value;
    assert MinuteOfDay(Resolved(c, "PM")) == MinuteOfDay(Resolved(c, "AM")) + NOON;
  }
}

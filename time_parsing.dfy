/**
 * The time-component parser (`time_parsing::parse_time_components`): a trimmed token is
 * split into an optional AM/PM suffix, an hour field and a minute field, which are read as
 * unsigned numbers and checked against the 12-hour clock.
 */
module TimeParsing {
  import opened Types
  import opened Text

  /** What the parser returns: the hour and minute as read, and the upper-cased suffix if one was found. */
  datatype Components = Components(hour: nat, minute: nat, meridiem: Option<string>)

  predicate InRange(c: Components) {
    1 <= c.hour <= 12 && c.minute <= 59
  }

  // ---------------------------------------------------------------------------
  // Reading an unsigned number the way `u32::from_str` does
  // ---------------------------------------------------------------------------

  const U32_MAX: nat := 0xFFFF_FFFF

  predicate AllDigits(s: string) {
    forall i :: 0 <= i < |s| ==> IsDigit(s[i])
  }

  function DigitsValue(s: string): nat
    requires AllDigits(s)
  {
    if s == [] then 0 else DigitsValue(s[..|s| - 1]) * 10 + (s[|s| - 1] as int - '0' as int)
  }

  /** The text `u32::from_str` accepts: an optional '+' followed by at least one decimal digit. */
  predicate UnsignedToken(s: string) {
    (|s| >= 1 && AllDigits(s)) || (|s| >= 2 && s[0] == '+' && AllDigits(s[1..]))
  }

  function TokenValue(s: string): nat
    requires UnsignedToken(s)
  {
    if s[0] == '+' then DigitsValue(s[1..]) else DigitsValue(s)
  }

  /** `u32::from_str`: a lone sign, an empty text, a non-digit or a value above 2^32 - 1 is refused. */
  function ParseU32(s: string): (r: Option<nat>)
    ensures r.Some? <==> UnsignedToken(s) && TokenValue(s) <= U32_MAX
    ensures r.Some? ==> r.value == TokenValue(s)
  {
    if |s| == 0 || s == "+" then None
    else
      var digits := if s[0] == '+' then s[1..] else s;
      if AllDigits(digits) && DigitsValue(digits) <= U32_MAX then Some(DigitsValue(digits)) else None
  }

  /** A one- or two-character token never overflows. */
  lemma ShortTokenValue(s: string)
    requires UnsignedToken(s) && |s| <= 2
    ensures TokenValue(s) <= 99
  {
    var d := if s[0] == '+' then s[1..] else s;
    assert AllDigits(d) && TokenValue(s) == DigitsValue(d);
    if |d| == 2 {
      assert d[..1][..0] == [];
      assert DigitsValue(d[..1]) <= 9;
    } else {
      assert d[..0] == [];
    }
  }

  // ---------------------------------------------------------------------------
  // First pass: the AM/PM suffix with its look-back guard
  // ---------------------------------------------------------------------------

  /** Two characters that equal "AM" or "PM" ignoring ASCII case. */
  predicate IsMeridiemText(x: string) {
    |x| == 2 && (EqIgnoreCase(x, "AM") || EqIgnoreCase(x, "PM"))
  }

  /** The eight spellings of a meridiem: A or P, then M, each in either case. */
  lemma MeridiemSpellings(x: string)
    ensures IsMeridiemText(x) <==> |x| == 2 && x[0] in "AaPp" && x[1] in "Mm"
  {
    if |x| == 2 {
      assert Upper(x) == [ToUpper(x[0]), ToUpper(x[1])];
    }
  }

  /**
   * Removes a trailing meridiem from a trimmed token. The last two characters count as a
   * meridiem only when they equal AM/PM ignoring case and the character before them is not a
   * letter; a token that is nothing but a meridiem is a format error. The recorded meridiem is
   * the upper-cased suffix, so it is always "AM" or "PM".
   */
  function StripMeridiem(t: string): (r: Result<(string, Option<string>)>)
    ensures r.Err? <==> |t| == 2 && IsMeridiemText(t)
    ensures r.Err? ==> r.error == FormatError(BareMeridiem)
    ensures r.Ok? ==> (r.value.1.Some? <==>
                       |t| > 2 && IsMeridiemText(t[|t| - 2..]) && !IsAlphabetic(t[|t| - 3]))
    ensures r.Ok? && r.value.1.None? ==> r.value.0 == t
    ensures r.Ok? && r.value.1.Some? ==>
              t == r.value.0 + t[|t| - 2..] && r.value.1.value == Upper(t[|t| - 2..])
              && (r.value.1.value == "AM" || r.value.1.value == "PM")
  {
    if |t| >= 2 && IsMeridiemText(t[|t| - 2..]) then
      if |t| > 2 then
        if IsAlphabetic(t[|t| - 3]) then Ok((t, None))
        else Ok((t[..|t| - 2], Some(Upper(t[|t| - 2..]))))
      else
        assert t[|t| - 2..] == t;
        Err(FormatError(BareMeridiem))
    else Ok((t, None))
  }

  // ---------------------------------------------------------------------------
  // The parser
  // ---------------------------------------------------------------------------

  /**
   * Second pass: the text left after the suffix must hold exactly one ':', with a one- or
   * two-character hour before it and a two-character minute after it; both must read as
   * numbers, the hour in 1..12 and the minute in 0..59.
   */
  function ParseFields(body: string, meridiem: Option<string>): (r: Result<Components>)
    ensures r.Ok? ==> InRange(r.value) && r.value.meridiem == meridiem
    ensures r.Err? ==> r.error.FormatError? || r.error.ValueError?
  {
    var parts := Split(body, ':');
    if |parts| != 2 then Err(FormatError(ColonCount))
    else
      var hourText, minuteText := parts[0], parts[1];
      if !(1 <= |hourText| <= 2) then Err(FormatError(HourLength))
      else if |minuteText| != 2 then Err(FormatError(MinuteLength))
      else
        match ParseU32(hourText)
        case None => Err(ValueError(Hour, NotANumber))
        case Some(hour) =>
          match ParseU32(minuteText)
          case None => Err(ValueError(Minute, NotANumber))
          case Some(minute) =>
            if !(1 <= hour <= 12) then Err(ValueError(Hour, OutOfRange))
            else if minute > 59 then Err(ValueError(Minute, OutOfRange))
            else Ok(Components(hour, minute, meridiem))
  }

  /**
   * Parses a token that has already been trimmed: strips the suffix, then reads the fields.
   * Whatever it accepts is a valid 12-hour time, and the meridiem, when present, is "AM" or "PM".
   */
  function ParseToken(t: string): (r: Result<Components>)
    ensures r.Ok? ==> InRange(r.value)
    ensures r.Ok? ==> r.value.meridiem in {None, Some("AM"), Some("PM")}
    ensures r.Err? ==> r.error.FormatError? || r.error.ValueError?
    ensures t == [] ==> r == Err(FormatError(ColonCount))
  {
    match StripMeridiem(t)
    case Err(e) => Err(e)
    case Ok((body, meridiem)) => ParseFields(body, meridiem)
  }

  /** Parses a time token such as "9:00am", " 07:00AM " or "12:00", ignoring surrounding whitespace. */
  function ParseTimeComponents(timeStr: string): (r: Result<Components>)
    requires IsAscii(timeStr)
    ensures r.Ok? ==> InRange(r.value)
    ensures r.Ok? ==> r.value.meridiem in {None, Some("AM"), Some("PM")}
    ensures r.Err? ==> r.error.FormatError? || r.error.ValueError?
    ensures Trim(timeStr) == [] ==> r == Err(FormatError(ColonCount))
  {
    ParseToken(Trim(timeStr))
  }
}

module TimeGrammar {
  import opened Types
  import opened Text
  import opened TimeParsing

  // ---------------------------------------------------------------------------
  // The accepted grammar, stated independently of the parser:
  //   Time := Hour ":" Minute [Suffix]
  // where Hour is one or two characters and Minute exactly two characters of
  // `u32::from_str` text (digits, optionally after one '+'), and Suffix is
  // "AM" or "PM" in any casing.
  // ---------------------------------------------------------------------------

  predicate HourToken(h: string) {
    1 <= |h| <= 2 && UnsignedToken(h)
  }

  predicate MinuteToken(m: string) {
    |m| == 2 && UnsignedToken(m)
  }

  predicate SuffixToken(x: string) {
    x == [] || IsMeridiemText(x)
  }

  function MeridiemOf(x: string): Option<string> {
    if x == [] then None else Some(Upper(x))
  }

  /** The trimmed token `t` is a sentence of the grammar whose fields read as `c`. */
  ghost predicate Denotes(t: string, c: Components) {
    exists h, m, x :: HourToken(h) && MinuteToken(m) && SuffixToken(x)
                      && t == h + ":" + m + x
                      && c == Components(TokenValue(h), TokenValue(m), MeridiemOf(x))
  }

  lemma UpperOfDigit(c: char)
    requires IsDigit(c) || c == '+'
    ensures ToUpper(c) == c && !IsAlphabetic(c)
  {
  }

  /** A well-formed minute field never looks like a meridiem, so no suffix is stripped from it. */
  lemma MinuteIsNotMeridiem(m: string)
    requires MinuteToken(m)
    ensures !IsMeridiemText(m) && !IsAlphabetic(m[1])
  {
    assert IsDigit(m[1]) by {
      if m[0] == '+' { assert m[1] == m[1..][0]; }
    }
    UpperOfDigit(m[1]);
    assert Upper(m)[1] == m[1];
  }

  lemma TokenHasNoColon(s: string)
    requires UnsignedToken(s)
    ensures ':' !in s
  {
  }

  /** The field pass accepts a well-formed hour and minute pair with in-range values. */
  lemma FieldsAccept(h: string, m: string, meridiem: Option<string>)
    requires HourToken(h) && MinuteToken(m)
    requires 1 <= TokenValue(h) <= 12 && TokenValue(m) <= 59
    ensures ParseFields(h + ":" + m, meridiem) == Ok(Components(TokenValue(h), TokenValue(m), meridiem))
  {
    TokenHasNoColon(h);
    TokenHasNoColon(m);
    SplitTwo(h, ':', m);
    ShortTokenValue(h);
    ShortTokenValue(m);
  }

  /** The suffix pass splits a grammatical token into its fields and its upper-cased suffix. */
  lemma StripsSuffix(h: string, m: string, x: string)
    requires HourToken(h) && MinuteToken(m) && SuffixToken(x)
    ensures StripMeridiem(h + ":" + m + x) == Ok((h + ":" + m, MeridiemOf(x)))
  {
    var t := h + ":" + m + x;
    var body := h + ":" + m;
    MinuteIsNotMeridiem(m);
    if x == [] {
      assert t == body;
      assert t[|t| - 2..] == m;
    } else {
      assert t[|t| - 2..] == x;
      assert t[|t| - 3] == m[1];
      assert t[..|t| - 2] == body;
    }
  }

  /** Completeness: every sentence of the grammar with an in-range hour and minute is accepted with its values. */
  lemma {:induction false} ParseAccepts(s: string, h: string, m: string, x: string)
    requires IsAscii(s)
    requires HourToken(h) && MinuteToken(m) && SuffixToken(x)
    requires Trim(s) == h + ":" + m + x
    requires 1 <= TokenValue(h) <= 12 && TokenValue(m) <= 59
    ensures ParseTimeComponents(s) == Ok(Components(TokenValue(h), TokenValue(m), MeridiemOf(x)))
  {
    StripsSuffix(h, m, x);
    FieldsAccept(h, m, MeridiemOf(x));
  }

  /** What the field pass accepts is two well-formed fields around one ':'. */
  lemma FieldsSound(body: string, meridiem: Option<string>) returns (h: string, m: string)
    requires ParseFields(body, meridiem).Ok?
    ensures HourToken(h) && MinuteToken(m) && body == h + ":" + m
    ensures ParseFields(body, meridiem).value == Components(TokenValue(h), TokenValue(m), meridiem)
  {
    var parts := Split(body, ':');
    h, m := parts[0], parts[1];
    assert parts[1..] == [m];
    assert Join(parts[1..], ':') == m;
    assert body == h + [':'] + m;
  }

  /** What the first pass strips off is a suffix of the grammar that names the meridiem it reports. */
  lemma StripSound(t: string) returns (x: string)
    requires StripMeridiem(t).Ok?
    ensures SuffixToken(x) && t == StripMeridiem(t).value.0 + x
    ensures MeridiemOf(x) == StripMeridiem(t).value.1
  {
    if StripMeridiem(t).value.1.Some? {
      x := t[|t| - 2..];
    } else {
      x := [];
      assert t == t + x;
    }
  }

  /** Soundness: whatever the parser accepts is a sentence of the grammar, and its values are in range. */
  lemma ParseSound(s: string, c: Components)
    requires IsAscii(s)
    requires ParseTimeComponents(s) == Ok(c)
    ensures Denotes(Trim(s), c) && InRange(c)
  {
    var t := Trim(s);
    var x := StripSound(t);
    var body, meridiem := StripMeridiem(t).value.0, StripMeridiem(t).value.1;
    assert ParseFields(body, meridiem) == Ok(c);
    var h, m := FieldsSound(body, meridiem);
    assert t == h + ":" + m + x;
  }

  /** The parser accepts exactly the in-range sentences of the grammar (around which `Trim` removes whitespace). */
  lemma ParseCharacterization(s: string, c: Components)
    requires IsAscii(s)
    ensures ParseTimeComponents(s) == Ok(c) <==> Denotes(Trim(s), c) && InRange(c)
  {
    if ParseTimeComponents(s) == Ok(c) {
      ParseSound(s, c);
    }
    if Denotes(Trim(s), c) && InRange(c) {
      var h, m, x :| HourToken(h) && MinuteToken(m) && SuffixToken(x)
                     && Trim(s) == h + ":" + m + x
                     && c == Components(TokenValue(h), TokenValue(m), MeridiemOf(x));
      ParseAccepts(s, h, m, x);
    }
  }

  /** The parser trims its input, so a caller that trims first gets the same answer. */
  lemma ParseIgnoresTrim(s: string)
    requires IsAscii(s)
    ensures IsAscii(Trim(s)) && ParseTimeComponents(Trim(s)) == ParseTimeComponents(s)
  {
    TrimIdempotent(s);
  }

  // ---------------------------------------------------------------------------
  // Round trip through a formatter
  // ---------------------------------------------------------------------------

  function DigitChar(d: nat): char
    requires d < 10
  {
    ('0' as int + d) as char
  }

  /** The hour written with one digit, or with two (zero-padded) when `padded` or when it needs two. */
  function HourText(hour: nat, padded: bool): string
    requires 1 <= hour <= 12
  {
    if padded || hour >= 10 then [DigitChar(hour / 10), DigitChar(hour % 10)] else [DigitChar(hour)]
  }

  function MinuteText(minute: nat): string
    requires minute <= 59
  {
    [DigitChar(minute / 10), DigitChar(minute % 10)]
  }

  lemma TwoDigitsValue(d: string)
    requires |d| == 2 && AllDigits(d)
    ensures DigitsValue(d) == (d[0] as int - '0' as int) * 10 + (d[1] as int - '0' as int)
  {
    var a := d[..1];
    assert d[..|d| - 1] == a;
    assert a[..|a| - 1] == [];
    assert DigitsValue(a) == a[0] as int - '0' as int;
  }

  lemma FormattedFields(hour: nat, padded: bool, minute: nat)
    requires 1 <= hour <= 12 && minute <= 59
    ensures HourToken(HourText(hour, padded)) && TokenValue(HourText(hour, padded)) == hour
    ensures MinuteToken(MinuteText(minute)) && TokenValue(MinuteText(minute)) == minute
  {
    var ht := HourText(hour, padded);
    if |ht| == 2 {
      TwoDigitsValue(ht);
    } else {
      assert ht[..0] == [];
    }
    TwoDigitsValue(MinuteText(minute));
  }

  lemma SuffixIsPlainText(x: string)
    requires SuffixToken(x)
    ensures IsAscii(x) && (x != [] ==> IsAlphabetic(x[1]))
  {
    if x != [] {
      MeridiemSpellings(x);
    }
  }

  /** A grammatical token is ASCII and has no whitespace at either end. */
  lemma SentenceIsTrimmed(h: string, m: string, x: string)
    requires HourToken(h) && MinuteToken(m) && SuffixToken(x)
    ensures var t := h + ":" + m + x;
            IsAscii(t) && !IsWhitespace(t[0]) && !IsWhitespace(t[|t| - 1])
  {
    var t := h + ":" + m + x;
    SuffixIsPlainText(x);
    assert t[0] == h[0];
    if x == [] {
      assert t[|t| - 1] == m[1];
    } else {
      assert t[|t| - 1] == x[1];
    }
    assert forall i :: 0 <= i < |h| ==> IsDigit(h[i]) || h[i] == '+';
    assert forall i :: 0 <= i < |m| ==> IsDigit(m[i]) || m[i] == '+';
    forall i | 0 <= i < |t| ensures t[i] as int < 128 {
      if i < |h| { assert t[i] == h[i]; }
      else if i == |h| { assert t[i] == ':'; }
      else if i < |h| + 1 + |m| { assert t[i] == m[i - |h| - 1]; }
      else { assert t[i] == x[i - |h| - 1 - |m|]; }
    }
  }

  lemma WhitespaceIsAscii(w: string)
    requires AllWhitespace(w)
    ensures IsAscii(w)
  {
  }

  /**
   * Writing an hour (one or two digits), ':', a two-digit minute and an optional AM/PM suffix in
   * any casing, with any whitespace around it, parses back to that hour, that minute and the
   * upper-cased suffix.
   */
  lemma ParseRoundTrip(hour: nat, minute: nat, padded: bool, suffix: string, w1: string, w2: string)
    requires 1 <= hour <= 12 && minute <= 59
    requires SuffixToken(suffix)
    requires AllWhitespace(w1) && AllWhitespace(w2)
    ensures IsAscii(w1 + HourText(hour, padded) + ":" + MinuteText(minute) + suffix + w2)
    ensures ParseTimeComponents(w1 + HourText(hour, padded) + ":" + MinuteText(minute) + suffix + w2)
            == Ok(Components(hour, minute, MeridiemOf(suffix)))
  {
    var h, m := HourText(hour, padded), MinuteText(minute);
    var x := h + ":" + m + suffix;
    var s := w1 + x + w2;
    assert s == w1 + h + ":" + m + suffix + w2;
    FormattedFields(hour, padded, minute);
    SentenceIsTrimmed(h, m, suffix);
    WhitespaceIsAscii(w1);
    WhitespaceIsAscii(w2);
    assert IsAscii(s) by {
      forall i | 0 <= i < |s| ensures s[i] as int < 128 {
        if i < |w1| { assert s[i] == w1[i]; }
        else if i < |w1| + |x| { assert s[i] == x[i - |w1|]; }
        else { assert s[i] == w2[i - |w1| - |x|]; }
      }
    }
    TrimFrames(w1, x, w2);
    ParseAccepts(s, h, m, suffix);
  }
}

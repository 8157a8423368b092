/** Dates, times and durations of OData version 2: their texts, and the parsers that read them. */
module Temporal {
  import opened Decimal
  import opened Values

  // ---- /Date(...)/ ----

  /**
   A point in time in nanoseconds, and its time zone: a fixed offset from UTC, or a named zone with the offset that it
   has at that time. Offsets are in seconds.
   */
  datatype ZonedDateTime = ZonedDateTime(epochNanoseconds: int, offsetSeconds: int, zone: Option<string>) {
    predicate Valid() { -86400 < offsetSeconds < 86400 }
  }

  const NANOSECONDS := 1_000_000

  /** Whole milliseconds, rounded down. */
  function Milliseconds(epochNanoseconds: int): int {
    epochNanoseconds / NANOSECONDS
  }

  function PrintInt(n: int): string {
    if n < 0 then "-" + Print(-n) else Print(n)
  }

  /** `String(n).padStart(2, '0')` */
  function Pad2(n: nat): string {
    if n < 10 then "0" + Print(n) else Print(n)
  }

  function Abs(n: int): nat {
    if n < 0 then -n else n
  }

  function Sign(n: int): char {
    if n < 0 then '-' else '+'
  }

  /** Hours, minutes and, if there are any, seconds of an offset. */
  function OffsetText(offsetSeconds: int): string {
    var n := Abs(offsetSeconds);
    [Sign(offsetSeconds)] + Pad2(n / 3600) + ":" + Pad2(n / 60 % 60) + (if n % 60 == 0 then "" else ":" + Pad2(n % 60))
  }

  /** The text without its signs and colons. */
  function WithoutSigns(s: string): string {
    if s == "" then ""
    else (if s[0] in "-+:" then "" else [s[0]]) + WithoutSigns(s[1..])
  }

  function PrintPlain(epochNanoseconds: int): string {
    "/Date(" + PrintInt(Milliseconds(epochNanoseconds)) + ")/"
  }

  function PrintZoned(z: ZonedDateTime): string {
    var offset := OffsetText(z.offsetSeconds);
    "/Date(" + PrintInt(Milliseconds(z.epochNanoseconds)) + [offset[0]] + WithoutSigns(offset) + ")/"
  }

  /** The number of digits from position i on. */
  function DigitRun(s: string, i: nat): (n: nat)
    requires i <= |s|
    ensures i + n <= |s| && AllDigits(s[i..i + n])
    decreases |s| - i
  {
    if i < |s| && IsDigit(s[i]) then
      var n := DigitRun(s, i + 1);
      assert s[i..i + 1 + n] == [s[i]] + s[i + 1..i + 1 + n];
      1 + n
    else 0
  }

  datatype Components = Components(ticks: string, offset: Option<(char, string)>)

  const START := "/Date("

  /**
   The whole text must be a number of at least one digit, with an optional sign and four digits after it, between
   `/Date(` and `)/`.
   */
  function ParseComponents(s: string): Outcome<Components> {
    if |s| < 6 || s[..6] != START then Thrown
    else
      var n := DigitRun(s, 6);
      var rest := s[6 + n..];
      if n == 0 then Thrown
      else if rest == ")/" then Ok(Components(s[6..6 + n], None))
      else if |rest| == 7 && rest[0] in "+-" && AllDigits(rest[1..5]) && rest[5..] == ")/" then
        Ok(Components(s[6..6 + n], Some((rest[0], rest[1..5]))))
      else Thrown
  }

  function ParsePlain(s: string): Outcome<int> {
    var c :- ParseComponents(s);
    Ok(Parse(c.ticks) * NANOSECONDS)
  }

  /** The time zone with a fixed offset; hours and minutes out of range throw. */
  function OffsetOf(sign: char, digits: string): Outcome<int>
    requires |digits| == 4
  {
    var hours, minutes := Parse(digits[..2]), Parse(digits[2..]);
    if hours > 23 || minutes > 59 then Thrown
    else Ok((if sign == '-' then -1 else 1) * (hours * 3600 + minutes * 60))
  }

  function ParseZoned(s: string): Outcome<ZonedDateTime> {
    var c :- ParseComponents(s);
    match c.offset
    case None => Ok(ZonedDateTime(Parse(c.ticks) * NANOSECONDS, 0, Some("UTC")))
    case Some((sign, digits)) =>
      if |digits| != 4 then Thrown
      else
        var offset :- OffsetOf(sign, digits);
        Ok(ZonedDateTime(Parse(c.ticks) * NANOSECONDS, offset, None))
  }

  // ---- Which texts are dates ----

  /** The text of the parts: digits, and perhaps a sign and four digits. */
  predicate IsDateText(s: string, c: Components) {
    && c.ticks != "" && AllDigits(c.ticks)
    && match c.offset
       case None => s == "/Date(" + c.ticks + ")/"
       case Some((sign, digits)) =>
         && (sign == '+' || sign == '-') && |digits| == 4 && AllDigits(digits)
         && s == "/Date(" + c.ticks + ([sign] + digits + ")/")
  }

  /** Exactly such texts are taken apart, and into these parts. */
  lemma ComponentsExactly(s: string, c: Components)
    ensures ParseComponents(s) == Ok(c) <==> IsDateText(s, c)
  {
    if IsDateText(s, c) { DateTextIsParsed(s, c); }
    if ParseComponents(s) == Ok(c) { ParsedIsDateText(s, c); }
  }

  lemma DateTextIsParsed(s: string, c: Components)
    requires IsDateText(s, c)
    ensures ParseComponents(s) == Ok(c)
  {
    match c.offset {
      case None => ComponentsOf(c.ticks, ")/");
      case Some((sign, digits)) => ComponentsWithOffset(c.ticks, sign, digits);
    }
  }

  lemma ParsedIsDateText(s: string, c: Components)
    requires ParseComponents(s) == Ok(c)
    ensures IsDateText(s, c)
  {
    var rest := s[6 + DigitRun(s, 6)..];
    Thirds(s, 6, 6 + DigitRun(s, 6));
    assert s == START + c.ticks + rest;
    match c.offset {
      case None => assert rest == ")/";
      case Some((sign, digits)) => OffsetIsText(rest, sign, digits);
    }
  }

  lemma OffsetIsText(rest: string, sign: char, digits: string)
    requires |rest| == 7 && rest[0] == sign && rest[1..5] == digits && rest[5..] == ")/"
    ensures rest == [sign] + digits + ")/"
  {
    Thirds(rest, 1, 5);
  }

  lemma Thirds(s: string, i: nat, j: nat)
    requires i <= j <= |s|
    ensures s == s[..i] + s[i..j] + s[j..]
  {
  }

  /**
   A plain date ignores an offset. A date without one is in UTC, and one with an offset is in that zone, of up to 23
   hours and 59 minutes; larger ones throw.
   */
  lemma DatesAreRead(s: string, c: Components)
    requires IsDateText(s, c)
    ensures ParsePlain(s) == Ok(Parse(c.ticks) * 1_000_000)
    ensures c.offset.None? ==> ParseZoned(s) == Ok(ZonedDateTime(Parse(c.ticks) * 1_000_000, 0, Some("UTC")))
    ensures c.offset.Some? ==>
              var (sign, digits) := c.offset.value;
              var h, m := TwoDigitValue(digits[0], digits[1]), TwoDigitValue(digits[2], digits[3]);
              ParseZoned(s)
              == if h > 23 || m > 59 then Thrown
                 else Ok(ZonedDateTime(Parse(c.ticks) * 1_000_000, (if sign == '+' then 1 else -1) * (h * 60 + m) * 60,
                                       None))
  {
    ComponentsExactly(s, c);
    if c.offset.Some? {
      var digits := c.offset.value.1;
      assert digits[..2] == [digits[0], digits[1]] && digits[2..] == [digits[2], digits[3]];
      TwoDigitsParse(digits[0], digits[1]);
      TwoDigitsParse(digits[2], digits[3]);
    }
  }

  /** All other texts throw. */
  lemma OtherTextsThrow(s: string)
    requires forall c :: !IsDateText(s, c)
    ensures ParsePlain(s).Thrown? && ParseZoned(s).Thrown?
  {
    if ParseComponents(s).Ok? { ComponentsExactly(s, ParseComponents(s).value); }
  }

  function TwoDigitValue(c: char, d: char): nat
    requires IsDigit(c) && IsDigit(d)
  {
    10 * DigitValue(c) + DigitValue(d)
  }

  lemma OneDigitParses(c: char)
    requires IsDigit(c)
    ensures Parse([c]) == DigitValue(c)
  {
    assert [c][..0] == "";
  }

  lemma TwoDigitsParse(c: char, d: char)
    requires IsDigit(c) && IsDigit(d)
    ensures Parse([c, d]) == TwoDigitValue(c, d)
  {
    OneDigitParses(c);
    assert [c, d][..1] == [c];
  }

  lemma {:induction false} DigitRunOf(s: string, i: nat, n: nat)
    requires i + n <= |s| && AllDigits(s[i..i + n]) && (i + n < |s| ==> !IsDigit(s[i + n]))
    ensures DigitRun(s, i) == n
    decreases n
  {
    if n > 0 {
      assert s[i] == s[i..i + n][0];
      TailOfDigits(s[i..i + n]);
      assert s[i..i + n][1..] == s[i + 1..i + n];
      DigitRunOf(s, i + 1, n - 1);
    }
  }

  lemma TailOfDigits(s: string)
    requires s != "" && AllDigits(s)
    ensures AllDigits(s[1..])
  {
    forall i | 0 <= i < |s| - 1 ensures IsDigit(s[1..][i]) { assert IsDigit(s[i + 1]); }
  }

  /** What the parser finds between the parentheses. */
  lemma ComponentsOf(ticks: string, rest: string)
    requires rest != "" && !IsDigit(rest[0]) && AllDigits(ticks)
    ensures var s := START + ticks + rest;
            DigitRun(s, 6) == |ticks| && s[6..6 + |ticks|] == ticks && s[6 + |ticks|..] == rest && s[..6] == START
  {
    var s := START + ticks + rest;
    assert s[6..6 + |ticks|] == ticks && s[6 + |ticks|..] == rest;
    assert s[6 + |ticks|] == rest[0];
    DigitRunOf(s, 6, |ticks|);
  }

  lemma NegativeThrows(n: int, rest: string)
    requires n < 0
    ensures ParseComponents(START + PrintInt(n) + rest) == Thrown
  {
    var s := START + PrintInt(n) + rest;
    assert s[6] == '-';
  }

  /**
   A date is read back to the millisecond if it is not before 1970, so unchanged exactly if it has no finer digits.
   */
  lemma PlainRoundTrip(epochNanoseconds: int)
    ensures ParsePlain(PrintPlain(epochNanoseconds)) ==
            if epochNanoseconds >= 0 then Ok(Milliseconds(epochNanoseconds) * NANOSECONDS) else Thrown
    ensures ParsePlain(PrintPlain(epochNanoseconds)) == Ok(epochNanoseconds) <==>
            epochNanoseconds >= 0 && epochNanoseconds % NANOSECONDS == 0
  {
    var n := Milliseconds(epochNanoseconds);
    WholeMilliseconds(epochNanoseconds);
    if epochNanoseconds >= 0 {
      ComponentsOf(Print(n), ")/");
    } else {
      NegativeThrows(n, ")/");
    }
  }

  /** Milliseconds are rounded down. */
  lemma PrintedPlain(epochNanoseconds: int, milliseconds: int)
    requires milliseconds * 1_000_000 <= epochNanoseconds < (milliseconds + 1) * 1_000_000
    ensures PrintPlain(epochNanoseconds)
         == if milliseconds < 0 then "/Date(-" + Print(-milliseconds) + ")/" else "/Date(" + Print(milliseconds) + ")/"
  {
    assert Milliseconds(epochNanoseconds) == milliseconds;
    if milliseconds < 0 { assert "/Date(" + ("-" + Print(-milliseconds)) == "/Date(-" + Print(-milliseconds); }
  }

  /** The text of a date with an offset in whole minutes: its sign, two digits for the hours and two for the minutes. */
  lemma PrintedOffset(z: ZonedDateTime, hours: nat, minutes: nat)
    requires hours < 24 && minutes < 60 && Abs(z.offsetSeconds) == hours * 3600 + minutes * 60
    ensures PrintZoned(z) == START + PrintInt(Milliseconds(z.epochNanoseconds)) +
                             ([if z.offsetSeconds >= 0 then '+' else '-'] + FourDigitText(hours, minutes) + ")/")
  {
    Clock(Abs(z.offsetSeconds), hours, minutes);
    DigitsOf(hours, minutes);
    PrintedZoned(z, Sign(z.offsetSeconds), OffsetDigits(z.offsetSeconds));
  }

  function FourDigitText(hours: nat, minutes: nat): string
    requires hours < 100 && minutes < 100
  {
    [DigitChar(hours / 10), DigitChar(hours % 10), DigitChar(minutes / 10), DigitChar(minutes % 10)]
  }

  lemma Clock(n: nat, hours: nat, minutes: nat)
    requires n == hours * 3600 + minutes * 60 && hours < 24 && minutes < 60
    ensures n / 3600 == hours && n / 60 % 60 == minutes && n % 60 == 0
  {
  }

  lemma DigitsOf(hours: nat, minutes: nat)
    requires hours < 24 && minutes < 60
    ensures ClockDigits(hours, minutes, 0) == FourDigitText(hours, minutes)
  {
    DigitsOfTwo(hours);
    DigitsOfTwo(minutes);
  }

  lemma DigitsOfTwo(n: nat)
    requires n < 100
    ensures Pad2(n) == [DigitChar(n / 10), DigitChar(n % 10)]
  {
    if n >= 10 { assert Print(n / 10) == [DigitChar(n / 10)]; }
  }

  lemma TwoDigits(n: nat)
    requires n < 100
    ensures |Pad2(n)| == 2 && AllDigits(Pad2(n)) && Parse(Pad2(n)) == n
  {
    var s := Pad2(n);
    if n < 10 {
      assert |Print(n)| == 1;
      assert s[..1] == "0" && "0"[..0] == "";
    } else {
      assert |Print(n / 10)| == 1;
    }
  }

  lemma {:induction false} WithoutSignsOfDigits(s: string, rest: string)
    requires AllDigits(s)
    ensures WithoutSigns(s + rest) == s + WithoutSigns(rest)
    decreases |s|
  {
    if s == "" {
      assert s + rest == rest;
    } else {
      assert (s + rest)[1..] == s[1..] + rest;
      TailOfDigits(s);
      WithoutSignsOfDigits(s[1..], rest);
      assert [s[0]] + s[1..] == s;
    }
  }

  function ClockDigits(hours: nat, minutes: nat, seconds: nat): string {
    Pad2(hours) + Pad2(minutes) + (if seconds == 0 then "" else Pad2(seconds))
  }

  function OffsetDigits(offsetSeconds: int): string {
    var n := Abs(offsetSeconds);
    ClockDigits(n / 3600, n / 60 % 60, n % 60)
  }

  lemma OffsetTextHasDigits(offsetSeconds: int)
    requires -86400 < offsetSeconds < 86400
    ensures OffsetText(offsetSeconds)[0] == Sign(offsetSeconds)
    ensures WithoutSigns(OffsetText(offsetSeconds)) == OffsetDigits(offsetSeconds)
  {
    var n := Abs(offsetSeconds);
    var hours, minutes, seconds := Pad2(n / 3600), Pad2(n / 60 % 60), Pad2(n % 60);
    TwoDigits(n / 3600);
    TwoDigits(n / 60 % 60);
    TwoDigits(n % 60);
    WithoutSignsOfText(Sign(offsetSeconds), hours, minutes, if n % 60 == 0 then "" else ":" + seconds);
    if n % 60 == 0 {
      assert WithoutSigns("") == "";
    } else {
      WithoutSignsOfDigits(seconds, "");
      assert seconds + "" == seconds && (":" + seconds)[1..] == seconds;
    }
  }

  lemma WithoutSignsOfText(sign: char, hours: string, minutes: string, rest: string)
    requires sign in "+-" && AllDigits(hours) && AllDigits(minutes)
    ensures WithoutSigns([sign] + hours + ":" + minutes + rest) == hours + minutes + WithoutSigns(rest)
  {
    var tail := minutes + rest;
    assert [sign] + hours + ":" + minutes + rest == [sign] + (hours + (":" + tail));
    assert ([sign] + (hours + (":" + tail)))[1..] == hours + (":" + tail);
    assert (":" + tail)[1..] == tail;
    WithoutSignsOfDigits(hours, ":" + tail);
    WithoutSignsOfDigits(minutes, rest);
    assert hours + (minutes + WithoutSigns(rest)) == hours + minutes + WithoutSigns(rest);
  }

  lemma ClockDigitsParse(sign: char, hours: nat, minutes: nat, seconds: nat)
    requires hours < 24 && minutes < 60 && seconds < 60
    ensures var digits := ClockDigits(hours, minutes, seconds);
            && AllDigits(digits) && |digits| == (if seconds == 0 then 4 else 6)
            && (seconds == 0 ==>
                  OffsetOf(sign, digits) == Ok((if sign == '-' then -1 else 1) * (hours * 3600 + minutes * 60)))
  {
    var front := Pad2(hours) + Pad2(minutes);
    FourDigits(sign, hours, minutes);
    if seconds == 0 {
      assert front + "" == front;
    } else {
      TwoDigits(seconds);
      AllDigitsJoin(front, Pad2(seconds));
    }
  }

  lemma OffsetDigitsParse(offsetSeconds: int)
    requires -86400 < offsetSeconds < 86400
    ensures var digits := OffsetDigits(offsetSeconds);
            && AllDigits(digits) && |digits| == (if offsetSeconds % 60 == 0 then 4 else 6)
            && (offsetSeconds % 60 == 0 ==> OffsetOf(Sign(offsetSeconds), digits) == Ok(offsetSeconds))
  {
    var n := Abs(offsetSeconds);
    ClockDigitsParse(Sign(offsetSeconds), n / 3600, n / 60 % 60, n % 60);
    OffsetValue(offsetSeconds);
  }

  lemma OffsetValue(offsetSeconds: int)
    ensures Abs(offsetSeconds) % 60 == 0 <==> offsetSeconds % 60 == 0
    ensures var n := Abs(offsetSeconds);
            offsetSeconds % 60 == 0 ==>
              (if Sign(offsetSeconds) == '-' then -1 else 1) * (n / 3600 * 3600 + n / 60 % 60 * 60) == offsetSeconds
  {
    if offsetSeconds % 60 == 0 { WholeMinutes(Abs(offsetSeconds)); }
  }

  lemma AllDigitsJoin(s: string, t: string)
    requires AllDigits(s) && AllDigits(t)
    ensures AllDigits(s + t)
  {
  }

  lemma WholeMinutes(n: nat)
    requires n % 60 == 0
    ensures n / 3600 * 3600 + n / 60 % 60 * 60 == n
  {
    assert n / 3600 == n / 60 / 60;
  }

  lemma FourDigits(sign: char, hours: nat, minutes: nat)
    requires hours < 24 && minutes < 60
    ensures var digits := Pad2(hours) + Pad2(minutes);
            && |digits| == 4 && AllDigits(digits)
            && OffsetOf(sign, digits) == Ok((if sign == '-' then -1 else 1) * (hours * 3600 + minutes * 60))
  {
    TwoDigits(hours);
    TwoDigits(minutes);
    var digits := Pad2(hours) + Pad2(minutes);
    assert digits[..2] == Pad2(hours) && digits[2..] == Pad2(minutes);
  }

  lemma ComponentsWithOffset(ticks: string, sign: char, digits: string)
    requires ticks != "" && AllDigits(ticks) && sign in "+-" && AllDigits(digits)
    ensures ParseComponents(START + ticks + ([sign] + digits + ")/"))
         == if |digits| == 4 then Ok(Components(ticks, Some((sign, digits)))) else Thrown
  {
    var rest := [sign] + digits + ")/";
    ComponentsOf(ticks, rest);
    assert rest[0] == sign;
    if |digits| == 4 {
      assert rest[1..5] == digits && rest[5..] == ")/";
    }
  }

  /**
   A date with an offset is read back, to the millisecond and with the same offset, if it is not before 1970 and the
   offset has no seconds; otherwise reading it throws. So it comes back unchanged exactly if, besides, it has no digits
   below a millisecond and its zone is a fixed offset.
   */
  lemma ZonedRoundTrip(z: ZonedDateTime)
    requires z.Valid()
    ensures ParseZoned(PrintZoned(z)) ==
            if z.epochNanoseconds >= 0 && z.offsetSeconds % 60 == 0
            then Ok(ZonedDateTime(Milliseconds(z.epochNanoseconds) * NANOSECONDS, z.offsetSeconds, None))
            else Thrown
    ensures ParseZoned(PrintZoned(z)) == Ok(z) <==>
            && z.epochNanoseconds >= 0 && z.epochNanoseconds % NANOSECONDS == 0
            && z.offsetSeconds % 60 == 0 && z.zone == None
  {
    ZonedIsRead(z);
    WholeMilliseconds(z.epochNanoseconds);
  }

  lemma WholeMilliseconds(n: int)
    ensures Milliseconds(n) * NANOSECONDS == n <==> n % NANOSECONDS == 0
  {
  }

  lemma ZonedIsRead(z: ZonedDateTime)
    requires z.Valid()
    ensures ParseZoned(PrintZoned(z)) ==
            if z.epochNanoseconds >= 0 && z.offsetSeconds % 60 == 0
            then Ok(ZonedDateTime(Milliseconds(z.epochNanoseconds) * NANOSECONDS, z.offsetSeconds, None))
            else Thrown
  {
    var sign, digits, n := Sign(z.offsetSeconds), OffsetDigits(z.offsetSeconds), Milliseconds(z.epochNanoseconds);
    PrintedZoned(z, sign, digits);
    OffsetDigitsParse(z.offsetSeconds);
    if z.epochNanoseconds >= 0 {
      ComponentsWithOffset(Print(n), sign, digits);
    } else {
      NegativeThrows(n, [sign] + digits + ")/");
    }
  }

  lemma PrintedZoned(z: ZonedDateTime, sign: char, digits: string)
    requires z.Valid() && sign == Sign(z.offsetSeconds) && digits == OffsetDigits(z.offsetSeconds)
    ensures PrintZoned(z) == START + PrintInt(Milliseconds(z.epochNanoseconds)) + ([sign] + digits + ")/")
  {
    OffsetTextHasDigits(z.offsetSeconds);
  }

  // ---- PT..H..M..S ----

  datatype PlainTime = PlainTime(hour: nat, minute: nat, second: nat, nanosecond: nat) {
    predicate Valid() { hour < 24 && minute < 60 && second < 60 && nanosecond < 1_000_000_000 }
  }

  function PrintTime(t: PlainTime): string {
    "PT" + Pad2(t.hour) + "H" + Pad2(t.minute) + "M" + Pad2(t.second) + "S"
  }

  /** One or two digits and the unit, if they are at position i: the number, or else 0, and where the match ends. */
  function OptionalPart(s: string, i: nat, unit: char): (r: (nat, nat))
    requires i <= |s|
    ensures i <= r.1 <= |s|
  {
    if i + 2 < |s| && IsDigit(s[i]) && IsDigit(s[i + 1]) && s[i + 2] == unit then (Parse(s[i..i + 2]), i + 3)
    else if i + 1 < |s| && IsDigit(s[i]) && s[i + 1] == unit then (Parse(s[i..i + 1]), i + 2)
    else (0, i)
  }

  /** Where the first `PT` ends, which may be anywhere in the text. */
  function AfterPT(s: string, i: nat := 0): (r: Option<nat>)
    requires i <= |s|
    ensures r.Some? ==> r.value <= |s|
    decreases |s| - i
  {
    if i + 2 > |s| then None
    else if s[i..i + 2] == "PT" then Some(i + 2)
    else AfterPT(s, i + 1)
  }

  function ParseTime(s: string): Outcome<PlainTime> {
    match AfterPT(s)
    case None => Thrown
    case Some(start) =>
      var (hours, i) := OptionalPart(s, start, 'H');
      var (minutes, j) := OptionalPart(s, i, 'M');
      var (seconds, _) := OptionalPart(s, j, 'S');
      if hours > 23 || minutes > 59 || seconds > 59 then Thrown else Ok(PlainTime(hours, minutes, seconds, 0))
  }

  lemma PartOf(s: string, i: nat, n: nat, unit: char)
    requires n < 100 && i + 3 <= |s| && s[i..i + 2] == Pad2(n) && s[i + 2] == unit
    ensures OptionalPart(s, i, unit) == (n, i + 3)
  {
    TwoDigits(n);
    assert s[i] == s[i..i + 2][0] && s[i + 1] == s[i..i + 2][1];
  }

  /** A time is read back to the second, so it is read back as it was exactly if it has no fraction of one. */
  lemma TimeRoundTrip(t: PlainTime)
    requires t.Valid()
    ensures ParseTime(PrintTime(t)) == Ok(t.(nanosecond := 0))
    ensures ParseTime(PrintTime(t)) == Ok(t) <==> t.nanosecond == 0
  {
    var s := PrintTime(t);
    TwoDigits(t.hour);
    TwoDigits(t.minute);
    TwoDigits(t.second);
    assert s[0..2] == "PT";
    assert s[2..4] == Pad2(t.hour) && s[5..7] == Pad2(t.minute) && s[8..10] == Pad2(t.second);
    PartOf(s, 2, t.hour, 'H');
    PartOf(s, 5, t.minute, 'M');
    PartOf(s, 8, t.second, 'S');
  }

  /** A part of a time: nothing, or one or two digits and the unit. */
  predicate IsPart(part: string, unit: char, n: nat) {
    || (part == "" && n == 0)
    || (|part| == 2 && IsDigit(part[0]) && part[1] == unit && n == DigitValue(part[0]))
    || (|part| == 3 && IsDigit(part[0]) && IsDigit(part[1]) && part[2] == unit
        && n == TwoDigitValue(part[0], part[1]))
  }

  /** No `PT` starts in this part of a text. */
  predicate NoneStarts(s: string, end: nat) {
    forall i | 0 <= i < end && i + 2 <= |s| :: s[i] != 'P' || s[i + 1] != 'T'
  }

  lemma {:induction false} FirstIsFound(s: string, i: nat, start: nat)
    requires i <= start && start + 2 <= |s| && s[start] == 'P' && s[start + 1] == 'T' && NoneStarts(s, start)
    ensures AfterPT(s, i) == Some(start + 2)
    decreases start - i
  {
    if i < start {
      assert s[i..i + 2][0] == s[i] && s[i..i + 2][1] == s[i + 1];
      FirstIsFound(s, i + 1, start);
    } else {
      assert s[i..i + 2] == "PT";
    }
  }

  lemma {:induction false} NoneIsFound(s: string, i: nat)
    requires i <= |s| && NoneStarts(s, |s|)
    ensures AfterPT(s, i) == None
    decreases |s| - i
  {
    if i + 2 <= |s| {
      assert s[i..i + 2][0] == s[i] && s[i..i + 2][1] == s[i + 1];
      NoneIsFound(s, i + 1);
    }
  }

  lemma TextsWithoutTimeThrow(s: string)
    requires NoneStarts(s, |s|)
    ensures ParseTime(s) == Thrown
  {
    NoneIsFound(s, 0);
  }

  /** What the parts spell, wherever they are in the text: each may be missing, and then counts as zero. */
  lemma TimeIsRead(before: string, hours: string, minutes: string, seconds: string, rest: string, h: nat, m: nat,
                   q: nat)
    requires IsPart(hours, 'H', h) && IsPart(minutes, 'M', m) && IsPart(seconds, 'S', q)
    requires (rest != "" ==> !IsDigit(rest[0])) && NoneStarts(before + "PT", |before|)
    ensures ParseTime(before + "PT" + hours + minutes + seconds + rest)
         == if h <= 23 && m <= 59 && q <= 59 then Ok(PlainTime(h, m, q, 0)) else Thrown
  {
    var s := before + "PT" + hours + minutes + seconds + rest;
    var start := |before| + 2;
    var i, j := start + |hours|, start + |hours| + |minutes|;
    Sections(before, hours, minutes, seconds, rest);
    forall k | 0 <= k < |before| ensures s[k] != 'P' || s[k + 1] != 'T' {
      assert (before + "PT")[k] == s[k] && (before + "PT")[k + 1] == s[k + 1];
    }
    FirstIsFound(s, 0, |before|);
    PartIsRead(s, start, hours, 'H', h);
    PartIsRead(s, i, minutes, 'M', m);
    PartIsRead(s, j, seconds, 'S', q);
  }

  /** Where the parts are, and that nothing at a missing part could be taken for it. */
  lemma Sections(before: string, hours: string, minutes: string, seconds: string, rest: string)
    requires rest != "" ==> !IsDigit(rest[0])
    requires (exists h :: IsPart(hours, 'H', h)) && (exists m :: IsPart(minutes, 'M', m))
             && (exists q :: IsPart(seconds, 'S', q))
    ensures var s := before + "PT" + hours + minutes + seconds + rest;
            var start := |before| + 2;
            var i, j := start + |hours|, start + |hours| + |minutes|;
            && s[|before|] == 'P' && s[|before| + 1] == 'T'
            && (forall k | 0 <= k < |before| + 2 :: s[k] == (before + "PT")[k])
            && s[start..i] == hours && s[i..j] == minutes && s[j..j + |seconds|] == seconds
            && (hours == "" ==> !IsPartAt(s, start, 'H')) && (minutes == "" ==> !IsPartAt(s, i, 'M'))
            && (seconds == "" ==> !IsPartAt(s, j, 'S'))
  {
  }

  predicate IsPartAt(s: string, i: nat, unit: char) {
    || (i + 2 < |s| && IsDigit(s[i]) && IsDigit(s[i + 1]) && s[i + 2] == unit)
    || (i + 1 < |s| && IsDigit(s[i]) && s[i + 1] == unit)
  }

  lemma PartIsRead(s: string, i: nat, part: string, unit: char, n: nat)
    requires IsPart(part, unit, n) && !IsDigit(unit) && i + |part| <= |s| && s[i..i + |part|] == part
    requires part == "" ==> !IsPartAt(s, i, unit)
    ensures OptionalPart(s, i, unit) == (n, i + |part|)
  {
    forall k | 0 <= k < |part| ensures s[i + k] == part[k] { assert s[i..i + |part|][k] == part[k]; }
    if |part| == 3 {
      TwoDigitsParse(part[0], part[1]);
      assert s[i..i + 2] == [part[0], part[1]];
    } else if |part| == 2 {
      OneDigitParses(part[0]);
      assert s[i..i + 1] == [part[0]];
    }
  }

  // ---- Seconds ----

  datatype Time = Time(hours: real, minutes: real, seconds: real)

  function TimeToSeconds(t: Time): int {
    (t.seconds + t.minutes * 60.0 + t.hours * 3600.0).Floor
  }

  /** `n % m` for positive numbers. */
  function Remainder(n: real, m: real): real
    requires m > 0.0
  {
    n - (n / m).Floor as real * m
  }

  function SecondsToTime(n: real): Time {
    if n <= 0.0 then Time(0.0, 0.0, 0.0)
    else
      var rest := Remainder(n, 3600.0);
      Time((n / 3600.0).Floor as real, (rest / 60.0).Floor as real, Remainder(rest, 60.0))
  }

  /** Whole hours and minutes, and seconds and minutes below 60. */
  predicate IsClockTime(t: Time) {
    && t.hours == t.hours.Floor as real && t.minutes == t.minutes.Floor as real
    && t.hours >= 0.0 && 0.0 <= t.minutes < 60.0 && 0.0 <= t.seconds < 60.0
  }

  /** The whole seconds of a time, whatever fractions its parts have. */
  lemma SecondsOfTime(t: Time)
    ensures var n := TimeToSeconds(t);
            n as real <= 3600.0 * t.hours + 60.0 * t.minutes + t.seconds < (n + 1) as real
  {
  }

  /** To a time and back gives the whole seconds, so it gives the same number exactly if that is a natural one. */
  lemma SecondsRoundTrip(n: real)
    ensures TimeToSeconds(SecondsToTime(n)) == if n <= 0.0 then 0 else n.Floor
    ensures IsClockTime(SecondsToTime(n))
  {
  }

  /** Back from whole seconds: every clock time with whole seconds. */
  lemma TimeRoundTripThroughSeconds(t: Time)
    requires IsClockTime(t)
    ensures SecondsToTime(TimeToSeconds(t) as real) == t <==> t.seconds == t.seconds.Floor as real
  {
    var h, m, q := t.hours.Floor, t.minutes.Floor, t.seconds.Floor;
    ToSeconds(t, h, m, q);
    ClockSeconds(h, m, q);
  }

  lemma ToSeconds(t: Time, h: int, m: int, q: int)
    requires t.hours == h as real && t.minutes == m as real && q as real <= t.seconds < q as real + 1.0
    ensures TimeToSeconds(t) == h * 3600 + m * 60 + q
  {
    FloorIs(t.seconds + t.minutes * 60.0 + t.hours * 3600.0, h * 3600 + m * 60 + q);
  }

  lemma ClockSeconds(h: nat, m: nat, q: nat)
    requires m < 60 && q < 60
    ensures SecondsToTime((h * 3600 + m * 60 + q) as real) == Time(h as real, m as real, q as real)
  {
    var n := (h * 3600 + m * 60 + q) as real;
    var rest := (m * 60 + q) as real;
    FloorIs(n / 3600.0, h);
    FloorIs(rest / 60.0, m);
  }

  lemma FloorIs(x: real, n: int)
    requires n as real <= x < n as real + 1.0
    ensures x.Floor == n
  {
  }
}

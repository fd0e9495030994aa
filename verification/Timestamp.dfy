/** `format_utc_timestamp` of src/message.rs, its inverse, and its order. */
module Timestamp {
  import opened Common
  import opened Calendar

  /** `Duration`: whole seconds in a `u64` and nanoseconds below one second. */
  datatype Duration = Duration(secs: nat, nanos: nat)

  predicate ValidDuration(d: Duration) {
    d.secs <= U64_MAX && d.nanos < 1_000_000_000
  }

  //
  // Decimal fields.
  //

  function Digit(n: nat): char
    requires n < 10
  {
    '0' + n as char
  }

  /** `{n:0w}`: decimal digits, zero-padded on the left to at least `w` characters. */
  function Padded(n: nat, w: nat): (s: string)
    ensures |s| >= w && |s| >= 1
    decreases n, w
  {
    if n < 10 && w <= 1 then [Digit(n)]
    else Padded(n / 10, if w == 0 then 0 else w - 1) + [Digit(n % 10)]
  }

  /** The value of a digit string, if it is one. */
  function DecimalValue(s: string): Option<nat> {
    if |s| == 0 then None
    else
      var last := s[|s| - 1];
      if !('0' <= last <= '9') then None
      else
        var d := last as int - '0' as int;
        if |s| == 1 then Some(d)
        else
          var rest := DecimalValue(s[..|s| - 1]);
          if rest.None? then None else Some(10 * rest.value + d)
  }

  function Pow10(w: nat): nat {
    if w == 0 then 1 else 10 * Pow10(w - 1)
  }

  lemma {:induction false} PaddedValue(n: nat, w: nat)
    ensures DecimalValue(Padded(n, w)) == Some(n)
    decreases n, w
  {
    if n < 10 && w <= 1 {
    } else {
      var w' := if w == 0 then 0 else w - 1;
      PaddedValue(n / 10, w');
      assert Padded(n, w)[..|Padded(n, w)| - 1] == Padded(n / 10, w');
    }
  }

  lemma {:induction false} PaddedWidth(n: nat, w: nat)
    requires w >= 1
    ensures |Padded(n, w)| == w <==> n < Pow10(w)
    decreases w
  {
    if w == 1 {
    } else {
      PaddedWidth(n / 10, w - 1);
      assert n / 10 < Pow10(w - 1) <==> n < 10 * Pow10(w - 1);
    }
  }

  lemma {:induction false} PaddedIsDigits(n: nat, w: nat)
    ensures forall i :: 0 <= i < |Padded(n, w)| ==> '0' <= Padded(n, w)[i] <= '9'
    decreases n, w
  {
    if n < 10 && w <= 1 {
    } else {
      PaddedIsDigits(n / 10, if w == 0 then 0 else w - 1);
    }
  }

  //
  // The formatter.
  //

  /** One decimal field, its separator, and what follows. */
  function Field(n: nat, w: nat, separator: char, rest: string): string {
    Padded(n, w) + [separator] + rest
  }

  function ClockText(secondsOfDay: nat, micros: nat): string {
    Field(secondsOfDay / 3_600, 2, '.',
          Field(secondsOfDay % 3_600 / 60, 2, '.',
                Field(secondsOfDay % 60, 2, '.', Padded(micros, 6))))
  }

  function DateText(date: Date, rest: string): string
    requires date.year >= 0 && ValidDate(date)
  {
    Field(date.year, 4, '-', Field(date.month, 2, '-', Field(date.day, 2, '-', rest)))
  }

  /** Years since the epoch are never negative, so the year needs no sign. */
  lemma YearFromEpoch(days: nat)
    ensures ValidDate(CivilDateFromDays(days)) && CivilDateFromDays(days).year >= 1970
  {
    hide CivilDateFromDays;
    CivilDateFollowsTheCalendar(days);
    EpochIsDayZero();
    CivilDateIsMonotone(days, 0);
  }

  function FormatUtcTimestamp(d: Duration): Result<string, Error> {
    var days := d.secs / 86_400;
    if days > I64_MAX then Err(Serialization)
    else
      YearFromEpoch(days);
      Ok(DateText(CivilDateFromDays(days), ClockText(d.secs % 86_400, d.nanos / 1_000)))
  }

  /** No `Duration` reaches the conversion error. */
  lemma FormattingNeverFails(d: Duration)
    requires ValidDuration(d)
    ensures FormatUtcTimestamp(d).Ok?
  {
    hide CivilDateFromDays;
    DivisionBounds(d.secs);
  }

  lemma DivisionBounds(secs: nat)
    requires secs <= U64_MAX
    ensures secs / 86_400 <= I64_MAX
  {
  }

  //
  // Reading a timestamp back.
  //

  /** Splits at the first separator and reads the digits before it. */
  function TakeField(s: string, separator: char, from: nat := 0): Option<(nat, string)>
    requires from <= |s|
    decreases |s| - from
  {
    if from == |s| then None
    else if s[from] == separator then
      var n := DecimalValue(s[..from]);
      if n.None? then None else Some((n.value, s[from + 1..]))
    else TakeField(s, separator, from + 1)
  }

  lemma {:induction false} TakeFieldFrom(n: nat, w: nat, separator: char, rest: string, from: nat)
    requires !('0' <= separator <= '9') && from <= |Padded(n, w)|
    ensures TakeField(Field(n, w, separator, rest), separator, from) == Some((n, rest))
    decreases |Padded(n, w)| - from
  {
    var s := Field(n, w, separator, rest);
    if from == |Padded(n, w)| {
      assert s[..from] == Padded(n, w) && s[from + 1..] == rest;
      PaddedValue(n, w);
    } else {
      PaddedIsDigits(n, w);
      assert s[from] == Padded(n, w)[from];
      TakeFieldFrom(n, w, separator, rest, from + 1);
    }
  }

  function ParseClock(s: string): Option<(nat, nat)> {
    var hour := TakeField(s, '.');
    if hour.None? then None else
    var minute := TakeField(hour.value.1, '.');
    if minute.None? then None else
    var second := TakeField(minute.value.1, '.');
    if second.None? then None else
    var micros := DecimalValue(second.value.1);
    if micros.None? then None
    else Some((hour.value.0 * 3_600 + minute.value.0 * 60 + second.value.0, micros.value))
  }

  function ParseTimestamp(s: string): Option<(int, nat)> {
    var year := TakeField(s, '-');
    if year.None? then None else
    var month := TakeField(year.value.1, '-');
    if month.None? then None else
    var day := TakeField(month.value.1, '-');
    if day.None? then None else
    var date := Date(year.value.0, month.value.0, day.value.0);
    var clock := ParseClock(day.value.1);
    if !ValidDate(date) || clock.None? then None
    else Some((DaysFromCivil(date) * 86_400 + clock.value.0, clock.value.1))
  }

  lemma ClockRoundTrip(secondsOfDay: nat, micros: nat)
    ensures ParseClock(ClockText(secondsOfDay, micros)) == Some((secondsOfDay, micros))
  {
    hide DecimalValue, Padded;
    var hour, minute, second := secondsOfDay / 3_600, secondsOfDay % 3_600 / 60, secondsOfDay % 60;
    var tail := Padded(micros, 6);
    PaddedValue(micros, 6);
    TakeFieldFrom(second, 2, '.', tail, 0);
    TakeFieldFrom(minute, 2, '.', Field(second, 2, '.', tail), 0);
    TakeFieldFrom(hour, 2, '.', Field(minute, 2, '.', Field(second, 2, '.', tail)), 0);
    HoursMinutesSeconds(secondsOfDay);
  }

  /** The text determines the duration to the microsecond. */
  lemma TimestampRoundTrip(d: Duration)
    requires ValidDuration(d)
    ensures FormatUtcTimestamp(d).Ok?
    ensures ParseTimestamp(FormatUtcTimestamp(d).value) == Some((d.secs, d.nanos / 1_000))
  {
    hide CivilDateFromDays, ValidDate, DaysFromCivil, ParseClock, ClockText;
    FormattingNeverFails(d);
    var days, clock := d.secs / 86_400, ClockText(d.secs % 86_400, d.nanos / 1_000);
    YearFromEpoch(days);
    DaysFromCivilInvertsCivilDate(days);
    var date := CivilDateFromDays(days);
    DateFieldsNonNegative(date);
    ClockRoundTrip(d.secs % 86_400, d.nanos / 1_000);
    TakeFieldFrom(date.day, 2, '-', clock, 0);
    TakeFieldFrom(date.month, 2, '-', Field(date.day, 2, '-', clock), 0);
    TakeFieldFrom(date.year, 4, '-', Field(date.month, 2, '-', Field(date.day, 2, '-', clock)), 0);
  }

  lemma DateFieldsNonNegative(date: Date)
    requires ValidDate(date)
    ensures 0 <= date.month < 100 && 0 <= date.day < 100
  {
  }

  //
  // Order.
  //

  /** Lexicographic order on text. */
  predicate TextLess(a: string, b: string) {
    b != "" && (a == "" || a[0] < b[0] || (a[0] == b[0] && TextLess(a[1..], b[1..])))
  }

  lemma {:induction false} TextLessConcat(a: string, b: string, c: string, d: string)
    requires |a| == |b|
    ensures TextLess(a + c, b + d) <==> TextLess(a, b) || (a == b && TextLess(c, d))
  {
    if |a| == 0 {
      assert a + c == c && b + d == d;
    } else {
      assert (a + c)[1..] == a[1..] + c && (b + d)[1..] == b[1..] + d;
      assert a == b <==> a[0] == b[0] && a[1..] == b[1..];
      TextLessConcat(a[1..], b[1..], c, d);
    }
  }

  lemma {:induction false} TextLessPadded(m: nat, n: nat, w: nat)
    requires w >= 1 && m < Pow10(w) && n < Pow10(w)
    ensures |Padded(m, w)| == |Padded(n, w)| == w
    ensures TextLess(Padded(m, w), Padded(n, w)) <==> m < n
    ensures Padded(m, w) == Padded(n, w) <==> m == n
    decreases w
  {
    PaddedWidth(m, w);
    PaddedWidth(n, w);
    PaddedValue(m, w);
    PaddedValue(n, w);
    if w > 1 {
      assert m / 10 < Pow10(w - 1) && n / 10 < Pow10(w - 1);
      TextLessPadded(m / 10, n / 10, w - 1);
      TextLessConcat(Padded(m / 10, w - 1), Padded(n / 10, w - 1), [Digit(m % 10)], [Digit(n % 10)]);
    }
  }

  lemma TextLessField(m: nat, n: nat, w: nat, separator: char, x: string, y: string)
    requires w >= 1 && m < Pow10(w) && n < Pow10(w)
    ensures TextLess(Field(m, w, separator, x), Field(n, w, separator, y)) <==> m < n || (m == n && TextLess(x, y))
    ensures |Field(m, w, separator, x)| == w + 1 + |x|
  {
    TextLessPadded(m, n, w);
    assert Field(m, w, separator, x) == Padded(m, w) + ([separator] + x);
    assert Field(n, w, separator, y) == Padded(n, w) + ([separator] + y);
    TextLessConcat(Padded(m, w), Padded(n, w), [separator] + x, [separator] + y);
    TextLessConcat([separator], [separator], x, y);
  }

  lemma Powers()
    ensures Pow10(2) == 100 && Pow10(4) == 10_000 && Pow10(6) == 1_000_000
  {
    assert Pow10(3) == 1_000 && Pow10(5) == 100_000;
  }

  lemma ClockOrder(s: nat, us: nat, t: nat, vs: nat)
    requires s < 86_400 && t < 86_400 && us < 1_000_000 && vs < 1_000_000
    ensures |ClockText(s, us)| == 15
    ensures TextLess(ClockText(s, us), ClockText(t, vs)) <==> s < t || (s == t && us < vs)
  {
    Powers();
    TextLessPadded(us, vs, 6);
    var tail, tail' := Padded(us, 6), Padded(vs, 6);
    TextLessField(s % 60, t % 60, 2, '.', tail, tail');
    var seconds, seconds' := Field(s % 60, 2, '.', tail), Field(t % 60, 2, '.', tail');
    TextLessField(s % 3_600 / 60, t % 3_600 / 60, 2, '.', seconds, seconds');
    TextLessField(s / 3_600, t / 3_600, 2, '.',
                  Field(s % 3_600 / 60, 2, '.', seconds), Field(t % 3_600 / 60, 2, '.', seconds'));
    ClockLess(s, t);
  }

  lemma ClockLess(s: nat, t: nat)
    ensures s == t <==> s / 3_600 == t / 3_600 && s % 3_600 / 60 == t % 3_600 / 60 && s % 60 == t % 60
    ensures s < t <==>
              || s / 3_600 < t / 3_600
              || (s / 3_600 == t / 3_600 && s % 3_600 / 60 < t % 3_600 / 60)
              || (s / 3_600 == t / 3_600 && s % 3_600 / 60 == t % 3_600 / 60 && s % 60 < t % 60)
  {
    HoursMinutesSeconds(s);
    HoursMinutesSeconds(t);
    RadixLess(s / 3_600, s % 3_600 / 60, s % 60, t / 3_600, t % 3_600 / 60, t % 60);
  }

  lemma HoursMinutesSeconds(s: nat)
    ensures s == s / 3_600 * 3_600 + s % 3_600 / 60 * 60 + s % 60 && s % 3_600 / 60 < 60
  {
    var minutes := s / 60;
    DivisionIs(s, 3_600, minutes / 60);
    DivisionIs(s % 3_600, 60, minutes % 60);
  }

  lemma RadixLess(h: int, m: int, s: int, h': int, m': int, s': int)
    requires 0 <= m < 60 && 0 <= m' < 60 && 0 <= s < 60 && 0 <= s' < 60
    ensures var a, b := h * 3_600 + m * 60 + s, h' * 3_600 + m' * 60 + s';
            && (a == b <==> h == h' && m == m' && s == s')
            && (a < b <==> h < h' || (h == h' && m < m') || (h == h' && m == m' && s < s'))
  {
  }

  lemma DateTextOrder(a: Date, b: Date, x: string, y: string)
    requires ValidDate(a) && ValidDate(b) && 0 <= a.year <= 9_999 && 0 <= b.year <= 9_999
    ensures |DateText(a, x)| == 11 + |x|
    ensures TextLess(DateText(a, x), DateText(b, y)) <==> DateLess(a, b) || (a == b && TextLess(x, y))
  {
    Powers();
    TextLessField(a.day, b.day, 2, '-', x, y);
    var dayA, dayB := Field(a.day, 2, '-', x), Field(b.day, 2, '-', y);
    TextLessField(a.month, b.month, 2, '-', dayA, dayB);
    TextLessField(a.year, b.year, 4, '-', Field(a.month, 2, '-', dayA), Field(b.month, 2, '-', dayB));
  }

  /** The instant 10000-01-01 00:00:00 UTC, in seconds. */
  const YEAR_10000: nat := 253_402_300_800

  lemma FourDigitYears(days: nat)
    ensures CivilDateFromDays(days).year <= 9_999 <==> days < 2_932_897
  {
    hide CivilDateFromDays;
    YearFromEpoch(days);
    CivilDateOfMarchDate(24, 399, 306);
    CivilDateIsMonotone(days, 2_932_897);
  }

  /** Microseconds since the epoch. */
  function Micros(d: Duration): nat { d.secs * 1_000_000 + d.nanos / 1_000 }

  /** Timestamps have 26 characters exactly until the year 9999 ends. */
  lemma TimestampWidth(d: Duration)
    requires ValidDuration(d)
    ensures FormatUtcTimestamp(d).Ok?
    ensures |FormatUtcTimestamp(d).value| == 26 <==> d.secs < YEAR_10000
  {
    hide CivilDateFromDays, ClockText;
    FormattingNeverFails(d);
    var days := d.secs / 86_400;
    YearFromEpoch(days);
    FourDigitYears(days);
    var date := CivilDateFromDays(days);
    var clock := ClockText(d.secs % 86_400, d.nanos / 1_000);
    ClockOrder(d.secs % 86_400, d.nanos / 1_000, 0, 0);
    DateFieldsNonNegative(date);
    Powers();
    PaddedWidth(date.year, 4);
    PaddedWidth(date.month, 2);
    PaddedWidth(date.day, 2);
    assert days < 2_932_897 <==> d.secs < YEAR_10000;
  }

  /** Until the year 9999 ends, text order is chronological order to the microsecond. */
  lemma TimestampOrder(d: Duration, e: Duration)
    requires ValidDuration(d) && ValidDuration(e)
    requires d.secs < YEAR_10000 && e.secs < YEAR_10000
    ensures FormatUtcTimestamp(d).Ok? && FormatUtcTimestamp(e).Ok?
    ensures TextLess(FormatUtcTimestamp(d).value, FormatUtcTimestamp(e).value) <==> Micros(d) < Micros(e)
  {
    hide CivilDateFromDays, ClockText, DateText, ValidDate;
    FormattingNeverFails(d);
    FormattingNeverFails(e);
    var m, n := d.secs / 86_400, e.secs / 86_400;
    YearFromEpoch(m);
    YearFromEpoch(n);
    FourDigitYears(m);
    FourDigitYears(n);
    CivilDateIsMonotone(m, n);
    CivilDateIsMonotone(n, m);
    var s, us, t, vs := d.secs % 86_400, d.nanos / 1_000, e.secs % 86_400, e.nanos / 1_000;
    ClockOrder(s, us, t, vs);
    DateTextOrder(CivilDateFromDays(m), CivilDateFromDays(n), ClockText(s, us), ClockText(t, vs));
    assert d.secs == m * 86_400 + s && e.secs == n * 86_400 + t;
  }
}

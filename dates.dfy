/**
 * JavaScript Dates, kept opaque: a Date is its time value. Only the three
 * pieces of the Date built-ins the store reaches are modelled: `toISOString`
 * (what `JSON.stringify` writes for a Date), `Date.parse` of that same text,
 * and the one-argument `new Date(x)`.
 */
module Dates {
  import opened Wrappers
  import opened Values
  import opened Decimal

  const MsPerDay: int := 86_400_000

  /** Largest magnitude of a valid time value (100 000 000 days). */
  const MaxTime: int := 8_640_000_000_000_000

  /** TimeClip: a time value in range, otherwise NaN. */
  function TimeClip(t: int): (r: Time)
    ensures r.Valid? <==> -MaxTime <= t <= MaxTime
    ensures r.Valid? ==> r.ms == t
  {
    if -MaxTime <= t <= MaxTime then Valid(t) else Invalid
  }

  /** Proleptic Gregorian (year, month, day) of the day `days` after 1970-01-01. */
  function CivilFromDays(days: int): (int, int, int) {
    var z := days + 719468;
    var era := z / 146097;
    var doe := z % 146097;
    var yoe := YearOfEra(doe);
    DateOf(yoe + era * 400, doe - (365 * yoe + yoe / 4 - yoe / 100))
  }

  /** The year, counted from March, of day `doe` of a 400-year era. */
  function YearOfEra(doe: int): int {
    (doe - doe / 1460 + doe / 36524 - doe / 146096) / 365
  }

  /** (year, month, day) of day `doy` of the year `y` that starts on 1 March. */
  function DateOf(y: int, doy: int): (int, int, int) {
    var mp := (5 * doy + 2) / 153;
    var d := doy - (153 * mp + 2) / 5 + 1;
    var m := if mp < 10 then mp + 3 else mp - 9;
    (if m <= 2 then y + 1 else y, m, d)
  }

  /** Days from 1970-01-01 to the given proleptic Gregorian date. */
  function DaysFromCivil(y: int, m: int, d: int): int {
    var y' := if m <= 2 then y - 1 else y;
    var era := y' / 400;
    var yoe := y' % 400;
    var mp := if m > 2 then m - 3 else m + 9;
    var doy := (153 * mp + 2) / 5 + d - 1;
    var doe := yoe * 365 + yoe / 4 - yoe / 100 + doy;
    era * 146097 + doe - 719468
  }

  /** `n` in decimal, left-padded with zeros to `width` digits. */
  function Pad(n: nat, width: nat): (r: string)
    ensures |r| >= width
  {
    var t := NatText(n);
    if |t| >= width then t else seq(width - |t|, _ => '0') + t
  }

  /** Four digits for years 0..9999, otherwise a sign and six digits. */
  function YearText(y: int): string {
    if 0 <= y <= 9999 then Pad(y, 4)
    else if y < 0 then "-" + Pad(-y, 6)
    else "+" + Pad(y, 6)
  }

  /**
   * `Date.prototype.toISOString` of time value `t`:
   * YYYY-MM-DDTHH:mm:ss.sssZ in UTC. Month, day, hour, minute and second are
   * each below 100, so their `% 100` only states the two-digit width.
   */
  function IsoString(t: int): string {
    var days := t / MsPerDay;
    var ms := t % MsPerDay;
    var date := CivilFromDays(days);
    var y, m, d := date.0, date.1, date.2;
    IsoText(YearText(y), Pad(m % 100, 2), Pad(d % 100, 2),
      Pad(ms / 3_600_000, 2), Pad(ms / 60_000 % 60, 2), Pad(ms / 1000 % 60, 2), Pad(ms % 1000, 3))
  }

  /** The ISO date-time layout around its year, month, day, hour, minute, second and millisecond parts. */
  function IsoText(yr: string, mo: string, dy: string, hr: string, mi: string, sc: string, ms: string): string {
    yr + "-" + mo + "-" + dy + "T" + hr + ":" + mi + ":" + sc + "." + ms + "Z"
  }

  /** The number written in `s[i..j]`, when that slice is all digits. */
  function Field(s: string, i: nat, j: nat): Option<nat> {
    if i <= j <= |s| && AllDigits(s[i..j]) then Some(DigitsValue(s[i..j])) else None
  }

  /**
   * `Date.parse` of the date-time text `toISOString` writes (four-digit or
   * signed six-digit year). The fields are read, the time value composed,
   * and the text accepted only when it is exactly the text of that time
   * value, so out-of-range fields give an Invalid Date.
   */
  function ParseIso(s: string): (r: Time)
    ensures r.Valid? ==> -MaxTime <= r.ms <= MaxTime && IsoString(r.ms) == s
  {
    match ReadIso(s)
    case None => Invalid
    case Some(t) => if -MaxTime <= t <= MaxTime && IsoString(t) == s then Valid(t) else Invalid
  }

  /** The time value the fields of an ISO date-time text compose, when every field is digits. */
  function ReadIso(s: string): Option<int> {
    if |s| != 24 && |s| != 27 then None
    else
      var o := |s| - 20;
      var year :=
        if o == 4 then Field(s, 0, 4)
        else if s[0] == '+' || s[0] == '-' then Field(s, 1, 7)
        else None;
      var fields := [Field(s, o + 1, o + 3), Field(s, o + 4, o + 6), Field(s, o + 7, o + 9),
                     Field(s, o + 10, o + 12), Field(s, o + 13, o + 15), Field(s, o + 16, o + 19)];
      if year.None? || exists i :: 0 <= i < |fields| && fields[i].None? then None
      else
        var y := if o == 7 && s[0] == '-' then -(year.value as int) else year.value as int;
        var day := DaysFromCivil(y, fields[0].value, fields[1].value);
        var clock := ((fields[2].value * 60 + fields[3].value) * 60 + fields[4].value) * 1000 + fields[5].value;
        Some(day * MsPerDay + clock)
  }

  /**
   * `new Date(x)` with one argument: a Date copies the time value, a number
   * is clipped, a string goes through `Date.parse`, null and booleans convert
   * to 0 and 1, undefined is NaN. An array or object argument is first
   * turned into text; the model treats that text as unparseable.
   */
  function NewDate(x: Value): (r: Value)
    ensures r.Date?
  {
    match x
    case Date(t) => Date(t)
    case Num(n) => Date(TimeClip(n))
    case Str(s) => Date(ParseIso(s))
    case Null => Date(Valid(0))
    case Bool(b) => Date(Valid(if b then 1 else 0))
    case Undefined => Date(Invalid)
    case Arr(_) => Date(Invalid)
    case Obj(_) => Date(Invalid)
  }

  /** `Pad` of a number with at most `width` digits writes exactly `width` digits that read back as the number. */
  lemma PadValue(n: nat, width: nat)
    requires |NatText(n)| <= width
    ensures |Pad(n, width)| == width && AllDigits(Pad(n, width))
    ensures DigitsValue(Pad(n, width)) == n
  {
    NatTextValue(n);
    LeadingZeros(width - |NatText(n)|, NatText(n));
  }

  /** The divisions `CivilFromDays` makes of a day of the era, written as century `c`, four-year cycle `k` and day `s` of the cycle. */
  lemma CycleDivisions(c: int, k: int, s: int)
    requires 0 <= c <= 3 && 0 <= k <= 24 && 0 <= s <= 1460 && 1461 * k + s < 36524
    ensures var doe := 36524 * c + 1461 * k + s;
      var f := (24 * c + k + s) / 1460;
      0 <= f <= 1 && (s == 0 ==> f == 0) && (s == 1460 ==> f == 1) &&
      doe / 1460 == 25 * c + k + f && doe / 36524 == c && doe / 146096 == 0
  {
    var doe := 36524 * c + 1461 * k + s;
    var rem := 24 * c + k + s;
    assert doe == 1460 * (25 * c + k) + rem && 0 <= rem < 2 * 1460;
    if rem < 1460 {
      assert rem / 1460 == 0;
      assert doe / 1460 == 25 * c + k;
    } else {
      assert rem / 1460 == 1;
      assert doe == 1460 * (25 * c + k + 1) + (rem - 1460);
      assert doe / 1460 == 25 * c + k + 1;
    }
  }

  /** The year of the era and its day, for century `c`, cycle `k`, day `s` of the cycle and correction `f`. */
  lemma CycleYear(c: int, k: int, s: int, f: int)
    requires 0 <= c <= 3 && 0 <= k <= 24 && 0 <= s <= 1460 && 0 <= f <= 1
    requires (s == 0 ==> f == 0) && (s == 1460 ==> f == 1)
    ensures var yoe := (36500 * c + 1460 * k + s - f) / 365;
      var g := (s - f) / 365;
      0 <= g <= 3 && yoe == 100 * c + 4 * k + g && yoe / 4 == 25 * c + k && yoe / 100 == c &&
      0 <= s - 365 * g <= 365
  {
  }

  /**
   * The year-of-era arithmetic of `CivilFromDays` on a day of its 400-year
   * era: the year of the era is below 400 and the day of that year below 366.
   */
  lemma YearOfEraRange(doe: int)
    requires 0 <= doe < 146097
    ensures var yoe := YearOfEra(doe);
      0 <= yoe <= 399 && 0 <= doe - (365 * yoe + yoe / 4 - yoe / 100) <= 365
  {
    if doe < 146096 {
      var c := doe / 36524;
      var k := doe % 36524 / 1461;
      var s := doe % 36524 % 1461;
      assert doe == 36524 * c + 1461 * k + s;
      YearOfCycle(c, k, s);
    }
  }

  /** `YearOfEraRange` for the day `s` of four-year cycle `k` of century `c`. */
  lemma YearOfCycle(c: int, k: int, s: int)
    requires 0 <= c <= 3 && 0 <= k <= 24 && 0 <= s <= 1460 && 1461 * k + s < 36524
    ensures var doe := 36524 * c + 1461 * k + s;
      var yoe := YearOfEra(doe);
      0 <= yoe <= 399 && 0 <= doe - (365 * yoe + yoe / 4 - yoe / 100) <= 365
  {
    CycleDivisions(c, k, s);
    var f := (24 * c + k + s) / 1460;
    CycleYear(c, k, s, f);
    assert YearOfEra(36524 * c + 1461 * k + s) == (36500 * c + 1460 * k + s - f) / 365;
  }

  /**
   * `DaysFromCivil` inverts `CivilFromDays`: the date of any day names a
   * month and a day of the month in range, and counts back to that day. The
   * year lies in the 400-year era of the day.
   */
  lemma CivilRoundTrip(days: int)
    ensures var date := CivilFromDays(days);
      var y, m, d := date.0, date.1, date.2;
      1 <= m <= 12 && 1 <= d <= 31 && DaysFromCivil(y, m, d) == days &&
      400 * ((days + 719468) / 146097) <= y <= 400 * ((days + 719468) / 146097) + 400
  {
    var z := days + 719468;
    var era := z / 146097;
    var doe := z % 146097;
    YearOfEraRange(doe);
    var yoe := YearOfEra(doe);
    var doy := doe - (365 * yoe + yoe / 4 - yoe / 100);
    CivilBack(era, yoe, doy);
    assert CivilFromDays(days) == DateOf(yoe + era * 400, doy);
  }

  /**
   * The date `CivilFromDays` assembles from era `era`, year of the era `yoe`
   * and day of the (March-based) year `doy` counts back to that day.
   */
  lemma CivilBack(era: int, yoe: int, doy: int)
    requires 0 <= yoe <= 399 && 0 <= doy <= 365
    ensures var date := DateOf(yoe + era * 400, doy);
      var y, m, d := date.0, date.1, date.2;
      1 <= m <= 12 && 1 <= d <= 31 &&
      DaysFromCivil(y, m, d) == era * 146097 + (365 * yoe + yoe / 4 - yoe / 100 + doy) - 719468
  {
    MonthOfYear(doy);
    EraYear(era, yoe);
  }

  /** The month and day `CivilFromDays` reads off a day of the (March-based) year. */
  lemma MonthOfYear(doy: int)
    requires 0 <= doy <= 365
    ensures var mp := (5 * doy + 2) / 153;
      0 <= mp <= 11 && 1 <= doy - (153 * mp + 2) / 5 + 1 <= 31
  {
    var mp := (5 * doy + 2) / 153;
    assert 153 * mp <= 5 * doy + 2 < 153 * mp + 153;
  }

  /** A year of its era is recovered from the year by division by 400. */
  lemma EraYear(era: int, yoe: int)
    requires 0 <= yoe <= 399
    ensures (yoe + era * 400) / 400 == era && (yoe + era * 400) % 400 == yoe
  {
  }

  /** The hour, minute, second and millisecond `IsoString` writes for a time of day compose back to it. */
  lemma ClockRoundTrip(ms: int)
    requires 0 <= ms < MsPerDay
    ensures 0 <= ms / 3_600_000 < 24
    ensures ((ms / 3_600_000 * 60 + ms / 60_000 % 60) * 60 + ms / 1000 % 60) * 1000 + ms % 1000 == ms
  {
    var sec := ms / 1000;
    var min := sec / 60;
    assert ms / 60_000 == min;
    assert min / 60 == ms / 3_600_000;
  }

  /** The year `YearText` writes for a year of at most six digits: four digits, or a sign and six digits. */
  lemma YearTextDigits(y: int)
    requires -1_000_000 < y < 1_000_000
    ensures 0 <= y <= 9999 ==>
      |YearText(y)| == 4 && AllDigits(YearText(y)) && DigitsValue(YearText(y)) == y
    ensures !(0 <= y <= 9999) ==>
      |YearText(y)| == 7 && YearText(y)[0] == (if y < 0 then '-' else '+') &&
      AllDigits(YearText(y)[1..]) && DigitsValue(YearText(y)[1..]) == (if y < 0 then -y else y)
  {
    assert Pow10(4) == 10_000 && Pow10(6) == 1_000_000;
    if 0 <= y <= 9999 {
      NatTextWidth(y, 4);
      PadValue(y, 4);
    } else {
      var a := if y < 0 then -y else y;
      NatTextWidth(a, 6);
      PadValue(a, 6);
      assert YearText(y)[1..] == Pad(a, 6);
    }
  }

  /** Where the fields of an ISO date-time text sit, for a year part of any width. */
  lemma IsoSlices(yr: string, mo: string, dy: string, hr: string, mi: string, sc: string, ms: string)
    requires |mo| == 2 && |dy| == 2 && |hr| == 2 && |mi| == 2 && |sc| == 2 && |ms| == 3
    ensures var s := IsoText(yr, mo, dy, hr, mi, sc, ms);
      var o := |yr|;
      |s| == o + 20 && s[..o] == yr && s[o + 1..o + 3] == mo && s[o + 4..o + 6] == dy &&
      s[o + 7..o + 9] == hr && s[o + 10..o + 12] == mi && s[o + 13..o + 15] == sc && s[o + 16..o + 19] == ms
  {
  }

  /** A text `Pad` writes for a number below `10^width`, and what it reads back as. */
  lemma PadDigits(n: nat, width: nat)
    requires 1 <= width && n < Pow10(width)
    ensures |Pad(n, width)| == width && AllDigits(Pad(n, width)) && DigitsValue(Pad(n, width)) == n
  {
    NatTextWidth(n, width);
    PadValue(n, width);
  }

  /** What the year field of an ISO text reads as: four digits, or a sign and six digits. */
  predicate YearField(s: string, y: int) {
    if |s| == 24 then 0 <= y && Field(s, 0, 4) == Some(y)
    else (|s| == 27 &&
      if y < 0 then s[0] == '-' && Field(s, 1, 7) == Some(-y)
      else s[0] == '+' && Field(s, 1, 7) == Some(y))
  }

  /** What the month, day, hour, minute, second and millisecond fields of an ISO text read as. */
  predicate DateFields(s: string, m: nat, d: nat, h: nat, mi: nat, sc: nat, ms: nat) {
    var o := |s| - 20;
    o >= 0 &&
    Field(s, o + 1, o + 3) == Some(m) && Field(s, o + 4, o + 6) == Some(d) &&
    Field(s, o + 7, o + 9) == Some(h) && Field(s, o + 10, o + 12) == Some(mi) &&
    Field(s, o + 13, o + 15) == Some(sc) && Field(s, o + 16, o + 19) == Some(ms)
  }

  /** `s` is a run of digits that reads as `n`. */
  predicate Reads(s: string, n: nat) {
    AllDigits(s) && DigitsValue(s) == n
  }

  /** The fields of an ISO text built from digit parts read as the parts' values. */
  lemma TextFields(yr: string, mo: string, dy: string, hr: string, mi: string, sc: string, ms: string,
                   y: int, m: nat, d: nat, h: nat, mn: nat, sec: nat, msv: nat)
    requires |mo| == 2 && |dy| == 2 && |hr| == 2 && |mi| == 2 && |sc| == 2 && |ms| == 3
    requires Reads(mo, m) && Reads(dy, d) && Reads(hr, h) && Reads(mi, mn) && Reads(sc, sec) && Reads(ms, msv)
    requires 0 <= y <= 9999 ==> |yr| == 4 && Reads(yr, y)
    requires !(0 <= y <= 9999) ==>
      |yr| == 7 && yr[0] == (if y < 0 then '-' else '+') && Reads(yr[1..], if y < 0 then -y else y)
    ensures YearField(IsoText(yr, mo, dy, hr, mi, sc, ms), y)
    ensures DateFields(IsoText(yr, mo, dy, hr, mi, sc, ms), m, d, h, mn, sec, msv)
  {
    IsoSlices(yr, mo, dy, hr, mi, sc, ms);
    var s := IsoText(yr, mo, dy, hr, mi, sc, ms);
    if |yr| == 7 {
      assert s[1..7] == yr[1..];
    }
  }

  /** `IsoString` writes the month and day of its date unchanged: both are below 100. */
  lemma IsoStringShape(t: int)
    ensures var date := CivilFromDays(t / MsPerDay);
      var ms := t % MsPerDay;
      IsoString(t) == IsoText(YearText(date.0), Pad(date.1, 2), Pad(date.2, 2), Pad(ms / 3_600_000, 2),
        Pad(ms / 60_000 % 60, 2), Pad(ms / 1000 % 60, 2), Pad(ms % 1000, 3))
  {
    CivilRoundTrip(t / MsPerDay);
    var date := CivilFromDays(t / MsPerDay);
    TwoDigits(date.1);
    TwoDigits(date.2);
  }

  lemma TwoDigits(n: int)
    requires 0 <= n < 100
    ensures n % 100 == n
  {
  }

  /** The fields of `IsoString(t)`: the civil date of its day and the clock of its time of day. */
  lemma IsoFields(t: int)
    requires -MaxTime <= t <= MaxTime
    ensures var date := CivilFromDays(t / MsPerDay);
      var y, m, d := date.0, date.1, date.2;
      var ms := t % MsPerDay;
      var s := IsoString(t);
      YearField(s, y) &&
      DateFields(s, m, d, ms / 3_600_000, ms / 60_000 % 60, ms / 1000 % 60, ms % 1000)
  {
    var days := t / MsPerDay;
    var ms := t % MsPerDay;
    CivilRoundTrip(days);
    var date := CivilFromDays(days);
    var y, m, d := date.0, date.1, date.2;
    ClockRoundTrip(ms);
    YearTextDigits(y);
    assert Pow10(2) == 100 && Pow10(3) == 1000;
    PadDigits(m, 2);
    PadDigits(d, 2);
    PadDigits(ms / 3_600_000, 2);
    PadDigits(ms / 60_000 % 60, 2);
    PadDigits(ms / 1000 % 60, 2);
    PadDigits(ms % 1000, 3);
    IsoStringShape(t);
    TextFields(YearText(y), Pad(m, 2), Pad(d, 2), Pad(ms / 3_600_000, 2), Pad(ms / 60_000 % 60, 2),
      Pad(ms / 1000 % 60, 2), Pad(ms % 1000, 3), y, m, d, ms / 3_600_000, ms / 60_000 % 60, ms / 1000 % 60, ms % 1000);
  }

  /** The fields of a text that read as the given values compose the time value they name. */
  lemma ParseIsoOf(s: string, y: int, m: nat, d: nat, h: nat, mi: nat, sc: nat, ms: nat)
    requires YearField(s, y)
    requires DateFields(s, m, d, h, mi, sc, ms)
    ensures ReadIso(s) == Some(DaysFromCivil(y, m, d) * MsPerDay + ((h * 60 + mi) * 60 + sc) * 1000 + ms)
  {
    var o := |s| - 20;
    var year :=
      if o == 4 then Field(s, 0, 4)
      else if s[0] == '+' || s[0] == '-' then Field(s, 1, 7)
      else None;
    assert year == Some(if y < 0 then -y else y);
    var fields := [Field(s, o + 1, o + 3), Field(s, o + 4, o + 6), Field(s, o + 7, o + 9),
                   Field(s, o + 10, o + 12), Field(s, o + 13, o + 15), Field(s, o + 16, o + 19)];
    assert fields == [Some(m), Some(d), Some(h), Some(mi), Some(sc), Some(ms)];
    assert forall i :: 0 <= i < |fields| ==> fields[i].Some?;
    assert (if o == 7 && s[0] == '-' then -(year.value as int) else year.value as int) == y;
  }

  /** `Date.parse` accepts the text `toISOString` writes for every time value in range, and gives back that time value. */
  lemma ParseIsoComplete(t: int)
    requires -MaxTime <= t <= MaxTime
    ensures ParseIso(IsoString(t)) == Valid(t)
  {
    ReadIsoString(t);
    AcceptRead(IsoString(t), t);
  }

  /** The fields of `IsoString(t)` compose `t`. */
  lemma ReadIsoString(t: int)
    requires -MaxTime <= t <= MaxTime
    ensures ReadIso(IsoString(t)) == Some(t)
  {
    var days := t / MsPerDay;
    var ms := t % MsPerDay;
    CivilRoundTrip(days);
    ClockRoundTrip(ms);
    IsoFields(t);
    var date := CivilFromDays(days);
    ReadIsoAt(IsoString(t), t, date.0, date.1, date.2, ms / 3_600_000, ms / 60_000 % 60, ms / 1000 % 60, ms % 1000);
  }

  /** A text whose fields read as the civil date of the day of `t` and the clock of its time of day composes `t`. */
  lemma ReadIsoAt(s: string, t: int, y: int, m: nat, d: nat, h: nat, mi: nat, sc: nat, ms: nat)
    requires YearField(s, y) && DateFields(s, m, d, h, mi, sc, ms)
    requires DaysFromCivil(y, m, d) == t / MsPerDay && ((h * 60 + mi) * 60 + sc) * 1000 + ms == t % MsPerDay
    ensures ReadIso(s) == Some(t)
  {
    ParseIsoOf(s, y, m, d, h, mi, sc, ms);
    DayAndClock(t, DaysFromCivil(y, m, d), ((h * 60 + mi) * 60 + sc) * 1000 + ms);
  }

  /** `Date.parse` accepts a text whose fields compose a time value in range that writes back as the text. */
  lemma AcceptRead(s: string, t: int)
    requires ReadIso(s) == Some(t) && -MaxTime <= t <= MaxTime && IsoString(t) == s
    ensures ParseIso(s) == Valid(t)
  {
  }

  /** A time value is its day times the length of a day plus its time of day. */
  lemma DayAndClock(t: int, day: int, clock: int)
    requires day == t / MsPerDay && clock == t % MsPerDay
    ensures day * MsPerDay + clock == t
  {
  }
}

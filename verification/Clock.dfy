/** The RFC 3339 and RFC 5322 date printers. */
module Clock {
  import opened Text
  import opened Calendar
  import Bits

  const DAY_SECONDS: int := 86_400
  const TWO_63: int := 0x8000_0000_0000_0000
  const TWO_64: int := 0x1_0000_0000_0000_0000

  const DAYS: seq<string> := ["Sun", "Mon", "Tue", "Wed", "Thu", "Fri", "Sat"]
  const MONTHS: seq<string> := ["Jan", "Feb", "Mar", "Apr", "May", "Jun", "Jul", "Aug", "Sep", "Oct", "Nov", "Dec"]

  /** Decimal, padded with zeros on the left to at least `width`. */
  function Padded(n: nat, width: nat): string {
    var s := Decimal(n);
    if |s| < width then Naughts(width - |s|) + s else s
  }

  /** The same for signed numbers; the sign counts towards the width. */
  function PaddedInt(n: int, width: nat): string {
    if n >= 0 then Padded(n, width)
    else "-" + Padded(-n, if width > 0 then width - 1 else 0)
  }

  /** Two's-complement reading of an unsigned 64-bit number. */
  function AsI64(x: int): int {
    if x >= TWO_63 then x - TWO_64 else x
  }

  datatype Moment = Moment(date: Date, hour: int, minute: int, second: int)

  function MomentOf(secs: int): Moment {
    var sod := secs % DAY_SECONDS;
    Moment(CivilFromDays(secs / DAY_SECONDS), sod / 3600, sod % 3600 / 60, sod % 60)
  }

  predicate ValidMoment(m: Moment) {
    Valid(m.date) && 0 <= m.hour < 24 && 0 <= m.minute < 60 && 0 <= m.second < 60
  }

  function TimeText(m: Moment): string
    requires ValidMoment(m)
  {
    Padded(m.hour, 2) + ":" + Padded(m.minute, 2) + ":" + Padded(m.second, 2)
  }

  function Text3339(m: Moment): string
    requires ValidMoment(m)
  {
    PaddedInt(m.date.year, 4) + "-" + Padded(m.date.month, 2) + "-" + Padded(m.date.day, 2) + "T" + TimeText(m) + "Z"
  }

  function Rfc3339(unixSecs: int): string
    requires 0 <= unixSecs < TWO_64
  {
    MomentValid(AsI64(unixSecs));
    Text3339(MomentOf(AsI64(unixSecs)))
  }

  /** `secs` is the time since the epoch, 0 for times before it. */
  function Rfc5322(secs: nat): string {
    MomentValid(secs);
    var m := MomentOf(secs);
    DAYS[(secs / DAY_SECONDS + 4) % 7] + ", " + Padded(m.date.day, 2) + " " + MONTHS[m.date.month - 1] + " "
    + PaddedInt(m.date.year, 0) + " " + TimeText(m) + " +0000"
  }

  // ----- reading back -----

  function ReadNumber(s: string): int {
    if s != "" && IsDigits(s) then Number(s)
    else if |s| > 1 && s[0] == '-' && IsDigits(s[1..]) then 0 - Number(s[1..])
    else 0
  }

  /** Seconds since the epoch of a moment, by counting years, months and days. */
  function SecondsOf(m: Moment): int
    requires 1 <= m.date.month <= 12
  {
    DayNumber(m.date) * (24 * 60 * 60) + m.hour * 3600 + m.minute * 60 + m.second
  }

  /** The moment an RFC 3339 text names: its last 16 characters are of fixed width. */
  function Read3339(t: string): Moment
    requires |t| >= 16
  {
    var n := |t| - 16;
    Moment(Date(ReadNumber(t[..n]), ReadNumber(t[n + 1..n + 3]), ReadNumber(t[n + 4..n + 6])),
           ReadNumber(t[n + 7..n + 9]), ReadNumber(t[n + 10..n + 12]), ReadNumber(t[n + 13..n + 15]))
  }

  /** The month a name stands for, 0 for any other text. */
  function MonthNumber(name: string): int {
    if name == "Jan" then 1 else if name == "Feb" then 2 else if name == "Mar" then 3
    else if name == "Apr" then 4 else if name == "May" then 5 else if name == "Jun" then 6
    else if name == "Jul" then 7 else if name == "Aug" then 8 else if name == "Sep" then 9
    else if name == "Oct" then 10 else if name == "Nov" then 11 else if name == "Dec" then 12 else 0
  }

  /** The weekday of a day number: 1970-01-01 was a Thursday. */
  function Weekday(day: int): string {
    match day % 7
    case 0 => "Thu"
    case 1 => "Fri"
    case 2 => "Sat"
    case 3 => "Sun"
    case 4 => "Mon"
    case 5 => "Tue"
    case _ => "Wed"
  }

  /** The moment an RFC 5322 text names: 12 characters before the year, 15 after. */
  function Read5322(t: string): Moment
    requires |t| >= 27
  {
    var n := |t| - 15;
    Moment(Date(ReadNumber(t[12..n]), MonthNumber(t[8..11]), ReadNumber(t[5..7])),
           ReadNumber(t[n + 1..n + 3]), ReadNumber(t[n + 4..n + 6]), ReadNumber(t[n + 7..n + 9]))
  }

  // ----- lemmas -----

  lemma {:induction false} MomentValid(secs: int)
    ensures ValidMoment(MomentOf(secs))
  {
    CivilValid(secs / DAY_SECONDS);
    hide CivilFromDays, Valid;
  }

  lemma {:induction false} MomentSeconds(secs: int)
    ensures ValidMoment(MomentOf(secs)) && SecondsOf(MomentOf(secs)) == secs
  {
    MomentValid(secs);
    CountBack(secs / DAY_SECONDS);
    hide CivilFromDays, DayNumber, Valid;
    TimeSplit(secs % DAY_SECONDS);
    assert secs == secs / DAY_SECONDS * DAY_SECONDS + secs % DAY_SECONDS;
  }

  lemma {:induction false} TimeSplit(sod: nat)
    ensures sod == sod / 3600 * 3600 + sod % 3600 / 60 * 60 + sod % 60
  {
    var q, r := sod / 3600, sod % 3600;
    assert sod == r + 60 * q * 60;
    Bits.ModShift(r, 60 * q, 60);
    assert r == r / 60 * 60 + r % 60;
  }

  lemma {:induction false} PaddedReads(n: nat, width: nat)
    ensures Padded(n, width) != "" && IsDigits(Padded(n, width)) && Number(Padded(n, width)) == n
  {
    DecimalRoundTrip(n);
    hide Decimal, Number, Naughts;
    if |Decimal(n)| < width {
      NaughtsNumber(width - |Decimal(n)|, Decimal(n));
    }
  }

  lemma {:induction false} PaddedIntReads(n: int, width: nat)
    ensures ReadNumber(PaddedInt(n, width)) == n
  {
    hide Number, Padded;
    if n >= 0 {
      PaddedReads(n, width);
    } else {
      var w := if width > 0 then width - 1 else 0;
      PaddedReads(-n, w);
      var s := "-" + Padded(-n, w);
      assert s[1..] == Padded(-n, w);
      assert !IsDigits(s) by {
        assert s[0] == '-';
      }
    }
  }

  lemma {:induction false} PaddedTwo(n: nat)
    requires n < 100
    ensures Padded(n, 2) == [DigitChar(n / 10), DigitChar(n % 10)]
  {
    if n < 10 {
      assert Decimal(n) == [DigitChar(n)];
      assert Naughts(1) == ['0'];
    } else {
      assert Decimal(n / 10) == [DigitChar(n / 10)];
    }
  }

  lemma {:induction false} ReadTwo(n: nat)
    requires n < 100
    ensures |Padded(n, 2)| == 2 && ReadNumber(Padded(n, 2)) == n
  {
    PaddedTwo(n);
    PaddedReads(n, 2);
    hide Padded, Number;
  }

  lemma {:induction false} DayBelow(m: Moment)
    requires ValidMoment(m)
    ensures 1 <= m.date.day < 100 && 1 <= m.date.month <= 12
  {
  }

  /** `-MM-DDTHH:MM:SSZ` behind the year. */
  predicate Marked3339(t: string) {
    && |t| >= 16
    && var n := |t| - 16;
    && t[n] == '-' && t[n + 3] == '-' && t[n + 6] == 'T' && t[n + 9] == ':' && t[n + 12] == ':' && t[n + 15] == 'Z'
  }

  /** The text is the year followed by a tail of fixed layout. */
  lemma {:induction false} Tail3339(m: Moment)
    requires ValidMoment(m)
    ensures var y := PaddedInt(m.date.year, 4);
            var t := Text3339(m);
            && |t| == |y| + 16 && t[..|y|] == y
            && t[|y| + 1..|y| + 3] == Padded(m.date.month, 2) && t[|y| + 4..|y| + 6] == Padded(m.date.day, 2)
            && t[|y| + 7..|y| + 9] == Padded(m.hour, 2) && t[|y| + 10..|y| + 12] == Padded(m.minute, 2)
            && t[|y| + 13..|y| + 15] == Padded(m.second, 2) && Marked3339(t)
  {
    hide Padded, PaddedInt, ReadNumber, Valid;
    DayBelow(m);
    ReadTwo(m.date.month);
    ReadTwo(m.date.day);
    ReadTwo(m.hour);
    ReadTwo(m.minute);
    ReadTwo(m.second);
    Slices3339(PaddedInt(m.date.year, 4), Padded(m.date.month, 2), Padded(m.date.day, 2), Padded(m.hour, 2),
               Padded(m.minute, 2), Padded(m.second, 2));
  }

  lemma {:induction false} Slices3339(y: string, mo: string, d: string, h: string, mi: string, s: string)
    requires |mo| == |d| == |h| == |mi| == |s| == 2
    ensures var t := y + "-" + mo + "-" + d + "T" + (h + ":" + mi + ":" + s) + "Z";
            && |t| == |y| + 16 && t[..|y|] == y
            && t[|y| + 1..|y| + 3] == mo && t[|y| + 4..|y| + 6] == d
            && t[|y| + 7..|y| + 9] == h && t[|y| + 10..|y| + 12] == mi && t[|y| + 13..|y| + 15] == s && Marked3339(t)
  {
  }

  lemma {:induction false} MomentReads3339(m: Moment)
    requires ValidMoment(m)
    ensures Marked3339(Text3339(m)) && Read3339(Text3339(m)) == m
    ensures -1000 < m.date.year < 10000 ==> |Text3339(m)| == 20
  {
    DayBelow(m);
    Tail3339(m);
    PaddedIntReads(m.date.year, 4);
    ReadTwo(m.date.month);
    ReadTwo(m.date.day);
    ReadTwo(m.hour);
    ReadTwo(m.minute);
    ReadTwo(m.second);
    YearWidth(m.date.year);
    hide Padded, PaddedInt, ReadNumber, Valid, Text3339;
  }

  lemma {:induction false} YearWidth(y: int)
    ensures -1000 < y < 10000 ==> |PaddedInt(y, 4)| == 4
  {
    if -1000 < y < 10000 {
      PowersOfTen();
      FixedPadded(if y >= 0 then y else -y, if y >= 0 then 4 else 3);
    }
  }

  lemma {:induction false} PowersOfTen()
    ensures Pow10(3) == 1000 && Pow10(4) == 10000
  {
    assert Pow10(1) == 10;
    assert Pow10(2) == 100;
  }

  /** The RFC 3339 text has the layout of its standard and determines the timestamp, over the whole 64-bit
      range; numbers from 2^63 on are read as negative. */
  lemma {:induction false} Rfc3339Inverts(unixSecs: int)
    requires 0 <= unixSecs < 18_446_744_073_709_551_616
    ensures var t := Rfc3339(unixSecs);
            && Marked3339(t)
            && ValidMoment(Read3339(t))
            && (-1000 < Read3339(t).date.year < 10000 ==> |t| == 20)
            && SecondsOf(Read3339(t)) ==
               if unixSecs < 9_223_372_036_854_775_808 then unixSecs else unixSecs - 18_446_744_073_709_551_616
  {
    hide Text3339, Read3339, SecondsOf, MomentOf, Valid;
    MomentSeconds(AsI64(unixSecs));
    MomentReads3339(MomentOf(AsI64(unixSecs)));
  }

  // ----- order -----

  /** Text order: the first place where two texts differ decides. */
  ghost predicate TextLess(a: string, b: string) {
    exists k :: 0 <= k < |a| && k < |b| && a[..k] == b[..k] && a[k] < b[k]
  }

  /** Exactly `width` digits. */
  function Fixed(n: nat, width: nat): (s: string)
    ensures |s| == width
  {
    if width == 0 then "" else Fixed(n / 10, width - 1) + [DigitChar(n % 10)]
  }

  lemma {:induction false} FixedZero(width: nat)
    ensures Fixed(0, width) == Naughts(width)
  {
    if width > 0 {
      FixedZero(width - 1);
      assert Naughts(width) == Naughts(width - 1) + ['0'];
    }
  }

  function Pow10(n: nat): (p: nat)
    ensures p >= 1
  {
    if n == 0 then 1 else 10 * Pow10(n - 1)
  }

  lemma {:induction false} DigitPadded(n: nat, width: nat)
    requires n < 10 && width > 0
    ensures Padded(n, width) == Fixed(n, width)
  {
    FixedZero(width - 1);
    assert Decimal(n) == [DigitChar(n)];
    assert Fixed(n, width) == Fixed(0, width - 1) + [DigitChar(n)];
    hide Fixed, Decimal;
    assert Naughts(0) + [DigitChar(n)] == [DigitChar(n)];
  }

  lemma {:induction false} PaddedStep(n: nat, width: nat)
    requires n >= 10 && width > 0
    ensures Padded(n, width) == Padded(n / 10, width - 1) + [DigitChar(n % 10)]
  {
    var s, t := Decimal(n / 10), [DigitChar(n % 10)];
    assert Decimal(n) == s + t;
    hide Decimal, Naughts;
    if |s| + 1 < width {
      assert Naughts(width - 1 - |s|) + (s + t) == (Naughts(width - 1 - |s|) + s) + t;
    }
  }

  lemma {:induction false} FixedPadded(n: nat, width: nat)
    requires n < Pow10(width) && width > 0
    ensures Padded(n, width) == Fixed(n, width)
  {
    hide Padded;
    if n < 10 {
      DigitPadded(n, width);
    } else {
      PaddedStep(n, width);
      FixedPadded(n / 10, width - 1);
    }
  }

  lemma {:induction false} LessBefore(a: string, b: string, x: string, y: string)
    requires TextLess(a, b)
    ensures TextLess(a + x, b + y)
  {
    var k :| 0 <= k < |a| && k < |b| && a[..k] == b[..k] && a[k] < b[k];
    assert (a + x)[..k] == a[..k] && (b + y)[..k] == b[..k];
  }

  lemma {:induction false} LessAfter(p: string, a: string, b: string)
    requires TextLess(a, b)
    ensures TextLess(p + a, p + b)
  {
    var k :| 0 <= k < |a| && k < |b| && a[..k] == b[..k] && a[k] < b[k];
    var j := |p| + k;
    assert (p + a)[..j] == p + a[..k] && (p + b)[..j] == p + b[..k];
    assert (p + a)[j] == a[k] && (p + b)[j] == b[k];
  }

  /** On numbers of the same width text order is numeric order. */
  lemma {:induction false} FixedLess(a: nat, b: nat, width: nat)
    requires a < b < Pow10(width)
    ensures TextLess(Fixed(a, width), Fixed(b, width))
  {
    var x, y := [DigitChar(a % 10)], [DigitChar(b % 10)];
    if a / 10 < b / 10 {
      FixedLess(a / 10, b / 10, width - 1);
      LessBefore(Fixed(a / 10, width - 1), Fixed(b / 10, width - 1), x, y);
    } else {
      assert a / 10 == b / 10;
      assert x[0] < y[0] && x[..0] == y[..0];
      assert TextLess(x, y);
      LessAfter(Fixed(a / 10, width - 1), x, y);
    }
  }

  lemma {:induction false} PaddedLess(a: nat, b: nat, width: nat)
    requires a < b < Pow10(width) && width > 0
    ensures TextLess(Padded(a, width), Padded(b, width))
  {
    FixedPadded(a, width);
    FixedPadded(b, width);
    FixedLess(a, b, width);
  }

  lemma {:induction false} Pow10Small()
    ensures Pow10(2) == 100 && Pow10(4) == 10000
  {
    assert Pow10(1) == 10 && Pow10(3) == 1000;
  }

  /** Earlier in the day. */
  predicate EarlierTime(a: Moment, b: Moment) {
    a.hour < b.hour || (a.hour == b.hour && (a.minute < b.minute || (a.minute == b.minute && a.second < b.second)))
  }

  lemma {:induction false} TimeLess(a: Moment, b: Moment)
    requires ValidMoment(a) && ValidMoment(b) && EarlierTime(a, b)
    ensures TextLess(TimeText(a) + "Z", TimeText(b) + "Z")
  {
    hide Padded, Valid, TextLess;
    Pow10Small();
    var ah, am, sa := Padded(a.hour, 2), Padded(a.minute, 2), Padded(a.second, 2);
    var bh, bm, sb := Padded(b.hour, 2), Padded(b.minute, 2), Padded(b.second, 2);
    assert TimeText(a) + "Z" == ah + (":" + (am + (":" + (sa + "Z"))));
    assert TimeText(b) + "Z" == bh + (":" + (bm + (":" + (sb + "Z"))));
    if a.hour < b.hour {
      PaddedLess(a.hour, b.hour, 2);
      LessBefore(ah, bh, ":" + (am + (":" + (sa + "Z"))), ":" + (bm + (":" + (sb + "Z"))));
    } else if a.minute < b.minute {
      PaddedLess(a.minute, b.minute, 2);
      LessBefore(am, bm, ":" + (sa + "Z"), ":" + (sb + "Z"));
      LessAfter(":", am + (":" + (sa + "Z")), bm + (":" + (sb + "Z")));
      LessAfter(ah, ":" + (am + (":" + (sa + "Z"))), ":" + (bm + (":" + (sb + "Z"))));
    } else {
      PaddedLess(a.second, b.second, 2);
      LessBefore(sa, sb, "Z", "Z");
      LessAfter(":", sa + "Z", sb + "Z");
      LessAfter(am, ":" + (sa + "Z"), ":" + (sb + "Z"));
      LessAfter(":", am + (":" + (sa + "Z")), bm + (":" + (sb + "Z")));
      LessAfter(ah, ":" + (am + (":" + (sa + "Z"))), ":" + (bm + (":" + (sb + "Z"))));
    }
  }

  function Rest3339(m: Moment): string
    requires ValidMoment(m)
  {
    Padded(m.date.month, 2) + ("-" + (Padded(m.date.day, 2) + ("T" + (TimeText(m) + "Z"))))
  }

  lemma {:induction false} RestLess(a: Moment, b: Moment)
    requires ValidMoment(a) && ValidMoment(b) && a.date.year == b.date.year
    requires Before(a.date, b.date) || (a.date == b.date && EarlierTime(a, b))
    ensures TextLess(Rest3339(a), Rest3339(b))
  {
    DayBelow(a);
    DayBelow(b);
    hide Padded, Valid, TextLess, TimeText, EarlierTime;
    Pow10Small();
    var ta, tb := "T" + (TimeText(a) + "Z"), "T" + (TimeText(b) + "Z");
    var da, db := Padded(a.date.day, 2), Padded(b.date.day, 2);
    if a.date.month < b.date.month {
      PaddedLess(a.date.month, b.date.month, 2);
      LessBefore(Padded(a.date.month, 2), Padded(b.date.month, 2), "-" + (da + ta), "-" + (db + tb));
    } else {
      if a.date.day < b.date.day {
        PaddedLess(a.date.day, b.date.day, 2);
        LessBefore(da, db, ta, tb);
      } else {
        TimeLess(a, b);
        LessAfter("T", TimeText(a) + "Z", TimeText(b) + "Z");
        LessAfter(da, ta, tb);
      }
      LessAfter("-", da + ta, db + tb);
      LessAfter(Padded(a.date.month, 2), "-" + (da + ta), "-" + (db + tb));
    }
  }

  lemma {:induction false} MomentLess(a: Moment, b: Moment)
    requires ValidMoment(a) && ValidMoment(b) && 0 <= a.date.year <= b.date.year <= 9999
    requires Before(a.date, b.date) || (a.date == b.date && EarlierTime(a, b))
    ensures TextLess(Text3339(a), Text3339(b))
  {
    hide Padded, Valid, TextLess, EarlierTime, TimeText;
    Pow10Small();
    var ya, yb := Padded(a.date.year, 4), Padded(b.date.year, 4);
    assert Text3339(a) == ya + ("-" + Rest3339(a));
    assert Text3339(b) == yb + ("-" + Rest3339(b));
    if a.date.year < b.date.year {
      PaddedLess(a.date.year, b.date.year, 4);
      LessBefore(ya, yb, "-" + Rest3339(a), "-" + Rest3339(b));
    } else {
      RestLess(a, b);
      LessAfter("-", Rest3339(a), Rest3339(b));
      LessAfter(ya, "-" + Rest3339(a), "-" + Rest3339(b));
    }
  }

  lemma {:induction false} MomentOrder(a: int, b: int)
    requires a < b
    ensures var x, y := MomentOf(a), MomentOf(b);
            Before(x.date, y.date) || (x.date == y.date && EarlierTime(x, y))
  {
    hide CivilFromDays, Before;
    if a / DAY_SECONDS < b / DAY_SECONDS {
      CivilMonotone(a / DAY_SECONDS, b / DAY_SECONDS);
    } else {
      assert a / DAY_SECONDS == b / DAY_SECONDS;
      TimeOrder(a % DAY_SECONDS, b % DAY_SECONDS);
    }
  }

  lemma {:induction false} TimeOrder(a: int, b: int)
    requires 0 <= a < b < DAY_SECONDS
    ensures a / 3600 < b / 3600 || (a / 3600 == b / 3600 &&
            (a % 3600 / 60 < b % 3600 / 60 || (a % 3600 / 60 == b % 3600 / 60 && a % 60 < b % 60)))
  {
    TimeSplit(a);
    TimeSplit(b);
  }

  lemma {:induction false} LastDay()
    ensures CivilFromDays(2_932_896) == Date(9999, 12, 31)
  {
    LastYear();
    LastDate();
    hide YearOfEra, MarchDate;
    assert 3_652_364 / 146_097 == 24 && 3_652_364 % 146_097 == 146_036;
    assert 365 * 399 + 399 / 4 - 399 / 100 == 145_731;
  }

  lemma {:induction false} LastYear()
    ensures YearOfEra(146_036) == 399
  {
  }

  lemma {:induction false} LastDate()
    ensures MarchDate(9999, 305) == Date(9999, 12, 31)
  {
  }

  lemma {:induction false} YearRange(secs: int)
    requires 0 <= secs < 253_402_300_800
    ensures 1970 <= MomentOf(secs).date.year <= 9999
  {
    var day := secs / DAY_SECONDS;
    CivilEpoch();
    LastDay();
    hide CivilFromDays;
    if 0 < day {
      CivilMonotone(0, day);
    }
    if day < 2_932_896 {
      CivilMonotone(day, 2_932_896);
    }
  }

  /** Up to the end of the year 9999 the texts sort as the timestamps do. */
  lemma {:induction false} Rfc3339Order(a: int, b: int)
    requires 0 <= a < b < 253_402_300_800
    ensures TextLess(Rfc3339(a), Rfc3339(b))
  {
    hide MomentOf, Valid, Text3339, TextLess, EarlierTime, Before;
    YearRange(a);
    YearRange(b);
    MomentValid(a);
    MomentValid(b);
    MomentOrder(a, b);
    YearOrder(a, b);
    MomentLess(MomentOf(a), MomentOf(b));
  }

  lemma {:induction false} YearOrder(a: int, b: int)
    requires a < b
    ensures MomentOf(a).date.year <= MomentOf(b).date.year
  {
    hide CivilFromDays;
    MomentOrder(a, b);
  }

  // ----- RFC 5322 -----

  lemma {:induction false} MonthNames(k: nat)
    requires k < 12
    ensures |MONTHS[k]| == 3 && MonthNumber(MONTHS[k]) == k + 1
  {
    match k
    case 0 => case 1 => case 2 => case 3 => case 4 => case 5 =>
    case 6 => case 7 => case 8 => case 9 => case 10 => case _ =>
  }

  /** `Day, DD Mon ` before the year, ` HH:MM:SS +0000` behind. */
  predicate Marked5322(t: string) {
    && |t| >= 27 && t[3..5] == ", " && t[7] == ' ' && t[11] == ' '
    && var n := |t| - 15;
    && t[n] == ' ' && t[n + 3] == ':' && t[n + 6] == ':' && t[n + 9..] == " +0000"
  }

  lemma {:induction false} Layout5322(secs: nat)
    ensures var t := Rfc5322(secs);
            var m := MomentOf(secs);
            var y := PaddedInt(m.date.year, 0);
            && ValidMoment(m)
            && |t| == |y| + 27 && t[12..12 + |y|] == y
            && t[..3] == Weekday(secs / DAY_SECONDS) && Marked5322(t)
            && t[5..7] == Padded(m.date.day, 2) && t[8..11] == MONTHS[m.date.month - 1]
            && t[|y| + 13..|y| + 15] == Padded(m.hour, 2) && t[|y| + 16..|y| + 18] == Padded(m.minute, 2)
            && t[|y| + 19..|y| + 21] == Padded(m.second, 2)
  {
    MomentValid(secs);
    var m := MomentOf(secs);
    DayBelow(m);
    MonthNames(m.date.month - 1);
    DayNames(secs / DAY_SECONDS);
    ReadTwo(m.date.day);
    ReadTwo(m.hour);
    ReadTwo(m.minute);
    ReadTwo(m.second);
    hide Padded, PaddedInt, ReadNumber, Valid, MomentOf;
    var d, mo, y := DAYS[(secs / DAY_SECONDS + 4) % 7], MONTHS[m.date.month - 1], PaddedInt(m.date.year, 0);
    Join5322(d, Padded(m.date.day, 2), mo, y, Padded(m.hour, 2), Padded(m.minute, 2), Padded(m.second, 2));
  }

  lemma {:induction false} Join5322(d: string, dd: string, mo: string, y: string, h: string, mi: string, s: string)
    requires |d| == 3 && |dd| == 2 && |mo| == 3 && |h| == 2 && |mi| == 2 && |s| == 2
    ensures var t := d + ", " + dd + " " + mo + " " + y + " " + (h + ":" + mi + ":" + s) + " +0000";
            && |t| == |y| + 27 && t[12..12 + |y|] == y && t[..3] == d && t[5..7] == dd && t[8..11] == mo
            && t[|y| + 13..|y| + 15] == h && t[|y| + 16..|y| + 18] == mi && t[|y| + 19..|y| + 21] == s
            && Marked5322(t)
  {
  }

  lemma {:induction false} DayNames(day: int)
    ensures |Weekday(day)| == 3 && DAYS[(day + 4) % 7] == Weekday(day)
  {
    assert (day + 4) % 7 == (day % 7 + 4) % 7;
  }

  /** The RFC 5322 text has the layout of its standard, in UTC, names the right weekday and determines the
      timestamp. */
  lemma {:induction false} Rfc5322Inverts(secs: nat)
    ensures var t := Rfc5322(secs);
            && Marked5322(t)
            && ValidMoment(Read5322(t))
            && SecondsOf(Read5322(t)) == secs
            && t[..3] == Weekday(DayNumber(Read5322(t).date))
  {
    hide Rfc5322, MomentOf, Valid, Padded, PaddedInt, ReadNumber, DayNumber;
    Layout5322(secs);
    var m := MomentOf(secs);
    DayBelow(m);
    MonthNames(m.date.month - 1);
    PaddedIntReads(m.date.year, 0);
    ReadTwo(m.date.day);
    ReadTwo(m.hour);
    ReadTwo(m.minute);
    ReadTwo(m.second);
    MomentSeconds(secs);
    DayOfMoment(secs);
  }

  lemma {:induction false} DayOfMoment(secs: int)
    ensures 1 <= MomentOf(secs).date.month <= 12 && DayNumber(MomentOf(secs).date) == secs / DAY_SECONDS
  {
    CountBack(secs / DAY_SECONDS);
    hide CivilFromDays, DayNumber;
  }
}

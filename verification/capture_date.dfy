/** Capture-date decoding (`get_image_date`): the `DateTimeOriginal` tag parsed
    against the shape `YYYY:MM:DD HH:MM:SS`, keeping only the calendar date. */
module CaptureDate {
  import opened Wrappers
  import opened Text

  datatype Date = Date(year: int, month: int, day: int)

  datatype DateTime = DateTime(year: int, month: int, day: int, hour: int, minute: int, second: int)

  /** The calendar date of a timestamp, dropping the time of day. */
  function DateOf(t: DateTime): Date {
    Date(t.year, t.month, t.day)
  }

  predicate IsLeapYear(y: int) {
    y % 4 == 0 && (y % 100 != 0 || y % 400 == 0)
  }

  function DaysInMonth(y: int, m: int): (r: int)
    requires 1 <= m <= 12
    ensures 28 <= r <= 31
    ensures r == 29 <==> m == 2 && IsLeapYear(y)
    ensures r == 30 <==> m == 4 || m == 6 || m == 9 || m == 11
    ensures r == 31 <==> m == 1 || m == 3 || m == 5 || m == 7 || m == 8 || m == 10 || m == 12
  {
    if m == 2 then (if IsLeapYear(y) then 29 else 28)
    else if m == 4 || m == 6 || m == 9 || m == 11 then 30
    else 31
  }

  /** A timestamp the calendar accepts: years 1 to 9999, a day that exists in
      its month, and a time of day from 00:00:00 to 23:59:59. */
  predicate Valid(t: DateTime) {
    && 1 <= t.year <= 9999
    && 1 <= t.month <= 12
    && 1 <= t.day <= DaysInMonth(t.year, t.month)
    && 0 <= t.hour < 24
    && 0 <= t.minute < 60
    && 0 <= t.second < 60
  }

  function DigitValue(c: char): (r: int)
    requires IsDigit(c)
    ensures 0 <= r < 10
  {
    c as int - '0' as int
  }

  function DigitChar(n: int): (c: char)
    requires 0 <= n < 10
    ensures IsDigit(c) && DigitValue(c) == n
  {
    ('0' as int + n) as char
  }

  predicate AllDigits(s: string) {
    forall i :: 0 <= i < |s| ==> IsDigit(s[i])
  }

  function Num2(s: string): (n: int)
    requires |s| == 2 && AllDigits(s)
    ensures 0 <= n < 100
  {
    10 * DigitValue(s[0]) + DigitValue(s[1])
  }

  function Num4(s: string): (n: int)
    requires |s| == 4 && AllDigits(s)
    ensures 0 <= n < 10000
  {
    100 * Num2(s[..2]) + Num2(s[2..])
  }

  /** A number below 100 as exactly two digits, zero-padded. */
  function Pad2(n: int): (s: string)
    requires 0 <= n < 100
    ensures |s| == 2 && AllDigits(s) && Num2(s) == n
  {
    [DigitChar(n / 10), DigitChar(n % 10)]
  }

  /** A number below 10000 as exactly four digits, zero-padded. */
  function Pad4(n: int): (s: string)
    requires 0 <= n < 10000
    ensures |s| == 4 && AllDigits(s) && Num4(s) == n
  {
    var s := Pad2(n / 100) + Pad2(n % 100);
    assert s[..2] == Pad2(n / 100) && s[2..] == Pad2(n % 100);
    s
  }

  /** Two digits are their own zero-padded rendering. */
  lemma Pad2OfNum2(s: string)
    requires |s| == 2 && AllDigits(s)
    ensures Pad2(Num2(s)) == s
  {
    var a, b := DigitValue(s[0]), DigitValue(s[1]);
    assert (10 * a + b) / 10 == a;
    assert (10 * a + b) % 10 == b;
  }

  lemma Pad4OfNum4(s: string)
    requires |s| == 4 && AllDigits(s)
    ensures Pad4(Num4(s)) == s
  {
    var hi, lo := Num2(s[..2]), Num2(s[2..]);
    assert (100 * hi + lo) / 100 == hi;
    assert (100 * hi + lo) % 100 == lo;
    Pad2OfNum2(s[..2]);
    Pad2OfNum2(s[2..]);
    assert s[..2] + s[2..] == s;
  }

  /** The fixed-width shape `DDDD:DD:DD DD:DD:DD`. */
  predicate HasShape(s: string) {
    && |s| == 19
    && AllDigits(s[0..4]) && s[4] == ':'
    && AllDigits(s[5..7]) && s[7] == ':'
    && AllDigits(s[8..10]) && s[10] == ' '
    && AllDigits(s[11..13]) && s[13] == ':'
    && AllDigits(s[14..16]) && s[16] == ':'
    && AllDigits(s[17..19])
  }

  /** Renders a timestamp in the exact shape the tag uses. */
  function Format(t: DateTime): (s: string)
    requires Valid(t)
    ensures HasShape(s)
  {
    var s := Pad4(t.year) + ":" + Pad2(t.month) + ":" + Pad2(t.day) + " "
             + Pad2(t.hour) + ":" + Pad2(t.minute) + ":" + Pad2(t.second);
    assert s[0..4] == Pad4(t.year) && s[5..7] == Pad2(t.month) && s[8..10] == Pad2(t.day);
    assert s[11..13] == Pad2(t.hour) && s[14..16] == Pad2(t.minute) && s[17..19] == Pad2(t.second);
    s
  }

  /** The timestamp fields read from a string of the right shape. */
  function Fields(s: string): DateTime
    requires HasShape(s)
  {
    DateTime(Num4(s[0..4]), Num2(s[5..7]), Num2(s[8..10]), Num2(s[11..13]), Num2(s[14..16]), Num2(s[17..19]))
  }

  /** Parses a complete timestamp: `None` when the string does not have the
      shape, has trailing characters, or names a date or time that does not
      exist. */
  function ParseDateTime(s: string): (r: Option<DateTime>)
    ensures r.Some? ==> HasShape(s) && Valid(r.value)
    ensures |s| != 19 ==> r.None?
  {
    if !HasShape(s) then None
    else
      var t := Fields(s);
      if Valid(t) then Some(t) else None
  }

  /** Every parsed timestamp renders back to the very string it came from. */
  lemma FormatOfParse(s: string)
    requires ParseDateTime(s).Some?
    ensures Valid(ParseDateTime(s).value) && Format(ParseDateTime(s).value) == s
  {
    var t := Fields(s);
    Pad4OfNum4(s[0..4]);
    Pad2OfNum2(s[5..7]);
    Pad2OfNum2(s[8..10]);
    Pad2OfNum2(s[11..13]);
    Pad2OfNum2(s[14..16]);
    Pad2OfNum2(s[17..19]);
    var f := Format(t);
    assert f[0..4] == s[0..4] && f[5..7] == s[5..7] && f[8..10] == s[8..10];
    assert f[11..13] == s[11..13] && f[14..16] == s[14..16] && f[17..19] == s[17..19];
    assert forall i :: 0 <= i < 19 ==> f[i] == s[i] by {
      forall i | 0 <= i < 19
        ensures f[i] == s[i]
      {
        if i < 4 { assert f[i] == f[0..4][i]; }
        else if 4 < i < 7 { assert f[i] == f[5..7][i - 5]; }
        else if 7 < i < 10 { assert f[i] == f[8..10][i - 8]; }
        else if 10 < i < 13 { assert f[i] == f[11..13][i - 11]; }
        else if 13 < i < 16 { assert f[i] == f[14..16][i - 14]; }
        else if 16 < i { assert f[i] == f[17..19][i - 17]; }
      }
    }
  }

  /** Every valid timestamp, rendered, parses back to itself. */
  lemma ParseOfFormat(t: DateTime)
    requires Valid(t)
    ensures ParseDateTime(Format(t)) == Some(t)
  {
    var s := Format(t);
    assert s[0..4] == Pad4(t.year) && s[5..7] == Pad2(t.month) && s[8..10] == Pad2(t.day);
    assert s[11..13] == Pad2(t.hour) && s[14..16] == Pad2(t.minute) && s[17..19] == Pad2(t.second);
  }

  /** The date a `DateTimeOriginal` tag records: `None` when the tag is
      missing or empty, and `None` (not an error) when it does not parse. */
  function ImageDate(tag: Option<string>): (r: Option<Date>)
    ensures tag == None || tag == Some("") ==> r == None
    ensures r.Some? ==> exists t :: Valid(t) && tag == Some(Format(t)) && r.value == DateOf(t)
  {
    if tag.None? || tag.value == "" then None
    else
      match ParseDateTime(tag.value)
      case Some(t) =>
        FormatOfParse(tag.value);
        Some(DateOf(t))
      case None => None
  }

  /** Conversely, every rendered valid timestamp yields its date. */
  lemma ImageDateOfFormat(t: DateTime)
    requires Valid(t)
    ensures ImageDate(Some(Format(t))) == Some(DateOf(t))
  {
    ParseOfFormat(t);
  }

  lemma PadExamples()
    ensures Pad4(2023) == "2023" && Pad2(7) == "07" && Pad2(15) == "15"
    ensures Pad2(14) == "14" && Pad2(22) == "22" && Pad2(10) == "10"
  {
    assert Pad2(20) == "20" && Pad2(23) == "23";
  }

  /** Every field of a timestamp sits at its fixed place in the rendering. */
  lemma FormatFields(t: DateTime)
    requires Valid(t)
    ensures Format(t) == Pad4(t.year) + ":" + Pad2(t.month) + ":" + Pad2(t.day) + " "
                         + Pad2(t.hour) + ":" + Pad2(t.minute) + ":" + Pad2(t.second)
  {
  }

  lemma FormatExample()
    ensures Format(DateTime(2023, 7, 15, 14, 22, 10)) == "2023:07:15 14:22:10"
  {
    FormatFields(DateTime(2023, 7, 15, 14, 22, 10));
    PadExamples();
  }

  /** A well-formed tag yields its date. */
  lemma ImageDateExample()
    ensures ImageDate(Some("2023:07:15 14:22:10")) == Some(Date(2023, 7, 15))
  {
    FormatExample();
    ImageDateOfFormat(DateTime(2023, 7, 15, 14, 22, 10));
  }

  /** Text that is not a timestamp, and a timestamp with trailing characters,
      yield no date. */
  lemma ImageDateRejectsMalformed()
    ensures ImageDate(Some("not-a-date")) == None
    ensures ImageDate(Some("2023:07:15 14:22:10 ")) == None
  {
  }

  lemma PadLeapExamples()
    ensures Pad4(2024) == "2024" && Pad2(2) == "02" && Pad2(29) == "29" && Pad2(23) == "23" && Pad2(59) == "59"
  {
    assert Pad2(20) == "20" && Pad2(24) == "24";
  }

  lemma FormatLeapDay()
    ensures Format(DateTime(2024, 2, 29, 23, 59, 59)) == "2024:02:29 23:59:59"
  {
    FormatFields(DateTime(2024, 2, 29, 23, 59, 59));
    PadLeapExamples();
  }

  /** February 29th exists in a leap year ... */
  lemma ImageDateLeapDay()
    ensures ImageDate(Some("2024:02:29 23:59:59")) == Some(Date(2024, 2, 29))
  {
    FormatLeapDay();
    ImageDateOfFormat(DateTime(2024, 2, 29, 23, 59, 59));
  }

  /** A February 29th in a common year does not parse. */
  lemma NoLeapDayInCommonYear(s: string, y: int)
    requires HasShape(s) && 0 <= y < 10000 && !IsLeapYear(y)
    requires s[0..4] == Pad4(y) && s[5..7] == Pad2(2) && s[8..10] == Pad2(29)
    ensures ParseDateTime(s) == None
  {
    assert Fields(s).year == y && Fields(s).month == 2 && Fields(s).day == 29;
  }

  /** ... and not in any other year. */
  lemma ImageDateNoLeapDay()
    ensures ImageDate(Some("2023:02:29 00:00:00")) == None
  {
    var s := "2023:02:29 00:00:00";
    assert HasShape(s);
    PadExamples();
    PadLeapExamples();
    assert s[0..4] == "2023" by { assert s[0..4] == [s[0], s[1], s[2], s[3]]; }
    assert s[5..7] == "02" by { assert s[5..7] == [s[5], s[6]]; }
    assert s[8..10] == "29" by { assert s[8..10] == [s[8], s[9]]; }
    NoLeapDayInCommonYear(s, 2023);
  }
}

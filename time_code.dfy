/** The SRT time code `HH:MM:SS,mmm` of a millisecond offset
    (`format_time_srt`), and a parser for that layout. */
module TimeCode {
  import opened Wrappers
  import opened Decimal

  /** The four printed fields of a time code. */
  datatype Fields = Fields(hours: nat, minutes: nat, secs: nat, millis: nat)

  /** The field arithmetic of `format_time_srt`, read over the integers:
      `seconds` is the whole number of seconds, hours are never reduced
      modulo 24. */
  function Split(ms: nat): (f: Fields)
    ensures f.minutes < 60 && f.secs < 60 && f.millis < 1000
  {
    var seconds := ms / 1000;
    Fields(seconds / 3600, seconds % 3600 / 60, seconds % 60, ms % 1000)
  }

  /** The fields recombine to the offset they were taken from. */
  lemma SplitRecombines(ms: nat)
    ensures var f := Split(ms);
      f.hours * 3600000 + f.minutes * 60000 + f.secs * 1000 + f.millis == ms
  {
    var f := Split(ms);
    var seconds := ms / 1000;
    var rest := seconds % 3600;
    assert ms == 1000 * seconds + f.millis;
    assert seconds == 3600 * f.hours + rest;
    assert rest == 60 * (rest / 60) + rest % 60;
    ModSixty(seconds, 60 * f.hours + rest / 60, rest % 60);
    assert f.secs == rest % 60;
  }

  /** The remainder modulo 60 is the one remainder below 60. */
  lemma ModSixty(a: nat, q: nat, r: nat)
    requires a == 60 * q + r && r < 60
    ensures a % 60 == r
  {
  }

  // Positions of the fields, counted from the end of the text so that the
  // hours field may be as long as it needs to be.
  function HoursText(s: string): string requires |s| >= 12 { s[..|s| - 10] }
  function MinutesText(s: string): string requires |s| >= 12 { s[|s| - 9..|s| - 7] }
  function SecondsText(s: string): string requires |s| >= 12 { s[|s| - 6..|s| - 4] }
  function MillisText(s: string): string requires |s| >= 12 { s[|s| - 3..] }

  /** The layout `\d{2,}:\d{2}:\d{2},\d{3}`. */
  predicate IsTimeCode(s: string) {
    && |s| >= 12
    && AllDigits(HoursText(s))
    && s[|s| - 10] == ':'
    && AllDigits(MinutesText(s))
    && s[|s| - 7] == ':'
    && AllDigits(SecondsText(s))
    && s[|s| - 4] == ','
    && AllDigits(MillisText(s))
  }

  function Layout(h: string, m: string, sec: string, mil: string): string {
    h + ":" + m + ":" + sec + "," + mil
  }

  lemma FieldsOfLayout(h: string, m: string, sec: string, mil: string)
    requires |h| >= 2 && |m| == 2 && |sec| == 2 && |mil| == 3
    requires AllDigits(h) && AllDigits(m) && AllDigits(sec) && AllDigits(mil)
    ensures var s := Layout(h, m, sec, mil);
      && IsTimeCode(s)
      && HoursText(s) == h && MinutesText(s) == m
      && SecondsText(s) == sec && MillisText(s) == mil
  {
    var s := Layout(h, m, sec, mil);
    assert HoursText(s) == h;
    assert MinutesText(s) == m;
    assert SecondsText(s) == sec;
    assert MillisText(s) == mil;
  }

  /** `format_time_srt(ms)` for a non-negative integer offset. */
  function Format(ms: nat): (r: string)
    ensures IsTimeCode(r)
  {
    var f := Split(ms);
    var r := Layout(ZeroPad(f.hours, 2), ZeroPad(f.minutes, 2), ZeroPad(f.secs, 2), ZeroPad(f.millis, 3));
    FieldsOfLayout(ZeroPad(f.hours, 2), ZeroPad(f.minutes, 2), ZeroPad(f.secs, 2), ZeroPad(f.millis, 3));
    r
  }

  /** What each printed field of `Format(ms)` holds: hours padded to at
      least two digits and not wrapped at 24, minutes and seconds two
      digits below 60, milliseconds three digits below 1000. */
  lemma FormatFields(ms: nat)
    ensures var r := Format(ms);
      && |HoursText(r)| == (if |Show(ms / 3600000)| < 2 then 2 else |Show(ms / 3600000)|)
      && Value(HoursText(r)) == Split(ms).hours == ms / 3600000
      && |MinutesText(r)| == 2 && Value(MinutesText(r)) == Split(ms).minutes < 60
      && |SecondsText(r)| == 2 && Value(SecondsText(r)) == Split(ms).secs < 60
      && |MillisText(r)| == 3 && Value(MillisText(r)) == ms % 1000
  {
    var f := Split(ms);
    FieldsOfLayout(ZeroPad(f.hours, 2), ZeroPad(f.minutes, 2), ZeroPad(f.secs, 2), ZeroPad(f.millis, 3));
    assert ms / 1000 / 3600 == ms / 3600000;
  }

  /** Reads a time code back into milliseconds; None for text that is not
      in the layout or whose minutes or seconds are 60 or more. */
  function Parse(s: string): (r: Option<nat>)
    ensures r.Some? ==> IsTimeCode(s)
  {
    if !IsTimeCode(s) then None
    else
      var h, m, sec, mil := Value(HoursText(s)), Value(MinutesText(s)), Value(SecondsText(s)), Value(MillisText(s));
      if m < 60 && sec < 60 then Some(h * 3600000 + m * 60000 + sec * 1000 + mil) else None
  }

  /** Round trip: parsing is a left inverse of formatting. */
  lemma ParseFormat(ms: nat)
    ensures Parse(Format(ms)) == Some(ms)
  {
    var f := Split(ms);
    FormatFields(ms);
    ParseFields(Format(ms), f.hours, f.minutes, f.secs, f.millis);
    SplitRecombines(ms);
  }

  lemma ParseFields(s: string, h: nat, m: nat, sec: nat, mil: nat)
    requires IsTimeCode(s) && m < 60 && sec < 60
    requires Value(HoursText(s)) == h && Value(MinutesText(s)) == m
    requires Value(SecondsText(s)) == sec && Value(MillisText(s)) == mil
    ensures Parse(s) == Some(h * 3600000 + m * 60000 + sec * 1000 + mil)
  {
  }

  /** Distinct offsets get distinct time codes. */
  lemma FormatInjective(a: nat, b: nat)
    requires a != b
    ensures Format(a) != Format(b)
  {
    ParseFormat(a);
    ParseFormat(b);
  }

  /** `Format` in terms of already computed fields and padded texts. */
  lemma FormatFromParts(ms: nat, f: Fields, h: string, m: string, sec: string, mil: string)
    requires Split(ms) == f
    requires ZeroPad(f.hours, 2) == h && ZeroPad(f.minutes, 2) == m
    requires ZeroPad(f.secs, 2) == sec && ZeroPad(f.millis, 3) == mil
    ensures Format(ms) == Layout(h, m, sec, mil)
  {
  }

  lemma FormatZero()
    ensures Format(0) == "00:00:00,000"
  {
    PadSmall();
    PartsOf0();
    FormatFromParts(0, Fields(0, 0, 0, 0), "00", "00", "00", "000");
  }

  lemma PartsOf0()
    ensures Split(0) == Fields(0, 0, 0, 0)
    ensures Layout("00", "00", "00", "000") == "00:00:00,000"
  {
  }

  lemma PadSmall()
    ensures ZeroPad(0, 2) == "00" && ZeroPad(0, 3) == "000" && ZeroPad(1, 2) == "01" && ZeroPad(3, 2) == "03"
  {
    assert Show(0) == "0" && Show(1) == "1" && Show(3) == "3";
    assert Zeros(1) == "0" && Zeros(2) == "00";
  }

  lemma PadThreeDigits()
    ensures ZeroPad(500, 3) == "500"
  {
    assert Show(5) == "5";
    assert Show(50) == "50";
    assert Show(500) == "500";
  }

  lemma PadThirty()
    ensures ZeroPad(30, 2) == "30"
  {
    assert Show(3) == "3";
    assert Show(30) == "30";
  }

  lemma FormatOneHourOneMinuteOneAndAHalfSeconds()
    ensures Format(3661500) == "01:01:01,500"
  {
    PadSmall();
    PadThreeDigits();
    PartsOf3661500();
    FormatFromParts(3661500, Fields(1, 1, 1, 500), "01", "01", "01", "500");
  }

  lemma PartsOf3661500()
    ensures Split(3661500) == Fields(1, 1, 1, 500)
    ensures Layout("01", "01", "01", "500") == "01:01:01,500"
  {
  }

  /** Thirty hours print as `30`: the hours field does not wrap at 24. */
  lemma FormatThirtyHours()
    ensures Format(108000000) == "30:00:00,000"
  {
    PadSmall();
    PadThirty();
    PartsOf108000000();
    FormatFromParts(108000000, Fields(30, 0, 0, 0), "30", "00", "00", "000");
  }

  lemma PartsOf108000000()
    ensures Split(108000000) == Fields(30, 0, 0, 0)
    ensures Layout("30", "00", "00", "000") == "30:00:00,000"
  {
  }

  lemma FormatOneAndAHalfSeconds()
    ensures Format(1500) == "00:00:01,500"
  {
    PadSmall();
    PadThreeDigits();
    PartsOf1500();
    FormatFromParts(1500, Fields(0, 0, 1, 500), "00", "00", "01", "500");
  }

  lemma PartsOf1500()
    ensures Split(1500) == Fields(0, 0, 1, 500)
    ensures Layout("00", "00", "01", "500") == "00:00:01,500"
  {
  }

  lemma FormatThreeSeconds()
    ensures Format(3000) == "00:00:03,000"
  {
    PadSmall();
    PartsOf3000();
    FormatFromParts(3000, Fields(0, 0, 3, 0), "00", "00", "03", "000");
  }

  lemma PartsOf3000()
    ensures Split(3000) == Fields(0, 0, 3, 0)
    ensures Layout("00", "00", "03", "000") == "00:00:03,000"
  {
  }
}

/**
 * `formatTime`: the 24-hour "HH:MM" text of a time input shown in 12-hour
 * form, "h:MM AM" or "h:MM PM", with the minute text copied as it is.
 *
 * As written, only hours above 12 become "PM", so 12:MM (noon to one o'clock)
 * is shown as "12:MM AM", the same text as 00:MM (midnight). `FormatTime` is
 * the function as written; `FormatTimeCorrected` puts hours 12 to 23 in the
 * afternoon. `Parse12` reads a 12-hour text back under the usual convention
 * (12 AM is 00, 12 PM is 12); the corrected function is inverted by it on
 * every clock time, the one as written on every hour but 12.
 */
module TimeFormat {
  import opened Wrappers
  import opened Decimal
  import opened InputFormats

  /** `formatTime`, as written. */
  function FormatTime(t: string): string
    requires IsClockTime(t)
  {
    var intHour := Hour(t);
    var pm := intHour > 12;
    var intHour := if pm then intHour - 12 else intHour;
    var intHour := if intHour == 0 then 12 else intHour;
    Text(intHour) + ":" + t[3..] + " " + (if pm then "PM" else "AM")
  }

  /** `formatTime` with the afternoon starting at 12:00. */
  function FormatTimeCorrected(t: string): string
    requires IsClockTime(t)
  {
    var intHour := Hour(t);
    var pm := intHour >= 12;
    var intHour := if intHour > 12 then intHour - 12 else intHour;
    var intHour := if intHour == 0 then 12 else intHour;
    Text(intHour) + ":" + t[3..] + " " + (if pm then "PM" else "AM")
  }

  /** The "HH:MM" text of an hour and a two-digit minute text. */
  function ClockText(hour: nat, minuteText: string): (t: string)
    requires hour <= 23 && |minuteText| == 2 && AllDigits(minuteText) && Value(minuteText) <= 59
    ensures IsClockTime(t) && Hour(t) == hour && t[3..] == minuteText
  {
    var t := TwoDigits(hour) + ":" + minuteText;
    assert t[..2] == TwoDigits(hour) && t[3..] == minuteText;
    t
  }

  /** Reads "h:MM AM" or "hh:MM PM" (hour 1 to 12) back into "HH:MM". */
  function Parse12(s: string): (r: Option<string>)
    ensures r.Some? ==> IsClockTime(r.value)
  {
    if |s| < 7 || 8 < |s| then None
    else
      var k := |s| - 6; // the width of the hour text
      if s[k] != ':' || !AllDigits(s[..k]) || !AllDigits(s[k + 1..k + 3]) then None
      else
        var hour, minuteText, suffix := Value(s[..k]), s[k + 1..k + 3], s[k + 3..];
        if hour < 1 || 12 < hour || 59 < Value(minuteText) then None
        else if suffix == " AM" then Some(ClockText(hour % 12, minuteText))
        else if suffix == " PM" then Some(ClockText(hour % 12 + 12, minuteText))
        else None
  }

  /** The three cases of `formatTime` as written. */
  lemma FormatTimeCases(t: string)
    requires IsClockTime(t)
    ensures 13 <= Hour(t) ==> FormatTime(t) == Text(Hour(t) - 12) + ":" + t[3..] + " PM"
    ensures Hour(t) == 0 ==> FormatTime(t) == "12:" + t[3..] + " AM"
    ensures 1 <= Hour(t) <= 12 ==> FormatTime(t) == Text(Hour(t)) + ":" + t[3..] + " AM"
  {
    assert Text(12) == "12" by {
      assert Text(1) == "1";
    }
  }

  /** Reading back a 12-hour text with hour `h` and the minute text of `t`. */
  lemma ParseClock12(h: nat, t: string, pm: bool)
    requires IsClockTime(t) && 1 <= h <= 12
    ensures Parse12(Text(h) + ":" + t[3..] + " " + (if pm then "PM" else "AM"))
         == Some(ClockText(if pm then h % 12 + 12 else h % 12, t[3..]))
  {
    var period := if pm then "PM" else "AM";
    var s := Text(h) + ":" + t[3..] + " " + period;
    var k := |Text(h)|;
    assert k == 1 || k == 2 by {
      if h >= 10 {
        assert Text(h) == Text(h / 10) + [DigitChar(h % 10)];
      }
    }
    assert |s| == k + 6;
    assert s[..k] == Text(h) && s[k] == ':';
    assert s[k + 1..k + 3] == t[3..] && s[k + 3..] == " " + period;
    assert " " + period == if pm then " PM" else " AM";
    ValueOfText(h);
    assert Value(s[..k]) == h;
  }

  /** The corrected function is read back to the time it was given. */
  lemma FormatTimeCorrectedRoundTrip(t: string)
    requires IsClockTime(t)
    ensures Parse12(FormatTimeCorrected(t)) == Some(t)
  {
    var hour := Hour(t);
    var h12 := if hour > 12 then hour - 12 else if hour == 0 then 12 else hour;
    ParseClock12(h12, t, hour >= 12);
    TwoDigitsOfValue(t[..2]);
    assert t == t[..2] + ":" + t[3..];
  }

  /** Two clock times with different texts are shown differently once corrected. */
  lemma FormatTimeCorrectedInjective(t: string, u: string)
    requires IsClockTime(t) && IsClockTime(u) && t != u
    ensures FormatTimeCorrected(t) != FormatTimeCorrected(u)
  {
    FormatTimeCorrectedRoundTrip(t);
    FormatTimeCorrectedRoundTrip(u);
  }

  /** As written, the text is read back to the time it was given exactly when the hour is not 12. */
  lemma FormatTimeRoundTripIffNotNoonHour(t: string)
    requires IsClockTime(t)
    ensures Parse12(FormatTime(t)) == Some(t) <==> Hour(t) != 12
  {
    if Hour(t) != 12 {
      assert FormatTime(t) == FormatTimeCorrected(t);
      FormatTimeCorrectedRoundTrip(t);
    } else {
      ParseClock12(12, t, false);
      assert Parse12(FormatTime(t)).value[..2] == "00";
    }
  }

  /** As written, a time in the hour after noon gets the text of the same minute after midnight. */
  lemma NoonRendersLikeMidnight(t: string, u: string)
    requires IsClockTime(t) && IsClockTime(u)
    requires Hour(t) == 12 && Hour(u) == 0 && t[3..] == u[3..]
    ensures t != u && FormatTime(t) == FormatTime(u)
  {
    assert t[..2] != u[..2];
  }
}

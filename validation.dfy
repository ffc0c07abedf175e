/**
 * The form's two validators. A form value is "missing" when it is falsy, which
 * for a string means empty; the times are compared as strings, which on the
 * zero-padded "HH:MM" texts of a time input is the order of the day.
 * Resetting the form and the alert the validators show are presentation and
 * are not part of this model.
 */
module Validation {
  import opened StringOrder
  import opened InputFormats

  /** JavaScript truthiness of a string value. */
  predicate Truthy(s: string) {
    |s| > 0
  }

  /** `checkDateInvalid`: the date field is missing. */
  function CheckDateInvalid(date: string): (invalid: bool)
    ensures invalid <==> date == []
  {
    !Truthy(date)
  }

  /** `checkTimesInvalid`: a time is missing or the start is after the end (`startTime > endTime`). */
  function CheckTimesInvalid(startTime: string, endTime: string): (invalid: bool)
    ensures invalid <==> startTime == [] || endTime == [] || Less(endTime, startTime)
    ensures !invalid ==> !Less(endTime, startTime)
  {
    !Truthy(startTime) || !Truthy(endTime) || Less(endTime, startTime)
  }

  /**
   * On two clock times the string test rejects exactly the ranges whose end is
   * earlier in the day than their start: a range that starts and ends at the
   * same minute is accepted.
   */
  lemma TimesInvalidIffEndBeforeStart(startTime: string, endTime: string)
    requires IsClockTime(startTime) && IsClockTime(endTime)
    ensures CheckTimesInvalid(startTime, endTime) <==> MinutesOfDay(endTime) < MinutesOfDay(startTime)
  {
    ClockOrderIsNumeric(endTime, startTime);
  }

  /** An accepted range never has a negative duration. */
  lemma AcceptedRangeHasDuration(startTime: string, endTime: string)
    requires IsClockTime(startTime) && IsClockTime(endTime)
    requires !CheckTimesInvalid(startTime, endTime)
    ensures MinutesOfDay(endTime) - MinutesOfDay(startTime) >= 0
  {
    TimesInvalidIffEndBeforeStart(startTime, endTime);
  }
}

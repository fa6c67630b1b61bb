/**
 * `toDateObject`: a bookmark's `add_date` counts microseconds since the
 * epoch; the converter keeps all but the last three characters and reads
 * the rest as milliseconds.
 */
module Timestamp {
  import opened Wrappers
  import opened JsString
  import opened JsNumber

  /** A JavaScript `Date`: a time value in milliseconds since the epoch, or Invalid Date. */
  datatype Date = Valid(ms: int) | Invalid

  /** The largest magnitude of a valid time value (ECMA-262, TimeClip). */
  const MaxTimeValue: int := 8_640_000_000_000_000

  /**
   * `new Date(x)` for a number `x` (`None` is NaN). Every integer up to
   * MaxTimeValue is exact as an IEEE double, since MaxTimeValue < 2^53.
   */
  function NewDate(x: Option<int>): (d: Date)
    ensures d.Valid? <==> x.Some? && -MaxTimeValue <= x.value <= MaxTimeValue
    ensures d.Valid? ==> d.ms == x.value
  {
    match x
    case None => Invalid
    case Some(v) => if -MaxTimeValue <= v <= MaxTimeValue then Valid(v) else Invalid
  }

  /** `toDateObject(dateStr)`: absent exactly when the argument is absent or empty (the two falsy strings). */
  function ToDateObject(dateStr: Option<string>): (r: Option<Date>)
    ensures r.None? <==> dateStr == None || dateStr == Some("")
  {
    if dateStr.None? || dateStr.value == "" then None
    else Some(NewDate(StringToNumber(Slice(dateStr.value, 0, -3))))
  }

  /** For a digit string, the date is the microsecond count divided by 1000, rounded down. */
  lemma MicrosecondsToMilliseconds(s: string)
    requires s != [] && IsDigits(s)
    ensures ToDateObject(Some(s)) == Some(NewDate(Some(DigitsValue(s) / 1000)))
  {
    SliceDropsLast(s, 3);
    if |s| > 3 {
      DropThreeDigits(s);
    } else {
      assert Pow10(|s|) <= 1000;
    }
  }

  /** A non-empty string of at most three characters gives the epoch, not absent: its slice is "" and `Number("")` is 0. */
  lemma ShortStringIsEpoch(s: string)
    requires 0 < |s| <= 3
    ensures ToDateObject(Some(s)) == Some(Valid(0))
  {
    SliceDropsLast(s, 3);
  }

  /** A browser-written timestamp of `us` microseconds gives the date `us / 1000` ms, valid while that is within range. */
  lemma ExportedTimestamp(us: nat)
    ensures us / 1000 <= MaxTimeValue ==> ToDateObject(Some(DecimalString(us))) == Some(Valid(us / 1000))
    ensures us / 1000 > MaxTimeValue ==> ToDateObject(Some(DecimalString(us))) == Some(Invalid)
  {
    DecimalStringValue(us);
    MicrosecondsToMilliseconds(DecimalString(us));
  }
}

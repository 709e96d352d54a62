/** The date helper: checks `yyyy-MM-dd` text and redisplays it as `MMM dd yyyy`. */
module DateFormatter {
  import opened Wrappers
  import opened JavaString
  import opened Dates

  /** Parsing with the pattern `yyyy-MM-dd`: four-digit year, two-digit month and day, a real
      date, and a year-of-era of at least 1 (`0000` names no year of the current era). */
  function ParsePattern(s: string): (r: Option<Date>)
    ensures r.Some? ==> ValidDate(r.value) && r.value.year >= 1 && ParseIsoDate(s) == r
    ensures r.None? ==> ParseIsoDate(s).None? || ParseIsoDate(s).value.year == 0
  {
    match ParseIsoDate(s)
    case Some(d) => if d.year >= 1 then Some(d) else None
    case None => None
  }

  /** `formatDate`: null and blank text come back as they are; text whose trim parses is
      redisplayed; anything else comes back untouched, untrimmed. */
  function FormatDate(s: Option<string>): (r: Option<string>)
    ensures r.None? <==> s.None?
  {
    if s.None? || Trim(s.value) == [] then s
    else
      match ParsePattern(Trim(s.value))
      case Some(d) => Some(FormatPadded(d))
      case None => s
  }

  /** `isValidDate`: false for null and blank text, otherwise whether the trim parses. */
  predicate IsValidDate(s: Option<string>)
  {
    s.Some? && Trim(s.value) != [] && ParsePattern(Trim(s.value)).Some?
  }

  /** Null and blank text is left alone and is not a valid date. */
  lemma FormatDateBlank(s: Option<string>)
    requires s.None? || IsTrimBlank(s.value)
    ensures FormatDate(s) == s && !IsValidDate(s)
  {
    if s.Some? {
      TrimEmptyIff(s.value);
    }
  }

  /** A date of year 1 or later in ISO text, with any trimmable padding, is valid and comes out
      as `MMM dd yyyy`. */
  lemma FormatDateOfIso(s: string, p: string, d: Date, q: string)
    requires ValidDate(d) && d.year >= 1
    requires IsTrimBlank(p) && IsTrimBlank(q) && s == p + IsoText(d) + q
    ensures IsValidDate(Some(s))
    ensures FormatDate(Some(s)) == Some(FormatPadded(d))
  {
    TrimPadded(s, p, IsoText(d), q);
    ParseIsoText(d);
  }

  /** The display text of a date is its own trim and does not parse again. */
  lemma PaddedIsNotInput(d: Date)
    requires ValidDate(d)
    ensures Trim(FormatPadded(d)) == FormatPadded(d)
    ensures ParsePattern(FormatPadded(d)).None?
  {
    TrimOfTrimmed(FormatPadded(d));
    DisplayIsNotIso(d);
  }

  /** `formatDate` changes its argument exactly when `isValidDate` accepts it; in particular an
      invalid date is returned as it was given. */
  lemma FormatDateChangesIffValid(s: Option<string>)
    ensures FormatDate(s) == s <==> !IsValidDate(s)
  {
    if IsValidDate(s) {
      var d := ParsePattern(Trim(s.value)).value;
      if FormatDate(s) == s {
        assert s.value == FormatPadded(d);
        PaddedIsNotInput(d);
        assert false;
      }
    }
  }

  /** Formatting twice is formatting once: the output is never an input date again. */
  lemma FormatDateIdempotent(s: Option<string>)
    ensures FormatDate(FormatDate(s)) == FormatDate(s)
  {
    if IsValidDate(s) {
      var d := ParsePattern(Trim(s.value)).value;
      PaddedIsNotInput(d);
      TrimEmptyIff(FormatPadded(d));
    }
  }

  /** Year zero is an ISO date but not a `yyyy` year-of-era. */
  lemma YearZeroIsRejected()
    ensures ParseIsoDate("0000-01-01") == Some(Date(0, 1, 1))
    ensures !IsValidDate(Some("0000-01-01"))
  {
    ParseIsoText(Date(0, 1, 1));
    assert IsoText(Date(0, 1, 1)) == "0000-01-01";
    TrimOfTrimmed("0000-01-01");
  }
}

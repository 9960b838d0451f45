/**
 * `formatDateForInput`: turns a day-first date `DD-MM-YYYY` into the
 * `YYYY-MM-DD` form a date input accepts; every other string is kept as is.
 */
module Dates {

  /** `\d` without the `u` flag: an ASCII digit. */
  predicate IsDigit(c: char) {
    '0' <= c <= '9'
  }

  /** The pattern `^(\d{2})-(\d{2})-(\d{4})$`: exactly ten characters. */
  predicate IsDayFirst(s: string) {
    && |s| == 10
    && IsDigit(s[0]) && IsDigit(s[1]) && s[2] == '-'
    && IsDigit(s[3]) && IsDigit(s[4]) && s[5] == '-'
    && IsDigit(s[6]) && IsDigit(s[7]) && IsDigit(s[8]) && IsDigit(s[9])
  }

  /** The `YYYY-MM-DD` form. */
  predicate IsYearFirst(s: string) {
    && |s| == 10
    && IsDigit(s[0]) && IsDigit(s[1]) && IsDigit(s[2]) && IsDigit(s[3]) && s[4] == '-'
    && IsDigit(s[5]) && IsDigit(s[6]) && s[7] == '-'
    && IsDigit(s[8]) && IsDigit(s[9])
  }

  function FormatDateForInput(s: string): (r: string)
    ensures IsDayFirst(s) ==> IsYearFirst(r)
    ensures IsDayFirst(s) ==> r[..4] == s[6..] && r[5..7] == s[3..5] && r[8..] == s[..2]
    ensures !IsDayFirst(s) ==> r == s
  {
    if IsDayFirst(s) then s[6..10] + "-" + s[3..5] + "-" + s[0..2] else s
  }

  /** The inverse reordering, from `YYYY-MM-DD` back to `DD-MM-YYYY`. */
  function ToDayFirst(s: string): (r: string)
    requires IsYearFirst(s)
    ensures IsDayFirst(r)
  {
    s[8..10] + "-" + s[5..7] + "-" + s[0..4]
  }

  /** Reformatting a day-first date loses nothing: the inverse gives it back. */
  lemma FormatRoundTrip(s: string)
    requires IsDayFirst(s)
    ensures ToDayFirst(FormatDateForInput(s)) == s
  {
    var r := FormatDateForInput(s);
    assert r[8..10] == s[0..2] && r[5..7] == s[3..5] && r[0..4] == s[6..10];
    assert ToDayFirst(r) == s[0..2] + "-" + s[3..5] + "-" + s[6..10];
    assert s == s[0..2] + [s[2]] + s[3..5] + [s[5]] + s[6..10];
  }

  /** And every `YYYY-MM-DD` string is the image of exactly one day-first date. */
  lemma FormatOnto(t: string)
    requires IsYearFirst(t)
    ensures FormatDateForInput(ToDayFirst(t)) == t
  {
    var s := ToDayFirst(t);
    assert s[6..10] == t[0..4] && s[3..5] == t[5..7] && s[0..2] == t[8..10];
    assert t == t[0..4] + [t[4]] + t[5..7] + [t[7]] + t[8..10];
  }

  /** No string has both forms (position 2 is a digit in one and `-` in the other). */
  lemma FormsAreDisjoint(s: string)
    ensures !(IsDayFirst(s) && IsYearFirst(s))
  {
  }

  /** A string already in `YYYY-MM-DD` form passes through unchanged. */
  lemma FormatKeepsYearFirst(s: string)
    requires IsYearFirst(s)
    ensures FormatDateForInput(s) == s
  {
    FormsAreDisjoint(s);
  }

  /** Reformatting is idempotent: applying it to its own output changes nothing. */
  lemma FormatIdempotent(s: string)
    ensures FormatDateForInput(FormatDateForInput(s)) == FormatDateForInput(s)
  {
    if IsDayFirst(s) {
      FormatKeepsYearFirst(FormatDateForInput(s));
    }
  }

  /** The two fixed dates filled into the form. */
  lemma FixedDates()
    ensures FormatDateForInput("14-01-2026") == "2026-01-14"
    ensures FormatDateForInput("24-03-2026") == "2026-03-24"
  {
  }
}

/**
 * Calendar dates as app.py uses them: `parse_ddmmyy` and the comparison of
 * `datetime.date` values.
 */
module Dates {
  import opened Wrappers
  import opened Text

  /** A `datetime.date`: year, month, day. */
  datatype Date = Date(year: int, month: int, day: int)

  /** `a <= b` on dates: lexicographic on (year, month, day). */
  predicate OnOrBefore(a: Date, b: Date) {
    || a.year < b.year
    || (a.year == b.year && a.month < b.month)
    || (a.year == b.year && a.month == b.month && a.day <= b.day)
  }

  /** `<=` on dates is a total order, as Python's date comparison is. */
  lemma OnOrBeforeIsTotalOrder(a: Date, b: Date, c: Date)
    ensures OnOrBefore(a, a)
    ensures OnOrBefore(a, b) && OnOrBefore(b, a) ==> a == b
    ensures OnOrBefore(a, b) && OnOrBefore(b, c) ==> OnOrBefore(a, c)
    ensures OnOrBefore(a, b) || OnOrBefore(b, a)
  {
  }

  /**
   * `parse_ddmmyy(s)`: the day-first parser `dtparse` applied to the stripped
   * text, unless nothing is left after stripping; `None` stands for a missing
   * date and for the exception the parser raises on text it cannot read.
   */
  function ParseDdmmyy(s: string, dtparse: string -> Option<Date>): Option<Date> {
    var t := Strip(s);
    if t == [] then None else dtparse(t)
  }

  /**
   * A blank (or empty) value parses to `None` without consulting the parser;
   * any other value parses to what the parser makes of its stripped text.
   */
  lemma ParseDdmmyySpec(s: string, dtparse: string -> Option<Date>)
    ensures IsBlank(s) ==> ParseDdmmyy(s, dtparse) == None
    ensures !IsBlank(s) ==> ParseDdmmyy(s, dtparse) == dtparse(Strip(s))
  {
    StripSpec(s);
  }

  /** White space around the date text does not change the parsed date. */
  lemma ParseIgnoresPadding(pre: string, s: string, post: string, dtparse: string -> Option<Date>)
    requires IsBlank(pre) && IsBlank(post)
    ensures ParseDdmmyy(pre + s + post, dtparse) == ParseDdmmyy(s, dtparse)
  {
    StripIgnoresPadding(pre, s, post);
  }
}

/** The `date-string-asc` and `date-string-desc` sort plug-ins for the data
    table. `parseDate` is a parameter: it yields the date's time value, or None
    for an invalid date, whose time value is NaN (every comparison with NaN is
    false). */
module DateSort {
  import opened Wrappers

  /** `a < b` on time values, false when either is NaN. */
  predicate Less(a: Option<int>, b: Option<int>) {
    a.Some? && b.Some? && a.value < b.value
  }

  /** `date-string-asc`. */
  function Asc(parse: string -> Option<int>, x: string, y: string): (r: int)
    ensures r == -1 <==> Less(parse(x), parse(y))
    ensures r == 1 <==> Less(parse(y), parse(x))
    ensures r == 0 || r == -1 || r == 1
  {
    var a, b := parse(x), parse(y);
    if Less(a, b) then -1 else if Less(b, a) then 1 else 0
  }

  /** `date-string-desc`. */
  function Desc(parse: string -> Option<int>, x: string, y: string): (r: int)
    ensures r == 1 <==> Less(parse(x), parse(y))
    ensures r == -1 <==> Less(parse(y), parse(x))
  {
    var a, b := parse(x), parse(y);
    if Less(a, b) then 1 else if Less(b, a) then -1 else 0
  }

  /** Descending order is ascending order negated, for every pair of strings. */
  lemma DescIsNegatedAsc(parse: string -> Option<int>, x: string, y: string)
    ensures Desc(parse, x, y) == -Asc(parse, x, y)
  {
  }

  /** Swapping the arguments negates the result, and a string compares equal to
      itself. */
  lemma AscAntisymmetricReflexive(parse: string -> Option<int>, x: string, y: string)
    ensures Asc(parse, x, y) == -Asc(parse, y, x)
    ensures Asc(parse, x, x) == 0
  {
  }

  /** On valid dates the comparator orders by time value and is transitive. */
  lemma AscTransitiveOnValidDates(parse: string -> Option<int>, x: string, y: string, z: string)
    requires parse(x).Some? && parse(y).Some? && parse(z).Some?
    requires Asc(parse, x, y) <= 0 && Asc(parse, y, z) <= 0
    ensures Asc(parse, x, z) <= 0
  {
  }

  /** One invalid date breaks transitivity of "compares equal": it is equal to
      every date, while two valid dates around it are not equal to each other. */
  lemma InvalidDateBreaksTransitivity()
    ensures var parse := (s: string) => if s == "a" then Some(1) else if s == "c" then Some(2) else None;
      Asc(parse, "a", "b") == 0 && Asc(parse, "b", "c") == 0 && Asc(parse, "a", "c") == -1
  {
  }
}

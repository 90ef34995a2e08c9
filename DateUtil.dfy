/**
 * Elapsed whole days between two instants and their human-readable form.
 * The source reads the clock inside `daysAgo`; here the current instant
 * `now` is a parameter, in milliseconds like every other time.
 */
module DateUtil {
  import opened Text

  const MsPerDay: nat := 1000 * 60 * 60 * 24

  function Abs(x: int): nat {
    if x < 0 then -x else x
  }

  /** `daysAgo`: the number of whole days between `date` and `now`, in either direction. */
  function DaysAgo(date: int, now: int): (d: nat)
    ensures d * MsPerDay <= Abs(now - date) < (d + 1) * MsPerDay
  {
    Abs(now - date) / MsPerDay
  }

  /** A date `x` milliseconds ahead of `now` is as many days away as one `x` milliseconds behind. */
  lemma DaysAgoSymmetric(now: int, x: int)
    ensures DaysAgo(now + x, now) == DaysAgo(now - x, now)
  {
  }

  lemma DaysAgoExamples(now: int)
    ensures DaysAgo(now, now) == 0
    ensures DaysAgo(now - MsPerDay, now) == 1
    ensures DaysAgo(now - MsPerDay + 1, now) == 0
  {
  }

  /** `isOlderThan`: strictly more than `days` whole days lie between `date` and `now`. */
  function IsOlderThan(date: int, days: int, now: int): (r: bool)
    ensures days < 0 ==> r
    ensures days >= 0 ==> (r <==> Abs(now - date) >= (days + 1) * MsPerDay)
  {
    var d := DaysAgo(date, now);
    assert days >= 0 && d > days ==> d * MsPerDay >= (days + 1) * MsPerDay by {
      if days >= 0 && d > days {
        MulMonotone(days + 1, d, MsPerDay);
      }
    }
    assert days >= 0 && d <= days ==> (d + 1) * MsPerDay <= (days + 1) * MsPerDay by {
      if days >= 0 && d <= days {
        MulMonotone(d + 1, days + 1, MsPerDay);
      }
    }
    d > days
  }

  lemma MulMonotone(a: nat, b: nat, m: nat)
    requires a <= b
    ensures a * m <= b * m
  {
  }

  /** A branch exactly `n` days old is not older than `n` days; one millisecond more does not change that. */
  lemma ExactlyNDaysIsNotOlder(now: int, n: nat)
    ensures !IsOlderThan(now - n * MsPerDay, n, now)
    ensures IsOlderThan(now - (n + 1) * MsPerDay, n, now)
  {
  }

  /** The unit an age is counted in. */
  datatype Unit = Day | Week | Month | Year

  /** What `formatDaysAgo` says: "today", or a count of some unit. */
  datatype Age = Today | Ago(count: nat, unit: Unit)

  function UnitDays(u: Unit): nat {
    match u
    case Day => 1
    case Week => 7
    case Month => 30
    case Year => 365
  }

  /**
   * The bucket of the if-chain in `formatDaysAgo`: days below a week, whole
   * weeks below 30 days, whole 30-day months below 365 days, whole years after.
   */
  function AgeOf(days: nat): (a: Age)
    ensures a == Today <==> days == 0
    ensures a.Ago? ==> 1 <= a.count
                       && a.count * UnitDays(a.unit) <= days < (a.count + 1) * UnitDays(a.unit)
    ensures a.Ago? ==> (a.unit == Day <==> days < 7)
    ensures a.Ago? ==> (a.unit == Week <==> 7 <= days < 30) && (a.unit == Week ==> a.count <= 4)
    ensures a.Ago? ==> (a.unit == Month <==> 30 <= days < 365) && (a.unit == Month ==> a.count <= 12)
    ensures a.Ago? ==> (a.unit == Year <==> 365 <= days)
  {
    if days == 0 then Today
    else if days == 1 then Ago(1, Day)
    else if days < 7 then Ago(days, Day)
    else if days < 30 then Ago(days / 7, Week)
    else if days < 365 then Ago(days / 30, Month)
    else Ago(days / 365, Year)
  }

  function UnitWord(u: Unit): string {
    match u
    case Day => "day"
    case Week => "week"
    case Month => "month"
    case Year => "year"
  }

  function Plural(n: nat): string {
    if n == 1 then "" else "s"
  }

  /** The text of an age: "today", or "<count> <unit> ago", the unit singular only for a count of one. */
  function Render(a: Age): string {
    match a
    case Today => "today"
    case Ago(n, u) => NatToString(n) + " " + UnitWord(u) + Plural(n) + " ago"
  }

  /** `formatDaysAgo(date)` with the clock passed in: its text reads back as the bucket of the elapsed days. */
  function FormatDaysAgo(date: int, now: int): (s: string)
    ensures ParseAge(s) == Some(AgeOf(DaysAgo(date, now)))
  {
    ParseRender(AgeOf(DaysAgo(date, now)));
    Render(AgeOf(DaysAgo(date, now)))
  }

  lemma FormatBoundariesDays()
    ensures Render(AgeOf(0)) == "today"
    ensures Render(AgeOf(1)) == "1 day ago"
    ensures Render(AgeOf(6)) == "6 days ago"
  {
    assert NatToString(1) == "1";
    assert NatToString(6) == "6";
  }

  lemma FormatBoundariesWeeks()
    ensures Render(AgeOf(7)) == "1 week ago"
    ensures Render(AgeOf(29)) == "4 weeks ago"
  {
    assert AgeOf(7) == Ago(1, Week);
    assert AgeOf(29) == Ago(4, Week);
    assert NatToString(1) == "1";
    assert NatToString(4) == "4";
  }

  lemma FormatBoundariesMonths()
    ensures Render(AgeOf(30)) == "1 month ago"
    ensures Render(AgeOf(364)) == "12 months ago"
  {
    assert AgeOf(30) == Ago(1, Month);
    assert AgeOf(364) == Ago(12, Month);
    assert NatToString(1) == "1";
    assert NatToString(12) == "12" by {
      assert NatToString(12 / 10) == "1";
    }
  }

  lemma FormatBoundariesYears()
    ensures Render(AgeOf(365)) == "1 year ago"
    ensures Render(AgeOf(730)) == "2 years ago"
  {
    assert AgeOf(365) == Ago(1, Year);
    assert AgeOf(730) == Ago(2, Year);
    assert NatToString(1) == "1";
    assert NatToString(2) == "2";
  }

  /** Reads the unit word, with its plural ending, out of the tail of a rendered age. */
  function UnitOfTail(tail: string, plural: string): Option<Unit> {
    if tail == " day" + plural + " ago" then Some(Day)
    else if tail == " week" + plural + " ago" then Some(Week)
    else if tail == " month" + plural + " ago" then Some(Month)
    else if tail == " year" + plural + " ago" then Some(Year)
    else None
  }

  /** Reads a rendered age back: the inverse of `Render`. */
  function ParseAge(s: string): Option<Age> {
    if s == "today" then Some(Today)
    else
      var ds := DigitPrefix(s);
      if ds == [] then None
      else
        var n := DigitsValue(ds);
        match UnitOfTail(s[|ds|..], Plural(n))
        case Some(u) => Some(Ago(n, u))
        case None => None
  }

  lemma UnitOfRenderedTail(u: Unit, plural: string)
    ensures UnitOfTail(" " + UnitWord(u) + plural + " ago", plural) == Some(u)
  {
    var t := " " + UnitWord(u) + plural + " ago";
    match u
    case Day =>
    case Week =>
      assert t[1] != (" day" + plural + " ago")[1];
    case Month =>
      assert t[1] != (" day" + plural + " ago")[1];
      assert t[1] != (" week" + plural + " ago")[1];
    case Year =>
      assert t[1] != (" day" + plural + " ago")[1];
      assert t[1] != (" week" + plural + " ago")[1];
      assert t[1] != (" month" + plural + " ago")[1];
  }

  /** The text of every age with a positive count determines that age. */
  lemma ParseRender(a: Age)
    requires a.Ago? ==> a.count >= 1
    ensures ParseAge(Render(a)) == Some(a)
  {
    if a.Ago? {
      var n, u := a.count, a.unit;
      var tail := " " + UnitWord(u) + Plural(n) + " ago";
      var digits := NatToString(n);
      var s := Render(a);
      assert s == digits + tail;
      assert s != "today" by {
        assert IsDigit(s[0]);
      }
      DigitPrefixOf(digits, tail);
      assert s[|digits|..] == tail;
      DigitsOfNat(n);
      UnitOfRenderedTail(u, Plural(n));
    }
  }

  /** Two day counts render alike exactly when they fall in the same bucket with the same count. */
  lemma FormatDeterminesBucket(d1: nat, d2: nat)
    ensures Render(AgeOf(d1)) == Render(AgeOf(d2)) <==> AgeOf(d1) == AgeOf(d2)
  {
    if Render(AgeOf(d1)) == Render(AgeOf(d2)) {
      ParseRender(AgeOf(d1));
      ParseRender(AgeOf(d2));
    }
  }
}

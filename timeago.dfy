/** `timeAgo`: the relative publication time on a card, reduced to the unit and the offset it
    passes to the relative-time formatter. */
module TimeLabel {
  import opened Values

  const MsPerMinute: nat := 60000
  const MsPerHour: nat := 3600000
  const MsPerDay: nat := 86400000

  /** The label: the placeholder dash, "just now", or an offset in one unit (negative for the
      past, as given to the formatter). */
  datatype Label = Placeholder | JustNow | Minutes(offset: int) | Hours(offset: int) | Days(offset: int)

  function Abs(x: int): nat
  {
    if x < 0 then -x else x
  }

  /** `Math.floor(x / d)` for a positive divisor: Dafny's division on `int` already rounds
      towards negative infinity when the divisor is positive. */
  function Floor(x: int, d: nat): int
    requires d > 0
  {
    x / d
  }

  /** `timeAgo(date)` at the instant `now`, both in milliseconds; the buckets come from three
      successive floored divisions, exactly as written. */
  function TimeAgo(publishedAt: Option<int>, now: int): (r: Label)
    ensures r == Placeholder <==> publishedAt.None?
  {
    if publishedAt.None? then Placeholder
    else
      var diffSec := Floor(now - publishedAt.value, 1000);
      var mins := Floor(diffSec, 60);
      var hours := Floor(mins, 60);
      var days := Floor(hours, 24);
      if Abs(mins) < 1 then JustNow
      else if Abs(mins) < 60 then Minutes(-mins)
      else if Abs(hours) < 24 then Hours(-hours)
      else Days(-days)
  }

  /** Uniqueness of the floored quotient. */
  lemma {:induction false} DivUnique(x: int, d: nat, q: int, r: int)
    requires d > 0 && 0 <= r < d && x == d * q + r
    ensures x / d == q
  {
    var q', r' := x / d, x % d;
    assert x == d * q' + r';
    if q' > q {
      assert d * q' - d * q == d * (q' - q);
      MulAtLeast(d, q' - q);
    } else if q' < q {
      assert d * q - d * q' == d * (q - q');
      MulAtLeast(d, q - q');
    }
  }

  lemma MulAtLeast(d: nat, k: int)
    requires k >= 1
    ensures d * k >= d
  {
    assert d * k == d + d * (k - 1);
  }

  /** Two floored divisions are one floored division by the product. */
  lemma DivDiv(x: int, a: nat, b: nat)
    requires a > 0 && b > 0
    ensures x / a / b == x / (a * b)
  {
    var q, r := x / a, x % a;
    var q2, r2 := q / b, q % b;
    assert x == a * q + r;
    assert q == b * q2 + r2;
    assert x == (a * b) * q2 + (a * r2 + r) by {
      assert a * q == a * (b * q2) + a * r2;
      assert a * (b * q2) == (a * b) * q2;
    }
    assert a * r2 <= a * (b - 1) by { MulMonotone(a, r2, b - 1); }
    assert a * (b - 1) == a * b - a;
    DivUnique(x, a * b, q2, a * r2 + r);
  }

  lemma MulMonotone(a: nat, x: int, y: int)
    requires x <= y
    ensures a * x <= a * y
  {
    assert a * y - a * x == a * (y - x);
  }

  /** For a date `diff` milliseconds in the past the label is: "just now" below a minute, whole
      minutes below an hour, whole hours below a day, and whole days after that. */
  lemma PastBuckets(publishedAt: int, now: int)
    requires now >= publishedAt
    ensures var diff := now - publishedAt;
      && (diff < MsPerMinute ==> TimeAgo(Some(publishedAt), now) == JustNow)
      && (MsPerMinute <= diff < MsPerHour ==> TimeAgo(Some(publishedAt), now) == Minutes(-(diff / MsPerMinute)))
      && (MsPerHour <= diff < MsPerDay ==> TimeAgo(Some(publishedAt), now) == Hours(-(diff / MsPerHour)))
      && (MsPerDay <= diff ==> TimeAgo(Some(publishedAt), now) == Days(-(diff / MsPerDay)))
  {
    var diff := now - publishedAt;
    DivDiv(diff, 1000, 60);
    DivDiv(diff, MsPerMinute, 60);
    DivDiv(diff, MsPerHour, 24);
    var mins := diff / MsPerMinute;
    var hours := diff / MsPerHour;
    if diff >= MsPerMinute {
      DivUnique(MsPerMinute, MsPerMinute, 1, 0);
      DivMonotone(MsPerMinute, diff, MsPerMinute);
    }
    if diff < MsPerHour {
      DivUnique(MsPerHour - 1, MsPerMinute, 59, MsPerMinute - 1);
      DivMonotone(diff, MsPerHour - 1, MsPerMinute);
    } else {
      DivUnique(MsPerHour, MsPerHour, 1, 0);
      DivMonotone(MsPerHour, diff, MsPerHour);
      DivUnique(MsPerHour, MsPerMinute, 60, 0);
      DivMonotone(MsPerHour, diff, MsPerMinute);
    }
    if diff < MsPerDay {
      DivUnique(MsPerDay - 1, MsPerHour, 23, MsPerHour - 1);
      DivMonotone(diff, MsPerDay - 1, MsPerHour);
    } else {
      DivUnique(MsPerDay, MsPerHour, 24, 0);
      DivMonotone(MsPerDay, diff, MsPerHour);
    }
    if diff < MsPerMinute {
      DivUnique(diff, MsPerMinute, 0, diff);
    }
  }

  lemma {:induction false} DivMonotone(x: int, y: int, d: nat)
    requires d > 0 && x <= y
    ensures x / d <= y / d
  {
    if x / d > y / d {
      MulAtLeast(d, x / d - y / d);
    }
  }

  /** A date one second ahead of the clock is not "just now": the floor of -1/60 is -1, so the
      label reads "in 1 minute". */
  lemma SlightlyFutureIsOneMinute(now: int)
    ensures TimeAgo(Some(now + 1000), now) == Minutes(1)
  {
    DivUnique(-1000, 1000, -1, 0);
    DivUnique(-1, 60, -1, 59);
  }
}

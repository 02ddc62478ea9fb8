/** The next aligned run time, in a time zone whose offset is a fixed number of minutes. */
module Schedule {
  const MINUTE: int := 60
  const HOUR: int := 3600
  const DAY: int := 86400

  /** Broken-down local time. The date is a day number: only the clock fields are ever changed. */
  datatype Tm = Tm(day: int, hour: int, min: int, sec: int)

  function LocalTime(time: int, offset: int): Tm {
    var local := time + offset * MINUTE;
    Tm(local / DAY, local / HOUR % 24, local / MINUTE % 60, local % MINUTE)
  }

  /** `mktime`, which takes fields outside their ranges too. */
  function MkTime(tm: Tm, offset: int): int {
    tm.day * DAY + tm.hour * HOUR + tm.min * MINUTE + tm.sec - offset * MINUTE
  }

  lemma MkTimeOfLocalTime(time: int, offset: int)
    ensures MkTime(LocalTime(time, offset), offset) == time
  {
    Clock(time + offset * MINUTE);
  }

  lemma Clock(local: int)
    ensures local == local / DAY * DAY + local / HOUR % 24 * HOUR + local / MINUTE % 60 * MINUTE + local % MINUTE
  {
    var minutes := local / 60;
    var hours := minutes / 60;
    assert local / HOUR == hours;
    assert local / DAY == hours / 24;
    assert hours == hours / 24 * 24 + hours % 24;
    assert minutes == hours * 60 + minutes % 60;
  }

  /** The minutes between the instants of the hour a plugin is to run at. */
  function MinuteStep(interval: int): (n: int)
    ensures 1 <= n <= 60
  {
    if interval < 60 then 1 else if interval < 3600 then interval / 60 else 60
  }

  /** An instant to run at: a whole minute of local time that is a multiple of the step within its hour. */
  predicate IsAligned(time: int, offset: int, interval: int) {
    var tm := LocalTime(time, offset);
    tm.sec == 0 && tm.min % MinuteStep(interval) == 0
  }

  /** The minute of the hour the next run is at, 60 being the top of the next hour. */
  function NextMinute(min: int, step: int): int
    requires step > 0
  {
    var next := (min / step + 1) * step;
    if next >= 60 then 60 else next
  }

  lemma Quotient(n: int, step: int)
    requires step > 0 && n >= 0
    ensures n / step * step <= n < n / step * step + step && (n / step + 1) * step == n / step * step + step
    ensures n / step >= 0
  {
    assert n == n / step * step + n % step;
  }

  lemma NextMultiple(n: int, step: int)
    requires step > 0 && n >= 0
    ensures n < (n / step + 1) * step <= n + step
    ensures forall m :: n < m < (n / step + 1) * step ==> m % step != 0
    ensures (n / step + 1) * step % step == 0
  {
    var k := n / step;
    Quotient(n, step);
    forall m | n < m < (k + 1) * step
      ensures m % step != 0
    {
      Unique(k, m - k * step, step);
    }
    Unique(k + 1, 0, step);
  }

  lemma {:induction false} AtLeast(d: nat, step: int)
    requires d >= 1 && step > 0
    ensures d * step >= step
  {
    if d > 1 {
      AtLeast(d - 1, step);
      assert d * step == (d - 1) * step + step;
    }
  }

  /** Quotient and remainder are determined. */
  lemma Unique(k: nat, rest: int, step: int)
    requires 0 <= rest < step
    ensures (k * step + rest) % step == rest
  {
    var y := k * step + rest;
    var q := y / step;
    assert y == q * step + y % step;
    assert (k - q) * step == k * step - q * step == -((q - k) * step);
    if q < k {
      AtLeast(k - q, step);
    } else if q > k {
      AtLeast(q - k, step);
    }
  }

  predicate AlignedLocal(local: int, step: int)
    requires step > 0
  {
    local % 60 == 0 && local / 60 % 60 % step == 0
  }

  /** Alignment, seen from seconds of local time. */
  lemma AlignedMinute(time: int, offset: int, interval: int)
    ensures IsAligned(time, offset, interval) <==> AlignedLocal(time + offset * MINUTE, MinuteStep(interval))
  {
  }

  /** In minutes: no aligned one between `now` and the next minute in the hour. */
  lemma NoneBetween(now: int, minute: int, step: int)
    requires 1 <= step <= 60
    requires now < minute < now / 60 * 60 + NextMinute(now % 60, step)
    ensures minute % 60 % step != 0
  {
    NextMultiple(now % 60, step);
    assert minute / 60 == now / 60;
    assert now % 60 < minute % 60 < (now % 60 / step + 1) * step;
  }

  lemma LeastAligned(now: int, offset: int, interval: int, r: int)
    requires var minute := (now + offset * MINUTE) / 60;
             r + offset * MINUTE == (minute / 60 * 60 + NextMinute(minute % 60, MinuteStep(interval))) * 60
    ensures now < r <= now + MinuteStep(interval) * MINUTE
    ensures IsAligned(r, offset, interval)
    ensures forall t :: now < t < r ==> !IsAligned(t, offset, interval)
  {
    var local, step := now + offset * MINUTE, MinuteStep(interval);
    After(local, step);
    WholeMinute(local / 60 / 60 * 60 + NextMinute(local / 60 % 60, step), step);
    hide NextMinute, IsAligned, AlignedLocal;
    AlignedMinute(r, offset, interval);
    forall t | now < t < r
      ensures !IsAligned(t, offset, interval)
    {
      NotBefore(local, t + offset * MINUTE, step);
      AlignedMinute(t, offset, interval);
    }
  }

  lemma WholeMinute(minute: int, step: int)
    requires step > 0 && minute % 60 % step == 0
    ensures AlignedLocal(minute * 60, step)
  {
    assert minute * 60 / 60 == minute;
  }

  lemma After(local: int, step: int)
    requires 1 <= step <= 60
    ensures var minute := local / 60 / 60 * 60 + NextMinute(local / 60 % 60, step);
            local < minute * 60 <= local + step * 60 && minute % 60 % step == 0
  {
    NextMultiple(local / 60 % 60, step);
    var next := NextMinute(local / 60 % 60, step);
    var minute := local / 60 / 60 * 60 + next;
    assert local / 60 == local / 60 / 60 * 60 + local / 60 % 60;
    assert minute % 60 == if next == 60 then 0 else next;
  }

  /** The same in seconds of local time. */
  lemma NotBefore(local: int, t: int, step: int)
    requires 1 <= step <= 60
    requires local < t < (local / 60 / 60 * 60 + NextMinute(local / 60 % 60, step)) * 60
    ensures !AlignedLocal(t, step)
  {
    if t % 60 == 0 {
      NoneBetween(local / 60, t / 60, step);
    }
  }

  /** On the hour, in local time. */
  predicate OnTheHour(time: int, offset: int) {
    (time + offset * 60) % 3600 == 0
  }

  predicate OnTheMinute(time: int, offset: int) {
    (time + offset * 60) % 60 == 0
  }

  /** On a minute of the hour that is a multiple of `k`. */
  predicate OnMultiple(time: int, offset: int, k: int)
    requires k > 0
  {
    OnTheMinute(time, offset) && (time + offset * 60) % 3600 / 60 % k == 0
  }

  lemma HourAndMinute(local: int)
    ensures local % 3600 / 60 == local / 60 % 60
    ensures local % 3600 == 0 <==> local % 60 == 0 && local / 60 % 60 == 0
  {
    assert local == local / 3600 * 3600 + local % 3600;
    assert local / 60 == local / 3600 * 60 + local % 3600 / 60;
    assert local % 60 == local % 3600 % 60;
  }

  /** Which instants are aligned: for intervals of an hour and more, the full hours; for those of less than a minute,
      the full minutes; for all between, the minutes that are multiples of the whole minutes in the interval. */
  lemma AlignedMeans(time: int, offset: int, interval: int)
    ensures interval >= 3600 ==> (IsAligned(time, offset, interval) <==> OnTheHour(time, offset))
    ensures interval < 60 ==> (IsAligned(time, offset, interval) <==> OnTheMinute(time, offset))
    ensures forall k :: 0 < k && 60 * k <= interval < 60 * k + 60 && interval < 3600 ==>
              (IsAligned(time, offset, interval) <==> OnMultiple(time, offset, k))
  {
    AlignedMinute(time, offset, interval);
    HourAndMinute(time + offset * MINUTE);
  }

  lemma NextMeans(now: int, offset: int, interval: int, r: int)
    requires now < r <= now + MinuteStep(interval) * MINUTE && IsAligned(r, offset, interval)
    requires forall t :: now < t < r ==> !IsAligned(t, offset, interval)
    ensures interval >= 3600 ==>
              r <= now + 3600 && OnTheHour(r, offset) && forall t :: now < t < r ==> !OnTheHour(t, offset)
    ensures interval < 60 ==>
              r <= now + 60 && OnTheMinute(r, offset) && forall t :: now < t < r ==> !OnTheMinute(t, offset)
    ensures forall k :: 0 < k && 60 * k <= interval < 60 * k + 60 && interval < 3600 ==>
              r <= now + 60 * k && OnMultiple(r, offset, k) && forall t :: now < t < r ==> !OnMultiple(t, offset, k)
  {
    hide IsAligned, OnTheHour, OnTheMinute, OnMultiple;
    AlignedMeans(r, offset, interval);
    forall t | now < t < r
      ensures interval >= 3600 ==> !OnTheHour(t, offset)
      ensures interval < 60 ==> !OnTheMinute(t, offset)
    {
      AlignedMeans(t, offset, interval);
    }
    forall k | 0 < k && 60 * k <= interval < 60 * k + 60 && interval < 3600
      ensures r <= now + 60 * k && OnMultiple(r, offset, k) && forall t :: now < t < r ==> !OnMultiple(t, offset, k)
    {
      assert MinuteStep(interval) == k;
      forall t | now < t < r
        ensures !OnMultiple(t, offset, k)
      {
        AlignedMeans(t, offset, interval);
      }
    }
  }

  /** Setting the clock fields sets the local minute. */
  lemma InFields(now: int, offset: int, r: int, min: int)
    requires var tm := LocalTime(now, offset); r == MkTime(tm.(min := min, sec := 0), offset)
    ensures var minute := (now + offset * MINUTE) / 60;
            r + offset * MINUTE == (minute / 60 * 60 + min) * 60 && LocalTime(now, offset).min == minute % 60
  {
    var local := now + offset * MINUTE;
    assert local / HOUR == local / 60 / 60;
  }

  /** `calculate_next_aligned_time`: the least aligned instant after `now`, at most one step ahead. That is the next
      full hour from 3600 seconds on, the next full minute below 60, and between them the next minute that is a
      multiple of the whole minutes in the interval. */
  method CalculateNextAlignedTime(now: int, offset: int, intervalSec: int) returns (r: int)
    ensures now < r
    ensures intervalSec >= 3600 ==>
              r <= now + 3600 && OnTheHour(r, offset) && forall t :: now < t < r ==> !OnTheHour(t, offset)
    ensures intervalSec < 60 ==>
              r <= now + 60 && OnTheMinute(r, offset) && forall t :: now < t < r ==> !OnTheMinute(t, offset)
    ensures forall k :: 0 < k && 60 * k <= intervalSec < 60 * k + 60 && intervalSec < 3600 ==>
              r <= now + 60 * k && OnMultiple(r, offset, k) && forall t :: now < t < r ==> !OnMultiple(t, offset, k)
    ensures now < r <= now + MinuteStep(intervalSec) * MINUTE
    ensures IsAligned(r, offset, intervalSec)
    ensures forall t :: now < t < r ==> !IsAligned(t, offset, intervalSec)
  {
    var tm := LocalTime(now, offset);
    ghost var was := tm;
    if intervalSec < 60 {
      tm := tm.(sec := 0);
      tm := tm.(min := tm.min + 1);
      r := MkTime(tm, offset);
    } else if intervalSec < 3600 {
      var intervalMin := intervalSec / 60;
      var currentMin := tm.min;
      var nextMin := (currentMin / intervalMin + 1) * intervalMin;
      if nextMin >= 60 {
        nextMin := 0;
        tm := tm.(hour := tm.hour + 1);
      }
      tm := tm.(min := nextMin);
      tm := tm.(sec := 0);
      r := MkTime(tm, offset);
    } else {
      tm := tm.(min := 0);
      tm := tm.(sec := 0);
      tm := tm.(hour := tm.hour + 1);
      r := MkTime(tm, offset);
    }
    InFields(now, offset, r, NextMinute(was.min, MinuteStep(intervalSec)));
    LeastAligned(now, offset, intervalSec, r);
    NextMeans(now, offset, intervalSec, r);
  }
}

/** RFC 3339 instants (crates/tmx-adapters/src/clock.rs): their string order is their time order. */
module Timestamps {
  import opened Utf8
  import opened Calendar
  import opened Numerals

  const SECONDS_PER_DAY: nat := 86400
  const SECONDS_PER_HOUR: nat := 3600
  const SECONDS_PER_MINUTE: nat := 60
  const U64_MAX: nat := 0xFFFF_FFFF_FFFF_FFFF

  // ---------- Formatting ----------

  /** A point in time on the Unix clock. */
  datatype Instant = Instant(secs: nat, millis: nat)

  /** The date of an instant; a day number is cast to a signed one, which is lossless for a `u64` of seconds. */
  function DateOf(t: Instant): (d: Date) { CivilFromDays(t.secs / SECONDS_PER_DAY) }

  lemma DateOfIsDate(t: Instant)
    ensures IsDate(DateOf(t)) && DateOf(t).year >= 1970 && DateOf(t).day <= 31
  {
    CivilIsGregorian(t.secs / SECONDS_PER_DAY);
    CopiesAgree(t.secs / SECONDS_PER_DAY);
  }

  /** `format_rfc3339`. */
  function Format(t: Instant): (s: Bytes) {
    DateOfIsDate(t);
    var rem := t.secs % SECONDS_PER_DAY;
    var d := DateOf(t);
    Pad(d.year, 4) + "-" + Pad(d.month, 2) + "-" + Pad(d.day, 2)
    + "T" + Pad(rem / SECONDS_PER_HOUR, 2)
    + ":" + Pad((rem % SECONDS_PER_HOUR) / SECONDS_PER_MINUTE, 2)
    + ":" + Pad(rem % SECONDS_PER_MINUTE, 2)
    + "." + Pad(t.millis, 3) + "Z"
  }

  /** The retention cutoff: so many days before now, saturating at the epoch. */
  function Cutoff(now: Instant, daysAgo: nat): (t: Instant) {
    var back := if daysAgo * SECONDS_PER_DAY < U64_MAX then daysAgo * SECONDS_PER_DAY else U64_MAX;
    Instant(if now.secs > back then now.secs - back else 0, now.millis)
  }

  // ---------- What the text says ----------

  /** A timestamp cut at its separators. */
  datatype Fields = Fields(year: Bytes, month: Bytes, day: Bytes, hour: Bytes, minute: Bytes, second: Bytes, millis: Bytes)

  function Joined(f: Fields): (s: Bytes) {
    f.year + "-" + f.month + "-" + f.day + "T" + f.hour + ":" + f.minute + ":" + f.second + "." + f.millis + "Z"
  }

  /** Two digits for each field, three for the milliseconds, and four for the year while they suffice. */
  predicate HasWidths(f: Fields) {
    && |f.year| >= 4 && |f.month| == 2 && |f.day| == 2
    && |f.hour| == 2 && |f.minute| == 2 && |f.second| == 2 && |f.millis| == 3
  }

  /** The text of an instant reads back as the date of its day, and as the hour, minute, second and
      millisecond that make up the rest of it. */
  lemma FormatIsRead(t: Instant) returns (f: Fields, day: nat, hour: nat, minute: nat, second: nat)
    requires t.millis < 1000
    ensures Format(t) == Joined(f) && HasWidths(f)
    ensures t.secs == 86400 * day + 3600 * hour + 60 * minute + second && hour < 24 && minute < 60 && second < 60
    ensures var d := CivilFromDays(day);
            && d.year >= 1970 && Writes(f.year, d.year) && (d.year <= 9999 ==> |f.year| == 4)
            && d.month >= 1 && Writes(f.month, d.month) && d.day >= 1 && Writes(f.day, d.day)
    ensures Writes(f.hour, hour) && Writes(f.minute, minute) && Writes(f.second, second) && Writes(f.millis, t.millis)
  {
    DateOfIsDate(t);
    PowersOf10();
    var rem, d := t.secs % SECONDS_PER_DAY, DateOf(t);
    day := t.secs / SECONDS_PER_DAY;
    hour, minute, second := rem / SECONDS_PER_HOUR, (rem % SECONDS_PER_HOUR) / SECONDS_PER_MINUTE, rem % SECONDS_PER_MINUTE;
    f := Fields(Pad(d.year, 4), Pad(d.month, 2), Pad(d.day, 2), Pad(hour, 2), Pad(minute, 2), Pad(second, 2), Pad(t.millis, 3));
    ClockFields(rem, hour, minute, second);
    PaddedIsRead(d.year, 4);
    PaddedIsRead(d.month, 2);
    PaddedIsRead(d.day, 2);
    PaddedIsRead(hour, 2);
    PaddedIsRead(minute, 2);
    PaddedIsRead(second, 2);
    PaddedIsRead(t.millis, 3);
  }

  lemma ClockFields(rem: nat, hour: nat, minute: nat, second: nat)
    requires rem < 86400 && hour == rem / 3600 && minute == (rem % 3600) / 60 && second == rem % 60
    ensures rem == 3600 * hour + 60 * minute + second && hour < 24 && minute < 60 && second < 60
  {
  }

  // ---------- Orders ----------

  /** The order of Rust strings: byte by byte. */
  predicate LexLess(a: Bytes, b: Bytes) {
    b != [] && (a == [] || a[0] < b[0] || (a[0] == b[0] && LexLess(a[1..], b[1..])))
  }

  /** At byte `k` the texts first differ, or the first one ends. */
  predicate DecidesAt(a: Bytes, b: Bytes, k: nat) {
    k <= |a| && k < |b| && a[..k] == b[..k] && (k == |a| || a[k] < b[k])
  }

  /** One text precedes another when it is smaller at the first byte where they differ, or ends there. */
  lemma {:induction false} LexLessDecides(a: Bytes, b: Bytes)
    ensures LexLess(a, b) <==> exists k: nat :: DecidesAt(a, b, k)
    decreases |a|
  {
    if a != [] && b != [] && a[0] == b[0] {
      LexLessDecides(a[1..], b[1..]);
      forall k: nat | DecidesAt(a[1..], b[1..], k)
        ensures DecidesAt(a, b, k + 1)
      {
        assert a[..k + 1] == [a[0]] + a[1..][..k] && b[..k + 1] == [b[0]] + b[1..][..k];
      }
      forall k: nat | DecidesAt(a, b, k)
        ensures k > 0 && DecidesAt(a[1..], b[1..], k - 1)
      {
        assert k > 0 ==> a[..k][1..] == a[1..][..k - 1] && b[..k][1..] == b[1..][..k - 1];
      }
    } else {
      DifferAtOnce(a, b);
    }
  }

  lemma DifferAtOnce(a: Bytes, b: Bytes)
    requires a == [] || b == [] || a[0] != b[0]
    ensures LexLess(a, b) <==> exists k: nat :: DecidesAt(a, b, k)
  {
    var first: nat := 0;
    if LexLess(a, b) {
      assert DecidesAt(a, b, first);
    }
    forall k: nat | DecidesAt(a, b, k)
      ensures LexLess(a, b)
    {
    }
  }

  predicate Earlier(a: Instant, b: Instant) {
    a.secs < b.secs || (a.secs == b.secs && a.millis < b.millis)
  }

  /** Strings of equal length compare first. */
  lemma {:induction false} LexConcat(a: Bytes, b: Bytes, c: Bytes, d: Bytes)
    requires |a| == |b|
    ensures LexLess(a + c, b + d) <==> LexLess(a, b) || (a == b && LexLess(c, d))
    decreases |a|
  {
    if a == [] {
      assert a + c == c && b + d == d;
    } else {
      assert (a + c)[1..] == a[1..] + c && (b + d)[1..] == b[1..] + d;
      LexConcat(a[1..], b[1..], c, d);
      assert a == b <==> a[0] == b[0] && a[1..] == b[1..];
    }
  }

  /** Digits of a fixed width compare as their numbers do. */
  lemma {:induction false} DigitsCompare(m: nat, n: nat, width: nat)
    requires m < Pow10(width) && n < Pow10(width)
    ensures LexLess(LastDigits(m, width), LastDigits(n, width)) <==> m < n
    ensures LastDigits(m, width) == LastDigits(n, width) <==> m == n
  {
    if width > 0 {
      DigitsCompare(m / 10, n / 10, width - 1);
      var a, b := LastDigits(m / 10, width - 1), LastDigits(n / 10, width - 1);
      LexConcat(a, b, [Digit(m % 10)], [Digit(n % 10)]);
      assert LastDigits(m, width)[..width - 1] == a && LastDigits(n, width)[..width - 1] == b;
      assert LastDigits(m, width)[width - 1] == Digit(m % 10) && LastDigits(n, width)[width - 1] == Digit(n % 10);
    }
  }

  /** A field of fixed width and a separator, then the rest. */
  lemma FieldCompare(m: nat, n: nat, width: nat, sep: Bytes, c: Bytes, d: Bytes)
    requires m < Pow10(width) && n < Pow10(width)
    ensures LexLess(Pad(m, width) + sep + c, Pad(n, width) + sep + d) <==> m < n || (m == n && LexLess(c, d))
  {
    var a, b := Pad(m, width), Pad(n, width);
    DigitsCompare(m, n, width);
    LexConcat(a, b, sep + c, sep + d);
    LexConcat(sep, sep, c, d);
    LexIrreflexive(sep);
    assert a + sep + c == a + (sep + c) && b + sep + d == b + (sep + d);
  }

  lemma {:induction false} LexIrreflexive(a: Bytes)
    ensures !LexLess(a, a)
    decreases |a|
  {
    if a != [] {
      LexIrreflexive(a[1..]);
    }
  }

  /** The time-of-day part of an instant. */
  function TimeText(t: Instant): (s: Bytes) {
    var rem := t.secs % SECONDS_PER_DAY;
    Pad(rem / SECONDS_PER_HOUR, 2) + ":" + (Pad((rem % SECONDS_PER_HOUR) / SECONDS_PER_MINUTE, 2)
    + ":" + (Pad(rem % SECONDS_PER_MINUTE, 2) + "." + (Pad(t.millis, 3) + "Z" + [])))
  }

  function DateText(d: Date, rest: Bytes): (s: Bytes)
    requires d.year >= 0 && d.month >= 0 && d.day >= 0
  {
    Pad(d.year, 4) + "-" + (Pad(d.month, 2) + "-" + (Pad(d.day, 2) + "T" + rest))
  }

  lemma FormatParts(t: Instant)
    ensures IsDate(DateOf(t)) && DateOf(t).year >= 1970
    ensures Format(t) == DateText(DateOf(t), TimeText(t))
  {
    DateOfIsDate(t);
  }

  lemma PowersOf10()
    ensures Pow10(2) == 100 && Pow10(3) == 1000 && Pow10(4) == 10000
  {
    assert Pow10(1) == 10;
  }

  lemma ClockOrder(h: nat, m: nat, s: nat, h': nat, m': nat, s': nat)
    requires m < 60 && s < 60 && m' < 60 && s' < 60
    ensures 3600 * h + 60 * m + s < 3600 * h' + 60 * m' + s' <==> h < h' || (h == h' && (m < m' || (m == m' && s < s')))
    ensures 3600 * h + 60 * m + s == 3600 * h' + 60 * m' + s' <==> h == h' && m == m' && s == s'
  {
  }

  lemma TimeCompare(a: Instant, b: Instant)
    requires a.millis < 1000 && b.millis < 1000
    ensures LexLess(TimeText(a), TimeText(b))
       <==> Earlier(Instant(a.secs % SECONDS_PER_DAY, a.millis), Instant(b.secs % SECONDS_PER_DAY, b.millis))
  {
    PowersOf10();
    var p, q := a.secs % SECONDS_PER_DAY, b.secs % SECONDS_PER_DAY;
    var h, h' := p / SECONDS_PER_HOUR, q / SECONDS_PER_HOUR;
    var m, m' := (p % SECONDS_PER_HOUR) / SECONDS_PER_MINUTE, (q % SECONDS_PER_HOUR) / SECONDS_PER_MINUTE;
    var s, s' := p % SECONDS_PER_MINUTE, q % SECONDS_PER_MINUTE;
    ClockFields(p, h, m, s);
    ClockFields(q, h', m', s');
    ClockOrder(h, m, s, h', m', s');
    var c3, d3 := Pad(a.millis, 3) + "Z" + [], Pad(b.millis, 3) + "Z" + [];
    var c2, d2 := Pad(s, 2) + "." + c3, Pad(s', 2) + "." + d3;
    var c1, d1 := Pad(m, 2) + ":" + c2, Pad(m', 2) + ":" + d2;
    FieldCompare(a.millis, b.millis, 3, "Z", [], []);
    FieldCompare(s, s', 2, ".", c3, d3);
    FieldCompare(m, m', 2, ":", c2, d2);
    FieldCompare(h, h', 2, ":", c1, d1);
  }

  lemma DateCompare(a: Date, b: Date, c: Bytes, d: Bytes)
    requires IsDate(a) && IsDate(b) && 0 <= a.year <= 9999 && 0 <= b.year <= 9999
    ensures LexLess(DateText(a, c), DateText(b, d)) <==> Before(a, b) || (a == b && LexLess(c, d))
  {
    PowersOf10();
    var c2, d2 := Pad(a.day, 2) + "T" + c, Pad(b.day, 2) + "T" + d;
    var c1, d1 := Pad(a.month, 2) + "-" + c2, Pad(b.month, 2) + "-" + d2;
    FieldCompare(a.day, b.day, 2, "T", c, d);
    FieldCompare(a.month, b.month, 2, "-", c2, d2);
    FieldCompare(a.year, b.year, 4, "-", c1, d1);
  }

  /** Up to the year 9999, the string order of formatted instants is their time order. */
  lemma StringOrderIsTimeOrder(a: Instant, b: Instant)
    requires a.millis < 1000 && b.millis < 1000
    requires DateOf(a).year <= 9999 && DateOf(b).year <= 9999
    ensures LexLess(Format(a), Format(b)) <==> Earlier(a, b)
  {
    FormatParts(a);
    FormatParts(b);
    DateCompare(DateOf(a), DateOf(b), TimeText(a), TimeText(b));
    TimeCompare(a, b);
    DaysCompare(a.secs / SECONDS_PER_DAY, b.secs / SECONDS_PER_DAY);
    SecondsCompare(a.secs, b.secs);
  }

  lemma DaysCompare(m: int, n: int)
    ensures Before(CivilFromDays(m), CivilFromDays(n)) <==> m < n
    ensures CivilFromDays(m) == CivilFromDays(n) <==> m == n
  {
    if m < n {
      CivilIsMonotone(m, n);
    } else if n < m {
      CivilIsMonotone(n, m);
    }
  }

  lemma SecondsCompare(a: nat, b: nat)
    ensures a < b <==> (a / SECONDS_PER_DAY < b / SECONDS_PER_DAY
                        || (a / SECONDS_PER_DAY == b / SECONDS_PER_DAY && a % SECONDS_PER_DAY < b % SECONDS_PER_DAY))
    ensures a == b <==> a / SECONDS_PER_DAY == b / SECONDS_PER_DAY && a % SECONDS_PER_DAY == b % SECONDS_PER_DAY
  {
  }

  /** An instant precedes the cutoff exactly when the retention window after it ends before now; when the
      window reaches back past the epoch, only instants of the epoch's first second can still precede it. */
  lemma CutoffIsRetentionWindow(t: Instant, now: Instant, daysAgo: nat)
    requires now.secs <= U64_MAX
    ensures daysAgo * 86400 <= now.secs ==>
              (Earlier(t, Cutoff(now, daysAgo)) <==> Earlier(Instant(t.secs + daysAgo * 86400, t.millis), now))
    ensures daysAgo * 86400 > now.secs ==>
              (Earlier(t, Cutoff(now, daysAgo)) <==> t.secs == 0 && t.millis < now.millis)
  {
  }
}

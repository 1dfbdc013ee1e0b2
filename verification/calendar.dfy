/**
  Proleptic Gregorian dates as Python's `datetime.date` handles them
  (years 1 to 9999), the day arithmetic `date ± timedelta(days=k)`, the
  `str(date)` form `YYYY-MM-DD`, and the seven-day window the statistics
  week query walks.
*/
module Calendar {
  import opened Maybe

  datatype Date = Date(year: int, month: int, day: int)

  const MinYear := 1
  const MaxYear := 9999

  predicate IsLeapYear(y: int) {
    y % 4 == 0 && (y % 100 != 0 || y % 400 == 0)
  }

  function DaysInMonth(y: int, m: int): (n: int)
    requires 1 <= m <= 12
    ensures 28 <= n <= 31
    ensures m == 2 ==> (n == 29 <==> IsLeapYear(y))
  {
    if m == 2 then (if IsLeapYear(y) then 29 else 28)
    else if m == 4 || m == 6 || m == 9 || m == 11 then 30
    else 31
  }

  predicate ValidDate(d: Date) {
    MinYear <= d.year <= MaxYear && 1 <= d.month <= 12 && 1 <= d.day <= DaysInMonth(d.year, d.month)
  }

  /** The comparison of `datetime.date`: by year, then month, then day. */
  predicate Before(a: Date, b: Date) {
    a.year < b.year
    || (a.year == b.year && a.month < b.month)
    || (a.year == b.year && a.month == b.month && a.day < b.day)
  }

  predicate NotAfter(a: Date, b: Date) {
    a == b || Before(a, b)
  }

  lemma BeforeTransitive(a: Date, b: Date, c: Date)
    requires Before(a, b) && Before(b, c)
    ensures Before(a, c)
  {
  }

  /** `d + timedelta(days=1)`; `None` is the `OverflowError` past 9999-12-31. */
  function NextDay(d: Date): (r: Option<Date>)
    requires ValidDate(d)
    ensures r.None? <==> d == Date(MaxYear, 12, 31)
    ensures r.Some? ==> ValidDate(r.value) && Before(d, r.value)
  {
    if d.day < DaysInMonth(d.year, d.month) then Some(Date(d.year, d.month, d.day + 1))
    else if d.month < 12 then Some(Date(d.year, d.month + 1, 1))
    else if d.year < MaxYear then Some(Date(d.year + 1, 1, 1))
    else None
  }

  /** `d - timedelta(days=1)`; `None` is the `OverflowError` before 0001-01-01. */
  function PrevDay(d: Date): (r: Option<Date>)
    requires ValidDate(d)
    ensures r.None? <==> d == Date(MinYear, 1, 1)
    ensures r.Some? ==> ValidDate(r.value) && Before(r.value, d)
  {
    if d.day > 1 then Some(Date(d.year, d.month, d.day - 1))
    else if d.month > 1 then Some(Date(d.year, d.month - 1, DaysInMonth(d.year, d.month - 1)))
    else if d.year > MinYear then Some(Date(d.year - 1, 12, 31))
    else None
  }

  /** Stepping back a day and forward again returns to the same date, and vice versa. */
  lemma NextPrevInverse(d: Date)
    requires ValidDate(d)
    ensures PrevDay(d).Some? ==> NextDay(PrevDay(d).value) == Some(d)
    ensures NextDay(d).Some? ==> PrevDay(NextDay(d).value) == Some(d)
  {
  }

  /** The next day is the immediate successor: no valid date lies strictly between. */
  lemma NextDayIsSuccessor(d: Date, c: Date)
    requires ValidDate(d) && ValidDate(c) && NextDay(d).Some?
    ensures !(Before(d, c) && Before(c, NextDay(d).value))
  {
  }

  lemma BeforeAsymmetric(a: Date, b: Date)
    requires Before(a, b)
    ensures !NotAfter(b, a)
  {
  }

  /** `d + timedelta(days=k)`, one day at a time. */
  function Forward(d: Date, k: nat): (r: Option<Date>)
    requires ValidDate(d)
    ensures r.Some? ==> ValidDate(r.value)
    decreases k
  {
    if k == 0 then Some(d)
    else match NextDay(d)
      case None => None
      case Some(e) => Forward(e, k - 1)
  }

  /** `d - timedelta(days=k)`, one day at a time. */
  function Back(d: Date, k: nat): (r: Option<Date>)
    requires ValidDate(d)
    ensures r.Some? ==> ValidDate(r.value)
    decreases k
  {
    if k == 0 then Some(d)
    else match PrevDay(d)
      case None => None
      case Some(p) => Back(p, k - 1)
  }

  /** One more step forward after reaching `p`. */
  lemma {:induction false} ForwardStep(s: Date, k: nat, p: Date)
    requires ValidDate(s) && Forward(s, k) == Some(p) && NextDay(p).Some?
    ensures Forward(s, k + 1) == NextDay(p)
    decreases k
  {
    if k > 0 {
      ForwardStep(NextDay(s).value, k - 1, p);
    }
  }

  /** Going back `k` days and then forward `k` days returns to the start. */
  lemma {:induction false} BackThenForward(d: Date, k: nat)
    requires ValidDate(d) && Back(d, k).Some?
    ensures Forward(Back(d, k).value, k) == Some(d)
    decreases k
  {
    if k > 0 {
      var p := PrevDay(d).value;
      BackThenForward(p, k - 1);
      NextPrevInverse(d);
      ForwardStep(Back(d, k).value, k - 1, p);
    }
  }

  /** Going forward never lands earlier. */
  lemma {:induction false} ForwardNotEarlier(d: Date, k: nat)
    requires ValidDate(d) && Forward(d, k).Some?
    ensures NotAfter(d, Forward(d, k).value)
    decreases k
  {
    if k > 0 {
      var e := NextDay(d).value;
      ForwardNotEarlier(e, k - 1);
    }
  }

  /**
    Inside the week window: from a day `6 - i` days before `today`, the
    next step either stays in the window or, on the last day, is the day
    after `today`.
  */
  lemma WindowStep(start: Date, today: Date, i: int)
    requires ValidDate(start) && 0 <= i <= 6 && Forward(start, 6 - i) == Some(today)
    ensures i == 6 ==> start == today
    ensures i < 6 ==> NextDay(start).Some? && Forward(NextDay(start).value, 5 - i) == Some(today)
  {
  }

  // ---- `str(date)` -------------------------------------------------------------

  function Pow10(w: nat): (p: nat)
    ensures p >= 1
  {
    if w == 0 then 1 else 10 * Pow10(w - 1)
  }

  function DigitChar(n: int): char
    requires 0 <= n < 10
  {
    "0123456789"[n]
  }

  /** `'%0{w}d' % n` for `0 <= n < 10^w`: exactly `w` decimal digits. */
  function Digits(n: nat, w: nat): (s: string)
    requires n < Pow10(w)
    ensures |s| == w
    ensures forall i :: 0 <= i < |s| ==> '0' <= s[i] <= '9'
  {
    if w == 0 then "" else Digits(n / 10, w - 1) + [DigitChar(n % 10)]
  }

  /** Equal digit strings of the same width denote the same number. */
  lemma {:induction false} DigitsInjective(a: nat, b: nat, w: nat)
    requires a < Pow10(w) && b < Pow10(w)
    requires Digits(a, w) == Digits(b, w)
    ensures a == b
    decreases w
  {
    if w > 0 {
      var sa, sb := Digits(a / 10, w - 1), Digits(b / 10, w - 1);
      assert sa == Digits(a, w)[..w - 1] && sb == Digits(b, w)[..w - 1];
      DigitsInjective(a / 10, b / 10, w - 1);
      assert Digits(a, w)[w - 1] == DigitChar(a % 10);
      assert Digits(b, w)[w - 1] == DigitChar(b % 10);
    }
  }

  /** `str(date)`, i.e. `date.isoformat()`: `YYYY-MM-DD`. */
  function IsoDate(d: Date): (s: string)
    requires ValidDate(d)
    ensures |s| == 10 && s[4] == '-' && s[7] == '-'
    ensures '_' !in s
  {
    Digits(d.year, 4) + "-" + Digits(d.month, 2) + "-" + Digits(d.day, 2)
  }

  /** Distinct dates have distinct strings. */
  lemma IsoDateInjective(a: Date, b: Date)
    requires ValidDate(a) && ValidDate(b)
    requires IsoDate(a) == IsoDate(b)
    ensures a == b
  {
    var sa, sb := IsoDate(a), IsoDate(b);
    assert sa[..4] == Digits(a.year, 4) && sb[..4] == Digits(b.year, 4);
    assert sa[5..7] == Digits(a.month, 2) && sb[5..7] == Digits(b.month, 2);
    assert sa[8..] == Digits(a.day, 2) && sb[8..] == Digits(b.day, 2);
    DigitsInjective(a.year, b.year, 4);
    DigitsInjective(a.month, b.month, 2);
    DigitsInjective(a.day, b.day, 2);
  }

  // ---- The week window -----------------------------------------------------------

  /**
    The dates `_get_week_stats` walks: `start = today - 6 days`, then
    `while start <= today` it takes `start` and adds a day.  `None` is an
    `OverflowError`: either `today - 6 days` falls before 0001-01-01, or
    the final `start += 1 day` passes 9999-12-31.  Otherwise exactly seven
    consecutive days ending with `today`, in ascending order.
  */
  method WeekDates(today: Date) returns (r: Option<seq<Date>>)
    requires ValidDate(today)
    ensures r.None? <==> Back(today, 6).None? || NextDay(today).None?
    ensures r.Some? ==> |r.value| == 7 && r.value[6] == today && Back(today, 6) == Some(r.value[0])
    ensures r.Some? ==> Consecutive(r.value)
    ensures r.Some? ==> forall i, j :: 0 <= i < j < 7 ==> Before(r.value[i], r.value[j])
  {
    var first := Back(today, 6);
    if first.None? {
      return None;
    }
    BackThenForward(today, 6);
    r := WalkWindow(first.value, today);
    if r.Some? {
      ConsecutiveAscending(r.value);
    }
  }

  /** Each day is followed by the next one. */
  ghost predicate Consecutive(days: seq<Date>) {
    forall j :: 0 <= j < |days| ==> ValidDate(days[j]) && (j + 1 < |days| ==> NextDay(days[j]) == Some(days[j + 1]))
  }

  lemma {:induction false} ConsecutiveAscending(days: seq<Date>)
    requires Consecutive(days)
    ensures forall i, j :: 0 <= i < j < |days| ==> Before(days[i], days[j])
    decreases |days|
  {
    if |days| > 1 {
      var init := days[..|days| - 1];
      ConsecutivePrefix(days);
      ConsecutiveAscending(init);
      forall i, j | 0 <= i < j < |days| ensures Before(days[i], days[j]) {
        if j < |days| - 1 {
          assert Before(init[i], init[j]);
        } else if i < j - 1 {
          assert Before(init[i], init[j - 1]);
          BeforeTransitive(days[i], days[j - 1], days[j]);
        }
      }
    }
  }

  /** The `while start <= today` loop, from `first`, six days before `today`. */
  method WalkWindow(first: Date, today: Date) returns (r: Option<seq<Date>>)
    requires ValidDate(first) && ValidDate(today) && Forward(first, 6) == Some(today)
    ensures r.None? <==> NextDay(today).None?
    ensures r.Some? ==> |r.value| == 7 && r.value[0] == first && r.value[6] == today && Consecutive(r.value)
  {
    var start := first;
    var days: seq<Date> := [];
    var i := 0;
    while NotAfter(start, today)
      invariant 0 <= i <= 7 && |days| == i && ValidDate(start)
      invariant i <= 6 ==> Forward(start, 6 - i) == Some(today)
      invariant i == 7 ==> NextDay(today) == Some(start)
      invariant Consecutive(days + [start]) && (days + [start])[0] == first
      decreases 7 - i
    {
      if i == 7 {
        BeforeAsymmetric(today, start);
        assert false;
      }
      WindowStep(start, today, i);
      var next := NextDay(start);
      if next.None? {
        return None;
      }
      ConsecutiveExtend(days + [start], next.value);
      days := days + [start];
      start := next.value;
      i := i + 1;
    }
    if i <= 6 {
      ForwardNotEarlier(start, 6 - i);
      assert false;
    }
    WindowClosed(days, start, today);
    return Some(days);
  }

  /** When the walk stops, its seven days run up to `today`, the day before the stopping point. */
  lemma WindowClosed(days: seq<Date>, start: Date, today: Date)
    requires |days| == 7 && ValidDate(today) && Consecutive(days + [start])
    requires NextDay(today) == Some(start)
    ensures days[6] == today && days[0] == (days + [start])[0] && Consecutive(days)
  {
    var all := days + [start];
    assert all[6] == days[6] && all[7] == start;
    assert NextDay(all[6]) == Some(start);
    NextPrevInverse(today);
    NextPrevInverse(all[6]);
    ConsecutivePrefix(all);
    assert days == all[..7];
  }

  lemma ConsecutiveExtend(days: seq<Date>, next: Date)
    requires |days| > 0 && Consecutive(days) && NextDay(days[|days| - 1]) == Some(next)
    ensures Consecutive(days + [next]) && (days + [next])[0] == days[0]
  {
    var ext := days + [next];
    forall j | 0 <= j < |ext| ensures ValidDate(ext[j]) && (j + 1 < |ext| ==> NextDay(ext[j]) == Some(ext[j + 1])) {
      if j < |days| {
        assert ext[j] == days[j];
        if j + 1 < |days| {
          assert ext[j + 1] == days[j + 1];
        }
      }
    }
  }

  lemma ConsecutivePrefix(days: seq<Date>)
    requires |days| > 0 && Consecutive(days)
    ensures Consecutive(days[..|days| - 1])
  {
    var init := days[..|days| - 1];
    forall j | 0 <= j < |init| ensures ValidDate(init[j]) && (j + 1 < |init| ==> NextDay(init[j]) == Some(init[j + 1])) {
      assert init[j] == days[j];
      if j + 1 < |init| {
        assert init[j + 1] == days[j + 1];
      }
    }
  }
}

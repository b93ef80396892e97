/**
 The opening-status evaluator: given the weekday, the time of day (HHMM) and
 the weekly schedule, decide whether the shop is open and which label the
 status widget shows. The clock is a parameter: `ClockTime` is the encoding
 `hours * 100 + minutes` the widget applies to `Date`'s reading.
 */
module OpeningStatus {
  import opened Optional
  import opened Schedule
  import opened TimeFormat

  /** `findNextOpen`'s result: the weekday name and the formatted opening time. */
  datatype NextOpening = NextOpening(dayName: string, time: string)

  /** What the display sink receives: the `is-open` flag and the label text. */
  datatype Status = Status(isOpen: bool, text: string)

  const OpenLabel: string := "ABERTO AGORA"
  const ClosedLabel: string := "FECHADO"
  const CheckHoursLabel: string := "FECHADO (Verifique horários)"

  /** Label for a day that opens later today: the fixed opening words, the
      opening time, and a closing parenthesis. */
  function OpensTodayLabel(time: string): (text: string)
    ensures |text| == 18 + |time| && text[..7] == ClosedLabel
    ensures text[17..17 + |time|] == time
    ensures text[|text| - 1] == ')'
  {
    "FECHADO (Abre às " + time + ")"
  }

  /** Label naming the next opening day and time: the day name follows the fixed
      opening words, the time follows " às ", and a parenthesis closes it. */
  function OpensOnLabel(next: NextOpening): (text: string)
    ensures |text| == 19 + |next.dayName| + |next.time| && text[..7] == ClosedLabel
    ensures text[14..14 + |next.dayName|] == next.dayName
    ensures text[18 + |next.dayName|..18 + |next.dayName| + |next.time|] == next.time
    ensures text[|text| - 1] == ')'
  {
    "FECHADO (Abre " + next.dayName + " às " + next.time + ")"
  }

  /** `now.getHours() * 100 + now.getMinutes()`. */
  function ClockTime(hours: int, minutes: int): (t: int)
    requires 0 <= hours < 24 && 0 <= minutes < 60
    ensures 0 <= t <= 2359
    ensures t / 100 == hours && t % 100 == minutes
  {
    hours * 100 + minutes
  }

  /** `(currentDay + i) % 7`: the weekday `i` days after `d`. */
  function DayAfter(d: Weekday, i: nat): (k: Weekday)
    ensures (d + i - k) % 7 == 0
  {
    (d + i) % 7
  }

  /** The number of days from `d` forward to `k`, counting a full week when `k` is `d`. */
  function DaysUntil(d: Weekday, k: Weekday): (i: nat)
    ensures 1 <= i <= 7 && DayAfter(d, i) == k
  {
    if d < k then k - d else k - d + 7
  }

  function OpeningTime(s: seq<Entry>, day: int): int
    requires Scheduled(s, day)
  {
    Lookup(s, day).value.open
  }

  function ClosingTime(s: seq<Entry>, day: int): int
    requires Scheduled(s, day)
  {
    Lookup(s, day).value.close
  }

  /** Some weekday 0..6 has a record. */
  predicate SomeDayScheduled(s: seq<Entry>) {
    exists k :: 0 <= k < 7 && Scheduled(s, k)
  }

  /** `i` is the smallest step 1..7 after `d` that lands on a scheduled day. */
  ghost predicate IsFirstOffset(s: seq<Entry>, d: Weekday, i: int) {
    && 1 <= i <= 7
    && Scheduled(s, DayAfter(d, i))
    && forall j :: 1 <= j < i ==> !Scheduled(s, DayAfter(d, j))
  }

  /** The iterations `i`, `i + 1`, ..., 7 of `findNextOpen`'s loop; the step found, if any. */
  function SearchFrom(s: seq<Entry>, d: Weekday, i: nat): (r: Option<nat>)
    requires 1 <= i <= 8
    ensures r.Some? ==> i <= r.value <= 7 && Scheduled(s, DayAfter(d, r.value))
    ensures r.Some? ==> forall j :: i <= j < r.value ==> !Scheduled(s, DayAfter(d, j))
    ensures r.None? ==> forall j :: i <= j <= 7 ==> !Scheduled(s, DayAfter(d, j))
    decreases 8 - i
  {
    if i > 7 then None
    else if Scheduled(s, DayAfter(d, i)) then Some(i)
    else SearchFrom(s, d, i + 1)
  }

  /** The loop stops exactly at the first step that lands on a scheduled day, and
      runs out exactly when no weekday is scheduled. */
  lemma SearchFindsFirstOffset(s: seq<Entry>, d: Weekday)
    ensures SearchFrom(s, d, 1).Some? ==> IsFirstOffset(s, d, SearchFrom(s, d, 1).value)
    ensures forall i :: IsFirstOffset(s, d, i) ==> SearchFrom(s, d, 1) == Some(i)
    ensures SearchFrom(s, d, 1).None? <==> !SomeDayScheduled(s)
  {
    var r := SearchFrom(s, d, 1);
    if r.None? {
      forall k | 0 <= k < 7
        ensures !Scheduled(s, k)
      {
        assert DayAfter(d, DaysUntil(d, k)) == k;
      }
    } else {
      assert IsFirstOffset(s, d, r.value);
      var k := DayAfter(d, r.value);
      assert 0 <= k < 7 && Scheduled(s, k);
    }
  }

  /** `findNextOpen(currentDay)`: the name and formatted opening time of the first
      scheduled day after `d`, going round the week and ending on `d` itself. */
  function FindNextOpen(s: seq<Entry>, d: Weekday): (r: Option<NextOpening>)
    ensures r.None? <==> !SomeDayScheduled(s)
    ensures r.Some? ==> exists i :: IsFirstOffset(s, d, i)
    ensures forall i :: IsFirstOffset(s, d, i) ==>
      r == Some(NextOpening(DayName(DayAfter(d, i)), FormatTime(OpeningTime(s, DayAfter(d, i)))))
  {
    SearchFindsFirstOffset(s, d);
    match SearchFrom(s, d, 1)
    case None => None
    case Some(i) =>
      var k := DayAfter(d, i);
      Some(NextOpening(DayName(k), FormatTime(Lookup(s, k).value.open)))
  }

  /** `checkOpeningStatus()` with the clock reading passed in: weekday `day`, time `t` (HHMM).
      The shop is open exactly inside today's window, both ends included. */
  function CheckOpeningStatus(day: Weekday, t: int, s: seq<Entry>): (r: Status)
    ensures r.isOpen <==> Scheduled(s, day) && OpeningTime(s, day) <= t <= ClosingTime(s, day)
    ensures r.isOpen <==> r.text == OpenLabel
    ensures !r.isOpen ==> |r.text| >= 7 && r.text[..7] == ClosedLabel
  {
    match Lookup(s, day)
    case Some(entry) =>
      if t >= entry.open && t <= entry.close then Status(true, OpenLabel)
      else if t < entry.open then Status(false, OpensTodayLabel(FormatTime(entry.open)))
      else
        var next := FindNextOpen(s, day);
        Status(false, if next.Some? then OpensOnLabel(next.value) else CheckHoursLabel)
    case None =>
      var next := FindNextOpen(s, day);
      Status(false, if next.Some? then OpensOnLabel(next.value) else ClosedLabel)
  }

  /** The label `findNextOpen` produces when the first scheduled day is `i` steps after `day`. */
  function OpensAfterLabel(s: seq<Entry>, day: Weekday, i: nat): string
    requires Scheduled(s, DayAfter(day, i))
  {
    OpensOnLabel(NextOpening(DayName(DayAfter(day, i)), FormatTime(OpeningTime(s, DayAfter(day, i)))))
  }

  /** Before today's opening time the label names today's opening time; no search is made. */
  lemma BeforeOpeningLabel(day: Weekday, t: int, s: seq<Entry>)
    requires Scheduled(s, day) && t < OpeningTime(s, day)
    ensures CheckOpeningStatus(day, t, s) == Status(false, OpensTodayLabel(FormatTime(OpeningTime(s, day))))
  {
  }

  /** After today's closing time the label names the first scheduled day after today
      (today itself a week later when no other day is scheduled). */
  lemma AfterClosingLabel(day: Weekday, t: int, s: seq<Entry>, i: int)
    requires Scheduled(s, day) && OpeningTime(s, day) <= t && ClosingTime(s, day) < t
    requires IsFirstOffset(s, day, i)
    ensures CheckOpeningStatus(day, t, s) == Status(false, OpensAfterLabel(s, day, i))
  {
  }

  /** On a day without a record the label names the first scheduled day after it,
      or is the bare closed label when no day has a record at all. */
  lemma UnscheduledDayLabel(day: Weekday, t: int, s: seq<Entry>)
    requires !Scheduled(s, day)
    ensures forall i :: IsFirstOffset(s, day, i) ==>
      CheckOpeningStatus(day, t, s) == Status(false, OpensAfterLabel(s, day, i))
    ensures !SomeDayScheduled(s) ==> CheckOpeningStatus(day, t, s) == Status(false, ClosedLabel)
  {
  }

  /** The "check the hours" fallback is never shown: after closing on a scheduled
      day the forward search always finds at least that same day, seven steps on. */
  lemma CheckHoursLabelNeverShown(day: Weekday, t: int, s: seq<Entry>)
    ensures CheckOpeningStatus(day, t, s).text != CheckHoursLabel
  {
    var next := FindNextOpen(s, day);
    if Scheduled(s, day) {
      assert next.Some? by {
        assert SomeDayScheduled(s);
      }
      OpensLabelsAreNotCheckHours(FormatTime(OpeningTime(s, day)), next.value);
    }
  }

  /** Both opening announcements read "FECHADO (Abre ...", never "FECHADO (Verifique ...". */
  lemma OpensLabelsAreNotCheckHours(time: string, next: NextOpening)
    ensures OpensTodayLabel(time) != CheckHoursLabel
    ensures OpensOnLabel(next) != CheckHoursLabel
  {
    assert OpensTodayLabel(time)[9] == 'A' != CheckHoursLabel[9];
    assert OpensOnLabel(next)[9] == 'A';
  }

  /** Comparing encoded clock readings compares hours first, then minutes. */
  lemma ClockTimeOrder(h1: int, m1: int, h2: int, m2: int)
    requires 0 <= h1 < 24 && 0 <= m1 < 60
    requires 0 <= h2 < 24 && 0 <= m2 < 60
    ensures ClockTime(h1, m1) <= ClockTime(h2, m2) <==> h1 < h2 || (h1 == h2 && m1 <= m2)
  {
    if h1 < h2 {
      assert ClockTime(h1, m1) < (h1 + 1) * 100 <= ClockTime(h2, m2);
    } else if h2 < h1 {
      assert ClockTime(h2, m2) < (h2 + 1) * 100 <= ClockTime(h1, m1);
    }
  }

  /** The schedule's `open` and `close` values use the same HHMM encoding as the
      clock reading, so a time written as `ClockTime(hours, minutes)` in the
      schedule is announced as its zero-padded hours and minutes. */
  lemma ClockTimeRendering(hours: int, minutes: int)
    requires 0 <= hours < 24 && 0 <= minutes < 60
    ensures FormatTime(ClockTime(hours, minutes)) == TwoDigits(hours) + ":" + TwoDigits(minutes)
  {
    var t := ClockTime(hours, minutes);
    assert t / 100 == hours && t % 100 == minutes;
  }

  /** When today is the only scheduled weekday, the search wraps all the way round
      (step 7) and names today. */
  lemma OnlyTodayScheduled(s: seq<Entry>, d: Weekday)
    requires Scheduled(s, d)
    requires forall k :: 0 <= k < 7 && k != d ==> !Scheduled(s, k)
    ensures FindNextOpen(s, d) == Some(NextOpening(DayName(d), FormatTime(OpeningTime(s, d))))
  {
    assert DayAfter(d, 7) == d;
    forall j | 1 <= j < 7
      ensures !Scheduled(s, DayAfter(d, j))
    {
      assert DayAfter(d, j) != d;
    }
    assert IsFirstOffset(s, d, 7);
  }

  /** On a day without a record the time of day plays no part in the status. */
  lemma UnscheduledDayIgnoresTime(day: Weekday, t: int, u: int, s: seq<Entry>)
    requires !Scheduled(s, day)
    ensures CheckOpeningStatus(day, t, s) == CheckOpeningStatus(day, u, s)
  {
  }

  /** Two schedules give every weekday the same record. */
  ghost predicate SameWeek(s: seq<Entry>, s': seq<Entry>) {
    forall k :: 0 <= k < 7 ==> Lookup(s, k) == Lookup(s', k)
  }

  /** The forward search sees a schedule only through its weekday records. */
  lemma FindNextOpenSameWeek(s: seq<Entry>, s': seq<Entry>, d: Weekday)
    requires SameWeek(s, s')
    ensures FindNextOpen(s, d) == FindNextOpen(s', d)
  {
    assert SomeDayScheduled(s) <==> SomeDayScheduled(s') by {
      forall k | 0 <= k < 7
        ensures Scheduled(s, k) <==> Scheduled(s', k)
      {
        assert Lookup(s, k) == Lookup(s', k);
      }
    }
    if FindNextOpen(s, d).Some? {
      var i :| IsFirstOffset(s, d, i);
      var k := DayAfter(d, i);
      assert Lookup(s, k) == Lookup(s', k);
      assert IsFirstOffset(s', d, i) by {
        forall j | 1 <= j < i
          ensures !Scheduled(s', DayAfter(d, j))
        {
          assert Lookup(s, DayAfter(d, j)) == Lookup(s', DayAfter(d, j));
        }
      }
    }
  }

  /** With one record per day, reordering the records changes no status. */
  lemma StatusIgnoresRecordOrder(day: Weekday, t: int, s: seq<Entry>, s': seq<Entry>)
    requires DistinctDays(s) && DistinctDays(s')
    requires multiset(s) == multiset(s')
    ensures CheckOpeningStatus(day, t, s) == CheckOpeningStatus(day, t, s')
  {
    assert Lookup(s, day) == Lookup(s', day) && FindNextOpen(s, day) == FindNextOpen(s', day) by {
      forall k | 0 <= k < 7
        ensures Lookup(s, k) == Lookup(s', k)
      {
        LookupIgnoresOrder(s, s', k);
      }
      FindNextOpenSameWeek(s, s', day);
    }
    StatusFromLookups(day, t, s, s');
  }

  /** The status depends on the schedule only through today's record and the forward search. */
  lemma StatusFromLookups(day: Weekday, t: int, s: seq<Entry>, s': seq<Entry>)
    requires Lookup(s, day) == Lookup(s', day)
    requires FindNextOpen(s, day) == FindNextOpen(s', day)
    ensures CheckOpeningStatus(day, t, s) == CheckOpeningStatus(day, t, s')
  {
  }
}

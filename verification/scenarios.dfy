/**
 What the status widget shows for the shop's own schedule (Monday to Friday
 08:00-17:00, Saturday 08:00-13:00, Sunday closed) at chosen moments of the week.
 */
module Scenarios {
  import opened Optional
  import opened Schedule
  import opened TimeFormat
  import opened OpeningStatus

  /** The label every Saturday evening and every Sunday shows:
      "FECHADO (Abre Segunda-feira às 08:00)". */
  const OpensMonday: string := OpensOnLabel(NextOpening("Segunda-feira", "08:00"))

  /** The shop's records as lookup sees them: none for Sunday, record `k - 1` for weekday `k`. */
  lemma ShopLookup()
    ensures Lookup(ShopSchedule, 0) == None
    ensures forall k :: 1 <= k <= 6 ==> Lookup(ShopSchedule, k) == Some(ShopSchedule[k - 1])
  {
    ShopScheduleWellFormed();
    forall k | 1 <= k <= 6
      ensures Lookup(ShopSchedule, k) == Some(ShopSchedule[k - 1])
    {
      LookupFindsOwnRecord(ShopSchedule, k - 1);
    }
  }

  /** A working day's record: open from 08:00 to its closing minute. */
  lemma ShopWorkingDay(day: Weekday)
    requires 1 <= day <= 6
    ensures Scheduled(ShopSchedule, day)
    ensures OpeningTime(ShopSchedule, day) == 800 && ClosingTime(ShopSchedule, day) == ShopClosing(day)
  {
    ShopLookup();
  }

  /** Every announced next opening in the shop's schedule is at 08:00. */
  lemma ShopOpensAfterLabel(day: Weekday, i: nat)
    requires 1 <= DayAfter(day, i) <= 6
    ensures Scheduled(ShopSchedule, DayAfter(day, i))
    ensures OpensAfterLabel(ShopSchedule, day, i) == OpensOnLabel(NextOpening(DayName(DayAfter(day, i)), "08:00"))
  {
    var k := DayAfter(day, i);
    assert Scheduled(ShopSchedule, k) && OpeningTime(ShopSchedule, k) == 800 by {
      ShopLookup();
    }
    assert FormatTime(800) == "08:00" by {
      FormatTimeExamples();
    }
  }

  /** Weekday 1 is called "Segunda-feira". */
  lemma MondayName()
    ensures DayName(1) == "Segunda-feira"
  {
  }

  /** A search that lands on Monday announces Monday 08:00. */
  lemma MondayLabel(day: Weekday, i: nat)
    requires DayAfter(day, i) == 1
    ensures Scheduled(ShopSchedule, DayAfter(day, i))
    ensures OpensAfterLabel(ShopSchedule, day, i) == OpensMonday
  {
    ShopOpensAfterLabel(day, i);
    MondayName();
  }

  /** The only day without a record is Sunday; on it, at any hour, the shop is
      closed and Monday 08:00 is announced. */
  lemma SundayAnnouncesMonday(day: Weekday, t: int)
    requires !Scheduled(ShopSchedule, day)
    ensures day == 0
    ensures CheckOpeningStatus(day, t, ShopSchedule) == Status(false, OpensMonday)
  {
    ShopLookup();
    assert DayAfter(day, 1) == 1;
    assert IsFirstOffset(ShopSchedule, day, 1);
    UnscheduledDayLabel(day, t, ShopSchedule);
    assert CheckOpeningStatus(day, t, ShopSchedule) == Status(false, OpensAfterLabel(ShopSchedule, day, 1));
    MondayLabel(day, 1);
  }

  /** Closing time of working day `day` in the shop's schedule. */
  function ShopClosing(day: Weekday): int {
    if day == 6 then 1300 else 1700
  }

  /** The working day after `day`, skipping the closed Sunday. */
  function NextWorkingDay(day: Weekday): Weekday {
    if day == 6 then 1 else day + 1
  }

  /** Before 08:00 on any working day the label gives today's opening time. */
  lemma EarlyMorning(day: Weekday, t: int)
    requires 1 <= day <= 6 && t < 800
    ensures CheckOpeningStatus(day, t, ShopSchedule) == Status(false, OpensTodayLabel("08:00"))
  {
    assert Scheduled(ShopSchedule, day) && OpeningTime(ShopSchedule, day) == 800 by {
      ShopLookup();
    }
    BeforeOpeningLabel(day, t, ShopSchedule);
    assert FormatTime(800) == "08:00" by {
      FormatTimeExamples();
    }
  }

  /** On working days the shop is open from 08:00 up to and including the closing
      minute: 17:00 from Monday to Friday, 13:00 on Saturday. */
  lemma WorkingDayWindow(day: Weekday, t: int)
    requires 1 <= day <= 6
    ensures CheckOpeningStatus(day, t, ShopSchedule).isOpen <==> 800 <= t <= ShopClosing(day)
  {
    ShopLookup();
    assert OpeningTime(ShopSchedule, day) == 800 && ClosingTime(ShopSchedule, day) == ShopClosing(day);
  }

  /** From a working day the search stops at the next working day: one step on,
      or two from Saturday, skipping Sunday. */
  lemma NextWorkingDayIsFirst(day: Weekday, i: nat)
    requires 1 <= day <= 6
    requires i == if day == 6 then 2 else 1
    ensures DayAfter(day, i) == NextWorkingDay(day)
    ensures IsFirstOffset(ShopSchedule, day, i)
  {
    if day == 6 {
      assert DayAfter(day, 1) == 0 && DayAfter(day, 2) == 1;
      assert !Scheduled(ShopSchedule, 0) by {
        ShopLookup();
      }
      ShopWorkingDay(1);
    } else {
      assert DayAfter(day, 1) == day + 1;
      ShopWorkingDay(day + 1);
    }
  }

  /** After closing on a working day the status announces the next working day. */
  lemma EveningSearch(day: Weekday, t: int, i: nat)
    requires 1 <= day <= 6 && t > ShopClosing(day)
    requires i == if day == 6 then 2 else 1
    ensures DayAfter(day, i) == NextWorkingDay(day) && Scheduled(ShopSchedule, DayAfter(day, i))
    ensures CheckOpeningStatus(day, t, ShopSchedule) == Status(false, OpensAfterLabel(ShopSchedule, day, i))
  {
    NextWorkingDayIsFirst(day, i);
    ShopWorkingDay(day);
    AfterClosingLabel(day, t, ShopSchedule, i);
  }

  /** After closing, the label announces 08:00 on the next working day; on Saturday
      that is Monday, two days on. */
  lemma EveningAnnouncesNextWorkingDay(day: Weekday, t: int)
    requires 1 <= day <= 6 && t > ShopClosing(day)
    ensures CheckOpeningStatus(day, t, ShopSchedule)
         == Status(false, OpensOnLabel(NextOpening(DayName(NextWorkingDay(day)), "08:00")))
    ensures day == 6 ==> CheckOpeningStatus(day, t, ShopSchedule) == Status(false, OpensMonday)
  {
    var i := if day == 6 then 2 else 1;
    EveningSearch(day, t, i);
    ShopOpensAfterLabel(day, i);
    if day == 6 {
      MondayName();
    }
  }
}

/** An optional value: `None` plays the part of `find` returning `undefined` and of `findNextOpen` returning `null`. */
module Optional {

  datatype Option<+T> = None | Some(value: T)
}

/**
 The weekly opening schedule: a list of `{ day, open, close }` records, where
 `day` is a weekday number (0 = Sunday ... 6 = Saturday) and `open`/`close`
 are times of day encoded as HHMM integers. Days without a record are closed
 all day. Lookup is `Array.prototype.find` with `s.day === day`.
 */
module Schedule {
  import opened Optional

  /** The weekday numbering of `Date.prototype.getDay`. */
  type Weekday = d: int | 0 <= d < 7

  datatype Entry = Entry(day: int, open: int, close: int)

  /** `i` is the position `find` stops at: the first record for `day`. */
  ghost predicate IsFirstMatch(s: seq<Entry>, day: int, i: int) {
    && 0 <= i < |s|
    && s[i].day == day
    && forall j :: 0 <= j < i ==> s[j].day != day
  }

  /** The index `find` visits last before returning: the first record whose day is `day`, if any. */
  function FirstMatch(s: seq<Entry>, day: int): (r: Option<nat>)
    ensures r.Some? ==> IsFirstMatch(s, day, r.value)
    ensures r.None? <==> forall i :: 0 <= i < |s| ==> s[i].day != day
    decreases |s|
  {
    if s == [] then None
    else if s[0].day == day then Some(0)
    else match FirstMatch(s[1..], day)
      case None => None
      case Some(i) => Some(i + 1)
  }

  /** `schedule.find(s => s.day === day)`: a record for `day`, absent exactly when the list has none. */
  function Lookup(s: seq<Entry>, day: int): (r: Option<Entry>)
    ensures r.Some? ==> r.value.day == day
    ensures r.None? <==> forall i :: 0 <= i < |s| ==> s[i].day != day
  {
    match FirstMatch(s, day)
    case None => None
    case Some(i) => Some(s[i])
  }

  /** Lookup returns the first record for `day` in list order. */
  lemma LookupReturnsFirst(s: seq<Entry>, day: int, i: int)
    ensures IsFirstMatch(s, day, i) ==> Lookup(s, day) == Some(s[i])
  {
    if IsFirstMatch(s, day, i) {
      var k := FirstMatch(s, day).value;
      assert IsFirstMatch(s, day, k);
      assert k == i;
    }
  }

  /** The shop has a record for `day`. */
  predicate Scheduled(s: seq<Entry>, day: int) {
    Lookup(s, day).Some?
  }

  /** No two records share a day. */
  ghost predicate DistinctDays(s: seq<Entry>) {
    forall i, j :: 0 <= i < j < |s| ==> s[i].day != s[j].day
  }

  /** The data-model invariant of a schedule: real weekdays, one record per
      day, and each window opening before it closes. */
  ghost predicate WellFormed(s: seq<Entry>) {
    && DistinctDays(s)
    && forall i :: 0 <= i < |s| ==> 0 <= s[i].day < 7 && s[i].open < s[i].close
  }

  /** With one record per day, lookup returns that day's record wherever it sits in the list. */
  lemma LookupFindsOwnRecord(s: seq<Entry>, i: int)
    requires DistinctDays(s)
    requires 0 <= i < |s|
    ensures Lookup(s, s[i].day) == Some(s[i])
  {
    LookupReturnsFirst(s, s[i].day, i);
  }

  /** With one record per day, the order of the records does not matter to lookup. */
  lemma LookupIgnoresOrder(s: seq<Entry>, s': seq<Entry>, day: int)
    requires DistinctDays(s) && DistinctDays(s')
    requires multiset(s) == multiset(s')
    ensures Lookup(s, day) == Lookup(s', day)
  {
    if Lookup(s, day).Some? {
      var k := FirstMatch(s, day).value;
      assert s[k] in multiset(s');
      var k' :| 0 <= k' < |s'| && s'[k'] == s[k];
      LookupFindsOwnRecord(s', k');
    } else {
      forall i | 0 <= i < |s'|
        ensures s'[i].day != day
      {
        assert s'[i] in multiset(s);
      }
    }
  }

  /** The shop's schedule: Monday to Friday 08:00-17:00, Saturday 08:00-13:00, closed on Sunday. */
  const ShopSchedule: seq<Entry> := [
    Entry(1, 800, 1700),
    Entry(2, 800, 1700),
    Entry(3, 800, 1700),
    Entry(4, 800, 1700),
    Entry(5, 800, 1700),
    Entry(6, 800, 1300)
  ]

  /** Portuguese weekday names, indexed by weekday number. */
  const DaysOfWeek: seq<string> := [
    "Domingo", "Segunda-feira", "Terça-feira", "Quarta-feira",
    "Quinta-feira", "Sexta-feira", "Sábado"
  ]

  /** `daysOfWeek[d]`: the Portuguese name of weekday `d`. */
  function DayName(d: Weekday): (name: string)
    ensures |name| >= 6
  {
    DaysOfWeek[d]
  }

  /** No two weekdays share a name, so a label's day name identifies the day. */
  lemma DayNameInjective(d: Weekday, e: Weekday)
    requires DayName(d) == DayName(e)
    ensures d == e
  {
  }

  /** The shop's schedule satisfies the data-model invariant. */
  lemma ShopScheduleWellFormed()
    ensures WellFormed(ShopSchedule)
  {
  }
}

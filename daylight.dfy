/** The daylight-saving rule of the door monitor (main.cpp:38-44, 88-115),
    on the broken-down local time: tm_mon counts months from 0 (January),
    tm_mday days from 1 and tm_wday weekdays from 0 (Sunday). */
module Daylight {
  /** DaylightSavingsTimeType. */
  datatype Mode = Auto | On | Off

  /** The mode the program is built with (main.cpp:44). */
  const SETTING: Mode := Auto

  /** isDaylightSavingsTimeInEffect after localtime: Off and On decide
      outright; under Auto, December to February is standard time, April
      to October is daylight time, March switches once the most recent
      Sunday is day 8 or later, November once a Sunday has passed. */
  function InEffect(mode: Mode, mon: int, mday: int, wday: int): bool
  {
    match mode
    case Off => false
    case On => true
    case Auto =>
      if mon < 2 || mon > 10 then false
      else if mon > 2 && mon < 10 then true
      else
        var previousSunday := mday - wday;
        if mon == 2 then previousSunday >= 8 else previousSunday <= 0
  }

  /** The weekday of day mday in a month whose day 1 falls on weekday
      first. */
  function WeekdayOf(first: nat, mday: nat): (w: nat)
    requires first < 7 && mday >= 1
    ensures w < 7
  {
    (first + mday - 1) % 7
  }

  /** The day of the first Sunday of a month whose day 1 falls on weekday
      first. */
  function FirstSunday(first: nat): (d: nat)
    requires first < 7
    ensures 1 <= d <= 7 && WeekdayOf(first, d) == 0
  {
    1 + (7 - first) % 7
  }

  /** The day of the second Sunday, always between 8 and 14. */
  function SecondSunday(first: nat): (d: nat)
    requires first < 7
    ensures 8 <= d <= 14 && WeekdayOf(first, d) == 0
  {
    FirstSunday(first) + 7
  }

  /** The fixed modes and the seasons under Auto. */
  lemma Seasons(mon: int, mday: int, wday: int)
    ensures !InEffect(Off, mon, mday, wday) && InEffect(On, mon, mday, wday)
    ensures (mon < 2 || mon > 10) ==> !InEffect(Auto, mon, mday, wday)
    ensures 2 < mon < 10 ==> InEffect(Auto, mon, mday, wday)
    ensures mon == 2 ==> (InEffect(Auto, mon, mday, wday) <==> mday - wday >= 8)
    ensures mon == 10 ==> (InEffect(Auto, mon, mday, wday) <==> mday - wday <= 0)
  {
  }

  /** mday - wday is the day of the latest Sunday on or before mday (zero
      or less when there is none this month): a whole number of weeks k
      (k >= -1) after the first Sunday, and less than a week before mday. */
  lemma PreviousSunday(first: nat, mday: nat) returns (k: int)
    requires first < 7 && mday >= 1
    ensures var p := mday - WeekdayOf(first, mday);
      p <= mday < p + 7 && p == FirstSunday(first) + 7 * k && k >= -1
  {
    var n := first + mday - 1;
    var q := n / 7;
    assert n == 7 * q + n % 7;
    if first == 0 {
      assert FirstSunday(first) == 1;
      k := q;
    } else {
      assert FirstSunday(first) == 8 - first;
      k := q - 1;
    }
  }

  /** In March (tm_mon 2) daylight time is in effect exactly from the
      second Sunday of the month on. */
  lemma MarchStartsOnSecondSunday(first: nat, mday: nat)
    requires first < 7 && mday >= 1
    ensures InEffect(Auto, 2, mday, WeekdayOf(first, mday)) <==> mday >= SecondSunday(first)
  {
    var k := PreviousSunday(first, mday);
  }

  /** In November (tm_mon 10) daylight time is in effect exactly before the
      first Sunday of the month. */
  lemma NovemberEndsOnFirstSunday(first: nat, mday: nat)
    requires first < 7 && mday >= 1
    ensures InEffect(Auto, 10, mday, WeekdayOf(first, mday)) <==> mday < FirstSunday(first)
  {
    var k := PreviousSunday(first, mday);
    if k >= 0 {
      assert 7 * k >= 0;
    } else {
      assert k == -1;
    }
  }
}

// When an alarm starts by the clock, if the checks read every minute.
module CalendarMinutes {
  import opened CalendarImage
  import opened CalendarSpec
  import opened CalendarRuns
  import opened CalendarEvents
  import opened CalendarAlternation
  import opened CalendarOnce
  import Civil

  const MINUTES_PER_YEAR := 365 * 1440

  // The reading at which a minute begins, minutes counted since 1970.
  function Opening(minute: nat): Civil.TmElements {
    Civil.Fields(minute * 60)
  }

  // Operations and the clock at each of them.
  predicate Clocked(ops: seq<Op>, times: seq<nat>) {
    && |times| == |ops|
    && (forall i, j :: 0 <= i < j < |times| ==> times[i] <= times[j])
    && forall k :: 0 <= k < |ops| && ops[k].Check? ==> ops[k].tm == Civil.Fields(times[k])
  }

  function MinuteOf(t: nat): nat {
    t / 60
  }

  predicate ReadIn(ops: seq<Op>, times: seq<nat>, k: nat, minute: nat)
    requires |times| == |ops|
  {
    k < |ops| && ops[k].Check? && MinuteOf(times[k]) == minute
  }

  ghost predicate IsRead(ops: seq<Op>, times: seq<nat>, minute: nat)
    requires |times| == |ops|
  {
    exists k: nat :: ReadIn(ops, times, k, minute)
  }

  // The checks read every minute after `from` up to `upto`.
  ghost predicate AllRead(ops: seq<Op>, times: seq<nat>, from: nat, upto: nat)
    requires |times| == |ops|
  {
    forall minute: nat :: from < minute <= upto ==> IsRead(ops, times, minute)
  }

  // And none comes in or before minute `from`.
  ghost predicate EveryMinute(ops: seq<Op>, times: seq<nat>, from: nat, upto: nat)
    requires |times| == |ops|
  {
    && (forall k :: 0 <= k < |ops| && ops[k].Check? ==> MinuteOf(times[k]) > from)
    && AllRead(ops, times, from, upto)
  }

  // No check in or before minute `from` switches the alarm.
  predicate SilentUpTo(ops: seq<Op>, times: seq<nat>, from: nat, a: Alarm)
    requires |times| == |ops|
  {
    forall k :: 0 <= k < |ops| && ops[k].Check? && MinuteOf(times[k]) <= from ==> !Meets(ops[k], a)
  }

  // The next minute after `from` that reads the day, hour and minute the alarm is switched at.
  ghost predicate IsNext(a: Alarm, from: nat, minute: nat) {
    && from < minute && Switches(a, Opening(minute))
    && forall m: nat :: from < m < minute ==> !Switches(a, Opening(m))
  }

  lemma MinuteBegins(t: nat)
    ensures var u := t / 60 * 60; u / 60 == t / 60 && u / 3600 == t / 3600 && u / 86400 == t / 86400
  {
    var m := t / 60;
    assert t / 3600 == m / 60 && t / 86400 == m / 1440;
    assert m * 60 / 3600 == m / 60 && m * 60 / 86400 == m / 1440;
  }

  // A reading differs from the opening of its minute in the second alone.
  lemma SwitchesByMinute(a: Alarm, t: nat)
    ensures Switches(a, Civil.Fields(t)) <==> Switches(a, Opening(MinuteOf(t)))
  {
    MinuteBegins(t);
  }

  lemma MeetsByMinute(ops: seq<Op>, times: seq<nat>, k: nat, a: Alarm)
    requires Clocked(ops, times) && k < |ops| && ops[k].Check?
    ensures Meets(ops[k], a) <==> Switches(a, Opening(MinuteOf(times[k])))
  {
    SwitchesByMinute(a, times[k]);
  }

  lemma MinutesGrow(t: nat, u: nat)
    requires t <= u
    ensures MinuteOf(t) <= MinuteOf(u)
  {
  }

  // A minute that meets the alarm and is read bounds the first check that does.
  lemma {:induction false} MetBy(ops: seq<Op>, times: seq<nat>, a: Alarm, minute: nat)
    requires Clocked(ops, times) && IsRead(ops, times, minute) && Switches(a, Opening(minute))
    ensures var k := FirstMeeting(ops, a); k < |ops| && MinuteOf(times[k]) <= minute
  {
    var i: nat :| ReadIn(ops, times, i, minute);
    MeetsByMinute(ops, times, i, a);
    var k := FirstMeeting(ops, a);
    assert k <= i && times[k] <= times[i];
    MinutesGrow(times[k], times[i]);
  }

  // The first check that meets the alarm comes in this minute exactly when it is the next one.
  lemma {:induction false} FirstMeetingIsNext(ops: seq<Op>, times: seq<nat>, from: nat, upto: nat, a: Alarm,
                                              minute: nat)
    requires Clocked(ops, times) && AllRead(ops, times, from, upto) && SilentUpTo(ops, times, from, a)
    requires from < minute <= upto && Switches(a, Opening(minute))
    ensures var k := FirstMeeting(ops, a); k < |ops| && (MinuteOf(times[k]) == minute <==> IsNext(a, from, minute))
  {
    var k := FirstMeeting(ops, a);
    MetBy(ops, times, a, minute);
    MeetsByMinute(ops, times, k, a);
    if MinuteOf(times[k]) == minute {
      forall m: nat | from < m < minute
        ensures !Switches(a, Opening(m))
      {
        if Switches(a, Opening(m)) {
          MetBy(ops, times, a, m);
        }
      }
    }
  }

  // The first on comes in this minute.
  ghost predicate StartsIn(c: Calendar, ops: seq<Op>, times: seq<nat>, id: int, minute: nat)
    requires Shaped(c) && |times| == |ops|
  {
    exists k: nat :: FirstOnBy(c, ops, k, id) && MinuteOf(times[k]) == minute
  }

  // The minute a one-time alarm is asked for.
  predicate AsksFor(op: Op, minute: nat) {
    var tm := Opening(minute);
    && op.AddOnce? && op.day == tm.Day && op.month == tm.Month && op.year == 1970 + tm.Year
    && op.hour == tm.Hour && op.minutes == tm.Minute
  }

  // Read every minute, a one-time alarm starts in the minute it is asked for exactly when no
  // minute between the add and that one has the same day, month, hour and minute.
  lemma {:induction false} StartsWhenAsked(c: Calendar, p: nat, op: Op, ops: seq<Op>, times: seq<nat>, from: nat,
                                           upto: nat, asked: nat)
    requires Recorded(c, p) && Adds(c, op) && !LeftStarted(c) && ProperRun(Add(c, op), ops)
    requires var a := AddedAlarm(c, op); SparedUntil(ops, FirstMeeting(ops, a), a)
    requires Clocked(ops, times) && EveryMinute(ops, times, from, upto) && from < asked <= upto && AsksFor(op, asked)
    ensures StartsIn(Add(c, op), ops, times, AddedId(c), asked) <==> IsNext(AddedAlarm(c, op), from, asked)
  {
    var a := AddedAlarm(c, op);
    var f := FirstMeeting(ops, a);
    FirstMeetingIsNext(ops, times, from, upto, a, asked);
    StartsAtFirstMeeting(c, p, op, ops, f);
    if k: nat :| FirstOnBy(Add(c, op), ops, k, AddedId(c)) && MinuteOf(times[k]) == asked {
      StartsAtFirstMeeting(c, p, op, ops, k);
    }
  }

  // ----- How far ahead is safe ------------------------------------------------------------------

  lemma {:induction false} MonthsAlike(y: nat, z: nat, m: nat)
    ensures Civil.DaysBeforeMonth(y, m)
            == Civil.DaysBeforeMonth(z, m) + if m > 2 then Civil.YearDays(y) - Civil.YearDays(z) else 0
  {
    if m > 1 {
      MonthsAlike(y, z, m - 1);
    }
  }

  lemma {:induction false} YearsApart(y: nat, z: nat, m: nat)
    requires y < z
    ensures Civil.DaysBeforeYear(y) + Civil.DaysBeforeMonth(y, m) + 365
         <= Civil.DaysBeforeYear(z) + Civil.DaysBeforeMonth(z, m)
  {
    MonthsAlike(z, y, m);
    Civil.YearsAddUp(y + 1, z);
  }

  predicate SameDate(a: Civil.TmElements, b: Civil.TmElements) {
    a.Day == b.Day && a.Month == b.Month && a.Hour == b.Hour && a.Minute == b.Minute
  }

  lemma InMinutes(u: nat, days: int, hour: nat, minute: nat, second: nat)
    requires u * 60 == days * 86400 + hour * 3600 + minute * 60 + second && second < 60
    ensures second == 0 && u == days * 1440 + hour * 60 + minute
  {
  }

  lemma MinuteNumber(u: nat)
    ensures var tm := Opening(u);
            tm.Second == 0 && u == Civil.DayNumber(tm) * 1440 + tm.Hour * 60 + tm.Minute
  {
    var tm := Opening(u);
    Civil.FieldsName(u * 60);
    InMinutes(u, Civil.DayNumber(tm), tm.Hour, tm.Minute, tm.Second);
  }

  lemma DaysApart(a: Civil.TmElements, b: Civil.TmElements)
    requires SameDate(a, b) && a.Year < b.Year
    ensures Civil.DayNumber(a) + 365 <= Civil.DayNumber(b)
  {
    YearsApart(a.Year, b.Year, a.Month);
  }

  lemma MinutesApart(u: nat, v: nat, days: int, days': int, rest: nat)
    requires u == days * 1440 + rest && v == days' * 1440 + rest && u < v
    requires days == days' || days + 365 <= days' || days' + 365 <= days
    ensures v - u >= MINUTES_PER_YEAR
  {
  }

  lemma SameYear(a: Civil.TmElements, b: Civil.TmElements)
    requires SameDate(a, b) && a.Year == b.Year
    ensures Civil.DayNumber(a) == Civil.DayNumber(b)
  {
  }

  // The same date and time of day comes back after 365 days at the earliest.
  lemma SameDateApart(u: nat, v: nat)
    requires u < v && SameDate(Opening(u), Opening(v))
    ensures v - u >= MINUTES_PER_YEAR
  {
    var a, b := Opening(u), Opening(v);
    MinuteNumber(u);
    MinuteNumber(v);
    if a.Year < b.Year {
      DaysApart(a, b);
    } else if b.Year < a.Year {
      DaysApart(b, a);
    } else {
      SameYear(a, b);
    }
    MinutesApart(u, v, Civil.DayNumber(a), Civil.DayNumber(b), a.Hour * 60 + a.Minute);
  }

  // Asked for no more than 365 days ahead, it starts in the minute it is asked for.
  lemma {:induction false} StartsOnTime(c: Calendar, p: nat, op: Op, ops: seq<Op>, times: seq<nat>, from: nat,
                                        upto: nat, asked: nat)
    requires Recorded(c, p) && Adds(c, op) && !LeftStarted(c) && ProperRun(Add(c, op), ops)
    requires var a := AddedAlarm(c, op); SparedUntil(ops, FirstMeeting(ops, a), a)
    requires Clocked(ops, times) && EveryMinute(ops, times, from, upto) && from < asked <= upto && AsksFor(op, asked)
    requires asked - from <= MINUTES_PER_YEAR
    ensures StartsIn(Add(c, op), ops, times, AddedId(c), asked)
  {
    var a := AddedAlarm(c, op);
    StartsWhenAsked(c, p, op, ops, times, from, upto, asked);
    forall m: nat | from < m < asked
      ensures !Switches(a, Opening(m))
    {
      if Switches(a, Opening(m)) {
        SameDateApart(m, asked);
      }
    }
  }
}

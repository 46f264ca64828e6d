// On and off by the clock: what a whole day of an alarm looks like to whoever asked for it.
module CalendarDays {
  import opened CalendarImage
  import opened CalendarSpec
  import opened CalendarRuns
  import opened CalendarEvents
  import opened CalendarAlternation
  import opened CalendarOnce
  import opened CalendarMinutes
  import Civil

  const MINUTES_PER_WEEK := 7 * 1440

  // ----- Runs in two parts ----------------------------------------------------------------------

  lemma {:induction false} RunAppends(c: Calendar, a: seq<Op>, b: seq<Op>)
    requires Shaped(c)
    ensures Run(c, a + b) == Run(Run(c, a), b)
    decreases |b|
  {
    if b == [] {
      assert a + b == a;
    } else {
      assert (a + b)[..|a + b| - 1] == a + b[..|b| - 1];
      RunAppends(c, a, b[..|b| - 1]);
    }
  }

  lemma {:induction false} ProperSuffix(c: Calendar, a: seq<Op>, b: seq<Op>)
    requires Shaped(c) && ProperRun(c, a + b)
    ensures ProperRun(Run(c, a), b)
    decreases |b|
  {
    if b != [] {
      var init := b[..|b| - 1];
      assert (a + b)[..|a + b| - 1] == a + init && (a + b)[|a + b| - 1] == b[|b| - 1];
      ProperSuffix(c, a, init);
      RunAppends(c, a, init);
    }
  }

  // ----- On, then off ---------------------------------------------------------------------------

  // Nothing asks for the removal of the alarm with this id, event and event id.
  predicate Undisturbed(ops: seq<Op>, id: int, event: int, eventId: int) {
    forall j :: 0 <= j < |ops| ==>
      && (ops[j].Remove? ==> ops[j].id != id)
      && (ops[j].RemoveBy? ==> ops[j].event != event || ops[j].eventId != eventId)
  }

  // The next call is made in this minute, by operation k.
  ghost predicate CalledIn(c: Calendar, ops: seq<Op>, times: seq<nat>, k: nat, id: int, on: bool, minute: nat)
    requires Shaped(c) && |times| == |ops|
  {
    NextCallBy(c, ops, k, id, on) && MinuteOf(times[k]) == minute
  }

  lemma {:induction false} CalledInNext(c: Calendar, p: nat, i: nat, ops: seq<Op>, times: seq<nat>, from: nat,
                                        upto: nat, minute: nat) returns (k: nat)
    requires Recorded(c, p) && i < MAX_ALARMS && c.slots[i].used && ProperRun(c, ops) && Clocked(ops, times)
    requires var a := c.slots[i]; Undisturbed(ops, a.id, a.event, a.eventId) && SilentUpTo(ops, times, from, a)
    requires AllRead(ops, times, from, upto) && minute <= upto && IsNext(c.slots[i], from, minute)
    ensures CalledIn(c, ops, times, k, c.slots[i].id, !c.slots[i].started, minute) && Meets(ops[k], c.slots[i])
    ensures Run(c, ops[..k + 1]).slots[i] == Checked(c.slots[i], ops[k].tm)
  {
    var a := c.slots[i];
    k := FirstMeeting(ops, a);
    FirstMeetingIsNext(ops, times, from, upto, a, minute);
    CallByFirstMeeting(c, p, i, ops, k);
  }

  // What is left behind operation k.
  lemma RestIsClocked(ops: seq<Op>, times: seq<nat>, k: nat)
    requires Clocked(ops, times) && k < |ops|
    ensures Clocked(ops[k + 1..], times[k + 1..])
  {
    var rest, later := ops[k + 1..], times[k + 1..];
    assert forall j :: 0 <= j < |rest| ==> rest[j] == ops[k + 1 + j] && later[j] == times[k + 1 + j];
  }

  lemma RestIsRead(ops: seq<Op>, times: seq<nat>, k: nat, minute: nat)
    requires Clocked(ops, times) && k < |ops| && IsRead(ops, times, minute) && MinuteOf(times[k]) < minute
    ensures IsRead(ops[k + 1..], times[k + 1..], minute)
  {
    var j: nat :| ReadIn(ops, times, j, minute);
    if j <= k {
      MinutesGrow(times[j], times[k]);
    }
    assert ReadIn(ops[k + 1..], times[k + 1..], j - k - 1, minute);
  }

  lemma RestIsSilent(ops: seq<Op>, times: seq<nat>, k: nat, j: nat, a: Alarm)
    requires Clocked(ops, times) && k + 1 + j < |ops| && ops[k + 1 + j].Check?
    requires MinuteOf(times[k + 1 + j]) <= MinuteOf(times[k]) && !Switches(a, Opening(MinuteOf(times[k])))
    ensures !Meets(ops[k + 1 + j], a)
  {
    MinutesGrow(times[k], times[k + 1 + j]);
    MeetsByMinute(ops, times, k + 1 + j, a);
  }

  lemma RestGoesOn(ops: seq<Op>, times: seq<nat>, k: nat, from: nat, on: nat, upto: nat, a: Alarm)
    requires Clocked(ops, times) && AllRead(ops, times, from, upto) && k < |ops|
    requires from <= on && MinuteOf(times[k]) == on && !Switches(a, Opening(on))
    ensures Clocked(ops[k + 1..], times[k + 1..]) && AllRead(ops[k + 1..], times[k + 1..], on, upto)
    ensures SilentUpTo(ops[k + 1..], times[k + 1..], on, a)
  {
    var rest, later := ops[k + 1..], times[k + 1..];
    RestIsClocked(ops, times, k);
    forall minute: nat | on < minute <= upto
      ensures IsRead(rest, later, minute)
    {
      RestIsRead(ops, times, k, minute);
    }
    forall j | 0 <= j < |rest| && rest[j].Check? && MinuteOf(later[j]) <= on
      ensures !Meets(rest[j], a)
    {
      RestIsSilent(ops, times, k, j, a);
    }
  }

  // In every run that reads every minute the alarm is switched on in minute `on` and off in
  // minute `off`, and at no other time in between.
  ghost predicate OnAndOff(c: Calendar, ops: seq<Op>, times: seq<nat>, id: int, on: nat, off: nat)
    requires Shaped(c) && |times| == |ops|
  {
    exists j: nat, k: nat :: OnAt(c, ops, times, id, on, j) && OffAt(c, ops, times, id, off, j, k)
  }

  // Operation j in minute `on` makes the first call, an on.
  ghost predicate OnAt(c: Calendar, ops: seq<Op>, times: seq<nat>, id: int, on: nat, j: nat)
    requires Shaped(c) && |times| == |ops|
  {
    && j < |ops| && MinuteOf(times[j]) == on
    && Trace(Run(c, ops[..j]).log, id) == [] && Trace(Run(c, ops[..j + 1]).log, id) == [true]
  }

  // Operation k in minute `off` makes the second call, an off.
  ghost predicate OffAt(c: Calendar, ops: seq<Op>, times: seq<nat>, id: int, off: nat, j: nat, k: nat)
    requires Shaped(c) && |times| == |ops|
  {
    && j < k < |ops| && MinuteOf(times[k]) == off
    && Trace(Run(c, ops[..k]).log, id) == [true] && Trace(Run(c, ops[..k + 1]).log, id) == [true, false]
  }

  lemma {:induction false} TraceBehind(c: Calendar, head: seq<Op>, rest: seq<Op>, n: nat, k: nat, id: int)
    requires Shaped(c) && n <= |rest| && k == |head| + n
    ensures Trace(Run(c, (head + rest)[..k]).log, id) == Trace(Run(Run(c, head), rest[..n]).log, id)
  {
    assert (head + rest)[..k] == head + rest[..n];
    RunAppends(c, head, rest[..n]);
  }

  // A next call in the rest is one in the whole, k being where the operation stands there.
  lemma {:induction false} CallBehind(c: Calendar, head: seq<Op>, rest: seq<Op>, id: int, on: bool, n: nat, k: nat)
    requires Shaped(c) && k == |head| + n && NextCallBy(Run(c, head), rest, n, id, on)
    ensures Trace(Run(c, (head + rest)[..k + 1]).log, id) == Trace(Run(c, head).log, id) + [on]
  {
    TraceBehind(c, head, rest, n + 1, k + 1, id);
  }

  lemma {:induction false} OffBehind(c: Calendar, ops: seq<Op>, head: seq<Op>, rest: seq<Op>, times: seq<nat>,
                                     later: seq<nat>, id: int, off: nat, n: nat, k: nat)
    requires Shaped(c) && ops == head + rest && head != [] && |times| == |ops| && later == times[|head|..]
    requires CalledIn(Run(c, head), rest, later, n, id, false, off) && k == |head| + n
    requires Trace(Run(c, head).log, id) == [true]
    ensures OffAt(c, ops, times, id, off, |head| - 1, k)
  {
    TraceBehind(c, head, rest, n, k, id);
    CallBehind(c, head, rest, id, false, n, k);
    assert [true] + [false] == [true, false];
  }

  lemma SplitAt<T>(s: seq<T>, k: nat)
    requires k <= |s|
    ensures s == s[..k] + s[k..]
  {
  }

  lemma {:induction false} SwitchesOff(c: Calendar, p: nat, i: nat, ops: seq<Op>, times: seq<nat>, from: nat,
                                       upto: nat, on: nat, off: nat, j: nat)
    requires Recorded(c, p) && i < MAX_ALARMS && ProperRun(c, ops) && Clocked(ops, times)
    requires AllRead(ops, times, from, upto) && from <= on && off <= upto && OnAt(c, ops, times, c.slots[i].id, on, j)
    requires var a := Run(c, ops[..j + 1]).slots[i];
             && a.used && a.started && a.id == c.slots[i].id && Undisturbed(ops, a.id, a.event, a.eventId)
             && IsNext(a, on, off) && !Switches(a, Opening(on))
    ensures OnAndOff(c, ops, times, c.slots[i].id, on, off)
  {
    var head, rest, later := ops[..j + 1], ops[j + 1..], times[j + 1..];
    SplitAt(ops, j + 1);
    ProperPrefix(c, ops, j + 1);
    ProperSuffix(c, head, rest);
    var q := RunRecorded(c, p, head);
    RestGoesOn(ops, times, j, from, on, upto, Run(c, head).slots[i]);
    var n := CalledInNext(Run(c, head), q, i, rest, later, on, upto, off);
    OffBehind(c, ops, head, rest, times, later, c.slots[i].id, off, n, j + 1 + n);
  }

  lemma {:induction false} OnThenOff(c: Calendar, p: nat, op: Op, ops: seq<Op>, times: seq<nat>, from: nat,
                                     upto: nat, on: nat, off: nat)
    requires Recorded(c, p) && Adds(c, op) && !LeftStarted(c) && ProperRun(Add(c, op), ops)
    requires Undisturbed(ops, AddedId(c), op.event, op.eventId)
    requires Clocked(ops, times) && EveryMinute(ops, times, from, upto) && off <= upto
    requires var a := AddedAlarm(c, op); a.event == op.event && a.eventId == op.eventId
    requires IsNext(AddedAlarm(c, op), from, on) && IsNext(AddedAlarm(c, op).(started := true), on, off)
    requires !Switches(AddedAlarm(c, op).(started := true), Opening(on))
    ensures OnAndOff(Add(c, op), ops, times, AddedId(c), on, off)
  {
    var c1, i := Add(c, op), FirstUnused(c.slots, 0);
    var p1 := AddedInTurn(c, p, op);
    var j := CalledInNext(c1, p1, i, ops, times, from, upto, on);
    assert OnAt(c1, ops, times, AddedId(c), on, j);
    SwitchesOff(c1, p1, i, ops, times, from, upto, on, off, j);
  }

  // ----- Weekly alarms --------------------------------------------------------------------------

  // Day 1 is a Monday; the epoch began on a Thursday, day 4.
  predicate WeekMinute(day: int, hour: int, minutes: int, m: nat) {
    day == (m / 1440 + 3) % 7 + 1 && hour == m / 60 % 24 && minutes == m % 60
  }

  lemma OpeningFields(m: nat)
    ensures var tm := Opening(m);
            tm.Minute == m % 60 && tm.Hour == m / 60 % 24 && CalendarWeekday(tm) == (m / 1440 + 3) % 7 + 1
  {
    MinutesInto(m);
    assert Opening(m).Wday == (m / 1440 + 4) % 7 + 1;
    CalendarDayNumber(m / 1440);
  }

  lemma CalendarDayNumber(days: nat)
    ensures var wd := (days + 4) % 7 + 1; (if wd == 1 then 7 else wd - 1) == (days + 3) % 7 + 1
  {
  }

  lemma MinutesInto(m: nat)
    ensures m * 60 / 60 == m && m * 60 / 3600 == m / 60 && m * 60 / 86400 == m / 1440
  {
  }

  // A weekly alarm starts and finishes on the weekday, hours and minutes asked for, Monday
  // being day 1.
  lemma WeeklySwitches(c: Calendar, op: Op, started: bool, m: nat)
    requires Adds(c, op) && op.AddWeekly?
    ensures Switches(AddedAlarm(c, op).(started := started), Opening(m)) <==>
            WeekMinute(op.day, if started then op.finishHour else op.hour,
                       if started then op.finishMinutes else op.minutes, m)
  {
    OpeningFields(m);
  }

  // The same weekday, hour and minute comes back after exactly a week.
  lemma SameWeekMinute(day: int, hour: int, minutes: int, m: nat, n: nat)
    requires WeekMinute(day, hour, minutes, m) && WeekMinute(day, hour, minutes, n) && m < n
    ensures n - m >= MINUTES_PER_WEEK
  {
    InDays(m);
    InDays(n);
    WholeWeeks(m / 1440, n / 1440);
  }

  lemma InDays(m: nat)
    ensures m == 1440 * (m / 1440) + 60 * (m / 60 % 24) + m % 60
  {
    var h := m / 60;
    assert h / 24 == m / 1440;
  }

  lemma WholeWeeks(d: nat, e: nat)
    requires (d + 3) % 7 == (e + 3) % 7 && d < e
    ensures e - d >= 7
  {
  }

  // Read every minute, a weekly alarm is switched on in the minute of the weekday and time asked
  // for, within a week of being added, and off in the next minute of its finish.
  lemma {:induction false} WeeklyOnAndOff(c: Calendar, p: nat, op: Op, ops: seq<Op>, times: seq<nat>, from: nat,
                                          upto: nat, on: nat, off: nat)
    requires Recorded(c, p) && Adds(c, op) && op.AddWeekly? && !LeftStarted(c) && ProperRun(Add(c, op), ops)
    requires Undisturbed(ops, AddedId(c), op.event, op.eventId)
    requires Clocked(ops, times) && EveryMinute(ops, times, from, upto)
    requires WeekMinute(op.day, op.hour, op.minutes, on) && from < on <= from + MINUTES_PER_WEEK
    requires WeekMinute(op.day, op.finishHour, op.finishMinutes, off) && on < off < on + MINUTES_PER_WEEK && off <= upto
    ensures OnAndOff(Add(c, op), ops, times, AddedId(c), on, off)
  {
    var a := AddedAlarm(c, op);
    WeeklySwitches(c, op, false, on);
    WeeklySwitches(c, op, true, on);
    WeeklySwitches(c, op, true, off);
    forall m: nat | from < m < on
      ensures !Switches(a, Opening(m))
    {
      WeeklySwitches(c, op, false, m);
      if Switches(a, Opening(m)) { SameWeekMinute(op.day, op.hour, op.minutes, m, on); }
    }
    forall m: nat | on <= m < off
      ensures !Switches(a.(started := true), Opening(m))
    {
      WeeklySwitches(c, op, true, m);
      if Switches(a.(started := true), Opening(m)) {
        SameWeekMinute(op.day, op.finishHour, op.finishMinutes, m, off);
      }
    }
    OnThenOff(c, p, op, ops, times, from, upto, on, off);
  }

  // ----- One-time alarms ------------------------------------------------------------------------

  // The minute a one-time alarm is to finish.
  predicate EndsIn(op: Op, minute: nat) {
    var tm := Opening(minute);
    && op.AddOnce? && op.day == tm.Day && op.month == tm.Month && op.year == 1970 + tm.Year
    && op.finishHour == tm.Hour && op.finishMinutes == tm.Minute
  }

  lemma SameDay(u: nat, v: nat)
    requires var a, b := Opening(u), Opening(v); a.Day == b.Day && a.Month == b.Month && a.Year == b.Year
    ensures u / 1440 == v / 1440
  {
    DayOfMinute(u);
    DayOfMinute(v);
  }

  lemma DayOfMinute(u: nat)
    ensures u / 1440 == Civil.DayNumber(Opening(u))
  {
    MinuteNumber(u);
    Civil.FieldsName(u * 60);
    WholeDays(u, Civil.DayNumber(Opening(u)), Opening(u).Hour * 60 + Opening(u).Minute);
  }

  lemma WholeDays(u: nat, days: int, rest: nat)
    requires u == days * 1440 + rest && rest < 1440
    ensures u / 1440 == days
  {
  }

  // Read every minute and asked for no more than 365 days ahead, a one-time alarm is switched on
  // in the minute asked for and off in the minute it is to finish.
  lemma {:induction false} OnceOnAndOff(c: Calendar, p: nat, op: Op, ops: seq<Op>, times: seq<nat>, from: nat,
                                        upto: nat, on: nat, off: nat)
    requires Recorded(c, p) && Adds(c, op) && !LeftStarted(c) && ProperRun(Add(c, op), ops)
    requires Undisturbed(ops, AddedId(c), op.event, op.eventId)
    requires Clocked(ops, times) && EveryMinute(ops, times, from, upto)
    requires AsksFor(op, on) && from < on <= from + MINUTES_PER_YEAR && EndsIn(op, off) && on < off <= upto
    ensures OnAndOff(Add(c, op), ops, times, AddedId(c), on, off)
  {
    var a := AddedAlarm(c, op);
    SameDay(on, off);
    forall m: nat | from < m < on
      ensures !Switches(a, Opening(m))
    {
      if Switches(a, Opening(m)) { SameDateApart(m, on); }
    }
    forall m: nat | on <= m < off
      ensures !Switches(a.(started := true), Opening(m))
    {
      if Switches(a.(started := true), Opening(m)) { SameDateApart(m, off); }
    }
    OnThenOff(c, p, op, ops, times, from, upto, on, off);
  }
}

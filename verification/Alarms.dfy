// The twelve-slot alarm table over the clock: which instants an alarm stands for, when it
// is next triggered, and that service passes fire it for exactly those instants.
module Alarms {
  import opened Civil
  import opened MachineWords

  const NBR_ALARMS := 12
  const INVALID_ALARM_ID := 255
  const SECS_PER_WEEK := 604800
  const SECS_PER_YEAR := 31449600
  const MAX_TIME := 0xffff_ffff

  // ----- Midnights and Sundays --------------------------------------------------------

  function PreviousMidnight(t: nat): nat {
    t / SECS_PER_DAY * SECS_PER_DAY
  }

  function NextMidnight(t: nat): nat {
    Add32(PreviousMidnight(t), SECS_PER_DAY)
  }

  function ElapsedSecsThisWeek(t: nat): nat {
    t % SECS_PER_DAY + (WeekdayOf(t) - 1) * SECS_PER_DAY
  }

  function PreviousSunday(t: nat): nat {
    Word32(t - ElapsedSecsThisWeek(t))
  }

  function NextSunday(t: nat): nat {
    Add32(PreviousSunday(t), SECS_PER_WEEK)
  }

  // ----- Slots --------------------------------------------------------------------------

  datatype AlarmType = NotAllocated | Timer | ExplicitAlarm | DailyAlarm | WeeklyAlarm

  datatype Handler = None | Some(id: nat)

  datatype Slot = Slot(handler: Handler, value: nat, nextTrigger: nat, alarmType: AlarmType, isEnabled: bool,
                       isOneShot: bool)

  const EMPTY: Slot := Slot(None, 0, 0, NotAllocated, false, false)

  predicate IsAlarm(t: AlarmType) {
    t.ExplicitAlarm? || t.DailyAlarm? || t.WeeklyAlarm?
  }

  predicate UseAbsoluteValue(t: AlarmType) {
    t.Timer? || t.ExplicitAlarm?
  }

  function UpdateNextTrigger(s: Slot, now: nat): Slot {
    if !s.isEnabled then s
    else if s.alarmType.Timer? then s.(nextTrigger := Add32(now, s.value))
    else if !IsAlarm(s.alarmType) || s.nextTrigger > now then s
    else
      match s.alarmType
      case ExplicitAlarm => s.(nextTrigger := s.value)
      case DailyAlarm =>
        if Add32(s.value, PreviousMidnight(now)) <= now
        then s.(nextTrigger := Add32(s.value, NextMidnight(now)))
        else s.(nextTrigger := Add32(s.value, PreviousMidnight(now)))
      case _ =>
        if Add32(s.value, PreviousSunday(now)) <= now
        then s.(nextTrigger := Add32(s.value, NextSunday(now)))
        else s.(nextTrigger := Add32(s.value, PreviousSunday(now)))
  }

  function Enabled(s: Slot, now: nat): Slot {
    if s.alarmType.NotAllocated? then s
    else if !(UseAbsoluteValue(s.alarmType) && s.value == 0) && s.handler.Some?
      then UpdateNextTrigger(s.(isEnabled := true), now)
    else s.(isEnabled := false)
  }

  function Freed(s: Slot): Slot {
    if s.alarmType.NotAllocated? then s
    else s.(isEnabled := false, alarmType := NotAllocated, handler := None, value := 0, nextTrigger := 0)
  }

  predicate Due(s: Slot, now: nat) {
    s.isEnabled && now >= s.nextTrigger
  }

  // What one service pass does to a slot whose handler leaves the table alone.
  function Serve(s: Slot, now: nat): Slot {
    if !Due(s, now) then s else if s.isOneShot then Freed(s) else UpdateNextTrigger(s, now)
  }

  // An unallocated slot carries nothing over to its next use.
  predicate SlotOk(s: Slot) {
    && s.value < WORD && s.nextTrigger < WORD
    && (s.alarmType.NotAllocated? ==> !s.isEnabled && s.nextTrigger == 0)
    && (s.isEnabled ==> s.handler.Some?)
  }

  // ----- The instants an alarm stands for -------------------------------------------------

  // Day 0 of the epoch was a Thursday, four days into its week.
  predicate OccursAt(s: Slot, t: nat) {
    match s.alarmType
    case DailyAlarm => t % SECS_PER_DAY == s.value % SECS_PER_DAY
    case WeeklyAlarm => (t + 4 * SECS_PER_DAY) % SECS_PER_WEEK == s.value % SECS_PER_WEEK
    case _ => false
  }

  ghost predicate LeastAfter(s: Slot, now: nat, t: nat) {
    now < t && OccursAt(s, t) && forall u :: now < u < t ==> !OccursAt(s, u)
  }

  // Clock readings for which the alarm macros neither underflow nor overflow.
  predicate InRange(now: nat) {
    SECS_PER_YEAR <= now < WORD - SECS_PER_WEEK
  }

  function Period(s: Slot): nat {
    if s.alarmType.DailyAlarm? then SECS_PER_DAY else SECS_PER_WEEK
  }

  // Seconds into the current day or week.
  function Elapsed(s: Slot, now: nat): nat {
    if s.alarmType.DailyAlarm? then now % SECS_PER_DAY else ElapsedSecsThisWeek(now)
  }

  lemma WeekRemainder(x: int, weeks: int, rest: nat)
    requires x == SECS_PER_WEEK * weeks + rest && rest < SECS_PER_WEEK
    ensures x % SECS_PER_WEEK == rest
  {
  }

  lemma WeekSplits(t: nat)
    ensures ElapsedSecsThisWeek(t) == (t + 4 * SECS_PER_DAY) % SECS_PER_WEEK
  {
    var d, r := t / SECS_PER_DAY, t % SECS_PER_DAY;
    assert t == SECS_PER_DAY * d + r;
    var w, k := (d + 4) / 7, (d + 4) % 7;
    assert d + 4 == 7 * w + k;
    WeekRemainder(t + 4 * SECS_PER_DAY, w, SECS_PER_DAY * k + r);
  }

  // Two occurrences are at least one period apart.
  lemma OccurrencesApart(s: Slot, t: nat, u: nat)
    requires s.alarmType.DailyAlarm? || s.alarmType.WeeklyAlarm?
    requires OccursAt(s, t) && OccursAt(s, u) && t < u
    ensures u - t >= Period(s)
  {
  }

  lemma DailyOffset(s: Slot, now: nat, t: int, k: int)
    requires s.alarmType.DailyAlarm? && t >= 0
    requires t == s.value + (now - now % SECS_PER_DAY) + k * SECS_PER_DAY
    ensures OccursAt(s, t)
  {
    var d := now / SECS_PER_DAY;
    assert t == s.value + SECS_PER_DAY * (d + k);
  }

  lemma WeeklyOffset(s: Slot, now: nat, t: int, k: int)
    requires s.alarmType.WeeklyAlarm? && t >= 0
    requires t == s.value + (now - (now + 4 * SECS_PER_DAY) % SECS_PER_WEEK) + k * SECS_PER_WEEK
    ensures OccursAt(s, t)
  {
    var w := (now + 4 * SECS_PER_DAY) / SECS_PER_WEEK;
    WeekRemainder(t + 4 * SECS_PER_DAY, s.value / SECS_PER_WEEK + w + k, s.value % SECS_PER_WEEK);
  }

  function Periods(s: Slot, k: int): int {
    if s.alarmType.DailyAlarm? then k * SECS_PER_DAY else k * SECS_PER_WEEK
  }

  lemma OffsetOccurs(s: Slot, now: nat, t: int, k: int)
    requires s.alarmType.DailyAlarm? || s.alarmType.WeeklyAlarm?
    requires t >= 0 && t == s.value + (now - Elapsed(s, now)) + Periods(s, k)
    ensures OccursAt(s, t)
  {
    if s.alarmType.DailyAlarm? {
      DailyOffset(s, now, t, k);
    } else {
      WeekSplits(now);
      WeeklyOffset(s, now, t, k);
    }
  }

  // The recomputed trigger of a daily or weekly alarm is the first occurrence after now,
  // exactly when its value is not more than a period beyond the time of day or week.
  lemma TriggerIsLeast(s: Slot, now: nat)
    requires s.isEnabled && (s.alarmType.DailyAlarm? || s.alarmType.WeeklyAlarm?)
    requires s.nextTrigger <= now && InRange(now) && now + s.value < WORD
    ensures LeastAfter(s, now, UpdateNextTrigger(s, now).nextTrigger)
       <==> s.value <= Period(s) + Elapsed(s, now)
  {
    var trigger := UpdateNextTrigger(s, now).nextTrigger;
    OffsetOccurs(s, now, trigger, if s.value <= Elapsed(s, now) then 1 else 0);
    if s.value <= Period(s) + Elapsed(s, now) {
      forall u | now < u < trigger
        ensures !OccursAt(s, u)
      {
        if OccursAt(s, u) {
          OccurrencesApart(s, u, trigger);
        }
      }
    } else {
      OffsetOccurs(s, now, trigger - Period(s), -1);
    }
  }

  // ----- Reading a weekly trigger back ------------------------------------------------------

  function AlarmHMS(h: int, m: int, sec: int): int {
    h * SECS_PER_HOUR + m * SECS_PER_MIN + sec
  }

  // The value alarmRepeat stores for a day of the week and a time of day.
  function WeeklyValue(dow: nat, h: nat, m: nat, sec: nat): int {
    (dow - 1) * SECS_PER_DAY + AlarmHMS(h, m, sec)
  }

  predicate ValidWeekTime(dow: nat, h: nat, m: nat, sec: nat) {
    1 <= dow <= 7 && h < 24 && m < 60 && sec < 60
  }

  lemma ClockOfSeconds(t: nat, h: nat, m: nat, sec: nat)
    requires h < 24 && m < 60 && sec < 60
    requires t % SECS_PER_DAY == h * SECS_PER_HOUR + m * SECS_PER_MIN + sec
    ensures t / 3600 % 24 == h && t / 60 % 60 == m && t % 60 == sec
  {
    var d := t / SECS_PER_DAY;
    assert t == SECS_PER_DAY * d + (t % SECS_PER_DAY);
    assert t / 60 == 1440 * d + 60 * h + m;
    assert t / 3600 == 24 * d + h;
  }

  lemma DayOfOffset(t: nat, day: nat, rest: nat)
    requires day < 7 && rest < SECS_PER_DAY
    requires (t + 4 * SECS_PER_DAY) % SECS_PER_WEEK == day * SECS_PER_DAY + rest
    ensures WeekdayOf(t) == day + 1 && t % SECS_PER_DAY == rest
  {
    WeekSplits(t);
  }

  lemma ReadsBack(t: nat, dow: nat, h: nat, m: nat, sec: nat)
    requires ValidWeekTime(dow, h, m, sec)
    requires (t + 4 * SECS_PER_DAY) % SECS_PER_WEEK == WeeklyValue(dow, h, m, sec)
    ensures WeekdayOf(t) == dow && t / 3600 % 24 == h && t / 60 % 60 == m && t % 60 == sec
  {
    DayOfOffset(t, dow - 1, AlarmHMS(h, m, sec));
    ClockOfSeconds(t, h, m, sec);
  }

  // Every occurrence of a weekly alarm, broken into fields, shows the weekday and the time
  // it was asked for.
  lemma WeeklyReadsBack(s: Slot, dow: nat, h: nat, m: nat, sec: nat, t: nat)
    requires ValidWeekTime(dow, h, m, sec) && s.alarmType.WeeklyAlarm? && s.value == WeeklyValue(dow, h, m, sec)
    requires OccursAt(s, t)
    ensures var tm := Fields(t); tm.Wday == dow && tm.Hour == h && tm.Minute == m && tm.Second == sec
  {
    ReadsBack(t, dow, h, m, sec);
  }

  // ----- Firing over whole runs ---------------------------------------------------------------

  // An enabled daily or weekly alarm whose trigger is the first occurrence after `since`,
  // the last service pass or the creation of the alarm.
  ghost predicate Armed(s: Slot, since: nat) {
    && SlotOk(s) && s.isEnabled && s.value <= Period(s)
    && (s.alarmType.DailyAlarm? || s.alarmType.WeeklyAlarm?)
    && LeastAfter(s, since, s.nextTrigger)
  }

  ghost predicate OccursWithin(s: Slot, after: nat, upto: nat) {
    exists t :: after < t <= upto && OccursAt(s, t)
  }

  // A pass at `now` fires an armed alarm exactly when an occurrence has come since, and
  // leaves a repeating one armed again.
  lemma PassFires(s: Slot, since: nat, now: nat)
    requires Armed(s, since) && since <= now && InRange(now)
    ensures Due(s, now) <==> OccursWithin(s, since, now)
    ensures !s.isOneShot || !Due(s, now) ==> Armed(Serve(s, now), now)
    ensures s.isOneShot && Due(s, now) ==> Serve(s, now).alarmType.NotAllocated?
  {
    if Due(s, now) {
      assert since < s.nextTrigger <= now && OccursAt(s, s.nextTrigger);
      var s' := Serve(s, now);
      if !s.isOneShot {
        TriggerIsLeast(s, now);
        assert forall u :: OccursAt(s', u) == OccursAt(s, u);
      }
    }
  }

  predicate Rising(since: nat, times: seq<nat>) {
    times == [] ||
    (var init, now := times[..|times| - 1], times[|times| - 1];
     Rising(since, init) && LastTime(since, init) <= now && InRange(now))
  }

  function ServeAll(s: Slot, times: seq<nat>): Slot {
    if times == [] then s else Serve(ServeAll(s, times[..|times| - 1]), times[|times| - 1])
  }

  function LastTime(since: nat, times: seq<nat>): nat {
    if times == [] then since else times[|times| - 1]
  }

  lemma {:induction false} RisingPrefix(since: nat, times: seq<nat>, i: nat)
    requires Rising(since, times) && i < |times|
    ensures Rising(since, times[..i]) && LastTime(since, times[..i]) <= times[i] && InRange(times[i])
    decreases |times|
  {
    if i < |times| - 1 {
      var init := times[..|times| - 1];
      RisingPrefix(since, init, i);
      assert init[..i] == times[..i];
    }
  }

  lemma {:induction false} StaysArmed(s: Slot, since: nat, times: seq<nat>)
    requires Armed(s, since) && !s.isOneShot && Rising(since, times)
    ensures Armed(ServeAll(s, times), LastTime(since, times))
    ensures ServeAll(s, times).(nextTrigger := 0) == s.(nextTrigger := 0)
    decreases |times|
  {
    if times != [] {
      var init, now := times[..|times| - 1], times[|times| - 1];
      StaysArmed(s, since, init);
      PassFires(ServeAll(s, init), LastTime(since, init), now);
    }
  }

  // Over every run of passes at non-decreasing times, a repeating daily or weekly alarm
  // fires in a pass exactly when one of its occurrences lies after the previous pass (or
  // its creation) and not after this one.
  lemma {:induction false} ExactFiring(s: Slot, since: nat, times: seq<nat>, i: nat)
    requires Armed(s, since) && !s.isOneShot && Rising(since, times) && i < |times|
    ensures Due(ServeAll(s, times[..i]), times[i])
       <==> OccursWithin(s, LastTime(since, times[..i]), times[i])
  {
    var init := times[..i];
    RisingPrefix(since, times, i);
    StaysArmed(s, since, init);
    PassFires(ServeAll(s, init), LastTime(since, init), times[i]);
    SameOccurrences(s, ServeAll(s, init), LastTime(since, init), times[i]);
  }

  lemma SameOccurrences(a: Slot, b: Slot, after: nat, upto: nat)
    requires a.(nextTrigger := 0) == b.(nextTrigger := 0)
    ensures OccursWithin(a, after, upto) <==> OccursWithin(b, after, upto)
  {
    assert forall t :: OccursAt(a, t) == OccursAt(b, t);
  }

  lemma {:induction false} OneShotState(s: Slot, since: nat, times: seq<nat>)
    requires Armed(s, since) && s.isOneShot && Rising(since, times)
    ensures since <= LastTime(since, times) && SlotOk(ServeAll(s, times))
    ensures if OccursWithin(s, since, LastTime(since, times)) then ServeAll(s, times).alarmType.NotAllocated?
            else ServeAll(s, times) == s && Armed(s, LastTime(since, times))
    decreases |times|
  {
    if times != [] {
      var init, now := times[..|times| - 1], times[|times| - 1];
      var last := LastTime(since, init);
      OneShotState(s, since, init);
      if !OccursWithin(s, since, last) {
        PassFires(s, last, now);
      }
    }
  }

  // A one-shot alarm fires in the first pass to come after an occurrence and in no other,
  // for its slot is free from then on.
  lemma {:induction false} OneShotFiring(s: Slot, since: nat, times: seq<nat>, i: nat)
    requires Armed(s, since) && s.isOneShot && Rising(since, times) && i < |times|
    ensures Due(ServeAll(s, times[..i]), times[i]) <==>
            OccursWithin(s, since, times[i]) && !OccursWithin(s, since, LastTime(since, times[..i]))
    ensures Due(ServeAll(s, times[..i]), times[i]) ==> ServeAll(s, times[..i + 1]).alarmType.NotAllocated?
  {
    var init, last := times[..i], LastTime(since, times[..i]);
    RisingPrefix(since, times, i);
    OneShotState(s, since, init);
    if !OccursWithin(s, since, last) {
      PassFires(s, last, times[i]);
    }
    assert times[..i + 1][..i] == init;
  }

  // ----- The table --------------------------------------------------------------------------

  predicate TableOk(table: seq<Slot>) {
    |table| == NBR_ALARMS && forall i :: 0 <= i < |table| ==> SlotOk(table[i])
  }

  // The first unallocated slot from i on.
  function FirstFree(table: seq<Slot>, i: nat): (r: nat)
    requires i <= |table|
    ensures i <= r <= |table|
    ensures forall k :: i <= k < r ==> !table[k].alarmType.NotAllocated?
    ensures r < |table| ==> table[r].alarmType.NotAllocated?
    decreases |table| - i
  {
    if i == |table| || table[i].alarmType.NotAllocated? then i else FirstFree(table, i + 1)
  }

  predicate Refused(alarmType: AlarmType, value: nat, now: nat) {
    (IsAlarm(alarmType) && now < SECS_PER_YEAR) || (UseAbsoluteValue(alarmType) && value == 0)
  }

  function Allocated(s: Slot, value: nat, handler: Handler, oneShot: bool, alarmType: AlarmType, now: nat): Slot {
    Enabled(s.(handler := handler, isOneShot := oneShot, alarmType := alarmType, value := value), now)
  }

  // A new daily or weekly alarm is armed from the moment it is made, also in a slot that
  // held another alarm before.
  lemma CreatedIsArmed(s: Slot, value: nat, handler: Handler, oneShot: bool, alarmType: AlarmType, now: nat)
    requires SlotOk(s) && s.alarmType.NotAllocated? && handler.Some? && InRange(now)
    requires alarmType.DailyAlarm? || alarmType.WeeklyAlarm?
    requires value <= if alarmType.DailyAlarm? then SECS_PER_DAY else SECS_PER_WEEK
    ensures Armed(Allocated(s, value, handler, oneShot, alarmType, now), now)
  {
    var s' := s.(handler := handler, isOneShot := oneShot, alarmType := alarmType, value := value, isEnabled := true);
    var trigger := UpdateNextTrigger(s', now).nextTrigger;
    TriggerIsLeast(s', now);
    assert forall u :: OccursAt(s', u) == OccursAt(s'.(nextTrigger := trigger), u);
  }

  function ServeTable(table: seq<Slot>, now: nat): (t: seq<Slot>)
    ensures |t| == |table|
    ensures forall i :: 0 <= i < |table| ==> t[i] == Serve(table[i], now)
  {
    seq(|table|, i requires 0 <= i < |table| => Serve(table[i], now))
  }

  // The handlers called by a pass, in slot order.
  function Fired(table: seq<Slot>, now: nat, n: nat): seq<nat>
    requires n <= |table|
  {
    if n == 0 then []
    else Fired(table, now, n - 1)
         + (if Due(table[n - 1], now) && table[n - 1].handler.Some? then [table[n - 1].handler.id] else [])
  }

  lemma {:induction false} FiredIsDue(table: seq<Slot>, now: nat, n: nat, x: nat)
    requires n <= |table|
    ensures x in Fired(table, now, n) <==> exists k :: 0 <= k < n && Due(table[k], now) && table[k].handler == Some(x)
  {
    if n > 0 {
      FiredIsDue(table, now, n - 1, x);
    }
  }

  // How many of the first n slots call a handler.
  function CallsBefore(table: seq<Slot>, now: nat, n: nat): nat
    requires n <= |table|
  {
    if n == 0 then 0
    else CallsBefore(table, now, n - 1) + if Due(table[n - 1], now) && table[n - 1].handler.Some? then 1 else 0
  }

  // Each due slot calls its handler once, and the calls come in slot order.
  lemma {:induction false} FiredInOrder(table: seq<Slot>, now: nat, n: nat, k: nat)
    requires k < n <= |table| && Due(table[k], now) && table[k].handler.Some?
    ensures |Fired(table, now, n)| == CallsBefore(table, now, n)
    ensures CallsBefore(table, now, k) < |Fired(table, now, n)|
    ensures Fired(table, now, n)[CallsBefore(table, now, k)] == table[k].handler.id
  {
    FiredCount(table, now, n - 1);
    if k < n - 1 {
      FiredInOrder(table, now, n - 1, k);
    }
  }

  lemma {:induction false} FiredCount(table: seq<Slot>, now: nat, n: nat)
    requires n <= |table|
    ensures |Fired(table, now, n)| == CallsBefore(table, now, n)
  {
    if n > 0 {
      FiredCount(table, now, n - 1);
    }
  }

  function ServePasses(table: seq<Slot>, times: seq<nat>): (t: seq<Slot>)
    ensures |t| == |table|
  {
    if times == [] then table else ServeTable(ServePasses(table, times[..|times| - 1]), times[|times| - 1])
  }

  lemma {:induction false} SlotOfPasses(table: seq<Slot>, times: seq<nat>, k: nat)
    requires k < |table|
    ensures ServePasses(table, times)[k] == ServeAll(table[k], times)
    decreases |times|
  {
    if times != [] {
      SlotOfPasses(table, times[..|times| - 1], k);
    }
  }

  lemma {:induction false} HandlerStays(s: Slot, times: seq<nat>, x: nat)
    requires s.handler != Some(x)
    ensures ServeAll(s, times).handler != Some(x)
    decreases |times|
  {
    if times != [] {
      HandlerStays(s, times[..|times| - 1], x);
    }
  }

  // The same for the whole table: in every run of passes, the handler that belongs to a
  // repeating daily or weekly alarm alone is called in exactly the passes that follow one
  // of its occurrences.
  lemma {:induction false} CalledExactly(table: seq<Slot>, k: nat, since: nat, times: seq<nat>, i: nat, x: nat)
    requires TableOk(table) && k < NBR_ALARMS && table[k].handler == Some(x)
    requires forall j :: 0 <= j < NBR_ALARMS && j != k ==> table[j].handler != Some(x)
    requires Armed(table[k], since) && !table[k].isOneShot && Rising(since, times) && i < |times|
    ensures x in Fired(ServePasses(table, times[..i]), times[i], NBR_ALARMS)
       <==> OccursWithin(table[k], LastTime(since, times[..i]), times[i])
  {
    var before := ServePasses(table, times[..i]);
    FiredIsDue(before, times[i], NBR_ALARMS, x);
    SlotOfPasses(table, times[..i], k);
    ExactFiring(table[k], since, times, i);
    RisingPrefix(since, times, i);
    StaysArmed(table[k], since, times[..i]);
    forall j | 0 <= j < NBR_ALARMS && j != k
      ensures before[j].handler != Some(x)
    {
      SlotOfPasses(table, times[..i], j);
      HandlerStays(table[j], times[..i], x);
    }
  }

  function Earliest(table: seq<Slot>, n: nat): (t: nat)
    requires n <= |table|
    ensures t <= MAX_TIME
    ensures forall i :: 0 <= i < n && !table[i].alarmType.NotAllocated? ==> t <= table[i].nextTrigger
    ensures t < MAX_TIME ==> exists i :: 0 <= i < n && !table[i].alarmType.NotAllocated? && t == table[i].nextTrigger
  {
    if n == 0 then MAX_TIME
    else
      var t := Earliest(table, n - 1);
      if !table[n - 1].alarmType.NotAllocated? && table[n - 1].nextTrigger < t then table[n - 1].nextTrigger else t
  }

  // Before the reported next trigger no pass fires anything; at it, a pass fires the alarm
  // it belongs to unless that alarm is disabled.
  lemma {:induction false} NextTriggerIsNext(table: seq<Slot>, now: nat)
    requires TableOk(table)
    ensures now < Earliest(table, |table|) ==>
              Fired(table, now, |table|) == [] && ServeTable(table, now) == table
    ensures now == Earliest(table, |table|) < MAX_TIME ==>
              exists i :: 0 <= i < |table| && !table[i].alarmType.NotAllocated?
                          && now == table[i].nextTrigger && (table[i].isEnabled ==> Due(table[i], now))
  {
    if now < Earliest(table, |table|) {
      NothingFires(table, now, |table|);
    }
  }

  lemma {:induction false} NothingFires(table: seq<Slot>, now: nat, n: nat)
    requires n <= |table| && forall i :: 0 <= i < n ==> !Due(table[i], now)
    ensures Fired(table, now, n) == []
  {
    if n > 0 {
      NothingFires(table, now, n - 1);
    }
  }

  class TimeAlarms {
    const slots: array<Slot>
    var isServicing: bool
    var servicedAlarmId: nat

    ghost predicate Valid()
      reads this, slots
    {
      TableOk(slots[..])
    }

    constructor ()
      ensures Valid() && fresh(slots) && !isServicing
      ensures forall i :: 0 <= i < NBR_ALARMS ==> slots[i] == EMPTY
    {
      isServicing, servicedAlarmId := false, 0;
      slots := new Slot[NBR_ALARMS](_ => EMPTY);
      new;
      for id := 0 to NBR_ALARMS
        invariant !isServicing && forall i :: 0 <= i < NBR_ALARMS ==> slots[i] == EMPTY
      {
        this.Free(id);
      }
    }

    predicate IsAllocated(id: nat)
      reads slots
    {
      id < slots.Length && !slots[id].alarmType.NotAllocated?
    }

    method Free(id: nat)
      requires Valid()
      modifies slots
      ensures Valid()
      ensures slots[..] == if id < NBR_ALARMS then old(slots[..])[id := Freed(old(slots[id]))] else old(slots[..])
    {
      if IsAllocated(id) {
        slots[id] := slots[id].(isEnabled := false, alarmType := NotAllocated, handler := None,
                                value := 0, nextTrigger := 0);
      }
    }

    method Disable(id: nat)
      requires Valid()
      modifies slots
      ensures Valid()
      ensures slots[..] == if id < NBR_ALARMS && !old(slots[id]).alarmType.NotAllocated?
                           then old(slots[..])[id := old(slots[id]).(isEnabled := false)] else old(slots[..])
    {
      if IsAllocated(id) {
        slots[id] := slots[id].(isEnabled := false);
      }
    }

    method Enable(id: nat, now: nat)
      requires Valid()
      modifies slots
      ensures Valid()
      ensures slots[..] == if id < NBR_ALARMS then old(slots[..])[id := Enabled(old(slots[id]), now)]
              else old(slots[..])
    {
      if IsAllocated(id) {
        if !(UseAbsoluteValue(slots[id].alarmType) && slots[id].value == 0) && slots[id].handler.Some? {
          slots[id] := slots[id].(isEnabled := true);
          Refresh(id, now);
        } else {
          slots[id] := slots[id].(isEnabled := false);
        }
      }
    }

    // updateNextTrigger on one slot.
    method Refresh(id: nat, now: nat)
      requires id < slots.Length
      modifies slots
      ensures slots[..] == old(slots[..])[id := UpdateNextTrigger(old(slots[id]), now)]
    {
      var s := slots[id];
      if s.isEnabled {
        var time := now;
        if IsAlarm(s.alarmType) && s.nextTrigger <= time {
          if s.alarmType.ExplicitAlarm? {
            slots[id] := s.(nextTrigger := s.value);
          } else if s.alarmType.DailyAlarm? {
            if Add32(s.value, PreviousMidnight(now)) <= time {
              slots[id] := s.(nextTrigger := Add32(s.value, NextMidnight(time)));
            } else {
              slots[id] := s.(nextTrigger := Add32(s.value, PreviousMidnight(time)));
            }
          } else {
            if Add32(s.value, PreviousSunday(now)) <= time {
              slots[id] := s.(nextTrigger := Add32(s.value, NextSunday(time)));
            } else {
              slots[id] := s.(nextTrigger := Add32(s.value, PreviousSunday(time)));
            }
          }
        }
        if s.alarmType.Timer? {
          slots[id] := s.(nextTrigger := Add32(time, s.value));
        }
      }
    }

    method Write(id: nat, value: nat, now: nat)
      requires Valid() && value < WORD
      modifies slots
      ensures Valid()
      ensures slots[..] == if id < NBR_ALARMS && !old(slots[id]).alarmType.NotAllocated?
                           then old(slots[..])[id := Enabled(old(slots[id]).(value := value, nextTrigger := 0), now)]
                           else old(slots[..])
    {
      if IsAllocated(id) {
        slots[id] := slots[id].(value := value, nextTrigger := 0);
        Enable(id, now);
      }
    }

    method Create(value: nat, handler: Handler, oneShot: bool, alarmType: AlarmType, now: nat) returns (id: nat)
      requires Valid() && value < WORD && !alarmType.NotAllocated?
      modifies slots
      ensures Valid()
      ensures var free := FirstFree(old(slots[..]), 0);
              if Refused(alarmType, value, now) || free == 12
              then id == 255 && slots[..] == old(slots[..])
              else id == free && slots[..] ==
                   old(slots[..])[id := Allocated(old(slots[free]), value, handler, oneShot, alarmType, now)]
    {
      if !Refused(alarmType, value, now) {
        id := 0;
        while id < NBR_ALARMS
          invariant id <= NBR_ALARMS && slots[..] == old(slots[..])
          invariant FirstFree(slots[..], id) == FirstFree(old(slots[..]), 0)
        {
          if slots[id].alarmType.NotAllocated? {
            slots[id] := slots[id].(handler := handler, isOneShot := oneShot, alarmType := alarmType, value := value);
            Enable(id, now);
            return;
          }
          id := id + 1;
        }
      }
      id := INVALID_ALARM_ID;
    }

    // alarmRepeat on a day of the week; a Sunday midnight has value 0 and is refused. Without a
    // handler the slot is taken but stays disabled.
    method AlarmRepeatWeekly(dow: nat, h: nat, m: nat, sec: nat, handler: Handler, now: nat) returns (id: nat)
      requires Valid() && ValidWeekTime(dow, h, m, sec)
      modifies slots
      ensures Valid()
      ensures id == INVALID_ALARM_ID <==>
              || WeeklyValue(dow, h, m, sec) == 0 || now < SECS_PER_YEAR
              || forall i :: 0 <= i < NBR_ALARMS ==> !old(slots[i]).alarmType.NotAllocated?
      ensures id == INVALID_ALARM_ID ==> slots[..] == old(slots[..])
      ensures id != INVALID_ALARM_ID ==>
                && id < NBR_ALARMS && old(slots[id]).alarmType.NotAllocated?
                && (forall i :: 0 <= i < NBR_ALARMS && i != id ==> slots[i] == old(slots[i]))
                && slots[id].alarmType.WeeklyAlarm? && !slots[id].isOneShot && slots[id].handler == handler
                && slots[id].value == WeeklyValue(dow, h, m, sec) && slots[id].isEnabled == handler.Some?
      ensures id != INVALID_ALARM_ID && handler.Some? && now < WORD - SECS_PER_WEEK ==>
                && Armed(slots[id], now)
                && var tm := Fields(slots[id].nextTrigger);
                   tm.Wday == dow && tm.Hour == h && tm.Minute == m && tm.Second == sec
    {
      var value := WeeklyValue(dow, h, m, sec);
      if value <= 0 { return INVALID_ALARM_ID; }
      id := Create(value, handler, false, WeeklyAlarm, now);
      if id != INVALID_ALARM_ID && handler.Some? && now < WORD - SECS_PER_WEEK {
        CreatedIsArmed(old(slots[id]), value, handler, false, WeeklyAlarm, now);
        WeeklyReadsBack(slots[id], dow, h, m, sec, slots[id].nextTrigger);
      }
    }

    // alarmRepeat at a time of day.
    method AlarmRepeatDaily(value: nat, handler: Handler, now: nat) returns (id: nat)
      requires Valid() && value < WORD
      modifies slots
      ensures Valid()
      ensures id == INVALID_ALARM_ID <==>
              || value > SECS_PER_DAY || now < SECS_PER_YEAR
              || forall i :: 0 <= i < NBR_ALARMS ==> !old(slots[i]).alarmType.NotAllocated?
      ensures id == INVALID_ALARM_ID ==> slots[..] == old(slots[..])
      ensures id != INVALID_ALARM_ID ==>
                && id < NBR_ALARMS && old(slots[id]).alarmType.NotAllocated?
                && (forall i :: 0 <= i < NBR_ALARMS && i != id ==> slots[i] == old(slots[i]))
                && slots[id].alarmType.DailyAlarm? && !slots[id].isOneShot && slots[id].handler == handler
                && slots[id].value == value && slots[id].isEnabled == handler.Some?
      ensures id != INVALID_ALARM_ID && handler.Some? && now < WORD - SECS_PER_WEEK ==> Armed(slots[id], now)
    {
      if value > SECS_PER_DAY { return INVALID_ALARM_ID; }
      id := Create(value, handler, false, DailyAlarm, now);
      if id != INVALID_ALARM_ID && handler.Some? && now < WORD - SECS_PER_WEEK {
        CreatedIsArmed(old(slots[id]), value, handler, false, DailyAlarm, now);
      }
    }

    method ServiceOne(id: nat, now: nat) returns (called: Handler)
      requires Valid() && id < NBR_ALARMS
      modifies slots
      ensures Valid()
      ensures slots[..] == old(slots[..])[id := Serve(old(slots[id]), now)]
      ensures called == if Due(old(slots[id]), now) then old(slots[id]).handler else None
    {
      var s := slots[id];
      called := None;
      if s.isEnabled && now >= s.nextTrigger {
        called := s.handler;
        if s.isOneShot {
          Free(id);
        } else {
          Refresh(id, now);
        }
      }
    }

    // One pass over the table. The handlers called are returned in the order of the calls;
    // they are taken to leave the table alone.
    method ServiceAlarms(now: nat) returns (fired: seq<nat>)
      requires Valid()
      modifies this, slots
      ensures Valid() && isServicing == old(isServicing)
      ensures if old(isServicing) then slots[..] == old(slots[..]) && fired == []
              else slots[..] == ServeTable(old(slots[..]), now) && fired == Fired(old(slots[..]), now, NBR_ALARMS)
    {
      fired := [];
      if isServicing { return; }
      isServicing := true;
      servicedAlarmId := 0;
      ghost var before := slots[..];
      while servicedAlarmId < NBR_ALARMS
        invariant servicedAlarmId <= NBR_ALARMS && isServicing && Valid()
        invariant forall i :: 0 <= i < servicedAlarmId ==> slots[i] == Serve(before[i], now)
        invariant forall i :: servicedAlarmId <= i < NBR_ALARMS ==> slots[i] == before[i]
        invariant fired == Fired(before, now, servicedAlarmId)
      {
        var called := ServiceOne(servicedAlarmId, now);
        if called.Some? {
          fired := fired + [called.id];
        }
        servicedAlarmId := servicedAlarmId + 1;
      }
      isServicing := false;
      assert slots[..] == ServeTable(before, now);
    }

    method GetNextTrigger() returns (t: nat)
      requires Valid()
      ensures var e := Earliest(slots[..], NBR_ALARMS); t == if e == MAX_TIME then 0 else e
    {
      t := MAX_TIME;
      for id := 0 to NBR_ALARMS
        invariant t == Earliest(slots[..], id)
      {
        if IsAllocated(id) && slots[id].nextTrigger < t {
          t := slots[id].nextTrigger;
        }
      }
      if t == MAX_TIME { t := 0; }
    }
  }
}

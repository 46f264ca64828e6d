// When an alarm just added starts, and what is left of one that happens once.
module CalendarOnce {
  import opened CalendarImage
  import opened CalendarSpec
  import opened CalendarRuns
  import opened CalendarEvents
  import opened CalendarAlternation
  import Civil

  // ----- The first call -------------------------------------------------------------------------

  // A check that reads the day, hour and minute at which the alarm is next switched.
  predicate Meets(op: Op, a: Alarm) {
    op.Check? && Switches(a, op.tm)
  }

  function FirstMeeting(ops: seq<Op>, a: Alarm): (k: nat)
    ensures k <= |ops| && (k < |ops| ==> Meets(ops[k], a))
    ensures forall j :: 0 <= j < k ==> !Meets(ops[j], a)
  {
    if ops == [] || Meets(ops[0], a) then 0 else 1 + FirstMeeting(ops[1..], a)
  }

  // The operation does not ask for the alarm's removal.
  predicate Spares(op: Op, a: Alarm) {
    && (op.Remove? ==> op.id != a.id)
    && (op.RemoveBy? ==> op.event != a.event || op.eventId != a.eventId)
  }

  predicate SparedUntil(ops: seq<Op>, k: nat, a: Alarm) {
    k <= |ops| && forall j :: 0 <= j < k ==> Spares(ops[j], a)
  }

  // The alarm is in its slot, and these calls have been made for it.
  ghost predicate Waits(c: Calendar, i: nat, a: Alarm, calls: seq<bool>) {
    i < |c.slots| && c.slots[i] == a && a.used && Trace(c.log, a.id) == calls
  }

  lemma StepWaits(c: Calendar, p: nat, op: Op, i: nat, a: Alarm, calls: seq<bool>)
    requires Recorded(c, p) && Proper(c, op) && Waits(c, i, a, calls) && Spares(op, a) && !Meets(op, a)
    ensures Waits(Step(c, op), i, a, calls)
  {
    match op
    case Remove(id) =>
      var j :| 0 <= j < MAX_ALARMS && c.slots[j].used && c.slots[j].id == id;
      RemovesExactly(c, p, j);
    case RemoveBy(event, eventId) =>
      RemoveMatchingKeepsLog(c, event, eventId, MAX_ALARMS);
    case Check(tm) =>
      ChecksOnce(c, p, tm, MAX_ALARMS, i);
    case _ =>
  }

  lemma {:induction false} RunWaits(c: Calendar, p: nat, ops: seq<Op>, i: nat, a: Alarm, calls: seq<bool>)
    requires Recorded(c, p) && ProperRun(c, ops) && Waits(c, i, a, calls) && SparedUntil(ops, |ops|, a)
    requires forall j :: 0 <= j < |ops| ==> !Meets(ops[j], a)
    ensures Waits(Run(c, ops), i, a, calls)
    decreases |ops|
  {
    if ops != [] {
      var init := ops[..|ops| - 1];
      RunWaits(c, p, init, i, a, calls);
      var q := RunRecorded(c, p, init);
      StepWaits(Run(c, init), q, ops[|ops| - 1], i, a, calls);
    }
  }

  lemma {:induction false} ProperPrefix(c: Calendar, ops: seq<Op>, k: nat)
    requires Shaped(c) && ProperRun(c, ops) && k <= |ops|
    ensures ProperRun(c, ops[..k])
    decreases |ops|
  {
    if k < |ops| {
      ProperPrefix(c, ops[..|ops| - 1], k);
      assert ops[..|ops| - 1][..k] == ops[..k];
    } else {
      assert ops[..k] == ops;
    }
  }

  lemma {:induction false} WaitsUntil(c: Calendar, p: nat, i: nat, ops: seq<Op>, k: nat)
    requires Recorded(c, p) && i < MAX_ALARMS && c.slots[i].used && ProperRun(c, ops)
    requires k <= FirstMeeting(ops, c.slots[i]) && SparedUntil(ops, k, c.slots[i])
    ensures Waits(Run(c, ops[..k]), i, c.slots[i], Trace(c.log, c.slots[i].id))
  {
    ProperPrefix(c, ops, k);
    RunWaits(c, p, ops[..k], i, c.slots[i], Trace(c.log, c.slots[i].id));
  }

  // Calls are never taken back.
  ghost predicate Keeps(c: Calendar, r: Calendar, id: int) {
    |Trace(c.log, id)| <= |Trace(r.log, id)|
  }

  lemma {:induction false} CheckKeeps(c: Calendar, p: nat, tm: Civil.TmElements, n: nat, id: int)
    requires Recorded(c, p) && n <= MAX_ALARMS
    ensures Keeps(c, CheckFirst(c, tm, n), id)
  {
    if n > 0 {
      CheckKeeps(c, p, tm, n - 1, id);
      CheckRecorded(c, p, tm, n - 1);
      var c' := CheckFirst(c, tm, n - 1);
      if c'.slots[n - 1].used {
        CheckAlarmRecorded(c', p, n - 1, tm);
      }
    }
  }

  lemma StepKeeps(c: Calendar, p: nat, op: Op, id: int)
    requires Recorded(c, p)
    ensures Keeps(c, Step(c, op), id)
  {
    if op.RemoveBy? { RemoveMatchingKeepsLog(c, op.event, op.eventId, MAX_ALARMS); }
    if op.Check? { CheckKeeps(c, p, op.tm, MAX_ALARMS, id); }
  }

  lemma {:induction false} RunKeeps(c: Calendar, p: nat, ops: seq<Op>, j: nat, k: nat, id: int)
    requires Recorded(c, p) && ProperRun(c, ops) && j <= k <= |ops|
    ensures Keeps(Run(c, ops[..j]), Run(c, ops[..k]), id)
    decreases k
  {
    if j < k {
      RunKeeps(c, p, ops, j, k - 1, id);
      ProperPrefix(c, ops, k - 1);
      var q := RunRecorded(c, p, ops[..k - 1]);
      RunSnoc(c, ops, k - 1);
      StepKeeps(Run(c, ops[..k - 1]), q, ops[k - 1], id);
    }
  }

  lemma {:induction false} RunSnoc(c: Calendar, ops: seq<Op>, k: nat)
    requires Shaped(c) && k < |ops|
    ensures Run(c, ops[..k + 1]) == Step(Run(c, ops[..k]), ops[k])
  {
    assert ops[..k + 1][..k] == ops[..k];
  }

  // The next call for the alarm is this one, and it is made by operation k.
  ghost predicate NextCallBy(c: Calendar, ops: seq<Op>, k: nat, id: int, on: bool)
    requires Shaped(c)
  {
    && k < |ops| && Trace(Run(c, ops[..k]).log, id) == Trace(c.log, id)
    && Trace(Run(c, ops[..k + 1]).log, id) == Trace(c.log, id) + [on]
  }

  lemma {:induction false} CallByFirstMeeting(c: Calendar, p: nat, i: nat, ops: seq<Op>, k: nat)
    requires Recorded(c, p) && i < MAX_ALARMS && c.slots[i].used && ProperRun(c, ops)
    requires k == FirstMeeting(ops, c.slots[i]) < |ops| && SparedUntil(ops, k, c.slots[i])
    ensures NextCallBy(c, ops, k, c.slots[i].id, !c.slots[i].started)
    ensures Run(c, ops[..k + 1]).slots[i] == Checked(c.slots[i], ops[k].tm)
  {
    WaitsUntil(c, p, i, ops, k);
    ProperPrefix(c, ops, k);
    var q := RunRecorded(c, p, ops[..k]);
    RunSnoc(c, ops, k);
    ChecksOnce(Run(c, ops[..k]), q, ops[k].tm, MAX_ALARMS, i);
  }

  lemma {:induction false} NotBeforeMeeting(c: Calendar, p: nat, i: nat, ops: seq<Op>, k: nat, on: bool)
    requires Recorded(c, p) && i < MAX_ALARMS && c.slots[i].used && ProperRun(c, ops)
    requires var a := c.slots[i]; k < FirstMeeting(ops, a) && SparedUntil(ops, FirstMeeting(ops, a), a)
    ensures !NextCallBy(c, ops, k, c.slots[i].id, on)
  {
    WaitsUntil(c, p, i, ops, k + 1);
  }

  lemma {:induction false} NotAfterFirst(c: Calendar, p: nat, ops: seq<Op>, f: nat, k: nat, id: int, on: bool)
    requires Recorded(c, p) && ProperRun(c, ops) && NextCallBy(c, ops, f, id, on) && f < k
    ensures !NextCallBy(c, ops, k, id, on)
  {
    if k < |ops| {
      RunKeeps(c, p, ops, f + 1, k, id);
    }
  }

  // The next call for an alarm in the calendar switches it, by the first check that reads the
  // day, hour and minute it is to be switched at, and by no other operation.
  lemma {:induction false} NextCallAtMeeting(c: Calendar, p: nat, i: nat, ops: seq<Op>, k: nat)
    requires Recorded(c, p) && i < MAX_ALARMS && c.slots[i].used && ProperRun(c, ops)
    requires var a := c.slots[i]; SparedUntil(ops, FirstMeeting(ops, a), a)
    ensures var a := c.slots[i];
            NextCallBy(c, ops, k, a.id, !a.started) <==> k == FirstMeeting(ops, a) < |ops|
  {
    var a, f := c.slots[i], FirstMeeting(ops, c.slots[i]);
    if f < |ops| { CallByFirstMeeting(c, p, i, ops, f); }
    if k < f { NotBeforeMeeting(c, p, i, ops, k, !a.started); }
    if f < k < |ops| { NotAfterFirst(c, p, ops, f, k, a.id, !a.started); }
  }

  // The first call made for the alarm is an on, and it is made by operation k.
  ghost predicate FirstOnBy(c: Calendar, ops: seq<Op>, k: nat, id: int)
    requires Shaped(c)
  {
    && k < |ops| && Trace(Run(c, ops[..k]).log, id) == []
    && Trace(Run(c, ops[..k + 1]).log, id) == [true]
  }

  // Once added, an alarm gets its first call, an on, by the first check that reads the day,
  // hour and minute asked for, and by no other operation.
  lemma {:induction false} StartsAtFirstMeeting(c: Calendar, p: nat, op: Op, ops: seq<Op>, k: nat)
    requires Recorded(c, p) && Adds(c, op) && !LeftStarted(c) && ProperRun(Add(c, op), ops)
    requires var a := AddedAlarm(c, op); SparedUntil(ops, FirstMeeting(ops, a), a)
    ensures FirstOnBy(Add(c, op), ops, k, AddedId(c)) <==> k == FirstMeeting(ops, AddedAlarm(c, op)) < |ops|
  {
    var p1 := AddedInTurn(c, p, op);
    NextCallAtMeeting(Add(c, op), p1, FirstUnused(c.slots, 0), ops, k);
  }

  // ----- The year of a one-time alarm -----------------------------------------------------------

  function ReadYear(op: Op): int {
    if op.Check? then 1970 + op.tm.Year else 0
  }

  // The years the checks read do not go back.
  predicate InOrder(ops: seq<Op>) {
    forall i, j :: 0 <= i < j < |ops| && ops[i].Check? && ops[j].Check? ==> ReadYear(ops[i]) <= ReadYear(ops[j])
  }

  // Some check reads the alarm's day, hour and minute in this year, and none in an earlier one.
  predicate MeetsFirstIn(ops: seq<Op>, a: Alarm, year: int) {
    && (exists j :: 0 <= j < |ops| && Meets(ops[j], a) && ReadYear(ops[j]) == year)
    && forall j :: 0 <= j < |ops| && Meets(ops[j], a) ==> ReadYear(ops[j]) >= year
  }

  ghost predicate FirstOnIn(c: Calendar, ops: seq<Op>, id: int, year: int)
    requires Shaped(c)
  {
    exists k: nat :: FirstOnBy(c, ops, k, id) && ReadYear(ops[k]) == year
  }

  lemma {:induction false} OnInYear(c: Calendar, ops: seq<Op>, a: Alarm, id: int, year: int)
    requires Shaped(c) && InOrder(ops)
    requires forall k: nat :: FirstOnBy(c, ops, k, id) <==> k == FirstMeeting(ops, a) < |ops|
    ensures FirstOnIn(c, ops, id, year) <==> MeetsFirstIn(ops, a, year)
  {
    YearOfFirstMeeting(ops, a, year);
    assert FirstMeeting(ops, a) < |ops| ==> FirstOnBy(c, ops, FirstMeeting(ops, a), id);
  }

  lemma {:induction false} YearOfFirstMeeting(ops: seq<Op>, a: Alarm, year: int)
    requires InOrder(ops)
    ensures var k := FirstMeeting(ops, a); k < |ops| && ReadYear(ops[k]) == year <==> MeetsFirstIn(ops, a, year)
  {
  }

  // A one-time alarm's first on comes in the year asked for exactly when some check reads its
  // day, hour and minute in that year and none does in an earlier one.
  lemma {:induction false} StartsInItsYear(c: Calendar, p: nat, op: Op, ops: seq<Op>)
    requires Recorded(c, p) && Adds(c, op) && op.AddOnce? && !LeftStarted(c) && ProperRun(Add(c, op), ops)
    requires InOrder(ops)
    requires var a := AddedAlarm(c, op); SparedUntil(ops, FirstMeeting(ops, a), a)
    ensures FirstOnIn(Add(c, op), ops, AddedId(c), op.year) <==> MeetsFirstIn(ops, AddedAlarm(c, op), op.year)
  {
    forall k: nat
      ensures FirstOnBy(Add(c, op), ops, k, AddedId(c)) <==> k == FirstMeeting(ops, AddedAlarm(c, op)) < |ops|
    {
      StartsAtFirstMeeting(c, p, op, ops, k);
    }
    OnInYear(Add(c, op), ops, AddedAlarm(c, op), AddedId(c), op.year);
  }

  // An alarm for 15 June 2031 at ten starts at the check of that day and hour in 2030.
  lemma StartsAYearEarly(c: Calendar, p: nat, op: Op)
    requires Recorded(c, p) && Adds(c, op) && !LeftStarted(c)
    requires op == AddOnce(15, 6, 2031, 10, 0, 11, 30, 1, -1)
    ensures var tm := Civil.TmElements(0, 0, 10, 7, 15, 6, 60);
            Civil.Valid(tm) && ReadYear(Check(tm)) == 2030 && FirstOnBy(Add(c, op), [Check(tm)], 0, AddedId(c))
  {
    var tm := Civil.TmElements(0, 0, 10, 7, 15, 6, 60);
    FirstCheck(c, p, op, tm);
    StartsAtFirstMeeting(c, p, op, [Check(tm)], 0);
  }

  // ----- What is left of it ---------------------------------------------------------------------

  // The alarm with this id was added as a one-time alarm: it has had at most an on and an
  // off, and at most the first of them while it is in the calendar. An alarm that opens with
  // an off has no on.
  ghost predicate OnceAtMost(c: Calendar, id: int, was: bool) {
    var most := if was then 1 else 2;
    && |Trace(c.log, id)| <= most
    && forall i :: 0 <= i < |c.slots| && c.slots[i].used && c.slots[i].id == id ==>
         c.slots[i].kind == ALARM_ONCE && |Trace(c.log, id)| <= most - 1
  }

  lemma {:induction false} SwitchedOnce(c: Calendar, r: Calendar, i: nat, tm: Civil.TmElements, id: int, was: bool)
    requires i < |c.slots| && c.slots[i].used && r.slots == c.slots[i := Checked(c.slots[i], tm)]
    requires Trace(r.log, id) == Trace(c.log, id)
             + if c.slots[i].id == id && Switches(c.slots[i], tm) then [!c.slots[i].started] else []
    requires forall j :: 0 <= j < |c.slots| && c.slots[j].used && c.slots[j].id == id && j != i ==> c.slots[i].id != id
    requires InTurn(c, id, was) && OnceAtMost(c, id, was)
    ensures OnceAtMost(r, id, was)
  {
  }

  lemma CheckAlarmOnce(c: Calendar, p: nat, i: nat, tm: Civil.TmElements, id: int, was: bool)
    requires Recorded(c, p) && i < MAX_ALARMS && c.slots[i].used && InTurn(c, id, was) && OnceAtMost(c, id, was)
    ensures OnceAtMost(CheckAlarm(c, i, tm), id, was)
  {
    ChecksExactly(c, p, i, tm);
    CheckAlarmRecorded(c, p, i, tm);
    SwitchedOnce(c, CheckAlarm(c, i, tm), i, tm, id, was);
  }

  lemma {:induction false} CheckOnce(c: Calendar, p: nat, tm: Civil.TmElements, n: nat, id: int, was: bool)
    requires Recorded(c, p) && n <= MAX_ALARMS && InTurn(c, id, was) && OnceAtMost(c, id, was)
    ensures OnceAtMost(CheckFirst(c, tm, n), id, was)
  {
    if n > 0 {
      CheckOnce(c, p, tm, n - 1, id, was);
      CheckInTurn(c, p, tm, n - 1, id, was);
      CheckRecorded(c, p, tm, n - 1);
      var c' := CheckFirst(c, tm, n - 1);
      if c'.slots[n - 1].used {
        CheckAlarmOnce(c', p, n - 1, tm, id, was);
      }
    }
  }

  lemma StepOnce(c: Calendar, p: nat, op: Op, id: int, was: bool)
    requires Recorded(c, p) && Proper(c, op) && InTurn(c, id, was) && OnceAtMost(c, id, was)
    ensures OnceAtMost(Step(c, op), id, was)
  {
    match op
    case Remove(_) =>
    case RemoveBy(event, eventId) =>
      RemoveMatchingKeepsLog(c, event, eventId, MAX_ALARMS);
    case Check(tm) =>
      CheckOnce(c, p, tm, MAX_ALARMS, id, was);
    case _ =>
  }

  lemma {:induction false} RunOnceFrom(c: Calendar, p: nat, ops: seq<Op>, id: int, was: bool)
    requires Recorded(c, p) && ProperRun(c, ops) && InTurn(c, id, was) && OnceAtMost(c, id, was)
    ensures OnceAtMost(Run(c, ops), id, was)
    decreases |ops|
  {
    if ops != [] {
      var init := ops[..|ops| - 1];
      RunOnceFrom(c, p, init, id, was);
      RunInTurn(c, p, init, id, was);
      var q := RunRecorded(c, p, init);
      StepOnce(Run(c, init), q, ops[|ops| - 1], id, was);
    }
  }

  // In every run a one-time alarm gets at most one on and one off, or one off alone if its
  // slot had been left started, and has left the calendar by the time it has had its off.
  lemma {:induction false} RunOnce(c: Calendar, p: nat, op: Op, ops: seq<Op>)
    requires Recorded(c, p) && Adds(c, op) && op.AddOnce? && ProperRun(Add(c, op), ops)
    ensures OnceAtMost(Run(Add(c, op), ops), AddedId(c), LeftStarted(c))
  {
    var p1 := AddedInTurn(c, p, op);
    RunOnceFrom(Add(c, op), p1, ops, c.nextId, LeftStarted(c));
  }
}

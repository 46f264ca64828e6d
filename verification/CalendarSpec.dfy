// The calendar as a state machine: thirty slots, a fresh id for every alarm, an EEPROM
// image rewritten on every change of the alarm set, and the start and finish events of each
// alarm.
module CalendarSpec {
  import opened CalendarImage
  import Civil

  // A call of eventOn or eventOff, with the id of the alarm it was made for.
  datatype Call = Call(on: bool, id: int, event: int, eventId: int)

  datatype Calendar = Calendar(slots: seq<Alarm>, amount: int, nextId: int, memory: seq<Byte>, log: seq<Call>)

  datatype Op =
    | AddWeekly(day: int, hour: int, minutes: int, finishHour: int, finishMinutes: int, event: int, eventId: int)
    | AddOnce(day: int, month: int, year: int, hour: int, minutes: int, finishHour: int, finishMinutes: int,
              event: int, eventId: int)
    | Remove(id: int)
    | RemoveBy(event: int, eventId: int)
    | Check(tm: Civil.TmElements)

  predicate Shaped(c: Calendar) {
    |c.slots| == MAX_ALARMS && |c.memory| == MEMORY_SIZE
  }

  // ----- The operations -----------------------------------------------------------------

  function FirstUnused(slots: seq<Alarm>, i: nat): (r: nat)
    requires i <= |slots|
    ensures i <= r <= |slots|
    ensures forall k :: i <= k < r ==> slots[k].used
    ensures r < |slots| ==> !slots[r].used
    decreases |slots| - i
  {
    if i == |slots| || !slots[i].used then i else FirstUnused(slots, i + 1)
  }

  function FirstWithId(slots: seq<Alarm>, id: int, i: nat): (r: nat)
    requires i <= |slots|
    ensures i <= r <= |slots|
    ensures forall k :: i <= k < r ==> slots[k].id != id
    ensures r < |slots| ==> slots[r].id == id
    decreases |slots| - i
  {
    if i == |slots| || slots[i].id == id then i else FirstWithId(slots, id, i + 1)
  }

  function Store(c: Calendar): (r: Calendar)
    requires Shaped(c)
    ensures Shaped(r)
  {
    c.(memory := Overwrite(c.memory, ALARMS_DIR, Image(c.slots)))
  }

  // The remainder of C, which takes the sign of the dividend.
  function TwoDigits(year: int): int {
    if year >= 0 then year % 100 else -((-year) % 100)
  }

  // A slot filled in for a new alarm. It keeps the `started` of the slot's last alarm, and
  // for a weekly alarm its date.
  function NewAlarm(old_: Alarm, op: Op, id: int): Alarm
    requires op.AddWeekly? || op.AddOnce?
  {
    var a := old_.(day := op.day, hour := op.hour, minutes := op.minutes, finishHour := op.finishHour,
                   finishMinutes := op.finishMinutes, used := true, event := op.event, eventId := op.eventId,
                   id := id);
    if op.AddWeekly? then a.(kind := WEEKLY_ALARM)
    else a.(kind := ALARM_ONCE, month := op.month, year := TwoDigits(op.year))
  }

  function Add(c: Calendar, op: Op): (r: Calendar)
    requires Shaped(c) && (op.AddWeekly? || op.AddOnce?)
    ensures Shaped(r)
  {
    var i := FirstUnused(c.slots, 0);
    if i == MAX_ALARMS then c
    else Store(c.(slots := c.slots[i := NewAlarm(c.slots[i], op, c.nextId)],
                  amount := c.amount + 1, nextId := c.nextId + 1))
  }

  // What addWeeklyAlarm and addAlarmOnce return.
  function AddedId(c: Calendar): int {
    if FirstUnused(c.slots, 0) == |c.slots| then -1 else c.nextId
  }

  function Removed(c: Calendar, id: int): (r: Calendar)
    requires Shaped(c)
    ensures Shaped(r)
  {
    var i := FirstWithId(c.slots, id, 0);
    if i == MAX_ALARMS then c
    else Store(c.(slots := c.slots[i := c.slots[i].(used := false)], amount := c.amount - 1))
  }

  predicate Matches(a: Alarm, event: int, eventId: int) {
    a.used && a.event == event && a.eventId == eventId
  }

  function RemoveMatching(c: Calendar, event: int, eventId: int, n: nat): (r: Calendar)
    requires Shaped(c) && n <= MAX_ALARMS
    ensures Shaped(r)
  {
    if n == 0 then c
    else
      var c := RemoveMatching(c, event, eventId, n - 1);
      if Matches(c.slots[n - 1], event, eventId)
      then c.(slots := c.slots[n - 1 := c.slots[n - 1].(used := false)], amount := c.amount - 1)
      else c
  }

  // Monday is day 1 for the calendar, Sunday day 7.
  function CalendarWeekday(tm: Civil.TmElements): int {
    if tm.Wday == 1 then 7 else tm.Wday - 1
  }

  predicate OnDay(a: Alarm, tm: Civil.TmElements) {
    if a.kind == ALARM_ONCE then a.day == tm.Day && a.month == tm.Month else a.day == CalendarWeekday(tm)
  }

  predicate Starts(a: Alarm, tm: Civil.TmElements) {
    a.hour == tm.Hour && a.minutes == tm.Minute && OnDay(a, tm)
  }

  predicate Finishes(a: Alarm, tm: Civil.TmElements) {
    a.finishHour == tm.Hour && a.finishMinutes == tm.Minute && OnDay(a, tm)
  }

  function CheckAlarm(c: Calendar, i: nat, tm: Civil.TmElements): (r: Calendar)
    requires Shaped(c) && i < MAX_ALARMS
    ensures Shaped(r)
  {
    var a := c.slots[i];
    if !Typed(a) then c
    else if !a.started then
      if Starts(a, tm)
      then c.(slots := c.slots[i := a.(started := true)], log := c.log + [Call(true, a.id, a.event, a.eventId)])
      else c
    else if Finishes(a, tm) then
      var c := c.(slots := c.slots[i := a.(started := false)], log := c.log + [Call(false, a.id, a.event, a.eventId)]);
      if a.kind == ALARM_ONCE then Removed(c, a.id) else c
    else c
  }

  function CheckFirst(c: Calendar, tm: Civil.TmElements, n: nat): (r: Calendar)
    requires Shaped(c) && n <= MAX_ALARMS
    ensures Shaped(r)
  {
    if n == 0 then c
    else
      var c := CheckFirst(c, tm, n - 1);
      if c.slots[n - 1].used then CheckAlarm(c, n - 1, tm) else c
  }

  function Step(c: Calendar, op: Op): (r: Calendar)
    requires Shaped(c)
    ensures Shaped(r)
  {
    match op
    case Remove(id) => Removed(c, id)
    case RemoveBy(event, eventId) => Store(RemoveMatching(c, event, eventId, MAX_ALARMS))
    case Check(tm) => CheckFirst(c, tm, MAX_ALARMS)
    case _ => Add(c, op)
  }

  function Run(c: Calendar, ops: seq<Op>): (r: Calendar)
    requires Shaped(c)
    ensures Shaped(r)
  {
    if ops == [] then c else Step(Run(c, ops[..|ops| - 1]), ops[|ops| - 1])
  }

  // ----- Slots and ids ---------------------------------------------------------------------

  function CountUsed(slots: seq<Alarm>, n: nat): (k: nat)
    requires n <= |slots|
    ensures k <= n
  {
    if n == 0 then 0 else CountUsed(slots, n - 1) + if slots[n - 1].used then 1 else 0
  }

  // The slots ever used are the first p; their ids are distinct and below nextId, and the
  // counter counts the used ones.
  ghost predicate Tidy(c: Calendar, p: nat) {
    && Shaped(c) && p <= MAX_ALARMS
    && (forall i :: p <= i < MAX_ALARMS ==> !c.slots[i].used)
    && (forall i :: 0 <= i < p ==> c.slots[i].id < c.nextId)
    && (forall i, j :: 0 <= i < j < p ==> c.slots[i].id != c.slots[j].id)
    && (forall i :: 0 <= i < MAX_ALARMS && c.slots[i].used ==> Typed(c.slots[i]))
    && c.amount == CountUsed(c.slots, MAX_ALARMS)
  }

  predicate UsedId(c: Calendar, id: int) {
    exists i :: 0 <= i < |c.slots| && c.slots[i].used && c.slots[i].id == id
  }

  // The one demand on callers: an id passed to removeAlarm is that of an alarm in use.
  predicate Proper(c: Calendar, op: Op) {
    op.Remove? ==> UsedId(c, op.id)
  }

  lemma {:induction false} CountAfterChange(slots: seq<Alarm>, i: nat, a: Alarm, n: nat)
    requires i < |slots| && n <= |slots|
    ensures CountUsed(slots[i := a], n) ==
            CountUsed(slots, n) + (if i < n then (if a.used then 1 else 0) - (if slots[i].used then 1 else 0) else 0)
  {
    if n > 0 {
      CountAfterChange(slots, i, a, n - 1);
    }
  }

  // removeAlarm with the id of an alarm in use frees that alarm's slot and no other.
  lemma RemovesExactly(c: Calendar, p: nat, j: nat)
    requires Tidy(c, p) && j < MAX_ALARMS && c.slots[j].used
    ensures Removed(c, c.slots[j].id).slots == c.slots[j := c.slots[j].(used := false)]
    ensures Removed(c, c.slots[j].id).amount == c.amount - 1
  {
    var i := FirstWithId(c.slots, c.slots[j].id, 0);
    assert i == j by {
      assert j < p && i <= j;
    }
  }

  // Without that demand the counter stays right exactly when the first slot with the id,
  // if there is one, is in use: the search also finds slots already freed.
  lemma {:induction false} RemoveKeepsCount(c: Calendar, p: nat, id: int)
    requires Tidy(c, p)
    ensures Removed(c, id).amount == CountUsed(Removed(c, id).slots, MAX_ALARMS)
       <==> (var i := FirstWithId(c.slots, id, 0); i == MAX_ALARMS || c.slots[i].used)
  {
    var i := FirstWithId(c.slots, id, 0);
    if i < MAX_ALARMS {
      CountAfterChange(c.slots, i, c.slots[i].(used := false), MAX_ALARMS);
    }
  }

  // Removing the same alarm twice is an input for which it does not.
  lemma RemovedTwice(c: Calendar, p: nat, j: nat)
    requires Tidy(c, p) && j < MAX_ALARMS && c.slots[j].used
    ensures var id := c.slots[j].id;
            var r := Removed(Removed(c, id), id);
            r.amount == CountUsed(r.slots, MAX_ALARMS) - 1
  {
    var id, once := c.slots[j].id, Removed(c, c.slots[j].id);
    RemovesExactly(c, p, j);
    FreeStaysTidy(c, p, j);
    assert FirstWithId(once.slots, id, 0) == j by {
      assert once.slots[j].id == id && j < p;
    }
    assert Removed(once, id).slots == once.slots;
  }

  lemma AddStaysTidy(c: Calendar, p: nat, op: Op) returns (p': nat)
    requires Tidy(c, p) && (op.AddWeekly? || op.AddOnce?)
    ensures Tidy(Add(c, op), p')
    ensures var i := FirstUnused(c.slots, 0); p' == if i == p < MAX_ALARMS then p + 1 else p
    ensures FirstUnused(c.slots, 0) <= p
  {
    var i := FirstUnused(c.slots, 0);
    assert p < MAX_ALARMS ==> !c.slots[p].used;
    p' := if i == p < MAX_ALARMS then p + 1 else p;
    if i < MAX_ALARMS {
      CountAfterChange(c.slots, i, NewAlarm(c.slots[i], op, c.nextId), MAX_ALARMS);
    }
  }

  lemma FreeStaysTidy(c: Calendar, p: nat, i: nat)
    requires Tidy(c, p) && i < MAX_ALARMS && c.slots[i].used
    ensures Tidy(c.(slots := c.slots[i := c.slots[i].(used := false)], amount := c.amount - 1), p)
  {
    CountAfterChange(c.slots, i, c.slots[i].(used := false), MAX_ALARMS);
  }

  lemma RemoveStaysTidy(c: Calendar, p: nat, j: nat)
    requires Tidy(c, p) && j < MAX_ALARMS && c.slots[j].used
    ensures Tidy(Removed(c, c.slots[j].id), p)
  {
    RemovesExactly(c, p, j);
    FreeStaysTidy(c, p, j);
  }

  lemma {:induction false} RemoveMatchingStaysTidy(c: Calendar, p: nat, event: int, eventId: int, n: nat)
    requires Tidy(c, p) && n <= MAX_ALARMS
    ensures Tidy(RemoveMatching(c, event, eventId, n), p)
  {
    if n > 0 {
      RemoveMatchingStaysTidy(c, p, event, eventId, n - 1);
      var c' := RemoveMatching(c, event, eventId, n - 1);
      if Matches(c'.slots[n - 1], event, eventId) {
        FreeStaysTidy(c', p, n - 1);
      }
    }
  }

  lemma SwitchStaysTidy(c: Calendar, p: nat, i: nat, on: bool, log: seq<Call>)
    requires Tidy(c, p) && i < MAX_ALARMS
    ensures Tidy(c.(slots := c.slots[i := c.slots[i].(started := on)], log := log), p)
  {
    CountAfterChange(c.slots, i, c.slots[i].(started := on), MAX_ALARMS);
  }

  lemma CheckAlarmStaysTidy(c: Calendar, p: nat, i: nat, tm: Civil.TmElements)
    requires Tidy(c, p) && i < MAX_ALARMS && c.slots[i].used
    ensures Tidy(CheckAlarm(c, i, tm), p)
  {
    var a := c.slots[i];
    var log := c.log + [Call(!a.started, a.id, a.event, a.eventId)];
    var c' := c.(slots := c.slots[i := a.(started := !a.started)], log := log);
    SwitchStaysTidy(c, p, i, !a.started, log);
    RemoveStaysTidy(c', p, i);
  }

  lemma {:induction false} CheckStaysTidy(c: Calendar, p: nat, tm: Civil.TmElements, n: nat)
    requires Tidy(c, p) && n <= MAX_ALARMS
    ensures Tidy(CheckFirst(c, tm, n), p)
  {
    if n > 0 {
      CheckStaysTidy(c, p, tm, n - 1);
      var c' := CheckFirst(c, tm, n - 1);
      if c'.slots[n - 1].used {
        CheckAlarmStaysTidy(c', p, n - 1, tm);
      }
    }
  }
}

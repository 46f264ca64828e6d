// Which event an alarm switches, and which alarms a removal by event takes out.
module CalendarCalls {
  import opened CalendarImage
  import opened CalendarSpec
  import opened CalendarRuns
  import opened CalendarEvents
  import opened CalendarAlternation
  import Civil

  // Every call made for this id names this event, and so does its slot while it is in use.
  ghost predicate Named(c: Calendar, id: int, event: int, eventId: int) {
    && id < c.nextId
    && (forall k :: 0 <= k < |c.log| && c.log[k].id == id ==> c.log[k].event == event && c.log[k].eventId == eventId)
    && (forall i :: 0 <= i < |c.slots| && c.slots[i].used && c.slots[i].id == id ==>
          c.slots[i].event == event && c.slots[i].eventId == eventId)
  }

  lemma CheckAlarmNamed(c: Calendar, p: nat, i: nat, tm: Civil.TmElements, id: int, event: int, eventId: int)
    requires Tidy(c, p) && i < MAX_ALARMS && c.slots[i].used && Named(c, id, event, eventId)
    ensures Named(CheckAlarm(c, i, tm), id, event, eventId)
  {
    ChecksExactly(c, p, i, tm);
  }

  lemma {:induction false} CheckNamed(c: Calendar, p: nat, tm: Civil.TmElements, n: nat, id: int, event: int,
                                      eventId: int)
    requires Recorded(c, p) && n <= MAX_ALARMS && Named(c, id, event, eventId)
    ensures Named(CheckFirst(c, tm, n), id, event, eventId)
  {
    if n > 0 {
      CheckNamed(c, p, tm, n - 1, id, event, eventId);
      CheckRecorded(c, p, tm, n - 1);
      var c' := CheckFirst(c, tm, n - 1);
      if c'.slots[n - 1].used {
        CheckAlarmNamed(c', p, n - 1, tm, id, event, eventId);
      }
    }
  }

  lemma StepNamed(c: Calendar, p: nat, op: Op, id: int, event: int, eventId: int)
    requires Recorded(c, p) && Proper(c, op) && Named(c, id, event, eventId)
    ensures Named(Step(c, op), id, event, eventId)
  {
    match op
    case Remove(_) =>
    case RemoveBy(e, f) =>
      RemoveMatchingKeepsLog(c, e, f, MAX_ALARMS);
    case Check(tm) =>
      CheckNamed(c, p, tm, MAX_ALARMS, id, event, eventId);
    case _ =>
  }

  lemma {:induction false} RunNamed(c: Calendar, p: nat, ops: seq<Op>, id: int, event: int, eventId: int)
    requires Recorded(c, p) && ProperRun(c, ops) && Named(c, id, event, eventId)
    ensures Named(Run(c, ops), id, event, eventId)
    decreases |ops|
  {
    if ops != [] {
      var init := ops[..|ops| - 1];
      RunNamed(c, p, init, id, event, eventId);
      var q := RunRecorded(c, p, init);
      StepNamed(Run(c, init), q, ops[|ops| - 1], id, event, eventId);
    }
  }

  lemma {:induction false} UncalledId(log: seq<Call>, id: int, k: nat)
    requires Trace(log, id) == [] && k < |log|
    ensures log[k].id != id
    decreases |log|
  {
    if k < |log| - 1 {
      UncalledId(log[..|log| - 1], id, k);
    }
  }

  // In every proper run after an alarm is added, every call made for it is of the event and the
  // event id asked for.
  lemma {:induction false} CallsTheEventAsked(c: Calendar, p: nat, op: Op, ops: seq<Op>, k: nat)
    requires Recorded(c, p) && Adds(c, op) && ProperRun(Add(c, op), ops)
    requires var log := Run(Add(c, op), ops).log; k < |log| && log[k].id == AddedId(c)
    ensures var call := Run(Add(c, op), ops).log[k]; call.event == op.event && call.eventId == op.eventId
  {
    AddedNamed(c, p, op, ops);
  }

  lemma {:induction false} AddedNamed(c: Calendar, p: nat, op: Op, ops: seq<Op>)
    requires Recorded(c, p) && Adds(c, op) && ProperRun(Add(c, op), ops)
    ensures Named(Run(Add(c, op), ops), AddedId(c), op.event, op.eventId)
  {
    var c1 := Add(c, op);
    var p1 := AddedInTurn(c, p, op);
    forall k | 0 <= k < |c1.log|
      ensures c1.log[k].id != AddedId(c)
    {
      UncalledId(c1.log, AddedId(c), k);
    }
    assert forall i :: 0 <= i < p ==> c.slots[i].id < c.nextId;
    RunNamed(c1, p1, ops, AddedId(c), op.event, op.eventId);
  }

  // Removing by event takes out exactly the alarms in use with this event and event id, started or
  // not and of either kind, and lets every other field of every slot alone.
  lemma RemovesByEvent(c: Calendar, event: int, eventId: int, i: nat)
    requires Shaped(c) && i < MAX_ALARMS
    ensures var a, r := c.slots[i], Step(c, RemoveBy(event, eventId)).slots[i];
            && (r.used <==> a.used && !(a.event == event && a.eventId == eventId))
            && r == a.(used := r.used)
  {
    RemoveMatchingKeepsLog(c, event, eventId, MAX_ALARMS);
  }

  // So an alarm is out of the calendar after any run that ends with the removal of its event.
  lemma {:induction false} RemovedByItsEvent(c: Calendar, p: nat, op: Op, ops: seq<Op>)
    requires Recorded(c, p) && Adds(c, op) && ProperRun(Add(c, op), ops)
    ensures !UsedId(Step(Run(Add(c, op), ops), RemoveBy(op.event, op.eventId)), AddedId(c))
  {
    var c' := Run(Add(c, op), ops);
    AddedNamed(c, p, op, ops);
    RemoveMatchingKeepsLog(c', op.event, op.eventId, MAX_ALARMS);
  }

  lemma {:induction false} CountsFull(slots: seq<Alarm>, n: nat)
    requires n <= |slots|
    ensures CountUsed(slots, n) == n <==> forall i :: 0 <= i < n ==> slots[i].used
  {
    if n > 0 {
      CountsFull(slots, n - 1);
    }
  }

  // An alarm is refused, with the id -1 and nothing changed, exactly if the calendar counts thirty.
  lemma RefusedWhenFull(c: Calendar, p: nat, op: Op)
    requires Tidy(c, p) && (op.AddWeekly? || op.AddOnce?)
    ensures c.amount <= 30 && AddedId(c) == if c.amount == 30 then -1 else c.nextId
    ensures c.amount == 30 ==> Add(c, op) == c
    ensures c.amount < 30 ==> Add(c, op).amount == c.amount + 1 && Add(c, op).nextId == c.nextId + 1
  {
    CountsFull(c.slots, 30);
  }

  // The year stored is that of the date asked for without its century, and before the year 0
  // counted back from it.
  lemma StoredYear(c: Calendar, op: Op)
    requires Adds(c, op) && op.AddOnce?
    ensures var year := AddedAlarm(c, op).year;
            && (op.year - year) % 100 == 0 && -100 < year < 100
            && (op.year >= 0 ==> year >= 0) && (op.year <= 0 ==> year <= 0)
  {
    WithoutCentury(op.year);
  }

  lemma WithoutCentury(year: int)
    ensures var two := TwoDigits(year);
            (year - two) % 100 == 0 && -100 < two < 100 && (year >= 0 ==> two >= 0) && (year <= 0 ==> two <= 0)
  {
  }
}

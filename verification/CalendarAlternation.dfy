// On and off calls of each alarm, over all runs: what the slot it was put in decides.
module CalendarAlternation {
  import opened CalendarImage
  import opened CalendarSpec
  import opened CalendarRuns
  import opened CalendarEvents
  import Civil

  // ----- One check of one alarm ---------------------------------------------------------------

  predicate Switches(a: Alarm, tm: Civil.TmElements) {
    if a.started then Finishes(a, tm) else Starts(a, tm)
  }

  // The slot after its check: a one-time alarm is freed when it finishes.
  function Checked(a: Alarm, tm: Civil.TmElements): Alarm {
    if Switches(a, tm) then a.(started := !a.started, used := !(a.started && a.kind == ALARM_ONCE)) else a
  }

  // A check changes its own slot and no other, and makes at most one call, for its own alarm.
  lemma ChecksExactly(c: Calendar, p: nat, i: nat, tm: Civil.TmElements)
    requires Tidy(c, p) && i < MAX_ALARMS && c.slots[i].used
    ensures var a, r := c.slots[i], CheckAlarm(c, i, tm);
            && r.slots == c.slots[i := Checked(a, tm)] && r.nextId == c.nextId
            && r.log == c.log + if Switches(a, tm) then [Call(!a.started, a.id, a.event, a.eventId)] else []
  {
    var a := c.slots[i];
    var log := c.log + [Call(!a.started, a.id, a.event, a.eventId)];
    SwitchStaysTidy(c, p, i, !a.started, log);
    RemovesExactly(c.(slots := c.slots[i := a.(started := !a.started)], log := log), p, i);
  }

  lemma {:induction false} TraceOfCall(log: seq<Call>, call: Call, id: int)
    ensures Trace(log + [call], id) == if call.id == id then Trace(log, id) + [call.on] else Trace(log, id)
  {
    assert (log + [call])[..|log|] == log;
  }

  // ----- Every run ------------------------------------------------------------------------------

  // Tidy, and no call has been made for an id not given out yet.
  ghost predicate Recorded(c: Calendar, p: nat) {
    Tidy(c, p) && forall id :: id >= c.nextId ==> Trace(c.log, id) == []
  }

  lemma CheckAlarmRecorded(c: Calendar, p: nat, i: nat, tm: Civil.TmElements)
    requires Recorded(c, p) && i < MAX_ALARMS && c.slots[i].used
    ensures Recorded(CheckAlarm(c, i, tm), p)
    ensures var a := c.slots[i];
            forall id :: Trace(CheckAlarm(c, i, tm).log, id)
                      == Trace(c.log, id) + if a.id == id && Switches(a, tm) then [!a.started] else []
  {
    var a, r := c.slots[i], CheckAlarm(c, i, tm);
    ChecksExactly(c, p, i, tm);
    CheckAlarmStaysTidy(c, p, i, tm);
    forall id
      ensures Trace(r.log, id) == Trace(c.log, id) + if a.id == id && Switches(a, tm) then [!a.started] else []
    {
      TraceOfCall(c.log, Call(!a.started, a.id, a.event, a.eventId), id);
    }
  }

  // Ids stay with their slots, and a check takes no slot into use.
  predicate SameIds(c: Calendar, r: Calendar) {
    && |c.slots| == |r.slots| && r.nextId == c.nextId
    && forall i :: 0 <= i < |c.slots| ==> r.slots[i].id == c.slots[i].id && (r.slots[i].used ==> c.slots[i].used)
  }

  lemma {:induction false} CheckRecorded(c: Calendar, p: nat, tm: Civil.TmElements, n: nat)
    requires Recorded(c, p) && n <= MAX_ALARMS
    ensures Recorded(CheckFirst(c, tm, n), p) && SameIds(c, CheckFirst(c, tm, n))
  {
    if n > 0 {
      CheckRecorded(c, p, tm, n - 1);
      var c' := CheckFirst(c, tm, n - 1);
      if c'.slots[n - 1].used {
        CheckAlarmRecorded(c', p, n - 1, tm);
        ChecksExactly(c', p, n - 1, tm);
      }
    }
  }

  // From c to r, the alarm in slot i has been checked once if `done`, and not otherwise.
  ghost predicate CheckedOnce(c: Calendar, r: Calendar, tm: Civil.TmElements, i: nat, done: bool)
    requires i < |c.slots| && i < |r.slots|
  {
    var a := c.slots[i];
    && r.slots[i] == (if done then Checked(a, tm) else a)
    && Trace(r.log, a.id) == Trace(c.log, a.id) + if done && Switches(a, tm) then [!a.started] else []
  }

  lemma ChecksNext(c: Calendar, r: Calendar, p: nat, tm: Civil.TmElements, j: nat, i: nat)
    requires Tidy(c, p) && Recorded(r, p) && SameIds(c, r) && j < MAX_ALARMS && i < MAX_ALARMS && c.slots[i].used
    requires r.slots[j].used && CheckedOnce(c, r, tm, i, i < j)
    ensures CheckedOnce(c, CheckAlarm(r, j, tm), tm, i, i < j + 1)
  {
    assert c.slots[j].used && (c.slots[j].id == c.slots[i].id <==> i == j);
    ChecksExactly(r, p, j, tm);
    CheckAlarmRecorded(r, p, j, tm);
  }

  // One check of all alarms checks each used one once: nothing else calls or changes it.
  lemma {:induction false} ChecksOnce(c: Calendar, p: nat, tm: Civil.TmElements, n: nat, i: nat)
    requires Recorded(c, p) && n <= MAX_ALARMS && i < MAX_ALARMS && c.slots[i].used
    ensures CheckedOnce(c, CheckFirst(c, tm, n), tm, i, i < n)
  {
    if n > 0 {
      ChecksOnce(c, p, tm, n - 1, i);
      CheckRecorded(c, p, tm, n - 1);
      var r := CheckFirst(c, tm, n - 1);
      if r.slots[n - 1].used {
        ChecksNext(c, r, p, tm, n - 1, i);
      }
    }
  }

  // The calls of a check: of the first n slots, in slot order, those of the alarms in use that it
  // switches.
  function CheckCalls(slots: seq<Alarm>, tm: Civil.TmElements, n: nat): seq<Call>
    requires n <= |slots|
  {
    if n == 0 then []
    else
      var a := slots[n - 1];
      CheckCalls(slots, tm, n - 1)
      + if a.used && Switches(a, tm) then [Call(!a.started, a.id, a.event, a.eventId)] else []
  }

  // Slots not yet reached are as they were.
  lemma {:induction false} CheckAhead(c: Calendar, p: nat, tm: Civil.TmElements, n: nat)
    requires Recorded(c, p) && n <= MAX_ALARMS
    ensures forall i :: n <= i < MAX_ALARMS ==> CheckFirst(c, tm, n).slots[i] == c.slots[i]
  {
    if n > 0 {
      CheckAhead(c, p, tm, n - 1);
      CheckRecorded(c, p, tm, n - 1);
      var r := CheckFirst(c, tm, n - 1);
      if r.slots[n - 1].used {
        ChecksExactly(r, p, n - 1, tm);
      }
    }
  }

  // One check of all alarms makes exactly these calls, each once and in slot order.
  lemma {:induction false} CheckCallsInOrder(c: Calendar, p: nat, tm: Civil.TmElements, n: nat)
    requires Recorded(c, p) && n <= MAX_ALARMS
    ensures CheckFirst(c, tm, n).log == c.log + CheckCalls(c.slots, tm, n)
  {
    if n > 0 {
      CheckCallsInOrder(c, p, tm, n - 1);
      CheckAhead(c, p, tm, n - 1);
      CheckRecorded(c, p, tm, n - 1);
      var r := CheckFirst(c, tm, n - 1);
      if r.slots[n - 1].used {
        ChecksExactly(r, p, n - 1, tm);
      }
    }
  }

  lemma {:induction false} RemoveMatchingKeepsLog(c: Calendar, event: int, eventId: int, n: nat)
    requires Shaped(c) && n <= MAX_ALARMS
    ensures var r := RemoveMatching(c, event, eventId, n);
            && r.log == c.log && r.nextId == c.nextId
            && forall i :: 0 <= i < MAX_ALARMS ==>
                 r.slots[i] == c.slots[i].(used := c.slots[i].used && !(i < n && Matches(c.slots[i], event, eventId)))
  {
    if n > 0 {
      RemoveMatchingKeepsLog(c, event, eventId, n - 1);
    }
  }

  lemma StepRecorded(c: Calendar, p: nat, op: Op) returns (p': nat)
    requires Recorded(c, p) && Proper(c, op)
    ensures Recorded(Step(c, op), p') && Step(c, op).nextId >= c.nextId
  {
    p' := StepStaysTidy(c, p, op);
    if op.RemoveBy? { RemoveMatchingKeepsLog(c, op.event, op.eventId, MAX_ALARMS); }
    if op.Check? { CheckRecorded(c, p, op.tm, MAX_ALARMS); }
  }

  lemma {:induction false} RunRecorded(c: Calendar, p0: nat, ops: seq<Op>) returns (p: nat)
    requires Recorded(c, p0) && ProperRun(c, ops)
    ensures Recorded(Run(c, ops), p)
    decreases |ops|
  {
    if ops == [] {
      p := p0;
    } else {
      var q := RunRecorded(c, p0, ops[..|ops| - 1]);
      p := StepRecorded(Run(c, ops[..|ops| - 1]), q, ops[|ops| - 1]);
    }
  }

  // ----- The order of the calls -----------------------------------------------------------------

  // Calls in turn, starting with off if `was` and else with on; and while the alarm is in
  // the calendar, `started` in step with them.
  ghost predicate InTurn(c: Calendar, id: int, was: bool) {
    var trace := Trace(c.log, id);
    && id < c.nextId
    && (forall k :: 0 <= k < |trace| ==> trace[k] == ((k % 2 == 0) != was))
    && forall i :: 0 <= i < |c.slots| && c.slots[i].used && c.slots[i].id == id ==>
         (c.slots[i].started <==> ((|trace| % 2 == 1) != was))
  }

  lemma CheckAlarmInTurn(c: Calendar, p: nat, i: nat, tm: Civil.TmElements, id: int, was: bool)
    requires Recorded(c, p) && i < MAX_ALARMS && c.slots[i].used && InTurn(c, id, was)
    ensures InTurn(CheckAlarm(c, i, tm), id, was)
  {
    var a, r := c.slots[i], CheckAlarm(c, i, tm);
    ChecksExactly(c, p, i, tm);
    CheckAlarmRecorded(c, p, i, tm);
    forall j | 0 <= j < MAX_ALARMS && r.slots[j].used && r.slots[j].id == id
      ensures r.slots[j].started <==> ((|Trace(r.log, id)| % 2 == 1) != was)
    {
      assert c.slots[j].used && c.slots[j].id == id && (j == i <==> a.id == id);
    }
  }

  lemma {:induction false} CheckInTurn(c: Calendar, p: nat, tm: Civil.TmElements, n: nat, id: int, was: bool)
    requires Recorded(c, p) && n <= MAX_ALARMS && InTurn(c, id, was)
    ensures InTurn(CheckFirst(c, tm, n), id, was)
  {
    if n > 0 {
      CheckInTurn(c, p, tm, n - 1, id, was);
      CheckRecorded(c, p, tm, n - 1);
      var c' := CheckFirst(c, tm, n - 1);
      if c'.slots[n - 1].used {
        CheckAlarmInTurn(c', p, n - 1, tm, id, was);
      }
    }
  }

  // Each operation keeps each alarm in turn.
  lemma StepInTurn(c: Calendar, p: nat, op: Op, id: int, was: bool)
    requires Recorded(c, p) && Proper(c, op) && InTurn(c, id, was)
    ensures InTurn(Step(c, op), id, was)
  {
    match op
    case Remove(_) =>
    case RemoveBy(event, eventId) =>
      RemoveMatchingKeepsLog(c, event, eventId, MAX_ALARMS);
    case Check(tm) =>
      CheckInTurn(c, p, tm, MAX_ALARMS, id, was);
    case _ =>
  }

  lemma {:induction false} RunInTurn(c: Calendar, p: nat, ops: seq<Op>, id: int, was: bool)
    requires Recorded(c, p) && ProperRun(c, ops) && InTurn(c, id, was)
    ensures InTurn(Run(c, ops), id, was)
    decreases |ops|
  {
    if ops != [] {
      var init := ops[..|ops| - 1];
      RunInTurn(c, p, init, id, was);
      var q := RunRecorded(c, p, init);
      StepInTurn(Run(c, init), q, ops[|ops| - 1], id, was);
    }
  }

  // Whether the slot the next alarm is put in was left started.
  predicate LeftStarted(c: Calendar) {
    var i := FirstUnused(c.slots, 0);
    i < |c.slots| && c.slots[i].started
  }

  // There is room for one more alarm.
  predicate Adds(c: Calendar, op: Op) {
    (op.AddWeekly? || op.AddOnce?) && FirstUnused(c.slots, 0) < |c.slots|
  }

  // The alarm as it is stored when it is added.
  function AddedAlarm(c: Calendar, op: Op): Alarm
    requires Adds(c, op)
  {
    NewAlarm(c.slots[FirstUnused(c.slots, 0)], op, c.nextId)
  }

  lemma AddedInTurn(c: Calendar, p: nat, op: Op) returns (p': nat)
    requires Recorded(c, p) && Adds(c, op)
    ensures Recorded(Add(c, op), p') && InTurn(Add(c, op), c.nextId, LeftStarted(c))
    ensures Add(c, op).slots[FirstUnused(c.slots, 0)] == AddedAlarm(c, op) && Trace(Add(c, op).log, c.nextId) == []
  {
    p' := AddStaysTidy(c, p, op);
    assert p < MAX_ALARMS ==> !c.slots[p].used;
  }

  // In every run after an alarm is added, its calls are made in turn; they start with on
  // unless its slot had been left started, and then they start with off.
  lemma {:induction false} AddedAlternates(c: Calendar, p: nat, op: Op, ops: seq<Op>)
    requires Recorded(c, p) && Adds(c, op) && ProperRun(Add(c, op), ops)
    ensures InTurn(Run(Add(c, op), ops), AddedId(c), LeftStarted(c))
  {
    var p1 := AddedInTurn(c, p, op);
    RunInTurn(Add(c, op), p1, ops, c.nextId, LeftStarted(c));
  }

  lemma FirstCheck(c: Calendar, p: nat, op: Op, tm: Civil.TmElements)
    requires Recorded(c, p) && Adds(c, op) && Switches(AddedAlarm(c, op), tm)
    ensures ProperRun(Add(c, op), [Check(tm)])
         && Trace(Run(Add(c, op), [Check(tm)]).log, AddedId(c)) == [!LeftStarted(c)]
  {
    var p1 := AddedInTurn(c, p, op);
    var c1 := Add(c, op);
    ChecksOnce(c1, p1, tm, MAX_ALARMS, FirstUnused(c.slots, 0));
    var ops := [Check(tm)];
    assert ops[..|ops| - 1] == [] && ops[|ops| - 1] == Check(tm);
    assert ProperRun(c1, []) && Proper(Run(c1, []), Check(tm));
    assert Run(c1, ops) == Step(Run(c1, []), Check(tm));
  }

  // So its calls go on, off, on, off in every run exactly when that slot was not left
  // started, given that its finish names some reading of the clock.
  lemma AlternatesExactly(c: Calendar, p: nat, op: Op, tm: Civil.TmElements)
    requires Recorded(c, p) && Adds(c, op) && Finishes(AddedAlarm(c, op), tm)
    ensures (forall ops :: ProperRun(Add(c, op), ops) ==> Alternates(Trace(Run(Add(c, op), ops).log, AddedId(c))))
       <==> !LeftStarted(c)
  {
    if LeftStarted(c) {
      FirstCheck(c, p, op, tm);
      assert !Alternates([false]) by { assert [false][0] == false; }
    } else {
      forall ops | ProperRun(Add(c, op), ops)
        ensures Alternates(Trace(Run(Add(c, op), ops).log, AddedId(c)))
      {
        AddedAlternates(c, p, op, ops);
      }
    }
  }
}

// The start and finish events of each alarm, over runs.
module CalendarEvents {
  import opened CalendarImage
  import opened CalendarSpec
  import Civil

  // The calls made for one alarm: true for eventOn, false for eventOff.
  function Trace(log: seq<Call>, id: int): seq<bool> {
    if log == [] then []
    else
      var rest, call := Trace(log[..|log| - 1], id), log[|log| - 1];
      if call.id == id then rest + [call.on] else rest
  }

  // On, off, on, off, ...
  ghost predicate Alternates(trace: seq<bool>) {
    forall k :: 0 <= k < |trace| ==> trace[k] == (k % 2 == 0)
  }

  ghost predicate Running(slots: seq<Alarm>, id: int) {
    exists i :: 0 <= i < |slots| && slots[i].used && slots[i].id == id && slots[i].started
  }

  // Every alarm's calls alternate starting with on; an alarm has had one more on than offs
  // exactly while it is used and started; and a slot that is free is not started.
  ghost predicate Steady(c: Calendar, p: nat) {
    && Tidy(c, p)
    && (forall i :: 0 <= i < MAX_ALARMS && !c.slots[i].used ==> !c.slots[i].started)
    && (forall id :: Alternates(Trace(c.log, id)))
    && (forall id :: |Trace(c.log, id)| % 2 == 1 <==> Running(c.slots, id))
    && (forall id :: id >= c.nextId ==> Trace(c.log, id) == [])
  }

  // No alarm is removed from outside while it is started.
  ghost predicate Quiet(c: Calendar, op: Op) {
    && Proper(c, op)
    && (op.Remove? ==> !Running(c.slots, op.id))
    && (op.RemoveBy? ==>
          forall i :: 0 <= i < |c.slots| && Matches(c.slots[i], op.event, op.eventId) ==> !c.slots[i].started)
  }

  // Switching one used alarm on or off with its call keeps everything steady.
  lemma SwitchStaysSteady(c: Calendar, p: nat, i: nat)
    requires Steady(c, p) && i < MAX_ALARMS && c.slots[i].used
    ensures var a := c.slots[i];
            Steady(c.(slots := c.slots[i := a.(started := !a.started)],
                      log := c.log + [Call(!a.started, a.id, a.event, a.eventId)]), p)
  {
    var a := c.slots[i];
    var call := Call(!a.started, a.id, a.event, a.eventId);
    var slots := c.slots[i := a.(started := !a.started)];
    SwitchStaysTidy(c, p, i, !a.started, c.log + [call]);
    forall id
      ensures Alternates(Trace(c.log + [call], id))
      ensures |Trace(c.log + [call], id)| % 2 == 1 <==> Running(slots, id)
      ensures id >= c.nextId ==> Trace(c.log + [call], id) == []
    {
      SwitchRuns(c, p, i, id);
    }
  }

  lemma SwitchRuns(c: Calendar, p: nat, i: nat, id: int)
    requires Tidy(c, p) && i < MAX_ALARMS && c.slots[i].used
    ensures var slots := c.slots[i := c.slots[i].(started := !c.slots[i].started)];
            Running(slots, id) <==> if id == c.slots[i].id then !c.slots[i].started else Running(c.slots, id)
    ensures id == c.slots[i].id ==> (Running(c.slots, id) <==> c.slots[i].started)
  {
    var slots := c.slots[i := c.slots[i].(started := !c.slots[i].started)];
    if id == c.slots[i].id {
      assert slots[i].used;
      forall j | 0 <= j < MAX_ALARMS && slots[j].used && slots[j].id == id
        ensures j == i
      {
      }
    } else if Running(c.slots, id) {
      var j :| 0 <= j < MAX_ALARMS && c.slots[j].used && c.slots[j].id == id && c.slots[j].started;
      assert slots[j] == c.slots[j];
    }
  }

  // Freeing a slot that is not started keeps everything steady.
  lemma FreeStaysSteady(c: Calendar, p: nat, i: nat, memory: seq<Byte>)
    requires Steady(c, p) && i < MAX_ALARMS && c.slots[i].used && !c.slots[i].started && |memory| == MEMORY_SIZE
    ensures Steady(c.(slots := c.slots[i := c.slots[i].(used := false)], amount := c.amount - 1, memory := memory), p)
  {
    var slots := c.slots[i := c.slots[i].(used := false)];
    FreeStaysTidy(c, p, i);
    forall id
      ensures Running(slots, id) <==> Running(c.slots, id)
    {
      if Running(c.slots, id) {
        var j :| 0 <= j < MAX_ALARMS && c.slots[j].used && c.slots[j].id == id && c.slots[j].started;
        assert slots[j] == c.slots[j];
      }
    }
  }

  lemma RemoveStaysSteady(c: Calendar, p: nat, j: nat)
    requires Steady(c, p) && j < MAX_ALARMS && c.slots[j].used && !c.slots[j].started
    ensures Steady(Removed(c, c.slots[j].id), p)
  {
    RemovesExactly(c, p, j);
    FreeStaysSteady(c, p, j, Removed(c, c.slots[j].id).memory);
  }

  lemma CheckAlarmStaysSteady(c: Calendar, p: nat, i: nat, tm: Civil.TmElements)
    requires Steady(c, p) && i < MAX_ALARMS && c.slots[i].used
    ensures Steady(CheckAlarm(c, i, tm), p)
  {
    var a := c.slots[i];
    SwitchStaysSteady(c, p, i);
    var c' := c.(slots := c.slots[i := a.(started := !a.started)],
                 log := c.log + [Call(!a.started, a.id, a.event, a.eventId)]);
    if a.started {
      RemoveStaysSteady(c', p, i);
    }
  }

  lemma {:induction false} CheckStaysSteady(c: Calendar, p: nat, tm: Civil.TmElements, n: nat)
    requires Steady(c, p) && n <= MAX_ALARMS
    ensures Steady(CheckFirst(c, tm, n), p)
  {
    if n > 0 {
      CheckStaysSteady(c, p, tm, n - 1);
      var c' := CheckFirst(c, tm, n - 1);
      if c'.slots[n - 1].used {
        CheckAlarmStaysSteady(c', p, n - 1, tm);
      }
    }
  }

  lemma {:induction false} RemoveMatchingStaysSteady(c: Calendar, p: nat, event: int, eventId: int, n: nat)
    requires Steady(c, p) && n <= MAX_ALARMS
    requires forall i :: 0 <= i < MAX_ALARMS && Matches(c.slots[i], event, eventId) ==> !c.slots[i].started
    ensures Steady(RemoveMatching(c, event, eventId, n), p)
    ensures forall i :: n <= i < MAX_ALARMS ==> RemoveMatching(c, event, eventId, n).slots[i] == c.slots[i]
  {
    if n > 0 {
      RemoveMatchingStaysSteady(c, p, event, eventId, n - 1);
      var c' := RemoveMatching(c, event, eventId, n - 1);
      if Matches(c'.slots[n - 1], event, eventId) {
        FreeStaysSteady(c', p, n - 1, c'.memory);
      }
    }
  }

  lemma AddStaysSteady(c: Calendar, p: nat, op: Op) returns (p': nat)
    requires Steady(c, p) && (op.AddWeekly? || op.AddOnce?)
    ensures Steady(Add(c, op), p')
  {
    p' := AddStaysTidy(c, p, op);
    var c', i := Add(c, op), FirstUnused(c.slots, 0);
    if i < MAX_ALARMS {
      forall id
        ensures Running(c'.slots, id) <==> Running(c.slots, id)
      {
        if Running(c.slots, id) {
          var j :| 0 <= j < MAX_ALARMS && c.slots[j].used && c.slots[j].id == id && c.slots[j].started;
          assert c'.slots[j] == c.slots[j];
        }
      }
    }
  }

  lemma StepStaysSteady(c: Calendar, p: nat, op: Op) returns (p': nat)
    requires Steady(c, p) && Quiet(c, op)
    ensures Steady(Step(c, op), p')
  {
    p' := p;
    match op
    case Remove(id) =>
      var j :| 0 <= j < MAX_ALARMS && c.slots[j].used && c.slots[j].id == id;
      RemoveStaysSteady(c, p, j);
    case RemoveBy(event, eventId) =>
      RemoveMatchingStaysSteady(c, p, event, eventId, MAX_ALARMS);
    case Check(tm) =>
      CheckStaysSteady(c, p, tm, MAX_ALARMS);
    case _ =>
      p' := AddStaysSteady(c, p, op);
  }

  ghost predicate QuietRun(c: Calendar, ops: seq<Op>)
    requires Shaped(c)
  {
    ops == [] || (QuietRun(c, ops[..|ops| - 1]) && Quiet(Run(c, ops[..|ops| - 1]), ops[|ops| - 1]))
  }

  // In every run in which no alarm is removed from outside while it is started, each
  // alarm's calls alternate starting with on, and it is started exactly while one on is
  // still without its off.
  lemma {:induction false} RunStaysSteady(c: Calendar, p0: nat, ops: seq<Op>) returns (p: nat)
    requires Steady(c, p0) && QuietRun(c, ops)
    ensures Steady(Run(c, ops), p)
    decreases |ops|
  {
    if ops == [] {
      p := p0;
    } else {
      var q := RunStaysSteady(c, p0, ops[..|ops| - 1]);
      p := StepStaysSteady(Run(c, ops[..|ops| - 1]), q, ops[|ops| - 1]);
    }
  }

  // Without the proviso it may fail: an alarm removed while started leaves its slot started,
  // and the next alarm put there opens with an off. CalendarAlternation has the exact condition.
  lemma RemovedWhileStarted(c: Calendar, p: nat, j: nat, op: Op, tm: Civil.TmElements)
    requires Steady(c, p) && j < MAX_ALARMS && c.slots[j].used && c.slots[j].started
    requires op.AddWeekly? && (forall i :: 0 <= i < j ==> c.slots[i].used)
    requires op.finishHour == tm.Hour && op.finishMinutes == tm.Minute && op.day == CalendarWeekday(tm)
    ensures var c1 := Add(Removed(c, c.slots[j].id), op);
            && c1.slots[j].used && c1.slots[j].started && Trace(c1.log, c1.slots[j].id) == []
            && Trace(CheckAlarm(c1, j, tm).log, c1.slots[j].id) == [false]
  {
    RemovesExactly(c, p, j);
    var freed := Removed(c, c.slots[j].id);
    assert !freed.slots[j].used && forall i :: 0 <= i < j ==> freed.slots[i] == c.slots[i];
    var c1 := Add(freed, op);
  }
}

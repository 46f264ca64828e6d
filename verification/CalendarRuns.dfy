// What holds in every run of the calendar.
module CalendarRuns {
  import opened CalendarImage
  import opened CalendarSpec
  import Civil

  // ----- Slots, ids and the counter ------------------------------------------------------

  ghost predicate ProperRun(c: Calendar, ops: seq<Op>)
    requires Shaped(c)
  {
    ops == [] || (ProperRun(c, ops[..|ops| - 1]) && Proper(Run(c, ops[..|ops| - 1]), ops[|ops| - 1]))
  }

  lemma StepStaysTidy(c: Calendar, p: nat, op: Op) returns (p': nat)
    requires Tidy(c, p) && Proper(c, op)
    ensures Tidy(Step(c, op), p') && p <= p'
    ensures UsedSlots(Step(c, op)) <= Prefix(p')
    ensures forall i :: p <= i < p' ==> i in UsedSlots(Step(c, op))
  {
    p' := p;
    match op
    case Remove(id) =>
      var j :| 0 <= j < MAX_ALARMS && c.slots[j].used && c.slots[j].id == id;
      RemoveStaysTidy(c, p, j);
    case RemoveBy(event, eventId) =>
      RemoveMatchingStaysTidy(c, p, event, eventId, MAX_ALARMS);
    case Check(tm) =>
      CheckStaysTidy(c, p, tm, MAX_ALARMS);
    case _ =>
      p' := AddStaysTidy(c, p, op);
  }

  function Prefix(p: nat): (s: set<nat>)
    ensures forall i: nat :: i in s <==> i < p
  {
    if p == 0 then {} else Prefix(p - 1) + {p - 1}
  }

  function UsedSlots(c: Calendar): set<nat> {
    set i: nat | 0 <= i < |c.slots| && c.slots[i].used
  }

  // The slots in use at some moment of a run.
  function EverUsed(c: Calendar, ops: seq<Op>): set<nat>
    requires Shaped(c)
  {
    (if ops == [] then {} else EverUsed(c, ops[..|ops| - 1])) + UsedSlots(Run(c, ops))
  }

  // In every run that starts with the first p0 slots in use and removes alarms only by the
  // id of one in use: the slots ever used are a prefix, their ids are distinct and below
  // nextId, and the counter is the number of used slots.
  lemma {:induction false} RunStaysTidy(c: Calendar, p0: nat, ops: seq<Op>) returns (p: nat)
    requires Tidy(c, p0) && UsedSlots(c) == Prefix(p0) && ProperRun(c, ops)
    ensures Tidy(Run(c, ops), p) && EverUsed(c, ops) == Prefix(p)
    decreases |ops|
  {
    if ops == [] {
      p := p0;
    } else {
      var init, op := ops[..|ops| - 1], ops[|ops| - 1];
      var q := RunStaysTidy(c, p0, init);
      p := StepStaysTidy(Run(c, init), q, op);
      assert forall i :: i in Prefix(p) ==> i in Prefix(q) || i in UsedSlots(Run(c, ops));
      assert EverUsed(c, ops) == Prefix(q) + UsedSlots(Run(c, ops));
    }
  }

  // ----- The image ------------------------------------------------------------------------

  ghost predicate Saved(c: Calendar) {
    Shaped(c) && Holds(c.memory, ALARMS_DIR, Image(c.slots))
  }

  // Memory outside the image's 331 bytes.
  predicate SameElsewhere(a: Calendar, b: Calendar) {
    && |a.memory| == |b.memory|
    && forall k :: 0 <= k < |a.memory| && !(ALARMS_DIR <= k < ALARMS_DIR + IMAGE_SIZE) ==> a.memory[k] == b.memory[k]
  }

  lemma {:induction false} SwitchKeepsRecords(slots: seq<Alarm>, i: nat, on: bool, n: nat)
    requires i < |slots| && n <= |slots|
    ensures Records(slots[i := slots[i].(started := on)], n) == Records(slots, n)
  {
    if n > 0 {
      SwitchKeepsRecords(slots, i, on, n - 1);
    }
  }

  lemma CheckAlarmSaves(c: Calendar, i: nat, tm: Civil.TmElements)
    requires Saved(c) && i < MAX_ALARMS
    ensures Saved(CheckAlarm(c, i, tm)) && SameElsewhere(c, CheckAlarm(c, i, tm))
  {
    var a := c.slots[i];
    SwitchKeepsRecords(c.slots, i, !a.started, MAX_ALARMS);
    var log := c.log + [Call(!a.started, a.id, a.event, a.eventId)];
    var c' := c.(slots := c.slots[i := a.(started := !a.started)], log := log);
    assert Saved(c') && SameElsewhere(c, c');
  }

  lemma {:induction false} CheckSaves(c: Calendar, tm: Civil.TmElements, n: nat)
    requires Saved(c) && n <= MAX_ALARMS
    ensures Saved(CheckFirst(c, tm, n)) && SameElsewhere(c, CheckFirst(c, tm, n))
  {
    if n > 0 {
      CheckSaves(c, tm, n - 1);
      CheckAlarmSaves(CheckFirst(c, tm, n - 1), n - 1, tm);
    }
  }

  lemma {:induction false} RemoveMatchingKeepsMemory(c: Calendar, event: int, eventId: int, n: nat)
    requires Shaped(c) && n <= MAX_ALARMS
    ensures RemoveMatching(c, event, eventId, n).memory == c.memory
  {
    if n > 0 {
      RemoveMatchingKeepsMemory(c, event, eventId, n - 1);
    }
  }

  lemma StepSaves(c: Calendar, op: Op)
    requires Saved(c)
    ensures Saved(Step(c, op)) && SameElsewhere(c, Step(c, op))
  {
    match op
    case Remove(id) =>
    case RemoveBy(event, eventId) =>
      RemoveMatchingKeepsMemory(c, event, eventId, MAX_ALARMS);
    case Check(tm) =>
      CheckSaves(c, tm, MAX_ALARMS);
    case _ =>
  }

  lemma {:induction false} RunSaves(c: Calendar, ops: seq<Op>)
    requires Saved(c)
    ensures Saved(Run(c, ops)) && SameElsewhere(c, Run(c, ops))
    decreases |ops|
  {
    if ops != [] {
      RunSaves(c, ops[..|ops| - 1]);
      StepSaves(Run(c, ops[..|ops| - 1]), ops[|ops| - 1]);
    }
  }

  ghost predicate AllTyped(c: Calendar)
    requires Shaped(c)
  {
    forall i :: 0 <= i < MAX_ALARMS && c.slots[i].used ==> Typed(c.slots[i])
  }

  lemma {:induction false} CheckTyped(c: Calendar, tm: Civil.TmElements, n: nat)
    requires Shaped(c) && AllTyped(c) && n <= MAX_ALARMS
    ensures AllTyped(CheckFirst(c, tm, n))
  {
    if n > 0 {
      CheckTyped(c, tm, n - 1);
    }
  }

  lemma {:induction false} RemoveMatchingTyped(c: Calendar, event: int, eventId: int, n: nat)
    requires Shaped(c) && AllTyped(c) && n <= MAX_ALARMS
    ensures AllTyped(RemoveMatching(c, event, eventId, n))
  {
    if n > 0 {
      RemoveMatchingTyped(c, event, eventId, n - 1);
    }
  }

  lemma {:induction false} RunTyped(c: Calendar, ops: seq<Op>)
    requires Shaped(c) && AllTyped(c)
    ensures AllTyped(Run(c, ops))
    decreases |ops|
  {
    if ops != [] {
      var before, op := Run(c, ops[..|ops| - 1]), ops[|ops| - 1];
      RunTyped(c, ops[..|ops| - 1]);
      if op.RemoveBy? { RemoveMatchingTyped(before, op.event, op.eventId, MAX_ALARMS); }
      if op.Check? { CheckTyped(before, op.tm, MAX_ALARMS); }
    }
  }

  // After every run, whatever ids are removed: reading the EEPROM gives the used alarms in
  // slot order, each cut to its bytes and so unchanged exactly if it fits them, and nothing
  // outside the 331 bytes has changed.
  lemma {:induction false} RunReadsBack(c: Calendar, ops: seq<Op>, aux: Alarm)
    requires Saved(c) && AllTyped(c)
    ensures var c' := Run(c, ops);
            var r, used := ReadImage(c'.memory, ALARMS_DIR, aux), Used(c'.slots, MAX_ALARMS);
            SameElsewhere(c, c') && r.Read? && Restored(r.alarms, used) && |used| <= MAX_ALARMS
  {
    RunSaves(c, ops);
    RunTyped(c, ops);
    ImageReadsBack(Run(c, ops).memory, Run(c, ops).slots, aux);
  }

  // ----- The bytes of a record ----------------------------------------------------------------

  // A record with the delimiter behind it: its kind, the day and times, the event and event id,
  // the id, and for a one-time alarm its year and month.
  lemma RecordBytes(a: Alarm, image: seq<Byte>)
    requires Typed(a) && image == Encode(a) + [DELIMITER]
    ensures |image| == if a.kind == 1 then 12 else 10
    ensures image[..7] == [ToByte(a.kind), ToByte(a.day), ToByte(a.hour), ToByte(a.minutes), ToByte(a.finishHour),
                           ToByte(a.finishMinutes), ToByte(a.event)]
    ensures image[7..9] == [ToByte(a.eventId), ToByte(a.id)]
    ensures image[9..] == if a.kind == 1 then [ToByte(a.year), ToByte(a.month), 0] else [0]
  {
  }

  // The one alarm of an otherwise empty calendar, from address 413 on.
  lemma FirstRecord(c: Calendar, op: Op)
    requires Shaped(c) && (op.AddWeekly? || op.AddOnce?) && forall i :: 0 <= i < MAX_ALARMS ==> !c.slots[i].used
    ensures var m := Add(c, op).memory[413..];
            && m[..7] == [if op.AddWeekly? then 2 else 1, ToByte(op.day), ToByte(op.hour), ToByte(op.minutes),
                          ToByte(op.finishHour), ToByte(op.finishMinutes), ToByte(op.event)]
            && m[7..9] == [ToByte(op.eventId), ToByte(c.nextId)]
            && (op.AddWeekly? ==> m[9] == 0)
            && (op.AddOnce? ==> m[9..12] == [ToByte(TwoDigits(op.year)), ToByte(op.month), 0])
  {
    var a := NewAlarm(c.slots[0], op, c.nextId);
    var image := Image(c.slots[0 := a]);
    OneRecord(c.slots[0 := a], MAX_ALARMS);
    RecordBytes(a, image);
    assert Add(c, op).memory == Overwrite(c.memory, 413, image);
    BehindAddress(c.memory, 413, image);
    var m := Add(c, op).memory[413..];
    assert m[..7] == image[..7] && m[7..9] == image[7..9] && m[9..|image|] == image[9..];
  }

  lemma BehindAddress(memory: seq<Byte>, position: nat, bytes: seq<Byte>)
    requires position + |bytes| <= |memory|
    ensures Overwrite(memory, position, bytes)[position..][..|bytes|] == bytes
  {
  }

  lemma {:induction false} OneRecord(slots: seq<Alarm>, n: nat)
    requires 1 <= n <= |slots| && slots[0].used && forall i :: 1 <= i < n ==> !slots[i].used
    ensures Records(slots, n) == Encode(slots[0])
  {
    if n > 1 {
      OneRecord(slots, n - 1);
    } else {
      assert Records(slots, 0) == [];
    }
  }
}

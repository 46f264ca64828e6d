// The calendar object: its slots, counters and EEPROM, changed in place.
module CalendarObject {
  import opened CalendarImage
  import opened CalendarSpec
  import opened CalendarRuns
  import opened CalendarEvents
  import opened CalendarRestart
  import Civil
  import opened MachineWords

  lemma OverwriteMore(memory: seq<Byte>, position: nat, a: seq<Byte>, b: seq<Byte>)
    requires position + |a| + |b| <= |memory|
    ensures Overwrite(Overwrite(memory, position, a), position + |a|, b) == Overwrite(memory, position, a + b)
  {
  }

  // From `position` on, reading goes on as the whole reading does behind its first k alarms.
  ghost predicate Continues(memory: seq<Byte>, position: nat, aux: Alarm, whole: Reading, k: nat) {
    match whole
    case Broken => ReadImage(memory, position, aux) == Broken
    case Read(all) => k <= |all| && ReadImage(memory, position, aux) == Read(all[k..])
  }

  lemma ReadStep(memory: seq<Byte>, position: nat, aux: Alarm, whole: Reading, k: nat)
    requires Continues(memory, position, aux, whole, k)
    requires position + 11 < |memory| && memory[position] != DELIMITER
    ensures Continues(memory, position + RecordSize(memory[position]), Decoded(memory, position, aux), whole, k + 1)
    ensures whole.Read? ==> k < |whole.alarms| && whole.alarms[k] == Decoded(memory, position, aux)
  {
    if whole.Read? {
      var all := whole.alarms;
      assert all[k..] != [];
      assert all[k..][1..] == all[k + 1..];
    }
  }

  lemma NextIdStep(all: seq<Alarm>, k: nat)
    requires k < |all|
    ensures var next := NextIdAfter(all[..k]);
            NextIdAfter(all[..k + 1]) == if all[k].id >= next then all[k].id + 1 else next
  {
    assert all[..k + 1][..k] == all[..k];
  }

  lemma PrefixSnoc(slots: seq<Alarm>, all: seq<Alarm>, k: nat)
    requires k < |slots| && k < |all| && slots[..k] == all[..k]
    ensures slots[k := all[k]][..k + 1] == all[..k + 1]
  {
  }

  lemma OneMore(memory: seq<Byte>, position: nat, aux: Alarm, whole: Reading, k: nat)
    requires Continues(memory, position, aux, whole, k) && position < |memory| && memory[position] != DELIMITER
    ensures whole.Read? ==> |whole.alarms| > k
  {
    if whole.Read? {
      assert whole.alarms[k..] != [];
    }
  }

  lemma NoneMore(memory: seq<Byte>, position: nat, aux: Alarm, whole: Reading, k: nat)
    requires Continues(memory, position, aux, whole, k) && position < |memory| && memory[position] == DELIMITER
    ensures whole.Read? && |whole.alarms| == k
  {
  }

  // The first k slots hold the first k alarms read, the others what they held before.
  ghost predicate Filled(slots: seq<Alarm>, before: seq<Alarm>, next: int, whole: Reading, k: nat) {
    k <= |slots| == |before| && (forall i :: k <= i < |slots| ==> slots[i] == before[i]) &&
    (whole.Read? ==> k <= |whole.alarms| && slots[..k] == whole.alarms[..k] && next == NextIdAfter(whole.alarms[..k]))
  }

  lemma FilledStep(slots: seq<Alarm>, before: seq<Alarm>, next: int, whole: Reading, k: nat, a: Alarm)
    requires Filled(slots, before, next, whole, k) && k < |slots|
    requires whole.Read? ==> k < |whole.alarms| && whole.alarms[k] == a
    ensures Filled(slots[k := a], before, if a.id >= next then a.id + 1 else next, whole, k + 1)
  {
    if whole.Read? {
      NextIdStep(whole.alarms, k);
      PrefixSnoc(slots, whole.alarms, k);
    }
  }

  lemma AddedAt(c: Calendar, op: Op, i: nat)
    requires Shaped(c) && (op.AddWeekly? || op.AddOnce?) && i == FirstUnused(c.slots, 0) < MAX_ALARMS
    ensures AddedId(c) == c.nextId
    ensures var c' := c.(slots := c.slots[i := NewAlarm(c.slots[i], op, c.nextId)], nextId := c.nextId + 1);
            Step(c, op) == Store(c'.(amount := c.amount + 1))
  {
  }

  lemma StoredThenCounted(c: Calendar, amount: int)
    requires Shaped(c)
    ensures Store(c).(amount := amount) == Store(c.(amount := amount))
  {
  }

  class AlarmCalendar {
    const alarms: array<Alarm>
    const eeprom: array<Byte>
    var alarmAmount: int
    var nextId: int
    var log: seq<Call>
    // The stored records have filled the slots and gone on behind them; what the calendar holds
    // then is undefined.
    ghost var overrun: bool

    ghost predicate Valid() {
      alarms.Length == MAX_ALARMS && eeprom.Length == MEMORY_SIZE
    }

    ghost function Abs(): Calendar
      reads this, alarms, eeprom
    {
      Calendar(alarms[..], alarmAmount, nextId, eeprom[..], log)
    }

    // `aux` and `garbage` are what the uninitialised variable of readAlarms and the
    // uninitialised slots happen to hold.
    constructor (eeprom: array<Byte>, aux: Alarm, garbage: seq<Alarm>)
      requires eeprom.Length == MEMORY_SIZE && |garbage| == MAX_ALARMS
      ensures Valid() && fresh(alarms) && this.eeprom == eeprom
      ensures eeprom[..] == old(eeprom[..]) && log == []
      ensures var r := ReadImage(eeprom[..], ALARMS_DIR, aux);
              && (overrun <==> r.Broken? || |r.alarms| > MAX_ALARMS)
              && (!overrun ==> StartsFrom(Abs(), r.alarms))
    {
      this.eeprom := eeprom;
      alarms := new Alarm[MAX_ALARMS](i requires 0 <= i < |garbage| => garbage[i]);
      alarmAmount, nextId, log, overrun := 0, 0, [], false;
      new;
      for i := 0 to MAX_ALARMS
        invariant forall k :: 0 <= k < i ==> !alarms[k].used && !alarms[k].started
        invariant alarmAmount == 0 && nextId == 0 && log == []
      {
        alarms[i] := alarms[i].(used := false, started := false);
      }
      var ok := ReadAlarms(aux);
      overrun := !ok;
    }

    // Gives up where a thirty-first record would be written behind the slots.
    method ReadAlarms(aux0: Alarm) returns (ok: bool)
      requires Valid() && alarmAmount == 0 && nextId == 0
      modifies this`alarmAmount, this`nextId, alarms
      ensures var r := ReadImage(eeprom[..], ALARMS_DIR, aux0); ok <==> r.Read? && |r.alarms| <= MAX_ALARMS
      ensures ok ==>
                var r := ReadImage(eeprom[..], ALARMS_DIR, aux0).alarms;
                && alarmAmount == |r| && nextId == NextIdAfter(r) && alarms[..|r|] == r
                && forall i :: |r| <= i < MAX_ALARMS ==> alarms[i] == old(alarms[i])
    {
      ghost var memory, before := eeprom[..], alarms[..];
      ghost var whole := ReadImage(memory, ALARMS_DIR, aux0);
      var alarmIndex, aux, position := 0, aux0, ALARMS_DIR;
      while eeprom[position] != DELIMITER
        invariant alarmIndex == alarmAmount <= MAX_ALARMS && position <= ALARMS_DIR + 11 * alarmIndex
        invariant Continues(memory, position, aux, whole, alarmIndex)
        invariant Filled(alarms[..], before, nextId, whole, alarmIndex)
        decreases MEMORY_SIZE - position
      {
        if alarmIndex == MAX_ALARMS {
          OneMore(memory, position, aux, whole, alarmIndex);
          return false;
        }
        ReadStep(memory, position, aux, whole, alarmIndex);
        FilledStep(alarms[..], before, nextId, whole, alarmIndex, Decoded(memory, position, aux));
        aux, position := ReadAlarm(position, aux);
        TakeIn(alarmIndex, aux);
        alarmIndex := alarmIndex + 1;
      }
      NoneMore(memory, position, aux, whole, alarmIndex);
      assert whole.alarms[..alarmIndex] == whole.alarms;
      ok := true;
    }

    // A record just read goes into its slot.
    method TakeIn(alarmIndex: nat, aux: Alarm)
      requires Valid() && alarmIndex < MAX_ALARMS
      modifies this`alarmAmount, this`nextId, alarms
      ensures alarms[..] == old(alarms[..])[alarmIndex := aux] && alarmAmount == old(alarmAmount) + 1
      ensures nextId == if aux.id >= old(nextId) then aux.id + 1 else old(nextId)
    {
      if aux.id >= nextId {
        nextId := aux.id + 1;
      }
      alarms[alarmIndex] := aux;
      alarmAmount := alarmAmount + 1;
    }

    method ReadAlarm(position: nat, aux0: Alarm) returns (aux: Alarm, position': nat)
      requires Valid() && position < MEMORY_SIZE && eeprom[position] != DELIMITER
      requires position + RecordSize(eeprom[position]) <= MEMORY_SIZE
      ensures aux == Decoded(eeprom[..], position, aux0) && position' == position + RecordSize(eeprom[position])
    {
      aux := aux0.(kind := eeprom[position], day := eeprom[position + 1], hour := eeprom[position + 2],
                   minutes := eeprom[position + 3], finishHour := eeprom[position + 4],
                   finishMinutes := eeprom[position + 5], event := eeprom[position + 6],
                   eventId := eeprom[position + 7], used := true, started := false, id := eeprom[position + 8]);
      position' := position + 9;
      if aux.kind == ALARM_ONCE {
        aux := aux.(year := eeprom[position'], month := eeprom[position' + 1]);
        position' := position' + 2;
      }
    }

    method WriteByte(position: nat, b: Byte) returns (position': nat)
      requires Valid() && position < MEMORY_SIZE
      modifies eeprom
      ensures eeprom[..] == Overwrite(old(eeprom[..]), position, [b]) && position' == position + 1
    {
      eeprom[position] := b;
      position' := position + 1;
    }

    // The nine bytes every record has.
    method WriteCommon(position: nat, a: Alarm) returns (position': nat)
      requires Valid() && position + 9 <= MEMORY_SIZE
      modifies eeprom
      ensures position' == position + 9
      ensures forall k :: 0 <= k < 9 ==> eeprom[position + k] == Encode(a)[k]
      ensures forall k :: 0 <= k < MEMORY_SIZE && !(position <= k < position + 9) ==> eeprom[k] == old(eeprom[k])
    {
      position' := position;
      eeprom[position'], position' := ToByte(a.kind), position' + 1;
      eeprom[position'], position' := ToByte(a.day), position' + 1;
      eeprom[position'], position' := ToByte(a.hour), position' + 1;
      eeprom[position'], position' := ToByte(a.minutes), position' + 1;
      eeprom[position'], position' := ToByte(a.finishHour), position' + 1;
      eeprom[position'], position' := ToByte(a.finishMinutes), position' + 1;
      eeprom[position'], position' := ToByte(a.event), position' + 1;
      eeprom[position'], position' := ToByte(a.eventId), position' + 1;
      eeprom[position'], position' := ToByte(a.id), position' + 1;
    }

    method WriteAlarm(position: nat, a: Alarm) returns (position': nat)
      requires Valid() && position + |Encode(a)| <= MEMORY_SIZE
      modifies eeprom
      ensures eeprom[..] == Overwrite(old(eeprom[..]), position, Encode(a))
      ensures position' == position + |Encode(a)|
    {
      position' := WriteCommon(position, a);
      if a.kind == ALARM_ONCE {
        eeprom[position'], position' := ToByte(a.year), position' + 1;
        eeprom[position'], position' := ToByte(a.month), position' + 1;
      }
    }

    method StoreAlarms()
      requires Valid()
      modifies eeprom
      ensures Abs() == Store(old(Abs()))
    {
      var position := ALARMS_DIR;
      ghost var before := eeprom[..];
      for i := 0 to MAX_ALARMS
        invariant position == ALARMS_DIR + |Records(alarms[..], i)|
        invariant eeprom[..] == Overwrite(before, ALARMS_DIR, Records(alarms[..], i))
      {
        var aux := alarms[i];
        if aux.used {
          OverwriteMore(before, ALARMS_DIR, Records(alarms[..], i), Encode(aux));
          position := WriteAlarm(position, aux);
        }
      }
      OverwriteMore(before, ALARMS_DIR, Records(alarms[..], MAX_ALARMS), [DELIMITER]);
      position := WriteByte(position, DELIMITER);
    }

    // The loop both ways to add an alarm begin with.
    method FindUnused() returns (i: nat)
      requires Valid()
      ensures i == FirstUnused(alarms[..], 0)
    {
      i := 0;
      while i < MAX_ALARMS && alarms[i].used
        invariant i <= MAX_ALARMS && FirstUnused(alarms[..], i) == FirstUnused(alarms[..], 0)
      {
        i := i + 1;
      }
    }

    method FillSlot(i: nat, op: Op)
      requires Valid() && i < MAX_ALARMS && (op.AddWeekly? || op.AddOnce?)
      modifies this`nextId, alarms
      ensures Abs() == old(Abs()).(slots := old(alarms[..])[i := NewAlarm(old(alarms[i]), op, old(nextId))],
                                   nextId := old(nextId) + 1)
    {
      alarms[i] := NewAlarm(alarms[i], op, nextId);
      nextId := nextId + 1;
    }

    method CountOneMore()
      modifies this`alarmAmount
      ensures Abs() == old(Abs()).(amount := old(alarmAmount) + 1)
    {
      alarmAmount := alarmAmount + 1;
    }

    // addWeeklyAlarm and addAlarmOnce differ in the fields they fill in.
    method AddAlarm(op: Op) returns (id: int)
      requires Valid() && (op.AddWeekly? || op.AddOnce?)
      modifies this`alarmAmount, this`nextId, alarms, eeprom
      ensures Abs() == Step(old(Abs()), op) && id == AddedId(old(Abs()))
    {
      var i := FindUnused();
      if i == MAX_ALARMS { return -1; }
      ghost var c := Abs();
      AddedAt(c, op, i);
      id := nextId;
      FillSlot(i, op);
      StoredThenCounted(Abs(), alarmAmount + 1);
      StoreAlarms();
      CountOneMore();
    }

    method RemoveAlarm(id: int)
      requires Valid()
      modifies this`alarmAmount, alarms, eeprom
      ensures Abs() == Removed(old(Abs()), id)
    {
      var i := 0;
      while i < MAX_ALARMS
        invariant i <= MAX_ALARMS && Abs() == old(Abs())
        invariant FirstWithId(alarms[..], id, i) == FirstWithId(alarms[..], id, 0)
      {
        if alarms[i].id == id {
          alarms[i] := alarms[i].(used := false);
          alarmAmount := alarmAmount - 1;
          StoreAlarms();
          return;
        }
        i := i + 1;
      }
    }

    method RemoveAlarmsWithEventAndId(event: int, eventId: int)
      requires Valid()
      modifies this`alarmAmount, alarms, eeprom
      ensures Abs() == Step(old(Abs()), RemoveBy(event, eventId))
    {
      for i := 0 to MAX_ALARMS
        invariant Abs() == RemoveMatching(old(Abs()), event, eventId, i)
      {
        if alarms[i].used && alarms[i].event == event && alarms[i].eventId == eventId {
          alarms[i] := alarms[i].(used := false);
          alarmAmount := alarmAmount - 1;
        }
      }
      StoreAlarms();
    }

    method EventOn(a: Alarm)
      modifies this`log
      ensures log == old(log) + [Call(true, a.id, a.event, a.eventId)]
    {
      log := log + [Call(true, a.id, a.event, a.eventId)];
    }

    method EventOff(a: Alarm)
      modifies this`log
      ensures log == old(log) + [Call(false, a.id, a.event, a.eventId)]
    {
      log := log + [Call(false, a.id, a.event, a.eventId)];
    }

    method CheckAlarmAt(i: nat, tm: Civil.TmElements)
      requires Valid() && i < MAX_ALARMS
      modifies this`alarmAmount, this`log, alarms, eeprom
      ensures Abs() == CheckAlarm(old(Abs()), i, tm)
    {
      var aux := alarms[i];
      var wd := if tm.Wday == 1 then 7 else tm.Wday - 1;
      if aux.kind == ALARM_ONCE {
        if !aux.started {
          if aux.hour == tm.Hour && aux.minutes == tm.Minute && aux.day == tm.Day && aux.month == tm.Month {
            alarms[i] := aux.(started := true);
            EventOn(aux);
          }
        } else if aux.finishHour == tm.Hour && aux.finishMinutes == tm.Minute
                  && aux.day == tm.Day && aux.month == tm.Month {
          alarms[i] := aux.(started := false);
          EventOff(aux);
          RemoveAlarm(aux.id);
        }
      } else if aux.kind == WEEKLY_ALARM {
        if !aux.started {
          if aux.hour == tm.Hour && aux.minutes == tm.Minute && aux.day == wd {
            alarms[i] := aux.(started := true);
            EventOn(aux);
          }
        } else if aux.finishHour == tm.Hour && aux.finishMinutes == tm.Minute && aux.day == wd {
          alarms[i] := aux.(started := false);
          EventOff(aux);
        }
      }
    }

    // `t` is the clock reading of the whole check.
    method CheckAlarms(t: nat)
      requires Valid() && t < WORD
      modifies this`alarmAmount, this`log, alarms, eeprom
      ensures Abs() == Step(old(Abs()), Check(Civil.Fields(t)))
    {
      var tm := Civil.BreakTime(t);
      for i := 0 to MAX_ALARMS
        invariant Abs() == CheckFirst(old(Abs()), tm, i)
      {
        if alarms[i].used {
          CheckAlarmAt(i, tm);
        }
      }
    }
  }
}

// The calendar's alarms and their variable-length image in EEPROM, ended by a zero byte.
module CalendarImage {

  const MAX_ALARMS := 30
  const ALARM_ONCE := 1
  const WEEKLY_ALARM := 2
  const DELIMITER := 0
  const MEMORY_SIZE := 4096
  const ALARMS_DIR := 413
  const IMAGE_SIZE := 331   // thirty records of eleven bytes, and the delimiter

  datatype Alarm = Alarm(id: int, day: int, hour: int, minutes: int, finishHour: int, finishMinutes: int, month: int,
                         year: int, event: int, started: bool, used: bool, kind: int, eventId: int)

  type Byte = b: nat | b < 256

  // The C cast to byte.
  function ToByte(x: int): Byte {
    x % 256
  }

  predicate IsByte(x: int) {
    0 <= x < 256
  }

  // Alarms whose stored fields survive the cast.
  predicate Storable(a: Alarm) {
    && (a.kind == ALARM_ONCE || a.kind == WEEKLY_ALARM)
    && IsByte(a.day) && IsByte(a.hour) && IsByte(a.minutes) && IsByte(a.finishHour) && IsByte(a.finishMinutes)
    && IsByte(a.event) && IsByte(a.eventId) && IsByte(a.id)
    && (a.kind == ALARM_ONCE ==> IsByte(a.year) && IsByte(a.month))
  }

  function Encode(a: Alarm): (bytes: seq<Byte>)
    ensures |bytes| == if a.kind == ALARM_ONCE then 11 else 9
  {
    [ToByte(a.kind), ToByte(a.day), ToByte(a.hour), ToByte(a.minutes), ToByte(a.finishHour),
     ToByte(a.finishMinutes), ToByte(a.event), ToByte(a.eventId), ToByte(a.id)]
    + (if a.kind == ALARM_ONCE then [ToByte(a.year), ToByte(a.month)] else [])
  }

  // The records of the first n slots.
  function Records(slots: seq<Alarm>, n: nat): (bytes: seq<Byte>)
    requires n <= |slots|
    ensures |bytes| <= 11 * n
  {
    if n == 0 then []
    else if slots[n - 1].used then Records(slots, n - 1) + Encode(slots[n - 1])
    else Records(slots, n - 1)
  }

  function Image(slots: seq<Alarm>): (bytes: seq<Byte>)
    ensures |bytes| <= 11 * |slots| + 1
  {
    Records(slots, |slots|) + [DELIMITER]
  }

  function Overwrite(memory: seq<Byte>, position: nat, bytes: seq<Byte>): (m: seq<Byte>)
    requires position + |bytes| <= |memory|
    ensures |m| == |memory|
    ensures m[position..position + |bytes|] == bytes
    ensures forall i :: 0 <= i < |memory| && !(position <= i < position + |bytes|) ==> m[i] == memory[i]
  {
    memory[..position] + bytes + memory[position + |bytes|..]
  }

  predicate Holds(memory: seq<Byte>, position: nat, bytes: seq<Byte>) {
    position + |bytes| <= |memory| && memory[position..position + |bytes|] == bytes
  }

  // ----- Reading an image ------------------------------------------------------------------

  // A record as readAlarms fills its local variable, which keeps the month and year of the
  // record before when the new one stores none.
  function Decoded(memory: seq<Byte>, position: nat, aux: Alarm): Alarm
    requires position + 9 <= |memory|
    requires memory[position] == ALARM_ONCE ==> position + 11 <= |memory|
  {
    var kind := memory[position];
    Alarm(memory[position + 8], memory[position + 1], memory[position + 2], memory[position + 3],
          memory[position + 4], memory[position + 5],
          if kind == ALARM_ONCE then memory[position + 10] else aux.month,
          if kind == ALARM_ONCE then memory[position + 9] else aux.year,
          memory[position + 6], false, true, kind, memory[position + 7])
  }

  function RecordSize(kind: int): nat {
    if kind == ALARM_ONCE then 11 else 9
  }

  datatype Reading = Broken | Read(alarms: seq<Alarm>)

  // Broken when the memory ends before a delimiter.
  function ReadImage(memory: seq<Byte>, position: nat, aux: Alarm): Reading
    decreases |memory| - position
  {
    if position >= |memory| then Broken
    else if memory[position] == DELIMITER then Read([])
    else if position + RecordSize(memory[position]) > |memory| then Broken
    else
      var a := Decoded(memory, position, aux);
      match ReadImage(memory, position + RecordSize(memory[position]), a)
      case Broken => Broken
      case Read(rest) => Read([a] + rest)
  }

  // The used alarms of the first n slots, in slot order.
  function Used(slots: seq<Alarm>, n: nat): seq<Alarm>
    requires n <= |slots|
  {
    if n == 0 then []
    else if slots[n - 1].used then Used(slots, n - 1) + [slots[n - 1]]
    else Used(slots, n - 1)
  }

  // What a power cycle keeps of an alarm: everything but `started`, and the date of a
  // weekly alarm, which has none.
  predicate SameAlarm(r: Alarm, a: Alarm) {
    && r.used && !r.started && r.id == a.id && r.kind == a.kind
    && r.day == a.day && r.hour == a.hour && r.minutes == a.minutes
    && r.finishHour == a.finishHour && r.finishMinutes == a.finishMinutes
    && r.event == a.event && r.eventId == a.eventId
    && (a.kind == ALARM_ONCE ==> r.month == a.month && r.year == a.year)
  }

  function EncodeAll(alarms: seq<Alarm>): seq<Byte> {
    if alarms == [] then [] else Encode(alarms[0]) + EncodeAll(alarms[1..])
  }

  lemma {:induction false} EncodeAllSnoc(alarms: seq<Alarm>, a: Alarm)
    ensures EncodeAll(alarms + [a]) == EncodeAll(alarms) + Encode(a)
  {
    if alarms == [] {
      assert [a][1..] == [];
    } else {
      assert (alarms + [a])[1..] == alarms[1..] + [a];
      EncodeAllSnoc(alarms[1..], a);
    }
  }

  lemma {:induction false} RecordsAreUsed(slots: seq<Alarm>, n: nat)
    requires n <= |slots|
    ensures Records(slots, n) == EncodeAll(Used(slots, n))
  {
    if n > 0 {
      RecordsAreUsed(slots, n - 1);
      EncodeAllSnoc(Used(slots, n - 1), slots[n - 1]);
    }
  }

  lemma HoldsParts(memory: seq<Byte>, position: nat, a: seq<Byte>, b: seq<Byte>)
    ensures Holds(memory, position, a + b) <==> Holds(memory, position, a) && Holds(memory, position + |a|, b)
  {
    if position + |a| + |b| <= |memory| {
      var m := memory[position..position + |a| + |b|];
      assert m[..|a|] == memory[position..position + |a|];
      assert m[|a|..] == memory[position + |a|..position + |a| + |b|];
      if Holds(memory, position, a) && Holds(memory, position + |a|, b) {
        assert m == m[..|a|] + m[|a|..];
      }
      if Holds(memory, position, a + b) {
        assert m[..|a|] == a && m[|a|..] == b;
      }
    }
  }

  predicate Typed(a: Alarm) {
    a.kind == ALARM_ONCE || a.kind == WEEKLY_ALARM
  }

  // What a power cycle makes of an alarm: its stored fields cut to their bytes.
  function Cut(a: Alarm): Alarm {
    a.(id := ToByte(a.id), day := ToByte(a.day), hour := ToByte(a.hour), minutes := ToByte(a.minutes),
       finishHour := ToByte(a.finishHour), finishMinutes := ToByte(a.finishMinutes),
       month := ToByte(a.month), year := ToByte(a.year), event := ToByte(a.event), eventId := ToByte(a.eventId))
  }

  // What a record gives back for its alarm.
  predicate Reread(r: Alarm, a: Alarm) {
    SameAlarm(r, Cut(a)) && (SameAlarm(r, a) <==> Storable(a))
  }

  predicate Restored(r: seq<Alarm>, alarms: seq<Alarm>) {
    |r| == |alarms| && forall i :: 0 <= i < |alarms| ==> Reread(r[i], alarms[i])
  }

  // A record gives back its alarm with the stored fields cut to bytes, so the alarm itself
  // exactly when every stored field fits its byte.
  lemma DecodeEncode(memory: seq<Byte>, position: nat, a: Alarm, aux: Alarm)
    requires Typed(a) && Holds(memory, position, Encode(a))
    ensures memory[position] == a.kind && position + RecordSize(a.kind) <= |memory|
    ensures Reread(Decoded(memory, position, aux), a)
  {
    var e := Encode(a);
    assert memory[position..position + |e|] == e;
    assert memory[position] == e[0] && memory[position + 1] == e[1] && memory[position + 2] == e[2];
    assert memory[position + 3] == e[3] && memory[position + 4] == e[4] && memory[position + 5] == e[5];
    assert memory[position + 6] == e[6] && memory[position + 7] == e[7] && memory[position + 8] == e[8];
    if a.kind == ALARM_ONCE {
      assert memory[position + 9] == e[9] && memory[position + 10] == e[10];
    }
  }

  lemma RestoredMore(r: Alarm, rest: seq<Alarm>, a: Alarm, alarms: seq<Alarm>)
    requires Reread(r, a) && Restored(rest, alarms)
    ensures Restored([r] + rest, [a] + alarms)
  {
  }

  // Reading an image gives back the alarms it was made from, in order.
  lemma {:induction false} ReadBack(memory: seq<Byte>, position: nat, alarms: seq<Alarm>, aux: Alarm)
    requires forall i :: 0 <= i < |alarms| ==> Typed(alarms[i])
    requires Holds(memory, position, EncodeAll(alarms) + [DELIMITER])
    ensures var r := ReadImage(memory, position, aux);
            r.Read? && Restored(r.alarms, alarms)
    decreases |alarms|
  {
    if alarms == [] {
      assert EncodeAll(alarms) + [DELIMITER] == [DELIMITER];
      assert memory[position..position + 1][0] == memory[position];
    } else {
      var a, rest := alarms[0], EncodeAll(alarms[1..]) + [DELIMITER];
      assert EncodeAll(alarms) + [DELIMITER] == Encode(a) + rest;
      HoldsParts(memory, position, Encode(a), rest);
      DecodeEncode(memory, position, a, aux);
      var next := Decoded(memory, position, aux);
      ReadBack(memory, position + |Encode(a)|, alarms[1..], next);
      RestoredMore(next, ReadImage(memory, position + |Encode(a)|, next).alarms, a, alarms[1..]);
      assert [a] + alarms[1..] == alarms;
    }
  }

  // The image of any thirty slots fits its 331 bytes, and reading it stops at its delimiter
  // with the used alarms in slot order, `started` cleared, each unchanged exactly when its
  // fields fit their bytes.
  lemma {:induction false} ImageReadsBack(memory: seq<Byte>, slots: seq<Alarm>, aux: Alarm)
    requires |slots| == MAX_ALARMS && forall i :: 0 <= i < |slots| && slots[i].used ==> Typed(slots[i])
    requires Holds(memory, ALARMS_DIR, Image(slots))
    ensures |Image(slots)| <= IMAGE_SIZE
    ensures var r, used := ReadImage(memory, ALARMS_DIR, aux), Used(slots, |slots|);
            r.Read? && Restored(r.alarms, used) && |used| <= MAX_ALARMS
  {
    RecordsAreUsed(slots, |slots|);
    UsedTyped(slots, |slots|);
    ReadBack(memory, ALARMS_DIR, Used(slots, |slots|), aux);
  }

  lemma {:induction false} UsedTyped(slots: seq<Alarm>, n: nat)
    requires n <= |slots| && forall i :: 0 <= i < n && slots[i].used ==> Typed(slots[i])
    ensures |Used(slots, n)| <= n && forall i :: 0 <= i < |Used(slots, n)| ==> Typed(Used(slots, n)[i])
  {
    if n > 0 {
      UsedTyped(slots, n - 1);
    }
  }
}

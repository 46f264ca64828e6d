// A power cycle: what the calendar is after reading back what it had stored.
module CalendarRestart {
  import opened CalendarImage
  import opened CalendarSpec
  import opened CalendarRuns
  import opened CalendarEvents

  // The id counter after reading these alarms.
  function NextIdAfter(alarms: seq<Alarm>): (next: int)
    ensures forall i :: 0 <= i < |alarms| ==> alarms[i].id < next
  {
    if alarms == [] then 0
    else
      var next, a := NextIdAfter(alarms[..|alarms| - 1]), alarms[|alarms| - 1];
      if a.id >= next then a.id + 1 else next
  }

  // A calendar just made from these alarms.
  ghost predicate StartsFrom(c: Calendar, alarms: seq<Alarm>) {
    && Shaped(c) && |alarms| <= MAX_ALARMS
    && c.slots[..|alarms|] == alarms
    && (forall i :: |alarms| <= i < MAX_ALARMS ==> !c.slots[i].used && !c.slots[i].started)
    && c.amount == |alarms| && c.nextId == NextIdAfter(alarms) && c.log == []
  }

  ghost predicate DistinctIds(alarms: seq<Alarm>) {
    forall i, j :: 0 <= i < j < |alarms| ==> alarms[i].id != alarms[j].id
  }

  // Distinct even when only their lowest bytes are stored.
  ghost predicate DistinctBytes(alarms: seq<Alarm>) {
    forall i, j :: 0 <= i < j < |alarms| ==> ToByte(alarms[i].id) != ToByte(alarms[j].id)
  }

  lemma {:induction false} UsedPrefix(slots: seq<Alarm>, k: nat, n: nat)
    requires k <= n <= |slots|
    requires forall i :: 0 <= i < n ==> (slots[i].used <==> i < k)
    ensures Used(slots, n) == slots[..k] && CountUsed(slots, n) == k
  {
    if n > 0 {
      if k == n {
        UsedPrefix(slots, k - 1, n - 1);
        assert slots[..k] == slots[..k - 1] + [slots[k - 1]];
      } else {
        UsedPrefix(slots, k, n - 1);
      }
    }
  }

  lemma {:induction false} UsedCounted(slots: seq<Alarm>, n: nat)
    requires n <= |slots| && forall i :: 0 <= i < |slots| && slots[i].used ==> Typed(slots[i])
    ensures |Used(slots, n)| == CountUsed(slots, n)
    ensures forall i :: 0 <= i < |Used(slots, n)| ==> Used(slots, n)[i].used && Typed(Used(slots, n)[i])
  {
    if n > 0 {
      UsedCounted(slots, n - 1);
    }
  }

  lemma SameRecord(r: Alarm, a: Alarm)
    requires Typed(a) && SameAlarm(r, Cut(a))
    ensures Encode(r) == Encode(a)
  {
  }

  lemma {:induction false} SameRecords(r: seq<Alarm>, a: seq<Alarm>)
    requires |r| == |a| && forall i :: 0 <= i < |a| ==> Typed(a[i]) && SameAlarm(r[i], Cut(a[i]))
    ensures EncodeAll(r) == EncodeAll(a)
    decreases |a|
  {
    if a != [] {
      SameRecord(r[0], a[0]);
      SameRecords(r[1..], a[1..]);
    }
  }

  lemma TraceOfNothing()
    ensures forall id :: Trace([], id) == []
  {
  }

  ghost predicate Unstarted(alarms: seq<Alarm>) {
    forall i :: 0 <= i < |alarms| ==> alarms[i].used && !alarms[i].started && Typed(alarms[i])
  }

  lemma {:induction false} RestoredAlarms(c: Calendar, p: nat, aux: Alarm)
    requires Tidy(c, p) && Saved(c)
    ensures var r, used := ReadImage(c.memory, ALARMS_DIR, aux), Used(c.slots, MAX_ALARMS);
            && r.Read? && Restored(r.alarms, used) && |r.alarms| == c.amount && Unstarted(r.alarms)
            && EncodeAll(r.alarms) == Records(c.slots, MAX_ALARMS)
            && (DistinctIds(r.alarms) <==> DistinctBytes(used))
  {
    ImageReadsBack(c.memory, c.slots, aux);
    var r, used := ReadImage(c.memory, ALARMS_DIR, aux).alarms, Used(c.slots, MAX_ALARMS);
    UsedCounted(c.slots, MAX_ALARMS);
    SameRecords(r, used);
    RecordsAreUsed(c.slots, MAX_ALARMS);
    assert forall i :: 0 <= i < |used| ==> r[i].id == ToByte(used[i].id);
  }

  lemma FreshSlot(c: Calendar, alarms: seq<Alarm>, i: nat)
    requires StartsFrom(c, alarms) && Unstarted(alarms) && i < MAX_ALARMS
    ensures !c.slots[i].started && (c.slots[i].used <==> i < |alarms|)
    ensures i < |alarms| ==> c.slots[i] == alarms[i] && Typed(alarms[i]) && alarms[i].id < c.nextId
  {
    if i < |alarms| {
      assert c.slots[..|alarms|][i] == c.slots[i];
    }
  }

  lemma {:induction false} FreshRecords(c: Calendar, alarms: seq<Alarm>)
    requires StartsFrom(c, alarms) && Unstarted(alarms)
    ensures CountUsed(c.slots, MAX_ALARMS) == |alarms|
    ensures Records(c.slots, MAX_ALARMS) == EncodeAll(alarms)
  {
    forall i | 0 <= i < MAX_ALARMS
      ensures c.slots[i].used <==> i < |alarms|
    {
      FreshSlot(c, alarms, i);
    }
    UsedPrefix(c.slots, |alarms|, MAX_ALARMS);
    RecordsAreUsed(c.slots, MAX_ALARMS);
  }

  // A calendar just made is tidy exactly when the alarms it was made from have distinct ids.
  lemma FreshIsTidy(c: Calendar, alarms: seq<Alarm>)
    requires StartsFrom(c, alarms) && Unstarted(alarms)
    ensures Tidy(c, |alarms|) <==> DistinctIds(alarms)
    ensures forall i :: 0 <= i < MAX_ALARMS ==> !c.slots[i].started && (c.slots[i].used <==> i < |alarms|)
  {
    FreshRecords(c, alarms);
    forall i | 0 <= i < MAX_ALARMS
      ensures !c.slots[i].started && (c.slots[i].used <==> i < |alarms|)
      ensures i < |alarms| ==> c.slots[i] == alarms[i] && Typed(alarms[i]) && alarms[i].id < c.nextId
    {
      FreshSlot(c, alarms, i);
    }
    if Tidy(c, |alarms|) {
      forall i, j | 0 <= i < j < |alarms|
        ensures alarms[i].id != alarms[j].id
      {
        assert c.slots[i].id != c.slots[j].id;
      }
    }
  }

  lemma QuietStart(c: Calendar, p: nat)
    requires Tidy(c, p) && c.log == [] && forall i :: 0 <= i < MAX_ALARMS ==> !c.slots[i].started
    ensures Steady(c, p)
  {
    TraceOfNothing();
  }

  lemma {:induction false} FreshIsSteady(c: Calendar, alarms: seq<Alarm>)
    requires StartsFrom(c, alarms) && Unstarted(alarms)
    ensures Steady(c, |alarms|) <==> DistinctIds(alarms)
    ensures UsedSlots(c) == Prefix(|alarms|)
  {
    FreshIsTidy(c, alarms);
    if DistinctIds(alarms) {
      QuietStart(c, |alarms|);
    }
  }

  // After a power cycle the first slots hold the alarms that were in use, each cut to its
  // bytes, and memory is again their image. The calendar is ready for the runs above exactly
  // when the ids stored were distinct modulo 256.
  lemma {:induction false} RestartExactly(c: Calendar, p: nat, restarted: Calendar, aux: Alarm)
    requires Tidy(c, p) && Saved(c)
    requires restarted.memory == c.memory
    requires var r := ReadImage(c.memory, ALARMS_DIR, aux); r.Read? && StartsFrom(restarted, r.alarms)
    ensures restarted.amount == c.amount && c.amount >= 0
    ensures Restored(restarted.slots[..c.amount], Used(c.slots, MAX_ALARMS))
    ensures UsedSlots(restarted) == Prefix(c.amount) && Saved(restarted)
    ensures Steady(restarted, c.amount) <==> DistinctBytes(Used(c.slots, MAX_ALARMS))
  {
    RestoredAlarms(c, p, aux);
    var alarms := ReadImage(c.memory, ALARMS_DIR, aux).alarms;
    FreshRecords(restarted, alarms);
    FreshIsSteady(restarted, alarms);
  }
}

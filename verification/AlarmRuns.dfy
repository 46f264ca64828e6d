// The alarm table over whole runs in which alarms are created, written, enabled, disabled
// and freed between service passes.
module AlarmRuns {
  import opened Alarms
  import opened Civil
  import opened MachineWords

  datatype Event =
    | Create(value: nat, handler: Handler, oneShot: bool, alarmType: AlarmType)
    | Write(id: nat, newValue: nat)
    | Enable(id: nat)
    | Disable(id: nat)
    | Free(id: nat)
    | Pass

  predicate EventOk(e: Event) {
    && (e.Create? ==> e.value < WORD && !e.alarmType.NotAllocated?)
    && (e.Write? ==> e.newValue < WORD)
  }

  // Whether the event sets or fires slot k.
  predicate Concerns(table: seq<Slot>, e: Event, now: nat, k: nat)
    requires k < |table|
  {
    match e
    case Create(value, _, _, alarmType) => !Refused(alarmType, value, now) && k == FirstFree(table, 0)
    case Pass => Due(table[k], now)
    case _ => k == e.id && !table[k].alarmType.NotAllocated?
  }

  function Changed(s: Slot, e: Event, now: nat): Slot {
    match e
    case Create(value, handler, oneShot, alarmType) => Allocated(s, value, handler, oneShot, alarmType, now)
    case Write(_, value) => Enabled(s.(value := value, nextTrigger := 0), now)
    case Enable(_) => Enabled(s, now)
    case Disable(_) => s.(isEnabled := false)
    case Free(_) => Freed(s)
    case Pass => Serve(s, now)
  }

  function Apply(table: seq<Slot>, e: Event, now: nat): (t: seq<Slot>)
    ensures |t| == |table|
    ensures forall k :: 0 <= k < |table| ==>
            t[k] == if Concerns(table, e, now, k) then Changed(table[k], e, now) else table[k]
  {
    seq(|table|, k requires 0 <= k < |table| =>
        if Concerns(table, e, now, k) then Changed(table[k], e, now) else table[k])
  }

  // Each event is one call of the class.
  method Perform(alarms: TimeAlarms, e: Event, now: nat)
    requires alarms.Valid() && !alarms.isServicing && EventOk(e)
    modifies alarms, alarms.slots
    ensures alarms.Valid() && !alarms.isServicing
    ensures alarms.slots[..] == Apply(old(alarms.slots[..]), e, now)
  {
    ghost var before := alarms.slots[..];
    match e {
      case Create(value, handler, oneShot, alarmType) =>
        var _ := alarms.Create(value, handler, oneShot, alarmType, now);
      case Write(id, value) => alarms.Write(id, value, now);
      case Enable(id) => alarms.Enable(id, now);
      case Disable(id) => alarms.Disable(id);
      case Free(id) => alarms.Free(id);
      case Pass => var _ := alarms.ServiceAlarms(now);
    }
    assert alarms.slots[..] == Apply(before, e, now);
  }

  // ----- What every run keeps -------------------------------------------------------------------

  predicate Repeats(s: Slot) {
    s.alarmType.DailyAlarm? || s.alarmType.WeeklyAlarm?
  }

  // The trigger of a daily or weekly alarm computed at `set`.
  function TriggerAt(s: Slot, computedAt: nat): int {
    s.value + (computedAt - Elapsed(s, computedAt)) + if s.value <= Elapsed(s, computedAt) then Period(s) else 0
  }

  // The trigger of a slot last set or fired at `since`, which for a daily or weekly alarm was
  // computed at `computedAt`. An enabled timer waits for its delay from `since` on; a disabled
  // daily or weekly alarm has a trigger that is past or still the one computed.
  ghost predicate Kept(s: Slot, since: nat, computedAt: nat) {
    && SlotOk(s) && computedAt <= since
    && (s.alarmType.Timer? && s.isEnabled ==> s.nextTrigger == Add32(since, s.value))
    && (s.alarmType.ExplicitAlarm? ==> s.nextTrigger == s.value || (s.nextTrigger == 0 && !s.isEnabled))
    && (Repeats(s) ==> SECS_PER_YEAR <= computedAt)
    && (Repeats(s) && computedAt + s.value < WORD ==>
          if s.isEnabled then since < s.nextTrigger == TriggerAt(s, computedAt)
          else s.nextTrigger <= since || s.nextTrigger == TriggerAt(s, computedAt))
  }

  lemma ComputedTrigger(s: Slot, now: nat)
    requires s.isEnabled && Repeats(s) && s.nextTrigger <= now && InRange(now) && now + s.value < WORD
    ensures now < UpdateNextTrigger(s, now).nextTrigger == TriggerAt(s, now)
  {
  }

  lemma DisabledKept(s: Slot, since: nat, computedAt: nat, now: nat)
    requires Kept(s, since, computedAt) && since <= now
    ensures Kept(s.(isEnabled := false), now, computedAt)
  {
  }

  lemma AlarmEnabled(s: Slot, computedAt: nat, now: nat)
    requires Kept(s, now, computedAt) && !s.isEnabled && now < WORD - SECS_PER_WEEK && Repeats(s) && s.handler.Some?
    ensures Kept(Enabled(s, now), now, if s.nextTrigger <= now then now else computedAt)
  {
    if s.nextTrigger <= now && now + s.value < WORD {
      ComputedTrigger(s.(isEnabled := true), now);
    }
  }

  // Enabling computes the trigger anew unless it is still to come.
  lemma EnabledKept(s: Slot, computedAt: nat, now: nat)
    requires Kept(s, now, computedAt) && !s.isEnabled && now < WORD - SECS_PER_WEEK
    ensures Kept(Enabled(s, now), now, if s.nextTrigger <= now then now else computedAt)
  {
    if Repeats(s) && s.handler.Some? {
      AlarmEnabled(s, computedAt, now);
    }
  }

  lemma ReEnabled(s: Slot, now: nat)
    requires !s.alarmType.NotAllocated?
    ensures Enabled(s, now) == Enabled(s.(isEnabled := false), now)
  {
  }

  lemma ServedKept(s: Slot, since: nat, computedAt: nat, now: nat)
    requires Kept(s, since, computedAt) && since <= now < WORD - SECS_PER_WEEK && Due(s, now)
    ensures Kept(Serve(s, now), now, now)
  {
    if Repeats(s) && now + s.value < WORD {
      ComputedTrigger(s, now);
    }
  }

  lemma WrittenKept(s: Slot, value: nat, since: nat, computedAt: nat, now: nat)
    requires Kept(s, since, computedAt) && since <= now < WORD - SECS_PER_WEEK && !s.alarmType.NotAllocated? &&
            value < WORD
    ensures Kept(Enabled(s.(value := value, nextTrigger := 0), now), now, now)
  {
    ReEnabled(s.(value := value, nextTrigger := 0), now);
    EnabledKept(s.(value := value, nextTrigger := 0, isEnabled := false), computedAt, now);
  }

  lemma CreatedKept(s: Slot, since: nat, computedAt: nat, e: Event, now: nat)
    requires Kept(s, since, computedAt) && since <= now < WORD - SECS_PER_WEEK && s.alarmType.NotAllocated?
    requires e.Create? && EventOk(e) && !Refused(e.alarmType, e.value, now)
    ensures Kept(Changed(s, e, now), now, now)
  {
    var s' := s.(handler := e.handler, isOneShot := e.oneShot, alarmType := e.alarmType, value := e.value);
    EnabledKept(s', now, now);
  }

  // The reading at which the trigger is computed, of the slot an event concerns.
  function Computed(s: Slot, e: Event, computedAt: nat, now: nat): nat {
    if e.Disable? || (e.Enable? && s.nextTrigger > now) then computedAt else now
  }

  lemma ChangedKept(table: seq<Slot>, e: Event, now: nat, k: nat, since: nat, computedAt: nat)
    requires k < |table| && Kept(table[k], since, computedAt) && since <= now < WORD - SECS_PER_WEEK && EventOk(e)
    requires Concerns(table, e, now, k)
    ensures Kept(Changed(table[k], e, now), now, Computed(table[k], e, computedAt, now))
  {
    var s := table[k];
    match e
    case Create(_, _, _, _) =>
      CreatedKept(s, since, computedAt, e, now);
    case Write(_, value) =>
      WrittenKept(s, value, since, computedAt, now);
    case Enable(_) =>
      DisabledKept(s, since, computedAt, now);
      ReEnabled(s, now);
      EnabledKept(s.(isEnabled := false), computedAt, now);
    case Disable(_) =>
      DisabledKept(s, since, computedAt, now);
    case Free(_) =>
    case Pass =>
      ServedKept(s, since, computedAt, now);
  }

  // ----- Runs -----------------------------------------------------------------------------------

  // An event and the clock reading it takes place at.
  datatype Timed = At(now: nat, event: Event)

  function TableAfter(run: seq<Timed>): (t: seq<Slot>)
    ensures |t| == NBR_ALARMS
  {
    if run == [] then seq(NBR_ALARMS, _ => EMPTY)
    else
      var last := run[|run| - 1];
      Apply(TableAfter(run[..|run| - 1]), last.event, last.now)
  }

  // The clock reading at which slot k was last set or fired.
  function Since(run: seq<Timed>, k: nat): nat
    requires k < NBR_ALARMS
  {
    if run == [] then 0
    else
      var init, last := run[..|run| - 1], run[|run| - 1];
      if Concerns(TableAfter(init), last.event, last.now, k) then last.now else Since(init, k)
  }

  // The clock reading at which its trigger was last computed.
  function SetAt(run: seq<Timed>, k: nat): nat
    requires k < NBR_ALARMS
  {
    if run == [] then 0
    else
      var init, last := run[..|run| - 1], run[|run| - 1];
      if Concerns(TableAfter(init), last.event, last.now, k)
      then Computed(TableAfter(init)[k], last.event, SetAt(init, k), last.now)
      else SetAt(init, k)
  }

  function Clock(run: seq<Timed>): nat {
    if run == [] then 0 else run[|run| - 1].now
  }

  // The clock does not go back, and stays a week away from the end of its 32 bits.
  ghost predicate Forward(run: seq<Timed>) {
    run == [] ||
    (var init, last := run[..|run| - 1], run[|run| - 1];
     Forward(init) && Clock(init) <= last.now < WORD - SECS_PER_WEEK && EventOk(last.event))
  }

  // In every run from the empty table every slot has the trigger it should have.
  lemma {:induction false} RunKept(run: seq<Timed>, k: nat)
    requires Forward(run) && k < NBR_ALARMS
    ensures Kept(TableAfter(run)[k], Since(run, k), SetAt(run, k)) && Since(run, k) <= Clock(run)
    ensures Since(run, k) < WORD - SECS_PER_WEEK
    decreases |run|
  {
    if run != [] {
      var init, last := run[..|run| - 1], run[|run| - 1];
      RunKept(init, k);
      if Concerns(TableAfter(init), last.event, last.now, k) {
        ChangedKept(TableAfter(init), last.event, last.now, k, Since(init, k), SetAt(init, k));
      }
    }
  }

  // ----- Firing ---------------------------------------------------------------------------------

  // What a slot is there for: its delay has passed, its instant has come, or an occurrence has.
  ghost predicate Wanted(s: Slot, since: nat, now: nat) {
    match s.alarmType
    case NotAllocated => false
    case Timer => now >= since + s.value
    case ExplicitAlarm => now >= s.value
    case _ => OccursWithin(s, since, now)
  }

  // The value of a daily or weekly alarm, which `write` may set to anything, is not more than
  // a period beyond the time of day or week then.
  predicate InReach(s: Slot, since: nat, computedAt: nat) {
    s.value <= Period(s) + Elapsed(s, computedAt) + since - computedAt
  }

  predicate Sensible(s: Slot, since: nat, computedAt: nat) {
    (s.alarmType.Timer? ==> since + s.value < WORD) && (Repeats(s) ==> InReach(s, since, computedAt))
  }

  // The trigger can be computed within 32 bits.
  predicate Computable(s: Slot, computedAt: nat) {
    Repeats(s) ==> computedAt + s.value < WORD
  }

  predicate SensibleSlot(run: seq<Timed>, k: nat)
    requires k < NBR_ALARMS
  {
    var s := TableAfter(run)[k];
    Sensible(s, Since(run, k), SetAt(run, k)) && Computable(s, SetAt(run, k))
  }

  // The trigger is the first occurrence exactly when the value is in reach; otherwise the one a
  // period before it is missed.
  lemma LeastInReach(s: Slot, since: nat, computedAt: nat)
    requires Repeats(s) && computedAt <= since < s.nextTrigger == TriggerAt(s, computedAt)
    ensures OccursAt(s, s.nextTrigger) && (LeastAfter(s, since, s.nextTrigger) <==> InReach(s, since, computedAt))
    ensures !InReach(s, since, computedAt) ==>
            since < s.nextTrigger - Period(s) && OccursAt(s, s.nextTrigger - Period(s))
  {
    var trigger := s.nextTrigger;
    OffsetOccurs(s, computedAt, trigger, if s.value <= Elapsed(s, computedAt) then 1 else 0);
    if InReach(s, since, computedAt) {
      forall u | since < u < trigger
        ensures !OccursAt(s, u)
      {
        if OccursAt(s, u) {
          OccurrencesApart(s, u, trigger);
        }
      }
    } else {
      OffsetOccurs(s, computedAt, trigger - Period(s), -1);
    }
  }

  // A pass behind any run fires a slot exactly when it is enabled and what it waits for has
  // come since it was last set or fired.
  lemma {:induction false} RunFiresExactly(run: seq<Timed>, now: nat, k: nat)
    requires Forward(run) && Clock(run) <= now && k < NBR_ALARMS
    requires SensibleSlot(run, k)
    ensures var s := TableAfter(run)[k]; Due(s, now) <==> s.isEnabled && Wanted(s, Since(run, k), now)
  {
    RunKept(run, k);
    var s := TableAfter(run)[k];
    if s.isEnabled && Repeats(s) {
      LeastInReach(s, Since(run, k), SetAt(run, k));
    }
  }

  // The slot is fired when it should be, at whatever reading a pass comes.
  ghost predicate FiresRight(s: Slot, since: nat) {
    forall now: nat :: now >= since ==> (Due(s, now) <==> Wanted(s, since, now))
  }

  lemma AlarmFiresRight(s: Slot, since: nat, computedAt: nat)
    requires Repeats(s) && s.isEnabled && computedAt <= since < s.nextTrigger == TriggerAt(s, computedAt)
    ensures FiresRight(s, since) <==> InReach(s, since, computedAt)
  {
    LeastInReach(s, since, computedAt);
    if !InReach(s, since, computedAt) {
      var missed := s.nextTrigger - Period(s);
      assert Wanted(s, since, missed) && !Due(s, missed);
    }
  }

  lemma TimerFiresRight(s: Slot, since: nat)
    requires s.alarmType.Timer? && s.isEnabled && s.nextTrigger == Add32(since, s.value) && since < WORD &&
            s.value < WORD
    ensures FiresRight(s, since) <==> since + s.value < WORD
  {
    if since + s.value >= WORD {
      assert s.nextTrigger == since + s.value - WORD;
      assert Due(s, since) && !Wanted(s, since, since);
    }
  }

  // The condition cannot be spared: an enabled slot is fired when it should be exactly when its
  // value is sensible.
  lemma {:induction false} SensibleExactly(run: seq<Timed>, k: nat)
    requires Forward(run) && k < NBR_ALARMS && TableAfter(run)[k].isEnabled &&
            Computable(TableAfter(run)[k], SetAt(run, k))
    ensures FiresRight(TableAfter(run)[k], Since(run, k))
            <==> Sensible(TableAfter(run)[k], Since(run, k), SetAt(run, k))
  {
    RunKept(run, k);
    var s := TableAfter(run)[k];
    if Repeats(s) {
      AlarmFiresRight(s, Since(run, k), SetAt(run, k));
    } else if s.alarmType.Timer? {
      TimerFiresRight(s, Since(run, k));
    }
  }

  // So every enabled daily or weekly alarm is armed since it was last set or fired, and the
  // handlers a pass calls are those of the slots that should be fired.
  lemma {:induction false} RunStaysArmed(run: seq<Timed>, k: nat)
    requires Forward(run) && k < NBR_ALARMS
    ensures var s := TableAfter(run)[k];
            s.isEnabled && Repeats(s) && s.value <= Period(s) ==> Armed(s, Since(run, k))
  {
    RunKept(run, k);
    var s := TableAfter(run)[k];
    if s.isEnabled && Repeats(s) && s.value <= Period(s) {
      LeastInReach(s, Since(run, k), SetAt(run, k));
    }
  }

  lemma {:induction false} RunCalls(run: seq<Timed>, now: nat, x: nat)
    requires Forward(run) && Clock(run) <= now
    requires forall k :: 0 <= k < NBR_ALARMS ==> SensibleSlot(run, k)
    ensures x in Fired(TableAfter(run), now, NBR_ALARMS) <==>
            exists k :: 0 <= k < NBR_ALARMS && TableAfter(run)[k].isEnabled && TableAfter(run)[k].handler == Some(x)
                        && Wanted(TableAfter(run)[k], Since(run, k), now)
  {
    FiredIsDue(TableAfter(run), now, NBR_ALARMS, x);
    forall k | 0 <= k < NBR_ALARMS
      ensures var s := TableAfter(run)[k]; Due(s, now) <==> s.isEnabled && Wanted(s, Since(run, k), now)
    {
      RunFiresExactly(run, now, k);
    }
  }

  // Over every run, whatever happens to the other slots: a timer fires in the first pass at
  // which its delay has passed since it was last set or fired. A repeating one then waits for
  // its delay again, a one-shot one leaves its slot free.
  lemma {:induction false} TimerDelay(run: seq<Timed>, now: nat, k: nat)
    requires Forward(run) && Clock(run) <= now < WORD - SECS_PER_WEEK && k < NBR_ALARMS
    requires var s := TableAfter(run)[k]; s.alarmType.Timer? && s.isEnabled && Since(run, k) + s.value < WORD
    ensures var s, after := TableAfter(run)[k], run + [At(now, Pass)];
            && (Due(s, now) <==> now - Since(run, k) >= s.value)
            && Since(after, k) == (if Due(s, now) then now else Since(run, k))
            && (!Due(s, now) ==> TableAfter(after)[k] == s)
            && (Due(s, now) && !s.isOneShot ==> TableAfter(after)[k] == s.(nextTrigger := Add32(now, s.value)))
            && (Due(s, now) && s.isOneShot ==> TableAfter(after)[k].alarmType.NotAllocated?)
  {
    RunFiresExactly(run, now, k);
    assert (run + [At(now, Pass)])[..|run|] == run;
  }

  // ----- What keeps a slot enabled --------------------------------------------------------------

  // A new slot is enabled exactly when it has a handler, and carries what was asked for; a timer
  // waits for its delay from the moment it is made.
  lemma CreatedEnabled(s: Slot, value: nat, handler: Handler, oneShot: bool, alarmType: AlarmType, now: nat)
    requires SlotOk(s) && s.alarmType.NotAllocated? && !alarmType.NotAllocated? && value < WORD
    requires !Refused(alarmType, value, now)
    ensures var r := Allocated(s, value, handler, oneShot, alarmType, now);
            && (r.isEnabled <==> handler.Some?)
            && r.handler == handler && r.value == value && r.alarmType == alarmType && r.isOneShot == oneShot
            && (alarmType.Timer? && handler.Some? ==> r.nextTrigger == Add32(now, value))
            && (alarmType.ExplicitAlarm? && handler.Some? ==> r.nextTrigger == value)
  {
  }

  // Creating is refused exactly for a timer or a date of zero, and for an alarm while the clock
  // reads less than 52 weeks.
  lemma RefusedExactly(alarmType: AlarmType, value: nat, now: nat)
    ensures Refused(alarmType, value, now) <==>
            match alarmType
            case NotAllocated => false
            case Timer => value == 0
            case ExplicitAlarm => value == 0 || now < 31449600
            case _ => now < 31449600
  {
  }

  // A slot freed holds nothing any more.
  lemma FreedIsEmpty(s: Slot)
    requires SlotOk(s) && !s.alarmType.NotAllocated?
    ensures Freed(s) == Slot(None, 0, 0, NotAllocated, false, s.isOneShot)
  {
  }

  // There are twelve slots; as long as one of them is free, a create that is not refused takes the
  // first, and otherwise it changes nothing.
  lemma {:induction false} TwelveSlots(run: seq<Timed>, e: Event, now: nat, k: nat)
    requires e.Create? && k < 12
    ensures |TableAfter(run)| == 12
    ensures var t := TableAfter(run);
            Concerns(t, e, now, k) <==>
            && !Refused(e.alarmType, e.value, now) && t[k].alarmType.NotAllocated?
            && forall j :: 0 <= j < k ==> !t[j].alarmType.NotAllocated?
  {
  }

  // A timer or a date of zero is never enabled; a time of day may be zero.
  predicate Counts(s: Slot) {
    s.alarmType.Timer? || s.alarmType.ExplicitAlarm? ==> s.value != 0
  }

  // The last event that set or fired slot k disabled it.
  predicate SwitchedOff(run: seq<Timed>, k: nat)
    requires k < NBR_ALARMS
  {
    run != [] &&
    var init, last := run[..|run| - 1], run[|run| - 1];
    if Concerns(TableAfter(init), last.event, last.now, k) then last.event.Disable? else SwitchedOff(init, k)
  }

  lemma EnabledWhen(s: Slot, now: nat)
    requires !s.alarmType.NotAllocated?
    ensures var r := Enabled(s, now);
            && (r.isEnabled <==> s.handler.Some? && Counts(s))
            && r.handler == s.handler && r.value == s.value && r.alarmType == s.alarmType && r.isOneShot == s.isOneShot
  {
  }

  // Writing gives the slot its new value, and enables it again exactly if that counts and there is
  // a handler; a timer waits for the new delay from then on.
  lemma WrittenEnabled(s: Slot, id: nat, value: nat, now: nat)
    requires !s.alarmType.NotAllocated?
    ensures var r := Changed(s, Write(id, value), now);
            && r.value == value && (r.isEnabled <==> s.handler.Some? && Counts(r))
            && (s.alarmType.Timer? && r.isEnabled ==> r.nextTrigger == Add32(now, value))
            && r.handler == s.handler && r.alarmType == s.alarmType && r.isOneShot == s.isOneShot
  {
    EnabledWhen(s.(value := value, nextTrigger := 0), now);
  }

  lemma ChangedEnabled(table: seq<Slot>, e: Event, now: nat, k: nat)
    requires k < |table| && Concerns(table, e, now, k) && EventOk(e) && SlotOk(table[k])
    requires e.Pass? ==> Counts(table[k])
    ensures var s := Changed(table[k], e, now);
            s.isEnabled <==> !s.alarmType.NotAllocated? && s.handler.Some? && Counts(s) && !e.Disable?
  {
    var s := table[k];
    match e
    case Create(value, handler, oneShot, alarmType) =>
      EnabledWhen(s.(handler := handler, isOneShot := oneShot, alarmType := alarmType, value := value), now);
    case Write(_, value) =>
      EnabledWhen(s.(value := value, nextTrigger := 0), now);
    case Enable(_) =>
      EnabledWhen(s, now);
    case _ =>
  }

  // After every run a slot is enabled exactly when it is allocated, has a handler and a value that
  // counts, and was not disabled by the last event that concerned it.
  lemma {:induction false} EnabledExactly(run: seq<Timed>, k: nat)
    requires Forward(run) && k < NBR_ALARMS
    ensures var s := TableAfter(run)[k];
            s.isEnabled <==> !s.alarmType.NotAllocated? && s.handler.Some? && Counts(s) && !SwitchedOff(run, k)
    decreases |run|
  {
    if run != [] {
      var init, last := run[..|run| - 1], run[|run| - 1];
      EnabledExactly(init, k);
      RunKept(init, k);
      if Concerns(TableAfter(init), last.event, last.now, k) {
        ChangedEnabled(TableAfter(init), last.event, last.now, k);
      }
    }
  }

  // ----- A timer from its creation on -----------------------------------------------------------

  // No event of the run names this slot.
  predicate Untouched(run: seq<Timed>, k: nat) {
    forall i :: 0 <= i < |run| ==>
      match run[i].event
      case Create(_, _, _, _) => true
      case Pass => true
      case e => e.id != k
  }

  // Slot k holds the repeating or one-shot timer asked for.
  predicate HoldsTimer(s: Slot, value: nat, x: nat, oneShot: bool) {
    s.isEnabled && s.alarmType.Timer? && s.value == value && s.handler == Some(x) && s.isOneShot == oneShot
  }

  // The run before, the creation of the timer, and what comes after.
  function WithTimer(before: seq<Timed>, t0: nat, value: nat, x: nat, oneShot: bool, after: seq<Timed>): seq<Timed> {
    before + [At(t0, Create(value, Some(x), oneShot, Timer))] + after
  }

  lemma {:induction false} TimerCreated(before: seq<Timed>, t0: nat, value: nat, x: nat, oneShot: bool)
    requires var run := WithTimer(before, t0, value, x, oneShot, []); Forward(run)
    requires value > 0 && t0 + value < WORD && FirstFree(TableAfter(before), 0) < NBR_ALARMS
    ensures var run, k := WithTimer(before, t0, value, x, oneShot, []), FirstFree(TableAfter(before), 0);
            HoldsTimer(TableAfter(run)[k], value, x, oneShot) && Since(run, k) == t0
  {
    var run, k := WithTimer(before, t0, value, x, oneShot, []), FirstFree(TableAfter(before), 0);
    var e := Create(value, Some(x), oneShot, Timer);
    assert run[..|run| - 1] == before && run[|run| - 1] == At(t0, e);
    RunKept(before, k);
    CreatedEnabled(TableAfter(before)[k], value, Some(x), oneShot, Timer, t0);
    assert Concerns(TableAfter(before), e, t0, k);
  }

  // A repeating timer stays what it is through every run that does not name its slot.
  lemma {:induction false} TimerStays(before: seq<Timed>, t0: nat, value: nat, x: nat, after: seq<Timed>)
    requires var run := WithTimer(before, t0, value, x, false, after); Forward(run)
    requires value > 0 && t0 + value < WORD && FirstFree(TableAfter(before), 0) < NBR_ALARMS
    requires Untouched(after, FirstFree(TableAfter(before), 0))
    ensures var run, k := WithTimer(before, t0, value, x, false, after), FirstFree(TableAfter(before), 0);
            HoldsTimer(TableAfter(run)[k], value, x, false) && t0 <= Since(run, k)
    decreases |after|
  {
    if after == [] {
      TimerCreated(before, t0, value, x, false);
    } else {
      var init, last, k := after[..|after| - 1], after[|after| - 1], FirstFree(TableAfter(before), 0);
      var run := WithTimer(before, t0, value, x, false, after);
      assert run[..|run| - 1] == WithTimer(before, t0, value, x, false, init) && run[|run| - 1] == last;
      TimerStays(before, t0, value, x, init);
      RunKept(WithTimer(before, t0, value, x, false, init), k);
    }
  }

  // A repeating timer made anywhere in a run: as long as its slot is not named, a pass calls its
  // handler if its delay has passed since it was made or last fired, and does not fire it sooner.
  lemma {:induction false} TimerIsCalled(before: seq<Timed>, t0: nat, value: nat, x: nat, after: seq<Timed>, now: nat)
    requires var run := WithTimer(before, t0, value, x, false, after); Forward(run) && Clock(run) <= now
    requires value > 0 && FirstFree(TableAfter(before), 0) < NBR_ALARMS
    requires Untouched(after, FirstFree(TableAfter(before), 0))
    requires var run, k := WithTimer(before, t0, value, x, false, after), FirstFree(TableAfter(before), 0);
             t0 + value < WORD && Since(run, k) + value < WORD
    ensures var run, k := WithTimer(before, t0, value, x, false, after), FirstFree(TableAfter(before), 0);
            && (Due(TableAfter(run)[k], now) <==> now - Since(run, k) >= value)
            && (now - Since(run, k) >= value ==> x in Fired(TableAfter(run), now, NBR_ALARMS))
  {
    var run, k := WithTimer(before, t0, value, x, false, after), FirstFree(TableAfter(before), 0);
    TimerStays(before, t0, value, x, after);
    RunFiresExactly(run, now, k);
    FiredIsDue(TableAfter(run), now, NBR_ALARMS, x);
  }

  // No pass of the run comes at or after this reading.
  predicate PassesBefore(run: seq<Timed>, limit: nat) {
    forall i :: 0 <= i < |run| && run[i].event.Pass? ==> run[i].now < limit
  }

  lemma {:induction false} OneShotStays(before: seq<Timed>, t0: nat, value: nat, x: nat, after: seq<Timed>)
    requires var run := WithTimer(before, t0, value, x, true, after); Forward(run)
    requires value > 0 && t0 + value < WORD && FirstFree(TableAfter(before), 0) < NBR_ALARMS
    requires Untouched(after, FirstFree(TableAfter(before), 0)) && PassesBefore(after, t0 + value)
    ensures var run, k := WithTimer(before, t0, value, x, true, after), FirstFree(TableAfter(before), 0);
            HoldsTimer(TableAfter(run)[k], value, x, true) && Since(run, k) == t0
    decreases |after|
  {
    if after == [] {
      TimerCreated(before, t0, value, x, true);
    } else {
      var init, last, k := after[..|after| - 1], after[|after| - 1], FirstFree(TableAfter(before), 0);
      var run, prefix := WithTimer(before, t0, value, x, true, after), WithTimer(before, t0, value, x, true, init);
      assert run[..|run| - 1] == prefix && run[|run| - 1] == last;
      OneShotStays(before, t0, value, x, init);
      RunKept(prefix, k);
    }
  }

  // A one-shot timer made anywhere in a run: the first pass to come once its delay has passed calls
  // its handler and frees its slot, and none before fires it.
  lemma {:induction false} OneShotIsCalled(before: seq<Timed>, t0: nat, value: nat, x: nat, after: seq<Timed>, now: nat)
    requires var run := WithTimer(before, t0, value, x, true, after); Forward(run) && Clock(run) <= now
    requires value > 0 && t0 + value < WORD && FirstFree(TableAfter(before), 0) < NBR_ALARMS
    requires Untouched(after, FirstFree(TableAfter(before), 0)) && PassesBefore(after, t0 + value)
    ensures var run, k := WithTimer(before, t0, value, x, true, after), FirstFree(TableAfter(before), 0);
            && (Due(TableAfter(run)[k], now) <==> now - t0 >= value)
            && (now - t0 >= value ==> x in Fired(TableAfter(run), now, NBR_ALARMS)
                                      && Serve(TableAfter(run)[k], now).alarmType.NotAllocated?)
  {
    var run, k := WithTimer(before, t0, value, x, true, after), FirstFree(TableAfter(before), 0);
    OneShotStays(before, t0, value, x, after);
    RunFiresExactly(run, now, k);
    FiredIsDue(TableAfter(run), now, NBR_ALARMS, x);
  }
}

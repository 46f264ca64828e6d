// The software clock: seconds counted off a 32-bit millisecond timer that wraps around.
module SystemClock {
  import opened Civil
  import opened MachineWords

  const PER_SECOND := 1000

  datatype Status = NotSet | NeedsSync | Set

  datatype Clock = Clock(sysTime: nat, prevMillis: nat, nextSyncTime: nat, syncInterval: nat, status: Status)

  predicate Words(c: Clock) {
    c.sysTime < WORD && c.prevMillis < WORD && c.nextSyncTime < WORD && c.syncInterval < WORD
  }

  // 32-bit unsigned subtraction.
  function Sub32(a: nat, b: nat): (r: nat)
    requires a < WORD && b < WORD
    ensures r < WORD
  {
    if a >= b then a - b else a + WORD - b
  }

  // The loop of now(): whole seconds move from the timer to the clock.
  function CatchUp(c: Clock, millis: nat): (r: Clock)
    requires Words(c) && millis < WORD
    ensures Words(r)
    decreases Sub32(millis, c.prevMillis)
  {
    if Sub32(millis, c.prevMillis) < PER_SECOND then c
    else CatchUp(c.(sysTime := Add32(c.sysTime, 1), prevMillis := Add32(c.prevMillis, PER_SECOND)), millis)
  }

  function ClockSet(c: Clock, t: nat, millis: nat): Clock {
    c.(sysTime := Word32(t), nextSyncTime := Add32(t, c.syncInterval), status := Set, prevMillis := millis)
  }

  datatype Provider = NoProvider | Answers(time: nat)

  function ClockNow(c: Clock, millis: nat, provider: Provider): Clock
    requires Words(c) && millis < WORD
  {
    var c := CatchUp(c, millis);
    if c.nextSyncTime > c.sysTime || provider.NoProvider? then c
    else if provider.time != 0 then ClockSet(c, provider.time, millis)
    else c.(nextSyncTime := Add32(c.sysTime, c.syncInterval),
            status := if c.status == NotSet then NotSet else NeedsSync)
  }

  class SystemTime {
    var sysTime: nat
    var prevMillis: nat
    var nextSyncTime: nat
    var syncInterval: nat
    var status: Status

    ghost function Abs(): Clock
      reads this
    {
      Clock(sysTime, prevMillis, nextSyncTime, syncInterval, status)
    }

    ghost predicate Valid()
      reads this
    {
      Words(Abs())
    }

    constructor ()
      ensures Valid() && Abs() == Clock(0, 0, 0, 300, NotSet)
    {
      sysTime, prevMillis, nextSyncTime, syncInterval, status := 0, 0, 0, 300, NotSet;
    }

    method SetTime(t: nat, millis: nat)
      requires Valid() && millis < WORD
      modifies this
      ensures Valid() && Abs() == ClockSet(old(Abs()), t, millis)
    {
      sysTime := Word32(t);
      nextSyncTime := Add32(t, syncInterval);
      status := Set;
      prevMillis := millis;
    }

    // `millis` is the timer during the whole call, `provider` what a registered time source
    // answers if asked.
    method Now(millis: nat, provider: Provider) returns (time: nat)
      requires Valid() && millis < WORD && (provider.Answers? ==> provider.time < WORD)
      modifies this
      ensures Valid() && Abs() == ClockNow(old(Abs()), millis, provider)
      ensures time == sysTime
    {
      while Sub32(millis, prevMillis) >= PER_SECOND
        invariant Valid() && CatchUp(Abs(), millis) == CatchUp(old(Abs()), millis)
        decreases Sub32(millis, prevMillis)
      {
        sysTime := Add32(sysTime, 1);
        prevMillis := Add32(prevMillis, PER_SECOND);
      }
      if nextSyncTime <= sysTime {
        match provider
        case NoProvider =>
        case Answers(t) =>
          if t != 0 {
            this.SetTime(t, millis);
          } else {
            nextSyncTime := Add32(sysTime, syncInterval);
            status := if status == NotSet then NotSet else NeedsSync;
          }
      }
      time := sysTime;
    }
  }

  // ----- No drift ------------------------------------------------------------------------

  lemma Add32Twice(a: nat, i: nat, j: nat)
    ensures Add32(Add32(a, i), j) == Add32(a, i + j)
  {
    Add32Mod(a + i, j);
  }

  function Advanced(c: Clock, seconds: nat): Clock {
    c.(sysTime := Add32(c.sysTime, seconds), prevMillis := Add32(c.prevMillis, seconds * PER_SECOND))
  }

  lemma AdvancedTwice(c: Clock, n: nat)
    ensures Advanced(Advanced(c, 1), n) == Advanced(c, n + 1)
  {
    Add32Twice(c.sysTime, 1, n);
    Add32Twice(c.prevMillis, PER_SECOND, n * PER_SECOND);
  }

  lemma OneSecondTaken(millis: nat, prevMillis: nat)
    requires millis < WORD && prevMillis < WORD && Sub32(millis, prevMillis) >= PER_SECOND
    ensures Sub32(millis, Add32(prevMillis, PER_SECOND)) == Sub32(millis, prevMillis) - PER_SECOND
  {
  }

  lemma {:induction false} CatchUpBy(c: Clock, millis: nat, n: nat)
    requires Words(c) && millis < WORD
    requires n * PER_SECOND <= Sub32(millis, c.prevMillis) < (n + 1) * PER_SECOND
    ensures CatchUp(c, millis) == Advanced(c, n)
    decreases n
  {
    if n > 0 {
      OneSecondTaken(millis, c.prevMillis);
      CatchUpBy(Advanced(c, 1), millis, n - 1);
      AdvancedTwice(c, n - 1);
    }
  }

  // One call takes over every whole second the timer can still show.
  lemma {:induction false} CatchUpCounts(c: Clock, millis: nat)
    requires Words(c) && millis < WORD
    ensures CatchUp(c, millis) == Advanced(c, Sub32(millis, c.prevMillis) / PER_SECOND)
  {
    CatchUpBy(c, millis, Sub32(millis, c.prevMillis) / PER_SECOND);
  }

  // The clock is right, `elapsed` milliseconds after it was set to t0 with the timer at m0.
  ghost predicate OnTime(c: Clock, t0: nat, m0: nat, elapsed: nat) {
    && Words(c)
    && c.sysTime == Add32(t0, elapsed / PER_SECOND)
    && c.prevMillis == Add32(m0, elapsed / PER_SECOND * PER_SECOND)
  }

  lemma WholeSeconds(elapsed: nat, d: nat)
    ensures var q, pending := elapsed / PER_SECOND, elapsed % PER_SECOND + d;
            elapsed + d == q * PER_SECOND + pending && (elapsed + d) / PER_SECOND == q + pending / PER_SECOND
  {
  }

  lemma AdvancedOnTime(c: Clock, t0: nat, m0: nat, q: nat, n: nat)
    requires c.sysTime == Add32(t0, q) && c.prevMillis == Add32(m0, q * PER_SECOND)
    ensures Advanced(c, n).sysTime == Add32(t0, q + n) && Advanced(c, n).prevMillis == Add32(m0, (q + n) * PER_SECOND)
  {
    Add32Twice(t0, q, n);
    Add32Twice(m0, q * PER_SECOND, n * PER_SECOND);
  }

  // A call with so much pending takes over the whole seconds that the timer shows of it.
  lemma CallShows(c: Clock, t0: nat, m0: nat, q: nat, pending: nat)
    requires Words(c) && c.sysTime == Add32(t0, q) && c.prevMillis == Add32(m0, q * PER_SECOND)
    ensures var r, n := ClockNow(c, Add32(m0, q * PER_SECOND + pending), NoProvider), pending % WORD / PER_SECOND;
            Words(r) && r.sysTime == Add32(t0, q + n) && r.prevMillis == Add32(m0, (q + n) * PER_SECOND)
  {
    ShownByTimer(m0, q * PER_SECOND, pending);
    CatchUpCounts(c, Add32(m0, q * PER_SECOND + pending));
    AdvancedOnTime(c, t0, m0, q, pending % WORD / PER_SECOND);
  }

  lemma ShownByTimer(m: nat, a: nat, pending: nat)
    ensures Sub32(Add32(m, a + pending), Add32(m, a)) == pending % WORD
  {
    Add32Twice(m, a, pending);
  }

  // One call, d milliseconds after the previous one: the clock stays right, however often
  // the timer has wrapped around before, if what is pending fits the timer.
  lemma NowIsOnTime(c: Clock, t0: nat, m0: nat, elapsed: nat, d: nat)
    requires OnTime(c, t0, m0, elapsed)
    requires elapsed % PER_SECOND + d < WORD
    ensures OnTime(ClockNow(c, Add32(m0, elapsed + d), NoProvider), t0, m0, elapsed + d)
  {
    WholeSeconds(elapsed, d);
    CallShowsAll(c, t0, m0, elapsed / PER_SECOND, elapsed % PER_SECOND + d, elapsed + d);
  }

  lemma CallShowsAll(c: Clock, t0: nat, m0: nat, q: nat, pending: nat, elapsed: nat)
    requires Words(c) && c.sysTime == Add32(t0, q) && c.prevMillis == Add32(m0, q * PER_SECOND) && pending < WORD
    requires elapsed == q * PER_SECOND + pending && elapsed / PER_SECOND == q + pending / PER_SECOND
    ensures OnTime(ClockNow(c, Add32(m0, elapsed), NoProvider), t0, m0, elapsed)
  {
    CallShows(c, t0, m0, q, pending);
    assert pending % WORD == pending;
  }

  function Total(gaps: seq<nat>): nat {
    if gaps == [] then 0 else Total(gaps[..|gaps| - 1]) + gaps[|gaps| - 1]
  }

  // The clock after calls of now() with these gaps between them.
  function RunClock(c: Clock, m0: nat, gaps: seq<nat>): (r: Clock)
    requires Words(c)
    ensures Words(r)
  {
    if gaps == [] then c
    else ClockNow(RunClock(c, m0, gaps[..|gaps| - 1]), Add32(m0, Total(gaps)), NoProvider)
  }

  // Runs of any length: set the clock, then call now() at gaps of less than 2^32 - 1000 ms.
  // After every call it has advanced by exactly the whole seconds elapsed since it was set.
  lemma {:induction false} NoDrift(c0: Clock, t0: nat, m0: nat, gaps: seq<nat>)
    requires Words(c0) && t0 < WORD && m0 < WORD
    requires forall i :: 0 <= i < |gaps| ==> gaps[i] < WORD - PER_SECOND
    ensures OnTime(RunClock(ClockSet(c0, t0, m0), m0, gaps), t0, m0, Total(gaps))
    decreases |gaps|
  {
    if gaps != [] {
      var init := gaps[..|gaps| - 1];
      NoDrift(c0, t0, m0, init);
      NowIsOnTime(RunClock(ClockSet(c0, t0, m0), m0, init), t0, m0, Total(init), gaps[|gaps| - 1]);
    }
  }

  // The limit is sharp: a call that comes later than the timer can show loses a whole turn
  // of it, so within 2^32 s the clock is right after the call exactly when it came in time.
  lemma LateCallDrifts(c: Clock, t0: nat, m0: nat, elapsed: nat, d: nat)
    requires OnTime(c, t0, m0, elapsed)
    requires elapsed % PER_SECOND + d < WORD * PER_SECOND
    ensures OnTime(ClockNow(c, Add32(m0, elapsed + d), NoProvider), t0, m0, elapsed + d)
       <==> elapsed % PER_SECOND + d < WORD
  {
    var q, pending := elapsed / PER_SECOND, elapsed % PER_SECOND + d;
    if pending < WORD {
      NowIsOnTime(c, t0, m0, elapsed, d);
    } else {
      WholeSeconds(elapsed, d);
      CallShows(c, t0, m0, q, pending);
      TurnLost(pending);
      DifferentSums(t0, q + pending % WORD / PER_SECOND, q + pending / PER_SECOND);
    }
  }

  lemma TurnLost(pending: nat)
    requires WORD <= pending < WORD * PER_SECOND
    ensures pending % WORD / PER_SECOND < pending / PER_SECOND < pending % WORD / PER_SECOND + WORD
  {
  }

  lemma DifferentSums(t: nat, a: nat, b: nat)
    requires a < b < a + WORD
    ensures Add32(t, a) != Add32(t, b)
  {
    Add32Twice(t, a, b - a);
  }

  // ----- Synchronised clocks ----------------------------------------------------------------------

  // One call in closed form: the whole seconds pending, then the time source if the clock has
  // reached the time of the next synchronisation. An answer sets the clock, no answer puts the
  // next attempt off by the interval, and makes a clock that has been set need synchronisation.
  lemma CallOfNow(c: Clock, millis: nat, provider: Provider)
    requires Words(c) && millis < WORD && (provider.Answers? ==> provider.time < WORD)
    ensures var r, n := ClockNow(c, millis, provider), Sub32(millis, c.prevMillis) / 1000;
            var shown := Add32(c.sysTime, n);
            && r.syncInterval == c.syncInterval
            && if provider.NoProvider? || shown < c.nextSyncTime then
                 r.sysTime == shown && r.prevMillis == Add32(c.prevMillis, 1000 * n)
                 && r.nextSyncTime == c.nextSyncTime && r.status == c.status
               else if provider.time != 0 then
                 r.sysTime == provider.time && r.prevMillis == millis
                 && r.nextSyncTime == Add32(provider.time, c.syncInterval) && r.status == Set
               else
                 r.sysTime == shown && r.prevMillis == Add32(c.prevMillis, 1000 * n)
                 && r.nextSyncTime == Add32(shown, c.syncInterval)
                 && r.status == if c.status == NotSet then NotSet else NeedsSync
  {
    CatchUpCounts(c, millis);
  }

  // A call of now(), so many milliseconds after the one before.
  datatype Call = Call(gap: nat, provider: Provider)

  function Elapsed(calls: seq<Call>): nat {
    if calls == [] then 0 else Elapsed(calls[..|calls| - 1]) + calls[|calls| - 1].gap
  }

  // A time source that answers with the true time or not at all.
  predicate Honest(calls: seq<Call>, t0: nat) {
    calls == [] ||
    (var init, provider := calls[..|calls| - 1], calls[|calls| - 1].provider;
     && Honest(init, t0)
     && (provider.Answers? ==> provider.time == 0 || provider.time == t0 + Elapsed(calls) / PER_SECOND))
  }

  predicate Answered(calls: seq<Call>) {
    forall i :: 0 <= i < |calls| && calls[i].provider.Answers? ==> calls[i].provider.time < WORD
  }

  predicate Prompt(calls: seq<Call>) {
    forall i :: 0 <= i < |calls| ==> calls[i].gap < WORD - PER_SECOND
  }

  function Synced(c: Clock, m0: nat, calls: seq<Call>): (r: Clock)
    requires Words(c) && Answered(calls)
    ensures Words(r)
  {
    if calls == [] then c
    else ClockNow(Synced(c, m0, calls[..|calls| - 1]), Add32(m0, Elapsed(calls)), calls[|calls| - 1].provider)
  }

  // The clock counts right since `base` milliseconds, when it was last set.
  ghost predicate RightSince(c: Clock, t0: nat, m0: nat, base: nat, elapsed: nat) {
    base <= elapsed && OnTime(c, t0 + base / PER_SECOND, Add32(m0, base), elapsed - base)
  }

  lemma RebasedTimer(m0: nat, base: nat, elapsed: nat)
    requires base <= elapsed
    ensures Add32(Add32(m0, base), elapsed - base) == Add32(m0, elapsed)
  {
    Add32Twice(m0, base, elapsed - base);
  }

  lemma SameTime(c: Clock, r: Clock, t0: nat, m0: nat, base: nat, elapsed: nat)
    requires RightSince(c, t0, m0, base, elapsed) && Words(r) && r.sysTime == c.sysTime && r.prevMillis == c.prevMillis
    ensures RightSince(r, t0, m0, base, elapsed)
  {
  }

  lemma {:induction false} CountedCall(c: Clock, t0: nat, m0: nat, base: nat, elapsed: nat, d: nat, total: nat)
    requires RightSince(c, t0, m0, base, elapsed) && d < WORD - PER_SECOND && total == elapsed + d
    ensures RightSince(CatchUp(c, Add32(m0, total)), t0, m0, base, total)
  {
    RebasedTimer(m0, base, total);
    NowIsOnTime(c, t0 + base / PER_SECOND, Add32(m0, base), elapsed - base, d);
    assert elapsed - base + d == total - base;
  }

  lemma SetCall(c: Clock, t0: nat, m0: nat, elapsed: nat)
    requires Words(c) && t0 + elapsed / PER_SECOND < WORD
    ensures RightSince(ClockSet(c, t0 + elapsed / PER_SECOND, Add32(m0, elapsed)), t0, m0, elapsed, elapsed)
  {
  }

  // Without an answer the clock shows what it has counted.
  lemma {:induction false} KeepsCounted(c: Clock, millis: nat, provider: Provider)
    requires Words(c) && millis < WORD
    requires var counted := CatchUp(c, millis);
             !(counted.nextSyncTime <= counted.sysTime && provider.Answers? && provider.time != 0)
    ensures var r, counted := ClockNow(c, millis, provider), CatchUp(c, millis);
            Words(r) && r.sysTime == counted.sysTime && r.prevMillis == counted.prevMillis
  {
  }

  lemma SyncedCall(c: Clock, t0: nat, m0: nat, base: nat, elapsed: nat, d: nat, provider: Provider, r: Clock,
                   total: nat)
    returns (base': nat)
    requires RightSince(c, t0, m0, base, elapsed) && d < WORD - PER_SECOND && total == elapsed + d
    requires t0 + total / PER_SECOND < WORD
    requires provider.Answers? ==> provider.time == 0 || provider.time == t0 + total / PER_SECOND
    requires r == ClockNow(c, Add32(m0, total), provider)
    ensures RightSince(r, t0, m0, base', total)
  {
    var millis := Add32(m0, total);
    var counted := CatchUp(c, millis);
    if counted.nextSyncTime <= counted.sysTime && provider.Answers? && provider.time != 0 {
      base' := total;
      assert r == ClockSet(counted, t0 + total / PER_SECOND, millis);
      SetCall(counted, t0, m0, total);
    } else {
      base' := base;
      KeepsCounted(c, millis, provider);
      CountedCall(c, t0, m0, base, elapsed, d, total);
      SameTime(counted, r, t0, m0, base, total);
    }
  }

  lemma SecondsGrow(a: nat, b: nat)
    requires a <= b
    ensures a / PER_SECOND <= b / PER_SECOND
  {
  }

  lemma {:induction false} SyncedStep(c: Clock, m0: nat, calls: seq<Call>, last: Call)
    requires Words(c) && Answered(calls + [last])
    ensures Elapsed(calls + [last]) == Elapsed(calls) + last.gap && Answered(calls)
    ensures Synced(c, m0, calls + [last])
            == ClockNow(Synced(c, m0, calls), Add32(m0, Elapsed(calls) + last.gap), last.provider)
  {
    assert (calls + [last])[..|calls|] == calls;
  }

  lemma {:induction false} SyncedNext(c: Clock, t0: nat, m0: nat, calls: seq<Call>, last: Call, base: nat)
    returns (base': nat)
    requires Words(c) && Answered(calls + [last]) && Answered(calls)
    requires RightSince(Synced(c, m0, calls), t0, m0, base, Elapsed(calls)) && last.gap < WORD - PER_SECOND
    requires var now := t0 + (Elapsed(calls) + last.gap) / PER_SECOND;
             now < WORD && (last.provider.Answers? ==> last.provider.time == 0 || last.provider.time == now)
    ensures RightSince(Synced(c, m0, calls + [last]), t0, m0, base', Elapsed(calls + [last]))
  {
    SyncedStep(c, m0, calls, last);
    base' := SyncedCall(Synced(c, m0, calls), t0, m0, base, Elapsed(calls), last.gap, last.provider,
                        Synced(c, m0, calls + [last]), Elapsed(calls + [last]));
  }

  lemma {:induction false} SyncedFrom(c: Clock, t0: nat, m0: nat, calls: seq<Call>) returns (base: nat)
    requires RightSince(c, t0, m0, 0, 0) && Prompt(calls) && Honest(calls, t0) && Answered(calls)
    requires t0 + Elapsed(calls) / PER_SECOND < WORD
    ensures RightSince(Synced(c, m0, calls), t0, m0, base, Elapsed(calls))
    decreases |calls|
  {
    if calls == [] {
      base := 0;
    } else {
      var init, last := calls[..|calls| - 1], calls[|calls| - 1];
      SecondsGrow(Elapsed(init), Elapsed(init) + last.gap);
      base := SyncedFrom(c, t0, m0, init);
      base := SyncedNext(c, t0, m0, init, last, base);
      assert init + [last] == calls;
    }
  }

  // Set once and synchronised by an honest source now and then, in a run of any length: the clock
  // has counted right since some moment it was set right.
  lemma SyncedRun(c0: Clock, t0: nat, m0: nat, calls: seq<Call>) returns (base: nat)
    requires Words(c0) && t0 < WORD && m0 < WORD && Prompt(calls) && Honest(calls, t0) && Answered(calls)
    requires t0 + Elapsed(calls) / PER_SECOND < WORD
    ensures RightSince(Synced(ClockSet(c0, t0, m0), m0, calls), t0, m0, base, Elapsed(calls))
  {
    base := SyncedFrom(ClockSet(c0, t0, m0), t0, m0, calls);
  }

  // So it never shows anything but the true second or the one before.
  lemma {:induction false} SyncedShowsTruth(c0: Clock, t0: nat, m0: nat, calls: seq<Call>)
    requires Words(c0) && t0 < WORD && m0 < WORD && Prompt(calls) && Honest(calls, t0) && Answered(calls)
    requires t0 + Elapsed(calls) / PER_SECOND < WORD
    ensures var shown, truth := Synced(ClockSet(c0, t0, m0), m0, calls).sysTime, t0 + Elapsed(calls) / 1000;
            truth - 1 <= shown <= truth
  {
    var base := SyncedRun(c0, t0, m0, calls);
    ShownOnTime(Synced(ClockSet(c0, t0, m0), m0, calls), t0, m0, base, Elapsed(calls));
  }

  lemma ShownOnTime(c: Clock, t0: nat, m0: nat, base: nat, elapsed: nat)
    requires RightSince(c, t0, m0, base, elapsed) && t0 + elapsed / PER_SECOND < WORD
    ensures t0 + elapsed / PER_SECOND - 1 <= c.sysTime <= t0 + elapsed / PER_SECOND
  {
    SplitSeconds(base, elapsed);
  }

  lemma SplitSeconds(a: nat, b: nat)
    requires a <= b
    ensures b / PER_SECOND - 1 <= a / PER_SECOND + (b - a) / PER_SECOND <= b / PER_SECOND
  {
  }
}

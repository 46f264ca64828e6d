// The 50 us timer interrupt that turns the sampled receiver pin into a buffer of run
// lengths, and the proof that this is all it does.
module Capture {
  import Bits
  import opened Sequences
  import opened Signal

  const GAP_TICKS := 100   // 5000 us at 50 us a tick

  datatype RcvState = Idle | InMark | InSpace | Stop

  // `wrap` is one more than the greatest value of the C type `unsigned int`, in which the
  // timer counts and the buffer stores: 2^16 on AVR, 2^32 on the 32-bit boards.
  datatype Isr = Isr(state: RcvState, timer: nat, rawlen: nat, rawbuf: seq<nat>, overflow: bool)

  // A number as that type stores it: the remainder modulo `wrap`, whichever it is.
  function UInt(n: nat, wrap: nat): nat
    requires wrap > 0
  {
    if n < wrap then n else UInt(n - wrap, wrap)
  }

  // The timer counts modulo its width.
  lemma {:induction false} UIntIsMod(n: nat, wrap: nat)
    requires wrap > 0
    ensures UInt(n, wrap) == n % wrap
  {
    if n >= wrap {
      UIntIsMod(n - wrap, wrap);
      ModLess(n, wrap);
    }
  }

  lemma ModLess(n: nat, wrap: nat)
    requires n >= wrap > 0
    ensures (n - wrap) % wrap == n % wrap
  {
    assert n == wrap * (n / wrap) + n % wrap;
    Bits.DivModUnique(n - wrap, wrap, n / wrap - 1, n % wrap);
  }

  function Log(s: Isr, next: RcvState): Isr
    requires s.rawlen < |s.rawbuf|
  {
    Isr(next, 0, s.rawlen + 1, s.rawbuf[s.rawlen := s.timer], s.overflow)
  }

  predicate Healthy(s: Isr) {
    |s.rawbuf| == RAWBUF && s.rawlen <= RAWBUF && (s.state == Idle ==> s.rawlen == 0)
  }

  // The next slot of the buffer is for a mark exactly while a mark is being timed.
  predicate InStep(s: Isr) {
    && (s.state == InMark ==> s.rawlen % 2 == 1)
    && (s.state == InSpace ==> s.rawlen % 2 == 0 && s.rawlen >= 2)
  }

  // One interrupt.
  function Tick(s: Isr, irdata: Level, wrap: nat): (s': Isr)
    requires wrap > GAP_TICKS + 1 && Healthy(s)
    ensures Healthy(s')
  {
    var s := s.(timer := UInt(s.timer + 1, wrap));
    if s.rawlen >= RAWBUF then s.(state := Stop, overflow := true)
    else
      match s.state
      case Idle =>
        if irdata == Space then s
        else if s.timer < GAP_TICKS then s.(timer := 0)
        else Log(s.(overflow := false), InMark)
      case InMark =>
        if irdata == Space then Log(s, InSpace) else s
      case InSpace =>
        if irdata == Mark then Log(s, InMark)
        else if s.timer > GAP_TICKS then s.(state := Stop)
        else s
      case Stop =>
        if irdata == Mark then s.(timer := 0) else s
  }

  lemma TickStaysInStep(s: Isr, irdata: Level, wrap: nat)
    requires wrap > GAP_TICKS + 1 && Healthy(s) && InStep(s)
    ensures InStep(Tick(s, irdata, wrap))
  {
  }

  class Receiver {
    const wrap: nat
    var state: RcvState
    var timer: nat
    var rawlen: nat
    var rawbuf: array<nat>
    var overflow: bool

    ghost predicate Valid()
      reads this, rawbuf
    {
      wrap > GAP_TICKS + 1 && Healthy(Now()) && InStep(Now())
    }

    ghost function Now(): Isr
      reads this, rawbuf
    {
      Isr(state, timer, rawlen, rawbuf[..], overflow)
    }

    // Static storage, then `enableIRIn`.
    constructor (wrap: nat)
      requires wrap > GAP_TICKS + 1
      ensures Valid() && fresh(rawbuf) && this.wrap == wrap
      ensures state == Idle && timer == 0
    {
      this.wrap := wrap;
      state, timer, rawlen, overflow := Idle, 0, 0, false;
      rawbuf := new nat[RAWBUF](_ => 0);
    }

    method Resume()
      requires Valid()
      modifies this`state, this`rawlen
      ensures Valid() && Now() == old(Now()).(state := Idle, rawlen := 0)
    {
      state := Idle;
      rawlen := 0;
    }

    method Interrupt(irdata: Level)
      requires Valid()
      modifies this`state, this`timer, this`rawlen, this`overflow, rawbuf
      ensures Valid() && Now() == Tick(old(Now()), irdata, wrap)
    {
      timer := UInt(timer + 1, wrap);
      var full := rawlen >= RAWBUF;
      if full {
        overflow := true;
        state := Stop;
      } else {
        match state
        case Idle =>
          if irdata == Mark {
            if timer < GAP_TICKS {
              timer := 0;
            } else {
              overflow := false;
              rawlen := 0;
              rawbuf[rawlen] := timer;
              rawlen := rawlen + 1;
              timer := 0;
              state := InMark;
            }
          }
        case InMark =>
          if irdata == Space {
            rawbuf[rawlen] := timer;
            rawlen := rawlen + 1;
            timer := 0;
            state := InSpace;
          }
        case InSpace =>
          if irdata == Mark {
            rawbuf[rawlen] := timer;
            rawlen := rawlen + 1;
            timer := 0;
            state := InMark;
          } else if timer > GAP_TICKS {
            state := Stop;
          }
        case Stop =>
          if irdata == Mark { timer := 0; }
      }
    }
  }

  // ----- Whole streams of samples --------------------------------------------------

  function Listen(s: Isr, samples: seq<Level>, wrap: nat): (s': Isr)
    requires wrap > GAP_TICKS + 1 && Healthy(s)
    ensures Healthy(s')
    decreases |samples|
  {
    if samples == [] then s else Tick(Listen(s, Init(samples), wrap), Last(samples), wrap)
  }

  // In every reachable state the buffer index is in range and in step with the state.
  lemma {:induction false} AlwaysInStep(s: Isr, samples: seq<Level>, wrap: nat)
    requires wrap > GAP_TICKS + 1 && Healthy(s) && InStep(s)
    ensures Healthy(Listen(s, samples, wrap)) && InStep(Listen(s, samples, wrap))
    decreases |samples|
  {
    if samples != [] {
      AlwaysInStep(s, Init(samples), wrap);
      TickStaysInStep(Listen(s, Init(samples), wrap), Last(samples), wrap);
    }
  }

  // The lengths of the maximal runs of equal samples: those that have ended, and the
  // one still going on.
  datatype Runs = Runs(closed: seq<nat>, current: nat)

  function RunsOf(samples: seq<Level>): (r: Runs)
    requires samples != []
    ensures r.current >= 1
    decreases |samples|
  {
    if |samples| == 1 then Runs([], 1)
    else
      var r := RunsOf(Init(samples));
      if Last(samples) == samples[|samples| - 2] then Runs(r.closed, r.current + 1)
      else Runs(r.closed + [r.current], 1)
  }

  // The timer of an idle receiver: ticks since the last mark, or since it started at t0.
  function SinceMark(samples: seq<Level>, t0: nat, wrap: nat): nat
    requires wrap > 0
    decreases |samples|
  {
    if samples == [] then t0
    else if Last(samples) == Mark then 0
    else UInt(SinceMark(Init(samples), t0, wrap) + 1, wrap)
  }

  // Slots 1.. hold the given run lengths.
  ghost predicate Logged(rawbuf: seq<nat>, runs: seq<nat>, wrap: nat)
    requires wrap > 0
  {
    && |runs| < |rawbuf|
    && forall i :: 0 <= i < |runs| ==> rawbuf[i + 1] == UInt(runs[i], wrap)
  }

  // `heard` is what was sampled from the opening mark on, and its last run is still open.
  ghost predicate Recording(s: Isr, heard: seq<Level>, wrap: nat)
    requires wrap > GAP_TICKS + 1
  {
    && Healthy(s) && heard != [] && heard[0] == Mark && !s.overflow
    && s.state == (if Last(heard) == Mark then InMark else InSpace)
    && var runs := RunsOf(heard);
       && s.rawlen == |runs.closed| + 1
       && s.timer == UInt(runs.current - 1, wrap)
       && (s.state == InSpace ==> runs.current <= GAP_TICKS + 1)
       && Logged(s.rawbuf, runs.closed, wrap)
  }

  // `heard` was recorded to its end, the 102nd sample of a space.
  ghost predicate Sealed(s: Isr, heard: seq<Level>, wrap: nat)
    requires wrap > GAP_TICKS + 1
  {
    && Healthy(s) && heard != [] && heard[0] == Mark && Last(heard) == Space && !s.overflow
    && s.state == Stop
    && var runs := RunsOf(heard);
       && runs.current == GAP_TICKS + 2
       && s.rawlen == |runs.closed| + 1 < RAWBUF
       && Logged(s.rawbuf, runs.closed, wrap)
  }

  lemma {:induction false} UIntSucc(a: nat, wrap: nat)
    requires wrap > 1
    ensures UInt(UInt(a, wrap) + 1, wrap) == UInt(a + 1, wrap)
  {
    if a >= wrap {
      UIntSucc(a - wrap, wrap);
    }
  }

  lemma {:induction false} MarkGoesOn(s: Isr, heard: seq<Level>, wrap: nat)
    requires wrap > GAP_TICKS + 1 && Recording(s, heard, wrap) && s.rawlen < RAWBUF && Last(heard) == Mark
    ensures Tick(s, Mark, wrap) == s.(timer := UInt(s.timer + 1, wrap))
    ensures Recording(Tick(s, Mark, wrap), heard + [Mark], wrap)
  {
    UIntSucc(RunsOf(heard).current - 1, wrap);
  }

  lemma {:induction false} SameLevelTick(s: Isr, heard: seq<Level>, x: Level, wrap: nat)
    requires wrap > GAP_TICKS + 1 && Recording(s, heard, wrap) && s.rawlen < RAWBUF && Last(heard) == x
    ensures var s' := Tick(s, x, wrap);
            && s'.rawbuf == s.rawbuf && s'.rawlen == s.rawlen
            && if x == Space && RunsOf(heard).current == GAP_TICKS + 1
               then Sealed(s', heard + [x], wrap) else Recording(s', heard + [x], wrap)
  {
    if x == Mark {
      MarkGoesOn(s, heard, wrap);
    }
  }

  lemma NewLevelTick(s: Isr, heard: seq<Level>, x: Level, wrap: nat)
    requires wrap > GAP_TICKS + 1 && Recording(s, heard, wrap) && s.rawlen < RAWBUF && Last(heard) != x
    ensures var s' := Tick(s, x, wrap);
            && s'.rawbuf[0] == s.rawbuf[0] && s'.rawlen == s.rawlen + 1
            && Recording(s', heard + [x], wrap)
  {
    UIntSucc(RunsOf(heard).current - 1, wrap);
  }

  // While there is room, one more sample is either recorded or closes the recording.
  lemma {:induction false} RecordingTick(s: Isr, heard: seq<Level>, x: Level, wrap: nat)
    requires wrap > GAP_TICKS + 1 && Recording(s, heard, wrap) && s.rawlen < RAWBUF
    ensures var s' := Tick(s, x, wrap);
            && s'.rawbuf[0] == s.rawbuf[0]
            && if x == Space && Last(heard) == Space && RunsOf(heard).current == GAP_TICKS + 1
               then Sealed(s', heard + [x], wrap) else Recording(s', heard + [x], wrap)
  {
    if Last(heard) == x {
      SameLevelTick(s, heard, x, wrap);
    } else {
      NewLevelTick(s, heard, x, wrap);
    }
  }

  // ----- The interrupt is a run-length encoder ----------------------------------------

  // Whether a mark sampled after these samples would open a recording.
  predicate GapIsLong(samples: seq<Level>, t0: nat, wrap: nat)
    requires wrap > 0
  {
    UInt(SinceMark(samples, t0, wrap) + 1, wrap) >= GAP_TICKS
  }

  // The index of the first mark that ends a long enough gap; -1 if there is none.
  function Opening(samples: seq<Level>, t0: nat, wrap: nat): (open: int)
    requires wrap > 0
    ensures -1 <= open < |samples|
    decreases |samples|
  {
    if samples == [] then -1
    else
      var earlier := Opening(Init(samples), t0, wrap);
      if earlier >= 0 then earlier
      else if Last(samples) == Mark && GapIsLong(Init(samples), t0, wrap) then |samples| - 1
      else -1
  }

  lemma {:induction false} OpeningIsFirst(samples: seq<Level>, i: nat, t0: nat, wrap: nat)
    requires wrap > 0 && i < |samples|
    ensures var opens := samples[i] == Mark && GapIsLong(samples[..i], t0, wrap);
            var open := Opening(samples, t0, wrap);
            && (i == open ==> opens)
            && (opens ==> 0 <= open <= i)
    decreases |samples|
  {
    if i < |samples| - 1 {
      OpeningIsFirst(Init(samples), i, t0, wrap);
      assert Init(samples)[..i] == samples[..i];
    } else {
      assert samples[..i] == Init(samples);
    }
  }

  // What the state of a receiver says about the samples it has been given since it was
  // idle with timer t0.
  ghost predicate Explained(s: Isr, samples: seq<Level>, t0: nat, close: nat, wrap: nat)
    requires wrap > GAP_TICKS + 1
  {
    var open := Opening(samples, t0, wrap);
    && Healthy(s)
    && if open < 0 then s.state == Idle && s.timer == SinceMark(samples, t0, wrap)
       else
         && open < close <= |samples|
         && s.rawbuf[0] == UInt(SinceMark(samples[..open], t0, wrap) + 1, wrap)
         && Heard(s, samples[open..close], wrap)
         && (s.state != Stop ==> close == |samples|)
  }

  ghost predicate Heard(s: Isr, heard: seq<Level>, wrap: nat)
    requires wrap > GAP_TICKS + 1
  {
    if s.state != Stop then Recording(s, heard, wrap)
    else if s.overflow then heard != [] && s.rawlen == RAWBUF == |RunsOf(heard).closed| + 1
    else Sealed(s, heard, wrap)
  }

  lemma BusyTick(s: Isr, heard: seq<Level>, x: Level, wrap: nat)
    requires wrap > GAP_TICKS + 1 && Healthy(s) && s.state != Idle && Heard(s, heard, wrap)
    ensures var s' := Tick(s, x, wrap);
            && s'.state != Idle && s'.rawbuf[0] == s.rawbuf[0]
            && if s.state != Stop && s.rawlen < RAWBUF then Heard(s', heard + [x], wrap)
               else Heard(s', heard, wrap) && s'.state == Stop
  {
    if s.state != Stop && s.rawlen < RAWBUF {
      RecordingTick(s, heard, x, wrap);
    }
  }

  lemma {:induction false} FirstMark(s: Isr, samples: seq<Level>, x: Level, t0: nat, close: nat, wrap: nat)
    requires wrap > GAP_TICKS + 1 && Explained(s, samples, t0, close, wrap) && Opening(samples, t0, wrap) < 0
    ensures Explained(Tick(s, x, wrap), samples + [x], t0, |samples| + 1, wrap)
  {
    assert Init(samples + [x]) == samples;
  }

  lemma OneMore<T>(samples: seq<T>, x: T, open: nat, close: nat)
    requires open < close <= |samples|
    ensures (samples + [x])[..open] == samples[..open] && (samples + [x])[open..close] == samples[open..close]
    ensures close == |samples| ==> (samples + [x])[open..close + 1] == samples[open..close] + [x]
  {
  }

  lemma ExplainedTick(s: Isr, samples: seq<Level>, x: Level, t0: nat, close: nat, wrap: nat) returns (close': nat)
    requires wrap > GAP_TICKS + 1 && Explained(s, samples, t0, close, wrap)
    ensures Explained(Tick(s, x, wrap), samples + [x], t0, close', wrap)
  {
    var all, open := samples + [x], Opening(samples, t0, wrap);
    assert Init(all) == samples;
    if open < 0 {
      close' := |samples| + 1;
      FirstMark(s, samples, x, t0, close, wrap);
    } else {
      var heard := samples[open..close];
      var goesOn := s.state != Stop && s.rawlen < RAWBUF;
      close' := if goesOn then close + 1 else close;
      OneMore(samples, x, open, close);
      BusyTick(s, heard, x, wrap);
    }
  }

  // For every stream of samples: an idle receiver is still idle exactly when no mark has
  // ended a long enough gap, and once it has stopped without overflow its buffer holds
  // the run lengths from that mark to the closing space, and nothing else.
  lemma {:induction false} CaptureIsRunLengths(s: Isr, samples: seq<Level>, wrap: nat) returns (close: nat)
    requires wrap > GAP_TICKS + 1 && Healthy(s) && s.state == Idle
    ensures Explained(Listen(s, samples, wrap), samples, s.timer, close, wrap)
    decreases |samples|
  {
    if samples == [] {
      close := 0;
    } else {
      var init, x := Init(samples), Last(samples);
      assert samples == init + [x];
      close := CaptureIsRunLengths(s, init, wrap);
      close := ExplainedTick(Listen(s, init, wrap), init, x, s.timer, close, wrap);
    }
  }

  // ----- Streams with known runs --------------------------------------------------------

  function RunLevel(i: nat): Level {
    if i % 2 == 0 then Mark else Space
  }

  // Alternating marks and spaces of the first n of the given lengths, a mark first.
  function Sampled(widths: seq<nat>, n: nat): seq<Level>
    requires n <= |widths|
  {
    if n == 0 then [] else Sampled(widths, n - 1) + Hold(RunLevel(n - 1), widths[n - 1])
  }

  // Widths that fit the buffer, with no space among them as long as a gap.
  predicate Fitting(widths: seq<nat>, wrap: nat) {
    && 1 <= |widths| < RAWBUF - 1
    && forall i :: 0 <= i < |widths| ==>
         1 <= widths[i] < wrap && (RunLevel(i) == Space ==> widths[i] <= GAP_TICKS + 1)
  }

  lemma {:induction false} ListenConcat(s: Isr, a: seq<Level>, b: seq<Level>, wrap: nat)
    requires wrap > GAP_TICKS + 1 && Healthy(s)
    ensures Listen(s, a + b, wrap) == Listen(Listen(s, a, wrap), b, wrap)
    decreases |b|
  {
    if b == [] {
      assert a + b == a;
    } else {
      assert a + b == (a + Init(b)) + [Last(b)];
      ListenConcat(s, a, Init(b), wrap);
    }
  }

  // A new run, up to the length at which a space would close the recording.
  lemma {:induction false} HearRun(s: Isr, heard: seq<Level>, run: seq<Level>, wrap: nat)
    requires wrap > GAP_TICKS + 1 && Recording(s, heard, wrap) && s.rawlen < RAWBUF - 1
    requires run != [] && forall i :: 0 <= i < |run| ==> run[i] == Other(Last(heard))
    requires Last(heard) == Mark ==> |run| <= GAP_TICKS + 1
    ensures RunsOf(heard + run) == Runs(RunsOf(heard).closed + [RunsOf(heard).current], |run|)
    ensures var s' := Listen(s, run, wrap);
            Recording(s', heard + run, wrap) && s'.rawlen == s.rawlen + 1
    decreases |run|
  {
    var init, l := Init(run), Last(run);
    var before := heard + init;
    assert heard + run == before + [l];
    if init == [] {
      assert before == heard;
      NewLevelTick(s, heard, l, wrap);
    } else {
      HearRun(s, heard, init, wrap);
      assert Last(before) == Last(init);
      SameLevelTick(Listen(s, init, wrap), before, l, wrap);
    }
  }

  lemma HoldSnoc(l: Level, n: nat)
    requires n > 0
    ensures Hold(l, n) == Hold(l, n - 1) + [l]
    ensures Init(Hold(l, n)) == Hold(l, n - 1) && Last(Hold(l, n)) == l
  {
  }

  lemma {:induction false} HearFirstRun(s: Isr, n: nat, wrap: nat)
    requires wrap > GAP_TICKS + 1 && Healthy(s) && s.state == Idle && UInt(s.timer + 1, wrap) >= GAP_TICKS
    requires n >= 1
    ensures RunsOf(Hold(Mark, n)) == Runs([], n)
    ensures var s' := Listen(s, Hold(Mark, n), wrap);
            Recording(s', Hold(Mark, n), wrap) && s'.rawlen == 1
  {
    HoldSnoc(Mark, n);
    if n > 1 {
      HearFirstRun(s, n - 1, wrap);
      SameLevelTick(Listen(s, Hold(Mark, n - 1), wrap), Hold(Mark, n - 1), Mark, wrap);
    }
  }

  lemma TakeSnoc(widths: seq<nat>, n: nat)
    requires n < |widths|
    ensures widths[..n] + [widths[n]] == widths[..n + 1]
  {
  }

  lemma {:induction false} HearSampled(s: Isr, widths: seq<nat>, n: nat, wrap: nat)
    requires wrap > GAP_TICKS + 1 && Healthy(s) && s.state == Idle && UInt(s.timer + 1, wrap) >= GAP_TICKS
    requires Fitting(widths, wrap) && 1 <= n <= |widths|
    ensures Sampled(widths, n) != [] && Last(Sampled(widths, n)) == RunLevel(n - 1)
    ensures RunsOf(Sampled(widths, n)) == Runs(widths[..n - 1], widths[n - 1])
    ensures Recording(Listen(s, Sampled(widths, n), wrap), Sampled(widths, n), wrap)
  {
    if n == 1 {
      assert Sampled(widths, 1) == Hold(Mark, widths[0]);
      HearFirstRun(s, widths[0], wrap);
    } else {
      HearSampled(s, widths, n - 1, wrap);
      HearNextRun(Listen(s, Sampled(widths, n - 1), wrap), Sampled(widths, n - 1), n - 1, widths[n - 1], wrap);
      ListenConcat(s, Sampled(widths, n - 1), Hold(RunLevel(n - 1), widths[n - 1]), wrap);
      assert RunsOf(Sampled(widths, n)) == Runs(widths[..n - 2] + [widths[n - 2]], widths[n - 1]);
      TakeSnoc(widths, n - 2);
    }
  }

  lemma {:induction false} HearNextRun(s: Isr, heard: seq<Level>, i: nat, width: nat, wrap: nat)
    requires wrap > GAP_TICKS + 1 && i >= 1 && Recording(s, heard, wrap) && s.rawlen < RAWBUF - 1
    requires Last(heard) == RunLevel(i - 1) && width >= 1 && (RunLevel(i) == Space ==> width <= GAP_TICKS + 1)
    ensures var run := Hold(RunLevel(i), width);
            Last(heard + run) == RunLevel(i) && Recording(Listen(s, run, wrap), heard + run, wrap) &&
            RunsOf(heard + run) == Runs(RunsOf(heard).closed + [RunsOf(heard).current], width)
  {
    HearRun(s, heard, Hold(RunLevel(i), width), wrap);
  }

  lemma {:induction false} StoppedStays(s: Isr, heard: seq<Level>, n: nat, wrap: nat)
    requires wrap > GAP_TICKS + 1 && Sealed(s, heard, wrap)
    ensures Sealed(Listen(s, Hold(Space, n), wrap), heard, wrap)
    ensures Listen(s, Hold(Space, n), wrap).rawbuf == s.rawbuf
  {
    if n > 0 {
      HoldSnoc(Space, n);
      StoppedStays(s, heard, n - 1, wrap);
    }
  }

  lemma {:induction false} HearEnd(s: Isr, heard: seq<Level>, n: nat, wrap: nat)
    requires wrap > GAP_TICKS + 1 && Recording(s, heard, wrap) && s.rawlen < RAWBUF - 1
    requires Last(heard) == Mark && n >= GAP_TICKS + 2
    ensures var s', runs := Listen(s, Hold(Space, n), wrap), RunsOf(heard);
            && s'.state == Stop && !s'.overflow && s'.rawlen == s.rawlen + 1
            && Logged(s'.rawbuf, runs.closed + [runs.current], wrap)
  {
    var run := Hold(Space, GAP_TICKS + 1);
    var rest := Hold(Space, n - GAP_TICKS - 2);
    HearRun(s, heard, run, wrap);
    var s1 := Listen(s, run, wrap);
    SameLevelTick(s1, heard + run, Space, wrap);
    StoppedStays(Tick(s1, Space, wrap), heard + run + [Space], |rest|, wrap);
    ListenConcat(s, run + [Space], rest, wrap);
    assert run + [Space] + rest == Hold(Space, n);
  }

  lemma {:induction false} UIntAdd(a: nat, n: nat, wrap: nat)
    requires wrap > 1
    ensures UInt(UInt(a, wrap) + n, wrap) == UInt(a + n, wrap)
  {
    if a >= wrap {
      UIntAdd(a - wrap, n, wrap);
    }
  }

  lemma {:induction false} HearSilence(s: Isr, n: nat, wrap: nat)
    requires wrap > GAP_TICKS + 1 && Healthy(s) && s.state == Idle && s.timer < wrap
    ensures var s' := Listen(s, Hold(Space, n), wrap);
            s'.state == Idle && s'.timer == UInt(s.timer + n, wrap)
  {
    if n > 0 {
      HoldSnoc(Space, n);
      HearSilence(s, n - 1, wrap);
      HearSpace(Listen(s, Hold(Space, n - 1), wrap), s.timer + n - 1, wrap);
    }
  }

  lemma HearSpace(s: Isr, t: nat, wrap: nat)
    requires wrap > GAP_TICKS + 1 && Healthy(s) && s.state == Idle && s.timer == UInt(t, wrap)
    ensures Tick(s, Space, wrap).state == Idle && Tick(s, Space, wrap).timer == UInt(t + 1, wrap)
  {
    UIntAdd(t, 1, wrap);
  }

  lemma {:induction false} HeardWhole(s: Isr, widths: seq<nat>, wrap: nat)
    requires wrap > GAP_TICKS + 1 && Healthy(s) && s.state == Idle && UInt(s.timer + 1, wrap) >= GAP_TICKS
    requires Fitting(widths, wrap) && |widths| % 2 == 1
    ensures var heard := Sampled(widths, |widths|);
            && Recording(Listen(s, heard, wrap), heard, wrap) && Listen(s, heard, wrap).rawlen == |widths|
            && Last(heard) == Mark && RunsOf(heard).closed + [RunsOf(heard).current] == widths
  {
    var n := |widths|;
    HearSampled(s, widths, n, wrap);
    TakeSnoc(widths, n - 1);
    assert widths[..n] == widths;
  }

  lemma {:induction false} HearMessage(s: Isr, widths: seq<nat>, after: nat, wrap: nat)
    requires wrap > GAP_TICKS + 1 && Healthy(s) && s.state == Idle && UInt(s.timer + 1, wrap) >= GAP_TICKS
    requires Fitting(widths, wrap) && |widths| % 2 == 1 && after >= GAP_TICKS + 2
    ensures var s' := Listen(s, Sampled(widths, |widths|) + Hold(Space, after), wrap);
            && s'.state == Stop && !s'.overflow && s'.rawlen == |widths| + 1
            && Logged(s'.rawbuf, widths, wrap)
  {
    var heard := Sampled(widths, |widths|);
    HeardWhole(s, widths, wrap);
    HearEnd(Listen(s, heard, wrap), heard, after, wrap);
    ListenConcat(s, heard, Hold(Space, after), wrap);
  }

  lemma {:induction false} HearGap(s: Isr, n: nat, wrap: nat)
    requires wrap > GAP_TICKS + 1 && Healthy(s) && s.state == Idle && s.timer < wrap
    requires UInt(s.timer + n + 1, wrap) >= GAP_TICKS
    ensures var s' := Listen(s, Hold(Space, n), wrap);
            s'.state == Idle && UInt(s'.timer + 1, wrap) >= GAP_TICKS
  {
    HearSilence(s, n, wrap);
    UIntAdd(s.timer + n, 1, wrap);
  }

  function Message(widths: seq<nat>, after: nat): seq<Level> {
    Sampled(widths, |widths|) + Hold(Space, after)
  }

  lemma {:induction false} HearAfter(s: Isr, quiet: seq<Level>, widths: seq<nat>, after: nat, wrap: nat)
    requires wrap > GAP_TICKS + 1 && Healthy(s)
    requires var s1 := Listen(s, quiet, wrap); s1.state == Idle && UInt(s1.timer + 1, wrap) >= GAP_TICKS
    requires Fitting(widths, wrap) && |widths| % 2 == 1 && after >= GAP_TICKS + 2
    ensures var s' := Listen(s, quiet + Message(widths, after), wrap);
            && s'.state == Stop && !s'.overflow && s'.rawlen == |widths| + 1
            && s'.rawbuf[1..s'.rawlen] == widths
  {
    var s1, message := Listen(s, quiet, wrap), Message(widths, after);
    HearMessage(s1, widths, after, wrap);
    ListenConcat(s, quiet, message, wrap);
  }

  // A silence of at least a gap, a transmission with these run lengths, and a silence long
  // enough to end it: the receiver stops with exactly these widths in its buffer.
  lemma {:induction false} ReceivesWidths(s: Isr, before: nat, widths: seq<nat>, after: nat, wrap: nat)
    requires wrap > GAP_TICKS + 1 && Healthy(s) && s.state == Idle && s.timer < wrap
    requires UInt(s.timer + before + 1, wrap) >= GAP_TICKS && after >= GAP_TICKS + 2
    requires Fitting(widths, wrap) && |widths| % 2 == 1
    ensures var s' := Listen(s, Hold(Space, before) + Message(widths, after), wrap);
            && s'.state == Stop && !s'.overflow && s'.rawlen == |widths| + 1
            && s'.rawbuf[1..s'.rawlen] == widths
  {
    HearGap(s, before, wrap);
    HearAfter(s, Hold(Space, before), widths, after, wrap);
  }
}

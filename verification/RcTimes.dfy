// RC5 and RC6 in microseconds: what is sent, how far off a width may be heard, and that every
// message heard that close is decoded.
module RcTimes {
  import opened Bits
  import opened Sequences
  import opened Signal
  import opened RcCodes
  import opened RcRoundTrip
  import opened RcOverTheAir
  import Capture

  // ----- What is sent ---------------------------------------------------------------------------

  // RC5: three start halves of 889 us, then for every bit two halves of 889 us, a 1 going from
  // space to mark and a 0 from mark to space.
  lemma {:induction false} Rc5Trace(bits: seq<bool>, k: nat)
    requires k < |bits|
    ensures var body := Body(Rc5, bits);
            && |body| == 3 + 2 * |bits| && Header(Rc5) == []
            && body[..3] == [Pulse(Mark, 889), Pulse(Space, 889), Pulse(Mark, 889)]
            && body[3 + 2 * k] == Pulse(if bits[k] then Space else Mark, 889)
            && body[4 + 2 * k] == Pulse(if bits[k] then Mark else Space, 889)
    decreases |bits|
  {
    if |bits| == 1 {
      assert Init(bits) == [] && Body(Rc5, []) == StartPulses(Rc5);
    } else {
      Rc5Trace(Init(bits), if k < |bits| - 1 then k else 0);
    }
  }

  // RC6: a header of 2666 and 889 us, two start halves of 444 us, then two halves of 444 us for
  // every bit and of 888 us for the fourth, a 1 going from mark to space and a 0 from space to mark.
  lemma {:induction false} Rc6Trace(bits: seq<bool>, k: nat)
    requires k < |bits|
    ensures var body := Body(Rc6, bits);
            && |body| == 2 + 2 * |bits| && Header(Rc6) == [Pulse(Mark, 2666), Pulse(Space, 889)]
            && body[..2] == [Pulse(Mark, 444), Pulse(Space, 444)]
            && body[2 + 2 * k] == Pulse(if bits[k] then Mark else Space, if k == 3 then 888 else 444)
            && body[3 + 2 * k] == Pulse(if bits[k] then Space else Mark, if k == 3 then 888 else 444)
    decreases |bits|
  {
    if |bits| == 1 {
      assert Init(bits) == [] && Body(Rc6, []) == StartPulses(Rc6);
    } else {
      Rc6Trace(Init(bits), if k < |bits| - 1 then k else 0);
    }
  }

  // ----- Which widths are taken for which runs --------------------------------------------------

  // The widths taken for one, two and three time units, in ticks of 50 us, exactly.
  lemma Rc5Windows(width: nat)
    ensures Units(width, Mark, 889) ==
            if 14 <= width <= 25 then 1 else if 28 <= width <= 47 then 2 else if 48 <= width <= 70 then 3 else 0
    ensures Units(width, Space, 889) ==
            if 11 <= width <= 20 then 1 else if 25 <= width <= 42 then 2 else if 43 <= width <= 65 then 3 else 0
  {
  }

  lemma Rc6Windows(width: nat)
    ensures Units(width, Mark, 444) ==
            if 8 <= width <= 14 then 1 else if 15 <= width <= 25 then 2 else if 26 <= width <= 36 then 3 else 0
    ensures Units(width, Space, 444) ==
            if 5 <= width <= 9 then 1 else if 11 <= width <= 20 then 2 else if 21 <= width <= 31 then 3 else 0
  {
  }

  lemma HeaderWindows(width: nat)
    ensures MatchMark(width, 2666) <==> 41 <= width <= 70
    ensures MatchSpace(width, 889) <==> 11 <= width <= 20
  {
  }

  // A width in ticks of 50 us, heard of a run: marks may be 44 us short to 150 us long, spaces 150
  // us short to 6 us long. Receivers stretch marks at the expense of spaces.
  predicate Near(run: Pulse, width: nat) {
    if run.level == Mark then run.usec - 44 <= 50 * width <= run.usec + 150
    else run.usec - 150 <= 50 * width <= run.usec + 6
  }

  lemma NearRc5(run: Pulse, width: nat)
    requires Near(run, width) && (run.usec == 889 || run.usec == 1778 || run.usec == 2667)
    ensures Units(width, run.level, 889) == run.usec / 889
  {
    Rc5Windows(width);
  }

  lemma NearRc6(run: Pulse, width: nat)
    requires Near(run, width) && (run.usec == 444 || run.usec == 888 || run.usec == 1332)
    ensures Units(width, run.level, 444) == run.usec / 444
  {
    Rc6Windows(width);
  }

  lemma NearUnits(code: Code, run: Pulse, width: nat)
    requires OneToThree(code, run) && Near(run, width)
    ensures Units(width, run.level, T1(code)) == run.usec / T1(code)
  {
    if code.Rc5? {
      NearRc5(run, width);
    } else {
      NearRc6(run, width);
    }
  }

  // Every run of the message heard that close.
  ghost predicate HeardNear(code: Code, bits: seq<bool>, widths: seq<nat>) {
    var runs := DropTrailingSpace(Merge(Transmission(code, bits)));
    |widths| == |runs| && forall i :: 0 <= i < |runs| ==> Near(runs[i], widths[i])
  }

  lemma NearIsTaken(code: Code, bits: seq<bool>, widths: seq<nat>, i: nat)
    requires HeardNear(code, bits, widths) && |Header(code)| <= i < |widths|
    ensures var run := SeenRuns(code, bits)[i]; Units(widths[i], run.level, T1(code)) == run.usec / T1(code)
  {
    SeenIsHeaderAndBody(code, bits);
    assert SeenRuns(code, bits)[i] == Merge(Body(code, bits))[i - |Header(code)|];
    RunsOfBody(code, bits, i - |Header(code)|);
    NearUnits(code, SeenRuns(code, bits)[i], widths[i]);
  }

  lemma HeardIsTaken(code: Code, bits: seq<bool>, widths: seq<nat>)
    requires HeardNear(code, bits, widths)
    ensures WidthsOf(code, bits, widths)
  {
    if code.Rc6? && |widths| >= 2 {
      SeenIsHeaderAndBody(code, bits);
      assert SeenRuns(code, bits)[0] == Pulse(Mark, 2666) && SeenRuns(code, bits)[1] == Pulse(Space, 889);
      HeaderWindows(widths[0]);
      HeaderWindows(widths[1]);
    }
    forall i | |Header(code)| <= i < |widths|
      ensures Units(widths[i], SeenRuns(code, bits)[i].level, T1(code)) == SeenRuns(code, bits)[i].usec / T1(code)
    {
      NearIsTaken(code, bits, widths, i);
    }
  }

  // ----- Heard is decoded -----------------------------------------------------------------------

  // Whatever is sent, every recording of it within these bounds decodes to its value and length;
  // RC5 from ten bits on.
  lemma {:induction false} HeardIsDecoded(code: Code, data: nat, nbits: nat, buf: seq<nat>, rawlen: nat)
    requires 1 <= nbits <= 32 && (code.Rc5? ==> nbits >= 10) && 1 <= rawlen <= |buf| == 101
    requires HeardNear(code, ToBits(data, nbits), buf[1..rawlen])
    ensures Decode(code, buf, rawlen) == Accept(nbits, data % Pow2(nbits))
  {
    HeardIsTaken(code, ToBits(data, nbits), buf[1..rawlen]);
    DecodesTo(code, data, nbits, buf, rawlen);
  }

  // The same through the sampling interrupt: silence of 5 ms, the message sampled every 50 us that
  // close, and silence of more than 5 ms again.
  lemma {:induction false} HeardOverTheAir(code: Code, data: nat, nbits: nat, s: Capture.Isr, before: nat,
                                           widths: seq<nat>, after: nat, wrap: nat)
    requires 1 <= nbits <= 32 && (code.Rc5? ==> nbits >= 10) && HeardNear(code, ToBits(data, nbits), widths)
    requires wrap >= 0x1_0000 && Capture.Healthy(s) && s.state == Capture.Idle && s.timer + before + 1 < wrap
    requires 5000 <= 50 * (s.timer + before + 1) && 5000 < 50 * (after - 1)
    ensures var s' := Capture.Listen(s, Hold(Space, before) + Capture.Message(widths, after), wrap);
            && s'.state == Capture.Stop && !s'.overflow
            && Decode(code, s'.rawbuf, s'.rawlen) == Accept(nbits, data % Pow2(nbits))
  {
    HeardIsTaken(code, ToBits(data, nbits), widths);
    SentIsReceived(code, data, nbits, s, before, widths, after, wrap);
  }

  // And both silences have to be that long: a mark behind a shorter one opens no recording, and a
  // space of up to 5 ms does not close one.
  lemma GapsExactly(s: Capture.Isr, wrap: nat)
    requires wrap >= 0x1_0000 && Capture.Healthy(s) && s.timer + 1 < wrap && s.rawlen < 101
    ensures s.state == Capture.Idle ==>
              (Capture.Tick(s, Mark, wrap).state == Capture.InMark <==> 5000 <= 50 * (s.timer + 1))
    ensures s.state == Capture.InSpace ==>
              (Capture.Tick(s, Space, wrap).state == Capture.Stop <==> 5000 < 50 * (s.timer + 1))
  {
  }
}

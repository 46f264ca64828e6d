// From the sender's bits to the decoder's value through the capture interrupt.
module RcOverTheAir {
  import opened Bits
  import opened Sequences
  import opened Signal
  import opened RcCodes
  import opened RcRoundTrip
  import Capture

  lemma OddWithoutTrailingSpace(merged: seq<Pulse>)
    requires merged != [] && merged[0].level == Mark && Alternating(merged)
    ensures |DropTrailingSpace(merged)| % 2 == 1
  {
    AlternatesFromMark(merged, |merged| - 1);
  }

  // What is seen of a message begins and ends with a mark.
  lemma SeenRunsAreOdd(code: Code, bits: seq<bool>)
    ensures |SeenRuns(code, bits)| % 2 == 1 && |SeenRuns(code, bits)| > |Header(code)|
  {
    BodyMerges(code, bits, T1(code));
    SeenIsHeaderAndBody(code, bits);
    var merged := DropTrailingSpace(Merge(Body(code, bits)));
    OddWithoutTrailingSpace(Merge(Body(code, bits)));
    BehindHeader(code, merged, SeenRuns(code, bits));
  }

  lemma BehindHeader(code: Code, merged: seq<Pulse>, seen: seq<Pulse>)
    requires seen == Header(code) + merged && |merged| % 2 == 1
    ensures |seen| % 2 == 1 && |seen| > |Header(code)|
  {
  }

  lemma BodyUnits(code: Code, bits: seq<bool>, i: nat)
    requires |Header(code)| <= i < |SeenRuns(code, bits)|
    ensures SeenRuns(code, bits)[i].usec / T1(code) > 0
  {
    SeenIsHeaderAndBody(code, bits);
    RunsOfBody(code, bits, i - |Header(code)|);
    assert SeenRuns(code, bits)[i] == Merge(Body(code, bits))[i - |Header(code)|];
  }

  // No recorded width is lost or mistaken for a gap.
  lemma WidthsFit(code: Code, bits: seq<bool>, widths: seq<nat>, wrap: nat)
    requires |bits| <= 32 && WidthsOf(code, bits, widths) && wrap > Capture.GAP_TICKS + 1
    ensures Capture.Fitting(widths, wrap) && |widths| % 2 == 1
  {
    SeenRunsAreOdd(code, bits);
    NominalCapture(code, bits);
    forall i | 0 <= i < |widths|
      ensures 1 <= widths[i] <= 70
    {
      if i >= |Header(code)| {
        BodyUnits(code, bits, i);
      } else {
        assert i == 0 || i == 1;
      }
    }
  }

  // A receiver hears silence, then the message with any widths it takes for the message's
  // runs, then silence again: once it stops, the decoder returns what was sent. RC5
  // messages of fewer than ten bits must also be long enough for its guard.
  lemma {:induction false} SentIsReceived(code: Code, data: nat, nbits: nat, s: Capture.Isr, before: nat,
                                          widths: seq<nat>, after: nat, wrap: nat)
    requires 1 <= nbits <= 32 && (code.Rc5? ==> nbits >= 10)
    requires WidthsOf(code, ToBits(data, nbits), widths)
    requires wrap > Capture.GAP_TICKS + 1 && Capture.Healthy(s) && s.state == Capture.Idle && s.timer < wrap
    requires Capture.UInt(s.timer + before + 1, wrap) >= Capture.GAP_TICKS && after >= Capture.GAP_TICKS + 2
    ensures var s' := Capture.Listen(s, Hold(Space, before) + Capture.Message(widths, after), wrap);
            && s'.state == Capture.Stop && !s'.overflow
            && Decode(code, s'.rawbuf, s'.rawlen) == Accept(nbits, data % Pow2(nbits))
  {
    var bits := ToBits(data, nbits);
    WidthsFit(code, bits, widths, wrap);
    Capture.ReceivesWidths(s, before, widths, after, wrap);
    var s' := Capture.Listen(s, Hold(Space, before) + Capture.Message(widths, after), wrap);
    DecodesTo(code, data, nbits, s'.rawbuf, s'.rawlen);
  }

  lemma {:induction false} DecodesTo(code: Code, data: nat, nbits: nat, buf: seq<nat>, rawlen: nat)
    requires 1 <= nbits <= 32 && (code.Rc5? ==> nbits >= 10)
    requires Captures(code, ToBits(data, nbits), buf, rawlen)
    ensures Decode(code, buf, rawlen) == Accept(nbits, data % Pow2(nbits))
  {
    RoundTrip(code, data, nbits, buf, rawlen);
    if code.Rc5? { Rc5RoundTrip(data, nbits, buf, rawlen); }
  }
}

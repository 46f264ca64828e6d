// What was sent with RC5 or RC6 is what is decoded, whatever tolerated width each
// recorded run has.
module RcRoundTrip {
  import opened Bits
  import opened MachineWords
  import opened Sequences
  import opened Signal
  import opened RcCodes

  // The runs a receiver can see of a message.
  function SeenRuns(code: Code, bits: seq<bool>): seq<Pulse> {
    DropTrailingSpace(Merge(Transmission(code, bits)))
  }

  // Widths a receiver takes for these runs: a header within the header's tolerance, then
  // each run for its number of time units.
  ghost predicate WidthsOf(code: Code, bits: seq<bool>, widths: seq<nat>) {
    && |widths| == |SeenRuns(code, bits)|
    && (code.Rc6? && |widths| >= 2 ==>
          MatchMark(widths[0], RC6_HDR_MARK) && MatchSpace(widths[1], RC6_HDR_SPACE))
    && forall i :: |Header(code)| <= i < |widths| ==>
         Units(widths[i], SeenRuns(code, bits)[i].level, T1(code)) == SeenRuns(code, bits)[i].usec / T1(code)
  }

  // A recording of the message: slot 0 is the gap.
  ghost predicate Captures(code: Code, bits: seq<bool>, buf: seq<nat>, rawlen: nat) {
    1 <= rawlen <= |buf| == RAWBUF && WidthsOf(code, bits, buf[1..rawlen])
  }

  // ----- From pulses to levels ---------------------------------------------------

  lemma {:induction false} EncodeSnoc(code: Code, bits: seq<bool>, b: bool, i: nat)
    ensures Encode(code, bits + [b], i) == Encode(code, bits, i) + Halves(code, b, i + |bits|)
    decreases |bits|
  {
    if bits == [] {
      assert Encode(code, [], i + 1) == [];
    } else {
      assert (bits + [b])[1..] == bits[1..] + [b];
      EncodeSnoc(code, bits[1..], b, i + 1);
      Associative(Halves(code, bits[0], i), Encode(code, bits[1..], i + 1), Halves(code, b, i + |bits|));
    }
  }

  lemma TimesDiv(n: nat, d: nat)
    requires d > 0
    ensures (n * d) % d == 0 && (n * d) / d == n
  {
    DivModUnique(n * d, d, n, 0);
  }

  lemma {:induction false} SpreadTwo(trace: seq<Pulse>, p: Pulse, q: Pulse, unit: nat)
    requires unit > 0
    ensures p.usec % unit == 0 && q.usec % unit == 0 && Whole(trace, unit) ==> Whole(trace + [p, q], unit)
    ensures Spread(trace + [p, q], unit)
         == Spread(trace, unit) + (Hold(p.level, p.usec / unit) + Hold(q.level, q.usec / unit))
  {
    assert trace + [p, q] == trace + [p] + [q];
    SpreadSnoc(trace, p, unit);
    SpreadSnoc(trace + [p], q, unit);
    WholeSnoc(trace, p, unit);
    WholeSnoc(trace + [p], q, unit);
  }

  lemma SpreadStart(code: Code)
    ensures Whole(StartPulses(code), T1(code)) && Spread(StartPulses(code), T1(code)) == Start(code)
  {
    var t := T1(code);
    SpreadTwo([], Pulse(Mark, t), Pulse(Space, t), t);
    assert [] + [Pulse(Mark, t), Pulse(Space, t)] == [Pulse(Mark, t), Pulse(Space, t)];
    if code.Rc5? {
      SpreadSnoc([Pulse(Mark, t), Pulse(Space, t)], Pulse(Mark, t), t);
      WholeSnoc([Pulse(Mark, t), Pulse(Space, t)], Pulse(Mark, t), t);
      assert StartPulses(code) == [Pulse(Mark, t), Pulse(Space, t)] + [Pulse(Mark, t)];
    }
  }

  lemma HalvesOfPulses(code: Code, bit: bool, i: nat)
    ensures HalfUsec(code, i) % T1(code) == 0 && HalfUsec(code, i) / T1(code) == HalfWidth(code, i)
    ensures var pq := BitPulses(code, bit, i);
            Hold(pq[0].level, pq[0].usec / T1(code)) + Hold(pq[1].level, pq[1].usec / T1(code)) == Halves(code, bit, i)
  {
    TimesDiv(HalfWidth(code, i), T1(code));
  }

  // A body, cut into time units, is the half-bit code of its bits.
  lemma {:induction false} SpreadBody(code: Code, bits: seq<bool>)
    ensures Whole(Body(code, bits), T1(code))
    ensures Spread(Body(code, bits), T1(code)) == HalfBits(code, bits)
    decreases |bits|
  {
    if bits == [] {
      SpreadStart(code);
    } else {
      var init, b, i := Init(bits), Last(bits), |bits| - 1;
      SpreadBody(code, init);
      HalvesOfPulses(code, b, i);
      var pq := BitPulses(code, b, i);
      SpreadTwo(Body(code, init), pq[0], pq[1], T1(code));
      assert bits == init + [b];
      EncodeSnoc(code, init, b, 0);
      Associative(Start(code), Encode(code, init, 0), Halves(code, b, i));
    }
  }

  lemma {:induction false} BodyOpens(code: Code, bits: seq<bool>)
    ensures Body(code, bits) != [] && Body(code, bits)[0] == Pulse(Mark, T1(code))
    decreases |bits|
  {
    if bits != [] {
      BodyOpens(code, Init(bits));
    }
  }

  lemma HeaderMerges()
    ensures Merge(Header(Rc6)) == Header(Rc6)
  {
    var h := Header(Rc6);
    assert Init(h) == [h[0]] && Init(Init(h)) == [];
    assert Merge([h[0]]) == [h[0]];
  }

  lemma DropAfterHeader(header: seq<Pulse>, runs: seq<Pulse>)
    requires runs != []
    ensures DropTrailingSpace(header + runs) == header + DropTrailingSpace(runs)
  {
    assert Last(header + runs) == Last(runs);
    assert Init(header + runs) == header + Init(runs);
  }

  // The closing `space(0)` leaves no trace, and the header keeps its two runs.
  lemma {:induction false} SeenIsHeaderAndBody(code: Code, bits: seq<bool>)
    ensures Merge(Body(code, bits)) != [] && Merge(Body(code, bits))[0].level == Mark
    ensures SeenRuns(code, bits) == Header(code) + DropTrailingSpace(Merge(Body(code, bits)))
  {
    var h, body := Header(code), Body(code, bits);
    BodyOpens(code, bits);
    MergeOpensWith(body);
    MergeSnoc(h + body, Pulse(Space, 0));
    DropAfterHeader(h, Merge(body));
    assert Merge(h + body) == h + Merge(body) by {
      if code.Rc5? {
        assert h + body == body && h + Merge(body) == Merge(body);
      } else {
        HeaderMerges();
        MergeAfterHeader(h, body);
      }
    }
  }

  // ----- From recorded widths to the tape -----------------------------------------

  lemma {:induction false} AlternatesFromMark(runs: seq<Pulse>, i: nat)
    requires Alternating(runs) && i < |runs| && runs[0].level == Mark
    ensures runs[i].level == if i % 2 == 0 then Mark else Space
  {
    if i > 0 {
      AlternatesFromMark(runs, i - 1);
    }
  }

  lemma {:induction false} TapeSnoc(buf: seq<nat>, from: nat, upto: nat, t1: nat)
    requires from <= upto < |buf|
    ensures Tape(buf, upto + 1, from, t1) == Tape(buf, upto, from, t1) + Readings(buf[upto], upto, t1)
    decreases upto - from
  {
    if from < upto {
      TapeSnoc(buf, from + 1, upto, t1);
    } else {
      assert Tape(buf, upto + 1, upto + 1, t1) == [];
    }
  }

  function Played(levels: seq<Level>): (tape: seq<Reading>)
    ensures |tape| == |levels|
    ensures forall i :: 0 <= i < |levels| ==> tape[i] == Read(levels[i])
  {
    seq(|levels|, i requires 0 <= i < |levels| => Read(levels[i]))
  }

  // Slot `from + i` of the buffer is taken for run i.
  ghost predicate Fits(run: Pulse, width: nat, offset: nat, t1: nat)
    requires t1 > 0
  {
    && run.level == LevelAt(offset)
    && Units(width, run.level, t1) == run.usec / t1 > 0
  }

  // Widths that fit their runs read back as the levels of those runs.
  lemma {:induction false} TapeOfRuns(runs: seq<Pulse>, buf: seq<nat>, from: nat, t1: nat)
    requires t1 > 0 && from + |runs| <= |buf|
    requires forall i :: 0 <= i < |runs| ==> Fits(runs[i], buf[from + i], from + i, t1)
    ensures Tape(buf, from + |runs|, from, t1) == Played(Spread(runs, t1))
    decreases |runs|
  {
    if runs != [] {
      var n, run := |runs| - 1, Last(runs);
      TapeOfRuns(Init(runs), buf, from, t1);
      TapeSnoc(buf, from, from + n, t1);
    }
  }

  lemma DropTrailingSpaceSpread(runs: seq<Pulse>, unit: nat) returns (n: nat)
    requires unit > 0
    ensures Spread(runs, unit) == Spread(DropTrailingSpace(runs), unit) + Hold(Space, n)
  {
    if runs != [] && Last(runs).level == Space {
      n := Last(runs).usec / unit;
    } else {
      n := 0;
    }
  }

  // Slots `from`.. of the buffer have the unit counts of these runs.
  ghost predicate UnitsMatch(runs: seq<Pulse>, buf: seq<nat>, from: nat, unit: nat)
    requires unit > 0
  {
    && from + |runs| <= |buf|
    && forall i :: 0 <= i < |runs| ==> Units(buf[from + i], runs[i].level, unit) == runs[i].usec / unit
  }

  lemma SkipHeader(header: seq<Pulse>, runs: seq<Pulse>, widths: seq<nat>, buf: seq<nat>, unit: nat)
    requires unit > 0 && |widths| == |header + runs| < |buf| && buf[1..|widths| + 1] == widths
    requires forall i :: |header| <= i < |widths| ==>
               Units(widths[i], (header + runs)[i].level, unit) == (header + runs)[i].usec / unit
    ensures UnitsMatch(runs, buf, |header| + 1, unit)
  {
    forall i | 0 <= i < |runs|
      ensures Units(buf[|header| + 1 + i], runs[i].level, unit) == runs[i].usec / unit
    {
      assert widths[|header| + i] == buf[|header| + 1 + i];
      assert (header + runs)[|header| + i] == runs[i];
    }
  }

  lemma {:induction false} RunFits(merged: seq<Pulse>, i: nat, unit: nat, from: nat)
    requires unit > 0 && Alternating(merged) && Whole(merged, unit) && from % 2 == 1
    requires i < |DropTrailingSpace(merged)| && merged[0].level == Mark
    ensures var run := DropTrailingSpace(merged)[i];
            run.level == LevelAt(from + i) && run.usec / unit > 0
  {
    AlternatesFromMark(merged, i);
    WholeAt(merged, i, unit);
  }

  lemma {:induction false} RunsFit(merged: seq<Pulse>, buf: seq<nat>, from: nat, unit: nat)
    requires unit > 0 && Alternating(merged) && Whole(merged, unit) && from % 2 == 1
    requires merged != [] && merged[0].level == Mark
    requires UnitsMatch(DropTrailingSpace(merged), buf, from, unit)
    ensures var runs := DropTrailingSpace(merged);
            forall i :: 0 <= i < |runs| ==> Fits(runs[i], buf[from + i], from + i, unit)
  {
    var runs := DropTrailingSpace(merged);
    forall i | 0 <= i < |runs|
      ensures Fits(runs[i], buf[from + i], from + i, unit)
    {
      RunFits(merged, i, unit, from);
    }
  }

  lemma {:induction false} BodyMerges(code: Code, bits: seq<bool>, unit: nat)
    requires unit == T1(code)
    ensures var merged := Merge(Body(code, bits));
            && merged != [] && merged[0].level == Mark
            && Alternating(merged) && Whole(merged, unit)
            && Spread(merged, unit) == HalfBits(code, bits)
  {
    SeenIsHeaderAndBody(code, bits);
    SpreadBody(code, bits);
    MergeKeepsLevels(Body(code, bits), unit);
  }

  // What a capture says about the entries behind the header.
  ghost predicate BodyMatches(code: Code, bits: seq<bool>, buf: seq<nat>, rawlen: nat) {
    var runs := DropTrailingSpace(Merge(Body(code, bits)));
    rawlen == FirstOffset(code) + |runs| && UnitsMatch(runs, buf, FirstOffset(code), T1(code))
  }

  lemma CaptureMatches(code: Code, bits: seq<bool>, buf: seq<nat>, rawlen: nat)
    requires Captures(code, bits, buf, rawlen)
    ensures BodyMatches(code, bits, buf, rawlen)
  {
    SeenIsHeaderAndBody(code, bits);
    HeaderLength(code);
    SkipHeader(Header(code), DropTrailingSpace(Merge(Body(code, bits))), buf[1..rawlen], buf, T1(code));
  }

  lemma HeaderLength(code: Code)
    ensures |Header(code)| + 1 == FirstOffset(code)
  {
  }

  lemma {:induction false} TapeOfMerged(merged: seq<Pulse>, runs: seq<Pulse>, buf: seq<nat>, rawlen: nat, from: nat,
                                        unit: nat)
    requires unit > 0 && Alternating(merged) && Whole(merged, unit) && from % 2 == 1
    requires merged != [] && merged[0].level == Mark && runs == DropTrailingSpace(merged)
    requires UnitsMatch(runs, buf, from, unit) && rawlen == from + |runs|
    ensures Tape(buf, rawlen, from, unit) == Played(Spread(runs, unit))
  {
    RunsFit(merged, buf, from, unit);
    TapeOfRuns(runs, buf, from, unit);
  }

  lemma {:induction false} TapePlays(merged: seq<Pulse>, levels: seq<Level>, buf: seq<nat>, rawlen: nat, from: nat,
                                     unit: nat)
    requires unit > 0 && Alternating(merged) && Whole(merged, unit) && from % 2 == 1
    requires merged != [] && merged[0].level == Mark && levels == Spread(merged, unit)
    requires rawlen == from + |DropTrailingSpace(merged)| && UnitsMatch(DropTrailingSpace(merged), buf, from, unit)
    ensures Plays(Tape(buf, rawlen, from, unit), levels)
  {
    var runs, tape := DropTrailingSpace(merged), Tape(buf, rawlen, from, unit);
    TapeOfMerged(merged, runs, buf, rawlen, from, unit);
    var n := DropTrailingSpaceSpread(merged, unit);
    PlaysWithTail(tape, Spread(runs, unit), n, levels);
  }

  lemma PlaysWithTail(tape: seq<Reading>, heard: seq<Level>, n: nat, levels: seq<Level>)
    requires tape == Played(heard) && levels == heard + Hold(Space, n)
    ensures Plays(tape, levels)
  {
  }

  lemma {:induction false} MergedPlays(code: Code, bits: seq<bool>, merged: seq<Pulse>, buf: seq<nat>, rawlen: nat,
                                       from: nat, unit: nat)
    requires unit == T1(code) && from % 2 == 1 && merged == Merge(Body(code, bits))
    requires rawlen == from + |DropTrailingSpace(merged)| && UnitsMatch(DropTrailingSpace(merged), buf, from, unit)
    ensures Plays(Tape(buf, rawlen, from, unit), HalfBits(code, bits))
  {
    BodyMerges(code, bits, unit);
    TapePlays(merged, HalfBits(code, bits), buf, rawlen, from, unit);
  }

  lemma {:induction false} BodyPlays(code: Code, bits: seq<bool>, buf: seq<nat>, rawlen: nat)
    requires BodyMatches(code, bits, buf, rawlen)
    ensures rawlen >= FirstOffset(code)
    ensures Plays(Tape(buf, rawlen, FirstOffset(code), T1(code)), HalfBits(code, bits))
  {
    MergedPlays(code, bits, Merge(Body(code, bits)), buf, rawlen, FirstOffset(code), T1(code));
  }

  // ----- The round trip -------------------------------------------------------------

  lemma {:induction false} WordHolds(data: nat, nbits: nat)
    requires nbits <= 32
    ensures Value(ToBits(data, nbits)) == data % Pow2(nbits) < WORD
  {
    ValueOfToBits(data, nbits);
    Pow2Grows(nbits, 32);
    WordSizes();
  }

  lemma {:induction false} ShiftedBits(data: nat, nbits: nat)
    requires nbits <= 32
    ensures ShiftAll(0, ToBits(data, nbits)) == data % Pow2(nbits)
  {
    ShiftedValue(ToBits(data, nbits));
    WordHolds(data, nbits);
    SmallMod(Value(ToBits(data, nbits)), WORD);
  }

  // Every capture of what SendRC5 or SendRC6 emits for the low bits of a word decodes to
  // exactly those bits, provided the decoder admits its length; RC6 always does.
  lemma {:induction false} RoundTrip(code: Code, data: nat, nbits: nat, buf: seq<nat>, rawlen: nat)
    requires 1 <= nbits <= 32 && Captures(code, ToBits(data, nbits), buf, rawlen)
    ensures Decode(code, buf, rawlen) ==
            if code.Rc6? || rawlen >= MIN_RC5_SAMPLES + 2 then Accept(nbits, data % Pow2(nbits)) else Reject
  {
    var bits := ToBits(data, nbits);
    CaptureMatches(code, bits, buf, rawlen);
    BodyPlays(code, bits, buf, rawlen);
    ShiftedBits(data, nbits);
    PlayedResult(code, Tape(buf, rawlen, FirstOffset(code), T1(code)), bits);
    if code.Rc6? { HeaderAdmitted(bits, buf, rawlen); }
  }

  lemma {:induction false} PlayedResult(code: Code, tape: seq<Reading>, bits: seq<bool>)
    requires Plays(tape, HalfBits(code, bits))
    ensures Result(ParseAll(code, tape)) == Accept(|bits|, ShiftAll(0, bits))
  {
    AcceptsExactlyTransmissions(code, tape, bits);
  }

  lemma HeaderAdmitted(bits: seq<bool>, buf: seq<nat>, rawlen: nat)
    requires Captures(Rc6, bits, buf, rawlen)
    ensures Admitted(Rc6, buf, rawlen)
  {
    SeenIsHeaderAndBody(Rc6, bits);
    assert buf[1..rawlen][0] == buf[1] && buf[1..rawlen][1] == buf[2];
  }

  // ----- How long an RC5 recording is -------------------------------------------------

  // Neighbouring equal bits, the start bit (a one) counted as the first neighbour.
  function Repeats(bits: seq<bool>): nat {
    if bits == [] then 0
    else Repeats(Init(bits)) + if Last(bits) == (if |bits| == 1 then true else bits[|bits| - 2]) then 1 else 0
  }

  // The last run of a body is the second half of its last bit.
  function LastPulse(code: Code, bits: seq<bool>): Pulse {
    if bits == [] then Last(StartPulses(code)) else BitPulses(code, Last(bits), |bits| - 1)[1]
  }

  lemma {:induction false} MergeTwo(trace: seq<Pulse>, p: Pulse, q: Pulse)
    requires Merge(trace) != [] && p.usec > 0 && q.usec > 0 && p.level != q.level
    ensures var runs := Merge(trace);
            Merge(trace + [p] + [q]) ==
            if Last(runs).level == p.level then Init(runs) + [Pulse(p.level, Last(runs).usec + p.usec), q]
            else runs + [p, q]
  {
    MergeSnoc(trace, p);
    MergeSnoc(trace + [p], q);
  }

  // One more bit adds one run, or two when it repeats the one before.
  lemma {:induction false} MergeBit(code: Code, bits: seq<bool>)
    requires bits != [] && Merge(Body(code, Init(bits))) != []
    requires Last(Merge(Body(code, Init(bits)))) == LastPulse(code, Init(bits))
    ensures var runs, pq := Merge(Body(code, Init(bits))), BitPulses(code, Last(bits), |bits| - 1);
            Merge(Body(code, bits)) ==
            if Last(runs).level == pq[0].level
            then Init(runs) + [Pulse(pq[0].level, Last(runs).usec + pq[0].usec), pq[1]]
            else runs + [pq[0], pq[1]]
  {
    var runs, pq := Merge(Body(code, Init(bits))), BitPulses(code, Last(bits), |bits| - 1);
    assert Body(code, bits) == Body(code, Init(bits)) + [pq[0]] + [pq[1]];
    assert HalfUsec(code, |bits| - 1) > 0;
    MergeTwo(Body(code, Init(bits)), pq[0], pq[1]);
  }

  lemma {:induction false} LastRunOfBody(code: Code, bits: seq<bool>)
    ensures var runs := Merge(Body(code, bits));
            runs != [] && Last(runs) == LastPulse(code, bits) && |runs| <= 3 + 2 * |bits|
    decreases |bits|
  {
    if bits == [] {
      MergeStart(code);
    } else {
      LastRunOfBody(code, Init(bits));
      MergeBit(code, bits);
    }
  }

  // No run is longer than a double-width half beside a single one.
  lemma {:induction false} RunsOfBody(code: Code, bits: seq<bool>, i: nat)
    requires i < |Merge(Body(code, bits))|
    ensures OneToThree(code, Merge(Body(code, bits))[i])
    decreases |bits|
  {
    if bits == [] {
      MergeStart(code);
    } else {
      var runs, merged := Merge(Body(code, Init(bits))), Merge(Body(code, bits));
      LastRunOfBody(code, Init(bits));
      MergeBit(code, bits);
      if i < |runs| && merged[i] == runs[i] {
        RunsOfBody(code, Init(bits), i);
      } else {
        NewRun(code, bits, runs, merged, i);
      }
    }
  }

  // A run that the last bit added or lengthened.
  lemma NewRun(code: Code, bits: seq<bool>, runs: seq<Pulse>, merged: seq<Pulse>, i: nat)
    requires bits != [] && runs != [] && Last(runs) == LastPulse(code, Init(bits))
    requires var pq := BitPulses(code, Last(bits), |bits| - 1);
             merged == if Last(runs).level == pq[0].level
                       then Init(runs) + [Pulse(pq[0].level, Last(runs).usec + pq[0].usec), pq[1]]
                       else runs + [pq[0], pq[1]]
    requires i < |merged| && (i >= |runs| || merged[i] != runs[i])
    ensures OneToThree(code, merged[i])
  {
    var pq := BitPulses(code, Last(bits), |bits| - 1);
    if i + 1 == |merged| {
      assert merged[i] == pq[1];
    } else if Last(runs).level == pq[0].level {
      assert merged[i] == Pulse(pq[0].level, Last(runs).usec + pq[0].usec);
    } else {
      assert merged[i] == pq[0];
    }
  }

  predicate OneToThree(code: Code, run: Pulse) {
    run.usec == T1(code) || run.usec == 2 * T1(code) || run.usec == 3 * T1(code)
  }

  lemma {:induction false} Rc5RunCount(bits: seq<bool>)
    ensures |Merge(Body(Rc5, bits))| == 3 + |bits| + Repeats(bits)
    decreases |bits|
  {
    if bits == [] {
      MergeStart(Rc5);
    } else {
      Rc5RunCount(Init(bits));
      LastRunOfBody(Rc5, Init(bits));
      MergeBit(Rc5, bits);
    }
  }

  lemma MergeStart(code: Code)
    ensures Merge(StartPulses(code)) == StartPulses(code)
  {
    var s := StartPulses(code);
    assert Merge([]) == [];
    MergeSnoc([], s[0]);
    assert [] + [s[0]] == [s[0]];
    MergeSnoc([s[0]], s[1]);
    assert [s[0]] + [s[1]] == [s[0], s[1]];
    if code.Rc5? {
      MergeSnoc([s[0], s[1]], s[2]);
      assert [s[0], s[1]] + [s[2]] == s;
    } else {
      assert s == [s[0], s[1]];
    }
  }

  // The exact length of every RC5 recording, hence exactly when the decoder's minimum
  // length admits it: always from ten bits on.
  lemma {:induction false} Rc5Length(bits: seq<bool>)
    requires bits != []
    ensures |SeenRuns(Rc5, bits)| + 1 == 4 + |bits| + Repeats(bits) - (if Last(bits) then 0 else 1)
    ensures |bits| >= 10 ==> |SeenRuns(Rc5, bits)| + 1 >= MIN_RC5_SAMPLES + 2
  {
    SeenIsHeaderAndBody(Rc5, bits);
    LastRunOfBody(Rc5, bits);
    Rc5RunCount(bits);
    assert Header(Rc5) + DropTrailingSpace(Merge(Body(Rc5, bits))) == DropTrailingSpace(Merge(Body(Rc5, bits)));
  }

  lemma {:induction false} Rc5RoundTrip(data: nat, nbits: nat, buf: seq<nat>, rawlen: nat)
    requires 10 <= nbits <= 32 && Captures(Rc5, ToBits(data, nbits), buf, rawlen)
    ensures Decode(Rc5, buf, rawlen) == Accept(nbits, data % Pow2(nbits))
  {
    RoundTrip(Rc5, data, nbits, buf, rawlen);
    Rc5Length(ToBits(data, nbits));
  }

  // Below ten bits some messages are too short for the decoder: for these lengths the
  // round trip holds exactly when the bits repeat often enough.
  lemma {:induction false} Rc5ShortRoundTrip(data: nat, nbits: nat, buf: seq<nat>, rawlen: nat)
    requires 1 <= nbits <= 32 && Captures(Rc5, ToBits(data, nbits), buf, rawlen)
    ensures Decode(Rc5, buf, rawlen) == Accept(nbits, data % Pow2(nbits))
       <==> nbits + Repeats(ToBits(data, nbits)) >= 9 + (if data % 2 == 1 then 0 else 1)
  {
    RoundTrip(Rc5, data, nbits, buf, rawlen);
    Rc5Length(ToBits(data, nbits));
  }

  // ----- Every message has a capture ----------------------------------------------------

  function NominalWidth(run: Pulse): nat {
    (if run.level == Mark then run.usec + MARK_EXCESS
     else if run.usec >= MARK_EXCESS then run.usec - MARK_EXCESS else 0) / USEC_PER_TICK
  }

  lemma NominalUnits(code: Code, run: Pulse)
    requires OneToThree(code, run)
    ensures Units(NominalWidth(run), run.level, T1(code)) == run.usec / T1(code)
  {
  }

  function NominalWidths(runs: seq<Pulse>): (widths: seq<nat>)
    ensures |widths| == |runs|
    ensures forall i :: 0 <= i < |runs| ==> widths[i] == NominalWidth(runs[i])
  {
    seq(|runs|, i requires 0 <= i < |runs| => NominalWidth(runs[i]))
  }

  // The nominal widths, marks 100 us long and spaces 100 us short, are one recording of
  // every message, and no 32-bit message comes near the end of the buffer.
  lemma NominalCapture(code: Code, bits: seq<bool>)
    ensures WidthsOf(code, bits, NominalWidths(SeenRuns(code, bits)))
    ensures |bits| <= 32 ==> |SeenRuns(code, bits)| < 70
  {
    var runs := SeenRuns(code, bits);
    var body := DropTrailingSpace(Merge(Body(code, bits)));
    SeenIsHeaderAndBody(code, bits);
    LastRunOfBody(code, bits);
    forall i | |Header(code)| <= i < |runs|
      ensures Units(NominalWidth(runs[i]), runs[i].level, T1(code)) == runs[i].usec / T1(code)
    {
      assert runs[i] == body[i - |Header(code)|];
      RunsOfBody(code, bits, i - |Header(code)|);
      NominalUnits(code, runs[i]);
    }
  }
}

// What the generic decoder recovers from the generic sender, with jitter on every width.
module PulseRoundTrip {
  import opened Bits
  import opened MachineWords
  import opened Sequences
  import opened Signal
  import opened PulseCodec

  // Every width lies in a window the sender aimed at: a 1 in the one-windows, a 0 in the
  // zero-windows.
  ghost predicate InWindows(t: Timing, bits: seq<bool>, buf: seq<nat>) {
    2 * |bits| <= |buf| &&
    forall i :: 0 <= i < |bits| ==>
      if bits[i] then IsOne(t, buf[2 * i], buf[2 * i + 1]) else IsZero(t, buf[2 * i], buf[2 * i + 1])
  }

  // Every width lies in the window of the pulse it measures.
  ghost predicate Captured(t: Timing, trace: seq<Pulse>, buf: seq<nat>) {
    |trace| <= |buf| &&
    forall j :: 0 <= j < |trace| ==>
      if trace[j].level == Mark then MatchMark(buf[j], trace[j].usec, t.tolerance, t.excess)
      else MatchSpace(buf[j], trace[j].usec, t.tolerance, t.excess)
  }

  lemma {:induction false} PulsesAt(t: Timing, bits: seq<bool>, i: nat)
    requires i < |bits|
    ensures |Pulses(t, bits)| == 2 * |bits|
    ensures Pulses(t, bits)[2 * i] == BitPulses(t, bits[i])[0]
    ensures Pulses(t, bits)[2 * i + 1] == BitPulses(t, bits[i])[1]
  {
    if i < |bits| - 1 {
      PulsesAt(t, Init(bits), i);
    } else if |bits| > 1 {
      PulsesAt(t, Init(bits), 0);
    } else {
      assert Init(bits) == [];
    }
  }

  lemma {:induction false} CapturedIsInWindows(t: Timing, bits: seq<bool>, buf: seq<nat>)
    requires Captured(t, Pulses(t, bits), buf)
    ensures InWindows(t, bits, buf)
  {
    if bits != [] {
      PulsesAt(t, bits, 0);
    }
    forall i | 0 <= i < |bits|
      ensures if bits[i] then IsOne(t, buf[2 * i], buf[2 * i + 1]) else IsZero(t, buf[2 * i], buf[2 * i + 1])
    {
      PulsesAt(t, bits, i);
    }
  }

  // No 0 also lies in the one-windows, which the decoder tries first.
  ghost predicate Separated(t: Timing, bits: seq<bool>, buf: seq<nat>)
    requires 2 * |bits| <= |buf|
  {
    forall i :: 0 <= i < |bits| && !bits[i] ==> !IsOne(t, buf[2 * i], buf[2 * i + 1])
  }

  lemma ReceivedIsSent(t: Timing, bits: seq<bool>, buf: seq<nat>)
    requires InWindows(t, bits, buf)
    ensures Received(t, buf, |bits|) == bits <==> Separated(t, bits, buf)
  {
    var got := Received(t, buf, |bits|);
    if got == bits {
      forall i | 0 <= i < |bits| && !bits[i]
        ensures !IsOne(t, buf[2 * i], buf[2 * i + 1])
      {
        assert got[i] == bits[i];
      }
    }
  }

  // ----- The collected word -----------------------------------------------------------------

  lemma ModStep(x: nat, b: nat)
    ensures (2 * (x % W64) + b) % W64 == (2 * x + b) % W64
  {
  }

  // Shifting through 64 bits keeps the number the bits spell, modulo 2^64.
  lemma {:induction false} ShiftedIsValue(bits: seq<bool>)
    ensures Shifted(bits) == Value(bits) % W64
  {
    if bits != [] {
      var init := bits[..|bits| - 1];
      ShiftedIsValue(init);
      ModStep(Value(init), Digit(bits[|bits| - 1]));
    }
  }

  lemma {:induction false} ShortShifted(bits: seq<bool>)
    requires |bits| <= 64
    ensures Shifted(bits) == Value(bits)
  {
    ShiftedIsValue(bits);
    ToBitsOfValue(bits);
    Pow2Grows(|bits|, 64);
    WordSizes();
    SmallMod(Value(bits), W64);
  }

  lemma {:induction false} WordValue(bits: seq<bool>, msbFirst: bool)
    requires |bits| <= 64
    ensures WordOf(bits, msbFirst) == Value(if msbFirst then bits else Reversed(bits))
  {
    ShortShifted(bits);
    ReversedValue(Shifted(bits), bits);
  }

  // The sent bits, read in the order they were asked for, spell the data.
  lemma {:induction false} SentValue(data: nat, n: nat, msbFirst: bool)
    ensures var bits := SentBits(data, n, msbFirst);
            Value(if msbFirst then bits else Reversed(bits)) == data % Pow2(n)
  {
    ValueOfToBits(data, n);
    ReversedToBits(data, n);
  }

  lemma {:induction false} SameValueSameBits(a: seq<bool>, b: seq<bool>)
    requires |a| == |b| && Value(a) == Value(b)
    ensures a == b
  {
    ToBitsOfValue(a);
    ToBitsOfValue(b);
  }

  lemma {:induction false} ReversedTwice(a: seq<bool>)
    ensures Reversed(Reversed(a)) == a
  {
  }

  // A word holds the data exactly when the bits heard are the bits sent.
  lemma {:induction false} WordIsData(data: nat, n: nat, msbFirst: bool, got: seq<bool>)
    requires |got| == n <= 64
    ensures WordOf(got, msbFirst) == data % Pow2(n) <==> got == SentBits(data, n, msbFirst)
  {
    var bits := SentBits(data, n, msbFirst);
    WordValue(got, msbFirst);
    SentValue(data, n, msbFirst);
    if WordOf(got, msbFirst) == data % Pow2(n) {
      if msbFirst {
        SameValueSameBits(got, bits);
      } else {
        SameValueSameBits(Reversed(got), Reversed(bits));
        ReversedTwice(got);
        ReversedTwice(bits);
      }
    }
  }

  lemma {:induction false} InWindowsDecodes(t: Timing, data: nat, n: nat, msbFirst: bool, buf: seq<nat>)
    requires n <= 64 && InWindows(t, SentBits(data, n, msbFirst), buf)
    ensures var r := Matched(t, buf, n, msbFirst);
            r.success && r.used == 2 * n &&
            (r.data == data % Pow2(n) <==> Separated(t, SentBits(data, n, msbFirst), buf))
  {
    var bits := SentBits(data, n, msbFirst);
    ReceivedIsSent(t, bits, buf);
    WordIsData(data, n, msbFirst, Received(t, buf, n));
  }

  // Any data, any number of bits up to a word, either bit order, any timings: with every width
  // in the window of what was sent the decoder always succeeds, and it returns the data exactly
  // when no 0 could be taken for a 1.
  lemma {:induction false} RoundTrip(t: Timing, data: nat, n: nat, msbFirst: bool, buf: seq<nat>)
    requires n <= 64 && Captured(t, Pulses(t, SentBits(data, n, msbFirst)), buf)
    ensures 2 * n <= |buf|
    ensures var r := Matched(t, buf, n, msbFirst);
            r.success && r.used == 2 * n &&
            (r.data == data % Pow2(n) <==> Separated(t, SentBits(data, n, msbFirst), buf))
  {
    CapturedIsInWindows(t, SentBits(data, n, msbFirst), buf);
    InWindowsDecodes(t, data, n, msbFirst, buf);
  }

  // ----- Which timings are safe ---------------------------------------------------------------

  // Some pair of widths fits the windows of both bits.
  ghost predicate Ambiguous(t: Timing) {
    exists mark: nat, space: nat :: IsOne(t, mark, space) && IsZero(t, mark, space)
  }

  ghost predicate ComesBack(t: Timing, data: nat, n: nat, msbFirst: bool, buf: seq<nat>) {
    2 * n <= |buf| && Matched(t, buf, n, msbFirst) == MatchResult(true, data % Pow2(n), 2 * n)
  }

  // Every capture of every message of up to a word comes back.
  ghost predicate Safe(t: Timing) {
    forall data: nat, n: nat, msbFirst: bool, buf: seq<nat> ::
      n <= 64 && Captured(t, Pulses(t, SentBits(data, n, msbFirst)), buf) ==> ComesBack(t, data, n, msbFirst, buf)
  }

  lemma {:induction false} UnambiguousReads(t: Timing, data: nat, n: nat, msbFirst: bool, buf: seq<nat>)
    requires !Ambiguous(t) && n <= 64 && Captured(t, Pulses(t, SentBits(data, n, msbFirst)), buf)
    ensures ComesBack(t, data, n, msbFirst, buf)
  {
    var bits := SentBits(data, n, msbFirst);
    CapturedIsInWindows(t, bits, buf);
    forall i | 0 <= i < n && !bits[i]
      ensures !IsOne(t, buf[2 * i], buf[2 * i + 1])
    {
      assert IsZero(t, buf[2 * i], buf[2 * i + 1]);
    }
    RoundTrip(t, data, n, msbFirst, buf);
  }

  lemma {:induction false} OneZero(t: Timing)
    ensures SentBits(0, 1, true) == [false] && Pulses(t, [false]) == BitPulses(t, false)
  {
    assert Init([false]) == [] && Pulses(t, []) == [];
    assert ToBits(0, 1) == ToBits(0, 0) + [false];
  }

  lemma ZeroCaptured(t: Timing, mark: nat, space: nat)
    requires IsZero(t, mark, space)
    ensures Captured(t, BitPulses(t, false), [mark, space])
  {
  }

  // A single 0 heard in both windows comes back as a 1.
  lemma {:induction false} AmbiguousMisreads(t: Timing, mark: nat, space: nat)
    requires IsOne(t, mark, space) && IsZero(t, mark, space)
    ensures Captured(t, Pulses(t, SentBits(0, 1, true)), [mark, space])
    ensures !ComesBack(t, 0, 1, true, [mark, space])
  {
    var buf := [mark, space];
    OneZero(t);
    ZeroCaptured(t, mark, space);
    NotSeparated(t, buf);
    RoundTrip(t, 0, 1, true, buf);
  }

  lemma NotSeparated(t: Timing, buf: seq<nat>)
    requires |buf| == 2 && IsOne(t, buf[0], buf[1])
    ensures !Separated(t, [false], buf)
  {
    assert ![false][0] && IsOne(t, buf[2 * 0], buf[2 * 0 + 1]);
  }

  predicate Within(raw: nat, low: nat, high: nat) {
    low <= raw * RAW_TICK <= high
  }

  // Two ranges share a width that can be measured.
  predicate RangesMeet(lowA: nat, highA: nat, lowB: nat, highB: nat) {
    var raw := ((if lowA > lowB then lowA else lowB) + 1) / RAW_TICK;
    raw * RAW_TICK <= highA && raw * RAW_TICK <= highB
  }

  lemma RangesMeetExactly(lowA: nat, highA: nat, lowB: nat, highB: nat)
    ensures RangesMeet(lowA, highA, lowB, highB) <==>
            exists raw: nat :: Within(raw, lowA, highA) && Within(raw, lowB, highB)
  {
    if RangesMeet(lowA, highA, lowB, highB) {
      var raw := ((if lowA > lowB then lowA else lowB) + 1) / RAW_TICK;
      assert Within(raw, lowA, highA) && Within(raw, lowB, highB);
    }
  }

  ghost predicate ShareWidth(a: nat, b: nat, tolerance: nat) {
    exists raw: nat :: Match(raw, a, tolerance, 0) && Match(raw, b, tolerance, 0)
  }

  predicate WindowsMeet(a: nat, b: nat, tolerance: nat) {
    RangesMeet(TicksLow(a, tolerance, 0), TicksHigh(a, tolerance, 0), TicksLow(b, tolerance, 0),
        TicksHigh(b, tolerance, 0))
  }

  lemma MeetsExactly(a: nat, b: nat, tolerance: nat)
    ensures WindowsMeet(a, b, tolerance) <==> ShareWidth(a, b, tolerance)
  {
    var lowA, highA := TicksLow(a, tolerance, 0), TicksHigh(a, tolerance, 0);
    var lowB, highB := TicksLow(b, tolerance, 0), TicksHigh(b, tolerance, 0);
    assert forall raw: nat :: Match(raw, a, tolerance, 0) <==> Within(raw, lowA, highA);
    assert forall raw: nat :: Match(raw, b, tolerance, 0) <==> Within(raw, lowB, highB);
    RangesMeetExactly(lowA, highA, lowB, highB);
  }

  function MarkOf(usec: nat, t: Timing): nat {
    Word32(usec + t.excess)
  }

  function SpaceOf(usec: nat, t: Timing): nat {
    Word32(usec - t.excess)
  }

  // The windows of a 1 and a 0 overlap both in the mark and in the space.
  predicate Overlapping(t: Timing) {
    && WindowsMeet(MarkOf(t.onemark, t), MarkOf(t.zeromark, t), t.tolerance)
    && WindowsMeet(SpaceOf(t.onespace, t), SpaceOf(t.zerospace, t), t.tolerance)
  }

  lemma MarkMatches(t: Timing, mark: nat, usec: nat)
    ensures MatchMark(mark, usec, t.tolerance, t.excess) <==> Match(mark, MarkOf(usec, t), t.tolerance, 0)
  {
  }

  lemma SpaceMatches(t: Timing, space: nat, usec: nat)
    ensures MatchSpace(space, usec, t.tolerance, t.excess) <==> Match(space, SpaceOf(usec, t), t.tolerance, 0)
  {
  }

  lemma SharedPair(t: Timing, mark: nat, space: nat, oneMark: nat, zeroMark: nat, oneSpace: nat, zeroSpace: nat)
    requires oneMark == MarkOf(t.onemark, t) && zeroMark == MarkOf(t.zeromark, t)
    requires oneSpace == SpaceOf(t.onespace, t) && zeroSpace == SpaceOf(t.zerospace, t)
    ensures IsOne(t, mark, space) && IsZero(t, mark, space) <==>
            && Match(mark, oneMark, t.tolerance, 0) && Match(mark, zeroMark, t.tolerance, 0)
            && Match(space, oneSpace, t.tolerance, 0) && Match(space, zeroSpace, t.tolerance, 0)
  {
    MarkMatches(t, mark, t.onemark);
    MarkMatches(t, mark, t.zeromark);
    SpaceMatches(t, space, t.onespace);
    SpaceMatches(t, space, t.zerospace);
  }

  lemma AmbiguousExactly(t: Timing)
    ensures Ambiguous(t) <==> Overlapping(t)
  {
    var oneMark, zeroMark := MarkOf(t.onemark, t), MarkOf(t.zeromark, t);
    var oneSpace, zeroSpace := SpaceOf(t.onespace, t), SpaceOf(t.zerospace, t);
    MeetsExactly(oneMark, zeroMark, t.tolerance);
    MeetsExactly(oneSpace, zeroSpace, t.tolerance);
    if Ambiguous(t) {
      var mark: nat, space: nat :| IsOne(t, mark, space) && IsZero(t, mark, space);
      SharedPair(t, mark, space, oneMark, zeroMark, oneSpace, zeroSpace);
    }
    if ShareWidth(oneMark, zeroMark, t.tolerance) && ShareWidth(oneSpace, zeroSpace, t.tolerance) {
      var mark: nat :| Match(mark, oneMark, t.tolerance, 0) && Match(mark, zeroMark, t.tolerance, 0);
      var space: nat :| Match(space, oneSpace, t.tolerance, 0) && Match(space, zeroSpace, t.tolerance, 0);
      SharedPair(t, mark, space, oneMark, zeroMark, oneSpace, zeroSpace);
    }
  }

  // Every capture of every message of up to 64 bits, in either order, comes back exactly when the
  // windows of a 1 and a 0 do not overlap both in the mark and in the space.
  lemma SafeExactly(t: Timing)
    ensures Safe(t) <==> !Overlapping(t)
  {
    AmbiguousExactly(t);
    if Ambiguous(t) {
      var mark: nat, space: nat :| IsOne(t, mark, space) && IsZero(t, mark, space);
      AmbiguousMisreads(t, mark, space);
    } else {
      forall data: nat, n: nat, msbFirst: bool, buf: seq<nat>
        | n <= 64 && Captured(t, Pulses(t, SentBits(data, n, msbFirst)), buf)
        ensures ComesBack(t, data, n, msbFirst, buf)
      {
        UnambiguousReads(t, data, n, msbFirst, buf);
      }
    }
  }

  // ----- More bits than a word has ------------------------------------------------------------

  lemma {:induction false} ShrBit(x: nat, k: nat, j: nat)
    ensures Bit(Shr(x, k), j) == Bit(x, k + j)
  {
    if k > 0 {
      ShrBit(x / 2, k - 1, j);
    }
  }

  lemma ModSnoc(v: nat, b: nat, p: nat)
    requires p >= 1 && b <= 1
    ensures (2 * v + b) % (2 * p) == 2 * (v % p) + b
  {
    ModDouble(2 * v + b, p);
  }

  // Only the last 64 bits stay in a word.
  lemma {:induction false} LastWordOfBits(bits: seq<bool>, k: nat)
    requires k <= |bits|
    ensures Value(bits) % Pow2(k) == Value(bits[|bits| - k..])
  {
    if k > 0 {
      var init, b := bits[..|bits| - 1], bits[|bits| - 1];
      LastWordOfBits(init, k - 1);
      var low := bits[|bits| - k..];
      assert low[..|low| - 1] == init[|init| - (k - 1)..];
      ModSnoc(Value(init), Digit(b), Pow2(k - 1));
    }
  }

  // Beyond 64 bits the most significant bit first still returns all the data, but least
  // significant bit first the bits sent first are shifted out of the word: what comes back is
  // the data without its lowest n - 64 bits.
  lemma {:induction false} LongRoundTrip(t: Timing, data: nat, n: nat, msbFirst: bool, buf: seq<nat>)
    requires n > 64 && data < Pow2(64)
    requires Captured(t, Pulses(t, SentBits(data, n, msbFirst)), buf)
    requires 2 * n <= |buf| && Separated(t, SentBits(data, n, msbFirst), buf)
    ensures Matched(t, buf, n, msbFirst)
            == MatchResult(true, if msbFirst then data else Shr(data, n - 64), 2 * n)
  {
    var bits := SentBits(data, n, msbFirst);
    CapturedIsInWindows(t, bits, buf);
    ReceivedIsSent(t, bits, buf);
    LongWord(data, n, msbFirst);
  }

  lemma {:induction false} LongWord(data: nat, n: nat, msbFirst: bool)
    requires n > 64 && data < Pow2(64)
    ensures WordOf(SentBits(data, n, msbFirst), msbFirst) == if msbFirst then data else Shr(data, n - 64)
  {
    var bits := SentBits(data, n, msbFirst);
    ShiftedIsValue(bits);
    WordSizes();
    if msbFirst {
      ValueOfToBits(data, n);
      Pow2Grows(64, n);
      SmallMod(data, Pow2(n));
      SmallMod(data, W64);
    } else {
      LastWordOfBits(bits, 64);
      LongLow(data, n - 64);
      ShrSmaller(data, n - 64);
      ReversedLong(Shifted(bits), Shr(data, n - 64), n);
    }
  }

  // The last 64 bits sent are the low bits of the data shifted right.
  lemma {:induction false} LongLow(data: nat, k: nat)
    ensures LsbBits(data, k + 64)[k..] == LsbBits(Shr(data, k), 64)
  {
    forall j | 0 <= j < 64
      ensures LsbBits(data, k + 64)[k..][j] == Bit(Shr(data, k), j)
    {
      ShrBit(data, k, j);
    }
  }

  lemma ReversedLong(word: nat, rest: nat, n: nat)
    requires n > 64 && word == Value(LsbBits(rest, 64)) && rest < Pow2(64)
    ensures ReversedLow(word, n) == rest
  {
    ReversedValue(word, LsbBits(rest, 64));
    ReversedToBits(rest, 64);
    ValueOfToBits(rest, 64);
    SmallMod(rest, Pow2(64));
  }

  lemma {:induction false} ShrSmaller(x: nat, k: nat)
    ensures Shr(x, k) <= x
  {
    if k > 0 {
      ShrSmaller(x / 2, k - 1);
    }
  }
}

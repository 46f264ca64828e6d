// What the Lutron decoder makes of the runs of a Lutron message.
module LutronRoundTrip {
  import opened Bits
  import opened Lutron
  import opened PulseCodec
  import opened PulseRoundTrip
  import opened Sequences
  import opened Signal

  // ----- The runs of a message ----------------------------------------------------------------

  // A receiver that stops in the silence after the message records these runs.
  function SeenRuns(data: nat, nbits: nat): seq<Pulse> {
    DropTrailingSpace(Merge(Frame(data, nbits)))
  }

  function LevelsOf(bits: seq<bool>): (levels: seq<Level>)
    ensures |levels| == |bits| && forall i :: 0 <= i < |bits| ==> levels[i] == LevelOf(bits[i])
  {
    seq(|bits|, i requires 0 <= i < |bits| => LevelOf(bits[i]))
  }

  function BitsOf(levels: seq<Level>): (bits: seq<bool>)
    ensures |bits| == |levels| && forall i :: 0 <= i < |levels| ==> bits[i] == (levels[i] == Mark)
  {
    seq(|levels|, i requires 0 <= i < |levels| => levels[i] == Mark)
  }

  lemma {:induction false} TraceLevels(bits: seq<bool>)
    ensures Whole(BitTrace(bits), TICK) && Spread(BitTrace(bits), TICK) == LevelsOf(bits)
    ensures bits != [] ==> BitTrace(bits) != [] && BitTrace(bits)[0] == Pulse(LevelOf(bits[0]), TICK)
  {
    if bits != [] {
      var init := Init(bits);
      TraceLevels(init);
      WholeSnoc(BitTrace(init), Pulse(LevelOf(Last(bits)), TICK), TICK);
      SpreadSnoc(BitTrace(init), Pulse(LevelOf(Last(bits)), TICK), TICK);
      assert LevelsOf(bits) == LevelsOf(init) + [LevelOf(Last(bits))];
      if init == [] {
        assert BitTrace(bits) == [Pulse(LevelOf(Last(bits)), TICK)];
      }
    }
  }

  lemma {:induction false} MergedSpells(data: nat, nbits: nat)
    ensures var bits := SentLevels(data, nbits);
            var merged := Merge(BitTrace(bits));
            && merged != [] && merged[0].level == Mark && Alternating(merged) && Whole(merged, TICK)
            && Spread(merged, TICK) == LevelsOf(bits)
  {
    var body := BitTrace(SentLevels(data, nbits));
    TraceLevels(SentLevels(data, nbits));
    MergeKeepsLevels(body, TICK);
    MergeOpensWith(body);
  }

  // The gap lengthens the last space, or is one, and is not recorded.
  lemma {:induction false} GapUnseen(trace: seq<Pulse>)
    ensures DropTrailingSpace(Merge(trace + [Pulse(Space, GAP)])) == DropTrailingSpace(Merge(trace))
  {
    MergeSnoc(trace, Pulse(Space, GAP));
  }

  // The runs alternate, open and end with a mark, and spell the bits up to the last 1.
  lemma RunsSpellBits(data: nat, nbits: nat) returns (zeros: nat)
    ensures var runs := SeenRuns(data, nbits);
            MarkToMark(runs) && Spread(runs, TICK) + Hold(Space, zeros) == LevelsOf(SentLevels(data, nbits))
  {
    MergedSpells(data, nbits);
    GapUnseen(BitTrace(SentLevels(data, nbits)));
    zeros := DropSpells(Merge(BitTrace(SentLevels(data, nbits))), LevelsOf(SentLevels(data, nbits)));
  }

  lemma DropSpells(merged: seq<Pulse>, levels: seq<Level>) returns (zeros: nat)
    requires merged != [] && Alternating(merged) && Whole(merged, TICK) && merged[0].level == Mark
    requires Spread(merged, TICK) == levels
    ensures var runs := DropTrailingSpace(merged);
            MarkToMark(runs) && Spread(runs, TICK) + Hold(Space, zeros) == levels
  {
    if Last(merged).level == Space {
      zeros := Last(merged).usec / TICK;
      assert Init(merged) + [Last(merged)] == merged;
      WholeSnoc(Init(merged), Last(merged), TICK);
      SpreadSnoc(Init(merged), Last(merged), TICK);
    } else {
      zeros := 0;
    }
  }

  // ----- Widths -------------------------------------------------------------------------------

  // A run of k ticks decodes as k bits within these margins: a mark may be 400 microseconds
  // short to 800 long, a space up to 1886 long.
  predicate Fits(run: Pulse, width: nat) {
    run.usec - 400 <= width * RAW_TICK <= run.usec + if run.level == Mark then 800 else 1886
  }

  // Entry 0 is the gap before the message.
  ghost predicate Captured(runs: seq<Pulse>, buf: seq<nat>, rawlen: nat) {
    |runs| + 1 <= rawlen <= |buf| && forall i :: 0 <= i < |runs| ==> Fits(runs[i], buf[i + 1])
  }

  // ----- One run ------------------------------------------------------------------------------

  function Feed(word: nat, bit: bool, k: nat): nat
    decreases k
  {
    if k == 0 then word else Feed(ShiftIn(word, bit), bit, k - 1)
  }

  // The inner loop takes exactly k steps over a run of k ticks, and leaves what the run is
  // too long.
  lemma {:induction false} RunTakes(p: Progress, odd: bool, nbits: nat, timeout: nat, k: nat)
    requires timeout >= TICK && k >= 1 && -200 <= p.entry - k * TICK_WIDTH <= 943
    requires odd || p.bits + k < nbits
    ensures ReadRun(p, odd, nbits, timeout)
            == Progress(if p.entry <= k * TICK_WIDTH then 0 else p.entry - k * TICK_WIDTH,
                        p.bits + k, Feed(p.data, odd, k))
    decreases k
  {
    var q := Progress(LessOneBit(p.entry), p.bits + 1, ShiftIn(p.data, odd));
    assert HoldsBit(p.entry, timeout);
    assert ReadRun(p, odd, nbits, timeout) == ReadRun(q, odd, nbits, timeout);
    if k > 1 {
      RunTakes(q, odd, nbits, timeout, k - 1);
    } else {
      assert Feed(p.data, odd, 1) == Feed(ShiftIn(p.data, odd), odd, 0);
      assert !HoldsBit(q.entry, timeout);
    }
  }

  lemma {:induction false} FeedShifts(bits: seq<bool>, bit: bool, k: nat)
    ensures Shifted(bits + Hold(bit, k)) == Feed(Shifted(bits), bit, k)
    decreases k
  {
    if k == 0 {
      assert bits + Hold(bit, 0) == bits;
    } else {
      FeedShifts(bits + [bit], bit, k - 1);
      assert bits + Hold(bit, k) == bits + [bit] + Hold(bit, k - 1);
    }
  }

  lemma RunUnits(run: Pulse, width: nat) returns (k: nat)
    requires run.usec > 0 && run.usec % TICK == 0 && Fits(run, width)
    ensures k == run.usec / TICK >= 1 && run.usec == k * TICK
    ensures -200 <= width - k * TICK_WIDTH <= if run.level == Mark then 400 else 943
  {
    k := run.usec / TICK;
  }

  lemma BitsOfHold(levels: seq<Level>, l: Level, k: nat)
    ensures BitsOf(levels + Hold(l, k)) == BitsOf(levels) + Hold(l == Mark, k)
  {
  }

  // ----- All runs -----------------------------------------------------------------------------

  // Where the decoder stands once these levels are read.
  predicate Stands(levels: seq<Level>, bits: int, data: nat) {
    bits == |levels| - 1 && data == Shifted(BitsOf(levels))
  }

  lemma RunRead(run: Pulse, width: nat, offset: nat, rawlen: nat, levels: seq<Level>, bits: int, data: nat,
                nbits: nat, timeout: nat)
    requires timeout >= TICK && run.usec > 0 && run.usec % TICK == 0 && Fits(run, width)
    requires run.level == (if offset % 2 == 1 then Mark else Space)
    requires Stands(levels, bits, data)
    requires run.level == Space ==> |levels| + run.usec / TICK <= nbits
    ensures MatchAtLeast(width, TICK, 0, DELTA, timeout)
    ensures var p := ReadRun(Progress(width, bits, data), offset % 2 == 1, nbits, timeout);
            !RestRefused(p.entry, offset, rawlen, timeout) &&
            Stands(levels + Hold(run.level, run.usec / TICK), p.bits, p.data)
  {
    var k := RunUnits(run, width);
    RunTakes(Progress(width, bits, data), offset % 2 == 1, nbits, timeout, k);
    FeedShifts(BitsOf(levels), run.level == Mark, k);
    BitsOfHold(levels, run.level, k);
  }

  lemma {:induction false} SpreadGrows(runs: seq<Pulse>, j: nat)
    requires j < |runs| && Alternating(runs) && Whole(runs, TICK)
    ensures runs[j].usec % TICK == 0 && runs[j].usec / TICK >= 1
    ensures Spread(runs[..j + 1], TICK) == Spread(runs[..j], TICK) + Hold(runs[j].level, runs[j].usec / TICK)
    ensures |Spread(runs[..j + 1], TICK)| <= |Spread(runs, TICK)|
    decreases |runs|
  {
    WholeAt(runs, j, TICK);
    assert Init(runs[..j + 1]) == runs[..j];
    if j + 1 < |runs| {
      assert Init(runs)[..j + 1] == runs[..j + 1] && Init(runs)[..j] == runs[..j];
      SpreadGrows(Init(runs), j);
    } else {
      assert runs[..j + 1] == runs;
    }
  }

  ghost predicate MarkToMark(runs: seq<Pulse>) {
    runs != [] && Alternating(runs) && Whole(runs, TICK) && runs[0].level == Mark && Last(runs).level == Mark
  }

  lemma {:induction false} LevelAt(runs: seq<Pulse>, j: nat)
    requires j < |runs| && Alternating(runs) && runs[0].level == Mark
    ensures runs[j].level == if j % 2 == 0 then Mark else Space
  {
    if j > 0 {
      LevelAt(runs, j - 1);
    }
  }

  // The decoder works through all runs, staying in step with them.
  lemma {:induction false} RunsRead(runs: seq<Pulse>, j: nat, buf: seq<nat>, rawlen: nat, bits: int, data: nat,
                                    nbits: nat, timeout: nat)
    returns (bits': int, data': nat)
    requires timeout >= TICK && j <= |runs|
    requires MarkToMark(runs) && Captured(runs, buf, rawlen) && |Spread(runs, TICK)| <= nbits + 1
    requires Stands(Spread(runs[..j], TICK), bits, data)
    ensures Stands(Spread(runs, TICK), bits', data')
    ensures ReadRuns(buf, rawlen, j + 1, bits, data, nbits, timeout)
            == ReadRuns(buf, rawlen, |runs| + 1, bits', data', nbits, timeout)
    decreases |runs| - j
  {
    if j == |runs| {
      assert runs[..j] == runs;
      bits', data' := bits, data;
    } else {
      var p := NextRunRead(runs, j, buf, rawlen, bits, data, nbits, timeout);
      bits', data' := RunsRead(runs, j + 1, buf, rawlen, p.bits, p.data, nbits, timeout);
    }
  }

  // A space is never the last run, so it never holds the last bits.
  lemma {:induction false} RunAt(runs: seq<Pulse>, j: nat, nbits: nat)
    requires j < |runs| && MarkToMark(runs) && |Spread(runs, TICK)| <= nbits + 1
    ensures runs[j].usec > 0 && runs[j].usec % TICK == 0 && runs[j].level == (if (j + 1) % 2 == 1 then Mark else Space)
    ensures Spread(runs[..j + 1], TICK) == Spread(runs[..j], TICK) + Hold(runs[j].level, runs[j].usec / TICK)
    ensures |Spread(runs[..j], TICK)| <= nbits
    ensures runs[j].level == Space ==> |Spread(runs[..j], TICK)| + runs[j].usec / TICK <= nbits
  {
    SpreadGrows(runs, j);
    LevelAt(runs, j);
    if j + 1 < |runs| {
      SpreadGrows(runs, j + 1);
    }
  }

  lemma NextRunRead(runs: seq<Pulse>, j: nat, buf: seq<nat>, rawlen: nat, bits: int, data: nat, nbits: nat,
                    timeout: nat)
    returns (p: Progress)
    requires timeout >= TICK && j < |runs|
    requires MarkToMark(runs) && Captured(runs, buf, rawlen) && |Spread(runs, TICK)| <= nbits + 1
    requires Stands(Spread(runs[..j], TICK), bits, data)
    ensures Stands(Spread(runs[..j + 1], TICK), p.bits, p.data)
    ensures ReadRuns(buf, rawlen, j + 1, bits, data, nbits, timeout)
            == ReadRuns(buf, rawlen, j + 2, p.bits, p.data, nbits, timeout)
  {
    RunAt(runs, j, nbits);
    assert Fits(runs[j], buf[j + 1]);
    RunRead(runs[j], buf[j + 1], j + 1, rawlen, Spread(runs[..j], TICK), bits, data, nbits, timeout);
    p := ReadRun(Progress(buf[j + 1], bits, data), (j + 1) % 2 == 1, nbits, timeout);
  }

  // ----- The value ----------------------------------------------------------------------------

  // How many 0s stand at the end.
  function Zeros(bits: seq<bool>): (z: nat)
    ensures z <= |bits|
  {
    if bits == [] || Last(bits) then 0 else 1 + Zeros(Init(bits))
  }

  lemma {:induction false} ZerosAre(bits: seq<bool>, z: nat)
    requires z < |bits| && bits[|bits| - 1 - z] && forall i :: |bits| - z <= i < |bits| ==> !bits[i]
    ensures Zeros(bits) == z
  {
    if z > 0 {
      ZerosAre(Init(bits), z - 1);
    }
  }

  // In front of a 1 the data can only end in as many 0s as it has bits.
  lemma {:induction false} ZerosAfterOne(bits: seq<bool>)
    ensures Zeros([true] + bits) == Zeros(bits)
  {
    if bits != [] {
      assert Init([true] + bits) == [true] + Init(bits);
      ZerosAfterOne(Init(bits));
    }
  }

  lemma {:induction false} ValueOfZeros(bits: seq<bool>, z: nat)
    ensures Value(bits + Hold(false, z)) == Shl(Value(bits), z)
  {
    if z == 0 {
      assert bits + Hold(false, 0) == bits;
    } else {
      ValueOfZeros(bits, z - 1);
      assert bits + Hold(false, z) == bits + Hold(false, z - 1) + [false];
      ValueSnoc(bits + Hold(false, z - 1), false);
    }
  }

  lemma {:induction false} TopBit(r: nat, n: nat)
    requires r < Pow2(n)
    ensures Bit(Pow2(n) + r, n)
  {
    if n > 0 {
      TopBit(r / 2, n - 1);
      assert (Pow2(n) + r) / 2 == Pow2(n - 1) + r / 2;
    }
  }

  lemma {:induction false} LeadingOne(tail: seq<bool>)
    ensures Value([true] + tail) == Pow2(|tail|) + Value(tail)
  {
    if tail == [] {
      assert [true] + tail == [] + [true];
      ValueSnoc([], true);
    } else {
      LeadingOne(Init(tail));
      assert [true] + tail == ([true] + Init(tail)) + [Last(tail)];
      ValueSnoc([true] + Init(tail), Last(tail));
    }
  }

  lemma {:induction false} FlipTop(r: nat, n: nat)
    requires r < Pow2(n)
    ensures Flip(Pow2(n) + r, n) == r
  {
    TopBit(r, n);
  }

  lemma {:induction false} TopFits(r: nat, n: nat)
    requires r < Pow2(n) && n <= 63
    ensures Pow2(n) + r < W64
  {
    Pow2Grows(n + 1, 64);
    WordSizes();
  }

  lemma {:induction false} WithoutTop(v: nat, r: nat, n: nat)
    requires r < Pow2(n) && n <= 63 && v == Pow2(n) + r
    ensures v < W64 && Flip(v, n) == r
  {
    FlipTop(r, n);
    TopFits(r, n);
  }

  // The leading 1 is taken off again.
  lemma {:induction false} ValueWithoutLeadingOne(data: nat, n: nat)
    requires n <= 63
    ensures var v := Value(SentLevels(data, n));
            v < W64 && Flip(v, n) == data % Pow2(n)
  {
    var tail := ToBits(data, n);
    LeadingOne(tail);
    ToBitsOfValue(tail);
    ValueOfToBits(data, n);
    WithoutTop(Value([true] + tail), Value(tail), n);
  }

  lemma {:induction false} Finished(heard: seq<bool>, z: nat, data: nat, n: nat)
    requires n <= 63 && heard + Hold(false, z) == SentLevels(data, n) && z <= n
    ensures Finish(|heard| - 1, Shifted(heard), n) == Found(data % Pow2(n), n - z)
  {
    assert |heard| == n + 1 - z;
    ShortShifted(heard);
    ValueOfZeros(heard, z);
    ValueWithoutLeadingOne(data, n);
    if z > 0 {
      SmallMod(Shl(Value(heard), z), W64);
    } else {
      assert heard + Hold(false, 0) == heard;
    }
  }

  // The runs heard, and the 0s that follow them unheard.
  lemma HeardBits(data: nat, n: nat) returns (heard: seq<bool>)
    ensures var runs, z := SeenRuns(data, n), Zeros(ToBits(data, n));
            heard == BitsOf(Spread(runs, TICK)) && heard + Hold(false, z) == SentLevels(data, n)
  {
    var z := RunsSpellBits(data, n);
    var runs, bits := SeenRuns(data, n), SentLevels(data, n);
    var levels := Spread(runs, TICK);
    heard := BitsOf(levels);
    forall i | 0 <= i < |bits|
      ensures (levels + Hold(Space, z))[i] == LevelOf(bits[i])
    {
    }
    assert heard + Hold(false, z) == bits;
    ZerosAre(bits, z);
    ZerosAfterOne(ToBits(data, n));
  }

  // Any data of up to 63 bits comes back, whatever the receiver's timeout is above one tick, as
  // long as every run is heard within its margins. The number of bits reported is short by the
  // 0s that were never heard: all bits are reported only for data that ends in a 1.
  lemma {:induction false} RoundTrip(data: nat, n: nat, buf: seq<nat>, rawlen: nat, strict: bool, timeout: nat)
    requires 1 <= n <= 63 && (strict ==> n == LUTRON_BITS) && timeout >= TICK
    requires Captured(SeenRuns(data, n), buf, rawlen) && rawlen == |SeenRuns(data, n)| + 1
    ensures rawlen <= |buf|
    ensures DecodeLutron(buf, rawlen, n, strict, timeout) == Found(data % Pow2(n), n - Zeros(ToBits(data, n)))
  {
    var bits, word := MessageRead(data, n, buf, rawlen, timeout);
    var heard := HeardBits(data, n);
    Finished(heard, Zeros(ToBits(data, n)), data, n);
  }

  lemma MessageRead(data: nat, n: nat, buf: seq<nat>, rawlen: nat, timeout: nat) returns (bits: int, word: nat)
    requires timeout >= TICK && Captured(SeenRuns(data, n), buf, rawlen)
    ensures var runs := SeenRuns(data, n);
            Stands(Spread(runs, TICK), bits, word) &&
            ReadRuns(buf, rawlen, 1, -1, 0, n, timeout) == ReadRuns(buf, rawlen, |runs| + 1, bits, word, n, timeout)
  {
    var runs := SeenRuns(data, n);
    var zeros := RunsSpellBits(data, n);
    var heard := HeardBits(data, n);
    assert runs[..0] == [];
    bits, word := RunsRead(runs, 0, buf, rawlen, -1, 0, n, timeout);
  }

  // ----- When the silence is recorded ---------------------------------------------------------

  // The inner loop takes one step for every 0 still missing, and stops there because the rest
  // is long enough to be the gap.
  lemma {:induction false} GapTakes(rest: nat, bits: int, data: nat, nbits: nat, timeout: nat, z: nat)
    requires timeout >= 3000 && rest > 0 && HoldsGap(rest, timeout) && bits + z + 1 == nbits
    ensures ReadRun(Progress(rest + z * TICK_WIDTH, bits, data), false, nbits, timeout)
            == Progress(rest, nbits, Feed(data, false, z + 1))
    decreases z
  {
    assert Feed(data, false, z + 1) == Feed(ShiftIn(data, false), false, z);
    if z > 0 {
      assert LessOneBit(rest + z * TICK_WIDTH) == rest + (z - 1) * TICK_WIDTH;
      GapTakes(rest, bits + 1, ShiftIn(data, false), nbits, timeout, z - 1);
    }
  }

  // What a last space must hold for z 0s before the silence.
  predicate HoldsZeros(gap: nat, z: nat, timeout: nat) {
    z > 0 ==> gap > (z - 1) * TICK_WIDTH && HoldsGap(gap - (z - 1) * TICK_WIDTH, timeout)
  }

  lemma {:induction false} LastSpaceRead(buf: seq<nat>, last: nat, heard: seq<bool>, z: nat, n: nat, timeout: nat)
    requires timeout >= 3000 && |buf| > last && last % 2 == 0 && z > 0 && |heard| - 1 + z == n
    requires HoldsZeros(buf[last], z, timeout)
    ensures ReadRuns(buf, last + 1, last, |heard| - 1, Shifted(heard), n, timeout)
            == Runs(n, Shifted(heard + Hold(false, z)))
  {
    var rest := buf[last] - (z - 1) * TICK_WIDTH;
    GapTakes(rest, |heard| - 1, Shifted(heard), n, timeout, z - 1);
    FeedShifts(heard, false, z);
    assert !RestRefused(rest, last, last + 1, timeout);
  }

  // When the 0s at the end and the silence after them are recorded as one last space, all the
  // bits are reported.
  lemma {:induction false} RoundTripWithGap(data: nat, n: nat, buf: seq<nat>, rawlen: nat, strict: bool, timeout: nat)
    requires 1 <= n <= 63 && (strict ==> n == LUTRON_BITS) && timeout >= 3000
    requires Captured(SeenRuns(data, n), buf, rawlen) && rawlen == |SeenRuns(data, n)| + 2
    requires HoldsZeros(buf[rawlen - 1], Zeros(ToBits(data, n)), timeout)
    ensures rawlen <= |buf|
    ensures DecodeLutron(buf, rawlen, n, strict, timeout) == Found(data % Pow2(n), n)
  {
    AllBitsRead(data, n, buf, rawlen, timeout);
    assert SentLevels(data, n) + Hold(false, 0) == SentLevels(data, n);
    Finished(SentLevels(data, n), 0, data, n);
  }

  lemma {:induction false} AllBitsRead(data: nat, n: nat, buf: seq<nat>, rawlen: nat, timeout: nat)
    requires timeout >= 3000 && Captured(SeenRuns(data, n), buf, rawlen) && rawlen == |SeenRuns(data, n)| + 2
    requires HoldsZeros(buf[rawlen - 1], Zeros(ToBits(data, n)), timeout)
    ensures ReadRuns(buf, rawlen, 1, -1, 0, n, timeout) == Runs(n, Shifted(SentLevels(data, n)))
  {
    var bits, word := MessageRead(data, n, buf, rawlen, timeout);
    var heard := HeardBits(data, n);
    LastRunIsMark(data, n);
    GapRead(data, n, buf, rawlen - 1, heard, Zeros(ToBits(data, n)), timeout);
  }

  lemma LastRunIsMark(data: nat, n: nat)
    ensures |SeenRuns(data, n)| % 2 == 1
  {
    var zeros := RunsSpellBits(data, n);
    LevelAt(SeenRuns(data, n), |SeenRuns(data, n)| - 1);
  }

  lemma {:induction false} GapRead(data: nat, n: nat, buf: seq<nat>, last: nat, heard: seq<bool>, z: nat, timeout: nat)
    requires timeout >= 3000 && |buf| > last && last % 2 == 0
    requires heard + Hold(false, z) == SentLevels(data, n) && HoldsZeros(buf[last], z, timeout)
    ensures ReadRuns(buf, last + 1, last, |heard| - 1, Shifted(heard), n, timeout)
            == Runs(n, Shifted(SentLevels(data, n)))
  {
    assert |heard + Hold(false, z)| == n + 1;
    if z > 0 {
      LastSpaceRead(buf, last, heard, z, n, timeout);
    } else {
      assert heard + Hold(false, 0) == heard;
    }
  }

  // ----- The exact capture --------------------------------------------------------------------

  // Up to 56 bits every run fits a 16-bit entry of the capture, and the exact widths are within
  // the margins.
  lemma ExactCapture(data: nat, n: nat)
    requires 1 <= n <= 56
    ensures var runs := SeenRuns(data, n);
            exists buf :: |buf| == |runs| + 1 && Captured(runs, buf, |buf|)
                          && forall i :: 0 <= i < |buf| ==> buf[i] < 0x1_0000
  {
    var runs := SeenRuns(data, n);
    var zeros := RunsSpellBits(data, n);
    var buf := seq(|runs| + 1, i requires 0 <= i < |runs| + 1 => if i == 0 then 0 else runs[i - 1].usec / RAW_TICK);
    forall i | 0 <= i < |runs|
      ensures Fits(runs[i], buf[i + 1]) && buf[i + 1] < 0x1_0000
    {
      SpreadGrows(runs, i);
      assert |LevelsOf(SentLevels(data, n))| == n + 1;
    }
    assert Captured(runs, buf, |buf|);
  }

  // ----- In microseconds ------------------------------------------------------------------------

  lemma {:induction false} TickAt(bits: seq<bool>, k: nat)
    requires k < |bits|
    ensures |BitTrace(bits)| == |bits| && BitTrace(bits)[k] == Pulse(LevelOf(bits[k]), 2288)
    decreases |bits|
  {
    if |bits| == 1 {
      assert Init(bits) == [] && BitTrace([]) == [];
    } else {
      TickAt(Init(bits), if k < |bits| - 1 then k else 0);
    }
  }

  // A mark of 2288 us, then a mark for a 1 and a space for a 0 of 2288 us each, the most
  // significant bit first, and a gap of 150 ms.
  lemma LutronTrace(data: nat, n: nat, k: nat)
    requires k < n
    ensures var frame := Frame(data, n);
            && |frame| == n + 2 && frame[0] == Pulse(Mark, 2288) && frame[n + 1] == Pulse(Space, 150000)
            && frame[k + 1] == Pulse(if Bit(data, n - 1 - k) then Mark else Space, 2288)
  {
    TickAt(SentLevels(data, n), 0);
    TickAt(SentLevels(data, n), k + 1);
    ToBitsAt(data, n, k);
  }

  // Nothing is found with more bits than asked for, and under the strict check nothing unless 35
  // bits are asked for.
  lemma FoundAsAsked(buf: seq<nat>, rawlen: nat, nbits: nat, strict: bool, timeout: nat)
    requires rawlen <= |buf| && nbits != 64
    ensures var r := DecodeLutron(buf, rawlen, nbits, strict, timeout);
            r.Found? ==> r.bits <= nbits <= 64 && (strict ==> nbits == 35)
  {
  }
}

// Lutron: a 1 is a mark and a 0 a space of one tick, with nothing between bits, so a message is
// read off the lengths of its runs. A leading 1 is sent before the data, and zeros at the end
// melt into the silence after the message.
module Lutron {
  import opened Bits
  import opened PulseCodec
  import opened Sequences
  import opened Signal

  const TICK := 2288
  const GAP := 150000
  const DELTA := 400
  const LUTRON_BITS := 35
  const TICK_WIDTH := TICK / RAW_TICK

  // ----- Sending ------------------------------------------------------------------------------

  function LevelOf(bit: bool): Level {
    if bit then Mark else Space
  }

  function BitTrace(bits: seq<bool>): seq<Pulse> {
    if bits == [] then [] else BitTrace(Init(bits)) + [Pulse(LevelOf(Last(bits)), TICK)]
  }

  // The bits on the air: the leading 1 and the data.
  function SentLevels(data: nat, nbits: nat): (bits: seq<bool>)
    ensures |bits| == nbits + 1 && bits[0]
  {
    [true] + ToBits(data, nbits)
  }

  function Frame(data: nat, nbits: nat): seq<Pulse> {
    BitTrace(SentLevels(data, nbits)) + [Pulse(Space, GAP)]
  }

  function Frames(data: nat, nbits: nat, count: nat): seq<Pulse> {
    if count == 0 then [] else Frames(data, nbits, count - 1) + Frame(data, nbits)
  }

  lemma BitTraceNext(before: seq<Pulse>, bits: seq<bool>, sent: nat)
    requires sent < |bits|
    ensures before + BitTrace(bits[..sent]) + [Pulse(LevelOf(bits[sent]), TICK)] == before + BitTrace(bits[..sent + 1])
  {
    assert Init(bits[..sent + 1]) == bits[..sent];
  }

  // The mask starts at bit nbits - 1, so there must be one.
  method SendFrame(led: Emitter, data: nat, nbits: nat)
    requires 1 <= nbits <= 64
    modifies led
    ensures led.trace == old(led.trace) + Frame(data, nbits)
  {
    ghost var before, bits := led.trace, SentLevels(data, nbits);
    assert bits[..0] == [];
    BitTraceNext(before, bits, 0);
    led.SendMark(TICK);
    for sent := 0 to nbits
      invariant led.trace == before + BitTrace(bits[..sent + 1])
    {
      ToBitsAt(data, nbits, sent);
      BitTraceNext(before, bits, sent + 1);
      if Bit(data, nbits - 1 - sent) {
        led.SendMark(TICK);
      } else {
        led.SendSpace(TICK);
      }
    }
    assert bits[..nbits + 1] == bits;
    led.SendSpace(GAP);
    Associative(before, BitTrace(bits), [Pulse(Space, GAP)]);
  }

  method SendLutron(led: Emitter, data: nat, nbits: nat, repeat: nat)
    requires 1 <= nbits <= 64
    modifies led
    ensures led.trace == old(led.trace) + Frames(data, nbits, repeat + 1)
  {
    ghost var before := led.trace;
    for r := 0 to repeat + 1
      invariant led.trace == before + Frames(data, nbits, r)
    {
      SendFrame(led, data, nbits);
      Associative(before, Frames(data, nbits, r), Frame(data, nbits));
    }
  }

  // ----- Decoding -----------------------------------------------------------------------------

  datatype Progress = Progress(entry: nat, bits: int, data: nat)

  predicate HoldsBit(entry: nat, timeout: nat) {
    entry != 0 && MatchAtLeast(entry, TICK, 0, DELTA, timeout)
  }

  predicate HoldsGap(entry: nat, timeout: nat) {
    MatchAtLeast(entry, GAP, DEFAULT_TOLERANCE, 0, timeout)
  }

  function LessOneBit(entry: nat): nat {
    if entry <= TICK_WIDTH then 0 else entry - TICK_WIDTH
  }

  // The bits of one run, one tick at a time; marks sit at odd offsets. In a space the last bit
  // asked for ends the run if the rest of it is long enough to be the gap.
  function ReadRun(p: Progress, odd: bool, nbits: nat, timeout: nat): Progress
    decreases p.entry
  {
    if !HoldsBit(p.entry, timeout) then p
    else
      var q := Progress(p.entry, p.bits + 1, ShiftIn(p.data, odd));
      if !odd && q.bits == nbits && HoldsGap(q.entry, timeout) then q
      else ReadRun(q.(entry := LessOneBit(q.entry)), odd, nbits, timeout)
  }

  // What is left of a mark must be no more than twice the margin. The test of what is left of a
  // space is written the other way round and never refuses.
  predicate RestRefused(rest: nat, offset: nat, rawlen: nat, timeout: nat) {
    (offset % 2 == 1 && !Match(rest, DELTA, 0, DELTA)) ||
    (offset % 2 == 0 && offset + 1 <= rawlen && !MatchAtLeast(rest, DELTA, 0, DELTA, timeout))
  }

  lemma SpaceNeverRefused(rest: nat, offset: nat, rawlen: nat, timeout: nat)
    ensures RestRefused(rest, offset, rawlen, timeout) <==> offset % 2 == 1 && !Match(rest, DELTA, 0, DELTA)
    ensures offset % 2 == 0 ==> !RestRefused(rest, offset, rawlen, timeout)
  {
  }

  datatype RunsResult = Broken | Runs(bits: int, data: nat)

  function ReadRuns(buf: seq<nat>, rawlen: nat, offset: nat, bits: int, data: nat, nbits: nat, timeout: nat): RunsResult
    requires rawlen <= |buf|
    decreases rawlen - offset
  {
    if bits >= nbits || offset >= rawlen then Runs(bits, data)
    else if !MatchAtLeast(buf[offset], TICK, 0, DELTA, timeout) then Broken
    else
      var p := ReadRun(Progress(buf[offset], bits, data), offset % 2 == 1, nbits, timeout);
      if RestRefused(p.entry, offset, rawlen, timeout) then Broken
      else ReadRuns(buf, rawlen, offset + 1, p.bits, p.data, nbits, timeout)
  }

  datatype LutronResult = NoMatch | Found(value: nat, bits: nat)

  lemma {:induction false} BitMeansAtLeast(x: nat, k: nat)
    requires Bit(x, k)
    ensures x >= Pow2(k)
  {
    if k > 0 {
      BitMeansAtLeast(x / 2, k - 1);
    }
  }

  function Flip(x: nat, k: nat): nat {
    if Bit(x, k) then BitMeansAtLeast(x, k); x - Pow2(k) else x + Pow2(k)
  }

  function Finish(bits: int, data: nat, nbits: nat): LutronResult {
    if bits > nbits || bits < 0 then NoMatch
    else Found(Flip(if bits < nbits then Shl(data, nbits - bits) % W64 else data, nbits), bits)
  }

  // The mask 1 << nbits needs a bit the word has.
  function DecodeLutron(buf: seq<nat>, rawlen: nat, nbits: nat, strict: bool, timeout: nat): LutronResult
    requires rawlen <= |buf| && nbits != 64
  {
    if (strict && nbits != LUTRON_BITS) || nbits > 64 then NoMatch
    else
      match ReadRuns(buf, rawlen, 1, -1, 0, nbits, timeout)
      case Broken => NoMatch
      case Runs(bits, data) => Finish(bits, data, nbits)
  }

  method TakeRun(entry0: nat, bits0: int, data0: nat, odd: bool, nbits: nat, timeout: nat)
    returns (entry: nat, bits: int, data: nat)
    ensures Progress(entry, bits, data) == ReadRun(Progress(entry0, bits0, data0), odd, nbits, timeout)
  {
    entry, bits, data := entry0, bits0, data0;
    while HoldsBit(entry, timeout)
      invariant ReadRun(Progress(entry, bits, data), odd, nbits, timeout)
              == ReadRun(Progress(entry0, bits0, data0), odd, nbits, timeout)
      decreases entry
    {
      bits := bits + 1;
      data := ShiftIn(data, odd);
      if !odd && bits == nbits && HoldsGap(entry, timeout) { return; }
      entry := LessOneBit(entry);
    }
  }

  method ReadLutron(buf: seq<nat>, rawlen: nat, nbits: nat, strict: bool, timeout: nat) returns (r: LutronResult)
    requires rawlen <= |buf| && nbits != 64
    ensures r == DecodeLutron(buf, rawlen, nbits, strict, timeout)
  {
    if strict && nbits != LUTRON_BITS { return NoMatch; }
    if nbits > 64 { return NoMatch; }
    var data: nat, bitsSoFar, offset: nat := 0, -1, 1;
    while bitsSoFar < nbits && offset < rawlen
      invariant ReadRuns(buf, rawlen, offset, bitsSoFar, data, nbits, timeout)
              == ReadRuns(buf, rawlen, 1, -1, 0, nbits, timeout)
      decreases rawlen - offset
    {
      if !MatchAtLeast(buf[offset], TICK, 0, DELTA, timeout) { return NoMatch; }
      var entry;
      entry, bitsSoFar, data := TakeRun(buf[offset], bitsSoFar, data, offset % 2 == 1, nbits, timeout);
      if offset % 2 == 1 && !Match(entry, DELTA, 0, DELTA) { return NoMatch; }
      if offset % 2 == 0 && offset <= rawlen - 1 && !MatchAtLeast(entry, DELTA, 0, DELTA, timeout) { return NoMatch; }
      offset := offset + 1;
    }
    if bitsSoFar > nbits || bitsSoFar < 0 { return NoMatch; }
    if bitsSoFar < nbits { data := Shl(data, nbits - bitsSoFar) % W64; }
    r := Found(Flip(data, nbits), bitsSoFar);
  }
}

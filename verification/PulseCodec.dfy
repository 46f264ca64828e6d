// The generic pulse codec: one mark and one space per bit, matched with tolerance.
module PulseCodec {
  import opened Bits
  import opened MachineWords
  import opened Sequences
  import opened Signal

  const RAW_TICK := 2
  const DEFAULT_TOLERANCE := 25
  const DEFAULT_EXCESS := 50
  const W64 := 0x1_0000_0000_0000_0000

  // ----- Width matching -----------------------------------------------------------------

  function TicksLow(usecs: nat, tolerance: nat, delta: nat): nat {
    var scaled := usecs * (100 - tolerance) - 100 * delta;
    if scaled > 0 then scaled / 100 else 0
  }

  function TicksHigh(usecs: nat, tolerance: nat, delta: nat): nat {
    usecs * (100 + tolerance) / 100 + 1 + delta
  }

  predicate Match(measured: nat, desired: nat, tolerance: nat, delta: nat) {
    TicksLow(desired, tolerance, delta) <= measured * RAW_TICK <= TicksHigh(desired, tolerance, delta)
  }

  // `timeout` is the receiver's, in microseconds; a width of 0 stands for an endless space.
  predicate MatchAtLeast(measured: nat, desired: nat, tolerance: nat, delta: nat, timeout: nat) {
    measured == 0 ||
    measured * RAW_TICK >= TicksLow(if desired < timeout then desired else timeout, tolerance, delta)
  }

  predicate MatchMark(measured: nat, desired: nat, tolerance: nat, excess: int) {
    Match(measured, Word32(desired + excess), tolerance, 0)
  }

  predicate MatchSpace(measured: nat, desired: nat, tolerance: nat, excess: int) {
    Match(measured, Word32(desired - excess), tolerance, 0)
  }

  // ----- Sending ----------------------------------------------------------------------------

  datatype Timing = Timing(onemark: nat, onespace: nat, zeromark: nat, zerospace: nat, tolerance: nat, excess: int)

  function BitPulses(t: Timing, bit: bool): seq<Pulse> {
    if bit then [Pulse(Mark, t.onemark), Pulse(Space, t.onespace)]
    else [Pulse(Mark, t.zeromark), Pulse(Space, t.zerospace)]
  }

  function Pulses(t: Timing, bits: seq<bool>): seq<Pulse> {
    if bits == [] then [] else Pulses(t, Init(bits)) + BitPulses(t, Last(bits))
  }

  function LsbBits(x: nat, n: nat): (s: seq<bool>)
    ensures |s| == n && forall k :: 0 <= k < n ==> s[k] == Bit(x, k)
  {
    seq(n, k requires k >= 0 => Bit(x, k))
  }

  // The bits in the order they are sent; bits beyond the data are zeros.
  function SentBits(data: nat, nbits: nat, msbFirst: bool): (s: seq<bool>)
    ensures |s| == nbits
  {
    if msbFirst then ToBits(data, nbits) else LsbBits(data, nbits)
  }

  lemma {:induction false} PulsesStep(t: Timing, before: seq<Pulse>, bits: seq<bool>, sent: nat)
    requires sent < |bits|
    ensures var pq := BitPulses(t, bits[sent]);
            before + Pulses(t, bits[..sent]) + [pq[0]] + [pq[1]] == before + Pulses(t, bits[..sent + 1])
  {
    var next := bits[..sent + 1];
    assert Init(next) == bits[..sent] && Last(next) == bits[sent];
  }

  // Data shifted right by k.
  function Shr(x: nat, k: nat): nat {
    if k == 0 then x else Shr(x / 2, k - 1)
  }

  function Shl(x: nat, k: nat): nat {
    if k == 0 then x else 2 * Shl(x, k - 1)
  }

  lemma {:induction false} ShlZero(k: nat)
    ensures Shl(0, k) == 0
  {
    if k > 0 {
      ShlZero(k - 1);
    }
  }

  lemma ShlNext(x: nat, k: nat)
    ensures Shl(x, k + 1) == 2 * Shl(x, k)
  {
  }

  lemma {:induction false} ShrFirst(x: nat, k: nat)
    ensures Shr(x, k + 1) == Shr(x / 2, k)
  {
  }

  lemma {:induction false} ShrNext(x: nat, k: nat)
    ensures Shr(x, k + 1) == Shr(x, k) / 2 && (Shr(x, k) % 2 == 1 <==> Bit(x, k))
  {
    if k > 0 {
      ShrNext(x / 2, k - 1);
    }
  }

  lemma {:induction false} HighBitsAreZero(x: nat, n: nat, k: nat)
    requires x < Pow2(n) && k >= n
    ensures !Bit(x, k)
  {
    if k > 0 {
      if n == 0 {
        HighBitsAreZero(x / 2, 0, k - 1);
      } else {
        HighBitsAreZero(x / 2, n - 1, k - 1);
      }
    }
  }

  method SendBit(led: Emitter, t: Timing, bit: bool)
    modifies led
    ensures led.trace == old(led.trace) + [BitPulses(t, bit)[0]] + [BitPulses(t, bit)[1]]
  {
    if bit {
      led.SendMark(t.onemark);
      led.SendSpace(t.onespace);
    } else {
      led.SendMark(t.zeromark);
      led.SendSpace(t.zerospace);
    }
  }

  method SendMsbFirst(led: Emitter, t: Timing, data: nat, nbits: nat)
    requires data < Pow2(64)
    modifies led
    ensures led.trace == old(led.trace) + Pulses(t, ToBits(data, nbits))
  {
    ghost var before, bits := led.trace, ToBits(data, nbits);
    var sent := 0;
    // Zeros until the number of bits is one the data has.
    while nbits - sent > 64
      invariant sent <= nbits && led.trace == before + Pulses(t, bits[..sent])
    {
      ToBitsAt(data, nbits, sent);
      HighBitsAreZero(data, 64, nbits - 1 - sent);
      PulsesStep(t, before, bits, sent);
      SendBit(led, t, false);
      sent := sent + 1;
    }
    while sent < nbits
      invariant sent <= nbits && led.trace == before + Pulses(t, bits[..sent])
    {
      ToBitsAt(data, nbits, sent);
      PulsesStep(t, before, bits, sent);
      SendBit(led, t, Bit(data, nbits - 1 - sent));
      sent := sent + 1;
    }
    assert bits[..nbits] == bits;
  }

  method SendLsbFirst(led: Emitter, t: Timing, data0: nat, nbits: nat)
    modifies led
    ensures led.trace == old(led.trace) + Pulses(t, LsbBits(data0, nbits))
  {
    ghost var before, bits := led.trace, LsbBits(data0, nbits);
    var data := data0;
    for sent := 0 to nbits
      invariant led.trace == before + Pulses(t, bits[..sent])
      invariant data == Shr(data0, sent)
    {
      ShrNext(data0, sent);
      PulsesStep(t, before, bits, sent);
      SendBit(led, t, data % 2 == 1);
      data := data / 2;
    }
    assert bits[..nbits] == bits;
  }

  method SendData(led: Emitter, t: Timing, data: nat, nbits: nat, msbFirst: bool)
    requires data < Pow2(64)
    modifies led
    ensures led.trace == old(led.trace) + Pulses(t, SentBits(data, nbits, msbFirst))
  {
    if msbFirst {
      SendMsbFirst(led, t, data, nbits);
    } else {
      SendLsbFirst(led, t, data, nbits);
    }
  }

  // ----- Whole messages ---------------------------------------------------------------------

  // Header, data, footer and gap; a header or footer of no duration is not sent. `mesgtime` is
  // the least time a message takes, its gap included.
  datatype Layout = Layout(headermark: nat, headerspace: nat, bit: Timing, footermark: nat, gap: nat, mesgtime: nat)

  function IfAny(level: Level, usec: nat): seq<Pulse> {
    if usec > 0 then [Pulse(level, usec)] else []
  }

  function GapAfter(l: Layout, elapsed: nat): nat {
    if elapsed >= l.mesgtime || l.gap >= l.mesgtime - elapsed then l.gap else l.mesgtime - elapsed
  }

  // `elapsed` is what the timer shows when the footer has been sent.
  function Message(l: Layout, data: nat, nbits: nat, msbFirst: bool, elapsed: nat): seq<Pulse> {
    IfAny(Mark, l.headermark) + IfAny(Space, l.headerspace) + Pulses(l.bit, SentBits(data, nbits, msbFirst))
    + IfAny(Mark, l.footermark) + [Pulse(Space, GapAfter(l, elapsed))]
  }

  function Messages(l: Layout, data: nat, nbits: nat, msbFirst: bool, elapsed: seq<nat>): seq<Pulse> {
    if elapsed == [] then []
    else Messages(l, data, nbits, msbFirst, Init(elapsed)) + Message(l, data, nbits, msbFirst, Last(elapsed))
  }

  method SendIfAny(led: Emitter, level: Level, usec: nat)
    modifies led
    ensures led.trace == old(led.trace) + IfAny(level, usec)
  {
    if usec > 0 {
      if level == Mark {
        led.SendMark(usec);
      } else {
        led.SendSpace(usec);
      }
    }
  }

  lemma Chained<T>(before: seq<T>, a: seq<T>, b: seq<T>, c: seq<T>, d: seq<T>, e: seq<T>)
    ensures before + a + b + c + d + e == before + (a + b + c + d + e)
  {
  }

  method SendMessage(led: Emitter, l: Layout, data: nat, nbits: nat, msbFirst: bool, elapsed: nat)
    requires data < Pow2(64)
    modifies led
    ensures led.trace == old(led.trace) + Message(l, data, nbits, msbFirst, elapsed)
  {
    ghost var before := led.trace;
    SendIfAny(led, Mark, l.headermark);
    SendIfAny(led, Space, l.headerspace);
    SendData(led, l.bit, data, nbits, msbFirst);
    SendIfAny(led, Mark, l.footermark);
    led.SendSpace(GapAfter(l, elapsed));
    Chained(before, IfAny(Mark, l.headermark), IfAny(Space, l.headerspace),
            Pulses(l.bit, SentBits(data, nbits, msbFirst)), IfAny(Mark, l.footermark),
            [Pulse(Space, GapAfter(l, elapsed))]);
  }

  lemma {:induction false} MessagesStep(before: seq<Pulse>, l: Layout, data: nat, nbits: nat, msbFirst: bool,
                                        elapsed: seq<nat>, r: nat)
    requires r < |elapsed|
    ensures before + Messages(l, data, nbits, msbFirst, elapsed[..r + 1])
            == before + Messages(l, data, nbits, msbFirst, elapsed[..r]) + Message(l, data, nbits, msbFirst, elapsed[r])
  {
    assert Init(elapsed[..r + 1]) == elapsed[..r];
  }

  // One timer reading for each message, the first and its repeats.
  method SendGeneric(led: Emitter, l: Layout, data: nat, nbits: nat, msbFirst: bool, elapsed: seq<nat>)
    requires data < Pow2(64)
    modifies led
    ensures led.trace == old(led.trace) + Messages(l, data, nbits, msbFirst, elapsed)
  {
    ghost var before := led.trace;
    for r := 0 to |elapsed|
      invariant led.trace == before + Messages(l, data, nbits, msbFirst, elapsed[..r])
    {
      MessagesStep(before, l, data, nbits, msbFirst, elapsed, r);
      SendMessage(led, l, data, nbits, msbFirst, elapsed[r]);
    }
    assert elapsed[..|elapsed|] == elapsed;
  }

  // ----- Reversing bits -----------------------------------------------------------------------

  function Min(a: nat, b: nat): nat {
    if a < b then a else b
  }

  // The low bits reversed, the others unchanged.
  function ReversedLow(x: nat, nbits: nat): nat {
    var n := Min(nbits, 64);
    Shl(Shr(x, n), n) + Value(LsbBits(x, n))
  }

  lemma LsbBitsSnoc(x: nat, i: nat)
    ensures LsbBits(x, i + 1) == LsbBits(x, i) + [Bit(x, i)]
  {
  }

  lemma LowBitValue(x: nat, n: nat)
    requires n <= 1
    ensures Value(LsbBits(x, n)) == if n == 1 then x % 2 else 0
  {
    if n == 1 {
      LsbBitsSnoc(x, 0);
      ValueSnoc(LsbBits(x, 0), Bit(x, 0));
    }
    assert LsbBits(x, 0) == [];
  }

  lemma {:induction false} HighPartValue(x: nat, n: nat)
    requires n <= 1
    ensures Shl(Shr(x, n), n) == if n == 1 then x / 2 * 2 else x
  {
    if n == 1 {
      ShrNext(x, 0);
      ShlNext(x / 2, 0);
    }
  }

  lemma ReversedFewBits(x: nat, nbits: nat)
    requires nbits <= 1
    ensures ReversedLow(x, nbits) == x
  {
    HighPartValue(x, nbits);
    LowBitValue(x, nbits);
  }

  method ReverseBits(input0: nat, nbits0: nat) returns (r: nat)
    ensures r == ReversedLow(input0, nbits0)
  {
    if nbits0 <= 1 {
      ReversedFewBits(input0, nbits0);
      return input0;
    }
    var nbits := Min(nbits0, 64);
    var input, output := input0, 0;
    assert LsbBits(input0, 0) == [];
    for i := 0 to nbits
      invariant input == Shr(input0, i) && output == Value(LsbBits(input0, i))
    {
      ShrNext(input0, i);
      LsbBitsSnoc(input0, i);
      ValueSnoc(LsbBits(input0, i), Bit(input0, i));
      output := 2 * output + input % 2;
      input := input / 2;
    }
    r := Shl(input, nbits) + output;
  }

  lemma {:induction false} ReversedToBits(x: nat, n: nat)
    ensures Reversed(ToBits(x, n)) == LsbBits(x, n) && Reversed(LsbBits(x, n)) == ToBits(x, n)
  {
    forall i | 0 <= i < n
      ensures ToBits(x, n)[i] == Bit(x, n - 1 - i)
    {
      ToBitsAt(x, n, i);
    }
  }

  lemma {:induction false} SmallShr(x: nat, n: nat)
    requires x < Pow2(n)
    ensures Shr(x, n) == 0
  {
    if n > 0 {
      SmallShr(x / 2, n - 1);
    }
  }

  lemma {:induction false} NoHighPart(x: nat, n: nat, low: seq<bool>)
    requires n <= 64 && x < Pow2(n) && LsbBits(x, n) == low
    ensures ReversedLow(x, n) == Value(low)
  {
    SmallShr(x, n);
    ShlZero(n);
  }

  // Reversing a number that has no more than the reversed bits is reading them backwards.
  lemma {:induction false} ReversedValue(x: nat, bits: seq<bool>)
    requires |bits| <= 64 && x == Value(bits)
    ensures ReversedLow(x, |bits|) == Value(Reversed(bits))
  {
    ToBitsOfValue(bits);
    ReversedToBits(x, |bits|);
    NoHighPart(x, |bits|, Reversed(bits));
  }

  // ----- Matching -----------------------------------------------------------------------------

  predicate IsOne(t: Timing, mark: nat, space: nat) {
    MatchMark(mark, t.onemark, t.tolerance, t.excess) && MatchSpace(space, t.onespace, t.tolerance, t.excess)
  }

  predicate IsZero(t: Timing, mark: nat, space: nat) {
    MatchMark(mark, t.zeromark, t.tolerance, t.excess) && MatchSpace(space, t.zerospace, t.tolerance, t.excess)
  }

  predicate IsBit(t: Timing, buf: seq<nat>, i: nat)
    requires 2 * i + 1 < |buf|
  {
    IsOne(t, buf[2 * i], buf[2 * i + 1]) || IsZero(t, buf[2 * i], buf[2 * i + 1])
  }

  // How many pairs from i on are bits, up to n.
  function GoodPairs(t: Timing, buf: seq<nat>, i: nat, n: nat): (k: nat)
    requires i <= n && 2 * n <= |buf|
    ensures i <= k <= n
    ensures forall j :: i <= j < k ==> IsBit(t, buf, j)
    ensures k < n ==> !IsBit(t, buf, k)
    decreases n - i
  {
    if i == n || !IsBit(t, buf, i) then i else GoodPairs(t, buf, i + 1, n)
  }

  function Received(t: Timing, buf: seq<nat>, k: nat): (bits: seq<bool>)
    requires 2 * k <= |buf|
    ensures |bits| == k && forall i :: 0 <= i < k ==> bits[i] == IsOne(t, buf[2 * i], buf[2 * i + 1])
  {
    seq(k, i requires 0 <= i < k => IsOne(t, buf[2 * i], buf[2 * i + 1]))
  }

  // A 64-bit word shifted left with a bit coming in.
  function ShiftIn(word: nat, b: bool): nat {
    (2 * word + Digit(b)) % W64
  }

  function Shifted(bits: seq<bool>): nat {
    if bits == [] then 0 else ShiftIn(Shifted(Init(bits)), Last(bits))
  }

  function WordOf(bits: seq<bool>, msbFirst: bool): nat {
    if msbFirst then Shifted(bits) else ReversedLow(Shifted(bits), |bits|)
  }

  datatype MatchResult = MatchResult(success: bool, data: nat, used: nat)

  function Matched(t: Timing, buf: seq<nat>, nbits: nat, msbFirst: bool): MatchResult
    requires 2 * nbits <= |buf|
  {
    var k := GoodPairs(t, buf, 0, nbits);
    MatchResult(k == nbits, WordOf(Received(t, buf, k), msbFirst), 2 * k)
  }

  // What the decoder has after i pairs that are all bits.
  ghost predicate Matching(t: Timing, buf: seq<nat>, n: nat, i: nat, word: nat) {
    && i <= n && 2 * n <= |buf| && word == Shifted(Received(t, buf, i))
    && GoodPairs(t, buf, i, n) == GoodPairs(t, buf, 0, n)
  }

  // The next pair, as the decoder's two attempts see it: a one first, then a zero.
  method ReadPair(t: Timing, mark: nat, space: nat) returns (bit: bool, ok: bool)
    ensures bit == IsOne(t, mark, space)
    ensures ok == (bit || IsZero(t, mark, space))
  {
    if MatchMark(mark, t.onemark, t.tolerance, t.excess) && MatchSpace(space, t.onespace, t.tolerance, t.excess) {
      bit, ok := true, true;
    } else if MatchMark(mark, t.zeromark, t.tolerance, t.excess)
              && MatchSpace(space, t.zerospace, t.tolerance, t.excess) {
      bit, ok := false, true;
    } else {
      bit, ok := false, false;
    }
  }

  lemma PairRead(t: Timing, buf: seq<nat>, i: nat, n: nat, word: nat, bit: bool)
    requires i < n && Matching(t, buf, n, i, word) && IsBit(t, buf, i)
    requires bit == IsOne(t, buf[2 * i], buf[2 * i + 1])
    ensures Matching(t, buf, n, i + 1, ShiftIn(word, bit))
  {
    assert Received(t, buf, i + 1) == Received(t, buf, i) + [bit];
  }

  lemma {:induction false} PairRefused(t: Timing, buf: seq<nat>, i: nat, n: nat)
    requires i < n && 2 * n <= |buf| && !IsBit(t, buf, i)
    ensures GoodPairs(t, buf, i, n) == i
  {
  }

  lemma MatchingEnds(t: Timing, buf: seq<nat>, i: nat, n: nat, word: nat, msbFirst: bool)
    requires Matching(t, buf, n, i, word) && (i < n ==> !IsBit(t, buf, i))
    ensures Matched(t, buf, n, msbFirst) == MatchResult(i == n, WordOf(Received(t, buf, i), msbFirst), 2 * i)
  {
    if i < n {
      PairRefused(t, buf, i, n);
    }
  }

  // The collected word in the bit order asked for.
  method InOrder(word: nat, nbits: nat, msbFirst: bool, ghost bits: seq<bool>) returns (data: nat)
    requires nbits == |bits| && word == Shifted(bits)
    ensures data == WordOf(bits, msbFirst)
  {
    data := word;
    if !msbFirst { data := ReverseBits(data, nbits); }
  }

  // `buf` is the capture from the caller's data pointer on; 2 * nbits fits the 16-bit
  // counter of used entries.
  method MatchData(buf: seq<nat>, nbits: nat, t: Timing, msbFirst: bool) returns (r: MatchResult)
    requires 2 * nbits <= |buf| && 2 * nbits < 0x1_0000
    ensures r == Matched(t, buf, nbits, msbFirst) && (r.success ==> r.used == 2 * nbits)
  {
    var data, used := 0, 0;
    ghost var i := 0;
    while used < 2 * nbits
      invariant used == 2 * i && Matching(t, buf, nbits, i, data)
    {
      var bit, ok := ReadPair(t, buf[used], buf[used + 1]);
      if !ok {
        MatchingEnds(t, buf, i, nbits, data, msbFirst);
        data := InOrder(data, used / 2, msbFirst, Received(t, buf, i));
        return MatchResult(false, data, used);
      }
      PairRead(t, buf, i, nbits, data, bit);
      data := ShiftIn(data, bit);
      used, i := used + 2, i + 1;
    }
    MatchingEnds(t, buf, i, nbits, data, msbFirst);
    data := InOrder(data, nbits, msbFirst, Received(t, buf, i));
    r := MatchResult(true, data, used);
  }
}

// What the NEC decoder makes of what the NEC sender emits, when every width is heard up to
// 60 microseconds off.
module NecRoundTrip {
  import opened Bits
  import opened Nec
  import opened PulseCodec
  import opened PulseRoundTrip
  import opened Sequences
  import opened Signal

  const JITTER := 60

  predicate Near(raw: nat, usec: nat) {
    raw * RAW_TICK - JITTER <= usec <= raw * RAW_TICK + JITTER
  }

  // The capture of a message: entry 0 is the gap before it, and the gap after it may be there
  // or not.
  ghost predicate Heard(trace: seq<Pulse>, buf: seq<nat>, rawlen: nat)
    requires trace != []
  {
    && |trace| <= rawlen <= |buf|
    && (forall j :: 0 <= j < |trace| - 1 ==> Near(buf[j + 1], trace[j].usec))
    && (rawlen > |trace| ==> buf[|trace|] * RAW_TICK + JITTER >= Last(trace).usec)
  }

  lemma {:induction false} PulsesLength(t: Timing, bits: seq<bool>)
    ensures |Pulses(t, bits)| == 2 * |bits|
  {
    if bits != [] {
      PulsesLength(t, Init(bits));
    }
  }

  lemma {:induction false} MessageParts(data: nat, n: nat, elapsed: nat)
    ensures var m := Message(MESSAGE, data, n, true, elapsed);
            |m| == 2 * n + 4 && m[0].usec == 8960 && m[1].usec == 4480 && m[2 * n + 2].usec == 560 &&
            m[2 * n + 3].usec >= 22400 && m[2..2 * n + 2] == Pulses(BIT_TIMING, ToBits(data, n))
  {
    PulsesLength(BIT_TIMING, ToBits(data, n));
  }

  // The tick times heard in the header are close to the nominal ones.
  predicate CloseTicks(markTick: nat, spaceTick: nat) {
    556 <= markTick <= 564 && 552 <= spaceTick <= 568
  }

  lemma HeaderHeard(mark: nat, space: nat)
    requires Near(mark, 8960) && Near(space, 4480)
    ensures IsMark(mark, 8960) && IsSpace(space, 4480) && !IsSpace(space, 2240)
    ensures CloseTicks(TickOf(mark, 16), TickOf(space, 8))
  {
  }

  lemma BitHeard(markTick: nat, spaceTick: nat, bit: bool, mark: nat, space: nat)
    requires CloseTicks(markTick, spaceTick)
    requires Near(mark, 560) && Near(space, if bit then 1680 else 560)
    ensures var t := BitTiming(markTick, spaceTick);
            if bit then IsOne(t, mark, space) else IsZero(t, mark, space) && !IsOne(t, mark, space)
  {
  }

  lemma EndHeard(markTick: nat, spaceTick: nat, mark: nat, gap: nat, timeout: nat)
    requires CloseTicks(markTick, spaceTick) && Near(mark, 560)
    ensures IsMark(mark, markTick)
    ensures gap * RAW_TICK + JITTER >= 22400 ==> IsGap(gap, MIN_GAP_TICKS * spaceTick, timeout)
  {
  }

  lemma {:induction false} BitsHeard(data: nat, n: nat, elapsed: nat, buf: seq<nat>, rawlen: nat, markTick: nat,
                                     spaceTick: nat)
    requires Heard(Message(MESSAGE, data, n, true, elapsed), buf, rawlen) && CloseTicks(markTick, spaceTick)
    ensures 2 * n + 4 <= rawlen
    ensures InWindows(BitTiming(markTick, spaceTick), ToBits(data, n), buf[3..])
    ensures Separated(BitTiming(markTick, spaceTick), ToBits(data, n), buf[3..])
  {
    var m, bits, t := Message(MESSAGE, data, n, true, elapsed), ToBits(data, n), BitTiming(markTick, spaceTick);
    MessageParts(data, n, elapsed);
    forall i | 0 <= i < n
      ensures if bits[i] then IsOne(t, buf[3..][2 * i], buf[3..][2 * i + 1])
              else IsZero(t, buf[3..][2 * i], buf[3..][2 * i + 1]) && !IsOne(t, buf[3..][2 * i], buf[3..][2 * i + 1])
    {
      PulsesAt(BIT_TIMING, bits, i);
      assert m[2 * i + 2] == m[2..2 * n + 2][2 * i] && m[2 * i + 3] == m[2..2 * n + 2][2 * i + 1];
      assert Near(buf[2 * i + 3], m[2 * i + 2].usec) && Near(buf[2 * i + 4], m[2 * i + 3].usec);
      BitHeard(markTick, spaceTick, bits[i], buf[3..][2 * i], buf[3..][2 * i + 1]);
    }
  }

  // Any number of bits up to a word: the decoder reads exactly the data that was sent.
  lemma {:induction false} HeardIsRead(data: nat, n: nat, elapsed: nat, buf: seq<nat>, rawlen: nat, strict: bool,
                                       timeout: nat)
    requires n <= 64 && (strict ==> n == 32)
    requires Heard(Message(MESSAGE, data, n, true, elapsed), buf, rawlen)
    ensures 2 * n + 4 <= rawlen <= |buf|
    ensures DecodeNec(buf, rawlen, n, strict, timeout) == Fields(data % Pow2(n), n, strict)
  {
    MessageParts(data, n, elapsed);
    var m := Message(MESSAGE, data, n, true, elapsed);
    assert Near(buf[1], m[0].usec) && Near(buf[2], m[1].usec) && Near(buf[2 * n + 3], m[2 * n + 2].usec);
    var markTick, spaceTick := TickOf(buf[1], HDR_MARK_TICKS), TickOf(buf[2], HDR_SPACE_TICKS);
    HeaderHeard(buf[1], buf[2]);
    BodyRead(data, n, elapsed, buf, rawlen, strict, timeout, markTick, spaceTick);
  }

  lemma EndRead(data: MatchResult, buf: seq<nat>, rawlen: nat, n: nat, strict: bool, timeout: nat, markTick: nat,
                spaceTick: nat)
    requires 2 * n + 4 <= rawlen <= |buf| && data.success && CloseTicks(markTick, spaceTick)
    requires Near(buf[2 * n + 3], 560) && (2 * n + 4 < rawlen ==> buf[2 * n + 4] * RAW_TICK + JITTER >= 22400)
    ensures DecodeEnd(data, buf, rawlen, n, strict, timeout, markTick, spaceTick) == Fields(data.data, n, strict)
  {
    EndHeard(markTick, spaceTick, buf[2 * n + 3], if 2 * n + 4 < rawlen then buf[2 * n + 4] else 0, timeout);
  }

  // The footer and the gap of a message heard.
  lemma EndIsNear(data: nat, n: nat, elapsed: nat, buf: seq<nat>, rawlen: nat)
    requires Heard(Message(MESSAGE, data, n, true, elapsed), buf, rawlen)
    ensures 2 * n + 4 <= rawlen <= |buf| && Near(buf[2 * n + 3], 560)
    ensures 2 * n + 4 < rawlen ==> buf[2 * n + 4] * RAW_TICK + JITTER >= 22400
  {
    MessageParts(data, n, elapsed);
    var m := Message(MESSAGE, data, n, true, elapsed);
    assert Near(buf[2 * n + 3], m[2 * n + 2].usec);
  }

  lemma {:induction false} BodyRead(data: nat, n: nat, elapsed: nat, buf: seq<nat>, rawlen: nat, strict: bool,
                                    timeout: nat, markTick: nat, spaceTick: nat)
    requires n <= 64 && Heard(Message(MESSAGE, data, n, true, elapsed), buf, rawlen) && CloseTicks(markTick, spaceTick)
    ensures 2 * n + 4 <= rawlen <= |buf|
    ensures DecodeBody(buf, rawlen, n, strict, timeout, markTick, spaceTick) == Fields(data % Pow2(n), n, strict)
  {
    BitsHeard(data, n, elapsed, buf, rawlen, markTick, spaceTick);
    InWindowsDecodes(BitTiming(markTick, spaceTick), data, n, true, buf[3..]);
    EndIsNear(data, n, elapsed, buf, rawlen);
    var read := Matched(BitTiming(markTick, spaceTick), buf[3..], n, true);
    EndRead(read, buf, rawlen, n, strict, timeout, markTick, spaceTick);
  }

  lemma WordIsRead(data: nat, elapsed: nat, buf: seq<nat>, rawlen: nat, strict: bool, timeout: nat)
    requires data < 0x1_0000_0000 && Heard(Message(MESSAGE, data, 32, true, elapsed), buf, rawlen)
    ensures 68 <= rawlen <= |buf|
    ensures DecodeNec(buf, rawlen, 32, strict, timeout) == Fields(data, 32, strict)
  {
    HeardIsRead(data, 32, elapsed, buf, rawlen, strict, timeout);
    WordFits(data);
  }

  lemma WordFits(data: nat)
    requires data < 0x1_0000_0000
    ensures data % Pow2(32) == data
  {
    WordSizes();
  }

  // Address and command, through the air: the low byte of the command always, and the address
  // exactly when it is a byte or its bytes are not each other's complement.
  lemma NecRoundTrip(address: nat, command: nat, elapsed: nat, buf: seq<nat>, rawlen: nat, strict: bool, timeout: nat)
    requires address < 0x1_0000
    requires Heard(Message(MESSAGE, EncodeNec(address, command), 32, true, elapsed), buf, rawlen)
    ensures 68 <= rawlen <= |buf|
    ensures var r := DecodeNec(buf, rawlen, 32, strict, timeout);
            r.Decoded? && r.value == EncodeNec(address, command) && r.bits == 32 && !r.repeat &&
            r.command == command % 256 &&
            (r.address == address <==> address <= 255 || !SelfInverse(address))
  {
    WordIsRead(EncodeNec(address, command), elapsed, buf, rawlen, strict, timeout);
    FieldsOfEncoded(address, command, strict);
  }

  // A repeat code is recognised whatever number of bits is asked for.
  lemma RepeatIsHeard(n: nat, elapsed: nat, buf: seq<nat>, strict: bool, timeout: nat)
    requires (strict ==> n == 32) && 2 * n + 4 <= |buf|
    requires Heard(Message(REPEAT_MESSAGE, 0, 0, true, elapsed), buf, 4)
    ensures DecodeNec(buf, 4, n, strict, timeout) == Decoded(0xFFFF_FFFF_FFFF_FFFF, 0, 0, 0, true)
  {
    var m := Message(REPEAT_MESSAGE, 0, 0, true, elapsed);
    assert m[0].usec == 8960 && m[1].usec == 2240 && m[2].usec == 560;
    assert Near(buf[1], m[0].usec) && Near(buf[2], m[1].usec) && Near(buf[3], m[2].usec);
  }
}

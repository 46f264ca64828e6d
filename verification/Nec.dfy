// NEC messages: a header, 32 bits and a footer, with times measured against the header
// actually heard. Addresses and commands travel least significant bit first inside a word
// that is sent most significant bit first, so their bytes are reversed on both sides.
module Nec {
  import opened Bits
  import opened ByteOrder
  import opened PulseCodec
  import opened PulseRoundTrip
  import opened Sequences
  import opened Signal

  const TICK := 560
  const HDR_MARK_TICKS := 16
  const HDR_SPACE_TICKS := 8
  const ONE_SPACE_TICKS := 3
  const RPT_SPACE_TICKS := 4
  const RPT_LENGTH := 4
  const MIN_COMMAND_TICKS := 193
  const MIN_GAP_TICKS := MIN_COMMAND_TICKS - (HDR_MARK_TICKS + HDR_SPACE_TICKS + 32 * (1 + ONE_SPACE_TICKS) + 1)

  const BIT_TIMING := BitTiming(TICK, TICK)
  const MESSAGE := Layout(HDR_MARK_TICKS * TICK, HDR_SPACE_TICKS * TICK, BIT_TIMING, TICK, MIN_GAP_TICKS * TICK,
      MIN_COMMAND_TICKS * TICK)
  const REPEAT_MESSAGE := Layout(HDR_MARK_TICKS * TICK, RPT_SPACE_TICKS * TICK, Timing(0, 0, 0, 0, 25, 50), TICK,
      MIN_GAP_TICKS * TICK, MIN_COMMAND_TICKS * TICK)

  function BitTiming(markTick: nat, spaceTick: nat): Timing {
    Timing(markTick, ONE_SPACE_TICKS * spaceTick, markTick, spaceTick, DEFAULT_TOLERANCE, DEFAULT_EXCESS)
  }

  // ----- Sending ------------------------------------------------------------------------------

  // The message, then `|later|` repeat codes, which carry no data.
  method SendNec(led: Emitter, data: nat, nbits: nat, first: nat, later: seq<nat>)
    requires data < Pow2(64)
    modifies led
    ensures led.trace == old(led.trace) + Message(MESSAGE, data, nbits, true, first)
            + Messages(REPEAT_MESSAGE, 0, 0, true, later)
  {
    SendMessage(led, MESSAGE, data, nbits, true, first);
    if later != [] {
      SendGeneric(led, REPEAT_MESSAGE, 0, 0, true, later);
    }
  }

  // The second half is the complement of the first.
  function WithComplement(byte: nat): nat
    requires byte < 256
  {
    byte * 256 + (255 - byte)
  }

  lemma ByteReversed(x: nat)
    requires x < 256
    ensures ReversedLow(x, 8) < 256 && ReversedLow(ReversedLow(x, 8), 8) == x
  {
    assert Pow2(8) == 256;
    ReversedBack(x, 8);
  }

  lemma WordReversed(x: nat)
    requires x < 0x1_0000
    ensures ReversedLow(x, 16) < 0x1_0000 && ReversedLow(ReversedLow(x, 16), 16) == x
  {
    assert Pow2(16) == 0x1_0000 && Pow2(8) == 256;
    ReversedBack(x, 16);
  }

  lemma HalvesReversed(hi: nat, lo: nat)
    requires hi < 256 && lo < 256
    ensures ReversedLow(hi * 256 + lo, 16) == ReversedLow(lo, 8) * 256 + ReversedLow(hi, 8)
  {
    assert Pow2(16) == 0x1_0000 && Pow2(8) == 256;
    ReversedJoined(hi, lo, 8, 8);
  }

  function EncodeNec(address: nat, command: nat): (data: nat)
    requires address < 0x1_0000
    ensures data < 0x1_0000_0000
  {
    ByteReversed(command % 256);
    var c := ReversedLow(command % 256, 8);
    if address > 255 then
      WordReversed(address);
      ReversedLow(address, 16) * 0x1_0000 + WithComplement(c)
    else
      ByteReversed(address);
      WithComplement(ReversedLow(address, 8)) * 0x1_0000 + WithComplement(c)
  }

  // ----- Decoding -----------------------------------------------------------------------------

  datatype DecodeResult =
    | Refused
    | Decoded(value: nat, bits: nat, address: nat, command: nat, repeat: bool)

  const REPEAT_CODE := Decoded(0xFFFF_FFFF_FFFF_FFFF, 0, 0, 0, true)

  // Byte k of a word, the lowest being byte 0.
  function ByteAt(x: nat, k: nat): (b: nat)
    ensures b < 256
  {
    if k == 0 then x % 256 else ByteAt(x / 256, k - 1)
  }

  lemma ByteUp(rest: nat, byte: nat, k: nat)
    requires byte < 256
    ensures ByteAt(rest * 256 + byte, 0) == byte && ByteAt(rest * 256 + byte, k + 1) == ByteAt(rest, k)
  {
    assert (rest * 256 + byte) / 256 == rest;
  }

  // A word put together from its four low bytes.
  lemma FourBytes(rest: nat, b3: nat, b2: nat, b1: nat, b0: nat)
    requires b3 < 256 && b2 < 256 && b1 < 256 && b0 < 256
    ensures var x := (((rest * 256 + b3) * 256 + b2) * 256 + b1) * 256 + b0;
            ByteAt(x, 3) == b3 && ByteAt(x, 2) == b2 && ByteAt(x, 1) == b1 && ByteAt(x, 0) == b0
  {
    var y := rest * 256 + b3;
    var z := y * 256 + b2;
    var w := z * 256 + b1;
    ByteUp(w, b0, 0);
    ByteUp(w, b0, 1);
    ByteUp(w, b0, 2);
    ByteUp(z, b1, 0);
    ByteUp(z, b1, 1);
    ByteUp(y, b2, 0);
    ByteUp(rest, b3, 0);
  }

  lemma TakeApart(x: nat, w: nat, z: nat, y: nat, rest: nat, b3: nat, b2: nat, b1: nat, b0: nat)
    requires w == x / 256 && z == w / 256 && y == z / 256 && rest == y / 256
    requires b0 == x % 256 && b1 == w % 256 && b2 == z % 256 && b3 == y % 256
    ensures x == (((rest * 256 + b3) * 256 + b2) * 256 + b1) * 256 + b0
    ensures w == x / 0x100 && z == x / 0x1_0000 && y == x / 0x100_0000
    ensures z % 0x1_0000 == b3 * 256 + b2
  {
  }

  lemma {:induction false} BytesOf(x: nat)
    ensures ByteAt(x, 0) == x % 0x100 && ByteAt(x, 1) == x / 0x100 % 0x100
    ensures ByteAt(x, 2) == x / 0x1_0000 % 0x100 && ByteAt(x, 3) == x / 0x100_0000 % 0x100
    ensures ByteAt(x, 3) * 256 + ByteAt(x, 2) == x / 0x1_0000 % 0x1_0000
  {
    var w := x / 256;
    var z := w / 256;
    var y := z / 256;
    TakeApart(x, w, z, y, y / 256, y % 256, z % 256, w % 256, x % 256);
    FourBytes(y / 256, y % 256, z % 256, w % 256, x % 256);
  }

  // The two bytes sent for an address: a byte and its complement, or a 16-bit address.
  function AddressOf(high: nat, low: nat): nat {
    if low == 255 - high then ReversedLow(high, 8) else ReversedLow(high * 256 + low, 16)
  }

  // What is read from the data bits. Only the low 32 bits are looked at.
  function Fields(data: nat, nbits: nat, strict: bool): DecodeResult {
    var command, valid := ByteAt(data, 1), ByteAt(data, 0) == 255 - ByteAt(data, 1);
    if !valid && strict then Refused
    else
      Decoded(data, nbits, AddressOf(ByteAt(data, 3), ByteAt(data, 2)),
              ReversedLow(if valid then command else 0, 8), false)
  }

  // A width measured in microseconds, by the ticks it should last.
  function TickOf(raw: nat, ticks: nat): nat
    requires ticks > 0
  {
    raw * RAW_TICK / ticks
  }

  predicate IsMark(raw: nat, usec: nat) {
    MatchMark(raw, usec, DEFAULT_TOLERANCE, DEFAULT_EXCESS)
  }

  predicate IsSpace(raw: nat, usec: nat) {
    MatchSpace(raw, usec, DEFAULT_TOLERANCE, DEFAULT_EXCESS)
  }

  predicate IsGap(raw: nat, usec: nat, timeout: nat) {
    MatchAtLeast(raw, usec, DEFAULT_TOLERANCE, 0, timeout)
  }

  // After the data: the footer, the gap if it was recorded, and the fields.
  function DecodeEnd(data: MatchResult, buf: seq<nat>, rawlen: nat, nbits: nat, strict: bool, timeout: nat,
                     markTick: nat, spaceTick: nat): DecodeResult
    requires rawlen <= |buf| && 2 * nbits + 4 <= |buf|
  {
    if !data.success || !IsMark(buf[2 * nbits + 3], markTick) then Refused
    else if 2 * nbits + 4 < rawlen && !IsGap(buf[2 * nbits + 4], MIN_GAP_TICKS * spaceTick, timeout) then Refused
    else Fields(data.data, nbits, strict)
  }

  // From the first data bit on, with the tick times heard in the header.
  function DecodeBody(buf: seq<nat>, rawlen: nat, nbits: nat, strict: bool, timeout: nat, markTick: nat,
                      spaceTick: nat): DecodeResult
    requires rawlen <= |buf| && 2 * nbits + 4 <= |buf|
  {
    var data := Matched(BitTiming(markTick, spaceTick), buf[3..], nbits, true);
    DecodeEnd(data, buf, rawlen, nbits, strict, timeout, markTick, spaceTick)
  }

  // Header to end, once the lengths have been accepted.
  function DecodeMessage(buf: seq<nat>, rawlen: nat, nbits: nat, strict: bool, timeout: nat): DecodeResult
    requires rawlen <= |buf| && 2 * nbits + 4 <= |buf|
  {
    var markTick := TickOf(buf[1], HDR_MARK_TICKS);
    if rawlen == RPT_LENGTH && IsSpace(buf[2], RPT_SPACE_TICKS * TICK) && IsMark(buf[3], markTick) then REPEAT_CODE
    else if !IsSpace(buf[2], HDR_SPACE_TICKS * TICK) then Refused
    else DecodeBody(buf, rawlen, nbits, strict, timeout, markTick, TickOf(buf[2], HDR_SPACE_TICKS))
  }

  // `buf` is the whole capture buffer; its first `rawlen` entries are recorded, the first of
  // them the gap before the message. The shortest length accepted ends before the footer, and a
  // length of 4 is accepted for any number of bits, so entries beyond `rawlen` may be read;
  // IrRecorder shows that the entry its caller clears keeps them out of the answer.
  function DecodeNec(buf: seq<nat>, rawlen: nat, nbits: nat, strict: bool, timeout: nat): DecodeResult
    requires rawlen <= |buf| && 2 * nbits + 4 <= |buf|
  {
    if (rawlen < 2 * nbits + 3 && rawlen != RPT_LENGTH) || (strict && nbits != 32) then Refused
    else if !IsMark(buf[1], HDR_MARK_TICKS * TICK) then Refused
    else DecodeMessage(buf, rawlen, nbits, strict, timeout)
  }

  method ReadFields(data: nat, nbits: nat, strict: bool) returns (r: DecodeResult)
    ensures r == Fields(data, nbits, strict)
  {
    BytesOf(data);
    var command := data / 0x100 % 0x100;
    if 255 - command != data % 0x100 {
      if strict { return Refused; }
      command := 0;
    }
    command := ReverseBits(command, 8);
    var address := data / 0x100_0000 % 0x100;
    if address == 255 - data / 0x1_0000 % 0x100 {
      address := ReverseBits(address, 8);
    } else {
      address := ReverseBits(data / 0x1_0000 % 0x1_0000, 16);
    }
    r := Decoded(data, nbits, address, command, false);
  }

  method ReadEnd(data: MatchResult, buf: seq<nat>, rawlen: nat, nbits: nat, strict: bool, timeout: nat,
                 markTick: nat, spaceTick: nat)
    returns (r: DecodeResult)
    requires rawlen <= |buf| && 2 * nbits + 4 <= |buf| && (data.success ==> data.used == 2 * nbits)
    ensures r == DecodeEnd(data, buf, rawlen, nbits, strict, timeout, markTick, spaceTick)
  {
    var offset := 3;
    if !data.success { return Refused; }
    offset := offset + data.used;
    if !IsMark(buf[offset], markTick) { return Refused; }
    offset := offset + 1;
    if offset < rawlen && !IsGap(buf[offset], MIN_GAP_TICKS * spaceTick, timeout) { return Refused; }
    r := ReadFields(data.data, nbits, strict);
  }

  method ReadBody(buf: seq<nat>, rawlen: nat, nbits: nat, strict: bool, timeout: nat, markTick: nat, spaceTick: nat)
    returns (r: DecodeResult)
    requires rawlen <= |buf| && 2 * nbits + 4 <= |buf| && 2 * nbits < 0x1_0000
    ensures r == DecodeBody(buf, rawlen, nbits, strict, timeout, markTick, spaceTick)
  {
    var data := MatchData(buf[3..], nbits, BitTiming(markTick, spaceTick), true);
    r := ReadEnd(data, buf, rawlen, nbits, strict, timeout, markTick, spaceTick);
  }

  method ReadMessage(buf: seq<nat>, rawlen: nat, nbits: nat, strict: bool, timeout: nat) returns (r: DecodeResult)
    requires rawlen <= |buf| && 2 * nbits + 4 <= |buf| && 2 * nbits < 0x1_0000
    ensures r == DecodeMessage(buf, rawlen, nbits, strict, timeout)
  {
    var markTick := TickOf(buf[1], HDR_MARK_TICKS);
    if rawlen == RPT_LENGTH && IsSpace(buf[2], RPT_SPACE_TICKS * TICK) && IsMark(buf[3], markTick) {
      r := REPEAT_CODE;
    } else if !IsSpace(buf[2], HDR_SPACE_TICKS * TICK) {
      r := Refused;
    } else {
      r := ReadBody(buf, rawlen, nbits, strict, timeout, markTick, TickOf(buf[2], HDR_SPACE_TICKS));
    }
  }

  method ReadNec(buf: seq<nat>, rawlen: nat, nbits: nat, strict: bool, timeout: nat) returns (r: DecodeResult)
    requires rawlen <= |buf| && 2 * nbits + 4 <= |buf| && 2 * nbits < 0x1_0000
    ensures r == DecodeNec(buf, rawlen, nbits, strict, timeout)
  {
    if rawlen < 2 * nbits + 3 && rawlen != RPT_LENGTH { return Refused; }
    if strict && nbits != 32 { return Refused; }
    if !IsMark(buf[1], HDR_MARK_TICKS * TICK) { return Refused; }
    r := ReadMessage(buf, rawlen, nbits, strict, timeout);
  }

  // ----- What a decoder makes of the encoded word ----------------------------------------------

  // The two bytes of an address are each other's complement.
  predicate SelfInverse(address: nat) {
    address % 256 == 255 - address / 256
  }

  predicate HasBytes(data: nat, b3: int, b2: int, b1: int, b0: int) {
    ByteAt(data, 3) == b3 && ByteAt(data, 2) == b2 && ByteAt(data, 1) == b1 && ByteAt(data, 0) == b0
  }

  lemma BytesOfWords(data: nat, high: nat, low: nat, command: nat)
    requires high < 256 && low < 256 && command < 256
    requires data == (high * 256 + low) * 0x1_0000 + WithComplement(command)
    ensures HasBytes(data, high, low, command, 255 - command)
  {
    FourBytes(0, high, low, command, 255 - command);
  }

  lemma SameReversed(a: nat, b: nat)
    requires a < 256 && b < 256
    ensures ReversedLow(a, 8) == ReversedLow(b, 8) <==> a == b
  {
    ByteReversed(a);
    ByteReversed(b);
  }

  lemma ComplementReversed(x: nat)
    requires x < 256
    ensures ReversedLow(x, 8) < 256 && ReversedLow(255 - x, 8) == 255 - ReversedLow(x, 8)
  {
    assert Pow2(8) == 256;
    ReversedFlips(x, 8);
    ByteReversed(x);
  }

  lemma ReversedComplements(hi: nat, lo: nat)
    requires hi < 256 && lo < 256
    ensures ReversedLow(hi, 8) == 255 - ReversedLow(lo, 8) <==> hi == 255 - lo
  {
    ComplementReversed(lo);
    SameReversed(hi, 255 - lo);
  }

  // The reversed bytes of an address are complements exactly when the bytes are.
  lemma LongAddress(hi: nat, lo: nat)
    requires hi < 256 && lo < 256
    ensures AddressOf(ReversedLow(lo, 8), ReversedLow(hi, 8)) == if lo == 255 - hi then lo else hi * 256 + lo
  {
    HalvesReversed(hi, lo);
    ByteReversed(lo);
    ReversedComplements(hi, lo);
    WordReversed(hi * 256 + lo);
  }

  lemma ShortAddress(address: nat)
    requires address < 256
    ensures ReversedLow(address, 8) < 256
    ensures AddressOf(ReversedLow(address, 8), 255 - ReversedLow(address, 8)) == address
  {
    ByteReversed(address);
  }

  lemma LongForm(hi: nat, lo: nat, command: nat, c: nat)
    requires 0 < hi < 256 && lo < 256 && c == ReversedLow(command % 256, 8) < 256
    ensures EncodeNec(hi * 256 + lo, command)
            == (ReversedLow(lo, 8) * 256 + ReversedLow(hi, 8)) * 0x1_0000 + WithComplement(c)
  {
    HalvesReversed(hi, lo);
  }

  lemma ShortForm(address: nat, command: nat, a: nat, c: nat)
    requires address < 256 && a == ReversedLow(address, 8) < 256 && c == ReversedLow(command % 256, 8) < 256
    ensures EncodeNec(address, command) == (a * 256 + (255 - a)) * 0x1_0000 + WithComplement(c)
  {
  }

  // The encoded word in bytes: the address bytes as they are sent, then the reversed command
  // and its complement.
  lemma EncodedLong(hi: nat, lo: nat, command: nat)
    requires 0 < hi < 256 && lo < 256
    ensures var c := ReversedLow(command % 256, 8);
            HasBytes(EncodeNec(hi * 256 + lo, command), ReversedLow(lo, 8), ReversedLow(hi, 8), c, 255 - c)
  {
    var c := ReversedLow(command % 256, 8);
    ByteReversed(hi);
    ByteReversed(lo);
    ByteReversed(command % 256);
    LongForm(hi, lo, command, c);
    BytesOfWords(EncodeNec(hi * 256 + lo, command), ReversedLow(lo, 8), ReversedLow(hi, 8), c);
  }

  lemma EncodedShort(address: nat, command: nat)
    requires address < 256
    ensures var a, c := ReversedLow(address, 8), ReversedLow(command % 256, 8);
            HasBytes(EncodeNec(address, command), a, 255 - a, c, 255 - c)
  {
    var a, c := ReversedLow(address, 8), ReversedLow(command % 256, 8);
    ByteReversed(address);
    ByteReversed(command % 256);
    ShortForm(address, command, a, c);
    BytesOfWords(EncodeNec(address, command), a, 255 - a, c);
  }

  // Every command comes back as its low byte. Every address comes back whole, unless it is
  // longer than a byte and its bytes are complements: then it is taken for the short form and
  // only its low byte is left.
  lemma FieldsOfEncoded(address: nat, command: nat, strict: bool)
    requires address < 0x1_0000
    ensures var r := Fields(EncodeNec(address, command), 32, strict);
            r.Decoded? && r.bits == 32 && r.value == EncodeNec(address, command) && !r.repeat &&
            r.command == command % 256 &&
            r.address == (if address <= 255 || !SelfInverse(address) then address else address % 256) &&
            (r.address == address <==> address <= 255 || !SelfInverse(address))
  {
    ByteReversed(command % 256);
    if address > 255 {
      var hi, lo := address / 256, address % 256;
      EncodedLong(hi, lo, command);
      LongAddress(hi, lo);
    } else {
      EncodedShort(address, command);
      ShortAddress(address);
    }
  }
}

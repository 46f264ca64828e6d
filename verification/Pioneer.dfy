// Pioneer messages: two NEC words in a row, the first carrying a 16-bit address and the second
// a 16-bit command, each as a byte, its complement, a byte and its complement.
module Pioneer {
  import opened Bits
  import opened ByteOrder
  import opened Nec
  import opened NecRoundTrip
  import opened PulseCodec
  import opened PulseRoundTrip
  import opened Sequences
  import opened Signal

  const PIONEER_BITS := 64

  // ----- Sending ------------------------------------------------------------------------------

  function Word(value: nat): (data: nat)
    requires value < 0x1_0000
    ensures data < 0x1_0000_0000
  {
    EncodeNec(value / 256, value % 256)
  }

  function EncodePioneer(address: nat, command: nat): (data: nat)
    requires address < 0x1_0000 && command < 0x1_0000
  {
    Word(address) * 0x1_0000_0000 + Word(command)
  }

  function LowBits(data: nat, n: nat): (low: nat)
    ensures low <= data
  {
    Remainders(data, Pow2(n));
    data % Pow2(n)
  }

  lemma Remainders(x: nat, p: nat)
    requires p >= 1
    ensures 0 <= x % p <= x
  {
    if x < p {
      SmallMod(x, p);
    }
  }

  // The high half, then the low half, whose repeats follow it. Anything else than an even
  // number of bits that a word has is not sent at all.
  function PioneerMessage(data: nat, half: nat, first: nat, second: nat, later: seq<nat>): seq<Pulse> {
    Message(MESSAGE, Shr(data, half), half, true, first) + Message(MESSAGE, LowBits(data, half), half, true, second)
    + Messages(REPEAT_MESSAGE, 0, 0, true, later)
  }

  method SendPioneer(led: Emitter, data: nat, nbits: nat, first: nat, second: nat, later: seq<nat>)
    requires data < Pow2(64)
    modifies led
    ensures led.trace == old(led.trace) + if nbits > 64 || nbits % 2 == 1 then []
            else PioneerMessage(data, nbits / 2, first, second, later)
  {
    if nbits > 64 || nbits % 2 == 1 { return; }
    ghost var before := led.trace;
    var half := nbits / 2;
    ShrSmaller(data, half);
    SendNec(led, Shr(data, half), half, first, []);
    SendNec(led, LowBits(data, half), half, second, later);
    Joined3(before, Message(MESSAGE, Shr(data, half), half, true, first),
            Message(MESSAGE, LowBits(data, half), half, true, second), Messages(REPEAT_MESSAGE, 0, 0, true, later));
  }

  lemma Joined3<T>(before: seq<T>, a: seq<T>, b: seq<T>, c: seq<T>)
    ensures before + a + [] + b + c == before + (a + b + c)
  {
  }

  // ----- Decoding -----------------------------------------------------------------------------

  datatype Section = Bad | Good(data: nat, code: nat)

  predicate Compliant(data: nat) {
    ByteAt(data, 0) == 255 - ByteAt(data, 1) && ByteAt(data, 2) == 255 - ByteAt(data, 3)
  }

  function Code(data: nat): nat {
    ReversedLow(ByteAt(data, 1) * 256 + ByteAt(data, 3), 16)
  }

  function EndSection(data: MatchResult, buf: seq<nat>, rawlen: nat, half: nat, strict: bool, timeout: nat,
                      markTick: nat, spaceTick: nat): Section
    requires 2 * half + 4 <= |buf| && rawlen <= |buf|
  {
    if !data.success || (strict && !Compliant(data.data)) || !IsMark(buf[2 * half + 3], markTick) then Bad
    else if 2 * half + 4 < rawlen && !IsGap(buf[2 * half + 4], MIN_GAP_TICKS * spaceTick, timeout) then Bad
    else Good(data.data, Code(data.data))
  }

  function SectionBody(buf: seq<nat>, rawlen: nat, half: nat, strict: bool, timeout: nat, markTick: nat,
                       spaceTick: nat): Section
    requires 2 * half + 4 <= |buf| && rawlen <= |buf|
  {
    var data := Matched(BitTiming(markTick, spaceTick), buf[3..], half, true);
    EndSection(data, buf, rawlen, half, strict, timeout, markTick, spaceTick)
  }

  // One half, `buf` starting at the gap before its header.
  function DecodeSection(buf: seq<nat>, rawlen: nat, half: nat, strict: bool, timeout: nat): Section
    requires 2 * half + 4 <= |buf| && rawlen <= |buf|
  {
    if !IsMark(buf[1], HDR_MARK_TICKS * TICK) || !IsSpace(buf[2], HDR_SPACE_TICKS * TICK) then Bad
    else SectionBody(buf, rawlen, half, strict, timeout, TickOf(buf[1], HDR_MARK_TICKS),
        TickOf(buf[2], HDR_SPACE_TICKS))
  }

  function JoinSections(first: Section, second: Section, nbits: nat, half: nat): DecodeResult {
    if first.Bad? || second.Bad? then Refused
    else Decoded((Shl(first.data, half) + second.data) % W64, nbits, first.code, second.code, false)
  }

  // The gap between the halves is always recorded: the second half lies behind it.
  function DecodeHalves(buf: seq<nat>, rawlen: nat, nbits: nat, half: nat, strict: bool, timeout: nat): DecodeResult
    requires 2 * half + 4 < rawlen <= |buf| && 4 * half + 8 <= |buf|
  {
    JoinSections(DecodeSection(buf, rawlen, half, strict, timeout),
                 DecodeSection(buf[2 * half + 4..], rawlen - (2 * half + 4), half, strict, timeout), nbits, half)
  }

  // As for NEC the shortest length accepted ends before the last footer.
  function DecodePioneer(buf: seq<nat>, rawlen: nat, nbits: nat, strict: bool, timeout: nat): DecodeResult
    requires rawlen <= |buf| && (rawlen >= 2 * nbits + 7 ==> 2 * nbits + 8 <= |buf|)
  {
    if rawlen < 2 * (nbits + 4) - 1 || (strict && nbits != PIONEER_BITS) then Refused
    else DecodeHalves(buf, rawlen, nbits, nbits / 2, strict, timeout)
  }

  method ReadCode(data: nat) returns (code: nat, compliant: bool)
    ensures code == Code(data) && compliant == Compliant(data)
  {
    BytesOf(data);
    var command, address := data / 0x100 % 0x100, data / 0x100_0000 % 0x100;
    compliant := command == 255 - data % 0x100 && address == 255 - data / 0x1_0000 % 0x100;
    code := ReverseBits(command * 0x100 + address, 16);
  }

  method ReadEndOfSection(data: MatchResult, buf: seq<nat>, rawlen: nat, half: nat, strict: bool, timeout: nat,
                          markTick: nat, spaceTick: nat)
    returns (s: Section)
    requires 2 * half + 4 <= |buf| && rawlen <= |buf| && (data.success ==> data.used == 2 * half)
    ensures s == EndSection(data, buf, rawlen, half, strict, timeout, markTick, spaceTick)
  {
    if !data.success { return Bad; }
    var code, compliant := ReadCode(data.data);
    if strict && !compliant { return Bad; }
    var offset := 3 + data.used;
    if !IsMark(buf[offset], markTick) { return Bad; }
    offset := offset + 1;
    if offset < rawlen && !IsGap(buf[offset], MIN_GAP_TICKS * spaceTick, timeout) { return Bad; }
    s := Good(data.data, code);
  }

  method ReadSectionBody(buf: seq<nat>, rawlen: nat, half: nat, strict: bool, timeout: nat, markTick: nat,
                         spaceTick: nat)
    returns (s: Section)
    requires 2 * half + 4 <= |buf| && rawlen <= |buf| && 2 * half < 0x1_0000
    ensures s == SectionBody(buf, rawlen, half, strict, timeout, markTick, spaceTick)
  {
    var data := MatchData(buf[3..], half, BitTiming(markTick, spaceTick), true);
    s := ReadEndOfSection(data, buf, rawlen, half, strict, timeout, markTick, spaceTick);
  }

  method ReadSection(buf: seq<nat>, rawlen: nat, half: nat, strict: bool, timeout: nat) returns (s: Section)
    requires 2 * half + 4 <= |buf| && rawlen <= |buf| && 2 * half < 0x1_0000
    ensures s == DecodeSection(buf, rawlen, half, strict, timeout)
  {
    if !IsMark(buf[1], HDR_MARK_TICKS * TICK) {
      s := Bad;
    } else if !IsSpace(buf[2], HDR_SPACE_TICKS * TICK) {
      s := Bad;
    } else {
      s := ReadSectionBody(buf, rawlen, half, strict, timeout, TickOf(buf[1], HDR_MARK_TICKS),
          TickOf(buf[2], HDR_SPACE_TICKS));
    }
  }

  method ReadSecond(first: Section, rest: seq<nat>, rawlen: nat, nbits: nat, half: nat, strict: bool, timeout: nat)
    returns (r: DecodeResult)
    requires 2 * half + 4 <= |rest| && rawlen <= |rest| && 2 * half < 0x1_0000
    ensures r == JoinSections(first, DecodeSection(rest, rawlen, half, strict, timeout), nbits, half)
  {
    if first.Bad? {
      r := Refused;
    } else {
      var second := ReadSection(rest, rawlen, half, strict, timeout);
      r := JoinSections(first, second, nbits, half);
    }
  }

  method ReadHalves(buf: seq<nat>, rawlen: nat, nbits: nat, half: nat, strict: bool, timeout: nat)
    returns (r: DecodeResult)
    requires 2 * half + 4 < rawlen <= |buf| && 4 * half + 8 <= |buf| && 2 * half < 0x1_0000
    ensures r == DecodeHalves(buf, rawlen, nbits, half, strict, timeout)
  {
    var first := ReadSection(buf, rawlen, half, strict, timeout);
    r := ReadSecond(first, buf[2 * half + 4..], rawlen - (2 * half + 4), nbits, half, strict, timeout);
  }

  method ReadPioneer(buf: seq<nat>, rawlen: nat, nbits: nat, strict: bool, timeout: nat) returns (r: DecodeResult)
    requires rawlen <= |buf| && (rawlen >= 2 * nbits + 7 ==> 2 * nbits + 8 <= |buf|) && 2 * nbits < 0x1_0000
    ensures r == DecodePioneer(buf, rawlen, nbits, strict, timeout)
  {
    if rawlen < 2 * (nbits + 4) - 1 { return Refused; }
    if strict && nbits != PIONEER_BITS { return Refused; }
    r := ReadHalves(buf, rawlen, nbits, nbits / 2, strict, timeout);
  }

  // ----- Round trip ---------------------------------------------------------------------------

  lemma {:induction false} CodeOfBytes(data: nat, hi: nat, lo: nat)
    requires hi < 256 && lo < 256
    requires ByteAt(data, 3) == ReversedLow(hi, 8) && ByteAt(data, 1) == ReversedLow(lo, 8)
    ensures Code(data) == hi * 256 + lo
  {
    HalvesReversed(hi, lo);
    WordReversed(hi * 256 + lo);
  }

  lemma CompliantBytes(data: nat, a: nat, c: nat)
    requires HasBytes(data, a, 255 - a, c, 255 - c)
    ensures Compliant(data)
  {
  }

  lemma CodeOfParts(data: nat, hi: nat, lo: nat)
    requires hi < 256 && lo < 256 && data == EncodeNec(hi, lo)
    ensures Compliant(data) && Code(data) == hi * 256 + lo
  {
    assert lo % 256 == lo;
    EncodedShort(hi, lo);
    CompliantBytes(data, ReversedLow(hi, 8), ReversedLow(lo, 8));
    CodeOfBytes(data, hi, lo);
  }

  // The word sent for a 16-bit value passes both checks, and its code is the value.
  lemma CodeOfWord(value: nat)
    requires value < 0x1_0000
    ensures Compliant(Word(value)) && Code(Word(value)) == value
  {
    CodeOfParts(Word(value), value / 256, value % 256);
  }

  // A half that has been heard is refused by its checks alone.
  function Checked(data: nat, strict: bool): Section {
    if strict && !Compliant(data) then Bad else Good(data, Code(data))
  }

  lemma SectionHeard(data: nat, elapsed: nat, buf: seq<nat>, rawlen: nat, strict: bool, timeout: nat)
    requires data < 0x1_0000_0000 && Heard(Message(MESSAGE, data, 32, true, elapsed), buf, rawlen)
    ensures 68 <= rawlen && DecodeSection(buf, rawlen, 32, strict, timeout) == Checked(data, strict)
  {
    MessageParts(data, 32, elapsed);
    var m := Message(MESSAGE, data, 32, true, elapsed);
    assert Near(buf[1], m[0].usec) && Near(buf[2], m[1].usec);
    HeaderHeard(buf[1], buf[2]);
    BodyHeard(data, elapsed, buf, rawlen, strict, timeout, TickOf(buf[1], HDR_MARK_TICKS),
        TickOf(buf[2], HDR_SPACE_TICKS));
  }

  lemma BodyHeard(data: nat, elapsed: nat, buf: seq<nat>, rawlen: nat, strict: bool, timeout: nat, markTick: nat,
                  spaceTick: nat)
    requires data < 0x1_0000_0000 && CloseTicks(markTick, spaceTick)
    requires Heard(Message(MESSAGE, data, 32, true, elapsed), buf, rawlen)
    ensures 68 <= rawlen
    ensures SectionBody(buf, rawlen, 32, strict, timeout, markTick, spaceTick) == Checked(data, strict)
  {
    BitsHeard(data, 32, elapsed, buf, rawlen, markTick, spaceTick);
    InWindowsDecodes(BitTiming(markTick, spaceTick), data, 32, true, buf[3..]);
    WordFits(data);
    EndIsNear(data, 32, elapsed, buf, rawlen);
    EndChecked(Matched(BitTiming(markTick, spaceTick), buf[3..], 32, true), buf, rawlen, strict, timeout, markTick,
               spaceTick);
  }

  lemma EndChecked(data: MatchResult, buf: seq<nat>, rawlen: nat, strict: bool, timeout: nat, markTick: nat,
                   spaceTick: nat)
    requires 68 <= rawlen <= |buf| && data.success && CloseTicks(markTick, spaceTick) && Near(buf[67], 560)
    requires 68 < rawlen ==> buf[68] * RAW_TICK + JITTER >= 22400
    ensures EndSection(data, buf, rawlen, 32, strict, timeout, markTick, spaceTick) == Checked(data.data, strict)
  {
    EndHeard(markTick, spaceTick, buf[67], if 68 < rawlen then buf[68] else 0, timeout);
  }

  lemma ShlTwice(x: nat, k: nat)
    ensures Shl(x, k + 2) == 4 * Shl(x, k)
  {
    ShlNext(x, k);
    ShlNext(x, k + 1);
  }

  lemma ShlDoubles(x: nat, k: nat)
    ensures Shl(x, k + 8) == Shl(x, k) * 256
  {
    ShlTwice(x, k);
    ShlTwice(x, k + 2);
    ShlTwice(x, k + 4);
    ShlTwice(x, k + 6);
  }

  // The halves sent are the words of the address and of the command.
  lemma HalvesSent(address: nat, command: nat)
    requires address < 0x1_0000 && command < 0x1_0000
    ensures Shr(EncodePioneer(address, command), 32) == Word(address)
    ensures LowBits(EncodePioneer(address, command), 32) == Word(command)
  {
    var first, second := Word(address), Word(command);
    WordHalves(first, second);
    assert EncodePioneer(address, command) == first * 0x1_0000_0000 + second;
  }

  lemma {:induction false} ShrTwice(x: nat, k: nat)
    ensures Shr(x, k + 2) == Shr(x / 4, k)
  {
    ShrFirst(x, k + 1);
    ShrFirst(x / 2, k);
    assert x / 2 / 2 == x / 4;
  }

  lemma {:induction false} ShrBytes(x: nat, k: nat)
    ensures Shr(x, k + 8) == Shr(x / 256, k)
  {
    var a := x / 4;
    var b := a / 4;
    var c := b / 4;
    ShrTwice(x, k + 6);
    ShrTwice(a, k + 4);
    ShrTwice(b, k + 2);
    ShrTwice(c, k);
    assert c / 4 == x / 256;
  }

  lemma WordHalves(high: nat, low: nat)
    requires low < 0x1_0000_0000
    ensures Shr(high * 0x1_0000_0000 + low, 32) == high && LowBits(high * 0x1_0000_0000 + low, 32) == low
  {
    var x := high * 0x1_0000_0000 + low;
    ShrWord(x);
    assert x / 0x1_0000_0000 == high;
    WordSizes();
  }

  lemma {:induction false} ShrWord(x: nat)
    ensures Shr(x, 32) == x / 0x1_0000_0000
  {
    var b := x / 256;
    var c := b / 256;
    var d := c / 256;
    ShrBytes(x, 24);
    ShrBytes(b, 16);
    ShrBytes(c, 8);
    ShrBytes(d, 0);
  }

  lemma SectionsJoined(first: nat, second: nat, address: nat, command: nat)
    requires first < 0x1_0000_0000 && second < 0x1_0000_0000
    ensures JoinSections(Good(first, address), Good(second, command), 64, 32)
            == Decoded(first * 0x1_0000_0000 + second, 64, address, command, false)
  {
    ShlDoubles(first, 0);
    ShlDoubles(first, 8);
    ShlDoubles(first, 16);
    ShlDoubles(first, 24);
  }

  lemma TwoSections(buf: seq<nat>, rawlen: nat, strict: bool, timeout: nat, first: Section, second: Section)
    requires 136 <= |buf| && 135 <= rawlen <= |buf|
    requires first == DecodeSection(buf, rawlen, 32, strict, timeout)
    requires second == DecodeSection(buf[68..], rawlen - 68, 32, strict, timeout)
    ensures DecodePioneer(buf, rawlen, 64, strict, timeout) == JoinSections(first, second, 64, 32)
  {
  }

  lemma WordsHeard(a: nat, c: nat, first: nat, second: nat, buf: seq<nat>, rawlen: nat, strict: bool, timeout: nat)
    requires a < 0x1_0000_0000 && c < 0x1_0000_0000 && Compliant(a) && Compliant(c)
    requires 68 <= rawlen <= |buf|
    requires Heard(Message(MESSAGE, a, 32, true, first), buf, rawlen)
    requires Heard(Message(MESSAGE, c, 32, true, second), buf[68..], rawlen - 68)
    ensures 136 <= rawlen
    ensures DecodePioneer(buf, rawlen, 64, strict, timeout) == JoinSections(Good(a, Code(a)), Good(c, Code(c)), 64, 32)
  {
    SectionHeard(a, first, buf, rawlen, strict, timeout);
    SectionHeard(c, second, buf[68..], rawlen - 68, strict, timeout);
    TwoSections(buf, rawlen, strict, timeout, Good(a, Code(a)), Good(c, Code(c)));
  }

  lemma JoinedWords(address: nat, command: nat)
    requires address < 0x1_0000 && command < 0x1_0000
    ensures Compliant(Word(address)) && Compliant(Word(command))
    ensures JoinSections(Good(Word(address), Code(Word(address))), Good(Word(command), Code(Word(command))), 64, 32)
            == Decoded(EncodePioneer(address, command), 64, address, command, false)
  {
    CodeOfWord(address);
    CodeOfWord(command);
    SectionsJoined(Word(address), Word(command), address, command);
  }

  // Every 16-bit address and every 16-bit command come back, with or without the checks, when
  // both halves are heard, the gap between them in full.
  lemma PioneerRoundTrip(address: nat, command: nat, first: nat, second: nat, buf: seq<nat>, rawlen: nat,
                         strict: bool, timeout: nat)
    requires address < 0x1_0000 && command < 0x1_0000 && 68 <= rawlen <= |buf|
    requires Heard(Message(MESSAGE, Word(address), 32, true, first), buf, rawlen)
    requires Heard(Message(MESSAGE, Word(command), 32, true, second), buf[68..], rawlen - 68)
    ensures 136 <= rawlen
    ensures DecodePioneer(buf, rawlen, 64, strict, timeout)
            == Decoded(EncodePioneer(address, command), 64, address, command, false)
  {
    JoinedWords(address, command);
    WordsHeard(Word(address), Word(command), first, second, buf, rawlen, strict, timeout);
  }
}

// The pulse codec and the NEC family in microseconds: what is sent, how long it lasts, and exactly
// which widths are taken for what.
module PulseTimes {
  import opened Bits
  import opened MachineWords
  import opened Sequences
  import opened Signal
  import opened PulseCodec
  import opened PulseRoundTrip
  import opened Nec
  import opened NecRoundTrip
  import opened Pioneer

  // ----- How long a message lasts -----------------------------------------------------------------

  // If the timer was right when the footer had been sent, a message lasts its least time or its
  // pulses and its gap, whichever is longer.
  lemma MessageLasts(l: Layout, data: nat, nbits: nat, msbFirst: bool, elapsed: nat)
    requires var m := Message(l, data, nbits, msbFirst, elapsed); Time(Init(m)) == elapsed
    ensures var m := Message(l, data, nbits, msbFirst, elapsed);
            && Last(m).level == Space && Last(m).usec >= l.gap
            && Time(m) == if elapsed + l.gap >= l.mesgtime then elapsed + l.gap else l.mesgtime
  {
  }

  // ----- What any message is ----------------------------------------------------------------------

  function Parts(usec: nat): nat {
    if usec == 0 then 0 else 1
  }

  // A header mark and space and a footer mark if they are not of zero length, a mark and a space for
  // each bit, and a last space.
  predicate Shows(l: Layout, nbits: nat, m: seq<Pulse>) {
    var h := Parts(l.headermark) + Parts(l.headerspace);
    && |m| == h + 2 * nbits + Parts(l.footermark) + 1 && Last(m).level == Space
    && (l.headermark != 0 ==> m[0] == Pulse(Mark, l.headermark))
    && (l.headerspace != 0 ==> m[h - 1] == Pulse(Space, l.headerspace))
    && (l.footermark != 0 ==> m[h + 2 * nbits] == Pulse(Mark, l.footermark))
  }

  lemma {:induction false} MessageShows(l: Layout, data: nat, nbits: nat, msbFirst: bool, elapsed: nat)
    ensures Shows(l, nbits, Message(l, data, nbits, msbFirst, elapsed))
  {
    PulsesLength(l.bit, SentBits(data, nbits, msbFirst));
  }

  // The most or the least significant bit first, as asked for.
  lemma {:induction false} BitShows(l: Layout, data: nat, nbits: nat, msbFirst: bool, elapsed: nat, i: nat)
    requires i < nbits
    ensures var m, at := Message(l, data, nbits, msbFirst, elapsed),
                         Parts(l.headermark) + Parts(l.headerspace) + 2 * i;
            var one := Bit(data, if msbFirst then nbits - 1 - i else i);
            && at + 1 < |m|
            && m[at] == Pulse(Mark, if one then l.bit.onemark else l.bit.zeromark)
            && m[at + 1] == Pulse(Space, if one then l.bit.onespace else l.bit.zerospace)
  {
    var bits := SentBits(data, nbits, msbFirst);
    PulsesAt(l.bit, bits, i);
    if msbFirst {
      ToBitsAt(data, nbits, i);
    }
    var head, tail := IfAny(Mark, l.headermark) + IfAny(Space, l.headerspace), IfAny(Mark, l.footermark);
    var m, at := Message(l, data, nbits, msbFirst, elapsed), Parts(l.headermark) + Parts(l.headerspace) + 2 * i;
    Inside(m, head, Pulses(l.bit, bits), tail, [Pulse(Space, GapAfter(l, elapsed))], 2 * i, at);
    Inside(m, head, Pulses(l.bit, bits), tail, [Pulse(Space, GapAfter(l, elapsed))], 2 * i + 1, at + 1);
  }

  lemma Inside<T>(m: seq<T>, head: seq<T>, body: seq<T>, tail: seq<T>, last: seq<T>, i: nat, at: nat)
    requires m == head + body + tail + last && i < |body| && at == |head| + i
    ensures at < |m| && m[at] == body[i]
  {
  }

  // ----- NEC ------------------------------------------------------------------------------------

  // A header of 8960 and 4480 us, a mark of 560 us and a space of 1680 us for a 1 and of 560 us for
  // a 0, the most significant bit first, and a footer of 560 us.
  lemma NecTrace(data: nat, n: nat, elapsed: nat, i: nat)
    requires i < n
    ensures var m := Message(MESSAGE, data, n, true, elapsed);
            && |m| == 2 * n + 4 && m[0] == Pulse(Mark, 8960) && m[1] == Pulse(Space, 4480)
            && m[2 * i + 2] == Pulse(Mark, 560)
            && m[2 * i + 3] == Pulse(Space, if Bit(data, n - 1 - i) then 1680 else 560)
            && m[2 * n + 2] == Pulse(Mark, 560) && m[2 * n + 3].level == Space
  {
    var bits, m := ToBits(data, n), Message(MESSAGE, data, n, true, elapsed);
    MessageParts(data, n, elapsed);
    PulsesAt(BIT_TIMING, bits, i);
    ToBitsAt(data, n, i);
    assert m[2 * i + 2] == m[2..2 * n + 2][2 * i] && m[2 * i + 3] == m[2..2 * n + 2][2 * i + 1];
  }

  lemma RepeatTrace(elapsed: nat)
    ensures var m := Message(REPEAT_MESSAGE, 0, 0, true, elapsed);
            |m| == 4 && m[0] == Pulse(Mark, 8960) && m[1] == Pulse(Space, 2240) && m[2] == Pulse(Mark, 560)
            && m[3].level == Space
  {
  }

  // Messages and repeat codes alike last 108080 us, or longer to leave a gap of 22400 us.
  lemma NecLasts(data: nat, n: nat, elapsed: nat)
    requires Time(Init(Message(MESSAGE, data, n, true, elapsed))) == elapsed
    ensures Time(Message(MESSAGE, data, n, true, elapsed))
            == if elapsed + 22400 >= 108080 then elapsed + 22400 else 108080
  {
    MessageLasts(MESSAGE, data, n, true, elapsed);
  }

  lemma RepeatLasts(elapsed: nat)
    requires Time(Init(Message(REPEAT_MESSAGE, 0, 0, true, elapsed))) == elapsed
    ensures Time(Message(REPEAT_MESSAGE, 0, 0, true, elapsed))
            == if elapsed + 22400 >= 108080 then elapsed + 22400 else 108080
  {
    MessageLasts(REPEAT_MESSAGE, 0, 0, true, elapsed);
  }

  // A Pioneer message is the word of its address, the word of its command
  // and the repeat codes.
  lemma {:induction false} PioneerTrace(address: nat, command: nat, first: nat, second: nat, later: seq<nat>)
    requires address < 0x1_0000 && command < 0x1_0000
    ensures PioneerMessage(EncodePioneer(address, command), 32, first, second, later)
            == Message(MESSAGE, Word(address), 32, true, first) + Message(MESSAGE, Word(command), 32, true, second)
            + Messages(REPEAT_MESSAGE, 0, 0, true, later)
  {
    HalvesSent(address, command);
  }

  // ----- Exactly which widths are taken for what ------------------------------------------------

  // In units of 2 us, a quarter off either way and 50 us in favour of marks.
  lemma MarkWindow(raw: nat, usec: nat)
    requires usec < 0x1_0000
    ensures IsMark(raw, usec) <==> 3 * (usec + 50) - 3 <= 8 * raw <= 5 * (usec + 50) + 4
  {
  }

  lemma SpaceWindow(raw: nat, usec: nat)
    requires 50 <= usec < 0x1_0000
    ensures IsSpace(raw, usec) <==> 3 * (usec - 50) - 3 <= 8 * raw <= 5 * (usec - 50) + 4
  {
  }

  // A gap is nothing recorded, or no more than a quarter short of what is asked for or of the
  // receiver's timeout.
  lemma GapWindow(raw: nat, usec: nat, timeout: nat)
    ensures IsGap(raw, usec, timeout) <==>
            raw == 0 || 8 * raw >= 3 * (if usec < timeout then usec else timeout) - 3
  {
  }

  // ----- What is refused ------------------------------------------------------------------------

  // Under the strict check a word is refused exactly if its low two bytes are not complements.
  lemma StrictExactly(data: nat, n: nat)
    ensures Nec.Fields(data, n, true).Refused? <==> data % 256 != 255 - data / 256 % 256
    ensures Nec.Fields(data, n, false).Decoded?
  {
    BytesOf(data);
  }

  lemma CompliantExactly(data: nat)
    ensures Compliant(data) <==>
            data % 0x100 == 255 - data / 0x100 % 0x100 && data / 0x1_0000 % 0x100 == 255 - data / 0x100_0000 % 0x100
  {
    BytesOf(data);
  }

  lemma EndRefused(data: MatchResult, buf: seq<nat>, rawlen: nat, n: nat, strict: bool, timeout: nat, markTick: nat,
                   spaceTick: nat)
    requires 2 * n + 4 < rawlen <= |buf| && buf[2 * n + 4] > 0 && spaceTick >= 552
    requires 8 * buf[2 * n + 4] < 3 * (if timeout < 22080 then timeout else 22080) - 3
    ensures DecodeEnd(data, buf, rawlen, n, strict, timeout, markTick, spaceTick) == Refused
  {
    GapWindow(buf[2 * n + 4], MIN_GAP_TICKS * spaceTick, timeout);
  }

  lemma BodyRefused(buf: seq<nat>, rawlen: nat, n: nat, strict: bool, timeout: nat, markTick: nat, spaceTick: nat)
    requires 2 * n + 4 < rawlen <= |buf| && buf[2 * n + 4] > 0 && spaceTick >= 552
    requires 8 * buf[2 * n + 4] < 3 * (if timeout < 22080 then timeout else 22080) - 3
    ensures DecodeBody(buf, rawlen, n, strict, timeout, markTick, spaceTick) == Refused
  {
    var data := Matched(BitTiming(markTick, spaceTick), buf[3..], n, true);
    EndRefused(data, buf, rawlen, n, strict, timeout, markTick, spaceTick);
  }

  // A message with a silence behind it that is recorded and too short is refused.
  lemma ShortGapRefused(data: nat, n: nat, elapsed: nat, buf: seq<nat>, rawlen: nat, strict: bool, timeout: nat)
    requires 2 * n + 4 < rawlen <= |buf| && Heard(Message(MESSAGE, data, n, true, elapsed), buf, 2 * n + 4)
    requires 8 * buf[2 * n + 4] < 3 * (if timeout < 22080 then timeout else 22080) - 3 && buf[2 * n + 4] > 0
    ensures DecodeNec(buf, rawlen, n, strict, timeout) == Refused
  {
    MessageParts(data, n, elapsed);
    var m := Message(MESSAGE, data, n, true, elapsed);
    assert Near(buf[1], m[0].usec) && Near(buf[2], m[1].usec);
    HeaderHeard(buf[1], buf[2]);
    BodyRefused(buf, rawlen, n, strict, timeout, TickOf(buf[1], HDR_MARK_TICKS), TickOf(buf[2], HDR_SPACE_TICKS));
  }
}

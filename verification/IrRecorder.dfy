// The receiver that records for the pulse decoders, and what its recordings can make them
// see: nothing but the recording itself.
module IrRecorder {
  import opened Nec
  import opened NecRoundTrip
  import opened Pioneer
  import opened PulseCodec

  // The entry behind the recording has been cleared.
  predicate Cleared(buf: seq<nat>, rawlen: nat) {
    rawlen < |buf| && buf[rawlen] == 0
  }

  // Two buffers that hold the same recording.
  predicate SameRecording(a: seq<nat>, b: seq<nat>, rawlen: nat) {
    Cleared(a, rawlen) && Cleared(b, rawlen) && a[..rawlen] == b[..rawlen]
  }

  // ----- A cleared entry matches nothing --------------------------------------------------------

  lemma NoWidthIsNoMark(usec: nat)
    requires usec < 0x1_0000
    ensures !IsMark(0, usec)
  {
  }

  lemma TickIsShort(raw: nat, ticks: nat)
    requires ticks > 0 && (IsMark(raw, HDR_MARK_TICKS * TICK) || IsSpace(raw, HDR_SPACE_TICKS * TICK))
    ensures TickOf(raw, ticks) < 0x1_0000 &&
            (ticks == HDR_SPACE_TICKS && IsSpace(raw, HDR_SPACE_TICKS * TICK) ==> TickOf(raw, ticks) > 100)
  {
  }

  lemma NoWidthIsNoBit(markTick: nat, spaceTick: nat, mark: nat)
    requires 100 < spaceTick < 0x1_0000
    ensures var t := BitTiming(markTick, spaceTick); !IsOne(t, mark, 0) && !IsZero(t, mark, 0)
  {
  }

  // ----- The data bits --------------------------------------------------------------------------

  lemma {:induction false} SamePairs(t: Timing, a: seq<nat>, b: seq<nat>, i: nat, n: nat)
    requires i <= n && 2 * n <= |a| && 2 * n <= |b| && forall j :: 0 <= j < 2 * n ==> a[j] == b[j]
    ensures GoodPairs(t, a, i, n) == GoodPairs(t, b, i, n)
    decreases n - i
  {
    if i < n {
      SamePairs(t, a, b, i + 1, n);
    }
  }

  lemma SameData(t: Timing, a: seq<nat>, b: seq<nat>, n: nat)
    requires 2 * n <= |a| && 2 * n <= |b| && forall j :: 0 <= j < 2 * n ==> a[j] == b[j]
    ensures Matched(t, a, n, true) == Matched(t, b, n, true)
  {
    SamePairs(t, a, b, 0, n);
    var k := GoodPairs(t, a, 0, n);
    assert Received(t, a, k) == Received(t, b, k);
  }

  // ----- NEC ------------------------------------------------------------------------------------

  // The header of a repeat code, and the mark behind it.
  predicate IsRepeat(buf: seq<nat>)
    requires |buf| >= RPT_LENGTH
  {
    && IsMark(buf[1], HDR_MARK_TICKS * TICK) && IsSpace(buf[2], RPT_SPACE_TICKS * TICK)
    && IsMark(buf[3], TickOf(buf[1], HDR_MARK_TICKS))
  }

  lemma CutData(buf: seq<nat>, n: nat, markTick: nat, spaceTick: nat)
    requires 2 * n <= |buf| && n > 0 && buf[1] == 0 && 100 < spaceTick < 0x1_0000
    ensures !Matched(BitTiming(markTick, spaceTick), buf, n, true).success
  {
    NoWidthIsNoBit(markTick, spaceTick, buf[0]);
    PairRefused(BitTiming(markTick, spaceTick), buf, 0, n);
  }

  lemma CutEnd(data: MatchResult, buf: seq<nat>, rawlen: nat, n: nat, strict: bool, timeout: nat, markTick: nat,
               spaceTick: nat)
    requires rawlen <= |buf| && 2 * n + 4 <= |buf| && markTick < 0x1_0000
    requires data.success ==> buf[2 * n + 3] == 0
    ensures DecodeEnd(data, buf, rawlen, n, strict, timeout, markTick, spaceTick) == Refused
  {
    NoWidthIsNoMark(markTick);
  }

  lemma CutBody(buf: seq<nat>, rawlen: nat, n: nat, strict: bool, timeout: nat, markTick: nat, spaceTick: nat)
    requires Cleared(buf, rawlen) && 2 * n + 4 <= |buf| && markTick < 0x1_0000 && 100 < spaceTick < 0x1_0000
    requires rawlen == 2 * n + 3 || (n > 0 && rawlen == 4)
    ensures DecodeBody(buf, rawlen, n, strict, timeout, markTick, spaceTick) == Refused
  {
    var data := Matched(BitTiming(markTick, spaceTick), buf[3..], n, true);
    if rawlen == 4 && n > 0 {
      CutData(buf[3..], n, markTick, spaceTick);
    }
    CutEnd(data, buf, rawlen, n, strict, timeout, markTick, spaceTick);
  }

  // A recording that ends before the footer is a repeat code or nothing.
  lemma TruncatedNec(buf: seq<nat>, rawlen: nat, n: nat, strict: bool, timeout: nat)
    requires Cleared(buf, rawlen) && rawlen < 2 * n + 4 <= |buf|
    ensures DecodeNec(buf, rawlen, n, strict, timeout)
            == if rawlen == RPT_LENGTH && (strict ==> n == 32) && IsRepeat(buf) then REPEAT_CODE else Refused
  {
    if rawlen >= 3 && IsMark(buf[1], HDR_MARK_TICKS * TICK) && IsSpace(buf[2], HDR_SPACE_TICKS * TICK)
       && (rawlen == 2 * n + 3 || rawlen == 4) {
      TickIsShort(buf[1], HDR_MARK_TICKS);
      TickIsShort(buf[2], HDR_SPACE_TICKS);
      CutBody(buf, rawlen, n, strict, timeout, TickOf(buf[1], HDR_MARK_TICKS), TickOf(buf[2], HDR_SPACE_TICKS));
    }
  }

  lemma SameBody(a: seq<nat>, b: seq<nat>, rawlen: nat, n: nat, strict: bool, timeout: nat, markTick: nat,
                 spaceTick: nat)
    requires rawlen <= |a| && rawlen <= |b| && a[..rawlen] == b[..rawlen] && 2 * n + 4 <= rawlen
    ensures DecodeBody(a, rawlen, n, strict, timeout, markTick, spaceTick)
         == DecodeBody(b, rawlen, n, strict, timeout, markTick, spaceTick)
  {
    Agree(a, b, rawlen);
    SameData(BitTiming(markTick, spaceTick), a[3..], b[3..], n);
  }

  lemma Agree(a: seq<nat>, b: seq<nat>, n: nat)
    requires n <= |a| && n <= |b| && a[..n] == b[..n]
    ensures forall j :: 0 <= j < n ==> a[j] == b[j]
  {
    forall j | 0 <= j < n
      ensures a[j] == b[j]
    {
      assert a[..n][j] == b[..n][j];
    }
  }

  lemma SameMessage(a: seq<nat>, b: seq<nat>, rawlen: nat, n: nat, strict: bool, timeout: nat)
    requires rawlen <= |a| && rawlen <= |b| && a[..rawlen] == b[..rawlen] && 2 * n + 4 <= rawlen
    ensures DecodeMessage(a, rawlen, n, strict, timeout) == DecodeMessage(b, rawlen, n, strict, timeout)
  {
    Agree(a, b, rawlen);
    SameBody(a, b, rawlen, n, strict, timeout, TickOf(a[1], HDR_MARK_TICKS), TickOf(a[2], HDR_SPACE_TICKS));
  }

  lemma SameLong(a: seq<nat>, b: seq<nat>, rawlen: nat, n: nat, strict: bool, timeout: nat)
    requires rawlen <= |a| && rawlen <= |b| && a[..rawlen] == b[..rawlen] && 2 * n + 4 <= rawlen
    ensures DecodeNec(a, rawlen, n, strict, timeout) == DecodeNec(b, rawlen, n, strict, timeout)
  {
    Agree(a, b, rawlen);
    SameMessage(a, b, rawlen, n, strict, timeout);
  }

  lemma SameRepeat(a: seq<nat>, b: seq<nat>)
    requires RPT_LENGTH <= |a| && RPT_LENGTH <= |b| && a[..RPT_LENGTH] == b[..RPT_LENGTH]
    ensures IsRepeat(a) == IsRepeat(b)
  {
    Agree(a, b, RPT_LENGTH);
  }

  // The answer depends on the recording alone, not on what the buffer held before.
  lemma NecReadsItsRecording(a: seq<nat>, b: seq<nat>, rawlen: nat, n: nat, strict: bool, timeout: nat)
    requires SameRecording(a, b, rawlen) && 2 * n + 4 <= |a| && 2 * n + 4 <= |b|
    ensures DecodeNec(a, rawlen, n, strict, timeout) == DecodeNec(b, rawlen, n, strict, timeout)
  {
    if rawlen < 2 * n + 4 {
      if rawlen == RPT_LENGTH { SameRepeat(a, b); }
      TruncatedNec(a, rawlen, n, strict, timeout);
      TruncatedNec(b, rawlen, n, strict, timeout);
    } else {
      SameLong(a, b, rawlen, n, strict, timeout);
    }
  }

  // ----- Pioneer --------------------------------------------------------------------------------

  lemma CutSection(buf: seq<nat>, half: nat, strict: bool, timeout: nat)
    requires Cleared(buf, 2 * half + 3)
    ensures DecodeSection(buf, 2 * half + 3, half, strict, timeout) == Bad
  {
    if IsMark(buf[1], HDR_MARK_TICKS * TICK) {
      TickIsShort(buf[1], HDR_MARK_TICKS);
      NoWidthIsNoMark(TickOf(buf[1], HDR_MARK_TICKS));
    }
  }

  lemma SameSection(a: seq<nat>, b: seq<nat>, rawlen: nat, half: nat, strict: bool, timeout: nat)
    requires rawlen <= |a| && rawlen <= |b| && a[..rawlen] == b[..rawlen] && 2 * half + 4 <= rawlen
    ensures DecodeSection(a, rawlen, half, strict, timeout) == DecodeSection(b, rawlen, half, strict, timeout)
  {
    Agree(a, b, rawlen);
    SameData(BitTiming(TickOf(a[1], HDR_MARK_TICKS), TickOf(a[2], HDR_SPACE_TICKS)), a[3..], b[3..], half);
  }

  lemma SameRest(a: seq<nat>, b: seq<nat>, rawlen: nat, k: nat)
    requires k <= rawlen <= |a| && rawlen <= |b| && a[..rawlen] == b[..rawlen]
    ensures a[k..][..rawlen - k] == b[k..][..rawlen - k]
  {
    assert a[k..][..rawlen - k] == a[..rawlen][k..];
    assert b[k..][..rawlen - k] == b[..rawlen][k..];
  }

  lemma HalvesAre(buf: seq<nat>, rawlen: nat, nbits: nat, half: nat, strict: bool, timeout: nat, first: Section,
                  second: Section)
    requires 4 * half + 8 <= rawlen <= |buf| && first == DecodeSection(buf, rawlen, half, strict, timeout)
    requires var k := 2 * half + 4; second == DecodeSection(buf[k..], rawlen - k, half, strict, timeout)
    ensures DecodeHalves(buf, rawlen, nbits, half, strict, timeout) == JoinSections(first, second, nbits, half)
  {
  }

  lemma SameHalves(a: seq<nat>, b: seq<nat>, rawlen: nat, nbits: nat, half: nat, strict: bool, timeout: nat)
    requires 4 * half + 8 <= rawlen <= |a| && rawlen <= |b| && a[..rawlen] == b[..rawlen]
    ensures DecodeHalves(a, rawlen, nbits, half, strict, timeout)
            == DecodeHalves(b, rawlen, nbits, half, strict, timeout)
  {
    var k := 2 * half + 4;
    SameRest(a, b, rawlen, k);
    SameSection(a, b, rawlen, half, strict, timeout);
    SameSection(a[k..], b[k..], rawlen - k, half, strict, timeout);
    var first, second := DecodeSection(a, rawlen, half, strict, timeout),
        DecodeSection(a[k..], rawlen - k, half, strict, timeout);
    HalvesAre(a, rawlen, nbits, half, strict, timeout, first, second);
    HalvesAre(b, rawlen, nbits, half, strict, timeout, first, second);
  }

  // A recording that ends before the second footer is refused.
  lemma TruncatedPioneer(buf: seq<nat>, rawlen: nat, nbits: nat, strict: bool, timeout: nat)
    requires Cleared(buf, rawlen) && rawlen < 4 * (nbits / 2) + 8
    ensures DecodePioneer(buf, rawlen, nbits, strict, timeout) == Refused
  {
    var half := nbits / 2;
    if rawlen == 4 * half + 7 {
      CutSection(buf[2 * half + 4..], half, strict, timeout);
    }
  }

  lemma PioneerReadsItsRecording(a: seq<nat>, b: seq<nat>, rawlen: nat, nbits: nat, strict: bool, timeout: nat)
    requires SameRecording(a, b, rawlen)
    ensures DecodePioneer(a, rawlen, nbits, strict, timeout) == DecodePioneer(b, rawlen, nbits, strict, timeout)
  {
    var half := nbits / 2;
    if rawlen < 4 * half + 8 {
      TruncatedPioneer(a, rawlen, nbits, strict, timeout);
      TruncatedPioneer(b, rawlen, nbits, strict, timeout);
    } else {
      SameHalves(a, b, rawlen, nbits, half, strict, timeout);
    }
  }

  // ----- The receiver ---------------------------------------------------------------------------

  // The first protocol that takes the recording decides; NEC is tried once more without its
  // check.
  function Answer(buf: seq<nat>, rawlen: nat, timeout: nat): DecodeResult
    requires rawlen < |buf| && 68 <= |buf|
  {
    var pioneer := DecodePioneer(buf, rawlen, PIONEER_BITS, true, timeout);
    var nec := DecodeNec(buf, rawlen, 32, true, timeout);
    if pioneer.Decoded? then pioneer else if nec.Decoded? then nec else DecodeNec(buf, rawlen, 32, false, timeout)
  }

  lemma AnswersItsRecording(a: seq<nat>, b: seq<nat>, rawlen: nat, timeout: nat)
    requires SameRecording(a, b, rawlen) && 68 <= |a| && 68 <= |b|
    ensures Answer(a, rawlen, timeout) == Answer(b, rawlen, timeout)
  {
    PioneerReadsItsRecording(a, b, rawlen, PIONEER_BITS, true, timeout);
    NecReadsItsRecording(a, b, rawlen, 32, true, timeout);
    NecReadsItsRecording(a, b, rawlen, 32, false, timeout);
  }

  // A recording shorter than a message is a repeat code or nothing at all.
  lemma TruncatedIsRefused(buf: seq<nat>, rawlen: nat, timeout: nat)
    requires Cleared(buf, rawlen) && rawlen < 68 <= |buf|
    ensures Answer(buf, rawlen, timeout) == if rawlen == RPT_LENGTH && IsRepeat(buf) then REPEAT_CODE else Refused
  {
    TruncatedPioneer(buf, rawlen, PIONEER_BITS, true, timeout);
    TruncatedNec(buf, rawlen, 32, true, timeout);
    TruncatedNec(buf, rawlen, 32, false, timeout);
  }

  lemma CompliantNec(address: nat, command: nat)
    requires address < 0x1_0000
    ensures Compliant(EncodeNec(address, command)) <==> address <= 255 || SelfInverse(address)
  {
    if address > 255 {
      var hi, lo := address / 256, address % 256;
      EncodedLong(hi, lo, command);
      ReversedComplements(hi, lo);
    } else {
      EncodedShort(address, command);
    }
  }

  // What follows the message in the recording is a half of a Pioneer message.
  predicate HalfFollows(buf: seq<nat>, rawlen: nat, timeout: nat)
    requires 68 <= |buf| && rawlen < |buf|
  {
    rawlen >= 135 && DecodeSection(buf[68..], rawlen - 68, 32, true, timeout).Good?
  }

  lemma NecAsHalf(data: nat, elapsed: nat, buf: seq<nat>, rawlen: nat, timeout: nat)
    requires data < 0x1_0000_0000 && rawlen < |buf| && Heard(Message(MESSAGE, data, 32, true, elapsed), buf, rawlen)
    ensures 68 <= rawlen
    ensures DecodePioneer(buf, rawlen, 64, true, timeout).Decoded?
            <==> Compliant(data) && HalfFollows(buf, rawlen, timeout)
  {
    SectionHeard(data, elapsed, buf, rawlen, true, timeout);
    if rawlen >= 135 {
      TwoSections(buf, rawlen, true, timeout, Pioneer.Checked(data, true),
                  DecodeSection(buf[68..], rawlen - 68, 32, true, timeout));
    }
  }

  // So a NEC message heard is answered with what was encoded, within the limits of the code,
  // unless it can be the first half of a Pioneer message and a second one follows it,
  lemma NecIsAnswered(address: nat, command: nat, elapsed: nat, buf: seq<nat>, rawlen: nat, timeout: nat)
    requires address < 0x1_0000 && rawlen < |buf|
    requires Heard(Message(MESSAGE, EncodeNec(address, command), 32, true, elapsed), buf, rawlen)
    ensures 68 <= rawlen
    ensures var r := Answer(buf, rawlen, timeout);
            if (address <= 255 || SelfInverse(address)) && HalfFollows(buf, rawlen, timeout)
            then r == DecodePioneer(buf, rawlen, 64, true, timeout) && r.Decoded? && r.bits == 64
            else r.Decoded? && r.value == EncodeNec(address, command) && r.bits == 32 && !r.repeat &&
                 r.command == command % 256 && (r.address == address <==> address <= 255 || !SelfInverse(address))
  {
    CompliantNec(address, command);
    NecAsHalf(EncodeNec(address, command), elapsed, buf, rawlen, timeout);
    NecRoundTrip.NecRoundTrip(address, command, elapsed, buf, rawlen, true, timeout);
  }

  // Any other word of 32 bits is answered all the same, by the attempt without the check,
  lemma WordIsAnswered(data: nat, elapsed: nat, buf: seq<nat>, rawlen: nat, timeout: nat)
    requires data < 0x1_0000_0000 && rawlen < |buf| && Heard(Message(MESSAGE, data, 32, true, elapsed), buf, rawlen)
    ensures 68 <= rawlen
    ensures var r := Answer(buf, rawlen, timeout);
            r.Decoded? && if Compliant(data) && HalfFollows(buf, rawlen, timeout)
                          then r == DecodePioneer(buf, rawlen, 64, true, timeout)
                          else r.value == data && r.bits == 32 && !r.repeat
  {
    NecAsHalf(data, elapsed, buf, rawlen, timeout);
    WordIsRead(data, elapsed, buf, rawlen, true, timeout);
    WordIsRead(data, elapsed, buf, rawlen, false, timeout);
  }

  // and a Pioneer message with its address and command, not as its first or second half.
  lemma PioneerIsAnswered(address: nat, command: nat, first: nat, second: nat, buf: seq<nat>, rawlen: nat, timeout: nat)
    requires address < 0x1_0000 && command < 0x1_0000 && 68 <= rawlen < |buf|
    requires Heard(Message(MESSAGE, Word(address), 32, true, first), buf, rawlen)
    requires Heard(Message(MESSAGE, Word(command), 32, true, second), buf[68..], rawlen - 68)
    ensures Answer(buf, rawlen, timeout) == Decoded(EncodePioneer(address, command), 64, address, command, false)
  {
    PioneerRoundTrip(address, command, first, second, buf, rawlen, true, timeout);
  }

  class Recorder {
    const rawbuf: array<nat>
    const save: array?<nat>
    var rawlen: nat
    var stopped: bool
    var overflow: bool

    ghost predicate Valid()
      reads this
    {
      rawlen < rawbuf.Length && 68 <= rawbuf.Length && (save != null ==> save != rawbuf && save.Length == rawbuf.Length)
    }

    constructor (rawbuf: array<nat>, save: array?<nat>)
      requires 68 <= rawbuf.Length && (save != null ==> save != rawbuf && save.Length == rawbuf.Length)
      ensures Valid() && this.rawbuf == rawbuf && this.save == save && !stopped && rawlen == 0 && !overflow
    {
      this.rawbuf, this.save, rawlen, stopped, overflow := rawbuf, save, 0, false, false;
    }

    method Resume()
      modifies this
      ensures !stopped && rawlen == 0 && !overflow
    {
      stopped, rawlen, overflow := false, 0, false;
    }

    method CopyTo(to: array<nat>)
      requires to != rawbuf && to.Length == rawbuf.Length
      modifies to
      ensures to[..] == rawbuf[..]
    {
      for i := 0 to to.Length
        invariant forall j :: 0 <= j < i ==> to[j] == rawbuf[j]
        invariant rawbuf[..] == old(rawbuf[..])
      {
        to[i] := rawbuf[i];
      }
    }

    // Clears the entry behind the recording and tries the protocols on it. With a save buffer
    // they work on a copy and recording starts again at once; without one it does so only
    // when nothing was recognised.
    method Decode(timeout: nat) returns (r: DecodeResult)
      requires Valid()
      modifies this, rawbuf, save
      ensures Valid()
      ensures !old(stopped) ==> r == Refused && rawbuf[..] == old(rawbuf[..]) && unchanged(this)
      ensures old(stopped) ==> rawbuf[..] == old(rawbuf[..][rawlen := 0])
      ensures old(stopped) ==> r == Answer(rawbuf[..], old(rawlen), timeout)
      ensures old(stopped) && save != null ==> save[..] == rawbuf[..]
      ensures old(stopped) ==> stopped == (save == null && r.Decoded?) && rawlen == (if stopped then old(rawlen) else 0)
    {
      if !stopped { return Refused; }
      rawbuf[rawlen] := 0;
      var buf, length := rawbuf, rawlen;
      if save != null {
        CopyTo(save);
        buf := save;
        Resume();
      }
      r := ReadPioneer(buf[..], length, PIONEER_BITS, true, timeout);
      if r.Decoded? { return; }
      r := ReadNec(buf[..], length, 32, true, timeout);
      if r.Decoded? { return; }
      r := ReadNec(buf[..], length, 32, false, timeout);
      if r.Decoded? { return; }
      if save == null { Resume(); }
    }
  }
}

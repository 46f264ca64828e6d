// The two Philips Manchester codes, RC5 and RC6, as sent and as decoded from the
// run-length buffer of the capture interrupt.
module RcCodes {
  import opened Bits
  import opened MachineWords
  import opened Sequences
  import opened Signal

  const USEC_PER_TICK := 50
  const MARK_EXCESS := 100
  const TOLERANCE := 25

  // ----- Width matching -------------------------------------------------------

  function TruncDiv(a: int, b: int): int
    requires b > 0
  {
    if a >= 0 then a / b else -((-a) / b)
  }

  function TicksLow(usec: int): int {
    TruncDiv(usec * (100 - TOLERANCE), 100 * USEC_PER_TICK)
  }

  function TicksHigh(usec: int): int {
    TruncDiv(usec * (100 + TOLERANCE) + 100 * USEC_PER_TICK, 100 * USEC_PER_TICK)
  }

  predicate Match(measured: int, desired: int) {
    TicksLow(desired) <= measured <= TicksHigh(desired)
  }

  predicate MatchMark(ticks: int, usec: int) {
    Match(ticks, usec + MARK_EXCESS)
  }

  predicate MatchSpace(ticks: int, usec: int) {
    Match(ticks, usec - MARK_EXCESS)
  }

  // How many time units a recorded width stands for; 0 when it is not a multiple of t1.
  function Units(width: nat, level: Level, t1: nat): (n: nat)
    ensures n <= 3
  {
    var correction := if level == Mark then MARK_EXCESS else -MARK_EXCESS;
    if Match(width, t1 + correction) then 1
    else if Match(width, 2 * t1 + correction) then 2
    else if Match(width, 3 * t1 + correction) then 3
    else 0
  }

  // ----- The codes ------------------------------------------------------------

  datatype Code = Rc5 | Rc6

  const MIN_RC5_SAMPLES := 11
  const MIN_RC6_SAMPLES := 1
  const RC5_T1 := 889
  const RC6_T1 := 444
  const RC6_HDR_MARK := 2666
  const RC6_HDR_SPACE := 889

  function T1(code: Code): (t: nat)
    ensures t > 0
  {
    if code.Rc5? then RC5_T1 else RC6_T1
  }

  // RC6's fourth data bit is sent with halves of double width.
  function HalfWidth(code: Code, i: nat): nat {
    if code.Rc6? && i == 3 then 2 else 1
  }

  function FirstHalf(code: Code, bit: bool): Level {
    if code.Rc5? == bit then Space else Mark
  }

  function Start(code: Code): seq<Level> {
    if code.Rc5? then [Mark, Space, Mark] else [Mark, Space]
  }

  function Header(code: Code): seq<Pulse> {
    if code.Rc5? then [] else [Pulse(Mark, RC6_HDR_MARK), Pulse(Space, RC6_HDR_SPACE)]
  }

  function HalfUsec(code: Code, i: nat): (t: nat)
    ensures t == HalfWidth(code, i) * T1(code)
  {
    if HalfWidth(code, i) == 2 then 2 * T1(code) else T1(code)
  }

  function BitPulses(code: Code, bit: bool, i: nat): seq<Pulse> {
    var t := HalfUsec(code, i);
    [Pulse(FirstHalf(code, bit), t), Pulse(Other(FirstHalf(code, bit)), t)]
  }

  function StartPulses(code: Code): seq<Pulse> {
    if code.Rc5? then [Pulse(Mark, RC5_T1), Pulse(Space, RC5_T1), Pulse(Mark, RC5_T1)]
    else [Pulse(Mark, RC6_T1), Pulse(Space, RC6_T1)]
  }

  // Everything a sender emits after the header and before the closing `space(0)`.
  function Body(code: Code, bits: seq<bool>): seq<Pulse> {
    if bits == [] then StartPulses(code)
    else Body(code, Init(bits)) + BitPulses(code, Last(bits), |bits| - 1)
  }

  function Transmission(code: Code, bits: seq<bool>): seq<Pulse> {
    Header(code) + Body(code, bits) + [Pulse(Space, 0)]
  }

  // The same message in time units.
  function Halves(code: Code, bit: bool, i: nat): seq<Level> {
    Hold(FirstHalf(code, bit), HalfWidth(code, i)) + Hold(Other(FirstHalf(code, bit)), HalfWidth(code, i))
  }

  function Encode(code: Code, bits: seq<bool>, i: nat): seq<Level> {
    if bits == [] then [] else Halves(code, bits[0], i) + Encode(code, bits[1..], i + 1)
  }

  function HalfBits(code: Code, bits: seq<bool>): seq<Level> {
    Start(code) + Encode(code, bits, 0)
  }

  // The pulses of one more bit extend the trace of a body.
  lemma {:induction false} BodyStep(code: Code, before: seq<Pulse>, bits: seq<bool>, sent: nat)
    requires sent < |bits|
    ensures var first, t := FirstHalf(code, bits[sent]), HalfUsec(code, sent);
            before + Body(code, bits[..sent]) + [Pulse(first, t)] + [Pulse(Other(first), t)]
            == before + Body(code, bits[..sent + 1])
  {
    assert bits[..sent + 1] == bits[..sent] + [bits[sent]];
  }

  method SendRC5(led: Emitter, data: nat, nbits: nat)
    requires 1 <= nbits <= 32
    modifies led
    ensures led.trace == old(led.trace) + Transmission(Rc5, ToBits(data, nbits))
  {
    led.SendMark(RC5_T1);
    led.SendSpace(RC5_T1);
    led.SendMark(RC5_T1);
    ghost var before, bits := old(led.trace), ToBits(data, nbits);
    for sent := 0 to nbits
      invariant led.trace == before + Body(Rc5, bits[..sent])
    {
      ToBitsAt(data, nbits, sent);
      BodyStep(Rc5, before, bits, sent);
      if Bit(data, nbits - 1 - sent) {
        led.SendSpace(RC5_T1);
        led.SendMark(RC5_T1);
      } else {
        led.SendMark(RC5_T1);
        led.SendSpace(RC5_T1);
      }
    }
    assert bits[..nbits] == bits;
    led.SendSpace(0);
  }

  lemma Rc6Opening(before: seq<Pulse>)
    ensures before + [Pulse(Mark, RC6_HDR_MARK)] + [Pulse(Space, RC6_HDR_SPACE)] + [Pulse(Mark, RC6_T1)]
            + [Pulse(Space, RC6_T1)] == before + Header(Rc6) + Body(Rc6, [])
  {
  }

  lemma {:induction false} Closing(code: Code, before: seq<Pulse>, bits: seq<bool>)
    ensures before + Header(code) + Body(code, bits) + [Pulse(Space, 0)] == before + Transmission(code, bits)
  {
  }

  method SendRC6(led: Emitter, data: nat, nbits: nat)
    requires 1 <= nbits <= 32
    modifies led
    ensures led.trace == old(led.trace) + Transmission(Rc6, ToBits(data, nbits))
  {
    led.SendMark(RC6_HDR_MARK);
    led.SendSpace(RC6_HDR_SPACE);
    led.SendMark(RC6_T1);
    led.SendSpace(RC6_T1);
    ghost var before, bits := old(led.trace) + Header(Rc6), ToBits(data, nbits);
    Rc6Opening(old(led.trace));
    Closing(Rc6, old(led.trace), bits);
    assert bits[..0] == [];
    for sent := 0 to nbits
      invariant led.trace == before + Body(Rc6, bits[..sent])
    {
      var t := if sent + 1 == 4 then RC6_T1 * 2 else RC6_T1;
      ToBitsAt(data, nbits, sent);
      BodyStep(Rc6, before, bits, sent);
      if Bit(data, nbits - 1 - sent) {
        led.SendMark(t);
        led.SendSpace(t);
      } else {
        led.SendSpace(t);
        led.SendMark(t);
      }
    }
    assert bits[..nbits] == bits;
    led.SendSpace(0);
  }

  // ----- The buffer read back as levels ----------------------------------------

  datatype Reading = Read(level: Level) | Bad

  function LevelAt(offset: nat): Level {
    if offset % 2 == 1 then Mark else Space
  }

  // One recorded width as readings: its level once per time unit, or Bad.
  function Readings(width: nat, offset: nat, t1: nat): (r: seq<Reading>)
    ensures r != []
  {
    var n := Units(width, LevelAt(offset), t1);
    if n == 0 then [Bad] else Hold(Read(LevelAt(offset)), n)
  }

  function Tape(buf: seq<nat>, rawlen: nat, offset: nat, t1: nat): seq<Reading>
    requires rawlen <= |buf|
    decreases rawlen - offset
  {
    if offset >= rawlen then [] else Readings(buf[offset], offset, t1) + Tape(buf, rawlen, offset + 1, t1)
  }

  function At(tape: seq<Reading>, k: nat): Reading {
    if k < |tape| then tape[k] else Read(Space)
  }

  function Drop(tape: seq<Reading>, k: nat): seq<Reading> {
    if k <= |tape| then tape[k..] else []
  }

  lemma DropTwice(tape: seq<Reading>, j: nat, k: nat)
    ensures Drop(Drop(tape, j), k) == Drop(tape, j + k)
    ensures At(Drop(tape, j), k) == At(tape, j + k)
  {
  }

  // `rest` is what is still to be read from the cursor (offset, used).
  ghost predicate Reads(buf: seq<nat>, rawlen: nat, offset: nat, used: nat, t1: nat, rest: seq<Reading>)
    requires rawlen <= |buf|
  {
    && (used == 0 || (offset < rawlen && used < |Readings(buf[offset], offset, t1)|))
    && rest == Drop(Tape(buf, rawlen, offset, t1), used)
  }

  // Successive calls return the recorded levels one time unit at a time, then Space
  // for ever; a width that is no multiple of t1 gives Bad and holds the cursor.
  method GetRCLevel(buf: seq<nat>, rawlen: nat, offset: nat, used: nat, t1: nat, ghost rest: seq<Reading>)
    returns (val: Reading, offset': nat, used': nat, ghost rest': seq<Reading>)
    requires rawlen <= |buf| && Reads(buf, rawlen, offset, used, t1, rest)
    ensures Reads(buf, rawlen, offset', used', t1, rest')
    ensures val == At(rest, 0) && rest' == if val.Bad? then rest else Drop(rest, 1)
    ensures if offset >= rawlen || val.Bad? then offset' == offset && used' == used
            else offset' == offset + 1 || (offset' == offset && used < used' < 3)
  {
    offset', used', rest' := offset, used, rest;
    if offset >= rawlen { return Read(Space), offset, used, rest; }
    var level := LevelAt(offset);
    var avail := Units(buf[offset], level, t1);
    if avail == 0 { return Bad, offset, used, rest; }
    val := Read(level);
    used' := used + 1;
    rest' := Drop(rest, 1);
    if used' >= avail {
      used' := 0;
      offset' := offset + 1;
    }
  }

  // ----- What the decoders accept ----------------------------------------------

  // The bits spelled by a tape, reading Space beyond its end. The tape must be used up
  // exactly at a bit boundary or inside the last bit.
  function Parse(code: Code, tape: seq<Reading>, i: nat): (r: (bool, seq<bool>))
    decreases |tape|
  {
    if tape == [] then (true, [])
    else
      var w := HalfWidth(code, i);
      var a, b := At(tape, 0), At(tape, w);
      if a.Bad? || b.Bad? || At(tape, w - 1) != a || At(tape, 2 * w - 1) != b || a == b then (false, [])
      else
        var rest := Parse(code, Drop(tape, 2 * w), i + 1);
        (rest.0, [a.level == FirstHalf(code, true)] + rest.1)
  }

  function ParseAll(code: Code, tape: seq<Reading>): (bool, seq<bool>) {
    if At(tape, 0) == Read(Mark) && At(tape, 1) == Read(Space) && (code.Rc5? ==> At(tape, 2) == Read(Mark))
    then Parse(code, Drop(tape, |Start(code)|), 0)
    else (false, [])
  }

  datatype Decoded = Reject | Accept(bits: nat, value: nat)

  // Bits shifted into a 32-bit word one after the other; what leaves it at the top is gone.
  function ShiftAll(word: nat, bits: seq<bool>): nat
    decreases |bits|
  {
    if bits == [] then word else ShiftAll((2 * word + Digit(bits[0])) % WORD, bits[1..])
  }

  lemma {:induction false} ShiftCons(word: nat, bit: bool, tail: seq<bool>)
    ensures ShiftAll(word, [bit] + tail) == ShiftAll((2 * word + Digit(bit)) % WORD, tail)
  {
    assert ([bit] + tail)[1..] == tail;
  }

  lemma {:induction false} ShiftSnoc(word: nat, bits: seq<bool>, b: bool)
    ensures ShiftAll(word, bits + [b]) == (2 * ShiftAll(word, bits) + Digit(b)) % WORD
    decreases |bits|
  {
    if bits != [] {
      assert (bits + [b])[1..] == bits[1..] + [b];
      ShiftSnoc((2 * word + Digit(bits[0])) % WORD, bits[1..], b);
    }
  }

  // What ends up in the word is the value modulo 2^32.
  lemma {:induction false} ShiftedValue(bits: seq<bool>)
    ensures ShiftAll(0, bits) == Value(bits) % WORD
  {
    if bits != [] {
      ShiftedValue(Init(bits));
      ShiftSnoc(0, Init(bits), Last(bits));
      assert Init(bits) + [Last(bits)] == bits;
      var v, d := Value(Init(bits)), Digit(Last(bits));
      var q, x := v / WORD, 2 * (v % WORD) + d;
      DivModUnique(2 * v + d, WORD, 2 * q + x / WORD, x % WORD);
    }
  }

  function Result(parsed: (bool, seq<bool>)): Decoded {
    if parsed.0 then Accept(|parsed.1|, ShiftAll(0, parsed.1)) else Reject
  }

  // The checks made before the first level is read.
  predicate Admitted(code: Code, buf: seq<nat>, rawlen: nat)
    requires |buf| == RAWBUF
  {
    if code.Rc5? then rawlen >= MIN_RC5_SAMPLES + 2
    else rawlen >= MIN_RC6_SAMPLES && MatchMark(buf[1], RC6_HDR_MARK) && MatchSpace(buf[2], RC6_HDR_SPACE)
  }

  function FirstOffset(code: Code): nat {
    if code.Rc5? then 1 else 3
  }

  function Decode(code: Code, buf: seq<nat>, rawlen: nat): Decoded
    requires rawlen <= |buf| == RAWBUF
  {
    if Admitted(code, buf, rawlen) then Result(ParseAll(code, Tape(buf, rawlen, FirstOffset(code), T1(code))))
    else Reject
  }

  // The level of w readings from k on, if there is one level.
  function Half(tape: seq<Reading>, k: nat, w: nat): Reading
    requires w > 0
  {
    if At(tape, k).Read? && At(tape, k + w - 1) == At(tape, k) then At(tape, k) else Bad
  }

  lemma HalfBehind(tape: seq<Reading>, w: nat)
    requires w > 0
    ensures Half(Drop(tape, w), 0, w) == Half(tape, w, w) && Drop(Drop(tape, w), w) == Drop(tape, 2 * w)
  {
    DropTwice(tape, w, 0);
    DropTwice(tape, w, w - 1);
    DropTwice(tape, w, w);
  }

  lemma ParseStep(code: Code, tape: seq<Reading>, i: nat)
    requires tape != []
    ensures var w := HalfWidth(code, i);
            var a, b, rest := Half(tape, 0, w), Half(tape, w, w), Parse(code, Drop(tape, 2 * w), i + 1);
            Parse(code, tape, i) ==
            if a.Bad? || b.Bad? || a == b then (false, []) else (rest.0, [a.level == FirstHalf(code, true)] + rest.1)
  {
  }

  // One half of a data bit; a double-width half is read twice and must not change, which
  // both decoders answer like a bad width, by giving up.
  method ReadHalf(buf: seq<nat>, rawlen: nat, offset: nat, used: nat, t1: nat, wide: bool, ghost rest: seq<Reading>)
    returns (val: Reading, offset': nat, used': nat, ghost rest': seq<Reading>)
    requires rawlen <= |buf| && Reads(buf, rawlen, offset, used, t1, rest)
    ensures Reads(buf, rawlen, offset', used', t1, rest')
    ensures var w := if wide then 2 else 1;
            val == Half(rest, 0, w) && (val.Read? ==> rest' == Drop(rest, w))
    ensures offset' > offset || (offset' == offset && used <= used')
    ensures offset < rawlen && val.Read? ==> offset' > offset || used < used' < 3
  {
    val, offset', used', rest' := GetRCLevel(buf, rawlen, offset, used, t1, rest);
    if wide {
      DropTwice(rest, 1, 0);
      DropTwice(rest, 1, 1);
      var again;
      again, offset', used', rest' := GetRCLevel(buf, rawlen, offset', used', t1, rest');
      if val != again { val := Bad; }
    }
  }

  // The body of both decoding loops.
  method ReadBit(code: Code, buf: seq<nat>, rawlen: nat, offset: nat, used: nat, nbits: nat, ghost rest: seq<Reading>)
    returns (ok: bool, bit: bool, offset': nat, used': nat, ghost rest': seq<Reading>)
    requires rest != []
    requires offset < rawlen <= |buf| && Reads(buf, rawlen, offset, used, T1(code), rest)
    ensures Reads(buf, rawlen, offset', used', T1(code), rest')
    ensures ok ==> offset' > offset || (offset' == offset && used < used' < 3)
    ensures var p := Parse(code, rest, nbits);
            if ok then p == (Parse(code, rest', nbits + 1).0, [bit] + Parse(code, rest', nbits + 1).1) else !p.0
  {
    var wide := code.Rc6? && nbits == 3;
    ghost var w := HalfWidth(code, nbits);
    var levelA, levelB;
    levelA, offset', used', rest' := ReadHalf(buf, rawlen, offset, used, T1(code), wide, rest);
    HalfBehind(rest, w);
    ParseStep(code, rest, nbits);
    levelB, offset', used', rest' := ReadHalf(buf, rawlen, offset', used', T1(code), wide, rest');
    ok, bit := true, false;
    if levelA == Read(FirstHalf(code, true)) && levelB == Read(FirstHalf(code, false)) {
      bit := true;
    } else if levelA == Read(FirstHalf(code, false)) && levelB == Read(FirstHalf(code, true)) {
      bit := false;
    } else {
      return false, bit, offset', used', rest';
    }
  }

  // What is still to be parsed completes what has been read so far.
  ghost predicate Completes(whole: (bool, seq<bool>), nbits: nat, data: nat, rest: (bool, seq<bool>)) {
    whole.0 == rest.0 && |whole.1| == nbits + |rest.1| && ShiftAll(0, whole.1) == ShiftAll(data, rest.1)
  }

  lemma CompletesStep(whole: (bool, seq<bool>), nbits: nat, data: nat, bit: bool, rest: (bool, seq<bool>))
    requires Completes(whole, nbits, data, (rest.0, [bit] + rest.1))
    ensures Completes(whole, nbits + 1, (2 * data + Digit(bit)) % WORD, rest)
  {
    ShiftCons(data, bit, rest.1);
  }

  method ReadBits(code: Code, buf: seq<nat>, rawlen: nat, offset0: nat, used0: nat, ghost rest0: seq<Reading>)
    returns (r: Decoded)
    requires rawlen <= |buf| && Reads(buf, rawlen, offset0, used0, T1(code), rest0)
    ensures r == Result(Parse(code, rest0, 0))
  {
    var data: nat, nbits: nat, used, offset := 0, 0, used0, offset0;
    ghost var whole, rest := Parse(code, rest0, 0), rest0;
    while offset < rawlen
      invariant Reads(buf, rawlen, offset, used, T1(code), rest)
      invariant Completes(whole, nbits, data, Parse(code, rest, nbits))
      decreases rawlen - offset, 3 - used
    {
      var ok, bit;
      ok, bit, offset, used, rest := ReadBit(code, buf, rawlen, offset, used, nbits, rest);
      if !ok { return Reject; }
      CompletesStep(whole, nbits, data, bit, Parse(code, rest, nbits + 1));
      data := (2 * data + Digit(bit)) % WORD;
      nbits := nbits + 1;
    }
    r := Accept(nbits, data);
  }

  method DecodeRC5(buf: seq<nat>, rawlen: nat) returns (r: Decoded)
    requires rawlen <= |buf| == RAWBUF
    ensures r == Decode(Rc5, buf, rawlen)
  {
    var used, offset, level := 0, 1, Bad;
    if rawlen < MIN_RC5_SAMPLES + 2 { return Reject; }
    ghost var tape := Tape(buf, rawlen, 1, RC5_T1);
    ghost var rest := tape;
    level, offset, used, rest := GetRCLevel(buf, rawlen, offset, used, RC5_T1, rest);
    if level != Read(Mark) { return Reject; }
    level, offset, used, rest := GetRCLevel(buf, rawlen, offset, used, RC5_T1, rest);
    if level != Read(Space) { return Reject; }
    level, offset, used, rest := GetRCLevel(buf, rawlen, offset, used, RC5_T1, rest);
    if level != Read(Mark) { return Reject; }
    assert rest == Drop(tape, 3);
    r := ReadBits(Rc5, buf, rawlen, offset, used, rest);
  }

  method DecodeRC6(buf: seq<nat>, rawlen: nat) returns (r: Decoded)
    requires rawlen <= |buf| == RAWBUF
    ensures r == Decode(Rc6, buf, rawlen)
  {
    var used, offset, level := 0, 1, Bad;
    if rawlen < MIN_RC6_SAMPLES { return Reject; }
    if !MatchMark(buf[offset], RC6_HDR_MARK) { return Reject; }
    offset := offset + 1;
    if !MatchSpace(buf[offset], RC6_HDR_SPACE) { return Reject; }
    offset := offset + 1;
    ghost var tape := Tape(buf, rawlen, 3, RC6_T1);
    ghost var rest := tape;
    level, offset, used, rest := GetRCLevel(buf, rawlen, offset, used, RC6_T1, rest);
    if level != Read(Mark) { return Reject; }
    level, offset, used, rest := GetRCLevel(buf, rawlen, offset, used, RC6_T1, rest);
    if level != Read(Space) { return Reject; }
    assert rest == Drop(tape, 2);
    r := ReadBits(Rc6, buf, rawlen, offset, used, rest);
  }

  // ----- The decoders accept the captures of transmissions and nothing else ------

  // The tape holds these levels, up to spaces missing at the end.
  ghost predicate Plays(tape: seq<Reading>, levels: seq<Level>) {
    && |tape| <= |levels|
    && forall k :: 0 <= k < |levels| ==> At(tape, k) == Read(levels[k])
  }

  // The tape begins with these levels, up to spaces missing at the end.
  ghost predicate Opens(tape: seq<Reading>, levels: seq<Level>) {
    forall k :: 0 <= k < |levels| ==> At(tape, k) == Read(levels[k])
  }

  lemma PlaysConcat(tape: seq<Reading>, head: seq<Level>, tail: seq<Level>)
    ensures Plays(tape, head + tail) <==> Opens(tape, head) && Plays(Drop(tape, |head|), tail)
  {
    if Plays(tape, head + tail) {
      PlaysHead(tape, head, tail);
      PlaysTail(tape, head, tail);
    }
    if Opens(tape, head) && Plays(Drop(tape, |head|), tail) {
      forall k | 0 <= k < |head + tail|
        ensures At(tape, k) == Read((head + tail)[k])
      {
        if k >= |head| {
          DropTwice(tape, |head|, k - |head|);
        }
      }
    }
  }

  lemma PlaysHead(tape: seq<Reading>, head: seq<Level>, tail: seq<Level>)
    requires Plays(tape, head + tail)
    ensures Opens(tape, head)
  {
    assert forall k :: 0 <= k < |head| ==> (head + tail)[k] == head[k];
  }

  lemma PlaysTail(tape: seq<Reading>, head: seq<Level>, tail: seq<Level>)
    requires Plays(tape, head + tail)
    ensures Plays(Drop(tape, |head|), tail)
  {
    forall k | 0 <= k < |tail|
      ensures At(Drop(tape, |head|), k) == Read(tail[k])
    {
      DropTwice(tape, |head|, k);
      assert (head + tail)[|head| + k] == tail[k];
    }
  }

  lemma HalvesOpen(code: Code, tape: seq<Reading>, bit: bool, i: nat)
    ensures var w, first := HalfWidth(code, i), FirstHalf(code, bit);
            Opens(tape, Halves(code, bit, i)) <==>
            Half(tape, 0, w) == Read(first) && Half(tape, w, w) == Read(Other(first))
  {
    var w, h := HalfWidth(code, i), Halves(code, bit, i);
    assert h[0] == h[w - 1] == FirstHalf(code, bit) && h[w] == h[2 * w - 1] == Other(FirstHalf(code, bit));
  }

  lemma {:induction false} ParseComplete(code: Code, tape: seq<Reading>, bits: seq<bool>, i: nat)
    requires Plays(tape, Encode(code, bits, i))
    ensures Parse(code, tape, i) == (true, bits)
    decreases |bits|
  {
    if bits != [] {
      var w := HalfWidth(code, i);
      PlaysConcat(tape, Halves(code, bits[0], i), Encode(code, bits[1..], i + 1));
      HalvesOpen(code, tape, bits[0], i);
      ParseComplete(code, Drop(tape, 2 * w), bits[1..], i + 1);
      ParseMore(code, tape, i, bits[0], bits[1..]);
      assert [bits[0]] + bits[1..] == bits;
    }
  }

  lemma ParseMore(code: Code, tape: seq<Reading>, i: nat, bit: bool, tail: seq<bool>)
    requires var w, first := HalfWidth(code, i), FirstHalf(code, bit);
             && Half(tape, 0, w) == Read(first) && Half(tape, w, w) == Read(Other(first))
             && Parse(code, Drop(tape, 2 * w), i + 1) == (true, tail)
    ensures Parse(code, tape, i) == (true, [bit] + tail)
  {
    ParseStep(code, tape, i);
  }

  lemma {:induction false} ParseSound(code: Code, tape: seq<Reading>, i: nat)
    requires Parse(code, tape, i).0
    ensures Plays(tape, Encode(code, Parse(code, tape, i).1, i))
    decreases |tape|
  {
    if tape != [] {
      var w, bits := HalfWidth(code, i), Parse(code, tape, i).1;
      ParseStep(code, tape, i);
      ParseSound(code, Drop(tape, 2 * w), i + 1);
      assert bits[1..] == Parse(code, Drop(tape, 2 * w), i + 1).1;
      HalvesOpen(code, tape, bits[0], i);
      PlaysConcat(tape, Halves(code, bits[0], i), Encode(code, bits[1..], i + 1));
    }
  }

  // A tape is accepted with the given bits exactly when it plays their transmission.
  lemma AcceptsExactlyTransmissions(code: Code, tape: seq<Reading>, bits: seq<bool>)
    ensures ParseAll(code, tape) == (true, bits) <==> Plays(tape, HalfBits(code, bits))
  {
    var start, body := Start(code), Encode(code, bits, 0);
    var rest := Drop(tape, |start|);
    PlaysConcat(tape, start, body);
    StartOpens(code, tape);
    if Plays(rest, body) {
      ParseComplete(code, rest, bits, 0);
    }
    if Parse(code, rest, 0) == (true, bits) {
      ParseSound(code, rest, 0);
    }
  }

  lemma StartOpens(code: Code, tape: seq<Reading>)
    ensures Opens(tape, Start(code)) <==>
            At(tape, 0) == Read(Mark) && At(tape, 1) == Read(Space) && (code.Rc5? ==> At(tape, 2) == Read(Mark))
  {
    var start := Start(code);
    assert start[0] == Mark && start[1] == Space && (code.Rc5? ==> start[2] == Mark);
  }
}

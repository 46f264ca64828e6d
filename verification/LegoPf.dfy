// LEGO Power Functions: a 16-bit word between a start and a stop bit. Every bit is a mark and
// a pause; repeated messages are spaced by stretching the pause of the stop bit.
module LegoPf {
  import opened Bits
  import opened Sequences
  import opened Signal

  const IR_MARK := 158
  const HIGH_PAUSE := 711 - IR_MARK
  const LOW_PAUSE := 421 - IR_MARK
  const START_PAUSE := 1184 - IR_MARK
  const STOP_PAUSE := 1184 - IR_MARK
  const MESSAGE_BITS := 18
  const MAX_MESSAGE_LENGTH := 16000

  // ----- What is sent -------------------------------------------------------------------------

  function BitPause(bit: bool): nat {
    if bit then HIGH_PAUSE else LOW_PAUSE
  }

  function PauseSum(bits: seq<bool>): (sum: nat)
    ensures LOW_PAUSE * |bits| <= sum <= HIGH_PAUSE * |bits|
  {
    if bits == [] then 0 else PauseSum(Init(bits)) + BitPause(Last(bits))
  }

  // Without any stretching.
  function MessageLength(data: nat): (length: nat)
    ensures length <= MAX_MESSAGE_LENGTH
  {
    MESSAGE_BITS * IR_MARK + START_PAUSE + PauseSum(ToBits(data, 16)) + STOP_PAUSE
  }

  function ChannelId(data: nat): (channel: nat)
    ensures 1 <= channel <= 4
  {
    1 + data / 4096 % 4
  }

  // How long message number `count` should last, its stretched pause included.
  function MessageTime(data: nat, repeat: bool, count: nat): nat {
    if repeat && count < 2 then 5 * MAX_MESSAGE_LENGTH
    else if repeat && count < 4 then (6 + 2 * ChannelId(data)) * MAX_MESSAGE_LENGTH
    else MessageLength(data)
  }

  function StopPause(data: nat, repeat: bool, count: nat): nat {
    if repeat && count < 2 then STOP_PAUSE + 5 * MAX_MESSAGE_LENGTH - MessageLength(data)
    else if repeat && count < 4 then STOP_PAUSE + (6 + 2 * ChannelId(data)) * MAX_MESSAGE_LENGTH - MessageLength(data)
    else STOP_PAUSE
  }

  function Pause(data: nat, repeat: bool, count: nat, index: nat): nat {
    if index == 0 then START_PAUSE
    else if index < MESSAGE_BITS - 1 then BitPause(Bit(data, MESSAGE_BITS - 2 - index))
    else StopPause(data, repeat, count)
  }

  // The first `n` pairs of message `count`.
  function Part(data: nat, repeat: bool, count: nat, n: nat): seq<Pulse> {
    if n == 0 then []
    else Part(data, repeat, count, n - 1) + [Pulse(Mark, IR_MARK)] + [Pulse(Space, Pause(data, repeat, count, n - 1))]
  }

  function Message(data: nat, repeat: bool, count: nat): seq<Pulse> {
    Part(data, repeat, count, MESSAGE_BITS)
  }

  // The first `count` messages.
  function Messages(data: nat, repeat: bool, count: nat): seq<Pulse> {
    if count == 0 then [] else Messages(data, repeat, count - 1) + Message(data, repeat, count - 1)
  }

  function MessageCount(repeat: bool): nat {
    if repeat then 5 else 1
  }

  // ----- The encoder --------------------------------------------------------------------------

  class Encoder {
    var data: nat
    var repeatMessage: bool
    var messageBitIdx: nat
    var repeatCount: nat
    var messageLength: nat

    ghost predicate Valid()
      reads this
    {
      messageBitIdx < MESSAGE_BITS && repeatCount < MessageCount(repeatMessage) && messageLength == MessageLength(data)
    }

    method GetMessageLength() returns (length: nat)
      ensures length == MessageLength(data)
    {
      length := MESSAGE_BITS * IR_MARK;
      length := length + START_PAUSE;
      ghost var bits := ToBits(data, 16);
      assert bits[..0] == [];
      for i := 0 to 16
        invariant length == MESSAGE_BITS * IR_MARK + START_PAUSE + PauseSum(bits[..i])
      {
        ToBitsAt(data, 16, i);
        assert Init(bits[..i + 1]) == bits[..i];
        if Bit(data, 15 - i) {
          length := length + HIGH_PAUSE;
        } else {
          length := length + LOW_PAUSE;
        }
      }
      assert bits[..16] == bits;
      length := length + STOP_PAUSE;
    }

    method Reset(data: nat, repeatMessage: bool)
      modifies this
      ensures Valid() && messageBitIdx == 0 && repeatCount == 0
      ensures this.data == data && this.repeatMessage == repeatMessage
    {
      this.data := data;
      this.repeatMessage := repeatMessage;
      messageBitIdx := 0;
      repeatCount := 0;
      messageLength := GetMessageLength();
    }

    // Moves to the next pair, or reports the end behind the last pair of the last message.
    method Next() returns (more: bool)
      requires Valid()
      modifies `messageBitIdx, `repeatCount
      ensures more ==> Valid()
      ensures old(messageBitIdx) + 1 < MESSAGE_BITS ==>
              more && messageBitIdx == old(messageBitIdx) + 1 && repeatCount == old(repeatCount)
      ensures old(messageBitIdx) + 1 == MESSAGE_BITS ==> messageBitIdx == 0 && repeatCount == old(repeatCount) + 1
      ensures more == (repeatCount < MessageCount(repeatMessage))
    {
      messageBitIdx := messageBitIdx + 1;
      if messageBitIdx >= MESSAGE_BITS {
        repeatCount := repeatCount + 1;
        messageBitIdx := 0;
      }
      if repeatCount >= 1 && !repeatMessage {
        more := false;
      } else if repeatCount >= 5 {
        more := false;
      } else {
        more := true;
      }
    }

    method GetPauseDuration() returns (pause: nat)
      requires Valid()
      ensures pause == Pause(data, repeatMessage, repeatCount, messageBitIdx)
    {
      if messageBitIdx == 0 {
        pause := START_PAUSE;
      } else if messageBitIdx < MESSAGE_BITS - 1 {
        pause := if Bit(data, MESSAGE_BITS - 2 - messageBitIdx) then HIGH_PAUSE else LOW_PAUSE;
      } else if !repeatMessage {
        pause := STOP_PAUSE;
      } else if repeatCount == 0 || repeatCount == 1 {
        pause := STOP_PAUSE + 5 * MAX_MESSAGE_LENGTH - messageLength;
      } else if repeatCount == 2 || repeatCount == 3 {
        pause := STOP_PAUSE + (6 + 2 * ChannelId(data)) * MAX_MESSAGE_LENGTH - messageLength;
      } else {
        pause := STOP_PAUSE;
      }
    }
  }

  // Where the transmission stands before pair `index` of message `count`.
  function SoFar(data: nat, repeat: bool, count: nat, index: nat): seq<Pulse> {
    Messages(data, repeat, count) + Part(data, repeat, count, index)
  }

  ghost predicate HasSent(trace: seq<Pulse>, before: seq<Pulse>, data: nat, repeat: bool, count: nat, index: nat) {
    trace == before + SoFar(data, repeat, count, index)
  }

  lemma PairSent(trace: seq<Pulse>, before: seq<Pulse>, data: nat, repeat: bool, count: nat, index: nat)
    requires index < MESSAGE_BITS && HasSent(trace, before, data, repeat, count, index)
    ensures var next := trace + [Pulse(Mark, IR_MARK)] + [Pulse(Space, Pause(data, repeat, count, index))];
            if index + 1 < MESSAGE_BITS then HasSent(next, before, data, repeat, count, index + 1)
            else HasSent(next, before, data, repeat, count + 1, 0)
  {
    var messages, part := Messages(data, repeat, count), Part(data, repeat, count, index);
    var mark, space := Pulse(Mark, IR_MARK), Pulse(Space, Pause(data, repeat, count, index));
    assert Part(data, repeat, count, index + 1) == part + [mark] + [space];
    assert SoFar(data, repeat, count, index + 1) == SoFar(data, repeat, count, index) + [mark] + [space];
    assert Messages(data, repeat, count + 1) == messages + Part(data, repeat, count, MESSAGE_BITS);
    assert SoFar(data, repeat, count + 1, 0) == Messages(data, repeat, count + 1);
  }

  method SendLegoPowerFunctions(led: Emitter, encoder: Encoder, data: nat, repeat: bool)
    modifies led, encoder
    ensures led.trace == old(led.trace) + Messages(data, repeat, MessageCount(repeat))
  {
    ghost var before := led.trace;
    encoder.Reset(data, repeat);
    assert SoFar(data, repeat, 0, 0) == [];
    var more := true;
    while more
      invariant encoder.data == data && encoder.repeatMessage == repeat
      invariant more ==> encoder.Valid()
      invariant !more ==> encoder.messageBitIdx == 0 && encoder.repeatCount == MessageCount(repeat)
      invariant HasSent(led.trace, before, data, repeat, encoder.repeatCount, encoder.messageBitIdx)
      decreases more, MessageCount(repeat) - encoder.repeatCount, MESSAGE_BITS - encoder.messageBitIdx
    {
      PairSent(led.trace, before, data, repeat, encoder.repeatCount, encoder.messageBitIdx);
      led.SendMark(IR_MARK);
      var pause := encoder.GetPauseDuration();
      led.SendSpace(pause);
      more := encoder.Next();
    }
    assert SoFar(data, repeat, MessageCount(repeat), 0) == Messages(data, repeat, MessageCount(repeat));
  }

  // ----- How long it takes ----------------------------------------------------------------------

  lemma PairTime(data: nat, repeat: bool, count: nat, n: nat)
    ensures Time(Part(data, repeat, count, n + 1))
            == Time(Part(data, repeat, count, n)) + IR_MARK + Pause(data, repeat, count, n)
  {
    var part := Part(data, repeat, count, n);
  }

  lemma {:induction false} DataPause(data: nat, repeat: bool, count: nat, n: nat, bits: seq<bool>)
    requires 1 <= n <= 16 && bits == ToBits(data, 16)
    ensures PauseSum(bits[..n]) == PauseSum(bits[..n - 1]) + Pause(data, repeat, count, n)
  {
    ToBitsAt(data, 16, n - 1);
    assert Init(bits[..n]) == bits[..n - 1];
  }

  lemma {:induction false} BitsTime(data: nat, repeat: bool, count: nat, n: nat, bits: seq<bool>)
    requires n <= 16 && bits == ToBits(data, 16)
    ensures Time(Part(data, repeat, count, n + 1)) == (1 + n) * IR_MARK + START_PAUSE + PauseSum(bits[..n])
  {
    PairTime(data, repeat, count, n);
    if n > 0 {
      BitsTime(data, repeat, count, n - 1, bits);
      DataPause(data, repeat, count, n, bits);
    }
  }

  // Whatever the data, message `count` lasts exactly as long as it should: the stretched pause
  // makes up for every short bit.
  lemma MessageLasts(data: nat, repeat: bool, count: nat)
    ensures Time(Message(data, repeat, count)) == MessageTime(data, repeat, count)
  {
    var bits := ToBits(data, 16);
    BitsTime(data, repeat, count, 16, bits);
    PairTime(data, repeat, count, 17);
    assert bits[..16] == bits;
  }

  // So does the whole transmission: only the last message depends on more than the channel.
  lemma {:induction false} TransmissionLasts(data: nat, repeat: bool)
    ensures Time(Messages(data, repeat, MessageCount(repeat)))
            == if repeat then (22 + 4 * ChannelId(data)) * MAX_MESSAGE_LENGTH + MessageLength(data)
                else MessageLength(data)
  {
    FirstMessages(data, repeat, 0);
    if repeat {
      FirstMessages(data, repeat, 1);
      FirstMessages(data, repeat, 2);
      FirstMessages(data, repeat, 3);
      FirstMessages(data, repeat, 4);
    }
  }

  lemma FirstMessages(data: nat, repeat: bool, count: nat)
    ensures Time(Messages(data, repeat, count + 1))
            == Time(Messages(data, repeat, count)) + MessageTime(data, repeat, count)
  {
    MessageLasts(data, repeat, count);
    TimeConcat(Messages(data, repeat, count), Message(data, repeat, count));
  }

  // ----- What it says -------------------------------------------------------------------------

  lemma {:induction false} PairAt(data: nat, repeat: bool, count: nat, n: nat, k: nat)
    requires k < n
    ensures |Part(data, repeat, count, n)| == 2 * n
    ensures Part(data, repeat, count, n)[2 * k] == Pulse(Mark, IR_MARK)
    ensures Part(data, repeat, count, n)[2 * k + 1] == Pulse(Space, Pause(data, repeat, count, k))
  {
    if k < n - 1 {
      PairAt(data, repeat, count, n - 1, k);
    } else if n > 1 {
      PairAt(data, repeat, count, n - 1, 0);
    }
  }

  // A receiver's view of a message: the sixteen pauses between its start and its stop bit.
  function Payload(message: seq<Pulse>): (bits: seq<bool>)
    requires |message| == 36
  {
    seq(16, i requires 0 <= i < 16 => message[2 * i + 3].usec == HIGH_PAUSE)
  }

  // Every message is 18 pairs and carries the word, most significant bit first.
  lemma {:induction false} CarriesTheWord(data: nat, repeat: bool, count: nat)
    requires data < 0x1_0000
    ensures |Message(data, repeat, count)| == 2 * MESSAGE_BITS
    ensures Payload(Message(data, repeat, count)) == ToBits(data, 16)
    ensures Value(Payload(Message(data, repeat, count))) == data
  {
    PairAt(data, repeat, count, MESSAGE_BITS, 0);
    var message := Message(data, repeat, count);
    forall i | 0 <= i < 16
      ensures Payload(message)[i] == ToBits(data, 16)[i]
    {
      PairAt(data, repeat, count, MESSAGE_BITS, i + 1);
      ToBitsAt(data, 16, i);
    }
    WordBack(data, Payload(message));
  }

  lemma {:induction false} WordBack(data: nat, bits: seq<bool>)
    requires data < 0x1_0000 && bits == ToBits(data, 16)
    ensures Value(bits) == data
  {
    assert data < Pow2(16) by {
      WordSizes();
    }
    ValueOfToBits(data, 16);
    SmallMod(data, Pow2(16));
  }

  // 18 pairs in all, or 90 with the repeats.
  lemma {:induction false} PairCount(data: nat, repeat: bool, count: nat)
    ensures |Messages(data, repeat, count)| == 2 * MESSAGE_BITS * count
  {
    if count > 0 {
      PairCount(data, repeat, count - 1);
      PairAt(data, repeat, count - 1, MESSAGE_BITS, 0);
    }
  }

  // ----- In microseconds ------------------------------------------------------------------------

  // A mark of 158 us at the head of every pair; pauses of 1026 us behind the start bit, 553 us
  // behind a 1 and 263 us behind a 0, the word's most significant bit first.
  lemma LegoTrace(data: nat, repeat: bool, count: nat, i: nat)
    requires i < 16
    ensures var message := Message(data, repeat, count);
            && |message| == 36 && message[0] == Pulse(Mark, 158) && message[1] == Pulse(Space, 1026)
            && message[2 * i + 2] == Pulse(Mark, 158)
            && message[2 * i + 3] == Pulse(Space, if Bit(data, 15 - i) then 553 else 263)
            && message[34] == Pulse(Mark, 158) && message[35].level == Space && message[35].usec >= 1026
  {
    PairAt(data, repeat, count, 18, 0);
    PairAt(data, repeat, count, 18, i + 1);
    PairAt(data, repeat, count, 18, 17);
  }

  // With repeats the first two messages last 80 ms each, the next two 16 ms times six and twice
  // the channel each; a last or only message ends with the plain pause of the stop bit.
  lemma LegoTimes(data: nat, repeat: bool, count: nat)
    ensures repeat && count < 2 ==> Time(Message(data, repeat, count)) == 80000
    ensures repeat && 2 <= count < 4 ==>
              Time(Message(data, repeat, count)) == 16000 * (6 + 2 * (1 + data / 0x1000 % 4))
    ensures |Message(data, repeat, count)| == 36
    ensures !repeat || count >= 4 ==> Message(data, repeat, count)[35].usec == 1026
  {
    MessageLasts(data, repeat, count);
    PairAt(data, repeat, count, 18, 17);
  }
}

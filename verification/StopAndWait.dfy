// The master's side of the protocol with a node: packets queue up, only the oldest is on the
// air, it is repeated on a schedule and given up in favour of the next when an acknowledgement
// comes, whichever packet the node meant by it.
module StopAndWait {
  import opened Sequences

  const QUEUE_LENGTH := 15
  const MAX_PACKET_SIZE := 100

  // The last number of a packet's payload is its message number.
  datatype Packet = Packet(payload: seq<int>)

  datatype Status = Running | PendingResponse | Error

  datatype Event = Accepted(p: Packet) | Popped | Transmitted(p: Packet)

  datatype Sender = Sender(status: Status, lastMessageNumber: int, queue: seq<Packet>, timeSinceSent: nat,
                           log: seq<Event>)

  datatype Op = Send(code: int, args: seq<int>) | Ack | Tick

  const START := Sender(Running, 0, [], 0, [])

  // ----- Steps --------------------------------------------------------------------------------

  function SendNext(s: Sender): Sender {
    if s.queue == [] then s.(status := Running, timeSinceSent := 0)
    else s.(log := s.log + [Transmitted(s.queue[0])])
  }

  function NextPacket(s: Sender, code: int, args: seq<int>): Packet {
    Packet([code] + args + [s.lastMessageNumber])
  }

  // A full queue loses the packet without a word.
  function Push(s: Sender, p: Packet): Sender {
    var pushed := if |s.queue| < QUEUE_LENGTH then s.(queue := s.queue + [p], log := s.log + [Accepted(p)]) else s;
    if |pushed.queue| == 1 then SendNext(pushed) else pushed
  }

  // A lost packet has used up its number.
  function Enqueue(s: Sender, p: Packet): Sender {
    Push(s.(status := PendingResponse, lastMessageNumber := s.lastMessageNumber + 1), p)
  }

  function PopHead(s: Sender): Sender {
    if s.queue == [] then s else s.(queue := s.queue[1..], log := s.log + [Popped])
  }

  // An acknowledgement with nothing pending is taken like any other.
  function ReceiveAck(s: Sender): Sender {
    SendNext(PopHead(s)).(timeSinceSent := 0)
  }

  predicate ResendAt(timeSinceSent: nat) {
    0 < timeSinceSent && (timeSinceSent < 5 || (timeSinceSent < 16 && timeSinceSent % 2 == 0))
  }

  function Retry(s: Sender): Sender {
    if ResendAt(s.timeSinceSent) then SendNext(s)
    else if s.timeSinceSent >= 16 then s.(status := Error)
    else s
  }

  function Check(s: Sender): Sender {
    if s.queue == [] then s else Retry(s).(timeSinceSent := s.timeSinceSent + 1)
  }

  function Step(s: Sender, op: Op): Sender {
    match op
    case Send(code, args) => Enqueue(s, NextPacket(s, code, args))
    case Ack => ReceiveAck(s)
    case Tick => Check(s)
  }

  function Run(s: Sender, ops: seq<Op>): Sender {
    if ops == [] then s else Step(Run(s, Init(ops)), Last(ops))
  }

  // ----- What the log says ----------------------------------------------------------------------

  function Accepts(log: seq<Event>): seq<Packet> {
    if log == [] then []
    else if Last(log).Accepted? then Accepts(Init(log)) + [Last(log).p]
    else Accepts(Init(log))
  }

  function Pops(log: seq<Event>): nat {
    if log == [] then 0 else Pops(Init(log)) + if Last(log).Popped? then 1 else 0
  }

  // The oldest packet not yet popped has been on the air since it became the oldest.
  predicate HeadSent(log: seq<Event>) {
    log != [] && (Last(log).Transmitted? || (Last(log).Accepted? && HeadSent(Init(log))))
  }

  // Only the oldest packet not yet popped is ever transmitted, and none is popped before it was.
  predicate Orderly(log: seq<Event>) {
    log == [] || (
      Orderly(Init(log)) &&
      match Last(log)
      case Accepted(_) => true
      case Popped => Pops(Init(log)) < |Accepts(Init(log))| && HeadSent(Init(log))
      case Transmitted(p) => Pops(Init(log)) < |Accepts(Init(log))| && p == Accepts(Init(log))[Pops(Init(log))]
    )
  }

  // ----- What every step keeps ------------------------------------------------------------------

  ghost predicate Sound(s: Sender) {
    && |s.queue| <= QUEUE_LENGTH
    && Orderly(s.log) && Pops(s.log) <= |Accepts(s.log)| && s.queue == Accepts(s.log)[Pops(s.log)..]
    && (s.queue != [] ==> HeadSent(s.log))
    && (s.queue == [] <==> s.status == Running)
    && (s.queue == [] ==> s.timeSinceSent == 0)
  }

  lemma {:induction false} AcceptSnoc(log: seq<Event>, p: Packet)
    requires Orderly(log)
    ensures var log' := log + [Accepted(p)];
            Orderly(log') && Accepts(log') == Accepts(log) + [p] && Pops(log') == Pops(log) &&
                (HeadSent(log) ==> HeadSent(log'))
  {
    assert Init(log + [Accepted(p)]) == log;
  }

  lemma {:induction false} PopSnoc(log: seq<Event>)
    requires Orderly(log) && HeadSent(log) && Pops(log) < |Accepts(log)|
    ensures var log' := log + [Popped];
            Orderly(log') && Accepts(log') == Accepts(log) && Pops(log') == Pops(log) + 1
  {
    assert Init(log + [Popped]) == log;
  }

  lemma {:induction false} TransmitSnoc(log: seq<Event>, p: Packet)
    requires Orderly(log) && Pops(log) < |Accepts(log)| && p == Accepts(log)[Pops(log)]
    ensures var log' := log + [Transmitted(p)];
            Orderly(log') && Accepts(log') == Accepts(log) && Pops(log') == Pops(log) && HeadSent(log')
  {
    assert Init(log + [Transmitted(p)]) == log;
  }

  lemma SendKeepsSound(s: Sender, p: Packet)
    requires Sound(s)
    ensures Sound(Enqueue(s, p))
  {
    if |s.queue| < QUEUE_LENGTH {
      AcceptSnoc(s.log, p);
      if s.queue == [] {
        TransmitSnoc(s.log + [Accepted(p)], p);
      }
    }
  }

  lemma AckKeepsSound(s: Sender)
    requires Sound(s)
    ensures Sound(ReceiveAck(s))
  {
    if s.queue != [] {
      PopSnoc(s.log);
      if |s.queue| > 1 {
        TransmitSnoc(s.log + [Popped], s.queue[1]);
      }
    }
  }

  lemma TickKeepsSound(s: Sender)
    requires Sound(s)
    ensures Sound(Check(s))
  {
    if s.queue != [] && ResendAt(s.timeSinceSent) {
      TransmitSnoc(s.log, s.queue[0]);
    }
  }

  // In every run the packets accepted are those popped followed by those pending, only the
  // oldest pending one goes on the air, and the sender is running exactly when none is pending.
  lemma {:induction false} RunIsSound(ops: seq<Op>)
    ensures Sound(Run(START, ops))
  {
    if ops != [] {
      var s, op := Run(START, Init(ops)), Last(ops);
      RunIsSound(Init(ops));
      match op
      case Send(code, args) => SendKeepsSound(s, NextPacket(s, code, args));
      case Ack => AckKeepsSound(s);
      case Tick => TickKeepsSound(s);
    }
  }

  // ----- Order on the air -----------------------------------------------------------------------

  lemma {:induction false} PrefixOf(log: seq<Event>, i: nat)
    requires i <= |log| && Orderly(log)
    ensures Orderly(log[..i]) && Pops(log[..i]) <= Pops(log) && Accepts(log[..i]) <= Accepts(log)
  {
    if i < |log| {
      PrefixOf(Init(log), i);
      assert Init(log)[..i] == log[..i];
    } else {
      assert log[..i] == log;
    }
  }

  // Whatever is transmitted is the packet after those popped so far: all earlier ones have been
  // popped, and it has not.
  lemma {:induction false} TransmittedInTurn(log: seq<Event>, i: nat)
    requires Orderly(log) && i < |log| && log[i].Transmitted?
    ensures Pops(log[..i]) < |Accepts(log)| && log[i].p == Accepts(log)[Pops(log[..i])]
  {
    PrefixOf(log, i);
    PrefixOf(log, i + 1);
    assert Init(log[..i + 1]) == log[..i] && Last(log[..i + 1]) == log[i];
  }

  lemma {:induction false} HeadSentAt(log: seq<Event>) returns (i: nat)
    requires Orderly(log) && HeadSent(log)
    ensures i < |log| && log[i].Transmitted? && Pops(log[..i]) == Pops(log)
  {
    if Last(log).Transmitted? {
      i := |log| - 1;
    } else {
      i := HeadSentAt(Init(log));
      assert Init(log)[..i] == log[..i];
    }
  }

  // Every popped packet had been on the air after those before it were popped.
  lemma {:induction false} PoppedWasSent(log: seq<Event>, k: nat) returns (i: nat)
    requires Orderly(log) && k < Pops(log)
    ensures i < |log| && log[i].Transmitted? && Pops(log[..i]) == k
    ensures k < |Accepts(log)| && log[i].p == Accepts(log)[k]
  {
    var init := Init(log);
    if k < Pops(init) {
      i := PoppedWasSent(init, k);
    } else {
      i := HeadSentAt(init);
    }
    assert init[..i] == log[..i];
    TransmittedInTurn(log, i);
  }

  // ----- Retries --------------------------------------------------------------------------------

  function Transmissions(log: seq<Event>): seq<Packet> {
    if log == [] then []
    else if Last(log).Transmitted? then Transmissions(Init(log)) + [Last(log).p]
    else Transmissions(Init(log))
  }

  lemma {:induction false} TransmissionsSnoc(log: seq<Event>, e: Event)
    ensures Transmissions(log + [e]) == if e.Transmitted? then Transmissions(log) + [e.p] else Transmissions(log)
  {
    assert Init(log + [e]) == log;
  }

  function Ticks(ops: seq<Op>): nat {
    if ops == [] then 0 else Ticks(Init(ops)) + if Last(ops).Tick? then 1 else 0
  }

  // How often a packet has been resent after so many ticks.
  function Resends(ticks: nat): nat {
    if ticks == 0 then 0 else Resends(ticks - 1) + if ResendAt(ticks - 1) then 1 else 0
  }

  lemma {:induction false} ResendsGrow(a: nat, b: nat)
    requires a <= b
    ensures Resends(a) <= Resends(b)
  {
    if a < b {
      ResendsGrow(a, b - 1);
    }
  }

  lemma {:induction false} ResendsSettle(ticks: nat)
    ensures Resends(ticks) <= 9 && (ticks >= 15 ==> Resends(ticks) == 9)
    ensures ResendAt(ticks) <==> ticks in {1, 2, 3, 4, 6, 8, 10, 12, 14}
  {
    if ticks <= 15 {
      assert Resends(15) == 9;
      ResendsGrow(ticks, 15);
    } else {
      ResendsSettle(ticks - 1);
    }
  }

  lemma LateSend(s: Sender, p: Packet)
    requires s.queue != []
    ensures var r := Enqueue(s, p);
            s.queue <= r.queue && r.timeSinceSent == s.timeSinceSent &&
            Transmissions(r.log) == Transmissions(s.log) && r.status == PendingResponse
  {
    TransmissionsSnoc(s.log, Accepted(p));
  }

  lemma OneTick(s: Sender)
    requires s.queue != []
    ensures var r := Check(s);
            r.queue == s.queue && r.timeSinceSent == s.timeSinceSent + 1 &&
            Transmissions(r.log) == Transmissions(s.log)
                + Hold(s.queue[0], if ResendAt(s.timeSinceSent) then 1 else 0) &&
            r.status == if s.timeSinceSent >= 16 then Error else s.status
  {
    TransmissionsSnoc(s.log, Transmitted(s.queue[0]));
  }

  // Since s nothing has left the queue, and its oldest packet alone has been sent, on the schedule.
  ghost predicate StillWaits(s: Sender, r: Sender, ticks: nat)
    requires s.queue != []
  {
    && s.queue <= r.queue && r.timeSinceSent == ticks
    && Transmissions(r.log) == Transmissions(s.log) + Hold(s.queue[0], Resends(ticks))
  }

  lemma WaitsThroughSend(s: Sender, r: Sender, ticks: nat, op: Op)
    requires s.queue != [] && StillWaits(s, r, ticks) && op.Send?
    ensures StillWaits(s, Step(r, op), ticks) && Step(r, op).status == PendingResponse
  {
    LateSend(r, NextPacket(r, op.code, op.args));
  }

  lemma WaitsThroughTick(s: Sender, r: Sender, ticks: nat)
    requires s.queue != [] && StillWaits(s, r, ticks)
    ensures StillWaits(s, Check(r), ticks + 1)
    ensures Check(r).status == if ticks >= 16 then Error else r.status
  {
    OneTick(r);
    HoldMore(Transmissions(s.log), s.queue[0], Resends(ticks), if ResendAt(ticks) then 1 else 0);
  }

  predicate SendsNothing(ops: seq<Op>) {
    forall i :: 0 <= i < |ops| ==> !ops[i].Send?
  }

  // Ticks behind the last packet sent.
  function TicksSinceSend(ops: seq<Op>): (ticks: nat)
    ensures SendsNothing(ops) ==> ticks == Ticks(ops)
  {
    if ops == [] || Last(ops).Send? then 0 else TicksSinceSend(Init(ops)) + if Last(ops).Tick? then 1 else 0
  }

  // An error is reported by the 17th tick and every later one, and sending takes it back; one
  // from before stays until something is sent.
  ghost predicate InError(was: bool, ops: seq<Op>) {
    (was && SendsNothing(ops)) || (Ticks(ops) >= 17 && TicksSinceSend(ops) > 0)
  }

  lemma {:induction false} InErrorStep(was: bool, ops: seq<Op>)
    requires ops != [] && !Last(ops).Ack?
    ensures InError(was, ops) <==>
            !Last(ops).Send? && (Ticks(Init(ops)) >= 16 || InError(was, Init(ops)))
  {
    var init := Init(ops);
    assert SendsNothing(ops) <==> SendsNothing(init) && !Last(ops).Send? by {
      assert ops == init + [Last(ops)];
    }
  }

  // A packet that is never acknowledged, other packets being sent meanwhile or not: after so
  // many ticks it has been resent that often and nothing else has been sent, up to nine times in
  // all. Whatever the state it became the oldest in, the sender is in error exactly when a tick
  // from the 17th on has come since the last packet sent, or it was and none has been sent.
  lemma {:induction false} Unacknowledged(s: Sender, ops: seq<Op>)
    requires s.queue != [] && s.timeSinceSent == 0 && Ack !in ops
    ensures var r := Run(s, ops);
            StillWaits(s, r, Ticks(ops)) && (r.status == Error <==> InError(s.status == Error, ops))
  {
    if ops == [] {
      assert Hold(s.queue[0], 0) == [];
    } else {
      var r, op := Run(s, Init(ops)), Last(ops);
      assert op in ops;
      Unacknowledged(s, Init(ops));
      InErrorStep(s.status == Error, ops);
      if op.Send? {
        WaitsThroughSend(s, r, Ticks(Init(ops)), op);
      } else {
        WaitsThroughTick(s, r, Ticks(Init(ops)));
      }
    }
  }

  // So before the 17th tick there is an error exactly if there was one and nothing has been sent.
  lemma {:induction false} EarlyError(s: Sender, ops: seq<Op>)
    requires s.queue != [] && s.timeSinceSent == 0 && Ack !in ops && Ticks(ops) <= 16
    ensures Run(s, ops).status == Error <==> s.status == Error && SendsNothing(ops)
  {
    Unacknowledged(s, ops);
  }

  // An acknowledgement promotes the next packet and leaves the error standing.
  lemma AckKeepsError(s: Sender)
    requires |s.queue| >= 2
    ensures var r := ReceiveAck(s); r.queue == s.queue[1..] != [] && r.timeSinceSent == 0 && r.status == s.status
  {
  }

  lemma {:induction false} RunAppends(s: Sender, a: seq<Op>, b: seq<Op>)
    ensures Run(s, a + b) == Run(Run(s, a), b)
    decreases |b|
  {
    if b == [] {
      assert a + b == a;
    } else {
      assert Init(a + b) == a + Init(b);
      RunAppends(s, a, Init(b));
    }
  }

  lemma {:induction false} AllTicks(n: nat)
    ensures var ticks := Hold(Tick, n); SendsNothing(ticks) && Ack !in ticks && Ticks(ticks) == n
  {
    if n > 0 {
      assert Init(Hold(Tick, n)) == Hold(Tick, n - 1);
      AllTicks(n - 1);
    }
  }

  // It does come to that: two packets, 17 ticks and a late acknowledgement leave the second packet
  // just sent and the sender in error, and so it stays through its first 16 ticks.
  lemma ErrorBeforeSchedule(first: Op, second: Op, ticks: nat)
    requires first.Send? && second.Send? && ticks <= 16
    ensures var s := Run(START, [first, second] + Hold(Tick, 17) + [Ack]);
            && s.queue != [] && s.timeSinceSent == 0 && s.status == Error
            && Run(s, Hold(Tick, ticks)).status == Error
  {
    var two := Run(START, [first, second]);
    TwoSent(first, second);
    RunAppends(START, [first, second], Hold(Tick, 17));
    AllTicks(17);
    Unacknowledged(two, Hold(Tick, 17));
    var late := Run(two, Hold(Tick, 17));
    AckKeepsError(late);
    RunAppends(START, [first, second] + Hold(Tick, 17), [Ack]);
    assert Run(late, [Ack]) == Step(Run(late, []), Ack) by {
      assert Init([Ack]) == [];
    }
    AllTicks(ticks);
    EarlyError(ReceiveAck(late), Hold(Tick, ticks));
  }

  lemma TwoSent(first: Op, second: Op)
    requires first.Send? && second.Send?
    ensures var s := Run(START, [first, second]); |s.queue| == 2 && s.timeSinceSent == 0
  {
    assert Init([first, second]) == [first] && Init([first]) == [];
    assert Run(START, [first]) == Step(START, first);
    assert Run(START, [first, second]) == Step(Step(START, first), second);
  }

  lemma HoldMore<T>(before: seq<T>, x: T, m: nat, n: nat)
    ensures before + Hold(x, m) + Hold(x, n) == before + Hold(x, m + n)
  {
  }

  // ----- Message numbers ------------------------------------------------------------------------

  function Number(p: Packet): int {
    if p.payload == [] then 0 else Last(p.payload)
  }

  // The numbers of the packets accepted grow; one is missing for every packet a full queue lost.
  ghost predicate Numbered(s: Sender) {
    && s.lastMessageNumber >= |Accepts(s.log)|
    && (forall i :: 0 <= i < |Accepts(s.log)| ==> i <= Number(Accepts(s.log)[i]) < s.lastMessageNumber)
    && (forall i, j :: 0 <= i < j < |Accepts(s.log)| ==> Number(Accepts(s.log)[i]) < Number(Accepts(s.log)[j]))
  }

  lemma {:induction false} AcceptsSnoc(log: seq<Event>, e: Event)
    ensures Accepts(log + [e]) == if e.Accepted? then Accepts(log) + [e.p] else Accepts(log)
  {
    assert Init(log + [e]) == log;
  }

  lemma StepAccepts(s: Sender, op: Op)
    ensures var r := Step(s, op);
            if op.Send? && |s.queue| < QUEUE_LENGTH
            then Accepts(r.log) == Accepts(s.log) + [NextPacket(s, op.code, op.args)]
            else Accepts(r.log) == Accepts(s.log)
  {
    match op
    case Send(code, args) =>
      var p := NextPacket(s, code, args);
      AcceptsSnoc(s.log, Accepted(p));
      AcceptsSnoc(s.log + [Accepted(p)], Transmitted(p));
    case Ack =>
      AcceptsSnoc(s.log, Popped);
      if |s.queue| > 1 {
        AcceptsSnoc(s.log + [Popped], Transmitted(s.queue[1]));
      }
    case Tick =>
      if s.queue != [] {
        AcceptsSnoc(s.log, Transmitted(s.queue[0]));
      }
  }

  lemma {:induction false} RunIsNumbered(ops: seq<Op>)
    ensures Numbered(Run(START, ops))
    ensures |Accepts(Run(START, ops).log)| + Lost(START, ops) == Run(START, ops).lastMessageNumber
  {
    if ops != [] {
      RunIsNumbered(Init(ops));
      StepAccepts(Run(START, Init(ops)), Last(ops));
    }
  }

  // How many packets a full queue has lost.
  function Lost(s: Sender, ops: seq<Op>): nat {
    if ops == [] then 0
    else Lost(s, Init(ops)) + if Last(ops).Send? && |Run(s, Init(ops)).queue| >= QUEUE_LENGTH then 1 else 0
  }

  // ----- What goes on the air, from what was asked for alone ------------------------------------

  function Sends(ops: seq<Op>): nat {
    if ops == [] then 0 else Sends(Init(ops)) + if Last(ops).Send? then 1 else 0
  }

  // How many packets are pending: a send finds room among fifteen, an acknowledgement takes one.
  function Pending(ops: seq<Op>): nat {
    if ops == [] then 0
    else
      var n := Pending(Init(ops));
      match Last(ops)
      case Send(_, _) => if n < 15 then n + 1 else n
      case Ack => if n > 0 then n - 1 else 0
      case Tick => n
  }

  // The payloads of the sends that found room: code, arguments, and how many sends came before.
  function Asked(ops: seq<Op>): seq<seq<int>> {
    if ops == [] then []
    else if Last(ops).Send? && Pending(Init(ops)) < 15
      then Asked(Init(ops)) + [[Last(ops).code] + Last(ops).args + [Sends(Init(ops))]]
    else Asked(Init(ops))
  }

  function Taken(ops: seq<Op>): (n: nat)
    ensures n + Pending(ops) == |Asked(ops)|
  {
    if ops == [] then 0 else Taken(Init(ops)) + if Last(ops).Ack? && Pending(Init(ops)) > 0 then 1 else 0
  }

  // Ticks since the last acknowledgement, or since anything has been pending.
  function Waited(ops: seq<Op>): nat {
    if ops == [] || Last(ops).Ack? then 0
    else Waited(Init(ops)) + if Last(ops).Tick? && Pending(ops) > 0 then 1 else 0
  }

  // The payloads put on the air: a packet as soon as it is the oldest, and again when the ticks it
  // has waited say so.
  function OnAir(ops: seq<Op>): seq<seq<int>> {
    if ops == [] then []
    else
      var before, n := OnAir(Init(ops)), Pending(Init(ops));
      var goes := match Last(ops)
                  case Send(_, _) => n == 0
                  case Ack => n > 1
                  case Tick => n > 0 && Waited(Init(ops)) in {1, 2, 3, 4, 6, 8, 10, 12, 14};
      if goes then before + [Asked(ops)[Taken(ops)]] else before
  }

  // These packets have these payloads.
  ghost predicate Carry(packets: seq<Packet>, payloads: seq<seq<int>>) {
    |packets| == |payloads| && forall i :: 0 <= i < |packets| ==> packets[i].payload == payloads[i]
  }

  lemma CarrySnoc(packets: seq<Packet>, payloads: seq<seq<int>>, p: Packet)
    requires Carry(packets, payloads)
    ensures Carry(packets + [p], payloads + [p.payload])
  {
  }

  // What the sender holds is what the operations say.
  ghost predicate Follows(s: Sender, ops: seq<Op>) {
    && Sound(s) && s.lastMessageNumber == Sends(ops)
    && |s.queue| == Pending(ops) && Pops(s.log) == Taken(ops) && s.timeSinceSent == Waited(ops)
    && Carry(Accepts(s.log), Asked(ops)) && Carry(Transmissions(s.log), OnAir(ops))
  }

  lemma {:induction false} LogSnoc(log: seq<Event>, e: Event)
    ensures Pops(log + [e]) == Pops(log) + if e.Popped? then 1 else 0
    ensures Accepts(log + [e]) == if e.Accepted? then Accepts(log) + [e.p] else Accepts(log)
    ensures Transmissions(log + [e]) == if e.Transmitted? then Transmissions(log) + [e.p] else Transmissions(log)
  {
    assert Init(log + [e]) == log;
  }

  lemma FollowsSend(s: Sender, ops: seq<Op>)
    requires ops != [] && Last(ops).Send? && Follows(s, Init(ops))
    ensures Follows(Step(s, Last(ops)), ops)
  {
    var p := NextPacket(s, Last(ops).code, Last(ops).args);
    SendKeepsSound(s, p);
    if |s.queue| < 15 {
      LogSnoc(s.log, Accepted(p));
      CarrySnoc(Accepts(s.log), Asked(Init(ops)), p);
      if s.queue == [] {
        LogSnoc(s.log + [Accepted(p)], Transmitted(p));
        CarrySnoc(Transmissions(s.log), OnAir(Init(ops)), p);
      }
    }
  }

  lemma FollowsAck(s: Sender, ops: seq<Op>)
    requires ops != [] && Last(ops).Ack? && Follows(s, Init(ops))
    ensures Follows(Step(s, Ack), ops)
  {
    AckKeepsSound(s);
    if s.queue != [] {
      LogSnoc(s.log, Popped);
      if |s.queue| > 1 {
        LogSnoc(s.log + [Popped], Transmitted(s.queue[1]));
        CarrySnoc(Transmissions(s.log), OnAir(Init(ops)), s.queue[1]);
      }
    }
  }

  lemma FollowsTick(s: Sender, ops: seq<Op>)
    requires ops != [] && Last(ops).Tick? && Follows(s, Init(ops))
    ensures Follows(Step(s, Tick), ops)
  {
    TickKeepsSound(s);
    ResendsSettle(s.timeSinceSent);
    if s.queue != [] && ResendAt(s.timeSinceSent) {
      LogSnoc(s.log, Transmitted(s.queue[0]));
      CarrySnoc(Transmissions(s.log), OnAir(Init(ops)), s.queue[0]);
    }
  }

  // In every run the packets accepted carry the code, the arguments and the number of the sends
  // that found room, and what goes on the air is exactly what the operations say.
  lemma {:induction false} RunFollows(ops: seq<Op>)
    ensures Follows(Run(START, ops), ops)
  {
    if ops != [] {
      RunFollows(Init(ops));
      match Last(ops)
      case Send(_, _) => FollowsSend(Run(START, Init(ops)), ops);
      case Ack => FollowsAck(Run(START, Init(ops)), ops);
      case Tick => FollowsTick(Run(START, Init(ops)), ops);
    }
  }
}

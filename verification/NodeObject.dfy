// A node as the master keeps it: the fields of the sender, its queue, and the datagrams it has
// put on the network.
module NodeObject {
  import opened PacketQueue
  import opened Sequences
  import opened StopAndWait

  // The `byte` a number is cut to on the wire.
  function WireByte(x: int): (b: nat)
    ensures b < 256
  {
    x % 256
  }

  function Wire(payload: seq<int>): (bytes: seq<nat>)
    ensures |bytes| == |payload| && forall i :: 0 <= i < |payload| ==> bytes[i] == WireByte(payload[i])
  {
    seq(|payload|, i requires 0 <= i < |payload| => WireByte(payload[i]))
  }

  function Datagrams(packets: seq<Packet>): (wires: seq<seq<nat>>)
    ensures |wires| == |packets| && forall i :: 0 <= i < |packets| ==> wires[i] == Wire(packets[i].payload)
  {
    seq(|packets|, i requires 0 <= i < |packets| => Wire(packets[i].payload))
  }

  lemma DatagramsSnoc(packets: seq<Packet>, p: Packet)
    ensures Datagrams(packets + [p]) == Datagrams(packets) + [Wire(p.payload)]
  {
  }

  method WriteBytes(payload: seq<int>) returns (datagram: seq<nat>)
    ensures datagram == Wire(payload)
  {
    datagram := [];
    for i := 0 to |payload|
      invariant datagram == Wire(payload[..i])
    {
      datagram := datagram + [WireByte(payload[i])];
    }
    assert payload[..|payload|] == payload;
  }

  method FillPayload(code: int, packet: array<int>, len: nat, number: int) returns (payload: seq<int>)
    requires len <= packet.Length
    ensures payload == [code] + packet[..len] + [number]
  {
    payload := [code];
    for i := 0 to len
      invariant payload == [code] + packet[..i]
    {
      payload := payload + [packet[i]];
    }
    payload := payload + [number];
  }

  class Node {
    var status: Status
    var lastMessageNumber: int
    const pendingPackets: Queue<Packet>
    var timeSinceSent: nat
    // The network: one datagram for each packet put on it.
    var udp: seq<seq<nat>>
    ghost var log: seq<Event>

    ghost predicate Valid()
      reads this, pendingPackets, pendingPackets.records
    {
      && pendingPackets.Valid() && pendingPackets.capacity == QUEUE_LENGTH && !pendingPackets.overwrite
      && udp == Datagrams(Transmissions(log))
    }

    ghost function State(): Sender
      reads this, pendingPackets, pendingPackets.records
      requires Valid()
    {
      Sender(status, lastMessageNumber, pendingPackets.Contents(), timeSinceSent, log)
    }

    constructor ()
      ensures Valid() && fresh(pendingPackets) && fresh(pendingPackets.records)
      ensures State() == START
    {
      status := Running;
      lastMessageNumber := 0;
      timeSinceSent := 0;
      udp := [];
      log := [];
      pendingPackets := new Queue(QUEUE_LENGTH, false);
    }

    method PutOnNetwork(p: Packet)
      requires udp == Datagrams(Transmissions(log))
      modifies `udp, `log
      ensures log == old(log) + [Transmitted(p)] && udp == Datagrams(Transmissions(log))
    {
      var datagram := WriteBytes(p.payload);
      TransmissionsSnoc(log, Transmitted(p));
      DatagramsSnoc(Transmissions(log), p);
      udp := udp + [datagram];
      log := log + [Transmitted(p)];
    }

    method SendNextPacket()
      requires Valid()
      modifies this
      ensures Valid() && State() == SendNext(old(State()))
    {
      if pendingPackets.IsEmpty() {
        status := Running;
        timeSinceSent := 0;
      } else {
        var ok, p := pendingPackets.Peek();
        PutOnNetwork(p);
      }
    }

    method PushPacket(p: Packet)
      requires Valid()
      modifies this, pendingPackets, pendingPackets.records
      ensures Valid() && State() == Push(old(State()), p)
    {
      var ok := pendingPackets.Push(p);
      if ok {
        TransmissionsSnoc(log, Accepted(p));
        log := log + [Accepted(p)];
      }
      if pendingPackets.count == 1 {
        SendNextPacket();
      }
    }

    method TakeNumber() returns (number: int)
      requires Valid()
      modifies `status, `lastMessageNumber
      ensures Valid() && number == old(lastMessageNumber)
      ensures State() == old(State()).(status := PendingResponse, lastMessageNumber := number + 1)
    {
      status := PendingResponse;
      number := lastMessageNumber;
      lastMessageNumber := lastMessageNumber + 1;
    }

    // A message is a packet without arguments.
    method SendMessage(code: int)
      requires Valid()
      modifies this, pendingPackets, pendingPackets.records
      ensures Valid() && State() == Step(old(State()), Send(code, []))
    {
      var number := TakeNumber();
      assert [code, number] == [code] + [] + [number];
      PushPacket(Packet([code, number]));
    }

    // The payload array has room for the code and the number beside the arguments.
    method SendPacket(code: int, packet: array<int>, len: nat)
      requires Valid() && len <= packet.Length && len + 2 <= MAX_PACKET_SIZE
      modifies this, pendingPackets, pendingPackets.records
      ensures Valid() && State() == Step(old(State()), Send(code, old(packet[..len])))
    {
      var number := TakeNumber();
      var payload := FillPayload(code, packet, len, number);
      PushPacket(Packet(payload));
    }

    method PopPacket()
      requires Valid()
      modifies `log, pendingPackets
      ensures Valid() && State() == PopHead(old(State()))
    {
      var ok, p := pendingPackets.Pop();
      if ok {
        TransmissionsSnoc(log, Popped);
        log := log + [Popped];
      }
    }

    method ReceiveAck()
      requires Valid()
      modifies this, pendingPackets
      ensures Valid() && State() == Step(old(State()), Ack)
    {
      PopPacket();
      SendNextPacket();
      timeSinceSent := 0;
    }

    method RetryHead()
      requires Valid() && !pendingPackets.IsEmpty()
      modifies this
      ensures Valid() && State() == Retry(old(State())) && timeSinceSent == old(timeSinceSent)
    {
      if timeSinceSent > 0 {
        if timeSinceSent < 5 || (timeSinceSent < 16 && timeSinceSent % 2 == 0) {
          SendNextPacket();
        } else if timeSinceSent >= 16 {
          status := Error;
        }
      }
    }

    method CheckSentPackets()
      requires Valid()
      modifies this
      ensures Valid() && State() == Step(old(State()), Tick)
    {
      if !pendingPackets.IsEmpty() {
        RetryHead();
        timeSinceSent := timeSinceSent + 1;
      }
    }
  }

  // ----- Calls on a node ------------------------------------------------------------------------

  // The payload array has room for so many arguments.
  predicate Fits(ops: seq<Op>) {
    forall i :: 0 <= i < |ops| && ops[i].Send? ==> |ops[i].args| + 2 <= MAX_PACKET_SIZE
  }

  method Perform(node: Node, op: Op)
    requires node.Valid() && Fits([op])
    modifies node, node.pendingPackets, node.pendingPackets.records
    ensures node.Valid() && node.State() == Step(old(node.State()), op)
  {
    assert [op][0] == op;
    match op {
      case Send(code, args) =>
        if args == [] {
          node.SendMessage(code);
        } else {
          var packet := new int[|args|](i requires 0 <= i < |args| => args[i]);
          assert packet[..|args|] == args;
          node.SendPacket(code, packet, |args|);
        }
      case Ack => node.ReceiveAck();
      case Tick => node.CheckSentPackets();
    }
  }

  // Whatever is asked of a new node, the datagrams it puts on the network are byte for byte those
  // the operations say: code, arguments and number of the oldest packet, when it is its turn.
  method PerformAll(ops: seq<Op>) returns (node: Node)
    requires Fits(ops)
    ensures fresh(node) && node.Valid()
    ensures |node.udp| == |OnAir(ops)|
    ensures forall i :: 0 <= i < |OnAir(ops)| ==>
              && |node.udp[i]| == |OnAir(ops)[i]|
              && forall j :: 0 <= j < |OnAir(ops)[i]| ==> node.udp[i][j] == OnAir(ops)[i][j] % 256
  {
    node := new Node();
    for n := 0 to |ops|
      invariant fresh(node) && fresh(node.pendingPackets) && fresh(node.pendingPackets.records)
      invariant node.Valid() && node.State() == Run(START, ops[..n])
    {
      assert ops[..n + 1] == ops[..n] + [ops[n]] && Init(ops[..n + 1]) == ops[..n];
      Perform(node, ops[n]);
    }
    assert ops[..|ops|] == ops;
    RunFollows(ops);
  }
}

// The control panel object: it collects a line from the network and regroups its arguments in a
// fixed array of ten.
module ControlPanelObject {
  import opened PanelText
  import opened Sequences

  class ControlPanel {
    var packet: string
    var message: string
    const args: array<string>
    // What has been handed to the handlers.
    var calls: seq<Call>

    ghost predicate Valid()
      reads this, args
    {
      args.Length == MAX_ARGC && '\n' !in packet && Cleared(0)
    }

    ghost predicate Cleared(argc: nat)
      reads this, args
    {
      forall i :: argc <= i < args.Length ==> args[i] == ""
    }

    constructor ()
      ensures Valid() && fresh(args) && packet == "" && calls == []
    {
      packet, message, calls := "", "", [];
      args := new string[MAX_ARGC](i => "");
    }

    method InitArguments() returns (argc: nat)
      modifies args
      ensures argc == 0 && Cleared(0)
    {
      argc := 0;
      for i := 0 to args.Length
        invariant forall j :: 0 <= j < i ==> args[j] == ""
      {
        args[i] := "";
      }
    }

    method Dispatch(argc: nat)
      requires argc <= args.Length
      modifies `calls
      ensures calls == old(calls) + [Call(message, args[..argc])]
    {
      calls := calls + [Call(message, args[..argc])];
    }

    // Reads up to the end of a line, or all there is. The input is the end of `text`, which
    // starts with what was waiting.
    method ReadPacket(input: string, pos: nat, ghost text: string, ghost base: nat) returns (ok: bool, next: nat)
      requires pos <= |input| && |text| == base + |input| && text[base..] == input
      requires packet == RestTo(text, base + pos)
      modifies `packet
      ensures pos <= next <= |input|
      ensures !ok ==> next == |input| && packet == Rest(text) && AllCalls(text) == CallsTo(text, base + pos)
      ensures ok ==> pos < next && text[base + next - 1] == '\n' && packet == RestTo(text, base + next - 1) + "\n"
      ensures ok ==> CallsTo(text, base + next - 1) == CallsTo(text, base + pos)
    {
      next := pos;
      while next < |input|
        invariant pos <= next <= |input|
        invariant packet == RestTo(text, base + next) && CallsTo(text, base + next) == CallsTo(text, base + pos)
      {
        var inChar := input[next];
        assert inChar == text[base + next];
        packet := packet + [inChar];
        next := next + 1;
        if inChar == '\n' {
          return true, next;
        }
      }
      ok := false;
    }

    // The batches hold these fields, the calls for the full ones made.
    ghost predicate Holding(argc: nat, fields: seq<string>, before: seq<Call>)
      reads this, args
    {
      fields != [] && fields[0] == message && args.Length == MAX_ARGC && Cleared(argc) &&
      var b := Batched(fields[1..], |fields| - 1);
      argc == |b.open| && args[..argc] == b.open && calls == before + Named(message, b.full)
    }

    method StartArgument(argc0: nat, ghost fields: seq<string>, ghost before: seq<Call>) returns (argc: nat)
      requires Holding(argc0, fields, before)
      modifies `calls, args
      ensures Holding(argc, fields + [""], before)
    {
      argc := argc0;
      ghost var rest := fields[1..];
      assert (fields + [""])[1..] == rest + [""];
      BatchedPrefix(rest, rest + [""], |rest|);
      if argc == MAX_ARGC {
        Dispatch(argc);
        argc := InitArguments();
      }
      argc := argc + 1;
    }

    // Only called for a field behind an '&', so there is an argument to grow.
    method GrowArgument(argc: nat, c: char, ghost fields: seq<string>, ghost before: seq<Call>)
      requires Holding(argc, fields, before) && |fields| > 1 && c != '&'
      modifies args
      ensures Holding(argc, Extended(fields, c), before)
    {
      ghost var rest := fields[1..];
      ghost var more := Extended(fields, c)[1..];
      assert more == Init(rest) + [Last(rest) + [c]];
      LastGrown(rest, more, |rest| - 1);
      args[argc - 1] := args[argc - 1] + [c];
    }

    method ReadName(ghost line: string) returns (pos: nat)
      requires packet == line + "\n" && '\n' !in line
      modifies `message
      ensures pos <= |line| && SplitTo(line, pos) == [message] && (pos < |line| ==> line[pos] == '&')
    {
      message := "";
      pos := 0;
      while packet[pos] != '&' && packet[pos] != '\n'
        invariant pos <= |line| && SplitTo(line, pos) == [message]
        decreases |line| - pos
      {
        message := message + [packet[pos]];
        pos := pos + 1;
      }
    }

    // One line, its end included, is taken apart and handed over.
    method DispatchPacket(ghost line: string)
      requires args.Length == MAX_ARGC && packet == line + "\n" && '\n' !in line
      modifies this, args
      ensures Valid() && packet == "" && calls == old(calls) + ParseLine(line)
    {
      ghost var before := calls;
      var argc := InitArguments();
      var pos := ReadName(line);
      argc := DispatchArguments(pos, line, before);
      ghost var b := Batched(Split(line)[1..], |Split(line)| - 1);
      Associative(before, Named(message, b.full), [Call(message, b.open)]);
      argc := InitArguments();
      packet := "";
    }

    method DispatchArguments(start: nat, ghost line: string, ghost before: seq<Call>) returns (argc: nat)
      requires packet == line + "\n" && '\n' !in line && args.Length == MAX_ARGC && Cleared(0) && calls == before
      requires start <= |line| && SplitTo(line, start) == [message] && (start < |line| ==> line[start] == '&')
      modifies `calls, args
      ensures Split(line)[0] == message
      ensures var b := Batched(Split(line)[1..], |Split(line)| - 1);
              argc == |b.open| <= args.Length && args[..argc] == b.open &&
              calls == before + Named(message, b.full) + [Call(message, b.open)]
    {
      var pos := start;
      argc := 0;
      while packet[pos] != '\n'
        invariant start <= pos <= |line| && Holding(argc, SplitTo(line, pos), before)
        invariant |SplitTo(line, pos)| > 1 || (pos < |line| ==> line[pos] == '&')
        decreases |line| - pos
      {
        if packet[pos] == '&' {
          argc := StartArgument(argc, SplitTo(line, pos), before);
        } else {
          GrowArgument(argc, packet[pos], SplitTo(line, pos), before);
        }
        pos := pos + 1;
      }
      Dispatch(argc);
    }

    method TakeLine(input: string, pos: nat, ghost text: string, ghost base: nat, ghost before: seq<Call>)
      returns (next: nat)
      requires Valid() && pos < |input| && |text| == base + |input| && text[base..] == input
      requires packet == RestTo(text, base + pos) && calls == before + CallsTo(text, base + pos)
      modifies this, args
      ensures Valid() && pos < next <= |input|
      ensures packet == RestTo(text, base + next) && calls == before + CallsTo(text, base + next)
    {
      var ok;
      ok, next := ReadPacket(input, pos, text, base);
      if ok {
        LineEnds(text, base + next, before);
        DispatchPacket(RestTo(text, base + next - 1));
      } else {
        RestHasNoEnd(text, |text|);
      }
    }

    // What arrives is appended to what was waiting; every line that ends in it is handed over.
    method Update(input: string)
      requires Valid()
      modifies this, args
      ensures Valid()
      ensures packet == Rest(old(packet) + input) && calls == old(calls) + AllCalls(old(packet) + input)
    {
      ghost var text, base, before := packet + input, |packet|, calls;
      var pos := 0;
      LinePrefix(packet, input, base);
      RestPlain(packet, base);
      assert packet[..base] == packet && text[base..] == input;
      while pos < |input|
        invariant pos <= |input| && Valid()
        invariant packet == RestTo(text, base + pos) && calls == before + CallsTo(text, base + pos)
      {
        pos := TakeLine(input, pos, text, base, before);
      }
    }
  }

  // Pieces handed to one update after the other.
  method UpdateAll(panel: ControlPanel, pieces: seq<string>)
    requires panel.Valid() && panel.packet == "" && panel.calls == []
    modifies panel, panel.args
    ensures panel.Valid() && Inbox(panel.packet, panel.calls) == ReceivedAll(pieces)
  {
    for i := 0 to |pieces|
      invariant panel.Valid() && Inbox(panel.packet, panel.calls) == ReceivedAll(pieces[..i])
    {
      assert Init(pieces[..i + 1]) == pieces[..i];
      panel.Update(pieces[i]);
    }
    assert pieces[..|pieces|] == pieces;
  }

  lemma LineEnds(text: string, n: nat, before: seq<Call>)
    requires 0 < n <= |text| && text[n - 1] == '\n'
    ensures '\n' !in RestTo(text, n - 1) && RestTo(text, n) == ""
    ensures before + CallsTo(text, n) == before + CallsTo(text, n - 1) + ParseLine(RestTo(text, n - 1))
  {
    RestHasNoEnd(text, n - 1);
    Associative(before, CallsTo(text, n - 1), ParseLine(RestTo(text, n - 1)));
  }
}

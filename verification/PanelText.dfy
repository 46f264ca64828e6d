// The text between the panel server and the master: lines of fields separated by '&'. The
// master hands the fields of a line to a handler in batches of ten.
module PanelText {
  import opened Sequences

  const MAX_ARGC := 10

  datatype Call = Call(name: string, args: seq<string>)

  // ----- Fields -------------------------------------------------------------------------------

  // One more character on the last field, or a new field.
  function Extended(fields: seq<string>, c: char): (more: seq<string>)
    requires fields != []
    ensures more != []
  {
    if c == '&' then fields + [""] else Init(fields) + [Last(fields) + [c]]
  }

  // The fields of the first `n` characters.
  function SplitTo(line: string, n: nat): (fields: seq<string>)
    requires n <= |line|
    ensures fields != []
  {
    if n == 0 then [""] else Extended(SplitTo(line, n - 1), line[n - 1])
  }

  function Split(line: string): (fields: seq<string>)
    ensures fields != []
  {
    SplitTo(line, |line|)
  }

  function Join(fields: seq<string>): string
    requires fields != []
  {
    if |fields| == 1 then fields[0] else Join(Init(fields)) + "&" + Last(fields)
  }

  lemma {:induction false} SplitPrefix(a: string, b: string, n: nat)
    requires n <= |a|
    ensures SplitTo(a + b, n) == SplitTo(a, n)
  {
    if n > 0 {
      SplitPrefix(a, b, n - 1);
    }
  }

  // Characters other than '&' all go to the last field.
  lemma {:induction false} SplitPlain(line: string, from: nat, fields: seq<string>, n: nat)
    requires from <= n <= |line| && SplitTo(line, from) == fields + [""]
    requires '&' !in line[from..]
    ensures SplitTo(line, n) == fields + [line[from..n]]
  {
    if n == from {
      assert line[from..n] == "";
    } else {
      SplitPlain(line, from, fields, n - 1);
      assert line[n - 1] in line[from..] by {
        assert line[n - 1] == line[from..][n - 1 - from];
      }
      assert line[from..n] == line[from..n - 1] + [line[n - 1]];
      assert Init(fields + [line[from..n - 1]]) == fields;
    }
  }

  lemma SplitOneMore(line: string, field: string)
    requires '&' !in field
    ensures Split(line + "&" + field) == Split(line) + [field]
  {
    var whole := line + "&" + field;
    assert whole == line + ("&" + field);
    SplitPrefix(line, "&" + field, |line|);
    assert whole[|line|] == '&' && whole[|line| + 1..] == field;
    SplitPlain(whole, |line| + 1, Split(line), |whole|);
    assert whole[|line| + 1..|whole|] == field;
  }

  // Splitting undoes joining.
  lemma {:induction false} SplitJoin(fields: seq<string>)
    requires fields != [] && forall i :: 0 <= i < |fields| ==> '&' !in fields[i]
    ensures Split(Join(fields)) == fields
  {
    if |fields| == 1 {
      var field := fields[0];
      assert [] + [""] == [""] && field[0..] == field && field[0..|field|] == field;
      SplitPlain(field, 0, [], |field|);
      assert fields == [] + [field];
    } else {
      SplitJoin(Init(fields));
      SplitOneMore(Join(Init(fields)), Last(fields));
      assert Init(fields) + [Last(fields)] == fields;
    }
  }

  // ----- Batches ------------------------------------------------------------------------------

  datatype Batches = Batches(full: seq<seq<string>>, open: seq<string>)

  // One more argument; one more than fits starts the next batch.
  function Added(b: Batches, a: string): Batches {
    if |b.open| == MAX_ARGC then Batches(b.full + [b.open], [a]) else Batches(b.full, b.open + [a])
  }

  // The first `n` arguments.
  function Batched(args: seq<string>, n: nat): (b: Batches)
    requires n <= |args|
    ensures |b.open| <= MAX_ARGC && (n > 0 ==> b.open != [])
  {
    if n == 0 then Batches([], []) else Added(Batched(args, n - 1), args[n - 1])
  }

  lemma {:induction false} BatchedPrefix(a: seq<string>, b: seq<string>, n: nat)
    requires n <= |a| && n <= |b| && forall i :: 0 <= i < n ==> a[i] == b[i]
    ensures Batched(a, n) == Batched(b, n)
  {
    if n > 0 {
      BatchedPrefix(a, b, n - 1);
    }
  }

  // A longer last argument lengthens the last one of the open batch.
  lemma {:induction false} LastGrown(args: seq<string>, more: seq<string>, n: nat)
    requires |args| == |more| == n + 1 && forall i :: 0 <= i < n ==> args[i] == more[i]
    ensures var b := Batched(args, n + 1);
            b.open != [] && Last(b.open) == args[n] && Batched(more, n + 1) == b.(open := Init(b.open) + [more[n]])
  {
    BatchedPrefix(args, more, n);
    AddedGrown(Batched(args, n), args[n], more[n]);
  }

  lemma AddedGrown(b: Batches, a: string, a': string)
    ensures var b1 := Added(b, a);
            b1.open != [] && Last(b1.open) == a && Added(b, a') == b1.(open := Init(b1.open) + [a'])
  {
  }

  function Named(name: string, batches: seq<seq<string>>): (calls: seq<Call>)
    ensures |calls| == |batches| && forall i :: 0 <= i < |calls| ==> calls[i] == Call(name, batches[i])
  {
    seq(|batches|, i requires 0 <= i < |batches| => Call(name, batches[i]))
  }

  function CallsOf(name: string, args: seq<string>): seq<Call> {
    var b := Batched(args, |args|);
    Named(name, b.full) + [Call(name, b.open)]
  }

  function ParseLine(line: string): seq<Call> {
    CallsOf(Split(line)[0], Split(line)[1..])
  }

  function AllArgs(batches: seq<seq<string>>): seq<string> {
    if batches == [] then [] else AllArgs(Init(batches)) + Last(batches)
  }

  // Every batch but the last is full, and together they are the arguments in order.
  lemma {:induction false} BatchesKeepArgs(args: seq<string>, n: nat)
    requires n <= |args|
    ensures var b := Batched(args, n);
            (forall i :: 0 <= i < |b.full| ==> |b.full[i]| == MAX_ARGC) &&
            AllArgs(b.full) + b.open == args[..n] && n == MAX_ARGC * |b.full| + |b.open|
  {
    if n > 0 {
      BatchesKeepArgs(args, n - 1);
      var b := Batched(args, n - 1);
      assert args[..n] == args[..n - 1] + [args[n - 1]];
      Associative(AllArgs(b.full), b.open, [args[n - 1]]);
    }
  }

  function ArgsOf(calls: seq<Call>): (batches: seq<seq<string>>)
    ensures |batches| == |calls| && forall i :: 0 <= i < |calls| ==> batches[i] == calls[i].args
  {
    seq(|calls|, i requires 0 <= i < |calls| => calls[i].args)
  }

  // Nothing is lost on the way to the handlers: for every name and argument list that can be
  // told apart in a line, all calls carry the name, all but the last have exactly ten arguments,
  // the last has at least one unless there are none, and together they have all of them.
  lemma {:induction false} CommandArrives(name: string, args: seq<string>)
    requires '&' !in name && forall i :: 0 <= i < |args| ==> '&' !in args[i]
    ensures var calls := ParseLine(Join([name] + args));
            calls != [] && AllArgs(ArgsOf(calls)) == args &&
            (forall i :: 0 <= i < |calls| ==> calls[i].name == name) &&
            (forall i :: 0 <= i < |calls| - 1 ==> |calls[i].args| == 10) &&
            |args| == 10 * (|calls| - 1) + |Last(calls).args| && |Last(calls).args| <= 10 &&
            (args != [] ==> Last(calls).args != [])
  {
    SplitJoin([name] + args);
    assert ([name] + args)[1..] == args;
    CallsKeepArgs(name, args);
  }

  lemma CallsKeepArgs(name: string, args: seq<string>)
    ensures var calls := CallsOf(name, args);
            AllArgs(ArgsOf(calls)) == args &&
            (forall i :: 0 <= i < |calls| - 1 ==> |calls[i].args| == 10) &&
            |args| == 10 * (|calls| - 1) + |Last(calls).args| && |Last(calls).args| <= 10 &&
            (args != [] ==> Last(calls).args != [])
  {
    BatchesKeepArgs(args, |args|);
    var b := Batched(args, |args|);
    assert args[..|args|] == args;
    assert ArgsOf(CallsOf(name, args)) == b.full + [b.open];
  }

  // ----- Lines --------------------------------------------------------------------------------

  // What is waiting for its line to end, of the first `n` characters.
  function RestTo(text: string, n: nat): string
    requires n <= |text|
  {
    if n == 0 || text[n - 1] == '\n' then [] else RestTo(text, n - 1) + [text[n - 1]]
  }

  // The calls for all lines that end in the first `n` characters.
  function CallsTo(text: string, n: nat): seq<Call>
    requires n <= |text|
  {
    if n == 0 then []
    else if text[n - 1] == '\n' then CallsTo(text, n - 1) + ParseLine(RestTo(text, n - 1))
    else CallsTo(text, n - 1)
  }

  function Rest(text: string): string {
    RestTo(text, |text|)
  }

  function AllCalls(text: string): seq<Call> {
    CallsTo(text, |text|)
  }

  lemma {:induction false} RestHasNoEnd(text: string, n: nat)
    requires n <= |text|
    ensures '\n' !in RestTo(text, n)
  {
    if n > 0 && text[n - 1] != '\n' {
      RestHasNoEnd(text, n - 1);
    }
  }

  lemma {:induction false} LinePrefix(a: string, b: string, n: nat)
    requires n <= |a|
    ensures RestTo(a + b, n) == RestTo(a, n) && CallsTo(a + b, n) == CallsTo(a, n)
  {
    if n > 0 {
      LinePrefix(a, b, n - 1);
    }
  }

  lemma {:induction false} RestPlain(text: string, n: nat)
    requires n <= |text| && '\n' !in text
    ensures RestTo(text, n) == text[..n] && CallsTo(text, n) == []
  {
    if n > 0 {
      RestPlain(text, n - 1);
      assert text[n - 1] in text;
      assert text[..n] == text[..n - 1] + [text[n - 1]];
    }
  }

  lemma RestWaits(text: string)
    ensures '\n' !in Rest(text) && Rest(Rest(text)) == Rest(text) && AllCalls(Rest(text)) == []
  {
    RestHasNoEnd(text, |text|);
    RestPlain(Rest(text), |Rest(text)|);
    assert Rest(text)[..|Rest(text)|] == Rest(text);
  }

  // Behind i characters of u as behind j of v, but for calls made before.
  ghost predicate InStep(u: string, i: nat, v: string, j: nat, calls: seq<Call>)
    requires i <= |u| && j <= |v|
  {
    RestTo(u, i) == RestTo(v, j) && CallsTo(u, i) == calls + CallsTo(v, j)
  }

  lemma StaysInStep(u: string, i: nat, v: string, j: nat, calls: seq<Call>)
    requires 0 < i <= |u| && 0 < j <= |v| && u[i - 1] == v[j - 1] && InStep(u, i - 1, v, j - 1, calls)
    ensures InStep(u, i, v, j, calls)
  {
    Associative(calls, CallsTo(v, j - 1), if v[j - 1] == '\n' then ParseLine(RestTo(v, j - 1)) else []);
  }

  lemma CutStart(a: string, r: string, b: string)
    requires r == Rest(a)
    ensures InStep(a + b, |a|, r + b, |r|, AllCalls(a))
  {
    LinePrefix(a, b, |a|);
    LinePrefix(r, b, |r|);
    RestWaits(a);
    assert CallsTo(r + b, |r|) == [];
  }

  lemma {:induction false} CutTo(a: string, r: string, b: string, i: nat, j: nat)
    requires |a| <= i <= |a + b| && r == Rest(a) && j == i - |a| + |r|
    ensures InStep(a + b, i, r + b, j, AllCalls(a))
    decreases i
  {
    if i == |a| {
      CutStart(a, r, b);
    } else {
      CutTo(a, r, b, i - 1, j - 1);
      assert (a + b)[i - 1] == b[i - 1 - |a|] == (r + b)[j - 1];
      StaysInStep(a + b, i, r + b, j, AllCalls(a));
    }
  }

  // Where the text is cut into pieces makes no difference.
  lemma CutAnywhere(a: string, b: string)
    ensures Rest(a + b) == Rest(Rest(a) + b) && AllCalls(a + b) == AllCalls(a) + AllCalls(Rest(a) + b)
  {
    CutTo(a, Rest(a), b, |a + b|, |Rest(a) + b|);
  }

  lemma LineAlone(line: string)
    requires '\n' !in line
    ensures AllCalls(line + "\n") == ParseLine(line) && Rest(line + "\n") == []
  {
    LinePrefix(line, "\n", |line|);
    RestPlain(line, |line|);
    assert line[..|line|] == line;
  }

  // A command printed as a line, after any text that ends a line, causes exactly its own calls.
  lemma LineArrives(before: string, line: string)
    requires '\n' !in line && Rest(before) == []
    ensures AllCalls(before + (line + "\n")) == AllCalls(before) + ParseLine(line) && Rest(before + (line + "\n")) == []
  {
    CutAnywhere(before, line + "\n");
    assert [] + (line + "\n") == line + "\n";
    LineAlone(line);
  }

  // ----- Whole sessions -----------------------------------------------------------------------

  datatype Command = Command(name: string, args: seq<string>)

  // A field that can be told apart in a line, and stays in it.
  predicate Plain(field: string) {
    '&' !in field && '\n' !in field
  }

  predicate PlainCommand(c: Command) {
    Plain(c.name) && forall i :: 0 <= i < |c.args| ==> Plain(c.args[i])
  }

  lemma {:induction false} JoinStaysInLine(fields: seq<string>)
    requires fields != [] && forall i :: 0 <= i < |fields| ==> '\n' !in fields[i]
    ensures '\n' !in Join(fields)
  {
    if |fields| > 1 {
      JoinStaysInLine(Init(fields));
    }
  }

  function Line(c: Command): string {
    Join([c.name] + c.args)
  }

  lemma LineOfCommand(c: Command)
    requires PlainCommand(c)
    ensures '\n' !in Line(c) && ParseLine(Line(c)) == CallsOf(c.name, c.args)
  {
    JoinStaysInLine([c.name] + c.args);
    SplitJoin([c.name] + c.args);
    assert ([c.name] + c.args)[1..] == c.args;
  }

  function Printed(commands: seq<Command>): string {
    if commands == [] then "" else Printed(Init(commands)) + (Line(Last(commands)) + "\n")
  }

  function CallsFor(commands: seq<Command>): seq<Call> {
    if commands == [] then [] else CallsFor(Init(commands)) + CallsOf(Last(commands).name, Last(commands).args)
  }

  lemma {:induction false} PrintedArrives(commands: seq<Command>)
    requires forall i :: 0 <= i < |commands| ==> PlainCommand(commands[i])
    ensures Rest(Printed(commands)) == "" && AllCalls(Printed(commands)) == CallsFor(commands)
  {
    if commands != [] {
      PrintedArrives(Init(commands));
      LineOfCommand(Last(commands));
      LineArrives(Printed(Init(commands)), Line(Last(commands)));
    }
  }

  // What waits, and what has been handed over.
  datatype Inbox = Inbox(rest: string, calls: seq<Call>)

  function Received(b: Inbox, input: string): Inbox {
    Inbox(Rest(b.rest + input), b.calls + AllCalls(b.rest + input))
  }

  function ReceivedAll(pieces: seq<string>): Inbox {
    if pieces == [] then Inbox("", []) else Received(ReceivedAll(Init(pieces)), Last(pieces))
  }

  function Joined(pieces: seq<string>): string {
    if pieces == [] then "" else Joined(Init(pieces)) + Last(pieces)
  }

  lemma {:induction false} PiecesAreText(pieces: seq<string>)
    ensures ReceivedAll(pieces) == Inbox(Rest(Joined(pieces)), AllCalls(Joined(pieces)))
  {
    if pieces != [] {
      PiecesAreText(Init(pieces));
      CutAnywhere(Joined(Init(pieces)), Last(pieces));
    }
  }

  // Any commands without separators in their fields, printed one after the other and cut into
  // pieces anywhere: the handlers are called exactly for them, in order, and nothing is left.
  lemma {:induction false} CommandsArrive(commands: seq<Command>, pieces: seq<string>)
    requires forall i :: 0 <= i < |commands| ==> PlainCommand(commands[i])
    requires Joined(pieces) == Printed(commands)
    ensures ReceivedAll(pieces) == Inbox("", CallsFor(commands))
  {
    PrintedArrives(commands);
    PiecesAreText(pieces);
  }

  // ----- Responses ----------------------------------------------------------------------------

  // Every part of a response is followed by '&'.
  function Response(parts: seq<string>): string {
    if parts == [] then "" else Response(Init(parts)) + Last(parts) + "&"
  }

  lemma {:induction false} ResponseIsJoined(parts: seq<string>)
    ensures Response(parts) == Join(parts + [""])
  {
    if parts != [] {
      ResponseIsJoined(Init(parts));
      assert Init(parts + [""]) == parts && Init(parts) + [Last(parts)] == parts;
      if |parts| == 1 {
        assert Response(Init(parts)) == "";
      } else {
        assert Init(Init(parts) + [""]) == Init(parts);
      }
    }
  }

  // The reader splits the response and drops the empty field after the last '&'.
  lemma {:induction false} ResponseArrives(parts: seq<string>)
    requires forall i :: 0 <= i < |parts| ==> '&' !in parts[i]
    ensures Init(Split(Response(parts))) == parts
  {
    ResponseIsJoined(parts);
    SplitJoin(parts + [""]);
  }
}

// What a sender puts on the LED, and what a receiver can see of it: equal neighbours
// fuse into one run, a pulse of no duration leaves nothing behind, and a trailing
// space is never recorded because no mark comes to end it.
module Signal {
  import opened Bits
  import opened Sequences

  // Entries of the capture buffer.
  const RAWBUF := 101

  datatype Level = Mark | Space

  datatype Pulse = Pulse(level: Level, usec: nat)

  function Other(l: Level): Level {
    if l == Mark then Space else Mark
  }

  // The LED driver: every call leaves one pulse in the trace.
  class Emitter {
    var trace: seq<Pulse>

    constructor ()
      ensures trace == []
    {
      trace := [];
    }

    method SendMark(usec: nat)
      modifies this
      ensures trace == old(trace) + [Pulse(Mark, usec)]
    {
      trace := trace + [Pulse(Mark, usec)];
    }

    method SendSpace(usec: nat)
      modifies this
      ensures trace == old(trace) + [Pulse(Space, usec)]
    {
      trace := trace + [Pulse(Space, usec)];
    }
  }

  function Extend(runs: seq<Pulse>, p: Pulse): seq<Pulse> {
    if p.usec == 0 then runs
    else if runs != [] && Last(runs).level == p.level
      then Init(runs) + [Pulse(p.level, Last(runs).usec + p.usec)]
    else runs + [p]
  }

  function Merge(trace: seq<Pulse>): seq<Pulse> {
    if trace == [] then [] else Extend(Merge(Init(trace)), Last(trace))
  }

  function DropTrailingSpace(runs: seq<Pulse>): seq<Pulse> {
    if runs != [] && Last(runs).level == Space then Init(runs) else runs
  }

  ghost predicate Alternating(runs: seq<Pulse>) {
    && (forall i :: 0 <= i < |runs| ==> runs[i].usec > 0)
    && (forall i :: 0 < i < |runs| ==> runs[i].level != runs[i - 1].level)
  }

  // Every pulse lasts a whole number of time units.
  ghost predicate Whole(trace: seq<Pulse>, unit: nat)
    requires unit > 0
  {
    trace == [] || (Whole(Init(trace), unit) && Last(trace).usec % unit == 0)
  }

  lemma {:induction false} WholeSnoc(trace: seq<Pulse>, p: Pulse, unit: nat)
    requires unit > 0
    ensures Whole(trace + [p], unit) <==> Whole(trace, unit) && p.usec % unit == 0
  {
    assert Init(trace + [p]) == trace;
  }

  lemma {:induction false} WholeAt(trace: seq<Pulse>, i: nat, unit: nat)
    requires unit > 0 && Whole(trace, unit) && i < |trace|
    ensures trace[i].usec % unit == 0
  {
    if i < |trace| - 1 {
      WholeAt(Init(trace), i, unit);
    }
  }

  // The level in each time unit.
  ghost function Spread(trace: seq<Pulse>, unit: nat): seq<Level>
    requires unit > 0
  {
    if trace == [] then []
    else Spread(Init(trace), unit) + Hold(Last(trace).level, Last(trace).usec / unit)
  }

  lemma {:induction false} SpreadSnoc(trace: seq<Pulse>, p: Pulse, unit: nat)
    requires unit > 0
    ensures Spread(trace + [p], unit) == Spread(trace, unit) + Hold(p.level, p.usec / unit)
  {
    assert Init(trace + [p]) == trace;
  }

  lemma {:induction false} MergeSnoc(trace: seq<Pulse>, p: Pulse)
    ensures Merge(trace + [p]) == Extend(Merge(trace), p)
  {
    assert Init(trace + [p]) == trace;
  }

  lemma WholeSum(a: nat, b: nat, unit: nat)
    requires unit > 0 && a % unit == 0 && b % unit == 0
    ensures (a + b) % unit == 0 && (a + b) / unit == a / unit + b / unit
  {
    assert a == unit * (a / unit) && b == unit * (b / unit);
    assert a + b == unit * (a / unit + b / unit);
    DivModUnique(a + b, unit, a / unit + b / unit, 0);
  }

  lemma HoldSum(l: Level, a: nat, b: nat, unit: nat)
    requires unit > 0 && a % unit == 0 && b % unit == 0
    ensures Hold(l, (a + b) / unit) == Hold(l, a / unit) + Hold(l, b / unit)
  {
    WholeSum(a, b, unit);
  }

  lemma ExtendAlternates(runs: seq<Pulse>, p: Pulse)
    requires Alternating(runs)
    ensures Alternating(Extend(runs, p))
  {
  }

  lemma {:induction false} ExtendKeepsLevels(runs: seq<Pulse>, p: Pulse, unit: nat)
    requires unit > 0 && Whole(runs, unit) && p.usec % unit == 0
    ensures Whole(Extend(runs, p), unit)
    ensures Spread(Extend(runs, p), unit) == Spread(runs, unit) + Hold(p.level, p.usec / unit)
  {
    if p.usec == 0 {
      assert Hold(p.level, 0 / unit) == [];
    } else if runs != [] && Last(runs).level == p.level {
      var init, a := Init(runs), Last(runs).usec;
      WholeSum(a, p.usec, unit);
      WholeSnoc(init, Pulse(p.level, a + p.usec), unit);
      SpreadSnoc(init, Pulse(p.level, a + p.usec), unit);
      HoldSum(p.level, a, p.usec, unit);
      Associative(Spread(init, unit), Hold(p.level, a / unit), Hold(p.level, p.usec / unit));
    } else {
      WholeSnoc(runs, p, unit);
      SpreadSnoc(runs, p, unit);
    }
  }

  // Merging loses nothing but the boundaries.
  lemma {:induction false} MergeKeepsLevels(trace: seq<Pulse>, unit: nat)
    requires unit > 0 && Whole(trace, unit)
    ensures Whole(Merge(trace), unit) && Alternating(Merge(trace))
    ensures Spread(Merge(trace), unit) == Spread(trace, unit)
  {
    if trace != [] {
      MergeKeepsLevels(Init(trace), unit);
      ExtendAlternates(Merge(Init(trace)), Last(trace));
      ExtendKeepsLevels(Merge(Init(trace)), Last(trace), unit);
    }
  }

  lemma ExtendAfterHeader(header: seq<Pulse>, runs: seq<Pulse>, p: Pulse)
    requires runs != [] || (header != [] && Last(header).level != p.level)
    ensures Extend(header + runs, p) == header + Extend(runs, p)
  {
    if p.usec == 0 {
    } else if runs == [] {
      assert header + runs == header;
    } else {
      assert Last(header + runs) == Last(runs);
      assert Init(header + runs) == header + Init(runs);
      assert header + runs + [p] == header + (runs + [p]);
      var q := Pulse(p.level, Last(runs).usec + p.usec);
      assert header + Init(runs) + [q] == header + (Init(runs) + [q]);
    }
  }

  // A header that ends in a space stays as it is in front of a body that opens with a mark.
  lemma {:induction false} MergeAfterHeader(header: seq<Pulse>, body: seq<Pulse>)
    requires header != [] && Merge(header) == header && Last(header).level == Space
    requires body != [] && body[0].level == Mark && body[0].usec > 0
    ensures Merge(header + body) == header + Merge(body)
  {
    var init, p := Init(body), Last(body);
    assert header + body == (header + init) + [p];
    MergeSnoc(header + init, p);
    if |body| == 1 {
      assert header + init == header;
    } else {
      MergeAfterHeader(header, init);
      MergeOpensWith(init);
    }
    ExtendAfterHeader(header, Merge(init), p);
  }

  lemma {:induction false} MergeOpensWith(body: seq<Pulse>)
    requires body != [] && body[0].usec > 0
    ensures Merge(body) != [] && Merge(body)[0].level == body[0].level
  {
    if |body| == 1 {
      assert Merge(Init(body)) == [];
    } else {
      MergeOpensWith(Init(body));
    }
  }

  // ----- How long a trace lasts ---------------------------------------------------------------

  function Time(trace: seq<Pulse>): nat {
    if trace == [] then 0 else Time(Init(trace)) + Last(trace).usec
  }

  lemma {:induction false} TimeConcat(a: seq<Pulse>, b: seq<Pulse>)
    ensures Time(a + b) == Time(a) + Time(b)
  {
    if b == [] {
      assert a + b == a;
    } else {
      TimeConcat(a, Init(b));
      assert Init(a + b) == a + Init(b);
    }
  }
}

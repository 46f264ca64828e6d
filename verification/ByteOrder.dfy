// Reversing bytes and 16-bit words: what the NEC family does to addresses and commands that
// its senders shift out most significant bit first.
module ByteOrder {
  import opened Bits
  import opened PulseCodec

  lemma {:induction false} ReversedSmall(x: nat, n: nat)
    requires n <= 64 && x < Pow2(n)
    ensures ReversedLow(x, n) == Value(LsbBits(x, n)) < Pow2(n)
  {
    NoHighPart(x, n, LsbBits(x, n));
    ToBitsOfValue(LsbBits(x, n));
  }

  lemma {:induction false} ReversedIsBackwards(x: nat, n: nat)
    requires n <= 64 && x < Pow2(n)
    ensures ReversedLow(x, n) == Value(Reversed(ToBits(x, n)))
  {
    ReversedSmall(x, n);
    ReversedToBits(x, n);
  }

  // Reversing twice changes nothing.
  lemma {:induction false} ReversedBack(x: nat, n: nat)
    requires n <= 64 && x < Pow2(n)
    ensures ReversedLow(x, n) < Pow2(n) && ReversedLow(ReversedLow(x, n), n) == x
  {
    var y := ReversedLow(x, n);
    ReversedSmall(x, n);
    ToBitsOfValue(LsbBits(x, n));
    ReversedIsBackwards(y, n);
    ReversedToBits(x, n);
    ValueOfToBits(x, n);
    SmallMod(x, Pow2(n));
  }

  lemma {:induction false} BitOfDouble(y: nat, last: bool, k: nat)
    ensures Bit(2 * y + Digit(last), k) == if k == 0 then last else Bit(y, k - 1)
  {
    assert (2 * y + Digit(last)) / 2 == y && (2 * y + Digit(last)) % 2 == Digit(last);
  }

  lemma {:induction false} BitOfPieces(h: nat, low: seq<bool>, k: nat)
    ensures Bit(Shl(h, |low|) + Value(low), k) == if k < |low| then low[|low| - 1 - k] else Bit(h, k - |low|)
  {
    if low != [] {
      var init, last, n := low[..|low| - 1], low[|low| - 1], |low| - 1;
      assert Shl(h, |low|) + Value(low) == 2 * (Shl(h, n) + Value(init)) + Digit(last);
      BitOfDouble(Shl(h, n) + Value(init), last, k);
      if k > 0 {
        BitOfPieces(h, init, k - 1);
      }
    }
  }

  lemma {:induction false} BitOfShr(x: nat, n: nat, k: nat)
    ensures Bit(Shr(x, n), k) == Bit(x, n + k)
  {
    if n > 0 {
      BitOfShr(x / 2, n - 1, k);
    }
  }

  // Bit by bit, whatever lies above the bits that are reversed: it stays where it is.
  lemma {:induction false} ReversedAt(x: nat, n: nat, k: nat)
    requires n <= 64
    ensures Bit(ReversedLow(x, n), k) == Bit(x, if k < n then n - 1 - k else k)
  {
    BitOfPieces(Shr(x, n), LsbBits(x, n), k);
    if k >= n {
      BitOfShr(x, n, k - n);
    }
  }

  // ----- Two halves ---------------------------------------------------------------------------

  function Joined(hi: nat, unit: nat, lo: nat): nat {
    hi * unit + lo
  }

  lemma JoinedHalves(hi: nat, unit: nat, lo: nat)
    ensures Joined(hi, 2 * unit, lo) / 2 == Joined(hi, unit, lo / 2)
    ensures Joined(hi, 2 * unit, lo) % 2 == lo % 2
  {
    assert Joined(hi, 2 * unit, lo) == 2 * (hi * unit) + lo;
  }

  lemma JoinedSnoc(hi: nat, unit: nat, lo: nat, d: nat)
    ensures 2 * Joined(hi, unit, lo) + d == Joined(hi, 2 * unit, 2 * lo + d)
  {
    assert hi * (2 * unit) == 2 * (hi * unit);
  }

  lemma {:induction false} ToBitsJoined(hi: nat, lo: nat, n: nat, m: nat)
    requires lo < Pow2(m)
    ensures ToBits(Joined(hi, Pow2(m), lo), n + m) == ToBits(hi, n) + ToBits(lo, m)
  {
    if m == 0 {
      assert Joined(hi, 1, 0) == hi;
    } else {
      JoinedHalves(hi, Pow2(m - 1), lo);
      ToBitsJoined(hi, lo / 2, n, m - 1);
    }
  }

  lemma {:induction false} ValueJoined(a: seq<bool>, b: seq<bool>)
    ensures Value(a + b) == Joined(Value(a), Pow2(|b|), Value(b))
  {
    if b == [] {
      assert a + b == a;
      assert Joined(Value(a), 1, 0) == Value(a);
    } else {
      var init, last := b[..|b| - 1], b[|b| - 1];
      ValueJoined(a, init);
      assert b == init + [last] && a + b == a + init + [last];
      ValueSnoc(init, last);
      ValueSnoc(a + init, last);
      JoinedSnoc(Value(a), Pow2(|init|), Value(init), Digit(last));
    }
  }

  lemma {:induction false} ReversedConcat<T>(a: seq<T>, b: seq<T>)
    ensures Reversed(a + b) == Reversed(b) + Reversed(a)
  {
  }

  lemma {:induction false} ValueBackwards(a: seq<bool>, b: seq<bool>)
    ensures Value(Reversed(a + b)) == Joined(Value(Reversed(b)), Pow2(|a|), Value(Reversed(a)))
  {
    ReversedConcat(a, b);
    ValueJoined(Reversed(b), Reversed(a));
  }

  // The halves swap places and are reversed on their own.
  lemma ReversedJoined(hi: nat, lo: nat, n: nat, m: nat)
    requires n + m <= 64 && hi < Pow2(n) && lo < Pow2(m) && Joined(hi, Pow2(m), lo) < Pow2(n + m)
    ensures ReversedLow(Joined(hi, Pow2(m), lo), n + m)
            == Joined(ReversedLow(lo, m), Pow2(n), ReversedLow(hi, n))
  {
    ReversedIsBackwards(hi, n);
    ReversedIsBackwards(lo, m);
    ToBitsJoined(hi, lo, n, m);
    BackwardsJoined(Joined(hi, Pow2(m), lo), ToBits(hi, n), ToBits(lo, m), n, m);
  }

  lemma BackwardsJoined(x: nat, a: seq<bool>, b: seq<bool>, n: nat, m: nat)
    requires |a| == n && |b| == m && n + m <= 64 && x < Pow2(n + m) && ToBits(x, n + m) == a + b
    ensures ReversedLow(x, n + m) == Joined(Value(Reversed(b)), Pow2(n), Value(Reversed(a)))
  {
    ReversedIsBackwards(x, n + m);
    ValueBackwards(a, b);
  }

  // ----- Complements --------------------------------------------------------------------------

  lemma HalfOfComplement(x: nat, p: nat)
    requires x < 2 * p
    ensures (2 * p - 1 - x) / 2 == p - 1 - x / 2 && (2 * p - 1 - x) % 2 != x % 2
  {
  }

  lemma {:induction false} BitFlips(x: nat, n: nat, k: nat)
    requires x < Pow2(n) && k < n
    ensures Bit(Pow2(n) - 1 - x, k) == !Bit(x, k)
  {
    HalfOfComplement(x, Pow2(n - 1));
    if k > 0 {
      BitFlips(x / 2, n - 1, k - 1);
    }
  }

  lemma {:induction false} ValueFlips(a: seq<bool>, b: seq<bool>)
    requires |a| == |b| && forall i :: 0 <= i < |a| ==> a[i] == !b[i]
    ensures Value(a) == Pow2(|a|) - 1 - Value(b)
  {
    if a != [] {
      ValueFlips(a[..|a| - 1], b[..|b| - 1]);
    }
  }

  lemma {:induction false} ReversedFlips(x: nat, n: nat)
    requires n <= 64 && x < Pow2(n)
    ensures ReversedLow(Pow2(n) - 1 - x, n) == Pow2(n) - 1 - ReversedLow(x, n)
  {
    ReversedSmall(x, n);
    ReversedSmall(Pow2(n) - 1 - x, n);
    forall k | 0 <= k < n
      ensures LsbBits(Pow2(n) - 1 - x, n)[k] == !LsbBits(x, n)[k]
    {
      BitFlips(x, n, k);
    }
    ValueFlips(LsbBits(Pow2(n) - 1 - x, n), LsbBits(x, n));
  }
}

// Numbers as bit strings, most significant bit first. The senders walk a mask from
// the top bit down and the decoders shift bits in from the right, so this is the
// order in which every line code below sees its data.
module Bits {

  function Pow2(n: nat): (p: nat)
    ensures p >= 1
  {
    if n == 0 then 1 else 2 * Pow2(n - 1)
  }

  // Bit k of x, counted from the least significant one: `x & (1 << k)`.
  predicate Bit(x: nat, k: nat) {
    if k == 0 then x % 2 == 1 else Bit(x / 2, k - 1)
  }

  function ToBits(x: nat, n: nat): (s: seq<bool>)
    ensures |s| == n
  {
    if n == 0 then [] else ToBits(x / 2, n - 1) + [x % 2 == 1]
  }

  function Digit(b: bool): nat {
    if b then 1 else 0
  }

  function Value(s: seq<bool>): nat {
    if s == [] then 0 else 2 * Value(s[..|s| - 1]) + Digit(s[|s| - 1])
  }

  function Reversed<T>(s: seq<T>): (r: seq<T>)
    ensures |r| == |s|
    ensures forall i :: 0 <= i < |s| ==> r[i] == s[|s| - 1 - i]
  {
    if s == [] then [] else [s[|s| - 1]] + Reversed(s[..|s| - 1])
  }

  lemma {:induction false} ValueSnoc(s: seq<bool>, b: bool)
    ensures Value(s + [b]) == 2 * Value(s) + Digit(b)
  {
    assert (s + [b])[..|s|] == s;
  }

  lemma {:induction false} ToBitsAt(x: nat, n: nat, i: nat)
    requires i < n
    ensures ToBits(x, n)[i] == Bit(x, n - 1 - i)
  {
    if i < n - 1 {
      ToBitsAt(x / 2, n - 1, i);
    }
  }

  // Halving peels one bit off a remainder.
  lemma ModDouble(x: nat, p: nat)
    requires p >= 1
    ensures x % (2 * p) == 2 * ((x / 2) % p) + x % 2
  {
    var h := x / 2;
    var q, r := h / p, h % p;
    assert h == p * q + r;
    assert x == (2 * p) * q + (2 * r + x % 2);
    DivModUnique(x, 2 * p, q, 2 * r + x % 2);
  }

  lemma MulAtLeast(d: int, k: int)
    requires d >= 1
    ensures k >= 1 ==> d * k >= d
    ensures k <= -1 ==> d * k <= -d
  {
    if k >= 1 {
      assert d * k == d + d * (k - 1);
    } else if k <= -1 {
      assert d * k == -d - d * (-k - 1);
    }
  }

  lemma DivModUnique(x: int, d: int, q: int, r: int)
    requires 0 <= r < d && x == d * q + r
    ensures x / d == q && x % d == r
  {
    var k := q - x / d;
    assert x == d * (x / d) + x % d;
    assert d * k == d * q - d * (x / d);
    MulAtLeast(d, k);
  }

  lemma {:induction false} ValueOfToBits(x: nat, n: nat)
    ensures Value(ToBits(x, n)) == x % Pow2(n)
  {
    if n > 0 {
      ValueOfToBits(x / 2, n - 1);
      ValueSnoc(ToBits(x / 2, n - 1), x % 2 == 1);
      ModDouble(x, Pow2(n - 1));
    }
  }

  lemma {:induction false} ToBitsOfValue(s: seq<bool>)
    ensures Value(s) < Pow2(|s|)
    ensures ToBits(Value(s), |s|) == s
  {
    if s != [] {
      var init, b := s[..|s| - 1], s[|s| - 1];
      ToBitsOfValue(init);
      assert s == init + [b];
      assert Value(s) / 2 == Value(init);
    }
  }

  lemma SmallMod(x: nat, p: nat)
    requires x < p
    ensures x % p == x
  {
  }

  lemma {:induction false} Pow2Grows(n: nat, m: nat)
    requires n <= m
    ensures Pow2(n) <= Pow2(m)
  {
    if n < m {
      Pow2Grows(n, m - 1);
    }
  }

  lemma Pow2Twice(n: nat)
    ensures Pow2(n + 2) == 4 * Pow2(n)
  {
    assert Pow2(n + 2) == 2 * Pow2(n + 1);
  }

  lemma Pow2Byte(n: nat)
    ensures Pow2(n + 8) == 0x100 * Pow2(n)
  {
    Pow2Twice(n);
    Pow2Twice(n + 2);
    Pow2Twice(n + 4);
    Pow2Twice(n + 6);
  }

  lemma WordSizes()
    ensures Pow2(8) == 0x100 && Pow2(16) == 0x1_0000 && Pow2(32) == 0x1_0000_0000
    ensures Pow2(64) == 0x1_0000_0000_0000_0000
  {
    Pow2Byte(0);
    Pow2Byte(8);
    Pow2Byte(16);
    Pow2Byte(24);
    Pow2Byte(32);
    Pow2Byte(40);
    Pow2Byte(48);
    Pow2Byte(56);
  }
}

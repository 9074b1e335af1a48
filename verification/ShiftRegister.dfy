// Serial bit-at-a-time registers over any state: what holds of every register
// whose step is injective, linear, or clears its low end.
module ShiftRegister {

  function Fold<S, B>(f: (S, B) -> S, s: S, items: seq<B>): S
    decreases |items|
  {
    if |items| == 0 then s else Fold(f, f(s, items[0]), items[1..])
  }

  function Steps<S>(step: S -> S, s: S, n: nat): S
    decreases n
  {
    if n == 0 then s else Steps(step, step(s), n - 1)
  }

  // The low n bits of b, least significant first.
  function Bits(b: nat, n: nat): (bits: seq<bool>)
    ensures |bits| == n
  {
    if n == 0 then [] else [b % 2 == 1] + Bits(b / 2, n - 1)
  }

  // b < 2^n
  predicate Fits(b: nat, n: nat) {
    if n == 0 then b == 0 else Fits(b / 2, n - 1)
  }

  lemma OctetFits(b: nat)
    requires b < 256
    ensures Fits(b, 8)
  {
    var half := b / 2 / 2 / 2 / 2;
    assert half < 16 && half / 2 / 2 / 2 / 2 == 0;
    assert Fits(half / 2 / 2, 2);
    assert Fits(half, 4);
    assert Fits(b / 2 / 2, 6);
  }

  lemma {:induction false} BitsInjective(a: nat, b: nat, n: nat)
    requires Fits(a, n) && Fits(b, n)
    requires Bits(a, n) == Bits(b, n)
    ensures a == b
  {
    if n > 0 {
      assert Bits(a, n)[0] == Bits(b, n)[0];
      assert Bits(a, n)[1..] == Bits(a / 2, n - 1) && Bits(b, n)[1..] == Bits(b / 2, n - 1);
      BitsInjective(a / 2, b / 2, n - 1);
    }
  }

  lemma {:induction false} FoldConcat<S, B>(f: (S, B) -> S, s: S, a: seq<B>, b: seq<B>)
    ensures Fold(f, s, a + b) == Fold(f, Fold(f, s, a), b)
    decreases |a|
  {
    if |a| == 0 {
      assert a + b == b;
    } else {
      assert (a + b)[1..] == a[1..] + b;
      FoldConcat(f, f(s, a[0]), a[1..], b);
    }
  }

  // A register that differs before some input still differs after it.
  lemma {:induction false} FoldInjective<S(!new), B(!new)>(f: (S, B) -> S, x: S, y: S, items: seq<B>)
    requires forall u, v, b :: f(u, b) == f(v, b) ==> u == v
    requires Fold(f, x, items) == Fold(f, y, items)
    ensures x == y
    decreases |items|
  {
    if |items| != 0 {
      FoldInjective(f, f(x, items[0]), f(y, items[0]), items[1..]);
    }
  }

  function Differences<B, D>(differ: (B, B) -> D, a: seq<B>, b: seq<B>): (d: seq<D>)
    requires |a| == |b|
    ensures |d| == |a|
  {
    seq(|a|, i requires 0 <= i < |a| => differ(a[i], b[i]))
  }

  // The difference of two steps is a step of the differences.
  ghost predicate Linear<S(!new), B(!new), D>(f: (S, B) -> S, g: (S, D) -> S, xor: (S, S) -> S, differ: (B, B) -> D) {
    forall u, v, p, q {:trigger xor(f(u, p), f(v, q))} :: xor(f(u, p), f(v, q)) == g(xor(u, v), differ(p, q))
  }

  // In a linear register the difference of two runs is the run of the difference.
  lemma {:induction false} FoldDifference<S(!new), B(!new), D>(f: (S, B) -> S, g: (S, D) -> S, xor: (S, S) -> S,
                                                               differ: (B, B) -> D,
                                                               x: S, y: S, a: seq<B>, b: seq<B>)
    requires |a| == |b|
    requires Linear(f, g, xor, differ)
    ensures xor(Fold(f, x, a), Fold(f, y, b)) == Fold(g, xor(x, y), Differences(differ, a, b))
    decreases |a|
  {
    if |a| != 0 {
      var d := Differences(differ, a, b);
      assert d[1..] == Differences(differ, a[1..], b[1..]);
      assert xor(f(x, a[0]), f(y, b[0])) == g(xor(x, y), d[0]);
      FoldDifference(f, g, xor, differ, f(x, a[0]), f(y, b[0]), a[1..], b[1..]);
    }
  }

  // Damage that looks alike came to alike data.
  lemma DifferencesCancel<B(!new), D>(differ: (B, B) -> D, s: seq<B>, t: seq<B>, u: seq<B>)
    requires |s| == |t| == |u|
    requires forall x, y, z :: differ(x, y) == differ(x, z) ==> y == z
    requires Differences(differ, s, t) == Differences(differ, s, u)
    ensures t == u
  {
    forall i | 0 <= i < |s|
      ensures t[i] == u[i]
    {
      assert Differences(differ, s, t)[i] == Differences(differ, s, u)[i];
    }
  }

  // Let low(k, s) say that s is a k-bit number. If a step back from a k-bit
  // state gives a state one bit wider, then bits that drive a register to zero
  // find it no wider than they are many, and zero stays zero only on zeros.
  lemma {:induction false} DrivenToZero<S(!new)>(f: (S, bool) -> S, low: (nat, S) -> bool, zero: S,
                                                 limit: nat, s: S, bits: seq<bool>)
    requires |bits| <= limit
    requires low(0, zero)
    requires forall k: nat, u, b :: k < limit && low(k, f(u, b)) ==> low(k + 1, u)
    requires forall k: nat, b :: k < limit && low(k, f(zero, b)) ==> !b
    requires f(zero, false) == zero
    requires Fold(f, s, bits) == zero
    ensures low(|bits|, s)
    ensures s == zero ==> forall i :: 0 <= i < |bits| ==> !bits[i]
    decreases |bits|
  {
    if bits != [] {
      var rest := bits[1..];
      DrivenToZero(f, low, zero, limit, f(s, bits[0]), rest);
      assert low(|rest|, f(s, bits[0]));
      if s == zero {
        assert !bits[0];
        forall i | 0 <= i < |bits|
          ensures !bits[i]
        {
          if i > 0 {
            assert !rest[i - 1];
          }
        }
      }
    }
  }

  // When the steps consume a loaded number's lowest bit first, loading n bits
  // at once and stepping n times is feeding them one at a time.
  lemma {:induction false} FeedTogether<S(!new)>(f: (S, bool) -> S, step: S -> S, load: (S, nat) -> S,
                                                 s: S, b: nat, n: nat)
    requires Fits(b, n) && b < 256
    requires forall u :: load(u, 0) == u
    requires forall u, w: nat :: w < 256 ==> step(load(u, w)) == load(f(u, w % 2 == 1), w / 2)
    ensures Steps(step, load(s, b), n) == Fold(f, s, Bits(b, n))
    decreases n
  {
    if n > 0 {
      var first := b % 2 == 1;
      assert Bits(b, n)[1..] == Bits(b / 2, n - 1);
      FeedTogether(f, step, load, f(s, first), b / 2, n - 1);
    }
  }

  // The lowest n digits of a number, the lowest first.
  function Digits<S>(odd: S -> bool, half: S -> S, x: S, n: nat): (s: seq<bool>)
    ensures |s| == n
  {
    if n == 0 then [] else [odd(x)] + Digits(odd, half, half(x), n - 1)
  }

  // s with t taken from its front, digit by digit and without carry
  function Minus(s: seq<bool>, t: seq<bool>): (r: seq<bool>)
    requires |t| <= |s|
    ensures |r| == |s|
  {
    seq(|s|, i requires 0 <= i < |s| => if i < |t| then s[i] != t[i] else s[i])
  }

  lemma MinusFirst(p: bool, q: bool, s: seq<bool>, t: seq<bool>)
    requires |t| <= |s|
    ensures Minus([p] + s, [q] + t) == [p != q] + Minus(s, t)
  {
  }

  lemma {:induction false} DigitsOfXor<S(!new)>(odd: S -> bool, half: S -> S, xor: (S, S) -> S, x: S, y: S, n: nat)
    requires forall u, v :: half(xor(u, v)) == xor(half(u), half(v))
    requires forall u, v :: odd(xor(u, v)) == (odd(u) != odd(v))
    ensures Digits(odd, half, xor(x, y), n) == Minus(Digits(odd, half, x, n), Digits(odd, half, y, n))
    decreases n
  {
    if n > 0 {
      DigitsOfXor(odd, half, xor, half(x), half(y), n - 1);
      MinusFirst(odd(x), odd(y), Digits(odd, half, half(x), n - 1), Digits(odd, half, half(y), n - 1));
    }
  }
}

// The CRC-32 by its definition, section 3.2.9 of IEEE 802.3: the complement of the
// remainder that dividing the message's polynomial by the generator leaves, the
// message's first 32 bits being complemented before. Coefficients are written
// highest first, and a message's bits are taken octet by octet, lowest first.
module CrcDivision {
  import opened Bytes
  import opened ShiftRegister
  import opened Crc32
  import opened CrcBoundary

  const WIDTH: nat := 32

  // The generator's exponents below 32
  const EXPONENTS: set<nat> := {26, 23, 22, 16, 12, 11, 10, 8, 7, 5, 4, 2, 1, 0}

  function Generator(): (g: seq<bool>)
    ensures |g| == WIDTH
  {
    seq(WIDTH, i requires 0 <= i < WIDTH => WIDTH - 1 - i in EXPONENTS)
  }

  // Long division: where the highest coefficient is one, the generator is taken
  // away beneath it.
  function Remainder(dividend: seq<bool>): (r: seq<bool>)
    ensures |dividend| >= WIDTH ==> |r| == WIDTH
    decreases |dividend|
  {
    if |dividend| <= WIDTH then dividend
    else if dividend[0] then Remainder(Minus(dividend[1..], Generator()))
    else Remainder(dividend[1..])
  }

  function Repeat(b: bool, n: nat): (s: seq<bool>)
    ensures |s| == n
  {
    seq(n, i => b)
  }

  // The message's polynomial times x^32, its first 32 coefficients complemented
  function Dividend(data: seq<byte>): (s: seq<bool>)
    ensures |s| == 8 * |data| + WIDTH
  {
    Minus(MessageBits(data) + Repeat(false, WIDTH), Repeat(true, WIDTH))
  }

  function Complement(s: seq<bool>): (t: seq<bool>)
    ensures |t| == |s|
  {
    seq(|s|, i requires 0 <= i < |s| => !s[i])
  }

  // ----- the register's bits as coefficients -----

  function Coefficients(x: bv32, n: nat): (s: seq<bool>)
    ensures |s| == n
  {
    Digits(Odd, Half, x, n)
  }

  lemma HalfOfXor(x: bv32, y: bv32)
    ensures Half(Xor(x, y)) == Xor(Half(x), Half(y))
  {
  }

  lemma LowBitOfXor(x: bv32, y: bv32)
    ensures Odd(Xor(x, y)) == (Odd(x) != Odd(y))
  {
  }

  lemma CoefficientsOfXor(x: bv32, y: bv32)
    ensures Coefficients(Xor(x, y), WIDTH) == Minus(Coefficients(x, WIDTH), Coefficients(y, WIDTH))
  {
    forall u, v
      ensures Half(Xor(u, v)) == Xor(Half(u), Half(v))
    {
      HalfOfXor(u, v);
    }
    forall u, v
      ensures Odd(Xor(u, v)) == (Odd(u) != Odd(v))
    {
      LowBitOfXor(u, v);
    }
    DigitsOfXor(Odd, Half, Xor, x, y, WIDTH);
  }

  lemma HalfWithin(x: bv32, m: bv32)
    requires Within(x, Grow(m))
    ensures Within(Half(x), m)
  {
  }

  lemma NoneWithin(x: bv32)
    requires Within(x, 0)
    ensures !Odd(x)
  {
  }

  // A k-bit number has no further coefficients.
  lemma {:induction false} ZeroBehind(x: bv32, k: nat)
    requires Within(x, LowMask(k))
    ensures Coefficients(x, k + 1) == Coefficients(x, k) + [false]
  {
    if k == 0 {
      NoneWithin(x);
      assert Coefficients(Half(x), 0) == [];
    } else {
      HalfWithin(x, LowMask(k - 1));
      ZeroBehind(Half(x), k - 1);
    }
  }

  lemma AllWithinMask(x: bv32)
    ensures Within(x, LowMask(WIDTH))
  {
    FullMask(WIDTH);
    WithinOnes(x);
  }

  lemma WithinOnes(x: bv32)
    ensures Within(x, ONES)
  {
  }

  // A shift moves the coefficients one power up.
  lemma CoefficientsOfHalf(x: bv32)
    ensures Coefficients(Half(x), WIDTH) == Coefficients(x, WIDTH)[1..] + [false]
  {
    AllWithinMask(x);
    ZeroBehind(x, WIDTH);
    assert Coefficients(x, WIDTH + 1)[1..] == Coefficients(Half(x), WIDTH);
  }

  // The lowest four bits, and the others
  predicate Nibble(x: bv32, a: bool, b: bool, c: bool, d: bool, h: bv32) {
    Odd(x) == a && Odd(x >> 1) == b && Odd(x >> 2) == c && Odd(x >> 3) == d && x >> 4 == h
  }

  lemma FourHalves(x: bv32)
    ensures Half(x) == x >> 1 && Half(Half(x)) == x >> 2 && Half(Half(Half(x))) == x >> 3
    ensures Half(Half(Half(Half(x)))) == x >> 4
  {
  }

  lemma NibbleInFront(x: bv32, h: bv32, n: nat, g: seq<bool>, rest: seq<bool>)
    requires 4 <= n == |g| && rest == g[4..] && Nibble(x, g[0], g[1], g[2], g[3], h)
    requires Coefficients(h, n - 4) == rest
    ensures Coefficients(x, n) == g
  {
    FourHalves(x);
    var a := Half(x);
    var b := Half(a);
    var c := Half(b);
    assert Coefficients(c, n - 3) == [Odd(c)] + Coefficients(h, n - 4);
    assert Coefficients(b, n - 2) == [Odd(b)] + Coefficients(c, n - 3);
    assert Coefficients(a, n - 1) == [Odd(a)] + Coefficients(b, n - 2);
  }

  lemma LowGeneratorBits(g: seq<bool>)
    requires g == Generator()
    ensures !g[0] && !g[1] && !g[2] && !g[3] && !g[4] && g[5] && !g[6] && !g[7]
    ensures g[8] && g[9] && !g[10] && !g[11] && !g[12] && !g[13] && !g[14] && g[15]
  {
  }

  lemma HighGeneratorBits(g: seq<bool>)
    requires g == Generator()[16..]
    ensures !g[0] && !g[1] && !g[2] && g[3] && g[4] && g[5] && !g[6] && g[7]
    ensures g[8] && !g[9] && g[10] && g[11] && !g[12] && g[13] && g[14] && g[15]
  {
  }

  lemma LowNibbles(g: seq<bool>)
    requires g == Generator()
    ensures Nibble(0xEDB88320, g[0], g[1], g[2], g[3], 0xEDB8832)
    ensures Nibble(0xEDB8832, g[4], g[5], g[6], g[7], 0xEDB883)
    ensures Nibble(0xEDB883, g[8], g[9], g[10], g[11], 0xEDB88)
    ensures Nibble(0xEDB88, g[12], g[13], g[14], g[15], 0xEDB8)
  {
    LowGeneratorBits(g);
  }

  lemma HighNibbles(g: seq<bool>)
    requires g == Generator()[16..]
    ensures Nibble(0xEDB8, g[0], g[1], g[2], g[3], 0xEDB)
    ensures Nibble(0xEDB, g[4], g[5], g[6], g[7], 0xED)
    ensures Nibble(0xED, g[8], g[9], g[10], g[11], 0xE)
    ensures Nibble(0xE, g[12], g[13], g[14], g[15], 0x0)
  {
    HighGeneratorBits(g);
  }

  lemma FourNibbles(p: bv32, p1: bv32, p2: bv32, p3: bv32, p4: bv32, n: nat, g: seq<bool>, rest: seq<bool>)
    requires 16 <= n == |g| && rest == g[16..] && Coefficients(p4, n - 16) == rest
    requires Nibble(p, g[0], g[1], g[2], g[3], p1) && Nibble(p1, g[4], g[5], g[6], g[7], p2)
    requires Nibble(p2, g[8], g[9], g[10], g[11], p3) && Nibble(p3, g[12], g[13], g[14], g[15], p4)
    ensures Coefficients(p, n) == g
  {
    NibbleInFront(p3, p4, n - 12, g[12..], rest);
    NibbleInFront(p2, p3, n - 8, g[8..], g[12..]);
    NibbleInFront(p1, p2, n - 4, g[4..], g[8..]);
    NibbleInFront(p, p1, n, g, g[4..]);
  }

  lemma PolyIsGenerator(p: bv32, n: nat, g: seq<bool>)
    requires p == POLY && n == WIDTH && g == Generator()
    ensures Coefficients(p, n) == g
  {
    var high, none := g[16..], g[32..];
    HighNibbles(high);
    FourNibbles(0xEDB8, 0xEDB, 0xED, 0xE, 0, n - 16, high, none);
    LowNibbles(g);
    FourNibbles(0xEDB8_8320, 0xEDB_8832, 0xED_B883, 0xE_DB88, 0xEDB8, n, g, high);
  }

  lemma HalfOfGrown(m: bv32)
    requires TopClear(m)
    ensures Half(Grow(m)) == m && Odd(Grow(m))
  {
  }

  lemma {:induction false} MaskCoefficients(k: nat)
    requires k <= WIDTH
    ensures Coefficients(LowMask(k), k) == Repeat(true, k)
  {
    if k > 0 {
      TopBitClear(k - 1);
      HalfOfGrown(LowMask(k - 1));
      MaskCoefficients(k - 1);
    }
  }

  lemma FullMask(k: nat)
    requires k == WIDTH
    ensures LowMask(k) == ONES
  {
    LowMask31();
    assert LowMask(k) == Grow(LowMask(31));
  }

  lemma OnesCoefficients()
    ensures Coefficients(ONES, WIDTH) == Repeat(true, WIDTH)
  {
    FullMask(WIDTH);
    MaskCoefficients(WIDTH);
  }

  // ----- the register divides -----

  lemma {:induction false} MinusAssociates(s: seq<bool>, t: seq<bool>, u: seq<bool>)
    requires |u| == |t| <= |s|
    ensures Minus(Minus(s, t), u) == Minus(s, Minus(t, u))
  {
  }

  lemma Shifted(s: seq<bool>, t: seq<bool>)
    requires 0 < |t| < |s|
    ensures Minus(s, t)[1..] == Minus(s[1..], t[1..] + [false])
  {
  }

  // One step of the register is one step of the division.
  lemma StepDivides(reg: bv32, bit: bool, rest: seq<bool>)
    requires |rest| >= WIDTH
    ensures Remainder(Minus([bit] + rest, Coefficients(reg, WIDTH)))
            == Remainder(Minus(rest, Coefficients(Feed(reg, bit), WIDTH)))
  {
    var c := Coefficients(reg, WIDTH);
    var s := Minus([bit] + rest, c);
    assert c[0] == Odd(reg) && s[0] == (bit != Odd(reg));
    Shifted([bit] + rest, c);
    CoefficientsOfHalf(reg);
    assert s[1..] == Minus(rest, Coefficients(Half(reg), WIDTH));
    FeedIsHalf(reg, bit);
    if s[0] {
      PolyIsGenerator(POLY, WIDTH, Generator());
      CoefficientsOfXor(Half(reg), POLY);
      MinusAssociates(rest, Coefficients(Half(reg), WIDTH), Generator());
    }
  }

  lemma FeedIsHalf(reg: bv32, bit: bool)
    ensures Feed(reg, bit) == if bit != Odd(reg) then Xor(Half(reg), POLY) else Half(reg)
  {
    EvenOrOdd(reg);
    if bit {
      HalfIgnoresLowBit(reg);
      LowBitFlips(reg);
      StepIsHalf(Xor(reg, 1));
    } else {
      StepIsHalf(reg);
    }
  }

  lemma LowBitFlips(reg: bv32)
    ensures Odd(Xor(reg, 1)) == !Odd(reg)
  {
  }

  lemma StepIsHalf(reg: bv32)
    ensures BitStep(reg) == if Odd(reg) then Xor(Half(reg), POLY) else Half(reg)
  {
  }

  lemma {:induction false} FoldDivides(reg: bv32, bits: seq<bool>)
    ensures Coefficients(Fold(Feed, reg, bits), WIDTH)
            == Remainder(Minus(bits + Repeat(false, WIDTH), Coefficients(reg, WIDTH)))
    decreases |bits|
  {
    var zeros := Repeat(false, WIDTH);
    if |bits| == 0 {
      assert bits + zeros == zeros;
      assert Minus(zeros, Coefficients(reg, WIDTH)) == Coefficients(reg, WIDTH);
    } else {
      assert bits + zeros == [bits[0]] + (bits[1..] + zeros);
      StepDivides(reg, bits[0], bits[1..] + zeros);
      FoldDivides(Feed(reg, bits[0]), bits[1..]);
    }
  }

  lemma RegisterDivides(data: seq<byte>)
    ensures Coefficients(Register(data), WIDTH) == Remainder(Dividend(data))
  {
    OnesCoefficients();
    FoldDivides(ONES, MessageBits(data));
  }

  // ----- the number -----

  lemma MinusOnes(s: seq<bool>)
    ensures Minus(s, Repeat(true, |s|)) == Complement(s)
  {
  }

  lemma ComplementIsXor(x: bv32)
    ensures Coefficients(Xor(x, ONES), WIDTH) == Complement(Coefficients(x, WIDTH))
  {
    CoefficientsOfXor(x, ONES);
    OnesCoefficients();
    MinusOnes(Coefficients(x, WIDTH));
  }

  // 2^n times k
  function Raised(n: nat, k: nat): nat {
    if n == 0 then k else 2 * Raised(n - 1, k)
  }

  lemma {:induction false} BitsOfSum(low: nat, high: nat, n: nat, m: nat)
    requires Fits(low, n)
    ensures Bits(low + Raised(n, high), n + m) == Bits(low, n) + Bits(high, m)
    decreases n
  {
    if n > 0 {
      HalfOfSum(low, Raised(n - 1, high));
      BitsOfSum(low / 2, high, n - 1, m);
    }
  }

  lemma HalfOfSum(low: nat, more: nat)
    ensures (low + 2 * more) / 2 == low / 2 + more && (low + 2 * more) % 2 == low % 2
  {
  }

  lemma RaisedByEight(n: nat, k: nat)
    requires n == 8
    ensures Raised(n, k) == 256 * k
  {
    assert Raised(n - 7, k) == 2 * k;
    assert Raised(n - 6, k) == 4 * k;
    assert Raised(n - 5, k) == 8 * k;
    assert Raised(n - 4, k) == 16 * k;
    assert Raised(n - 3, k) == 32 * k;
    assert Raised(n - 2, k) == 64 * k;
    assert Raised(n - 1, k) == 128 * k;
  }

  lemma OctetInFront(low: byte, high: nat, n: nat, m: nat)
    requires n == 8
    ensures Bits((low as nat) + 256 * high, n + m) == Bits(low, n) + Bits(high, m)
  {
    RaisedByEight(n, high);
    OctetFits(low);
    BitsOfSum(low, high, n, m);
  }

  // The bits of a number of four octets, n being 8
  lemma BitsOfNumber(s: seq<byte>, n: nat)
    requires |s| == 4 && n == 8
    ensures Bits(ReadU32(s), n + (n + (n + n))) == Bits(s[3], n) + (Bits(s[2], n) + (Bits(s[1], n) + Bits(s[0], n)))
  {
    var ab := (s[1] as nat) + 256 * (s[0] as nat);
    var abc := (s[2] as nat) + 256 * ab;
    assert ReadU32(s) == (s[3] as nat) + 256 * abc;
    BitsOfHorner(s[0], s[1], s[2], s[3], ab, abc, n);
  }

  lemma BitsOfHorner(a: byte, b: byte, c: byte, d: byte, ab: nat, abc: nat, n: nat)
    requires n == 8 && ab == (b as nat) + 256 * (a as nat) && abc == (c as nat) + 256 * ab
    ensures Bits((d as nat) + 256 * abc, n + (n + (n + n))) == Bits(d, n) + (Bits(c, n) + (Bits(b, n) + Bits(a, n)))
  {
    OctetInFront(b, a, n, n);
    OctetInFront(c, ab, n, n + n);
    OctetInFront(d, abc, n, n + (n + n));
  }

  predicate OddOctet(x: bv8) {
    x & 1 != 0
  }

  function HalfOctet(x: bv8): bv8 {
    x >> 1
  }

  lemma HalvedOctet(x: bv8)
    ensures AsByte(x) / 2 == AsByte(HalfOctet(x)) && (AsByte(x) % 2 == 1) == OddOctet(x)
  {
    HalfAndLowBit(x);
  }

  lemma {:induction false} BitsOfOctet(x: bv8, n: nat)
    ensures Bits(AsByte(x), n) == Digits(OddOctet, HalfOctet, x, n)
    decreases n
  {
    if n > 0 {
      HalvedOctet(x);
      BitsOfOctet(HalfOctet(x), n - 1);
    }
  }

  // The same in the bits of m
  predicate Alike(x: bv8, y: bv32, m: bv32) {
    (x as bv32) & m == y & m
  }

  lemma AlikeStep(x: bv8, y: bv32, m: bv32)
    requires Alike(x, y, Grow(m)) && TopClear(m)
    ensures OddOctet(x) == Odd(y) && Alike(HalfOctet(x), Half(y), m)
  {
  }

  lemma {:induction false} AlikeDigits(x: bv8, y: bv32, k: nat)
    requires k <= 8 && Alike(x, y, LowMask(k))
    ensures Digits(OddOctet, HalfOctet, x, k) == Coefficients(y, k)
    decreases k
  {
    if k > 0 {
      TopBitClear(k - 1);
      AlikeStep(x, y, LowMask(k - 1));
      AlikeDigits(HalfOctet(x), Half(y), k - 1);
    }
  }

  lemma OctetMask(k: nat)
    requires k == 8
    ensures LowMask(k) == 0xFF
  {
    assert LowMask(k - 7) == 1;
    assert LowMask(k - 6) == 3;
    assert LowMask(k - 5) == 7;
    assert LowMask(k - 4) == 0xF;
    assert LowMask(k - 3) == 0x1F;
    assert LowMask(k - 2) == 0x3F;
    assert LowMask(k - 1) == 0x7F;
  }

  lemma LowOctetAlike(x: bv32)
    ensures Alike(LowOctet(x), x, 0xFF)
  {
  }

  lemma BitsOfLowOctet(x: bv32, n: nat)
    requires n == 8
    ensures Bits(Octet(x), n) == Coefficients(x, n)
  {
    OctetMask(n);
    LowOctetAlike(x);
    AlikeDigits(LowOctet(x), x, n);
    BitsOfOctet(LowOctet(x), n);
  }

  lemma {:induction false} DigitsSplit(x: bv32, y: bv32, n: nat, m: nat)
    requires y == Halved(x, n)
    ensures Coefficients(x, n + m) == Coefficients(x, n) + Coefficients(y, m)
    decreases n
  {
    if n > 0 {
      DigitsSplit(Half(x), y, n - 1, m);
    }
  }

  function Halved(x: bv32, n: nat): bv32 {
    if n == 0 then x else Halved(Half(x), n - 1)
  }

  predicate Eighth(x: bv32, y: bv32) {
    y == x >> 8
  }

  lemma EightHalves(x: bv32, y: bv32)
    requires Eighth(x, y)
    ensures y == Half(Half(Half(Half(Half(Half(Half(Half(x))))))))
  {
  }

  lemma HalvedEight(x: bv32, y: bv32, n: nat)
    requires n == 8 && Eighth(x, y)
    ensures y == Halved(x, n)
  {
    EightHalves(x, y);
    HalvedFour(x, n);
    HalvedFour(Half(Half(Half(Half(x)))), n - 4);
  }

  lemma HalvedFour(x: bv32, n: nat)
    requires n >= 4
    ensures Halved(x, n) == Halved(Half(Half(Half(Half(x)))), n - 4)
  {
    assert Halved(Half(x), n - 1) == Halved(Half(Half(x)), n - 2);
    assert Halved(Half(Half(x)), n - 2) == Halved(Half(Half(Half(x))), n - 3);
  }

  lemma FourSplit(x: bv32, y: bv32, z: bv32, w: bv32, n: nat)
    requires y == Halved(x, n) && z == Halved(y, n) && w == Halved(z, n)
    ensures Coefficients(x, n + (n + (n + n))) ==
            Coefficients(x, n) + (Coefficients(y, n) + (Coefficients(z, n) + Coefficients(w, n)))
  {
    DigitsSplit(z, w, n, n);
    DigitsSplit(y, z, n, n + n);
    DigitsSplit(x, y, n, n + (n + n));
  }

  predicate Shifts(x: bv32, y: bv32, z: bv32, w: bv32) {
    y == x >> 8 && z == x >> 16 && w == x >> 24
  }

  lemma SecondShift(x: bv32, y: bv32, z: bv32, w: bv32)
    requires Shifts(x, y, z, w)
    ensures Eighth(y, z)
  {
  }

  lemma ThirdShift(x: bv32, y: bv32, z: bv32, w: bv32)
    requires Shifts(x, y, z, w)
    ensures Eighth(z, w)
  {
  }

  lemma ShiftsHalve(x: bv32, y: bv32, z: bv32, w: bv32, n: nat)
    requires Shifts(x, y, z, w) && n == 8
    ensures y == Halved(x, n) && z == Halved(y, n) && w == Halved(z, n)
  {
    SecondShift(x, y, z, w);
    ThirdShift(x, y, z, w);
    HalvedEight(x, y, n);
    HalvedEight(y, z, n);
    HalvedEight(z, w, n);
  }

  lemma OctetsInShifts(x: bv32) returns (y: bv32, z: bv32, w: bv32)
    ensures Shifts(x, y, z, w) && Octets(x) == [Octet(w), Octet(z), Octet(y), Octet(x)]
  {
    y, z, w := x >> 8, x >> 16, x >> 24;
  }

  lemma BitsOfOctets(x: bv32, n: nat)
    requires n == 8
    ensures Bits(ReadU32(Octets(x)), n + (n + (n + n))) == Coefficients(x, n + (n + (n + n)))
  {
    var y, z, w := OctetsInShifts(x);
    BitsOfNumber(Octets(x), n);
    ShiftsHalve(x, y, z, w, n);
    FourSplit(x, y, z, w, n);
    BitsOfLowOctet(x, n);
    BitsOfLowOctet(y, n);
    BitsOfLowOctet(z, n);
    BitsOfLowOctet(w, n);
  }

  // The CRC, lowest bit first, is the complement of the remainder, highest power
  // first.
  lemma CrcIsRemainder(data: seq<byte>)
    ensures Bits(Crc(data), WIDTH) == Complement(Remainder(Dividend(data)))
  {
    var reg := Register(data);
    BitsOfOctets(Xor(reg, ONES), 8);
    ComplementIsXor(reg);
    RegisterDivides(data);
  }
}

// shared/ccsds/src/crc32.c: the reflected CRC-32 of section 3.2.9 of IEEE 802.3.
//
// The reference is the bit-serial shift register fed with the message's bits,
// least significant bit of each octet first.  The method below is the source's
// octet-at-a-time loop; it is proved to compute the same value, and every error
// burst of at most 32 bits is proved to change that value.
module Crc32 {
  import opened Bytes
  import opened ShiftRegister

  const POLY: bv32 := 0xEDB88320
  const ONES: bv32 := 0xFFFF_FFFF

  // ----- the shift register -----

  function BitStep(reg: bv32): bv32 {
    if reg & 1 == 0 then reg >> 1 else (reg >> 1) ^ POLY
  }

  function Xor(x: bv32, y: bv32): bv32 {
    x ^ y
  }

  function Feed(reg: bv32, bit: bool): bv32 {
    BitStep(if bit then Xor(reg, 1) else reg)
  }

  function Differ(p: bool, q: bool): bool {
    p != q
  }

  function Load(reg: bv32, w: nat): bv32 {
    if w < 256 then Xor(reg, (w as bv8) as bv32) else reg
  }

  // ----- a message as a sequence of bits -----

  function MessageBit(data: seq<byte>, k: nat): bool
    requires k < 8 * |data|
  {
    Bits(data[k / 8], 8)[k % 8]
  }

  function MessageBits(data: seq<byte>): (bits: seq<bool>)
    ensures |bits| == 8 * |data|
  {
    seq(8 * |data|, k requires 0 <= k < 8 * |data| => MessageBit(data, k))
  }

  // The register's value after the message.
  function Register(data: seq<byte>): bv32 {
    Fold(Feed, ONES, MessageBits(data))
  }

  function Octet(x: bv32): byte {
    ((x & 0xFF) as bv8) as int
  }

  // The octets write_u32_be stores, the most significant first.
  function Octets(x: bv32): (s: seq<byte>)
    ensures |s| == 4
  {
    [Octet(x >> 24), Octet(x >> 16), Octet(x >> 8), Octet(x)]
  }

  // The register's complement as a number.
  function Value(reg: bv32): (crc: nat)
    ensures crc < U32
  {
    ReadU32(Octets(reg ^ ONES))
  }

  function Crc(data: seq<byte>): (crc: nat)
    ensures crc < U32
  {
    Value(Register(data))
  }

  predicate SameOctet(x: bv32, y: bv32) {
    x & 0xFF == y & 0xFF
  }

  lemma OctetInjective(x: bv32, y: bv32)
    requires Octet(x) == Octet(y)
    ensures SameOctet(x, y)
  {
    assert (Octet(x) as bv8) == (x & 0xFF) as bv8;
    assert (Octet(y) as bv8) == (y & 0xFF) as bv8;
  }

  lemma FromOctets(x: bv32, y: bv32)
    requires SameOctet(x, y) && SameOctet(x >> 8, y >> 8)
    requires SameOctet(x >> 16, y >> 16) && SameOctet(x >> 24, y >> 24)
    ensures x == y
  {
  }

  lemma OctetsInjective(x: bv32, y: bv32)
    requires Octets(x) == Octets(y)
    ensures x == y
  {
    var s, t := Octets(x), Octets(y);
    assert s[0] == t[0] && s[1] == t[1] && s[2] == t[2] && s[3] == t[3];
    OctetInjective(x, y);
    OctetInjective(x >> 8, y >> 8);
    OctetInjective(x >> 16, y >> 16);
    OctetInjective(x >> 24, y >> 24);
    FromOctets(x, y);
  }

  lemma OnesInjective(x: bv32, y: bv32)
    requires x ^ ONES == y ^ ONES
    ensures x == y
  {
  }

  lemma ValueInjective(x: bv32, y: bv32)
    requires Value(x) == Value(y)
    ensures x == y
  {
    U32ReadInjective(Octets(x ^ ONES), Octets(y ^ ONES));
    OctetsInjective(x ^ ONES, y ^ ONES);
    OnesInjective(x, y);
  }

  // ----- facts about one step -----

  lemma Reassociate(u: bv32, v: bv32)
    ensures (u ^ 1) ^ v == (u ^ v) ^ 1
  {
  }

  lemma ReassociateRight(u: bv32, v: bv32)
    ensures u ^ (v ^ 1) == (u ^ v) ^ 1
  {
  }

  lemma CancelFlags(u: bv32, v: bv32)
    ensures (u ^ 1) ^ (v ^ 1) == u ^ v
  {
  }

  lemma XorFlagLeft(u: bv32, v: bv32)
    ensures Xor(Xor(u, 1), v) == Xor(Xor(u, v), 1)
  {
    Reassociate(u, v);
  }

  lemma XorFlagRight(u: bv32, v: bv32)
    ensures Xor(u, Xor(v, 1)) == Xor(Xor(u, v), 1)
  {
    ReassociateRight(u, v);
  }

  lemma XorFlagBoth(u: bv32, v: bv32)
    ensures Xor(Xor(u, 1), Xor(v, 1)) == Xor(u, v)
  {
    CancelFlags(u, v);
  }

  lemma XorCommutes(a: bv32, b: bv32)
    ensures a ^ b == b ^ a
  {
  }

  lemma LinearEvenEven(a: bv32, b: bv32)
    requires a & 1 == 0 && b & 1 == 0
    ensures BitStep(a ^ b) == BitStep(a) ^ BitStep(b)
  {
  }

  lemma LinearOddEven(a: bv32, b: bv32)
    requires a & 1 != 0 && b & 1 == 0
    ensures BitStep(a ^ b) == BitStep(a) ^ BitStep(b)
  {
  }

  lemma LinearOddOdd(a: bv32, b: bv32)
    requires a & 1 != 0 && b & 1 != 0
    ensures BitStep(a ^ b) == BitStep(a) ^ BitStep(b)
  {
  }

  lemma BitStepLinear(a: bv32, b: bv32)
    ensures BitStep(Xor(a, b)) == Xor(BitStep(a), BitStep(b))
  {
    if a & 1 == 0 && b & 1 == 0 {
      LinearEvenEven(a, b);
    } else if b & 1 == 0 {
      LinearOddEven(a, b);
    } else if a & 1 == 0 {
      LinearOddEven(b, a);
      XorCommutes(a, b);
      XorCommutes(BitStep(a), BitStep(b));
    } else {
      LinearOddOdd(a, b);
    }
  }

  lemma FeedLinear(u: bv32, v: bv32, p: bool, q: bool)
    ensures Xor(Feed(u, p), Feed(v, q)) == Feed(Xor(u, v), p != q)
  {
    XorFlagLeft(u, v);
    XorFlagRight(u, v);
    XorFlagBoth(u, v);
    BitStepLinear(if p then Xor(u, 1) else u, if q then Xor(v, 1) else v);
  }

  // The polynomial's top bit makes the step reversible.
  lemma BitStepInjective(x: bv32, y: bv32)
    requires BitStep(x) == BitStep(y)
    ensures x == y
  {
  }

  lemma FeedInjective(u: bv32, v: bv32, b: bool)
    requires Feed(u, b) == Feed(v, b)
    ensures u == v
  {
    if b {
      FeedOneInjective(u, v);
    } else {
      BitStepInjective(u, v);
    }
  }

  lemma FeedOneInjective(u: bv32, v: bv32)
    requires Feed(u, true) == Feed(v, true)
    ensures u == v
  {
    BitStepInjective(Xor(u, 1), Xor(v, 1));
    XorOneInjective(u, v);
  }

  lemma XorOneInjective(u: bv32, v: bv32)
    requires Xor(u, 1) == Xor(v, 1)
    ensures u == v
  {
  }

  lemma OctetLowBit(w: nat)
    requires w < 256
    ensures if w % 2 == 1 then Odd((w as bv8) as bv32) else Even((w as bv8) as bv32)
  {
  }

  lemma OctetHalf(w: nat)
    requires w < 256
    ensures (w as bv8) >> 1 == ((w / 2) as bv8)
  {
  }

  lemma ShiftWide(x: bv8)
    ensures Half(x as bv32) == (x >> 1) as bv32
  {
  }

  function Half(x: bv32): bv32 {
    x >> 1
  }

  predicate Odd(x: bv32) {
    x & 1 == 1
  }

  predicate Even(x: bv32) {
    x & 1 == 0
  }

  lemma EvenOrOdd(x: bv32)
    ensures Even(x) || Odd(x)
  {
  }

  lemma EvenStep(x: bv32)
    requires Even(x)
    ensures BitStep(x) == Half(x)
  {
  }

  lemma StepEven(u: bv32, x: bv32)
    requires Even(x)
    ensures BitStep(Xor(u, x)) == Xor(BitStep(u), Half(x))
  {
    BitStepLinear(u, x);
    EvenStep(x);
  }

  lemma ClearLowBit(x: bv32)
    requires Odd(x)
    ensures Even(Xor(x, 1))
  {
  }

  lemma HalfIgnoresLowBit(x: bv32)
    ensures Half(Xor(x, 1)) == Half(x)
  {
  }

  lemma StepOdd(u: bv32, x: bv32)
    requires Odd(x)
    ensures BitStep(Xor(u, x)) == Xor(BitStep(Xor(u, 1)), Half(x))
  {
    XorFlagBoth(u, x);
    ClearLowBit(x);
    HalfIgnoresLowBit(x);
    StepEven(Xor(u, 1), Xor(x, 1));
  }

  // Stepping a register loaded with an octet uses up the octet's lowest bit.
  lemma StepConsumesLowBit(u: bv32, w: nat)
    requires w < 256
    ensures BitStep(Load(u, w)) == Load(Feed(u, w % 2 == 1), w / 2)
  {
    OctetLowBit(w);
    OctetHalf(w);
    ShiftWide(w as bv8);
    if w % 2 == 0 {
      StepEven(u, (w as bv8) as bv32);
    } else {
      StepOdd(u, (w as bv8) as bv32);
    }
  }

  lemma MaskOfOne()
    ensures (0 as bv32) - 1 == ONES
  {
  }

  lemma XorMasked(x: bv32)
    ensures x ^ (POLY & 0) == x && x ^ (POLY & ONES) == x ^ POLY
  {
  }

  // The mask is all ones or zero as the low bit is.
  lemma MaskIsChoice(reg: bv32)
    ensures (reg >> 1) ^ (POLY & (0 - (reg & 1))) == BitStep(reg)
  {
    EvenOrOdd(reg);
    MaskOfOne();
    XorMasked(reg >> 1);
  }

  // ----- the source's loop computes the register -----

  lemma MessageBitsAppend(data: seq<byte>, b: byte)
    ensures MessageBits(data + [b]) == MessageBits(data) + Bits(b, 8)
  {
    var whole, parts := MessageBits(data + [b]), MessageBits(data) + Bits(b, 8);
    forall k | 0 <= k < 8 * |data| + 8
      ensures whole[k] == parts[k]
    {
      if k >= 8 * |data| {
        assert k / 8 == |data| && k % 8 == k - 8 * |data|;
      }
    }
  }

  lemma OctetAtOnce(reg: bv32, b: byte)
    ensures Steps(BitStep, Load(reg, b), 8) == Fold(Feed, reg, Bits(b, 8))
  {
    OctetFits(b);
    forall u
      ensures Load(u, 0) == u
    {
      assert u ^ (0 as bv32) == u;
    }
    forall u, w: nat | w < 256
      ensures BitStep(Load(u, w)) == Load(Feed(u, w % 2 == 1), w / 2)
    {
      StepConsumesLowBit(u, w);
    }
    FeedTogether(Feed, BitStep, Load, reg, b, 8);
  }

  lemma RegisterAppend(data: seq<byte>, b: byte)
    ensures Register(data + [b]) == Steps(BitStep, Load(Register(data), b), 8)
  {
    MessageBitsAppend(data, b);
    FoldConcat(Feed, ONES, MessageBits(data), Bits(b, 8));
    OctetAtOnce(Register(data), b);
  }

  // The inner loop: eight shifts.
  method ShiftOutOctet(start: bv32) returns (reg: bv32)
    ensures reg == Steps(BitStep, start, 8)
  {
    reg := start;
    var bit := 0;
    while bit < 8
      invariant bit <= 8
      invariant Steps(BitStep, reg, 8 - bit) == Steps(BitStep, start, 8)
    {
      MaskIsChoice(reg);
      reg := (reg >> 1) ^ (POLY & (0 - (reg & 1)));
      bit := bit + 1;
    }
  }

  // ccsds_crc32
  method Compute(data: array?<byte>, length: nat) returns (crc: nat)
    requires data != null ==> length <= data.Length
    ensures data != null || length == 0 ==> crc == Crc(if data == null then [] else data[..length])
    ensures data == null && length != 0 ==> crc == 0
  {
    var reg: bv32 := ONES;
    if data == null && length != 0 {
      return 0;
    }
    if data != null {
      assert data[..0] == [];
      var i := 0;
      while i < length
        invariant i <= length
        invariant reg == Register(data[..i])
      {
        RegisterAppend(data[..i], data[i]);
        assert data[..i] + [data[i]] == data[..i + 1];
        reg := ShiftOutOctet(Load(reg, data[i]));
        i := i + 1;
      }
    }
    return Value(reg);
  }

  // ----- error bursts -----

  // x has no bits but those of m.
  predicate Within(x: bv32, m: bv32) {
    x & !m == 0
  }

  function Grow(m: bv32): bv32 {
    (m << 1) | 1
  }

  // 2^k - 1
  function LowMask(k: nat): bv32 {
    if k == 0 then 0 else Grow(LowMask(k - 1))
  }

  predicate Low(k: nat, x: bv32) {
    Within(x, LowMask(k))
  }

  predicate TopClear(m: bv32) {
    m & 0x8000_0000 == 0
  }

  lemma NestedStep(m: bv32, n: bv32)
    requires Within(m, n)
    ensures Within(Grow(m), Grow(n))
  {
  }

  lemma NestedTrans(m: bv32, n: bv32, p: bv32)
    requires Within(m, n) && Within(n, p)
    ensures Within(m, p)
  {
  }

  lemma NothingWithin(m: bv32)
    ensures Within(0, m)
  {
  }

  lemma {:induction false} LowMaskNested(k: nat)
    ensures Within(LowMask(k), LowMask(k + 1))
  {
    if k == 0 {
      NothingWithin(LowMask(1));
    } else {
      LowMaskNested(k - 1);
      NestedStep(LowMask(k - 1), LowMask(k));
    }
  }

  lemma AllWithinItself(m: bv32)
    ensures Within(m, m)
  {
  }

  lemma {:induction false} LowMaskWithin31(k: nat)
    requires k <= 31
    ensures Within(LowMask(k), LowMask(31))
    decreases 31 - k
  {
    if k == 31 {
      AllWithinItself(LowMask(31));
    } else {
      LowMaskWithin31(k + 1);
      LowMaskNested(k);
      NestedTrans(LowMask(k), LowMask(k + 1), LowMask(31));
    }
  }

  lemma LowMask31()
    ensures LowMask(31) == 0x7FFF_FFFF
  {
    assert LowMask(4) == 0xF;
    assert LowMask(8) == 0xFF;
    assert LowMask(12) == 0xFFF;
    assert LowMask(16) == 0xFFFF;
    assert LowMask(20) == 0xF_FFFF;
    assert LowMask(24) == 0xFF_FFFF;
    assert LowMask(28) == 0xFFF_FFFF;
  }

  lemma NestedTop(m: bv32)
    requires Within(m, 0x7FFF_FFFF)
    ensures TopClear(m)
  {
  }

  lemma TopBitClear(k: nat)
    requires k <= 31
    ensures TopClear(LowMask(k))
  {
    LowMaskWithin31(k);
    LowMask31();
    NestedTop(LowMask(k));
  }

  // A step that folds the polynomial in sets the top bit, so a narrow register
  // was at most one bit wider a step earlier.
  lemma StepBack(x: bv32, m: bv32)
    requires TopClear(m) && Within(BitStep(x), m)
    ensures x & 1 == 0 && Within(x, m << 1)
  {
  }

  lemma ZeroFeedGrows(u: bv32, m: bv32)
    requires TopClear(m) && Within(Feed(u, false), m)
    ensures Within(u, Grow(m))
  {
    StepBack(u, m);
  }

  lemma FlagWithin(u: bv32, m: bv32)
    requires Within(Xor(u, 1), m << 1)
    ensures Within(u, Grow(m))
  {
  }

  lemma FlagSet(u: bv32)
    requires Xor(u, 1) & 1 == 0
    ensures u != 0
  {
  }

  lemma OneFeedGrows(u: bv32, m: bv32)
    requires TopClear(m) && Within(Feed(u, true), m)
    ensures Within(u, Grow(m)) && u != 0
  {
    StepBack(Xor(u, 1), m);
    FlagWithin(u, m);
    FlagSet(u);
  }

  lemma ZeroFeedWidens(k: nat, u: bv32)
    requires k <= 31 && Low(k, Feed(u, false))
    ensures Low(k + 1, u)
  {
    TopBitClear(k);
    ZeroFeedGrows(u, LowMask(k));
  }

  lemma OneFeedWidens(k: nat, u: bv32)
    requires k <= 31 && Low(k, Feed(u, true))
    ensures Low(k + 1, u) && u != 0
  {
    TopBitClear(k);
    OneFeedGrows(u, LowMask(k));
  }

  lemma StepBackWidens(k: nat, u: bv32, b: bool)
    requires k <= 31 && Low(k, Feed(u, b))
    ensures Low(k + 1, u)
    ensures u == 0 ==> !b
  {
    if b {
      OneFeedWidens(k, u);
    } else {
      ZeroFeedWidens(k, u);
    }
  }

  lemma ZeroOnlyOnZeros(bits: seq<bool>)
    requires |bits| <= 32 && Fold(Feed, 0 as bv32, bits) == 0
    ensures forall i :: 0 <= i < |bits| ==> !bits[i]
  {
    forall k: nat, u, b | k < 32 && Low(k, Feed(u, b))
      ensures Low(k + 1, u) && (u == 0 ==> !b)
    {
      StepBackWidens(k, u, b);
    }
    assert Low(0, 0);
    assert Feed(0, false) == 0;
    DrivenToZero(Feed, Low, 0 as bv32, 32, 0 as bv32, bits);
  }

  lemma BurstChangesRegister(reg: bv32, before: seq<bool>, x: seq<bool>, y: seq<bool>, after: seq<bool>)
    requires |x| == |y| <= 32 && x != y
    ensures Fold(Feed, reg, before + x + after) != Fold(Feed, reg, before + y + after)
  {
    var r := Fold(Feed, reg, before);
    FoldConcat(Feed, reg, before + x, after);
    FoldConcat(Feed, reg, before, x);
    FoldConcat(Feed, reg, before + y, after);
    FoldConcat(Feed, reg, before, y);
    if Fold(Feed, r, x) == Fold(Feed, r, y) {
      EqualRunsEqualBits(r, x, y);
    } else if Fold(Feed, reg, before + x + after) == Fold(Feed, reg, before + y + after) {
      forall u, v, b | Feed(u, b) == Feed(v, b)
        ensures u == v
      {
        FeedInjective(u, v, b);
      }
      FoldInjective(Feed, Fold(Feed, r, x), Fold(Feed, r, y), after);
    }
  }

  lemma FeedIsLinear()
    ensures Linear(Feed, Feed, Xor, Differ)
  {
    forall u, v, p, q
      ensures Xor(Feed(u, p), Feed(v, q)) == Feed(Xor(u, v), Differ(p, q))
    {
      FeedLinear(u, v, p, q);
    }
  }

  lemma RunsDiffer(u: bv32, v: bv32, x: seq<bool>, y: seq<bool>)
    requires |x| == |y|
    ensures Xor(Fold(Feed, u, x), Fold(Feed, v, y)) == Fold(Feed, Xor(u, v), Differences(Differ, x, y))
  {
    FeedIsLinear();
    FoldDifference(Feed, Feed, Xor, Differ, u, v, x, y);
  }

  lemma EqualRunsEqualBits(r: bv32, x: seq<bool>, y: seq<bool>)
    requires |x| == |y| <= 32 && Fold(Feed, r, x) == Fold(Feed, r, y)
    ensures x == y
  {
    RunsDiffer(r, r, x, y);
    XorSelf(r);
    XorSelf(Fold(Feed, r, x));
    var d := Differences(Differ, x, y);
    ZeroOnlyOnZeros(d);
    assert forall i :: 0 <= i < |x| ==> d[i] == Differ(x[i], y[i]);
  }

  lemma XorSelf(x: bv32)
    ensures Xor(x, x) == 0
  {
  }

  lemma MessageFromBits(a: seq<byte>, b: seq<byte>)
    requires |a| == |b| && MessageBits(a) == MessageBits(b)
    ensures a == b
  {
    forall i | 0 <= i < |a|
      ensures a[i] == b[i]
    {
      forall j | 0 <= j < 8
        ensures Bits(a[i], 8)[j] == Bits(b[i], 8)[j]
      {
        var k := 8 * i + j;
        assert k / 8 == i && k % 8 == j;
        assert MessageBits(a)[k] == MessageBits(b)[k];
      }
      OctetFits(a[i]);
      OctetFits(b[i]);
      BitsInjective(a[i], b[i], 8);
    }
  }

  // The two messages agree on every bit outside 32 consecutive ones.
  ghost predicate DifferOnlyInBurst(a: seq<byte>, b: seq<byte>, from: nat)
    requires |a| == |b|
  {
    forall k :: 0 <= k < 8 * |a| && !(from <= k < from + 32) ==> MessageBit(a, k) == MessageBit(b, k)
  }

  lemma CutAround(s: seq<bool>, t: seq<bool>, lo: nat, hi: nat)
    requires |s| == |t| && lo <= hi <= |s|
    requires forall k :: 0 <= k < |s| && !(lo <= k < hi) ==> s[k] == t[k]
    ensures s == s[..lo] + s[lo..hi] + s[hi..]
    ensures t == s[..lo] + t[lo..hi] + s[hi..]
  {
  }

  // Messages of any length that differ only within 32 consecutive bits have
  // different CRCs.
  lemma BurstDetected(a: seq<byte>, b: seq<byte>, from: nat)
    requires |a| == |b| && a != b
    requires DifferOnlyInBurst(a, b, from)
    ensures Crc(a) != Crc(b)
  {
    var s, t := MessageBits(a), MessageBits(b);
    var lo := if from <= |s| then from else |s|;
    var hi := if from + 32 <= |s| then from + 32 else |s|;
    assert forall k :: 0 <= k < |s| && !(lo <= k < hi) ==> s[k] == MessageBit(a, k) == t[k];
    CutAround(s, t, lo, hi);
    if s[lo..hi] == t[lo..hi] {
      MessageFromBits(a, b);
    }
    BurstChangesRegister(ONES, s[..lo], s[lo..hi], t[lo..hi], s[hi..]);
    if Crc(a) == Crc(b) {
      ValueInjective(Register(a), Register(b));
    }
  }

  // In particular, any change confined to four consecutive octets is seen.
  lemma FourOctetsDetected(a: seq<byte>, b: seq<byte>, i: nat)
    requires |a| == |b| && a != b
    requires forall j :: 0 <= j < |a| && !(i <= j < i + 4) ==> a[j] == b[j]
    ensures Crc(a) != Crc(b)
  {
    forall k | 0 <= k < 8 * |a| && !(8 * i <= k < 8 * i + 32)
      ensures MessageBit(a, k) == MessageBit(b, k)
    {
      assert !(i <= k / 8 < i + 4);
    }
    BurstDetected(a, b, 8 * i);
  }
}

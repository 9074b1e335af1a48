// shared/ccsds/src/crc32.c and the CRC field of shared/ccsds/src/profile.c:
// damage across the end of what the CRC-32 covers. The CRC is sent most
// significant octet first while its register takes octets in at the other end,
// so four damaged octets that lie partly in the field are not one burst. One
// pattern of such damage passes the check; every other one is seen.
module CrcBoundary {
  import opened Bytes
  import opened ShiftRegister
  import opened Crc32

  // Octets followed by their CRC.
  predicate Passes(s: seq<byte>)
    requires |s| >= 4
  {
    ReadU32(s[|s| - 4..]) == Crc(s[..|s| - 4])
  }

  function AsBits(b: byte): bv8 {
    b as bv8
  }

  // The bits in which two octets differ.
  function Between(a: byte, b: byte): bv8 {
    AsBits(a) ^ AsBits(b)
  }

  function Damage(s: seq<byte>, t: seq<byte>): (d: seq<bv8>)
    requires |s| == |t|
    ensures |d| == |s|
  {
    Differences(Between, s, t)
  }

  function AsByte(x: bv8): byte {
    x as int
  }

  lemma HalfAndLowBit(x: bv8)
    ensures AsByte(x) == 2 * AsByte(x >> 1) + (if x & 1 == 0 then 0 else 1)
  {
  }

  lemma LowBit(x: bv8)
    ensures x & 1 == 0 <==> (x as bv32) & 1 == 0
  {
  }

  lemma {:induction false} BitsAsByte(a: byte)
    ensures AsByte(AsBits(a)) == a
    decreases a
  {
    if a != 0 {
      BitsAsByte(a / 2);
      OctetHalf(a);
      OctetLowBit(a);
      LowBit(AsBits(a));
      HalfAndLowBit(AsBits(a));
    }
  }

  lemma AsBitsInjective(a: byte, b: byte)
    requires AsBits(a) == AsBits(b)
    ensures a == b
  {
    BitsAsByte(a);
    BitsAsByte(b);
  }

  lemma XorZero(x: bv8, y: bv8)
    ensures x ^ y == 0 <==> x == y
  {
  }

  lemma BetweenZero(a: byte, b: byte)
    ensures Between(a, b) == 0 <==> a == b
  {
    XorZero(AsBits(a), AsBits(b));
    if AsBits(a) == AsBits(b) {
      AsBitsInjective(a, b);
    }
  }

  lemma XorCancels(x: bv8, y: bv8, z: bv8)
    requires x ^ y == x ^ z
    ensures y == z
  {
  }

  lemma BetweenCancels(a: byte, b: byte, c: byte)
    requires Between(a, b) == Between(a, c)
    ensures b == c
  {
    XorCancels(AsBits(a), AsBits(b), AsBits(c));
    AsBitsInjective(b, c);
  }

  // ----- a register fed whole octets -----

  function OctetStep(reg: bv32): bv32 {
    BitStep(BitStep(BitStep(BitStep(BitStep(BitStep(BitStep(BitStep(reg))))))))
  }

  function Wide(x: bv8): bv32 {
    x as bv32
  }

  function Absorb(reg: bv32, x: bv8): bv32 {
    OctetStep(Xor(reg, Wide(x)))
  }

  function AbsorbByte(reg: bv32, b: byte): bv32 {
    Absorb(reg, AsBits(b))
  }

  lemma FourSteps(reg: bv32)
    ensures Steps(BitStep, reg, 4) == BitStep(BitStep(BitStep(BitStep(reg))))
  {
  }

  lemma EightSteps(reg: bv32)
    ensures Steps(BitStep, reg, 8) == OctetStep(reg)
  {
    var half := BitStep(BitStep(BitStep(BitStep(reg))));
    assert Steps(BitStep, reg, 8) == Steps(BitStep, half, 4);
    FourSteps(half);
  }

  lemma RegisterAbsorbs(c: seq<byte>, b: byte)
    ensures Register(c + [b]) == AbsorbByte(Register(c), b)
  {
    RegisterAppend(c, b);
    EightSteps(Load(Register(c), b));
  }

  lemma {:induction false} RegisterFolds(c: seq<byte>, s: seq<byte>)
    ensures Register(c + s) == Fold(AbsorbByte, Register(c), s)
    decreases |s|
  {
    if |s| == 0 {
      assert c + s == c;
    } else {
      RegisterAbsorbs(c, s[0]);
      assert c + s == (c + [s[0]]) + s[1..];
      RegisterFolds(c + [s[0]], s[1..]);
    }
  }

  lemma OctetStepLinear(a: bv32, b: bv32)
    ensures OctetStep(Xor(a, b)) == Xor(OctetStep(a), OctetStep(b))
  {
    var a1, b1 := BitStep(a), BitStep(b);
    var a2, b2 := BitStep(a1), BitStep(b1);
    var a3, b3 := BitStep(a2), BitStep(b2);
    var a4, b4 := BitStep(a3), BitStep(b3);
    var a5, b5 := BitStep(a4), BitStep(b4);
    var a6, b6 := BitStep(a5), BitStep(b5);
    var a7, b7 := BitStep(a6), BitStep(b6);
    BitStepLinear(a, b);
    BitStepLinear(a1, b1);
    BitStepLinear(a2, b2);
    BitStepLinear(a3, b3);
    BitStepLinear(a4, b4);
    BitStepLinear(a5, b5);
    BitStepLinear(a6, b6);
    BitStepLinear(a7, b7);
  }

  lemma WideXor(x: bv8, y: bv8)
    ensures Wide(x ^ y) == Xor(Wide(x), Wide(y))
  {
  }

  lemma Associates(a: bv32, b: bv32, c: bv32)
    ensures Xor(Xor(a, b), c) == Xor(a, Xor(b, c))
  {
  }

  lemma Exchange(u: bv32, v: bv32, x: bv32, y: bv32)
    ensures Xor(Xor(u, x), Xor(v, y)) == Xor(Xor(u, v), Xor(x, y))
  {
    Associates(u, x, Xor(v, y));
    Associates(x, v, y);
    XorCommutes(x, v);
    Associates(v, x, y);
    Associates(u, v, Xor(x, y));
  }

  lemma StepsDiffer(u: bv32, v: bv32, x: bv32, y: bv32)
    ensures Xor(OctetStep(Xor(u, x)), OctetStep(Xor(v, y))) == OctetStep(Xor(Xor(u, v), Xor(x, y)))
  {
    Exchange(u, v, x, y);
    OctetStepLinear(Xor(u, x), Xor(v, y));
  }

  lemma AbsorbLinear(u: bv32, v: bv32, p: byte, q: byte)
    ensures Xor(AbsorbByte(u, p), AbsorbByte(v, q)) == Absorb(Xor(u, v), Between(p, q))
  {
    WideXor(AsBits(p), AsBits(q));
    StepsDiffer(u, v, Wide(AsBits(p)), Wide(AsBits(q)));
  }

  lemma AbsorbIsLinear()
    ensures Linear(AbsorbByte, Absorb, Xor, Between)
  {
    forall u, v, p, q
      ensures Xor(AbsorbByte(u, p), AbsorbByte(v, q)) == Absorb(Xor(u, v), Between(p, q))
    {
      AbsorbLinear(u, v, p, q);
    }
  }

  // What the registers differ by depends on the damage alone.
  lemma RegistersDiffer(c: seq<byte>, s: seq<byte>, t: seq<byte>)
    requires |s| == |t|
    ensures Xor(Register(c + s), Register(c + t)) == Fold(Absorb, 0 as bv32, Damage(s, t))
  {
    RegisterFolds(c, s);
    RegisterFolds(c, t);
    XorSelf(Register(c));
    AbsorbIsLinear();
    FoldDifference(AbsorbByte, Absorb, Xor, Between, Register(c), Register(c), s, t);
  }

  // ----- the field -----

  function LowOctet(x: bv32): bv8 {
    (x & 0xFF) as bv8
  }

  function Word(x: bv32): (d: seq<bv8>)
    ensures |d| == 4
  {
    [LowOctet(x >> 24), LowOctet(x >> 16), LowOctet(x >> 8), LowOctet(x)]
  }

  lemma OctetAsBits(x: bv32)
    ensures AsBits(Octet(x)) == LowOctet(x)
  {
  }

  lemma XorLowOctets(x: bv32, y: bv32)
    ensures LowOctet(x) ^ LowOctet(y) == LowOctet(Xor(x, y))
  {
  }

  lemma OctetsBetween(x: bv32, y: bv32)
    ensures Between(Octet(x), Octet(y)) == LowOctet(Xor(x, y))
  {
    OctetAsBits(x);
    OctetAsBits(y);
    XorLowOctets(x, y);
  }

  lemma OctetsBetween8(x: bv32, y: bv32)
    ensures Between(Octet(x >> 8), Octet(y >> 8)) == LowOctet(Xor(x, y) >> 8)
  {
    OctetsBetween(x >> 8, y >> 8);
    Shifted8(x, y);
  }

  lemma OctetsBetween16(x: bv32, y: bv32)
    ensures Between(Octet(x >> 16), Octet(y >> 16)) == LowOctet(Xor(x, y) >> 16)
  {
    OctetsBetween(x >> 16, y >> 16);
    Shifted16(x, y);
  }

  lemma OctetsBetween24(x: bv32, y: bv32)
    ensures Between(Octet(x >> 24), Octet(y >> 24)) == LowOctet(Xor(x, y) >> 24)
  {
    OctetsBetween(x >> 24, y >> 24);
    Shifted24(x, y);
  }

  lemma Shifted8(x: bv32, y: bv32)
    ensures (x >> 8) ^ (y >> 8) == (x ^ y) >> 8
  {
  }

  lemma Shifted16(x: bv32, y: bv32)
    ensures (x >> 16) ^ (y >> 16) == (x ^ y) >> 16
  {
  }

  lemma Shifted24(x: bv32, y: bv32)
    ensures (x >> 24) ^ (y >> 24) == (x ^ y) >> 24
  {
  }

  lemma FourDifferences<B, D>(differ: (B, B) -> D, a: B, b: B, c: B, d: B, p: B, q: B, r: B, s: B)
    ensures Differences(differ, [a, b, c, d], [p, q, r, s]) == [differ(a, p), differ(b, q), differ(c, r), differ(d, s)]
  {
  }

  lemma DamageOfOctets(x: bv32, y: bv32)
    ensures Damage(Octets(x), Octets(y)) == Word(Xor(x, y))
  {
    OctetsBetween(x, y);
    OctetsBetween8(x, y);
    OctetsBetween16(x, y);
    OctetsBetween24(x, y);
    FourDifferences(Between, Octet(x >> 24), Octet(x >> 16), Octet(x >> 8), Octet(x),
                    Octet(y >> 24), Octet(y >> 16), Octet(y >> 8), Octet(y));
  }

  // ----- which damage to both sides agrees -----

  lemma XorZeroLeft(x: bv32)
    ensures Xor(0, x) == x
  {
  }

  predicate LowClear(x: bv32, mask: bv32) {
    x & mask == 0
  }

  lemma OneOctet(x: bv8)
    requires LowClear(OctetStep(Wide(x)), 0xFF)
    ensures x == 0
  {
  }

  lemma TwoOctets(x: bv8, y: bv8)
    requires LowClear(OctetStep(OctetStep(Wide(x)) ^ Wide(y)), 0xFFFF)
    ensures (x == 0 && y == 0) || (x == 0x61 && y == 0xD8)
  {
  }

  // A register can be stepped back, the polynomial's top bit telling whether it
  // was folded in.
  function BackStep(reg: bv32): bv32 {
    if reg & 0x8000_0000 == 0 then reg << 1 else ((reg ^ POLY) << 1) | 1
  }

  function OctetBack(reg: bv32): bv32 {
    BackStep(BackStep(BackStep(BackStep(BackStep(BackStep(BackStep(BackStep(reg))))))))
  }

  lemma BackStepUndoes(x: bv32)
    ensures BackStep(BitStep(x)) == x
  {
  }

  lemma OctetBackUndoes(x: bv32)
    ensures OctetBack(OctetStep(x)) == x
  {
    var a := BitStep(x);
    var b := BitStep(a);
    var c := BitStep(b);
    var d := BitStep(c);
    var e := BitStep(d);
    var f := BitStep(e);
    var g := BitStep(f);
    BackStepUndoes(x);
    BackStepUndoes(a);
    BackStepUndoes(b);
    BackStepUndoes(c);
    BackStepUndoes(d);
    BackStepUndoes(e);
    BackStepUndoes(f);
    BackStepUndoes(g);
  }

  lemma ShiftedOctetSteps(y: bv8)
    ensures OctetStep(Wide(y) << 8) == Wide(y)
  {
  }

  // Adding an octet after a step is adding it one octet higher before.
  lemma AddEarlier(w: bv32, y: bv8)
    ensures Xor(OctetStep(w), Wide(y)) == OctetStep(Xor(w, Wide(y) << 8))
  {
    ShiftedOctetSteps(y);
    OctetStepLinear(w, Wide(y) << 8);
  }

  lemma ThreeBack(d: bv32)
    requires LowClear(d, 0xFF_FFFF) && LowClear(OctetBack(OctetBack(OctetBack(d))), 0xFF00_0000)
    ensures d == 0
  {
  }

  function Packed(x: bv8, y: bv8, z: bv8): bv32 {
    Xor(Xor(Wide(x), Wide(y) << 8), Wide(z) << 8 << 8)
  }

  lemma PackedIsThreeOctets(x: bv8, y: bv8, z: bv8)
    ensures LowClear(Packed(x, y, z), 0xFF00_0000)
    ensures Packed(x, y, z) == 0 ==> x == 0 && y == 0 && z == 0
  {
  }

  lemma ShiftedTwiceSteps(z: bv8)
    ensures OctetStep(Wide(z) << 8 << 8) == Wide(z) << 8
  {
  }

  lemma PackedSteps(x: bv8, y: bv8, z: bv8)
    ensures OctetStep(Xor(OctetStep(Xor(OctetStep(Wide(x)), Wide(y))), Wide(z)))
            == OctetStep(OctetStep(OctetStep(Packed(x, y, z))))
  {
    var w := Xor(Wide(x), Wide(y) << 8);
    AddEarlier(Wide(x), y);
    AddEarlier(OctetStep(w), z);
    ShiftedTwiceSteps(z);
    OctetStepLinear(w, Wide(z) << 8 << 8);
  }

  lemma ZeroStays()
    ensures OctetStep(0) == 0
  {
  }

  lemma ThreeOctets(x: bv8, y: bv8, z: bv8)
    requires LowClear(OctetStep(Xor(OctetStep(Xor(OctetStep(Wide(x)), Wide(y))), Wide(z))), 0xFF_FFFF)
    ensures x == 0 && y == 0 && z == 0
  {
    var w := Packed(x, y, z);
    PackedSteps(x, y, z);
    PackedIsThreeOctets(x, y, z);
    var a := OctetStep(w);
    var b := OctetStep(a);
    OctetBackUndoes(w);
    OctetBackUndoes(a);
    OctetBackUndoes(b);
    ThreeBack(OctetStep(b));
    ZeroStays();
    OctetBackUndoes(0);
  }

  predicate Clear(d: seq<bv8>) {
    forall i :: 0 <= i < |d| ==> d[i] == 0
  }

  // The one pattern: two octets in front of the field and the field's first two.
  const BEFORE: seq<bv8> := [0x61, 0xD8]
  const FIELD: seq<bv8> := [0xF4, 0xEE, 0, 0]

  lemma LowOctetClear(x: bv32)
    requires LowOctet(x) == 0
    ensures LowClear(x, 0xFF)
  {
  }

  lemma LowTwoClear(x: bv32)
    requires LowOctet(x) == 0 && LowOctet(x >> 8) == 0
    ensures LowClear(x, 0xFFFF)
  {
  }

  lemma LowThreeClear(x: bv32)
    requires LowOctet(x) == 0 && LowOctet(x >> 8) == 0 && LowOctet(x >> 16) == 0
    ensures LowClear(x, 0xFF_FFFF)
  {
  }

  function Absorbed(d: seq<bv8>): bv32 {
    Fold(Absorb, 0 as bv32, d)
  }

  lemma AbsorbOne(x: bv8)
    ensures Absorb(0, x) == OctetStep(Wide(x))
  {
    XorZeroLeft(Wide(x));
  }

  lemma FoldOne<S, B>(f: (S, B) -> S, s: S, x: B)
    ensures Fold(f, s, [x]) == f(s, x)
  {
    assert Fold(f, f(s, x), []) == f(s, x);
  }

  lemma FoldNext<S, B>(f: (S, B) -> S, s: S, items: seq<B>, x: B)
    ensures Fold(f, s, items + [x]) == f(Fold(f, s, items), x)
  {
    FoldConcat(f, s, items, [x]);
    FoldOne(f, Fold(f, s, items), x);
  }

  lemma AbsorbedOne(x: bv8)
    ensures Absorbed([x]) == OctetStep(Wide(x))
  {
    FoldOne(Absorb, 0 as bv32, x);
    AbsorbOne(x);
  }

  lemma AbsorbedTwo(x: bv8, y: bv8)
    ensures Absorbed([x, y]) == OctetStep(Xor(OctetStep(Wide(x)), Wide(y)))
  {
    assert [x, y] == [x] + [y];
    FoldNext(Absorb, 0 as bv32, [x], y);
    AbsorbedOne(x);
  }

  lemma AbsorbedThree(x: bv8, y: bv8, z: bv8)
    ensures Absorbed([x, y, z]) == OctetStep(Xor(OctetStep(Xor(OctetStep(Wide(x)), Wide(y))), Wide(z)))
  {
    assert [x, y, z] == [x, y] + [z];
    FoldNext(Absorb, 0 as bv32, [x, y], z);
    AbsorbedTwo(x, y);
  }

  lemma KnownPattern()
    ensures OctetStep(Xor(OctetStep(Wide(0x61)), Wide(0xD8))) == 0xF4EE_0000
    ensures Word(0xF4EE_0000) == FIELD
  {
  }

  lemma PatternAbsorbed()
    ensures Word(Absorbed(BEFORE)) == FIELD
  {
    AbsorbedTwo(0x61, 0xD8);
    KnownPattern();
  }

  lemma OneTells(x: bv8)
    requires Word(Absorbed([x]))[3] == 0
    ensures x == 0
  {
    AbsorbedOne(x);
    LowOctetClear(Absorbed([x]));
    OneOctet(x);
  }

  lemma TwoTell(x: bv8, y: bv8)
    requires Word(Absorbed([x, y]))[2] == 0 && Word(Absorbed([x, y]))[3] == 0
    ensures (x == 0 && y == 0) || (x == 0x61 && y == 0xD8)
  {
    AbsorbedTwo(x, y);
    LowTwoClear(Absorbed([x, y]));
    TwoOctets(x, y);
  }

  lemma ThreeTell(x: bv8, y: bv8, z: bv8)
    requires var e := Word(Absorbed([x, y, z])); e[1] == 0 && e[2] == 0 && e[3] == 0
    ensures x == 0 && y == 0 && z == 0
  {
    AbsorbedThree(x, y, z);
    LowThreeClear(Absorbed([x, y, z]));
    ThreeOctets(x, y, z);
  }

  // Only one pattern in front of the field leaves that many of its last octets
  // alone.
  lemma LastOctetsTell(d: seq<bv8>)
    requires 1 <= |d| <= 3
    requires forall i :: 4 - |d| <= i < 4 ==> Word(Absorbed(d))[i] == 0
    ensures Clear(d) || d == BEFORE
  {
    if |d| == 1 {
      assert d == [d[0]];
      OneTells(d[0]);
    } else if |d| == 2 {
      assert d == [d[0], d[1]];
      TwoTell(d[0], d[1]);
    } else {
      assert d == [d[0], d[1], d[2]];
      ThreeTell(d[0], d[1], d[2]);
    }
  }

  lemma AbsorbZero(reg: bv32)
    requires reg == 0
    ensures Absorb(reg, 0) == reg
  {
    ZeroStays();
    XorZeroLeft(Wide(0));
  }

  lemma {:induction false} ClearFolds(reg: bv32, d: seq<bv8>)
    requires Clear(d) && reg == 0
    ensures Fold(Absorb, reg, d) == reg
    decreases |d|
  {
    if |d| > 0 {
      AbsorbZero(reg);
      ClearFolds(reg, d[1..]);
    }
  }

  lemma WordOfZero(x: bv32)
    requires x == 0
    ensures Clear(Word(x))
  {
  }

  lemma BothSides(d: seq<bv8>, e: seq<bv8>)
    requires 1 <= |d| <= 3 && |e| == 4 && !(Clear(d) && Clear(e))
    requires forall i :: 4 - |d| <= i < 4 ==> e[i] == 0
    ensures e == Word(Absorbed(d)) <==> d == BEFORE && e == FIELD
  {
    PatternAbsorbed();
    if e == Word(Absorbed(d)) {
      LastOctetsTell(d);
      if Clear(d) {
        ClearFolds(0, d);
        WordOfZero(Absorbed(d));
      }
    }
  }

  // ----- four octets anywhere -----

  // q is p with the one pattern of damage that the check does not see.
  predicate Unseen(p: seq<byte>, q: seq<byte>)
    requires |p| == |q|
  {
    && |p| >= 6
    && p[..|p| - 6] == q[..|p| - 6]
    && Damage(p[|p| - 6..], q[|p| - 6..]) == BEFORE + FIELD
  }

  lemma PassesInBits(c: seq<byte>, f: seq<byte>)
    requires |f| == 4
    ensures Passes(c + f) <==> f == Octets(Register(c) ^ ONES)
  {
    var s := c + f;
    assert s[|s| - 4..] == f && s[..|s| - 4] == c;
    if ReadU32(f) == Crc(c) {
      U32ReadInjective(f, Octets(Register(c) ^ ONES));
    }
  }

  lemma OnesCancel(x: bv32, y: bv32)
    ensures Xor(x ^ ONES, y ^ ONES) == Xor(x, y)
  {
  }

  lemma DamageTells(f: seq<byte>, g: seq<byte>, h: seq<byte>)
    requires |f| == |g| == |h|
    ensures Damage(f, g) == Damage(f, h) <==> g == h
  {
    forall x, y, z | Between(x, y) == Between(x, z)
      ensures y == z
    {
      BetweenCancels(x, y, z);
    }
    if Damage(f, g) == Damage(f, h) {
      DifferencesCancel(Between, f, g, h);
    }
  }

  lemma FieldsDiffer(c: seq<byte>, t: seq<byte>, u: seq<byte>)
    requires |t| == |u|
    ensures Damage(Octets(Register(c + t) ^ ONES), Octets(Register(c + u) ^ ONES)) == Word(Absorbed(Damage(t, u)))
  {
    RegistersDiffer(c, t, u);
    OnesCancel(Register(c + t), Register(c + u));
    DamageOfOctets(Register(c + t) ^ ONES, Register(c + u) ^ ONES);
  }

  // When one message passes, another does exactly if the field was damaged as
  // the register was.
  lemma PassesIfDamagedAlike(c: seq<byte>, t: seq<byte>, u: seq<byte>, f: seq<byte>, g: seq<byte>)
    requires |t| == |u| && |f| == |g| == 4 && Passes(c + t + f)
    ensures Passes(c + u + g) <==> Damage(f, g) == Word(Absorbed(Damage(t, u)))
  {
    PassesInBits(c + t, f);
    PassesInBits(c + u, g);
    FieldsDiffer(c, t, u);
    DamageTells(f, g, Octets(Register(c + u) ^ ONES));
  }

  predicate AgreeOutside(p: seq<byte>, q: seq<byte>, i: nat)
    requires |p| == |q|
  {
    forall j :: 0 <= j < |p| && !(i <= j < i + 4) ==> p[j] == q[j]
  }

  lemma UnseenDiffers(p: seq<byte>, q: seq<byte>)
    requires |p| == |q| && Unseen(p, q)
    ensures var n := |p|;
            p[n - 6] != q[n - 6] && p[n - 5] != q[n - 5] && p[n - 4] != q[n - 4] && p[n - 3] != q[n - 3]
  {
    var a, b := p[|p| - 6..], q[|p| - 6..];
    var d := Damage(a, b);
    assert d[0] == 0x61 && d[1] == 0xD8 && d[2] == 0xF4 && d[3] == 0xEE;
    assert forall k :: 0 <= k < 6 ==> d[k] == Between(a[k], b[k]);
    BetweenZero(a[0], b[0]);
    BetweenZero(a[1], b[1]);
    BetweenZero(a[2], b[2]);
    BetweenZero(a[3], b[3]);
  }

  lemma ClearIfSame(s: seq<byte>, t: seq<byte>)
    requires |s| == |t|
    ensures Clear(Damage(s, t)) <==> s == t
  {
    forall k | 0 <= k < |s|
      ensures Damage(s, t)[k] == 0 <==> s[k] == t[k]
    {
      BetweenZero(s[k], t[k]);
    }
  }

  lemma DamageJoins(s: seq<byte>, t: seq<byte>, f: seq<byte>, g: seq<byte>)
    requires |s| == |t| && |f| == |g|
    ensures Damage(s + f, t + g) == Damage(s, t) + Damage(f, g)
  {
  }

  lemma FieldEndClear(f: seq<byte>, g: seq<byte>, n: nat)
    requires |f| == |g| == 4 && n <= 4
    requires forall k :: 4 - n <= k < 4 ==> f[k] == g[k]
    ensures forall k :: 4 - n <= k < 4 ==> Damage(f, g)[k] == 0
  {
    forall k | 4 - n <= k < 4
      ensures Damage(f, g)[k] == 0
    {
      BetweenZero(f[k], g[k]);
    }
  }

  lemma DamagedAcross(c: seq<byte>, t: seq<byte>, u: seq<byte>, f: seq<byte>, g: seq<byte>)
    requires 1 <= |t| == |u| <= 3 && |f| == |g| == 4 && Passes(c + t + f)
    requires t != u || f != g
    requires forall k :: 4 - |t| <= k < 4 ==> f[k] == g[k]
    ensures Passes(c + u + g) <==> Damage(t, u) == BEFORE && Damage(f, g) == FIELD
  {
    PassesIfDamagedAlike(c, t, u, f, g);
    ClearIfSame(t, u);
    ClearIfSame(f, g);
    FieldEndClear(f, g, |t|);
    BothSides(Damage(t, u), Damage(f, g));
  }

  // The change lies on both sides of the field's beginning.
  lemma AcrossTheEnd(p: seq<byte>, q: seq<byte>, i: nat)
    requires |p| == |q| && i < |p| - 4 < i + 4
    requires p != q && Passes(p) && AgreeOutside(p, q, i)
    ensures Passes(q) <==> Unseen(p, q)
  {
    var m := |p| - 4;
    var c, t, u, f, g := p[..i], p[i..m], q[i..m], p[m..], q[m..];
    assert q[..i] == c;
    assert p == c + t + f && q == c + u + g;
    DamagedAcross(c, t, u, f, g);
    SameEnd(p, q, i);
  }

  lemma SameEnd(p: seq<byte>, q: seq<byte>, i: nat)
    requires |p| == |q| && i < |p| - 4 < i + 4 && AgreeOutside(p, q, i)
    ensures var n := |p|;
            Damage(p[i..n - 4], q[i..n - 4]) == BEFORE && Damage(p[n - 4..], q[n - 4..]) == FIELD <==> Unseen(p, q)
  {
    var n := |p|;
    if i == n - 6 {
      assert p[..i] == q[..i];
      assert p[i..] == p[i..n - 4] + p[n - 4..] && q[i..] == q[i..n - 4] + q[n - 4..];
      DamageJoins(p[i..n - 4], q[i..n - 4], p[n - 4..], q[n - 4..]);
      var d, e := Damage(p[i..n - 4], q[i..n - 4]), Damage(p[n - 4..], q[n - 4..]);
      assert (d + e)[..2] == d && (d + e)[2..] == e;
      assert (BEFORE + FIELD)[..2] == BEFORE && (BEFORE + FIELD)[2..] == FIELD;
    } else if Unseen(p, q) {
      UnseenDiffers(p, q);
    }
  }

  lemma InField(p: seq<byte>, q: seq<byte>)
    requires |p| == |q| >= 4 && p[..|p| - 4] == q[..|p| - 4]
    requires p != q && Passes(p)
    ensures !Passes(q)
  {
    var m := |p| - 4;
    assert p == p[..m] + p[m..] && q == q[..m] + q[m..];
    if Passes(q) {
      U32ReadInjective(p[m..], q[m..]);
    }
  }

  lemma InFront(p: seq<byte>, q: seq<byte>, i: nat)
    requires |p| == |q| >= 4 && p[|p| - 4..] == q[|p| - 4..]
    requires p != q && Passes(p) && AgreeOutside(p, q, i)
    ensures !Passes(q)
  {
    var m := |p| - 4;
    assert p == p[..m] + p[m..] && q == q[..m] + q[m..];
    FourOctetsDetected(p[..m], q[..m], i);
  }

  lemma UnseenPlace(p: seq<byte>, q: seq<byte>, i: nat)
    requires |p| == |q| && Unseen(p, q) && AgreeOutside(p, q, i)
    ensures i == |p| - 6
  {
    UnseenDiffers(p, q);
  }

  // A change confined to four consecutive octets, wherever they lie, passes the
  // check exactly if it is the one pattern at the one place.
  lemma FourOctetsPass(p: seq<byte>, q: seq<byte>, i: nat)
    requires |p| == |q| >= 4
    requires p != q && Passes(p) && AgreeOutside(p, q, i)
    ensures Passes(q) <==> Unseen(p, q)
  {
    var m := |p| - 4;
    if i < m < i + 4 {
      AcrossTheEnd(p, q, i);
    } else {
      if Unseen(p, q) {
        UnseenPlace(p, q, i);
      }
      if i >= m {
        assert p[..m] == q[..m];
        InField(p, q);
      } else {
        assert p[m..] == q[m..];
        InFront(p, q, i);
      }
    }
  }

  // ----- such damage exists -----

  function Flip(x: bv8, y: bv8): bv8 {
    x ^ y
  }

  lemma ByteAsBits(x: bv8)
    ensures AsBits(AsByte(x)) == x
  {
  }

  lemma FlipTwice(x: bv8, y: bv8)
    ensures x ^ Flip(x, y) == y
  {
  }

  function Flipped(a: byte, y: bv8): byte {
    AsByte(Flip(AsBits(a), y))
  }

  lemma FlippedDiffers(a: byte, y: bv8)
    ensures Between(a, Flipped(a, y)) == y
  {
    ByteAsBits(Flip(AsBits(a), y));
    FlipTwice(AsBits(a), y);
  }

  function Spoiled(s: seq<byte>, d: seq<bv8>): (t: seq<byte>)
    requires |s| == |d|
    ensures |t| == |s|
  {
    seq(|s|, i requires 0 <= i < |s| => Flipped(s[i], d[i]))
  }

  lemma SpoiledDamage(s: seq<byte>, d: seq<bv8>)
    requires |s| == |d|
    ensures Damage(s, Spoiled(s, d)) == d
  {
    forall i | 0 <= i < |s|
      ensures Damage(s, Spoiled(s, d))[i] == d[i]
    {
      FlippedDiffers(s[i], d[i]);
    }
  }

  // Every message of at least six octets can be damaged in that way.
  lemma UnseenExists(p: seq<byte>) returns (q: seq<byte>)
    requires |p| >= 6
    ensures |q| == |p| && Unseen(p, q) && q != p && AgreeOutside(p, q, |p| - 6)
  {
    var n := |p| - 6;
    var end := Spoiled(p[n..], BEFORE + FIELD);
    SpoiledDamage(p[n..], BEFORE + FIELD);
    q := p[..n] + end;
    assert q[..n] == p[..n] && q[n..] == end;
    UnseenDiffers(p, q);
    LastTwoAgree(p, q);
  }

  lemma LastTwoAgree(p: seq<byte>, q: seq<byte>)
    requires |p| == |q| && Unseen(p, q)
    ensures AgreeOutside(p, q, |p| - 6)
  {
    var n := |p| - 6;
    var a, b := p[n..], q[n..];
    assert (BEFORE + FIELD)[4] == 0 && (BEFORE + FIELD)[5] == 0;
    assert Damage(a, b)[4] == Between(a[4], b[4]) && Damage(a, b)[5] == Between(a[5], b[5]);
    BetweenZero(a[4], b[4]);
    BetweenZero(a[5], b[5]);
    forall j | 0 <= j < n
      ensures p[j] == q[j]
    {
      assert p[..n][j] == q[..n][j];
    }
  }
}

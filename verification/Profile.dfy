// shared/ccsds/src/profile.c: one unsegmented Space Packet carrying a 16-octet
// profile header, a payload and a CRC-32 of everything before it.
module Profile {
  import opened Bytes
  import opened Options
  import opened Radio
  import opened SpacePacket
  import Crc32
  import CrcBoundary

  const VERSION: byte := 1
  const PROFILE_HEADER_SIZE: nat := 16
  const CRC_SIZE: nat := 4
  const FRONT: nat := HEADER_SIZE + PROFILE_HEADER_SIZE
  const OVERHEAD: nat := FRONT + CRC_SIZE
  const MAX_PAYLOAD: nat := MAX_DATA_SIZE - PROFILE_HEADER_SIZE - CRC_SIZE
  const SSDV_SIZE: nat := 214

  datatype Config = Config(bits: byte, block: byte, interval: u16, signed: bool, preprocess: bool, restricted: bool) {
    // ccsds_121_validate_config
    predicate Legal() {
      1 <= bits <= 32 && block in {8, 16, 32, 64} && 1 <= interval <= 4096 && (restricted ==> bits <= 4)
    }

    // config_flags
    function Flags(): (f: byte)
      ensures f < 8
    {
      (if signed then 1 else 0) + (if preprocess then 2 else 0) + (if restricted then 4 else 0)
    }
  }

  const NO_CONFIG := Config(0, 0, 0, false, false, false)

  // route_for_content: the APID and the packet kind.
  function Route(content: nat): Option<(nat, nat)> {
    if content == RAW then Some((0x001, 0))
    else if content == COMPRESSED then Some((0x002, 0))
    else if content == SSDV then Some((0x003, 0))
    else if content == COMMAND then Some((0x100, 1))
    else None
  }

  // validate_content
  function Validate(content: nat, items: u32, config: Option<Config>, payloadLength: nat): Option<Status> {
    if Route(content).None? then Some(Unsupported)
    else if content == COMPRESSED then
      if config.None? || items == 0 || payloadLength == 0 || !config.value.Legal() then Some(Range) else None
    else if config.Some? then Some(Range)
    else if content == SSDV && (payloadLength != SSDV_SIZE || items != 1) then Some(Range)
    else None
  }

  // ----- building -----

  function ConfigField(config: Option<Config>): (s: seq<byte>)
    ensures |s| == 5
  {
    match config
    case None => [0, 0, 0, 0, 0]
    case Some(c) => [c.Flags(), c.bits, c.block] + WriteU16(c.interval)
  }

  function ProfileHeader(content: byte, items: u32, config: Option<Config>, payloadLength: u32): (s: seq<byte>)
    ensures |s| == PROFILE_HEADER_SIZE
  {
    [VERSION, content] + ConfigField(config) + [0] + WriteU32(items) + WriteU32(payloadLength)
  }

  function PacketHeader(content: nat, count: nat): (h: Header)
    requires Route(content).Some? && count <= MAX_COUNT
    ensures h.Valid()
  {
    var (apid, kind) := Route(content).value;
    Header(kind, true, apid, UNSEGMENTED, count)
  }

  // What the CRC covers.
  function Covered(content: nat, count: nat, items: u32, config: Option<Config>, payload: seq<byte>): (s: seq<byte>)
    requires Route(content).Some? && count <= MAX_COUNT && |payload| <= MAX_PAYLOAD
    ensures |s| == |payload| + OVERHEAD - CRC_SIZE
  {
    WriteHeader(PacketHeader(content, count), PROFILE_HEADER_SIZE + |payload| + CRC_SIZE)
    + ProfileHeader(content, items, config, |payload|)
    + payload
  }

  function Sealed(covered: seq<byte>): (p: seq<byte>)
    ensures |p| == |covered| + CRC_SIZE
  {
    covered + WriteU32(Crc32.Crc(covered))
  }

  // Why lg_ccsds_profile_build refuses, if it does.
  function BuildError(content: nat, count: u16, items: u32, config: Option<Config>, payloadLength: nat,
                      capacity: nat): Option<Status> {
    if count > MAX_COUNT || payloadLength > MAX_PAYLOAD then Some(Range)
    else if capacity < payloadLength + OVERHEAD then Some(BufferTooSmall)
    else Validate(content, items, config, payloadLength)
  }

  // lg_ccsds_profile_build
  function Build(content: nat, count: u16, items: u32, config: Option<Config>, payload: seq<byte>, capacity: nat)
    : Result<seq<byte>>
  {
    match BuildError(content, count, items, config, |payload|, capacity)
    case Some(status) => Failure(status)
    case None => Success(Sealed(Covered(content, count, items, config, payload)))
  }

  // ----- parsing -----

  datatype ProfileView = ProfileView(packet: View, content: nat, count: nat, items: u32, config: Config,
                                     payload: seq<byte>, crc: u32)
  {
    function OptionalConfig(): Option<Config> {
      if content == COMPRESSED then Some(config) else None
    }
  }

  // parse_compression_config, without its last check
  function ReadConfig(ph: seq<byte>): Config
    requires |ph| == PROFILE_HEADER_SIZE
  {
    Config(ph[3], ph[4], ReadU16(ph[5..7]), ph[2] % 2 == 1, ph[2] / 2 % 2 == 1, ph[2] / 4 % 2 == 1)
  }

  predicate ConfigFieldAcceptable(content: nat, ph: seq<byte>)
    requires |ph| == PROFILE_HEADER_SIZE
  {
    if content == COMPRESSED then ph[2] < 8 && ReadConfig(ph).Legal()
    else ph[2..7] == [0, 0, 0, 0, 0]
  }

  // The checks after the CRC, on the space packet's header, the profile header
  // and the length of the data they are in.
  function ProfileError(h: Header, ph: seq<byte>, dataLength: nat): Option<Status>
    requires |ph| == PROFILE_HEADER_SIZE && dataLength >= PROFILE_HEADER_SIZE + CRC_SIZE
  {
    var content := ph[1];
    if ph[0] != VERSION then Some(Unsupported)
    else if ph[7] != 0 then Some(InvalidFormat)
    else if Route(content).None? then Some(Unsupported)
    else if (h.apid, h.kind) != Route(content).value then Some(InvalidFormat)
    else if ReadU32(ph[12..16]) != dataLength - PROFILE_HEADER_SIZE - CRC_SIZE then Some(InvalidFormat)
    else if !ConfigFieldAcceptable(content, ph) then Some(InvalidFormat)
    else
      var config := if content == COMPRESSED then Some(ReadConfig(ph)) else None;
      if Validate(content, ReadU32(ph[8..12]), config, ReadU32(ph[12..16])).Some? then Some(InvalidFormat) else None
  }

  function CoveredPart(p: seq<byte>): seq<byte>
    requires |p| >= OVERHEAD
  {
    p[..|p| - CRC_SIZE]
  }

  function CrcField(p: seq<byte>): (s: seq<byte>)
    requires |p| >= OVERHEAD
    ensures |s| == CRC_SIZE
  {
    p[|p| - CRC_SIZE..]
  }

  function HeaderPart(p: seq<byte>): (s: seq<byte>)
    requires |p| >= OVERHEAD
    ensures |s| == PROFILE_HEADER_SIZE
  {
    p[HEADER_SIZE..FRONT]
  }

  function PayloadPart(p: seq<byte>): seq<byte>
    requires |p| >= OVERHEAD
  {
    p[FRONT..|p| - CRC_SIZE]
  }

  // The checks before the CRC: p is one whole packet, of the profile's shape.
  function ShapeError(p: seq<byte>): Option<Status>
    ensures ShapeError(p).None? ==> |p| >= OVERHEAD
  {
    match SpacePacket.Parse(p)
    case Failure(status) => Some(status)
    case Success(v) =>
      if v.total != |p| || !v.header.secondary || v.header.flags != UNSEGMENTED
         || |v.data| < PROFILE_HEADER_SIZE + CRC_SIZE
      then Some(InvalidFormat) else None
  }

  function Describe(p: seq<byte>): ProfileView
    requires |p| >= OVERHEAD
  {
    var h, ph := ReadHeader(p), HeaderPart(p);
    ProfileView(View(h, p[HEADER_SIZE..], |p|), ph[1], h.count, ReadU32(ph[8..12]),
                if ph[1] == COMPRESSED then ReadConfig(ph) else NO_CONFIG,
                PayloadPart(p), ReadU32(CrcField(p)))
  }

  // lg_ccsds_profile_parse
  function Parse(p: seq<byte>): Result<ProfileView> {
    match ShapeError(p)
    case Some(status) => Failure(status)
    case None =>
      if ReadU32(CrcField(p)) != Crc32.Crc(CoveredPart(p)) then Failure(CrcMismatch) else
      match ProfileError(ReadHeader(p), HeaderPart(p), |p| - HEADER_SIZE)
      case Some(status) => Failure(status)
      case None => Success(Describe(p))
  }

  predicate Valid(p: seq<byte>) {
    Parse(p).Success?
  }

  // ----- building, then parsing -----

  lemma ConfigRoundTrip(content: byte, items: u32, config: Option<Config>, payloadLength: u32)
    requires Validate(content, items, config, payloadLength).None?
    ensures var ph := ProfileHeader(content, items, config, payloadLength);
            && ConfigFieldAcceptable(content, ph)
            && (if content == COMPRESSED then config == Some(ReadConfig(ph)) else config.None?)
  {
    var ph := ProfileHeader(content, items, config, payloadLength);
    assert ph[2..7] == ConfigField(config);
    if content == COMPRESSED {
      var c := config.value;
      assert ph[5..7] == ConfigField(config)[3..5] == WriteU16(c.interval);
      U16RoundTrip(c.interval);
    }
  }

  lemma ProfileHeaderFields(content: byte, items: u32, config: Option<Config>, payloadLength: u32)
    ensures var ph := ProfileHeader(content, items, config, payloadLength);
            && ph[0] == VERSION && ph[1] == content && ph[7] == 0
            && ReadU32(ph[8..12]) == items && ReadU32(ph[12..16]) == payloadLength
  {
    var ph := ProfileHeader(content, items, config, payloadLength);
    assert ph[8..12] == WriteU32(items) && ph[12..16] == WriteU32(payloadLength);
    U32RoundTrip(items);
    U32RoundTrip(payloadLength);
  }

  lemma PartsOfSealed(header: seq<byte>, ph: seq<byte>, payload: seq<byte>)
    requires |header| == HEADER_SIZE && |ph| == PROFILE_HEADER_SIZE
    ensures var covered := header + ph + payload;
            var p := Sealed(covered);
            && CoveredPart(p) == covered && CrcField(p) == WriteU32(Crc32.Crc(covered))
            && HeaderPart(p) == ph && PayloadPart(p) == payload && p == header + p[HEADER_SIZE..]
  {
  }

  // A packet that is built has the shape and the fields the parser asks for.
  lemma BuiltShape(content: nat, count: u16, items: u32, config: Option<Config>, payload: seq<byte>)
    requires Route(content).Some? && count <= MAX_COUNT && |payload| <= MAX_PAYLOAD
    ensures var p := Sealed(Covered(content, count, items, config, payload));
            && |p| == |payload| + OVERHEAD && ShapeError(p).None?
            && ReadHeader(p) == PacketHeader(content, count)
            && HeaderPart(p) == ProfileHeader(content, items, config, |payload|) && PayloadPart(p) == payload
            && ReadU32(CrcField(p)) == Crc32.Crc(CoveredPart(p))
  {
    var h := PacketHeader(content, count);
    var dataLength := PROFILE_HEADER_SIZE + |payload| + CRC_SIZE;
    var ph := ProfileHeader(content, items, config, |payload|);
    var covered := Covered(content, count, items, config, payload);
    PartsOfSealed(WriteHeader(h, dataLength), ph, payload);
    HeaderRoundTrip(h, dataLength, Sealed(covered)[HEADER_SIZE..]);
    U32RoundTrip(Crc32.Crc(covered));
  }

  lemma BuiltProfile(content: nat, count: nat, items: u32, config: Option<Config>, payloadLength: nat)
    requires Validate(content, items, config, payloadLength).None?
    requires count <= MAX_COUNT && payloadLength <= MAX_PAYLOAD
    ensures var ph := ProfileHeader(content, items, config, payloadLength);
            && ProfileError(PacketHeader(content, count), ph, PROFILE_HEADER_SIZE + payloadLength + CRC_SIZE).None?
            && ph[1] as nat == content && ReadU32(ph[8..12]) == items
            && (content == COMPRESSED ==> config == Some(ReadConfig(ph))) && (content != COMPRESSED ==> config.None?)
  {
    ProfileHeaderFields(content, items, config, payloadLength);
    ConfigRoundTrip(content, items, config, payloadLength);
  }

  // Parsing a built packet gives back everything it was built from.
  lemma BuildThenParse(content: nat, count: u16, items: u32, config: Option<Config>, payload: seq<byte>, capacity: nat)
    requires Build(content, count, items, config, payload, capacity).Success?
    ensures var p := Build(content, count, items, config, payload, capacity).value;
            && |p| == |payload| + OVERHEAD <= capacity
            && Valid(p)
            && var v := Parse(p).value;
               && v.content == content && v.count == count && v.items == items
               && v.OptionalConfig() == config && v.payload == payload
               && v.packet == View(PacketHeader(content, count), p[6..], |p|)
               && v.crc == ReadU32(p[|p| - 4..]) && (config.None? ==> v.config == NO_CONFIG)
  {
    BuiltShape(content, count, items, config, payload);
    BuiltProfile(content, count, items, config, |payload|);
  }

  // ----- parsing, then building -----

  lemma ConfigCanonical(content: nat, ph: seq<byte>)
    requires |ph| == PROFILE_HEADER_SIZE && ConfigFieldAcceptable(content, ph)
    ensures ConfigField(if content == COMPRESSED then Some(ReadConfig(ph)) else None) == ph[2..7]
  {
    if content == COMPRESSED {
      U16Canonical(ph[5..7]);
      var c := ReadConfig(ph);
      assert c.Flags() == ph[2];
      assert ph[2..7] == [ph[2], ph[3], ph[4]] + ph[5..7];
    }
  }

  lemma ProfileHeaderCanonical(h: Header, ph: seq<byte>, dataLength: nat)
    requires |ph| == PROFILE_HEADER_SIZE && dataLength >= PROFILE_HEADER_SIZE + CRC_SIZE
    requires ProfileError(h, ph, dataLength).None?
    ensures ProfileHeader(ph[1], ReadU32(ph[8..12]),
                          if ph[1] == COMPRESSED then Some(ReadConfig(ph)) else None, ReadU32(ph[12..16])) == ph
  {
    U32Canonical(ph[8..12]);
    U32Canonical(ph[12..16]);
    ConfigCanonical(ph[1], ph);
    assert ph == [ph[0], ph[1]] + ph[2..7] + [ph[7]] + ph[8..12] + ph[12..16];
  }

  lemma CoveredParts(p: seq<byte>)
    requires |p| >= OVERHEAD
    ensures CoveredPart(p) == p[..HEADER_SIZE] + HeaderPart(p) + PayloadPart(p)
  {
  }

  // What was parsed could have been built.
  lemma ParsedIsBuildable(p: seq<byte>)
    requires Valid(p)
    ensures var v := Parse(p).value;
            BuildError(v.content, v.count, v.items, v.OptionalConfig(), |v.payload|, |p|).None?
  {
  }

  lemma HeadersRebuilt(p: seq<byte>)
    requires Valid(p)
    ensures var h, ph := ReadHeader(p), HeaderPart(p);
            && Route(ph[1]).Some?
            && WriteHeader(PacketHeader(ph[1], h.count), |p| - HEADER_SIZE) == p[..HEADER_SIZE]
            && ProfileHeader(ph[1], ReadU32(ph[8..12]), Parse(p).value.OptionalConfig(), ReadU32(ph[12..16])) == ph
  {
    var h, ph := ReadHeader(p), HeaderPart(p);
    HeaderCanonical(p);
    ProfileHeaderCanonical(h, ph, |p| - HEADER_SIZE);
    assert PacketHeader(ph[1], h.count) == h;
  }

  lemma CoveredIsRebuilt(p: seq<byte>)
    requires Valid(p)
    ensures var v := Parse(p).value;
            && BuildError(v.content, v.count, v.items, v.OptionalConfig(), |v.payload|, |p|).None?
            && Covered(v.content, v.count, v.items, v.OptionalConfig(), v.payload) == CoveredPart(p)
  {
    ParsedIsBuildable(p);
    HeadersRebuilt(p);
    CoveredParts(p);
    var v, ph := Parse(p).value, HeaderPart(p);
    assert v == Describe(p);
    assert v.content == ph[1] && v.items == ReadU32(ph[8..12]) && v.payload == PayloadPart(p);
    assert |v.payload| == ReadU32(ph[12..16]);
  }

  lemma TwoParts(p: seq<byte>)
    requires |p| >= OVERHEAD
    ensures p == CoveredPart(p) + CrcField(p)
  {
  }

  // Building from what was parsed reproduces the packet octet for octet, so no
  // two packets parse alike.
  lemma ParseThenBuild(p: seq<byte>)
    requires Valid(p)
    ensures var v := Parse(p).value;
            Build(v.content, v.count, v.items, v.OptionalConfig(), v.payload, |p|) == Success(p)
  {
    CoveredIsRebuilt(p);
    U32Canonical(CrcField(p));
    TwoParts(p);
  }

  // ----- corruption -----

  // A burst of at most 32 bits anywhere before the CRC field is never accepted.
  lemma BurstRejected(p: seq<byte>, q: seq<byte>, from: nat)
    requires Valid(p) && |q| == |p| && q != p
    requires CrcField(q) == CrcField(p)
    requires Crc32.DifferOnlyInBurst(CoveredPart(p), CoveredPart(q), from)
    ensures !Valid(q)
  {
    TwoParts(p);
    TwoParts(q);
    Crc32.BurstDetected(CoveredPart(p), CoveredPart(q), from);
  }

  lemma SameFront(p: seq<byte>, q: seq<byte>)
    requires |p| == |q| >= OVERHEAD && p[..FRONT] == q[..FRONT]
    ensures ShapeError(q).None? == ShapeError(p).None?
    ensures ReadHeader(q) == ReadHeader(p) && HeaderPart(q) == HeaderPart(p)
  {
    assert forall i :: 0 <= i < FRONT ==> p[i] == p[..FRONT][i] == q[..FRONT][i] == q[i];
    assert q[0..2] == p[0..2] && q[2..4] == p[2..4] && q[4..6] == p[4..6];
  }

  // Damage to the CRC field alone is reported as a CRC mismatch.
  lemma DamagedCrcRejected(p: seq<byte>, q: seq<byte>)
    requires Valid(p) && |q| == |p| && q != p
    requires CoveredPart(q) == CoveredPart(p)
    ensures Parse(q) == Failure(CrcMismatch)
  {
    TwoParts(p);
    TwoParts(q);
    if ReadU32(CrcField(p)) == ReadU32(CrcField(q)) {
      U32ReadInjective(CrcField(p), CrcField(q));
    }
    assert p[..FRONT] == CoveredPart(p)[..FRONT] == CoveredPart(q)[..FRONT] == q[..FRONT];
    SameFront(p, q);
  }

  lemma CrcPasses(p: seq<byte>)
    requires |p| >= OVERHEAD
    ensures CrcBoundary.Passes(p) <==> ReadU32(CrcField(p)) == Crc32.Crc(CoveredPart(p))
  {
  }

  // Behind the profile header, damage that passes the CRC check is not noticed.
  lemma PayloadDamageUnnoticed(p: seq<byte>, q: seq<byte>)
    requires Valid(p) && |q| == |p| && |PayloadPart(p)| >= 2
    requires CrcBoundary.Unseen(p, q) && CrcBoundary.Passes(q)
    ensures Valid(q)
  {
    assert p[..FRONT] == p[..|p| - 6][..FRONT] == q[..|p| - 6][..FRONT] == q[..FRONT];
    SameFront(p, q);
    CrcPasses(q);
  }

  // A payload of at most one octet leaves the pattern on the payload's length.
  lemma LengthDamageNoticed(p: seq<byte>, q: seq<byte>)
    requires Valid(p) && |q| == |p| && |PayloadPart(p)| < 2
    requires CrcBoundary.Unseen(p, q)
    ensures !Valid(q)
  {
    CrcBoundary.UnseenDiffers(p, q);
    var last := FRONT - 1;
    assert q[last] != p[last];
    var a, b := HeaderPart(p)[12..16], HeaderPart(q)[12..16];
    assert a[3] == p[last] && b[3] == q[last];
    if Valid(q) {
      assert ReadU32(a) == ReadU32(b);
      U32ReadInjective(a, b);
    }
  }

  // A change of four consecutive octets, the CRC field included, is accepted
  // exactly if it is the one pattern the CRC does not see and lies behind the
  // profile header.
  lemma FourOctetsAccepted(p: seq<byte>, q: seq<byte>, i: nat)
    requires Valid(p) && |q| == |p| && q != p && CrcBoundary.AgreeOutside(p, q, i)
    ensures Valid(q) <==> CrcBoundary.Unseen(p, q) && |PayloadPart(p)| >= 2
  {
    CrcPasses(p);
    CrcPasses(q);
    CrcBoundary.FourOctetsPass(p, q, i);
    if CrcBoundary.Unseen(p, q) {
      if |PayloadPart(p)| >= 2 {
        PayloadDamageUnnoticed(p, q);
      } else {
        LengthDamageNoticed(p, q);
      }
    }
  }

  // Every valid packet with such a payload can be so damaged that it is accepted
  // as another one.
  lemma DamagedYetAccepted(p: seq<byte>) returns (q: seq<byte>)
    requires Valid(p) && |PayloadPart(p)| >= 2
    ensures |q| == |p| && q != p && CrcBoundary.AgreeOutside(p, q, |p| - 6)
    ensures Valid(q) && Parse(q).value.payload != Parse(p).value.payload
  {
    q := CrcBoundary.UnseenExists(p);
    FourOctetsAccepted(p, q, |p| - 6);
    CrcBoundary.UnseenDiffers(p, q);
    assert PayloadPart(p)[|PayloadPart(p)| - 2] == p[|p| - 6] && PayloadPart(q)[|PayloadPart(q)| - 2] == q[|p| - 6];
  }

  // ----- codes and statuses -----

  // The APIDs and packet kinds that the mission has assigned.
  lemma Routes(content: nat)
    ensures Route(content) ==
            if content == 0 then Some((1, 0)) else if content == 1 then Some((2, 0))
            else if content == 2 then Some((3, 0)) else if content == 3 then Some((256, 1)) else None
  {
  }

  // The profile header octet by octet
  lemma ProfileHeaderOctets(content: byte, items: u32, config: Option<Config>, payloadLength: u32)
    ensures var s := ProfileHeader(content, items, config, payloadLength);
            && s[0] == 1 && s[1] == content && s[7] == 0
            && (config.None? ==> s[2..7] == [0, 0, 0, 0, 0])
            && (config.Some? ==>
                  var c := config.value;
                  && (s[2] % 2 == 1 <==> c.signed) && (s[2] / 2 % 2 == 1 <==> c.preprocess)
                  && (s[2] / 4 % 2 == 1 <==> c.restricted) && s[2] < 8
                  && s[3] == c.bits && s[4] == c.block
                  && s[5] as nat == c.interval / 256 && s[6] as nat == c.interval % 256)
            && s[8] as nat == items / 0x100_0000 && s[9] as nat == items / 0x1_0000 % 256
            && s[10] as nat == items / 256 % 256 && s[11] as nat == items % 256
            && s[12] as nat == payloadLength / 0x100_0000 && s[13] as nat == payloadLength / 0x1_0000 % 256
            && s[14] as nat == payloadLength / 256 % 256 && s[15] as nat == payloadLength % 256
  {
  }

  // What may be sent: compressed telemetry with a legal config, an SSDV packet of
  // 214 octets, and anything else of a known type without a config.
  predicate Sendable(content: nat, items: nat, config: Option<Config>, payloadLength: nat) {
    && content < 4
    && (content == 1 ==>
          && config.Some? && items > 0 && payloadLength > 0
          && 1 <= config.value.bits <= 32 && config.value.block in {8, 16, 32, 64}
          && 1 <= config.value.interval <= 4096 && (config.value.restricted ==> config.value.bits <= 4))
    && (content != 1 ==> config.None?)
    && (content == 2 ==> payloadLength == 214 && items == 1)
  }

  // Which result the builder gives: limits come first, then room, then the content.
  lemma BuildTells(content: nat, count: u16, items: u32, config: Option<Config>, payload: seq<byte>, capacity: nat)
    ensures var r := Build(content, count, items, config, payload, capacity);
            var limits, room := count < 0x4000 && |payload| <= 65516, |payload| + 26 <= capacity;
            && (r.Success? <==> limits && room && Sendable(content, items, config, |payload|))
            && (r == Failure(BufferTooSmall) <==> limits && !room)
            && (r == Failure(Unsupported) <==> limits && room && content >= 4)
            && (r == Failure(Range) <==>
                  !limits || (room && content < 4 && !Sendable(content, items, config, |payload|)))
  {
  }

  // Which status a packet is refused with, the checks before the CRC ...
  lemma ShapeTells(p: seq<byte>)
    ensures ShapeError(p) == Some(BufferTooSmall) <==> SpacePacket.Parse(p) == Failure(BufferTooSmall)
    ensures ShapeError(p) == Some(Unsupported) <==> SpacePacket.Parse(p) == Failure(Unsupported)
    ensures ShapeError(p) == Some(InvalidFormat) <==>
              && SpacePacket.Parse(p).Success?
              && var v := SpacePacket.Parse(p).value;
                 |p| != v.total || !v.header.secondary || v.header.flags != 3 || v.total < 26
    ensures ShapeError(p) in {None, Some(BufferTooSmall), Some(Unsupported), Some(InvalidFormat)}
  {
    ParseTells(p);
  }

  // ... the CRC, and the checks after it.
  lemma ParseStatusTells(p: seq<byte>)
    ensures ShapeError(p).Some? ==> Parse(p) == Failure(ShapeError(p).value)
    ensures Parse(p) == Failure(CrcMismatch) <==>
              ShapeError(p).None? && ReadU32(p[|p| - 4..]) != Crc32.Crc(p[..|p| - 4])
    ensures ShapeError(p).None? && ReadU32(p[|p| - 4..]) == Crc32.Crc(p[..|p| - 4]) ==>
              && (Parse(p) == Failure(Unsupported) <==> p[6] != 1 || (p[13] == 0 && p[7] >= 4))
              && (Parse(p).Success? || Parse(p) == Failure(Unsupported) || Parse(p) == Failure(InvalidFormat))
  {
    ShapeTells(p);
  }
}

// The buffer-writing and buffer-reading forms of shared/ccsds/src/profile.c.
module ProfileCodec {
  import opened Bytes
  import opened Options
  import opened SpacePacket
  import opened Profile
  import opened Radio
  import Crc32

  // Appends the CRC of the first n octets.
  method Seal(output: array<byte>, n: nat)
    requires n + CRC_SIZE <= output.Length
    modifies output
    ensures output[..n + CRC_SIZE] == Sealed(old(output[..n]))
    ensures output[n + CRC_SIZE..] == old(output[n + CRC_SIZE..])
  {
    var crc := Crc32.Compute(output, n);
    Copy(output, n, WriteU32(crc));
  }

  method StorePacket(content: nat, count: u16, items: u32, config: Option<Config>, payload: seq<byte>,
                     output: array<byte>) returns (total: nat)
    requires BuildError(content, count, items, config, |payload|, output.Length).None?
    modifies output
    ensures total == |payload| + OVERHEAD
    ensures output[..total] == Sealed(Covered(content, count, items, config, payload))
    ensures output[total..] == old(output[total..])
  {
    total := |payload| + OVERHEAD;
    Copy(output, 0, WriteHeader(PacketHeader(content, count), total - HEADER_SIZE));
    assert output[total..] == old(output[total..]);
    Copy(output, HEADER_SIZE, ProfileHeader(content, items, config, |payload|));
    assert output[total..] == old(output[total..]);
    Copy(output, HEADER_SIZE + PROFILE_HEADER_SIZE, payload);
    assert output[..total - CRC_SIZE] == Covered(content, count, items, config, payload);
    assert output[total..] == old(output[total..]);
    Seal(output, total - CRC_SIZE);
  }

  // lg_ccsds_profile_build: nothing is stored before the last check has passed.
  method BuildInto(content: nat, count: u16, items: u32, config: Option<Config>, payload: seq<byte>,
                   output: array<byte>) returns (r: Result<nat>)
    modifies output
    ensures match Build(content, count, items, config, payload, output.Length)
            case Failure(status) => r == Failure(status) && output[..] == old(output[..])
            case Success(p) =>
              r == Success(|p|) && |p| <= output.Length
              && output[..|p|] == p && output[|p|..] == old(output[|p|..])
  {
    if count > MAX_COUNT || |payload| > MAX_PAYLOAD {
      return Failure(Range);
    }
    if output.Length < |payload| + OVERHEAD {
      return Failure(BufferTooSmall);
    }
    var invalid := Validate(content, items, config, |payload|);
    if invalid.Some? {
      return Failure(invalid.value);
    }
    var total := StorePacket(content, count, items, config, payload, output);
    return Success(total);
  }

  // The part of lg_ccsds_profile_parse that follows the CRC check.
  method CheckProfile(h: Header, ph: seq<byte>, dataLength: nat) returns (e: Option<Status>)
    requires |ph| == PROFILE_HEADER_SIZE && dataLength >= PROFILE_HEADER_SIZE + CRC_SIZE
    ensures e == ProfileError(h, ph, dataLength)
  {
    var content := ph[1];
    if ph[0] != VERSION {
      return Some(Unsupported);
    }
    if ph[7] != 0 {
      return Some(InvalidFormat);
    }
    var route := Route(content);
    if route.None? {
      return Some(Unsupported);
    }
    if h.apid != route.value.0 || h.kind != route.value.1 {
      return Some(InvalidFormat);
    }
    if ReadU32(ph[12..16]) != dataLength - PROFILE_HEADER_SIZE - CRC_SIZE {
      return Some(InvalidFormat);
    }
    var config := None;
    if content == COMPRESSED {
      var c := ReadConfig(ph);
      if ph[2] >= 8 || !c.Legal() {
        return Some(InvalidFormat);
      }
      config := Some(c);
    } else if ph[2] != 0 || ph[3] != 0 || ph[4] != 0 || ph[5] != 0 || ph[6] != 0 {
      assert ph[2..7][0] == ph[2] && ph[2..7][1] == ph[3] && ph[2..7][2] == ph[4]
             && ph[2..7][3] == ph[5] && ph[2..7][4] == ph[6];
      return Some(InvalidFormat);
    }
    if Validate(content, ReadU32(ph[8..12]), config, ReadU32(ph[12..16])).Some? {
      return Some(InvalidFormat);
    }
    return None;
  }

  // Whether the last four octets are the CRC of the others.
  method CheckCrc(packet: array<byte>, length: nat) returns (ok: bool)
    requires OVERHEAD <= length <= packet.Length
    ensures var p := packet[..length];
            ok == (ReadU32(CrcField(p)) == Crc32.Crc(CoveredPart(p)))
  {
    var calculated := Crc32.Compute(packet, length - CRC_SIZE);
    var transmitted := ReadU32(packet[length - CRC_SIZE..length]);
    assert CrcField(packet[..length]) == packet[length - CRC_SIZE..length];
    assert CoveredPart(packet[..length]) == packet[..length - CRC_SIZE];
    return transmitted == calculated;
  }

  // lg_ccsds_profile_parse
  method ParseFrom(packet: array<byte>, length: nat) returns (r: Result<ProfileView>)
    requires length <= packet.Length
    ensures r == Profile.Parse(packet[..length])
  {
    var p := packet[..length];
    var malformed := ShapeError(p);
    if malformed.Some? {
      return Failure(malformed.value);
    }
    var intact := CheckCrc(packet, length);
    if !intact {
      return Failure(CrcMismatch);
    }
    var e := CheckProfile(ReadHeader(p), HeaderPart(p), length - HEADER_SIZE);
    if e.Some? {
      return Failure(e.value);
    }
    return Success(Describe(p));
  }
}

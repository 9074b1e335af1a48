// shared/ccsds/src/space_packet.c: the six-octet primary header of section
// 4.1.3 of CCSDS 133.0-B-2.
//
// The source packs bit fields with shifts and `|`; the fields never overlap, so
// the model adds them.
module SpacePacket {
  import opened Bytes

  const HEADER_SIZE: nat := 6
  const MAX_DATA_SIZE: nat := 65536
  const MAX_APID: nat := 0x7FF
  const MAX_COUNT: nat := 0x3FFF
  const UNSEGMENTED: nat := 3

  datatype Status = Null | Range | BufferTooSmall | InvalidFormat | CrcMismatch | Unsupported

  datatype Result<+T> = Success(value: T) | Failure(status: Status)

  // kind is 0 for telemetry and 1 for a command.
  datatype Header = Header(kind: nat, secondary: bool, apid: nat, flags: nat, count: nat) {
    // validate_header
    predicate Valid() {
      kind <= 1 && apid <= MAX_APID && flags <= UNSEGMENTED && count <= MAX_COUNT
    }
  }

  datatype View = View(header: Header, data: seq<byte>, total: nat)

  // ccsds_space_packet_write_header, once its arguments are accepted
  function WriteHeader(h: Header, dataLength: nat): (s: seq<byte>)
    requires h.Valid() && 0 < dataLength <= MAX_DATA_SIZE
    ensures |s| == HEADER_SIZE
  {
    WriteU16(h.kind * 0x1000 + (if h.secondary then 0x800 else 0) + h.apid)
    + WriteU16(h.flags * 0x4000 + h.count)
    + WriteU16(dataLength - 1)
  }

  function ReadHeader(s: seq<byte>): (h: Header)
    requires |s| >= HEADER_SIZE
    ensures h.Valid()
  {
    var id, control := ReadU16(s[0..2]), ReadU16(s[2..4]);
    Header(id / 0x1000 % 2, id / 0x800 % 2 == 1, id % 0x800, control / 0x4000, control % 0x4000)
  }

  // The three version bits above the fields that ReadHeader returns.
  function Version(s: seq<byte>): nat
    requires |s| >= 1
  {
    s[0] / 32
  }

  // The whole packet's size, from the length field.
  function TotalSize(s: seq<byte>): (n: nat)
    requires |s| >= HEADER_SIZE
    ensures HEADER_SIZE < n <= HEADER_SIZE + MAX_DATA_SIZE
  {
    HEADER_SIZE + ReadU16(s[4..6]) + 1
  }

  // ccsds_space_packet_parse
  function Parse(input: seq<byte>): Result<View> {
    if |input| < HEADER_SIZE then Failure(BufferTooSmall)
    else if Version(input) != 0 then Failure(Unsupported)
    else if |input| < TotalSize(input) then Failure(BufferTooSmall)
    else Success(View(ReadHeader(input), input[HEADER_SIZE..TotalSize(input)], TotalSize(input)))
  }

  // A header that was written reads back, and its version is zero.
  lemma HeaderRoundTrip(h: Header, dataLength: nat, rest: seq<byte>)
    requires h.Valid() && 0 < dataLength <= MAX_DATA_SIZE
    ensures var s := WriteHeader(h, dataLength) + rest;
            ReadHeader(s) == h && Version(s) == 0 && TotalSize(s) == HEADER_SIZE + dataLength
  {
    var s := WriteHeader(h, dataLength) + rest;
    var id := h.kind * 0x1000 + (if h.secondary then 0x800 else 0) + h.apid;
    var control := h.flags * 0x4000 + h.count;
    assert s[0..2] == WriteU16(id) && s[2..4] == WriteU16(control) && s[4..6] == WriteU16(dataLength - 1);
    U16RoundTrip(id);
    U16RoundTrip(control);
    U16RoundTrip(dataLength - 1);
  }

  // Six octets of version zero are what writing their own fields gives.
  lemma HeaderCanonical(s: seq<byte>)
    requires |s| >= HEADER_SIZE && Version(s) == 0
    ensures WriteHeader(ReadHeader(s), TotalSize(s) - HEADER_SIZE) == s[..HEADER_SIZE]
  {
    U16Canonical(s[0..2]);
    U16Canonical(s[2..4]);
    U16Canonical(s[4..6]);
    var id, h := ReadU16(s[0..2]), ReadHeader(s);
    assert id < 0x2000;
    assert h.kind * 0x1000 + (if h.secondary then 0x800 else 0) + h.apid == id;
    assert s[..6] == s[0..2] + s[2..4] + s[4..6];
  }

  // The fields octet by octet, from the version in front to the length.
  lemma HeaderOctets(h: Header, dataLength: nat)
    requires h.Valid() && 0 < dataLength <= MAX_DATA_SIZE
    ensures var s := WriteHeader(h, dataLength);
            && s[0] as nat == 16 * h.kind + (if h.secondary then 8 else 0) + h.apid / 256
            && s[1] as nat == h.apid % 256
            && s[2] as nat == 64 * h.flags + h.count / 256 && s[3] as nat == h.count % 256
            && s[4] as nat == (dataLength - 1) / 256 && s[5] as nat == (dataLength - 1) % 256
  {
  }

  // Which result the parser gives: six octets come first, then version 0, then all
  // of the octets that the last two header octets claim.
  lemma ParseTells(input: seq<byte>)
    ensures Parse(input) == Failure(Unsupported) <==> |input| >= 6 && input[0] >= 32
    ensures Parse(input) == Failure(BufferTooSmall) <==>
              |input| < 6 || (input[0] < 32 && |input| < 7 + 256 * (input[4] as nat) + input[5])
    ensures Parse(input).Success? <==>
              |input| >= 6 && input[0] < 32 && |input| >= 7 + 256 * (input[4] as nat) + input[5]
    ensures Parse(input).Success? ==>
              var v, n := Parse(input).value, 7 + 256 * (input[4] as nat) + input[5];
              v.total == n && v.data == input[6..n] && v.header == ReadHeader(input)
  {
  }
}

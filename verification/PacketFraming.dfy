// How the transmit thread frames a chunk: lg_ccsds_profile_build as it is called at
// platform/common/radio_queue.c:112-113.
module PacketFraming {
  import opened Bytes
  import opened Options
  import opened Radio
  import P = Profile
  import opened Downlink

  // The queue builds with item count 1 and no compression config, into a
  // 240-octet buffer.
  function ProfileFraming(content: byte, count: nat, data: seq<byte>): Option<seq<byte>> {
    if count >= U16 then None else
    match P.Build(content, count, 1, None, data, MAX_PACKET)
    case Failure(_) => None
    case Success(p) => Some(p)
  }

  lemma BuiltPacket(content: byte, count: nat, data: seq<byte>)
    requires ProfileFraming(content, count, data).Some?
    ensures var p := ProfileFraming(content, count, data).value;
            && P.OVERHEAD <= |p| <= MAX_PACKET && P.Valid(p)
            && PacketCount(p) == count
            && P.Parse(p).value.content == content as nat && P.Parse(p).value.payload == data
            && P.Parse(p).value.count == count
            && P.Parse(p).value.items == 1 && P.Parse(p).value.packet.header == P.PacketHeader(content as nat, count)
  {
    P.BuildThenParse(content, count, 1, None, data, MAX_PACKET);
  }

  lemma ProfileFramingOk()
    ensures FramingOk(ProfileFraming)
  {
    forall content: byte, count: nat, data: seq<byte>
      ensures Framed(ProfileFraming, content, count, data)
    {
      if ProfileFraming(content, count, data).Some? {
        BuiltPacket(content, count, data);
      }
    }
  }

  // Compressed content can never be framed this way; every other chunk the queue
  // cuts always can.
  lemma FramedIffNotCompressed(content: byte, count: nat, data: seq<byte>)
    requires content as nat < CONTENT_TYPES && count < COUNT_MODULUS && |data| <= MAX_CHUNK
    requires content == SSDV ==> |data| == MAX_CHUNK
    ensures ProfileFraming(content, count, data).Some? <==> content as nat != COMPRESSED
  {
  }
}

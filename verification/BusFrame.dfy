// The frame of the comms bus: destination, source, a two-octet length and the
// payload.
//
// shared/interfaces/frame.h and shared/interfaces/frame.c
module BusFrame {
  import opened Bytes
  import opened Options

  const MAX_FRAME_PAYLOAD: nat := 264
  const FRAME_HEADER: nat := 4

  datatype Frame = Frame(destination: byte, source: byte, payload: seq<byte>)

  function Header(f: Frame): (s: seq<byte>)
    ensures |s| == FRAME_HEADER
  {
    [f.destination, f.source] + WriteU16(|f.payload| % U16)
  }

  function Wire(f: Frame): (s: seq<byte>)
    ensures |s| == FRAME_HEADER + |f.payload|
  {
    Header(f) + f.payload
  }

  predicate Fits(f: Frame) {
    |f.payload| <= MAX_FRAME_PAYLOAD
  }

  // frame_serialize, with room for so many octets
  function Serialize(f: Frame, room: nat): Option<seq<byte>> {
    if !Fits(f) || |f.payload| + FRAME_HEADER > room then None else Some(Wire(f))
  }

  // The payload length that the header in front of s claims
  function Claimed(s: seq<byte>): (n: nat)
    requires |s| >= FRAME_HEADER
    ensures n < U16
  {
    ReadU16(s[2..4])
  }

  // frame_deserialize
  function Deserialize(s: seq<byte>): Option<Frame> {
    if |s| < FRAME_HEADER then None
    else if Claimed(s) > MAX_FRAME_PAYLOAD || |s| != FRAME_HEADER + Claimed(s) then None
    else Some(Frame(s[0], s[1], s[4..]))
  }

  // Whatever follows a frame on the wire, the header in front tells where it ends
  // and the frame can be cut out.
  lemma WireInFront(f: Frame, rest: seq<byte>)
    requires Fits(f)
    ensures var s := Wire(f) + rest;
            && Claimed(s) == |f.payload|
            && s[..|Wire(f)|] == Wire(f) && s[|Wire(f)|..] == rest
  {
    var s := Wire(f) + rest;
    assert s[2..4] == WriteU16(|f.payload|);
    U16RoundTrip(|f.payload|);
  }

  // So it does when the header has arrived and the rest not yet.
  lemma HeaderTells(f: Frame, s: seq<byte>)
    requires Fits(f) && FRAME_HEADER <= |s| <= |Wire(f)| && s == Wire(f)[..|s|]
    ensures Claimed(s) == |f.payload|
  {
    assert s[2..4] == Wire(f)[2..4] == Header(f)[2..4];
    assert Header(f)[2..4] == WriteU16(|f.payload|);
    U16RoundTrip(|f.payload|);
  }

  lemma DeserializeWire(f: Frame)
    requires Fits(f)
    ensures Deserialize(Wire(f)) == Some(f)
  {
    WireInFront(f, []);
    assert Wire(f) + [] == Wire(f);
    assert Wire(f)[4..] == f.payload;
  }

  // What was serialized is read back ...
  lemma SerializeThenDeserialize(f: Frame, room: nat)
    requires Serialize(f, room).Some?
    ensures Deserialize(Serialize(f, room).value) == Some(f)
  {
    DeserializeWire(f);
  }

  // ... and what can be read is what serializing gives, in exactly its own room.
  lemma DeserializeThenSerialize(s: seq<byte>, room: nat)
    requires Deserialize(s).Some?
    ensures Serialize(Deserialize(s).value, room) == if |s| <= room then Some(s) else None
  {
    var f := Deserialize(s).value;
    U16Canonical(s[2..4]);
    assert s == [s[0], s[1]] + s[2..4] + s[4..];
    assert Wire(f) == s;
  }

  // A frame octet by octet; it is written exactly if it is not too long and fits the
  // room, and octets are read exactly if they are one whole frame.
  lemma FrameOctets(f: Frame, s: seq<byte>, room: nat)
    requires |f.payload| <= 264
    ensures var w := Wire(f);
            && |w| == 4 + |f.payload| && w[0] == f.destination && w[1] == f.source
            && w[2] as nat == |f.payload| / 256 && w[3] as nat == |f.payload| % 256 && w[4..] == f.payload
    ensures Serialize(f, room).Some? <==> 4 + |f.payload| <= room
    ensures Deserialize(s).Some? <==>
            |s| >= 4 && 256 * (s[2] as nat) + s[3] <= 264 && |s| == 4 + (256 * (s[2] as nat) + s[3])
  {
  }

  // frame_serialize
  method SerializeInto(f: Frame, output: array<byte>, room: nat) returns (n: int)
    requires room <= output.Length
    modifies output
    ensures match Serialize(f, room)
            case None => n == -1 && output[..] == old(output[..])
            case Some(s) => n == |s| <= room && output[..n] == s && output[n..] == old(output[n..])
  {
    if |f.payload| > MAX_FRAME_PAYLOAD {
      return -1;
    }
    if |f.payload| + FRAME_HEADER > room {
      return -1;
    }
    output[0] := f.destination;
    output[1] := f.source;
    output[2] := |f.payload| / 256;
    output[3] := |f.payload| % 256;
    Copy(output, FRAME_HEADER, f.payload);
    assert output[..4] == Header(f);
    return FRAME_HEADER + |f.payload|;
  }

  // frame_deserialize of the first n octets
  method DeserializeFrom(wire: array<byte>, n: nat) returns (f: Option<Frame>)
    requires n <= wire.Length
    ensures f == Deserialize(wire[..n])
  {
    if n < FRAME_HEADER {
      return None;
    }
    var length := (wire[2] as int) * 256 + wire[3];
    assert wire[..n][2..4] == [wire[2], wire[3]];
    if length > MAX_FRAME_PAYLOAD || n != FRAME_HEADER + length {
      return None;
    }
    assert wire[..n][4..] == wire[4..n];
    return Some(Frame(wire[0], wire[1], wire[4..n]));
  }
}

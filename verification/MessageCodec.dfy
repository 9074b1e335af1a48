// How messages lie in the ring of platform/common/radio_queue.c: one octet of
// content type, four of length, then the data.
module MessageCodec {
  import opened Bytes
  import opened Options
  import opened Downlink
  import opened Sequences

  function EncodeHeader(m: Message): (s: seq<byte>)
    ensures |s| == MESSAGE_HEADER
  {
    [m.content] + WriteU32(|m.data| % U32)
  }

  function Encode(m: Message): (s: seq<byte>)
    ensures |s| == MessageSize(m)
  {
    EncodeHeader(m) + m.data
  }

  function EncodeAll(ms: seq<Message>): (s: seq<byte>)
    ensures |s| == TotalSize(ms)
  {
    if ms == [] then [] else Encode(ms[0]) + EncodeAll(ms[1..])
  }

  // The octets in the ring: what is left of the current message, then whole
  // encoded messages.
  function RingImage(current: Message, waiting: seq<Message>): (s: seq<byte>)
    ensures |s| == |current.data| + TotalSize(waiting)
  {
    current.data + EncodeAll(waiting)
  }

  lemma {:induction false} EncodeAllAppend(ms: seq<Message>, m: Message)
    ensures EncodeAll(ms + [m]) == EncodeAll(ms) + Encode(m)
    decreases |ms|
  {
    if ms == [] {
      assert [] + [m] == [m];
      assert EncodeAll([m]) == Encode(m) + [];
    } else {
      assert (ms + [m])[1..] == ms[1..] + [m];
      EncodeAllAppend(ms[1..], m);
      Regroup(Encode(ms[0]), EncodeAll(ms[1..]), Encode(m));
    }
  }

  lemma RingImageAppend(current: Message, waiting: seq<Message>, m: Message)
    ensures RingImage(current, waiting + [m]) == RingImage(current, waiting) + EncodeHeader(m) + m.data
  {
    EncodeAllAppend(waiting, m);
    Regroup(current.data, EncodeAll(waiting), Encode(m));
    Regroup(RingImage(current, waiting), EncodeHeader(m), m.data);
  }

  lemma Front<T>(h: seq<T>, d: seq<T>, rest: seq<T>)
    requires |h| == 5
    ensures var s := (h + d) + rest;
            && s[0] == h[0] && s[1..5] == h[1..] && s[5..] == d + rest
            && s[5..5 + |d|] == d && s[5 + |d|..] == rest
  {
    Regroup(h, d, rest);
  }

  lemma LengthField(m: Message)
    requires |m.data| < U32
    ensures EncodeHeader(m)[0] == m.content && ReadU32(EncodeHeader(m)[1..]) == |m.data|
  {
    var field := WriteU32(|m.data|);
    assert EncodeHeader(m)[1..] == field;
    U32RoundTrip(|m.data|);
  }

  lemma FirstMessage(ms: seq<Message>)
    requires ms != [] && |ms[0].data| < U32
    ensures var s, m := EncodeAll(ms), ms[0];
            && |s| >= MessageSize(m)
            && s[0] == m.content && ReadU32(s[1..5]) == |m.data|
            && s[MESSAGE_HEADER..] == m.data + EncodeAll(ms[1..])
            && s[MESSAGE_HEADER..MessageSize(m)] == m.data && s[MessageSize(m)..] == EncodeAll(ms[1..])
  {
    var m := ms[0];
    Front(EncodeHeader(m), m.data, EncodeAll(ms[1..]));
    LengthField(m);
  }

  // When nothing is left of the current message, the ring begins with a header,
  // and what follows it is the next message.
  lemma HeaderInFront(current: Message, waiting: seq<Message>)
    requires current.data == [] && waiting != [] && |waiting[0].data| < U32
    ensures var s := RingImage(current, waiting);
            && |s| >= MESSAGE_HEADER + |waiting[0].data|
            && s[0] == waiting[0].content && ReadU32(s[1..5]) == |waiting[0].data|
            && s[MESSAGE_HEADER..] == RingImage(waiting[0], waiting[1..])
  {
    FirstMessage(waiting);
    assert [] + EncodeAll(waiting) == EncodeAll(waiting);
  }

  // Taking a chunk off the front leaves what is left of the message in front.
  lemma ChunkInFront(m: Message, waiting: seq<Message>)
    ensures var s, n := RingImage(m, waiting), |FirstChunk(m).data|;
            && n <= |m.data| && s[..n] == FirstChunk(m).data
            && s[n..] == RingImage(AfterChunk(m), waiting)
  {
    var n := |FirstChunk(m).data|;
    assert m.data == m.data[..n] + m.data[n..];
  }

  // The ring's octets determine the waiting messages: reading header, data,
  // header, data finds them again and ends exactly at the end.
  function DecodeAll(s: seq<byte>): Option<seq<Message>>
    decreases |s|
  {
    if s == [] then Some([])
    else if |s| < MESSAGE_HEADER then None
    else
      var n := MESSAGE_HEADER + ReadU32(s[1..5]);
      if |s| < n then None
      else
        match DecodeAll(s[n..])
        case None => None
        case Some(later) => Some([Message(s[0], s[MESSAGE_HEADER..n])] + later)
  }

  lemma {:induction false} DecodeEncoded(ms: seq<Message>)
    requires forall m :: m in ms ==> |m.data| < U32
    ensures DecodeAll(EncodeAll(ms)) == Some(ms)
    decreases |ms|
  {
    if ms != [] {
      FirstMessage(ms);
      DecodeEncoded(ms[1..]);
      assert ms == [ms[0]] + ms[1..];
    }
  }
}

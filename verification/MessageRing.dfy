// The ring of platform/common/radio_queue.c seen as messages: the transmit
// thread's `content` and `message_left` tell where in a message the ring begins.
module MessageRing {
  import opened Bytes
  import opened ByteRing
  import opened Downlink
  import opened MessageCodec
  import opened Radio

  class Store {
    const ring: Ring
    var content: byte
    var messageLeft: nat
    const header: array<byte>
    // What the octets in the ring stand for.
    ghost var current: Message
    ghost var waiting: seq<Message>

    // The framing invariant: unread octets of the current message, then whole
    // encoded messages, and nothing else.
    ghost predicate Valid()
      reads this, ring, ring.buf
    {
      && ring.Valid() && header.Length == MESSAGE_HEADER && header != ring.buf
      && ring.Contents() == RingImage(current, waiting)
      && messageLeft == |current.data| && (messageLeft > 0 ==> content == current.content)
    }

    constructor ()
      ensures Valid() && fresh(ring) && fresh(ring.buf) && fresh(header)
      ensures current == Message(0, []) && |waiting| == 0
    {
      ring := new Ring();
      header := new byte[MESSAGE_HEADER](_ => 0);
      content, messageLeft := 0, 0;
      current, waiting := Message(0, []), [];
      new;
      assert RingImage(current, waiting) == [];
    }

    method Put(c: byte, data: seq<byte>) returns (ok: bool)
      requires Valid() && |data| < U32
      modifies this`waiting, ring, ring.buf
      ensures Valid()
      ensures ok == (MessageSize(Message(c, data)) <= QUEUE_SIZE - |current.data| - old(TotalSize(waiting)))
      ensures waiting == if ok then old(waiting) + [Message(c, data)] else old(waiting)
    {
      if |data| + MESSAGE_HEADER > QUEUE_SIZE - ring.count {
        return false;
      }
      var m := Message(c, data);
      ghost var image := RingImage(current, waiting);
      RingImageAppend(current, waiting, m);
      ring.Write(EncodeHeader(m));
      assert ring.Contents() == image + EncodeHeader(m);
      ring.Write(data);
      assert ring.Contents() == image + EncodeHeader(m) + data;
      waiting := waiting + [m];
      return true;
    }

    // The header of the next message leaves the ring.
    method ReadHeader()
      requires Valid() && messageLeft == 0 && waiting != [] && |waiting[0].data| < U32
      modifies this, ring, header
      ensures Valid()
      ensures current == old(waiting[0]) && waiting == old(waiting[1..])
      ensures content == current.content
    {
      ghost var image := RingImage(current, waiting);
      HeaderInFront(current, waiting);
      ring.Read(header, MESSAGE_HEADER);
      assert header[..MESSAGE_HEADER] == image[..MESSAGE_HEADER];
      assert header[0] == header[..MESSAGE_HEADER][0] == image[0];
      assert header[1..5] == header[..MESSAGE_HEADER][1..5] == image[1..5];
      content := header[0];
      messageLeft := ReadU32(header[1..5]);
      current, waiting := waiting[0], waiting[1..];
    }

    // The first chunk of the current message leaves the ring for dst.
    method ReadChunk(dst: array<byte>, n: nat)
      requires Valid() && n == |FirstChunk(current).data| <= dst.Length && dst != ring.buf
      modifies this`messageLeft, this`current, ring, dst
      ensures Valid()
      ensures dst[..n] == old(FirstChunk(current).data) && current == old(AfterChunk(current))
    {
      ChunkInFront(current, waiting);
      ring.Read(dst, n);
      messageLeft := messageLeft - n;
      current := AfterChunk(current);
    }
  }
}

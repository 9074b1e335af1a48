// The buffer that platform/sim/drivers/comms_i2c.c keeps for each connection, and
// the loop that reads into it until it holds a frame.
module LeftoverBuffer {
  import opened Bytes
  import opened Options
  import opened BusFrame
  import opened BusStream

  // The end of a connection: what has been written to it and not yet read.
  class Socket {
    var unread: seq<byte>

    method Read(room: nat, limit: nat) returns (chunk: seq<byte>)
      modifies this
      ensures |chunk| == Least(limit, Least(room, |old(unread)|))
      ensures chunk == old(unread)[..|chunk|] && unread == old(unread)[|chunk|..]
    {
      var n := Least(limit, Least(room, |unread|));
      chunk := unread[..n];
      unread := unread[n..];
    }
  }

  class Leftover {
    const buf: array<byte>
    var len: nat

    ghost predicate Valid()
      reads this
    {
      buf.Length == LEFTOVER_SIZE && len <= LEFTOVER_SIZE
    }

    ghost function Held(): seq<byte>
      reads this, buf
      requires Valid()
    {
      buf[..len]
    }

    constructor ()
      ensures Valid() && fresh(buf) && Held() == []
    {
      buf := new byte[LEFTOVER_SIZE];
      len := 0;
    }

    // Takes the first n octets out, moving the rest to the front.
    method Shift(n: nat)
      requires Valid() && n <= len
      modifies this`len, buf
      ensures Valid() && Held() == old(Held())[n..]
    {
      var remaining := len - n;
      forall i | 0 <= i < remaining {
        buf[i] := buf[n + i];
      }
      len := remaining;
    }

    method Append(chunk: seq<byte>)
      requires Valid() && len + |chunk| <= LEFTOVER_SIZE
      modifies this`len, buf
      ensures Valid() && Held() == old(Held()) + chunk
    {
      Copy(buf, len, chunk);
      len := len + |chunk|;
    }

    // The part of the loop that looks at what is there already: None when more has
    // to be read.
    method Extract() returns (result: Option<Result>)
      requires Valid()
      modifies this`len, buf
      ensures Valid()
      ensures match Look(old(Held()))
              case Partial => result == None && Held() == old(Held())
              case Broken => result == Some(Error) && Held() == old(Held())
              case Whole(f, n) => result == Some(Received(f)) && Held() == old(Held())[n..]
    {
      if len < FRAME_HEADER {
        return None;
      }
      assert Held()[2..4] == [buf[2], buf[3]];
      var needed := FRAME_HEADER + (buf[2] as int) * 256 + buf[3];
      if needed > LEFTOVER_SIZE {
        return Some(Error);
      }
      if len < needed {
        return None;
      }
      assert Held()[..needed] == buf[..needed];
      var frame := DeserializeFrom(buf, needed);
      if frame.None? {
        return Some(Error);
      }
      Shift(needed);
      return Some(Received(frame.value));
    }

    // One read, into the room that is left.
    method Fill(socket: Socket, limit: nat) returns (n: nat)
      requires Valid()
      modifies this`len, buf, socket
      ensures Valid() && n == ReadSize(old(Held()), old(socket.unread), limit)
      ensures Held() == old(Held()) + old(socket.unread)[..n] && socket.unread == old(socket.unread)[n..]
    {
      var chunk := socket.Read(LEFTOVER_SIZE - len, limit);
      n := |chunk|;
      Append(chunk);
    }

    // receive_one_frame
    method ReceiveOne(socket: Socket, moments: seq<Moment>) returns (result: Result)
      requires Valid()
      modifies this`len, buf, socket
      ensures Valid()
      ensures Reception(result, Held(), socket.unread) == Receive(old(Held()), old(socket.unread), moments)
    {
      var i := 0;
      while true
        invariant Valid() && i <= |moments|
        invariant Receive(Held(), socket.unread, moments[i..]) == Receive(old(Held()), old(socket.unread), moments)
        decreases |moments| - i
      {
        var found := Extract();
        if found.Some? {
          return found.value;
        }
        if i == |moments| {
          return TimedOut;
        }
        label before:
        var moment := moments[i];
        assert moments[i..][1..] == moments[i + 1..];
        i := i + 1;
        match moment
        case Failed =>
          return Error;
        case Interrupted =>
        case Readable(limit) =>
          var n := Fill(socket, limit);
          if n == 0 {
            assert Held() == old@before(Held()) && socket.unread == old@before(socket.unread);
            return Error;
          }
      }
    }
  }
}

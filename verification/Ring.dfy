// The byte ring of platform/common/radio_queue.c: ring_read and ring_write.
module ByteRing {
  import opened Bytes
  import opened Radio

  // `count` octets from `head` on, wrapping at the end of the buffer.
  function Window<T>(buf: seq<T>, head: nat, count: nat): (s: seq<T>)
    requires head < |buf| && count <= |buf|
    ensures |s| == count
  {
    if head + count <= |buf| then buf[head..head + count]
    else buf[head..] + buf[..head + count - |buf|]
  }

  // (i + j) modulo the ring's size
  function Wrap(size: nat, i: nat, j: nat): (k: nat)
    requires i < size && j <= size
    ensures k < size
  {
    if i + j < size then i + j else i + j - size
  }

  lemma WrapIsMod(i: nat, j: nat)
    requires i < QUEUE_SIZE && j <= QUEUE_SIZE
    ensures (i + j) % QUEUE_SIZE == Wrap(QUEUE_SIZE, i, j)
  {
  }

  lemma WindowAt<T>(buf: seq<T>, head: nat, count: nat, i: nat)
    requires head < |buf| && count <= |buf| && i < count
    ensures Window(buf, head, count)[i] == buf[Wrap(|buf|, head, i)]
  {
  }

  // Taking n octets from the front takes one or two pieces of the buffer.
  lemma WindowFront<T>(buf: seq<T>, head: nat, count: nat, n: nat)
    requires head < |buf| && n <= count <= |buf|
    ensures var first := if |buf| - head > n then n else |buf| - head;
            buf[head..head + first] + buf[..n - first] == Window(buf, head, count)[..n]
  {
    var first := if |buf| - head > n then n else |buf| - head;
    var s, t := buf[head..head + first] + buf[..n - first], Window(buf, head, count);
    forall i | 0 <= i < n
      ensures s[i] == t[i]
    {
      WindowAt(buf, head, count, i);
    }
  }

  lemma WindowRest<T>(buf: seq<T>, head: nat, count: nat, n: nat)
    requires head < |buf| && n <= count <= |buf|
    ensures Window(buf, Wrap(|buf|, head, n), count - n) == Window(buf, head, count)[n..]
  {
    var s, t := Window(buf, Wrap(|buf|, head, n), count - n), Window(buf, head, count);
    forall i | 0 <= i < count - n
      ensures s[i] == t[n..][i]
    {
      WindowAt(buf, Wrap(|buf|, head, n), count - n, i);
      WindowAt(buf, head, count, n + i);
    }
  }

  // Storing src in one or two pieces behind the waiting octets appends it.
  lemma Stored<T>(before: seq<T>, after: seq<T>, head: nat, count: nat, src: seq<T>)
    requires |before| == |after| && head < |before| && count + |src| <= |before|
    requires forall i :: 0 <= i < count ==> after[Wrap(|before|, head, i)] == before[Wrap(|before|, head, i)]
    requires forall i :: 0 <= i < |src| ==> after[Wrap(|before|, head, count + i)] == src[i]
    ensures Window(after, head, count + |src|) == Window(before, head, count) + src
  {
    var w := Window(before, head, count);
    var s, t := Window(after, head, count + |src|), w + src;
    forall i | 0 <= i < count + |src|
      ensures s[i] == t[i]
    {
      WindowAt(after, head, count + |src|, i);
      if i < count {
        WindowAt(before, head, count, i);
        assert t[i] == w[i];
      } else {
        var k := i - count;
        assert after[Wrap(|before|, head, count + k)] == src[k];
        assert t[i] == src[k];
      }
    }
  }

  class Ring {
    const buf: array<byte>
    var head: nat
    var count: nat

    ghost predicate Valid()
      reads this
    {
      buf.Length == QUEUE_SIZE && head < QUEUE_SIZE && count <= QUEUE_SIZE
    }

    ghost function Contents(): (s: seq<byte>)
      requires Valid()
      reads this, buf
      ensures |s| == count
    {
      Window(buf[..], head, count)
    }

    constructor ()
      ensures Valid() && fresh(buf) && Contents() == []
    {
      buf := new byte[QUEUE_SIZE](_ => 0);
      head, count := 0, 0;
    }

    // The copying part of ring_read, in one piece or two
    method Fetch(dst: array<byte>, n: nat)
      requires Valid() && n <= count && n <= dst.Length && dst != buf
      modifies dst
      ensures dst[..n] == Contents()[..n] && dst[n..] == old(dst[n..])
    {
      var first := buf.Length - head;
      if first > n {
        first := n;
      }
      WindowFront(buf[..], head, count, n);
      ReadInto(dst, buf, head, first, n);
    }

    // The rest of ring_read
    method Advance(n: nat)
      requires Valid() && n <= count
      modifies this
      ensures Valid() && Contents() == old(Contents())[n..]
    {
      WindowRest(buf[..], head, count, n);
      WrapIsMod(head, n);
      head := (head + n) % QUEUE_SIZE;
      count := count - n;
    }

    // ring_read
    method Read(dst: array<byte>, n: nat)
      requires Valid() && n <= count && n <= dst.Length && dst != buf
      modifies this, dst
      ensures Valid()
      ensures dst[..n] == old(Contents())[..n] && Contents() == old(Contents())[n..]
      ensures dst[n..] == old(dst[n..])
    {
      Fetch(dst, n);
      Advance(n);
    }

    // ring_write
    method Write(src: seq<byte>)
      requires Valid() && |src| <= QUEUE_SIZE - count
      modifies this, buf
      ensures Valid()
      ensures Contents() == old(Contents()) + src
    {
      WrapIsMod(head, count);
      var tail := (head + count) % QUEUE_SIZE;
      var first := buf.Length - tail;
      if first > |src| {
        first := |src|;
      }
      ghost var before := buf[..];
      Copy(buf, tail, src[..first]);
      ghost var between := buf[..];
      Copy(buf, 0, src[first..]);
      TwoCopies(before, between, buf[..], head, count, src, tail, first);
      Stored(before, buf[..], head, count, src);
      count := count + |src|;
    }
  }

  method ReadInto(dst: array<byte>, src: array<byte>, from: nat, first: nat, n: nat)
    requires dst != src && from + first <= src.Length && first <= n <= dst.Length && n - first <= src.Length
    modifies dst
    ensures dst[..n] == src[..][from..from + first] + src[..][..n - first]
    ensures dst[n..] == old(dst[n..])
  {
    ghost var tail := dst[n..];
    var s := src[..];
    Copy(dst, 0, s[from..from + first]);
    assert dst[..first] == s[from..from + first] && dst[n..] == tail;
    Copy(dst, first, s[..n - first]);
  }

  lemma TwoCopies<T>(before: seq<T>, between: seq<T>, after: seq<T>, head: nat, count: nat,
                     src: seq<T>, tail: nat, first: nat)
    requires var size := |before|;
             && |between| == size && |after| == size && head < size && count + |src| <= size
             && tail == Wrap(size, head, count)
             && first == (if size - tail > |src| then |src| else size - tail)
             && before[..tail] == between[..tail] && between[tail..tail + first] == src[..first]
             && before[tail + first..] == between[tail + first..]
             && after[..|src| - first] == src[first..] && after[|src| - first..] == between[|src| - first..]
    ensures forall i :: 0 <= i < count ==> after[Wrap(|before|, head, i)] == before[Wrap(|before|, head, i)]
    ensures forall i :: 0 <= i < |src| ==> after[Wrap(|before|, head, count + i)] == src[i]
  {
    var size, second := |before|, |src| - first;
    forall k | second <= k < size
      ensures after[k] == between[k]
    {
      assert after[second..][k - second] == between[second..][k - second];
    }
    forall k | tail + first <= k < size
      ensures between[k] == before[k]
    {
      assert between[tail + first..][k - tail - first] == before[tail + first..][k - tail - first];
    }
    forall i | 0 <= i < count
      ensures after[Wrap(size, head, i)] == before[Wrap(size, head, i)]
    {
      var k := Wrap(size, head, i);
      assert second <= k && (k < tail || tail + first <= k);
      if k < tail {
        assert before[..tail][k] == between[..tail][k];
      }
    }
    forall i | 0 <= i < |src|
      ensures after[Wrap(size, head, count + i)] == src[i]
    {
      var k := Wrap(size, head, count + i);
      if i < first {
        assert k == tail + i;
        assert between[tail..tail + first][i] == src[..first][i];
      } else {
        assert k == i - first;
        assert after[..second][k] == src[first..][k];
      }
    }
  }
}

/** The two byte windows of a connection (pw_transport.c). */
module Buffers {
  import opened Bytes

  const BUFFER_SIZE := 4096
  const EAGAIN := 11

  /** What the socket does when asked for at most `space` bytes, or to take some: it moves
      `Some(k)` bytes, or fails with EAGAIN, or fails otherwise. `Moved(0)` on a receive is
      the peer's end of stream. */
  datatype Socket = Moved(count: nat) | WouldBlock | Failed

  /** The bytes a read brings into a window of readLen bytes. */
  function Arriving(pending: seq<byte>, socket: Socket, readLen: nat): seq<byte>
    requires socket.Moved? ==> socket.count <= |pending|
    requires readLen <= BUFFER_SIZE
  {
    if socket.Moved? then pending[..Min(socket.count, BUFFER_SIZE - readLen)] else []
  }

  /** What arrives is the front of what is pending: as much as the socket gives, or as much
      as the window takes. */
  lemma ArrivingExactly(pending: seq<byte>, count: nat, readLen: nat, data: seq<byte>)
    requires count <= |pending| && readLen <= BUFFER_SIZE
    ensures data == Arriving(pending, Moved(count), readLen) <==>
            && data <= pending && |data| <= count && readLen + |data| <= 4096
            && (|data| == count || readLen + |data| == 4096)
  {
    var got := Arriving(pending, Moved(count), readLen);
    if data <= pending && |data| == |got| {
      assert data == pending[..|data|];
    }
  }

  /** How many bytes a write takes out of the window. */
  function Leaving(socket: Socket): nat {
    match socket
    case Moved(k) => k
    case _ => 0
  }

  /** A buffer with a window of len bytes at pos. */
  function Window(buffer: seq<byte>, pos: nat, len: nat): (w: seq<byte>)
    requires pos + len <= |buffer|
    ensures |w| == len
  {
    buffer[pos..pos + len]
  }

  class Transport {
    const readBuffer: array<byte>
    var readPos: nat
    var readLen: nat
    const writeBuffer: array<byte>
    var writePos: nat
    var writeLen: nat

    // Everything that ever crossed the two windows.
    ghost var received: seq<byte>
    ghost var consumed: seq<byte>
    ghost var enqueued: seq<byte>
    ghost var sent: seq<byte>

    ghost predicate Shaped()
      reads this
    {
      && readBuffer.Length == BUFFER_SIZE && writeBuffer.Length == BUFFER_SIZE
      && readBuffer != writeBuffer
      && readPos + readLen <= BUFFER_SIZE
      && writePos + writeLen <= BUFFER_SIZE
    }

    ghost function Unread(): (w: seq<byte>)
      requires Shaped()
      reads this, readBuffer
      ensures |w| == readLen
    {
      Window(readBuffer[..], readPos, readLen)
    }

    ghost function Unsent(): (w: seq<byte>)
      requires Shaped()
      reads this, writeBuffer
      ensures |w| == writeLen
    {
      Window(writeBuffer[..], writePos, writeLen)
    }

    /** Both windows are plain byte queues, and an empty write window starts at 0 again. */
    ghost predicate Valid()
      reads this, readBuffer, writeBuffer
    {
      && Shaped()
      && received == consumed + Unread()
      && enqueued == sent + Unsent()
      && (writeLen == 0 ==> writePos == 0)
    }

    constructor ()
      ensures Valid() && fresh(readBuffer) && fresh(writeBuffer)
      ensures received == [] && enqueued == [] && consumed == [] && sent == []
      ensures readLen == 0 && writeLen == 0 && writePos == 0
    {
      readBuffer := new byte[BUFFER_SIZE](_ => 0);
      writeBuffer := new byte[BUFFER_SIZE](_ => 0);
      readPos, readLen, writePos, writeLen := 0, 0, 0, 0;
      received, consumed, enqueued, sent := [], [], [], [];
    }

    /** pw_transport_read. `pending` is what the peer has sent and we have not received.
        Returns the count, 0 at end of stream or when the window is full, or a negative
        error. */
    method Read(pending: seq<byte>, socket: Socket) returns (n: int)
      requires Valid()
      requires socket.Moved? ==> socket.count <= |pending|
      modifies this`readPos, this`readLen, this`received, readBuffer
      ensures Valid()
      ensures n > 0 <==> Arriving(pending, socket, old(readLen)) != []
      ensures n > 0 ==> n == |Arriving(pending, socket, old(readLen))|
      ensures n == 0 <==> old(readLen) == BUFFER_SIZE || socket == Moved(0)
      ensures n < 0 ==> n == if socket.WouldBlock? then -EAGAIN else -1
      ensures received == old(received) + Arriving(pending, socket, old(readLen))
      ensures Unread() == old(Unread()) + Arriving(pending, socket, old(readLen))
      ensures Unsent() == old(Unsent())
    {
      NilLeft(received);
      NilLeft(Unread());
      if readLen == BUFFER_SIZE {
        return 0;
      }
      Compact();
      var space := BUFFER_SIZE - readLen;
      match socket
      case WouldBlock =>
        n := -EAGAIN;
      case Failed =>
        n := -1;
      case Moved(count) =>
        n := Min(count, space);
        Receive(pending[..n]);
    }

    /** Move the window to the front of the buffer, overlapping itself. */
    method Compact()
      requires Valid() && readLen < BUFFER_SIZE
      modifies this`readPos, readBuffer
      ensures Valid() && readPos == 0
      ensures Unread() == old(Unread()) && Unsent() == old(Unsent())
    {
      ghost var was := Unread();
      if readLen > 0 && readPos > 0 {
        forall i | 0 <= i < readLen {    // memmove
          readBuffer[i] := readBuffer[readPos + i];
        }
        readPos := 0;
      } else if readLen == 0 {
        readPos := 0;
      }
      assert Unread() == was;
    }

    /** recv(): the bytes land behind the window. */
    method Receive(data: seq<byte>)
      requires Valid() && readPos == 0 && readLen + |data| <= BUFFER_SIZE
      modifies this`readLen, this`received, readBuffer
      ensures Valid()
      ensures received == old(received) + data
      ensures Unread() == old(Unread()) + data && Unsent() == old(Unsent())
    {
      ghost var before := readBuffer[..];
      CopyInto(readBuffer, readPos + readLen, data);
      WindowGrows(before, readPos, readLen, data);
      Assoc(consumed, Window(before, readPos, readLen), data);
      readLen := readLen + |data|;
      received := received + data;
    }

    /** The loops' own `read_pos += n; read_len -= n`. */
    method Consume(n: nat)
      requires Valid() && n <= readLen
      modifies this`readPos, this`readLen, this`consumed
      ensures Valid()
      ensures Unread() == old(Unread())[n..] && Unsent() == old(Unsent())
      ensures readLen == old(readLen) - n
      ensures consumed == old(consumed) + old(Unread())[..n]
    {
      ghost var was := Unread();
      readPos := readPos + n;
      readLen := readLen - n;
      consumed := consumed + was[..n];
      WindowDrops(readBuffer[..], readPos - n, readLen + n, n);
      Split(was, n);
      Assoc(old(consumed), was[..n], was[n..]);
    }

    /** The loops' own `write_len += n` after something was put at write_buffer + write_len.
        Only of a window that starts at 0 is the new window the old one and the data. */
    method Commit(n: nat, ghost data: seq<byte>, ghost before: seq<byte>)
      requires Shaped() && received == consumed + Unread()
      requires |before| == BUFFER_SIZE && |data| == n && writePos + writeLen + n <= BUFFER_SIZE
      requires writeBuffer[..] == Splice(before, writeLen, data)
      modifies this`writeLen, this`enqueued
      ensures Shaped() && writeLen == old(writeLen) + n
      ensures Unread() == old(Unread()) && enqueued == old(enqueued) + data
      ensures Unsent() == AppendedWindow(before, writePos, old(writeLen), data)
      ensures writePos == 0 ==> Unsent() == Window(before, 0, old(writeLen)) + data
      ensures writePos == 0 && old(enqueued) == sent + Window(before, 0, old(writeLen)) ==> Valid()
    {
      if writePos == 0 {
        WindowGrows(before, 0, writeLen, data);
        Assoc(sent, Window(before, 0, writeLen), data);
      }
      writeLen := writeLen + n;
      enqueued := enqueued + data;
    }

    /** pw_transport_write: the socket takes a part of the window. */
    method Write(socket: Socket) returns (n: int)
      requires Valid()
      requires socket.Moved? ==> socket.count <= writeLen
      modifies this`writePos, this`writeLen, this`sent
      ensures Valid()
      ensures n == if old(writeLen) == 0 || socket == Moved(0) then 0 else
                   match socket case Moved(k) => k case WouldBlock => -EAGAIN case Failed => -1
      ensures Unsent() == old(Unsent())[Leaving(socket)..]
      ensures sent == old(sent) + old(Unsent())[..Leaving(socket)]
      ensures writePos == if writeLen == 0 then 0 else old(writePos) + Leaving(socket)
      ensures enqueued == old(enqueued) && Unread() == old(Unread())
    {
      NilLeft(sent);
      if writeLen == 0 {
        return 0;
      }
      match socket
      case WouldBlock =>
        n := -EAGAIN;
      case Failed =>
        n := -1;
      case Moved(k) =>
        Drain(k);
        n := k;
    }

    /** What send() took leaves the window; an empty window starts at 0 again. */
    method Drain(k: nat)
      requires Valid() && k <= writeLen
      modifies this`writePos, this`writeLen, this`sent
      ensures Valid()
      ensures Unsent() == old(Unsent())[k..] && sent == old(sent) + old(Unsent())[..k]
      ensures writeLen == old(writeLen) - k && Unread() == old(Unread())
      ensures writePos == if writeLen == 0 then 0 else old(writePos) + k
    {
      ghost var was := Unsent();
      writePos := writePos + k;
      writeLen := writeLen - k;
      sent := sent + was[..k];
      WindowDrops(writeBuffer[..], writePos - k, writeLen + k, k);
      Split(was, k);
      Assoc(old(sent), was[..k], was[k..]);
      assert Unsent() == was[k..];
      if writeLen == 0 {
        writePos := 0;
      }
    }
  }

  /** Data written right behind a window extends it. */
  lemma WindowGrows(buffer: seq<byte>, pos: nat, len: nat, data: seq<byte>)
    requires pos + len + |data| <= |buffer|
    ensures Window(Splice(buffer, pos + len, data), pos, len + |data|) == Window(buffer, pos, len) + data
  {
  }

  lemma WindowDrops(buffer: seq<byte>, pos: nat, len: nat, n: nat)
    requires pos + len <= |buffer| && n <= len
    ensures Window(buffer, pos + n, len - n) == Window(buffer, pos, len)[n..]
  {
  }

  // ----- where the loops append -----

  /** The window after the loops put data at write_buffer + write_len. */
  function AppendedWindow(buffer: seq<byte>, pos: nat, len: nat, data: seq<byte>): seq<byte>
    requires pos + len + |data| <= |buffer|
  {
    Window(Splice(buffer, len, data), pos, len + |data|)
  }

  /** Appending at offset write_len extends the window by exactly the data, for all data of
      a given size, if and only if the window starts at 0 or there is nothing to append. */
  lemma AppendIsFifoExactly(buffer: seq<byte>, pos: nat, len: nat, size: nat)
    requires pos + len + size <= |buffer|
    ensures (forall data: seq<byte> | |data| == size ::
               AppendedWindow(buffer, pos, len, data) == Window(buffer, pos, len) + data)
            <==> pos == 0 || size == 0
  {
    if pos == 0 {
      forall data: seq<byte> | |data| == size
        ensures AppendedWindow(buffer, pos, len, data) == Window(buffer, pos, len) + data
      {
        WindowGrows(buffer, 0, len, data);
      }
    } else if size == 0 {
      forall data: seq<byte> | |data| == size
        ensures AppendedWindow(buffer, pos, len, data) == Window(buffer, pos, len) + data
      {
        assert Splice(buffer, len, data) == buffer;
      }
    } else {
      // The last byte of the window lies behind everything that was written.
      var last := buffer[pos + len + size - 1];
      var data := seq(size, _ => if last == 0 then 1 else 0);
      var got := AppendedWindow(buffer, pos, len, data);
      assert got[len + size - 1] == last;
      assert (Window(buffer, pos, len) + data)[len + size - 1] == data[size - 1];
      assert got != Window(buffer, pos, len) + data;
    }
  }
}

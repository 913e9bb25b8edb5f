/** How both programs put a message into the write window: serialize or copy it at
    write_buffer + write_len, then advance write_len. */
module Outbox {
  import opened Bytes
  import opened Buffers
  import Frame

  /** memcpy: the source does not look at the room. */
  method SendBytes(t: Transport, data: seq<byte>)
    requires t.Valid() && t.writePos + t.writeLen + |data| <= BUFFER_SIZE
    modifies t`writeLen, t`enqueued, t.writeBuffer
    ensures t.Shaped() && t.Unread() == old(t.Unread())
    ensures t.Unsent() == AppendedWindow(old(t.writeBuffer[..]), t.writePos, old(t.writeLen), data)
    ensures t.writePos == 0 ==> t.Valid() && t.Unsent() == old(t.Unsent()) + data
  {
    ghost var before := t.writeBuffer[..];
    CopyInto(t.writeBuffer, t.writeLen, data);
    t.Commit(|data|, data, before);
  }

  /** pw_frame_serialize_header: nothing when the header does not fit behind write_len. */
  method SendHeader(t: Transport, h: Frame.Header)
    requires t.Valid()
    requires t.writeLen + Frame.HeaderSize(h) <= BUFFER_SIZE ==> t.writePos + t.writeLen + Frame.HeaderSize(h) <= BUFFER_SIZE
    modifies t`writeLen, t`enqueued, t.writeBuffer
    ensures t.Shaped() && t.Unread() == old(t.Unread())
    ensures old(t.writeLen) + Frame.HeaderSize(h) > BUFFER_SIZE ==> t.Valid() && t.Unsent() == old(t.Unsent())
    ensures old(t.writeLen) + Frame.HeaderSize(h) <= BUFFER_SIZE ==>
              && t.Unsent() == AppendedWindow(old(t.writeBuffer[..]), t.writePos, old(t.writeLen), Frame.HeaderBytes(h))
              && (t.writePos == 0 ==> t.Valid() && t.Unsent() == old(t.Unsent()) + Frame.HeaderBytes(h))
  {
    ghost var before := t.writeBuffer[..];
    var n := Frame.SerializeHeader(h, t.writeBuffer, t.writeLen, BUFFER_SIZE - t.writeLen);
    if n > 0 {
      t.Commit(n, Frame.HeaderBytes(h), before);
    }
  }
}

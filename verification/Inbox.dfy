/** How both programs look for a whole frame at the front of the read window. */
module Inbox {
  import opened Bytes
  import opened Buffers
  import opened Frame
  import opened Streams

  /** What `parsed > 0 && read_len >= parsed + frame.length` says of the window at `at`. */
  ghost predicate Found(buffer: seq<byte>, at: nat, taken: Taken<Message>, header: Header, parsed: nat)
  {
    && taken.Took? && taken.item.header == header && taken.size == parsed + header.length
    && at + taken.size <= |buffer|
    && taken.item.payload == buffer[at + parsed..at + parsed + header.length]
  }

  lemma FoundParsed(buffer: seq<byte>, at: nat, len: nat, r: Parsed)
    requires at + len <= |buffer| && r == Parse(buffer[at..at + len]) && Complete(r, len)
    ensures Found(buffer, at, Take(buffer[at..at + len]), r.header, r.size)
  {
    TakeParsed(buffer[at..at + len], r);
    SubSlice(buffer, at, len, r.size, r.size + r.header.length);
  }

  method PeekFrame(t: Transport) returns (found: bool, header: Header, parsed: nat)
    requires t.Shaped() && !Take(t.Unread()).Broken?
    ensures found <==> Take(t.Unread()).Took?
    ensures found ==>
              && Take(t.Unread()).item.header == header
              && Take(t.Unread()).size == parsed + header.length <= t.readLen
              && Take(t.Unread()).item.payload == t.readBuffer[t.readPos + parsed..t.readPos + parsed + header.length]
  {
    ghost var window := t.readBuffer[t.readPos..t.readPos + t.readLen];
    assert t.Unread() == window;
    var r := ParseHeader(t.readBuffer, t.readPos, t.readLen);
    TakeParsed(window, r);
    if r.Ok? && t.readLen >= r.size + r.header.length {
      FoundParsed(t.readBuffer[..], t.readPos, t.readLen, r);
      return true, r.header, r.size;
    }
    return false, Header(0, 0, 0, 0, 0), 0;
  }
}

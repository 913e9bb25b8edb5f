/** The length-prefixed bearer request (pw_auth.c). */
module Auth {
  import opened Bytes
  import opened Streams
  import Frame

  const METHOD_BEARER: byte := 1

  type Token = s: seq<byte> | |s| < TWO_32

  datatype Request = Request(kind: byte, token: Token)
  datatype ParsedRequest = ParsedRequest(request: Request, size: nat)

  function RequestBytes(r: Request): (s: seq<byte>)
    ensures |s| == 5 + |r.token|
  {
    [r.kind] + U32Bytes(|r.token|) + r.token
  }

  function ParseRequest(s: seq<byte>): Option<ParsedRequest> {
    if |s| < 5 then None
    else
      var n := U32Of(s[1..5]);
      if |s| - 5 < n then None else Some(ParsedRequest(Request(s[0], s[5..5 + n]), 5 + n))
  }

  /** strlen, from position i on: the first NUL, or the end. */
  function StrLen(s: seq<byte>, i: nat): (n: nat)
    requires i <= |s|
    ensures i <= n <= |s| && (n < |s| ==> s[n] == 0)
    ensures forall j :: i <= j < n ==> s[j] != 0
    decreases |s| - i
  {
    if i == |s| || s[i] == 0 then i else StrLen(s, i + 1)
  }

  /** What a C string of these bytes is: everything before the first NUL. */
  function CString(s: seq<byte>): (r: seq<byte>)
    ensures 0 !in s ==> r == s
  {
    s[..StrLen(s, 0)]
  }

  predicate ValidBearer(r: Request, expected: seq<byte>) {
    r.kind == METHOD_BEARER && r.token == CString(expected)
  }

  /** Does the payload of an AUTH frame carry the expected token? */
  predicate Authenticates(payload: seq<byte>, expected: seq<byte>) {
    ParseRequest(payload).Some? && ValidBearer(ParseRequest(payload).value.request, expected)
  }

  function BearerFrame(token: Token): Frame.Message
    requires 5 + |token| < TWO_32
  {
    var payload := RequestBytes(Request(METHOD_BEARER, token));
    Frame.Parts(Frame.Header(Frame.VERSION_1, Frame.FLAG_FIN, Frame.AUTH, 0, |payload|), payload)
  }

  // ----- properties -----

  lemma RequestRoundTrip(r: Request, rest: seq<byte>)
    ensures ParseRequest(RequestBytes(r) + rest) == Some(ParsedRequest(r, 5 + |r.token|))
  {
    var s := RequestBytes(r) + rest;
    assert s[1..5] == U32Bytes(|r.token|);
    U32Inverse(|r.token|, U32Bytes(|r.token|));
    assert s[5..5 + |r.token|] == r.token;
  }

  lemma RequestStable(s: seq<byte>, t: seq<byte>)
    requires ParseRequest(s).Some?
    ensures ParseRequest(s + t) == ParseRequest(s)
    ensures forall k :: 0 <= k < ParseRequest(s).value.size ==> ParseRequest(s[..k]) == None
  {
    var n := ParseRequest(s).value.size;
    SliceExtend(s, t, 1, 5);
    SliceExtend(s, t, 5, n);
    forall k | 0 <= k < n ensures ParseRequest(s[..k]) == None {
      if k >= 5 { SlicePrefix(s, k, 1, 5); }
    }
  }

  /** A payload authenticates exactly when it starts with the one serialized request for
      the expected C string; bytes after it never change the verdict. */
  lemma AuthenticatesExactly(payload: seq<byte>, expected: seq<byte>)
    ensures Authenticates(payload, expected) <==>
            var token := CString(expected);
            |token| < TWO_32 && RequestBytes(Request(METHOD_BEARER, token)) <= payload
  {
    var token := CString(expected);
    if |token| < TWO_32 {
      StartsWithRequest(payload, token);
    }
  }

  lemma StartsWithRequest(payload: seq<byte>, token: Token)
    ensures ParseRequest(payload).Some? && ParseRequest(payload).value.request == Request(METHOD_BEARER, token)
            <==> RequestBytes(Request(METHOD_BEARER, token)) <= payload
  {
    var want := RequestBytes(Request(METHOD_BEARER, token));
    if want <= payload {
      assert payload == want + payload[|want|..];
      RequestRoundTrip(Request(METHOD_BEARER, token), payload[|want|..]);
    }
    if ParseRequest(payload).Some? && ParseRequest(payload).value.request == Request(METHOD_BEARER, token) {
      var n := U32Of(payload[1..5]);
      assert n == |token|;
      U32Inverse(n, payload[1..5]);
      assert payload[..5 + n] == [payload[0]] + payload[1..5] + payload[5..5 + n];
      assert payload[..5 + n] == want;
    }
  }

  /** Serialize a bearer request, frame it, send anything after it; take the frame and
      validate: the verdict is whether the token is the expected C string. */
  lemma EndToEnd(token: Token, expected: seq<byte>, rest: seq<byte>)
    requires 5 + |token| < TWO_32
    ensures Frame.Take(Frame.FrameBytes(BearerFrame(token)) + rest)
            == Took(BearerFrame(token), |Frame.FrameBytes(BearerFrame(token))|)
    ensures Authenticates(BearerFrame(token).payload, expected) <==> token == CString(expected)
    ensures 0 !in expected ==> (Authenticates(BearerFrame(token).payload, expected) <==> token == expected)
  {
    Frame.TakeRoundTrip(BearerFrame(token), rest);
    RequestRoundTrip(Request(METHOD_BEARER, token), []);
    assert BearerFrame(token).payload + [] == BearerFrame(token).payload;
  }

  // ----- the functions of pw_auth.c -----

  /** `1 + 4 + req->token_len`, which is computed in 32 bits. */
  function Required(r: Request): u32 {
    (5 + |r.token|) % TWO_32
  }

  /** `buffer_len >= required` */
  predicate Accepts(r: Request, room: nat) {
    room >= Required(r)
  }

  /** The serializer refuses exactly the rooms that are too small if and only if that sum
      does not wrap: for the five longest token lengths it accepts rooms below 5 bytes. */
  lemma RoomTestExactly(r: Request)
    ensures (forall room: nat :: Accepts(r, room) <==> room >= |RequestBytes(r)|) <==> 5 + |r.token| < TWO_32
  {
    if 5 + |r.token| >= TWO_32 {
      assert Accepts(r, Required(r));
    }
  }

  /** What the test lets through must fit: where it wraps, the source does not look. */
  method SerializeRequest(r: Request, buffer: array<byte>, at: nat, room: nat) returns (n: nat)
    requires at + room <= buffer.Length
    requires Accepts(r, room) ==> room >= |RequestBytes(r)|
    modifies buffer
    ensures !Accepts(r, room) ==> n == 0 && buffer[..] == old(buffer[..])
    ensures Accepts(r, room) ==>
              n == |RequestBytes(r)| && buffer[..] == Splice(old(buffer[..]), at, RequestBytes(r))
  {
    var required: u32 := (5 + |r.token|) % TWO_32;
    if room < required {
      return 0;
    }
    ghost var base := buffer[..];
    n := Emit(buffer, at, 0, [r.kind], base, []);
    n := EmitU32(buffer, at, n, |r.token|, base, [r.kind]);
    if |r.token| > 0 {
      n := Emit(buffer, at, n, r.token, base, [r.kind] + U32Bytes(|r.token|));
    } else {
      assert RequestBytes(r) == [r.kind] + U32Bytes(|r.token|);
    }
  }

  method ParseRequestAt(buffer: array<byte>, at: nat, len: nat) returns (r: Option<ParsedRequest>)
    requires at + len <= buffer.Length
    ensures r == ParseRequest(buffer[at..at + len])
  {
    if len < 5 {
      return None;
    }
    ghost var b := buffer[..];
    var tokenLen := ReadU32(buffer, at + 1);
    var n: nat := tokenLen;
    SubSlice(b, at, len, 1, 5);
    if len - 5 < n {
      return None;
    }
    var token: Token := buffer[at + 5..at + 5 + n];
    SubSlice(b, at, len, 5, 5 + n);
    return Some(ParsedRequest(Request(buffer[at], token), 5 + n));
  }
}

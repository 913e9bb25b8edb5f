/** Byte streams cut into self-delimiting items: what the parse-and-advance loops of
    every receiver compute, for any encoder and any taker that fit each other. */
module Streams {
  import opened Bytes

  /** `NotYet`: more bytes are needed. `Broken`: no continuation can make sense of the bytes. */
  datatype Taken<+F> = NotYet | Broken | Took(item: F, size: nat)

  function Stream<F>(enc: F -> seq<byte>, fs: seq<F>): seq<byte> {
    if fs == [] then [] else enc(fs[0]) + Stream(enc, fs[1..])
  }

  /** The parse-and-advance loop: the items taken, and the bytes left unparsed. */
  function TakeAll<F>(take: seq<byte> -> Taken<F>, s: seq<byte>): (seq<F>, seq<byte>)
    decreases |s|
  {
    match take(s)
    case Took(f, n) =>
      if 0 < n <= |s| then var (fs, rest) := TakeAll(take, s[n..]); ([f] + fs, rest) else ([], s)
    case _ => ([], s)
  }

  /** How many whole items of fs lie within the first k bytes of its stream. */
  function Whole<F>(enc: F -> seq<byte>, fs: seq<F>, k: nat): (m: nat)
    ensures m <= |fs|
  {
    if fs == [] || k < |enc(fs[0])| then 0
    else 1 + Whole(enc, fs[1..], k - |enc(fs[0])|)
  }

  ghost predicate PrefixCode<F(!new)>(enc: F -> seq<byte>, take: seq<byte> -> Taken<F>) {
    && (forall f, rest: seq<byte> :: take(enc(f) + rest) == Took(f, |enc(f)|))
    && (forall f, k :: 0 <= k < |enc(f)| ==> take(enc(f)[..k]) == NotYet)
    && (forall f :: enc(f) != [])
    && take([]) == NotYet
  }

  /** `out` and `rest` are what fs, cut to the bytes s with m whole items, should give. */
  ghost predicate CutShape<F>(enc: F -> seq<byte>, fs: seq<F>, m: nat, s: seq<byte>, out: seq<F>, rest: seq<byte>) {
    && m <= |fs| && out == fs[..m]
    && s == Stream(enc, out) + rest
    && if m == |fs| then rest == [] else |rest| < |enc(fs[m])| && rest == enc(fs[m])[..|rest|]
  }

  lemma CutShapeMore<F>(enc: F -> seq<byte>, f: F, fs: seq<F>, m: nat, s: seq<byte>, out: seq<F>, rest: seq<byte>)
    requires CutShape(enc, fs, m, s, out, rest)
    ensures CutShape(enc, [f] + fs, m + 1, enc(f) + s, [f] + out, rest)
  {
    assert ([f] + out)[1..] == out;
    assert enc(f) + (Stream(enc, out) + rest) == (enc(f) + Stream(enc, out)) + rest;
    assert ([f] + fs)[..m + 1] == [f] + out;
    assert m < |fs| ==> ([f] + fs)[m + 1] == fs[m];
  }

  /** Cut the stream of any item list anywhere: exactly the whole items before the cut
      come out, and what is left is a proper prefix of the item the cut falls in. */
  lemma {:induction false} DecodeCutStream<F(!new)>(enc: F -> seq<byte>, take: seq<byte> -> Taken<F>, fs: seq<F>, k: nat)
    requires PrefixCode(enc, take)
    requires k <= |Stream(enc, fs)|
    ensures var s := Stream(enc, fs)[..k];
            CutShape(enc, fs, Whole(enc, fs, k), s, TakeAll(take, s).0, TakeAll(take, s).1)
  {
    if fs == [] {
    } else if k < |enc(fs[0])| {
      assert Stream(enc, fs)[..k] == enc(fs[0])[..k];
      assert fs[..0] == [];
    } else {
      var f, tail := fs[0], fs[1..];
      var j := k - |enc(f)|;
      var cut := Stream(enc, tail)[..j];
      DecodeCutStream(enc, take, tail, j);
      CutBehind(enc(f), Stream(enc, tail), k);
      CutShapeMore(enc, f, tail, Whole(enc, tail, j), cut, TakeAll(take, cut).0, TakeAll(take, cut).1);
      assert fs == [f] + tail;
    }
  }

  lemma {:induction false} WholeStream<F>(enc: F -> seq<byte>, fs: seq<F>)
    ensures Whole(enc, fs, |Stream(enc, fs)|) == |fs|
  {
    if fs != [] {
      WholeStream(enc, fs[1..]);
    }
  }

  /** Different item lists have different streams. */
  lemma StreamInjective<F(!new)>(enc: F -> seq<byte>, take: seq<byte> -> Taken<F>, fs: seq<F>, gs: seq<F>)
    requires PrefixCode(enc, take)
    requires Stream(enc, fs) == Stream(enc, gs)
    ensures fs == gs
  {
    var k := |Stream(enc, fs)|;
    WholeStream(enc, fs);
    WholeStream(enc, gs);
    DecodeCutStream(enc, take, fs, k);
    DecodeCutStream(enc, take, gs, k);
    assert fs[..|fs|] == fs && gs[..|gs|] == gs;
  }
}

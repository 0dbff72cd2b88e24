/**
 * The wire format of one direction of the stream: every message is a 4-byte
 * unsigned big-endian length L followed by exactly L payload bytes. The
 * payload is the serialised frame, which this model treats as
 * opaque bytes.
 *
 * `Parse` is the specification of the receiver: it splits a byte stream into
 * the whole messages at its front and the bytes that do not yet form one.
 */
module Framing {
  import opened Wrappers

  newtype byte = b: int | 0 <= b < 256

  /** The size of the length field: four bytes. */
  const HeaderSize: nat := 4

  /** One more than the largest length the field can hold. */
  const LengthLimit: nat := 0x1_0000_0000

  /** A serialized frame; its contents are never inspected. */
  type Payload = seq<byte>

  /** Packing a length: the four big-endian bytes of n. */
  function Pack32(n: nat): (r: seq<byte>)
    requires n < LengthLimit
    ensures |r| == HeaderSize
    ensures Unpack32(r) == n
  {
    var b3, n3 := n % 256, n / 256;
    var b2, n2 := n3 % 256, n3 / 256;
    var b1, b0 := n2 % 256, n2 / 256;
    [b0 as byte, b1 as byte, b2 as byte, b3 as byte]
  }

  /** Unpacking a length: the number held in four big-endian bytes. */
  function Unpack32(s: seq<byte>): (n: nat)
    requires |s| == HeaderSize
    ensures n < LengthLimit
  {
    ((s[0] as int * 256 + s[1] as int) * 256 + s[2] as int) * 256 + s[3] as int
  }

  /** Every length field is the packing of the number it holds. */
  lemma Pack32Unpack32(s: seq<byte>)
    requires |s| == HeaderSize
    ensures Pack32(Unpack32(s)) == s
  {
    var n := Unpack32(s);
    var n2 := s[0] as int * 256 + s[1] as int;
    var n3 := n2 * 256 + s[2] as int;
    assert n == n3 * 256 + s[3] as int;
    assert n % 256 == s[3] as int && n / 256 == n3;
    assert n3 % 256 == s[2] as int && n3 / 256 == n2;
    assert n2 % 256 == s[1] as int && n2 / 256 == s[0] as int;
  }

  datatype EncodeError = LengthOutOfRange

  /**
   * A message: the packed payload length followed by the payload. A payload of 2^32 bytes or more makes the packing fail.
   */
  function Encode(p: Payload): (r: Result<seq<byte>, EncodeError>)
    ensures r.Ok? <==> |p| < LengthLimit
    ensures r.Ok? ==> |r.value| == HeaderSize + |p|
    ensures r.Ok? ==> Unpack32(r.value[..HeaderSize]) == |p| && r.value[HeaderSize..] == p
  {
    if |p| < LengthLimit then Ok(Pack32(|p|) + p) else Err(LengthOutOfRange)
  }

  predicate Encodable(ps: seq<Payload>) {
    forall k :: 0 <= k < |ps| ==> |ps[k]| < LengthLimit
  }

  /** The bytes of the messages ps sent back to back on one connection. */
  function EncodeAll(ps: seq<Payload>): (r: seq<byte>)
    requires Encodable(ps)
    ensures r == [] <==> ps == []
    ensures |r| >= HeaderSize * |ps|
    ensures ps != [] ==> |r| >= HeaderSize + |ps[0]|
    ensures ps != [] ==> Unpack32(r[..HeaderSize]) == |ps[0]|
  {
    if ps == [] then [] else Encode(ps[0]).value + EncodeAll(ps[1..])
  }

  /** Sending one more message appends its encoding to the stream. */
  lemma {:induction false} EncodeAllSnoc(ps: seq<Payload>, p: Payload)
    requires Encodable(ps) && |p| < LengthLimit
    ensures Encodable(ps + [p])
    ensures EncodeAll(ps + [p]) == EncodeAll(ps) + Encode(p).value
  {
    var qs := ps + [p];
    if ps == [] {
      assert qs == [p] && qs[1..] == [];
    } else {
      assert qs[0] == ps[0] && qs[1..] == ps[1..] + [p];
      EncodeAllSnoc(ps[1..], p);
      SeqAssoc(Encode(ps[0]).value, EncodeAll(ps[1..]), Encode(p).value);
    }
  }

  /** The front of s holds a whole message: a length field and that many bytes. */
  predicate HasMessage(s: seq<byte>) {
    |s| >= HeaderSize && |s| - HeaderSize >= Unpack32(s[..HeaderSize])
  }

  datatype Split = Split(frames: seq<Payload>, rest: seq<byte>)

  /**
   * The whole messages at the front of s, in order, and the bytes after them.
   * The rest is what a receiver must keep until more bytes arrive: it never
   * holds a whole message.
   */
  function Parse(s: seq<byte>): (r: Split)
    ensures !HasMessage(r.rest)
    ensures |r.rest| <= |s|
    decreases |s|
  {
    if !HasMessage(s) then Split([], s)
    else
      var n := Unpack32(s[..HeaderSize]);
      var tail := Parse(s[HeaderSize + n..]);
      Split([s[HeaderSize..HeaderSize + n]] + tail.frames, tail.rest)
  }

  /**
   * Exact consumption: each message Parse takes off uses up its 4 length bytes
   * and exactly as many payload bytes as they announce, so the stream is the
   * messages re-encoded followed by the rest, unchanged.
   */
  lemma {:induction false} ParseConsumesExactly(s: seq<byte>)
    ensures Encodable(Parse(s).frames)
    ensures s == EncodeAll(Parse(s).frames) + Parse(s).rest
    decreases |s|
  {
    if HasMessage(s) {
      var n := Unpack32(s[..HeaderSize]);
      var p, after := s[HeaderSize..HeaderSize + n], s[HeaderSize + n..];
      HeaderOfMessage(s);
      ParseConsumesExactly(after);
      var tail := Parse(after);
      var frames := [p] + tail.frames;
      assert Parse(s) == Split(frames, tail.rest);
      EncodeAllCons(p, tail.frames);
      calc {
        s;
        Encode(p).value + after;
        Encode(p).value + (EncodeAll(tail.frames) + tail.rest);
        { SeqAssoc(Encode(p).value, EncodeAll(tail.frames), tail.rest); }
        EncodeAll(frames) + tail.rest;
      }
    }
  }

  /** A whole message at the front of s is the encoding of its payload. */
  lemma HeaderOfMessage(s: seq<byte>)
    requires HasMessage(s)
    ensures var n := Unpack32(s[..HeaderSize]);
      s == Encode(s[HeaderSize..HeaderSize + n]).value + s[HeaderSize + n..]
  {
    Pack32Unpack32(s[..HeaderSize]);
  }

  lemma EncodeAllCons(p: Payload, ps: seq<Payload>)
    requires |p| < LengthLimit && Encodable(ps)
    ensures Encodable([p] + ps)
    ensures EncodeAll([p] + ps) == Encode(p).value + EncodeAll(ps)
  {
    var qs := [p] + ps;
    assert qs[0] == p && qs[1..] == ps;
  }

  /** One message at the front of a stream: Parse takes it off and goes on with the rest. */
  lemma ParseMessage(p: Payload, rest: seq<byte>)
    requires |p| < LengthLimit
    ensures Parse(Encode(p).value + rest) == Split([p] + Parse(rest).frames, Parse(rest).rest)
  {
    var s := Encode(p).value + rest;
    assert s[..HeaderSize] == Encode(p).value[..HeaderSize];
    assert HasMessage(s);
    assert s[HeaderSize..HeaderSize + |p|] == p;
    assert s[HeaderSize + |p|..] == rest;
  }

  /** Round trip: parsing messages sent back to back yields them in order. */
  lemma {:induction false} ParseEncodeAll(ps: seq<Payload>, rest: seq<byte>)
    requires Encodable(ps)
    ensures Parse(EncodeAll(ps) + rest) == Split(ps + Parse(rest).frames, Parse(rest).rest)
  {
    if ps == [] {
      EmptyPrefix(EncodeAll(ps), rest);
    } else {
      EncodableTail(ps);
      ParseEncodeAll(ps[1..], rest);
      ParseEncodeAllStep(ps, rest);
    }
  }

  lemma EncodableTail(ps: seq<Payload>)
    requires Encodable(ps) && ps != []
    ensures Encodable(ps[1..])
  {
    assert forall k :: 0 <= k < |ps| - 1 ==> ps[1..][k] == ps[k + 1];
  }

  lemma EmptyPrefix<T>(empty: seq<T>, s: seq<T>)
    requires empty == []
    ensures empty + s == s
  {
  }

  /** The inductive step of the round trip: one more message in front. */
  lemma ParseEncodeAllStep(ps: seq<Payload>, rest: seq<byte>)
    requires Encodable(ps) && ps != []
    requires Parse(EncodeAll(ps[1..]) + rest) == Split(ps[1..] + Parse(rest).frames, Parse(rest).rest)
    ensures Parse(EncodeAll(ps) + rest) == Split(ps + Parse(rest).frames, Parse(rest).rest)
  {
    var message, later := Encode(ps[0]).value, EncodeAll(ps[1..]) + rest;
    SeqAssoc(message, EncodeAll(ps[1..]), rest);
    ParseMessage(ps[0], later);
    ConsAppend(ps[0], ps[1..], Parse(rest).frames);
    HeadTail(ps);
  }

  lemma SeqAssoc<T>(a: seq<T>, b: seq<T>, c: seq<T>)
    ensures a + (b + c) == (a + b) + c
  {
  }

  lemma HeadTail<T>(s: seq<T>)
    requires s != []
    ensures [s[0]] + s[1..] == s
  {
  }

  lemma ConsAppend<T>(h: T, t: seq<T>, u: seq<T>)
    ensures [h] + (t + u) == ([h] + t) + u
  {
  }

  /** The stream of whole messages only: nothing is left over. */
  lemma ParseEncodeAllExactly(ps: seq<Payload>)
    requires Encodable(ps)
    ensures Parse(EncodeAll(ps)) == Split(ps, [])
  {
    ParseEncodeAll(ps, []);
    assert EncodeAll(ps) + [] == EncodeAll(ps);
    assert Parse([]) == Split([], []);
  }

  /**
   * Parsing a stream that arrives in two parts: the messages of the first
   * part, then those of its leftover followed by the second part. This is why
   * a receiver needs to keep only the leftover between reads.
   */
  lemma {:induction false} ParseAppend(s: seq<byte>, t: seq<byte>)
    ensures Parse(s + t).frames == Parse(s).frames + Parse(Parse(s).rest + t).frames
    ensures Parse(s + t).rest == Parse(Parse(s).rest + t).rest
    decreases |s|
  {
    if HasMessage(s) {
      var n := Unpack32(s[..HeaderSize]);
      MessageOfAppend(s, t, n);
      ParseAppend(s[HeaderSize + n..], t);
    }
  }

  /** Bytes appended after a whole message leave its length field and payload as they were. */
  lemma MessageOfAppend(s: seq<byte>, t: seq<byte>, n: nat)
    requires HeaderSize + n <= |s|
    ensures (s + t)[..HeaderSize] == s[..HeaderSize]
    ensures (s + t)[HeaderSize..HeaderSize + n] == s[HeaderSize..HeaderSize + n]
    ensures (s + t)[HeaderSize + n..] == s[HeaderSize + n..] + t
  {
  }

  /** A length field of 0 is legal and carries the empty payload. */
  lemma ZeroLengthMessage(rest: seq<byte>)
    ensures Parse([0, 0, 0, 0] + rest).frames == [[]] + Parse(rest).frames
    ensures Parse([0, 0, 0, 0] + rest).rest == Parse(rest).rest
  {
    assert Encode([]).value == [0, 0, 0, 0];
    ParseMessage([], rest);
  }
}

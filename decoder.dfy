/**
 * The receiving side of the framing protocol (the inner loops of
 * receive_frames): a retained byte buffer and what it is waiting for. Every
 * chunk returned by recv is appended; the length field is taken off as soon
 * as 4 bytes are there, the payload as soon as that many more are there, and
 * whatever follows stays in the buffer for the next message.
 */
module Decoder {
  import opened Framing

  /** What the receive loop is blocked on. */
  datatype Phase = NeedLength | NeedPayload(length: nat)

  class StreamDecoder {
    /** The bytes received and not yet consumed. */
    var data: seq<byte>
    var phase: Phase

    /** Every byte fed so far, and every payload handed out so far. */
    ghost var stream: seq<byte>
    ghost var delivered: seq<Payload>

    /** The unconsumed part of the stream, with the length field put back when it was already taken off. */
    ghost function Pending(): seq<byte>
      reads this
      requires phase.NeedPayload? ==> phase.length < LengthLimit
    {
      Unconsumed(phase, data)
    }

    /**
     * The decoder has handed out exactly the whole messages of the stream and
     * keeps exactly the rest, and it is blocked only for want of bytes.
     */
    ghost predicate Valid()
      reads this
    {
      (phase.NeedPayload? ==> phase.length < LengthLimit) &&
      Parse(stream) == Split(delivered, Pending()) &&
      !CanStep(phase, data)
    }

    /** Nothing received yet: an empty buffer, waiting for a length field. */
    constructor ()
      ensures Valid() && stream == [] && delivered == []
      ensures data == [] && phase == NeedLength
    {
      data := [];
      phase := NeedLength;
      stream := [];
      delivered := [];
    }

    /**
     * One recv result arrives: the payloads it completes are returned in
     * order, and they are the whole messages of the retained bytes followed
     * by the chunk.
     */
    method Feed(chunk: seq<byte>) returns (frames: seq<Payload>)
      requires Valid()
      modifies this
      ensures Valid()
      ensures stream == old(stream) + chunk
      ensures delivered == old(delivered) + frames
      ensures frames == Parse(old(Pending()) + chunk).frames
    {
      var buf, ph := data + chunk, phase;
      ghost var start := Unconsumed(ph, buf);
      if ph.NeedPayload? {
        SeqAssoc(Pack32(ph.length), data, chunk);
      }
      assert start == Pending() + chunk;
      frames := [];
      assert frames + Parse(start).frames == Parse(start).frames;
      while CanStep(ph, buf)
        invariant unchanged(this)
        invariant ph.NeedPayload? ==> ph.length < LengthLimit
        invariant Parse(start).frames == frames + Parse(Unconsumed(ph, buf)).frames
        invariant Parse(start).rest == Parse(Unconsumed(ph, buf)).rest
        decreases |buf|, if ph.NeedPayload? then 1 else 0
      {
        if ph.NeedLength? {
          // read the big-endian length field and drop it from the buffer
          var n := Unpack32(buf[..HeaderSize]);
          LengthStep(buf);
          buf, ph := buf[HeaderSize..], NeedPayload(n);
        } else {
          // cut the payload off the front of the buffer
          var n := ph.length;
          PayloadStep(n, buf);
          SeqAssoc(frames, [buf[..n]], Parse(buf[n..]).frames);
          frames := frames + [buf[..n]];
          buf, ph := buf[n..], NeedLength;
        }
      }
      Blocked(ph, buf);
      assert frames + [] == frames;
      FeedComplete(stream, delivered, Pending(), chunk, frames, Unconsumed(ph, buf));
      data, phase := buf, ph;
      stream := stream + chunk;
      delivered := delivered + frames;
    }
  }

  /** The bytes a decoder in phase ph with buffer buf has not consumed. */
  ghost function Unconsumed(ph: Phase, buf: seq<byte>): seq<byte>
    requires ph.NeedPayload? ==> ph.length < LengthLimit
  {
    if ph.NeedLength? then buf else Pack32(ph.length) + buf
  }

  /** The inner loops may stop reading: the buffer holds a whole length field, or as many bytes as the payload needs. */
  predicate CanStep(ph: Phase, buf: seq<byte>): (r: bool)
    ensures ph.NeedLength? && !r ==> !HasMessage(buf)
    ensures ph.NeedPayload? && ph.length < LengthLimit ==> (r <==> HasMessage(Pack32(ph.length) + buf))
  {
    match ph
    case NeedLength => |buf| >= HeaderSize
    case NeedPayload(n) =>
      assert n < LengthLimit ==> (Pack32(n) + buf)[..HeaderSize] == Pack32(n);
      |buf| >= n
  }

  /** Taking off the length field leaves the unconsumed bytes as they were. */
  lemma LengthStep(buf: seq<byte>)
    requires |buf| >= HeaderSize
    ensures Unconsumed(NeedPayload(Unpack32(buf[..HeaderSize])), buf[HeaderSize..]) == buf
  {
    Pack32Unpack32(buf[..HeaderSize]);
    assert buf == buf[..HeaderSize] + buf[HeaderSize..];
  }

  /** Taking off a complete payload hands it out and leaves the bytes after it. */
  lemma PayloadStep(n: nat, buf: seq<byte>)
    requires n < LengthLimit && |buf| >= n
    ensures Parse(Unconsumed(NeedPayload(n), buf)).frames == [buf[..n]] + Parse(buf[n..]).frames
    ensures Parse(Unconsumed(NeedPayload(n), buf)).rest == Parse(buf[n..]).rest
  {
    assert Unconsumed(NeedPayload(n), buf) == Encode(buf[..n]).value + buf[n..];
    ParseMessage(buf[..n], buf[n..]);
  }

  /** Appending a chunk to a stream whose whole messages are d0 and whose rest is p0. */
  lemma FeedComplete(s0: seq<byte>, d0: seq<Payload>, p0: seq<byte>, chunk: seq<byte>,
                     frames: seq<Payload>, rest: seq<byte>)
    requires Parse(s0) == Split(d0, p0)
    requires Parse(p0 + chunk) == Split(frames, rest)
    ensures Parse(s0 + chunk) == Split(d0 + frames, rest)
  {
    ParseAppend(s0, chunk);
  }

  /** When neither step applies, the unconsumed bytes hold no whole message. */
  lemma Blocked(ph: Phase, buf: seq<byte>)
    requires ph.NeedPayload? ==> ph.length < LengthLimit
    requires !CanStep(ph, buf)
    ensures Parse(Unconsumed(ph, buf)) == Split([], Unconsumed(ph, buf))
  {
  }

  /** The bytes of the chunks in the order they arrived. */
  function Concat(chunks: seq<seq<byte>>): (r: seq<byte>)
  {
    if chunks == [] then [] else Concat(chunks[..|chunks| - 1]) + chunks[|chunks| - 1]
  }

  /**
   * A receiver fed the chunks one recv at a time hands out the whole messages
   * of their concatenation, however the bytes were split; in particular,
   * messages sent back to back come out as they were sent.
   */
  method DecodeChunks(chunks: seq<seq<byte>>) returns (frames: seq<Payload>)
    ensures frames == Parse(Concat(chunks)).frames
    ensures forall ps :: Encodable(ps) && Concat(chunks) == EncodeAll(ps) ==> frames == ps
  {
    var decoder := new StreamDecoder();
    frames := [];
    for i := 0 to |chunks|
      invariant decoder.Valid()
      invariant decoder.stream == Concat(chunks[..i]) && decoder.delivered == frames
    {
      var more := decoder.Feed(chunks[i]);
      frames := frames + more;
      assert chunks[..i + 1][..i] == chunks[..i];
    }
    assert chunks[..|chunks|] == chunks;
    forall ps | Encodable(ps) && Concat(chunks) == EncodeAll(ps)
      ensures frames == ps
    {
      ParseEncodeAllExactly(ps);
    }
  }
}

/**
Length-prefix stream framing: a frame is a 4-byte little-endian length followed by the payload.
The Tokio codec (ironsbe-transport/src/tcp/framing.rs), the io_uring connection
(ironsbe-transport/src/tcp_uring/mod.rs) and the smoltcp poll loop
(ironsbe-transport/src/xdp/stack/tcp.rs) each carry their own decoder.
*/
module Framing {
  import opened Bytes

  // ----- The wire format, independent of any decoder -----

  /** One frame on the wire; the length is cast to `u32` before it is written. */
  function Frame(m: seq<byte>): (f: seq<byte>)
    ensures |f| == 4 + |m|
  {
    LE(|m|, 4) + m
  }

  function FrameAll(ms: seq<seq<byte>>): seq<byte> {
    if ms == [] then [] else Frame(ms[0]) + FrameAll(ms[1..])
  }

  /** The length announced by the first four bytes. */
  function Announced(buf: seq<byte>): (n: nat)
    requires |buf| >= 4
    ensures n < U32
  {
    Pow256Values();
    FromLE(buf[..4])
  }

  /** `m` can be framed and accepted by a receiver with limit `max`. */
  predicate Acceptable(max: nat, m: seq<byte>) {
    |m| <= max && |m| < U32
  }

  predicate AllAcceptable(max: nat, ms: seq<seq<byte>>) {
    forall i :: 0 <= i < |ms| ==> Acceptable(max, ms[i])
  }

  /** More bytes are needed before anything can be said about `buf`. */
  predicate Incomplete(max: nat, buf: seq<byte>) {
    |buf| < 4 || (Announced(buf) <= max && |buf| < 4 + Announced(buf))
  }

  /** The next prefix announces more than the receiver accepts. */
  predicate Oversize(max: nat, buf: seq<byte>) {
    |buf| >= 4 && Announced(buf) > max
  }

  // ----- One decoding step -----

  datatype Decoded =
    | TooLarge
    | NeedMore
    | Got(frame: seq<byte>, rest: seq<byte>)

  function DecodeOne(max: nat, buf: seq<byte>): (d: Decoded)
    ensures d.TooLarge? <==> Oversize(max, buf)
    ensures d.NeedMore? <==> Incomplete(max, buf)
    ensures d.Got? ==> |d.rest| + 4 + |d.frame| == |buf|
  {
    if |buf| < 4 then NeedMore
    else if Announced(buf) > max then TooLarge
    else if |buf| < 4 + Announced(buf) then NeedMore
    else Got(buf[4..4 + Announced(buf)], buf[4 + Announced(buf)..])
  }

  /** What a step takes off the buffer is precisely one frame. */
  lemma StepRemovesFrame(max: nat, buf: seq<byte>)
    requires DecodeOne(max, buf).Got?
    ensures buf == Frame(DecodeOne(max, buf).frame) + DecodeOne(max, buf).rest
    ensures Acceptable(max, DecodeOne(max, buf).frame)
  {
    LEOfFromLE(buf[..4]);
  }

  /** A frame at the front of the buffer is what the step returns. */
  lemma StepFindsFrame(max: nat, m: seq<byte>, rest: seq<byte>)
    requires Acceptable(max, m)
    ensures DecodeOne(max, Frame(m) + rest) == Got(m, rest)
  {
    var buf := Frame(m) + rest;
    assert buf[..4] == LE(|m|, 4);
    Pow256Values();
    LERoundTrip(|m|, 4);
  }

  // ----- Draining -----

  /** The frames drained from a buffer, the bytes left in it, and whether the drain stopped at an
      oversize prefix. */
  datatype Drained = Drained(frames: seq<seq<byte>>, rest: seq<byte>, oversize: bool)

  /** Decode until the decoder stops giving frames. */
  function Drain(max: nat, buf: seq<byte>): (r: Drained)
    decreases |buf|
  {
    match DecodeOne(max, buf)
    case TooLarge => Drained([], buf, true)
    case NeedMore => Drained([], buf, false)
    case Got(frame, rest) =>
      var d := Drain(max, rest);
      d.(frames := [frame] + d.frames)
  }

  /** A drain's result, described without reference to any decoder: the buffer is the frames
      followed by a remainder that either needs more bytes or starts with an oversize prefix. */
  predicate IsDrainOf(max: nat, buf: seq<byte>, r: Drained) {
    && buf == FrameAll(r.frames) + r.rest
    && AllAcceptable(max, r.frames)
    && (if r.oversize then Oversize(max, r.rest) else Incomplete(max, r.rest))
  }

  /** The description has exactly one solution, and draining computes it. */
  lemma {:induction false} DrainExact(max: nat, buf: seq<byte>, r: Drained)
    ensures IsDrainOf(max, buf, r) <==> r == Drain(max, buf)
  {
    DrainMeetsDescription(max, buf);
    if IsDrainOf(max, buf, r) {
      DescriptionDetermines(max, r);
    }
  }

  lemma {:induction false} DrainMeetsDescription(max: nat, buf: seq<byte>)
    ensures IsDrainOf(max, buf, Drain(max, buf))
    decreases |buf|
  {
    var d := DecodeOne(max, buf);
    if d.Got? {
      StepRemovesFrame(max, buf);
      DrainMeetsDescription(max, d.rest);
      var r := Drain(max, d.rest);
      assert Drain(max, buf).frames[1..] == r.frames;
      assert buf == FrameAll(Drain(max, buf).frames) + r.rest;
    }
  }

  /** `d` with frames already taken put in front. */
  function Prepend(frames: seq<seq<byte>>, d: Drained): Drained {
    Drained(frames + d.frames, d.rest, d.oversize)
  }

  /** A step takes the first frame off the drain. */
  lemma DrainStep(max: nat, buf: seq<byte>)
    requires DecodeOne(max, buf).Got?
    ensures Drain(max, buf) == Prepend([DecodeOne(max, buf).frame], Drain(max, DecodeOne(max, buf).rest))
  {
  }

  lemma PrependStep(max: nat, frames: seq<seq<byte>>, buf: seq<byte>)
    requires DecodeOne(max, buf).Got?
    ensures var d := DecodeOne(max, buf);
            Prepend(frames, Drain(max, buf)) == Prepend(frames + [d.frame], Drain(max, d.rest))
  {
    DrainStep(max, buf);
    var d := DecodeOne(max, buf);
    assert frames + ([d.frame] + Drain(max, d.rest).frames) == frames + [d.frame] + Drain(max, d.rest).frames;
  }

  /** At the end of a drain nothing is left to take. */
  lemma DrainEnd(max: nat, frames: seq<seq<byte>>, buf: seq<byte>)
    requires !DecodeOne(max, buf).Got?
    ensures Prepend(frames, Drain(max, buf)) == Drained(frames, buf, DecodeOne(max, buf).TooLarge?)
  {
    assert frames + [] == frames;
  }

  lemma FrameAllCons(ms: seq<seq<byte>>, rest: seq<byte>)
    requires ms != []
    ensures FrameAll(ms) + rest == Frame(ms[0]) + (FrameAll(ms[1..]) + rest)
  {
  }

  lemma {:induction false} DescriptionDetermines(max: nat, r: Drained)
    requires AllAcceptable(max, r.frames)
    requires if r.oversize then Oversize(max, r.rest) else Incomplete(max, r.rest)
    ensures Drain(max, FrameAll(r.frames) + r.rest) == r
    decreases |r.frames|
  {
    if r.frames == [] {
      assert FrameAll(r.frames) + r.rest == r.rest;
    } else {
      var m, tail := r.frames[0], r.(frames := r.frames[1..]);
      DescriptionDetermines(max, tail);
      FrameAllCons(r.frames, r.rest);
      StepFindsFrame(max, m, FrameAll(tail.frames) + r.rest);
      DrainStep(max, Frame(m) + (FrameAll(tail.frames) + r.rest));
      assert [m] + tail.frames == r.frames;
    }
  }

  // ----- Streams cut into chunks -----

  function Concat(chunks: seq<seq<byte>>): seq<byte> {
    if chunks == [] then [] else chunks[0] + Concat(chunks[1..])
  }

  /** Receive the chunks one by one: append each to what is left over, then drain. Reception stops
      for good at an oversize prefix (the Tokio and io_uring connections fail there). */
  function Receive(max: nat, left: seq<byte>, chunks: seq<seq<byte>>): Drained
    decreases |chunks|
  {
    if chunks == [] then Drained([], left, false)
    else
      var d := Drain(max, left + chunks[0]);
      if d.oversize then d
      else
        var more := Receive(max, d.rest, chunks[1..]);
        more.(frames := d.frames + more.frames)
  }

  lemma OversizeStays(max: nat, rest: seq<byte>, b: seq<byte>)
    requires Oversize(max, rest)
    ensures Oversize(max, rest + b)
  {
    assert (rest + b)[..4] == rest[..4];
  }

  lemma Regroup(x: seq<byte>, y: seq<byte>, z: seq<byte>)
    ensures (x + y) + z == x + (y + z)
  {
  }

  /** A drain that met an oversize prefix is not affected by bytes that arrive later. */
  lemma DrainKeepsFailing(max: nat, a: seq<byte>, b: seq<byte>)
    requires Drain(max, a).oversize
    ensures Drain(max, a + b) == Drained(Drain(max, a).frames, Drain(max, a).rest + b, true)
  {
    var d := Drain(max, a);
    DrainMeetsDescription(max, a);
    FailsWith(max, a, b, d);
  }

  lemma FailsWith(max: nat, a: seq<byte>, b: seq<byte>, d: Drained)
    requires IsDrainOf(max, a, d) && d.oversize
    ensures Drain(max, a + b) == Drained(d.frames, d.rest + b, true)
  {
    OversizeStays(max, d.rest, b);
    Regroup(FrameAll(d.frames), d.rest, b);
    DescriptionDetermines(max, Drained(d.frames, d.rest + b, true));
  }

  /** Otherwise draining in two goes gives the same frames and remainder as draining at once. */
  lemma DrainSplits(max: nat, a: seq<byte>, b: seq<byte>)
    requires !Drain(max, a).oversize
    ensures var d, e := Drain(max, a), Drain(max, Drain(max, a).rest + b);
            Drain(max, a + b) == Drained(d.frames + e.frames, e.rest, e.oversize)
  {
    var d, e := Drain(max, a), Drain(max, Drain(max, a).rest + b);
    DrainMeetsDescription(max, a);
    DrainMeetsDescription(max, d.rest + b);
    SplitBytes(a, b, d, e);
    assert AllAcceptable(max, d.frames + e.frames);
    DescriptionDetermines(max, Drained(d.frames + e.frames, e.rest, e.oversize));
  }

  lemma SplitBytes(a: seq<byte>, b: seq<byte>, d: Drained, e: Drained)
    requires a == FrameAll(d.frames) + d.rest
    requires d.rest + b == FrameAll(e.frames) + e.rest
    ensures FrameAll(d.frames + e.frames) + e.rest == a + b
  {
    FrameAllAppend(d.frames, e.frames);
    assert FrameAll(d.frames) + FrameAll(e.frames) + e.rest == FrameAll(d.frames) + (FrameAll(e.frames) + e.rest);
    assert FrameAll(d.frames) + (d.rest + b) == a + b;
  }

  lemma {:induction false} FrameAllAppend(xs: seq<seq<byte>>, ys: seq<seq<byte>>)
    ensures FrameAll(xs + ys) == FrameAll(xs) + FrameAll(ys)
  {
    if xs == [] {
      assert xs + ys == ys;
    } else {
      assert (xs + ys)[1..] == xs[1..] + ys;
      FrameAllAppend(xs[1..], ys);
    }
  }

  /** How the stream is cut into chunks is invisible: on every byte stream that does not run into
      an oversize prefix the receiver ends with the frames and the remainder of the whole stream,
      and on the others it fails having delivered the same frames. */
  lemma {:induction false} ChunkingInvisible(max: nat, left: seq<byte>, chunks: seq<seq<byte>>)
    requires Incomplete(max, left)
    ensures var whole := Drain(max, left + Concat(chunks));
            var got := Receive(max, left, chunks);
            got.frames == whole.frames && got.oversize == whole.oversize
            && (!whole.oversize ==> got.rest == whole.rest)
    decreases |chunks|
  {
    if chunks == [] {
      assert left + Concat(chunks) == left;
    } else {
      var d := Drain(max, left + chunks[0]);
      DrainMeetsDescription(max, left + chunks[0]);
      assert left + Concat(chunks) == left + chunks[0] + Concat(chunks[1..]);
      if d.oversize {
        DrainKeepsFailing(max, left + chunks[0], Concat(chunks[1..]));
      } else {
        DrainSplits(max, left + chunks[0], Concat(chunks[1..]));
        ChunkingInvisible(max, d.rest, chunks[1..]);
      }
    }
  }

  /** The round trip: whatever messages were framed, and however their concatenation (with an
      incomplete frame behind it) was cut, the receiver delivers exactly those messages in order
      and keeps exactly the incomplete tail. */
  lemma StreamRoundTrip(max: nat, ms: seq<seq<byte>>, tail: seq<byte>, chunks: seq<seq<byte>>)
    requires AllAcceptable(max, ms) && Incomplete(max, tail)
    requires Concat(chunks) == FrameAll(ms) + tail
    ensures Receive(max, [], chunks) == Drained(ms, tail, false)
  {
    ChunkingInvisible(max, [], chunks);
    assert [] + Concat(chunks) == Concat(chunks);
    DescriptionDetermines(max, Drained(ms, tail, false));
  }

  /** A message travels through its frame unharmed if and only if its length fits the prefix and
      the receiver's limit. */
  lemma FrameRoundTripIff(max: nat, m: seq<byte>)
    ensures DecodeOne(max, Frame(m)) == Got(m, []) <==> Acceptable(max, m)
  {
    if Acceptable(max, m) {
      StepFindsFrame(max, m, []);
      assert Frame(m) + [] == Frame(m);
    }
  }

  /** A message of exactly 2^32 bytes is framed under the prefix 0 and comes back empty, with its
      whole payload left in the stream. */
  lemma TruncatedPrefix(max: nat)
    ensures var m: seq<byte> := seq(U32, _ => 0);
            DecodeOne(max, Frame(m)) == Got([], m)
  {
    var m: seq<byte> := seq(U32, _ => 0);
    assert Frame(m)[..4] == LE(U32, 4);
    FromLEOfLE(U32, 4);
    Pow256Values();
    assert Frame(m)[4..] == m;
  }

  // ----- Encoders -----

  datatype Encoded = EncodeTooLarge | Encoded(bytes: seq<byte>)

  /** A growable byte buffer with a read end and a write end (`bytes::BytesMut`). */
  class BytesMut {
    var data: seq<byte>

    constructor ()
      ensures data == []
    {
      data := [];
    }

    method PutSlice(s: seq<byte>)
      modifies this
      ensures data == old(data) + s
    {
      data := data + s;
    }

    method SplitTo(n: nat) returns (front: seq<byte>)
      requires n <= |data|
      modifies this
      ensures front == old(data)[..n] && data == old(data)[n..]
    {
      front, data := data[..n], data[n..];
    }
  }

  /** `SbeFrameCodec`: the Tokio codec. */
  class SbeFrameCodec {
    const maxFrameSize: nat

    constructor (max: nat)
      ensures maxFrameSize == max
    {
      maxFrameSize := max;
    }

    /** Takes one frame off `src`, or leaves `src` exactly as it was. */
    method Decode(src: BytesMut) returns (d: Decoded)
      modifies src
      ensures d == DecodeOne(maxFrameSize, old(src.data))
      ensures src.data == if d.Got? then d.rest else old(src.data)
    {
      if |src.data| < 4 {
        return NeedMore;
      }
      var length := Announced(src.data);
      if length > maxFrameSize {
        return TooLarge;
      }
      if |src.data| < 4 + length {
        return NeedMore;
      }
      var prefix := src.SplitTo(4);
      var frame := src.SplitTo(length);
      d := Got(frame, src.data);
    }

    /** Appends a frame to `dst`; the length is cast with `as u32`, so a message of 2^32 bytes or
        more is framed under a shortened prefix. */
    method Encode(item: seq<byte>, dst: BytesMut) returns (ok: bool)
      modifies dst
      ensures ok <==> |item| <= maxFrameSize
      ensures dst.data == if ok then old(dst.data) + Frame(item) else old(dst.data)
    {
      if |item| > maxFrameSize {
        return false;
      }
      dst.PutSlice(LE(|item|, 4));
      dst.PutSlice(item);
      return true;
    }
  }

  /** `UringConnection`: assembles frames in `pending`. */
  class UringConnection {
    const maxFrameSize: nat
    var pending: seq<byte>

    constructor (max: nat)
      ensures maxFrameSize == max && pending == []
    {
      maxFrameSize := max;
      pending := [];
    }

    method TryTakeFrame() returns (d: Decoded)
      modifies this
      ensures d == DecodeOne(maxFrameSize, old(pending))
      ensures pending == if d.Got? then d.rest else old(pending)
    {
      if |pending| < 4 {
        return NeedMore;
      }
      var frameLen := FromLE([pending[0], pending[1], pending[2], pending[3]]);
      assert pending[..4] == [pending[0], pending[1], pending[2], pending[3]];
      if frameLen > maxFrameSize {
        return TooLarge;
      }
      var total := 4 + frameLen;
      if |pending| < total {
        return NeedMore;
      }
      pending := pending[4..];
      var payload := pending[..frameLen];
      pending := pending[frameLen..];
      d := Got(payload, pending);
    }

    /** The receive loop, with the socket's reads given as `input`: one frame per call. `used` reads
        are consumed; no frame means that the reads ran out (or the limit was exceeded). */
    method Recv(input: seq<seq<byte>>) returns (d: Decoded, used: nat)
      modifies this
      ensures used <= |input|
      ensures d == DecodeOne(maxFrameSize, Fed(old(pending), input, used))
      ensures pending == if d.Got? then d.rest else Fed(old(pending), input, used)
      ensures d.NeedMore? ==> used == |input|
      ensures forall k :: 0 <= k < used ==> Incomplete(maxFrameSize, Fed(old(pending), input, k))
    {
      used := 0;
      FedNothing(pending, input);
      while true
        invariant used <= |input|
        invariant pending == Fed(old(pending), input, used)
        invariant forall k :: 0 <= k < used ==> Incomplete(maxFrameSize, Fed(old(pending), input, k))
        decreases |input| - used
      {
        d := TryTakeFrame();
        if !d.NeedMore? || used == |input| {
          return;
        }
        FedMore(old(pending), input, used);
        pending := pending + input[used];
        used := used + 1;
      }
    }

    /** `send_owned`: refuses lengths the prefix cannot carry. */
    method SendOwned(msg: seq<byte>) returns (e: Encoded)
      ensures e == if Acceptable(maxFrameSize, msg) then Encoded(Frame(msg)) else EncodeTooLarge
    {
      if |msg| > maxFrameSize {
        return EncodeTooLarge;
      }
      if |msg| >= U32 {
        return EncodeTooLarge;
      }
      var framed := LE(|msg|, 4);
      framed := framed + msg;
      return Encoded(framed);
    }
  }

  /** What is pending after the first `k` reads. */
  function Fed(pending: seq<byte>, input: seq<seq<byte>>, k: nat): seq<byte>
    requires k <= |input|
  {
    pending + Concat(input[..k])
  }

  lemma FedNothing(pending: seq<byte>, input: seq<seq<byte>>)
    ensures Fed(pending, input, 0) == pending
  {
  }

  lemma FedMore(pending: seq<byte>, input: seq<seq<byte>>, k: nat)
    requires k < |input|
    ensures Fed(pending, input, k + 1) == Fed(pending, input, k) + input[k]
  {
    ConcatSnoc(input[..k], input[k]);
    assert input[..k] + [input[k]] == input[..k + 1];
    Regroup(pending, Concat(input[..k]), input[k]);
  }

  lemma {:induction false} ConcatSnoc(chunks: seq<seq<byte>>, c: seq<byte>)
    ensures Concat(chunks + [c]) == Concat(chunks) + c
  {
    if chunks == [] {
      assert Concat([c]) == c + Concat([]);
    } else {
      assert (chunks + [c])[1..] == chunks[1..] + [c];
      ConcatSnoc(chunks[1..], c);
    }
  }

  /** A smoltcp session: the decode buffer, the queue of complete frames, and the closed flag. */
  class SmoltcpSession {
    var buf: seq<byte>
    var rxQueue: seq<seq<byte>>
    var closed: bool

    constructor ()
      ensures buf == [] && rxQueue == [] && !closed
    {
      buf, rxQueue, closed := [], [], false;
    }

    /** The decode loop of `SmoltcpStackInner::poll` after `slice` was received: all complete
        frames go to the receive queue; an oversize prefix clears the buffer and closes. */
    method Poll(max: nat, slice: seq<byte>)
      modifies this
      ensures var d := Drain(max, old(buf) + slice);
              && rxQueue == old(rxQueue) + d.frames
              && buf == (if d.oversize then [] else d.rest)
              && closed == (old(closed) || d.oversize)
    {
      buf := buf + slice;
      ghost var whole := Drain(max, buf);
      ghost var taken: seq<seq<byte>> := [];
      while true
        invariant closed == old(closed)
        invariant rxQueue == old(rxQueue) + taken
        invariant Prepend(taken, Drain(max, buf)) == whole
        decreases |buf|
      {
        if |buf| < 4 {
          DrainEnd(max, taken, buf);
          break;
        }
        var frameLen := FromLE(buf[..4]);
        if frameLen > max {
          DrainEnd(max, taken, buf);
          closed := true;
          buf := [];
          break;
        }
        if |buf| < 4 + frameLen {
          DrainEnd(max, taken, buf);
          break;
        }
        PrependStep(max, taken, buf);
        var frame := buf[4..4 + frameLen];
        buf := buf[4 + frameLen..];
        rxQueue := rxQueue + [frame];
        taken := taken + [frame];
      }
    }
  }

  // ----- The three decoders agree -----

  /** Repeatedly calling the Tokio decoder, as `Framed` does, drains the buffer. */
  method DrainTokio(codec: SbeFrameCodec, src: BytesMut) returns (frames: seq<seq<byte>>, failed: bool)
    modifies src
    ensures Drained(frames, src.data, failed) == Drain(codec.maxFrameSize, old(src.data))
  {
    frames, failed := [], false;
    while true
      invariant Prepend(frames, Drain(codec.maxFrameSize, src.data)) == Drain(codec.maxFrameSize, old(src.data))
      decreases |src.data|
    {
      ghost var before := src.data;
      var d := codec.Decode(src);
      if d.Got? {
        PrependStep(codec.maxFrameSize, frames, before);
        frames := frames + [d.frame];
      } else {
        DrainEnd(codec.maxFrameSize, frames, before);
        return frames, d.TooLarge?;
      }
    }
  }

  /** Repeatedly calling the io_uring decoder drains its buffer. */
  method DrainUring(conn: UringConnection) returns (frames: seq<seq<byte>>, failed: bool)
    modifies conn
    ensures Drained(frames, conn.pending, failed) == Drain(conn.maxFrameSize, old(conn.pending))
  {
    frames, failed := [], false;
    while true
      invariant Prepend(frames, Drain(conn.maxFrameSize, conn.pending)) == Drain(conn.maxFrameSize, old(conn.pending))
      decreases |conn.pending|
    {
      ghost var before := conn.pending;
      var d := conn.TryTakeFrame();
      if d.Got? {
        PrependStep(conn.maxFrameSize, frames, before);
        frames := frames + [d.frame];
      } else {
        DrainEnd(conn.maxFrameSize, frames, before);
        return frames, d.TooLarge?;
      }
    }
  }

  /** One more frame behind the frames of the first `i` messages. */
  lemma FrameNext(ms: seq<seq<byte>>, i: nat)
    requires i < |ms|
    ensures FrameAll(ms[..i + 1]) == FrameAll(ms[..i]) + Frame(ms[i])
  {
    FrameAllAppend(ms[..i], [ms[i]]);
    assert ms[..i] + [ms[i]] == ms[..i + 1];
    assert FrameAll([ms[i]]) == Frame(ms[i]) + FrameAll([]);
  }

  lemma WholeStream(max: nat, ms: seq<seq<byte>>)
    requires AllAcceptable(max, ms)
    ensures Drain(max, FrameAll(ms)) == Drained(ms, [], false)
  {
    DescriptionDetermines(max, Drained(ms, [], false));
    assert FrameAll(ms) + [] == FrameAll(ms);
  }

  /** Messages put on the wire, each by the Tokio encoder or by the io_uring encoder. */
  method EncodeAll(codec: SbeFrameCodec, conn: UringConnection, ms: seq<seq<byte>>, byTokio: seq<bool>)
      returns (wire: BytesMut)
    requires AllAcceptable(codec.maxFrameSize, ms) && conn.maxFrameSize == codec.maxFrameSize && |byTokio| == |ms|
    ensures fresh(wire) && wire.data == FrameAll(ms)
  {
    wire := new BytesMut();
    for i := 0 to |ms|
      invariant fresh(wire) && wire.data == FrameAll(ms[..i])
    {
      FrameNext(ms, i);
      assert Acceptable(codec.maxFrameSize, ms[i]);
      if byTokio[i] {
        var ok := codec.Encode(ms[i], wire);
      } else {
        var e := conn.SendOwned(ms[i]);
        wire.PutSlice(e.bytes);
      }
    }
    assert ms[..|ms|] == ms;
  }

  /** Wire compatibility: bytes written by the Tokio encoder or by the io_uring encoder, delivered
      to all three decoders, come out of each of them as the same messages with nothing left. */
  method WireCompatible(max: nat, ms: seq<seq<byte>>, byTokio: seq<bool>)
      returns (tokio: seq<seq<byte>>, uring: seq<seq<byte>>, smoltcp: seq<seq<byte>>)
    requires AllAcceptable(max, ms) && |byTokio| == |ms|
    ensures tokio == uring == smoltcp == ms
  {
    var codec := new SbeFrameCodec(max);
    var conn := new UringConnection(max);
    var wire := EncodeAll(codec, conn, ms, byTokio);
    WholeStream(max, ms);
    var session := new SmoltcpSession();
    assert [] + wire.data == wire.data;
    session.Poll(max, wire.data);
    smoltcp := session.rxQueue;
    conn.pending := wire.data;
    var failed;
    uring, failed := DrainUring(conn);
    tokio, failed := DrainTokio(codec, wire);
  }
}

/**
The shared-memory single-producer single-consumer ring (ironsbe-transport/src/ipc/ringbuffer.rs):
length-prefixed messages in a power-of-two byte region addressed by two ever-growing counters.
*/
module Ring {
  import opened Bytes
  import opened Framing

  // ----- Masking -----

  function Pow2(k: nat): (p: nat)
    ensures p >= 1
  {
    if k == 0 then 1 else 2 * Pow2(k - 1)
  }

  /** Bitwise `&` on unsigned integers. */
  function BitAnd(a: nat, b: nat): nat {
    if a == 0 || b == 0 then 0
    else 2 * BitAnd(a / 2, b / 2) + (if a % 2 == 1 && b % 2 == 1 then 1 else 0)
  }

  /** One bit of a remainder. */
  lemma ModuloStep(h: nat, p: nat)
    requires p > 0
    ensures h % (2 * p) == 2 * ((h / 2) % p) + h % 2
  {
    var q, r := (h / 2) / p, (h / 2) % p;
    assert q * (2 * p) == 2 * (q * p);
    ModUnique(h, 2 * p, q, 2 * r + h % 2);
  }

  /** One bit of a mask. */
  lemma MaskStep(h: nat, p: nat)
    requires p > 0
    ensures BitAnd(h, 2 * p - 1) == 2 * BitAnd(h / 2, p - 1) + h % 2
  {
    assert (2 * p - 1) / 2 == p - 1 && (2 * p - 1) % 2 == 1;
  }

  lemma MaskModuloStep(h: nat, p: nat)
    requires p > 0 && BitAnd(h / 2, p - 1) == (h / 2) % p
    ensures BitAnd(h, 2 * p - 1) == h % (2 * p)
  {
    ModuloStep(h, p);
    MaskStep(h, p);
  }

  /** Masking with `capacity - 1` takes a counter modulo a power-of-two capacity. */
  lemma {:induction false} MaskIsModulo(h: nat, k: nat)
    ensures BitAnd(h, Pow2(k) - 1) == h % Pow2(k)
  {
    if k > 0 {
      MaskIsModulo(h / 2, k - 1);
      MaskModuloStep(h, Pow2(k - 1));
    }
  }

  // ----- The region as a window on an unbounded tape -----

  /** The cell that holds tape position `p`. */
  function Cell(cap: nat, p: int): (c: nat)
    requires cap > 0
    ensures c < cap
  {
    p % cap
  }

  /** Tape positions less than a capacity apart live in different cells. */
  lemma CellsDistinct(cap: nat, p: int, q: int)
    requires p < q < p + cap
    ensures Cell(cap, p) != Cell(cap, q)
  {
    if p % cap == q % cap {
      assert (q / cap - p / cap) * cap == q - p;
      if q / cap - p / cap >= 1 {
        MulAtLeast(q / cap - p / cap, cap);
      } else if q / cap - p / cap <= -1 {
        MulAtLeast(p / cap - q / cap, cap);
      }
    }
  }

  /** Offsetting a cell index is offsetting the position. */
  lemma CellShift(cap: nat, p: int, k: int)
    requires cap > 0
    ensures Cell(cap, Cell(cap, p) + k) == Cell(cap, p + k)
  {
    var x := p % cap + k;
    var q := x / cap;
    assert p + k == (p / cap + q) * cap + x % cap by {
      assert (p / cap + q) * cap == (p / cap) * cap + q * cap;
    }
    ModUnique(p + k, cap, p / cap + q, x % cap);
  }

  /** The region after `data` was laid on the tape from position `pos` on. */
  function WrapWrite(region: seq<byte>, pos: nat, data: seq<byte>): (r: seq<byte>)
    requires 0 < |region| && |data| <= |region|
    ensures |r| == |region|
  {
    seq(|region|, i requires 0 <= i < |region| =>
      if Cell(|region|, i - pos) < |data| then data[Cell(|region|, i - pos)] else region[i])
  }

  /** The `len` bytes on the tape from position `pos` on. */
  function WrapRead(region: seq<byte>, pos: nat, len: nat): (s: seq<byte>)
    requires 0 < |region|
    ensures |s| == len
  {
    seq(len, j requires 0 <= j < len => region[Cell(|region|, pos + j)])
  }

  lemma CellBack(cap: nat, pos: nat, j: nat)
    requires j < cap
    ensures Cell(cap, Cell(cap, pos + j) - pos) == j
  {
    CellShift(cap, pos + j, 0 - pos);
    assert pos + j + (0 - pos) == j;
    ModUnique(j, cap, 0, j);
  }

  /** What was laid on the tape is read back from it. */
  lemma ReadBack(region: seq<byte>, pos: nat, data: seq<byte>)
    requires 0 < |region| && |data| <= |region|
    ensures WrapRead(WrapWrite(region, pos, data), pos, |data|) == data
  {
    forall j | 0 <= j < |data|
      ensures WrapRead(WrapWrite(region, pos, data), pos, |data|)[j] == data[j]
    {
      CellBack(|region|, pos, j);
    }
  }

  /** Writing ahead of a window, less than a capacity past its start, leaves the window alone. */
  lemma WriteAhead(region: seq<byte>, pos: nat, data: seq<byte>, lo: nat, len: nat)
    requires 0 < |region| && |data| <= |region|
    requires lo + len <= pos && pos + |data| <= lo + |region|
    ensures WrapRead(WrapWrite(region, pos, data), lo, len) == WrapRead(region, lo, len)
  {
    var cap := |region|;
    forall j | 0 <= j < len
      ensures WrapRead(WrapWrite(region, pos, data), lo, len)[j] == WrapRead(region, lo, len)[j]
    {
      CellShift(cap, lo + j, 0 - pos);
      ModUnique(lo + j + (0 - pos), cap, -1, lo + j - pos + cap);
    }
  }

  /** A cell seen from `skip` positions further on. */
  lemma CellSkip(cap: nat, p: int, skip: nat)
    requires skip <= cap && cap > 0
    ensures var j := Cell(cap, p);
            Cell(cap, p - skip) == if j >= skip then j - skip else j - skip + cap
  {
    var j := Cell(cap, p);
    CellShift(cap, p, 0 - skip);
    if j >= skip {
      ModUnique(j - skip, cap, 0, j - skip);
    } else {
      ModUnique(j - skip, cap, -1, j - skip + cap);
    }
  }

  /** Two adjacent writes are one write. */
  lemma WriteTwice(region: seq<byte>, pos: nat, a: seq<byte>, b: seq<byte>)
    requires 0 < |region| && |a| + |b| <= |region|
    ensures WrapWrite(WrapWrite(region, pos, a), pos + |a|, b) == WrapWrite(region, pos, a + b)
  {
    var cap := |region|;
    forall i | 0 <= i < cap
      ensures WrapWrite(WrapWrite(region, pos, a), pos + |a|, b)[i] == WrapWrite(region, pos, a + b)[i]
    {
      CellSkip(cap, i - pos, |a|);
      assert i - pos - |a| == i - (pos + |a|);
    }
  }

  /** Two adjacent reads are one read. */
  lemma ReadTwice(region: seq<byte>, pos: nat, m: nat, n: nat)
    requires 0 < |region|
    ensures WrapRead(region, pos, m + n) == WrapRead(region, pos, m) + WrapRead(region, pos + m, n)
  {
  }

  /** `write_with_wrap`: one copy, or two when the data runs past the end of the region. */
  method WriteWithWrap(region: array<byte>, offset: nat, data: seq<byte>)
    requires 0 < region.Length && |data| <= region.Length
    modifies region
    ensures region[..] == WrapWrite(old(region[..]), offset, data)
  {
    var capacity := region.Length;
    var relative := offset % capacity;
    if relative + |data| <= capacity {
      CopyInto(region, relative, data);
    } else {
      var first := capacity - relative;
      CopyInto(region, relative, data[..first]);
      CopyInto(region, 0, data[first..]);
    }
    forall i | 0 <= i < capacity
      ensures region[..][i] == WrapWrite(old(region[..]), offset, data)[i]
    {
      CellFromRelative(capacity, offset, i);
    }
    assert region[..] == WrapWrite(old(region[..]), offset, data);
  }

  lemma CellFromRelative(cap: nat, offset: nat, i: nat)
    requires i < cap
    ensures Cell(cap, i - offset) == if offset % cap <= i then i - offset % cap else i - offset % cap + cap
  {
    var r, q := offset % cap, offset / cap;
    assert offset == q * cap + r;
    if r <= i {
      assert i - offset == (-q) * cap + (i - r);
      ModUnique(i - offset, cap, -q, i - r);
    } else {
      assert i - offset == (-q - 1) * cap + (i - r + cap);
      ModUnique(i - offset, cap, -q - 1, i - r + cap);
    }
  }

  /** `read_with_wrap`: the mirror image. */
  method ReadWithWrap(region: array<byte>, offset: nat, len: nat) returns (result: seq<byte>)
    requires 0 < region.Length && len <= region.Length
    ensures result == WrapRead(region[..], offset, len)
  {
    var capacity := region.Length;
    var relative := offset % capacity;
    if relative + len <= capacity {
      result := region[relative..relative + len];
    } else {
      var first := capacity - relative;
      result := region[relative..] + region[..len - first];
    }
    forall j | 0 <= j < len
      ensures result[j] == WrapRead(region[..], offset, len)[j]
    {
      CellShift(capacity, offset, j);
      if relative + j < capacity {
        ModUnique(relative + j, capacity, 0, relative + j);
      } else {
        ModUnique(relative + j, capacity, 1, relative + j - capacity);
      }
    }
  }

  // ----- The ring as an object -----

  /** A tape that holds `front` and then `back` holds each of them in its place. */
  lemma TapeSplit(region: seq<byte>, pos: nat, front: seq<byte>, back: seq<byte>)
    requires 0 < |region|
    requires WrapRead(region, pos, |front| + |back|) == front + back
    ensures WrapRead(region, pos, |front|) == front
    ensures WrapRead(region, pos + |front|, |back|) == back
  {
    ReadTwice(region, pos, |front|, |back|);
    var w := WrapRead(region, pos, |front| + |back|);
    assert w[..|front|] == front && w[|front|..] == back;
  }

  /** A frame on the tape and what is behind it. */
  lemma FrameOnTape(region: seq<byte>, tail: nat, m: seq<byte>)
    requires 0 < |region| && |m| < U32 && WrapRead(region, tail, 4 + |m|) == LE(|m|, 4) + m
    ensures FromLE(WrapRead(region, tail, 4)) == |m|
    ensures WrapRead(region, tail + 4, |m|) == m
  {
    TapeSplit(region, tail, LE(|m|, 4), m);
    Pow256Values();
    LERoundTrip(|m|, 4);
  }

  lemma FrontOf(region: seq<byte>, tail: nat, m: seq<byte>, rest: seq<byte>)
    requires 0 < |region| && |m| < U32 && WrapRead(region, tail, 4 + |m| + |rest|) == Frame(m) + rest
    ensures FromLE(WrapRead(region, tail, 4)) == |m|
    ensures WrapRead(region, tail + 4, |m|) == m
    ensures WrapRead(region, tail + (4 + |m|), |rest|) == rest
  {
    TapeSplit(region, tail, Frame(m), rest);
    FrameOnTape(region, tail, m);
  }

  /** The front message of a tape of frames, and what is behind it. */
  lemma FrontFrame(region: seq<byte>, tail: nat, queue: seq<seq<byte>>)
    requires 0 < |region| && queue != [] && |queue[0]| < U32
    requires WrapRead(region, tail, |FrameAll(queue)|) == FrameAll(queue)
    ensures FromLE(WrapRead(region, tail, 4)) == |queue[0]|
    ensures WrapRead(region, tail + 4, |queue[0]|) == queue[0]
    ensures WrapRead(region, tail + (4 + |queue[0]|), |FrameAll(queue[1..])|) == FrameAll(queue[1..])
  {
    FrontOf(region, tail, queue[0], FrameAll(queue[1..]));
  }

  /** The same, read from the masked position. */
  lemma MaskedFront(region: seq<byte>, tail: nat, queue: seq<seq<byte>>)
    requires 0 < |region| && queue != [] && |queue[0]| < U32
    requires WrapRead(region, tail, |FrameAll(queue)|) == FrameAll(queue)
    ensures FromLE(WrapRead(region, tail % |region|, 4)) == |queue[0]|
    ensures WrapRead(region, tail % |region| + 4, |queue[0]|) == queue[0]
    ensures WrapRead(region, tail + 4 + |queue[0]|, |FrameAll(queue[1..])|) == FrameAll(queue[1..])
    ensures |FrameAll(queue)| == 4 + |queue[0]| + |FrameAll(queue[1..])|
  {
    FrontFrame(region, tail, queue);
    ReadFromMasked(region, tail, 0, 4);
    ReadFromMasked(region, tail, 4, |queue[0]|);
    assert tail + 4 + |queue[0]| == tail + (4 + |queue[0]|);
  }

  /** Prefix and payload copied from the masked position are one frame at the counter. */
  lemma MaskedFrame(region: seq<byte>, head: nat, offset: nat, p: seq<byte>, m: seq<byte>)
    requires 0 < |region| && |p| + |m| <= |region| && offset == head % |region|
    ensures WrapWrite(WrapWrite(region, offset, p), offset + |p|, m) == WrapWrite(region, head, p + m)
  {
    WriteTwice(region, offset, p, m);
    WriteFromMasked(region, head, p + m);
  }

  /** A frame written behind a tape of frames extends it. */
  lemma TapeExtended(region: seq<byte>, tail: nat, len: nat, queue: seq<seq<byte>>, m: seq<byte>, r: seq<byte>)
    requires 0 < |region| && len + 4 + |m| <= |region| && WrapRead(region, tail, len) == FrameAll(queue)
    requires r == WrapWrite(region, tail + len, Frame(m))
    ensures WrapRead(r, tail, len + (4 + |m|)) == FrameAll(queue + [m])
  {
    WriteAhead(region, tail + len, Frame(m), tail, len);
    ReadBack(region, tail + len, Frame(m));
    TapeGrows(r, tail, len, queue, m);
  }

  /** A frame laid down behind a tape of frames. */
  lemma TapeGrows(region: seq<byte>, tail: nat, len: nat, unread: seq<seq<byte>>, m: seq<byte>)
    requires 0 < |region| && WrapRead(region, tail, len) == FrameAll(unread)
    requires WrapRead(region, tail + len, 4 + |m|) == Frame(m)
    ensures WrapRead(region, tail, len + (4 + |m|)) == FrameAll(unread + [m])
  {
    ReadTwice(region, tail, len, 4 + |m|);
    FrameAllAppend(unread, [m]);
    assert FrameAll([m]) == Frame(m) + FrameAll([]);
  }

  /** Control words and byte region of a ring; the control words are kept apart from the region. */
  class SharedRing {
    const region: array<byte>
    const capacity: nat
    const mask: nat
    ghost const exponent: nat
    var head: nat
    var tail: nat
    ghost var queue: seq<seq<byte>>

    ghost predicate Valid()
      reads this, region
    {
      && capacity == region.Length == Pow2(exponent) && mask == capacity - 1
      && tail <= head <= tail + capacity
      && head - tail == |FrameAll(queue)|
      && WrapRead(region[..], tail, head - tail) == FrameAll(queue)
      && forall i :: 0 <= i < |queue| ==> |queue[i]| < U32
    }

    constructor (ghost k: nat, size: nat)
      requires size == Pow2(k)
      ensures Valid() && fresh(region) && capacity == size && queue == []
    {
      region := new byte[size](_ => 0);
      capacity, mask, exponent := size, size - 1, k;
      head, tail, queue := 0, 0, [];
    }

    /** Free bytes as the producer sees them. */
    method AvailableToWrite() returns (n: nat)
      requires Valid()
      ensures n == capacity - |FrameAll(queue)|
    {
      n := capacity - (head - tail);
    }

    /** Bytes waiting as the consumer sees them. */
    method AvailableToRead() returns (n: nat)
      requires Valid()
      ensures n == |FrameAll(queue)|
    {
      n := head - tail;
    }

    /** `SharedProducer::write`: enqueues the message, or changes nothing when it does not fit. */
    method Write(data: seq<byte>) returns (ok: bool)
      requires Valid() && |data| < U32
      modifies this`head, this`queue, region
      ensures Valid()
      ensures ok <==> 4 + |data| <= capacity - |FrameAll(old(queue))|
      ensures ok ==> queue == old(queue) + [data]
      ensures !ok ==> queue == old(queue) && head == old(head) && region[..] == old(region[..])
    {
      var available := capacity - (head - tail);
      var needed := 4 + |data|;
      if available < needed {
        return false;
      }
      ghost var before := region[..];
      var offset := BitAnd(head, mask);
      MaskIsModulo(head, exponent);
      var lenBytes := LE(|data|, 4);
      WriteWithWrap(region, offset, lenBytes);
      WriteWithWrap(region, offset + 4, data);
      MaskedFrame(before, head, offset, lenBytes, data);
      TapeExtended(before, tail, head - tail, queue, data, region[..]);
      head := head + needed;
      queue := queue + [data];
      return true;
    }

    /** `SharedConsumer::read`: dequeues the oldest message, byte for byte. */
    method Read() returns (m: Option<seq<byte>>)
      requires Valid()
      modifies this`tail, this`queue
      ensures Valid()
      ensures m == if old(queue) == [] then None else Some(old(queue)[0])
      ensures queue == if old(queue) == [] then [] else old(queue)[1..]
    {
      if tail >= head {
        assert queue != [] ==> |FrameAll(queue)| >= 4;
        return None;
      }
      var offset := BitAnd(tail, mask);
      MaskIsModulo(tail, exponent);
      MaskedFront(region[..], tail, queue);
      var lenBytes := ReadWithWrap(region, offset, 4);
      var len := FromLE(lenBytes);
      var data := ReadWithWrap(region, offset + 4, len);
      tail := tail + 4 + len;
      queue := queue[1..];
      return Some(data);
    }
  }

  lemma WriteFromMasked(region: seq<byte>, pos: nat, data: seq<byte>)
    requires 0 < |region| && |data| <= |region|
    ensures WrapWrite(region, pos % |region|, data) == WrapWrite(region, pos, data)
  {
    var cap := |region|;
    forall i | 0 <= i < cap
      ensures WrapWrite(region, pos % cap, data)[i] == WrapWrite(region, pos, data)[i]
    {
      CellFromRelative(cap, pos, i);
      CellFromRelative(cap, pos % cap, i);
      ModUnique(pos % cap, cap, 0, pos % cap);
    }
  }

  lemma ReadFromMasked(region: seq<byte>, pos: nat, skip: nat, len: nat)
    requires 0 < |region|
    ensures WrapRead(region, pos % |region| + skip, len) == WrapRead(region, pos + skip, len)
  {
    var cap := |region|;
    var a, b := WrapRead(region, pos % cap + skip, len), WrapRead(region, pos + skip, len);
    forall j | 0 <= j < len
      ensures a[j] == b[j]
    {
      CellShift(cap, pos, skip + j);
      assert pos % cap + (skip + j) == pos % cap + skip + j;
    }
  }

  // ----- The control words and the region -----

  const HeaderSize: nat := 128

  /** The bytes of `head`, `tail`, `capacity` and `mask` in the shared mapping. */
  predicate IsControlByte(p: nat) {
    p < 8 || 64 <= p < 72 || 128 <= p < 144
  }

  /** The bytes that a region of `cap` bytes takes behind `header` bytes. */
  predicate IsRegionByte(header: nat, cap: nat, p: nat) {
    header <= p < header + cap
  }

  /** The header sizes that keep rings of every capacity off the control words are those from 144 on;
      `HeaderSize` is not one of them. */
  lemma ControlApartIff(header: nat)
    ensures (forall cap, p :: IsControlByte(p) ==> !IsRegionByte(header, cap, p)) <==> header >= 144
  {
    if header < 144 {
      var cap := 144 - header;
      assert IsControlByte(143) && IsRegionByte(header, cap, 143);
    }
  }

  /** Behind it the capacity word is the first eight bytes of the region. */
  lemma CapacityInRegion(cap: nat, i: nat)
    requires i < 8 <= cap
    ensures IsControlByte(HeaderSize + i) && IsRegionByte(HeaderSize, cap, HeaderSize + i)
  {
  }

  lemma WriteAtStart(region: seq<byte>, data: seq<byte>, i: nat)
    requires 0 < |region| && |data| <= |region| && i < |region|
    ensures WrapWrite(region, 0, data)[i] == if i < |data| then data[i] else region[i]
  {
    ModUnique(i, |region|, 0, i);
    assert Cell(|region|, i - 0) == i;
  }

  /** `m`, written first, leaves the capacity word `cap` as it was: its length agrees with the
      capacity in the 32 bits of the prefix, and its first four bytes with the upper half. */
  predicate SparesCapacity(cap: nat, m: seq<byte>) {
    |m| % U32 == cap % U32 && forall j :: 0 <= j < 4 && j < |m| ==> m[j] == LE(cap, 8)[4 + j]
  }

  lemma PrefixSparesIff(cap: nat, m: seq<byte>)
    ensures LE(cap, 8)[..4] == LE(|m|, 4) <==> |m| % U32 == cap % U32
  {
    Pow256Values();
    LEPrefix(cap, 8, 4);
    LESameIff(cap, |m|, 4);
  }

  /** Eight bytes overwritten by `p + m` stay the same exactly if they agreed with it. */
  lemma OverwriteIff(word: seq<byte>, p: seq<byte>, m: seq<byte>, r: seq<byte>)
    requires |word| == |r| == 8 && |p| == 4
    requires forall i :: 0 <= i < 8 ==> r[i] == if i < 4 + |m| then (p + m)[i] else word[i]
    ensures r == word <==> word[..4] == p && forall j :: 0 <= j < 4 && j < |m| ==> m[j] == word[4 + j]
  {
    if r == word {
      assert forall i :: 0 <= i < 4 ==> word[i] == p[i];
      forall j | 0 <= j < 4 && j < |m|
        ensures m[j] == word[4 + j]
      {
        assert (p + m)[4 + j] == m[j];
      }
    }
    if word[..4] == p && forall j :: 0 <= j < 4 && j < |m| ==> m[j] == word[4 + j] {
      forall i | 0 <= i < 8
        ensures r[i] == word[i]
      {
        if i < 4 {
          assert word[..4][i] == word[i];
        } else if i < 4 + |m| {
          assert m[i - 4] == word[4 + (i - 4)];
        }
      }
    }
  }

  lemma FirstWord(region: seq<byte>, m: seq<byte>, i: nat)
    requires 8 <= |region| && 4 + |m| <= |region| && i < 8
    ensures WrapWrite(region, 0, Frame(m))[..8][i]
            == if i < 4 + |m| then (LE(|m|, 4) + m)[i] else region[..8][i]
  {
    WriteAtStart(region, Frame(m), i);
  }

  /** In the source's layout the first write of a fresh ring keeps the capacity word if and only if
      its message spares it. */
  lemma CapacityKeptIff(region: seq<byte>, cap: nat, m: seq<byte>)
    requires 8 <= cap == |region| && cap < U64 && region[..8] == LE(cap, 8) && 4 + |m| <= cap
    ensures FromLE(WrapWrite(region, 0, Frame(m))[..8]) == cap <==> SparesCapacity(cap, m)
  {
    var word, r := LE(cap, 8), WrapWrite(region, 0, Frame(m));
    forall i: nat | i < 8
      ensures r[..8][i] == if i < 4 + |m| then (LE(|m|, 4) + m)[i] else word[i]
    {
      FirstWord(region, m, i);
    }
    OverwriteIff(word, LE(|m|, 4), m, r[..8]);
    PrefixSparesIff(cap, m);
    Pow256Values();
    LERoundTrip(cap, 8);
    LEOfFromLE(r[..8]);
  }

  /** No message spares a capacity below 2^32: there the first write always destroys it. */
  lemma FirstWriteDestroysCapacity(region: seq<byte>, cap: nat, m: seq<byte>)
    requires 8 <= cap == |region| && cap < U32 && region[..8] == LE(cap, 8) && 4 + |m| <= cap
    ensures FromLE(WrapWrite(region, 0, Frame(m))[..8]) != cap
  {
    CapacityKeptIff(region, cap, m);
    ModUnique(cap, U32, 0, cap);
    ModUnique(|m|, U32, 0, |m|);
  }

  /** Where the region is too short for the whole word, its low half is destroyed all the same. */
  lemma FirstWriteDestroysLowHalf(region: seq<byte>, cap: nat, m: seq<byte>)
    requires 4 <= cap == |region| && cap < U32 && region[..4] == LE(cap, 4) && 4 + |m| <= cap
    ensures WrapWrite(region, 0, Frame(m))[..4] != LE(cap, 4)
  {
    var r := WrapWrite(region, 0, Frame(m));
    forall i: nat | i < 4
      ensures r[i] == LE(|m|, 4)[i]
    {
      WriteAtStart(region, Frame(m), i);
    }
    assert r[..4] == LE(|m|, 4);
    Pow256Values();
    LESameIff(cap, |m|, 4);
    ModUnique(cap, U32, 0, cap);
    ModUnique(|m|, U32, 0, |m|);
  }

  /** The mask word lies behind the capacity word, under bytes 4 to 11 of a first message. */
  predicate SparesMask(mask: nat, m: seq<byte>) {
    forall j :: 4 <= j < 12 && j < |m| ==> m[j] == LE(mask, 8)[j - 4]
  }

  lemma SecondWord(region: seq<byte>, m: seq<byte>, i: nat)
    requires 16 <= |region| && 4 + |m| <= |region| && i < 8
    ensures WrapWrite(region, 0, Frame(m))[8..16][i] == if i + 4 < |m| then m[i + 4] else region[8..16][i]
  {
    WriteAtStart(region, Frame(m), i + 8);
    assert Frame(m) == LE(|m|, 4) + m;
  }

  /** The first write keeps the mask if and only if its message spares it; a message of at most four
      bytes always does. */
  lemma MaskKeptIff(region: seq<byte>, mask: nat, m: seq<byte>)
    requires 16 <= |region| && mask < U64 && region[8..16] == LE(mask, 8) && 4 + |m| <= |region|
    ensures FromLE(WrapWrite(region, 0, Frame(m))[8..16]) == mask <==> SparesMask(mask, m)
  {
    var word, r := LE(mask, 8), WrapWrite(region, 0, Frame(m))[8..16];
    forall i: nat | i < 8
      ensures r[i] == if i + 4 < |m| then m[i + 4] else word[i]
    {
      SecondWord(region, m, i);
    }
    OverlaidIff(word, m, r);
    Pow256Values();
    LERoundTrip(mask, 8);
    LEOfFromLE(r);
  }

  lemma OverlaidIff(word: seq<byte>, m: seq<byte>, r: seq<byte>)
    requires |word| == |r| == 8 && forall i :: 0 <= i < 8 ==> r[i] == if i + 4 < |m| then m[i + 4] else word[i]
    ensures r == word <==> forall j :: 4 <= j < 12 && j < |m| ==> m[j] == word[j - 4]
  {
    if r == word {
      forall j | 4 <= j < 12 && j < |m|
        ensures m[j] == word[j - 4]
      {
        assert r[j - 4] == m[j];
      }
    }
  }

  /** Larger capacities are spared by an empty first message. */
  lemma EmptySparesLarge(k: nat)
    requires k >= 32
    ensures SparesCapacity(Pow2(k), [])
  {
    Pow2Multiple(k);
  }

  lemma Pow2Four(j: nat)
    ensures Pow2(j + 4) == 16 * Pow2(j)
  {
    assert Pow2(j + 2) == 2 * Pow2(j + 1) == 4 * Pow2(j);
    assert Pow2(j + 4) == 2 * Pow2(j + 3) == 4 * Pow2(j + 2);
  }

  lemma Pow2Eight(j: nat)
    ensures Pow2(j + 8) == 256 * Pow2(j)
  {
    Pow2Four(j);
    Pow2Four(j + 4);
  }

  lemma Pow2Multiple(k: nat)
    requires k >= 32
    ensures Pow2(k) % U32 == 0
  {
    var j := k - 32;
    Pow2Eight(j);
    Pow2Eight(j + 8);
    Pow2Eight(j + 16);
    Pow2Eight(j + 24);
    ModUnique(Pow2(k), U32, Pow2(j), 0);
  }

  // ----- The width of the prefix -----

  /** The prefix of a frame on the tape is the length in 32 bits. */
  lemma PrefixOnTape(region: seq<byte>, pos: nat, m: seq<byte>)
    requires 0 < |region| && WrapRead(region, pos, 4 + |m|) == LE(|m|, 4) + m
    ensures FromLE(WrapRead(region, pos, 4)) == |m| % U32
  {
    TapeSplit(region, pos, LE(|m|, 4), m);
    Pow256Values();
    FromLEOfLE(|m|, 4);
  }

  /** A frame written anywhere announces the payload's length if and only if it is below 2^32. */
  lemma PrefixHoldsIff(region: seq<byte>, pos: nat, m: seq<byte>)
    requires 0 < |region| && 4 + |m| <= |region|
    ensures FromLE(WrapRead(WrapWrite(region, pos, Frame(m)), pos, 4)) == |m| <==> |m| < U32
  {
    ReadBack(region, pos, Frame(m));
    PrefixOnTape(WrapWrite(region, pos, Frame(m)), pos, m);
    if |m| < U32 {
      ModUnique(|m|, U32, 0, |m|);
    }
  }
}

/**
The meaning of the generated message codec (ironsbe-codegen/src/rust/messages.rs and types.rs, over
the resolved fields of ironsbe-schema/src/ir.rs): setters write at fixed offsets behind the message
header, getters read there.
*/
module Codec {
  import opened Bytes
  import opened Layout

  // ----- One field -----

  /** The wire type of a field: an integer of `w` bytes, an enum over such an integer, or an array of
      one-byte elements. Sets are their raw integer. */
  datatype Kind =
    | Uint(w: nat)
    | Int(w: nat)
    | Enum(w: nat, signed: bool, variants: seq<int>)
    | ByteArray(n: nat)

  datatype Value = Num(n: int) | Raw(bytes: seq<byte>)

  function Width(k: Kind): nat {
    match k
    case Uint(w) => w
    case Int(w) => w
    case Enum(w, _, _) => w
    case ByteArray(n) => n
  }

  predicate FitsUnsigned(n: int, w: nat) { 0 <= n < Pow256(w) }

  predicate FitsSigned(n: int, w: nat) { 0 <= 2 * n + Pow256(w) && 2 * n < Pow256(w) }

  /** The values a setter of this type can be called with (a byte slice may have any length). */
  predicate Admits(k: Kind, v: Value) {
    match k
    case Uint(w) => v.Num? && FitsUnsigned(v.n, w)
    case Int(w) => v.Num? && FitsSigned(v.n, w)
    case Enum(w, signed, variants) =>
      v.Num? && v.n in variants && (if signed then FitsSigned(v.n, w) else FitsUnsigned(v.n, w))
    case ByteArray(n) => v.Raw?
  }

  /** Two's complement. */
  function ToUnsigned(n: int, w: nat): (u: nat)
    requires FitsSigned(n, w)
    ensures u < Pow256(w)
  {
    if n < 0 then n + Pow256(w) else n
  }

  function ToSigned(u: nat, w: nat): int {
    if 2 * u >= Pow256(w) then u - Pow256(w) else u
  }

  function Zeros(n: nat): (z: seq<byte>)
    ensures |z| == n
  {
    seq(n, _ => 0)
  }

  /** A byte slice cut or zero-filled to `n` bytes. */
  function Pad(b: seq<byte>, n: nat): (p: seq<byte>)
    ensures |p| == n
  {
    if |b| >= n then b[..n] else b + Zeros(n - |b|)
  }

  function Encode(k: Kind, v: Value): (s: seq<byte>)
    requires Admits(k, v)
    ensures |s| == Width(k)
  {
    match k
    case Uint(w) => LE(v.n, w)
    case Int(w) => LE(ToUnsigned(v.n, w), w)
    case Enum(w, signed, _) => if signed then LE(ToUnsigned(v.n, w), w) else LE(v.n, w)
    case ByteArray(n) => Pad(v.bytes, n)
  }

  /** A number that is not a variant decodes as the first variant. */
  function Decode(k: Kind, s: seq<byte>): Value
    requires |s| == Width(k)
  {
    match k
    case Uint(w) => Num(FromLE(s))
    case Int(w) => Num(ToSigned(FromLE(s), w))
    case Enum(w, signed, variants) =>
      var n := if signed then ToSigned(FromLE(s), w) else FromLE(s);
      Num(if n in variants || variants == [] then n else variants[0])
    case ByteArray(n) => Raw(s)
  }

  /** What a getter gives back after a setter: the value itself, or the padded byte array. */
  function Normal(k: Kind, v: Value): Value {
    if k.ByteArray? && v.Raw? then Raw(Pad(v.bytes, k.n)) else v
  }

  lemma DecodeEncode(k: Kind, v: Value)
    requires Admits(k, v)
    ensures Decode(k, Encode(k, v)) == Normal(k, v)
  {
    match k
    case Uint(w) => LERoundTrip(v.n, w);
    case Int(w) => LERoundTrip(ToUnsigned(v.n, w), w);
    case Enum(w, signed, _) =>
      LERoundTrip(if signed then ToUnsigned(v.n, w) else v.n, w);
    case ByteArray(n) =>
  }

  // ----- A block of fields -----

  /** An accessor: a wire type at an offset within a block. */
  datatype Leaf = Leaf(offset: nat, kind: Kind)
  {
    function End(): nat { offset + Width(kind) }
  }

  function AsFields(leaves: seq<Leaf>): (fs: seq<Field>)
    ensures |fs| == |leaves|
  {
    seq(|leaves|, i requires 0 <= i < |leaves| => Field(leaves[i].offset, Width(leaves[i].kind), true))
  }

  /** The accessors are apart and inside the block. */
  predicate WellLaid(leaves: seq<Leaf>, block: nat) {
    Positive(AsFields(leaves)) && Sound(AsFields(leaves), block)
  }

  /** Two accessors share no byte. */
  predicate Clear(a: Leaf, b: Leaf) {
    a.End() <= b.offset || b.End() <= a.offset
  }

  /** No two accessors share a byte. */
  predicate Disjoint(leaves: seq<Leaf>) {
    forall i, j :: 0 <= i < |leaves| && 0 <= j < |leaves| && i != j ==> Clear(leaves[i], leaves[j])
  }

  /** Every accessor ends inside the block. */
  predicate Inside(leaves: seq<Leaf>, block: nat) {
    forall i :: 0 <= i < |leaves| ==> leaves[i].End() <= block
  }

  lemma WellLaidDisjoint(leaves: seq<Leaf>, block: nat)
    requires WellLaid(leaves, block)
    ensures Disjoint(leaves) && Inside(leaves, block)
  {
    var fs := AsFields(leaves);
    forall i | 0 <= i < |leaves|
      ensures leaves[i].End() <= block
    {
      assert fs[i].End() <= block;
    }
    forall i, j | 0 <= i < |leaves| && 0 <= j < |leaves| && i != j
      ensures Clear(leaves[i], leaves[j])
    {
      assert i < j ==> fs[i].End() <= fs[j].offset;
      assert j < i ==> fs[j].End() <= fs[i].offset;
    }
  }

  /** A setter call: which accessor, and with which value. */
  datatype Call = Call(i: nat, v: Value)

  predicate Proper(leaves: seq<Leaf>, calls: seq<Call>) {
    forall c :: c in calls ==> c.i < |leaves| && Admits(leaves[c.i].kind, c.v)
  }

  function Get(buf: seq<byte>, base: nat, leaf: Leaf): Value
    requires base + leaf.End() <= |buf|
  {
    Decode(leaf.kind, buf[base + leaf.offset..base + leaf.End()])
  }

  /** A getter over encoded bytes gives back what was encoded. */
  lemma GetEncoded(buf: seq<byte>, base: nat, leaf: Leaf, v: Value)
    requires base + leaf.End() <= |buf| && Admits(leaf.kind, v)
    requires forall p :: base + leaf.offset <= p < base + leaf.End() ==>
               buf[p] == Encode(leaf.kind, v)[p - base - leaf.offset]
    ensures Get(buf, base, leaf) == Normal(leaf.kind, v)
  {
    assert buf[base + leaf.offset..base + leaf.End()] == Encode(leaf.kind, v);
    DecodeEncode(leaf.kind, v);
  }

  /** A getter depends on its own bytes only. */
  lemma GetSame(a: seq<byte>, b: seq<byte>, base: nat, leaf: Leaf)
    requires base + leaf.End() <= |a| && base + leaf.End() <= |b|
    requires forall p :: base + leaf.offset <= p < base + leaf.End() ==> a[p] == b[p]
    ensures Get(a, base, leaf) == Get(b, base, leaf)
  {
    assert a[base + leaf.offset..base + leaf.End()] == b[base + leaf.offset..base + leaf.End()];
  }

  /** One setter call, in place: scalars are written as they are, byte arrays copied and zero-filled. */
  method Set(buf: array<byte>, base: nat, leaf: Leaf, v: Value)
    requires base + leaf.End() <= buf.Length && Admits(leaf.kind, v)
    modifies buf
    ensures buf[..] == Splice(old(buf[..]), base + leaf.offset, Encode(leaf.kind, v))
  {
    var at := base + leaf.offset;
    match leaf.kind {
      case Uint(w) => CopyInto(buf, at, LE(v.n, w));
      case Int(w) => CopyInto(buf, at, LE(ToUnsigned(v.n, w), w));
      case Enum(w, signed, _) =>
        var raw := if signed then ToUnsigned(v.n, w) else v.n;
        CopyInto(buf, at, LE(raw, w));
      case ByteArray(n) =>
        var copyLen := if |v.bytes| < n then |v.bytes| else n;
        ghost var before := buf[..];
        CopyInto(buf, at, v.bytes[..copyLen]);
        if copyLen < n {
          CopyInto(buf, at + copyLen, Zeros(n - copyLen));
          assert v.bytes[..copyLen] == v.bytes;
        }
        assert buf[..] == Splice(before, at, Pad(v.bytes, n));
    }
  }

  /** Every accessor lies inside the buffer. */
  predicate Room(leaves: seq<Leaf>, base: nat, size: nat) {
    forall i :: 0 <= i < |leaves| ==> base + leaves[i].End() <= size
  }

  /** What a list of setter calls writes. */
  function Writes(base: nat, leaves: seq<Leaf>, calls: seq<Call>): (ws: seq<Write>)
    requires Proper(leaves, calls)
    ensures |ws| == |calls|
  {
    seq(|calls|, k requires 0 <= k < |calls| =>
      assert calls[k] in calls;
      Write(base + leaves[calls[k].i].offset, Encode(leaves[calls[k].i].kind, calls[k].v)))
  }

  lemma WritesInBounds(base: nat, leaves: seq<Leaf>, calls: seq<Call>, size: nat)
    requires Proper(leaves, calls) && Room(leaves, base, size)
    ensures InBounds(Writes(base, leaves, calls), size)
  {
    forall k | 0 <= k < |calls|
      ensures Writes(base, leaves, calls)[k].at + |Writes(base, leaves, calls)[k].bytes| <= size
    {
      assert calls[k] in calls;
    }
  }

  /** The buffer after a list of setter calls. */
  function ApplyCalls(buf: seq<byte>, base: nat, leaves: seq<Leaf>, calls: seq<Call>): (r: seq<byte>)
    requires Proper(leaves, calls) && Room(leaves, base, |buf|)
    ensures |r| == |buf|
  {
    WritesInBounds(base, leaves, calls, |buf|);
    ApplyWrites(buf, Writes(base, leaves, calls), |calls|)
  }

  method SetAll(buf: array<byte>, base: nat, leaves: seq<Leaf>, calls: seq<Call>)
    requires Proper(leaves, calls) && Room(leaves, base, buf.Length)
    modifies buf
    ensures buf[..] == ApplyCalls(old(buf[..]), base, leaves, calls)
  {
    ghost var ws := Writes(base, leaves, calls);
    WritesInBounds(base, leaves, calls, buf.Length);
    for k := 0 to |calls|
      invariant buf[..] == ApplyWrites(old(buf[..]), ws, k)
    {
      var c := calls[k];
      assert c in calls;
      Set(buf, base, leaves[c.i], c.v);
    }
  }

  /** The last of the first `n` calls that is for an accessor. */
  function LastCall(calls: seq<Call>, n: nat, i: nat): (r: Option<nat>)
    requires n <= |calls|
    ensures r.Some? ==> r.value < n && calls[r.value].i == i
    ensures r.Some? ==> forall k :: r.value < k < n ==> calls[k].i != i
    ensures r.None? ==> forall k :: 0 <= k < n ==> calls[k].i != i
  {
    if n == 0 then None
    else if calls[n - 1].i == i then Some(n - 1)
    else LastCall(calls, n - 1, i)
  }

  /** The value an accessor was last set to. */
  function LastSet(calls: seq<Call>, i: nat): (r: Option<Value>)
    ensures r.Some? ==> Call(i, r.value) in calls
  {
    match LastCall(calls, |calls|, i)
    case None => None
    case Some(k) => assert calls[k] in calls; Some(calls[k].v)
  }

  /** A call's write covers a byte of an accessor exactly if it is a call for that accessor. */
  lemma CoversOwn(base: nat, leaves: seq<Leaf>, calls: seq<Call>, i: nat, p: nat, k: nat)
    requires Disjoint(leaves) && Proper(leaves, calls) && i < |leaves| && k < |calls|
    requires base + leaves[i].offset <= p < base + leaves[i].End()
    ensures Writes(base, leaves, calls)[k].Covers(p) <==> calls[k].i == i
  {
    assert calls[k] in calls;
    if calls[k].i != i {
      assert Clear(leaves[calls[k].i], leaves[i]);
    }
  }

  /** So the last write that covers a byte of an accessor is its last call. */
  lemma LastCoverIsCall(base: nat, leaves: seq<Leaf>, calls: seq<Call>, i: nat, p: nat)
    requires Disjoint(leaves) && Proper(leaves, calls) && i < |leaves|
    requires base + leaves[i].offset <= p < base + leaves[i].End()
    ensures LastCover(Writes(base, leaves, calls), |calls|, p) == LastCall(calls, |calls|, i)
  {
    var ws := Writes(base, leaves, calls);
    forall k | 0 <= k < |calls|
      ensures ws[k].Covers(p) <==> calls[k].i == i
    {
      CoversOwn(base, leaves, calls, i, p, k);
    }
  }

  /** After any calls in any order, each byte of an accessor belongs to the encoding of the last
      value set through it, or is what it was. */
  lemma {:induction false} FieldByte(buf: seq<byte>, base: nat, leaves: seq<Leaf>, calls: seq<Call>, i: nat, p: nat)
    requires Disjoint(leaves) && Proper(leaves, calls) && i < |leaves| && Room(leaves, base, |buf|)
    requires base + leaves[i].offset <= p < base + leaves[i].End()
    ensures LastSet(calls, i).Some? ==> Admits(leaves[i].kind, LastSet(calls, i).value)
    ensures ApplyCalls(buf, base, leaves, calls)[p]
            == match LastSet(calls, i)
               case None => buf[p]
               case Some(v) => Encode(leaves[i].kind, v)[p - base - leaves[i].offset]
  {
    WritesInBounds(base, leaves, calls, |buf|);
    AppliedByte(buf, Writes(base, leaves, calls), |calls|, p);
    LastCoverIsCall(base, leaves, calls, i, p);
  }

  /** Setter calls change nothing outside the block. */
  lemma {:induction false} OutsideBlock(buf: seq<byte>, base: nat, leaves: seq<Leaf>, block: nat, calls: seq<Call>,
                                        p: nat)
    requires Inside(leaves, block) && Proper(leaves, calls) && Room(leaves, base, |buf|)
    requires p < |buf| && !(base <= p < base + block)
    ensures ApplyCalls(buf, base, leaves, calls)[p] == buf[p]
  {
    var ws := Writes(base, leaves, calls);
    WritesInBounds(base, leaves, calls, |buf|);
    AppliedByte(buf, ws, |calls|, p);
    forall k | 0 <= k < |calls|
      ensures !ws[k].Covers(p)
    {
      assert calls[k] in calls;
      assert leaves[calls[k].i].End() <= block;
    }
  }

  /** Setter calls change nothing before the block either, however far the accessors reach. */
  lemma {:induction false} BeforeBlock(buf: seq<byte>, base: nat, leaves: seq<Leaf>, calls: seq<Call>, p: nat)
    requires Proper(leaves, calls) && Room(leaves, base, |buf|) && p < base && p < |buf|
    ensures ApplyCalls(buf, base, leaves, calls)[p] == buf[p]
  {
    WritesInBounds(base, leaves, calls, |buf|);
    AppliedByte(buf, Writes(base, leaves, calls), |calls|, p);
  }

  /** The getter of an accessor gives the last value set through it. */
  ghost predicate Reads(buf: seq<byte>, base: nat, leaves: seq<Leaf>, calls: seq<Call>, i: nat)
    requires Proper(leaves, calls) && i < |leaves| && Room(leaves, base, |buf|)
  {
    LastSet(calls, i).Some? ==>
      Get(ApplyCalls(buf, base, leaves, calls), base, leaves[i]) == Normal(leaves[i].kind, LastSet(calls, i).value)
  }

  /** A block round trip: among calls in any order and any number, a getter returns the last value
      set. */
  lemma {:induction false} BlockRoundTrip(buf: seq<byte>, base: nat, leaves: seq<Leaf>, calls: seq<Call>, i: nat)
    requires Disjoint(leaves) && Proper(leaves, calls) && i < |leaves| && Room(leaves, base, |buf|)
    ensures Reads(buf, base, leaves, calls, i)
  {
    if LastSet(calls, i).Some? {
      var r, v := ApplyCalls(buf, base, leaves, calls), LastSet(calls, i).value;
      assert Call(i, v) in calls;
      forall p | base + leaves[i].offset <= p < base + leaves[i].End()
        ensures r[p] == Encode(leaves[i].kind, v)[p - base - leaves[i].offset]
      {
        FieldByte(buf, base, leaves, calls, i, p);
      }
      GetEncoded(r, base, leaves[i], v);
    }
  }

  // ----- Overlapping accessors -----

  /** Types whose bytes are free: each can be set to all zeros and to all ones. */
  predicate Free(k: Kind) {
    !k.Enum? && Width(k) > 0
  }

  predicate AllFree(leaves: seq<Leaf>) {
    forall i :: 0 <= i < |leaves| ==> Free(leaves[i].kind)
  }

  function Fill(ones: bool): byte {
    if ones then 255 else 0
  }

  /** The value whose bytes are all zeros or all ones. */
  function Filled(k: Kind, ones: bool): Value
    requires Free(k)
  {
    match k
    case Uint(w) => Num(if ones then Pow256(w) - 1 else 0)
    case Int(w) => Num(if ones then -1 else 0)
    case ByteArray(n) => Raw(seq(n, _ => Fill(ones)))
  }

  lemma {:induction false} FilledLE(w: nat, ones: bool, j: nat)
    requires j < w
    ensures LE(if ones then Pow256(w) - 1 else 0, w)[j] == Fill(ones)
  {
    var n := if ones then Pow256(w) - 1 else 0;
    assert n % 256 == Fill(ones) && n / 256 == if ones then Pow256(w - 1) - 1 else 0;
    if j > 0 {
      FilledLE(w - 1, ones, j - 1);
    }
  }

  lemma FilledEncodes(k: Kind, ones: bool, j: nat)
    requires Free(k) && j < Width(k)
    ensures Admits(k, Filled(k, ones)) && Encode(k, Filled(k, ones))[j] == Fill(ones)
  {
    match k
    case Uint(w) => FilledLE(w, ones, j);
    case Int(w) => FilledLE(w, ones, j);
    case ByteArray(_) =>
  }

  /** Only the encoding of a value decodes to it. */
  lemma DecodeInjective(k: Kind, s: seq<byte>, v: Value)
    requires Free(k) && Admits(k, v) && |s| == Width(k) && Decode(k, s) == Normal(k, v)
    ensures s == Encode(k, v)
  {
    LEOfFromLE(s);
  }

  lemma GetInjective(buf: seq<byte>, base: nat, leaf: Leaf, v: Value, p: nat)
    requires Free(leaf.kind) && Admits(leaf.kind, v) && base + leaf.End() <= |buf|
    requires Get(buf, base, leaf) == Normal(leaf.kind, v)
    requires base + leaf.offset <= p < base + leaf.End()
    ensures buf[p] == Encode(leaf.kind, v)[p - base - leaf.offset]
  {
    var s := buf[base + leaf.offset..base + leaf.End()];
    DecodeInjective(leaf.kind, s, v);
    assert s[p - base - leaf.offset] == buf[p];
  }

  /** Every getter returns the last value set, whatever the buffer of this size held and whichever
      setters were called. */
  ghost predicate RoundTrips(leaves: seq<Leaf>, base: nat, size: nat)
    requires Room(leaves, base, size)
  {
    forall buf, calls, i ::
      |buf| == size && Proper(leaves, calls) && 0 <= i < |leaves| ==> Reads(buf, base, leaves, calls, i)
  }

  lemma LastWriteWins(buf: seq<byte>, ws: seq<Write>, n: nat, p: nat)
    requires 0 < n <= |ws| && InBounds(ws, |buf|) && p < |buf| && ws[n - 1].Covers(p)
    ensures ApplyWrites(buf, ws, n)[p] == ws[n - 1].bytes[p - ws[n - 1].at]
  {
  }

  /** The setter called last decides its bytes, whatever overlaps it. */
  lemma LastCallByte(buf: seq<byte>, base: nat, leaves: seq<Leaf>, calls: seq<Call>, n: nat, p: nat)
    requires Proper(leaves, calls) && Room(leaves, base, |buf|) && 0 < n == |calls|
    requires calls[n - 1] in calls
    requires base + leaves[calls[n - 1].i].offset <= p < base + leaves[calls[n - 1].i].End()
    ensures var c := calls[n - 1];
            ApplyCalls(buf, base, leaves, calls)[p]
            == Encode(leaves[c.i].kind, c.v)[p - base - leaves[c.i].offset]
  {
    WritesInBounds(base, leaves, calls, |buf|);
    LastWriteWins(buf, Writes(base, leaves, calls), n, p);
  }

  /** Two calls that fill one accessor with zeros and then another with ones. */
  function ZerosThenOnes(leaves: seq<Leaf>, i: nat, j: nat): (calls: seq<Call>)
    requires AllFree(leaves) && i < |leaves| && j < |leaves|
    ensures |calls| == 2
    ensures calls[0] == Call(i, Filled(leaves[i].kind, false)) && calls[1] == Call(j, Filled(leaves[j].kind, true))
    ensures Proper(leaves, calls)
  {
    FilledEncodes(leaves[i].kind, false, 0);
    FilledEncodes(leaves[j].kind, true, 0);
    [Call(i, Filled(leaves[i].kind, false)), Call(j, Filled(leaves[j].kind, true))]
  }

  /** After them a shared byte is ones. */
  lemma SharedByte(buf: seq<byte>, base: nat, leaves: seq<Leaf>, i: nat, j: nat, p: nat)
    requires AllFree(leaves) && Room(leaves, base, |buf|) && i < |leaves| && j < |leaves|
    requires base + leaves[j].offset <= p < base + leaves[j].End()
    ensures ApplyCalls(buf, base, leaves, ZerosThenOnes(leaves, i, j))[p] == Fill(true)
  {
    var calls := ZerosThenOnes(leaves, i, j);
    assert calls[1] in calls;
    LastCallByte(buf, base, leaves, calls, |calls|, p);
    FilledEncodes(leaves[j].kind, true, p - base - leaves[j].offset);
  }

  /** But an accessor that reads as zeros has none. */
  lemma ZerosByte(r: seq<byte>, base: nat, leaf: Leaf, p: nat)
    requires Free(leaf.kind) && base + leaf.End() <= |r| && base + leaf.offset <= p < base + leaf.End()
    requires Get(r, base, leaf) == Normal(leaf.kind, Filled(leaf.kind, false))
    ensures r[p] == Fill(false)
  {
    FilledEncodes(leaf.kind, false, p - base - leaf.offset);
    GetInjective(r, base, leaf, Filled(leaf.kind, false), p);
  }

  /** Setting one accessor to zeros and then an overlapping one to ones spoils the first. */
  lemma OverlapSpoils(buf: seq<byte>, base: nat, leaves: seq<Leaf>, i: nat, j: nat)
    requires AllFree(leaves) && Room(leaves, base, |buf|) && i < |leaves| && j < |leaves|
    requires i != j && !Clear(leaves[i], leaves[j])
    ensures !Reads(buf, base, leaves, ZerosThenOnes(leaves, i, j), i)
  {
    var a, b, calls := leaves[i], leaves[j], ZerosThenOnes(leaves, i, j);
    var p := base + if a.offset < b.offset then b.offset else a.offset;
    LastSetOfTwo(calls, i);
    SharedByte(buf, base, leaves, i, j, p);
    var r := ApplyCalls(buf, base, leaves, calls);
    if Get(r, base, a) == Normal(a.kind, Filled(a.kind, false)) {
      ZerosByte(r, base, a, p);
    }
  }

  lemma LastSetOfTwo(calls: seq<Call>, i: nat)
    requires |calls| == 2 && calls[0].i == i && calls[1].i != i
    ensures LastSet(calls, i) == Some(calls[0].v)
  {
  }

  /** For types with free bytes, accessors round-trip if and only if no two of them share a byte. */
  lemma RoundTripIff(leaves: seq<Leaf>, base: nat, size: nat)
    requires AllFree(leaves) && Room(leaves, base, size)
    ensures RoundTrips(leaves, base, size) <==> Disjoint(leaves)
  {
    if i, j :| 0 <= i < |leaves| && 0 <= j < |leaves| && i != j && !Clear(leaves[i], leaves[j]) {
      OverlapSpoils(Zeros(size), base, leaves, i, j);
    } else {
      forall buf, calls, i | |buf| == size && Proper(leaves, calls) && 0 <= i < |leaves|
        ensures Reads(buf, base, leaves, calls, i)
      {
        BlockRoundTrip(buf, base, leaves, calls, i);
      }
    }
  }

  // ----- The message header -----

  const HeaderLength: nat := 8

  datatype MessageHeader = MessageHeader(blockLength: nat, templateId: nat, schemaId: nat, version: nat)
  {
    predicate Fits() {
      blockLength < 0x1_0000 && templateId < 0x1_0000 && schemaId < 0x1_0000 && version < 0x1_0000
    }

    function Bytes(): (s: seq<byte>)
      ensures |s| == HeaderLength
    {
      LE(blockLength, 2) + LE(templateId, 2) + LE(schemaId, 2) + LE(version, 2)
    }

    /** Writes the header in place, field by field. */
    method Write(buf: array<byte>, at: nat)
      requires at + HeaderLength <= buf.Length
      modifies buf
      ensures buf[..] == Splice(old(buf[..]), at, Bytes())
    {
      ghost var before := buf[..];
      CopyInto(buf, at, LE(blockLength, 2));
      CopyInto(buf, at + 2, LE(templateId, 2));
      CopyInto(buf, at + 4, LE(schemaId, 2));
      CopyInto(buf, at + 6, LE(version, 2));
      SpliceTwice(before, at, LE(blockLength, 2), LE(templateId, 2));
      SpliceTwice(before, at, LE(blockLength, 2) + LE(templateId, 2), LE(schemaId, 2));
      SpliceTwice(before, at, LE(blockLength, 2) + LE(templateId, 2) + LE(schemaId, 2), LE(version, 2));
    }
  }

  function U16At(buf: seq<byte>, at: nat): nat
    requires at + 2 <= |buf|
  {
    FromLE(buf[at..at + 2])
  }

  function ReadHeader(buf: seq<byte>, at: nat): MessageHeader
    requires at + HeaderLength <= |buf|
  {
    MessageHeader(U16At(buf, at), U16At(buf, at + 2), U16At(buf, at + 4), U16At(buf, at + 6))
  }

  lemma U16RoundTrip(n: nat)
    requires n < 0x1_0000
    ensures FromLE(LE(n, 2)) == n
  {
    Pow256Values();
    LERoundTrip(n, 2);
  }

  /** A 16-bit field found where its two bytes are. */
  lemma U16Found(buf: seq<byte>, at: nat, n: nat)
    requires at + 2 <= |buf| && n < 0x1_0000
    requires buf[at] == LE(n, 2)[0] && buf[at + 1] == LE(n, 2)[1]
    ensures U16At(buf, at) == n
  {
    assert buf[at..at + 2] == LE(n, 2);
    U16RoundTrip(n);
  }

  lemma HeaderRoundTrip(buf: seq<byte>, at: nat, h: MessageHeader)
    requires at + HeaderLength <= |buf| && h.Fits()
    requires forall p :: at <= p < at + HeaderLength ==> buf[p] == h.Bytes()[p - at]
    ensures ReadHeader(buf, at) == h
  {
    U16Found(buf, at, h.blockLength);
    U16Found(buf, at + 2, h.templateId);
    U16Found(buf, at + 4, h.schemaId);
    U16Found(buf, at + 6, h.version);
  }

  // ----- A message -----

  /** What the generated encoder of one message does: header at `at`, then setter calls at offsets
      behind the header. */
  function EncodeMessage(buf: seq<byte>, at: nat, h: MessageHeader, leaves: seq<Leaf>, calls: seq<Call>)
    : (r: seq<byte>)
    requires Proper(leaves, calls) && at + HeaderLength <= |buf| && Room(leaves, at + HeaderLength, |buf|)
    ensures |r| == |buf|
  {
    ApplyCalls(Splice(buf, at, h.Bytes()), at + HeaderLength, leaves, calls)
  }

  /** Accessors inside a block that lies inside the buffer. */
  lemma BlockFits(base: nat, leaves: seq<Leaf>, block: nat, size: nat)
    requires WellLaid(leaves, block) && base + block <= size
    ensures Room(leaves, base, size)
  {
    WellLaidDisjoint(leaves, block);
  }

  method WriteMessage(buf: array<byte>, at: nat, h: MessageHeader, leaves: seq<Leaf>, calls: seq<Call>)
    requires Proper(leaves, calls) && at + HeaderLength <= buf.Length && Room(leaves, at + HeaderLength, buf.Length)
    modifies buf
    ensures buf[..] == EncodeMessage(old(buf[..]), at, h, leaves, calls)
  {
    h.Write(buf, at);
    SetAll(buf, at + HeaderLength, leaves, calls);
  }

  /** Calls that set every accessor at least once. */
  predicate SetsAll(leaves: seq<Leaf>, calls: seq<Call>) {
    forall i :: 0 <= i < |leaves| ==> LastSet(calls, i).Some?
  }

  /** Header and accessors read back as written, and nothing outside header and block changed. */
  predicate MessageReads(buf: seq<byte>, r: seq<byte>, at: nat, h: MessageHeader, leaves: seq<Leaf>, calls: seq<Call>)
    requires |r| == |buf| && at + HeaderLength <= |buf| && SetsAll(leaves, calls)
  {
    && ReadHeader(r, at) == h
    && (forall i :: 0 <= i < |leaves| ==>
          && at + HeaderLength + leaves[i].End() <= |r|
          && Get(r, at + HeaderLength, leaves[i]) == Normal(leaves[i].kind, LastSet(calls, i).value))
    && (forall p :: 0 <= p < at ==> r[p] == buf[p])
    && (Inside(leaves, h.blockLength) ==>
          forall p :: at + HeaderLength + h.blockLength <= p < |buf| ==> r[p] == buf[p])
  }

  /** The header is never touched by setters. */
  lemma {:induction false} HeaderKept(buf: seq<byte>, at: nat, h: MessageHeader, leaves: seq<Leaf>, calls: seq<Call>)
    requires Proper(leaves, calls) && h.Fits()
    requires at + HeaderLength <= |buf| && Room(leaves, at + HeaderLength, |buf|)
    ensures var r := EncodeMessage(buf, at, h, leaves, calls);
            ReadHeader(r, at) == h && forall p :: 0 <= p < at ==> r[p] == buf[p]
  {
    var b, r := Splice(buf, at, h.Bytes()), EncodeMessage(buf, at, h, leaves, calls);
    forall p | 0 <= p < at + HeaderLength
      ensures r[p] == b[p]
    {
      BeforeBlock(b, at + HeaderLength, leaves, calls, p);
    }
    HeaderRoundTrip(r, at, h);
  }

  /** Whatever the buffer held, wherever in it the message starts, and in whatever order the setters
      were called: the getters return the values set, the header decodes as written, and no byte
      outside the message changes. */
  lemma {:induction false} MessageRoundTrip(buf: seq<byte>, at: nat, h: MessageHeader, leaves: seq<Leaf>,
                                            calls: seq<Call>)
    requires Disjoint(leaves) && Proper(leaves, calls) && SetsAll(leaves, calls) && h.Fits()
    requires at + HeaderLength <= |buf| && Room(leaves, at + HeaderLength, |buf|)
    ensures MessageReads(buf, EncodeMessage(buf, at, h, leaves, calls), at, h, leaves, calls)
  {
    var base, b := at + HeaderLength, Splice(buf, at, h.Bytes());
    var r := EncodeMessage(buf, at, h, leaves, calls);
    HeaderKept(buf, at, h, leaves, calls);
    if Inside(leaves, h.blockLength) {
      forall p | base + h.blockLength <= p < |buf|
        ensures r[p] == buf[p]
      {
        OutsideBlock(b, base, leaves, h.blockLength, calls, p);
      }
    }
    forall i | 0 <= i < |leaves|
      ensures Get(r, base, leaves[i]) == Normal(leaves[i].kind, LastSet(calls, i).value)
    {
      BlockRoundTrip(b, base, leaves, calls, i);
    }
  }

  // ----- From the schema to accessors -----

  /** A resolved field: a scalar or byte array, or a composite of scalars. */
  datatype Resolved = Single(offset: nat, kind: Kind) | Composite(offset: nat, members: seq<Kind>)

  function MembersLen(members: seq<Kind>): nat
    decreases |members|
  {
    if members == [] then 0 else Width(members[0]) + MembersLen(members[1..])
  }

  /** The accessors of a composite: its members one behind the other; offsets that the schema gave to
      members play no part. */
  function MemberLeaves(offset: nat, members: seq<Kind>): seq<Leaf>
    decreases |members|
  {
    if members == [] then []
    else [Leaf(offset, members[0])] + MemberLeaves(offset + Width(members[0]), members[1..])
  }

  function LeavesOf(f: Resolved): seq<Leaf> {
    match f
    case Single(offset, kind) => [Leaf(offset, kind)]
    case Composite(offset, members) => MemberLeaves(offset, members)
  }

  function AllLeaves(fs: seq<Resolved>): seq<Leaf>
    decreases |fs|
  {
    if fs == [] then [] else LeavesOf(fs[0]) + AllLeaves(fs[1..])
  }

  /** The field as the validator sees it. */
  function Declared(f: Resolved): Field {
    match f
    case Single(offset, kind) => Field(offset, Width(kind), true)
    case Composite(offset, members) => Field(offset, MembersLen(members), true)
  }

  function AllDeclared(fs: seq<Resolved>): (r: seq<Field>)
    ensures |r| == |fs|
  {
    seq(|fs|, i requires 0 <= i < |fs| => Declared(fs[i]))
  }

  predicate PositiveField(f: Resolved) {
    match f
    case Single(_, kind) => Width(kind) > 0
    case Composite(_, members) => members != [] && forall m :: m in members ==> Width(m) > 0
  }

  predicate PositiveKinds(fs: seq<Resolved>) {
    forall i :: 0 <= i < |fs| ==> PositiveField(fs[i])
  }

  /** Accessors that are apart, in order, and between two positions. */
  predicate Between(lo: nat, hi: nat, leaves: seq<Leaf>) {
    && Positive(AsFields(leaves))
    && Apart(AsFields(leaves))
    && forall i :: 0 <= i < |leaves| ==> lo <= leaves[i].offset && leaves[i].End() <= hi
  }

  lemma BetweenAppend(lo: nat, mid: nat, hi: nat, a: seq<Leaf>, b: seq<Leaf>)
    requires lo <= mid <= hi && Between(lo, mid, a) && Between(mid, hi, b)
    ensures Between(lo, hi, a + b)
  {
    var x, y, z := AsFields(a), AsFields(b), AsFields(a + b);
    assert forall i :: 0 <= i < |a| ==> z[i] == x[i];
    assert forall i :: |a| <= i < |z| ==> z[i] == y[i - |a|];
    forall i, j | 0 <= i < j < |z|
      ensures z[i].End() <= z[j].offset
    {
      if i < |a| && |a| <= j {
        assert a[i].End() <= mid <= b[j - |a|].offset;
      }
    }
  }

  lemma {:induction false} MembersBetween(offset: nat, members: seq<Kind>)
    requires forall m :: m in members ==> Width(m) > 0
    ensures Between(offset, offset + MembersLen(members), MemberLeaves(offset, members))
    decreases |members|
  {
    if members != [] {
      var w := Width(members[0]);
      MembersBetween(offset + w, members[1..]);
      assert Between(offset, offset + w, [Leaf(offset, members[0])]);
      BetweenAppend(offset, offset + w, offset + MembersLen(members),
                    [Leaf(offset, members[0])], MemberLeaves(offset + w, members[1..]));
    }
  }

  /** Splitting composites into their members keeps the layout apart and inside the block. */
  lemma {:induction false} LeavesBetween(lo: nat, hi: nat, fs: seq<Resolved>)
    requires lo <= hi && PositiveKinds(fs) && Apart(AllDeclared(fs)) && StartFrom(lo, AllDeclared(fs))
    requires forall i :: 0 <= i < |fs| ==> AllDeclared(fs)[i].End() <= hi
    ensures Between(lo, hi, AllLeaves(fs))
    decreases |fs|
  {
    if fs != [] {
      var f, rest := fs[0], fs[1..];
      var d := Declared(f);
      assert AllDeclared(fs) == [d] + AllDeclared(rest);
      ApartCons(d, AllDeclared(rest));
      assert forall i :: 0 <= i < |rest| ==> AllDeclared(rest)[i] == AllDeclared(fs)[i + 1];
      assert AllDeclared(fs)[0] == d;
      LeavesBetween(d.End(), hi, rest);
      if f.Composite? {
        MembersBetween(f.offset, f.members);
      }
      assert Between(lo, d.End(), LeavesOf(f));
      BetweenAppend(lo, d.End(), hi, LeavesOf(f), AllLeaves(rest));
    }
  }

  /** A message whose fields have positive lengths that match their types, once validated, has
      accessors to which the round trip applies. */
  lemma {:induction false} ValidatedIsWellLaid(fs: seq<Resolved>, block: nat)
    requires PositiveKinds(fs) && Validate(AllDeclared(fs), block) == Valid
    ensures WellLaid(AllLeaves(fs), block)
  {
    var d := AllDeclared(fs);
    forall i | 0 <= i < |fs|
      ensures d[i].len > 0
    {
      FieldLength(fs[i]);
    }
    ValidateExact(d, block);
    assert Apart(d) && StartFrom(0, d);
    LeavesBetween(0, block, fs);
  }

  /** A field as the schema gives it: its offset is 0 when left out, and its type is declared in the
      schema or only built in. */
  datatype SchemaField = SchemaField(field: Resolved, declared: bool)

  /** The types that exist without a declaration. */
  predicate IsBuiltIn(f: Resolved) {
    f.Single? && (f.kind.Uint? || f.kind.Int?)
  }

  /** The field as the parser and the validator see it: a length is resolved for declared types only. */
  function ParsedField(f: SchemaField): Field {
    Field(f.field.offset, if f.declared then Declared(f.field).len else 0, f.declared || IsBuiltIn(f.field))
  }

  function Parsed(fs: seq<SchemaField>): (r: seq<Field>)
    ensures |r| == |fs|
  {
    seq(|fs|, i requires 0 <= i < |fs| => ParsedField(fs[i]))
  }

  function MovedTo(f: Resolved, offset: nat): Resolved {
    match f
    case Single(_, kind) => Single(offset, kind)
    case Composite(_, members) => Composite(offset, members)
  }

  /** The resolved fields: offsets as the parser computed them, widths as the types have them. */
  function Placed(fs: seq<SchemaField>): (r: seq<Resolved>)
    ensures |r| == |fs|
  {
    seq(|fs|, i requires 0 <= i < |fs| => MovedTo(fs[i].field, AutoOffsets(0, Parsed(fs))[i].offset))
  }

  /** The accessors generated for a schema's fields. */
  function Accessors(fs: seq<SchemaField>): seq<Leaf> {
    AllLeaves(Placed(fs))
  }

  predicate AllDeclaredTypes(fs: seq<SchemaField>) {
    forall i :: 0 <= i < |fs| ==> fs[i].declared
  }

  predicate PositiveFields(fs: seq<SchemaField>) {
    forall i :: 0 <= i < |fs| ==> PositiveField(fs[i].field)
  }

  // ----- Fields that share bytes -----

  /** Two fields, composites taken whole, share no byte. */
  predicate FieldsClear(f: Resolved, g: Resolved) {
    Declared(f).End() <= Declared(g).offset || Declared(g).End() <= Declared(f).offset
  }

  /** No two fields share a byte. */
  predicate AllClear(fs: seq<Resolved>) {
    forall i, j :: 0 <= i < j < |fs| ==> FieldsClear(fs[i], fs[j])
  }

  /** No accessor of one list shares a byte with one of the other. */
  predicate Across(a: seq<Leaf>, b: seq<Leaf>) {
    forall i, j :: 0 <= i < |a| && 0 <= j < |b| ==> Clear(a[i], b[j])
  }

  lemma AcrossAppend(a: seq<Leaf>, b: seq<Leaf>, c: seq<Leaf>)
    ensures Across(a, b + c) <==> Across(a, b) && Across(a, c)
  {
    var d := b + c;
    assert forall j :: 0 <= j < |b| ==> d[j] == b[j];
    assert forall j :: 0 <= j < |c| ==> d[|b| + j] == c[j];
    if Across(a, d) {
      forall i, j | 0 <= i < |a| && 0 <= j < |c|
        ensures Clear(a[i], c[j])
      {
        assert Clear(a[i], d[|b| + j]);
      }
    }
    if Across(a, b) && Across(a, c) {
      forall i, j | 0 <= i < |a| && 0 <= j < |d|
        ensures Clear(a[i], d[j])
      {
        assert j < |b| || d[j] == c[j - |b|];
      }
    }
  }

  lemma DisjointAppend(a: seq<Leaf>, b: seq<Leaf>)
    ensures Disjoint(a + b) <==> Disjoint(a) && Disjoint(b) && Across(a, b)
  {
    var d := a + b;
    assert forall i :: 0 <= i < |a| ==> d[i] == a[i];
    assert forall j :: 0 <= j < |b| ==> d[|a| + j] == b[j];
    if Disjoint(d) {
      forall i, j | 0 <= i < |b| && 0 <= j < |b| && i != j
        ensures Clear(b[i], b[j])
      {
        assert Clear(d[|a| + i], d[|a| + j]);
      }
      forall i, j | 0 <= i < |a| && 0 <= j < |b|
        ensures Clear(a[i], b[j])
      {
        assert Clear(d[i], d[|a| + j]);
      }
    }
    if Disjoint(a) && Disjoint(b) && Across(a, b) {
      forall i, j | 0 <= i < |d| && 0 <= j < |d| && i != j
        ensures Clear(d[i], d[j])
      {
        assert i < |a| || d[i] == b[i - |a|];
        assert j < |a| || d[j] == b[j - |a|];
        if i < |a| <= j {
          assert Clear(a[i], b[j - |a|]);
        } else if j < |a| <= i {
          assert Clear(a[j], b[i - |a|]);
        }
      }
    }
  }

  /** The accessors of a field lie inside it and are apart. */
  lemma FieldLeaves(f: Resolved)
    requires PositiveField(f)
    ensures Disjoint(LeavesOf(f))
    ensures forall i :: 0 <= i < |LeavesOf(f)| ==>
              Declared(f).offset <= LeavesOf(f)[i].offset && LeavesOf(f)[i].End() <= Declared(f).End()
  {
    var leaves, end := LeavesOf(f), Declared(f).End();
    if f.Composite? {
      MembersBetween(f.offset, f.members);
    }
    assert Between(f.offset, end, leaves);
    forall i | 0 <= i < |AsFields(leaves)|
      ensures AsFields(leaves)[i].End() <= end
    {
      assert leaves[i].End() <= end;
    }
    WellLaidDisjoint(leaves, end);
  }

  /** And they leave no byte of it out. */
  lemma {:induction false} MemberAt(offset: nat, members: seq<Kind>, p: nat) returns (i: nat)
    requires offset <= p < offset + MembersLen(members)
    ensures i < |MemberLeaves(offset, members)|
    ensures MemberLeaves(offset, members)[i].offset <= p < MemberLeaves(offset, members)[i].End()
    decreases |members|
  {
    var w := Width(members[0]);
    if p < offset + w {
      i := 0;
    } else {
      var j := MemberAt(offset + w, members[1..], p);
      i := j + 1;
    }
  }

  lemma LeafAt(f: Resolved, p: nat) returns (i: nat)
    requires Declared(f).offset <= p < Declared(f).End()
    ensures i < |LeavesOf(f)| && LeavesOf(f)[i].offset <= p < LeavesOf(f)[i].End()
  {
    match f
    case Single(_, _) => i := 0;
    case Composite(offset, members) => i := MemberAt(offset, members, p);
  }

  /** So the accessors of two fields share a byte exactly if the fields do. */
  lemma AcrossIff(f: Resolved, g: Resolved)
    requires PositiveField(f) && PositiveField(g)
    ensures Across(LeavesOf(f), LeavesOf(g)) <==> FieldsClear(f, g)
  {
    FieldLeaves(f);
    FieldLeaves(g);
    FieldLength(f);
    FieldLength(g);
    if !FieldsClear(f, g) {
      var p := if f.offset < g.offset then g.offset else f.offset;
      var i := LeafAt(f, p);
      var j := LeafAt(g, p);
      assert !Clear(LeavesOf(f)[i], LeavesOf(g)[j]);
    }
  }

  lemma FieldLength(f: Resolved)
    requires PositiveField(f)
    ensures Declared(f).len > 0
  {
    if f.Composite? {
      assert f.members[0] in f.members;
    }
  }

  lemma {:induction false} AcrossAllIff(f: Resolved, gs: seq<Resolved>)
    requires PositiveField(f) && PositiveKinds(gs)
    ensures Across(LeavesOf(f), AllLeaves(gs)) <==> forall i :: 0 <= i < |gs| ==> FieldsClear(f, gs[i])
    decreases |gs|
  {
    if gs != [] {
      AcrossAppend(LeavesOf(f), LeavesOf(gs[0]), AllLeaves(gs[1..]));
      AcrossIff(f, gs[0]);
      AcrossAllIff(f, gs[1..]);
      assert (forall i :: 0 <= i < |gs| ==> FieldsClear(f, gs[i])) <==>
             FieldsClear(f, gs[0]) && forall i :: 0 <= i < |gs[1..]| ==> FieldsClear(f, gs[1..][i]) by {
        ForallCons(f, gs);
      }
    }
  }

  lemma ForallCons(f: Resolved, gs: seq<Resolved>)
    requires gs != []
    ensures (forall i :: 0 <= i < |gs| ==> FieldsClear(f, gs[i])) <==>
            FieldsClear(f, gs[0]) && forall i :: 0 <= i < |gs[1..]| ==> FieldsClear(f, gs[1..][i])
  {
    assert forall i :: 0 < i < |gs| ==> gs[i] == gs[1..][i - 1];
    assert forall i :: 0 <= i < |gs[1..]| ==> gs[1..][i] == gs[i + 1];
  }

  lemma AllClearCons(gs: seq<Resolved>)
    requires gs != []
    ensures AllClear(gs) <==>
            AllClear(gs[1..]) && forall i :: 0 <= i < |gs[1..]| ==> FieldsClear(gs[0], gs[1..][i])
  {
    var rest := gs[1..];
    assert forall i :: 0 < i < |gs| ==> gs[i] == rest[i - 1];
    if AllClear(gs) {
      forall i, j | 0 <= i < j < |rest|
        ensures FieldsClear(rest[i], rest[j])
      {
        assert FieldsClear(gs[i + 1], gs[j + 1]);
      }
      forall i | 0 <= i < |rest|
        ensures FieldsClear(gs[0], rest[i])
      {
        assert FieldsClear(gs[0], gs[i + 1]);
      }
    }
    if AllClear(rest) && forall i :: 0 <= i < |rest| ==> FieldsClear(gs[0], rest[i]) {
      forall i, j | 0 <= i < j < |gs|
        ensures FieldsClear(gs[i], gs[j])
      {
        assert i == 0 || FieldsClear(rest[i - 1], rest[j - 1]);
      }
    }
  }

  /** The accessors of a message share no byte if and only if its fields, composites taken whole,
      share none. */
  lemma {:induction false} DisjointIff(fs: seq<Resolved>)
    requires PositiveKinds(fs)
    ensures Disjoint(AllLeaves(fs)) <==> AllClear(fs)
    decreases |fs|
  {
    if fs != [] {
      DisjointAppend(LeavesOf(fs[0]), AllLeaves(fs[1..]));
      FieldLeaves(fs[0]);
      DisjointIff(fs[1..]);
      AcrossAllIff(fs[0], fs[1..]);
      AllClearCons(fs);
    }
  }

  /** From the schema through the parser to the wire: whatever is declared or not, and whether or not
      the validator accepts, a message round-trips if and only if no two of its fields, at their
      computed offsets and with the lengths of their types, share a byte. */
  lemma SchemaExact(fs: seq<SchemaField>, base: nat, size: nat)
    requires PositiveFields(fs) && AllFree(Accessors(fs)) && Room(Accessors(fs), base, size)
    ensures RoundTrips(Accessors(fs), base, size) <==> AllClear(Placed(fs))
  {
    RoundTripIff(Accessors(fs), base, size);
    PlacedPositive(fs);
    DisjointIff(Placed(fs));
  }

  /** The direction that holds for all types, enums included, with header and outside bytes. */
  lemma {:induction false} ClearRoundTrip(buf: seq<byte>, at: nat, h: MessageHeader, fs: seq<SchemaField>,
                                          calls: seq<Call>)
    requires PositiveFields(fs) && AllClear(Placed(fs)) && h.Fits()
    requires Proper(Accessors(fs), calls) && SetsAll(Accessors(fs), calls)
    requires at + HeaderLength <= |buf| && Room(Accessors(fs), at + HeaderLength, |buf|)
    ensures MessageReads(buf, EncodeMessage(buf, at, h, Accessors(fs), calls), at, h, Accessors(fs), calls)
  {
    PlacedPositive(fs);
    DisjointIff(Placed(fs));
    MessageRoundTrip(buf, at, h, Accessors(fs), calls);
  }

  /** With all types declared, the validator sees the fields that the accessors are made from. */
  lemma PlacedAsParsed(fs: seq<SchemaField>)
    requires AllDeclaredTypes(fs)
    ensures AllDeclared(Placed(fs)) == AutoOffsets(0, Parsed(fs))
  {
    var d, r := AllDeclared(Placed(fs)), AutoOffsets(0, Parsed(fs));
    forall i | 0 <= i < |fs|
      ensures d[i] == r[i]
    {
      AutoKeepsExplicit(0, Parsed(fs), i);
    }
  }

  lemma PlacedPositive(fs: seq<SchemaField>)
    requires PositiveFields(fs)
    ensures PositiveKinds(Placed(fs))
  {
    forall i | 0 <= i < |fs|
      ensures PositiveField(Placed(fs)[i])
    {
      assert PositiveField(fs[i].field);
    }
  }

  /** Accepted messages of declared types have accessors that are apart and inside the block. */
  lemma AcceptedIsWellLaid(fs: seq<SchemaField>, block: nat)
    requires AllDeclaredTypes(fs) && PositiveFields(fs)
    requires Validate(AutoOffsets(0, Parsed(fs)), block) == Valid
    ensures WellLaid(Accessors(fs), block)
  {
    PlacedAsParsed(fs);
    PlacedPositive(fs);
    ValidatedIsWellLaid(Placed(fs), block);
  }

  /** From the schema through parser, validator and accessors to the wire and back, for every accepted
      message of declared types. */
  lemma {:induction false} SchemaRoundTrip(buf: seq<byte>, at: nat, h: MessageHeader, fs: seq<SchemaField>,
                                           calls: seq<Call>)
    requires AllDeclaredTypes(fs) && PositiveFields(fs) && h.Fits()
    requires Validate(AutoOffsets(0, Parsed(fs)), h.blockLength) == Valid
    requires Proper(Accessors(fs), calls) && SetsAll(Accessors(fs), calls)
    requires at + HeaderLength + h.blockLength <= |buf|
    ensures Inside(Accessors(fs), h.blockLength) && Room(Accessors(fs), at + HeaderLength, |buf|)
    ensures MessageReads(buf, EncodeMessage(buf, at, h, Accessors(fs), calls), at, h, Accessors(fs), calls)
  {
    AcceptedIsWellLaid(fs, h.blockLength);
    WellLaidDisjoint(Accessors(fs), h.blockLength);
    BlockFits(at + HeaderLength, Accessors(fs), h.blockLength, |buf|);
    MessageRoundTrip(buf, at, h, Accessors(fs), calls);
  }

  /** With every offset left out of the schema, acceptance is a matter of the block length alone. */
  lemma {:induction false} OmittedAccepted(fs: seq<SchemaField>, block: nat)
    requires AllDeclaredTypes(fs) && PositiveFields(fs)
    requires forall i :: 0 <= i < |fs| ==> fs[i].field.offset == 0
    ensures Validate(AutoOffsets(0, Parsed(fs)), block) == Valid <==> TotalLen(Parsed(fs)) <= block
  {
    var ps := Parsed(fs);
    ParsedPositive(fs);
    OmittedNeverStepsBack(0, ps);
    AutoAccepted(ps, block);
    if fs != [] {
      var last := |ps| - 1;
      AutoPrefixSums(0, ps, last);
      AutoKeepsExplicit(0, ps, last);
    }
  }

  lemma ParsedPositive(fs: seq<SchemaField>)
    requires AllDeclaredTypes(fs) && PositiveFields(fs)
    ensures Positive(Parsed(fs)) && TypesKnown(Parsed(fs))
  {
    forall i | 0 <= i < |fs|
      ensures Parsed(fs)[i].len > 0
    {
      FieldLength(fs[i].field);
    }
  }

  // ----- Arrays of wider elements -----

  /** The array setter counts elements as bytes: of an array of `count` elements of `size` bytes it
      writes the first `count` bytes only. */
  function SetArray(window: seq<byte>, count: nat, v: seq<byte>): seq<byte>
    requires count <= |window|
  {
    Splice(window, 0, Pad(v, count))
  }

  /** Setting an array gives back what was set, for every previous content, exactly if its elements
      are one byte wide. */
  lemma ArrayRoundTripIff(size: nat, count: nat)
    requires size >= 1 && count >= 1 && count <= size * count
    ensures (forall window: seq<byte>, v: seq<byte> :: |window| == size * count ==>
               SetArray(window, count, v) == Pad(v, size * count))
            <==> size == 1
  {
    if size == 1 {
      forall window: seq<byte>, v: seq<byte> | |window| == size * count
        ensures SetArray(window, count, v) == Pad(v, size * count)
      {
        assert window[count..] == [];
      }
    } else {
      MulAtLeast(size - 1, count);
      assert size * count == (size - 1) * count + count;
      var window: seq<byte>, v: seq<byte> := seq(size * count, _ => 1), [];
      assert SetArray(window, count, v)[count] == 1;
      assert Pad(v, size * count)[count] == 0;
    }
  }

  // ----- Built-in types that the schema does not declare -----

  /** Fields of such types only, with their offsets left out. */
  predicate Undeclared(fs: seq<SchemaField>) {
    forall i :: 0 <= i < |fs| ==> !fs[i].declared && IsBuiltIn(fs[i].field) && fs[i].field.offset == 0
  }

  /** The parser resolves no length for them: all stay at offset 0. */
  lemma {:induction false} ZeroLengthStays(fs: seq<Field>, at: nat)
    requires forall i :: 0 <= i < |fs| ==> fs[i] == Field(0, 0, true)
    ensures AutoOffsets(0, fs) == fs && ScanFields(0, at, fs) == Reached(0)
    decreases |fs|
  {
    if fs != [] {
      ZeroLengthStays(fs[1..], at + 1);
      assert [fs[0]] + fs[1..] == fs;
    }
  }

  lemma ZeroLengthAccepted(fs: seq<Field>, block: nat)
    requires forall i :: 0 <= i < |fs| ==> fs[i] == Field(0, 0, true)
    ensures AutoOffsets(0, fs) == fs && Validate(fs, block) == Valid
  {
    ZeroLengthStays(fs, 0);
  }

  lemma UndeclaredParsed(fs: seq<SchemaField>, i: nat)
    requires Undeclared(fs) && i < |fs|
    ensures Parsed(fs)[i] == Field(0, 0, true)
  {
  }

  /** However many there are, the validator accepts them in any block. */
  lemma UndeclaredAccepted(fs: seq<SchemaField>, block: nat)
    requires Undeclared(fs)
    ensures Validate(AutoOffsets(0, Parsed(fs)), block) == Valid
    ensures AutoOffsets(0, Parsed(fs)) == Parsed(fs)
  {
    var ps := Parsed(fs);
    forall i | 0 <= i < |ps|
      ensures ps[i] == Field(0, 0, true)
    {
      UndeclaredParsed(fs, i);
    }
    ZeroLengthAccepted(ps, block);
  }

  lemma UndeclaredPlaced(fs: seq<SchemaField>, i: nat)
    requires Undeclared(fs) && i < |fs| && AutoOffsets(0, Parsed(fs)) == Parsed(fs)
    ensures Placed(fs)[i] == Single(0, fs[i].field.kind)
  {
    UndeclaredParsed(fs, i);
  }

  lemma {:induction false} SinglesAreLeaves(fs: seq<Resolved>)
    requires forall i :: 0 <= i < |fs| ==> fs[i].Single?
    ensures |AllLeaves(fs)| == |fs|
    ensures forall i :: 0 <= i < |fs| ==> AllLeaves(fs)[i] == Leaf(fs[i].offset, fs[i].kind)
    decreases |fs|
  {
    if fs != [] {
      SinglesAreLeaves(fs[1..]);
      forall i | 0 <= i < |fs|
        ensures AllLeaves(fs)[i] == Leaf(fs[i].offset, fs[i].kind)
      {
        assert i > 0 ==> fs[1..][i - 1] == fs[i];
      }
    }
  }

  /** Accepted all the same, a message of such fields round-trips if and only if it has at most one:
      all its accessors start at offset 0. */
  lemma UndeclaredExact(fs: seq<SchemaField>, base: nat, size: nat, block: nat)
    requires Undeclared(fs) && AllFree(Accessors(fs)) && Room(Accessors(fs), base, size)
    ensures Validate(AutoOffsets(0, Parsed(fs)), block) == Valid
    ensures RoundTrips(Accessors(fs), base, size) <==> |fs| <= 1
  {
    UndeclaredAccepted(fs, block);
    forall i | 0 <= i < |fs|
      ensures Placed(fs)[i] == Single(0, fs[i].field.kind)
    {
      UndeclaredPlaced(fs, i);
    }
    SinglesAreLeaves(Placed(fs));
    RoundTripIff(Accessors(fs), base, size);
    if |fs| > 1 {
      assert !Clear(Accessors(fs)[0], Accessors(fs)[1]);
    }
  }
}

/**
Repeating groups (ironsbe-codegen/src/rust/messages.rs, ironsbe-core/src/header.rs): a four-byte
header with the entry length and the count, then the entries at that stride.
*/
module Groups {
  import opened Bytes
  import opened Layout
  import opened Codec

  const GroupHeaderLength: nat := 4

  function GroupHeader(blockLength: nat, count: nat): (s: seq<byte>)
    ensures |s| == GroupHeaderLength
  {
    LE(blockLength, 2) + LE(count, 2)
  }

  /** Where entry `k` starts: both sides advance by the stride after each entry. */
  function EntryAt(base: nat, stride: nat, k: nat): (e: nat)
    ensures e >= base
  {
    if k == 0 then base else EntryAt(base, stride, k - 1) + stride
  }

  /** The closed form that `group_size` and `encoded_length` use. */
  lemma {:induction false} EntryAtIs(base: nat, stride: nat, k: nat)
    ensures EntryAt(base, stride, k) == base + k * stride
  {
    if k > 0 {
      EntryAtIs(base, stride, k - 1);
      assert k * stride == (k - 1) * stride + stride;
    }
  }

  /** Entries do not run into later ones. */
  lemma {:induction false} EntriesApart(base: nat, stride: nat, k: nat, m: nat)
    requires k < m
    ensures EntryAt(base, stride, k) + stride <= EntryAt(base, stride, m)
  {
    if k < m - 1 {
      EntriesApart(base, stride, k, m - 1);
    }
  }

  // ----- The block length of an entry -----

  function MaxEnd(leaves: seq<Leaf>): (m: nat)
    ensures forall i :: 0 <= i < |leaves| ==> leaves[i].End() <= m
    ensures m == 0 || exists i :: 0 <= i < |leaves| && leaves[i].End() == m
  {
    if leaves == [] then 0
    else
      var front, last := MaxEnd(leaves[..|leaves| - 1]), leaves[|leaves| - 1];
      if last.End() > front then last.End() else front
  }

  /** The declared block length, or else the end of the last field, cast to 16 bits. */
  function EffectiveBlockLength(declared: nat, leaves: seq<Leaf>): nat {
    if declared > 0 then declared else MaxEnd(leaves) % 0x1_0000
  }

  /** A derived block length holds the entry's fields exactly if it survives the cast. */
  lemma DerivedBlockLength(leaves: seq<Leaf>)
    requires Positive(AsFields(leaves)) && Apart(AsFields(leaves))
    ensures WellLaid(leaves, EffectiveBlockLength(0, leaves)) <==> MaxEnd(leaves) < 0x1_0000
  {
    var m := MaxEnd(leaves);
    if m < 0x1_0000 {
      forall i | 0 <= i < |leaves|
        ensures AsFields(leaves)[i].End() <= m
      {
        assert leaves[i].End() <= m;
      }
    } else {
      var i :| 0 <= i < |leaves| && leaves[i].End() == m;
      assert AsFields(leaves)[i].End() == m && AsFields(leaves)[i].len > 0;
    }
  }

  // ----- Encoding -----

  /** A group to be encoded: its entry length, its accessors, and the setter calls of each entry. */
  datatype Group = Group(stride: nat, leaves: seq<Leaf>, entries: seq<seq<Call>>)
  {
    /** Each entry is set through its own accessors. */
    predicate ProperEntries() {
      forall k :: 0 <= k < |entries| ==> Proper(leaves, entries[k])
    }

    predicate WellFormed() {
      WellLaid(leaves, stride) && ProperEntries()
    }

    /** Each entry sets all its fields. */
    predicate Complete() {
      forall k :: 0 <= k < |entries| ==> SetsAll(leaves, entries[k])
    }

    /** Entry length and count fit the header. */
    predicate Fits() {
      stride < 0x1_0000 && |entries| < 0x1_0000
    }

    /** Where entry `k` of a group at `at` starts. */
    function Entry(at: nat, k: nat): nat {
      EntryAt(at + GroupHeaderLength, stride, k)
    }

    function End(at: nat): nat {
      Entry(at, |entries|)
    }
  }

  /** The accessors of entry `k` lie inside the buffer. */
  predicate EntryFits(at: nat, stride: nat, leaves: seq<Leaf>, k: nat, size: nat) {
    Room(leaves, EntryAt(at + GroupHeaderLength, stride, k), size)
  }

  predicate EntriesFit(at: nat, stride: nat, leaves: seq<Leaf>, n: nat, size: nat) {
    forall k: nat :: k < n ==> EntryFits(at, stride, leaves, k, size)
  }

  /** The buffer after the first `n` entries, whatever their layout. */
  function PutEntries(buf: seq<byte>, at: nat, g: Group, n: nat): (r: seq<byte>)
    requires g.ProperEntries() && n <= |g.entries| && EntriesFit(at, g.stride, g.leaves, n, |buf|)
    ensures |r| == |buf|
  {
    if n == 0 then buf
    else
      assert EntryFits(at, g.stride, g.leaves, n - 1, |buf|);
      ApplyCalls(PutEntries(buf, at, g, n - 1), g.Entry(at, n - 1), g.leaves, g.entries[n - 1])
  }

  /** Byte `p` of it. */
  function PutByte(buf: seq<byte>, at: nat, g: Group, n: nat, p: nat): byte
    requires g.ProperEntries() && n <= |g.entries| && EntriesFit(at, g.stride, g.leaves, n, |buf|) && p < |buf|
  {
    PutEntries(buf, at, g, n)[p]
  }

  /** Well-laid entries fit where their stretch does. */
  lemma LaidEntriesFit(at: nat, g: Group, n: nat, size: nat)
    requires g.WellFormed() && g.Entry(at, n) <= size
    ensures EntriesFit(at, g.stride, g.leaves, n, size)
  {
    forall k: nat | k < n
      ensures EntryFits(at, g.stride, g.leaves, k, size)
    {
      EntriesApart(at + GroupHeaderLength, g.stride, k, n);
      BlockFits(g.Entry(at, k), g.leaves, g.stride, size);
    }
  }

  /** The buffer after the first `n` well-laid entries. */
  function WriteEntries(buf: seq<byte>, at: nat, g: Group, n: nat): (r: seq<byte>)
    requires g.WellFormed() && n <= |g.entries| && g.Entry(at, n) <= |buf|
    ensures |r| == |buf|
  {
    LaidEntriesFit(at, g, n, |buf|);
    PutEntries(buf, at, g, n)
  }

  function WithHeader(buf: seq<byte>, at: nat, g: Group): (r: seq<byte>)
    requires at + GroupHeaderLength <= |buf|
    ensures |r| == |buf|
  {
    Splice(buf, at, GroupHeader(g.stride, |g.entries|))
  }

  function EncodeGroup(buf: seq<byte>, at: nat, g: Group): (r: seq<byte>)
    requires g.WellFormed() && g.End(at) <= |buf|
    ensures |r| == |buf|
  {
    WriteEntries(WithHeader(buf, at, g), at, g, |g.entries|)
  }

  /** Byte `p` belongs to accessor `i` of entry `k`. */
  predicate OnLeaf(at: nat, stride: nat, leaves: seq<Leaf>, k: nat, i: nat, p: nat)
    requires i < |leaves|
  {
    var e := EntryAt(at + GroupHeaderLength, stride, k);
    e + leaves[i].offset <= p < e + leaves[i].End()
  }

  /** Byte `p` belongs to no accessor of the first `n` entries. */
  predicate OffLeaves(at: nat, stride: nat, leaves: seq<Leaf>, n: nat, p: nat) {
    forall k, i :: 0 <= k < n && 0 <= i < |leaves| ==> !OnLeaf(at, stride, leaves, k, i, p)
  }

  /** Setter calls change the bytes of accessors only. */
  lemma {:induction false} OffAccessors(buf: seq<byte>, base: nat, leaves: seq<Leaf>, calls: seq<Call>, p: nat)
    requires Proper(leaves, calls) && Room(leaves, base, |buf|) && p < |buf|
    requires forall i :: 0 <= i < |leaves| ==> !(base + leaves[i].offset <= p < base + leaves[i].End())
    ensures ApplyCalls(buf, base, leaves, calls)[p] == buf[p]
  {
    var ws := Writes(base, leaves, calls);
    WritesInBounds(base, leaves, calls, |buf|);
    AppliedByte(buf, ws, |calls|, p);
    forall k | 0 <= k < |calls|
      ensures !ws[k].Covers(p)
    {
      assert calls[k] in calls;
    }
  }

  /** Writing entries changes the bytes of their accessors only. */
  lemma {:induction false} PutOff(buf: seq<byte>, at: nat, g: Group, n: nat, p: nat)
    requires g.ProperEntries() && n <= |g.entries| && EntriesFit(at, g.stride, g.leaves, n, |buf|) && p < |buf|
    requires OffLeaves(at, g.stride, g.leaves, n, p)
    ensures PutByte(buf, at, g, n, p) == buf[p]
  {
    if n > 0 {
      PutOff(buf, at, g, n - 1, p);
      var e := g.Entry(at, n - 1);
      assert EntryFits(at, g.stride, g.leaves, n - 1, |buf|);
      forall i | 0 <= i < |g.leaves|
        ensures !(e + g.leaves[i].offset <= p < e + g.leaves[i].End())
      {
        assert !OnLeaf(at, g.stride, g.leaves, n - 1, i, p);
      }
      OffAccessors(PutEntries(buf, at, g, n - 1), e, g.leaves, g.entries[n - 1], p);
    }
  }

  lemma {:induction false} EntriesOff(buf: seq<byte>, at: nat, g: Group, n: nat, p: nat)
    requires g.WellFormed() && n <= |g.entries| && g.Entry(at, n) <= |buf| && p < |buf|
    requires OffLeaves(at, g.stride, g.leaves, n, p)
    ensures WriteEntries(buf, at, g, n)[p] == buf[p]
  {
    LaidEntriesFit(at, g, n, |buf|);
    PutOff(buf, at, g, n, p);
  }

  /** Bytes before the entries and behind them are off every accessor. */
  lemma OutsideIsOff(at: nat, g: Group, n: nat, p: nat)
    requires g.WellFormed() && !(at + GroupHeaderLength <= p < g.Entry(at, n))
    ensures OffLeaves(at, g.stride, g.leaves, n, p)
  {
    WellLaidDisjoint(g.leaves, g.stride);
    forall k, i | 0 <= k < n && 0 <= i < |g.leaves|
      ensures !OnLeaf(at, g.stride, g.leaves, k, i, p)
    {
      EntriesApart(at + GroupHeaderLength, g.stride, k, n);
    }
  }

  /** The last of `n` entries holds what was set in it. */
  lemma {:induction false} EntryWritten(buf: seq<byte>, at: nat, g: Group, n: nat, i: nat, p: nat)
    requires g.WellFormed() && 0 < n <= |g.entries| && g.Entry(at, n) <= |buf| && i < |g.leaves| && p < |buf|
    requires OnLeaf(at, g.stride, g.leaves, n - 1, i, p) && LastSet(g.entries[n - 1], i).Some?
    ensures Admits(g.leaves[i].kind, LastSet(g.entries[n - 1], i).value)
    ensures WriteEntries(buf, at, g, n)[p]
            == Encode(g.leaves[i].kind, LastSet(g.entries[n - 1], i).value)
               [p - g.Entry(at, n - 1) - g.leaves[i].offset]
  {
    var e := g.Entry(at, n - 1);
    BlockFits(e, g.leaves, g.stride, |buf|);
    WellLaidDisjoint(g.leaves, g.stride);
    FieldByte(WriteEntries(buf, at, g, n - 1), e, g.leaves, g.entries[n - 1], i, p);
  }

  /** Writing the last of `n` entries leaves the accessors of the entries before it alone. */
  lemma {:induction false} LaterEntry(buf: seq<byte>, at: nat, g: Group, n: nat, k: nat, i: nat, p: nat)
    requires g.WellFormed() && k + 1 < n <= |g.entries| && g.Entry(at, n) <= |buf| && i < |g.leaves| && p < |buf|
    requires OnLeaf(at, g.stride, g.leaves, k, i, p)
    ensures WriteEntries(buf, at, g, n)[p] == WriteEntries(buf, at, g, n - 1)[p]
  {
    var e := g.Entry(at, n - 1);
    BlockFits(e, g.leaves, g.stride, |buf|);
    WellLaidDisjoint(g.leaves, g.stride);
    EntriesApart(at + GroupHeaderLength, g.stride, k, n - 1);
    OutsideBlock(WriteEntries(buf, at, g, n - 1), e, g.leaves, g.stride, g.entries[n - 1], p);
  }

  /** Every byte of every accessor is that of the value set. */
  lemma {:induction false} EntryByte(buf: seq<byte>, at: nat, g: Group, n: nat, k: nat, i: nat, p: nat)
    requires g.WellFormed() && k < n <= |g.entries| && g.Entry(at, n) <= |buf| && i < |g.leaves| && p < |buf|
    requires OnLeaf(at, g.stride, g.leaves, k, i, p) && LastSet(g.entries[k], i).Some?
    ensures Admits(g.leaves[i].kind, LastSet(g.entries[k], i).value)
    ensures WriteEntries(buf, at, g, n)[p]
            == Encode(g.leaves[i].kind, LastSet(g.entries[k], i).value)[p - g.Entry(at, k) - g.leaves[i].offset]
  {
    if k == n - 1 {
      EntryWritten(buf, at, g, n, i, p);
    } else {
      EntryByte(buf, at, g, n - 1, k, i, p);
      LaterEntry(buf, at, g, n, k, i, p);
    }
  }

  /** An accessor of an entry lies before the end of the group. */
  lemma EntryInside(at: nat, g: Group, k: nat, i: nat)
    requires g.WellFormed() && k < |g.entries| && i < |g.leaves|
    ensures g.Entry(at, k) + g.leaves[i].End() <= g.End(at)
  {
    WellLaidDisjoint(g.leaves, g.stride);
    EntriesApart(at + GroupHeaderLength, g.stride, k, |g.entries|);
  }

  /** So every field of every entry reads back as set. */
  lemma {:induction false} EntryKept(buf: seq<byte>, at: nat, g: Group, k: nat, i: nat)
    requires g.WellFormed() && g.Complete() && g.End(at) <= |buf| && k < |g.entries| && i < |g.leaves|
    ensures g.Entry(at, k) + g.leaves[i].End() <= |buf|
    ensures Get(WriteEntries(buf, at, g, |g.entries|), g.Entry(at, k), g.leaves[i])
            == Normal(g.leaves[i].kind, LastSet(g.entries[k], i).value)
  {
    var e, v := g.Entry(at, k), LastSet(g.entries[k], i).value;
    var r := WriteEntries(buf, at, g, |g.entries|);
    EntryInside(at, g, k, i);
    assert Call(i, v) in g.entries[k];
    forall p | e + g.leaves[i].offset <= p < e + g.leaves[i].End()
      ensures r[p] == Encode(g.leaves[i].kind, v)[p - e - g.leaves[i].offset]
    {
      EntryByte(buf, at, g, |g.entries|, k, i, p);
    }
    GetEncoded(r, e, g.leaves[i], v);
  }

  // ----- Decoding -----

  /** What a decoder that knows the accessors `known` reads, entry by entry, at the stride and up to
      the count found on the wire. */
  predicate Readable(buf: seq<byte>, at: nat, known: seq<Leaf>) {
    at + GroupHeaderLength <= |buf| &&
    var base, stride, count := at + GroupHeaderLength, U16At(buf, at), U16At(buf, at + 2);
    forall k, i :: 0 <= k < count && 0 <= i < |known| ==> EntryAt(base, stride, k) + known[i].End() <= |buf|
  }

  function ReadEntry(buf: seq<byte>, e: nat, known: seq<Leaf>): (vs: seq<Value>)
    requires forall i :: 0 <= i < |known| ==> e + known[i].End() <= |buf|
    ensures |vs| == |known|
  {
    seq(|known|, i requires 0 <= i < |known| => Get(buf, e, known[i]))
  }

  function DecodeGroup(buf: seq<byte>, at: nat, known: seq<Leaf>): (es: seq<seq<Value>>)
    requires Readable(buf, at, known)
    ensures |es| == U16At(buf, at + 2)
  {
    var base, stride, count := at + GroupHeaderLength, U16At(buf, at), U16At(buf, at + 2);
    seq(count, k requires 0 <= k < count => ReadEntry(buf, EntryAt(base, stride, k), known))
  }

  /** The values that an entry's calls set for the accessors `known`. */
  function EntryValues(known: seq<Leaf>, calls: seq<Call>): (vs: seq<Value>)
    requires SetsAll(known, calls)
    ensures |vs| == |known|
  {
    seq(|known|, i requires 0 <= i < |known| => Normal(known[i].kind, LastSet(calls, i).value))
  }

  lemma {:induction false} GroupHeaderRead(buf: seq<byte>, at: nat, g: Group)
    requires g.WellFormed() && g.Fits() && g.End(at) <= |buf|
    ensures at + GroupHeaderLength <= |buf|
    ensures var r := EncodeGroup(buf, at, g);
            U16At(r, at) == g.stride && U16At(r, at + 2) == |g.entries|
  {
    var h, r := WithHeader(buf, at, g), EncodeGroup(buf, at, g);
    forall p | at <= p < at + GroupHeaderLength
      ensures r[p] == h[p]
    {
      OutsideIsOff(at, g, |g.entries|, p);
      EntriesOff(h, at, g, |g.entries|, p);
    }
    U16Found(r, at, g.stride);
    U16Found(r, at + 2, |g.entries|);
  }

  /** A decoder that knows the accessors `known` finds at `g` exactly the entries written. */
  predicate GroupReads(r: seq<byte>, g: nat, known: seq<Leaf>, entries: seq<seq<Call>>) {
    && Readable(r, g, known)
    && |DecodeGroup(r, g, known)| == |entries|
    && forall k :: 0 <= k < |entries| ==>
         SetsAll(known, entries[k]) && DecodeGroup(r, g, known)[k] == EntryValues(known, entries[k])
  }

  lemma {:induction false} EntryReads(buf: seq<byte>, at: nat, g: Group, known: seq<Leaf>, k: nat)
    requires g.WellFormed() && g.Complete() && known <= g.leaves && k < |g.entries| && g.End(at) <= |buf|
    ensures var r := EncodeGroup(buf, at, g);
            && (forall i :: 0 <= i < |known| ==> g.Entry(at, k) + known[i].End() <= |r|)
            && SetsAll(known, g.entries[k])
            && ReadEntry(r, g.Entry(at, k), known) == EntryValues(known, g.entries[k])
  {
    var r, e := EncodeGroup(buf, at, g), g.Entry(at, k);
    forall i | 0 <= i < |known|
      ensures e + known[i].End() <= |r| && LastSet(g.entries[k], i).Some?
      ensures Get(r, e, known[i]) == Normal(known[i].kind, LastSet(g.entries[k], i).value)
    {
      assert known[i] == g.leaves[i];
      EntryKept(WithHeader(buf, at, g), at, g, k, i);
    }
    var x, y := ReadEntry(r, e, known), EntryValues(known, g.entries[k]);
    assert forall i :: 0 <= i < |known| ==> x[i] == y[i];
  }

  /** For any number of entries up to 65535, a decoder that knows the entry's fields, or only the
      first few of them, reads back exactly the values set, entry by entry and in order: it strides
      by the length on the wire, not by the one it was generated with. */
  lemma {:induction false} GroupRoundTrip(buf: seq<byte>, at: nat, g: Group, known: seq<Leaf>)
    requires g.WellFormed() && g.Complete() && g.Fits() && known <= g.leaves && g.End(at) <= |buf|
    ensures GroupReads(EncodeGroup(buf, at, g), at, known, g.entries)
  {
    var r, base := EncodeGroup(buf, at, g), at + GroupHeaderLength;
    GroupHeaderRead(buf, at, g);
    forall k, i | 0 <= k < |g.entries| && 0 <= i < |known|
      ensures EntryAt(base, g.stride, k) + known[i].End() <= |r|
    {
      EntryReads(buf, at, g, known, k);
    }
    assert Readable(r, at, known);
    forall k | 0 <= k < |g.entries|
      ensures SetsAll(known, g.entries[k]) && DecodeGroup(r, at, known)[k] == EntryValues(known, g.entries[k])
    {
      EntryReads(buf, at, g, known, k);
    }
  }

  /** Encoding a group changes nothing but its own header and entries. */
  lemma {:induction false} GroupFrame(buf: seq<byte>, at: nat, g: Group, p: nat)
    requires g.WellFormed() && g.End(at) <= |buf| && p < |buf| && !(at <= p < g.End(at))
    ensures EncodeGroup(buf, at, g)[p] == buf[p]
  {
    OutsideIsOff(at, g, |g.entries|, p);
    EntriesOff(WithHeader(buf, at, g), at, g, |g.entries|, p);
  }

  // ----- What other writes leave of a group -----

  /** The group stands at `at`: its entry length is there and its entries read back. */
  predicate Stands(r: seq<byte>, at: nat, g: Group) {
    && at + GroupHeaderLength <= |r|
    && U16At(r, at) == g.stride
    && GroupReads(r, at, g.leaves, g.entries)
  }

  lemma {:induction false} GroupStands(buf: seq<byte>, at: nat, g: Group)
    requires g.WellFormed() && g.Complete() && g.Fits() && g.End(at) <= |buf|
    ensures Stands(EncodeGroup(buf, at, g), at, g)
  {
    GroupHeaderRead(buf, at, g);
    GroupRoundTrip(buf, at, g, g.leaves);
  }

  lemma EntrySame(m: seq<byte>, r: seq<byte>, at: nat, g: Group, k: nat)
    requires |m| == |r| && g.WellFormed() && g.End(at) <= |m| && k < |g.entries|
    requires forall i, p :: 0 <= i < |g.leaves| && 0 <= p < |m| && OnLeaf(at, g.stride, g.leaves, k, i, p)
                            ==> r[p] == m[p]
    ensures forall i :: 0 <= i < |g.leaves| ==> g.Entry(at, k) + g.leaves[i].End() <= |m|
    ensures ReadEntry(r, g.Entry(at, k), g.leaves) == ReadEntry(m, g.Entry(at, k), g.leaves)
  {
    var e := g.Entry(at, k);
    forall i | 0 <= i < |g.leaves|
      ensures e + g.leaves[i].End() <= |m| && Get(r, e, g.leaves[i]) == Get(m, e, g.leaves[i])
    {
      EntryInside(at, g, k, i);
      forall p | e + g.leaves[i].offset <= p < e + g.leaves[i].End()
        ensures r[p] == m[p]
      {
        assert OnLeaf(at, g.stride, g.leaves, k, i, p);
      }
      GetSame(r, m, e, g.leaves[i]);
    }
  }

  /** A group stands as long as its header and the bytes of its accessors do. */
  lemma {:induction false} StandsStill(m: seq<byte>, r: seq<byte>, at: nat, g: Group)
    requires |m| == |r| && g.WellFormed() && g.End(at) <= |m| && Stands(m, at, g)
    requires forall p :: at <= p < at + GroupHeaderLength ==> r[p] == m[p]
    requires forall k, i, p ::
               0 <= k < |g.entries| && 0 <= i < |g.leaves| && 0 <= p < |m| && OnLeaf(at, g.stride, g.leaves, k, i, p)
               ==> r[p] == m[p]
    ensures Stands(r, at, g)
  {
    U16Same(m, r, at);
    U16Same(m, r, at + 2);
    var x, y := DecodeGroup(m, at, g.leaves), DecodeGroup(r, at, g.leaves);
    forall k | 0 <= k < |g.entries|
      ensures y[k] == x[k]
    {
      EntrySame(m, r, at, g, k);
    }
  }

  // ----- A message with one group -----

  /** The header and every root field read back as written. */
  predicate RootReads(r: seq<byte>, at: nat, h: MessageHeader, root: seq<Leaf>, calls: seq<Call>)
    requires SetsAll(root, calls) && at + HeaderLength <= |r|
  {
    && ReadHeader(r, at) == h
    && forall i :: 0 <= i < |root| ==>
         && at + HeaderLength + root[i].End() <= |r|
         && Get(r, at + HeaderLength, root[i]) == Normal(root[i].kind, LastSet(calls, i).value)
  }

  /** Where the first group of a message at `at` goes. */
  function Behind(at: nat, h: MessageHeader): nat {
    at + HeaderLength + h.blockLength
  }

  /** A message followed by its group: header and root fields read back as written, and so do the
      group's entries. */
  lemma {:induction false} MessageWithGroupRoundTrip(buf: seq<byte>, at: nat, h: MessageHeader, root: seq<Leaf>,
                                                     calls: seq<Call>, g: Group)
    requires WellLaid(root, h.blockLength) && Proper(root, calls) && SetsAll(root, calls) && h.Fits()
    requires g.WellFormed() && g.Complete() && g.Fits() && g.End(Behind(at, h)) <= |buf|
    ensures Room(root, at + HeaderLength, |buf|)
    ensures var r := EncodeGroup(EncodeMessage(buf, at, h, root, calls), Behind(at, h), g);
            RootReads(r, at, h, root, calls) && GroupReads(r, Behind(at, h), g.leaves, g.entries)
  {
    RootWritten(buf, at, h, root, calls);
    var m := EncodeMessage(buf, at, h, root, calls);
    GroupRoundTrip(m, Behind(at, h), g, g.leaves);
    RootSurvivesGroup(m, at, h, root, calls, g);
  }

  lemma {:induction false} RootWritten(buf: seq<byte>, at: nat, h: MessageHeader, root: seq<Leaf>, calls: seq<Call>)
    requires WellLaid(root, h.blockLength) && Proper(root, calls) && SetsAll(root, calls) && h.Fits()
    requires at + HeaderLength + h.blockLength <= |buf|
    ensures Room(root, at + HeaderLength, |buf|)
    ensures RootReads(EncodeMessage(buf, at, h, root, calls), at, h, root, calls)
  {
    WellLaidDisjoint(root, h.blockLength);
    BlockFits(at + HeaderLength, root, h.blockLength, |buf|);
    MessageRoundTrip(buf, at, h, root, calls);
  }

  /** A group anywhere behind a message leaves the message as it was. */
  lemma {:induction false} RootSurvives(m: seq<byte>, at: nat, h: MessageHeader, root: seq<Leaf>,
                                        calls: seq<Call>, start: nat, g: Group)
    requires WellLaid(root, h.blockLength) && SetsAll(root, calls) && Behind(at, h) <= start
    requires g.WellFormed() && g.End(start) <= |m| && at + HeaderLength <= |m| && RootReads(m, at, h, root, calls)
    ensures RootReads(EncodeGroup(m, start, g), at, h, root, calls)
  {
    var r := EncodeGroup(m, start, g);
    forall p | at <= p < Behind(at, h)
      ensures r[p] == m[p]
    {
      GroupFrame(m, start, g, p);
    }
    SameBefore(m, r, at, Behind(at, h), root, h.blockLength);
  }

  /** Encoding the group leaves the message before it as it was. */
  lemma {:induction false} RootSurvivesGroup(m: seq<byte>, at: nat, h: MessageHeader, root: seq<Leaf>,
                                             calls: seq<Call>, g: Group)
    requires WellLaid(root, h.blockLength) && SetsAll(root, calls)
    requires g.WellFormed() && g.End(Behind(at, h)) <= |m| && RootReads(m, at, h, root, calls)
    ensures RootReads(EncodeGroup(m, Behind(at, h), g), at, h, root, calls)
  {
    RootSurvives(m, at, h, root, calls, Behind(at, h), g);
  }

  /** Root setters called once the group is written leave the group as it was. */
  lemma {:induction false} GroupSurvivesRoot(m: seq<byte>, at: nat, h: MessageHeader, root: seq<Leaf>,
                                             calls: seq<Call>, g: Group)
    requires WellLaid(root, h.blockLength) && Proper(root, calls) && Room(root, at + HeaderLength, |m|)
    requires g.WellFormed() && g.End(Behind(at, h)) <= |m| && Stands(m, Behind(at, h), g)
    ensures Stands(ApplyCalls(m, at + HeaderLength, root, calls), Behind(at, h), g)
  {
    var r := ApplyCalls(m, at + HeaderLength, root, calls);
    WellLaidDisjoint(root, h.blockLength);
    forall p | Behind(at, h) <= p < |m|
      ensures r[p] == m[p]
    {
      OutsideBlock(m, at + HeaderLength, root, h.blockLength, calls, p);
    }
    StandsStill(m, r, Behind(at, h), g);
  }

  /** Buffers that agree on a message's stretch give the same header and root fields. */
  lemma {:induction false} SameBefore(m: seq<byte>, r: seq<byte>, at: nat, g: nat, root: seq<Leaf>, block: nat)
    requires |m| == |r| && WellLaid(root, block) && g == at + HeaderLength + block <= |m|
    requires forall p :: at <= p < g ==> r[p] == m[p]
    ensures ReadHeader(r, at) == ReadHeader(m, at)
    ensures forall i :: 0 <= i < |root| ==>
              at + HeaderLength + root[i].End() <= |m|
              && Get(r, at + HeaderLength, root[i]) == Get(m, at + HeaderLength, root[i])
  {
    var base := at + HeaderLength;
    U16Same(m, r, at);
    U16Same(m, r, at + 2);
    U16Same(m, r, at + 4);
    U16Same(m, r, at + 6);
    forall i | 0 <= i < |root|
      ensures base + root[i].End() <= |m| && Get(r, base, root[i]) == Get(m, base, root[i])
    {
      WellLaidDisjoint(root, block);
      GetSame(r, m, base, root[i]);
    }
  }

  lemma U16Same(a: seq<byte>, b: seq<byte>, at: nat)
    requires at + 2 <= |a| && at + 2 <= |b| && a[at] == b[at] && a[at + 1] == b[at + 1]
    ensures U16At(a, at) == U16At(b, at)
  {
    assert a[at..at + 2] == b[at..at + 2];
  }

  // ----- More than one group -----

  /** Where the generator puts group `i`: four bytes behind the one before it. */
  function GroupStart(base: nat, i: nat): nat {
    base + GroupHeaderLength * i
  }

  /** Group `i` ends before group `j` starts. */
  predicate EndsBefore(base: nat, gs: seq<Group>, i: nat, j: nat)
    requires i < |gs|
  {
    gs[i].End(GroupStart(base, i)) <= GroupStart(base, j)
  }

  /** Every group ends before the next ones start. */
  predicate GroupsApart(base: nat, gs: seq<Group>) {
    forall i: nat, j: nat :: i < j < |gs| ==> EndsBefore(base, gs, i, j)
  }

  /** A group takes its header and, for each entry, the entry length. */
  lemma GroupSize(g: Group, at: nat)
    ensures g.End(at) == at + GroupHeaderLength + |g.entries| * g.stride
  {
    EntryAtIs(at + GroupHeaderLength, g.stride, |g.entries|);
  }

  /** Several groups stay apart if and only if all but the last have no bytes in their entries. */
  lemma GroupsApartIff(base: nat, gs: seq<Group>)
    ensures GroupsApart(base, gs) <==> forall i :: 0 <= i < |gs| - 1 ==> |gs[i].entries| * gs[i].stride == 0
  {
    forall i | 0 <= i < |gs|
      ensures gs[i].End(GroupStart(base, i)) == GroupStart(base, i) + GroupHeaderLength + |gs[i].entries| * gs[i].stride
    {
      GroupSize(gs[i], GroupStart(base, i));
    }
    if GroupsApart(base, gs) {
      forall i | 0 <= i < |gs| - 1
        ensures |gs[i].entries| * gs[i].stride == 0
      {
        assert EndsBefore(base, gs, i, i + 1);
      }
    }
  }

  predicate GroupReady(g: Group, at: nat, size: nat) {
    g.WellFormed() && g.Complete() && g.Fits() && g.End(at) <= size
  }

  predicate ReadyAt(base: nat, gs: seq<Group>, i: nat, size: nat)
    requires i < |gs|
  {
    GroupReady(gs[i], GroupStart(base, i), size)
  }

  predicate GroupsReady(base: nat, gs: seq<Group>, size: nat) {
    forall i: nat :: i < |gs| ==> ReadyAt(base, gs, i, size)
  }

  /** The buffer after the first `n` groups, each where the generator puts it. */
  function EncodeGroups(buf: seq<byte>, base: nat, gs: seq<Group>, n: nat): (r: seq<byte>)
    requires GroupsReady(base, gs, |buf|) && n <= |gs|
    ensures |r| == |buf|
  {
    if n == 0 then buf
    else
      assert ReadyAt(base, gs, n - 1, |buf|);
      EncodeGroup(EncodeGroups(buf, base, gs, n - 1), GroupStart(base, n - 1), gs[n - 1])
  }

  /** A group that ends before the next one starts survives it. */
  lemma {:induction false} StandsBefore(m: seq<byte>, at: nat, g: Group, next: nat, h: Group)
    requires g.WellFormed() && h.WellFormed() && g.End(at) <= next && h.End(next) <= |m| && g.End(at) <= |m|
    requires Stands(m, at, g)
    ensures Stands(EncodeGroup(m, next, h), at, g)
  {
    var r := EncodeGroup(m, next, h);
    forall p | at <= p < g.End(at)
      ensures r[p] == m[p]
    {
      GroupFrame(m, next, h, p);
    }
    forall k, i, p | 0 <= k < |g.entries| && 0 <= i < |g.leaves| && 0 <= p < |m|
                     && OnLeaf(at, g.stride, g.leaves, k, i, p)
      ensures r[p] == m[p]
    {
      EntryInside(at, g, k, i);
    }
    StandsStill(m, r, at, g);
  }

  /** What two groups of a message give one another. */
  lemma ReadyPair(base: nat, gs: seq<Group>, size: nat, i: nat, n: nat)
    requires GroupsReady(base, gs, size) && GroupsApart(base, gs) && i < n < |gs|
    ensures GroupReady(gs[i], GroupStart(base, i), size) && GroupReady(gs[n], GroupStart(base, n), size)
    ensures gs[i].End(GroupStart(base, i)) <= GroupStart(base, n)
  {
    assert ReadyAt(base, gs, i, size) && ReadyAt(base, gs, n, size) && EndsBefore(base, gs, i, n);
  }

  /** Group `i` stands once the first `n` groups are written. */
  ghost predicate StandsAfter(buf: seq<byte>, base: nat, gs: seq<Group>, n: nat, i: nat)
    requires GroupsReady(base, gs, |buf|) && i < n <= |gs|
  {
    Stands(EncodeGroups(buf, base, gs, n), GroupStart(base, i), gs[i])
  }

  /** The group written last stands. */
  lemma {:induction false} LastStands(buf: seq<byte>, base: nat, gs: seq<Group>, n: nat)
    requires GroupsReady(base, gs, |buf|) && 0 < n <= |gs|
    ensures StandsAfter(buf, base, gs, n, n - 1)
  {
    assert ReadyAt(base, gs, n - 1, |buf|);
    GroupStands(EncodeGroups(buf, base, gs, n - 1), GroupStart(base, n - 1), gs[n - 1]);
  }

  /** A group that stood before it still does. */
  lemma {:induction false} EarlierStands(buf: seq<byte>, base: nat, gs: seq<Group>, n: nat, i: nat)
    requires GroupsReady(base, gs, |buf|) && GroupsApart(base, gs) && i < n - 1 < |gs|
    requires StandsAfter(buf, base, gs, n - 1, i)
    ensures StandsAfter(buf, base, gs, n, i)
  {
    ReadyPair(base, gs, |buf|, i, n - 1);
    StandsBefore(EncodeGroups(buf, base, gs, n - 1), GroupStart(base, i), gs[i], GroupStart(base, n - 1), gs[n - 1]);
  }

  lemma {:induction false} ApartStand(buf: seq<byte>, base: nat, gs: seq<Group>, n: nat, i: nat)
    requires GroupsReady(base, gs, |buf|) && GroupsApart(base, gs) && i < n <= |gs|
    ensures StandsAfter(buf, base, gs, n, i)
  {
    if i == n - 1 {
      LastStands(buf, base, gs, n);
    } else {
      ApartStand(buf, base, gs, n - 1, i);
      EarlierStands(buf, base, gs, n, i);
    }
  }

  /** A message with several groups of which all but the last are empty: every group reads back. */
  lemma SeveralGroupsRoundTrip(buf: seq<byte>, base: nat, gs: seq<Group>, i: nat)
    requires GroupsReady(base, gs, |buf|) && i < |gs|
    requires forall j :: 0 <= j < |gs| - 1 ==> gs[j].entries == []
    ensures GroupReads(EncodeGroups(buf, base, gs, |gs|), GroupStart(base, i), gs[i].leaves, gs[i].entries)
  {
    GroupsApartIff(base, gs);
    ApartStand(buf, base, gs, |gs|, i);
  }

  /** Any number of groups leave header and root fields as they were. */
  lemma {:induction false} RootSurvivesGroups(m: seq<byte>, at: nat, h: MessageHeader, root: seq<Leaf>,
                                              calls: seq<Call>, gs: seq<Group>, n: nat)
    requires WellLaid(root, h.blockLength) && SetsAll(root, calls) && at + HeaderLength <= |m|
    requires GroupsReady(Behind(at, h), gs, |m|) && n <= |gs| && RootReads(m, at, h, root, calls)
    ensures RootReads(EncodeGroups(m, Behind(at, h), gs, n), at, h, root, calls)
  {
    if n > 0 {
      var base := Behind(at, h);
      RootSurvivesGroups(m, at, h, root, calls, gs, n - 1);
      assert ReadyAt(base, gs, n - 1, |m|);
      RootSurvives(EncodeGroups(m, base, gs, n - 1), at, h, root, calls, GroupStart(base, n - 1), gs[n - 1]);
    }
  }

  /** A whole message with several groups of which all but the last are empty: header, root fields and
      every group read back. */
  lemma {:induction false} MessageWithGroupsRoundTrip(buf: seq<byte>, at: nat, h: MessageHeader, root: seq<Leaf>,
                                                      calls: seq<Call>, gs: seq<Group>)
    requires WellLaid(root, h.blockLength) && Proper(root, calls) && SetsAll(root, calls) && h.Fits()
    requires Behind(at, h) <= |buf| && GroupsReady(Behind(at, h), gs, |buf|)
    requires forall j :: 0 <= j < |gs| - 1 ==> gs[j].entries == []
    ensures Room(root, at + HeaderLength, |buf|)
    ensures var r := EncodeGroups(EncodeMessage(buf, at, h, root, calls), Behind(at, h), gs, |gs|);
            && RootReads(r, at, h, root, calls)
            && forall i :: 0 <= i < |gs| ==>
                 GroupReads(r, GroupStart(Behind(at, h), i), gs[i].leaves, gs[i].entries)
  {
    RootWritten(buf, at, h, root, calls);
    var m := EncodeMessage(buf, at, h, root, calls);
    RootSurvivesGroups(m, at, h, root, calls, gs, |gs|);
    forall i | 0 <= i < |gs|
      ensures GroupReads(EncodeGroups(m, Behind(at, h), gs, |gs|), GroupStart(Behind(at, h), i),
                         gs[i].leaves, gs[i].entries)
    {
      SeveralGroupsRoundTrip(m, Behind(at, h), gs, i);
    }
  }

  // ----- Two groups that overlap -----

  /** Byte `p` is written when group `g` is encoded at `at`: it is in the header or in an accessor. */
  predicate Written(at: nat, g: Group, p: nat) {
    at <= p < at + GroupHeaderLength || !OffLeaves(at, g.stride, g.leaves, |g.entries|, p)
  }

  /** Encoding `h` at `next` writes no byte of an accessor of `g` at `at`. */
  ghost predicate Spared(at: nat, g: Group, next: nat, h: Group) {
    forall k, i, p: nat ::
      0 <= k < |g.entries| && 0 <= i < |g.leaves| && OnLeaf(at, g.stride, g.leaves, k, i, p) ==> !Written(next, h, p)
  }

  /** Same layout and number of entries; only the values differ. */
  predicate SameShape(g: Group, x: Group) {
    x.stride == g.stride && x.leaves == g.leaves && |x.entries| == |g.entries| && x.WellFormed() && x.Complete()
  }

  /** Two groups encoded one after the other, the second where the generator puts it. */
  function EncodeTwo(buf: seq<byte>, base: nat, x: Group, y: Group): (r: seq<byte>)
    requires x.WellFormed() && y.WellFormed()
    requires x.End(base) <= |buf| && y.End(GroupStart(base, 1)) <= |buf|
    ensures |r| == |buf|
  {
    EncodeGroup(EncodeGroup(buf, base, x), GroupStart(base, 1), y)
  }

  /** Both groups read back. */
  ghost predicate BothRead(buf: seq<byte>, base: nat, x: Group, y: Group)
    requires x.WellFormed() && y.WellFormed()
    requires x.End(base) <= |buf| && y.End(GroupStart(base, 1)) <= |buf|
  {
    var r := EncodeTwo(buf, base, x, y);
    && GroupReads(r, base, x.leaves, x.entries)
    && GroupReads(r, GroupStart(base, 1), y.leaves, y.entries)
  }

  /** A byte that encoding a group does not write. */
  lemma {:induction false} Unwritten(m: seq<byte>, at: nat, g: Group, p: nat)
    requires g.WellFormed() && g.End(at) <= |m| && p < |m| && !Written(at, g, p)
    ensures EncodeGroup(m, at, g)[p] == m[p]
  {
    EntriesOff(WithHeader(m, at, g), at, g, |g.entries|, p);
  }

  lemma {:induction false} SparedRead(buf: seq<byte>, base: nat, x: Group, y: Group)
    requires x.WellFormed() && x.Complete() && x.Fits() && y.WellFormed() && y.Complete() && y.Fits()
    requires x.End(base) <= |buf| && y.End(GroupStart(base, 1)) <= |buf| && Spared(base, x, GroupStart(base, 1), y)
    ensures BothRead(buf, base, x, y)
  {
    var next, m := GroupStart(base, 1), EncodeGroup(buf, base, x);
    var r := EncodeGroup(m, next, y);
    GroupStands(buf, base, x);
    GroupStands(m, next, y);
    forall p | base <= p < base + GroupHeaderLength
      ensures r[p] == m[p]
    {
      GroupFrame(m, next, y, p);
    }
    forall k, i, p | 0 <= k < |x.entries| && 0 <= i < |x.leaves| && 0 <= p < |m|
                     && OnLeaf(base, x.stride, x.leaves, k, i, p)
      ensures r[p] == m[p]
    {
      Unwritten(m, next, y, p);
    }
    StandsStill(m, r, base, x);
  }

  /** An entry whose accessors are all set to zeros or all to ones. */
  function FillCalls(leaves: seq<Leaf>, ones: bool): (calls: seq<Call>)
    requires AllFree(leaves)
    ensures |calls| == |leaves|
    ensures forall i :: 0 <= i < |leaves| ==> calls[i] == Call(i, Filled(leaves[i].kind, ones))
  {
    seq(|leaves|, i requires 0 <= i < |leaves| => Call(i, Filled(leaves[i].kind, ones)))
  }

  lemma FillSets(leaves: seq<Leaf>, ones: bool)
    requires AllFree(leaves)
    ensures Proper(leaves, FillCalls(leaves, ones)) && SetsAll(leaves, FillCalls(leaves, ones))
    ensures forall i :: 0 <= i < |leaves| ==>
              LastSet(FillCalls(leaves, ones), i) == Some(Filled(leaves[i].kind, ones))
  {
    var calls := FillCalls(leaves, ones);
    forall i | 0 <= i < |leaves|
      ensures Admits(leaves[i].kind, Filled(leaves[i].kind, ones))
      ensures LastSet(calls, i) == Some(Filled(leaves[i].kind, ones))
    {
      FilledEncodes(leaves[i].kind, ones, 0);
      assert calls[i].i == i;
    }
  }

  /** A group of the same shape with all bytes zeros or all ones. */
  function FilledGroup(g: Group, ones: bool): Group
    requires AllFree(g.leaves)
  {
    Group(g.stride, g.leaves, seq(|g.entries|, _ => FillCalls(g.leaves, ones)))
  }

  lemma FilledShape(g: Group, ones: bool)
    requires g.WellFormed() && AllFree(g.leaves)
    ensures SameShape(g, FilledGroup(g, ones))
  {
    FillSets(g.leaves, ones);
  }

  /** The bytes of an accessor that was filled and reads back are filled. */
  lemma {:induction false} ReadIsFilled(r: seq<byte>, at: nat, g: Group, ones: bool, k: nat, i: nat, p: nat)
    requires AllFree(g.leaves) && k < |g.entries| && i < |g.leaves| && p < |r|
    requires OnLeaf(at, g.stride, g.leaves, k, i, p) && Stands(r, at, g)
    requires LastSet(g.entries[k], i) == Some(Filled(g.leaves[i].kind, ones))
    ensures r[p] == Fill(ones)
  {
    var leaf, e := g.leaves[i], g.Entry(at, k);
    FilledEncodes(leaf.kind, ones, p - e - leaf.offset);
    assert EntryAt(at + GroupHeaderLength, U16At(r, at), k) + leaf.End() <= |r|;
    assert DecodeGroup(r, at, g.leaves)[k][i] == Get(r, e, leaf);
    assert EntryValues(g.leaves, g.entries[k])[i] == Normal(leaf.kind, Filled(leaf.kind, ones));
    GetInjective(r, e, leaf, Filled(leaf.kind, ones), p);
  }

  lemma {:induction false} HeaderByte(m: seq<byte>, at: nat, g: Group, p: nat)
    requires g.WellFormed() && g.End(at) <= |m| && at <= p < at + GroupHeaderLength
    ensures p < |m| && EncodeGroup(m, at, g)[p] == GroupHeader(g.stride, |g.entries|)[p - at]
  {
    OutsideIsOff(at, g, |g.entries|, p);
    EntriesOff(WithHeader(m, at, g), at, g, |g.entries|, p);
  }

  lemma {:induction false} FilledByte(m: seq<byte>, at: nat, g: Group, ones: bool, k: nat, i: nat, p: nat)
    requires g.WellFormed() && AllFree(g.leaves) && g.End(at) <= |m| && p < |m|
    requires k < |g.entries| && i < |g.leaves| && OnLeaf(at, g.stride, g.leaves, k, i, p)
    requires g.entries[k] == FillCalls(g.leaves, ones)
    ensures EncodeGroup(m, at, g)[p] == Fill(ones)
  {
    FillSets(g.leaves, ones);
    EntryByte(WithHeader(m, at, g), at, g, |g.entries|, k, i, p);
    FilledEncodes(g.leaves[i].kind, ones, p - g.Entry(at, k) - g.leaves[i].offset);
  }

  /** The values for which a byte written by the second group spoils the first. */
  lemma {:induction false} WrittenSpoils(buf: seq<byte>, base: nat, g: Group, h: Group, k: nat, i: nat, p: nat)
    returns (x: Group, y: Group)
    requires g.WellFormed() && h.WellFormed() && AllFree(g.leaves) && AllFree(h.leaves) && g.Fits()
    requires g.End(base) <= |buf| && h.End(GroupStart(base, 1)) <= |buf|
    requires k < |g.entries| && i < |g.leaves| && OnLeaf(base, g.stride, g.leaves, k, i, p)
    requires Written(GroupStart(base, 1), h, p)
    ensures SameShape(g, x) && SameShape(h, y) && !BothRead(buf, base, x, y)
  {
    var next := GroupStart(base, 1);
    var inHeader := p < next + GroupHeaderLength && next <= p;
    var ones := inHeader && GroupHeader(h.stride, |h.entries|)[p - next] == 0;
    x, y := FilledGroup(g, ones), FilledGroup(h, true);
    FilledShape(g, ones);
    FilledShape(h, true);
    EntryInside(base, g, k, i);
    var m := EncodeGroup(buf, base, x);
    var r := EncodeGroup(m, next, y);
    if inHeader {
      HeaderByte(m, next, y, p);
    } else {
      var l, j :| 0 <= l < |h.entries| && 0 <= j < |h.leaves| && OnLeaf(next, h.stride, h.leaves, l, j, p);
      FilledByte(m, next, y, true, l, j, p);
    }
    assert r[p] != Fill(ones);
    StrideStays(buf, base, x, y);
    if GroupReads(r, base, x.leaves, x.entries) {
      FillSets(g.leaves, ones);
      ReadIsFilled(r, base, x, ones, k, i, p);
    }
  }

  /** The second group leaves the header of the first. */
  lemma {:induction false} StrideStays(buf: seq<byte>, base: nat, x: Group, y: Group)
    requires x.WellFormed() && x.Fits() && y.WellFormed()
    requires x.End(base) <= |buf| && y.End(GroupStart(base, 1)) <= |buf|
    ensures base + GroupHeaderLength <= |buf| && U16At(EncodeTwo(buf, base, x, y), base) == x.stride
  {
    var m, next := EncodeGroup(buf, base, x), GroupStart(base, 1);
    GroupHeaderRead(buf, base, x);
    GroupFrame(m, next, y, base);
    GroupFrame(m, next, y, base + 1);
    U16Same(m, EncodeGroup(m, next, y), base);
  }

  /** Two groups, placed by the generator, read back for all their values if and only if encoding the
      second writes no byte of an accessor of the first. */
  lemma TwoGroupsIff(buf: seq<byte>, base: nat, g: Group, h: Group)
    requires g.WellFormed() && h.WellFormed() && g.Fits() && h.Fits() && AllFree(g.leaves) && AllFree(h.leaves)
    requires g.End(base) <= |buf| && h.End(GroupStart(base, 1)) <= |buf|
    ensures (forall x, y :: SameShape(g, x) && SameShape(h, y) ==> BothRead(buf, base, x, y))
            <==> Spared(base, g, GroupStart(base, 1), h)
  {
    var next := GroupStart(base, 1);
    if k: nat, i: nat, p: nat :| k < |g.entries| && i < |g.leaves| && OnLeaf(base, g.stride, g.leaves, k, i, p)
                                 && Written(next, h, p) {
      var x, y := WrittenSpoils(buf, base, g, h, k, i, p);
    } else {
      forall x, y | SameShape(g, x) && SameShape(h, y)
        ensures BothRead(buf, base, x, y)
      {
        assert Spared(base, x, next, y);
        SparedRead(buf, base, x, y);
      }
    }
  }

  /** When an entry of the first group has a field in its first four bytes, that is so if and only if
      the first group has no entries. */
  lemma SparedIff(base: nat, g: Group, h: Group, i: nat)
    requires g.WellFormed() && i < |g.leaves| && g.leaves[i].offset < GroupHeaderLength
    ensures Spared(base, g, GroupStart(base, 1), h) <==> g.entries == []
  {
    if g.entries != [] {
      var p := g.Entry(base, 0) + g.leaves[i].offset;
      assert AsFields(g.leaves)[i].len > 0;
      assert OnLeaf(base, g.stride, g.leaves, 0, i, p) && Written(GroupStart(base, 1), h, p);
    }
  }

  // ----- The generated iterators -----

  /** The group encoder: hands out entry positions. */
  class GroupEncoder {
    const buffer: array<byte>
    const blockLength: nat
    const count: nat
    ghost const base: nat
    var index: nat
    var offset: nat

    ghost predicate Valid()
      reads this
    {
      index <= count && offset == EntryAt(base, blockLength, index)
    }

    constructor (buf: array<byte>, at: nat, stride: nat, n: nat)
      requires at + GroupHeaderLength <= buf.Length
      modifies buf
      ensures Valid() && index == 0 && count == n && blockLength == stride && buffer == buf
      ensures base == at + GroupHeaderLength
      ensures buf[..] == Splice(old(buf[..]), at, GroupHeader(stride, n))
    {
      buffer, blockLength, count, index := buf, stride, n, 0;
      base, offset := at + GroupHeaderLength, at + GroupHeaderLength;
      new;
      ghost var before := buf[..];
      CopyInto(buf, at, LE(stride, 2));
      CopyInto(buf, at + 2, LE(n, 2));
      SpliceTwice(before, at, LE(stride, 2), LE(n, 2));
    }

    /** `encoded_length`: where the group ends behind its start. */
    function EncodedLength(): (n: nat)
      reads this
      ensures base >= GroupHeaderLength ==> base - GroupHeaderLength + n == EntryAt(base, blockLength, count)
    {
      EntryAtIs(base, blockLength, count);
      GroupHeaderLength + blockLength * count
    }

    /** The position of the next entry, until all are handed out. */
    method NextEntry() returns (e: Option<nat>)
      requires Valid()
      modifies this
      ensures Valid()
      ensures e == if old(index) < count then Some(EntryAt(base, blockLength, old(index))) else None
      ensures index == if old(index) < count then old(index) + 1 else old(index)
    {
      if index >= count {
        return None;
      }
      e := Some(offset);
      offset := offset + blockLength;
      index := index + 1;
    }
  }

  /** There is room for the next entry while the whole group fits. */
  lemma EntryRoom(at: nat, g: Group, k: nat, size: nat)
    requires g.WellFormed() && k < |g.entries| && g.End(at) <= size
    ensures g.Entry(at, k + 1) <= size && Room(g.leaves, g.Entry(at, k), size)
  {
    EntriesApart(at + GroupHeaderLength, g.stride, k, |g.entries|);
    BlockFits(g.Entry(at, k), g.leaves, g.stride, size);
  }

  /** The buffer with one more entry. */
  lemma EntriesNext(h: seq<byte>, at: nat, g: Group, k: nat, m: seq<byte>)
    requires g.WellFormed() && k < |g.entries| && g.End(at) <= |h| && g.Entry(at, k) <= |h|
    requires m == WriteEntries(h, at, g, k)
    ensures g.Entry(at, k + 1) <= |h| && Room(g.leaves, g.Entry(at, k), |h|)
    ensures WriteEntries(h, at, g, k + 1) == ApplyCalls(m, g.Entry(at, k), g.leaves, g.entries[k])
  {
    EntryRoom(at, g, k, |h|);
  }

  /** Encodes one entry at the position handed out for it. */
  method WriteEntry(enc: GroupEncoder, buf: array<byte>, ghost at: nat, g: Group)
    requires enc.Valid() && enc.index < enc.count == |g.entries| && enc.blockLength == g.stride
    requires enc.base == at + GroupHeaderLength && g.WellFormed() && g.End(at) <= buf.Length
    modifies enc, buf
    ensures enc.Valid() && enc.index == old(enc.index) + 1
    ensures Room(g.leaves, g.Entry(at, old(enc.index)), buf.Length)
    ensures buf[..] == ApplyCalls(old(buf[..]), g.Entry(at, old(enc.index)), g.leaves, g.entries[old(enc.index)])
  {
    var k := enc.index;
    EntryRoom(at, g, k, buf.Length);
    var e := enc.NextEntry();
    SetAll(buf, e.value, g.leaves, g.entries[k]);
  }

  /** Encodes a group entry by entry through the iterator. */
  method WriteGroup(buf: array<byte>, at: nat, g: Group)
    requires g.WellFormed() && g.End(at) <= buf.Length
    modifies buf
    ensures buf[..] == EncodeGroup(old(buf[..]), at, g)
  {
    var enc := new GroupEncoder(buf, at, g.stride, |g.entries|);
    ghost var h := buf[..];
    for k := 0 to |g.entries|
      invariant enc.Valid() && enc.index == k
      invariant g.Entry(at, k) <= buf.Length
      invariant buf[..] == WriteEntries(h, at, g, k)
    {
      EntriesNext(h, at, g, k, buf[..]);
      WriteEntry(enc, buf, at, g);
    }
  }

  /** The group decoder: an iterator over entry positions found on the wire. */
  class GroupDecoder {
    const buffer: seq<byte>
    const blockLength: nat
    const count: nat
    ghost const base: nat
    var index: nat
    var offset: nat

    ghost predicate Valid()
      reads this
    {
      index <= count && offset == EntryAt(base, blockLength, index)
    }

    constructor (buf: seq<byte>, at: nat)
      requires at + GroupHeaderLength <= |buf|
      ensures Valid() && index == 0 && buffer == buf && base == at + GroupHeaderLength
      ensures blockLength == U16At(buf, at) && count == U16At(buf, at + 2)
    {
      buffer := buf;
      blockLength, count, index := U16At(buf, at), U16At(buf, at + 2), 0;
      base, offset := at + GroupHeaderLength, at + GroupHeaderLength;
    }

    method Next() returns (e: Option<nat>)
      requires Valid()
      modifies this
      ensures Valid()
      ensures e == if old(index) < count then Some(EntryAt(base, blockLength, old(index))) else None
      ensures index == if old(index) < count then old(index) + 1 else old(index)
    {
      if index >= count {
        return None;
      }
      e := Some(offset);
      offset := offset + blockLength;
      index := index + 1;
    }
  }

  /** Reads a whole group through the iterator. */
  method ReadGroup(buf: seq<byte>, at: nat, known: seq<Leaf>) returns (es: seq<seq<Value>>)
    requires Readable(buf, at, known)
    ensures es == DecodeGroup(buf, at, known)
  {
    var dec := new GroupDecoder(buf, at);
    es := [];
    while true
      invariant dec.Valid() && |es| == dec.index
      invariant es == DecodeGroup(buf, at, known)[..dec.index]
      decreases dec.count - dec.index
    {
      var e := dec.Next();
      if e.None? {
        break;
      }
      es := es + [ReadEntry(buf, e.value, known)];
    }
  }
}

/**
Groups of any layout. The validator checks no offset and no block length of a group
(ironsbe-schema/src/validation.rs), so that the accessors of its entries may share bytes; this is
exactly when such a group reads back.
*/
module GroupLayouts {
  import opened Bytes
  import opened Layout
  import opened Codec
  import opened Groups

  /** The encoder on a group of any layout. */
  function EncodeAny(buf: seq<byte>, at: nat, g: Group): (r: seq<byte>)
    requires g.ProperEntries() && at + GroupHeaderLength <= |buf|
    requires EntriesFit(at, g.stride, g.leaves, |g.entries|, |buf|)
    ensures |r| == |buf|
  {
    PutEntries(WithHeader(buf, at, g), at, g, |g.entries|)
  }

  /** On well-laid entries this is the encoder of one group. */
  lemma AnyIsGroup(buf: seq<byte>, at: nat, g: Group)
    requires g.WellFormed() && g.End(at) <= |buf|
    ensures EntriesFit(at, g.stride, g.leaves, |g.entries|, |buf|) && EncodeAny(buf, at, g) == EncodeGroup(buf, at, g)
  {
    LaidEntriesFit(at, g, |g.entries|, |buf|);
  }

  /** Two different accessors, of one entry or of two, share byte `p`. */
  predicate Share(at: nat, stride: nat, leaves: seq<Leaf>, k: nat, i: nat, l: nat, j: nat, p: nat)
    requires i < |leaves| && j < |leaves|
  {
    (k != l || i != j) && OnLeaf(at, stride, leaves, k, i, p) && OnLeaf(at, stride, leaves, l, j, p)
  }

  /** No accessor of an entry shares a byte with another one of the same or another entry. */
  ghost predicate EntriesClear(at: nat, stride: nat, leaves: seq<Leaf>, n: nat) {
    forall k: nat, i: nat, l: nat, j: nat, p: nat ::
      k < n && l < n && i < |leaves| && j < |leaves| ==> !Share(at, stride, leaves, k, i, l, j, p)
  }

  /** Same layout and number of entries; only the values differ. */
  predicate Like(g: Group, x: Group) {
    x.stride == g.stride && x.leaves == g.leaves && |x.entries| == |g.entries| && x.ProperEntries() && x.Complete()
  }

  /** The group reads back as encoded. */
  predicate ReadsBack(buf: seq<byte>, at: nat, x: Group)
    requires x.ProperEntries() && at + GroupHeaderLength <= |buf|
    requires EntriesFit(at, x.stride, x.leaves, |x.entries|, |buf|)
  {
    GroupReads(EncodeAny(buf, at, x), at, x.leaves, x.entries)
  }

  // ----- Accessors that share nothing -----

  /** Accessors of one entry that are not clear of one another share a byte. */
  lemma OverlapShares(at: nat, stride: nat, leaves: seq<Leaf>, k: nat, i: nat, j: nat) returns (p: nat)
    requires AllFree(leaves) && i < |leaves| && j < |leaves| && i != j && !Clear(leaves[i], leaves[j])
    ensures Share(at, stride, leaves, k, i, k, j, p)
  {
    var o := if leaves[i].offset < leaves[j].offset then leaves[j].offset else leaves[i].offset;
    p := EntryAt(at + GroupHeaderLength, stride, k) + o;
  }

  lemma ClearIsDisjoint(at: nat, stride: nat, leaves: seq<Leaf>, n: nat, k: nat)
    requires EntriesClear(at, stride, leaves, n) && k < n && AllFree(leaves)
    ensures Disjoint(leaves)
  {
    forall i, j | 0 <= i < |leaves| && 0 <= j < |leaves| && i != j
      ensures Clear(leaves[i], leaves[j])
    {
      if !Clear(leaves[i], leaves[j]) {
        var p := OverlapShares(at, stride, leaves, k, i, j);
      }
    }
  }

  /** Byte `p` is on no accessor of entry `k`. */
  predicate OffEntry(at: nat, stride: nat, leaves: seq<Leaf>, k: nat, p: nat) {
    forall j: nat :: j < |leaves| ==> !OnLeaf(at, stride, leaves, k, j, p)
  }

  /** Byte `p` is that of the value set through accessor `i` of entry `k`. */
  predicate HoldsValue(g: Group, at: nat, k: nat, i: nat, p: nat, b: byte)
    requires k < |g.entries| && i < |g.leaves| && OnLeaf(at, g.stride, g.leaves, k, i, p)
  {
    var kind, v := g.leaves[i].kind, LastSet(g.entries[k], i);
    v.Some? && Admits(kind, v.value) && b == Encode(kind, v.value)[p - g.Entry(at, k) - g.leaves[i].offset]
  }

  /** The last of `n` entries holds what was set in it. */
  lemma {:induction false} LastEntryByte(buf: seq<byte>, at: nat, g: Group, n: nat, i: nat, p: nat)
    requires g.ProperEntries() && 0 < n <= |g.entries| && EntriesFit(at, g.stride, g.leaves, n, |buf|)
    requires Disjoint(g.leaves) && i < |g.leaves| && p < |buf|
    requires OnLeaf(at, g.stride, g.leaves, n - 1, i, p) && LastSet(g.entries[n - 1], i).Some?
    ensures HoldsValue(g, at, n - 1, i, p, PutByte(buf, at, g, n, p))
  {
    assert EntryFits(at, g.stride, g.leaves, n - 1, |buf|);
    FieldByte(PutEntries(buf, at, g, n - 1), g.Entry(at, n - 1), g.leaves, g.entries[n - 1], i, p);
  }

  /** Writing one more entry leaves the bytes that are on none of its accessors. */
  lemma {:induction false} OneMoreEntry(buf: seq<byte>, at: nat, g: Group, n: nat, p: nat)
    requires g.ProperEntries() && 0 < n <= |g.entries| && EntriesFit(at, g.stride, g.leaves, n, |buf|) && p < |buf|
    requires OffEntry(at, g.stride, g.leaves, n - 1, p)
    ensures PutByte(buf, at, g, n, p) == PutByte(buf, at, g, n - 1, p)
  {
    var e := g.Entry(at, n - 1);
    assert EntryFits(at, g.stride, g.leaves, n - 1, |buf|);
    forall j | 0 <= j < |g.leaves|
      ensures !(e + g.leaves[j].offset <= p < e + g.leaves[j].End())
    {
      assert !OnLeaf(at, g.stride, g.leaves, n - 1, j, p);
    }
    OffAccessors(PutEntries(buf, at, g, n - 1), e, g.leaves, g.entries[n - 1], p);
  }

  lemma ClearOff(at: nat, stride: nat, leaves: seq<Leaf>, n: nat, k: nat, i: nat, l: nat, p: nat)
    requires EntriesClear(at, stride, leaves, n) && k < n && l < n && k != l && i < |leaves|
    requires OnLeaf(at, stride, leaves, k, i, p)
    ensures OffEntry(at, stride, leaves, l, p)
  {
    forall j: nat | j < |leaves|
      ensures !OnLeaf(at, stride, leaves, l, j, p)
    {
      assert !Share(at, stride, leaves, k, i, l, j, p);
    }
  }

  /** Entries that a byte is on no accessor of leave it alone. */
  lemma {:induction false} PutSame(buf: seq<byte>, at: nat, g: Group, m: nat, n: nat, p: nat)
    requires g.ProperEntries() && m <= n <= |g.entries| && EntriesFit(at, g.stride, g.leaves, n, |buf|) && p < |buf|
    requires forall l: nat :: m <= l < n ==> OffEntry(at, g.stride, g.leaves, l, p)
    ensures PutByte(buf, at, g, n, p) == PutByte(buf, at, g, m, p)
    decreases n - m
  {
    if m != n {
      assert OffEntry(at, g.stride, g.leaves, m, p);
      OneMoreEntry(buf, at, g, m + 1, p);
      PutSame(buf, at, g, m + 1, n, p);
    }
  }

  /** Every byte of every accessor is that of the value set. */
  lemma {:induction false} ClearByte(buf: seq<byte>, at: nat, g: Group, n: nat, k: nat, i: nat, p: nat)
    requires g.ProperEntries() && k < n <= |g.entries| && EntriesFit(at, g.stride, g.leaves, n, |buf|)
    requires EntriesClear(at, g.stride, g.leaves, |g.entries|) && AllFree(g.leaves) && i < |g.leaves| && p < |buf|
    requires OnLeaf(at, g.stride, g.leaves, k, i, p) && LastSet(g.entries[k], i).Some?
    ensures HoldsValue(g, at, k, i, p, PutByte(buf, at, g, n, p))
  {
    ClearIsDisjoint(at, g.stride, g.leaves, |g.entries|, k);
    LastEntryByte(buf, at, g, k + 1, i, p);
    forall l: nat | k + 1 <= l < n
      ensures OffEntry(at, g.stride, g.leaves, l, p)
    {
      ClearOff(at, g.stride, g.leaves, |g.entries|, k, i, l, p);
    }
    PutSame(buf, at, g, k + 1, n, p);
  }

  /** The header is in front of all accessors. */
  lemma {:induction false} AnyHeader(buf: seq<byte>, at: nat, g: Group)
    requires g.ProperEntries() && at + GroupHeaderLength <= |buf| && g.Fits()
    requires EntriesFit(at, g.stride, g.leaves, |g.entries|, |buf|)
    ensures U16At(EncodeAny(buf, at, g), at) == g.stride && U16At(EncodeAny(buf, at, g), at + 2) == |g.entries|
  {
    var h, r := WithHeader(buf, at, g), EncodeAny(buf, at, g);
    forall p | at <= p < at + GroupHeaderLength
      ensures r[p] == h[p]
    {
      assert OffLeaves(at, g.stride, g.leaves, |g.entries|, p);
      PutOff(h, at, g, |g.entries|, p);
    }
    U16Found(r, at, g.stride);
    U16Found(r, at + 2, |g.entries|);
  }

  lemma {:induction false} ClearLeaf(buf: seq<byte>, at: nat, g: Group, k: nat, i: nat)
    requires g.ProperEntries() && g.Complete() && at + GroupHeaderLength <= |buf| && k < |g.entries|
    requires EntriesFit(at, g.stride, g.leaves, |g.entries|, |buf|) && AllFree(g.leaves) && i < |g.leaves|
    requires EntriesClear(at, g.stride, g.leaves, |g.entries|)
    ensures g.Entry(at, k) + g.leaves[i].End() <= |buf|
    ensures Get(EncodeAny(buf, at, g), g.Entry(at, k), g.leaves[i])
            == Normal(g.leaves[i].kind, LastSet(g.entries[k], i).value)
  {
    var r, e, v := EncodeAny(buf, at, g), g.Entry(at, k), LastSet(g.entries[k], i).value;
    assert EntryFits(at, g.stride, g.leaves, k, |buf|);
    assert Call(i, v) in g.entries[k];
    forall p | e + g.leaves[i].offset <= p < e + g.leaves[i].End()
      ensures r[p] == Encode(g.leaves[i].kind, v)[p - e - g.leaves[i].offset]
    {
      ClearByte(WithHeader(buf, at, g), at, g, |g.entries|, k, i, p);
    }
    GetEncoded(r, e, g.leaves[i], v);
  }

  lemma {:induction false} ClearEntry(buf: seq<byte>, at: nat, g: Group, k: nat)
    requires g.ProperEntries() && g.Complete() && at + GroupHeaderLength <= |buf| && k < |g.entries|
    requires EntriesFit(at, g.stride, g.leaves, |g.entries|, |buf|) && AllFree(g.leaves)
    requires EntriesClear(at, g.stride, g.leaves, |g.entries|)
    ensures Room(g.leaves, g.Entry(at, k), |buf|)
    ensures ReadEntry(EncodeAny(buf, at, g), g.Entry(at, k), g.leaves) == EntryValues(g.leaves, g.entries[k])
  {
    var r, e := EncodeAny(buf, at, g), g.Entry(at, k);
    forall i | 0 <= i < |g.leaves|
      ensures e + g.leaves[i].End() <= |buf|
      ensures Get(r, e, g.leaves[i]) == Normal(g.leaves[i].kind, LastSet(g.entries[k], i).value)
    {
      ClearLeaf(buf, at, g, k, i);
    }
    var x, y := ReadEntry(r, e, g.leaves), EntryValues(g.leaves, g.entries[k]);
    assert forall i :: 0 <= i < |g.leaves| ==> x[i] == y[i];
  }

  lemma {:induction false} ClearReads(buf: seq<byte>, at: nat, g: Group)
    requires g.ProperEntries() && g.Complete() && g.Fits() && at + GroupHeaderLength <= |buf|
    requires EntriesFit(at, g.stride, g.leaves, |g.entries|, |buf|) && AllFree(g.leaves)
    requires EntriesClear(at, g.stride, g.leaves, |g.entries|)
    ensures ReadsBack(buf, at, g)
  {
    var r, base := EncodeAny(buf, at, g), at + GroupHeaderLength;
    AnyHeader(buf, at, g);
    forall k, i | 0 <= k < |g.entries| && 0 <= i < |g.leaves|
      ensures EntryAt(base, g.stride, k) + g.leaves[i].End() <= |r|
    {
      ClearEntry(buf, at, g, k);
    }
    assert Readable(r, at, g.leaves);
    forall k | 0 <= k < |g.entries|
      ensures DecodeGroup(r, at, g.leaves)[k] == EntryValues(g.leaves, g.entries[k])
    {
      ClearEntry(buf, at, g, k);
    }
  }

  // ----- Accessors that share a byte -----

  /** From call `q` on every call fills its accessor with ones. */
  predicate OnesFrom(leaves: seq<Leaf>, calls: seq<Call>, q: nat)
    requires AllFree(leaves) && Proper(leaves, calls)
  {
    forall m :: q <= m < |calls| ==> calls[m] in calls && calls[m].v == Filled(leaves[calls[m].i].kind, true)
  }

  /** What such a call writes is ones. */
  lemma OnesWrite(base: nat, leaves: seq<Leaf>, calls: seq<Call>, q: nat, k: nat, p: nat)
    requires AllFree(leaves) && Proper(leaves, calls) && OnesFrom(leaves, calls, q) && q <= k < |calls|
    requires Writes(base, leaves, calls)[k].Covers(p)
    ensures var w := Writes(base, leaves, calls)[k]; w.bytes[p - w.at] == Fill(true)
  {
    assert calls[k] in calls;
    var leaf := leaves[calls[k].i];
    FilledEncodes(leaf.kind, true, p - base - leaf.offset);
  }

  /** A byte that such a call covers ends up as ones. */
  lemma {:induction false} OnesByte(buf: seq<byte>, base: nat, leaves: seq<Leaf>, calls: seq<Call>, q: nat, m: nat,
                                    p: nat)
    requires AllFree(leaves) && Proper(leaves, calls) && Room(leaves, base, |buf|) && OnesFrom(leaves, calls, q)
    requires q <= m < |calls| && p < |buf| && Writes(base, leaves, calls)[m].Covers(p)
    ensures ApplyCalls(buf, base, leaves, calls)[p] == Fill(true)
  {
    var ws := Writes(base, leaves, calls);
    WritesInBounds(base, leaves, calls, |buf|);
    AppliedByte(buf, ws, |calls|, p);
    OnesWrite(base, leaves, calls, q, LastCover(ws, |calls|, p).value, p);
  }

  /** Calls that only fill with ones never take a one away. */
  lemma {:induction false} OnesStay(buf: seq<byte>, base: nat, leaves: seq<Leaf>, calls: seq<Call>, p: nat)
    requires AllFree(leaves) && Proper(leaves, calls) && Room(leaves, base, |buf|) && OnesFrom(leaves, calls, 0)
    requires p < |buf| && buf[p] == Fill(true)
    ensures ApplyCalls(buf, base, leaves, calls)[p] == Fill(true)
  {
    var ws := Writes(base, leaves, calls);
    WritesInBounds(base, leaves, calls, |buf|);
    AppliedByte(buf, ws, |calls|, p);
    if LastCover(ws, |calls|, p).Some? {
      OnesWrite(base, leaves, calls, 0, LastCover(ws, |calls|, p).value, p);
    }
  }

  /** Zeros into accessor `i` first, then ones into all the others. */
  function ZerosFirstOnes(leaves: seq<Leaf>, i: nat): (calls: seq<Call>)
    requires AllFree(leaves) && i < |leaves|
    ensures |calls| == |leaves| && calls[0] == Call(i, Filled(leaves[i].kind, false))
  {
    seq(|leaves|, m requires 0 <= m < |leaves| =>
      if m == 0 then Call(i, Filled(leaves[i].kind, false))
      else
        var j := if m - 1 < i then m - 1 else m;
        Call(j, Filled(leaves[j].kind, true)))
  }

  /** Where accessor `j` is called in it. */
  function CallAt(i: nat, j: nat): nat {
    if j == i then 0 else if j < i then j + 1 else j
  }

  lemma ZerosFirstSets(leaves: seq<Leaf>, i: nat)
    requires AllFree(leaves) && i < |leaves|
    ensures Proper(leaves, ZerosFirstOnes(leaves, i)) && SetsAll(leaves, ZerosFirstOnes(leaves, i))
    ensures OnesFrom(leaves, ZerosFirstOnes(leaves, i), 1)
    ensures LastSet(ZerosFirstOnes(leaves, i), i) == Some(Filled(leaves[i].kind, false))
  {
    var calls := ZerosFirstOnes(leaves, i);
    forall m | 0 <= m < |calls|
      ensures calls[m].i < |leaves| && Admits(leaves[calls[m].i].kind, calls[m].v)
    {
      FilledEncodes(leaves[calls[m].i].kind, m != 0, 0);
    }
    forall j | 0 <= j < |leaves|
      ensures LastSet(calls, j).Some?
    {
      assert calls[CallAt(i, j)].i == j;
    }
  }

  /** Entry `k` starts with zeros in accessor `i`; everything else is ones. */
  function Spoiler(g: Group, k: nat, i: nat): Group
    requires AllFree(g.leaves) && i < |g.leaves|
  {
    Group(g.stride, g.leaves,
          seq(|g.entries|, m => if m == k then ZerosFirstOnes(g.leaves, i) else FillCalls(g.leaves, true)))
  }

  lemma SpoilerLike(g: Group, k: nat, i: nat)
    requires AllFree(g.leaves) && i < |g.leaves| && k < |g.entries|
    ensures Like(g, Spoiler(g, k, i))
  {
    FillSets(g.leaves, true);
    ZerosFirstSets(g.leaves, i);
  }

  /** Entry `l` of a group spoilt at accessor `i` of entry `k`. */
  predicate SpoiltEntry(x: Group, k: nat, i: nat, l: nat)
    requires AllFree(x.leaves) && i < |x.leaves| && l < |x.entries|
  {
    x.entries[l] == if l == k then ZerosFirstOnes(x.leaves, i) else FillCalls(x.leaves, true)
  }

  ghost predicate AllSpoilt(x: Group, k: nat, i: nat)
    requires AllFree(x.leaves) && i < |x.leaves|
  {
    forall m: nat :: m < |x.entries| ==> SpoiltEntry(x, k, i, m)
  }

  /** A call for accessor `j` of entry `l` covers the bytes of that accessor. */
  lemma CallCovers(at: nat, x: Group, l: nat, j: nat, m: nat, p: nat)
    requires x.ProperEntries() && l < |x.entries| && m < |x.entries[l]| && x.entries[l][m].i == j < |x.leaves|
    requires OnLeaf(at, x.stride, x.leaves, l, j, p)
    ensures Proper(x.leaves, x.entries[l]) && Writes(x.Entry(at, l), x.leaves, x.entries[l])[m].Covers(p)
  {
    assert x.entries[l][m] in x.entries[l];
  }

  /** Entry `l` turns a byte that one of its calls from `q` on covers into ones. */
  lemma {:induction false} EntryOnes(buf: seq<byte>, at: nat, x: Group, l: nat, j: nat, q: nat, m: nat, p: nat)
    requires AllFree(x.leaves) && l < |x.entries| && p < |buf|
    requires x.ProperEntries() && EntriesFit(at, x.stride, x.leaves, l + 1, |buf|)
    requires Proper(x.leaves, x.entries[l]) && OnesFrom(x.leaves, x.entries[l], q) && q <= m < |x.entries[l]|
    requires x.entries[l][m].i == j < |x.leaves| && OnLeaf(at, x.stride, x.leaves, l, j, p)
    ensures PutByte(buf, at, x, l + 1, p) == Fill(true)
  {
    assert EntryFits(at, x.stride, x.leaves, l, |buf|);
    CallCovers(at, x, l, j, m, p);
    OnesByte(PutEntries(buf, at, x, l), x.Entry(at, l), x.leaves, x.entries[l], q, m, p);
  }

  /** The shared byte is ones once the later of the two accessors has been set. */
  lemma {:induction false} SpoiledAt(buf: seq<byte>, at: nat, x: Group, k: nat, i: nat, l: nat, j: nat, p: nat)
    requires AllFree(x.leaves) && i < |x.leaves| && j < |x.leaves| && l < |x.entries| && p < |buf|
    requires x.ProperEntries() && EntriesFit(at, x.stride, x.leaves, l + 1, |buf|) && AllSpoilt(x, k, i)
    requires (k != l || i != j) && OnLeaf(at, x.stride, x.leaves, l, j, p)
    ensures PutByte(buf, at, x, l + 1, p) == Fill(true)
  {
    assert SpoiltEntry(x, k, i, l);
    if l == k {
      ZerosFirstSets(x.leaves, i);
      assert x.entries[l][CallAt(i, j)].i == j;
      EntryOnes(buf, at, x, l, j, 1, CallAt(i, j), p);
    } else {
      FillSets(x.leaves, true);
      EntryOnes(buf, at, x, l, j, 0, j, p);
    }
  }

  /** Any later entry leaves it so. */
  lemma {:induction false} SpoiledStep(buf: seq<byte>, at: nat, x: Group, k: nat, i: nat, n: nat, p: nat)
    requires AllFree(x.leaves) && i < |x.leaves| && k < n < |x.entries| && p < |buf|
    requires x.ProperEntries() && EntriesFit(at, x.stride, x.leaves, n + 1, |buf|) && AllSpoilt(x, k, i)
    requires PutByte(buf, at, x, n, p) == Fill(true)
    ensures PutByte(buf, at, x, n + 1, p) == Fill(true)
  {
    assert SpoiltEntry(x, k, i, n);
    FillSets(x.leaves, true);
    assert EntryFits(at, x.stride, x.leaves, n, |buf|);
    assert OnesFrom(x.leaves, x.entries[n], 0);
    OnesStay(PutEntries(buf, at, x, n), x.Entry(at, n), x.leaves, x.entries[n], p);
  }

  lemma {:induction false} SpoiledStays(buf: seq<byte>, at: nat, x: Group, k: nat, i: nat, l: nat, n: nat, p: nat)
    requires AllFree(x.leaves) && i < |x.leaves| && k < l <= n <= |x.entries| && p < |buf|
    requires x.ProperEntries() && EntriesFit(at, x.stride, x.leaves, n, |buf|)
    requires AllSpoilt(x, k, i)
    requires PutByte(buf, at, x, l, p) == Fill(true)
    ensures PutByte(buf, at, x, n, p) == Fill(true)
    decreases n - l
  {
    if l != n {
      SpoiledStep(buf, at, x, k, i, l, p);
      SpoiledStays(buf, at, x, k, i, l + 1, n, p);
    }
  }

  /** The entries of the group that is spoilt. */
  lemma SpoilerEntries(g: Group, k: nat, i: nat, m: nat)
    requires AllFree(g.leaves) && i < |g.leaves| && m < |g.entries|
    ensures SpoiltEntry(Spoiler(g, k, i), k, i, m)
  {
  }

  /** The shared byte is ones in the end. */
  lemma {:induction false} SpoiledByte(buf: seq<byte>, at: nat, x: Group, k: nat, i: nat, l: nat, j: nat, p: nat)
    requires AllFree(x.leaves) && k <= l < |x.entries| && i < |x.leaves| && j < |x.leaves| && p < |buf|
    requires x.ProperEntries() && EntriesFit(at, x.stride, x.leaves, |x.entries|, |buf|)
    requires (k != l || i != j) && OnLeaf(at, x.stride, x.leaves, l, j, p)
    requires AllSpoilt(x, k, i)
    ensures PutByte(buf, at, x, |x.entries|, p) == Fill(true)
  {
    SpoiledAt(buf, at, x, k, i, l, j, p);
    SpoiledStays(buf, at, x, k, i, l + 1, |x.entries|, p);
  }

  /** Values for which accessors that share a byte do not read back. */
  lemma {:induction false} SharingSpoils(buf: seq<byte>, at: nat, g: Group, x: Group, k: nat, i: nat, l: nat, j: nat,
                                         p: nat)
    requires AllFree(g.leaves) && g.Fits() && at + GroupHeaderLength <= |buf|
    requires EntriesFit(at, g.stride, g.leaves, |g.entries|, |buf|)
    requires k <= l < |g.entries| && i < |g.leaves| && j < |g.leaves| && Share(at, g.stride, g.leaves, k, i, l, j, p)
    requires x == Spoiler(g, k, i)
    ensures Like(g, x) && !ReadsBack(buf, at, x)
  {
    SpoilerLike(g, k, i);
    assert EntryFits(at, g.stride, g.leaves, k, |buf|);
    forall m: nat | m < |g.entries|
      ensures SpoiltEntry(x, k, i, m)
    {
      SpoilerEntries(g, k, i, m);
    }
    SpoiledByte(WithHeader(buf, at, x), at, x, k, i, l, j, p);
    AnyHeader(buf, at, x);
    ZerosFirstSets(g.leaves, i);
    if ReadsBack(buf, at, x) {
      ReadIsFilled(EncodeAny(buf, at, x), at, x, false, k, i, p);
    }
  }

  /** A group of any layout reads back for all values if and only if no accessor of an entry shares a
      byte with another accessor of the same or another entry. */
  lemma GroupExact(buf: seq<byte>, at: nat, g: Group)
    requires AllFree(g.leaves) && g.Fits() && at + GroupHeaderLength <= |buf|
    requires EntriesFit(at, g.stride, g.leaves, |g.entries|, |buf|)
    ensures (forall x :: Like(g, x) ==> ReadsBack(buf, at, x))
            <==> EntriesClear(at, g.stride, g.leaves, |g.entries|)
  {
    var n := |g.entries|;
    if k: nat, i: nat, l: nat, j: nat, p: nat :| k < n && l < n && i < |g.leaves| && j < |g.leaves|
                                                 && Share(at, g.stride, g.leaves, k, i, l, j, p) {
      if k <= l {
        SharingSpoils(buf, at, g, Spoiler(g, k, i), k, i, l, j, p);
      } else {
        assert Share(at, g.stride, g.leaves, l, j, k, i, p);
        SharingSpoils(buf, at, g, Spoiler(g, l, j), l, j, k, i, p);
      }
    } else {
      forall x | Like(g, x)
        ensures ReadsBack(buf, at, x)
      {
        ClearReads(buf, at, x);
      }
    }
  }

  /** Well-laid entries meet the condition. */
  lemma LaidIsClear(at: nat, stride: nat, leaves: seq<Leaf>, n: nat)
    requires WellLaid(leaves, stride)
    ensures EntriesClear(at, stride, leaves, n)
  {
    WellLaidDisjoint(leaves, stride);
    forall k: nat, i: nat, l: nat, j: nat, p: nat | k < n && l < n && i < |leaves| && j < |leaves|
      ensures !Share(at, stride, leaves, k, i, l, j, p)
    {
      if k < l {
        EntriesApart(at + GroupHeaderLength, stride, k, l);
      } else if l < k {
        EntriesApart(at + GroupHeaderLength, stride, l, k);
      } else if i != j {
        assert Clear(leaves[i], leaves[j]);
      }
    }
  }

  /** A declared block length below the width of a field, which the validator accepts, fails it as soon
      as there are two entries. */
  lemma ShortBlockShares(at: nat, stride: nat, leaves: seq<Leaf>, n: nat, i: nat)
    requires i < |leaves| && stride < Width(leaves[i].kind) && n >= 2
    ensures !EntriesClear(at, stride, leaves, n)
  {
    var p := EntryAt(at + GroupHeaderLength, stride, 1) + leaves[i].offset;
    assert Share(at, stride, leaves, 0, i, 1, i, p);
  }
}

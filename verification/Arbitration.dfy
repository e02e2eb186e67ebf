/**
A/B feed arbitration (ironsbe-transport/src/udp/multicast.rs, ironsbe-marketdata/src/arbitration.rs):
the first arrival of a sequence number wins, and holes in the numbering are reported.
*/
module Arbitration {
  import opened Bytes

  const MaxU64: nat := U64 - 1

  // ----- Gap detection -----

  /** The number expected once `n` arrived while `expected` was awaited. The increment wraps at 64 bits. */
  function NextExpected(expected: nat, n: nat): nat {
    if n >= expected then (n + 1) % U64 else expected
  }

  /** The gap reported when `n` arrives. */
  function GapBefore(expected: nat, n: nat): Option<(nat, nat)> {
    if n > expected then Some((expected, n - 1)) else None
  }

  /** A gap detector with its history: the arrivals that advanced it and the gaps it reported. */
  datatype Track = Track(expected: nat, advanced: seq<nat>, gaps: seq<(nat, nat)>)

  const Start := Track(1, [], [])

  function Observe(t: Track, n: nat): Track {
    Track(NextExpected(t.expected, n),
          if n >= t.expected then t.advanced + [n] else t.advanced,
          if n > t.expected then t.gaps + [(t.expected, n - 1)] else t.gaps)
  }

  /** A fresh detector after the first `k` of the arrivals `ns`. */
  function ObserveAll(ns: seq<nat>, k: nat): Track
    requires k <= |ns|
  {
    if k == 0 then Start else Observe(ObserveAll(ns, k - 1), ns[k - 1])
  }

  predicate InGap(gaps: seq<(nat, nat)>, x: nat) {
    exists i :: 0 <= i < |gaps| && gaps[i].0 <= x <= gaps[i].1
  }

  /** The advancing arrivals ascend and lie below the expected number. */
  predicate Ascending(advanced: seq<nat>, expected: nat) {
    && (forall i :: 0 <= i < |advanced| ==> 1 <= advanced[i] < expected)
    && (forall i, j :: 0 <= i < j < |advanced| ==> advanced[i] < advanced[j])
  }

  /** So do the gaps, and they are disjoint. */
  predicate GapsAscending(gaps: seq<(nat, nat)>, expected: nat) {
    && (forall i :: 0 <= i < |gaps| ==> 1 <= gaps[i].0 <= gaps[i].1 < expected)
    && (forall i, j :: 0 <= i < j < |gaps| ==> gaps[i].1 < gaps[j].0)
  }

  /** Every number below the expected one is an arrival or in a gap, and not both. */
  ghost predicate Divided(t: Track) {
    forall x: nat :: 1 <= x < t.expected ==> (x in t.advanced <==> !InGap(t.gaps, x))
  }

  /** The numbers below the expected one are split between the arrivals that advanced it and the
      reported gaps: none is in both, none in neither, and both lists ascend. */
  ghost predicate Accounted(t: Track) {
    && t.expected >= 1
    && Ascending(t.advanced, t.expected)
    && GapsAscending(t.gaps, t.expected)
    && Divided(t)
  }

  lemma InGapSnoc(gaps: seq<(nat, nat)>, g: (nat, nat), x: nat)
    ensures InGap(gaps + [g], x) <==> InGap(gaps, x) || g.0 <= x <= g.1
  {
    var hs := gaps + [g];
    if InGap(gaps, x) {
      var i :| 0 <= i < |gaps| && gaps[i].0 <= x <= gaps[i].1;
      assert hs[i] == gaps[i];
    }
    assert hs[|gaps|] == g;
  }

  /** Every number up to an advancing arrival is then either an arrival or in a gap. */
  lemma SplitAfter(t: Track, n: nat, x: nat)
    requires Ascending(t.advanced, t.expected) && GapsAscending(t.gaps, t.expected) && Divided(t)
    requires t.expected <= n && 1 <= x <= n
    ensures x in Observe(t, n).advanced <==> !InGap(Observe(t, n).gaps, x)
  {
    if n > t.expected {
      InGapSnoc(t.gaps, (t.expected, n - 1), x);
    }
  }

  lemma AscendingSnoc(advanced: seq<nat>, expected: nat, n: nat)
    requires Ascending(advanced, expected) && 1 <= expected <= n
    ensures Ascending(advanced + [n], n + 1)
  {
  }

  lemma GapsSnoc(gaps: seq<(nat, nat)>, expected: nat, n: nat)
    requires GapsAscending(gaps, expected) && 1 <= expected <= n
    ensures GapsAscending(gaps, n + 1)
    ensures expected < n ==> GapsAscending(gaps + [(expected, n - 1)], n + 1)
  {
  }

  lemma DividedAfter(t: Track, n: nat)
    requires Ascending(t.advanced, t.expected) && GapsAscending(t.gaps, t.expected) && Divided(t)
    requires t.expected <= n < MaxU64
    ensures Divided(Observe(t, n))
  {
    forall x: nat | 1 <= x < Observe(t, n).expected
      ensures x in Observe(t, n).advanced <==> !InGap(Observe(t, n).gaps, x)
    {
      SplitAfter(t, n, x);
    }
  }

  lemma ObserveAccounted(t: Track, n: nat)
    requires Accounted(t) && n < MaxU64
    ensures Accounted(Observe(t, n))
  {
    if n >= t.expected {
      AscendingSnoc(t.advanced, t.expected, n);
      GapsSnoc(t.gaps, t.expected, n);
      DividedAfter(t, n);
    }
  }

  /** Whatever arrives, the expected number is a 64-bit one, and the largest number, once it has
      arrived, has advanced the detector. */
  lemma {:induction false} LargestAdvances(ns: seq<nat>, k: nat)
    requires k <= |ns|
    ensures ObserveAll(ns, k).expected <= MaxU64
    ensures forall i :: 0 <= i < k && ns[i] == MaxU64 ==> MaxU64 in ObserveAll(ns, k).advanced
  {
    if k > 0 {
      LargestAdvances(ns, k - 1);
    }
  }

  lemma {:induction false} RunAccounted(ns: seq<nat>, k: nat)
    requires k <= |ns| && forall i :: 0 <= i < k ==> ns[i] < MaxU64
    ensures Accounted(ObserveAll(ns, k))
  {
    if k > 0 {
      RunAccounted(ns, k - 1);
      ObserveAccounted(ObserveAll(ns, k - 1), ns[k - 1]);
    }
  }

  /** Over every run of arrivals, in any order and with any repetition, the numbers below the
      expected one are accounted for if and only if the largest 64-bit number is not among the
      arrivals: that one wraps the expected number round to 0. */
  lemma AccountingExact(ns: seq<nat>)
    requires forall i :: 0 <= i < |ns| ==> ns[i] <= MaxU64
    ensures Accounted(ObserveAll(ns, |ns|)) <==> MaxU64 !in ns
  {
    if MaxU64 in ns {
      LargestAdvances(ns, |ns|);
    } else {
      RunAccounted(ns, |ns|);
    }
  }

  // ----- Deduplication with a bounded memory -----

  /** The last `size` elements, or all when there are fewer. */
  function Recent(accepted: seq<nat>, size: nat): seq<nat> {
    if |accepted| <= size then accepted else accepted[|accepted| - size..]
  }

  /** The cache once `n` is put into it: the oldest entry makes room. */
  function Put(cache: seq<nat>, size: nat, n: nat): seq<nat>
    requires size >= 1
  {
    if |cache| < size then cache + [n] else cache[|cache| - size + 1..] + [n]
  }

  /** The cache always holds the most recently accepted numbers. */
  lemma PutIsRecent(accepted: seq<nat>, size: nat, n: nat)
    requires size >= 1
    ensures Put(Recent(accepted, size), size, n) == Recent(accepted + [n], size)
  {
    var l, r := Put(Recent(accepted, size), size, n), Recent(accepted + [n], size);
    assert |l| == |r| && forall i :: 0 <= i < |l| ==> l[i] == r[i];
  }

  /** `n` is among the last `size` accepted numbers. */
  predicate Remembered(accepted: seq<nat>, size: nat, n: nat) {
    exists i :: 0 <= i < |accepted| && |accepted| - i <= size && accepted[i] == n
  }

  /** The cache holds what is remembered. */
  lemma RecentIsRemembered(accepted: seq<nat>, size: nat, n: nat)
    ensures n in Recent(accepted, size) <==> Remembered(accepted, size, n)
  {
    var recent := Recent(accepted, size);
    var skipped := |accepted| - |recent|;
    assert forall i :: 0 <= i < |recent| ==> recent[i] == accepted[i + skipped];
    if Remembered(accepted, size, n) {
      var i :| 0 <= i < |accepted| && |accepted| - i <= size && accepted[i] == n;
      assert recent[i - skipped] == n;
    }
  }

  /** The accepted numbers once `n` arrives: it is accepted unless it is still remembered. */
  function Admit(accepted: seq<nat>, size: nat, n: nat): seq<nat> {
    if Remembered(accepted, size, n) then accepted else accepted + [n]
  }

  /** A feed: the numbers accepted so far and the gap detector behind the deduplication, which
      duplicates do not reach. */
  datatype Feed = Feed(accepted: seq<nat>, track: Track)

  function Arrive(f: Feed, size: nat, n: nat): Feed {
    Feed(Admit(f.accepted, size, n), if Remembered(f.accepted, size, n) then f.track else Observe(f.track, n))
  }

  /** The states of a feed, from a fresh one, as packets numbered `ns` arrive. */
  predicate IsRun(run: seq<Feed>, ns: seq<nat>, size: nat) {
    && |run| == |ns| + 1
    && run[0] == Feed([], Start)
    && forall i :: 0 <= i < |ns| ==> Moves(run, ns, size, i)
  }

  predicate Moves(run: seq<Feed>, ns: seq<nat>, size: nat, i: nat)
    requires i < |ns| && |run| == |ns| + 1
  {
    run[i + 1] == Arrive(run[i], size, ns[i])
  }

  /** Equal numbers are never within a cacheful of each other. */
  predicate FarApart(accepted: seq<nat>, size: nat) {
    forall i, j :: 0 <= i < j < |accepted| && accepted[i] == accepted[j] ==> j - i > size
  }

  lemma AdmitKeepsApart(accepted: seq<nat>, size: nat, n: nat)
    requires FarApart(accepted, size)
    ensures FarApart(Admit(accepted, size, n), size)
  {
  }

  /** Numbers are accepted far apart, and unless gap detection wrapped, it accounts for them. */
  ghost predicate Orderly(f: Feed, size: nat, wrapped: bool) {
    FarApart(f.accepted, size) && (wrapped || Accounted(f.track))
  }

  lemma ArriveOrderly(f: Feed, size: nat, n: nat, g: Feed, wrapped: bool)
    requires Orderly(f, size, wrapped) && g == Arrive(f, size, n)
    ensures Orderly(g, size, wrapped || n >= MaxU64)
  {
    AdmitKeepsApart(f.accepted, size, n);
    if !wrapped && n < MaxU64 {
      ObserveAccounted(f.track, n);
    }
  }

  predicate HasWrapped(ns: seq<nat>, k: nat)
    requires k <= |ns|
  {
    exists i :: 0 <= i < k && ns[i] >= MaxU64
  }

  lemma MoveOrderly(run: seq<Feed>, ns: seq<nat>, size: nat, i: nat)
    requires IsRun(run, ns, size) && i < |ns| && Orderly(run[i], size, HasWrapped(ns, i))
    ensures Orderly(run[i + 1], size, HasWrapped(ns, i + 1))
  {
    assert Moves(run, ns, size, i);
    ArriveOrderly(run[i], size, ns[i], run[i + 1], HasWrapped(ns, i));
  }

  /** Over every run of packets on both feeds: two acceptances of one number have at least a cacheful
      of other acceptances between them, and, unless the largest 64-bit number arrived, every number
      below the expected one either advanced the detector or is in exactly one reported gap. */
  lemma {:induction false} FeedOrderly(run: seq<Feed>, ns: seq<nat>, size: nat, k: nat)
    requires IsRun(run, ns, size) && k <= |ns|
    ensures Orderly(run[k], size, HasWrapped(ns, k))
  {
    if k > 0 {
      FeedOrderly(run, ns, size, k - 1);
      MoveOrderly(run, ns, size, k - 1);
    }
  }

  predicate NoRepeat(xs: seq<nat>) {
    forall i, j :: 0 <= i < j < |xs| ==> xs[i] != xs[j]
  }

  /** The distinct numbers among the first `k` arrivals, in the order of their first arrival. */
  function Firsts(ns: seq<nat>, k: nat): seq<nat>
    requires k <= |ns|
  {
    if k == 0 then [] else Append(Firsts(ns, k - 1), ns[k - 1])
  }

  function Append(firsts: seq<nat>, n: nat): seq<nat> {
    if n in firsts then firsts else firsts + [n]
  }

  /** Arrival `j` is no repetition, or fewer than a cacheful of new numbers arrived since its first. */
  predicate InTime(ns: seq<nat>, size: nat, j: nat)
    requires j < |ns|
  {
    ns[j] in Firsts(ns, j) ==> Remembered(Firsts(ns, j), size, ns[j])
  }

  lemma AppendNoRepeat(firsts: seq<nat>, n: nat)
    requires NoRepeat(firsts)
    ensures NoRepeat(Append(firsts, n))
  {
  }

  lemma {:induction false} FirstsNoRepeat(ns: seq<nat>, k: nat)
    requires k <= |ns|
    ensures NoRepeat(Firsts(ns, k))
  {
    if k > 0 {
      FirstsNoRepeat(ns, k - 1);
      AppendNoRepeat(Firsts(ns, k - 1), ns[k - 1]);
    }
  }

  /** One arrival: acceptance follows the first occurrences exactly if a repetition is remembered. */
  lemma AdmitIsAppend(xs: seq<nat>, size: nat, n: nat)
    ensures Admit(xs, size, n) == Append(xs, n) <==> (n in xs ==> Remembered(xs, size, n))
  {
    if n in xs && !Remembered(xs, size, n) {
      assert |Admit(xs, size, n)| == |xs| + 1;
    }
  }

  lemma ArriveRepeats(f: Feed, size: nat, n: nat, g: Feed)
    requires g == Arrive(f, size, n)
    ensures NoRepeat(g.accepted) ==> NoRepeat(f.accepted)
    ensures NoRepeat(g.accepted) && n in f.accepted ==> Remembered(f.accepted, size, n)
  {
    var xs, ys := f.accepted, g.accepted;
    assert forall i :: 0 <= i < |xs| ==> ys[i] == xs[i];
    if n in xs && !Remembered(xs, size, n) {
      var i :| 0 <= i < |xs| && xs[i] == n;
      assert ys[i] == ys[|xs|];
    }
  }

  lemma ArriveInTime(f: Feed, size: nat, n: nat, g: Feed)
    requires g == Arrive(f, size, n) && (n in f.accepted ==> Remembered(f.accepted, size, n))
    ensures g.accepted == Append(f.accepted, n)
  {
    AdmitIsAppend(f.accepted, size, n);
  }

  lemma MoveInTime(run: seq<Feed>, ns: seq<nat>, size: nat, i: nat)
    requires IsRun(run, ns, size) && i < |ns|
    requires ns[i] in run[i].accepted ==> Remembered(run[i].accepted, size, ns[i])
    ensures run[i + 1].accepted == Append(run[i].accepted, ns[i])
  {
    assert Moves(run, ns, size, i);
    ArriveInTime(run[i], size, ns[i], run[i + 1]);
  }

  lemma MoveRepeats(run: seq<Feed>, ns: seq<nat>, size: nat, i: nat)
    requires IsRun(run, ns, size) && i < |ns|
    ensures NoRepeat(run[i + 1].accepted) ==> NoRepeat(run[i].accepted)
    ensures NoRepeat(run[i + 1].accepted) && ns[i] in run[i].accepted ==> Remembered(run[i].accepted, size, ns[i])
  {
    assert Moves(run, ns, size, i);
    ArriveRepeats(run[i], size, ns[i], run[i + 1]);
  }

  /** While repetitions come in time, exactly the first occurrences are accepted. */
  lemma {:induction false} InTimeAccepted(run: seq<Feed>, ns: seq<nat>, size: nat, k: nat)
    requires IsRun(run, ns, size) && k <= |ns| && forall j :: 0 <= j < k ==> InTime(ns, size, j)
    ensures run[k].accepted == Firsts(ns, k)
  {
    if k > 0 {
      InTimeAccepted(run, ns, size, k - 1);
      assert InTime(ns, size, k - 1);
      MoveInTime(run, ns, size, k - 1);
    }
  }

  /** The first repetition that comes too late is accepted a second time. */
  lemma LateRepeats(run: seq<Feed>, ns: seq<nat>, size: nat, j: nat)
    requires IsRun(run, ns, size)
    requires j < |ns| && !InTime(ns, size, j) && forall i :: 0 <= i < j ==> InTime(ns, size, i)
    ensures !NoRepeat(run[j + 1].accepted)
  {
    InTimeAccepted(run, ns, size, j);
    MoveRepeats(run, ns, size, j);
  }

  /** What was accepted twice stays so. */
  lemma {:induction false} RepeatStays(run: seq<Feed>, ns: seq<nat>, size: nat, i: nat, k: nat)
    requires IsRun(run, ns, size) && i <= k <= |ns| && !NoRepeat(run[i].accepted)
    ensures !NoRepeat(run[k].accepted)
  {
    if i < k {
      RepeatStays(run, ns, size, i, k - 1);
      MoveRepeats(run, ns, size, k - 1);
    }
  }

  lemma {:induction false} FirstLate(ns: seq<nat>, size: nat, k: nat) returns (j: nat)
    requires k < |ns| && !InTime(ns, size, k)
    ensures j <= k && !InTime(ns, size, j) && forall i :: 0 <= i < j ==> InTime(ns, size, i)
  {
    if i: nat :| i < k && !InTime(ns, size, i) {
      j := FirstLate(ns, size, i);
    } else {
      j := k;
    }
  }

  /** Each number is accepted once, over the whole run, if and only if every repetition arrives
      before a cacheful of new numbers came after its first arrival. */
  lemma AcceptedOnce(run: seq<Feed>, ns: seq<nat>, size: nat, k: nat)
    requires IsRun(run, ns, size) && k <= |ns|
    ensures NoRepeat(run[k].accepted) <==> forall j :: 0 <= j < k ==> InTime(ns, size, j)
  {
    if l: nat :| l < k && !InTime(ns, size, l) {
      var j := FirstLate(ns, size, l);
      LateRepeats(run, ns, size, j);
      RepeatStays(run, ns, size, j + 1, k);
    } else {
      InTimeAccepted(run, ns, size, k);
      FirstsNoRepeat(ns, k);
    }
  }

  lemma FirstIsForgotten(ns: seq<nat>, size: nat)
    requires |ns| == size + 2 && NoRepeat(ns[..size + 1]) && ns[size + 1] == ns[0]
    ensures Admit(ns[..size + 1], size, ns[0]) == ns
  {
    var before := ns[..size + 1];
    assert before[0] == ns[0];
    assert forall i :: 0 < i < |before| ==> before[i] != before[0];
    assert before + [ns[0]] == ns;
  }

  /** A run that fails it, whatever the cache size: a number is accepted again as soon as `size`
      others have been accepted after it. */
  lemma ForgottenIsAcceptedAgain(run: seq<Feed>, ns: seq<nat>, size: nat, k: nat)
    requires IsRun(run, ns, size)
    requires k == size + 1 && |ns| == k + 1 && NoRepeat(ns[..k]) && ns[k] == ns[0]
    ensures run[k + 1].accepted == ns
  {
    AcceptsDistinct(run, ns, size, k);
    FirstIsForgotten(ns, size);
    assert Moves(run, ns, size, k);
  }

  lemma NewIsAdmitted(ns: seq<nat>, size: nat, k: nat)
    requires k < |ns| && NoRepeat(ns[..k + 1])
    ensures NoRepeat(ns[..k])
    ensures Admit(ns[..k], size, ns[k]) == ns[..k + 1]
  {
    var before, after := ns[..k], ns[..k + 1];
    assert after == before + [ns[k]];
    assert forall i :: 0 <= i < k ==> before[i] == after[i];
    assert after[k] == ns[k];
  }

  lemma {:induction false} AcceptsDistinct(run: seq<Feed>, ns: seq<nat>, size: nat, k: nat)
    requires IsRun(run, ns, size) && k <= |ns| && NoRepeat(ns[..k])
    ensures run[k].accepted == ns[..k]
  {
    if k > 0 {
      NewIsAdmitted(ns, size, k - 1);
      AcceptsDistinct(run, ns, size, k - 1);
      assert Moves(run, ns, size, k - 1);
    }
  }

  /** `h` is the largest of the numbers, or 0 when there is none above it. */
  predicate IsHighest(ns: seq<nat>, h: nat) {
    && (forall i :: 0 <= i < |ns| ==> ns[i] <= h)
    && (h == 0 || exists i :: 0 <= i < |ns| && ns[i] == h)
  }

  lemma HighestSnoc(ns: seq<nat>, h: nat, n: nat)
    requires IsHighest(ns, h)
    ensures IsHighest(ns + [n], if n > h then n else h)
  {
    var ms := ns + [n];
    assert ms[|ns|] == n;
    if n <= h && h != 0 {
      var i :| 0 <= i < |ns| && ns[i] == h;
      assert ms[i] == h;
    }
  }

  /** `FeedArbitrator`. The ghost fields keep what it accepted and what its gap detector saw. */
  class FeedArbitrator {
    var highestSeq: nat
    var processed: seq<nat>
    var expectedSeq: nat
    const cacheSize: nat
    ghost var accepted: seq<nat>
    ghost var track: Track

    ghost predicate Valid()
      reads this
    {
      && cacheSize >= 1
      && processed == Recent(accepted, cacheSize)
      && IsHighest(accepted, highestSeq)
      && expectedSeq == track.expected
    }

    constructor (size: nat)
      requires size >= 1
      ensures Valid() && cacheSize == size && accepted == [] && track == Start
    {
      cacheSize, highestSeq, expectedSeq, processed := size, 0, 1, [];
      accepted, track := [], Start;
    }

    /** Accepts a number exactly if it is not among the last `cacheSize` accepted. */
    method ShouldProcess(n: nat) returns (ok: bool)
      requires Valid()
      modifies this`processed, this`highestSeq, this`accepted
      ensures Valid() && accepted == Admit(old(accepted), cacheSize, n)
      ensures ok <==> !Remembered(old(accepted), cacheSize, n)
    {
      RecentIsRemembered(accepted, cacheSize, n);
      if n in processed {
        return false;
      }
      PutIsRecent(accepted, cacheSize, n);
      HighestSnoc(accepted, highestSeq, n);
      processed := Put(processed, cacheSize, n);
      accepted := accepted + [n];
      if n > highestSeq {
        highestSeq := n;
      }
      return true;
    }

    method CheckGap(n: nat) returns (gap: Option<(nat, nat)>)
      requires Valid()
      modifies this`expectedSeq, this`track
      ensures Valid() && track == Observe(old(track), n)
      ensures gap == GapBefore(old(expectedSeq), n)
    {
      track := Observe(track, n);
      if n > expectedSeq {
        gap := Some((expectedSeq, n - 1));
        expectedSeq := (n + 1) % U64;
      } else {
        if n == expectedSeq {
          expectedSeq := (n + 1) % U64;
        }
        gap := None;
      }
    }

    method Reset()
      requires Valid()
      modifies this
      ensures Valid() && accepted == [] && track == Start
    {
      highestSeq, expectedSeq, processed := 0, 1, [];
      accepted, track := [], Start;
    }

    /** `process_packet`: the number is in the first eight bytes. A packet too short to hold one
        changes nothing, and a duplicate never reaches gap detection. */
    method ProcessPacket(data: seq<byte>) returns (packet: Option<(nat, seq<byte>)>)
      requires Valid()
      modifies this
      ensures Valid()
      ensures |data| < 8 ==> packet == None && accepted == old(accepted) && track == old(track)
      ensures |data| >= 8 ==>
                var n := FromLE(data[..8]);
                && Feed(accepted, track) == Arrive(old(Feed(accepted, track)), cacheSize, n)
                && packet == if Remembered(old(accepted), cacheSize, n) then None else Some((n, data[8..]))
    {
      if |data| < 8 {
        return None;
      }
      var n := FromLE(data[..8]);
      var ok := ShouldProcess(n);
      if !ok {
        return None;
      }
      var gap := CheckGap(n);
      return Some((n, data[8..]));
    }
  }

  // ----- Per-instrument arbitration -----

  datatype Call =
    | ShouldProcess(id: nat, n: nat)
    | CheckGap(id: nat, n: nat)
    | Reset(id: nat)
    | ResetAll

  datatype Answer = Verdict(ok: bool) | Gap(gap: Option<(nat, nat)>) | Done

  predicate Concerns(c: Call, id: nat) {
    c.ResetAll? || c.id == id
  }

  /** An arbitrator for a single instrument. */
  datatype Slot = Slot(last: nat, expected: nat)

  const FreshSlot := Slot(0, 1)

  function SlotStep(s: Slot, c: Call): Slot {
    match c
    case ShouldProcess(_, n) => if n <= s.last then s else s.(last := n)
    case CheckGap(_, n) => s.(expected := NextExpected(s.expected, n))
    case Reset(_) => FreshSlot
    case ResetAll => FreshSlot
  }

  function SlotAnswer(s: Slot, c: Call): Answer {
    match c
    case ShouldProcess(_, n) => Verdict(n > s.last)
    case CheckGap(_, n) => Gap(GapBefore(s.expected, n))
    case Reset(_) => Done
    case ResetAll => Done
  }

  /** The two maps of `InstrumentArbitrator`. */
  datatype Maps = Maps(last: map<nat, nat>, expected: map<nat, nat>)
  {
    function At(id: nat): Slot {
      Slot(if id in last then last[id] else 0, if id in expected then expected[id] else 1)
    }
  }

  /** The maps after a call, entry by entry as the code leaves them. */
  function Step(m: Maps, c: Call): Maps {
    match c
    case ShouldProcess(id, n) => if n <= m.At(id).last then m else m.(last := m.last[id := n])
    case CheckGap(id, n) =>
      if n < m.At(id).expected then m else m.(expected := m.expected[id := (n + 1) % U64])
    case Reset(id) => Maps(m.last - {id}, m.expected - {id})
    case ResetAll => Maps(map[], map[])
  }

  function Run(m: Maps, cs: seq<Call>, k: nat): Maps
    requires k <= |cs|
  {
    if k == 0 then m else Step(Run(m, cs, k - 1), cs[k - 1])
  }

  /** One instrument's own arbitrator, given only the calls that concern it. */
  function RunSlot(s: Slot, id: nat, cs: seq<Call>, k: nat): Slot
    requires k <= |cs|
  {
    if k == 0 then s
    else if Concerns(cs[k - 1], id) then SlotStep(RunSlot(s, id, cs, k - 1), cs[k - 1])
    else RunSlot(s, id, cs, k - 1)
  }

  /** A call changes the slots it concerns, as a private arbitrator would, and no other. */
  lemma StepAt(m: Maps, c: Call, id: nat, t: Maps)
    requires t == Step(m, c)
    ensures t.At(id) == if Concerns(c, id) then SlotStep(m.At(id), c) else m.At(id)
  {
    match c
    case ShouldProcess(_, _) =>
    case CheckGap(_, _) =>
    case Reset(_) =>
    case ResetAll =>
  }

  /** Every instrument behaves as an arbitrator of its own would, however its calls are interleaved
      with those of the others. */
  lemma {:induction false} Independent(m: Maps, cs: seq<Call>, k: nat, id: nat)
    requires k <= |cs|
    ensures Run(m, cs, k).At(id) == RunSlot(m.At(id), id, cs, k)
  {
    if k > 0 {
      Independent(m, cs, k - 1, id);
      StepAt(Run(m, cs, k - 1), cs[k - 1], id, Run(m, cs, k));
    }
  }

  /** Between resets an accepted number exceeds everything accepted for the instrument before. */
  lemma {:induction false} AcceptedIncrease(s: Slot, id: nat, cs: seq<Call>, n: nat, i: nat, k: nat)
    requires i < k <= |cs| && cs[i] == ShouldProcess(id, n)
    requires forall j :: i < j < k ==> cs[j] != Reset(id) && cs[j] != ResetAll
    ensures n <= RunSlot(s, id, cs, k).last
  {
    if i < k - 1 {
      AcceptedIncrease(s, id, cs, n, i, k - 1);
    }
  }

  /** So no number is accepted twice for one instrument unless a reset came between. */
  lemma RepeatRejected(m: Maps, id: nat, cs: seq<Call>, n: nat, i: nat, k: nat)
    requires i < k < |cs| && cs[i] == cs[k] == ShouldProcess(id, n)
    requires forall j :: i < j < k ==> cs[j] != Reset(id) && cs[j] != ResetAll
    ensures SlotAnswer(Run(m, cs, k).At(id), cs[k]) == Verdict(false)
  {
    Independent(m, cs, k, id);
    AcceptedIncrease(m.At(id), id, cs, n, i, k);
  }

  /** `InstrumentArbitrator`. */
  class InstrumentArbitrator {
    var lastSeq: map<nat, nat>
    var expectedSeq: map<nat, nat>

    ghost function Value(): Maps
      reads this
    {
      Maps(lastSeq, expectedSeq)
    }

    constructor ()
      ensures forall id :: Value().At(id) == FreshSlot
    {
      lastSeq, expectedSeq := map[], map[];
    }

    method Accept(id: nat, n: nat) returns (ok: bool)
      modifies this
      ensures Value() == Step(old(Value()), Call.ShouldProcess(id, n))
      ensures Verdict(ok) == SlotAnswer(old(Value()).At(id), Call.ShouldProcess(id, n))
    {
      var last := if id in lastSeq then lastSeq[id] else 0;
      if n <= last {
        return false;
      }
      lastSeq := lastSeq[id := n];
      return true;
    }

    method FindGap(id: nat, n: nat) returns (gap: Option<(nat, nat)>)
      modifies this
      ensures Value() == Step(old(Value()), Call.CheckGap(id, n))
      ensures Gap(gap) == SlotAnswer(old(Value()).At(id), Call.CheckGap(id, n))
    {
      var expected := if id in expectedSeq then expectedSeq[id] else 1;
      if n > expected {
        expectedSeq := expectedSeq[id := (n + 1) % U64];
        return Some((expected, n - 1));
      }
      if n == expected {
        expectedSeq := expectedSeq[id := (n + 1) % U64];
      }
      return None;
    }

    method Forget(id: nat)
      modifies this
      ensures Value() == Step(old(Value()), Call.Reset(id))
    {
      lastSeq, expectedSeq := lastSeq - {id}, expectedSeq - {id};
    }

    method ForgetAll()
      modifies this
      ensures Value() == Step(old(Value()), Call.ResetAll)
    {
      lastSeq, expectedSeq := map[], map[];
    }
  }
}

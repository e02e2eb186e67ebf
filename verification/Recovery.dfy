/**
Snapshot recovery against a true feed: when does replaying a queue of buffered updates on top of a
snapshot give the book that the feed itself would have given?
*/
module Recovery {
  import opened Bytes
  import opened Book

  /** What the feed publishes under one sequence number. */
  datatype Entry = Entry(side: Side, price: int, quantity: nat, orderCount: nat)

  /** The whole feed of one instrument: one entry for each sequence number from 1 on. */
  type Feed = nat -> Entry

  function Published(feed: Feed, id: nat, s: nat): BookUpdate {
    BookUpdate(id, s, feed(s).side, feed(s).price, feed(s).quantity, feed(s).orderCount)
  }

  /** The book of someone who applied updates 1..n of the feed and nothing else. */
  function Truth(feed: Feed, n: nat): (b: Contents)
    ensures b.lastSeq == n
  {
    if n == 0 then Empty else ApplyUpdate(Truth(feed, n - 1), Published(feed, 0, n))
  }

  function PublishedAll(feed: Feed, id: nat, q: seq<nat>): (us: seq<BookUpdate>)
    ensures |us| == |q|
  {
    seq(|q|, i requires 0 <= i < |q| => Published(feed, id, q[i]))
  }

  /** The sequence number a queue ends at when it is replayed on a snapshot taken at `n`. */
  function End(n: nat, q: seq<nat>): nat {
    if q == [] then n else q[|q| - 1]
  }

  /** Replaying the updates numbered `q` on a snapshot taken at `n` gives the true book. */
  predicate Recovers(feed: Feed, n: nat, q: seq<nat>) {
    ApplyAll(Truth(feed, n), PublishedAll(feed, 0, q)) == Truth(feed, End(n, q))
  }

  // ----- Which update is visible at a price -----

  predicate At(feed: Feed, s: nat, side: Side, price: int) {
    feed(s).side == side && feed(s).price == price
  }

  function EffectOf(feed: Feed, s: nat): Option<PriceLevel> {
    Effect(Published(feed, 0, s))
  }

  /** The position of the last queue element that touches a price. */
  function LastAt(feed: Feed, q: seq<nat>, side: Side, price: int): (r: Option<nat>)
    ensures r.Some? ==> r.value < |q| && At(feed, q[r.value], side, price)
    ensures r.Some? ==> forall j :: r.value < j < |q| ==> !At(feed, q[j], side, price)
    ensures r.None? ==> forall j :: 0 <= j < |q| ==> !At(feed, q[j], side, price)
  {
    if q == [] then None
    else if At(feed, q[|q| - 1], side, price) then Some(|q| - 1)
    else LastAt(feed, q[..|q| - 1], side, price)
  }

  lemma {:induction false} ReplayLookup(b: Contents, feed: Feed, id: nat, q: seq<nat>, side: Side, price: int)
    ensures Lookup(ApplyAll(b, PublishedAll(feed, id, q)), side, price)
            == match LastAt(feed, q, side, price)
               case None => Lookup(b, side, price)
               case Some(i) => EffectOf(feed, q[i])
  {
    if q != [] {
      var front := q[..|q| - 1];
      var us := PublishedAll(feed, id, q);
      ReplayLookup(b, feed, id, front, side, price);
      assert us[..|us| - 1] == PublishedAll(feed, id, front);
      LookupAfter(ApplyAll(b, us[..|us| - 1]), us[|us| - 1], side, price);
    }
  }

  lemma ReplayEnd(b: Contents, feed: Feed, id: nat, q: seq<nat>)
    ensures ApplyAll(b, PublishedAll(feed, id, q)).lastSeq == End(b.lastSeq, q)
  {
  }

  /** The newest update up to `n` that touches a price. */
  function NewestAt(feed: Feed, n: nat, side: Side, price: int): (r: Option<nat>)
    ensures r.Some? ==> 1 <= r.value <= n && At(feed, r.value, side, price)
    ensures r.Some? ==> forall s :: r.value < s <= n ==> !At(feed, s, side, price)
    ensures r.None? ==> forall s :: 1 <= s <= n ==> !At(feed, s, side, price)
  {
    if n == 0 then None
    else if At(feed, n, side, price) then Some(n)
    else NewestAt(feed, n - 1, side, price)
  }

  lemma {:induction false} TruthLookup(feed: Feed, n: nat, side: Side, price: int)
    ensures Lookup(Truth(feed, n), side, price)
            == match NewestAt(feed, n, side, price)
               case None => None
               case Some(s) => EffectOf(feed, s)
  {
    if n != 0 {
      TruthLookup(feed, n - 1, side, price);
      LookupAfter(Truth(feed, n - 1), Published(feed, 0, n), side, price);
    }
  }

  // ----- The exact condition -----

  /** `x` is queued again somewhere behind position `j`. */
  predicate QueuedAfter(q: seq<nat>, j: nat, x: nat) {
    exists k :: j < k < |q| && q[k] == x
  }

  /** The queue is no older than the snapshot, reaches its own end without a hole, and whenever an
      update is followed by an older one it is itself queued again later. */
  predicate Settles(n: nat, q: seq<nat>) {
    && (forall i :: 0 <= i < |q| ==> n <= q[i])
    && (forall s :: n < s <= End(n, q) ==> s in q)
    && (forall i, j :: 0 <= i < j < |q| && q[j] < q[i] ==> QueuedAfter(q, j, q[i]))
  }

  lemma SettlesBounded(n: nat, q: seq<nat>, i: nat)
    requires Settles(n, q) && i < |q|
    ensures q[i] <= End(n, q)
  {
  }

  /** A queue that settles leaves visible, at every price it touches, the newest update that
      touches the price. */
  lemma NewestIsVisible(feed: Feed, n: nat, q: seq<nat>, side: Side, price: int, i: nat)
    requires Settles(n, q) && LastAt(feed, q, side, price) == Some(i) && q[i] >= 1
    ensures NewestAt(feed, End(n, q), side, price) == Some(q[i])
  {
    SettlesBounded(n, q, i);
    var s := NewestAt(feed, End(n, q), side, price).value;
    if s > n {
      assert s in q;
      var k :| 0 <= k < |q| && q[k] == s;
      assert k <= i;
    }
  }

  /** A price that a settling queue does not touch has not changed since the snapshot. */
  lemma UntouchedSince(feed: Feed, n: nat, q: seq<nat>, side: Side, price: int)
    requires Settles(n, q) && LastAt(feed, q, side, price) == None
    ensures n <= End(n, q)
    ensures NewestAt(feed, End(n, q), side, price) == NewestAt(feed, n, side, price)
  {
    forall s | n < s <= End(n, q)
      ensures !At(feed, s, side, price)
    {
      assert s in q;
    }
  }

  lemma SettledLookup(feed: Feed, n: nat, q: seq<nat>, side: Side, price: int)
    requires Settles(n, q) && forall i :: 0 <= i < |q| ==> q[i] >= 1
    ensures Lookup(ApplyAll(Truth(feed, n), PublishedAll(feed, 0, q)), side, price)
            == Lookup(Truth(feed, End(n, q)), side, price)
  {
    ReplayLookup(Truth(feed, n), feed, 0, q, side, price);
    TruthLookup(feed, n, side, price);
    TruthLookup(feed, End(n, q), side, price);
    match LastAt(feed, q, side, price)
    case Some(i) => NewestIsVisible(feed, n, q, side, price, i);
    case None => UntouchedSince(feed, n, q, side, price);
  }

  /** A queue that settles recovers the true book, whatever the feed published. */
  lemma SettledRecovers(feed: Feed, n: nat, q: seq<nat>)
    requires Settles(n, q) && forall i :: 0 <= i < |q| ==> q[i] >= 1
    ensures Recovers(feed, n, q)
  {
    var a, b := ApplyAll(Truth(feed, n), PublishedAll(feed, 0, q)), Truth(feed, End(n, q));
    ReplayEnd(Truth(feed, n), feed, 0, q);
    forall side, price
      ensures Lookup(a, side, price) == Lookup(b, side, price)
    {
      SettledLookup(feed, n, q, side, price);
    }
    SameContents(a, b);
  }

  /** A feed in which every update sets a price of its own. */
  function Distinct(): Feed {
    (s: nat) => Entry(Bid, s, 1, 0)
  }

  /** A feed in which the updates `a` and `b` set the same price and the others prices of their
      own. */
  function Clash(a: nat, b: nat): Feed {
    (s: nat) => Entry(Bid, if s == a || s == b then 0 else s, s, 0)
  }

  /** On the feed of distinct prices a recovered book has exactly the levels up to its end. */
  lemma DistinctShows(n: nat, q: seq<nat>, s: nat)
    requires Recovers(Distinct(), n, q) && n < s
    ensures s in q <==> s <= End(n, q)
  {
    var f := Distinct();
    ReplayLookup(Truth(f, n), f, 0, q, Bid, s);
    TruthLookup(f, n, Bid, s);
    TruthLookup(f, End(n, q), Bid, s);
    assert At(f, s, Bid, s);
    if s in q {
      var i :| 0 <= i < |q| && q[i] == s;
      assert LastAt(f, q, Bid, s).Some?;
    }
  }

  /** On a feed where an update and an older one clash, the newer one must be replayed last. */
  lemma ClashShows(n: nat, q: seq<nat>, i: nat, j: nat)
    requires i < j < |q| && 1 <= q[j] < q[i] <= End(n, q)
    requires Recovers(Clash(q[j], q[i]), n, q)
    ensures QueuedAfter(q, j, q[i])
  {
    var f := Clash(q[j], q[i]);
    ReplayLookup(Truth(f, n), f, 0, q, Bid, 0);
    TruthLookup(f, End(n, q), Bid, 0);
    assert At(f, q[i], Bid, 0) && At(f, q[j], Bid, 0);
    var last, newest := LastAt(f, q, Bid, 0).value, NewestAt(f, End(n, q), Bid, 0).value;
    assert newest == q[i];
    assert EffectOf(f, q[last]) == EffectOf(f, newest);
    assert q[last] == q[i];
  }

  /** The replay in `on_snapshot` is right for every feed if and only if the queue settles. */
  lemma RecoveryExact(n: nat, q: seq<nat>)
    requires forall i :: 0 <= i < |q| ==> q[i] >= 1 && q[i] >= n
    ensures (forall feed: Feed :: Recovers(feed, n, q)) <==> Settles(n, q)
  {
    if Settles(n, q) {
      forall feed: Feed
        ensures Recovers(feed, n, q)
      {
        SettledRecovers(feed, n, q);
      }
    }
    if forall feed: Feed :: Recovers(feed, n, q) {
      forall s | n < s <= End(n, q)
        ensures s in q
      {
        DistinctShows(n, q, s);
      }
      forall i, j | 0 <= i < j < |q| && q[j] < q[i]
        ensures QueuedAfter(q, j, q[i])
      {
        DistinctShows(n, q, q[i]);
        ClashShows(n, q, i, j);
      }
    }
  }

  /** A queue with a hole, replayed on a snapshot, leaves a book the feed never had. */
  lemma HoleBreaksRecovery()
    ensures !Recovers(Distinct(), 1, [3])
  {
    if Recovers(Distinct(), 1, [3]) {
      DistinctShows(1, [3], 2);
    }
  }

  // ----- Replaying from the snapshot's own number on, or strictly after it -----

  /** The numbers in `q` that are greater than `n`. */
  function After(n: nat, q: seq<nat>): (r: seq<nat>)
    ensures forall i :: 0 <= i < |r| ==> r[i] > n && r[i] in q
    ensures forall i :: 0 <= i < |q| && q[i] > n ==> q[i] in r
  {
    if q == [] then []
    else
      var front := After(n, q[..|q| - 1]);
      if q[|q| - 1] > n then front + [q[|q| - 1]] else front
  }

  /** Whenever the snapshot's own update is queued behind a newer one, the newer one is queued again
      behind it. */
  predicate OwnUpdateAbsorbed(n: nat, q: seq<nat>) {
    forall i, j :: 0 <= i < j < |q| && q[j] == n < q[i] ==> QueuedAfter(q, j, q[i])
  }

  predicate FiltersAgree(feed: Feed, n: nat, q: seq<nat>) {
    ApplyAll(Truth(feed, n), PublishedAll(feed, 0, q)) == ApplyAll(Truth(feed, n), PublishedAll(feed, 0, After(n, q)))
  }

  lemma LastAtSnoc(feed: Feed, r: seq<nat>, x: nat, side: Side, price: int)
    ensures LastAt(feed, r + [x], side, price)
            == if At(feed, x, side, price) then Some(|r|) else LastAt(feed, r, side, price)
  {
    assert (r + [x])[..|r|] == r;
  }

  lemma {:induction false} LastAfter(feed: Feed, n: nat, q: seq<nat>, side: Side, price: int)
    requires LastAt(feed, q, side, price).Some? && q[LastAt(feed, q, side, price).value] > n
    ensures var r := LastAt(feed, After(n, q), side, price);
            r.Some? && After(n, q)[r.value] == q[LastAt(feed, q, side, price).value]
  {
    var front, x := q[..|q| - 1], q[|q| - 1];
    assert q == front + [x];
    LastAtSnoc(feed, front, x, side, price);
    LastAtSnoc(feed, After(n, front), x, side, price);
    if !At(feed, x, side, price) {
      LastAfter(feed, n, front, side, price);
    }
  }

  lemma AgreeLookup(feed: Feed, n: nat, q: seq<nat>, side: Side, price: int)
    requires OwnUpdateAbsorbed(n, q) && forall i :: 0 <= i < |q| ==> q[i] >= 1 && q[i] >= n
    ensures Lookup(ApplyAll(Truth(feed, n), PublishedAll(feed, 0, q)), side, price)
            == Lookup(ApplyAll(Truth(feed, n), PublishedAll(feed, 0, After(n, q))), side, price)
  {
    ReplayLookup(Truth(feed, n), feed, 0, q, side, price);
    ReplayLookup(Truth(feed, n), feed, 0, After(n, q), side, price);
    TruthLookup(feed, n, side, price);
    match LastAt(feed, q, side, price)
    case None =>
    case Some(j) =>
      if q[j] > n {
        LastAfter(feed, n, q, side, price);
      } else {
        OwnIsAlone(feed, n, q, side, price, j);
      }
  }

  /** If the snapshot's own update is visible after the replay, nothing newer touched its price. */
  lemma NewerUntouched(feed: Feed, n: nat, q: seq<nat>, side: Side, price: int, j: nat, k: nat)
    requires OwnUpdateAbsorbed(n, q) && LastAt(feed, q, side, price) == Some(j) && q[j] == n
    requires k < |q| && q[k] > n
    ensures !At(feed, q[k], side, price)
  {
    if k < j {
      assert QueuedAfter(q, j, q[k]);
      var m :| j < m < |q| && q[m] == q[k];
      assert !At(feed, q[m], side, price);
    }
  }

  lemma {:induction false} OwnIsAlone(feed: Feed, n: nat, q: seq<nat>, side: Side, price: int, j: nat)
    requires OwnUpdateAbsorbed(n, q) && n >= 1
    requires LastAt(feed, q, side, price) == Some(j) && q[j] == n
    ensures LastAt(feed, After(n, q), side, price) == None
    ensures NewestAt(feed, n, side, price) == Some(n)
  {
    var r := After(n, q);
    forall i | 0 <= i < |r|
      ensures !At(feed, r[i], side, price)
    {
      var k :| 0 <= k < |q| && q[k] == r[i];
      NewerUntouched(feed, n, q, side, price, j, k);
    }
  }

  lemma AgreeEnd(n: nat, q: seq<nat>)
    requires OwnUpdateAbsorbed(n, q) && forall i :: 0 <= i < |q| ==> q[i] >= n
    ensures End(n, q) == End(n, After(n, q))
  {
    if q != [] && q[|q| - 1] == n {
      assert forall i :: 0 <= i < |q| && q[i] > n ==> QueuedAfter(q, |q| - 1, q[i]);
    }
  }

  /** On a feed where only `n` and `b` clash, what the strict filter leaves at their price is `b`. */
  lemma {:induction false} StrictShows(n: nat, b: nat, q: seq<nat>)
    requires 1 <= n < b && b in q
    ensures Lookup(ApplyAll(Truth(Clash(n, b), n), PublishedAll(Clash(n, b), 0, After(n, q))), Bid, 0)
            == EffectOf(Clash(n, b), b)
  {
    var f := Clash(n, b);
    var k :| 0 <= k < |q| && q[k] == b;
    ReplayLookup(Truth(f, n), f, 0, After(n, q), Bid, 0);
    var m :| 0 <= m < |After(n, q)| && After(n, q)[m] == b;
    assert At(f, b, Bid, 0);
  }

  lemma {:induction false} FiltersDiffer(n: nat, q: seq<nat>, i: nat, j: nat)
    requires i < j < |q| && 1 <= q[j] == n < q[i] && FiltersAgree(Clash(n, q[i]), n, q)
    ensures QueuedAfter(q, j, q[i])
  {
    var f := Clash(n, q[i]);
    StrictShows(n, q[i], q);
    ReplayLookup(Truth(f, n), f, 0, q, Bid, 0);
    assert At(f, q[i], Bid, 0) && At(f, q[j], Bid, 0);
    var last := LastAt(f, q, Bid, 0).value;
    assert EffectOf(f, q[last]) == EffectOf(f, q[i]);
    assert q[last] == q[i];
  }

  /** The `>=` filter in `on_snapshot` gives, for every feed, the same book and the same last
      sequence number as a strict `>` filter if and only if the snapshot's own update is absorbed. */
  lemma FilterExact(n: nat, q: seq<nat>)
    requires forall i :: 0 <= i < |q| ==> q[i] >= 1 && q[i] >= n
    ensures (forall feed: Feed :: FiltersAgree(feed, n, q)) <==> OwnUpdateAbsorbed(n, q)
  {
    if OwnUpdateAbsorbed(n, q) {
      forall feed: Feed
        ensures FiltersAgree(feed, n, q)
      {
        var a := ApplyAll(Truth(feed, n), PublishedAll(feed, 0, q));
        var b := ApplyAll(Truth(feed, n), PublishedAll(feed, 0, After(n, q)));
        forall side, price
          ensures Lookup(a, side, price) == Lookup(b, side, price)
        {
          AgreeLookup(feed, n, q, side, price);
        }
        AgreeEnd(n, q);
        SameContents(a, b);
      }
    }
    if forall feed: Feed :: FiltersAgree(feed, n, q) {
      forall i, j | 0 <= i < j < |q| && q[j] == n < q[i]
        ensures QueuedAfter(q, j, q[i])
      {
        FiltersDiffer(n, q, i, j);
      }
    }
  }

  /** In particular a queue that settles does not tell the two filters apart. */
  lemma SettledFiltersAgree(feed: Feed, n: nat, q: seq<nat>)
    requires Settles(n, q) && forall i :: 0 <= i < |q| ==> q[i] >= 1
    ensures FiltersAgree(feed, n, q)
  {
    FilterExact(n, q);
  }
}

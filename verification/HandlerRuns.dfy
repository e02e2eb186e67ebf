/**
What holds over every run of the market-data handler.
*/
module HandlerRuns {
  import opened Bytes
  import opened Book
  import opened Recovery
  import opened Handler

  datatype Op =
    | Sub(id: nat)
    | Unsub(id: nat)
    | Incremental(u: BookUpdate)
    | Snapshot(s: BookSnapshot)
    | GoStale(id: nat)

  ghost function Step(h: State, op: Op): State {
    match op
    case Sub(id) => Subscribed(h, id)
    case Unsub(id) => Unsubscribed(h, id)
    case Incremental(u) => AfterIncremental(h, u)
    case Snapshot(s) => AfterSnapshot(h, s)
    case GoStale(id) => MarkedStale(h, id)
  }

  ghost function Run(h: State, ops: seq<Op>): State
    decreases |ops|
  {
    if ops == [] then h else Run(Step(h, ops[0]), ops[1..])
  }

  function InstrumentOf(op: Op): nat {
    match op
    case Sub(id) => id
    case Unsub(id) => id
    case Incremental(u) => u.instrument
    case Snapshot(s) => s.instrument
    case GoStale(id) => id
  }

  // ----- Replay, described by the updates it keeps -----

  /** Those of the first `m` queued updates that a snapshot taken at `n` does not make obsolete. */
  function KeptOf(n: nat, us: seq<BookUpdate>, m: nat): seq<BookUpdate>
    requires m <= |us|
  {
    if m == 0 then []
    else if us[m - 1].seqNum >= n then KeptOf(n, us, m - 1) + [us[m - 1]]
    else KeptOf(n, us, m - 1)
  }

  function Kept(n: nat, us: seq<BookUpdate>): seq<BookUpdate> {
    KeptOf(n, us, |us|)
  }

  /** The others. */
  function ObsoleteOf(n: nat, us: seq<BookUpdate>, m: nat): seq<BookUpdate>
    requires m <= |us|
  {
    if m == 0 then []
    else if us[m - 1].seqNum >= n then ObsoleteOf(n, us, m - 1)
    else ObsoleteOf(n, us, m - 1) + [us[m - 1]]
  }

  function Obsolete(n: nat, us: seq<BookUpdate>): seq<BookUpdate> {
    ObsoleteOf(n, us, |us|)
  }

  lemma SplitOne(front: seq<BookUpdate>, u: BookUpdate, kept: seq<BookUpdate>, obsolete: seq<BookUpdate>)
    requires multiset(front) == multiset(kept) + multiset(obsolete)
    ensures multiset(front + [u]) == multiset(kept + [u]) + multiset(obsolete)
    ensures multiset(front + [u]) == multiset(kept) + multiset(obsolete + [u])
  {
    assert multiset(front + [u]) == multiset(front) + multiset{u};
    assert multiset(kept + [u]) == multiset(kept) + multiset{u};
    assert multiset(obsolete + [u]) == multiset(obsolete) + multiset{u};
  }

  lemma FrontSnoc(us: seq<BookUpdate>, m: nat)
    requires m < |us|
    ensures us[..m + 1] == us[..m] + [us[m]]
  {
  }

  lemma {:induction false} SplitUpTo(n: nat, us: seq<BookUpdate>, m: nat)
    requires m <= |us|
    ensures multiset(us[..m]) == multiset(KeptOf(n, us, m)) + multiset(ObsoleteOf(n, us, m))
  {
    if m > 0 {
      SplitUpTo(n, us, m - 1);
      FrontSnoc(us, m - 1);
      SplitOne(us[..m - 1], us[m - 1], KeptOf(n, us, m - 1), ObsoleteOf(n, us, m - 1));
    }
  }

  lemma KeptOrObsolete(n: nat, us: seq<BookUpdate>)
    ensures multiset(us) == multiset(Kept(n, us)) + multiset(Obsolete(n, us))
  {
    SplitUpTo(n, us, |us|);
    assert us[..|us|] == us;
  }

  lemma {:induction false} KeptAreQueued(n: nat, us: seq<BookUpdate>, m: nat)
    requires m <= |us|
    ensures forall u :: u in KeptOf(n, us, m) ==> u in us && u.seqNum >= n
  {
    if m > 0 {
      KeptAreQueued(n, us, m - 1);
    }
  }

  ghost predicate AllFor(id: nat, us: seq<BookUpdate>) {
    forall i :: 0 <= i < |us| ==> us[i].instrument == id
  }

  /** The number expected after a replay that kept `k`. */
  function NextAfter(k: seq<BookUpdate>, otherwise: nat): nat {
    if k == [] then otherwise else Successor(k[|k| - 1].seqNum)
  }

  /** A replay applies the kept updates, in queue order, to one book, and expects the number after
      the last of them; nothing else changes but the event log. */
  ghost predicate Replayed(h: State, id: nat, k: seq<BookUpdate>, r: State)
    requires id in h.books && id in h.expected
  {
    && r.books == h.books[id := ApplyAll(h.books[id], k)]
    && r.expected == h.expected[id := NextAfter(k, h.expected[id])]
    && r.states == h.states && r.pending == h.pending
  }

  lemma ReplayedStep(h: State, id: nat, k: seq<BookUpdate>, g: State, u: BookUpdate)
    requires id in h.books && id in h.expected && Replayed(h, id, k, g) && u.instrument == id
    ensures Replayed(h, id, k + [u], ApplyOne(g, u))
  {
    ApplyAllSnoc(h.books[id], k, u);
  }

  lemma {:induction false} ReplayEffect(h: State, id: nat, n: nat, us: seq<BookUpdate>, m: nat)
    requires m <= |us| && id in h.books && id in h.expected && AllFor(id, us)
    ensures Replayed(h, id, KeptOf(n, us, m), Replay(h, n, us, m))
  {
    if m > 0 {
      ReplayEffect(h, id, n, us, m - 1);
      if us[m - 1].seqNum >= n {
        ReplayedStep(h, id, KeptOf(n, us, m - 1), Replay(h, n, us, m - 1), us[m - 1]);
      }
    }
  }

  /** What a snapshot leaves behind for its instrument. */
  lemma SnapshotEffect(h: State, s: BookSnapshot)
    requires s.instrument in h.books && AllFor(s.instrument, h.Queue(s.instrument))
    ensures var id := s.instrument;
            var k := Kept(s.seqNum, h.Queue(id));
            var t := AfterSnapshot(h, s);
            t == State(h.books[id := ApplyAll(SnapshotContents(s), k)],
                       h.states[id := Active],
                       h.expected[id := NextAfter(k, Successor(s.seqNum))],
                       h.pending - {id},
                       t.events)
  {
    ReplayEffect(Loaded(h, s), s.instrument, s.seqNum, h.Queue(s.instrument), |h.Queue(s.instrument)|);
  }

  /** The book after a snapshot owes nothing to the book before it. */
  lemma SnapshotForgets(h: State, b: Contents, e: nat, s: BookSnapshot)
    requires s.instrument in h.books && AllFor(s.instrument, h.Queue(s.instrument))
    ensures var id := s.instrument;
            var g := h.(books := h.books[id := b], expected := h.expected[id := e]);
            && AfterSnapshot(g, s).books == AfterSnapshot(h, s).books
            && AfterSnapshot(g, s).expected == AfterSnapshot(h, s).expected
  {
    var id := s.instrument;
    var g := h.(books := h.books[id := b], expected := h.expected[id := e]);
    SnapshotEffect(h, s);
    SnapshotEffect(g, s);
  }

  // ----- Structure kept by every call -----

  /** Books, states and expected numbers exist for the same instruments; a queue holds updates of
      its own instrument only; a live book has no queue. */
  ghost predicate Shape(h: State) {
    && h.books.Keys == h.states.Keys == h.expected.Keys
    && (forall id :: id in h.pending ==> AllFor(id, h.pending[id]))
    && (forall id :: id in h.states && h.states[id] == Active ==> id !in h.pending)
  }

  lemma EnqueueShape(h: State, u: BookUpdate)
    requires Shape(h) && h.StateOf(u.instrument) != Active
    ensures Shape(Enqueue(h, u))
  {
  }

  lemma IncrementalShape(h: State, u: BookUpdate)
    requires Shape(h)
    ensures Shape(AfterIncremental(h, u))
  {
    var id := u.instrument;
    match h.StateOf(id)
    case Active =>
      if u.seqNum > h.expected[id] {
        EnqueueShape(h.(states := h.states[id := Recovering]), u);
      }
    case Stale => EnqueueShape(h.(states := h.states[id := Recovering]), u);
    case _ => EnqueueShape(h, u);
  }

  lemma SnapshotShape(h: State, s: BookSnapshot)
    requires Shape(h)
    ensures Shape(AfterSnapshot(h, s))
  {
    if s.instrument in h.books {
      SnapshotEffect(h, s);
    }
  }

  lemma StepShape(h: State, op: Op)
    requires Shape(h)
    ensures Shape(Step(h, op))
  {
    match op
    case Incremental(u) => IncrementalShape(h, u);
    case Snapshot(s) => SnapshotShape(h, s);
    case _ =>
  }

  lemma {:induction false} RunShape(h: State, ops: seq<Op>)
    requires Shape(h)
    ensures Shape(Run(h, ops))
    decreases |ops|
  {
    if ops != [] {
      StepShape(h, ops[0]);
      RunShape(Step(h, ops[0]), ops[1..]);
    }
  }

  /** Every handler state that a run can reach has this shape. */
  lemma ReachableShape(ops: seq<Op>)
    ensures Shape(Run(Fresh, ops))
  {
    RunShape(Fresh, ops);
  }

  /** A book becomes live by a snapshot and in no other way. */
  lemma LiveOnlyBySnapshot(h: State, op: Op, id: nat)
    requires Shape(h) && h.StateOf(id) != Active && Step(h, op).StateOf(id) == Active
    ensures op.Snapshot? && op.s.instrument == id
  {
    if op.Snapshot? && op.s.instrument in h.books {
      SnapshotEffect(h, op.s);
    }
  }

  /** Everything about one instrument is the same in two states. */
  predicate SameFor(h: State, t: State, id: nat) {
    && (id in t.books <==> id in h.books)
    && (id in h.books ==> t.books[id] == h.books[id])
    && (id in t.expected <==> id in h.expected)
    && (id in h.expected ==> t.expected[id] == h.expected[id])
    && t.StateOf(id) == h.StateOf(id) && t.Queue(id) == h.Queue(id)
  }

  lemma IncrementalOthers(h: State, u: BookUpdate, id: nat)
    requires u.instrument != id
    ensures SameFor(h, AfterIncremental(h, u), id)
  {
  }

  lemma SnapshotOthers(h: State, s: BookSnapshot, id: nat)
    requires Shape(h) && s.instrument != id
    ensures SameFor(h, AfterSnapshot(h, s), id)
  {
    if s.instrument in h.books {
      SnapshotEffect(h, s);
    }
  }

  /** A call leaves every other instrument exactly as it was. */
  lemma OthersUntouched(h: State, op: Op, id: nat)
    requires Shape(h) && InstrumentOf(op) != id
    ensures SameFor(h, Step(h, op), id)
  {
    match op
    case Incremental(u) => IncrementalOthers(h, u, id);
    case Snapshot(s) => SnapshotOthers(h, s, id);
    case _ =>
  }

  // ----- Books are well formed -----

  /** A book that files its levels under their own prices and holds no empty one. */
  predicate GoodBook(b: Contents) {
    WellFormed(b.bids) && WellFormed(b.asks)
  }

  ghost predicate BooksWellFormed(h: State) {
    forall id :: id in h.books ==> GoodBook(h.books[id])
  }

  lemma SnapshotBooksWellFormed(h: State, s: BookSnapshot)
    requires Shape(h) && BooksWellFormed(h)
    ensures BooksWellFormed(AfterSnapshot(h, s))
  {
    if s.instrument in h.books {
      var k := Kept(s.seqNum, h.Queue(s.instrument));
      SnapshotEffect(h, s);
      SnapshotWellFormed(s);
      ApplyAllWellFormed(SnapshotContents(s), k);
      assert GoodBook(ApplyAll(SnapshotContents(s), k));
    }
  }

  lemma IncrementalBooksWellFormed(h: State, u: BookUpdate)
    requires BooksWellFormed(h)
    ensures BooksWellFormed(AfterIncremental(h, u))
  {
    if u.instrument in h.books {
      UpdateWellFormed(h.books[u.instrument], u);
      assert GoodBook(ApplyUpdate(h.books[u.instrument], u));
    }
  }

  lemma StepWellFormed(h: State, op: Op)
    requires Shape(h) && BooksWellFormed(h)
    ensures BooksWellFormed(Step(h, op))
  {
    match op
    case Incremental(u) => IncrementalBooksWellFormed(h, u);
    case Snapshot(s) => SnapshotBooksWellFormed(h, s);
    case _ =>
  }

  lemma {:induction false} RunWellFormed(h: State, ops: seq<Op>)
    requires Shape(h) && BooksWellFormed(h)
    ensures BooksWellFormed(Run(h, ops))
    decreases |ops|
  {
    if ops != [] {
      var t := Step(h, ops[0]);
      StepShape(h, ops[0]);
      StepWellFormed(h, ops[0]);
      RunWellFormed(t, ops[1..]);
    }
  }

  /** Over every run, whatever arrives. */
  lemma ReachableWellFormed(ops: seq<Op>)
    ensures BooksWellFormed(Run(Fresh, ops))
  {
    RunWellFormed(Fresh, ops);
  }

  // ----- Fidelity to the feed -----

  /** One feed per instrument. */
  type Feeds = nat -> Feed

  ghost predicate TrueUpdate(feeds: Feeds, u: BookUpdate) {
    1 <= u.seqNum < U64 && u == Published(feeds(u.instrument), u.instrument, u.seqNum)
  }

  ghost predicate TrueSnapshot(feeds: Feeds, s: BookSnapshot) {
    s.seqNum < U64 && SnapshotContents(s) == Truth(feeds(s.instrument), s.seqNum)
  }

  function Numbers(us: seq<BookUpdate>): (q: seq<nat>)
    ensures |q| == |us|
  {
    seq(|us|, i requires 0 <= i < |us| => us[i].seqNum)
  }

  /** What the replay condition demands of the queue that a snapshot will find. */
  ghost predicate QueueSettles(h: State, s: BookSnapshot) {
    Settles(s.seqNum, Numbers(Kept(s.seqNum, h.Queue(s.instrument))))
  }

  /** The feed delivers true updates (lost, duplicated or reordered at will) and true snapshots; a
      snapshot for a subscribed instrument finds a queue that settles. */
  ghost predicate Honest(feeds: Feeds, h: State, op: Op) {
    match op
    case Incremental(u) => TrueUpdate(feeds, u)
    case Snapshot(s) => TrueSnapshot(feeds, s) && (s.instrument in h.books ==> QueueSettles(h, s))
    case _ => true
  }

  ghost predicate HonestRun(feeds: Feeds, h: State, ops: seq<Op>)
    decreases |ops|
  {
    ops == [] || (Honest(feeds, h, ops[0]) && HonestRun(feeds, Step(h, ops[0]), ops[1..]))
  }

  /** A live book is the true book at its last sequence number and expects the next one. */
  ghost predicate LiveBookTrue(feed: Feed, b: Contents, expected: nat) {
    b.lastSeq < U64 && b == Truth(feed, b.lastSeq) && expected == Successor(b.lastSeq)
  }

  ghost predicate LiveBooksTrue(feeds: Feeds, h: State) {
    forall id :: id in h.books && h.StateOf(id) == Active ==>
      id in h.expected && LiveBookTrue(feeds(id), h.books[id], h.expected[id])
  }

  ghost predicate QueuesTrue(feeds: Feeds, h: State) {
    forall id, u :: id in h.pending && u in h.pending[id] ==> TrueUpdate(feeds, u)
  }

  ghost predicate Faithful(feeds: Feeds, h: State) {
    Shape(h) && LiveBooksTrue(feeds, h) && QueuesTrue(feeds, h)
  }

  lemma {:induction false} SameForAnyId(b: Contents, feed: Feed, id: nat, q: seq<nat>)
    ensures ApplyAll(b, PublishedAll(feed, id, q)) == ApplyAll(b, PublishedAll(feed, 0, q))
  {
    if q != [] {
      var front := q[..|q| - 1];
      SameForAnyId(b, feed, id, front);
      assert PublishedAll(feed, id, q)[..|q| - 1] == PublishedAll(feed, id, front);
      assert PublishedAll(feed, 0, q)[..|q| - 1] == PublishedAll(feed, 0, front);
    }
  }

  /** Each kept update of a true queue is the feed's update of its number. */
  lemma {:induction false} KeptAreTrue(feeds: Feeds, h: State, id: nat, n: nat)
    requires Faithful(feeds, h)
    ensures var k := Kept(n, h.Queue(id));
            && k == PublishedAll(feeds(id), id, Numbers(k))
            && forall i :: 0 <= i < |k| ==> 1 <= Numbers(k)[i] < U64
  {
    var us := h.Queue(id);
    var k := Kept(n, us);
    var q := Numbers(k);
    KeptAreQueued(n, us, |us|);
    forall i | 0 <= i < |k|
      ensures k[i] == Published(feeds(id), id, q[i]) && 1 <= q[i] < U64
    {
      assert k[i] in us;
      assert id in h.pending && k[i] in h.pending[id];
      assert TrueUpdate(feeds, k[i]) && AllFor(id, h.pending[id]);
    }
    assert k == PublishedAll(feeds(id), id, q);
  }

  /** A true queue that settles, replayed on a true snapshot, gives a true book. */
  lemma {:induction false} SnapshotRecovers(feeds: Feeds, h: State, s: BookSnapshot)
    requires Faithful(feeds, h) && s.instrument in h.books
    requires TrueSnapshot(feeds, s) && QueueSettles(h, s)
    ensures var k := Kept(s.seqNum, h.Queue(s.instrument));
            var b := ApplyAll(SnapshotContents(s), k);
            LiveBookTrue(feeds(s.instrument), b, NextAfter(k, Successor(s.seqNum)))
  {
    var id, n := s.instrument, s.seqNum;
    var k := Kept(n, h.Queue(id));
    var q := Numbers(k);
    KeptAreTrue(feeds, h, id, n);
    SameForAnyId(Truth(feeds(id), n), feeds(id), id, q);
    SettledRecovers(feeds(id), n, q);
  }

  lemma SnapshotFaithful(feeds: Feeds, h: State, s: BookSnapshot)
    requires Faithful(feeds, h) && Honest(feeds, h, Snapshot(s))
    ensures Faithful(feeds, AfterSnapshot(h, s))
  {
    SnapshotShape(h, s);
    if s.instrument in h.books {
      SnapshotEffect(h, s);
      SnapshotRecovers(feeds, h, s);
    }
  }

  /** An update that is applied to a live book is the next one of its feed: the expected number that
      follows the largest one is 0, which no update carries. */
  lemma NextUpdateFaithful(feed: Feed, b: Contents, expected: nat, u: BookUpdate)
    requires LiveBookTrue(feed, b, expected) && 1 <= u.seqNum < U64 && u.seqNum == expected
    requires u == Published(feed, u.instrument, u.seqNum)
    ensures LiveBookTrue(feed, ApplyUpdate(b, u), Successor(u.seqNum))
  {
  }

  lemma AppliedFaithful(feeds: Feeds, h: State, u: BookUpdate)
    requires Faithful(feeds, h) && TrueUpdate(feeds, u)
    requires h.StateOf(u.instrument) == Active && u.seqNum == h.expected[u.instrument]
    ensures LiveBooksTrue(feeds, ApplyOne(h, u)) && QueuesTrue(feeds, ApplyOne(h, u))
  {
    var id := u.instrument;
    NextUpdateFaithful(feeds(id), h.books[id], h.expected[id], u);
  }

  /** An update that joins a queue leaves the live books alone. */
  lemma QueuedFaithful(feeds: Feeds, h: State, u: BookUpdate, t: State)
    requires Faithful(feeds, h) && TrueUpdate(feeds, u)
    requires t.books == h.books && t.expected == h.expected && t.pending == Enqueue(h, u).pending
    requires forall id :: t.StateOf(id) == Active ==> h.StateOf(id) == Active
    ensures LiveBooksTrue(feeds, t) && QueuesTrue(feeds, t)
  {
  }

  lemma IncrementalFaithful(feeds: Feeds, h: State, u: BookUpdate)
    requires Faithful(feeds, h) && TrueUpdate(feeds, u)
    ensures Faithful(feeds, AfterIncremental(h, u))
  {
    var id, t := u.instrument, AfterIncremental(h, u);
    IncrementalShape(h, u);
    if h.StateOf(id) != Active || u.seqNum > h.expected[id] {
      QueuedFaithful(feeds, h, u, t);
    } else if u.seqNum == h.expected[id] {
      AppliedFaithful(feeds, h, u);
    }
  }

  lemma StepFaithful(feeds: Feeds, h: State, op: Op)
    requires Faithful(feeds, h) && Honest(feeds, h, op)
    ensures Faithful(feeds, Step(h, op))
  {
    match op
    case Incremental(u) => IncrementalFaithful(feeds, h, u);
    case Snapshot(s) => SnapshotFaithful(feeds, h, s);
    case _ => StepShape(h, op);
  }

  lemma {:induction false} RunFaithful(feeds: Feeds, h: State, ops: seq<Op>)
    requires Faithful(feeds, h) && HonestRun(feeds, h, ops)
    ensures Faithful(feeds, Run(h, ops))
    decreases |ops|
  {
    if ops != [] {
      StepFaithful(feeds, h, ops[0]);
      RunFaithful(feeds, Step(h, ops[0]), ops[1..]);
    }
  }

  /** In every run, whatever the feed loses, repeats or reorders, each live book is what replaying
      the feed from its start up to the book's last sequence number gives; and it expects the next
      number if and only if there is one in 64 bits. */
  lemma LiveBooksAreTrue(feeds: Feeds, ops: seq<Op>, id: nat)
    requires HonestRun(feeds, Fresh, ops)
    requires id in Run(Fresh, ops).books && Run(Fresh, ops).StateOf(id) == Active
    ensures var h := Run(Fresh, ops);
            && h.books[id] == Truth(feeds(id), h.books[id].lastSeq)
            && id in h.expected
            && (h.expected[id] == h.books[id].lastSeq + 1 <==> h.books[id].lastSeq != U64 - 1)
            && (h.books[id].lastSeq == U64 - 1 ==> h.expected[id] == 0)
  {
    RunFaithful(feeds, Fresh, ops);
  }

  /** A snapshot taken at update 1 of the feed in which every update sets a price of its own. */
  function EarlySnapshot(): BookSnapshot {
    BookSnapshot(1, 1, [PriceLevel(1, 1, 0)], [])
  }

  /** That snapshot, with update 3 replayed on it. */
  function BookWithHole(): Contents {
    ApplyUpdate(SnapshotContents(EarlySnapshot()), Published(Distinct(), 1, 3))
  }

  lemma EarlySnapshotIsTrue()
    ensures SnapshotContents(EarlySnapshot()) == Truth(Distinct(), 1)
  {
    assert [PriceLevel(1, 1, 0)][..0] == [];
  }

  lemma HoleIsVisible()
    ensures BookWithHole().lastSeq == 3 && BookWithHole() != Truth(Distinct(), 3)
  {
    EarlySnapshotIsTrue();
    TruthLookup(Distinct(), 1, Bid, 2);
    TruthLookup(Distinct(), 3, Bid, 2);
    LookupAfter(Truth(Distinct(), 1), Published(Distinct(), 1, 3), Bid, 2);
    assert At(Distinct(), 2, Bid, 2);
  }

  /** Without the replay condition the claim fails: update 2 of the feed is lost, update 3 waits in
      the queue, a true snapshot taken at 1 arrives, and the handler goes live with a book that
      lacks update 2 while claiming to be at 3. */
  lemma HoleGoesLive()
    ensures var h := Run(Fresh, [Sub(1), Incremental(Published(Distinct(), 1, 3)), Snapshot(EarlySnapshot())]);
            && 1 in h.books && h.StateOf(1) == Active
            && h.books[1].lastSeq == 3 && h.books[1] != Truth(Distinct(), 3)
  {
    var u := Published(Distinct(), 1, 3);
    RunThree(Sub(1), Incremental(u), Snapshot(EarlySnapshot()));
    HoleAfterSnapshot(Subscribed(Fresh, 1), u);
    HoleIsVisible();
  }

  lemma HoleAfterSnapshot(h: State, u: BookUpdate)
    requires h == Subscribed(Fresh, 1) && u == Published(Distinct(), 1, 3)
    ensures AfterIncremental(h, u) == Enqueue(h, u)
    ensures var t := AfterSnapshot(Enqueue(h, u), EarlySnapshot());
            1 in t.books && t.books[1] == BookWithHole() && t.StateOf(1) == Active
  {
    var s := EarlySnapshot();
    assert Enqueue(h, u).Queue(1) == [u];
    SnapshotEffect(Enqueue(h, u), s);
    KeepOne(1, u);
    ApplyAllSnoc(SnapshotContents(s), [], u);
    assert [] + [u] == [u];
  }

  lemma KeepOne(n: nat, u: BookUpdate)
    requires u.seqNum >= n
    ensures Kept(n, [u]) == [u]
  {
    assert KeptOf(n, [u], 1) == KeptOf(n, [u], 0) + [u];
  }

  lemma RunThree(a: Op, b: Op, c: Op)
    ensures Run(Fresh, [a, b, c]) == Step(Step(Step(Fresh, a), b), c)
  {
    var x, y := Step(Fresh, a), Step(Step(Fresh, a), b);
    assert [a, b, c][1..] == [b, c] && [b, c][1..] == [c] && [c][1..] == [];
    assert Run(x, [b, c]) == Run(y, [c]);
    assert Run(y, [c]) == Run(Step(y, c), []);
  }

  /** The events of a gap: the first missing number, the number that arrived, and the recovery. */
  function GapEvents(id: nat, missing: nat, arrived: nat): seq<Event> {
    [GapDetected(id, missing, arrived), StateChanged(id, Recovering)]
  }

  /** A gap is reported exactly when a live book is offered an update beyond the one it needs, or
      when no number can follow its last one; the report names the expected number and the number
      that arrived. */
  lemma GapReport(feeds: Feeds, h: State, u: BookUpdate)
    requires Faithful(feeds, h) && TrueUpdate(feeds, u)
    ensures var id := u.instrument;
            var gap := id in h.books && h.StateOf(id) == Active
                       && (u.seqNum > h.books[id].lastSeq + 1 || h.books[id].lastSeq == U64 - 1);
            var t := AfterIncremental(h, u);
            && (gap <==> exists e, s :: t.events == h.events + GapEvents(id, e, s))
            && (gap ==> t.events == h.events + GapEvents(id, Successor(h.books[id].lastSeq), u.seqNum)
                        && t.StateOf(id) == Recovering && t.books == h.books && u in t.Queue(id))
  {
    var id, t := u.instrument, AfterIncremental(h, u);
    assert forall e, s :: (h.events + GapEvents(id, e, s))[|h.events|] == GapDetected(id, e, s);
    if h.StateOf(id) == Active && u.seqNum == h.expected[id] {
      assert t.events[|h.events|] == BookUpdated(id);
    } else if h.StateOf(id) == Active && u.seqNum > h.expected[id] {
      assert t.events == h.events + GapEvents(id, h.expected[id], u.seqNum);
    } else {
      assert t.events == h.events;
      assert forall e, s :: |h.events + GapEvents(id, e, s)| == |h.events| + 2;
    }
  }

  // ----- No update is lost track of -----

  /** The fates of one instrument's updates so far, and the snapshot and updates its present book
      was built from. */
  datatype Ledger = Ledger(
    received: multiset<BookUpdate>,
    applied: multiset<BookUpdate>,
    ignored: multiset<BookUpdate>,
    discarded: multiset<BookUpdate>,
    dropped: multiset<BookUpdate>,
    base: Contents,
    log: seq<BookUpdate>)

  const Blank := Ledger(multiset{}, multiset{}, multiset{}, multiset{}, multiset{}, Empty, [])

  function Account(l: Ledger, h: State, op: Op, id: nat): Ledger {
    if InstrumentOf(op) != id then l
    else
      match op
      case Sub(_) => l.(base := Empty, log := [])
      case Unsub(_) => l.(dropped := l.dropped + multiset(h.Queue(id)))
      case GoStale(_) => l
      case Incremental(u) =>
        var m := l.(received := l.received + multiset{u});
        if h.StateOf(id) == Active && id in h.expected then
          if u.seqNum < h.expected[id] then m.(ignored := m.ignored + multiset{u})
          else if u.seqNum == h.expected[id] then m.(applied := m.applied + multiset{u}, log := m.log + [u])
          else m
        else m
      case Snapshot(s) =>
        if id in h.books then
          var k := Kept(s.seqNum, h.Queue(id));
          l.(applied := l.applied + multiset(k),
             discarded := l.discarded + multiset(Obsolete(s.seqNum, h.Queue(id))),
             base := SnapshotContents(s),
             log := k)
        else l
  }

  ghost function Accounts(l: Ledger, h: State, ops: seq<Op>, id: nat): Ledger
    decreases |ops|
  {
    if ops == [] then l else Accounts(Account(l, h, ops[0], id), Step(h, ops[0]), ops[1..], id)
  }

  /** Every update received was applied, ignored as old, discarded as older than a snapshot, dropped
      by an unsubscription, or is still queued; and the book is its base plus the applied updates. */
  ghost predicate Balanced(l: Ledger, h: State, id: nat) {
    && l.received == l.applied + l.ignored + l.discarded + l.dropped + multiset(h.Queue(id))
    && (id in h.books ==> h.books[id] == ApplyAll(l.base, l.log))
  }

  /** An update that joins the queue. */
  lemma QueuedBalanced(l: Ledger, g: State, h: State, u: BookUpdate)
    requires Balanced(l, h, u.instrument)
    requires g.Queue(u.instrument) == h.Queue(u.instrument) + [u] && g.books == h.books
    ensures Balanced(l.(received := l.received + multiset{u}), g, u.instrument)
  {
  }

  /** An update that is applied to a live book. */
  lemma AppliedBalanced(l: Ledger, h: State, u: BookUpdate)
    requires Balanced(l, h, u.instrument) && u.instrument in h.books
    ensures Balanced(l.(received := l.received + multiset{u}, applied := l.applied + multiset{u}, log := l.log + [u]),
                     ApplyOne(h, u), u.instrument)
  {
    ApplyAllSnoc(l.base, l.log, u);
  }

  lemma IncrementalBalanced(l: Ledger, h: State, u: BookUpdate)
    requires Shape(h) && Balanced(l, h, u.instrument)
    ensures Balanced(Account(l, h, Incremental(u), u.instrument), AfterIncremental(h, u), u.instrument)
  {
    var id, t := u.instrument, AfterIncremental(h, u);
    if h.StateOf(id) != Active || u.seqNum > h.expected[id] {
      QueuedBalanced(l, t, h, u);
    } else if u.seqNum == h.expected[id] {
      AppliedBalanced(l, h, u);
    }
  }

  lemma SnapshotBalanced(l: Ledger, h: State, s: BookSnapshot)
    requires Shape(h) && Balanced(l, h, s.instrument)
    ensures Balanced(Account(l, h, Snapshot(s), s.instrument), AfterSnapshot(h, s), s.instrument)
  {
    if s.instrument in h.books {
      SnapshotEffect(h, s);
      KeptOrObsolete(s.seqNum, h.Queue(s.instrument));
    }
  }

  lemma StepBalanced(l: Ledger, h: State, op: Op, id: nat)
    requires Shape(h) && Balanced(l, h, id)
    ensures Balanced(Account(l, h, op, id), Step(h, op), id)
  {
    if InstrumentOf(op) != id {
      OthersUntouched(h, op, id);
    } else {
      match op
      case Incremental(u) => IncrementalBalanced(l, h, u);
      case Snapshot(s) => SnapshotBalanced(l, h, s);
      case _ =>
    }
  }

  lemma {:induction false} RunBalanced(l: Ledger, h: State, ops: seq<Op>, id: nat)
    requires Shape(h) && Balanced(l, h, id)
    ensures Balanced(Accounts(l, h, ops, id), Run(h, ops), id)
    decreases |ops|
  {
    if ops != [] {
      StepShape(h, ops[0]);
      StepBalanced(l, h, ops[0], id);
      RunBalanced(Account(l, h, ops[0], id), Step(h, ops[0]), ops[1..], id);
    }
  }

  /** Conservation over every run, with no assumption about the feed. */
  lemma EveryUpdateAccounted(ops: seq<Op>, id: nat)
    ensures Balanced(Accounts(Blank, Fresh, ops, id), Run(Fresh, ops), id)
  {
    RunBalanced(Blank, Fresh, ops, id);
  }
}

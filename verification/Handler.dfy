/**
The market-data handler (ironsbe-marketdata/src/handler.rs): per-instrument gap detection, queueing
of updates while a book is not live, and recovery by snapshot plus replay.
*/
module Handler {
  import opened Bytes
  import opened Book
  import opened Recovery

  datatype InstrumentState = Initializing | Active | Recovering | Stale

  datatype Event =
    | BookUpdated(id: nat)
    | TopOfBookChanged(id: nat)
    | StateChanged(id: nat, state: InstrumentState)
    | GapDetected(id: nat, expected: nat, seqNum: nat)

  /** Everything the handler holds, and the events it has emitted. */
  datatype State = State(
    books: map<nat, Contents>,
    states: map<nat, InstrumentState>,
    expected: map<nat, nat>,
    pending: map<nat, seq<BookUpdate>>,
    events: seq<Event>)
  {
    function Queue(id: nat): seq<BookUpdate> {
      if id in pending then pending[id] else []
    }

    function StateOf(id: nat): InstrumentState {
      if id in states then states[id] else Initializing
    }
  }

  const Fresh := State(map[], map[], map[], map[], [])

  // ----- What each call does -----

  /** The number after `n`, in 64 bits. */
  function Successor(n: nat): nat {
    if n == U64 - 1 then 0 else n + 1
  }

  function Subscribed(h: State, id: nat): State {
    h.(books := h.books[id := Empty], states := h.states[id := Initializing], expected := h.expected[id := 0])
  }

  function Unsubscribed(h: State, id: nat): State {
    h.(books := h.books - {id}, states := h.states - {id}, expected := h.expected - {id}, pending := h.pending - {id})
  }

  function Enqueue(h: State, u: BookUpdate): State {
    h.(pending := h.pending[u.instrument := h.Queue(u.instrument) + [u]])
  }

  /** The top of the book moved between `a` and `b`. */
  ghost predicate TopMoved(a: Contents, b: Contents) {
    BestPrice(a.bids, true) != BestPrice(b.bids, true) || BestPrice(a.asks, false) != BestPrice(b.asks, false)
  }

  /** The private `apply_update`. */
  ghost function ApplyOne(h: State, u: BookUpdate): State {
    var id := u.instrument;
    if id in h.books then
      var after := ApplyUpdate(h.books[id], u);
      h.(books := h.books[id := after],
         expected := h.expected[id := Successor(u.seqNum)],
         events := h.events + [BookUpdated(id)] + (if TopMoved(h.books[id], after) then [TopOfBookChanged(id)] else []))
    else h
  }

  /** A gap: report it, go to recovery, and keep the update for later. */
  function GapFound(h: State, u: BookUpdate, expected: nat): State {
    var id := u.instrument;
    Enqueue(h, u).(states := h.states[id := Recovering],
                   events := h.events + [GapDetected(id, expected, u.seqNum), StateChanged(id, Recovering)])
  }

  ghost function AfterIncremental(h: State, u: BookUpdate): State {
    var id := u.instrument;
    match h.StateOf(id)
    case Active =>
      var expected := if id in h.expected then h.expected[id] else 0;
      if u.seqNum < expected then h
      else if u.seqNum > expected then
        GapFound(h, u, expected)
      else ApplyOne(h, u)
    case Stale => Enqueue(h, u).(states := h.states[id := Recovering])
    case _ => Enqueue(h, u)
  }

  /** Apply those of the first `m` queued updates that are not older than the snapshot. */
  ghost function Replay(h: State, n: nat, us: seq<BookUpdate>, m: nat): State
    requires m <= |us|
  {
    if m == 0 then h
    else
      var g := Replay(h, n, us, m - 1);
      if us[m - 1].seqNum >= n then ApplyOne(g, us[m - 1]) else g
  }

  /** The snapshot taken over, and the queue taken out, before the replay. */
  function Loaded(h: State, s: BookSnapshot): State {
    var id := s.instrument;
    h.(books := h.books[id := SnapshotContents(s)],
       expected := h.expected[id := Successor(s.seqNum)],
       pending := h.pending - {id})
  }

  function Activated(h: State, id: nat): State {
    h.(states := h.states[id := Active], events := h.events + [StateChanged(id, Active), BookUpdated(id)])
  }

  ghost function AfterSnapshot(h: State, s: BookSnapshot): State {
    var id := s.instrument;
    if id in h.books then
      Activated(Replay(Loaded(h, s), s.seqNum, h.Queue(id), |h.Queue(id)|), id)
    else h
  }

  function MarkedStale(h: State, id: nat): State {
    if id in h.states then h.(states := h.states[id := Stale], events := h.events + [StateChanged(id, Stale)]) else h
  }

  // ----- The handler as an object -----

  /** Applies an update to a book and tells whether the best bid or the best ask changed. */
  method ApplyAndCompare(book: OrderBook, u: BookUpdate) returns (moved: bool)
    modifies book
    ensures book.Value() == Book.ApplyUpdate(old(book.Value()), u)
    ensures moved <==> TopMoved(old(book.Value()), book.Value())
  {
    var oldBid := book.Top(true);
    var oldAsk := book.Top(false);
    book.Apply(u);
    var newBid := book.Top(true);
    var newAsk := book.Top(false);
    moved := oldBid != newBid || oldAsk != newAsk;
  }

  class MarketDataHandler {
    var books: map<nat, OrderBook>
    var states: map<nat, InstrumentState>
    var expected: map<nat, nat>
    var pending: map<nat, seq<BookUpdate>>
    var events: seq<Event>

    ghost predicate Valid()
      reads this`books
    {
      forall i, j :: i in books && j in books && i != j ==> books[i] != books[j]
    }

    ghost function Books(): map<nat, Contents>
      reads this`books, books.Values
    {
      map id | id in books :: books[id].Value()
    }

    ghost function Value(): State
      reads this, books.Values
    {
      State(Books(), states, expected, pending, events)
    }

    constructor ()
      ensures Valid() && Value() == Fresh && fresh(books.Values)
    {
      books, states, expected, pending, events := map[], map[], map[], map[], [];
    }

    method Subscribe(id: nat)
      requires Valid()
      modifies this
      ensures Valid() && fresh(books.Values - old(books.Values))
      ensures Value() == Subscribed(old(Value()), id)
    {
      var book := new OrderBook(id);
      books := books[id := book];
      states := states[id := Initializing];
      expected := expected[id := 0];
      assert Books() == old(Books())[id := Empty];
    }

    method Unsubscribe(id: nat)
      requires Valid()
      modifies this
      ensures Valid() && books.Values <= old(books.Values)
      ensures Value() == Unsubscribed(old(Value()), id)
    {
      books, states, expected, pending := books - {id}, states - {id}, expected - {id}, pending - {id};
    }

    /** Changing one book changes one entry of the abstract map. */
    twostate lemma OneBookChanged(id: nat)
      requires id in books && books == old(books) && old(Valid())
      requires forall i :: i in books && i != id ==> books[i].Value() == old(books[i].Value())
      ensures Books() == old(Books())[id := books[id].Value()]
    {
    }

    /** Applies an update to the one book it is for. */
    method UpdateBook(u: BookUpdate) returns (moved: bool)
      requires Valid() && u.instrument in books
      modifies books.Values
      ensures Books() == old(Books())[u.instrument := Book.ApplyUpdate(old(Books())[u.instrument], u)]
      ensures moved <==> TopMoved(old(Books())[u.instrument], Books()[u.instrument])
    {
      moved := ApplyAndCompare(books[u.instrument], u);
      OneBookChanged(u.instrument);
    }

    method Announce(id: nat, moved: bool)
      modifies this`events
      ensures events == old(events) + [BookUpdated(id)] + (if moved then [TopOfBookChanged(id)] else [])
    {
      events := events + [BookUpdated(id)];
      if moved {
        events := events + [TopOfBookChanged(id)];
      }
    }

    method ApplyUpdate(u: BookUpdate)
      requires Valid()
      modifies this, books.Values
      ensures Valid() && books == old(books)
      ensures Value() == ApplyOne(old(Value()), u)
    {
      var id := u.instrument;
      if id in books {
        var moved := UpdateBook(u);
        expected := expected[id := Successor(u.seqNum)];
        Announce(id, moved);
      }
    }

    method Queue(u: BookUpdate)
      requires Valid()
      modifies this
      ensures Valid() && books == old(books)
      ensures Value() == Enqueue(old(Value()), u)
    {
      var id := u.instrument;
      var queue := if id in pending then pending[id] else [];
      pending := pending[id := queue + [u]];
    }

    /** The gap branch of `on_incremental`. */
    method ReportGap(u: BookUpdate, exp: nat)
      requires Valid()
      modifies this
      ensures Valid() && books == old(books)
      ensures Value() == GapFound(old(Value()), u, exp)
    {
      var id := u.instrument;
      events := events + [GapDetected(id, exp, u.seqNum)];
      states := states[id := Recovering];
      events := events + [StateChanged(id, Recovering)];
      Queue(u);
    }

    method OnIncremental(u: BookUpdate)
      requires Valid()
      modifies this, books.Values
      ensures Valid() && books == old(books)
      ensures Value() == AfterIncremental(old(Value()), u)
    {
      var id := u.instrument;
      var state := if id in states then states[id] else Initializing;
      match state {
        case Initializing =>
          Queue(u);
        case Active =>
          var exp := if id in expected then expected[id] else 0;
          if u.seqNum < exp {
            return;
          }
          if u.seqNum > exp {
            ReportGap(u, exp);
            return;
          }
          ApplyUpdate(u);
        case Recovering =>
          Queue(u);
        case Stale =>
          states := states[id := Recovering];
          Queue(u);
      }
    }

    /** Replaces the one book a snapshot is for. */
    method ReplaceBook(s: BookSnapshot)
      requires Valid() && s.instrument in books
      modifies books.Values
      ensures Books() == old(Books())[s.instrument := SnapshotContents(s)]
    {
      books[s.instrument].ApplySnapshot(s);
      OneBookChanged(s.instrument);
    }

    method Load(s: BookSnapshot) returns (queue: seq<BookUpdate>)
      requires Valid() && s.instrument in books
      modifies this, books.Values
      ensures Valid() && books == old(books)
      ensures queue == old(Value()).Queue(s.instrument)
      ensures Value() == Loaded(old(Value()), s)
    {
      var id := s.instrument;
      ReplaceBook(s);
      expected := expected[id := Successor(s.seqNum)];
      queue := if id in pending then pending[id] else [];
      pending := pending - {id};
    }

    /** The replay loop of `on_snapshot`. */
    method ReplayQueue(n: nat, queue: seq<BookUpdate>)
      requires Valid()
      modifies this, books.Values
      ensures Valid() && books == old(books)
      ensures Value() == Replay(old(Value()), n, queue, |queue|)
    {
      for i := 0 to |queue|
        invariant Valid() && books == old(books)
        invariant Value() == Replay(old(Value()), n, queue, i)
      {
        if queue[i].seqNum >= n {
          ApplyUpdate(queue[i]);
        }
      }
    }

    method Activate(id: nat)
      requires Valid()
      modifies this
      ensures Valid() && books == old(books)
      ensures Value() == Activated(old(Value()), id)
    {
      states := states[id := Active];
      events := events + [StateChanged(id, Active)];
      events := events + [BookUpdated(id)];
    }

    method OnSnapshot(s: BookSnapshot)
      requires Valid()
      modifies this, books.Values
      ensures Valid() && books == old(books)
      ensures Value() == AfterSnapshot(old(Value()), s)
    {
      var id := s.instrument;
      if id in books {
        var queue := Load(s);
        ReplayQueue(s.seqNum, queue);
        Activate(id);
      }
    }

    method MarkStale(id: nat)
      requires Valid()
      modifies this
      ensures Valid() && books == old(books)
      ensures Value() == MarkedStale(old(Value()), id)
    {
      if id in states {
        states := states[id := Stale];
        events := events + [StateChanged(id, Stale)];
      }
    }
  }
}

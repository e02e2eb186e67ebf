/**
The ring under concurrency: producer and consumer take their steps in any interleaving, and each
copy is a series of single-byte accesses in any order. Acquire/release ordering is taken to make
the stores before a counter's publication visible to whoever loads that counter.
*/
module RingProtocol {
  import opened Bytes
  import opened Framing
  import opened Ring

  /** What the producer is doing: nothing, or copying the frame of `msg` behind `head`, having
      loaded `seenTail`; the frame bytes with indices in `stored` are in place. */
  datatype Producer = PIdle | Copying(msg: seq<byte>, seenTail: nat, stored: set<nat>)

  /** What the consumer is doing: nothing, or reading the frame at `tail`, having loaded
      `seenHead`; `got` holds the frame bytes read so far. */
  datatype Consumer = CIdle | Reading(seenHead: nat, got: map<nat, byte>)

  /** Shared memory, the two threads, and the history of messages published and delivered. */
  datatype State = State(
    exponent: nat,
    region: seq<byte>,
    head: nat,
    tail: nat,
    producer: Producer,
    consumer: Consumer,
    published: seq<seq<byte>>,
    delivered: seq<seq<byte>>)
  {
    function Capacity(): (c: nat)
      ensures c > 0
    {
      Pow2(exponent)
    }

    /** The address of the byte `i` places past `counter`, as both sides compute it. */
    function Address(counter: nat, i: nat): (a: nat)
      ensures a < Capacity()
    {
      (BitAnd(counter, Capacity() - 1) + i) % Capacity()
    }

    function Unread(): seq<seq<byte>> {
      if |delivered| <= |published| then published[|delivered|..] else []
    }
  }

  datatype Action =
    | PBegin(msg: seq<byte>)  // load tail, test for space
    | PStore(i: nat)          // store one byte of the frame
    | PPublish                // publish head
    | CBegin                  // load head, test for a message
    | CLoad(i: nat)           // load one byte of the frame
    | CPublish                // publish tail

  function Init(k: nat): State {
    State(k, seq(Pow2(k), _ => 0), 0, 0, PIdle, CIdle, [], [])
  }

  predicate HasPrefix(got: map<nat, byte>) {
    0 in got && 1 in got && 2 in got && 3 in got
  }

  function LengthRead(got: map<nat, byte>): nat
    requires HasPrefix(got)
  {
    FromLE([got[0], got[1], got[2], got[3]])
  }

  predicate FrameRead(got: map<nat, byte>) {
    HasPrefix(got) && forall i :: 0 <= i < 4 + LengthRead(got) ==> i in got
  }

  /** One atomic step; an action that is not possible in a state leaves it as it is. */
  function Step(s: State, a: Action): (t: State)
    requires |s.region| == s.Capacity()
    ensures |t.region| == t.Capacity() && t.exponent == s.exponent
  {
    match a
    case PBegin(msg) =>
      if s.producer.PIdle? && |msg| < U32 && s.Capacity() - (s.head - s.tail) >= 4 + |msg| then
        s.(producer := Copying(msg, s.tail, {}))
      else s
    case PStore(i) =>
      if s.producer.Copying? && i < 4 + |s.producer.msg| then
        s.(region := s.region[s.Address(s.head, i) := Frame(s.producer.msg)[i]],
           producer := s.producer.(stored := s.producer.stored + {i}))
      else s
    case PPublish =>
      if s.producer.Copying? && forall i: nat :: i < 4 + |s.producer.msg| ==> i in s.producer.stored then
        s.(head := s.head + 4 + |s.producer.msg|,
           published := s.published + [s.producer.msg],
           producer := PIdle)
      else s
    case CBegin =>
      if s.consumer.CIdle? && s.tail < s.head then s.(consumer := Reading(s.head, map[])) else s
    case CLoad(i) =>
      if s.consumer.Reading?
         && (i < 4 || (HasPrefix(s.consumer.got) && i < 4 + LengthRead(s.consumer.got))) then
        s.(consumer := s.consumer.(got := s.consumer.got[i := s.region[s.Address(s.tail, i)]]))
      else s
    case CPublish =>
      if s.consumer.Reading? && FrameRead(s.consumer.got) then
        var n := LengthRead(s.consumer.got);
        var data := seq(n, j requires 0 <= j < n => s.consumer.got[4 + j]);
        s.(tail := s.tail + 4 + n, delivered := s.delivered + [data], consumer := CIdle)
      else s
  }

  /** Every interleaving: any finite list of actions. */
  function Run(s: State, actions: seq<Action>): (t: State)
    requires |s.region| == s.Capacity()
    ensures |t.region| == t.Capacity() && t.exponent == s.exponent
    decreases |actions|
  {
    if actions == [] then s else Run(Step(s, actions[0]), actions[1..])
  }

  // ----- The invariant -----

  /** The bytes between `tail` and `head` are the frames of the unread messages. */
  ghost predicate TapeInv(s: State) {
    && |s.region| == s.Capacity()
    && s.delivered <= s.published
    && s.tail <= s.head <= s.tail + s.Capacity()
    && s.head - s.tail == |FrameAll(s.Unread())|
    && WrapRead(s.region, s.tail, s.head - s.tail) == FrameAll(s.Unread())
    && forall i :: 0 <= i < |s.published| ==> |s.published[i]| < U32
  }

  /** The frame under construction fits behind `head` even against a tail loaded long ago, and the
      bytes stored so far are in place. */
  ghost predicate ProducerInv(s: State)
    requires |s.region| == s.Capacity()
  {
    s.producer.Copying? ==>
      var p := s.producer;
      && |p.msg| < U32
      && p.seenTail <= s.tail
      && s.head + 4 + |p.msg| <= p.seenTail + s.Capacity()
      && InPlace(s.region, s.head, Frame(p.msg), p.stored)
  }

  /** The bytes read so far are bytes of the oldest unread message's frame. */
  ghost predicate ConsumerInv(s: State) {
    s.consumer.Reading? ==>
      var c := s.consumer;
      && s.tail < c.seenHead <= s.head
      && s.Unread() != []
      && forall i :: i in c.got ==> i < 4 + |s.Unread()[0]| && c.got[i] == Frame(s.Unread()[0])[i]
  }

  ghost predicate Inv(s: State) {
    TapeInv(s) && ProducerInv(s) && ConsumerInv(s)
  }

  lemma AddressIsCell(s: State, counter: nat, i: nat)
    ensures s.Address(counter, i) == Cell(s.Capacity(), counter + i)
  {
    MaskIsModulo(counter, s.exponent);
    CellShift(s.Capacity(), counter, i);
  }

  /** A store of the producer hits no byte that the consumer has yet to release. */
  lemma StoreIsOutside(s: State, i: nat, p: nat)
    requires Inv(s) && s.producer.Copying? && i < 4 + |s.producer.msg| && s.tail <= p < s.head
    ensures s.Address(s.head, i) != s.Address(p, 0)
  {
    AddressIsCell(s, s.head, i);
    AddressIsCell(s, p, 0);
    CellsDistinct(s.Capacity(), p, s.head + i);
  }

  lemma StoreKeepsByte(s: State, i: nat, b: byte, p: nat)
    requires Inv(s) && s.producer.Copying? && i < 4 + |s.producer.msg| && s.tail <= p < s.head
    ensures s.region[s.Address(s.head, i) := b][Cell(s.Capacity(), p)] == s.region[Cell(s.Capacity(), p)]
  {
    StoreIsOutside(s, i, p);
    AddressIsCell(s, p, 0);
  }

  lemma StoreKeepsTape(s: State, i: nat, b: byte)
    requires Inv(s) && s.producer.Copying? && i < 4 + |s.producer.msg|
    ensures var r := s.region[s.Address(s.head, i) := b];
            WrapRead(r, s.tail, s.head - s.tail) == WrapRead(s.region, s.tail, s.head - s.tail)
  {
    var r := s.region[s.Address(s.head, i) := b];
    var x, y := WrapRead(r, s.tail, s.head - s.tail), WrapRead(s.region, s.tail, s.head - s.tail);
    forall j | 0 <= j < s.head - s.tail
      ensures x[j] == y[j]
    {
      StoreKeepsByte(s, i, b, s.tail + j);
    }
  }

  /** A stored byte and the others already in place do not disturb one another. */
  lemma StoredByte(region: seq<byte>, head: nat, f: seq<byte>, stored: set<nat>, i: nat, j: nat)
    requires 0 < |region| && |f| <= |region| && i < |f| && j in stored + {i}
    requires forall x :: x in stored ==> x < |f| && region[Cell(|region|, head + x)] == f[x]
    ensures j < |f| && region[Cell(|region|, head + i) := f[i]][Cell(|region|, head + j)] == f[j]
  {
    if j < i {
      CellsDistinct(|region|, head + j, head + i);
    } else if i < j {
      CellsDistinct(|region|, head + i, head + j);
    }
  }

  /** The bytes of the frame `f` that are in place behind `head`. */
  ghost predicate InPlace(region: seq<byte>, head: nat, f: seq<byte>, stored: set<nat>)
    requires 0 < |region|
  {
    forall i :: i in stored ==> i < |f| && region[Cell(|region|, head + i)] == f[i]
  }

  lemma StoreInPlace(region: seq<byte>, head: nat, f: seq<byte>, stored: set<nat>, i: nat)
    requires 0 < |region| && |f| <= |region| && i < |f| && InPlace(region, head, f, stored)
    ensures InPlace(region[Cell(|region|, head + i) := f[i]], head, f, stored + {i})
  {
    forall j | j in stored + {i}
      ensures j < |f| && region[Cell(|region|, head + i) := f[i]][Cell(|region|, head + j)] == f[j]
    {
      StoredByte(region, head, f, stored, i, j);
    }
  }

  lemma StoreKeepsFrame(s: State, i: nat, t: State)
    requires Inv(s) && s.producer.Copying? && i < 4 + |s.producer.msg| && t == Step(s, PStore(i))
    ensures ProducerInv(t)
  {
    AddressIsCell(s, s.head, i);
    StoreInPlace(s.region, s.head, Frame(s.producer.msg), s.producer.stored, i);
  }

  lemma StepPStore(s: State, i: nat)
    requires Inv(s)
    ensures Inv(Step(s, PStore(i)))
  {
    if s.producer.Copying? && i < 4 + |s.producer.msg| {
      StoreKeepsTape(s, i, Frame(s.producer.msg)[i]);
      StoreKeepsFrame(s, i, Step(s, PStore(i)));
    }
  }

  /** A fully stored frame can be read at `head`. */
  lemma FrameInPlace(s: State)
    requires Inv(s) && s.producer.Copying?
    requires forall i: nat :: i < 4 + |s.producer.msg| ==> i in s.producer.stored
    ensures WrapRead(s.region, s.head, 4 + |s.producer.msg|) == Frame(s.producer.msg)
  {
    var f := Frame(s.producer.msg);
    forall j | 0 <= j < |f|
      ensures WrapRead(s.region, s.head, |f|)[j] == f[j]
    {
      assert j in s.producer.stored;
    }
  }

  /** The tape with the new frame at its end. */
  lemma PublishTape(s: State, m: seq<byte>)
    requires Inv(s) && s.producer.Copying? && s.producer.msg == m
    requires forall i: nat :: i < 4 + |m| ==> i in s.producer.stored
    ensures WrapRead(s.region, s.tail, s.head - s.tail + (4 + |m|)) == FrameAll(s.Unread() + [m])
  {
    FrameInPlace(s);
    TapeGrows(s.region, s.tail, s.head - s.tail, s.Unread(), m);
  }

  lemma UnreadGrows(s: State, t: State, m: seq<byte>)
    requires s.delivered <= s.published && t.published == s.published + [m] && t.delivered == s.delivered
    ensures t.Unread() == s.Unread() + [m]
  {
  }

  lemma PublishKeepsTape(s: State, t: State)
    requires Inv(s) && t == Step(s, PPublish) && t != s
    ensures TapeInv(t)
  {
    var m := s.producer.msg;
    UnreadGrows(s, t, m);
    PublishTape(s, m);
    assert t.head - t.tail == s.head - s.tail + (4 + |m|);
  }

  lemma StepPPublish(s: State)
    requires Inv(s)
    ensures Inv(Step(s, PPublish))
  {
    var t := Step(s, PPublish);
    if t != s {
      PublishKeepsTape(s, t);
      UnreadGrows(s, t, s.producer.msg);
    }
  }

  /** Something is unread whenever the counters differ. */
  lemma NonEmptyTape(s: State)
    requires Inv(s) && s.tail < s.head
    ensures s.Unread() != [] && |s.Unread()[0]| < U32
    ensures 4 + |s.Unread()[0]| <= s.head - s.tail
    ensures s.Unread()[0] == s.published[|s.delivered|]
  {
    assert s.Unread() == [] ==> |FrameAll(s.Unread())| == 0;
  }

  /** What the length bytes say once they are read. */
  lemma LengthIsRight(s: State)
    requires Inv(s) && s.consumer.Reading? && HasPrefix(s.consumer.got)
    ensures s.Unread() != [] && LengthRead(s.consumer.got) == |s.Unread()[0]|
  {
    var got, m := s.consumer.got, s.Unread()[0];
    NonEmptyTape(s);
    assert [got[0], got[1], got[2], got[3]] == LE(|m|, 4);
    Pow256Values();
    LERoundTrip(|m|, 4);
  }

  /** Each byte the consumer may load is a byte of the oldest unread frame. */
  lemma LoadedByte(s: State, i: nat)
    requires Inv(s) && s.tail < s.head && s.Unread() != [] && i < 4 + |s.Unread()[0]|
    ensures s.region[s.Address(s.tail, i)] == Frame(s.Unread()[0])[i]
  {
    NonEmptyTape(s);
    AddressIsCell(s, s.tail, i);
    var w := WrapRead(s.region, s.tail, s.head - s.tail);
    assert w[i] == s.region[Cell(s.Capacity(), s.tail + i)];
    assert w[i] == FrameAll(s.Unread())[i];
  }

  /** A byte that may be loaded belongs to the oldest unread frame. */
  lemma LoadIsInFrame(s: State, i: nat)
    requires Inv(s) && s.consumer.Reading?
    requires i < 4 || (HasPrefix(s.consumer.got) && i < 4 + LengthRead(s.consumer.got))
    ensures i < 4 + |s.Unread()[0]| && s.region[s.Address(s.tail, i)] == Frame(s.Unread()[0])[i]
  {
    if HasPrefix(s.consumer.got) {
      LengthIsRight(s);
    }
    LoadedByte(s, i);
  }

  /** Tape and producer depend on their own parts of the state only. */
  lemma SameTape(s: State, t: State)
    requires TapeInv(s) && ProducerInv(s) && t == s.(consumer := t.consumer)
    ensures TapeInv(t) && ProducerInv(t) && t.Unread() == s.Unread()
  {
  }

  lemma LoadKeeps(s: State, i: nat, t: State)
    requires Inv(s) && s.consumer.Reading? && i < 4 + |s.Unread()[0]|
    requires t == s.(consumer := s.consumer.(got := s.consumer.got[i := Frame(s.Unread()[0])[i]]))
    ensures Inv(t)
  {
    SameTape(s, t);
    assert ConsumerInv(t);
  }

  lemma StepCLoad(s: State, i: nat)
    requires Inv(s)
    ensures Inv(Step(s, CLoad(i)))
  {
    if s.consumer.Reading?
       && (i < 4 || (HasPrefix(s.consumer.got) && i < 4 + LengthRead(s.consumer.got))) {
      LoadIsInFrame(s, i);
      LoadKeeps(s, i, Step(s, CLoad(i)));
    }
  }

  /** A finished read has collected the oldest unread message. */
  lemma ReadIsOldest(s: State)
    requires Inv(s) && s.consumer.Reading? && FrameRead(s.consumer.got)
    ensures s.Unread() != []
    ensures Step(s, CPublish) == Released(s)
  {
    LengthIsRight(s);
    var got, m := s.consumer.got, s.Unread()[0];
    var data := seq(|m|, j requires 0 <= j < |m| => got[4 + j]);
    forall j | 0 <= j < |m|
      ensures data[j] == m[j]
    {
      assert 4 + j in got;
      assert Frame(m)[4 + j] == m[j];
    }
    assert data == m;
  }

  /** The state after the oldest unread message was handed over. */
  function Released(s: State): State
    requires s.Unread() != []
  {
    var m := s.Unread()[0];
    s.(tail := s.tail + 4 + |m|, delivered := s.delivered + [m], consumer := CIdle)
  }

  lemma ReleaseKeepsInv(s: State)
    requires Inv(s) && s.tail < s.head && s.Unread() != []
    ensures Inv(Released(s))
  {
    var t, q := Released(s), s.Unread();
    NonEmptyTape(s);
    assert t.Unread() == q[1..];
    FrontFrame(s.region, s.tail, q);
    assert |FrameAll(q)| == 4 + |q[0]| + |FrameAll(q[1..])|;
    assert t.tail == s.tail + (4 + |q[0]|);
    assert s.published[..|t.delivered|] == t.delivered;
  }

  lemma StepCPublish(s: State)
    requires Inv(s)
    ensures Inv(Step(s, CPublish))
  {
    if s.consumer.Reading? && FrameRead(s.consumer.got) {
      ReadIsOldest(s);
      ReleaseKeepsInv(s);
    }
  }

  lemma StepPBegin(s: State, m: seq<byte>)
    requires Inv(s)
    ensures Inv(Step(s, PBegin(m)))
  {
    var t := Step(s, PBegin(m));
    assert t.Unread() == s.Unread();
    assert TapeInv(t);
  }

  lemma StepCBegin(s: State)
    requires Inv(s)
    ensures Inv(Step(s, CBegin))
  {
    var t := Step(s, CBegin);
    SameTape(s, t);
    if t != s {
      NonEmptyTape(s);
    }
  }

  lemma StepInv(s: State, a: Action)
    requires Inv(s)
    ensures Inv(Step(s, a))
  {
    match a
    case PBegin(m) => StepPBegin(s, m);
    case PStore(i) => StepPStore(s, i);
    case PPublish => StepPPublish(s);
    case CBegin => StepCBegin(s);
    case CLoad(i) => StepCLoad(s, i);
    case CPublish => StepCPublish(s);
  }

  lemma {:induction false} RunInv(s: State, actions: seq<Action>)
    requires Inv(s)
    ensures Inv(Run(s, actions))
    decreases |actions|
  {
    if actions != [] {
      StepInv(s, actions[0]);
      RunInv(Step(s, actions[0]), actions[1..]);
    }
  }

  lemma Reachable(k: nat, actions: seq<Action>)
    ensures Inv(Run(Init(k), actions))
  {
    assert WrapRead(Init(k).region, 0, 0) == [];
    RunInv(Init(k), actions);
  }

  // ----- What the protocol guarantees -----

  /** In every interleaving the messages read are, byte for byte and in order, a prefix of the
      messages published. */
  lemma DeliveredIsPrefix(k: nat, actions: seq<Action>)
    ensures Run(Init(k), actions).delivered <= Run(Init(k), actions).published
  {
    Reachable(k, actions);
  }

  /** In every reachable state the counters are at most a capacity apart, and their distance is the
      space taken by the frames of the unread messages. */
  lemma CounterAccounting(k: nat, actions: seq<Action>)
    ensures var s := Run(Init(k), actions);
            && 0 <= s.head - s.tail <= Pow2(k)
            && s.delivered <= s.published
            && s.head - s.tail == |FrameAll(s.published[|s.delivered|..])|
  {
    Reachable(k, actions);
  }

  /** No interleaving lets a byte store of the producer hit a byte between `tail` and `head`. */
  lemma NoOverwrite(k: nat, actions: seq<Action>, i: nat, p: nat)
    requires var s := Run(Init(k), actions);
             s.producer.Copying? && i < 4 + |s.producer.msg| && s.tail <= p < s.head
    ensures var s := Run(Init(k), actions);
            s.Address(s.head, i) != s.Address(p, 0)
  {
    Reachable(k, actions);
    StoreIsOutside(Run(Init(k), actions), i, p);
  }

  // ----- The uninterrupted write -----

  /** The byte stores of one frame, in order. */
  function Stores(n: nat): (acts: seq<Action>)
    ensures |acts| == n
  {
    if n == 0 then [] else Stores(n - 1) + [PStore(n - 1)]
  }

  function Below(n: nat): (r: set<nat>)
    ensures forall i: nat :: i in r <==> i < n
  {
    if n == 0 then {} else Below(n - 1) + {n - 1}
  }

  /** The state in which the first `n` bytes of the frame are stored. */
  function Stored(s: State, n: nat): (t: State)
    requires |s.region| == s.Capacity() && s.producer.Copying?
    requires n <= 4 + |s.producer.msg| <= s.Capacity()
    ensures |t.region| == t.Capacity() && t.exponent == s.exponent
  {
    s.(region := WrapWrite(s.region, s.head, Frame(s.producer.msg)[..n]),
       producer := s.producer.(stored := Below(n)))
  }

  lemma StoreIsWrite(s: State, i: nat, b: byte)
    requires |s.region| == s.Capacity()
    ensures s.region[s.Address(s.head, i) := b] == WrapWrite(s.region, s.head + i, [b])
  {
    var cap, p := s.Capacity(), s.head + i;
    AddressIsCell(s, s.head, i);
    var x, y := s.region[Cell(cap, p) := b], WrapWrite(s.region, p, [b]);
    forall c | 0 <= c < cap
      ensures x[c] == y[c]
    {
      CellFromRelative(cap, p, c);
    }
  }

  lemma StoreOne(s: State, n: nat)
    requires |s.region| == s.Capacity() && s.producer.Copying?
    requires n < 4 + |s.producer.msg| <= s.Capacity()
    ensures Step(Stored(s, n), PStore(n)) == Stored(s, n + 1)
  {
    var f := Frame(s.producer.msg);
    StoreIsWrite(Stored(s, n), n, f[n]);
    WriteTwice(s.region, s.head, f[..n], [f[n]]);
    assert f[..n] + [f[n]] == f[..n + 1];
  }

  lemma {:induction false} RunStores(s: State, n: nat)
    requires |s.region| == s.Capacity() && s.producer.Copying?
    requires n <= 4 + |s.producer.msg| <= s.Capacity()
    ensures Run(Stored(s, 0), Stores(n)) == Stored(s, n)
  {
    if n != 0 {
      RunStores(s, n - 1);
      RunAppend(Stored(s, 0), Stores(n - 1), [PStore(n - 1)]);
      StoreOne(s, n - 1);
      RunOne(Stored(s, n - 1), PStore(n - 1));
    }
  }

  lemma RunOne(s: State, a: Action)
    requires |s.region| == s.Capacity()
    ensures Run(s, [a]) == Step(s, a)
  {
    assert Run(s, [a]) == Run(Step(s, a), []);
  }

  /** With no consumer step in between, the producer's steps have the effect of the single
      sequential write: the frame laid on the tape at `head`, and `head` advanced past it. */
  lemma SoloWrite(s: State, m: seq<byte>)
    requires Inv(s) && s.producer.PIdle? && |m| < U32
    requires 4 + |m| <= s.Capacity() - (s.head - s.tail)
    ensures Run(s, [PBegin(m)] + Stores(4 + |m|) + [PPublish])
            == s.(region := WrapWrite(s.region, s.head, Frame(m)),
                  head := s.head + 4 + |m|,
                  published := s.published + [m])
  {
    var u, n := Step(s, PBegin(m)), 4 + |m|;
    RunAppend(s, [PBegin(m)] + Stores(n), [PPublish]);
    RunAppend(s, [PBegin(m)], Stores(n));
    RunOne(s, PBegin(m));
    WriteNothing(s.region, s.head);
    assert Frame(m)[..0] == [];
    RunStores(u, n);
    assert Frame(m)[..n] == Frame(m);
    RunOne(Stored(u, n), PPublish);
  }

  lemma WriteNothing(region: seq<byte>, pos: nat)
    requires 0 < |region|
    ensures WrapWrite(region, pos, []) == region
  {
    var r := WrapWrite(region, pos, []);
    forall i | 0 <= i < |region|
      ensures r[i] == region[i]
    {
      assert Cell(|region|, i - pos) >= 0;
    }
  }

  lemma {:induction false} RunAppend(s: State, xs: seq<Action>, ys: seq<Action>)
    requires |s.region| == s.Capacity()
    ensures Run(s, xs + ys) == Run(Run(s, xs), ys)
    decreases |xs|
  {
    if xs == [] {
      assert xs + ys == ys;
    } else {
      assert (xs + ys)[1..] == xs[1..] + ys;
      RunAppend(Step(s, xs[0]), xs[1..], ys);
    }
  }
}

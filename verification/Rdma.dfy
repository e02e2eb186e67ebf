/**
RDMA completion-queue flow control (ironsbe-transport-rdma/src/connection.rs): one completion queue
shared by sends and receives, drained by watermarks, against a network card that completes posted
work whenever and in whatever order it likes. Failed verbs and failed completions end a run.
*/
module Rdma {
  import opened Bytes

  const RecvDepth: nat := 16
  const CqCapacity: nat := 32
  const HighWater: nat := CqCapacity - RecvDepth
  const LowWater: nat := HighWater / 2

  // ----- The connection's own bookkeeping -----

  datatype Completion = SendDone | RecvDone(idx: nat, len: nat) | OtherDone

  /** A receive completion taken off the queue and not yet handed to the caller. */
  datatype PendingRecv = PendingRecv(idx: nat, len: nat)

  datatype Books = Books(pendingSends: nat, pendingRecvs: seq<PendingRecv>)

  /** What `drain_cq` does with a successful completion; the counter saturates at zero. */
  function Drained(b: Books, c: Completion): Books {
    match c
    case SendDone => b.(pendingSends := if b.pendingSends == 0 then 0 else b.pendingSends - 1)
    case RecvDone(idx, len) => b.(pendingRecvs := b.pendingRecvs + [PendingRecv(idx, len)])
    case OtherDone => b
  }

  datatype Outcome = Malformed | Oversized | Truncated | Payload(bytes: seq<byte>)

  /** The framing rules applied to what arrived in a receive buffer. */
  function Parse(max: nat, raw: seq<byte>): Outcome {
    if |raw| < 4 then Malformed
    else if FromLE(raw[..4]) > max then Oversized
    else if 4 + FromLE(raw[..4]) > |raw| then Truncated
    else Payload(raw[4..4 + FromLE(raw[..4])])
  }

  lemma FramePieces(p: seq<byte>, m: seq<byte>, padding: seq<byte>)
    ensures (p + m + padding)[..|p|] == p
    ensures (p + m + padding)[|p|..|p| + |m|] == m
  {
  }

  /** A frame that was sent whole is received whole. */
  lemma ParseFrame(max: nat, m: seq<byte>, padding: seq<byte>)
    requires |m| <= max && |m| < U32
    ensures Parse(max, LE(|m|, 4) + m + padding) == Payload(m)
  {
    FramePieces(LE(|m|, 4), m, padding);
    assert FromLE(LE(|m|, 4)) == |m| by {
      Pow256Values();
      LERoundTrip(|m|, 4);
    }
  }

  // ----- The system: connection and network card -----

  datatype Phase = Idle | Draining | Receiving

  /** The connection's bookkeeping and what it is busy with; sends posted and not completed; receive
      buffers posted; the completion queue; what lies in each receive buffer; and the history of
      receive completions and of values returned by `recv`. */
  datatype State = State(
    books: Books,
    phase: Phase,
    inFlight: nat,
    posted: set<nat>,
    cq: seq<Completion>,
    buffers: map<nat, seq<byte>>,
    arrived: seq<seq<byte>>,
    results: seq<Outcome>)

  /** After setup: all receive buffers posted, nothing else. */
  ghost predicate Start(s: State) {
    && s == State(Books(0, []), Idle, 0, s.posted, [], map[], [], [])
    && forall b: nat :: b in s.posted <==> b < RecvDepth
  }

  datatype Action =
    | NicSend                            // the card completes a send
    | NicRecv(idx: nat, raw: seq<byte>)  // the card fills a posted buffer
    | CallSend                           // the application calls send
    | CallRecv                           // the application calls recv
    | Poll                               // a waiting call polls the queue once

  function PostSend(s: State): State {
    s.(books := s.books.(pendingSends := s.books.pendingSends + 1), inFlight := s.inFlight + 1, phase := Idle)
  }

  /** Hand the oldest pending receive to the caller and post its buffer again. */
  function Deliver(s: State, max: nat): State
    requires s.books.pendingRecvs != []
  {
    var p := s.books.pendingRecvs[0];
    var raw := if p.idx in s.buffers && p.len <= |s.buffers[p.idx]| then s.buffers[p.idx][..p.len] else [];
    s.(books := s.books.(pendingRecvs := s.books.pendingRecvs[1..]),
       posted := s.posted + {p.idx},
       results := s.results + [Parse(max, raw)],
       phase := Idle)
  }

  /** Take the oldest completion off the queue. */
  function Polled(s: State): State
    requires s.cq != []
  {
    s.(books := Drained(s.books, s.cq[0]), cq := s.cq[1..])
  }

  function Step(s: State, a: Action, max: nat): State {
    match a
    case NicSend =>
      if s.inFlight > 0 then s.(inFlight := s.inFlight - 1, cq := s.cq + [SendDone]) else s
    case NicRecv(idx, raw) =>
      if idx in s.posted && |raw| <= 4 + max then
        s.(posted := s.posted - {idx}, buffers := s.buffers[idx := raw],
           cq := s.cq + [RecvDone(idx, |raw|)], arrived := s.arrived + [raw])
      else s
    case CallSend =>
      if !s.phase.Idle? then s
      else if s.books.pendingSends >= HighWater then s.(phase := Draining)
      else PostSend(s)
    case CallRecv =>
      if !s.phase.Idle? then s
      else if s.books.pendingRecvs != [] then Deliver(s, max)
      else s.(phase := Receiving)
    case Poll =>
      if s.phase.Idle? || s.cq == [] then s
      else
        var t := Polled(s);
        if s.phase.Draining? then (if t.books.pendingSends < LowWater then PostSend(t) else t)
        else if s.cq[0].RecvDone? && t.books.pendingRecvs != [] then Deliver(t, max)
        else t
  }

  function Run(s: State, acts: seq<Action>, max: nat): State
    decreases |acts|
  {
    if acts == [] then s else Run(Step(s, acts[0], max), acts[1..], max)
  }

  // ----- The invariant -----

  function Sends(cq: seq<Completion>): nat
    decreases |cq|
  {
    if cq == [] then 0 else (if cq[0].SendDone? then 1 else 0) + Sends(cq[1..])
  }

  function Recvs(cq: seq<Completion>): seq<PendingRecv>
    decreases |cq|
  {
    if cq == [] then []
    else if cq[0].RecvDone? then [PendingRecv(cq[0].idx, cq[0].len)] + Recvs(cq[1..])
    else Recvs(cq[1..])
  }

  predicate NoStrays(cq: seq<Completion>) {
    forall i :: 0 <= i < |cq| ==> !cq[i].OtherDone?
  }

  lemma {:induction false} CqAppend(cq: seq<Completion>, c: Completion)
    ensures Sends(cq + [c]) == Sends(cq) + (if c.SendDone? then 1 else 0)
    ensures Recvs(cq + [c]) == Recvs(cq) + (if c.RecvDone? then [PendingRecv(c.idx, c.len)] else [])
    decreases |cq|
  {
    if cq == [] {
      assert [c][1..] == [];
    } else {
      assert (cq + [c])[1..] == cq[1..] + [c];
      CqAppend(cq[1..], c);
    }
  }

  lemma {:induction false} CqSize(cq: seq<Completion>)
    requires NoStrays(cq)
    ensures |cq| == Sends(cq) + |Recvs(cq)|
    decreases |cq|
  {
    if cq != [] {
      CqSize(cq[1..]);
    }
  }

  /** Receive completions the caller has not been given yet, oldest first. */
  function Outstanding(s: State): seq<PendingRecv> {
    s.books.pendingRecvs + Recvs(s.cq)
  }

  predicate Distinct(ps: seq<PendingRecv>) {
    forall i, j :: 0 <= i < j < |ps| ==> ps[i].idx != ps[j].idx
  }

  predicate Holds(ps: seq<PendingRecv>, b: nat) {
    exists i :: 0 <= i < |ps| && ps[i].idx == b
  }

  /** Each of the buffers 0..n-1 is in exactly one place: posted, or behind one outstanding
      completion. */
  ghost predicate OnePlaceEach(ps: seq<PendingRecv>, posted: set<nat>, n: nat) {
    && Distinct(ps)
    && (forall i :: 0 <= i < |ps| ==> ps[i].idx < n && ps[i].idx !in posted)
    && (forall b :: b in posted ==> b < n)
    && (forall b: nat :: b < n ==> b in posted || Holds(ps, b))
  }

  ghost predicate BuffersInv(s: State) {
    OnePlaceEach(Outstanding(s), s.posted, RecvDepth)
  }

  /** Every send posted and not yet accounted for is in flight or in the queue, and there are at most
      as many as the queue can hold beside the receives. */
  ghost predicate SendsInv(s: State) {
    && s.books.pendingSends == s.inFlight + Sends(s.cq)
    && s.books.pendingSends <= HighWater
  }

  /** The buffers of the outstanding completions hold what arrived, in order of arrival, and what was
      returned so far is what arrived before that. */
  ghost predicate HistoryInv(s: State, max: nat) {
    var ps := Outstanding(s);
    && |s.arrived| == |s.results| + |ps|
    && (forall i :: 0 <= i < |s.results| ==> s.results[i] == Parse(max, s.arrived[i]))
    && (forall i :: 0 <= i < |ps| ==>
          && ps[i].idx in s.buffers
          && s.buffers[ps[i].idx] == s.arrived[|s.results| + i]
          && ps[i].len == |s.arrived[|s.results| + i]|)
  }

  ghost predicate Inv(s: State, max: nat) {
    && NoStrays(s.cq) && SendsInv(s) && BuffersInv(s) && HistoryInv(s, max)
    && (s.phase.Receiving? ==> s.books.pendingRecvs == [])
  }

  function Upto(n: nat): (r: set<nat>)
    ensures |r| == n && forall i: nat :: i in r <==> i < n
  {
    if n == 0 then {} else Upto(n - 1) + {n - 1}
  }

  function Indices(ps: seq<PendingRecv>, m: nat): set<nat>
    requires m <= |ps|
  {
    if m == 0 then {} else Indices(ps, m - 1) + {ps[m - 1].idx}
  }

  lemma {:induction false} IndexIn(ps: seq<PendingRecv>, m: nat, b: nat)
    requires m <= |ps|
    ensures b in Indices(ps, m) <==> exists i :: 0 <= i < m && ps[i].idx == b
  {
    if m > 0 {
      IndexIn(ps, m - 1, b);
    }
  }

  lemma {:induction false} IndicesSize(ps: seq<PendingRecv>, m: nat)
    requires m <= |ps| && Distinct(ps)
    ensures |Indices(ps, m)| == m
  {
    if m > 0 {
      IndicesSize(ps, m - 1);
      IndexIn(ps, m - 1, ps[m - 1].idx);
    }
  }

  /** So posted buffers and outstanding completions add up. */
  lemma PlacesAddUp(ps: seq<PendingRecv>, posted: set<nat>, n: nat)
    requires OnePlaceEach(ps, posted, n)
    ensures |posted| + |ps| == n
  {
    var taken := Indices(ps, |ps|);
    IndicesSize(ps, |ps|);
    forall b: nat
      ensures b in taken <==> Holds(ps, b)
    {
      IndexIn(ps, |ps|, b);
    }
    assert taken !! posted;
    assert taken + posted == Upto(n);
    assert |taken + posted| == |taken| + |posted|;
  }

  /** Never more than the queue can hold. */
  lemma CqBounded(s: State, max: nat)
    requires Inv(s, max)
    ensures |s.cq| <= CqCapacity
    ensures |s.posted| + |Outstanding(s)| == RecvDepth
  {
    CqSize(s.cq);
    PlacesAddUp(Outstanding(s), s.posted, RecvDepth);
  }

  // ----- Every step keeps the invariant -----

  lemma NicSendKeeps(s: State, max: nat)
    requires Inv(s, max)
    ensures Inv(Step(s, NicSend, max), max)
  {
    CqAppend(s.cq, SendDone);
    if s.inFlight > 0 {
      assert Outstanding(Step(s, NicSend, max)) == Outstanding(s);
    }
  }

  /** One more outstanding completion. */
  lemma OneMore(ps: seq<PendingRecv>, posted: set<nat>, n: nat, p: PendingRecv)
    requires OnePlaceEach(ps, posted, n) && p.idx in posted
    ensures OnePlaceEach(ps + [p], posted - {p.idx}, n)
  {
    var qs := ps + [p];
    assert forall i :: 0 <= i < |ps| ==> qs[i] == ps[i];
    forall b: nat | b < n
      ensures b in posted - {p.idx} || Holds(qs, b)
    {
      if b == p.idx {
        assert qs[|ps|].idx == b;
      } else if b !in posted {
        var i :| 0 <= i < |ps| && ps[i].idx == b;
        assert qs[i].idx == b;
      }
    }
  }

  /** The history with one more arrival. */
  lemma ArrivalHistory(s: State, p: PendingRecv, raw: seq<byte>, t: State, max: nat)
    requires HistoryInv(s, max) && BuffersInv(s) && p.idx in s.posted && p.len == |raw|
    requires Outstanding(t) == Outstanding(s) + [p] && t.results == s.results
    requires t.arrived == s.arrived + [raw] && t.buffers == s.buffers[p.idx := raw]
    ensures HistoryInv(t, max)
  {
    var ps, qs := Outstanding(s), Outstanding(t);
    assert forall i :: 0 <= i < |ps| ==> qs[i] == ps[i] && ps[i].idx != p.idx;
  }

  lemma NicRecvKeeps(s: State, idx: nat, raw: seq<byte>, max: nat)
    requires Inv(s, max)
    ensures Inv(Step(s, NicRecv(idx, raw), max), max)
  {
    if idx in s.posted && |raw| <= 4 + max {
      var t, ps, p := Step(s, NicRecv(idx, raw), max), Outstanding(s), PendingRecv(idx, |raw|);
      CqAppend(s.cq, RecvDone(idx, |raw|));
      assert Outstanding(t) == ps + [p];
      OneMore(ps, s.posted, RecvDepth, p);
      ArrivalHistory(s, p, raw, t, max);
    }
  }

  /** The oldest outstanding completion is handed over and its buffer posted. */
  lemma OneLess(ps: seq<PendingRecv>, posted: set<nat>, n: nat)
    requires ps != [] && OnePlaceEach(ps, posted, n)
    ensures OnePlaceEach(ps[1..], posted + {ps[0].idx}, n)
  {
    var qs := ps[1..];
    assert forall i :: 0 <= i < |qs| ==> qs[i] == ps[i + 1];
    forall b: nat | b < n
      ensures b in posted + {ps[0].idx} || Holds(qs, b)
    {
      if b !in posted && b != ps[0].idx {
        var i :| 0 <= i < |ps| && ps[i].idx == b;
        assert qs[i - 1].idx == b;
      }
    }
  }

  lemma DeliverHistory(s: State, max: nat)
    requires HistoryInv(s, max) && s.books.pendingRecvs != []
    ensures Outstanding(Deliver(s, max)) == Outstanding(s)[1..]
    ensures HistoryInv(Deliver(s, max), max)
  {
    var t, ps := Deliver(s, max), Outstanding(s);
    assert Outstanding(t) == ps[1..];
    assert s.books.pendingRecvs[0] == ps[0];
    var raw := s.arrived[|s.results|];
    assert s.buffers[ps[0].idx] == s.arrived[|s.results| + 0] == raw;
    assert raw[..|raw|] == raw;
    forall i | 0 <= i < |ps| - 1
      ensures t.buffers[ps[1..][i].idx] == s.arrived[|t.results| + i]
    {
      assert ps[1..][i] == ps[i + 1] && s.arrived[|s.results| + (i + 1)] == s.arrived[|t.results| + i];
    }
  }

  lemma DeliverKeeps(s: State, max: nat)
    requires NoStrays(s.cq) && SendsInv(s) && BuffersInv(s) && HistoryInv(s, max) && s.books.pendingRecvs != []
    ensures Inv(Deliver(s, max), max)
  {
    DeliverHistory(s, max);
    assert s.books.pendingRecvs[0] == Outstanding(s)[0];
    OneLess(Outstanding(s), s.posted, RecvDepth);
  }

  /** A poll moves a completion and loses nothing: in particular a send completion always finds a
      positive count, so the saturating decrement never saturates. */
  lemma PolledKeeps(s: State, max: nat)
    requires Inv(s, max) && s.cq != []
    ensures var t := Polled(s);
            && NoStrays(t.cq) && SendsInv(t) && BuffersInv(t) && HistoryInv(t, max)
            && Outstanding(t) == Outstanding(s)
            && (s.cq[0].SendDone? ==> s.books.pendingSends > 0 && t.books.pendingSends == s.books.pendingSends - 1)
  {
    var t := Polled(s);
    assert !s.cq[0].OtherDone?;
    assert Outstanding(t) == Outstanding(s);
  }

  lemma PollKeeps(s: State, max: nat)
    requires Inv(s, max)
    ensures Inv(Step(s, Poll, max), max)
  {
    if !s.phase.Idle? && s.cq != [] {
      PolledKeeps(s, max);
      var t := Polled(s);
      if s.phase.Draining? {
        assert Outstanding(PostSend(t)) == Outstanding(t);
      } else if s.cq[0].RecvDone? {
        DeliverKeeps(t, max);
      }
    }
  }

  lemma CallKeeps(s: State, a: Action, max: nat)
    requires Inv(s, max) && (a.CallSend? || a.CallRecv?)
    ensures Inv(Step(s, a, max), max)
  {
    if s.phase.Idle? {
      if a.CallSend? {
        assert Outstanding(PostSend(s)) == Outstanding(s) == Outstanding(s.(phase := Draining));
      } else if s.books.pendingRecvs != [] {
        DeliverKeeps(s, max);
      } else {
        assert Outstanding(s.(phase := Receiving)) == Outstanding(s);
      }
    }
  }

  lemma StepKeeps(s: State, a: Action, max: nat)
    requires Inv(s, max)
    ensures Inv(Step(s, a, max), max)
  {
    match a
    case NicSend => NicSendKeeps(s, max);
    case NicRecv(idx, raw) => NicRecvKeeps(s, idx, raw, max);
    case Poll => PollKeeps(s, max);
    case _ => CallKeeps(s, a, max);
  }

  lemma StartInv(s: State, max: nat)
    requires Start(s)
    ensures Inv(s, max)
  {
    assert Outstanding(s) == [];
  }

  lemma {:induction false} RunKeeps(s: State, acts: seq<Action>, max: nat)
    requires Inv(s, max)
    ensures Inv(Run(s, acts, max), max)
    decreases |acts|
  {
    if acts != [] {
      StepKeeps(s, acts[0], max);
      RunKeeps(Step(s, acts[0], max), acts[1..], max);
    }
  }

  // ----- What holds in every run -----

  /** Whatever the card does and whenever the application sends and receives: the completion queue
      never overflows, and sends in flight plus send completions are what the counter says, at most
      the high-water mark. */
  lemma NeverOverflows(s0: State, acts: seq<Action>, max: nat)
    requires Start(s0)
    ensures var s := Run(s0, acts, max);
            && |s.cq| <= CqCapacity
            && s.inFlight + Sends(s.cq) == s.books.pendingSends <= HighWater
  {
    StartInv(s0, max);
    RunKeeps(s0, acts, max);
    CqBounded(Run(s0, acts, max), max);
  }

  /** Every receive buffer is posted or behind exactly one outstanding completion, never both and
      never neither. */
  lemma BuffersAccounted(s0: State, acts: seq<Action>, max: nat)
    requires Start(s0)
    ensures var s := Run(s0, acts, max);
            && OnePlaceEach(Outstanding(s), s.posted, RecvDepth)
            && |s.posted| + |Outstanding(s)| == RecvDepth
  {
    StartInv(s0, max);
    RunKeeps(s0, acts, max);
    CqBounded(Run(s0, acts, max), max);
  }

  /** `recv` returns what arrived, each arrival once and in order of arrival, whatever sends drained
      the queue in between; and no buffer was overwritten before it was read. */
  lemma ReceivedInOrder(s0: State, acts: seq<Action>, max: nat)
    requires Start(s0)
    ensures var s := Run(s0, acts, max);
            && |s.results| <= |s.arrived|
            && forall i :: 0 <= i < |s.results| ==> s.results[i] == Parse(max, s.arrived[i])
  {
    StartInv(s0, max);
    RunKeeps(s0, acts, max);
  }

  // ----- Draining ends -----

  /** Sends still counted plus receives not yet taken off the queue. */
  function Measure(s: State): nat {
    s.books.pendingSends + |Recvs(s.cq)| + |s.posted|
  }

  /** The number of polls in a run that found a completion. */
  function FruitfulPolls(s: State, acts: seq<Action>, max: nat): nat
    decreases |acts|
  {
    if acts == [] then 0
    else
      var here := if acts[0].Poll? && !s.phase.Idle? && s.cq != [] then 1 else 0;
      here + FruitfulPolls(Step(s, acts[0], max), acts[1..], max)
  }

  /** The call stays inside `drain_until_low_water` throughout the run. */
  predicate StaysDraining(s: State, acts: seq<Action>, max: nat)
    decreases |acts|
  {
    s.phase.Draining? && (acts == [] || StaysDraining(Step(s, acts[0], max), acts[1..], max))
  }

  lemma DrainingStep(s: State, a: Action, max: nat)
    requires Inv(s, max) && s.phase.Draining? && Step(s, a, max).phase.Draining?
    ensures Measure(Step(s, a, max)) == Measure(s) - (if a.Poll? && s.cq != [] then 1 else 0)
  {
    match a
    case NicSend => CqAppend(s.cq, SendDone);
    case NicRecv(idx, raw) => CqAppend(s.cq, RecvDone(idx, |raw|));
    case Poll =>
      if s.cq != [] {
        PolledKeeps(s, max);
      }
    case _ =>
  }

  /** A drain makes finitely many polls that find something: each one lowers the measure by one, and
      nothing raises it. */
  lemma {:induction false} DrainBudget(s: State, acts: seq<Action>, max: nat)
    requires Inv(s, max) && StaysDraining(s, acts, max)
    ensures FruitfulPolls(s, acts, max) + Measure(Run(s, acts, max)) == Measure(s)
    decreases |acts|
  {
    if acts != [] {
      StepKeeps(s, acts[0], max);
      DrainingStep(s, acts[0], max);
      DrainBudget(Step(s, acts[0], max), acts[1..], max);
    }
  }

  /** At most one completion per receive buffer and per counted send. */
  lemma DrainEnds(s: State, acts: seq<Action>, max: nat)
    requires Inv(s, max) && StaysDraining(s, acts, max)
    ensures FruitfulPolls(s, acts, max) <= HighWater + RecvDepth
  {
    DrainBudget(s, acts, max);
    CqBounded(s, max);
  }

  // ----- The connection as an object -----

  /** What one poll of the queue reports. */
  datatype PollResult = PollFailed | CompletionFailed | CqEmpty | Found(c: Completion)

  datatype DrainStepResult = DrainError | DrainEmpty | DrainSend | DrainRecv | DrainOther

  /** The bookkeeping after a list of polls. */
  function AfterPolls(b: Books, polls: seq<PollResult>, n: nat): Books
    requires n <= |polls|
  {
    if n == 0 then b else AfterPoll(AfterPolls(b, polls, n - 1), polls[n - 1])
  }

  predicate Fails(p: PollResult) {
    p.PollFailed? || p.CompletionFailed?
  }

  /** The bookkeeping after one poll. */
  function AfterPoll(b: Books, p: PollResult): Books {
    if p.Found? then Drained(b, p.c) else b
  }

  function Posted(b: Books): Books {
    b.(pendingSends := b.pendingSends + 1)
  }

  /** A send that waits for the low-water mark, then posts; the polls may end before that. */
  function AfterDrain(b: Books, polls: seq<PollResult>): Books
    decreases |polls|
  {
    if b.pendingSends < LowWater then Posted(b)
    else if polls == [] || Fails(polls[0]) then b
    else AfterDrain(AfterPoll(b, polls[0]), polls[1..])
  }

  /** What `send` leaves, given the polls it may make. */
  function AfterSend(b: Books, polls: seq<PollResult>): Books {
    if b.pendingSends < HighWater then Posted(b) else AfterDrain(b, polls)
  }

  function Popped(b: Books): Books
    requires b.pendingRecvs != []
  {
    b.(pendingRecvs := b.pendingRecvs[1..])
  }

  /** A receive that waits for a completion and takes it. */
  function AfterWait(b: Books, polls: seq<PollResult>): Books
    decreases |polls|
  {
    if polls == [] || Fails(polls[0]) then b
    else if polls[0].Found? && polls[0].c.RecvDone? then Popped(AfterPoll(b, polls[0]))
    else AfterWait(AfterPoll(b, polls[0]), polls[1..])
  }

  /** What `recv` leaves, given the polls it may make. */
  function AfterRecv(b: Books, polls: seq<PollResult>): Books {
    if b.pendingRecvs != [] then Popped(b) else AfterWait(b, polls)
  }

  // ----- The calls inside the runs -----

  /** What the card does and what a waiting call does; no new call. */
  predicate NoCalls(acts: seq<Action>) {
    forall i :: 0 <= i < |acts| ==> !acts[i].CallSend? && !acts[i].CallRecv?
  }

  function SeenNow(s: State, a: Action): seq<PollResult> {
    if !a.Poll? || s.phase.Idle? then [] else [if s.cq == [] then CqEmpty else Found(s.cq[0])]
  }

  /** What the polls of the call in progress report during a run, whatever the card does meanwhile. */
  function Seen(s: State, acts: seq<Action>, max: nat): seq<PollResult>
    decreases |acts|
  {
    if acts == [] then [] else SeenNow(s, acts[0]) + Seen(Step(s, acts[0], max), acts[1..], max)
  }

  /** Once the call has returned, nothing changes the bookkeeping. */
  lemma {:induction false} IdleRun(s: State, acts: seq<Action>, max: nat)
    requires s.phase.Idle? && NoCalls(acts)
    ensures Run(s, acts, max).books == s.books && Seen(s, acts, max) == []
    decreases |acts|
  {
    if acts != [] {
      assert Step(s, acts[0], max).books == s.books && Step(s, acts[0], max).phase.Idle?;
      IdleRun(Step(s, acts[0], max), acts[1..], max);
    }
  }

  lemma SeenPoll(s: State, acts: seq<Action>, max: nat, p: PollResult)
    requires acts != [] && SeenNow(s, acts[0]) == [p]
    ensures Seen(s, acts, max) != [] && Seen(s, acts, max)[0] == p
    ensures Seen(s, acts, max)[1..] == Seen(Step(s, acts[0], max), acts[1..], max)
  {
  }

  /** One step of the model while a send drains, against the specification of the method. */
  lemma DrainStepRefines(s: State, acts: seq<Action>, max: nat, t: State)
    requires acts != [] && NoCalls(acts) && s.phase.Draining? && s.books.pendingSends >= LowWater
    requires t == Step(s, acts[0], max)
    ensures t.phase.Draining? ==> t.books.pendingSends >= LowWater
    ensures t.phase.Draining? ==>
              AfterDrain(s.books, Seen(s, acts, max)) == AfterDrain(t.books, Seen(t, acts[1..], max))
    ensures !t.phase.Draining? ==> t.phase.Idle? && AfterDrain(s.books, Seen(s, acts, max)) == t.books
  {
    assert !acts[0].CallSend? && !acts[0].CallRecv?;
    if acts[0].Poll? {
      var p := if s.cq == [] then CqEmpty else Found(s.cq[0]);
      SeenPoll(s, acts, max, p);
      assert AfterDrain(s.books, Seen(s, acts, max)) == AfterDrain(AfterPoll(s.books, p), Seen(t, acts[1..], max));
    } else {
      assert Seen(s, acts, max) == Seen(t, acts[1..], max);
    }
  }

  lemma {:induction false} DrainRefines(s: State, acts: seq<Action>, max: nat)
    requires NoCalls(acts) && s.phase.Draining? && s.books.pendingSends >= LowWater
    ensures Run(s, acts, max).books == AfterDrain(s.books, Seen(s, acts, max))
    decreases |acts|
  {
    if acts != [] {
      var t := Step(s, acts[0], max);
      assert NoCalls(acts[1..]);
      DrainStepRefines(s, acts, max, t);
      if t.phase.Draining? {
        DrainRefines(t, acts[1..], max);
      } else {
        IdleRun(t, acts[1..], max);
      }
    }
  }

  /** The method `Send` and the runs agree: after a call of `send` and any steps of the card and polls
      of the call, the bookkeeping is what the method leaves, given what its polls reported. */
  lemma SendRefines(s: State, acts: seq<Action>, max: nat)
    requires s.phase.Idle? && NoCalls(acts)
    ensures var t := Step(s, CallSend, max); Run(t, acts, max).books == AfterSend(s.books, Seen(t, acts, max))
  {
    var t := Step(s, CallSend, max);
    if t.phase.Idle? {
      IdleRun(t, acts, max);
    } else {
      DrainRefines(t, acts, max);
    }
  }

  /** One poll of a receive that waits, against the specification of the method. */
  lemma WaitPoll(s: State, max: nat, t: State, p: PollResult, more: seq<PollResult>)
    requires s.phase.Receiving? && t == Step(s, Poll, max) && [p] == SeenNow(s, Poll)
    ensures t.phase.Receiving? ==> AfterWait(s.books, [p] + more) == AfterWait(t.books, more)
    ensures !t.phase.Receiving? ==> t.phase.Idle? && AfterWait(s.books, [p] + more) == t.books
  {
    var polls := [p] + more;
    assert polls[1..] == more;
  }

  lemma WaitStepRefines(s: State, acts: seq<Action>, max: nat, t: State)
    requires acts != [] && NoCalls(acts) && s.phase.Receiving?
    requires t == Step(s, acts[0], max)
    ensures t.phase.Receiving? ==>
              AfterWait(s.books, Seen(s, acts, max)) == AfterWait(t.books, Seen(t, acts[1..], max))
    ensures !t.phase.Receiving? ==> t.phase.Idle? && AfterWait(s.books, Seen(s, acts, max)) == t.books
  {
    assert !acts[0].CallSend? && !acts[0].CallRecv?;
    if acts[0].Poll? {
      WaitPoll(s, max, t, SeenNow(s, Poll)[0], Seen(t, acts[1..], max));
    } else {
      assert Seen(s, acts, max) == Seen(t, acts[1..], max);
    }
  }

  lemma {:induction false} WaitRefines(s: State, acts: seq<Action>, max: nat)
    requires NoCalls(acts) && s.phase.Receiving?
    ensures Run(s, acts, max).books == AfterWait(s.books, Seen(s, acts, max))
    decreases |acts|
  {
    if acts != [] {
      var t := Step(s, acts[0], max);
      assert NoCalls(acts[1..]);
      WaitStepRefines(s, acts, max, t);
      if t.phase.Receiving? {
        WaitRefines(t, acts[1..], max);
      } else {
        IdleRun(t, acts[1..], max);
      }
    }
  }

  /** The same for `TakeRecv` and a call of `recv`. */
  lemma RecvRefines(s: State, acts: seq<Action>, max: nat)
    requires s.phase.Idle? && NoCalls(acts)
    ensures var t := Step(s, CallRecv, max); Run(t, acts, max).books == AfterRecv(s.books, Seen(t, acts, max))
  {
    var t := Step(s, CallRecv, max);
    if t.phase.Idle? {
      IdleRun(t, acts, max);
    } else {
      WaitRefines(t, acts, max);
    }
  }

  class RdmaConnection {
    const maxMsgSize: nat
    var pendingSends: nat
    var pendingRecvs: seq<PendingRecv>

    constructor (max: nat)
      ensures maxMsgSize == max && Value() == Books(0, [])
    {
      maxMsgSize, pendingSends, pendingRecvs := max, 0, [];
    }

    ghost function Value(): Books
      reads this
    {
      Books(pendingSends, pendingRecvs)
    }

    /** `drain_cq` on what a poll reported. */
    method DrainCq(poll: PollResult) returns (r: DrainStepResult)
      modifies this
      ensures Value() == AfterPoll(old(Value()), poll)
      ensures r.DrainError? <==> Fails(poll)
      ensures r.DrainEmpty? <==> poll.CqEmpty?
      ensures r.DrainRecv? <==> poll.Found? && poll.c.RecvDone?
      ensures r.DrainSend? <==> poll.Found? && poll.c.SendDone?
    {
      match poll {
        case PollFailed => return DrainError;
        case CompletionFailed => return DrainError;
        case CqEmpty => return DrainEmpty;
        case Found(c) =>
          match c {
            case RecvDone(idx, len) =>
              pendingRecvs := pendingRecvs + [PendingRecv(idx, len)];
              return DrainRecv;
            case SendDone =>
              pendingSends := if pendingSends == 0 then 0 else pendingSends - 1;
              return DrainSend;
            case OtherDone =>
              return DrainOther;
          }
      }
    }

    /** `drain_until_low_water`, with the polls it makes given: it stops at the first poll that fails
        or brings the count below the low-water mark. */
    method DrainUntilLowWater(polls: seq<PollResult>) returns (used: nat, failed: bool)
      modifies this
      ensures used <= |polls| && Value() == AfterPolls(old(Value()), polls, used)
      ensures forall k :: 0 <= k < used ==> AfterPolls(old(Value()), polls, k).pendingSends >= LowWater
      ensures failed <==> used > 0 && Fails(polls[used - 1])
      ensures !failed && used < |polls| ==> pendingSends < LowWater
      ensures AfterDrain(old(Value()), polls) ==
              if !failed && pendingSends < LowWater then Posted(Value()) else Value()
    {
      used, failed := 0, false;
      assert polls[0..] == polls;
      while pendingSends >= LowWater && used < |polls|
        invariant used <= |polls| && Value() == AfterPolls(old(Value()), polls, used)
        invariant forall k :: 0 <= k < used ==> AfterPolls(old(Value()), polls, k).pendingSends >= LowWater
        invariant used > 0 ==> !Fails(polls[used - 1])
        invariant AfterDrain(old(Value()), polls) == AfterDrain(Value(), polls[used..])
      {
        assert polls[used..][1..] == polls[used + 1..];
        var r := DrainCq(polls[used]);
        used := used + 1;
        if r.DrainError? {
          return used, true;
        }
      }
    }

    /** `consume_pending_recv`: what the oldest pending receive turns into, given its buffer. */
    method ConsumePendingRecv(p: PendingRecv, buf: seq<byte>) returns (o: Outcome)
      requires p.len <= |buf|
      ensures o == Parse(maxMsgSize, buf[..p.len])
    {
      if p.len < 4 {
        return Malformed;
      }
      assert buf[..p.len][..4] == buf[..4];
      var msgLen := FromLE(buf[..4]);
      var total := 4 + msgLen;
      if msgLen > maxMsgSize {
        return Oversized;
      }
      if total > p.len {
        return Truncated;
      }
      assert buf[..p.len][4..total] == buf[4..total];
      return Payload(buf[4..total]);
    }

    /** `recv`, with the polls it makes given: the pending completion it takes, if any came. */
    method TakeRecv(polls: seq<PollResult>) returns (p: Option<PendingRecv>, used: nat)
      modifies this
      ensures used <= |polls|
      ensures var b := AfterPolls(old(Value()), polls, used);
              && pendingSends == b.pendingSends
              && (p.Some? ==> [p.value] + pendingRecvs == b.pendingRecvs)
              && (p.None? ==> pendingRecvs == b.pendingRecvs)
      ensures old(pendingRecvs) != [] ==> used == 0 && p == Some(old(pendingRecvs)[0])
      ensures Value() == AfterRecv(old(Value()), polls)
    {
      used := 0;
      assert polls[0..] == polls;
      if pendingRecvs != [] {
        p := Some(pendingRecvs[0]);
        pendingRecvs := pendingRecvs[1..];
        return;
      }
      while used < |polls|
        invariant used <= |polls| && Value() == AfterPolls(old(Value()), polls, used)
        invariant AfterWait(old(Value()), polls) == AfterWait(Value(), polls[used..])
      {
        assert polls[used..][1..] == polls[used + 1..];
        var r := DrainCq(polls[used]);
        used := used + 1;
        if r.DrainError? {
          return None, used;
        }
        if r.DrainRecv? {
          p := Some(pendingRecvs[0]);
          pendingRecvs := pendingRecvs[1..];
          return;
        }
      }
      p := None;
    }

    /** `send`: refuses an oversize message; otherwise drains first when the count is at the
        high-water mark, then posts. Returns the frame given to the card. */
    method Send(msg: seq<byte>, polls: seq<PollResult>) returns (frame: Option<seq<byte>>, used: nat)
      requires pendingSends <= HighWater
      modifies this
      ensures used <= |polls| && pendingSends <= HighWater
      ensures |msg| > maxMsgSize ==> frame == None && used == 0 && Value() == old(Value())
      ensures old(pendingSends) < HighWater ==> used == 0
      ensures frame.Some? ==>
                && frame.value == LE(|msg|, 4) + msg && |msg| < U32
                && Value() == (var b := AfterPolls(old(Value()), polls, used); b.(pendingSends := b.pendingSends + 1))
      ensures frame.None? ==> Value() == AfterPolls(old(Value()), polls, used)
      ensures |msg| <= maxMsgSize && 4 + |msg| < U32 ==> Value() == AfterSend(old(Value()), polls)
    {
      used := 0;
      if |msg| > maxMsgSize {
        return None, 0;
      }
      if pendingSends >= HighWater {
        var failed;
        used, failed := DrainUntilLowWater(polls);
        NeverRises(old(Value()), polls, used);
        if failed || pendingSends >= LowWater {
          return None, used;
        }
      }
      if |msg| >= U32 || 4 + |msg| >= U32 {
        return None, used;
      }
      frame := Some(LE(|msg|, 4) + msg);
      pendingSends := pendingSends + 1;
    }
  }

  lemma {:induction false} NeverRises(b: Books, polls: seq<PollResult>, n: nat)
    requires n <= |polls|
    ensures AfterPolls(b, polls, n).pendingSends <= b.pendingSends
  {
    if n > 0 {
      NeverRises(b, polls, n - 1);
    }
  }
}

/**
The broadcast channel (ironsbe-channel/src/broadcast.rs): a bounded buffer of numbered messages that
every receiver reads at its own pace.
*/
module Broadcast {
  import opened Bytes

  // ----- What a buffer should hold -----

  /** The number of messages kept after `n` sends. */
  function KeptCount(capacity: nat, n: nat): nat {
    if n < capacity then n else capacity
  }

  /** The oldest sequence number still kept. */
  function Oldest(capacity: nat, n: nat): nat {
    n - KeptCount(capacity, n)
  }

  /** The messages numbered `lo..hi-1`. */
  function Numbered<T>(sent: seq<T>, lo: nat, hi: nat): (r: seq<(nat, T)>)
    requires lo <= hi <= |sent|
    ensures |r| == hi - lo
    ensures forall i :: 0 <= i < |r| ==> r[i] == (lo + i, sent[lo + i])
  {
    seq(hi - lo, i requires 0 <= i < hi - lo => (lo + i, sent[lo + i]))
  }

  /** The last `capacity` messages sent, with their numbers. */
  function Window<T>(capacity: nat, sent: seq<T>): seq<(nat, T)> {
    Numbered(sent, Oldest(capacity, |sent|), |sent|)
  }

  // ----- The eviction loop -----

  /** The buffer after `k` rounds of eviction; a round on an empty buffer does nothing. */
  function Evicted<T>(buffer: seq<(nat, T)>, k: nat): seq<(nat, T)> {
    if k < |buffer| then buffer[k..] else []
  }

  /** The loop `while len >= capacity { pop_front }` ends if and only if the capacity is not zero. */
  lemma EvictionEndsIff<T>(buffer: seq<(nat, T)>, capacity: nat)
    ensures (exists k: nat :: |Evicted(buffer, k)| < capacity) <==> capacity > 0
  {
    if capacity > 0 {
      assert |Evicted(buffer, |buffer|)| < capacity;
    }
  }

  // ----- The shared state and its sender -----

  class BroadcastState<T(0)> {
    var buffer: seq<(nat, T)>
    var sequence: nat
    const capacity: nat
    var closed: bool
    ghost var sent: seq<T>

    /** The buffer is exactly the last messages sent. */
    ghost predicate Valid()
      reads this
    {
      && (capacity == 0 ==> sent == [])
      && sequence == |sent|
      && buffer == Window(capacity, sent)
    }

    constructor (cap: nat)
      ensures Valid() && capacity == cap && sent == [] && !closed
    {
      capacity, buffer, sequence, closed, sent := cap, [], 0, false, [];
    }

    /** `BroadcastSender::send`. With a capacity of 0 the eviction loop would not end. */
    method Send(item: T) returns (number: nat)
      requires Valid() && capacity >= 1
      modifies this`buffer, this`sequence, this`sent
      ensures Valid()
      ensures sent == old(sent) + [item] && number == |old(sent)|
    {
      number := sequence;
      sequence := sequence + 1;
      ghost var before := buffer;
      while |buffer| >= capacity
        invariant |before| - |buffer| <= (if |before| >= capacity then |before| - capacity + 1 else 0)
        invariant |buffer| <= |before| && buffer == before[|before| - |buffer|..]
        decreases |buffer|
        modifies this`buffer
      {
        buffer := buffer[1..];
      }
      buffer := buffer + [(number, item)];
      sent := sent + [item];
      assert buffer == Window(capacity, sent);
    }

    /** Where `subscribe` starts: at the next message to be sent. */
    method Subscribe() returns (next: nat)
      requires Valid()
      ensures next == |sent|
    {
      next := sequence;
    }

    /** Where `subscribe_from_start` starts: at the oldest message kept. */
    method SubscribeFromStart() returns (next: nat)
      requires Valid()
      ensures next == Oldest(capacity, |sent|)
    {
      next := if |buffer| > 0 then buffer[0].0 else 0;
    }
  }

  // ----- Receivers -----

  /** What `recv` gives a receiver that waits for number `next`. */
  function Received<T>(capacity: nat, sent: seq<T>, next: nat): Option<(nat, T)> {
    if Oldest(capacity, |sent|) <= next < |sent| then Some((next, sent[next])) else None
  }

  /** Where a receiver that takes everything starts. */
  function CatchUp(capacity: nat, sent: nat, next: nat): nat {
    if next < Oldest(capacity, sent) then Oldest(capacity, sent) else next
  }

  /** What `recv_all` gives it. */
  function ReceivedAll<T>(capacity: nat, sent: seq<T>, next: nat): seq<(nat, T)> {
    var lo := CatchUp(capacity, |sent|, next);
    if lo <= |sent| then Numbered(sent, lo, |sent|) else []
  }

  class BroadcastReceiver<T(0)> {
    const state: BroadcastState<T>
    var next: nat

    constructor (s: BroadcastState<T>, start: nat)
      ensures state == s && next == start
    {
      state, next := s, start;
    }

    method Recv() returns (r: Option<(nat, T)>)
      requires state.Valid()
      modifies this
      ensures r == Received(state.capacity, state.sent, old(next))
      ensures next == if r.Some? then old(next) + 1 else old(next)
    {
      ghost var lo := Oldest(state.capacity, |state.sent|);
      for i := 0 to |state.buffer|
        invariant next == old(next)
        invariant !(lo <= next < lo + i)
      {
        if state.buffer[i].0 == next {
          r := Some(state.buffer[i]);
          next := next + 1;
          return;
        }
      }
      return None;
    }

    method RecvAll() returns (result: seq<(nat, T)>)
      requires state.Valid()
      modifies this
      ensures result == ReceivedAll(state.capacity, state.sent, old(next))
      ensures next == if result == [] then old(next) else |state.sent|
    {
      ghost var lo, n := Oldest(state.capacity, |state.sent|), |state.sent|;
      ghost var from := CatchUp(state.capacity, n, old(next));
      result := [];
      for i := 0 to |state.buffer|
        invariant next == if lo + i <= from then old(next) else lo + i
        invariant result == if lo + i <= from then [] else Numbered(state.sent, from, lo + i)
      {
        var entry := state.buffer[i];
        assert entry == (lo + i, state.sent[lo + i]);
        if entry.0 >= next {
          result := result + [entry];
          next := entry.0 + 1;
        }
      }
    }

    /** `lag`, saturating at zero. */
    method Lag() returns (n: nat)
      requires state.Valid()
      ensures n == if next < |state.sent| then |state.sent| - next else 0
    {
      n := if next < state.sequence then state.sequence - next else 0;
    }
  }

  // ----- Over whole runs -----

  /** One receiver on a channel: what was sent, the number it waits for, what it was given, and the
      numbers it jumped over. */
  datatype Log<T> = Log(sent: seq<T>, next: nat, got: seq<(nat, T)>, skipped: set<nat>)

  datatype Op<T> = DoSend(item: T) | DoRecv | DoRecvAll

  function Range(lo: nat, hi: nat): (r: set<nat>)
    ensures forall x: nat :: x in r <==> lo <= x < hi
    decreases hi - lo
  {
    if lo >= hi then {} else {lo} + Range(lo + 1, hi)
  }

  function Step<T>(capacity: nat, l: Log<T>, op: Op<T>): Log<T> {
    match op
    case DoSend(item) => l.(sent := l.sent + [item])
    case DoRecv =>
      (match Received(capacity, l.sent, l.next)
       case None => l
       case Some(m) => l.(next := l.next + 1, got := l.got + [m]))
    case DoRecvAll =>
      var all := ReceivedAll(capacity, l.sent, l.next);
      if all == [] then l
      else
        l.(next := |l.sent|,
        got := l.got + all,
        skipped := l.skipped + Range(l.next, CatchUp(capacity, |l.sent|, l.next)))
  }

  function Run<T>(capacity: nat, l: Log<T>, ops: seq<Op<T>>): Log<T>
    decreases |ops|
  {
    if ops == [] then l else Run(capacity, Step(capacity, l, ops[0]), ops[1..])
  }

  predicate GotNumber<T>(got: seq<(nat, T)>, x: nat) {
    exists i :: 0 <= i < |got| && got[i].0 == x
  }

  /** Messages came in strictly increasing order and as they were sent. */
  ghost predicate Increasing<T>(got: seq<(nat, T)>, sent: seq<T>, start: nat, next: nat)
    requires next <= |sent|
  {
    && (forall i :: 0 <= i < |got| ==> start <= got[i].0 < next && got[i].1 == sent[got[i].0])
    && (forall i, j :: 0 <= i < j < |got| ==> got[i].0 < got[j].0)
  }

  /** Every number from the start to the next one awaited was either given or jumped over, never
      both. */
  ghost predicate Covered<T>(got: seq<(nat, T)>, skipped: set<nat>, start: nat, next: nat) {
    forall x: nat :: start <= x < next ==> (x in skipped <==> !GotNumber(got, x))
  }

  /** Both, and what was jumped over is no longer in the buffer. */
  ghost predicate Orderly<T>(capacity: nat, start: nat, l: Log<T>) {
    && start <= l.next <= |l.sent|
    && Increasing(l.got, l.sent, start, l.next)
    && (forall x :: x in l.skipped ==> start <= x < l.next && x < Oldest(capacity, |l.sent|))
    && Covered(l.got, l.skipped, start, l.next)
  }

  lemma TakeIncreasing<T>(got: seq<(nat, T)>, sent: seq<T>, start: nat, next: nat, lo: nat, hi: nat)
    requires start <= next <= lo < hi <= |sent| && Increasing(got, sent, start, next)
    ensures Increasing(got + Numbered(sent, lo, hi), sent, start, hi)
  {
    var all := got + Numbered(sent, lo, hi);
    assert forall i :: 0 <= i < |got| ==> all[i] == got[i];
    assert forall i :: |got| <= i < |all| ==> all[i] == (lo + (i - |got|), sent[lo + (i - |got|)]);
  }

  lemma TakenNumber<T>(got: seq<(nat, T)>, sent: seq<T>, lo: nat, hi: nat, x: nat)
    requires lo < hi <= |sent|
    ensures GotNumber(got + Numbered(sent, lo, hi), x) <==> GotNumber(got, x) || lo <= x < hi
  {
    var all := got + Numbered(sent, lo, hi);
    assert forall i :: 0 <= i < |got| ==> all[i] == got[i];
    assert forall i :: |got| <= i < |all| ==> all[i].0 == lo + (i - |got|);
    if lo <= x < hi {
      assert all[|got| + (x - lo)].0 == x;
    }
    if GotNumber(got, x) {
      var i :| 0 <= i < |got| && got[i].0 == x;
      assert all[i].0 == x;
    }
  }

  /** Taking the consecutive messages `lo..hi-1`, having jumped from `next` to `lo`, stays orderly. */
  lemma TakeOrderly<T>(capacity: nat, start: nat, l: Log<T>, lo: nat, hi: nat)
    requires Orderly(capacity, start, l) && l.next <= lo < hi <= |l.sent|
    requires lo > l.next ==> lo <= Oldest(capacity, |l.sent|)
    ensures Orderly(capacity, start,
              l.(next := hi, got := l.got + Numbered(l.sent, lo, hi), skipped := l.skipped + Range(l.next, lo)))
  {
    TakeIncreasing(l.got, l.sent, start, l.next, lo, hi);
    forall x: nat | start <= x < hi
      ensures x in l.skipped + Range(l.next, lo) <==> !GotNumber(l.got + Numbered(l.sent, lo, hi), x)
    {
      TakenNumber(l.got, l.sent, lo, hi, x);
    }
  }

  lemma SendOrderly<T>(capacity: nat, start: nat, l: Log<T>, item: T)
    requires Orderly(capacity, start, l)
    ensures Orderly(capacity, start, l.(sent := l.sent + [item]))
  {
    assert Oldest(capacity, |l.sent|) <= Oldest(capacity, |l.sent| + 1);
  }

  lemma StepOrderly<T>(capacity: nat, start: nat, l: Log<T>, op: Op<T>)
    requires capacity >= 1 && Orderly(capacity, start, l)
    ensures Orderly(capacity, start, Step(capacity, l, op))
  {
    match op
    case DoSend(item) => SendOrderly(capacity, start, l, item);
    case DoRecv =>
      if Received(capacity, l.sent, l.next).Some? {
        TakeOrderly(capacity, start, l, l.next, l.next + 1);
        assert Numbered(l.sent, l.next, l.next + 1) == [(l.next, l.sent[l.next])];
        assert l.skipped + Range(l.next, l.next) == l.skipped;
      }
    case DoRecvAll =>
      if ReceivedAll(capacity, l.sent, l.next) != [] {
        TakeOrderly(capacity, start, l, CatchUp(capacity, |l.sent|, l.next), |l.sent|);
      }
  }

  lemma {:induction false} RunOrderly<T>(capacity: nat, start: nat, l: Log<T>, ops: seq<Op<T>>)
    requires capacity >= 1 && Orderly(capacity, start, l)
    ensures Orderly(capacity, start, Run(capacity, l, ops))
    decreases |ops|
  {
    if ops != [] {
      StepOrderly(capacity, start, l, ops[0]);
      RunOrderly(capacity, start, Step(capacity, l, ops[0]), ops[1..]);
    }
  }

  /** Whenever a receiver subscribed, and however sends, `recv` and `recv_all` are interleaved. */
  lemma ReceiverIsOrderly<T>(capacity: nat, sent: seq<T>, start: nat, ops: seq<Op<T>>)
    requires capacity >= 1 && start <= |sent|
    ensures Orderly(capacity, start, Run(capacity, Log(sent, start, [], {}), ops))
  {
    RunOrderly(capacity, start, Log(sent, start, [], {}), ops);
  }

  /** A receiver whose next message was evicted gets nothing from `recv` ever again, whatever is sent
      later; only `recv_all` moves it on. */
  lemma LaggardIsStuck<T>(capacity: nat, sent: seq<T>, more: seq<T>, next: nat)
    requires next < Oldest(capacity, |sent|)
    ensures Received(capacity, sent + more, next) == None
    ensures more != [] && capacity >= 1 ==> ReceivedAll(capacity, sent + more, next) != []
  {
  }
}

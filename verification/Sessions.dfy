/**
The server's session registry (ironsbe-server/src/builder.rs, ironsbe-server/src/session.rs): which
sessions exist, whose cancellation tokens are live, and whose outbound channels are registered.
*/
module Sessions {
  import opened Bytes

  type Message = seq<byte>

  /** The identifier given to the `k`-th accepted connection: a 64-bit counter that starts at 1. */
  function IdAt(k: nat): nat {
    (k + 1) % U64
  }

  /** Identifiers are never reused if and only if at most 2^64 connections are accepted. */
  lemma IdsDistinctIff(n: nat)
    ensures (forall i, j :: 0 <= i < j < n ==> IdAt(i) != IdAt(j)) <==> n <= U64
  {
    if n <= U64 {
      forall i, j | 0 <= i < j < n
        ensures IdAt(i) != IdAt(j)
      {
        IdValue(i);
        IdValue(j);
      }
    } else {
      assert IdAt(0) == IdAt(U64) by {
        ModUnique(U64 + 1, U64, 1, 1);
      }
    }
  }

  lemma IdValue(k: nat)
    requires k < U64
    ensures IdAt(k) == if k == U64 - 1 then 0 else k + 1
  {
    if k == U64 - 1 {
      ModUnique(k + 1, U64, 1, 0);
    } else {
      ModUnique(k + 1, U64, 0, k + 1);
    }
  }

  /**
  The registry. `issued` counts accepted connections. `closed` holds the sessions whose own token was
  cancelled, `stopped` says that the parent of all tokens was. `gone` holds the sessions whose task
  dropped its receiver, `outbox` what was put into each session's channel.
  */
  datatype State = State(
    max: nat,
    issued: nat,
    sessions: map<nat, nat>,
    tokens: set<nat>,
    senders: set<nat>,
    closed: set<nat>,
    stopped: bool,
    gone: set<nat>,
    outbox: map<nat, seq<Message>>)

  function Fresh(max: nat): State {
    State(max, 0, map[], {}, {}, {}, false, {}, map[])
  }

  /** The identifiers of the first `n` accepted connections. */
  function Ids(n: nat): set<nat> {
    if n == 0 then {} else Ids(n - 1) + {IdAt(n - 1)}
  }

  predicate Cancelled(s: State, id: nat) {
    s.stopped || id in s.closed
  }

  datatype Op =
    | Connect(peer: nat)
    | Shutdown
    | CloseSession(id: nat)
    | Broadcast(m: Message)
    | SendTo(id: nat, m: Message)
    | Respond(id: nat, m: Message)
    | RespondTo(id: nat, m: Message)
    | TaskEnds(id: nat)

  /** Pushing into the channels of `to`: only those with a receiver take the message. */
  function Pushed(outbox: map<nat, seq<Message>>, to: set<nat>, m: Message): map<nat, seq<Message>> {
    map id | id in outbox :: if id in to then outbox[id] + [m] else outbox[id]
  }

  function Added(s: State, id: nat, peer: nat): State {
    s.(issued := s.issued + 1, sessions := s.sessions[id := peer], tokens := s.tokens + {id},
    senders := s.senders + {id}, outbox := s.outbox[id := []])
  }

  function Connected(s: State, peer: nat): State {
    if |s.sessions| >= s.max then s else Added(s, IdAt(s.issued), peer)
  }

  function ShutDown(s: State): State {
    s.(stopped := true, tokens := {}, senders := {})
  }

  function Closed(s: State, id: nat): State {
    s.(sessions := s.sessions - {id}, tokens := s.tokens - {id}, senders := s.senders - {id},
    closed := if id in s.tokens then s.closed + {id} else s.closed)
  }

  function Broadcasted(s: State, m: Message): State {
    s.(senders := s.senders - s.gone, outbox := Pushed(s.outbox, s.senders - s.gone, m))
  }

  function SentTo(s: State, id: nat, m: Message): State {
    if id !in s.senders then s
    else if id in s.gone then s.(senders := s.senders - {id})
    else s.(outbox := Pushed(s.outbox, {id}, m))
  }

  /** A responder's own channel does not go through the registry, that of another session does. */
  function Responded(s: State, id: nat, m: Message): State {
    if id in s.gone then s else s.(outbox := Pushed(s.outbox, {id}, m))
  }

  function RespondedTo(s: State, id: nat, m: Message): State {
    if id !in s.senders then s else Responded(s, id, m)
  }

  /** The run loop has ended once the server is stopped; session tasks may still act. */
  function Step(s: State, op: Op): State {
    match op
    case Connect(peer) => if s.stopped then s else Connected(s, peer)
    case Shutdown => if s.stopped then s else ShutDown(s)
    case CloseSession(id) => if s.stopped then s else Closed(s, id)
    case Broadcast(m) => if s.stopped then s else Broadcasted(s, m)
    case SendTo(id, m) => if s.stopped then s else SentTo(s, id, m)
    case Respond(id, m) => Responded(s, id, m)
    case RespondTo(id, m) => RespondedTo(s, id, m)
    case TaskEnds(id) => if id in s.outbox then s.(gone := s.gone + {id}) else s
  }

  /** The states of a run, one more than it has steps. */
  predicate IsRun(run: seq<State>, ops: seq<Op>) {
    && |run| == |ops| + 1
    && forall i {:trigger ops[i]} :: 0 <= i < |ops| ==> run[i + 1] == Step(run[i], ops[i])
  }

  // ----- What every run keeps -----

  /** Everything the registry names is among the issued identifiers `ids`. */
  ghost predicate Known(s: State, ids: set<nat>) {
    && s.outbox.Keys == ids
    && s.sessions.Keys <= ids
    && s.closed <= ids
    && s.gone <= ids
  }

  /** Before shutdown: tokens and sessions have the same keys, an issued session is in them exactly
      when its token is live, and closing and opening balance. */
  ghost predicate Live(s: State, ids: set<nat>) {
    && s.tokens == s.sessions.Keys
    && (forall id :: id in ids ==> (id in s.sessions <==> !Cancelled(s, id)))
    && |s.sessions| <= s.max
    && |s.sessions| + |s.closed| == s.issued
  }

  /** Before shutdown: registered senders belong to sessions, and the only sessions without one are
      those whose receiver is gone. */
  ghost predicate Reachable(s: State) {
    && s.senders <= s.sessions.Keys
    && (forall id :: id in s.sessions && id !in s.senders ==> id in s.gone)
  }

  ghost predicate Inv(s: State) {
    && s.issued <= U64
    && Known(s, Ids(s.issued))
    && (!s.stopped ==> Live(s, Ids(s.issued)) && Reachable(s))
    && (s.stopped ==> s.tokens == {} && s.senders == {})
  }

  /** A new identifier differs from all earlier ones. */
  lemma {:induction false} IdIsNew(n: nat, m: nat)
    requires n <= m < U64
    ensures IdAt(m) !in Ids(n)
  {
    if n > 0 {
      IdIsNew(n - 1, m);
      IdValue(n - 1);
      IdValue(m);
    }
  }

  lemma SizeWithout(m: map<nat, nat>, id: nat)
    ensures |m - {id}| == if id in m then |m| - 1 else |m|
  {
    assert (m - {id}).Keys == m.Keys - {id};
  }

  lemma SizeWith(m: map<nat, nat>, id: nat, peer: nat)
    requires id !in m
    ensures |m[id := peer]| == |m| + 1
  {
    assert m[id := peer].Keys == m.Keys + {id};
  }

  lemma AddKnown(s: State, ids: set<nat>, id: nat, peer: nat)
    requires Known(s, ids)
    ensures Known(Added(s, id, peer), ids + {id})
  {
    var t := Added(s, id, peer);
    assert t.sessions.Keys == s.sessions.Keys + {id} && t.outbox.Keys == s.outbox.Keys + {id};
  }

  lemma AddLive(s: State, ids: set<nat>, id: nat, peer: nat)
    requires Known(s, ids) && Live(s, ids) && !s.stopped && |s.sessions| < s.max && id !in ids
    ensures Live(Added(s, id, peer), ids + {id})
  {
    var t := Added(s, id, peer);
    assert id !in s.sessions && id !in s.closed;
    SizeWith(s.sessions, id, peer);
    assert t.sessions.Keys == s.sessions.Keys + {id};
    forall x | x in ids + {id}
      ensures x in t.sessions <==> !Cancelled(t, x)
    {
      assert x != id ==> (x in s.sessions <==> !Cancelled(s, x));
    }
  }

  lemma AddReachable(s: State, id: nat, peer: nat)
    requires Reachable(s)
    ensures Reachable(Added(s, id, peer))
  {
    assert Added(s, id, peer).sessions.Keys == s.sessions.Keys + {id};
  }

  lemma AddKeeps(s: State, ids: set<nat>, id: nat, peer: nat)
    requires Known(s, ids) && Live(s, ids) && Reachable(s) && !s.stopped
    requires |s.sessions| < s.max && id !in ids
    ensures Known(Added(s, id, peer), ids + {id})
    ensures Live(Added(s, id, peer), ids + {id})
    ensures Reachable(Added(s, id, peer))
  {
    AddKnown(s, ids, id, peer);
    AddLive(s, ids, id, peer);
    AddReachable(s, id, peer);
  }

  lemma AddInv(s: State, id: nat, peer: nat)
    requires Inv(s) && !s.stopped && |s.sessions| < s.max && s.issued < U64
    requires id !in Ids(s.issued) && Ids(s.issued + 1) == Ids(s.issued) + {id}
    ensures Inv(Added(s, id, peer))
  {
    var t := Added(s, id, peer);
    AddKeeps(s, Ids(s.issued), id, peer);
    assert Ids(t.issued) == Ids(s.issued) + {id};
  }

  lemma ConnectKeeps(s: State, peer: nat)
    requires Inv(s) && !s.stopped && Connected(s, peer).issued <= U64
    ensures Inv(Connected(s, peer))
  {
    var id := IdAt(s.issued);
    if |s.sessions| < s.max {
      IdIsNew(s.issued, s.issued);
      AddInv(s, id, peer);
    }
  }

  lemma CloseKeeps(s: State, id: nat)
    requires Inv(s) && !s.stopped
    ensures Inv(Closed(s, id))
  {
    SizeWithout(s.sessions, id);
  }

  lemma PushKeeps(s: State, to: set<nat>, m: Message)
    requires Inv(s)
    ensures Inv(s.(outbox := Pushed(s.outbox, to, m)))
  {
    assert Pushed(s.outbox, to, m).Keys == s.outbox.Keys;
  }

  lemma BroadcastKeeps(s: State, m: Message)
    requires Inv(s) && !s.stopped
    ensures Inv(Broadcasted(s, m))
  {
    PushKeeps(s, s.senders - s.gone, m);
  }

  lemma StepKeeps(s: State, op: Op)
    requires Inv(s) && Step(s, op).issued <= U64
    ensures Inv(Step(s, op))
  {
    match op
    case Connect(peer) => if !s.stopped { ConnectKeeps(s, peer); }
    case Shutdown =>
    case CloseSession(id) => if !s.stopped { CloseKeeps(s, id); }
    case Broadcast(m) => if !s.stopped { BroadcastKeeps(s, m); }
    case SendTo(id, m) => PushKeeps(s, {id}, m);
    case Respond(id, m) => PushKeeps(s, {id}, m);
    case RespondTo(id, m) => PushKeeps(s, {id}, m);
    case TaskEnds(id) =>
  }

  lemma StepTo(s: State, op: Op, t: State)
    requires Inv(s) && t == Step(s, op) && t.issued <= U64
    ensures Inv(t)
  {
    StepKeeps(s, op);
  }

  /** No step forgets that a connection was accepted or a token cancelled, and none accepts a
      connection after shutdown. */
  lemma StepMonotone(s: State, op: Op, t: State)
    requires t == Step(s, op)
    ensures s.issued <= t.issued && s.closed <= t.closed
    ensures s.stopped ==> t.stopped && t.issued == s.issued
  {
  }

  lemma {:induction false} RunMonotone(run: seq<State>, ops: seq<Op>, i: nat, n: nat)
    requires IsRun(run, ops) && i <= n < |run|
    ensures run[i].issued <= run[n].issued && run[i].closed <= run[n].closed
    ensures run[i].stopped ==> run[n].stopped && run[n].issued == run[i].issued
  {
    if i < n {
      RunMonotone(run, ops, i, n - 1);
      StepMonotone(run[n - 1], ops[n - 1], run[n]);
    }
  }

  /** Over every run, however long, that accepts at most 2^64 connections. */
  lemma {:induction false} RunKeeps(run: seq<State>, ops: seq<Op>, n: nat)
    requires IsRun(run, ops) && Inv(run[0]) && n < |run| && run[n].issued <= U64
    ensures Inv(run[n])
  {
    if n > 0 {
      RunMonotone(run, ops, n - 1, n);
      RunKeeps(run, ops, n - 1);
      StepTo(run[n - 1], ops[n - 1], run[n]);
    }
  }

  lemma EveryRunKeeps(max: nat, run: seq<State>, ops: seq<Op>, n: nat)
    requires IsRun(run, ops) && run[0] == Fresh(max) && n < |run| && run[n].issued <= U64
    ensures Inv(run[n])
  {
    assert Ids(0) == {};
    RunKeeps(run, ops, n);
  }

  /** Shutdown leaves no issued token live, and in no later state of the run is another one issued. */
  lemma ShutdownCancelsAll(run: seq<State>, ops: seq<Op>, k: nat, n: nat)
    requires IsRun(run, ops) && k < n < |run| && ops[k] == Shutdown
    ensures run[n].issued == run[k].issued
    ensures forall id :: id in Ids(run[n].issued) ==> Cancelled(run[n], id)
  {
    assert run[k + 1] == Step(run[k], ops[k]);
    RunMonotone(run, ops, k + 1, n);
  }

  // ----- Closing -----

  /** Closing a session that was already closed changes nothing at all, whatever happened in between. */
  lemma CloseAgain(s: State, id: nat)
    requires Inv(s) && id in s.closed
    ensures Step(s, CloseSession(id)) == s
  {
    if !s.stopped {
      assert id !in s.sessions;
      assert s.sessions - {id} == s.sessions;
    }
  }

  /** Closing frees one slot if the session was open and none otherwise. */
  lemma CloseFreesOne(s: State, id: nat)
    requires Inv(s) && !s.stopped
    ensures |Step(s, CloseSession(id)).sessions| == |s.sessions| - (if id in s.sessions then 1 else 0)
  {
    SizeWithout(s.sessions, id);
  }

  /** A closed session never comes back: in no later state before shutdown is it registered. */
  lemma ClosedForGood(run: seq<State>, ops: seq<Op>, i: nat, n: nat, id: nat)
    requires IsRun(run, ops) && Inv(run[0]) && i <= n < |run| && run[n].issued <= U64
    requires id in run[i].closed && !run[n].stopped
    ensures id !in run[n].sessions && id !in run[n].tokens && id !in run[n].senders
  {
    RunKeeps(run, ops, n);
    RunMonotone(run, ops, i, n);
  }

  // ----- Delivery -----

  /** A broadcast reaches exactly the open sessions whose task still listens, once each. */
  lemma BroadcastReaches(s: State, m: Message, id: nat)
    requires Inv(s) && !s.stopped && id in s.outbox
    ensures Step(s, Broadcast(m)).outbox[id] ==
            if id in s.sessions && id !in s.gone then s.outbox[id] + [m] else s.outbox[id]
  {
    assert id in s.sessions && id !in s.gone <==> id in s.senders - s.gone;
  }

  /** A message to one session reaches it exactly if it is open and listens, and reaches no other. */
  lemma SendReaches(s: State, to: nat, m: Message, id: nat)
    requires Inv(s) && !s.stopped && id in s.outbox
    ensures Step(s, SendTo(to, m)).outbox[id] ==
            if id == to && id in s.sessions && id !in s.gone then s.outbox[id] + [m] else s.outbox[id]
  {
    assert to in s.sessions && to !in s.gone ==> to in s.senders;
  }

  // ----- The classes -----

  class SessionManager {
    var sessions: map<nat, nat>
    var nextId: nat

    constructor ()
      ensures sessions == map[] && nextId == IdAt(0)
    {
      sessions, nextId := map[], 1;
    }

    method CreateSession(peer: nat) returns (id: nat)
      modifies this
      ensures id == old(nextId) && nextId == (id + 1) % U64
      ensures sessions == old(sessions)[id := peer]
    {
      id := nextId;
      nextId := (nextId + 1) % U64;
      sessions := sessions[id := peer];
    }

    method CloseSession(id: nat) returns (peer: Option<nat>)
      modifies this`sessions
      ensures sessions == old(sessions) - {id}
      ensures peer == if id in old(sessions) then Some(old(sessions)[id]) else None
    {
      peer := if id in sessions then Some(sessions[id]) else None;
      sessions := sessions - {id};
    }

    function Count(): nat
      reads this
    {
      |sessions|
    }
  }

  lemma NextId(k: nat)
    ensures (IdAt(k) + 1) % U64 == IdAt(k + 1)
  {
    var q, r := (k + 1) / U64, (k + 1) % U64;
    assert k + 1 == q * U64 + r;
    if r + 1 == U64 {
      ModUnique(k + 2, U64, q + 1, 0);
    } else {
      ModUnique(k + 2, U64, q, r + 1);
    }
  }

  /** `Server`, with the channels its sessions own. */
  class Server {
    const maxConnections: nat
    const manager: SessionManager
    var sessionTokens: set<nat>
    var sessionSenders: set<nat>
    var shutdownToken: bool
    var cancelledTokens: set<nat>
    var droppedReceivers: set<nat>
    var channels: map<nat, seq<Message>>
    ghost var issued: nat

    ghost function Value(): State
      reads this, manager
    {
      State(maxConnections, issued, manager.sessions, sessionTokens, sessionSenders, cancelledTokens,
            shutdownToken, droppedReceivers, channels)
    }

    ghost predicate Valid()
      reads this, manager
    {
      manager.nextId == IdAt(issued) && sessionSenders <= channels.Keys
    }

    constructor (max: nat)
      ensures Valid() && Value() == Fresh(max) && fresh(manager)
    {
      maxConnections := max;
      manager := new SessionManager();
      sessionTokens, sessionSenders, shutdownToken, cancelledTokens := {}, {}, false, {};
      droppedReceivers, channels, issued := {}, map[], 0;
    }

    method HandleConnection(peer: nat)
      requires Valid()
      modifies this, manager
      ensures Valid() && Value() == Connected(old(Value()), peer)
    {
      if manager.Count() >= maxConnections {
        return;
      }
      NextId(issued);
      var id := manager.CreateSession(peer);
      issued := issued + 1;
      sessionTokens := sessionTokens + {id};
      channels := channels[id := []];
      sessionSenders := sessionSenders + {id};
    }

    /** Pushing into one channel fails exactly if its receiver was dropped. */
    method Push(id: nat, m: Message) returns (ok: bool)
      requires id in channels
      modifies this`channels
      ensures ok == (id !in droppedReceivers)
      ensures channels == if ok then Pushed(old(channels), {id}, m) else old(channels)
    {
      ok := id !in droppedReceivers;
      if ok {
        channels := channels[id := channels[id] + [m]];
      }
    }

    method HandleShutdown()
      requires Valid()
      modifies this
      ensures Valid() && Value() == ShutDown(old(Value()))
    {
      shutdownToken := true;
      sessionTokens := {};
      sessionSenders := {};
    }

    method HandleCloseSession(id: nat)
      requires Valid()
      modifies this, manager
      ensures Valid() && Value() == Closed(old(Value()), id)
    {
      if id in sessionTokens {
        sessionTokens := sessionTokens - {id};
        cancelledTokens := cancelledTokens + {id};
      }
      sessionSenders := sessionSenders - {id};
      var peer := manager.CloseSession(id);
    }

    method HandleBroadcast(m: Message)
      requires Valid()
      modifies this`sessionSenders, this`channels
      ensures Valid() && Value() == Broadcasted(old(Value()), m)
    {
      var todo, kept := sessionSenders, {};
      while todo != {}
        invariant todo <= old(sessionSenders) && kept == old(sessionSenders) - todo - droppedReceivers
        invariant channels == Pushed(old(channels), kept, m)
        invariant sessionSenders == old(sessionSenders)
        decreases todo
        modifies this`channels
      {
        ghost var some := Member(todo);
        var id :| id in todo;
        todo := todo - {id};
        var ok := Push(id, m);
        if ok {
          kept := kept + {id};
        }
      }
      sessionSenders := kept;
    }

    method HandleSendTo(id: nat, m: Message)
      requires Valid()
      modifies this`sessionSenders, this`channels
      ensures Valid() && Value() == SentTo(old(Value()), id, m)
    {
      if id in sessionSenders {
        var ok := Push(id, m);
        if !ok {
          sessionSenders := sessionSenders - {id};
        }
      }
    }

    /** `handle_command`: says whether the run loop ends. */
    method HandleCommand(op: Op) returns (stop: bool)
      requires Valid() && !shutdownToken
      requires op.Shutdown? || op.CloseSession? || op.Broadcast? || op.SendTo?
      modifies this, manager
      ensures Valid() && Value() == Step(old(Value()), op)
      ensures stop == op.Shutdown?
    {
      match op {
        case Shutdown => HandleShutdown();
        case CloseSession(id) => HandleCloseSession(id);
        case Broadcast(m) => HandleBroadcast(m);
        case SendTo(id, m) => HandleSendTo(id, m);
      }
      stop := op.Shutdown?;
    }

    /** A responder's `send` to its own session: an error exactly if the receiver is gone. */
    method Send(id: nat, m: Message) returns (ok: bool)
      requires Valid() && id in channels
      modifies this`channels
      ensures Valid() && Value() == Step(old(Value()), Respond(id, m))
      ensures ok <==> id !in droppedReceivers
    {
      ok := Push(id, m);
    }

    /** A responder's `send_to`: an error exactly if the session is unknown or its receiver is gone. */
    method SendToOther(id: nat, m: Message) returns (ok: bool)
      requires Valid()
      modifies this`channels
      ensures Valid() && Value() == Step(old(Value()), RespondTo(id, m))
      ensures ok <==> id in sessionSenders && id !in droppedReceivers
    {
      ok := false;
      if id in sessionSenders {
        ok := Push(id, m);
      }
    }
  }
}

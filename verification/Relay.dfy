/** The remote-access relay: client handlers, agent handlers and bridge agents as one transition
    system whose steps interleave freely. */
module Relay {
  import opened Text
  import opened Json

  type ReqId = nat

  type ConnId = nat

  /** Method, path, headers and body, carried unchanged. */
  datatype Content = Content(verb: string, path: string, headers: map<string, string>, body: Value)

  datatype Response = Response(status: int, body: Value)

  datatype Request = Request(id: ReqId, content: Content)

  /** Messages of an agent to the relay. */
  datatype Message = Register(agent: string) | Reply(id: ReqId, response: Response)

  /** Where the relay's goroutine for a connection is: reading, at the channel send with the mutex
      held, past the send with the mutex still held, or gone. */
  datatype Handler = Reading | Sending(id: ReqId, response: Response) | Deleting(id: ReqId) | Closed

  /** A connection: the relay's handler, both directions of the wire, and the request the agent's
      loop is working on. agent is the ID the handler has registered. */
  datatype Conn = Conn(
    open: bool,
    agent: Option<string>,
    handler: Handler,
    outbound: seq<Request>,
    serving: Option<Request>,
    inbound: seq<Message>)

  /** Where a client handler is. */
  datatype Phase = Arrived | Found | Sent | Waiting | Answered(response: Response) | TimedOut | Refused(status: int)

  datatype Client = Client(agent: string, content: Content, conn: ConnId, phase: Phase)

  /** What an agent did for a request: over which connection, with what content and result. */
  datatype Service = Service(conn: ConnId, content: Content, response: Response)

  /** pending is the key set of the pending map, each key standing for its own channel; holder is
      the connection whose handler holds the pending mutex between steps. */
  datatype State = State(
    agents: map<string, ConnId>,
    conns: map<ConnId, Conn>,
    pending: set<ReqId>,
    holder: Option<ConnId>,
    clients: map<ReqId, Client>,
    served: map<ReqId, Service>)

  const INITIAL := State(map[], map[], {}, None, map[], map[])

  datatype Event =
    // An agent dials and writes its registration; the network fails; the handler's read fails.
    | Connect(conn: ConnId, agent: string)
    | Drop(conn: ConnId)
    | ReadError(conn: ConnId)
    // The relay's handler reads a registration; reads a reply and finds its key, or does not; sends; deletes.
    | ReadRegister(conn: ConnId)
    | Accept(conn: ConnId)
    | Discard(conn: ConnId)
    | Rendezvous(conn: ConnId)
    | Delete(conn: ConnId)
    // The agent's loop takes a request and writes the response of its local server.
    | Take(conn: ConnId)
    | Respond(conn: ConnId, response: Response)
    // A client handler arrives; finds its agent, or does not; writes to an open connection, or to a
    // lost one; registers its channel; gives up.
    | Arrive(id: ReqId, agent: string, content: Content)
    | Find(id: ReqId)
    | Refuse(id: ReqId)
    | Write(id: ReqId)
    | WriteLost(id: ReqId)
    | Await(id: ReqId)
    | Timeout(id: ReqId)

  predicate IsWaiting(s: State, id: ReqId) { id in s.clients && s.clients[id].phase.Waiting? }

  predicate IsAnswered(s: State, id: ReqId) { id in s.clients && s.clients[id].phase.Answered? }

  predicate HasTimedOut(s: State, id: ReqId) { id in s.clients && s.clients[id].phase.TimedOut? }

  predicate Live(s: State, c: ConnId) { c in s.conns && s.conns[c].open }

  /** A client names an agent and the agents map has it. */
  predicate HasAgent(s: State, agent: string) { agent != "" && agent in s.agents }

  /** Looking a reply up takes the pending mutex. */
  predicate ReadsReply(s: State, c: ConnId) {
    HandlerReads(s, c) && s.conns[c].inbound != [] && s.conns[c].inbound[0].Reply? && s.holder.None?
  }

  predicate HandlerReads(s: State, c: ConnId) { c in s.conns && s.conns[c].handler == Reading }

  predicate Enabled(s: State, e: Event) {
    match e
    case Connect(c, _) => c !in s.conns
    case Drop(c) => Live(s, c)
    case ReadError(c) => HandlerReads(s, c) && !s.conns[c].open
    case ReadRegister(c) => HandlerReads(s, c) && s.conns[c].inbound != [] && s.conns[c].inbound[0].Register?
    case Accept(c) => ReadsReply(s, c) && s.conns[c].inbound[0].id in s.pending
    case Discard(c) => ReadsReply(s, c) && s.conns[c].inbound[0].id !in s.pending
    case Rendezvous(c) => c in s.conns && s.conns[c].handler.Sending? && IsWaiting(s, s.conns[c].handler.id)
    case Delete(c) => c in s.conns && s.conns[c].handler.Deleting?
    case Take(c) => Live(s, c) && s.conns[c].serving.None? && s.conns[c].outbound != []
    case Respond(c, _) => Live(s, c) && s.conns[c].serving.Some?
    case Arrive(id, _, _) => id !in s.clients
    case Find(id) => id in s.clients && s.clients[id].phase.Arrived? && HasAgent(s, s.clients[id].agent)
    case Refuse(id) => id in s.clients && s.clients[id].phase.Arrived? && !HasAgent(s, s.clients[id].agent)
    case Write(id) => id in s.clients && s.clients[id].phase == Found && Live(s, s.clients[id].conn)
    case WriteLost(id) => id in s.clients && s.clients[id].phase == Found && !Live(s, s.clients[id].conn)
    case Await(id) => id in s.clients && s.clients[id].phase.Sent? && s.holder.None?
    case Timeout(id) => IsWaiting(s, id)
  }

  function WithConn(s: State, c: ConnId, conn: Conn): State { s.(conns := s.conns[c := conn]) }

  function WithPhase(s: State, id: ReqId, phase: Phase): State
    requires id in s.clients
  {
    s.(clients := s.clients[id := s.clients[id].(phase := phase)])
  }

  function Next(s: State, e: Event): State
    requires Enabled(s, e)
  {
    match e
    case Connect(c, agent) => WithConn(s, c, Conn(true, None, Reading, [], None, [Register(agent)]))
    case Drop(c) => WithConn(s, c, s.conns[c].(open := false, outbound := [], serving := None))
    case ReadError(c) =>
      var conn := s.conns[c];
      WithConn(s, c, conn.(handler := Closed)).(
        agents := if conn.agent.Some? && conn.agent.value != "" then s.agents - {conn.agent.value} else s.agents)
    case ReadRegister(c) =>
      var conn := s.conns[c];
      var agent := conn.inbound[0].agent;
      WithConn(s, c, conn.(agent := Some(agent), inbound := conn.inbound[1..])).(agents := s.agents[agent := c])
    case Accept(c) =>
      var conn := s.conns[c];
      var reply := conn.inbound[0];
      var sending := Sending(reply.id, reply.response);
      WithConn(s, c, conn.(handler := sending, inbound := conn.inbound[1..])).(holder := Some(c))
    case Discard(c) => WithConn(s, c, s.conns[c].(inbound := s.conns[c].inbound[1..]))
    case Rendezvous(c) =>
      var h := s.conns[c].handler;
      WithPhase(WithConn(s, c, s.conns[c].(handler := Deleting(h.id))), h.id, Answered(h.response))
    case Delete(c) =>
      var id := s.conns[c].handler.id;
      WithConn(s, c, s.conns[c].(handler := Reading)).(pending := s.pending - {id}, holder := None)
    case Take(c) =>
      var conn := s.conns[c];
      WithConn(s, c, conn.(serving := Some(conn.outbound[0]), outbound := conn.outbound[1..]))
    case Respond(c, response) =>
      var conn := s.conns[c];
      var request := conn.serving.value;
      WithConn(s, c, conn.(serving := None, inbound := conn.inbound + [Reply(request.id, response)])).(
        served := s.served[request.id := Service(c, request.content, response)])
    case Arrive(id, agent, content) => s.(clients := s.clients[id := Client(agent, content, 0, Arrived)])
    case Find(id) =>
      var client := s.clients[id];
      s.(clients := s.clients[id := client.(conn := s.agents[client.agent], phase := Found)])
    case Refuse(id) => WithPhase(s, id, Refused(if s.clients[id].agent == "" then 490 else 491))
    case Write(id) =>
      var client := s.clients[id];
      var conn := s.conns[client.conn];
      WithPhase(WithConn(s, client.conn, conn.(outbound := conn.outbound + [Request(id, client.content)])), id, Sent)
    case WriteLost(id) => WithPhase(s, id, Sent)
    case Await(id) => WithPhase(s, id, Waiting).(pending := s.pending + {id})
    case Timeout(id) => WithPhase(s, id, TimedOut)
  }

  // ---- Runs ----

  predicate Possible(s: State, events: seq<Event>)
    decreases events
  {
    events == [] || (Enabled(s, events[0]) && Possible(Next(s, events[0]), events[1..]))
  }

  function After(s: State, events: seq<Event>): State
    requires Possible(s, events)
    decreases events
  {
    if events == [] then s else After(Next(s, events[0]), events[1..])
  }

  // ---- What every step keeps ----

  /** Registered and not answered. */
  predicate IsOpen(s: State, id: ReqId) { IsWaiting(s, id) || HasTimedOut(s, id) }

  predicate Holds(h: Handler) { h.Sending? || h.Deleting? }

  /** A handler is inside the critical section exactly when it is the holder; what it sends is for
      a request that is still registered, what it deletes has been answered. */
  ghost predicate Exclusive(s: State) {
    && (s.holder.Some? ==> s.holder.value in s.conns && Holds(s.conns[s.holder.value].handler))
    && (forall c | c in s.conns && Holds(s.conns[c].handler) :: s.holder == Some(c))
    && (forall c | c in s.conns && s.conns[c].handler.Sending? ::
          IsOpen(s, s.conns[c].handler.id))
    && (forall c | c in s.conns && s.conns[c].handler.Deleting? :: IsAnswered(s, s.conns[c].handler.id))
  }

  predicate BeingDeleted(s: State, id: ReqId) {
    s.holder.Some? && s.holder.value in s.conns && s.conns[s.holder.value].handler == Deleting(id)
  }

  /** The keys of the pending map are exactly the waiting and the timed-out requests, and the
      answered one whose key the holder is about to delete. */
  ghost predicate KeysAreOpenRequests(s: State) {
    forall id :: id in s.pending <==> IsOpen(s, id) || BeingDeleted(s, id)
  }

  /** The response is the one the agent gave for this very request. */
  predicate IsServed(s: State, id: ReqId, response: Response) {
    id in s.served && s.served[id].response == response
  }

  /** Responses in a handler's hand, on the wire and at the client all come from the agent. */
  ghost predicate ResponsesAreServed(s: State) {
    && (forall c | c in s.conns && s.conns[c].handler.Sending? ::
          IsServed(s, s.conns[c].handler.id, s.conns[c].handler.response))
    && (forall c, m | c in s.conns && m in s.conns[c].inbound && m.Reply? :: IsServed(s, m.id, m.response))
    && (forall id | IsAnswered(s, id) :: IsServed(s, id, s.clients[id].phase.response))
  }

  /** Written, and not answered so far. */
  predicate Unanswered(phase: Phase) { phase.Sent? || phase.Waiting? || phase.TimedOut? }

  /** A request travels with its own content, over the connection it was written to, unserved. */
  predicate Travels(s: State, c: ConnId, r: Request) {
    && r.id in s.clients && s.clients[r.id].content == r.content && s.clients[r.id].conn == c
    && Unanswered(s.clients[r.id].phase)
    && r.id !in s.served
  }

  /** Requests on the wire and in service: each at most once. */
  ghost predicate RequestsTravelOnce(s: State) {
    && (forall c, r | c in s.conns && r in s.conns[c].outbound :: Travels(s, c, r))
    && (forall c | c in s.conns && s.conns[c].serving.Some? :: Travels(s, c, s.conns[c].serving.value))
    && (forall c | c in s.conns :: NoRepeats(s.conns[c]))
  }

  ghost predicate NoRepeats(conn: Conn) {
    && (forall i, j :: 0 <= i < j < |conn.outbound| ==> conn.outbound[i].id != conn.outbound[j].id)
    && (conn.serving.Some? ==> forall r | r in conn.outbound :: r.id != conn.serving.value.id)
  }

  /** Services match their requests: same connection, same content. */
  ghost predicate ServicesMatch(s: State) {
    forall id | id in s.served ::
      && id in s.clients && s.clients[id].conn == s.served[id].conn && s.clients[id].content == s.served[id].content
      && (Unanswered(s.clients[id].phase) || s.clients[id].phase.Answered?)
  }

  /** A response on the wire is for a served, unanswered request, over the connection that served it. */
  predicate ReplyTravels(s: State, c: ConnId, id: ReqId) {
    && id in s.served && s.served[id].conn == c
    && id in s.clients && Unanswered(s.clients[id].phase)
  }

  /** Responses on the wire and in a handler's hand: each at most once. */
  ghost predicate RepliesTravelOnce(s: State) {
    && (forall c, m | c in s.conns && m in s.conns[c].inbound && m.Reply? :: ReplyTravels(s, c, m.id))
    && (forall c | c in s.conns && s.conns[c].handler.Sending? :: ReplyTravels(s, c, s.conns[c].handler.id))
    && (forall c | c in s.conns :: RepliesOnce(s.conns[c]))
  }

  predicate RepliesOnce(conn: Conn) {
    && (forall i, j | 0 <= i < j < |conn.inbound| && conn.inbound[i].Reply? && conn.inbound[j].Reply? ::
          conn.inbound[i].id != conn.inbound[j].id)
    && (conn.handler.Sending? ==> forall m | m in conn.inbound && m.Reply? :: m.id != conn.handler.id)
  }

  /** A connection registers one ID only, and requests go to a connection registered under the ID
      they ask for. */
  ghost predicate Addressed(s: State) {
    && (forall a | a in s.agents :: s.agents[a] in s.conns && s.conns[s.agents[a]].agent == Some(a))
    && (forall c | c in s.conns :: RegistersOnce(s.conns[c]))
    && (forall id | id in s.clients && HasConn(s.clients[id].phase) ::
          s.clients[id].conn in s.conns && s.conns[s.clients[id].conn].agent == Some(s.clients[id].agent))
  }

  predicate HasConn(phase: Phase) { !phase.Arrived? && !phase.Refused? }

  predicate RegistersOnce(conn: Conn) {
    forall i | 0 <= i < |conn.inbound| && conn.inbound[i].Register? :: i == 0 && conn.agent.None?
  }

  /** A handler ends only after its connection, and a lost connection holds no requests. */
  ghost predicate ClosedIsDown(s: State) {
    forall c | c in s.conns ::
      && (s.conns[c].handler == Closed ==> !s.conns[c].open)
      && (!s.conns[c].open ==> s.conns[c].outbound == [] && s.conns[c].serving.None?)
  }

  ghost predicate Inv(s: State) {
    && Exclusive(s) && KeysAreOpenRequests(s)
    && ResponsesAreServed(s) && RequestsTravelOnce(s) && RepliesTravelOnce(s) && ServicesMatch(s)
    && Addressed(s) && ClosedIsDown(s)
  }

  // ---- The wire: responses, requests and services ----

  ghost predicate Wire(s: State) {
    ResponsesAreServed(s) && RequestsTravelOnce(s) && ServicesMatch(s)
  }

  /** One client changed and nothing on the wire: its request stays what it was once written. */
  predicate ClientMoves(s: State, t: State, id: ReqId) {
    && t.conns == s.conns && t.served == s.served
    && id in t.clients && t.clients == s.clients[id := t.clients[id]]
    && !t.clients[id].phase.Answered?
    && (id in s.clients && Unanswered(s.clients[id].phase) ==>
          && Unanswered(t.clients[id].phase)
          && t.clients[id].conn == s.clients[id].conn && t.clients[id].content == s.clients[id].content)
    && !IsAnswered(s, id)
  }

  lemma {:induction false} ClientMoveKeepsWire(s: State, t: State, id: ReqId)
    requires Wire(s) && ClientMoves(s, t, id)
    ensures Wire(t)
  {
  }

  /** One connection changed without a new response or request: what is left on it was there. */
  predicate ConnMoves(s: State, t: State, c: ConnId) {
    && t.clients == s.clients && t.served == s.served
    && c in s.conns && c in t.conns && t.conns == s.conns[c := t.conns[c]]
    && (forall r | r in t.conns[c].outbound :: r in s.conns[c].outbound)
    && (t.conns[c].serving.Some? ==>
        t.conns[c].serving == s.conns[c].serving || t.conns[c].serving.value in s.conns[c].outbound)
    && (forall m | m in t.conns[c].inbound :: m in s.conns[c].inbound)
    && (t.conns[c].handler.Sending? ==>
          || t.conns[c].handler == s.conns[c].handler
          || Reply(t.conns[c].handler.id, t.conns[c].handler.response) in s.conns[c].inbound)
  }

  lemma {:induction false} ConnMoveKeepsWire(s: State, t: State, c: ConnId)
    requires Wire(s) && ConnMoves(s, t, c) && NoRepeats(t.conns[c])
    ensures Wire(t)
  {
  }

  lemma {:induction false} TakeKeepsNoRepeats(s: State, c: ConnId)
    requires RequestsTravelOnce(s) && Enabled(s, Take(c))
    ensures NoRepeats(Next(s, Take(c)).conns[c])
  {
    var conn := s.conns[c];
    assert NoRepeats(conn);
    forall r | r in conn.outbound[1..] ensures r.id != conn.outbound[0].id {
      var i :| 0 <= i < |conn.outbound[1..]| && conn.outbound[1..][i] == r;
      assert conn.outbound[i + 1] == r;
    }
    assert forall i | 0 <= i < |conn.outbound[1..]| :: conn.outbound[1..][i] == conn.outbound[i + 1];
  }

  lemma {:induction false} RespondKeepsWire(s: State, c: ConnId, response: Response)
    requires Wire(s) && Enabled(s, Respond(c, response))
    ensures Wire(Next(s, Respond(c, response)))
  {
  }

  lemma {:induction false} RendezvousKeepsWire(s: State, c: ConnId)
    requires Wire(s) && Enabled(s, Rendezvous(c))
    ensures Wire(Next(s, Rendezvous(c)))
  {
  }

  lemma {:induction false} WriteKeepsWire(s: State, id: ReqId)
    requires Wire(s) && Enabled(s, Write(id))
    ensures Wire(Next(s, Write(id)))
  {
    var t := Next(s, Write(id));
    var c := s.clients[id].conn;
    assert forall r | r in s.conns[c].outbound :: Travels(s, c, r) && r.id != id;
    assert NoRepeats(t.conns[c]) by {
      assert NoRepeats(s.conns[c]);
    }
    WrittenRequestsTravel(s, id);
  }

  lemma {:induction false} WrittenRequestsTravel(s: State, id: ReqId)
    requires RequestsTravelOnce(s) && ServicesMatch(s) && Enabled(s, Write(id))
    ensures var t := Next(s, Write(id));
            && (forall c, r | c in t.conns && r in t.conns[c].outbound :: Travels(t, c, r))
            && (forall c | c in t.conns && t.conns[c].serving.Some? :: Travels(t, c, t.conns[c].serving.value))
  {
    var t := Next(s, Write(id));
    forall c, r | c in t.conns && r in t.conns[c].outbound ensures Travels(t, c, r) {
      if r != Request(id, s.clients[id].content) {
        assert r in s.conns[c].outbound && Travels(s, c, r);
      }
    }
  }

  lemma {:induction false} ConnectKeepsWire(s: State, c: ConnId, agent: string)
    requires Wire(s) && Enabled(s, Connect(c, agent))
    ensures Wire(Next(s, Connect(c, agent)))
  {
  }

  lemma {:induction false} StepKeepsWire(s: State, e: Event)
    requires Wire(s) && Enabled(s, e)
    ensures Wire(Next(s, e))
  {
    var t := Next(s, e);
    if e.Connect? {
      ConnectKeepsWire(s, e.conn, e.agent);
    } else if e.Respond? {
      RespondKeepsWire(s, e.conn, e.response);
    } else if e.Rendezvous? {
      RendezvousKeepsWire(s, e.conn);
    } else if e.Write? {
      WriteKeepsWire(s, e.id);
    } else if e.Take? {
      TakeKeepsNoRepeats(s, e.conn);
      ConnMoveKeepsWire(s, t, e.conn);
    } else if e.Drop? || e.ReadError? || e.ReadRegister? || e.Accept? || e.Discard? || e.Delete? {
      ConnMoveKeepsWire(s, t, e.conn);
    } else {
      ClientMoveKeepsWire(s, t, e.id);
    }
  }

  // ---- The wire: responses travel once ----

  lemma {:induction false} ClientMoveKeepsReplies(s: State, t: State, id: ReqId)
    requires RepliesTravelOnce(s) && ClientMoves(s, t, id)
    ensures RepliesTravelOnce(t)
  {
  }

  lemma {:induction false} ConnMoveKeepsReplies(s: State, t: State, c: ConnId)
    requires RepliesTravelOnce(s) && ConnMoves(s, t, c) && RepliesOnce(t.conns[c])
    ensures RepliesTravelOnce(t)
  {
  }

  /** What is left after taking the first message has no reply to the same request. */
  lemma {:induction false} TailRepliesOnce(conn: Conn)
    requires RepliesOnce(conn) && conn.inbound != []
    ensures forall i, j |
              0 <= i < j < |conn.inbound[1..]| && conn.inbound[1..][i].Reply? && conn.inbound[1..][j].Reply? ::
              conn.inbound[1..][i].id != conn.inbound[1..][j].id
    ensures conn.inbound[0].Reply? ==> forall m | m in conn.inbound[1..] && m.Reply? :: m.id != conn.inbound[0].id
  {
    var rest := conn.inbound[1..];
    assert forall i | 0 <= i < |rest| :: rest[i] == conn.inbound[i + 1];
    forall m | m in rest && m.Reply? && conn.inbound[0].Reply? ensures m.id != conn.inbound[0].id {
      var i :| 0 <= i < |rest| && rest[i] == m;
      assert conn.inbound[i + 1] == m;
    }
  }

  lemma {:induction false} RespondKeepsReplies(s: State, c: ConnId, response: Response)
    requires ServicesMatch(s) && RequestsTravelOnce(s) && RepliesTravelOnce(s) && Enabled(s, Respond(c, response))
    ensures RepliesTravelOnce(Next(s, Respond(c, response)))
  {
    assert RepliesOnce(s.conns[c]);
  }

  /** The answered request has no second reply, on this connection or another. */
  lemma {:induction false} RendezvousKeepsReplies(s: State, c: ConnId)
    requires Exclusive(s) && RepliesTravelOnce(s) && Enabled(s, Rendezvous(c))
    ensures RepliesTravelOnce(Next(s, Rendezvous(c)))
  {
    assert RepliesOnce(s.conns[c]);
  }

  lemma {:induction false} WriteKeepsReplies(s: State, id: ReqId)
    requires RepliesTravelOnce(s) && Enabled(s, Write(id))
    ensures RepliesTravelOnce(Next(s, Write(id)))
  {
    assert RepliesOnce(s.conns[s.clients[id].conn]);
  }

  /** Reading the first message, and the other steps of one connection. */
  lemma {:induction false} ReadKeepsReplies(s: State, e: Event)
    requires RepliesTravelOnce(s) && Enabled(s, e) && (e.ReadRegister? || e.Accept? || e.Discard?)
    ensures RepliesTravelOnce(Next(s, e))
  {
    assert RepliesOnce(s.conns[e.conn]);
    TailRepliesOnce(s.conns[e.conn]);
    ConnMoveKeepsReplies(s, Next(s, e), e.conn);
  }

  lemma {:induction false} ConnStepKeepsReplies(s: State, e: Event)
    requires RepliesTravelOnce(s) && Enabled(s, e) && (e.Take? || e.Drop? || e.ReadError? || e.Delete?)
    ensures RepliesTravelOnce(Next(s, e))
  {
    assert RepliesOnce(s.conns[e.conn]);
    ConnMoveKeepsReplies(s, Next(s, e), e.conn);
  }

  lemma {:induction false} StepKeepsReplies(s: State, e: Event)
    requires Exclusive(s) && ServicesMatch(s) && RequestsTravelOnce(s) && RepliesTravelOnce(s) && Enabled(s, e)
    ensures RepliesTravelOnce(Next(s, e))
  {
    if e.Connect? {
    } else if e.Respond? {
      RespondKeepsReplies(s, e.conn, e.response);
    } else if e.Rendezvous? {
      RendezvousKeepsReplies(s, e.conn);
    } else if e.Write? {
      WriteKeepsReplies(s, e.id);
    } else if e.ReadRegister? || e.Accept? || e.Discard? {
      ReadKeepsReplies(s, e);
    } else if e.Take? || e.Drop? || e.ReadError? || e.Delete? {
      ConnStepKeepsReplies(s, e);
    } else {
      ClientMoveKeepsReplies(s, Next(s, e), e.id);
    }
  }

  // ---- The critical section and the pending map ----

  ghost predicate Critical(s: State) {
    Exclusive(s) && KeysAreOpenRequests(s)
  }

  /** Mutex, keys, open and answered requests are untouched. */
  ghost predicate Outside(s: State, t: State) {
    && t.holder == s.holder && t.pending == s.pending
    && (forall c | c in s.conns && Holds(s.conns[c].handler) ::
        c in t.conns && t.conns[c].handler == s.conns[c].handler)
    && (forall c | c in t.conns && Holds(t.conns[c].handler) ::
        c in s.conns && t.conns[c].handler == s.conns[c].handler)
    && (forall id :: IsOpen(t, id) <==> IsOpen(s, id))
    && (forall id :: IsAnswered(t, id) <==> IsAnswered(s, id))
    && (forall id :: IsWaiting(t, id) ==> IsWaiting(s, id))
  }

  lemma {:induction false} OutsideKeepsCritical(s: State, t: State)
    requires Critical(s) && Outside(s, t)
    ensures Critical(t)
  {
    assert forall id :: BeingDeleted(t, id) <==> BeingDeleted(s, id);
  }

  /** The handler of the one connection that may change stays where it is, or outside. */
  predicate HandlerStays(s: State, t: State, c: ConnId) {
    && c in t.conns && t.conns == s.conns[c := t.conns[c]]
    && if c in s.conns && Holds(s.conns[c].handler) then t.conns[c].handler == s.conns[c].handler
       else !Holds(t.conns[c].handler)
  }

  /** The one client that may change stays open or closed, and is not answered. */
  predicate ClientStays(s: State, t: State, id: ReqId) {
    && id in t.clients && t.clients == s.clients[id := t.clients[id]]
    && !IsAnswered(s, id) && !IsAnswered(t, id)
    && IsOpen(t, id) == IsOpen(s, id) && (IsWaiting(t, id) ==> IsWaiting(s, id))
  }

  lemma {:induction false} QuietIsOutside(s: State, t: State, c: ConnId, id: ReqId)
    requires t.holder == s.holder && t.pending == s.pending
    requires t.conns == s.conns || HandlerStays(s, t, c)
    requires t.clients == s.clients || ClientStays(s, t, id)
    ensures Outside(s, t)
  {
  }

  /** Every step but taking and releasing the mutex and sending stays outside. */
  lemma {:induction false} OtherStepsAreOutside(s: State, e: Event)
    requires Enabled(s, e) && !e.Accept? && !e.Rendezvous? && !e.Delete? && !e.Await?
    ensures Outside(s, Next(s, e))
  {
    var t := Next(s, e);
    match e {
      case Write(id) => QuietIsOutside(s, t, s.clients[id].conn, id);
      case Arrive(id, _, _) => QuietIsOutside(s, t, 0, id);
      case Find(id) => QuietIsOutside(s, t, 0, id);
      case Refuse(id) => QuietIsOutside(s, t, 0, id);
      case WriteLost(id) => QuietIsOutside(s, t, 0, id);
      case Timeout(id) => QuietIsOutside(s, t, 0, id);
      case Connect(c, _) => QuietIsOutside(s, t, c, 0);
      case Drop(c) => QuietIsOutside(s, t, c, 0);
      case ReadError(c) => QuietIsOutside(s, t, c, 0);
      case ReadRegister(c) => QuietIsOutside(s, t, c, 0);
      case Discard(c) => QuietIsOutside(s, t, c, 0);
      case Take(c) => QuietIsOutside(s, t, c, 0);
      case Respond(c, _) => QuietIsOutside(s, t, c, 0);
      case _ =>
    }
  }

  lemma {:induction false} AcceptKeepsCritical(s: State, c: ConnId)
    requires Critical(s) && Enabled(s, Accept(c))
    ensures Critical(Next(s, Accept(c)))
  {
  }

  lemma {:induction false} RendezvousKeepsCritical(s: State, c: ConnId)
    requires Critical(s) && Enabled(s, Rendezvous(c))
    ensures Critical(Next(s, Rendezvous(c)))
  {
  }

  lemma {:induction false} DeleteKeepsCritical(s: State, c: ConnId)
    requires Critical(s) && Enabled(s, Delete(c))
    ensures Critical(Next(s, Delete(c)))
  {
  }

  lemma {:induction false} AwaitKeepsCritical(s: State, id: ReqId)
    requires Critical(s) && Enabled(s, Await(id))
    ensures Critical(Next(s, Await(id)))
  {
  }

  lemma {:induction false} StepKeepsCritical(s: State, e: Event)
    requires Critical(s) && Enabled(s, e)
    ensures Critical(Next(s, e))
  {
    if e.Accept? {
      AcceptKeepsCritical(s, e.conn);
    } else if e.Rendezvous? {
      RendezvousKeepsCritical(s, e.conn);
    } else if e.Delete? {
      DeleteKeepsCritical(s, e.conn);
    } else if e.Await? {
      AwaitKeepsCritical(s, e.id);
    } else {
      OtherStepsAreOutside(s, e);
      OutsideKeepsCritical(s, Next(s, e));
    }
  }

  // ---- Addresses ----

  /** One connection and one client changed, neither in what it is registered as or written to. */
  predicate SameAddresses(s: State, t: State, c: ConnId, id: ReqId) {
    && t.agents == s.agents
    && (t.conns == s.conns || (c in s.conns && c in t.conns && t.conns == s.conns[c := t.conns[c]]
                               && t.conns[c].agent == s.conns[c].agent && RegistersOnce(t.conns[c])))
    && (t.clients == s.clients || (id in s.clients && id in t.clients && t.clients == s.clients[id := t.clients[id]]
                                   && t.clients[id].agent == s.clients[id].agent
                                   && t.clients[id].conn == s.clients[id].conn
                                   && (HasConn(t.clients[id].phase) ==> HasConn(s.clients[id].phase))))
  }

  lemma {:induction false} SameAddressesKeepAddressed(s: State, t: State, c: ConnId, id: ReqId)
    requires Addressed(s) && SameAddresses(s, t, c, id)
    ensures Addressed(t)
  {
  }

  lemma {:induction false} RegistrationKeepsAddressed(s: State, e: Event)
    requires Addressed(s) && Enabled(s, e) && (e.ReadRegister? || e.ReadError?)
    ensures Addressed(Next(s, e))
  {
  }

  lemma {:induction false} ArrivalKeepsAddressed(s: State, e: Event)
    requires Addressed(s) && Enabled(s, e) && (e.Connect? || e.Arrive? || e.Find?)
    ensures Addressed(Next(s, e))
  {
  }

  lemma {:induction false} StepKeepsAddressed(s: State, e: Event)
    requires Addressed(s) && Enabled(s, e)
    ensures Addressed(Next(s, e))
  {
    var t := Next(s, e);
    match e {
      case Connect(_, _) => ArrivalKeepsAddressed(s, e);
      case Arrive(_, _, _) => ArrivalKeepsAddressed(s, e);
      case Find(_) => ArrivalKeepsAddressed(s, e);
      case ReadRegister(_) => RegistrationKeepsAddressed(s, e);
      case ReadError(_) => RegistrationKeepsAddressed(s, e);
      case Rendezvous(c) => SameAddressesKeepAddressed(s, t, c, s.conns[c].handler.id);
      case Write(id) => SameAddressesKeepAddressed(s, t, s.clients[id].conn, id);
      case Refuse(id) => SameAddressesKeepAddressed(s, t, 0, id);
      case WriteLost(id) => SameAddressesKeepAddressed(s, t, 0, id);
      case Await(id) => SameAddressesKeepAddressed(s, t, 0, id);
      case Timeout(id) => SameAddressesKeepAddressed(s, t, 0, id);
      case _ => SameAddressesKeepAddressed(s, t, e.conn, 0);
    }
  }

  lemma {:induction false} StepKeepsClosedDown(s: State, e: Event)
    requires ClosedIsDown(s) && Enabled(s, e)
    ensures ClosedIsDown(Next(s, e))
  {
    var t := Next(s, e);
    forall c | c in t.conns
      ensures t.conns[c].handler == Closed ==> !t.conns[c].open
      ensures !t.conns[c].open ==> t.conns[c].outbound == [] && t.conns[c].serving.None?
    {
      if c in s.conns && !e.Write? && (StepOf(e) ==> e.conn != c) {
        ElsewhereNothingMoves(s, e, c);
      }
    }
  }

  /** Every step keeps all of it. */
  lemma {:induction false} StepKeepsInv(s: State, e: Event)
    requires Inv(s) && Enabled(s, e)
    ensures Inv(Next(s, e))
  {
    StepKeepsWire(s, e);
    StepKeepsReplies(s, e);
    StepKeepsCritical(s, e);
    StepKeepsAddressed(s, e);
    StepKeepsClosedDown(s, e);
  }

  lemma {:induction false} RunKeepsInv(s: State, events: seq<Event>)
    requires Inv(s) && Possible(s, events)
    ensures Inv(After(s, events))
    decreases events
  {
    if events != [] {
      StepKeepsInv(s, events[0]);
      RunKeepsInv(Next(s, events[0]), events[1..]);
    }
  }

  // ---- Correlation ----

  /** In every reachable state, a client that has been answered holds the status and body that an
      agent registered under the ID it asked for produced for this very request, from the content
      this client sent. */
  lemma {:induction false} AnswersAreCorrelated(events: seq<Event>, id: ReqId)
    requires Possible(INITIAL, events) && IsAnswered(After(INITIAL, events), id)
    ensures var s := After(INITIAL, events);
            && id in s.served
            && s.clients[id].phase.response == s.served[id].response
            && s.clients[id].content == s.served[id].content
            && s.served[id].conn in s.conns && s.conns[s.served[id].conn].agent == Some(s.clients[id].agent)
  {
    RunKeepsInv(INITIAL, events);
  }

  /** What the model keeps of a client is what it arrived with, of a service what the agent gave: over
      a run, both come from an event of it. */
  lemma {:induction false} StateComesFromEvents(s: State, events: seq<Event>, id: ReqId)
    requires Possible(s, events)
    ensures var t := After(s, events);
            && (id in t.clients && id !in s.clients ==>
                Arrive(id, t.clients[id].agent, t.clients[id].content) in events)
            && (id in s.clients ==> id in t.clients && t.clients[id].agent == s.clients[id].agent
                                    && t.clients[id].content == s.clients[id].content)
            && (id in t.served ==> (id in s.served && t.served[id] == s.served[id])
                                   || Respond(t.served[id].conn, t.served[id].response) in events)
    decreases events
  {
    if events != [] {
      ClientsComeFromEvents(s, events[0], id);
      StateComesFromEvents(Next(s, events[0]), events[1..], id);
      assert forall e | e in events[1..] :: e in events;
    }
  }

  lemma {:induction false} ClientsComeFromEvents(s: State, e: Event, id: ReqId)
    requires Enabled(s, e)
    ensures var t := Next(s, e);
            && (id in t.clients && id !in s.clients ==> e == Arrive(id, t.clients[id].agent, t.clients[id].content))
            && (id in s.clients ==> id in t.clients && t.clients[id].agent == s.clients[id].agent
                                    && t.clients[id].content == s.clients[id].content)
            && (id in t.served ==> (id in s.served && t.served[id] == s.served[id])
                                   || e == Respond(t.served[id].conn, t.served[id].response))
  {
  }

  /** So every answer of a run from the start is the response an agent gave in it, over a connection
      registered under the ID the client arrived with, to the very content it arrived with. */
  lemma {:induction false} EveryAnswerWasGiven(events: seq<Event>, id: ReqId)
    requires Possible(INITIAL, events) && IsAnswered(After(INITIAL, events), id)
    ensures var s := After(INITIAL, events); var client := s.clients[id];
            && Arrive(id, client.agent, client.content) in events
            && id in s.served && s.served[id].content == client.content
            && Respond(s.served[id].conn, client.phase.response) in events
            && s.served[id].conn in s.conns && s.conns[s.served[id].conn].agent == Some(client.agent)
  {
    AnswersAreCorrelated(events, id);
    StateComesFromEvents(INITIAL, events, id);
  }

  /** The pending map never holds more or less than the open requests, plus the one a handler has
      answered and is about to delete. */
  lemma {:induction false} PendingKeysAreExact(events: seq<Event>, id: ReqId)
    requires Possible(INITIAL, events)
    ensures var s := After(INITIAL, events);
            id in s.pending <==> IsWaiting(s, id) || HasTimedOut(s, id) || (IsAnswered(s, id) && BeingDeleted(s, id))
  {
    RunKeepsInv(INITIAL, events);
  }

  predicate Final(phase: Phase) { phase.Answered? || phase.TimedOut? || phase.Refused? }

  lemma {:induction false} StepKeepsOutcomes(s: State, e: Event, id: ReqId)
    requires Enabled(s, e) && id in s.clients && Final(s.clients[id].phase)
    ensures id in Next(s, e).clients && Next(s, e).clients[id] == s.clients[id]
  {
  }

  lemma {:induction false} StepKeepsServices(s: State, e: Event, id: ReqId)
    requires RequestsTravelOnce(s) && Enabled(s, e) && id in s.served
    ensures id in Next(s, e).served && Next(s, e).served[id] == s.served[id]
  {
  }

  /** No agent will work on the request: it is not on its way to one, and none is serving it. */
  ghost predicate NobodyServes(s: State, id: ReqId) {
    forall c | c in s.conns ::
      && (forall r | r in s.conns[c].outbound :: r.id != id)
      && (s.conns[c].serving.Some? ==> s.conns[c].serving.value.id != id)
  }

  /** Each request is served at most once and answered at most once: whatever happens later, an
      outcome and a service stay what they are, and no agent ever gets a served request again. */
  lemma {:induction false} OutcomesAreFinal(s: State, events: seq<Event>, id: ReqId)
    requires Inv(s) && Possible(s, events)
    ensures id in s.clients && Final(s.clients[id].phase) ==>
              id in After(s, events).clients && After(s, events).clients[id] == s.clients[id]
    ensures id in s.served ==> id in After(s, events).served && After(s, events).served[id] == s.served[id]
    ensures id in s.served ==> NobodyServes(After(s, events), id)
    decreases events
  {
    if events != [] {
      StepKeepsInv(s, events[0]);
      if id in s.clients && Final(s.clients[id].phase) {
        StepKeepsOutcomes(s, events[0], id);
      }
      if id in s.served {
        StepKeepsServices(s, events[0], id);
      }
      OutcomesAreFinal(Next(s, events[0]), events[1..], id);
    }
  }

  // ---- Refusals ----

  /** A client is refused with 490 when it names no agent, with 491 when the one it names is not
      registered at that moment, and in no other way; otherwise it goes on with that agent's connection. */
  lemma {:induction false} RefusedIff(s: State, e: Event, id: ReqId, status: int)
    requires Enabled(s, e) && id in s.clients && s.clients[id].phase.Arrived?
    ensures var agent, client := s.clients[id].agent, Next(s, e).clients[id];
            && (client.phase == Refused(status) <==>
                  && e == Refuse(id)
                  && ((status == 490 && agent == "") || (status == 491 && agent != "" && agent !in s.agents)))
            && (client.phase == Found ==> agent != "" && agent in s.agents && client.conn == s.agents[agent])
            && (client.phase.Arrived? || client.phase.Refused? || client.phase == Found)
  {
  }

  // ---- Deadlock ----

  /** The mutex is held by a handler at the channel send of a client that has timed out. */
  predicate Stuck(s: State) {
    s.holder.Some? && s.holder.value in s.conns && s.conns[s.holder.value].handler.Sending?
    && HasTimedOut(s, s.conns[s.holder.value].handler.id)
  }

  /** The holder cannot take a step exactly in that situation. */
  lemma {:induction false} HolderBlockedIffStuck(s: State)
    requires Inv(s) && s.holder.Some?
    ensures !Enabled(s, Rendezvous(s.holder.value)) && !Enabled(s, Delete(s.holder.value)) <==> Stuck(s)
  {
  }

  /** A reply is looked up after its client timed out, or the client times out while its reply is
      at the channel send. */
  predicate Late(s: State, e: Event) {
    || (e.Accept? && Enabled(s, e) && HasTimedOut(s, s.conns[e.conn].inbound[0].id))
    || (e.Timeout? && s.holder.Some? && s.holder.value in s.conns
        && s.conns[s.holder.value].handler.Sending? && s.conns[s.holder.value].handler.id == e.id)
  }

  /** Only a late step leads into the deadlock, and every late step does. */
  lemma {:induction false} StuckIffLate(s: State, e: Event)
    requires Critical(s) && Enabled(s, e) && !Stuck(s)
    ensures Stuck(Next(s, e)) <==> Late(s, e)
  {
    var t := Next(s, e);
    if !e.Accept? && !e.Rendezvous? && !e.Delete? && !e.Await? {
      OtherStepsAreOutside(s, e);
      assert !e.Timeout? ==> forall id | IsWaiting(s, id) :: IsWaiting(t, id);
    }
  }

  /** No event of the run is late. */
  predicate Timely(s: State, events: seq<Event>)
    requires Possible(s, events)
    decreases events
  {
    events == [] || (!Late(s, events[0]) && Timely(Next(s, events[0]), events[1..]))
  }

  /** A run gets stuck if and only if some event of it is late. */
  lemma {:induction false} StuckRunIffLate(s: State, events: seq<Event>)
    requires Inv(s) && !Stuck(s) && Possible(s, events)
    ensures Stuck(After(s, events)) <==> !Timely(s, events)
    decreases events
  {
    if events != [] {
      StepKeepsInv(s, events[0]);
      StuckIffLate(s, events[0]);
      if Late(s, events[0]) {
        StuckIsForever(Next(s, events[0]), events[1..]);
      } else {
        StuckRunIffLate(Next(s, events[0]), events[1..]);
      }
    }
  }

  lemma {:induction false} StuckStepStaysStuck(s: State, e: Event)
    requires Critical(s) && Stuck(s) && Enabled(s, e)
    ensures Stuck(Next(s, e)) && Outside(s, Next(s, e))
  {
    assert !e.Accept? && !e.Await? && !e.Delete? && !e.Rendezvous?;
    OtherStepsAreOutside(s, e);
  }

  /** Once stuck, the relay never answers, registers or unregisters any request again. */
  lemma {:induction false} StuckIsForever(s: State, events: seq<Event>)
    requires Inv(s) && Stuck(s) && Possible(s, events)
    ensures Stuck(After(s, events)) && After(s, events).pending == s.pending
    ensures forall id :: IsAnswered(After(s, events), id) ==> IsAnswered(s, id)
    ensures forall id :: IsWaiting(After(s, events), id) ==> IsWaiting(s, id)
    decreases events
  {
    if events != [] {
      StepKeepsInv(s, events[0]);
      StuckStepStaysStuck(s, events[0]);
      StuckIsForever(Next(s, events[0]), events[1..]);
    }
  }

  /** Unless stuck, the holder frees the mutex in at most two steps of its own, so a client that
      has written its request can still register. */
  lemma {:induction false} MutexIsFreedUnlessStuck(s: State, id: ReqId) returns (events: seq<Event>)
    requires Inv(s) && !Stuck(s) && id in s.clients && s.clients[id].phase.Sent?
    ensures |events| <= 2 && (forall e | e in events :: e.Rendezvous? || e.Delete?)
    ensures Possible(s, events) && Enabled(After(s, events), Await(id))
  {
    events := [];
    if s.holder.Some? {
      var c := s.holder.value;
      if s.conns[c].handler.Sending? {
        var t := Next(s, Rendezvous(c));
        events := [Rendezvous(c), Delete(c)];
        DeleteFreesMutex(t, c, id);
        assert events[1..] == [Delete(c)];
      } else {
        events := [Delete(c)];
        DeleteFreesMutex(s, c, id);
      }
    }
  }

  lemma {:induction false} DeleteFreesMutex(s: State, c: ConnId, id: ReqId)
    requires Enabled(s, Delete(c)) && id in s.clients && s.clients[id].phase.Sent?
    ensures Possible(s, [Delete(c)]) && Enabled(After(s, [Delete(c)]), Await(id))
  {
    var t := Next(s, Delete(c));
    assert [Delete(c)][1..] == [];
    assert Possible(t, []) && After(t, []) == t;
  }

  // ---- Particular runs ----

  ghost predicate Reaches(s: State) {
    exists events :: Possible(INITIAL, events) && After(INITIAL, events) == s
  }

  lemma {:induction false} RunExtends(s: State, events: seq<Event>, e: Event)
    requires Possible(s, events) && Enabled(After(s, events), e)
    ensures Possible(s, events + [e]) && After(s, events + [e]) == Next(After(s, events), e)
    decreases events
  {
    var longer := events + [e];
    if events == [] {
      assert longer[1..] == [];
    } else {
      assert longer[1..] == events[1..] + [e];
      RunExtends(Next(s, events[0]), events[1..], e);
    }
  }

  /** Taking one more step of a reachable state. */
  lemma {:induction false} Go(s: State, e: Event) returns (t: State)
    requires Reaches(s) && Enabled(s, e)
    ensures t == Next(s, e) && Reaches(t)
  {
    var events :| Possible(INITIAL, events) && After(INITIAL, events) == s;
    RunExtends(INITIAL, events, e);
    t := Next(s, e);
  }

  /** An agent has registered over connection 0. */
  lemma {:induction false} RegisteredIsReachable() returns (s: State)
    ensures Reaches(s)
    ensures var conn := Conn(true, Some("home"), Reading, [], None, []);
            s == State(map["home" := 0], map[0 := conn], {}, None, map[], map[])
  {
    assert After(INITIAL, []) == INITIAL;
    assert [Register("home")][1..] == [];
    s := Go(INITIAL, Connect(0, "home"));
    s := Go(s, ReadRegister(0));
  }

  /** In addition, a request has been written to it. */
  lemma {:induction false} WrittenIsReachable(content: Content) returns (s: State)
    ensures Reaches(s) && s.holder == None && s.pending == {} && 7 in s.clients && s.clients[7].phase.Sent?
    ensures s.conns.Keys == {0} && s.conns[0] == Conn(true, Some("home"), Reading, [Request(7, content)], None, [])
  {
    s := RegisteredIsReachable();
    s := Go(s, Arrive(7, "home", content));
    s := Go(s, Find(7));
    s := Go(s, Write(7));
  }

  /** The deadlock is reachable: the client gives up just before its reply is looked up. */
  lemma {:induction false} StuckIsReachable(content: Content, response: Response) returns (s: State)
    ensures Reaches(s) && Stuck(s)
  {
    s := WrittenIsReachable(content);
    s := Go(s, Await(7));
    s := Go(s, Take(0));
    s := Go(s, Respond(0, response));
    s := Go(s, Timeout(7));
    s := Go(s, Accept(0));
  }

  // ---- Lost requests ----

  /** Its client has written the request, or believes so, and has no answer. */
  predicate Written(s: State, id: ReqId) { id in s.clients && Unanswered(s.clients[id].phase) }

  /** A written request that has no answer, while neither it nor its response is on its way. */
  ghost predicate Lost(s: State, id: ReqId) {
    Written(s, id) && forall c | c in s.conns :: !Carries(s.conns[c], id)
  }

  /** The request is on the wire to the agent, or in service. */
  predicate CarriesRequest(conn: Conn, id: ReqId) {
    || (exists r | r in conn.outbound :: r.id == id)
    || (conn.serving.Some? && conn.serving.value.id == id)
  }

  /** The response is on the wire to the relay. */
  predicate HasReply(conn: Conn, id: ReqId) { exists m | m in conn.inbound && m.Reply? :: m.id == id }

  /** The request, or the response in a handler's hand or where a handler will still read it. */
  predicate Carries(conn: Conn, id: ReqId) {
    || CarriesRequest(conn, id)
    || (conn.handler.Sending? && conn.handler.id == id)
    || (conn.handler != Closed && HasReply(conn, id))
  }

  /** The reply of this request is looked up and has no key: by DiscardIffEarly, exactly if its client
      is between writing and registering. */
  predicate Early(s: State, e: Event, id: ReqId)
    requires Enabled(s, e)
  {
    e.Discard? && s.conns[e.conn].inbound[0].id == id
  }

  /** The steps that lose a request: writing it to a connection that is gone; the connection failing
      before the agent has responded; its handler ending with the reply unread; an early look-up. */
  predicate Loses(s: State, e: Event, id: ReqId)
    requires Enabled(s, e)
  {
    || (e.WriteLost? && e.id == id)
    || (e.Drop? && CarriesRequest(s.conns[e.conn], id))
    || (e.ReadError? && HasReply(s.conns[e.conn], id))
    || Early(s, e, id)
  }

  /** A reply that is looked up is dropped if and only if its client has written its request and not
      yet registered its channel. */
  lemma {:induction false} DiscardIffEarly(s: State, c: ConnId)
    requires Inv(s) && ReadsReply(s, c)
    ensures Enabled(s, Discard(c)) <==> s.clients[s.conns[c].inbound[0].id].phase.Sent?
  {
    assert s.conns[c].inbound[0] in s.conns[c].inbound;
  }

  /** What a connection carries belongs to a written request of that connection, which has been
      served exactly when it is the response that is carried. */
  lemma {:induction false} CarriedIsWritten(s: State, c: ConnId, id: ReqId)
    requires Inv(s) && c in s.conns && (Carries(s.conns[c], id) || HasReply(s.conns[c], id))
    ensures Written(s, id) && s.clients[id].conn == c
    ensures id in s.served <==> !CarriesRequest(s.conns[c], id)
  {
    if r :| r in s.conns[c].outbound && r.id == id {
      assert Travels(s, c, r);
    }
  }

  /** A step puts nothing on its way that was not before, unless it writes the request. */
  lemma {:induction false} NothingNewIsCarried(s: State, e: Event, c: ConnId, id: ReqId)
    requires Enabled(s, e) && !(e.Write? && e.id == id)
    requires c in Next(s, e).conns && Carries(Next(s, e).conns[c], id)
    ensures c in s.conns && Carries(s.conns[c], id)
  {
  }

  lemma {:induction false} LostStepStaysLost(s: State, e: Event, id: ReqId)
    requires Inv(s) && Lost(s, id) && Enabled(s, e)
    ensures Lost(Next(s, e), id)
  {
    var t := Next(s, e);
    forall c | c in t.conns ensures !Carries(t.conns[c], id) {
      if Carries(t.conns[c], id) {
        NothingNewIsCarried(s, e, c, id);
      }
    }
    OnlyCarriedIsAnswered(s, e, id);
  }

  /** A written request stays written until its response is sent to its client. */
  lemma {:induction false} OnlyCarriedIsAnswered(s: State, e: Event, id: ReqId)
    requires Enabled(s, e) && Written(s, id)
    ensures Written(Next(s, e), id) || (e.Rendezvous? && s.conns[e.conn].handler.id == id)
  {
  }

  /** A lost request is never answered: its client can only time out. */
  lemma {:induction false} LostIsForever(s: State, events: seq<Event>, id: ReqId)
    requires Inv(s) && Lost(s, id) && Possible(s, events)
    ensures Lost(After(s, events), id) && !IsAnswered(After(s, events), id)
    decreases events
  {
    if events != [] {
      StepKeepsInv(s, events[0]);
      LostStepStaysLost(s, events[0], id);
      LostIsForever(Next(s, events[0]), events[1..], id);
    }
  }

  /** Each of these steps does lose the request: nothing else carries it. */
  lemma {:induction false} LosingLoses(s: State, e: Event, id: ReqId)
    requires Inv(s) && Enabled(s, e) && Loses(s, e, id)
    ensures Lost(Next(s, e), id)
  {
    var t := Next(s, e);
    if e.WriteLost? {
      forall c | c in s.conns && Carries(s.conns[c], id) ensures false {
        CarriedIsWritten(s, c, id);
      }
    } else {
      if e.Discard? {
        HeadIsReply(s, e, id);
      }
      CarriedIsWritten(s, e.conn, id);
      LosingEmpties(s, e, id);
      CarriedHereOnly(s, e, id);
    }
  }

  lemma {:induction false} CarriedHereOnly(s: State, e: Event, id: ReqId)
    requires Inv(s) && Enabled(s, e) && (e.Drop? || e.ReadError? || e.Discard?)
    requires id in s.clients && s.clients[id].conn == e.conn
    ensures forall d | d in Next(s, e).conns && d != e.conn :: !Carries(Next(s, e).conns[d], id)
  {
    forall d | d in s.conns && d != e.conn ensures !Carries(Next(s, e).conns[d], id) {
      ElsewhereNothingMoves(s, e, d);
      if Carries(s.conns[d], id) {
        CarriedIsWritten(s, d, id);
      }
    }
  }

  lemma {:induction false} HeadIsReply(s: State, e: Event, id: ReqId)
    requires Enabled(s, e) && e.Discard? && Loses(s, e, id)
    ensures HasReply(s.conns[e.conn], id)
  {
    assert s.conns[e.conn].inbound[0] in s.conns[e.conn].inbound;
  }

  /** Afterwards the connection that lost it does not carry it. */
  lemma {:induction false} LosingEmpties(s: State, e: Event, id: ReqId)
    requires Inv(s) && Enabled(s, e) && Loses(s, e, id) && (e.Drop? || e.ReadError? || e.Discard?)
    ensures !Carries(Next(s, e).conns[e.conn], id)
  {
    var conn := s.conns[e.conn];
    if e.Discard? {
      HeadIsReply(s, e, id);
      assert RepliesOnce(conn);
      TailRepliesOnce(conn);
    }
    CarriedIsWritten(s, e.conn, id);
  }

  lemma {:induction false} HeadOrTail<T>(list: seq<T>, m: T)
    requires m in list
    ensures m == list[0] || m in list[1..]
  {
    var i :| 0 <= i < |list| && list[i] == m;
    assert i > 0 ==> list[1..][i - 1] == m;
  }

  /** Of the responses on the wire, reading the first message drops at most that message's. */
  lemma {:induction false} TailHasReply(inbound: seq<Message>, conn: Conn, id: ReqId)
    requires inbound != [] && conn.inbound == inbound[1..]
    requires exists m | m in inbound && m.Reply? :: m.id == id
    ensures (inbound[0].Reply? && inbound[0].id == id) || HasReply(conn, id)
  {
    var m :| m in inbound && m.Reply? && m.id == id;
    HeadOrTail(inbound, m);
  }

  /** What is carried stays on its way, until it is lost or answered. */
  lemma {:induction false} CarriedStays(s: State, e: Event, c: ConnId, id: ReqId)
    requires Inv(s) && Enabled(s, e) && !Loses(s, e, id) && !(e.Rendezvous? && s.conns[e.conn].handler.id == id)
    requires c in s.conns && Carries(s.conns[c], id)
    ensures c in Next(s, e).conns && Carries(Next(s, e).conns[c], id)
  {
    if e.Write? {
      assert forall r | r in s.conns[c].outbound :: r in Next(s, e).conns[c].outbound;
    } else if !StepOf(e) || e.conn != c {
      ElsewhereNothingMoves(s, e, c);
    } else if e.ReadRegister? || e.Accept? || e.Discard? {
      ReadStaysCarried(s, e, id);
    } else if e.Take? || e.Respond? {
      ServiceStaysCarried(s, e, id);
    } else {
      HandlerStaysCarrying(s, e, id);
    }
  }

  /** A step of a connection, its handler or its agent. */
  predicate StepOf(e: Event) {
    || e.Connect? || e.Drop? || e.ReadError? || e.ReadRegister? || e.Accept? || e.Discard? || e.Rendezvous? || e.Delete?
    || e.Take? || e.Respond?
  }

  lemma {:induction false} ElsewhereNothingMoves(s: State, e: Event, c: ConnId)
    requires Enabled(s, e) && !e.Write? && (StepOf(e) ==> e.conn != c) && c in s.conns
    ensures c in Next(s, e).conns && Next(s, e).conns[c] == s.conns[c]
  {
  }

  lemma {:induction false} HandlerStaysCarrying(s: State, e: Event, id: ReqId)
    requires Enabled(s, e) && !Loses(s, e, id) && !(e.Rendezvous? && s.conns[e.conn].handler.id == id)
    requires e.Connect? || e.Drop? || e.ReadError? || e.Rendezvous? || e.Delete?
    requires e.conn in s.conns && Carries(s.conns[e.conn], id)
    ensures Carries(Next(s, e).conns[e.conn], id)
  {
  }

  lemma {:induction false} ReadStaysCarried(s: State, e: Event, id: ReqId)
    requires Inv(s) && Enabled(s, e) && (e.ReadRegister? || e.Accept? || e.Discard?) && !Loses(s, e, id)
    requires Carries(s.conns[e.conn], id)
    ensures Carries(Next(s, e).conns[e.conn], id)
  {
    var conn, conn' := s.conns[e.conn], Next(s, e).conns[e.conn];
    if HasReply(conn, id) {
      TailHasReply(conn.inbound, conn', id);
    }
  }

  lemma {:induction false} ServiceStaysCarried(s: State, e: Event, id: ReqId)
    requires ClosedIsDown(s) && Enabled(s, e) && (e.Take? || e.Respond?)
    requires Carries(s.conns[e.conn], id)
    ensures Carries(Next(s, e).conns[e.conn], id)
  {
    var conn, conn' := s.conns[e.conn], Next(s, e).conns[e.conn];
    if e.Respond? {
      assert conn'.inbound[|conn'.inbound| - 1] in conn'.inbound;
      assert forall m | m in conn.inbound :: m in conn'.inbound;
    } else if r :| r in conn.outbound && r.id == id {
      HeadOrTail(conn.outbound, r);
    }
  }

  /** Only such a step loses a request, and every such step does. */
  lemma {:induction false} LostIffLoses(s: State, e: Event, id: ReqId)
    requires Inv(s) && Enabled(s, e) && !Lost(s, id)
    ensures Lost(Next(s, e), id) <==> Loses(s, e, id)
  {
    if Loses(s, e, id) {
      LosingLoses(s, e, id);
    } else if !Written(s, id) {
      UnwrittenIsNotLost(s, e, id);
    } else if !(e.Rendezvous? && s.conns[e.conn].handler.id == id) {
      var c :| c in s.conns && Carries(s.conns[c], id);
      CarriedStays(s, e, c, id);
    }
  }

  lemma {:induction false} UnwrittenIsNotLost(s: State, e: Event, id: ReqId)
    requires Enabled(s, e) && !Written(s, id) && !(e.WriteLost? && e.id == id)
    ensures !Lost(Next(s, e), id)
  {
    if e.Write? && e.id == id {
      var outbound := Next(s, e).conns[s.clients[id].conn].outbound;
      assert outbound[|outbound| - 1] in outbound;
    }
  }

  /** No event of the run loses the request. */
  predicate NeverLoses(s: State, events: seq<Event>, id: ReqId)
    requires Possible(s, events)
    decreases events
  {
    events == [] || (!Loses(s, events[0], id) && NeverLoses(Next(s, events[0]), events[1..], id))
  }

  /** A run loses a request if and only if one of its events is one of the four. */
  lemma {:induction false} LostRunIffLoses(s: State, events: seq<Event>, id: ReqId)
    requires Inv(s) && !Lost(s, id) && Possible(s, events)
    ensures Lost(After(s, events), id) <==> !NeverLoses(s, events, id)
    decreases events
  {
    if events != [] {
      StepKeepsInv(s, events[0]);
      LostIffLoses(s, events[0], id);
      if Loses(s, events[0], id) {
        LostIsForever(Next(s, events[0]), events[1..], id);
      } else {
        LostRunIffLoses(Next(s, events[0]), events[1..], id);
      }
    }
  }

  lemma {:induction false} ReachableKeepsInv(s: State)
    requires Reaches(s)
    ensures Inv(s)
  {
    var events :| Possible(INITIAL, events) && After(INITIAL, events) == s;
    RunKeepsInv(INITIAL, events);
  }

  /** Taking a losing step from a reachable state. */
  lemma {:induction false} GoAndLose(s: State, e: Event, id: ReqId) returns (t: State)
    requires Reaches(s) && Enabled(s, e) && Loses(s, e, id)
    ensures t == Next(s, e) && Reaches(t) && Lost(t, id)
  {
    ReachableKeepsInv(s);
    LosingLoses(s, e, id);
    t := Go(s, e);
  }

  /** An agent has responded to the request; its client has or has not registered its channel. */
  lemma {:induction false} RespondedIsReachable(content: Content, response: Response, registered: bool)
      returns (s: State)
    ensures Reaches(s) && s.holder == None && 7 in s.clients && 7 in s.served
    ensures if registered then s.clients[7].phase.Waiting? else s.clients[7].phase.Sent? && s.pending == {}
    ensures s.conns.Keys == {0} && s.conns[0] == Conn(true, Some("home"), Reading, [], None, [Reply(7, response)])
  {
    assert [Request(7, content)][1..] == [];
    s := WrittenIsReachable(content);
    if registered {
      s := Go(s, Await(7));
    }
    s := Go(s, Take(0));
    s := Go(s, Respond(0, response));
  }

  /** The early look-up happens: the request is written before its channel is registered, its
      response overtakes the registration, and the client starts waiting for a lost response. */
  lemma {:induction false} EarlyReplyIsLost(content: Content, response: Response) returns (s: State)
    ensures Reaches(s) && IsWaiting(s, 7) && Lost(s, 7)
  {
    s := RespondedIsReachable(content, response, false);
    s := GoAndLose(s, Discard(0), 7);
    ReachableKeepsInv(s);
    LostStepStaysLost(s, Await(7), 7);
    s := Go(s, Await(7));
  }

  /** So does the unread reply: the connection fails and its handler ends with the response, given
      to a waiting client's request, still to be read. */
  lemma {:induction false} UnreadReplyIsLost(content: Content, response: Response) returns (s: State)
    ensures Reaches(s) && IsWaiting(s, 7) && 7 in s.served && Lost(s, 7)
  {
    s := RespondedIsReachable(content, response, true);
    s := Go(s, Drop(0));
    assert Reply(7, response) in s.conns[0].inbound;
    s := GoAndLose(s, ReadError(0), 7);
  }

  // ---- Registrations ----

  /** The event registers a connection under the agent's ID. */
  predicate RegistersFor(s: State, e: Event, agent: string)
    requires Enabled(s, e)
  {
    e.ReadRegister? && s.conns[e.conn].inbound[0].agent == agent
  }

  predicate NothingRegisters(s: State, events: seq<Event>, agent: string)
    requires Possible(s, events)
    decreases events
  {
    events == [] || (!RegistersFor(s, events[0], agent) && NothingRegisters(Next(s, events[0]), events[1..], agent))
  }

  /** The newest registration counts: until the next one, or until a connection of the agent ends,
      clients that look the agent up find the connection that registered last. */
  lemma {:induction false} NewestRegistrationCounts(s: State, c: ConnId, events: seq<Event>, agent: string)
    requires Enabled(s, ReadRegister(c)) && RegistersFor(s, ReadRegister(c), agent)
    requires var t := Next(s, ReadRegister(c));
             Possible(t, events) && NothingRegisters(t, events, agent) && NothingCloses(t, events, agent)
    ensures var u := After(Next(s, ReadRegister(c)), events); agent in u.agents && u.agents[agent] == c
  {
    RegistrationStands(Next(s, ReadRegister(c)), events, agent);
  }

  lemma {:induction false} RegistrationStands(s: State, events: seq<Event>, agent: string)
    requires Possible(s, events) && agent in s.agents
    requires NothingRegisters(s, events, agent) && NothingCloses(s, events, agent)
    ensures agent in After(s, events).agents && After(s, events).agents[agent] == s.agents[agent]
    decreases events
  {
    if events != [] {
      if !events[0].ReadError? && !events[0].ReadRegister? {
        OthersKeepAgents(s, events[0]);
      }
      RegistrationStands(Next(s, events[0]), events[1..], agent);
    }
  }

  /** The handler of a connection registered under the agent's ID ends. */
  predicate ClosesFor(s: State, e: Event, agent: string)
    requires Enabled(s, e)
  {
    e.ReadError? && s.conns[e.conn].agent == Some(agent)
  }

  /** An agent loses its registration exactly when the handler of some connection registered under
      its ID ends. If the registered connection is open, that is another one. */
  lemma {:induction false} UnregisteredIffClosed(s: State, e: Event, agent: string)
    requires Inv(s) && Enabled(s, e) && HasAgent(s, agent)
    ensures !HasAgent(Next(s, e), agent) <==> ClosesFor(s, e, agent)
    ensures ClosesFor(s, e, agent) && Live(s, s.agents[agent]) ==> e.conn != s.agents[agent]
  {
    if !e.ReadError? && !e.ReadRegister? {
      OthersKeepAgents(s, e);
    }
  }

  lemma {:induction false} OthersKeepAgents(s: State, e: Event)
    requires Enabled(s, e) && !e.ReadError? && !e.ReadRegister?
    ensures Next(s, e).agents == s.agents
    ensures forall c | c in s.conns :: c in Next(s, e).conns && Next(s, e).conns[c].agent == s.conns[c].agent
  {
  }

  predicate Throughout(s: State, events: seq<Event>, agent: string)
    requires Possible(s, events)
    decreases events
  {
    HasAgent(s, agent) && (events != [] ==> Throughout(Next(s, events[0]), events[1..], agent))
  }

  predicate NothingCloses(s: State, events: seq<Event>, agent: string)
    requires Possible(s, events)
    decreases events
  {
    events == [] || (!ClosesFor(s, events[0], agent) && NothingCloses(Next(s, events[0]), events[1..], agent))
  }

  /** A registered agent stays registered throughout a run if and only if no connection that ever
      registered under its ID ends, old ones included. */
  lemma {:induction false} RegisteredRunIffNothingCloses(s: State, events: seq<Event>, agent: string)
    requires Inv(s) && HasAgent(s, agent) && Possible(s, events)
    ensures Throughout(s, events, agent) <==> NothingCloses(s, events, agent)
    decreases events
  {
    if events != [] {
      StepKeepsInv(s, events[0]);
      UnregisteredIffClosed(s, events[0], agent);
      var t := Next(s, events[0]);
      if HasAgent(t, agent) {
        RegisteredRunIffNothingCloses(t, events[1..], agent);
      }
    }
  }

  /** A registered connection keeps its ID, and a step registers only an unregistered connection. */
  lemma {:induction false} RegisteredStays(s: State, e: Event, c: ConnId, agent: string)
    requires Addressed(s) && Enabled(s, e) && c in s.conns && s.conns[c].agent.Some?
    ensures c in Next(s, e).conns && Next(s, e).conns[c].agent.Some?
    ensures agent in Next(s, e).agents && Next(s, e).agents[agent] == c ==> agent in s.agents && s.agents[agent] == c
  {
    if !e.ReadError? && !e.ReadRegister? {
      OthersKeepAgents(s, e);
    } else {
      assert RegistersOnce(s.conns[e.conn]);
    }
  }

  /** Connections that have registered before never register again. */
  lemma {:induction false} OldConnectionsStayOut(s: State, events: seq<Event>, agent: string, before: set<ConnId>)
    requires Inv(s) && Possible(s, events)
    requires forall c | c in before :: c in s.conns && s.conns[c].agent.Some?
    requires agent in s.agents ==> s.agents[agent] !in before
    ensures agent in After(s, events).agents ==> After(s, events).agents[agent] !in before
    decreases events
  {
    if events != [] {
      StepKeepsInv(s, events[0]);
      var t := Next(s, events[0]);
      forall c | c in before
        ensures c in t.conns && t.conns[c].agent.Some? && (agent in t.agents ==> t.agents[agent] != c)
      {
        RegisteredStays(s, events[0], c, agent);
      }
      OldConnectionsStayOut(t, events[1..], agent, before);
    }
  }

  /** An unregistered agent's open connection never brings it back: only a connection that had not
      registered by then does. */
  lemma {:induction false} OnlyNewConnectionsRestore(s: State, events: seq<Event>, agent: string)
    requires Inv(s) && !HasAgent(s, agent) && Possible(s, events) && HasAgent(After(s, events), agent)
    ensures var c := After(s, events).agents[agent]; c in s.conns ==> s.conns[c].agent.None?
  {
    OldConnectionsStayOut(s, events, agent, set c | c in s.conns && s.conns[c].agent.Some?);
  }

  /** That happens to an open connection: the end of an old one unregisters it. */
  lemma {:induction false} StaleCloseUnregisters() returns (s: State)
    ensures Reaches(s) && Live(s, 1) && s.conns[1].agent == Some("home") && HandlerReads(s, 1) && !HasAgent(s, "home")
  {
    s := RegisteredIsReachable();
    s := Go(s, Drop(0));
    s := Go(s, Connect(1, "home"));
    s := Go(s, ReadRegister(1));
    s := Go(s, ReadError(0));
  }
}

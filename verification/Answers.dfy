/** Which requests of the relay can still be answered. */
module Answers {
  import opened Text
  import opened Json
  import opened Relay

  /** Some continuation answers the request. */
  ghost predicate Answerable(s: State, id: ReqId) {
    exists events :: Possible(s, events) && IsAnswered(After(s, events), id)
  }

  // ---- The order of requests on a connection ----

  function Replies(inbound: seq<Message>): seq<ReqId> {
    if inbound == [] then []
    else (if inbound[0].Reply? then [inbound[0].id] else []) + Replies(inbound[1..])
  }

  function Ids(outbound: seq<Request>): seq<ReqId> {
    if outbound == [] then [] else [outbound[0].id] + Ids(outbound[1..])
  }

  function Served(serving: Option<Request>): seq<ReqId> {
    if serving.Some? then [serving.value.id] else []
  }

  /** The requests a connection carries, in the order in which their replies are looked up. */
  function Line(conn: Conn): seq<ReqId> {
    Replies(conn.inbound) + (Served(conn.serving) + Ids(conn.outbound))
  }

  /** A request that has timed out is ahead of this one: its reply will be looked up first. */
  ghost predicate IsBehind(s: State, line: seq<ReqId>, id: ReqId) {
    exists i, j :: 0 <= i < j < |line| && line[j] == id && HasTimedOut(s, line[i])
  }

  ghost predicate Behind(s: State, id: ReqId) {
    && Written(s, id) && s.clients[id].conn in s.conns && s.conns[s.clients[id].conn].handler != Closed
    && IsBehind(s, Line(s.conns[s.clients[id].conn]), id)
  }

  lemma {:induction false} RepliesOfSum(a: seq<Message>, b: seq<Message>)
    ensures Replies(a + b) == Replies(a) + Replies(b)
  {
    if a == [] {
      assert a + b == b;
    } else {
      assert (a + b)[1..] == a[1..] + b;
      RepliesOfSum(a[1..], b);
    }
  }

  lemma {:induction false} IdsOfSum(a: seq<Request>, b: seq<Request>)
    ensures Ids(a + b) == Ids(a) + Ids(b)
  {
    if a == [] {
      assert a + b == b;
    } else {
      assert (a + b)[1..] == a[1..] + b;
      IdsOfSum(a[1..], b);
    }
  }

  lemma {:induction false} RepliesAreThose(inbound: seq<Message>, id: ReqId)
    ensures id in Replies(inbound) <==> exists m | m in inbound && m.Reply? :: m.id == id
  {
    if inbound != [] {
      RepliesAreThose(inbound[1..], id);
      assert inbound == [inbound[0]] + inbound[1..];
    }
  }

  lemma {:induction false} IdsAreThose(outbound: seq<Request>, id: ReqId)
    ensures id in Ids(outbound) <==> exists r | r in outbound :: r.id == id
  {
    if outbound != [] {
      IdsAreThose(outbound[1..], id);
      assert outbound == [outbound[0]] + outbound[1..];
    }
  }

  lemma {:induction false} LineIsCarried(conn: Conn, id: ReqId)
    ensures id in Line(conn) <==> CarriesRequest(conn, id) || HasReply(conn, id)
  {
    RepliesAreThose(conn.inbound, id);
    IdsAreThose(conn.outbound, id);
  }

  /** The agent's steps and reading a registration leave the line as it is. */
  lemma {:induction false} LineStays(s: State, e: Event)
    requires Enabled(s, e) && (e.Take? || e.Respond? || e.ReadRegister? || e.Rendezvous? || e.Delete?)
    ensures Line(Next(s, e).conns[e.conn]) == Line(s.conns[e.conn])
  {
    var conn, conn' := s.conns[e.conn], Next(s, e).conns[e.conn];
    if e.Respond? {
      var reply := Reply(conn.serving.value.id, e.response);
      RepliesOfSum(conn.inbound, [reply]);
      assert [reply][1..] == [];
      ConcatIsAssociative(Replies(conn.inbound), [reply.id], Ids(conn.outbound));
    }
  }

  /** Looking a reply up takes it off the line. */
  lemma {:induction false} LineMovesUp(s: State, e: Event)
    requires Enabled(s, e) && (e.Accept? || e.Discard?)
    ensures Line(s.conns[e.conn]) == [s.conns[e.conn].inbound[0].id] + Line(Next(s, e).conns[e.conn])
  {
    var conn := s.conns[e.conn];
    ConcatIsAssociative([conn.inbound[0].id], Replies(conn.inbound[1..]), Served(conn.serving) + Ids(conn.outbound));
  }

  lemma {:induction false} WrittenJoinsLine(s: State, id: ReqId)
    requires Enabled(s, Write(id))
    ensures var c := s.clients[id].conn; Line(Next(s, Write(id)).conns[c]) == Line(s.conns[c]) + [id]
  {
    var conn, r := s.conns[s.clients[id].conn], Request(id, s.clients[id].content);
    IdsOfSum(conn.outbound, [r]);
    assert [r][1..] == [];
    ConcatIsAssociative(Served(conn.serving), Ids(conn.outbound), [id]);
    ConcatIsAssociative(Replies(conn.inbound), Served(conn.serving) + Ids(conn.outbound), [id]);
  }

  // ---- What can never be answered ----

  /** It has timed out, it is lost, the relay is stuck, or a timed-out request is ahead of it. */
  ghost predicate Hopeless(s: State, id: ReqId) {
    HasTimedOut(s, id) || Lost(s, id) || Stuck(s) || Behind(s, id)
  }

  lemma {:induction false} StepKeepsHopeless(s: State, e: Event, id: ReqId)
    requires Inv(s) && Enabled(s, e) && Written(s, id) && Hopeless(s, id)
    ensures Written(Next(s, e), id) && Hopeless(Next(s, e), id)
  {
    if HasTimedOut(s, id) {
      StepKeepsOutcomes(s, e, id);
    } else if Lost(s, id) {
      LostStepStaysLost(s, e, id);
    } else if Stuck(s) {
      StuckStepStaysStuck(s, e);
      OnlyCarriedIsAnswered(s, e, id);
    } else {
      BehindStays(s, e, id);
    }
  }

  lemma {:induction false} TimedOutStay(s: State, e: Event)
    requires Enabled(s, e)
    ensures forall x | HasTimedOut(s, x) :: HasTimedOut(Next(s, e), x)
  {
    forall x | HasTimedOut(s, x) ensures HasTimedOut(Next(s, e), x) {
      StepKeepsOutcomes(s, e, x);
    }
  }

  /** What is not at a handler's send is not answered by it. */
  lemma {:induction false} OnLineIsNotAnswered(s: State, e: Event, c: ConnId, id: ReqId)
    requires Inv(s) && Enabled(s, e) && c in s.conns && s.conns[c].handler != Closed && id in Line(s.conns[c])
    ensures Written(Next(s, e), id) && !(e.Rendezvous? && s.conns[e.conn].handler.id == id)
  {
    LineIsCarried(s.conns[c], id);
    CarriedIsWritten(s, c, id);
    OnlyCarriedIsAnswered(s, e, id);
    if e.Rendezvous? && s.conns[e.conn].handler.id == id {
      CarriedIsWritten(s, e.conn, id);
      assert false;
    }
  }

  /** Looking up the reply of a timed-out request blocks the handler. */
  lemma {:induction false} TimedOutHeadSticks(s: State, e: Event)
    requires Inv(s) && Enabled(s, e) && (e.Accept? || e.Discard?) && !Stuck(s)
    requires HasTimedOut(s, s.conns[e.conn].inbound[0].id)
    ensures Stuck(Next(s, e))
  {
    DiscardIffEarly(s, e.conn);
    StuckIffLate(s, e);
  }

  lemma {:induction false} LookUpKeepsBehind(s: State, e: Event, id: ReqId)
    requires Inv(s) && Enabled(s, e) && (e.Accept? || e.Discard?) && !Stuck(s)
    requires IsBehind(s, Line(s.conns[e.conn]), id)
    ensures Stuck(Next(s, e)) || IsBehind(Next(s, e), Line(Next(s, e).conns[e.conn]), id)
  {
    var t, first := Next(s, e), s.conns[e.conn].inbound[0].id;
    LineMovesUp(s, e);
    if HasTimedOut(s, first) {
      TimedOutHeadSticks(s, e);
    } else {
      TimedOutStay(s, e);
      ShorterLine(s, t, first, Line(t.conns[e.conn]), id);
    }
  }

  lemma {:induction false} ShorterLine(s: State, t: State, first: ReqId, line: seq<ReqId>, id: ReqId)
    requires IsBehind(s, [first] + line, id) && !HasTimedOut(s, first)
    requires forall x | HasTimedOut(s, x) :: HasTimedOut(t, x)
    ensures IsBehind(t, line, id)
  {
    var all := [first] + line;
    var i, j :| 0 <= i < j < |all| && all[j] == id && HasTimedOut(s, all[i]);
    assert line[j - 1] == id && HasTimedOut(t, line[i - 1]);
  }

  /** Nobody gets behind by moving up. */
  lemma {:induction false} MovingUpIsNoLoss(s: State, t: State, gone: seq<ReqId>, line: seq<ReqId>, id: ReqId)
    requires IsBehind(t, line, id) && forall x | HasTimedOut(t, x) :: HasTimedOut(s, x)
    ensures IsBehind(s, gone + line, id)
  {
    var i, j :| 0 <= i < j < |line| && line[j] == id && HasTimedOut(t, line[i]);
    var all, n := gone + line, |gone|;
    assert all[n + j] == id && HasTimedOut(s, all[n + i]);
  }

  lemma {:induction false} DropKeepsBehind(s: State, c: ConnId, id: ReqId)
    requires Enabled(s, Drop(c)) && !CarriesRequest(s.conns[c], id)
    requires IsBehind(s, Line(s.conns[c]), id)
    ensures IsBehind(Next(s, Drop(c)), Line(Next(s, Drop(c)).conns[c]), id)
  {
    var t, conn := Next(s, Drop(c)), s.conns[c];
    var i, j :| 0 <= i < j < |Line(conn)| && Line(conn)[j] == id && HasTimedOut(s, Line(conn)[i]);
    IdsAreThose(conn.outbound, id);
    assert id !in Served(conn.serving) + Ids(conn.outbound);
    assert j < |Replies(conn.inbound)|;
    assert Line(t.conns[c]) == Replies(conn.inbound);
    assert HasTimedOut(t, Line(t.conns[c])[i]);
  }

  lemma {:induction false} LongerLine(s: State, t: State, line: seq<ReqId>, more: seq<ReqId>, id: ReqId)
    requires IsBehind(s, line, id) && forall x | HasTimedOut(s, x) :: HasTimedOut(t, x)
    ensures IsBehind(t, line + more, id)
  {
    var i, j :| 0 <= i < j < |line| && line[j] == id && HasTimedOut(s, line[i]);
    assert (line + more)[j] == id && HasTimedOut(t, (line + more)[i]);
  }

  lemma {:induction false} BehindStays(s: State, e: Event, id: ReqId)
    requires Inv(s) && Enabled(s, e) && Behind(s, id) && !Stuck(s)
    ensures Written(Next(s, e), id) && Hopeless(Next(s, e), id)
  {
    var t, c := Next(s, e), s.clients[id].conn;
    LineIsCarried(s.conns[c], id);
    OnLineIsNotAnswered(s, e, c, id);
    StaysOnConnection(s, e, id);
    if Loses(s, e, id) {
      LosingLoses(s, e, id);
    } else if (e.Accept? || e.Discard?) && e.conn == c {
      LookUpKeepsBehind(s, e, id);
    } else {
      LineKeepsBehind(s, e, id);
    }
  }

  lemma {:induction false} LineKeepsBehind(s: State, e: Event, id: ReqId)
    requires ClosedIsDown(s) && Enabled(s, e) && Behind(s, id) && !Loses(s, e, id)
    requires e.Accept? || e.Discard? ==> e.conn != s.clients[id].conn
    ensures var c := s.clients[id].conn;
            && c in Next(s, e).conns && Next(s, e).conns[c].handler != Closed
            && IsBehind(Next(s, e), Line(Next(s, e).conns[c]), id)
  {
    var t, c := Next(s, e), s.clients[id].conn;
    var conn := s.conns[c];
    LineIsCarried(conn, id);
    TimedOutStay(s, e);
    LongerLine(s, t, Line(conn), [], id);
    assert Line(conn) + [] == Line(conn);
    if e.Write? && s.clients[e.id].conn == c {
      WrittenJoinsLine(s, e.id);
      LongerLine(s, t, Line(conn), [e.id], id);
    } else if !StepOf(e) || e.conn != c {
      OtherConnectionsStay(s, e, c);
    } else if e.Drop? {
      DropKeepsBehind(s, c, id);
    } else if e.ReadError? {
      assert false;
    } else {
      LineStays(s, e);
    }
  }

  lemma {:induction false} StaysOnConnection(s: State, e: Event, id: ReqId)
    requires Enabled(s, e) && Written(s, id)
    ensures id in Next(s, e).clients && Next(s, e).clients[id].conn == s.clients[id].conn
  {
  }

  lemma {:induction false} OtherConnectionsStay(s: State, e: Event, c: ConnId)
    requires Enabled(s, e) && c in s.conns && (StepOf(e) ==> e.conn != c)
    requires e.Write? ==> s.clients[e.id].conn != c
    ensures c in Next(s, e).conns && Next(s, e).conns[c] == s.conns[c]
  {
    if !e.Write? {
      ElsewhereNothingMoves(s, e, c);
    }
  }

  lemma {:induction false} HopelessIsForever(s: State, events: seq<Event>, id: ReqId)
    requires Inv(s) && Possible(s, events) && Written(s, id) && Hopeless(s, id)
    ensures !IsAnswered(After(s, events), id)
    decreases events
  {
    if events != [] {
      StepKeepsInv(s, events[0]);
      StepKeepsHopeless(s, events[0], id);
      HopelessIsForever(Next(s, events[0]), events[1..], id);
    }
  }

  // ---- What can be answered ----

  /** The work left before the answer, counted so that each step towards it does some. */
  function Work(s: State, id: ReqId): nat
    requires Written(s, id) && s.clients[id].conn in s.conns
  {
    var conn := s.conns[s.clients[id].conn];
    HolderWork(s) + 4 * |conn.inbound| + (if conn.serving.Some? then 5 else 0) + 6 * |conn.outbound|
    + (if s.clients[id].phase.Sent? then 1 else 0)
  }

  function HolderWork(s: State): nat {
    if s.holder.None? || s.holder.value !in s.conns then 0
    else if s.conns[s.holder.value].handler.Sending? then 2
    else 1
  }

  /** The next step towards the answer: the mutex is freed first, then the client registers, then
      the connection's handler and agent get on with what is ahead. */
  function Onward(s: State, id: ReqId): Event
    requires Written(s, id) && s.clients[id].conn in s.conns
    requires s.holder.Some? ==> s.holder.value in s.conns
  {
    var c := s.clients[id].conn;
    var conn := s.conns[c];
    if s.holder.Some? then
      (if s.conns[s.holder.value].handler.Sending? then Rendezvous(s.holder.value) else Delete(s.holder.value))
    else if s.clients[id].phase.Sent? then Await(id)
    else if conn.inbound != [] then
      (if conn.inbound[0].Register? then ReadRegister(c)
       else if conn.inbound[0].id in s.pending then Accept(c) else Discard(c))
    else if conn.serving.Some? then Respond(c, Response(200, Null))
    else Take(c)
  }

  /** A request that is not hopeless is carried by a connection whose handler has not ended. */
  lemma {:induction false} HopefulIsCarried(s: State, id: ReqId)
    requires Inv(s) && Written(s, id) && !Hopeless(s, id)
    ensures var c := s.clients[id].conn; c in s.conns && Carries(s.conns[c], id) && s.conns[c].handler != Closed
  {
    var c :| c in s.conns && Carries(s.conns[c], id);
    CarriedIsWritten(s, c, id);
  }

  /** Nothing that has timed out is looked up next on its connection. */
  lemma {:induction false} NextInLineIsInTime(s: State, id: ReqId)
    requires Inv(s) && Written(s, id) && !Hopeless(s, id) && s.holder.None?
    ensures var c := s.clients[id].conn;
            && c in s.conns && s.conns[c].handler == Reading && id in Line(s.conns[c])
            && !HasTimedOut(s, Line(s.conns[c])[0])
  {
    HopefulIsCarried(s, id);
    var c := s.clients[id].conn;
    LineIsCarried(s.conns[c], id);
    var line := Line(s.conns[c]);
    var j :| 0 <= j < |line| && line[j] == id;
    assert Exclusive(s);
    assert HasTimedOut(s, line[0]) ==> j > 0 && IsBehind(s, line, id);
  }

  lemma {:induction false} OnwardIsEnabled(s: State, id: ReqId)
    requires Inv(s) && Written(s, id) && !Hopeless(s, id) && s.clients[id].conn in s.conns
    ensures Enabled(s, Onward(s, id)) && !Loses(s, Onward(s, id), id) && !Late(s, Onward(s, id))
  {
    if s.holder.None? {
      NextInLineIsInTime(s, id);
      OnwardIsEnabledWhenFree(s, id);
    }
  }

  lemma {:induction false} OnwardIsEnabledWhenFree(s: State, id: ReqId)
    requires ClosedIsDown(s) && KeysAreOpenRequests(s) && Written(s, id) && s.holder.None?
    requires var c := s.clients[id].conn;
             && c in s.conns && s.conns[c].handler == Reading && id in Line(s.conns[c])
             && !HasTimedOut(s, Line(s.conns[c])[0])
    ensures Enabled(s, Onward(s, id)) && !Loses(s, Onward(s, id), id) && !Late(s, Onward(s, id))
  {
  }

  /** A step onward leaves nothing timed out that was not. */
  lemma {:induction false} OnwardTimesNothingOut(s: State, id: ReqId)
    requires Written(s, id) && s.clients[id].conn in s.conns && (s.holder.Some? ==> s.holder.value in s.conns)
    requires Enabled(s, Onward(s, id))
    ensures forall x | HasTimedOut(Next(s, Onward(s, id)), x) :: HasTimedOut(s, x)
  {
  }

  /** A step onward leaves the line, or looks its first reply up. */
  lemma {:induction false} OnwardMovesUp(s: State, id: ReqId) returns (gone: seq<ReqId>)
    requires Written(s, id) && s.clients[id].conn in s.conns && (s.holder.Some? ==> s.holder.value in s.conns)
    requires Enabled(s, Onward(s, id))
    ensures s.clients[id].conn in Next(s, Onward(s, id)).conns
    ensures var c := s.clients[id].conn; Line(s.conns[c]) == gone + Line(Next(s, Onward(s, id)).conns[c])
  {
    var e, c := Onward(s, id), s.clients[id].conn;
    gone := [];
    if !StepOf(e) || e.conn != c {
      ElsewhereNothingMoves(s, e, c);
    } else if e.Accept? || e.Discard? {
      LineMovesUp(s, e);
      gone := [s.conns[c].inbound[0].id];
    } else {
      LineStays(s, e);
    }
  }

  lemma {:induction false} OnwardKeepsLine(s: State, id: ReqId)
    requires Inv(s) && Written(s, id) && !Hopeless(s, id) && s.clients[id].conn in s.conns && Enabled(s, Onward(s, id))
    ensures s.clients[id].conn in Next(s, Onward(s, id)).conns
    ensures !IsBehind(Next(s, Onward(s, id)), Line(Next(s, Onward(s, id)).conns[s.clients[id].conn]), id)
  {
    var t, c := Next(s, Onward(s, id)), s.clients[id].conn;
    HopefulIsCarried(s, id);
    OnwardTimesNothingOut(s, id);
    var gone := OnwardMovesUp(s, id);
    if IsBehind(t, Line(t.conns[c]), id) {
      MovingUpIsNoLoss(s, t, gone, Line(t.conns[c]), id);
      assert false;
    }
  }

  lemma {:induction false} OnwardKeepsOrder(s: State, id: ReqId)
    requires Inv(s) && Written(s, id) && !Hopeless(s, id) && s.clients[id].conn in s.conns && Enabled(s, Onward(s, id))
    ensures !HasTimedOut(Next(s, Onward(s, id)), id) && !Behind(Next(s, Onward(s, id)), id)
  {
    StaysOnConnection(s, Onward(s, id), id);
    OnwardTimesNothingOut(s, id);
    OnwardKeepsLine(s, id);
  }

  /** It brings the answer, or leaves the request hopeful. */
  lemma {:induction false} OnwardKeepsHope(s: State, id: ReqId)
    requires Inv(s) && Written(s, id) && !Hopeless(s, id) && s.clients[id].conn in s.conns
    requires Enabled(s, Onward(s, id)) && !Loses(s, Onward(s, id), id) && !Late(s, Onward(s, id))
    ensures var t := Next(s, Onward(s, id)); IsAnswered(t, id) || (Written(t, id) && !Hopeless(t, id))
  {
    var e := Onward(s, id);
    OnwardKeepsOrder(s, id);
    OnlyCarriedIsAnswered(s, e, id);
    LostIffLoses(s, e, id);
    StuckIffLate(s, e);
  }

  /** It does some of the work. */
  lemma {:induction false} OnwardDoesWork(s: State, id: ReqId)
    requires Exclusive(s) && Written(s, id) && s.clients[id].conn in s.conns && Enabled(s, Onward(s, id))
    ensures var t := Next(s, Onward(s, id));
            Written(t, id) && t.clients[id].conn in t.conns ==> Work(t, id) < Work(s, id)
  {
  }

  /** Going onward answers the request. */
  lemma {:induction false} HopefulIsAnswerable(s: State, id: ReqId) returns (events: seq<Event>)
    requires Inv(s) && Written(s, id) && !Hopeless(s, id) && s.clients[id].conn in s.conns
    ensures Possible(s, events) && IsAnswered(After(s, events), id)
    decreases Work(s, id)
  {
    var e := Onward(s, id);
    OnwardIsEnabled(s, id);
    OnwardKeepsHope(s, id);
    OnwardDoesWork(s, id);
    StepKeepsInv(s, e);
    var t := Next(s, e);
    var more := [];
    if !IsAnswered(t, id) {
      HopefulIsCarried(t, id);
      more := HopefulIsAnswerable(t, id);
    }
    events := [e] + more;
    assert events[1..] == more;
  }

  /** A written request can still be answered if and only if it has not timed out, is not lost, the
      relay is not stuck, and no timed-out request is ahead of it on its connection. */
  lemma {:induction false} AnswerableIffHopeful(s: State, id: ReqId)
    requires Inv(s) && Written(s, id)
    ensures Answerable(s, id) <==> !HasTimedOut(s, id) && !Lost(s, id) && !Stuck(s) && !Behind(s, id)
  {
    if Hopeless(s, id) {
      forall events | Possible(s, events) ensures !IsAnswered(After(s, events), id) {
        HopelessIsForever(s, events, id);
      }
    } else {
      HopefulIsCarried(s, id);
      var events := HopefulIsAnswerable(s, id);
    }
  }
}

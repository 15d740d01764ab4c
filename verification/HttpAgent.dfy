/**
  The client side of lib/http.js: an `Agent` that hands the requests of one host to at most
  `maxSockets` sockets.
 */
module HttpAgent {

  class ClientSocket {
    var message: ClientRequest?
    var writable: bool
    var readable: bool
    var connecting: bool

    /** What `_getConnection` returns, with the agent's mark on it. */
    constructor ()
      ensures message == null && writable && !readable && connecting
    {
      message, writable, readable, connecting := null, true, false, true;
    }
  }

  class ClientRequest {
    var queued: bool
    var connection: ClientSocket?

    constructor ()
      ensures queued && connection == null
    {
      queued, connection := true, null;
    }
  }

  /** The socket carries no request and can take one, now or once it is connected. */
  predicate Usable(s: ClientSocket)
    reads s
  {
    s.message == null && ((s.writable && s.readable) || s.connecting)
  }

  ghost predicate DistinctSockets(sockets: seq<ClientSocket>) {
    forall i, j :: 0 <= i < j < |sockets| ==> sockets[i] != sockets[j]
  }

  ghost predicate DistinctRequests(requests: seq<ClientRequest>) {
    forall i, j :: 0 <= i < j < |requests| ==> requests[i] != requests[j]
  }

  ghost predicate OneConnecting(sockets: seq<ClientSocket>)
    reads sockets`connecting
  {
    forall i, j :: 0 <= i < j < |sockets| ==> !(sockets[i].connecting && sockets[j].connecting)
  }

  /** A queued request is on no socket. */
  ghost predicate Queued(queue: seq<ClientRequest>)
    reads queue
  {
    forall i :: 0 <= i < |queue| ==> queue[i].queued && queue[i].connection == null
  }

  ghost function Carrier(r: ClientRequest): set<ClientSocket>
    reads r`connection
  {
    if r.connection == null then {} else {r.connection}
  }

  ghost function Carries(s: ClientSocket): set<ClientRequest>
    reads s`message
  {
    if s.message == null then {} else {s.message}
  }

  ghost function Carriers(requests: seq<ClientRequest>): set<ClientSocket>
    reads requests`connection
  {
    set i | 0 <= i < |requests| && requests[i].connection != null :: requests[i].connection
  }

  /** A dispatched request has left the queue, and is on the one socket that carries it unless it
      has been detached. */
  ghost predicate Dispatched(r: ClientRequest)
    reads r, Carrier(r)`message
  {
    !r.queued && (r.connection != null ==> r.connection.message == r)
  }

  ghost predicate AllDispatched(requests: seq<ClientRequest>)
    reads requests, Carriers(requests)`message
  {
    forall i :: 0 <= i < |requests| ==> Dispatched(requests[i])
  }

  ghost predicate NoneUsable(sockets: seq<ClientSocket>, n: nat)
    reads sockets
  {
    forall i :: 0 <= i < n && i < |sockets| ==> !Usable(sockets[i])
  }

  ghost predicate SomeConnecting(sockets: seq<ClientSocket>)
    reads sockets`connecting
  {
    exists i :: 0 <= i < |sockets| && sockets[i].connecting
  }

  /** What a listed socket carries has been dispatched to it. */
  ghost predicate Owned(sockets: seq<ClientSocket>, sent: seq<ClientRequest>)
    reads sockets`message, sent
  {
    forall i :: 0 <= i < |sockets| && sockets[i].message != null ==>
      sockets[i].message in sent && sockets[i].message.connection == sockets[i]
  }

  /** The request is on a listed socket, which carries it. */
  ghost predicate OnItsSocket(r: ClientRequest, sockets: seq<ClientSocket>)
    reads r`connection, Carrier(r)`message
  {
    r.connection != null && r.connection in sockets && r.connection.message == r
  }

  /** Every request that has left the queue and not parted from its socket is on it. */
  ghost predicate OnSockets(sent: seq<ClientRequest>, parted: set<ClientRequest>, sockets: seq<ClientSocket>)
    reads sent`connection, Carriers(sent)`message
  {
    && (forall r :: r in parted ==> r in sent)
    && (forall i :: 0 <= i < |sent| && sent[i] !in parted ==> OnItsSocket(sent[i], sockets))
  }

  /** What holds whenever no code of the agent runs, and between the steps of `_cycle`; `parted` are
      the requests that have been answered or have failed. */
  ghost predicate Ready(queue: seq<ClientRequest>, sockets: seq<ClientSocket>, sent: seq<ClientRequest>,
                        parted: set<ClientRequest>, max: nat)
    reads queue, sockets`connecting, sockets`message, sent
    reads Carriers(sent)`message
  {
    && |sockets| <= max && DistinctSockets(sockets) && OneConnecting(sockets)
    && DistinctRequests(sent + queue) && Queued(queue) && AllDispatched(sent) && Owned(sockets, sent)
    && OnSockets(sent, parted, sockets)
  }

  /** `first.assignSocket(socket)` for the request at the head of the queue. */
  method Assign(s: ClientSocket, ghost queue: seq<ClientRequest>, ghost sockets: seq<ClientSocket>,
                ghost sent: seq<ClientRequest>, ghost parted: set<ClientRequest>, ghost max: nat, first: ClientRequest)
    requires Ready(queue, sockets, sent, parted, max) && queue != [] && first == queue[0]
    requires s in sockets && s.message == null
    modifies first`queued, first`connection, s`message
    ensures Ready(queue[1..], sockets, sent + [first], parted, max)
    ensures s.message == first && first.connection == s && !first.queued && first !in queue[1..]
  {
    HeadMoves(sent, queue);
    HeadIsApart(sent, queue);
    assert forall i :: 0 <= i < |sent| ==> sent[i] != first && sent[i].connection != s;
    assert first !in sent;
    first.queued := false;
    s.message := first;
    first.connection := s;
  }

  /** The request at the head of the queue fails before any socket takes it. */
  method Fail(ghost queue: seq<ClientRequest>, ghost sockets: seq<ClientSocket>, ghost sent: seq<ClientRequest>,
              ghost parted: set<ClientRequest>, ghost max: nat, first: ClientRequest)
    requires Ready(queue, sockets, sent, parted, max) && queue != [] && first == queue[0]
    modifies first`queued
    ensures Ready(queue[1..], sockets, sent + [first], parted + {first}, max)
  {
    HeadMoves(sent, queue);
    HeadIsApart(sent, queue);
    first.queued := false;
  }

  /** The list without the first occurrence of `socket`. */
  function Listed(sockets: seq<ClientSocket>, socket: ClientSocket): seq<ClientSocket> {
    if sockets == [] then []
    else if sockets[0] == socket then sockets[1..]
    else [sockets[0]] + Listed(sockets[1..], socket)
  }

  lemma {:induction false} ListedAt(sockets: seq<ClientSocket>, socket: ClientSocket, i: nat)
    requires i <= |sockets| && (forall j :: 0 <= j < i ==> sockets[j] != socket)
    requires i < |sockets| ==> sockets[i] == socket
    ensures Listed(sockets, socket) == if i == |sockets| then sockets else sockets[..i] + sockets[i + 1..]
  {
    if i > 0 {
      ListedAt(sockets[1..], socket, i - 1);
      assert [sockets[0]] + sockets[1..] == sockets;
    }
  }

  /** The socket carries nothing that has not parted from it. */
  ghost predicate Bare(s: ClientSocket, parted: set<ClientRequest>)
    reads s`message
  {
    s.message != null ==> s.message in parted
  }

  lemma ReadyWithout(queue: seq<ClientRequest>, sockets: seq<ClientSocket>, sent: seq<ClientRequest>,
                     parted: set<ClientRequest>, max: nat, i: nat)
    requires Ready(queue, sockets, sent, parted, max) && (i < |sockets| ==> Bare(sockets[i], parted))
    ensures i < |sockets| ==>
      Ready(queue, sockets[..i] + sockets[i + 1..], sent, parted, max) && sockets[i] !in sockets[..i] + sockets[i + 1..]
  {
    hide Queued, DistinctRequests, AllDispatched;
    if i < |sockets| {
      var rest := sockets[..i] + sockets[i + 1..];
      assert forall s :: s in sockets && s != sockets[i] ==> s in rest;
    }
  }

  lemma ReadyWith(queue: seq<ClientRequest>, sockets: seq<ClientSocket>, sent: seq<ClientRequest>,
                  parted: set<ClientRequest>, max: nat, s: ClientSocket)
    requires Ready(queue, sockets, sent, parted, max) && |sockets| < max && !SomeConnecting(sockets)
    requires s !in sockets && s.message == null
    ensures Ready(queue, sockets + [s], sent, parted, max)
  {
    hide Queued, DistinctRequests, AllDispatched;
  }

  lemma PartedMore(queue: seq<ClientRequest>, sockets: seq<ClientSocket>, sent: seq<ClientRequest>,
                   parted: set<ClientRequest>, max: nat, r: ClientRequest)
    requires Ready(queue, sockets, sent, parted, max) && r in sent
    ensures Ready(queue, sockets, sent, parted + {r}, max)
  {
  }

  lemma HeadIsApart(sent: seq<ClientRequest>, queue: seq<ClientRequest>)
    requires DistinctRequests(sent + queue) && queue != []
    ensures queue[0] !in sent && queue[0] !in queue[1..]
  {
    var all := sent + queue;
    assert forall i :: 0 <= i < |sent| ==> sent[i] == all[i] && all[i] != all[|sent|];
    assert forall i :: 1 <= i < |queue| ==> queue[i] == all[|sent| + i] && all[|sent| + i] != all[|sent|];
    assert queue[0] == all[|sent|];
  }

  lemma HeadMoves(sent: seq<ClientRequest>, queue: seq<ClientRequest>)
    requires queue != []
    ensures sent + [queue[0]] + queue[1..] == sent + queue
  {
  }

  class Agent {
    const maxSockets: nat
    var queue: seq<ClientRequest>
    var sockets: seq<ClientSocket>
    ghost var sent: seq<ClientRequest>   // the requests that have left the queue, in order
    ghost var parted: set<ClientRequest> // those of them that have been answered or have failed

    constructor (maxSockets: nat)
      ensures Inv() && Settled() && this.maxSockets == maxSockets && queue == [] && sockets == []
      ensures sent == [] && parted == {}
    {
      this.maxSockets := maxSockets;
      queue, sockets, sent, parted := [], [], [], {};
    }

    ghost predicate Inv()
      reads this, queue, sockets`connecting, sockets`message, sent
      reads Carriers(sent)`message
    {
      Ready(queue, sockets, sent, parted, maxSockets)
    }

    /** While a request waits, no socket could take it, and none could be opened for it. */
    ghost predicate Settled()
      reads this, sockets
    {
      queue != [] ==> NoneUsable(sockets, |sockets|) && (SomeConnecting(sockets) || |sockets| >= maxSockets)
    }

    /** Requests leave the queue in the order in which they came. */
    twostate predicate InOrder()
      reads this
    {
      old(sent) <= sent && sent + queue == old(sent + queue)
    }

    /** The requests that left the queue since are each on a listed socket that works or is being
        connected. */
    twostate predicate Carried()
      reads this, sent, Carriers(sent)
    {
      forall i :: |old(sent)| <= i < |sent| ==>
        && OnItsSocket(sent[i], sockets)
        && var s := sent[i].connection; (s.writable && s.readable) || s.connecting
    }

    /** Shuffles requests from the queue to the sockets, and opens a socket if need be. */
    method Cycle()
      requires Inv()
      modifies this`queue, this`sockets, this`sent, queue`queued, queue`connection, sockets`message
      ensures Inv() && Settled() && InOrder() && Carried()
      ensures old(sockets) <= sockets && fresh(set i | |old(sockets)| <= i < |sockets| :: sockets[i])
      ensures forall i :: |old(sockets)| <= i < |sockets| ==> sockets[i].message != null
      ensures forall i :: 0 <= i < |old(sockets)| && old(sockets[i].message) != null ==>
                sockets[i].message == old(sockets[i].message)
      ensures old(queue) != [] ==>
                forall i :: 0 <= i < |old(sockets)| && old(Usable(sockets[i])) && old(NoneUsable(sockets, i)) ==>
                  sockets[i].message == old(queue[0])
      ensures old(queue) == [] ==>
                sockets == old(sockets) && forall i :: 0 <= i < |old(sockets)| ==> sockets[i].message == old(sockets[i].message)
      decreases |queue|, if NoneUsable(sockets, |sockets|) then 3 else 1
    {
      hide Ready;
      if queue == [] {
        return;
      }
      var haveConnectingSocket := false;
      for i := 0 to |sockets|
        invariant NoneUsable(sockets, i)
        invariant haveConnectingSocket <==> exists j :: 0 <= j < i && sockets[j].connecting
      {
        var socket := sockets[i];
        if socket.message == null && ((socket.writable && socket.readable) || socket.connecting) {
          GiveFirst(i);
          return;
        }
        if socket.connecting {
          haveConnectingSocket := true;
        }
      }
      if !haveConnectingSocket && |sockets| < maxSockets {
        EstablishNewConnection();
      }
    }

    /** The request at the head of the queue goes to the `i`th socket, and the others come next. */
    method GiveFirst(i: nat)
      requires Inv() && queue != [] && i < |sockets| && Usable(sockets[i])
      modifies this`queue, this`sockets, this`sent, queue`queued, queue`connection, sockets`message
      ensures Inv() && Settled() && InOrder() && Carried()
      ensures old(sockets) <= sockets && fresh(set j | |old(sockets)| <= j < |sockets| :: sockets[j])
      ensures forall j :: |old(sockets)| <= j < |sockets| ==> sockets[j].message != null
      ensures forall j :: 0 <= j < |old(sockets)| && old(sockets[j].message) != null ==>
                sockets[j].message == old(sockets[j].message)
      ensures sockets[i].message == old(queue[0])
      decreases |queue|, 0
    {
      hide Ready, Settled;
      var first := queue[0];
      Assign(sockets[i], queue, sockets, sent, parted, maxSockets, first);
      HeadMoves(sent, queue);
      queue := queue[1..];
      sent := sent + [first];
      Cycle();
    }

    /** Called when a request waits and no socket can take it or is being connected. */
    method EstablishNewConnection()
      requires Inv() && queue != [] && NoneUsable(sockets, |sockets|) && !SomeConnecting(sockets) && |sockets| < maxSockets
      modifies this`queue, this`sockets, this`sent, queue`queued, queue`connection, sockets`message
      ensures Inv() && Settled() && InOrder() && Carried()
      ensures old(sockets) <= sockets && fresh(set i | |old(sockets)| <= i < |sockets| :: sockets[i])
      ensures forall i :: |old(sockets)| <= i < |sockets| ==> sockets[i].message != null
      ensures forall i :: 0 <= i < |old(sockets)| && old(sockets[i].message) != null ==>
                sockets[i].message == old(sockets[i].message)
      ensures |sockets| > |old(sockets)| && sockets[|old(sockets)|].message == old(queue[0])
      decreases |queue|, 2
    {
      hide Ready, OnItsSocket;
      var socket := AddSocket();
      assert Usable(sockets[|sockets| - 1]);
      Cycle();
      assert socket.message != null;
    }

    /** A socket that is being connected joins the list. */
    method AddSocket() returns (socket: ClientSocket)
      requires Inv() && !SomeConnecting(sockets) && |sockets| < maxSockets
      modifies this`sockets
      ensures Inv() && fresh(socket) && sockets == old(sockets) + [socket]
      ensures socket.message == null && socket.connecting && Usable(socket)
    {
      socket := new ClientSocket();
      ReadyWith(queue, sockets, sent, parted, maxSockets, socket);
      hide Ready;
      sockets := sockets + [socket];
    }

    /** Everything an event may rely on and must restore. */
    ghost predicate Valid()
      reads this, queue, sockets, sent
      reads Carriers(sent)`message
    {
      Inv() && Settled()
    }

    method AppendMessage() returns (req: ClientRequest)
      requires Valid()
      modifies this`queue, this`sockets, this`sent, queue`queued, queue`connection, sockets`message
      ensures Valid() && fresh(req) && sent + queue == old(sent + queue) + [req] && old(sent) <= sent
      ensures old(sockets) <= sockets && fresh(set i | |old(sockets)| <= i < |sockets| :: sockets[i])
      ensures forall i :: |old(sockets)| <= i < |sockets| ==> sockets[i].message != null
      ensures forall i :: 0 <= i < |sockets| ==> sockets[i] in old(sockets) || fresh(sockets[i])
    {
      req := new ClientRequest();
      queue := queue + [req];
      assert sent + queue == old(sent + queue) + [req];
      Cycle();
    }

    /** The socket is connected; the callback given to `_getConnection` runs. */
    method OnConnect(socket: ClientSocket)
      requires Valid() && socket in sockets
      modifies this`queue, this`sockets, this`sent, queue`queued, queue`connection, sockets`message
      modifies socket`connecting, socket`readable, socket`writable
      ensures Valid() && InOrder()
      ensures !socket.connecting && socket.readable && socket.writable
      ensures old(sockets) <= sockets && fresh(set i | |old(sockets)| <= i < |sockets| :: sockets[i])
      ensures forall i :: |old(sockets)| <= i < |sockets| ==> sockets[i].message != null
      ensures forall i :: 0 <= i < |sockets| ==> sockets[i] in old(sockets) || fresh(sockets[i])
    {
      socket.readable, socket.writable := true, true;
      socket.connecting := false;
      Cycle();
    }

    /** The response to `req` has been read to its end.  Without keep-alive the socket is taken out
        of service; the source asserts that this is done at once. */
    method OnResponseEnd(req: ClientRequest, socket: ClientSocket, keepAlive: bool)
      requires Valid() && socket in sockets && socket.message == req
      modifies this`queue, this`sockets, this`sent, this`parted, queue`queued, queue`connection, sockets`message
      modifies req`connection, socket`message, socket`writable
      ensures Valid() && InOrder() && parted == old(parted) + {req}
      ensures req.connection == null && (old(queue) == [] ==> socket.message == null)
      ensures socket.writable == (keepAlive && old(socket.writable))
      ensures keepAlive && socket in sockets && old(queue != [] && socket.writable && socket.readable) ==>
                socket.message == old(queue[0])
      ensures old(sockets) <= sockets && fresh(set i | |old(sockets)| <= i < |sockets| :: sockets[i])
      ensures forall i :: |old(sockets)| <= i < |sockets| ==> sockets[i].message != null
      ensures forall i :: 0 <= i < |sockets| ==> sockets[i] in old(sockets) || fresh(sockets[i])
    {
      if !keepAlive {
        socket.writable := false;
      }
      socket.message := null;
      req.connection := null;
      parted := parted + {req};
      Cycle();
    }

    /** The socket stops working; it stays listed until it is closed. */
    method OnLoss(socket: ClientSocket)
      requires Valid()
      modifies socket`readable, socket`writable
      ensures Valid() && !socket.readable && !socket.writable
      ensures Usable(socket) <==> socket.message == null && socket.connecting
    {
      socket.readable, socket.writable := false, false;
    }

    /** The socket is closed and leaves the list; a request that it still carries fails, or sees its
        response aborted. */
    method OnClose(socket: ClientSocket)
      requires Valid() && (socket.message != null ==> socket.message in sent)
      modifies this`queue, this`sockets, this`sent, this`parted, queue`queued, queue`connection, sockets`message
      ensures Valid() && InOrder() && socket !in sockets && Listed(old(sockets), socket) <= sockets
      ensures parted == old(parted + Carries(socket))
      ensures forall i :: 0 <= i < |sockets| ==> sockets[i] in old(sockets) || fresh(sockets[i])
    {
      parted := parted + Carries(socket);
      RemoveSocket(socket);
      Cycle();
    }

    /** The socket fails.  Its request fails with it or, when it carries none, the next in line does.
        The source asserts that there is one: if there is not, the handler throws, and the socket stays
        listed. */
    method OnError(socket: ClientSocket) returns (failed: ClientRequest?)
      requires Valid() && (socket.message != null ==> socket.message in sent)
      modifies this`queue, this`sockets, this`sent, this`parted, queue`queued, queue`connection, sockets`message
      modifies socket`readable, socket`writable
      ensures Valid() && InOrder()
      ensures failed == if old(socket.message) != null || old(queue) == [] then old(socket.message) else old(queue[0])
      ensures parted == old(parted) + if failed == null then {} else {failed}
      ensures old(socket.message) == null && failed != null ==> old(sent) + [failed] <= sent
      ensures failed != null ==>
                socket !in sockets && Listed(old(sockets), socket) <= sockets && !socket.readable && !socket.writable
      ensures failed == null ==> unchanged(this) && unchanged(socket)
      ensures forall i :: 0 <= i < |sockets| ==> sockets[i] in old(sockets) || fresh(sockets[i])
    {
      hide Ready, Settled;
      if socket.message != null {
        failed := socket.message;
        PartedMore(queue, sockets, sent, parted, maxSockets, failed);
      } else if queue != [] {
        failed := queue[0];
        Fail(queue, sockets, sent, parted, maxSockets, failed);
        HeadMoves(sent, queue);
        queue := queue[1..];
        sent := sent + [failed];
      } else {
        return null;
      }
      parted := parted + {failed};
      socket.readable, socket.writable := false, false;
      RemoveSocket(socket);
      Cycle();
    }

    method RemoveSocket(socket: ClientSocket)
      requires Inv() && Bare(socket, parted)
      modifies this`sockets
      ensures Inv() && socket !in sockets && sockets == Listed(old(sockets), socket)
      ensures forall i :: 0 <= i < |sockets| ==> sockets[i] in old(sockets)
    {
      hide Ready, Listed;
      var i := 0;
      while i < |sockets| && sockets[i] != socket
        invariant i <= |sockets|
        invariant forall j :: 0 <= j < i ==> sockets[j] != socket
      {
        i := i + 1;
      }
      ListedAt(sockets, socket, i);
      ReadyWithout(queue, sockets, sent, parted, maxSockets, i);
      if i < |sockets| {
        sockets := sockets[..i] + sockets[i + 1..];
      }
    }
  }

  /** What can happen to an agent; `i` is the place of a socket in its list. */
  datatype Event =
    | Request
    | Connected(i: nat)
    | Answered(i: nat, keepAlive: bool)
    | Lost(i: nat)
    | Closed(i: nat)
    | Failed(i: nat)

  function Requests(events: seq<Event>): nat {
    if events == [] then 0 else Requests(events[..|events| - 1]) + if events[|events| - 1].Request? then 1 else 0
  }

  /** A socket and what can be seen of it. */
  datatype Line = Line(socket: ClientSocket, message: ClientRequest?, writable: bool, readable: bool, connecting: bool)

  datatype View = View(queue: seq<ClientRequest>, sent: seq<ClientRequest>, parted: set<ClientRequest>, lines: seq<Line>)

  ghost function LineOf(s: ClientSocket): Line
    reads s
  {
    Line(s, s.message, s.writable, s.readable, s.connecting)
  }

  ghost function Lines(sockets: seq<ClientSocket>): (l: seq<Line>)
    reads sockets
    ensures |l| == |sockets| && forall i :: 0 <= i < |sockets| ==> l[i] == LineOf(sockets[i])
  {
    if sockets == [] then [] else [LineOf(sockets[0])] + Lines(sockets[1..])
  }

  ghost function ViewOf(agent: Agent): View
    reads agent, agent.sockets
  {
    View(agent.queue, agent.sent, agent.parted, Lines(agent.sockets))
  }

  /** The request that parts from its socket, or fails without one. */
  ghost function Leaving(b: View, e: Event): set<ClientRequest> {
    if e.Request? || e.i >= |b.lines| then {}
    else
      var message := b.lines[e.i].message;
      match e
      case Connected(_) => {}
      case Lost(_) => {}
      case Answered(_, _) => if message == null then {} else {message}
      case Closed(_) => if message == null then {} else {message}
      case Failed(_) => if message != null then {message} else if b.queue != [] then {b.queue[0]} else {}
  }

  /** What an event does to its socket. */
  ghost predicate Affects(line: Line, e: Event, queue: seq<ClientRequest>, i: nat, lines: seq<Line>) {
    match e
    case Request => true
    case Connected(_) =>
      i < |lines| && lines[i].socket == line.socket && !lines[i].connecting && lines[i].readable && lines[i].writable
    case Answered(_, keepAlive) =>
      line.message != null ==>
        && i < |lines| && lines[i].socket == line.socket && lines[i].writable == (keepAlive && line.writable)
        && (queue == [] ==> lines[i].message == null)
        && (queue != [] && lines[i].writable && line.readable ==> lines[i].message == queue[0])
    case Lost(_) => i < |lines| && lines[i] == line.(readable := false, writable := false)
    case Closed(_) => forall k :: 0 <= k < |lines| ==> lines[k].socket != line.socket
    case Failed(_) =>
      if line.message != null || queue != [] then forall k :: 0 <= k < |lines| ==> lines[k].socket != line.socket
      else i < |lines| && lines[i] == line
  }

  /** One event: the requests keep their order, exactly those part that the event parts, and its
      socket is as the event leaves it. */
  ghost predicate Followed(b: View, e: Event, c: View) {
    && b.sent <= c.sent && b.sent + b.queue <= c.sent + c.queue
    && |c.sent + c.queue| == |b.sent + b.queue| + (if e.Request? then 1 else 0)
    && c.parted == b.parted + Leaving(b, e)
    && (!e.Request? && e.i < |b.lines| ==> Affects(b.lines[e.i], e, b.queue, e.i, c.lines))
  }

  method Follow(agent: Agent, e: Event) returns (made: seq<ClientRequest>)
    requires agent.Valid()
    modifies agent, agent.sockets, agent.queue, agent.sent
    ensures agent.Valid() && agent.sent + agent.queue == old(agent.sent + agent.queue) + made
    ensures Followed(old(ViewOf(agent)), e, ViewOf(agent))
    ensures |made| == (if e.Request? then 1 else 0) && forall r :: r in made ==> fresh(r)
    ensures forall i :: 0 <= i < |agent.sockets| ==> agent.sockets[i] in old(agent.sockets) || fresh(agent.sockets[i])
  {
    hide Ready, Usable, Agent.Settled, Lines;
    made := [];
    if e.Request? {
      var req := agent.AppendMessage();
      made := [req];
    } else if e.i < |agent.sockets| {
      FollowAt(agent, e);
    }
    hide Affects, Leaving;
  }

  /** An event of a listed socket. */
  method FollowAt(agent: Agent, e: Event)
    requires agent.Valid() && !e.Request? && e.i < |agent.sockets|
    modifies agent, agent.sockets, agent.queue, agent.sent
    ensures agent.Valid() && agent.InOrder()
    ensures agent.parted == old(agent.parted + Leaving(ViewOf(agent), e))
    ensures Affects(old(LineOf(agent.sockets[e.i])), e, old(agent.queue), e.i, Lines(agent.sockets))
    ensures forall i :: 0 <= i < |agent.sockets| ==> agent.sockets[i] in old(agent.sockets) || fresh(agent.sockets[i])
  {
    hide Ready, Usable, Agent.Settled, Lines;
    var socket := agent.sockets[e.i];
    if socket.message != null {
      CarriedIsSent(agent, e.i);
    }
    match e {
      case Connected(_) =>
        agent.OnConnect(socket);
      case Answered(_, keepAlive) =>
        if socket.message != null {
          agent.OnResponseEnd(socket.message, socket, keepAlive);
        }
      case Lost(_) =>
        agent.OnLoss(socket);
      case Closed(_) =>
        agent.OnClose(socket);
      case Failed(_) =>
        var failed := agent.OnError(socket);
    }
  }

  /** Any run: requests are dispatched in the order in which they were made, and none is lost: each
      waits, or is on the socket that carries it, or has parted from it in an event of its own.  In the
      end, as always, one that waits has no socket to go to. */
  method Run(events: seq<Event>, maxSockets: nat)
    returns (agent: Agent, made: seq<ClientRequest>, ghost history: seq<View>)
    ensures fresh(agent) && agent.Valid() && agent.maxSockets == maxSockets
    ensures agent.sent + agent.queue == made && |made| == Requests(events) && DistinctRequests(made)
    ensures forall r :: r in made ==> r in agent.queue || r in agent.parted || OnItsSocket(r, agent.sockets)
    ensures |history| == |events| + 1 && history[0] == View([], [], {}, []) && history[|events|] == ViewOf(agent)
    ensures forall k :: 0 <= k < |events| ==> Followed(history[k], events[k], history[k + 1])
  {
    hide Ready, Usable, Agent.Valid, OnItsSocket, DistinctRequests, Followed;
    agent := new Agent(maxSockets);
    made, history := [], [ViewOf(agent)];
    AtFirst(agent);
    assert events[..0] == [];
    for k := 0 to |events|
      invariant fresh(agent) && agent.Valid() && agent.maxSockets == maxSockets
      invariant (forall r :: r in made ==> fresh(r)) && agent.sent + agent.queue == made && |made| == Requests(events[..k])
      invariant forall i :: 0 <= i < |agent.sockets| ==> fresh(agent.sockets[i])
      invariant |history| == k + 1 && history[0] == View([], [], {}, []) && history[k] == ViewOf(agent)
      invariant forall i :: 0 <= i < k ==> Followed(history[i], events[i], history[i + 1])
    {
      assert events[..k + 1][..k] == events[..k];
      QueueMade(agent.sent, agent.queue, made);
      assert forall i :: 0 <= i < |agent.sent| ==> fresh(agent.sent[i]);
      assert forall i :: 0 <= i < |agent.queue| ==> fresh(agent.queue[i]);
      var more := Follow(agent, events[k]);
      made, history := made + more, history + [ViewOf(agent)];
    }
    assert events[..|events|] == events;
    NoneLost(agent);
  }

  /** A socket that is kept alive after its response fails: nobody waits, and the handler throws. */
  method IdleSocketFails() returns (agent: Agent, socket: ClientSocket, failed: ClientRequest?)
    ensures agent.Valid() && agent.queue == [] && agent.sockets == [socket] && socket.message == null && failed == null
  {
    hide Agent.Valid;
    agent := new Agent(1);
    AtFirst(agent);
    var req := agent.AppendMessage();
    OnlySocket(agent, req);
    socket := agent.sockets[0];
    agent.OnConnect(socket);
    OnlySocket(agent, req);
    agent.OnResponseEnd(req, socket, true);
    AtMostOne(agent);
    failed := agent.OnError(socket);
  }

  lemma AtMostOne(agent: Agent)
    requires agent.Valid()
    ensures |agent.sockets| <= agent.maxSockets
  {
  }

  /** The one request there is has the one socket that there may be. */
  lemma OnlySocket(agent: Agent, req: ClientRequest)
    requires agent.Valid() && agent.maxSockets == 1 && agent.sent + agent.queue == [req] && agent.parted == {}
    requires agent.queue == [] || forall i :: 0 <= i < |agent.sockets| ==> agent.sockets[i].message != null
    ensures agent.queue == [] && |agent.sockets| == 1 && agent.sockets[0].message == req
  {
    if agent.queue != [] {
      FirstIsSent(agent);
    } else {
      assert agent.sent == [req] && OnItsSocket(agent.sent[0], agent.sockets);
    }
  }

  /** While a request waits, there are sockets; and what a socket carries has been sent. */
  lemma FirstIsSent(agent: Agent)
    requires agent.Valid() && agent.maxSockets > 0 && agent.queue != []
    ensures agent.sockets != [] && (agent.sockets[0].message != null ==> agent.sent != [])
  {
  }

  lemma AtFirst(agent: Agent)
    requires agent.Inv() && agent.Settled()
    ensures agent.Valid()
  {
  }

  lemma QueueMade(sent: seq<ClientRequest>, queue: seq<ClientRequest>, made: seq<ClientRequest>)
    requires sent + queue == made
    ensures forall i :: 0 <= i < |sent| ==> sent[i] in made
    ensures forall i :: 0 <= i < |queue| ==> queue[i] in made
  {
    assert forall i :: 0 <= i < |sent| ==> sent[i] == made[i];
    assert forall i :: 0 <= i < |queue| ==> queue[i] == made[|sent| + i];
  }

  lemma CarriedIsSent(agent: Agent, i: nat)
    requires agent.Valid() && i < |agent.sockets| && agent.sockets[i].message != null
    ensures agent.sockets[i].message in agent.sent && agent.sockets[i].message in agent.sent + agent.queue
  {
  }

  lemma NoneLost(agent: Agent)
    requires agent.Valid()
    ensures DistinctRequests(agent.sent + agent.queue)
    ensures forall r :: r in agent.sent + agent.queue ==>
              r in agent.queue || r in agent.parted || OnItsSocket(r, agent.sockets)
  {
  }
}

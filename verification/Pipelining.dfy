/**
  The server side of a connection in lib/http.js: responses may be written to in any order, and go
  out in the order of their requests (section 8.1.2.2 of RFC 2616).

  `Replay` tells what each response has said after a run of events, as if it were alone.
  `Connection` is the code that shares one socket between them.
 */
module Pipelining {
  import opened Basics
  import opened ChunkedFraming
  import opened OutgoingMessages

  datatype Event =
    | Arrive(request: int, plan: Plan)
    | WriteTo(k: nat, data: Data)
    | EndOf(k: nat, end: Option<Data>)

  /** The responses of a connection, in the order of their requests. */
  datatype Ledger = Ledger(requests: seq<int>, plans: seq<Plan>, stories: seq<Story>)

  /** How many responses are finished and off the connection, counting from the `i`th: those
      before the first that has not ended, and none behind one marked last. */
  function Done(w: Ledger, i: nat): (n: nat)
    requires |w.plans| == |w.stories| && i <= |w.stories|
    ensures i <= n <= |w.stories|
    decreases |w.stories| - i
  {
    if i == |w.stories| || !w.stories[i].ended then i
    else if w.plans[i].last then i + 1
    else Done(w, i + 1)
  }

  /** The first `n` responses are finished, and no more. */
  ghost predicate IsDone(w: Ledger, n: nat)
    requires |w.plans| == |w.stories|
  {
    && n <= |w.stories|
    && (forall i :: 0 <= i < n ==> w.stories[i].ended)
    && (forall i :: 0 <= i < n - 1 ==> !w.plans[i].last)
    && (n < |w.stories| && w.stories[n].ended ==> n > 0 && w.plans[n - 1].last)
  }

  lemma {:induction false} DoneIsDone(w: Ledger, i: nat, n: nat)
    requires |w.plans| == |w.stories| && IsDone(w, n) && i <= n
    requires n > 0 && w.plans[n - 1].last ==> i < n
    ensures Done(w, i) == n
    decreases n - i
  {
    if i < n && !w.plans[i].last {
      DoneIsDone(w, i + 1, n);
    }
  }

  /** A response marked last has finished. */
  predicate Over(w: Ledger, n: nat)
    requires |w.plans| == |w.stories| && n <= |w.stories|
  {
    n > 0 && w.plans[n - 1].last
  }

  function SentBy(stories: seq<Story>): Bytes {
    if stories == [] then "" else SentBy(stories[..|stories| - 1]) + stories[|stories| - 1].sent
  }

  /** The complete bytes of the finished responses, and those so far of the one whose turn it is. */
  function WireAt(w: Ledger, n: nat): Bytes
    requires |w.plans| == |w.stories| && n <= |w.stories|
  {
    SentBy(w.stories[..n]) + (if n < |w.stories| && !Over(w, n) then w.stories[n].sent else "")
  }

  function Wire(w: Ledger): Bytes
    requires |w.plans| == |w.stories|
  {
    WireAt(w, Done(w, 0))
  }

  function Next(w: Ledger, e: Event): (r: Ledger)
    requires |w.requests| == |w.plans| == |w.stories|
    ensures |r.requests| == |r.plans| == |r.stories|
  {
    match e
    case Arrive(request, plan) =>
      Ledger(w.requests + [request], w.plans + [plan], w.stories + [NEW_STORY])
    case WriteTo(k, data) =>
      if k < |w.stories| then w.(stories := w.stories[k := AfterWrite(w.plans[k], w.stories[k], data.bytes)]) else w
    case EndOf(k, end) =>
      if k < |w.stories| then w.(stories := w.stories[k := AfterEnd(w.plans[k], w.stories[k], end, k == Done(w, 0))]) else w
  }

  function Replay(events: seq<Event>): (w: Ledger)
    ensures |w.requests| == |w.plans| == |w.stories|
  {
    if events == [] then Ledger([], [], []) else Next(Replay(events[..|events| - 1]), events[|events| - 1])
  }

  /** Handlers write to responses they have been given, end each of them once and write no more
      after that; and the run stops when a response marked last has finished. */
  ghost predicate Legal(w: Ledger, e: Event)
    requires |w.requests| == |w.plans| == |w.stories|
  {
    && !Over(w, Done(w, 0))
    && match e
       case Arrive(_, plan) => Proper(plan)
       case WriteTo(k, _) => k < |w.stories| && !w.stories[k].ended
       case EndOf(k, _) => k < |w.stories| && !w.stories[k].ended
  }

  ghost predicate Distinct(all: seq<OutgoingMessage>) {
    forall i, j :: 0 <= i < j < |all| ==> all[i] != all[j]
  }

  /** The ledger tells the truth about a response. */
  ghost predicate Recorded(m: OutgoingMessage, w: Ledger, i: nat)
    requires i < |w.requests| == |w.plans| == |w.stories|
    reads m`story
  {
    m.request == w.requests[i] && m.plan == w.plans[i] && m.story == w.stories[i]
  }

  ghost predicate Records(all: seq<OutgoingMessage>, w: Ledger)
    reads all`story
  {
    && |all| == |w.requests| == |w.plans| == |w.stories|
    && forall i :: 0 <= i < |all| ==> Recorded(all[i], w, i)
  }

  /** A response that waits for its turn keeps everything back. */
  ghost predicate Waiting(m: OutgoingMessage)
    reads m
  {
    m.connection == null && m.before == "" && m.Coherent() && m.Settled() && Joined(m.output) == m.story.sent
  }

  lemma WaitingIsValid(m: OutgoingMessage)
    ensures Waiting(m) <==> m.connection == null && m.before == "" && m.Valid()
  {
  }

  ghost predicate AllWaiting(all: seq<OutgoingMessage>, from: nat)
    reads all
  {
    forall i :: from <= i < |all| ==> Waiting(all[i])
  }

  /** `m` owns the socket, which carried `before` when it took over. */
  ghost predicate Current(m: OutgoingMessage, socket: Socket, before: Bytes)
    reads m, socket
  {
    m.connection == socket && socket.message == m && m.before == before && m.Valid()
  }

  /** What has ended stays so, and only the last of the finished responses may be marked last. */
  ghost predicate Finished(w: Ledger, n: nat)
    requires |w.plans| == |w.stories| && n <= |w.stories|
  {
    && (forall i :: 0 <= i < n ==> w.stories[i].ended)
    && (forall i :: 0 <= i < n - 1 ==> !w.plans[i].last)
  }

  /** It is the turn of response `n`. */
  ghost predicate Busy(w: Ledger, n: nat)
    requires |w.plans| == |w.stories| && n <= |w.stories|
  {
    n < |w.stories| && !Over(w, n)
  }

  /** The responses, and which of them has the socket: the `n`th, unless all is over. */
  ghost predicate Lined(all: seq<OutgoingMessage>, w: Ledger, n: nat, socket: Socket)
    reads socket, all
  {
    && Distinct(all) && Records(all, w) && n <= |all| && socket.writable
    && (if Busy(w, n) then Current(all[n], socket, SentBy(w.stories[..n])) && AllWaiting(all, n + 1)
        else socket.message == null && socket.wire == SentBy(w.stories[..n]) && AllWaiting(all, n))
  }

  /** The bytes on the wire are those of the finished responses and the current one. */
  lemma LinedWire(all: seq<OutgoingMessage>, w: Ledger, n: nat, socket: Socket)
    requires Lined(all, w, n, socket)
    ensures socket.wire == WireAt(w, n)
  {
    if Busy(w, n) {
      assert all[n].Direct();
      assert Recorded(all[n], w, n);
    }
  }

  /** What a response may do on its own turn, or while it waits. */
  lemma AtTurn(all: seq<OutgoingMessage>, w: Ledger, n: nat, socket: Socket, k: nat)
    requires Lined(all, w, n, socket) && n <= k < |all|
    ensures Recorded(all[k], w, k) && all[k].Valid() && all[k].finished == w.stories[k].ended
    ensures if Busy(w, n) && k == n then Current(all[k], socket, SentBy(w.stories[..n])) && all[k].Direct()
            else Waiting(all[k]) && !all[k].Direct()
  {
    WaitingIsValid(all[k]);
  }

  method WriteOn(res: OutgoingMessage, data: Data,
                 ghost all: seq<OutgoingMessage>, ghost w: Ledger, ghost n: nat, ghost k: nat, socket: Socket)
    requires Lined(all, w, n, socket) && n <= k < |all| && all[k] == res
    modifies res, socket`wire
    ensures Lined(all, w.(stories := w.stories[k := AfterWrite(w.plans[k], w.stories[k], data.bytes)]), n, socket)
  {
    hide AfterWrite, SentBy, OutgoingMessage.Valid, OutgoingMessage.Coherent, OutgoingMessage.Settled, Joined;
    AtTurn(all, w, n, socket, k);
    res.Write(data);
    WaitingIsValid(res);
    ghost var stories := w.stories[k := AfterWrite(w.plans[k], w.stories[k], data.bytes)];
    assert stories[..n] == w.stories[..n];
    assert if Busy(w, n) && k == n then Current(res, socket, SentBy(stories[..n])) else Waiting(res);
    hide Waiting, Current;
  }

  method EndOn(res: OutgoingMessage, end: Option<Data>,
               ghost all: seq<OutgoingMessage>, ghost w: Ledger, ghost n: nat, ghost k: nat, socket: Socket)
    returns (finish: bool)
    requires Lined(all, w, n, socket) && n <= k < |all| && all[k] == res && !w.stories[k].ended
    modifies res, socket`wire
    ensures finish <==> Busy(w, n) && k == n
    ensures Lined(all, w.(stories := w.stories[k := AfterEnd(w.plans[k], w.stories[k], end, finish)]), n, socket)
  {
    hide AfterEnd, SentBy, OutgoingMessage.Valid, OutgoingMessage.Settled, Joined;
    AtTurn(all, w, n, socket, k);
    finish := res.End(end);
    WaitingIsValid(res);
    ghost var stories := w.stories[k := AfterEnd(w.plans[k], w.stories[k], end, finish)];
    assert stories[..n] == w.stories[..n];
    assert if Busy(w, n) && k == n then Current(res, socket, SentBy(stories[..n])) else Waiting(res);
    hide Waiting, Current;
  }

  /** Nobody owns the socket; the first `n` responses are on the wire. */
  ghost predicate Vacant(all: seq<OutgoingMessage>, w: Ledger, n: nat, socket: Socket)
    reads socket, all
  {
    && Distinct(all) && Records(all, w) && n <= |all| && socket.writable
    && socket.message == null && socket.wire == SentBy(w.stories[..n]) && AllWaiting(all, n)
  }

  lemma VacantIsLined(all: seq<OutgoingMessage>, w: Ledger, n: nat, socket: Socket)
    requires |all| == |w.stories| == |w.plans| && n <= |all| && !Busy(w, n)
    ensures Vacant(all, w, n, socket) <==> Lined(all, w, n, socket)
  {
  }

  lemma Owner(all: seq<OutgoingMessage>, w: Ledger, n: nat, socket: Socket)
    requires Lined(all, w, n, socket)
    ensures socket.message == if Busy(w, n) then all[n] else null
  {
  }

  lemma SentByOneMore(stories: seq<Story>, n: nat)
    requires n < |stories|
    ensures SentBy(stories[..n + 1]) == SentBy(stories[..n]) + stories[n].sent
  {
    assert stories[..n + 1][..n] == stories[..n];
  }

  /** The current response has ended and lets go of the socket. */
  method LetGo(res: OutgoingMessage, ghost all: seq<OutgoingMessage>, ghost w: Ledger, ghost n: nat, socket: Socket)
    requires Lined(all, w, n, socket) && Busy(w, n) && all[n] == res
    modifies res`connection, socket`message
    ensures Vacant(all, w, n + 1, socket)
  {
    LinedWire(all, w, n, socket);
    SentByOneMore(w.stories, n);
    hide SentBy, OutgoingMessage.Valid, Waiting;
    res.DetachSocket(socket);
  }

  /** The next response takes the socket over; it may have ended already. */
  method TakeOver(res: OutgoingMessage, ghost all: seq<OutgoingMessage>, ghost w: Ledger, ghost n: nat, socket: Socket)
    returns (finish: bool)
    requires Vacant(all, w, n, socket) && Busy(w, n) && all[n] == res
    modifies socket`message, socket`wire, res`connection, res`output, res`before
    ensures Lined(all, w, n, socket)
    ensures finish <==> w.stories[n].ended
  {
    hide SentBy, OutgoingMessage.Valid, OutgoingMessage.Settled, Joined;
    WaitingIsValid(res);
    assert Recorded(res, w, n);
    Finishes(res);
    finish := res.AssignSocket(socket);
    hide Waiting;
  }

  lemma Finishes(res: OutgoingMessage)
    requires Waiting(res)
    ensures res.finished == res.story.ended
  {
  }

  /** A new response joins the line. */
  lemma Joins(all: seq<OutgoingMessage>, w: Ledger, n: nat, socket: Socket, res: OutgoingMessage)
    requires Lined(all, w, n, socket) && !Over(w, n)
    requires res !in all && Waiting(res) && res.story == NEW_STORY
    ensures var w' := Next(w, Arrive(res.request, res.plan));
      if Busy(w, n) then Busy(w', n) && Lined(all + [res], w', n, socket)
      else n == |all| && Busy(w', n) && Vacant(all + [res], w', n, socket)
  {
    hide SentBy, Current, Waiting;
    var w' := Next(w, Arrive(res.request, res.plan));
    assert w'.stories[..n] == w.stories[..n];
    assert forall i :: 0 <= i < |all| ==> (all + [res])[i] == all[i];
  }

  /** The queues hold what has not finished: the requests from the current one on, and the
      responses behind it. */
  ghost predicate Queues(incoming: seq<int>, outgoing: seq<OutgoingMessage>, all: seq<OutgoingMessage>, w: Ledger, n: nat) {
    && n <= |w.stories| == |w.plans| == |w.requests| == |all|
    && outgoing == (if Busy(w, n) then all[n + 1..] else all[n..])
    && incoming == w.requests[n..]
  }

  lemma QueuesArrive(incoming: seq<int>, outgoing: seq<OutgoingMessage>, all: seq<OutgoingMessage>, w: Ledger, n: nat,
                     request: int, plan: Plan, res: OutgoingMessage)
    requires Queues(incoming, outgoing, all, w, n) && IsDone(w, n) && Finished(w, n) && !Over(w, n)
    ensures n <= |w.stories| == |w.plans| == |w.requests|
    ensures var w' := Next(w, Arrive(request, plan));
      && n < |w'.stories| == |w'.plans| == |w'.requests|
      && Queues(incoming + [request], if Busy(w, n) then outgoing + [res] else outgoing, all + [res], w', n)
      && IsDone(w', n) && Finished(w', n) && (all + [res])[n] == (if Busy(w, n) then all[n] else res)
      && !w'.stories[n].ended
  {
  }

  lemma QueuesFinish(incoming: seq<int>, outgoing: seq<OutgoingMessage>, all: seq<OutgoingMessage>, w: Ledger, n: nat)
    requires Queues(incoming, outgoing, all, w, n) && Finished(w, n) && Busy(w, n) && w.stories[n].ended
    ensures n < |w.stories| == |w.plans| == |all| && incoming != [] && incoming[0] == w.requests[n]
    ensures Finished(w, n + 1) && (Busy(w, n + 1) ==> !w.plans[n].last)
    ensures if Busy(w, n + 1) then
              outgoing != [] && outgoing[0] == all[n + 1] && Queues(incoming[1..], outgoing[1..], all, w, n + 1)
            else Queues(incoming[1..], outgoing, all, w, n + 1) && (outgoing == [] || w.plans[n].last)
    ensures (Busy(w, n + 1) && w.stories[n + 1].ended) || IsDone(w, n + 1)
  {
  }

  class Connection {
    const socket: Socket
    var incoming: seq<int>
    var outgoing: seq<OutgoingMessage>
    ghost var all: seq<OutgoingMessage>
    ghost var ledger: Ledger
    ghost var n: nat  // how many responses have finished

    constructor ()
      ensures Valid() && fresh(socket) && all == [] && ledger == Ledger([], [], []) && socket.wire == ""
    {
      socket := new Socket();
      incoming, outgoing := [], [];
      all, ledger, n := [], Ledger([], [], []), 0;
    }

    /** Everything but that the current response has not ended. */
    ghost predicate Inv()
      reads this, socket, all
    {
      Queues(incoming, outgoing, all, ledger, n) && Lined(all, ledger, n, socket) && Finished(ledger, n)
    }

    ghost predicate Valid()
      reads this, socket, all
    {
      Inv() && IsDone(ledger, n)
    }

    /** The wire carries the responses in order, and nothing else. */
    lemma InOrder()
      requires Valid()
      ensures |all| == |ledger.requests| == |ledger.plans| == |ledger.stories|
      ensures n == Done(ledger, 0) && socket.wire == Wire(ledger)
    {
      DoneIsDone(ledger, 0, n);
      LinedWire(all, ledger, n, socket);
    }

    /** `onIncoming` up to the call of the handler. */
    method OnIncoming(request: int, plan: Plan) returns (res: OutgoingMessage)
      requires Valid() && Proper(plan) && !Over(ledger, n)
      modifies this, socket`message, socket`wire
      ensures Valid() && fresh(res) && all == old(all) + [res]
      ensures ledger == Next(old(ledger), Arrive(request, plan))
    {
      hide Lined, Vacant, Waiting, SentBy, OutgoingMessage.Valid, Done, Queues, IsDone, Finished, Busy, Next;
      incoming := incoming + [request];
      res := new OutgoingMessage(request, plan);
      WaitingIsValid(res);
      Owner(all, ledger, n, socket);
      Joins(all, ledger, n, socket, res);
      QueuesArrive(old(incoming), outgoing, all, ledger, n, request, plan, res);
      all := all + [res];
      ledger := Next(ledger, Arrive(request, plan));
      if socket.message != null {
        outgoing := outgoing + [res];
      } else {
        var finish := TakeOver(res, all, ledger, n, socket);
      }
    }

    /** The listener for 'finish'. */
    method OnFinish(res: OutgoingMessage)
      requires Inv() && Busy(ledger, n) && all[n] == res && ledger.stories[n].ended
      modifies this`incoming, this`outgoing, this`n, socket`message, socket`wire, all
      ensures Valid()
      decreases |outgoing|
    {
      hide Lined, Vacant, SentBy, Queues, IsDone, Finished, OutgoingMessage.Valid;
      QueuesFinish(incoming, outgoing, all, ledger, n);
      AtTurn(all, ledger, n, socket, n);
      assert incoming[0] == res.request;
      incoming := incoming[1..];
      LetGo(res, all, ledger, n, socket);
      n := n + 1;
      if !Busy(ledger, n) {
        VacantIsLined(all, ledger, n, socket);
      }
      if !res.plan.last && outgoing != [] {
        var m := outgoing[0];
        outgoing := outgoing[1..];
        var finish := TakeOver(m, all, ledger, n, socket);
        if finish {
          OnFinish(m);
        }
      }
    }

    method Write(ghost k: nat, res: OutgoingMessage, data: Data)
      requires Valid() && k < |all| && all[k] == res && !ledger.stories[k].ended
      modifies this`ledger, res, socket`wire
      ensures Valid()
      ensures ledger == Next(old(ledger), WriteTo(k, data))
    {
      hide Lined, AfterWrite, OutgoingMessage.Valid, SentBy, Done;
      EndedBy(ledger.plans[k], ledger.stories[k], data.bytes, None, true);
      WriteOn(res, data, all, ledger, n, k, socket);
      ledger := Next(ledger, WriteTo(k, data));
    }

    method End(ghost k: nat, res: OutgoingMessage, end: Option<Data>)
      requires Valid() && k < |all| && all[k] == res && !ledger.stories[k].ended && !Over(ledger, n)
      modifies this`ledger, this`incoming, this`outgoing, this`n, socket`message, socket`wire, all
      ensures Valid()
      ensures ledger == Next(old(ledger), EndOf(k, end))
    {
      hide Lined, AfterEnd, OutgoingMessage.Valid;
      DoneIsDone(ledger, 0, n);
      EndedBy(ledger.plans[k], ledger.stories[k], "", end, k == n);
      var finish := EndOn(res, end, all, ledger, n, k, socket);
      ledger := Next(ledger, EndOf(k, end));
      if finish {
        OnFinish(res);
      }
    }
  }

  /** Every step of the run is one the handlers may take. */
  ghost predicate LegalRun(events: seq<Event>) {
    forall i :: 0 <= i < |events| ==> Legal(Replay(events[..i]), events[i])
  }

  /** Any run: whatever the interleaving, the wire carries the complete bytes of the finished
      responses in the order of their requests, and then those so far of the next one. */
  method Run(events: seq<Event>) returns (c: Connection)
    requires LegalRun(events)
    ensures fresh(c) && c.Valid() && c.ledger == Replay(events)
    ensures c.socket.wire == Wire(Replay(events))
  {
    hide Connection.Valid, Next, Wire, Done;
    c := new Connection();
    var responses: seq<OutgoingMessage> := [];
    for i := 0 to |events|
      invariant c.Valid() && fresh(c) && fresh(c.socket) && responses == c.all && forall j :: 0 <= j < |c.all| ==> fresh(c.all[j])
      invariant c.ledger == Replay(events[..i])
    {
      assert Legal(Replay(events[..i]), events[i]);
      assert events[..i + 1][..i] == events[..i];
      c.InOrder();
      match events[i]
      case Arrive(request, plan) =>
        var res := c.OnIncoming(request, plan);
        responses := responses + [res];
      case WriteTo(k, data) =>
        c.Write(k, responses[k], data);
      case EndOf(k, end) =>
        c.End(k, responses[k], end);
    }
    assert events[..|events|] == events;
    c.InOrder();
  }

  /** The data a run writes to response `k`, and how the run ends it. */
  function WritesTo(events: seq<Event>, k: nat): seq<Bytes> {
    if events == [] then []
    else
      var before, e := WritesTo(events[..|events| - 1], k), events[|events| - 1];
      if e.WriteTo? && e.k == k then before + [e.data.bytes] else before
  }

  function EndIn(events: seq<Event>, k: nat): Option<Option<Data>> {
    if events == [] then None
    else
      var e := events[|events| - 1];
      if e.EndOf? && e.k == k then Some(e.end) else EndIn(events[..|events| - 1], k)
  }

  /** What response `k` has said is what it would have said alone. */
  ghost predicate Own(w: Ledger, k: nat, writes: seq<Bytes>, end: Option<Option<Data>>)
    requires |w.plans| == |w.stories|
  {
    if k >= |w.stories| then writes == [] && end == None
    else
      var plan, told := w.plans[k], Telling(w.plans[k], writes);
      if end.None? then w.stories[k] == told
      else w.stories[k] == AfterEnd(plan, told, end.value, false) || (!plan.hasBody && w.stories[k] == AfterEnd(plan, told, end.value, true))
  }

  lemma OwnStep(w: Ledger, e: Event, k: nat, writes: seq<Bytes>, end: Option<Option<Data>>)
    requires |w.requests| == |w.plans| == |w.stories| && Legal(w, e) && Own(w, k, writes, end)
    ensures Own(Next(w, e), k,
                if e.WriteTo? && e.k == k then writes + [e.data.bytes] else writes,
                if e.EndOf? && e.k == k then Some(e.end) else end)
  {
    hide AfterWrite, AfterEnd, Done, Over, Hot;
    if k < |w.stories| && !e.Arrive? && e.k == k {
      if end.Some? {
        EndedBy(w.plans[k], Telling(w.plans[k], writes), "", end.value, false);
        EndedBy(w.plans[k], Telling(w.plans[k], writes), "", end.value, true);
      }
      if e.WriteTo? {
        var more := writes + [e.data.bytes];
        assert more[..|more| - 1] == writes;
      } else {
        HotPathAgrees(w.plans[k], w.stories[k], e.end);
      }
    }
  }

  /** What a response has said depends on nothing but the calls made on it; and if it must not have
      a body, on whether it was its turn when it ended. */
  lemma {:induction false} OwnStory(events: seq<Event>, k: nat)
    requires LegalRun(events)
    ensures Own(Replay(events), k, WritesTo(events, k), EndIn(events, k))
  {
    hide Own, Legal, Next;
    if events == [] {
      OwnStart(k);
    } else {
      var before, e := events[..|events| - 1], events[|events| - 1];
      forall i | 0 <= i < |before|
        ensures Legal(Replay(before[..i]), before[i])
      {
        assert before[..i] == events[..i] && before[i] == events[i];
      }
      assert events[..|events| - 1] == before;
      OwnStory(before, k);
      OwnStep(Replay(before), e, k, WritesTo(before, k), EndIn(before, k));
    }
  }

  lemma OwnStart(k: nat)
    ensures Own(Ledger([], [], []), k, [], None)
  {
  }

  /** However the handlers are interleaved, a client that reads the chunked body of a finished
      response gets the data that was written to it, and then what follows on the wire. */
  lemma ResponseRoundTrip(events: seq<Event>, k: nat, rest: Bytes)
    requires LegalRun(events)
    requires var w := Replay(events); k < |w.stories| && w.plans[k].hasBody && w.plans[k].chunked && ProperLines(w.plans[k].trailer)
    requires EndIn(events, k).Some?
    ensures var plan, sent := Replay(events).plans[k], Replay(events).stories[k].sent;
      && plan.head <= sent
      && ReadChunked(sent[|plan.head|..] + rest)
         == Some(Message(Flatten(AllData(WritesTo(events, k), EndIn(events, k).value)), plan.trailer, rest))
  {
    OwnStory(events, k);
    MessageRoundTrip(Replay(events).plans[k], WritesTo(events, k), EndIn(events, k).value, false, rest);
  }

  lemma {:induction false} DoneHaveEnded(w: Ledger, i: nat, k: nat)
    requires |w.plans| == |w.stories| && i <= k < |w.stories| && k < Done(w, i)
    ensures w.stories[k].ended
    decreases k - i
  {
    if i < k {
      DoneHaveEnded(w, i + 1, k);
    }
  }

  /** What is sent up to response `n` begins with what is sent up to response `k`. */
  lemma {:induction false} SentFurther(stories: seq<Story>, k: nat, n: nat) returns (rest: Bytes)
    requires k <= n <= |stories|
    ensures SentBy(stories[..n]) == SentBy(stories[..k]) + rest
  {
    if k == n {
      rest := "";
    } else {
      rest := SentFurther(stories, k, n - 1);
      SentOneMore(stories, n - 1);
      rest := rest + stories[n - 1].sent;
    }
  }

  lemma SentOneMore(stories: seq<Story>, n: nat)
    requires n < |stories|
    ensures SentBy(stories[..n + 1]) == SentBy(stories[..n]) + stories[n].sent
  {
    assert stories[..n + 1][..n] == stories[..n];
  }

  /** What has not been ended by a call has not ended. */
  lemma EndedInRun(events: seq<Event>, k: nat)
    requires LegalRun(events)
    requires var w := Replay(events); k < |w.stories|
    ensures Replay(events).stories[k].ended <==> EndIn(events, k).Some?
  {
    OwnStory(events, k);
    var plan, writes := Replay(events).plans[k], WritesTo(events, k);
    NotEnded(plan, writes);
    if EndIn(events, k).Some? {
      EndedBy(plan, Telling(plan, writes), "", EndIn(events, k).value, false);
      EndedBy(plan, Telling(plan, writes), "", EndIn(events, k).value, true);
    }
    hide Telling, Replay, AfterEnd;
  }

  lemma {:induction false} NotEnded(plan: Plan, data: seq<Bytes>)
    ensures !Telling(plan, data).ended
  {
    if data != [] {
      var front := data[..|data| - 1];
      NotEnded(plan, front);
      EndedBy(plan, Telling(plan, front), data[|data| - 1], None, false);
      hide AfterWrite, AfterEnd;
    }
  }

  /** Where the bytes of a finished response are on the wire. */
  lemma OnWire(events: seq<Event>, k: nat)
    requires LegalRun(events) && k < Done(Replay(events), 0)
    ensures var w, wire := Replay(events), Wire(Replay(events));
      var start, next := |SentBy(w.stories[..k])|, |SentBy(w.stories[..k + 1])|;
      start <= next <= |wire| && wire[start..next] == w.stories[k].sent && EndIn(events, k).Some?
  {
    hide LegalRun, Done, SentBy, WritesTo, EndIn, Replay;
    var w, wire := Replay(events), Wire(Replay(events));
    var n, sent, before := Done(w, 0), w.stories[k].sent, SentBy(w.stories[..k]);
    DoneHaveEnded(w, 0, k);
    EndedInRun(events, k);
    var more := SentFurther(w.stories, k + 1, n);
    SentOneMore(w.stories, k);
    var rest := wire[|before| + |sent|..];
    assert wire == before + sent + rest;
  }

  /** Between the responses before it and those after it, a finished response that is not chunked
      has its header and the data that was written to it, as it is. */
  lemma PlainOnWire(events: seq<Event>, k: nat)
    requires LegalRun(events)
    requires var w := Replay(events); k < Done(w, 0) && w.plans[k].hasBody && !w.plans[k].chunked
    ensures var w, wire := Replay(events), Wire(Replay(events));
      var start, next := |SentBy(w.stories[..k])|, |SentBy(w.stories[..k + 1])|;
      && start <= next <= |wire| && EndIn(events, k).Some?
      && wire[start..next] == w.plans[k].head + Flatten(AllData(WritesTo(events, k), EndIn(events, k).value))
  {
    hide LegalRun, Done, Flatten, AllData, SentBy, WritesTo, EndIn, Replay, AfterEnd, Telling;
    OnWire(events, k);
    OwnStory(events, k);
    MessageBytes(Replay(events).plans[k], WritesTo(events, k), EndIn(events, k).value, false);
  }

  /** One that must not have a body has its header, and the last chunk if it is chunked; or, by the
      hot path, the string that it was ended with. */
  lemma BodilessOnWire(events: seq<Event>, k: nat)
    requires LegalRun(events)
    requires var w := Replay(events); k < Done(w, 0) && !w.plans[k].hasBody
    ensures var w, wire := Replay(events), Wire(Replay(events));
      var plan, start, next := w.plans[k], |SentBy(w.stories[..k])|, |SentBy(w.stories[..k + 1])|;
      && start <= next <= |wire| && EndIn(events, k).Some?
      && var end, closing := EndIn(events, k).value, if plan.chunked then LastChunk(plan.trailer) else "";
         || wire[start..next] == plan.head + closing
         || (&& end.Some? && end.value.Str? && end.value.bytes != ""
             && wire[start..next] == plan.head + (if plan.chunked then Chunk(end.value.bytes) else end.value.bytes) + closing)
  {
    hide LegalRun, Done, SentBy, WritesTo, EndIn, Replay, AfterEnd, Telling, Chunk, LastChunk;
    OnWire(events, k);
    OwnStory(events, k);
    var plan := Replay(events).plans[k];
    BodilessBytes(plan, WritesTo(events, k), EndIn(events, k).value, false);
    BodilessBytes(plan, WritesTo(events, k), EndIn(events, k).value, true);
    assert plan.head + "" == plan.head;
  }

  /** What is written to the response whose turn it is, is on the wire at once. */
  lemma PromptOnTurn(events: seq<Event>, k: nat)
    requires LegalRun(events)
    requires var w := Replay(events); k == Done(w, 0) < |w.stories| && !Over(w, k) && w.plans[k].hasBody
    ensures var w := Replay(events);
      var said := if w.plans[k].chunked then Chunks(WritesTo(events, k)) else Flatten(WritesTo(events, k));
      Wire(w) == SentBy(w.stories[..k]) + if Flatten(WritesTo(events, k)) == "" then "" else w.plans[k].head + said
  {
    hide LegalRun, SentBy, WritesTo, EndIn, Replay, AfterEnd, Telling, Chunks, Flatten;
    var w, writes := Replay(events), WritesTo(events, k);
    DoneHasNotEnded(w, 0);
    EndedInRun(events, k);
    OwnStory(events, k);
    Told(w.plans[k], writes);
    StartedByData(w.plans[k], writes);
  }

  lemma {:induction false} DoneHasNotEnded(w: Ledger, i: nat)
    requires |w.plans| == |w.stories| && i <= |w.stories|
    ensures var n := Done(w, i); n < |w.stories| && w.stories[n].ended ==> n > 0 && w.plans[n - 1].last
    decreases |w.stories| - i
  {
    if i < |w.stories| && w.stories[i].ended && !w.plans[i].last {
      DoneHasNotEnded(w, i + 1);
    }
  }

  lemma {:induction false} StartedByData(plan: Plan, data: seq<Bytes>)
    requires plan.hasBody
    ensures Telling(plan, data).started <==> Flatten(data) != ""
  {
    if data != [] {
      var n := |data| - 1;
      StartedByData(plan, data[..n]);
      FlattenAppend(data[..n], data[n]);
      assert data[..n] + [data[n]] == data;
      hide Flatten;
    }
  }

  /** The same on the wire: a client that has read what comes before a finished response finds its
      header, and behind that the chunked body with the data that was written to it; then it is where
      the next response begins. */
  lemma WireRoundTrip(events: seq<Event>, k: nat)
    requires LegalRun(events)
    requires var w := Replay(events); k < Done(w, 0) && w.plans[k].hasBody && w.plans[k].chunked && ProperLines(w.plans[k].trailer)
    ensures var w, wire := Replay(events), Wire(Replay(events));
      var start, next, plan := |SentBy(w.stories[..k])|, |SentBy(w.stories[..k + 1])|, w.plans[k];
      && start + |plan.head| <= next <= |wire| && wire[start..start + |plan.head|] == plan.head
      && EndIn(events, k).Some?
      && ReadChunked(wire[start + |plan.head|..])
         == Some(Message(Flatten(AllData(WritesTo(events, k), EndIn(events, k).value)), plan.trailer, wire[next..]))
  {
    hide LegalRun, Done, ReadChunked, ProperLines, Flatten, AllData, SentBy, WritesTo, EndIn, Replay, Wire;
    var w, wire := Replay(events), Wire(Replay(events));
    var head, sent, start, next := w.plans[k].head, w.stories[k].sent, |SentBy(w.stories[..k])|, |SentBy(w.stories[..k + 1])|;
    OnWire(events, k);
    ResponseRoundTrip(events, k, wire[next..]);
    assert wire[start + |head|..] == sent[|head|..] + wire[next..];
    assert wire[start..start + |head|] == sent[..|head|];
  }
}

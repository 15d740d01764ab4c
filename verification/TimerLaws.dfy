/**
  What `active`, `enroll` and `unenroll` do for an item, and what that comes to over whole runs: an
  item fires when it has been idle for its timeout since it was last active, and not before.
 */
module TimerLaws {
  import opened LinkedList
  import opened IdleLists
  import opened TimerBooks

  /** `active` stamps the item with the time and puts it last on its list, wherever it was before,
      or throws; an item with a negative timeout is left alone. */
  lemma ActiveResets(b: Book, x: Item)
    requires Orderly(b) && x in b.timeout
    ensures var m, c := b.timeout[x], Performed(b, ActiveOp(x));
      && (m < 0 ==> c == b && !Fails(b, ActiveOp(x)))
      && (m >= 0 ==> StartOf(c, x) == b.now && (Fails(b, ActiveOp(x)) <==> !OnList(c, x)))
      && (m >= 0 && !Fails(b, ActiveOp(x)) ==> ListOf(c, m) == Without(ListOf(b, m), x) + [x] && x !in c.ready)
      && (m >= 0 ==> c.timeout == b.timeout && c.start == b.start[x := b.now])
      && forall n :: n != m ==> ListOf(c, n) == ListOf(b, n)
  {
    hide Aging, Distinct, Without, Detached;
    var m := b.timeout[x];
    if m < 0 {
    } else if x in b.ready {
      OpenedKeeps(b, m);
      PutLast(Opened(b, m), x);
      InsertedIs(b, x, m);
      hide Orderly, Opened, Inserted;
    } else if m in b.rings {
      PutLast(b, x);
      hide Orderly;
    } else {
      StampedOff(b, x);
      NoSuchList(Stamped(b, x), x, m);
    }
  }

  /** The watcher of the list is started for the whole timeout if the item was enrolled and nothing
      is on the list, and is not touched otherwise. */
  lemma ActiveStarts(b: Book, x: Item)
    requires Orderly(b) && x in b.timeout && b.timeout[x] >= 0
    ensures var m, c := b.timeout[x], Performed(b, ActiveOp(x));
      && (x in b.ready && m > 0 && ListOf(b, m) == [] ==> m in c.watch && c.watch[m] == Watch(true, b.loop + m))
      && (x !in b.ready || ListOf(b, m) != [] ==> c.watch == b.watch)
      && forall n :: n in b.watch && n != m ==> n in c.watch && c.watch[n] == b.watch[n]
  {
    hide Aging, Distinct, Detached, Extended;
    if x in b.ready {
      InsertedIs(b, x, b.timeout[x]);
      OpenedKeeps(b, b.timeout[x]);
    }
  }

  /** `unenroll` takes the item off its list, and lets the watcher of that rest if it is empty now. */
  lemma UnenrollTakesOff(b: Book, x: Item)
    requires Orderly(b) && x in b.timeout
    ensures var m, c := b.timeout[x], Performed(b, UnenrollOp(x));
      && (forall n :: ListOf(c, n) == if n == m then Without(ListOf(b, n), x) else ListOf(b, n))
      && !OnList(c, x) && x !in c.ready && c.timeout == b.timeout && c.start == b.start
      && c.watch.Keys == b.watch.Keys
      && forall n :: n in b.watch ==>
           c.watch[n] == if n == m && ListOf(c, m) == [] then b.watch[n].(armed := false) else b.watch[n]
  {
    assert Without([], x) == [];
    hide Aging, Distinct, Without;
    OffLists(b, x);
  }

  /** `enroll` gives the item its timeout and takes it off its list; it is not timed until it is
      active. */
  lemma EnrollSets(b: Book, x: Item, msecs: int)
    requires Orderly(b) && x in b.timeout
    ensures var m, c := b.timeout[x], Performed(b, EnrollOp(x, msecs));
      && (forall n :: ListOf(c, n) == if n == m then Without(ListOf(b, n), x) else ListOf(b, n))
      && (forall n :: x !in ListOf(c, n))
      && x in c.ready && c.timeout == b.timeout[x := msecs] && c.start == b.start
  {
    assert Without([], x) == [];
    hide Aging, Distinct, Without;
    EnrolledKeeps(b, x, msecs);
    OffLists(b, x);
    forall n
      ensures x !in ListOf(Enrolled(b, x, msecs), n)
    {
    }
  }

  /** The calls of a handler are made one after the other. */
  lemma {:induction false} CallsInTurn(b: Book, ops: seq<Op>, op: Op)
    requires !FailsIn(b, ops)
    ensures PerformedAll(b, ops + [op]) == Performed(PerformedAll(b, ops), op)
    ensures FailsIn(b, ops + [op]) == Fails(PerformedAll(b, ops), op)
    decreases |ops|
  {
    hide Performed, Fails;
    var all := ops + [op];
    if ops == [] {
      assert all[1..] == [];
    } else {
      assert all[0] == ops[0] && all[1..] == ops[1..] + [op];
      CallsInTurn(Performed(b, ops[0]), ops[1..], op);
    }
  }

  /** A call that throws is the last. */
  lemma {:induction false} ThrowEnds(b: Book, ops: seq<Op>, more: seq<Op>)
    requires FailsIn(b, ops)
    ensures PerformedAll(b, ops + more) == PerformedAll(b, ops) && FailsIn(b, ops + more)
    decreases |ops|
  {
    hide Performed, Fails;
    var all := ops + more;
    assert all[0] == ops[0] && all[1..] == ops[1..] + more;
    if !Fails(b, ops[0]) {
      ThrowEnds(Performed(b, ops[0]), ops[1..], more);
    }
  }

  // When an item was last active.

  ghost function Noted(b: Book, op: Op, x: Item, last: int): int {
    if op == ActiveOp(x) && TimeoutOf(b, x) >= 0 then b.now else last
  }

  ghost function NotedAll(b: Book, ops: seq<Op>, x: Item, last: int): int
    decreases |ops|
  {
    if ops == [] then last
    else if Fails(b, ops[0]) then Noted(b, ops[0], x, last)
    else NotedAll(Performed(b, ops[0]), ops[1..], x, Noted(b, ops[0], x, last))
  }

  ghost function NotedIn(b: Book, handlers: Handlers, fired: seq<Item>, x: Item, last: int): int {
    if fired == [] then last
    else
      var front, y := fired[..|fired| - 1], fired[|fired| - 1];
      NotedAll(Off(After(b, handlers, front), y), Calls(handlers, y), x, NotedIn(b, handlers, front, x, last))
  }

  /** When the latest call of `active` on `x` was made in the first `k` events of a run, or else what
      `x` had as its start. */
  ghost function LastActive(events: seq<Event>, outcomes: seq<Outcome>, history: seq<Book>, x: Item, k: nat): int
    requires k <= |events| == |outcomes| && |history| == |events| + 1
  {
    if k == 0 then StartOf(history[0], x)
    else
      var last, b := LastActive(events, outcomes, history, x, k - 1), history[k - 1];
      match events[k - 1]
      case Later(_) => last
      case Call(op) => Noted(b, op, x, last)
      case Alarm(_, handlers) => NotedIn(b, handlers, outcomes[k - 1].fired, x, last)
  }

  lemma StartNoted(b: Book, op: Op, x: Item)
    requires Orderly(b) && Known(b, op)
    ensures StartOf(Performed(b, op), x) == Noted(b, op, x, StartOf(b, x))
  {
    hide Orderly, Performed;
    match op
    case EnrollOp(y, msecs) => EnrollSets(b, y, msecs);
    case UnenrollOp(y) => UnenrollTakesOff(b, y);
    case ActiveOp(y) => ActiveResets(b, y);
    case Pass(ms) => PassKeepsStarts(b, ms);
  }

  lemma PassKeepsStarts(b: Book, ms: nat)
    ensures Performed(b, Pass(ms)) == b.(now := b.now + ms)
  {
  }

  lemma {:induction false} StartNotedAll(b: Book, ops: seq<Op>, x: Item)
    requires Orderly(b) && AllKnown(b, ops)
    ensures StartOf(PerformedAll(b, ops), x) == NotedAll(b, ops, x, StartOf(b, x))
    decreases |ops|
  {
    hide Orderly, Performed, Fails, Noted;
    if ops != [] {
      PerformedKeeps(b, ops[0]);
      StartNoted(b, ops[0], x);
      if !Fails(b, ops[0]) {
        StartNotedAll(Performed(b, ops[0]), ops[1..], x);
      }
    }
  }

  lemma {:induction false} StartNotedIn(b: Book, handlers: Handlers, fired: seq<Item>, x: Item)
    requires Orderly(b) && Confined(b, handlers)
    ensures StartOf(After(b, handlers, fired), x) == NotedIn(b, handlers, fired, x, StartOf(b, x))
  {
    hide Orderly, Confined, PerformedAll, NotedAll, AllKnown, Calls;
    if fired != [] {
      var front, y := fired[..|fired| - 1], fired[|fired| - 1];
      var c := After(b, handlers, front);
      StartNotedIn(b, handlers, front, x);
      AfterKeeps(b, handlers, front);
      OffLists(c, y);
      CallsKnown(b, handlers, y);
      KnownStill(b, Off(c, y), Calls(handlers, y));
      StartNotedAll(Off(c, y), Calls(handlers, y), x);
    }
  }

  lemma NoneFired(b: Book, handlers: Handlers, x: Item, last: int)
    ensures NotedIn(b, handlers, [], x, last) == last
  {
  }

  /** The start of an item is the time when it was last active. */
  lemma {:induction false} StartIsLastActive(events: seq<Event>, outcomes: seq<Outcome>, history: seq<Book>, x: Item, k: nat)
    requires Ran(events, outcomes, history) && Orderly(history[0]) && AllProper(history[0], events) && k <= |events|
    ensures StartOf(history[k], x) == LastActive(events, outcomes, history, x, k)
  {
    hide Orderly, Performed, NotedIn, Noted, After, Turns, FailsIn, IsDue, Settled, Confined, Lively, Known;
    if k > 0 {
      var b, e, o := history[k - 1], events[k - 1], outcomes[k - 1];
      StartIsLastActive(events, outcomes, history, x, k - 1);
      RunOrderly(events, outcomes, history, k - 1);
      ProperStill(history[0], b, e);
      assert Followed(b, e, o, history[k]);
      match e
      case Later(_) =>
      case Call(op) =>
        StartNoted(b, op, x);
      case Alarm(m, handlers) =>
        NoneFired(b, handlers, x, StartOf(b, x));
        if MayRing(b, m) {
          StartNotedIn(b, handlers, o.fired, x);
          SettledLists(After(b, handlers, o.fired), m, b.now);
        }
    }
  }

  /** In every run, an item with a timeout of 2 ms or more fires only when it has been idle for that
      long, less one millisecond, since it was last active. */
  lemma NeverEarly(events: seq<Event>, outcomes: seq<Outcome>, history: seq<Book>, k: nat, x: Item)
    requires Ran(events, outcomes, history) && Orderly(history[0]) && AllProper(history[0], events)
    requires k < |events| && events[k].Alarm? && events[k].msecs >= 2 && x in outcomes[k].fired
    ensures history[k].now - LastActive(events, outcomes, history, x, k) >= events[k].msecs - 1
  {
    hide Orderly, LastActive, After, Turns, FailsIn, IsDue, Settled, Confined, Lively, Named;
    var b, m, handlers, fired := history[k], events[k].msecs, events[k].handlers, outcomes[k].fired;
    RunOrderly(events, outcomes, history, k);
    ProperStill(history[0], b, events[k]);
    StartIsLastActive(events, outcomes, history, x, k);
    assert Followed(b, events[k], outcomes[k], history[k + 1]);
    var p, gone := AfterSplit(b, m, handlers, fired);
    var i :| 0 <= i < |fired| && fired[i] == x;
  }

  /** And it does fire, in every run in which nothing is stranded and no handler throws: when its
      watcher next may come round after it has been idle for its timeout, by the time of the loop,
      unless a handler names it before its turn. */
  lemma InTime(events: seq<Event>, outcomes: seq<Outcome>, history: seq<Book>, k: nat, x: Item)
    requires Ran(events, outcomes, history) && Steady(history[0]) && AllProper(history[0], events)
    requires forall i :: 0 <= i < |events| ==> Careful(history[i], events[i], outcomes[i])
    requires k < |events| && events[k].Alarm? && events[k].msecs > 0 && x in ListOf(history[k], events[k].msecs)
    requires LastActive(events, outcomes, history, x, k) + events[k].msecs <= history[k].loop
    ensures x in outcomes[k].fired || NamedBefore(history[k], events[k].msecs, events[k].handlers, outcomes[k].fired, x)
  {
    hide Orderly, InStep, LastActive, Followed, Served, GentleTurns, Confined, Lively, NamedBefore;
    var e, o := events[k], outcomes[k];
    RunSteady(events, outcomes, history, k);
    RunOrderly(events, outcomes, history, k);
    ProperStill(history[0], history[k], e);
    StartIsLastActive(events, outcomes, history, x, k);
    Rings(history[k], e.msecs, x);
    assert Careful(history[k], e, o);
    OnTime(history[k], e.msecs, e.handlers, x, o, history[k + 1]);
  }

  lemma Rings(b: Book, m: int, x: Item)
    requires Steady(b) && m > 0 && x in ListOf(b, m) && StartOf(b, x) + m <= b.loop
    ensures MayRing(b, m)
  {
    assert InStep(b, m);
    ListIsDistinct(b, m);
    OrderlyIsSane(b);
    var i :| 0 <= i < |b.rings[m]| && b.rings[m][i] == x;
    assert StartOf(b, b.rings[m][0]) <= StartOf(b, x);
  }
}

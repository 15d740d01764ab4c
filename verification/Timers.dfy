/**
  The code of lib/timers.js: one watcher and one list of items for each timeout value.  Every
  operation is proved to do what `TimerBooks` says, whatever state it finds.

  The native side of the Timer that serves as the sentinel of list m is `watch[m]`.
 */
module Timers {
  import opened LinkedList
  import opened IdleLists
  import opened TimerBooks

  ghost function Timeouts(items: set<Item>): map<Item, int>
    reads items`idleTimeout
  {
    map x | x in items :: x.idleTimeout
  }

  ghost function Starts(items: set<Item>): map<Item, int>
    reads items`idleStart
  {
    map x | x in items :: x.idleStart
  }

  class TimerSystem {
    var lists: Lists
    var watch: map<int, Watch>
    var now: int
    var loop: int
    ghost var rings: Rings
    ghost var heads: set<Item>
    ghost var items: set<Item>
    ghost var ready: set<Item>

    constructor ()
      ensures Shaped() && items == {} && heads == {}
      ensures TheBook() == Book(map[], map[], map[], {}, map[], 0, 0)
    {
      lists, watch, rings, heads, items, ready := map[], map[], map[], {}, {}, {};
      now, loop := 0, 0;
    }

    /** The heap is well formed: the lists are rings that share no item. */
    ghost predicate Shaped()
      reads this, items`idleTimeout, items`next, items`prev, heads`next, heads`prev
    {
      && Shape(lists, rings, heads, items) && watch.Keys == rings.Keys && loop <= now
      && ready <= items && forall x :: x in items ==> (x in ready <==> x.next == x)
    }

    ghost function TheBook(): Book
      reads this, items`idleTimeout, items`idleStart
    {
      Book(rings, Timeouts(items), Starts(items), ready, watch, now, loop)
    }

    /** A well formed heap has every item in one place. */
    lemma ShapedIsSane()
      requires Shaped()
      ensures Sane(TheBook())
    {
      hide Ring;
      forall m | m in rings
        ensures m >= 0 && Distinct(rings[m])
      {
        RingAt(lists, rings, heads, items, m);
        Ends(lists[m], rings[m]);
      }
      SelfLinked(lists, rings, heads, items);
      forall m, x | m in rings && x in rings[m]
        ensures x in items && x.idleTimeout == m && x !in ready
      {
      }
    }

    /** The pointers tell where an item is. */
    lemma Whereabouts(item: Item)
      requires Shaped() && item in items
      ensures item.next == item <==> item in ready
      ensures item.next == null <==> item !in ready && !OnList(TheBook(), item)
      ensures Unlinked(item) || item in ready || OnList(TheBook(), item)
      ensures OnList(TheBook(), item) <==> Carries(rings, item)
    {
      hide Ring;
      Kinds(lists, rings, heads, items, item);
    }

    /** A round of the event loop begins, `ms` later. */
    method Tick(ms: nat)
      requires Shaped()
      modifies this`now, this`loop
      ensures Shaped() && TheBook() == old(TheBook()).(now := old(now) + ms, loop := old(now) + ms)
    {
      hide Shape;
      now := now + ms;
      loop := now;
    }

    /** A new object that may be given a timeout. */
    method Register(item: Item)
      requires Shaped() && item !in items && item !in heads && Unlinked(item)
      modifies this`items
      ensures Shaped() && items == old(items) + {item}
      ensures TheBook() == old(TheBook()).(timeout := old(Timeouts(items))[item := item.idleTimeout],
                                           start := old(Starts(items))[item := item.idleStart])
    {
      hide Ring;
      items := items + {item};
    }

    method StartWatch(m: int, ms: int)
      requires Shaped() && m in watch
      modifies this`watch
      ensures Shaped() && TheBook() == Again(old(TheBook()), m, ms)
    {
      hide Shape;
      if ms > 0 {
        watch := watch[m := Watch(true, loop + ms)];
      }
    }

    method StopWatch(m: int)
      requires Shaped() && m in watch && rings[m] == []
      modifies this`watch
      ensures Shaped() && TheBook() == Idle(old(TheBook()), m)
    {
      hide Shape;
      watch := watch[m := watch[m].(armed := false)];
    }

    /** `L.remove(item)`; the watchers are left alone. */
    method Leave(item: Item)
      requires Shaped() && item in items
      modifies this`rings, this`ready, items`next, items`prev, heads`next, heads`prev
      ensures Shaped() && TheBook() == Off(old(TheBook()), item) && Unlinked(item)
    {
      hide Shape, Ring, Detached;
      Matched(lists, rings, heads, items);
      Detach(item, lists, rings, heads, items);
      rings := Detached(rings, item);
      ready := ready - {item};
      Matched(lists, rings, heads, items);
    }

    method Unenroll(item: Item)
      requires Shaped() && item in items
      modifies this`rings, this`ready, this`watch, items`next, items`prev, heads`next, heads`prev
      ensures Shaped() && TheBook() == Unenrolled(old(TheBook()), item) && Unlinked(item)
    {
      hide Shape, Ring, Off;
      Leave(item);
      Matched(lists, rings, heads, items);
      var m := item.idleTimeout;
      if m in lists {
        var list := lists[m];
        RingAt(lists, rings, heads, items, m);
        var empty := IsEmpty(list, rings[m]);
        if empty {
          StopWatch(m);
        }
      }
    }

    method Enroll(item: Item, msecs: int)
      requires Shaped() && item in items
      modifies this`rings, this`ready, this`watch, items`next, items`prev, heads`next, heads`prev, item`idleTimeout
      ensures Shaped() && TheBook() == Enrolled(old(TheBook()), item, msecs)
    {
      hide Shape, Ring, Unenrolled;
      Whereabouts(item);
      if item.next != null {
        Unenroll(item);
      }
      Whereabouts(item);
      SetTimeout(item, msecs);
    }

    /** The last two lines of `enroll`. */
    method SetTimeout(item: Item, msecs: int)
      requires Shaped() && item in items && Unlinked(item)
      modifies this`ready, item`next, item`prev, item`idleTimeout
      ensures Shaped()
      ensures TheBook() == old(TheBook()).(timeout := old(Timeouts(items))[item := msecs], ready := old(ready) + {item})
    {
      hide Shape, Ring;
      FreeIsUnlinked(lists, rings, heads, items, item);
      Matched(lists, rings, heads, items);
      Reset(item, msecs, lists, rings, heads, items);
      Kinds(lists, rings, heads, items, item);
      ready := ready + {item};
      assert Timeouts(items) == old(Timeouts(items))[item := msecs];
    }

    /** The list for `msecs`, made on first use. */
    method ListFor(msecs: int) returns (list: Item)
      requires Shaped() && msecs >= 0
      modifies this`lists, this`rings, this`heads, this`watch
      ensures Shaped() && TheBook() == Made(old(TheBook()), msecs) && fresh(heads - old(heads))
      ensures msecs in lists && lists[msecs] == list
    {
      hide Shape, Ring;
      Matched(lists, rings, heads, items);
      if msecs in lists {
        list := lists[msecs];
      } else {
        list := new Item();
        Init(list);
        NewList(lists, rings, heads, items, msecs, list);
        lists := lists[msecs := list];
        heads := heads + {list};
        rings := rings[msecs := []];
        watch := watch[msecs := Watch(false, 0)];
        assert Timeouts(items) == old(Timeouts(items)) && Starts(items) == old(Starts(items));
      }
    }

    /** `L.append(list, item)`. */
    method Place(item: Item, m: int)
      requires Shaped() && item in items && item.idleTimeout == m && m in lists
      modifies this`rings, this`ready, items`next, items`prev, heads`next, heads`prev
      ensures Shaped() && TheBook() == Appended(old(TheBook()), item, m)
    {
      hide Shape, Ring, Extended;
      Matched(lists, rings, heads, items);
      Attach(item, m, lists, rings, heads, items);
      rings := Extended(rings, m, item);
      ready := ready - {item};
      Matched(lists, rings, heads, items);
    }

    method Stamp(item: Item)
      requires Shaped() && item in items
      modifies item`idleStart
      ensures Shaped() && TheBook() == Stamped(old(TheBook()), item)
    {
      hide Shape;
      item.idleStart := now;
      assert Starts(items) == old(Starts(items))[item := now];
    }

    method Insert(item: Item, msecs: int)
      requires Shaped() && item in items && item.idleTimeout == msecs
      modifies this`lists, this`rings, this`heads, this`watch, this`ready
      modifies items`next, items`prev, heads`next, heads`prev, item`idleStart, item`idleTimeout
      ensures Shaped() && TheBook() == Inserted(old(TheBook()), item, msecs) && fresh(heads - old(heads))
    {
      hide Shape, Ring, Made, Again, Appended;
      Stamp(item);
      item.idleTimeout := msecs;
      assert Timeouts(items) == old(Timeouts(items)) == old(Timeouts(items))[item := msecs];
      if msecs < 0 {
        return;
      }
      var list := ListFor(msecs);
      assert fresh(heads - old(heads));
      ghost var l := TheBook();
      Matched(lists, rings, heads, items);
      RingAt(lists, rings, heads, items, msecs);
      var empty := IsEmpty(list, rings[msecs]);
      if empty {
        StartWatch(msecs, msecs);
      }
      assert TheBook() == if l.rings[msecs] == [] then Again(l, msecs, msecs) else l;
      Place(item, msecs);
    }

    /** Resets the timeout of `item`.  An item that has been taken off its list, because it fired or
        was unenrolled, is put back without its watcher being restarted; and when that list was
        never made the call throws. */
    method Active(item: Item) returns (threw: bool)
      requires Shaped() && item in items
      modifies this`lists, this`rings, this`heads, this`watch, this`ready
      modifies items`next, items`prev, heads`next, heads`prev, item`idleStart, item`idleTimeout
      ensures Shaped() && fresh(heads - old(heads))
      ensures TheBook() == Activated(old(TheBook()), item) && threw == Throws(old(TheBook()), item)
    {
      hide Shape, Ring, Inserted, Appended;
      Matched(lists, rings, heads, items);
      var msecs := item.idleTimeout;
      if msecs >= 0 {
        if item.next == item {
          Insert(item, msecs);
        } else {
          Stamp(item);
          if msecs !in lists {
            NoSuchList(TheBook(), item, msecs);
            return true;
          }
          Place(item, msecs);
        }
      }
      return false;
    }

    /** One call of a handler. */
    method Perform(op: Op) returns (threw: bool)
      requires Shaped() && (op.Pass? || op.item in items)
      modifies this`lists, this`rings, this`heads, this`watch, this`ready, this`now
      modifies items`next, items`prev, heads`next, heads`prev, items`idleStart, items`idleTimeout
      ensures Shaped() && fresh(heads - old(heads))
      ensures TheBook() == Performed(old(TheBook()), op) && threw == Fails(old(TheBook()), op)
    {
      hide Shape, Ring, Activated, Enrolled, Unenrolled, Throws;
      threw := false;
      match op
      case UnenrollOp(item) =>
        Unenroll(item);
      case EnrollOp(item, msecs) =>
        Enroll(item, msecs);
      case ActiveOp(item) =>
        threw := Active(item);
      case Pass(ms) =>
        now := now + ms;
    }

    /** The calls of one handler, in order, up to one that throws. */
    method RunHandler(ops: seq<Op>) returns (threw: bool)
      requires Shaped() && forall i :: 0 <= i < |ops| ==> ops[i].Pass? || ops[i].item in items
      modifies this`lists, this`rings, this`heads, this`watch, this`ready, this`now
      modifies items`next, items`prev, heads`next, heads`prev, items`idleStart, items`idleTimeout
      ensures Shaped() && fresh(heads - old(heads))
      ensures TheBook() == PerformedAll(old(TheBook()), ops) && threw == FailsIn(old(TheBook()), ops)
    {
      hide Shape, Ring, Performed, Fails;
      assert ops[0..] == ops;
      for k := 0 to |ops|
        invariant Shaped() && fresh(heads - old(heads))
        invariant PerformedAll(TheBook(), ops[k..]) == PerformedAll(old(TheBook()), ops)
        invariant FailsIn(TheBook(), ops[k..]) == FailsIn(old(TheBook()), ops)
      {
        assert ops[k..][0] == ops[k] && ops[k..][1..] == ops[k + 1..];
        threw := Perform(ops[k]);
        if threw {
          return;
        }
      }
      return false;
    }

    /** The most idle item leaves list m, and then its handler runs. */
    method FireFirst(m: int, handlers: Handlers) returns (first: Item, threw: bool)
      requires Shaped() && m in lists && rings[m] != [] && Confined(TheBook(), handlers)
      modifies this`lists, this`rings, this`heads, this`watch, this`ready, this`now
      modifies items`next, items`prev, heads`next, heads`prev, items`idleStart, items`idleTimeout
      ensures Shaped() && fresh(heads - old(heads)) && first == old(rings[m])[0]
      ensures TheBook() == Fired(old(TheBook()), handlers, first)
      ensures threw == FailsIn(Off(old(TheBook()), first), Calls(handlers, first))
    {
      hide Shape, Ring, Off, PerformedAll, FailsIn;
      Matched(lists, rings, heads, items);
      RingAt(lists, rings, heads, items, m);
      FirstOn(lists, rings, heads, items, m);
      first := Peek(lists[m], rings[m]);
      CallsKnown(TheBook(), handlers, first);
      Leave(first);
      NothingPerformed(TheBook());
      threw := false;
      if first in handlers {
        threw := RunHandler(handlers[first]);
      }
    }

    /** One turn of the loop of the callback, which looked at its clock at the time `since`; nothing
        is fired in the last one. */
    method Serve(m: int, handlers: Handlers, since: int) returns (fired: Item?, threw: bool)
      requires Shaped() && m in lists && Confined(TheBook(), handlers)
      modifies this`lists, this`rings, this`heads, this`watch, this`ready, this`now
      modifies items`next, items`prev, heads`next, heads`prev, items`idleStart, items`idleTimeout
      ensures Shaped() && fresh(heads - old(heads))
      ensures fired == null ==>
                !threw && !IsDue(old(TheBook()), m, since) && TheBook() == Settled(old(TheBook()), m, since)
      ensures fired != null ==>
        && Turn(old(TheBook()), m, handlers, fired, since, true)
        && TheBook() == Fired(old(TheBook()), handlers, fired)
        && threw == FailsIn(Off(old(TheBook()), fired), Calls(handlers, fired))
    {
      hide Shape, Ring, Confined, Turn, Fired, Off, Settled, FailsIn, IsDue, Idle, Again;
      Matched(lists, rings, heads, items);
      Looked(TheBook(), m, handlers, since);
      RingAt(lists, rings, heads, items, m);
      var first := Peek(lists[m], rings[m]);
      if first == null {
        StopWatch(m);
        return null, false;
      }
      FirstOn(lists, rings, heads, items, m);
      var diff := since - first.idleStart;
      if diff + 1 < m {
        StartWatch(m, m - diff);
        return null, false;
      }
      fired, threw := FireFirst(m, handlers);
    }

    /** The callback of the watcher of list m. */
    method Callback(m: int, handlers: Handlers) returns (fired: seq<Item>, threw: bool)
      requires Shaped() && Orderly(TheBook()) && m in lists && Confined(TheBook(), handlers) && Lively(m, handlers)
      modifies this`lists, this`rings, this`heads, this`watch, this`ready, this`now
      modifies items`next, items`prev, heads`next, heads`prev, items`idleStart, items`idleTimeout
      ensures Shaped() && fresh(heads - old(heads))
      ensures Served(old(TheBook()), m, handlers, fired, threw, TheBook())
    {
      hide Shape, Ring, Orderly, Confined, Lively, After, TurnsOn, Turns, Turn, Fired, Off, Settled, FailsIn, Served, IsDue, DueItems, Lag;
      ghost var b := TheBook();
      var since := now;
      fired, threw := [], false;
      NoTurns(b, m, handlers, since);
      Matched(lists, rings, heads, items);
      AfterKeeps(b, handlers, fired);
      while true
        invariant Shaped() && fresh(heads - old(heads)) && m in rings
        invariant Orderly(TheBook()) && TheBook().timeout.Keys == b.timeout.Keys && since <= now
        invariant TheBook() == After(b, handlers, fired) && TurnsOn(b, m, handlers, fired, since)
        decreases Lag(TheBook(), m, since), DueItems(TheBook(), m, since)
      {
        ghost var c := TheBook();
        Matched(lists, rings, heads, items);
        ConfinedStill(b, c, handlers);
        var first;
        first, threw := Serve(m, handlers, since);
        if first == null {
          CallbackEnds(b, m, handlers, fired);
          return;
        }
        OneMore(b, m, handlers, fired, first, since);
        AfterKeeps(b, handlers, fired + [first]);
        if threw {
          CallbackThrows(b, m, handlers, fired, first);
          return fired + [first], true;
        }
        Progresses(c, m, handlers, first, since);
        fired := fired + [first];
      }
    }

    /** Any run.  What follows from that is the matter of `RunOrderly`, `RunSteady` and `OnTime`. */
    method Run(events: seq<Event>) returns (outcomes: seq<Outcome>, ghost history: seq<Book>)
      requires Shaped() && Orderly(TheBook()) && AllProper(TheBook(), events)
      modifies this`lists, this`rings, this`heads, this`watch, this`ready, this`now, this`loop
      modifies items`next, items`prev, heads`next, heads`prev, items`idleStart, items`idleTimeout
      ensures Shaped() && Ran(events, outcomes, history)
      ensures history[0] == old(TheBook()) && history[|events|] == TheBook()
    {
      hide Shape, Ring, Orderly, Proper, Followed;
      ghost var b := TheBook();
      outcomes, history := [], [b];
      for k := 0 to |events|
        invariant Shaped() && fresh(heads - old(heads))
        invariant Orderly(TheBook()) && TheBook().timeout.Keys == b.timeout.Keys
        invariant |outcomes| == k && |history| == k + 1 && history[0] == b && history[k] == TheBook()
        invariant forall i :: 0 <= i < k ==> Followed(history[i], events[i], outcomes[i], history[i + 1])
      {
        ghost var c := TheBook();
        ProperStill(b, c, events[k]);
        var o := Follow(events[k]);
        StepKeeps(c, events[k], o, TheBook());
        outcomes, history := outcomes + [o], history + [TheBook()];
      }
    }

    method Follow(e: Event) returns (o: Outcome)
      requires Shaped() && Orderly(TheBook()) && Proper(TheBook(), e)
      modifies this`lists, this`rings, this`heads, this`watch, this`ready, this`now, this`loop
      modifies items`next, items`prev, heads`next, heads`prev, items`idleStart, items`idleTimeout
      ensures Shaped() && fresh(heads - old(heads))
      ensures Followed(old(TheBook()), e, o, TheBook())
    {
      hide Shape, Ring, Orderly, Confined, Lively, Served, Performed, Fails;
      o := Outcome([], false);
      match e
      case Later(ms) =>
        Tick(ms);
      case Call(op) =>
        var threw := Perform(op);
        o := Outcome([], threw);
      case Alarm(msecs, handlers) =>
        if msecs in watch && watch[msecs].armed && watch[msecs].expiry <= loop {
          Matched(lists, rings, heads, items);
          var fired, threw := Callback(msecs, handlers);
          o := Outcome(fired, threw);
        }
    }
  }
}

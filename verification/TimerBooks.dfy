/**
  What lib/timers.js does, as functions of a value: the lists, the items, the watchers and the
  clocks.  `Timers` has the code and proves that it does just this; the theorems are here.

  There are two clocks.  `now` is what `new Date()` says and may move while a handler runs.  `loop`
  is the time that the event loop goes by, which it takes note of once in each round: a watcher
  that is started runs out so many milliseconds after that.
 */
module TimerBooks {
  import opened LinkedList
  import opened IdleLists

  /** What an `_onTimeout` handler may do, as far as timers go; `Pass` lets time go by. */
  datatype Op =
    | EnrollOp(item: Item, msecs: int)
    | ActiveOp(item: Item)
    | UnenrollOp(item: Item)
    | Pass(ms: nat)

  /** What the `_onTimeout` of each item does; an item without a handler is missing. */
  type Handlers = map<Item, seq<Op>>

  /** A native timer: whether it runs, and when it comes round. */
  datatype Watch = Watch(armed: bool, expiry: int)

  /** `ready` are the items that are linked to themselves. */
  datatype Book = Book(rings: Rings, timeout: map<Item, int>, start: map<Item, int>, ready: set<Item>,
                       watch: map<int, Watch>, now: int, loop: int)

  ghost function TimeoutOf(b: Book, x: Item): int {
    if x in b.timeout then b.timeout[x] else -1
  }

  ghost function StartOf(b: Book, x: Item): int {
    if x in b.start then b.start[x] else 0
  }

  ghost function ListOf(b: Book, m: int): seq<Item> {
    if m in b.rings then b.rings[m] else []
  }

  ghost predicate OnList(b: Book, x: Item) {
    x in ListOf(b, TimeoutOf(b, x))
  }

  // The operations.

  /** `L.remove(x)`. */
  ghost function Off(b: Book, x: Item): Book {
    b.(rings := Detached(b.rings, x), ready := b.ready - {x})
  }

  /** Stop the watcher of list m if that is empty. */
  ghost function Idle(b: Book, m: int): Book {
    if m in b.rings && m in b.watch && b.rings[m] == [] then b.(watch := b.watch[m := b.watch[m].(armed := false)])
    else b
  }

  ghost function Unenrolled(b: Book, x: Item): Book {
    Idle(Off(b, x), TimeoutOf(b, x))
  }

  ghost function Enrolled(b: Book, x: Item, msecs: int): Book {
    var c := if x in b.ready || OnList(b, x) then Unenrolled(b, x) else b;
    c.(timeout := c.timeout[x := msecs], ready := c.ready + {x})
  }

  /** `list.again(ms)`, which has no effect on the period unless it is positive. */
  ghost function Again(b: Book, m: int, ms: int): Book {
    if ms > 0 then b.(watch := b.watch[m := Watch(true, b.loop + ms)]) else b
  }

  ghost function Made(b: Book, m: int): Book {
    if m in b.rings then b else b.(rings := b.rings[m := []], watch := b.watch[m := Watch(false, 0)])
  }

  ghost function Stamped(b: Book, x: Item): Book {
    b.(start := b.start[x := b.now])
  }

  ghost function Appended(b: Book, x: Item, m: int): Book {
    if m in b.rings then b.(rings := Extended(b.rings, m, x), ready := b.ready - {x}) else b
  }

  ghost function Inserted(b: Book, x: Item, msecs: int): Book {
    var s := Stamped(b, x).(timeout := b.timeout[x := msecs]);
    if msecs < 0 then s
    else
      var l := Made(s, msecs);
      Appended(if l.rings[msecs] == [] then Again(l, msecs, msecs) else l, x, msecs)
  }

  /** `active` has an item that was taken off a list which has never been made. */
  ghost predicate Throws(b: Book, x: Item) {
    TimeoutOf(b, x) >= 0 && x !in b.ready && TimeoutOf(b, x) !in b.rings
  }

  ghost function Activated(b: Book, x: Item): Book {
    var m := TimeoutOf(b, x);
    if m < 0 then b
    else if x in b.ready then Inserted(b, x, m)
    else Appended(Stamped(b, x), x, m)
  }

  ghost function Performed(b: Book, op: Op): Book {
    match op
    case EnrollOp(x, msecs) => Enrolled(b, x, msecs)
    case ActiveOp(x) => Activated(b, x)
    case UnenrollOp(x) => Unenrolled(b, x)
    case Pass(ms) => b.(now := b.now + ms)
  }

  ghost predicate Fails(b: Book, op: Op) {
    op.ActiveOp? && Throws(b, op.item)
  }

  /** The calls of one handler; one that throws is the last. */
  ghost function PerformedAll(b: Book, ops: seq<Op>): Book
    decreases |ops|
  {
    if ops == [] then b
    else if Fails(b, ops[0]) then Performed(b, ops[0])
    else PerformedAll(Performed(b, ops[0]), ops[1..])
  }

  ghost predicate FailsIn(b: Book, ops: seq<Op>)
    decreases |ops|
  {
    ops != [] && (Fails(b, ops[0]) || FailsIn(Performed(b, ops[0]), ops[1..]))
  }

  // The callback of list m, in the terms of the items that it fires.

  ghost function Calls(handlers: Handlers, x: Item): seq<Op> {
    if x in handlers then handlers[x] else []
  }

  ghost predicate Expired(start: int, now: int, m: int) {
    now - start + 1 >= m
  }

  /** The most idle item of list m is due at the time `since`, when the callback looked at its clock. */
  ghost predicate IsDue(b: Book, m: int, since: int) {
    ListOf(b, m) != [] && Expired(StartOf(b, ListOf(b, m)[0]), since, m)
  }

  /** One turn of the loop. */
  ghost function Fired(b: Book, handlers: Handlers, x: Item): Book {
    PerformedAll(Off(b, x), Calls(handlers, x))
  }

  ghost function After(b: Book, handlers: Handlers, fired: seq<Item>): Book {
    if fired == [] then b else Fired(After(b, handlers, fired[..|fired| - 1]), handlers, fired[|fired| - 1])
  }

  /** The loop may take these turns: each item is due and the most idle one when it fires, and none
      but the last has a handler that throws. */
  ghost predicate Turns(b: Book, m: int, handlers: Handlers, fired: seq<Item>, since: int) {
    forall i :: 0 <= i < |fired| ==> Turn(After(b, handlers, fired[..i]), m, handlers, fired[i], since, i == |fired| - 1)
  }

  ghost predicate Turn(b: Book, m: int, handlers: Handlers, x: Item, since: int, last: bool) {
    && IsDue(b, m, since) && x == ListOf(b, m)[0]
    && (!last ==> !FailsIn(Off(b, x), Calls(handlers, x)))
  }

  /** The end of the callback: wait for the most idle item, or rest. */
  ghost function Settled(b: Book, m: int, since: int): Book {
    if ListOf(b, m) == [] then Idle(b, m) else Again(b, m, m - (since - StartOf(b, ListOf(b, m)[0])))
  }

  /** All of the callback: as many turns as there are due items, or up to a handler that throws. */
  ghost predicate Served(b: Book, m: int, handlers: Handlers, fired: seq<Item>, threw: bool, after: Book) {
    var n := |fired|;
    && Turns(b, m, handlers, fired, b.now)
    && (threw <==> n > 0 && FailsIn(Off(After(b, handlers, fired[..n - 1]), fired[n - 1]), Calls(handlers, fired[n - 1])))
    && (if threw then after == After(b, handlers, fired)
        else !IsDue(After(b, handlers, fired), m, b.now) && after == Settled(After(b, handlers, fired), m, b.now))
  }

  // What every state has.

  ghost predicate OnlyOnce(rings: Rings, timeout: map<Item, int>, ready: set<Item>) {
    && (forall m :: m in rings ==> m >= 0 && Distinct(rings[m]))
    && (forall m, x :: m in rings && x in rings[m] ==> x in timeout && timeout[x] == m && x !in ready)
  }

  ghost predicate Sane(b: Book) {
    && b.watch.Keys == b.rings.Keys && b.timeout.Keys == b.start.Keys && b.ready <= b.timeout.Keys
    && b.loop <= b.now && OnlyOnce(b.rings, b.timeout, b.ready)
  }

  /** The items of a list were last active in the order in which they stand, and not in the future. */
  ghost predicate Aging(s: seq<Item>, start: map<Item, int>, now: int) {
    && (forall i :: 0 <= i < |s| ==> s[i] in start && start[s[i]] <= now)
    && (forall i, j :: 0 <= i < j < |s| ==> start[s[i]] <= start[s[j]])
  }

  ghost predicate Orderly(b: Book) {
    Sane(b) && forall m :: m in b.rings ==> Aging(b.rings[m], b.start, b.now)
  }

  /** The watcher of a list runs exactly while there is something on it, and comes round no later
      than the most idle item is due; but with timeout 0 it never runs. */
  ghost predicate InStep(b: Book, m: int) {
    && m in b.rings && m in b.watch
    && (b.watch[m].armed <==> b.rings[m] != [] && m > 0)
    && (b.rings[m] != [] && m > 0 ==> b.watch[m].expiry <= StartOf(b, b.rings[m][0]) + m)
  }

  ghost predicate InStepBut(b: Book, but: int) {
    forall n :: n in b.rings && n != but ==> InStep(b, n)
  }

  ghost predicate Steady(b: Book) {
    Orderly(b) && forall m :: m in b.rings ==> InStep(b, m)
  }

  /** `active` would put the item on an empty list without starting its watcher. */
  ghost predicate Strands(b: Book, x: Item) {
    && x !in b.ready && !OnList(b, x) && TimeoutOf(b, x) > 0
    && TimeoutOf(b, x) in b.rings && b.rings[TimeoutOf(b, x)] == []
  }

  // Lists without an item, or with it at the end.

  lemma {:induction false} WithoutKeeps(s: seq<Item>, x: Item, start: map<Item, int>, now: int)
    requires Distinct(s)
    ensures Distinct(Without(s, x)) && x !in Without(s, x)
    ensures Aging(s, start, now) ==> Aging(Without(s, x), start, now)
    ensures forall y :: y in Without(s, x) <==> y in s && y != x
    ensures Without(s, x) != [] && s[0] in start && Aging(s, start, now) ==> start[s[0]] <= start[Without(s, x)[0]]
  {
    WithoutMembers(s, x);
    if x in s {
      var k := IndexOf(s, x);
      WithoutAt(s, k);
    } else {
      WithoutAbsent(s, x);
    }
  }

  lemma AgingLater(s: seq<Item>, x: Item, start: map<Item, int>, now: int)
    requires Aging(s, start, now) && x !in s
    ensures Aging(s + [x], start[x := now], now)
  {
  }

  lemma AgingElsewhere(s: seq<Item>, x: Item, start: map<Item, int>, t: int, now: int)
    requires Aging(s, start, now) && x !in s
    ensures Aging(s, start[x := t], now)
  {
  }

  /** Taking `x` off changes its own list only. */
  lemma OffLists(b: Book, x: Item)
    requires Orderly(b)
    ensures Orderly(Off(b, x)) && !OnList(Off(b, x), x)
    ensures forall n :: n in b.rings ==>
              && Off(b, x).rings[n] == Without(b.rings[n], x) && x !in Off(b, x).rings[n]
              && (n != TimeoutOf(b, x) ==> Off(b, x).rings[n] == b.rings[n])
    ensures forall n, y :: n in b.rings && y in Off(b, x).rings[n] ==> y in b.rings[n]
  {
    hide Aging, Distinct;
    forall n | n in b.rings
      ensures Off(b, x).rings[n] == Without(b.rings[n], x) && x !in Off(b, x).rings[n]
      ensures n != TimeoutOf(b, x) ==> Off(b, x).rings[n] == b.rings[n]
      ensures Distinct(Off(b, x).rings[n]) && Aging(Off(b, x).rings[n], b.start, b.now)
      ensures forall y :: y in Off(b, x).rings[n] ==> y in b.rings[n] && y != x
    {
      DetachedAt(b.rings, x, n);
      WithoutKeeps(b.rings[n], x, b.start, b.now);
      if n != TimeoutOf(b, x) {
        WithoutAbsent(b.rings[n], x);
      }
    }
  }

  /** An item that is active moves to the end of its list. */
  lemma PutLast(b: Book, x: Item)
    requires Orderly(b) && x in b.timeout && b.timeout[x] in b.rings
    ensures var m, c := b.timeout[x], Appended(Stamped(b, x), x, b.timeout[x]);
      && Orderly(c) && c.rings.Keys == b.rings.Keys
      && c.rings[m] == Without(b.rings[m], x) + [x]
      && forall n :: n in b.rings && n != m ==> c.rings[n] == b.rings[n]
  {
    hide Aging, Distinct;
    var m := b.timeout[x];
    var c := Appended(Stamped(b, x), x, m);
    OffLists(b, x);
    forall n | n in b.rings
      ensures Distinct(c.rings[n]) && Aging(c.rings[n], c.start, c.now)
      ensures n != m ==> c.rings[n] == b.rings[n]
      ensures forall y :: y in c.rings[n] ==> y in b.rings[n] || (y == x && n == m)
    {
      var s := Off(b, x).rings[n];
      if n == m {
        AgingLater(s, x, b.start, b.now);
        DistinctLater(s, x);
      } else {
        AgingElsewhere(s, x, b.start, b.now, b.now);
      }
    }
  }

  lemma DistinctLater(s: seq<Item>, x: Item)
    requires Distinct(s) && x !in s
    ensures Distinct(s + [x])
  {
  }

  /** The list for `m`, with its watcher running if nothing was on it. */
  ghost function Opened(b: Book, m: int): Book {
    var l := Made(b, m);
    if l.rings[m] == [] then Again(l, m, m) else l
  }

  lemma InsertedIs(b: Book, x: Item, m: int)
    requires m >= 0 && x in b.timeout && b.timeout[x] == m
    ensures Inserted(b, x, m) == Appended(Stamped(Opened(b, m), x), x, m)
  {
    assert b.timeout[x := m] == b.timeout;
    StampsLater(b, x, m);
    hide Appended, Again, Made;
  }

  lemma StampsLater(b: Book, x: Item, m: int)
    ensures Made(Stamped(b, x), m) == Stamped(Made(b, m), x)
    ensures forall l :: Again(Stamped(l, x), m, m) == Stamped(Again(l, m, m), x)
  {
  }

  lemma OpenedKeeps(b: Book, m: int)
    requires Orderly(b) && m >= 0
    ensures var c := Opened(b, m);
      && Orderly(c) && c.rings.Keys == b.rings.Keys + {m}
      && (forall n :: n in b.rings ==> c.rings[n] == b.rings[n]) && ListOf(c, m) == ListOf(b, m)
      && (forall n :: n in b.rings && n != m ==> c.watch[n] == b.watch[n])
      && c == b.(rings := c.rings, watch := c.watch)
      && forall n :: ListOf(c, n) == ListOf(b, n)
  {
    hide Aging;
    assert Aging([], b.start, b.now) by {
      AgingNothing(b.start, b.now);
    }
  }

  lemma AgingNothing(start: map<Item, int>, now: int)
    ensures Aging([], start, now) && Distinct([])
  {
  }

  lemma AgingAsTimePasses(b: Book, ms: nat)
    requires Orderly(b)
    ensures Orderly(b.(now := b.now + ms))
  {
    hide Distinct;
    assert forall s :: Aging(s, b.start, b.now) ==> Aging(s, b.start, b.now + ms);
  }

  ghost predicate Known(b: Book, op: Op) {
    op.Pass? || op.item in b.timeout
  }

  /** What one call may do to a list. */
  ghost predicate Rearranged(s: seq<Item>, t: seq<Item>, op: Op, start: map<Item, int>, later: map<Item, int>, now: int) {
    if op.Pass? then t == s && later == start
    else
      && op.item in later
      && start.Keys == later.Keys && (forall y :: y in start && y != op.item ==> later[y] == start[y])
      && (|| (t == s && (op.item in s ==> later == start))
          || t == Without(s, op.item)
          || (t == Without(s, op.item) + [op.item] && later[op.item] == now))
  }

  lemma EnrolledKeeps(b: Book, x: Item, msecs: int)
    requires Orderly(b) && x in b.timeout
    ensures var c := Enrolled(b, x, msecs);
      && Orderly(c) && c.rings == Off(b, x).rings && x in c.ready && c.start == b.start
  {
    hide Aging, Distinct;
    OffLists(b, x);
    if !(x in b.ready || OnList(b, x)) {
      OffNothing(b, x);
    }
  }

  lemma OffNothing(b: Book, x: Item)
    requires Orderly(b) && !OnList(b, x)
    ensures Off(b, x).rings == b.rings
  {
    hide Aging, Distinct;
    OffLists(b, x);
    if TimeoutOf(b, x) in b.rings {
      WithoutAbsent(b.rings[TimeoutOf(b, x)], x);
    }
    hide Orderly;
    forall n | n in b.rings
      ensures Off(b, x).rings[n] == b.rings[n]
    {
    }
    assert Off(b, x).rings == b.rings;
  }

  /** What a call that has to do with `op.item` leaves of a book. */
  ghost predicate Kept(b: Book, c: Book, op: Op) {
    && Orderly(c) && c.timeout.Keys == b.timeout.Keys && c.now >= b.now && c.loop == b.loop
    && b.rings.Keys <= c.rings.Keys
    && forall n :: Rearranged(ListOf(b, n), ListOf(c, n), op, b.start, c.start, b.now)
  }

  lemma PutLastKeeps(b: Book, x: Item)
    requires Orderly(b) && x in b.timeout && b.timeout[x] in b.rings
    ensures Kept(b, Appended(Stamped(b, x), x, b.timeout[x]), ActiveOp(x))
  {
    PutLast(b, x);
    hide Orderly, Without, Detached;
  }

  lemma ActivatedKeeps(b: Book, x: Item)
    requires Orderly(b) && x in b.timeout
    ensures Kept(b, Activated(b, x), ActiveOp(x))
  {
    hide Aging, Distinct, Without, Detached, Extended, Appended;
    var m := b.timeout[x];
    if m < 0 {
    } else if x in b.ready {
      OpenedKeeps(b, m);
      PutLastKeeps(Opened(b, m), x);
      InsertedIs(b, x, m);
      hide Orderly, Opened, Inserted, Rearranged;
    } else if m in b.rings {
      PutLastKeeps(b, x);
      hide Orderly;
    } else {
      NoSuchList(Stamped(b, x), x, m);
      StampedOff(b, x);
      hide Orderly;
    }
  }

  /** One call keeps every list in order, whoever makes it. */
  lemma PerformedKeeps(b: Book, op: Op)
    requires Orderly(b) && Known(b, op)
    ensures var c := Performed(b, op);
      && Orderly(c) && c.timeout.Keys == b.timeout.Keys && c.now >= b.now && c.loop == b.loop
      && b.rings.Keys <= c.rings.Keys
      && forall n :: Rearranged(ListOf(b, n), ListOf(c, n), op, b.start, c.start, b.now)
  {
    hide Aging, Distinct, Without, Detached, Extended, Activated;
    match op
    case EnrollOp(x, msecs) =>
      EnrolledKeeps(b, x, msecs);
      OffLists(b, x);
    case UnenrollOp(x) =>
      OffLists(b, x);
    case Pass(ms) =>
      AgingAsTimePasses(b, ms);
    case ActiveOp(x) =>
      ActivatedKeeps(b, x);
  }

  lemma StampedOff(b: Book, x: Item)
    requires Orderly(b) && x in b.timeout && b.timeout[x] !in b.rings
    ensures Orderly(Stamped(b, x)) && forall n :: n in b.rings ==> x !in b.rings[n]
  {
    hide Aging, Distinct;
    forall n | n in b.rings
      ensures Aging(b.rings[n], Stamped(b, x).start, b.now)
    {
      AgingElsewhere(b.rings[n], x, b.start, b.now, b.now);
    }
  }

  // What happens to a list in the course of a callback.

  /** `s` without the items in `gone`. */
  ghost function Others(s: seq<Item>, gone: set<Item>): seq<Item> {
    if s == [] then []
    else if s[0] in gone then Others(s[1..], gone)
    else [s[0]] + Others(s[1..], gone)
  }

  lemma {:induction false} OthersNone(s: seq<Item>)
    ensures Others(s, {}) == s
  {
    if s != [] {
      OthersNone(s[1..]);
    }
  }

  lemma {:induction false} OthersMembers(s: seq<Item>, gone: set<Item>)
    ensures forall x :: x in Others(s, gone) <==> x in s && x !in gone
    ensures Distinct(s) ==> Distinct(Others(s, gone))
  {
    if s != [] {
      OthersMembers(s[1..], gone);
      assert Distinct(s) ==> s[0] !in s[1..] && Distinct(s[1..]);
    }
  }

  lemma {:induction false} OthersAging(s: seq<Item>, gone: set<Item>, start: map<Item, int>, now: int)
    requires Aging(s, start, now)
    ensures Aging(Others(s, gone), start, now)
  {
    if s != [] {
      assert Aging(s[1..], start, now);
      OthersAging(s[1..], gone, start, now);
      OthersMembers(s[1..], gone);
      var r := Others(s[1..], gone);
      forall i | 0 <= i < |r|
        ensures start[s[0]] <= start[r[i]]
      {
        assert r[i] in r && r[i] in s[1..];
        var j :| 0 <= j < |s[1..]| && s[1..][j] == r[i];
        assert s[j + 1] == r[i];
      }
    }
  }

  lemma {:induction false} OthersConcat(s: seq<Item>, t: seq<Item>, gone: set<Item>)
    ensures Others(s + t, gone) == Others(s, gone) + Others(t, gone)
  {
    if s == [] {
      assert s + t == t;
    } else {
      assert (s + t)[1..] == s[1..] + t;
      OthersConcat(s[1..], t, gone);
    }
  }

  /** Taking one more out. */
  lemma {:induction false} OthersFurther(s: seq<Item>, gone: set<Item>, x: Item)
    ensures Without(Others(s, gone), x) == Others(s, gone + {x})
    ensures x in gone ==> Others(Without(s, x), gone) == Others(s, gone)
  {
    if s != [] {
      OthersFurther(s[1..], gone, x);
    }
  }

  lemma {:induction false} WithoutConcat(s: seq<Item>, t: seq<Item>, x: Item)
    ensures Without(s + t, x) == Without(s, x) + Without(t, x)
  {
    if s == [] {
      assert s + t == t;
    } else {
      assert (s + t)[1..] == s[1..] + t;
      WithoutConcat(s[1..], t, x);
    }
  }

  /** List `s` begins with `p`, whose items have not been active since the callback looked at its
      clock; what follows has been. */
  ghost predicate Split(s: seq<Item>, start: map<Item, int>, p: seq<Item>, was: map<Item, int>, since: int) {
    && |p| <= |s| && s[..|p|] == p
    && (forall i :: 0 <= i < |p| ==> p[i] in start && p[i] in was && start[p[i]] == was[p[i]])
    && (forall i :: |p| <= i < |s| ==> s[i] in start && start[s[i]] >= since)
  }

  lemma SplitWithout(s: seq<Item>, start: map<Item, int>, p: seq<Item>, was: map<Item, int>, since: int, x: Item, later: map<Item, int>)
    requires Split(s, start, p, was, since) && start.Keys == later.Keys
    requires forall y :: y in start && y != x ==> later[y] == start[y]
    ensures Split(Without(s, x), later, Without(p, x), was, since)
  {
    var q := s[|p|..];
    assert s == p + q;
    WithoutConcat(p, q, x);
    WithoutMembers(p, x);
    WithoutMembers(q, x);
    var t := Without(s, x);
    forall i | |Without(p, x)| <= i < |t|
      ensures t[i] in later && later[t[i]] >= since
    {
      assert t[i] == Without(q, x)[i - |Without(p, x)|];
      assert t[i] in q && t[i] != x;
      var j :| 0 <= j < |q| && q[j] == t[i];
      assert s[|p| + j] == t[i];
    }
    forall i | 0 <= i < |Without(p, x)|
      ensures var y := Without(p, x)[i]; y in later && y in was && later[y] == was[y]
    {
      assert Without(p, x)[i] in p && Without(p, x)[i] != x;
    }
  }

  /** One call of a handler only takes items out of the part that waits, and those that it names. */
  lemma SplitFurther(s: seq<Item>, t: seq<Item>, op: Op, start: map<Item, int>, later: map<Item, int>, now: int,
                     p: seq<Item>, was: map<Item, int>, since: int)
    requires Rearranged(s, t, op, start, later, now) && now >= since && Split(s, start, p, was, since)
    ensures Split(t, later, p, was, since) || (!op.Pass? && Split(t, later, Without(p, op.item), was, since))
  {
    if !op.Pass? {
      var x := op.item;
      if t == s && (x in s ==> later == start) {
        assert forall i :: 0 <= i < |s| ==> s[i] in s;
        assert forall i :: 0 <= i < |p| ==> p[i] == s[i];
      } else {
        SplitWithout(s, start, p, was, since, x, later);
      }
    }
  }

  /** The items that the calls name. */
  ghost function Mentioned(ops: seq<Op>): set<Item> {
    set i | 0 <= i < |ops| && !ops[i].Pass? :: ops[i].item
  }

  ghost predicate AllKnown(b: Book, ops: seq<Op>) {
    forall i :: 0 <= i < |ops| ==> Known(b, ops[i])
  }

  lemma MentionedFirst(ops: seq<Op>)
    requires ops != []
    ensures Mentioned(ops) == (if ops[0].Pass? then {} else {ops[0].item}) + Mentioned(ops[1..])
  {
    assert ops == [ops[0]] + ops[1..];
    forall x | x in Mentioned(ops)
      ensures x in (if ops[0].Pass? then {} else {ops[0].item}) + Mentioned(ops[1..])
    {
      var i :| 0 <= i < |ops| && !ops[i].Pass? && ops[i].item == x;
      if i > 0 {
        assert ops[1..][i - 1] == ops[i];
      }
    }
    forall x | x in Mentioned(ops[1..])
      ensures x in Mentioned(ops)
    {
      var i :| 0 <= i < |ops[1..]| && !ops[1..][i].Pass? && ops[1..][i].item == x;
      assert ops[i + 1] == ops[1..][i];
    }
  }

  /** A handler, whatever it does, keeps every list in order. */
  lemma {:induction false} PerformedAllKeeps(b: Book, ops: seq<Op>)
    requires Orderly(b) && AllKnown(b, ops)
    ensures var c := PerformedAll(b, ops);
      Orderly(c) && c.timeout.Keys == b.timeout.Keys && c.now >= b.now && c.loop == b.loop && b.rings.Keys <= c.rings.Keys
    decreases |ops|
  {
    hide Orderly, Performed;
    if ops != [] {
      PerformedKeeps(b, ops[0]);
      if !Fails(b, ops[0]) {
        PerformedAllKeeps(Performed(b, ops[0]), ops[1..]);
      }
    }
  }

  /** Of the items that wait on list m, a handler takes out some that it names, and no other; the
      items behind them have been active since. */
  lemma {:induction false} PerformedAllSplit(b: Book, ops: seq<Op>, m: int, p: seq<Item>, was: map<Item, int>, since: int)
    returns (q: seq<Item>, gone: set<Item>)
    requires Orderly(b) && AllKnown(b, ops) && b.now >= since && Split(ListOf(b, m), b.start, p, was, since)
    ensures q == Others(p, gone) && gone <= Mentioned(ops)
    ensures var c := PerformedAll(b, ops); Split(ListOf(c, m), c.start, q, was, since)
    decreases |ops|
  {
    hide Orderly, Performed, Split, Rearranged;
    q, gone := p, {};
    OthersNone(p);
    if ops != [] {
      var c := Performed(b, ops[0]);
      PerformedKeeps(b, ops[0]);
      MentionedFirst(ops);
      SplitFurther(ListOf(b, m), ListOf(c, m), ops[0], b.start, c.start, b.now, p, was, since);
      var first: set<Item> := {};
      if !Split(ListOf(c, m), c.start, p, was, since) {
        first := {ops[0].item};
        OthersFurther(p, {}, ops[0].item);
        assert {} + {ops[0].item} == first;
      }
      q, gone := Others(p, first), first;
      if !Fails(b, ops[0]) {
        var more;
        q, more := PerformedAllSplit(c, ops[1..], m, q, was, since);
        OthersTwice(p, first, more);
        gone := first + more;
      }
    }
  }

  lemma {:induction false} OthersTwice(s: seq<Item>, gone: set<Item>, more: set<Item>)
    ensures Others(Others(s, gone), more) == Others(s, gone + more)
  {
    if s != [] {
      OthersTwice(s[1..], gone, more);
    }
  }

  // The theorems about a callback.

  ghost predicate Confined(b: Book, handlers: Handlers) {
    forall x :: x in handlers ==> AllKnown(b, handlers[x])
  }

  /** The items that the handlers of the fired items name. */
  ghost function Named(handlers: Handlers, fired: seq<Item>): set<Item> {
    if fired == [] then {} else Named(handlers, fired[..|fired| - 1]) + Mentioned(Calls(handlers, fired[|fired| - 1]))
  }

  lemma CallsKnown(b: Book, handlers: Handlers, x: Item)
    requires Confined(b, handlers)
    ensures AllKnown(b, Calls(handlers, x))
  {
  }

  lemma KnownStill(b: Book, c: Book, ops: seq<Op>)
    requires AllKnown(b, ops) && c.timeout.Keys == b.timeout.Keys
    ensures AllKnown(c, ops)
  {
    assert forall i :: 0 <= i < |ops| ==> Known(b, ops[i]) ==> Known(c, ops[i]);
  }

  lemma {:induction false} AfterKeeps(b: Book, handlers: Handlers, fired: seq<Item>)
    requires Orderly(b) && Confined(b, handlers)
    ensures var c := After(b, handlers, fired);
      Orderly(c) && c.timeout.Keys == b.timeout.Keys && c.now >= b.now && c.loop == b.loop && b.rings.Keys <= c.rings.Keys
  {
    hide Orderly, PerformedAll, Confined, AllKnown, Calls;
    if fired != [] {
      var front, x := fired[..|fired| - 1], fired[|fired| - 1];
      var c := After(b, handlers, front);
      AfterKeeps(b, handlers, front);
      OffLists(c, x);
      CallsKnown(b, handlers, x);
      KnownStill(b, Off(c, x), Calls(handlers, x));
      PerformedAllKeeps(Off(c, x), Calls(handlers, x));
    }
  }

  lemma TurnsBefore(b: Book, m: int, handlers: Handlers, fired: seq<Item>, since: int)
    requires Turns(b, m, handlers, fired, since) && fired != []
    ensures var front := fired[..|fired| - 1];
      Turns(b, m, handlers, front, since) && Turn(After(b, handlers, front), m, handlers, fired[|fired| - 1], since, true)
  {
    hide IsDue, After, FailsIn, Off, Calls;
    var front := fired[..|fired| - 1];
    forall i | 0 <= i < |front|
      ensures Turn(After(b, handlers, front[..i]), m, handlers, front[i], since, i == |front| - 1)
    {
      assert front[..i] == fired[..i];
      assert Turn(After(b, handlers, fired[..i]), m, handlers, fired[i], since, i == |fired| - 1);
    }
    assert Turn(After(b, handlers, fired[..|front|]), m, handlers, fired[|front|], since, |front| == |fired| - 1);
  }

  lemma SplitHead(s: seq<Item>, start: map<Item, int>, p: seq<Item>, was: map<Item, int>, since: int)
    requires Split(s, start, p, was, since) && s != []
    ensures p == [] ==> s[0] in start && start[s[0]] >= since
  {
  }

  /** What is due has not been active since the callback looked at its clock. */
  lemma DueIsWaiting(c: Book, m: int, p: seq<Item>, was: map<Item, int>, since: int)
    requires Orderly(c) && m >= 2 && IsDue(c, m, since) && Split(ListOf(c, m), c.start, p, was, since)
    ensures p != [] && p[0] == ListOf(c, m)[0] && Expired(was[p[0]], since, m)
    ensures Split(ListOf(Off(c, p[0]), m), c.start, p[1..], was, since)
  {
    hide Distinct, Aging;
    var s := ListOf(c, m);
    SplitHead(s, c.start, p, was, since);
    assert p[0] == s[..|p|][0];
    OffLists(c, p[0]);
    SplitWithout(s, c.start, p, was, since, p[0], c.start);
    WithoutFirst(s, p);
  }

  lemma WithoutFirst(s: seq<Item>, p: seq<Item>)
    requires Distinct(s) && p != [] && |p| <= |s| && s[..|p|] == p
    ensures Without(p, p[0]) == p[1..]
  {
    assert p[0] !in p[1..] by {
      assert forall i :: 0 <= i < |p| ==> p[i] == s[i];
    }
    WithoutAbsent(p[1..], p[0]);
  }

  /** Filtering what waits leaves alone what has fired. */
  lemma {:induction false} OthersBehind(f: seq<Item>, r: seq<Item>, more: set<Item>)
    requires forall x :: x in f ==> x !in r
    ensures Others(f + r, set y | y in r && y in more) == f + Others(r, more)
  {
    var g := set y | y in r && y in more;
    OthersConcat(f, r, g);
    OthersOutside(f, g);
    OthersAlike(r, g, more);
  }

  lemma {:induction false} OthersOutside(s: seq<Item>, gone: set<Item>)
    requires forall x :: x in s ==> x !in gone
    ensures Others(s, gone) == s
  {
    if s != [] {
      OthersOutside(s[1..], gone);
    }
  }

  lemma {:induction false} OthersAlike(s: seq<Item>, g: set<Item>, h: set<Item>)
    requires forall x :: x in s ==> (x in g <==> x in h)
    ensures Others(s, g) == Others(s, h)
  {
    if s != [] {
      OthersAlike(s[1..], g, h);
    }
  }

  lemma DistinctParts(f: seq<Item>, r: seq<Item>)
    requires Distinct(f + r)
    ensures forall x :: x in f ==> x !in r
  {
    var s := f + r;
    forall i, j | 0 <= i < |f| && 0 <= j < |r|
      ensures f[i] != r[j]
    {
      assert s[i] == f[i] && s[|f| + j] == r[j];
    }
  }

  /** At any time, the items that have fired and those that still wait are those that were on the
      list, in their order, but for some that a handler has named while they waited; what else is
      on the list has been active since. */
  lemma {:induction false} AfterSplit(b: Book, m: int, handlers: Handlers, fired: seq<Item>)
    returns (p: seq<Item>, gone: set<Item>)
    requires Orderly(b) && Confined(b, handlers) && m >= 2 && Turns(b, m, handlers, fired, b.now)
    ensures fired + p == Others(ListOf(b, m), gone) && gone <= Named(handlers, fired)
    ensures var c := After(b, handlers, fired); Split(ListOf(c, m), c.start, p, b.start, b.now)
    ensures forall i :: 0 <= i < |fired| ==> fired[i] in b.start && Expired(b.start[fired[i]], b.now, m)
  {
    hide Orderly, PerformedAll, Confined, AllKnown, Calls, Turns, Split, IsDue, Expired, FailsIn, Others, Mentioned;
    if fired == [] {
      p, gone := ListOf(b, m), {};
      OthersNone(p);
      assert [] + p == p;
      SplitAtFirst(b, m);
    } else {
      var n := |fired| - 1;
      var front, x := fired[..n], fired[n];
      var c := After(b, handlers, front);
      var ops := Calls(handlers, x);
      TurnsBefore(b, m, handlers, fired, b.now);
      AfterKeeps(b, handlers, front);
      var q, before := AfterSplit(b, m, handlers, front);
      DueIsWaiting(c, m, q, b.start, b.now);
      OffLists(c, x);
      CallsKnown(b, handlers, x);
      KnownStill(b, Off(c, x), ops);
      var more;
      p, more := PerformedAllSplit(Off(c, x), ops, m, q[1..], b.start, b.now);
      assert fired == front + [x] && fired + q[1..] == front + q;
      ListIsDistinct(b, m);
      OthersMembers(ListOf(b, m), before);
      DistinctParts(fired, q[1..]);
      OthersBehind(fired, q[1..], more);
      var late := set y | y in q[1..] && y in more;
      OthersTwice(ListOf(b, m), before, late);
      gone := before + late;
      StartOfWaiting(ListOf(c, m), c.start, q, b.start, b.now);
    }
  }

  lemma StartOfWaiting(s: seq<Item>, start: map<Item, int>, q: seq<Item>, was: map<Item, int>, since: int)
    requires Split(s, start, q, was, since)
    ensures forall i :: 0 <= i < |q| ==> q[i] in was
  {
  }

  lemma ListIsDistinct(b: Book, m: int)
    requires Orderly(b)
    ensures Distinct(ListOf(b, m)) && Aging(ListOf(b, m), b.start, b.now)
  {
  }

  lemma SplitAtFirst(b: Book, m: int)
    requires Orderly(b)
    ensures Split(ListOf(b, m), b.start, ListOf(b, m), b.start, b.now)
  {
  }

  /** The items of a callback that comes to its end: exactly those that are due fire, each once, in
      the order of the list, unless a handler names an item before its turn; what is not due and
      not named stays where it is, and nothing that is due is left. */
  lemma FiresExactly(b: Book, m: int, handlers: Handlers, fired: seq<Item>, after: Book)
    requires Orderly(b) && Confined(b, handlers) && m >= 2 && Served(b, m, handlers, fired, false, after)
    ensures Distinct(fired)
    ensures forall i, j :: 0 <= i < j < |fired| ==>
              fired[i] in b.start && fired[j] in b.start && b.start[fired[i]] <= b.start[fired[j]]
    ensures forall x :: x in fired ==> x in ListOf(b, m) && x in b.start && b.now - b.start[x] + 1 >= m
    ensures forall x :: x in ListOf(b, m) ==>
              && x in b.start
              && (b.now - b.start[x] + 1 >= m ==> x in fired || NamedBefore(b, m, handlers, fired, x))
              && (x !in fired && !NamedBefore(b, m, handlers, fired, x) ==> x in ListOf(after, m) && StartOf(after, x) == b.start[x])
    ensures forall x :: x in ListOf(after, m) ==> x in after.start && b.now - after.start[x] + 1 < m
  {
    hide Orderly, Confined, Turns, Split, IsDue, After, Named, NamedBefore, Others, FailsIn, Distinct, Again, Idle, Calls, Off;
    var p, gone := AfterSplit(b, m, handlers, fired);
    var c := After(b, handlers, fired);
    AfterKeeps(b, handlers, fired);
    ListIsDistinct(b, m);
    ListIsDistinct(c, m);
    OthersMembers(ListOf(b, m), gone);
    OthersAging(ListOf(b, m), gone, b.start, b.now);
    FiredPart(fired, p, b.start, b.now);
    WaitingPart(ListOf(c, m), c.start, p, b.start, b.now);
    NoneDue(c, m, b.now);
    SettledLists(c, m, b.now);
    forall x | x in ListOf(b, m)
      ensures x in b.start && (Expired(b.start[x], b.now, m) ==> x in fired || NamedBefore(b, m, handlers, fired, x))
      ensures x !in fired && !NamedBefore(b, m, handlers, fired, x) ==> x in ListOf(after, m) && StartOf(after, x) == b.start[x]
    {
      FiresOrStays(b, m, handlers, fired, after, x);
    }
  }

  lemma FiredPart(fired: seq<Item>, p: seq<Item>, start: map<Item, int>, now: int)
    requires Distinct(fired + p) && Aging(fired + p, start, now)
    ensures Distinct(fired)
    ensures forall i, j :: 0 <= i < j < |fired| ==>
              fired[i] in start && fired[j] in start && start[fired[i]] <= start[fired[j]]
    ensures forall x :: x in fired || x in p ==> x in start && x in fired + p
  {
    var s := fired + p;
    assert forall i :: 0 <= i < |fired| ==> fired[i] == s[i];
    assert forall i :: 0 <= i < |p| ==> p[i] == s[|fired| + i];
  }

  lemma WaitingPart(s: seq<Item>, start: map<Item, int>, p: seq<Item>, was: map<Item, int>, since: int)
    requires Split(s, start, p, was, since)
    ensures forall x :: x in p ==> x in s && x in start && x in was && start[x] == was[x]
  {
    assert forall i :: 0 <= i < |p| ==> p[i] == s[i];
  }

  lemma NoneDue(c: Book, m: int, since: int)
    requires Orderly(c) && !IsDue(c, m, since)
    ensures forall x :: x in ListOf(c, m) ==> x in c.start && !Expired(c.start[x], since, m)
  {
    ListIsDistinct(c, m);
  }

  lemma SettledLists(c: Book, m: int, since: int)
    ensures Settled(c, m, since).rings == c.rings && Settled(c, m, since).start == c.start
  {
  }

  /** The watcher then waits for the deadline of the most idle survivor (less by what the loop is
      behind the clock), or rests. */
  lemma ArmedForOldest(b: Book, m: int, handlers: Handlers, fired: seq<Item>, after: Book)
    requires Orderly(b) && Confined(b, handlers) && m in b.rings && Served(b, m, handlers, fired, false, after)
    ensures m in after.rings && m in after.watch
    ensures after.rings[m] == [] ==> !after.watch[m].armed
    ensures after.rings[m] != [] ==>
      after.watch[m] == Watch(true, StartOf(after, after.rings[m][0]) + m - (b.now - b.loop))
  {
    hide Orderly, Turns, After, FailsIn;
    AfterKeeps(b, handlers, fired);
    OrderlyIsSane(After(b, handlers, fired));
  }

  lemma OrderlyIsSane(b: Book)
    requires Orderly(b)
    ensures b.watch.Keys == b.rings.Keys && b.loop <= b.now
  {
  }

  /** Without handlers the due items are simply taken off the front. */
  lemma FiresFront(b: Book, m: int, fired: seq<Item>, after: Book)
    requires Orderly(b) && m in b.rings && Served(b, m, map[], fired, false, after)
    ensures fired + ListOf(after, m) == ListOf(b, m)
    ensures forall n :: n in b.rings && n != m ==> ListOf(after, n) == ListOf(b, n)
  {
    hide Orderly, Turns, After, IsDue;
    OffAll(b, m, fired);
    SettledLists(After(b, map[], fired), m, b.now);
  }

  lemma {:induction false} OffAll(b: Book, m: int, fired: seq<Item>)
    requires Orderly(b) && m in b.rings && Turns(b, m, map[], fired, b.now)
    ensures var c := After(b, map[], fired);
      fired + ListOf(c, m) == ListOf(b, m) && forall n :: n in b.rings && n != m ==> ListOf(c, n) == ListOf(b, n)
  {
    hide Orderly, Turns, FailsIn, Distinct, Expired;
    if fired != [] {
      var front, x := fired[..|fired| - 1], fired[|fired| - 1];
      var c := After(b, map[], front);
      TurnsBefore(b, m, map[], fired, b.now);
      AfterKeeps(b, map[], front);
      OffAll(b, m, front);
      OffLists(c, x);
      HeadOff(c, m, x);
    } else {
      assert fired + ListOf(b, m) == ListOf(b, m);
    }
  }

  lemma HeadOff(c: Book, m: int, x: Item)
    requires Orderly(c) && ListOf(c, m) != [] && x == ListOf(c, m)[0]
    ensures ListOf(Off(c, x), m) == ListOf(c, m)[1..] && x in c.timeout && TimeoutOf(c, x) == m
  {
    var s := ListOf(c, m);
    ListIsDistinct(c, m);
    OffLists(c, x);
    WithoutFirst(s, s);
  }

  // What handlers leave alone.

  /** On every list, the items that are not in `named` stand as they stood. */
  ghost predicate Spared(b: Book, c: Book, named: set<Item>) {
    forall n :: Others(ListOf(c, n), named) == Others(ListOf(b, n), named)
  }

  lemma RearrangedSpares(s: seq<Item>, t: seq<Item>, op: Op, start: map<Item, int>, later: map<Item, int>, now: int,
                         named: set<Item>)
    requires Rearranged(s, t, op, start, later, now) && Mentioned([op]) <= named
    ensures Others(t, named) == Others(s, named)
  {
    if !op.Pass? {
      assert [op][0] == op && op.item in Mentioned([op]);
      OthersFurther(s, named, op.item);
      OthersConcat(Without(s, op.item), [op.item], named);
      assert [op.item][1..] == [];
    }
  }

  lemma {:induction false} PerformedAllSpares(b: Book, ops: seq<Op>, named: set<Item>)
    requires Orderly(b) && AllKnown(b, ops) && Mentioned(ops) <= named
    ensures Spared(b, PerformedAll(b, ops), named)
    decreases |ops|
  {
    hide Orderly, Performed, Rearranged, Mentioned, ListOf, Others;
    if ops != [] {
      var c := Performed(b, ops[0]);
      PerformedKeeps(b, ops[0]);
      MentionedFirst(ops);
      MentionedFirst([ops[0]]);
      NoneMentioned([ops[0]][1..]);
      forall n
        ensures Others(ListOf(c, n), named) == Others(ListOf(b, n), named)
      {
        RearrangedSpares(ListOf(b, n), ListOf(c, n), ops[0], b.start, c.start, b.now, named);
      }
      if !Fails(b, ops[0]) {
        PerformedAllSpares(c, ops[1..], named);
      }
    }
  }

  lemma NoneMentioned(ops: seq<Op>)
    requires ops == []
    ensures Mentioned(ops) == {}
  {
  }

  /** A callback moves no item on any list but those that fire and those that a handler names. */
  lemma {:induction false} AfterSpares(b: Book, handlers: Handlers, fired: seq<Item>, named: set<Item>)
    requires Orderly(b) && Confined(b, handlers)
    requires Named(handlers, fired) <= named && forall x :: x in fired ==> x in named
    ensures Spared(b, After(b, handlers, fired), named)
  {
    hide Orderly, PerformedAll, Confined, AllKnown, Calls, Mentioned, Others, ListOf;
    if fired != [] {
      var front, x := fired[..|fired| - 1], fired[|fired| - 1];
      var c := After(b, handlers, front);
      var ops := Calls(handlers, x);
      AfterKeeps(b, handlers, front);
      AfterSpares(b, handlers, front, named);
      OffLists(c, x);
      OffSpares(c, x, named);
      CallsKnown(b, handlers, x);
      KnownStill(b, Off(c, x), ops);
      PerformedAllSpares(Off(c, x), ops, named);
    }
  }

  lemma OffSpares(b: Book, x: Item, named: set<Item>)
    requires Orderly(b) && x in named
    ensures Spared(b, Off(b, x), named)
  {
    hide Orderly, Others;
    OffLists(b, x);
    forall n
      ensures Others(ListOf(Off(b, x), n), named) == Others(ListOf(b, n), named)
    {
      OthersFurther(ListOf(b, n), named, x);
    }
  }

  // Whose turn comes.

  ghost predicate Before(s: seq<Item>, x: Item, y: Item) {
    exists i, j :: 0 <= i < j < |s| && s[i] == x && s[j] == y
  }

  /** A handler has named `x` before its turn: that of an item which stood before it on the list. */
  ghost predicate NamedBefore(b: Book, m: int, handlers: Handlers, fired: seq<Item>, x: Item) {
    exists i :: 0 <= i < |fired| && x in Mentioned(Calls(handlers, fired[i])) && Before(ListOf(b, m), fired[i], x)
  }

  /** What stands before `x` in `t` stood before it in `s`. */
  ghost predicate Ahead(s: seq<Item>, t: seq<Item>, x: Item) {
    forall i, j :: 0 <= i < j < |t| && t[j] == x ==> Before(s, t[i], x)
  }

  /** `x` waits on list m as it did before, behind nothing that was not before it. */
  ghost predicate Waits(b: Book, m: int, c: Book, x: Item) {
    x in ListOf(c, m) && StartOf(c, x) == StartOf(b, x) && Ahead(ListOf(b, m), ListOf(c, m), x)
  }

  lemma BeforeLonger(s: seq<Item>, first: Item, y: Item, x: Item)
    ensures Before(s, y, x) ==> Before([first] + s, y, x)
    ensures x in s ==> Before([first] + s, first, x)
    ensures Before([first] + s, y, x) ==> y == first || Before(s, y, x)
  {
    var t := [first] + s;
    if Before(s, y, x) {
      var i, j :| 0 <= i < j < |s| && s[i] == y && s[j] == x;
      assert t[i + 1] == y && t[j + 1] == x;
    }
    if x in s {
      var j :| 0 <= j < |s| && s[j] == x;
      assert t[0] == first && t[j + 1] == x;
    }
    if Before(t, y, x) && y != first {
      var i, j :| 0 <= i < j < |t| && t[i] == y && t[j] == x;
      assert s[i - 1] == y && s[j - 1] == x;
    }
  }

  lemma {:induction false} BeforeWithout(s: seq<Item>, z: Item, y: Item, x: Item)
    ensures Before(Without(s, z), y, x) ==> Before(s, y, x)
  {
    if s != [] {
      BeforeWithout(s[1..], z, y, x);
      assert s == [s[0]] + s[1..];
      BeforeLonger(s[1..], s[0], y, x);
      if s[0] != z {
        BeforeLonger(Without(s[1..], z), s[0], y, x);
        WithoutMembers(s[1..], z);
        if y == s[0] && Before(Without(s, z), y, x) && !Before(Without(s[1..], z), y, x) {
          FirstBefore(Without(s[1..], z), s[0], x);
        }
      }
    }
  }

  lemma FirstBefore(s: seq<Item>, first: Item, x: Item)
    ensures Before([first] + s, first, x) ==> x in s
  {
    var t := [first] + s;
    if Before(t, first, x) {
      var i, j :| 0 <= i < j < |t| && t[i] == first && t[j] == x;
      assert s[j - 1] == x;
    }
  }

  lemma WaitsOn(b: Book, m: int, c: Book, d: Book, x: Item)
    requires Waits(b, m, c, x) && Waits(c, m, d, x)
    ensures Waits(b, m, d, x)
  {
    AheadOn(ListOf(b, m), ListOf(c, m), ListOf(d, m), x);
    hide Ahead;
  }

  lemma AheadOn(s: seq<Item>, t: seq<Item>, u: seq<Item>, x: Item)
    requires Ahead(s, t, x) && Ahead(t, u, x)
    ensures Ahead(s, u, x)
  {
    forall i, j | 0 <= i < j < |u| && u[j] == x
      ensures Before(s, u[i], x)
    {
      assert Before(t, u[i], x);
      var k, l :| 0 <= k < l < |t| && t[k] == u[i] && t[l] == x;
    }
  }

  /** A call that does not name `x` puts nothing before it. */
  lemma RearrangedAhead(s: seq<Item>, t: seq<Item>, op: Op, start: map<Item, int>, later: map<Item, int>, now: int, x: Item)
    requires Rearranged(s, t, op, start, later, now) && x in s && x !in Mentioned([op])
    ensures x in t && Ahead(s, t, x)
  {
    if !op.Pass? {
      var z := op.item;
      assert [op][0] == op && z in Mentioned([op]);
      var w := Without(s, z);
      WithoutMembers(s, z);
      forall i, j | 0 <= i < j < |t| && t[j] == x
        ensures Before(s, t[i], x)
      {
        assert Before(t, t[i], x);
        if t != s {
          NotLast(w, z, t[i], x);
          BeforeWithout(s, z, t[i], x);
        }
      }
    }
  }

  lemma NotLast(w: seq<Item>, z: Item, y: Item, x: Item)
    requires x != z
    ensures Before(w + [z], y, x) ==> Before(w, y, x)
  {
    var t := w + [z];
    if Before(t, y, x) {
      var i, j :| 0 <= i < j < |t| && t[i] == y && t[j] == x;
      assert w[i] == y && w[j] == x;
    }
  }

  lemma {:induction false} PerformedAllAhead(b: Book, ops: seq<Op>, m: int, x: Item)
    requires Orderly(b) && AllKnown(b, ops) && x !in Mentioned(ops) && x in ListOf(b, m)
    ensures Waits(b, m, PerformedAll(b, ops), x)
    decreases |ops|
  {
    hide Orderly, Performed, Rearranged, Before, ListOf, Mentioned;
    AheadAtFirst(ListOf(b, m), x);
    hide Ahead;
    if ops != [] {
      var c := Performed(b, ops[0]);
      PerformedKeeps(b, ops[0]);
      MentionedFirst(ops);
      MentionedFirst([ops[0]]);
      NoneMentioned([ops[0]][1..]);
      RearrangedAhead(ListOf(b, m), ListOf(c, m), ops[0], b.start, c.start, b.now, x);
      assert StartOf(c, x) == StartOf(b, x) by {
        FirstStarts(b, ops, x);
      }
      if !Fails(b, ops[0]) {
        PerformedAllAhead(c, ops[1..], m, x);
        WaitsOn(b, m, c, PerformedAll(c, ops[1..]), x);
      }
    }
  }

  lemma AheadAtFirst(s: seq<Item>, x: Item)
    ensures Ahead(s, s, x)
  {
  }

  lemma FirstStarts(b: Book, ops: seq<Op>, x: Item)
    requires Orderly(b) && AllKnown(b, ops) && ops != [] && x !in Mentioned(ops)
    ensures StartOf(Performed(b, ops[0]), x) == StartOf(b, x)
  {
    hide Performed, Orderly;
    PerformedKeeps(b, ops[0]);
    MentionedFirst(ops);
    assert Rearranged(ListOf(b, 0), ListOf(Performed(b, ops[0]), 0), ops[0], b.start, Performed(b, ops[0]).start, b.now);
  }

  /** Until its turn, or until it is named, an item waits behind those that stood before it. */
  lemma {:induction false} AfterWaits(b: Book, m: int, handlers: Handlers, fired: seq<Item>, since: int, x: Item)
    requires Orderly(b) && Confined(b, handlers) && Turns(b, m, handlers, fired, since) && x in ListOf(b, m)
    ensures x in fired || NamedBefore(b, m, handlers, fired, x) || Waits(b, m, After(b, handlers, fired), x)
  {
    hide Orderly, PerformedAll, Confined, AllKnown, Calls, Turns, Before, Mentioned, ListOf, FailsIn, Expired;
    AheadAtFirst(ListOf(b, m), x);
    if fired != [] {
      var n := |fired| - 1;
      var front, y := fired[..n], fired[n];
      var c := After(b, handlers, front);
      var ops := Calls(handlers, y);
      TurnsBefore(b, m, handlers, fired, since);
      AfterKeeps(b, handlers, front);
      AfterWaits(b, m, handlers, front, since, x);
      if NamedBefore(b, m, handlers, front, x) {
        NamedStill(b, m, handlers, fired, n, x);
      } else if x !in front && x != y {
        HeadOff(c, m, y);
        OffLists(c, y);
        HeadFirst(ListOf(c, m), x);
        if x in Mentioned(ops) {
          assert Before(ListOf(b, m), fired[n], x);
        } else {
          CallsKnown(b, handlers, y);
          KnownStill(b, Off(c, y), ops);
          PerformedAllAhead(Off(c, y), ops, m, x);
          WaitsOn(b, m, c, Off(c, y), x);
          WaitsOn(b, m, Off(c, y), After(b, handlers, fired), x);
        }
      }
    }
  }

  lemma NamedStill(b: Book, m: int, handlers: Handlers, fired: seq<Item>, n: nat, x: Item)
    requires n <= |fired| && NamedBefore(b, m, handlers, fired[..n], x)
    ensures NamedBefore(b, m, handlers, fired, x)
  {
    hide Calls, Mentioned, Before;
    var front := fired[..n];
    var i :| 0 <= i < |front| && x in Mentioned(Calls(handlers, front[i])) && Before(ListOf(b, m), front[i], x);
    assert fired[i] == front[i];
  }

  lemma HeadFirst(s: seq<Item>, x: Item)
    requires x in s && s[0] != x
    ensures Before(s, s[0], x) && x in s[1..]
    ensures Ahead(s, s[1..], x)
  {
    assert s == [s[0]] + s[1..];
    forall i, j | 0 <= i < j < |s[1..]| && s[1..][j] == x
      ensures Before(s, s[1..][i], x)
    {
      BeforeLonger(s[1..], s[0], s[1..][i], x);
    }
    BeforeLonger(s[1..], s[0], s[0], x);
  }

  /** With any timeout, and whatever handlers do: a due item fires unless it is named before its
      turn, and an item that does not fire and is not named stays on its list, as idle as it was. */
  lemma FiresOrStays(b: Book, m: int, handlers: Handlers, fired: seq<Item>, after: Book, x: Item)
    requires Orderly(b) && Confined(b, handlers) && Served(b, m, handlers, fired, false, after)
    requires x in ListOf(b, m)
    ensures b.now - StartOf(b, x) + 1 >= m ==> x in fired || NamedBefore(b, m, handlers, fired, x)
    ensures x !in fired && !NamedBefore(b, m, handlers, fired, x) ==> x in ListOf(after, m) && StartOf(after, x) == StartOf(b, x)
  {
    hide Orderly, Confined, Turns, IsDue, After, NamedBefore, FailsIn, Again, Idle, Calls, Off;
    var c := After(b, handlers, fired);
    AfterKeeps(b, handlers, fired);
    AfterWaits(b, m, handlers, fired, b.now, x);
    NoneDue(c, m, b.now);
    SettledLists(c, m, b.now);
  }

  // Watchers.

  /** A list without one of its items has no older first item; if it is empty it should rest. */
  lemma UnenrolledInStep(b: Book, x: Item, n: int)
    requires Orderly(b) && InStep(b, n)
    ensures InStep(Unenrolled(b, x), n)
    ensures Off(b, x).rings[n] != [] || n != TimeoutOf(b, x) ==> InStep(Off(b, x), n)
  {
    hide Orderly, Aging, Distinct;
    OffLists(b, x);
    FirstNoOlder(b, x, n);
  }

  lemma FirstNoOlder(b: Book, x: Item, n: int)
    requires Orderly(b) && n in b.rings
    ensures n in Off(b, x).rings
    ensures Off(b, x).rings[n] != [] ==>
              b.rings[n] != [] && StartOf(b, b.rings[n][0]) <= StartOf(b, Off(b, x).rings[n][0])
  {
    DetachedAt(b.rings, x, n);
    WithoutKeeps(b.rings[n], x, b.start, b.now);
  }

  lemma EnrolledInStep(b: Book, x: Item, msecs: int, n: int)
    requires Orderly(b) && InStep(b, n)
    ensures InStep(Enrolled(b, x, msecs), n)
  {
    hide Orderly, Aging, Distinct, Unenrolled;
    UnenrolledInStep(b, x, n);
  }

  /** When the item at the end of its list is active now, its watcher is in step if it runs and
      comes round in time for the first item. */
  lemma AppendedInStep(b: Book, x: Item, n: int)
    requires Orderly(b) && x in b.timeout && b.timeout[x] in b.rings && n in b.rings
    ensures var m, c := b.timeout[x], Appended(Stamped(b, x), x, b.timeout[x]);
      var w := Without(b.rings[m], x);
      if n != m then InStep(c, n) <==> InStep(b, n)
      else InStep(c, m) <==>
           && m in b.watch && (b.watch[m].armed <==> m > 0)
           && (m > 0 ==> b.watch[m].expiry <= (if w == [] then b.now else StartOf(b, w[0])) + m)
  {
    var m, c := b.timeout[x], Appended(Stamped(b, x), x, b.timeout[x]);
    var w := Without(b.rings[m], x);
    PutLast(b, x);
    WithoutKeeps(b.rings[m], x, b.start, b.now);
    hide Aging, Distinct, Detached, Extended, Without, Orderly;
    if n == m {
      assert (w + [x])[0] == if w == [] then x else w[0];
    } else {
      NotElsewhere(b, x, n);
    }
  }

  lemma NotElsewhere(b: Book, x: Item, n: int)
    requires Orderly(b) && n in b.rings && n != TimeoutOf(b, x)
    ensures x !in b.rings[n]
  {
  }

  lemma OpenedInStep(b: Book, m: int, n: int)
    requires Orderly(b) && m >= 0 && (n in b.rings ==> InStep(b, n))
    ensures n in b.rings && n != m ==> InStep(Opened(b, m), n)
    ensures n == m ==>
      var w := Opened(b, m).watch;
      && m in w && (w[m].armed <==> m > 0)
      && (m > 0 ==> w[m].expiry <= (if ListOf(b, m) == [] then b.loop else StartOf(b, ListOf(b, m)[0])) + m)
  {
    hide Aging, Distinct;
  }

  lemma ReadyIsOffList(b: Book, x: Item)
    requires Orderly(b) && x in b.ready
    ensures forall n :: n in b.rings ==> x !in b.rings[n]
  {
  }

  /** `active` leaves the watcher of another list in step; and its own, if and only if it does not
      strand the item. */
  lemma ActivatedInStep(b: Book, x: Item, n: int)
    requires Orderly(b) && x in b.timeout && n in Activated(b, x).rings && (n in b.rings ==> InStep(b, n))
    ensures InStep(Activated(b, x), n) <==> !(n == b.timeout[x] && Strands(b, x))
  {
    OrderlyIsSane(b);
    var m := b.timeout[x];
    if m < 0 {
    } else if x in b.ready {
      InsertedIs(b, x, m);
      OpenedKeeps(b, m);
      OpenedInStep(b, m, n);
      ReadyIsOffList(b, x);
      PutLast(Opened(b, m), x);
      WithoutAbsent(ListOf(b, m), x);
      AppendedInStep(Opened(b, m), x, n);
      hide Orderly, Aging, Distinct, Opened, Inserted, Appended, Without;
    } else if m in b.rings {
      PutLast(b, x);
      FirstNoOlder(b, x, m);
      OffLists(b, x);
      AppendedInStep(b, x, n);
      hide Orderly, Aging, Distinct, Without;
    } else {
      StampedOff(b, x);
    }
  }

  /** `active` keeps all watchers in step if and only if it does not strand the item. */
  lemma ActiveSteady(b: Book, x: Item)
    requires Steady(b) && x in b.timeout
    ensures Steady(Activated(b, x)) <==> !Strands(b, x)
  {
    hide Orderly, InStep;
    var c := Activated(b, x);
    PerformedKeeps(b, ActiveOp(x));
    forall n | n in c.rings
      ensures InStep(c, n) <==> !(n == b.timeout[x] && Strands(b, x))
    {
      ActivatedInStep(b, x, n);
    }
  }

  /** An item that is unenrolled and then active is on its list, and nothing watches it. */
  lemma StrandedExample(x: Item)
    ensures var b0 := Book(map[], map[x := 10], map[x := 0], {x}, map[], 0, 0);
      var b1 := Activated(Unenrolled(Activated(b0, x), x), x);
      Steady(b0) && 10 in b1.rings && b1.rings[10] == [x] && 10 in b1.watch && !b1.watch[10].armed
  {
    var b0 := Book(map[], map[x := 10], map[x := 0], {x}, map[], 0, 0);
    var c := Activated(b0, x);
    assert Detached(map[10 := []], x) == map[10 := []] && [] + [x] == [x];
    assert c == Book(map[10 := [x]], b0.timeout, b0.start, {}, map[10 := Watch(true, 10)], 0, 0);
    var d := Unenrolled(c, x);
    assert [x][1..] == [];
    assert d.rings == map[10 := []] && !d.watch[10].armed && d.ready == {};
  }

  /** With timeout 0 an item is never timed out: `again` does not start a watcher with period 0. */
  lemma ZeroExample(x: Item)
    ensures var b0 := Book(map[], map[x := 0], map[x := 0], {x}, map[], 0, 0);
      var b1 := Activated(b0, x);
      Steady(b0) && 0 in b1.rings && b1.rings[0] == [x] && 0 in b1.watch && !b1.watch[0].armed
  {
    var b0 := Book(map[], map[x := 0], map[x := 0], {x}, map[], 0, 0);
    assert Detached(map[0 := []], x) == map[0 := []];
  }

  /** A list is watched exactly while there is something on it, if and only if its timeout is not 0
      or nothing is on it. */
  lemma ArmedExactly(b: Book, m: int)
    requires Steady(b) && m in b.rings
    ensures m in b.watch && ((b.watch[m].armed <==> b.rings[m] != []) <==> m > 0 || b.rings[m] == [])
  {
    assert InStep(b, m);
  }

  /** While list m is served, the call does not strand an item of another list. */
  ghost predicate GentleCall(b: Book, op: Op, m: int) {
    op.ActiveOp? && TimeoutOf(b, op.item) != m ==> !Strands(b, op.item)
  }

  ghost predicate Gentle(b: Book, ops: seq<Op>, m: int)
    decreases |ops|
  {
    ops != [] ==> GentleCall(b, ops[0], m) && (Fails(b, ops[0]) || Gentle(Performed(b, ops[0]), ops[1..], m))
  }

  ghost predicate GentleTurns(b: Book, m: int, handlers: Handlers, fired: seq<Item>) {
    fired != [] ==>
      var front, x := fired[..|fired| - 1], fired[|fired| - 1];
      GentleTurns(b, m, handlers, front) && Gentle(Off(After(b, handlers, front), x), Calls(handlers, x), m)
  }

  lemma PerformedInStep(b: Book, op: Op, m: int)
    requires Orderly(b) && Known(b, op) && InStepBut(b, m) && GentleCall(b, op, m)
    ensures InStepBut(Performed(b, op), m)
  {
    hide Orderly, InStep, Strands;
    PerformedKeeps(b, op);
    forall n | n in Performed(b, op).rings && n != m
      ensures InStep(Performed(b, op), n)
    {
      match op
      case EnrollOp(x, msecs) =>
        RingsOfEnrolled(b, x, msecs);
        EnrolledInStep(b, x, msecs, n);
      case UnenrollOp(x) =>
        UnenrolledInStep(b, x, n);
      case Pass(ms) =>
        PassInStep(b, ms, n);
      case ActiveOp(x) =>
        ActivatedInStep(b, x, n);
    }
  }

  lemma RingsOfEnrolled(b: Book, x: Item, msecs: int)
    ensures Enrolled(b, x, msecs).rings.Keys == b.rings.Keys
  {
  }

  lemma PassInStep(b: Book, ms: nat, n: int)
    requires InStep(b, n)
    ensures InStep(b.(now := b.now + ms), n)
  {
  }

  lemma {:induction false} PerformedAllInStep(b: Book, ops: seq<Op>, m: int)
    requires Orderly(b) && AllKnown(b, ops) && InStepBut(b, m) && Gentle(b, ops, m)
    ensures InStepBut(PerformedAll(b, ops), m)
    decreases |ops|
  {
    hide Orderly, InStep, InStepBut, GentleCall, Performed;
    if ops != [] {
      PerformedKeeps(b, ops[0]);
      PerformedInStep(b, ops[0], m);
      if !Fails(b, ops[0]) {
        PerformedAllInStep(Performed(b, ops[0]), ops[1..], m);
      }
    }
  }

  lemma {:induction false} AfterInStep(b: Book, m: int, handlers: Handlers, fired: seq<Item>)
    requires Orderly(b) && Confined(b, handlers) && InStepBut(b, m)
    requires Turns(b, m, handlers, fired, b.now) && GentleTurns(b, m, handlers, fired)
    ensures InStepBut(After(b, handlers, fired), m)
  {
    hide Orderly, PerformedAll, Confined, AllKnown, Calls, Turns, InStep, Gentle, FailsIn, Expired;
    if fired != [] {
      var front, x := fired[..|fired| - 1], fired[|fired| - 1];
      var c := After(b, handlers, front);
      TurnsBefore(b, m, handlers, fired, b.now);
      AfterKeeps(b, handlers, front);
      AfterInStep(b, m, handlers, front);
      HeadOff(c, m, x);
      OffLists(c, x);
      forall n | n in Off(c, x).rings && n != m
        ensures InStep(Off(c, x), n)
      {
        UnenrolledInStep(c, x, n);
      }
      CallsKnown(b, handlers, x);
      KnownStill(b, Off(c, x), Calls(handlers, x));
      PerformedAllInStep(Off(c, x), Calls(handlers, x), m);
    }
  }

  /** A callback leaves every list in order and every watcher in step, unless a handler strands an
      item of another list. */
  lemma ServedSteady(b: Book, m: int, handlers: Handlers, fired: seq<Item>, after: Book)
    requires Steady(b) && Confined(b, handlers) && m in b.rings && m > 0
    requires Served(b, m, handlers, fired, false, after) && GentleTurns(b, m, handlers, fired)
    ensures Steady(after)
  {
    hide Confined, Turns, GentleTurns, After, FailsIn, Aging, Distinct;
    var c := After(b, handlers, fired);
    AfterKeeps(b, handlers, fired);
    AfterInStep(b, m, handlers, fired);
    assert InStepBut(c, m);
    forall n | n in after.rings
      ensures InStep(after, n)
    {
      if n != m {
        assert InStep(c, n);
      }
    }
  }

  // Why the loop of the callback ends.

  ghost function DueItems(b: Book, m: int, since: int): set<Item> {
    set x | x in ListOf(b, m) && Expired(StartOf(b, x), since, m)
  }

  /** How long it takes until an item that is active then is not due at once. */
  ghost function Lag(b: Book, m: int, since: int): (ms: nat)
    ensures ms == 0 <==> !Expired(b.now, since, m)
  {
    if since + 2 - m > b.now then since + 2 - m - b.now else 0
  }

  ghost function Passing(ops: seq<Op>): nat {
    if ops == [] then 0 else (if ops[0].Pass? then ops[0].ms else 0) + Passing(ops[1..])
  }

  /** The timeout is 2 or more, or handlers take their time. */
  ghost predicate Lively(m: int, handlers: Handlers) {
    m >= 2 || forall x :: x in handlers ==> Passing(handlers[x]) > 0
  }

  lemma {:induction false} TimePasses(b: Book, ops: seq<Op>)
    requires Orderly(b) && AllKnown(b, ops)
    ensures PerformedAll(b, ops).now <= b.now + Passing(ops)
    ensures !FailsIn(b, ops) ==> PerformedAll(b, ops).now == b.now + Passing(ops)
    decreases |ops|
  {
    hide Orderly;
    if ops != [] {
      PerformedKeeps(b, ops[0]);
      NowAfter(b, ops[0]);
      if !Fails(b, ops[0]) {
        TimePasses(Performed(b, ops[0]), ops[1..]);
      }
    }
  }

  lemma NowAfter(b: Book, op: Op)
    ensures Performed(b, op).now == b.now + if op.Pass? then op.ms else 0
  {
    hide Without, Detached, Extended;
  }

  /** Once an item that is active now is not due at once, each turn leaves fewer items due, whatever
      the handler does. */
  lemma DueShrinks(b: Book, m: int, handlers: Handlers, x: Item, since: int)
    requires Orderly(b) && Confined(b, handlers) && Turn(b, m, handlers, x, since, true)
    requires Lag(b, m, since) == 0 || x !in handlers
    ensures DueItems(Fired(b, handlers, x), m, since) < DueItems(b, m, since)
  {
    hide Orderly, PerformedAll, Confined, AllKnown, Split, Distinct, Others, Mentioned, FailsIn;
    var c := Off(b, x);
    OffLists(b, x);
    HeadOff(b, m, x);
    ListIsDistinct(b, m);
    if x in handlers {
      var p := ListOf(c, m);
      CallsKnown(b, handlers, x);
      KnownStill(b, c, handlers[x]);
      SplitAtFirst(c, m);
      var q, gone := PerformedAllSplit(c, handlers[x], m, p, c.start, c.now);
      OthersMembers(p, gone);
      FewerDue(Fired(b, handlers, x), c, m, q, since);
    } else {
      NoHandler(b, handlers, x);
    }
    DueWithout(b, m, x, since);
  }

  lemma NoHandler(b: Book, handlers: Handlers, x: Item)
    requires x !in handlers
    ensures Fired(b, handlers, x) == Off(b, x)
  {
  }

  lemma DueWithout(b: Book, m: int, x: Item, since: int)
    requires IsDue(b, m, since) && x == ListOf(b, m)[0] && ListOf(Off(b, x), m) == ListOf(b, m)[1..]
    requires x !in ListOf(b, m)[1..]
    ensures DueItems(Off(b, x), m, since) < DueItems(b, m, since)
  {
    assert x in DueItems(b, m, since) && x !in DueItems(Off(b, x), m, since);
  }

  lemma FewerDue(d: Book, c: Book, m: int, q: seq<Item>, since: int)
    requires Split(ListOf(d, m), d.start, q, c.start, c.now) && !Expired(c.now, since, m)
    requires forall x :: x in q ==> x in ListOf(c, m)
    ensures DueItems(d, m, since) <= DueItems(c, m, since)
  {
    var s := ListOf(d, m);
    forall x | x in s && Expired(StartOf(d, x), since, m)
      ensures x in DueItems(c, m, since)
    {
      var i :| 0 <= i < |s| && s[i] == x;
      if i < |q| {
        assert q[i] == x;
      }
    }
  }

  /** With a timeout below 2 and a handler that re-inserts its item and takes no time at all, the
      loop can take another turn after any number of turns: it relies on the clock to move. */
  lemma {:induction false} Restless(b: Book, m: int, x: Item, k: nat)
    requires Orderly(b) && m <= 1 && ListOf(b, m) == [x] && IsDue(b, m, b.now)
    ensures var handlers: Handlers := map[x := [ActiveOp(x)]];
      var c := After(b, handlers, seq(k, i => x));
      Orderly(c) && c.now == b.now && ListOf(c, m) == [x] && Turn(c, m, handlers, x, b.now, false)
  {
    hide Orderly, FailsIn, Fired, Off, IsDue;
    var handlers: Handlers := map[x := [ActiveOp(x)]];
    var fired := seq(k, i => x);
    if k > 0 {
      assert fired[..k - 1] == seq(k - 1, i => x);
      Restless(b, m, x, k - 1);
      OneMoreTurn(After(b, handlers, fired[..k - 1]), m, x, b.now);
    }
    OneMoreTurn(After(b, handlers, fired), m, x, b.now);
  }

  lemma OneMoreTurn(c: Book, m: int, x: Item, since: int)
    requires Orderly(c) && m <= 1 && ListOf(c, m) == [x] && IsDue(c, m, since) && c.now == since
    ensures var d := Fired(c, map[x := [ActiveOp(x)]], x);
      Orderly(d) && ListOf(d, m) == [x] && IsDue(d, m, since) && d.now == since
    ensures !FailsIn(Off(c, x), [ActiveOp(x)])
  {
    HeadOff(c, m, x);
    OffLists(c, x);
    var b := Off(c, x);
    assert x in b.timeout && b.timeout[x] == m && m in b.rings && b.rings[m] == [];
    assert x !in b.ready;
    PutLast(b, x);
    hide Orderly, Detached, Extended;
    assert [ActiveOp(x)][1..] == [];
    assert PerformedAll(b, [ActiveOp(x)]) == Activated(b, x);
  }

  // The callback turn by turn.

  /** The turns so far, none of which ended with a handler that threw. */
  ghost predicate TurnsOn(b: Book, m: int, handlers: Handlers, fired: seq<Item>, since: int) {
    forall i :: 0 <= i < |fired| ==> Turn(After(b, handlers, fired[..i]), m, handlers, fired[i], since, false)
  }

  lemma NoTurns(b: Book, m: int, handlers: Handlers, since: int)
    ensures After(b, handlers, []) == b && TurnsOn(b, m, handlers, [], since)
  {
  }

  lemma OneMore(b: Book, m: int, handlers: Handlers, fired: seq<Item>, x: Item, since: int)
    requires TurnsOn(b, m, handlers, fired, since) && Turn(After(b, handlers, fired), m, handlers, x, since, true)
    ensures After(b, handlers, fired + [x]) == Fired(After(b, handlers, fired), handlers, x)
    ensures Turns(b, m, handlers, fired + [x], since)
    ensures !FailsIn(Off(After(b, handlers, fired), x), Calls(handlers, x)) ==> TurnsOn(b, m, handlers, fired + [x], since)
  {
    hide FailsIn, Off, Calls, Fired, IsDue;
    var more := fired + [x];
    assert more[..|more| - 1] == fired;
    forall i | 0 <= i < |more|
      ensures Turn(After(b, handlers, more[..i]), m, handlers, more[i], since, i == |more| - 1)
      ensures i < |fired| ==> Turn(After(b, handlers, more[..i]), m, handlers, more[i], since, false)
    {
      if i < |fired| {
        assert more[..i] == fired[..i];
        assert Turn(After(b, handlers, fired[..i]), m, handlers, fired[i], since, false);
      } else {
        assert more[..i] == fired;
      }
    }
  }

  lemma CallbackEnds(b: Book, m: int, handlers: Handlers, fired: seq<Item>)
    requires TurnsOn(b, m, handlers, fired, b.now) && !IsDue(After(b, handlers, fired), m, b.now)
    ensures Served(b, m, handlers, fired, false, Settled(After(b, handlers, fired), m, b.now))
  {
    hide FailsIn, Off, Calls, IsDue, After, Settled;
    var n := |fired|;
    assert n > 0 ==> Turn(After(b, handlers, fired[..n - 1]), m, handlers, fired[n - 1], b.now, false);
    forall i | 0 <= i < n
      ensures Turn(After(b, handlers, fired[..i]), m, handlers, fired[i], b.now, i == n - 1)
    {
      assert Turn(After(b, handlers, fired[..i]), m, handlers, fired[i], b.now, false);
    }
  }

  lemma CallbackThrows(b: Book, m: int, handlers: Handlers, fired: seq<Item>, x: Item)
    requires Turns(b, m, handlers, fired + [x], b.now)
    requires FailsIn(Off(After(b, handlers, fired), x), Calls(handlers, x))
    ensures Served(b, m, handlers, fired + [x], true, After(b, handlers, fired + [x]))
  {
    hide FailsIn, Off, Calls, IsDue, After, Turns, Settled;
    assert (fired + [x])[..|fired|] == fired;
  }

  /** Each turn brings the time at which nothing is due again any closer, or leaves fewer items due. */
  lemma Progresses(c: Book, m: int, handlers: Handlers, x: Item, since: int)
    requires Orderly(c) && Confined(c, handlers) && Lively(m, handlers) && c.now >= since
    requires Turn(c, m, handlers, x, since, true) && !FailsIn(Off(c, x), Calls(handlers, x))
    ensures var d := Fired(c, handlers, x);
      && Lag(d, m, since) <= Lag(c, m, since)
      && (Lag(d, m, since) == Lag(c, m, since) ==> DueItems(d, m, since) < DueItems(c, m, since))
  {
    hide Orderly, Confined, Turn, DueItems, FailsIn, AllKnown, PerformedAll;
    OffLists(c, x);
    CallsKnown(c, handlers, x);
    KnownStill(c, Off(c, x), Calls(handlers, x));
    TimePasses(Off(c, x), Calls(handlers, x));
    if Lag(c, m, since) == 0 || x !in handlers {
      DueShrinks(c, m, handlers, x, since);
    }
  }

  /** The three ways that a turn can go. */
  lemma Looked(c: Book, m: int, handlers: Handlers, since: int)
    requires m in c.rings
    ensures c.rings[m] == [] ==> !IsDue(c, m, since) && Settled(c, m, since) == Idle(c, m)
    ensures c.rings[m] != [] ==>
      var x := c.rings[m][0];
      var diff := since - StartOf(c, x);
      if diff + 1 < m then !IsDue(c, m, since) && Settled(c, m, since) == Again(c, m, m - diff)
      else Turn(c, m, handlers, x, since, true)
  {
    hide Idle, Again, FailsIn;
  }

  lemma ConfinedStill(b: Book, c: Book, handlers: Handlers)
    requires Confined(b, handlers) && c.timeout.Keys == b.timeout.Keys
    ensures Confined(c, handlers)
  {
    hide AllKnown;
    forall x | x in handlers
      ensures AllKnown(c, handlers[x])
    {
      KnownStill(b, c, handlers[x]);
    }
  }

  lemma NothingPerformed(b: Book)
    ensures PerformedAll(b, []) == b && !FailsIn(b, [])
  {
  }

  /** `active` without a list to put the item on: its links are null, and nothing changes. */
  lemma NoSuchList(b: Book, x: Item, m: int)
    requires m !in b.rings
    ensures Appended(b, x, m) == b
  {
  }

  // Whole runs.

  /** A round of the event loop begins `ms` later; or something outside of the callbacks makes a
      call; or the watcher of a list comes round, if it is time. */
  datatype Event = Later(ms: nat) | Call(op: Op) | Alarm(msecs: int, handlers: Handlers)

  datatype Outcome = Outcome(fired: seq<Item>, threw: bool)

  ghost predicate MayRing(b: Book, m: int) {
    m in b.watch && b.watch[m].armed && b.watch[m].expiry <= b.loop
  }

  ghost predicate Followed(b: Book, e: Event, o: Outcome, c: Book) {
    match e
    case Later(ms) => c == b.(now := b.now + ms, loop := b.now + ms) && o == Outcome([], false)
    case Call(op) => c == Performed(b, op) && o == Outcome([], Fails(b, op))
    case Alarm(m, handlers) =>
      if MayRing(b, m) then Served(b, m, handlers, o.fired, o.threw, c) else c == b && o == Outcome([], false)
  }

  ghost predicate Proper(b: Book, e: Event) {
    match e
    case Later(_) => true
    case Call(op) => Known(b, op)
    case Alarm(m, handlers) => Confined(b, handlers) && Lively(m, handlers)
  }

  ghost predicate Ran(events: seq<Event>, outcomes: seq<Outcome>, history: seq<Book>) {
    && |outcomes| == |events| && |history| == |events| + 1
    && forall k :: 0 <= k < |events| ==> Followed(history[k], events[k], outcomes[k], history[k + 1])
  }

  /** Nothing is stranded in this step, and no callback is cut short. */
  ghost predicate Careful(b: Book, e: Event, o: Outcome) {
    match e
    case Later(_) => true
    case Call(op) => GentleCall(b, op, -1)
    case Alarm(m, handlers) => MayRing(b, m) ==> !o.threw && GentleTurns(b, m, handlers, o.fired)
  }

  lemma ServedKeeps(b: Book, m: int, handlers: Handlers, fired: seq<Item>, threw: bool, after: Book)
    requires Orderly(b) && Confined(b, handlers) && m in b.rings && Served(b, m, handlers, fired, threw, after)
    ensures Orderly(after) && after.timeout.Keys == b.timeout.Keys
  {
    hide Confined, Turns, After, FailsIn, Aging, Distinct, IsDue;
    AfterKeeps(b, handlers, fired);
  }

  lemma StepKeeps(b: Book, e: Event, o: Outcome, c: Book)
    requires Orderly(b) && Proper(b, e) && Followed(b, e, o, c)
    ensures Orderly(c) && c.timeout.Keys == b.timeout.Keys
  {
    hide Orderly, Performed, Served, Confined, Lively;
    match e
    case Later(ms) =>
      RoundKeeps(b, ms);
    case Call(op) =>
      PerformedKeeps(b, op);
    case Alarm(m, handlers) =>
      OrderlyIsSane(b);
      if MayRing(b, m) {
        ServedKeeps(b, m, handlers, o.fired, o.threw, c);
      }
  }

  lemma RoundKeeps(b: Book, ms: nat)
    requires Orderly(b)
    ensures var c := b.(now := b.now + ms, loop := b.now + ms);
      Orderly(c) && forall n :: InStep(b, n) ==> InStep(c, n)
  {
    AgingAsTimePasses(b, ms);
  }

  lemma StepSteady(b: Book, e: Event, o: Outcome, c: Book)
    requires Steady(b) && Proper(b, e) && Followed(b, e, o, c) && Careful(b, e, o)
    ensures Steady(c)
  {
    hide Orderly, Performed, Served, Confined, Lively, InStep, GentleTurns, Strands;
    StepKeeps(b, e, o, c);
    match e
    case Later(ms) =>
      RoundKeeps(b, ms);
    case Call(op) =>
      PerformedInStep(b, op, -1);
      NoNegativeList(c);
    case Alarm(m, handlers) =>
      if MayRing(b, m) {
        ArmedIsPositive(b, m);
        ServedSteady(b, m, handlers, o.fired, c);
      }
  }

  lemma NoNegativeList(b: Book)
    requires Orderly(b)
    ensures forall m :: m in b.rings ==> m >= 0
  {
  }

  lemma ArmedIsPositive(b: Book, m: int)
    requires Steady(b) && MayRing(b, m)
    ensures m in b.rings && m > 0
  {
    assert InStep(b, m);
  }

  ghost predicate AllProper(b: Book, events: seq<Event>) {
    forall k :: 0 <= k < |events| ==> Proper(b, events[k])
  }

  lemma ProperStill(b: Book, c: Book, e: Event)
    requires Proper(b, e) && b.timeout.Keys == c.timeout.Keys
    ensures Proper(c, e)
  {
    hide AllKnown, Lively;
    if e.Alarm? {
      ConfinedStill(b, c, e.handlers);
    }
  }

  /** Every list stays in order in every run. */
  lemma {:induction false} RunOrderly(events: seq<Event>, outcomes: seq<Outcome>, history: seq<Book>, k: nat)
    requires Ran(events, outcomes, history) && Orderly(history[0]) && AllProper(history[0], events) && k <= |events|
    ensures Orderly(history[k]) && history[k].timeout.Keys == history[0].timeout.Keys
  {
    hide Orderly, Followed, Proper;
    if k > 0 {
      RunOrderly(events, outcomes, history, k - 1);
      ProperStill(history[0], history[k - 1], events[k - 1]);
      StepKeeps(history[k - 1], events[k - 1], outcomes[k - 1], history[k]);
    }
  }

  /** Every watcher stays in step with its list in every run in which nothing is stranded and no
      handler throws. */
  lemma {:induction false} RunSteady(events: seq<Event>, outcomes: seq<Outcome>, history: seq<Book>, k: nat)
    requires Ran(events, outcomes, history) && Steady(history[0]) && AllProper(history[0], events) && k <= |events|
    requires forall i :: 0 <= i < |events| ==> Careful(history[i], events[i], outcomes[i])
    ensures Steady(history[k])
  {
    hide Orderly, InStep, Followed, Proper, Careful;
    if k > 0 {
      RunSteady(events, outcomes, history, k - 1);
      RunOrderly(events, outcomes, history, k - 1);
      ProperStill(history[0], history[k - 1], events[k - 1]);
      StepSteady(history[k - 1], events[k - 1], outcomes[k - 1], history[k]);
    }
  }

  /** Nobody waits in vain: when all watchers are in step, an item that has been idle for its whole
      timeout by the time of the loop fires the next time that the watcher may come round, unless
      the handler of an item that stands before it names it. */
  lemma OnTime(b: Book, m: int, handlers: Handlers, x: Item, o: Outcome, c: Book)
    requires Steady(b) && Confined(b, handlers) && m > 0 && x in ListOf(b, m) && StartOf(b, x) + m <= b.loop
    requires Followed(b, Alarm(m, handlers), o, c) && !o.threw
    ensures x in o.fired || NamedBefore(b, m, handlers, o.fired, x)
  {
    hide Orderly, Served, Confined, NamedBefore;
    assert InStep(b, m);
    ListIsDistinct(b, m);
    OrderlyIsSane(b);
    var i :| 0 <= i < |b.rings[m]| && b.rings[m][i] == x;
    assert StartOf(b, b.rings[m][0]) <= StartOf(b, x);
    FiresOrStays(b, m, handlers, o.fired, c, x);
  }
}

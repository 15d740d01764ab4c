/** The rings of lib/timers.js, one for each timeout value, and what lib/_linklist.js does to all of them. */
module IdleLists {
  import opened LinkedList

  /** The sentinel of each timeout value, and the items on its ring. */
  type Lists = map<int, Item>
  type Rings = map<int, seq<Item>>

  ghost function Detached(rings: Rings, item: Item): Rings {
    map m | m in rings :: Without(rings[m], item)
  }

  lemma DetachedAt(rings: Rings, item: Item, m: int)
    requires m in rings
    ensures m in Detached(rings, item) && Detached(rings, item)[m] == Without(rings[m], item)
  {
  }

  /** The sentinels are distinct and are not items. */
  ghost predicate Sentinels(lists: Lists, heads: set<Item>, items: set<Item>) {
    && heads !! items
    && (forall m :: m in lists ==> m >= 0 && lists[m] in heads)
    && (forall m, n :: m in lists && n in lists && m != n ==> lists[m] != lists[n])
  }

  /** Every item of ring m has timeout m; so no item is on two rings. */
  ghost predicate Members(rings: Rings, items: set<Item>)
    reads items`idleTimeout
  {
    forall m, i :: m in rings && 0 <= i < |rings[m]| ==> rings[m][i] in items && rings[m][i].idleTimeout == m
  }

  ghost predicate Carries(rings: Rings, x: Item)
    reads x`idleTimeout
  {
    x.idleTimeout in rings && x in rings[x.idleTimeout]
  }

  ghost function Index(rings: Rings, x: Item): (k: nat)
    requires Carries(rings, x)
    reads x`idleTimeout
    ensures x.idleTimeout in rings && k < |rings[x.idleTimeout]| && rings[x.idleTimeout][k] == x
  {
    IndexOf(rings[x.idleTimeout], x)
  }

  /** An item on no ring is unlinked or linked to itself. */
  ghost predicate Free(x: Item)
    reads x`next, x`prev
  {
    Unlinked(x) || Ring(x, [])
  }

  ghost predicate Places(rings: Rings, items: set<Item>)
    reads items`idleTimeout, items`next, items`prev
  {
    forall x :: x in items ==> Carries(rings, x) || Free(x)
  }

  ghost predicate Shape(lists: Lists, rings: Rings, heads: set<Item>, items: set<Item>)
    reads items`idleTimeout, items`next, items`prev
    reads heads`next, heads`prev
  {
    && rings.Keys == lists.Keys
    && Sentinels(lists, heads, items) && Members(rings, items) && Places(rings, items)
    && forall m :: m in lists ==> Ring(lists[m], rings[m])
  }

  lemma DetachedMembers(rings: Rings, items: set<Item>, item: Item)
    requires Members(rings, items)
    ensures Members(Detached(rings, item), items)
  {
    forall m | m in rings {
      WithoutMembers(rings[m], item);
    }
  }

  lemma DetachedCarries(rings: Rings, item: Item, x: Item)
    ensures Carries(Detached(rings, item), x) <==> Carries(rings, x) && x != item
  {
    if x.idleTimeout in rings {
      WithoutMembers(rings[x.idleTimeout], item);
    }
  }

  /** Detaching `item` takes it off its own ring, if any, and changes no other. */
  lemma DetachedRings(lists: Lists, rings: Rings, heads: set<Item>, items: set<Item>, item: Item)
    requires Shape(lists, rings, heads, items) && item in items
    ensures Detached(rings, item).Keys == rings.Keys
    ensures Members(Detached(rings, item), items)
    ensures forall n :: n in rings && !(Carries(rings, item) && n == item.idleTimeout) ==> Detached(rings, item)[n] == rings[n]
    ensures Carries(rings, item) ==>
              Detached(rings, item)[item.idleTimeout] == Drop(rings[item.idleTimeout], Index(rings, item))
    ensures forall x :: x in items ==> (Carries(Detached(rings, item), x) <==> Carries(rings, x) && x != item)
  {
    hide Ring, Chain, Closed, Distinct;
    DetachedMembers(rings, items, item);
    forall n | n in rings && !(Carries(rings, item) && n == item.idleTimeout)
      ensures Without(rings[n], item) == rings[n]
    {
      WithoutAbsent(rings[n], item);
    }
    if Carries(rings, item) {
      var m := item.idleTimeout;
      Ends(lists[m], rings[m]);
      WithoutAt(rings[m], IndexOf(rings[m], item));
    }
    forall x | x in items {
      DetachedCarries(rings, item, x);
    }
  }

  /** The nodes whose links `L.remove(item)` writes. */
  ghost function Touched(item: Item): set<Item>
    reads item`next, item`prev
  {
    {item} + Node(item.next) + Node(item.prev)
  }

  /** Removing `item` writes only to its own ring: every other ring and every other free item is
      out of reach. */
  lemma OutOfReach(lists: Lists, rings: Rings, heads: set<Item>, items: set<Item>, item: Item)
    requires Shape(lists, rings, heads, items) && item in items
    ensures Touched(item) <= items + heads
    ensures forall n :: n in lists && !(Carries(rings, item) && n == item.idleTimeout) ==>
              lists[n] !in Touched(item) && forall x :: x in rings[n] ==> x !in Touched(item)
    ensures forall x :: x in items && x != item && !Carries(rings, x) ==> x !in Touched(item)
  {
    hide Ring, Chain, Closed, Distinct;
    if Carries(rings, item) {
      var m := item.idleTimeout;
      var k := IndexOf(rings[m], item);
      Ends(lists[m], rings[m]);
      Neighbours(lists[m], rings[m], k);
    } else if !Unlinked(item) {
      Ends(item, []);
    }
  }

  /** An item on a ring is not linked to itself. */
  lemma SelfLinked(lists: Lists, rings: Rings, heads: set<Item>, items: set<Item>)
    requires Shape(lists, rings, heads, items)
    ensures forall x :: x in items && Carries(rings, x) ==> x.next != x
  {
    forall x | x in items && Carries(rings, x)
      ensures x.next != x
    {
      CarriedIsLinked(lists, rings, heads, items, x);
    }
  }

  /** `L.remove(item)` on the whole system of rings. */
  method Detach(item: Item, ghost lists: Lists, ghost rings: Rings, ghost heads: set<Item>, ghost items: set<Item>)
    requires Shape(lists, rings, heads, items) && item in items
    modifies items`next, items`prev, heads`next, heads`prev
    ensures Unlinked(item) && Shape(lists, Detached(rings, item), heads, items)
    ensures forall x :: x in items && x != item ==> (x.next == x <==> old(x.next == x))
  {
    hide Ring, Chain, Closed, Distinct, Members, Sentinels, Carries, Detached;
    ghost var m := item.idleTimeout;
    ghost var k := if Carries(rings, item) then Index(rings, item) else -1;
    ghost var list, s := if k >= 0 then lists[m] else item, if k >= 0 then rings[m] else [];
    OutOfReach(lists, rings, heads, items, item);
    DetachedRings(lists, rings, heads, items, item);
    SelfLinked(lists, rings, heads, items);
    Remove(item, list, s, k);
    SelfLinked(lists, Detached(rings, item), heads, items);
  }

  /** The rings once `item` has been moved to the least idle end of ring m. */
  ghost function Extended(rings: Rings, m: int, item: Item): Rings
    requires m in rings
  {
    Detached(rings, item)[m := Without(rings[m], item) + [item]]
  }

  lemma ExtendedRings(lists: Lists, rings: Rings, heads: set<Item>, items: set<Item>, m: int, item: Item)
    requires Shape(lists, rings, heads, items) && item in items && m in lists && item.idleTimeout == m
    ensures Extended(rings, m, item).Keys == rings.Keys
    ensures Members(Extended(rings, m, item), items)
    ensures forall n :: n in rings && n != m ==> Extended(rings, m, item)[n] == rings[n]
    ensures Extended(rings, m, item)[m] ==
            (if Carries(rings, item) then Drop(rings[m], Index(rings, item)) else rings[m]) + [item]
    ensures !Carries(rings, item) ==> item !in rings[m]
    ensures forall x :: x in items ==> (Carries(Extended(rings, m, item), x) <==> Carries(rings, x) || x == item)
  {
    hide Ring, Chain, Closed, Distinct;
    DetachedRings(lists, rings, heads, items, item);
    WithoutMembers(rings[m], item);
    forall n | n in rings {
      WithoutMembers(rings[n], item);
    }
  }

  /** `L.append(lists[m], item)` on the whole system of rings. */
  method Attach(item: Item, m: int, lists: Lists, ghost rings: Rings, ghost heads: set<Item>, ghost items: set<Item>)
    requires Shape(lists, rings, heads, items) && item in items && m in lists && item.idleTimeout == m
    modifies items`next, items`prev, heads`next, heads`prev
    ensures Shape(lists, Extended(rings, m, item), heads, items)
    ensures item.next != item && forall x :: x in items && x != item ==> (x.next == x <==> old(x.next == x))
  {
    hide Ring, Chain, Closed, Distinct, Members, Sentinels, Carries, Extended;
    ghost var k := if Carries(rings, item) then Index(rings, item) else -1;
    OutOfReach(lists, rings, heads, items, item);
    ExtendedRings(lists, rings, heads, items, m, item);
    SentinelFacts(lists, rings, heads, items, m);
    Ends(lists[m], rings[m]);
    SelfLinked(lists, rings, heads, items);
    Append(lists[m], item, rings[m], lists[m], rings[m], k);
    SelfLinked(lists, Extended(rings, m, item), heads, items);
  }

  lemma Matched(lists: Lists, rings: Rings, heads: set<Item>, items: set<Item>)
    requires Shape(lists, rings, heads, items)
    ensures lists.Keys == rings.Keys
  {
  }

  lemma RingAt(lists: Lists, rings: Rings, heads: set<Item>, items: set<Item>, m: int)
    requires Shape(lists, rings, heads, items) && m in lists
    ensures Ring(lists[m], rings[m])
  {
    hide Ring;
  }

  lemma SentinelFacts(lists: Lists, rings: Rings, heads: set<Item>, items: set<Item>, m: int)
    requires Shape(lists, rings, heads, items) && m in lists
    ensures lists[m] !in items && lists[m] in heads && m >= 0
    ensures forall n :: n in lists && n != m ==> lists[n] != lists[m]
    ensures forall i :: 0 <= i < |rings[m]| ==> rings[m][i] in items
    ensures forall n, i :: n in lists && n != m && 0 <= i < |rings[n]| ==> rings[n][i] in items && rings[n][i] !in rings[m]
    ensures forall n :: n in lists ==> lists[n] !in rings[m]
    ensures forall x :: x in items && !Carries(rings, x) ==> x !in rings[m]
  {
    hide Ring;
  }

  /** An item that is on a ring has neighbours. */
  lemma CarriedIsLinked(lists: Lists, rings: Rings, heads: set<Item>, items: set<Item>, item: Item)
    requires Shape(lists, rings, heads, items) && item in items && Carries(rings, item)
    ensures item.next != null && item.next != item
  {
    hide Ring;
    var m := item.idleTimeout;
    Ends(lists[m], rings[m]);
    Neighbours(lists[m], rings[m], Index(rings, item));
  }

  lemma FreeIsUnlinked(lists: Lists, rings: Rings, heads: set<Item>, items: set<Item>, item: Item)
    requires Shape(lists, rings, heads, items) && item in items && item.next == null
    ensures Unlinked(item) && !Carries(rings, item)
  {
    if Carries(rings, item) {
      CarriedIsLinked(lists, rings, heads, items, item);
    }
  }

  /** `next` tells the three kinds of items apart. */
  lemma Kinds(lists: Lists, rings: Rings, heads: set<Item>, items: set<Item>, item: Item)
    requires Shape(lists, rings, heads, items) && item in items
    ensures item.next == item <==> Ring(item, [])
    ensures item.next == null <==> Unlinked(item)
    ensures Carries(rings, item) <==> !Unlinked(item) && !Ring(item, [])
    ensures Carries(rings, item) ==> item.idleTimeout in lists && rings[item.idleTimeout] != []
  {
    if Carries(rings, item) {
      CarriedIsLinked(lists, rings, heads, items, item);
    }
  }

  lemma FirstOn(lists: Lists, rings: Rings, heads: set<Item>, items: set<Item>, m: int)
    requires Shape(lists, rings, heads, items) && m in rings && rings[m] != []
    ensures var first := rings[m][0]; first in items && Carries(rings, first) && first.idleTimeout == m
    ensures Detached(rings, rings[m][0])[m] == rings[m][1..]
    ensures rings[m][0] !in rings[m][1..]
  {
    hide Ring;
    Ends(lists[m], rings[m]);
    WithoutAt(rings[m], 0);
    assert Drop(rings[m], 0) == rings[m][1..];
  }

  /** An item on no ring may be given another timeout and linked to itself. */
  method Reset(item: Item, msecs: int, ghost lists: Lists, ghost rings: Rings, ghost heads: set<Item>, ghost items: set<Item>)
    requires Shape(lists, rings, heads, items) && item in items && !Carries(rings, item) && Unlinked(item)
    modifies item`idleTimeout, item`next, item`prev
    ensures Shape(lists, rings, heads, items) && Ring(item, []) && item.idleTimeout == msecs
    ensures !Carries(rings, item)
  {
    hide Ring;
    Elsewhere(lists, rings, heads, items, item);
    item.idleTimeout := msecs;
    Init(item);
  }

  lemma Elsewhere(lists: Lists, rings: Rings, heads: set<Item>, items: set<Item>, item: Item)
    requires Shape(lists, rings, heads, items) && item in items && !Carries(rings, item)
    ensures forall n :: n in rings ==> item !in rings[n]
    ensures forall n :: n in lists ==> lists[n] != item
  {
    hide Ring;
  }

  /** A fresh sentinel starts a new list. */
  lemma NewList(lists: Lists, rings: Rings, heads: set<Item>, items: set<Item>, m: int, list: Item)
    requires Shape(lists, rings, heads, items) && m >= 0 && m !in lists
    requires list !in items && list !in heads && Ring(list, [])
    ensures Shape(lists[m := list], rings[m := []], heads + {list}, items)
  {
    hide Ring;
    var lists', rings' := lists[m := list], rings[m := []];
    forall n | n in lists'
      ensures Ring(lists'[n], rings'[n])
    {
      if n != m {
        RingAt(lists, rings, heads, items, n);
      }
    }
  }
}

/**
  The circular doubly linked list of lib/_linklist.js.

  A list is a sentinel whose `next` and `prev` form a ring with the items.  The most idle item
  sits at `prev` of the sentinel (`Peek`) and `Append` inserts at `next` of the sentinel.  The
  ghost sequence of a ring is written from the most idle item to the least idle one.
 */
module LinkedList {

  /** A JavaScript object carrying `_idleNext` and `_idlePrev`.  The objects are open records in
      the source, so the fields that lib/timers.js hangs on them are declared here as well: the
      idle fields of an item. */
  class Item {
    var next: Item?
    var prev: Item?
    var idleStart: int
    var idleTimeout: int

    constructor ()
      ensures next == null && prev == null && idleTimeout == -1
    {
      next, prev := null, null;
      idleStart, idleTimeout := 0, -1;
    }
  }

  ghost function Node(item: Item?): set<Item> {
    if item == null then {} else {item}
  }

  ghost predicate Distinct(s: seq<Item>) {
    forall i, j :: 0 <= i < j < |s| ==> s[i] != s[j]
  }

  /** Consecutive elements of `s`, the most idle one first, point at each other. */
  ghost predicate Chain(s: seq<Item>)
    reads s`next, s`prev
  {
    forall i, j :: 0 <= i && j == i + 1 && j < |s| ==> s[i].prev == s[j] && s[j].next == s[i]
  }

  /** The two ends of `s` are tied together by the sentinel. */
  ghost predicate Closed(list: Item, s: seq<Item>)
    reads list`next, list`prev, s`next, s`prev
  {
    if s == [] then
      list.prev == list && list.next == list
    else
      && list.prev == s[0] && s[0].next == list
      && list.next == s[|s| - 1] && s[|s| - 1].prev == list
  }

  /** The nodes reachable from `list` are exactly `s`, each once, with `next` and `prev` inverse. */
  ghost predicate Ring(list: Item, s: seq<Item>)
    reads list`next, list`prev, s`next, s`prev
  {
    list !in s && Distinct(s) && Chain(s) && Closed(list, s)
  }

  ghost predicate Unlinked(item: Item)
    reads item`next, item`prev
  {
    item.next == null && item.prev == null
  }

  ghost function IndexOf(s: seq<Item>, x: Item): (k: nat)
    requires x in s
    ensures k < |s| && s[k] == x
  {
    if s[0] == x then 0 else 1 + IndexOf(s[1..], x)
  }

  ghost function Drop(s: seq<Item>, k: nat): (r: seq<Item>)
    requires k < |s|
    ensures |r| == |s| - 1
    ensures forall i :: 0 <= i < |r| ==> r[i] == if i < k then s[i] else s[i + 1]
  {
    s[..k] + s[k + 1..]
  }

  lemma DropDistinct(list: Item, s: seq<Item>, k: nat)
    requires k < |s| && Distinct(s) && list !in s
    ensures Distinct(Drop(s, k)) && list !in Drop(s, k)
  {
  }

  /** What `s` becomes once `x` has left it. */
  ghost function Without(s: seq<Item>, x: Item): (r: seq<Item>)
  {
    if s == [] then []
    else if s[0] == x then Without(s[1..], x)
    else [s[0]] + Without(s[1..], x)
  }

  lemma {:induction false} WithoutMembers(s: seq<Item>, x: Item)
    ensures forall y :: y in s ==> (y in Without(s, x) <==> y != x)
    ensures forall i :: 0 <= i < |Without(s, x)| ==> Without(s, x)[i] in s && Without(s, x)[i] != x
  {
    if s != [] {
      WithoutMembers(s[1..], x);
      assert s == [s[0]] + s[1..];
    }
  }

  lemma {:induction false} WithoutAbsent(s: seq<Item>, x: Item)
    requires x !in s
    ensures Without(s, x) == s
  {
    if s != [] {
      WithoutAbsent(s[1..], x);
    }
  }

  lemma {:induction false} WithoutAt(s: seq<Item>, k: nat)
    requires k < |s| && Distinct(s)
    ensures Without(s, s[k]) == Drop(s, k)
  {
    if k == 0 {
      WithoutAbsent(s[1..], s[0]);
      assert Drop(s, 0) == s[1..];
    } else {
      assert s[1..][k - 1] == s[k] && s[0] != s[k];
      WithoutAt(s[1..], k - 1);
      assert Drop(s, k) == [s[0]] + Drop(s[1..], k - 1);
    }
  }

  /** A ring determines its sequence: two readings of the same heap agree. */
  lemma RingUnique(list: Item, s: seq<Item>, t: seq<Item>)
    requires Ring(list, s) && Ring(list, t)
    ensures s == t
  {
    var n := if |s| <= |t| then |s| else |t|;
    RingPrefix(list, s, t, n);
  }

  lemma {:induction false} RingPrefix(list: Item, s: seq<Item>, t: seq<Item>, n: nat)
    requires Ring(list, s) && Ring(list, t) && n <= |s| && n <= |t|
    ensures s[..n] == t[..n]
    ensures n == |s| <==> n == |t|
  {
    if n > 0 {
      RingPrefix(list, s, t, n - 1);
      if n > 1 {
        assert s[n - 2] == s[..n - 1][n - 2] == t[..n - 1][n - 2] == t[n - 2];
        assert s[n - 2].prev == s[n - 1] && t[n - 2].prev == t[n - 1];
      }
      assert s[n - 1] == t[n - 1];
      assert s[..n] == s[..n - 1] + [s[n - 1]] && t[..n] == t[..n - 1] + [t[n - 1]];
    }
  }

  lemma Neighbours(list: Item, s: seq<Item>, k: nat)
    requires Ring(list, s) && k < |s|
    ensures s[k].next == if k > 0 then s[k - 1] else list
    ensures s[k].prev == if k + 1 < |s| then s[k + 1] else list
  {
  }

  lemma Ends(list: Item, s: seq<Item>)
    requires Ring(list, s)
    ensures list !in s && Distinct(s)
    ensures list.prev == if s == [] then list else s[0]
    ensures list.next == if s == [] then list else s[|s| - 1]
  {
  }

  /** When `s[k]` has been bridged by its two neighbours, the rest is a ring. */
  lemma GapBridged(list: Item, s: seq<Item>, k: nat)
    requires k < |s| && Distinct(s) && list !in s
    requires forall i, j :: 0 <= i && j == i + 1 && j < |s| && i != k && j != k ==> s[i].prev == s[j] && s[j].next == s[i]
    requires 0 < k < |s| - 1 ==> s[k - 1].prev == s[k + 1] && s[k + 1].next == s[k - 1]
    requires Closed(list, Drop(s, k))
    ensures Ring(list, Drop(s, k))
  {
    DropDistinct(list, s, k);
    var r := Drop(s, k);
    forall i, j | 0 <= i && j == i + 1 && j < |r|
      ensures r[i].prev == r[j] && r[j].next == r[i]
    {
      if i >= k {
        assert r[i] == s[i + 1] && r[j] == s[j + 1];
      }
    }
  }

  method Init(list: Item)
    modifies list`next, list`prev
    ensures Ring(list, [])
  {
    list.next := list;
    list.prev := list;
  }

  /** The most idle item, or null. */
  method Peek(list: Item, ghost s: seq<Item>) returns (first: Item?)
    requires Ring(list, s)
    ensures first == if s == [] then null else s[0]
  {
    if list.prev == list {
      return null;
    }
    return list.prev;
  }

  method IsEmpty(list: Item, ghost s: seq<Item>) returns (empty: bool)
    requires Ring(list, s)
    ensures empty <==> s == []
  {
    return list.next == list;
  }

  /** `item` is at position `k` of the ring `s` of `list`, or `k` is -1 and `item` is on no ring:
      untouched, taken off, or initialised by itself. */
  ghost predicate Placed(item: Item, list: Item, s: seq<Item>, k: int)
    reads {item, list}`next, {item, list}`prev, s`next, s`prev
  {
    && -1 <= k < |s|
    && (if k >= 0 then s[k] == item && Ring(list, s) else Unlinked(item) || Ring(item, []))
  }

  /** What is left of `s` when the element at `k`, if any, has gone. */
  ghost function Left(s: seq<Item>, k: int): (r: seq<Item>)
    requires k < |s|
  {
    if k >= 0 then Drop(s, k) else s
  }

  /** Takes `item` off whatever ring it is on. */
  method Remove(item: Item, ghost list: Item, ghost s: seq<Item>, ghost k: int)
    requires Placed(item, list, s, k)
    modifies item`next, item`prev, Node(item.next)`prev, Node(item.prev)`next
    ensures Unlinked(item)
    ensures k >= 0 ==> Ring(list, Drop(s, k))
  {
    if k >= 0 {
      Neighbours(list, s, k);
    }
    if item.next != null {
      item.next.prev := item.prev;
    }
    if item.prev != null {
      item.prev.next := item.next;
    }
    item.next := null;
    item.prev := null;
    if k >= 0 {
      GapBridged(list, s, k);
    }
  }

  /** Takes the most idle item off a list.  On an empty list it is the sentinel itself that is
      taken apart, so the caller has to look first. */
  method Shift(list: Item, ghost s: seq<Item>) returns (first: Item)
    requires Ring(list, s)
    modifies list`next, list`prev, list.prev`next, list.prev`prev, Node(list.prev.prev)`next
    ensures Unlinked(first)
    ensures if s == [] then first == list else first == s[0] && Ring(list, s[1..])
  {
    first := list.prev;
    if s != [] {
      Neighbours(list, s, 0);
      assert Drop(s, 0) == s[1..];
    }
    Remove(first, list, s, if s == [] then -1 else 0);
  }

  /** No node of the ring `o` of `other` is `item` or belongs to the ring `s` of `list`. */
  ghost predicate Apart(other: Item, o: seq<Item>, list: Item, s: seq<Item>, item: Item) {
    && other != list && other != item && other !in s
    && (forall i :: 0 <= i < |o| ==> o[i] != list && o[i] != item && o[i] !in s)
  }

  /** The four assignments of `append` that follow its call of `remove`; `o` is any other ring. */
  method LinkAfterSentinel(list: Item, item: Item, ghost s: seq<Item>, ghost other: Item, ghost o: seq<Item>)
    requires Ring(list, s) && item != list && item !in s
    modifies item`next, item`prev, list`next, list`prev, list.next`prev
    ensures Ring(list, s + [item])
    ensures Apart(other, o, list, s, item) && old(Ring(other, o)) ==> Ring(other, o)
  {
    assert s != [] ==> list.next == s[|s| - 1] && list.next in s;
    item.next := list.next;
    list.next.prev := item;
    item.prev := list;
    list.next := item;
    assert Distinct(s + [item]);
  }

  /** Moves `item` from position `k` of the ring `s` of `from`, or from nowhere when `k` is -1, to
      the least idle end of the ring `t` of `list`. */
  method Append(list: Item, item: Item, ghost t: seq<Item>, ghost from: Item, ghost s: seq<Item>, ghost k: int)
    requires item != list && Ring(list, t) && Placed(item, from, s, k)
    requires if from == list && k >= 0 then s == t else item !in t
    requires from != list && k >= 0 ==> from !in t && forall i :: 0 <= i < |s| ==> s[i] != list && s[i] !in t
    modifies item`next, item`prev, Node(item.next)`prev, Node(item.prev)`next, list`next, list`prev, list.next`prev
    ensures Ring(list, (if from == list then Left(t, k) else t) + [item])
    ensures from != list && k >= 0 ==> Ring(from, Drop(s, k))
  {
    hide Ring, Chain, Closed, Distinct;
    ghost var rest := if from == list then Left(t, k) else t;
    Ends(list, t);
    if k >= 0 {
      Ends(from, s);
      Neighbours(from, s, k);
      DropDistinct(from, s, k);
    } else if !Unlinked(item) {
      Ends(item, []);
    }
    Remove(item, from, s, k);
    Ends(list, rest);
    LinkAfterSentinel(list, item, rest, from, Left(s, k));
  }
}

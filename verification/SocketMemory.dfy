/**
  The memory behind lib/net.js: the pool that all sockets share, and the slices of it that are still
  in use.
 */
module SocketMemory {
  import opened Basics
  import opened TextEncoding

  datatype Slice = Slice(mem: array<Byte>, off: nat, len: nat)

  const POOL_SIZE := 40 * 1024

  /** What each slice that somebody still holds reads as. */
  type Live = map<Slice, seq<Byte>>

  ghost predicate Grown(live: Live, later: Live) {
    forall s :: s in live ==> s in later && later[s] == live[s]
  }

  /** The module's pool. */
  class Memory {
    var pool: array?<Byte>
    var used: nat
    ghost var live: Live

    constructor ()
      ensures Safe() && live == map[]
    {
      pool, used, live := null, 0, map[];
    }

    ghost function Arrays(): set<array<Byte>>
      reads this`live, this`pool
    {
      (set s | s in live :: s.mem) + (if pool == null then {} else {pool})
    }

    /** Every slice in use still reads as it did, and those of the pool lie in its used part. */
    ghost predicate Safe()
      reads this, Arrays()
    {
      && (pool != null ==> used <= pool.Length)
      && forall s :: s in live ==>
           && s.off + s.len <= s.mem.Length
           && s.mem[s.off..s.off + s.len] == live[s]
           && (s.mem == pool ==> s.off + s.len <= used)
    }

    /** Nobody holds on to anything in the pool from `off` on. */
    ghost predicate UnusedFrom(off: nat)
      reads this
    {
      forall s :: s in live && s.mem == pool ==> s.off + s.len <= off
    }

    predicate Roomy()
      reads this
    {
      pool != null && pool.Length - used >= MIN_POOL_SPACE
    }

    /** There is room for another write or read. */
    method Reserve()
      requires Safe()
      modifies this`pool, this`used
      ensures Safe() && Roomy()
      ensures old(Roomy()) <==> old(pool != null && pool.Length - used >= 128)
      ensures if old(Roomy()) then pool == old(pool) && used == old(used)
              else fresh(pool) && pool.Length == 40960 == POOL_SIZE && used == 0
    {
      if pool == null || pool.Length - used < MIN_POOL_SPACE {
        pool := new Byte[POOL_SIZE];
        used := 0;
      }
    }

    /** Puts `bytes` behind what is used.  Nothing in use is touched. */
    method Put(bytes: seq<Byte>)
      requires Safe() && pool != null && used + |bytes| <= pool.Length
      modifies this`used, pool
      ensures Safe() && used == old(used) + |bytes| && UnusedFrom(old(used))
      ensures pool[old(used)..used] == bytes
    {
      var start := used;
      forall i | 0 <= i < |bytes| {
        pool[start + i] := bytes[i];
      }
      used := used + |bytes|;
    }

    /** `buffer.slice`: somebody holds on to a part of the used memory. */
    ghost method Keep(s: Slice)
      requires Safe() && s.off + s.len <= s.mem.Length && (s.mem == pool ==> s.off + s.len <= used)
      modifies this`live
      ensures Safe() && Grown(old(live), live)
      ensures live == old(live)[s := s.mem[s.off..s.off + s.len]]
    {
      live := live[s := s.mem[s.off..s.off + s.len]];
    }

    /** Space at the end of the pool that nobody holds on to is given back. */
    method GiveBack(n: nat)
      requires Safe() && pool != null && n <= used && UnusedFrom(used - n)
      modifies this`used
      ensures Safe() && used == old(used) - n
    {
      used := used - n;
    }

    /** A Buffer of the program's own, which it does not write to as long as it is in use. */
    method NewBuffer(bytes: seq<Byte>) returns (s: Slice)
      requires Safe()
      modifies this`live
      ensures Safe() && Grown(old(live), live) && s in live && live[s] == bytes && s.len == |bytes| && fresh(s.mem)
    {
      var mem := new Byte[|bytes|](i requires 0 <= i < |bytes| => bytes[i]);
      s := Slice(mem, 0, |bytes|);
      assert mem[..] == bytes;
      Keep(s);
    }

    /** How much the next write finds room for. */
    ghost function Room(): (room: nat)
      reads this
      ensures room >= MIN_POOL_SPACE
    {
      if Roomy() then pool.Length - used else POOL_SIZE
    }

    /** `pool.write`: the encoding of as many whole characters as there is room for.  Some are
        written, unless there are none. */
    method WriteText(s: Text, enc: Encoding) returns (k: nat, slice: Slice)
      requires Safe() && Plain(enc, s)
      modifies this`pool, this`used, Current()
      ensures pool == old(pool) || fresh(pool)
      ensures Safe() && pool != null && k <= |s| && (s != [] ==> k > 0)
      ensures k == |s| <==> |Encode(enc, s)| <= old(Room())
      ensures slice.mem == pool && slice.off + slice.len == used && used <= pool.Length && UnusedFrom(slice.off)
      ensures Encode(enc, s) == pool[slice.off..used] + Encode(enc, s[k..]) && (s != [] ==> slice.len > 0)
      ensures pool.Length - slice.off == old(Room())
      ensures if old(Roomy()) then pool == old(pool) && slice.off == old(used) else fresh(pool) && slice.off == 0
    {
      hide Plain, Encode, PoolWrite, Right;
      Reserve();
      PlainIsRight(enc, s, pool.Length - used);
      var stored := PoolWrite(enc, s, pool.Length - used).value;
      k := stored.counted;
      slice := Slice(pool, used, |stored.bytes|);
      Put(stored.bytes);
    }

    ghost function Current(): set<array<Byte>>
      reads this`pool
    {
      if pool == null then {} else {pool}
    }

    /** The kernel part of `_onReadable`: some of the bytes that are coming in arrive behind what is
        used, and the reader gets a slice with them. */
    method Read(incoming: seq<Byte>) returns (slice: Slice)
      requires Safe()
      modifies this`pool, this`used, this`live, Current()
      ensures pool == old(pool) || fresh(pool)
      ensures Safe() && Grown(old(live), live) && slice in live && live[slice] <= incoming && slice.len == |live[slice]|
      ensures if old(Roomy()) then pool == old(pool) && slice.off == old(used) else fresh(pool) && slice.off == 0
      ensures slice.mem == pool && used == slice.off + slice.len && (incoming != [] ==> slice.len > 0)
    {
      Reserve();
      var n: nat :| n <= |incoming| && n <= pool.Length - used && (incoming != [] ==> n > 0);
      slice := Slice(pool, used, n);
      Put(incoming[..n]);
      Keep(slice);
    }

    lemma InUse(s: Slice)
      requires Safe() && s in live
      ensures s.off + s.len <= s.mem.Length && s.mem[s.off..s.off + s.len] == live[s]
      ensures s.mem == pool ==> s.off + s.len <= used
    {
    }
  }
}
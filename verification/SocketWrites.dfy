/**
  The write queue of a socket in lib/net.js.  `kernel` stands for the other side of the system
  call: how many bytes it will take the `n`th time that it is asked, or that it fails.  What it has
  taken is `sent`.
 */
module SocketWrites {
  import opened Basics
  import opened TextEncoding
  import opened SocketMemory

  /** An element of `_writeQueue`, with its encoding. */
  datatype Item = Str(s: Text, enc: Encoding) | Chunk(slice: Slice) | EndOfFile

  datatype Outcome = Flushed | NotFlushed | Thrown

  ghost predicate Held(item: Item, live: Live) {
    item.Chunk? ==> item.slice in live && |live[item.slice]| == item.slice.len
  }

  ghost predicate AllHeld(queue: seq<Item>, live: Live) {
    forall i :: 0 <= i < |queue| ==> Held(queue[i], live)
  }

  /** The bytes an element stands for. */
  ghost function Bytes(item: Item, live: Live): seq<Byte>
    requires Held(item, live)
  {
    match item
    case Str(s, enc) => Encode(enc, s)
    case Chunk(slice) => live[slice]
    case EndOfFile => []
  }

  ghost function Pending(queue: seq<Item>, live: Live): seq<Byte>
    requires AllHeld(queue, live)
  {
    if queue == [] then [] else Bytes(queue[0], live) + Pending(queue[1..], live)
  }

  function Length(item: Item): nat {
    match item
    case Str(s, _) => |s|
    case Chunk(slice) => slice.len
    case EndOfFile => 0
  }

  function TotalLength(queue: seq<Item>): nat {
    if queue == [] then 0 else Length(queue[0]) + TotalLength(queue[1..])
  }

  /** `_writeOut` counts the text right, see `CountIsRight`. */
  predicate Counted(item: Item) {
    item.Str? ==> Plain(item.enc, item.s)
  }

  /** All of the element goes out, if there is that much room in the pool and the kernel takes up to
      `n` bytes. */
  predicate Goes(item: Item, room: nat, n: int) {
    match item
    case Str(s, enc) => |Encode(enc, s)| <= room && |Encode(enc, s)| <= n
    case Chunk(slice) => slice.len <= n
    case EndOfFile => true
  }

  /** All of the queue does, one call of the kernel after the other. */
  predicate AllGo(queue: seq<Item>, room: nat, kernel: nat -> int, calls: nat) {
    queue == [] || (Goes(queue[0], room, kernel(calls)) && AllGo(queue[1..], room, kernel, calls + 1))
  }

  lemma EndGoes(room: nat, kernel: nat -> int, calls: nat)
    ensures AllGo([EndOfFile], room, kernel, calls)
  {
    assert [EndOfFile][1..] == [];
  }

  /** ... and nothing follows the end. */
  predicate Orderly(queue: seq<Item>) {
    && (forall i :: 0 <= i < |queue| ==> Counted(queue[i]))
    && (forall i :: 0 <= i < |queue| - 1 ==> !queue[i].EndOfFile?)
  }

  lemma PendingFront(item: Item, queue: seq<Item>, live: Live)
    requires AllHeld(queue, live) && Held(item, live)
    ensures AllHeld([item] + queue, live)
    ensures Pending([item] + queue, live) == Bytes(item, live) + Pending(queue, live)
    ensures TotalLength([item] + queue) == Length(item) + TotalLength(queue)
  {
    assert ([item] + queue)[1..] == queue;
  }

  lemma {:induction false} PendingAppend(queue: seq<Item>, item: Item, live: Live)
    requires AllHeld(queue, live) && Held(item, live)
    ensures Pending(queue + [item], live) == Pending(queue, live) + Bytes(item, live)
    ensures TotalLength(queue + [item]) == TotalLength(queue) + Length(item)
  {
    hide Encode, Bytes;
    if queue == [] {
      assert [item][1..] == [];
    } else {
      assert (queue + [item])[1..] == queue[1..] + [item];
      PendingAppend(queue[1..], item, live);
    }
  }

  /** The queue once `data` has been added to it: a string joins a string of the same encoding. */
  function Added(queue: seq<Item>, data: Item): seq<Item> {
    var last := |queue| - 1;
    if data.Str? && last >= 0 && queue[last].Str? && queue[last].enc == data.enc then
      queue[..last] + [Str(queue[last].s + data.s, data.enc)]
    else
      queue + [data]
  }

  lemma AddedPending(queue: seq<Item>, data: Item, live: Live)
    requires AllHeld(queue, live) && Held(data, live) && (data.Str? && data.enc.Base64? ==> data.s == [])
    ensures AllHeld(Added(queue, data), live)
    ensures Pending(Added(queue, data), live) == Pending(queue, live) + Bytes(data, live)
    ensures TotalLength(Added(queue, data)) == TotalLength(queue) + Length(data)
  {
    hide Pending, TotalLength, Encode;
    var last := |queue| - 1;
    if Added(queue, data) == queue + [data] {
      PendingAppend(queue, data, live);
    } else {
      var front, concat := queue[..last], Str(queue[last].s + data.s, data.enc);
      assert front + [queue[last]] == queue;
      PendingAppend(front, queue[last], live);
      PendingAppend(front, concat, live);
      if data.s == [] {
        NothingEncoded(data.enc);
        assert queue[last].s + data.s == queue[last].s;
      } else {
        EncodeConcat(data.enc, queue[last].s, data.s);
      }
    }
  }

  lemma AddedEnd(queue: seq<Item>, data: Item)
    requires !data.EndOfFile?
    ensures !Ended(Added(queue, data))
  {
  }

  lemma AddedOrderly(queue: seq<Item>, data: Item)
    requires Orderly(queue) && Counted(data) && (queue != [] ==> !queue[|queue| - 1].EndOfFile?)
    ensures Orderly(Added(queue, data))
  {
    hide Plain, Encode;
    var last := |queue| - 1;
    if Added(queue, data) != queue + [data] {
      PlainStays(data.enc, queue[last].s, data.s, 0);
    }
  }

  predicate Ended(queue: seq<Item>) {
    queue != [] && queue[|queue| - 1].EndOfFile?
  }

  /** What has been put in front of the queue leaves it as orderly as it was. */
  ghost predicate SameEnd(queue: seq<Item>, later: seq<Item>) {
    (Orderly(queue) ==> Orderly(later)) && (Ended(later) <==> Ended(queue))
  }

  lemma SameEndFront(item: Item, queue: seq<Item>)
    requires Counted(item) && !item.EndOfFile?
    ensures SameEnd(queue, [item] + queue)
  {
  }

  lemma SameEndChain(queue: seq<Item>, later: seq<Item>, latest: seq<Item>)
    ensures SameEnd(queue, queue)
    ensures SameEnd(queue, later) && SameEnd(later, latest) ==> SameEnd(queue, latest)
  {
  }

  lemma OrderlyRest(queue: seq<Item>)
    requires Orderly(queue) && queue != []
    ensures Orderly(queue[1..]) && Counted(queue[0])
  {
  }

  lemma NothingPending(live: Live)
    ensures AllHeld([], live) && Pending([], live) == [] && TotalLength([]) == 0 && Orderly([])
  {
  }

  lemma EndPending(live: Live)
    ensures AllHeld([EndOfFile], live) && Pending([EndOfFile], live) == [] && TotalLength([EndOfFile]) == 0
  {
    NothingPending(live);
    PendingFront(EndOfFile, [], live);
    assert [EndOfFile] + [] == [EndOfFile];
  }

  lemma GrownSelf(live: Live)
    ensures Grown(live, live)
  {
  }

  lemma {:induction false} PendingGrown(queue: seq<Item>, live: Live, later: Live)
    requires AllHeld(queue, live) && Grown(live, later)
    ensures AllHeld(queue, later) && Pending(queue, later) == Pending(queue, live)
  {
    if queue != [] {
      PendingGrown(queue[1..], live, later);
    }
  }

  class Socket {
    const memory: Memory
    const kernel: nat -> int
    var calls: nat                 // how often the kernel has been asked
    var connecting: bool
    var writable: bool
    var destroyed: bool
    var writeQueue: seq<Item>
    var bufferSize: int
    ghost var sent: seq<Byte>      // what the kernel has taken
    ghost var accepted: seq<Byte>  // the encoding of everything passed to `write`

    constructor (memory: Memory, connecting: bool, kernel: nat -> int)
      ensures this.memory == memory && this.connecting == connecting && this.kernel == kernel
      ensures Valid(memory.live) && Open() && !Failed() && accepted == []
    {
      this.memory, this.connecting, this.kernel, calls := memory, connecting, kernel, 0;
      writable, destroyed := true, false;
      writeQueue, bufferSize := [], 0;
      sent, accepted := [], [];
    }

    /** The last time that it was asked, the kernel failed. */
    predicate Failed()
      reads this`calls
    {
      calls > 0 && kernel(calls - 1) < 0
    }

    /** `write` does not throw. */
    predicate Open()
      reads this`writable, this`writeQueue
    {
      writable && !AtEnd()
    }

    /** What is written goes to the kernel at once. */
    predicate Idle()
      reads this`writable, this`connecting, this`writeQueue
    {
      writable && !connecting && writeQueue == []
    }

    /** Nothing is lost, doubled or out of order. */
    ghost predicate Conserved(live: Live)
      reads this
    {
      AllHeld(writeQueue, live) && sent + Pending(writeQueue, live) == accepted
    }

    ghost predicate Valid(live: Live)
      reads this
    {
      && bufferSize == TotalLength(writeQueue)
      && (!writable ==> writeQueue == [])
      && (destroyed ==> !writable)
      && (connecting && !destroyed ==> writable)
      && Orderly(writeQueue)
      && (Failed() ==> destroyed && sent <= accepted)
      && (!Failed() ==> Conserved(live))
    }

    /** What happens on other sockets does not disturb this one. */
    lemma Undisturbed(live: Live, later: Live)
      requires Valid(live) && Grown(live, later)
      ensures Valid(later)
    {
      if !Failed() {
        PendingGrown(writeQueue, live, later);
      }
    }

    method Destroy()
      requires memory.Safe()
      modifies this`writeQueue, this`bufferSize, this`writable, this`destroyed
      ensures memory.Safe() && destroyed && !writable && writeQueue == [] && bufferSize == 0
    {
      writeQueue, bufferSize := [], 0;
      writable, destroyed := false, true;
    }

    /** `_writeImpl`: the kernel takes the first `n` bytes, or fails and `n` is negative. */
    method WriteImpl(slice: Slice) returns (n: int)
      requires memory.Safe() && slice.off + slice.len <= slice.mem.Length
      modifies this`sent, this`calls
      ensures memory.Safe() && n <= slice.len && calls == old(calls) + 1 && (n < 0 <==> Failed())
      ensures n == kernel(old(calls)) || (n == slice.len < kernel(old(calls)))
      ensures sent == if n < 0 then old(sent) else old(sent) + slice.mem[slice.off..slice.off + n]
    {
      n := if kernel(calls) <= slice.len then kernel(calls) else slice.len;
      calls := calls + 1;
      if n >= 0 {
        sent := sent + slice.mem[slice.off..slice.off + n];
      }
    }

    /** The front element is taken off the queue, and its length off `bufferSize`. */
    method Dequeue()
      requires memory.Safe() && writeQueue != []
      modifies this`writeQueue, this`bufferSize
      ensures memory.Safe() && writeQueue == old(writeQueue)[1..]
      ensures bufferSize == old(bufferSize) - Length(old(writeQueue)[0])
    {
      bufferSize := bufferSize - Length(writeQueue[0]);
      writeQueue := writeQueue[1..];
    }

    method Requeue(item: Item)
      requires memory.Safe()
      modifies this`writeQueue, this`bufferSize
      ensures memory.Safe() && writeQueue == [item] + old(writeQueue) && bufferSize == old(bufferSize) + Length(item)
    {
      bufferSize := bufferSize + Length(item);
      writeQueue := [item] + writeQueue;
    }

    /** What one step has done with `bytes`: they are with the kernel or at the front of the queue,
        unless the socket is destroyed. */
    twostate predicate Passed(bytes: seq<Byte>)
      requires old(AllHeld(writeQueue, memory.live))
      reads this, memory
    {
      && Grown(old(memory.live), memory.live)
      && AllHeld(writeQueue, memory.live)
      && (destroyed <==> Failed())
      && (if destroyed then !writable && writeQueue == [] && bufferSize == 0 && sent == old(sent)
          else
            && writable == old(writable) && SameEnd(old(writeQueue), writeQueue)
            && bufferSize - TotalLength(writeQueue) == old(bufferSize - TotalLength(writeQueue))
            && sent + Pending(writeQueue, memory.live) == old(sent) + bytes + old(Pending(writeQueue, memory.live)))
    }

    /** The kernel has been asked once, to take `len` bytes; it has taken some if it takes any. */
    twostate predicate Asked(len: nat)
      reads this
    {
      calls == old(calls) + 1 && old(sent) <= sent && (kernel(old(calls)) > 0 && len > 0 ==> |sent| > |old(sent)|)
    }

    /** Hands `slice` to the kernel; what the kernel leaves goes to the front of the queue.  Space
        at the end of the pool that nobody else has got hold of is given back. */
    method Offer(slice: Slice, fromPool: bool) returns (done: bool)
      requires memory.Safe() && slice.off + slice.len <= slice.mem.Length && !destroyed
      requires slice.mem == memory.pool ==> slice.off + slice.len <= memory.used
      requires fromPool ==> slice.mem == memory.pool && slice.off + slice.len == memory.used && memory.UnusedFrom(slice.off)
      requires AllHeld(writeQueue, memory.live)
      modifies this`sent, this`calls, this`writeQueue, this`bufferSize, this`writable, this`destroyed, memory`used, memory`live
      ensures memory.Safe() && Passed(old(slice.mem[slice.off..slice.off + slice.len]))
      ensures done ==> !destroyed && writeQueue == old(writeQueue)
      ensures !done ==> destroyed || writeQueue != []
      ensures memory.used == if done && fromPool then slice.off else old(memory.used)
      ensures Asked(slice.len) && (done <==> kernel(old(calls)) >= slice.len)
    {
      hide Memory.Safe, Memory.UnusedFrom, Pending, TotalLength, AllHeld, Grown, SameEnd;
      SameEndChain(writeQueue, [], []);
      ghost var bytes, queue, live := slice.mem[slice.off..slice.off + slice.len], writeQueue, memory.live;
      GrownSelf(live);
      var n := WriteImpl(slice);
      if n < 0 {
        Destroy();
        NothingPending(live);
        return false;
      }
      if n == slice.len {
        if fromPool {
          memory.GiveBack(slice.len);
        }
        return true;
      }
      ghost var part, rest := bytes[..n], bytes[n..];
      assert part == slice.mem[slice.off..slice.off + n] && rest == slice.mem[slice.off + n..slice.off + slice.len];
      PutBack(Slice(slice.mem, slice.off + n, slice.len - n));
      return false;
    }

    /** The memory in `leftOver` is the next thing to write. */
    method PutBack(leftOver: Slice)
      requires memory.Safe() && leftOver.off + leftOver.len <= leftOver.mem.Length && !destroyed && !Failed()
      requires leftOver.mem == memory.pool ==> leftOver.off + leftOver.len <= memory.used
      requires AllHeld(writeQueue, memory.live)
      modifies this`writeQueue, this`bufferSize, memory`live
      ensures memory.Safe() && Passed(leftOver.mem[leftOver.off..leftOver.off + leftOver.len])
      ensures writeQueue != []
    {
      hide Memory.Safe, Pending, TotalLength, AllHeld, Grown, SameEnd;
      ghost var queue, live := writeQueue, memory.live;
      memory.Keep(leftOver);
      PendingGrown(queue, live, memory.live);
      PendingFront(Chunk(leftOver), queue, memory.live);
      SameEndFront(Chunk(leftOver), queue);
      Requeue(Chunk(leftOver));
      ghost var rest, pending := memory.live[leftOver], Pending(queue, live);
      assert sent + (rest + pending) == sent + rest + pending;
    }

    /** The first half of `_writeOut` of a string: what the pool has no room for is queued. */
    method Stage(s: Text, enc: Encoding) returns (slice: Slice, queued: bool)
      requires memory.Safe() && !destroyed && AllHeld(writeQueue, memory.live) && Plain(enc, s)
      modifies this`writeQueue, this`bufferSize, memory`pool, memory`used, memory.Current()
      ensures memory.Safe() && (memory.pool == old(memory.pool) || fresh(memory.pool))
      ensures slice.off + slice.len <= slice.mem.Length
      ensures slice.mem == memory.pool && slice.off + slice.len == memory.used && memory.UnusedFrom(slice.off)
      ensures AllHeld(writeQueue, memory.live) && SameEnd(old(writeQueue), writeQueue)
      ensures bufferSize - TotalLength(writeQueue) == old(bufferSize - TotalLength(writeQueue))
      ensures slice.mem[slice.off..slice.off + slice.len] + Pending(writeQueue, memory.live)
              == Encode(enc, s) + old(Pending(writeQueue, memory.live))
      ensures if queued then writeQueue != [] else writeQueue == old(writeQueue)
      ensures old(memory.Roomy()) ==> memory.pool == old(memory.pool) && slice.off == old(memory.used)
      ensures queued <==> |Encode(enc, s)| > old(memory.Room())
      ensures (if queued then slice.len > 0 else slice.len == |Encode(enc, s)|)
      ensures slice.mem.Length - slice.off == old(memory.Room())
    {
      hide Memory.Safe, Memory.Room, Pending, TotalLength, AllHeld, Grown, Memory.UnusedFrom, SameEnd, Encode, Plain;
      ghost var queue := writeQueue;
      ghost var pending := Pending(queue, memory.live);
      SameEndChain(queue, [], []);
      queued := false;
      var charsWritten;
      charsWritten, slice := memory.WriteText(s, enc);
      PlainStays(enc, s, [], charsWritten);
      NothingEncoded(enc);
      Reassociate(slice.mem[slice.off..slice.off + slice.len], Encode(enc, s[charsWritten..]), pending);
      if charsWritten != |s| {
        PendingFront(Str(s[charsWritten..], enc), queue, memory.live);
        SameEndFront(Str(s[charsWritten..], enc), queue);
        Requeue(Str(s[charsWritten..], enc));
        queued := true;
      }
    }

    /** `_writeOut` of a string, by way of the pool; a text that goes out at once costs no space. */
    method WriteText(s: Text, enc: Encoding) returns (flushed: bool)
      requires memory.Safe() && !destroyed && AllHeld(writeQueue, memory.live) && Plain(enc, s)
      modifies this`sent, this`calls, this`writeQueue, this`bufferSize, this`writable, this`destroyed
      modifies memory`pool, memory`used, memory`live, memory.Current()
      ensures memory.Safe() && Passed(Encode(enc, s))
      ensures memory.pool == old(memory.pool) || fresh(memory.pool)
      ensures flushed ==> !destroyed && writeQueue == old(writeQueue)
      ensures !flushed ==> destroyed || writeQueue != []
      ensures flushed && old(memory.Roomy()) ==> memory.pool == old(memory.pool) && memory.used == old(memory.used)
      ensures flushed ==> memory.Room() == old(memory.Room())
      ensures flushed <==> old(Goes(Str(s, enc), memory.Room(), kernel(calls)))
      ensures Asked(if flushed then 0 else 1)
    {
      hide Memory.Safe, Pending, TotalLength, AllHeld, Grown, Memory.UnusedFrom, SameEnd, Encode, Plain;
      ghost var queue := writeQueue;
      var slice, queued := Stage(s, enc);
      ghost var later, bytes := writeQueue, slice.mem[slice.off..slice.off + slice.len];
      ghost var pending := Pending(later, memory.live);
      assert sent + (bytes + pending) == sent + bytes + pending;
      var done := Offer(slice, true);
      SameEndChain(queue, later, writeQueue);
      flushed := done && !queued;
    }

    /** `_writeOut`, which throws when the socket is not writable. */
    method WriteOut(data: Item) returns (r: Outcome)
      requires memory.Safe() && !destroyed && AllHeld(writeQueue, memory.live)
      requires Held(data, memory.live) && Counted(data) && !data.EndOfFile?
      modifies this`sent, this`calls, this`writeQueue, this`bufferSize, this`writable, this`destroyed
      modifies memory`pool, memory`used, memory`live, memory.Current()
      ensures memory.Safe() && (memory.pool == old(memory.pool) || fresh(memory.pool))
      ensures r == Thrown <==> !old(writable)
      ensures r == Thrown ==> unchanged(this) && unchanged(memory)
      ensures r != Thrown ==> Passed(old(Bytes(data, memory.live)))
      ensures r == Flushed ==> !destroyed && writeQueue == old(writeQueue) && memory.Room() == old(memory.Room())
      ensures r == NotFlushed ==> destroyed || writeQueue != []
      ensures r == Flushed <==> old(writable && Goes(data, memory.Room(), kernel(calls)))
      ensures r != Thrown ==> Asked(if r == Flushed then 0 else 1)
    {
      hide Memory.Safe, Pending, TotalLength, AllHeld, Grown, Plain, Encode;
      if !writable {
        return Thrown;
      }
      var flushed;
      match data
      case Str(s, enc) =>
        flushed := WriteText(s, enc);
        r := if flushed then Flushed else NotFlushed;
      case Chunk(slice) =>
        memory.InUse(slice);
        flushed := Offer(slice, false);
        r := if flushed then Flushed else NotFlushed;
    }

    predicate AtEnd()
      reads this`writeQueue
    {
      Ended(writeQueue)
    }

    ghost method Accept(bytes: seq<Byte>)
      requires memory.Safe()
      modifies this`accepted
      ensures memory.Safe() && accepted == old(accepted) + bytes
    {
      accepted := accepted + bytes;
    }

    /** The slow path of `write`: there is a queue already, or no connection yet. */
    method Enqueue(data: Item)
      requires memory.Safe() && Valid(memory.live) && !destroyed && writable && !AtEnd()
      requires Held(data, memory.live) && Counted(data)
      modifies this`writeQueue, this`bufferSize, this`accepted
      ensures memory.Safe() && Valid(memory.live)
      ensures accepted == old(accepted) + Bytes(data, memory.live)
      ensures writeQueue == Added(old(writeQueue), data) && bufferSize == old(bufferSize) + Length(data)
    {
      hide Pending, TotalLength, Orderly, Encode;
      AddedPending(writeQueue, data, memory.live);
      AddedOrderly(writeQueue, data);
      bufferSize := bufferSize + Length(data);
      var last := |writeQueue| - 1;
      if data.Str? && writeQueue != [] && writeQueue[last].Str? && writeQueue[last].enc == data.enc {
        writeQueue := writeQueue[..last] + [Str(writeQueue[last].s + data.s, data.enc)];
      } else {
        writeQueue := writeQueue + [data];
      }
      accepted := accepted + Bytes(data, memory.live);
    }

    /** `write`.  What it takes, it takes as a whole; it throws on a socket that has been ended. */
    method Write(data: Item) returns (r: Outcome)
      requires memory.Safe() && Valid(memory.live) && !destroyed
      requires Held(data, memory.live) && Counted(data) && !data.EndOfFile?
      modifies this`sent, this`calls, this`writeQueue, this`bufferSize, this`writable, this`destroyed, this`accepted
      modifies memory`pool, memory`used, memory`live, memory.Current()
      ensures memory.Safe() && Valid(memory.live) && Grown(old(memory.live), memory.live)
      ensures memory.pool == old(memory.pool) || fresh(memory.pool)
      ensures r == Thrown <==> !old(Open())
      ensures accepted == if r == Thrown then old(accepted) else old(accepted) + old(Bytes(data, memory.live))
      ensures r == Flushed ==> !destroyed && writeQueue == [] && sent == accepted
      ensures r == NotFlushed ==> destroyed || connecting || writeQueue != []
      ensures (destroyed <==> Failed()) && (!destroyed ==> writable == old(writable) && AtEnd() == old(AtEnd()))
      ensures r == Flushed <==> old(Idle() && Goes(data, memory.Room(), kernel(calls)))
      ensures r == NotFlushed && !old(Idle()) ==>
                bufferSize == old(bufferSize) + if data.Str? then |data.s| else data.slice.len
      ensures if old(Idle()) then Asked(if r == Flushed then 0 else 1) else calls == old(calls) && sent == old(sent)
    {
      hide Memory.Safe, TotalLength, Pending, Orderly, Encode, Plain;
      GrownSelf(memory.live);
      if connecting || writeQueue != [] {
        if writeQueue != [] && writeQueue[|writeQueue| - 1].EndOfFile? {
          return Thrown;
        }
        AddedEnd(writeQueue, data);
        Enqueue(data);
        return NotFlushed;
      }
      ghost var bytes := Bytes(data, memory.live);
      NothingPending(memory.live);
      r := WriteOut(data);
      if r != Thrown {
        Accept(bytes);
        NothingPending(memory.live);
      }
    }

    /** `_shutdown`: the end has been reached.  A socket that cannot be read either is destroyed. */
    method Shutdown(readable: bool)
      requires memory.Safe() && writable && writeQueue == [] && !destroyed && !connecting
      modifies this`writeQueue, this`bufferSize, this`writable, this`destroyed
      ensures memory.Safe() && !writable && writeQueue == [] && destroyed == !readable
      ensures old(bufferSize) == 0 ==> bufferSize == 0
    {
      if readable {
        writable := false;
      } else {
        Destroy();
      }
    }

    /** The connection stands. */
    method Connected()
      requires memory.Safe() && Valid(memory.live)
      modifies this`connecting
      ensures memory.Safe() && Valid(memory.live) && !connecting
    {
      connecting := false;
    }

    method PushEnd()
      requires memory.Safe() && Valid(memory.live) && !destroyed && writable && !AtEnd()
      modifies this`writeQueue
      ensures memory.Safe() && Valid(memory.live) && writeQueue == old(writeQueue) + [EndOfFile]
    {
      hide Pending, TotalLength;
      PendingAppend(writeQueue, EndOfFile, memory.live);
      writeQueue := writeQueue + [EndOfFile];
    }

    /** One turn of `flush`: the front element is passed on. */
    method FlushOne() returns (r: Outcome)
      requires memory.Safe() && Valid(memory.live) && !connecting && writeQueue != [] && !writeQueue[0].EndOfFile?
      modifies this`sent, this`calls, this`writeQueue, this`bufferSize, this`writable, this`destroyed
      modifies memory`pool, memory`used, memory`live, memory.Current()
      ensures memory.Safe() && Valid(memory.live) && Grown(old(memory.live), memory.live)
      ensures memory.pool == old(memory.pool) || fresh(memory.pool)
      ensures r == Flushed ==> !destroyed && writeQueue == old(writeQueue)[1..]
      ensures r == Thrown ==> !old(writable)
      ensures r == NotFlushed ==> destroyed || writeQueue != []
      ensures (destroyed <==> Failed()) && (!destroyed ==> writable && AtEnd() == old(AtEnd()))
      ensures r == Flushed <==> old(Goes(writeQueue[0], memory.Room(), kernel(calls)))
      ensures r == Flushed ==> memory.Room() == old(memory.Room())
      ensures Asked(if r == Flushed then 0 else 1)
    {
      hide Memory.Safe, Orderly, Pending, TotalLength, Encode, Plain, Goes;
      var data := writeQueue[0];
      OrderlyRest(writeQueue);
      assert Ended(writeQueue) == Ended(writeQueue[1..]);
      assert [data] + writeQueue[1..] == writeQueue;
      PendingFront(data, writeQueue[1..], memory.live);
      Dequeue();
      r := WriteOut(data);
      NothingPending(memory.live);
    }

    /** `flush`: true once everything that was queued is with the kernel, which is so if and only if
        every text fits and the kernel takes all that it is offered; false while something is left.
        Even then the kernel has been asked, and if it takes something every time, more is sent. */
    method Flush(readable: bool) returns (flushed: bool)
      requires memory.Safe() && Valid(memory.live) && !connecting
      modifies this`sent, this`calls, this`writeQueue, this`bufferSize, this`writable, this`destroyed
      modifies memory`pool, memory`used, memory`live, memory.Current()
      ensures memory.Safe() && Valid(memory.live) && Grown(old(memory.live), memory.live)
      ensures memory.pool == old(memory.pool) || fresh(memory.pool)
      ensures flushed && !old(destroyed) ==> writeQueue == [] && sent == accepted
      ensures flushed && old(AtEnd()) ==> !writable && destroyed == !readable
      ensures !flushed ==> destroyed || writeQueue != []
      ensures !Failed() ==> Open() == old(Open()) && (!flushed ==> writable == old(writable) && AtEnd() == old(AtEnd()))
      ensures !old(AtEnd()) && !Failed() ==> destroyed == old(destroyed)
      ensures flushed <==> old(AllGo(writeQueue, memory.Room(), kernel, calls))
      ensures old(calls) <= calls && old(sent) <= sent && (!flushed ==> calls > old(calls))
      ensures !flushed && Taking(old(calls)) ==> |sent| > |old(sent)|
    {
      hide Memory.Safe, Memory.Room, Goes, Encode, Plain, Pending, TotalLength;
      GrownSelf(memory.live);
      while writeQueue != []
        invariant memory.Safe() && Valid(memory.live) && Grown(old(memory.live), memory.live)
        invariant memory.pool == old(memory.pool) || fresh(memory.pool)
        invariant destroyed == old(destroyed) && writable == old(writable) && AtEnd() == old(AtEnd())
        invariant old(calls) <= calls && old(sent) <= sent
        invariant AllGo(writeQueue, memory.Room(), kernel, calls) == old(AllGo(writeQueue, memory.Room(), kernel, calls))
        decreases |writeQueue|
      {
        if writeQueue[0].EndOfFile? {
          assert writeQueue == [EndOfFile];
          EndPending(memory.live);
          NothingPending(memory.live);
          EndGoes(memory.Room(), kernel, calls);
          Dequeue();
          Shutdown(readable);
          return true;
        }
        var r := FlushOne();
        if r != Flushed {
          return false;
        }
      }
      NothingPending(memory.live);
      return true;
    }

    /** Every time since the `first` that it was asked, the kernel took something. */
    predicate Taking(first: nat)
      reads this`calls
    {
      forall n :: first <= n < calls ==> kernel(n) > 0
    }

    /** `_onWritable` runs whenever the kernel is ready again.  If it takes something every time that
        it is asked, be it a byte, then in the end everything that was accepted has been sent. */
    method Drain(readable: bool)
      requires memory.Safe() && Valid(memory.live) && !connecting && !destroyed
      requires forall n :: calls <= n ==> kernel(n) > 0
      modifies this`sent, this`calls, this`writeQueue, this`bufferSize, this`writable, this`destroyed
      modifies memory`pool, memory`used, memory`live, memory.Current()
      ensures memory.Safe() && Valid(memory.live) && !Failed()
      ensures writeQueue == [] && sent == accepted && (old(AtEnd()) ==> !writable)
    {
      hide Memory.Safe, Orderly, Conserved, AllGo;
      var flushed := Flush(readable);
      while !flushed
        invariant memory.Safe() && Valid(memory.live) && old(calls) <= calls && (calls > old(calls) || !Failed())
        invariant memory.pool == old(memory.pool) || fresh(memory.pool)
        invariant flushed ==> writeQueue == [] && sent == accepted && (old(AtEnd()) ==> !writable)
        invariant !flushed ==> !destroyed && AtEnd() == old(AtEnd())
        decreases !flushed, |accepted| - |sent|
      {
        SentOf(memory.live);
        flushed := Flush(readable);
        SentOf(memory.live);
      }
    }

    lemma SentOf(live: Live)
      requires Valid(live)
      ensures sent <= accepted
    {
    }

    /** The program makes a Buffer that it means to write here. */
    method OwnBuffer(bytes: seq<Byte>) returns (slice: Slice)
      requires memory.Safe() && Valid(memory.live)
      modifies memory`live
      ensures memory.Safe() && Valid(memory.live) && Grown(old(memory.live), memory.live)
      ensures slice in memory.live && memory.live[slice] == bytes && slice.len == |bytes|
    {
      slice := memory.NewBuffer(bytes);
      Undisturbed(old(memory.live), memory.live);
    }

    /** `_onReadable`: the reader gets a slice of the pool, which stays as it is. */
    method OnReadable(incoming: seq<Byte>) returns (slice: Slice)
      requires memory.Safe() && Valid(memory.live)
      modifies memory`pool, memory`used, memory`live, memory.Current()
      ensures memory.pool == old(memory.pool) || fresh(memory.pool)
      ensures memory.Safe() && Valid(memory.live) && Grown(old(memory.live), memory.live)
      ensures slice in memory.live && memory.live[slice] <= incoming && slice.len == |memory.live[slice]|
      ensures incoming != [] ==> memory.live[slice] != []
    {
      hide Memory.Safe;
      slice := memory.Read(incoming);
      Undisturbed(old(memory.live), memory.live);
    }

    /** `end`.  When the kernel fails on the last write, the socket is gone by the time the end is
        reached, and `_shutdown` throws. */
    method End(data: seq<Item>, readable: bool) returns (r: Outcome)
      requires memory.Safe() && Valid(memory.live) && !destroyed && |data| <= 1
      requires forall i :: 0 <= i < |data| ==> Held(data[i], memory.live) && Counted(data[i]) && !data[i].EndOfFile?
      modifies this`sent, this`calls, this`writeQueue, this`bufferSize, this`writable, this`destroyed, this`accepted
      modifies memory`pool, memory`used, memory`live, memory.Current()
      ensures memory.Safe() && Valid(memory.live) && Grown(old(memory.live), memory.live)
      ensures memory.pool == old(memory.pool) || fresh(memory.pool)
      ensures accepted == old(accepted) + old(if Open() && data != [] then Bytes(data[0], memory.live) else [])
      ensures old(Open() && !connecting) && r == Flushed ==>
                !writable && writeQueue == [] && sent == accepted && destroyed == !readable
      ensures old(Open()) && r != Flushed && !destroyed ==> AtEnd()
      ensures !old(Open()) ==> unchanged(this)
      ensures (r == Thrown ==> Failed()) && (!Failed() ==> !Open())
      ensures old(calls) <= calls && old(sent) <= sent
      ensures old(Open() && !connecting) && writeQueue != [] ==>
                calls > old(calls) && (Taking(old(calls)) ==> |sent| > |old(sent)|)
    {
      hide Memory.Safe, Pending, TotalLength;
      GrownSelf(memory.live);
      r := NotFlushed;
      if writable && !AtEnd() {
        if data != [] {
          r := Write(data[0]);
          if destroyed {
            return Thrown;
          }
        }
        PushEnd();
        r := NotFlushed;
        if !connecting {
          var flushed := Flush(readable);
          r := if flushed then Flushed else NotFlushed;
        }
      }
    }
  }

  /** What can happen to the sockets of a process. */
  datatype Event =
    | WriteText(i: nat, s: Text, enc: Encoding)
    | WriteBuffer(i: nat, bytes: seq<Byte>)
    | Finish(i: nat, s: Text, enc: Encoding, readable: bool)
    | Connect(i: nat, readable: bool)
    | Writable(i: nat, readable: bool)
    | Echo(i: nat, incoming: seq<Byte>)

  ghost predicate AllValid(sockets: seq<Socket>, memory: Memory)
    reads sockets, memory`live
  {
    forall i :: 0 <= i < |sockets| ==> sockets[i].memory == memory && sockets[i].Valid(memory.live)
  }

  predicate Fits(e: Event, n: nat) {
    e.i < n && (e.WriteText? || e.Finish? ==> Plain(e.enc, e.s))
  }

  /** The bytes that an event asks a socket to write. */
  function Offered(e: Event): seq<Byte> {
    match e
    case WriteText(_, s, enc) => Encode(enc, s)
    case WriteBuffer(_, bytes) => bytes
    case Finish(_, s, enc, _) => Encode(enc, s)
    case Connect(_, _) => []
    case Writable(_, _) => []
    case Echo(_, incoming) => incoming
  }

  /** An open socket takes what it is offered as a whole, and another one nothing; of what comes in,
      as much is echoed as has been `read` at once. */
  function Taken(open: bool, e: Event, read: seq<Byte>): seq<Byte> {
    if !open then [] else if e.Echo? then read else Offered(e)
  }

  ghost predicate MayRead(e: Event, read: seq<Byte>) {
    e.Echo? ==> read <= e.incoming && (e.incoming != [] ==> read != [])
  }

  /** What an event does to a socket that is not destroyed. */
  method React(e: Event, socket: Socket) returns (ghost read: seq<Byte>)
    requires socket.memory.Safe() && socket.Valid(socket.memory.live) && !socket.destroyed && Fits(e, e.i + 1)
    modifies socket, socket.memory, socket.memory.Current()
    ensures var m := socket.memory; m.Safe() && socket.Valid(m.live) && Grown(old(m.live), m.live)
    ensures socket.memory.pool == old(socket.memory.pool) || fresh(socket.memory.pool)
    ensures MayRead(e, read)
    ensures socket.accepted == old(socket.accepted) + Taken(old(socket.Open()), e, read)
    ensures !socket.Failed() ==> socket.Open() == (old(socket.Open()) && !e.Finish?)
    ensures !socket.Failed() ==> socket.connecting == (old(socket.connecting) && !e.Connect?)
    ensures old(socket.sent) <= socket.sent && old(socket.calls) <= socket.calls
    ensures old(Asks(ViewOf(socket), e)) && socket.writeQueue != [] ==>
              socket.calls > old(socket.calls) && (socket.Taking(old(socket.calls)) ==> |socket.sent| > |old(socket.sent)|)
  {
    hide Memory.Safe, Socket.Valid, Grown, Encode, AllGo, Goes, Plain;
    var memory := socket.memory;
    ghost var live, before := memory.live, socket.accepted;
    GrownSelf(live);
    NothingWritten(e);
    assert before + [] == before;
    read := if e.Echo? then e.incoming else [];
    match e
    case WriteText(_, s, enc) =>
      var r := socket.Write(Str(s, enc));
    case WriteBuffer(_, bytes) =>
      var slice := socket.OwnBuffer(bytes);
      ghost var later := memory.live;
      var r := socket.Write(Chunk(slice));
      GrownFurther(live, later, memory.live);
    case Finish(_, s, enc, readable) =>
      var r := socket.End(if s == [] then [] else [Str(s, enc)], readable);
    case Connect(_, readable) =>
      socket.Connected();
      var flushed := socket.Flush(readable);
    case Writable(_, readable) =>
      if !socket.connecting {
        var flushed := socket.Flush(readable);
      }
    case Echo(_, incoming) =>
      var slice := socket.OnReadable(incoming);
      ghost var later := memory.live;
      read := later[slice];
      var r := socket.Write(Chunk(slice));
      GrownFurther(live, later, memory.live);
  }

  /** What can be told of a socket; `waiting` means that something is queued. */
  datatype View = View(accepted: seq<Byte>, sent: seq<Byte>, open: bool, failed: bool, destroyed: bool,
                       connecting: bool, waiting: bool, kernel: nat -> int, calls: nat)

  ghost function ViewOf(s: Socket): View
    reads s
  {
    View(s.accepted, s.sent, s.Open(), s.Failed(), s.destroyed, s.connecting, s.writeQueue != [], s.kernel, s.calls)
  }

  ghost function Views(sockets: seq<Socket>): (v: seq<View>)
    reads sockets
    ensures |v| == |sockets| && forall j :: 0 <= j < |sockets| ==> v[j] == ViewOf(sockets[j])
  {
    if sockets == [] then [] else [ViewOf(sockets[0])] + Views(sockets[1..])
  }

  /** The event is an occasion to offer something to the kernel. */
  predicate Asks(v: View, e: Event) {
    match e
    case Connect(_, _) => true
    case Writable(_, _) => !v.connecting
    case Finish(_, _, _, _) => v.open && !v.connecting
    case _ => v.open && !v.connecting && !v.waiting
  }

  /** If something is left, the kernel has been asked; and if it takes something, more is sent. */
  ghost predicate Sends(v: View, w: View) {
    w.waiting ==> w.calls > v.calls && ((forall n :: v.calls <= n < w.calls ==> v.kernel(n) > 0) ==> |w.sent| > |v.sent|)
  }

  ghost predicate Moved(v: View, e: Event, read: seq<Byte>, w: View) {
    && w.accepted == v.accepted + Taken(v.open, e, read)
    && (!w.failed ==> w.open == (v.open && !e.Finish?) && w.connecting == (v.connecting && !e.Connect?))
    && v.sent <= w.sent && v.calls <= w.calls && w.kernel == v.kernel
    && (Asks(v, e) ==> Sends(v, w))
  }

  /** An event moves its socket on, unless that is destroyed, and no other. */
  ghost predicate Moves(before: seq<View>, e: Event, read: seq<Byte>, after: seq<View>) {
    |after| == |before| && forall j :: 0 <= j < |after| ==>
      && (before[j].failed ==> before[j].destroyed) && (before[j].destroyed ==> !before[j].open)
      && if j != e.i || before[j].destroyed then after[j] == before[j] else Moved(before[j], e, read, after[j])
  }

  method Move(e: Event, socket: Socket) returns (ghost read: seq<Byte>)
    requires socket.memory.Safe() && socket.Valid(socket.memory.live) && !socket.destroyed && Fits(e, e.i + 1)
    modifies socket, socket.memory, socket.memory.Current()
    ensures var m := socket.memory; m.Safe() && socket.Valid(m.live) && Grown(old(m.live), m.live)
    ensures socket.memory.pool == old(socket.memory.pool) || fresh(socket.memory.pool)
    ensures MayRead(e, read) && Moved(old(ViewOf(socket)), e, read, ViewOf(socket))
  {
    hide Memory.Safe, Socket.Valid, Grown, Encode, Taken, Plain, MayRead, Asks;
    read := React(e, socket);
  }

  /** One event on one socket; the others take no notice. */
  method Happen(e: Event, sockets: seq<Socket>, memory: Memory) returns (ghost read: seq<Byte>)
    requires forall i, j :: 0 <= i < j < |sockets| ==> sockets[i] != sockets[j]
    requires memory.Safe() && AllValid(sockets, memory) && Fits(e, |sockets|)
    modifies sockets, memory, memory.Current()
    ensures memory.Safe() && AllValid(sockets, memory) && Grown(old(memory.live), memory.live)
    ensures memory.pool == old(memory.pool) || fresh(memory.pool)
    ensures forall j :: 0 <= j < |sockets| && (j != e.i || old(sockets[j].destroyed)) ==> unchanged(sockets[j])
    ensures MayRead(e, read) && Moves(old(Views(sockets)), e, read, Views(sockets))
  {
    hide Memory.Safe, Socket.Valid, Socket.Open, Socket.Failed, Grown, Taken, MayRead, Views, Moved;
    var socket := sockets[e.i];
    ghost var live := memory.live;
    GrownSelf(live);
    DestroyedIsClosed(sockets, memory);
    ClosedTakesNothing(e);
    read := if e.Echo? then e.incoming else [];
    if !socket.destroyed {
      read := Move(e, socket);
    }
    forall j | 0 <= j < |sockets| && j != e.i
      ensures sockets[j].Valid(memory.live)
    {
      sockets[j].Undisturbed(live, memory.live);
    }
  }

  lemma ClosedTakesNothing(e: Event)
    ensures forall read :: Taken(false, e, read) == []
    ensures MayRead(e, if e.Echo? then e.incoming else [])
  {
  }

  lemma DestroyedIsClosed(sockets: seq<Socket>, memory: Memory)
    requires AllValid(sockets, memory)
    ensures forall j :: 0 <= j < |sockets| ==>
      (sockets[j].Failed() ==> sockets[j].destroyed) && (sockets[j].destroyed ==> !sockets[j].Open())
  {
    hide Socket.Valid;
    forall j | 0 <= j < |sockets|
      ensures (sockets[j].Failed() ==> sockets[j].destroyed) && (sockets[j].destroyed ==> !sockets[j].Open())
    {
      ClosedWhenDestroyed(sockets[j], memory.live);
    }
  }

  lemma ClosedWhenDestroyed(socket: Socket, live: Live)
    requires socket.Valid(live)
    ensures socket.destroyed ==> !socket.Open()
    ensures socket.Failed() ==> socket.destroyed
    ensures socket.sent <= socket.accepted && (!socket.Failed() ==> socket.Conserved(live))
  {
  }

  lemma NothingWritten(e: Event)
    ensures e.Finish? && e.s == [] ==> Encode(e.enc, e.s) == []
  {
  }

  /** Whether socket `j` takes what is written after `n` events, unless the kernel fails. */
  predicate StaysOpen(open: bool, events: seq<Event>, j: nat, n: nat)
    requires n <= |events|
  {
    open && forall k :: 0 <= k < n ==> !(events[k].i == j && events[k].Finish?)
  }

  /** What `n` events write to socket `j`. */
  function Written(open: bool, events: seq<Event>, echoed: seq<seq<Byte>>, j: nat, n: nat): seq<Byte>
    requires n <= |echoed| <= |events|
  {
    if n == 0 then []
    else
      Written(open, events, echoed, j, n - 1)
      + if events[n - 1].i == j then Taken(StaysOpen(open, events, j, n - 1), events[n - 1], echoed[n - 1]) else []
  }

  lemma OpenOrWritten(open: bool, events: seq<Event>, echoed: seq<seq<Byte>>, j: nat, n: nat)
    requires n < |echoed| <= |events|
    ensures StaysOpen(open, events, j, n + 1) == (StaysOpen(open, events, j, n) && !(events[n].i == j && events[n].Finish?))
    ensures Written(open, events, echoed, j, n + 1)
            == Written(open, events, echoed, j, n)
               + if events[n].i == j then Taken(StaysOpen(open, events, j, n), events[n], echoed[n]) else []
  {
  }

  lemma {:induction false} WrittenStays(open: bool, events: seq<Event>, echoed: seq<seq<Byte>>, read: seq<Byte>, j: nat, n: nat)
    requires n <= |echoed| < |events|
    ensures Written(open, events, echoed + [read], j, n) == Written(open, events, echoed, j, n)
  {
    if n > 0 {
      WrittenStays(open, events, echoed, read, j, n - 1);
    }
  }

  /** How socket `j` stands after the events that have been followed: it has accepted what `until`
      of them write to it, and these are all unless its kernel has failed. */
  ghost predicate Stands(first: View, now: View, events: seq<Event>, echoed: seq<seq<Byte>>, j: nat, until: nat) {
    && until <= |echoed| <= |events| && now.accepted == first.accepted + Written(first.open, events, echoed, j, until)
    && (!now.failed ==> until == |echoed| && now.open == StaysOpen(first.open, events, j, |echoed|))
  }

  ghost predicate AllStand(first: seq<View>, now: seq<View>, events: seq<Event>, echoed: seq<seq<Byte>>, until: seq<nat>) {
    && |first| == |now| == |until|
    && forall j :: 0 <= j < |now| ==> Stands(first[j], now[j], events, echoed, j, until[j])
  }

  lemma AtFirst(first: seq<View>, events: seq<Event>)
    ensures AllStand(first, first, events, [], seq(|first|, j => 0))
  {
  }

  lemma StandsOn(first: View, v: View, w: View, events: seq<Event>, echoed: seq<seq<Byte>>, read: seq<Byte>, j: nat, until: nat)
    requires |echoed| < |events| && Stands(first, v, events, echoed, j, until)
    requires (v.failed ==> v.destroyed) && (v.destroyed ==> !v.open)
    requires var e := events[|echoed|]; if j != e.i || v.destroyed then w == v else Moved(v, e, read, w)
    ensures Stands(first, w, events, echoed + [read], j, if v.failed then until else |echoed| + 1)
  {
    ClosedTakesNothing(events[|echoed|]);
    WrittenStays(first.open, events, echoed, read, j, until);
    OpenOrWritten(first.open, events, echoed + [read], j, |echoed|);
    hide Taken, Asks, Sends, Written, StaysOpen;
    var bytes, taken := Written(first.open, events, echoed, j, until), Taken(v.open, events[|echoed|], read);
    Reassociate(first.accepted, bytes, taken);
    assert bytes + [] == bytes && v.accepted + [] == v.accepted;
  }

  lemma OneMore(first: seq<View>, before: seq<View>, after: seq<View>, events: seq<Event>, echoed: seq<seq<Byte>>,
                read: seq<Byte>, until: seq<nat>) returns (later: seq<nat>)
    requires |echoed| < |events| && AllStand(first, before, events, echoed, until)
    requires Moves(before, events[|echoed|], read, after)
    ensures AllStand(first, after, events, echoed + [read], later)
  {
    hide Stands, Moved;
    later := seq(|until|, j requires 0 <= j < |until| => if before[j].failed then until[j] else |echoed| + 1);
    forall j | 0 <= j < |after|
      ensures Stands(first[j], after[j], events, echoed + [read], j, later[j])
    {
      StandsOn(first[j], before[j], after[j], events, echoed, read, j, until[j]);
    }
  }

  /** Any run of any number of sockets over one pool, whatever their kernels do: each socket has
      taken all that was written to it until it was ended, in order, up to the event in which its
      kernel failed, if it did (`until[j]` is the number of events that count for socket `j`).  What
      the kernel has taken of that and what is queued make it up, and no slice in use has changed.
      `history` shows event by event that the kernel is asked whenever there is an occasion. */
  method Run(events: seq<Event>, sockets: seq<Socket>, memory: Memory)
    returns (ghost echoed: seq<seq<Byte>>, ghost until: seq<nat>, ghost history: seq<seq<View>>)
    requires forall i, j :: 0 <= i < j < |sockets| ==> sockets[i] != sockets[j]
    requires memory.Safe() && AllValid(sockets, memory)
    requires forall k :: 0 <= k < |events| ==> Fits(events[k], |sockets|)
    modifies sockets, memory, memory.Current()
    ensures memory.Safe() && AllValid(sockets, memory) && Grown(old(memory.live), memory.live)
    ensures |echoed| == |events| && forall k :: 0 <= k < |events| ==> MayRead(events[k], echoed[k])
    ensures |history| == |events| + 1 && history[0] == old(Views(sockets)) && history[|events|] == Views(sockets)
    ensures forall k :: 0 <= k < |events| ==> Moves(history[k], events[k], echoed[k], history[k + 1])
    ensures AllStand(old(Views(sockets)), Views(sockets), events, echoed, until)
    ensures forall j :: 0 <= j < |sockets| ==>
              && sockets[j].sent <= sockets[j].accepted
              && (!sockets[j].Failed() ==> sockets[j].Conserved(memory.live))
  {
    hide Memory.Safe, AllValid, Grown, MayRead, Moves, AllStand, Views, ViewOf, Socket.Failed, Socket.Conserved;
    GrownSelf(memory.live);
    history := [Views(sockets)];
    AtFirst(history[0], events);
    echoed, until := [], seq(|history[0]|, j => 0);
    for k := 0 to |events|
      invariant memory.Safe() && AllValid(sockets, memory) && Grown(old(memory.live), memory.live)
      invariant memory.pool == old(memory.pool) || fresh(memory.pool)
      invariant |echoed| == k && forall i :: 0 <= i < k ==> MayRead(events[i], echoed[i])
      invariant |history| == k + 1 && history[0] == old(Views(sockets)) && history[k] == Views(sockets)
      invariant forall i :: 0 <= i < k ==> Moves(history[i], events[i], echoed[i], history[i + 1])
      invariant AllStand(history[0], history[k], events, echoed, until)
    {
      ghost var live := memory.live;
      ghost var read := Happen(events[k], sockets, memory);
      GrownFurther(old(memory.live), live, memory.live);
      until := OneMore(history[0], history[k], Views(sockets), events, echoed, read, until);
      echoed, history := echoed + [read], history + [Views(sockets)];
    }
    SentOfAccepted(sockets, memory);
  }

  lemma SentOfAccepted(sockets: seq<Socket>, memory: Memory)
    requires AllValid(sockets, memory)
    ensures forall j :: 0 <= j < |sockets| ==>
              && sockets[j].sent <= sockets[j].accepted
              && (!sockets[j].Failed() ==> sockets[j].Conserved(memory.live))
  {
    hide Socket.Valid;
    forall j | 0 <= j < |sockets|
      ensures sockets[j].sent <= sockets[j].accepted && (!sockets[j].Failed() ==> sockets[j].Conserved(memory.live))
    {
      ClosedWhenDestroyed(sockets[j], memory.live);
    }
  }

  lemma GrownFurther(live: Live, later: Live, latest: Live)
    requires Grown(live, later) && Grown(later, latest)
    ensures Grown(live, latest)
  {
  }
}

/**
  One outgoing message of lib/http.js: `write`, `end`, and the choice `_writeRaw` makes between the
  socket and the message's own buffer.

  `Story` tells what a message hands on when nothing else is going on; the class is proved to
  hand on just that.
 */
module OutgoingMessages {
  import opened Basics
  import opened ChunkedFraming

  /** An argument of `write`: a string, or a Buffer. */
  datatype Data = Str(bytes: Bytes) | Buf(bytes: Bytes)

  /** What `_storeHeader` and `addTrailers` decide about a message.  The header ends with CRLF. */
  datatype Plan = Plan(head: Bytes, hasBody: bool, chunked: bool, trailer: seq<Bytes>, last: bool)

  ghost predicate Proper(plan: Plan) {
    plan.head != ""
  }

  /** What a message has handed on so far. */
  datatype Story = Story(started: bool, sent: Bytes, ended: bool)

  const NEW_STORY := Story(false, "", false)

  /** The first bytes a message sends go out behind its header. */
  function Say(plan: Plan, story: Story, bytes: Bytes): (r: Story) {
    story.(started := true, sent := story.sent + (if story.started then "" else plan.head) + bytes)
  }

  function Framed(plan: Plan, data: Bytes): Bytes {
    if plan.chunked then Chunk(data) else data
  }

  function Closing(plan: Plan): Bytes {
    if plan.chunked then LastChunk(plan.trailer) else ""
  }

  function AfterWrite(plan: Plan, story: Story, data: Bytes): Story {
    if !plan.hasBody || data == "" then story else Say(plan, story, Framed(plan, data))
  }

  lemma EndedBy(plan: Plan, story: Story, data: Bytes, end: Option<Data>, direct: bool)
    ensures AfterWrite(plan, story, data).ended == story.ended
    ensures AfterEnd(plan, story, end, direct).ended
  {
  }

  lemma EmptyWrite(plan: Plan, story: Story)
    ensures AfterWrite(plan, story, "") == story
  {
  }

  /** The hot path of `end` is for a first and only string on a message that has the socket. */
  predicate Hot(story: Story, data: Option<Data>, direct: bool) {
    !story.started && data.Some? && data.value.Str? && data.value.bytes != "" && direct
  }

  function AfterEnd(plan: Plan, story: Story, data: Option<Data>, direct: bool): Story {
    var said :=
      if Hot(story, data, direct) then
        Say(plan, story, Framed(plan, data.value.bytes) + Closing(plan))
      else
        Say(plan, if data.None? then story else AfterWrite(plan, story, data.value.bytes), Closing(plan));
    said.(ended := true)
  }

  /** The hot path says what the ordinary path says, except for a message without a body, where
      it sends the data that the ordinary path drops. */
  lemma HotPathAgrees(plan: Plan, story: Story, data: Option<Data>)
    ensures AfterEnd(plan, story, data, true) == AfterEnd(plan, story, data, false)
            <==> plan.hasBody || !Hot(story, data, true)
  {
    if Hot(story, data, true) {
      var bytes := data.value.bytes;
      var hot := AfterEnd(plan, story, data, true).sent;
      var cold := AfterEnd(plan, story, data, false).sent;
      if plan.hasBody {
        assert story.sent + plan.head + (Framed(plan, bytes) + Closing(plan))
            == (story.sent + plan.head + Framed(plan, bytes)) + "" + Closing(plan);
      } else {
        assert |hot| == |cold| + |Framed(plan, bytes)|;
      }
    }
  }

  lemma HotPathExample()
    ensures var plan, data := Plan("H\r\n", false, false, [], false), Some(Str("x"));
            AfterEnd(plan, NEW_STORY, data, true).sent == "H\r\nx" && AfterEnd(plan, NEW_STORY, data, false).sent == "H\r\n"
  {
  }

  /** The message as a sequence of calls: any writes, then `end`. */
  function Telling(plan: Plan, data: seq<Bytes>): Story {
    if data == [] then NEW_STORY else AfterWrite(plan, Telling(plan, data[..|data| - 1]), data[|data| - 1])
  }

  /** A message with a body has sent its header, once, and each piece of data in its frame; or
      nothing at all while there has been no data. */
  predicate Tells(plan: Plan, story: Story, chunks: Bytes) {
    && !story.ended
    && story.sent == (if story.started then plan.head + chunks else "")
    && (!story.started ==> chunks == "")
  }

  /** What the data of a message looks like on the wire: as it is, or in chunks. */
  function Body(plan: Plan, data: seq<Bytes>): Bytes {
    if plan.chunked then Chunks(data) else Flatten(data)
  }

  lemma BodyAppend(plan: Plan, data: seq<Bytes>, last: Bytes)
    ensures Body(plan, data + [last]) == Body(plan, data) + if plan.chunked then Chunk(last) else last
  {
    hide Chunk, Chunks, Flatten;
    ChunksAppend(data, last);
    FlattenAppend(data, last);
  }

  lemma TellsOn(plan: Plan, story: Story, said: Bytes, data: Bytes)
    requires plan.hasBody && Tells(plan, story, said)
    ensures Tells(plan, AfterWrite(plan, story, data), said + if plan.chunked then Chunk(data) else data)
  {
    if data == "" {
      NoChunk();
      assert said + "" == said;
    } else {
      hide Chunk;
      Reassociate(plan.head, said, if plan.chunked then Chunk(data) else data);
    }
  }

  lemma {:induction false} Told(plan: Plan, data: seq<Bytes>)
    requires plan.hasBody
    ensures Tells(plan, Telling(plan, data), Body(plan, data))
  {
    hide AfterWrite, Chunk;
    if data != [] {
      hide Chunks, Tells, Body;
      var n := |data| - 1;
      Told(plan, data[..n]);
      BodyAppend(plan, data[..n], data[n]);
      assert data[..n] + [data[n]] == data;
      TellsOn(plan, Telling(plan, data[..n]), Body(plan, data[..n]), data[n]);
    }
  }

  lemma {:induction false} ChunksAppend(data: seq<Bytes>, last: Bytes)
    ensures Chunks(data + [last]) == Chunks(data) + Chunk(last)
  {
    if data == [] {
      assert [last][1..] == [];
    } else {
      assert (data + [last])[1..] == data[1..] + [last];
      ChunksAppend(data[1..], last);
    }
  }

  function AllData(data: seq<Bytes>, end: Option<Data>): seq<Bytes> {
    if end.Some? then data + [end.value.bytes] else data
  }

  lemma EndOfTelling(plan: Plan, story: Story, said: Bytes)
    requires plan.hasBody && Tells(plan, story, said)
    ensures Say(plan, story, Closing(plan)).sent == plan.head + said + if plan.chunked then LastChunk(plan.trailer) else ""
  {
    hide LastChunk;
    if !story.started {
      assert "" + plan.head == plan.head && plan.head + "" == plan.head;
    }
  }

  lemma ColdEnd(plan: Plan, story: Story, end: Option<Data>)
    ensures AfterEnd(plan, story, end, false).sent
            == Say(plan, if end.None? then story else AfterWrite(plan, story, end.value.bytes), Closing(plan)).sent
  {
    hide Say, AfterWrite, Closing;
  }

  /** By whatever path, a message with a body consists of its header and its data, as it is; or of
      its header, the chunks and the last chunk. */
  lemma MessageBytes(plan: Plan, data: seq<Bytes>, end: Option<Data>, direct: bool)
    requires plan.hasBody
    ensures AfterEnd(plan, Telling(plan, data), end, direct).sent
            == if plan.chunked then plan.head + Chunks(AllData(data, end)) + LastChunk(plan.trailer)
               else plan.head + Flatten(AllData(data, end))
  {
    hide AfterEnd, AfterWrite, Chunk, LastChunk, Chunks, Telling, Tells, Hot, Say, Closing, Body, Flatten;
    var story := Telling(plan, data);
    Told(plan, data);
    HotPathAgrees(plan, story, end);
    ColdEnd(plan, story, end);
    BodyIs(plan, AllData(data, end));
    if end.Some? {
      var last := end.value.bytes;
      BodyAppend(plan, data, last);
      TellsOn(plan, story, Body(plan, data), last);
      EndOfTelling(plan, AfterWrite(plan, story, last), Body(plan, data + [last]));
    } else {
      EndOfTelling(plan, story, Body(plan, data));
    }
  }

  lemma BodyIs(plan: Plan, data: seq<Bytes>)
    ensures Body(plan, data) == if plan.chunked then Chunks(data) else Flatten(data)
    ensures plan.head + Flatten(data) + "" == plan.head + Flatten(data)
  {
    hide Chunks, Flatten;
  }

  /** A message without a body sends its header at the end, and the last chunk if it is chunked;
      what is written is dropped, but for what goes out by the hot path. */
  lemma BodilessBytes(plan: Plan, data: seq<Bytes>, end: Option<Data>, direct: bool)
    requires !plan.hasBody
    ensures Telling(plan, data) == NEW_STORY
    ensures AfterEnd(plan, Telling(plan, data), end, direct).sent
            == plan.head
               + (if direct && end.Some? && end.value.Str? && end.value.bytes != "" then
                    if plan.chunked then Chunk(end.value.bytes) else end.value.bytes
                  else "")
               + if plan.chunked then LastChunk(plan.trailer) else ""
  {
    NothingTold(plan, data);
    hide Chunk, LastChunk, Telling;
    assert "" + plan.head == plan.head && plan.head + "" == plan.head;
    if end.Some? {
      var framed := if plan.chunked then Chunk(end.value.bytes) else end.value.bytes;
      Reassociate(plan.head, framed, if plan.chunked then LastChunk(plan.trailer) else "");
    }
  }

  lemma {:induction false} NothingTold(plan: Plan, data: seq<Bytes>)
    requires !plan.hasBody
    ensures Telling(plan, data) == NEW_STORY
  {
    if data != [] {
      NothingTold(plan, data[..|data| - 1]);
    }
  }

  /** Which a reader turns back into the data, stopping where the message stops. */
  lemma MessageRoundTrip(plan: Plan, data: seq<Bytes>, end: Option<Data>, direct: bool, rest: Bytes)
    requires plan.hasBody && plan.chunked && ProperLines(plan.trailer)
    ensures var sent := AfterEnd(plan, Telling(plan, data), end, direct).sent;
      && plan.head <= sent
      && ReadChunked(sent[|plan.head|..] + rest) == Some(Message(Flatten(AllData(data, end)), plan.trailer, rest))
  {
    hide AfterEnd, LastChunk, Chunks, Telling, ReadChunked, ProperLines, Flatten;
    var sent, all := AfterEnd(plan, Telling(plan, data), end, direct).sent, AllData(data, end);
    MessageBytes(plan, data, end, direct);
    assert sent[|plan.head|..] + rest == Chunks(all) + LastChunk(plan.trailer) + rest;
    ChunkedRoundTrip(all, plan.trailer, rest);
  }

  function Joined(output: seq<Data>): Bytes {
    if output == [] then "" else output[0].bytes + Joined(output[1..])
  }

  lemma {:induction false} JoinedAppend(output: seq<Data>, data: Data)
    ensures Joined(output + [data]) == Joined(output) + data.bytes
  {
    if output == [] {
      assert [data][1..] == [];
    } else {
      assert (output + [data])[1..] == output[1..] + [data];
      JoinedAppend(output[1..], data);
    }
  }

  lemma JoinedFirst(data: Data, output: seq<Data>)
    ensures Joined([data] + output) == data.bytes + Joined(output) && Joined([]) == ""
  {
    assert ([data] + output)[1..] == output;
  }

  lemma Said(before: Bytes, sent: Bytes, head: Bytes, bytes: Bytes)
    ensures before + (sent + head + bytes) == before + sent + (head + bytes) == before + sent + head + bytes
    ensures before + (sent + bytes) == before + sent + bytes
    ensures before + (sent + "" + bytes) == before + sent + bytes
  {
  }

  lemma ChunkAndLast(header: Bytes, bytes: Bytes, trailer: seq<Bytes>)
    requires bytes != ""
    ensures header + Hex(|bytes|) + CRLF + bytes + "\r\n0\r\n" + Trailer(trailer) + CRLF
            == header + (Chunk(bytes) + LastChunk(trailer))
  {
    hide Hex, Trailer;
  }

  /** A connection as this layer sees it; `wire` is everything ever written to it. */
  class Socket {
    var wire: Bytes
    var writable: bool
    var message: OutgoingMessage?

    constructor ()
      ensures wire == "" && writable && message == null
    {
      wire, writable, message := "", true, null;
    }

    method Write(data: Data)
      modifies this`wire
      ensures wire == old(wire) + data.bytes
    {
      wire := wire + data.bytes;
    }
  }

  function Wired(connection: Socket?): set<Socket> {
    if connection == null then {} else {connection}
  }

  class OutgoingMessage {
    const request: int
    const plan: Plan
    var output: seq<Data>
    var header: Bytes
    var headerSent: bool
    var finished: bool
    var connection: Socket?
    ghost var story: Story
    ghost var before: Bytes  // what the wire carried when the message took over

    constructor (request: int, plan: Plan)
      requires Proper(plan)
      ensures this.request == request && this.plan == plan && Valid()
      ensures connection == null && before == "" && output == [] && story == NEW_STORY
    {
      this.request, this.plan := request, plan;
      output, header, headerSent, finished := [], "", false, false;
      connection, story, before := null, NEW_STORY, "";
    }

    /** Nothing is kept back before the header is sent; and what is kept back starts with it. */
    ghost predicate Coherent()
      reads this`output, this`header, this`headerSent, this`finished, this`story
    {
      && Proper(plan)
      && (header == "" || header == plan.head)
      && story.started == headerSent && story.ended == finished
      && (headerSent ==> header == plan.head)
      && (!headerSent ==> output == [] && story.sent == "")
    }

    /** The message owns its connection. */
    predicate Direct()
      reads this`connection, connection
    {
      connection != null && connection.message == this && connection.writable
    }

    /** Where the bytes go, in the order in which they will be on the wire. */
    ghost function Stream(): Bytes
      reads this`connection, this`output, connection
    {
      if Direct() then connection.wire else Joined(output)
    }

    /** The owner of a connection keeps nothing back; without one, everything since the header. */
    ghost predicate Settled()
      reads this`connection, this`output, this`headerSent, connection
    {
      if Direct() then output == [] else headerSent ==> output != []
    }

    /** What the story says has been handed on is on the wire behind `before`, or kept back. */
    ghost predicate Valid()
      reads this, connection
    {
      Coherent() && Settled() && Stream() == before + story.sent
    }

    method Buffer(data: Data)
      modifies this`output
      ensures Joined(output) == Joined(old(output)) + data.bytes
      ensures old(output) != [] || data.bytes != "" ==> output != []
    {
      if data.bytes == "" {
        return;
      }
      var length := |output|;
      if length == 0 || data.Buf? {
        JoinedAppend(output, data);
        output := output + [data];
        return;
      }
      var lastData := output[length - 1];
      JoinedAppend(output[..length - 1], lastData);
      assert output[..length - 1] + [lastData] == output;
      if lastData.Str? {
        JoinedAppend(output[..length - 1], Str(lastData.bytes + data.bytes));
        output := output[..length - 1] + [Str(lastData.bytes + data.bytes)];
        return;
      }
      JoinedAppend(output, data);
      output := output + [data];
    }

    method WriteRaw(data: Data)
      modifies this`output, Wired(connection)`wire
      ensures Direct() ==> connection.wire == old(connection.wire) + Joined(old(output)) + data.bytes && output == []
      ensures !Direct() ==> Joined(output) == Joined(old(output)) + data.bytes
      ensures !Direct() && (old(output) != [] || data.bytes != "") ==> output != []
      ensures !Direct() && connection != null ==> connection.wire == old(connection.wire)
    {
      if connection != null && connection.message == this && connection.writable {
        while output != []
          invariant connection.wire + Joined(output) == old(connection.wire) + Joined(old(output))
        {
          var c := output[0];
          output := output[1..];
          connection.Write(c);
        }
        connection.Write(data);
      } else {
        Buffer(data);
      }
    }

    /** `_send`.  The message's own account of it is the next chapter of its story. */
    method Send(data: Data)
      requires Valid() && header != ""
      modifies this`output, this`headerSent, this`story, Wired(connection)`wire
      ensures Valid() && headerSent
      ensures story == Say(plan, old(story), data.bytes)
      ensures !Direct() && connection != null ==> connection.wire == old(connection.wire)
    {
      JoinedFirst(Str(header), output);
      Said(before, story.sent, header, data.bytes);
      hide Joined;
      var send := data;
      if !headerSent {
        if data.Str? {
          send := Str(header + data.bytes);
        } else {
          output := [Str(header)] + output;
        }
        headerSent := true;
      }
      story := Say(plan, story, data.bytes);
      WriteRaw(send);
    }

    /** The header is settled at the latest by the first `write` or `end`. */
    method ImplicitHeader()
      requires Valid()
      modifies this`header, this`headerSent
      ensures Valid() && header == plan.head && headerSent == old(headerSent)
    {
      if header == "" {
        header, headerSent := plan.head, false;
      }
    }

    method Write(data: Data)
      requires Valid()
      modifies this`output, this`header, this`headerSent, this`story, Wired(connection)`wire
      ensures Valid() && header == plan.head
      ensures story == AfterWrite(plan, old(story), data.bytes)
      ensures !Direct() && connection != null ==> connection.wire == old(connection.wire)
    {
      hide Valid, Direct, Hex;
      ImplicitHeader();
      ValidHeader();
      if !plan.hasBody || data.bytes == "" {
        return;
      }
      if !plan.chunked {
        Send(data);
      } else if data.Str? {
        Send(Str(Hex(|data.bytes|) + CRLF + data.bytes + CRLF));
      } else {
        Send(Str(Hex(|data.bytes|) + CRLF));
        Send(data);
        Send(Str(CRLF));
      }
    }

    lemma ValidHeader()
      requires Valid()
      ensures plan.head != "" && story.started == headerSent && story.ended == finished
    {
    }

    /** The hot path of `end`: header, data and last chunk in one piece, past the buffer. */
    method WriteAtOnce(bytes: Bytes)
      requires Valid() && header != "" && !headerSent && connection != null && Direct() && bytes != ""
      modifies this`headerSent, this`story, Wired(connection)`wire
      ensures Valid() && headerSent
      ensures story == Say(plan, old(story), Framed(plan, bytes) + Closing(plan))
    {
      hide Chunk, LastChunk, Hex, Trailer;
      ChunkAndLast(header, bytes, plan.trailer);
      ghost var rest := Framed(plan, bytes) + Closing(plan);
      assert Say(plan, story, rest).sent == header + rest;
      assert connection.wire == before;
      if plan.chunked {
        var l := Hex(|bytes|);
        connection.Write(Str(header + l + CRLF + bytes + "\r\n0\r\n" + Trailer(plan.trailer) + CRLF));
      } else {
        assert rest == bytes;
        connection.Write(Str(header + bytes));
      }
      hide Framed, Closing;
      headerSent := true;
      story := Say(plan, story, rest);
    }

    /** `end`.  The caller is told whether the message is finished and off the connection: that is
        so exactly when it owned it. */
    method End(data: Option<Data>) returns (finish: bool)
      requires Valid() && !finished
      modifies this`output, this`header, this`headerSent, this`finished, this`story, Wired(connection)`wire
      ensures Valid() && finished
      ensures story == AfterEnd(plan, old(story), data, old(Direct()))
      ensures finish <==> Direct()
      ensures !Direct() && connection != null ==> connection.wire == old(connection.wire)
    {
      ImplicitHeader();
      ValidHeader();
      var hot := !headerSent && data.Some? && data.value.Str? && data.value.bytes != "" && output == [] &&
                 connection != null && connection.writable && connection.message == this;
      assert hot <==> Hot(story, data, Direct());
      if hot {
        WriteAtOnce(data.value.bytes);
      } else {
        EndInTurn(data);
      }
      finished := true;
      story := story.(ended := true);
      finish := output == [] && connection.message == this;
    }

    /** The ordinary path of `end`: the data, then the last chunk or an empty string. */
    method EndInTurn(data: Option<Data>)
      requires Valid() && header == plan.head
      modifies this`output, this`header, this`headerSent, this`story, Wired(connection)`wire
      ensures Valid() && headerSent
      ensures story == Say(plan, if data.None? then old(story) else AfterWrite(plan, old(story), data.value.bytes), Closing(plan))
      ensures !Direct() && connection != null ==> connection.wire == old(connection.wire)
    {
      hide Valid, Direct, AfterWrite;
      ValidHeader();
      EmptyWrite(plan, story);
      if data.Some? && (data.value.Buf? || data.value.bytes != "") {
        Write(data.value);
      }
      if plan.chunked {
        Send(Str("0\r\n" + Trailer(plan.trailer) + CRLF));
      } else {
        Send(Str(""));
      }
    }

    method Flush() returns (finish: bool)
      requires connection != null && connection.message == this && connection.writable
      modifies this`output, Wired(connection)`wire
      ensures connection.wire == old(connection.wire) + Joined(old(output)) && output == []
      ensures finish == finished
    {
      while output != []
        invariant connection.wire + Joined(output) == old(connection.wire) + Joined(old(output))
      {
        var data := output[0];
        output := output[1..];
        connection.Write(data);
      }
      finish := finished;
    }

    /** The message takes the connection over, and what it has kept back goes out. */
    method AssignSocket(socket: Socket) returns (finish: bool)
      requires Valid() && connection == null && socket.message == null && socket.writable && before == ""
      modifies socket`message, socket`wire, this`connection, this`output, this`before
      ensures Valid() && Direct() && connection == socket && before == old(socket.wire)
      ensures finish == finished
    {
      socket.message := this;
      connection := socket;
      before := socket.wire;
      finish := Flush();
    }

    method DetachSocket(socket: Socket)
      requires socket.message == this
      modifies socket`message, this`connection
      ensures socket.message == null && connection == null
    {
      socket.message := null;
      connection := null;
    }
  }
}
/**
  The `Protocol` of lib/_debugger.js: messages with a Content-Length, read from a stream that
  arrives in arbitrary pieces.  A body is an opaque string here.
 */
module DebuggerProtocol {
  import opened Basics

  const CRLF := "\r\n"
  const BLANK_LINE := "\r\n\r\n"

  type Headers = map<string, Option<string>>

  datatype Response = Response(headers: Headers, body: string)

  predicate At(s: string, p: string, i: nat) {
    i + |p| <= |s| && s[i..i + |p|] == p
  }

  /** `s.indexOf(p, from)`. */
  function IndexOf(s: string, p: string, from: nat): (r: Option<nat>)
    ensures r.Some? ==> from <= r.value && At(s, p, r.value)
    ensures r.Some? ==> forall i :: from <= i < r.value ==> !At(s, p, i)
    ensures r.None? ==> forall i :: from <= i ==> !At(s, p, i)
    decreases |s| - from
  {
    if from + |p| > |s| then None
    else if At(s, p, from) then Some(from)
    else IndexOf(s, p, from + 1)
  }

  function Lines(s: string): seq<string> {
    match IndexOf(s, CRLF, 0)
    case None => [s]
    case Some(i) => [s[..i]] + Lines(s[i + 2..])
  }

  function SkipSpaces(s: string): string {
    if s != "" && s[0] == ' ' then SkipSpaces(s[1..]) else s
  }

  /** The first two parts of `line.split(/: +/)`; there may be only one. */
  function KeyValue(line: string): (string, Option<string>) {
    match IndexOf(line, ": ", 0)
    case None => (line, None)
    case Some(i) =>
      var rest := SkipSpaces(line[i + 1..]);
      (line[..i],
       match IndexOf(rest, ": ", 0)
       case None => Some(rest)
       case Some(j) => Some(rest[..j]))
  }

  function AddLines(headers: Headers, lines: seq<string>): Headers
    decreases |lines|
  {
    if lines == [] then headers
    else var (k, v) := KeyValue(lines[0]); AddLines(headers[k := v], lines[1..])
  }

  function HeadersOf(head: string): Headers {
    AddLines(map[], Lines(head))
  }

  /** `+res.headers['Content-Length']`, where None is NaN. */
  function ContentLength(headers: Headers, number: string -> Option<nat>): Option<nat> {
    if "Content-Length" in headers && headers["Content-Length"].Some? then number(headers["Content-Length"].value)
    else None
  }

  // What there is to read.

  datatype Frame = Frame(response: Response, rest: string)

  /** The first message of `raw`, if all of it is there. */
  function First(raw: string, number: string -> Option<nat>): (f: Option<Frame>)
    ensures f.Some? ==> |f.value.rest| < |raw|
  {
    var end := IndexOf(raw, BLANK_LINE, 0);
    if end.None? then
      None
    else
      var headers := HeadersOf(raw[..end.value]);
      var length := ContentLength(headers, number);
      var start := end.value + 4;
      if length.None? || |raw| - start < length.value then None
      else Some(Frame(Response(headers, raw[start..start + length.value]), raw[start + length.value..]))
  }

  /** All complete messages of `raw`, and what follows them. */
  function Drain(raw: string, number: string -> Option<nat>): (r: (seq<Response>, string))
    decreases |raw|
  {
    match First(raw, number)
    case None => ([], raw)
    case Some(f) => var (rs, rest) := Drain(f.rest, number); ([f.response] + rs, rest)
  }

  lemma AtStays(s: string, more: string, p: string, i: nat)
    requires i + |p| <= |s|
    ensures At(s + more, p, i) == At(s, p, i)
  {
    assert (s + more)[i..i + |p|] == s[i..i + |p|];
  }

  lemma IndexOfStays(s: string, more: string, p: string)
    requires IndexOf(s, p, 0).Some?
    ensures IndexOf(s + more, p, 0) == IndexOf(s, p, 0)
  {
    hide At;
    var i := IndexOf(s, p, 0).value;
    AtStays(s, more, p, i) by { AtEnds(s, p, i); }
    forall k: nat | k < i
      ensures !At(s + more, p, k)
    {
      AtEnds(s, p, i);
      AtStays(s, more, p, k);
    }
  }

  lemma AtEnds(s: string, p: string, i: nat)
    requires At(s, p, i)
    ensures i + |p| <= |s|
  {
  }

  /** A message that is complete stays what it is. */
  lemma FirstStays(raw: string, more: string, number: string -> Option<nat>)
    requires First(raw, number).Some?
    ensures var f := First(raw, number).value;
            First(raw + more, number) == Some(Frame(f.response, f.rest + more))
  {
    hide HeadersOf, ContentLength, IndexOf;
    var end := IndexOf(raw, BLANK_LINE, 0).value;
    IndexOfStays(raw, more, BLANK_LINE);
    assert (raw + more)[..end] == raw[..end];
    var length := ContentLength(HeadersOf(raw[..end]), number).value;
    var start := end + 4;
    assert (raw + more)[start..start + length] == raw[start..start + length];
    assert (raw + more)[start + length..] == raw[start + length..] + more;
  }

  /** It does not matter where a stream is cut. */
  lemma {:induction false} DrainInStages(raw: string, more: string, number: string -> Option<nat>)
    ensures var (rs, rest) := Drain(raw, number);
            var (ss, last) := Drain(rest + more, number);
            Drain(raw + more, number) == (rs + ss, last)
    decreases |raw|
  {
    hide First;
    if First(raw, number).Some? {
      var f := First(raw, number).value;
      FirstStays(raw, more, number);
      DrainInStages(f.rest, more, number);
      var (rs, rest) := Drain(f.rest, number);
      var (ss, last) := Drain(rest + more, number);
      assert [f.response] + (rs + ss) == [f.response] + rs + ss;
    } else {
      var (ss, last) := Drain(raw + more, number);
      assert [] + ss == ss;
    }
  }

  // The class.

  datatype State = AtHeaders | AtBody

  class Protocol {
    const number: string -> Option<nat>
    var raw: string
    var headers: Headers
    var state: State
    var contentLength: Option<nat>
    var bodyStartIndex: nat
    var reqSeq: nat
    /** What `onResponse` has been called with. */
    var responses: seq<Response>

    ghost predicate Valid()
      reads this
    {
      && Waiting(raw, number)
      && if state == AtHeaders then IndexOf(raw, BLANK_LINE, 0).None? && headers == map[]
         else Read(raw, number, headers, contentLength, bodyStartIndex)
    }

    constructor (number: string -> Option<nat>)
      ensures Valid() && this.number == number
      ensures raw == "" && responses == [] && reqSeq == 1
    {
      this.number := number;
      responses := [];
      new;
      NewRes("");
    }

    method NewRes(text: string)
      modifies this
      ensures Valid()
      ensures Drained(text, number, old(responses), responses, raw)
      ensures reqSeq == 1
      decreases |text|, 1
    {
      hide Waiting, Read, Drained;
      raw, headers := text, map[];
      state := AtHeaders;
      reqSeq := 1;
      assert text + "" == text;
      Execute("");
    }

    /** The header block has arrived. */
    method ReadHeaders(endHeaderIndex: nat)
      requires IndexOf(raw, BLANK_LINE, 0) == Some(endHeaderIndex) && headers == map[]
      modifies this`headers, this`contentLength, this`bodyStartIndex, this`state
      ensures state == AtBody && Read(raw, number, headers, contentLength, bodyStartIndex)
    {
      hide IndexOf, Lines, KeyValue, ContentLength;
      var lines := Lines(raw[..endHeaderIndex]);
      var i := 0;
      while i < |lines|
        invariant 0 <= i <= |lines|
        invariant AddLines(headers, lines[i..]) == HeadersOf(raw[..endHeaderIndex])
      {
        var (k, v) := KeyValue(lines[i]);
        assert lines[i..][1..] == lines[i + 1..];
        headers := headers[k := v];
        i := i + 1;
      }
      contentLength := ContentLength(headers, number);
      bodyStartIndex := endHeaderIndex + 4;
      state := AtBody;
    }

    /** `json` is `JSON.stringify` of the request, for the number it is given. */
    method Serialize(json: nat -> string) returns (text: string)
      requires Valid()
      modifies this`reqSeq
      ensures Valid()
      ensures reqSeq == old(reqSeq) + 1 && text == Serialized(json(old(reqSeq)))
    {
      var body := json(reqSeq);
      reqSeq := reqSeq + 1;
      text := "Content-Length: " + Decimal(|body|) + "\r\n\r\n" + body;
    }

    /** Read what has arrived.  `NewRes` calls it with nothing, before anything has been read. */
    method Execute(d: string)
      requires Valid() || (state == AtHeaders && headers == map[] && d == "")
      modifies this
      ensures Valid()
      ensures Drained(old(raw) + d, number, old(responses), responses, raw)
      ensures reqSeq == if responses == old(responses) then old(reqSeq) else 1
      decreases |raw| + |d|, 0
    {
      hide IndexOf, Waiting, Read, Drained;
      if state == AtBody {
        ReadStays(raw, d, number, headers, contentLength, bodyStartIndex);
      }
      raw := raw + d;
      if state == AtHeaders {
        var endHeaderIndex := IndexOf(raw, BLANK_LINE, 0);
        if endHeaderIndex.None? {
          NothingThere(raw, number, responses);
          return;
        }
        ReadHeaders(endHeaderIndex.value);
      }
      ReadTells(raw, number, headers, contentLength, bodyStartIndex, responses);
      if contentLength.Some? && |raw| - bodyStartIndex >= contentLength.value {
        ghost var all := raw;
        var body := raw[bodyStartIndex..bodyStartIndex + contentLength.value];
        responses := responses + [Response(headers, body)];
        NewRes(raw[bodyStartIndex + contentLength.value..]);
        OneMore(all, number, old(responses), responses, raw);
      }
    }
  }

  /** Nothing that is complete is left. */
  predicate Waiting(raw: string, number: string -> Option<nat>) {
    First(raw, number).None?
  }

  /** The header block of `raw` has been read, and read right. */
  predicate Read(raw: string, number: string -> Option<nat>, headers: Headers,
                 contentLength: Option<nat>, bodyStartIndex: nat) {
    var end := IndexOf(raw, BLANK_LINE, 0);
    && end.Some?
    && bodyStartIndex == end.value + 4 <= |raw|
    && headers == HeadersOf(raw[..end.value])
    && contentLength == ContentLength(headers, number)
  }

  /** All of `text` has been read that can be. */
  predicate Drained(text: string, number: string -> Option<nat>, before: seq<Response>, after: seq<Response>, raw: string) {
    var (rs, rest) := Drain(text, number);
    after == before + rs && raw == rest
  }

  lemma ReadStays(raw: string, d: string, number: string -> Option<nat>, headers: Headers,
                  contentLength: Option<nat>, bodyStartIndex: nat)
    requires Read(raw, number, headers, contentLength, bodyStartIndex)
    ensures Read(raw + d, number, headers, contentLength, bodyStartIndex)
  {
    hide IndexOf, HeadersOf, ContentLength;
    IndexOfStays(raw, d, BLANK_LINE);
    var end := IndexOf(raw, BLANK_LINE, 0).value;
    assert (raw + d)[..end] == raw[..end];
  }

  lemma NothingThere(raw: string, number: string -> Option<nat>, responses: seq<Response>)
    requires IndexOf(raw, BLANK_LINE, 0).None?
    ensures Waiting(raw, number) && Drained(raw, number, responses, responses, raw)
  {
    hide IndexOf;
    assert responses + [] == responses;
  }

  lemma ReadTells(raw: string, number: string -> Option<nat>, headers: Headers, contentLength: Option<nat>, bodyStartIndex: nat,
                  responses: seq<Response>)
    requires Read(raw, number, headers, contentLength, bodyStartIndex)
    ensures bodyStartIndex <= |raw|
    ensures if contentLength.Some? && |raw| - bodyStartIndex >= contentLength.value
      then First(raw, number) == Some(Frame(Response(headers, raw[bodyStartIndex..bodyStartIndex + contentLength.value]),
                                            raw[bodyStartIndex + contentLength.value..]))
      else Waiting(raw, number) && Drained(raw, number, responses, responses, raw)
  {
    hide IndexOf, HeadersOf, ContentLength;
    assert responses + [] == responses;
  }

  lemma OneMore(raw: string, number: string -> Option<nat>, before: seq<Response>, after: seq<Response>, rest: string)
    requires First(raw, number).Some?
    requires var f := First(raw, number).value; Drained(f.rest, number, before + [f.response], after, rest)
    ensures Drained(raw, number, before, after, rest) && after != before
  {
    hide First;
    var f := First(raw, number).value;
    var (rs, last) := Drain(f.rest, number);
    assert before + [f.response] + rs == before + ([f.response] + rs);
  }

  // Reading what has been written.

  function Decimal(n: nat): (s: string)
    ensures s != "" && forall c :: c in s ==> '0' <= c <= '9'
  {
    (if n < 10 then "" else Decimal(n / 10)) + ['0' + (n % 10) as char]
  }

  function Head(n: nat): string {
    "Content-Length: " + Decimal(n)
  }

  function Serialized(json: string): string {
    Head(|json|) + BLANK_LINE + json
  }

  function Messages(bodies: seq<string>): string {
    if bodies == [] then "" else Serialized(bodies[0]) + Messages(bodies[1..])
  }

  function Answer(body: string): Response {
    Response(map["Content-Length" := Some(Decimal(|body|))], body)
  }

  function Answers(bodies: seq<string>): (rs: seq<Response>)
    ensures |rs| == |bodies| && forall k :: 0 <= k < |bodies| ==> rs[k].body == bodies[k]
  {
    if bodies == [] then [] else [Answer(bodies[0])] + Answers(bodies[1..])
  }

  /** Conversion to a number, which for a decimal numeral is what it says. */
  ghost predicate ReadsDecimals(number: string -> Option<nat>) {
    forall n: nat :: number(Decimal(n)) == Some(n)
  }

  lemma AtBegins(s: string, p: string, i: nat)
    requires p != ""
    ensures At(s, p, i) ==> s[i] == p[0]
  {
    if i + |p| <= |s| {
      assert s[i..i + |p|][0] == s[i];
    }
  }

  lemma IndexOfFirst(s: string, p: string, i: nat)
    requires p != "" && At(s, p, i) && forall k :: 0 <= k < i ==> s[k] != p[0]
    ensures IndexOf(s, p, 0) == Some(i)
  {
    forall k: nat | k < i
      ensures !At(s, p, k)
    {
      AtBegins(s, p, k);
    }
  }

  lemma IndexOfNone(s: string, p: string)
    requires p != "" && p[0] !in s
    ensures IndexOf(s, p, 0) == None
  {
    forall k: nat
      ensures !At(s, p, k)
    {
      AtBegins(s, p, k);
    }
  }

  lemma HeadIsRead(n: nat)
    ensures '\r' !in Head(n)
    ensures HeadersOf(Head(n)) == map["Content-Length" := Some(Decimal(n))]
  {
    var d := Decimal(n);
    var head := Head(n);
    hide IndexOf;
    IndexOfNone(head, CRLF);
    assert head[14..16] == ": ";
    IndexOfFirst(head, ": ", 14);
    assert head[..14] == "Content-Length";
    assert head[15..] == [' '] + d && ([' '] + d)[1..] == d;
    assert d[0] in d;
    assert SkipSpaces(d) == d;
    IndexOfNone(d, ": ");
    assert AddLines(map[], [head]) == map["Content-Length" := Some(d)] by {
      assert [head][1..] == [];
    }
  }

  lemma SerializedFirst(json: string, more: string, number: string -> Option<nat>)
    requires ReadsDecimals(number)
    ensures First(Serialized(json) + more, number) == Some(Frame(Answer(json), more))
  {
    hide IndexOf, HeadersOf, Head;
    var head := Head(|json|);
    var raw := Serialized(json) + more;
    HeadIsRead(|json|);
    assert raw == head + (BLANK_LINE + (json + more));
    assert raw[|head|..|head| + 4] == BLANK_LINE;
    IndexOfFirst(raw, BLANK_LINE, |head|);
    assert raw[..|head|] == head;
    assert raw[|head| + 4..] == json + more;
  }

  /** Every message is delivered once, in order, and nothing else is. */
  lemma {:induction false} MessagesDelivered(bodies: seq<string>, number: string -> Option<nat>)
    requires ReadsDecimals(number)
    ensures Drain(Messages(bodies), number) == (Answers(bodies), "")
  {
    hide First, ReadsDecimals, Serialized, Answer;
    if bodies == [] {
      NothingToRead(number);
    } else {
      SerializedFirst(bodies[0], Messages(bodies[1..]), number);
      MessagesDelivered(bodies[1..], number);
    }
  }

  lemma NothingToRead(number: string -> Option<nat>)
    ensures First("", number).None?
  {
  }

  lemma FurtherDrained(text: string, more: string, number: string -> Option<nat>, before: seq<Response>, after: seq<Response>,
                       raw: string, last: string)
    requires Drained(text, number, [], before, raw)
    requires Drained(raw + more, number, before, after, last)
    ensures Drained(text + more, number, [], after, last)
  {
    hide Drain;
    DrainInStages(text, more, number);
    var (rs, rest) := Drain(text, number);
    assert [] + rs == rs;
  }

  lemma OneChunkMore(chunks: seq<string>, i: nat, number: string -> Option<nat>,
                     before: seq<Response>, after: seq<Response>, raw: string, last: string)
    requires i < |chunks| && Drained(Flatten(chunks[..i]), number, [], before, raw)
    requires Drained(raw + chunks[i], number, before, after, last)
    ensures Drained(Flatten(chunks[..i + 1]), number, [], after, last)
  {
    hide Drained, Flatten;
    FlattenAppend(chunks[..i], chunks[i]);
    assert chunks[..i + 1] == chunks[..i] + [chunks[i]];
    FurtherDrained(Flatten(chunks[..i]), chunks[i], number, before, after, raw, last);
  }

  lemma NothingDrained(number: string -> Option<nat>)
    ensures Drained("", number, [], [], "")
  {
    NothingToRead(number);
  }

  lemma DrainedInAll(text: string, number: string -> Option<nat>, responses: seq<Response>, rest: string)
    requires Drained(text, number, [], responses, rest)
    ensures (responses, rest) == Drain(text, number)
  {
    hide Drain;
    var (rs, last) := Drain(text, number);
    assert [] + rs == rs;
  }

  /** A stream, in whatever pieces it arrives, is read as if it had come at once. */
  method ReadStream(chunks: seq<string>, number: string -> Option<nat>) returns (responses: seq<Response>, rest: string)
    ensures (responses, rest) == Drain(Flatten(chunks), number)
  {
    NothingDrained(number);
    assert Flatten(chunks[..0]) == [];
    hide Drain, Drained, Flatten, Protocol.Valid;
    var protocol := new Protocol(number);
    var i := 0;
    while i < |chunks|
      invariant 0 <= i <= |chunks|
      invariant fresh(protocol) && protocol.Valid() && protocol.number == number
      invariant Drained(Flatten(chunks[..i]), number, [], protocol.responses, protocol.raw)
    {
      ghost var before, raw := protocol.responses, protocol.raw;
      protocol.Execute(chunks[i]);
      OneChunkMore(chunks, i, number, before, protocol.responses, raw, protocol.raw);
      i := i + 1;
    }
    assert chunks[..i] == chunks;
    responses, rest := protocol.responses, protocol.raw;
    DrainedInAll(Flatten(chunks), number, responses, rest);
  }
}

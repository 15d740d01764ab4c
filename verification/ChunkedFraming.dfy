/**
  The chunked transfer coding: what lib/http.js prints, and a reader for it written from
  section 3.6.1 of RFC 2616.  One char of a `Bytes` is one byte.
 */
module ChunkedFraming {
  import opened Basics

  type Bytes = string

  const CRLF := "\r\n"

  // Numbers in base 16.

  const DIGITS := "0123456789abcdef"

  function Digit(d: nat): (c: char)
    requires d < 16
    ensures c != '\r'
  {
    DIGITS[d]
  }

  /** `n.toString(16)` */
  function Hex(n: nat): (s: string)
    ensures s != "" && '\r' !in s
  {
    if n < 16 then [Digit(n)] else Hex(n / 16) + [Digit(n % 16)]
  }

  function DigitValue(c: char): Option<nat> {
    if '0' <= c <= '9' then Some((c - '0') as int)
    else if 'a' <= c <= 'f' then Some((c - 'a') as int + 10)
    else if 'A' <= c <= 'F' then Some((c - 'A') as int + 10)
    else None
  }

  /** chunk-size = 1*HEX */
  function ReadHex(s: string): Option<nat> {
    if s == "" then None
    else
      var d := DigitValue(s[|s| - 1]);
      if d.None? then None
      else if |s| == 1 then d
      else
        var rest := ReadHex(s[..|s| - 1]);
        if rest.None? then None else Some(16 * rest.value + d.value)
  }

  lemma DigitRoundTrip(d: nat)
    requires d < 16
    ensures DigitValue(Digit(d)) == Some(d)
  {
  }

  lemma ReadHexFurther(s: string, d: nat)
    requires d < 16 && s != ""
    ensures ReadHex(s + [Digit(d)]) == if ReadHex(s).None? then None else Some(16 * ReadHex(s).value + d)
  {
    DigitRoundTrip(d);
    hide Digit, DigitValue;
    var t := s + [Digit(d)];
    assert t[..|t| - 1] == s && t[|t| - 1] == Digit(d);
  }

  lemma {:induction false} HexRoundTrip(n: nat)
    ensures ReadHex(Hex(n)) == Some(n)
  {
    hide Digit, DigitValue;
    if n < 16 {
      DigitRoundTrip(n);
    } else {
      HexRoundTrip(n / 16);
      ReadHexFurther(Hex(n / 16), n % 16);
    }
  }

  // Lines.

  /** The position of the first CRLF at or after `i`. */
  function LineEnd(b: Bytes, i: nat): (e: Option<nat>)
    requires i <= |b|
    ensures e.Some? ==> i <= e.value && e.value + 2 <= |b| && b[e.value..e.value + 2] == CRLF
    decreases |b| - i
  {
    if i + 2 > |b| then None
    else if b[i..i + 2] == CRLF then Some(i)
    else LineEnd(b, i + 1)
  }

  /** `line` holds no line break. */
  predicate OneLine(line: Bytes) {
    forall i :: 0 <= i < |line| - 1 ==> !(line[i] == '\r' && line[i + 1] == '\n')
  }

  lemma {:induction false} LineEndOf(line: Bytes, rest: Bytes, i: nat)
    requires OneLine(line) && i <= |line|
    ensures LineEnd(line + CRLF + rest, i) == Some(|line|)
    decreases |line| - i
  {
    var b := line + CRLF + rest;
    if i == |line| {
      assert b[i..i + 2] == CRLF;
    } else {
      assert b[i..i + 2] != CRLF by {
        assert b[i..i + 2] == [b[i], b[i + 1]];
      }
      LineEndOf(line, rest, i + 1);
    }
  }

  /** A text with a line break in it is cut short. */
  lemma {:induction false} LineEndWithin(line: Bytes, rest: Bytes, i: nat, k: nat)
    requires i <= k < |line| - 1 && line[k] == '\r' && line[k + 1] == '\n'
    ensures LineEnd(line + CRLF + rest, i).Some? && LineEnd(line + CRLF + rest, i).value <= k
    decreases k - i
  {
    var b := line + CRLF + rest;
    if i == k {
      assert b[i..i + 2] == [b[i], b[i + 1]] == CRLF;
    } else if b[i..i + 2] != CRLF {
      LineEndWithin(line, rest, i + 1, k);
    }
  }

  // The printer: `write`, and the two ways `end` has of closing a message (lines 606-617, 670-672, 685).

  function Chunk(data: Bytes): Bytes {
    if data == "" then "" else Hex(|data|) + CRLF + data + CRLF
  }

  function Chunks(data: seq<Bytes>): Bytes {
    if data == [] then "" else Chunk(data[0]) + Chunks(data[1..])
  }

  /** `_trailer` (lines 628-645), one line for each header. */
  function Trailer(lines: seq<Bytes>): Bytes {
    if lines == [] then "" else lines[0] + CRLF + Trailer(lines[1..])
  }

  function LastChunk(lines: seq<Bytes>): Bytes {
    "0\r\n" + Trailer(lines) + CRLF
  }

  /** A trailer line can be told from the empty line that ends the message, and is one line. */
  predicate ProperLines(lines: seq<Bytes>) {
    forall i :: 0 <= i < |lines| ==> lines[i] != "" && OneLine(lines[i])
  }

  // The reader.

  datatype Message = Message(body: Bytes, trailer: seq<Bytes>, rest: Bytes)

  /** chunk-data CRLF, and what follows. */
  function TakeChunk(size: nat, b: Bytes): (r: Option<(Bytes, Bytes)>)
    ensures r.Some? ==> |r.value.1| + size + 2 == |b|
  {
    if |b| < size + 2 || b[size..size + 2] != CRLF then None else Some((b[..size], b[size + 2..]))
  }

  lemma TakeChunkOf(data: Bytes, rest: Bytes)
    ensures TakeChunk(|data|, data + CRLF + rest) == Some((data, rest))
  {
    var b := data + CRLF + rest;
    assert b[..|data|] == data && b[|data|..|data| + 2] == CRLF && b[|data| + 2..] == rest;
  }

  /** The first line, and what follows. */
  function TakeLine(b: Bytes): (r: Option<(Bytes, Bytes)>)
    ensures r.Some? ==> |r.value.0| + 2 + |r.value.1| == |b|
  {
    var e := LineEnd(b, 0);
    if e.None? then None else Some((b[..e.value], b[e.value + 2..]))
  }

  lemma TakeLineOf(line: Bytes, rest: Bytes)
    requires OneLine(line)
    ensures TakeLine(line + CRLF + rest) == Some((line, rest))
  {
    var b := line + CRLF + rest;
    LineEndOf(line, rest, 0);
    assert b[..|line|] == line && b[|line| + 2..] == rest;
  }

  lemma TakeLineCutsShort(line: Bytes, rest: Bytes)
    requires !OneLine(line)
    ensures TakeLine(line + CRLF + rest).Some? && |TakeLine(line + CRLF + rest).value.0| < |line|
  {
    var k :| 0 <= k < |line| - 1 && line[k] == '\r' && line[k + 1] == '\n';
    LineEndWithin(line, rest, 0, k);
  }

  /** trailer CRLF: lines up to the first empty one. */
  function ReadTrailer(b: Bytes): (r: Option<Message>)
    decreases |b|
  {
    match TakeLine(b)
    case None => None
    case Some((line, rest)) =>
      if line == "" then Some(Message("", [], rest))
      else
        match ReadTrailer(rest)
        case None => None
        case Some(m) => Some(m.(trailer := [line] + m.trailer))
  }

  /** Chunked-Body = *chunk last-chunk trailer CRLF */
  function ReadChunked(b: Bytes): (r: Option<Message>)
    decreases |b|
  {
    match TakeLine(b)
    case None => None
    case Some((line, rest)) => ReadSized(ReadHex(line), rest)
  }

  function ReadSized(size: Option<nat>, b: Bytes): (r: Option<Message>)
    decreases |b|
  {
    if size.None? then None
    else if size.value == 0 then ReadTrailer(b)
    else
      match TakeChunk(size.value, b)
      case None => None
      case Some((data, rest)) => Prepend(data, ReadChunked(rest))
  }

  function Prepend(data: Bytes, r: Option<Message>): Option<Message> {
    if r.None? then None else Some(r.value.(body := data + r.value.body))
  }

  lemma PrependIsInjective(data: Bytes, r: Option<Message>, body: Bytes, lines: seq<Bytes>, rest: Bytes)
    ensures Prepend(data, r) == Some(Message(data + body, lines, rest)) <==> r == Some(Message(body, lines, rest))
  {
    if r.Some? && data + r.value.body == data + body {
      assert (data + r.value.body)[|data|..] == r.value.body && (data + body)[|data|..] == body;
    }
  }

  /** Reading the trailer gives back its lines and stops where it ends, exactly when they are
      proper lines. */
  lemma {:induction false} TrailerRoundTrip(lines: seq<Bytes>, rest: Bytes)
    ensures ReadTrailer(Trailer(lines) + CRLF + rest) == Some(Message("", lines, rest)) <==> ProperLines(lines)
  {
    hide TakeLine, OneLine;
    var b := Trailer(lines) + CRLF + rest;
    if lines == [] {
      EmptyIsOneLine();
      TakeLineOf("", rest);
      assert b == "" + CRLF + rest;
    } else {
      var line, tail := lines[0], Trailer(lines[1..]) + CRLF + rest;
      assert b == line + CRLF + tail;
      if !OneLine(line) {
        TakeLineCutsShort(line, tail);
      } else {
        TakeLineOf(line, tail);
        TrailerRoundTrip(lines[1..], rest);
        assert lines == [line] + lines[1..];
      }
    }
  }

  lemma ChunkExample()
    ensures Chunk("hello") == "5\r\nhello\r\n" && Hex(0xAF) == "af"
    ensures LastChunk(["a: x"]) == "0\r\na: x\r\n\r\n" && LastChunk([]) == "0\r\n\r\n"
  {
    assert Hex(10) == "a";
    assert Trailer([]) == "";
    assert ["a: x"][1..] == [];
    assert Trailer(["a: x"]) == "a: x\r\n" + "";
  }

  /** A line break in the value of a trailer field makes two lines of it. */
  lemma TrailerExample()
    ensures ReadTrailer(Trailer(["a: x\r\nb"]) + CRLF) != Some(Message("", ["a: x\r\nb"], ""))
  {
    var line := "a: x\r\nb";
    TrailerRoundTrip([line], "");
    assert Trailer([line]) + CRLF + "" == Trailer([line]) + CRLF;
    assert line[4] == '\r' && line[4 + 1] == '\n' && !OneLine(line);
    assert [line][0] == line;
  }

  lemma EmptyIsOneLine()
    ensures OneLine("")
  {
  }

  lemma HexIsOneLine(n: nat)
    ensures OneLine(Hex(n))
  {
    assert forall i :: 0 <= i < |Hex(n)| ==> Hex(n)[i] in Hex(n);
  }

  /** The reader takes one printed chunk and goes on behind it. */
  lemma ReadChunk(data: Bytes, rest: Bytes)
    requires data != ""
    ensures ReadChunked(Chunk(data) + rest) == Prepend(data, ReadChunked(rest))
  {
    hide Hex, ReadHex, TakeLine, OneLine, TakeChunk, Prepend;
    var size, tail := Hex(|data|), data + CRLF + rest;
    HexIsOneLine(|data|);
    HexRoundTrip(|data|);
    assert Chunk(data) + rest == size + CRLF + tail;
    TakeLineOf(size, tail);
    TakeChunkOf(data, rest);
  }

  lemma ReadLastChunk(lines: seq<Bytes>, rest: Bytes)
    ensures ReadChunked(LastChunk(lines) + rest) == ReadTrailer(Trailer(lines) + CRLF + rest)
  {
    hide TakeLine, OneLine, TakeChunk, ReadTrailer;
    var tail := Trailer(lines) + CRLF + rest;
    assert LastChunk(lines) + rest == Hex(0) + CRLF + tail;
    HexIsOneLine(0);
    HexRoundTrip(0);
    TakeLineOf(Hex(0), tail);
  }

  /** Whatever was written chunk by chunk is read back, nothing is taken for the end before the
      last chunk, and the reader stops at the end of the message.  The trailer comes back exactly
      when it consists of proper lines. */
  lemma {:induction false} ChunkedRoundTrip(data: seq<Bytes>, lines: seq<Bytes>, rest: Bytes)
    ensures ReadChunked(Chunks(data) + LastChunk(lines) + rest) == Some(Message(Flatten(data), lines, rest))
            <==> ProperLines(lines)
  {
    hide ReadChunked, ReadTrailer, LastChunk, Chunk, ProperLines, Prepend;
    if data == [] {
      assert Chunks(data) + LastChunk(lines) + rest == LastChunk(lines) + rest;
      ReadLastChunk(lines, rest);
      TrailerRoundTrip(lines, rest);
    } else {
      var tail := Chunks(data[1..]) + LastChunk(lines) + rest;
      ChunkedRoundTrip(data[1..], lines, rest);
      assert Chunks(data) + LastChunk(lines) + rest == Chunk(data[0]) + tail;
      if data[0] == "" {
        NoChunk();
        assert Chunk(data[0]) + tail == tail;
        assert Flatten(data) == Flatten(data[1..]);
      } else {
        ReadChunk(data[0], tail);
        PrependIsInjective(data[0], ReadChunked(tail), Flatten(data[1..]), lines, rest);
        assert Flatten(data) == data[0] + Flatten(data[1..]);
      }
    }
  }

  lemma NoChunk()
    ensures Chunk("") == ""
  {
  }
}

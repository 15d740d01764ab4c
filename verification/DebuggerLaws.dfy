/**
  Messages of the debugger protocol with any number of header fields, such as V8 sends them.
 */
module DebuggerLaws {
  import opened Basics
  import opened DebuggerProtocol

  datatype Field = Field(key: string, value: string)

  /** A field that can be told from its neighbours, and its key from its value. */
  predicate Proper(f: Field) {
    && '\r' !in f.key && ':' !in f.key && '\r' !in f.value
    && IndexOf(f.value, ": ", 0).None? && (f.value != "" ==> f.value[0] != ' ')
  }

  predicate AllProper(fields: seq<Field>) {
    forall i :: 0 <= i < |fields| ==> Proper(fields[i])
  }

  function Line(f: Field): string {
    f.key + ": " + f.value
  }

  /** The lines of the fields, with CRLF between them. */
  function Block(fields: seq<Field>): string
    requires fields != []
  {
    if |fields| == 1 then Line(fields[0]) else Line(fields[0]) + CRLF + Block(fields[1..])
  }

  /** Each key with the last value that it has. */
  function Collected(fields: seq<Field>): Headers {
    if fields == [] then map[]
    else
      var last := fields[|fields| - 1];
      Collected(fields[..|fields| - 1])[last.key := Some(last.value)]
  }

  lemma FieldIsRead(f: Field)
    requires Proper(f)
    ensures KeyValue(Line(f)) == (f.key, Some(f.value)) && '\r' !in Line(f)
    ensures Line(f) != "" && Line(f)[0] != '\r'
  {
    var line, i := Line(f), |f.key|;
    hide IndexOf;
    assert line[i..i + 2] == ": ";
    IndexOfFirst(line, ": ", i);
    assert line[..i] == f.key && line[i + 1..] == " " + f.value && (" " + f.value)[1..] == f.value;
    assert SkipSpaces(f.value) == f.value;
  }

  lemma FirstLine(line: string, rest: string)
    requires '\r' !in line
    ensures Lines(line + CRLF + rest) == [line] + Lines(rest)
    ensures Lines(line) == [line]
  {
    hide IndexOf;
    var s := line + CRLF + rest;
    assert s[|line|..|line| + 2] == CRLF;
    IndexOfFirst(s, CRLF, |line|);
    assert s[..|line|] == line && s[|line| + 2..] == rest;
    IndexOfNone(line, CRLF);
  }

  function LinesOf(fields: seq<Field>): seq<string> {
    if fields == [] then [] else [Line(fields[0])] + LinesOf(fields[1..])
  }

  lemma {:induction false} BlockLines(fields: seq<Field>)
    requires fields != [] && AllProper(fields)
    ensures Lines(Block(fields)) == LinesOf(fields)
  {
    hide Proper, Line, Lines;
    FieldIsRead(fields[0]);
    if |fields| == 1 {
      FirstLine(Line(fields[0]), "");
      assert LinesOf(fields[1..]) == [];
    } else {
      FirstLine(Line(fields[0]), Block(fields[1..]));
      BlockLines(fields[1..]);
    }
  }

  function AddFields(headers: Headers, fields: seq<Field>): Headers
    decreases |fields|
  {
    if fields == [] then headers else AddFields(headers[fields[0].key := Some(fields[0].value)], fields[1..])
  }

  lemma {:induction false} LinesAdded(headers: Headers, fields: seq<Field>)
    requires AllProper(fields)
    ensures AddLines(headers, LinesOf(fields)) == AddFields(headers, fields)
    decreases |fields|
  {
    hide Proper, Line, KeyValue;
    if fields != [] {
      FieldIsRead(fields[0]);
      LinesAdded(headers[fields[0].key := Some(fields[0].value)], fields[1..]);
      assert LinesOf(fields)[1..] == LinesOf(fields[1..]);
    }
  }

  lemma {:induction false} AddedLast(headers: Headers, fields: seq<Field>, f: Field)
    ensures AddFields(headers, fields + [f]) == AddFields(headers, fields)[f.key := Some(f.value)]
    decreases |fields|
  {
    if fields == [] {
      assert (fields + [f])[1..] == [];
    } else {
      assert (fields + [f])[1..] == fields[1..] + [f];
      AddedLast(headers[fields[0].key := Some(fields[0].value)], fields[1..], f);
    }
  }

  lemma {:induction false} AddedIsCollected(fields: seq<Field>)
    ensures AddFields(map[], fields) == Collected(fields)
  {
    if fields != [] {
      var n := |fields| - 1;
      AddedIsCollected(fields[..n]);
      AddedLast(map[], fields[..n], fields[n]);
      assert fields[..n] + [fields[n]] == fields;
    }
  }

  /** Every field of a header block is read, whatever their number. */
  lemma BlockIsRead(fields: seq<Field>)
    requires fields != [] && AllProper(fields)
    ensures HeadersOf(Block(fields)) == Collected(fields)
  {
    hide Proper, Line, Lines, KeyValue;
    BlockLines(fields);
    LinesAdded(map[], fields);
    AddedIsCollected(fields);
  }

  // Where the block ends.

  lemma {:induction false} BlockEnds(fields: seq<Field>, rest: string)
    requires fields != [] && AllProper(fields)
    ensures var s := Block(fields) + BLANK_LINE + rest; IndexOf(s, BLANK_LINE, 0) == Some(|Block(fields)|)
    ensures Block(fields) != "" && Block(fields)[0] != '\r'
  {
    hide Proper, Line, IndexOf;
    var line := Line(fields[0]);
    FieldIsRead(fields[0]);
    if |fields| == 1 {
      var s := line + BLANK_LINE + rest;
      assert s[|line|..|line| + 4] == BLANK_LINE;
      IndexOfFirst(s, BLANK_LINE, |line|);
    } else {
      var others := Block(fields[1..]);
      BlockEnds(fields[1..], rest);
      assert (others + BLANK_LINE + rest)[0] == others[0];
      LineBefore(line, others + BLANK_LINE + rest, |others|);
      assert line + CRLF + (others + BLANK_LINE + rest) == Block(fields) + BLANK_LINE + rest;
    }
  }

  /** One more line in front. */
  lemma LineBefore(line: string, s: string, i: nat)
    requires '\r' !in line && s != "" && s[0] != '\r' && IndexOf(s, BLANK_LINE, 0) == Some(i)
    ensures IndexOf(line + CRLF + s, BLANK_LINE, 0) == Some(|line| + 2 + i)
  {
    hide IndexOf, At;
    var t, n := line + CRLF + s, |line| + 2;
    AtFurther(line, s, i);
    forall k: nat | k < n + i
      ensures !At(t, BLANK_LINE, k)
    {
      if k < n {
        NotBefore(line, s, k);
      } else {
        AtFurther(line, s, k - n);
      }
    }
    FirstIndex(t, BLANK_LINE, n + i);
  }

  lemma AtFurther(line: string, s: string, k: nat)
    ensures At(line + CRLF + s, BLANK_LINE, |line| + 2 + k) == At(s, BLANK_LINE, k)
  {
    var t, n := line + CRLF + s, |line| + 2;
    if k + 4 <= |s| {
      assert t[n + k..n + k + 4] == s[k..k + 4];
    }
  }

  lemma NotBefore(line: string, s: string, k: nat)
    requires '\r' !in line && s != "" && s[0] != '\r' && k < |line| + 2
    ensures !At(line + CRLF + s, BLANK_LINE, k)
  {
    var t := line + CRLF + s;
    if k + 4 <= |t| {
      var u := t[k..k + 4];
      assert u[0] == t[k] && u[2] == t[k + 2];
      if k < |line| {
        assert t[k] == line[k];
      } else if k == |line| {
        assert t[k + 2] == s[0];
      }
    }
  }

  lemma FirstIndex(s: string, p: string, i: nat)
    requires At(s, p, i) && forall k: nat :: k < i ==> !At(s, p, k)
    ensures IndexOf(s, p, 0) == Some(i)
  {
  }

  /** A message with any header fields, one of which gives the length of its body, is delivered with
      all of them and just that body, and leaves what follows it. */
  lemma MessageIsRead(fields: seq<Field>, body: string, more: string, number: string -> Option<nat>)
    requires fields != [] && AllProper(fields)
    requires ContentLength(Collected(fields), number) == Some(|body|)
    ensures First(Block(fields) + BLANK_LINE + body + more, number) == Some(Frame(Response(Collected(fields), body), more))
  {
    hide Proper, Line, Lines, IndexOf, HeadersOf, ContentLength;
    var head := Block(fields);
    var raw := head + BLANK_LINE + body + more;
    assert raw == head + BLANK_LINE + (body + more);
    BlockEnds(fields, body + more);
    BlockIsRead(fields);
    assert raw[..|head|] == head && raw[|head| + 4..] == body + more;
  }

  function Spaces(n: nat): string {
    seq(n, i => ' ')
  }

  /** Any number of spaces may stand before the value; what follows a second ": " is not read; and a
      line without one is a key without a value. */
  lemma OddLines(f: Field, n: nat, more: string, line: string)
    requires Proper(f) && ':' !in f.value && ':' !in line
    ensures KeyValue(f.key + ": " + Spaces(n) + f.value) == (f.key, Some(f.value))
    ensures f.value != "" ==> KeyValue(f.key + ": " + f.value + ": " + more) == (f.key, Some(f.value))
    ensures KeyValue(line) == (line, None)
  {
    hide IndexOf;
    var v, i := f.value, |f.key|;
    IndexOfNone(line, ": ");
    var a := f.key + ": " + Spaces(n) + v;
    assert a[i..i + 2] == ": " && a[..i] == f.key && a[i + 1..] == Spaces(n + 1) + v;
    IndexOfFirst(a, ": ", i);
    SpacesSkipped(n + 1, v);
    IndexOfNone(v, ": ");
    if v != "" {
      var b := f.key + ": " + v + ": " + more;
      var rest := v + (": " + more);
      assert b[i..i + 2] == ": " && b[..i] == f.key && b[i + 1..] == [' '] + rest && ([' '] + rest)[1..] == rest;
      IndexOfFirst(b, ": ", i);
      assert SkipSpaces(rest) == rest;
      assert rest[|v|..|v| + 2] == ": " && rest[..|v|] == v;
      IndexOfFirst(rest, ": ", |v|);
    }
  }

  lemma {:induction false} SpacesSkipped(n: nat, s: string)
    requires s != "" ==> s[0] != ' '
    ensures SkipSpaces(Spaces(n) + s) == s
  {
    if n == 0 {
      assert Spaces(n) + s == s;
    } else {
      SpacesSkipped(n - 1, s);
      assert (Spaces(n) + s)[1..] == Spaces(n - 1) + s;
    }
  }

  /** A message without a length is never delivered. */
  lemma NoLength(fields: seq<Field>, rest: string, number: string -> Option<nat>)
    requires fields != [] && AllProper(fields) && forall i :: 0 <= i < |fields| ==> fields[i].key != "Content-Length"
    ensures First(Block(fields) + BLANK_LINE + rest, number) == None
  {
    hide Proper, Line, Lines, IndexOf, HeadersOf;
    var raw := Block(fields) + BLANK_LINE + rest;
    BlockEnds(fields, rest);
    BlockIsRead(fields);
    assert raw[..|Block(fields)|] == Block(fields);
    OnlyKeys(fields);
  }

  lemma {:induction false} OnlyKeys(fields: seq<Field>)
    ensures forall k :: k in Collected(fields) ==> exists i :: 0 <= i < |fields| && fields[i].key == k
  {
    if fields != [] {
      var front := fields[..|fields| - 1];
      OnlyKeys(front);
      assert forall i :: 0 <= i < |front| ==> front[i] == fields[i];
    }
  }

  /** The length is printed in decimal. */
  lemma DecimalDigits(n: nat, d: nat)
    requires d < 10
    ensures Decimal(d) == ["0123456789"[d]]
    ensures n > 0 ==> Decimal(10 * n + d) == Decimal(n) + ["0123456789"[d]]
  {
  }
}

/**
  lib/querystring.js: `escape` and `unescapeBuffer` (section 2.1 of RFC 3986), `stringify` and `parse`.

  The strings of the user are sequences of characters; a query string is a sequence of UTF-16 code
  units, as `charCodeAt` gives them.
 */
module QueryStrings {
  import opened Basics
  import opened Strings
  import opened Utf8

  type Unit = x: int | 0 <= x < 0x1_0000

  type Text = seq<Scalar>

  const PERCENT: Unit := '%' as int
  const PLUS: Unit := '+' as int
  const SPACE: Byte := ' ' as int

  // Percent-encoding.

  /** The characters that `encodeURIComponent` leaves alone. */
  predicate Unreserved(c: int) {
    || '0' as int <= c <= '9' as int
    || 'A' as int <= c <= 'Z' as int
    || 'a' as int <= c <= 'z' as int
    || exists m :: m in "-_.!~*'()" && m as int == c
  }

  /** The value of a hexadecimal digit of either case, or -1. */
  function HexValue(c: int): (v: int)
    ensures -1 <= v < 16
    ensures v >= 0 ==> '0' as int <= c <= 'f' as int
  {
    if '0' as int <= c <= '9' as int then c - '0' as int
    else if 'a' as int <= c <= 'f' as int then c - 'a' as int + 10
    else if 'A' as int <= c <= 'F' as int then c - 'A' as int + 10
    else -1
  }

  function HexDigit(v: int): (c: Unit)
    requires 0 <= v < 16
    ensures HexValue(c) == v && Unreserved(c) && c != PERCENT
  {
    if v < 10 then '0' as int + v else 'A' as int + (v - 10)
  }

  function Triplet(b: Byte): seq<Unit> {
    [PERCENT, HexDigit(b / 16), HexDigit(b % 16)]
  }

  function Triplets(b: seq<Byte>): seq<Unit> {
    if b == [] then [] else Triplet(b[0]) + Triplets(b[1..])
  }

  /** `encodeURIComponent`. */
  function Escape(s: Text): seq<Unit> {
    if s == [] then []
    else (if Unreserved(s[0]) then [s[0]] else Triplets(EncodeScalar(s[0]))) + Escape(s[1..])
  }

  /** What is stored for a code unit. */
  function LowByte(c: Unit): Byte {
    c % 256
  }

  /** What percent-encoded text stands for: where a triplet is cut short or has no hexadecimal
      digits, its units stand for themselves, and `decodeSpaces` does not apply to them. */
  function Unescape(s: seq<Unit>, decodeSpaces: bool): (b: seq<Byte>)
    ensures |b| <= |s|
  {
    if s == [] then []
    else if s[0] != PERCENT then
      [if decodeSpaces && s[0] == PLUS then SPACE else LowByte(s[0])] + Unescape(s[1..], decodeSpaces)
    else if |s| == 1 then [PERCENT]
    else if HexValue(s[1]) < 0 then [PERCENT, LowByte(s[1])] + Unescape(s[2..], decodeSpaces)
    else if |s| == 2 then [PERCENT, LowByte(s[1])]
    else if HexValue(s[2]) < 0 then [PERCENT, LowByte(s[1]), LowByte(s[2])] + Unescape(s[3..], decodeSpaces)
    else [16 * HexValue(s[1]) + HexValue(s[2])] + Unescape(s[3..], decodeSpaces)
  }

  lemma UnescapeTriplet(b: Byte, rest: seq<Unit>, decodeSpaces: bool)
    ensures Unescape(Triplet(b) + rest, decodeSpaces) == [b] + Unescape(rest, decodeSpaces)
  {
    hide HexDigit, HexValue;
    assert (Triplet(b) + rest)[3..] == rest;
  }

  lemma UnescapePlain(c: Unit, rest: seq<Unit>, decodeSpaces: bool)
    requires Unreserved(c)
    ensures c < 0x80 && Unescape([c] + rest, decodeSpaces) == [c] + Unescape(rest, decodeSpaces)
  {
    hide HexDigit, HexValue;
    assert ([c] + rest)[1..] == rest;
  }

  lemma {:induction false} UnescapeTriplets(b: seq<Byte>, rest: seq<Unit>, decodeSpaces: bool)
    ensures Unescape(Triplets(b) + rest, decodeSpaces) == b + Unescape(rest, decodeSpaces)
  {
    hide Unescape, Triplet;
    if b == [] {
      assert Triplets(b) + rest == rest;
    } else {
      UnescapeTriplets(b[1..], rest, decodeSpaces);
      UnescapeTriplet(b[0], Triplets(b[1..]) + rest, decodeSpaces);
      assert Triplets(b) + rest == Triplet(b[0]) + (Triplets(b[1..]) + rest);
      assert b == [b[0]] + b[1..];
    }
  }

  /** Unescaping gives the UTF-8 encoding of what was escaped. */
  lemma {:induction false} UnescapeEscape(s: Text, decodeSpaces: bool)
    ensures Unescape(Escape(s), decodeSpaces) == Encode(s)
  {
    hide Unreserved, Triplets;
    if s != [] {
      UnescapeEscape(s[1..], decodeSpaces);
      if Unreserved(s[0]) {
        ReservedOrUnit(s[0]);
        UnescapePlain(s[0], Escape(s[1..]), decodeSpaces);
      } else {
        UnescapeTriplets(EncodeScalar(s[0]), Escape(s[1..]), decodeSpaces);
      }
    }
  }

  lemma ReservedOrUnit(c: Scalar)
    requires Unreserved(c)
    ensures c < 0x80
  {
  }

  // The state machine.

  datatype State = Char | Hex0 | Hex1

  /** `s.charCodeAt(i)` past the end. */
  const NAN := -1

  function Stored(c: int): Byte {
    if c < 0 then 0 else c % 256
  }

  /** The units read of a triplet that may be complete with what follows. */
  function Opened(state: State, hexchar: int): (open: seq<Unit>)
    requires state == Hex1 ==> HexValue(hexchar) >= 0
    ensures Open(open) && (state == Char ==> open == [])
  {
    match state
    case Char => []
    case Hex0 => [PERCENT]
    case Hex1 => [PERCENT, hexchar]
  }

  /** What a step stores, and the triplet it leaves open. */
  datatype Progress = Progress(stored: seq<Byte>, open: seq<Unit>)

  predicate Open(open: seq<Unit>) {
    && |open| <= 2
    && (|open| > 0 ==> open[0] == PERCENT)
    && (|open| > 1 ==> HexValue(open[1]) >= 0)
  }

  function Step(open: seq<Unit>, c: Unit, decodeSpaces: bool): (p: Progress)
    requires Open(open)
    ensures Open(p.open) && |p.stored| + |p.open| <= |open| + 1
  {
    if |open| == 0 then
      if c == PERCENT then Progress([], [PERCENT])
      else Progress([if decodeSpaces && c == PLUS then SPACE else LowByte(c)], [])
    else if |open| == 1 then
      if HexValue(c) >= 0 then Progress([], [PERCENT, c])
      else Progress([PERCENT, LowByte(c)], [])
    else
      if HexValue(c) >= 0 then Progress([16 * HexValue(open[1]) + HexValue(c)], [])
      else Progress([PERCENT, LowByte(open[1]), LowByte(c)], [])
  }

  lemma StepIsRight(open: seq<Unit>, c: Unit, rest: seq<Unit>, decodeSpaces: bool)
    requires Open(open)
    ensures var p := Step(open, c, decodeSpaces);
            Unescape(open + ([c] + rest), decodeSpaces) == p.stored + Unescape(p.open + rest, decodeSpaces)
  {
    hide HexValue;
    var s := open + ([c] + rest);
    var p := Step(open, c, decodeSpaces);
    if p.open == [] {
      assert s[|open| + 1..] == rest && p.open + rest == rest;
      assert |open| > 0 ==> s[1] == (open + [c])[1];
    } else {
      assert s == p.open + rest;
    }
  }

  lemma Onward(done: seq<Byte>, open: seq<Unit>, s: seq<Unit>, i: nat, decodeSpaces: bool)
    requires i <= |s| && Open(open)
    ensures i < |s| ==>
      var p := Step(open, s[i], decodeSpaces);
      done + Unescape(open + s[i..], decodeSpaces) == done + p.stored + Unescape(p.open + s[i + 1..], decodeSpaces)
    ensures i == |s| ==> open + s[i..] == open
  {
    hide Step, Unescape;
    if i < |s| {
      assert s[i..] == [s[i]] + s[i + 1..];
      StepIsRight(open, s[i], s[i + 1..], decodeSpaces);
    }
  }

  lemma OpenAtEnd(open: seq<Unit>, decodeSpaces: bool)
    requires Open(open)
    ensures |Unescape(open, decodeSpaces)| == |open|
    ensures forall k :: 0 <= k < |open| ==> Unescape(open, decodeSpaces)[k] == LowByte(open[k])
  {
  }

  /** `out[outIndex++] = c`; a buffer ignores what is stored past its end. */
  method Put(out: array<Byte>, outIndex: nat, c: int, ghost done: seq<Byte>) returns (next: nat)
    requires outIndex == |done| <= out.Length && out[..outIndex] == done
    modifies out
    ensures next == outIndex + 1
    ensures outIndex < out.Length ==> out[..next] == done + [Stored(c)]
    ensures out[..outIndex] == done
  {
    if outIndex < out.Length {
      out[outIndex] := Stored(c);
    }
    next := outIndex + 1;
  }

  /** One step of `unescapeBuffer`.  The step after the last unit ends in state `Char` and stores
      one more byte, which is not part of the result. */
  method Feed(out: array<Byte>, from: nat, state: State, hexchar: int, n: int, c: int, decodeSpaces: bool,
              ghost done: seq<Byte>)
    returns (to: nat, state': State, hexchar': int, n': int, ghost stored: seq<Byte>)
    requires state == Hex1 ==> n == HexValue(hexchar) >= 0
    requires NAN <= c < 0x1_0000
    requires |done| + |Opened(state, hexchar)| <= out.Length
    requires c != NAN ==> |done| + |Opened(state, hexchar)| < out.Length
    requires from == |done| && out[..from] == done
    modifies out
    ensures state' == Hex1 ==> n' == HexValue(hexchar') >= 0
    ensures c != NAN ==> Progress(stored, Opened(state', hexchar')) == Step(Opened(state, hexchar), c, decodeSpaces)
    ensures c == NAN ==> state' == Char && stored == Unescape(Opened(state, hexchar), decodeSpaces)
    ensures to == |done| + |stored| + if c == NAN then 1 else 0
    ensures |done + stored| <= out.Length && out[..|done + stored|] == done + stored
  {
    hide HexValue, Unescape;
    OpenAtEnd(Opened(state, hexchar), decodeSpaces);
    to, state', hexchar', n', stored := from, state, hexchar, n, [];
    match state {
      case Char =>
        if c == PERCENT {
          state' := Hex0;
        } else {
          var d := if c == PLUS && decodeSpaces then SPACE else c;
          to := Put(out, to, d, done);
          stored := if c == NAN then [] else [Stored(d)];
        }
      case Hex0 =>
        state', hexchar' := Hex1, c;
        if HexValue(c) >= 0 {
          n' := HexValue(c);
        } else {
          to := Put(out, to, PERCENT, done);
          to := Put(out, to, c, done + [PERCENT]);
          stored := if c == NAN then [PERCENT] else [PERCENT, Stored(c)];
          state' := Char;
        }
      case Hex1 =>
        state' := Char;
        if HexValue(c) >= 0 {
          var m := HexValue(c);
          stored := [16 * n + m];
          to := Put(out, to, 16 * n + m, done);
        } else {
          to := Put(out, to, PERCENT, done);
          to := Put(out, to, hexchar, done + [PERCENT]);
          to := Put(out, to, c, done + [PERCENT, Stored(hexchar)]);
          stored := if c == NAN then [PERCENT, Stored(hexchar)] else [PERCENT, Stored(hexchar), Stored(c)];
        }
    }
  }

  method UnescapeBuffer(s: seq<Unit>, decodeSpaces: bool) returns (b: seq<Byte>)
    ensures b == Unescape(s, decodeSpaces)
  {
    hide HexValue, Unescape, Step, Opened, Open;
    var out := new Byte[|s|];
    var state, hexchar, n := Char, 0, 0;
    var inIndex, outIndex := 0, 0;
    ghost var done: seq<Byte> := [];
    assert [] + s[0..] == s;
    while inIndex <= |s|
      invariant 0 <= inIndex <= |s| + 1
      invariant state == Hex1 ==> n == HexValue(hexchar) >= 0
      invariant |done| <= |s| && out[..|done|] == done
      invariant inIndex <= |s| ==> outIndex == |done| && |done| + |Opened(state, hexchar)| <= inIndex
      invariant inIndex <= |s| ==>
                  done + Unescape(Opened(state, hexchar) + s[inIndex..], decodeSpaces) == Unescape(s, decodeSpaces)
      invariant inIndex > |s| ==> outIndex == |done| + 1 && state == Char && done == Unescape(s, decodeSpaces)
    {
      var c := if inIndex < |s| then s[inIndex] else NAN;
      ghost var open, stored := Opened(state, hexchar), [];
      outIndex, state, hexchar, n, stored := Feed(out, outIndex, state, hexchar, n, c, decodeSpaces, done);
      Onward(done, open, s, inIndex, decodeSpaces);
      done := done + stored;
      inIndex := inIndex + 1;
    }
    b := out[..outIndex - 1];
  }

  // `stringify` and `parse`.

  /** The value of a key: a string, or an array of strings; `parse` also makes arrays of which the
      first element is what every object inherits under that key, before the strings. */
  datatype Value = One(text: Text) | Many(texts: seq<Text>) | Amended(texts: seq<Text>)

  type Object = map<Text, Value>

  function Word(s: string): Text
    requires forall i :: 0 <= i < |s| ==> s[i] < 128 as char
  {
    seq(|s|, i requires 0 <= i < |s| => s[i] as int)
  }

  /** `k in {}`: the names in `Object.prototype`. */
  predicate Inherited(k: Text) {
    k in [Word("constructor"), Word("toString"), Word("toLocaleString"), Word("valueOf"), Word("hasOwnProperty"),
          Word("isPrototypeOf"), Word("propertyIsEnumerable"), Word("__defineGetter__"), Word("__lookupGetter__"),
          Word("__defineSetter__"), Word("__lookupSetter__")]
  }

  /** What is printed of a value: of what is inherited, nothing. */
  function Texts(value: Value): seq<Text> {
    match value
    case One(text) => [text]
    case Many(texts) => texts
    case Amended(texts) => [[]] + texts
  }

  function Field(k: Text, v: Text, eq: Unit): seq<Unit> {
    Escape(k) + [eq] + Escape(v)
  }

  function Fields(k: Text, vs: seq<Text>, eq: Unit): seq<seq<Unit>> {
    if vs == [] then [] else [Field(k, vs[0], eq)] + Fields(k, vs[1..], eq)
  }

  function FieldsOf(k: Text, value: Value, eq: Unit): seq<seq<Unit>> {
    Fields(k, Texts(value), eq)
  }

  function Entries(obj: Object, keys: seq<Text>, sep: Unit, eq: Unit): seq<seq<Unit>>
    requires forall k :: k in keys ==> k in obj
  {
    if keys == [] then []
    else [Join(FieldsOf(keys[0], obj[keys[0]], eq), sep)] + Entries(obj, keys[1..], sep, eq)
  }

  /** `keys` is `Object.keys(obj)`, whose order is up to the engine. */
  function Stringify(obj: Object, keys: seq<Text>, sep: Unit, eq: Unit): seq<Unit>
    requires forall k :: k in keys ==> k in obj
  {
    Join(Entries(obj, keys, sep, eq), sep)
  }

  /** What V8 puts for a character that it does not support, `kBadChar`. */
  const BAD_CHAR: Scalar := 0xFFFD

  /** V8 reads the characters of the Basic Multilingual Plane only. */
  function AsRead(s: Text): (r: Text)
    ensures |r| == |s|
  {
    seq(|s|, i requires 0 <= i < |s| => if s[i] < 0x1_0000 then s[i] else BAD_CHAR)
  }

  predicate Basic(s: Text) {
    forall i :: 0 <= i < |s| ==> s[i] < 0x1_0000
  }

  lemma BasicIsRead(s: Text)
    ensures Basic(AsRead(s)) && (AsRead(s) == s <==> Basic(s))
  {
  }

  /** `Buffer.toString` of valid UTF-8 is what V8 reads; of anything else, what the engine likes. */
  ghost predicate DecodesUtf8(toString: seq<Byte> -> Text) {
    forall b :: Valid(b) ==> toString(b) == AsRead(Decode(b))
  }

  function Pair(kvp: seq<Unit>, eq: Unit, toString: seq<Byte> -> Text): (Text, Text) {
    var x := Split(kvp, eq);
    (toString(Unescape(x[0], true)), toString(Unescape(Join(x[1..], eq), true)))
  }

  function Add(obj: Object, k: Text, v: Text): Object {
    if k !in obj then obj[k := if Inherited(k) then Amended([v]) else One(v)]
    else
      match obj[k]
      case One(text) => obj[k := Many([text, v])]
      case Many(texts) => obj[k := Many(texts + [v])]
      case Amended(texts) => obj[k := Amended(texts + [v])]
  }

  function Collect(obj: Object, kvps: seq<seq<Unit>>, eq: Unit, toString: seq<Byte> -> Text): Object
    decreases |kvps|
  {
    if kvps == [] then obj
    else
      var (k, v) := Pair(kvps[0], eq, toString);
      Collect(Add(obj, k, v), kvps[1..], eq, toString)
  }

  function Parsed(qs: seq<Unit>, sep: Unit, eq: Unit, toString: seq<Byte> -> Text): Object {
    if qs == [] then map[] else Collect(map[], Split(qs, sep), eq, toString)
  }

  method Parse(qs: seq<Unit>, sep: Unit, eq: Unit, toString: seq<Byte> -> Text) returns (obj: Object)
    ensures obj == Parsed(qs, sep, eq, toString)
  {
    hide Unescape, Split;
    obj := map[];
    if qs == [] {
      return;
    }
    var kvps := Split(qs, sep);
    var i := 0;
    while i < |kvps|
      invariant 0 <= i <= |kvps|
      invariant Collect(obj, kvps[i..], eq, toString) == Collect(map[], kvps, eq, toString)
    {
      var x := Split(kvps[i], eq);
      var kBytes := UnescapeBuffer(x[0], true);
      var vBytes := UnescapeBuffer(Join(x[1..], eq), true);
      var k, v := toString(kBytes), toString(vBytes);
      assert kvps[i..][1..] == kvps[i + 1..];
      if k !in obj && !Inherited(k) {
        obj := obj[k := One(v)];
      } else if k !in obj {
        obj := obj[k := Amended([v])];
      } else if obj[k].One? {
        obj := obj[k := Many([obj[k].text, v])];
      } else {
        obj := obj[k := obj[k].(texts := obj[k].texts + [v])];
      }
      i := i + 1;
    }
  }

  // Parsing what has been stringified.

  /** A separator that escaped text cannot contain. */
  predicate Delimiter(c: Unit) {
    !Unreserved(c) && c != PERCENT
  }

  /** The separators that are used if no others are given. */
  lemma DefaultDelimiters()
    ensures Delimiter('&' as int) && Delimiter('=' as int)
  {
    assert forall m :: m in "-_.!~*'()" ==> m != '&' && m != '=';
  }

  lemma {:induction false} TripletsAvoid(b: seq<Byte>, c: Unit)
    requires Delimiter(c)
    ensures c !in Triplets(b)
  {
    hide HexValue, Unreserved;
    if b != [] {
      TripletsAvoid(b[1..], c);
    }
  }

  lemma {:induction false} EscapeAvoids(s: Text, c: Unit)
    requires Delimiter(c)
    ensures c !in Escape(s)
  {
    hide Unreserved, Triplets;
    if s != [] {
      TripletsAvoid(EncodeScalar(s[0]), c);
      EscapeAvoids(s[1..], c);
    }
  }

  lemma FieldIsRead(k: Text, v: Text, sep: Unit, eq: Unit, toString: seq<Byte> -> Text)
    requires Delimiter(sep) && Delimiter(eq) && sep != eq && DecodesUtf8(toString)
    ensures Pair(Field(k, v, eq), eq, toString) == (AsRead(k), AsRead(v))
    ensures sep !in Field(k, v, eq)
  {
    hide Delimiter, Escape, Unescape, Split, Encode, Decode, Valid, AsRead;
    EscapeAvoids(k, eq);
    EscapeAvoids(v, eq);
    EscapeAvoids(k, sep);
    EscapeAvoids(v, sep);
    SplitNothing(Escape(k), eq);
    SplitNothing(Escape(v), eq);
    SplitAt(Escape(k), eq, Escape(v));
    UnescapeEscape(k, true);
    UnescapeEscape(v, true);
    EncodeIsValid(k);
    EncodeIsValid(v);
  }

  /** The fields of a key; an empty array leaves an empty field. */
  function Pieces(k: Text, value: Value, eq: Unit): (r: seq<seq<Unit>>)
    ensures r != []
  {
    if FieldsOf(k, value, eq) == [] then [[]] else FieldsOf(k, value, eq)
  }

  /** All fields, in order. */
  function AllFields(obj: Object, keys: seq<Text>, eq: Unit): seq<seq<Unit>>
    requires forall k :: k in keys ==> k in obj
  {
    if keys == [] then [] else Pieces(keys[0], obj[keys[0]], eq) + AllFields(obj, keys[1..], eq)
  }

  lemma {:induction false} FieldsAre(k: Text, vs: seq<Text>, eq: Unit)
    ensures |Fields(k, vs, eq)| == |vs|
    ensures forall i :: 0 <= i < |vs| ==> Fields(k, vs, eq)[i] == Field(k, vs[i], eq)
  {
    hide Field;
    if vs != [] {
      FieldsAre(k, vs[1..], eq);
    }
  }

  /** No array is empty. */
  predicate Filled(obj: Object, least: nat) {
    forall k :: k in obj && obj[k].Many? ==> |obj[k].texts| >= least
  }

  lemma {:induction false} JoinOnce(obj: Object, keys: seq<Text>, sep: Unit, eq: Unit)
    requires forall k :: k in keys ==> k in obj
    ensures Stringify(obj, keys, sep, eq) == Join(AllFields(obj, keys, eq), sep)
    ensures keys != [] ==> AllFields(obj, keys, eq) != []
  {
    hide Fields, Field;
    if keys != [] {
      var first := Pieces(keys[0], obj[keys[0]], eq);
      JoinOnce(obj, keys[1..], sep, eq);
      if |keys| == 1 {
        assert first + AllFields(obj, keys[1..], eq) == first;
      } else {
        JoinConcat(first, AllFields(obj, keys[1..], eq), sep);
        JoinConcat([Join(first, sep)], Entries(obj, keys[1..], sep, eq), sep);
      }
    }
  }

  ghost predicate IsField(f: seq<Unit>, eq: Unit) {
    f == [] || exists k, v :: f == Field(k, v, eq)
  }

  lemma {:induction false} AllFieldsAre(obj: Object, keys: seq<Text>, eq: Unit, f: seq<Unit>)
    requires forall k :: k in keys ==> k in obj
    requires f in AllFields(obj, keys, eq)
    ensures IsField(f, eq)
  {
    hide Fields, Field;
    if f in Pieces(keys[0], obj[keys[0]], eq) {
      FieldsAre(keys[0], Texts(obj[keys[0]]), eq);
    } else {
      AllFieldsAre(obj, keys[1..], eq, f);
    }
  }

  lemma {:induction false} CollectConcat(o: Object, a: seq<seq<Unit>>, b: seq<seq<Unit>>, eq: Unit, toString: seq<Byte> -> Text)
    ensures Collect(o, a + b, eq, toString) == Collect(Collect(o, a, eq, toString), b, eq, toString)
    decreases |a|
  {
    hide Pair;
    if a == [] {
      assert a + b == b;
    } else {
      assert (a + b)[1..] == a[1..] + b;
      var (k, v) := Pair(a[0], eq, toString);
      CollectConcat(Add(o, k, v), a[1..], b, eq, toString);
    }
  }

  lemma CollectField(o: Object, k: Text, v: Text, rest: seq<seq<Unit>>, sep: Unit, eq: Unit, toString: seq<Byte> -> Text)
    requires Delimiter(sep) && Delimiter(eq) && sep != eq && DecodesUtf8(toString)
    ensures Collect(o, [Field(k, v, eq)] + rest, eq, toString) == Collect(Add(o, AsRead(k), AsRead(v)), rest, eq, toString)
  {
    hide Field, Pair, Delimiter, DecodesUtf8, Add;
    FieldIsRead(k, v, sep, eq, toString);
    assert ([Field(k, v, eq)] + rest)[1..] == rest;
  }

  /** How `parse` keeps the values it has seen of a key. */
  function Holding(had: seq<Text>): Value
    requires had != []
  {
    if |had| == 1 then One(had[0]) else Many(had)
  }

  function With(o: Object, k: Text, had: seq<Text>): Object
    requires had != []
  {
    o[k := Holding(had)]
  }

  lemma Overwrite<K, V>(m: map<K, V>, k: K, a: V, b: V)
    ensures m[k := a][k := b] == m[k := b]
  {
  }

  lemma AddHolding(o: Object, k: Text, had: seq<Text>, v: Text)
    requires had != []
    ensures Add(With(o, k, had), k, v) == With(o, k, had + [v])
  {
    assert |had| == 1 ==> had + [v] == [had[0], v];
    Overwrite(o, k, Holding(had), Holding(had + [v]));
  }

  lemma {:induction false} CollectMore(o: Object, k: Text, had: seq<Text>, vs: seq<Text>,
                                           sep: Unit, eq: Unit, toString: seq<Byte> -> Text)
    requires Delimiter(sep) && Delimiter(eq) && sep != eq && DecodesUtf8(toString)
    requires had != [] && Basic(k) && forall i :: 0 <= i < |vs| ==> Basic(vs[i])
    ensures Collect(With(o, k, had), Fields(k, vs, eq), eq, toString) == With(o, k, had + vs)
    decreases |vs|
  {
    hide Collect, Field, Delimiter, DecodesUtf8, With, Add, Holding, AsRead, Basic;
    if vs == [] {
      NothingCollected(With(o, k, had), eq, toString);
      assert had + vs == had;
    } else {
      BasicIsRead(k);
      BasicIsRead(vs[0]);
      AddHolding(o, k, had, vs[0]);
      CollectField(With(o, k, had), k, vs[0], Fields(k, vs[1..], eq), sep, eq, toString);
      CollectMore(o, k, had + [vs[0]], vs[1..], sep, eq, toString);
      assert had + [vs[0]] + vs[1..] == had + vs;
    }
  }

  predicate BasicValue(value: Value) {
    forall i :: 0 <= i < |Texts(value)| ==> Basic(Texts(value)[i])
  }

  /** An object with strings and arrays of strings. */
  predicate Given(obj: Object) {
    forall k :: k in obj ==> !obj[k].Amended?
  }

  predicate NoneInherited(obj: Object) {
    forall k :: k in obj ==> !Inherited(k)
  }

  /** Every character is one that V8 can read. */
  predicate AllBasic(obj: Object) {
    forall k :: k in obj ==> Basic(k) && BasicValue(obj[k])
  }

  lemma CollectEntry(o: Object, k: Text, value: Value, sep: Unit, eq: Unit, toString: seq<Byte> -> Text)
    requires Delimiter(sep) && Delimiter(eq) && sep != eq && DecodesUtf8(toString)
    requires k !in o && !Inherited(k) && !value.Amended? && (value.Many? ==> |value.texts| >= 2)
    requires Basic(k) && BasicValue(value)
    ensures Collect(o, Pieces(k, value, eq), eq, toString) == o[k := value]
  {
    hide Collect, Field, Delimiter, DecodesUtf8, AsRead, Basic, Inherited;
    var vs := Texts(value);
    BasicIsRead(k);
    BasicIsRead(vs[0]);
    CollectField(o, k, vs[0], Fields(k, vs[1..], eq), sep, eq, toString);
    CollectMore(o, k, [vs[0]], vs[1..], sep, eq, toString);
    assert [vs[0]] + vs[1..] == vs;
  }

  predicate Distinct(keys: seq<Text>) {
    forall i, j :: 0 <= i < j < |keys| ==> keys[i] != keys[j]
  }

  lemma {:induction false} CollectAll(o: Object, obj: Object, keys: seq<Text>, sep: Unit, eq: Unit, toString: seq<Byte> -> Text)
    requires Delimiter(sep) && Delimiter(eq) && sep != eq && DecodesUtf8(toString)
    requires (forall k :: k in keys ==> k in obj && k !in o) && Distinct(keys) && Filled(obj, 2) && AllBasic(obj)
    requires Given(obj) && forall k :: k in keys ==> !Inherited(k)
    ensures var r := Collect(o, AllFields(obj, keys, eq), eq, toString);
            && (forall k :: k in r <==> k in o || k in keys)
            && (forall k :: k in o ==> r[k] == o[k])
            && (forall k :: k in keys ==> r[k] == obj[k])
    decreases |keys|
  {
    hide FieldsOf, Pieces, Delimiter, DecodesUtf8, Basic, BasicValue, Inherited;
    if keys != [] {
      var k := keys[0];
      assert k in keys;
      CollectEntry(o, k, obj[k], sep, eq, toString);
      CollectConcat(o, Pieces(k, obj[k], eq), AllFields(obj, keys[1..], eq), eq, toString);
      CollectAll(o[k := obj[k]], obj, keys[1..], sep, eq, toString);
    }
  }

  /** `parse` never gives an array of fewer than two values. */
  lemma {:induction false} CollectFills(o: Object, kvps: seq<seq<Unit>>, eq: Unit, toString: seq<Byte> -> Text)
    requires Filled(o, 2)
    ensures Filled(Collect(o, kvps, eq, toString), 2)
    decreases |kvps|
  {
    hide Pair;
    if kvps != [] {
      var (k, v) := Pair(kvps[0], eq, toString);
      CollectFills(Add(o, k, v), kvps[1..], eq, toString);
    }
  }

  ghost predicate KeysOf(keys: seq<Text>, obj: Object) {
    Distinct(keys) && forall k :: k in keys <==> k in obj
  }

  lemma PairIsBasic(f: seq<Unit>, sep: Unit, eq: Unit, toString: seq<Byte> -> Text)
    requires Delimiter(sep) && Delimiter(eq) && sep != eq && DecodesUtf8(toString) && IsField(f, eq)
    ensures var (k, v) := Pair(f, eq, toString); Basic(k) && Basic(v)
  {
    if f == [] {
      var nothing: seq<seq<Unit>> := [[]];
      assert Split(f, eq) == nothing && nothing[1..] == [] && Unescape([], true) == [];
      assert Valid([]) && toString([]) == AsRead([]);
    } else {
      hide Field, DecodesUtf8, Delimiter, Pair, AsRead, Basic;
      var k, v :| f == Field(k, v, eq);
      FieldIsRead(k, v, sep, eq, toString);
      BasicIsRead(k);
      BasicIsRead(v);
    }
  }

  lemma AddBasic(o: Object, k: Text, v: Text)
    requires AllBasic(o) && Basic(k) && Basic(v)
    ensures AllBasic(Add(o, k, v))
  {
    hide Inherited;
    assert Basic([]);
    hide Basic;
    var r := Add(o, k, v);
    if k in o {
      assert Texts(r[k]) == Texts(o[k]) + [v];
    } else {
      assert Texts(r[k]) == [v] || Texts(r[k]) == [[], v];
    }
  }

  /** Nothing but what V8 can read comes out of `parse`. */
  lemma {:induction false} CollectBasic(o: Object, kvps: seq<seq<Unit>>, sep: Unit, eq: Unit, toString: seq<Byte> -> Text)
    requires Delimiter(sep) && Delimiter(eq) && sep != eq && DecodesUtf8(toString)
    requires AllBasic(o) && forall f :: f in kvps ==> IsField(f, eq)
    ensures AllBasic(Collect(o, kvps, eq, toString))
    decreases |kvps|
  {
    hide Pair, Delimiter, DecodesUtf8, IsField, Basic;
    if kvps != [] {
      var (k, v) := Pair(kvps[0], eq, toString);
      PairIsBasic(kvps[0], sep, eq, toString);
      AddBasic(o, k, v);
      CollectBasic(Add(o, k, v), kvps[1..], sep, eq, toString);
    }
  }

  /** What is under an inherited name is amended. */
  ghost predicate AllAmended(obj: Object) {
    forall k :: k in obj && Inherited(k) ==> obj[k].Amended?
  }

  lemma {:induction false} CollectAmends(o: Object, kvps: seq<seq<Unit>>, eq: Unit, toString: seq<Byte> -> Text)
    requires AllAmended(o)
    ensures AllAmended(Collect(o, kvps, eq, toString))
    decreases |kvps|
  {
    hide Pair, Inherited;
    if kvps != [] {
      var (k, v) := Pair(kvps[0], eq, toString);
      CollectAmends(Add(o, k, v), kvps[1..], eq, toString);
    }
  }

  lemma FieldAvoids(f: seq<Unit>, sep: Unit, eq: Unit)
    requires Delimiter(sep) && sep != eq && IsField(f, eq)
    ensures sep !in f
  {
    if f != [] {
      var k, v :| f == Field(k, v, eq);
      EscapeAvoids(k, sep);
      EscapeAvoids(v, sep);
    }
  }

  /** The query string is split into just the fields that it was made of. */
  lemma StringifiedFields(obj: Object, keys: seq<Text>, sep: Unit, eq: Unit)
    requires Delimiter(sep) && Delimiter(eq) && sep != eq && keys != [] && forall k :: k in keys ==> k in obj
    ensures var fields := AllFields(obj, keys, eq);
      && Split(Stringify(obj, keys, sep, eq), sep) == fields
      && forall f :: f in fields ==> IsField(f, eq)
  {
    hide Delimiter, Split, IsField;
    JoinOnce(obj, keys, sep, eq);
    var fields := AllFields(obj, keys, eq);
    forall f | f in fields
      ensures sep !in f && IsField(f, eq)
    {
      AllFieldsAre(obj, keys, eq, f);
      FieldAvoids(f, sep, eq);
    }
    SplitJoin(fields, sep);
  }

  /** Parsing gives back what was stringified if and only if every array has two elements or more,
      no character is beyond the Basic Multilingual Plane, and no key is the name of something that
      every object inherits. */
  lemma RoundTrip(obj: Object, keys: seq<Text>, sep: Unit, eq: Unit, toString: seq<Byte> -> Text)
    requires Delimiter(sep) && Delimiter(eq) && sep != eq && DecodesUtf8(toString)
    requires KeysOf(keys, obj) && Given(obj)
    ensures Parsed(Stringify(obj, keys, sep, eq), sep, eq, toString) == obj
            <==> Filled(obj, 2) && AllBasic(obj) && NoneInherited(obj)
  {
    hide Collect, Split, Delimiter, DecodesUtf8, IsField, Basic, BasicValue, Inherited;
    var qs := Stringify(obj, keys, sep, eq);
    NothingCollected(map[], eq, toString);
    if keys != [] {
      var fields := AllFields(obj, keys, eq);
      StringifiedFields(obj, keys, sep, eq);
      CollectFills(map[], fields, eq, toString);
      CollectBasic(map[], fields, sep, eq, toString);
      CollectAmends(map[], fields, eq, toString);
      if Filled(obj, 2) && AllBasic(obj) && NoneInherited(obj) {
        CollectAll(map[], obj, keys, sep, eq, toString);
        assert Collect(map[], fields, eq, toString) == obj;
        FirstField(obj, keys, sep, eq);
      }
    }
  }

  /** Some text remains unless all there is is an empty array. */
  lemma FirstField(obj: Object, keys: seq<Text>, sep: Unit, eq: Unit)
    requires keys != [] && (forall k :: k in keys ==> k in obj) && Filled(obj, 1)
    ensures Stringify(obj, keys, sep, eq) != []
  {
    var k := keys[0];
    assert k in keys;
    FieldsAre(k, Texts(obj[k]), eq);
    hide Fields;
    assert |FieldsOf(k, obj[k], eq)[0]| > 0;
    assert |Join(FieldsOf(k, obj[k], eq), sep)| > 0;
  }

  lemma OneField(k: Text, v: Text, eq: Unit)
    ensures AllFields(map[k := One(v)], [k], eq) == [Field(k, v, eq)] + []
  {
    hide Field;
    var vs := [v];
    FieldsAre(k, vs, eq);
    assert Fields(k, vs, eq) == [Field(k, v, eq)];
    assert [k][1..] == [];
    hide Fields;
    assert FieldsOf(k, One(v), eq) == [Field(k, v, eq)];
  }

  /** A character beyond the Basic Multilingual Plane comes back as U+FFFD. */
  lemma BeyondExample(k: Text, c: Scalar, toString: seq<Byte> -> Text)
    requires DecodesUtf8(toString) && Basic(k) && !Inherited(k) && c >= 0x1_0000
    ensures Parsed(Stringify(map[k := One([c])], [k], '&' as int, '=' as int), '&' as int, '=' as int, toString)
            == map[k := One([BAD_CHAR])]
  {
    var sep, eq: Unit := '&' as int, '=' as int;
    DefaultDelimiters();
    OneIsRead(k, [c], sep, eq, toString);
    BasicIsRead(k);
    assert AsRead([c]) == [BAD_CHAR];
  }

  lemma OneIsRead(k: Text, v: Text, sep: Unit, eq: Unit, toString: seq<Byte> -> Text)
    requires Delimiter(sep) && Delimiter(eq) && sep != eq && DecodesUtf8(toString)
    ensures Parsed(Stringify(map[k := One(v)], [k], sep, eq), sep, eq, toString) == Add(map[], AsRead(k), AsRead(v))
  {
    var obj: Object := map[k := One(v)];
    StringifiedFields(obj, [k], sep, eq);
    FirstField(obj, [k], sep, eq);
    hide DecodesUtf8, Delimiter, Field, AsRead, Split, Stringify, Add;
    OneField(k, v, eq);
    CollectField(map[], k, v, [], sep, eq, toString);
    NothingCollected(Add(map[], AsRead(k), AsRead(v)), eq, toString);
  }

  /** A value under the name "toString" comes back in an array with the method of that name. */
  lemma InheritedExample(v: Text, toString: seq<Byte> -> Text)
    requires DecodesUtf8(toString) && Basic(v)
    ensures var k := Word("toString");
      Parsed(Stringify(map[k := One(v)], [k], '&' as int, '=' as int), '&' as int, '=' as int, toString)
      == map[k := Amended([v])]
  {
    var sep, eq: Unit := '&' as int, '=' as int;
    var k := Word("toString");
    assert Inherited(k);
    DefaultDelimiters();
    OneIsRead(k, v, sep, eq, toString);
    assert Basic(k);
    BasicIsRead(k);
    BasicIsRead(v);
  }

  /** An array of one value comes back as that value. */
  lemma RoundTripExample(k: Text, v: Text, toString: seq<Byte> -> Text)
    requires DecodesUtf8(toString)
    ensures Parsed(Stringify(map[k := Many([v])], [k], '&' as int, '=' as int), '&' as int, '=' as int, toString)
            != map[k := Many([v])]
  {
    DefaultDelimiters();
    hide Delimiter, DecodesUtf8, Parsed, Stringify;
    assert !Filled(map[k := Many([v])], 2) by {
      assert k in map[k := Many([v])];
    }
    RoundTrip(map[k := Many([v])], [k], '&' as int, '=' as int, toString);
  }

  lemma NothingCollected(o: Object, eq: Unit, toString: seq<Byte> -> Text)
    ensures Collect(o, [], eq, toString) == o
  {
  }
}

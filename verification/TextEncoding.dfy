/**
  The encodings of a text, and what `pool.write` in lib/net.js puts into a pool that has `room`
  bytes left: the methods `utf8Write`, `asciiWrite`, `binaryWrite`, `ucs2Write` and `base64Write`
  of src/node_buffer.cc, on top of the string functions of V8.
 */
module TextEncoding {
  import opened Basics
  import B64 = Base64
  import U8 = Utf8

  type Unit = x: int | 0 <= x < 0x1_0000  // a UTF-16 code unit
  type Text = seq<Unit>

  /** `Default` is the missing encoding argument, which means UTF-8. */
  datatype Encoding = Default | Utf8 | Ascii | Binary | Ucs2 | Base64

  /** V8 writes U+0000 as a space where it is asked for ASCII. */
  function AsciiByte(c: Unit): Byte {
    if c % 256 == 0 then 32 else c % 256
  }

  function EncodeUnit(enc: Encoding, c: Unit): (b: seq<Byte>)
    requires !enc.Base64?
    ensures 1 <= |b| <= 3
  {
    if enc.Ascii? then [AsciiByte(c)]
    else if enc.Binary? then [c % 256]
    else if enc.Ucs2? then [c % 256, c / 256]
    else if c < 0x80 then [c]
    else if c < 0x800 then [0xC0 + c / 64, 0x80 + c % 64]
    else [0xE0 + c / 4096, 0x80 + c / 64 % 64, 0x80 + c % 64]
  }

  function Letters(s: Text): seq<B64.Letter> {
    seq(|s|, i requires 0 <= i < |s| => AsciiByte(s[i]) as char)
  }

  /** The bytes that a text stands for. */
  function Encode(enc: Encoding, s: Text): (b: seq<Byte>)
    ensures !enc.Base64? ==> |s| <= |b| <= 3 * |s|
  {
    if s == [] then []
    else if enc.Base64? then B64.Decode(B64.Digits(Letters(s)))
    else EncodeUnit(enc, s[0]) + Encode(enc, s[1..])
  }

  lemma NothingEncoded(enc: Encoding)
    ensures Encode(enc, []) == [] && Plain(enc, [])
  {
  }

  lemma {:induction false} EncodeConcat(enc: Encoding, s: Text, t: Text)
    requires !enc.Base64?
    ensures Encode(enc, s + t) == Encode(enc, s) + Encode(enc, t)
  {
    hide EncodeUnit;
    if s == [] {
      assert s + t == t;
    } else {
      assert (s + t)[1..] == s[1..] + t;
      EncodeConcat(enc, s[1..], t);
    }
  }

  lemma {:induction false} FixedWidth(enc: Encoding, s: Text)
    ensures enc.Ascii? || enc.Binary? ==> |Encode(enc, s)| == |s|
    ensures enc.Ucs2? ==> |Encode(enc, s)| == 2 * |s|
  {
    if s != [] {
      FixedWidth(enc, s[1..]);
    }
  }

  // What the bytes mean.

  predicate Surrogate(c: Unit) {
    0xD800 <= c < 0xE000
  }

  /** A text without surrogates, as the characters that it consists of. */
  function Scalars(s: Text): seq<U8.Scalar>
    requires forall i :: 0 <= i < |s| ==> !Surrogate(s[i])
  {
    seq(|s|, i requires 0 <= i < |s| && !Surrogate(s[i]) => s[i])
  }

  lemma ScalarBytes(enc: Encoding, c: Unit)
    requires AsUtf8(enc) && !Surrogate(c)
    ensures EncodeUnit(enc, c) == U8.EncodeScalar(c)
  {
  }

  /** The bytes are UTF-8 as RFC 3629 has it, and decode to the text. */
  lemma {:induction false} IsUtf8(enc: Encoding, s: Text)
    requires AsUtf8(enc) && forall i :: 0 <= i < |s| ==> !Surrogate(s[i])
    ensures Encode(enc, s) == U8.Encode(Scalars(s))
    ensures U8.Valid(Encode(enc, s)) && U8.Decode(Encode(enc, s)) == Scalars(s)
  {
    U8.EncodeIsValid(Scalars(s));
    if s != [] {
      IsUtf8(enc, s[1..]);
      ScalarBytes(enc, s[0]);
      hide EncodeUnit, U8.EncodeScalar, U8.Valid, U8.Decode;
      assert Scalars(s)[0] == s[0] && Scalars(s)[1..] == Scalars(s[1..]);
    }
  }

  /** A surrogate is written by itself, like a character with its number. */
  lemma SurrogateBytes(enc: Encoding, c: Unit)
    requires AsUtf8(enc) && Surrogate(c)
    ensures var b := EncodeUnit(enc, c);
      |b| == 3 && b[0] == 0xED && U8.Tail(b[1]) && U8.Tail(b[2]) && U8.Continued(U8.Continued(b[0] - 0xE0, b[1]), b[2]) == c
  {
  }

  /** In 'ascii' and 'binary' there is one byte for each character; in 'ascii' U+0000 is a space. */
  lemma {:induction false} ByteForByte(enc: Encoding, s: Text)
    requires enc.Ascii? || enc.Binary?
    ensures var b := Encode(enc, s);
      && |b| == |s|
      && (forall i :: 0 <= i < |s| && 0 < s[i] < 256 ==> b[i] == s[i])
      && (forall i :: 0 <= i < |s| && s[i] == 0 ==> b[i] == if enc.Ascii? then ' ' as int else 0)
  {
    if s != [] {
      ByteForByte(enc, s[1..]);
      assert forall i :: 1 <= i < |s| ==> Encode(enc, s)[i] == Encode(enc, s[1..])[i - 1] && s[i] == s[1..][i - 1];
    }
  }

  /** In UCS-2 there are two for each, the lower half first. */
  ghost predicate LowFirst(b: seq<Byte>, s: Text) {
    |b| == 2 * |s| && forall i, j, k :: 0 <= i < |s| && j == 2 * i && k == j + 1 ==> s[i] == b[k] as int * 256 + b[j] as int
  }

  lemma {:induction false} TwoForEach(s: Text)
    ensures LowFirst(Encode(Ucs2, s), s)
  {
    if s != [] {
      TwoForEach(s[1..]);
      LowFirstFurther(s[0], Encode(Ucs2, s[1..]), s[1..]);
      assert [s[0]] + s[1..] == s;
    }
  }

  lemma LowFirstFurther(c: Unit, b: seq<Byte>, s: Text)
    requires LowFirst(b, s)
    ensures LowFirst(EncodeUnit(Ucs2, c) + b, [c] + s)
  {
  }

  // What is written.

  /** The pool is replaced when it has less room than this. */
  const MIN_POOL_SPACE := 128

  /** As many characters as there is room for, one by one. */
  function Greedy(enc: Encoding, s: Text, room: nat): (k: nat)
    requires !enc.Base64?
    ensures k <= |s|
  {
    if s == [] || |EncodeUnit(enc, s[0])| > room then 0
    else 1 + Greedy(enc, s[1..], room - |EncodeUnit(enc, s[0])|)
  }

  function Least(a: nat, b: nat): nat {
    if a < b then a else b
  }

  predicate AsUtf8(enc: Encoding) {
    enc.Default? || enc.Utf8?
  }

  /** V8 puts a NUL behind a text if there is room for one, and `utf8Write` takes a last NUL off
      again; without room for it, that is a character of the text. */
  predicate DropsNul(enc: Encoding, s: Text, room: nat)
    requires AsUtf8(enc)
  {
    var k := Greedy(enc, s, room);
    k > 0 && s[k - 1] == 0 && (k < |s| || |Encode(enc, s)| == room)
  }

  /** The first `taken` characters are dealt with, as `bytes`, and `_writeOut` takes it that
      `counted` are. */
  datatype Stored = Stored(taken: nat, bytes: seq<Byte>, counted: nat)

  /** Nothing comes of it when the decoded text is too large, which throws, or when a character is
      not binary, which aborts the process.  The room for UCS-2 is taken for a number of characters. */
  function PoolWrite(enc: Encoding, s: Text, room: nat): (r: Option<Stored>)
    ensures r.Some? ==> r.value.taken <= |s|
  {
    match enc
    case Ascii =>
      var k := Least(|s|, room);
      Some(Stored(k, Encode(enc, s[..k]), k))
    case Binary =>
      var k := Least(|s|, room);
      if exists i :: 0 <= i < k && s[i] >= 256 then None else Some(Stored(k, Encode(enc, s[..k]), k))
    case Ucs2 =>
      var k := Least(|s|, room);
      Some(Stored(k, Encode(enc, s[..k]), 2 * k))
    case Base64 =>
      if B64.DecodedSize(Letters(s)) > room then None
      else Some(Stored(|s|, Encode(enc, s), |Encode(enc, s)|))
    case _ =>
      var k := Greedy(enc, s, room);
      var b := Encode(enc, s[..k]);
      Some(Stored(k, if DropsNul(enc, s, room) then b[..|b| - 1] else b, k))
  }

  /** The count is right, and the bytes are those of the characters that are counted. */
  predicate Right(enc: Encoding, s: Text, room: nat) {
    var r := PoolWrite(enc, s, room);
    r.Some? && r.value.counted == r.value.taken && r.value.bytes == Encode(enc, s[..r.value.taken])
  }

  /** What is in the pool and what is queued for later make up the text. */
  predicate Completes(enc: Encoding, s: Text, stored: Stored)
    requires stored.counted <= |s|
  {
    stored.bytes + Encode(enc, s[stored.counted..]) == Encode(enc, s)
  }

  lemma {:induction false} GreedyFits(enc: Encoding, s: Text, room: nat)
    requires !enc.Base64?
    ensures var k := Greedy(enc, s, room);
      && |Encode(enc, s[..k])| <= room
      && (|Encode(enc, s)| <= room <==> k == |s|)
      && (s != [] && room >= 3 ==> k > 0)
  {
    hide EncodeUnit;
    var k := Greedy(enc, s, room);
    if k > 0 {
      GreedyFits(enc, s[1..], room - |EncodeUnit(enc, s[0])|);
      EncodeFirst(enc, s, k);
      hide Encode;
    }
  }

  lemma EncodeFirst(enc: Encoding, s: Text, k: nat)
    requires !enc.Base64? && 0 < k <= |s|
    ensures |Encode(enc, s[..k])| == |EncodeUnit(enc, s[0])| + |Encode(enc, s[1..][..k - 1])|
    ensures |Encode(enc, s)| == |EncodeUnit(enc, s[0])| + |Encode(enc, s[1..])|
  {
    assert s[..k][1..] == s[1..][..k - 1] && s[..k][0] == s[0];
  }

  lemma {:induction false} GreedyIs(enc: Encoding, s: Text, room: nat, k: nat)
    requires !enc.Base64? && k <= |s| && |Encode(enc, s[..k])| <= room
    requires k < |s| ==> |Encode(enc, s[..k + 1])| > room
    ensures Greedy(enc, s, room) == k
  {
    hide EncodeUnit;
    if k > 0 {
      EncodeFirst(enc, s, k);
      if k < |s| {
        EncodeFirst(enc, s, k + 1);
      }
      hide Encode;
      GreedyIs(enc, s[1..], room - |EncodeUnit(enc, s[0])|, k - 1);
    } else if s != [] {
      assert s[..1][1..] == [] && s[..1][0] == s[0];
    }
  }

  /** When the count of `_writeOut` is right: in 'ascii' always, in 'binary' for characters that
      are, in UTF-8 unless a NUL is dropped, in UCS-2 and base 64 for the empty text only. */
  predicate Countable(enc: Encoding, s: Text, room: nat) {
    match enc
    case Ascii => true
    case Binary => forall i :: 0 <= i < Least(|s|, room) ==> s[i] < 256
    case Ucs2 => s == []
    case Base64 => s == []
    case _ => !DropsNul(enc, s, room)
  }

  lemma CountIsRight(enc: Encoding, s: Text, room: nat)
    requires room >= MIN_POOL_SPACE
    ensures Right(enc, s, room) <==> Countable(enc, s, room)
  {
    hide EncodeUnit, Greedy;
    if enc.Base64? {
      Shrinks(s);
      assert s[..|s|] == s;
    }
  }

  lemma Shrinks(s: Text)
    ensures |Encode(Base64, s)| == |s| <==> s == []
  {
    hide B64.Decode, B64.Digits;
    var d := B64.Digits(Letters(s));
    assert |B64.Decode(d)| == 3 * |d| / 4;
  }

  /** Then nothing is lost or doubled; and only then, whenever the assertion of line 438 holds,
      except that base 64 can come out right by chance. */
  lemma NothingLost(enc: Encoding, s: Text, room: nat)
    requires room >= MIN_POOL_SPACE && PoolWrite(enc, s, room).Some?
    ensures var stored := PoolWrite(enc, s, room).value;
      && (Right(enc, s, room) ==> stored.counted <= |s| && Completes(enc, s, stored))
      && (!enc.Base64? && stored.counted <= |s| && Completes(enc, s, stored) ==> Right(enc, s, room))
  {
    hide EncodeUnit, Greedy, B64.Decode, B64.Digits, Letters;
    var stored := PoolWrite(enc, s, room).value;
    if enc.Base64? {
      Base64Lost(s, room);
      hide Encode, PoolWrite;
    } else {
      var k := stored.taken;
      EncodeConcat(enc, s[..k], s[k..]);
      assert s[..k] + s[k..] == s;
      if enc.Ucs2? && stored.counted <= |s| {
        FixedWidth(enc, s);
        FixedWidth(enc, s[..k]);
        FixedWidth(enc, s[stored.counted..]);
      }
      hide Encode;
    }
  }

  lemma Base64Lost(s: Text, room: nat)
    requires PoolWrite(Base64, s, room).Some?
    ensures var stored := PoolWrite(Base64, s, room).value;
      Right(Base64, s, room) ==> stored.counted <= |s| && Completes(Base64, s, stored)
  {
    hide B64.Decode, B64.Digits, B64.DecodedSize, Letters;
    assert s[..|s|] == s && Encode(Base64, []) == [];
  }

  /** A text that is counted right by every pool. */
  predicate AlwaysCountable(enc: Encoding, s: Text) {
    match enc
    case Ascii => true
    case Binary => forall i :: 0 <= i < |s| ==> s[i] < 256
    case Ucs2 => s == []
    case Base64 => s == []
    case _ => forall i :: 0 <= i < |s| && s[i] == 0 ==> !CanBeLast(enc, s, i)
  }

  /** Some pool has room for the characters up to the `i`th and not for more. */
  predicate CanBeLast(enc: Encoding, s: Text, i: nat)
    requires i < |s|
  {
    || |Encode(enc, s[..i + 1])| >= MIN_POOL_SPACE
    || (i + 1 < |s| && |Encode(enc, s[..i + 2])| > MIN_POOL_SPACE)
  }

  lemma RightInEveryPool(enc: Encoding, s: Text)
    ensures (forall room: nat :: room >= MIN_POOL_SPACE ==> Right(enc, s, room)) <==> AlwaysCountable(enc, s)
  {
    hide EncodeUnit, Right, Greedy, CanBeLast;
    forall room: nat | room >= MIN_POOL_SPACE
      ensures Right(enc, s, room) <==> Countable(enc, s, room)
    {
      CountIsRight(enc, s, room);
    }
    assert Right(enc, s, |s| + MIN_POOL_SPACE) <==> Countable(enc, s, |s| + MIN_POOL_SPACE);
    if AsUtf8(enc) {
      forall room: nat | room >= MIN_POOL_SPACE && AlwaysCountable(enc, s)
        ensures Countable(enc, s, room)
      {
        NotDropped(enc, s, room);
      }
      forall i | 0 <= i < |s| && s[i] == 0 && CanBeLast(enc, s, i)
        ensures !Right(enc, s, RoomFor(enc, s, i))
      {
        Dropped(enc, s, i);
      }
    }
  }

  function RoomFor(enc: Encoding, s: Text, i: nat): nat
    requires i < |s|
  {
    if |Encode(enc, s[..i + 1])| >= MIN_POOL_SPACE then |Encode(enc, s[..i + 1])| else MIN_POOL_SPACE
  }

  lemma NotDropped(enc: Encoding, s: Text, room: nat)
    requires AsUtf8(enc) && AlwaysCountable(enc, s) && room >= MIN_POOL_SPACE
    ensures !DropsNul(enc, s, room)
  {
    hide CanBeLast;
    if DropsNul(enc, s, room) {
      DroppedIsLast(enc, s, room);
    }
  }

  lemma DroppedIsLast(enc: Encoding, s: Text, room: nat)
    requires AsUtf8(enc) && DropsNul(enc, s, room) && room >= MIN_POOL_SPACE
    ensures var k := Greedy(enc, s, room); CanBeLast(enc, s, k - 1) && s[k - 1] == 0
  {
    hide EncodeUnit;
    if Greedy(enc, s, room) < |s| {
      GreedyStops(enc, s, room);
    } else {
      assert s[..|s|] == s;
    }
  }

  /** The next character does not fit. */
  lemma {:induction false} GreedyStops(enc: Encoding, s: Text, room: nat)
    requires !enc.Base64? && Greedy(enc, s, room) < |s|
    ensures |Encode(enc, s[..Greedy(enc, s, room) + 1])| > room
  {
    hide EncodeUnit;
    var k := Greedy(enc, s, room);
    if k > 0 {
      GreedyStops(enc, s[1..], room - |EncodeUnit(enc, s[0])|);
      assert s[..k + 1][1..] == s[1..][..k];
    } else {
      assert s[..1][1..] == [] && s[..1][0] == s[0];
    }
  }

  lemma Dropped(enc: Encoding, s: Text, i: nat)
    requires AsUtf8(enc) && i < |s| && s[i] == 0 && CanBeLast(enc, s, i)
    ensures DropsNul(enc, s, RoomFor(enc, s, i))
  {
    hide EncodeUnit, Greedy;
    if i + 1 < |s| {
      EncodeConcat(enc, s[..i + 1], [s[i + 1]]);
      assert s[..i + 1] + [s[i + 1]] == s[..i + 2];
    }
    GreedyIs(enc, s, RoomFor(enc, s, i), i + 1);
    assert s[..|s|] == s;
  }

  /** What can be told of a text without looking at the pool; and it stays so when texts are cut or
      joined. */
  predicate Plain(enc: Encoding, s: Text) {
    match enc
    case Ascii => true
    case Binary => forall i :: 0 <= i < |s| ==> s[i] < 256
    case Ucs2 => s == []
    case Base64 => s == []
    case _ => 0 !in s
  }

  lemma PlainStays(enc: Encoding, s: Text, t: Text, k: nat)
    requires Plain(enc, s) && Plain(enc, t) && k <= |s|
    ensures Plain(enc, s[k..]) && Plain(enc, s + t)
    ensures Encode(enc, s + t) == Encode(enc, s) + Encode(enc, t)
  {
    if enc.Base64? {
      assert s + t == [];
    } else {
      EncodeConcat(enc, s, t);
    }
  }

  /** A plain text is always written right. */
  lemma PlainIsRight(enc: Encoding, s: Text, room: nat)
    requires Plain(enc, s) && room >= MIN_POOL_SPACE
    ensures var r := PoolWrite(enc, s, room);
      && r.Some? && Right(enc, s, room) && |r.value.bytes| <= room
      && (s != [] ==> r.value.taken > 0 && r.value.bytes != [])
      && r.value.counted == r.value.taken
      && (r.value.taken == |s| <==> |Encode(enc, s)| <= room)
      && (r.value.taken < |s| ==> |Encode(enc, s[..r.value.taken + 1])| > room)
      && Encode(enc, s) == r.value.bytes + Encode(enc, s[r.value.taken..])
  {
    PlainIsCountable(enc, s, room);
    CountIsRight(enc, s, room);
    NothingLost(enc, s, room);
    PlainFits(enc, s, room);
    hide Encode, PoolWrite, Countable, Plain;
  }

  lemma PlainIsCountable(enc: Encoding, s: Text, room: nat)
    requires Plain(enc, s)
    ensures Countable(enc, s, room) && PoolWrite(enc, s, room).Some?
  {
    hide Encode;
  }

  lemma PlainFits(enc: Encoding, s: Text, room: nat)
    requires Plain(enc, s) && room >= MIN_POOL_SPACE && PoolWrite(enc, s, room).Some?
    ensures var stored := PoolWrite(enc, s, room).value;
      && |stored.bytes| <= room
      && (s != [] ==> stored.taken > 0 && stored.bytes != [])
      && (stored.taken == |s| <==> |Encode(enc, s)| <= room)
      && (stored.taken < |s| ==> |Encode(enc, s[..stored.taken + 1])| > room)
  {
    hide EncodeUnit, Greedy;
    if !enc.Base64? {
      PlainIsCountable(enc, s, room);
      GreedyFits(enc, s, room);
      if Greedy(enc, s, room) < |s| {
        GreedyStops(enc, s, room);
      }
      if PoolWrite(enc, s, room).value.taken < |s| {
        FixedWidth(enc, s[..PoolWrite(enc, s, room).value.taken + 1]);
      }
      FixedWidth(enc, s);
      FixedWidth(enc, s[..PoolWrite(enc, s, room).value.taken]);
      hide Encode;
    }
  }

  // What goes wrong.

  /** A NUL in the last place is lost when there is no room behind it. */
  lemma NulExample()
    ensures var s: Text := seq(127, i => 97) + [0];
      PoolWrite(Utf8, s, 128) == Some(Stored(128, Encode(Utf8, s)[..127], 128)) && |Encode(Utf8, s)| == 128
  {
    var s: Text := seq(127, i => 97) + [0];
    SevenBits(s);
    assert s[..128] == s;
    GreedyIs(Utf8, s, 128, 128);
  }

  lemma {:induction false} SevenBits(s: Text)
    requires forall i :: 0 <= i < |s| ==> s[i] < 0x80
    ensures |Encode(Utf8, s)| == |s|
  {
    if s != [] {
      SevenBits(s[1..]);
    }
  }

  /** UCS-2 text is counted as longer than it is, which the assertion of line 438 does not allow, if
      and only if there is more room than half its length. */
  lemma Ucs2Throws(s: Text, room: nat)
    requires room >= MIN_POOL_SPACE
    ensures PoolWrite(Ucs2, s, room).value.counted > |s| <==> s != [] && |s| < 2 * room
  {
  }

  /** Otherwise, as much of it as was counted too much is lost; in either case more may be written
      than there is room for. */
  lemma Ucs2Loses(s: Text, room: nat)
    requires room >= MIN_POOL_SPACE
    ensures var stored := PoolWrite(Ucs2, s, room).value;
      && |stored.bytes| == 2 * Least(|s|, room)
      && (|stored.bytes| > room <==> 2 * |s| > room)
      && (stored.counted <= |s| ==> stored.counted - stored.taken == Least(|s|, room))
  {
    FixedWidth(Ucs2, s[..Least(|s|, room)]);
  }

  /** With 128 bytes left in the pool, half of a text of 256 characters is written, all of it is
      counted, nothing is queued, and the other half is lost. */
  lemma Ucs2Example()
    ensures var s: Text := seq(256, i => 97);
      && PoolWrite(Ucs2, s, 128) == Some(Stored(128, Encode(Ucs2, s[..128]), 256))
      && !Completes(Ucs2, s, Stored(128, Encode(Ucs2, s[..128]), 256))
  {
    var s: Text := seq(256, i => 97);
    FixedWidth(Ucs2, s);
    FixedWidth(Ucs2, s[..128]);
  }

  /** Of the eight characters of "aGVsbG8=", which are all written, five are counted; the other three
      are queued, and stand for one byte more. */
  lemma Base64Example(room: nat)
    requires room >= MIN_POOL_SPACE
    ensures var s: Text := [97, 71, 86, 115, 98, 71, 56, 61];
      && PoolWrite(Base64, s, room) == Some(Stored(8, [104, 101, 108, 108, 111], 5))
      && Encode(Base64, s[5..]) == [27]
  {
    var s: Text := [97, 71, 86, 115, 98, 71, 56, 61];
    hide B64.DecodedSize, Letters, Encode;
    ExampleLetters();
    ExampleBytes();
    assert s[5..] == [71, 56, 61];
  }

  lemma ExampleBytes()
    ensures Encode(Base64, [97, 71, 86, 115, 98, 71, 56, 61]) == [104, 101, 108, 108, 111]
    ensures Encode(Base64, [71, 56, 61]) == [27]
  {
    hide B64.Digits, B64.Decode, B64.DecodedSize, Letters;
    ExampleLetters();
    ExampleDigits();
    ExampleDecoded();
  }

  lemma ExampleLetters()
    ensures Letters([97, 71, 86, 115, 98, 71, 56, 61]) == ['a', 'G', 'V', 's', 'b', 'G', '8', '=']
    ensures Letters([71, 56, 61]) == ['G', '8', '=']
    ensures B64.DecodedSize(['a', 'G', 'V', 's', 'b', 'G', '8', '=']) == 5
  {
  }

  lemma ExampleDigits()
    ensures B64.Digits(['a', 'G', 'V', 's', 'b', 'G', '8', '=']) == [26, 6, 21, 44, 27, 6, 60]
    ensures B64.Digits(['G', '8', '=']) == [6, 60]
  {
    LastDigits();
    B64.FourLetters(['a', 'G', 'V', 's'], ['b', 'G', '8', '=']);
    hide B64.Digits;
    assert ['a', 'G', 'V', 's'] + ['b', 'G', '8', '='] == ['a', 'G', 'V', 's', 'b', 'G', '8', '='];
  }

  lemma LastDigits()
    ensures B64.Digits(['b', 'G', '8', '=']) == [27, 6, 60]
    ensures B64.Digits(['G', '8', '=']) == [6, 60]
  {
    B64.FirstLetter('b', ['G', '8', '=']);
    B64.FirstLetter('G', ['8', '=']);
    B64.FirstLetter('8', ['=']);
    B64.FirstLetter('=', []);
    assert B64.Digits([]) == [];
    hide B64.Digits;
    assert ['G'] + ['8', '='] == ['G', '8', '='] && ['8'] + ['='] == ['8', '='];
    assert ['b'] + ['G', '8', '='] == ['b', 'G', '8', '='];
    assert [] + ['='] == ['='] + [] == ['='];
  }

  lemma ExampleDecoded()
    ensures B64.Decode([26, 6, 21, 44, 27, 6, 60]) == [104, 101, 108, 108, 111]
    ensures B64.Decode([6, 60]) == [27]
  {
    var d: seq<B64.Sextet> := [26, 6, 21, 44, 27, 6, 60];
    assert d[4..] == [27, 6, 60];
    assert B64.Decode([27, 6, 60]) == [108, 111];
  }
}

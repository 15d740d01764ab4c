/**
  The base 64 encoder and decoder of src/node_buffer.cc.

  `Encode` and `Decode` are written from section 4 of RFC 4648, on 24-bit groups; the two methods
  are the loops of the source, with its shifts and masks.
 */
module Base64 {
  import opened Basics
  import opened ByteBits

  type Sextet = x: int | 0 <= x < 64

  /** What `AsciiValue` makes of a UTF-16 code unit. */
  type Letter = c: char | c as int < 256 witness 'A'

  datatype Result<+T> = Ok(value: T) | Err(message: string)

  function Base64Table(v: Sextet): Letter {
    if v < 26 then 'A' + v as char
    else if v < 52 then 'a' + (v - 26) as char
    else if v < 62 then '0' + (v - 52) as char
    else if v == 62 then '+'
    else '/'
  }

  function Unbase64(c: Letter): (v: int)
    ensures -2 <= v < 64
  {
    if 'A' <= c <= 'Z' then c as int - 'A' as int
    else if 'a' <= c <= 'z' then c as int - 'a' as int + 26
    else if '0' <= c <= '9' then c as int - '0' as int + 52
    else if c == '+' then 62
    else if c == '/' then 63
    else if c == '\n' || c == '\r' || c == ' ' then -2
    else -1
  }

  const UPPER := "ABCDEFGHIJKLMNOPQRSTUVWXYZ"
  const LOWER := "abcdefghijklmnopqrstuvwxyz"
  const NUMERALS := "0123456789"

  /** The table of section 4 of RFC 4648. */
  lemma Alphabet(v: Sextet)
    ensures v < 26 ==> Base64Table(v) == UPPER[v]
    ensures 26 <= v < 52 ==> Base64Table(v) == LOWER[v - 26]
    ensures 52 <= v < 62 ==> Base64Table(v) == NUMERALS[v - 52]
    ensures Base64Table(62) == '+' && Base64Table(63) == '/'
  {
    assert forall i :: 0 <= i < 26 ==> UPPER[i] == 'A' + i as char;
    assert forall i :: 0 <= i < 26 ==> LOWER[i] == 'a' + i as char;
    assert forall i :: 0 <= i < 10 ==> NUMERALS[i] == '0' + i as char;
  }

  lemma TablesAgree(v: Sextet, c: Letter)
    ensures Unbase64(Base64Table(v)) == v
    ensures Unbase64(c) >= 0 ==> Base64Table(Unbase64(c)) == c
  {
  }

  // The standard.

  /** Three bytes, or four digits, joined to form a number of 24 bits. */
  type Group = v: int | 0 <= v < 0x100_0000

  function Join3(a: Byte, b: Byte, c: Byte): Group {
    (a * 256 + b) * 256 + c
  }

  function Join4(a: Sextet, b: Sextet, c: Sextet, d: Sextet): Group {
    ((a * 64 + b) * 64 + c) * 64 + d
  }

  /** Digit `k` of a group, from the left. */
  function Digit(v: Group, k: nat): Sextet
    requires k < 4
  {
    match k
    case 0 => v / 64 / 64 / 64
    case 1 => v / 64 / 64 % 64
    case 2 => v / 64 % 64
    case 3 => v % 64
  }

  /** Byte `k` of a group, from the left. */
  function Octet(v: Group, k: nat): Byte
    requires k < 3
  {
    match k
    case 0 => v / 256 / 256
    case 1 => v / 256 % 256
    case 2 => v % 256
  }

  /** The first group of `b`, with zero bits added on the right. */
  function GroupOf(b: seq<Byte>): Group
    requires b != []
  {
    Join3(b[0], if |b| > 1 then b[1] else 0, if |b| > 2 then b[2] else 0)
  }

  function Encode(b: seq<Byte>): (s: seq<Letter>) {
    if b == [] then
      []
    else
      [Base64Table(Digit(GroupOf(b), 0)),
       Base64Table(Digit(GroupOf(b), 1)),
       if |b| > 1 then Base64Table(Digit(GroupOf(b), 2)) else '=',
       if |b| > 2 then Base64Table(Digit(GroupOf(b), 3)) else '=']
      + if |b| > 3 then Encode(b[3..]) else []
  }

  /** Four characters for every three bytes begun. */
  function OutLength(n: nat): nat {
    (n + 2 - (n + 2) % 3) / 3 * 4
  }

  lemma {:induction false} EncodeLength(b: seq<Byte>)
    ensures |Encode(b)| == OutLength(|b|)
  {
    hide GroupOf, Digit, Base64Table;
    if |b| > 3 {
      EncodeLength(b[3..]);
    }
  }

  function Decode(d: seq<Sextet>): (b: seq<Byte>)
    ensures |b| == 3 * |d| / 4
  {
    if |d| < 2 then
      []
    else
      var v := Join4(d[0], d[1], if |d| > 2 then d[2] else 0, if |d| > 3 then d[3] else 0);
      if |d| == 2 then [Octet(v, 0)]
      else if |d| == 3 then [Octet(v, 0), Octet(v, 1)]
      else [Octet(v, 0), Octet(v, 1), Octet(v, 2)] + Decode(d[4..])
  }

  /** The values of the characters of the alphabet in `s`; all others are passed over. */
  function Digits(s: seq<Letter>): (d: seq<Sextet>)
    ensures |d| <= |s|
  {
    if s == [] then []
    else if Unbase64(s[0]) < 0 then Digits(s[1..])
    else [Unbase64(s[0])] + Digits(s[1..])
  }

  lemma {:induction false} DigitsConcat(s: seq<Letter>, t: seq<Letter>)
    ensures Digits(s + t) == Digits(s) + Digits(t)
  {
    if s == [] {
      assert s + t == t;
    } else {
      assert (s + t)[1..] == s[1..] + t;
      DigitsConcat(s[1..], t);
    }
  }

  lemma {:induction false} AllDigits(s: seq<Letter>)
    ensures |Digits(s)| == |s| <==> forall k :: 0 <= k < |s| ==> Unbase64(s[k]) >= 0
  {
    if s != [] {
      AllDigits(s[1..]);
      assert forall k :: 1 <= k < |s| ==> s[k] == s[1..][k - 1];
    }
  }

  lemma {:induction false} NoDigits(s: seq<Letter>)
    requires forall k :: 0 <= k < |s| ==> Unbase64(s[k]) < 0
    ensures Digits(s) == []
  {
    if s != [] {
      NoDigits(s[1..]);
    }
  }

  /** White space, line ends and anything else outside the alphabet never matter. */
  lemma NoiseIsPassedOver(s: seq<Letter>, noise: seq<Letter>, t: seq<Letter>)
    requires forall k :: 0 <= k < |noise| ==> Unbase64(noise[k]) < 0
    ensures Decode(Digits(s + noise + t)) == Decode(Digits(s + t))
  {
    NoDigits(noise);
    DigitsConcat(s, noise);
    DigitsConcat(s + noise, t);
    DigitsConcat(s, t);
    assert Digits(s) + [] == Digits(s);
  }

  lemma GroupTurns(a: Byte, b: Byte, c: Byte)
    ensures var v := Join3(a, b, c); Octet(v, 0) == a && Octet(v, 1) == b && Octet(v, 2) == c
    ensures var v := Join3(a, b, c); Join4(Digit(v, 0), Digit(v, 1), Digit(v, 2), Digit(v, 3)) == v
    ensures c == 0 ==> Digit(Join3(a, b, c), 3) == 0
    ensures b == 0 && c == 0 ==> Digit(Join3(a, b, c), 2) == 0
  {
  }

  lemma ValueLength(c: Letter)
    ensures |Value(c)| <= 1
  {
  }

  function Value(c: Letter): seq<Sextet> {
    if Unbase64(c) < 0 then [] else [Unbase64(c)]
  }

  lemma FirstLetter(c: Letter, t: seq<Letter>)
    ensures Digits([c] + t) == Value(c) + Digits(t)
  {
    assert ([c] + t)[1..] == t;
  }

  lemma FourLetters(c: seq<Letter>, t: seq<Letter>)
    requires |c| == 4
    ensures Digits(c + t) == Value(c[0]) + Value(c[1]) + Value(c[2]) + Value(c[3]) + Digits(t)
  {
    hide Digits, Value;
    FirstLetter(c[3], t);
    FirstLetter(c[2], [c[3]] + t);
    FirstLetter(c[1], [c[2]] + ([c[3]] + t));
    FirstLetter(c[0], [c[1]] + ([c[2]] + ([c[3]] + t)));
    assert c + t == [c[0]] + ([c[1]] + ([c[2]] + ([c[3]] + t)));
  }

  lemma TableValue(v: Sextet)
    ensures Value(Base64Table(v)) == [v] && Value('=') == []
  {
    TablesAgree(v, '=');
  }

  lemma FourDigits(b: seq<Byte>)
    requires b != []
    ensures var v := GroupOf(b);
            Digits(Encode(b)) ==
              [Digit(v, 0)] + [Digit(v, 1)]
              + (if |b| > 1 then [Digit(v, 2)] else [])
              + (if |b| > 2 then [Digit(v, 3)] else [])
              + (if |b| > 3 then Digits(Encode(b[3..])) else [])
  {
    assert Digits([]) == [];
    hide Value, Base64Table, GroupOf, Digit, Digits;
    var v := GroupOf(b);
    var s := Encode(b);
    FourLetters(s[..4], s[4..]);
    assert s == s[..4] + s[4..];
    assert s[4..] == if |b| > 3 then Encode(b[3..]) else [];
    TableValue(Digit(v, 0));
    TableValue(Digit(v, 1));
    TableValue(Digit(v, 2));
    TableValue(Digit(v, 3));
  }

  /** Decoding gives back what was encoded. */
  lemma {:induction false} RoundTrip(b: seq<Byte>)
    ensures Decode(Digits(Encode(b))) == b
  {
    assert Digits(Encode([])) == [];
    hide Digit, Octet, Join3, Join4, Digits, Encode;
    if b != [] {
      FourDigits(b);
      GroupTurns(b[0], if |b| > 1 then b[1] else 0, if |b| > 2 then b[2] else 0);
      if |b| > 3 {
        RoundTrip(b[3..]);
      }
    }
  }

  // How much room the decoder is given.

  /** The number of values of a 64-bit `size_t`. */
  const SIZE_T := 0x1_0000_0000_0000_0000

  /** `size--`, which goes round at 0. */
  function OneLess(size: nat): nat {
    if size == 0 then SIZE_T - 1 else size - 1
  }

  function DecodedSize(s: seq<Letter>): (size: nat) {
    var n := |s|;
    var remainder := n % 4;
    var whole := n / 4 * 3;
    var size := if remainder == 0 then whole
                else if whole == 0 && remainder == 1 then 0
                else whole + 1 + if remainder == 3 then 1 else 0;
    if size > 0 then
      var last := if s[n - 1] == '=' then OneLess(size) else size;
      if s[n - 2] == '=' then OneLess(last) else last
    else
      0
  }

  lemma EncodedHead(b: seq<Byte>)
    requires b != []
    ensures var s := Encode(b);
            && |s| >= 4
            && (s[3] == '=' <==> |b| < 3)
            && (s[2] == '=' <==> |b| < 2)
            && s[4..] == if |b| > 3 then Encode(b[3..]) else []
  {
    hide Digit, GroupOf, Base64Table, Value;
    TableValue(Digit(GroupOf(b), 2));
    TableValue(Digit(GroupOf(b), 3));
  }

  /** Test vectors of section 10 of RFC 4648: with "bar", "ba" and "b" behind it, "foo" becomes
      "Zm9vYmFy", "Zm9vYmE=" and "Zm9vYg==". */
  lemma Vectors()
    ensures Encode([102, 111, 111] + [98, 97, 114]) == ['Z', 'm', '9', 'v'] + ['Y', 'm', 'F', 'y']
    ensures Encode([102, 111, 111] + [98, 97]) == ['Z', 'm', '9', 'v'] + ['Y', 'm', 'E', '=']
    ensures Encode([102, 111, 111] + [98]) == ['Z', 'm', '9', 'v'] + ['Y', 'g', '=', '=']
  {
    VectorThree();
    VectorTwo();
    VectorOne();
    VectorHead([98, 97, 114]);
    VectorHead([98, 97]);
    VectorHead([98]);
    hide Encode;
  }

  lemma VectorHead(tail: seq<Byte>)
    requires tail != []
    ensures Encode([102, 111, 111] + tail) == ['Z', 'm', '9', 'v'] + Encode(tail)
  {
    assert ([102, 111, 111] + tail)[3..] == tail;
  }

  lemma VectorThree()
    ensures Encode([98, 97, 114]) == ['Y', 'm', 'F', 'y']
  {
  }

  lemma VectorTwo()
    ensures Encode([98, 97]) == ['Y', 'm', 'E', '=']
  {
  }

  lemma VectorOne()
    ensures Encode([98]) == ['Y', 'g', '=', '=']
  {
  }

  lemma {:induction false} Padding(b: seq<Byte>)
    requires b != []
    ensures var s := Encode(b);
            && |s| >= 4
            && (s[|s| - 1] == '=' <==> |b| % 3 != 0)
            && (s[|s| - 2] == '=' <==> |b| % 3 == 1)
  {
    hide Encode;
    EncodedHead(b);
    if |b| > 3 {
      EncodeLength(b[3..]);
      Padding(b[3..]);
      assert forall k :: 4 <= k < |Encode(b)| ==> Encode(b)[k] == Encode(b)[4..][k - 4];
    }
  }

  /** An encoding is given exactly the room it needs. */
  lemma SizeIsExact(b: seq<Byte>)
    ensures DecodedSize(Encode(b)) == |b|
    ensures |Encode(b)| == (|b| + 2) / 3 * 4
  {
    hide Encode;
    EncodeLength(b);
    if b != [] {
      Padding(b);
    }
  }

  /** More is decoded than `DecodedSize` says for these strings, and for no others. */
  predicate Overfull(s: seq<Letter>) {
    && |s| > 2
    && |s| % 4 == 2
    && s[|s| - 1] == '='
    && s[|s| - 2] == '='
    && forall k :: 0 <= k < |s| - 2 ==> Unbase64(s[k]) >= 0
  }

  lemma DigitsOfTail(s: seq<Letter>)
    requires |s| >= 2
    ensures |Digits(s)| == |Digits(s[..|s| - 2])| + |Value(s[|s| - 2])| + |Value(s[|s| - 1])|
  {
    var n := |s| - 2;
    assert s == s[..n] + ([s[n]] + ([s[n + 1]] + []));
    DigitsConcat(s[..n], [s[n]] + ([s[n + 1]] + []));
    FirstLetter(s[n], [s[n + 1]] + []);
    FirstLetter(s[n + 1], []);
  }

  lemma SizeSuffices(s: seq<Letter>)
    ensures |Decode(Digits(s))| <= DecodedSize(s) <==> !Overfull(s)
  {
    hide Decode, Digits, Value;
    TableValue(0);
    if |s| >= 2 {
      var front := s[..|s| - 2];
      DigitsOfTail(s);
      AllDigits(front);
      ValueLength(s[|s| - 2]);
      ValueLength(s[|s| - 1]);
      assert forall k :: 0 <= k < |front| ==> front[k] == s[k];
      if s[|s| - 2] == '=' && s[|s| - 1] == '=' {
        assert |Digits(s)| == |Digits(front)|;
      }
    }
  }

  // The source's arithmetic.

  /** The shifts and masks of the encoder make the four digits of a group. */
  lemma EncoderBits(a: Byte, b: Byte, c: Byte)
    ensures var v := Join3(a, b, c);
            && Digit(v, 0) == Shr(a, 2)
            && Digit(v, 1) == Or(Shl(And(a, 0x03), 4), Shr(b, 4))
            && Digit(v, 2) == Or(Shl(And(b, 0x0F), 2), Shr(c, 6))
            && Digit(v, 3) == And(c, 0x3F)
  {
    BytesToDigits(a, b, c);
    EncoderArithmetic(a, b, c);
  }

  lemma EncoderArithmetic(a: Byte, b: Byte, c: Byte)
    ensures Shr(a, 2) == a / 4
    ensures Or(Shl(And(a, 0x03), 4), Shr(b, 4)) == a % 4 * 16 + b / 16
    ensures Or(Shl(And(b, 0x0F), 2), Shr(c, 6)) == b % 16 * 4 + c / 64
    ensures And(c, 0x3F) == c % 64
  {
    hide Shr, Shl, And, Or;
    Shifts(a);
    Shifts(b);
    Shifts(c);
    Masks(a);
    Masks(b);
    Masks(c);
    Shifts(a % 4);
    Shifts(b % 16);
    Joins(a % 4 * 16, b / 16);
    Joins(b % 16 * 4, c / 64);
  }

  lemma BytesToDigits(a: Byte, b: Byte, c: Byte)
    ensures var v := Join3(a, b, c);
            && Digit(v, 0) == a / 4
            && Digit(v, 1) == a % 4 * 16 + b / 16
            && Digit(v, 2) == b % 16 * 4 + c / 64
            && Digit(v, 3) == c % 64
  {
  }

  lemma Quotient(v: int, q: int, r: int)
    requires v == q * 256 + r && 0 <= r < 256
    ensures v / 256 == q && v % 256 == r
  {
  }

  /** The shifts and masks of the decoder make the three bytes of a group. */
  lemma DecoderBits(a: Sextet, b: Sextet, c: Sextet, d: Sextet)
    ensures var v := Join4(a, b, c, d);
            && Octet(v, 0) == Or(Shl(a, 2), Shr(And(b, 0x30), 4))
            && Octet(v, 1) == Or(Shl(And(b, 0x0F), 4), Shr(And(c, 0x3C), 2))
            && Octet(v, 2) == Or(Shl(And(c, 0x03), 6), And(d, 0x3F))
  {
    DigitsToBytes(a, b, c, d);
    DecoderArithmetic(a, b, c, d);
  }

  lemma DecoderArithmetic(a: Sextet, b: Sextet, c: Sextet, d: Sextet)
    ensures Or(Shl(a, 2), Shr(And(b, 0x30), 4)) == a * 4 + b / 16
    ensures Or(Shl(And(b, 0x0F), 4), Shr(And(c, 0x3C), 2)) == b % 16 * 16 + c / 4
    ensures Or(Shl(And(c, 0x03), 6), And(d, 0x3F)) == c % 4 * 64 + d
  {
    hide Shr, Shl, And, Or;
    Shifts(a);
    Masks(b);
    Masks(c);
    Masks(d);
    Shifts(b % 16);
    Shifts(c % 4);
    Joins(a * 4, b / 16);
    Joins(b % 16 * 16, c / 4);
    Joins(c % 4 * 64, d);
  }

  lemma DigitsToBytes(a: Sextet, b: Sextet, c: Sextet, d: Sextet)
    ensures var v := Join4(a, b, c, d);
            Octet(v, 0) == a * 4 + b / 16 && Octet(v, 1) == b % 16 * 16 + c / 4 && Octet(v, 2) == c % 4 * 64 + d
  {
    var w := (a * 4 + b / 16) * 256 + (b % 16 * 16 + c / 4);
    Quotient(Join4(a, b, c, d), w, c % 4 * 64 + d);
    Quotient(w, a * 4 + b / 16, b % 16 * 16 + c / 4);
  }

  /** The four characters of a group that has `bytes` bytes left. */
  function Round(v: Group, bytes: nat): (c: seq<Letter>)
    ensures |c| == 4
  {
    [Base64Table(Digit(v, 0)),
     Base64Table(Digit(v, 1)),
     if bytes > 1 then Base64Table(Digit(v, 2)) else '=',
     if bytes > 2 then Base64Table(Digit(v, 3)) else '=']
  }

  function FirstRound(b: seq<Byte>): (c: seq<Letter>)
    requires b != []
    ensures |c| == 4
  {
    Round(Join3(b[0], if |b| > 1 then b[1] else 0, if |b| > 2 then b[2] else 0), if |b| > 3 then 3 else |b|)
  }

  lemma EncodeStep(b: seq<Byte>)
    requires b != []
    ensures Encode(b) == FirstRound(b) + if |b| > 3 then Encode(b[3..]) else []
  {
    hide Digit, Base64Table;
  }

  /** The range check of `SLICE_ARGS`. */
  function SliceArgs(start: int, end: int, length: nat): Result<()> {
    if start < 0 || end < 0 then Err("Bad argument.")
    else if start > end then Err("Must have start <= end")
    else if end > length then Err("end cannot be longer than parent.length")
    else Ok(())
  }

  /** Just the ranges within the buffer are accepted, the empty one at its end among them. */
  lemma RangesAccepted(start: int, end: int, length: nat)
    ensures SliceArgs(start, end, length).Ok? <==> 0 <= start <= end <= length
    ensures SliceArgs(start, end, length).Err? ==>
              SliceArgs(start, end, length).message ==
              if start < 0 || end < 0 then "Bad argument."
              else if start > end then "Must have start <= end" else "end cannot be longer than parent.length"
  {
  }

  method NextByte(data: array<Byte>, i: nat, end: nat) returns (bits: Byte, oob: bool)
    requires end <= data.Length
    ensures oob == (i >= end) && bits == if i < end then data[i] else 0
  {
    if i < end {
      bits, oob := data[i], false;
    } else {
      bits, oob := 0, true;
    }
  }

  /** The body of the encoder's loop, with its asserts. */
  method EncodeRound(data: array<Byte>, from: nat, end: nat, out: array<Letter>, at: nat, ghost rest: seq<Byte>)
    requires from < end <= data.Length && at + 4 <= out.Length
    requires rest == data[from..end]
    modifies out
    ensures out[..at + 4] == old(out[..at]) + FirstRound(rest)
  {
    hide Base64Table, Digit, Join3, Shr, Shl, And, Or;
    var i, j := from, at;
    var bitbuf0 := data[i];
    i := i + 1;
    var bitbuf1, b1Oob := NextByte(data, i, end);
    i := i + 1;
    var bitbuf2, b2Oob := NextByte(data, i, end);
    i := i + 1;
    EncoderBits(bitbuf0, bitbuf1, bitbuf2);
    assert FirstRound(rest) ==
           Round(Join3(bitbuf0, bitbuf1, bitbuf2), if b1Oob then 1 else if b2Oob then 2 else 3);
    var c := Shr(bitbuf0, 2);
    assert c < 64;
    out[j] := Base64Table(c);
    j := j + 1;
    assert j < out.Length;
    c := Or(Shl(And(bitbuf0, 0x03), 4), Shr(bitbuf1, 4));
    assert c < 64;
    out[j] := Base64Table(c);
    j := j + 1;
    assert j < out.Length;
    c := Or(Shl(And(bitbuf1, 0x0F), 2), Shr(bitbuf2, 6));
    assert c < 64;
    out[j] := if b1Oob then '=' else Base64Table(c);
    j := j + 1;
    assert j < out.Length;
    c := And(bitbuf2, 0x3F);
    assert c < 64;
    out[j] := if b2Oob then '=' else Base64Table(c);
    j := j + 1;
    assert j <= out.Length;
  }

  method Base64Slice(data: array<Byte>, start: int, end: int) returns (r: Result<seq<Letter>>)
    ensures SliceArgs(start, end, data.Length).Err? ==> r == Err(SliceArgs(start, end, data.Length).message)
    ensures r.Ok? <==> 0 <= start <= end <= data.Length
    ensures r.Ok? ==> r.value == Encode(data[start..end])
  {
    assert Encode([]) == [];
    hide Encode, FirstRound, OutLength, SliceArgs;
    RangesAccepted(start, end, data.Length);
    var check := SliceArgs(start, end, data.Length);
    if check.Err? {
      return Err(check.message);
    }
    var n := end - start;
    var outLen := OutLength(n);
    var out := new Letter[outLen];
    var i, j := start, 0;
    ghost var all := data[start..end];
    ghost var rest := all;
    EncodeLength(all);
    while i < end
      invariant start <= i && 0 <= j
      invariant rest == if i < end then all[i - start..] else []
      invariant j + |Encode(rest)| == outLen
      invariant out[..j] + Encode(rest) == Encode(all)
    {
      ghost var done := out[..j];
      EncodeStep(rest);
      EncodeRound(data, i, end, out, j, rest);
      i, j := i + 3, j + 4;
      rest := if |rest| > 3 then rest[3..] else [];
      assert out[..j] == done + out[j - 4..j];
      Reassociate(done, out[j - 4..j], Encode(rest));
    }
    assert out[..] == out[..j] + Encode(rest);
    r := Ok(out[..]);
  }

  /** `data` after the bytes of `b` have been stored one by one from `offset` on; a store past the
      end of the array has nothing of it to change. */
  function Overwritten(data: seq<Byte>, offset: nat, b: seq<Byte>): (r: seq<Byte>)
    ensures |r| == |data|
    ensures offset + |b| <= |data| ==> r == data[..offset] + b + data[offset + |b|..]
  {
    seq(|data|, k requires 0 <= k < |data| => if offset <= k < offset + |b| then b[k - offset] else data[k])
  }

  /** `*src`; a terminating NUL follows the string. */
  function At(s: seq<Letter>, src: nat): Letter
    requires src <= |s|
  {
    if src < |s| then s[src] else '\0'
  }

  method SkipToDigit(s: seq<Letter>, from: nat, left: int) returns (src: nat, remaining: int)
    requires from <= |s|
    ensures from <= src <= |s| && remaining == left - (src - from)
    ensures Digits(s[from..]) == Digits(s[src..])
    ensures src == |s| || Unbase64(s[src]) >= 0
  {
    src, remaining := from, left;
    while Unbase64(At(s, src)) < 0 && src < |s|
      invariant from <= src <= |s| && remaining == left - (src - from)
      invariant Digits(s[from..]) == Digits(s[src..])
      decreases |s| - src
    {
      src, remaining := src + 1, remaining - 1;
    }
  }

  /** One of the four stretches of the decoder's loop that look for a digit; `k` digits of the group
      have been read, and `remaining` has not been told. */
  method ReadDigit(s: seq<Letter>, from: nat, left: int, k: nat) returns (src: nat, remaining: int, found: bool, v: int)
    requires from <= |s| && left == |s| - from + k
    ensures from <= src <= |s| && remaining == |s| - src + k + if found then 1 else 0
    ensures 0 <= v < 64
    ensures found ==> from < src && Digits(s[from..]) == [v] + Digits(s[src..])
    ensures !found ==> Digits(s[from..]) == []
  {
    src, remaining := SkipToDigit(s, from, left);
    if remaining <= k || At(s, src) == '=' {
      return src, remaining, false, 0;
    }
    found, v := true, Unbase64(At(s, src));
    src := src + 1;
  }

  lemma DecodeGroup(a: Sextet, b: Sextet, c: Sextet, d: Sextet, rest: seq<Sextet>)
    ensures var x, y, z := Or(Shl(a, 2), Shr(And(b, 0x30), 4)), Or(Shl(And(b, 0x0F), 4), Shr(And(c, 0x3C), 2)),
                           Or(Shl(And(c, 0x03), 6), And(d, 0x3F));
      && Decode([a, b, c, d] + rest) == [x, y, z] + Decode(rest)
      && Decode([a, b, c]) == [x, y] && Decode([a, b]) == [x] && Decode([a]) == Decode([]) == []
  {
    hide Octet, Join4, Shr, Shl, And, Or;
    DecoderBits(a, b, c, d);
    DecoderBits(a, b, c, 0);
    DecoderBits(a, b, 0, 0);
    assert ([a, b, c, d] + rest)[4..] == rest;
  }

  /** `*dst++ = b`. */
  method Put(data: array<Byte>, dst: nat, b: Byte, ghost was: seq<Byte>, ghost offset: nat, ghost stored: seq<Byte>)
    requires |was| == data.Length && data[..] == Overwritten(was, offset, stored)
    requires dst == offset + |stored|
    modifies data
    ensures data[..] == Overwritten(was, offset, stored + [b])
  {
    if dst < data.Length {
      data[dst] := b;
    }
  }

  /** The body of the decoder's loop; `more` is false where it breaks. */
  method DecodeRound(data: array<Byte>, s: seq<Letter>, from: nat, to: nat,
                     ghost was: seq<Byte>, ghost offset: nat, ghost stored: seq<Byte>)
    returns (src: nat, dst: nat, more: bool, ghost round: seq<Byte>)
    requires |was| == data.Length && data[..] == Overwritten(was, offset, stored)
    requires from <= |s| && to == offset + |stored|
    modifies data
    ensures src <= |s| && dst == to + |round|
    ensures data[..] == Overwritten(was, offset, stored + round)
    ensures more ==> from < src && Decode(Digits(s[from..])) == round + Decode(Digits(s[src..]))
    ensures !more ==> Decode(Digits(s[from..])) == round
  {
    hide Digits, Decode, Overwritten, Shr, Shl, And, Or;
    ghost var all := stored;
    ghost var digits := Digits(s[from..]);
    src, dst, more, round := from, to, false, [];
    assert stored + [] == stored;
    var remaining := |s| - src;
    var a, b, c, d;
    src, remaining, more, a := ReadDigit(s, src, remaining, 0);
    DecodeGroup(a, 0, 0, 0, []);
    if !more {
      return;
    }
    src, remaining, more, b := ReadDigit(s, src, remaining, 1);
    DecodeGroup(a, b, 0, 0, []);
    if !more {
      assert digits == [a];
      return;
    }
    assert digits == [a, b] + Digits(s[src..]);
    var byte := Or(Shl(a, 2), Shr(And(b, 0x30), 4));
    Put(data, dst, byte, was, offset, all);
    dst, round, all := dst + 1, [byte], all + [byte];
    assert all == stored + round;
    src, remaining, more, c := ReadDigit(s, src, remaining, 2);
    DecodeGroup(a, b, c, 0, []);
    if !more {
      assert digits == [a, b];
      return;
    }
    assert digits == [a, b, c] + Digits(s[src..]);
    byte := Or(Shl(And(b, 0x0F), 4), Shr(And(c, 0x3C), 2));
    Put(data, dst, byte, was, offset, all);
    dst, round, all := dst + 1, round + [byte], all + [byte];
    assert all == stored + round;
    src, remaining, more, d := ReadDigit(s, src, remaining, 3);
    DecodeGroup(a, b, c, d, Digits(s[src..]));
    if !more {
      assert digits == [a, b, c];
      return;
    }
    assert digits == [a, b, c, d] + Digits(s[src..]);
    byte := Or(Shl(And(c, 0x03), 6), And(d, 0x3F));
    Put(data, dst, byte, was, offset, all);
    dst, round, all := dst + 1, round + [byte], all + [byte];
    assert all == stored + round;
  }

  /** What `Base64Write` returns, by its checks and by the decoding of RFC 4648. */
  function Written(s: seq<Letter>, offset: int, length: nat): Result<nat> {
    if offset == 0 && length == 0 then Ok(0)
    else if offset < 0 || offset >= length then Err("Offset is out of bounds")
    else if DecodedSize(s) > length - offset then Err("Buffer too small")
    else Ok(|Decode(Digits(s))|)
  }

  /** A negative offset is out of bounds, because it is converted to `size_t`. */
  method Base64Write(data: array<Byte>, s: seq<Letter>, offset: int) returns (r: Result<nat>)
    modifies data
    ensures r == Written(s, offset, data.Length)
    ensures r.Ok? <==> (offset == 0 && data.Length == 0) || (0 <= offset < data.Length && DecodedSize(s) <= data.Length - offset)
    ensures r.Err? || data.Length == 0 ==> data[..] == old(data[..])
    ensures r.Ok? && data.Length > 0 ==> data[..] == Overwritten(old(data[..]), offset, Decode(Digits(s)))
    ensures r.Ok? && data.Length > 0 && !Overfull(s) ==> offset + r.value <= data.Length
  {
    hide Digits, Decode, Overwritten, DecodedSize, Overfull;
    if offset == 0 && data.Length == 0 {
      return Ok(0);
    }
    if offset < 0 || offset >= data.Length {
      return Err("Offset is out of bounds");
    }
    var size := DecodedSize(s);
    if size > data.Length - offset {
      return Err("Buffer too small");
    }
    SizeSuffices(s);
    ghost var was, stored := data[..], [];
    ghost var all := Decode(Digits(s));
    var dst, src := offset, 0;
    NothingStored(was, offset);
    EndOfDigits(s);
    while src < |s|
      invariant 0 <= src <= |s| && dst == offset + |stored|
      invariant data[..] == Overwritten(was, offset, stored)
      invariant stored + Decode(Digits(s[src..])) == all
    {
      ghost var before := stored;
      var more;
      ghost var round;
      src, dst, more, round := DecodeRound(data, s, src, dst, was, offset, stored);
      stored := stored + round;
      if !more {
        assert stored == all;
        break;
      }
      Reassociate(before, round, Decode(Digits(s[src..])));
    }
    assert stored == all;
    r := Ok(dst - offset);
  }

  lemma NothingStored(was: seq<Byte>, offset: nat)
    ensures Overwritten(was, offset, []) == was
  {
  }

  lemma EndOfDigits(s: seq<Letter>)
    ensures s[0..] == s && s[|s|..] == [] && Decode(Digits(s[|s|..])) == []
  {
  }

  /** Writing an encoding into a buffer of the original size gives the original. */
  lemma WriteUndoesSlice(b: seq<Byte>, was: seq<Byte>)
    requires |was| == |b|
    ensures Written(Encode(b), 0, |b|) == Ok(|b|)
    ensures Overwritten(was, 0, Decode(Digits(Encode(b)))) == b
  {
    hide Encode, Decode, Digits, DecodedSize;
    RoundTrip(b);
    SizeIsExact(b);
  }

  lemma OverfullExample()
    ensures var s: seq<Letter> := ['A', 'A', 'A', 'A', '=', '='];
            Overfull(s) && DecodedSize(s) == 2 && |Decode(Digits(s))| == 3
  {
    var s: seq<Letter> := ['A', 'A', 'A', 'A', '=', '='];
    TableValue(0);
    FourLetters(['A', 'A', 'A', 'A'], ['=', '=']);
    assert s == ['A', 'A', 'A', 'A'] + ['=', '='];
    NoDigits(['=', '=']);
  }
}

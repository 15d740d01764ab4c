/**
  UTF-8 as RFC 3629 defines it: the encoding of section 3 and the grammar of section 4.
 */
module Utf8 {
  import opened Basics

  /** A character: any code point but the surrogates. */
  type Scalar = x: int | 0 <= x < 0xD800 || 0xE000 <= x < 0x11_0000

  function EncodeScalar(c: Scalar): (b: seq<Byte>)
    ensures 1 <= |b| <= 4
  {
    if c < 0x80 then [c]
    else if c < 0x800 then [0xC0 + c / 64, 0x80 + c % 64]
    else if c < 0x1_0000 then [0xE0 + c / 64 / 64, 0x80 + c / 64 % 64, 0x80 + c % 64]
    else [0xF0 + c / 64 / 64 / 64, 0x80 + c / 64 / 64 % 64, 0x80 + c / 64 % 64, 0x80 + c % 64]
  }

  function Encode(s: seq<Scalar>): (b: seq<Byte>) {
    if s == [] then [] else EncodeScalar(s[0]) + Encode(s[1..])
  }

  /** The number of bytes that a first byte announces; 0 for a byte that cannot be first. */
  function Width(lead: Byte): (w: nat)
    ensures w <= 4
  {
    if lead < 0x80 then 1
    else if 0xC0 <= lead < 0xE0 then 2
    else if 0xE0 <= lead < 0xF0 then 3
    else if 0xF0 <= lead < 0xF8 then 4
    else 0
  }

  predicate Tail(b: Byte) {
    0x80 <= b < 0xC0
  }

  /** The production `UTF8-char`. */
  predicate OneCharacter(b: seq<Byte>) {
    || (|b| == 1 && b[0] < 0x80)
    || (|b| == 2 && 0xC2 <= b[0] < 0xE0 && Tail(b[1]))
    || (|b| == 3 && Tail(b[1]) && Tail(b[2])
        && (|| (b[0] == 0xE0 && 0xA0 <= b[1])
            || 0xE1 <= b[0] < 0xED
            || (b[0] == 0xED && b[1] < 0xA0)
            || 0xEE <= b[0] < 0xF0))
    || (|b| == 4 && Tail(b[1]) && Tail(b[2]) && Tail(b[3])
        && (|| (b[0] == 0xF0 && 0x90 <= b[1])
            || 0xF1 <= b[0] < 0xF4
            || (b[0] == 0xF4 && b[1] < 0x90)))
  }

  /** The production `UTF8-octets`. */
  predicate Valid(b: seq<Byte>) {
    b != [] ==> 0 < Width(b[0]) <= |b| && OneCharacter(b[..Width(b[0])]) && Valid(b[Width(b[0])..])
  }

  /** The bits of `tail` after those of `high`. */
  function Continued(high: int, tail: Byte): int {
    high * 64 + (tail - 0x80)
  }

  function DecodeScalar(b: seq<Byte>): (c: Scalar)
    requires OneCharacter(b)
  {
    match |b|
    case 1 => b[0]
    case 2 => Continued(b[0] - 0xC0, b[1])
    case 3 => Continued(Continued(b[0] - 0xE0, b[1]), b[2])
    case _ => Continued(Continued(Continued(b[0] - 0xF0, b[1]), b[2]), b[3])
  }

  function Decode(b: seq<Byte>): (s: seq<Scalar>)
    requires Valid(b)
  {
    if b == [] then [] else [DecodeScalar(b[..Width(b[0])])] + Decode(b[Width(b[0])..])
  }

  /** The grammar generates the encodings of characters, and nothing else. */
  lemma ScalarRoundTrip(c: Scalar)
    ensures OneCharacter(EncodeScalar(c)) && DecodeScalar(EncodeScalar(c)) == c
    ensures Width(EncodeScalar(c)[0]) == |EncodeScalar(c)|
  {
  }

  /** Examples of section 7 of RFC 3629, and one of each length. */
  lemma Examples()
    ensures Encode([0x41, 0x2262, 0x0391, 0x2E]) == [0x41, 0xE2, 0x89, 0xA2, 0xCE, 0x91, 0x2E]
    ensures EncodeScalar(0x2_33B4) == [0xF0, 0xA3, 0x8E, 0xB4] && EncodeScalar(0xE9) == [0xC3, 0xA9]
  {
    var s: seq<Scalar> := [0x41, 0x2262, 0x0391, 0x2E];
    assert s[1..] == [0x2262, 0x0391, 0x2E] && s[1..][1..] == [0x0391, 0x2E] && s[1..][1..][1..] == [0x2E];
    assert Encode([0x2E]) == [0x2E];
  }

  lemma ContinuedTurns(high: int, tail: Byte)
    requires Tail(tail)
    ensures Continued(high, tail) / 64 == high && 0x80 + Continued(high, tail) % 64 == tail
  {
  }

  lemma CharacterRoundTrip(b: seq<Byte>)
    requires OneCharacter(b)
    ensures EncodeScalar(DecodeScalar(b)) == b
    ensures Width(b[0]) == |b|
  {
    if |b| == 2 {
      ContinuedTurns(b[0] - 0xC0, b[1]);
    } else if |b| == 3 {
      ContinuedTurns(b[0] - 0xE0, b[1]);
      ContinuedTurns(Continued(b[0] - 0xE0, b[1]), b[2]);
    } else if |b| == 4 {
      ContinuedTurns(b[0] - 0xF0, b[1]);
      ContinuedTurns(Continued(b[0] - 0xF0, b[1]), b[2]);
      ContinuedTurns(Continued(Continued(b[0] - 0xF0, b[1]), b[2]), b[3]);
    }
  }

  /** One more character in front. */
  lemma Prepend(first: seq<Byte>, rest: seq<Byte>)
    requires OneCharacter(first)
    ensures Valid(first + rest) <==> Valid(rest)
    ensures Valid(rest) ==> Decode(first + rest) == [DecodeScalar(first)] + Decode(rest)
  {
    hide DecodeScalar, EncodeScalar;
    CharacterRoundTrip(first);
    hide OneCharacter, Width;
    assert (first + rest)[..|first|] == first && (first + rest)[|first|..] == rest;
  }

  lemma {:induction false} EncodeIsValid(s: seq<Scalar>)
    ensures Valid(Encode(s)) && Decode(Encode(s)) == s
  {
    hide OneCharacter, Width, DecodeScalar, EncodeScalar;
    if s != [] {
      EncodeIsValid(s[1..]);
      ScalarRoundTrip(s[0]);
      Prepend(EncodeScalar(s[0]), Encode(s[1..]));
    }
  }

  lemma {:induction false} ValidIsEncoded(b: seq<Byte>)
    requires Valid(b)
    ensures Encode(Decode(b)) == b
  {
    hide OneCharacter, Width, DecodeScalar, EncodeScalar;
    if b != [] {
      var w := Width(b[0]);
      CharacterRoundTrip(b[..w]);
      ValidIsEncoded(b[w..]);
      assert b == b[..w] + b[w..];
    }
  }

  lemma {:induction false} EncodeConcat(s: seq<Scalar>, t: seq<Scalar>)
    ensures Encode(s + t) == Encode(s) + Encode(t)
  {
    hide EncodeScalar;
    if s == [] {
      assert s + t == t;
    } else {
      assert (s + t)[1..] == s[1..] + t;
      EncodeConcat(s[1..], t);
    }
  }

  lemma FirstCharacter(b: seq<Byte>)
    requires Valid(b) && b != []
    ensures var w := Width(b[0]);
            && 0 < w <= |b| && OneCharacter(b[..w]) && Valid(b[w..])
            && b == b[..w] + b[w..]
            && Decode(b) == [DecodeScalar(b[..w])] + Decode(b[w..])
  {
    hide OneCharacter, Width, DecodeScalar;
  }

  /** Valid sequences can be decoded piece by piece. */
  lemma {:induction false} DecodeConcat(a: seq<Byte>, b: seq<Byte>)
    requires Valid(a)
    ensures Valid(a + b) <==> Valid(b)
    ensures Valid(b) ==> Decode(a + b) == Decode(a) + Decode(b)
  {
    hide OneCharacter, Width, DecodeScalar;
    if a == [] {
      assert a + b == b;
    } else {
      hide *;
      var w := Width(a[0]);
      FirstCharacter(a);
      DecodeConcat(a[w..], b);
      Prepend(a[..w], a[w..] + b);
      assert a + b == a[..w] + (a[w..] + b);
    }
  }
}

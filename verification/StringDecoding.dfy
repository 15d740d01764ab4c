/**
  lib/string_decoder.js: decoding a stream of UTF-8 that arrives in arbitrary pieces.

  `Write` returns the byte segments that the source hands to `Buffer.toString`; the string it
  returns is their decodings, one after the other.
 */
module StringDecoding {
  import opened Basics
  import opened Utf8

  /** The length of the character that byte `c` begins, if `i` bytes from `c` on are not all of it. */
  function Announced(c: Byte, i: nat): (length: nat)
    requires 1 <= i <= 3
    ensures length == if Width(c) > i then Width(c) else 0
  {
    if i == 1 && c / 32 == 0x06 then 2
    else if i <= 2 && c / 16 == 0x0E then 3
    else if i <= 3 && c / 8 == 0x1E then 4
    else 0
  }

  /** The number of bytes at the end of `b`, `i` at most, that begin a character without ending it. */
  function Scan(b: seq<Byte>, i: nat): (k: nat)
    requires i <= |b| && i <= 3
    ensures k <= i
  {
    if i == 0 then 0
    else if Announced(b[|b| - i], i) > 0 then i
    else Scan(b, i - 1)
  }

  function Kept(b: seq<Byte>): (k: nat)
    ensures k <= |b| && k <= 3
    ensures k > 0 ==> Width(b[|b| - k]) > k
  {
    ScanStops(b, if |b| >= 3 then 3 else |b|);
    Scan(b, if |b| >= 3 then 3 else |b|)
  }

  lemma {:induction false} ScanStops(b: seq<Byte>, i: nat)
    requires i <= |b| && i <= 3
    ensures var k := Scan(b, i); k > 0 ==> Width(b[|b| - k]) > k
  {
    hide Width;
    if i > 0 {
      ScanStops(b, i - 1);
    }
  }

  /** `b` is where a valid sequence may have been cut. */
  ghost predicate Prefix(b: seq<Byte>) {
    exists more :: Valid(b + more)
  }

  lemma {:induction false} ScanIsLocal(a: seq<Byte>, b: seq<Byte>, i: nat)
    requires i <= |b| && i <= 3
    ensures Scan(a + b, i) == Scan(b, i)
  {
    if i > 0 {
      ScanIsLocal(a, b, i - 1);
    }
  }

  lemma {:induction false} NothingIn(first: seq<Byte>, rest: seq<Byte>, i: nat)
    requires OneCharacter(first) && |rest| <= i <= |first + rest| && i <= 3
    ensures Scan(first + rest, i) == Scan(rest, |rest|)
  {
    CharacterRoundTrip(first);
    if i == |rest| {
      ScanIsLocal(first, rest, i);
    } else {
      NothingIn(first, rest, i - 1);
      assert (first + rest)[|first + rest| - i] == first[|first| + |rest| - i];
    }
  }

  lemma KeptSkips(first: seq<Byte>, rest: seq<Byte>)
    requires OneCharacter(first)
    ensures Kept(first + rest) == Kept(rest)
  {
    if |rest| >= 3 {
      ScanIsLocal(first, rest, 3);
    } else {
      NothingIn(first, rest, if |first + rest| >= 3 then 3 else |first + rest|);
    }
  }

  lemma TakeCharacter(b: seq<Byte>)
    requires Prefix(b) && b != [] && Width(b[0]) <= |b|
    ensures var w := Width(b[0]);
            w > 0 && OneCharacter(b[..w]) && Valid(b[..w]) && Prefix(b[w..])
  {
    hide OneCharacter, Width;
    var more :| Valid(b + more);
    var w := Width(b[0]);
    assert (b + more)[..w] == b[..w] && (b + more)[w..] == b[w..] + more;
    Prepend(b[..w], []);
    assert b[..w] + [] == b[..w];
  }

  /** What is not kept back is whole characters. */
  lemma {:induction false} KeptIsRight(b: seq<Byte>)
    requires Prefix(b)
    ensures Valid(b[..|b| - Kept(b)])
    decreases |b|
  {
    hide OneCharacter;
    if b == [] {
    } else if |b| < Width(b[0]) {
      assert Kept(b) == |b|;
    } else {
      var w := Width(b[0]);
      TakeCharacter(b);
      assert b == b[..w] + b[w..];
      KeptSkips(b[..w], b[w..]);
      KeptIsRight(b[w..]);
      var n := |b| - Kept(b);
      assert w <= n <= |b|;
      Prepend(b[..w], b[w..][..n - w]);
      assert b[..n] == b[..w] + b[w..][..n - w];
    }
  }

  class StringDecoder {
    const utf8: bool
    const charBuffer: array<Byte>
    var charReceived: nat
    var charLength: nat

    ghost predicate Valid()
      reads this, charBuffer
    {
      && charBuffer.Length == 4
      && (|| charReceived == charLength == 0
          || (utf8 && 0 < charReceived < charLength == Width(charBuffer[0])))
    }

    /** The bytes of a character that is not complete yet. */
    function Pending(): seq<Byte>
      requires charReceived <= charBuffer.Length
      reads this, charBuffer
    {
      charBuffer[..charReceived]
    }

    constructor (utf8: bool)
      ensures this.utf8 == utf8 && fresh(charBuffer)
      ensures Valid() && Pending() == []
    {
      this.utf8 := utf8;
      charBuffer := new Byte[4];
      charReceived, charLength := 0, 0;
    }

    /** `from.copy(charBuffer, at)`. */
    method Copy(from: seq<Byte>, at: nat)
      requires at + |from| <= charBuffer.Length
      modifies charBuffer
      ensures charBuffer[..at + |from|] == old(charBuffer[..at]) + from
    {
      var k := 0;
      while k < |from|
        invariant k <= |from|
        invariant charBuffer[..at + k] == old(charBuffer[..at]) + from[..k]
      {
        charBuffer[at + k] := from[k];
        k := k + 1;
      }
    }

    /** The second half of `write`: hold back the bytes of a character that `buffer` cuts off. */
    method HoldBack(buffer: seq<Byte>) returns (segments: seq<seq<Byte>>)
      requires Valid() && utf8 && charLength == 0
      modifies this, charBuffer
      ensures Valid()
      ensures Pending() == buffer[|buffer| - Kept(buffer)..]
      ensures segments == [buffer[..|buffer| - Kept(buffer)]] || (segments == [] && Kept(buffer) == |buffer|)
    {
      hide Width;
      var i: nat := if |buffer| >= 3 then 3 else |buffer|;
      while i > 0
        invariant i <= |buffer| && i <= 3
        invariant charReceived == charLength == 0
        invariant Scan(buffer, i) == Kept(buffer)
      {
        charLength := Announced(buffer[|buffer| - i], i);
        if charLength > 0 {
          break;
        }
        i := i - 1;
      }
      if charLength == 0 {
        assert buffer[..|buffer| - 0] == buffer;
        return [buffer];
      }
      Copy(buffer[|buffer| - i..], 0);
      charReceived := i;
      assert charBuffer[0] == charBuffer[..i][0];
      if |buffer| - i > 0 {
        return [buffer[..|buffer| - i]];
      }
      segments := [];
    }

    /** The first half of `write`: add to the character that the last write cut off.  `done` says
        that nothing of the chunk is left. */
    method Complete(chunk: seq<Byte>) returns (segments: seq<seq<Byte>>, rest: seq<Byte>, done: bool)
      requires Valid() && utf8 && charLength > 0
      modifies this, charBuffer
      ensures Valid()
      ensures !done ==> charLength == 0
      ensures Flatten(segments) + (if done then Pending() else rest) == old(Pending()) + chunk
      ensures Prefix(old(Pending()) + chunk) ==> AllValid(segments) && (!done ==> Prefix(rest))
    {
      hide Utf8.Valid, Prefix, Width;
      var i := if |chunk| >= charLength - charReceived then charLength - charReceived else |chunk|;
      ghost var all := Pending() + chunk;
      segments, rest, done := [], [], true;
      Copy(chunk[..i], charReceived);
      charReceived := charReceived + i;
      assert Pending() == all[..charReceived];
      if charReceived < charLength {
        assert charBuffer[0] == Pending()[0];
        return;
      }
      segments := [charBuffer[..charLength]];
      rest := chunk[i..];
      CutHere(all, charLength, rest);
      if Prefix(all) {
        TakeCharacter(all);
      }
      charReceived, charLength := 0, 0;
      done := i == |chunk|;
    }

    /** Nothing is lost, added or reordered, whatever the bytes; and if they can be the beginning of
        valid UTF-8, characters are never split between segments. */
    method Write(chunk: seq<Byte>) returns (segments: seq<seq<Byte>>)
      requires Valid()
      modifies this, charBuffer
      ensures Valid()
      ensures Flatten(segments) + Pending() == old(Pending()) + chunk
      ensures utf8 && Prefix(old(Pending()) + chunk) ==> AllValid(segments)
      ensures !utf8 ==> segments == [chunk]
    {
      hide Prefix, Width, Kept, AllValid, Flatten;
      if !utf8 {
        Single(chunk);
        return [chunk];
      }
      var split: seq<seq<Byte>>, buffer, done := [], chunk, false;
      Nothing(chunk);
      if charLength > 0 {
        split, buffer, done := Complete(chunk);
        if done {
          return split;
        }
      }
      var whole := HoldBack(buffer);
      Held(buffer, whole);
      Joined(split, whole, Pending());
      segments := split + whole;
    }
  }

  predicate AllValid(segments: seq<seq<Byte>>) {
    forall s :: s in segments ==> Utf8.Valid(s)
  }

  lemma CutHere(all: seq<Byte>, n: nat, rest: seq<Byte>)
    requires n <= |all| && rest == all[n..]
    ensures Flatten([all[..n]]) + rest == all
  {
  }

  lemma Held(buffer: seq<Byte>, whole: seq<seq<Byte>>)
    requires whole == [buffer[..|buffer| - Kept(buffer)]] || (whole == [] && Kept(buffer) == |buffer|)
    ensures Flatten(whole) + buffer[|buffer| - Kept(buffer)..] == buffer
    ensures Prefix(buffer) ==> AllValid(whole)
  {
    hide Kept, Prefix, Valid;
    if Prefix(buffer) {
      KeptIsRight(buffer);
    }
  }

  lemma Joined(a: seq<seq<Byte>>, b: seq<seq<Byte>>, rest: seq<Byte>)
    ensures Flatten(a + b) + rest == Flatten(a) + (Flatten(b) + rest)
    ensures AllValid(a) && AllValid(b) ==> AllValid(a + b)
  {
    hide Flatten, Valid;
    FlattenConcat(a, b);
  }

  lemma Single(b: seq<Byte>)
    ensures Flatten([b]) + [] == [] + b
  {
  }

  lemma Nothing(b: seq<Byte>)
    ensures Flatten([]) + b == [] + b == b && AllValid([])
  {
  }

  function DecodeAll(segments: seq<seq<Byte>>): (s: seq<Scalar>)
    requires AllValid(segments)
  {
    if segments == [] then [] else Decode(segments[0]) + DecodeAll(segments[1..])
  }

  /** Decoding the segments one by one is decoding them joined. */
  lemma {:induction false} Piecewise(segments: seq<seq<Byte>>)
    requires AllValid(segments)
    ensures Valid(Flatten(segments)) && DecodeAll(segments) == Decode(Flatten(segments))
  {
    hide Valid, Decode;
    if segments == [] {
      NothingToDecode();
    } else {
      Piecewise(segments[1..]);
      DecodeConcat(segments[0], Flatten(segments[1..]));
    }
  }

  lemma NothingToDecode()
    ensures Valid([]) && Decode([]) == []
  {
  }

  /** An incomplete character is not valid, and is not followed by anything else. */
  lemma CompleteAtEnd(segments: seq<seq<Byte>>, pending: seq<Byte>)
    requires AllValid(segments) && Valid(Flatten(segments) + pending)
    requires pending != [] ==> |pending| < Width(pending[0])
    ensures pending == []
  {
    hide Width, Decode, OneCharacter;
    Piecewise(segments);
    DecodeConcat(Flatten(segments), pending);
  }

  lemma PrefixOf(a: seq<Byte>, b: seq<Byte>)
    requires Prefix(a + b)
    ensures Prefix(a)
  {
    var more :| Valid(a + b + more);
    assert a + b + more == a + (b + more);
  }

  lemma Onward(chunks: seq<seq<Byte>>, k: nat, segments: seq<seq<Byte>>, was: seq<Byte>, more: seq<seq<Byte>>, now: seq<Byte>)
    requires k < |chunks| && Flatten(segments) + was == Flatten(chunks[..k])
    requires Flatten(more) + now == was + chunks[k]
    ensures Flatten(segments + more) + now == Flatten(chunks[..k + 1])
  {
    hide Flatten;
    FlattenConcat(segments, more);
    FlattenAppend(chunks[..k], chunks[k]);
    assert chunks[..k + 1] == chunks[..k] + [chunks[k]];
    assert Flatten(segments) + Flatten(more) + now == Flatten(segments) + (Flatten(more) + now);
    assert Flatten(segments) + was + chunks[k] == Flatten(segments) + (was + chunks[k]);
  }

  /** What `Write` gets, after what has been emitted, is a prefix too. */
  lemma StillPrefix(chunks: seq<seq<Byte>>, k: nat, segments: seq<seq<Byte>>, was: seq<Byte>)
    requires k < |chunks| && Flatten(segments) + was == Flatten(chunks[..k])
    requires Prefix(Flatten(chunks)) && AllValid(segments)
    ensures Prefix(was + chunks[k])
  {
    hide Flatten, Valid, Decode;
    var sent := Flatten(segments);
    FlattenConcat(chunks[..k + 1], chunks[k + 1..]);
    assert chunks[..k + 1] + chunks[k + 1..] == chunks;
    PrefixOf(Flatten(chunks[..k + 1]), Flatten(chunks[k + 1..]));
    FlattenAppend(chunks[..k], chunks[k]);
    assert chunks[..k + 1] == chunks[..k] + [chunks[k]];
    var more :| Valid(Flatten(chunks[..k + 1]) + more);
    assert Flatten(chunks[..k + 1]) + more == sent + (was + chunks[k] + more);
    Piecewise(segments);
    DecodeConcat(sent, was + chunks[k] + more);
  }

  lemma WholeIsPrefix(b: seq<Byte>)
    requires Valid(b)
    ensures Prefix(b)
  {
    hide Valid;
    assert b + [] == b;
  }

  /** A stream, in whatever pieces it arrives: for valid UTF-8 the result is that of decoding all of
      it at once, and no more than an incomplete character is ever held back. */
  method DecodeStream(chunks: seq<seq<Byte>>) returns (segments: seq<seq<Byte>>, ghost pending: seq<Byte>)
    ensures Valid(Flatten(chunks)) ==> AllValid(segments) && DecodeAll(segments) == Decode(Flatten(chunks))
    ensures Flatten(segments) + pending == Flatten(chunks) && |pending| < 4
  {
    hide Valid, Decode, Flatten, Prefix, AllValid, DecodeAll;
    ghost var all := Flatten(chunks);
    if Valid(all) {
      WholeIsPrefix(all);
    }
    var decoder := new StringDecoder(true);
    segments := [];
    Nothing([]);
    assert chunks[..0] == [];
    var k := 0;
    while k < |chunks|
      invariant k <= |chunks|
      invariant fresh(decoder) && fresh(decoder.charBuffer) && decoder.Valid() && decoder.utf8
      invariant Flatten(segments) + decoder.Pending() == Flatten(chunks[..k])
      invariant Prefix(all) ==> AllValid(segments)
    {
      ghost var was := decoder.Pending();
      if Prefix(all) {
        StillPrefix(chunks, k, segments, was);
      }
      var more := decoder.Write(chunks[k]);
      Onward(chunks, k, segments, was, more, decoder.Pending());
      Joined(segments, more, []);
      segments := segments + more;
      k := k + 1;
    }
    assert chunks[..k] == chunks;
    pending := decoder.Pending();
    if Valid(all) {
      CompleteAtEnd(segments, pending);
      Piecewise(segments);
      assert Flatten(segments) + [] == Flatten(segments);
    }
  }
}

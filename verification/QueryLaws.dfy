/**
  What `unescapeBuffer` and `parse` make of query strings that `stringify` did not print: triplets
  in either case, plus signs, percent signs that begin no triplet, and further separators.
 */
module QueryLaws {
  import opened Basics
  import opened Strings
  import opened Utf8
  import opened QueryStrings

  // Digits and characters, as section 2 of RFC 3986 lists them.

  const SMALL := "0123456789abcdef"
  const CAPITAL := "0123456789ABCDEF"

  /** The unit is the hexadecimal digit for `v`, in either case. */
  predicate Shows(c: Unit, v: nat) {
    v < 16 && (c == SMALL[v] as int || c == CAPITAL[v] as int)
  }

  /** A digit has the value of its place in the list, and nothing else has a value. */
  lemma HexValues(c: Unit)
    ensures HexValue(c) >= 0 <==> exists v: nat :: Shows(c, v)
    ensures forall v: nat :: Shows(c, v) ==> HexValue(c) == v
  {
    if HexValue(c) >= 0 {
      ShownBy(c);
    }
    forall v: nat | Shows(c, v)
      ensures HexValue(c) == v
    {
      ValueOfShown(c, v);
    }
  }

  lemma ShownBy(c: Unit)
    requires HexValue(c) >= 0
    ensures Shows(c, HexValue(c))
  {
  }

  lemma ValueOfShown(c: Unit, v: nat)
    requires Shows(c, v)
    ensures HexValue(c) == v
  {
  }

  const UPPER := "ABCDEFGHIJKLMNOPQRSTUVWXYZ"
  const LOWER := "abcdefghijklmnopqrstuvwxyz"
  const NUMERALS := "0123456789"
  const MARKS := "-_.!~*'()"

  /** The unreserved characters. */
  predicate Listed(c: Scalar) {
    c < 128 && (c as char in UPPER || c as char in LOWER || c as char in NUMERALS || c as char in MARKS)
  }

  /** `encodeURIComponent` leaves just these alone; of any other character it prints each byte of its
      UTF-8 with capital digits. */
  lemma EscapedCharacter(c: Scalar)
    ensures Escape([c]) == [c] <==> Listed(c)
    ensures Escape([c]) != [c] ==> Escape([c]) == Triplets(EncodeScalar(c))
    ensures forall b: Byte :: Triplet(b) == ['%' as int, CAPITAL[b / 16] as int, CAPITAL[b % 16] as int]
  {
    assert [c][1..] == [] && Escape([]) == [];
    LeftAlone(c);
    assert forall d :: 0 <= d < 16 ==> HexDigit(d) == CAPITAL[d] as int;
    if !Unreserved(c) {
      var b := EncodeScalar(c);
      assert Triplets(b)[0] == PERCENT && |Triplets(b)| >= 3;
      assert Escape([c]) == Triplets(b) + [] == Triplets(b);
    }
  }

  lemma LeftAlone(c: Scalar)
    ensures Unreserved(c) <==> Listed(c)
  {
    assert forall i :: 0 <= i < 26 ==> UPPER[i] == 'A' + i as char;
    assert forall i :: 0 <= i < 26 ==> LOWER[i] == 'a' + i as char;
    assert forall i :: 0 <= i < 10 ==> NUMERALS[i] == '0' + i as char;
    if 'A' as int <= c <= 'Z' as int {
      assert UPPER[c - 'A' as int] == c as char;
    } else if 'a' as int <= c <= 'z' as int {
      assert LOWER[c - 'a' as int] == c as char;
    } else if '0' as int <= c <= '9' as int {
      assert NUMERALS[c - '0' as int] == c as char;
    }
  }

  /** `stringify({b: ["2", "3"]})` is "b=2&b=3". */
  lemma StringifyExample()
    ensures Stringify(map[[98] := Many([[50], [51]])], [[98]], '&' as int, '=' as int) == [98, 61, 50, 38, 98, 61, 51]
  {
    var b: Text, y: Text, z: Text := [98], [50], [51];
    var sep, eq: Unit := '&' as int, '=' as int;
    var obj: Object := map[b := Many([y, z])];
    ItselfEscaped();
    hide Escape;
    var first, second := Field(b, y, eq), Field(b, z, eq);
    assert first == [98, 61, 50] && second == [98, 61, 51];
    hide Field;
    assert [y, z][1..] == [z] && [z][1..] == [];
    assert Fields(b, [z], eq) == [second];
    assert Fields(b, [y, z], eq) == [first, second];
    hide Fields;
    assert [first, second][1..] == [second];
    assert Join([first, second], sep) == first + [sep] + second;
    OneEntry(obj, b, sep, eq);
    hide Join;
    assert FieldsOf(b, obj[b], eq) == [first, second];
  }

  lemma OneEntry(obj: Object, k: Text, sep: Unit, eq: Unit)
    requires k in obj
    ensures Stringify(obj, [k], sep, eq) == Join(FieldsOf(k, obj[k], eq), sep)
  {
    hide FieldsOf;
    assert [k][1..] == [] && Entries(obj, [], sep, eq) == [];
    assert Entries(obj, [k], sep, eq) == [Join(FieldsOf(k, obj[k], eq), sep)];
  }

  /** The entries of different keys are separated like those of an array. */
  lemma TwoEntries(obj: Object, a: Text, b: Text, sep: Unit, eq: Unit)
    requires a in obj && b in obj
    ensures Stringify(obj, [a, b], sep, eq) == Stringify(obj, [a], sep, eq) + [sep] + Stringify(obj, [b], sep, eq)
  {
    hide Fields, Texts;
    var first, second := Join(FieldsOf(a, obj[a], eq), sep), Join(FieldsOf(b, obj[b], eq), sep);
    assert [a, b][1..] == [b] && [b][1..] == [] && [a][1..] == [];
    assert Entries(obj, [], sep, eq) == [];
    assert Entries(obj, [a], sep, eq) == [first] && Entries(obj, [b], sep, eq) == [second];
    assert Entries(obj, [a, b], sep, eq) == [first] + [second];
    assert ([first] + [second])[1..] == [second];
    assert Join([first], sep) == first && Join([second], sep) == second;
  }

  lemma ItselfEscaped()
    ensures Escape([98]) == [98] && Escape([50]) == [50] && Escape([51]) == [51]
  {
    assert LOWER[1] == 'b' && NUMERALS[2] == '2' && NUMERALS[3] == '3';
    EscapedCharacter(98);
    EscapedCharacter(50);
    EscapedCharacter(51);
  }

  // Reading, one piece at a time.

  /** A triplet in either case is its byte; a plus sign is a space, if they are decoded; anything else
      is itself, or its lower byte. */
  lemma PieceIsRead(hi: Unit, lo: Unit, v: nat, w: nat, c: Unit, rest: seq<Unit>, decodeSpaces: bool)
    requires Shows(hi, v) && Shows(lo, w)
    ensures Unescape(['%' as int, hi, lo] + rest, decodeSpaces) == [16 * v + w] + Unescape(rest, decodeSpaces)
    ensures Unescape(['+' as int] + rest, true) == [0x20] + Unescape(rest, true)
    ensures Unescape(['+' as int] + rest, false) == [0x2B] + Unescape(rest, false)
    ensures c != '%' as int && c != '+' as int ==> Unescape([c] + rest, decodeSpaces) == [c % 256] + Unescape(rest, decodeSpaces)
  {
    ValueOfShown(hi, v);
    ValueOfShown(lo, w);
    hide HexValue;
    var t: seq<Unit> := ['%' as int, hi, lo] + rest;
    assert t[3..] == rest && t[1] == hi && t[2] == lo;
    assert (['+' as int] + rest)[1..] == rest && ([c] + rest)[1..] == rest;
  }

  ghost predicate IsDigit(c: Unit) {
    exists v: nat :: Shows(c, v)
  }

  /** A triplet begins at the `i`th unit. */
  ghost predicate Complete(s: seq<Unit>, i: nat) {
    i + 2 < |s| && s[i] == '%' as int && IsDigit(s[i + 1]) && IsDigit(s[i + 2])
  }

  /** The units that are looked at before one begins anew. */
  function Stretch(s: seq<Unit>): (k: nat)
    requires s != []
    ensures 0 < k <= |s|
  {
    if s[0] != PERCENT || |s| == 1 then 1 else if HexValue(s[1]) < 0 || |s| == 2 then 2 else 3
  }

  lemma StretchStays(s: seq<Unit>, decodeSpaces: bool)
    requires s != [] && !Complete(s, 0) && (forall i :: 0 <= i < Stretch(s) ==> s[i] < 256)
    requires decodeSpaces ==> s[0] != '+' as int
    ensures var k := Stretch(s); Unescape(s, decodeSpaces) == s[..k] + Unescape(s[k..], decodeSpaces)
  {
    if |s| >= 3 && s[0] == PERCENT {
      HexValues(s[1]);
      HexValues(s[2]);
    }
    hide HexValue, Complete;
    var k := Stretch(s);
    if k == 1 {
      assert s[..1] == [s[0]];
    } else if k == 2 {
      assert s[..2] == [s[0], s[1]];
    } else {
      assert s[..3] == [s[0], s[1], s[2]];
    }
    if k == |s| {
      assert s[k..] == [] && Unescape(s[k..], decodeSpaces) == [];
    }
  }

  /** Where there is no complete triplet, percent signs and everything else stand for themselves. */
  lemma {:induction false} IncompleteStays(s: seq<Unit>, decodeSpaces: bool)
    requires forall i: nat :: !Complete(s, i)
    requires forall i :: 0 <= i < |s| ==> s[i] < 256
    requires decodeSpaces ==> '+' as int !in s
    ensures Unescape(s, decodeSpaces) == s
  {
    if s != [] {
      StretchStays(s, decodeSpaces);
      hide Unescape, Stretch;
      var k := Stretch(s);
      forall i: nat
        ensures !Complete(s[k..], i)
      {
        CompleteBehind(s, k, i);
      }
      hide Complete;
      IncompleteStays(s[k..], decodeSpaces);
      assert s == s[..k] + s[k..];
    }
  }

  lemma CompleteBehind(s: seq<Unit>, k: nat, i: nat)
    requires k <= |s|
    ensures Complete(s[k..], i) ==> Complete(s, k + i)
  {
    hide IsDigit;
  }

  // Strings that differ in the case of their triplets only.

  ghost predicate SameDigit(x: Unit, y: Unit) {
    exists v: nat :: Shows(x, v) && Shows(y, v)
  }

  ghost predicate Recased(a: seq<Unit>, b: seq<Unit>)
    decreases |a|
  {
    if a == [] then b == []
    else if a[0] != '%' as int then b != [] && b[0] == a[0] && Recased(a[1..], b[1..])
    else
      && |a| >= 3 && |b| >= 3 && b[0] == a[0]
      && SameDigit(a[1], b[1]) && SameDigit(a[2], b[2]) && Recased(a[3..], b[3..])
  }

  lemma SameValue(x: Unit, y: Unit)
    requires SameDigit(x, y)
    ensures HexValue(x) == HexValue(y) >= 0
  {
    var v: nat :| Shows(x, v) && Shows(y, v);
    ValueOfShown(x, v);
    ValueOfShown(y, v);
  }

  lemma {:induction false} RecasedIsRead(a: seq<Unit>, b: seq<Unit>, decodeSpaces: bool)
    requires Recased(a, b)
    ensures Unescape(b, decodeSpaces) == Unescape(a, decodeSpaces)
    decreases |a|
  {
    if a != [] {
      if a[0] == '%' as int {
        RecasedIsRead(a[3..], b[3..], decodeSpaces);
        TripletRead(a, b, decodeSpaces);
      } else {
        RecasedIsRead(a[1..], b[1..], decodeSpaces);
        OtherRead(a, decodeSpaces);
        OtherRead(b, decodeSpaces);
      }
      hide Unescape, SameDigit;
    }
  }

  lemma TripletRead(a: seq<Unit>, b: seq<Unit>, decodeSpaces: bool)
    requires |a| >= 3 && |b| >= 3 && a[0] == b[0] == '%' as int && SameDigit(a[1], b[1]) && SameDigit(a[2], b[2])
    requires Unescape(b[3..], decodeSpaces) == Unescape(a[3..], decodeSpaces)
    ensures Unescape(b, decodeSpaces) == Unescape(a, decodeSpaces)
  {
    hide Unescape;
    var v: nat :| Shows(a[1], v) && Shows(b[1], v);
    var w: nat :| Shows(a[2], w) && Shows(b[2], w);
    hide Shows;
    PieceIsRead(a[1], a[2], v, w, 0, a[3..], decodeSpaces);
    PieceIsRead(b[1], b[2], v, w, 0, b[3..], decodeSpaces);
    assert a == ['%' as int, a[1], a[2]] + a[3..] && b == ['%' as int, b[1], b[2]] + b[3..];
  }

  lemma OtherRead(a: seq<Unit>, decodeSpaces: bool)
    requires a != [] && a[0] != '%' as int
    ensures Unescape(a, decodeSpaces)
            == [if decodeSpaces && a[0] == PLUS then SPACE else LowByte(a[0])] + Unescape(a[1..], decodeSpaces)
  {
  }

  lemma {:induction false} RecasedConcat(a: seq<Unit>, b: seq<Unit>, c: seq<Unit>, d: seq<Unit>)
    requires Recased(a, b) && Recased(c, d)
    ensures Recased(a + c, b + d)
    decreases |a|
  {
    hide SameDigit;
    if a == [] {
      assert a + c == c && b + d == d;
    } else {
      var k := if a[0] == '%' as int then 3 else 1;
      RecasedConcat(a[k..], b[k..], c, d);
      assert (a + c)[k..] == a[k..] + c && (b + d)[k..] == b[k..] + d;
    }
  }

  ghost predicate AllRecased(xs: seq<seq<Unit>>, ys: seq<seq<Unit>>) {
    |xs| == |ys| && forall i :: 0 <= i < |xs| ==> Recased(xs[i], ys[i])
  }

  lemma DelimiterIsNoDigit(c: Unit, x: Unit, y: Unit)
    requires Delimiter(c)
    ensures c != '%' as int && (SameDigit(x, y) ==> x != c && y != c)
  {
    if SameDigit(x, y) {
      SameValue(x, y);
    }
  }

  /** It does not matter to the separators. */
  lemma {:induction false} SplitRecased(a: seq<Unit>, b: seq<Unit>, c: Unit)
    requires Recased(a, b) && Delimiter(c)
    ensures AllRecased(Split(a, c), Split(b, c))
    decreases |a|
  {
    if a != [] {
      hide Delimiter, SameDigit;
      var k := if a[0] == '%' as int then 3 else 1;
      DelimiterIsNoDigit(c, 0, 0);
      if k == 3 {
        DelimiterIsNoDigit(c, a[1], b[1]);
        DelimiterIsNoDigit(c, a[2], b[2]);
      }
      SplitRecased(a[k..], b[k..], c);
      if a[0] == c {
        FirstEmpty(Split(a[1..], c), Split(b[1..], c));
      } else {
        SplitFront(a, c, k);
        SplitFront(b, c, k);
        FirstLonger(a, b, k, Split(a[k..], c), Split(b[k..], c));
      }
    } else {
      assert Split(a, c) == [[]] == Split(b, c);
    }
  }

  lemma FirstEmpty(xs: seq<seq<Unit>>, ys: seq<seq<Unit>>)
    requires AllRecased(xs, ys)
    ensures AllRecased([[]] + xs, [[]] + ys)
  {
  }

  lemma FirstLonger(a: seq<Unit>, b: seq<Unit>, k: nat, xs: seq<seq<Unit>>, ys: seq<seq<Unit>>)
    requires Recased(a, b) && a != [] && k == (if a[0] == '%' as int then 3 else 1) && AllRecased(xs, ys) && xs != []
    ensures AllRecased([a[..k] + xs[0]] + xs[1..], [b[..k] + ys[0]] + ys[1..])
  {
    FrontRecased(a, b, k);
    RecasedConcat(a[..k], b[..k], xs[0], ys[0]);
    hide Recased;
  }

  lemma FrontRecased(a: seq<Unit>, b: seq<Unit>, k: nat)
    requires Recased(a, b) && a != [] && k == (if a[0] == '%' as int then 3 else 1)
    ensures k <= |a| && k <= |b| && Recased(a[..k], b[..k])
  {
    hide SameDigit;
    var c, d := a[..k], b[..k];
    assert Recased([], []);
    assert c[k..] == [] && d[k..] == [];
    if k == 3 {
      assert c[1] == a[1] && c[2] == a[2] && d[1] == b[1] && d[2] == b[2];
    }
  }

  lemma {:induction false} SplitFront(s: seq<Unit>, c: Unit, k: nat)
    requires k <= |s| && forall i :: 0 <= i < k ==> s[i] != c
    ensures var rest := Split(s[k..], c); Split(s, c) == [s[..k] + rest[0]] + rest[1..]
  {
    if k == 0 {
      assert s[0..] == s && s[..0] + Split(s, c)[0] == Split(s, c)[0];
    } else {
      SplitFront(s[1..], c, k - 1);
      var rest := Split(s[k..], c);
      assert s[1..][k - 1..] == s[k..] && s[..k] == [s[0]] + s[1..][..k - 1];
      assert [s[0]] + (s[1..][..k - 1] + rest[0]) == s[..k] + rest[0];
    }
  }

  lemma {:induction false} JoinRecased(xs: seq<seq<Unit>>, ys: seq<seq<Unit>>, c: Unit)
    requires AllRecased(xs, ys) && c != '%' as int
    ensures Recased(Join(xs, c), Join(ys, c))
  {
    if |xs| > 1 {
      JoinRecased(xs[1..], ys[1..], c);
      assert [c][1..] == [] && Recased([c], [c]);
      RecasedConcat(xs[0], ys[0], [c], [c]);
      RecasedConcat(xs[0] + [c], ys[0] + [c], Join(xs[1..], c), Join(ys[1..], c));
    }
  }

  lemma PairRecased(a: seq<Unit>, b: seq<Unit>, eq: Unit, toString: seq<Byte> -> Text)
    requires Recased(a, b) && Delimiter(eq)
    ensures Pair(b, eq, toString) == Pair(a, eq, toString)
  {
    hide Recased, Split, Unescape;
    DelimiterIsNoDigit(eq, 0, 0);
    hide Delimiter;
    SplitRecased(a, b, eq);
    var x, y := Split(a, eq), Split(b, eq);
    assert AllRecased(x[1..], y[1..]);
    JoinRecased(x[1..], y[1..], eq);
    RecasedIsRead(x[0], y[0], true);
    RecasedIsRead(Join(x[1..], eq), Join(y[1..], eq), true);
  }

  lemma {:induction false} CollectRecased(o: Object, a: seq<seq<Unit>>, b: seq<seq<Unit>>, eq: Unit, toString: seq<Byte> -> Text)
    requires AllRecased(a, b) && Delimiter(eq)
    ensures Collect(o, b, eq, toString) == Collect(o, a, eq, toString)
    decreases |a|
  {
    hide Recased, Pair, Add, Delimiter;
    if a != [] {
      PairRecased(a[0], b[0], eq, toString);
      var (k, v) := Pair(a[0], eq, toString);
      CollectRecased(Add(o, k, v), a[1..], b[1..], eq, toString);
    }
  }

  /** Capital and small digits are the same to `parse`. */
  lemma ParsedRecased(a: seq<Unit>, b: seq<Unit>, sep: Unit, eq: Unit, toString: seq<Byte> -> Text)
    requires Recased(a, b) && Delimiter(sep) && Delimiter(eq)
    ensures Parsed(b, sep, eq, toString) == Parsed(a, sep, eq, toString)
  {
    hide Delimiter, Split, Collect;
    SplitRecased(a, b, sep);
    CollectRecased(map[], Split(a, sep), Split(b, sep), eq, toString);
  }

  /** What was stringified can be parsed back under just the same conditions when its triplets have
      been printed in another case. */
  lemma RoundTripInAnyCase(obj: Object, keys: seq<Text>, sep: Unit, eq: Unit, toString: seq<Byte> -> Text, qs: seq<Unit>)
    requires Delimiter(sep) && Delimiter(eq) && sep != eq && DecodesUtf8(toString)
    requires KeysOf(keys, obj) && Given(obj) && Recased(Stringify(obj, keys, sep, eq), qs)
    ensures Parsed(qs, sep, eq, toString) == obj <==> Filled(obj, 2) && AllBasic(obj) && NoneInherited(obj)
  {
    hide Delimiter, DecodesUtf8, Parsed, Stringify, Recased, Filled, AllBasic, NoneInherited;
    ParsedRecased(Stringify(obj, keys, sep, eq), qs, sep, eq, toString);
    RoundTrip(obj, keys, sep, eq, toString);
  }

  // Keys and values.

  /** The first `eq` ends the key, and the value may contain others; without one the value is empty. */
  lemma PairIsRead(k: seq<Unit>, v: seq<Unit>, eq: Unit, toString: seq<Byte> -> Text)
    requires eq !in k
    ensures Pair(k + [eq] + v, eq, toString) == (toString(Unescape(k, true)), toString(Unescape(v, true)))
    ensures Pair(k, eq, toString) == (toString(Unescape(k, true)), toString([]))
  {
    hide Unescape, Split;
    SplitNothing(k, eq);
    SplitAt(k, eq, v);
    JoinSplit(v, eq);
    assert ([k] + Split(v, eq))[1..] == Split(v, eq);
    assert [k][1..] == [];
    NothingUnescaped();
  }

  lemma NothingUnescaped()
    ensures Unescape([], true) == []
  {
  }

  /** "%c3%a9" */
  lemma SmallDigitsExample()
    ensures Unescape([37, 99, 51, 37, 97, 57], true) == [0xC3, 0xA9]
  {
    assert Shows(99, 12) && Shows(51, 3) && Shows(97, 10) && Shows(57, 9);
    hide Shows, Unescape;
    var last: seq<Unit> := [37, 97, 57] + [];
    PieceIsRead(99, 51, 12, 3, 0, last, true);
    PieceIsRead(97, 57, 10, 9, 0, [], true);
    assert [37, 99, 51] + last == [37, 99, 51, 37, 97, 57];
    NothingUnescaped();
  }

  /** "+%" */
  lemma PlusExample()
    ensures Unescape([43, 37], true) == [0x20, 37]
  {
    hide Unescape;
    assert [43] + [37] == [43, 37];
    assert Shows(48, 0);
    PieceIsRead(48, 48, 0, 0, 0, [37], true);
    IncompleteStays([37], true);
  }
}

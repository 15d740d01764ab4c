/**
  The pages that doc/sh_main.js works on, and taking the tags out of an element of one.
 */
module Pages {
  import opened Basics
  import opened TagMerging

  /** A page element, a text node, or a line break. */
  datatype Tree = Text(text: string) | Break | Element(node: Node, children: seq<Tree>)

  /** A character, and the elements it stands in from the outside in. */
  datatype Placed = Placed(c: char, path: seq<Node>)

  function Place(text: string, path: seq<Node>): seq<Placed> {
    seq(|text|, i requires 0 <= i < |text| => Placed(text[i], path))
  }

  /** The characters of some trees inside `path`, in order.  A line break counts as '\\n', which is
      what `sh_extractTagsFromNodeList` makes of it (as '\\r' in one browser). */
  function Chars(trees: seq<Tree>, path: seq<Node>): seq<Placed>
    decreases trees
  {
    if trees == [] then []
    else
      (match trees[0]
       case Text(text) => Place(text, path)
       case Break => Place("\n", path)
       case Element(node, children) => Chars(children, path + [node]))
      + Chars(trees[1..], path)
  }

  lemma CharsOne(tree: Tree, path: seq<Node>)
    ensures tree.Text? ==> Chars([tree], path) == Place(tree.text, path)
    ensures tree.Break? ==> Chars([tree], path) == Place("\n", path)
    ensures tree.Element? ==> Chars([tree], path) == Chars(tree.children, path + [tree.node])
  {
    assert [tree][1..] == [];
  }

  lemma CharsFirst(trees: seq<Tree>, path: seq<Node>)
    requires trees != []
    ensures Chars(trees, path) == Chars([trees[0]], path) + Chars(trees[1..], path)
  {
    CharsOne(trees[0], path);
  }

  lemma {:induction false} CharsAppend(trees: seq<Tree>, tree: Tree, path: seq<Node>)
    ensures Chars(trees + [tree], path) == Chars(trees, path) + Chars([tree], path)
  {
    if trees == [] {
      assert trees + [tree] == [tree];
    } else {
      hide Chars;
      var all := trees + [tree];
      assert all[1..] == trees[1..] + [tree] && all[0] == trees[0];
      CharsAppend(trees[1..], tree, path);
      CharsFirst(all, path);
      CharsFirst(trees, path);
      Reassociate(Chars([trees[0]], path), Chars(trees[1..], path), Chars([tree], path));
    }
  }

  // `sh_extractTagsFromNodeList` (lines 286-316).

  function TextOf(trees: seq<Tree>): string
    decreases trees
  {
    if trees == [] then ""
    else
      (match trees[0]
       case Text(text) => text
       case Break => "\n"
       case Element(_, children) => TextOf(children))
      + TextOf(trees[1..])
  }

  /** The tags of some trees whose text begins at `pos`. */
  function TagsOf(trees: seq<Tree>, pos: nat): seq<Tag>
    decreases trees
  {
    if trees == [] then []
    else
      (match trees[0]
       case Text(_) => []
       case Break => []
       case Element(node, children) =>
         [Start(node, pos)] + TagsOf(children, pos) + [End(pos + |TextOf(children)|)])
      + TagsOf(trees[1..], pos + |TextOf(trees[..1])|)
  }

  lemma TextOfOne(tree: Tree)
    ensures tree.Text? ==> TextOf([tree]) == tree.text
    ensures tree.Break? ==> TextOf([tree]) == "\n"
    ensures tree.Element? ==> TextOf([tree]) == TextOf(tree.children)
  {
    assert [tree][1..] == [];
  }

  lemma TextOfFirst(trees: seq<Tree>)
    requires trees != []
    ensures TextOf(trees) == TextOf([trees[0]]) + TextOf(trees[1..])
  {
    TextOfOne(trees[0]);
  }

  lemma TagsOfFirst(trees: seq<Tree>, pos: nat)
    requires trees != []
    ensures TagsOf(trees, pos) == TagsOf([trees[0]], pos) + TagsOf(trees[1..], pos + |TextOf([trees[0]])|)
  {
    hide TextOf;
    assert trees[..1] == [trees[0]] && [trees[0]][..1] == [trees[0]] && [trees[0]][1..] == [];
  }

  lemma {:induction false} TextOfAppend(trees: seq<Tree>, tree: Tree)
    ensures TextOf(trees + [tree]) == TextOf(trees) + TextOf([tree])
  {
    if trees == [] {
      assert trees + [tree] == [tree];
    } else {
      hide TextOf;
      var all := trees + [tree];
      assert all[1..] == trees[1..] + [tree] && all[0] == trees[0];
      TextOfAppend(trees[1..], tree);
      TextOfFirst(all);
      TextOfFirst(trees);
      Reassociate(TextOf([trees[0]]), TextOf(trees[1..]), TextOf([tree]));
    }
  }

  lemma {:induction false} TagsOfAppend(trees: seq<Tree>, tree: Tree, pos: nat)
    ensures TagsOf(trees + [tree], pos) == TagsOf(trees, pos) + TagsOf([tree], pos + |TextOf(trees)|)
  {
    if trees == [] {
      assert trees + [tree] == [tree];
    } else {
      hide TextOf, TagsOf;
      var all := trees + [tree];
      assert all[1..] == trees[1..] + [tree] && all[0] == trees[0];
      var next := pos + |TextOf([trees[0]])|;
      TagsOfAppend(trees[1..], tree, next);
      TextOfFirst(trees);
      TagsOfFirst(all, pos);
      TagsOfFirst(trees, pos);
      Reassociate(TagsOf([trees[0]], pos), TagsOf(trees[1..], next), TagsOf([tree], pos + |TextOf(trees)|));
    }
  }

  lemma Nothing()
    ensures TextOf([]) == "" && forall pos :: TagsOf([], pos) == []
  {
  }

  class Extraction {
    var text: string
    var tags: seq<Tag>
    var pos: nat

    constructor ()
      ensures text == "" && tags == [] && pos == 0
    {
      text, tags, pos := "", [], 0;
    }

    method FromNodeList(nodeList: seq<Tree>)
      modifies this
      ensures text == old(text) + TextOf(nodeList)
      ensures tags == old(tags) + TagsOf(nodeList, old(pos))
      ensures pos == old(pos) + |TextOf(nodeList)|
      decreases nodeList
    {
      hide TextOf, TagsOf;
      Nothing();
      for i := 0 to |nodeList|
        invariant text == old(text) + TextOf(nodeList[..i])
        invariant tags == old(tags) + TagsOf(nodeList[..i], old(pos))
        invariant pos == old(pos) + |TextOf(nodeList[..i])|
      {
        assert nodeList[..i + 1] == nodeList[..i] + [nodeList[i]];
        TextOfAppend(nodeList[..i], nodeList[i]);
        TagsOfAppend(nodeList[..i], nodeList[i], old(pos));
        TextOfOne(nodeList[i]);
        TagsOfOne(nodeList[i], pos);
        match nodeList[i]
        case Text(data) =>
          text := text + data;
          pos := pos + |data|;
        case Break =>
          text := text + "\n";
          pos := pos + 1;
        case Element(node, children) =>
          tags := tags + [Start(node, pos)];
          FromNodeList(children);
          tags := tags + [End(pos)];
      }
      assert nodeList[..|nodeList|] == nodeList;
    }
  }

  lemma TagsOfOne(tree: Tree, pos: nat)
    ensures !tree.Element? ==> TagsOf([tree], pos) == []
    ensures tree.Element? ==>
              TagsOf([tree], pos)
              == [Start(tree.node, pos)] + TagsOf(tree.children, pos) + [End(pos + |TextOf(tree.children)|)]
  {
    assert [tree][1..] == [];
  }

  lemma {:induction false} CharsLength(trees: seq<Tree>, path: seq<Node>)
    ensures |Chars(trees, path)| == |TextOf(trees)|
    decreases trees
  {
    if trees != [] {
      if trees[0].Element? {
        CharsLength(trees[0].children, path + [trees[0].node]);
      }
      CharsLength(trees[1..], path);
    }
  }

  /** The tags of one tree in front of others. */
  function Around(tree: Tree, pos: nat, others: seq<Tag>): seq<Tag> {
    if tree.Element? then
      [Start(tree.node, pos)] + (TagsOf(tree.children, pos) + ([End(pos + |TextOf(tree.children)|)] + others))
    else others
  }

  lemma AroundIs(tree: Tree, pos: nat, others: seq<Tag>)
    ensures TagsOf([tree], pos) + others == Around(tree, pos, others)
  {
    hide TagsOf, TextOf;
    TagsOfOne(tree, pos);
  }

  lemma HeadOf(trees: seq<Tree>, pos: nat, path: seq<Node>, more: seq<Tag>)
    requires trees != []
    ensures var first, rest := trees[0], trees[1..];
      && TextOf(trees) == TextOf([first]) + TextOf(rest)
      && Chars(trees, path) == Chars([first], path) + Chars(rest, path)
      && TagsOf(trees, pos) + more == Around(first, pos, TagsOf(rest, pos + |TextOf([first])|) + more)
  {
    hide *;
    var others := TagsOf(trees[1..], pos + |TextOf([trees[0]])|);
    TextOfFirst(trees);
    CharsFirst(trees, path);
    TagsOfFirst(trees, pos);
    AroundIs(trees[0], pos, others + more);
    assert TagsOf([trees[0]], pos) + others + more == TagsOf([trees[0]], pos) + (others + more);
  }

  /** The text that begins at `pos` has `open` around position `p`, if that lies in it; otherwise
      `open` is what is open behind it. */
  ghost predicate Opened(chars: seq<Placed>, text: string, pos: nat, p: nat, open: seq<Node>, behind: seq<Node>)
    requires pos <= p
  {
    && |chars| == |text|
    && if p < pos + |text| then chars[p - pos] == Placed(text[p - pos], open) else open == behind
  }

  lemma OpenedInTurn(c1: seq<Placed>, t1: string, c2: seq<Placed>, t2: string, pos: nat, p: nat,
                     open: seq<Node>, between: seq<Node>, behind: seq<Node>)
    requires pos <= p && Opened(c1, t1, pos, p, open, between) && |c2| == |t2|
    requires p >= pos + |t1| ==> Opened(c2, t2, pos + |t1|, p, between, behind)
    ensures Opened(c1 + c2, t1 + t2, pos, p, open, behind)
  {
  }

  /** The tags of a page lie where its text says: in front of `more`, which begins behind them,
      they have open at each position of the text the elements that its character stands in, and
      nothing behind it. */
  lemma {:induction false} ExtractedOpen(trees: seq<Tree>, pos: nat, path: seq<Node>, more: seq<Tag>, p: nat)
    requires pos <= p && NoneBefore(more, pos + |TextOf(trees)|)
    ensures Opened(Chars(trees, path), TextOf(trees), pos, p, OpenAt(path, TagsOf(trees, pos) + more, p), OpenAt(path, more, p))
    decreases trees, 1
  {
    hide *;
    if trees == [] {
      NothingOpen(pos, path, more, p);
    } else {
      var first, rest := trees[0], trees[1..];
      var n := |TextOf([first])|;
      var others := TagsOf(rest, pos + n) + more;
      HeadOf(trees, pos, path, more);
      OthersBehind(trees, pos, more);
      CharsLength(rest, path);
      OneOpen(first, pos, path, others, p);
      if p >= pos + n {
        ExtractedOpen(rest, pos + n, path, more, p);
      }
      OpenedInTurn(Chars([first], path), TextOf([first]), Chars(rest, path), TextOf(rest), pos, p,
                   OpenAt(path, TagsOf(trees, pos) + more, p), OpenAt(path, others, p), OpenAt(path, more, p));
    }
  }

  lemma NothingOpen(pos: nat, path: seq<Node>, more: seq<Tag>, p: nat)
    requires pos <= p
    ensures Opened(Chars([], path), TextOf([]), pos, p, OpenAt(path, TagsOf([], pos) + more, p), OpenAt(path, more, p))
  {
    assert TagsOf([], pos) + more == more;
  }

  lemma OthersBehind(trees: seq<Tree>, pos: nat, more: seq<Tag>)
    requires trees != [] && NoneBefore(more, pos + |TextOf(trees)|)
    ensures var n := |TextOf([trees[0]])|;
      NoneBefore(more, pos + n + |TextOf(trees[1..])|) && NoneBefore(TagsOf(trees[1..], pos + n) + more, pos + n)
  {
    hide TagsOf, TextOf, Chars, Around;
    var n := |TextOf([trees[0]])|;
    HeadOf(trees, pos, [], more);
    TagsNotBefore(trees[1..], pos + n);
  }

  lemma {:induction false} OneOpen(tree: Tree, pos: nat, path: seq<Node>, others: seq<Tag>, p: nat)
    requires pos <= p && NoneBefore(others, pos + |TextOf([tree])|)
    ensures Opened(Chars([tree], path), TextOf([tree]), pos, p, OpenAt(path, Around(tree, pos, others), p), OpenAt(path, others, p))
    decreases tree, 0
  {
    hide TagsOf, Chars, TextOf;
    TextOfOne(tree);
    CharsOne(tree, path);
    CharsLength([tree], path);
    if tree.Element? {
      var inner, behind := path + [tree.node], [End(pos + |TextOf(tree.children)|)] + others;
      ExtractedOpen(tree.children, pos, inner, behind, p);
      assert inner[..|inner| - 1] == path && behind[1..] == others;
      assert Around(tree, pos, others)[1..] == TagsOf(tree.children, pos) + behind;
    }
  }

  lemma {:induction false} TagsNotBefore(trees: seq<Tree>, pos: nat)
    ensures NoneBefore(TagsOf(trees, pos), pos)
    decreases trees
  {
    if trees != [] {
      if trees[0].Element? {
        TagsNotBefore(trees[0].children, pos);
      }
      TagsNotBefore(trees[1..], pos + |TextOf(trees[..1])|);
    }
  }

  /** The tags of a page are well nested. */
  lemma {:induction false} ExtractedNested(trees: seq<Tree>, pos: nat, more: seq<Tag>, depth: nat)
    ensures Nested(TagsOf(trees, pos) + more, depth) <==> Nested(more, depth)
    decreases trees, 1
  {
    if trees == [] {
      assert TagsOf(trees, pos) + more == more;
    } else {
      hide TagsOf, TextOf, Nested, Around;
      var n := |TextOf([trees[0]])|;
      HeadOf(trees, pos, [], more);
      ExtractedNested(trees[1..], pos + n, more, depth);
      OneNested(trees[0], pos, TagsOf(trees[1..], pos + n) + more, depth);
    }
  }

  lemma {:induction false} OneNested(tree: Tree, pos: nat, others: seq<Tag>, depth: nat)
    ensures Nested(Around(tree, pos, others), depth) <==> Nested(others, depth)
    decreases tree, 0
  {
    hide TagsOf, TextOf;
    if tree.Element? {
      var behind := [End(pos + |TextOf(tree.children)|)] + others;
      ExtractedNested(tree.children, pos, behind, depth + 1);
      assert Around(tree, pos, others)[1..] == TagsOf(tree.children, pos) + behind;
      assert behind[1..] == others;
    }
  }

  // The order of the tags.

  ghost predicate Within(tags: seq<Tag>, from: nat, to: nat) {
    Sorted(tags) && forall i :: 0 <= i < |tags| ==> from <= tags[i].pos <= to
  }

  lemma WithinConcat(a: seq<Tag>, b: seq<Tag>, from: nat, mid: nat, to: nat)
    requires from <= mid <= to && Within(a, from, mid) && Within(b, mid, to)
    ensures Within(a + b, from, to)
  {
  }

  lemma OneWithin(tag: Tag, from: nat)
    requires from <= tag.pos
    ensures Within([tag], from, tag.pos) && Within([], from, from)
  {
  }

  /** The tags of a page are in order, and lie within its text. */
  lemma {:induction false} ExtractedSorted(trees: seq<Tree>, pos: nat)
    ensures Within(TagsOf(trees, pos), pos, pos + |TextOf(trees)|)
    decreases trees, 1
  {
    hide Within;
    OneWithin(End(pos), pos);
    if trees == [] {
      Nothing();
    } else {
      var first, rest := trees[0], trees[1..];
      hide TextOf, TagsOf;
      var n := |TextOf([first])|;
      TreeSorted(first, pos);
      ExtractedSorted(rest, pos + n);
      TextOfFirst(trees);
      TagsOfFirst(trees, pos);
      WithinConcat(TagsOf([first], pos), TagsOf(rest, pos + n), pos, pos + n, pos + |TextOf(trees)|);
    }
  }

  lemma {:induction false} TreeSorted(tree: Tree, pos: nat)
    ensures Within(TagsOf([tree], pos), pos, pos + |TextOf([tree])|)
    decreases tree, 0
  {
    hide TextOf, TagsOf;
    TextOfOne(tree);
    TagsOfOne(tree, pos);
    if tree.Element? {
      ExtractedSorted(tree.children, pos);
      hide Within;
      var start, inner, end := Start(tree.node, pos), TagsOf(tree.children, pos), End(pos + |TextOf(tree.children)|);
      OneWithin(start, pos);
      OneWithin(end, end.pos);
      WithinConcat([start], inner, pos, pos, end.pos);
      WithinConcat([start] + inner, [end], pos, end.pos, end.pos);
    }
  }

  // A page as a stream.

  /** What stands in a page one after the other: characters, and the beginnings and ends of its
      elements. */
  datatype Token = Char(c: char) | Open(node: Node) | Close

  function Letters(text: string): seq<Token> {
    seq(|text|, i requires 0 <= i < |text| => Char(text[i]))
  }

  /** The page from its beginning to its end; line breaks are characters. */
  function Stream(trees: seq<Tree>): seq<Token>
    decreases trees
  {
    if trees == [] then []
    else
      (match trees[0]
       case Text(text) => Letters(text)
       case Break => [Char('\n')]
       case Element(node, children) => [Open(node)] + Stream(children) + [Close])
      + Stream(trees[1..])
  }

  function TokenOf(tag: Tag): Token {
    if tag.Start? then Open(tag.node) else Close
  }

  /** How much of the text, which begins at `pos`, stands before the tag. */
  function Reach(tag: Tag, text: string, pos: nat): (n: nat)
    ensures n <= |text|
  {
    if tag.pos <= pos then 0 else if tag.pos <= pos + |text| then tag.pos - pos else |text|
  }

  /** The text, which begins at `pos`, with the tags where they belong. */
  function Weave(tags: seq<Tag>, text: string, pos: nat): seq<Token>
    decreases |tags|
  {
    if tags == [] then Letters(text)
    else
      var n := Reach(tags[0], text, pos);
      Letters(text[..n]) + [TokenOf(tags[0])] + Weave(tags[1..], text[n..], pos + n)
  }

  lemma LettersConcat(a: string, b: string)
    ensures Letters(a + b) == Letters(a) + Letters(b)
  {
  }

  lemma StreamOne(tree: Tree)
    ensures tree.Text? ==> Stream([tree]) == Letters(tree.text)
    ensures tree.Break? ==> Stream([tree]) == [Char('\n')]
    ensures tree.Element? ==> Stream([tree]) == [Open(tree.node)] + Stream(tree.children) + [Close]
  {
    assert [tree][1..] == [];
  }

  lemma StreamFirst(trees: seq<Tree>)
    requires trees != []
    ensures Stream(trees) == Stream([trees[0]]) + Stream(trees[1..])
  {
    StreamOne(trees[0]);
  }

  /** Text before the first tag comes first. */
  lemma WeaveText(text: string, tags: seq<Tag>, more: string, pos: nat)
    requires NoneBefore(tags, pos + |text|)
    ensures Weave(tags, text + more, pos) == Letters(text) + Weave(tags, more, pos + |text|)
  {
    hide Letters;
    LettersConcat(text, more);
    if tags != [] {
      hide Weave;
      var all, end := text + more, pos + |text|;
      assert end <= tags[0].pos;
      var n := Reach(tags[0], more, end);
      WeaveFirst(tags, all, pos);
      WeaveFirst(tags, more, end);
      ReachFurther(tags[0], text, more, pos);
      assert all[..|text| + n] == text + more[..n] && all[|text| + n..] == more[n..];
      LettersConcat(text, more[..n]);
      Reassociate(Letters(text), Letters(more[..n]) + [TokenOf(tags[0])], Weave(tags[1..], more[n..], end + n));
      Reassociate(Letters(text), Letters(more[..n]), [TokenOf(tags[0])]);
    }
  }

  lemma ReachFurther(tag: Tag, text: string, more: string, pos: nat)
    requires tag.pos >= pos + |text|
    ensures Reach(tag, text + more, pos) == |text| + Reach(tag, more, pos + |text|)
  {
  }

  lemma WeaveFirst(tags: seq<Tag>, text: string, pos: nat)
    requires tags != []
    ensures var n := Reach(tags[0], text, pos);
      Weave(tags, text, pos) == Letters(text[..n]) + [TokenOf(tags[0])] + Weave(tags[1..], text[n..], pos + n)
  {
  }

  /** A tag that stands where the text begins comes first. */
  lemma WeaveTag(tag: Tag, tags: seq<Tag>, text: string, pos: nat)
    requires tag.pos == pos
    ensures Weave([tag] + tags, text, pos) == [TokenOf(tag)] + Weave(tags, text, pos)
  {
    WeaveFirst([tag] + tags, text, pos);
    assert ([tag] + tags)[1..] == tags && text[0..] == text && Letters(text[..0]) == [];
  }

  /** The text and the tags of a page, in front of others, are the page. */
  lemma {:induction false} PageWoven(trees: seq<Tree>, pos: nat, tags: seq<Tag>, text: string)
    requires NoneBefore(tags, pos + |TextOf(trees)|)
    ensures Weave(TagsOf(trees, pos) + tags, TextOf(trees) + text, pos)
            == Stream(trees) + Weave(tags, text, pos + |TextOf(trees)|)
    decreases trees, 1
  {
    hide TextOf, TagsOf, Weave, Stream, Chars, Around;
    if trees == [] {
      NothingWoven(pos, tags, text);
    } else {
      var first, rest := trees[0], trees[1..];
      var n := |TextOf([first])|;
      var others, behind := TagsOf(rest, pos + n) + tags, TextOf(rest) + text;
      HeadOf(trees, pos, [], tags);
      StreamFirst(trees);
      OthersBehind(trees, pos, tags);
      TreeWoven(first, pos, others, behind);
      PageWoven(rest, pos + n, tags, text);
      Reassociate(TextOf([first]), TextOf(rest), text);
      Reassociate(Stream([first]), Stream(rest), Weave(tags, text, pos + |TextOf(trees)|));
    }
  }

  lemma NothingWoven(pos: nat, tags: seq<Tag>, text: string)
    ensures Weave(TagsOf([], pos) + tags, TextOf([]) + text, pos) == Stream([]) + Weave(tags, text, pos + |TextOf([])|)
  {
    assert TagsOf([], pos) + tags == tags && TextOf([]) + text == text;
  }

  lemma {:induction false} TreeWoven(tree: Tree, pos: nat, others: seq<Tag>, text: string)
    requires NoneBefore(others, pos + |TextOf([tree])|)
    ensures Weave(Around(tree, pos, others), TextOf([tree]) + text, pos)
            == Stream([tree]) + Weave(others, text, pos + |TextOf([tree])|)
    decreases tree, 0
  {
    hide TextOf, TagsOf, Weave, Stream;
    TextOfOne(tree);
    StreamOne(tree);
    if tree.Element? {
      var inner, end := TextOf(tree.children), pos + |TextOf(tree.children)|;
      var behind := [End(end)] + others;
      WeaveTag(Start(tree.node, pos), TagsOf(tree.children, pos) + behind, inner + text, pos);
      PageWoven(tree.children, pos, behind, text);
      WeaveTag(End(end), others, text, end);
      assert [Open(tree.node)] + (Stream(tree.children) + ([Close] + Weave(others, text, end)))
          == [Open(tree.node)] + Stream(tree.children) + [Close] + Weave(others, text, end);
    } else {
      WeaveText(TextOf([tree]), others, text, pos);
      assert Letters("\n") == [Char('\n')];
    }
  }

  /** A page is what its text and its tags say. */
  lemma PageIsWoven(trees: seq<Tree>)
    ensures Stream(trees) == Weave(TagsOf(trees, 0), TextOf(trees), 0)
  {
    hide TextOf, TagsOf, Stream;
    PageWoven(trees, 0, [], "");
    assert TagsOf(trees, 0) + [] == TagsOf(trees, 0) && TextOf(trees) + "" == TextOf(trees);
    assert Weave([], "", |TextOf(trees)|) == [];
  }

  /** The stream without its spans, whether it begins inside of one or not. */
  function Bare(stream: seq<Token>, inSpan: bool): seq<Token> {
    if stream == [] then []
    else if !inSpan && stream[0].Open? && stream[0].node.Span? then Bare(stream[1..], true)
    else if inSpan && stream[0].Close? then Bare(stream[1..], false)
    else [stream[0]] + Bare(stream[1..], inSpan)
  }

  lemma {:induction false} BareLetters(text: string, stream: seq<Token>, inSpan: bool)
    ensures Bare(Letters(text) + stream, inSpan) == Letters(text) + Bare(stream, inSpan)
  {
    if text == "" {
      assert Letters(text) + stream == stream;
    } else {
      var all := Letters(text) + stream;
      assert all[0] == Char(text[0]) && all[1..] == Letters(text[1..]) + stream;
      BareLetters(text[1..], stream, inSpan);
      assert [Char(text[0])] + Letters(text[1..]) == Letters(text);
    }
  }

  lemma BareToken(token: Token, stream: seq<Token>, inSpan: bool)
    ensures Bare([token] + stream, inSpan) ==
            if !inSpan && token.Open? && token.node.Span? then Bare(stream, true)
            else if inSpan && token.Close? then Bare(stream, false)
            else [token] + Bare(stream, inSpan)
  {
    assert ([token] + stream)[1..] == stream;
  }

  /** Taking spans out of the stream is taking them out of the tags. */
  lemma {:induction false} BareWoven(tags: seq<Tag>, text: string, pos: nat)
    requires Within(tags, pos, pos + |text|) && WithoutSpans(tags).Some?
    ensures Bare(Weave(tags, text, pos), false) == Weave(WithoutSpans(tags).value, text, pos)
    decreases |tags|
  {
    NothingBare(text, pos);
    hide Bare, Letters, Weave;
    if tags == [] {
      BareLetters(text, [], false);
      assert Letters(text) + [] == Letters(text);
    } else if tags[0].Start? && tags[0].node.Span? {
      var n := tags[1].pos - pos;
      BareWoven(tags[2..], text[n..], pos + n);
      WithoutSpansBehind(tags[2..], pos + n);
      SpanWoven(tags, text, pos);
      assert text[..n] + text[n..] == text;
      WeaveText(text[..n], WithoutSpans(tags[2..]).value, text[n..], pos);
    } else {
      var n := tags[0].pos - pos;
      BareWoven(tags[1..], text[n..], pos + n);
      TagWoven(tags, text, pos);
      var left := WithoutSpans(tags[1..]).value;
      WeaveFirst([tags[0]] + left, text, pos);
      assert ([tags[0]] + left)[1..] == left;
    }
  }

  lemma TagWoven(tags: seq<Tag>, text: string, pos: nat)
    requires tags != [] && !(tags[0].Start? && tags[0].node.Span?)
    ensures var n := Reach(tags[0], text, pos);
      Bare(Weave(tags, text, pos), false)
      == Letters(text[..n]) + [TokenOf(tags[0])] + Bare(Weave(tags[1..], text[n..], pos + n), false)
  {
    hide Bare, Letters, Weave;
    var n := Reach(tags[0], text, pos);
    var first, rest := TokenOf(tags[0]), Weave(tags[1..], text[n..], pos + n);
    WeaveFirst(tags, text, pos);
    Reassociate(Letters(text[..n]), [first], rest);
    BareLetters(text[..n], [first] + rest, false);
    BareToken(first, rest, false);
    Reassociate(Letters(text[..n]), [first], Bare(rest, false));
  }

  lemma SpanWoven(tags: seq<Tag>, text: string, pos: nat)
    requires |tags| >= 2 && tags[0].Start? && tags[0].node.Span? && tags[1].End?
    requires pos <= tags[0].pos <= tags[1].pos <= pos + |text|
    ensures var n := tags[1].pos - pos;
      Bare(Weave(tags, text, pos), false) == Letters(text[..n]) + Bare(Weave(tags[2..], text[n..], pos + n), false)
  {
    hide Bare, Letters, Weave;
    var n, k := tags[0].pos - pos, tags[1].pos - tags[0].pos;
    var first, rest := TokenOf(tags[0]), Weave(tags[1..], text[n..], pos + n);
    var a, b, others := text[..n], text[n..][..k], Weave(tags[2..], text[n + k..], pos + n + k);
    assert tags[1..][1..] == tags[2..] && text[n..][k..] == text[n + k..] && text[..n + k] == a + b;
    WeaveFirst(tags, text, pos);
    WeaveFirst(tags[1..], text[n..], pos + n);
    Reassociate(Letters(a), [first], rest);
    BareLetters(a, [first] + rest, false);
    BareToken(first, rest, false);
    Reassociate(Letters(b), [Close], others);
    BareLetters(b, [Close] + others, true);
    BareToken(Close, others, true);
    LettersConcat(a, b);
    Reassociate(Letters(a), Letters(b), Bare(others, false));
  }

  lemma NothingBare(text: string, pos: nat)
    ensures Bare([], false) == [] && Weave([], text, pos) == Letters(text)
  {
  }

  lemma {:induction false} WithoutSpansBehind(tags: seq<Tag>, from: nat)
    requires NoneBefore(tags, from) && WithoutSpans(tags).Some?
    ensures NoneBefore(WithoutSpans(tags).value, from)
    decreases |tags|
  {
    if tags != [] {
      WithoutSpansBehind(if tags[0].Start? && tags[0].node.Span? then tags[2..] else tags[1..], from);
    }
  }
}

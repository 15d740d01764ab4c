/**
  doc/sh_main.js: putting tags back into the text of an element, and what the highlighting of an
  element comes to as a whole.
 */
module TagInsertion {
  import opened Basics
  import opened TagMerging
  import opened Pages

  // The tree under construction.

  /** An element that is open: what stands before it in its parent, and its node. */
  datatype Frame = Frame(before: seq<Tree>, node: Node)

  function Path(stack: seq<Frame>): (path: seq<Node>)
    ensures |path| == |stack|
  {
    if stack == [] then [] else Path(stack[..|stack| - 1]) + [stack[|stack| - 1].node]
  }

  /** The characters put out so far, when `current` are the children of the innermost element. */
  function Written(stack: seq<Frame>, current: seq<Tree>): seq<Placed>
    decreases |stack|
  {
    (if stack == [] then []
     else Written(stack[..|stack| - 1], stack[|stack| - 1].before)) + Chars(current, Path(stack))
  }

  /** The document, with every open element where it stands. */
  function Closed(stack: seq<Frame>, current: seq<Tree>): seq<Tree>
    decreases |stack|
  {
    if stack == [] then current
    else
      var top := stack[|stack| - 1];
      Closed(stack[..|stack| - 1], top.before + [Element(top.node, current)])
  }

  /** Leaving the innermost element. */
  lemma Leave(stack: seq<Frame>, current: seq<Tree>)
    requires stack != []
    ensures var top, rest := stack[|stack| - 1], stack[..|stack| - 1];
      && Written(rest, top.before + [Element(top.node, current)]) == Written(stack, current)
      && Path(stack)[..|stack| - 1] == Path(rest)
  {
    var top, rest := stack[|stack| - 1], stack[..|stack| - 1];
    CharsAppend(top.before, Element(top.node, current), Path(rest));
    CharsOne(Element(top.node, current), Path(rest));
    assert Path(stack) == Path(rest) + [top.node];
  }

  lemma Enter(stack: seq<Frame>, current: seq<Tree>, node: Node)
    ensures Written(stack + [Frame(current, node)], []) == Written(stack, current)
    ensures Path(stack + [Frame(current, node)]) == Path(stack) + [node]
  {
    var deeper := stack + [Frame(current, node)];
    assert deeper[..|deeper| - 1] == stack;
  }

  lemma AddText(stack: seq<Frame>, current: seq<Tree>, text: string)
    ensures Written(stack, current + [Text(text)]) == Written(stack, current) + Place(text, Path(stack))
  {
    CharsAppend(current, Text(text), Path(stack));
    CharsOne(Text(text), Path(stack));
  }

  lemma {:induction false} ClosedChars(stack: seq<Frame>, current: seq<Tree>)
    ensures Chars(Closed(stack, current), []) == Written(stack, current)
    decreases |stack|
  {
    if stack != [] {
      var top, rest := stack[|stack| - 1], stack[..|stack| - 1];
      Leave(stack, current);
      ClosedChars(rest, top.before + [Element(top.node, current)]);
    }
  }

  // `sh_insertTags` (lines 401-445).

  /** The first `n` characters of the text, each inside what the tags have open at its position. */
  function Tagged(tags: seq<Tag>, text: string, n: nat): seq<Placed>
    requires n <= |text|
  {
    seq(n, i requires 0 <= i < n => Placed(text[i], OpenAt([], tags, i)))
  }

  /** No end tag without its start. */
  predicate Grounded(tags: seq<Tag>, depth: nat) {
    tags != [] ==>
      if tags[0].Start? then Grounded(tags[1..], depth + 1)
      else depth > 0 && Grounded(tags[1..], depth - 1)
  }

  lemma {:induction false} NestedIsGrounded(tags: seq<Tag>, depth: nat)
    requires Nested(tags, depth)
    ensures Grounded(tags, depth)
  {
    if tags != [] {
      NestedIsGrounded(tags[1..], if tags[0].Start? then depth + 1 else depth - 1);
    }
  }

  /** JavaScript's `substring` for `from <= to`. */
  function Substring(text: string, from: nat, to: nat): string
    requires from <= to
  {
    var a, b := if from < |text| then from else |text|, if to < |text| then to else |text|;
    text[a..b]
  }

  function Min(a: nat, b: nat): nat {
    if a < b then a else b
  }

  /** Where the loop is: `text` has been put out up to `textPos`, and `tags` are to come. */
  ghost predicate Inserting(all: seq<Tag>, text: string, textPos: nat, stack: seq<Frame>, current: seq<Tree>, tags: seq<Tag>) {
    && Grounded(tags, |stack|)
    && Written(stack, current) == Tagged(all, text, Min(textPos, |text|))
    && forall p :: textPos <= p ==> OpenAt([], all, p) == OpenAt(Path(stack), tags, p)
  }

  lemma InsertingStart(all: seq<Tag>, text: string, textPos: nat, stack: seq<Frame>, current: seq<Tree>, tags: seq<Tag>)
    requires Inserting(all, text, textPos, stack, current, tags) && tags != [] && tags[0].pos <= textPos && tags[0].Start?
    ensures Inserting(all, text, textPos, stack + [Frame(current, tags[0].node)], [], tags[1..])
  {
    Enter(stack, current, tags[0].node);
    hide Written, Path;
  }

  lemma InsertingEnd(all: seq<Tag>, text: string, textPos: nat, stack: seq<Frame>, current: seq<Tree>, tags: seq<Tag>)
    requires Inserting(all, text, textPos, stack, current, tags) && tags != [] && tags[0].pos <= textPos && tags[0].End?
    ensures stack != []
    ensures var top := stack[|stack| - 1];
      Inserting(all, text, textPos, stack[..|stack| - 1], top.before + [Element(top.node, current)], tags[1..])
  {
    Leave(stack, current);
    hide Written, Path;
  }

  lemma InsertingText(all: seq<Tag>, text: string, textPos: nat, stack: seq<Frame>, current: seq<Tree>, tags: seq<Tag>, to: nat)
    requires Inserting(all, text, textPos, stack, current, tags)
    requires textPos < to <= (if tags == [] then |text| else tags[0].pos)
    ensures Inserting(all, text, to, stack, current + [Text(Substring(text, textPos, to))], tags)
  {
    AddText(stack, current, Substring(text, textPos, to));
    hide Written, Path;
    forall p | textPos <= p < to
      ensures OpenAt([], all, p) == Path(stack)
    {
    }
  }

  // The tags that have been put out.

  /** The text put out so far. */
  function TextSoFar(stack: seq<Frame>, current: seq<Tree>): string
    decreases |stack|
  {
    (if stack == [] then "" else TextSoFar(stack[..|stack| - 1], stack[|stack| - 1].before)) + TextOf(current)
  }

  /** The tags that would give the elements so far, without the ends of those that are open. */
  function TagsSoFar(stack: seq<Frame>, current: seq<Tree>): seq<Tag>
    decreases |stack|
  {
    if stack == [] then TagsOf(current, 0)
    else
      var top, rest := stack[|stack| - 1], stack[..|stack| - 1];
      var pos := |TextSoFar(rest, top.before)|;
      TagsSoFar(rest, top.before) + [Start(top.node, pos)] + TagsOf(current, pos)
  }

  lemma EnterTags(stack: seq<Frame>, current: seq<Tree>, node: Node)
    ensures var deeper := stack + [Frame(current, node)];
      && TextSoFar(deeper, []) == TextSoFar(stack, current)
      && TagsSoFar(deeper, []) == TagsSoFar(stack, current) + [Start(node, |TextSoFar(stack, current)|)]
  {
    var deeper := stack + [Frame(current, node)];
    assert deeper[..|deeper| - 1] == stack;
    Nothing();
    hide TextOf, TagsOf;
  }

  /** One more tree behind the others. */
  lemma AddTree(stack: seq<Frame>, current: seq<Tree>, tree: Tree)
    ensures TextSoFar(stack, current + [tree]) == TextSoFar(stack, current) + TextOf([tree])
    ensures TagsSoFar(stack, current + [tree]) == TagsSoFar(stack, current) + TagsOf([tree], |TextSoFar(stack, current)|)
  {
    SoFarIs(stack, current);
    SoFarIs(stack, current + [tree]);
    TextOfAppend(current, tree);
    hide TextOf, TagsOf, TextSoFar, TagsSoFar;
    if stack == [] {
      TagsOfAppend(current, tree, 0);
    } else {
      var top, rest := stack[|stack| - 1], stack[..|stack| - 1];
      var pos := |TextSoFar(rest, top.before)|;
      TagsOfAppend(current, tree, pos);
      Reassociate(TextSoFar(rest, top.before), TextOf(current), TextOf([tree]));
      Reassociate(TagsSoFar(rest, top.before) + [Start(top.node, pos)], TagsOf(current, pos), TagsOf([tree], pos + |TextOf(current)|));
    }
  }

  lemma SoFarIs(stack: seq<Frame>, current: seq<Tree>)
    ensures stack == [] ==> TextSoFar(stack, current) == TextOf(current) && TagsSoFar(stack, current) == TagsOf(current, 0)
    ensures stack != [] ==>
      var top, rest := stack[|stack| - 1], stack[..|stack| - 1];
      var pos := |TextSoFar(rest, top.before)|;
      && TextSoFar(stack, current) == TextSoFar(rest, top.before) + TextOf(current)
      && TagsSoFar(stack, current) == TagsSoFar(rest, top.before) + [Start(top.node, pos)] + TagsOf(current, pos)
  {
    hide TextOf, TagsOf;
    assert "" + TextOf(current) == TextOf(current);
  }

  lemma LeaveTags(stack: seq<Frame>, current: seq<Tree>)
    requires stack != []
    ensures var top, rest := stack[|stack| - 1], stack[..|stack| - 1];
      var after := top.before + [Element(top.node, current)];
      && TextSoFar(rest, after) == TextSoFar(stack, current)
      && TagsSoFar(rest, after) == TagsSoFar(stack, current) + [End(|TextSoFar(stack, current)|)]
  {
    hide TextOf, TagsOf;
    var top, rest := stack[|stack| - 1], stack[..|stack| - 1];
    var element, pos := Element(top.node, current), |TextSoFar(rest, top.before)|;
    AddTree(rest, top.before, element);
    TextOfOne(element);
    TagsOfOne(element, pos);
  }

  /** The tags, those behind the text drawn back to its end. */
  function Clipped(tags: seq<Tag>, end: nat): (c: seq<Tag>)
    ensures |c| == |tags|
  {
    seq(|tags|, i requires 0 <= i < |tags| =>
      if tags[i].Start? then Start(tags[i].node, Min(tags[i].pos, end)) else End(Min(tags[i].pos, end)))
  }

  /** What has been put out up to the `k`th tag is the text up to `textPos` with just those tags. */
  ghost predicate PutOut(all: seq<Tag>, text: string, textPos: nat, stack: seq<Frame>, current: seq<Tree>, k: nat) {
    && k <= |all| && Nested(all[k..], |stack|) && (k < |all| ==> textPos <= all[k].pos)
    && TextSoFar(stack, current) == text[..Min(textPos, |text|)]
    && TagsSoFar(stack, current) == Clipped(all[..k], |text|)
  }

  lemma PutOutTag(all: seq<Tag>, text: string, textPos: nat, stack: seq<Frame>, current: seq<Tree>, k: nat)
    requires Sorted(all) && PutOut(all, text, textPos, stack, current, k) && k < |all| && all[k].pos <= textPos
    ensures all[k].Start? ==> PutOut(all, text, textPos, stack + [Frame(current, all[k].node)], [], k + 1)
    ensures all[k].End? ==> stack != []
    ensures all[k].End? ==>
      var top := stack[|stack| - 1];
      PutOut(all, text, textPos, stack[..|stack| - 1], top.before + [Element(top.node, current)], k + 1)
  {
    hide TextSoFar, TagsSoFar;
    assert all[k..][0] == all[k] && all[k..][1..] == all[k + 1..];
    assert all[..k + 1] == all[..k] + [all[k]];
    if all[k].Start? {
      EnterTags(stack, current, all[k].node);
      assert Clipped(all[..k + 1], |text|) == Clipped(all[..k], |text|) + [Start(all[k].node, Min(all[k].pos, |text|))];
    } else {
      LeaveTags(stack, current);
      assert Clipped(all[..k + 1], |text|) == Clipped(all[..k], |text|) + [End(Min(all[k].pos, |text|))];
    }
  }

  lemma PutOutText(all: seq<Tag>, text: string, textPos: nat, stack: seq<Frame>, current: seq<Tree>, k: nat, to: nat)
    requires PutOut(all, text, textPos, stack, current, k)
    requires textPos < to && (k < |all| ==> to <= all[k].pos)
    ensures PutOut(all, text, to, stack, current + [Text(Substring(text, textPos, to))], k)
  {
    hide TextSoFar, TagsSoFar, TextOf, TagsOf, Nested, Clipped;
    var more := Text(Substring(text, textPos, to));
    AddTree(stack, current, more);
    TextOfOne(more);
    TagsOfOne(more, |TextSoFar(stack, current)|);
    assert text[..Min(textPos, |text|)] + Substring(text, textPos, to) == text[..Min(to, |text|)];
  }

  lemma PutOutAll(all: seq<Tag>, text: string, textPos: nat, stack: seq<Frame>, current: seq<Tree>)
    requires PutOut(all, text, textPos, stack, current, |all|) && textPos >= |text|
    ensures stack == [] && TextOf(current) == text && TagsOf(current, 0) == Clipped(all, |text|)
  {
    hide TextOf, TagsOf;
    assert all[..|all|] == all && text[..|text|] == text;
  }

  /** The tree has exactly the text, each character inside what the tags have open at its position;
      and if the tags are in order and well nested, it has an element for each of them, with or
      without text. */
  method InsertTags(tags: seq<Tag>, text: string) returns (result: seq<Tree>)
    requires Grounded(tags, 0)
    ensures Chars(result, []) == Tagged(tags, text, |text|)
    ensures Sorted(tags) && Nested(tags, 0) ==> TextOf(result) == text && TagsOf(result, 0) == Clipped(tags, |text|)
  {
    ghost var tidy := Sorted(tags) && Nested(tags, 0);
    NothingPutOut(tags, text);
    var tagIndex, numTags := 0, |tags|;
    var textPos, textLength := 0, |text|;
    var stack: seq<Frame>, current: seq<Tree> := [], [];
    assert tags[0..] == tags;
    assert Inserting(tags, text, 0, [], [], tags);
    hide Inserting, PutOut, Sorted, Nested;
    while textPos < textLength || tagIndex < numTags
      invariant 0 <= tagIndex <= numTags
      invariant Inserting(tags, text, textPos, stack, current, tags[tagIndex..])
      invariant tidy ==> PutOut(tags, text, textPos, stack, current, tagIndex)
      decreases numTags - tagIndex, if tagIndex < numTags then tags[tagIndex].pos - textPos else textLength - textPos
    {
      var tagPos := if tagIndex < numTags then tags[tagIndex].pos else textLength;
      ghost var rest := tags[tagIndex..];
      if tagPos <= textPos {
        assert rest[1..] == tags[tagIndex + 1..];
        if tidy {
          PutOutTag(tags, text, textPos, stack, current, tagIndex);
        }
        if tags[tagIndex].Start? {
          InsertingStart(tags, text, textPos, stack, current, rest);
          stack, current := stack + [Frame(current, tags[tagIndex].node)], [];
        } else {
          InsertingEnd(tags, text, textPos, stack, current, rest);
          var top := stack[|stack| - 1];
          stack, current := stack[..|stack| - 1], top.before + [Element(top.node, current)];
        }
        tagIndex := tagIndex + 1;
      } else {
        InsertingText(tags, text, textPos, stack, current, rest, tagPos);
        if tidy {
          PutOutText(tags, text, textPos, stack, current, tagIndex, tagPos);
        }
        current := current + [Text(Substring(text, textPos, tagPos))];
        textPos := tagPos;
      }
    }
    InsertingDone(tags, text, textPos, stack, current);
    ClosedChars(stack, current);
    if tidy {
      PutOutAll(tags, text, textPos, stack, current);
    }
    result := Closed(stack, current);
  }

  lemma NothingPutOut(all: seq<Tag>, text: string)
    ensures Nested(all, 0) ==> PutOut(all, text, 0, [], [], 0)
  {
    assert all[0..] == all;
    Nothing();
    assert Clipped([], |text|) == [] && all[..0] == [] && text[..0] == "";
  }

  lemma InsertingDone(all: seq<Tag>, text: string, textPos: nat, stack: seq<Frame>, current: seq<Tree>)
    requires Inserting(all, text, textPos, stack, current, []) && textPos >= |text|
    ensures Written(stack, current) == Tagged(all, text, |text|)
  {
  }

  /** The style of every character joins the elements that it stands in. */
  ghost predicate Styling(element: seq<Placed>, result: seq<Placed>, h: seq<Tag>) {
    && |result| == |element|
    && forall p :: 0 <= p < |element| ==>
         result[p] == Placed(element[p].c, Styled(element[p].path, StyleAt(h, p)))
  }

  lemma TaggedIsStyled(element: seq<Tree>, h: seq<Tag>)
    requires Spans(h, 0)
    ensures var tags, text := Merged(TagsOf(element, 0), h), TextOf(element);
      Grounded(tags, 0) && Styling(Chars(element, []), Tagged(tags, text, |text|), h)
  {
    hide *;
    var originalTags, text := TagsOf(element, 0), TextOf(element);
    var tags, chars := Merged(originalTags, h), Chars(element, []);
    assert originalTags + [] == originalTags;
    ExtractedNested(element, 0, [], 0);
    NestedNothing();
    MergedNested(originalTags, h, 0);
    NestedIsGrounded(tags, 0);
    CharsLength(element, []);
    forall p | 0 <= p < |text|
      ensures Placed(text[p], OpenAt([], tags, p)) == Placed(chars[p].c, Styled(chars[p].path, StyleAt(h, p)))
    {
      MergedOpen([], originalTags, h, p);
      NothingBehind(|text|);
      ExtractedOpen(element, 0, [], [], p);
      OpenedAt(chars, text, p, OpenAt([], originalTags, p), OpenAt([], [], p));
    }
    StylingOf(chars, tags, text, h);
  }

  lemma ClippedWithin(tags: seq<Tag>, end: nat)
    requires Within(tags, 0, end)
    ensures Sorted(tags) && NoneBefore(tags, 0)
    ensures Clipped(tags, end) == tags
  {
  }

  lemma {:induction false} WithoutSpansClipped(tags: seq<Tag>, end: nat)
    requires WithoutSpans(tags).Some?
    ensures WithoutSpans(Clipped(tags, end)) == Some(Clipped(WithoutSpans(tags).value, end))
  {
    if tags == [] {
      assert Clipped(tags, end) == [];
    } else if tags[0].Start? && tags[0].node.Span? {
      WithoutSpansClipped(tags[2..], end);
      assert Clipped(tags, end)[2..] == Clipped(tags[2..], end);
    } else {
      WithoutSpansClipped(tags[1..], end);
      assert Clipped(tags, end)[1..] == Clipped(tags[1..], end);
      var rest := WithoutSpans(tags[1..]).value;
      assert Clipped([tags[0]] + rest, end) == [Clipped(tags, end)[0]] + Clipped(rest, end);
    }
  }

  /** What the insertion is given is in order; and what it puts out has, spans apart, the tags of the
      page. */
  lemma MergedTidy(element: seq<Tree>, h: seq<Tag>)
    requires Spans(h, 0)
    ensures var o, n := TagsOf(element, 0), |TextOf(element)|;
      && Sorted(Merged(o, h)) && Nested(Merged(o, h), 0)
      && (Plain(o) ==> WithoutSpans(Clipped(Merged(o, h), n)) == Some(o))
  {
    hide *;
    var o, n := TagsOf(element, 0), |TextOf(element)|;
    ExtractedSorted(element, 0);
    ClippedWithin(o, n);
    MergedSorted(o, h, 0);
    assert o + [] == o;
    ExtractedNested(element, 0, [], 0);
    NestedNothing();
    MergedNested(o, h, 0);
    if Plain(o) {
      MergedKeepsOriginal(o, h);
      WithoutSpansClipped(Merged(o, h), n);
    }
  }

  lemma ClippedSorted(tags: seq<Tag>, end: nat)
    requires Sorted(tags)
    ensures Within(Clipped(tags, end), 0, end)
  {
  }

  /** So without its spans the result, from its beginning to its end, is the page. */
  lemma BareIsPage(element: seq<Tree>, result: seq<Tree>, h: seq<Tag>)
    requires Spans(h, 0) && Plain(TagsOf(element, 0)) && TextOf(result) == TextOf(element)
    requires TagsOf(result, 0) == Clipped(Merged(TagsOf(element, 0), h), |TextOf(element)|)
    ensures Bare(Stream(result), false) == Stream(element)
  {
    hide *;
    MergedTidy(element, h);
    ClippedSorted(Merged(TagsOf(element, 0), h), |TextOf(element)|);
    PageIsWoven(element);
    PageIsWoven(result);
    BareWoven(TagsOf(result, 0), TextOf(result), 0);
  }

  lemma NestedNothing()
    ensures Nested([], 0)
  {
  }

  lemma NothingBehind(end: nat)
    ensures NoneBefore([], end)
  {
  }

  lemma OpenedAt(chars: seq<Placed>, text: string, p: nat, open: seq<Node>, behind: seq<Node>)
    requires Opened(chars, text, 0, p, open, behind) && p < |text|
    ensures |chars| == |text| && chars[p] == Placed(text[p], open)
  {
  }

  lemma StylingOf(chars: seq<Placed>, tags: seq<Tag>, text: string, h: seq<Tag>)
    requires |chars| == |text|
    requires forall p :: 0 <= p < |text| ==>
      Placed(text[p], OpenAt([], tags, p)) == Placed(chars[p].c, Styled(chars[p].path, StyleAt(h, p)))
    ensures Styling(chars, Tagged(tags, text, |text|), h)
  {
  }

  /** `sh_highlightElement` from the extraction on: the text is unchanged, and every character
      stands in the elements it stood in, and innermost in the span of its highlighting; and without
      its spans the result is the page, with every element where it was. */
  method Highlight(element: seq<Tree>, highlightTags: array<Tag>) returns (result: seq<Tree>)
    requires Spans(highlightTags[..], 0)
    modifies highlightTags
    ensures Styling(Chars(element, []), Chars(result, []), old(highlightTags[..]))
    ensures TextOf(result) == TextOf(element)
    ensures TagsOf(result, 0) == Clipped(Merged(TagsOf(element, 0), old(highlightTags[..])), |TextOf(element)|)
    ensures Plain(TagsOf(element, 0)) ==>
              WithoutSpans(TagsOf(result, 0)) == Some(TagsOf(element, 0)) && Bare(Stream(result), false) == Stream(element)
  {
    hide *;
    ghost var h := highlightTags[..];
    TaggedIsStyled(element, highlightTags[..]);
    MergedTidy(element, highlightTags[..]);
    var extraction := new Extraction();
    extraction.FromNodeList(element);
    assert [] + TagsOf(element, 0) == TagsOf(element, 0) && "" + TextOf(element) == TextOf(element);
    var tags := MergeTags(extraction.tags, highlightTags);
    result := InsertTags(tags, extraction.text);
    if Plain(TagsOf(element, 0)) {
      BareIsPage(element, result, h);
    }
  }
}

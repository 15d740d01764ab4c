/**
  doc/sh_main.js: merging the tags of an element with the spans of its highlighting.

  A tag is a start or an end at a position of the text; an end carries no name.
 */
module TagMerging {
  import opened Basics

  /** An element of the page, or a span that gives a style. */
  datatype Node = Original(id: int) | Span(style: int)

  datatype Tag = Start(node: Node, pos: nat) | End(pos: nat)

  ghost predicate Sorted(tags: seq<Tag>) {
    forall i, j :: 0 <= i < j < |tags| ==> tags[i].pos <= tags[j].pos
  }

  /** The tags of an element: well nested inside `depth` open elements, and no spans. */
  predicate Nested(tags: seq<Tag>, depth: nat) {
    if tags == [] then depth == 0
    else if tags[0].Start? then Nested(tags[1..], depth + 1)
    else depth > 0 && Nested(tags[1..], depth - 1)
  }

  ghost predicate Plain(tags: seq<Tag>) {
    forall i :: 0 <= i < |tags| ==> tags[i].Start? ==> tags[i].node.Original?
  }

  /** The tags of a highlighting: non-empty spans one behind the other, none before `from`. */
  predicate Spans(tags: seq<Tag>, from: nat) {
    tags != [] ==>
      && |tags| >= 2
      && tags[0].Start? && tags[0].node.Span? && tags[1].End?
      && from <= tags[0].pos < tags[1].pos
      && Spans(tags[2..], tags[1].pos)
  }

  /** The style that the spans among `tags` give to position `p`. */
  function StyleAt(tags: seq<Tag>, p: nat): Option<int> {
    if tags == [] then None
    else if tags[0].Start? && tags[0].node.Span? && |tags| >= 2 then
      if tags[0].pos <= p < tags[1].pos then Some(tags[0].node.style) else StyleAt(tags[2..], p)
    else StyleAt(tags[1..], p)
  }

  /** `tags` without its spans: each span start must be followed by its end at once. */
  function WithoutSpans(tags: seq<Tag>): Option<seq<Tag>> {
    if tags == [] then Some([])
    else if tags[0].Start? && tags[0].node.Span? then
      if |tags| >= 2 && tags[1].End? then WithoutSpans(tags[2..]) else None
    else
      match WithoutSpans(tags[1..])
      case None => None
      case Some(rest) => Some([tags[0]] + rest)
  }

  /** What the merge loop computes from here on. */
  function Merged(o: seq<Tag>, h: seq<Tag>): seq<Tag>
    requires Spans(h, 0)
    decreases |o|, |h|, o != [] && h != [] && h[0].pos < o[0].pos
  {
    if o == [] then h
    else if h == [] then o
    else if o[0].pos <= h[0].pos then [o[0]] + Merged(o[1..], h)
    else if h[1].pos <= o[0].pos then
      SpansEarlier(h[2..], h[1].pos, 0);
      [h[0], h[1]] + Merged(o, h[2..])
    else
      SpansSplit(h, 0, o[0].pos);
      [h[0], End(o[0].pos)] + Merged(o, Rest(h, o[0].pos))
  }

  /** The spans from `p` on, where `p` lies inside the first. */
  function Rest(h: seq<Tag>, p: nat): seq<Tag>
    requires h != [] && h[0].Start?
  {
    [Start(h[0].node, p)] + h[1..]
  }

  lemma SpansEarlier(h: seq<Tag>, from: nat, earlier: nat)
    requires Spans(h, from) && earlier <= from
    ensures Spans(h, earlier)
  {
  }

  lemma SpansSplit(h: seq<Tag>, from: nat, p: nat)
    requires Spans(h, from) && h != [] && h[0].pos < p < h[1].pos
    ensures Spans(Rest(h, p), p) && Spans(Rest(h, p), 0)
  {
    assert Rest(h, p)[2..] == h[2..];
  }

  // What the merged list is.

  /** The original tags are there, in order and unchanged, and every span is closed at once: so no
      span crosses an original tag. */
  lemma {:induction false} MergedKeepsOriginal(o: seq<Tag>, h: seq<Tag>)
    requires Plain(o) && Spans(h, 0)
    ensures WithoutSpans(Merged(o, h)) == Some(o)
    decreases |o|, |h|, o != [] && h != [] && h[0].pos < o[0].pos
  {
    if o == [] {
      SpansOnly(h, 0);
    } else if h == [] {
      PlainHasNoSpans(o);
    } else if o[0].pos <= h[0].pos {
      MergedKeepsOriginal(o[1..], h);
      assert o == [o[0]] + o[1..];
    } else if h[1].pos <= o[0].pos {
      SpansEarlier(h[2..], h[1].pos, 0);
      MergedKeepsOriginal(o, h[2..]);
      assert Merged(o, h)[2..] == Merged(o, h[2..]);
    } else {
      SpansSplit(h, 0, o[0].pos);
      MergedKeepsOriginal(o, Rest(h, o[0].pos));
      assert Merged(o, h)[2..] == Merged(o, Rest(h, o[0].pos));
    }
  }

  /** Every span has some text. */
  predicate Filled(tags: seq<Tag>) {
    forall i :: 0 <= i < |tags| - 1 && tags[i].Start? && tags[i].node.Span? && tags[i + 1].End? ==> tags[i].pos < tags[i + 1].pos
  }

  /** No empty spans come of the splitting. */
  lemma {:induction false} MergedFilled(o: seq<Tag>, h: seq<Tag>)
    requires Plain(o) && Spans(h, 0)
    ensures Filled(Merged(o, h))
    decreases |o|, |h|, o != [] && h != [] && h[0].pos < o[0].pos
  {
    if o == [] {
      SpansFilled(h, 0);
    } else if h == [] {
    } else if o[0].pos <= h[0].pos {
      MergedFilled(o[1..], h);
    } else if h[1].pos <= o[0].pos {
      SpansEarlier(h[2..], h[1].pos, 0);
      MergedFilled(o, h[2..]);
    } else {
      SpansSplit(h, 0, o[0].pos);
      MergedFilled(o, Rest(h, o[0].pos));
    }
  }

  lemma {:induction false} SpansFilled(h: seq<Tag>, from: nat)
    requires Spans(h, from)
    ensures Filled(h)
  {
    if h != [] {
      SpansFilled(h[2..], h[1].pos);
    }
  }

  lemma {:induction false} SpansOnly(h: seq<Tag>, from: nat)
    requires Spans(h, from)
    ensures WithoutSpans(h) == Some([])
  {
    if h != [] {
      SpansOnly(h[2..], h[1].pos);
    }
  }

  lemma {:induction false} PlainHasNoSpans(o: seq<Tag>)
    requires Plain(o)
    ensures WithoutSpans(o) == Some(o)
  {
    if o != [] {
      PlainHasNoSpans(o[1..]);
      assert o == [o[0]] + o[1..];
    }
  }

  /** Spans do not disturb the nesting. */
  lemma {:induction false} MergedNested(o: seq<Tag>, h: seq<Tag>, depth: nat)
    requires Spans(h, 0)
    ensures Nested(Merged(o, h), depth) <==> Nested(o, depth)
    decreases |o|, |h|, o != [] && h != [] && h[0].pos < o[0].pos
  {
    if o == [] {
      SpansNested(h, 0, depth);
    } else if h == [] {
    } else if o[0].pos <= h[0].pos {
      if o[0].Start? {
        MergedNested(o[1..], h, depth + 1);
      } else if depth > 0 {
        MergedNested(o[1..], h, depth - 1);
      }
    } else if h[1].pos <= o[0].pos {
      SpansEarlier(h[2..], h[1].pos, 0);
      MergedNested(o, h[2..], depth);
      PairNested(h[0], h[1], Merged(o, h[2..]), depth);
    } else {
      SpansSplit(h, 0, o[0].pos);
      MergedNested(o, Rest(h, o[0].pos), depth);
      PairNested(h[0], End(o[0].pos), Merged(o, Rest(h, o[0].pos)), depth);
    }
  }

  lemma PairNested(start: Tag, end: Tag, tags: seq<Tag>, depth: nat)
    requires start.Start? && end.End?
    ensures Nested([start, end] + tags, depth) <==> Nested(tags, depth)
  {
    assert ([start, end] + tags)[1..] == [end] + tags;
    assert ([end] + tags)[1..] == tags;
  }

  lemma {:induction false} SpansNested(h: seq<Tag>, from: nat, depth: nat)
    requires Spans(h, from)
    ensures Nested(h, depth) <==> depth == 0
  {
    if h != [] {
      SpansNested(h[2..], h[1].pos, depth);
      assert h == [h[0], h[1]] + h[2..];
      PairNested(h[0], h[1], h[2..], depth);
    }
  }

  ghost predicate NoneBefore(tags: seq<Tag>, from: nat) {
    forall i :: 0 <= i < |tags| ==> from <= tags[i].pos
  }

  lemma {:induction false} SpansSorted(h: seq<Tag>, from: nat)
    requires Spans(h, from)
    ensures Sorted(h) && NoneBefore(h, from)
  {
    if h != [] {
      SpansSorted(h[2..], h[1].pos);
      SortedBehind([h[0], h[1]], h[2..]);
      assert h == [h[0], h[1]] + h[2..];
    }
  }

  lemma SortedBehind(front: seq<Tag>, tags: seq<Tag>)
    requires Sorted(front) && front != [] && Sorted(tags) && NoneBefore(tags, front[|front| - 1].pos)
    ensures Sorted(front + tags)
  {
  }

  lemma {:induction false} MergedSorted(o: seq<Tag>, h: seq<Tag>, from: nat)
    requires Sorted(o) && NoneBefore(o, from) && Spans(h, from) && Spans(h, 0)
    ensures Sorted(Merged(o, h)) && NoneBefore(Merged(o, h), from)
    decreases |o|, |h|, o != [] && h != [] && h[0].pos < o[0].pos
  {
    if o == [] {
      SpansSorted(h, from);
    } else if h == [] {
    } else if o[0].pos <= h[0].pos {
      SpansEarlier(h, h[0].pos, o[0].pos);
      MergedSorted(o[1..], h, o[0].pos);
      SortedBehind([o[0]], Merged(o[1..], h));
    } else if h[1].pos <= o[0].pos {
      SpansEarlier(h[2..], h[1].pos, 0);
      MergedSorted(o, h[2..], h[1].pos);
      SortedBehind([h[0], h[1]], Merged(o, h[2..]));
    } else {
      SpansSplit(h, from, o[0].pos);
      MergedSorted(o, Rest(h, o[0].pos), o[0].pos);
      SortedBehind([h[0], End(o[0].pos)], Merged(o, Rest(h, o[0].pos)));
    }
  }

  // Where a position is: which elements are open there.

  /** The open elements at position `p`, when `path` is open before `tags`. */
  function OpenAt(path: seq<Node>, tags: seq<Tag>, p: nat): seq<Node>
    decreases tags
  {
    if tags == [] || tags[0].pos > p then path
    else if tags[0].Start? then OpenAt(path + [tags[0].node], tags[1..], p)
    else if path == [] then []
    else OpenAt(path[..|path| - 1], tags[1..], p)
  }

  function Styled(path: seq<Node>, style: Option<int>): seq<Node> {
    if style.Some? then path + [Span(style.value)] else path
  }

  /** What is open at a position of the merged list: the original elements, and innermost the
      span that the highlighting gives. */
  lemma {:induction false} MergedOpen(path: seq<Node>, o: seq<Tag>, h: seq<Tag>, p: nat)
    requires Spans(h, 0) && Nested(o, |path|)
    ensures OpenAt(path, Merged(o, h), p) == Styled(OpenAt(path, o, p), StyleAt(h, p))
    decreases |o|, |h|, o != [] && h != [] && h[0].pos < o[0].pos
  {
    if o == [] {
      SpansOpen(path, h, 0, p);
    } else if h == [] {
    } else if o[0].pos <= h[0].pos {
      if o[0].pos > p {
        NoStyleBefore(h, h[0].pos, p);
      } else if o[0].Start? {
        MergedOpen(path + [o[0].node], o[1..], h, p);
      } else {
        MergedOpen(path[..|path| - 1], o[1..], h, p);
      }
    } else if h[1].pos <= o[0].pos {
      SpansEarlier(h[2..], h[1].pos, 0);
      PairOpen(path, h[0], h[1], Merged(o, h[2..]), p);
      if h[1].pos <= p {
        MergedOpen(path, o, h[2..], p);
      } else if p < h[0].pos {
        NoStyleBefore(h, h[0].pos, p);
      }
    } else {
      var q := o[0].pos;
      SpansSplit(h, 0, q);
      PairOpen(path, h[0], End(q), Merged(o, Rest(h, q)), p);
      if q <= p {
        MergedOpen(path, o, Rest(h, q), p);
        assert Rest(h, q)[2..] == h[2..];
      } else if p < h[0].pos {
        NoStyleBefore(h, h[0].pos, p);
      }
    }
  }

  lemma PairOpen(path: seq<Node>, start: Tag, end: Tag, tags: seq<Tag>, p: nat)
    requires start.Start? && end.End? && start.pos <= end.pos
    ensures OpenAt(path, [start, end] + tags, p)
            == if p < start.pos then path else if p < end.pos then path + [start.node] else OpenAt(path, tags, p)
  {
    assert ([start, end] + tags)[1..] == [end] + tags;
    assert ([end] + tags)[1..] == tags;
    assert (path + [start.node])[..|path|] == path;
  }

  lemma {:induction false} NoStyleBefore(h: seq<Tag>, from: nat, p: nat)
    requires Spans(h, from) && p < from
    ensures StyleAt(h, p) == None
  {
    if h != [] {
      NoStyleBefore(h[2..], h[1].pos, p);
    }
  }

  lemma {:induction false} SpansOpen(path: seq<Node>, h: seq<Tag>, from: nat, p: nat)
    requires Spans(h, from)
    ensures OpenAt(path, h, p) == Styled(path, StyleAt(h, p))
  {
    if h != [] {
      assert h == [h[0], h[1]] + h[2..];
      PairOpen(path, h[0], h[1], h[2..], p);
      if h[1].pos <= p {
        SpansOpen(path, h[2..], h[1].pos, p);
      } else if p < h[0].pos {
        NoStyleBefore(h, h[0].pos, p);
      }
    }
  }

  /** Every position keeps its style. */
  lemma {:induction false} MergedStyle(o: seq<Tag>, h: seq<Tag>, p: nat)
    requires Plain(o) && Spans(h, 0)
    ensures StyleAt(Merged(o, h), p) == StyleAt(h, p)
    decreases |o|, |h|, o != [] && h != [] && h[0].pos < o[0].pos
  {
    if o == [] {
    } else if h == [] {
      PlainHasNoStyle(o, p);
    } else if o[0].pos <= h[0].pos {
      MergedStyle(o[1..], h, p);
    } else if h[1].pos <= o[0].pos {
      SpansEarlier(h[2..], h[1].pos, 0);
      MergedStyle(o, h[2..], p);
      assert Merged(o, h)[2..] == Merged(o, h[2..]);
    } else {
      var q := o[0].pos;
      SpansSplit(h, 0, q);
      MergedStyle(o, Rest(h, q), p);
      assert Merged(o, h)[2..] == Merged(o, Rest(h, q));
      assert Rest(h, q)[2..] == h[2..];
      if p < h[1].pos {
        NoStyleBefore(h[2..], h[1].pos, p);
      }
    }
  }

  lemma {:induction false} PlainHasNoStyle(o: seq<Tag>, p: nat)
    requires Plain(o)
    ensures StyleAt(o, p) == None
  {
    if o != [] {
      PlainHasNoStyle(o[1..], p);
    }
  }

  // The merge itself (lines 342-393).

  /** The three turns the loop can take. */
  lemma MergedTurn(o: seq<Tag>, h: seq<Tag>)
    requires o != [] && h != [] && Spans(h, 0)
    ensures |h| >= 2 && h[0].Start?
    ensures o[0].pos <= h[0].pos ==> Merged(o, h) == [o[0]] + Merged(o[1..], h)
    ensures o[0].pos > h[0].pos && h[1].pos <= o[0].pos ==>
              Spans(h[2..], 0) && Merged(o, h) == [h[0], h[1]] + Merged(o, h[2..])
    ensures o[0].pos > h[0].pos && h[1].pos > o[0].pos ==>
              Spans(Rest(h, o[0].pos), 0) && Merged(o, h) == [h[0], End(o[0].pos)] + Merged(o, Rest(h, o[0].pos))
  {
    if o[0].pos > h[0].pos {
      if h[1].pos <= o[0].pos {
        SpansEarlier(h[2..], h[1].pos, 0);
      } else {
        SpansSplit(h, 0, o[0].pos);
      }
    }
  }

  lemma MergedEnd(o: seq<Tag>, h: seq<Tag>)
    requires Spans(h, 0) && (o == [] || h == [])
    ensures Merged(o, h) == o + h
  {
  }

  /** `sh_mergeTags`.  It shortens spans in place in `highlightTags`. */
  method MergeTags(originalTags: seq<Tag>, highlightTags: array<Tag>) returns (result: seq<Tag>)
    requires Spans(highlightTags[..], 0)
    modifies highlightTags
    ensures result == Merged(originalTags, old(highlightTags[..]))
  {
    hide Merged, Spans;
    ghost var h := highlightTags[..];
    var numOriginalTags, numHighlightTags := |originalTags|, highlightTags.Length;
    if numOriginalTags == 0 {
      MergedEnd(originalTags, h);
      return highlightTags[..];
    }
    if numHighlightTags == 0 {
      MergedEnd(originalTags, h);
      return originalTags;
    }
    result := [];
    var originalIndex, highlightIndex := 0, 0;
    assert originalTags[0..] == originalTags && highlightTags[0..] == h;
    while originalIndex < numOriginalTags && highlightIndex < numHighlightTags
      invariant 0 <= originalIndex <= numOriginalTags && 0 <= highlightIndex <= numHighlightTags
      invariant Spans(highlightTags[highlightIndex..], 0)
      invariant result + Merged(originalTags[originalIndex..], highlightTags[highlightIndex..]) == Merged(originalTags, h)
      decreases numOriginalTags - originalIndex, numHighlightTags - highlightIndex,
                originalIndex < numOriginalTags && highlightIndex < numHighlightTags &&
                highlightTags[highlightIndex].pos < originalTags[originalIndex].pos
    {
      var originalTag, highlightTag := originalTags[originalIndex], highlightTags[highlightIndex];
      ghost var o, rest, before := originalTags[originalIndex..], highlightTags[highlightIndex..], result;
      MergedTurn(o, rest);
      if originalTag.pos <= highlightTag.pos {
        result := result + [originalTag];
        originalIndex := originalIndex + 1;
        assert o[1..] == originalTags[originalIndex..];
        Reassociate(before, [originalTag], Merged(o[1..], rest));
      } else {
        result := result + [highlightTag];
        assert rest[1] == highlightTags[highlightIndex + 1];
        if highlightTags[highlightIndex + 1].pos <= originalTag.pos {
          highlightIndex := highlightIndex + 1;
          result := result + [highlightTags[highlightIndex]];
          highlightIndex := highlightIndex + 1;
          assert rest[2..] == highlightTags[highlightIndex..];
          assert before + [rest[0]] + [rest[1]] == before + [rest[0], rest[1]];
          Reassociate(before, [rest[0], rest[1]], Merged(o, rest[2..]));
        } else {
          result := result + [End(originalTag.pos)];
          highlightTags[highlightIndex] := Start(highlightTag.node, originalTag.pos);
          assert highlightTags[highlightIndex..] == Rest(rest, originalTag.pos);
          assert before + [rest[0]] + [End(originalTag.pos)] == before + [rest[0], End(originalTag.pos)];
          Reassociate(before, [rest[0], End(originalTag.pos)], Merged(o, Rest(rest, originalTag.pos)));
        }
      }
    }
    MergedEnd(originalTags[originalIndex..], highlightTags[highlightIndex..]);
    assert Merged(originalTags, h) == result + originalTags[originalIndex..] + highlightTags[highlightIndex..];
    result := PushRest(result, originalTags, originalIndex);
    result := PushRest(result, highlightTags[..], highlightIndex);
  }

  /** The last two loops of `sh_mergeTags`. */
  method PushRest(before: seq<Tag>, tags: seq<Tag>, from: nat) returns (result: seq<Tag>)
    requires from <= |tags|
    ensures result == before + tags[from..]
  {
    result := before;
    var i := from;
    while i < |tags|
      invariant from <= i <= |tags|
      invariant result + tags[i..] == before + tags[from..]
    {
      result := result + [tags[i]];
      i := i + 1;
    }
  }
}

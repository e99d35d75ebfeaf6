/** The part of ElementTree's path language the extractor uses:
    `.//T` (every proper descendant tagged T, in preorder), `find('.//T')`
    (the first of those, or `None`) and `findall('.//P/C')` (for every
    proper descendant tagged P in preorder, its direct children tagged C in
    child order). */
module ElementPath {
  import opened Wrappers
  import opened ElementTree

  // ---------------------------------------------------------------------
  // Filtering positions by tag

  /** The positions of `ps` whose element is tagged `tag`, order kept. */
  function Tagged(e: Element, ps: seq<Path>, tag: string): (qs: seq<Path>)
    requires forall k :: 0 <= k < |ps| ==> ValidPath(e, ps[k])
    ensures forall k :: 0 <= k < |qs| ==> ValidPath(e, qs[k]) && At(e, qs[k]).tag == tag
  {
    if |ps| == 0 then []
    else
      var rest := Tagged(e, ps[1..], tag);
      if At(e, ps[0]).tag == tag then [ps[0]] + rest else rest
  }

  /** Filtering keeps exactly the positions tagged `tag`. */
  lemma {:induction false} TaggedMembers(e: Element, ps: seq<Path>, tag: string)
    requires forall k :: 0 <= k < |ps| ==> ValidPath(e, ps[k])
    ensures forall q :: q in Tagged(e, ps, tag) <==> q in ps && ValidPath(e, q) && At(e, q).tag == tag
    decreases |ps|
  {
    if |ps| > 0 {
      TaggedMembers(e, ps[1..], tag);
      assert ps == [ps[0]] + ps[1..];
    }
  }

  lemma {:induction false} TaggedSorted(e: Element, ps: seq<Path>, tag: string)
    requires forall k :: 0 <= k < |ps| ==> ValidPath(e, ps[k])
    requires StrictlySorted(ps)
    ensures StrictlySorted(Tagged(e, ps, tag))
    decreases |ps|
  {
    if |ps| > 0 {
      var rest := ps[1..];
      TaggedSorted(e, rest, tag);
      TaggedMembers(e, rest, tag);
      if At(e, ps[0]).tag == tag {
        var ys := Tagged(e, rest, tag);
        forall b | 0 <= b < |ys|
          ensures LexLess(ps[0], ys[b])
        {
          var k :| 0 <= k < |rest| && rest[k] == ys[b];
          assert ps[k + 1] == ys[b];
        }
        SortedConcat([ps[0]], ys);
      }
    }
  }

  lemma {:induction false} TaggedConcat(e: Element, xs: seq<Path>, ys: seq<Path>, tag: string)
    requires forall k :: 0 <= k < |xs| ==> ValidPath(e, xs[k])
    requires forall k :: 0 <= k < |ys| ==> ValidPath(e, ys[k])
    ensures Tagged(e, xs + ys, tag) == Tagged(e, xs, tag) + Tagged(e, ys, tag)
    decreases |xs|
  {
    if |xs| > 0 {
      assert (xs + ys)[1..] == xs[1..] + ys;
      TaggedConcat(e, xs[1..], ys, tag);
    } else {
      assert xs + ys == ys;
    }
  }

  /** Filtering the positions of child `i`'s subtree, seen from `e`, is the
      same as filtering them from the child and prefixing the result. */
  lemma {:induction false} TaggedPrefixed(e: Element, i: nat, ps: seq<Path>, tag: string)
    requires i < |e.children|
    requires forall k :: 0 <= k < |ps| ==> ValidPath(e.children[i], ps[k])
    ensures forall k :: 0 <= k < |ps| ==> ValidPath(e, Prefixed(i, ps)[k])
    ensures Tagged(e, Prefixed(i, ps), tag) == Prefixed(i, Tagged(e.children[i], ps, tag))
    decreases |ps|
  {
    PrefixedValid(e, i, ps);
    if |ps| > 0 {
      StepIn(e, i, ps[0]);
      assert Prefixed(i, ps)[1..] == Prefixed(i, ps[1..]);
      TaggedPrefixed(e, i, ps[1..], tag);
      if At(e.children[i], ps[0]).tag == tag {
        assert Prefixed(i, [ps[0]] + Tagged(e.children[i], ps[1..], tag))
            == Prefixed(i, [ps[0]]) + Prefixed(i, Tagged(e.children[i], ps[1..], tag));
      }
    }
  }

  /** `.//tag` from context `e`: the proper descendants tagged `tag`, in
      preorder. */
  function DescendantsTagged(e: Element, tag: string): seq<Path> {
    TaggedFrom(e, tag, 0)
  }

  /** The positions tagged `tag` in the subtrees of `e`'s children `i`,
      `i + 1`, ..., in preorder. */
  function TaggedFrom(e: Element, tag: string, i: nat): seq<Path>
    requires i <= |e.children|
  {
    ChildPositionsValid(e, i);
    Tagged(e, ChildPositions(e, i), tag)
  }

  /** `.//tag` selects exactly the proper descendants tagged `tag`, each
      once, in preorder. */
  lemma DescendantsTaggedExact(e: Element, tag: string)
    ensures forall q :: q in DescendantsTagged(e, tag) <==>
      |q| > 0 && ValidPath(e, q) && At(e, q).tag == tag
    ensures StrictlySorted(DescendantsTagged(e, tag))
  {
    DescendantsExact(e);
    TaggedMembers(e, Descendants(e), tag);
    TaggedSorted(e, Descendants(e), tag);
  }

  /** The head of `.//tag` is the preorder-least proper descendant tagged
      `tag`: every other one comes after it in the document. */
  lemma FirstTaggedIsLeast(e: Element, tag: string)
    requires |DescendantsTagged(e, tag)| > 0
    ensures var p := DescendantsTagged(e, tag)[0];
      |p| > 0 && ValidPath(e, p) && At(e, p).tag == tag &&
      forall q :: |q| > 0 && ValidPath(e, q) && At(e, q).tag == tag && q != p ==> LexLess(p, q)
  {
    var ds := DescendantsTagged(e, tag);
    DescendantsTaggedExact(e, tag);
    forall q | |q| > 0 && ValidPath(e, q) && At(e, q).tag == tag && q != ds[0]
      ensures LexLess(ds[0], q)
    {
      var k :| 0 <= k < |ds| && ds[k] == q;
      assert 0 < k;
    }
  }

  // ---------------------------------------------------------------------
  // find('.//tag')

  /** The depth-first search ElementTree's `find('.//tag')` performs over
      the subtrees of `e`'s children `i`, `i + 1`, ...: a child tagged `tag`
      is returned before anything below it, and a subtree is finished
      before its next sibling is looked at. */
  function FindFrom(e: Element, tag: string, i: nat): Option<Element>
    requires i <= |e.children|
    decreases e, |e.children| - i
  {
    if i == |e.children| then None
    else if e.children[i].tag == tag then Some(e.children[i])
    else match FindFrom(e.children[i], tag, 0)
      case Some(found) => Some(found)
      case None => FindFrom(e, tag, i + 1)
  }

  /** The preorder matches among the subtrees of children `i`, `i + 1`,
      ... : child `i` itself if it matches, then the matches below it, then
      those of the later children. */
  lemma TaggedFromSplit(e: Element, tag: string, i: nat)
    requires i < |e.children|
    ensures var c := e.children[i];
      TaggedFrom(e, tag, i) ==
        Prefixed(i, (if c.tag == tag then [[]] else []) + TaggedFrom(c, tag, 0)) +
        TaggedFrom(e, tag, i + 1)
  {
    var c := e.children[i];
    var sub := Positions(c);
    var later := ChildPositions(e, i + 1);
    assert ChildPositions(e, i) == Prefixed(i, sub) + later;
    PositionsValid(c);
    ChildPositionsValid(c, 0);
    ChildPositionsValid(e, i + 1);
    PrefixedValid(e, i, sub);
    TaggedConcat(e, Prefixed(i, sub), later, tag);
    TaggedPrefixed(e, i, sub, tag);
    TaggedConcat(c, [[]], ChildPositions(c, 0), tag);
    assert Tagged(c, [[]], tag) == if c.tag == tag then [[]] else [];
  }

  /** The search from child `i` on returns the first match of the preorder
      enumeration of those children's subtrees. */
  lemma {:induction false} FindFromIsFirst(e: Element, tag: string, i: nat)
    requires i <= |e.children|
    ensures var ts := TaggedFrom(e, tag, i);
      FindFrom(e, tag, i) == if |ts| == 0 then None else Some(At(e, ts[0]))
    decreases e, |e.children| - i
  {
    if i < |e.children| {
      var c := e.children[i];
      var ts := TaggedFrom(e, tag, i);
      var tBelow := TaggedFrom(c, tag, 0);
      var tLater := TaggedFrom(e, tag, i + 1);
      TaggedFromSplit(e, tag, i);
      if c.tag == tag {
        assert ts[0] == [i] + [];
        StepIn(e, i, []);
      } else {
        assert ts == Prefixed(i, tBelow) + tLater;
        FindFromIsFirst(c, tag, 0);
        FindFromIsFirst(e, tag, i + 1);
        if |tBelow| > 0 {
          assert ts[0] == [i] + tBelow[0];
          StepIn(e, i, tBelow[0]);
        }
      }
    }
  }

  /** `find('.//tag')` on `e`: the first proper descendant tagged `tag` in
      preorder, at any depth, or `None` when there is none. */
  function Find(e: Element, tag: string): Option<Element> {
    FindFrom(e, tag, 0)
  }

  /** `find('.//tag')` returns the first proper descendant tagged `tag` in
      preorder, at any depth, and `None` exactly when there is none. */
  lemma FindIsFirst(e: Element, tag: string)
    ensures Find(e, tag).None? <==> |DescendantsTagged(e, tag)| == 0
    ensures Find(e, tag).Some? ==> Find(e, tag).value == At(e, DescendantsTagged(e, tag)[0])
  {
    FindFromIsFirst(e, tag, 0);
  }

  // ---------------------------------------------------------------------
  // findall('.//parent/child')

  /** The indices of the elements of `cs` tagged `tag`, ascending. */
  function TaggedIndices(cs: seq<Element>, tag: string): (idx: seq<nat>)
    ensures forall k :: 0 <= k < |idx| ==> idx[k] < |cs| && cs[idx[k]].tag == tag
    ensures forall j :: 0 <= j < |cs| && cs[j].tag == tag ==> j in idx
    ensures forall a, b :: 0 <= a < b < |idx| ==> idx[a] < idx[b]
  {
    if |cs| == 0 then []
    else
      var n := |cs| - 1;
      var front := TaggedIndices(cs[..n], tag);
      if cs[n].tag == tag then front + [n] else front
  }

  /** The positions of the children of the element at `p` that are tagged
      `tag`, in child order: one `/tag` step from one context element. */
  function ChildStep(e: Element, p: Path, tag: string): (qs: seq<Path>)
    requires ValidPath(e, p)
  {
    var idx := TaggedIndices(At(e, p).children, tag);
    seq(|idx|, k requires 0 <= k < |idx| => p + [idx[k]])
  }

  /** Every path produced by the `/tag` step leads to a child tagged `tag`
      of a context element; every such child is produced. */
  lemma ChildStepExact(e: Element, p: Path, tag: string)
    requires ValidPath(e, p)
    ensures forall k :: 0 <= k < |ChildStep(e, p, tag)| ==>
      var q := ChildStep(e, p, tag)[k];
      |q| > 0 && Parent(q) == p && ValidPath(e, q) && At(e, q).tag == tag
    ensures forall j :: 0 <= j < |At(e, p).children| && At(e, p).children[j].tag == tag ==>
      p + [j] in ChildStep(e, p, tag)
    ensures forall a, b :: 0 <= a < b < |ChildStep(e, p, tag)| ==>
      Last(ChildStep(e, p, tag)[a]) < Last(ChildStep(e, p, tag)[b])
  {
    var qs := ChildStep(e, p, tag);
    var idx := TaggedIndices(At(e, p).children, tag);
    forall k | 0 <= k < |qs|
      ensures |qs[k]| > 0 && Parent(qs[k]) == p && ValidPath(e, qs[k]) && At(e, qs[k]).tag == tag
    {
      StepOut(e, p, idx[k]);
      assert qs[k][..|qs[k]| - 1] == p;
    }
    forall j | 0 <= j < |At(e, p).children| && At(e, p).children[j].tag == tag
      ensures p + [j] in qs
    {
      var k :| 0 <= k < |idx| && idx[k] == j;
      assert qs[k] == p + [j];
    }
  }

  /** The `/tag` step applied to each context position in turn, results
      concatenated in context order. */
  function SelectChildren(e: Element, parents: seq<Path>, tag: string): (qs: seq<Path>)
    requires forall k :: 0 <= k < |parents| ==> ValidPath(e, parents[k])
    ensures forall k :: 0 <= k < |qs| ==> ValidPath(e, qs[k])
  {
    if |parents| == 0 then []
    else
      ChildStepExact(e, parents[0], tag);
      ChildStep(e, parents[0], tag) + SelectChildren(e, parents[1..], tag)
  }

  /** Every selected position is a child tagged `tag` of some context
      position. */
  lemma {:induction false} SelectChildrenSound(e: Element, parents: seq<Path>, tag: string)
    requires forall k :: 0 <= k < |parents| ==> ValidPath(e, parents[k])
    ensures forall k :: 0 <= k < |SelectChildren(e, parents, tag)| ==>
      var q := SelectChildren(e, parents, tag)[k];
      |q| > 0 && Parent(q) in parents && At(e, q).tag == tag
    decreases |parents|
  {
    if |parents| > 0 {
      ChildStepExact(e, parents[0], tag);
      SelectChildrenSound(e, parents[1..], tag);
      assert parents == [parents[0]] + parents[1..];
    }
  }

  /** Every child tagged `tag` of a context position is selected. */
  lemma {:induction false} SelectChildrenComplete(e: Element, parents: seq<Path>, tag: string)
    requires forall k :: 0 <= k < |parents| ==> ValidPath(e, parents[k])
    ensures forall p, j ::
      (p in parents && ValidPath(e, p) && 0 <= j < |At(e, p).children| && At(e, p).children[j].tag == tag)
      ==> p + [j] in SelectChildren(e, parents, tag)
    decreases |parents|
  {
    if |parents| > 0 {
      ChildStepExact(e, parents[0], tag);
      SelectChildrenComplete(e, parents[1..], tag);
      assert parents == [parents[0]] + parents[1..];
    }
  }

  /** `findall('.//parentTag/childTag')` from context `e`, as positions. */
  function SelectPaths(e: Element, parentTag: string, childTag: string): (qs: seq<Path>)
    ensures forall k :: 0 <= k < |qs| ==> ValidPath(e, qs[k])
  {
    SelectChildren(e, DescendantsTagged(e, parentTag), childTag)
  }

  /** `findall('.//parentTag/childTag')` from context `e`: the selected
      elements themselves. */
  function FindAll(e: Element, parentTag: string, childTag: string): (ms: seq<Element>)
    ensures |ms| == |SelectPaths(e, parentTag, childTag)|
    ensures forall k :: 0 <= k < |ms| ==> ms[k] == At(e, SelectPaths(e, parentTag, childTag)[k])
  {
    var qs := SelectPaths(e, parentTag, childTag);
    seq(|qs|, k requires 0 <= k < |qs| => At(e, qs[k]))
  }

  /** The order `findall('.//P/C')` produces: grouped by context element
      in preorder, and by child position inside a group. */
  predicate ParentThenChildOrder(qs: seq<Path>) {
    forall a, b :: 0 <= a < b < |qs| ==>
      |qs[a]| > 0 && |qs[b]| > 0 &&
      (LexLess(Parent(qs[a]), Parent(qs[b])) ||
       (Parent(qs[a]) == Parent(qs[b]) && Last(qs[a]) < Last(qs[b])))
  }

  /** What `findall('.//P/C')` selects: an element tagged `childTag`
      whose parent is tagged `parentTag` and is not the context element. */
  predicate Selected(e: Element, parentTag: string, childTag: string, q: Path) {
    |q| >= 2 && ValidPath(e, q) && At(e, q).tag == childTag &&
    ValidPath(e, Parent(q)) && At(e, Parent(q)).tag == parentTag
  }

  lemma SelectPathsSound(e: Element, parentTag: string, childTag: string)
    ensures forall q :: q in SelectPaths(e, parentTag, childTag) ==> Selected(e, parentTag, childTag, q)
  {
    var ds := DescendantsTagged(e, parentTag);
    DescendantsTaggedExact(e, parentTag);
    SelectChildrenSound(e, ds, childTag);
    forall q | q in SelectPaths(e, parentTag, childTag)
      ensures Selected(e, parentTag, childTag, q)
    {
      assert Parent(q) in ds;
    }
  }

  lemma SelectPathsComplete(e: Element, parentTag: string, childTag: string)
    ensures forall q :: Selected(e, parentTag, childTag, q) ==> q in SelectPaths(e, parentTag, childTag)
  {
    var ds := DescendantsTagged(e, parentTag);
    DescendantsTaggedExact(e, parentTag);
    SelectChildrenComplete(e, ds, childTag);
    forall q | Selected(e, parentTag, childTag, q)
      ensures q in SelectPaths(e, parentTag, childTag)
    {
      var p, j := Parent(q), Last(q);
      assert q == p + [j];
      StepOut(e, p, j);
      assert p in ds;
    }
  }

  /** The selection is exactly the elements tagged `childTag` whose parent
      is tagged `parentTag` and is not the context element itself. */
  lemma SelectPathsExact(e: Element, parentTag: string, childTag: string)
    ensures forall q :: q in SelectPaths(e, parentTag, childTag) <==> Selected(e, parentTag, childTag, q)
  {
    SelectPathsSound(e, parentTag, childTag);
    SelectPathsComplete(e, parentTag, childTag);
  }

  /** In a strictly sorted list the head precedes every later entry. */
  lemma HeadFirst(ps: seq<Path>, q: Path)
    requires StrictlySorted(ps) && |ps| > 0 && q in ps[1..]
    ensures LexLess(ps[0], q)
  {
    var k :| 0 <= k < |ps| - 1 && ps[1..][k] == q;
    assert ps[k + 1] == q;
  }

  lemma {:induction false} SelectChildrenOrdered(e: Element, parents: seq<Path>, tag: string)
    requires forall k :: 0 <= k < |parents| ==> ValidPath(e, parents[k])
    requires StrictlySorted(parents)
    ensures ParentThenChildOrder(SelectChildren(e, parents, tag))
    decreases |parents|
  {
    if |parents| > 0 {
      var p := parents[0];
      var rest := parents[1..];
      SelectChildrenOrdered(e, rest, tag);
      SelectChildrenSound(e, rest, tag);
      ChildStepExact(e, p, tag);
      var xs, ys := ChildStep(e, p, tag), SelectChildren(e, rest, tag);
      var qs := xs + ys;
      forall a, b | 0 <= a < b < |qs|
        ensures |qs[a]| > 0 && |qs[b]| > 0 &&
          (LexLess(Parent(qs[a]), Parent(qs[b])) ||
           (Parent(qs[a]) == Parent(qs[b]) && Last(qs[a]) < Last(qs[b])))
      {
        if b < |xs| {
          assert qs[a] == xs[a] && qs[b] == xs[b];
        } else if a < |xs| {
          assert qs[a] == xs[a] && qs[b] == ys[b - |xs|];
          HeadFirst(parents, Parent(ys[b - |xs|]));
        } else {
          assert qs[a] == ys[a - |xs|] && qs[b] == ys[b - |xs|];
        }
      }
    }
  }

  /** `findall('.//P/C')` lists its matches grouped by the P element in
      preorder, then by child position; no match is listed twice. */
  lemma SelectPathsOrdered(e: Element, parentTag: string, childTag: string)
    ensures ParentThenChildOrder(SelectPaths(e, parentTag, childTag))
    ensures forall a, b :: 0 <= a < b < |SelectPaths(e, parentTag, childTag)| ==>
      SelectPaths(e, parentTag, childTag)[a] != SelectPaths(e, parentTag, childTag)[b]
  {
    var qs := SelectPaths(e, parentTag, childTag);
    DescendantsTaggedExact(e, parentTag);
    SelectChildrenOrdered(e, DescendantsTagged(e, parentTag), childTag);
    SelectChildrenSound(e, DescendantsTagged(e, parentTag), childTag);
    forall a, b | 0 <= a < b < |qs|
      ensures qs[a] != qs[b]
    {
      LexLessIrreflexive(Parent(qs[a]));
    }
  }
}

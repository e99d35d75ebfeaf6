/** An already-parsed XML element tree, positions inside it, and its
    preorder (document-order) enumeration.

    A position is a path: the child indices followed from the context
    element. Paths give every element of the tree its own identity, so two
    structurally equal subtrees at different places are still told apart. */
module ElementTree {
  import opened Wrappers

  /** One element: its tag, its text (`None` when the element has no
      text), and its children in document order. Attributes and tail text
      are not read by the extractor and are not modelled. */
  datatype Element = Element(tag: string, text: Option<string>, children: seq<Element>)

  /** The child indices leading from a context element to one of its
      descendants; the empty path is the context element itself. */
  type Path = seq<nat>

  /** True when following `p` from `e` never leaves the tree. */
  predicate ValidPath(e: Element, p: Path)
    decreases |p|
  {
    |p| == 0 || (p[0] < |e.children| && ValidPath(e.children[p[0]], p[1..]))
  }

  /** The element reached by following `p` from `e`. */
  function At(e: Element, p: Path): Element
    requires ValidPath(e, p)
    decreases |p|
  {
    if |p| == 0 then e else At(e.children[p[0]], p[1..])
  }

  /** The path to the parent of the element at `q`. */
  function Parent(q: Path): Path
    requires |q| > 0
  {
    q[..|q| - 1]
  }

  /** The index of the element at `q` among its parent's children. */
  function Last(q: Path): nat
    requires |q| > 0
  {
    q[|q| - 1]
  }

  /** Stepping into child `i` first and then along `p`. */
  lemma StepIn(e: Element, i: nat, p: Path)
    ensures ValidPath(e, [i] + p) <==> i < |e.children| && ValidPath(e.children[i], p)
    ensures ValidPath(e, [i] + p) ==> At(e, [i] + p) == At(e.children[i], p)
  {
    assert ([i] + p)[0] == i;
    assert ([i] + p)[1..] == p;
  }

  /** Following `p` and then stepping into child `j`. */
  lemma {:induction false} StepOut(e: Element, p: Path, j: nat)
    ensures ValidPath(e, p + [j]) <==> ValidPath(e, p) && j < |At(e, p).children|
    ensures ValidPath(e, p + [j]) ==> At(e, p + [j]) == At(e, p).children[j]
    decreases |p|
  {
    if |p| == 0 {
      assert p + [j] == [j] + [];
      StepIn(e, j, []);
    } else {
      var i := p[0];
      assert p + [j] == [i] + (p[1..] + [j]);
      assert p == [i] + p[1..];
      StepIn(e, i, p[1..] + [j]);
      StepIn(e, i, p[1..]);
      if i < |e.children| {
        StepOut(e.children[i], p[1..], j);
      }
    }
  }

  // ---------------------------------------------------------------------
  // Preorder as an order on paths

  /** Preorder (document order) on paths of one tree: an ancestor comes
      before its descendants, and earlier siblings' subtrees come before
      later ones. This is lexicographic order with a proper prefix first. */
  predicate LexLess(a: Path, b: Path)
    decreases |a|
  {
    |b| > 0 && (|a| == 0 || a[0] < b[0] || (a[0] == b[0] && LexLess(a[1..], b[1..])))
  }

  /** No path precedes itself. */
  lemma {:induction false} LexLessIrreflexive(a: Path)
    ensures !LexLess(a, a)
    decreases |a|
  {
    if |a| > 0 {
      LexLessIrreflexive(a[1..]);
    }
  }

  /** Prefixing both paths with the same step keeps their order. */
  lemma LexLessStepIn(i: nat, a: Path, b: Path)
    ensures LexLess([i] + a, [i] + b) <==> LexLess(a, b)
  {
    assert ([i] + a)[1..] == a;
    assert ([i] + b)[1..] == b;
  }

  /** Every path is strictly ordered before the next. */
  predicate StrictlySorted(ps: seq<Path>) {
    forall a, b :: 0 <= a < b < |ps| ==> LexLess(ps[a], ps[b])
  }

  lemma SortedConcat(xs: seq<Path>, ys: seq<Path>)
    requires StrictlySorted(xs) && StrictlySorted(ys)
    requires forall a, b :: 0 <= a < |xs| && 0 <= b < |ys| ==> LexLess(xs[a], ys[b])
    ensures StrictlySorted(xs + ys)
  {
    var zs := xs + ys;
    forall a, b | 0 <= a < b < |zs|
      ensures LexLess(zs[a], zs[b])
    {
      if b < |xs| {
        assert LexLess(xs[a], xs[b]);
      } else if a < |xs| {
        assert LexLess(xs[a], ys[b - |xs|]);
      } else {
        assert LexLess(ys[a - |xs|], ys[b - |xs|]);
      }
    }
  }

  // ---------------------------------------------------------------------
  // Preorder enumeration of positions

  /** Every path of `ps`, entered through child `i`. */
  function Prefixed(i: nat, ps: seq<Path>): seq<Path> {
    seq(|ps|, k requires 0 <= k < |ps| => [i] + ps[k])
  }

  lemma PrefixedValid(e: Element, i: nat, ps: seq<Path>)
    requires i < |e.children|
    requires forall k :: 0 <= k < |ps| ==> ValidPath(e.children[i], ps[k])
    ensures forall k :: 0 <= k < |ps| ==> ValidPath(e, Prefixed(i, ps)[k])
  {
    forall k | 0 <= k < |ps|
      ensures ValidPath(e, Prefixed(i, ps)[k])
    {
      StepIn(e, i, ps[k]);
    }
  }

  lemma PrefixedSorted(i: nat, ps: seq<Path>)
    requires StrictlySorted(ps)
    ensures StrictlySorted(Prefixed(i, ps))
  {
    forall a, b | 0 <= a < b < |ps|
      ensures LexLess(Prefixed(i, ps)[a], Prefixed(i, ps)[b])
    {
      LexLessStepIn(i, ps[a], ps[b]);
    }
  }

  /** The positions of `e`'s subtree in preorder: `e` itself first. */
  function Positions(e: Element): seq<Path>
    decreases e, |e.children| + 1
  {
    [[]] + ChildPositions(e, 0)
  }

  /** The positions of the subtrees of `e`'s children `i`, `i + 1`, ... in
      preorder. */
  function ChildPositions(e: Element, i: nat): seq<Path>
    requires i <= |e.children|
    decreases e, |e.children| - i
  {
    if i == |e.children| then []
    else Prefixed(i, Positions(e.children[i])) + ChildPositions(e, i + 1)
  }

  /** The positions strictly below `e` in preorder: what ElementTree's
      `.//` step visits from context `e`. */
  function Descendants(e: Element): seq<Path> {
    ChildPositions(e, 0)
  }

  /** Every enumerated position is a valid path; `e` itself comes first. */
  lemma {:induction false} PositionsValid(e: Element)
    ensures |Positions(e)| > 0 && Positions(e)[0] == []
    ensures forall k :: 0 <= k < |Positions(e)| ==> ValidPath(e, Positions(e)[k])
    decreases e, |e.children| + 1
  {
    ChildPositionsValid(e, 0);
  }

  /** The positions enumerated from child `i` on lie strictly below `e`,
      under child `i` or a later one. */
  lemma {:induction false} ChildPositionsValid(e: Element, i: nat)
    requires i <= |e.children|
    ensures forall k :: 0 <= k < |ChildPositions(e, i)| ==>
      var q := ChildPositions(e, i)[k];
      |q| > 0 && i <= q[0] && ValidPath(e, q)
    decreases e, |e.children| - i
  {
    if i < |e.children| {
      var sub := Positions(e.children[i]);
      PositionsValid(e.children[i]);
      PrefixedValid(e, i, sub);
      ChildPositionsValid(e, i + 1);
    }
  }

  lemma {:induction false} PositionsSorted(e: Element)
    ensures StrictlySorted(Positions(e))
    decreases e, |e.children| + 1
  {
    ChildPositionsSorted(e, 0);
    ChildPositionsValid(e, 0);
    var rest := ChildPositions(e, 0);
    SortedConcat([[]], rest);
  }

  lemma {:induction false} ChildPositionsSorted(e: Element, i: nat)
    requires i <= |e.children|
    ensures StrictlySorted(ChildPositions(e, i))
    decreases e, |e.children| - i
  {
    if i < |e.children| {
      var sub := Positions(e.children[i]);
      PositionsSorted(e.children[i]);
      PrefixedSorted(i, sub);
      ChildPositionsSorted(e, i + 1);
      ChildPositionsValid(e, i + 1);
      var xs, ys := Prefixed(i, sub), ChildPositions(e, i + 1);
      forall a, b | 0 <= a < |xs| && 0 <= b < |ys|
        ensures LexLess(xs[a], ys[b])
      {
        assert xs[a][0] == i < ys[b][0];
      }
      SortedConcat(xs, ys);
    }
  }

  /** The subtree of child `j` is enumerated inside the positions of the
      children from `i` on. */
  lemma {:induction false} ChildPositionsCover(e: Element, i: nat, j: nat)
    requires i <= j < |e.children|
    ensures forall q :: q in Prefixed(j, Positions(e.children[j])) ==> q in ChildPositions(e, i)
    decreases j - i
  {
    if i < j {
      ChildPositionsCover(e, i + 1, j);
    }
  }

  /** Every valid path is enumerated. */
  lemma {:induction false} PositionsComplete(e: Element, p: Path)
    requires ValidPath(e, p)
    ensures p in Positions(e)
    decreases |p|
  {
    if |p| > 0 {
      var j, rest := p[0], p[1..];
      assert p == [j] + rest;
      StepIn(e, j, rest);
      PositionsComplete(e.children[j], rest);
      var sub := Positions(e.children[j]);
      var k :| 0 <= k < |sub| && sub[k] == rest;
      assert Prefixed(j, sub)[k] == p;
      ChildPositionsCover(e, 0, j);
      assert p in ChildPositions(e, 0);
    }
  }

  /** The proper descendants of `e` are exactly the nonempty valid paths,
      each once, in preorder. */
  lemma DescendantsExact(e: Element)
    ensures forall k :: 0 <= k < |Descendants(e)| ==> ValidPath(e, Descendants(e)[k])
    ensures forall q :: q in Descendants(e) <==> |q| > 0 && ValidPath(e, q)
    ensures StrictlySorted(Descendants(e))
  {
    ChildPositionsValid(e, 0);
    forall q | |q| > 0 && ValidPath(e, q)
      ensures q in Descendants(e)
    {
      PositionsComplete(e, q);
    }
    ChildPositionsSorted(e, 0);
  }
}

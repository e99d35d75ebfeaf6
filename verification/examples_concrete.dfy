/** What the model computes for small documents, proved by unfolding the
    definitions: the behaviours of `extract_fields` that a looser reading
    would get wrong. */
module Scenarios {
  import opened Wrappers
  import opened ElementTree
  import opened ElementPath
  import opened XmlToExcelParser

  function Leaf(tag: string, text: string): Element {
    Element(tag, Some(text), [])
  }

  function Node(tag: string, children: seq<Element>): Element {
    Element(tag, None, children)
  }

  /** A container value with its two fields as direct children. */
  function Value(name: string, ref: string): Element {
    Node(ContainerValueTag, [Leaf(ShortNameTag, name), Leaf(DefinitionRefTag, ref)])
  }

  // ---------------------------------------------------------------------
  // One container and no sub-container

  const ecuc := Value("EcuC", "/AUTOSAR/EcuC/EcucDef")
  const single := Node("AUTOSAR", [Node("CONTAINERS", [ecuc])])

  lemma SingleDescendants()
    ensures Descendants(single) == [[0], [0, 0], [0, 0, 0], [0, 0, 1]]
  {
    var cs := single.children[0];
    var pv := Prefixed(0, [[]]) + Prefixed(1, [[]]);
    assert pv[0] == [0] && pv[1] == [1];
    assert ChildPositions(ecuc, 0) == [[0], [1]];
    var pc := Prefixed(0, [[], [0], [1]]);
    assert pc[0] == [0] && pc[1] == [0, 0] && pc[2] == [0, 1];
    assert ChildPositions(cs, 0) == [[0], [0, 0], [0, 1]];
    var pr := Prefixed(0, [[], [0], [0, 0], [0, 1]]);
    assert pr[0] == [0] && pr[1] == [0, 0] && pr[2] == [0, 0, 0] && pr[3] == [0, 0, 1];
    assert Positions(cs) == [[], [0], [0, 0], [0, 1]];
    assert ChildPositions(single, 1) == [];
    assert ChildPositions(single, 0) == pr + [];
  }

  /** The descendants of `single`, in preorder, with the elements at them:
      only the first is tagged CONTAINERS, none SUB-CONTAINERS. */
  lemma SingleTags()
    ensures var d := [[0], [0, 0], [0, 0, 0], [0, 0, 1]];
      && Descendants(single) == d
      && (forall k :: 0 <= k < |d| ==> ValidPath(single, d[k]))
      && At(single, d[0]).tag == "CONTAINERS"
      && At(single, d[1]).tag == ContainerValueTag
      && At(single, d[2]).tag == ShortNameTag
      && At(single, d[3]).tag == DefinitionRefTag
      && d[1..] == [d[1], d[2], d[3]] && d[1..][1..] == [d[2], d[3]] && d[1..][1..][1..] == [d[3]]
  {
    var d := [[0], [0, 0], [0, 0, 0], [0, 0, 1]];
    SingleDescendants();
    assert At(single, d[1]) == ecuc;
    assert At(single, d[2]) == ecuc.children[0];
    assert At(single, d[3]) == ecuc.children[1];
  }

  lemma SingleContainerLists()
    ensures DescendantsTagged(single, "CONTAINERS") == [[0]]
  {
    var d := [[0], [0, 0], [0, 0, 0], [0, 0, 1]];
    SingleTags();
    assert Tagged(single, [d[3]], "CONTAINERS") == [];
    assert Tagged(single, [d[2], d[3]], "CONTAINERS") == [];
    assert Tagged(single, [d[1], d[2], d[3]], "CONTAINERS") == [];
  }

  lemma SingleSubContainerLists()
    ensures DescendantsTagged(single, "SUB-CONTAINERS") == []
  {
    var d := [[0], [0, 0], [0, 0, 0], [0, 0, 1]];
    SingleTags();
    assert Tagged(single, [d[3]], "SUB-CONTAINERS") == [];
    assert Tagged(single, [d[2], d[3]], "SUB-CONTAINERS") == [];
    assert Tagged(single, [d[1], d[2], d[3]], "SUB-CONTAINERS") == [];
  }

  lemma SingleMatches()
    ensures Matches(single, Container) == [ecuc]
  {
    SingleContainerLists();
    var cs := single.children[0];
    assert cs.children[..0] == [];
    assert TaggedIndices(cs.children, ContainerValueTag) == [0];
    assert At(single, [0]) == cs;
    var step := ChildStep(single, [0], ContainerValueTag);
    assert |step| == 1 && step[0] == [0, 0];
    assert SelectChildren(single, [[0]], ContainerValueTag) == step + [];
    assert MatchPaths(single, Container) == [[0, 0]];
  }

  lemma SingleNoSubMatches()
    ensures Matches(single, SubContainer) == []
  {
    SingleSubContainerLists();
    assert MatchPaths(single, SubContainer) == [];
  }

  lemma EcucRecord()
    ensures BuildRecord(Container, ecuc) ==
      Ok(map["Container SHORT-NAME" := Some("EcuC"),
             "Container DEFINITION-REFERENCE" := Some("/AUTOSAR/EcuC/EcucDef")])
  {
    assert Find(ecuc, ShortNameTag) == Some(ecuc.children[0]);
    assert Find(ecuc, DefinitionRefTag) == Some(ecuc.children[1]);
  }

  /** The document with one container EcuC and no sub-container yields one
      container record and an empty sub-container list. */
  lemma SingleContainer()
    ensures Extract(single) ==
      Ok(([map["Container SHORT-NAME" := Some("EcuC"),
               "Container DEFINITION-REFERENCE" := Some("/AUTOSAR/EcuC/EcucDef")]], []))
  {
    SingleMatches();
    SingleNoSubMatches();
    EcucRecord();
    assert [ecuc][..0] == [];
    var rec := BuildRecord(Container, ecuc).value;
    assert BuildRecords(Container, [ecuc][..0]) == Ok([]);
    assert BuildRecords(Container, [ecuc]) == Ok([] + [rec]);
    assert [] + [rec] == [rec];
  }

  // ---------------------------------------------------------------------
  // Nested CONTAINERS: the order is not document order

  const valueA := Element(ContainerValueTag, Some("A"), [])
  const valueB := Element(ContainerValueTag, Some("B"), [])
  const innerList := Node("CONTAINERS", [valueB])
  const outerList := Node("CONTAINERS", [innerList, valueA])
  const nested := Node("AUTOSAR", [outerList])

  lemma NestedDescendants()
    ensures Descendants(nested) == [[0], [0, 0], [0, 0, 0], [0, 1]]
  {
    var pi := Prefixed(0, [[]]);
    assert pi[0] == [0];
    assert ChildPositions(innerList, 0) == [[0]];
    assert Positions(innerList) == [[], [0]];
    var po := Prefixed(0, [[], [0]]) + Prefixed(1, [[]]);
    assert po[0] == [0] && po[1] == [0, 0] && po[2] == [1];
    assert ChildPositions(outerList, 2) == [];
    assert ChildPositions(outerList, 1) == [[1]] + [];
    assert ChildPositions(outerList, 0) == [[0], [0, 0], [1]];
    assert Positions(outerList) == [[], [0], [0, 0], [1]];
    var pr := Prefixed(0, [[], [0], [0, 0], [1]]);
    assert pr[0] == [0] && pr[1] == [0, 0] && pr[2] == [0, 0, 0] && pr[3] == [0, 1];
    assert ChildPositions(nested, 1) == [];
    assert ChildPositions(nested, 0) == pr + [];
  }

  lemma NestedParents()
    ensures DescendantsTagged(nested, "CONTAINERS") == [[0], [0, 0]]
  {
    var d := [[0], [0, 0], [0, 0, 0], [0, 1]];
    NestedDescendants();
    assert At(nested, d[0]) == outerList;
    assert At(nested, d[1]) == innerList;
    assert At(nested, d[2]) == valueB;
    assert At(nested, d[3]) == valueA;
    assert d[1..][1..][1..] == [d[3]] && d[1..][1..] == [d[2], d[3]] && d[1..] == [d[1], d[2], d[3]];
    assert Tagged(nested, [d[3]], "CONTAINERS") == [];
    assert Tagged(nested, [d[2], d[3]], "CONTAINERS") == [];
    assert Tagged(nested, [d[1], d[2], d[3]], "CONTAINERS") == [d[1]];
  }

  lemma OuterStep()
    ensures ChildStep(nested, [0], ContainerValueTag) == [[0, 1]]
  {
    var cs := outerList.children;
    assert cs[..1][..0] == [];
    assert TaggedIndices(cs[..1][..0], ContainerValueTag) == [];
    assert cs[..1][0] == innerList;
    assert TaggedIndices(cs[..1], ContainerValueTag) == [];
    assert cs[1] == valueA;
    assert TaggedIndices(cs, ContainerValueTag) == [1];
    assert At(nested, [0]) == outerList;
    var qs := ChildStep(nested, [0], ContainerValueTag);
    assert |qs| == 1 && qs[0] == [0] + [1];
    assert [0] + [1] == [0, 1];
    assert qs == [qs[0]];
  }

  lemma InnerStep()
    ensures ChildStep(nested, [0, 0], ContainerValueTag) == [[0, 0, 0]]
  {
    var cs := innerList.children;
    assert cs[..0] == [];
    assert TaggedIndices(cs, ContainerValueTag) == [0];
    assert At(nested, [0, 0]) == innerList;
    var qs := ChildStep(nested, [0, 0], ContainerValueTag);
    assert |qs| == 1 && qs[0] == [0, 0] + [0];
    assert [0, 0] + [0] == [0, 0, 0];
    assert qs == [qs[0]];
  }

  /** With CONTAINERS nested inside CONTAINERS, the matches of the outer
      list come first, although the inner list's match precedes them in
      the document. */
  lemma NestedOrder()
    ensures MatchPaths(nested, Container) == [[0, 1], [0, 0, 0]]
    ensures LexLess([0, 0, 0], [0, 1])
  {
    NestedParents();
    OuterStep();
    InnerStep();
    assert [[0], [0, 0]][1..] == [[0, 0]];
    assert SelectChildren(nested, [[0, 0]], ContainerValueTag) == [[0, 0, 0]] + [];
    assert SelectChildren(nested, [[0], [0, 0]], ContainerValueTag) == [[0, 1]] + [[0, 0, 0]];
  }

  /** The records are therefore built for A before B. */
  lemma NestedMatches()
    ensures Matches(nested, Container) == [valueA, valueB]
  {
    NestedOrder();
    assert At(nested, [0, 1]) == valueA;
    assert At(nested, [0, 0, 0]) == valueB;
  }

  // ---------------------------------------------------------------------
  // The name is searched at any depth

  const deep := Node(ContainerValueTag, [
    Node("SUB-CONTAINERS", [Value("Inner", "/Inner")]),
    Leaf(ShortNameTag, "Outer"),
    Leaf(DefinitionRefTag, "/Outer")])

  /** A container whose own SHORT-NAME follows a nested sub-container gets
      the nested sub-container's name and reference: the first match in
      preorder wins, not the first direct child. */
  lemma DeepestFirstWins()
    ensures BuildRecord(Container, deep) ==
      Ok(map["Container SHORT-NAME" := Some("Inner"), "Container DEFINITION-REFERENCE" := Some("/Inner")])
  {
    var inner := deep.children[0].children[0];
    assert FindFrom(inner, ShortNameTag, 0) == Some(Leaf(ShortNameTag, "Inner"));
    assert FindFrom(deep.children[0], ShortNameTag, 0) == Some(Leaf(ShortNameTag, "Inner"));
    assert Find(deep, ShortNameTag) == Some(Leaf(ShortNameTag, "Inner"));
    assert FindFrom(inner, DefinitionRefTag, 1) == Some(Leaf(DefinitionRefTag, "/Inner"));
    assert FindFrom(inner, DefinitionRefTag, 0) == Some(Leaf(DefinitionRefTag, "/Inner"));
    assert FindFrom(deep.children[0], DefinitionRefTag, 0) == Some(Leaf(DefinitionRefTag, "/Inner"));
    assert Find(deep, DefinitionRefTag) == Some(Leaf(DefinitionRefTag, "/Inner"));
  }

  // ---------------------------------------------------------------------
  // Missing fields and missing text

  const noRef := Node(ContainerValueTag, [Leaf(ShortNameTag, "Orphan")])

  /** A container value without DEFINITION-REF makes the lookup raise. */
  lemma MissingReference()
    ensures BuildRecord(Container, noRef) == Err(DefinitionRef)
  {
    assert FindFrom(noRef, ShortNameTag, 0) == Some(noRef.children[0]);
    assert FindFrom(noRef.children[0], DefinitionRefTag, 0) == None;
    assert FindFrom(noRef, DefinitionRefTag, 1) == None;
    assert FindFrom(noRef, DefinitionRefTag, 0) == None;
  }

  /** Its failure discards the records already built for earlier matches. */
  lemma MissingReferenceAborts()
    ensures BuildRecords(Container, [ecuc, noRef]) == Err(MissingField(Container, 1, DefinitionRef))
  {
    MissingReference();
    assert [ecuc, noRef][..1] == [ecuc];
    EcucRecord();
    assert [ecuc][..0] == [];
    assert BuildRecords(Container, [ecuc]).Ok?;
  }

  const textless := Node(ContainerValueTag, [Element(ShortNameTag, None, []), Leaf(DefinitionRefTag, "/R")])

  /** A SHORT-NAME without text is not an error: its `None` is stored. */
  lemma MissingTextPassesThrough()
    ensures BuildRecord(SubContainer, textless) ==
      Ok(map["Sub-Container SHORT-NAME" := None, "Sub-Container DEFINITION-REFERENCE" := Some("/R")])
  {
    assert FindFrom(textless, ShortNameTag, 0) == Some(textless.children[0]);
    assert FindFrom(textless.children[0], DefinitionRefTag, 0) == None;
    assert FindFrom(textless, DefinitionRefTag, 1) == Some(textless.children[1]);
    assert FindFrom(textless, DefinitionRefTag, 0) == Some(textless.children[1]);
  }
}

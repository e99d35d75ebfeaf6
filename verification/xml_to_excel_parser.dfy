/** `extract_fields` of XmlToExcel_Parser.py, from the parsed root element
    on: the container and sub-container records of an ECU configuration
    document, or the error that aborts the whole extraction. */
module XmlToExcelParser {
  import opened Wrappers
  import opened ElementTree
  import opened ElementPath

  const ContainerValueTag: string := "ECUC-CONTAINER-VALUE"
  const ShortNameTag: string := "SHORT-NAME"
  const DefinitionRefTag: string := "DEFINITION-REF"

  /** The two fields looked up below every matched element. */
  datatype Field = ShortName | DefinitionRef {

    /** The tag searched for with `find('.//tag')`. */
    function Tag(): string {
      match this
      case ShortName => ShortNameTag
      case DefinitionRef => DefinitionRefTag
    }
  }

  /** The two lists the extraction builds. */
  datatype Category = Container | SubContainer {

    /** The tag of the element whose direct children are selected. */
    function ParentTag(): string {
      match this
      case Container => "CONTAINERS"
      case SubContainer => "SUB-CONTAINERS"
    }

    /** The dictionary key of a record's name. */
    function NameKey(): string {
      match this
      case Container => "Container SHORT-NAME"
      case SubContainer => "Sub-Container SHORT-NAME"
    }

    /** The dictionary key of a record's definition reference. */
    function RefKey(): string {
      match this
      case Container => "Container DEFINITION-REFERENCE"
      case SubContainer => "Sub-Container DEFINITION-REFERENCE"
    }
  }

  /** One row: a dictionary from the category's two keys to the text of
      the element found for each (`None` when that element has no text). */
  type Record = map<string, Option<string>>

  /** The `AttributeError` raised when `find` returns `None` and `.text` is
      read from it. Python's message names neither the list, the record nor
      the field; the model keeps them so that the lemmas can say which
      lookup raised first. */
  datatype ExtractError = MissingField(category: Category, index: nat, field: Field)

  /** `find('.//tag')` for the field succeeds on `m`: some proper
      descendant of `m`, at any depth, carries the field's tag. */
  predicate Present(m: Element, f: Field) {
    |DescendantsTagged(m, f.Tag())| > 0
  }

  /** Both lookups succeed on `m`. */
  predicate HasFields(m: Element) {
    Present(m, ShortName) && Present(m, DefinitionRef)
  }

  /** The text of the first proper descendant of `m` carrying the field's
      tag, in preorder. */
  function FirstText(m: Element, f: Field): Option<string>
    requires Present(m, f)
  {
    At(m, DescendantsTagged(m, f.Tag())[0]).text
  }

  /** The record the source builds for a matched element with both fields. */
  function RecordOf(c: Category, m: Element): Record
    requires HasFields(m)
  {
    map[c.NameKey() := FirstText(m, ShortName), c.RefKey() := FirstText(m, DefinitionRef)]
  }

  /** The field whose lookup raises first: the name is read before the
      reference. */
  function FirstMissing(m: Element): Field
    requires !HasFields(m)
  {
    if Present(m, ShortName) then DefinitionRef else ShortName
  }

  /** The dictionary literal of lines 19-22 (or 25-28) evaluated for one
      matched element: the name lookup first, then the reference lookup;
      the first one that finds nothing raises. */
  function BuildRecord(c: Category, m: Element): Result<Record, Field> {
    match Find(m, ShortName.Tag())
    case None => Err(ShortName)
    case Some(name) =>
      match Find(m, DefinitionRef.Tag())
      case None => Err(DefinitionRef)
      case Some(ref) => Ok(map[c.NameKey() := name.text, c.RefKey() := ref.text])
  }

  /** One record is built exactly when both fields are present below the
      element; it then holds the texts of the first SHORT-NAME and the
      first DEFINITION-REF in preorder, under the category's two keys and
      no others. Otherwise the first missing field is reported. */
  lemma BuildRecordSpec(c: Category, m: Element)
    ensures BuildRecord(c, m).Ok? <==> HasFields(m)
    ensures BuildRecord(c, m).Ok? ==> BuildRecord(c, m).value == RecordOf(c, m)
    ensures BuildRecord(c, m).Ok? ==> BuildRecord(c, m).value.Keys == {c.NameKey(), c.RefKey()}
    ensures BuildRecord(c, m).Err? ==> BuildRecord(c, m).error == FirstMissing(m)
  {
    FindIsFirst(m, ShortName.Tag());
    FindIsFirst(m, DefinitionRef.Tag());
  }

  /** `err` reports the first element of `ms` whose record could not be
      built, with the field that was missing. */
  predicate IsFirstFailure(c: Category, ms: seq<Element>, err: ExtractError) {
    && err.category == c
    && err.index < |ms|
    && BuildRecord(c, ms[err.index]) == Err(err.field)
    && forall k :: 0 <= k < err.index ==> BuildRecord(c, ms[k]).Ok?
  }

  /** The `for` loop of lines 18-22 (or 24-28) over the matches `ms`,
      appending one record per match; the first failing lookup aborts the
      loop and discards the records built so far. */
  function BuildRecords(c: Category, ms: seq<Element>): (r: Result<seq<Record>, ExtractError>)
    ensures r.Ok? <==> forall k :: 0 <= k < |ms| ==> BuildRecord(c, ms[k]).Ok?
    ensures r.Ok? ==> |r.value| == |ms|
    ensures r.Ok? ==> forall k :: 0 <= k < |ms| ==> r.value[k] == BuildRecord(c, ms[k]).value
    ensures r.Err? ==> IsFirstFailure(c, ms, r.error)
  {
    if |ms| == 0 then Ok([])
    else
      var n := |ms| - 1;
      var front := ms[..n];
      assert forall k :: 0 <= k < n ==> front[k] == ms[k];
      match BuildRecords(c, front)
      case Err(err) => Err(err)
      case Ok(records) =>
        match BuildRecord(c, ms[n])
        case Err(field) => Err(MissingField(c, n, field))
        case Ok(rec) => Ok(records + [rec])
  }

  /** `root.findall('.//CONTAINERS/ECUC-CONTAINER-VALUE')` (or
      `SUB-CONTAINERS`): the positions of the category's matches. */
  function MatchPaths(root: Element, c: Category): seq<Path> {
    SelectPaths(root, c.ParentTag(), ContainerValueTag)
  }

  /** The matched elements themselves. */
  function Matches(root: Element, c: Category): seq<Element> {
    FindAll(root, c.ParentTag(), ContainerValueTag)
  }

  /** Lines 15-30 once the matches are known: the container loop over
      `cs`, then the sub-container loop over `ss`; the first error aborts
      both, so no partial list is returned. */
  function ExtractFrom(cs: seq<Element>, ss: seq<Element>): Result<(seq<Record>, seq<Record>), ExtractError> {
    var containers :- BuildRecords(Container, cs);
    var subContainers :- BuildRecords(SubContainer, ss);
    Ok((containers, subContainers))
  }

  /** `extract_fields` from the parsed root on: the container list and the
      sub-container list, or the first error. */
  function Extract(root: Element): Result<(seq<Record>, seq<Record>), ExtractError> {
    ExtractFrom(Matches(root, Container), Matches(root, SubContainer))
  }


  // ---------------------------------------------------------------------
  // Properties of the extraction

  /** Every element of `ms` has both fields. */
  predicate AllHaveFields(ms: seq<Element>) {
    forall k :: 0 <= k < |ms| ==> HasFields(ms[k])
  }

  /** `err` reports the first element of `ms` that lacks a field, and the
      field whose lookup raised. */
  predicate IsFirstMissing(c: Category, ms: seq<Element>, err: ExtractError) {
    && err.category == c
    && err.index < |ms|
    && !HasFields(ms[err.index])
    && err.field == FirstMissing(ms[err.index])
    && forall k :: 0 <= k < err.index ==> HasFields(ms[k])
  }

  /** One loop over the matches `ms`: it succeeds exactly when every match
      has both fields, with one record per match in match order; otherwise
      it reports the first match that lacks a field. */
  lemma BuildRecordsSpec(c: Category, ms: seq<Element>)
    ensures BuildRecords(c, ms).Ok? <==> AllHaveFields(ms)
    ensures BuildRecords(c, ms).Ok? ==>
      forall k :: 0 <= k < |ms| ==> HasFields(ms[k]) && BuildRecords(c, ms).value[k] == RecordOf(c, ms[k])
    ensures BuildRecords(c, ms).Err? ==> IsFirstMissing(c, ms, BuildRecords(c, ms).error)
  {
    forall k | 0 <= k < |ms| {
      BuildRecordSpec(c, ms[k]);
    }
  }

  /** Atomic failure: the two loops return their lists exactly when every
      container match and every sub-container match has both fields;
      otherwise neither list is returned. */
  lemma ExtractFromSucceedsIff(cs: seq<Element>, ss: seq<Element>)
    ensures ExtractFrom(cs, ss).Ok? <==> AllHaveFields(cs) && AllHaveFields(ss)
  {
    BuildRecordsSpec(Container, cs);
    BuildRecordsSpec(SubContainer, ss);
  }

  /** On success each list has one record per match, in match order, each
      built from its own match. */
  lemma ExtractFromRecords(cs: seq<Element>, ss: seq<Element>)
    requires ExtractFrom(cs, ss).Ok?
    ensures var (containers, subContainers) := ExtractFrom(cs, ss).value;
      && |containers| == |cs|
      && (forall k :: 0 <= k < |cs| ==> HasFields(cs[k]) && containers[k] == RecordOf(Container, cs[k]))
      && |subContainers| == |ss|
      && (forall k :: 0 <= k < |ss| ==> HasFields(ss[k]) && subContainers[k] == RecordOf(SubContainer, ss[k]))
  {
    BuildRecordsSpec(Container, cs);
    BuildRecordsSpec(SubContainer, ss);
  }

  /** A failure names the first container match that lacks a field or,
      when every container match is complete, the first such sub-container
      match; and the field whose lookup raised. */
  lemma ExtractFromErrorIsFirst(cs: seq<Element>, ss: seq<Element>)
    requires ExtractFrom(cs, ss).Err?
    ensures var err := ExtractFrom(cs, ss).error;
      || (err.category == Container && IsFirstMissing(Container, cs, err))
      || (err.category == SubContainer && AllHaveFields(cs) && IsFirstMissing(SubContainer, ss, err))
  {
    BuildRecordsSpec(Container, cs);
    BuildRecordsSpec(SubContainer, ss);
  }

  /** The document-level form: `extract_fields` succeeds exactly when every
      element matched in either category has both fields. */
  lemma ExtractSucceedsIff(root: Element)
    ensures Extract(root).Ok? <==> AllHaveFields(Matches(root, Container)) && AllHaveFields(Matches(root, SubContainer))
  {
    ExtractFromSucceedsIff(Matches(root, Container), Matches(root, SubContainer));
  }

  /** Record `k` of a category carries the texts of the first SHORT-NAME
      and DEFINITION-REF found at any depth below the `k`-th match, under
      the category's two keys only. */
  lemma ExtractRecordFields(root: Element, c: Category, k: nat)
    requires Extract(root).Ok?
    requires k < |MatchPaths(root, c)|
    ensures var records := if c == Container then Extract(root).value.0 else Extract(root).value.1;
      var m := At(root, MatchPaths(root, c)[k]);
      && k < |records|
      && HasFields(m)
      && records[k].Keys == {c.NameKey(), c.RefKey()}
      && records[k][c.NameKey()] == FirstText(m, ShortName)
      && records[k][c.RefKey()] == FirstText(m, DefinitionRef)
  {
    ExtractFromRecords(Matches(root, Container), Matches(root, SubContainer));
    var m := Matches(root, c)[k];
    assert RecordOf(c, m).Keys == {c.NameKey(), c.RefKey()};
  }

  /** A category with no match contributes an empty list and can not make
      the extraction fail. */
  lemma EmptyCategory(cs: seq<Element>, ss: seq<Element>)
    ensures |cs| == 0 && ExtractFrom(cs, ss).Ok? ==> ExtractFrom(cs, ss).value.0 == []
    ensures |ss| == 0 && ExtractFrom(cs, ss).Ok? ==> ExtractFrom(cs, ss).value.1 == []
    ensures |ss| == 0 && ExtractFrom(cs, ss).Err? ==> ExtractFrom(cs, ss).error.category == Container
    ensures |cs| == 0 && ExtractFrom(cs, ss).Err? ==> ExtractFrom(cs, ss).error.category == SubContainer
  {
  }

  /** A document without any match is not an error: both lists are empty. */
  lemma NoMatchesNoRecords(root: Element)
    requires |Matches(root, Container)| == 0 && |Matches(root, SubContainer)| == 0
    ensures Extract(root) == Ok(([], []))
  {
  }

  /** A match is an ECUC-CONTAINER-VALUE element whose parent is tagged
      with the category's tag and lies strictly below the root; deeper
      ECUC-CONTAINER-VALUE elements under such a parent are not matched. */
  lemma MatchesExact(root: Element, c: Category)
    ensures forall q :: q in MatchPaths(root, c) <==> Selected(root, c.ParentTag(), ContainerValueTag, q)
  {
    SelectPathsExact(root, c.ParentTag(), ContainerValueTag);
  }

  /** The root is never the parent of a match, whatever its tag: its own
      children are not selected. */
  lemma RootExcluded(root: Element, c: Category)
    ensures forall j: nat :: [j] !in MatchPaths(root, c)
  {
    MatchesExact(root, c);
  }

  /** Matches come grouped by parent element in preorder, then in child
      order, each once. */
  lemma MatchesOrdered(root: Element, c: Category)
    ensures ParentThenChildOrder(MatchPaths(root, c))
    ensures forall a, b :: 0 <= a < b < |MatchPaths(root, c)| ==>
      MatchPaths(root, c)[a] != MatchPaths(root, c)[b]
  {
    SelectPathsOrdered(root, c.ParentTag(), ContainerValueTag);
  }

  /** Each element has one parent, so no element is matched in both
      categories. */
  lemma CategoriesDisjoint(root: Element)
    ensures forall q :: !(q in MatchPaths(root, Container) && q in MatchPaths(root, SubContainer))
  {
    MatchesExact(root, Container);
    MatchesExact(root, SubContainer);
  }

  // ---------------------------------------------------------------------
  // The loops as written

  /** Once a prefix of the matches fails, the whole loop fails the same
      way: later matches are never looked at. */
  lemma BuildRecordsPrefixErr(c: Category, ms: seq<Element>, n: nat)
    requires n <= |ms|
    requires BuildRecords(c, ms[..n]).Err?
    ensures BuildRecords(c, ms) == BuildRecords(c, ms[..n])
  {
    var err := BuildRecords(c, ms[..n]).error;
    assert ms[..n][err.index] == ms[err.index];
  }

  /** One `for ... append` loop of lines 18-22 (or 24-28): the records are
      appended one by one, and the first failing lookup returns at once. */
  method AppendRecords(c: Category, ms: seq<Element>) returns (r: Result<seq<Record>, ExtractError>)
    ensures r == BuildRecords(c, ms)
  {
    var records := [];
    var i := 0;
    while i < |ms|
      invariant 0 <= i <= |ms|
      invariant BuildRecords(c, ms[..i]) == Ok(records)
    {
      assert ms[..i + 1][..i] == ms[..i];
      var rec := BuildRecord(c, ms[i]);
      if rec.Err? {
        assert BuildRecords(c, ms[..i + 1]) == Err(MissingField(c, i, rec.error));
        BuildRecordsPrefixErr(c, ms, i + 1);
        return Err(MissingField(c, i, rec.error));
      }
      records := records + [rec.value];
      i := i + 1;
    }
    assert ms[..i] == ms;
    return Ok(records);
  }

  /** `extract_fields` as written, lines 15-30, run over the parsed root:
      the container loop, then the sub-container loop. It only reads the
      tree, so every run returns `Extract(root)`. */
  method ExtractFields(root: Element) returns (r: Result<(seq<Record>, seq<Record>), ExtractError>)
    ensures r == Extract(root)
  {
    var containers := AppendRecords(Container, Matches(root, Container));
    if containers.Err? {
      return Err(containers.error);
    }
    var subContainers := AppendRecords(SubContainer, Matches(root, SubContainer));
    if subContainers.Err? {
      return Err(subContainers.error);
    }
    return Ok((containers.value, subContainers.value));
  }
}

# XML_Excel_Parser: the field extraction, in Dafny

`XmlToExcel_Parser.py` reads an ECU configuration document (AUTOSAR ECUC
XML) and writes two spreadsheet sheets, "Containers" and "Sub-Containers".
All of its logic is in `extract_fields`. The function:

- walks the parsed tree;
- selects every `ECUC-CONTAINER-VALUE` element whose parent is a
  `CONTAINERS` element other than the root, and separately every one
  whose parent is a `SUB-CONTAINERS` element other than the root;
- for each selected element, reads the text of the first `SHORT-NAME` and
  the first `DEFINITION-REF` found below it, at any depth;
- stores the two texts in a dictionary with fixed keys;
- raises if either lookup finds nothing.

This project models that function from the parsed root element on, and
proves what it computes.

Files:

- `wrappers.dfy` holds `Option` (Python's `None`) and `Result` (a value or
  the exception that aborts the run).
- `element_tree.dfy` holds the immutable element tree (tag, optional text,
  ordered children) and paths. A path is the list of child indices leading
  to an element, so every element has its own identity even when two
  subtrees are equal. It also defines document order (preorder) on paths,
  as lexicographic order with a proper prefix first. It enumerates all
  positions in preorder and proves the enumeration sound, complete and
  strictly sorted.
- `element_path.dfy` models the two ElementTree path queries the source
  uses, following the behaviour of Python's `xml.etree.ElementPath`:
  - `find('.//T')` returns the first proper descendant tagged `T` in
    preorder. It is written as a direct depth-first search, and proved to
    equal the head of the preorder list of tagged descendants.
  - `findall('.//P/C')` takes every proper descendant tagged `P`, in
    preorder. For each one in turn it lists that element's direct children
    tagged `C`, in child order. Nothing is sorted or de-duplicated after
    that.
- `xml_to_excel_parser.dfy` models `extract_fields` itself:
  - the record built for one match;
  - the loop over the matches, where the first failed lookup aborts it;
  - the two loops in sequence;
  - the loops written as methods that match the source's `for ... append`
    shape.
- `examples_concrete.dfy` states what the model computes for small
  documents, proved by unfolding the definitions:
  - the one-container EcuC example;
  - nested `CONTAINERS` lists;
  - a name picked up from a nested sub-container;
  - a missing `DEFINITION-REF`;
  - a `SHORT-NAME` without text.

The model follows the code where a looser reading of it would differ:

- **Selection.** `.//CONTAINERS/ECUC-CONTAINER-VALUE` selects only
  *direct children* of a `CONTAINERS` element that is itself strictly
  below the root. A value nested deeper under a `CONTAINERS` ancestor is
  not selected in that category (`MatchesExact`, `RootExcluded`).
- **Order.** Matches come grouped by their parent, with parents in
  preorder, and by child position inside a group. This is not always
  document order: the values of a `CONTAINERS` list nested inside another
  come after all of the outer list's own values, including outer values
  that follow them in the document (`MatchesOrdered`,
  `Scenarios.NestedOrder`).
- **Name and reference.** They are the first `SHORT-NAME` and
  `DEFINITION-REF` in preorder anywhere below the match. That includes
  ones inside a nested sub-container that precedes the match's own fields
  (`Scenarios.DeepestFirstWins`).
- **Text.** The text is passed through as it is. An element with no text
  yields `None` in the record and is not an error
  (`Scenarios.MissingTextPassesThrough`).
- **Errors.** The error is Python's `AttributeError` from reading `.text`
  off `None`, and it does not say which record failed. The model's
  `MissingField(category, index, field)` keeps that information so that
  the lemmas can state which lookup raised first; Python's message does
  not carry it.

## Model

| member | source | states |
|---|---|---|
| ElementTree.DescendantsExact | XmlToExcel_Parser.py:18 | The elements a `.//` step visits are exactly the proper descendants of the context element, each once, in document order. |
| ElementPath.DescendantsTaggedExact | XmlToExcel_Parser.py:18 | The `.//P` step yields exactly the proper descendants tagged `P`, each once and in document order; the context element is never included. |
| ElementPath.FirstTaggedIsLeast | XmlToExcel_Parser.py:20-21 | The first tagged descendant precedes every other tagged descendant in document order. |
| ElementPath.FindFromIsFirst | XmlToExcel_Parser.py:20-21 | The depth-first search from child `i` on returns the first tagged element of those subtrees in document order, or `None` when there is none. |
| ElementPath.FindIsFirst | XmlToExcel_Parser.py:20-21 | `find('.//T')` returns `None` exactly when no proper descendant is tagged `T`; otherwise it returns the first one in document order. |
| ElementPath.ChildStepExact | XmlToExcel_Parser.py:18 | The `/C` step from one element yields exactly its direct children tagged `C`, in child order. |
| ElementPath.SelectChildrenSound | XmlToExcel_Parser.py:18 | Every element the `/C` step selects from a list of context elements is a child tagged `C` of one of them. |
| ElementPath.SelectChildrenComplete | XmlToExcel_Parser.py:18 | Every child tagged `C` of any context element is selected. |
| ElementPath.SelectPathsSound | XmlToExcel_Parser.py:18 | Everything `findall('.//P/C')` returns is tagged `C`, and its parent is tagged `P` and lies strictly below the context element. |
| ElementPath.SelectPathsComplete | XmlToExcel_Parser.py:18 | Every element tagged `C` whose parent is tagged `P` and lies strictly below the context element is returned. |
| ElementPath.SelectPathsExact | XmlToExcel_Parser.py:18 | Both directions: membership in `findall('.//P/C')` holds if and only if the element is such a child. |
| ElementPath.SelectChildrenOrdered | XmlToExcel_Parser.py:18 | With the context elements in document order, the selection comes grouped by context element in that order, then by child index. |
| ElementPath.SelectPathsOrdered | XmlToExcel_Parser.py:18 | `findall('.//P/C')` is grouped by `P` element in document order, then by child index, and lists no element twice. |
| XmlToExcelParser.BuildRecordSpec | XmlToExcel_Parser.py:19-22 | A record is built exactly when both a `SHORT-NAME` and a `DEFINITION-REF` lie below the match. The record holds their first texts under the category's two keys and no other key. Otherwise the name lookup, which comes first, is the one that fails when both are missing. |
| XmlToExcelParser.BuildRecords | XmlToExcel_Parser.py:18-22 | The loop succeeds exactly when every match's record can be built, with one record per match in match order. A failure names the first match whose record could not be built, with all earlier ones buildable. |
| XmlToExcelParser.BuildRecordsSpec | XmlToExcel_Parser.py:18-22 | The same loop in terms of the document: it succeeds if and only if every match has both fields, and record `k` holds match `k`'s first texts. A failure reports the first match lacking a field and which field. |
| XmlToExcelParser.ExtractFromSucceedsIff | XmlToExcel_Parser.py:15-33 | Atomic failure: the two loops return their lists if and only if every container match and every sub-container match has both fields. Otherwise neither list is returned. |
| XmlToExcelParser.ExtractFromRecords | XmlToExcel_Parser.py:15-30 | On success each list has one record per match of its category, in match order, each built from its own match. |
| XmlToExcelParser.ExtractFromErrorIsFirst | XmlToExcel_Parser.py:18-33 | A failure names the first container match lacking a field. When all containers are complete, it names the first such sub-container match instead. It also names the field whose lookup raised. |
| XmlToExcelParser.ExtractSucceedsIff | XmlToExcel_Parser.py:11-33 | For a whole document: `extract_fields` succeeds if and only if every element matched in either category has both fields. |
| XmlToExcelParser.ExtractRecordFields | XmlToExcel_Parser.py:18-28 | On success record `k` of a category has exactly the two fixed keys, holding the first `SHORT-NAME` and `DEFINITION-REF` texts below the `k`-th match. |
| XmlToExcelParser.EmptyCategory | XmlToExcel_Parser.py:15-30 | A category without matches yields an empty list, and any failure then comes from the other category. |
| XmlToExcelParser.NoMatchesNoRecords | XmlToExcel_Parser.py:15-30 | A document without any match yields two empty lists, not an error. |
| XmlToExcelParser.MatchesExact | XmlToExcel_Parser.py:18-24 | A match is exactly an `ECUC-CONTAINER-VALUE` element whose parent carries the category's list tag and is not the root. |
| XmlToExcelParser.RootExcluded | XmlToExcel_Parser.py:18-24 | No child of the root is ever matched, whatever the root's tag. |
| XmlToExcelParser.MatchesOrdered | XmlToExcel_Parser.py:18-24 | Matches come grouped by parent list in document order, then in child order, each once. |
| XmlToExcelParser.CategoriesDisjoint | XmlToExcel_Parser.py:18-24 | No element is matched both as a container and as a sub-container. |
| XmlToExcelParser.BuildRecordsPrefixErr | XmlToExcel_Parser.py:18-22 | Once the records for a prefix of the matches fail, the whole loop fails with the same error: later matches are never examined. |
| XmlToExcelParser.AppendRecords | XmlToExcel_Parser.py:18-22 | The `for ... append` loop, which returns at the first failing lookup, computes exactly the records, or the error, that the loop model gives. |
| XmlToExcelParser.ExtractFields | XmlToExcel_Parser.py:15-33 | `extract_fields` as written: the container loop, then the sub-container loop, re-raising the first error. The result depends only on the tree, so repeated runs agree. |
| Scenarios.SingleContainer | XmlToExcel_Parser.py:15-30 | One container (EcuC, `/AUTOSAR/EcuC/EcucDef`) and no sub-container give one container record with those texts and an empty sub-container list. |
| Scenarios.NestedOrder | XmlToExcel_Parser.py:18 | With a `CONTAINERS` list nested in another, the outer list's value is matched before the inner list's, although the inner one comes first in the document. |
| Scenarios.NestedMatches | XmlToExcel_Parser.py:18 | The matched elements of that document, in that order. |
| Scenarios.DeepestFirstWins | XmlToExcel_Parser.py:20-21 | A container whose own `SHORT-NAME` follows a nested sub-container takes the nested sub-container's name and reference. |
| Scenarios.MissingReference | XmlToExcel_Parser.py:21 | A container value without `DEFINITION-REF` fails at the reference lookup. |
| Scenarios.MissingReferenceAborts | XmlToExcel_Parser.py:18-22 | That failure, at match 1, discards the record already built for match 0. |
| Scenarios.MissingTextPassesThrough | XmlToExcel_Parser.py:26-27 | A `SHORT-NAME` without text is stored as `None`; it is not an error. |

## Left out

- Parsing (`ET.parse` and `getroot`, lines 13-14) is not modelled. The model starts at an already-parsed root, so malformed input and its parse error are outside it. So is how a parser spells namespaced tags, which the source compares as plain strings, as the model does.
- Attributes, tail text, comments and processing instructions are not modelled: the extraction never reads them.
- `save_to_excel` (lines 35-45) is not modelled: DataFrame construction and spreadsheet writing are foreign library calls. No claim is made about the sheets' headers, in particular for an empty list.
- `main_gui` and the command-line entry point are not modelled. They are file dialogs, argument handling and message boxes.
- Logging is not modelled: the configuration on line 9 and the error log before the re-raise on lines 31-33. Only the re-raise is kept, as the propagated `Err`.
- Record: the key order of the source's dictionaries is not modelled. Python keeps insertion order, so the `SHORT-NAME` key precedes the `DEFINITION-REFERENCE` key, and the spreadsheet writer takes its column order from that. A Dafny `map` has no key order; the model states only which keys a record has and what each holds.
- The exception type and message are not modelled. The source raises `AttributeError` with Python's generic message. The model's `MissingField` carries the category, the match index and the field for its lemmas.
- Element text is any `Option<string>`. Character-level properties of XML text (entities, whitespace, encodings) belong to the parser and are not modelled.

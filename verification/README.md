# Models of libxml2 2.9.4-rc2

Seven pieces of the bundled libxml2 with the most intricate state are modelled here in Dafny, and
their main properties are proved. `dafny verify dfyconfig.toml` checks the whole project.

| area | source | files |
|---|---|---|
| XML canonicalizer | `c14n.c` | `C14n*.dfy`, `Ordering.dfy` |
| HTML escaping and attribute reader | `HTMLparser.c` | `HtmlEntities.dfy`, `HtmlCodec.dfy`, `HtmlReading.dfy`, `HtmlMachine.dfy` |
| HTML open-element stack | `HTMLparser.c` | `HtmlStack.dfy`, `HtmlStackSafety.dfy`, `HtmlContent.dfy`, `HtmlTrees.dfy`, `HtmlTables.dfy`, `HtmlParser.dfy` |
| XML catalog resolver | `catalog.c` | `CatalogNames.dfy`, `CatalogSpec.dfy`, `Catalog.dfy`, `CatalogSafety.dfy`, `CatalogReference.dfy` |
| growable buffer | `buf.c` | `Buf.dfy` |
| text coalescing of the tree builder | `SAX2.c` | `Sax2Text.dfy` |
| pointer-only tree walk | `debugXML.c` | `ShellDu.dfy` |

Each area has the same two layers. Functions on values say what the code computes, with the same
branches, order and constants as the source. Code that changes state step by step is a class or a
method with loops, whose contracts equate what it does with those functions: `Canonicalizer`,
`Parser`, `AttributeReader`, `Resolver`, `XmlBuf`, `Context`, and the methods `Execute`,
`EncodeEntities`, `NormalizeString`, `UnWrapURN`, `Du`. The theorems are then about the functions,
hence about every document, input, catalog graph, series of events or state the code can reach. What
a function computes is also said a second time, by a rule, a grammar or a reader that does not call
it: dictionary order for the comparison of strings, the characters that are escaped and how, a
grammar of attribute values, the tree a document was written from, the section of the standard.

**Canonicalizer.** A document is a tree of elements with namespace declarations and attributes;
visibility is a flag on every node and a set of hidden prefixes on every element. The output is a
list of tokens, printed by `Print`. `C14nNamespaces` reads that list with an independent
namespace-aware reader; `C14nText`, `C14nTextDocument` and `C14nTextSource` read the printed text
itself. `C14nRecommendation` restates the declarations of Canonical XML 1.0 (section 2.3), `C14nRules`
its attributes (section 2.4) and the line feeds around comments and processing instructions, and
`C14nExclusive` section 3 of Exclusive XML Canonicalization 1.0, all without a stack and without the
state of the walk; `C14nConformance` and `C14nExclusive` compare whole documents with these rules. The
conditions on exclusive mode are restated on the source alone in `C14nExclusiveSource`. Six results are about
where the code departs from what it is for, each with its exact condition and a concrete input:

- When an omitted prefix leaves a rendered default namespace further out, an extra `xmlns=""` is
  written, because the search for it ignores the window of the nearest output ancestor
  (`DeclarationsIff`, `SuperfluousUndeclaration`).
- A visible element under an omitted parent gets back an xml: attribute it hides, because only the
  shown attributes are searched before one is imported (`ReturnedIff`, `LanguageReturns`).
- Inside an omitted document element, and after one that shows no element, comments and processing
  instructions get the line feeds of another place, because the position changes with the first
  shown element only (`LeafCompared`, `InstructionInside`, `InstructionAfter`).
- In exclusive mode an attribute that is shown although its element is omitted marks its namespace
  as rendered without rendering it (`ConformsIff`, `NamesKeptIff`,
  `OrphanAttributeLosesDeclaration`).
- In exclusive mode the namespace node of a shown attribute is written although it is hidden, and
  again for the next such attribute (`HiddenWritten`, `HiddenKeptIff`, `DeclaredTwice`).
  `UndeclaredIff` says when `xmlns=""` is written there, which a hidden attribute can bring about,
  and `OmittedElementIs` what omitted elements write, which have no start tag to write it in.
- Namespace URIs are written by a function that escapes double quotes only, and comments and
  processing instructions by one that writes references, so the text says what its tokens say
  exactly when no URI has a character with a meaning in a value and no comment or instruction a
  carriage return (`QuotedReadsIff`, `CanonicalTextReadsIff`, `QuotedLoses`, `CommentEscapeLoses`).

The first three together are the exact condition of `FollowsRecommendationIff`. Canonicalizing the
canonical form changes nothing unless a declaration repeats what is in force, and `StableIff` says
on the source when one does (`DeclaredAgain` is such a document).

**HTML codec.** The entity table is a parameter. The round trip needs names that are distinct and
look like names; the lookup by value also needs ascending values to be complete. Encoding takes the
room that is left as a parameter, which is what restarting is about. `HtmlReading` gives a grammar of
attribute values, with a meaning for every piece of one, and shows that the reader reads every value
of the grammar as what it means; and it says of any bytes what each of the two decoders makes of
them.

**HTML stack.** The lexer is abstracted to pieces of input, each with what the parser sees of it: the
name read ahead, the name the tag is parsed with, how the tag ends. Every piece consumes input, and
any series of pieces is allowed. The state records the calls made to the tree builder. Both
stacks have the same height only as long as the depth limit of nodePush is not hit, or when nothing
is open: `SameStacksIff` is the exact condition, `StacksDiffer` an input where it fails. The content loop
keeps a note of the current element and looks at a piece more than once; `LoopHandlesAll` says that
all this comes to handling the pieces one by one, and `TreeParses` that a balanced document is read
as its tree. The note goes wrong in one case: a start tag that closes a style or script together
with everything around it, which takes a document without implied tags, leaves the loop convinced
that it is still inside (`StyleSwallowsDocument`).

**Catalog.** The file system is a fixed finite map from URL to entries, and every file has its depth
counter. `CatalogSpec` is the ordered search, `Resolver` the one-pass loops. Termination holds on
cyclic graphs; the outer measure is the sum of what the counters leave to the limit. `CatalogSafety`
says when the counters are restored (`CountersRestored`), which file graphs lose a file for good by
one lookup that misses (`MissDisablesFile`) and with it every catalog that comes after it in the list
(`LimitHidesRest`), and when the cut of a delegation lasts (`CutLastsIff`).
Cycles made of both kinds of reference can do either: `RoundRestores` and `DetourLeaks` are one of
each kind. `CatalogReference` says what a match answers, and restates section 7.1 of OASIS XML Catalogs
as a search that has no state at all; where no chain of references comes back, and the delegates can
be fetched, the resolver answers the same (`ResolvesByReference`).

**Buffer.** The content is an offset into a backing array. The contracts speak of `Contents()`, a
sequence of bytes. Three facts of the code that callers have to know are part of the contracts: a
buffer grown from no content has an undefined byte after it; xmlBufAddLen reports -1 and still
counts the bytes when they fill the last cell; switching to the I/O scheme reports -1 and succeeds.

**Text coalescing.** Text nodes have content inline, in the dictionary or in memory of their own. The
invariant says that `nodelen` and `nodemem` describe the open text whenever they are used, that only
interned content is shared, and that the dictionary never changes. `Build` drives the object through
any run of calls and ties it to the events before the first that makes a text too long. `ForestRun`
says what children any nested content gives its element.

**Tree walk.** Nodes are heap objects with the three pointers. The tree they describe is a ghost
value, and that it is unique and meets no node twice is proved, not assumed. `PreorderIs` says the
order of the visits by comparing places in the tree.

## Model

| member | source | states |
|---|---|---|
| Ordering.InsertPlace | dep/libxml2-2.9.4-rc2/list.c:273-294 | for any order: the new element goes in front of the first one that is not below it |
| Ordering.InsertAllSorted | dep/libxml2-2.9.4-rc2/list.c:273-294 | inserting distinct elements one by one into an empty list gives an ordered list with exactly those elements, for every strict total order |
| Ordering.SortedUnique | dep/libxml2-2.9.4-rc2/list.c:273-294 | two ordered lists with the same elements are the same list, so the order of insertion does not show |
| Ordering.StrLessIff | dep/libxml2-2.9.4-rc2/xmlstring.c:132-143 | the comparison is the order of dictionaries: one string is below another if and only if they agree up to a place where the one ends or has the lower character |
| C14nTree.AxisMembers | dep/libxml2-2.9.4-rc2/tree.c:5998-6071 | the namespace axis holds, with distinct prefixes, exactly the shown declarations that the upward search finds first for their prefix |
| C14nTree.SearchStep | dep/libxml2-2.9.4-rc2/tree.c:5998-6071 | searching from an element finds its own declaration of the prefix if it has one, and otherwise what its parent finds |
| C14nSpec.AcceptedIff | dep/libxml2-2.9.4-rc2/c14n.c:1524-1703 | a document is accepted if and only if none of its nodes, however deep, is of an unexpected kind or declares a namespace URI that is neither empty nor accepted as absolute |
| C14nNamespaces.NamespacesPreserved | dep/libxml2-2.9.4-rc2/c14n.c:1416-1512 | inclusive mode, every document, every choice of visible elements and hidden namespace nodes: the tokens of the output, read by a namespace-aware reader, balance, have one start tag per visible element, and there every shown prefix is bound to its source namespace and a missing or hidden default to none |
| C14nNamespaces.ExpandedNamesPreserved | dep/libxml2-2.9.4-rc2/c14n.c:602-673 | for namespace-well-formed documents the expanded names of all elements and attributes read from the tokens of the output are those of the source |
| C14nConformance.FollowsRecommendationIff | dep/libxml2-2.9.4-rc2/c14n.c:1145-1174 | every document without repeated attributes, every choice of visible nodes, attributes and namespace nodes, compared with a rule that has neither a stack nor a state (declarations of section 2.3, attributes of section 2.4 of Canonical XML 1.0, line feeds for children of the root only): canonical form has as many tokens too many as the source has superfluous xmlns="" and returned xml: attributes, and it is what the Recommendation asks for if and only if there are none of either and no comment or processing instruction is misplaced |
| C14nConformance.FollowsRecommendation | dep/libxml2-2.9.4-rc2/c14n.c:602-673 | when namespace nodes and attributes are shown exactly with their elements and the document element is shown, canonical form is what the Recommendation asks for |
| C14nRules.AttrsCompared | dep/libxml2-2.9.4-rc2/c14n.c:1145-1202 | any element, any ancestors: the attributes written are those of section 2.4, which skips inherited xml: attributes that the element has, shown or not, and the returned ones besides; when there are none of these the two lists are equal |
| C14nRules.ReturnedIff | dep/libxml2-2.9.4-rc2/c14n.c:1187-1200 | an attribute returns if and only if a visible element with an omitted parent hides an attribute in the xml namespace that some ancestor has too |
| C14nRules.LeafCompared | dep/libxml2-2.9.4-rc2/c14n.c:1547-1613 | a comment or processing instruction is written with the line feeds its place asks for if and only if it does not stand outside every shown element, in the wrong place for what was shown before |
| C14nDepartures.InstructionInside | dep/libxml2-2.9.4-rc2/c14n.c:1547-1600 | a processing instruction shown inside an omitted document element: the line feed after it, in both modes, which the Recommendations do not have |
| C14nDepartures.InstructionAfter | dep/libxml2-2.9.4-rc2/c14n.c:1547-1600 | one after a document element of which nothing is shown: the line feed is on the wrong side |
| C14nDepartures.LanguageReturns | dep/libxml2-2.9.4-rc2/c14n.c:1187-1200 | a shown element that hides its own xml:lang under an omitted parent that has one: the language of the parent is written for it |
| C14nRecommendation.ElementDecls | dep/libxml2-2.9.4-rc2/c14n.c:602-673 | for any visibility of element and namespace nodes: the declarations of one element are those of section 2.3, preceded by one more xmlns="" exactly if the element is visible and neither it nor its nearest output ancestor shows a default namespace although an output ancestor rendered one, or is omitted and shows a node xmlns="" |
| C14nRecommendation.SamePrefixOrder | dep/libxml2-2.9.4-rc2/c14n.c:516-526 | declarations are ordered by the dictionary order of their prefixes, which is how the rule of section 2.3 has them |
| C14nRecommendation.DeclarationsIff | dep/libxml2-2.9.4-rc2/c14n.c:413-444 | every document, every visibility: canonical form has as many tokens more than with the declarations of section 2.3 as there are such superfluous xmlns="", counted on the source document, and it has those declarations if and only if there are none |
| C14nDepartures.SuperfluousUndeclaration | dep/libxml2-2.9.4-rc2/c14n.c:413-444 | three nested elements, a rendered default namespace that the two inner ones hide: the tokens written, with xmlns="" twice, and those of the Recommendation, with xmlns="" once |
| C14nExclusive.VisibleElement | dep/libxml2-2.9.4-rc2/c14n.c:707-850 | a visible element that shows the namespace nodes it uses writes, for every inclusive prefix list and whatever is on the stack, exactly those listed or visibly utilized namespaces that its first lookup does not find, in order |
| C14nExclusive.ListedMembers | dep/libxml2-2.9.4-rc2/c14n.c:741-774 | the bindings taken from the prefix list are exactly the shown namespaces in scope whose prefix is listed, or is empty where the list has "#default" or the empty string |
| C14nExclusive.ListsDefaultIff | dep/libxml2-2.9.4-rc2/c14n.c:749-756 | the list asks for the default namespace if and only if it has "#default" or the empty string |
| C14nExclusiveHidden.UndeclaredIff | dep/libxml2-2.9.4-rc2/c14n.c:816-840 | any element that uses no default namespace, any stack: xmlns="" is written if and only if the element is visible, a default namespace is rendered further out that has a URI or was hidden there, and the element has no namespace, or the list asks for the default, or a hidden attribute has a namespace with neither prefix nor URI |
| C14nExclusive.DeclaresNeededIff | dep/libxml2-2.9.4-rc2/c14n.c:452-484 | one visible element, any stack with prefixes in scope, any output so far: it declares what section 3 of Exclusive XML Canonicalization asks for if and only if the first lookup of each used namespace finds exactly those in force in the output |
| C14nExclusive.FollowsExclusiveRecommendationIff | dep/libxml2-2.9.4-rc2/c14n.c:707-850 | documents without repeated attributes that meet NodesOk (names have the namespaces of their prefixes, visible elements show the namespace nodes they use, omitted ones none that is listed; attributes of omitted elements may be shown), any prefix list: the canonical form is that of the Recommendation, its attributes and line feeds included, if and only if the lookups agree with the output at every visible element and no comment or processing instruction is misplaced |
| C14nExclusive.FollowsExclusiveRecommendation | dep/libxml2-2.9.4-rc2/c14n.c:707-850 | the same documents without shown namespaced attributes on omitted elements: only a misplaced comment or processing instruction makes the difference |
| C14nExclusiveSource.ConformsIff | dep/libxml2-2.9.4-rc2/c14n.c:452-484 | the same condition on the source alone: at every visible element exactly those used namespaces are taken as rendered, by the last use of their prefixes, shown attributes of omitted elements included, that are in force |
| C14nExclusiveSource.NamesKeptIff | dep/libxml2-2.9.4-rc2/c14n.c:796-814 | documents meeting NodesOk: the output read by a namespace-aware reader has the elements and attributes of the source in the same namespaces if and only if nowhere a name or attribute takes its namespace as rendered, by the last use of its prefix in the source, where it is not in force |
| C14nExclusiveHidden.HiddenWritten | dep/libxml2-2.9.4-rc2/c14n.c:796-814 | outside NodesOk: how often a visible element declares a prefix whose namespace node it hides, for any stack and prefix list: once for each shown attribute that uses it, less one if its name does not use it and the lookup finds it |
| C14nExclusiveHidden.HiddenKeptIff | dep/libxml2-2.9.4-rc2/c14n.c:796-814 | so nothing of the hidden namespace node is written if and only if no shown attribute uses it, or one does, the name does not and the lookup finds it |
| C14nExclusiveHidden.DeclaredTwice | dep/libxml2-2.9.4-rc2/c14n.c:796-814 | an element with two attributes of a namespace it hides declares the prefix twice, which is not XML |
| C14nExclusiveHidden.OmittedElementIs | dep/libxml2-2.9.4-rc2/c14n.c:741-840 | any omitted element, any stack, any prefix list: the listed namespaces that it shows are written where the lookup does not find them, and are not marked as rendered; those of its shown attributes are marked and not written |
| C14nExclusive.OmittedElementPushes | dep/libxml2-2.9.4-rc2/c14n.c:796-814 | an omitted element that shows no listed namespace leaves the rendered-namespaces stack alone if and only if none of its attributes is shown with a namespace |
| C14nExclusiveNames.VisibleNamesIff | dep/libxml2-2.9.4-rc2/c14n.c:452-484 | one visible element, any stack with prefixes in scope: its start tag reads back with its names if and only if no namespace of its name or attributes that the lookup takes as rendered is out of force in the output |
| C14nExclusiveNames.ExclusiveNamesIff | dep/libxml2-2.9.4-rc2/c14n.c:707-850 | documents meeting NodesOk: the tokens balance, and read by a namespace-aware reader have the elements and attributes of the source in the same namespaces if and only if nothing is taken as rendered that is not in force |
| C14nExclusiveNames.ExclusiveNamesPreserved | dep/libxml2-2.9.4-rc2/c14n.c:707-850 | which is always so when no omitted element has a shown namespaced attribute |
| C14nExclusiveNames.OrphanAttributeLosesDeclaration | dep/libxml2-2.9.4-rc2/c14n.c:796-814 | a shown attribute on an omitted element makes its visible child lose the declaration of its own prefix: a concrete document meeting NodesOk for which exclusive mode does not preserve names |
| C14nAttributes.CompareByKey | dep/libxml2-2.9.4-rc2/c14n.c:882-918 | the attribute comparison is that of the namespace names, and of the local names where these are equal; attributes without namespace come first |
| C14nAttributes.SameOrder | dep/libxml2-2.9.4-rc2/c14n.c:882-918 | on well-formed attributes it is the order of section 2.2 of Canonical XML 1.0: dictionary order of the namespace names, then of the local names, no namespace first |
| C14nAttributes.CompareRanks | dep/libxml2-2.9.4-rc2/c14n.c:882-918 | on any attributes those without namespace come first, then those whose namespace has no prefix; two of the latter in different namespaces come each before the other, so that the comparison is an order on namespace-well-formed elements only |
| C14nAttributes.AttributesTotal | dep/libxml2-2.9.4-rc2/c14n.c:882-918 | on the attributes of a namespace-well-formed element the comparison is a strict total order |
| C14nAttributes.AttrsAxisOrdered | dep/libxml2-2.9.4-rc2/c14n.c:1126-1342 | the attributes written for an element are strictly ascending in that dictionary order, imported xml: attributes included |
| C14nAttributes.ListedIff | dep/libxml2-2.9.4-rc2/c14n.c:1187-1200 | searching the ordered list finds an attribute exactly if one with the same namespace and local name is in it, so the nearest of equal xml: attributes is imported |
| C14nAttributes.AttrsAxisPermuted | dep/libxml2-2.9.4-rc2/c14n.c:1126-1342 | permuting the attributes of the element and of its ancestors does not change what is written |
| C14nCanonical.OrderDoesNotMatter | dep/libxml2-2.9.4-rc2/c14n.c:1145-1174 | two documents that differ only in the order of namespace declarations and attributes have the same canonical form, whatever is visible: every document in inclusive mode, documents meeting NodesOk in exclusive mode, orphaned attributes included |
| C14nIdempotent.CanonicalFormIsCanonical | dep/libxml2-2.9.4-rc2/c14n.c:1868-1946 | inclusive mode, every document and elementwise visibility: the tokens of the canonical form are the literal serialization of a document whose own canonical form is the same |
| C14nStable.StableIff | dep/libxml2-2.9.4-rc2/c14n.c:1868-1946 | inclusive mode, every document without repeated attributes whose omitted elements show nothing of their own: the canonical form is the literal serialization of a document, and that document has the same canonical form if and only if in the source no xmlns="" is superfluous and no element shows a namespace that is in force in the output although its nearest output ancestor does not show it |
| C14nStable.FinishedIff | dep/libxml2-2.9.4-rc2/c14n.c:602-673 | a document with everything shown and in order is its own canonical form if and only if every declaration says something new |
| C14nDepartures.DeclaredAgain | dep/libxml2-2.9.4-rc2/c14n.c:602-673 | a namespace hidden at the middle one of three elements is declared twice, without any superfluous xmlns="", and canonicalizing the canonical form drops the second declaration |
| C14nText.EscapedReads | dep/libxml2-2.9.4-rc2/c14n.c:2147-2234 | a written attribute value, read with references expanded and white space normalized, is the value |
| C14nText.QuotedReadsIff | dep/libxml2-2.9.4-rc2/buf.c:1111-1153 | a written namespace URI reads back if and only if it has no ampersand, less-than sign, tab, line feed or carriage return, whatever character references the reader knows |
| C14nText.AmpersandNotRead | dep/libxml2-2.9.4-rc2/buf.c:1111-1153 | a URI with an ampersand is written as it is and the literal is not well-formed |
| C14nText.QuotedLoses | dep/libxml2-2.9.4-rc2/buf.c:1111-1153 | two URIs that are written alike |
| C14nPrint.QuotedIs | dep/libxml2-2.9.4-rc2/buf.c:1111-1153 | single quotes around a URI exactly if it has double ones and no single ones; otherwise double quotes, and no double quote is left inside |
| C14nText.TagReadsIff | dep/libxml2-2.9.4-rc2/c14n.c:539-560 | a printed start tag with legal names, whatever follows it, reads back as its tokens if and only if the URIs it declares are plain in that sense |
| C14nText.KnownRefsOk | dep/libxml2-2.9.4-rc2/c14n.c:2147-2234 | a reader that knows just the references the canonicalizer writes is one of the readers meant |
| C14nTextDocument.TextReadsIff | dep/libxml2-2.9.4-rc2/c14n.c:934-968 | the text of any sequence of start tags, end tags, character data, comments and processing instructions reads back as these tokens if and only if the declared URIs are plain and no comment or instruction has a carriage return |
| C14nTextSource.DocumentTextReadsIff | dep/libxml2-2.9.4-rc2/c14n.c:1868-1946 | both modes, documents with legal names, comments and instructions whose omitted elements show nothing of their own: the text of the canonical form reads back as its tokens if and only if these are plain, and then whatever is read off the tokens is read off the text |
| C14nTextSource.CanonicalTextReadsIff | dep/libxml2-2.9.4-rc2/c14n.c:1868-1946 | inclusive mode: it does if and only if in the source every namespace that a visible element shows has a plain URI and no comment or instruction that is written has a carriage return; then every shown prefix means in the text what it means in the source |
| C14nTextSource.ExclusiveTextNamesIff | dep/libxml2-2.9.4-rc2/c14n.c:1868-1946 | exclusive mode, plain tokens, documents meeting NodesOk: the expanded names read from the text are those of the source if and only if the source keeps them in the sense of NamesKeptIff |
| C14nMachine.Canonicalizer.constructor | dep/libxml2-2.9.4-rc2/c14n.c:1774-1842 | the initial context |
| C14nMachine.Canonicalizer.StackAdd | dep/libxml2-2.9.4-rc2/c14n.c:314-357 | the entry is on top of the stack of rendered namespaces |
| C14nMachine.Canonicalizer.StackSave | dep/libxml2-2.9.4-rc2/c14n.c:360-369 | the three positions of the stack |
| C14nMachine.Canonicalizer.StackRestore | dep/libxml2-2.9.4-rc2/c14n.c:372-380 | the three positions are those that were saved |
| C14nMachine.Canonicalizer.StackShift | dep/libxml2-2.9.4-rc2/c14n.c:383-390 | the window becomes what the current element rendered |
| C14nMachine.Canonicalizer.StackFind | dep/libxml2-2.9.4-rc2/c14n.c:413-444 | the loop over the array finds what the topmost entry of that prefix says, in the window or, for xmlns="", in the whole stack |
| C14nMachine.Canonicalizer.StackFindExc | dep/libxml2-2.9.4-rc2/c14n.c:447-481 | the same for exclusive mode, where entries hidden with their element do not count |
| C14nMachine.Canonicalizer.ProcessNamespacesAxis | dep/libxml2-2.9.4-rc2/c14n.c:602-673 | the nested loops over declarations of the ancestors render the namespace axis: same list, same stack, same output as the specification function |
| C14nMachine.Canonicalizer.ExcProcessNamespacesAxis | dep/libxml2-2.9.4-rc2/c14n.c:707-850 | the three loops of exclusive mode render the axis that ListedMembers, VisibleElement, UndeclaredIff and HiddenWritten speak of: same list, same stack, same output |
| C14nMachine.Canonicalizer.ProcessAttrsAxis | dep/libxml2-2.9.4-rc2/c14n.c:1126-1342 | the attributes written are those of the attribute axis, in its order (modes 1.0 and exclusive) |
| C14nMachine.Canonicalizer.CheckForRelativeNamespaces | dep/libxml2-2.9.4-rc2/c14n.c:1354-1390 | fails exactly when a declaration has a relative namespace URI |
| C14nMachine.Canonicalizer.ProcessElementNode | dep/libxml2-2.9.4-rc2/c14n.c:1416-1512 | writes exactly the canonical form of the element and leaves the stack below it as it was |
| C14nMachine.Canonicalizer.ProcessNode | dep/libxml2-2.9.4-rc2/c14n.c:1524-1703 | the same for nodes of every kind, with the line breaks around the document element |
| C14nMachine.Canonicalizer.ProcessNodeList | dep/libxml2-2.9.4-rc2/c14n.c:1715-1728 | the same for a list of siblings; stops at the first node that fails |
| C14nMachine.Execute | dep/libxml2-2.9.4-rc2/c14n.c:1868-1946 | fails exactly on a document that is not accepted, and otherwise returns the text of the canonical form, which is what all results on canonical form are about |
| C14nEscape.NormalizeString | dep/libxml2-2.9.4-rc2/c14n.c:2147-2234 | the loop over the doubling buffer never writes outside it and computes the character-wise escape, zero-terminated |
| C14nEscape.EscapeAppend | dep/libxml2-2.9.4-rc2/c14n.c:2147-2234 | escaping distributes over concatenation |
| C14nEscape.EscapedAt | dep/libxml2-2.9.4-rc2/c14n.c:2147-2234 | every character of a string is written as itself or, if it is special in the mode, as the reference of section 2.3 of Canonical XML 1.0: markup by name, blanks by number in upper-case hexadecimal |
| C14nEscape.EscapeSameIff | dep/libxml2-2.9.4-rc2/c14n.c:2147-2234 | a string is written unchanged if and only if it has no special character; escaping never shortens it |
| C14nEscape.ExpandEscape | dep/libxml2-2.9.4-rc2/c14n.c:2147-2234 | in attribute and text mode, expanding the references that were written gives the original back |
| C14nEscape.EscapedAttributeIsSafe | dep/libxml2-2.9.4-rc2/c14n.c:2147-2234 | an escaped attribute value has no quote, no less-than sign and no white space that attribute normalization would change |
| C14nEscape.CommentEscapeLoses | dep/libxml2-2.9.4-rc2/c14n.c:2147-2234 | in comments and processing instructions escaping is not injective: two strings with the same output |
| HtmlCodec.ByValueFinds | dep/libxml2-2.9.4-rc2/HTMLparser.c:1956-1968 | on an ascending table the lookup with early exit finds a row if and only if one has the value |
| HtmlCodec.LookupsAgree | dep/libxml2-2.9.4-rc2/HTMLparser.c:1933-1943 | on an ascending table with distinct names, lookup by name and lookup by value find every row and are inverse to each other |
| HtmlCodec.Utf8Front | dep/libxml2-2.9.4-rc2/HTMLparser.c:2105-2133 | decoding inverts the UTF-8 encoding of every character |
| HtmlReading.FrontIs | dep/libxml2-2.9.4-rc2/HTMLparser.c:2105-2133 | for any bytes: the encoder reads a character of as many bytes as the first one asks for, with six bits from each further one, or finds the sequence cut off by the end, or malformed |
| HtmlReading.CharacterRead | dep/libxml2-2.9.4-rc2/HTMLparser.c:415-562 | the decoding of the attribute reader inverts UTF-8 |
| HtmlReading.RawReadIff | dep/libxml2-2.9.4-rc2/HTMLparser.c:415-562 | for any bytes: the reader goes on at a byte other than an ampersand if and only if the trailing bytes it asks for follow, and it is neither C0 nor above F7 |
| HtmlReading.DecodersAgree | dep/libxml2-2.9.4-rc2/HTMLparser.c:415-562 | the two decodings agree on any bytes, except that the reader takes a zero byte for a blank and goes on at a trailing byte |
| HtmlReading.XmlCharacter | dep/libxml2-2.9.4-rc2/HTMLparser.c:3336-3395 | the characters of production 2 of XML 1.0 |
| HtmlReading.NumberRead | dep/libxml2-2.9.4-rc2/HTMLparser.c:3336-3395 | digits in base ten or sixteen are read as the number they stand for, up to the first byte that is none, and a semicolon is skipped |
| HtmlReading.HexDigit | dep/libxml2-2.9.4-rc2/HTMLparser.c:3349-3357 | the sixteen digits in either case, in the order of their values |
| HtmlReading.NameAlphabet | dep/libxml2-2.9.4-rc2/HTMLparser.c:2453-2484 | the ASCII characters of names |
| HtmlReading.NameIs | dep/libxml2-2.9.4-rc2/HTMLparser.c:2453-2484 | for any bytes: the name read is the longest one of ASCII characters, or none, and is left open exactly where it runs into a byte above 7F |
| HtmlReading.GrammarRead | dep/libxml2-2.9.4-rc2/HTMLparser.c:2533-2658 | every value made of literal characters, numeric references in either base, known entities, unknown names and lone ampersands, quoted or not, is read as what its pieces mean, up to its end |
| HtmlReading.LiteralRead | dep/libxml2-2.9.4-rc2/HTMLparser.c:2533-2658 | a value in plain UTF-8 without ampersands is read as it is |
| HtmlReading.TranslationIs | dep/libxml2-2.9.4-rc2/HTMLparser.c:2140-2170 | a character is written as itself if it is ASCII and neither the quote nor "&", "<" or ">"; otherwise as the entity of the table that has its value, and as its number if and only if there is none |
| HtmlCodec.FoldDecimal | dep/libxml2-2.9.4-rc2/HTMLparser.c:3365-3379 | reading a decimal reference inverts printing it |
| HtmlCodec.ReadTranslation | dep/libxml2-2.9.4-rc2/HTMLparser.c:2533-2658 | whatever was written for one character, plain, entity or number, is read back as the UTF-8 bytes of that character |
| HtmlCodec.RoundTrip | dep/libxml2-2.9.4-rc2/HTMLparser.c:2533-2658 | for every string of XML characters, every entity table with distinct names and either quote: parsing the escaped string up to the quote returns exactly its UTF-8 bytes and stops at the quote |
| HtmlCodec.Restart | dep/libxml2-2.9.4-rc2/HTMLparser.c:2090-2170 | a call with any amount of room, followed by an unlimited call on what it did not consume, is the one-shot result, errors included |
| HtmlCodec.ConsumedIsTranslated | dep/libxml2-2.9.4-rc2/HTMLparser.c:2090-2170 | what was written is exactly the translation of the consumed bytes, and these are whole characters |
| HtmlCodec.StopsForAReason | dep/libxml2-2.9.4-rc2/HTMLparser.c:2090-2170 | a call stops only at the end, in front of malformed or incomplete bytes, or when the next translation does not fit; it reports an error exactly for malformed bytes |
| HtmlCodec.FeedIsPrefix | dep/libxml2-2.9.4-rc2/HTMLparser.c:2090-2170 | the outputs of repeated bounded calls put together are a prefix of the one-shot result |
| HtmlCodec.FeedCompletes | dep/libxml2-2.9.4-rc2/HTMLparser.c:2090-2170 | with room for eleven bytes per call the repeated calls reach the one-shot result |
| HtmlEntities.Encode | dep/libxml2-2.9.4-rc2/HTMLparser.c:2090-2170 | consumes no more than the input and writes no more than the room |
| HtmlMachine.EntityValueLookup | dep/libxml2-2.9.4-rc2/HTMLparser.c:1956-1968 | the loop over the table is the lookup by value |
| HtmlMachine.ReadSequence | dep/libxml2-2.9.4-rc2/HTMLparser.c:2105-2133 | the lead byte and the loop over the trailing bytes read the next character, or tell malformed from incomplete |
| HtmlMachine.EncodeEntities | dep/libxml2-2.9.4-rc2/HTMLparser.c:2090-2170 | the loop over the output array computes the bounded run and touches no cell after what it reports as written |
| HtmlMachine.EmitChar | dep/libxml2-2.9.4-rc2/HTMLparser.c:2641-2652 | the loop over six-bit groups appends the UTF-8 bytes of a character |
| HtmlMachine.MakeRoom | dep/libxml2-2.9.4-rc2/HTMLparser.c:1910-1920 | the buffer keeps its content and has a hundred free cells |
| HtmlMachine.AttributeReader.ParseCharRef | dep/libxml2-2.9.4-rc2/HTMLparser.c:3336-3395 | value and end of a character reference, 0 for one that is no XML character; away from one nothing is read |
| HtmlMachine.AttributeReader.ParseName | dep/libxml2-2.9.4-rc2/HTMLparser.c:2453-2484 | the longest ASCII name at the position, or none |
| HtmlMachine.AttributeReader.ParseEntityRef | dep/libxml2-2.9.4-rc2/HTMLparser.c:2673-2708 | the name, the row found for it when a semicolon follows, and the position after what was read |
| HtmlMachine.AttributeReader.EntityLookup | dep/libxml2-2.9.4-rc2/HTMLparser.c:1933-1943 | the loop over the table is the lookup by name |
| HtmlMachine.AttributeReader.CopyName | dep/libxml2-2.9.4-rc2/HTMLparser.c:2593-2604 | an unknown name is copied after a check before every byte |
| HtmlMachine.AttributeReader.ParseHTMLAttribute | dep/libxml2-2.9.4-rc2/HTMLparser.c:2533-2658 | the value that the specification function reads, zero-terminated, with every write inside the growing buffer |
| HtmlStackSafety.Reachable | dep/libxml2-2.9.4-rc2/HTMLparser.c:4493-4649 | in every state of every parse over every input: "html" is open only at index 0, "head" only at index 1, "body" at most once; with implied tags a nonempty stack starts with "html"; every reported end of element names the innermost open one; the level tells whether a head or a body was ever opened; the parser has halted exactly if more than maxDepth + 1 elements were open at once, and until then the node stack equals the name stack |
| HtmlStackSafety.SameStacksIff | dep/libxml2-2.9.4-rc2/parser.c:1755-1782 | in every reachable state the name stack and the node stack are the same if and only if never more than maxDepth + 1 elements were open at once or none is open any more, and they have the same height exactly when they are the same |
| HtmlStackSafety.StacksDiffer | dep/libxml2-2.9.4-rc2/parser.c:1755-1782 | characters at the start of a document with no depth allowed: three names on the one stack, one node on the other |
| HtmlStackSafety.PushInv | dep/libxml2-2.9.4-rc2/HTMLparser.c:167-187 | pushing where it is allowed keeps the invariant, the depth limit of nodePush included |
| HtmlStackSafety.CloseInv | dep/libxml2-2.9.4-rc2/HTMLparser.c:4442-4468 | closing an element, and popping it without an end of element, keep the invariant |
| HtmlStackSafety.StartTagInv | dep/libxml2-2.9.4-rc2/HTMLparser.c:3689-3890 | start tags keep the invariant, discarded ones included |
| HtmlStackSafety.ImpliedInv | dep/libxml2-2.9.4-rc2/HTMLparser.c:1485-1539 | implied tags keep the invariant, and with them nothing but html is pushed on an empty stack |
| HtmlStackSafety.EndTagInv | dep/libxml2-2.9.4-rc2/HTMLparser.c:3908-4004 | end tags keep the invariant |
| HtmlStackSafety.RoundInv | dep/libxml2-2.9.4-rc2/HTMLparser.c:4493-4649 | every round of the content loop keeps the invariant |
| HtmlStackSafety.ImpliedAdds | dep/libxml2-2.9.4-rc2/HTMLparser.c:1485-1539 | exactly which tags are implied: html outside everything, then head for the first tag that belongs there, or body for another tag outside both, unless a body was opened before or the tag comes with frames |
| HtmlStackSafety.ParagraphHome | dep/libxml2-2.9.4-rc2/HTMLparser.c:1553-1581 | afterwards an element is open, and with omitted tags characters are not directly in html or head |
| HtmlStackSafety.StartTagOpens | dep/libxml2-2.9.4-rc2/HTMLparser.c:3689-3890 | a start tag opens its element, or is discarded and counted exactly once: if and only if html is met inside an element, head not directly in html, or body in body |
| HtmlStackSafety.AutoCloseTruncates | dep/libxml2-2.9.4-rc2/HTMLparser.c:1401-1421 | a start tag ends the longest run of innermost elements each of which it closes, the innermost first, and nothing else |
| HtmlStackSafety.EndTagCloses | dep/libxml2-2.9.4-rc2/HTMLparser.c:3908-4004 | an end tag closes if and only if it does not make up for a discarded tag and reaches an element: the innermost of its name with nothing of higher priority inside; then the stack is cut just below that element, with an end for each element, the innermost first, and otherwise nothing changes |
| HtmlStackSafety.CloseAllEnds | dep/libxml2-2.9.4-rc2/HTMLparser.c:1375-1386 | the calls at the end of a document: an end for every open element, the innermost first |
| HtmlContent.ElementLeaves | dep/libxml2-2.9.4-rc2/HTMLparser.c:4417-4482 | any state, any start tag: what is open and what was called after it: the element stays open exactly if it ends with ">", has content and the parser goes on; a tag without ">" drops the innermost element without a call, "/>" and an element without content end it |
| HtmlContent.ParagraphIsTag | dep/libxml2-2.9.4-rc2/HTMLparser.c:1553-1581 | a paragraph is inserted like a start tag of its own, exactly outside elements and, with omitted tags, in html and head |
| HtmlContent.NamelessTag | dep/libxml2-2.9.4-rc2/HTMLparser.c:4417-4430 | a tag without a name counts as the characters it is kept as, or as nothing |
| HtmlContent.NoEmptyOpen | dep/libxml2-2.9.4-rc2/HTMLparser.c:4473-4478 | as long as html, head, body and p have content, no element without content is open in any reachable state |
| HtmlContent.LoopHandlesAll | dep/libxml2-2.9.4-rc2/HTMLparser.c:4493-4649 | the loop with its noted element and level, for any input: it ends, and the result is that of handling the pieces one after the other: close what the tag read ahead closes, then parse it, unless inside a script or style |
| HtmlTrees.TreeParses | dep/libxml2-2.9.4-rc2/HTMLparser.c:4493-4649 | a document with balanced tags whose elements close none of each other: the calls are those of the tree it was written from, inside the implied html and body |
| HtmlTrees.StuckForGood | dep/libxml2-2.9.4-rc2/HTMLparser.c:4493-4649 | once a start tag has closed a script or style and everything around it, nothing of the rest of the input is read |
| HtmlTrees.StyleSwallowsDocument | dep/libxml2-2.9.4-rc2/HTMLparser.c:4493-4649 | without implied tags, a style that a body tag closes makes the parser skip the whole rest of the document |
| HtmlStackSafety.ImpliedOnce | dep/libxml2-2.9.4-rc2/HTMLparser.c:1485-1539 | asking for the implied tags of a tag a second time adds nothing |
| HtmlStackSafety.NoSecondBody | dep/libxml2-2.9.4-rc2/HTMLparser.c:1485-1539 | once a body was seen or implied none is implied again |
| HtmlStackSafety.DiscardedTagCloses | dep/libxml2-2.9.4-rc2/HTMLparser.c:4400-4482 | a discarded start tag that ends with "/>", or without ">", closes the element it was found in |
| HtmlStackSafety.RoundDecreases | dep/libxml2-2.9.4-rc2/HTMLparser.c:4493-4649 | a round that does not end the loop consumes input, or closes elements, or brings a stale current element up to date |
| HtmlParser.InitAutoClose | dep/libxml2-2.9.4-rc2/HTMLparser.c:1230-1243 | entry k of the index is the start of group k, for the first 99 groups, and the scan stays inside the table |
| HtmlParser.CheckAutoClose | dep/libxml2-2.9.4-rc2/HTMLparser.c:1295-1321 | the loops over the index and over one group are the scan of the first 99 groups |
| HtmlParser.IndexedIff | dep/libxml2-2.9.4-rc2/HTMLparser.c:1295-1321 | a scan limited to k groups answers yes if and only if the whole scan does and the first group of the tag is among the k |
| HtmlParser.IndexedIsScan | dep/libxml2-2.9.4-rc2/HTMLparser.c:1295-1321 | for a table of at most 99 groups the indexed test equals the linear scan |
| HtmlTables.ClosingIff | dep/libxml2-2.9.4-rc2/HTMLparser.c:1295-1321 | a start tag closes an element if and only if the first group that begins with the tag names the element, and is one of the first 99 |
| HtmlTables.PriorityIs | dep/libxml2-2.9.4-rc2/HTMLparser.c:1272-1280 | the first row with the name gives its priority, and names without a row have the same one |
| HtmlParser.Parser.constructor | dep/libxml2-2.9.4-rc2/HTMLparser.c:4882-4905 | the initial state, with the index built |
| HtmlParser.Parser.NamePush | dep/libxml2-2.9.4-rc2/HTMLparser.c:167-187 | the name is on top, and the level remembers head and body |
| HtmlParser.Parser.NamePop | dep/libxml2-2.9.4-rc2/HTMLparser.c:197-213 | the top name is gone; nothing happens on an empty stack |
| HtmlParser.Parser.StartElement | dep/libxml2-2.9.4-rc2/parser.c:1755-1782 | the node is on top unless the stack is too deep; then the parser halts and its input is gone |
| HtmlParser.Parser.EndElement | dep/libxml2-2.9.4-rc2/parser.c:1793-1808 | the top node is gone |
| HtmlParser.Parser.AutoCloseFor | dep/libxml2-2.9.4-rc2/HTMLparser.c:1401-1421 | the loop closes what the specification function closes |
| HtmlParser.Parser.AutoCloseOnEnd | dep/libxml2-2.9.4-rc2/HTMLparser.c:1375-1386 | everything is closed, innermost first |
| HtmlParser.Parser.CheckImplied | dep/libxml2-2.9.4-rc2/HTMLparser.c:1485-1539 | pushes the implied html, head and body |
| HtmlParser.Parser.CheckParagraph | dep/libxml2-2.9.4-rc2/HTMLparser.c:1553-1581 | inserts a paragraph exactly outside any element or directly in html or head, and says so |
| HtmlParser.Parser.ParseStartTag | dep/libxml2-2.9.4-rc2/HTMLparser.c:3689-3890 | the new stacks, and whether the tag was discarded |
| HtmlParser.Parser.EndPriority | dep/libxml2-2.9.4-rc2/HTMLparser.c:1272-1280 | the priority of a name, the default one if it is not listed |
| HtmlParser.Parser.AutoCloseOnCloseTag | dep/libxml2-2.9.4-rc2/HTMLparser.c:1332-1366 | the scan and the closing loop: nothing when an element of higher priority is in the way |
| HtmlParser.Parser.ParseEndTag | dep/libxml2-2.9.4-rc2/HTMLparser.c:3908-4004 | the new stacks, and whether the element was closed |
| HtmlParser.Parser.ParseElement | dep/libxml2-2.9.4-rc2/HTMLparser.c:4400-4482 | the new stacks and calls after a start tag and what ends it, of which ElementLeaves says what they are |
| HtmlParser.Parser.ContentRound | dep/libxml2-2.9.4-rc2/HTMLparser.c:4493-4649 | one round of the loop: stacks, rest of the input, current element and level |
| HtmlParser.Parser.ParseContent | dep/libxml2-2.9.4-rc2/HTMLparser.c:4493-4649 | ends after finitely many rounds, with the input used up, in a state the rounds reach, which is that of LoopHandlesAll |
| HtmlParser.Parser.ParseDocument | dep/libxml2-2.9.4-rc2/HTMLparser.c:4677-4794 | the calls are those of handling the pieces of input one after the other, and of closing what is then open; at the end nothing is open and the invariant holds |
| CatalogNames.NormalizeCorrect | dep/libxml2-2.9.4-rc2/catalog.c:1033-1073 | a normalized identifier has the words of the original, and no blanks but single spaces between them |
| CatalogNames.NormalizeFixed | dep/libxml2-2.9.4-rc2/catalog.c:1033-1073 | normalizing twice is normalizing once |
| CatalogNames.IsAlreadyNormalized | dep/libxml2-2.9.4-rc2/catalog.c:1044-1054 | the first loop tells exactly whether the identifier is normalized |
| CatalogNames.NormalizePublic | dep/libxml2-2.9.4-rc2/catalog.c:1033-1073 | nothing for an identifier that is normalized already, else its normal form, inside a buffer of its length |
| CatalogNames.UnWrapURN | dep/libxml2-2.9.4-rc2/catalog.c:822-875 | the loop over the 2000-byte buffer computes the specification function and stays inside |
| CatalogNames.UnwrapInvertsTranscribe | dep/libxml2-2.9.4-rc2/catalog.c:822-875 | unwrapping inverts the transcription of section 6.4 of OASIS XML Catalogs if and only if the last step of the identifier fits: for every identifier of at most 1997 bytes and none above 1998; longer ones come back cut off |
| CatalogNames.UrnLeaves | dep/libxml2-2.9.4-rc2/catalog.c:822-875 | a URN without signs that stand for something else is read as it is, up to 1997 characters; a percent sign stands for itself unless one of the eight escapes follows |
| CatalogNames.UnwrapLighter | dep/libxml2-2.9.4-rc2/catalog.c:2014-2057 | an unwrapped URN that is a URN again has fewer percent signs, so nested URNs come to an end |
| CatalogSpec.BestRewriteUnique | dep/libxml2-2.9.4-rc2/catalog.c:1665-1672 | the longest matching rewrite prefix, earliest on ties, is unique |
| CatalogSpec.BestRewrite | dep/libxml2-2.9.4-rc2/catalog.c:1665-1672 | an entry is chosen exactly if some rewrite prefix matches, and it is the longest, earliest on ties |
| CatalogSpec.FirstExact | dep/libxml2-2.9.4-rc2/catalog.c:1655-1664 | the first entry with that identifier, or none of them has it |
| CatalogSpec.ResolveList | dep/libxml2-2.9.4-rc2/catalog.c:2003-2079 | ends on every finite set of catalog files, cyclic ones included; no depth counter goes down, and one changes if and only if the run left a file at the recursion limit |
| CatalogSpec.Catalogs | dep/libxml2-2.9.4-rc2/catalog.c:2058-2075 | the same for the loop over the list |
| CatalogSpec.Resolve | dep/libxml2-2.9.4-rc2/catalog.c:1627-1843 | the same for one file: exact system, longest rewrite, system delegates and cut, exact public, public delegates and cut, nextCatalog |
| CatalogSpec.TryDelegates | dep/libxml2-2.9.4-rc2/catalog.c:1695-1738 | the delegates in order, each catalog once; the search ends with an answer or with the cut |
| CatalogSpec.TryNext | dep/libxml2-2.9.4-rc2/catalog.c:1820-1842 | the nextCatalog entries in order, and the one return that leaves a counter up |
| CatalogReference.SystemAnswers | dep/libxml2-2.9.4-rc2/catalog.c:1655-1664 | in a file below its limit the first system entry for the identifier answers with its URL, whatever else the file has |
| CatalogReference.RewriteAnswers | dep/libxml2-2.9.4-rc2/catalog.c:1665-1691 | otherwise the longest rewrite rule answers with its URL and the rest of the identifier behind the start string |
| CatalogReference.PublicAnswers | dep/libxml2-2.9.4-rc2/catalog.c:1744-1771 | where nothing is for the system identifier, the first public entry answers with its URL |
| CatalogReference.LimitSilent | dep/libxml2-2.9.4-rc2/catalog.c:1632-1637 | a file that was entered more than 50 times at once answers nothing |
| CatalogReference.EffectiveIs | dep/libxml2-2.9.4-rc2/catalog.c:2014-2025 | a public identifier counts by its words, and is none if it has none |
| CatalogReference.IdentifiersSettled | dep/libxml2-2.9.4-rc2/catalog.c:2014-2057 | before any catalog is looked at, the public identifier is normalized and unwrapped until it is no URN, and a system identifier that is a URN becomes the public identifier, or nothing if it says the same, or is unwrapped |
| CatalogReference.FirstCatalogAnswers | dep/libxml2-2.9.4-rc2/catalog.c:2058-2075 | what the first catalog of a list finds for these is the answer |
| CatalogReference.LimitHidesRest | dep/libxml2-2.9.4-rc2/catalog.c:2058-2075 | a catalog past its limit hides every catalog that comes after it in the list; one that answers nothing below its limit does not |
| CatalogReference.ResolvesByReference | dep/libxml2-2.9.4-rc2/catalog.c:2003-2079 | any acyclic catalogs whose delegates can be fetched: the answer is that of a search without counters, marks and tables that follows section 7.1 of OASIS XML Catalogs, where a nextCatalog entry that cannot be fetched counts for nothing; the counters stay as they were, and the lookup can be repeated |
| Catalog.Resolver.constructor | dep/libxml2-2.9.4-rc2/catalog.c:274-315 | all counters at zero |
| Catalog.Resolver.ListResolve | dep/libxml2-2.9.4-rc2/catalog.c:2003-2079 | the answer, the counters and the failed entries are those of the ordered search |
| Catalog.Resolver.CatalogLoop | dep/libxml2-2.9.4-rc2/catalog.c:2058-2075 | the loop over the list, likewise |
| Catalog.Resolver.ScanSystem | dep/libxml2-2.9.4-rc2/catalog.c:1648-1694 | one pass over the entries finds the first exact system entry, else the best rewrite rule, and whether there is a delegate or a nextCatalog |
| Catalog.Resolver.ScanPublic | dep/libxml2-2.9.4-rc2/catalog.c:1744-1771 | one pass over the entries finds the first exact public entry and whether there is a delegate |
| Catalog.Resolver.XmlResolve | dep/libxml2-2.9.4-rc2/catalog.c:1627-1843 | one-pass loops equal the ordered search on one file |
| Catalog.Resolver.DelegateLoop | dep/libxml2-2.9.4-rc2/catalog.c:1695-1738 | the loop over delegates with its table of fifty URLs |
| Catalog.Resolver.NextLoop | dep/libxml2-2.9.4-rc2/catalog.c:1820-1842 | the loop over nextCatalog entries |
| CatalogSafety.DelegationCutsOff | dep/libxml2-2.9.4-rc2/catalog.c:1695-1738 | once a system delegate applies, public identifier, nextCatalog and later catalogs play no part, and the search does not answer "not found" |
| CatalogSafety.CutLastsIff | dep/libxml2-2.9.4-rc2/catalog.c:1695-1738 | the cut of a file stays in force for later lookups if and only if one of its applicable delegates can be fetched, or one is skipped because its URL is already in the table of fifty; without one that can be fetched the lookup ends in the cut |
| CatalogSafety.RepeatedDelegateCutsAgain | dep/libxml2-2.9.4-rc2/catalog.c:1700-1738 | two delegates with one URL that cannot be fetched: the first lookup marks only one of them, and the cut lasts one lookup longer |
| CatalogSafety.SecondLookupFinds | dep/libxml2-2.9.4-rc2/catalog.c:1707-1738 | so a lookup is not repeatable: a file whose only system delegate cannot be fetched cuts the first lookup off and answers the second from its public entry |
| CatalogSafety.CountersRestored | dep/libxml2-2.9.4-rc2/catalog.c:1820-1843 | where no cycle of references passes through a nextCatalog entry every counter ends where it started, for every identifier; files may delegate to each other in cycles |
| CatalogSafety.RoundRestores | dep/libxml2-2.9.4-rc2/catalog.c:1820-1843 | two files, the one naming the other as nextCatalog and that one delegating back: a lookup that nothing matches, started with equal counters, is cut off at the limit and restores them, so the condition of CountersRestored is not necessary |
| CatalogSafety.DetourLeaks | dep/libxml2-2.9.4-rc2/catalog.c:1822-1835 | such a cycle with a nextCatalog entry in front that misses: every lookup that nothing matches leaves the counter of the first file up by one, until it is past the limit |
| CatalogSafety.MissDisablesFile | dep/libxml2-2.9.4-rc2/catalog.c:1822-1835 | where files name each other as nextCatalog in a cycle, one lookup of identifiers that nothing matches, started on the cycle or on the way to it, leaves a file of the cycle past the limit, and that file answers nothing any more |
| CatalogSafety.OneMissDisablesCatalog | dep/libxml2-2.9.4-rc2/catalog.c:1822-1835 | a file that names itself: after one miss it no longer answers for identifiers it lists |
| Buf.Doubled | dep/libxml2-2.9.4-rc2/buf.c:775-782 | doubling reaches the wanted size, and cannot fail or wrap for sizes in the lower half of unsigned int |
| Buf.DoubledIs | dep/libxml2-2.9.4-rc2/buf.c:775-782 | doubling goes on exactly until it is enough: the smallest doubling that is, or none if one above half the range is not |
| Buf.NewSizeIs | dep/libxml2-2.9.4-rc2/buf.c:771-805 | the doubling schemes take the first doubling that is enough, at least one; the hybrid one below 4096 bytes takes what is needed, the others ten more |
| Buf.NewSizeFits | dep/libxml2-2.9.4-rc2/buf.c:771-805 | for sizes in the range of int every scheme finds a size, and it fits an unsigned int |
| Buf.XmlBuf.constructor | dep/libxml2-2.9.4-rc2/buf.c:156-183 | an empty, terminated buffer; none at all for size 0 |
| Buf.XmlBuf.CheckCompat | dep/libxml2-2.9.4-rc2/buf.c:71-77 | on a buffer whose compatibility fields agree nothing changes |
| Buf.XmlBuf.SetAllocationScheme | dep/libxml2-2.9.4-rc2/buf.c:288-319 | the content stays; immutable and I/O buffers keep their scheme; switching to I/O succeeds but reports -1 |
| Buf.XmlBuf.Empty | dep/libxml2-2.9.4-rc2/buf.c:355-373 | the content is empty and the space in front of it is given back |
| Buf.XmlBuf.Shrink | dep/libxml2-2.9.4-rc2/buf.c:388-423 | drops exactly the first bytes, or nothing if there are fewer; an I/O buffer moves its start, and back to the beginning when most of it lies before the content |
| Buf.XmlBuf.GrowInternal | dep/libxml2-2.9.4-rc2/buf.c:437-496 | same content with room for more than was asked; the terminator is missing only when there was no content at all; the bounded scheme fails exactly at its limit; the new size is twice the old one where that helps |
| Buf.XmlBuf.AddLen | dep/libxml2-2.9.4-rc2/buf.c:621-634 | counts bytes stored behind the content; when they fill the last cell -1 is returned although they are counted and nothing ends them |
| Buf.XmlBuf.Erase | dep/libxml2-2.9.4-rc2/buf.c:646-656 | drops exactly the last bytes, or nothing |
| Buf.XmlBuf.Resize | dep/libxml2-2.9.4-rc2/buf.c:745-853 | same content, at least the size asked for; fails exactly on errors, immutable buffers and the limit of the bounded scheme |
| Buf.XmlBuf.Settle | dep/libxml2-2.9.4-rc2/buf.c:807-850 | moving to the start, reallocating and copying all keep the content |
| Buf.XmlBuf.Add | dep/libxml2-2.9.4-rc2/buf.c:868-913 | appends exactly the bytes under every mutable scheme, or reports why not and keeps the content |
| Buf.XmlBuf.AddHead | dep/libxml2-2.9.4-rc2/buf.c:928-994 | prepends exactly the bytes, into the space of an earlier shrink if it is large enough |
| Buf.XmlBuf.GetInputBase | dep/libxml2-2.9.4-rc2/buf.c:1302-1318 | the distance of an input from the content; an input outside the buffer is an error |
| Buf.XmlBuf.SetInputBaseCur | dep/libxml2-2.9.4-rc2/buf.c:1333-1342 | the pointers at these distances, and the end of the content |
| Buf.XmlBuf.GrowUnder | dep/libxml2-2.9.4-rc2/parser.c:12426-12436 | saving the distances, growing and restoring them leaves the input at the same byte of the same content |
| Buf.StrLen | dep/libxml2-2.9.4-rc2/xmlstring.c:422-431 | the bytes before the first zero |
| Sax2Text.TextIsConcatenation | dep/libxml2-2.9.4-rc2/SAX2.c:2516-2632 | after every run of events below the length limit the innermost element ends with text exactly if the last event was text, and that text is the concatenation of the chunks since the last event that was not |
| Sax2Text.ForestRun | dep/libxml2-2.9.4-rc2/SAX2.c:2516-2632 | the calls for any content give the element they come in the children of that content, texts next to each other merged and CDATA sections too, however deep it is nested, and change nothing around it |
| Sax2Text.LimitedRunIs | dep/libxml2-2.9.4-rc2/SAX2.c:2586-2593 | every run of events, with the limit: the tree is that of the events before the first one that makes a text too long, and the failure is reported exactly if there is one |
| Sax2Text.Build | dep/libxml2-2.9.4-rc2/SAX2.c:2516-2632 | a tree builder driven through any run of calls, however its texts are stored: its tree is that of the accepted events, and it has failed exactly if not all were accepted |
| Sax2Text.Context.Handle | dep/libxml2-2.9.4-rc2/SAX2.c:64-76 | one call: the accelerated tree builder does what the step on trees with the limit does, and nothing once it has failed |
| Sax2Text.StepWellFormed | dep/libxml2-2.9.4-rc2/SAX2.c:2516-2632 | every event keeps the shape of the tree, changes the open text only by appending its chunk, and no other text |
| Sax2Text.Context.constructor | dep/libxml2-2.9.4-rc2/parserInternals.c:1847-1862 | no element is open |
| Sax2Text.Context.StartElement | dep/libxml2-2.9.4-rc2/SAX2.c:1585-1782 | an element is opened and the accelerator is off |
| Sax2Text.Context.EndElement | dep/libxml2-2.9.4-rc2/SAX2.c:1792-1830 | the innermost element is closed and the accelerator is off |
| Sax2Text.Context.NodePop | dep/libxml2-2.9.4-rc2/parser.c:1793-1808 | the same without touching the accelerator, which stays right |
| Sax2Text.Context.OtherNode | dep/libxml2-2.9.4-rc2/SAX2.c:2726-2777 | a child that is not text |
| Sax2Text.Context.CDataBlock | dep/libxml2-2.9.4-rc2/SAX2.c:2788-2810 | a CDATA section, joined to one that is last |
| Sax2Text.Context.NewText | dep/libxml2-2.9.4-rc2/SAX2.c:1844-1919 | a node with the content, stored inline, in the dictionary or on its own |
| Sax2Text.Context.DictLookup | dep/libxml2-2.9.4-rc2/SAX2.c:1877-1888 | a string of the dictionary with that content; the strings already there stay |
| Sax2Text.Context.Unshare | dep/libxml2-2.9.4-rc2/SAX2.c:2574-2580 | inline and interned content is copied before the first append in place |
| Sax2Text.Context.Reserve | dep/libxml2-2.9.4-rc2/SAX2.c:2595-2608 | room for the chunk, same content, capacity as recorded |
| Sax2Text.Context.Concat | dep/libxml2-2.9.4-rc2/tree.c:6968-6993 | content and chunk in new memory, and the accelerator measured anew |
| Sax2Text.Context.Characters | dep/libxml2-2.9.4-rc2/SAX2.c:2516-2632 | whatever the accelerator and the storage of the text, the result is plain concatenation, except that a text longer than the limit is left as it was and an error is reported; strings of the dictionary never change |
| Sax2Text.Context.SpliceText | dep/libxml2-2.9.4-rc2/parser.c:7506-7605 | text copied from an entity joins the open text, and the accelerator is switched off |
| ShellDu.Du | dep/libxml2-2.9.4-rc2/debugXML.c:2683-2751 | the walk by pointers visits exactly the nodes of the recursive preorder, in order, with the depth as indentation, prints their lines, stays in the subtree whatever hangs on its top, and ends |
| ShellDu.PreorderIs | dep/libxml2-2.9.4-rc2/debugXML.c:2683-2751 | the preorder is the list of the nodes at all places of the tree in document order, each indented by its depth, which below a document counts from its children |
| ShellDu.LineAt | dep/libxml2-2.9.4-rc2/debugXML.c:2697-2707 | the line of a visit between those before and after it: an element by its name behind two blanks per level, a document by a slash, other nodes by nothing |
| ShellDu.Climb | dep/libxml2-2.9.4-rc2/debugXML.c:2724-2746 | climbing finds the next node in preorder, or that there is none |
| ShellDu.PrintNode | dep/libxml2-2.9.4-rc2/debugXML.c:2697-2707 | the line of a node |
| ShellDu.PlacesApart | dep/libxml2-2.9.4-rc2/debugXML.c:2683-2751 | no node is met at two places, so every node is visited once |
| ShellDu.LinkedOnce | dep/libxml2-2.9.4-rc2/debugXML.c:2683-2751 | the pointers below a node determine the tree |
| ShellDu.AfterSibling | dep/libxml2-2.9.4-rc2/debugXML.c:2721-2723 | after a subtree the preorder goes on with its next sibling, or with what follows its parent |

## Left out

- C14nIdempotent.CanonicalFormIsCanonical: inclusive mode only, and for visibility of namespace nodes and attributes that follows their elements; C14nStable.StableIff is the exact condition for other visibility, as long as omitted elements show neither namespaces nor attributes.
- C14nExclusive.FollowsExclusiveRecommendationIff: does not cover visible elements that hide a namespace node they use, nor omitted elements that show a namespace of the inclusive prefix list; NodesOk leaves them out, in C14nExclusiveNames, C14nExclusiveSource and C14nCanonical as well. C14nExclusiveHidden says what both write, element by element.
- C14nTextSource.CanonicalTextReadsIff: the condition on the source is for inclusive mode, in exclusive mode it is on the tokens (C14nTextSource.DocumentTextReadsIff); the reader of text knows names only by the characters that end them, and does not check that attributes are unique.
- CatalogSafety.CountersRestored: its condition is sufficient; cycles that mix nextCatalog entries and delegates are settled by two examples only, one that restores the counters and one that does not.
- CatalogReference.ResolvesByReference: for catalogs without cycles whose delegates can all be fetched, and a resolver that has marked none of these; with a delegate that cannot be fetched the marks decide, even within one lookup (CatalogSafety.CutLastsIff), and with cycles the counters do.
- HtmlTrees.TreeParses: for elements that close none of each other and have no place of their own; what other tags do is said tag by tag and by HtmlContent.LoopHandlesAll.
- HtmlReading.GrammarRead: values with a name next to a byte above 7F are not in the grammar, since names with other letters are not modelled.
- C14nMachine.Execute: the parser for namespace URIs is a parameter; output to a file or a memory buffer is a string.
- C14nMachine.Canonicalizer.StackAdd: the growth of the stack's arrays is not modelled, the stack is a sequence with a current end.
- C14nTree.SearchStep: does not model declarations without a URI, nor that xmlSearchNs also looks at the namespace of the ancestors themselves.
- HtmlMachine.AttributeReader.ParseHTMLAttribute: does not model the switch to another encoding at bytes that are not UTF-8, nor names with non-ASCII letters; the contract then only says that this happened.
- HtmlMachine.AttributeReader.ParseCharRef: the value is unbounded, while the source's int may overflow on a very long number.
- HtmlParser.Parser.ParseStartTag: attributes are not modelled, nor the handling of META.
- HtmlParser.Parser.ParseContent: the exit for a round that consumes nothing is not modelled, since every piece of input consumes something.
- HtmlParser.Parser.StartElement: the calls are those of the default tree builder, with memory never running out.
- Buf.XmlBuf.Erase: asks for a mutable buffer, because the source writes the terminator without looking at the scheme, and for something to erase when there is no content, because the source would write through a null pointer; likewise Buf.XmlBuf.Empty, which makes an immutable buffer point to an empty constant and keeps its size.
- Buf.XmlBuf.Add: asks for sizes in the range of int, because the source computes in unsigned int and would wrap; likewise Buf.XmlBuf.AddHead and Buf.XmlBuf.Resize, which also leaves out size zero for a hybrid buffer without content, where the result of allocating nothing decides.
- Buf.XmlBuf.GrowUnder: the pattern of its callers with xmlBufGrow in the middle, not one function of the source.
- Sax2Text.Context.CDataBlock: the content of CDATA sections is not modelled.
- Sax2Text.Context.NewText: which of the three places a text is stored in is not part of the contract; no result depends on it.
- Sax2Text.Context.Characters: the checks against overflow of size_t are not modelled.
- ShellDu.Du: the shell context and the missing tree argument are not modelled.
- Canonical XML 1.1: the import of attributes and the fix-up of xml:base.
- XPath node sets: visibility is a flag on the nodes.
- Catalog entries of URI type, xmlCatalogXMLResolveURI (which reads the depth counters without ever counting), SGML catalogs, and the parser of catalog files; fetching is a lookup in a fixed map.
- Push parsing of HTML: resumed scans depend on how much input has arrived.
- xmlBufDetach, xmlBufCCat, wrapping and unwrapping old buffers.
- Allocation failure everywhere, and the widths of integers where no line above says otherwise.
- The Node and V8 bindings, the serializers, the parsers for SGML and DocBook: nothing in them that a contract would add to their bodies.

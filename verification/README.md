# TEI schema core — a Dafny model

This project models the core of `eu.interedition.tei`, a library that reads TEI
ODD specifications (element, class and macro specifications with RELAX NG
content models) and derives dependency graphs and compact-syntax renderings
from them. The model is purely functional: immutable datatypes for patterns,
name classes, specifications and references, and pure functions (plus five
methods for the graph builders, four of them with loops) whose contracts
state what the Java code computes.

Modules, one per file:

- `Common` (`common.dfy`): `Option`, `Result` and the error kinds. `Unsupported` stands for the serializer's `UnsupportedOperationException`, `IllegalArgument` for `IllegalArgumentException`, and `NullValue` for a `NullPointerException` or a null required attribute.
- `LexOrder` (`lexorder.dfy`): Java's `String.compareTo` and `String.hashCode` (with 32-bit wrap-around), both over the string's UTF-16 code units, so a character above U+FFFF counts as its two surrogates.
- `Strings` (`strings.dfy`): whitespace collapse (`replaceAll("\\s+", " ")`), Java's `split("\\s+")` including its leading-empty-token and trailing-empty-token rules, and decimal rendering of counters.
- `Xml` (`xml.dfy`): qualified names, attributes, abstract markup events, and both `XML` helper classes.
- `Patterns` (`patterns.dfy`): the RELAX NG pattern and name-class AST, and grammars with named definitions.
- `NamespaceCollector` (`namespaces.dfy`): namespace collection and `ns_N` prefix assignment.
- `CompactSerializer` (`compact.dfy`): rendering in the RELAX NG compact syntax (ISO/IEC 19757-2, Annex C).
- `ContentModel` (`contentmodel.dfy`): reference extraction, the synthetic `_fragment` wrapping, root selection and `toString`.
- `Combinable`, `Values`, `Specification`, `LocalizedStrings`, `Reference`, `ModuleReference`: the enum decoders and value records.
- `DependencyGraph` (`graph.dfy`): the four relations of a specification map, stated as sets, and the shared loop passes.
- `SpecificationGraph` (`specgraph.dfy`) and `SchemaGraph` (`schemagraph.dfy`): the two graph builders, each proved equal to the same relations.

The source paths in the table are relative to the repository root.

## Model

| member | source | states |
|---|---|---|
| LexOrder.CompareZeroIffEqual | src/main/java/eu/interedition/tei/SpecificationGraph.java:56-61 | `compareTo` returns 0 exactly for equal strings, so the `order < 0` / `order > 0` branches drop exactly the self-pairs |
| LexOrder.CompareAntisymmetric | src/main/java/eu/interedition/tei/SpecificationGraph.java:56-61 | swapping the operands negates the sign of `compareTo` |
| LexOrder.LessTotal | src/main/java/eu/interedition/tei/SpecificationGraph.java:56-61 | of two distinct strings exactly one is smaller |
| LexOrder.LessTransitive | src/main/java/eu/interedition/tei/SpecificationGraph.java:56-61 | the string order is transitive |
| LexOrder.LessIsLexicographic | src/main/java/eu/interedition/tei/SpecificationGraph.java:56-61 | the order is the lexicographic order of the UTF-16 code units: a proper prefix is smaller, otherwise the first differing code unit decides |
| LexOrder.Utf16Injective | src/main/java/eu/interedition/tei/SpecificationGraph.java:56-61 | two strings have the same UTF-16 code units exactly when they are equal, so comparing code units loses no distinction |
| LexOrder.SupplementarySortsBelowHighBmp | src/main/java/eu/interedition/tei/SpecificationGraph.java:56-61 | U+10000 sorts below U+FDF0, as its high surrogate does, although its code point is larger |
| Strings.Split | src/main/java/eu/interedition/tei/util/XML.java:137-139 | no token contains whitespace, only the first token can be empty, and a string without whitespace splits into itself |
| Strings.SplitLeadingEmpty | src/main/java/eu/interedition/tei/util/XML.java:137-139 | the first token is empty exactly when the input is empty, or starts with whitespace and holds some non-whitespace character |
| Strings.SplitAllSpaces | src/main/java/eu/interedition/tei/util/XML.java:137-139 | a non-empty input made only of whitespace splits into no tokens at all |
| Strings.SplitJoinCollapse | src/main/java/eu/interedition/tei/util/XML.java:137-139 | for every input, joining the tokens with single spaces gives the collapsed input, except for the one trailing space the collapse keeps after trailing whitespace, which `split` drops; so no visible character is lost |
| Strings.CollapseIsCollapsed | src/main/java/eu/interedition/tei/LocalizedStrings.java:38-40 | after collapsing no two whitespace characters are adjacent and every whitespace character is a space |
| Strings.CollapseKeepsVisible | src/main/java/eu/interedition/tei/LocalizedStrings.java:38-40 | collapsing keeps the non-whitespace characters, in order |
| Strings.CollapseIdempotent | src/main/java/eu/interedition/tei/LocalizedStrings.java:38-40 | collapsing twice is collapsing once |
| Strings.DecimalRoundTrip | src/main/java/eu/interedition/tei/rng/NamespaceCollector.java:51 | the decimal rendering of a counter parses back to the counter |
| Strings.DecimalInjective | src/main/java/eu/interedition/tei/rng/NamespaceCollector.java:51 | distinct counters render differently |
| Xml.NameEqualsCharacterized | src/main/java/eu/interedition/tei/XML.java:185-187 | a name matches when the local parts are equal and, unless the expected namespace is null, the namespaces are equal; the second helper class's `equals` applies the same rule |
| Xml.OptionalAttributeValue | src/main/java/eu/interedition/tei/XML.java:136-139 | absent or empty attribute gives null, otherwise the attribute's value |
| Xml.OptionalAttributeValueAgrees | src/main/java/eu/interedition/tei/util/XML.java:80-83 | the filtered form of the second helper returns the same value as the first |
| Xml.RequiredAttributeValue | src/main/java/eu/interedition/tei/XML.java:132-134 | fails with a null-value error exactly when the optional value is null, and otherwise returns it |
| Xml.ToUri | src/main/java/eu/interedition/tei/util/XML.java:133-135 | null or empty input gives null, anything else is kept |
| Xml.ToList | src/main/java/eu/interedition/tei/util/XML.java:137-139 | no element of the list contains whitespace, and only the first can be empty |
| Xml.ToListOfNothing | src/main/java/eu/interedition/tei/util/XML.java:137-139 | both null and "" give the one-element list `[""]` |
| NamespaceCollector.NameClassContribution | src/main/java/eu/interedition/tei/rng/NamespaceCollector.java:89-127 | a name contributes its namespace only when non-empty; an nsName always contributes; anyName contributes only what its except contributes; a choice contributes both branches |
| NamespaceCollector.LeavesContributeNothing | src/main/java/eu/interedition/tei/rng/NamespaceCollector.java:76-87 | refs are not followed; values, empty, text, notAllowed and data without except contribute nothing |
| NamespaceCollector.Collect | src/main/java/eu/interedition/tei/rng/NamespaceCollector.java:34-67 | a grammar without a start fails with a null-value error, as the walker does when it reaches the missing start; otherwise the collected namespaces are strictly sorted and are exactly those of every definition body and the start pattern |
| NamespaceCollector.Insert | src/main/java/eu/interedition/tei/rng/NamespaceCollector.java:34-40 | sorted insertion keeps the sequence strictly sorted and adds exactly the new element |
| NamespaceCollector.ToMapping | src/main/java/eu/interedition/tei/rng/NamespaceCollector.java:42-55 | every initial entry is kept unchanged, and the keys are exactly the initial keys plus the collected namespaces |
| NamespaceCollector.ToMappingFreshPrefixes | src/main/java/eu/interedition/tei/rng/NamespaceCollector.java:48-53 | a namespace missing from the initial mapping gets `ns_N`, N the number of missing namespaces before it in sorted order |
| NamespaceCollector.FreshPrefixesDistinct | src/main/java/eu/interedition/tei/rng/NamespaceCollector.java:48-53 | two different fresh namespaces never share a prefix |
| NamespaceCollector.PrefixInjective | src/main/java/eu/interedition/tei/rng/NamespaceCollector.java:51 | `ns_i` and `ns_j` are equal only when i and j are |
| NamespaceCollector.GrammarMapping | src/main/java/eu/interedition/tei/rng/RelaxCompactSerializer.java:90-101 | fails with a null-value error exactly when the grammar has no start; otherwise the serializer's mapping has a key exactly for each namespace used in the grammar |
| CompactSerializer.IdentifierRoundTrip | src/main/java/eu/interedition/tei/rng/RelaxCompactSerializer.java:307-312 | a name gets a leading backslash exactly when it is one of the 19 keywords, the result is never a bare keyword, and dropping the backslash restores the name |
| CompactSerializer.Literal | src/main/java/eu/interedition/tei/rng/RelaxCompactSerializer.java:314-327 | fails exactly when the value holds both quote characters; otherwise the delimiter is `"` exactly when the value holds `'` and never occurs in the value, and the literal is 6 characters longer than the value when it holds a newline, 2 otherwise |
| CompactSerializer.LiteralForm | src/main/java/eu/interedition/tei/rng/RelaxCompactSerializer.java:321-326 | a literal is the value between k opening and k closing copies of the delimiter, k being 3 exactly when the value holds a newline and 1 otherwise |
| CompactSerializer.LiteralRoundTrip | src/main/java/eu/interedition/tei/rng/RelaxCompactSerializer.java:314-327 | reading a literal back, which accepts only the delimiters the serializer would choose, gives the value |
| CompactSerializer.UnquoteOnlyLiterals | src/main/java/eu/interedition/tei/rng/RelaxCompactSerializer.java:314-327 | whatever reads back as a value is exactly that value's literal, so the literal form is one-to-one and wrong or miscounted delimiters are rejected |
| CompactSerializer.DataType | src/main/java/eu/interedition/tei/rng/RelaxCompactSerializer.java:228-238 | no type prints nothing; the empty or XML Schema library prints `xsd:` + type; any other library with a type fails |
| CompactSerializer.ValueRendering | src/main/java/eu/interedition/tei/rng/RelaxCompactSerializer.java:240-245 | a value pattern prints as datatype part, one space, literal |
| CompactSerializer.NameRendering | src/main/java/eu/interedition/tei/rng/RelaxCompactSerializer.java:287-305 | a name without namespace prints its local part; otherwise prefix `:` local, with the mapped prefix or `ns` when unmapped |
| CompactSerializer.ConcatShape | src/main/java/eu/interedition/tei/rng/RelaxCompactSerializer.java:330-344 | more than one child: parenthesised, children joined by the operator with none trailing; one child: the child; none: the empty string |
| CompactSerializer.BinaryOperatorSpellings | src/main/java/eu/interedition/tei/rng/RelaxCompactSerializer.java:104-119 | group, interleave and choice of two children print as the parenthesised children joined by `, `, ` & `, ` \| ` |
| CompactSerializer.PostfixOperatorSpellings | src/main/java/eu/interedition/tei/rng/RelaxCompactSerializer.java:121-140 | `+`, `?`, `*` follow the child directly, with no space |
| CompactSerializer.RenderSucceedsIff | src/main/java/eu/interedition/tei/rng/RelaxCompactSerializer.java:203-245 | rendering fails exactly when some value or parameter cannot be quoted or some datatype library is foreign |
| CompactSerializer.DefinitionLinesSucceedIff | src/main/java/eu/interedition/tei/rng/RelaxCompactSerializer.java:68-77 | the definitions print exactly when every definition with a pattern is supported |
| CompactSerializer.PrintedDefines | src/main/java/eu/interedition/tei/rng/RelaxCompactSerializer.java:68-71 | the printed definitions are exactly those whose pattern is not null |
| CompactSerializer.PrintedLines | src/main/java/eu/interedition/tei/rng/RelaxCompactSerializer.java:71-75 | the i-th line is the i-th printed definition's name, ` = `, its rendered pattern and a line break |
| CompactSerializer.DefinitionLinesOnePerPrinted | src/main/java/eu/interedition/tei/rng/RelaxCompactSerializer.java:68-77 | the definitions part is the concatenation of one line per printed definition, in order, and fails exactly when one of their patterns fails |
| CompactSerializer.RenderGrammarSucceedsIff | src/main/java/eu/interedition/tei/rng/RelaxCompactSerializer.java:64-101 | a grammar renders exactly when it has a start, every non-null definition and the start are supported, and every namespace the grammar uses can be quoted; without a start it fails with a null-value error, raised while collecting namespaces (src/main/java/eu/interedition/tei/rng/NamespaceCollector.java:57-66) |
| CompactSerializer.RenderGrammarDeclarations | src/main/java/eu/interedition/tei/rng/RelaxCompactSerializer.java:90-101 | a rendered grammar has one namespace line per mapped namespace, with its mapped prefix and quoted URI, and no other |
| CompactSerializer.RenderGrammarShape | src/main/java/eu/interedition/tei/rng/RelaxCompactSerializer.java:64-86 | a rendered grammar has a start, and its body is `grammar {`, one line per non-null definition in order, `start = ` with the rendered start, and `}` |
| CompactSerializer.PatternToStringUsesFallbackPrefix | src/main/java/eu/interedition/tei/rng/RelaxCompactSerializer.java:57-61 | rendering a single pattern uses no namespace mapping, so every namespaced name prints with the `ns` prefix |
| ContentModel.ElementNames | src/main/java/eu/interedition/tei/ContentModel.java:70-76 | an element name's local part is recorded exactly when its namespace is empty or the TEI namespace |
| ContentModel.Walk | src/main/java/eu/interedition/tei/ContentModel.java:66-95 | the walk only adds to the names already recorded, and terminates because a ref is followed only when its name is new |
| ContentModel.WalkCovers | src/main/java/eu/interedition/tei/ContentModel.java:70-91 | every qualifying element name and every ref name of the walked pattern is in the result |
| ContentModel.WalkSound | src/main/java/eu/interedition/tei/ContentModel.java:70-91 | nothing is in the result but names of the walked pattern or of definition bodies |
| ContentModel.WalkWithin | src/main/java/eu/interedition/tei/ContentModel.java:70-91 | the walk stays inside every set that holds the pattern's names and is closed under following definitions, so it records only names reachable from the pattern |
| ContentModel.WalkClosed | src/main/java/eu/interedition/tei/ContentModel.java:82-91 | when a newly recorded name is a definition, everything its body names is recorded too |
| ContentModel.References | src/main/java/eu/interedition/tei/ContentModel.java:65-68 | fails with a null-value error exactly when there is neither a root nor a start pattern |
| ContentModel.ReferencesReach | src/main/java/eu/interedition/tei/ContentModel.java:65-95 | the references contain every name of the entry pattern and, for every recorded definition name that is not also an element name, every name of that definition's body |
| ContentModel.ReferencesWithinReachable | src/main/java/eu/interedition/tei/ContentModel.java:65-95 | the references lie inside every set that holds the entry pattern's names and is closed under following definitions, so only names reachable from the entry are recorded |
| ContentModel.SelfReferenceTerminates | src/main/java/eu/interedition/tei/ContentModel.java:82-91 | a self-referencing definition yields the element name and the definition name |
| ContentModel.ElementNameShadowsReference | src/main/java/eu/interedition/tei/ContentModel.java:72-85 | a ref whose name was already recorded as an element name is not followed |
| ContentModel.FragmentBody | src/main/java/eu/interedition/tei/ContentModel.java:114-122 | the copied events are a prefix of the input, none closes the container, and the first event after them does |
| ContentModel.WrapFragmentRoundTrip | src/main/java/eu/interedition/tei/ContentModel.java:108-134 | the wrapped document is the three-event prologue, the fragment body and the seven-event epilogue, and unwrapping gives the body back |
| ContentModel.FragmentBodyIgnoresRest | src/main/java/eu/interedition/tei/ContentModel.java:114-122 | events after the container's end element do not influence the wrapped document |
| ContentModel.FragmentTargetsCharacterized | src/main/java/eu/interedition/tei/ContentModel.java:144-154 | each recorded target is the `_fragment` definition, and there is one exactly when a `_fragment` ref is reachable without following refs and is defined |
| ContentModel.RootOfCharacterized | src/main/java/eu/interedition/tei/ContentModel.java:144-156 | the root is the `_fragment` definition's body when the start references it, otherwise null; for the wrapped document it is the fragment |
| ContentModel.RootOf | src/main/java/eu/interedition/tei/ContentModel.java:144-156 | root selection fails exactly when the grammar has no start pattern |
| ContentModel.ToStringSucceedsIff | src/main/java/eu/interedition/tei/ContentModel.java:97-100 | with a root, succeeds exactly when the root is supported; without one, exactly when the grammar has a start and renders; with neither root nor start, fails with a null-value error |
| Combinable.EditOperationFrom | src/main/java/eu/interedition/tei/Combinable.java:37-51 | an absent or empty `mode` attribute gives null; a non-empty one succeeds exactly when it is one of the four mode names, giving the operation of that name, and otherwise fails with an illegal-argument error carrying the value |
| Combinable.DecodeMode | src/main/java/eu/interedition/tei/Combinable.java:37-52 | absent mode decodes to null; the four mode names decode to the operation that prints as that name; anything else fails with the string |
| Combinable.DecodeModeInverse | src/main/java/eu/interedition/tei/Combinable.java:42-50 | every operation's name decodes to itself, so decoding is injective |
| Combinable.DecodeModeCaseSensitive | src/main/java/eu/interedition/tei/Combinable.java:42-51 | differently-cased keywords such as `ADD` and `Change` fail |
| Values.TypeFrom | src/main/java/eu/interedition/tei/Values.java:115-127 | null gives null; `closed`, `semi`, `open` give their type; any other string fails |
| Values.TypeFromInverse | src/main/java/eu/interedition/tei/Values.java:118-124 | every type's name decodes to itself |
| Values.ValueListFrom | src/main/java/eu/interedition/tei/Values.java:54-58 | a value list without a type attribute is OPEN; it fails exactly when the type or the mode is not recognised |
| Specification.KindFrom | src/main/java/eu/interedition/tei/Specification.java:202-211 | `elementSpec`, `classSpec`, `macroSpec` map to their kind; every other local name fails |
| Specification.KindFromInverse | src/main/java/eu/interedition/tei/Specification.java:202-211 | decoding a kind's element name gives the kind back |
| Specification.IsSpecificationElementDecodes | src/main/java/eu/interedition/tei/Specification.java:191-211 | a name is a specification element exactly when it is in the TEI namespace with one of the three local names, and then its kind decodes |
| Specification.FromStartTag | src/main/java/eu/interedition/tei/Specification.java:106-118 | construction fails exactly when ident or module is missing, the element name is not `elementSpec`, `classSpec` or `macroSpec`, or the mode is unknown; otherwise ident, module, kind, type and the decoded mode come from the tag, and the classes, their edit operation and the content model are the ones passed in |
| Specification.FromSpecificationElement | src/main/java/eu/interedition/tei/Specification.java:106-118 | a specification element with ident and module and no mode always yields a record, with no edit operation |
| Specification.EqualityContract | src/main/java/eu/interedition/tei/Specification.java:153-163 | two specifications are equal exactly when their idents are, and equal specifications hash equally |
| Specification.AcceptedByExactlyOneKind | src/main/java/eu/interedition/tei/Specification.java:214-221 | a kind's predicate accepts a specification exactly when it has that kind, so exactly one predicate accepts it |
| LocalizedStrings.Set | src/main/java/eu/interedition/tei/LocalizedStrings.java:38-40 | the locale becomes a key and every other locale keeps its entry |
| LocalizedStrings.SetNormalises | src/main/java/eu/interedition/tei/LocalizedStrings.java:38-40 | the stored string is collapsed, keeps the visible characters, setting it again changes nothing, and a later set overwrites |
| LocalizedStrings.TextIgnoresMarkup | src/main/java/eu/interedition/tei/LocalizedStrings.java:45-56 | markup events contribute nothing to the collected text |
| LocalizedStrings.AddStoresContent | src/main/java/eu/interedition/tei/LocalizedStrings.java:42-57 | the text of the character events before the first matching end element is stored under the element's language, and reading resumes after that end element |
| LocalizedStrings.AddWithoutLanguageIsDefault | src/main/java/eu/interedition/tei/LocalizedStrings.java:44-50 | without `xml:lang` the text is stored under `en` and becomes the `toString` value |
| LocalizedStrings.ToString | src/main/java/eu/interedition/tei/LocalizedStrings.java:59-62 | the `en` entry, or null when there is none |
| Reference.FromString | src/main/java/eu/interedition/tei/Reference.java:71-76 | the reference has the given key and no source |
| Reference.FromStartTag | src/main/java/eu/interedition/tei/Reference.java:39-44 | fails exactly when the key attribute is missing; otherwise the key and the source URI come from the tag |
| Reference.HashConsistentWithEquality | src/main/java/eu/interedition/tei/Reference.java:52-64 | equal references have equal hash codes |
| Reference.Compare | src/main/java/eu/interedition/tei/Reference.java:66-69 | the comparison yields -1, 0 or 1 |
| Reference.CompareConsistentWithEquality | src/main/java/eu/interedition/tei/Reference.java:57-69 | comparison is 0 exactly for equal references, and swapping the operands negates it |
| Reference.CompareOrdersByKeyThenSource | src/main/java/eu/interedition/tei/Reference.java:66-69 | different keys decide by key; equal keys decide by source with a missing source first |
| Reference.CompareTransitive | src/main/java/eu/interedition/tei/Reference.java:66-69 | the order on references is transitive |
| ModuleReference.From | src/main/java/eu/interedition/tei/ModuleReference.java:48-60 | fails exactly when both key and url are missing; the key is the key attribute, else the url; included and excluded are the split attribute tokens, each without source; source and prefix are the attributes of those names |
| ModuleReference.ListedReferences | src/main/java/eu/interedition/tei/ModuleReference.java:54-55 | every listed key is whitespace-free, and an absent list gives exactly one reference with an empty key |
| ModuleReference.AbsentListsAreNotEmpty | src/main/java/eu/interedition/tei/ModuleReference.java:54-55 | a `moduleRef` naming only its key includes and excludes the empty-key reference |
| ModuleReference.FromNonEmptyLists | src/main/java/eu/interedition/tei/ModuleReference.java:54-55 | with empty tokens dropped, an absent list is the empty set and every listed key is a non-empty word |
| DependencyGraph.Canon | src/main/java/eu/interedition/tei/SpecificationGraph.java:56-61 | a pair of distinct idents is stored once, smaller first |
| DependencyGraph.MembershipCharacterized | src/main/java/eu/interedition/tei/SpecificationGraph.java:41-50 | (m, id) is a module member exactly when id's module is m, and a class member exactly when m is among id's classes |
| DependencyGraph.SpecificationDependenciesCharacterized | src/main/java/eu/interedition/tei/SpecificationGraph.java:52-75 | (a, b) is an edge exactly when a < b and one is a class the other belongs to or refers to the other; both ends are known and the reversed pair is absent |
| DependencyGraph.ClassEdgePresent | src/main/java/eu/interedition/tei/SpecificationGraph.java:54-62 | every class and each of its other members are joined by the canonical edge |
| DependencyGraph.RefEdgeCondition | src/main/java/eu/interedition/tei/SpecificationGraph.java:64-74 | a reference to a known ident other than itself gives the canonical edge; a reference to an unknown ident gives no edge at all |
| DependencyGraph.EdgesKnown | src/main/java/eu/interedition/tei/SpecificationGraph.java:78-81 | both ends of every edge are known idents, so the module lookups never miss |
| DependencyGraph.ModuleDependenciesCharacterized | src/main/java/eu/interedition/tei/SpecificationGraph.java:78-90 | every module edge is ordered and comes from a cross-module specification edge; every such edge gives one; edges with a missing or shared module give none |
| DependencyGraph.ModuleEdges | src/main/java/eu/interedition/tei/SpecificationGraph.java:78-90 | the loop over the specification edges computes exactly the module relation |
| DependencyGraph.SpecificationEdges | src/main/java/eu/interedition/tei/SpecificationGraph.java:52-76 | the loop over the specifications computes exactly the edge relation, and fails with a null-value error exactly when some content model has no entry pattern |
| SpecificationGraph.Create | src/main/java/eu/interedition/tei/SpecificationGraph.java:38-93 | for any iteration order the four relations are those characterised above; building fails exactly when some content model has no entry pattern |
| SchemaGraph.Read | src/main/java/eu/interedition/tei/SchemaGraph.java:45-97 | the split-loop variant computes the same four relations as `create`, for any iteration order |

## Left out

- Streaming XML reading (`Specification.from`/`read`, `Schema.read`, `AttributeList.parse`, `AttributeDefinition.parse`, `Values.parse`/`Item.from`, `Module.read`): these are StAX cursor loops over files. The model takes the resulting records as input. `Values.parse` and `Item.from` never stop at their own end tag, so only the OPEN default and the decoders are modelled.
- The RELAX NG parser (rngom `SAXParseable`/`DSchemaBuilderImpl`) and the event writer: `ContentModel.Parse` takes the parsed grammar as input, and the wrapping is modelled over a sequence of abstract events.
- rngom's walker is not part of the source. The model assumes its default behaviour: a grammar walks only its start pattern; data and value patterns are leaves; element, attribute and container patterns visit their children; `listNames` yields every name of a name class, including names under `except`.
- Nested grammars, parent refs and external refs: the pattern datatype has none of them; one grammar with one flat definition list is modelled.
- Schema reading and its duplicate-ident check: the graph builders take a map keyed by ident (`DependencyGraph.WellKeyed`) and an iteration order that covers its keys.
- `TeiAllGitHubReader` (HTTP, authentication, concurrency, DOM import), the lazily created XML factories, and the strict error handler.
- `Identified`, `Namespaceable`, `AttributeReference` and the `AttributeDefinition` getters: they hold values and have no logic of their own.
- Descriptions, alternative idents and attribute lists are not fields of the specification record, because no modelled operation reads them.
- Reference.HashCode: `URI.hashCode` is a parameter (the model keeps URIs as strings), so the hash is stated only up to that function.
- Reference.Compare: `URI.compareTo` is approximated by the string order of the URI text.
- Reference.Equal: `URI.equals` ignores case in the scheme and host and compares escapes case-insensitively; the model compares the URI text exactly, so it can tell apart URIs the source treats as equal.
- Xml.ToUri: `URI.create` rejects malformed URIs with an exception; the model accepts every non-empty string.
- CompactSerializer.RenderGrammarDeclarations: namespace declarations come out of a `HashMap` in unspecified order, so they are stated as a set of lines. When several namespaces cannot be quoted, the failure names the first in sorted order, where the source names the first in map order.
- CompactSerializer.RenderGrammarShape: `println` ends a line with the platform's line separator; the model always writes `\n`.
- Grammars are not required to be well formed: the model allows two definitions with one name (a ref reaches the first) and refs to undefined names (they are recorded but not followed). The RELAX NG parser merges or rejects both before the source sees the grammar.
- ContentModel.References: the source returns a sorted set; the model returns a `set`, so the sortedness is not stated.
- Specification.FromStartTag: the module attribute is required, so a constructed record always has a module. The graph relations still handle a missing module as the source does.
- Element names and ref names are kept in one set, as the source does, so a ref whose name was already met as an element name is not followed (ContentModel.ElementNameShadowsReference shows it). The model keeps this behaviour; it is stated, not corrected.

## Findings

| source | as written | input that shows it | evidently intended | confidence | as-written member | corrected member |
|---|---|---|---|---|---|---|
| src/main/java/eu/interedition/tei/ModuleReference.java:54-55 | an absent `included` or `except` attribute goes through `toList(null)`, which returns `[""]`, so the set holds a reference with the empty key | `<moduleRef key="core"/>` gives included = excluded = {reference with key ""} | an absent list is the empty set, and no reference has an empty key | medium, not executed | ModuleReference.AbsentListsAreNotEmpty | ModuleReference.FromNonEmptyLists |

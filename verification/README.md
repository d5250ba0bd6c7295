# OntoView core, modelled in Dafny

OntoView is a browser viewer for OWL ontologies written as RDF/XML. It
draws the class hierarchy as a tree and shows details about each class.
This project models the part of `main.js` that turns the parsed document
into that tree. The DOM, d3 and event code around it is not modelled.
The modelled part consists of:

- **Identifier resolver** (`split('#').pop() || split('/').pop()`): module `Identifiers`.
- **Graph builder** `extractOntologyData`: module `OntologyGraph`. It turns class records into nodes (id, display name, comments, superclasses, labels per language) and `subClassOf` links. The same module holds the label lookup `getLocalizedLabel`.
- **Hierarchy builder** inside `createVisualization`: module `Hierarchy`. It computes:
  - the kept relationships;
  - the recorded parents;
  - the tree parent of each class, which comes from the first link naming it;
  - the children lists;
  - the root choice: the single candidate, a virtual `OntologyRoot`, or the first node;
  - the secondary (multiple-inheritance) links.
- **Overlap sweep** that spreads boxes apart level by level after the tree layout: module `Layout`. The layout's `x`, `depth` and parent pointers are inputs. The positions live in an `array<real>` that the sweep updates in place.
- **Class-expression parser and renderer** `parseEquivalentClassAxiom` and `renderEquivalentAxiom`: module `ClassExpressions`. It works over an abstract element tree (module `Markup`). It also has an encoder used to state the parser's round trip.
- **Info-panel listing** `extractClassAxioms`: module `ClassAxioms`. It lists subclasses, equivalent-class axioms and object-property restrictions.
- **Branch extractor** `getBranchOntologyData`: module `Branch`. It gives the focal class, its transitive subclasses and superclasses, and the links among them.
- **Search filter** `findClassesByQuery`: module `Search`.

The document is abstracted once, in `Markup`:

- `ClassRecord` stands for one `owl:Class` element: its `rdf:about`, its `rdfs:subClassOf` elements (resource plus restriction), its labels (language and raw text), its comments, and its `owl:equivalentClass` elements.
- `Element(name, attrs, children)` stands for the markup the class-expression parser walks.

JavaScript `null` and missing attributes are `Option.None`. The JavaScript truthiness test on a string (`if (about)`) is `Truthy`: present and non-empty.

Two consequences of `main.js` as written, which the model keeps:

- An identifier with no `#` resolves to the whole string, not to the text after its last `/`. The `/` fallback applies only when the text after the last `#` is empty (main.js:473).
- A link that repeats a class's primary link is neither a tree edge nor a secondary link. So the drawn links equal the kept relationships as a set, but not as a list with repeats.

## Model

| member | source | states |
|---|---|---|
| Identifiers.AfterLastSpec | main.js:473 | `s.split(c).pop()` is the suffix of `s` after its last `c`. It holds no `c`, and it is all of `s` when `c` does not occur. |
| Identifiers.LocalNameSpec | main.js:473 | With no `#` the whole input comes back. If the text after the last `#` is non-empty, it is that text. Otherwise it is the text after the last `/`, or the whole input when there is no `/`. |
| Identifiers.LocalNameEmpty | main.js:473 | The resolved name is empty exactly when the input is empty. |
| Identifiers.LocalNameAfterHash | main.js:737 | `base#Name` resolves to `Name` whenever `Name` is non-empty and has no `#`. |
| Identifiers.LocalNameExamples | main.js:758 | `http://x/y#Foo` resolves to `Foo`; `http://x/y/Foo` resolves to itself. |
| Identifiers.TrimStartSpec | main.js:480 | Removes exactly the leading white space; the result starts with a non-space. |
| Identifiers.TrimEndSpec | main.js:480 | Removes exactly the trailing white space; the result ends with a non-space. |
| Identifiers.TrimSpec | main.js:480 | `trim()` keeps a contiguous middle part of the text. Everything cut off on either side is white space. The part kept starts and ends with a non-space. |
| Identifiers.TrimBlank | main.js:480-481 | A trimmed label is empty exactly when the text is all white space, which is when `if (text)` drops it. |
| Optional.Somes | main.js:743 | `.filter(Boolean)` on parse results keeps exactly the present values and never lengthens the list. |
| Optional.SomesAllPresent | main.js:749 | When every parse succeeds, the operands are the parses, position by position. |
| Markup.Attr | main.js:735 | `getAttribute` is present exactly when the attribute is, and then gives its value. |
| Markup.FirstChild | main.js:740 | A `:scope >` query gives a direct child with either spelling of the name. It gives nothing exactly when no child has that name. |
| Markup.FirstNamedFirst | main.js:740 | The child found is the first with that name: every earlier child has another name. |
| OntologyGraph.LabelsOfKeys | main.js:476-484 | A language has a label exactly when some label element carries that tag and non-blank text. A missing or empty tag counts as `en`. |
| OntologyGraph.LabelsOfValue | main.js:476-484 | The stored label is the trimmed text of the last label element for that language. |
| OntologyGraph.CollectLabels | main.js:476-484 | The label loop builds exactly that label map. |
| OntologyGraph.CollectComments | main.js:498-502 | There is one trimmed comment per comment element, in order, and blank ones are kept. |
| OntologyGraph.SuperClassesOfSpec | main.js:505-513 | A superclass is listed exactly when some `subClassOf` has a non-empty resource that resolves to it. |
| OntologyGraph.CollectSuperClasses | main.js:505-513 | The superclass loop builds exactly that list, in element order. |
| OntologyGraph.MakeNode | main.js:468-522 | The node built for a record with an `rdf:about` is `NodeOf` of that record. |
| OntologyGraph.DisplayNameSpec | main.js:486-495 | The display name is the last label in the current language, else the last `en` label, else the id. |
| OntologyGraph.IndexStep | main.js:515-521 | `classes.set` overwrites the node of a known id. A new id is appended to the order. Records without `rdf:about` change nothing. |
| OntologyGraph.IndexIds | main.js:468-473 | An id is a node exactly when some record with a non-empty `rdf:about` resolves to it. |
| OntologyGraph.IndexLastWins | main.js:515-521 | A node is the one built from the last record declaring its id. |
| OntologyGraph.IndexFirstInsertion | main.js:537 | Nodes come in the order in which their ids were first declared. |
| OntologyGraph.NodesOf | main.js:537 | There is one node per distinct id: the node ids are the first-seen order of the ids, with no repeats. |
| OntologyGraph.SuperLinksSpec | main.js:527-534 | A class's links run from each of its superclasses that is a node to the class itself. |
| OntologyGraph.LinksOfSpec | main.js:525-535 | A link exists exactly when its source is a node and its target's node lists that source as a superclass. |
| OntologyGraph.IndexClasses | main.js:468-522 | The loop over the class elements builds exactly the class map. |
| OntologyGraph.LinksFrom | main.js:527-534 | One class's loop over its superclasses builds exactly its links. |
| OntologyGraph.CollectLinks | main.js:525-535 | The loop over the classes in map order builds exactly the link list. |
| OntologyGraph.ExtractOntologyData | main.js:461-541 | Returns the indexed nodes and the links built from them. Both ends of every link are nodes. |
| OntologyGraph.FindNode | main.js:613-614 | `find` returns the first node with the id, and nothing exactly when no node has it. |
| OntologyGraph.LocalizedLabel | main.js:609-629 | An unknown id is returned as is. Otherwise the result is one of that node's labels or its id. |
| OntologyGraph.IndexNamedFor | main.js:486-495 | Every built node's name is the label the current language would pick. |
| OntologyGraph.LocalizedLabelIsName | main.js:609-629 | For every built node, `getLocalizedLabel(id)` equals the display name chosen at build time. |
| ClassExpressions.ParseNull | main.js:733-828 | The parser returns null exactly for elements it does not recognise: a named class, intersection, union, complement or restriction. |
| ClassExpressions.ParseItemsFrom | main.js:743-744 | Every intersection or union operand is the parse of some element child. |
| ClassExpressions.ParseItemsKeep | main.js:749-750 | Every element child that parses is kept as an operand. |
| ClassExpressions.ParseComplement | main.js:753-768 | A complement with a resource gives Not(Named). Otherwise it gives Not of its first element child's parse. With no child it gives Not(null). |
| ClassExpressions.ParseRestrictionKind | main.js:800-824 | With no nested value, the kind defaults to `some`. `allValuesFrom` overrides `someValuesFrom`, giving kind `only` and taking its value. |
| ClassExpressions.ParseRestrictionNested | main.js:785-800 | A restriction nested in the property's description becomes the value. The value elements are then not read and the kind stays `some`. |
| ClassExpressions.ParseInverseProperty | main.js:777-783 | A property given through `inverseOf` is `inverse(P)`. |
| ClassExpressions.PropertyRoundTrip | main.js:794-797 | An `onProperty` with a resource reads back that property name. |
| ClassExpressions.ValueRoundTrip | main.js:800-824 | The value element the encoder writes reads back the restriction's kind and value. |
| ClassExpressions.ValueElementRoundTrip | main.js:801-821 | A value element reads back as a plain name or a nested restriction. |
| ClassExpressions.ParseEncode | main.js:732-829 | Parsing the markup of any well-formed expression gives back that expression. |
| ClassExpressions.ParseEncodeAll | main.js:743-750 | The operand list reads back exactly, in order. |
| ClassExpressions.ParseEncodeIntersection | main.js:740-745 | Round trip for intersections. |
| ClassExpressions.ParseEncodeUnion | main.js:747-751 | Round trip for unions. |
| ClassExpressions.ParseEncodeNot | main.js:753-768 | Round trip for complements, including Not(null). |
| ClassExpressions.ParseEncodeRestriction | main.js:770-826 | Round trip for restrictions, including a missing property or value. |
| ClassExpressions.RenderBalanced | main.js:832-858 | Rendering gives balanced parentheses whenever the labels of the classes the expression names, as classes or as restriction values, and its property names are balanced. Nothing is asked of labels for other ids. |
| ClassExpressions.NotBalanced | main.js:841-842 | `(not X)` is balanced when the labels and property names in `X` are. |
| ClassExpressions.RestrictionBalanced | main.js:843-854 | `(P kind V)` is balanced when `P`, the label of a plain `V` and the names inside a nested `V` are. |
| ClassExpressions.ValueBalanced | main.js:848-853 | A restriction value renders balanced under the same condition on its names. |
| ClassExpressions.RenderAllBalanced | main.js:838-840 | Every rendered operand is balanced when the names in each operand are. |
| ClassExpressions.JoinBalanced | main.js:838-840 | Joining balanced operands with `and` or `or` stays balanced. |
| ClassExpressions.NestedRestrictionBalanced | main.js:832-858 | With local names as labels, as `getLocalizedLabel` gives for ids with no node, the expression "P some (Q some R)" meets the condition and renders balanced. |
| ClassExpressions.NestedRestrictionParses | main.js:770-826 | The markup for `P some (Q some R)` parses to that nested restriction. |
| ClassExpressions.NestedRestrictionRenders | main.js:843-854 | With identity labels it renders as `(P some (Q some R))`. |
| Hierarchy.KeptSpec | main.js:918-926 | A relationship is kept exactly when the link is an input link with both ends nodes. |
| Hierarchy.ParentsOfSpec | main.js:928 | `parents` of a class lists exactly the sources of kept links into it. |
| Hierarchy.PrimaryParentsSpec | main.js:935-944 | A class has a tree parent exactly when some kept link targets it. The parent is the source of the first such link. |
| Hierarchy.ChildrenOfSpec | main.js:939-941 | A class's children are exactly the classes whose tree parent it is, each listed once. |
| Hierarchy.CandidatesSpec | main.js:947 | Root candidates are exactly the nodes that no kept link targets. |
| Hierarchy.SecondaryOfSpec | main.js:1091-1109 | A kept link is secondary exactly when both ends are drawn and its source is not the target's tree parent. |
| Hierarchy.FirstPass | main.js:918-931 | The first loop over the links builds exactly the kept relationships, the parents lists and the set of targeted classes. |
| Hierarchy.SecondPass | main.js:935-944 | The second loop builds exactly the tree parents and the children lists. |
| Hierarchy.RootCandidates | main.js:947 | The filter over the nodes builds exactly the root candidates. |
| Hierarchy.SecondaryPass | main.js:1091-1109 | The loop over the relationships builds exactly the secondary links. |
| Hierarchy.BuildHierarchy | main.js:908-959 | The two link passes, the root choice and the secondary pass compute `TreeOf`. There is no tree exactly when there are no nodes. |
| Hierarchy.TreeOfDefined | main.js:956-959 | A root exists exactly when there is a node. |
| Hierarchy.CandidateIffParentless | main.js:929-947 | A node is a root candidate exactly when it gets no tree parent. |
| Hierarchy.RootChoice | main.js:946-959 | Several parentless nodes give a virtual root whose children are exactly those nodes, listed as the node-order filter of classes that are no link's target. One parentless node is the root. None at all gives the first node as root. |
| Hierarchy.CandidatesAppend | main.js:947 | The candidate filter over two node lists is the filter over the first followed by the filter over the second. |
| Hierarchy.CandidatesOne | main.js:947 | A single node is a candidate exactly when its id is no link's target. |
| Hierarchy.CandidatesOnce | main.js:947 | With distinct node ids, no candidate is listed twice. |
| Hierarchy.TreeParentIsFirstLink | main.js:935-944 | The tree parent is the source of the first kept link into the class. |
| Hierarchy.ChildrenAreTreeChildren | main.js:935-944 | Every node has a children list. It holds exactly its tree children, each once. |
| Hierarchy.ParentsRecorded | main.js:918-931 | `parents` holds exactly the node sources of input links into the class. |
| Hierarchy.EdgePartition | main.js:1082-1109 | A secondary link is drawn and is not a tree edge. A drawn relationship is a tree edge or secondary. |
| Hierarchy.DiamondExample | main.js:908-959 | For A→B, A→C, B→D, C→D: the root is A, A's children are [B, C], D's tree parent is B, and C→D is the only secondary link. |
| Layout.MinDistance | main.js:1005-1007 | The required gap between neighbours is half of each box width, at least 20. |
| Layout.DescendsDeeper | main.js:1027-1035 | A descendant lies on a deeper level than its ancestor. |
| Layout.IsDescendant | main.js:1027-1035 | The parent-pointer walk answers exactly whether `a` is a proper ancestor of `n`. |
| Layout.ShiftSubtree | main.js:1013-1021 | The current node and exactly its proper descendants move by the shift; nothing else moves. |
| Layout.AtDepthSpec | main.js:983-990 | A level lists exactly the nodes at that depth, in tree order. |
| Layout.GroupByLevel | main.js:983-990 | There is one group per occurring depth, holding exactly that level's nodes. |
| Layout.Insert | main.js:997 | Inserting keeps indices valid and adds exactly one element. |
| Layout.InsertSorted | main.js:997 | Inserting into a list sorted by `x` keeps it sorted. |
| Layout.SortByX | main.js:997 | The level sorted by `x` is a permutation of the level and is sorted. |
| Layout.SortByXStable | main.js:997 | The sort is stable: the nodes sharing one `x` keep their level order. |
| Layout.LevelSeparated | main.js:1000-1023 | Once a level's sorted list is spread, every two nodes of that level are at least their minimum distance apart. |
| Layout.PushedSpec | main.js:1005-1021 | One push leaves the current node at least the minimum distance right of the previous one, moves nothing else on this or a shallower level, moves nothing left, and changes nothing when the gap already suffices. |
| Layout.PushApart | main.js:1005-1021 | The new positions are exactly those of one push: when the gap is short, the current node and its descendants move right by the shortfall. The current node is then far enough right, nothing else on this or a shallower level moves, and nothing moves left. |
| Layout.SweptSpec | main.js:1000-1023 | Pushing each consecutive pair in turn spreads the sorted level, moves no other node of this or a shallower level, and moves nothing left. |
| Layout.SweepLevel | main.js:1000-1023 | The new positions are exactly those of the pushes over consecutive pairs, in order. Each consecutive pair ends far enough apart. Nodes on this and shallower levels that are not in the level do not move. No node moves left. |
| Layout.AdjustedEmpty | main.js:993-1024 | A depth no node has changes nothing and is trivially separated. |
| Layout.AdjustedSpec | main.js:993-1023 | Sorting and sweeping one level separates it, leaves shallower levels unchanged and moves nothing left. |
| Layout.AdjustLevel | main.js:993-1023 | The new positions are exactly the sort-then-sweep of one level. Afterwards it is separated, shallower levels are unchanged and nothing moves left. |
| Layout.AdjustedSettles | main.js:993-1024 | If the levels above a depth are separated, adjusting that depth keeps them so and separates it too. |
| Layout.ResolvedSpec | main.js:993-1024 | Adjusting the levels 0 to n-1 in turn leaves each of them separated. |
| Layout.ResolvedSeparated | main.js:993-1024 | Adjusting every depth in increasing order leaves every level separated. |
| Layout.ResolveOverlaps | main.js:993-1024 | The new positions are exactly those of adjusting the levels in increasing depth. Every level is then separated, and no node has moved left. |
| Branch.FindSubclasses | main.js:1284-1292 | When no cycle can be reached forward from the class, the recursion adds exactly the classes reachable forward. Cycles elsewhere in the links do not matter. |
| Branch.FindSuperclasses | main.js:1295-1303 | When no cycle can be reached backward from the class, the recursion adds exactly the classes reachable backward. Cycles elsewhere in the links do not matter. |
| Branch.BelowUnfold | main.js:1285-1290 | The classes below a class are the targets of its links together with everything below them. |
| Branch.FlipReaches | main.js:1297-1299 | Scanning links backward is scanning the reversed links forward. |
| Branch.EndlessRecursion | main.js:1284-1292 | With a cycle through the focal class, `findSubclasses` makes chains of nested calls of every length. |
| Branch.TwoClassCycle | main.js:1284-1292 | A→B with B→A is such a cycle, so it is outside the recursion's precondition. |
| Branch.CycleBelowEndless | main.js:1284-1292 | A cycle reachable forward from the class gives chains of nested calls of every length. So the precondition of `FindSubclasses` is exactly the case in which the recursion ends. |
| Branch.UnrelatedCycle | main.js:1284-1292 | With A→B, C→D and D→C, the recursion from A meets its precondition and finds exactly {B}, although the links have a cycle. |
| Branch.CollectBelow | main.js:1283-1292 | The visited-set traversal returns exactly the classes reachable forward, on any links. |
| Branch.CollectAbove | main.js:1294-1303 | The same traversal over reversed links returns exactly the classes reachable backward. |
| Branch.BranchIds | main.js:1305 | The id set is the focal class plus everything reachable from it forward or backward. |
| Branch.NodesIn | main.js:1307 | The node filter keeps exactly the nodes whose id is in the set. |
| Branch.NodesInAppend | main.js:1307 | Filtering two node lists one after the other gives the two filtered lists joined, so input order is kept. |
| Branch.NodesInOne | main.js:1307 | A single node is kept exactly when its id is in the set. |
| Branch.LinksAmong | main.js:1308 | The link filter keeps exactly the links with both ends in the set. |
| Branch.LinksAmongAppend | main.js:1308 | Filtering two link lists one after the other gives the two filtered lists joined, so input order is kept. |
| Branch.LinksAmongOne | main.js:1308 | A single link is kept exactly when both ends are in the set. |
| Branch.GetBranch | main.js:1278-1310 | Result nodes are the input nodes filtered by the branch set, and result links are the input links filtered by it, both in input order. A node is kept exactly when it is in the branch, a link exactly when both ends are. When everything is in the branch, both come back unchanged. |
| Branch.BranchOfBranchIds | main.js:1278-1310 | Restricting the links to a branch does not change which classes are in that branch. |
| Branch.BranchOfBranch | main.js:1278-1310 | Taking the branch of a branch gives it back: same class set, same nodes, same links. |
| Branch.DiamondBranchOfBottom | main.js:1278-1310 | In the diamond, the branch of D holds every node and link. |
| Branch.DiamondSiblingsApart | main.js:1278-1310 | In the diamond, B and C are not in each other's branch. |
| ClassAxioms.DeclaredName | main.js:363-366 | A record names a class exactly when its `rdf:about` is non-empty, and the name is the resolved `about`. |
| ClassAxioms.SubClassesFromSpec | main.js:384-393 | A record contributes its class exactly when one of its `subClassOf` resolves to the class asked about. |
| ClassAxioms.SubClassesSpec | main.js:361-394 | A class is listed exactly when it is declared, differs from the class asked about, and names that class as a superclass. |
| ClassAxioms.AxiomOf | main.js:374-376 | An `equivalentClass` yields the parse of its first element child, and nothing without one. |
| ClassAxioms.EquivalentsFromSpec | main.js:372-378 | Exactly the axioms that parse are listed, never more than there are elements. |
| ClassAxioms.EquivalentsSpec | main.js:369-380 | Axioms come from every record declaring the class, not only the last. |
| ClassAxioms.TargetRecord | main.js:396-406 | The restrictions are read from the last record declaring the class. |
| ClassAxioms.ResolvedOrNull | main.js:421 | A non-empty resource resolves to a non-empty name; anything else is null. |
| ClassAxioms.RestrictionEntry | main.js:412-437 | There is an entry exactly when the property resource is non-empty and the deciding value resource (`allValuesFrom` when present, else `someValuesFrom`) is non-empty. `allValuesFrom`, when present, sets kind `only` and the value, even over `someValuesFrom`. No value element means no entry. |
| ClassAxioms.PropertiesOfSpec | main.js:410-438 | `objectProperties` has a key exactly for properties with an entry. Each key lists that property's entries in element order. |
| ClassAxioms.SubClassesAndEquivalents | main.js:361-394 | The first pass builds exactly the subclass and equivalent-class lists. |
| ClassAxioms.ParsedAxioms | main.js:371-378 | The equivalent-class loop builds exactly the parsed list. |
| ClassAxioms.NamingRecords | main.js:384-393 | The `subClassOf` loop pushes the class once per matching element. |
| ClassAxioms.GroupRestrictions | main.js:410-438 | The restriction loop builds exactly the grouped map. |
| ClassAxioms.ExtractClassAxioms | main.js:349-439 | The result is the subclasses, the equivalent classes and the target's restriction groups. |
| Search.FindClassesByQuery | main.js:111-141 | A node is returned exactly when it is not the virtual root and its non-empty name, its non-empty id or some label contains the query once lower-cased. |
| Search.FindAppend | main.js:111-141 | Searching two node lists one after the other gives the two result lists joined, so tree order is kept. |
| Search.FindOne | main.js:111-141 | A single node is a result exactly when it matches. |
| Search.VirtualRootNotFound | main.js:121 | The virtual root is never a result. |
| Search.EmptyQuery | main.js:123-134 | The empty query finds every non-root node that has a non-empty name or id, or a label. |
| Search.NarrowingQuery | main.js:123-134 | Extending the query never adds results. |

## Left out

- DOM, event wiring, the search box, the info-panel HTML and the property comment box. `renderEquivalentAxiom` is modelled as the visible text only: the labels and keywords without the surrounding HTML spans and links.
- Loading the file (`FileReader`, `fetch`, `DOMParser`). The parsed document enters as `ClassRecord` values and `Element` trees. Descendant queries such as `querySelectorAll('rdfs\:label')` are taken as already resolved into those records.
- d3 is not part of this model: `d3.tree`, `d3.hierarchy`, zoom, drag, transitions and path strings. The overlap sweep takes d3's `x`, `depth` and parent pointers as inputs, and `treeData.links()` is taken as the tree edges. The sweep's `Math.round(node.depth)` is the identity on d3's integer depths. Levels are taken in increasing order, which is the order `Object.keys` gives for integer keys.
- Floating point. Positions are `real`. Box widths count characters, not UTF-16 code units.
- `window.currentLanguage` and the global tree state are parameters. `toLowerCase` in search is a function parameter, and the query comes already trimmed and lower-cased, as the caller prepares it.
- The MALFO annotation lookup at the end of `extractClassAxioms` and its `return {}` when no document is loaded.
- The `type: 'subClassOf'` field of links is always the same and is not kept. The `treePath` array is modelled as the tree-parent map.
- Hierarchy.BuildHierarchy: with no nodes the code fails on `data.nodes[0].id`. The model returns `None` instead.
- Hierarchy.InTree: whether a class is drawn is decided by following tree parents up to a top within `|nodes|` steps. With no parentless node the first node is the root, so a tree-parent cycle (A's first parent B, B's first parent A) reaches it. d3 would then walk the children lists without end, which is d3's own traversal and not modelled.
- Node ids are compared as plain strings. A class whose id is a JavaScript prototype key (`constructor`, `__proto__`) behaves differently in the code's plain-object maps, and this is not modelled. The same holds for `objectProperties` in `extractClassAxioms`.
- ClassAxioms.PropertiesOf: `objectProperties` is a map, so the key order of the JavaScript object is not kept. In the code, keys iterate with integer-like names first in ascending order and then the others in first-insertion order. The info panel lists the restrictions in that order (main.js:695). The model keeps only which keys exist and each key's entries in element order.
- Hierarchy.InTree: the id clash between a real class named `OntologyRoot` and the virtual root is not modelled. The code keys `nodeById` by id (main.js:1076-1079), so when the virtual root is drawn, a link into a real `OntologyRoot` that is not itself drawn finds the virtual root as its target (main.js:1091-1106). For nodes P, Q, `OntologyRoot`, Z with links Z→`OntologyRoot`, `OntologyRoot`→Z, P→`OntologyRoot`, the code draws P→`OntologyRoot` as a secondary link into the virtual root, while `InTree` leaves `OntologyRoot` out of the tree and the model draws no secondary link.
- Layout.MinDistance: each node gets the box width of its own name. The code keys `boxWidths` by id (main.js:978), so when a real class `OntologyRoot` and the virtual root are both drawn, one width is used for both. This case is not modelled.
- Branch.FindSubclasses and Branch.FindSuperclasses thread the shared `Set` through as a value instead of mutating a closure variable. When no cycle is reachable they also revisit classes reached along several paths, as the code does. The cost of that repetition is not stated.
- The unused `nodeMap` copy at main.js:1280-1281 has no effect on the result and is not modelled.

## Findings

| source | as written | input that shows it | evidently intended | confidence | as-written member | corrected member |
|---|---|---|---|---|---|---|
| main.js:1284-1303 | `findSubclasses` and `findSuperclasses` recurse into every link's far end without checking whether the class was already collected | links A→B and B→A (or a single A→A), branch of A: the recursion never returns, so the stack overflows | collect each class once (a visited-set guard), so that any link set, cyclic or not, gives the reachable classes | not executed | Branch.EndlessRecursion | Branch.CollectBelow |

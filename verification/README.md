# A proved model of the GB28181 device

The device registers with a surveillance platform, describes itself in XML, and sends video as an MPEG program stream
over RTP. This project models the parts of it that compute something difficult and proves what they promise:

- the XML and XPath engine: the query optimiser, the evaluator with its shortcuts, the walks along the axes, the editing
  and copying of trees, decoding and parsing in the buffer itself, printing, sorting and deduplicating node sets, the
  paged allocator, and integers on wrapping arithmetic;
- the media path: bit fields and headers of a program stream, muxing and demuxing, fragmentation and reassembly over
  RTP, and the bounded queue, for every interleaving of the threads;
- two further protocols, the worker pool of the HTTP server and the creation and reaping of channels, and the chunked
  coding of HTTP bodies.

`dafny verify dfyconfig.toml` checks all of it.

## How it is built

What the program does step by step on memory is a class or a method on arrays here, with the same fields, branches and
constants; its contract ties it to a specification in functions, about which the theorems are proved. What the program
computes by recursion is a function.

- **XPath.** `XPathSpec` evaluates a query with mathematical sets and proximity positions, as XPath 1.0 defines it.
  `XPathEngine` evaluates it as the library does, on sequences with an order tag, in three modes, with every shortcut.
  `XPathCorrectness` proves that the engine refines the specification, `XPathOptimizer` that rewriting a query keeps
  its meaning, `XPathNormalForm` that nothing is left to rewrite. `XPathLaws`, `XPathNodeTests`, `XPathComparison` and
  `XPathStrings` say what the specification selects and compares, in terms of the nodes. All see a document as a layout
  in document order (`Document`): a parent and a subtree size for each node.
- **Trees.** `AxisWalk`, `NodeOrder` and `XmlOutput` walk the linked nodes themselves; `DomLists`, `DomTree` and
  `DomCopy` change them. `DomLayout` joins the two: the invariant editing keeps yields the layout the walks require.
- **Text.** `XmlText` says what a run of text means; `XmlDecode` decodes it in place, behind a moving gap. `XmlParse` is
  the parser as a function of the bytes, `XmlParseInPlace` the loop that overwrites the buffer it reads. `XmlGrammar`
  says what texts are made of and what they mean; `XmlLanguage` proves that the parser accepts exactly these,
  `XmlRefusals` what it says of others. `XmlReadBack`, `XmlWhiteSpace` and `XmlRoundTrip` close the circle from printing
  to parsing, under all options.
- **Media.** `PsBits`, `PsHeaders` and `PsMux` work on byte arrays, with an `advancing` flag that tells the code as
  written from what it is meant to do. `RtpProtocol` lists the steps of sender, receiver and queue users, `RtpRuns`
  proves what every run keeps, and `RtpPath` ties the program's methods to the steps.

Two conventions: large facts are kept folded, as the header of `Basics` explains; and lemmas say `{:induction false}`
where they do their own induction or need none.

## Findings

Properties that are false of the code, with the condition under which they hold:

- tdPs/src/TdPs.cpp:375 sets the data offset where it should advance it. From the third packet on the muxer repeats the
  second payload (and for a last packet, its beginning). A frame survives muxing and demuxing exactly if it is shorter
  than 2^21 bytes and repeats itself with period 64974 from the second payload on, in particular if it has at most
  2 * 64974 bytes (`PsMux.WrittenFaithful`; `PsMux.LongFrameDamaged` for the next size). With an advancing offset,
  exactly the size limit remains (`PsMux.AdvancingFaithful`).
- tdGb28181/src/TdPugixml.cpp:4564: with an unsigned type of 16 bits, `0 - minv` is a negative `int`, so every negative
  value is read as the smallest one. The result is the value brought into range exactly under the condition of
  `XmlIntegers.InRangeIff`; `XmlIntegers.ShortMinusOne` is an input. The library uses 32 and 64 bits only.
- tdGb28181/src/TdPugixml.cpp:8073-8078: where no addresses decide, an attribute precedes itself (`NodeOrder.Compare`).
  With such a pivot the partition leaves no equal part (`Sorting.PartitionOk`), and a range longer than sixteen can be
  left as it was for ever (`SortingEnds.StuckRound`). The sort ends for every arrangement of some entries if and only
  if none that precedes itself is repeated, unless with its copies at most sixteen entries precede it
  (`SortingEnds.EndsIff`); for copies of one such entry, if and only if there are at most sixteen
  (`SortingEnds.CopiesIff`). The sets that evaluation sorts repeat no entry (`NodeSets.HonestIsSortable`); sets handed
  in by a caller may.
- tdGb28181/src/TdPugixml.cpp:8031-8032: an element whose name has been replaced, but whose embedded value still lies in
  the buffer, is compared by the address of the value, which lies behind its attributes; they are then taken to come
  first (`BufferOrder.RenamedElement`). The comparator is right about every pair if and only if there is no such element
  (`BufferOrder.ComparatorIff`).
- tdGb28181/src/TdPugixml.cpp:1498-1506: the UTF-8 writer and the decoder agree exactly on codes below 2^21
  (`XmlUtf8.Utf8Exact`).
- tdGb28181/src/TdPugixml.cpp:7919-7942: the string-value of an element takes embedded texts from the element itself
  only. It is the one of section 5 of XPath 1.0 if and only if no element below has an embedded text
  (`XPathStrings.StringValueIff`); `XPathStrings.EmbeddedIsMissed` is an input.
- tdGb28181/src/TdPugixml.cpp:9577-9640: in `<`, `<=`, `>` and `>=` a node set is not converted to a boolean when the
  other operand is one, as section 3.4 of XPath 1.0 asks (`XPathComparison.EmptySetAgainstTrue`);
  `XPathComparison.RelationMeans` says what is compared.
- tdGb28181/src/TdPugixml.cpp:3458 and 3532-3534: a `<` at the end of a fragment, behind text, is passed over if a
  terminator follows, and refused if none does (`XmlLanguage.StrayBracket`). It is the only text that is accepted
  without being made of whole tags and texts, the replaced last `>` aside (`XmlLanguage.ParseIff`).
- tdGb28181/src/TdPugixml.cpp:3517-3519: the last byte of a buffer is overwritten. A fragment that ends with a text and
  has no terminator loses it (`XmlLanguage.LastByteLost`).
- tdServer/inc/httplib.h:3126-3128 and 3182-3194: an empty payload counts as the end of the data. If it is the last
  thing a call of the provider does, the writer stops and reports success without having written the last chunk
  (`ChunkedCoding.EmptyPayloadStops`); it does the same when the server shuts down (`ChunkedCoding.ShutDownMidway`).
  The body is read back if and only if the call that stops the writer says `done`, once and, empty payloads aside,
  last, no call before it says `done`, and no payload has the size ULONG_MAX, which line 2911 refuses
  (`ChunkedCoding.BodyReadBack`).
- tdServer/inc/httplib.h:2921: reading succeeds when a chunk is followed by a line that is not empty
  (`ChunkedGrammar.MissingLineEnd`); `ChunkedGrammar.SuccessIff` says exactly which inputs are accepted.
- tdServer/inc/httplib.h:2926-2930: a trailer behind the last chunk is refused. A body of the standard is read if and
  only if it has none, and no chunk of size ULONG_MAX (`ChunkedGrammar.StandardRead`).
- tdServer/inc/httplib.h:511-516: a pool of no workers accepts jobs and never starts them (`WorkerPool.NoWorkerNoWork`);
  all jobs are done in all runs if and only if there is a worker (`WorkerPool.OneWorkerIff`).
- tdChannel/src/TdChanManager.cpp:58-96: the map is not locked between looking and storing. A child is lost exactly
  when a record is stored over another one (`Channels.OwnershipIff`). With one creating thread, as in the program, that
  cannot happen; with two or more it can (`Channels.OneCreatorIff`).
## Model

| member | source | states |
|---|---|---|
| XPathOptimizer.OptimizePreservesMeaning | tdGb28181/src/TdPugixml.cpp:10931-11009 | For every document, query, context and variable binding, the optimised query has the value of the query as parsed; position and size of the context included. |
| XPathOptimizer.OptimizedQueryIsCorrect | tdGb28181/src/TdPugixml.cpp:10804-11055 | Optimising and then evaluating with every shortcut gives the reference value: scalars are equal, and a node set delivers what its mode (all, first, any) promises of the reference set, with an honest order tag. |
| XPathOptimizer.OptimizeReady | tdGb28181/src/TdPugixml.cpp:10931-10968 | The rewritten query is well typed and every predicate class it carries is justified, which is what the evaluator relies on when it trusts the class. |
| XPathOptimizer.DropPositionOk | tdGb28181/src/TdPugixml.cpp:10946-10955 | `[position() = e]` accepts a node exactly if `[e]` does, for numeric `e`; other conditions are left alone. |
| XPathOptimizer.MergedIsDetour | tdGb28181/src/TdPugixml.cpp:10970-10984 | From every starting point, attributes included, the merged step reaches a node exactly if some node of `descendant-or-self::node()` reaches it by the original step, for every chain of positionally invariant predicates. |
| XPathOptimizer.MergeOk | tdGb28181/src/TdPugixml.cpp:10970-10984 | Collapsing `//` into one descendant or descendant-or-self step selects the same set, whatever stands to the left of it. |
| XPathOptimizer.TableAgrees | tdGb28181/src/TdPugixml.cpp:8481-8563 | Whenever a table is generated, translating by it equals translating by search, for every string. |
| XPathOptimizer.TranslateOk | tdGb28181/src/TdPugixml.cpp:10986-10998 | `translate` with two constants has the value of its table form. |
| XPathOptimizer.CompareAttributeOk | tdGb28181/src/TdPugixml.cpp:11000-11008 | `@name = value` with a string constant or a string variable has the value of the direct comparison with the first attribute of that name. |
| XPathNormalForm.OptimizeIsNormal | tdGb28181/src/TdPugixml.cpp:10931-11009 | One pass over a parsed query leaves nothing that a rewriting applies to: no position compared with a number, no `//` in front of a step that could absorb it, no translation that a table could do, no attribute comparison still a path, and every predicate in its best class. |
| XPathNormalForm.NormalIsFixed | tdGb28181/src/TdPugixml.cpp:10946-11009 | A query with nothing to rewrite is left as it is. |
| XPathNormalForm.OptimizeTwice | tdGb28181/src/TdPugixml.cpp:10931-11009 | So a second pass changes nothing. |
| XPathSpec.PosinvIsSound | tdGb28181/src/TdPugixml.cpp:11011-11040 | An expression the syntactic check accepts has the same value at every position and for every size. |
| XPathRefinement.PickOnOrdered | tdGb28181/src/TdPugixml.cpp:9700-9726 | Picking by index equals filtering by proximity position, for any number: fractions, negatives, not-a-number and sizes included. |
| XPathRefinement.KeepOnOrdered | tdGb28181/src/TdPugixml.cpp:9648-9698 | Filtering an ordered sequence node by node, and stopping at the first hit when one is enough, equals selecting by proximity position. |
| XPathRefinement.KeepPosinv | tdGb28181/src/TdPugixml.cpp:9648-9672 | A positionally invariant predicate may be applied to an unsorted set, and stopped early where the mode allows it. |
| XPathCorrectness.ApplyPredicateOk | tdGb28181/src/TdPugixml.cpp:9728-9740 | Whichever of the three filters the class selects, it keeps what the predicate selects on that axis. |
| XPathCorrectness.ApplyPredicatesOk | tdGb28181/src/TdPugixml.cpp:9742-9750 | A chain of predicates keeps what the chain selects, positions being counted anew behind each; with `once`, a first node of it. |
| XPathCorrectness.StopForOneIsPick | tdGb28181/src/TdPugixml.cpp:10158-10162 | For a step with the one predicate `[1]`, filling may stop at the first node pushed. |
| XPathCorrectness.StepAllOk | tdGb28181/src/TdPugixml.cpp:10169-10184 | Appending the results for all nodes of the left set keeps the gathered sequence equal to the union, and tells whether it may still be called sorted. |
| XPathCorrectness.StepOk | tdGb28181/src/TdPugixml.cpp:10152-10198 | A location step delivers what its mode promises of the reference step, duplicates removed where they can occur. |
| XPathCorrectness.FilterOk | tdGb28181/src/TdPugixml.cpp:10826-10838 | A filter expression delivers what its mode promises, sorted before positions are counted. |
| XPathCorrectness.FirstByIndex | tdGb28181/src/TdPugixml.cpp:10828-10828 | For `(expr)[1]`, evaluating `expr` for its first node only is enough. |
| XPathCorrectness.RunSetOk | tdGb28181/src/TdPugixml.cpp:10804-10900 | By induction over the query: every node-set expression refines its reference value in every mode. |
| XPathCorrectness.ScalarOk | tdGb28181/src/TdPugixml.cpp:10249-10795 | Every boolean, number and string expression has its reference value. |
| XPathCorrectness.BoolOk | tdGb28181/src/TdPugixml.cpp:10249-10384 | Conversion to a boolean, with node sets evaluated for any node only, agrees with the reference. |
| XPathCorrectness.NumOk | tdGb28181/src/TdPugixml.cpp:10386-10520 | Conversion to a number agrees with the reference. |
| XPathCorrectness.StrOk | tdGb28181/src/TdPugixml.cpp:10564-10795 | Conversion to a string, with node sets evaluated for their first node only, agrees with the reference. |
| XPathSequences.StepNodesOk | tdGb28181/src/TdPugixml.cpp:9867-10150 | The list of a step is ordered along its axis, without repetition, and holds exactly the nodes the step selects (section 2.2 of XPath 1.0). |
| XPathSequences.FirstNodeOk | tdGb28181/src/TdPugixml.cpp:8792-8848 | The first node of a set, found by its order tag, is its first in document order. |
| XPathNodeTests.TestsByKind | tdGb28181/src/TdPugixml.cpp:9792-9865 | Section 2.3 of XPath 1.0: on every axis but the attribute one, `*` gives exactly the elements among the nodes of the axis; `text()` the PCDATA and CDATA nodes; `comment()` and `processing-instruction()` those of their kind. |
| XPathNodeTests.TestsByName | tdGb28181/src/TdPugixml.cpp:9800-9859 | A name gives the part of `*` with that name, a prefix the part of `*` whose names begin so, and a target the part of `processing-instruction()` with that name. |
| XPathNodeTests.TestsAreApart | tdGb28181/src/TdPugixml.cpp:9792-9865 | The sets of `*`, `text()`, `comment()` and `processing-instruction()` are pairwise disjoint. |
| XPathNodeTests.NodeIsAll | tdGb28181/src/TdPugixml.cpp:9819-9822 | `node()` gives all nodes of the axis. |
| XPathNodeTests.AttributeTests | tdGb28181/src/TdPugixml.cpp:9752-9790 | The attribute step by name, by prefix and for all: which attributes it gives, namespace declarations left out. |
| XPathNodeTests.FilledByKind | tdGb28181/src/TdPugixml.cpp:9867-10058 | What the pointer walk of any axis has pushed, said of kinds and names alone. |
| XPathNodeTests.FilledIs | tdGb28181/src/TdPugixml.cpp:9867-10058 | A node has been pushed exactly if it belongs to the step. |
| XPathComparison.EqualityMeans | tdGb28181/src/TdPugixml.cpp:9484-9569 | `=` and `!=` for operands of all types: of two node sets, some pair of nodes; of a node set and a number or a string, some node; as booleans if one operand is one (section 3.4 of XPath 1.0). |
| XPathComparison.RelationMeans | tdGb28181/src/TdPugixml.cpp:9577-9640 | `<`, `<=`, `>`, `>=`: some number that the one operand offers lies below some number the other offers, infinities and not-a-number included. |
| XPathComparison.EmptySetAgainstTrue | tdGb28181/src/TdPugixml.cpp:9627-9642 | A node set is not converted when the other operand of a relation is a boolean: an input. |
| XPathComparison.OrAndMean | tdGb28181/src/TdPugixml.cpp:10253-10257 | Connectives are said of what counts as true: nodes, characters, numbers below or above zero. |
| XPathComparison.NotMeans | tdGb28181/src/TdPugixml.cpp:10297-10301 | `not` and `boolean` likewise. |
| XPathComparison.ConvertedMeans | tdGb28181/src/TdPugixml.cpp:10564-10795 | Truth as a number and as a string, and the first node standing for its set. |
| XPathComparison.CountMeans | tdGb28181/src/TdPugixml.cpp:10417-10422 | `count` is the number of nodes of its set. |
| XPathLaws.RootReachesAll | tdGb28181/src/TdPugixml.cpp:10893-10902 | `/descendant-or-self::node()` is every tree node, from every context. |
| XPathLaws.PathMeans | tdGb28181/src/TdPugixml.cpp:10152-10198 | A step leads on from every node of the path in front of it, and nothing else is reached. |
| XPathLaws.KthNode | tdGb28181/src/TdPugixml.cpp:9674-9726 | `[k]` keeps the node with exactly k - 1 others in front of it, in the direction of the axis. |
| XPathLaws.LastNode | tdGb28181/src/TdPugixml.cpp:9674-9698 | `[last()]` keeps the node with all others in front of it. |
| XPathLaws.NodesWhere | tdGb28181/src/TdPugixml.cpp:9648-9672 | Any other predicate keeps the nodes of which it is true at their place among the others. |
| XPathLaws.StepsSelect | tdGb28181/src/TdPugixml.cpp:9742-9750 | The predicates of a step apply in turn, each counting among the nodes that the one before has left, against document order on the four reverse axes. |
| XPathLaws.FiltersSelect | tdGb28181/src/TdPugixml.cpp:10826-10838 | A filter counts in document order whatever its base. |
| XPathLaws.UnionMeans | tdGb28181/src/TdPugixml.cpp:10808-10824 | A union holds the nodes of both sets and no others. |
| XPathLaws.OperandsAre | tdGb28181/src/TdPugixml.cpp:10249-10795 | Which operators look at their operands as truth values, numbers, strings or nodes (section 4 of XPath 1.0). |
| XPathLaws.ResultsAre | tdGb28181/src/TdPugixml.cpp:10249-10795 | And which of them yield truth values, numbers or strings. |
| XPathStrings.StringValueOf | tdGb28181/src/TdPugixml.cpp:7897-7949 | The walk through a subtree gathers the string-value: the value of the node, and the text nodes below it in document order. |
| XPathStrings.StringValueIff | tdGb28181/src/TdPugixml.cpp:7911-7942 | It is the string-value of section 5 of XPath 1.0 if and only if no element below the node has an embedded text. |
| XPathStrings.EmbeddedIsMissed | tdGb28181/src/TdPugixml.cpp:7919-7924 | An element whose child has an embedded text: the text is not in the string-value. |
| AxisWalk.StepFill | tdGb28181/src/TdPugixml.cpp:9867-10058 | On every linked tree the pointer walk of every axis ends and pushes exactly the nodes of the step, in axis order; with `once`, the first of them only. |
| AxisWalk.StepFillAttribute | tdGb28181/src/TdPugixml.cpp:10060-10139 | The same from an attribute. |
| AxisWalk.FillDescendant | tdGb28181/src/TdPugixml.cpp:9891-9921 | The descendant walk: down, right, or up until there is a right, back to where it began. |
| AxisWalk.FillFollowing | tdGb28181/src/TdPugixml.cpp:9941-9976 | The following walk, which leaves the subtree first. |
| AxisWalk.FillPreceding | tdGb28181/src/TdPugixml.cpp:9978-10018 | The preceding walk over the half-cyclic sibling list, which steps over ancestors. |
| AxisWalk.FillPrecedingSibling | tdGb28181/src/TdPugixml.cpp:9932-9939 | The walk back along siblings ends at the first child although its back link leads to the last. |
| AxisWalk.FillAncestor | tdGb28181/src/TdPugixml.cpp:10020-10038 | The ancestors, nearest first. |
| AxisWalk.NodeIsAncestor | tdGb28181/src/TdPugixml.cpp:8018-8023 | True exactly for the node itself and its ancestors. |
| AxisWalk.AxesPartitionTree | tdGb28181/src/TdPugixml.cpp:9891-10045 | Ancestor, descendant, following, preceding and self share out the tree: every node is on exactly one of them. |
| AxisWalk.AxesByParentLinks | tdGb28181/src/TdPugixml.cpp:9891-10045 | The interval reading of the axes is their reading by parent links and document order. |
| DomLists.AppendNode | tdGb28181/src/TdPugixml.cpp:1231-1250 | On a well-linked list of siblings: the new list is the old one with the child behind it, well linked. |
| DomLists.PrependNode | tdGb28181/src/TdPugixml.cpp:1252-1268 | The child in front. |
| DomLists.InsertNodeAfter | tdGb28181/src/TdPugixml.cpp:1270-1285 | The child behind a given one. |
| DomLists.InsertNodeBefore | tdGb28181/src/TdPugixml.cpp:1287-1302 | The child before a given one. |
| DomLists.RemoveNode | tdGb28181/src/TdPugixml.cpp:1304-1321 | The list without that child, whose links are cleared. |
| DomTree.DomDocument.Allocate | tdGb28181/src/TdPugixml.cpp:1182-1189 | A fresh node is known to the document and in no list. |
| DomTree.DomDocument.AppendChild | tdGb28181/src/TdPugixml.cpp:5799-5814 | Refused exactly if the kinds do not fit, and then nothing changes; otherwise exactly one list changes, and the document stays an acyclic, well-linked tree. |
| DomTree.DomDocument.PrependChild | tdGb28181/src/TdPugixml.cpp:5816-5831 | The same, in front. |
| DomTree.DomDocument.InsertChildBefore | tdGb28181/src/TdPugixml.cpp:5833-5849 | The same, before a child; refused also if that is no child of this node. |
| DomTree.DomDocument.InsertChildAfter | tdGb28181/src/TdPugixml.cpp:5851-5867 | The same, behind a child. |
| DomTree.DomDocument.AllowMove | tdGb28181/src/TdPugixml.cpp:4365-4387 | True exactly if the kinds fit, the document is the same and the new parent does not lie in the subtree moved. |
| DomTree.DomDocument.AppendMove | tdGb28181/src/TdPugixml.cpp:5975-5989 | Moves a subtree: one list loses the node, one gains it, and the tree stays acyclic; refused exactly when the move is not allowed. |
| DomTree.DomDocument.PrependMove | tdGb28181/src/TdPugixml.cpp:5991-6005 | The same, in front. |
| DomTree.DomDocument.InsertMoveAfter | tdGb28181/src/TdPugixml.cpp:6007-6023 | The same, behind a child, which must not be the node moved. |
| DomTree.DomDocument.InsertMoveBefore | tdGb28181/src/TdPugixml.cpp:6025-6041 | The same, before a child. |
| DomTree.DomDocument.RemoveChild | tdGb28181/src/TdPugixml.cpp:6067-6078 | The child and all below it leave the document; every other list stays as it was. |
| DomKinds.AllowedIff | tdGb28181/src/TdPugixml.cpp:4356-4363 | Which kinds may stand below which, by a table: texts, comments and instructions hold nothing, only a document holds a declaration or a document type, and no document stands below anything. |
| DomKinds.KindsMean | tdGb28181/src/TdPugixml.cpp:4356-4387 | In every document whose lists obey the table only the root is a document, and declarations and document types stand only below it. |
| DomKinds.Fresh | tdGb28181/src/TdPugixml.cpp:1143-1145 | A new document obeys it. |
| DomKinds.PlaceNew | tdGb28181/src/TdPugixml.cpp:5799-5867 | Adding a node, if it is let in, keeps that. |
| DomKinds.Move | tdGb28181/src/TdPugixml.cpp:5975-6041 | So does moving a subtree, |
| DomKinds.RemoveNode | tdGb28181/src/TdPugixml.cpp:6067-6078 | removing one |
| DomKinds.CopyKeepsKinds | tdGb28181/src/TdPugixml.cpp:5905-5973 | and copying one. |
| DomLayout.ValidDocumentHasLayout | tdGb28181/src/TdPugixml.cpp:1112-1130 | The link invariant that editing keeps is what the axis walks, the comparator and the printer require: the nodes of every valid document, in document order, are linked as a well-formed layout prescribes. |
| DomCopy.NodeCopyTree | tdGb28181/src/TdPugixml.cpp:4426-4470 | The walk ends and copies the whole source, also when the copy lies inside it; allocation succeeds. |
| DomCopy.CopyRound | tdGb28181/src/TdPugixml.cpp:4436-4469 | One round copies one more node in document order, never one of the copies, and leaves the destination cursor at the image of the parent of the source cursor. |
| DomCopy.ClimbToNext | tdGb28181/src/TdPugixml.cpp:4456-4468 | Going up, both cursors go up in step. |
| DomCopy.CopyIsIsomorphic | tdGb28181/src/TdPugixml.cpp:4426-4470 | When the walk is over, the copy is isomorphic to the source as it was before the copy was linked in. |
| DomCopy.AppendCopy | tdGb28181/src/TdPugixml.cpp:5905-5920 | The new child is last, its subtree is fresh and isomorphic to the prototype as it was, with the same contents; all other lists are unchanged. The prototype may contain the parent. |
| DomCopy.PrependCopy | tdGb28181/src/TdPugixml.cpp:5922-5937 | The same, in front. |
| DomCopy.InsertCopyAfter | tdGb28181/src/TdPugixml.cpp:5939-5955 | The same, behind a child. |
| DomCopy.InsertCopyBefore | tdGb28181/src/TdPugixml.cpp:5957-5973 | The same, before a child. |
| XmlDecode.Gap.Push | tdGb28181/src/TdPugixml.cpp:2415-2429 | Opening a gap keeps the text decoded so far and touches nothing outside. |
| XmlDecode.Gap.Flush | tdGb28181/src/TdPugixml.cpp:2432-2443 | Closing the gap leaves the decoded text in one piece. |
| XmlDecode.StrconvEscape | tdGb28181/src/TdPugixml.cpp:2446-2584 | A reference is decoded in place as the pure function says, or stepped over; what is written never reaches what is still to be read. |
| XmlReferences.NumericDecoded | tdGb28181/src/TdPugixml.cpp:2454-2536 | With numerals from tables of digits: `&#..;` and `&#x..;`, with small, capital or mixed letters and any zeros in front, are decoded to the UTF-8 form of the code modulo 2^32, and the decoder goes on behind the semicolon. |
| XmlReferences.UnendedStays | tdGb28181/src/TdPugixml.cpp:2454-2536 | Without a semicolon the bytes stay as they are. |
| XmlReferences.EntitiesDecoded | tdGb28181/src/TdPugixml.cpp:2538-2584 | The five predefined entities, by their names. |
| XmlReferences.ValueOfReference | tdGb28181/src/TdPugixml.cpp:2446-2584 | Such a reference alone is the whole value of character data and of attributes. |
| XmlReferences.DecodeInPlace | tdGb28181/src/TdPugixml.cpp:2446-2584 | In the buffer: the code stands where the reference began, and nothing outside has changed. |
| XmlDecode.ParsePcdata | tdGb28181/src/TdPugixml.cpp:2657-2706 | In place, character data becomes what the pure decoder says (sections 2.11 and 4.1 of XML 1.0), for all settings of trimming, line ends and references. |
| XmlDecode.ParseSimple | tdGb28181/src/TdPugixml.cpp:2850-2874 | An attribute value, references only. |
| XmlDecode.ParseEol | tdGb28181/src/TdPugixml.cpp:2818-2848 | An attribute value, line ends converted. |
| XmlDecode.ParseWconv | tdGb28181/src/TdPugixml.cpp:2782-2816 | An attribute value, white space converted. |
| XmlDecode.ParseWnorm | tdGb28181/src/TdPugixml.cpp:2730-2780 | An attribute value, white space collapsed and trimmed. |
| XmlParseInPlace.StrconvAttribute | tdGb28181/src/TdPugixml.cpp:2877-2901 | The option bits choose the right one of the four. |
| XmlValues.ValueMeans | tdGb28181/src/TdPugixml.cpp:2730-2874 | What raw bytes without references become as an attribute value: themselves; with line ends as line feeds; with every white byte or line end a blank; or their words with one blank between each two (sections 2.11 and 3.3.3 of XML 1.0). |
| XmlValues.TextMeans | tdGb28181/src/TdPugixml.cpp:2657-2706 | What they become as a text: line ends converted or not, white space at both ends dropped or not. |
| XmlValues.ValueAnywhere | tdGb28181/src/TdPugixml.cpp:2730-2901 | The value, references included, depends on the bytes up to the quotation mark alone. |
| XmlLocal.SameRun | tdGb28181/src/TdPugixml.cpp:2446-2901 | Two runs of the same bytes give the same, wherever they stand and whatever follows. |
| XmlEscape.TextOutputEscaped | tdGb28181/src/TdPugixml.cpp:3906-3956 | The writer, which copies runs of usual characters, writes the escaped form of the string byte by byte. |
| XmlEscape.AttributeRoundTrip | tdGb28181/src/TdPugixml.cpp:3906-3956 | Every NUL-free attribute value survives writing and reading, with white space untouched, line ends converted or white space converted. |
| XmlEscape.ContentRoundTrip | tdGb28181/src/TdPugixml.cpp:3906-3956 | Every NUL-free text survives as character data without line-end conversion; with it, exactly the texts without a carriage return. |
| XmlEscape.NormalizedRoundTrip | tdGb28181/src/TdPugixml.cpp:3906-3956 | With full normalisation a value is read back as its normal form; exactly the normal values survive. |
| XmlEscape.DroppingControls | tdGb28181/src/TdPugixml.cpp:3906-3956 | Leaving out control characters while writing is writing the text without them. |
| XmlSeen.EscapedClean | tdGb28181/src/TdPugixml.cpp:3906-3956 | What is written holds no byte that would end the text or the value, begin a tag or be converted in reading. |
| XmlSeen.EscapedIff | tdGb28181/src/TdPugixml.cpp:3906-3956 | A string is written as it is if and only if it has no such byte and no ampersand. |
| XmlSeen.EmptyPrinted | tdGb28181/src/TdPugixml.cpp:4102-4162 | An empty element in its two forms, and an attribute in either quotation marks. |
| XmlUtf8.Utf8RoundTrip | tdGb28181/src/TdPugixml.cpp:1619-1690 | Decoding what the UTF-8 writer wrote gives back every sequence of codes below 2^21. |
| XmlUtf8.Utf8Exact | tdGb28181/src/TdPugixml.cpp:1469-1512 | A 32-bit code survives exactly if it is below 2^21. |
| XmlParseInPlace.OneAttribute | tdGb28181/src/TdPugixml.cpp:3278-3318 | An attribute is read, its name and value left behind in the buffer, with the same error and offset as the reference. |
| XmlParseInPlace.CloseTag | tdGb28181/src/TdPugixml.cpp:3368-3401 | An end tag is compared with the name in the buffer, whose terminator may be the byte in front of the next text. |
| XmlParseInPlace.ParseTree | tdGb28181/src/TdPugixml.cpp:3242-3478 | The loop, which overwrites the buffer it reads, computes the reference parse of the buffer as it was; names and values stand in the buffer. |
| XmlParseInPlace.ParseBuffer | tdGb28181/src/TdPugixml.cpp:3505-3550 | Parsing a buffer of any contents gives the document, or the error and its offset, of the reference parser; the last byte is replaced and accounted for, and names and values stand in the buffer in document order. |
| XmlOutput.NodeOutputAttributes | tdGb28181/src/TdPugixml.cpp:4074-4100 | Attributes are written as specified. |
| XmlOutput.NodeOutputStart | tdGb28181/src/TdPugixml.cpp:4102-4162 | A start tag, with or without an end, and whether there are children to go on with. |
| XmlOutput.NodeOutput | tdGb28181/src/TdPugixml.cpp:4236-4327 | The pointer walk of the printer writes the recursive printed form of the tree, in the raw format. |
| XmlLanguage.ParseIff | tdGb28181/src/TdPugixml.cpp:3505-3550 | A buffer without a NUL in front of its last byte is parsed to given trees if and only if its text is made of well-formed tags and texts, balanced, that fold to these trees. The two endings that are accepted besides are spelled out: a last `>` that the terminator has replaced, and a `<` too many. |
| XmlGrammar.NamesAre | tdGb28181/src/TdPugixml.cpp:1836-1866 | Which bytes begin a name and which may follow. |
| XmlLanguage.UnbalancedRefused | tdGb28181/src/TdPugixml.cpp:3368-3401 | Well-formed parts that are not balanced are refused for a wrong end tag. |
| XmlRefusals.Reported | tdGb28181/src/TdPugixml.cpp:3242-3478 | What is wrong behind a good beginning is reported with its status and at its byte: an unknown tag, an end tag of another name or not ended, a start tag not ended, and an attribute without an equals sign, without quotation marks, not ended or with a name right behind it. |
| XmlLanguage.StrayBracket | tdGb28181/src/TdPugixml.cpp:3447-3468 | A fragment with a `<` too many behind a text: accepted with a terminator, refused without one. |
| XmlLanguage.LastByteLost | tdGb28181/src/TdPugixml.cpp:3517-3519 | A fragment that ends with a text and no terminator is parsed without its last byte. |
| XmlReadBack.PrintedIsSeen | tdGb28181/src/TdPugixml.cpp:3242-3550 | Under all options, what the parser makes of printed trees is what is seen of them, given without the parser. |
| XmlReadBack.PrintThenParse | tdGb28181/src/TdPugixml.cpp:3242-3550 | With the options that lose nothing, printing the nodes of a document or a fragment and parsing the text gives back the nodes, whether or not a terminator follows. |
| XmlWhiteSpace.WhiteSpace | tdGb28181/src/TdPugixml.cpp:3418-3447 | Printed trees with any white space between their tags: without the two options for it, and whenever texts are trimmed, it is not seen; with the one each run of it is a text, also at the top of a fragment; with the other it is one exactly where it is all that stands in an element. |
| XmlWhiteSpace.SpacingIgnored | tdGb28181/src/TdPugixml.cpp:3428-3431 | So without the options texts that differ in such white space only are parsed alike. |
| XmlWhiteSpace.NoElement | tdGb28181/src/TdPugixml.cpp:3535-3539 | Texts alone, white or not, make no document. |
| XmlRoundTrip.DocumentRoundTrip | tdGb28181/src/TdPugixml.cpp:4236-4327 | Printing and parsing gives back a document laid out in nodes. |
| XmlRoundTrip.Save | tdGb28181/src/TdPugixml.cpp:4236-4327 | A linked document is printed by walking its links. |
| XmlRoundTrip.SaveAndLoad | tdGb28181/src/TdPugixml.cpp:3505-3550 | The printed bytes are parsed in place: what stands in the buffer is the document. |
| XmlRoundTrip.SaveAndLoadSpaced | tdGb28181/src/TdPugixml.cpp:3418-3550 | The same under all options: which white space is left in the buffer as text, and all else as it was. |
| NodeOrder.NodeIsBeforeSibling | tdGb28181/src/TdPugixml.cpp:7951-7973 | For two nodes of one parent, walking on from both tells which is first. |
| NodeOrder.NodeIsBefore | tdGb28181/src/TdPugixml.cpp:7975-8016 | For any two different nodes: document order. |
| NodeOrder.Compare | tdGb28181/src/TdPugixml.cpp:8056-8107 | The slow path of the comparator is document order on nodes and attributes, except that an attribute precedes itself. |
| BufferOrder.PairCompared | tdGb28181/src/TdPugixml.cpp:8025-8064 | In a document of which strings have been replaced and nodes added or removed since parsing: comparing the addresses of two entries is comparing in document order, unless one is an element known by its value and the other an attribute of it. |
| BufferOrder.CompareEntries | tdGb28181/src/TdPugixml.cpp:8056-8107 | The whole comparator on the linked nodes: addresses if both entries have one, else the slow path; document order if nothing is misplaced. |
| BufferOrder.ComparatorIff | tdGb28181/src/TdPugixml.cpp:8056-8107 | The comparator is right about every pair if and only if no element has lost its name but kept its value in the buffer while an attribute of it has an address. |
| BufferOrder.ParsedIsRight | tdGb28181/src/TdPugixml.cpp:8025-8064 | After parsing it is right about every pair, because names and values lie in the buffer in document order. |
| BufferOrder.RenamedElement | tdGb28181/src/TdPugixml.cpp:8031-8032 | An element with an attribute and an embedded value, renamed: the attribute is taken to come first. |
| Sorting.InsertionSort | tdGb28181/src/TdPugixml.cpp:7396-7416 | A sorted permutation, nothing else touched. |
| Sorting.Median3 | tdGb28181/src/TdPugixml.cpp:7418-7428 | The place of the median, by exchanging places. |
| Sorting.MedianIs | tdGb28181/src/TdPugixml.cpp:7418-7428 | It is one of the three places, and the elements at the other two are not after it and not before it. |
| Sorting.PartitionOk | tdGb28181/src/TdPugixml.cpp:7430-7455 | The partition, also when the equal elements outnumber the others: a rearrangement into smaller, equal and larger ones; no equal part at all if the pivot precedes itself, and otherwise not an empty one if the pivot is in the range. |
| Sorting.Partition3 | tdGb28181/src/TdPugixml.cpp:7430-7455 | In place exactly that partition, and nothing else is touched. |
| Sorting.PartitionRound | tdGb28181/src/TdPugixml.cpp:7462-7468 | The partition of a round, around the median of first, middle and last. |
| Sorting.Sort | tdGb28181/src/TdPugixml.cpp:7457-7485 | Sorts every suitable range, with recursion at most as deep as the logarithm of the number of chunks of sixteen. Suitable: an element that precedes itself is repeated only if, with its copies, at most sixteen elements precede it. |
| SortingEnds.EndsIff | tdGb28181/src/TdPugixml.cpp:7457-7485 | The sort ends for every arrangement of some elements if and only if they are suitable. |
| SortingEnds.UnsuitableStays | tdGb28181/src/TdPugixml.cpp:7460-7481 | The arrangement for which it does not end, for any elements that are not. |
| SortingEnds.StuckRound | tdGb28181/src/TdPugixml.cpp:7460-7481 | A round changes neither elements nor bounds of a range whose first and last element are a largest one that precedes itself. |
| SortingEnds.CopiesIff | tdGb28181/src/TdPugixml.cpp:7457-7485 | Copies of one element that precedes itself: the sort ends if and only if there are at most sixteen. |
| NodeHash.ProbesDiffer | tdGb28181/src/TdPugixml.cpp:7487-7520 | The probes of one sequence are pairwise different in a table whose size is a power of two. |
| NodeHash.EveryBucketMet | tdGb28181/src/TdPugixml.cpp:7487-7520 | Every probe sequence meets every bucket. |
| NodeHash.HashInsert | tdGb28181/src/TdPugixml.cpp:7487-7520 | Never finds the table full; adds the key, and says whether it is new, for any hash function. |
| NodeSets.ReverseInPlace | tdGb28181/src/TdPugixml.cpp:7364-7369 | The reversed sequence. |
| NodeSets.Unique | tdGb28181/src/TdPugixml.cpp:7371-7394 | Keeps the first of every group, in order. |
| NodeSets.RemoveDuplicatesInPlace | tdGb28181/src/TdPugixml.cpp:8897-8933 | Keeps the first occurrence of every entry in order, by hashing at the load chosen, or by comparing neighbours. |
| NodeSets.GetOrder | tdGb28181/src/TdPugixml.cpp:8753-8767 | For every set, entries repeated or not: what it calls sorted is in order, and it gives up exactly if neighbours compare differently. |
| NodeSets.SortNodeSet | tdGb28181/src/TdPugixml.cpp:8769-8790 | The set in document order, or in reverse, entries repeated or not; for every set that is in an order already or suitable for the sort. |
| NodeSets.SortNodesAscend | tdGb28181/src/TdPugixml.cpp:8885-8888 | The order the evaluator relies on is the one arrangement in document order. |
| NodeSets.HonestIsSortable | tdGb28181/src/TdPugixml.cpp:8885-8888 | The sets that evaluation sorts can be sorted. |
| NodeSets.DepthOk | tdGb28181/src/TdPugixml.cpp:7457-7485 | The depth handed to the sort is the least one that suffices. |
| PagedMemory.Allocator.AllocateMemory | tdGb28181/src/TdPugixml.cpp:541-553 | A new block, carved off the top page exactly if it fits there; all other blocks are kept. |
| PagedMemory.Allocator.AllocateOutOfBand | tdGb28181/src/TdPugixml.cpp:707-743 | A new page, on top if the block is small, below the top if it is large. |
| PagedMemory.Allocator.DeallocateMemory | tdGb28181/src/TdPugixml.cpp:593-635 | One block is freed; a page is released exactly when its last block is and it is not the top page, which is reset. |
| PagedMemory.Allocator.AllocateString | tdGb28181/src/TdPugixml.cpp:637-669 | The address and header of a new string, rounded up to the alignment. |
| PagedMemory.Allocator.DeallocateString | tdGb28181/src/TdPugixml.cpp:671-688 | Page and size are recovered from the header for every string, also one that fills its page and is encoded as 0. |
| PagedMemory.Allocator.BlocksApart | tdGb28181/src/TdPugixml.cpp:541-553 | Blocks in use lie inside their page and nowhere overlap. |
| PagedMemory.Allocator.Accounts | tdGb28181/src/TdPugixml.cpp:600-603 | Bytes in use and bytes freed add up to the bytes carved off; the top page is last and of full capacity. |
| XmlIntegers.OverflowIsExact10 | tdGb28181/src/TdPugixml.cpp:4530-4558 | Decimal: digit count, first digit and highest bit of the reduced value tell exactly whether the value does not fit. |
| XmlIntegers.OverflowIsExact16 | tdGb28181/src/TdPugixml.cpp:4502-4529 | Hexadecimal: the digit count tells. |
| XmlIntegers.StringToInteger | tdGb28181/src/TdPugixml.cpp:4489-4569 | The loop on wrapping arithmetic returns the specified result for strings of any length, the promotion of a 16-bit type included. |
| XmlIntegers.InRangeIff | tdGb28181/src/TdPugixml.cpp:4556-4569 | The result is the value brought into range exactly if the type has 32 or 64 bits, the value has no minus sign, the lower bound is 0, or the value in range is the lower bound. |
| XmlIntegers.ShortMinusOne | tdGb28181/src/TdPugixml.cpp:4564-4564 | At 16 bits "-1" is read as -32768. |
| XmlIntegers.IntegerToString | tdGb28181/src/TdPugixml.cpp:4620-4638 | Decimal digits from the back of the buffer, and nothing outside it. |
| XmlIntegers.WriteThenRead | tdGb28181/src/TdPugixml.cpp:4620-4638 | What is written for a number means that number, the smallest one included. |
| IntegerNumerals.NumeralMeans | tdGb28181/src/TdPugixml.cpp:4489-4569 | With numerals from tables of digits, for every number and every choice of case of its hexadecimal digits and of the `x`, with spaces, a sign and zeros in front: the string means the number with its sign. |
| IntegerNumerals.ReadNumeral | tdGb28181/src/TdPugixml.cpp:4489-4569 | The loop on wrapping arithmetic returns it brought into range. |
| XmlIntegers.SetThenGet | tdGb28181/src/TdPugixml.cpp:4657-4665 | Storing a number and reading it back gives the number at 32 and 64 bits, signed or unsigned. |
| PsBits.BitsBuffer.Write | tdPs/inc/TdPs.h:53-76 | A field of any width at any position: reading it gives the value modulo the width, and no bit before it changes. |
| PsBits.HoldsIsValue | tdPs/inc/TdPs.h:53-76 | Bits placed most significant first read as the value. |
| PsHeaders.MakePsHeader | tdPs/src/TdPs.cpp:203-231 | Section 2.5.3.3 of ISO/IEC 13818-1: the clock base is recoverable modulo 2^33, the extension modulo 100; markers, rate and stuffing length are in their bits, and nothing outside is touched. |
| PsHeaders.MakeSysHeader | tdPs/src/TdPs.cpp:233-266 | Section 2.5.3.5: start code, a length that takes the header exactly to its end, and every bound in its bits. |
| PsHeaders.MakePsmHeader | tdPs/src/TdPs.cpp:268-299 | Section 2.5.4: start code, a length that takes the map exactly to its end, and both streams in their bits. |
| PsHeaders.MakePesHeader | tdPs/src/TdPs.cpp:301-346 | Section 2.4.3.6: the length field is the payload and 13 bytes, both time stamps are recoverable modulo 2^33, and the flags announce exactly these. |
| PsHeaders.StampIs | tdPs/src/TdPs.cpp:330-344 | A time stamp in three parts between marker bits reads as the stamp modulo 2^33. |
| PsMux.PackagingPs | tdPs/src/TdPs.cpp:347-384 | The output is the headers and the packets of the payloads the code cuts, as written or with an advancing offset. |
| PsMux.Pes | tdPs/src/TdPs.cpp:64-100 | A packet yields its payload and where the next one starts. |
| PsMux.ParsingPs | tdPs/src/TdPs.cpp:102-200 | Of a well-formed stream, the payloads are gathered until they exceed the size limit. |
| PsMux.StreamFramed | tdPs/src/TdPs.cpp:121-198 | What the demuxer finds in a muxed stream is exactly the payloads the muxer put there; all lengths agree. |
| PsMux.AdvancingFaithful | tdPs/src/TdPs.cpp:368-377 | With an advancing offset a frame survives exactly if it is shorter than 2^21 bytes. |
| PsMux.WrittenFaithful | tdPs/src/TdPs.cpp:375-375 | As written, exactly if it is shorter than 2^21 bytes and repeats with the payload size from the second payload on; so does every frame of up to 2 * 64974 bytes. |
| PsMux.LongFrameDamaged | tdPs/src/TdPs.cpp:375-375 | There is a frame of 2 * 64974 + 1 bytes that the muxer as written damages. |
| PsMux.RoundTrip | tdPs/src/TdPs.cpp:347-384 | Muxing into a buffer and demuxing it gives back the frame exactly under these conditions. |
| RtpProtocol.FragmentsAre | tdRtp/src/TdRtp.cpp:3-14 | Fragments have at most 1280 bytes, all but the last exactly so many, and the marker is set on the last alone (section 5.1 of RFC 3550). |
| RtpPath.SendData | tdRtp/src/TdRtp.cpp:3-14 | The loop sends exactly these fragments, one protocol step a round. |
| RtpPath.SendAll | tdRtp/src/TdRtp.cpp:3-14 | The single sending steps, put together, put the fragments of the whole stream on the channel. |
| RtpPath.Receiver.Receive | tdRtp/src/TdRtp.cpp:136-175 | A packet is appended; at the marker the stream is demultiplexed and a frame that is not empty pushed, as the protocol steps say. |
| RtpPath.Queue.Push | tdUtil/inc/Queue.h:62-75 | A frame is queued if the queue is open and holds fewer than 128, else dropped. |
| RtpPath.Queue.PushLocked | tdUtil/inc/Queue.h:69-73 | What happens under the mutex is one protocol step. |
| RtpPath.Queue.Pop | tdUtil/inc/Queue.h:51-61 | Takes the first frame, if any. |
| RtpPath.Queue.Clear | tdUtil/inc/Queue.h:76-85 | Empties the queue. |
| RtpPath.Queue.SetAccess | tdUtil/inc/Queue.h:48-50 | Opens or closes the queue, at any time. |
| RtpRuns.StepKeeps | tdRtp/src/TdRtp.cpp:121-239 | Every step of sender, receiver and queue users keeps the invariant. |
| RtpRuns.RunInvariant | tdRtp/src/TdRtp.cpp:121-239 | So it holds in every state of every interleaving. |
| RtpRuns.DeliveredInOrder | tdRtp/src/TdRtp.cpp:121-239 | In every run the frames popped are frames sent, byte for byte, in order and none twice, if the frames survive muxing. |
| RtpRuns.NothingLost | tdUtil/inc/Queue.h:62-75 | Frames are dropped only by a full or closed queue, or a clearing. |
| RtpRuns.AllDelivered | tdRtp/src/TdRtp.cpp:121-239 | If none of that happens, all frames arrived are popped, queued or about to be pushed, in order; and when nothing is under way these are all that were sent. |
| RtpRuns.NeverStuck | tdRtp/src/TdRtp.cpp:121-190 | As long as something is under way, sender or receiver can take a step. |
| WorkerPool.ThreadPool.Enqueue | tdServer/inc/httplib.h:521-525 | The job is last in the queue; one protocol step. |
| WorkerPool.ThreadPool.TakeTurn | tdServer/inc/httplib.h:550-559 | A worker waits, leaves, or starts the first job, as the queue and the flag say; one protocol step. |
| WorkerPool.StepKeeps | tdServer/inc/httplib.h:509-577 | Every step of clients, workers and shutdown keeps the invariant. |
| WorkerPool.FirstInFirstOut | tdServer/inc/httplib.h:521-563 | In every run the jobs started, followed by those queued, are those enqueued, in order; no job is run by two workers; and while a job is queued some worker is not blocked. |
| WorkerPool.AllJobsDone | tdServer/inc/httplib.h:527-540 | When shutdown has joined all workers, of which there is at least one, every job has finished. |
| WorkerPool.ShutdownEnds | tdServer/inc/httplib.h:527-540 | Behind the notification no worker is stuck and every step brings the end nearer. |
| WorkerPool.NoWorkerNoWork | tdServer/inc/httplib.h:511-516 | Without workers no run ever starts a job. |
| WorkerPool.OneWorkerIff | tdServer/inc/httplib.h:511-540 | In all runs all jobs have been started when all workers have left, if and only if there is a worker. |
| Channels.ChannelManager.Exists | tdChannel/src/TdChanManager.cpp:58-65 | Whether there is a record; the question leaves a null entry behind. |
| Channels.ChannelManager.DelChannel | tdChannel/src/TdChanManager.cpp:100-106 | The request is put in front. |
| Channels.ChannelManager.TakeRequest | tdChannel/src/TdChanManager.cpp:114-119 | The request at the front is taken, if there is one. |
| Channels.ChannelManager.TakeOut | tdChannel/src/TdChanManager.cpp:122-129 | The record leaves the map and is the reaper's. |
| Channels.StepKeeps | tdChannel/src/TdChanManager.cpp:55-146 | For any number of creators: every step of creators, deleters and reaper keeps the invariant, except one that stores over a record. |
| Channels.OwnershipIff | tdChannel/src/TdChanManager.cpp:55-146 | In every run with any number of creators each child forked is at all times in exactly one place if and only if no step stores over a record. |
| Channels.Ownership | tdChannel/src/TdChanManager.cpp:55-146 | Then, too, each request waits or was consumed once, and no child that has been killed is in the map or with a creator. |
| Channels.NothingTwice | tdChannel/src/TdChanManager.cpp:94-139 | Then no step kills a child twice or in the map, or frees a record twice. |
| Channels.DeletedIsKilled | tdChannel/src/TdChanManager.cpp:118-146 | If a request is picked while the map holds a child under its name, then at the next time the reaper rests that child has been killed, and reaped or lost, and is no longer in the map; in runs in which no record is stored over. |
| Channels.NoRecordNobodyKilled | tdChannel/src/TdChanManager.cpp:122-131 | A request for a name without a record kills nobody. |
| Channels.KilledWasAskedFor | tdChannel/src/TdChanManager.cpp:118-139 | Every child killed was stored under a name that had been asked for. |
| Channels.ApartIsEnough | tdChannel/src/TdChanManager.cpp:58-96 | No step stores over a record if no two creators hold one name between looking and storing. |
| Channels.TwoCreatorsLoseAChild | tdChannel/src/TdChanManager.cpp:58-96 | With any number of creators from two on there is a run that loses a child. |
| Channels.OneCreatorIff | tdChannel/src/TdChanManager.cpp:58-96 | All runs with `n` creators keep every child if and only if `n` is at most one. |
| ChunkedCoding.FromIToHex | tdServer/inc/httplib.h:1500-1508 | The hexadecimal digits of the size. |
| ChunkedCoding.SizeLine | tdServer/inc/httplib.h:1500-1508 | Read by strtoul, a size line means the size, up to the largest number. |
| IntegerNumerals.LongMeans | tdServer/inc/httplib.h:2908-2911 | What strtoul makes of hexadecimal digits, small or capital, behind spaces, a sign and a prefix: their number, up to the largest. |
| IntegerNumerals.FiguresAreASize | tdServer/inc/httplib.h:2908-2911 | Digits of both cases are a size by the grammar of the standard. |
| IntegerNumerals.SizeLineRead | tdServer/inc/httplib.h:2908-2911 | And a size line with such digits is read for that size. |
| ChunkedCoding.LineReader.Append | tdServer/inc/httplib.h:1818-1829 | The text grows by the byte, whether it still fits the fixed buffer or not. |
| ChunkedCoding.LineReader.GetLine | tdServer/inc/httplib.h:1791-1815 | One line, whatever its length, and no more is taken from the stream. |
| ChunkedCoding.ReadContentWithLength | tdServer/inc/httplib.h:2843-2863 | Exactly so many bytes, in whatever parts the stream delivers them. |
| ChunkedCoding.ReadContentChunked | tdServer/inc/httplib.h:2895-2933 | The outcome is a function of the bytes alone. |
| ChunkedCoding.DataSink.Perform | tdServer/inc/httplib.h:3126-3178 | One call of the provider, with any number of `write`s and `done`s: what it puts on the wire, and whether data is thought to be available after it. |
| ChunkedCoding.WriteContentChunked | tdServer/inc/httplib.h:3117-3195 | For every provider, as a sequence of calls each with any operations, and for a shutdown at any time: the outcome, and exactly the bytes of the operations done until the writer stops asking. |
| ChunkedCoding.RoundTrip | tdServer/inc/httplib.h:3126-3178 | For any operations and whatever follows: they are read back, as the concatenation of the payloads with the rest untouched, if and only if `done` is said once, only empty payloads follow it, and no payload has the largest size (section 4.1 of RFC 7230). |
| ChunkedCoding.ClosedByCall | tdServer/inc/httplib.h:3182-3191 | The operations done are so closed if and only if the call that stops the writer closes the body and no call before says `done`. |
| ChunkedCoding.BodyReadBack | tdServer/inc/httplib.h:3117-3195 | So for every provider and every rest, a condition on its calls that decides exactly whether the body is read back. |
| ChunkedCoding.ReadableAlone | tdServer/inc/httplib.h:2895-2933 | With nothing behind the body, reading succeeds exactly if the last chunk was written, before any payload of the largest size. |
| ChunkedCoding.EmptyPayloadStops | tdServer/inc/httplib.h:3126-3128 | An empty payload in a call of its own: the writer reports success, nothing has been written, and no rest is read as the body. |
| ChunkedCoding.EmptyPayloadThenDone | tdServer/inc/httplib.h:3126-3128 | In one call with `done` it does no harm. |
| ChunkedCoding.ShutDownMidway | tdServer/inc/httplib.h:3182-3194 | Shutting down between two payloads is reported as success, and the body is not read back. |
| ChunkedCoding.SendAndReceive | tdServer/inc/httplib.h:2895-2933 | Writer and reader together, for every provider and every way of splitting the reads. |
| ChunkedGrammar.AcceptedIsRead | tdServer/inc/httplib.h:2895-2933 | A body of the grammar the reader follows, complete or cut off behind a chunk, is read for its data, and the rest is untouched. |
| ChunkedGrammar.SuccessIff | tdServer/inc/httplib.h:2902-2932 | Reading succeeds if and only if the bytes begin with such a body: chunks each ended by a line end and then a chunk of size zero and an empty line, or chunks of which the last is followed by another line than an empty one. |
| ChunkedGrammar.MissingLineEnd | tdServer/inc/httplib.h:2921-2921 | An input of the second kind. |
| ChunkedGrammar.StandardSize | tdServer/inc/httplib.h:2908-2911 | A size line of the standard, extension included, is read for its size, up to the largest number. |
| ChunkedGrammar.StandardRead | tdServer/inc/httplib.h:2902-2930 | A body of the grammar of section 4.1 of RFC 7230 is read, for what it means, if and only if it has no trailer and no chunk of the largest size. |

## Left out

- XPathOptimizer.OptimizedQueryIsCorrect: comparisons, connectives, `count`, `translate`, `boolean`, `not` and
  string-values are spelled out. Sums of floating-point numbers depend on the order of addition, so `sum` is any
  function of the node set; the other string and number functions, arithmetic, and conversions between strings and
  numbers, are parameters too. Numbers are reals, infinities or not-a-number, without rounding.
- XPathOptimizer.TranslateOk: string constants hold no NUL, as C strings do not.
- XPathCorrectness.ScalarOk: the node sets bound to variables are taken to carry a true order tag.
- XPathOptimizer.CompareAttributeOk: an attribute step with a name stops at the first attribute of that name, as the
  code does; XML allows no second one.
- AxisWalk.StepFill: the namespace axis is empty and has no walk. A named test on the attribute axis always comes with
  `once`, as the only caller has it.
- XmlOutput.NodeOutput: elements, attributes and text in the raw format; indentation, comments, CDATA sections,
  processing instructions, declarations and document types are not printed.
- NodeOrder.NodeIsBefore: both nodes are in one document; for nodes of two documents the program compares pointers.
- NodeSets.RemoveDuplicatesInPlace: null entries, which the program skips, do not occur in the sets evaluation makes.
- BufferOrder.ComparatorIff: which strings have been replaced and which of the present nodes were parsed is given, as
  the order of the parsed ones is kept by adding and removing nodes; the header bits that record it are not modelled.
  Moving a node or parsing a second buffer takes all addresses away.
- DomTree.DomDocument.RemoveChild: destroying a subtree is forgetting its nodes; giving back their memory is left to the
  allocator, which is modelled on its own.
- DomCopy.AppendCopy: allocation succeeds, and strings are copied; sharing of strings between copies is not modelled.
- XmlParseInPlace.ParseTree: comments, CDATA sections, processing instructions and document types are not followed; the
  outcome there is `Elsewhere`.
- XmlParseInPlace.ParseBuffer: the same; the outcome there is `Other`.
- XmlReadBack.PrintThenParse: the options that lose nothing, and texts without a carriage return where line ends are
  converted; `XmlReadBack.PrintedIsSeen` covers all options and these texts.
- XmlReadBack.PrintedIsSeen: raw format, control characters kept; valid names, and texts that are not empty, not
  adjacent and NUL-free. Encodings other than UTF-8 are not covered.
- XmlLanguage.ParseIff: no NUL in front of the last byte, where the parser would stop; comments, CDATA sections,
  processing instructions and document types are not part of the language.
- XmlRefusals.Reported: which of several errors is found is given by the first that is not well-formed; errors inside
  comments, CDATA sections, processing instructions and document types are left out with these.
- XmlDecode.ParseWnorm: the byte in front of the value is the quote, as at the one place that calls it.
- NodeHash.HashInsert: any hash function; the one the program uses is not modelled.
- PagedMemory.Allocator.AllocateMemory: memory never runs out, and the first allocation is a small one, as line 731
  requires; the place of a new page is a parameter.
- XmlIntegers.StringToInteger: the strings are NUL-terminated bytes; wide characters are not covered.
- PsMux.Pes: packets that lie within the data, as in well-formed streams.
- PsMux.ParsingPs: streams that are well formed behind the pack header, whose length is a parameter, and of at least 14
  bytes; on truncated ones the program reads on with a negative length. The case of a stream whose fourth byte is not
  0xBA is covered.
- RtpRuns.DeliveredInOrder: the network is an in-order lossless channel, and a frame is given to the sender as a muxed
  stream; encoding, decoding and scaling are outside. Frames are not empty. Under the condition that all frames sent
  survive muxing.
- RtpPath.SendData: sizes below 2^31; a greater one is a negative `int` in the program.
- WorkerPool.AllJobsDone: no job is enqueued once shutdown has set its flag, as in the server, which stops
  accepting first; and a job runs to its end.
- Channels.Ownership: forking succeeds; a child for which waiting fails is counted as lost, since its record is not
  freed.
- ChunkedCoding.WriteContentChunked: no compression; writing to the stream succeeds.
- ChunkedGrammar.StandardRead: header fields in the trailer are not folded over several lines.
- ChunkedCoding.ReadContentChunked: the receiver accepts all data, and the stream ends but does not fail.
- Compact and wide-character builds, file and stream loading, iterators and the thin wrappers around nodes: they add
  nothing hard.
- SIP signalling, sockets, video coding, configuration and the rest of the HTTP library.
- The `setCodecParam` and `mediaPreset` paths of the channel manager, which do not lock.

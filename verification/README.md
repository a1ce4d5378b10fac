# Verified models of the vendored XML and JSON libraries

This project models the algorithms that the repository's configuration and metrics code rests on, in the vendored
libraries under `thirdparty/`: the XPath engine, the XML text pipeline, the linked nodes of a document and the integer
conversions of pugixml, and the JSON Patch, JSON Merge Patch and JSON pointer code of nlohmann::json. Each model does
what the C++ code does, branch by branch, and each is proved against an independent statement of what the code is for.

Code that works step by step is modelled by methods that do: buffers are arrays overwritten through cursors, node sets,
query nodes, document nodes, patched documents and the output buffer are objects whose fields the methods reassign.
Every such method is proved equal to a function of the state before it, and the properties are proved about that function.

**JSON** (`JsonValue`, `JsonPointer`, `JsonPatch`, `JsonDiff`, `JsonMerge`). Values with the library's own `==`,
which casts numbers of different kinds; pointers as strings with their escapes; a document patched in place with every
exception; `diff` as the recursion over stored patch objects. The law of `diff` and `patch` holds for all values up to
`==`. It does not hold up to identity: `JsonDiff.CoercionKeepsSource` names two numbers that `==` takes for equal although
they differ, and `JsonDiff.PatchedExactly` says exactly when the result is the target itself. That `==` is symmetric but not
transitive is `JsonValue.EqualsNotTransitive`. `JsonLaws` says what each operation of a patch does to a document in terms of
what is found in the document afterwards, every exception included.

**XPath** (`XmlTree`, the modules named `XPath...`). A document is a tree, its nodes are paths, and document order is the
lexicographic order of paths. On top of this stand the pointer walks of the axes, the ordering of nodes, the three-way
quicksort, the probing hash set, the growing node set, location steps with predicates and early stops, and the evaluator
with its three modes. `XPathMeaning` says independently what a query means: node sets are sets, every predicate looks at
every node, and there are no modes, order flags or predicate classes. Two theorems join them: evaluation yields what a
query means (`XPathRefine`), and the optimizer, as a function on query trees and as an in-place rewriting of linked nodes,
preserves that meaning (`XPathRewrites`, `XPathOptimizeMeaning`, `XPathQueryNode`). The comparator of document order is
not irreflexive: it holds of an attribute and itself, and `XPathOrder.ComparatorIrreflexive` says that attributes are the
only such nodes. Sorting is proved for it all the same, on nodes without repetitions. An attribute name stops a step at the
first attribute; `XPathFill.AttributeNameStep` says when that is all of them. `XPathLaws`, `XPathAxisLaws` and `XPathTests` fix that
meaning part by part: what `last()`, a number or any other predicate selects, what comparisons, sums and conversions yield, and
which nodes of an axis each node test selects.

**XML text** (`XmlChars`, `XmlDecode`, `XmlShift`, `XmlGap`, `XmlStrconv`, `XmlConvert`, `XmlSurvive`, `XmlSimple`, `XmlPrint`,
`XmlMarkup`, `XmlParse`, `XmlInPlace`, `XmlReadBack`, `XmlSimpleBack`, `XmlRoundTrip`). The in-place conversions of the parser
are proved to leave a one-pass decoding of the text in the buffer, the writing position never passing the reading one.
`XmlParse` describes the parser with its default options as a machine over a text; `XmlInPlace` is the parser that
overwrites its buffer, proved to yield the same nodes, whose strings stand in the buffer and are never touched again. The
printer's walk writes the recursively printed tree, and the parser reads a printed document back as exactly what it shows.
Element content survives if and only if it has no carriage return (`XmlSurvive.ReturnLost` is a text that does not).
`XmlDoctype` has a grammar of document types, and the parser skips exactly what is one; in front of the root such a document
type changes nothing in what is parsed, and inside of an element it is an error. `XmlParseLaws` says what becomes of each
construct and which error each broken one is, `XmlDecodeLaws` what becomes of references, white space and line ends, and
`XmlPrintLaws` what each kind of node looks like when it is printed, and that the texts of comments, instructions and
document types can be read back.

**Encodings** (`XmlUtf8`, `XmlTranscode`, `XmlWriter`, `XmlSaveLoad`). Output goes through a buffer of fixed size and reaches
the sink as the encoding of the whole text, provided that no piece begins inside a multi-byte sequence.
`XmlUtf8.SplitLoses` shows why that is needed, and `XmlUtf8.SplitExactly` says exactly which cuts lose nothing. Text that is
written and read again comes back if and only if the encoding has all of its code points (`XmlTranscode.ThereAndBack`).
`XmlSaveLoad.SaveThenLoad` puts everything together: a document that is saved and loaded is what it shows. `XmlEncodingLaws`
says which units a character becomes, how the byte orders differ, and what is dropped.

**Document nodes** (`XmlDom`, `XmlMove`). The sibling-list operations on linked objects keep the first child, next, circular
previous and parent pointers true of lists of children, and guarded moves between any nodes of any documents keep the whole
structure trees under documents, in which every node has only children of the kinds that may stand there, over any run
(`XmlMove.Run`).

**Integers** (`XmlInteger`). Overflow is detected from the wrapped result, the digit count and the leading digit, for every
length of input. For types of 16 bits `0 - minv` is promoted to a wider signed type, so that every negative text is
converted to the smallest value, "-1" for instance (`XmlInteger.MinusOneLost`); `XmlInteger.ConvertedExactly` says exactly
when the result is right, and the conversions of 32 and 64 bits, which are the ones the library instantiates, always are.
`XmlIntegerLaws` says which number a text stands for.

`Wrappers`, `Arithmetic` and `Digits` hold what several modules share.

## Model

| member | source | states |
|---|---|---|
| JsonDiff.DiffThenPatch | thirdparty/nlohmann/json.hpp:4206-4297 | For every source and target no operation of `diff(source, target)` fails when the patch is applied to the source, the result equals the target under `==`, the patch is empty exactly when source and target are equal, and the result is the very same value exactly when no two numbers of different kinds compare equal. |
| JsonDiff.Diff | thirdparty/nlohmann/json.hpp:4206-4297 | The recursion: the stored patch is the list of operations prefixed with the pointer of the place, and leads from the source to the patched source. |
| JsonDiff.DiffElements | thirdparty/nlohmann/json.hpp:4224-4230 | First pass over two arrays: the common elements become those of the target, each nested patch touching only its own index. |
| JsonDiff.RemoveRest | thirdparty/nlohmann/json.hpp:4236-4242 | Second pass: removals are inserted so that they are stored in descending index order. |
| JsonDiff.RemovalsCut | thirdparty/nlohmann/json.hpp:4236-4242 | Removals in descending order cut an array to the common length and none of them is out of range. |
| JsonDiff.AddRest | thirdparty/nlohmann/json.hpp:4245-4248 | Third pass: what is left of the target is appended through `-`. |
| JsonDiff.AdditionsAppend | thirdparty/nlohmann/json.hpp:4245-4248 | The additions append the rest of the target in order, and none of them fails. |
| JsonDiff.DiffMembers | thirdparty/nlohmann/json.hpp:4255-4267 | First pass over two objects, in any member order: common members are patched, others removed. |
| JsonDiff.AddMembers | thirdparty/nlohmann/json.hpp:4270-4276 | Second pass over two objects: missing members are added. |
| JsonDiff.LiftOps | thirdparty/nlohmann/json.hpp:4206-4297 | Operations that work on a part of a document do the same, and nothing else, when their pointers are prefixed with the place of that part. |
| JsonDiff.PatchedExactly | thirdparty/nlohmann/json.hpp:4210-4213 | The patched source is the target itself if and only if no numbers of different kinds meet that `==` takes for equal. |
| JsonDiff.CoercionKeepsSource | thirdparty/nlohmann/json.hpp:3119-3131 | A concrete pair, -1 and 2^64-1, that `==` takes for equal, so that `diff` leaves the source as it is. |
| JsonValue.EqualsByKind | thirdparty/nlohmann/json.hpp:3081-3135 | Values of one kind are equal when they are the same, values of two kinds only if they are numbers: with a float by quantity, integers modulo 2^64. |
| JsonValue.EqualsSymmetric | thirdparty/nlohmann/json.hpp:3081-3135 | `==` is symmetric on all values. |
| JsonValue.EqualsNotTransitive | thirdparty/nlohmann/json.hpp:3081-3135 | It is not transitive: -1 equals -1.0 and 2^64-1, which are not equal. |
| JsonPatch.Document.PatchInplace | thirdparty/nlohmann/json.hpp:3970-4193 | The document after a patch, and the exception that stopped it, are those of applying the operations in order; the effect of the operations before the failing one is kept. |
| JsonPatch.Document.OperationAdd | thirdparty/nlohmann/json.hpp:3999-4055 | The `operation_add` lambda, every branch and exception. |
| JsonPatch.Document.OperationRemove | thirdparty/nlohmann/json.hpp:4057-4076 | The `operation_remove` lambda; a primitive parent is left alone. |
| JsonPatch.Document.Execute | thirdparty/nlohmann/json.hpp:4119-4191 | One operation object: add, remove, replace, move, copy and test. |
| JsonPatch.PutConcat | thirdparty/nlohmann/json.hpp:3999-4079 | Writing through a concatenated pointer changes only the part the first half points to. |
| JsonPatch.AtConcat | thirdparty/nlohmann/detail/json_pointer.hpp:365-400 | Resolving a concatenated pointer resolves its halves one after the other. |
| JsonPatch.PutGet | thirdparty/nlohmann/detail/json_pointer.hpp:365-400 | What is written through a resolvable pointer is read back through it. |
| JsonLaws.PutElsewhere | thirdparty/nlohmann/detail/json_pointer.hpp:365-400 | Writing at one place leaves what is found at every place apart from it as it was, errors included. |
| JsonLaws.AtStep | thirdparty/nlohmann/detail/json_pointer.hpp:365-400 | One more token: the member, the element at that index, or the exception with its number, for every kind of value. |
| JsonLaws.AddInserts | thirdparty/nlohmann/json.hpp:4026-4041 | An add at an index of an array, wherever the array is, makes it one longer with the value at that index and everything behind it one place higher; nothing else changes, and a remove at the same pointer gives the old document back. |
| JsonLaws.AddAppends | thirdparty/nlohmann/json.hpp:4026-4041 | `-` appends; an index behind the end and a token that is no index are refused with their exceptions. |
| JsonLaws.AddSetsMember | thirdparty/nlohmann/json.hpp:4018-4024 | An add below an object, or below null, sets that member and leaves the others and everything outside alone. |
| JsonLaws.AddRefused | thirdparty/nlohmann/json.hpp:3999-4054 | A missing parent is refused as `at` refuses it, a primitive one by the assertion, and an add at the root replaces the document. |
| JsonLaws.RemoveCloses | thirdparty/nlohmann/json.hpp:4072-4075 | A remove at an index of an array closes the gap, and adding the removed value at the same pointer gives the old document back. |
| JsonLaws.RemoveDropsMember | thirdparty/nlohmann/json.hpp:4064-4071 | A remove below an object drops that member alone; a missing one is refused. |
| JsonLaws.RemoveRefused | thirdparty/nlohmann/json.hpp:4057-4076 | The root, a missing parent, and an index at or behind the end are refused with their exceptions; below a primitive value nothing happens. |
| JsonLaws.ReplaceIsRemoveThenAdd | thirdparty/nlohmann/json.hpp:4130-4134 | A replace succeeds where something is found, and is a remove followed by an add at the same pointer (section 4.3 of RFC 6902). |
| JsonLaws.MoveIsRemoveThenAdd | thirdparty/nlohmann/json.hpp:4136-4150 | A move is a remove followed by an add of what was removed (section 4.4 of RFC 6902); without its source it is refused. |
| JsonLaws.CopyIsAdd | thirdparty/nlohmann/json.hpp:4152-4164 | A copy is an add of what stands at the source (section 4.5 of RFC 6902). |
| JsonLaws.TestExactly | thirdparty/nlohmann/json.hpp:4166-4183 | A test succeeds exactly when an equal value is found, never changes the document, and fails with 501 unless the pointer itself is malformed. |
| JsonLaws.FailureKeeps | thirdparty/nlohmann/json.hpp:4119-4191 | An operation that throws leaves the document as it was, but for a move whose second half fails, which has removed its source. |
| JsonLaws.ReadExactly | thirdparty/nlohmann/json.hpp:4084-4191 | An element of a patch is read as an operation if and only if it carries its name, its pointers as they are written and its value, whatever else it has. |
| JsonLaws.RunConcat | thirdparty/nlohmann/json.hpp:4084-4192 | A patch runs its operations in order and none behind one that throws. |
| JsonPointer.EscapeRoundTrip | thirdparty/nlohmann/detail/string_escape.hpp:48-66 | Unescaping undoes escaping for every string, and escaped text holds no slash and only valid escapes. |
| JsonPointer.EscapeToken | thirdparty/nlohmann/detail/string_escape.hpp:48-53 | The library function `escape`, tilde first, computes the escape of a token. |
| JsonPointer.ReplaceSubstring | thirdparty/nlohmann/detail/string_escape.hpp:30-40 | The in-place search and replace equals replacing all occurrences in one scan. |
| JsonPointer.Split | thirdparty/nlohmann/detail/json_pointer.hpp:573-620 | The splitting loop: tokens or the exception for a missing slash or an invalid escape. |
| JsonPointer.TokensOfRender | thirdparty/nlohmann/detail/json_pointer.hpp:573-620 | Splitting a printed pointer gives its tokens back, whatever characters they hold. |
| JsonLaws.TokensExactly | thirdparty/nlohmann/detail/json_pointer.hpp:573-620 | A string is a pointer if and only if it is empty or begins with a slash and every tilde is followed by 0 or 1; writing its tokens gives it back, and otherwise the exception is 107 or 108. |
| JsonLaws.EscapeOne | thirdparty/nlohmann/detail/string_escape.hpp:48-53 | Tilde is escaped as `~0`, slash as `~1`, and every other character as itself. |
| JsonLaws.EscapeConcat | thirdparty/nlohmann/detail/string_escape.hpp:48-53 | Escaping works character by character. |
| JsonPointer.IndexRoundTrip | thirdparty/nlohmann/detail/json_pointer.hpp:186-217 | The index printed for an array element is read back as that index, for every index an array can have. |
| JsonLaws.IndexExactly | thirdparty/nlohmann/detail/json_pointer.hpp:186-217 | A token names array element n if and only if it is the decimal form of n and n is below the largest size. |
| JsonLaws.IndexRefused | thirdparty/nlohmann/detail/json_pointer.hpp:186-217 | The exception for every token that is no index: 106 with a leading zero, 109 with no digit in front, 404 with something else behind or too large a number, 410 for the largest size. |
| JsonMerge.Target.MergePatch | thirdparty/nlohmann/json.hpp:4309-4324 | Computes MergePatch of section 2 of RFC 7396 whatever the order in which members are visited. |
| JsonMerge.MergeIdempotent | thirdparty/nlohmann/json.hpp:4309-4324 | Applying the same merge patch twice equals applying it once. |
| JsonMerge.MergeKeeps | thirdparty/nlohmann/json.hpp:4309-4324 | Following member names to any depth, what the patch does not name is kept: there, or not there, as it was in the target. |
| JsonMerge.MergeSets | thirdparty/nlohmann/json.hpp:4309-4324 | What the patch names with a value is that value, with null is gone, and with an object is an object. |
| JsonMerge.MergeOverNothing | thirdparty/nlohmann/json.hpp:4309-4324 | Merging a document without nulls over nothing yields that document. |
| JsonMerge.MergeKeepsNullFree | thirdparty/nlohmann/json.hpp:4309-4324 | Merging an object brings no null into a target without nulls. |
| XmlTree.PreorderSound | thirdparty/pugixml/pugixml.cpp:8254-8319 | The preorder walk meets exactly the nodes of the tree, each once, in document order. |
| XPathOrder.NodeIsBefore | thirdparty/pugixml/pugixml.cpp:8278-8319 | Holds for two different nodes exactly when the first comes first in document order: equal depth, ancestor and unequal depth. |
| XPathOrder.NodeIsBeforeSibling | thirdparty/pugixml/pugixml.cpp:8254-8276 | The double walk along two sibling chains decides the order of siblings. |
| XPathOrder.DocOrderTotal | thirdparty/pugixml/pugixml.cpp:8359-8411 | Document order on nodes, attributes and null is a strict total order. |
| XPathOrder.CompareDocumentOrder | thirdparty/pugixml/pugixml.cpp:8359-8411 | The comparator is document order, but holds as well of an attribute and itself. |
| XPathOrder.ComparatorIrreflexive | thirdparty/pugixml/pugixml.cpp:8373-8384 | The comparator holds of a node and itself if and only if the node is an attribute. |
| XPathSort.Sort | thirdparty/pugixml/pugixml.cpp:7760-7788 | For every input, under a strict total order: the range becomes a sorted permutation, everything else is unchanged, and the recursion is at most log2 of the length deep, so that there are at most one more activations than that. |
| XPathSort.Partition3 | thirdparty/pugixml/pugixml.cpp:7733-7757 | Ends in exactly the blocks less, equal and greater, also when equals outnumber the lesser elements and the final swaps cross. |
| XPathSort.Partition | thirdparty/pugixml/pugixml.cpp:7765-7771 | Both outer blocks are shorter than the range, since the pivot is one of its elements. |
| XPathSort.Median3 | thirdparty/pugixml/pugixml.cpp:7721-7731 | The middle of three elements moves to the middle; the rest is a permutation. |
| XPathSort.InsertionSort | thirdparty/pugixml/pugixml.cpp:7699-7719 | Sorts a range in place. |
| XPathHash.ProbesCoverTable | thirdparty/pugixml/pugixml.cpp:7803-7820 | Triangular probing of a table of 2^n slots meets every bucket exactly once. |
| XPathHash.ProbesDiffer | thirdparty/pugixml/pugixml.cpp:7803-7820 | Two probes of one search never look at the same bucket. |
| XPathHash.HashInsert | thirdparty/pugixml/pugixml.cpp:7790-7823 | With a free slot the end of the loop is unreachable; the answer is true exactly for keys not in the table, and the table gains exactly the key. |
| XPathRawSet.HashDedup | thirdparty/pugixml/pugixml.cpp:9204-9231 | Keeps the first occurrence of every non-null node, in order, for every set size. |
| XPathRawSet.Unique | thirdparty/pugixml/pugixml.cpp:7674-7697 | Drops elements equal to the one kept before them, with the fast skip of the head. |
| XPathRawSet.RawNodeSet.RemoveDuplicates | thirdparty/pugixml/pugixml.cpp:9200-9236 | The set after duplicate removal, by hashing or by comparing neighbours. |
| XPathAgree.DeduplicatedMeaning | thirdparty/pugixml/pugixml.cpp:9200-9236 | Removing duplicates from an unsorted set of any size leaves the same nodes, each once. |
| XPathRawSet.RawNodeSet.SortDo | thirdparty/pugixml/pugixml.cpp:9072-9093 | Puts a set into document order whatever is known about its order before. |
| XPathRawSet.RawNodeSet.ComputeOrder | thirdparty/pugixml/pugixml.cpp:9056-9071 | The order flag judged on neighbours. |
| XPathNodeSet.GetOrderTruthful | thirdparty/pugixml/pugixml.cpp:9056-9071 | For distinct nodes the order flag computed from neighbours is true of the whole set. |
| XPathNodeSet.GetOrderExactly | thirdparty/pugixml/pugixml.cpp:9056-9071 | On distinct nodes the flag is document order if and only if they are so ordered, and reverse order likewise. |
| XPathNodeSet.DedupAppended | thirdparty/pugixml/pugixml.cpp:9204-9231 | A node met again adds nothing, and a new one is kept behind those met before. |
| XPathNodeSet.SqueezeAppended | thirdparty/pugixml/pugixml.cpp:7674-7697 | An element equal to its left neighbour adds nothing, any other is kept. |
| XPathNodeSet.SortDoneMeaning | thirdparty/pugixml/pugixml.cpp:9072-9093 | Sorting a set that keeps its promise yields the same nodes in document order. |
| XPathNodeSet.FirstMeaning | thirdparty/pugixml/pugixml.cpp:9095-9114 | The first node of a set that keeps its promise comes before all others. |
| XPathRawSet.RawNodeSet.PushBack | thirdparty/pugixml/pugixml.cpp:9156-9162 | Appends a node, growing the array by half when it is full. |
| XPathAxes.AxesPartition | thirdparty/pugixml/pugixml.cpp:10171-10362 | Every node of the document is on exactly one of the ancestor, descendant, following, preceding and self axes of any node. |
| XPathFill.StepsPartition | thirdparty/pugixml/pugixml.cpp:10171-10362 | The lists that a step with the test `node()` makes from any node for the ancestor, descendant, following, preceding and self axes have no duplicates, no node in common, and all nodes of the document between them. |
| XPathAxes.AxisNodesMeaning | thirdparty/pugixml/pugixml.cpp:10171-10362 | The nodes of an axis come without duplicates, in document order on forward axes and in reverse on reverse axes. |
| XPathTraverse.FillDescendant | thirdparty/pugixml/pugixml.cpp:10195-10225 | The pointer walk visits the descendants in document order. |
| XPathTraverse.FillFollowing | thirdparty/pugixml/pugixml.cpp:10245-10280 | The pointer walk behind a subtree visits the following nodes in document order. |
| XPathTraverse.FillPreceding | thirdparty/pugixml/pugixml.cpp:10282-10322 | The backward walk visits the preceding nodes in reverse document order and skips ancestors. |
| XPathTraverse.FillFollowingAttribute | thirdparty/pugixml/pugixml.cpp:10399-10424 | From an attribute the following nodes are those behind its element, its descendants included. |
| XPathTraverse.NodeIsAncestor | thirdparty/pugixml/pugixml.cpp:8321-8326 | Holds of a node and those below it. |
| XPathStep.FillPrecedingSibling | thirdparty/pugixml/pugixml.cpp:10236-10243 | The walk along the circular previous pointers visits the preceding siblings, nearest first, and stops at the tail. |
| XPathStep.FillFollowingSibling | thirdparty/pugixml/pugixml.cpp:10227-10234 | The walk along the next pointers visits the following siblings. |
| XPathStep.FillAncestor | thirdparty/pugixml/pugixml.cpp:10324-10342 | The walk along the parent pointers visits the ancestors, nearest first. |
| XPathFill.StepFill | thirdparty/pugixml/pugixml.cpp:10445-10454 | From any node or attribute and for any axis and node test, with or without early stop, the nodes pushed are those of the axis that pass the test. |
| XPathFill.StepNodesMeaning | thirdparty/pugixml/pugixml.cpp:10171-10454 | What a step pushes are exactly the nodes on the axis that pass the test, in the order of the axis. |
| XPathAxisLaws.UpAndDown | thirdparty/pugixml/pugixml.cpp:10171-10362 | A node that is reached by the list of indices p has the children p + [k] and is the parent of those only; descendants are what begins with p, ancestors what p begins with, with and without p itself. |
| XPathAxisLaws.LeftAndRight | thirdparty/pugixml/pugixml.cpp:10171-10362 | Following and preceding nodes are those whose way parts from the way to the node to its right and left; siblings do so as children of one node. |
| XPathAxisLaws.FromAttribute | thirdparty/pugixml/pugixml.cpp:10364-10443 | From an attribute of p: the parent is p, ancestors are p and those of p, what precedes p precedes it, what follows p or is below p follows it, and nothing else is on any axis. |
| XPathAxisLaws.ToAttribute | thirdparty/pugixml/pugixml.cpp:10171-10443 | An attribute is selected on the attribute axis of its element, and from itself on the axes that have the node itself. |
| XPathAxisLaws.DocumentOrder | thirdparty/pugixml/pugixml.cpp:8359-8411 | Document order is the order of a walk through the document: an element, its attributes, what is below it, and then what parts to the right. |
| XPathAxisLaws.StepOrder | thirdparty/pugixml/pugixml.cpp:10456-10460 | A step yields the nodes of the ancestor and preceding axes last one first, and all others in that order. |
| XPathTests.NodeTest | thirdparty/pugixml/pugixml.cpp:10112-10114 | `node()` selects exactly the tree nodes on the axis. |
| XPathTests.StarTest | thirdparty/pugixml/pugixml.cpp:10148-10154 | Of these `*` selects exactly the elements. |
| XPathTests.TextTest | thirdparty/pugixml/pugixml.cpp:10124-10130 | `text()` selects exactly the character data and CDATA sections among them. |
| XPathTests.CommentTest | thirdparty/pugixml/pugixml.cpp:10116-10122 | `comment()` selects exactly the comments. |
| XPathTests.InstructionTest | thirdparty/pugixml/pugixml.cpp:10132-10138 | `processing-instruction()` selects exactly the processing instructions. |
| XPathTests.TargetTest | thirdparty/pugixml/pugixml.cpp:10140-10146 | With a name it selects those of that name. |
| XPathTests.NameTest | thirdparty/pugixml/pugixml.cpp:10104-10110 | A name selects the elements of that name. |
| XPathTests.PrefixTest | thirdparty/pugixml/pugixml.cpp:10156-10162 | `prefix:*` selects the elements whose name begins with the prefix. |
| XPathTests.TestsPartition | thirdparty/pugixml/pugixml.cpp:10096-10170 | Every node on an axis is selected by exactly one of `*`, `text()`, `comment()` and `processing-instruction()`, and by none of them if it is the document, a declaration or a document type. |
| XPathTests.AttributeTests | thirdparty/pugixml/pugixml.cpp:10056-10094 | On the attribute axis `*` and `node()` select all attributes but namespace declarations, a name and a prefix those that have it, other tests none. |
| XPathTests.OwnAttributeTests | thirdparty/pugixml/pugixml.cpp:10364-10397 | On the self axis and its like an attribute is selected by `node()` alone. |
| XPathTests.EmptyAxes | thirdparty/pugixml/pugixml.cpp:11183-11185 | The namespace axis leads to no nodes. |
| XPathFill.StepOnce | thirdparty/pugixml/pugixml.cpp:10171-10454 | With early stop a step yields the first of the nodes it yields without. |
| XPathFill.AttributeNameStep | thirdparty/pugixml/pugixml.cpp:10462-10466 | The early stop of a test for an attribute name gives all attributes of that name if and only if the element has at most one. |
| XPathMeaning.StepFromAll | thirdparty/pugixml/pugixml.cpp:10462-10466 | Where no attribute name is repeated, a step means what it means without that early stop. |
| XPathFill.FillAttribute | thirdparty/pugixml/pugixml.cpp:10177-10184 | The attributes of an element that pass the test, in their order. |
| XPathStepDo.ApplyEach | thirdparty/pugixml/pugixml.cpp:9951-10001 | Filtering in place keeps exactly the nodes whose predicate holds at their position, up to an early stop. |
| XPathStepDo.ApplyConstant | thirdparty/pugixml/pugixml.cpp:10003-10030 | A constant number keeps at most the node at that position. |
| XPathStepDo.ApplyPredicates | thirdparty/pugixml/pugixml.cpp:10046-10054 | The predicates of a step, one after the other; only the last may stop early. |
| XPathStepDo.StepDo | thirdparty/pugixml/pugixml.cpp:10456-10501 | A location step fills, filters and cleans a node set in place as the evaluation function says. |
| XPathRefine.NodesRefine | thirdparty/pugixml/pugixml.cpp:11116-11242 | Evaluating a node-set query in any mode yields nodes of the set it means, truthfully flagged: all of them, at least the first, or at least one. |
| XPathRefine.AsRefines | thirdparty/pugixml/pugixml.cpp:10553-11114 | As boolean, number and string an evaluated query has the value it means. |
| XPathRefine.ScalarRefines | thirdparty/pugixml/pugixml.cpp:10553-11114 | Every expression that is no node set evaluates to what it means. |
| XPathLaws.LastSelects | thirdparty/pugixml/pugixml.cpp:10718-10719 | For every document and nonempty list `[last()]` selects the last node, in the meaning of queries and in the evaluator, node by node or as a constant. |
| XPathLaws.PositionSelects | thirdparty/pugixml/pugixml.cpp:10721-10722 | `[position()]` selects every node. |
| XPathLaws.NumberSelects | thirdparty/pugixml/pugixml.cpp:10003-10030 | `[k]` selects the node at place k if there is one, and a number that is no place selects none, evaluated either way. |
| XPathLaws.TruthSelects | thirdparty/pugixml/pugixml.cpp:9951-9975 | A boolean or string constant selects all nodes or none. |
| XPathLaws.VariableValue | thirdparty/pugixml/pugixml.cpp:10789-10799 | A variable of the type that its value has stands for that value. |
| XPathLaws.PredicateSelects | thirdparty/pugixml/pugixml.cpp:10032-10044 | A numeric predicate keeps the nodes whose position it computes, any other predicate those for which it is true; which expressions are numeric is listed. |
| XPathLaws.PredicatesRun | thirdparty/pugixml/pugixml.cpp:10046-10055 | Predicates run one after the other, each on what the one before has kept. |
| XPathLaws.ComparedSets | thirdparty/pugixml/pugixml.cpp:9787-9873 | Two node sets compare by `=` or `!=` when some pair of their string values does. |
| XPathLaws.ComparedMixed | thirdparty/pugixml/pugixml.cpp:9787-9873 | A node set compares with a number or a string when some node does, and with a boolean by whether there is a node; the order of the sides does not matter. |
| XPathLaws.ComparedScalars | thirdparty/pugixml/pugixml.cpp:9787-9873 | Otherwise booleans come before numbers and numbers before strings. |
| XPathLaws.RelatedMeans | thirdparty/pugixml/pugixml.cpp:9880-9949 | `<`, `<=`, `>` and `>=` hold when some number of one side is so related to one of the other. |
| XPathLaws.NumbersOrdered | thirdparty/pugixml/pugixml.cpp:9880-9949 | Numbers but NaN are in one strict order with the infinities at its ends, and NaN compares with nothing. |
| XPathLaws.NumbersAdded | thirdparty/pugixml/pugixml.cpp:10755-10771 | Sums of finite numbers, infinities and NaN. |
| XPathLaws.Aggregates | thirdparty/pugixml/pugixml.cpp:10724-10771 | `count()` counts the nodes and `sum()` adds their numbers. |
| XPathLaws.NodeSetValue | thirdparty/pugixml/pugixml.cpp:10667-10691 | A node set is true when it has a node, and its string is that of its first node in document order. |
| XPathLaws.UnionNodes | thirdparty/pugixml/pugixml.cpp:11120-11136 | A union has the nodes of both sides, each once, in document order. |
| XPathLaws.FilterNodes | thirdparty/pugixml/pugixml.cpp:11138-11150 | A filter numbers the nodes of its operand in document order. |
| XPathLaws.RootNodes | thirdparty/pugixml/pugixml.cpp:11205-11217 | `/` is the document of the context node. |
| XPathLaws.StepSelects | thirdparty/pugixml/pugixml.cpp:10456-10501 | A step selects, in document order, exactly what its axis, test and predicates leave of some node it starts from. |
| XPathLaws.CallMeans | thirdparty/pugixml/pugixml.cpp:10553-11114 | A call passes the context node and its arguments, numbers where the function takes numbers, and stands for what is returned. |
| XPathLaws.FirstCallMeans | thirdparty/pugixml/pugixml.cpp:10880-10965 | `name()` and its like look at the first node of their argument in document order. |
| XPathLaws.TranslateMeans | thirdparty/pugixml/pugixml.cpp:11046-11062 | `translate()` rewrites the string of its first argument character by character. |
| XPathRefine.PickIsSelect | thirdparty/pugixml/pugixml.cpp:10003-10030 | A constant predicate evaluated once selects what evaluating it at every node selects. |
| XPathRefine.ConstantOneCut | thirdparty/pugixml/pugixml.cpp:10462-10466 | A step with the one predicate `[1]` needs only the first node. |
| XPathPosInv.PosInvMeaning | thirdparty/pugixml/pugixml.cpp:11328-11357 | An expression the classifier calls position-invariant has the same value at every position and size. |
| XPathPosInv.PosInvPredicates | thirdparty/pugixml/pugixml.cpp:11359-11372 | Position-invariant predicates filter a set of nodes whatever its order. |
| XPathSteps.CollectStep | thirdparty/pugixml/pugixml.cpp:10478-10487 | One round of the step loop keeps the order flag truthful and, for child, attribute and self steps, the nodes distinct. |
| XPathOptimizeMeaning.OptimizedQuery | thirdparty/pugixml/pugixml.cpp:11248-11326 | For every well-formed query, document and context the optimized query has the same boolean, number and string and in full the same nodes. |
| XPathOptimizeMeaning.OptimizeMeaning | thirdparty/pugixml/pugixml.cpp:11248-11326 | The optimized query means what the query means. |
| XPathRewrites.RewritePositionKeeps | thirdparty/pugixml/pugixml.cpp:11265-11272 | `[position()=e]` and `[e]` select the same nodes. |
| XPathRewrites.MergeStepKeeps | thirdparty/pugixml/pugixml.cpp:11287-11301 | `descendant-or-self::node()/child::x` and its relatives select what `descendant::x` selects when no predicate looks at positions. |
| XPathRewrites.DownwardMerges | thirdparty/pugixml/pugixml.cpp:11287-11301 | A node is on the merged axis exactly when it is on the axis of some node on the descendant-or-self axis. |
| XPathRewrites.UseTableKeeps | thirdparty/pugixml/pugixml.cpp:11303-11315 | A lookup table for constant arguments gives the result of `translate()`. |
| XPathRewrites.UseAttributeKeeps | thirdparty/pugixml/pugixml.cpp:11317-11325 | Comparing an attribute directly gives the value of `@name = value`. |
| XPathOptimize.OptimizeWellFormed | thirdparty/pugixml/pugixml.cpp:11248-11326 | Optimizing a parsed query leaves it well-formed, with classes that tell the truth about their predicates. |
| XPathOptimize.DoubleSlashMerged | thirdparty/pugixml/pugixml.cpp:11287-11301 | `//` in front of a downward step without predicates is merged into it. |
| XPathOptimize.ClassFound | thirdparty/pugixml/pugixml.cpp:11274-11285 | `[1]`, other constants with `[last()]`, and predicates that do not look at positions get their class. |
| XPathOptimize.PositionDropped | thirdparty/pugixml/pugixml.cpp:11265-11272 | `[position() = n]` becomes `[n]`. |
| XPathOptimize.TableUsed | thirdparty/pugixml/pugixml.cpp:11303-11315 | `translate()` with ASCII constants gets a table. |
| XPathOptimize.AttributeTested | thirdparty/pugixml/pugixml.cpp:11317-11325 | `@name = value` is compared on the attributes directly. |
| XPathQueryNode.Optimize | thirdparty/pugixml/pugixml.cpp:11248-11261 | The linked query tree is rewritten in place, children first, to the optimized tree. |
| XPathQueryNode.OptimizeSelf | thirdparty/pugixml/pugixml.cpp:11263-11326 | The rewritings of one node in place, in the order of the code. |
| XPathQueryNode.IsPosInvExpr | thirdparty/pugixml/pugixml.cpp:11328-11357 | The recursive test on linked nodes. |
| XPathTranslate.TableMeaning | thirdparty/pugixml/pugixml.cpp:8784-8866 | The table agrees with plain `translate` on every string. |
| XPathTranslate.TranslateTableGenerate | thirdparty/pugixml/pugixml.cpp:8806-8836 | A table is made exactly when all characters are ASCII, and it is the table of the two strings. |
| XPathTranslate.Translate | thirdparty/pugixml/pugixml.cpp:8784-8804 | The in-place rewriting of the buffer. |
| XPathTranslate.TranslateTable | thirdparty/pugixml/pugixml.cpp:8838-8866 | The in-place rewriting through the table. |
| XPathTranslate.TranslateOne | thirdparty/pugixml/pugixml.cpp:8784-8804 | One character is kept if the first string does not have it, else replaced by the counterpart of its first occurrence, or dropped without one. |
| XPathTranslate.TranslateConcat | thirdparty/pugixml/pugixml.cpp:8784-8804 | Characters are translated one by one. |
| XmlGap.Gap.Push | thirdparty/pugixml/pugixml.cpp:2450-2466 | Dropping characters collapses the gap before and widens it. |
| XmlGap.Gap.Flush | thirdparty/pugixml/pugixml.cpp:2468-2480 | Closing the gap leaves exactly the kept text. |
| XmlGap.Replace | thirdparty/pugixml/pugixml.cpp:2483-2621 | Replacing source text by text no longer than it keeps a conversion under way on course. |
| XmlDecode.EscapeAt | thirdparty/pugixml/pugixml.cpp:2483-2621 | A reference is never shorter than what it becomes, even when its number wraps modulo 2^32, so writing never passes reading. |
| XmlDecodeLaws.CharacterReference | thirdparty/pugixml/pugixml.cpp:2489-2546 | `&#...;` and `&#x...;`, with digits of either case that denote any number, become the character of that number modulo 2^32. |
| XmlDecodeLaws.NamedReference | thirdparty/pugixml/pugixml.cpp:2548-2614 | The five named references become their characters. |
| XmlDecodeLaws.EscapeExactly | thirdparty/pugixml/pugixml.cpp:2483-2621 | At an ampersand the text becomes what a reference standing there means, or is kept as it is. |
| XmlDecodeLaws.Utf8Layout | thirdparty/pugixml/pugixml.cpp:1504-1562 | Character numbers below 2^21 take the bytes of RFC 3629. |
| XmlDecodeLaws.RawStep | thirdparty/pugixml/pugixml.cpp:2694-2853 | One raw character: white space becomes a blank in attribute values, carriage returns become line feeds in content, pairs count once, and everything else is kept. |
| XmlDecodeLaws.RawAttribute | thirdparty/pugixml/pugixml.cpp:2819-2853 | In a raw attribute value every white space character becomes a blank and nothing else changes, whatever the length. |
| XmlDecodeLaws.RawContent | thirdparty/pugixml/pugixml.cpp:2694-2743 | In raw content every carriage return becomes a line feed and nothing else changes. |
| XmlDecodeLaws.PairStep | thirdparty/pugixml/pugixml.cpp:2718-2723 | A carriage return and a line feed are read as one line feed. |
| XmlDecodeLaws.EndStep | thirdparty/pugixml/pugixml.cpp:2636-2743 | Where each kind of text ends. |
| XmlDecodeLaws.NoEnd | thirdparty/pugixml/pugixml.cpp:2656-2689 | A value or a section without its end is reported. |
| XmlDecodeLaws.TrimmedExactly | thirdparty/pugixml/pugixml.cpp:2706-2717 | Trimming drops exactly the white space at the end. |
| XmlStrconv.StrconvEscape | thirdparty/pugixml/pugixml.cpp:2483-2621 | The reference at an ampersand is replaced in place as its functional decoding says. |
| XmlConvert.StrconvAttribute | thirdparty/pugixml/pugixml.cpp:2819-2911 | In place, the buffer from the value on becomes the decoded value with a terminator; nothing before it or behind the quotation mark changes; a missing quotation mark is reported. |
| XmlConvert.StrconvPcdata | thirdparty/pugixml/pugixml.cpp:2694-2743 | In place, the buffer becomes the decoded text, trimmed when asked to, for all eight options. |
| XmlConvert.StrconvSection | thirdparty/pugixml/pugixml.cpp:2636-2690 | Comments and CDATA sections in place, with the character that the terminator replaced. |
| XmlConvert.DecodeStep | thirdparty/pugixml/pugixml.cpp:2694-2743 | One-pass decoding takes one step at a time. |
| XmlChars.TextOutputEscaped | thirdparty/pugixml/pugixml.cpp:3961-4011 | Runs of usual characters are written at once; the output is the character-wise escape. |
| XmlPrintLaws.EscapedOne | thirdparty/pugixml/pugixml.cpp:3961-4011 | What is printed for one character in content and in attribute values. |
| XmlPrintLaws.EscapedConcat | thirdparty/pugixml/pugixml.cpp:3961-4011 | Text is escaped character by character. |
| XmlSurvive.AttributeSurvives | thirdparty/pugixml/pugixml.cpp:2819-2911 | For every text, either quotation mark and every line-end option the printed value is read back and reading stops right behind the quotation mark. |
| XmlSurvive.ContentSurvives | thirdparty/pugixml/pugixml.cpp:2694-2743 | Printed element content is read back with its line ends normalized. |
| XmlSurvive.ContentSurvivesExactly | thirdparty/pugixml/pugixml.cpp:2694-2743 | Element content survives printing and reading if and only if it has no carriage return. |
| XmlSurvive.ReturnLost | thirdparty/pugixml/pugixml.cpp:2694-2743 | A concrete text, a carriage return, that comes back as a line feed. |
| XmlPrint.NodeOutput | thirdparty/pugixml/pugixml.cpp:4291-4382 | For trees of all node kinds the pointer walk of the printer writes the recursively printed tree. |
| XmlPrint.OutputSimple | thirdparty/pugixml/pugixml.cpp:4229-4283 | Every kind of node without children: character data, CDATA sections, comments, processing instructions, declarations and document types. |
| XmlPrintLaws.CommentPrinted | thirdparty/pugixml/pugixml.cpp:4083-4106 | A comment is printed between its marks as its text with a blank behind every hyphen in front of another one or at the end, and nothing else. |
| XmlPrintLaws.CommentBack | thirdparty/pugixml/pugixml.cpp:4083-4106 | A printed comment whose hyphens need no blanks, without carriage returns, is read back by the converter for comments as its text, which ends where the comment ends. |
| XmlPrintLaws.InstructionPrinted | thirdparty/pugixml/pugixml.cpp:4108-4127 | Likewise a processing instruction, with a blank between every question mark and the bracket behind it. |
| XmlPrintLaws.InstructionBack | thirdparty/pugixml/pugixml.cpp:4108-4127 | The value of an instruction that does not contain its end stands there as it is, and the parser skips just that far. |
| XmlPrintLaws.DoctypeBack | thirdparty/pugixml/pugixml.cpp:4267-4278 | The text of a well-closed document type stands there as it is, and the parser skips just that far. |
| XmlPrintLaws.DeclarationPrinted | thirdparty/pugixml/pugixml.cpp:4260-4265 | A declaration has between its marks what the start tag of an element of that name and those attributes has. |
| XmlPrintLaws.Anonymous | thirdparty/pugixml/pugixml.cpp:4157-4163 | What has no name is printed as if it were named `:anonymous`. |
| XmlPrintLaws.EmbeddedValue | thirdparty/pugixml/pugixml.cpp:4198-4216 | A value embedded in an element is printed as a first child of character data would be. |
| XmlSimple.OutputBody | thirdparty/pugixml/pugixml.cpp:4083-4127 | Comments and processing instructions: runs are written at once, with a blank wherever the markup would end. |
| XmlSimple.OutputSections | thirdparty/pugixml/pugixml.cpp:4021-4041 | A CDATA text is written in sections, cut between the brackets that would close one. |
| XmlSimple.PiecesJoined | thirdparty/pugixml/pugixml.cpp:4021-4041 | The texts of the sections together are the text. |
| XmlSimple.PiecesClosed | thirdparty/pugixml/pugixml.cpp:4021-4041 | No section is closed before its end. |
| XmlSimple.BodyUnbroken | thirdparty/pugixml/pugixml.cpp:4083-4127 | Nothing in the body of a printed comment or instruction ends it. |
| XmlSimple.CommentSkipped | thirdparty/pugixml/pugixml.cpp:3103-3110 | The parser skips exactly the comment that was printed, also when its last bracket has made room for the terminator. |
| XmlSimple.PiSkipped | thirdparty/pugixml/pugixml.cpp:3266-3270 | Likewise for a processing instruction. |
| XmlSimple.PieceBack | thirdparty/pugixml/pugixml.cpp:2664-2690 | The text of a printed section is read back if it has no carriage return. |
| XmlPrint.OutputAttributes | thirdparty/pugixml/pugixml.cpp:4129-4155 | Writes all attributes with the chosen quotation mark. |
| XmlParse.ParseAdvances | thirdparty/pugixml/pugixml.cpp:3279-3533 | Every construct the parser takes moves it forward inside the text and keeps the stack of open elements. |
| XmlSimpleBack.DoctypeAt | thirdparty/pugixml/pugixml.cpp:3155-3177 | A document type inside of an element is an error; in front of the root it is skipped if it is well closed, and an error otherwise. |
| XmlRoundTrip.DoctypeInFront | thirdparty/pugixml/pugixml.cpp:3155-3177 | For every good document and well-closed text, a document type in front of the printed document changes nothing in what is parsed. |
| XmlRoundTrip.DoctypeBehindStart | thirdparty/pugixml/pugixml.cpp:3159-3159 | Behind the start tag of an element it is `status_bad_doctype`, whatever follows. |
| XmlParseLaws.SpaceSkipped | thirdparty/pugixml/pugixml.cpp:3458-3470 | White space alone in front of a tag or the end is skipped. |
| XmlParseLaws.OutsideSkipped | thirdparty/pugixml/pugixml.cpp:3516-3522 | Text outside of elements is skipped up to the next tag or the end. |
| XmlParseLaws.InputEnds | thirdparty/pugixml/pugixml.cpp:3528-3530 | Input that ends with elements open is `status_end_element_mismatch`. |
| XmlParseLaws.NoTag | thirdparty/pugixml/pugixml.cpp:3453-3454 | A bracket without a name or a sign of markup behind it is `status_unrecognized_tag`, or `status_bad_pi` when a question mark was cut off. |
| XmlParseLaws.CommentExactly | thirdparty/pugixml/pugixml.cpp:3085-3114 | A comment reaches to the first `-->`, and without one is `status_bad_comment`. |
| XmlParseLaws.CommentBroken | thirdparty/pugixml/pugixml.cpp:3113-3113 | `<!-` without a second hyphen is `status_bad_comment`. |
| XmlParseLaws.InstructionExactly | thirdparty/pugixml/pugixml.cpp:3185-3277 | An instruction reaches to the first `?>` behind its name, and without one is `status_bad_pi`. |
| XmlParseLaws.SectionUnclosed | thirdparty/pugixml/pugixml.cpp:3115-3131 | A CDATA section without its end is `status_bad_cdata`. |
| XmlParseLaws.SectionBroken | thirdparty/pugixml/pugixml.cpp:3115-3153 | `<![` that does not go on with `CDATA[` is `status_bad_cdata`. |
| XmlParseLaws.NoDeclaration | thirdparty/pugixml/pugixml.cpp:3178-3180 | `<!` with nothing known behind it, also where the last character was cut off. |
| XmlParseLaws.EndTagCloses | thirdparty/pugixml/pugixml.cpp:3406-3438 | An end tag of the right name closes the innermost element if only white space is behind the name, and is `status_bad_end_element` otherwise. |
| XmlParseLaws.EndTagMismatch | thirdparty/pugixml/pugixml.cpp:3412-3424 | An end tag of another name, or with no element open, is `status_end_element_mismatch`, unless the name was cut off. |
| XmlParseLaws.StartBroken | thirdparty/pugixml/pugixml.cpp:3389-3404 | What may not follow the name in a start tag is `status_bad_start_element`. |
| XmlParseLaws.AttributeReads | thirdparty/pugixml/pugixml.cpp:3316-3352 | An attribute: white space is allowed around the equals sign, and the value is converted up to its quotation mark. |
| XmlParseLaws.AttributeBroken | thirdparty/pugixml/pugixml.cpp:3316-3356 | Every way for an attribute to be `status_bad_attribute`. |
| XmlParseLaws.StartEnds | thirdparty/pugixml/pugixml.cpp:3357-3384 | Every way for a start tag to end, and `status_bad_start_element`. |
| XmlParseLaws.StartTagRuns | thirdparty/pugixml/pugixml.cpp:3309-3388 | All attributes are read up to the end of the tag; the first error among them is the result of the parser. |
| XmlParseLaws.DocumentResult | thirdparty/pugixml/pugixml.cpp:3560-3605 | The result of parsing: an error of the run, a cut-off bracket, a document without an element, or the nodes. |
| XmlMarkup.PassGroup | thirdparty/pugixml/pugixml.cpp:3030-3074 | The scan of a document type with its nested groups, ignored sections, quotations and comments finds what the recursive description says. |
| XmlDoctype.DoctypeExactly | thirdparty/pugixml/pugixml.cpp:2966-3074 | A document type is skipped if and only if it is made of characters, quotations, instructions, comments, groups and ignored sections that are all closed, and exactly up to its end. |
| XmlMarkup.PassPrimitive | thirdparty/pugixml/pugixml.cpp:2966-2997 | One quotation, instruction or comment inside a document type. |
| XmlMarkup.PassIgnore | thirdparty/pugixml/pugixml.cpp:2999-3028 | An ignored section with others inside it. |
| XmlShift.DecodeShift | thirdparty/pugixml/pugixml.cpp:2441-2621 | Decoding a text from a position on is decoding the text that begins there. |
| XmlShift.DecodeFits | thirdparty/pugixml/pugixml.cpp:2441-2621 | What is decoded leaves room for its terminator in front of what is read next. |
| XmlInPlace.TakeName | thirdparty/pugixml/pugixml.cpp:3298-3303 | A name is terminated where it stands, after the character behind it is saved. |
| XmlInPlace.TakeAttributes | thirdparty/pugixml/pugixml.cpp:3311-3387 | The attribute loop terminates names and converts values in place, and finds what the functional loop finds. |
| XmlInPlace.TakeStartTag | thirdparty/pugixml/pugixml.cpp:3296-3405 | Start tags in place, with every way to end one and every error. |
| XmlInPlace.TakeEndTag | thirdparty/pugixml/pugixml.cpp:3406-3439 | End tags: the name is compared with that of the open element character by character. |
| XmlInPlace.TakeExclamation | thirdparty/pugixml/pugixml.cpp:3076-3183 | Comments, CDATA sections and document types in place. |
| XmlInPlace.TakeQuestion | thirdparty/pugixml/pugixml.cpp:3185-3277 | Processing instructions and declarations are skipped. |
| XmlInPlace.TakeText | thirdparty/pugixml/pugixml.cpp:3456-3526 | Character data is converted in place; white space alone and text outside of elements are skipped. |
| XmlInPlace.StackKept | thirdparty/pugixml/pugixml.cpp:3279-3533 | What is read later never touches the names and values of nodes that are done. |
| XmlInPlace.ParseTreeInPlace | thirdparty/pugixml/pugixml.cpp:3279-3533 | With the default options, on every text: the parser that overwrites its buffer yields the nodes, with all strings standing in the buffer, or the error of the parsing machine. |
| XmlInPlace.ParseInPlace | thirdparty/pugixml/pugixml.cpp:3560-3605 | The last character makes room for the terminator, a byte order mark is skipped, and a document without element is an error. |
| XmlInPlace.TreeBack | thirdparty/pugixml/pugixml.cpp:3279-3533 | The nodes that the buffer holds are those that are read from it as terminated strings. |
| XmlRoundTrip.PrintThenParse | thirdparty/pugixml/pugixml.cpp:3560-3605 | Printing a document of nodes of all kinds but document types and parsing the printed text, where it stands or as a copy with a terminator, gives exactly what the document shows: its elements, character data and CDATA sections. |
| XmlRoundTrip.RoundTrip | thirdparty/pugixml/pugixml.cpp:3560-3605 | A document of elements, character data and CDATA sections that do not contain their own end comes back exactly as it is. |
| XmlRoundTrip.BufferReads | thirdparty/pugixml/pugixml.cpp:3560-3605 | Likewise behind a byte order mark and a declaration. |
| XmlRoundTrip.NodeLeads | thirdparty/pugixml/pugixml.cpp:3279-3533 | A printed node is read as what it shows, also when the last character of the text is missing. |
| XmlRoundTrip.ElementLeads | thirdparty/pugixml/pugixml.cpp:3279-3533 | A printed element is read as one child of the element around it. |
| XmlSimpleBack.SectionsLead | thirdparty/pugixml/pugixml.cpp:3115-3151 | Printed CDATA sections become one node each. |
| XmlSimpleBack.QuestionLeads | thirdparty/pugixml/pugixml.cpp:3185-3277 | A printed instruction or declaration leaves the open elements as they are. |
| XmlReadBack.AllAttributes | thirdparty/pugixml/pugixml.cpp:3311-3387 | Printed attributes are read back, all of them and in order. |
| XmlUtf8.Process | thirdparty/pugixml/pugixml.cpp:1654-1718 | Decoding with aligned blocks of four equals decoding byte by byte, whatever the address. |
| XmlUtf8.SplitExactly | thirdparty/pugixml/pugixml.cpp:1654-1718 | Conversion distributes over a cut if and only if there is nothing to convert or no sequence goes across the cut. |
| XmlUtf8.EncodedSplit | thirdparty/pugixml/pugixml.cpp:1654-1718 | That is so wherever the text is cut before a byte that begins a sequence or behind three that continue one. |
| XmlUtf8.SplitLoses | thirdparty/pugixml/pugixml.cpp:1654-1718 | A concrete text that loses its code point when it is cut inside a sequence. |
| XmlUtf8.PointsBack | thirdparty/pugixml/pugixml.cpp:1504-1547 | UTF-8 decoding undoes UTF-8 writing for all code points below 2^21. |
| XmlEncodingLaws.EncodedPoint | thirdparty/pugixml/pugixml.cpp:1564-1652 | The first character of a text, whatever sequence of UTF-8 it is, is written as UTF-16 with its surrogates, UTF-32 and Latin-1 want it, and then the rest of the text. |
| XmlEncodingLaws.InvalidDropped | thirdparty/pugixml/pugixml.cpp:1654-1718 | A byte that begins no sequence is dropped alone. |
| XmlEncodingLaws.OtherByteOrder | thirdparty/pugixml/pugixml.cpp:3645-3658 | Writing in the other byte order reverses the bytes of every unit. |
| XmlEncodingLaws.SwapsBytes | thirdparty/pugixml/pugixml.cpp:1473-1481 | Which bytes of a unit of 16 or 32 bits go where. |
| XmlUtf8.EncodedFits | thirdparty/pugixml/pugixml.cpp:3934-3955 | Converted text takes at most four bytes for each of its own, so the scratch space is never overrun. |
| XmlTranscode.PassesAgree | thirdparty/pugixml/pugixml.cpp:1483-1590 | For UTF-8, UTF-16 and UTF-32 the counting pass of any decoder gives the number of units that the writing pass writes. |
| XmlTranscode.ConvertBufferGeneric | thirdparty/pugixml/pugixml.cpp:2209-2232 | The second pass fills the buffer that the first one measured exactly, for input in UTF-16 and UTF-32 of either byte order and in Latin-1. |
| XmlTranscode.OneBack | thirdparty/pugixml/pugixml.cpp:1721-1819 | A code point that an encoding has is decoded from the units that were written for it, whatever comes behind them. |
| XmlEncodingLaws.LoneDropped | thirdparty/pugixml/pugixml.cpp:1721-1771 | A surrogate without a partner is dropped alone. |
| XmlTranscode.FirstShrinks | thirdparty/pugixml/pugixml.cpp:1721-1771 | A code point that an encoding does not have, a surrogate for instance, comes back shorter, even when it finds a partner. |
| XmlTranscode.ThereAndBack | thirdparty/pugixml/pugixml.cpp:2209-2232 | For every sequence of code points below 2^21, text that is converted for output and read again comes back if and only if the encoding has all of its code points: scalar values in UTF-16, all in UTF-32, those below 256 in Latin-1. |
| XmlWriter.GetValidLength | thirdparty/pugixml/pugixml.cpp:3707-3721 | A chunk ends where a sequence begins or behind four continuing bytes. |
| XmlWriter.BufferedWriter.Flush | thirdparty/pugixml/pugixml.cpp:3758-3781 | After a flush the sink has received exactly the encoding of everything written, if every piece began where a sequence begins. |
| XmlWriter.BufferedWriter.WriteDirect | thirdparty/pugixml/pugixml.cpp:3783-3820 | Long data goes to the sink in valid chunks and its tail into the buffer. |
| XmlWriter.BufferedWriter.WriteString | thirdparty/pugixml/pugixml.cpp:3837-3860 | Fills the buffer and takes back the part of a sequence that it split. |
| XmlWriter.BufferedWriter.WriteBuffer | thirdparty/pugixml/pugixml.cpp:3822-3835 | Appends data of any length to what is written. |
| XmlWriter.BufferedWriter.Write | thirdparty/pugixml/pugixml.cpp:3862-3929 | Appends one to six characters to what is written. |
| XmlSaveLoad.Save | thirdparty/pugixml/pugixml.cpp:7459-7485 | `save` with a byte order mark and a declaration as far as they are wanted: the sink receives the encoding of the whole text. |
| XmlSaveLoad.SavedExactly | thirdparty/pugixml/pugixml.cpp:7459-7485 | The saved text: the mark unless the encoding is Latin-1, the declaration with its encoding, and the printed document. |
| XmlSaveLoad.DeclaredExactly | thirdparty/pugixml/pugixml.cpp:4384-4395 | No declaration is written if one stands among the children before the first element. |
| XmlSaveLoad.Load | thirdparty/pugixml/pugixml.cpp:4754-4788 | `load_buffer`: the converted copy with its terminator is parsed in place. |
| XmlSaveLoad.SaveThenLoad | thirdparty/pugixml/pugixml.cpp:4754-4788 | A document that is saved in any encoding that has its characters and loaded again is what it shows: the nodes in the buffer of the parser have the same names, attributes, values and order. |
| XmlInteger.OverflowMeaning | thirdparty/pugixml/pugixml.cpp:4588-4618 | The test on digit count, leading digit and high bit of the wrapped result tells exactly whether the number fits, for 16, 32 and 64 bits, decimal and hexadecimal, and any number of digits. |
| XmlInteger.StringToInteger | thirdparty/pugixml/pugixml.cpp:4552-4632 | Returns the mathematical value of the text clamped to the range, modulo the width; with 16 bits and a sign, the smallest value. |
| XmlInteger.ConvertedExactly | thirdparty/pugixml/pugixml.cpp:4621-4631 | The result is the clamped value if and only if the text is not negative, or the type is not a signed one of 16 bits, or the value is not above the smallest one. |
| XmlIntegerLaws.MeantExactly | thirdparty/pugixml/pugixml.cpp:4552-4619 | White space, a sign, a prefix and digits of either base denote their number, negated behind a minus, whatever comes behind them. |
| XmlIntegerLaws.ConvertedSaturates | thirdparty/pugixml/pugixml.cpp:4621-4632 | What lies in the range is converted to itself, what lies outside to the end of the range on its side. |
| XmlInteger.MinusOneLost | thirdparty/pugixml/pugixml.cpp:4621-4631 | A concrete text, "-1", that 16 bits take for the smallest value. |
| XmlInteger.IntegerToString | thirdparty/pugixml/pugixml.cpp:4683-4701 | Writes the sign and digits of the number at the end of a buffer of 64 characters, never before its begin. |
| XmlInteger.UnsignedRoundTrip | thirdparty/pugixml/pugixml.cpp:4634-4681 | Every unsigned number of every width is read back as it was printed. |
| XmlInteger.SignedRoundTrip | thirdparty/pugixml/pugixml.cpp:4634-4681 | Every signed number of 32 and 64 bits is read back, the smallest included; with 16 bits exactly those that are not negative, and the smallest. |
| XmlDom.AppendNode | thirdparty/pugixml/pugixml.cpp:1252-1271 | The pointer assignments amount to inserting the child behind the last one. |
| XmlDom.PrependNode | thirdparty/pugixml/pugixml.cpp:1273-1289 | The pointer assignments amount to inserting the child before the first one. |
| XmlDom.InsertNodeAfter | thirdparty/pugixml/pugixml.cpp:1291-1308 | The pointer assignments amount to inserting the child behind a given one. |
| XmlDom.InsertNodeBefore | thirdparty/pugixml/pugixml.cpp:1310-1327 | The pointer assignments amount to inserting the child before a given one. |
| XmlDom.RemoveNode | thirdparty/pugixml/pugixml.cpp:1329-1349 | The pointer assignments amount to taking the child out of its list. |
| XmlDom.InsertedLinked | thirdparty/pugixml/pugixml.cpp:1252-1327 | Inserting keeps parent, first child, next and circular previous pointers true of the lists of children. |
| XmlDom.RemovedLinked | thirdparty/pugixml/pugixml.cpp:1329-1349 | Removing keeps all pointers true of the lists of children, the head leading to the new tail. |
| XmlMove.AllowMove | thirdparty/pugixml/pugixml.cpp:4420-4442 | The answer is true exactly when the kinds fit, both nodes are in one document, and the new parent is not in the subtree of the child. |
| XmlMove.TopIsRoot | thirdparty/pugixml/pugixml.cpp:5772-5775 | The document in whose pages a node lies, which `root` returns, is the one on top of its tree. |
| XmlMove.MoveSound | thirdparty/pugixml/pugixml.cpp:6187-6253 | Taking a node out and linking it in anywhere but below itself leaves linked, acyclic trees under document nodes. |
| XmlMove.MoveLayered | thirdparty/pugixml/pugixml.cpp:4420-4442 | A move the guard admits makes no cycle. |
| XmlMove.AppendMove | thirdparty/pugixml/pugixml.cpp:6187-6201 | The structure stays a tree; the node becomes the last child exactly when the move is allowed, and no name changes. |
| XmlMove.PrependMove | thirdparty/pugixml/pugixml.cpp:6203-6217 | Likewise, as the first child. |
| XmlMove.InsertMove | thirdparty/pugixml/pugixml.cpp:6219-6253 | Likewise, behind or before a child of the new parent. |
| XmlMove.MovedToPlace | thirdparty/pugixml/pugixml.cpp:6187-6217 | After a move to the front or the end the node is the first or last child, and without it every list of children is what it was. |
| XmlMove.MovedBeside | thirdparty/pugixml/pugixml.cpp:6219-6253 | After a move beside another child the two are neighbours in the order asked for, and nothing else has changed. |
| XmlMove.AppendChild | thirdparty/pugixml/pugixml.cpp:6011-6026 | A new node of an allowed kind becomes the last child, a declaration with the name `xml`, and the structure stays a tree. |
| XmlMove.NewDocument | thirdparty/pugixml/pugixml.cpp:4411-4442 | A new document beside others: the start of a run. |
| XmlMove.Run | thirdparty/pugixml/pugixml.cpp:4411-4442 | Over any run of new documents, new children and moves, allowed or not, between any nodes, the structure stays trees under documents, in which only documents and elements have children, no document is a child, and declarations and document types stand below documents alone. |

## Left out

JSON

- Text and binary parsing and dumping, iterators, allocators and discarded values of nlohmann::json.
- Floating-point rounding and NaN in JSON: a float is an ideal real, and comparing an integer with it is exact.
- The order in which C++ evaluates the operands of `replace` and `test`: the value member is read before the pointer is resolved.
- Assertions of the library that are compiled out: adding to a primitive parent is reported as an assertion failure.
- References into a document: an assignment through the reference that `at` returns is the document with that part replaced.
- The order of object members is arbitrary in `diff` and `merge_patch`, so the statements hold for every order.
- Arrays are shorter than 2^64, which the type of their size guarantees.

XPath

- The query lexer and parser: the shape they guarantee, node sets where they demand them and unclassified predicates chained on steps, is what `WellFormed` and `Fresh` state (thirdparty/pugixml/pugixml.cpp:11493, 11832, 11859, 12144, 12263).
- The meaning of the library functions, of conversions between strings and numbers, and of variables is arbitrary, one and the same before and after optimization; `translate()` is modelled.
- Numbers are NaN, infinities and exact reals: rounding is not modelled, so a sum does not depend on the order of its operands.
- Node-set variables hold nodes of the document, each once, with a true order flag.
- The namespace axis has no nodes and `id()` is empty, as in the code.
- In the meaning of a query an attribute name selects the first attribute of that name, as in the code; `XPathFill.AttributeNameStep` and `XPathMeaning.StepFromAll` say when that is all of them. Missing names are empty strings, and names are not compared with missing ones.
- XPathOrder.CompareDocumentOrder: without the buffer-pointer shortcut of `document_buffer_order`, and for nodes of one document, because the addresses of strings are not part of the tree.
- The document does not change while a query is evaluated, so its pointers are functions of paths; `XmlDom` and `XmlMove` show that the linked nodes keep such pointers.
- The hash function is any function of the key; reducing a bucket with a mask is the remainder modulo a power of two; addresses are the nodes themselves.
- `step_fill` returns the nodes it pushes, and they are appended to the set afterwards; growing the array is modelled for single nodes only.
- The instances of `step_fill` for the axes are methods chosen by a parameter.
- Query values other than the result of a node-set query, memory of the evaluator, and running out of it.

XML text

- `parse_wnorm_attribute`, and the options that merge, embed or trim character data in whole documents, or that keep comments, processing instructions, declarations and document types as nodes; the trimming conversion and that of comments are modelled by themselves.
- Buffers with a terminator inside, error offsets, detection of encodings, and loading of files and streams.
- A document type that leaves something open, or closes more than it opens: its text is printed as it is and ends where the parser finds its end, so `GoodDocument` leaves it out of the round trip.
- XmlPrint.NodeOutput: `format_raw` only, without `format_no_escapes` and `format_no_empty_element_tags`; it returns the text, which is then written in one piece. An empty name or value stands for a missing one.
- XmlInPlace.ParseTreeInPlace: nodes are values whose names and values are positions in the buffer; elements that are open form a stack, where the code links them into the document at once.
- The chain of comparisons for the named entities is a loop over the name; the template instances of the conversions are one loop with parameters.
- Wide characters, the copy of the ASCII part of Latin-1 input, and input that is UTF-8 already and whose buffer is reused.
- The sink receives units of the output encoding, not bytes.

Document nodes and memory

- Attribute lists, removal with destruction, copying of subtrees, and the page allocator; which document a node's pages belong to is a constant of the node.
- XmlMove.AppendChild: inserting new children elsewhere than at the end is not modelled.

Integers

- Reading booleans and floating-point numbers.

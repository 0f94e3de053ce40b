# Verification of the light library

A Dafny model of the parts of the light library that carry algorithms and
protocols, with proofs of what they promise.

- **The XML and XPath engine** (pugixml): the query optimiser and the evaluator
  against a reference semantics of XPath 1.0, the axis walks, document order and
  its buffer-pointer shortcut, the partition sort, in-place decoding, parser and
  printer, number conversion, the page allocator, the pointer hash table, editing
  and copying of the linked tree, and conversion between character encodings.
- **The framed message session**: header layout, fragmenting, the write buffer
  with its overflow list, reading in chunks, reassembly, and delivery from end to
  end.
- **The paged queue** for many producers and one consumer, as a transition system
  over all interleavings.
- **The reader/writer lock** built from a critical section, an event and a
  semaphore, for any number of threads.

Nothing was executed; every statement below is a theorem about the model.

## How the model is built

| files | part |
|---|---|
| `Document`, `Axes`, `DocumentOrder` | the linked document, the axis walks, document order |
| `XPath`, `XPathOptimize`, `XPathPredicates`, `XPathEval`, `XPathQuery`, `NodeSets` | reference semantics, optimiser, evaluator, queries |
| `XPathLaws`, `XPathValues`, `StringValues`, `AxisLaws`, `OptimizeLaws` | what the reference semantics, the axes and the optimiser are, said without them |
| `Sort` | sorting and removal of duplicates on arrays |
| `Unescape`, `InPlace`, `XmlParse`, `XmlParser`, `XmlPrint`, `XmlRoundTrip`, `XmlExact`, `Runs` | decoding, parsing and printing, each as a function and as the loop on the buffer |
| `XmlGrammar`, `XmlReject`, `LineEnds`, `XmlText`, `Numerals` | what is accepted, by a grammar; what is refused; white space, entities, digits and layout spelled out |
| `ParseOrder`, `BufferOrder` | where names and values lie, and comparison by pointers |
| `TreeEdit`, `TreeCopy` | linking, moving and copying nodes |
| `Utf`, `Reload`, `Transcode`, `OutputWriter`, `EncodingValues` | encodings, their loops, the buffered writer, and the encodings by value |
| `Integers`, `Allocator`, `HashTable`, `Probing`, `Arithmetic` | numbers, memory pages, hash table |
| `Transaction`, `Buffer`, `Framing`, `Session` | the message session |
| `MessageQueue`, `QueueDrains`, `RwLock` | the concurrent parts |
| `Bytes`, `Options`, `Collections` | shared definitions |

Code that changes state is modelled by methods and classes over arrays and fields,
each proved against a function or predicate; the theorems are about those. Where such a
function follows the code, a law says what it computes in other terms: by counting, by
value, by characters or by a grammar. Nodes are
known by their index instead of their address. Numbers in XPath are `real` or NaN,
strings in XPath are `seq<char>`, elsewhere bytes. Functions of the C library and the
floating-point formatting of XPath are parameters (`Lib`).

## What the proofs found

- A relational comparison of a boolean with a node set iterates over the set, where
  section 3.4 of XPath 1.0 converts it to a boolean; the model follows the code, and
  `XPath.SetAgainstBoolean` says exactly when the two differ.
- `attribute::name` stops at the first hit, so a repeated attribute is never selected.
  The parser accepts such documents; the evaluator is proved on them too, with the axis
  read as the library reads it (`World.firstOnly`), and against the definition of the
  axis where names are unique.
- The document order comparator holds for an attribute and itself; sorting is right
  nevertheless.
- A frame header whose body length is from -20 to -1 passes the test for a whole frame,
  as the sum wraps to a small size, and fails the assertion in `Buffer::retrieve`. Other
  negative lengths close the session.
- The serial number of a fragment has 16 bits; a message whose last fragment has
  number 0 modulo 65536 is taken for a single frame.
- A client heartbeat is answered by a client heartbeat, which a peer session answers
  again.
- The full test and the claim of the queue are two steps; with three producers
  between them, in any configuration, a page can be freed while it is written.
- 65536 readers at once make the lock's word read as owned by a writer.
- A reader of the lock that is slow to wait can be forgotten: the event it waits for is
  reset by another reader that leaves, and nobody sets it again until the next reader or
  writer comes.
- Two writes that each hold half of a UTF-8 sequence print differently depending on
  where the output buffer ends. A cut between two writes is made only when the buffer is
  full, so a text that fits comes out whole in spite of its halves; the exact condition is
  on the cuts that are made, and `OutputWriters.SharedSequenceIsLost` names the capacity
  at which a shared sequence is cut.

## Model

| member | source | states |
|---|---|---|
| XPathOptimize.OptimizeKeepsMeaning | library/base/src/pugixml.cpp:10620-10733 | for every well-typed expression, document and context, the optimised expression has the same value (node sets as sets) and is well typed |
| XPathOptimize.OptimizeKeepsTypes | library/base/src/pugixml.cpp:10629-10687 | the rewritten expression has the type of the original |
| XPathOptimize.OptimizeAnnotates | library/base/src/pugixml.cpp:10639-10650 | after optimising, each classification of a predicate is true of it: constant one, constant, or position-invariant |
| XPathOptimize.PosInvSound | library/base/src/pugixml.cpp:10689-10718 | an expression accepted by is_posinv_expr has the same value at every position and size |
| XPathOptimize.StripPositionKeepsHolds | library/base/src/pugixml.cpp:10631-10637 | [position()=e] and [e] keep the same nodes |
| XPathOptimize.MergeStepKeepsMeaning | library/base/src/pugixml.cpp:10652-10666 | descendant-or-self::node()/axis::t selects what the merged step selects, for the four axes and position-invariant predicates |
| XPathOptimize.TableTranslates | library/base/src/pugixml.cpp:8196-8280 | the 128-entry table translates every string as the character-by-character definition does |
| XPathOptimize.CompareAttributeStep | library/base/src/pugixml.cpp:10680-10686 | the node set of attribute::name compares equal to a string exactly when the node has such an attribute with that value |
| XPath.SetAgainstBoolean | library/base/src/pugixml.cpp:9264-9333 | for any boolean and node set, either one first, and each of the four operators: the library gives what section 3.4 of XPath 1.0 gives if and only if a condition on the numbers of the nodes holds (Agrees; for the empty set, in the order boolean, set: <, <= with true, > with false) |
| XPath.FiveAboveTrue | library/base/src/pugixml.cpp:9264-9333 | true() < {5} and {5} > true() hold in the library and not by the standard; true() > {} the other way round |
| XPathEval.EvalNodeSet | library/base/src/pugixml.cpp:10492-10533 | in each evaluation mode the result answers for the reference set: all nodes, any node (empty exactly if the set is), or the first (it contains the least node in document order) |
| XPathEval.StepDo | library/base/src/pugixml.cpp:9839-9883 | the same for a step with its axis, predicates, early exit and duplicate removal; a set that stays sorted has no duplicates |
| XPathEval.EvalFilter | library/base/src/pugixml.cpp:10514-10526 | the same for a filter, whose predicate counts positions in document order |
| XPathEval.EvalUnion | library/base/src/pugixml.cpp:10496-10512 | the same for a union |
| XPathEval.ApplyPredicate | library/base/src/pugixml.cpp:9415-9427 | the four predicate loops keep the nodes for which the predicate holds at their original position, the first only if asked for one; the nodes in front stay |
| XPathEval.ApplyPredicates | library/base/src/pugixml.cpp:9429-9437 | a chain of predicates filters one after the other; stopping early in the last changes nothing but the length |
| XPathEval.ApplyPredicateBoolean | library/base/src/pugixml.cpp:9335-9359 | in-place compaction equals filtering |
| XPathEval.ApplyPredicateNumber | library/base/src/pugixml.cpp:9361-9385 | in-place compaction keeps the nodes whose position is the number |
| XPathEval.ApplyPredicateNumberConst | library/base/src/pugixml.cpp:9387-9413 | picking one node by index equals filtering by a number that does not depend on the position |
| XPathEval.EvalBoolean | library/base/src/pugixml.cpp:9935-10071 | the boolean value of the reference meaning, for every expression type |
| XPathEval.EvalNumber | library/base/src/pugixml.cpp:10073-10208 | the number value of the reference meaning; what that is, last() and position() included, XPathLaws and XPathValues say without it |
| XPathEval.EvalString | library/base/src/pugixml.cpp:10259-10490 | the string value of the reference meaning; for node sets that of the first node in document order |
| XPathEval.CompareEq | library/base/src/pugixml.cpp:9171-9257 | equality of any two operand types, quantified over node sets |
| XPathEval.CompareRel | library/base/src/pugixml.cpp:9264-9333 | < and <= of any two operand types, as the reference has them, which on a boolean and a set is the library and not the standard |
| XPathEval.CompareInOrder | library/base/src/pugixml.cpp:9951-9961 | > and >= by exchanging the operands, with the same value |
| XPathEval.EvalCompareAttribute | library/base/src/pugixml.cpp:10680-10686 | the short cut for @name = string finds an attribute exactly if one of that name has that value |
| XPathEval.TranslateByTable | library/base/src/pugixml.cpp:8252-8280 | the in-place loop over the table gives the mapped string |
| XPathPredicates.FirstAttributeIsEnough | library/base/src/pugixml.cpp:9845-9848 | in one step, stopping attribute::name at the first hit loses nothing if and only if no element repeats the name of an attribute visible to XPath |
| XPathPredicates.ReadingsAgree | library/base/src/pugixml.cpp:9845-9848 | the first attribute of a name is all of them, for every node and name, if and only if names are unique |
| XPathPredicates.FoundIsAll | library/base/src/pugixml.cpp:9845-9848 | with unique names the library and the definition of the attribute axis select the same |
| XPathPredicates.RepeatedAttributeIsLost | library/base/src/pugixml.cpp:9845-9848 | a well-formed document with a repeated attribute: the axis has two nodes, of which the first is selected |
| XPathEval.SelectRepeated | library/base/src/pugixml.cpp:9839-9883 | the evaluator run on that document selects one node where the axis has two |
| XPathQueries.XPathQuery.Prepared | library/base/src/pugixml.cpp:10620-10627 | the compiled query is well typed, soundly classified, and means what was parsed |
| XPathQueries.XPathQuery.EvaluateBoolean | library/base/src/pugixml.cpp:12233-12245 | the value of the query as parsed, although the optimised one is evaluated |
| XPathQueries.XPathQuery.EvaluateNumber | library/base/src/pugixml.cpp:12247-12259 | the number the query as parsed means |
| XPathQueries.XPathQuery.EvaluateString | library/base/src/pugixml.cpp:12262-12270 | the string the query as parsed means |
| XPathQueries.XPathQuery.EvaluateNodeSet | library/base/src/pugixml.cpp:12292-12307 | exactly the nodes of the query as parsed, ordered as the type of the result says; an error exactly for other types |
| XPathQueries.XPathQuery.EvaluateNode | library/base/src/pugixml.cpp:12309-12324 | the first node in document order of the query as parsed, null if there is none |
| NodeSets.First | library/base/src/pugixml.cpp:8509-8528 | the least node in document order, however the set is ordered |
| NodeSets.GetOrder | library/base/src/pugixml.cpp:8470-8484 | a set is reported sorted only if it is |
| NodeSets.SortNodes | library/base/src/pugixml.cpp:8486-8507 | sorting by the comparator that puts an attribute before itself: in document order with the same nodes, as often as they were there |
| NodeSets.SortDo | library/base/src/pugixml.cpp:8486-8507 | a set in document order with the same nodes |
| NodeSets.RemoveDuplicates | library/base/src/pugixml.cpp:8614-8620 | the same nodes, each once |
| XPathLaws.StepPicks | library/base/src/pugixml.cpp:9839-9883 | a location step with any chain of predicates, from any nodes, by sets and counting alone: of the nodes of the axis, what each predicate picks by the number of nodes in front and in all |
| XPathLaws.LastPicksLast | library/base/src/pugixml.cpp:10098-10099 | [last()] picks exactly the last of any set in axis order |
| XPathLaws.LastOfEach | library/base/src/pugixml.cpp:10098-10099 | axis::test[last()] from any nodes: of each, exactly the selected node with no later one on a forward axis and no earlier one on a reverse axis |
| XPathLaws.SelectLast | library/base/src/pugixml.cpp:10098-10099 | the same through compiling, optimising and evaluating the query: at most one node, and that one |
| XPathLaws.PositionCounts | library/base/src/pugixml.cpp:10101-10102 | [position() op k] keeps a node exactly if the number of nodes in front, and one, is in the relation to k |
| XPathLaws.NumberPicks | library/base/src/pugixml.cpp:9361-9385 | [k] keeps the node with k - 1 in front |
| XPathLaws.PathLaw | library/base/src/pugixml.cpp:9839-9883 | e/axis::test are the nodes that the axis leads to from a node of e |
| XPathLaws.FilterLaw | library/base/src/pugixml.cpp:10514-10526 | (e)[p] picks by the place in document order, whatever axis e ends with |
| XPathLaws.RootAndUnion | library/base/src/pugixml.cpp:10496-10533 | / is the document, l | r the nodes of either |
| XPathLaws.CountLaw | library/base/src/pugixml.cpp:10104-10109 | count() of a step is the number of nodes that axis and test select |
| XPathValues.LogicLaws | library/base/src/pugixml.cpp:9937-9948 | or, and and not: constants, double negation and De Morgan |
| XPathValues.StepEqualsString | library/base/src/pugixml.cpp:9171-9257 | a step equals a string, or differs from it, exactly if some selected node has that string-value, or another one |
| XPathValues.StepAgainstNumber | library/base/src/pugixml.cpp:9264-9333 | a step is in a relation to a number exactly if the number of some selected node is |
| XPathValues.StepAgainstStep | library/base/src/pugixml.cpp:9171-9333 | two steps compare exactly as some pair of their nodes does: by string-values for = and !=, by numbers otherwise |
| XPathValues.FirstNodeLaw | library/base/src/pugixml.cpp:10317-10330 | string() and number() of a step are those of its first node in document order |
| XPathValues.BehindCounted | library/base/src/pugixml.cpp:10098-10102 | last() - position() is the number of nodes behind |
| XPathValues.ContextLaw | library/base/src/pugixml.cpp:10266-10330 | string() and the name functions without an argument are about the context node |
| XPathValues.TranslateOne | library/base/src/pugixml.cpp:8196-8218 | a character that is not in the second string stays; its first occurrence there names its replacement; without one it goes |
| StringValues.StringValueByLinks | library/base/src/pugixml.cpp:7607-7642 | the string-value of an element or document is that of its children in order, each with what is below it |
| AxisLaws.AxesPartition | library/base/src/pugixml.cpp:9554-9837 | every node that is no attribute is on exactly one of self, ancestor, descendant, following and preceding of any node |
| AxisLaws.AxesConverse | library/base/src/pugixml.cpp:9554-9837 | parent and child, ancestor and descendant, following and preceding, and the sibling axes are each the converse of the other |
| AxisLaws.AxesCompose | library/base/src/pugixml.cpp:9554-9837 | siblings are the nodes with the same parent; the or-self axes are self and the axis; attributes and children are apart |
| AxisLaws.AxesRecursive | library/base/src/pugixml.cpp:9554-9837 | an ancestor is the parent or an ancestor of it, a descendant a child or a descendant of one |
| AxisLaws.TestsNest | library/base/src/pugixml.cpp:9439-9552 | * is any name of the principal kind of the axis, a prefix narrows it, node() passes what any test passes |
| OptimizeLaws.PosInvExactly | library/base/src/pugixml.cpp:10689-10733 | is_posinv_expr accepts exactly the expressions in which neither position() nor last() of this context occurs |
| OptimizeLaws.OptimizeLeavesNothing | library/base/src/pugixml.cpp:10620-10687 | after optimising nothing is left at any depth that a rewrite is for, and every predicate has the best classification that is true of it |
| Axes.StepFill | library/base/src/pugixml.cpp:9554-9837 | for every axis, node test and document: appends exactly the hits of the axis, in its order, or the first of them |
| Axes.HitsAreTheAxis | library/base/src/pugixml.cpp:9554-9745 | the hits are the nodes on the axis that pass the test, each once, in document order or, for reverse axes, against it |
| Axes.FillBackward | library/base/src/pugixml.cpp:9665-9705 | the preceding axis by the cyclic back links visits exactly the nodes before that are not ancestors, backwards |
| Axes.FillForward | library/base/src/pugixml.cpp:9628-9663 | the following axis visits exactly the later nodes that are not descendants |
| Axes.FillBelow | library/base/src/pugixml.cpp:9578-9606 | the descendant walk visits the subtree in document order and stops at its end |
| DocumentOrder.NodeIsBefore | library/base/src/pugixml.cpp:7681-7722 | climbing to siblings decides document order for any two nodes |
| DocumentOrder.DocumentLess | library/base/src/pugixml.cpp:7758-7814 | the comparator without buffer pointers is document order, except that an attribute counts as before itself |
| Sorting.Partition | library/base/src/pugixml.cpp:7105-7156 | the three zones: less, equal, greater, over a rearrangement of the range |
| Sorting.InsertionSort | library/base/src/pugixml.cpp:7073-7103 | a sorted rearrangement |
| Sorting.UnguardedInsert | library/base/src/pugixml.cpp:7087-7100 | the inner loop without a bounds test stays in the range for any comparator, and leaves the element where it is not less than what is in front |
| Sorting.Sort | library/base/src/pugixml.cpp:7184-7212 | a sorted rearrangement of the range for every comparator that orders different elements, whatever it says of an element and itself; nothing outside changes |
| Sorting.UniqueInPlace | library/base/src/pugixml.cpp:7045-7066 | the range without adjacent repetitions |
| Sorting.UniqueOfSorted | library/base/src/pugixml.cpp:7045-7066 | on a sorted range: the same elements, strictly increasing |
| Framing.MessageRoundTrip | library/liblight/session.cpp:72-131 | fragmenting and reassembling gives back the message if and only if the 16-bit serial number has not come round to 0 on the last fragment |
| Framing.SmallOvertakes | library/liblight/session.cpp:111-131 | a message of one frame between the frames of another is dispatched first, and both arrive as they were sent |
| Framing.SerialLimit | library/liblight/session.cpp:72-88 | every body of at most 65536 fragments is safe, and one byte more is not |
| Framing.StreamStep | library/liblight/session.cpp:79-87 | each frame is followed by the rest of its message, and announces one exactly if there is more |
| Framing.HeartbeatsPass | library/liblight/session.cpp:181-192 | heartbeats between any frames change nothing of what is reassembled and dispatched |
| Framing.ConversationArrives | library/liblight/session.cpp:111-131 | any messages, with heartbeats anywhere between their frames, are dispatched whole and in order |
| Framing.ConsumeMore | library/liblight/session.cpp:158-195 | reading a stream in two chunks is reading it at once |
| Framing.StreamArrives | library/liblight/session.cpp:153-211 | of any prefix of the bytes sent, a prefix of the messages is dispatched and no frame is rejected; of all bytes, all messages |
| Framing.EchoIsEchoed | library/liblight/session.cpp:186-188 | the answer to a client heartbeat is itself a client heartbeat, and is answered again |
| Framing.AnswersOf | library/liblight/session.cpp:181-192 | for all bytes and any reader that works on them: the answers are the heads of the client heartbeats among the whole frames read, in order, and no other frame is answered |
| Framing.StreamAnswers | library/liblight/session.cpp:181-192 | of any list of good frames, exactly those of type 1 are answered, in order |
| Framing.FragmentFields | library/liblight/session.cpp:72-88 | number n of the frames of a message: its type, its part of the body (all but the last are full), how many bytes come behind it and how many there are, and n in 16 bits |
| Framing.RetrieveFails | library/liblight/session.cpp:158-180 | a header counts as a whole frame and retrieving its body fails an assertion if and only if its length is from -20 to -1 |
| Framing.LostExactly | library/liblight/session.cpp:153-211 | over any stream: reading fails an assertion if and only if the bytes are whole frames and then such a header |
| Framing.StoppedExactly | library/liblight/session.cpp:159-175 | over any stream: the session stops if and only if the bytes are whole frames and then a header whose length is below -20 or above 8172, however much of the body is there |
| Framing.WrongFrame | library/liblight/session.cpp:158-180 | 20 bytes with length -1 on which it fails |
| Sessions.EndToEnd | library/liblight/session.cpp:72-241 | for two sessions after any runs, whatever was partially written, reported or not, and however it was chunked: the receiver has dispatched a prefix of the messages sent, and all of them once it has all bytes pushed |
| Sessions.PeerIsSafe | library/liblight/session.cpp:153-211 | bytes a peer session has handed to its socket never make the reader stop or fail |
| Sessions.Session.PushTrans | library/liblight/session.cpp:90-109 | the frame is appended to what was pushed; acknowledged, readable and cached bytes stay the pushed bytes in order; an outstanding write is not touched; a write is outstanding exactly if the buffer is not empty |
| Sessions.Session.DoSend | library/liblight/session.cpp:72-88 | pushes the frames of the message, however full the buffer is |
| Sessions.Session.HandleWrite | library/liblight/session.cpp:213-241 | the invariant for every partial write; the assertion in remove holds; memory is moved only when no write is outstanding |
| Sessions.Session.HandleRead | library/liblight/session.cpp:153-211 | for all bytes: the assertions hold if and only if reading all bytes received so far is not Lost; then the state of the reader is the reader over all of them, and there is room for the rest of the next frame; what is sent meanwhile are the answers to the client heartbeats among the new whole frames, in order, and nothing else (Answered, a filter on the frame types) |
| Sessions.Session.DoReceive | library/liblight/session.cpp:111-131 | one step of reassembly |
| Sessions.Session.Send | library/liblight/session.cpp:55-70 | the message joins those sent, in order |
| Transactions.HeaderRoundTrip | library/liblight/transaction.h:9-58 | the packed 20-byte header is read back field by field, with the body behind it |
| Transactions.BytesRoundTrip | library/liblight/transaction.h:9-58 | 20 bytes are the header of what is read from them |
| Transactions.FrameLayout | library/liblight/transaction.h:9-58 | each field of a frame by its offset and its value in little-endian bytes |
| Transactions.Transaction.WithAdditional | library/liblight/transaction.h:72-84 | the byte array of header, fragment header and body |
| Transactions.Transaction.BodyString | library/liblight/transaction.h:104-107 | the body the frame was made of |
| Buffers.Buffer.Retrieve | library/liblight/Buffer.cpp:64-75 | the contents without their first bytes; an empty buffer starts again at the front |
| Buffers.Buffer.Remove | library/liblight/Buffer.cpp:179-189 | the contents are the same, at the front; the copy overlaps only where it may |
| Buffers.Buffer.EnsureWritableBytes | library/liblight/Buffer.cpp:135-142 | room for the bytes, with the same contents, whether it moves, grows or does nothing |
| Buffers.Buffer.Append | library/liblight/Buffer.cpp:123-133 | the contents with the bytes behind them |
| MessageQueues.QueueIsSafe | library/base/src/mqueue.h:89-170 | every interleaving with at most two producers between full test and claim: messages are popped in claim order, once and whole; no freed page is used; no two live pages share a ring position |
| QueueDrains.RefusedExactly | library/base/src/mqueue.h:94-96 | push is refused exactly if (n - 1) * p messages are in the queue |
| QueueDrains.EverythingIsPopped | library/base/src/mqueue.h:111-135 | after any run with at most two racing producers, once no push is under way, popping on gets out every message claimed, in order |
| MessageQueues.RaceLimit | library/base/src/mqueue.h:89-170 | for every configuration: all runs are safe (claim order, no freed page used, no shared ring position, the next page there) if and only if at most two producers race |
| MessageQueues.FreedUnderneath | library/base/src/mqueue.h:94-98 | for every configuration whose bound is at least two messages (all but one-message pages in a ring of two, which Overrun has), a run of three producers in which the consumer frees the page that one of them is writing |
| MessageQueues.OrderLimit | library/base/src/mqueue.h:94-98 | over all configurations, claim order alone holds if and only if at most two producers race |
| MessageQueues.Overrun | library/base/src/mqueue.h:94-98 | with pages of one message and three racing producers a message is overwritten and order is lost |
| MessageQueues.InvStep | library/base/src/mqueue.h:89-170 | each atomic step of a producer or the consumer keeps the invariant |
| MessageQueues.PageIsQuotient | library/base/src/mqueue.h:98-102 | the shift and mask are the quotient and the remainder by the page size |
| MessageQueues.RingIsRemainder | library/base/src/mqueue.h:99 | the ring position is the remainder of the page number |
| RwLocks.LockIsSafe | library/base/src/lock.cpp:120-322 | after any run of any number of threads: a writer excludes all others; permits, releases under way and active writers add up to the flag in the high word; waiting writers imply the lock is held |
| RwLocks.ReaderEnters | library/base/src/lock.cpp:120-187 | after any run, a reader has the lock at once exactly if no writer has it, is handed it or waits for it |
| RwLocks.WriterEnters | library/base/src/lock.cpp:233-266 | after any run, a writer has it at once exactly if nobody has it and it is handed to nobody |
| RwLocks.LockIsPassedOn | library/base/src/lock.cpp:198-322 | the last to leave passes the lock to a waiting writer; else the readers that wait are told |
| RwLocks.ReaderForgotten | library/base/src/lock.cpp:134-169 | a run of three threads after which the lock is free, nobody else is in it and one reader waits on: another reader reset the event before it looked |
| RwLocks.StepIsSafe | library/base/src/lock.cpp:120-322 | every assertion on ownership holds and the semaphore is not over-released; no reader enters while a writer waits |
| RwLocks.StepOk | library/base/src/lock.cpp:120-322 | each step keeps the invariant |
| RwLocks.TooManyReaders | library/base/src/lock.cpp:120-322 | in every reachable state and for every step that can come next: its assertions hold if and only if it does not make 65536 readers |
| RwLocks.LimitIsReached | library/base/src/lock.cpp:120-196 | with 65536 threads a run reaches 65535 readers, and the next one fails its assertion |
| Probing.ProbesDiffer | library/base/src/pugixml.cpp:273-295 | the probes of a table whose size is a power of two see different buckets |
| Probing.ProbesCover | library/base/src/pugixml.cpp:273-295 | every bucket is seen by some probe |
| HashTables.CompactHashTable.Find | library/base/src/pugixml.cpp:273-298 | the slot of the key if and only if the map has it |
| HashTables.CompactHashTable.Insert | library/base/src/pugixml.cpp:300-328 | the slot of the key; the map and the count grow by it if it was new, and the full table is never reached |
| HashTables.CompactHashTable.Rehash | library/base/src/pugixml.cpp:367-392 | the larger table has the same map; without memory nothing changes |
| HashTables.CompactHashTable.Reserve | library/base/src/pugixml.cpp:330-336 | afterwards 16 more keys fit |
| Unescape.EscapeRoundTrip | library/base/src/pugixml.cpp:3810-3849 | decoding what text_output_escaped writes gives back a NUL-free string if and only if all its characters survive |
| Unescape.SurvivorsByKind | library/base/src/pugixml.cpp:3810-3849 | which do: all but carriage return in text, all in attributes, all but tab where white space is converted |
| Unescape.EscapedIsClean | library/base/src/pugixml.cpp:3810-3849 | escaped text holds no character that ends it |
| LineEnds.DecodesRewritten | library/base/src/pugixml.cpp:2565-2782 | for every text, malformed references too: decoding with end-of-line conversion is decoding the text with each CR LF and each other CR made one LF; with white space conversion, that with spaces for white space; with normalisation, with one space for each run |
| LineEnds.SameReference | library/base/src/pugixml.cpp:2354-2492 | whether there is a reference, its length and its meaning depend only on what stands in front of the next white space, < or quote |
| Numerals.ReferenceIsWorth | library/base/src/pugixml.cpp:2362-2423 | a decimal or hexadecimal character reference stands for what its digits are worth by their places, in 32 bits, wherever it is |
| XmlText.EntityIsRead | library/base/src/pugixml.cpp:2425-2489 | each of the five entities, spelled out, is read as its character wherever it is |
| XmlText.CharacterWritten | library/base/src/pugixml.cpp:3810-3849 | what is written for each character, spelled out: the entities, two decimal digits, or the character itself |
| InPlace.Gap.Push | library/base/src/pugixml.cpp:2321-2337 | the text so far is kept when a second hole closes the first |
| InPlace.Gap.Flush | library/base/src/pugixml.cpp:2339-2351 | the text so far lies contiguous |
| InPlace.StrConvEscape | library/base/src/pugixml.cpp:2354-2492 | the reference is replaced by its character, or passed over, as the pure decoder has it |
| InPlace.Scan | library/base/src/pugixml.cpp:2565-2614 | the loop leaves exactly the decoded text; writes never overtake reads; what that is of line ends LineEnds.DecodesRewritten says, and of references Numerals.ReferenceIsWorth and XmlText.EntityIsRead |
| InPlace.ParsePcdata | library/base/src/pugixml.cpp:2565-2614 | the decoded and perhaps trimmed text with a NUL behind it; the rest of the buffer is untouched |
| InPlace.ParseAttribute | library/base/src/pugixml.cpp:2690-2782 | the decoded value up to its quote, null if there is none |
| InPlace.ParseAttributeNormalized | library/base/src/pugixml.cpp:2638-2688 | the value with outer white space gone and runs inside collapsed; the backward loop stops at the quote |
| InPlace.Unread | library/base/src/pugixml.cpp:2312-2492 | decoding looks at nothing behind the read position |
| Integers.StringToInteger | library/base/src/pugixml.cpp:4339-4412 | for digit strings of any length, decimal or hexadecimal, signed, in 16, 32 and 64 bits: the true number clamped to the range |
| Integers.DecimalOverflow | library/base/src/pugixml.cpp:4379-4406 | lead digit and high bit of the wrapped result detect overflow exactly |
| Integers.HexOverflow | library/base/src/pugixml.cpp:4353-4378 | the number of hexadecimal digits detects overflow exactly |
| Integers.IntegerToString | library/base/src/pugixml.cpp:4463-4482 | the decimal text of the number the unsigned value stands for; -0 for a negative zero, which no caller passes |
| Integers.IntegerRoundTrip | library/base/src/pugixml.cpp:4339-4482 | reading the text of a number gives the number |
| Numerals.NumberIsWorth | library/base/src/pugixml.cpp:4339-4412 | white space, a sign, a prefix and digits denote what the digits are worth by their places |
| Integers.SignedRoundTrip | library/base/src/pugixml.cpp:4414-4417 | for every value of the type, the minimum included |
| Integers.UnsignedRoundTrip | library/base/src/pugixml.cpp:4419-4422 | for every unsigned value |
| Allocators.LiveBlocksDisjoint | library/base/src/pugixml.cpp:521-533 | live blocks do not overlap |
| Allocators.FreedOk | library/base/src/pugixml.cpp:573-615 | freeing keeps the heap invariant; the root page is never released |
| Allocators.PagesInUse | library/base/src/pugixml.cpp:573-615 | every page but the sentinel and the current one holds a live block |
| Allocators.HeaderRoundTrip | library/base/src/pugixml.cpp:617-668 | page and size of a string are read back from its 16-bit fields exactly |
| Allocators.XmlAllocator.AllocateMemory | library/base/src/pugixml.cpp:521-533 | one more live block, in bounds; nothing changes without memory |
| Allocators.XmlAllocator.AllocateMemoryOob | library/base/src/pugixml.cpp:687-723 | a new root page, or a page of its own behind the root for a large block |
| Allocators.XmlAllocator.DeallocateMemory | library/base/src/pugixml.cpp:573-615 | exactly that block is gone; its page is released exactly if it was the last on it and the page is not the current one |
| Allocators.XmlAllocator.AllocateString | library/base/src/pugixml.cpp:617-649 | a block whose header encodes where it is and how large |
| Allocators.XmlAllocator.DeallocateString | library/base/src/pugixml.cpp:651-668 | frees exactly the block that was allocated |
| XmlRoundTrip.PrintParse | library/base/src/pugixml.cpp:3156-3382 | for all elements with valid names, NUL- and tab-free attribute values and non-adjacent text that is not only white space and has no carriage return: parsing the raw output gives back the tree |
| XmlExact.RoundTripExactly | library/base/src/pugixml.cpp:3156-3382 | for all trees: parsing the raw output gives back the tree if and only if it is elements with valid names, no NUL in values, no tab in attributes, no text of white space only, with a carriage return or next to text |
| XmlExact.ParsedIsShaped | library/base/src/pugixml.cpp:3156-3382 | whatever text is accepted gives elements with valid names, values without NUL and no text next to text; printed text gives trees that come back |
| XmlGrammar.ParsesExactly | library/base/src/pugixml.cpp:3156-3466 | for every text without NUL, as a document of elements, attributes and text: it is accepted with this result if and only if the grammar derives it, so end tags match, quotes close, attributes are apart by white space, and what is accepted has one reading |
| XmlReject.WrongEndTag | library/base/src/pugixml.cpp:3289-3298 | inside any elements that are open, behind any children and in front of any text, an end tag of another name is an error |
| XmlReject.MismatchRefused | library/base/src/pugixml.cpp:3289-3298 | an element with any children that is closed by another name is an error |
| XmlReject.LeftOpen | library/base/src/pugixml.cpp:3289-3310 | text that ends while elements are open is an error, however many and whatever children they have |
| XmlText.PrintedPlainly | library/base/src/pugixml.cpp:3994-4089 | the layout of raw output, spelled out |
| XmlRoundTrip.AdjacentTextMerges | library/base/src/pugixml.cpp:4091-4178 | two texts side by side print as one |
| XmlRoundTrip.TreePrinted | library/base/src/pugixml.cpp:3166-3310 | the parser reads one printed element and comes out behind it, whatever surrounds it |
| XmlPrint.NodeOutput | library/base/src/pugixml.cpp:4091-4178 | the walk by links, without a stack, writes what the recursive printer writes |
| XmlParser.ParseTree | library/base/src/pugixml.cpp:3156-3382 | the parser that overwrites the buffer it reads computes the parse of the buffer as it was, which XmlGrammar.ParsesExactly describes by a grammar |
| XmlParser.ParseBuffer | library/base/src/pugixml.cpp:3409-3466 | the same with the last character kept aside, the byte order mark and the final checks |
| ParseOrder.CreatedInOrder | library/base/src/pugixml.cpp:3156-3382 | a successful parse has created elements, attributes and text in document order |
| ParseOrder.PositionsIncrease | library/base/src/pugixml.cpp:3156-3382 | what is created later points further into the buffer |
| BufferOrder.BufferOrderAgrees | library/base/src/pugixml.cpp:7731-7756 | after loading any buffer and any run of edits, two different nodes or attributes that both have a pointer to compare are ordered by it as by the tree |
| BufferOrder.EditKeepsOrder | library/base/src/pugixml.cpp:4240-4258 | setting strings, inserting, removing, copying (both sides are flagged), moving and appending a buffer (the document is flagged) each keep the order or give up on it |
| BufferOrder.DocumentOrderComparator | library/base/src/pugixml.cpp:7758-7814 | with its shortcut the comparator is document order on different nodes |
| TreeEditing.SpliceInserts | library/base/src/pugixml.cpp:1212-1283 | linking a detached node in is inserting it into a sequence of children, and keeps the cyclic back links |
| TreeEditing.UnlinkRemoves | library/base/src/pugixml.cpp:1285-1302 | unlinking is taking it out of the sequence |
| TreeEditing.Tree.AppendNode | library/base/src/pugixml.cpp:1212-1231 | the sequence of children with the node at its end |
| TreeEditing.Tree.PrependNode | library/base/src/pugixml.cpp:1233-1249 | the sequence with the node in front |
| TreeEditing.Tree.InsertNodeAfter | library/base/src/pugixml.cpp:1251-1266 | the sequence with the node behind the other |
| TreeEditing.Tree.InsertNodeBefore | library/base/src/pugixml.cpp:1268-1283 | the sequence with the node in front of the other |
| TreeEditing.Tree.RemoveNode | library/base/src/pugixml.cpp:1285-1302 | the sequence without the node |
| TreeEditing.MoveKeepsAcyclic | library/base/src/pugixml.cpp:4216-4238 | hanging a node below a parent makes no cycle if and only if the parent is not in its subtree |
| TreeEditing.WhoHoldsWhom | library/base/src/pugixml.cpp:4207-4214 | exactly documents and elements hold nodes; exactly declarations and doctypes are held by documents only; no document is held |
| TreeEditing.Tree.AllowMove | library/base/src/pugixml.cpp:4216-4238 | allowed exactly if the kinds fit, the document is the same and the parent is not in the subtree |
| TreeEditing.Tree.AppendMove | library/base/src/pugixml.cpp:5815-5829 | the move, or nothing if it is not allowed; the forest stays acyclic and the document is flagged |
| TreeEditing.Tree.PrependMove | library/base/src/pugixml.cpp:5831-5845 | the same in front |
| TreeEditing.Tree.InsertMoveAfter | library/base/src/pugixml.cpp:5847-5863 | the same behind a child of the parent |
| TreeEditing.Tree.InsertMoveBefore | library/base/src/pugixml.cpp:5865-5881 | the same in front of a child of the parent |
| TreeCopying.NodeCopyTree | library/base/src/pugixml.cpp:4277-4320 | ends, and below the copy stands the source tree as it was without the copy, made of new nodes only; no other node changes |
| TreeCopying.CopyInto | library/base/src/pugixml.cpp:5743-5773 | a new first or last child that is a copy of the tree as it was before, even if it lies inside that tree; null exactly if the kinds do not fit |
| TreeCopying.SpellsWithout | library/base/src/pugixml.cpp:4277-4320 | leaving the copy out, the tree is the one there was |
| Utf.SplitCodes | library/base/src/pugixml.cpp:1600-1665 | for all byte strings, malformed ones too: converting two pieces is converting the whole, unless a sequence was cut, and then exactly one character is lost |
| Utf.ConvertCut | library/base/src/pugixml.cpp:3556-3570 | output in any encoding is the same for two pieces and the whole if and only if no sequence was cut |
| Utf.ValidLengthCuts | library/base/src/pugixml.cpp:3556-3570 | a cut at a get_valid_length other than 0 splits no sequence, whatever stands in front and whatever follows |
| Utf.ConvertFits | library/base/src/pugixml.cpp:3779-3803 | the output of a chunk fits the scratch buffer |
| Transcoding.Process8 | library/base/src/pugixml.cpp:1600-1665 | for every Traits and alignment the loop with its four-byte path folds over the codes |
| Transcoding.Process16 | library/base/src/pugixml.cpp:1667-1711 | the same for UTF-16 in either byte order |
| Transcoding.CounterPredicts | library/base/src/pugixml.cpp:1429-1448 | the counting pass gives the number of units |
| Transcoding.WriterWrites | library/base/src/pugixml.cpp:1450-1493 | the writing pass appends the units |
| Transcoding.ConvertOutput | library/base/src/pugixml.cpp:3572-3593 | units swapped in place are the text in the other encoding; which byte order that is EncodingValues.Utf16Value and Utf32Value say by value |
| EncodingValues.Utf8Value | library/base/src/pugixml.cpp:1600-1665 | a UTF-8 sequence stands for the number its bits spell, a stray byte for nothing |
| EncodingValues.Utf16Value | library/base/src/pugixml.cpp:3572-3593 | UTF-16 in either byte order by value: a code up to U+FFFF is its word; above, the words are a high and a low surrogate that combine to it |
| EncodingValues.Utf32Value | library/base/src/pugixml.cpp:3572-3593 | UTF-32 in either byte order by value, of any text: four bytes worth each code |
| EncodingValues.Latin1Value | library/base/src/pugixml.cpp:1579-1598 | Latin-1: the code below 256, a question mark for any other |
| EncodingValues.LittleIsSwapped | library/base/src/pugixml.cpp:3572-3593 | little-endian output is big-endian output with the bytes of each unit exchanged |
| EncodingValues.Utf16Read | library/base/src/pugixml.cpp:1667-1717 | reading UTF-16 in either byte order, by value; half a pair is nothing |
| EncodingValues.Utf32Read | library/base/src/pugixml.cpp:1719-1745 | reading UTF-32 in either byte order, of any bytes, by value |
| EncodingValues.ReadSwapped | library/base/src/pugixml.cpp:1667-1745 | reading one byte order is reading the other with the bytes of each unit exchanged |
| Transcoding.ConvertBuffer | library/base/src/pugixml.cpp:2082-2105 | the second pass fills exactly the buffer sized by the first |
| Reloading.ReloadKeepsText | library/base/src/pugixml.cpp:2136-2179 | a UTF-8 string saved in another encoding and loaded comes back if and only if it is well-formed and the encoding has its characters |
| Reloading.ReferenceIsRead | library/base/src/pugixml.cpp:1488-1492 | what is written for a character reference decodes to that character |
| OutputWriters.PieceByPiece | library/base/src/pugixml.cpp:3572-3593 | converting any pieces one by one is converting their text at once if and only if no sequence of the text begins in one piece and ends in another |
| OutputWriters.OutputIsWhole | library/base/src/pugixml.cpp:3599-3807 | for every encoding, capacity and run of writes: the output is the whole text converted at once if and only if no cut the writer makes splits a sequence |
| OutputWriters.OnlyBetweenCalls | library/base/src/pugixml.cpp:3632-3709 | a cut that splits a sequence is one between two writes: inside the data of a write none does |
| OutputWriters.CleanCallsArrive | library/base/src/pugixml.cpp:3599-3807 | so where no two writes share a sequence the output is right for every capacity |
| OutputWriters.SharedSequenceIsLost | library/base/src/pugixml.cpp:3599-3807 | where two writes do share one, behind 8 bytes, there is a capacity at which the output is shorter than the text converted at once |
| OutputWriters.ShortTextArrives | library/base/src/pugixml.cpp:3671-3709 | a text that the buffer holds is not cut, so even split sequences come out right |
| OutputWriters.AfterText | library/base/src/pugixml.cpp:3632-3777 | each write adds its data to what was sent and what is pending, and nothing else |
| OutputWriters.BufferedWriter.FlushChunk | library/base/src/pugixml.cpp:3613-3630 | what was handed over stays the conversion of the pieces sent |
| OutputWriters.BufferedWriter.WriteDirect | library/base/src/pugixml.cpp:3632-3669 | the pieces of large data, cut at get_valid_length; each cut makes progress |
| OutputWriters.BufferedWriter.WriteBuffer | library/base/src/pugixml.cpp:3671-3684 | the pieces sent and what is pending after the data, for any capacity |
| OutputWriters.BufferedWriter.WriteString | library/base/src/pugixml.cpp:3686-3709 | the same, filling the buffer and going back to a good cut |
| OutputWriters.BufferedWriter.WriteChars | library/base/src/pugixml.cpp:3711-3777 | the same for a few characters, flushing first if they do not fit |
| OutputWriters.Save | library/base/src/pugixml.cpp:3599-3807 | any run of writes with any capacity of at least 8: the output is the pieces converted one by one, and the whole text converted at once if and only if no piece boundary splits a sequence |
| OutputWriters.SaveTwo | library/base/src/pugixml.cpp:3671-3684 | the writer run twice on two texts: with a buffer the first one fills they are converted one by one, with a larger one as a whole |
| OutputWriters.HalfCharacters | library/base/src/pugixml.cpp:3671-3684 | the writer run on two halves of a character: lost with a buffer of 8 bytes, written with one of 16 |

## Left out

- Sockets, timers, logging and files: only the transition each callback makes is modelled.
- Events after a session is closed, and errors of the socket.
- What a build without assertions does behind a header whose body length is from -20 to -1; Sessions.Session.HandleRead ends there with ok false.
- Buffer.prepend, unwrite and the retrieve functions for integers, which the session does not use.
- Overflow of the 64-bit post index of the queue, and memory order weaker than the fence in the code: steps are atomic and sequentially consistent.
- drb_queue and the release of the queue.
- Fairness of the reader/writer lock: who enters at once and whom the lock is passed to is proved, and RwLocks.ReaderForgotten shows that a reader can be left waiting at a free lock.
- RwLocks.StepIsSafe: assumes fewer than 65536 readers; RwLocks.TooManyReaders says this is exact.
- Sets of XPath variables (a variable is its value here), namespaces, sum(), lang() and substring(), and the parser of XPath expressions.
- XmlGrammar.ParsesExactly: text with a NUL, which the parser takes for the end of the text, is not described, nor are the kinds of markup the parser of this model refuses.
- XPath expressions are optimised as values; that the code rewrites its nodes in place, and that failing to allocate a translate table keeps the slow form, is not modelled.
- Rounding of doubles: arithmetic on numbers is a parameter where it is not exact.
- XPathOptimize.TableTranslates: strings that contain NUL are excluded, as the code's strings end there.
- Comments, processing instructions, CDATA, DOCTYPE and declarations in parser and printer, which add branches of the same shape; indented output; options other than escapes, end-of-line and white space conversion in the parser of whole documents.
- XmlParser.ParseTree: end tags are compared as a whole where the code compares character by character; the outcome is the same.
- Codes of parse errors and their offsets.
- The flag of shared strings in TreeCopy; BufferOrder has it.
- Freeing of destroyed nodes in TreeEdit: a removed node stays as the root of its own tree.
- Failure to allocate while editing or copying a tree.
- insert_copy_after and insert_copy_before, which differ from CopyInto by the link operation only.
- Attribute lists, which are linked by the same operations as children.
- The address of the hash table's keys: the hash function is a parameter.
- The allocator's page list is a sequence; that its links are stored inside the pages is not modelled. The compact build is left out.
- Detection of the encoding of a file, the Latin-1 prefix that is copied unconverted, and a big-endian host.
- Transcoding.Process8: the test of four sign bits with one 32-bit mask is modelled as four tests.
- TinyXML, base64, cryptography, HTTP, the dispatcher and the service classes: containers and calls to libraries not shown.

# Oracle-Automate: a verified model of its kernels

This project models the algorithmic and protocol kernels of the Oracle-Automate workspace in Dafny
and proves what they are for. Each kernel has its own file:

| file | kernel |
|---|---|
| `Text.dfy` | options, sequences, decimal numbers, UTF-8 byte strings and trimming |
| `Headings.dfy`, `HeadingLines.dfy`, `DocTree.dfy`, `DocumentTree.dfy` | heading detection and which lines are headings, assembly of the document tree through raw pointers, section ranges, dotted paths, lookup |
| `Messages.dfy`, `Exchanges.dfy`, `Protocol.dfy`, `Requester.dfy` | the bidirectional JSON-RPC protocol between client and server, in every interleaving |
| `Vectors.dfy`, `PageRank.dfy` | personalised PageRank over an arbitrary weighted graph |
| `Hops.dfy`, `MultiHop.dfy`, `NodeScores.dfy`, `SearchAnswers.dfy` | breadth-first hop distances, the whole multi-hop search over the graph store, and that its answer does not depend on map order |
| `GraphStore.dfy`, `Community.dfy`, `CommunityIds.dfy`, `Modularity.dfy` | two-sided adjacency, merged weights, community detection, when its result is determined, what its moves do to modularity |
| `Chunker.dfy` | the sentence chunker |
| `Metrics.dfy`, `LabelParser.dfy` | series keys, the metrics registry, reading a key back |
| `Robots.dfy`, `RobotsLines.dfy` | robots.txt parsing, group choice and verdicts; how any line and any file reads |
| `MetadataCache.dfy` | the TTL cache |
| `Retry.dfy` | the circuit breaker and the retry loop |
| `ErpResult.dfy`, `RowOrder.dfy`, `Transaction.dfy` | return-stack rows in a JSON reply and their order, and the write-then-commit protocol |
| `Ranking.dfy`, `Fusion.dfy`, `Rerank.dfy` | stable ranking, reciprocal rank fusion, reranking |
| `RateLimit.dfy` | the per-host rate limiter |
| `Memory.dfy` | working memory and episodic memory |

`dafny verify dfyconfig.toml` checks the whole project.

## How the model is built

Code that changes state step by step is modelled by methods with loops and by classes with the
source's fields; each such method is proved equal to a function of its inputs or of the old state,
and the promises are lemmas about that function, over all inputs and all runs.

- Bodies of documents and chunks are byte strings, so offsets, slices and character boundaries are
  those of the code. `Utf8.WellFormed` asks for less than UTF-8 validity, so what is proved under it
  holds of every Rust `str`.
- A hash map is walked by picking its keys in any order, so results hold for every iteration order.
- Numbers the code keeps in `f32` or `f64` are reals, and times are explicit parameters.
- In the document tree, vectors own their elements by value and a raw pointer is the address of an
  element. Pushing onto a vector kills every pointer into that same vector (`Arena.live`), and a
  dereference demands a live pointer.
- The protocol is a step relation: every await point and lock section of the client's calls, of the
  server's dispatch tasks, of the elicitations and of the two readers and writers is one step, in any
  order. One queue stands for sender channel, byte stream and receiver channel together.
- `hide` statements inside proofs keep definitions a proof does not need away from the solver.

Where the code and its comments or documentation differ, the model follows the code:

- `doc_tree.rs:207-210` says that the root vector is never grown after the first iteration. That holds
  exactly when every later section is deeper than the first (`DocTree.RootsKept`,
  `DocTree.RootsGrow`); two headings of depth 1 break it (`DocTree.SecondRoot`). The pointers are
  sound for another reason, which is the invariant of `DocTree.Assemble`: the stack is always the
  right spine, so a vector is pushed to only when none of its elements stays on the stack.
- The chunker is safe only for large enough targets. `Chunker.PanicThreshold` and
  `Chunker.LossThreshold` give the exact limits: no body makes a slice panic exactly when the target
  is at least 200, and no body loses a byte exactly when it is above 200.
- `ppr.rs:99` assigns the seed share, so a repeated seed loses mass: the teleport vector is a
  distribution exactly when the seeds are distinct (`PageRank.SeedsMakeDistribution`).
- `community.rs:46-47` and `78` promise an outcome that does not depend on the iteration order of hash
  maps. The passes and the blocks they end with do not (`Community.DetectionUnique`,
  `Community.BlocksUnique`). The ids do, because the groups are collected in map order before a stable
  sort by size: the result is determined exactly when no two communities are of one size
  (`CommunityIds.ResultDetermined`).
- `community.rs:122-130` leaves the cost of leaving a community out of the gain. Every move of a
  detection is still the best of all moves to another neighbouring community, but it raises modularity
  exactly when its gain exceeds what the same formula gives for the community the node leaves
  (`Modularity.DetectionIsGreedy`); the first pass over a chain of a heavy and a light edge makes a move
  that lowers it (`Modularity.MoveLowersModularity`). Graphs whose weights cancel out take the branch
  meant for graphs without edges, and their communities are not sorted. A registered node with a
  neighbour that is not registered makes the first pass panic (`Community.DetectCommunities`).
- `parse_labels` undoes neither `escape` nor the commas inside values. A key reads back exactly when no
  value holds a comma, a quote, a backslash or a line break (`LabelParser.ReadsBack`); a backslash
  comes back doubled (`LabelParser.BackslashIsDoubled`).
- `metrics.rs:168` underflows for a series without buckets, that is exactly when the first call on the
  series was not an observation (`Metrics.ObservePanicsExactly`). The lock is then poisoned and every
  later call panics too (`MetricsRegistry.poisoned`).
- Fusion puts agreement first for rankings of length at most n exactly when n < k + 2 or n is at most 1
  (`Fusion.ConsensusThreshold`); the defaults, 40 and 60, satisfy it.
- The elicitation ids start at 1,000,000 to stay clear of the call ids. The protocol does not need
  that: the two directions have separate tables, and the theorems hold for any two bases.
- `retry.rs` caps every delay but the first (`Retry.DelaysAreCapped`).
- `transaction.rs:148` returns the error of a failing commit call as it is, without a rollback.
  `Transaction.CallsMade` gives the exact replies after which a write stays neither committed nor
  rolled back, `Transaction.CommitErrorLeavesOpen` a backend that does it.
- The derived `Default` of working memory (`memory/src/lib.rs:94-98`) has capacity 0, and its rings
  grow without bound (`Memory.Kept`).
- The server's reader clears no table at end of file, unlike the client's
  (`Protocol.LateElicitationsNeverResolve`).
- The comments of `robots.rs` say "REST operation 9309"; sections 2.2.1 and 2.2.2 of RFC 9309 are meant.

## Model

| member | source | states |
|---|---|---|
| DocTree.TreeShape | crates/oracle-automate-kb/src/doc_tree.rs:174-222 | for every section list, pre-order of the assembled tree is source order and each section's parent is the nearest earlier section of strictly smaller depth |
| DocTree.BuildKeepsOrder | crates/oracle-automate-kb/src/doc_tree.rs:174-222 | the forest lists the sections in order, children are deeper than their parent and siblings never get deeper |
| DocTree.NestedUnique | crates/oracle-automate-kb/src/doc_tree.rs:174-222 | no other nested tree has the same pre-order |
| DocTree.Assemble | crates/oracle-automate-kb/src/doc_tree.rs:174-222 | the loop over raw pointers dereferences only live pointers, keeps the stack equal to the right spine, and builds the tree of the specification with the largest depth |
| DocTree.PopDeeper | crates/oracle-automate-kb/src/doc_tree.rs:194-202 | popping leaves exactly the spine nodes that are less deep than the new section |
| DocTree.Attach | crates/oracle-automate-kb/src/doc_tree.rs:204-221 | pushing through the top pointer is insertion under the deepest possible parent, the new stack is the new right spine and all its pointers are live |
| DocTree.Arena.PushRoot | crates/oracle-automate-kb/src/doc_tree.rs:217-221 | pushing a root invalidates every pointer to a root but the new one |
| DocTree.Arena.PushChild | crates/oracle-automate-kb/src/doc_tree.rs:204-216 | pushing a child needs a live parent pointer and invalidates the pointers to its siblings |
| DocTree.StackAfterPop | crates/oracle-automate-kb/src/doc_tree.rs:192-222 | with the deep frames popped, the push through the top pointer is the insertion and yields the new spine |
| DocTree.RootsKept | crates/oracle-automate-kb/src/doc_tree.rs:204-221 | the root vector is left alone after the first iteration exactly if every later section is deeper than the first |
| DocTree.RootsGrow | crates/oracle-automate-kb/src/doc_tree.rs:204-221 | a section is pushed onto the root vector exactly if no section before it is shallower |
| DocTree.SecondRoot | crates/oracle-automate-kb/src/doc_tree.rs:207-221 | two headings of depth 1 make the root vector grow in the second iteration |
| Headings.ParseAtxLine | crates/oracle-automate-kb/src/doc_tree.rs:338-367 | the counting loop reads a Markdown heading line as the specification does |
| Headings.ParseNumbered | crates/oracle-automate-kb/src/doc_tree.rs:412-447 | the group loop reads a numbered heading line as the specification does |
| Headings.AtxRoundTrip | crates/oracle-automate-kb/src/doc_tree.rs:338-367 | writing a heading of depth 1 to 6 and reading it gives back depth and title |
| Headings.NumberedRoundTrip | crates/oracle-automate-kb/src/doc_tree.rs:412-447 | the depth of a numbered heading is the number of its digit groups, whatever the digits |
| Headings.ParserBounds | crates/oracle-automate-kb/src/doc_tree.rs:338-367 | every heading has a title and depth at least 1, Markdown at most 6 |
| Headings.ScanLines | crates/oracle-automate-kb/src/doc_tree.rs:305-331 | the line scan collects the headings of all lines in order |
| Headings.ScanIsExact | crates/oracle-automate-kb/src/doc_tree.rs:305-331 | the scan finds a heading exactly at the line starts whose line is one |
| HeadingLines.AtxLineIsExact | crates/oracle-automate-kb/src/doc_tree.rs:338-367 | a line reads as a Markdown heading exactly if it is white space, one to six hashes, a blank, and a title, which is the rest without white space and closing hashes |
| HeadingLines.HashesAlone | crates/oracle-automate-kb/src/doc_tree.rs:338-361 | no hash, seven hashes or more, or hashes without a blank behind them are no heading |
| HeadingLines.MarkerLineIsExact | crates/oracle-automate-kb/src/doc_tree.rs:386-447 | a line reads as a plain-text heading exactly if it is white space, the keyword and a title (depth 1), or white space, digit groups with a dot each, a blank and a title (depth the number of groups) |
| HeadingLines.SectionRoundTrip | crates/oracle-automate-kb/src/doc_tree.rs:389-397 | the keyword and a title, behind any white space, give depth 1 and that title; the keyword with nothing but white space is no heading |
| HeadingLines.DigitsNeedDot | crates/oracle-automate-kb/src/doc_tree.rs:412-430 | digits without a dot behind them make a line no heading |
| HeadingLines.DetectionIsExact | crates/oracle-automate-kb/src/doc_tree.rs:294-410 | for every body, the headings are exactly the lines written as Markdown headings, and if there is none exactly the lines written as markers; in order, none twice |
| HeadingLines.DetectHeadings | crates/oracle-automate-kb/src/doc_tree.rs:294-300 | the two scans return exactly those headings in that order |
| Headings.HeadingBounds | crates/oracle-automate-kb/src/doc_tree.rs:305-331 | headings are in order, do not overlap and stay inside the body |
| Headings.HeadingBoundaries | crates/oracle-automate-kb/src/doc_tree.rs:374-410 | every offset of a heading is a character boundary |
| DocumentTree.Prepare | crates/oracle-automate-kb/src/doc_tree.rs:145-172 | the window loop with its sentinel gives each heading its section, with its depth and title, up to the next one |
| DocumentTree.SectionsPartitionBody | crates/oracle-automate-kb/src/doc_tree.rs:145-172 | the preamble followed by the section ranges is exactly the body; ranges are contiguous and each body slice lies in its range |
| DocumentTree.SectionsAreSliceable | crates/oracle-automate-kb/src/doc_tree.rs:180-184 | all section offsets are character boundaries, so slicing never falls back to the empty string |
| DocumentTree.AssignPaths | crates/oracle-automate-kb/src/doc_tree.rs:251-257 | the recursive assignment labels every node below with its path |
| DocumentTree.DottedSplits | crates/oracle-automate-kb/src/doc_tree.rs:251-257 | split at its dots, a path is the list of positions counted from 1 |
| DocumentTree.DottedInjective | crates/oracle-automate-kb/src/doc_tree.rs:251-257 | distinct positions have distinct dotted paths |
| DocumentTree.FindResolves | crates/oracle-automate-kb/src/doc_tree.rs:76-86 | looking up a dotted path returns the one node reached by following its indices, and nothing if there is no such node |
| DocumentTree.FindMisses | crates/oracle-automate-kb/src/doc_tree.rs:76-86 | any other text but the root's empty path finds nothing |
| DocumentTree.NestingLevel | crates/oracle-automate-kb/src/doc_tree.rs:224-257 | nesting level never exceeds heading depth |
| DocumentTree.BuildDocumentTree | crates/oracle-automate-kb/src/doc_tree.rs:120-249 | the whole construction yields the labelled tree of the detected sections and its maximal depth |
| DocumentTree.TreeOfBody | crates/oracle-automate-kb/src/doc_tree.rs:120-249 | for every body: source order, paths by position and distinct, nesting within depth |
| Messages.ResultRoundTrip | crates/mcp-server/src/elicit.rs:171-190 | an encoded elicitation result decodes to itself, a null content reading as none |
| Messages.ParamsRoundTrip | crates/mcp-client/src/lib.rs:424-440 | encoded elicitation parameters decode to themselves |
| Messages.OthersAreRefused | crates/mcp-client/src/lib.rs:424-459 | only an elicitation with a message and a schema is put to the delegate; any other request gets the error of its kind, which reads as Cancel |
| Messages.AcceptIsSaid | crates/mcp-server/src/elicit.rs:171-192 | a response reads as Accept exactly if it is no error and its result says accept |
| Protocol.RunKeepsInv | crates/mcp-client/src/lib.rs:100-140 | every interleaving keeps: tables hold exactly the open waiters, each request is under way once, each response was built by the task of its request |
| Protocol.CallsGetTheirOwnReply | crates/mcp-client/src/lib.rs:386-411 | in every interleaving, a call that has returned got the response the server built for that very request, dispatched once, exactly if its waiter got one, and an error otherwise |
| Protocol.ElicitationsGetTheirOwnDecision | crates/mcp-server/src/elicit.rs:91-169 | in every interleaving, an elicitation that has returned gave what the delegate decided on exactly that request, exactly if its waiter got a response, and Cancel otherwise |
| Protocol.OutcomeIsDelivery | crates/mcp-client/src/lib.rs:399-411 | in every interleaving and both directions, whatever has returned returned the response r exactly if its waiter got r, and failed exactly if it got none |
| Protocol.FinishStep | crates/mcp-client/src/lib.rs:399-399 | in both directions a finished await turns a queued call whose waiter got r into one that returned r, and one whose waiter was dropped into one that failed |
| Protocol.DeliveredIsReturned | crates/mcp-client/src/lib.rs:103-113 | a response taken off the client's queue while its call waits is what that call returns, whatever happens in between |
| Protocol.DeliveredIsReturnedToTool | crates/mcp-server/src/elicit.rs:140-169 | the same for an elicitation and the server's queue |
| Protocol.CallCompletes | crates/mcp-client/src/lib.rs:386-411 | from any quiet state on, the steps of one call return the server's answer under the call's own id |
| Protocol.ElicitationCompletes | crates/mcp-server/src/elicit.rs:91-169 | from any quiet state on, the steps of one elicitation return what the delegate decided |
| Protocol.AcceptIsAccepted | crates/mcp-server/src/elicit.rs:91-169 | an elicitation returns Accept exactly if its waiter got a response and the delegate accepted that tool's request |
| Protocol.DecisionComesBack | crates/mcp-client/src/lib.rs:417-461 | encoding, sending and parsing a decision gives the decision back |
| Protocol.WaitersFireOnce | crates/mcp-server/src/elicit.rs:154-169 | a waiter that has fired or been dropped never changes again |
| Protocol.EofResolvesEarlierWaiters | crates/mcp-client/src/lib.rs:137-139 | once the client's reader ends, no call registered before stays pending, in any continuation |
| Protocol.EofFailsWaitingCalls | crates/mcp-client/src/lib.rs:137-139 | a call that waits when the client's reader ends returns an error, whatever happens in between |
| Protocol.LateWaitersNeverResolve | crates/mcp-client/src/lib.rs:137-139 | a call registered after that clean-up stays pending for ever |
| Protocol.LateElicitationsNeverResolve | crates/mcp-server/src/server.rs:352-377 | once the server's reader has ended no waiting elicitation is ever answered, and one already sent waits for ever |
| Protocol.CallAfterEofHangs | crates/mcp-client/src/lib.rs:137-139 | a call begun after the client's reader has ended is sent and waits in every continuation |
| Protocol.ElicitAfterEofHangs | crates/mcp-server/src/server.rs:352-377 | an elicitation begun after the server's reader has ended is sent and waits in every continuation |
| Exchanges.ReplyMatches | crates/mcp-client/src/lib.rs:100-122 | a finished call got the answer of the one task that served its request |
| Exchanges.DeliverExact | crates/mcp-client/src/lib.rs:103-113 | delivering a response keeps the table and wires exact |
| Exchanges.SentExact | crates/mcp-client/src/lib.rs:386-399 | queueing a request keeps each id under way at most once |
| Exchanges.TableDrops | crates/mcp-client/src/lib.rs:137-139 | clearing the table leaves no registered waiter open |
| RequesterObject.Requester.TakeId | crates/mcp-client/src/lib.rs:386-388 | taking an id is the first step of an exchange |
| RequesterObject.Requester.InsertWaiter | crates/mcp-server/src/elicit.rs:99-104 | registering the waiter is the second step |
| RequesterObject.Requester.Queue | crates/mcp-client/src/lib.rs:393-397 | queueing hands on the call's own request |
| RequesterObject.Requester.Await | crates/mcp-client/src/lib.rs:399-399 | a finished await returns the response the waiter got, or an error if it was dropped |
| RequesterObject.Requester.GiveUp | crates/mcp-server/src/elicit.rs:126-142 | a closed queue ends the call; an elicitation takes its waiter back |
| RequesterObject.Requester.DeliverResponse | crates/mcp-server/src/elicit.rs:154-169 | a response is claimed exactly if its id has a waiter, which is removed and fired |
| RequesterObject.Requester.ClearWaiters | crates/mcp-client/src/lib.rs:137-139 | clearing the table drops exactly the waiters in it |
| PowerIteration.NextIsDistribution | crates/oracle-automate-graph/src/ppr.rs:105-137 | a step maps probability distributions to probability distributions |
| PowerIteration.NextContracts | crates/oracle-automate-graph/src/ppr.rs:105-137 | a step contracts the L1 distance by the factor 1 - alpha |
| PowerIteration.IteratesAreDistributions | crates/oracle-automate-graph/src/ppr.rs:105-137 | every iterate is a probability distribution |
| PowerIteration.DeltasShrink | crates/oracle-automate-graph/src/ppr.rs:131-136 | successive deltas shrink geometrically |
| PowerIteration.ErrorBound | crates/oracle-automate-graph/src/ppr.rs:131-136 | alpha times the distance of the result to any fixed point is at most 1 - alpha times the last delta |
| PowerIteration.LaterIterates | crates/oracle-automate-graph/src/ppr.rs:131-136 | alpha times the distance of an iterate to any later one is at most 1 - alpha times the last delta, fixed point or not |
| PowerIteration.FixedPointUnique | crates/oracle-automate-graph/src/ppr.rs:105-137 | for alpha above 0 there is at most one fixed point |
| PageRank.GraphIsStochastic | crates/oracle-automate-graph/src/ppr.rs:110-130 | without negative weights, dangling nodes included, no mass is lost |
| PageRank.Personalise | crates/oracle-automate-graph/src/ppr.rs:86-102 | the assignment loop puts the share at every seed |
| PageRank.SeedsMakeDistribution | crates/oracle-automate-graph/src/ppr.rs:86-102 | the teleport vector is a distribution exactly if no seed is repeated |
| PageRank.DistributeMass | crates/oracle-automate-graph/src/ppr.rs:108-118 | the edge loop, in place, adds the flow of the nodes that have out-weight |
| PageRank.Teleport | crates/oracle-automate-graph/src/ppr.rs:119-130 | the teleport loop adds the teleport component and the flow of the dangling nodes with positive mass, for any weights and any mass |
| PageRank.FlowsAreWalk | crates/oracle-automate-graph/src/ppr.rs:108-130 | both kinds of nodes together move the mass of the stochastic walk |
| PageRank.Step | crates/oracle-automate-graph/src/ppr.rs:105-133 | one iteration of the loops is one step of the walk with restart, on the mass that takes part: all of it unless a dangling node has negative mass |
| PageRank.RunPageRank | crates/oracle-automate-graph/src/ppr.rs:104-139 | for any weights, teleport vector and alpha, the result is the vector of the step at which the loop stops; for non-negative weights, a distribution and a probability it is the iterate of the walk, a distribution, and alpha times its distance to any fixed point is at most 1 - alpha times the last move |
| PageRank.ScoresAreIterates | crates/oracle-automate-graph/src/ppr.rs:105-137 | for non-negative weights every vector the loop computes is an iterate of the stochastic walk and a distribution |
| Hops.BfsHops | crates/oracle-automate-graph/src/ppr.rs:162-184 | for any limit each node gets its exact shortest distance to a seed if that is within the limit, and the maximum value otherwise |
| Hops.ExpandLayer | crates/oracle-automate-graph/src/ppr.rs:171-182 | one round of the search settles exactly the next distance |
| Hops.FirstLayerIsDistance | crates/oracle-automate-graph/src/ppr.rs:162-184 | the first layer that holds a node is the length of its shortest path |
| Hops.HitsAreBestInside | crates/oracle-automate-graph/src/ppr.rs:188-202 | the retained hits are a best-score prefix of exactly the nodes inside the radius, each once; with the limit at the maximum value, of all nodes |
| MultiHop.Search | crates/oracle-automate-graph/src/ppr.rs:51-202 | the whole search, for any weights, seeds and configuration: scores are where the iteration from the stored seeds stops, a distribution if no weight is negative, no seed repeated and alpha a probability; the hits are best-first among exactly the nodes within the hop limit of a seed, each with its id, score and distance; and the number of steps |
| NodeScores.ScoresByNode | crates/oracle-automate-graph/src/ppr.rs:67-139 | in whatever order the nodes are listed the iteration takes the same number of steps and every node gets the same score |
| NodeScores.ScoresAreAfter | crates/oracle-automate-graph/src/ppr.rs:67-139 | after every step the vector holds the scores that merged weights alone define node by node |
| SearchAnswers.HopsPermute | crates/oracle-automate-graph/src/ppr.rs:162-184 | a node has the same distance, and is within the limit or not, in whatever order the nodes are listed |
| SearchAnswers.AnswersAgree | crates/oracle-automate-graph/src/ppr.rs:59-202 | two answers to one query over one store have the same scores place by place and the same score and distance for every node in both; the map order decides between equal scores only |
| SearchAnswers.AnswerUnique | crates/oracle-automate-graph/src/ppr.rs:59-202 | with the nodes listed in one order there is one answer |
| MultiHop.NeighbourRow | crates/oracle-automate-graph/src/ppr.rs:72-84 | a neighbour list holds exactly the registered neighbours, once each, with their merged weights |
| MultiHop.AdjacencyIsEdges | crates/oracle-automate-graph/src/ppr.rs:72-84 | two indices are neighbours exactly when some stored edge joins their nodes |
| MultiHop.SeedIndices | crates/oracle-automate-graph/src/ppr.rs:89-96 | the seeds that are in the graph, in order and as often as given |
| MultiHop.StartsAreSeeds | crates/oracle-automate-graph/src/ppr.rs:89-96 | exactly the seeds that are in the graph, without repetition if none is repeated |
| GraphStore.InMemoryGraph.AddEdge | crates/oracle-automate-graph/src/store.rs:59-69 | both adjacency maps keep matching the edge list |
| GraphStore.InMemoryGraph.Seed | crates/oracle-automate-graph/src/store.rs:149-627 | seeding adds all entities and, of the edges with equal ends and kind, the first; the adjacency maps keep matching |
| GraphStore.EntitiesAreLast | crates/oracle-automate-graph/src/store.rs:149-627 | after seeding every entity that the corpus names is there as named last, and the others stay |
| GraphStore.FirstOfKindIsExact | crates/oracle-automate-graph/src/store.rs:612-625 | of the listed edges each pair of ends and kind is kept exactly once, as its first edge |
| GraphStore.AdjacencyIsEdgeList | crates/oracle-automate-graph/src/store.rs:59-69 | the in-adjacency is the transpose of the out-adjacency, and both hold the edge list as a multiset |
| GraphStore.InMemoryGraph.UndirectedNeighbours | crates/oracle-automate-graph/src/store.rs:92-101 | exactly the adjacent nodes, with parallel and opposite weights merged |
| GraphStore.WeightIsSymmetric | crates/oracle-automate-graph/src/store.rs:92-101 | merged weights are symmetric |
| GraphStore.DegreeIsIncident | crates/oracle-automate-graph/src/community.rs:55-64 | summing merged weights over the neighbours counts every edge end once |
| GraphStore.Handshake | crates/oracle-automate-graph/src/community.rs:55-65 | degrees over all nodes add up to twice the edge weight, self-loops included |
| GraphStore.DegreesCountEnds | crates/oracle-automate-graph/src/community.rs:55-65 | the degrees of any nodes add up to the weight of the edge ends at them |
| Community.MoveKeepsCohesive | crates/oracle-automate-graph/src/community.rs:101-134 | moving a node to a neighbour's community keeps communities inside connected components |
| Community.BestCommunity | crates/oracle-automate-graph/src/community.rs:93-130 | the choice is the neighbouring community of largest positive estimated gain, lowest id on a tie, or to stay |
| Community.MoveNode | crates/oracle-automate-graph/src/community.rs:85-135 | one node moves to the best community of what it sees or stays, and membership stays sound; it panics exactly if a neighbour is not registered |
| Community.VisitNodes | crates/oracle-automate-graph/src/community.rs:80-135 | one pass is a best move of every node in order, and reports whether any node moved |
| Community.MovePasses | crates/oracle-automate-graph/src/community.rs:77-136 | the result is where the passes end: each visit in node order is a best move, a pass follows exactly after one that moved some node, eight at most; after a quiet pass no node has a better candidate; panics exactly if a registered node has an unregistered neighbour |
| Community.DetectionUnique | crates/oracle-automate-graph/src/community.rs:73-136 | graph and start determine every membership of every pass, whatever order the maps are walked in |
| Community.Degrees | crates/oracle-automate-graph/src/community.rs:54-65 | degrees by edge ends, and the total is half the weight of the edge ends at the nodes |
| Community.BuildCommunities | crates/oracle-automate-graph/src/community.rs:146-173 | for every iteration order the communities are the blocks of the membership |
| Community.Relabel | crates/oracle-automate-graph/src/community.rs:185-187 | rewriting the membership values in any order applies the renumbering to every node |
| Community.Renumber | crates/oracle-automate-graph/src/community.rs:175-189 | ids become dense in non-increasing size order, the blocks stay the same, membership and communities still agree |
| Community.DetectCommunities | crates/oracle-automate-graph/src/community.rs:45-144 | for every graph: the communities are the blocks that the passes from single nodes end with, in order of size, agree with the membership, stay inside connected components and have exactly the ids from zero up; if weights cancel out every node keeps the number it started with; exactly when it panics |
| Community.BlocksUnique | crates/oracle-automate-graph/src/community.rs:45-144 | a graph has one set of blocks |
| CommunityIds.ResultDetermined | crates/oracle-automate-graph/src/community.rs:46-189 | ids and the whole result are determined exactly if no two communities are of one size |
| Community.ForNodeFinds | crates/oracle-automate-graph/src/community.rs:35-39 | looking a node up gives the one community that lists it |
| Modularity.MoveChangesModularity | crates/oracle-automate-graph/src/community.rs:122-135 | moving a node changes Newman's modularity by exactly the estimated gain for the new community less that for the old one |
| Modularity.GreedyMove | crates/oracle-automate-graph/src/community.rs:93-135 | no move to another neighbouring community gives a higher modularity than the chosen one; it rises exactly if the gain exceeds the estimate for the community that is left |
| Modularity.RestingNode | crates/oracle-automate-graph/src/community.rs:118-135 | where a node stays and the estimate for its own community is not negative, no move to a neighbouring community raises modularity |
| Modularity.DetectionIsGreedy | crates/oracle-automate-graph/src/community.rs:77-136 | every visit of every pass of a detection is such a best move or such a stay, on a scene that shows the whole graph |
| Modularity.MoveLowersModularity | crates/oracle-automate-graph/src/community.rs:77-136 | the first pass of every detection on a chain of two edges, and that its second move lowers modularity |
| Utf8.TrimCuts | crates/oracle-automate-ingest/src/chunker.rs:114-118 | trimming keeps a slice that neither begins nor ends with white space, and cuts off white-space characters only |
| Chunker.FindSentenceEnd | crates/oracle-automate-ingest/src/chunker.rs:129-142 | the backward loop finds the last sentence end in range |
| Chunker.FindSpace | crates/oracle-automate-ingest/src/chunker.rs:169-183 | the backward loop finds the last blank within the look-back |
| Chunker.SplitText | crates/oracle-automate-ingest/src/chunker.rs:89-127 | the pieces are those of the windows that `Chunker.WindowsAreCutRight` describes; `None` exactly where a slice would be inverted |
| Chunker.WindowsAreCutRight | crates/oracle-automate-ingest/src/chunker.rs:95-125 | for every UTF-8 body, target and overlap: a window ends with the body, else at the last sentence end in the look-back and its second half, else at the last blank in the look-back, else at the next character boundary after the target; if it is longer than the overlap the next starts at the first boundary from its end less the overlap on, otherwise at the first boundary after its start |
| Chunker.OverlapIsKept | crates/oracle-automate-ingest/src/chunker.rs:120-124 | for a target above 200 a window longer than the overlap repeats between `overlap - 3` and `overlap` bytes in the next one, and a shorter one is followed one character further on |
| Chunker.PiecesInOrder | crates/oracle-automate-ingest/src/chunker.rs:114-118 | the pieces are the trimmed texts of the windows, in order, and only windows of white space have none |
| Chunker.WindowsTile | crates/oracle-automate-ingest/src/chunker.rs:89-127 | for a target above 200: no inverted slice, windows on character boundaries from start to end of the body, at most target + 3 bytes, no gap, at most `overlap` bytes repeated |
| Chunker.TilingCovers | crates/oracle-automate-ingest/src/chunker.rs:89-127 | such windows cover every byte |
| Chunker.NoTextLost | crates/oracle-automate-ingest/src/chunker.rs:89-127 | for a target above 200 every byte of the body is in some piece, in its place, or part of a run of white space |
| Chunker.PiecesAreSlices | crates/oracle-automate-ingest/src/chunker.rs:114-118 | every piece is a non-empty slice of the body |
| Chunker.PanicThreshold | crates/oracle-automate-ingest/src/chunker.rs:95-112 | no body makes the slice panic exactly if the target is at least 200 |
| Chunker.LossThreshold | crates/oracle-automate-ingest/src/chunker.rs:95-125 | every byte of every body is in some window exactly if the target is above 200 |
| Chunker.ChunkDocument | crates/oracle-automate-ingest/src/chunker.rs:55-79 | one chunk for each piece, in order: the prefix followed by the piece; numbered densely, never empty |
| Chunker.ChunkIdsDistinct | crates/oracle-automate-ingest/src/chunker.rs:66-69 | chunk ids of one document are distinct |
| SeriesKeys.KeyIgnoresOrder | crates/oracle-automate-observability/src/metrics.rs:276-287 | labels with distinct keys give the same key in any order |
| SeriesKeys.KeyInjective | crates/oracle-automate-observability/src/metrics.rs:276-287 | without delimiters in names and label keys, a key determines name and label set, for all label values |
| SeriesKeys.EscapeIsPerCharacter | crates/oracle-automate-observability/src/metrics.rs:304-308 | the three replacements in a row escape each character once |
| SeriesKeys.EscapedEnds | crates/oracle-automate-observability/src/metrics.rs:304-308 | an escaped value ends at its first unescaped quote |
| LabelParser.ParseLabels | crates/oracle-automate-observability/src/metrics.rs:289-302 | the loop over the pieces between commas reads a key as the specification does, and panics where the slice does |
| LabelParser.ReadsBack | crates/oracle-automate-observability/src/metrics.rs:249-302 | a key reads back as its name and label map exactly if no value holds a comma, a quote, a backslash or a line break |
| LabelParser.TrimsBack | crates/oracle-automate-observability/src/metrics.rs:297-308 | an escaped and quoted value trims back to itself exactly if escaping changed nothing |
| LabelParser.BackslashIsDoubled | crates/oracle-automate-observability/src/metrics.rs:289-308 | a value with a backslash comes back with two |
| LabelParser.ReadingPanics | crates/oracle-automate-observability/src/metrics.rs:289-293 | reading a key panics exactly for a name without labels that ends in its first brace, or holds a brace and ends in a multi-byte character |
| Metrics.Place | crates/oracle-automate-observability/src/metrics.rs:154-170 | the bucket loops count a value in every bucket from the first that holds it, or in the last; without buckets they panic |
| Metrics.MetricsRegistry.AddCounter | crates/oracle-automate-observability/src/metrics.rs:107-119 | the series map stays the replay of all calls that returned |
| Metrics.MetricsRegistry.SetGauge | crates/oracle-automate-observability/src/metrics.rs:121-133 | the series map stays the replay of all calls that returned |
| Metrics.MetricsRegistry.ObserveHistogram | crates/oracle-automate-observability/src/metrics.rs:137-171 | the series map stays the replay of all calls that returned; the call panics, and poisons the registry, exactly if the series has no bucket or the registry is poisoned |
| Metrics.MetricsRegistry.Register | crates/oracle-automate-observability/src/metrics.rs:96-101 | registering a name twice keeps the first kind and help |
| Metrics.SeriesIsOwnHistory | crates/oracle-automate-observability/src/metrics.rs:107-171 | a series depends on the calls under its own name and label set only |
| Metrics.BucketsCountObservations | crates/oracle-automate-observability/src/metrics.rs:137-171 | after any run, for a series whose first call is an observation, bucket i counts the observations at most bound i under that name and label set, and the last bucket is the count |
| Metrics.ObservePanicsExactly | crates/oracle-automate-observability/src/metrics.rs:140-170 | an observation panics exactly if the first call on its series is not an observation |
| Metrics.CounterSumsAdditions | crates/oracle-automate-observability/src/metrics.rs:107-119 | after any run a series never set holds the sum of what was added under its name and label set |
| Metrics.ScalarSumsAdditions | crates/oracle-automate-observability/src/metrics.rs:107-133 | after any run a series holds the value last set plus what was added since, under its name and label set; its kind is that of its first call |
| Robots.Parse | crates/oracle-automate-ingest/src/robots.rs:44-92 | the line loop computes the groups of the specification |
| Robots.PrintedMerges | crates/oracle-automate-ingest/src/robots.rs:44-92 | printing any sections and parsing them gives each agent the merge of the rules written for it, and no entry for anyone else |
| RobotsLines.BodyMerges | crates/oracle-automate-ingest/src/robots.rs:44-92 | parsing any file gives each agent the merge of the rules that stand under its name, in order, and no entry for anyone else |
| RobotsLines.CurrentAreHeading | crates/oracle-automate-ingest/src/robots.rs:60-68 | the agents a rule is for are those on the run of agent lines above the rules it stands with |
| RobotsLines.LineReads | crates/oracle-automate-ingest/src/robots.rs:50-57 | white space around name and value and a comment behind them make no difference |
| RobotsLines.FieldNames | crates/oracle-automate-ingest/src/robots.rs:54-89 | a field is known by its name in any letter case; any other field says nothing |
| RobotsLines.NoColonIsIgnored | crates/oracle-automate-ingest/src/robots.rs:50-57 | a blank line, a comment and a line without a colon say nothing |
| RobotsLines.SameMeaning | crates/oracle-automate-ingest/src/robots.rs:44-92 | files that say the same but for lines that say nothing have the same groups |
| RobotsLines.BreaksReadBack | crates/oracle-automate-ingest/src/robots.rs:49-49 | lines end with a line feed or a carriage return and a line feed, the last one needs neither |
| Robots.RuleReadsBack | crates/oracle-automate-ingest/src/robots.rs:49-57 | a printed rule line reads back as that rule |
| Robots.LinesReadBack | crates/oracle-automate-ingest/src/robots.rs:49-49 | joined lines split into the same lines |
| Robots.MatchingGroup | crates/oracle-automate-ingest/src/robots.rs:115-136 | for every iteration order: the exact agent, else the longest prefix, else the wildcard |
| Robots.ChosenUnique | crates/oracle-automate-ingest/src/robots.rs:115-136 | that choice is unique, so it does not depend on map order |
| Robots.LongestRuleDecides | crates/oracle-automate-ingest/src/robots.rs:95-107 | a path is allowed exactly if every matching disallow rule is met by a matching allow rule at least as long |
| Robots.IsAllowed | crates/oracle-automate-ingest/src/robots.rs:95-107 | the verdict is that of the chosen group |
| MetadataCache.CachedClient.OperationMetadata | crates/oracle-automate-erp/src/metadata_cache.rs:132-151 | one lookup answers, counts and stores as `MetadataCache.LookupIsExact` and `MetadataCache.EntriesAreLastAnswers` say |
| MetadataCache.CachedClient.BulkOperationMetadata | crates/oracle-automate-erp/src/metadata_cache.rs:153-196 | a bulk lookup answers, counts, asks and stores as `MetadataCache.BulkIsExact` and `MetadataCache.EntriesAreLastAnswers` say |
| MetadataCache.CachedClient.InvalidateAll | crates/oracle-automate-erp/src/metadata_cache.rs:90-95 | the map is emptied and its size counted as evictions |
| MetadataCache.EntriesAreLastAnswers | crates/oracle-automate-erp/src/metadata_cache.rs:97-130 | after any run the map holds exactly the last answer of the inner client for each key since the last invalidation, and nothing for a TTL of zero |
| MetadataCache.LookupIsExact | crates/oracle-automate-erp/src/metadata_cache.rs:132-151 | after any run, if the last answer for a key is no older than a positive TTL the lookup returns it whatever the inner client would say, as one hit; otherwise it returns what the inner client says, as one miss |
| MetadataCache.BulkIsExact | crates/oracle-automate-erp/src/metadata_cache.rs:153-196 | after any run a bulk call finds exactly the names with such an answer, in order, as hits, and asks for exactly the others, in order, as misses |
| MetadataCache.InvalidationIsExact | crates/oracle-automate-erp/src/metadata_cache.rs:90-95 | an invalidation forgets every answer and counts the keys that had one as evicted |
| MetadataCache.LookupIsRecent | crates/oracle-automate-erp/src/metadata_cache.rs:97-151 | in any run a returned description was given by the inner client for that key, since the last invalidation and no earlier than the TTL ago |
| MetadataCache.BulkIsRecent | crates/oracle-automate-erp/src/metadata_cache.rs:153-196 | everything a bulk call finds was said for a requested name, since the last invalidation and no earlier than the TTL ago, or is in the answer of this very call |
| MetadataCache.BulkConservesNames | crates/oracle-automate-erp/src/metadata_cache.rs:153-196 | found and missing names together are the requested names as a multiset, if the inner client accounts for what it is asked |
| MetadataCache.HitsPlusMisses | crates/oracle-automate-erp/src/metadata_cache.rs:132-172 | in any run hits plus misses is the number of keys asked for |
| MetadataCache.ZeroTtlNeverHits | crates/oracle-automate-erp/src/metadata_cache.rs:97-118 | with a TTL of zero the map stays empty and nothing is ever a hit |
| Retry.CircuitBreaker.Tick | crates/oracle-automate-erp/src/retry.rs:109-123 | an open breaker turns half-open once its time has passed |
| Retry.CircuitBreaker.Begin | crates/oracle-automate-erp/src/retry.rs:131-140 | a call is admitted exactly if the breaker is not open after the tick, else told how long to wait |
| Retry.CircuitBreaker.End | crates/oracle-automate-erp/src/retry.rs:142-163 | success closes, a transient failure counts and may open, a permanent failure changes nothing |
| Retry.AlwaysConsistent | crates/oracle-automate-erp/src/retry.rs:109-163 | every interleaving keeps "closed means fewer failures than the threshold and no open time, and conversely" exactly if the threshold is positive |
| Retry.ClosedToCallers | crates/oracle-automate-erp/src/retry.rs:126-163 | after a trip no call is admitted until the open duration has passed or an admitted call succeeds |
| Retry.TripsAtThreshold | crates/oracle-automate-erp/src/retry.rs:142-158 | a failure opens the breaker exactly when the failures since the last success reach the threshold; a success resets it |
| Retry.BreakerIsHistory | crates/oracle-automate-erp/src/retry.rs:109-163 | after any run the failures are those since the last success, the open time is that of the last failure that reached the threshold, and the breaker is half-open exactly if it was asked once the open duration had passed since |
| Retry.RetryAfterIsExact | crates/oracle-automate-erp/src/retry.rs:131-140 | the wait a rejected caller is told is exactly the time until the next admission |
| Retry.RetryWithBackoff | crates/oracle-automate-erp/src/retry.rs:36-63 | at most max(1, max_attempts) calls, only transient errors are retried, the last outcome is returned, the delays follow the policy |
| Retry.DelaysAreCapped | crates/oracle-automate-erp/src/retry.rs:56-60 | every delay but the first is capped, and all are exactly if the first starts at or below the cap |
| Retry.DelayIsRounded | crates/oracle-automate-erp/src/retry.rs:59-60 | each delay is the one before times the multiplier, rounded down, or the cap |
| Retry.DelaysAreExponential | crates/oracle-automate-erp/src/retry.rs:59-60 | with a whole multiplier m, delay k is the first one times m to the k, or the cap |
| Retry.DelaysGrow | crates/oracle-automate-erp/src/retry.rs:56-60 | with a multiplier of at least 1 delays at or below the cap never shrink |
| ErpResult.Walk | crates/oracle-automate-erp/src/erp_result.rs:99-124 | the recursive walk appends the rows in document order |
| ErpResult.WalkFindsRows | crates/oracle-automate-erp/src/erp_result.rs:99-124 | a value is found exactly if it is a row at depth at most 8 outside any other row |
| RowOrder.RowsLocated | crates/oracle-automate-erp/src/erp_result.rs:99-124 | the rows come in document order, one for each path to a row within reach, and no such path is left out |
| RowOrder.MessagesInOrder | crates/oracle-automate-erp/src/erp_result.rs:85-124 | there is one message for each such path, in document order, read from the row at its end |
| ErpResult.RowReads | crates/oracle-automate-erp/src/erp_result.rs:126-160 | each field of a message is the string or number under the capital spelling, else under the small one; the severity is that of the first letter of the type in either case |
| ErpResult.FailureByPath | crates/oracle-automate-erp/src/erp_result.rs:42-58 | a reply fails exactly if such a row has a type other than success, warning or information |
| ErpResult.SilenceByPath | crates/oracle-automate-erp/src/erp_result.rs:85-124 | a reply yields no message exactly if it has no such row |
| Transaction.ExecuteWrite | crates/oracle-automate-erp/src/transaction.rs:90-171 | result and calls are those of the specification, for every client behaviour |
| Transaction.Rollback | crates/oracle-automate-erp/src/transaction.rs:48-62 | one rollback call, confirmed exactly if its reply holds no failure |
| Transaction.CommittedExactly | crates/oracle-automate-erp/src/transaction.rs:90-171 | committed exactly if writes are allowed, the business reply has a row and no failing row and the commit reply has no failing row; the calls are then business, commit |
| Transaction.CommitOnlyIfConfirmed | crates/oracle-automate-erp/src/transaction.rs:112-149 | the commit is called exactly after a confirming business reply, never after an empty or failing one |
| Transaction.UncommittedIsRolledBack | crates/oracle-automate-erp/src/transaction.rs:112-163 | every reported uncommitted outcome ends with a rollback, reported as done exactly if its reply holds no failing row |
| Transaction.CallsMade | crates/oracle-automate-erp/src/transaction.rs:95-149 | refused writes make no call; a write that reaches the backend stays without commit and without rollback exactly if its own reply is an error, or it is confirmed and the commit reply is an error |
| Transaction.ReportIsComplete | crates/oracle-automate-erp/src/transaction.rs:48-171 | a reported outcome names the operation, carries the reply to the write itself, and lists the messages of all replies in the order of the calls, with a note for an empty business reply and one for a failed rollback call |
| Transaction.CommitErrorLeavesOpen | crates/oracle-automate-erp/src/transaction.rs:147-149 | with a backend that fails the commit call, a confirmed write is neither committed nor rolled back |
| Ranking.SortedIsRanking | crates/oracle-automate-rag/src/lib.rs:362-367 | sorting orders by score and permutes |
| Ranking.SortedIsStable | crates/oracle-automate-rag/src/lib.rs:362-367 | equal scores keep their order |
| Fusion.ReciprocalRankFusion | crates/oracle-automate-rag/src/lib.rs:332-370 | for every map order, and any k that does not divide by zero, the result is a best part of the fused pool, each id once, each with the first hit given for it, text included |
| Fusion.FusedHits | crates/oracle-automate-rag/src/lib.rs:338-355 | for every id the pool holds the first hit with it in the dense ranking, or in the sparse one if the dense one has none, text included |
| Fusion.FusedScores | crates/oracle-automate-rag/src/lib.rs:338-355 | each id of either ranking scores the sum of what its places are worth |
| Fusion.ConsensusThreshold | crates/oracle-automate-rag/src/lib.rs:332-370 | for any k that does not divide by zero, and rankings of length at most n without duplicates, every hit of both beats every hit of one exactly if n is at most 1 or n < k + 2 |
| Fusion.FusedSize | crates/oracle-automate-rag/src/lib.rs:294-304 | before truncation the size is both lengths minus the overlap |
| Fusion.RankOverlap | crates/oracle-automate-rag/src/lib.rs:294-304 | the overlap count, with its early return |
| Rerank.HttpRerank | crates/oracle-automate-rag/src/rerank.rs:183-248 | scores are mapped in place and sorted; any failure gives the base order |
| Rerank.MockRerank | crates/oracle-automate-rag/src/rerank.rs:61-97 | each index once, in score order, scored by its relevance, a tenth of its base score and a decay that halves over the first twenty places |
| Rerank.MockKeepsBaseOrder | crates/oracle-automate-rag/src/rerank.rs:80-97 | a candidate stays ahead of every later one that is not more relevant |
| Rerank.HttpReturnsEachOnce | crates/oracle-automate-rag/src/rerank.rs:185-248 | whatever the endpoint replies, each index once; omitted ones keep their base score; in score order, or in base order after a failure |
| Rerank.LastScoreCounts | crates/oracle-automate-rag/src/rerank.rs:230-234 | of several scores for an index in range the last one counts |
| Rerank.RerankingPermutes | crates/oracle-automate-rag/src/lib.rs:237-269 | reranking only permutes the hits, and the rank bias makes the scores strictly descending |
| Rerank.HybridTail | crates/oracle-automate-rag/src/lib.rs:229-275 | fuse, rerank, truncate, with no reranker, the local one or the endpoint: the answer is the front of the fused hits in the order of the reranker with its scores and bias, none lost, strictly descending, each hit, text included, one of those given |
| RateLimit.RateLimiter.AcquireWait | crates/oracle-automate-ingest/src/rate_limit.rs:57-73 | the wait leads to the granted slot, and the bucket moves on by the interval |
| RateLimit.RateLimiter.SetInterval | crates/oracle-automate-ingest/src/rate_limit.rs:44-51 | only the interval of that host changes |
| RateLimit.SlotsAreChained | crates/oracle-automate-ingest/src/rate_limit.rs:57-73 | each slot is the later of its call time and the previous slot plus the interval then in force |
| RateLimit.GrantUsesIntervalInForce | crates/oracle-automate-ingest/src/rate_limit.rs:44-73 | the interval of a grant is the one last set |
| RateLimit.IntervalIsInForce | crates/oracle-automate-ingest/src/rate_limit.rs:44-81 | after any run the interval reported for a host is the one last set, or the standard one |
| RateLimit.GrantsAreEarliest | crates/oracle-automate-ingest/src/rate_limit.rs:57-73 | no schedule that keeps call times and spacing has any slot earlier |
| RateLimit.WindowHoldsFew | crates/oracle-automate-ingest/src/rate_limit.rs:57-73 | with one interval, a window shorter than m intervals holds at most m slots |
| RateLimit.HostsAreIndependent | crates/oracle-automate-ingest/src/rate_limit.rs:44-73 | calls for other hosts change nothing |
| Memory.WorkingMemory.AppendEntry | crates/oracle-automate-memory/src/lib.rs:94-118 | every ring stays the last `cap` appends of its session since its last clear, or all of them for capacity 0 |
| Memory.WorkingMemory.Recent | crates/oracle-automate-memory/src/lib.rs:121-127 | the newest entries first, up to the limit |
| Memory.WorkingMemory.ClearSession | crates/oracle-automate-memory/src/lib.rs:129-131 | clearing forgets one session only |
| Memory.EpisodicMemory.RecordEntry | crates/oracle-automate-memory/src/lib.rs:158-169 | entries and tag index stay those of the records made |
| Memory.EpisodicMemory.ByTag | crates/oracle-automate-memory/src/lib.rs:174-194 | the last `limit` entries of a scan of the records for that tag and tenant, in record order |
| Memory.PickedIsScan | crates/oracle-automate-memory/src/lib.rs:174-194 | the index gives what a scan gives |
| Memory.DistinctTagsScanPlainly | crates/oracle-automate-memory/src/lib.rs:158-194 | if no record repeats a tag the lookup is the plain scan |
| Memory.ScanIsVisible | crates/oracle-automate-memory/src/lib.rs:184-188 | exactly the entries recorded under the tag that belong to the asking tenant or to nobody are returned, or all if no tenant asks |

## Left out

- Machine arithmetic: wrap-around of `u32`, `u64`, `i64` and `usize` counters and offsets, and the rounding, infinities and NaN of `f32` and `f64`.
- JSON text and serde: messages and replies are values, object keys are looked up first match first, and a reply to a client call is not decoded further.
- Bounded channels: a full queue delays a sender, which the step order already allows; cancellation of a call by its caller.
- The legacy single-task client (`spawn_with_delegate`), the disabled elicitation handle, tool lists, prompts, resources and log levels.
- Liveness of the protocol: which steps end a wait is proved (`Protocol.DeliveredIsReturned`, `Protocol.EofFailsWaitingCalls`, `Protocol.CallCompletes`, `Protocol.ElicitationCompletes`), that a scheduler takes them is not.
- `extract_summary`, token estimates, leaf counts and flat titles of the document tree: each is settled by reading one function.
- DocTree.Assemble: raw pointers are addresses into vectors owned by value; the memory layout of a vector, and the reallocation that a push may or may not cause, is modelled as always invalidating the vector's other pointers.
- DocumentTree.AssignPaths: returns the labelled node instead of writing through a mutable reference, because vectors own their nodes by value.
- Headings.ScanLines: the two dialects share one scan with the line parser as a parameter; the parsers themselves are proved equal to their methods.
- `document_context` of the chunker and the text of the chunk prefix: the prefix is a parameter.
- `render` and `snapshot` of the metrics registry but for the reading of keys, and the partial update that a panicking observation leaves behind a poisoned lock.
- Number syntax of crawl delays: how a value reads is a parameter of the robots parser.
- The text search that finds the seeds of a multi-hop search, community summaries and labels; string ids, which are only compared and ordered, are numbers in the graph kernels.
- MetadataCache.CachedClient.BulkOperationMetadata: the lookups of one bulk call share one clock reading, and so do its stores; concurrent use of the cache is not modelled.
- Fusion.ReciprocalRankFusion: a k of -1, -2, … that divides by zero at some place, where the code computes an infinity; the builder of the search engine keeps k at least 1.
- Retry.RetryWithBackoff: delays are whole milliseconds.
- ErpResult.ParseErpMessages: the `row` field, an integer parsed from text, is not kept.
- The term overlap and identifier bonus of the local reranker, which are a parameter, BM25, embeddings, the stores behind the search, HTTP transports, and everything that wraps them.
- Clocks, poisoning of the other locks, files, environment and processes.
- Semaphore pool, error tables, exposure policy, percentile helpers, memory assembly across tiers and the roll-up of summaries would only add easy members.

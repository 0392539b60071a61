# Verified model of pincher's core algorithms

This Dafny project models the algorithmic core of pincher, a code indexer that keeps a
symbol and call graph in SQLite and serves it to coding agents, and proves that each part
agrees with a much simpler mathematical object:

* **The call-graph closure index.** `Store.BuildClosure` runs one depth-bounded breadth-first
  search per source inside a transaction, `Store.TraceViaClosure` answers traces from the rows.
  Both are proved against shortest-path length in the CALLS-family edge relation, for every edge
  table, project and depth. The benchmark's second builder is proved to give the same pairs and
  depths, and so is, up to the built depth, the recursive SQL query that the index replaces.
* **Two protocols.** The project lock is a transition system in which every file-system call of
  every contender is a step of its own, plus crashes, ageing of the file and unrelated processes.
  The Python extractor is a client and a subprocess joined by byte pipes, where the subprocess
  may be killed at any moment and write its answer in any pieces.
* **Flat streams turned into trees.** Markdown and HTML sections, YAML entries, XML elements and
  the function scopes of the line-based extractor: the byte ranges or index ranges come from one
  computation, the qualified names from another, and both are proved to describe one tree.
* **Hand-written scanners.** JavaScript statements, brace and indentation blocks, SQL comments,
  TOML lines and keys, line tables, each against a declarative automaton or least-position
  specification that does not mention the scanner. The automata in turn are proved right on every
  text put together from code, literals, comments and brackets: what was written is found again.
* **A managed block** in another program's config file, and when rewriting it is a fixed point.

Source text is a `string` whose characters stand for bytes. Code that updates variables, fields
or arrays in place is a method with loops or a class; recursion and string expressions are
functions.

## Where the code and its descriptions differ

* The lock is safe over all runs exactly if creating and writing the file is one step, judging it
  stale and removing it is one step, and the age limit never fires on a live holder
  (`ProjectLock.SafeIff`). The code gives none of the three: it creates, then writes; it checks,
  then removes; and a holder may outlive the age limit. Each missing hypothesis has a concrete run
  with two holders. That PIDs are not reused is not needed for safety. The error that another
  live process holds the lock can be wrong: a contender that found the file in place fails if the
  holder leaves before it looks at the file (`ProjectLock.FailsWithoutHolder`).
* Rewriting the managed block is not a fixed point for a non-empty file of newlines only: the first
  write leaves two newlines before the block, the second removes them. The other exception is a
  start marker with neither an end marker nor the server entry.
* The comments on `TraceViaClosure` and on the indexer's fast path say that the reported edge kind
  is the same on both trace paths. It is not. Outbound, the closure keeps the kind of the first edge
  that reached the node, the recursive query the alphabetically least kind of all edges into the
  node within the bound. Inbound, the closure still keeps the kind of an edge into the start, while
  the query takes the least kind of the edges out of the reported node, so the two differ on a chain
  of two edges of different kinds, without any parallel edges (`ViaKinds.InboundChainDiffers`).
  `OutboundViaIff` and `InboundViaIff` give the exact condition for every row; the kinds always
  agree if all call edges have one kind, and in a call forest, closed to depth 2 or more, exactly if
  kinds never change along a path.
* A trace may ask for more depth than the closure was built to: by default it is built to 3, and up
  to 5 can be asked for. The fast path does not compare the two and answers the query cut at the
  built depth (`CteTrace.FastPathIsCapped`). In each direction the two trace paths give the same
  nodes at the same depths exactly if the depth asked for is within the built one or no node lies
  one step beyond it (`CteTrace.FastPathAgrees`); on a path of five nodes traced to depth 4 they
  differ (`CteTrace.DefaultDepthDiffers`).
* In direction "both" the query merges the directions, each node at its lesser depth, while the
  closure path lists one after the other. The nodes are the same exactly if every node beyond the
  built depth in one direction lies within it in the other, so always within the built depth. The
  depths then agree exactly if no other node lies at two different distances from and to the start;
  on the cycle A, B, C the closure lists B at depths 1 and 2, the query at depth 1 only
  (`TraceMerge.CycleDiffers`).
* The comment on `findIndentBlock` says that comment-only lines never end a block; the loop lets
  only blank lines through, and the model follows the loop (`IndentBlock.CommentEndsBlock`).
* An unterminated SQL block comment of at least three bytes stops one byte short of the end of the
  file (`SqlComments.UnterminatedStopsShort`), and so does one in JavaScript, where a bracket in that
  byte ends the statement (`JsReadBack.OpenRemarkStopsShort`).
* XML element names that contain dots, which XML allows, can give two elements one qualified name. A
  dotted name can do so, in a document where it is the only one, exactly if each of its pieces is a
  name itself or the number of a namesake behind one: `a.b` and `a.1` can, `a.1b` cannot
  (`XmlClash.ClashIff`, `XmlClash.NumbersClash`). The namespace prefix is stripped, and what follows
  a prefix may begin with a digit, as in `p:1b`; with prefixes the condition is that no piece is
  empty.
* The XML decoder is configured to be lenient and to close HTML's void elements by itself. It then
  delivers a start tag at the offset of the end tag made up before it, which can give an element an
  empty range (`XmlDecoder.EmptyRange`), and in an RSS file the text of a `link` closes the `link`,
  so that `</link>` closes everything that is open and the rest of the file is never read
  (`XmlDecoder.LinkEndsItem`). A well-formed document is delivered as written exactly if no element
  on the list has a body.
* The ranges of YAML entries nest like their paths exactly if the first entry behind the value of
  each entry starts on a later line than that entry, and not inside its block scalar
  (`YamlRanges.RangesNestIff`). A flow mapping on one line is the exception: in `{a: 1, b: 2}` the
  range of `a` reaches over all of `b` (`YamlRanges.FlowMappingOverlaps`).
* Bisection and newline counting give different line numbers at the end of a source that ends in a
  newline, and at negative offsets (`LineIndex.LineNumbersAgree` is exact).

## Model

| member | source | states |
|---|---|---|
| `ClosureStore.Store.BuildClosure` | internal/db/closure.go:69-163 | any failure leaves the old rows; success replaces exactly this project's rows by the closure of its call edges; two different nodes have a row of depth 1 iff an edge of the project with kind CALLS, HTTP_CALLS or ASYNC_CALLS joins them; the number of inserts executed equals the number of rows added, so INSERT OR IGNORE ignores none |
| `ClosureStore.Store.TraceViaClosure` | internal/db/closure.go:195-235 | outbound rows, then inbound rows, each the first 500 in (depth, id) order of all matching rows; a failing query gives no rows at all |
| `ClosureStore.InsertReachable` | internal/db/closure.go:136-157 | the search from one source fills in exactly that source's rows up to the depth bound, one insert per row |
| `ClosureStore.ReadAdjacency` | internal/db/closure.go:84-110 | the adjacency map lists every node's outgoing edges in row order and has only nodes with some |
| `ClosureStore.OrderedLimited` | internal/db/closure.go:208-233 | the least `limit` rows of a set, strictly ordered by depth and id |
| `ClosureStore.TextLessIff` | internal/db/closure.go:211-228 | ids are ordered byte by byte: the first difference decides, a text comes after its prefixes |
| `ClosureTheorems.RowsAreShortestPaths` | internal/db/closure.go:136-157 | a row (from, to, d, k) exists iff to differs from from and is within the bound; d is the shortest-path length and k the kind of an edge into `to` from a node at distance d-1 |
| `ClosureTheorems.StoredCallChains` | internal/db/closure.go:86-157 | said of the edge table itself: a row exists iff the two nodes differ and a chain of at most the built depth of calls of the three kinds leads from one to the other; its depth is the length of the shortest such chain, its kind one of the three |
| `ClosureTheorems.Truncation` | internal/db/closure.go:136-157 | a closure cut at a smaller depth is the closure of that depth, via kinds included |
| `ClosureTheorems.RebuildIsIdempotent` | internal/db/closure.go:112-162 | the table is a function of the edge rows as read: building again changes nothing |
| `ClosureTheorems.RebuildInAnyOrder` | internal/db/closure.go:112-162 | the same edges read in another order give the same pairs and depths, and the same row wherever the edges into the target have one kind |
| `ClosureTheorems.OutboundIsNeighbourhood` | internal/db/closure.go:208-219 | outbound rows are the other nodes at distance at most min(requested, built), with that distance |
| `ClosureTheorems.InboundIsConverse` | internal/db/closure.go:220-233 | u sees v outbound iff v sees u inbound, with the same depth and kind |
| `BfsLayers.LayerIsDistance` | internal/db/closure.go:136-157 | the d-th frontier holds exactly the nodes at distance d, and the seen set those within distance d |
| `BfsLayers.LayerKind` | internal/db/closure.go:145-149 | the kind kept with a frontier node is that of an edge into it from the frontier before |
| `CallGraph.WalkIsPath` | internal/db/closure.go:136-157 | the inductive walk relation behind distances is the existence of an explicit list of linked nodes |
| `CallGraph.ShortestExists` | internal/db/closure.go:136-157 | every reachable node has a distance, at most the length of any walk |
| `ClosureBench.MeasureClosure` | cmd/closurebench/main.go:191-250 | the benchmark's builder holds exactly the pairs within the bound, with shortest-path lengths, over edges of every kind |
| `ClosureBench.BuildersAgree` | cmd/closurebench/main.go:223-245 | on a project with CALLS-family edges only both builders hold the same (from, to, depth) rows |
| `CteTrace.CteDepthIsShortest` | internal/db/db.go:4367-4462 | the least depth the recursive query reports for a node is its distance, in either direction |
| `CteTrace.FastPathAgrees` | internal/index/indexer.go:2258-2292 | for every requested and built depth, in each direction: the closure and the recursive query report the same nodes and depths iff the request is within the built depth or no node is exactly one step beyond it |
| `CteTrace.FastPathIsCapped` | internal/db/closure.go:195-235 | whatever depth is asked for, the closure reports what the query reports at the lesser of the requested and the built depth |
| `CteTrace.DeeperRequestDiffers` | internal/index/indexer.go:2258-2292 | on a path one edge longer than the built depth the query reports the last node and the closure does not |
| `CteTrace.DefaultDepthDiffers` | internal/db/closure.go:24 | with the default built depth of 3 a path of five nodes, traced to depth 4, shows its last node on one trace path only |
| `TraceLimits.CutOffAgrees` | internal/db/db.go:4397-4411 | wherever the uncut answers agree, the answers cut at 500 rows hold equally many nodes at every depth, whichever ties the query keeps |
| `ViaKinds.QueryViaIsLeast` | internal/db/db.go:4397-4409 | the query reports the least kind of the edges into the reported node, or out of it inbound, that lie on a walk within the bound |
| `ViaKinds.OutboundViaIff` | internal/db/closure.go:208-219 | outbound, a row's kind is the query's iff it is least among the kinds of edges into the node whose source is reached by a shorter walk |
| `ViaKinds.InboundViaIff` | internal/db/closure.go:220-233 | inbound, a row's kind, that of the last edge of a shortest path from the reported node to the start, is the query's iff it is the least kind of the edges out of the node on the way to the start |
| `ViaKinds.OneKindAgrees` | internal/index/indexer.go:2270-2292 | if all call edges have one kind, every row of every trace, of any depth, carries the query's kind |
| `ViaKinds.ForestAgreesIff` | internal/index/indexer.go:2270-2292 | in a call graph without cycles and with one edge at most into each node the kinds agree in every trace of any depth iff the built depth is below 2 or an edge and the next always have the same kind |
| `ViaKinds.ParallelDisagrees` | internal/db/closure.go:145-149 | if the edge read first between two nodes has not the least kind of the edges between them, the closure and the query report different kinds, at every depth |
| `ViaKinds.FirstEdgeKept` | internal/db/closure.go:145-149 | the row of two linked nodes has depth 1 and the kind of the edge read first between them |
| `ViaKinds.ParallelEdgesDiffer` | internal/db/db.go:4397-4409 | two parallel edges for which the closure records HTTP_CALLS and the query reports CALLS |
| `ViaKinds.InboundChainDiffers` | internal/db/db.go:4397-4409 | a chain of two edges for which the inbound traces report different kinds |
| `TraceMerge.TraceViaCte` | internal/db/db.go:4371-4462 | the rows of the directions asked for, each node once, the outbound row unless the inbound one is strictly nearer; a failing query gives no rows |
| `TraceMerge.BothDirections` | internal/db/closure.go:206-235 | below the limit, in direction "both", for every depth: the nodes agree with the merged query iff every node beyond the built depth in one direction is within it in the other; the depths iff, besides, no other node has two different distances from and to the start; the list repeats no node iff no other node is reached both ways |
| `TraceMerge.CycleDiffers` | internal/db/closure.go:206-235 | on a cycle of three nodes the closure path lists one node at two depths, the query at one |
| `ProjectLock.SafeIff` | internal/index/lockfile.go:54-96 | mutual exclusion over all runs holds iff create-and-write and judge-and-remove are atomic and only abandoned files age |
| `ProjectLock.InvAlways` | internal/index/lockfile.go:71-95 | under those hypotheses every state of every run has a holder's own unaged file in place, nobody about to remove it, and one process at most in a window |
| `ProjectLock.TornCreate` | internal/index/lockfile.go:72-84 | without atomic creation two processes can hold the lock: an empty file reads as corrupt |
| `ProjectLock.TornReclaim` | internal/index/lockfile.go:86-95 | without atomic reclaim two contenders judge one file stale and the slower removes the faster one's lock |
| `ProjectLock.AgedHolder` | internal/index/lockfile.go:140-146 | a live holder older than the limit loses its lock |
| `ProjectLock.SoloAcquire` | internal/index/lockfile.go:71-95 | step by step in the transition system, an undisturbed contender comes to exactly what the loop does, for every file in place, set of running processes, and failing open or write |
| `ProjectLock.SoloHolds` | internal/index/lockfile.go:71-153 | without errors an undisturbed contender holds the lock within its two attempts iff there is no file, or one that is old, corrupt or names no live process with a positive PID; otherwise it fails and leaves the file alone |
| `ProjectLock.StepsBounded` | internal/index/lockfile.go:71-95 | nobody waits: in every run, under any schedule, a contender takes at most eight steps |
| `ProjectLock.ReleaseLetsNextIn` | internal/index/lockfile.go:84 | after a release the next undisturbed contender holds the lock |
| `ProjectLock.CrashLetsNextIn` | internal/index/lockfile.go:140-153 | after a crash of the holder, too, if no other process goes by its PID |
| `ProjectLock.FailsWithoutHolder` | internal/index/lockfile.go:86-95 | a run in which a contender fails although the holder has just left |
| `ProjectLock.LockPath.AcquireProjectLock` | internal/index/lockfile.go:54-96 | the retry loop itself, with errors from creating and from writing: when it succeeds, and what it leaves at the path in every case; a fresh file naming a live process makes it fail and stays |
| `PythonDaemon.PythonRunner.Extract` | internal/ast/python_runner.go:67-141 | with lossless codecs an answer was computed from the path and source just sent, an error reply is a real extraction error, and the process is kept exactly after an unencodable request, an error reply or an answer |
| `PythonDaemon.PythonRunner.Exchange` | internal/ast/python_runner.go:111-140 | one request line, one response line: any failure to write or read, a blank or an undecodable line tears the process down; a line read is the response to this request, and no line is reported missing while one can be read |
| `PythonDaemon.PythonRunner.Session` | internal/ast/python_runner.go:67-141 | over any sequence of calls, with kills in between, every result belongs to its own call |
| `PythonDaemon.PythonRunner.StartLocked` | internal/ast/python_runner.go:145-171 | a start gives a fresh process with empty pipes, or leaves the runner stopped |
| `PythonDaemon.PythonRunner.ResetLocked` | internal/ast/python_runner.go:173-185 | the process is killed and forgotten |
| `PythonDaemon.Process.Turn` | internal/ast/python_extract.py:344-390 | no step of the daemon writes more than the one response the pending request line calls for, and an idle daemon writes nothing |
| `PythonDaemon.WholeReply` | internal/ast/python_extract.py:379-390 | once a newline can be read, the unread bytes are the whole response to the request under way and nothing else |
| `PythonDaemon.ServedIff` | internal/ast/python_extract.py:362-390 | the daemon passes over lines of white space, answers a line that is no request with an error, and a request with its own id |
| `SectionTree.BuildSections` | internal/ast/markdown.go:183-238 | section i is named by the slugs of the headings that enclose it and ends, newlines trimmed, before the next same-or-shallower heading |
| `SectionTree.RangesFormTree` | internal/ast/markdown.go:183-238 | ranges are non-empty, and section j lies inside section i iff heading i encloses heading j; otherwise they are disjoint |
| `SectionTree.EndIsTrimmed` | internal/ast/markdown.go:190-203 | a section ends behind a byte that is no line break, and only line breaks stand between there and the next same-or-shallower heading or the end of the source |
| `SectionTree.StackIsPath` | internal/ast/markdown.go:212-226 | after popping and pushing for heading j the stack is exactly the headings enclosing j, outermost first |
| `SectionTree.EnclosingPathIsPrefix` | internal/ast/markdown.go:212-226 | the path of an enclosing heading is a prefix of the path of what it encloses |
| `SectionTree.EnclosingComplete` | internal/ast/markdown.go:212-226 | the path misses no enclosing heading and keeps document order |
| `SectionTree.CollectHeadingsAndLinks` | internal/ast/markdown.go:92-127 | pass 1 gives every link the qualified name of the last heading before it |
| `SectionTree.ContextPath` | internal/ast/markdown.go:116-119 | the context stack of pass 1 spells the name that the second pass builds for the last heading |
| `SectionTree.LinkRecordedIff` | internal/ast/markdown.go:92-127 | exactly the links with a destination are recorded, each under the name of the section whose heading came last before it |
| `MarkdownSlug.MarkdownSlug` | internal/ast/markdown.go:410-452 | the loop computes the slug function |
| `MarkdownSlug.SlugIff` | internal/ast/markdown.go:410-452 | slugs are lower-case words joined by single underscores or a lone underscore, never hold a dot, and exactly such strings are left unchanged |
| `MarkdownSlug.SlugSpells` | internal/ast/markdown.go:410-452 | a slug is the title's ASCII letters and digits, all of them, in order and in lower case, with an underscore between two of them iff a blank, tab, hyphen, underscore or dot stands between them in the title; it is `_` iff there are none |
| `MarkdownSlug.SectionNamesArePaths` | internal/ast/markdown.go:212-226 | two sections share a qualified name iff the slugs along their paths are equal one by one |
| `HtmlHeadings.FindHeadingAfter` | internal/ast/html.go:366-398 | the least position from the start on where the tag stands and the title follows within the window, or -1 |
| `HtmlHeadings.HeadingAtIff` | internal/ast/html.go:366-398 | what is looked for: `<h` in either case with the level, and the title, ASCII case ignored, within 4096 bytes from there |
| `HtmlHeadings.IndexFold` | internal/ast/html.go:413-442 | the least case-insensitive match, or -1 |
| `HtmlHeadings.LocateHeadings` | internal/ast/html.go:113-144 | each heading is located at its first match behind the one before, unlocatable ones are skipped |
| `HtmlHeadings.LocatedWellPlaced` | internal/ast/html.go:113-144 | the cursor alone makes the starts strictly increase, on non-newline bytes, for every document |
| `HtmlHeadings.LocatedIsFound` | internal/ast/html.go:113-144 | every heading kept comes from an element with a title that stands at its start |
| `HtmlHeadings.LocatedNext` | internal/ast/html.go:113-144 | an element is located at the first such place behind the headings before it, and skipped iff it has no title or there is none |
| `HtmlHeadings.HtmlSections` | internal/ast/html.go:198-228 | for every document the emitted ranges form the tree that the names spell |
| `YamlEntries.Walker.Walk` | internal/ast/yaml.go:77-115 | appends exactly the preorder entries of the node below the path |
| `YamlEntries.Walker.WalkStream` | internal/ast/yaml.go:117-137 | a stream of several documents puts each below a document entry of its own, a single one at the top |
| `YamlEntries.StreamOwns` | internal/ast/yaml.go:77-137 | in every stream each entry is followed by exactly the entries of its value, and then by none as deep |
| `YamlEntries.EntriesIff` | internal/ast/yaml.go:77-115 | the entries of a node are exactly the values of its scalar keys, at the key's position, its items numbered from 0, and what is below those; a document adds none of its own |
| `YamlEntries.StreamIff` | internal/ast/yaml.go:117-137 | of several documents each has an entry named `doc` and its number, at line and column 1 at least; a single document has none |
| `YamlEntries.SanitizeIff` | internal/ast/yaml.go:651-656 | keys keep all characters but dots, slashes and blanks, which become underscores |
| `YamlEntries.NextIsSubtreeEnd` | internal/ast/yaml.go:160-166 | the entries between entry i and the next with a path no longer are exactly those the walk emits for i's value |
| `YamlEntries.ContainerEnd` | internal/ast/yaml.go:160-166 | the end byte is the line start of the first entry behind the value's own entries, or the end of the source |
| `YamlEntries.ScalarEnd` | internal/ast/yaml.go:695-738 | a block scalar ends at the first later line whose text is not deeper than the key, any other scalar with the key's line |
| `YamlEntries.OutdentedIff` | internal/ast/yaml.go:711-733 | a line ends a block scalar iff its first byte other than blank and tab is no line break and not right of the key |
| `YamlEntries.NamesArePaths` | internal/ast/yaml.go:651-656 | sanitised keys make qualified names as distinct as paths |
| `YamlRanges.EntryRange` | internal/ast/yaml.go:153-176 | an entry's range: the end by its kind of value, stretched to the end of its line if it would be empty |
| `YamlRanges.RangesNestIff` | internal/ast/yaml.go:153-176 | for every stream in source order no range is empty, and an entry's range holds the ranges of its value's entries and is disjoint from the others, for all entries, iff the first entry behind each value starts on a later line than the entry and outside its block scalar |
| `YamlRanges.FlowOverlaps` | internal/ast/yaml.go:153-176 | an entry of any kind for which that fails reaches over the start of the first entry behind its value |
| `YamlRanges.FlowMappingOverlaps` | internal/ast/yaml.go:153-176 | `{a: 1, b: 2}` gives the overlapping ranges [1, 12) and [7, 12) to two siblings |
| `XmlElements.Reader.Read` | internal/ast/xml.go:119-183 | for every stream whose offsets never go back, the token loop and the closing pass compute the fold of the tokens over nodes and open-element stack |
| `XmlElements.ElementStart` | internal/ast/xml.go:102-117 | the first angle bracket of the gap before the token, or the gap's start if it holds none |
| `XmlTree.RangesNest` | internal/ast/xml.go:119-183 | for every token stream whose offsets never go back, even with elements left open, ranges are in bounds, children lie inside parents and siblings are disjoint |
| `XmlTree.NonEmptyIff` | internal/ast/xml.go:119-183 | all ranges are non-empty iff every start tag takes up room itself or has some before its element's closing tag |
| `XmlReadBack.ReadBack` | internal/ast/xml.go:119-164 | reading the tokens of a well-formed document, delivered as written, gives back its element tree with names, ranges and child order, and leaves nothing open |
| `XmlDecoder.DeliverOffsets` | internal/ast/xml.go:90-93 | whatever the lenient decoder closes or drops, the offsets it delivers never go back |
| `XmlDecoder.DeliveredAsWrittenIff` | internal/ast/xml.go:90-93 | it delivers a well-formed document as written iff no element that it closes by itself has a body |
| `XmlDecoder.WrittenIsReadBack` | internal/ast/xml.go:90-183 | such a document is read back from its source: names, ranges and child order |
| `XmlDecoder.StrayEndClosesAll` | internal/ast/xml.go:90-93 | an end tag that matches no open element closes them all, and nothing after it is read |
| `XmlDecoder.OtherPrefixEnds` | internal/ast/xml.go:90-93 | an end tag with the right local name under another prefix ends the reading |
| `XmlDecoder.LowerCaseIff` | internal/ast/xml.go:93 | names on the list are compared without regard to the case of ASCII letters |
| `XmlDecoder.EmptyRange` | internal/ast/xml.go:90-183 | a document with an unclosed `br` in which the next element gets an empty range |
| `XmlDecoder.LinkEndsItem` | internal/ast/xml.go:90-183 | a well-formed feed item whose `link` ends the document |
| `XmlNames.Emitter.EmitChildren` | internal/ast/xml.go:231-252 | appends, in preorder, every named element below the parent with its segment, numbered among its namesakes when shared |
| `XmlNames.Emitter.Emit` | internal/ast/xml.go:254-255 | the root under its own name, then everything below it |
| `XmlUnique.DocumentDistinct` | internal/ast/xml.go:231-255 | if no element name holds a dot, all elements of a document have pairwise distinct qualified names |
| `XmlNames.NumberedIffShared` | internal/ast/xml.go:234-249 | a segment carries a position iff a sibling shares the name |
| `XmlUnique.IrregularDistinct` | internal/ast/xml.go:231-255 | the same if only one name holds dots and one of its pieces is neither a name nor the number of a namesake behind one |
| `XmlClash.ClashIff` | internal/ast/xml.go:231-255 | a dotted name clashes in some document of deliverable names where it is the only dotted one iff each of its pieces is a name or the number of a namesake behind one; with namespace prefixes, iff no piece is empty |
| `XmlClash.ChainClashes` | internal/ast/xml.go:231-255 | the clashing document: a nested chain of elements named like the pieces, with as many namesakes as the numbers call for, next to the dotted one |
| `XmlClash.NumbersClash` | internal/ast/xml.go:231-255 | without prefixes `a.1` can clash and `a.1b` cannot, with prefixes it can |
| `XmlClash.DottedNamesClash` | internal/ast/xml.go:231-255 | one such document with the names its elements get |
| `FuncScopes.ScanLines` | internal/ast/extractor.go:2206-2245 | the scope seen on each line and the name given to each function are those of the popped stack's top |
| `FuncScopes.TopIsInnermost` | internal/ast/extractor.go:1990-1992 | for any ranges, after the pop the stack is empty iff no function is active, and its top is the active function opened last |
| `FuncScopes.ScopeSpelled` | internal/ast/extractor.go:2206-2245 | the name a line is placed under is the module, then the names of the functions on the stack, outermost first |
| `FuncScopes.ExactIff` | internal/ast/extractor.go:1990-1992 | the stack is exactly the functions whose range contains the line, on every scanned line, iff the ranges are pairwise nested or disjoint as far as lines were scanned |
| `LineIndex.BuildLineOffsets` | internal/ast/extractor.go:3957-3965 | the sorted starts of all lines, none after a final newline |
| `LineIndex.OffsetToLine` | internal/ast/extractor.go:4251-4262 | bisection splits the table into offsets at most and beyond the given one |
| `LineIndex.ByteOffsetToLine` | internal/ast/markdown.go:473-484 | one plus the newlines before the clamped offset |
| `LineIndex.LineNumbersAgree` | internal/ast/extractor.go:4251-4262 | bisection and counting agree iff the offset is not negative and not past the end of a source that ends in a newline |
| `LineIndex.LineColRoundTrip` | internal/ast/yaml.go:741-753 | a position's line and column lead back to the position |
| `LineIndex.LineStartAt` | internal/ast/markdown.go:457-471 | the byte after the last newline before the offset |
| `LineIndex.LineStartIsIndexed` | internal/ast/markdown.go:457-471 | walking back to a line start and looking it up in the table give the same offset |
| `JsStatement.FindStatementEnd` | internal/ast/javascript_ast.go:743-791 | the least stopping point of the quote, template, comment and bracket automaton, one past it for a semicolon, or the end of the source; never out of bounds |
| `JsReadBack.StatementEndsAsWritten` | internal/ast/javascript_ast.go:743-791 | any statement put together from string and template literals with escapes and embedded code, comments, brackets around such pieces and other bytes ends behind its semicolon, before a line break that nothing continues, before a closing bracket that is not its own, or with the source |
| `JsReadBack.LiteralStatement` | internal/ast/javascript_ast.go:815-832 | an assignment of a quoted literal is one statement, whatever the content |
| `JsReadBack.OpenRemarkStopsShort` | internal/ast/javascript_ast.go:767-776 | a block comment that is never closed stops short of the last byte, which still counts as code |
| `JsStatement.SkipJSString` | internal/ast/javascript_ast.go:815-832 | skips to where the automaton is back in code at the same depth |
| `JsStatement.SkipJSTemplate` | internal/ast/javascript_ast.go:834-862 | likewise for a template literal with its embedded expressions |
| `JsStatement.ContinuesNextLine` | internal/ast/javascript_ast.go:800-812 | whether the next non-blank byte is one that continues a statement |
| `BraceBlock.FindBraceBlock` | internal/ast/extractor.go:4198-4248 | the result is past the brace matching the first top-level opener of the header, or at the header's end if that comes first, or the end of the source |
| `BraceBlock.BodylessStaysPut` | internal/ast/extractor.go:4198-4248 | a declaration whose header ends before any opener never reaches past that end, so no sibling's block is swallowed |
| `BraceBlock.BlockEndUnique` | internal/ast/extractor.go:4198-4248 | the specification admits one result only |
| `BraceReadBack.BodyEndsAsWritten` | internal/ast/extractor.go:4198-4248 | a header of any bytes that neither end it nor open a body, balanced parentheses included, followed by a body with balanced braces: the block ends behind the closing brace |
| `BraceReadBack.DeclarationEndsAsWritten` | internal/ast/extractor.go:4157-4248 | without a body it ends behind the semicolon, at a line end that neither brace, arrow nor `where` continues, or with the source |
| `BraceBlock.DeclContinuationAt` | internal/ast/extractor.go:4157-4187 | whether the next non-blank text is an arrow, a where clause or an opening brace, and which |
| `IndentBlock.FindIndentBlock` | internal/ast/extractor.go:4049-4089 | the end of the last line with text before the first dedent, or the end of the source if nothing dedents |
| `IndentBlock.EndIsUnique` | internal/ast/extractor.go:4049-4089 | that end is determined by the text |
| `IndentReadBack.BlockEndsAsWritten` | internal/ast/extractor.go:4049-4089 | a block written as an opening line and deeper or blank lines ends with its last text if a line as shallow as the opening one follows, and with the source if nothing does |
| `IndentBlock.CommentEndsBlock` | internal/ast/extractor.go:4049-4089 | a source in which a comment-only line ends the block |
| `Disambiguate.FileResult.DisambiguateDuplicates` | internal/ast/extractor.go:2441-2473 | first occurrences keep their names, later ones get their start line, all else is unchanged, and the collisions are exactly the names duplicated within a kind |
| `Disambiguate.DistinctIff` | internal/ast/extractor.go:2441-2473 | the new (name, kind) keys are pairwise distinct iff repeats of a key start on different lines and no kept name equals a suffixed one |
| `Disambiguate.PlainNamesDistinct` | internal/ast/extractor.go:2441-2473 | in particular when no name holds a tilde and equal keys start on different lines |
| `Disambiguate.SuffixedInjective` | internal/ast/extractor.go:2468-2469 | a suffixed name determines name and line |
| `SqlComments.SqlCommentSpans` | internal/ast/sql.go:169-218 | sorted, disjoint, non-empty, in-bounds spans that cover exactly the positions the automaton marks as comment |
| `SqlComments.InAnySpan` | internal/ast/sql.go:221-228 | whether some span covers the position |
| `SqlReadBack.CommentsAreWhereWritten` | internal/ast/sql.go:169-218 | in a text put together from code, strings with escapes and comments of both kinds exactly the comments are covered |
| `SqlComments.UnterminatedStopsShort` | internal/ast/sql.go:196-214 | an unterminated block comment of at least three bytes covers all but the last byte |
| `TomlKeys.SplitDottedKey` | internal/ast/toml.go:298-352 | the index-advancing scanner ends on every string and computes the recursive splitter |
| `TomlKeys.RoundTripIff` | internal/ast/toml.go:298-352 | for segments written double-quoted with escapes, single-quoted or bare, with blanks around them, splitting gives the list back iff no segment is empty |
| `TomlKeys.SplitReadsWrite` | internal/ast/toml.go:298-352 | splitting a written key gives its non-empty segments in order |
| `TomlKeys.BasicReadsEscape` | internal/ast/toml.go:311-325 | reading a double-quoted segment undoes the escaping, whatever follows it |
| `TomlLines.StripComment` | internal/ast/toml.go:391-420 | the line up to the first unquoted hash, or all of it |
| `TomlLines.FindKeyValueSeparator` | internal/ast/toml.go:357-386 | the first unquoted equals sign, or -1 if there is none |
| `TomlLines.CountOutsideStrings` | internal/ast/toml.go:426-456 | the number of unquoted occurrences, none for a quote character |
| `TomlLines.WrittenIsFound` | internal/ast/toml.go:357-456 | behind any unquoted text and strings of either kind, with escapes, a hash, equals sign or bracket is found where it stands, whatever the strings hold |
| `TomlLines.SeparatorBeforeComment` | internal/ast/toml.go:197-202 | the separator of the stripped line is the separator of the line itself if that stands before the comment, else there is none |
| `TomlLines.StrippedIsClean` | internal/ast/toml.go:391-420 | stripping leaves no comment and cuts inside no quotes |
| `TomlLines.Entries.PatchHeaders` | internal/ast/toml.go:250-268 | every header runs to the next header or the end of the source, in bytes and in lines; nothing else changes |
| `TomlLines.HeaderOwnsEntries` | internal/ast/toml.go:247-268 | an entry starts inside a header's range iff that is the last header at or before it |
| `TomlLines.HeadersTile` | internal/ast/toml.go:247-268 | from the first header on every byte lies in exactly one header's range |
| `TomlLines.HeaderLinesTile` | internal/ast/toml.go:250-268 | from the first header on every line lies in exactly one header's range of lines |
| `CodexBlock.RerunChangesNothingIff` | internal/init/codex.go:102-176 | for the block actually written, with paths that hold no marker, writing twice equals writing once iff the file is not made of newlines only and does not have a start marker with neither end marker nor entry |
| `CodexBlock.IdempotentIff` | internal/init/codex.go:102-150 | the same for any block whose interior has the entry and no marker |
| `CodexBlock.InteriorIsGood` | internal/init/codex.go:157-176 | the written interior is such a one |
| `CodexReadBack.SettingsReadBack` | internal/init/codex.go:102-176 | from the file written, unless the write is refused, a line lookup reads back the binary as `command`, `args`, the data directory as `PINCHER_DATA_DIR` and the restart flag, each under its table, if the text kept before the block opens neither table |
| `CodexReadBack.RefusedIff` | internal/init/codex.go:134-147 | a write is refused iff the file names the server entry and has no block to replace, and then leaves it as it is |
| `CodexReadBack.BlockIsMarked` | internal/init/codex.go:157-176 | the block stands between the documented marker lines |
| `CodexBlock.UpdatedIsFixed` | internal/init/codex.go:115-132 | replacing an existing block gives a fixed point |
| `CodexBlock.UpdateKeepsSurroundings` | internal/init/codex.go:115-132 | an update changes nothing but the block and newlines at its seams |
| `CodexBlock.AppendKeepsText` | internal/init/codex.go:143-149 | appending keeps the old text up to its trailing newlines |

## Left out

- Command line, report formatting, web server, updates, tracing: orchestration without an algorithm of its own.
- SQLite, its full-text index and its failure modes: tables are sequences and maps, a transaction is all or nothing, any call may fail.
- ClosureStore.Store.BuildClosure: which of several equally short rows' via kinds is kept follows the order in which the edge rows are read; SQL gives no order, so the model fixes one and only relates tables read in the same order.
- ClosureTheorems.RebuildIsIdempotent: both builds read the edge rows in one order; `ClosureTheorems.RebuildInAnyOrder` is the statement without that.
- ClosureBench.MeasureClosure: sizes, timings and `sortedDepths` are not modelled.
- CteTrace.FastPathAgrees: compares all rows of one direction; the recursive query's own limit of 500 orders by depth only and leaves ties open, so of a cut-off result only the number of nodes at each depth is fixed (`TraceLimits.CutOffAgrees`).
- TraceMerge.BothDirections: speaks of traces with at most 500 rows in each direction, for the same reason; turning rows into hops, which drops unknown symbols and stops at 500, is left out.
- Real time, PIDs and signals in the lock and the runner: the file's age, the set of live processes and kills are arbitrary inputs; the hash behind the lock path is taken as injective.
- ProjectLock.LockPath.Release: the model of the single path does not see whose file is removed; the transition system does.
- PythonDaemon.PythonRunner.Extract: JSON and base64 are arbitrary codecs, assumed to keep messages on one line and, where stated, to round-trip; the mutex is the sequence of calls, and finding an interpreter is an arbitrary success or failure.
- SectionTree.BuildSections: the preamble section, the module symbol and the link target canonicaliser are left out, and headings arrive with their starts already moved to the line start.
- ProjectLock.CrashLetsNextIn: assumes the invariant, which every run of the atomic protocol has; without it the file in place need not be the crashed holder's.
- JsReadBack.StatementEndsAsWritten: string literals that a line break or the end of the source cuts off are left to `JsStatement.FindStatementEnd`; escapes and embedded code are as the scanner takes them, by single bytes and by counting braces.
- HtmlHeadings.HtmlSections: the HTML parser is taken as the list of heading elements it visits; links, scripts and the title symbol are left out.
- YamlEntries.Walker.Walk: the YAML parser is taken as arbitrary node trees; alias targets are not entered, as in the source; Ansible edges and signatures are left out.
- YamlEntries.ContainerEnd: states the end before the adjustment for ranges that would be empty, which `YamlRanges.EntryRange` adds.
- YamlRanges.RangesNestIff: takes the parser to give entries in source order, each inside its line; end lines are left out.
- XmlElements.Reader.Read: the source links heap nodes; the model keeps the nodes in one list with child indices, so aliasing of nodes is not captured, and line numbers are left out.
- XmlDecoder.DeliveredAsWrittenIff: the decoder is Go's encoding/xml, which is not part of the repository; the model has its closing of listed names and of mismatched tags, compares names up to the case of ASCII letters, takes any list of names, and leaves out entity and syntax errors, which end the stream.
- XmlDecoder.StrayEndClosesAll: an element that declares a namespace leaves entries on the decoder's stack when a mismatched end tag pops it, which can stop the closing early; the model has elements on the stack only.
- XmlClash.ClashIff: without prefixes a name's first character is a letter, `_` or beyond ASCII, later ones may also be digits, `-` and dots; the exact ranges beyond ASCII, and local names with a colon in them, are not modelled.
- XmlNames.Emitter.EmitChildren: attribute symbols and start-tag snippets are left out.
- FuncScopes.ScanLines: classes, variables' own patterns and languages without nesting are left out; a line opens at most one function. A line too long for the line scanner ends the scan early; the lines behind it are then not scanned.
- TomlKeys.SplitDottedKey: escapes other than a backslash before one character are, as in the source, not decoded.
- The line loop of the TOML extractor with its multi-line strings and arrays: it only combines the scanners above with parser-validated input.
- `findEndKeywordBlock`, `trimBackToDeclKeyword`: keyword-delimited blocks and absorbing leading modifiers; the second may move a start back before the previous statement, so statement ranges are not claimed to be disjoint.
- Regular expressions and third-party parsers: their outputs are arbitrary inputs.
- Project matching tiers, blocklists, language detection, histogram scoring: they would only add easy members.

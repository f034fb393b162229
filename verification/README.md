# RepoDNA: models and proofs

A Dafny model of the algorithms inside RepoDNA, a repository analyser written in Rust, with proofs of what
they promise. `dafny verify dfyconfig.toml` checks all of it.

- **The dependency-graph kernel** (`Digraph`, `TarjanInvariant`, `Tarjan`, `BreadthFirst`, `ShortestCycle`,
  `Layers`, `Sums`, `WalkCounts`, `PathShares`, `LevelTotals`, `ShortestPathCount`, `Betweenness`) keeps the
  imperative loops over arrays, call stacks and queues. Each algorithm is proved against a short definition:
  mutual reachability, a shortest closed walk, the longest chain of component crossings, sums of shares of
  shortest paths. `EdgeBuilder` collects the edges and `ModuleGraph` composes the algorithms into the report.
- **Globs** (`GlobTokens`, `GlobClasses`, `GlobTexts`, `GlobMeaning`, `GlobReadings`, `GlobNames`, and `GlobPatterns`
  in `Glob.dfy`) are compiled and matched by the loops of the source. The matcher that remembers only the last star is
  proved equivalent to the plain meaning of wildcards, and `GlobMeaning` and `GlobReadings` say from the characters of
  a pattern which paths it matches. `Attributes`, `AttributeMeaning` and `AttributeAnchors` prove when translating a `.gitattributes`
  pattern keeps its meaning.
- **The calendar** (`Calendar`, `Timestamps`, `Rfc3339`, `Rfc3339Texts`) is pure arithmetic and text, with the exact
  set of the texts that are date-times.
- **Module inference** (`PathText`, `ModuleDrafts`, `ModuleConventions`, `ModuleInference`, `PackageModules`,
  `ModuleNames`, `ModuleEvidence`, `ModuleMap`, `ReportedNames`, `LayoutConventions`) runs the whole pipeline: packages,
  collapsing, layout conventions, splitting, sorting, merging, evidence, naming and numbering. Paths are lists of
  components; `PathText` proves that the string operations of the source are the list operations used.
- **License expressions** (`LicenseText`, `LicenseParser`, `LicensePrinter`, `LicenseGrammar`, `LicenseChoice`) follow
  Annex D of the SPDX Specification 2.3; the parser is proved against a grammar.
- **The parallel walk** (`Walk`, `WalkRuns`, `WalkSchedules`, `WalkCancellation`, `WalkRaces`, `WalkOrders`) is a state machine whose
  steps are the atomic actions of the threads; its theorems are about every interleaving. A run hands the entries
  out in one order, and the invariants hold for every order; a walker that finds its entries in an order that depends
  on the schedule makes runs of different orders, which `WalkRuns.SameResult` and `WalkOrders` compare.
- **Smaller cores**: training and ranking (`Ranking`), terminal tables (`CellWrapping`, `ColumnWidths`) and the
  path index of the import resolver (`ResolverIndex`).

`Text`, `Sorting`, `Basics`, `Confidences` and `Wrappers` hold what these share.

## Where the code and its documentation differ

The model follows the code. Each difference is a lemma:

- A `.gitattributes` pattern counts as anchored by its slashes, but the glob compiler also reads backslashes as
  slashes. Unless the two readings agree (`AnchorsAgree`), translating the pattern adds or drops a `**` in front.
  This changes nothing exactly if every segment before the first `**` matches every name, or some segment matches
  none (`AttributeAnchors.PortableIff`, `RootKeepsMeaning`). `a\b` changes.
- A pattern of nothing but `**` that is restricted to directories changes its meaning when moved: `**/` in `d`
  comes to match `d/x`.
- The directory is itself read as a pattern. `AttributeAnchors.ToGlobKeepsMeaning` says for directories at large when
  patterns keep their meaning inside: its names have to match themselves. `ToGlobStaysInside` says when they reach
  outside: when a name of it matches another. Patterns moved from `[id]` match nothing there, but files of `i` and `d`.
- Display names are documented as unique among the modules. They are among directory modules; a directory and a
  package (or the root) share a name exactly if the whole path of the directory is that name and none of its
  shorter tails is unambiguous (`ModuleNames.NamesDifferIff`).
- The walk is documented as deterministic regardless of thread scheduling. `WalkRaces.ScheduleFreeIff` gives the
  exact condition: the walk stays within the limit, or has one thread, or nothing within the reach of the threads
  can tell which of them took the last tickets. Beyond the limit two threads can otherwise race for a ticket, and the
  order in which the walker finds the entries matters even where the schedule does not (`WalkOrders.OrderFreeIff`).
- Printing and parsing timestamps are inverse exactly in the years 0 to 9999.

## Model

| member | source | states |
|---|---|---|
| `Digraph.Graph.constructor` | crates/repodna-architecture/src/graph.rs:17-21 | a new graph has the given number of nodes and no edge |
| `Digraph.Graph.AddEdge` | crates/repodna-architecture/src/graph.rs:24-28 | adds exactly the edge `from → to` to the edges there were, and nothing when an index is out of range |
| `Digraph.Graph.Finish` | crates/repodna-architecture/src/graph.rs:31-36 | every adjacency list becomes strictly increasing and keeps exactly its successors |
| `TarjanInvariant.EnterKeeps` | crates/repodna-architecture/src/graph.rs:72-78 | discovering a node keeps the whole invariant of the search (indices, stack order, reachability along the stack, low links, collected components) |
| `TarjanInvariant.ExamineKeeps` | crates/repodna-architecture/src/graph.rs:82-95 | examining an edge to a visited node keeps the invariant |
| `TarjanInvariant.LeaveKeeps` | crates/repodna-architecture/src/graph.rs:97-100 | returning from a node that is no root keeps the invariant; its low link passes to its parent |
| `TarjanInvariant.TopPartIsComponent` | crates/repodna-architecture/src/graph.rs:101-111 | when a node's low link is its own index, the stack from it upwards is exactly one class of mutually reachable nodes |
| `TarjanInvariant.CollectKeeps` | crates/repodna-architecture/src/graph.rs:101-112 | popping that component keeps the invariant |
| `Tarjan.PopComponent` | crates/repodna-architecture/src/graph.rs:102-109 | the pop loop takes the stack down to and including the node, clears the marks of what it takes, and returns exactly these nodes |
| `Tarjan.Close` | crates/repodna-architecture/src/graph.rs:101-112 | at a root the nodes from it upwards leave the stack and become one sorted component, and the whole invariant holds again |
| `Tarjan.Advance` | crates/repodna-architecture/src/graph.rs:81-96 | one step of the call stack with successors left: its fields after the step mirror the abstract step |
| `Tarjan.Retreat` | crates/repodna-architecture/src/graph.rs:97-112 | one step that leaves a node: pops the call, passes on the low link and collects a component if the node is a root |
| `Tarjan.StronglyConnectedComponents` | crates/repodna-architecture/src/graph.rs:57-117 | the iterative search ends on every graph; the lists are a partition of the nodes, two nodes share one exactly if each reaches the other, each list is increasing, and the lists are ordered by their first members |
| `BreadthFirst.FoundKeeps` | crates/repodna-architecture/src/graph.rs:138-141 | discovering a node keeps the breadth-first invariant: distances along the queue, everything nearer already known |
| `BreadthFirst.PopKeeps` | crates/repodna-architecture/src/graph.rs:129-131 | taking the front node, once all its edges are examined, keeps it |
| `BreadthFirst.WalkIsKnown` | crates/repodna-architecture/src/graph.rs:129-143 | whatever an allowed walk of at most the front distance reaches has been found, and no farther away than the walk is long |
| `ShortestCycle.InComponent` | crates/repodna-architecture/src/graph.rs:123 | binary search in the ordered members finds exactly the members |
| `ShortestCycle.FindReturn` | crates/repodna-architecture/src/graph.rs:126-143 | the search from one start stops at a node with an edge back to it, nearest of all; or there is no cycle through the start inside the members |
| `ShortestCycle.CyclesAreLonger` | crates/repodna-architecture/src/graph.rs:129-143 | no cycle through the start is shorter than the one the front node closes |
| `ShortestCycle.Backtrack` | crates/repodna-architecture/src/graph.rs:145-153 | following the parents gives a closed walk of edges inside the members, of the length the search found |
| `ShortestCycle.CycleFrom` | crates/repodna-architecture/src/graph.rs:125-160 | for one start: a cycle no longer than any through the start inside the members, or none exists |
| `ShortestCycle.ShortestCycle` | crates/repodna-architecture/src/graph.rs:119-163 | the result is a cycle inside the members through some member that is the first or stands before position `max_starts`; no cycle through any such member is shorter, and the cycles through the earlier ones are longer; none is returned exactly if no such member lies on a cycle |
| `Layers.ComponentOf` | crates/repodna-architecture/src/graph.rs:169-174 | every node gets the index of the component that holds it |
| `Layers.BuildOutgoing` | crates/repodna-architecture/src/graph.rs:175-184 | the target lists hold, without repetition, exactly the pairs of different components some edge joins |
| `Layers.BuildReverse` | crates/repodna-architecture/src/graph.rs:186-193 | the reverse lists name exactly the components that have a given target |
| `Layers.NoUnderflow` | crates/repodna-architecture/src/graph.rs:199 | the counter of a dependent is positive whenever it is decremented |
| `Layers.Process` | crates/repodna-architecture/src/graph.rs:196-204 | one component is taken from the queue: counters, layers and queue after its dependents are updated |
| `Layers.AllDrained` | crates/repodna-architecture/src/graph.rs:196-204 | an empty queue means that every component has been processed |
| `Layers.LayersAreLongest` | crates/repodna-architecture/src/graph.rs:165-167 | a labelling that is constant on components, drops along the other edges and is supported one level below is the longest chain of crossings below each node |
| `Layers.Layers` | crates/repodna-architecture/src/graph.rs:168-208 | every node's layer is the largest number of edges between different components on any walk from it |
| `WalkCounts.CountLast` | crates/repodna-architecture/src/graph.rs:235-236 | walks are counted by their last step |
| `WalkCounts.CountThrough` | crates/repodna-architecture/src/graph.rs:242-246 | the walks through a node at a position are the product of the walks before and after |
| `PathShares.DepRecurrence` | crates/repodna-architecture/src/graph.rs:242-246 | the dependency of a node is the sum, over its successors on shortest paths, of its share of their dependency plus one |
| `PathShares.DepIsDependency` | crates/repodna-architecture/src/graph.rs:241-250 | what that recurrence computes is the sum over all targets of the share of shortest paths through the node |
| `PathShares.CentralityBounds` | crates/repodna-architecture/src/graph.rs:212-213 | the sum of pair shares lies between zero and the number of ordered pairs of other nodes |
| `LevelTotals.LevelIsCrossed` | crates/repodna-architecture/src/graph.rs:241-250 | the shares of the nodes of one distance in the shortest paths to a farther node add up to one |
| `LevelTotals.LevelConservation` | crates/repodna-architecture/src/graph.rs:241-250 | the dependencies of all nodes at one distance from the source add up to the number of nodes reached strictly beyond |
| `ShortestPathCount.RecordedKeeps` | crates/repodna-architecture/src/graph.rs:230-239 | examining one edge keeps the invariant of the forward pass: every path count is the sum over the edges examined so far |
| `ShortestPathCount.Forward` | crates/repodna-architecture/src/graph.rs:221-240 | the forward pass leaves the distances, in `paths` the number of shortest paths, in the predecessor lists exactly the preceding nodes, and on the stack the reached nodes by distance |
| `Betweenness.PassOn` | crates/repodna-architecture/src/graph.rs:243-246 | one popped node adds its share to each predecessor's dependency and changes nothing else |
| `Betweenness.Backward` | crates/repodna-architecture/src/graph.rs:241-250 | after the backward pass each node's centrality has grown by the source's dependency on it |
| `Betweenness.Betweenness` | crates/repodna-architecture/src/graph.rs:214-254 | over exact reals each value is the sum of pair shares divided by `(n-1)(n-2)`, zero below three nodes, and lies in [0, 1] |
| `EdgeBuilder.StrongestIsMax` | crates/repodna-architecture/src/analysis.rs:204 | the confidence kept is the greatest of those added |
| `EdgeBuilder.SummaryNext` | crates/repodna-architecture/src/analysis.rs:207-220 | one more reference changes the summary of a module edge as the code updates its entry: saturating weight, strongest confidence, first three samples |
| `EdgeBuilder.Builder.AddEdge` | crates/repodna-architecture/src/analysis.rs:166-222 | after any sequence of calls the maps hold exactly the file pairs and module pairs some reference links, each with the summary of all its references, and the language-crossing references in order |
| `EdgeBuilder.Builder.ModulePairs` | crates/repodna-architecture/src/analysis.rs:387-394 | the keys of the module edges are pairs of different modules, each once, and exactly those some reference links |
| `ModuleGraph.BuildGraph` | crates/repodna-architecture/src/analysis.rs:390-394 | the module graph has exactly the edges of the builder |
| `ModuleGraph.FanCounts` | crates/repodna-architecture/src/analysis.rs:398-403 | fan-in and fan-out are the numbers of edges into and out of each module |
| `ModuleGraph.ComponentCycle` | crates/repodna-architecture/src/analysis.rs:479-484 | for a component of several modules a cycle is always found, inside the component, and no cycle of the whole graph through the first member or one of the first `maxStarts` is shorter |
| `ModuleGraph.SmallComponentCycle` | crates/repodna-architecture/src/analysis.rs:484 | where every member is tried, no cycle of the graph that passes through the component anywhere is shorter than the one found |
| `ModuleGraph.ModuleCycles` | crates/repodna-architecture/src/analysis.rs:479-513 | one cycle for every component of several members, in their order: shortest of all through the first ten members, and in a component of at most ten shortest of all cycles that pass through it |
| `ModuleGraph.EdgeLayers` | crates/repodna-architecture/src/graph.rs:165-167 | along an edge the layer strictly drops between components and is equal inside one |
| `ModuleGraph.AcyclicIffSingle` | crates/repodna-architecture/src/analysis.rs:479 | the graph is acyclic exactly if every component has one member |
| `ModuleGraph.AnalyzeModules` | crates/repodna-architecture/src/analysis.rs:387-484 | components, layers, centrality, fan counts and cycles of one graph, each with its meaning |
| `ModuleGraph.NoCyclesDescends` | crates/repodna-architecture/src/analysis.rs:387-484 | no cycle is reported exactly if the module graph is acyclic, and then every module edge strictly descends in layer |
| `GlobTokens.NaiveIsMeaning` | crates/repodna-core/src/glob.rs:6-7 | trying every extent of every star decides whether the text is a concatenation of what the tokens stand for |
| `GlobTokens.ForgetStar` | crates/repodna-core/src/glob.rs:254-258 | once a later star is reached, the earlier one can be forgotten, although a star may not cross a slash |
| `GlobTokens.MatchTokens` | crates/repodna-core/src/glob.rs:249-284 | the matcher that goes back to the last star only ends, and returns true exactly if the tokens mean the text, for all tokens, texts and both values of the flag |
| `GlobTokens.WildcardMatch` | crates/repodna-core/src/glob.rs:156-168 | true exactly if the text is a concatenation of what the characters stand for, slashes included |
| `GlobPatterns.ParseClass` | crates/repodna-core/src/glob.rs:200-230 | the loop returns the class, the position after it, or the error that the recursive definition gives |
| `GlobClasses.ClassRoundTrip` | crates/repodna-core/src/glob.rs:200-230 | a class spelled with single characters and ranges, plain or behind either sign of negation, compiles wherever it stands to a token that accepts exactly the characters listed, or exactly the others if it is negated, and never a slash |
| `GlobClasses.ClassIsSpelled` | crates/repodna-core/src/glob.rs:200-230 | every class that compiles is spelled so: its text up to the closing bracket is that of items whose ranges it has |
| `GlobClasses.ClassErrors` | crates/repodna-core/src/glob.rs:200-230 | a class is refused as unterminated only if no bracket but one in first place follows, and for a reversed range only if there is one |
| `GlobPatterns.ParseSegment` | crates/repodna-core/src/glob.rs:170-198 | the loop returns the collapsed tokens of the segment or its first error; `GlobMeaning.PartMeans` says what they match |
| `GlobMeaning.PartMeans` | crates/repodna-core/src/glob.rs:170-230 | a part spelled of characters and classes compiles, and matches a name exactly if the name is a concatenation in which a star stands for any run without a slash, a question mark for one character but a slash, a class for one of its characters, and any other character for itself |
| `GlobMeaning.PlainMeans` | crates/repodna-core/src/glob.rs:170-198 | in particular every part without an opening bracket compiles, and its characters mean just that |
| `GlobMeaning.PartIsSpelled` | crates/repodna-core/src/glob.rs:170-230 | every part that compiles is spelled so |
| `GlobMeaning.TextMeans` | crates/repodna-core/src/glob.rs:61-124 | for a whole pattern, from text to path: parts joined by slashes compile, and the glob matches a path exactly if leading names of it are matched part by part, `**` standing for any number of names; one part alone matches at any depth unless a slash leads, and a trailing slash leaves out the last name of the path |
| `GlobReadings.ReadingMeans` | crates/repodna-core/src/glob.rs:61-124 | the same for any text, whatever slashes and backslashes it has, in terms of the parts between them |
| `GlobReadings.CompiledHasReading` | crates/repodna-core/src/glob.rs:61-102 | every text that compiles has such a reading |
| `GlobMeaning.SpaceAround` | crates/repodna-core/src/glob.rs:68-71 | whitespace around a pattern changes nothing, and is no pattern by itself |
| `GlobMeaning.StarEndingMatches` | crates/repodna-core/src/glob.rs:295-301 | a star and an ordinary ending, such as `*.pem`, match exactly the paths in which some name ends so |
| `GlobPatterns.CollapseKeepsMeaning` | crates/repodna-core/src/glob.rs:176-181 | dropping a star after a star changes no match |
| `GlobPatterns.New` | crates/repodna-core/src/glob.rs:63-102 | compiling trims, reads backslashes as slashes, pops trailing and leading ones, and adds the segments of the parts |
| `GlobPatterns.MatchSegments` | crates/repodna-core/src/glob.rs:232-246 | true exactly if the segments match the parts, `**` standing for any number of them |
| `GlobPatterns.GlobMatches` | crates/repodna-core/src/glob.rs:111-124 | true exactly if some leading parts of the path match, all of them only if the pattern is not for directories |
| `GlobPatterns.DirectoryCoversContents` | crates/repodna-core/src/glob.rs:12 | a pattern that matches a directory matches everything inside it |
| `GlobTexts.TrailingSlash` | crates/repodna-core/src/glob.rs:11 | a trailing slash changes nothing but the restriction to directories, for every text without one |
| `GlobTexts.SlashMeansDirectory` | crates/repodna-core/src/glob.rs:11 | a text with a trailing slash matches a file exactly if the text without it matches the directory of the file |
| `GlobPatterns.DirectoryOnly` | crates/repodna-core/src/glob.rs:111-124 | a compiled pattern for directories matches a path exactly if it matches, without that restriction, the directory of the path |
| `GlobTexts.LeadingSlash` | crates/repodna-core/src/glob.rs:10 | a leading slash takes away the `**` in front, and changes nothing in a text with a slash inside |
| `GlobTexts.NoSlashIsAnyDepth` | crates/repodna-core/src/glob.rs:9 | a text without a slash inside compiles like the same text behind `**/` |
| `GlobTexts.NameAtAnyDepth` | crates/repodna-core/src/glob.rs:9-11 | a text that is one name matches exactly the paths with a matching part at any depth, and with a trailing slash those with a matching directory |
| `GlobPatterns.MatchesAtAnyDepth` | crates/repodna-core/src/glob.rs:232-246 | `**` and one more segment match exactly the paths with a matching part |
| `Attributes.SegmentsMoved` | crates/repodna-discovery/src/attributes.rs:86-95 | for every directory without a backslash or a name `**`, a moved pattern compiles exactly if the names of the directory do, and then to these in front of its own segments exactly if the two readings of "anchored" agree |
| `Attributes.RootPatternKept` | crates/repodna-discovery/src/attributes.rs:90-91 | in the file at the root a pattern keeps its segments, except when the text reads as anchored and the compiler does not agree |
| `AttributeAnchors.RootKeepsMeaning` | crates/repodna-discovery/src/attributes.rs:86-95 | and there it keeps its meaning for every path exactly if, in that case, the depth makes no difference to it: every segment before the first `**` matches every name, or some segment matches none |
| `AttributeMeaning.MovedMeans` | crates/repodna-discovery/src/attributes.rs:86-95 | what a moved glob matches: the names of the directory, read as patterns, match the leading parts, and the pattern the others |
| `AttributeMeaning.OnlyAnyMoved` | crates/repodna-discovery/src/attributes.rs:86-95 | a moved pattern of nothing but `**` matches exactly what lies in a directory that the names match, and that directory itself unless it is for directories |
| `GlobNames.SameCoverIff` | crates/repodna-discovery/src/attributes.rs:86-95 | putting `**` in front of segments changes no match exactly if the segments before their first `**` match every name, or some segment matches none |
| `GlobNames.MatchesEveryNameIff` | crates/repodna-core/src/glob.rs:249-284 | a segment matches every name exactly if it has a star and at most one other token, which accepts every character but the slash |
| `GlobNames.SegmentMatchesNoName` | crates/repodna-core/src/glob.rs:249-284 | a segment of a pattern matches no name exactly if one of its classes accepts no character but the slash |
| `AttributeAnchors.PortableIff` | crates/repodna-discovery/src/attributes.rs:86-95 | behind names that match themselves the pattern keeps its meaning exactly if, where the two readings of "anchored" agree, it names something or is not for directories, and where they disagree, the depth makes no difference to it |
| `AttributeAnchors.ToGlobKeepsMeaning` | crates/repodna-discovery/src/attributes.rs:86-95 | for every compilable pattern and every directory without a backslash or a name `**`: the translation compiles exactly if every name of the directory does as a pattern, and keeps the meaning of all paths inside exactly if, with names that match themselves, the pattern is so portable, and otherwise it matches nothing anyway |
| `AttributeAnchors.ToGlobStaysInside` | crates/repodna-discovery/src/attributes.rs:86-95 | the translation matches nothing outside the directory exactly if it matches nothing at all or no name of the directory, read as a pattern, matches another name; the directory itself it may match only for a pattern of nothing but `**` |
| `AttributeAnchors.PlainDirectoryIsSafe` | crates/repodna-discovery/src/attributes.rs:86-95 | in a directory without pattern characters portable patterns keep their meaning, and none reaches outside |
| `AttributeMeaning.NoBackslashAgrees` | crates/repodna-discovery/src/attributes.rs:87 | the readings agree on every pattern without a backslash |
| `AttributeAnchors.BackslashAtAnyDepth` | crates/repodna-discovery/src/attributes.rs:87-93 | where only the compiler reads the pattern as anchored, the moved glob matches a path inside the directory exactly if the names match themselves and the original matches what remains of the path below some directory |
| `AttributeAnchors.BackslashChangesMeaning` | crates/repodna-discovery/src/attributes.rs:87-93 | the pattern `a\b` is relative to its directory, but its translation matches at any depth |
| `AttributeAnchors.BracketsMatchElsewhere` | crates/repodna-discovery/src/attributes.rs:92-94 | a pattern moved from `[id]` matches no file there; one that names something, and on which the readings agree, matches in the directory `i` what it meant in its own |
| `AttributeAnchors.BracketsChangeMeaning` | crates/repodna-discovery/src/attributes.rs:92-94 | `x` moved from `[id]` matches `i/x` and not `[id]/x` |
| `AttributeAnchors.AnyOnlyChangesMeaning` | crates/repodna-discovery/src/attributes.rs:86-95 | `**/` does not match `x`, but moved from `d` it matches `d/x` |
| `Calendar.YearRecovered` | crates/repodna-core/src/time.rs:307-309 | the year of an era is recovered from any of its days, the last day of the era included |
| `Calendar.MonthRecovered` | crates/repodna-core/src/time.rs:296-297 | the month is recovered from any of its days |
| `Calendar.DateRoundTrip` | crates/repodna-core/src/time.rs:292-320 | `civil_from_days(days_from_civil(d)) = d` for every valid date |
| `Calendar.DaysRoundTrip` | crates/repodna-core/src/time.rs:292-320 | every day number names a valid date and `days_from_civil(civil_from_days(n)) = n` |
| `Calendar.NextDay` | crates/repodna-core/src/time.rs:275-300 | the next day of the calendar has the next number, across months, leap days, centuries and eras |
| `Calendar.CivilCounts` | crates/repodna-core/src/time.rs:303-320 | the date of day `n` is reached by counting from 1970-01-01, forwards and backwards |
| `Calendar.OrderAgrees` | crates/repodna-core/src/time.rs:292-300 | dates and day numbers are ordered alike |
| `Timestamps.CivilRoundTrip` | crates/repodna-core/src/time.rs:89-134 | the civil date-time of every timestamp is valid and gives the timestamp back |
| `Timestamps.FromCivilRoundTrip` | crates/repodna-core/src/time.rs:89-105 | a timestamp is made of exactly the valid date-times, and gives them back |
| `Timestamps.FirstOfMonth` | crates/repodna-core/src/time.rs:196-202 | adding months gives midnight on the first of the month that many months away |
| `Timestamps.PlusMonthsAdds` | crates/repodna-core/src/time.rs:196-202 | adding months twice is adding their sum |
| `Timestamps.MonthContains` | crates/repodna-core/src/time.rs:190-202 | a timestamp lies at or after the start of its month and before the start of the next |
| `Timestamps.SameBucket` | crates/repodna-core/src/time.rs:190-193 | two timestamps have the same start of month exactly if they lie in the same calendar month |
| `Timestamps.WeekdaysFollow` | crates/repodna-core/src/time.rs:162-167 | the epoch is a Thursday, the weekday depends on the date, and the next date has the next weekday |
| `Rfc3339.RoundTrip` | crates/repodna-core/src/time.rs:137-143 | parsing a printed timestamp gives it back exactly in the years 0 to 9999, and is refused for every other year |
| `Rfc3339.FieldsRoundTrip` | crates/repodna-core/src/time.rs:329-389 | every valid date-time of those years is read from its fields under any separator, any fraction and either case of the zone letter |
| `Rfc3339.ZoneShifts` | crates/repodna-core/src/time.rs:350-388 | whatever the first nineteen characters are, a fraction changes nothing and a zone shifts the result by minus its offset |
| `Rfc3339.OffsetLaw` | crates/repodna-core/src/time.rs:358-388 | a numeric offset, with or without a colon, is subtracted from what the same digits mean with `Z`; out of range it is refused |
| `Rfc3339.BareDate` | crates/repodna-core/src/time.rs:337-339 | a bare date is its midnight in UTC |
| `Rfc3339Texts.ReadIffSpelled` | crates/repodna-core/src/time.rs:329-389 | the exact set of accepted texts and their times: a real date of the years 0 to 9999, alone or followed by `T`, `t` or a space, a time of day, a fraction or none, and `Z`, `z` or an offset below 24 hours with or without a colon; read as that date and time less the offset, and every other text is refused |
| `Rfc3339Texts.ParsedIffSpelled` | crates/repodna-core/src/time.rs:206-212 | such a text may have whitespace around it, and nothing else |
| `PathText.RenderInjective` | crates/repodna-core/src/paths.rs:127-133 | different lists of components have different texts |
| `PathText.WithinIsPrefix` | crates/repodna-core/src/paths.rs:136-140 | containment of texts is the prefix relation on components |
| `PathText.AncestorsAreProperPrefixes` | crates/repodna-core/src/paths.rs:107-111 | the ancestors of a path are its proper prefixes, outermost first |
| `PathText.RelativeIsSuffix` | crates/repodna-architecture/src/modules.rs:115-121 | the relative text is that of the remaining components |
| `PathText.ChildIsAppended` | crates/repodna-architecture/src/modules.rs:123-129 | the child path is the directory with one more component |
| `PathText.SplitOnceIsHead` | crates/repodna-architecture/src/modules.rs:137-139 | splitting at the first slash gives the first component, and nothing exactly for a file directly in the directory |
| `ModuleInference.Collapse` | crates/repodna-architecture/src/modules.rs:132-151 | collapsing ends at the deepest directory that strictly contains all the files |
| `ModuleInference.GroupByChild` | crates/repodna-architecture/src/modules.rs:154-168 | each file goes to the direct files or to the one entry of its child; children are distinct |
| `ModuleConventions.HomeUnique` | crates/repodna-architecture/src/modules.rs:171-196 | the layout conventions settle one directory for every file |
| `ModuleConventions.HomeContains` | crates/repodna-architecture/src/modules.rs:171-196 | the file lies strictly inside that directory |
| `ModuleInference.Partition` | crates/repodna-architecture/src/modules.rs:171-196 | the drafts divide the files, each file in the draft of its conventional directory, and wherever one draft's directory contains a file of another, the other's is deeper; the `LayoutConventions` rows say which directory that is |
| `LayoutConventions.DirectHome` | crates/repodna-architecture/src/modules.rs:171-177 | a file directly in the common directory of its group belongs to that directory |
| `LayoutConventions.SourceHome` | crates/repodna-architecture/src/modules.rs:178-183 | below `app`, `lib`, `source`, `sources`, `Sources` or `src`, and below `main` or `test` in a directory named `src`, the files are grouped anew, up to the third time |
| `LayoutConventions.SourcesCollapse` | crates/repodna-architecture/src/modules.rs:180-183 | so their homes lie at or below the deepest directory that holds all of them |
| `LayoutConventions.GroupingHome` | crates/repodna-architecture/src/modules.rs:184-191 | below `apps`, `cmd`, `crates`, `internal`, `libs`, `modules`, `packages`, `pkg`, `plugins` or `services` every child is a module, and so are the files directly in it |
| `LayoutConventions.OtherHome` | crates/repodna-architecture/src/modules.rs:192-194 | any other child is one module, however deep its files lie |
| `LayoutConventions.SmallRepository` | crates/repodna-architecture/src/modules.rs:299-310 | in a repository of fewer than ten files the module of every file without a package is that home |
| `LayoutConventions.NamespaceModules` | crates/repodna-architecture/src/modules.rs:461-476 | inference on two source files in different directories below `src/main` and a test below `src/test` reports exactly the three directories with files |
| `ModuleInference.GroupingDrafts` | crates/repodna-architecture/src/modules.rs:184-191 | a grouping directory gives one draft per child and one for its own files |
| `ModuleDrafts.NewChildApart` | crates/repodna-architecture/src/modules.rs:178-195 | drafts under different children never contend for a file |
| `ModuleDrafts.ReplaceDraft` | crates/repodna-architecture/src/modules.rs:204-222 | replacing a draft by groups of its own files below its own directory keeps the division and the depth order |
| `ModuleInference.ReplaceDominant` | crates/repodna-architecture/src/modules.rs:205-221 | a draft is replaced exactly if it is dominant and has at least two parts; the package's own directory stays the package |
| `ModuleInference.SplitPass` | crates/repodna-architecture/src/modules.rs:201-226 | one pass replaces the drafts with at least ten files and half of all, the part at the directory of a package staying the package, and keeps the others in place; nothing changed means the drafts are as before |
| `ModuleInference.SplitDominant` | crates/repodna-architecture/src/modules.rs:199-229 | the result is that of two passes, with early exit when nothing changes, and still divides all the files |
| `PackageModules.PackageRoots` | crates/repodna-architecture/src/modules.rs:278-283 | each package directory but the root's is kept with the first package declared there |
| `PackageModules.Owner` | crates/repodna-architecture/src/modules.rs:288-291 | the owner of a file is the deepest package around it, the first declared there; none exactly if no package contains it |
| `PackageModules.DivideByPackage` | crates/repodna-architecture/src/modules.rs:285-296 | every file is in exactly one list: its owner's or that of the files without a package |
| `PackageModules.InitialDrafts` | crates/repodna-architecture/src/modules.rs:285-309 | the first drafts divide the files: a package's files stay at the package, the others go to their conventional directories |
| `PackageModules.PackagesHold` | crates/repodna-architecture/src/modules.rs:272-275 | splitting never takes a file out of the deepest package around it |
| `ModuleMap.MergeNothing` | crates/repodna-architecture/src/modules.rs:312-326 | merging changes nothing when the directories are distinct |
| `ModuleMap.Merge` | crates/repodna-architecture/src/modules.rs:312-326 | the loop is the fold that joins a draft to the last one of the same directory |
| `ModuleMap.AssignFiles` | crates/repodna-architecture/src/modules.rs:374-379 | every file is assigned the position of the draft that holds it |
| `ModuleMap.InferModules` | crates/repodna-architecture/src/modules.rs:276-389 | every file is in exactly one module, the only one with the longest directory around it; directories are distinct, no module is empty, modules are identified by their directory (the root by `(root)`) and ordered so, they show what the initial drafts become by splitting, with their names, and their evidence is true: a package points at the manifest of a package declared in its directory, any other module tells how many files it has |
| `ModuleMap.EvidenceHolds` | crates/repodna-architecture/src/modules.rs:328-363 | confidence and evidence of every module; the number in the note is the number of files assigned to the module |
| `ModuleMap.PackageBordersHold` | crates/repodna-architecture/src/modules.rs:272-275 | the module of a file lies inside the deepest package that contains the file |
| `ReportedNames.ReportedName` | crates/repodna-architecture/src/modules.rs:231-232 | in the module map returned, the name of every directory module is its shortest tail that no other directory module ends in and no package or root is named like, or its whole path |
| `ReportedNames.ReportedFixedName` | crates/repodna-architecture/src/modules.rs:239-242 | the root module is named `(root)`, and a package module like the package declared in its directory |
| `ReportedNames.ReportedNamesDifferIff` | crates/repodna-architecture/src/modules.rs:46-47 | all names in the module map differ exactly if those of packages and root do, and every directory whose whole path is one of these has a shorter tail of its own |
| `ModuleMap.IndexContaining` | crates/repodna-architecture/src/modules.rs:79-86 | the last of the modules with the longest directory that is the path or contains it, or none if there is none |
| `ModuleMap.ContainingIsAssigned` | crates/repodna-architecture/src/modules.rs:77-86 | the look-up finds the assigned module of a file exactly if no module's directory is the file itself |
| `ModuleMap.LookUpAgrees` | crates/repodna-architecture/src/modules.rs:77-86 | so it does for every file when no file is a directory of another |
| `ModuleMap.IndexOf` | crates/repodna-architecture/src/modules.rs:71-75 | binary search finds a module with the identifier exactly if there is one |
| `ModuleNames.GrowClashing` | crates/repodna-architecture/src/modules.rs:249-262 | one round gives one more component to exactly the directories that share their name with another module and have one left, in any order of the names |
| `ModuleNames.RoundShrinks` | crates/repodna-architecture/src/modules.rs:253-268 | a round that changes something uses up components, so the rounds end |
| `ModuleNames.AssignNames` | crates/repodna-architecture/src/modules.rs:233-270 | the names are those of the first rounds after which another changes nothing |
| `ModuleNames.ClashShowsPath` | crates/repodna-architecture/src/modules.rs:231-232 | a directory that still shares its name shows its full path |
| `ModuleNames.DirectoryNamesDiffer` | crates/repodna-architecture/src/modules.rs:231-232 | no two directory modules share a display name |
| `ModuleNames.NameIsShortestTail` | crates/repodna-architecture/src/modules.rs:231-232 | the name of a directory is its shortest tail of components that no other directory ends in and no package or root is named like, or its whole path if there is none |
| `ModuleNames.NamesDifferIff` | crates/repodna-architecture/src/modules.rs:46-47 | all names differ exactly if those of packages and root do, and every directory whose whole path is one of these has a shorter unambiguous tail |
| `ModuleNames.TopLevelShares` | crates/repodna-architecture/src/modules.rs:46-47 | a top-level directory always shares its name with a package or root named like it |
| `LicenseText.TokenizeJoin` | xtask/src/notices.rs:442-446 | tokens joined by spaces are read back as they were |
| `LicenseText.TokenizeYieldsTokens` | xtask/src/notices.rs:442-446 | every text splits into parentheses and words free of separators |
| `LicenseText.SpecialSeparates` | xtask/src/notices.rs:442-446 | a parenthesis or a slash is a token of its own wherever it stands, the slash as `OR`, and whitespace only separates |
| `LicenseParser.ParseOr` | xtask/src/notices.rs:460-471 | the loop returns what the grammar gives for a chain of `OR`, with the position after it |
| `LicenseParser.ParseAnd` | xtask/src/notices.rs:473-484 | the same for `AND` |
| `LicenseParser.ParsePrimary` | xtask/src/notices.rs:486-509 | parentheses, licenses, exceptions and each error as the grammar has them |
| `LicenseParser.ParseText` | xtask/src/notices.rs:441-454 | the whole text is read, or an error; `LicenseGrammar.ParsesIffDerived` says which texts are |
| `LicenseGrammar.ParsesIffDerived` | xtask/src/notices.rs:441-509 | a text parses to an expression exactly if the grammar derives the expression from its tokens: names with an exception or without, parentheses around any expression, lists joined by `AND` and lists of these joined by `OR`, in any letter case; every other text is refused |
| `LicenseGrammar.ErrorsExplained` | xtask/src/notices.rs:441-509 | every refusal names what is wrong: an exception is missing only after a last `WITH`, parentheses are unbalanced only if one is opened, and a text is unreadable only if an expression ends before the text does |
| `LicensePrinter.RoundTrip` | xtask/src/notices.rs:441-509 | parsing the printed form of any well-formed expression gives it back: `AND` binds tighter, nested operators are parenthesized, all tokens are used |
| `LicensePrinter.ParseWellFormed` | xtask/src/notices.rs:441-509 | whatever parses is well formed |
| `LicensePrinter.ParseImage` | xtask/src/notices.rs:441-509 | an expression is the parse of some text exactly if it is well formed |
| `LicensePrinter.SlashIsOr` | xtask/src/notices.rs:440-445 | a slash means `OR` |
| `LicenseChoice.ChoiceSatisfies` | xtask/src/notices.rs:518-529 | the choice names licenses of the expression and satisfies it |
| `LicenseChoice.ChoiceIsPreferred` | xtask/src/notices.rs:518-529 | no satisfying set has a better worst rank |
| `LicenseChoice.ParsedChoice` | xtask/src/notices.rs:441-529 | both hold for every text that parses |
| `LicenseChoice.FirstOfBest` | xtask/src/notices.rs:523-527 | of the choices of a disjunction the first of the best is taken: none is better, and it is better than every one before it |
| `LicenseChoice.RankIsPlace` | xtask/src/notices.rs:511-516 | a known license ranks at its first place in the order of preference, an unknown one behind all |
| `LicenseChoice.ChoiceIsSmallest` | xtask/src/notices.rs:518-529 | if no conjunction contains a disjunction, no satisfying set has a better worst rank, or as good a one and fewer licenses |
| `LicenseChoice.ChoiceNeedNotBeSmallest` | xtask/src/notices.rs:523-527 | with a disjunction inside a conjunction the choice need not be the smallest satisfying set |
| `Walk.StepKeeps` | crates/repodna-discovery/src/walk.rs:126-176 | every atomic step of every thread keeps the invariant: no entry is lost or visited twice, entries are handed out in order, the shared lists are those of the finished visits, tickets add up, the flag is set exactly after a refusal, and the threads get only so far ahead |
| `Walk.NeverTooMany` | crates/repodna-discovery/src/walk.rs:151-154 | in every interleaving of any number of threads at most `max_files` files are recorded |
| `Walk.NeverTooFar` | crates/repodna-discovery/src/walk.rs:151-154 | in every interleaving no entry is handed out after as many files as the limit and the number of threads together |
| `WalkRuns.TruncatedIff` | crates/repodna-discovery/src/walk.rs:72-73 | a completed run that was not cancelled is marked truncated exactly if the walk has more than `max_files` regular files |
| `WalkRuns.UncutCollectsAll` | crates/repodna-discovery/src/walk.rs:126-176 | an untruncated run collects every record, message and link once |
| `WalkRuns.NothingCut` | crates/repodna-discovery/src/walk.rs:265-267 | cutting the sorted list at the limit removes nothing |
| `WalkRuns.SameResult` | crates/repodna-discovery/src/walk.rs:178-182 | within the limit all completed runs have the same result, whatever the order of delivery, the number of threads and the schedule |
| `WalkSchedules.Collector.Visit` | crates/repodna-discovery/src/walk.rs:126-176 | one visit adds exactly what the entry amounts to, or stops the walk at cancellation or at the first file over the limit |
| `WalkSchedules.Discover` | crates/repodna-discovery/src/walk.rs:241-276 | the walk with one thread returns the finished result of the entries before the first file over the limit, or the cancellation |
| `WalkSchedules.SequentialResult` | crates/repodna-discovery/src/walk.rs:262-276 | that result lists the files recorded before the limit by ascending path, each once, and the messages in order |
| `WalkSchedules.ParallelIsSequential` | crates/repodna-discovery/src/walk.rs:241-276 | every untruncated completed run gives the sequential result |
| `WalkSchedules.EveryRunEnds` | crates/repodna-discovery/src/walk.rs:249-257 | no run has more than five moves for every entry and one for every thread besides cancellations, and until it has completed some thread can move |
| `WalkCancellation.CancelStops` | crates/repodna-discovery/src/walk.rs:126-131 | in every interleaving, once the walk is cancelled no thread starts on another entry: only the visits under way, at most one per thread, are finished |
| `WalkRaces.HoldReached` | crates/repodna-discovery/src/walk.rs:254-257 | threads can hold back any range of files, as long as one is left to visit the other entries |
| `WalkRaces.NoiseShows` | crates/repodna-discovery/src/walk.rs:126-154 | threads holding the files over the limit let another report a message or link that the sequential walk does not see |
| `WalkRaces.EarlyFileMissed` | crates/repodna-discovery/src/walk.rs:151-154 | a thread that waits before taking its ticket loses its early file to the others |
| `WalkRaces.LateFileRecorded` | crates/repodna-discovery/src/walk.rs:151-154 | a file after the limit is recorded when the threads before it wait |
| `WalkRaces.OneThreadIsSequential` | crates/repodna-discovery/src/walk.rs:248-257 | one thread is cut off where the sequential walk is |
| `WalkRaces.ScheduleFreeIff` | crates/repodna-discovery/src/walk.rs:178-182 | for each order in which entries are handed out, the whole result is independent of the schedule exactly if the walk stays within the limit, or has one thread, or has no message and link between the first file over the limit and the reach of the threads and no recorded file among those that can get a ticket; it is then the sequential result |
| `WalkOrders.OrderFreeIff` | crates/repodna-discovery/src/walk.rs:178-182 | over all orders and schedules together, it is one and the same exactly if the walk stays within the limit, or has no message and link and, unless the limit is zero, no recorded file |
| `Ranking.Overlap` | crates/repodna-ai/src/ranking.rs:109-132 | the loop with its early exit returns the share of the query's terms among the tokens |
| `Ranking.ShareBounds` | crates/repodna-ai/src/ranking.rs:109-132 | the share lies in [0, 1] |
| `Ranking.FeaturesShow` | crates/repodna-ai/src/ranking.rs:134-158 | each part of an item shows in features of its own, and exactly one feature tells the kind |
| `Ranking.FeaturesOfQuery` | crates/repodna-ai/src/ranking.rs:109-158 | an item whose reference or detail repeats the query has the full share in the feature for it |
| `Ranking.DistinctKeysMean` | crates/repodna-ai/src/ranking.rs:169-195 | keys are distinct exactly if no two samples share the query, the evidence and the normalized repository |
| `Ranking.ValidateEvidenceIds` | crates/repodna-ai/src/ranking.rs:177-195 | accepted exactly if every identifier is set, no excerpt occurs and the normalized keys are distinct; else the first offending sample names the error |
| `Ranking.LearnSample` | crates/repodna-ai/src/ranking.rs:309-316 | one sample moves every weight by the clamped update, all from the error before it |
| `Ranking.SampleMovesLogit` | crates/repodna-ai/src/ranking.rs:309-316 | while nothing is clamped, one sample moves its own logit by a twentieth of the error times the square of its features, less a small part of the logit |
| `Ranking.TowardsLabel` | crates/repodna-ai/src/ranking.rs:309-316 | so a sample scored on the wrong side of zero moves towards its label |
| `Ranking.Train` | crates/repodna-ai/src/ranking.rs:264-327 | accepts exactly the valid inputs, names the first failing check otherwise, and returns the weights of the epochs over the sorted samples with the fingerprint of the data, a valid model |
| `Ranking.TrainedIsValid` | crates/repodna-ai/src/ranking.rs:224-261 | whatever the samples, the sigmoid and the hash, the checks on a trained model never fail |
| `Ranking.Validate` | crates/repodna-ai/src/ranking.rs:224-261 | a model passes exactly if its format, number of weights, provenance, fingerprint and bounds are right |
| `Ranking.WeightsBounded` | crates/repodna-ai/src/ranking.rs:307-318 | every weight of every epoch lies in [-32, 32] |
| `Ranking.OrderDoesNotMatter` | crates/repodna-ai/src/ranking.rs:289-297 | reordering the samples changes neither whether they are accepted nor the model, its fingerprint included |
| `Ranking.RankIndices` | crates/repodna-ai/src/ranking.rs:349-362 | the result is a permutation of the indices with scores descending and ties in order |
| `Ranking.RankingUnique` | crates/repodna-ai/src/ranking.rs:344-348 | there is only one such permutation |
| `CellWrapping.PlaceWord` | crates/repodna-cli/src/render.rs:42-71 | placing one word keeps the characters in order, never widens a line over the limit, and leaves a word that fits whole; every piece broken off ends in a slash, or fills the line for want of a slash to break after |
| `CellWrapping.CutIsGood` | crates/repodna-cli/src/render.rs:59-65 | a word is broken after the last slash that fits |
| `CellWrapping.WrapCell` | crates/repodna-cli/src/render.rs:38-77 | wrapping ends; the lines hold the non-space characters of the text in order, none is wider than the column for escape-free text, fitting words stay whole and no line ends early, and a blank text is one empty line |
| `ColumnWidths.SharesSum` | crates/repodna-cli/src/render.rs:112-116 | rounding every share down never gives away more than there is |
| `ColumnWidths.AllocationFits` | crates/repodna-cli/src/render.rs:84-117 | every column lies between its floor and its natural width; the table has its natural widths if they fit and the floors if nothing else does; in between it fits and leaves less than one space per column |
| `Text.LeTextMeans` | crates/repodna-architecture/src/resolve.rs:625-627 | the order of paths is the lexicographic one: a prefix comes first, and else the smaller character where two paths first differ |
| `ResolverIndex.SortPaths` | crates/repodna-architecture/src/resolve.rs:625-627 | the indices of all files in the order of their paths |
| `ResolverIndex.PartitionPoint` | crates/repodna-architecture/src/resolve.rs:809-811 | the search returns the first position whose path does not come before the prefix |
| `ResolverIndex.FilesWithin` | crates/repodna-architecture/src/resolve.rs:803-816 | the search and the scan return exactly the files with the prefix, in path order |
| `ResolverIndex.WithinExactly` | crates/repodna-architecture/src/resolve.rs:802-816 | those are the files strictly inside the directory, or all files for the empty one |
| `ResolverIndex.IndexNames` | crates/repodna-architecture/src/resolve.rs:667-673 | the index lists the files of every name in path order |
| `ResolverIndex.NameIsLast` | crates/repodna-core/src/paths.rs:77-80 | the name of a path is its last component |
| `ResolverIndex.DotSlashTrimmed` | crates/repodna-architecture/src/resolve.rs:820 | every leading `./` of the reference is taken away, and nothing else |
| `ResolverIndex.EndsIsSuffix` | crates/repodna-architecture/src/resolve.rs:818-830 | for paths, ending at a directory boundary is ending in the components of the suffix |
| `ResolverIndex.SuffixMatch` | crates/repodna-architecture/src/resolve.rs:818-838 | looking only at files of the same name finds what a scan of all files would: the shortest match, the first of these in path order, and whether it is the only one |

## Left out

- Betweenness.Betweenness: uses exact reals, so the rounding of `f64` sums and quotients is not modelled.
- Layers.Layers: layers are unbounded numbers, not `u32`.
- Tarjan.StronglyConnectedComponents: the unvisited mark `usize::MAX` is modelled as -1.
- Timestamps.CivilRoundTrip: integers are unbounded, so overflow at extreme `i64` years and saturation are not modelled.
- Rfc3339.RoundTrip: the cause of a refused text is not carried, only the refusal.
- AttributeAnchors.ToGlobKeepsMeaning: not for directories with a backslash in their path or a directory named `**`, which the compiler splits or reads as any directories; likewise `AttributeAnchors.ToGlobStaysInside`.
- LicenseChoice.ChoiceIsSmallest: for expressions without a disjunction inside a conjunction; the source promises no smallest choice, and `ChoiceNeedNotBeSmallest` shows why the guard is there.
- ModuleMap.InferModules: the children of a directory come in order of first appearance instead of name order, which the later sorting makes immaterial.
- ModuleMap.IndexContaining: lengths are in characters; the directories compared are all prefixes of one path, where characters and bytes order alike.
- Ranking.Train: exact reals, with tokenizing, case folding, the sigmoid, the serialized row of a sample and the hash of the rows as parameters; serializing never fails.
- CellWrapping.WrapCell: the bound on widths is for text without escape sequences.
- WalkSchedules.Discover: the entries of the walk are given in some order; walking directories, ignore rules, classification and lock poisoning are not part of this model.
- WalkRaces.ScheduleFreeIff: for walks in which no two files have the same path, as in a file system; likewise `WalkRuns.SameResult` and `WalkOrders.OrderFreeIff`.
- Walk.NeverTooMany: a record is a path and a size; the other fields of a discovered file depend on these.
- EdgeBuilder.Builder.AddEdge: samples are pairs of files with a line instead of formatted evidence.
- LicenseParser.ParseOr: the position is returned instead of updated through a reference.
- Parsing of `.gitattributes` lines into the four lists: settled by reading its branches.
- Cycles between files: the same kernel on another set of edges.
- Hash maps and B-tree maps are maps or association lists, and sorting functions of the standard library are one stable sort.
- `normalize_relative`, glob sets and the display of patterns.
- The per-language rules of the import resolver.
- Findings, severities and style labels of the architecture report, and everything that reads files, runs programs or renders pages.

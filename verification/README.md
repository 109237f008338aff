# Verification of the YAML library, the agent's task protocol, its template compiler and its NTP timestamps

This project models the parts of the repository with the most state and branching and proves what they promise.
`dafny verify dfyconfig.toml` checks all of it.

| files | what they model |
|---|---|
| `YamlGraph`, `Anchors`, `Presenter`, `Composer`, `ComposedGraphs`, `RoundTrip` | writing a node graph with anchors and aliases, and composing it again from the events |
| `NodeEquality`, `NodeWalks`, `NodeHash`, `MappingEquality`, `MappingPairing`, `HashCollisions`, `NodeCopies` | equality of nodes by pairing them in order of appearance, and their hash codes |
| `RehashableDictionary` | the dictionary that follows its keys when their content changes |
| `AnchorTable`, `ParserEngine`, `ParserRules` | the backtracking parser engine and its undo log of anchors |
| `CodeUnits`, `DoubleQuote`, `DoubleQuotedRules`, `DoubleQuotedParser`, `QuotedText`, `QuoteRoundTrip`, `FoldedText` | double-quoted scalars: escaping and folding against parsing, and text on several lines from any source |
| `UriEncoding`, `UriReader` | URI escapes and the two decoders |
| `Positions` | line and column as the presenter counts them and as the parser looks them up |
| `MergeKeys` | merge keys of mappings |
| `NestedArrays`, `ArrayReading`, `ArrayRoundTrip` | arrays of any rank as nested sequences |
| `Handler`, `HandlerSafety` | long-running tasks of the agent: worker threads, the lock, and readers of task states |
| `Erb`, `ErbMeaning` | the ERB scanner and compiler |
| `NtpClient` | NTP timestamps and the clock offset |

Methods carry out the steps of the code on fields that they change; each is proved against a function or a relation,
and the lemmas are about those. The walk of the presenter and the comparison of nodes are given as sequences of states,
so that a method says how far it has come in them.

## Where the code does not do what one expects

Each of these is proved as it is in the code, with the exact condition or a concrete case.

- A shared scalar that is first met as a mapping key loses its anchor in the attempt at an implicit key, which cannot
  succeed because an anchored key is followed by a new line. The document is then rejected when it is read
  (`RoundTrip.RoundTrip`, `RoundTrip.SharedKeyExample`).
- The comparison of nodes can throw instead of answering no: exactly when the walks through the two graphs agree up to a
  step at which both meet a node again, but not at the same place (`NodeWalks.ThrowsIffWalksClash`; an example is
  `NodeEquality.CrossedPairThrows`).
- After a key that is not equal, the comparison of mappings rewinds to the status before all entries and forgets what
  earlier entries have paired. Where no two keys of one mapping have the same hash code, equality is exactly the
  existence of a pairing (`MappingPairing.EqualIffGraphsPaired`). Where two have, as the integer 1 and the boolean true
  have in .NET, different sharing is overlooked (`HashCollisions.StaleRewindExample`), and comparing a document with
  itself, read again, can throw (`HashCollisions.SharedKeysExample`).
- The comment on the hash code of a collection says that it is computed from all child nodes, by recursion on them. The
  code recurses on the collection itself, so that nested collections add nothing of their content
  (`NodeHash.GetHashCodeCoreSub`, `NodeHash.HashIsShallow`).
- Overwriting an entry through the indexer takes the old key out of the table of hashes and does not put the new one in
  (`RehashableDictionary.RehashableDictionary.Set`).
- After a fold a leading space is escaped, but not a leading tab, and the parser drops the white space there
  (`QuoteRoundTrip.RoundTrip`).
- When a task ends with an agent exception, converting its missing result to a string throws, and its id stays in the
  running list (`HandlerSafety.AgentExceptionBlocks`).
- A zero dimension hides the dimensions after it (`ArrayRoundTrip.RoundTrip`).
- The code of an unclosed template tag is printed as text (`ErbMeaning.CompiledMeans`).
- Escaping leaves a backslash as it is, and the parser stops there (`UriReader.ParserUndoesEscape`).
- A timestamp loses a millisecond when it is written and read, unless it is a multiple of an eighth of a second
  (`NtpClient.TripLosesOne`).
- A rule that empties the text buffer and then fails leaves NUL characters in it (`ParserRules.BufferRestoredIff`,
  `ParserRules.BufferLost`). The rules of the grammar that make scalars assert that the buffer is empty before them
  (`YamlParser.cs:1075`, `1103`, `1187`, `1290`, `1695`, `1735`); where that holds they leave no trace
  (`ParserRules.FailureLeavesNoTrace`).
- Without normalized line breaks, a line break whose two characters are written by two calls is counted twice, and
  nothing corrects that (`Positions.RightIffNoneSplit`, `Positions.SplitExample`).

## Model

| member | source | states |
|---|---|---|
| `YamlGraph.RunOf` | src/YamlSerializer/YamlPresenter.cs:65-99 | the depth-first walk that both presenter passes follow ends on every finite graph, cyclic or not, and is a proper run of its steps |
| `YamlGraph.ReachedIsLeastClosed` | src/YamlSerializer/YamlPresenter.cs:65-99 | the walk meets exactly the nodes reachable from the root (the least set that holds the root and is closed under children), each listed once |
| `YamlGraph.MetBefore` | src/YamlSerializer/YamlPresenter.cs:72-84 | a node met again was met for the first time at an earlier step |
| `Anchors.NextAnchorAddsOne` | src/YamlSerializer/YamlPresenter.cs:101-111 | the next anchor name is one more in bijective base 26 |
| `Anchors.OrdinalInjective` | src/YamlSerializer/YamlPresenter.cs:101-111 | no two anchor names stand for the same number, so counting up never repeats a name |
| `Anchors.MarkUpToMarks` | src/YamlSerializer/YamlPresenter.cs:72-84 | after any part of the marking walk a node has an anchor if and only if it has been met at least twice by then |
| `Anchors.MarkUpToNumbers` | src/YamlSerializer/YamlPresenter.cs:69-84 | the anchors given are pairwise different |
| `Presenter.Presenter.Analyze` | src/YamlSerializer/YamlPresenter.cs:72-97 | the marking pass over one node keeps the property dictionary in step with the walk: anchors and marks are those of the nodes met again so far |
| `Presenter.Presenter.MarkMultiTimeAppearingChildNodesToBeAnchored` | src/YamlSerializer/YamlPresenter.cs:65-99 | after the marking pass exactly the nodes of the document that are met again are named and marked, whatever marks were left from before |
| `Presenter.Presenter.WriteProperties` | src/YamlSerializer/YamlPresenter.cs:164-182 | a marked node gets its anchor and loses the mark, an unmarked one with an anchor is written as an alias, any other gets nothing |
| `Presenter.Presenter.WriteImplicitKeyIfPossible` | src/YamlSerializer/YamlPresenter.cs:458-480 | a failed attempt at an implicit key is undone in the output but not in the properties: a marked key loses its mark |
| `Presenter.Presenter.NodeToYaml` | src/YamlSerializer/YamlPresenter.cs:164-192 | writing a node emits the events of exactly the steps of the walk below it and leaves the right marks behind |
| `Presenter.Presenter.SequenceToYaml` | src/YamlSerializer/YamlPresenter.cs:372-422 | the same for the items of a sequence, in order |
| `Presenter.Presenter.MappingToYaml` | src/YamlSerializer/YamlPresenter.cs:424-456 | the same for the entries of a mapping, key before value |
| `Presenter.Presenter.ToYaml` | src/YamlSerializer/YamlPresenter.cs:50-63 | the two passes together emit the event stream of the document, one event for each step of the walk |
| `Composer.Composer.RegisterAnchorFor` | src/YamlSerializer/YamlParser.cs:250-258 | a pending anchor is registered for the new node, overriding an older one |
| `Composer.Composer.ParseNode` | src/YamlSerializer/YamlParser.cs:280-316 | the parser creates and registers nodes as the composing function says, registering a collection before its content |
| `Composer.Composer.ParseItems` | src/YamlSerializer/YamlParser.cs:293-316 | the same for the rest of a collection, or the same error |
| `Composer.LaterAnchorWins` | src/YamlSerializer/YamlParser.cs:250-258 | where an anchor is defined twice, an alias stands for the node of the later definition |
| `Composer.OwnAnchorWins` | src/YamlSerializer/YamlParser.cs:293-303 | an alias in a collection with its anchor stands for the collection itself, whatever had the anchor before |
| `ComposedGraphs.ComposedIsWellFormed` | src/YamlSerializer/YamlParser.cs:280-316 | whatever the events are, what is composed is a well-formed graph: scalars have no children, keys and values take turns, and no key is without its value |
| `ComposedGraphs.NothingAfterDocument` | src/YamlSerializer/YamlParser.cs:2070-2087 | a document with more events after it is not one document |
| `RoundTrip.RoundTrip` | src/YamlSerializer/YamlPresenter.cs:50-192 | composing the events of a document fails if and only if a shared scalar is met first as a mapping key; otherwise it gives a graph isomorphic to the original, root to root, with all sharing and cycles |
| `RoundTrip.DocumentRoundTrip` | src/YamlSerializer/YamlParser.cs:250-316 | the composed nodes are exactly the copy of the reached nodes, in the order in which they are met |
| `RoundTrip.CopyIsIsomorphic` | src/YamlSerializer/YamlPresenter.cs:164-192 | that copy is isomorphic to the part of the graph that is reached |
| `RoundTrip.NodeRoundTrip` | src/YamlSerializer/YamlParser.cs:250-316 | composing the events of one node gives the copy of all nodes first met below it, or is rejected if an anchor is lost there |
| `RoundTrip.LostAnchorIsRejected` | src/YamlSerializer/YamlPresenter.cs:458-480 | the alias of a node whose anchor was lost in a failed attempt cannot be resolved |
| `RoundTrip.ContentOnce` | src/YamlSerializer/YamlPresenter.cs:164-192 | in a stream that keeps its anchors the content of every reached node is written exactly once, with an anchor if and only if the walk meets the node again |
| `RoundTrip.WrittenOnce` | src/YamlSerializer/YamlPresenter.cs:164-192 | no two events of any stream write the content of the same node |
| `RoundTrip.AliasFollowsAnchor` | src/YamlSerializer/YamlPresenter.cs:173-179 | in such a stream every alias follows the one event that defines its anchor |
| `RoundTrip.SameKeyAndValueFails` | src/YamlSerializer/YamlPresenter.cs:458-480 | a mapping whose first entry has the same scalar as key and as value cannot be composed again |
| `RoundTrip.SharedKeyExample` | src/YamlSerializer/YamlPresenter.cs:166-171 | a concrete two-node document for which presenting and parsing fails |
| `NodeEquality.ObjectRepository.AlreadyAppeared` | src/YamlSerializer/YamlNode.cs:929-951 | tells exactly whether two nodes are paired with each other, both or one of them with others, or new, and records a new pair |
| `NodeEquality.ObjectRepository.Rewind` | src/YamlSerializer/YamlNode.cs:953-966 | forgets exactly the pairs after the given count |
| `NodeEquality.RunOf` | src/YamlSerializer/YamlNode.cs:976-1000 | the comparison of two nodes ends on every graph of scalars and sequences, cyclic or not |
| `NodeEquality.EqualsIn` | src/YamlSerializer/YamlNode.cs:2009-2033 | comparing two nodes performs exactly the steps of that comparison, with the verdict same, different or thrown |
| `NodeEquality.ItemsEqual` | src/YamlSerializer/YamlNode.cs:2027-2032 | the items of two sequences are compared in order |
| `NodeEquality.Equals` | src/YamlSerializer/YamlNode.cs:894-900 | the verdict on two nodes is that of the comparison started with an empty repository |
| `NodeEquality.EqualIffPaired` | src/YamlSerializer/YamlNode.cs:2009-2033 | two nodes of graphs of scalars and sequences are equal if and only if some one-to-one pairing relates them in which paired nodes are identical or alike with their items paired in order |
| `NodeEquality.EqualIffIsomorphic` | src/YamlSerializer/YamlNode.cs:876-886 | for nodes of disjoint graphs of scalars and sequences equality is exactly the existence of an isomorphism that respects tags and scalar values |
| `NodeEquality.EqualIsReflexive` | src/YamlSerializer/YamlNode.cs:894-900 | every node of a graph of scalars and sequences is equal to itself |
| `NodeEquality.EqualIsSymmetric` | src/YamlSerializer/YamlNode.cs:894-900 | on graphs of scalars and sequences equality does not depend on which node is asked, when native objects depend on tag and value alone |
| `NodeEquality.EqualIsTransitive` | src/YamlSerializer/YamlNode.cs:894-900 | equality of nodes of three disjoint graphs of scalars and sequences is transitive |
| `NodeCopies.CopyIsEqual` | src/YamlSerializer/YamlNode.cs:862-868 | a document of scalars and sequences, with any sharing and cycles, is equal to its copy |
| `NodeCopies.EqualScalars` | src/YamlSerializer/YamlNode.cs:1478-1500 | a scalar is equal to itself, and to exactly the scalars of the same tag with its native object or, for strings, its text |
| `NodeCopies.EqualIffCorrespond` | src/YamlSerializer/YamlNode.cs:862-868 | two nodes are equal if and only if a one-to-one relation of nodes with the same tag and content, items in order, relates them |
| `NodeEquality.CrossedPairThrows` | src/YamlSerializer/YamlNode.cs:929-945 | an example: `[x, y, x]` against `[p, q, q]`, whose items are alike, throws instead of answering no |
| `NodeWalks.RunIsWalked` | src/YamlSerializer/YamlNode.cs:929-951 | comparing two disjoint graphs is walking through each on its own, side by side, as long as the walks agree |
| `NodeWalks.VerdictIsWalked` | src/YamlSerializer/YamlNode.cs:929-951 | the verdict is that of the first step at which the walks do not agree |
| `NodeWalks.ThrowsIffWalksClash` | src/YamlSerializer/YamlNode.cs:929-945 | the comparison throws if and only if the two walks agree up to a step at which both meet an old node, but not at the same place |
| `NodeWalks.EqualIffWalksAgree` | src/YamlSerializer/YamlNode.cs:2009-2033 | nodes are equal if and only if the walks agree until both are done |
| `NodeWalks.UnsharedNeverThrows` | src/YamlSerializer/YamlNode.cs:929-945 | the comparison never throws where one of the graphs shares no node |
| `NodeHash.GetHashCodeCore` | src/YamlSerializer/YamlNode.cs:1506-1521 | the hash of a node is that of a scalar, or of a tag with what each child adds |
| `NodeHash.GetHashCodeCoreSub` | src/YamlSerializer/YamlNode.cs:1618-1644 | for a child that is a collection the call is made on the collection itself, finds it in the dictionary and adds a number that depends on index or key alone |
| `NodeHash.AddItem` | src/YamlSerializer/YamlNode.cs:1998-2005 | what one item adds to the hash of a sequence |
| `NodeHash.AddEntry` | src/YamlSerializer/YamlNode.cs:1629-1642 | what one entry adds to the hash of a mapping |
| `NodeHash.EqualNodesHashAlike` | src/YamlSerializer/YamlNode.cs:1987-2007 | equal nodes of graphs of scalars and sequences have equal hash codes, on cyclic graphs too |
| `NodeHash.HashIsShallow` | src/YamlSerializer/YamlNode.cs:2000-2002 | the hash of a sequence does not depend on what is inside items that are collections |
| `NodeHash.StringsHashApart` | src/YamlSerializer/YamlNode.cs:1506-1521 | two strings have the same hash code exactly when their texts have: nothing is lost in multiplying and mixing with the tag |
| `MappingEquality.Compare` | src/YamlSerializer/YamlNode.cs:1646-1682 | comparing nodes with mappings ends on every finite graph, cyclic or not, and keeps all pairs that were in the repository |
| `MappingEquality.EqualsIn` | src/YamlSerializer/YamlNode.cs:1646-1682 | the comparison with its repository does what the comparison function says, pairs included |
| `MappingEquality.EntriesEqual` | src/YamlSerializer/YamlNode.cs:1665-1681 | entries are compared in turn, and the status to rewind to is the one before all of them |
| `MappingEquality.Candidate` | src/YamlSerializer/YamlNode.cs:1667-1678 | candidates are the entries with the same key hash, in order |
| `MappingEquality.TryKey` | src/YamlSerializer/YamlNode.cs:1669-1675 | a candidate that is not equal makes the repository forget all pairs made since the mapping was entered |
| `MappingEquality.CompareIsVerdict` | src/YamlSerializer/YamlNode.cs:2009-2033 | on graphs without mappings this is the comparison of node graphs |
| `MappingEquality.SameIsAlike` | src/YamlSerializer/YamlNode.cs:1646-1682 | nodes found equal are alike, on cyclic graphs too, and so is every pair recorded on the way, in spite of rewinding |
| `MappingEquality.SameEntriesAlike` | src/YamlSerializer/YamlNode.cs:1665-1681 | when entries are found equal, each has an entry on the other side with the same key hash whose key and value are alike |
| `MappingEquality.SumRearranged` | src/YamlSerializer/YamlNode.cs:1628-1643 | the sum of what the entries add does not depend on the order of enumeration |
| `MappingEquality.EqualNodesHashAlike` | src/YamlSerializer/YamlNode.cs:1618-1644 | equal nodes with scalar mapping keys, on cyclic graphs too, have equal hash codes, in whatever order their mappings are enumerated |
| `MappingPairing.SameIsPaired` | src/YamlSerializer/YamlNode.cs:1646-1682 | when no two keys of one mapping have the same hash code, every pair made while two nodes are found equal fits: items in order, every entry with a partner |
| `MappingPairing.PairedIsRight` | src/YamlSerializer/YamlNode.cs:1646-1682 | nodes that can be paired are never found different, and are found equal when no two keys of one mapping have the same hash code |
| `MappingPairing.EqualIffGraphsPaired` | src/YamlSerializer/YamlNode.cs:1646-1682 | when no two keys of one mapping have the same hash code, nodes are equal if and only if a one-to-one pairing relates them that pairs items in order and matches every entry with one whose key and value are paired |
| `MappingPairing.EqualIffGraphsIsomorphic` | src/YamlSerializer/YamlNode.cs:862-868 | for nodes of disjoint graphs that is an isomorphism of graphs with scalars, sequences and mappings, cyclic or not |
| `MappingPairing.EqualGraphsSymmetric` | src/YamlSerializer/YamlNode.cs:1646-1682 | equality of nodes with mappings does not depend on which node is asked: no entry of the other mapping is left over |
| `MappingPairing.EqualGraphsTransitive` | src/YamlSerializer/YamlNode.cs:1646-1682 | equality of nodes with mappings of three disjoint graphs is transitive |
| `NodeCopies.CopyWithMappingsIsEqual` | src/YamlSerializer/YamlNode.cs:1646-1682 | a document with mappings is equal to its copy, whatever the order of its entries, when no two keys of one mapping have the same hash code |
| `NodeCopies.EqualGraphsCorrespond` | src/YamlSerializer/YamlNode.cs:1646-1682 | then two nodes are equal if and only if a one-to-one relation of nodes with the same tag and content, entries in any order, relates them |
| `MappingPairing.PairedNodesHashAlike` | src/YamlSerializer/YamlNode.cs:1618-1644 | nodes that can be paired have equal hash codes, whatever their keys are |
| `MappingPairing.PairedNeverDifferent` | src/YamlSerializer/YamlNode.cs:1665-1681 | whatever the hash codes, nodes with scalar keys that can be paired are never found different; their comparison may throw |
| `HashCollisions.StaleRewindOverlooksSharing` | src/YamlSerializer/YamlNode.cs:1665-1676 | two mappings that differ in the sharing of their values are found equal exactly when their two keys have the same hash code |
| `HashCollisions.StaleRewindExample` | src/YamlSerializer/YamlNode.cs:1665-1676 | `{1: &A [], true: *A}` and `{1: [], true: []}` are found equal where the two keys have the same hash code, and cannot be paired |
| `HashCollisions.SharedKeysThrow` | src/YamlSerializer/YamlNode.cs:929-945 | two mappings with two keys that are also the values, crosswise, can be paired, but comparing them throws exactly when the keys have the same hash code |
| `HashCollisions.SharedKeysExample` | src/YamlSerializer/YamlNode.cs:929-945 | `{&A 1: &B true, *B: *A}` compared with itself, read a second time, throws where the two keys have the same hash code |
| `RehashableDictionary.RehashableDictionary.FindItem` | src/YamlSerializer/RehashableDictionary.cs:325-357 | a search finds an entry of the bucket with an equal key (and the wanted value), or tells that there is none |
| `RehashableDictionary.RehashableDictionary.SearchIsRight` | src/YamlSerializer/RehashableDictionary.cs:325-357 | what is found is the one stored entry with an equal key; if nothing is found, none is stored |
| `RehashableDictionary.RehashableDictionary.TryGetValue` | src/YamlSerializer/RehashableDictionary.cs:218-229 | looks up the value of the stored key that is equal |
| `RehashableDictionary.RehashableDictionary.Count` | src/YamlSerializer/RehashableDictionary.cs:584-587 | counts the stored entries |
| `RehashableDictionary.RehashableDictionary.Add` | src/YamlSerializer/RehashableDictionary.cs:374-377 | adds an entry, or reports an error and changes nothing if an equal key is stored |
| `RehashableDictionary.RehashableDictionary.AddCore` | src/YamlSerializer/RehashableDictionary.cs:156-183 | the code shared by adding and setting: a new entry, an error, or an overwritten entry |
| `RehashableDictionary.RehashableDictionary.ReplaceKeyValue` | src/YamlSerializer/RehashableDictionary.cs:185-194 | an overwritten entry stays in its bucket under a key that the table of hashes does not have any more |
| `RehashableDictionary.RehashableDictionary.Set` | src/YamlSerializer/RehashableDictionary.cs:536-550 | setting a key that is not stored adds it; afterwards the tables stand for no association list if and only if the key was stored |
| `RehashableDictionary.RehashableDictionary.NoModelFits` | src/YamlSerializer/RehashableDictionary.cs:185-194 | the tables left by overwriting agree with no association list |
| `RehashableDictionary.RehashableDictionary.Remove` | src/YamlSerializer/RehashableDictionary.cs:493-496 | removes exactly the entry with an equal key, if there is one |
| `RehashableDictionary.RehashableDictionary.RemoveCore` | src/YamlSerializer/RehashableDictionary.cs:196-216 | the same, with the value compared if wanted |
| `RehashableDictionary.RehashableDictionary.Clear` | src/YamlSerializer/RehashableDictionary.cs:560-568 | leaves no entry |
| `RehashableDictionary.RehashableDictionary.Rehash` | src/YamlSerializer/RehashableDictionary.cs:62-114 | after the content of a stored key has changed its entry is moved to the bucket of the new hash, and the association list is the same |
| `RehashableDictionary.RehashableDictionary.Enumerate` | src/YamlSerializer/RehashableDictionary.cs:359-370 | lists every entry once, ordered by hash |
| `RehashableDictionary.PutKeepsTables` | src/YamlSerializer/RehashableDictionary.cs:156-183 | putting an entry into a bucket, which becomes a list when it was one entry, keeps the two tables in step |
| `RehashableDictionary.TakeKeepsTables` | src/YamlSerializer/RehashableDictionary.cs:196-216 | taking an entry out, which turns a list of two into one entry, keeps the two tables in step |
| `RehashableDictionary.EnumeratesMore` | src/YamlSerializer/RehashableDictionary.cs:359-370 | adding the next bucket keeps the enumeration ordered, complete and without repetition |
| `RehashableDictionary.Use` | src/YamlSerializer/RehashableDictionary.cs:62-229 | every use of the dictionary, and every change of a key that it is told of, does and answers what a plain association list does |
| `RehashableDictionary.Run` | src/YamlSerializer/RehashableDictionary.cs:62-229 | over any run of adding, setting absent keys, removing, looking up, counting, enumerating, clearing and changing keys the dictionary answers as a plain association list |
| `AnchorTable.RegisterUndone` | src/YamlSerializer/YamlAnchorDictionary.cs:43-70 | undoing a registration gives back the table before it, whether or not it overrode an older one |
| `AnchorTable.RewoundTwice` | src/YamlSerializer/YamlAnchorDictionary.cs:54-70 | rewinding in two steps is rewinding at once |
| `AnchorTable.RegisterAllUndone` | src/YamlSerializer/YamlAnchorDictionary.cs:43-70 | rewinding undoes any number of registrations |
| `AnchorTable.AnchorDictionary.Add` | src/YamlSerializer/YamlAnchorDictionary.cs:43-53 | registers a node under a name and records what to put back |
| `AnchorTable.AnchorDictionary.SetRewindDepth` | src/YamlSerializer/YamlAnchorDictionary.cs:54-70 | puts back registration after registration down to the depth; a greater depth is out of range |
| `ParserEngine.Parser.Exec` | src/YamlSerializer/Parser.cs:281-498 | a rule does to position, text buffer, state and anchor table what its evaluation says |
| `ParserEngine.Parser.ExecRewindUnless` | src/YamlSerializer/Parser.cs:281-293 | a failed rule is rewound: state, length of the buffer, position, then the anchor table |
| `ParserEngine.Parser.ExecRepeat` | src/YamlSerializer/Parser.cs:330-340 | repeats a rule until it fails or reduces nothing; it always ends |
| `ParserRules.EvalStaysInStep` | src/YamlSerializer/YamlParser.cs:196-199 | for any nesting of rules the depth in the state is the depth of the anchor table, the table can be rewound to what it was, and no rewinding is out of range |
| `ParserRules.FailureRestores` | src/YamlSerializer/Parser.cs:281-293 | a failed wrapped rule restores position, state and the whole anchor table |
| `ParserRules.FailureLeavesNoTrace` | src/YamlSerializer/Parser.cs:281-293 | it restores the text buffer too if that was empty or the rule only appends |
| `ParserRules.BufferRestoredIff` | src/YamlSerializer/Parser.cs:281-293 | text without NUL characters is back in the buffer after a failed rule if and only if the rule has left it at the start of the buffer |
| `ParserRules.BufferLost` | src/YamlSerializer/Parser.cs:288-290 | an example: a rule that makes a scalar of the buffer and then fails leaves it filled with NUL characters |
| `ParserRules.TextIsCollected` | src/YamlSerializer/Parser.cs:281-344 | a rule that only appends gains in the buffer just the text from the old position to the new one, however much was rewound in between |
| `ParserRules.AliasFindsAnchored` | src/YamlSerializer/YamlParser.cs:250-258 | an alias stands for the newest node with its anchor, and rewinding takes the anchor back |
| `ParserRules.StarIsGreedy` | src/YamlSerializer/Parser.cs:330-340 | where a star ends its rule does not match or matches no text |
| `ParserRules.TotalNeverFails` | src/YamlSerializer/Parser.cs:494-498 | rules made of stars and options never fail |
| `ParserRules.EvalIsPeg` | src/YamlSerializer/Parser.cs:281-344 | the engine matches what the parsing expression says, up to the same position; a wrapped rule that fails leaves the position alone |
| `ParserRules.ErrorIffFaults` | src/YamlSerializer/Parser.cs:281-344 | the parse ends with an error if and only if an action goes wrong on the way: a value set where there is one, or an alias whose anchor is not registered |
| `ParserRules.OutcomeIsPeg` | src/YamlSerializer/Parser.cs:281-344 | unless an action goes wrong the engine matches exactly what the parsing expression matches, up to the same position, and there is no other outcome |
| `ParserRules.MatchesIffPegMatches` | src/YamlSerializer/Parser.cs:372-408 | rules that set no value match exactly what the parsing expression matches, and never end with an error |
| `ParserRules.RepeatIsStar` | src/YamlSerializer/Parser.cs:330-340 | the loop ends where the star of the parsing expression does |
| `DoubleQuote.Writer.NsEscapedChar` | src/YamlSerializer/YamlPresenter.cs:319-334 | an unsafe character is written as its short, two-digit or four-digit escape |
| `DoubleQuote.Writer.BBreak` | src/YamlSerializer/YamlPresenter.cs:336-363 | a line break is escaped, and unless the string ends or must stay on one line, an escaped line break, the prefix and the mark for a leading space follow |
| `DoubleQuote.Writer.CDoubleQuoteChar` | src/YamlSerializer/YamlPresenter.cs:308-316 | one character or line break is written |
| `DoubleQuote.Writer.Quote` | src/YamlSerializer/YamlPresenter.cs:297-306 | the whole string is written between quotation marks |
| `DoubleQuote.PrintableIsKept` | src/YamlSerializer/YamlPresenter.cs:308-316 | printable text is written as it is, but for quotation marks and backslashes |
| `DoubleQuote.QuotedIsPrintable` | src/YamlSerializer/YamlPresenter.cs:319-334 | on one line nothing but printable text is ever written |
| `DoubleQuotedRules.ShortEscapesAreRead` | src/YamlSerializer/YamlParser.cs:593-657 | every short escape is read as the character that section 5.7 of YAML 1.2 gives for it |
| `DoubleQuotedRules.HexEscapesAreRead` | src/YamlSerializer/YamlParser.cs:658-672 | two, four or eight hexadecimal digits are read as their number, of eight digits the last four |
| `DoubleQuotedRules.OtherLettersAreNone` | src/YamlSerializer/YamlParser.cs:673-678 | any other letter after a backslash is an error, but for a line break |
| `DoubleQuotedParser.YamlParser.CNsEscChar` | src/YamlSerializer/YamlParser.cs:593-683 | reads every escape, or reports an error; an escaped line break is none |
| `DoubleQuotedParser.YamlParser.NbNsDoubleInLine` | src/YamlSerializer/YamlParser.cs:1145-1148 | reads the words of a line, each with the white space before it |
| `DoubleQuotedParser.YamlParser.LEmpty` | src/YamlSerializer/YamlParser.cs:790-794 | reads an empty line |
| `DoubleQuotedParser.YamlParser.SFlowFolded` | src/YamlSerializer/YamlParser.cs:813-821 | reads a folded line break with the white space around it |
| `DoubleQuotedParser.YamlParser.CForbidden` | src/YamlSerializer/YamlParser.cs:2021-2033 | tells a document marker at the start of a line |
| `DoubleQuotedParser.YamlParser.SDoubleEscaped` | src/YamlSerializer/YamlParser.cs:1132-1140 | reads an escaped line break, empty lines and the indentation |
| `DoubleQuotedParser.YamlParser.SDoubleNextLine` | src/YamlSerializer/YamlParser.cs:1149-1156 | reads a line break and the lines after it |
| `DoubleQuotedParser.YamlParser.NbDoubleMultiLine` | src/YamlSerializer/YamlParser.cs:1157-1161 | reads the text of a scalar on any number of lines |
| `DoubleQuotedParser.YamlParser.NbDoubleOneLine` | src/YamlSerializer/YamlParser.cs:1128-1131 | reads the text of a scalar on one line |
| `DoubleQuotedParser.YamlParser.CDoubleQuoted` | src/YamlSerializer/YamlParser.cs:1100-1114 | reads a double-quoted scalar; a missing quotation mark is an error only where a node must follow |
| `QuotedText.EscapeIsRead` | src/YamlSerializer/YamlParser.cs:593-709 | every escape that is written is read as its character, with its length |
| `QuotedText.AllIsLaid` | src/YamlSerializer/YamlPresenter.cs:303-363 | every character of the string has its place in what is written |
| `QuoteRoundTrip.ReaderReads` | src/YamlSerializer/YamlParser.cs:1132-1164 | reading from the place of any character gives what is kept of the string from there and stops at the closing quotation mark |
| `QuoteRoundTrip.IsReader` | src/YamlSerializer/YamlParser.cs:1115-1131 | both the one-line rule and the multi-line rule read character by character, white space by white space and fold by fold |
| `QuoteRoundTrip.ParseQuoted` | src/YamlSerializer/YamlParser.cs:1100-1164 | parsing what was written gives the string without the white space after a break and tab, just after the closing quotation mark |
| `QuoteRoundTrip.RoundTrip` | src/YamlSerializer/YamlPresenter.cs:297-363 | the string is read back whole if and only if nothing is folded or no line break is directly followed by a tab |
| `QuoteRoundTrip.FoldedIsNoKey` | src/YamlSerializer/YamlParser.cs:1128-1131 | a folded scalar is not matched by the one-line rule |
| `QuoteRoundTrip.WriteThenParse` | src/YamlSerializer/YamlPresenter.cs:297-301 | writing and then parsing any string, with the guard after it |
| `FoldedText.LinesAreFolded` | src/YamlSerializer/YamlParser.cs:800-817 | a scalar on any number of lines: a line break alone is a space, empty lines stay as line breaks, and indentation and white space around a line break are dropped; after a backslash the line break itself is dropped |
| `FoldedText.MarkerIsNoMatch` | src/YamlSerializer/YamlParser.cs:811-817 | a document marker at the start of a line, on whatever line, ends the scalar: it is no match, or an error where a node must follow |
| `FoldedText.InvalidEscapeIsError` | src/YamlSerializer/YamlParser.cs:1110-1164 | an invalid escape on any line is an error |
| `FoldedText.LinesAreNoKey` | src/YamlSerializer/YamlParser.cs:1128-1131 | text of more than one line is no key, whether the line break is escaped or not |
| `FoldedText.OneLineIsKept` | src/YamlSerializer/YamlParser.cs:1100-1127 | text on one line is read as it is, as a key too |
| `FoldedText.FoldExample` | src/YamlSerializer/YamlParser.cs:803-811 | `a`, a line feed and `b` in quotation marks are read as `a b` |
| `HandlerSafety.StepKeepsInv` | src/Uhuru.BOSH.Agent/Handler.cs:356-443 | every step of a worker or reader keeps the invariant of the protocol |
| `HandlerSafety.OneTaskRuns` | src/Uhuru.BOSH.Agent/Handler.cs:374-391 | in every interleaving at most one id is in the running list, and a published id is in it or has a result |
| `HandlerSafety.PublishedIsKnown` | src/Uhuru.BOSH.Agent/Handler.cs:420-443 | a reader that begins after an id was published never answers that it is unknown |
| `HandlerSafety.EveryAnswerIsTrue` | src/Uhuru.BOSH.Agent/Handler.cs:420-443 | whoever asks, whenever: a task answered to run was given its id, one answered to be finished has that result, and an id that no task was given is unknown |
| `HandlerSafety.ReaderIsTold` | src/Uhuru.BOSH.Agent/Handler.cs:420-443 | a reader that nobody comes in between of is told that the task runs if it is in the running list, else its first result, and unknown only if it has neither |
| `HandlerSafety.AnswersAreInOrder` | src/Uhuru.BOSH.Agent/Handler.cs:420-443 | answers for a published id, ordered by their first lookup, go from running to one fixed result and never back |
| `HandlerSafety.NotRunningKept` | src/Uhuru.BOSH.Agent/Handler.cs:498-531 | an id that has left the running list never returns, and its result stays |
| `HandlerSafety.MessageWaitsUnlessRestarting` | src/Uhuru.BOSH.Agent/Handler.cs:363-376 | the worker of a new message waits for the lock if and only if the agent is not restarting |
| `HandlerSafety.TaskIsPublished` | src/Uhuru.BOSH.Agent/Handler.cs:498-518 | a task that is started gets into the running list, and then its id is published |
| `HandlerSafety.TaskStartsUnlessFailed` | src/Uhuru.BOSH.Agent/Handler.cs:374-391 | a waiting worker that gets the lock starts its task if and only if no earlier task has ended with an agent exception |
| `HandlerSafety.TaskFinishes` | src/Uhuru.BOSH.Agent/Handler.cs:498-566 | a task that ends otherwise than with an agent exception can always be finished: result recorded, running list empty, lock free; an unexpected exception also makes the agent restart |
| `HandlerSafety.RestartingRefuses` | src/Uhuru.BOSH.Agent/Handler.cs:366-371 | once the agent is restarting no worker that has not looked by then gets any further |
| `HandlerSafety.AgentExceptionFails` | src/Uhuru.BOSH.Agent/Handler.cs:521-558 | an agent exception leaves the id in the running list without a result |
| `HandlerSafety.FailedForEver` | src/Uhuru.BOSH.Agent/Handler.cs:374-391 | from then on the running list, the published ids and the results never change |
| `HandlerSafety.AgentExceptionBlocks` | src/Uhuru.BOSH.Agent/Handler.cs:521-558 | so after any further run no task has been started or finished, and readers of the failed id are told that it runs |
| `NestedArrays.CreateArrayNode` | src/YamlSerializer/YamlRepresenter.cs:132-136 | an array of any rank is written as the nested sequences of its elements |
| `NestedArrays.CreateArrayNodeSub` | src/YamlSerializer/YamlRepresenter.cs:137-158 | each level counts in its own place of the shared index vector and leaves those before it alone |
| `NestedArrays.GetLengthes` | src/YamlSerializer/YamlConstructor.cs:226-232 | the lengths are raised to those of the sequences on every level; a scalar where a sequence must be is an error |
| `NestedArrays.SetArrayElements` | src/YamlSerializer/YamlConstructor.cs:215-224 | the elements are set in order at the index vectors of their positions |
| `NestedArrays.SequenceToObject` | src/YamlSerializer/YamlConstructor.cs:196-213 | the array made has the measured dimensions and the elements set, or there is an error |
| `ArrayRoundTrip.NodeIsMeasured` | src/YamlSerializer/YamlConstructor.cs:226-232 | measuring a written array raises every length to the dimension, or to nothing after a zero dimension |
| `ArrayRoundTrip.ItemsAreFilled` | src/YamlSerializer/YamlConstructor.cs:215-224 | refilling adds exactly the elements of the part of the array that was written |
| `ArrayRoundTrip.ReadBack` | src/YamlSerializer/YamlRepresenter.cs:132-158 | what is read back has the dimensions that can be seen, and every element |
| `ArrayRoundTrip.RoundTrip` | src/YamlSerializer/YamlConstructor.cs:196-232 | the dimensions come back if and only if each zero dimension is followed by zero dimensions only; the elements always do |
| `ArrayReading.LengthsAreGreatest` | src/YamlSerializer/YamlConstructor.cs:226-232 | measuring any nested sequences fails exactly if a scalar is where a sequence must be, and finds the greatest number of items of every level |
| `ArrayReading.ReadsEveryLeaf` | src/YamlSerializer/YamlConstructor.cs:196-232 | reading any nested sequences, even or ragged, succeeds exactly if all scalars are on the level of the rank; then every dimension is the greatest number of items on its level, and the elements are exactly the scalars, each at its path |
| `Erb.Buffer.Push` | src/Uhuru.BOSH.Agent/Ruby/erb.rb:484-486 | a command is added |
| `Erb.Buffer.Cr` | src/Uhuru.BOSH.Agent/Ruby/erb.rb:488-492 | ending a line of the script changes no command |
| `Erb.Compiler.TextToken` | src/Uhuru.BOSH.Agent/Ruby/erb.rb:513-547 | what the compiler does with text |
| `Erb.Compiler.TagToken` | src/Uhuru.BOSH.Agent/Ruby/erb.rb:525-571 | what the compiler does with a tag, outside or inside another |
| `Erb.Compiler.EndOfTag` | src/Uhuru.BOSH.Agent/Ruby/erb.rb:549-563 | a statement is run, without a line break at its end; an expression is printed; a comment is dropped |
| `Erb.Compiler.Compile` | src/Uhuru.BOSH.Agent/Ruby/erb.rb:513-576 | the script holds the commands of all tokens, text left over, and the closing commands |
| `Erb.TokensAreText` | src/Uhuru.BOSH.Agent/Ruby/erb.rb:434-443 | the tokens are the template cut into pieces |
| `Erb.TextIsNoTag` | src/Uhuru.BOSH.Agent/Ruby/erb.rb:435-441 | text before a tag is never itself one of the tags looked for |
| `ErbMeaning.TextIsPrinted` | src/Uhuru.BOSH.Agent/Ruby/erb.rb:542-546 | text up to the next start tag is printed character by character |
| `ErbMeaning.CodeIsCollected` | src/Uhuru.BOSH.Agent/Ruby/erb.rb:566-570 | code goes up to the next end tag |
| `ErbMeaning.CompiledFrom` | src/Uhuru.BOSH.Agent/Ruby/erb.rb:513-576 | from any point on, the commands yet to come do what the rest of the template means |
| `ErbMeaning.CompiledMeans` | src/Uhuru.BOSH.Agent/Ruby/erb.rb:513-576 | the script does what the template means; only the code of an unclosed tag is printed as text |
| `ErbMeaning.Compile` | src/Uhuru.BOSH.Agent/Ruby/erb.rb:513-576 | compiling any template gives a script that does exactly what the template means if and only if no code of an unclosed tag is left |
| `UriEncoding.EscapeIsRead` | src/YamlSerializer/UriEncoding.cs:108-140 | every escape of one, two or three bytes is decoded to its character |
| `UriEncoding.Unescape` | src/YamlSerializer/UriEncoding.cs:108-141 | the decoder loop computes the decoding of the whole text, or fails where characters are missing |
| `UriEncoding.UnescapeUndoesEscape` | src/YamlSerializer/UriEncoding.cs:59-141 | decoding undoes escaping for every string of 16-bit units |
| `UriEncoding.EscapeThenUnescape` | src/YamlSerializer/UriEncoding.cs:59-141 | escaping a string and running the decoder loop on the result gives the string back |
| `UriEncoding.EscapeKeepsExactly` | src/YamlSerializer/UriEncoding.cs:59-72 | exactly letters, digits and the listed marks are left as they are; a space becomes a plus sign |
| `UriEncoding.KeptTextIsNotEscaped` | src/YamlSerializer/UriEncoding.cs:59-72 | text of such characters alone is left as it is |
| `UriReader.YamlParser.NsUriChar` | src/YamlSerializer/YamlParser.cs:532-584 | one character is read as it is, as a space or from an escape, or the parse ends with an error |
| `UriReader.YamlParser.RepeatNsUriChar` | src/YamlSerializer/YamlParser.cs:1009-1012 | characters are read as long as there are any |
| `UriReader.EscapedTextIsRead` | src/YamlSerializer/YamlParser.cs:532-584 | the parser recovers an escaped string up to its first backslash and leaves the rest |
| `UriReader.ParserUndoesEscape` | src/YamlSerializer/YamlParser.cs:532-584 | it recovers the whole string and stops at its end if and only if there is no backslash in it |
| `UriReader.InvalidIffByteMissing` | src/YamlSerializer/YamlParser.cs:548-556 | an escape is an error if and only if one of the bytes that its first one calls for is missing |
| `Positions.PositionGrows` | src/YamlSerializer/Parser.cs:103-118 | positions are strictly increasing in the offset |
| `Positions.Parser.InitializeLines` | src/YamlSerializer/Parser.cs:123-136 | the table lists exactly the places where lines start, in order |
| `Positions.Parser.CurrentPosition` | src/YamlSerializer/Parser.cs:103-118 | the table with binary search gives the position counted character by character |
| `Positions.PositionInLine` | src/YamlSerializer/Parser.cs:103-118 | the position of a place follows from the start of its line |
| `Positions.Presenter.Write` | src/YamlSerializer/YamlPresenter.cs:121-149 | writing a string, with line breaks normalized or not, emits its text and keeps the column right; the lines counted are one more than those of the text only if the string ends a line break that the text before has begun |
| `Positions.Presenter.WriteLine` | src/YamlSerializer/YamlPresenter.cs:157-162 | the same for a line break on its own |
| `Positions.RightIffNoneSplit` | src/YamlSerializer/YamlPresenter.cs:121-162 | after any calls, normalized or not, the position counted is that of the end of the text if and only if no call has split a line break from what was written before it |
| `Positions.AgreesIffWhole` | src/YamlSerializer/YamlPresenter.cs:121-162 | it is the one that the parser finds there in the whole text if and only if, besides, no line break is split at this place |
| `Positions.NormalizedNeverSplits` | src/YamlSerializer/YamlPresenter.cs:133-136 | with normalized line breaks none is ever split |
| `Positions.PositionStays` | src/YamlSerializer/YamlPresenter.cs:121-162 | with normalized line breaks the position after some calls is still the one of that place when more has been written |
| `Positions.SplitExample` | src/YamlSerializer/YamlPresenter.cs:137-140 | a CR and an LF in two calls without normalization: the line is counted twice |
| `Positions.WriteAll` | src/YamlSerializer/YamlPresenter.cs:121-162 | after every call of any sequence of calls the position counted is that of the text so far, one line ahead for every split; with normalized line breaks it is the one the parser finds there in the whole text |
| `Positions.NormalizedIsJoined` | src/YamlSerializer/YamlPresenter.cs:121-149 | with normalization a string is written line by line, with the configured line break between its lines |
| `MergeKeys.YamlMapping.Merge` | src/YamlSerializer/YamlNode.cs:1784-1789 | adds the entries whose keys are not there yet, and keys stay unique |
| `MergeKeys.YamlMapping.ProcessMergeKey` | src/YamlSerializer/YamlNode.cs:1760-1783 | every key has its own value, else that of the first listed mapping that has it; the merge key is gone |
| `MergeKeys.MergedMeans` | src/YamlSerializer/YamlNode.cs:1760-1783 | over the value itself: a key that is not among the other own entries has the value of the mapping, or of the first item of the sequence that is a mapping with it, and none if there is none |
| `MergeKeys.RemovedLookup` | src/YamlSerializer/YamlNode.cs:1771-1775 | removing an entry changes the lookup of its key alone |
| `MergeKeys.FirstListedMore` | src/YamlSerializer/YamlNode.cs:1776-1778 | a further mapping of the list matters only for keys that none before it has |
| `NtpClient.NtpClient.SetDate` | src/Uhuru.BOSH.Agent/NTPClient.cs:445-467 | writes seconds and fraction most significant byte first, leaves all other bytes alone, and no step exceeds 64 bits |
| `NtpClient.NtpClient.GetMilliSeconds` | src/Uhuru.BOSH.Agent/NTPClient.cs:428-442 | reads back the milliseconds of seconds and fraction |
| `NtpClient.NumberOfBytes` | src/Uhuru.BOSH.Agent/NTPClient.cs:454-466 | the bytes written stand for the number |
| `NtpClient.TripLosesOne` | src/Uhuru.BOSH.Agent/NTPClient.cs:428-467 | a date read after it was written loses one millisecond unless it is a multiple of 125 |
| `NtpClient.TripsLose` | src/Uhuru.BOSH.Agent/NTPClient.cs:428-467 | after k trips a date has lost the lesser of k milliseconds and its distance from the multiple of 125 below |
| `NtpClient.WriteThenRead` | src/Uhuru.BOSH.Agent/NTPClient.cs:428-467 | the same for the bytes themselves |
| `NtpClient.DecodedIsNear` | src/Uhuru.BOSH.Agent/NTPClient.cs:428-442 | decoding loses less than a millisecond |
| `NtpClient.OffsetIsNear` | src/Uhuru.BOSH.Agent/NTPClient.cs:399-417 | the offset found differs from the lead of the server by at most half the delay found, and one millisecond more below (section 5 of RFC 2030) |

## Left out

- Presenter.Presenter.WriteHead: whether a scalar fits on one line is a parameter, because plain, literal and tag text is not modelled; the text of aliases is measured.
- Presenter.Presenter.NodeToYaml: the output is a stream of events; indentation, flow and block layout, tags as text and directives are not part of it.
- Composer.Composer.ParseNode: the parser is modelled from the events on; the grammar that finds them in a text is not, but for double-quoted scalars.
- RoundTrip.RoundTrip: the if-and-only-if is about events. In the text an alias that is an implicit key is written `*A: `, and the parser takes the colon into the name (`YamlParser.cs:422-424`), so that such a document is not read back.
- Composer.Composer.ParseItems: equal keys of a mapping are not rejected, and merge keys are processed in a model of their own.
- MappingEquality.EqualNodesHashAlike: mapping keys are scalars, no two of one mapping alike, and hash codes are those of the present content, not cached ones.
- MappingPairing.EqualIffGraphsPaired: native objects depend on tag and value alone, and candidates are tried in the order of the entries, which is that of a bucket.
- NodeHash.GetHashCodeCore: the cached hash code is not modelled; edits of a sequence do not invalidate it in the code.
- NodeEquality.EqualIsTransitive: for disjoint graphs only; where graphs overlap identical nodes are equal without their items being paired.
- RehashableDictionary.RehashableDictionary.Clear: observers are a set of keys; the events of the dictionary and its read-only views are not modelled.
- RehashableDictionary.Run: two threads using one dictionary, and changing it while it is enumerated.
- ParserEngine.Parser.Exec: warnings, which are never rewound, and parameterised rules; error messages carry no text.
- DoubleQuotedParser.YamlParser.CDoubleQuoted: errors carry no message, so the flag for tabs in an indentation is not modelled.
- QuotedText.EscapeIsRead: the four-digit escape is written for no character, because every unsafe one above 0xFF has a short escape.
- HandlerSafety.AgentExceptionFails: logging, encryption, the message bus and the killing of the process; operations on the two lists are taken as atomic.
- NestedArrays.SequenceToObject: conversion of elements is the identity; binary arrays and the style property of short rows are not modelled.
- Erb.Compiler.Compile: the default scanner without trim modes or percent lines; encodings and the quoting of text in the script are not modelled.
- NtpClient.OffsetIsNear: times are real numbers of milliseconds; the conversion of dates through floating point and the cast of the delay to an integer are not modelled.
- UriEncoding.Unescape: an escape with too few characters is an error without its message; escaping for tags alone is not modelled.
- Literal, folded and plain scalars, comments, directives and block structure at the level of text: very large, and full of layout conventions.
- Reflection, type conversion, tag resolution by regular expressions and tag validation.
- Disk, mount, service, message bus, monitoring and bootstrap code of the agent: input and output and calls into foreign code.

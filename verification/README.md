# A verified model of the server's address space, services and database access

The project models the hard parts of an OPC UA server (Release 1.03) that publishes an SQL data
source, and proves what they are for:

* the **address-space graph**: a growable array of nodes with growable lists of typed, directed
  references, and a fast list in front of a linear search; adding and removing references and nodes,
  renaming nodes, cloning type subtrees by mutual recursion while the graph grows, the type hierarchy
  and its builders (`Graph`, `GraphAnswers`, `AddressSpace`, `Clone`, `CloneOperations`, `CloneTheorems`,
  `CloneAnswers`, `Acyclicity`, `Rename`, `GraphRuns`, `TypeHierarchy`, `TypeBuilders`, `BuilderRuns`);
* **Browse, BrowseNext and TranslateBrowsePathsToNodeIds** with the continuation-point table, and
  **index ranges** of array values (`Continuer`, `Browse`, `BrowseAnswers`, `Translate`,
  `TranslateAnswers`, `IndexRange`);
* the **row and column fetch loops** over an ODBC cursor (`RowFetch`, `ColumnRead`) and the
  **statement texts** that are built in a length pass and a print pass (`SqlText`);
* **sessions**, their timer, gate and services, the **index allocator**, and the state of a session's
  **database connection** (`Sessions`, `SessionRuns`, `SessionAnswers`, `Orphans`, `SessionManager`,
  `Indexer`, `OdbcSession`, `OdbcAnswers`).

`OpcTypes` holds the identifiers, references and node records that the others share, and a few facts on
sequences.

How the model is built:

* Code that changes things in place is a class or an array method here; its contract equates the new
  state with a function of the old one, and the lemmas are about that function. Graphs are maps from
  identifiers to node records; `AddressSpaces.AddressSpace` ties its array of node objects to such a map.
* The modules named Answers tell what an operation yields from its input alone, without the functions that the
  operation is made of.
* Node identifiers are numeric, as all that the server makes are. An identifier is null when its
  namespace and its number are zero, as the stack's own test has it.
* Modelling rules are given to nodes long before the nodes of the rules exist (`UASpace/Initialize.c:9-29`),
  so that `NonDangling` is about all other references; `Anchored` is about rules as well, and the services
  that look at the nodes behind references ask for it.
* SQLDisconnect closes the connection's remaining statements with it, as the ODBC interface defines it.
* Each service call is one step. Clocks, the driver's answers, cryptographic checks and the alias table
  are inputs.
* A creating function assigns the identifier after the node is in the array; here both are one step,
  with an identifier that no node has, as the comment at `AddressSpace/AddressSpace.c:636` demands.
* The termination of cloning is shown by a ghost rank. `Acyclicity.RankExistsIffNoCycle` says when there
  is one, `GraphRuns.RunsStaySane` that there always is one, and `GraphRuns.CloneIgnoresRank` that the
  result does not depend on it. The subtype test takes a ghost number of recursive calls in the same way.

Where the code departs from its evident intent it is modelled as it is, and the exact condition for the
intended result is proved:

* a continuation point loses the reference-type filter (`Indexer/Continuer.c:51`), and its identifier shows
  the leading digit and the number of digits only, cut to a bare minus sign for -9 to -1, while the counter
  behind it starts anywhere in 32 bits: paging is whole if and only if nothing behind the first page passes
  without the filter and no outstanding point shares the new identifier (`Browsing.PagesAreWholeIff`,
  `Browsing.TypedPagesCanLeak`, `Browsing.SharedPagesLeak`, `Continuing.SameIdentIff`,
  `Continuing.LookupFindsOwnIff`, `Continuing.PurgeIffUnshadowed`);
* a page size of 2^31 or more stalls (`Browsing.NegativeLimitStalls`);
* the range parser lets an upper bound equal to the length through and gives an empty string no elements
  (`IndexRanges.InBoundsIff`, `IndexRanges.LengthIsAccepted`), a write does not look whether enough elements are
  supplied (`IndexRanges.WriteInBoundsIff`), and numbers are cut to 32 bits (`IndexRanges.ParsesExactlyIff`);
* RemoveNode passes over nodes with a null identifier (`Graphs.RemoveNodeLeavesNoDangling`), and
  RemoveBiReference breaks a pair that one end holds more often (`Graphs.RemoveBiKeepsPairsIff`);
* renaming a node leaves the modelling rules that lead to it, and goes wrong for a node that refers to itself
  (`Renaming.RelinksIffAnswered`, `GraphRuns.RenameStaysSaneIff`);
* the timer skips the session that slides into a removed place (`Sessions.TickExactly`), so that idle times
  are exact only for sessions that were never skipped since their last contact
  (`SessionRuns.ExactIffNotPassedOver`), and it leaves the continuation points of the sessions that it removes
  (`Orphans.OrphanedIff`);
* a delete takes a statement from the driver that nobody ever frees, until the connection is closed
  (`OdbcSessions.HeldOrRefusedAfterIff`, `OdbcSessions.DeleteLosesItsHandle`);
* allocating a handle again for a statement with bound parameters leaves dangling buffers
  (`OdbcSessions.StaysCleanAfterIff`, `OdbcSessions.ReallocationLeavesDangling`);
* a driver error while fetching ends a page like the end of the result (`RowFetching.NoMoreMeansAllIff`), a
  row that cannot be read takes the rows read before it with it (`RowFetching.FailureSkips`), and text
  columns end at their first terminator (`ColumnReading.ExactIff`);
* the index counter wraps at 2^32: an index that is held is handed out again exactly when nothing is stashed
  and every 32-bit number is out (`Indexing.AllocationsCollideIff`);
* only one of the two fetch styles announces more rows exactly (`RowFetching.MoreIsExactIff`).

To verify: `dafny verify dfyconfig.toml`.

## Model

| member | source | states |
|---|---|---|
| Indexing.NextFree | Indexer/Indexer.c:65-82 | the number is above the counter and not reserved, and every number skipped is reserved |
| Indexing.IssueIsFresh | Indexer/Indexer.c:65-92 | an allocation returns an index that nothing holds or has reserved, and all spent indexes stay spent |
| Indexing.RecycledComesFirst | Indexer/Indexer.c:37-92 | what was recycled last is handed out first, and that undoes the recycling |
| Indexing.WrappedSearchAgrees | Indexer/Indexer.c:70-79 | the wrapping search finds the same index as the unbounded one if and only if that is below the 32-bit limit |
| Indexing.Indexer.RecycleIndex | Indexer/Indexer.c:37-49 | the stash gains the index at its end; nothing else changes |
| Indexing.Indexer.AddToReserved | Indexer/Indexer.c:51-63 | the reserved list gains the index at its end; nothing else changes |
| Indexing.Indexer.GetNextIndex | Indexer/Indexer.c:65-92 | the search ends whenever some 32-bit value is unreserved; the result is the last stashed index or the first free value met counting up with wrap-around |
| Indexing.StepConserves | Indexer/Indexer.c:37-92 | in 32-bit arithmetic every allocation without a collision, every recycling and every reservation keeps held and stashed indexes a partition of those issued |
| Indexing.RunConserves | Indexer/Indexer.c:37-92 | in every run up to its first collision, held plus stashed indexes are exactly those issued, and no issued index is reserved |
| Indexing.CollidesIff | Indexer/Indexer.c:65-92 | an allocation hands out a held index if and only if nothing is stashed and every 32-bit number was handed out or is reserved; it never hands out a reserved one |
| Indexing.AllocationsCollideIff | Indexer/Indexer.c:65-92 | in every run, with the counter wrapping at 2^32, some allocation hands out a held index if and only if some allocation finds nothing stashed and every number out |
| Graphs.AddBiKeeps | AddressSpace/AddressSpace.c:660-686 | adding a two-way reference keeps references paired and non-dangling and adds no node |
| Graphs.AddRuleKeeps | AddressSpace/AddressSpace.c:660-681 | a one-way modelling rule keeps the other references paired, whether its node exists or not |
| Graphs.WithoutOfSum | AddressSpace/AddressSpace.c:608-617 | what stays of a list without the references to a node is, stretch by stretch, what stays of its parts, in their order |
| Graphs.RemoveNodeLeavesNoDangling | AddressSpace/AddressSpace.c:619-657 | removal makes no reference dangle if and only if no node with a null identifier refers to the node by other than a modelling rule |
| Graphs.RemoveNodeKeepsRules | AddressSpace/AddressSpace.c:619-657 | removal leaves no modelling rule that leads to the removed node |
| Graphs.RemoveNodeKeepsPairs | AddressSpace/AddressSpace.c:619-657 | removal keeps all remaining references paired |
| Graphs.RemoveBiInvertsAddBi | AddressSpace/AddressSpace.c:683-711 | removing a two-way reference that was absent before it was added restores the graph |
| Graphs.RemoveBiKeepsPairsIff | AddressSpace/AddressSpace.c:707-711 | removing a two-way reference keeps references paired if and only if both ends or neither hold it more than once |
| Graphs.BuildRefsAdds | AddressSpace/AddressSpace.c:1128-1157 | the target gains a reference to exactly the nodes of the kind that lacked one, these gain the inverse one, nothing else changes |
| Graphs.BuildRefsIsIdempotent | AddressSpace/AddressSpace.c:1128-1157 | a second build changes nothing |
| Graphs.BuildRefsKeeps | AddressSpace/AddressSpace.c:1128-1157 | building keeps references paired and non-dangling |
| GraphAnswers.RemoveAnswers | AddressSpace/AddressSpace.c:619-657 | after a removal every other node has exactly its references that do not lead to the removed one, in their order, and is otherwise unchanged |
| GraphAnswers.UnlinkAnswers | AddressSpace/AddressSpace.c:689-711 | unlinking takes the first equal reference at either end and nothing else |
| GraphAnswers.BuildAnswers | AddressSpace/AddressSpace.c:1128-1157 | a build links exactly the nodes of the kind, other than the target, that hold no reference of the type to it in either direction |
| AddressSpaces.Node.RemoveReferenceFromArray | AddressSpace/AddressSpace.c:587-606 | the reference at the index goes, the later ones move down in order |
| AddressSpaces.Node.RemoveReferencesTo | AddressSpace/AddressSpace.c:608-617 | with unsigned step-back of the index, exactly the references to the node go and the order of the others stays |
| AddressSpaces.Node.RetargetAnswers | AddressSpace/AddressSpace.c:1021-1034 | exactly the answering references of opposite direction and same type are redirected |
| AddressSpaces.Node.RemoveFirst | AddressSpace/AddressSpace.c:689-705 | the first equal reference goes, if there is one |
| AddressSpaces.AddressSpace.CheckForRealloc | AddressSpace/AddressSpace.c:426-432 | the capacity grows by its increment exactly when the array is full |
| AddressSpaces.AddressSpace.AddNode | AddressSpace/AddressSpace.c:434-471 | a new node stands at the end of the array with the given attributes and no references; count stays within capacity |
| AddressSpaces.AddressSpace.FindNodeWithID | AddressSpace/AddressSpace.c:329-342 | the backward search finds the one node with the identifier, or none when there is none |
| AddressSpaces.AddressSpace.FastAccessNode | AddressSpace/AddressSpace.c:214-231 | a hit in the fast list is the node that the identifier names |
| AddressSpaces.AddressSpace.GetNode | AddressSpace/AddressSpace.c:713-730 | the search through the fast list returns the same node as the full search, for every identifier |
| AddressSpaces.AddressSpace.InsertFast | AddressSpace/AddressSpace.c:52-58 | a live node in the fast list keeps every entry live |
| AddressSpaces.AddressSpace.AddUniReference | AddressSpace/AddressSpace.c:660-681 | the source alone gains the reference, at the end of its list |
| AddressSpaces.AddressSpace.AddBiReference | AddressSpace/AddressSpace.c:683-687 | both ends gain their reference |
| AddressSpaces.AddressSpace.RemoveUniReference | AddressSpace/AddressSpace.c:689-705 | the first equal reference of the source goes |
| AddressSpaces.AddressSpace.RemoveBiReference | AddressSpace/AddressSpace.c:707-711 | the first equal reference goes at both ends |
| AddressSpaces.AddressSpace.RemoveNode | AddressSpace/AddressSpace.c:619-657 | exactly the named node leaves the array, all others keep their order, exactly the references to it go; the fast list stays live if and only if the node was not in it |
| AddressSpaces.AddressSpace.MapNodeToId | AddressSpace/AddressSpace.c:1007-1041 | the in-place renaming computes `Renaming.MapNodeToId` and keeps identifiers unique |
| AddressSpaces.AddressSpace.BuildReferencesOfTypeToNode | AddressSpace/AddressSpace.c:1128-1157 | the downward loop over the growing graph computes the function that `Graphs.BuildRefsAdds` characterizes |
| Renaming.RelinksIffAnswered | AddressSpace/AddressSpace.c:1007-1041 | the result is the graph with the old identifier replaced everywhere but in modelling rules if and only if each other reference to the node comes from another node and is answered |
| Renaming.RenamesIffLinked | AddressSpace/AddressSpace.c:1007-1041 | it is replaced everywhere if and only if moreover no modelling rule leads to the node |
| Renaming.AnsweredWhenPaired | AddressSpace/AddressSpace.c:1007-1041 | in a paired graph every reference to the node is answered if and only if the node does not refer to itself, modelling rules apart |
| Renaming.RelinkedKeeps | AddressSpace/AddressSpace.c:1007-1041 | renaming keeps references paired and non-dangling |
| Renaming.RelinkedKeepsRulesIff | AddressSpace/AddressSpace.c:1007-1041 | a modelling rule that led somewhere still does after a renaming if and only if none led to the renamed node |
| Renaming.RenameInvertsIff | AddressSpace/AddressSpace.c:1007-1041 | renaming back restores the graph if and only if no modelling rule named the new identifier before |
| Cloning.PassStep | AddressSpace/AddressSpace.c:794-897 | however the source's list grew in an iteration, descents and self-references left to visit only go down |
| Cloning.InheritOne | AddressSpace/AddressSpace.c:794-897 | one reference: the graph only grows, older nodes gain no aggregate or rule, issued indexes stay spent |
| Cloning.Inherit | AddressSpace/AddressSpace.c:776-898 | the loop over a list that may grow ends, by rank, descents left, self-references left and length; all earlier nodes and references are kept |
| Cloning.Clone | AddressSpace/AddressSpace.c:902-964 | cloning ends; earlier nodes and references are kept; no ranked node comes to descend into the clone |
| Cloning.Instantiate | AddressSpace/AddressSpace.c:1043-1076 | instantiation ends with the new node in the graph, no dangling reference and only fresh identifiers |
| CloneOperations.InheritReferences | AddressSpace/AddressSpace.c:776-898 | the loop on the real node objects computes `Cloning.Inherit` and ends |
| CloneOperations.IsAdmitted | AddressSpace/AddressSpace.c:817-836 | the scan for a modelling rule decides whether the heir inherits the child |
| CloneOperations.IsNameTaken | AddressSpace/AddressSpace.c:844-863 | the scan decides whether the heir already refers to something with the browse name |
| CloneOperations.CloneSubtree | AddressSpace/AddressSpace.c:902-964 | cloning on the real node objects computes `Cloning.Clone`; earlier node objects stay in place |
| CloneOperations.CreateFromType | AddressSpace/AddressSpace.c:1043-1076 | instantiation on the real node objects computes `Cloning.Instantiate` |
| CloneTheorems.InheritKeepsPairs | AddressSpace/AddressSpace.c:776-898 | inheriting keeps references paired |
| CloneTheorems.CloneKeepsPairs | AddressSpace/AddressSpace.c:902-964 | cloning keeps references paired |
| CloneTheorems.InstantiateKeepsPairs | AddressSpace/AddressSpace.c:1043-1076 | instantiating keeps references paired |
| CloneTheorems.InheritTakesOver | AddressSpace/AddressSpace.c:776-898 | every reference met is taken over, or covered by a child of that browse name; new children copy admitted children and no two share a browse name |
| CloneTheorems.CloneCopies | AddressSpace/AddressSpace.c:902-964 | the clone is a copy, recursively: same attributes, all inherited references, each child a copy of an admitted child, names distinct |
| CloneTheorems.InstanceTakesOver | AddressSpace/AddressSpace.c:1043-1076 | an instance takes over from its type and then refers to it as its definition |
| CloneAnswers.ClonesChildIff | AddressSpace/AddressSpace.c:801-871 | a child reference adds a child if and only if the child holds the Mandatory rule, or a placeholder or ExposesItsArray rule below an object or variable type, and the heir refers to nothing with the same name text in the same namespace |
| CloneAnswers.CloneChildren | AddressSpace/AddressSpace.c:902-964 | a clone has a child for every mandatory child of the original, whatever its class, and below a type for every placeholder; each of its children is new and stems from such a one, and no two have the same name text |
| CloneAnswers.InstanceChildren | AddressSpace/AddressSpace.c:1043-1076 | the same for an instance, which has no child that is not mandatory unless it is a type itself, and refers to its type |
| CloneAnswers.CloneReferences | AddressSpace/AddressSpace.c:793-896 | a clone takes over exactly the rules, the forward type definitions, and everything that is no property, component or subtype, each answered by its target |
| CloneAnswers.InstanceReferences | AddressSpace/AddressSpace.c:1043-1076 | the same for an instance, which takes Organizes references over only between nodes of one kind and refers to its type in the last place |
| Acyclicity.RankExistsIffNoCycle | AddressSpace/AddressSpace.c:776-898 | a rank that bounds the recursion exists if and only if no descent into cloneable children returns to its start |
| Acyclicity.LinkIsAcyclicIff | AddressSpace/AddressSpace.c:683-687 | linking a child leaves descents free of cycles if and only if the child cannot be cloned or does not lead back to its new parent |
| Acyclicity.RuleIsAcyclicIff | AddressSpace/AddressSpace.c:660-681 | giving a node a modelling rule leaves descents free of cycles if and only if it could be cloned before, the rule clones nothing, or the node does not lead back to one of its parents |
| Acyclicity.BuildIsAcyclicIff | AddressSpace/AddressSpace.c:1128-1157 | building references to children leaves descents free of cycles if and only if no node that gets linked can be cloned and leads back to the target |
| Acyclicity.CloneKeepsRanks | AddressSpace/AddressSpace.c:902-964 | cloning makes no cycle: the clone ranks as its original |
| GraphRuns.CloneIgnoresRank | AddressSpace/AddressSpace.c:902-964 | the result of cloning is the same for every rank |
| GraphRuns.CloneIsFresh | AddressSpace/AddressSpace.c:865-869 | every node that cloning adds has an identifier that nothing used or reserved |
| GraphRuns.StepKeeps | AddressSpace/AddressSpace.c:619-1157 | each editing step keeps references paired and non-dangling, identifiers spent and cloning well-founded; a link, a rule or a build is permitted exactly when it closes no cycle, an unlinking exactly when it breaks no pair, a renaming exactly when the node does not refer to itself |
| GraphRuns.RenameStaysSaneIff | AddressSpace/AddressSpace.c:1007-1041 | a renaming keeps all this if and only if the node does not refer to itself |
| GraphRuns.RunsStaySane | AddressSpace/AddressSpace.c:619-1157 | the same for every state of every run of creating, naming, linking, unlinking, giving rules, cloning, instantiating, building, renaming and removing |
| GraphRuns.EmptyIsSane | AddressSpace/AddressSpace.c:304-327 | the empty address space is such a state |
| GraphRuns.StepKeepsRulesIff | AddressSpace/AddressSpace.c:619-1157 | a step makes a modelling rule dangle that led somewhere if and only if it renames the node of a rule |
| GraphRuns.StepKeepsAnchorsIff | UASpace/Initialize.c:9-36 | once every reference leads somewhere, modelling rules included, a step keeps this if and only if it neither gives a rule whose node is missing nor renames the node of a rule |
| GraphRuns.RunsStayAnchored | UASpace/Initialize.c:9-36 | the same over runs |
| GraphRuns.StepKeepsAll | AddressSpace/AddressSpace.c:660-964 | every step but renaming, removing, unlinking and naming keeps each node, its attributes and its references in order |
| GraphRuns.RunsKeepAll | AddressSpace/AddressSpace.c:660-964 | the same between any two states of a run without these |
| TypeHierarchy.DecidesSubtype | AddressSpace/AddressSpaceHelper.c:710-748 | whenever the recursion ends it answers the reflexive-transitive closure of the first inverse HasSubtype parent |
| TypeHierarchy.FirstUpIs | AddressSpace/AddressSpaceHelper.c:710-748 | a supertype is the target of the first inverse HasSubtype reference, and there is none if and only if there is no such reference |
| TypeHierarchy.EndsIffNoLoop | AddressSpace/AddressSpaceHelper.c:710-748 | it ends if and only if the parent type is missing or met or the climb does not loop; then as many calls as there are nodes suffice |
| TypeHierarchy.TieredEnds | AddressSpace/AddressSpaceHelper.c:710-748 | in a ranked hierarchy it ends for every pair |
| TypeHierarchy.SubtypesAreOrdered | AddressSpace/AddressSpaceHelper.c:710-748 | subtyping is reflexive, transitive and, in a ranked hierarchy, antisymmetric |
| TypeHierarchy.CloneAddsNoUp | AddressSpace/AddressSpace.c:870-871 | cloning never copies a type's place in the hierarchy |
| TypeHierarchy.HangAnswers | AddressSpace/AddressSpaceHelper.c:943-945 | a type hung below a parent becomes a subtype of exactly itself and what the parent is a subtype of; no other answer changes |
| TypeHierarchy.HangKeepsTiers | AddressSpace/AddressSpaceHelper.c:943-945 | hanging a type without subtypes keeps the hierarchy ranked |
| TypeHierarchy.StepKeepsAnswers | AddressSpace/AddressSpaceHelper.c:710-748 | an edit that neither renames, removes, unlinks nor links subtypes keeps every earlier answer |
| TypeHierarchy.ReachableTestsEnd | AddressSpace/AddressSpaceHelper.c:710-748 | on every graph reachable from the empty one the test ends with the right answer, for every pair |
| TypeBuilders.DeclareTypeAnswers | AddressSpace/AddressSpaceHelper.c:928-970 | the builder keeps every answer about earlier types and places the new one exactly below its parent |
| TypeBuilders.DeclareTypeKeeps | AddressSpace/AddressSpaceHelper.c:928-970 | the builder keeps the hierarchy ranked and references paired and non-dangling |
| TypeBuilders.PropertyKeeps | AddressSpace/AddressSpaceHelper.c:484-521 | a new property adds one node, no supertype, and keeps references paired |
| TypeBuilders.PropertyStands | AddressSpace/AddressSpaceHelper.c:484-521 | the property is a variable with its name whose three references lead to the property type, its rule and its parent, which gains a forward HasProperty reference; nothing else changes |
| TypeBuilders.TypeStands | AddressSpace/AddressSpaceHelper.c:928-970 | a declared type has its kind, class and name, owns a mandatory NodeVersion and stands below its parent |
| TypeBuilders.IsTypeASubtypeOf | AddressSpace/AddressSpaceHelper.c:710-748 | the recursion on the real nodes decides subtyping whenever it ends |
| TypeBuilders.CreateProperty | AddressSpace/AddressSpaceHelper.c:484-521 | on the real nodes: a variable with its definition, rule and place below the parent |
| TypeBuilders.CreateTypeNode | AddressSpace/AddressSpaceHelper.c:928-970 | on the real nodes: the type, its NodeVersion and its place below the parent |
| BuilderRuns.PropertyIsARun | AddressSpace/AddressSpaceHelper.c:484-521 | creating a property is a run of permitted edits, whether the node of its rule exists or not |
| BuilderRuns.DeclareTypeIsARun | AddressSpace/AddressSpaceHelper.c:928-970 | declaring a type is a run of permitted edits, from any state of a run, before the rule nodes exist and after |
| BuilderRuns.DeriveTypeIsARun | AddressSpace/AddressSpaceHelper.c:814-829 | so is deriving an object type: cloning its parent, naming the clone and hanging it below the parent |
| BuilderRuns.DerivedStands | AddressSpace/AddressSpaceHelper.c:814-829 | a derived object type has its name, stands below its parent and has the children of the parent that are mandatory or placeholders |
| BuilderRuns.BuiltTestsEnd | AddressSpace/AddressSpaceHelper.c:710-748 | on every graph built from the empty one by edits and builders the subtype test ends with the right answer |
| Continuing.SameIdentIff | Indexer/Continuer.c:59-74 | for all values of the 32-bit counter: identifiers are the same if and only if the signed numbers behind them are both zero, both positive with as many digits and the same leading one, both between -9 and -1, or both longer negative ones with as many digits and the same leading one |
| Continuing.TenthAndEleventhCollide | Indexer/Continuer.c:59-74 | the tenth and the eleventh point of a table counting from zero are indistinguishable, and so are the points for -6 and -4 |
| Continuing.LookupFindsOwnIff | Indexer/Continuer.c:91-111 | looking up a point's own identifier finds it if and only if no earlier point shares it |
| Continuing.PurgeIffUnshadowed | Indexer/Continuer.c:149-156 | removing by session removes exactly the session's points if and only if none is shadowed by a foreign one |
| Continuing.Continuer.MakeIdent | Indexer/Continuer.c:59-74 | the digit loop computes the identifier for every counter value, signed overflow included |
| Continuing.Continuer.AddContinuationPoint | Indexer/Continuer.c:30-89 | the new point is last, without its type filter and with the alias resolved; the counter advances with wrap-around |
| Continuing.Continuer.GetContinuationPoint | Indexer/Continuer.c:91-111 | the first point with the identifier, or none |
| Continuing.Continuer.RemoveContinuationPoint | Indexer/Continuer.c:113-147 | exactly that point goes, the later ones move down |
| Continuing.Continuer.RemoveBySession | Indexer/Continuer.c:149-156 | the downward loop removes exactly the session's points if and only if none is shadowed |
| Browsing.PageIsPrefix | Functions/Access.c:48-137 | a page is a prefix of the matches within the limit; there is a place to resume if and only if more matches remain, and it is further on |
| Browsing.PageStopsAt | Functions/Access.c:68-72 | a page stops at the first match that it has no room for, told from the matches alone |
| Browsing.NegativeLimitStalls | Functions/Access.c:68-72 | a negative limit returns empty pages for ever while a match remains |
| Browsing.FollowFirst | Functions/Access.c:280-290 | repeated BrowseNext returns all that matches from the offset of the first point with the identifier on and gives that point back, or is stuck when its node is gone or its batch size negative |
| Browsing.FollowCollects | Functions/Access.c:280-290 | all other points stay as they are meanwhile |
| Browsing.ClientGets | Functions/Access.c:33-165 | a client gets the first page and then what the point yields that the new identifier finds, be it its own or an earlier one of another session |
| Browsing.PagesAreWholeIff | Functions/Access.c:33-165 | Browse and repeated BrowseNext together are the unpaged answer and leave the table as it was, if and only if there are no more matches than one page holds, or the new identifier is not shared and from the first match beyond the first page on nothing passes without the type filter only |
| Browsing.UntypedPagesAreWholeIff | Functions/Access.c:33-165 | for a null reference type: if and only if there are no more matches than one page holds or the new identifier is not shared |
| Browsing.SharedIff | Indexer/Continuer.c:59-74 | the new identifier is shared if and only if the number of an outstanding point has the same shape as the new one |
| Browsing.SharedPagesLeak | Indexer/Continuer.c:91-111 | while the tenth point of a table is outstanding, the client of the eleventh gets a reference that its node does not have |
| Browsing.TypedPagesCanLeak | Indexer/Continuer.c:51-52 | with a type filter there are graphs where a client gets a reference on a later page that the filter excludes |
| BrowseAnswers.DirectionAnswers | Functions/Access.c:51-54 | direction 0 returns the forward references in order, 1 the inverse ones and 2 all |
| BrowseAnswers.AddedIsFound | Functions/Access.c:51-54 | a reference added from one node to another is found forward from the first and inverse from the second, and not the other way |
| BrowseAnswers.ClassAnswers | Functions/Access.c:61-65 | a mask of 1, 2, 4, 8, 16, 32, 64 or 128 returns exactly the references to objects, variables, methods, object types, variable types, reference types, data types or views |
| BrowseAnswers.MaskAnswers | Functions/Access.c:61-65 | any other mask returns the references to the classes whose bits it has |
| BrowseAnswers.TypeAnswers | Functions/Access.c:56-59 | a type returns exactly the references of that type, and with subtypes those whose type climbs to it |
| BrowseAnswers.BrowseRefuses | Functions/Access.c:202-222 | each refusal if and only if the direction is none of the three, the type is neither null nor a reference type, or the node behind the alias is missing; nothing changes then |
| BrowseAnswers.FirstPageIs | Functions/Access.c:68-150 | with a limit the first of what an unlimited Browse returns, and a point of the session, at the end of the table, if and only if there are more |
| BrowseAnswers.NextPageIs | Functions/Access.c:280-290 | BrowseNext returns the next ones of what is left, as many as before, and gives the point back if and only if none are left |
| BrowseAnswers.NextRefusesOrReleases | Functions/Access.c:282-287 | an identifier is refused if and only if no point has it; releasing takes the first point that has it |
| Browsing.ReferencePasses | Functions/Access.c:51-65 | the tests of one reference decide direction, type or subtype, and node class |
| Browsing.CollectPage | Functions/Access.c:48-137 | the loop computes the page and the place to resume |
| Browsing.BrowseNode | Functions/Access.c:33-165 | one browse with its effect on the continuation points |
| Browsing.Browse | Functions/Access.c:202-244 | the checks of direction and reference type in front of a browse |
| Browsing.BrowseNext | Functions/Access.c:280-290 | unknown points are refused, released points removed, others resumed |
| Translating.CollectsEndsOfAll | Functions/Access.c:302-354 | the recursion ends and yields the ends of exactly the walks that follow the path, each once, in depth-first order |
| Translating.TranslatesExactly | Functions/Access.c:535-578 | a named path is answered if and only if some walk follows it, and the answer holds the end of every walk |
| TranslateAnswers.PathAnswers | Functions/Access.c:302-354 | a path of named elements leads to what following it element by element does, told from directions, types and names; every other status if and only if its condition holds |
| TranslateAnswers.AddedIsFollowed | Functions/Access.c:313-336 | an added reference is followed forward from its source and inverse from its target, and not against its direction |
| Translating.ReferenceFits | Functions/Access.c:313-336 | the tests decide direction, type or subtype, and browse name |
| Translating.Transcribe | Functions/Access.c:302-354 | the recursion appends its ends to the shared result and changes nothing else |
| Translating.TranslatePath | Functions/Access.c:536-578 | the status for an unknown node, an empty path, an unnamed element and no match |
| IndexRanges.ParsesExactlyIff | Functions/Access.c:611-642 | digits are parsed to their value if and only if it is below 2^31 |
| IndexRanges.ParseKeepsLowBits | Functions/Access.c:611-642 | longer digits give the low 32 bits, signed, of their number cut off at the largest 64-bit one |
| IndexRanges.PrintedRange | Functions/Access.c:644-684 | a printed range comes back exactly, and is refused exactly when it is empty or beyond the length |
| IndexRanges.PrintedIndex | Functions/Access.c:644-684 | a printed index comes back as a range of one |
| IndexRanges.RangeAnswers | Functions/Access.c:587-684 | a character that is neither digit nor colon is refused; no string is the whole array |
| IndexRanges.NoLowerBound | Functions/Access.c:611-642 | a missing lower bound is zero |
| IndexRanges.NoUpperBound | Functions/Access.c:644-676 | a missing upper bound is refused |
| IndexRanges.TailIgnored | Functions/Access.c:644-676 | what follows a second colon is not looked at |
| IndexRanges.InBoundsIff | Functions/Access.c:653-676 | for an accepted range all places exist if and only if the number behind the colon, or the only one, is not the length; the count fits if and only if the string is not empty |
| IndexRanges.LengthIsAccepted | Functions/Access.c:668-670 | an index equal to the length is accepted |
| IndexRanges.WriteInBoundsIff | Functions/Access.c:1557-1580 | every place of the array and of the supplied elements that a write touches exists if and only if enough elements are supplied and the upper number is not the length, or the write stops before that at an element that cannot be copied |
| IndexRanges.ConstructRange | Functions/Access.c:587-684 | the parser's loops compute range or error |
| IndexRanges.ReadRange | Functions/Access.c:875-894 | the elements of the range in order, blank where they cannot be copied |
| IndexRanges.ReadShows | Functions/Access.c:875-894 | a read has one element for each place, in order, blank where it cannot be copied |
| IndexRanges.WriteArray | Functions/Access.c:1533-1586 | each error leaves the array alone; otherwise the supplied elements stand in the range up to the first that cannot be copied, and everything else is unchanged |
| IndexRanges.ReadAfterWrite | Functions/Access.c:1560-1580 | reading a range after a good write returns what was written; disjoint ranges read as before |
| IndexRanges.WriteBack | Functions/Access.c:1560-1580 | writing back what was read changes nothing |
| ColumnReading.ColumnReader.GetData | Functions/QUERY_SQLVariant.c:92-96 | the driver's contract: segments of 512 elements, one reserved for text, remaining bytes or no total |
| ColumnReading.NumBytesIsDelivered | Functions/QUERY_SQLVariant.c:127-138 | the bytes computed from the marker are exactly those delivered, for every mode and hidden totals |
| ColumnReading.ReadColumn | Functions/QUERY_SQLVariant.c:66-207 | the segment loop returns null, exactly the bytes, or exactly the text to its first terminator, and fails exactly when a call it makes fails |
| ColumnReading.ExactIff | Functions/QUERY_SQLVariant.c:172-207 | a column comes through whole if and only if it is binary or has no terminator inside |
| ColumnReading.CellShows | Functions/QUERY_SQLVariant.c:92-207 | a cell is null if and only if the column has no data; binary data comes whole, text up to its first zero |
| RowFetching.PageIsExact | Functions/QUERY_SQLVariant.c:54-63 | a page holds exactly the next rows and the cursor stands behind them, in both styles |
| RowFetching.FailsIff | Functions/QUERY_SQLVariant.c:96-116 | a page fails if and only if a row in its range cannot be read |
| RowFetching.PageFailsAt | Functions/QUERY_SQLVariant.c:96-116 | after a failure the cursor stands behind the row that failed |
| RowFetching.PageCovers | Functions/QUERY_SQLVariant.c:54-220 | a page takes the cursor forward and holds exactly the rows passed, or fails because one of them cannot be read |
| RowFetching.PageShowsRows | Functions/QUERY_SQLVariant.c:66-210 | row k of a page has one cell for each column, in their order, which shows that column of row k behind the cursor |
| RowFetching.FetchesShowRows | Functions/QUERY_SQLVariant.c:315-345 | the same over any sequence of limits as long as all rows asked for can be read |
| RowFetching.PagesJoinIff | Functions/QUERY_SQLVariant.c:315-345 | for any sequence of limits and both styles the pages join to as many of the next rows as were asked for and there are, in order, none lost or repeated, if and only if all of these can be read |
| RowFetching.FailureSkips | Functions/QUERY_SQLVariant.c:96-116 | after a page that failed the next one starts behind the unreadable row; the rows in front of it, already read, are lost |
| RowFetching.NoMoreMeansAllIff | Functions/QUERY_SQLVariant.c:222-226 | when no more rows are announced, all that the driver yields were delivered if and only if all can be read; that is the whole result if and only if moreover the driver yields all |
| RowFetching.MoreIsExactIff | Functions/QUERY_SQLVariant.c:214-219 | more is never falsely denied, and is exact if and only if the style looks ahead or the result does not end with a full page |
| RowFetching.FetchPage | Functions/QUERY_SQLVariant.c:52-240 | the nested loops over rows and columns compute the page and the cursor |
| RowFetching.FetchMore | Functions/QUERY_SQLVariant.c:319-344 | a limit of zero or above 100 means 100, which is also what a select asks for |
| SqlText.PrintedIsJoin | Functions/DML_SQLVariant.c:357-371 | the parts printed one by one are the joined parts and the end |
| SqlText.BuildInsert | Functions/DML_SQLVariant.c:517-605 | every print has room for its text and terminator; the buffer is exactly the statement and one terminator |
| SqlText.BuildUpdate | Functions/DML_SQLVariant.c:289-379 | the same with an optional where-text |
| SqlText.BuildDelete | Functions/DML_SQLVariant.c:101-115 | the same for a request with a where-text |
| SqlText.InsertIsReadWhole | Functions/DML_SQLVariant.c:607-611 | names without terminators give a text that the driver reads to its end |
| SqlText.UpdateIsReadWhole | Functions/DML_SQLVariant.c:381-393 | the same for updates |
| SqlText.InsertIsReadBack | Functions/DML_SQLVariant.c:517-605 | from an insert the table, the names in order and as many marks can be read back when no name holds a comma |
| SqlText.UpdateIsReadBack | Functions/DML_SQLVariant.c:289-379 | from an update the table, one assignment of a mark for each name in order, and the where-text |
| SqlText.DeleteIsReadBack | Functions/DML_SQLVariant.c:101-115 | a delete names the table first and ends with the where-text |
| OdbcSessions.StepKeeps | Functions/UASQLFunctions.c:37-70 | every call, for every outcome, keeps handles nested, identifiers distinct and every live handle held, refused or lost by a delete |
| OdbcSessions.RunsStaySound | Functions/UASQLFunctions.c:37-432 | the same for every state of every run, deletes and column checks among the calls; handles are forgotten only after a refused free |
| OdbcSessions.StepLoses | Functions/DML_SQLVariant.c:117-134 | a call loses a handle exactly when it is a delete that gets one, and all lost ones are given back when the connection is closed |
| OdbcSessions.HeldOrRefusedAfterIff | Functions/DML_SQLVariant.c:117-134 | in every run every live handle is held by the session or was refused when it was freed if and only if the connection was closed after each delete that got its handle |
| OdbcSessions.DeleteLosesItsHandle | Functions/DML_SQLVariant.c:117-134 | a connection, a statement and a delete, all with success, leave a live handle that nobody holds and nobody refused |
| OdbcSessions.InspectKeeps | Functions/UASQLInternal.c:107-126 | describing a column loses no handle: its statement is freed or refused |
| OdbcSessions.TeardownReleases | SessionManager/SessionManager.c:243-266 | removing a session leaves only refused handles out, and those that deletes lost when the driver does not disconnect; the connection is freed behind everything below it if and only if none of the latter is left |
| OdbcSessions.ConnectsIff | Functions/UASQLFunctions.c:37-70 | a session gets connected if and only if nothing of a connection is there and every call succeeds |
| OdbcSessions.DisconnectUndoesConnect | Functions/UASQLFunctions.c:195-227 | connecting and disconnecting leaves nothing behind |
| OdbcSessions.FreeUndoesAlloc | Functions/UASQLFunctions.c:417-432 | freeing a newly allocated statement gives the table back |
| OdbcSessions.StaysCleanIff | Functions/UASQLFunctions.c:266-268 | buffers come to dangle if and only if a handle is allocated again for a statement with bound parameters |
| OdbcSessions.StaysCleanAfterIff | Functions/UASQLFunctions.c:266-268 | in every run buffers dangle or were freed twice if and only if some allocation met a statement with bound parameters |
| OdbcSessions.ReallocationLeavesDangling | Functions/UASQLFunctions.c:266-268 | connecting, allocating, binding and allocating again is such a run |
| OdbcAnswers.AllocAnswers | Functions/UASQLFunctions.c:261-283 | for every identifier, old or new, the statement found under it afterwards holds a new live handle if and only if the driver gave one; its former handle is gone or refused, every other statement and handle stays |
| OdbcAnswers.FreeAnswers | Functions/UASQLFunctions.c:417-432 | the statement goes, its handle is gone or refused, every other statement and handle stays |
| OdbcAnswers.BindAnswers | Functions/UASQLFunctions.c:365-383 | binding leaves the statement with buffers, resetting without unless the driver refuses, and nothing else changes |
| OdbcAnswers.NothingHappens | Definitions/id_opcua_db_private.h:9-28 | without an activated session, a connection or the statement a call changes nothing |
| OdbcAnswers.DisconnectAnswers | Functions/UASQLFunctions.c:195-227 | a connected session, whatever statements it has, has none afterwards; when the driver disconnects no statement is out, and the connection and then the environment go unless refused |
| OdbcAnswers.ConnectAnswers | Functions/UASQLFunctions.c:37-70 | a session without a connection is afterwards connected with a new environment and connection, or has nothing, and what the driver had given is gone or refused |
| OdbcAnswers.ConnectAgainAnswers | Functions/UASQLFunctions.c:55-70 | a session that holds something without being connected gives it up; a connected one stays as it is |
| OdbcSessions.DbSession.DoConnect | Functions/UASQLFunctions.c:37-70 | the new fields for every outcome |
| OdbcSessions.DbSession.DoDisconnect | Functions/UASQLFunctions.c:195-227 | the new fields for every outcome |
| OdbcSessions.DbSession.DoAllocHandle | Functions/UASQLFunctions.c:261-283 | an existing identifier is reused in place, a new one appended |
| OdbcSessions.DbSession.DoFreeHandle | Functions/UASQLFunctions.c:417-432 | the statement goes, the later ones move down |
| OdbcSessions.DbSession.DoDelete | Functions/DML_SQLVariant.c:66-118 | the driver gives a statement that the session keeps nowhere, and nothing else changes |
| OdbcSessions.DbSession.TearDown | SessionManager/SessionManager.c:243-266 | statements first, then the connection, then the environment |
| Sessions.GateOpensIff | Functions/ExposedFunctions.h:16-40 | the gate opens if and only if a live, activated session with the token is on the channel within its timeout and the request is stamped; its idle time is then zero and nothing else changed |
| Sessions.GateEvicts | Functions/ExposedFunctions.h:29-34 | a session that is not activated is removed at the gate; its continuation points go, exactly these if and only if none is shadowed by a foreign one |
| Sessions.TickExactly | SessionManager/SessionManager.c:186-211 | a session survives a tick if and only if it was skipped or is within its timeout, and ages if and only if it was not skipped; skipped means the one before it was removed |
| Sessions.TickCatchesUp | SessionManager/SessionManager.c:186-211 | time that ran while the table was being changed is added by the next tick |
| Sessions.BusyStays | SessionManager/SessionManager.c:195-208 | a session that is being made or removed does not age |
| SessionRuns.StepKeeps | Functions/Session.c:86-187 | every call keeps tokens and identifiers distinct, nodes owned and idle times bounded |
| SessionRuns.StartIsHealthy | SessionManager/SessionManager.c:36-51 | a server without sessions on any address space that is in order is a start |
| SessionRuns.RunsStayHealthy | SessionManager/SessionManager.c:102-275 | over every run each live session owns one object node, no removed one does, and nobody has idled longer than since the last accepted contact |
| SessionRuns.TimerIsPatient | SessionManager/SessionManager.c:195-208 | the timer removes a session only after more than its timeout since the last accepted contact |
| Orphans.OrphanedIff | SessionManager/SessionManager.c:186-211 | in every run an outstanding continuation point has outlived its session if and only if a tick removed the session |
| Orphans.StepOrphans | Functions/Session.c:549-553 | no call brings a gone session back; only a tick leaves points of a session that it removes, and it leaves them all |
| SessionRuns.ExactAfterIff | SessionManager/SessionManager.c:195-208 | while a session lives, its idle time is exact after a step if and only if the step is an accepted contact, or it was exact and no tick passed the session over |
| SessionRuns.CreatedIsExact | Functions/Session.c:86-90 | every session starts exact |
| SessionRuns.ExactIffNotPassedOver | SessionManager/SessionManager.c:195-208 | over any stretch of a run idle time is exact at the end if and only if every tick that passed the session over was followed by an accepted contact |
| SessionRuns.ActivationOpensGate | Functions/Session.c:466-505 | a new session passes the gate only once it is activated, and then on its own channel, whichever channel activated it |
| SessionAnswers.GateAnswers | Functions/ExposedFunctions.h:16-40 | on another channel the gate changes nothing; on its own a session that is not activated goes with its node, and otherwise only the idle time is reset, with or without a time stamp |
| SessionAnswers.UnknownIsRefused | Functions/ExposedFunctions.h:17-21 | a token that no live session has is refused by gate, closing and activation, and nothing changes |
| SessionAnswers.CloseAnswers | Functions/Session.c:536-553 | a session closes if and only if it is activated, on its channel and the call has a time stamp; else at most its idle time is reset |
| SessionAnswers.TransferAnswers | Functions/Session.c:396-464 | an activated session moves if and only if policy and transfer are accepted and the channel is another one; then only its channel and idle time change |
| SessionAnswers.ActivationAnswers | Functions/Session.c:466-505 | another session becomes activated if and only if policy, time stamp and identity are accepted; its channel stays |
| SessionAnswers.TransferMovesGate | Functions/Session.c:457-459 | after a transfer the gate opens on the new channel and is shut on the old one |
| SessionAnswers.CreateAnswers | Functions/Session.c:76-187 | a new session stands at the end, on the calling channel, not activated, with two new identifiers and an object node of its name; a failed creation leaves the table as it was |
| SessionAnswers.FaceOverRun | Functions/Session.c:457-505 | over any stretch of a run a session is on the channel of its last transfer, or where it was, and is activated if and only if it was or some call activated it |
| SessionAnswers.CreatedFace | Functions/Session.c:86-90 | a session starts on the channel of its creation, not activated |
| SessionRuns.ClosedSessionLeavesNoTrace | Functions/Session.c:536-553 | after create, activate and close the table is as before and the token opens nothing; the address space is as before if and only if no modelling rule named the session's identifier |
| SessionManagers.SessionManager.GetSession | SessionManager/SessionManager.c:58-75 | the last session with the token that has not idled too long |
| SessionManagers.IsSessionValid | SessionManager/SessionManager.c:77-100 | validity, and the reset of the idle time on success only |
| SessionManagers.AddSession | SessionManager/SessionManager.c:102-184 | two fresh indexes, a new entry under construction and its object node |
| SessionManagers.RemoveSession | SessionManager/SessionManager.c:213-275 | the first session with the token goes with its node, the later ones move down |
| SessionManagers.ValidateSessionLifetime | SessionManager/SessionManager.c:186-211 | the loop over a shrinking table computes the tick |
| SessionManagers.CreateSession | Functions/Session.c:71-187 | a session that fails a check is removed again |
| SessionManagers.ActivateSession | Functions/Session.c:392-505 | activation, transfer to another channel, and each refusal |
| SessionManagers.CloseSession | Functions/Session.c:536-553 | continuation points and session go, or the call is refused |
| SessionManagers.CheckSession | Functions/ExposedFunctions.h:16-40 | the gate on the real tables, with its side effects |

## Left out

- The OPC stack, sockets, secure channels, certificates and signatures: outcomes of checks are boolean inputs.
- ODBC itself, cJSON, Base64 and the conversion between wide and narrow text: the driver is a small class with a contract, and rows, columns and texts are given directly.
- The constant tables of the address space, discovery and the unimplemented services: they hold no property beyond their data.
- Values and the other attributes of nodes, variant copying per data type and the scalar cases of Read and Write: one branch each; an array element is one abstract value that may have no copy function.
- Alias numbering: the alias table is a partial map that is given; paging is stated for aliases that lead to a node which is not an alias itself.
- Result masks of Browse: a result is the reference that matched, so the wrong comparison at `Functions/Access.c:116` when the type definition is looked up is not modelled; the check of a view in front of Browse and the loops of the services over several requests are left out too.
- The write beyond the last continuation point at `Indexer/Continuer.c:139`: memory outside the table is not modelled.
- The wrappers that pass a pointer into the node being destroyed (`AddressSpace/AddressSpace.c:547-584`): RemoveNode is modelled for an identifier of its own.
- The custom free functions of nodes, AnalyzeConflicts, the construction of the fast list from fixed identifiers, CloneMethod's remapping of argument nodes, and the secure-channel association table: easy members beside the ones modelled.
- Thread interleavings and mutexes: every call is one step.
- Memory: the capacity of the node array is a number beside a sequence; a node's references, the continuation points, the sessions and the statements are sequences that are updated in place. Allocation never fails.
- A request with "query" that is not a text and a delete without one take the length of a missing string (`Functions/DML_SQLVariant.c:101-102`): the builders are modelled for requests whose texts are there. Connect for an unknown token reads through a null session at its end, so it is modelled for known sessions.
- 32-bit sizes of statement buffers, of reference counts and of offsets: unbounded here, except that removals ask for fewer than 2^32 references and nodes because their indexes step back through zero.
- IndexRanges.ReadRange: an empty range string makes the source read one element into an array of none, which is not modelled; `InBoundsIff` names that case. Numbers are read with 64-bit longs, as on Linux.
- IndexRanges.WriteArray: is stated for writes that touch existing places only, which the source does not check; `IndexRanges.WriteInBoundsIff` says exactly when that is so.
- CloneOperations.CloneSubtree: is stated for an index counter that stays below 2^32; `Indexing.WrappedSearchAgrees` says that the two searches agree exactly there.
- CloneOperations.CreateFromType: is stated below the same limit.
- SessionManagers.AddSession: is stated below the same limit.
- TypeBuilders.CreateTypeNode: the enumeration property and the encoding object of a data type are left out.
- Continuing.Continuer.AddContinuationPoint: points are values in the table, so that the pointer a caller keeps to one is its place.
- SessionManagers.CreateSession: the crypto branches are one boolean; nonces and certificates are not modelled.
- SessionManagers.RemoveSession: the teardown of the database connection is `OdbcSessions.Teardown`, on a state of its own.
- SqlText.BuildDelete: a delete without a where-text takes the length of a missing string and is not modelled.
- Indexing.IssueIsFresh: is about the counter without a limit, which clones and sessions use; `Indexing.AllocationsCollideIff` is about the wrapping one.
- AddressSpaces.AddressSpace.AddNode: creation and the assignment of the identifier are one step.
- AddressSpaces.AddressSpace.InsertFast: the growth of the fast list's memory is left out.
- Browsing.Browse: the check of a view is left out.
- ColumnReading.ReadColumn: a failing conversion of the text is left out.
- RowFetching.FetchPage: a failing scroll back to the start is left out.
- IndexRanges.ConstructRange: reading a number is the function `ParsesExactlyIff` is about, not a loop.
- SessionManagers.ActivateSession: the outcomes of the security checks are booleans.

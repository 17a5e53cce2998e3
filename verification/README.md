# Policy discovery, modelled and proved

This project models the parts of the policy discovery engine that hold state and decide what is
granted, and proves what they promise. The modules follow the program's components.

- **Path tries.** `Paths` defines tokens, wildcards and the orders used for sorting. `SysTrie`,
  `SysForest` and `SysNode` are the file path trie: values, the declarative cut, and the tree in
  place. `HttpTrie`, `HttpForest` and `HttpNode` are the HTTP path trie, whose trees live on between
  rounds; `HttpExact` says exactly which paths it covers, `HttpCollapse` when siblings become a wildcard
  and when they stay. The ghost list of arrivals at each node stands for the touch counter.
- **File sets.** `DirPath` is `filepath.Dir`; `FileSet` says what one update makes of the stored and
  observed resources and what holds after any number of updates; `FileSetUpdate` holds the loops and
  `FileSetStore` the stored sets of all workload processes; `FileSetLogs` says what they mean for the logs.
- **Deployment.** `Deployment` is the protocol between discovery, user, reconciler and delete watcher
  as interleaved single accesses to the API server, with reads as old as the run; `JsonPatch` is the merge
  patch those accesses use (section 2 of RFC 7396); `DeploymentServer` holds the handlers themselves.
- **Summaries.** `Summary` and `SummaryStore` count alerts, move the counters out and re-key them by
  aggregated paths; `SummaryKeys` says under which path an alert is counted.
- **System policies.** `SysPolicies` and `SysPolicyMerge` merge rules and policies; `KubeArmor`
  translates them and extracts the Kubernetes ones.
- **Labels.** `LabelText`, `Labels`, `LabelCounts` and `SrcAggregation` enumerate label combinations,
  count them and replace sources by them.
- **Network policies.** `NetPolicies` gives policies a meaning; `NetMerge` and `NetDiscovery` build
  them from logs, and `NetGrants` says what they grant in terms of the logs; `Cilium` translates them.

Methods with loops are proved against specification functions or predicates; the main theorems are
lemmas about those, for all inputs, all runs or all reachable states.

## Where the code and its comments or its intent differ

The model follows the code. For each difference a lemma gives a concrete input or run, and another the
exact condition under which the intended property holds.

- `strconv.Atoi` accepts a sign, so signed numbers become the digit wildcard, which finds none of them
  (`HttpForest.SignedNumbersAreLost`; exact: `HttpExact.CoveredAlwaysExactly`, and for one step
  `HttpTrie.CollapseCoversExactly`).
- A segment spelled like the digit wildcard is taken for it (`HttpForest.LiteralDigitsAreLost`; exact:
  `HttpExact.CoveredAlwaysExactly`, and for one step `HttpTrie.InsertCoversExactly`).
- The HTTP trie reads the first token of a path without a check and panics if there is none
  (`HttpForest.RelativePathIsUnusable`, `HttpNode.PathForest.BuildPathTree`; exact: `Paths.NoTokenExactly`).
- In the file trie a segment spelled like a wildcard swallows siblings or does not find itself
  (`SysForest.LiteralWildcardSwallows`, `SysForest.LiteralDigitsRepeat`; exact:
  `SysForest.BuiltThroughoutExactly`, `SysTrie.InsertExact`).
- A file that is an ancestor of another observed file, and the file `/tmp`, are not covered by the
  stored set (`FileSet.ObservedAncestorIsLost`, `FileSet.TmpFileIsLost`; exact: `FileSet.CoverageIsExact`).
- A resource such as `/procfoo`, which only begins like `/proc` or `/sys`, is replaced by that directory and
  is not covered (exact, for a single file: `FileSetLogs.OneFileCoveredExactly`; in runs:
  `FileSetLogs.NamedStaysCovered`).
- A delete event that is pending, or a reconcile under way that read the record as inactive, turns an
  activation back (`Deployment.ActivationCanBeLost`, `Deployment.StaleReadLosesActivation`; exact:
  `Deployment.ActivationSurvivesExactly`).
- A reconcile that read the record as inactive makes a second delete possible once user and discovery are
  quiet (`Deployment.DeletedTwice`; exact: `Deployment.SecondDeleteExactly`).
- A patch computed from an old reading of the deployed object can deploy a spec that was never stored
  (`Deployment.MixedSpecIsDeployed`; exact: `Deployment.DeployedWasApproved`).
- Discovery sends a policy as a merge patch, so a field that is no longer found stays, and every rediscovery
  writes again (`Deployment.DroppedFieldStays`; exact: `Deployment.UpdateSettlesExactly`).
- The type tag of Kubernetes network policies is not among those the rules are compared for, so every
  rediscovery demotes an active record (`Deployment.RediscoveryDemotes`; exact:
  `Deployment.RediscoveryDemotesExactly`). For the tag compared in its place nothing is decoded, and the
  comparison panics; no caller passes it.
- Merging an unconditional rule with a conditional one for the same name loses the unconditional
  permission (`SysPolicies.UnconditionalIsLost`; exact: `SysPolicies.PermissionsKeptExactly`).
- A rule of the same peer for another port takes the HTTP rules from an earlier rule
  (`NetMerge.OtherPortLosesHttp`; exact: `NetMerge.HttpKeptExactly`, `NetMerge.HttpAfterMergesExactly`).
- A rule for an address range is dropped when any rule is for its port (`NetMerge.AddressIsLost`; exact:
  `NetMerge.AddressKeptExactly`).
- Of two aggregated paths that stand for one destination, which can be if a segment is two slashes, the first
  is taken (`Summary.TwoMatches`; otherwise there is one: `Summary.OneMatch`).
- Pod name and process are joined with an underscore, so two processes may share the key their paths are
  aggregated under (`SummaryKeys.KeysCollide`; exact: `SummaryKeys.KeysMeetExactly`).
- The translation to Cilium drops CIDR exceptions, all but the last CIDR spec of an egress rule, all but
  the first kind of egress peer, and egress ports without a number (`Cilium.ExceptionIsDropped`,
  `Cilium.EarlierCidrIsDropped`, `Cilium.SecondPeerKindIsDropped`, `Cilium.PortWithoutNumberIsDropped`;
  exact: `Cilium.EgressPreservedExactly`).
- The comments at src/networkpolicy/networkPolicy.go:1816-1823 announce an egress policy for the source;
  the code selects the labels of the destination for it and those of the source for the ingress policy
  (`NetDiscovery.ClientToServer`; exact: `NetDiscovery.EgressSelectsDestination`).

## Model

| member | source | states |
|---|---|---|
| HttpForest.EveryPathIsCovered | src/networkpolicy/httpAggregator.go:348-415 | completeness: after any number of rounds on the persistent map of trees, every path ever inserted leads to a printed pattern, and matches it, segment by segment, if its first segment is not spelled like the digit wildcard and its others are safe; whatever else was inserted |
| HttpExact.CoveredAlwaysExactly | src/networkpolicy/httpAggregator.go:348-415 | a path is covered in every run that inserts it exactly then |
| HttpForest.EveryPatternIsJustified | src/networkpolicy/httpAggregator.go:158-178 | soundness: after any number of rounds, every printed pattern stems from an inserted path of its length, which matches it if its segments are of that kind |
| HttpExact.JustifiedAlwaysExactly | src/networkpolicy/httpAggregator.go:158-178 | of given paths every run prints only patterns that some inserted path matches exactly when all of them are of that kind |
| HttpForest.CountsAreConserved | src/networkpolicy/httpAggregator.go:148-250 | over any number of rounds, whatever was inserted, the counts of the paths that ended at the nodes of a tree add up to the number of inserted paths with that first segment; aggregation leaves root counts alone |
| HttpForest.ResiduesAddUp | src/networkpolicy/httpAggregator.go:148-156 | in every tree of the invariant a node counts at least what its children count, and the differences add up to the count of the root |
| HttpForest.PlainForestPrintsItsPaths | src/networkpolicy/httpAggregator.go:387-415 | with no wildcard, and at every node not more children than the threshold or children of different length, a round changes no tree and prints exactly the inserted paths |
| HttpCollapse.SiblingsStay | src/networkpolicy/httpAggregator.go:203-250 | siblings of different length, or not more than the threshold, stay: as many, with their texts and arrivals, each aggregated by itself |
| HttpCollapse.SiblingsCollapse | src/networkpolicy/httpAggregator.go:203-250 | more siblings than the threshold, all of one length, become one: the digit wildcard if all are short numbers, the other wildcard if one cannot be a number |
| HttpCollapse.RoundOnSiblings | src/networkpolicy/httpAggregator.go:387-415 | both, in any round of any run, at the root of any tree |
| HttpCollapse.SiblingBatchIsKept | src/networkpolicy/httpAggregator.go:387-415 | a batch of two-segment paths with one first segment, whose second segments differ in length or are not more than the threshold, is printed as it is |
| HttpCollapse.SiblingBatchCollapses | src/networkpolicy/httpAggregator.go:387-415 | otherwise one pattern is printed for it, with a digit or another leaf wildcard |
| HttpCollapse.SixPathsStay | src/networkpolicy/httpAggregator.go:217 | six paths below /api of different length, at the default threshold of five, are printed as they are |
| HttpCollapse.SixPathsCollapse | src/networkpolicy/httpAggregator.go:217-249 | six of one length become the one pattern /api/.[^/]+ |
| HttpForest.SignedNumbersAreLost | src/networkpolicy/httpAggregator.go:331-342 | counterexample: four signed numbers below one segment become the digit wildcard, and no printed pattern matches any of them |
| HttpForest.LiteralDigitsAreLost | src/networkpolicy/httpAggregator.go:158-178 | counterexample: a segment spelled like the digit wildcard is taken for one, and the printed pattern does not match its path |
| HttpTrie.CollapseExact | src/networkpolicy/httpAggregator.go:209-249 | replacing siblings by one wildcard leaves all arrivals matching exactly when the digit wildcard is not chosen for a segment that is not an unsigned number |
| HttpTrie.CollapseCompleteExactly | src/networkpolicy/httpAggregator.go:209-249 | when all arrivals match, every arrival at the wildcard matches a pattern printed below it exactly then; otherwise some arrival matches none |
| HttpTrie.CollapseCoversExactly | src/networkpolicy/httpAggregator.go:209-249 | in trees of any run, replacing siblings uncovers no path exactly when the digit wildcard is not chosen for a child that covers some path and is not an unsigned number |
| HttpTrie.InsertKeepsWF | src/networkpolicy/httpAggregator.go:180-201 | inserting any path keeps the invariant: at every node the paths that go on are exactly, as a multiset, the arrivals at the children, and an arrival mismatches only at the digit wildcard and only with an unsafe segment |
| HttpTrie.InsertExact | src/networkpolicy/httpAggregator.go:180-201 | the exact step: all arrivals still match after an insertion if and only if the path matches the node and no new child is spelled like the digit wildcard |
| HttpTrie.InsertCoversExactly | src/networkpolicy/httpAggregator.go:180-201 | in trees of any run, the inserted path is covered if and only if it lands so or was covered before |
| HttpTrie.MergeKeepsWF | src/networkpolicy/httpAggregator.go:269-315 | uniting siblings with equal text keeps the invariant, in any order of the hash map |
| HttpTrie.AggregateKeepsWF | src/networkpolicy/httpAggregator.go:203-250 | aggregating a whole tree keeps the invariant and the arrivals at its root, and leaves all arrivals matching if they are safe |
| HttpTrie.Complete | src/networkpolicy/httpAggregator.go:158-178 | every arrival at a node leads to a pattern printed below it, which it matches unless it is excused |
| HttpTrie.Sound | src/networkpolicy/httpAggregator.go:158-178 | every pattern printed below a node stems from an arrival at it, which matches it unless it is excused |
| HttpTrie.PrintedArePatterns | src/networkpolicy/httpAggregator.go:158-178 | the printed texts are exactly the renderings of the patterns |
| HttpNode.Node.FindChildNode | src/networkpolicy/httpAggregator.go:252-267 | returns the first child whose wildcard finds the whole segment or whose text equals it, and nothing if there is none |
| HttpNode.Node.Insert | src/networkpolicy/httpAggregator.go:180-201 | the tree in place becomes the tree with the path inserted; nothing outside it changes |
| HttpNode.Node.MergeSameChildNodes | src/networkpolicy/httpAggregator.go:269-315 | the children in place become one child for each text, with summed counters and pooled grandchildren, or stay as they are if all texts differ |
| HttpNode.GroupChildren | src/networkpolicy/httpAggregator.go:274-296 | the first loop of the merge pools, for each text and depth, the grandchildren and the counters, and notices exactly the repeated texts |
| HttpNode.RebuildChildren | src/networkpolicy/httpAggregator.go:303-314 | the second loop makes one new child for each text, sharing no node, in whatever order the hash map gives |
| HttpNode.Node.Collapse | src/networkpolicy/httpAggregator.go:209-249 | children above the threshold and of one length are replaced by the one wildcard child that holds all their counters and merged grandchildren; otherwise nothing changes; what this means is SiblingsStay and SiblingsCollapse |
| HttpNode.Node.AggregateChildNodes | src/networkpolicy/httpAggregator.go:203-250 | the tree in place becomes an aggregation of the old tree, children first |
| HttpNode.Node.GetChildNodesCount | src/networkpolicy/httpAggregator.go:148-156 | the number of arrivals at the children |
| HttpNode.Node.GeneratePaths | src/networkpolicy/httpAggregator.go:158-178 | adds exactly the texts of the subtree to the result map |
| HttpNode.CheckSamePathLength | src/networkpolicy/httpAggregator.go:321-329 | true exactly when all texts have one length |
| HttpNode.CheckDigitsOnly | src/networkpolicy/httpAggregator.go:331-342 | true exactly when strconv.Atoi accepts every text without its slash |
| HttpNode.PathForest.BuildPathTree | src/networkpolicy/httpAggregator.go:348-381 | inserts every path but "/" in sorted order; panics exactly when another path has no token |
| HttpNode.PathForest.AggregateRoots | src/networkpolicy/httpAggregator.go:392-394 | aggregates every tree, in any order of the map |
| HttpNode.PathForest.AggregatePaths | src/networkpolicy/httpAggregator.go:387-415 | one round: the new map of trees, the printed texts once each, then "/" as often as it was given |
| HttpNode.PathHistory.AggregatePaths | src/networkpolicy/httpAggregator.go:387-415 | the trees over all calls: every path of this and all earlier calls with safe segments matches a listed pattern, whatever else was inserted, and every listed pattern stems from one of the paths |
| HttpForest.RelativePathIsUnusable | src/networkpolicy/httpAggregator.go:362-364 | counterexample: a path without a slash has no token |
| Paths.NoTokenExactly | src/networkpolicy/httpAggregator.go:362-364 | a text has no token, at which the HTTP trie panics, exactly when no slash in it is followed by a character other than a newline |
| SysForest.AggregationIsTheCut | src/common/pathAggregator.go:148-268 | refinement: the leaves of the aggregated trees are exactly the cuts of the set of inputs, the shallowest prefix with more than three child segments or the path itself, so order and repetition do not matter; for every forest that is built right |
| SysForest.BuiltThroughoutExactly | src/common/pathAggregator.go:148-190 | the forest is right after every path exactly when every path is placed: at each level the search finds the child with its very text or there is none, or nothing needs inserting |
| SysForest.PlainIsPlaced | src/common/pathAggregator.go:127-142 | without literal wildcards below the first segment every path is placed |
| SysTrie.LeavesAreCuts | src/common/pathAggregator.go:62-112 | the leaves of an aggregated subtree are the cuts of the paths below its prefix |
| SysTrie.InsertHolds | src/common/pathAggregator.go:77-98 | a node holding a set of remainders holds one more after an insert that lands at the child of the same text on every level |
| SysTrie.InsertExact | src/common/pathAggregator.go:77-98 | the exact step: the set held grows by the remainder if and only if the remainder is placed |
| SysTrie.CutExists | src/common/pathAggregator.go:100-112 | a path has a cut unless another path continues it and no prefix of it has too many children |
| SysTrie.CutUnique | src/common/pathAggregator.go:100-112 | the cut is a function of the path |
| SysTrie.CutsAreSeparate | src/common/pathAggregator.go:100-112 | no two cuts of one set are nested |
| SysForest.OutputsAreSeparate | src/common/pathAggregator.go:219-268 | at most one printed output covers any path, /tmp included |
| SysForest.DirectoryFromFourFiles | src/common/pathAggregator.go:100-112 | up to three files of a directory are listed as they are, four or more become the directory, and so does any number of files in /tmp |
| SysForest.OutputIsPrinted | src/common/pathAggregator.go:62-75 | every output is in the printed map under its text, with its directory flag |
| SysForest.PrintedIsOutput | src/common/pathAggregator.go:62-75 | the printed map holds nothing else |
| SysForest.LiteralWildcardSwallows | src/common/pathAggregator.go:127-142 | counterexample: a segment that is literally ".+" swallows its siblings |
| SysForest.LiteralDigitsRepeat | src/common/pathAggregator.go:127-142 | counterexample: the literal "[0-9]+" does not find itself, so one file given four times becomes its directory |
| SysForest.LoneWildcardIsBuilt | src/common/pathAggregator.go:127-142 | a literal wildcard by itself does no harm |
| Paths.TokenizeConcat | src/common/pathAggregator.go:149-165 | tokenizing undoes concatenation for all tokens the expression can match |
| Paths.UnderDirectory | src/systempolicy/systemPolicy.go:1356-1371 | a text lies below a directory text exactly when the tokens of the directory are a proper prefix of its own |
| Paths.LexLessExactly | src/systempolicy/systemPolicy.go:1281-1283 | the order of sorting: a text comes before those it begins, and otherwise the lesser character decides where two first differ |
| SysNode.Node.FindChildNode | src/common/pathAggregator.go:127-142 | returns the first child whose wildcard finds the segment or whose text equals it |
| SysNode.Node.Insert | src/common/pathAggregator.go:77-98 | the tree in place becomes the tree with the remaining segments inserted |
| SysNode.Node.AggregateChildNodes | src/common/pathAggregator.go:100-112 | the tree in place becomes the aggregated tree, children first |
| SysNode.Node.GeneratePaths | src/common/pathAggregator.go:62-75 | adds exactly the leaves of the subtree, with their flags, to the result map |
| SysNode.TreeMap.BuildPathTree | src/common/pathAggregator.go:148-190 | builds the trees of the sorted paths, everything below /tmp going to /tmp itself |
| SysNode.TreeMap.AggregateRoots | src/common/pathAggregator.go:239-241 | aggregates every tree, in any order of the map |
| SysNode.TreeMap.PrintRoots | src/common/pathAggregator.go:249-252 | prints every tree into one map, in any order |
| SysNode.AggregatePaths | src/common/pathAggregator.go:219-268 | the results are exactly the declarative cut of the set of inputs, each output once, directories with a closing slash |
| DirPath.DotsVanish | src/common/pathAggregator.go:209-213 | in the cleaning a dot stands for nothing, and two dots take back the name before them |
| DirPath.DirOfNames | src/common/pathAggregator.go:209-213 | filepath.Dir of a clean file is the path without its last segment, or the root |
| FileSetUpdate.RemoveDuplicates | src/systempolicy/systemPolicy.go:1281-1293 | strictly sorted, and exactly the given elements but the empty text |
| FileSetUpdate.MergeFileInDir | src/common/pathAggregator.go:195-217 | the directories, and in order the files whose own directory is not among them |
| FileSetUpdate.AggregatePathsExt | src/common/pathAggregator.go:318-342 | for clean paths the strictly sorted list of the given directories and the aggregated remaining files; for all paths no given directory is dropped |
| FileSetUpdate.LenSortStable | src/systempolicy/systemPolicy.go:1351-1353 | the stable sort by length of a sorted list is ordered by length and then by text |
| FileSetUpdate.RemoveBelow | src/systempolicy/systemPolicy.go:1358-1369 | the inner prune loop deletes exactly what lies below the directory at position i, and ends |
| FileSetUpdate.PruneBelowDirectories | src/systempolicy/systemPolicy.go:1355-1371 | the outer prune loop leaves, in order, exactly the elements below no directory of the list, and ends |
| FileSetUpdate.PrunedList | src/systempolicy/systemPolicy.go:1355-1371 | nothing remains below a remaining directory, and everything removed lies below one that remains |
| FileSetUpdate.SurvivorsStayOrdered | src/systempolicy/systemPolicy.go:1351-1371 | pruning keeps the order by length and text |
| FileSetUpdate.UpdateList | src/systempolicy/systemPolicy.go:1345-1371 | one update gives exactly the list the specification of an update describes; network sets are only sorted and pruned |
| FileSet.UpdateIsCanonical | src/systempolicy/systemPolicy.go:1345-1371 | the result of an update depends only on the set of stored and observed resources |
| FileSet.CoverageIsExact | src/systempolicy/systemPolicy.go:1345-1371 | exactly which clean files an update leaves covered: below a listed directory, below /tmp, below an ancestor with too many children, or continued by no other remaining file |
| FileSet.AncestorIsLost | src/common/pathAggregator.go:62-75 | counterexample: a file that another observed file continues is not covered, whatever the two names |
| FileSet.ObservedAncestorIsLost | src/common/pathAggregator.go:62-75 | for example /a when /a/b is observed too |
| FileSet.TmpFileIsLost | src/common/pathAggregator.go:169-177 | counterexample: the file /tmp becomes the directory |
| FileSet.PruningKeepsCoverage | src/systempolicy/systemPolicy.go:1355-1371 | pruning covers and uncovers nothing |
| FileSet.ObservedStaysCovered | src/systempolicy/systemPolicy.go:1296-1396 | coverage over all runs: every resource ever observed is stored or below a stored directory, unless it is the file /tmp or an ancestor of another observed file |
| FileSet.StoredDirectoriesStayCovered | src/systempolicy/systemPolicy.go:1296-1396 | a directory once stored stays covered for ever |
| FileSet.StoredFilesWereObserved | src/systempolicy/systemPolicy.go:1296-1396 | over all runs, every stored file was observed as it is |
| FileSet.StoredDirectoriesAreJustified | src/systempolicy/systemPolicy.go:1296-1396 | over all runs, every stored directory was observed, or stands for /tmp, or has more than three different next segments among the observed files |
| FileSet.UpdateSettles | src/systempolicy/systemPolicy.go:1345-1371 | every update leaves a list that is sorted, not nested, and whose files no longer cut each other |
| FileSet.SettledIsFixpoint | src/systempolicy/systemPolicy.go:1345-1378 | a settled list is a fixpoint for stored elements and for files whose own directory is stored |
| FileSet.ReobservingChangesNothing | src/systempolicy/systemPolicy.go:1372-1388 | after any run, observing nothing new gives the same sequence again, so the comparison reports no change |
| FileSetStore.ResourcesAreClean | src/systempolicy/systemPolicy.go:1261-1279 | clean logs give clean resources, the /proc and /sys directories included |
| FileSetStore.GroupResources | src/systempolicy/systemPolicy.go:1305-1332 | collects, for each workload process with a known pod, exactly its resources in order |
| FileSetStore.Store.UpdateOne | src/systempolicy/systemPolicy.go:1341-1388 | merges the resources into one stored list and reports whether it is new or changed |
| FileSetStore.Store.GenFileSet | src/systempolicy/systemPolicy.go:1296-1396 | updates exactly the lists the logs concern, keeps the history that coverage is proved from and the resources the logs named, what is observed being /proc/ or /sys/ for texts that begin like it and the resource itself otherwise, and reports whether any list is new or changed |
| FileSetStore.StoreCoversObserved | src/systempolicy/systemPolicy.go:1296-1396 | whatever calls were made, a stored list covers every clean resource observed for it, with the same two exceptions |
| FileSetStore.NothingNewNoChange | src/systempolicy/systemPolicy.go:1372-1388 | a call that observes nothing new leaves the stored list as it is |
| FileSetLogs.WorkloadOfLog | src/systempolicy/systemPolicy.go:1305-1322 | a log concerns the workload process of its own cluster, container, namespace and source with the labels of the first pod of its name and namespace, and one label more in the container namespace; none only if no pod is known |
| FileSetLogs.NamedStaysCovered | src/systempolicy/systemPolicy.go:1296-1396 | said of the logs: after any calls the stored list covers every resource that a log of the workload process ever named, if it is a directory or a leaf and does not only begin like /proc or /sys |
| FileSetLogs.StoredIsNamed | src/systempolicy/systemPolicy.go:1296-1396 | conversely, every stored file was named by a log, and for every stored directory a log named something at or below it, or a text that stands for it |
| FileSetLogs.OneFileCoveredExactly | src/systempolicy/systemPolicy.go:1268-1275 | the exact exception for a single file: it is covered if and only if it is not /tmp and not a text like /procfoo, which only begins like /proc or /sys |
| FileSetLogs.ProtocolsAccumulate | src/systempolicy/systemPolicy.go:1263-1267 | a call for network logs leaves exactly the protocols stored before and those its logs show, each once, shorter ones first |
| Deployment.DeployedWasApproved | pkg/discoveredpolicy/controllers/policy_deployment.go:86-124 | safety in every interleaving: whenever a step puts a spec in place it deploys a policy that was stored throughout a stretch of the run that began with the user setting the status to Active; what is in place is the spec of that policy exactly when the deployed object has the fields the patch leaves out, in particular when the reading of it is up to date |
| Deployment.MixedSpecIsDeployed | pkg/discoveredpolicy/controllers/policy_deployment.go:107-117 | counterexample run: a patch computed from an old reading puts in place a spec that was never stored |
| JsonPatch.PatchRoundTrip | pkg/discoveredpolicy/controllers/policy_deployment.go:111-113 | the patch computed from a document turns that document into the goal |
| JsonPatch.PatchReachesGoalExactly | pkg/discoveredpolicy/controllers/policy_deployment.go:111-113 | it turns another document into the goal exactly when that one agrees with the goal wherever the first does |
| JsonPatch.SentWholeExactly | src/cluster/dspHandler.go:122-125 | a document sent as a merge patch is stored exactly when the present one has no field that it lacks |
| Deployment.ActiveMeansApproved | src/cluster/dspHandler.go:76-132 | whenever the status is Active the user set it so for the very policy that is stored: no write that changes the policy leaves it Active |
| Deployment.JobWasStored | pkg/discoveredpolicy/controllers/discoveredpolicy_controller.go:38-58 | the record a reconcile works on was stored at an earlier moment |
| Deployment.QuietRunsEnd | pkg/discoveredpolicy/controllers/policy_deployment.go:52-124 | termination: with user and discovery quiet, every schedule of reconcile and watcher steps changes something only as often as a potential of its start allows |
| Deployment.QuietStepDecreases | pkg/discoveredpolicy/controllers/policy_watchers.go:97-122 | every visible quiet step uses up potential and no quiet step adds any, reads in flight included |
| Deployment.WritesAreBounded | pkg/discoveredpolicy/controllers/policy_deployment.go:76-108 | a quiet run from any state creates at most once and deletes at most once, or twice from a state in which a second delete is possible |
| Deployment.SecondDeleteExactly | pkg/discoveredpolicy/controllers/policy_deployment.go:59-108 | some quiet run from a state deletes more than once exactly when a reconcile under way read the record as inactive and will delete, and the record is active with a policy that can be deployed |
| Deployment.DeletedTwice | pkg/discoveredpolicy/controllers/policy_deployment.go:59-108 | a run from the empty cluster and a quiet run after it that deletes twice |
| Deployment.ReconcileIsItsSteps | pkg/discoveredpolicy/controllers/discoveredpolicy_controller.go:38-84 | an undisturbed reconcile is the composition of its reads and writes |
| Deployment.StableExactly | pkg/discoveredpolicy/controllers/policy_deployment.go:52-124 | a cluster is stable exactly when no delete event is pending, an active record's spec is deployed, nothing is deployed for an inactive one, the condition says so, and a reconcile under way has nothing to do that can be seen |
| Deployment.StatusSurvivesExactly | pkg/discoveredpolicy/controllers/policy_watchers.go:97-122 | once user and discovery are quiet, a record that is not inactive keeps policy and status exactly when no delete event is pending and no reconcile under way will delete; otherwise it ends inactive |
| Deployment.ActivationSurvivesExactly | pkg/discoveredpolicy/controllers/policy_watchers.go:97-122 | in particular an active record ends active, with its spec deployed, exactly then |
| Deployment.ActivationCanBeLost | pkg/discoveredpolicy/controllers/policy_watchers.go:112-118 | counterexample run: the user's last write sets Active and a pending delete event turns it back |
| Deployment.StaleReadLosesActivation | pkg/discoveredpolicy/controllers/policy_deployment.go:59-84 | counterexample run: with no delete event pending, a reconcile that read the record as inactive deletes, and the watcher turns the active record back |
| Deployment.RediscoveryDemotesExactly | src/cluster/dspHandler.go:106-124 | from any state with an active record, discovery with a current reading writes the very rules that are stored exactly when the type tag is not among those compared; the record is then pending |
| Deployment.PendingStaysUnapproved | pkg/discoveredpolicy/controllers/discoveredpolicy_controller.go:54-58 | no quiet run makes a pending record active; it stays as it is unless a delete is pending or under way |
| Deployment.RediscoveryDemotes | src/cluster/dspHandler.go:134-145 | a run in which a Kubernetes network policy is discovered again and its active record becomes pending |
| Deployment.UpdateSettlesExactly | src/cluster/dspHandler.go:122-125 | discovering the same rules after an update writes nothing exactly when the stored spec had no field that the found one lacks |
| Deployment.DroppedFieldStays | src/cluster/dspHandler.go:122-125 | counterexample: a field that is no longer found stays in the record |
| DeploymentServer.Server.CreateDsp | src/cluster/dspHandler.go:44-74 | is the creating step, the updating step, or nothing when the rules are the same; a new record is inactive, nothing discovery writes is active, and nothing is deployed or deleted |
| DeploymentServer.Server.UpdateExisting | src/cluster/dspHandler.go:77-132 | is the updating step, nothing when the rules are the same, or a panic for the tag that is compared but not decoded; different rules are written, an active record becomes pending and another keeps its status |
| DeploymentServer.Server.Reconcile | pkg/discoveredpolicy/controllers/discoveredpolicy_controller.go:38-84 | an active record of one of the three kinds that decodes and matches has its spec deployed afterwards and the phase is Success; an inactive one has nothing deployed; for another kind, or one that does not decode or match, nothing is deployed or deleted and the phase is Failed; the state is the one the reconcile of the machine leaves |
| DeploymentServer.ReconciledOutcome | pkg/discoveredpolicy/controllers/discoveredpolicy_controller.go:54-84 | the same of the reconcile of the machine, from every state |
| DeploymentServer.FailureIsReported | pkg/discoveredpolicy/controllers/policy_deployment.go:52-124 | a failed write is never reported as a success, and its error is the reason |
| DeploymentServer.Server.HandlePolicy | pkg/discoveredpolicy/controllers/policy_deployment.go:22-127 | the same for a supported kind: parse, validate, deploy or delete, report |
| DeploymentServer.Server.UpdateStatus | pkg/discoveredpolicy/controllers/policy_deployment.go:321-357 | the stored condition is the reported one, written or not |
| DeploymentServer.Server.OnDelete | pkg/discoveredpolicy/controllers/policy_watchers.go:97-122 | is the watcher step of the machine |
| Summary.OneMatch | src/observability/publisher.go:82-88 | at most one aggregated path stands for any destination, unless an input has a segment of two slashes |
| Summary.TwoMatches | src/observability/publisher.go:82-88 | counterexample: a directory whose last segment is two slashes and a file beside it both stand for the file |
| Summary.RekeyIsOrderFree | src/observability/publisher.go:80-88 | the key of a summary does not depend on the order of the aggregated paths |
| Summary.AggregateIsOrderFree | src/observability/publisher.go:59-100 | the aggregated counters are the same for every map iteration order |
| SummaryKeys.MatchesExactly | src/observability/publisher.go:83-84 | an aggregated path stands for a destination exactly when the destination is cut to it and is not itself the directory |
| SummaryKeys.CountedUnderItsDirectory | src/observability/publisher.go:59-100 | said of the alerts: a summary of another operation is left as it is, and a file summary is counted under the directory its path is cut to among the paths of its own pod and process, or under its own path |
| SummaryKeys.NothingElseIsCounted | src/observability/publisher.go:80-99 | conversely, every aggregated counter stems from a summary with the same fields but the destination, and has the time of one |
| SummaryKeys.KeyReads | src/observability/publisher.go:68-69 | the key of a group stands for one pod and one process if no pod name has an underscore |
| SummaryKeys.KeysMeetExactly | src/observability/publisher.go:68-69 | exactly when two summaries are aggregated together: same pod and process, or one pod name continues the other with an underscore and the beginning of its process |
| SummaryKeys.KeysCollide | src/observability/publisher.go:68-69 | counterexample: with an underscore in a pod name two processes share a key |
| SummaryStore.SplitFiles | src/observability/publisher.go:66-73 | moves exactly the file summaries out of the map and collects their paths by process |
| SummaryStore.AggregateGroups | src/observability/publisher.go:75-78 | aggregates the paths of every process |
| SummaryStore.FoldFiles | src/observability/publisher.go:80-99 | adds each file summary up under its aggregated path: summed counts, latest time, totals conserved |
| SummaryStore.RekeyLoop | src/observability/publisher.go:83-88 | finds the first aggregated path that stands for the destination without reading past its end |
| SummaryStore.AggregateSummaryMap | src/observability/publisher.go:59-100 | conserves the total count of every group of summaries that differ only in the destination |
| SummaryStore.MoveMap | src/common/common.go:104-111 | empties the map into a new one with the same entries |
| SummaryStore.Summarizer.AppendSummaryData | src/observability/summarizer.go:181-188 | counts one alert with its time; accepted alerts stay equal to live counts plus batches |
| SummaryStore.Summarizer.TakeBatch | src/observability/publisher.go:19-21 | moves the live counters out; accepted alerts stay equal to live counts plus batches |
| SummaryStore.Summarizer.ProcessSystemSummary | src/observability/publisher.go:13-57 | delivers, to the database and the publisher, counters whose totals are those of the batch; nothing is lost or doubled |
| SummaryStore.PublishAll | src/observability/publisher.go:38-53 | publishes every entry of the map and empties it |
| SysPolicies.PoliciesConserveSources | src/systempolicy/systemPolicy.go:713-768 | conservation: for every class, kind and name the sources are the same after merging, each as often as before |
| SysPolicies.PermissionsKeptExactly | src/systempolicy/systemPolicy.go:633-685 | exactly when merging keeps what a name allows: unless an unconditional rule meets a conditional one, whose merge loses the unconditional permission |
| SysPolicies.UnconditionalIsLost | src/systempolicy/systemPolicy.go:633-685 | counterexample: after merging with a rule for one source, a shell that every process may run is left to that source |
| SysPolicies.MergeNeverWidens | src/systempolicy/systemPolicy.go:633-685 | merging never allows more than the rules did |
| SysPolicies.RuleListsAgree | src/systempolicy/systemPolicy.go:597-631 | a merged and sorted rule list does not depend on the order of its input |
| SysPolicies.MergedPoliciesAgree | src/systempolicy/systemPolicy.go:770-843 | merged policies do not depend on the order of the input when sort keys tell rules apart |
| SysPolicies.KeyText | src/systempolicy/systemPolicy.go:597-610 | rules are ordered by their name followed by the path of each source in turn |
| SysPolicies.SourcesByText | src/systempolicy/systemPolicy.go:624-631 | sources are ordered by their path followed by their directory |
| SysPolicyMerge.SortByKey | src/systempolicy/systemPolicy.go:624-631 | some ordered permutation |
| SysPolicyMerge.CheckIfMetadataMatches | src/systempolicy/systemPolicy.go:586-595 | the first policy of the class, or -1 exactly when there is none |
| SysPolicyMerge.MergeFromSourceRules | src/systempolicy/systemPolicy.go:633-685 | one rule for each name with all its sources and the attributes of the first; sorted sources if the input has at most one each |
| SysPolicyMerge.ConcatenateByClass | src/systempolicy/systemPolicy.go:770-808 | one policy for each class, its lists the concatenation of all lists of the class, everything else that of the first policy of the class |
| SysPolicyMerge.MergeFromSource | src/systempolicy/systemPolicy.go:713-768 | one policy for each class, each list merged from all rules of the class, everything else that of the first policy of the class |
| SysPolicyMerge.MergeSysPolicies | src/systempolicy/systemPolicy.go:770-843 | the same for the whole merge, with every rule list sorted |
| KubeArmor.StringDeDuplication | src/common/common.go:86-96 | the first occurrences in order |
| KubeArmor.ConvertPolicy | src/plugin/kubearmor.go:42-121 | extends the process list by exactly the source binaries it lacks, each once and unconditional, and adds the system directory to allow policies |
| KubeArmor.TranslatedIsClosed | src/plugin/kubearmor.go:82-115 | closure: after translation every source binary of a file rule has a process rule |
| KubeArmor.ExtractPolicy | src/systempolicy/systemPolicy.go:338-400 | of a closed policy every rule of process paths, process and file directories and file paths keeps its name and attributes and loses its sources, and each process path is added as a read-only plain file path; a protocol rule that one of them may use loses its sources too; class and all other fields stay |
| KubeArmor.ExtractedIsGlobal | src/systempolicy/systemPolicy.go:338-400 | after extraction every file and process rule holds for every process, under its old name, and every process path is a read-only plain file path |
| KubeArmor.ExtractK8SSystemPolicies | src/systempolicy/systemPolicy.go:334-404 | translates all policies and extracts exactly those outside the virtual machine namespace, in order |
| LabelText.JoinSplit | src/networkpolicy/helperFunctions.go:353-355 | joining undoes splitting for every text |
| LabelText.SplitJoin | src/networkpolicy/helperFunctions.go:367-370 | splitting undoes joining for every non-empty list of comma-free labels |
| Labels.CombinationLabels | src/networkpolicy/helperFunctions.go:392-421 | enumerates every index subset of the size asked for exactly once, with the labels it picks |
| Labels.MasksDiffer | src/networkpolicy/helperFunctions.go:401-417 | different masks pick different index sets |
| Labels.MaskFor | src/networkpolicy/helperFunctions.go:401-417 | every index set is picked by a mask below the bound |
| Labels.OnesAreIndices | src/networkpolicy/helperFunctions.go:402-404 | the number of ones of a mask is the size of its index set |
| Labels.ContainLabel | src/networkpolicy/helperFunctions.go:353-376 | true exactly when the combination is a subsequence of the target's labels |
| LabelCounts.LabelCounter.CountLabelByCombinations | src/networkpolicy/helperFunctions.go:423-457 | counts the text of every non-empty subset of the sorted labels once |
| LabelCounts.EachOnce | src/networkpolicy/helperFunctions.go:432-456 | of distinct labels each combination contained in them is counted exactly once and nothing else |
| LabelCounts.CountSources | src/networkpolicy/networkPolicy.go:509-513 | after counting sources with distinct sorted labels, a combination's count is the number of sources that contain it |
| LabelCounts.DescendingLabelCountMap | src/networkpolicy/helperFunctions.go:337-351 | lists every label once by descending weight |
| LabelCounts.RankIsLexicographic | src/networkpolicy/helperFunctions.go:341-348 | with fewer than a hundred labels the weights order by count and then by size, and weigh at least two exactly when the count does |
| SrcAggregation.FlowTracker.TrackFirst | src/networkpolicy/helperFunctions.go:509-520 | adds the flow id to those of the source and destination and to no other |
| SrcAggregation.FlowTracker.TrackSecond | src/networkpolicy/helperFunctions.go:522-538 | adds the ids of the source to those of the label and to no other |
| SrcAggregation.RemoveSrc | src/networkpolicy/helperFunctions.go:603-618 | removes exactly one occurrence of a source that is not repeated |
| SrcAggregation.AbsorbInto | src/networkpolicy/networkPolicy.go:531-541 | gives exactly the sources that contain the combination to it |
| SrcAggregation.AggregateSrcs | src/networkpolicy/networkPolicy.go:503-551 | splits the sources of a destination among the output labels, each source going to the first combination by weight, counted at least twice, that it contains, or keeping its own labels |
| SrcAggregation.AggregateSrcByLabel | src/networkpolicy/networkPolicy.go:500-554 | for every destination every source is under exactly one output label, which it contains, and every output label has a source: at level 1 its own labels, at level 3 the first combination by weight that at least two sources contain and it does, or its own labels; from an empty second tracker a label's flow ids are exactly those of the sources it absorbed |
| NetMerge.MergeHttpRules | src/networkpolicy/networkPolicy.go:1727-1772 | matches exactly equal ports or ICMP types, and keeps HTTP rules only for equal ports; no list is read beyond its end |
| NetMerge.MergeRule | src/networkpolicy/networkPolicy.go:1593-1725 | the rules after one more rule, for both directions |
| NetMerge.RulesStay | src/networkpolicy/networkPolicy.go:1599-1647 | no existing rule is dropped or moved; only its HTTP rules may change |
| NetMerge.HttpKeptExactly | src/networkpolicy/networkPolicy.go:1614-1619 | an existing rule keeps its HTTP rules exactly when it has none, is for another peer, is behind a rule with peer and port of the merged one, or has them itself and is for a port |
| NetMerge.HttpAfterMergesExactly | src/networkpolicy/networkPolicy.go:1593-1725 | after any number of merges a rule has exactly the HTTP rules that came from itself or from a rule with its peer and port and that no later one took away |
| NetMerge.KeysAreExact | src/networkpolicy/networkPolicy.go:1599-1725 | for endpoints, entities and domain names a merged rule adds exactly its peer and port, if it is not there |
| NetMerge.KeysStayUnique | src/networkpolicy/networkPolicy.go:1599-1725 | no peer and port pair appears twice |
| NetMerge.MergePolicies | src/networkpolicy/networkPolicy.go:1554-1559 | merges the rules of all policies of a selector into the first |
| NetMerge.OtherPortLosesHttp | src/networkpolicy/networkPolicy.go:1614-1619 | counterexample: a rule of the same peer for another port takes the HTTP rules from the first |
| NetMerge.AddressKeptExactly | src/networkpolicy/networkPolicy.go:1637-1645 | a rule for address ranges is granted exactly when it was before or no rule whatever is for its port |
| NetMerge.AddressIsLost | src/networkpolicy/networkPolicy.go:1637-1645 | counterexample: it is lost when an endpoint was granted the port before |
| NetDiscovery.ConvertedIsProper | src/networkpolicy/networkPolicy.go:1812-1977 | what a log converts to is a valid policy with one rule about one kind of peer and exactly one port or ICMP type |
| NetDiscovery.DirectionsAreMirrored | src/networkpolicy/networkPolicy.go:1815-1945 | what a log to a pod gives for ingress is what its mirror image gives for egress |
| NetDiscovery.EgressSelectsDestination | src/networkpolicy/networkPolicy.go:1815-1859 | between pods the egress policy selects the destination and grants the source; it selects the source exactly when both have the same labels |
| NetDiscovery.ClientToServer | src/networkpolicy/networkPolicy.go:1815-1859 | for a connection from a client to a server the egress policy selects the server |
| NetDiscovery.DiscoveredKeysAreExact | src/networkpolicy/networkPolicy.go:1506-1552 | the policy of a kind, selector and direction has exactly the peer and port or ICMP pairs of the logs that convert to it, each once |
| NetDiscovery.DiscoveredHttpExactly | src/networkpolicy/networkPolicy.go:1506-1552 | which HTTP rules each rule of a discovered policy ends with, from any moment of the merging on |
| NetDiscovery.DiscoveredIsValid | src/networkpolicy/networkPolicy.go:1979-2050 | merging valid policies gives a valid policy of the same selector |
| NetDiscovery.DiscoverNetworkPolicy | src/networkpolicy/networkPolicy.go:1506-1552 | for each direction one merged policy for every selector some log converts to, and no other |
| NetGrants.ConvertsExactly | src/networkpolicy/networkPolicy.go:1812-1977 | a log converts for a direction exactly when it has a peer for it, the selected pod has a label, and a request, unless it goes to an address, goes over TCP |
| NetGrants.ConvertedTraffic | src/networkpolicy/networkPolicy.go:1838-1856 | what a log converts to has the traffic it names: one port, whose text reads as the destination port, with TCP for 6, UDP for 17 and SCTP for 132, or family and type for ICMP, and its request |
| NetGrants.ConvertedPeer | src/networkpolicy/networkPolicy.go:1825-1945 | the peer of what a log converts to: the labels of the other pod, with its namespace if that is another one, or the domain name of an egress to the world, or the entity, or the address |
| NetGrants.ItoaReads | src/networkpolicy/networkPolicy.go:1841 | the text of a port reads back as the port |
| NetGrants.HttpLogConverts | src/networkpolicy/networkPolicy.go:1853-1856 | an HTTP log over TCP between labelled pods converts for both directions, with its method and path |
| NetGrants.EntityOrder | src/networkpolicy/networkPolicy.go:2052-2074 | the entity is the most specific that the reserved labels name: API server, world, remote node, host |
| NetGrants.HostKind | src/networkpolicy/networkPolicy.go:1969-1974 | a policy is for hosts exactly when the pod on its own side has the reserved label of hosts |
| NetGrants.LabelsOfFirstPod | src/networkpolicy/helperFunctions.go:484-492 | the labels are those of the first pod of the name |
| NetGrants.LabelMapMembers | src/networkpolicy/networkPolicy.go:2082-2094 | a key has the value of the last label that is exactly that key and a value |
| NetGrants.ConvertedIsGrant | src/networkpolicy/networkPolicy.go:1812-1977 | what a log converts to names exactly one endpoint, entity or domain name and one port or ICMP type, or an address |
| NetGrants.SameKeySameGrant | src/networkpolicy/networkPolicy.go:1593-1725 | rules with the same peer and port or ICMP type grant the same, field by field |
| NetGrants.DiscoveredGrantsAreExact | src/networkpolicy/networkPolicy.go:1506-1552 | field by field, the policy of a kind, selector and direction grants exactly what some log converts to, each grant once |
| Cilium.EgressPreservedExactly | src/plugin/cilium.go:553-660 | exactly when a translated egress rule allows the same: one kind of peer, no CIDR lost to a later spec or an exception, every port numbered with an upper-case protocol |
| Cilium.EarlierCidrIsDropped | src/plugin/cilium.go:566-579 | counterexample: of two CIDR specs only the second is translated |
| Cilium.ExceptionIsDropped | src/plugin/cilium.go:566-579 | counterexample: a CIDR spec with an exception becomes one without |
| Cilium.SecondPeerKindIsDropped | src/plugin/cilium.go:556-612 | counterexample: of an endpoint and an entity in one rule only the endpoint is translated |
| Cilium.PortWithoutNumberIsDropped | src/plugin/cilium.go:617-643 | counterexample: a rule whose only port has no number is translated to one for all traffic |
| Cilium.IngressPreservedExactly | src/plugin/cilium.go:669-738 | exactly when a translated ingress rule allows the same: no CIDR exceptions and upper-case protocols |
| Cilium.TrafficKeptExactly | src/plugin/cilium.go:617-657 | the ports, HTTP requests and ICMP types of a rule are translated exactly when every port is kept as it is |
| Cilium.ToUpperAt | src/plugin/cilium.go:617-643 | protocols are written in capitals: the 26 small letters change, nothing else does |
| Cilium.NamesKeptExactly | src/plugin/cilium.go:556-612 | the peers of an egress rule are kept exactly when it names one kind |
| Cilium.MeaningIsPreserved | src/plugin/cilium.go:544-743 | a policy of such rules allows exactly the same direction, peer and traffic tuples after translation |
| Cilium.BuildPorts | src/plugin/cilium.go:617-643 | one port list with all ports and the HTTP rules, or none |
| Cilium.ConvertEgress | src/plugin/cilium.go:553-660 | the translation of an egress rule |
| Cilium.ConvertIngress | src/plugin/cilium.go:669-738 | the translation of an ingress rule |
| Cilium.ConvertPolicy | src/plugin/cilium.go:522-743 | the translation of a policy: its selector on nodes or endpoints, name and namespace, and every rule in order |

## Left out

- HttpForest.EveryPathIsCovered: matching is by segment, with a literal, an unsigned number or anything; the leaf expressions that are printed are texts and are not interpreted.
- FileSet.CoverageIsExact: stated for clean absolute paths without literal wildcards, as are the lemmas over runs that use it.
- FileSet.UpdateSettles: likewise for clean absolute paths.
- FileSetStore.StoreCoversObserved: likewise for clean absolute paths.
- Summary.RekeyIsOrderFree: destinations with a segment of two slashes are excluded, where the first match depends on the order.
- Summary.AggregateIsOrderFree: likewise, and without literal wildcards below the first segment.
- Cilium.MeaningIsPreserved: exact for each rule, one way for a whole policy, in which another rule may happen to allow what one loses.
- SysPolicies.RuleListsAgree: rules of one name have equal attributes and sort keys differ; with equal keys the order of the input shows through.
- FileSet.ObservedStaysCovered: stated for clean absolute paths; for others the update is modelled but coverage by text prefix is not what `filepath.Dir` decides.
- SrcAggregation.RemoveSrc: lists in which that source is repeated are excluded; the callers build lists without repetitions, and on others the source reslices beyond the shortened list.
- NetDiscovery.DiscoveredKeysAreExact: rules with only an address range are matched by port alone in the source, so exactness is not claimed for them.
- Deployment.StableExactly: API errors other than a missing or an existing object on reads, and policies of several kinds under one name, are not part of the machine; a failed write is.
- The error text that is reported for a manifest that does not decode is not part of this model; those of failed writes are arbitrary texts.
- A manifest is its kind, its spec, and whether it decodes and validates; after discovery sent one as a merge patch, the last two are taken to be those of the manifest sent.
- Label maps are compared as maps, where the source compares their sorted `key=value` texts.
- The order in which Go iterates over maps is left open everywhere; slices are values, so aliasing of their backing arrays is not modelled.
- Integer widths: counters and masks are unbounded; the truncation of ICMP types to eight bits is modelled.
- `sort.Slice` is any ordered permutation; `sort.Strings` and the stable sort by length are functions.
- The regular expressions that tell a log's protocol are not part of this model: a log carries the recognised protocol.
- The level 2 test of source pods (`checkIncludeAllSrcPods`) is a parameter of the aggregation.
- MergeAndAggregatePaths and makeChildNodeToDir: their path list is rebuilt from the directories each time, so no clean property holds.
- getHTTPTree and setHTTPTree: where the trees are kept between rounds; the trees themselves are modelled over any number of rounds.
- mergeProtocolPorts, mergeCIDR, mergeFQDN and mergeEntities, and the extraction of sources from logs.
- Attributes of rules other than those of the first rule of a name are dropped by the merge, as in the source; policy names are hashes and are not modelled.
- Normalising empty capability and network lists before deployment is taken as part of the spec.
- groupKubeArmorLogs, aggregateProcFileData and the extraction of virtual machine policies.
- Databases, gRPC, message queues, Hubble, Kubernetes client mechanics, YAML and JSON, logging, cron and configuration.
- License, admission controller, recommendation, insight and observability responses.

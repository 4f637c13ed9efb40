# Lion: capabilities, workflows and pools

This project models the parts of the Lion runtime that decide what a plugin may do and in which
order work runs, and proves what those parts guarantee:

* **Capabilities** (`lion_capability`). Memory, file and plugin-call capabilities; the trees that
  filters, proxies, combinations and composites build over them; constraining, splitting, meeting,
  joining and merging them; partial revocation; the in-memory store with its permission check; and
  the host rules of network capabilities. A capability means the set of requests it permits, and a
  memory capability means which rights each byte has. Every operation is proved against that
  meaning.
* **Workflows** (`lion_core`). The validation of the dependency graph by depth-first search, and what
  a validated workflow guarantees to a scheduler.
* **Pools and counters** (`lion_concurrency`, and the call statistics of `lion_core`). The resource
  pool, once as one thread runs it and once as a step system over any number of threads; the instance
  pool and its accounting; the compare-and-swap maximum; the truncating rolling average.

Each module is named after its file. Loops and objects of the source are methods and classes here,
proved against functions; the theorems are about those functions, about all their inputs and about
whole runs.

| module | content |
|---|---|
| `Wrappers`, `MachineInt` | optional values; 64-bit wrapping arithmetic |
| `MemoryRanges`, `MemoryPermits`, `MemorySweep`, `MemoryMeet`, `MemoryCollisions`, `MemoryConstrain`, `MemoryWidening`, `MemoryJoin`, `MemoryJoinShape`, `MemoryJoinRights` | memory capabilities |
| `FileCapability`, `FileJoinExactness`, `FileMeetExactness`, `PluginCallCapability`, `HostRule`, `HostInclusion`, `PrefixBits` | the other leaves, host rules, and address prefixes |
| `Requests`, `LeafCapability`, `LeafLattice`, `CapabilityTree`, `Attenuation`, `CompositeLattice`, `Revocation`, `Aggregator`, `MemoryMerge` | requests, capability trees, and what operations on trees keep |
| `LeafExactness`, `TreeConstraints` | which constraints are taken, and exactly what constraining leaves |
| `Dispatch`, `TreeReading`, `JoinExactness` | which leaves a request is put to, and what joins and merges permit, from both sides |
| `LeafInclusion`, `TreeInclusion`, `SplitExactness`, `SplitCover` | which leaves and trees include a leaf, when parts of a split tree stay within it, and that together they lose nothing |
| `StoreModel`, `CapabilityStore` | the store as a state machine and as an object |
| `StoreInterleaving`, `StoreLineage`, `StoreMapSteps`, `StoreMapCalls` | the store under overlapping revocations, and one map access at a time |
| `WorkflowGraph`, `Workflow` | dependency graphs, and the search over them |
| `ResourcePoolSteps`, `ResourcePoolCalls`, `ResourcePool`, `InstancePool`, `Queues`, `AtomicMaximum`, `MaximumProgress`, `RollingAverage` | pools and counters |

## Words used

* A memory capability is *well formed* when its ranges have positive size, do not wrap around the
  address space and do not overlap; it is *tame* when it is well formed or holds one range without
  bytes, which is what an empty or wrapping range constraint leaves.
* A *prefix pattern* is a path pattern that ends in `/*`.
* A request *asks* for something when it names at least one operation and, for memory, one byte.

## Where the code does not keep a promise

The model follows the code. Where the code does not do what its comments or the name of an operation
promise, the project holds a concrete input on which the promise fails, and a condition on the inputs.
The condition is exact unless the line says otherwise.

* A memory `join` (and so a merge) promises to permit whatever either side permits. It can lose rights of
  the receiver: when one range of the argument meets several ranges of the receiver, only one of
  them lends its rights to the shared bytes (input: `MemoryJoinRights.JoinLosesRight`). It is an upper
  bound exactly when that leading range gathers the rights of all of them
  (`MemoryJoinRights.JoinUpperBoundIff`). It always permits whatever the argument permits.
* The bytes of a memory join are the union of both sides exactly when no range of the argument
  without bytes sits on a base of the receiver outside the argument's bytes (`MemoryJoin.JoinBytes`;
  input: `MemoryJoin.JoinLosesByte`).
* A memory request whose end wraps around can be granted although its bytes do not exist
  (input: `MemoryPermits.WrappedRequestGranted`); it is granted exactly when one range spans it
  (`MemoryPermits.PermitsWrapped`).
* A range constraint on a capability with overlapping ranges can widen it
  (input: `MemoryConstrain.ConstrainWidensOverlapping`). No constraint widens a capability exactly when its
  sweep grants every request for one right whose bytes all have it (`MemoryWidening.NeverWidensIff`). Said about
  the ranges: at each byte the first range carries every right that some range there has, and a range which
  the sweep still comes to after its end is covered carries every right that the covered bytes have
  (`MemoryWidening.NeverWidensRangesIff`). Tame capabilities meet the condition
  (`MemoryConstrain.ConstrainNeverWidens`).
* A file path constraint that is itself a prefix pattern can widen a capability
  (input: `FileCapability.PathConstraintWidens`). It never widens exactly when one pattern of the
  capability covers its prefix (`FileCapability.PathConstraintNeverWidensIff`).
* A file join can leak operations of one side to the paths of the other
  (input: `FileJoinExactness.JoinMixesRights`; exact condition: `FileJoinExactness.JoinUnionIff`). A file meet
  compares patterns as texts and can miss common paths (input: `FileMeetExactness.MeetMissesPrefix`; exact
  conditions: `FileMeetExactness.MeetExactIff` and `FileMeetExactness.MeetFailsIff`).
* A part of a split composite can permit what the composite does not, because the part is filed under
  its own type (input: `Revocation.SplitCanWiden`). For every tree without filters and proxies the exact
  condition is `SplitExactness.SplitNarrowsIff`: what the composite has for the part's type covers the part,
  a test on patterns, functions and ranges (`LeafInclusion.CoveredIff`, `TreeInclusion.TreeCoversIff`). With
  filters and proxies `Revocation.PartNarrows` gives a sufficient condition.
* A host rule coded as a subset of another can match more hosts: for bare wildcard suffixes and for
  IPv4 prefixes of zero (inputs: `HostRule.BareWildcardMisses`, `HostRule.ZeroPrefixMisses`; exact
  condition: `HostRule.SubsetIsInclusionIff`). It can also match no more hosts and not be coded as a subset:
  a domain or another wildcard under a wildcard that is written with a star, unless its text ends in that whole
  wildcard; a domain under the wildcard of its own text; a subnet of one address under that address, or under a wider
  subnet if its IPv4 prefix is zero; and a rule on texts and a rule on addresses, where the parser makes them meet.
  `HostInclusion.RelationIff` says for every pair of rules when the relation holds, in terms of the hosts
  they match and these cases. The same prefixes break transitivity
  (input: `HostRule.ZeroPrefixBreaksChain`; exact condition: `HostRule.SubsetTransitiveIff`). In a release
  build an IPv4 prefix of zero compares whole addresses (`PrefixBits.Agree4Zero`).
* The resource pool can exceed its configured sizes, and for every number of threads some execution
  does so by as much as possible (`ResourcePoolSteps.BoundAttained`). It keeps them exactly with one
  thread, a maximum of zero, or a large enough initial size (`ResourcePoolSteps.KeepsMaximumIff`).
* Of two partial revocations that overlap, the first can be lost
  (input: `StoreInterleaving.RaceLosesRevocation`); `StoreInterleaving.StaleRevocationIff` says exactly
  when a revocation on an old copy undoes others. In any interleaving with other calls as single steps, exactly the revocations on the line
  of the stored version count (`StoreLineage.InterleavedGrantsIff`), and a capability ends like the same calls
  one after the other exactly when its line has the same revocations (`StoreLineage.SerialIff`).
* The two maps of the store can end up different, because a call makes several accesses to them. A stored
  capability is missing from its plugin's list when it is listed after a clear has made its last removal
  (input: `StoreMapSteps.ClearLeavesOrphan`), when another first add for the plugin then inserts its empty list
  (input: `StoreMapSteps.FirstAddsLeaveOrphan`), and when its add panics because a clear has dropped the list
  that the add saw or made (input: `StoreMapSteps.AddPanics`); exactly then
  (`StoreMapSteps.OrphanIff`). `StoreMapSteps.MapsAgreeIff` says after which interleavings the maps agree.

The exact conditions on file patterns hold for patterns that leave some character unused, which any
real set of patterns does; so do those on inclusion and splits, as far as files are concerned.

## Model

In the rows on constraints, a request is *within* a constraint when it is for its path, within its operations,
inside its range, or for its call.

| member | source | states |
|---|---|---|
| MemoryRanges.Least | lion/lion_capability/src/model/memory.rs:90-93 | iterating an ordered map starts at its smallest base |
| MachineInt.WrapIsModular | lion/lion_capability/src/model/memory.rs:39-41 | sums and differences of addresses are taken modulo 2^64, and one undoes the other |
| MemoryRanges.OpsLattice | lion/lion_capability/src/model/memory.rs:8-15 | containment of rights is a partial order with intersection and union as bounds and the empty set at the bottom |
| MemoryRanges.FromSeqLast | lion/lion_capability/src/model/memory.rs:98-104 | of several ranges with one base the last one is kept |
| MemoryRanges.FromSeqKeeps | lion/lion_capability/src/model/memory.rs:98-104 | building a capability loses no range when equal bases mean equal ranges |
| MemoryRanges.RebuildFromValues | lion/lion_capability/src/model/memory.rs:366-367 | listing the ranges of a map and building from the list gives the map back |
| MemoryPermits.CheckPermits | lion/lion_capability/src/model/memory.rs:200-277 | the coverage loop decides as specified, and a granted request that stays in the address space has the rights on every byte |
| MemoryPermits.PermitsSound | lion/lion_capability/src/model/memory.rs:200-277 | whatever the range map, a granted request that does not wrap has the requested rights on each of its bytes |
| MemoryPermits.PermitsIffBytes | lion/lion_capability/src/model/memory.rs:200-277 | on a tame map a request that does not wrap is granted exactly when each byte has the rights |
| MemoryPermits.PermitsWrapped | lion/lion_capability/src/model/memory.rs:216-219 | a request whose end wraps is granted exactly when one range with the rights spans it |
| MemoryPermits.WrappedRequestGranted | lion/lion_capability/src/model/memory.rs:216-219 | a wrapping request can be granted although not all its bytes have the rights |
| MemoryPermits.PermitsIfOverlapsCarry | lion/lion_capability/src/model/memory.rs:132-144 | full coverage by ranges that all carry the rights is enough, overlapping or not |
| MemoryPermits.WrappedIfOverlapsCarry | lion/lion_capability/src/model/memory.rs:132-144 | the same for requests whose end wraps |
| MemoryPermits.PermitsShrinks | lion/lion_capability/src/model/memory.rs:200-277 | whatever the range map, a granted request that does not wrap stays granted for every sub-interval with fewer rights |
| MemorySweep.PermitsIffReached | lion/lion_capability/src/model/memory.rs:200-277 | whatever the ranges, a request that does not wrap is granted exactly when each of its bytes exists and each range reached before it is covered carries the rights |
| MemorySweep.WrappedIffFirst | lion/lion_capability/src/model/memory.rs:216-271 | whatever the ranges, a request whose end wraps is granted exactly when the first range around it carries the rights |
| MemoryMeet.IntersectMeaning | lion/lion_capability/src/model/memory.rs:64-81 | two ranges with bytes that do not wrap intersect exactly when they share a byte and a right, and the intersection has exactly the shared bytes and rights |
| MemoryMeet.MeetKeepsPieces | lion/lion_capability/src/model/memory.rs:404-430 | the meet holds exactly the pairwise intersections; none is lost to a key collision |
| MemoryMeet.MeetWellFormed | lion/lion_capability/src/model/memory.rs:404-430 | the meet of well-formed capabilities is well formed |
| MemoryMeet.MeetBytes | lion/lion_capability/src/model/memory.rs:404-430 | a byte has a right in the meet exactly when it has it on both sides |
| MemoryMeet.MeetPermits | lion/lion_capability/src/model/memory.rs:404-430 | the meet permits a request for some right on some byte exactly when both sides do |
| MemoryMeet.MeetFailsIff | lion/lion_capability/src/model/memory.rs:418-422 | the meet fails exactly when no such request is permitted by both |
| MemoryCollisions.MeetAt | lion/lion_capability/src/model/memory.rs:404-430 | for any two range maps, overlapping or not, the meet has a range at a base exactly when some intersection starts there, and it is that of the last pair |
| MemoryCollisions.ConstrainAt | lion/lion_capability/src/model/memory.rs:147-192 | for any range map, of several pieces of a constraint on one base the one from the highest range is left |
| MemoryConstrain.ConstrainIsMeet | lion/lion_capability/src/model/memory.rs:147-192 | a range constraint is the meet with that single range, failures included |
| MemoryConstrain.ConstrainTame | lion/lion_capability/src/model/memory.rs:147-192 | constraining keeps a capability tame, and well formed unless the constraint itself holds no byte |
| MemoryConstrain.ConstrainNeverWidens | lion/lion_capability/src/model/memory.rs:147-192 | what a constrained tame capability permits, the original permits, wrapping requests included |
| MemoryConstrain.ConstrainWidensOverlapping | lion/lion_capability/src/model/memory.rs:147-192 | with overlapping ranges a constraint can permit a request that was denied |
| MemoryWidening.NeverWidensIff | lion/lion_capability/src/model/memory.rs:147-192 | whatever the ranges, no range constraint widens a capability exactly when it grants each request in the address space for one right whose bytes all have it |
| MemoryWidening.NeverWidensRangesIff | lion/lion_capability/src/model/memory.rs:147-192 | the same range by range, for every range map: exactly when the first range at each byte, and each range the sweep passes with its end already covered, carries the rights found there |
| MemoryWidening.SweepBoth | lion/lion_capability/src/model/memory.rs:225-271 | a sweep that succeeds for reading and for writing succeeds for both at once |
| MemoryWidening.OwedWrapped | lion/lion_capability/src/model/memory.rs:216-219 | under that condition a wrapping request is granted as soon as one range with the rights spans it |
| MemoryConstrain.ComputeConstrainRange | lion/lion_capability/src/model/memory.rs:147-192 | the collecting loop computes the specified constraint |
| MemoryConstrain.PushPieces | lion/lion_capability/src/model/memory.rs:411-415 | the inner loop of meet appends the intersections of one range, in base order |
| MemoryConstrain.ComputeMeet | lion/lion_capability/src/model/memory.rs:404-430 | the nested loops compute the specified meet |
| MemoryConstrain.Split | lion/lion_capability/src/model/memory.rs:307-316 | the parts of a split are exactly the single-range capabilities of its ranges |
| MemoryConstrain.SplitNarrows | lion/lion_capability/src/model/memory.rs:307-316 | a part permits no more than the whole and is tame |
| MemoryConstrain.LeqPreorder | lion/lion_capability/src/model/memory.rs:374-402 | the coded order is reflexive and transitive |
| MemoryConstrain.LeqSound | lion/lion_capability/src/model/memory.rs:374-402 | a capability below a tame one in the coded order permits no more, for every request |
| MemoryConstrain.MeetGreatest | lion/lion_capability/src/model/memory.rs:374-430 | in the coded order the meet is the greatest lower bound among bounds whose ranges carry a right |
| MemoryJoin.JoinBytes | lion/lion_capability/src/model/memory.rs:318-372 | for a well-formed receiver the bytes of the join are the union exactly when no byteless range of the argument sits on one of its bases outside the argument's bytes |
| MemoryJoin.JoinLosesByte | lion/lion_capability/src/model/memory.rs:318-372 | an empty range on the base of a range makes the join lose that base |
| MemoryJoin.ErasedByteLost | lion/lion_capability/src/model/memory.rs:326-364 | such a range makes the join lose the byte at that base, wherever the loop is |
| MemoryJoin.AbsorbKeeps | lion/lion_capability/src/model/memory.rs:339-356 | removing and re-inserting overlapping entries keeps ends monotone in base and loses no interval that lay in one entry |
| MemoryJoin.StepLive | lion/lion_capability/src/model/memory.rs:326-364 | one pass of the outer loop with a live range keeps ends monotone, loses nothing and covers the range |
| MemoryJoin.CollectOverlapping | lion/lion_capability/src/model/memory.rs:330-337 | the search loop lists exactly the bases of the overlapping entries, ascending |
| MemoryJoin.ReplaceEntry | lion/lion_capability/src/model/memory.rs:342-355 | the inner loop body replaces an entry by its hull with the range, if the entry is still there |
| MemoryJoin.AddRange | lion/lion_capability/src/model/memory.rs:326-364 | the inner loop computes one specified pass |
| MemoryJoin.ComputeJoin | lion/lion_capability/src/model/memory.rs:318-372 | the outer loop computes the specified join, whose bytes for well-formed sides are the union |
| MemoryJoinShape.AbsorbAbove | lion/lion_capability/src/model/memory.rs:339-356 | entries from the base of the joined range on collapse into one hull, that of the last |
| MemoryJoinShape.StepShape | lion/lion_capability/src/model/memory.rs:326-364 | one pass leaves untouched entries, the hull of the entry that reaches in from below, and the hull of the last entry |
| MemoryJoinShape.JoinShaped | lion/lion_capability/src/model/memory.rs:318-372 | the join of well-formed sides has one entry per receiver range that is not displaced, spanning and carrying exactly it and the argument ranges that meet it, one per argument range that meets none, and no other |
| MemoryJoinShape.JoinIsOnlyShape | lion/lion_capability/src/model/memory.rs:318-372 | that description leaves nothing open: a range map meets it exactly when it is the join |
| MemoryJoinRights.DecidedPermits | lion/lion_capability/src/model/memory.rs:200-271 | on overlapping entries the sweep grants a request if each byte's first entry, and each entry ending inside, carries the rights |
| MemoryJoinRights.JoinPermitsOther | lion/lion_capability/src/model/memory.rs:318-372 | the join of well-formed sides permits whatever the argument permits |
| MemoryJoinRights.LostByte | lion/lion_capability/src/model/memory.rs:339-356 | where the leading range lacks rights, a one-byte request of the receiver is denied by the join |
| MemoryJoinRights.JoinUpperBoundIff | lion/lion_capability/src/model/memory.rs:318-372 | the join permits whatever either side permits exactly when each leading range gathers the rights of the ranges it leads |
| MemoryJoinRights.JoinWellFormed | lion/lion_capability/src/model/memory.rs:318-372 | if no argument range meets two receiver ranges, the join is well formed and an upper bound |
| MemoryJoinRights.JoinLosesRight | lion/lion_capability/src/model/memory.rs:318-372 | there are well-formed sides whose join denies what one of them permits |
| FileCapability.ConstrainNeverWidens | lion/lion_capability/src/model/file.rs:80-132 | a path constraint that is not a prefix pattern leaves exactly the requests for that path, an operation constraint exactly those within the operations |
| FileCapability.JoinUpperBound | lion/lion_capability/src/model/file.rs:228-244 | the join permits whatever either side permits |
| FileCapability.MeetLowerBound | lion/lion_capability/src/model/file.rs:271-302 | the meet permits only what both sides permit |
| FileCapability.BeyondPrefix | lion/lion_capability/src/model/capability.rs:281-289 | a path that goes on with a character a pattern does not have is matched by it only as a prefix pattern up to there |
| FileCapability.PathMatchesIff | lion/lion_capability/src/model/capability.rs:281-289 | a pattern "p/*" matches exactly the paths that start with p, any other pattern only itself |
| FileCapability.OpsLattice | lion/lion_capability/src/model/file.rs:7-15 | containment of operations is a partial order with intersection and union as bounds and the empty set at the bottom |
| FileCapability.PathConstraintNeverWidensIff | lion/lion_capability/src/model/file.rs:80-97 | whatever the patterns, a path constraint never widens exactly when it is no prefix pattern or one prefix pattern of the capability covers its prefix |
| FileCapability.PathConstraintWidens | lion/lion_capability/src/model/file.rs:80-97 | a capability for the prefix "/a/" constrained to the prefix "/a" permits the path "/a" |
| FileJoinExactness.JoinUnionIff | lion/lion_capability/src/model/file.rs:228-244 | the join is exactly the union when the operations are equal, one side has the operations of both and covers the patterns of the other, or there are no patterns |
| FileJoinExactness.JoinMixesRights | lion/lion_capability/src/model/file.rs:228-244 | reading one path joined with writing another permits more than either |
| FileMeetExactness.MeetAt | lion/lion_capability/src/model/file.rs:271-302 | the meet permits exactly what both permit where the common patterns cover the common paths |
| FileMeetExactness.MeetExactIff | lion/lion_capability/src/model/file.rs:271-302 | the meet is exact for every request that asks for an operation exactly when no operation is shared or, pattern by pattern, the patterns in both sets cover every overlap |
| FileMeetExactness.OverlapIffPath | lion/lion_capability/src/model/file.rs:274-285 | two capabilities allow a common path exactly when two of their patterns overlap |
| FileMeetExactness.MeetFailsIff | lion/lion_capability/src/model/file.rs:271-302 | both permit something exactly when an operation is shared and two patterns overlap; a meet that succeeds implies this, so a failure is right exactly when this does not hold |
| FileMeetExactness.MeetMissesPrefix | lion/lion_capability/src/model/file.rs:274-285 | the meet of a prefix and a path under it fails although both permit the path |
| PluginCallCapability.JoinExact | lion/lion_capability/src/model/plugin_call.rs:240-266 | the join allows exactly the calls either side allows and keeps the two maps' keys equal |
| PluginCallCapability.AddFunctionAllows | lion/lion_capability/src/model/plugin_call.rs:64-72 | adding a function allows that one call more |
| PluginCallCapability.SetAllowAllAllows | lion/lion_capability/src/model/plugin_call.rs:74-80 | setting the flag allows every function of the plugin, clearing it leaves the functions named so far |
| PluginCallCapability.JoinLeast | lion/lion_capability/src/model/plugin_call.rs:240-317 | in the coded order the join is the least upper bound |
| PluginCallCapability.MeetExact | lion/lion_capability/src/model/plugin_call.rs:319-383 | the meet allows exactly the calls both sides allow |
| PluginCallCapability.MeetFailsIff | lion/lion_capability/src/model/plugin_call.rs:371-376 | the meet fails exactly when no call is allowed by both |
| PluginCallCapability.LeqPreorder | lion/lion_capability/src/model/plugin_call.rs:268-317 | the coded order is reflexive and transitive |
| PluginCallCapability.LeqIffInclusion | lion/lion_capability/src/model/plugin_call.rs:268-317 | the coded order holds exactly when every allowed call is allowed on the right and every plugin entry has a counterpart |
| PluginCallCapability.MeetGreatest | lion/lion_capability/src/model/plugin_call.rs:268-383 | in the coded order the meet is the greatest lower bound without empty entries |
| PluginCallCapability.MergeFunctions | lion/lion_capability/src/model/plugin_call.rs:245-249 | the first loop of join unites the function sets |
| PluginCallCapability.MergeFlags | lion/lion_capability/src/model/plugin_call.rs:251-258 | the second loop of join unites the allow-all flags |
| PluginCallCapability.ComputeJoin | lion/lion_capability/src/model/plugin_call.rs:240-266 | both loops together compute the specified join |
| PluginCallCapability.MeetPlugin | lion/lion_capability/src/model/plugin_call.rs:325-368 | the loop body of meet adds exactly the shared functions of one plugin, or the allow-all flag, and keeps the maps' keys equal |
| PluginCallCapability.ComputeMeet | lion/lion_capability/src/model/plugin_call.rs:319-383 | the loop computes the specified meet |
| LeafCapability.ComputeConstrainLeaf | lion/lion_capability/src/model/memory.rs:279-305 | the constraint loop applies the constraints in turn and stops at the first error |
| LeafCapability.ConstrainOneNarrows | lion/lion_capability/src/model/plugin_call.rs:113-150 | one constraint, not a prefix pattern, on a tame leaf keeps its type, keeps it tame and adds no permission |
| LeafCapability.ConstrainLeafNarrows | lion/lion_capability/src/model/file.rs:184-212 | the same for a list of constraints without prefix patterns |
| LeafCapability.ConstrainLeafType | lion/lion_capability/src/model/file.rs:184-212 | a constrained leaf keeps its type, whatever the constraints |
| LeafCapability.ConstrainLeafConcat | lion/lion_capability/src/model/plugin_call.rs:192-216 | constraining a leaf in two instalments is constraining it once |
| LeafExactness.CallTakenIff | lion/lion_capability/src/model/plugin_call.rs:113-150 | a plugin-call capability takes the constraint to a call exactly when it permits the call, and then permits exactly the calls of that function of that plugin |
| LeafExactness.PathTakenIff | lion/lion_capability/src/model/file.rs:80-97 | a file capability takes a path, prefix pattern or not, exactly when it allows that text as a path, and then has that one pattern with its operations |
| LeafExactness.OperationTakenIff | lion/lion_capability/src/model/file.rs:100-132 | it takes operations exactly when it has one of them |
| LeafExactness.AnyRangeTakenIff | lion/lion_capability/src/model/memory.rs:147-192 | any memory capability takes a range exactly when it shares a right with a range that it overlaps |
| LeafExactness.OneTakenIff | lion/lion_capability/src/model/capability.rs:181-183 | a leaf takes one constraint exactly when it permits some asking request within it |
| LeafExactness.OneKept | lion/lion_capability/src/model/capability.rs:181-183 | one constraint leaves exactly the permitted requests within it |
| LeafExactness.LeafTakenIff | lion/lion_capability/src/model/file.rs:184-212 | a leaf takes a list of constraints exactly when it permits some asking request within all of them |
| LeafExactness.LeafKept | lion/lion_capability/src/model/memory.rs:279-305 | and then permits exactly the requests it permitted that are within all of them |
| LeafCapability.LeafPartNarrows | lion/lion_capability/src/model/plugin_call.rs:218-238 | a part of a split leaf has its type and permits no more |
| LeafLattice.MeetLeafPermits | lion/lion_capability/src/model/capability.rs:200-207 | the meet of two leaves, memory well formed and files with covered paths, permits exactly what both permit, for requests that ask for something |
| LeafLattice.MeetLeafIff | lion/lion_capability/src/model/capability.rs:200-207 | the meet of two leaves with well-formed memory is exact exactly when, for files, the common patterns cover the overlaps |
| LeafLattice.LeafJoinIff | lion/lion_capability/src/model/capability.rs:188-190 | the join of two leaves of one type is an upper bound exactly when, for memory, the leading ranges carry all rights |
| LeafLattice.LeafTypesTell | lion/lion_capability/src/check/aggregator.rs:110-119 | leaves with the same type name join, to that type |
| CapabilityTree.ComputeCombinePermits | lion/lion_capability/src/attenuation/combine.rs:77-133 | the loops of both strategies decide as specified |
| Dispatch.LoneLeaf | lion/lion_capability/src/attenuation/combine.rs:77-133 | a leaf alone in a composite under its type, or alone in a combination, permits exactly what it permits by itself |
| Dispatch.AllOfLeaves | lion/lion_capability/src/attenuation/combine.rs:79-109 | an All combination of leaves permits a request exactly when some leaf guards that kind of resource and every such leaf permits it |
| Dispatch.NestedRefused | lion/lion_capability/src/attenuation/combine.rs:82-106 | an All combination whose parts are combinations or composites, under any filters and proxies, refuses everything |
| Dispatch.OneKey | lion/lion_capability/src/model/composite.rs:64-93 | a composite looks for one key per kind of request, for custom requests the one they name, and a proxy puts its own request to the leaf behind it |
| Dispatch.OnlyThroughProxy | lion/lion_capability/src/attenuation/proxy.rs:81-87 | network, message and custom requests reach a file, memory or plugin-call leaf only through a proxy, and through no All combination |
| TreeReading.PermitsByQuestions | lion/lion_capability/src/attenuation/proxy.rs:81-87 | for every tree and request: each leaf is asked what the proxies on the way make of the request, each filter what they make of it up to there, and the tree permits exactly when one in each list of alternatives says yes |
| TreeReading.StaticQuestions | lion/lion_capability/src/attenuation/combine.rs:77-133 | without filters and proxies every question is put to a leaf and is the request itself |
| TreeReading.FilteredProxy | lion/lion_capability/src/attenuation/filter.rs:77-88 | a proxy over such a tree, with a filter above or below it, permits exactly when the filter accepts what reaches it and the leaves meet their clauses for the transformed request |
| CapabilityTree.ComputeCombineConstrain | lion/lion_capability/src/attenuation/combine.rs:135-168 | the loop drops failing children under Any, fails under All, and fails when none is left |
| CapabilityTree.ComputeGroups | lion/lion_capability/src/model/composite.rs:99-121 | the grouping loop files each constraint under its type, in order |
| CapabilityTree.ComputeCompositeConstrain | lion/lion_capability/src/model/composite.rs:95-141 | the replacement loop computes the specified constraint whatever order the groups come in |
| CapabilityTree.GroupConcat | lion/lion_capability/src/model/composite.rs:99-121 | grouping a concatenation is concatenating the groups |
| CapabilityTree.CompositeFails | lion/lion_capability/src/model/composite.rs:126-138 | one group without an entry, or one failing entry, fails the composite |
| CapabilityTree.CompositeSucceeds | lion/lion_capability/src/model/composite.rs:126-140 | otherwise the result has every constrained entry and keeps the others |
| Attenuation.ConstrainKeepsType | lion/lion_capability/src/model/capability.rs:181-183 | constraining a tree keeps its type, whatever the tree and the constraints |
| Attenuation.ConstrainKeepsTame | lion/lion_capability/src/model/capability.rs:181-183 | constraints without prefix patterns keep the leaves of a tree tame |
| Attenuation.ConstrainNarrows | lion/lion_capability/src/attenuation/combine.rs:77-168 | whatever a constrained tree permits, the original permits: filters, proxies, both combinations and composites over file, tame memory and plugin-call leaves, for constraints without prefix patterns |
| TreeConstraints.TakesIff | lion/lion_capability/src/attenuation/combine.rs:135-168 | every tree takes constraints exactly when the leaves that have to take them do: some part of an Any combination, all parts of an All combination, the entries of a composite that have a group |
| TreeConstraints.ConstrainedPermits | lion/lion_capability/src/attenuation/combine.rs:77-168 | a constrained tree permits exactly the requests that the original permits through parts that take the constraints, within the constraints that each leaf gets |
| TreeConstraints.TakesOwnType | lion/lion_capability/src/model/composite.rs:99-121 | a leaf takes only constraints that are grouped under its type |
| TreeConstraints.FlatTakesOne | lion/lion_capability/src/model/composite.rs:95-141 | a composite of leaves takes a constraint exactly when some entry does, and then that entry is constrained and the others are kept |
| TreeConstraints.FlatTakesAll | lion/lion_capability/src/model/composite.rs:95-141 | a list of constraints on such a composite has the effect of one after the other, each taken by the entry that can take it |
| TreeConstraints.FlatKeeps | lion/lion_capability/src/model/composite.rs:95-141 | such a composite then permits exactly the requests it permitted that are within each constraint on their kind of resource |
| TreeConstraints.UnknownFails | lion/lion_capability/src/model/file.rs:203-208 | over file, memory and plugin-call leaves a network, message or custom constraint fails, whatever the tree |
| Attenuation.ConstrainPartsNarrows | lion/lion_capability/src/attenuation/combine.rs:135-168 | the same for the children of a combination, with the types that decide relevance unchanged under All |
| Attenuation.ConstrainConcat | lion/lion_capability/src/model/composite.rs:95-141 | for every tree, constraining with a concatenation is constraining twice: the same tree, or both fail |
| Attenuation.ConstrainPartsConcat | lion/lion_capability/src/attenuation/combine.rs:135-168 | the same for the children of a combination, although Any drops children that fail |
| Attenuation.CompositeShape | lion/lion_capability/src/model/composite.rs:95-141 | a composite is constrained entry by entry, and fails exactly when some group fails |
| Attenuation.ConstrainCompositeConcat | lion/lion_capability/src/model/composite.rs:95-141 | regrouping by type does not disturb instalments |
| CompositeLattice.FlatPermits | lion/lion_capability/src/model/composite.rs:64-93 | a composite of leaves passes a request to the entry its type names |
| CompositeLattice.ComputeMeet | lion/lion_capability/src/model/composite.rs:234-260 | the loop keeps exactly the shared types whose meet succeeds, each under its type |
| CompositeLattice.MeetPermits | lion/lion_capability/src/model/composite.rs:234-260 | the meet of two composites of leaves permits exactly what both permit where the file entries' common patterns cover the overlaps |
| CompositeLattice.MeetExactIff | lion/lion_capability/src/model/composite.rs:234-260 | with well-formed memory entries the meet is exact exactly when they do |
| CompositeLattice.MeetFailsIff | lion/lion_capability/src/model/composite.rs:253-257 | both composites permit something exactly when two entries of one type overlap; a meet that succeeds implies this, so a failure is right exactly when this does not hold |
| CompositeLattice.ComputeJoin | lion/lion_capability/src/model/composite.rs:162-182 | the loop joins shared types, adds the others, and fails when one join fails |
| CompositeLattice.JoinUpperBoundIff | lion/lion_capability/src/model/composite.rs:162-182 | the join of two composites of leaves permits whatever either permits exactly when its memory entries do |
| JoinExactness.JoinCalls | lion/lion_capability/src/model/composite.rs:162-182 | the join of two composites allows exactly the calls that one of them allows |
| JoinExactness.JoinOneSided | lion/lion_capability/src/model/composite.rs:162-182 | a request that one composite has no entry for is permitted by the join exactly when the other permits it |
| Revocation.RevokeExact | lion/lion_capability/src/store/partial_revocation.rs:10-71 | after a revocation exactly the revoked request is gone |
| Revocation.RevokeAllExact | lion/lion_capability/src/store/partial_revocation.rs:10-71 | after any sequence of revocations exactly the revoked requests are gone |
| Revocation.RevokedNeverReturns | lion/lion_capability/src/attenuation/filter.rs:77-120 | for any tree, no later constraint, split or revocation brings back a request that was permitted when it was revoked |
| Revocation.PartNarrows | lion/lion_capability/src/attenuation/proxy.rs:81-119 | a part of a split tree permits at most what the tree permits, if entries of composites split into parts of their own type |
| Revocation.DerivedNarrows | lion/lion_capability/src/attenuation/filter.rs:77-120 | over any run of revocations, constraints without prefix patterns and splits of a tame tree whose composite entries split into parts of their own type, what the result permits the original permitted and no step revoked |
| Revocation.SplitCanWiden | lion/lion_capability/src/model/composite.rs:143-160 | a part of a composite can permit a request the composite denies |
| SplitCover.PartsAreUnits | lion/lion_capability/src/model/file.rs:214-226 | each part of a split leaf holds exactly one pattern, range, whole plugin or function of the leaf, and each of these is in a part |
| SplitCover.CombineParts | lion/lion_capability/src/attenuation/combine.rs:170-188 | an Any combination splits into its children, an All combination into itself |
| SplitCover.NestedParts | lion/lion_capability/src/model/composite.rs:143-160 | a part that is a combination or a composite is filed where only custom requests of that name look for it |
| SplitCover.PartsPermitIff | lion/lion_capability/src/model/composite.rs:143-160 | a split loses nothing: a tree permits a request exactly when some part does, if entries of composites split into parts of their own type and memory leaves are asked for one byte |
| LeafInclusion.FileCoveredIff | lion/lion_capability/src/model/file.rs:140-182 | several leaves permit all that a file capability permits exactly when one leaf with all its operations covers each of its patterns |
| LeafInclusion.CallsCoveredIff | lion/lion_capability/src/model/plugin_call.rs:97-110 | for plugin calls, exactly when one leaf allows each plugin that is allowed as a whole, and some leaf each function that is named |
| LeafInclusion.MemoryCoveredIff | lion/lion_capability/src/model/memory.rs:200-277 | for tame memory, exactly when one leaf grants each granted run from a range's start to a range's end, one range of one leaf holds each range of three bytes or more, and some leaf is memory |
| LeafInclusion.CoveredIff | lion/lion_capability/src/model/capability.rs:169-171 | for any tame leaf the test on the data is inclusion of all permitted requests in those of the leaves together |
| LeafInclusion.OneFile | lion/lion_capability/src/model/file.rs:140-182 | for one file leaf the test is that it has the operations and covers the patterns, or there are none |
| LeafInclusion.OneCall | lion/lion_capability/src/model/plugin_call.rs:97-110 | for one plugin-call leaf: each plugin with a call is there as a whole, or with at least the named functions |
| LeafInclusion.OneMemory | lion/lion_capability/src/model/memory.rs:200-277 | for one memory leaf: each range of three bytes or more lies below one range, and each byte of a shorter one has its rights |
| TreeInclusion.ClausesPermit | lion/lion_capability/src/attenuation/combine.rs:77-132 | a tree of combinations and composites permits exactly the requests for which each of its clauses has a leaf that permits |
| TreeInclusion.TreeCoversIff | lion/lion_capability/src/model/composite.rs:60-92 | such a tree permits all that a leaf permits exactly when each of its clauses covers the leaf |
| SplitExactness.RefusesAllIff | lion/lion_capability/src/model/memory.rs:209-212 | which leaves permit no request at all: those without patterns or calls, and never memory |
| SplitExactness.FiledLeaf | lion/lion_capability/src/model/composite.rs:60-71 | of the parts of a tree without filters and proxies, filed under their own types, only leaves permit anything |
| SplitExactness.SplitNarrowsIff | lion/lion_capability/src/model/composite.rs:143-160 | every part of a tame tree without filters and proxies stays within it exactly when the tree is no composite or covers each leaf that its split files under a foreign type |
| SplitExactness.SplitNarrowsUnlessForeign | lion/lion_capability/src/model/composite.rs:143-160 | without entries under foreign types: exactly when each leaf filed under one permits nothing |
| Aggregator.ComputeMerge | lion/lion_capability/src/check/aggregator.rs:87-121 | the two loops compute the specified merge |
| Aggregator.MergeSucceedsIff | lion/lion_capability/src/check/aggregator.rs:87-121 | a merge succeeds exactly when there is a capability and all have one type, and keeps the type |
| Aggregator.MergeUpperBound | lion/lion_capability/src/check/aggregator.rs:82-121 | a merge permits whatever any merged capability permits if each join on the way, intermediate results included, keeps rights |
| Aggregator.NoMemoryIsSound | lion/lion_capability/src/check/aggregator.rs:82-121 | file and plugin-call capabilities always meet that condition |
| Aggregator.MergePairIff | lion/lion_capability/src/check/aggregator.rs:82-121 | for two capabilities the condition is exact |
| Aggregator.MergeCallAllows | lion/lion_capability/src/check/aggregator.rs:87-121 | the merge of any number of plugin-call capabilities allows exactly the calls that some of them allows |
| JoinExactness.MergeFilesIff | lion/lion_capability/src/check/aggregator.rs:87-121 | the merge of any number of file capabilities permits a request exactly when some capability has the path and each operation is had by some |
| MemoryMerge.SpreadSteps | lion/lion_capability/src/check/aggregator.rs:112-120 | joining well-formed memory capabilities in turn keeps rights at each step if no range meets two ranges of earlier capabilities |
| MemoryMerge.MergeSpread | lion/lion_capability/src/check/aggregator.rs:82-121 | under that condition on the inputs the merge of any number of them is well formed, has exactly their bytes and permits whatever any of them permits |
| Aggregator.MergeFileSplit | lion/lion_capability/src/model/file.rs:214-226 | splitting a file capability and merging the parts in any order gives it back |
| Aggregator.MergeMemorySplit | lion/lion_capability/src/model/memory.rs:307-372 | the same for a well-formed memory capability |
| Aggregator.MergeCallSplit | lion/lion_capability/src/model/plugin_call.rs:218-266 | merging the parts of a plugin-call capability in any order allows exactly its calls |
| Aggregator.SplitThenMerge | lion/lion_capability/src/check/aggregator.rs:87-121 | splitting a leaf, well formed if it is memory, and merging the parts, at least one, in any order permits exactly the same requests |
| Aggregator.CapabilitySet.AddCapability | lion/lion_capability/src/check/aggregator.rs:24-30 | a capability is appended under its own type |
| Aggregator.CapabilitySet.MergeByType | lion/lion_capability/src/check/aggregator.rs:53-73 | the result has one capability per type that had any, their merge, and cannot fail |
| StoreModel.RunMirrors | lion/lion_capability/src/store/in_memory.rs:113-246 | after every run the two maps agree and hold exactly the live capabilities, each in its latest version with generation one plus its updates |
| StoreModel.GrantsIffLive | lion/lion_capability/src/store/mod.rs:52-72 | the permission check succeeds exactly when a capability added and not removed or cleared permits the request in its latest version |
| StoreModel.IdsNeverReused | lion/lion_capability/src/store/in_memory.rs:47-62 | no two adds receive the same id |
| StoreModel.ApplyAgrees | lion/lion_capability/src/store/in_memory.rs:113-246 | every operation keeps the two maps listing the same capabilities |
| StoreModel.ApplyKey | lion/lion_capability/src/store/in_memory.rs:113-246 | what each operation does to each key, and that it leaves the other keys alone |
| StoreInterleaving.UndisturbedIsAtomic | lion/lion_capability/src/store/in_memory.rs:231-245 | overlapping partial revocations have the effect of calls one after the other if nothing else updates the capability between get and replace |
| StoreInterleaving.UndisturbedGrantsIffLive | lion/lion_capability/src/store/mod.rs:52-72 | so the permission check still finds exactly the live capabilities in their latest versions |
| StoreInterleaving.StaleRevocationIff | lion/lion_capability/src/store/in_memory.rs:231-245 | a revocation made on a copy from before other revocations keeps their effect exactly when they revoked the same request or none that was permitted |
| StoreInterleaving.RaceLosesRevocation | lion/lion_capability/src/store/in_memory.rs:231-245 | of two racing revocations the one that replaces first is lost, for every capability and every two requests |
| StoreLineage.LineageHolds | lion/lion_capability/src/store/in_memory.rs:231-245 | in every interleaving of whole calls and overlapping revocations the store has a key exactly when it has a line, and holds the line's base with the revocations of the line |
| StoreLineage.InterleavedGrantsIff | lion/lion_capability/src/store/mod.rs:52-72 | so the permission check grants exactly what the base of some line permits and no revocation on that line took away |
| StoreLineage.SameKeys | lion/lion_capability/src/store/in_memory.rs:231-245 | which capabilities exist does not depend on how revocations overlap |
| StoreLineage.SerialIff | lion/lion_capability/src/store/in_memory.rs:231-245 | with the same base, a capability ends with the permissions that the calls give it one after the other exactly when its line revokes the same permitted requests |
| StoreMapSteps.InvAt | lion/lion_capability/src/store/in_memory.rs:101-229 | one map access at a time, by any number of threads: no key is listed twice, what is being unlisted is no longer stored, and a clear that holds a list has yet to remove whatever is listed there and stored |
| StoreMapSteps.ListingLost | lion/lion_capability/src/store/in_memory.rs:101-132 | a key that stays stored leaves its list only by a clear or an empty list that was already on its way when it was listed |
| StoreMapSteps.ListMissing | lion/lion_capability/src/store/in_memory.rs:101-110 | an add that saw or made a list finds none only if a clear dropped it in between |
| StoreMapSteps.OrphanIff | lion/lion_capability/src/store/in_memory.rs:101-136 | once no call is under way, a stored capability is missing from the list exactly when its add panicked, or it was listed while a clear of its plugin had only the list to drop, or while another add had seen no list and not yet inserted its empty one |
| StoreMapSteps.DanglingIff | lion/lion_capability/src/store/in_memory.rs:147-170 | then a listed capability is missing from the store exactly when its removal finished before its add did |
| StoreMapSteps.MapsAgreeIff | lion/lion_capability/src/store/in_memory.rs:101-229 | then the two maps agree exactly when none of this happened to anything left in them |
| StoreMapCalls.AddAlone | lion/lion_capability/src/store/in_memory.rs:113-136 | the accesses of an add that no other call interrupts store its new key and list it |
| StoreMapCalls.RemoveAlone | lion/lion_capability/src/store/in_memory.rs:147-170 | those of a removal take the key out of both maps, or change nothing if it is missing |
| StoreMapCalls.ClearAlone | lion/lion_capability/src/store/in_memory.rs:215-229 | those of a clear take out the listed keys of the plugin and its list |
| StoreMapCalls.HeldListStays | lion/lion_capability/src/store/in_memory.rs:215-229 | while a clear holds a list no access changes it |
| StoreMapSteps.ClearLeavesOrphan | lion/lion_capability/src/store/in_memory.rs:213-229 | a run of one add and one clear that leaves a stored capability unlisted |
| StoreMapSteps.FirstAddsLeaveOrphan | lion/lion_capability/src/store/in_memory.rs:101-110 | a run of two adds, the first two for their plugin, that leaves a stored capability unlisted |
| StoreMapSteps.AddPanics | lion/lion_capability/src/store/in_memory.rs:101-110 | a run of one add and one clear in which the add panics and leaves a stored capability unlisted |
| CapabilityStore.InMemoryStore.constructor | lion/lion_capability/src/store/in_memory.rs:38-44 | a new store is the initial state |
| CapabilityStore.InMemoryStore.AddCapability | lion/lion_capability/src/store/in_memory.rs:114-136 | returns the counter as id and updates both maps as specified |
| CapabilityStore.InMemoryStore.GetCapability | lion/lion_capability/src/store/in_memory.rs:138-145 | finds exactly the stored capability |
| CapabilityStore.InMemoryStore.RemoveCapability | lion/lion_capability/src/store/in_memory.rs:147-170 | removes from both maps, or reports a missing key and changes nothing |
| CapabilityStore.InMemoryStore.ReplaceCapability | lion/lion_capability/src/store/in_memory.rs:172-187 | stores the new version and counts the generation up |
| CapabilityStore.InMemoryStore.ListCapabilities | lion/lion_capability/src/store/in_memory.rs:189-211 | lists exactly the stored capabilities of the plugin, each id once |
| CapabilityStore.InMemoryStore.ClearPluginCapabilities | lion/lion_capability/src/store/in_memory.rs:213-229 | removes exactly the listed capabilities of the plugin |
| CapabilityStore.InMemoryStore.PartialRevokeCapability | lion/lion_capability/src/store/in_memory.rs:231-245 | stores the revoked version of the capability |
| CapabilityStore.InMemoryStore.CheckPermission | lion/lion_capability/src/store/mod.rs:52-72 | succeeds exactly when some listed capability permits the request |
| PrefixBits.Agree4IsTopBits | lion/lion_capability/src/model/network.rs:61-72 | the masked IPv4 comparison is agreement on the leading bits, for prefixes from 1 to 32 (section 3.1 of RFC 4632) |
| PrefixBits.Agree4Zero | lion/lion_capability/src/model/network.rs:61-72 | a prefix of zero makes the comparison one of whole addresses |
| PrefixBits.Agree6IsTopBits | lion/lion_capability/src/model/network.rs:73-102 | the segment loop with its partial mask compares exactly the leading bits out of 128 (section 2.3 of RFC 4291) |
| PrefixBits.ComputeAgree6 | lion/lion_capability/src/model/network.rs:73-102 | the segment loop decides as specified |
| HostRule.SubsetIsInclusionIff | lion/lion_capability/src/model/network.rs:37-216 | a rule coded as a subset matches only host texts the other matches, exactly when a guard on wildcard suffixes and IPv4 prefixes holds, for every address parser that can read every IPv4 address |
| HostInclusion.RelationIff | lion/lion_capability/src/model/network.rs:107-216 | for every two rules the relation holds exactly when the second matches every host text that the first matches, up to the listed cases that it misses and the listed cases in which it goes too far |
| HostInclusion.ExactIpIff | lion/lion_capability/src/model/network.rs:123-141 | an address is coded as a subset of a rule on addresses exactly when the rule matches every host read as that address |
| HostInclusion.DomainInWildcard | lion/lion_capability/src/model/network.rs:114-116 | a wildcard matches all that a domain matches exactly when the domain ends in the wildcard's dotted tail or is its bare text |
| HostInclusion.WildcardInWildcard | lion/lion_capability/src/model/network.rs:119-121 | when a wildcard matches all that another matches, told from their texts |
| HostInclusion.Subnet4InSubnet4 | lion/lion_capability/src/model/network.rs:159-174 | when an IPv4 subnet contains another, with prefixes of zero as single addresses |
| HostInclusion.Subnet6InSubnet6 | lion/lion_capability/src/model/network.rs:187-213 | an IPv6 subnet contains another exactly when its prefix is no longer and the networks agree on it, which is when the relation holds |
| HostRule.WildcardIff | lion/lion_capability/src/model/network.rs:119-121 | the guard for two wildcards is exact |
| HostRule.DomainIff | lion/lion_capability/src/model/network.rs:114-116 | the guard for a domain under a wildcard is exact |
| HostRule.Subnet4Iff | lion/lion_capability/src/model/network.rs:159-174 | the guard for two IPv4 subnets is exact |
| HostRule.SubsetReflexive | lion/lion_capability/src/model/network.rs:107-216 | every rule is coded as a subset of itself |
| HostRule.SubsetTransitiveIff | lion/lion_capability/src/model/network.rs:107-216 | the relation passes on from one rule to a wider one exactly when no real IPv4 subnet sits under a prefix of zero |
| HostRule.BareWildcardMisses | lion/lion_capability/src/model/network.rs:114-116 | "badexample.com" is coded as a subset of the bare wildcard "example.com" and not matched by it |
| HostRule.ZeroPrefixMisses | lion/lion_capability/src/model/network.rs:159-174 | a network of prefix 24 is coded as a subset of the same address with prefix zero, which matches fewer hosts |
| HostRule.ZeroPrefixBreaksChain | lion/lion_capability/src/model/network.rs:107-216 | between those two rules the relation does not pass on |
| WorkflowGraph.GetNode | lion/lion_core/src/types/workflow.rs:77-79 | finds a node with the id exactly when there is one |
| WorkflowGraph.EntryNodes | lion/lion_core/src/types/workflow.rs:116-121 | exactly the nodes without dependencies |
| WorkflowGraph.Dependents | lion/lion_core/src/types/workflow.rs:132-137 | exactly the nodes that list the id |
| WorkflowGraph.OrderMeansAcyclic | lion/lion_core/src/types/workflow.rs:159-174 | a graph with a topological order has no closed walk |
| WorkflowGraph.AcyclicIffNeverStuck | lion/lion_core/src/types/workflow.rs:147-177 | if dependencies exist, the graph has no cycle exactly when for every set of finished nodes short of all some node is ready |
| WorkflowGraph.StuckGivesCycle | lion/lion_core/src/types/workflow.rs:147-177 | from a stuck set of finished nodes a cycle can be produced |
| WorkflowGraph.CycleGetsStuck | lion/lion_core/src/types/workflow.rs:147-177 | a cycle leaves a scheduler stuck once everything else has finished |
| WorkflowGraph.EntryNodeExists | lion/lion_core/src/types/workflow.rs:116-121 | a non-empty validated workflow has an entry node |
| WorkflowGraph.RemovalKeepsValid | lion/lion_core/src/types/workflow.rs:103-138 | removing a node from a validated workflow keeps it valid exactly when, if the id is gone, nothing depends on it, and if another node has the id, no dependency that now counts leads back to it |
| WorkflowGraph.AdditionKeepsValid | lion/lion_core/src/types/workflow.rs:63-66 | adding a node to a validated workflow keeps it valid exactly when its dependencies exist and it does not depend on itself, unless an earlier node hides it |
| WorkflowGraph.PushKeeps | lion/lion_core/src/types/workflow.rs:186-187 | marking an id and pushing it keeps "on the path" and "marked true" the same |
| WorkflowGraph.FinishKeeps | lion/lion_core/src/types/workflow.rs:202-203 | unmarking and popping keeps it too, and finished ids stay in dependency order |
| WorkflowGraph.ClosesCycle | lion/lion_core/src/types/workflow.rs:193-199 | a dependency found on the path closes a real cycle |
| Workflow.Search.CheckCycle | lion/lion_core/src/types/workflow.rs:180-205 | the recursion terminates, never fails an unwrap, reports only real cycles, and otherwise finishes the id and restores the path |
| Workflow.Search.Follow | lion/lion_core/src/types/workflow.rs:190-200 | the loop body finishes a dependency or reports a real cycle |
| Workflow.Search.Position | lion/lion_core/src/types/workflow.rs:195-195 | the position search on the path succeeds |
| Workflow.WorkflowDefinition.AddNode | lion/lion_core/src/types/workflow.rs:63-66 | appends the node at the end |
| WorkflowGraph.GetAppended | lion/lion_core/src/types/workflow.rs:63-79 | after an append every id finds the node it found before, and only an id that was missing finds the new node |
| Workflow.WorkflowDefinition.RemoveNode | lion/lion_core/src/types/workflow.rs:103-106 | takes out the first node with the id, or nothing |
| Workflow.WorkflowDefinition.FindMissing | lion/lion_core/src/types/workflow.rs:148-158 | succeeds exactly when all dependencies exist, and otherwise names a missing one |
| Workflow.WorkflowDefinition.Validate | lion/lion_core/src/types/workflow.rs:147-177 | accepts exactly the workflows whose dependencies exist and whose graph has no cycle; then an order exists and no scheduler gets stuck; a reported cycle is real |
| ResourcePoolSteps.TotalCountBounded | lion/lion_concurrency/src/pool/resource.rs:262-419 | with any number of threads the size never exceeds the larger of the initial size and the maximum minus one plus the threads, and never the initial size if the maximum is zero; for one thread the configured sizes |
| ResourcePoolSteps.BoundAttained | lion/lion_concurrency/src/pool/resource.rs:229-347 | for every initial size, maximum and number of threads some execution from a filled pool reaches that bound |
| ResourcePoolSteps.KeepsMaximumIff | lion/lion_concurrency/src/pool/resource.rs:229-347 | the configured sizes bound every execution exactly with one thread, a maximum of zero, or an initial size of at least the maximum minus one plus the threads |
| ResourcePoolSteps.CountedResourcesExist | lion/lion_concurrency/src/pool/resource.rs:262-485 | before shutdown the size counts exactly the queued, handed-out and in-hand resources; afterwards no fewer |
| ResourcePoolSteps.DecrementsAreSafe | lion/lion_concurrency/src/pool/resource.rs:350-485 | no decrement underflows, and at most one thread is inside the queue lock |
| ResourcePoolSteps.StepConserves | lion/lion_concurrency/src/pool/resource.rs:262-485 | every step of every thread keeps the accounting |
| ResourcePoolSteps.StepBounds | lion/lion_concurrency/src/pool/resource.rs:283-291 | every step keeps the size plus the pending increments within the bound |
| ResourcePoolSteps.StepLock | lion/lion_concurrency/src/pool/resource.rs:350-485 | every step keeps the queue lock with the thread it names |
| ResourcePoolCalls.AcquireReuses | lion/lion_concurrency/src/pool/resource.rs:262-391 | an acquire can drop any number of unusable resources at the front and hand out the next |
| ResourcePoolCalls.AcquireCreates | lion/lion_concurrency/src/pool/resource.rs:283-347 | with nothing usable in the queue it can create one if that leaves the size below the maximum |
| ResourcePoolCalls.AcquireGivesUp | lion/lion_concurrency/src/pool/resource.rs:262-347 | otherwise it can end without a resource, at once or after waiting |
| ResourcePoolCalls.ReturnQueuesOrDrops | lion/lion_concurrency/src/pool/resource.rs:394-419 | a return can queue the resource or drop it with its count |
| ResourcePoolCalls.ReturnCloses | lion/lion_concurrency/src/pool/resource.rs:394-419 | after shutdown it can close it |
| ResourcePoolCalls.MaintenanceDrops | lion/lion_concurrency/src/pool/resource.rs:458-485 | maintenance can drop any number of queued resources with their count |
| ResourcePoolCalls.ShutdownDrains | lion/lion_concurrency/src/pool/resource.rs:422-444 | shutdown can empty the queue and give back its count |
| ResourcePoolCalls.CallEnds | lion/lion_concurrency/src/pool/resource.rs:262-485 | a thread that holds the queue lock or finds it free can end its call by its own steps |
| ResourcePoolCalls.NoDeadlock | lion/lion_concurrency/src/pool/resource.rs:262-485 | every execution can be continued to one in which all threads are between calls |
| ResourcePoolCalls.AfterShutdown | lion/lion_concurrency/src/pool/resource.rs:311-391 | once the pool is shut down no acquire gets past the check any more, and with none under way no resource is handed out |
| ResourcePool.Pool.constructor | lion/lion_concurrency/src/pool/resource.rs:210-254 | queues exactly the resources whose creation succeeded, in order, and counts them |
| ResourcePool.Pool.GetResource | lion/lion_concurrency/src/pool/resource.rs:350-391 | drops exactly the unusable resources at the front, with their count, and hands out the first usable one |
| ResourcePool.Pool.TryAcquire | lion/lion_concurrency/src/pool/resource.rs:311-347 | reuses, creates below the maximum, or names the right error; the size follows |
| ResourcePool.Pool.ReturnResource | lion/lion_concurrency/src/pool/resource.rs:394-419 | queues a valid resource, drops an invalid one with its count, and after shutdown closes it |
| ResourcePool.Pool.Shutdown | lion/lion_concurrency/src/pool/resource.rs:422-444 | empties the queue and gives back exactly its count |
| ResourcePool.Pool.Maintenance | lion/lion_concurrency/src/pool/resource.rs:458-485 | removes exactly the idle and unhealthy resources, keeps the order of the others, and the size follows |
| Queues.Skipped | lion/lion_concurrency/src/pool/resource.rs:359-388 | the elements popped and thrown away are unfit and the next one is fit |
| Queues.KeptByParts | lion/lion_concurrency/src/pool/resource.rs:458-485 | what maintenance keeps of a queue is what it keeps of its parts, in order |
| Queues.ValuesByParts | lion/lion_concurrency/src/pool/resource.rs:229-254 | each creation that succeeds contributes its resource, in order |
| InstancePool.Pool.constructor | lion/lion_concurrency/src/pool/instance.rs:195-209 | the queue holds the initial instances and the counters say so |
| InstancePool.Pool.GetInstance | lion/lion_concurrency/src/pool/instance.rs:212-246 | recycles exactly the unfit instances at the front, hands out the next or a new one, and the counters follow |
| InstancePool.Pool.ReturnInstance | lion/lion_concurrency/src/pool/instance.rs:249-283 | makes room by dropping the oldest, queues a healthy instance, recycles an unhealthy one, and the counters follow |
| InstancePool.StepBalances | lion/lion_concurrency/src/pool/instance.rs:212-283 | every call keeps created = available + checked out + recycled and the queue bounded |
| InstancePool.ReachableBalanced | lion/lion_concurrency/src/pool/instance.rs:195-283 | the same in every reachable state, whatever the age and health outcomes |
| AtomicMaximum.StepKeepsInv | lion/lion_concurrency/src/sync/lock.rs:278-292 | every atomic step of every thread keeps the cell's history rising by submitted values |
| AtomicMaximum.CellIsSubmitted | lion/lion_concurrency/src/sync/lock.rs:278-292 | in every execution the cell holds the initial or a submitted value |
| AtomicMaximum.CellNeverDecreases | lion/lion_concurrency/src/sync/lock.rs:326-338 | along every execution the cell never decreases |
| AtomicMaximum.FinishedCellIsMaximum | lion/lion_concurrency/src/pool/thread.rs:263-277 | when all threads are done the cell is the maximum of the initial value and everything submitted |
| AtomicMaximum.RetriesBounded | lion/lion_concurrency/src/sync/lock.rs:281-291 | a thread's failed exchanges are at most the number of other threads |
| MaximumProgress.CanStep | lion/lion_concurrency/src/sync/lock.rs:278-292 | in every reachable state a thread that is not done has a step |
| MaximumProgress.LengthIsSteps | lion/lion_concurrency/src/sync/lock.rs:278-292 | every step is counted at one thread: none changes nothing |
| MaximumProgress.ExecutionsAreShort | lion/lion_concurrency/src/sync/lock.rs:278-292 | no execution of n threads has more than n * (n + 1) steps |
| MaximumProgress.Completes | lion/lion_concurrency/src/pool/thread.rs:263-277 | every execution can be continued until all threads are done |
| MaximumProgress.StuckIffDone | lion/lion_concurrency/src/pool/thread.rs:263-277 | an execution can go no further exactly when all threads are done |
| MaximumProgress.MaximumReached | lion/lion_concurrency/src/pool/thread.rs:263-277 | from every initial state some execution ends with the maximum of the initial value and everything submitted in the cell |
| MaximumProgress.StuckCellIsMaximum | lion/lion_concurrency/src/pool/thread.rs:263-277 | every execution that can go no further has ended with it |
| MaximumProgress.RetriesAttained | lion/lion_concurrency/src/sync/lock.rs:281-291 | for every number of threads some thread fails once against each of the others |
| MaximumProgress.StaleLoad | lion/lion_concurrency/src/sync/lock.rs:279-279 | the first load can read a value that the cell no longer has |
| RollingAverage.AverageError | lion/lion_core/src/types/plugin.rs:458-472 | after n calls with total S the average a satisfies 0 <= S - n*a <= n*(n-1)/2 |
| RollingAverage.AverageBetween | lion/lion_core/src/types/plugin.rs:458-472 | the average lies between the smallest and the largest recorded duration |
| RollingAverage.NoWrap | lion/lion_core/src/types/plugin.rs:466-470 | while the total fits 64 bits no intermediate value wraps |
| RollingAverage.WrapsModulo | lion/lion_core/src/types/plugin.rs:466-470 | when it does not, the intermediate value is taken modulo 2^64 before the division |
| RollingAverage.ResourceUsage.RecordFunctionCall | lion/lion_core/src/types/plugin.rs:458-472 | one more duration is recorded, and count and average describe the recorded durations, in 64-bit arithmetic |
| RollingAverage.ResourceUsage.Reset | lion/lion_core/src/types/plugin.rs:509-519 | every figure describes an empty history again, active instances and custom metrics included |
| RollingAverage.ResourceUsage.UpdateMemory | lion/lion_core/src/types/plugin.rs:436-440 | current and peak memory describe the reports since the last reset |
| RollingAverage.ResourceUsage.UpdateCpuTime | lion/lion_core/src/types/plugin.rs:447-451 | the same for processor time |
| RollingAverage.PeakIsLargest | lion/lion_core/src/types/plugin.rs:436-451 | the peak is the largest reported value |

## Left out

- PartNarrows: a sufficient condition; with filters and proxies, whether a part of another type still fits depends on arbitrary functions. For all other trees the exact condition is proved (SplitNarrowsIff), for one split.
- PartsPermitIff: under that condition too, and for memory requests of one byte; a longer one can need several ranges, which a split takes apart.
- LeafTakenIff: and OneTakenIff, on well-formed memory, files with a pattern and an operation, constraints without prefix patterns and memory constraints that hold bytes and do not wrap; CallTakenIff, PathTakenIff, OperationTakenIff and AnyRangeTakenIff have no such premise.
- ConstrainedPermits: and LeafKept, OneKept and FlatKeeps, on tame memory, for constraints without prefix patterns and requests that ask for something.
- RelationIff: for address parsers that can read every address and read no text that starts with a dot.
- DerivedNarrows: has that condition too, for the split steps; that a revoked request never returns is proved without it.
- PathConstraintNeverWidensIff: like JoinUnionIff and MeetExactIff for files, and like CoveredIff, TreeCoversIff and SplitNarrowsIff, needs some character that occurs in no pattern; patterns that together use every character could cover a prefix one character at a time.
- ConstrainNeverWidens: for memory, on tame capabilities; for files, not for prefix patterns. The exact conditions are proved beside it.
- MergeSpread: a sufficient condition for merging three or more memory capabilities; for two the condition is exact.
- RunMirrors: for fewer than 2^64 - 1 calls, after which ids and generations wrap.
- AverageError: while the total of the durations fits 64 bits.
- Error variants and texts: an operation succeeds with a value or fails; the pools' errors and the verdict of workflow validation are kept.
- Network capabilities beyond host rules: hard-coded ports, dropped entries and ignored defaults leave no clean law.
- Message capabilities: with overlapping patterns the answer depends on hash order.
- The coded order of file capabilities: its test on operations never fires.
- Meet, join and the coded order of filters, proxies and combinations: special cases for tests, or stated approximations.
- The coded order of composites, and meet and join of a composite with a capability that is not one, or of nested composites.
- Merging and joining of trees: merge is modelled on leaves.
- Parsing of plugin ids and addresses: a request carries the text together with what it parses to, so two spellings of one id stay two requests.
- The order in which hash maps and sets are iterated: split parts, listed capabilities and groups come in any order.
- Filters and transforms: arbitrary functions.
- Time, age, health and creation outcomes: arbitrary functions in the pool objects, arbitrary choices in the step systems; sleeps, logging and timestamps have no counterpart.
- Interleavings of adds, removals and clears one map access at a time are about keys only, with ids that do not wrap; what the capabilities under the keys become is proved with each of those calls as one step. A clear holds the whole shard of the list it found, so that calls for some other plugins wait too: those runs are fewer.
- UndisturbedIsAtomic: a sufficient condition; when a disturbed interleaving ends like its calls in the order in which they take effect is SerialIff, and other orders are not considered.
- SerialIff: when a replacement fell between a get and its replace, the two bases differ, and LineageHolds gives both capabilities but no test on the lists alone.
- Overflow panics of debug builds: arithmetic wraps, as in a release build.
- IPv4 prefixes above 32 and IPv6 prefixes above 128.
- Shutdown of the resource pool drains the queue in one step, as it holds both locks throughout; poisoned locks.
- Memory orders beyond one atomic cell: a relaxed load may read any earlier value of the cell, an exchange the latest. Resetting the statistics, which lowers the maximum, is not a step.
- Cloning an instance pool; names, types and policies of workflow nodes; setting active instances and custom metrics, one assignment each, and the time of the last update of the statistics.
- Observability, command line, actors, isolation, policies, sagas and audit logs: input and output, wrappers, or simple state tables.

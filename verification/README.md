# EPA Orchestrator: the CPU ownership ledger and its commit protocol

A Dafny model of the parts of the orchestrator that decide who owns which CPU, keep that
decision through failures and crashes, and choose the CPUs, with proofs that they keep their
promises for all inputs, all interleavings and all runs.

`dafny verify dfyconfig.toml` checks the project.

## What is modelled

**The ledger.** `AllocationsDB` is the database class with its six fields: claims, explicit
(NUMA) claims, the two incrementally maintained unions, and the sparse policy and pool maps, all
as the code stores them, CPU sets being range strings. Each method makes the code's updates in
the code's order and is proved against `Ledger` and `Requests`, which say what a request means
for a book of owners. `Snapshots` proves the field updates: subtracting an owner's CPUs from a
union is right only because claims are disjoint, and claims stay disjoint only because the
unions are right, so both are one invariant.

**What requests keep.** `Guarantees`, `Grants` and `ReleaseRequests` state what every successful
request takes, grants, frees and replies: who can lose a CPU to whom, how the numbers add up,
stability of protected services, idempotence of whole requests, and what a release undoes.

**What requests are answered.** `Conditions`, `Choices`, `Replies` and `DirectCalls` say, from the
host and the ledger alone, exactly when a request is granted, why it is refused, which CPUs it gets,
what its reply counts and what it commits. `Listings` does the same for the listing.

**The commit protocol.** `CommitProtocol` describes the state store as single system calls, each
of which may fail with or without effect, over a disk whose files, latch and directory entries
have visible contents and contents that a power loss may bring back. Any number of processes,
kills and power losses may interfere. `CommitRuns` proves safety over all runs. `Progress`
says what it achieves when calls succeed and how quietly it gives up. `StateStore` is the class with
its methods, each proved to walk through this protocol and nothing else.

**Composition.** `DaemonHandler` puts a handler, the database class and the store together as
`transaction` does. `Refinement` proves that every such transaction is a run of the abstract
system, and `System` states the end-to-end theorem: an acknowledged protected grant is found
unchanged, through requests of others, failing calls, kills, power losses, restarts and
recoveries, until its owner makes a request itself.

**Selection and text.** `SmtSelection` (grouping by siblings, pairs, singles, leftovers),
`Pinning` and `Sizing` choose CPUs, `CoreShares` and `CoreCompletion` prove exactly when that
completes the most cores; `Codec`, `Canonical` and `CpuPools` are the printer, the three
parsers, and the proofs that they agree; `CpuPools` also has the startup pools and the configure
hook. `Hugepages` has the records, the overlay and the capacity check.

## Results that need a condition

- The hugepage capacity check is outside the transaction that writes the record. Over any run in
  which checks and writes interleave, records stay within capacity if and only if every write fits
  what the other services hold at that moment (`StaleCheckFits`). That is so when nobody else's
  records grow between a check and its write, as for a process that is alone and serves one request
  at a time (`CapacityOverRuns`, `AloneIsUndisturbed`), also through failed writes, kills and power
  losses (`HugeCapacityOverRun`). Two processes can break it (`InterleavedChecksOvercommit`).
- Taking pairs first does not always complete the most cores: with two cores of four threads a
  request for four CPUs gets two half cores (`FourThreadsPerCore`). It completes the most for every
  request if and only if at most one core has more than two candidate threads, that core comes
  after every core with two, and single threads only occur if it has exactly three and comes before
  all of them (`SelectIsOptimalIffOrderly`); in particular with at most two threads per core. What
  it maximizes for any grouping is the number of cores with at least two chosen threads.
- Releasing a newcomer's grant restores the ledger if and only if the grant reclaimed nothing
  (`ReleaseUndoesGrant`).
- The comments at `epa_orchestrator/cpu_pinning.py:81` and `:92` describe the list "0-39" as a
  large system and a negative count as an error. The code treats 40 CPUs as small and a negative
  count as a request for the default; the model follows the code.

## Reading the model

A `Host` holds everything the machine reports during one request: the frozen pools, the online
list at the start and again right before the grant (absent when it cannot be read), the NUMA
topology and the sibling lists, all arbitrary. A `World` holds the disk, the in-memory latch of
each process, the process inside the lock, and the history of jobs whose result the state path
names. A `Job` carries its own `Host`, so pools, topology and online CPUs may change between any
two requests. The first state file is assumed to hold a well-formed ledger, since loading does
not check disjointness; it is then proved to stay so.

## Model

Source paths are relative to the repository root.

| member | source | states |
|---|---|---|
| Codec.ToRangesLoop | epa_orchestrator/utils.py:54-93 | the printing loop emits exactly the runs of the sorted list, joined by commas |
| Codec.ParseCpuRangesLoop | epa_orchestrator/utils.py:36-51 | the parsing loop gives the union of the components, skips blank ones, and fails on any malformed or descending one |
| Codec.ListRoundTrip | epa_orchestrator/utils.py:54-93 | parsing what is printed gives back the members of any list of naturals, unsorted or with repeats |
| Codec.RoundTrip | epa_orchestrator/utils.py:19-93 | parsing a printed CPU set gives that set, and only the empty set prints as the empty string |
| Codec.DecimalUnique | epa_orchestrator/utils.py:81-91 | a number is printed as the only digit string without leading zeros that denotes it |
| Codec.DecimalShortest | epa_orchestrator/utils.py:81-91 | no printed number has a leading zero |
| Codec.RenderForm | epa_orchestrator/utils.py:81-91 | a single CPU is printed as a number, a run of several as two numbers joined by a dash |
| Codec.PyIntForms | epa_orchestrator/utils.py:43-50 | int() takes a plus sign and single underscores between digits, and no empty text |
| Canonical.RunsGapped | epa_orchestrator/utils.py:77-86 | the emitted ranges ascend and leave a gap after each, so none could be joined with its neighbour |
| Canonical.RunsAreMaximal | epa_orchestrator/utils.py:77-91 | every printed range lies in the set and cannot be extended at either end |
| Canonical.GappedUnique | epa_orchestrator/utils.py:77-91 | a CPU set has only one list of ascending ranges with gaps |
| Canonical.GappedIsPrinted | epa_orchestrator/utils.py:54-93 | any string built from such a list is the printed form of the set it covers |
| Canonical.PrintInjective | epa_orchestrator/utils.py:54-93 | two sets print alike if and only if they are equal |
| Canonical.DocumentedExamples | epa_orchestrator/utils.py:27-70 | the documented examples of the printer and the parser, character by character |
| CpuPools.ParseCpuListLoop | epa_orchestrator/cpu_pool.py:32-56 | the loop with its early endpoint and size checks computes the bounded parse, and the ranges it expands are exactly the recorded ones |
| CpuPools.BoundedIsSimple | epa_orchestrator/cpu_pool.py:38-56 | the bounded parser accepts exactly the well-formed lists whose expansion stays within the present CPUs (or within 65535), with the expansion as result, so the early checks reject nothing else |
| CpuPools.ExpansionIsBounded | epa_orchestrator/cpu_pool.py:48-52 | no range that is expanded has more CPUs than the present set (or than 65536) |
| CpuPools.ExpandAgrees | epa_orchestrator/cpu_pool.py:41-45 | whatever the pool parser accepts denotes the same CPUs for parse_cpu_ranges |
| CpuPools.PrintedParses | epa_orchestrator/cpu_pool.py:32-56 | the pool parser reads back a printed set if and only if the set is within its bounds |
| CpuPools.DescendingRange | epa_orchestrator/cpu_pool.py:45-47 | a descending range is an error for both range parsers and denotes nothing for the inline one |
| CpuPools.BlankComponents | epa_orchestrator/cpu_pool.py:40-43 | a blank component is skipped by parse_cpu_ranges and refused by the pool parser |
| CpuPools.TrailingNewline | epa_orchestrator/cpu_pool.py:59-65 | the newline that ends a kernel file does not matter |
| Pinning.InlineParseLoop | epa_orchestrator/cpu_pinning.py:102-108 | the third parser's loop, with nothing stripped or skipped and descending ranges empty |
| Pinning.InlineAgrees | epa_orchestrator/cpu_pinning.py:102-108 | the inline parser agrees with parse_cpu_ranges on every accepted text without blank components |
| Pinning.InlineParsesPrinted | epa_orchestrator/cpu_pinning.py:102-108 | the inline parser reads back every printed non-empty set |
| Pinning.EffectiveCores | epa_orchestrator/cpu_pinning.py:113-127 | a non-positive request becomes the default size |
| Pinning.CalculateCpuPinning | epa_orchestrator/cpu_pinning.py:95-144 | the dedicated part is the lowest CPUs of the requested or default number, the shared part is the rest, and both are empty when too few are listed |
| Sizing.DefaultSizeIsFourFifths | epa_orchestrator/cpu_pinning.py:119-127 | up to the threshold the default is four fifths, rounded down |
| Sizing.DefaultSizeExact | epa_orchestrator/cpu_pinning.py:113-128 | the default in numbers: the whole part of four fifths up to 100 CPUs, 16 fewer above |
| Sizing.DefaultSizeMonotone | epa_orchestrator/cpu_pinning.py:119-127 | a larger pool never has a smaller default, also across the threshold |
| Sizing.PercentSizeBounds | epa_orchestrator/daemon_handler.py:207-211 | 1 to 100 percent of a non-empty pool is at least one CPU and at most the pool |
| Sizing.PercentSizeMonotone | epa_orchestrator/daemon_handler.py:207-211 | a higher percentage never gives fewer CPUs |
| SmtSelection.GroupCandidates | epa_orchestrator/allocations_db.py:526-545 | the grouping loop over an ungrouped set yields the specified groups |
| SmtSelection.GroupsPartition | epa_orchestrator/allocations_db.py:526-545 | for any sibling map, also a partial or asymmetric one, the groups lose no candidate and hold none twice |
| SmtSelection.GroupsOrdered | epa_orchestrator/allocations_db.py:526-545 | groups are ascending, disjoint and listed by their lowest member |
| SmtSelection.CandidatesGroupedByCore | epa_orchestrator/allocations_db.py:526-545 | when the sibling lists agree with each other, two candidates share a group if and only if they share a core |
| SmtSelection.TakePairs | epa_orchestrator/allocations_db.py:572-585 | the loop takes two CPUs from each group in turn and leaves the remainders in the groups |
| SmtSelection.TakeSingles | epa_orchestrator/allocations_db.py:587-599 | the loop takes one CPU from each non-empty group in turn |
| SmtSelection.CollectLeftovers | epa_orchestrator/allocations_db.py:601-606 | the remaining members in group order |
| SmtSelection.PairsConserve | epa_orchestrator/allocations_db.py:572-585 | what is taken in pairs and what stays in the groups is what was there |
| SmtSelection.SinglesConserve | epa_orchestrator/allocations_db.py:587-599 | the same for singles |
| SmtSelection.PairsInOrder | epa_orchestrator/allocations_db.py:572-585 | a core gives its two lowest threads, and only after every earlier core with two has given its pair |
| SmtSelection.SinglesInOrder | epa_orchestrator/allocations_db.py:587-599 | a core gives its lowest thread left, and only after every earlier core that has one |
| SmtSelection.SelectFromGroups | epa_orchestrator/allocations_db.py:547-570 | pairs, then singles, then leftovers, as the three loops do it |
| SmtSelection.SelectSmtAware | epa_orchestrator/allocations_db.py:520-524 | the selector as a whole |
| SmtSelection.SelectFromExact | epa_orchestrator/allocations_db.py:547-570 | exactly the requested number, or all members when there are fewer, and none twice |
| SmtSelection.SelectExact | epa_orchestrator/allocations_db.py:369-372 | the selection is a subset of the candidates of exactly the requested size whenever there are that many, so the selection check never fails on it |
| SmtSelection.SelectMaximizesPairs | epa_orchestrator/allocations_db.py:547-585 | for any groups, the selection holds two threads of as many cores as any other set of that size can |
| SmtSelection.SelectMaximizesCompleteCores | epa_orchestrator/allocations_db.py:547-585 | with at most two threads per core it completes min(count / 2, cores with a pair) cores, the maximum over all sets of that size |
| CoreCompletion.SelectionIsPairsFirst | epa_orchestrator/allocations_db.py:547-606 | counted per core, the selection follows the pairs-first rule: what a later core or a third thread gets implies what earlier cores got |
| CoreShares.OrderlySuffices | epa_orchestrator/allocations_db.py:547-606 | under the condition on the core sizes, no other share of as many threads completes more cores |
| CoreShares.OrderlyNeeded | epa_orchestrator/allocations_db.py:547-606 | when the condition fails there is a share that completes more cores than any pairs-first one of the same size |
| CoreCompletion.OptimalIffOrderly | epa_orchestrator/allocations_db.py:547-606 | the rule completes the most cores for every request if and only if at most one core has more than two candidate threads, it comes after every core with two, and single threads only occur if it has three and precedes them |
| CoreCompletion.SelectIsOptimalIffOrderly | epa_orchestrator/allocations_db.py:520-606 | the same for the selector on any candidates and sibling map |
| CoreCompletion.FourThreadsPerCore | epa_orchestrator/allocations_db.py:520-606 | with two cores of four threads, a request for four CPUs gets two half cores although a whole one is free |
| SmtSelection.SelectWithoutSiblings | epa_orchestrator/allocations_db.py:520-606 | without siblings the selection is the lowest candidates |
| Ledger.CandidateIffReclaimable | epa_orchestrator/allocations_db.py:374-412 | a CPU is a candidate if and only if taking it passes the reclamation guard of whoever holds it |
| Ledger.CandidatesAreReclaimable | epa_orchestrator/allocations_db.py:374-412 | any set of candidates passes every owner's guard at once and touches no explicit claim |
| Ledger.NumaGrantKeeps | epa_orchestrator/allocations_db.py:449-472 | a NUMA grant keeps claims disjoint, owners non-empty and explicit marks inside claims |
| Ledger.CountGrantKeeps | epa_orchestrator/allocations_db.py:317-320 | so does an ordinary grant |
| Ledger.SubtractKeeps | epa_orchestrator/allocations_db.py:227-244 | so does taking CPUs away |
| Ledger.NumaGrantFrame | epa_orchestrator/allocations_db.py:423-472 | the requester swaps its node claims for the selection; another owner only loses CPUs, and only non-explicit ones of a legacy owner in the same pool to a legacy requester |
| Ledger.NumaGrantConserves | epa_orchestrator/allocations_db.py:449-472 | all claims afterwards are the old ones, less the requester's own in the node, plus the selection |
| Ledger.NumaGrantInSteps | epa_orchestrator/allocations_db.py:449-472 | releasing own node claims, then taking from the others, then claiming gives the one-step grant, although the requester's entry may vanish in between |
| Snapshots.FieldsOwned | epa_orchestrator/allocations_db.py:414-421 | one owner's stored strings and the two union caches determine what it owns |
| Snapshots.DropKeepsFields | epa_orchestrator/allocations_db.py:119-131 | removing a service by subtracting its CPUs from the caches leaves caches equal to unions, because claims are disjoint |
| Snapshots.ShrinkKeepsFields | epa_orchestrator/allocations_db.py:227-240 | so does taking some of a service's CPUs |
| Snapshots.VanishKeepsFields | epa_orchestrator/allocations_db.py:229-244 | so does taking all of them, with the metadata removed |
| Snapshots.GrowKeepsFields | epa_orchestrator/allocations_db.py:463-472 | so does enlarging a service's claim by adding to the caches |
| Snapshots.LoadingDefaults | epa_orchestrator/allocations_db.py:87-113 | claims stored without a policy are legacy and without a pool isolated; stored ones are taken as they are |
| AllocationsDB.AllocationsDB.constructor | epa_orchestrator/allocations_db.py:54-60 | the fields before anything is loaded: consistent, and owning nothing |
| AllocationsDB.Open | epa_orchestrator/allocations_db.py:52-63 | a new database holds the stored ledger, and is valid if that is consistent; it fails where the ledger cannot be read or loaded |
| AllocationsDB.AllocationsDB.LoadSnapshot | epa_orchestrator/allocations_db.py:146-192 | loading succeeds exactly on loadable data, keeps the four maps, and rebuilds both caches; a consistent snapshot gives a valid database |
| AllocationsDB.ParseAll | epa_orchestrator/allocations_db.py:176-179 | the loop that rebuilds a cache parses every string or fails |
| AllocationsDB.SnapshotDeterminesFields | epa_orchestrator/allocations_db.py:133-179 | saving and reloading reproduces all six fields |
| AllocationsDB.AllocationsDB.Policy | epa_orchestrator/allocations_db.py:87-94 | the effective policy, or the refusal to downgrade protected claims |
| AllocationsDB.AllocationsDB.PoolConflict | epa_orchestrator/allocations_db.py:103-113 | a service that owns CPUs in one pool may not act in the other |
| AllocationsDB.AllocationsDB.ReclamationRefused | epa_orchestrator/allocations_db.py:374-387 | the guard on stored maps refuses exactly the non-reclaimable overlaps |
| AllocationsDB.AllocationsDB.AvailableForService | epa_orchestrator/allocations_db.py:260-280 | subtracting the cached union less own claims leaves exactly the CPUs no other service owns |
| AllocationsDB.AllocationsDB.Available | epa_orchestrator/allocations_db.py:246-258 | the listed CPUs that nobody owns |
| AllocationsDB.AllocationsDB.ClaimedCpus | epa_orchestrator/allocations_db.py:672-681 | all CPUs owned in one pool |
| AllocationsDB.AllocationsDB.PreemptionPolicy | epa_orchestrator/allocations_db.py:96-101 | the policy of current claims, none without claims |
| AllocationsDB.AllocationsDB.RemoveServiceAllocation | epa_orchestrator/allocations_db.py:119-131 | removes one owner with its metadata, returns its CPUs, keeps all six fields in step |
| AllocationsDB.AllocationsDB.ApplyAllocation | epa_orchestrator/allocations_db.py:194-206 | the new state of the four fields it writes |
| AllocationsDB.AllocationsDB.SubtractCpusFromService | epa_orchestrator/allocations_db.py:208-244 | raises exactly when the guard refuses and then changes nothing; otherwise takes exactly the overlap from that owner |
| AllocationsDB.AllocationsDB.Take | epa_orchestrator/allocations_db.py:227-244 | the six field updates amount to taking the CPUs from that owner |
| AllocationsDB.AllocationsDB.RemoveAllocation | epa_orchestrator/allocations_db.py:640-659 | a full release in the service's own pool, reporting whether it owned anything |
| AllocationsDB.AllocationsDB.AllocateCores | epa_orchestrator/allocations_db.py:297-320 | replaces an owner's claim or raises without change, in the order of the source's checks |
| AllocationsDB.AllocationsDB.AllocateCount | epa_orchestrator/allocations_db.py:323-354 | the ledger, the result strings and the error of a count request as specified |
| AllocationsDB.AllocationsDB.ChooseForCount | epa_orchestrator/allocations_db.py:336-352 | the chosen CPUs are free candidates and the check on the selection cannot fail |
| AllocationsDB.SelectForCount | epa_orchestrator/allocations_db.py:342-350 | the helper's dedicated part, or the stable choice of a protected service, has the required size |
| AllocationsDB.AllocationsDB.CommitSelection | epa_orchestrator/allocations_db.py:353 | the inner allocate_cores call, including its overlap check, cannot raise any more |
| AllocationsDB.SelectStableCpus | epa_orchestrator/allocations_db.py:362-367 | own CPUs first, then the selector on the rest |
| AllocationsDB.AllocationsDB.WithheldByOthers | epa_orchestrator/allocations_db.py:400-412 | the loop collects exactly the CPUs that others do not yield |
| AllocationsDB.AllocationsDB.Overlaps | epa_orchestrator/allocations_db.py:441-448 | the validation loop refuses if and only if some other owner does not yield its overlap |
| AllocationsDB.AllocationsDB.TakeOverlaps | epa_orchestrator/allocations_db.py:455-462 | the loop that takes from several owners passes the inner guard every time and keeps the ledger valid at every step |
| AllocationsDB.AllocationsDB.MoveClaims | epa_orchestrator/allocations_db.py:449-472 | release, stealing loop and claim give the specified grant; nothing in them raises |
| AllocationsDB.AllocationsDB.Claim | epa_orchestrator/allocations_db.py:463-472 | the final claim writes all six fields consistently |
| AllocationsDB.AllocationsDB.ApplyNumaExplicitAllocation | epa_orchestrator/allocations_db.py:423-472 | every check precedes every change: an error leaves the ledger alone |
| AllocationsDB.ApplySelected | epa_orchestrator/allocations_db.py:441-462 | for CPUs chosen among the candidates the only remaining failure is the online check |
| AllocationsDB.AllocationsDB.AllocateNumaCores | epa_orchestrator/allocations_db.py:475-518 | the ledger, the result strings and the error of a NUMA request as specified |
| AllocationsDB.AllocationsDB.ChooseForNuma | epa_orchestrator/allocations_db.py:495-507 | candidates, the withheld CPUs reported instead when too few are left, and an exact selection otherwise |
| AllocationsDB.AllocationsDB.ReleaseInNode | epa_orchestrator/allocations_db.py:489-492 | the per-node release runs without a guard |
| Guarantees.SelectStableExact | epa_orchestrator/allocations_db.py:362-372 | exactly the wanted number of candidates; growth keeps all own candidates, shrinking takes nothing else |
| Guarantees.ExecuteEffect | epa_orchestrator/daemon_handler.py:124-335 | every successful request is one of four ledger transitions, taken only under its stated conditions |
| Guarantees.ExecuteKeepsWellFormed | epa_orchestrator/daemon_handler.py:124-335 | no request gives a CPU two owners, leaves an empty owner, or marks an unclaimed CPU explicit |
| Guarantees.OthersFare | epa_orchestrator/allocations_db.py:374-472 | a foreign owner is untouched, or loses, as a legacy owner to a NUMA request of its pool that acts as legacy, non-explicit CPUs that the requester then holds explicitly; policy, pool and explicit marks stay |
| Guarantees.ProtectedOwnerUntouched | epa_orchestrator/allocations_db.py:374-412 | no request of another service changes a protected owner or one of another pool |
| Guarantees.ExplicitClaimsUntouched | README.md:54 | no request of another service changes the explicit claims, policy or pool of their owner, legacy or protected |
| Guarantees.PolicyAndPoolPersist | epa_orchestrator/allocations_db.py:87-113 | one request neither drops protection nor moves a service that keeps owning CPUs to another pool |
| Guarantees.PoolConfinement | epa_orchestrator/cpu_pool.py:148-155 | a grant happens only if all claims of its pool lie in the configured pool, and leaves them there |
| Guarantees.OtherPoolUntouched | epa_orchestrator/allocations_db.py:103-110 | requests in one pool leave the claims of the other alone |
| Conditions.EligibleIsUsable | epa_orchestrator/cpu_pool.py:133-146 | the capacity a request works with is the CPUs both configured for the pool and online, none for a release that cannot read the list |
| Conditions.NumaGrantIff | epa_orchestrator/daemon_handler.py:249-335 | exactly when a NUMA request is granted: a positive number, an existing readable pool, no other pool, no downgrade, claims inside the pool, own claims usable, a known node, enough CPUs that nobody withholds, and the chosen ones still online |
| Conditions.CountGrantIff | epa_orchestrator/daemon_handler.py:124-177 | the same for ordinary and percentage requests, with the number each comes to |
| Conditions.RefusalsAreTrue | epa_orchestrator/daemon_handler.py:124-335 | every refusal is true of the host and the ledger, and the guards against wrong selections never fire |
| Choices.SelectIsBest | epa_orchestrator/allocations_db.py:520-606 | the selector pairs threads on the most cores, completes the most where core sizes allow it, and without siblings takes the lowest |
| Choices.StableIsBest | epa_orchestrator/allocations_db.py:362-367 | a protected selection keeps own CPUs first, adds the SMT-aware best of the rest, and shrinks to the lowest own ones |
| Choices.NumaReplyIsBest | epa_orchestrator/allocations_db.py:500-518 | the reply to a granted NUMA request lists the asked number of free CPUs of the node, the SMT-aware best for a legacy service, own ones first for a protected one |
| Choices.CoresReplyIsBest | epa_orchestrator/allocations_db.py:342-354 | the reply to a granted ordinary or percentage request lists the wanted number of free CPUs, the lowest for a legacy service, own ones first for a protected one |
| Replies.ReplyCounts | epa_orchestrator/daemon_handler.py:134-177 | every reply counts the CPUs both in the pool and online and, of these, the ones nobody owns afterwards; granted CPUs were online at both readings |
| Replies.GrantCommits | epa_orchestrator/allocations_db.py:297-320 | the whole ledger after a grant: what the service owns, explicitly or not, under which policy and pool, and what everybody else keeps |
| Replies.PercentIsCount | epa_orchestrator/daemon_handler.py:200-230 | a percentage request is the ordinary request for that share of the usable CPUs, rounded up, or a release for nothing |
| Replies.ReleasePolicy | epa_orchestrator/daemon_handler.py:269-289 | a release names the policy only of claims left in other nodes |
| DirectCalls.ReplaceIff | epa_orchestrator/allocations_db.py:297-320 | exactly when a direct replacement is accepted, and the ledger it leaves |
| DirectCalls.ApplyNumaIff | epa_orchestrator/allocations_db.py:423-472 | exactly when a direct NUMA application is accepted, and the ledger it leaves |
| DirectCalls.GuardIff | epa_orchestrator/allocations_db.py:223-226 | exactly when the guard inside the subtraction lets another service take CPUs |
| DirectCalls.WithheldAreNamed | epa_orchestrator/allocations_db.py:496-499 | when too few CPUs are free, the result names just those of the node that others withhold |
| Grants.CountAccounting | epa_orchestrator/allocations_db.py:698-717 | granted, remaining and foreign eligible CPUs add up to the pool, and the shared CPUs are the eligible ones nobody claims afterwards |
| Grants.CountIdempotent | epa_orchestrator/allocations_db.py:323-354 | repeating a count request gives the same grant and ledger |
| Grants.NumaIdempotent | epa_orchestrator/allocations_db.py:475-518 | repeating a NUMA request does too, including one that reclaimed foreign CPUs the first time |
| Grants.ProtectedCountIsStable | epa_orchestrator/allocations_db.py:362-367 | a protected grow keeps every own CPU, a shrink keeps a subset |
| Grants.ProtectedNumaIsStable | epa_orchestrator/allocations_db.py:362-367 | the same within the node, and nothing changes outside it |
| Grants.CoresReply | epa_orchestrator/daemon_handler.py:154-177 | every number and CPU list in the reply to a count or percentage grant, in terms of the committed ledger |
| Grants.NumaReply | epa_orchestrator/daemon_handler.py:291-335 | a NUMA reply lists exactly the requested number of online CPUs of the node, which the service now holds explicitly |
| Grants.RequestsAreIdempotent | epa_orchestrator/daemon_handler.py:111-335 | any request, releases included, repeated under the same host readings gives the same reply and ledger |
| ReleaseRequests.ReleaseSucceeds | epa_orchestrator/daemon_handler.py:134-152 | a release succeeds if and only if its pool exists, the service is not in the other pool and the node is known |
| ReleaseRequests.ReleaseFrees | epa_orchestrator/allocations_db.py:640-659 | a release frees exactly the service's CPUs, or those in the node, and keeps the rest of the ledger |
| ReleaseRequests.ReleaseReply | epa_orchestrator/daemon_handler.py:134-152 | the remaining capacity in the reply grows by exactly the freed eligible CPUs |
| ReleaseRequests.ReleaseUndoesGrant | epa_orchestrator/allocations_db.py:208-244 | releasing a newcomer's grant restores the ledger exactly if and only if the grant reclaimed nothing |
| ReleaseRequests.NothingReclaimed | epa_orchestrator/allocations_db.py:374-412 | ordinary and protected grants reclaim nothing |
| DaemonHandler.AllocateCores | epa_orchestrator/daemon_handler.py:124-177 | the handler over the class computes the specified reply, error and ledger |
| DaemonHandler.AllocateNumaCores | epa_orchestrator/daemon_handler.py:249-335 | the same for the NUMA handler |
| DaemonHandler.Handle | epa_orchestrator/daemon_handler.py:111-244 | the three entry points, with pool selection, online reading and percentage conversion |
| DaemonHandler.ResponseReads | epa_orchestrator/daemon_handler.py:164-177 | a client that parses its response reads just what the outcome says |
| DaemonHandler.NothingGranted | epa_orchestrator/daemon_handler.py:316-321 | the late error about a failed grant follows only calls that changed nothing |
| DaemonHandler.Transaction | epa_orchestrator/allocations_db.py:65-85 | a success is reported if and only if the store committed, and a rejection if and only if the request failed on the loaded ledger; a success committed the request's result and published just that, and without failures a request that succeeds on the ledger is answered; a rejection wrote nothing; after any failure the state file holds the old state or exactly the result, the latter durable or behind the latch; the outcome does not depend on the instance's earlier fields, and a failure reloads them |
| DaemonHandler.HandleRequest | epa_orchestrator/daemon_handler.py:111-246 | the pool is chosen before the lock: an unconfigured one is refused without touching the store or the database; otherwise the answer is that of the transaction, in both directions |
| DaemonHandler.Attempt | epa_orchestrator/state_store.py:196-211 | the part inside the lock: the answer says Ok if and only if the commit succeeded, a set latch blocks it, the other section is kept, and the state file is old or exactly the result |
| DaemonHandler.Complete | epa_orchestrator/state_store.py:205-211 | the same from the loaded state on |
| DaemonHandler.OldOrDoneAfter | docs/nonpreemptive-allocations.md:117-123 | wherever a transaction stops, nothing but the old state or the result of its job is installed, and a result that could still be lost is behind the durable latch |
| DaemonHandler.HugepageTransaction | epa_orchestrator/hugepages_db.py:51-69 | a hugepage write succeeds if and only if the store committed, always without failures, and publishes its result with the ledger section kept; after a failure the records are read again and the state file holds the old state or exactly the result |
| DaemonHandler.AttemptHugepages | epa_orchestrator/hugepages_db.py:55-61 | the part inside the lock |
| DaemonHandler.HandleHugepages | epa_orchestrator/daemon_handler.py:360-418 | a refusal touches nothing; a success leaves the requested number for the key, or no record after -1 and says whether there was one, and every other record and the ledger as they were |
| DaemonHandler.TransactionIsRun | epa_orchestrator/allocations_db.py:65-85 | every transaction of the code, however it ends, is a run of the abstract system, so what holds of runs holds of it |
| DaemonHandler.OtherCallIsRun | epa_orchestrator/state_store.py:186-216 | so are reads and recoveries |
| StateStore.StateStore.constructor | epa_orchestrator/state_store.py:78-91 | a call that has entered the exclusive lock |
| StateStore.StateStore.SetUncertain | epa_orchestrator/state_store.py:166-184 | both settings of the latch; after a failure the in-memory latch stands, no state can be lost, and the visible latch stands unless writing it again failed too |
| StateStore.StateStore.Relatch | epa_orchestrator/state_store.py:178-182 | the visible latch stands once it could be written again |
| StateStore.StateStore.CheckHealthUnlocked | epa_orchestrator/state_store.py:159-164 | passes only without the in-memory and the visible latch |
| StateStore.StateStore.AtomicWrite | epa_orchestrator/state_store.py:108-150 | walks the protocol and returns normally if and only if it committed |
| StateStore.StateStore.PrepareTemp | epa_orchestrator/state_store.py:114-123 | the temporary file is written and synced before anything is latched |
| StateStore.StateStore.Install | epa_orchestrator/state_store.py:124-138 | latch, rename, directory sync and clearing, with the unwinding after a failed rename |
| StateStore.StateStore.Load | epa_orchestrator/state_store.py:200-204 | health check and read under the lock; a set latch blocks it |
| StateStore.StateStore.Store | epa_orchestrator/state_store.py:205-211 | a normal return means the updated state is installed, durable and unlatched; an update that raises changes nothing |
| StateStore.StateStore.Recover | epa_orchestrator/state_store.py:186-194 | a normal return means the observed state is durable and writes are unblocked |
| StateStore.StateStore.ReadAll | epa_orchestrator/state_store.py:213-216 | reads are never blocked and return the installed state |
| CommitProtocol.AdvanceKeeps | epa_orchestrator/state_store.py:108-194 | whatever a system call returns, no file is torn, and a state that could still be lost is behind a visible and durable latch |
| CommitProtocol.WalkKeeps | epa_orchestrator/state_store.py:108-194 | so it is after any number of steps of one call |
| CommitProtocol.HealthyWriteCommits | epa_orchestrator/state_store.py:108-129 | without a latch and without failures a transaction commits |
| Progress.HealthyWriteCommitted | epa_orchestrator/state_store.py:196-211 | a write that nothing blocks and in which no call fails loads the state and commits whatever the update function returned |
| Progress.FailedRenameUnwinds | epa_orchestrator/state_store.py:136-138 | a write whose rename alone fails leaves the old state and takes its latch back |
| Progress.EarlyFailureIsQuiet | epa_orchestrator/state_store.py:108-124 | a write that ends before the latch is set leaves state and latch exactly as they were |
| Progress.RecoveryMakesDurable | epa_orchestrator/state_store.py:186-194 | a recovery that returns has made the state it found durable and unblocked writes, even on a disk that nothing is known of, and never changes the state |
| Progress.HealthyRecoveryCompletes | epa_orchestrator/state_store.py:186-194 | a recovery of a readable state in which no call fails completes |
| Progress.HealthyReadReturns | epa_orchestrator/state_store.py:213-216 | a read of a readable state that does not fail returns it, latch or not |
| CommitProtocol.StepKeeps | epa_orchestrator/state_store.py:78-216 | the invariant survives every step of the world: lock, system call, unlock, kill, power loss |
| CommitRuns.NeverTorn | epa_orchestrator/state_store.py:108-150 | at every moment of every run, and after a power loss there, the state file is intact and is the result of the logged jobs in lock order |
| CommitRuns.StateChanges | epa_orchestrator/state_store.py:196-211 | the state changes only by a job's rename on the durable state it was computed from, or by a power loss that brings that state back |
| CommitRuns.DurableLogPrefix | epa_orchestrator/state_store.py:108-150 | committed jobs are never lost |
| CommitRuns.Acknowledged | epa_orchestrator/state_store.py:196-211 | a transaction that returned normally is the last logged job, durable and visible |
| CommitRuns.LatchBlocksWrites | epa_orchestrator/state_store.py:159-194 | once latched, the state stays among what could be found then until a recovery confirms it |
| CommitRuns.VisibleLatchBlocksWrites | epa_orchestrator/state_store.py:159-164 | a latch that is visible but not yet durable blocks every write too: short of a power loss, log and state stay until a recovery confirms them |
| CommitRuns.FileOrigin | epa_orchestrator/state_store.py:108-150 | every file found after a step holds what some file held before it, or the result of the job that the step renamed |
| CommitRuns.UncertainIsLatched | epa_orchestrator/state_store.py:124-138 | a process that goes away between rename and confirmation leaves the latch standing |
| Refinement.UpdatesOnce | epa_orchestrator/state_store.py:196-211 | a transaction calls its update function at most once, in its third step |
| Refinement.AdvanceReads | epa_orchestrator/state_store.py:108-211 | the protocol never looks into the state, so reading the stored form commutes with each step |
| Refinement.WalkIsRun | epa_orchestrator/state_store.py:108-216 | the calls of one transaction, read or recovery are a run of system calls in the world of all processes |
| Refinement.WalkKeepsGood | epa_orchestrator/state_store.py:108-211 | if the update returns only good states, every file that can be found later holds one |
| Refinement.WalkInstalls | epa_orchestrator/state_store.py:196-211 | wherever a transaction stops, the old contents or exactly the update's result are installed |
| System.RunKeepsOtherSection | epa_orchestrator/state_store.py:205-208 | a transaction changes its own section only |
| System.ReplaySparesProtected | epa_orchestrator/allocations_db.py:374-472 | any number of jobs of others leave a protected owner as it was |
| System.LedgerAlwaysWellFormed | epa_orchestrator/allocations_db.py:119-472 | in every reachable world, and after a power loss there, no CPU has two owners |
| System.NeverOwnedThroughBothPools | epa_orchestrator/cpu_pool.py:170-194 | however the pools are reconfigured between requests, no CPU is ever owned through both |
| System.ProtectedGrantSurvives | epa_orchestrator/allocations_db.py:374-472 | an acknowledged protected grant is found unchanged, claims, policy and pool, in every state that can be observed or come back, until the service makes a request itself |
| System.ProtectedGrantIsObserved | epa_orchestrator/state_store.py:213-216 | any reader that returns sees it too |
| System.ExplicitClaimsSurvive | README.md:54 | acknowledged explicit NUMA claims of any service, with its policy and pool, are found unchanged in every state that can be observed or come back, until it makes a request itself |
| System.PolicyAndPoolOverLog | epa_orchestrator/allocations_db.py:87-110 | over any log, a service that owns CPUs throughout keeps its pool and its protection |
| System.PolicyAndPoolOverRun | epa_orchestrator/allocations_db.py:87-110 | over any run with failures and power losses, a service that owns CPUs in every state that can be found keeps its pool, and its protection once every such state has it |
| System.HugeCapacityOverRun | epa_orchestrator/hugepages_db.py:51-69 | if every hugepage transaction enters the lock with a write that fits, no state found in any run promises more pages than there are |
| System.AcceptedWriteFits | epa_orchestrator/daemon_handler.py:385-404 | a check that nobody disturbs makes its transaction enter the lock so |
| CpuPools.LoadStartupPool | epa_orchestrator/cpu_pool.py:197-220 | the guarded blocks give the strict constructor's general pool where that succeeds and an empty pool where anything fails |
| CpuPools.StartupIsDisjoint | epa_orchestrator/cpu_pool.py:187-220 | every startup outcome has disjoint pools |
| CpuPools.StartupGeneralCpus | epa_orchestrator/cpu_pool.py:197-220 | the general pool has given CPUs if and only if the isolated ones are known, the list says just these, and they are disjoint |
| CpuPools.IsolatedPoolIs | epa_orchestrator/cpu_pool.py:111-119 | the isolated pool is exactly the kernel's list, and missing when that is unreadable or malformed |
| CpuPools.StartupPoolsAre | epa_orchestrator/cpu_pool.py:197-220 | the isolated pool does not depend on the operator, and the general one is unconfigured exactly when the option is unset or says so |
| CpuPools.GrantsAvoidTheOtherPool | epa_orchestrator/cpu_pool.py:148-155 | after a grant, all claims of its pool lie in the pool the daemon started with and none in the other |
| CpuPools.ValidateConfiguration | epa_orchestrator/cpu_pool.py:223-257 | the hook's verdict, depending on the text only through what it asks for |
| CpuPools.RecordedIff | epa_orchestrator/cpu_pool.py:223-257 | exactly when the hook replays, records or rejects a configuration, and the text it records |
| CpuPools.ListedWithin | epa_orchestrator/cpu_pool.py:236-238 | the second parse, against the present CPUs, only asks whether the listed set is within them |
| CpuPools.ReplayedIffSameWish | epa_orchestrator/cpu_pool.py:233-244 | a later configuration is replayed if and only if it asks for the same pool as the recorded one, however it is written |
| CpuPools.AcceptedThenStarted | epa_orchestrator/cpu_pool.py:245-249 | a daemon started with a newly accepted configuration has that pool and keeps every general claim in it |
| Listings.AllAllocations | epa_orchestrator/allocations_db.py:620-638 | each owner is listed with its CPUs, their number, its pool, policy and explicit flag |
| Listings.ListAllocations | epa_orchestrator/daemon_handler.py:421-447 | the owners of the pool, and the totals over the CPUs both in the pool and online, from one reading of the ledger; an unconfigured pool is an error |
| Listings.CountsAreClaims | epa_orchestrator/daemon_handler.py:436-437 | the listed counts add up to the listed total: no CPU is counted twice |
| Listings.ListingsPartition | epa_orchestrator/daemon_handler.py:430-439 | the two pools' listings divide all claims, and every eligible CPU is claimed or remaining |
| Hugepages.UpsertIsMapUpdate | epa_orchestrator/hugepages_db.py:76-93 | an upsert sets one (service, node, size) record and no other |
| Hugepages.RemoveIsMapRemoval | epa_orchestrator/hugepages_db.py:146-162 | a removal clears one record and no other, and changes something if and only if it was there |
| Hugepages.UpsertTracked | epa_orchestrator/hugepages_db.py:76-93 | an upsert moves the total of its node and size by the difference to the old record |
| Hugepages.RemoveTracked | epa_orchestrator/hugepages_db.py:146-162 | a removal lowers it by the old record |
| Hugepages.TrackedPerSize | epa_orchestrator/memory_manager.py:101-126 | the table of a node holds, for every size, the sum of all records |
| Hugepages.NodeAllocations | epa_orchestrator/memory_manager.py:87-98 | the per-service table of a node holds the sums of each service by size |
| Hugepages.Overlay | epa_orchestrator/memory_manager.py:128-139 | free and used after the overlay still cover all pages |
| Hugepages.AdjustedFreeIsMinimum | epa_orchestrator/memory_manager.py:132-139 | the adjusted free count is the smaller of the kernel's and what the records leave |
| Hugepages.CheckRequest | epa_orchestrator/daemon_handler.py:51-78 | the capacity check, from one reading of the records for the overlay and a later one for the own record; the write it leads to clears the key for -1, sets it to the requested number otherwise, and touches no other |
| Hugepages.AcceptedIff | epa_orchestrator/daemon_handler.py:385-399 | a removal is always accepted; anything else if and only if the size exists and the increase is not positive or within both what the kernel reports free and what the records leave |
| Hugepages.AcceptedWrites | epa_orchestrator/daemon_handler.py:366-404 | what an accepted request makes of any records |
| Hugepages.CheckedRequestFits | epa_orchestrator/daemon_handler.py:385-404 | a request checked and written on the same records keeps every total within the pages |
| Hugepages.WithinIffFits | epa_orchestrator/daemon_handler.py:401-404 | a write keeps a total within the pages if and only if it fits beside what the other services hold then |
| Hugepages.AcceptedFits | epa_orchestrator/daemon_handler.py:385-404 | an accepted request fits any later records in which the others have not grown since the first reading, nor its own record by the second |
| Hugepages.CapacityOverRuns | epa_orchestrator/daemon_handler.py:360-418 | over any run in which no request is disturbed between check and write, whatever the kernel reports as free and whichever transactions fail, records never exceed the pages of a node and size |
| Hugepages.AloneIsUndisturbed | epa_orchestrator/daemon_handler.py:385-404 | a process that is alone and serves one request at a time is never disturbed |
| Hugepages.StaleCheckFits | epa_orchestrator/daemon_handler.py:385-404 | over any run in which checks and writes interleave, the records stay within the pages if and only if every write fits what the other services hold when it is made |
| Hugepages.InterleavedChecksOvercommit | epa_orchestrator/daemon_handler.py:385-404 | two processes that both check before either writes can promise six pages out of four |

## Left out

- Sockets, JSON and schema decoding, action dispatch, error texts and logging: requests, replies and errors are datatypes.
- Corrupt JSON, unknown policy or pool names in the state file, and sections that are not objects: the state of the model is always decodable text; files that hold no state at all are `Torn`.
- An absent state file is modelled as a file that holds the empty state; the `version` and `updated_at` keys are not modelled.
- sysfs and `snapctl` access: results are arbitrary inputs or failures. `Host` fixes the topology and the sibling lists for the length of one transaction.
- A malformed sibling list, which makes the source raise in the middle of a selection before anything is changed.
- Names and removal of temporary files, creation of the data directory, and the lock file's descriptor.
- What a failed fsync did: its effect on durability is unknown, nothing more is assumed. A rename that reports failure is taken to have left the old file in place.
- `clear_all_allocations`, `write_all` and `update_section`: no request handler calls them.
- Requests for a negative number of hugepages other than -1: outside the documented domain of the schema.
- `get_memory_info`, `validate_startup_pool` (it only logs), `can_allocate_cpus`, `get_allocation` and `get_snap_allocation_count`: plain readers of what is modelled.
- Dictionary order: owners in a listing and in the loops over other owners come in any order, and results do not depend on it.
- Digits, blanks and underscores outside ASCII, and the ASCII separators U+001C to U+001F, which Python strips as well.
- Floating point: `total * 80 / 100` and `ceil(n * percent / 100)` are computed in integers, with which they agree for every realistic number of CPUs.
- The file-system state that the hugepage capacity is read from: totals are fixed, free counts arbitrary.
- Codec.ParseCpuRangesLoop: numbers are natural; a negative number cannot be written in a component, because every `-` separates two bounds.
- StateStore.StateStore.ReadAll: the methods for one section (`read_section`) differ only in picking the section and share this contract.
- CommitProtocol.HealthyWriteCommits: progress of writes is stated for runs without failures, or whose rename alone fails; with other failures the protocol promises safety, not progress.
- Hugepage records that the schema would reject on loading are not modelled.
- DaemonHandler.Transaction: the reload after a failure is one later read with an arbitrary result, because other processes may write in between.
- Listings.ListAllocations: the number of listed owners is the size of the listed map and has no field of its own.

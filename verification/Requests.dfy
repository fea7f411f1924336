/** What one API request does to the ledger: the meaning of the daemon's CPU handlers,
    given everything the host reports while the request runs. */
module Requests {
  import opened Wrappers
  import opened SortedSets
  import opened SmtSelection
  import opened Sizing
  import opened Ledger

  datatype Error =
    | PoolNotConfigured
    | OnlineUnreadable
    | WrongPool
    | PoolExcludesClaims
    | NoCpusAvailable
    | ProtectedDowngrade
    | ClaimsOutsidePool
    | InsufficientCpus
    | NothingSelected
    | BecameUnavailable
    | ZeroCount
    | InvalidCount
    | TopologyUnavailable
    | NoSuchNode
    | NodeNotEligible
    | NodeTooSmall
    | HeldByOthers
    | CannotReclaim
    | AlreadyAllocated
    | OutsideNode
    | BadSelection
    | MalformedRanges
    | CorruptState

  /** The frozen pools, the online list when the request starts and again just before the
      grant (None when unreadable), the NUMA topology and the sibling lists. */
  datatype Host = Host(
    isolated: set<nat>,
    general: Option<set<nat>>,
    online: Option<set<nat>>,
    recheck: Option<set<nat>>,
    topology: Option<map<nat, set<nat>>>,
    siblings: Siblings)

  /** The schema bounds percentages; -1 and 0 both release. */
  type Percent = p: int | -1 <= p <= 100

  datatype Request =
    | AllocateCores(service: string, pool: Pool, policy: Option<Policy>, count: int)
    | AllocatePercent(service: string, pool: Pool, policy: Option<Policy>, percent: Percent)
    | AllocateNuma(service: string, pool: Pool, policy: Option<Policy>, node: nat, count: int)

  datatype Reply = Reply(granted: set<nat>, shared: set<nat>, policy: Option<Policy>, total: nat, remaining: nat)

  datatype Outcome = Outcome(book: Book, reply: Reply)

  /** What the two database operations return: the new book and the two CPU sets of the result. */
  datatype Grant = Grant(book: Book, first: set<nat>, second: set<nat>)

  // ---------- Selection ----------

  /** A protected service keeps its own candidates first. */
  function SelectStable(owned: set<nat>, candidates: set<nat>, siblings: Siblings, count: nat): set<nat> {
    var own := owned * candidates;
    if count <= |own| then Lowest(own, count)
    else own + Select(candidates - own, siblings, count - |own|)
  }

  function CountSize(candidates: set<nat>, count: int): nat {
    if count > 0 then count else DefaultSize(|candidates|)
  }

  // ---------- allocations_db.allocate_count ----------

  function CountCandidates(book: Book, service: string, eligible: set<nat>): set<nat> {
    eligible - ClaimedByOthers(book, service)
  }

  function CountSelection(
    book: Book, service: string, candidates: set<nat>, size: nat, policy: Policy, siblings: Siblings): set<nat>
    requires size <= |candidates|
  {
    if policy == NonPreemptive then SelectStable(Owned(book, service), candidates, siblings, size)
    else Lowest(candidates, size)
  }

  predicate ConfirmedOnline(selected: set<nat>, recheck: Option<set<nat>>) {
    recheck.Some? && selected <= recheck.value
  }

  function OnlineError(recheck: Option<set<nat>>): Error {
    if recheck.None? then OnlineUnreadable else BecameUnavailable
  }

  /** The CPUs that a count request gets once its policy is settled. */
  function CountChoice(
    book: Book, service: string, count: int, eligible: set<nat>, policy: Policy,
    recheck: Option<set<nat>>, siblings: Siblings): Result<set<nat>, Error>
  {
    var candidates := CountCandidates(book, service, eligible);
    if !(Owned(book, service) <= eligible) then Err(ClaimsOutsidePool)
    else if count > |candidates| then Err(InsufficientCpus)
    else if CountSize(candidates, count) == 0 then Err(NothingSelected)
    else
      var selected := CountSelection(book, service, candidates, CountSize(candidates, count), policy, siblings);
      if !ConfirmedOnline(selected, recheck) then Err(OnlineError(recheck)) else Ok(selected)
  }

  function Count(
    book: Book, service: string, count: int, eligible: set<nat>, requested: Option<Policy>, pool: Pool,
    recheck: Option<set<nat>>, siblings: Siblings): Result<Grant, Error>
  {
    if InOtherPool(book, service, pool) then Err(WrongPool) else
    match EffectivePolicy(book, service, requested)
    case None => Err(ProtectedDowngrade)
    case Some(policy) =>
      match CountChoice(book, service, count, eligible, policy, recheck, siblings)
      case Err(error) => Err(error)
      case Ok(selected) =>
        var shared := CountCandidates(book, service, eligible) - selected;
        Ok(Grant(CountGrant(book, service, selected, policy, pool), shared, selected))
  }

  // ---------- The database's own entry points ----------

  /** `allocate_cores`: replace an owner's allocation by the listed CPUs. */
  function Replace(
    book: Book, service: string, cpus: set<nat>, requested: Option<Policy>, pool: Pool): Result<Book, Error> {
    if InOtherPool(book, service, pool) then Err(WrongPool) else
    match EffectivePolicy(book, service, requested)
    case None => Err(ProtectedDowngrade)
    case Some(policy) =>
      if cpus == {} then Ok(book)
      else if cpus * ClaimedByOthers(book, service) != {} then Err(AlreadyAllocated)
      else Ok(CountGrant(book, service, cpus, policy, pool))
  }

  /** The guard of `_subtract_cpus_from_service` when it takes CPUs for another requester. */
  datatype Requester = Requester(name: string, policy: Option<Policy>, pool: Pool)

  function SubtractGuard(book: Book, owner: string, cpus: set<nat>, requester: Option<Requester>): Option<Error> {
    if owner !in book || book[owner].cpus * cpus == {} || requester.None? || requester.value.name == owner then None
    else
      var r := requester.value;
      if InOtherPool(book, r.name, r.pool) then Some(WrongPool) else
      match EffectivePolicy(book, r.name, r.policy)
      case None => Some(ProtectedDowngrade)
      case Some(policy) => if Reclaimable(book[owner], cpus, policy, r.pool) then None else Some(CannotReclaim)
  }

  /** `_apply_numa_explicit_allocation`, also when called directly: `node` are the CPUs of the NUMA node. */
  function ApplyNuma(
    book: Book, service: string, node: set<nat>, selected: set<nat>, eligible: set<nat>, requested: Option<Policy>,
    pool: Pool, recheck: Option<set<nat>>): Result<Book, Error>
  {
    if InOtherPool(book, service, pool) then Err(WrongPool) else
    match EffectivePolicy(book, service, requested)
    case None => Err(ProtectedDowngrade)
    case Some(policy) =>
      if !(selected <= node * eligible) then Err(OutsideNode)
      else if !(Owned(book, service) <= eligible) then Err(ClaimsOutsidePool)
      else if Refused(book, service, selected, policy, pool) then Err(CannotReclaim)
      else if !ConfirmedOnline(selected, recheck) then Err(OnlineError(recheck))
      else if (Owned(book, service) - node) + selected == {} then Ok(Subtract(book, {service}, node))
      else Ok(NumaGrant(book, service, node, selected, policy, pool))
  }

  /** The guard over one owner's overlap with the selection. */
  predicate MayTake(entry: Entry, selected: set<nat>, policy: Policy, pool: Pool) {
    entry.cpus * selected == {} || Reclaimable(entry, entry.cpus * selected, policy, pool)
  }

  /** Some other owner does not yield its overlap. */
  predicate Refused(book: Book, service: string, selected: set<nat>, policy: Policy, pool: Pool) {
    exists n :: n in book && n != service && !MayTake(book[n], selected, policy, pool)
  }

  // ---------- allocations_db.allocate_numa_cores ----------

  function NumaSelection(
    book: Book, service: string, candidates: set<nat>, count: nat, policy: Policy, siblings: Siblings): set<nat>
  {
    if policy == NonPreemptive then SelectStable(Owned(book, service), candidates, siblings, count)
    else Select(candidates, siblings, count)
  }

  /** The CPUs that a NUMA request gets once its policy is settled, none when too few are free. */
  function NumaChoice(
    book: Book, service: string, node: set<nat>, count: nat, eligible: set<nat>, policy: Policy, pool: Pool,
    siblings: Siblings): Result<set<nat>, Error>
  {
    var candidates := NumaCandidates(book, service, node * eligible, policy, pool);
    if !(Owned(book, service) <= eligible) then Err(ClaimsOutsidePool)
    else if |candidates| < count then Ok({})
    else Ok(NumaSelection(book, service, candidates, count, policy, siblings))
  }

  /** `node` are the CPUs of the NUMA node. The second set of the result names the CPUs
      that others withhold when too few candidates remain. */
  function Numa(
    book: Book, service: string, node: set<nat>, count: int, eligible: set<nat>, requested: Option<Policy>, pool: Pool,
    recheck: Option<set<nat>>, siblings: Siblings): Result<Grant, Error>
  {
    if InOtherPool(book, service, pool) then Err(WrongPool)
    else if count == 0 then Ok(Grant(book, {}, {}))
    else if count == -1 then Ok(Grant(Subtract(book, {service}, node), {}, {}))
    else if count < -1 then Err(InvalidCount)
    else
      match EffectivePolicy(book, service, requested)
      case None => Err(ProtectedDowngrade)
      case Some(policy) =>
        match NumaChoice(book, service, node, count, eligible, policy, pool, siblings)
        case Err(error) => Err(error)
        case Ok(selected) =>
          if selected == {} then Ok(Grant(book, {}, node * eligible * Unavailable(book, service, policy, pool)))
          else if !ConfirmedOnline(selected, recheck) then Err(OnlineError(recheck))
          else Ok(Grant(NumaGrant(book, service, node, selected, policy, pool), selected, {}))
  }

  // ---------- The handlers ----------

  function Configured(host: Host, pool: Pool): Option<set<nat>> {
    if pool == Isolated then Some(host.isolated) else host.general
  }

  /** `configured & online`; inspection and release treat an unreadable list as empty. */
  function Eligible(configured: set<nat>, online: Option<set<nat>>, allowUnavailable: bool): Option<set<nat>> {
    match online
    case Some(cpus) => Some(configured * cpus)
    case None => if allowUnavailable then Some({}) else None
  }

  function Remaining(book: Book, eligible: set<nat>): nat { |eligible - Claimed(book)| }

  function PolicyReply(book: Book, service: string): Option<Policy> {
    if service in book then Some(book[service].policy) else None
  }

  function HandleCores(
    book: Book, service: string, pool: Pool, policy: Option<Policy>, count: int,
    host: Host, configured: set<nat>, eligible: set<nat>): Result<Outcome, Error>
  {
    if InOtherPool(book, service, pool) then Err(WrongPool)
    else if count == -1 then
      var after := Release(book, service);
      Ok(Outcome(after, Reply({}, eligible - Claimed(after), None, |eligible|, Remaining(after, eligible))))
    else if !(ClaimedIn(book, pool) <= configured) then Err(PoolExcludesClaims)
    else if eligible == {} then Err(NoCpusAvailable)
    else
      match Count(book, service, count, eligible, policy, pool, host.recheck, host.siblings)
      case Err(error) => Err(error)
      case Ok(grant) =>
        Ok(Outcome(grant.book, Reply(grant.second, grant.first, PolicyReply(grant.book, service),
                                     |eligible|, Remaining(grant.book, eligible))))
  }

  function HandleNuma(
    book: Book, service: string, pool: Pool, policy: Option<Policy>, node: nat, count: int,
    host: Host, configured: set<nat>, eligible: set<nat>): Result<Outcome, Error>
  {
    if count == 0 then Err(ZeroCount)
    else if InOtherPool(book, service, pool) then Err(WrongPool)
    else if host.topology.None? then Err(TopologyUnavailable)
    else if node !in host.topology.value then Err(NoSuchNode)
    else
      var cpus := host.topology.value[node];
      if count != -1 && !(ClaimedIn(book, pool) <= configured) then Err(PoolExcludesClaims)
      else if count != -1 && eligible == {} then Err(NoCpusAvailable)
      else if count != -1 && cpus * eligible == {} then Err(NodeNotEligible)
      else if count != -1 && |cpus * eligible| < count then Err(NodeTooSmall)
      else
        match Numa(book, service, cpus, count, eligible, policy, pool, host.recheck, host.siblings)
        case Err(error) => Err(error)
        case Ok(grant) =>
          if count != -1 && grant.first == {} then Err(HeldByOthers)
          else Ok(Outcome(grant.book, Reply(grant.first, {}, PolicyReply(grant.book, service),
                                            |eligible|, Remaining(grant.book, eligible))))
  }

  predicate Releases(request: Request) {
    match request
    case AllocateCores(_, _, _, count) => count == -1
    case AllocatePercent(_, _, _, percent) => percent == -1 || percent == 0
    case AllocateNuma(_, _, _, _, count) => count == -1
  }

  function PercentCount(percent: Percent, eligible: set<nat>): int {
    if percent <= 0 then -1 else PercentSize(|eligible|, percent)
  }

  /** One request, from the ledger it finds to the ledger it commits and its reply. */
  function Execute(request: Request, host: Host, book: Book): Result<Outcome, Error> {
    match Configured(host, request.pool)
    case None => Err(PoolNotConfigured)
    case Some(configured) =>
      match Eligible(configured, host.online, Releases(request))
      case None => Err(OnlineUnreadable)
      case Some(eligible) =>
        match request
        case AllocateCores(service, pool, policy, count) =>
          HandleCores(book, service, pool, policy, count, host, configured, eligible)
        case AllocatePercent(service, pool, policy, percent) =>
          HandleCores(book, service, pool, policy, PercentCount(percent, eligible), host, configured, eligible)
        case AllocateNuma(service, pool, policy, node, count) =>
          HandleNuma(book, service, pool, policy, node, count, host, configured, eligible)
  }
}

/** When a request is granted, read off the host and the ledger alone, and why it is refused. */
module Conditions {
  import opened Wrappers
  import opened SortedSets
  import opened SmtSelection
  import opened Sizing
  import opened Ledger
  import opened Requests
  import opened Guarantees

  // ---------- The capacity of a pool ----------

  /** The CPU is configured for the pool. */
  predicate InPool(host: Host, pool: Pool, cpu: nat) {
    if pool == Isolated then cpu in host.isolated else host.general.Some? && cpu in host.general.value
  }

  /** The CPUs that are in the pool and were online at the first reading; none when that failed. */
  function Usable(host: Host, pool: Pool): set<nat> {
    match host.online
    case None => {}
    case Some(online) => set cpu | cpu in online && InPool(host, pool, cpu)
  }

  /** Whether the pool exists at all: the general one may be unconfigured. */
  predicate PoolExists(host: Host, pool: Pool) { pool == General ==> host.general.Some? }

  lemma EligibleIsUsable(request: Request, host: Host)
    ensures Configured(host, request.pool).Some? <==> PoolExists(host, request.pool)
    ensures forall cpu :: cpu in ConfiguredOf(request, host) <==> InPool(host, request.pool, cpu)
    ensures PoolExists(host, request.pool) && (host.online.Some? || Releases(request)) ==>
              EligibleOf(request, host) == Usable(host, request.pool)
              && Eligible(ConfiguredOf(request, host), host.online, Releases(request))
                 == Some(EligibleOf(request, host))
    ensures host.online.None? && !Releases(request) ==>
              Eligible(ConfiguredOf(request, host), host.online, Releases(request)).None?
  {
    assert forall cpu :: cpu in ConfiguredOf(request, host) <==> InPool(host, request.pool, cpu);
  }

  // ---------- What every grant needs ----------

  /** The policy the request acts with: the one it names, else that of its claims, else legacy. */
  function Acting(request: Request, book: Book): Policy {
    match request.policy
    case Some(policy) => policy
    case None => if request.service in book then book[request.service].policy else Legacy
  }

  predicate Downgrades(request: Request, book: Book) {
    request.service in book && book[request.service].policy == NonPreemptive && request.policy == Some(Legacy)
  }

  /** The pool exists and can be read, the service is not in the other pool, all claims of the pool
      lie in it, protection is not given up, and the service's own CPUs are usable. */
  ghost predicate MayAsk(request: Request, host: Host, book: Book) {
    && PoolExists(host, request.pool) && host.online.Some?
    && (request.service in book ==> book[request.service].pool == request.pool)
    && (forall n, cpu :: n in book && book[n].pool == request.pool && cpu in book[n].cpus ==>
          InPool(host, request.pool, cpu))
    && !Downgrades(request, book)
    && (request.service in book ==> book[request.service].cpus <= Usable(host, request.pool))
  }

  lemma ActingIsEffective(request: Request, book: Book)
    ensures EffectivePolicy(book, request.service, request.policy) ==
            if Downgrades(request, book) then None else Some(Acting(request, book))
  {
  }

  lemma MayAskIsChecked(request: Request, host: Host, book: Book)
    requires !Releases(request)
    ensures MayAsk(request, host, book) <==>
            && Configured(host, request.pool).Some? && host.online.Some?
            && !InOtherPool(book, request.service, request.pool)
            && ClaimedIn(book, request.pool) <= ConfiguredOf(request, host)
            && EffectivePolicy(book, request.service, request.policy) == Some(Acting(request, book))
            && Owned(book, request.service) <= EligibleOf(request, host)
  {
    hide Configured, ConfiguredOf, Eligible, EligibleOf, EffectivePolicy, InPool, Usable;
    EligibleIsUsable(request, host);
    ActingIsEffective(request, book);
    if ClaimedIn(book, request.pool) <= ConfiguredOf(request, host) {
      forall n, cpu | n in book && book[n].pool == request.pool && cpu in book[n].cpus
        ensures InPool(host, request.pool, cpu)
      {
        assert cpu in ClaimedIn(book, request.pool);
      }
    }
  }

  // ---------- NUMA grants ----------

  /** The owner has no claim on the CPU, or both sides are legacy, in one pool, and the claim is
      not explicit. */
  predicate Yields(entry: Entry, policy: Policy, pool: Pool, cpu: nat) {
    cpu !in entry.cpus || (policy == Legacy && entry.policy == Legacy && entry.pool == pool && cpu !in entry.explicit)
  }

  predicate NodeKnown(request: Request, host: Host)
    requires request.AllocateNuma?
  {
    host.topology.Some? && request.node in host.topology.value
  }

  /** The usable CPUs of the node that nobody withholds from the service. */
  ghost function FreeInNode(request: Request, host: Host, book: Book): set<nat>
    requires request.AllocateNuma? && NodeKnown(request, host)
  {
    set cpu | cpu in Usable(host, request.pool) && cpu in host.topology.value[request.node]
      && forall n :: n in book && n != request.service ==> Yields(book[n], Acting(request, book), request.pool, cpu)
  }

  lemma FreeInNodeIsFiltered(request: Request, host: Host, book: Book)
    requires WellFormed(book) && request.AllocateNuma? && NodeKnown(request, host)
    ensures FreeInNode(request, host, book)
         == NumaCandidates(book, request.service, host.topology.value[request.node] * Usable(host, request.pool),
                           Acting(request, book), request.pool)
  {
    hide Usable, Acting, NumaCandidates, WellFormed;
    var node, usable := host.topology.value[request.node] * Usable(host, request.pool), Usable(host, request.pool);
    forall cpu | cpu in node
      ensures cpu in FreeInNode(request, host, book)
         <==> cpu in NumaCandidates(book, request.service, node, Acting(request, book), request.pool)
    {
      CandidateIffReclaimable(book, request.service, node, Acting(request, book), request.pool, cpu);
    }
    CandidatesAreOffered(book, request.service, node, Acting(request, book), request.pool);
  }

  lemma CandidatesAreOffered(book: Book, service: string, offered: set<nat>, policy: Policy, pool: Pool)
    ensures NumaCandidates(book, service, offered, policy, pool) <= offered
  {
  }

  /** A NUMA request that is no release is granted if and only if it asks for a positive number,
      may ask at all, the node is known, enough of its CPUs are free, and the chosen ones are still
      online when they are read again. */
  lemma NumaGrantIff(request: Request, host: Host, book: Book)
    requires WellFormed(book) && request.AllocateNuma? && !Releases(request)
    ensures Execute(request, host, book).Ok? <==>
            && request.count > 0 && MayAsk(request, host, book) && NodeKnown(request, host)
            && |FreeInNode(request, host, book)| >= request.count
            && ConfirmedOnline(NumaSelection(book, request.service, FreeInNode(request, host, book), request.count,
                                             Acting(request, book), host.siblings), host.recheck)
    ensures Execute(request, host, book).Ok? ==>
            Execute(request, host, book).value.reply.granted
            == NumaSelection(book, request.service, FreeInNode(request, host, book), request.count,
                             Acting(request, book), host.siblings)
  {
    hide HandleCores, HandleNuma, MayAsk, Usable, Eligible, EligibleOf, ConfiguredOf, Configured, FreeInNode,
      NumaSelection,
      NumaCandidates, EffectivePolicy, Acting, WellFormed, ClaimedIn, Owned, InOtherPool, Numa, PoolExists;
    EligibleIsUsable(request, host);
    MayAskIsChecked(request, host, book);
    ActingIsEffective(request, book);
    var configured, eligible := ConfiguredOf(request, host), EligibleOf(request, host);
    if Configured(host, request.pool).Some? {
      ConfiguredIsSome(request, host);
    }
    assert Execute(request, host, book).Ok? ==> Configured(host, request.pool).Some? && host.online.Some?;
    if Configured(host, request.pool).Some? && host.online.Some? {
      if NodeKnown(request, host) {
        FreeInNodeIsFiltered(request, host, book);
      }
      HandledIff(request, host, book, configured, eligible);
    }
  }

  lemma ConfiguredIsSome(request: Request, host: Host)
    requires Configured(host, request.pool).Some?
    ensures Configured(host, request.pool) == Some(ConfiguredOf(request, host))
  {
  }

  lemma HandledIff(request: Request, host: Host, book: Book, configured: set<nat>, eligible: set<nat>)
    requires request.AllocateNuma? && !Releases(request)
    ensures var r := HandleNuma(book, request.service, request.pool, request.policy, request.node, request.count, host,
                                configured, eligible);
            r.Ok? <==>
            && request.count > 0 && NodeKnown(request, host)
            && !InOtherPool(book, request.service, request.pool)
            && ClaimedIn(book, request.pool) <= configured
            && EffectivePolicy(book, request.service, request.policy).Some?
            && Owned(book, request.service) <= eligible
            && var policy := EffectivePolicy(book, request.service, request.policy).value;
               var free := NumaCandidates(book, request.service, host.topology.value[request.node] * eligible, policy,
                                          request.pool);
               && |free| >= request.count
               && ConfirmedOnline(NumaSelection(book, request.service, free, request.count, policy, host.siblings),
                                  host.recheck)
    ensures var r := HandleNuma(book, request.service, request.pool, request.policy, request.node, request.count, host,
                                configured, eligible);
            r.Ok? ==>
              && EffectivePolicy(book, request.service, request.policy).Some? && NodeKnown(request, host)
              && var policy := EffectivePolicy(book, request.service, request.policy).value;
                 var free := NumaCandidates(book, request.service, host.topology.value[request.node] * eligible, policy,
                                            request.pool);
                 r.value.reply.granted == NumaSelection(book, request.service, free, request.count, policy, host.siblings)
  {
    hide NumaCandidates, NumaSelection, ClaimedIn, Owned, EffectivePolicy, InOtherPool, NumaGrant, Unavailable, Claimed,
      Subtract;
    if request.count > 0 && NodeKnown(request, host) && EffectivePolicy(book, request.service, request.policy).Some? {
      var node, policy := host.topology.value[request.node], EffectivePolicy(book, request.service, request.policy).value;
      var free := NumaCandidates(book, request.service, node * eligible, policy, request.pool);
      CandidatesAreOffered(book, request.service, node * eligible, policy, request.pool);
      SubsetSize(free, node * eligible);
      if |free| >= request.count {
        NumaSelectionExact(book, request.service, free, request.count, policy, host.siblings);
        NodeIsEligible(free, node, eligible);
      }
    }
  }

  lemma NodeIsEligible(free: set<nat>, node: set<nat>, eligible: set<nat>)
    requires free <= node * eligible && |free| > 0
    ensures eligible != {} && node * eligible != {}
  {
    var cpu :| cpu in free;
    assert cpu in node * eligible && cpu in eligible;
  }

  // ---------- Ordinary grants ----------

  /** The usable CPUs that no other service owns. */
  ghost function Free(request: Request, host: Host, book: Book): set<nat> {
    set cpu | cpu in Usable(host, request.pool) && forall n :: n in book && n != request.service ==> cpu !in book[n].cpus
  }

  lemma FreeIsFiltered(request: Request, host: Host, book: Book)
    ensures Free(request, host, book) == CountCandidates(book, request.service, Usable(host, request.pool))
  {
    forall cpu | cpu in ClaimedByOthers(book, request.service) ensures cpu !in Free(request, host, book) {
      var n :| n in book && n != request.service && cpu in book[n].cpus;
    }
  }

  /** How many CPUs an ordinary grant gives: the number asked for; by default four fifths of the
      free ones, or all but sixteen of more than a hundred; or the percentage of the usable ones,
      rounded up. */
  function Wanted(request: Request, usable: nat, free: nat): nat
    requires !request.AllocateNuma? && !Releases(request)
  {
    match request
    case AllocateCores(_, _, _, count) =>
      if count > 0 then count else if free > 100 then free - 16 else 4 * free / 5
    case AllocatePercent(_, _, _, percent) => (usable * percent + 99) / 100
  }

  lemma WantedIsAsked(request: Request, eligible: set<nat>, candidates: set<nat>)
    requires !request.AllocateNuma? && !Releases(request) && candidates <= eligible
    ensures CountSize(candidates, AskedCount(request, eligible)) == Wanted(request, |eligible|, |candidates|)
    ensures AskedCount(request, eligible) > 0 ==> AskedCount(request, eligible) == Wanted(request, |eligible|, |candidates|)
    ensures AskedCount(request, eligible) != -1
  {
    SubsetSize(candidates, eligible);
    if request.AllocatePercent? && |eligible| > 0 {
      PercentSizeBounds(|eligible|, request.percent);
    }
  }

  /** The count the handler passes on. */
  function AskedCount(request: Request, eligible: set<nat>): int
    requires !request.AllocateNuma?
  {
    if request.AllocateCores? then request.count else PercentCount(request.percent, eligible)
  }

  lemma CountIff(
    book: Book, service: string, count: int, eligible: set<nat>, requested: Option<Policy>, pool: Pool,
    recheck: Option<set<nat>>, siblings: Siblings)
    ensures var free := CountCandidates(book, service, eligible);
            var r := Count(book, service, count, eligible, requested, pool, recheck, siblings);
            && (r.Ok? <==>
                  && !InOtherPool(book, service, pool) && EffectivePolicy(book, service, requested).Some?
                  && Owned(book, service) <= eligible && count <= |free| && 0 < CountSize(free, count) <= |free|
                  && ConfirmedOnline(CountSelection(book, service, free, CountSize(free, count),
                                                    EffectivePolicy(book, service, requested).value, siblings), recheck))
            && (r.Ok? ==> r.value.second == CountSelection(book, service, free, CountSize(free, count),
                                                           EffectivePolicy(book, service, requested).value, siblings))
  {
    hide CountSelection, CountCandidates, CountGrant, EffectivePolicy, InOtherPool, Owned, ConfirmedOnline;
  }

  lemma CoresHandledIff(request: Request, host: Host, book: Book, configured: set<nat>, eligible: set<nat>)
    requires !request.AllocateNuma? && !Releases(request)
    ensures var r := HandleCores(book, request.service, request.pool, request.policy, AskedCount(request, eligible), host,
                                 configured, eligible);
            var free := CountCandidates(book, request.service, eligible);
            r.Ok? <==>
            && !InOtherPool(book, request.service, request.pool)
            && ClaimedIn(book, request.pool) <= configured
            && EffectivePolicy(book, request.service, request.policy).Some?
            && Owned(book, request.service) <= eligible
            && 0 < Wanted(request, |eligible|, |free|) <= |free|
            && ConfirmedOnline(CountSelection(book, request.service, free, Wanted(request, |eligible|, |free|),
                                              EffectivePolicy(book, request.service, request.policy).value, host.siblings),
                               host.recheck)
    ensures var r := HandleCores(book, request.service, request.pool, request.policy, AskedCount(request, eligible), host,
                                 configured, eligible);
            var free := CountCandidates(book, request.service, eligible);
            r.Ok? ==>
              && EffectivePolicy(book, request.service, request.policy).Some?
              && 0 < Wanted(request, |eligible|, |free|) <= |free|
              && r.value.reply.granted
                 == CountSelection(book, request.service, free, Wanted(request, |eligible|, |free|),
                                   EffectivePolicy(book, request.service, request.policy).value, host.siblings)
  {
    hide AskedCount, Wanted, CountSelection, CountCandidates, ClaimedIn, Owned, EffectivePolicy, InOtherPool, Count,
      Claimed, Release, CountSize, ConfirmedOnline, Remaining, PolicyReply;
    var free := CountCandidates(book, request.service, eligible);
    CountCandidatesAreEligible(book, request.service, eligible);
    WantedIsAsked(request, eligible, free);
    CountIff(book, request.service, AskedCount(request, eligible), eligible, request.policy, request.pool, host.recheck,
      host.siblings);
    SubsetSize(free, eligible);
  }

  lemma CountCandidatesAreEligible(book: Book, service: string, eligible: set<nat>)
    ensures CountCandidates(book, service, eligible) <= eligible
  {
  }

  /** An ordinary or percentage request that is no release is granted if and only if it may ask at
      all, the number it comes to is positive and not more than the free CPUs, and the chosen ones
      are still online when they are read again. */
  lemma CountGrantIff(request: Request, host: Host, book: Book)
    requires !request.AllocateNuma? && !Releases(request)
    ensures var free := Free(request, host, book);
            var wanted := Wanted(request, |Usable(host, request.pool)|, |free|);
            Execute(request, host, book).Ok? <==>
            && MayAsk(request, host, book) && 0 < wanted <= |free|
            && ConfirmedOnline(CountSelection(book, request.service, free, wanted, Acting(request, book), host.siblings),
                               host.recheck)
    ensures var free := Free(request, host, book);
            var wanted := Wanted(request, |Usable(host, request.pool)|, |free|);
            Execute(request, host, book).Ok? ==>
              && wanted <= |free|
              && Execute(request, host, book).value.reply.granted
                 == CountSelection(book, request.service, free, wanted, Acting(request, book), host.siblings)
  {
    hide HandleCores, HandleNuma, MayAsk, Usable, Eligible, EligibleOf, ConfiguredOf, Configured, Free, CountSelection,
      CountCandidates, EffectivePolicy, Acting, ClaimedIn, Owned, InOtherPool, Count, PoolExists, Wanted;
    EligibleIsUsable(request, host);
    MayAskIsChecked(request, host, book);
    ActingIsEffective(request, book);
    FreeIsFiltered(request, host, book);
    var configured, eligible := ConfiguredOf(request, host), EligibleOf(request, host);
    if Configured(host, request.pool).Some? {
      ConfiguredIsSome(request, host);
    }
    assert Execute(request, host, book).Ok? ==> Configured(host, request.pool).Some? && host.online.Some?;
    if Configured(host, request.pool).Some? && host.online.Some? {
      CoresHandledIff(request, host, book, configured, eligible);
    }
  }

  // ---------- Refusals ----------

  /** What each refusal says about the request, the host and the ledger. */
  ghost predicate Truthful(error: Error, request: Request, host: Host, book: Book) {
    var usable := Usable(host, request.pool);
    match error
    case PoolNotConfigured => !PoolExists(host, request.pool)
    case OnlineUnreadable => !Releases(request) && (host.online.None? || host.recheck.None?)
    case WrongPool => request.service in book && book[request.service].pool != request.pool
    case PoolExcludesClaims =>
      exists n, cpu :: n in book && book[n].pool == request.pool && cpu in book[n].cpus && !InPool(host, request.pool, cpu)
    case NoCpusAvailable => usable == {}
    case ProtectedDowngrade => Downgrades(request, book)
    case ClaimsOutsidePool => request.service in book && !(book[request.service].cpus <= usable)
    case BecameUnavailable => host.recheck.Some? && !(usable <= host.recheck.value)
    case InsufficientCpus =>
      && !request.AllocateNuma? && !Releases(request)
      && Wanted(request, |usable|, |Free(request, host, book)|) > |Free(request, host, book)|
    case NothingSelected =>
      && !request.AllocateNuma? && !Releases(request)
      && Wanted(request, |usable|, |Free(request, host, book)|) == 0
    case ZeroCount => request.AllocateNuma? && request.count == 0
    case InvalidCount => request.AllocateNuma? && request.count < -1
    case TopologyUnavailable => request.AllocateNuma? && host.topology.None?
    case NoSuchNode => request.AllocateNuma? && host.topology.Some? && request.node !in host.topology.value
    case NodeNotEligible =>
      request.AllocateNuma? && NodeKnown(request, host) && host.topology.value[request.node] !! usable
    case NodeTooSmall =>
      request.AllocateNuma? && NodeKnown(request, host) && |host.topology.value[request.node] * usable| < request.count
    case HeldByOthers =>
      && request.AllocateNuma? && NodeKnown(request, host)
      && |FreeInNode(request, host, book)| < request.count <= |host.topology.value[request.node] * usable|
    case _ => false
  }

  lemma ExcludedClaim(request: Request, host: Host, book: Book)
    ensures ClaimedIn(book, request.pool) <= ConfiguredOf(request, host) ||
            exists n, cpu :: n in book && book[n].pool == request.pool && cpu in book[n].cpus
              && !InPool(host, request.pool, cpu)
  {
    hide InPool;
    EligibleIsUsable(request, host);
    if !(ClaimedIn(book, request.pool) <= ConfiguredOf(request, host)) {
      var cpu :| cpu in ClaimedIn(book, request.pool) && cpu !in ConfiguredOf(request, host);
      var n :| n in book && book[n].pool == request.pool && cpu in book[n].cpus;
      assert !InPool(host, request.pool, cpu);
    }
  }

  lemma ChosenAreUsable(chosen: set<nat>, usable: set<nat>, recheck: set<nat>)
    requires chosen <= usable && !(chosen <= recheck)
    ensures !(usable <= recheck)
  {
  }

  /** The same of the NUMA handler, in its own terms. */
  ghost predicate NumaHandlerSays(
    error: Error, request: Request, host: Host, book: Book, configured: set<nat>, eligible: set<nat>)
    requires request.AllocateNuma?
  {
    var policy := EffectivePolicy(book, request.service, request.policy);
    match error
    case ZeroCount => request.count == 0
    case InvalidCount => request.count < -1
    case WrongPool => InOtherPool(book, request.service, request.pool)
    case TopologyUnavailable => host.topology.None?
    case NoSuchNode => host.topology.Some? && request.node !in host.topology.value
    case PoolExcludesClaims => !(ClaimedIn(book, request.pool) <= configured)
    case NoCpusAvailable => eligible == {}
    case NodeNotEligible => NodeKnown(request, host) && host.topology.value[request.node] * eligible == {}
    case NodeTooSmall => NodeKnown(request, host) && |host.topology.value[request.node] * eligible| < request.count
    case ProtectedDowngrade => policy.None?
    case ClaimsOutsidePool => !(Owned(book, request.service) <= eligible)
    case OnlineUnreadable => host.recheck.None?
    case BecameUnavailable => host.recheck.Some? && !(eligible <= host.recheck.value)
    case HeldByOthers =>
      && NodeKnown(request, host) && policy.Some?
      && var offered := host.topology.value[request.node] * eligible;
         |NumaCandidates(book, request.service, offered, policy.value, request.pool)| < request.count <= |offered|
    case _ => false
  }

  lemma NumaOperationRefusal(
    book: Book, service: string, node: set<nat>, count: int, eligible: set<nat>, requested: Option<Policy>, pool: Pool,
    recheck: Option<set<nat>>, siblings: Siblings)
    ensures var r := Numa(book, service, node, count, eligible, requested, pool, recheck, siblings);
            var policy := EffectivePolicy(book, service, requested);
            && (r.Ok? ==> count >= -1)
            && (r.Ok? && count > 0 && r.value.first == {} ==>
                  policy.Some? && |NumaCandidates(book, service, node * eligible, policy.value, pool)| < count)
            && (r.Err? ==>
                  match r.error
                  case WrongPool => InOtherPool(book, service, pool)
                  case InvalidCount => count < -1
                  case ProtectedDowngrade => policy.None?
                  case ClaimsOutsidePool => !(Owned(book, service) <= eligible)
                  case OnlineUnreadable => recheck.None?
                  case BecameUnavailable => recheck.Some? && !(eligible <= recheck.value)
                  case _ => false)
  {
    hide NumaSelection, NumaCandidates, EffectivePolicy, NumaGrant, Subtract, Unavailable, Owned, InOtherPool;
    var policy := EffectivePolicy(book, service, requested);
    if policy.Some? && count > 0 {
      var free := NumaCandidates(book, service, node * eligible, policy.value, pool);
      CandidatesAreOffered(book, service, node * eligible, policy.value, pool);
      if count <= |free| {
        NumaSelectionExact(book, service, free, count, policy.value, siblings);
        var chosen := NumaSelection(book, service, free, count, policy.value, siblings);
        if recheck.Some? && !(chosen <= recheck.value) {
          ChosenAreUsable(chosen, eligible, recheck.value);
        }
      }
    }
  }

  /** The checks before the database call pass. */
  predicate NumaAdmitted(request: Request, host: Host, book: Book, configured: set<nat>, eligible: set<nat>)
    requires request.AllocateNuma?
  {
    && request.count != 0 && !InOtherPool(book, request.service, request.pool) && NodeKnown(request, host)
    && ClaimedIn(book, request.pool) <= configured && eligible != {}
    && host.topology.value[request.node] * eligible != {}
    && request.count <= |host.topology.value[request.node] * eligible|
  }

  /** The first check that fails, in the handler's order. */
  function FirstRefusal(request: Request, host: Host, book: Book, configured: set<nat>, eligible: set<nat>): Error
    requires request.AllocateNuma?
  {
    if request.count == 0 then ZeroCount
    else if InOtherPool(book, request.service, request.pool) then WrongPool
    else if host.topology.None? then TopologyUnavailable
    else if request.node !in host.topology.value then NoSuchNode
    else if !(ClaimedIn(book, request.pool) <= configured) then PoolExcludesClaims
    else if eligible == {} then NoCpusAvailable
    else if host.topology.value[request.node] * eligible == {} then NodeNotEligible
    else NodeTooSmall
  }

  lemma FirstRefusalSays(request: Request, host: Host, book: Book, configured: set<nat>, eligible: set<nat>)
    requires request.AllocateNuma? && !NumaAdmitted(request, host, book, configured, eligible)
    ensures NumaHandlerSays(FirstRefusal(request, host, book, configured, eligible), request, host, book, configured, eligible)
  {
    hide NumaCandidates, EffectivePolicy, ClaimedIn, Owned, InOtherPool;
  }

  lemma NumaNotAdmitted(request: Request, host: Host, book: Book, configured: set<nat>, eligible: set<nat>)
    requires request.AllocateNuma? && !Releases(request) && !NumaAdmitted(request, host, book, configured, eligible)
    ensures HandleNuma(book, request.service, request.pool, request.policy, request.node, request.count, host, configured,
                       eligible) == Err(FirstRefusal(request, host, book, configured, eligible))
  {
    hide Numa, Claimed, ClaimedIn, InOtherPool, Remaining, PolicyReply;
  }

  lemma NumaAfterAdmission(request: Request, host: Host, book: Book, configured: set<nat>, eligible: set<nat>)
    requires request.AllocateNuma? && !Releases(request) && NumaAdmitted(request, host, book, configured, eligible)
    ensures var r := HandleNuma(book, request.service, request.pool, request.policy, request.node, request.count, host,
                                configured, eligible);
            var n := Numa(book, request.service, host.topology.value[request.node], request.count, eligible, request.policy,
                          request.pool, host.recheck, host.siblings);
            r.Err? ==> if n.Err? then r.error == n.error else r.error == HeldByOthers && n.value.first == {}
  {
    hide Numa, Claimed, ClaimedIn, InOtherPool, Remaining, PolicyReply;
  }

  lemma NumaHandlerRefusal(request: Request, host: Host, book: Book, configured: set<nat>, eligible: set<nat>)
    requires request.AllocateNuma? && !Releases(request)
    ensures var r := HandleNuma(book, request.service, request.pool, request.policy, request.node, request.count, host,
                                configured, eligible);
            r.Err? ==> NumaHandlerSays(r.error, request, host, book, configured, eligible)
  {
    hide HandleNuma, Numa, NumaCandidates, EffectivePolicy, ClaimedIn, Owned, InOtherPool;
    if NumaAdmitted(request, host, book, configured, eligible) {
      NumaAfterAdmission(request, host, book, configured, eligible);
      NumaOperationRefusal(book, request.service, host.topology.value[request.node], request.count, eligible,
        request.policy, request.pool, host.recheck, host.siblings);
    } else {
      NumaNotAdmitted(request, host, book, configured, eligible);
      FirstRefusalSays(request, host, book, configured, eligible);
    }
  }

  lemma NumaRefusal(request: Request, host: Host, book: Book)
    requires WellFormed(book) && request.AllocateNuma? && !Releases(request)
    requires PoolExists(host, request.pool) && host.online.Some? && Execute(request, host, book).Err?
    ensures Truthful(Execute(request, host, book).error, request, host, book)
  {
    hide Usable, Eligible, EligibleOf, ConfiguredOf, Configured, NumaCandidates, EffectivePolicy, Acting, HandleNuma,
      WellFormed, FreeInNode, InPool, Downgrades, ClaimedIn;
    EligibleIsUsable(request, host);
    ConfiguredIsSome(request, host);
    ActingIsEffective(request, book);
    ExcludedClaim(request, host, book);
    NumaHandlerRefusal(request, host, book, ConfiguredOf(request, host), EligibleOf(request, host));
    if NodeKnown(request, host) {
      FreeInNodeIsFiltered(request, host, book);
      DifferenceFacts(host.topology.value[request.node], EligibleOf(request, host));
    }
  }

  lemma CountRefusal(
    book: Book, service: string, count: int, eligible: set<nat>, requested: Option<Policy>, pool: Pool,
    recheck: Option<set<nat>>, siblings: Siblings)
    ensures var r := Count(book, service, count, eligible, requested, pool, recheck, siblings);
            r.Err? ==>
              var free := CountCandidates(book, service, eligible);
              match r.error
              case WrongPool => InOtherPool(book, service, pool)
              case ProtectedDowngrade => EffectivePolicy(book, service, requested).None?
              case ClaimsOutsidePool => !(Owned(book, service) <= eligible)
              case InsufficientCpus => count > |free|
              case NothingSelected => CountSize(free, count) == 0
              case OnlineUnreadable => recheck.None?
              case BecameUnavailable => recheck.Some? && !(eligible <= recheck.value)
              case _ => false
  {
    hide CountSelection, CountCandidates, CountGrant, EffectivePolicy, InOtherPool, Owned;
    var free, policy := CountCandidates(book, service, eligible), EffectivePolicy(book, service, requested);
    CountCandidatesAreEligible(book, service, eligible);
    if policy.Some? && CountSize(free, count) <= |free| {
      CountSelectionExact(book, service, free, CountSize(free, count), policy.value, siblings);
      var chosen := CountSelection(book, service, free, CountSize(free, count), policy.value, siblings);
      if recheck.Some? && !(chosen <= recheck.value) {
        ChosenAreUsable(chosen, eligible, recheck.value);
      }
    }
  }

  lemma CoresRefusal(request: Request, host: Host, book: Book)
    requires !request.AllocateNuma? && !Releases(request)
    requires PoolExists(host, request.pool) && host.online.Some? && Execute(request, host, book).Err?
    ensures Truthful(Execute(request, host, book).error, request, host, book)
  {
    hide Usable, Eligible, EligibleOf, ConfiguredOf, Configured, Count, CountCandidates, EffectivePolicy, Acting,
      Free, InPool, Downgrades, Claimed, ClaimedIn, Wanted, CountSize, Remaining, PolicyReply;
    EligibleIsUsable(request, host);
    ConfiguredIsSome(request, host);
    ActingIsEffective(request, book);
    FreeIsFiltered(request, host, book);
    ExcludedClaim(request, host, book);
    var eligible, free := Usable(host, request.pool), Free(request, host, book);
    CountCandidatesAreEligible(book, request.service, eligible);
    WantedIsAsked(request, eligible, free);
    CountRefusal(book, request.service, AskedCount(request, eligible), eligible, request.policy, request.pool,
      host.recheck, host.siblings);
  }

  lemma ReleaseRefusal(request: Request, host: Host, book: Book)
    requires Releases(request) && PoolExists(host, request.pool) && Execute(request, host, book).Err?
    ensures Truthful(Execute(request, host, book).error, request, host, book)
  {
    hide Eligible, EligibleOf, ConfiguredOf, Configured, Subtract, Release, Claimed, InPool, Usable;
    EligibleIsUsable(request, host);
    ConfiguredIsSome(request, host);
  }

  /** Every refusal is true of the host and the ledger it was given for. In particular none of the
      guards that only protect against a wrong selection ever fires. */
  lemma RefusalsAreTrue(request: Request, host: Host, book: Book)
    requires WellFormed(book) && Execute(request, host, book).Err?
    ensures Truthful(Execute(request, host, book).error, request, host, book)
  {
    hide HandleCores, HandleNuma, Truthful, Usable, Eligible, EligibleOf, ConfiguredOf, Configured, PoolExists,
      WellFormed;
    EligibleIsUsable(request, host);
    if !PoolExists(host, request.pool) {
      EarlyRefusal(Execute(request, host, book).error, request, host, book);
    } else {
      ConfiguredIsSome(request, host);
      if Releases(request) {
        ReleaseRefusal(request, host, book);
      } else if host.online.None? {
        EarlyRefusal(Execute(request, host, book).error, request, host, book);
      } else if request.AllocateNuma? {
        NumaRefusal(request, host, book);
      } else {
        CoresRefusal(request, host, book);
      }
    }
  }

  lemma EarlyRefusal(error: Error, request: Request, host: Host, book: Book)
    requires || (error == PoolNotConfigured && !PoolExists(host, request.pool))
             || (error == OnlineUnreadable && host.online.None? && !Releases(request))
    ensures Truthful(error, request, host, book)
  {
  }
}

/** What every single request keeps, takes and grants. */
module Guarantees {
  import opened Wrappers
  import opened SortedSets
  import opened SmtSelection
  import opened Sizing
  import opened Ledger
  import opened Requests

  // ---------- Selections are exact ----------

  /** Exactly `count` candidates; own ones are kept on growth and nothing else is taken on shrink. */
  lemma SelectStableExact(owned: set<nat>, candidates: set<nat>, siblings: Siblings, count: nat)
    requires count <= |candidates|
    ensures var selected := SelectStable(owned, candidates, siblings, count);
            && selected <= candidates && |selected| == count
            && (count >= |owned * candidates| ==> owned * candidates <= selected)
            && (count <= |owned * candidates| ==> selected <= owned * candidates)
  {
    hide Select, Lowest, Sorted;
    var own := owned * candidates;
    SubsetSize(own, candidates);
    if count <= |own| {
      LowestIsLowest(own, count);
      SubsetSize(SelectStable(owned, candidates, siblings, count), own);
    } else {
      SelectExact(candidates - own, siblings, count - |own|);
      assert own !! Select(candidates - own, siblings, count - |own|);
    }
  }

  lemma CountSelectionExact(
    book: Book, service: string, candidates: set<nat>, size: nat, policy: Policy, siblings: Siblings)
    requires size <= |candidates|
    ensures var selected := CountSelection(book, service, candidates, size, policy, siblings);
            selected <= candidates && |selected| == size
  {
    hide SelectStable, Lowest, Sorted;
    SelectStableExact(Owned(book, service), candidates, siblings, size);
    LowestIsLowest(candidates, size);
  }

  lemma NumaSelectionExact(
    book: Book, service: string, candidates: set<nat>, count: nat, policy: Policy, siblings: Siblings)
    requires count <= |candidates|
    ensures var selected := NumaSelection(book, service, candidates, count, policy, siblings);
            selected <= candidates && |selected| == count
  {
    hide SelectStable, Select, Sorted;
    SelectStableExact(Owned(book, service), candidates, siblings, count);
    SelectExact(candidates, siblings, count);
  }

  // ---------- The shape of a successful request ----------

  /** Every successful request is one of four transitions of the ledger. */
  datatype Effect =
    | Released
    | ReleasedIn(node: set<nat>)
    | GrantedCount(selected: set<nat>, policy: Policy)
    | GrantedNuma(node: set<nat>, selected: set<nat>, policy: Policy)

  function EligibleOf(request: Request, host: Host): set<nat> {
    match Configured(host, request.pool)
    case None => {}
    case Some(configured) =>
      match Eligible(configured, host.online, Releases(request))
      case None => {}
      case Some(eligible) => eligible
  }

  function ConfiguredOf(request: Request, host: Host): set<nat> {
    match Configured(host, request.pool) case None => {} case Some(configured) => configured
  }

  function After(book: Book, request: Request, effect: Effect): Book {
    match effect
    case Released => Release(book, request.service)
    case ReleasedIn(node) => Subtract(book, {request.service}, node)
    case GrantedCount(selected, policy) => CountGrant(book, request.service, selected, policy, request.pool)
    case GrantedNuma(node, selected, policy) => NumaGrant(book, request.service, node, selected, policy, request.pool)
  }

  /** The conditions under which each transition is taken. */
  ghost predicate Justified(book: Book, request: Request, host: Host, effect: Effect) {
    && !InOtherPool(book, request.service, request.pool)
    && match effect
       case Released => Releases(request) && !request.AllocateNuma?
       case ReleasedIn(node) => Releases(request) && IsNode(request, host, node)
       case GrantedCount(selected, policy) =>
         && GrantAllowed(book, request, host, selected, policy)
         && selected !! ClaimedByOthers(book, request.service)
       case GrantedNuma(node, selected, policy) =>
         && IsNode(request, host, node) && |selected| == request.count > 0
         && GrantAllowed(book, request, host, selected, policy)
         && selected <= NumaCandidates(book, request.service, node, policy, request.pool)
  }

  /** `node` are the CPUs of the node that the request names. */
  predicate IsNode(request: Request, host: Host, node: set<nat>) {
    && request.AllocateNuma? && host.topology.Some? && request.node in host.topology.value
    && node == host.topology.value[request.node]
  }

  ghost predicate GrantAllowed(book: Book, request: Request, host: Host, selected: set<nat>, policy: Policy) {
    && !Releases(request)
    && EffectivePolicy(book, request.service, request.policy) == Some(policy)
    && selected != {} && selected <= EligibleOf(request, host)
    && ConfirmedOnline(selected, host.recheck)
    && Owned(book, request.service) <= EligibleOf(request, host)
    && ClaimedIn(book, request.pool) <= ConfiguredOf(request, host)
  }

  lemma CoresEffect(book: Book, request: Request, host: Host, count: int) returns (effect: Effect)
    requires WellFormed(book) && !request.AllocateNuma? && Configured(host, request.pool).Some?
    requires (count == -1) == Releases(request)
    requires HandleCores(book, request.service, request.pool, request.policy, count, host,
                         ConfiguredOf(request, host), EligibleOf(request, host)).Ok?
    ensures Justified(book, request, host, effect)
    ensures HandleCores(book, request.service, request.pool, request.policy, count, host,
                        ConfiguredOf(request, host), EligibleOf(request, host)).value.book == After(book, request, effect)
  {
    hide CountSelection, DefaultSize, ClaimedByOthers, Claimed;
    var service, eligible := request.service, EligibleOf(request, host);
    if count == -1 {
      effect := Released;
    } else {
      var policy := EffectivePolicy(book, service, request.policy).value;
      var candidates := CountCandidates(book, service, eligible);
      var size := CountSize(candidates, count);
      var selected := CountSelection(book, service, candidates, size, policy, host.siblings);
      CountSelectionExact(book, service, candidates, size, policy, host.siblings);
      effect := GrantedCount(selected, policy);
    }
  }

  /** A NUMA operation that hands out CPUs has passed every guard. */
  lemma NumaGranted(
    book: Book, service: string, node: set<nat>, count: int, eligible: set<nat>, requested: Option<Policy>, pool: Pool,
    recheck: Option<set<nat>>, siblings: Siblings) returns (selected: set<nat>, policy: Policy)
    requires count > 0
    requires Numa(book, service, node, count, eligible, requested, pool, recheck, siblings).Ok?
    requires Numa(book, service, node, count, eligible, requested, pool, recheck, siblings).value.first != {}
    ensures Numa(book, service, node, count, eligible, requested, pool, recheck, siblings).value
         == Grant(NumaGrant(book, service, node, selected, policy, pool), selected, {})
    ensures EffectivePolicy(book, service, requested) == Some(policy)
    ensures selected <= NumaCandidates(book, service, node, policy, pool) && selected <= node && selected <= eligible
    ensures |selected| == count && selected != {}
    ensures ConfirmedOnline(selected, recheck) && Owned(book, service) <= eligible
  {
    hide NumaSelection, NumaGrant, Unavailable;
    policy := EffectivePolicy(book, service, requested).value;
    var candidates := NumaCandidates(book, service, node * eligible, policy, pool);
    selected := NumaSelection(book, service, candidates, count, policy, siblings);
    NumaSelectionExact(book, service, candidates, count, policy, siblings);
  }

  lemma NumaHandled(
    book: Book, service: string, pool: Pool, policy: Option<Policy>, node: nat, count: int,
    host: Host, configured: set<nat>, eligible: set<nat>)
    requires HandleNuma(book, service, pool, policy, node, count, host, configured, eligible).Ok?
    ensures host.topology.Some? && node in host.topology.value && !InOtherPool(book, service, pool)
    ensures var cpus := host.topology.value[node];
            var result := Numa(book, service, cpus, count, eligible, policy, pool, host.recheck, host.siblings);
            && result.Ok?
            && HandleNuma(book, service, pool, policy, node, count, host, configured, eligible).value ==
               Outcome(result.value.book, Reply(result.value.first, {}, PolicyReply(result.value.book, service),
                                                |eligible|, Remaining(result.value.book, eligible)))
            && (count != -1 ==> ClaimedIn(book, pool) <= configured && result.value.first != {})
    ensures count >= -1 && count != 0
  {
    hide ClaimedIn, Claimed, NumaGrant, Unavailable, NumaSelection;
  }

  lemma NumaEffect(book: Book, request: Request, host: Host) returns (effect: Effect)
    requires WellFormed(book) && request.AllocateNuma? && Configured(host, request.pool).Some?
    requires HandleNuma(book, request.service, request.pool, request.policy, request.node, request.count, host,
                        ConfiguredOf(request, host), EligibleOf(request, host)).Ok?
    ensures Justified(book, request, host, effect)
    ensures HandleNuma(book, request.service, request.pool, request.policy, request.node, request.count, host,
                       ConfiguredOf(request, host), EligibleOf(request, host)).value.book == After(book, request, effect)
  {
    hide HandleNuma, Justified, IsNode, GrantAllowed, NumaGrant, Subtract, NumaCandidates, ClaimedIn, EligibleOf,
      ConfiguredOf, EffectivePolicy;
    var service, eligible := request.service, EligibleOf(request, host);
    NumaHandled(book, service, request.pool, request.policy, request.node, request.count, host,
                ConfiguredOf(request, host), eligible);
    var node := host.topology.value[request.node];
    if request.count == -1 {
      effect := ReleasedIn(node);
      JustifyNumaRelease(book, request, host);
    } else {
      hide Numa;
      var selected, policy := NumaGranted(book, service, node, request.count, eligible, request.policy, request.pool,
                                          host.recheck, host.siblings);
      effect := GrantedNuma(node, selected, policy);
      JustifyNumaGrant(book, request, host, selected, policy);
    }
  }

  lemma JustifyNumaRelease(book: Book, request: Request, host: Host)
    requires request.AllocateNuma? && request.count == -1 && !InOtherPool(book, request.service, request.pool)
    requires host.topology.Some? && request.node in host.topology.value
    ensures Justified(book, request, host, ReleasedIn(host.topology.value[request.node]))
  {
  }

  lemma JustifyNumaGrant(book: Book, request: Request, host: Host, selected: set<nat>, policy: Policy)
    requires request.AllocateNuma? && |selected| == request.count > 0
    requires !InOtherPool(book, request.service, request.pool)
    requires host.topology.Some? && request.node in host.topology.value
    requires EffectivePolicy(book, request.service, request.policy) == Some(policy)
    requires selected != {} && selected <= EligibleOf(request, host) && ConfirmedOnline(selected, host.recheck)
    requires Owned(book, request.service) <= EligibleOf(request, host)
    requires ClaimedIn(book, request.pool) <= ConfiguredOf(request, host)
    requires selected <= NumaCandidates(book, request.service, host.topology.value[request.node], policy, request.pool)
    ensures Justified(book, request, host, GrantedNuma(host.topology.value[request.node], selected, policy))
  {
    hide EligibleOf, ConfiguredOf, ClaimedIn, NumaCandidates, EffectivePolicy;
  }

  lemma ExecuteEffect(request: Request, host: Host, book: Book) returns (effect: Effect)
    requires WellFormed(book) && Execute(request, host, book).Ok?
    ensures Justified(book, request, host, effect)
    ensures Execute(request, host, book).value.book == After(book, request, effect)
  {
    hide HandleCores, HandleNuma, After, Justified;
    var eligible := EligibleOf(request, host);
    match request
    case AllocateCores(_, _, _, count) => effect := CoresEffect(book, request, host, count);
    case AllocatePercent(_, _, _, percent) => effect := CoresEffect(book, request, host, PercentCount(percent, eligible));
    case AllocateNuma(_, _, _, _, _) => effect := NumaEffect(book, request, host);
  }

  // ---------- The ledger stays well formed ----------

  lemma EffectKeeps(book: Book, request: Request, host: Host, effect: Effect)
    requires WellFormed(book) && Justified(book, request, host, effect)
    ensures WellFormed(After(book, request, effect))
  {
    hide WellFormed, Release, Subtract, CountGrant, NumaGrant, Unavailable, ClaimedByOthers;
    match effect
    case Released => ReleaseKeeps(book, request.service);
    case ReleasedIn(node) => SubtractKeeps(book, {request.service}, node);
    case GrantedCount(selected, policy) => CountGrantKeeps(book, request.service, selected, policy, request.pool);
    case GrantedNuma(node, selected, policy) => NumaGrantKeeps(book, request.service, node, selected, policy, request.pool);
  }

  /** No request makes two services own one CPU, leaves an empty owner, or marks a CPU
      explicit that is not claimed. */
  lemma ExecuteKeepsWellFormed(request: Request, host: Host, book: Book)
    requires WellFormed(book) && Execute(request, host, book).Ok?
    ensures WellFormed(Execute(request, host, book).value.book)
  {
    hide Execute, After, Justified, WellFormed;
    var effect := ExecuteEffect(request, host, book);
    EffectKeeps(book, request, host, effect);
  }

  // ---------- Foreign claims ----------

  function Lookup(book: Book, owner: string): Option<Entry> {
    if owner in book then Some(book[owner]) else None
  }

  /** An owner without some of its CPUs, gone when none is left. */
  function Without(entry: Entry, lost: set<nat>): Option<Entry> {
    if entry.cpus - lost == {} then None else Some(entry.(cpus := entry.cpus - lost))
  }

  /** How an owner can fare under somebody else's request: not at all, or a legacy owner loses
      non-explicit CPUs, all of which a legacy NUMA request of its pool now holds explicitly. */
  ghost predicate Fares(request: Request, book: Book, after: Book, other: string)
    requires other in book
  {
    || Lookup(after, other) == Some(book[other])
    || (&& request.AllocateNuma? && request.count > 0
        && EffectivePolicy(book, request.service, request.policy) == Some(Legacy)
        && book[other].policy == Legacy && book[other].pool == request.pool
        && var lost := book[other].cpus * OwnedExplicitly(after, request.service);
           && lost != {} && lost !! book[other].explicit
           && Lookup(after, other) == Without(book[other], lost))
  }

  lemma GrantedNumaSparesOthers(
    book: Book, request: Request, host: Host, node: set<nat>, selected: set<nat>, policy: Policy, other: string)
    requires WellFormed(book) && Justified(book, request, host, GrantedNuma(node, selected, policy))
    requires other in book && other != request.service
    ensures Fares(request, book, NumaGrant(book, request.service, node, selected, policy, request.pool), other)
  {
    hide NumaGrant, NumaCandidates, EligibleOf, ConfiguredOf, ClaimedIn, Without, WellFormed;
    NumaGrantFrame(book, request.service, node, selected, policy, request.pool, other);
    GainIsLoss(book, request.service, other, node, selected);
    OwnsSomething(book, other);
    LossIsWithout(book, NumaGrant(book, request.service, node, selected, policy, request.pool), other, selected);
  }

  lemma OwnsSomething(book: Book, other: string)
    requires WellFormed(book) && other in book
    ensures book[other].cpus != {}
  {
  }

  lemma LossIsWithout(book: Book, after: Book, other: string, selected: set<nat>)
    requires other in book && Owned(after, other) == book[other].cpus - selected
    requires other in after ==> after[other] == book[other].(cpus := book[other].cpus - selected)
    requires other !in after <==> book[other].cpus <= selected
    ensures var lost := book[other].cpus * selected;
            && (Owned(after, other) != book[other].cpus ==> lost != {})
            && (Owned(after, other) == book[other].cpus != {} ==> Lookup(after, other) == Some(book[other]))
            && Lookup(after, other) == Without(book[other], lost)
  {
    DifferenceFacts(book[other].cpus, selected);
    assert book[other].cpus - book[other].cpus * selected == book[other].cpus - selected;
  }

  /** Of another owner's CPUs the requester comes to hold just the selected ones. */
  lemma GainIsLoss(book: Book, service: string, other: string, node: set<nat>, selected: set<nat>)
    requires WellFormed(book) && other in book && other != service
    ensures book[other].cpus * ((OwnedExplicitly(book, service) - node) + selected) == book[other].cpus * selected
  {
  }

  /** Only a requester that acts as legacy takes foreign CPUs, only by a NUMA request, only from
      legacy owners of the same pool and never their explicit ones; it then holds exactly what
      they lost, and policy, pool and explicit marks of the owner stay. */
  lemma OthersFare(request: Request, host: Host, book: Book, other: string)
    requires WellFormed(book) && Execute(request, host, book).Ok?
    requires other in book && other != request.service
    ensures Fares(request, book, Execute(request, host, book).value.book, other)
  {
    hide Execute, Justified, NumaGrant, WellFormed;
    var effect := ExecuteEffect(request, host, book);
    match effect
    case GrantedNuma(node, selected, policy) =>
      GrantedNumaSparesOthers(book, request, host, node, selected, policy, other);
    case _ =>
      assert Lookup(After(book, request, effect), other) == Some(book[other]);
  }

  /** A protected owner, or one of another pool, is not affected by foreign requests at all. */
  lemma ProtectedOwnerUntouched(request: Request, host: Host, book: Book, other: string)
    requires WellFormed(book) && Execute(request, host, book).Ok?
    requires other in book && other != request.service
    requires book[other].policy == NonPreemptive || book[other].pool != request.pool
    ensures Lookup(Execute(request, host, book).value.book, other) == Some(book[other])
  {
    hide Execute, WellFormed;
    OthersFare(request, host, book, other);
  }

  /** Explicit claims are never lost to others, whatever the policies, and keep their owner. */
  lemma ExplicitClaimsUntouched(request: Request, host: Host, book: Book, other: string)
    requires WellFormed(book) && Execute(request, host, book).Ok?
    requires other in book && other != request.service && book[other].explicit != {}
    ensures var after := Execute(request, host, book).value.book;
            && other in after && after[other].explicit == book[other].explicit
            && after[other].policy == book[other].policy && after[other].pool == book[other].pool
  {
    hide Execute;
    OthersFare(request, host, book, other);
    var lost := book[other].cpus * OwnedExplicitly(Execute(request, host, book).value.book, request.service);
    if book[other].cpus - lost == {} {
      assert forall c :: c in book[other].explicit ==> c in book[other].cpus && c in book[other].cpus - lost + lost;
    }
  }

  /** Between two states in which a service owns CPUs, its pool is fixed and protection is not lost. */
  lemma PolicyAndPoolPersist(request: Request, host: Host, book: Book, name: string)
    requires WellFormed(book) && Execute(request, host, book).Ok?
    requires name in book && name in Execute(request, host, book).value.book
    ensures var after := Execute(request, host, book).value.book;
            && after[name].pool == book[name].pool
            && (book[name].policy == NonPreemptive ==> after[name].policy == NonPreemptive)
  {
    hide Execute, WellFormed, NumaCandidates, ClaimedByOthers, EligibleOf, ClaimedIn;
    if name != request.service {
      OthersFare(request, host, book, name);
    } else {
      var effect := ExecuteEffect(request, host, book);
    }
  }

  // ---------- Pools ----------

  lemma ClaimedInMember(book: Book, pool: Pool, owner: string)
    requires owner in book && book[owner].pool == pool
    ensures book[owner].cpus <= ClaimedIn(book, pool)
  {
  }

  /** A grant in a pool needs all claims of that pool to be configured there, and keeps it so. */
  lemma PoolConfinement(request: Request, host: Host, book: Book)
    requires WellFormed(book) && Execute(request, host, book).Ok? && !Releases(request)
    ensures ClaimedIn(book, request.pool) <= ConfiguredOf(request, host)
    ensures ClaimedIn(Execute(request, host, book).value.book, request.pool) <= ConfiguredOf(request, host)
  {
    var effect := ExecuteEffect(request, host, book);
    var after := Execute(request, host, book).value.book;
    forall c | c in ClaimedIn(after, request.pool) ensures c in ConfiguredOf(request, host) {
      var n :| n in after && after[n].pool == request.pool && c in after[n].cpus;
      GrantStaysConfigured(book, request, host, effect, n, c);
    }
  }

  lemma GrantStaysConfigured(book: Book, request: Request, host: Host, effect: Effect, n: string, c: nat)
    requires WellFormed(book) && Justified(book, request, host, effect) && !Releases(request)
    requires n in After(book, request, effect) && After(book, request, effect)[n].pool == request.pool
    requires c in After(book, request, effect)[n].cpus
    ensures ClaimedIn(book, request.pool) <= ConfiguredOf(request, host)
    ensures c in ConfiguredOf(request, host)
  {
    hide WellFormed, NumaCandidates, ClaimedByOthers, ClaimedIn;
    assert EligibleOf(request, host) <= ConfiguredOf(request, host);
    assert GrantAllowed(book, request, host, effect.selected, effect.policy);
    if n == request.service {
      assert c in effect.selected || c in Owned(book, n);
    } else {
      assert n in book && book[n].pool == request.pool && c in book[n].cpus;
      ClaimedInMember(book, request.pool, n);
    }
  }

  /** Requests in one pool leave the claims of the other pool alone, whatever the pools are configured to. */
  lemma OtherPoolUntouched(request: Request, host: Host, book: Book, pool: Pool)
    requires WellFormed(book) && Execute(request, host, book).Ok? && pool != request.pool
    ensures ClaimedIn(Execute(request, host, book).value.book, pool) == ClaimedIn(book, pool)
  {
    var after := Execute(request, host, book).value.book;
    var effect := ExecuteEffect(request, host, book);
    hide Execute;
    forall c | c in ClaimedIn(book, pool) ensures c in ClaimedIn(after, pool) {
      var n :| n in book && book[n].pool == pool && c in book[n].cpus;
      ProtectedOwnerUntouched(request, host, book, n);
      assert n in after && after[n].pool == pool && c in after[n].cpus;
    }
    forall c | c in ClaimedIn(after, pool) ensures c in ClaimedIn(book, pool) {
      var n :| n in after && after[n].pool == pool && c in after[n].cpus;
      OwnerInPoolBefore(book, request, host, effect, n, pool);
      ProtectedOwnerUntouched(request, host, book, n);
      assert n in book && book[n].pool == pool && c in book[n].cpus;
    }
  }

  lemma OwnerInPoolBefore(book: Book, request: Request, host: Host, effect: Effect, n: string, pool: Pool)
    requires WellFormed(book) && Justified(book, request, host, effect) && pool != request.pool
    requires n in After(book, request, effect) && After(book, request, effect)[n].pool == pool
    ensures n in book && n != request.service && book[n].pool == pool
  {
    hide WellFormed, NumaCandidates, ClaimedByOthers, ClaimedIn, EligibleOf, IsNode, GrantAllowed, Owned,
      OwnedExplicitly;
  }
}

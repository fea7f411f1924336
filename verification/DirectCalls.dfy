/** The database's own entry points, called directly: when they accept and what they leave. */
module DirectCalls {
  import opened Wrappers
  import opened Ledger
  import opened Requests
  import opened Guarantees
  import opened Conditions
  import opened Replies

  /** The policy a call acts with. */
  function ActsAs(book: Book, service: string, requested: Option<Policy>): Policy {
    match requested
    case Some(policy) => policy
    case None => if service in book then book[service].policy else Legacy
  }

  /** The service is in the named pool, if anywhere, and does not give up protection. */
  predicate MayAct(book: Book, service: string, requested: Option<Policy>, pool: Pool) {
    service in book ==> book[service].pool == pool && !(book[service].policy == NonPreemptive && requested == Some(Legacy))
  }

  lemma MayActIsChecked(book: Book, service: string, requested: Option<Policy>, pool: Pool)
    ensures MayAct(book, service, requested, pool) <==>
            !InOtherPool(book, service, pool) && EffectivePolicy(book, service, requested).Some?
    ensures EffectivePolicy(book, service, requested).Some? ==>
            EffectivePolicy(book, service, requested).value == ActsAs(book, service, requested)
  {
  }

  /** `allocate_cores` accepts a list if and only if the service may act and nobody else owns any of
      the CPUs. An empty list changes nothing; another one becomes the whole claim of the service,
      none of it explicit, and nobody else is affected. */
  lemma ReplaceIff(book: Book, service: string, cpus: set<nat>, requested: Option<Policy>, pool: Pool)
    requires WellFormed(book)
    ensures Replace(book, service, cpus, requested, pool).Ok? <==>
            && MayAct(book, service, requested, pool)
            && forall n :: n in book && n != service ==> book[n].cpus !! cpus
    ensures Replace(book, service, cpus, requested, pool).Ok? ==>
            var after := Replace(book, service, cpus, requested, pool).value;
            && WellFormed(after)
            && (cpus == {} ==> after == book)
            && (cpus != {} ==> Lookup(after, service) == Some(Entry(cpus, {}, ActsAs(book, service, requested), pool)))
            && (forall n :: n != service ==> Lookup(after, n) == Lookup(book, n))
  {
    hide EffectivePolicy, InOtherPool, ClaimedByOthers, WellFormed;
    MayActIsChecked(book, service, requested, pool);
    OverlapsAreForeign(book, service, cpus);
    DifferenceFacts(cpus, ClaimedByOthers(book, service));
    if cpus != {} && cpus !! ClaimedByOthers(book, service) {
      CountGrantKeeps(book, service, cpus, ActsAs(book, service, requested), pool);
    }
  }

  lemma OverlapsAreForeign(book: Book, service: string, cpus: set<nat>)
    ensures cpus !! ClaimedByOthers(book, service) <==> forall n :: n in book && n != service ==> book[n].cpus !! cpus
  {
    if cpus !! ClaimedByOthers(book, service) {
      forall n | n in book && n != service ensures book[n].cpus !! cpus {
        assert book[n].cpus <= ClaimedByOthers(book, service);
      }
    }
  }

  /** `_apply_numa_explicit_allocation` accepts CPUs if and only if the service may act, they are
      eligible CPUs of the node, its own CPUs are eligible, everybody else yields each of them, and
      they are still online. */
  lemma ApplyNumaIff(
    book: Book, service: string, node: set<nat>, selected: set<nat>, eligible: set<nat>, requested: Option<Policy>,
    pool: Pool, recheck: Option<set<nat>>)
    requires WellFormed(book)
    ensures ApplyNuma(book, service, node, selected, eligible, requested, pool, recheck).Ok? <==>
            && MayAct(book, service, requested, pool)
            && selected <= node && selected <= eligible
            && (service in book ==> book[service].cpus <= eligible)
            && (forall n, cpu :: n in book && n != service && cpu in selected ==>
                  Yields(book[n], ActsAs(book, service, requested), pool, cpu))
            && recheck.Some? && selected <= recheck.value
    ensures ApplyNuma(book, service, node, selected, eligible, requested, pool, recheck).Ok? && selected != {} ==>
            var after := ApplyNuma(book, service, node, selected, eligible, requested, pool, recheck).value;
            && Lookup(after, service)
               == Some(Entry((Owned(book, service) - node) + selected, (OwnedExplicitly(book, service) - node) + selected,
                             ActsAs(book, service, requested), pool))
            && forall n :: n != service ==> Lookup(after, n) == if n in book then Without(book[n], selected) else None
  {
    hide EffectivePolicy, InOtherPool, WellFormed, NumaGrant, Subtract, Refused, Yields, ActsAs;
    MayActIsChecked(book, service, requested, pool);
    RefusedIff(book, service, selected, ActsAs(book, service, requested), pool);
    if selected != {} && selected <= node && !Refused(book, service, selected, ActsAs(book, service, requested), pool) {
      YieldedAreCandidates(book, service, node, selected, ActsAs(book, service, requested), pool);
      NumaGrantEntries(book, service, node, selected, ActsAs(book, service, requested), pool);
    }
  }

  lemma RefusedIff(book: Book, service: string, selected: set<nat>, policy: Policy, pool: Pool)
    requires WellFormed(book)
    ensures Refused(book, service, selected, policy, pool) <==>
            !(forall n, cpu :: n in book && n != service && cpu in selected ==> Yields(book[n], policy, pool, cpu))
  {
    forall n | n in book
      ensures MayTake(book[n], selected, policy, pool) <==> forall cpu :: cpu in selected ==> Yields(book[n], policy, pool, cpu)
    {
      MayTakeIff(book[n], selected, policy, pool);
    }
  }

  lemma MayTakeIff(entry: Entry, selected: set<nat>, policy: Policy, pool: Pool)
    requires entry.explicit <= entry.cpus
    ensures MayTake(entry, selected, policy, pool) <==> forall cpu :: cpu in selected ==> Yields(entry, policy, pool, cpu)
  {
    if entry.cpus * selected != {} {
      var cpu :| cpu in entry.cpus * selected;
      assert cpu in selected && cpu in entry.cpus;
    }
    assert forall cpu :: cpu in selected && cpu in entry.cpus ==> cpu in entry.cpus * selected;
  }

  lemma YieldedAreCandidates(
    book: Book, service: string, node: set<nat>, selected: set<nat>, policy: Policy, pool: Pool)
    requires WellFormed(book) && selected <= node && !Refused(book, service, selected, policy, pool)
    ensures selected <= NumaCandidates(book, service, node, policy, pool)
  {
    hide Refused, NumaCandidates, WellFormed;
    RefusedIff(book, service, selected, policy, pool);
    forall cpu | cpu in selected ensures cpu in NumaCandidates(book, service, node, policy, pool) {
      CandidateIffReclaimable(book, service, node, policy, pool, cpu);
    }
  }

  /** The guard inside the subtraction lets another service take CPUs of an owner that holds some of
      them if and only if that service may act, both sides are legacy and in one pool, and none of
      the CPUs is an explicit claim. */
  lemma GuardIff(book: Book, owner: string, cpus: set<nat>, requester: Requester)
    requires owner in book && book[owner].cpus * cpus != {} && requester.name != owner
    ensures SubtractGuard(book, owner, cpus, Some(requester)).None? <==>
            && MayAct(book, requester.name, requester.policy, requester.pool)
            && ActsAs(book, requester.name, requester.policy) == Legacy && book[owner].policy == Legacy
            && book[owner].pool == requester.pool && cpus !! book[owner].explicit
  {
    MayActIsChecked(book, requester.name, requester.policy, requester.pool);
    hide EffectivePolicy, InOtherPool;
  }

  /** When too few CPUs are free, the result names just those of the node that others withhold. */
  lemma WithheldAreNamed(request: Request, host: Host, book: Book)
    requires WellFormed(book) && request.AllocateNuma? && NodeKnown(request, host) && request.count > 0
    requires MayAct(book, request.service, request.policy, request.pool)
    requires Owned(book, request.service) <= Usable(host, request.pool)
    requires |FreeInNode(request, host, book)| < request.count
    ensures var node, usable := host.topology.value[request.node], Usable(host, request.pool);
            Numa(book, request.service, node, request.count, usable, request.policy, request.pool, host.recheck, host.siblings)
            == Ok(Grant(book, {}, node * usable - FreeInNode(request, host, book)))
  {
    hide WellFormed, EffectivePolicy, InOtherPool, Usable, FreeInNode, Owned, Unavailable, NumaSelection, NumaGrant;
    MayActIsChecked(book, request.service, request.policy, request.pool);
    FreeInNodeIsFiltered(request, host, book);
    var offered := host.topology.value[request.node] * Usable(host, request.pool);
    assert Acting(request, book) == ActsAs(book, request.service, request.policy);
    assert offered * Unavailable(book, request.service, Acting(request, book), request.pool)
        == offered - FreeInNode(request, host, book);
  }
}
